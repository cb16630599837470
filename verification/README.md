# Lattice-gas update of boilingpoint, modelled in Dafny

boilingpoint simulates a lattice gas on an N x N boolean matrix (N = 100).
Each tick of `update` makes a fixed number of candidate moves. A candidate
picks a source cell and a destination, either an adjacent cell or any cell
("teleport"). It is rejected early if the destination is the source, lies
out of bounds, the source is empty or the destination is occupied.
Otherwise the molecule is lifted from the source, and the energies of the
source and destination positions are computed. Each energy is minus the
number of occupied orthogonal neighbours, and reads beyond the matrix count
as empty. The move is then committed, or the source is restored, according
to a logistic acceptance rule in the energy difference and the temperature.

The project has five modules:

- `Lattice` (lattice.dfy): the matrix as a value `Grid`, its total read
  `Get`, the seeding of `initializeMatrix`, and occupancy counts.
- `Dynamics` (dynamics.dfy): `arraySum`, the neighbour energy, the proposal
  of a move, one candidate (`Attempt`) and a tick of candidates (`Run`).
- `Conservation` (conservation.dfy): what a candidate and a tick preserve.
- `ColumnBound` (column_bound.dfy): the off-by-one in the destination test.
- `Engine` (engine.dfy): the class `Simulation`. It holds the matrix as an
  `array2<bool>` updated in place. Its constructor and methods are proved
  equal to the value model.

The matrix has N rows of N + 1 cells. Column N is an overflow column. The
destination test of index.js:86 admits `dstY == N`, so a molecule can be
written to `matrix[dstX][N]`. Before such a write that cell does not exist
and reads as falsy, so the overflow column starts out `false`. It is never
drawn. Once written it is read back like any other cell. The
occupied-destination test reads it. So does the energy of a cell in column
N - 1. The energy E2 of a destination in column N reads the cells
(dstX + 1, N) and (dstX - 1, N) above and below it.

Every random draw is an input:

- A candidate's integer draws `Math.floor(Math.random() * k)` form a `Draws`
  value. Its source row and column come first. Then come either the two
  offsets plus one (k = 3), or the destination row and column (k = N).
- The acceptance test `Math.random() < 1 / (1 + exp(deltaE / temp))` is a
  function `accept: int -> bool` of the energy difference. The candidate's
  own draw and the tick's temperature fix that function.
- The seeding draws of `initializeMatrix` form a matrix of reals in [0, 1).

## Model

| member | source | states |
|---|---|---|
| `Lattice.Get` | index.js:92-95 | A read at a row or column that is not stored is unoccupied, with no wrap-around. A read inside the stored matrix returns that cell. |
| `Lattice.Seeded` | index.js:8-16 | The seeded grid has N rows of N + 1 cells. Drawn cell (i, j) is occupied exactly when its draw is below 0.1. The overflow column is empty. |
| `Lattice.SeededOverflowEmpty` | index.js:8-16 | A freshly seeded matrix has no molecule outside the drawn region. |
| `Lattice.Set` | index.js:91-103 | Writing one cell keeps N rows of N + 1 cells. The written cell holds the new value, and every other cell is unchanged. |
| `Lattice.CountSet` | index.js:91-103 | Writing one cell changes the molecule count of a column range by the new value minus the old one, when the cell lies in that range. |
| `Lattice.TotalIsDrawnPlusOverflow` | index.js:36-41 | Every stored molecule is either in the drawn N x N region or in column N. |
| `Dynamics.ArraySum` | index.js:44-47 | `arraySum` returns the number of truthy entries, between 0 and the length. |
| `Dynamics.SumFrom` | index.js:46 | The fold from an accumulator returns the accumulator plus the number of truthy entries. That number is at most the length. |
| `Dynamics.Neighbours` | index.js:94-95 | The map over `neighborDeltas` gives four reads: the cells below, above, right of and left of (x, y), each by the total read `Get`. |
| `Dynamics.Energy` | index.js:94-95 | The energy is minus the number of occupied neighbour reads, an integer in [-4, 0]. |
| `Dynamics.OpenBoundary` | index.js:92-95 | Cells on the first row, the last row or column 0 count at most three neighbours. The corners (0, 0) and (N - 1, 0) count at most two. The corners in column N - 1 are not covered, because column N is readable and can hold a molecule. |
| `Dynamics.Propose` | index.js:68-81 | The source lies in [0, N) x [0, N). An adjacent destination is within one step in each coordinate. A teleport destination lies in [0, N) x [0, N). A destination column of N or more occurs only for an adjacent move from column N - 1, and is then exactly N. |
| `Dynamics.DestinationInBounds` | index.js:86 | The destination test as written passes exactly when the row lies in [0, N) and the column in [0, N], column N included. |
| `Dynamics.Attempt` | index.js:85-88 | A candidate is rejected exactly when one of four things holds: it names the source itself, its destination is out of bounds (column N admitted), its source is empty, or its destination is occupied. A rejected candidate leaves the grid unchanged. |
| `Dynamics.Evaluate` | index.js:91-104 | A candidate that passed the tests carries a deltaE in [-4, 4]. It commits exactly when `accept(deltaE)`. A revert leaves the grid as it was. A commit empties the source, fills the destination and changes no other cell. |
| `Dynamics.Run` | index.js:67-105 | A tick keeps the matrix at N rows of N + 1 cells. |
| `Dynamics.AttemptCount` | index.js:66-67 | A tick makes the least integer number of candidates not below N^2 / 5. |
| `Conservation.ClearedEnergy` | index.js:91-95 | Lifting a molecule raises the energy at a position by one exactly when the molecule is one of that position's orthogonal neighbours. |
| `Conservation.MoverNotCounted` | index.js:91-96 | deltaE equals the destination's energy before the candidate, plus one if the source is next to the destination, minus the source's energy. The moving molecule never counts as its own neighbour or as the destination's neighbour. |
| `Conservation.AttemptConserves` | index.js:85-104 | A candidate keeps the number of molecules in the stored matrix. The drawn region loses one molecule, and the overflow column gains it, exactly when a move into column N commits. Otherwise both counts are unchanged. |
| `Conservation.RunConserves` | index.js:67-105 | A tick keeps the number of stored molecules. The overflow column never loses one. Under teleport moves the drawn count is kept too. |
| `ColumnBound.MoleculeLeavesDrawnRegion` | index.js:86 | On any grid, take a molecule at (x, N - 1) with (x, N) empty. The adjacent move from it with offsets (0, +1), once accepted, passes every test and commits. It writes the molecule to (x, N). The drawn count drops by one and the overflow count rises by one. |
| `ColumnBound.AttemptIntended` | index.js:86 | With the column test `dstY >= N`, a candidate keeps the drawn count and the overflow count separately. It commits only to destinations inside the drawn region. It agrees with the update as written on every destination outside column N. |
| `ColumnBound.RunIntended` | index.js:67-105 | A tick of candidates with the intended test keeps the drawn count and the overflow count separately. |
| `ColumnBound.SeededOverflowStaysEmpty` | index.js:67-105 | With the intended test, a freshly seeded matrix has an empty overflow column after any tick. |
| `ColumnBound.TeleportUnaffected` | index.js:78-86 | Under teleport moves the intended test changes nothing: a tick with it equals the tick as written. |
| `Engine.Simulation.constructor` | index.js:8-16 | The nested loops leave the matrix equal to the seeded grid of the draws. |
| `Engine.Simulation.At` | index.js:94-95 | A read of the stored matrix is the total read `Get` of its value. |
| `Engine.Simulation.NeighbourEnergy` | index.js:94-95 | The energy computed from the stored matrix is the model's `Energy`. |
| `Engine.Simulation.Write` | index.js:91-103 | An in-place write of one cell leaves the matrix equal to `Set` of the old matrix at that cell. |
| `Engine.Simulation.Candidate` | index.js:68-104 | One in-place candidate leaves the matrix and outcome that `Attempt` computes from the old matrix and the proposal of its draws. |
| `Engine.Simulation.Update` | index.js:62-105 | A tick of `AttemptCount(N)` candidates leaves the matrix equal to `Run` of the old matrix, holding as many molecules as before. |

## Left out

- Rendering and page setup (`draw`, `onLoad`, `updateTemperatureDisplay`, index.js:18-42, 111-113) are canvas and DOM output. So is the `draw()` call at the end of `update`.
- The DOM reads `getTemp` and `getMoveMethod` (index.js:49-59) are left out. The move method is a parameter. The temperature enters only through the `accept` function. `getMoveMethod()` is called once per candidate, but no DOM event can run during the synchronous loop. So the model passes one move method per tick.
- `setInterval` scheduling (index.js:25) is a timer and is not modelled.
- `Math.random()` is never called. Every draw is an input, and its range is a precondition: the range `Math.floor(Math.random() * k)` guarantees.
- Dynamics.Evaluate: the acceptance decision is any function of deltaE. The floating-point probability `1 / (1 + exp(deltaE / temp))` and its comparison with a uniform draw (index.js:97-98) are not modelled. So the model covers every decision rule, the logistic one included.
- The `default` branch of the move-method switch (index.js:82-83) cannot be reached, because `getMoveMethod` returns only the two strings. The two-constructor `MoveMethod` has no third case.
- The pass count `N * N * 0.20` is a float product and is modelled by the exact `AttemptCount`. The double nearest 0.2 exceeds it by a relative 2^-54, so the product lies within half an ulp of N^2 / 5. When 5 divides N^2 that is exactly N^2 / 5. Otherwise N^2 / 5 lies at least 0.2 from an integer. Either way the loop makes exactly `AttemptCount(N)` passes, 2000 for N = 100.
- A seeding draw is compared with the exact rational 0.1. The float literal 0.1 lies slightly above it, but no double lies between the two, so the comparison is the same.
- Off-grid reads of index.js:94-95 are `undefined` in the source and `false` here. `arraySum` ignores both alike.
- The destination test of index.js:86 checks the row against [0, N) in full. It is the column whose upper test is off by one (`dstY > N`). This model follows the code on that point.

## Findings

| source | as written | input that shows it | evidently intended | confidence | as-written member | corrected member |
|---|---|---|---|---|---|---|
| index.js:86 | `dstY > N` lets the destination column equal N. An accepted adjacent move from column N - 1 then writes `matrix[dstX][N]`. That cell lies outside the drawn N x N region, and no later candidate can move the molecule out of it, since sources lie in [0, N). | N = 100, a molecule at (x, 99) with (x, 100) never written, adjacent move from it with offsets (0, +1), accepted | `dstY >= N`, keeping every molecule in the drawn region | high (not executed) | `ColumnBound.MoleculeLeavesDrawnRegion` | `ColumnBound.AttemptIntended` |

`Engine.Simulation` keeps the test as written, because it models the
program as it runs. `AttemptIntended` applies the intended test to the same
candidate.
