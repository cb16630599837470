/** The lattice-gas update of index.js: neighbour energy, the proposal of a move,
    one candidate move (`Attempt`) and a tick of candidate moves (`Run`).

    Every `Math.random()` is an explicit input: the integer draws of a proposal
    are a `Draws` value, and the acceptance test `Math.random() < q` with
    `q = 1 / (1 + exp(deltaE / temp))` is a function `accept` from the energy
    difference to the decision, fixed by the candidate's draw and the tick's
    temperature. */
module Dynamics {
  import opened Lattice

  /** `arraySum`: a left fold that adds each truthy entry (`true` counts as 1)
      and skips the falsy ones, so it returns the number of truthy entries. */
  function ArraySum(values: seq<bool>): (s: int)
    ensures s == multiset(values)[true]
    ensures 0 <= s <= |values|
  {
    SumFrom(0, values)
  }

  /** The fold from the accumulator `acc`: `acc` plus the truthy entries. */
  function SumFrom(acc: int, values: seq<bool>): (s: int)
    ensures s == acc + multiset(values)[true]
    ensures multiset(values)[true] <= |values|
    decreases |values|
  {
    if values == [] then acc
    else
      assert values == [values[0]] + values[1..];
      SumFrom(if values[0] then acc + 1 else acc, values[1..])
  }

  /** The four orthogonal offsets of `neighborDeltas`. */
  const NeighborDeltas: seq<(int, int)> := [(1, 0), (-1, 0), (0, 1), (0, -1)]

  /** `neighborDeltas.map(delta => (matrix[x + delta[0]] || [])[y + delta[1]])`:
      the reads below, above, right of and left of (x, y), in that order. */
  function Neighbours(g: Grid, x: int, y: int): (vs: seq<bool>)
    ensures |vs| == 4
    ensures vs[0] == Get(g, x + 1, y) && vs[1] == Get(g, x - 1, y)
    ensures vs[2] == Get(g, x, y + 1) && vs[3] == Get(g, x, y - 1)
  {
    seq(|NeighborDeltas|, k requires 0 <= k < |NeighborDeltas| =>
      Get(g, x + NeighborDeltas[k].0, y + NeighborDeltas[k].1))
  }

  /** The energy at (x, y): minus the number of occupied entries among the
      four neighbour reads, an integer in [-4, 0]. */
  function Energy(g: Grid, x: int, y: int): (e: int)
    ensures e + multiset(Neighbours(g, x, y))[true] == 0
    ensures -4 <= e <= 0
  {
    -ArraySum(Neighbours(g, x, y))
  }

  lemma CountOfFour(vs: seq<bool>)
    requires |vs| == 4
    ensures multiset(vs)[true] == B2N(vs[0]) + B2N(vs[1]) + B2N(vs[2]) + B2N(vs[3])
  {
    assert vs == [vs[0]] + [vs[1]] + [vs[2]] + [vs[3]];
  }

  /** Open boundary: a neighbour read beyond the first or last row, or left of
      column 0, contributes 0 rather than wrapping to the opposite edge, so
      cells on those edges have at most three counted neighbours and the
      corners (0, 0) and (N - 1, 0) at most two. The corners in column N - 1
      are not covered: their right-hand neighbour in column N is readable. */
  lemma OpenBoundary(g: Grid, x: int, y: int)
    requires WellFormed(g) && 0 <= x < |g| && 0 <= y < |g|
    ensures x == 0 ==> -3 <= Energy(g, x, y)
    ensures x == |g| - 1 ==> -3 <= Energy(g, x, y)
    ensures y == 0 ==> -3 <= Energy(g, x, y)
    ensures (x == 0 || x == |g| - 1) && y == 0 ==> -2 <= Energy(g, x, y)
  {
    var vs := Neighbours(g, x, y);
    CountOfFour(vs);
    assert x == 0 ==> !vs[1];
    assert x == |g| - 1 ==> !vs[0];
    assert y == 0 ==> !vs[3];
  }

  /** The value of `getMoveMethod()`: only these two strings can be returned. */
  datatype MoveMethod = Adjacent | Teleport

  /** The integer draws `Math.floor(Math.random() * k)` of one candidate: the
      source row and column, then either the two offsets plus one (k = 3) for
      an adjacent move or the destination row and column (k = N) for a
      teleport. */
  datatype Draws = Draws(srcX: int, srcY: int, a: int, b: int)

  /** What `Math.floor(Math.random() * k)` can return for each draw. */
  predicate DrawsInRange(m: MoveMethod, n: nat, d: Draws) {
    0 <= d.srcX < n && 0 <= d.srcY < n &&
    match m
    case Adjacent => 0 <= d.a < 3 && 0 <= d.b < 3
    case Teleport => 0 <= d.a < n && 0 <= d.b < n
  }

  datatype Move = Move(srcX: int, srcY: int, dstX: int, dstY: int)

  /** The source and destination of one candidate. The destination column
      reaches N or beyond only through an adjacent move from column N - 1. */
  function Propose(m: MoveMethod, n: nat, d: Draws): (mv: Move)
    requires DrawsInRange(m, n, d)
    ensures 0 <= mv.srcX < n && 0 <= mv.srcY < n
    ensures m == Adjacent ==> -1 <= mv.dstX - mv.srcX <= 1 && -1 <= mv.dstY - mv.srcY <= 1
    ensures m == Teleport ==> 0 <= mv.dstX < n && 0 <= mv.dstY < n
    ensures mv.dstY >= n ==> m == Adjacent && mv.srcY == n - 1 && mv.dstY == n
  {
    match m
    case Adjacent => Move(d.srcX, d.srcY, d.srcX + d.a - 1, d.srcY + d.b - 1)
    case Teleport => Move(d.srcX, d.srcY, d.a, d.b)
  }

  /** The destination test of the update as written: the row must lie in
      [0, N) but the column only in [0, N], so column N passes. */
  function DestinationInBounds(n: int, x: int, y: int): (ok: bool)
    ensures ok <==> 0 <= x < n && 0 <= y <= n
  {
    !(x < 0 || x >= n || y < 0 || y > n)
  }

  datatype Rejection = SameCell | OutOfBounds | EmptySource | OccupiedDestination

  /** How a candidate ends: rejected by one of the four early tests, or
      evaluated with energy difference `deltaE` and then committed (the
      molecule moves) or reverted (the source is restored). */
  datatype Outcome = Rejected(why: Rejection) | Committed(deltaE: int) | Reverted(deltaE: int)

  datatype StepResult = StepResult(grid: Grid, outcome: Outcome)

  /** One candidate move: one pass of the loop body of `update`. The four
      early tests come first; a candidate that passes them is evaluated. */
  function Attempt(g: Grid, mv: Move, accept: int -> bool): (r: StepResult)
    requires WellFormed(g) && 0 <= mv.srcX < |g| && 0 <= mv.srcY < |g|
    ensures WellFormed(r.grid) && |r.grid| == |g|
    ensures r.outcome.Rejected? <==>
      (mv.dstX == mv.srcX && mv.dstY == mv.srcY) || !DestinationInBounds(|g|, mv.dstX, mv.dstY) ||
      !g[mv.srcX][mv.srcY] || Get(g, mv.dstX, mv.dstY)
    ensures r.outcome.Rejected? ==> r.grid == g
  {
    var n := |g|;
    if mv.dstX == mv.srcX && mv.dstY == mv.srcY then StepResult(g, Rejected(SameCell))
    else if !DestinationInBounds(n, mv.dstX, mv.dstY) then StepResult(g, Rejected(OutOfBounds))
    else if !g[mv.srcX][mv.srcY] then StepResult(g, Rejected(EmptySource))
    else if g[mv.dstX][mv.dstY] then StepResult(g, Rejected(OccupiedDestination))
    else Evaluate(g, mv, accept)
  }

  /** A candidate that passed the early tests: the molecule is lifted from
      the source, the energies of source and destination are read from the
      grid without it, and the decision on their difference either moves the
      molecule to the destination or puts it back. */
  function Evaluate(g: Grid, mv: Move, accept: int -> bool): (r: StepResult)
    requires WellFormed(g) && 0 <= mv.srcX < |g| && 0 <= mv.srcY < |g|
    requires DestinationInBounds(|g|, mv.dstX, mv.dstY) && (mv.dstX != mv.srcX || mv.dstY != mv.srcY)
    requires g[mv.srcX][mv.srcY] && !g[mv.dstX][mv.dstY]
    ensures WellFormed(r.grid) && |r.grid| == |g|
    ensures !r.outcome.Rejected? && -4 <= r.outcome.deltaE <= 4
    ensures r.outcome.Committed? <==> accept(r.outcome.deltaE)
    ensures r.outcome.Reverted? ==> r.grid == g
    ensures r.outcome.Committed? ==>
      !r.grid[mv.srcX][mv.srcY] && r.grid[mv.dstX][mv.dstY] &&
      forall i, j :: 0 <= i < |g| && 0 <= j < |g[i]| && (i != mv.srcX || j != mv.srcY) && (i != mv.dstX || j != mv.dstY) ==>
        r.grid[i][j] == g[i][j]
  {
    var cleared := Set(g, mv.srcX, mv.srcY, false);
    var e1 := Energy(cleared, mv.srcX, mv.srcY);
    var e2 := Energy(cleared, mv.dstX, mv.dstY);
    var deltaE := e2 - e1;
    if accept(deltaE) then
      StepResult(Set(cleared, mv.dstX, mv.dstY, true), Committed(deltaE))
    else
      SetRestores(g, mv.srcX, mv.srcY);
      StepResult(Set(cleared, mv.srcX, mv.srcY, true), Reverted(deltaE))
  }

  /** `Evaluate` unfolded, in terms of the energy difference it computes.
      This is a helper for proof performance: callers that already hold the
      difference use it instead of unfolding `Evaluate` themselves. */
  lemma EvaluateWith(g: Grid, mv: Move, accept: int -> bool, deltaE: int)
    requires WellFormed(g) && 0 <= mv.srcX < |g| && 0 <= mv.srcY < |g|
    requires DestinationInBounds(|g|, mv.dstX, mv.dstY) && (mv.dstX != mv.srcX || mv.dstY != mv.srcY)
    requires g[mv.srcX][mv.srcY] && !g[mv.dstX][mv.dstY]
    requires var cleared := Set(g, mv.srcX, mv.srcY, false);
      deltaE == Energy(cleared, mv.dstX, mv.dstY) - Energy(cleared, mv.srcX, mv.srcY)
    ensures Evaluate(g, mv, accept) ==
      if accept(deltaE) then StepResult(Set(Set(g, mv.srcX, mv.srcY, false), mv.dstX, mv.dstY, true), Committed(deltaE))
      else StepResult(g, Reverted(deltaE))
  {
  }

  /** Putting a lifted molecule back restores the grid. */
  lemma SetRestores(g: Grid, x: int, y: int)
    requires 0 <= x < |g| && 0 <= y < |g[x]| && g[x][y]
    ensures Set(Set(g, x, y, false), x, y, true) == g
  {
    assert g[x][y := false][y := true] == g[x];
  }

  /** One candidate of a tick: its draws and its acceptance decision. */
  datatype Trial = Trial(draws: Draws, accept: int -> bool)

  predicate TrialsInRange(m: MoveMethod, n: nat, trials: seq<Trial>) {
    forall k :: 0 <= k < |trials| ==> DrawsInRange(m, n, trials[k].draws)
  }

  /** The grid after the candidates `trials`, in order. */
  function Run(g: Grid, m: MoveMethod, trials: seq<Trial>): (r: Grid)
    requires WellFormed(g) && TrialsInRange(m, |g|, trials)
    ensures WellFormed(r) && |r| == |g|
    decreases |trials|
  {
    if trials == [] then g
    else
      var before := Run(g, m, trials[..|trials| - 1]);
      var t := trials[|trials| - 1];
      Attempt(before, Propose(m, |before|, t.draws), t.accept).grid
  }

  /** The number of passes of `for (i = 0; i < N * N * 0.20; i++)`: the least
      integer not below N^2 / 5 (2000 for N = 100). */
  function AttemptCount(n: nat): (k: nat)
    ensures n * n <= 5 * k < n * n + 5
  {
    (n * n + 4) / 5
  }
}
