/** The destination test of `update` accepts column N (`dstY > N` where
    `dstY >= N` is meant), so an adjacent move from column N - 1 can put a
    molecule into `matrix[dstX][N]`, a cell outside the drawn N x N region
    that no candidate can ever move out of again. This module exhibits such a
    move on the update as written and proves that the test with the intended
    bound keeps every molecule inside the drawn region. */
module ColumnBound {
  import opened Lattice
  import opened Dynamics
  import opened Conservation

  /** The energy difference of the move from (x, N - 1) to (x, N). */
  function DeltaAtEdge(g: Grid, x: int): int
    requires WellFormed(g) && 0 <= x < |g|
  {
    var cleared := Set(g, x, |g| - 1, false);
    Energy(cleared, x, |g|) - Energy(cleared, x, |g| - 1)
  }

  /** On any grid, a molecule at (x, N - 1) whose right-hand cell (x, N) is
      empty is moved there by the adjacent move with offsets (0, +1) once the
      move is accepted: every test passes, and the drawn region loses the
      molecule to the overflow column. */
  lemma MoleculeLeavesDrawnRegion(g: Grid, x: int, accept: int -> bool)
    requires WellFormed(g) && 0 <= x < |g|
    requires g[x][|g| - 1] && !g[x][|g|]
    requires accept(DeltaAtEdge(g, x))
    ensures var mv := Propose(Adjacent, |g|, Draws(x, |g| - 1, 1, 2));
      var r := Attempt(g, mv, accept);
      mv == Move(x, |g| - 1, x, |g|) && r.outcome.Committed? && r.grid[x][|g|] &&
      Drawn(r.grid) + 1 == Drawn(g) && Overflow(r.grid) == Overflow(g) + 1
  {
    var n := |g|;
    var mv := Move(x, n - 1, x, n);
    assert Propose(Adjacent, n, Draws(x, n - 1, 1, 2)) == mv;
    var cleared := Set(g, x, n - 1, false);
    var deltaE := DeltaAtEdge(g, x);
    assert deltaE == Energy(cleared, x, n) - Energy(cleared, x, n - 1);
    assert DestinationInBounds(n, x, n);
    EvaluateWith(g, mv, accept, deltaE);
    var r := Attempt(g, mv, accept);
    assert r == Evaluate(g, mv, accept);
    assert r.outcome == Committed(deltaE);
    AttemptConserves(g, mv, accept);
  }

  /** The destination test with the bound the drawing code uses for columns. */
  predicate DestinationInGrid(n: int, x: int, y: int) {
    0 <= x < n && 0 <= y < n
  }

  /** A candidate move whose destination test is `dstY >= N`: a destination in
      column N is rejected like any other out-of-bounds destination, and every
      other candidate behaves as in the update as written. Such a candidate
      conserves the molecules of the drawn region and of the overflow column
      separately. */
  function AttemptIntended(g: Grid, mv: Move, accept: int -> bool): (r: StepResult)
    requires WellFormed(g) && 0 <= mv.srcX < |g| && 0 <= mv.srcY < |g|
    ensures WellFormed(r.grid) && |r.grid| == |g|
    ensures Drawn(r.grid) == Drawn(g) && Overflow(r.grid) == Overflow(g)
    ensures r.outcome.Committed? ==> DestinationInGrid(|g|, mv.dstX, mv.dstY)
    ensures mv.dstY != |g| ==> r == Attempt(g, mv, accept)
  {
    if mv.dstY == |g| then
      StepResult(g, Rejected(OutOfBounds))
    else
      AttemptConserves(g, mv, accept);
      Attempt(g, mv, accept)
  }

  /** A tick whose candidates use the intended destination test. */
  function RunIntended(g: Grid, m: MoveMethod, trials: seq<Trial>): (r: Grid)
    requires WellFormed(g) && TrialsInRange(m, |g|, trials)
    ensures WellFormed(r) && |r| == |g|
    ensures Drawn(r) == Drawn(g) && Overflow(r) == Overflow(g)
    decreases |trials|
  {
    if trials == [] then g
    else
      var before := RunIntended(g, m, trials[..|trials| - 1]);
      var t := trials[|trials| - 1];
      AttemptIntended(before, Propose(m, |before|, t.draws), t.accept).grid
  }

  /** With the intended test, a seeded grid keeps its overflow column empty
      through any tick. */
  lemma SeededOverflowStaysEmpty(draws: seq<seq<real>>, m: MoveMethod, trials: seq<Trial>)
    requires forall i :: 0 <= i < |draws| ==> |draws[i]| == |draws|
    requires TrialsInRange(m, |draws|, trials)
    ensures Overflow(RunIntended(Seeded(draws), m, trials)) == 0
  {
    SeededOverflowEmpty(draws);
  }

  /** Teleport destinations never lie in column N, so under teleport moves the
      intended test changes nothing: a tick is the tick as written. */
  lemma {:induction false} TeleportUnaffected(g: Grid, trials: seq<Trial>)
    requires WellFormed(g) && TrialsInRange(Teleport, |g|, trials)
    ensures RunIntended(g, Teleport, trials) == Run(g, Teleport, trials)
    decreases |trials|
  {
    if trials != [] {
      TeleportUnaffected(g, trials[..|trials| - 1]);
    }
  }
}
