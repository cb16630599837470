/** What a candidate move and a tick preserve: the number of molecules, and
    where the energies of a candidate come from. */
module Conservation {
  import opened Lattice
  import opened Dynamics

  /** (x', y') is one of the four orthogonal neighbours of (x, y). */
  predicate Orthogonal(x: int, y: int, x': int, y': int) {
    (x' == x && (y' == y + 1 || y' == y - 1)) || (y' == y && (x' == x + 1 || x' == x - 1))
  }

  /** The source is cleared before the energies are read, so the moving
      molecule is not counted at its own position (it is not its own
      neighbour anyway) and is not counted as a neighbour of the destination:
      when the destination is adjacent to the source, E2 is one higher than
      the energy of the destination in the grid before the candidate. */
  lemma MoverNotCounted(g: Grid, mv: Move, accept: int -> bool)
    requires WellFormed(g) && 0 <= mv.srcX < |g| && 0 <= mv.srcY < |g|
    requires !Attempt(g, mv, accept).outcome.Rejected?
    ensures Attempt(g, mv, accept) == Evaluate(g, mv, accept)
    ensures Attempt(g, mv, accept).outcome.deltaE ==
      Energy(g, mv.dstX, mv.dstY) + B2N(Orthogonal(mv.dstX, mv.dstY, mv.srcX, mv.srcY)) - Energy(g, mv.srcX, mv.srcY)
  {
    var cleared := Set(g, mv.srcX, mv.srcY, false);
    assert Attempt(g, mv, accept).outcome.deltaE ==
      Energy(cleared, mv.dstX, mv.dstY) - Energy(cleared, mv.srcX, mv.srcY);
    ClearedEnergy(g, mv.srcX, mv.srcY, mv.srcX, mv.srcY);
    ClearedEnergy(g, mv.srcX, mv.srcY, mv.dstX, mv.dstY);
  }

  /** Lifting the molecule at (x, y) raises the energy at (p, q) by one
      exactly when (x, y) is an orthogonal neighbour of (p, q). */
  lemma ClearedEnergy(g: Grid, x: int, y: int, p: int, q: int)
    requires 0 <= x < |g| && 0 <= y < |g[x]| && g[x][y]
    ensures Energy(Set(g, x, y, false), p, q) == Energy(g, p, q) + B2N(Orthogonal(p, q, x, y))
  {
    var c, d := Neighbours(g, p, q), Neighbours(Set(g, x, y, false), p, q);
    CountOfFour(c);
    CountOfFour(d);
    assert d[0] == (c[0] && !(p + 1 == x && q == y));
    assert d[1] == (c[1] && !(p - 1 == x && q == y));
    assert d[2] == (c[2] && !(p == x && q + 1 == y));
    assert d[3] == (c[3] && !(p == x && q - 1 == y));
  }

  /** A candidate moves at most one molecule and never creates or destroys
      one: the total over the stored matrix is unchanged. A committed move
      into column N takes a molecule out of the drawn region into the
      overflow column; every other outcome leaves both counts unchanged. */
  lemma AttemptConserves(g: Grid, mv: Move, accept: int -> bool)
    requires WellFormed(g) && 0 <= mv.srcX < |g| && 0 <= mv.srcY < |g|
    ensures var r := Attempt(g, mv, accept);
      var leak := if r.outcome.Committed? && mv.dstY == |g| then 1 else 0;
      Total(r.grid) == Total(g) &&
      Drawn(r.grid) + leak == Drawn(g) &&
      Overflow(r.grid) == Overflow(g) + leak
  {
    var r := Attempt(g, mv, accept);
    if r.outcome.Committed? {
      assert r == Evaluate(g, mv, accept);
      CommitCounts(g, mv, r.grid);
    }
  }

  /** The counts after a commit, stated on the cells a commit changes. */
  lemma CommitCounts(g: Grid, mv: Move, after: Grid)
    requires WellFormed(g) && 0 <= mv.srcX < |g| && 0 <= mv.srcY < |g| && 0 <= mv.dstX < |g| && 0 <= mv.dstY <= |g|
    requires g[mv.srcX][mv.srcY] && !g[mv.dstX][mv.dstY]
    requires |after| == |g| && forall i :: 0 <= i < |g| ==> |after[i]| == |g[i]|
    requires forall i, j :: 0 <= i < |g| && 0 <= j < |g[i]| ==>
      after[i][j] == if i == mv.dstX && j == mv.dstY then true else if i == mv.srcX && j == mv.srcY then false else g[i][j]
    ensures WellFormed(after)
    ensures Total(after) == Total(g)
    ensures Drawn(after) + B2N(mv.dstY == |g|) == Drawn(g)
    ensures Overflow(after) == Overflow(g) + B2N(mv.dstY == |g|)
  {
    var n := |g|;
    SameCells(after, Set(Set(g, mv.srcX, mv.srcY, false), mv.dstX, mv.dstY, true));
    MoveCount(g, mv.srcX, mv.srcY, mv.dstX, mv.dstY, 0, n + 1);
    MoveCount(g, mv.srcX, mv.srcY, mv.dstX, mv.dstY, 0, n);
    MoveCount(g, mv.srcX, mv.srcY, mv.dstX, mv.dstY, n, n + 1);
  }

  lemma SameCells(a: Grid, b: Grid)
    requires |a| == |b| && forall i :: 0 <= i < |a| ==> |a[i]| == |b[i]|
    requires forall i, j :: 0 <= i < |a| && 0 <= j < |a[i]| ==> a[i][j] == b[i][j]
    ensures a == b
  {
    assert forall i :: 0 <= i < |a| ==> a[i] == b[i];
  }

  /** Moving a molecule from (sx, sy) to an empty (dx, dy) takes it out of
      the columns lo .. hi-1 when it leaves them, and into them when it
      enters them. */
  lemma MoveCount(g: Grid, sx: int, sy: int, dx: int, dy: int, lo: nat, hi: nat)
    requires 0 <= sx < |g| && 0 <= sy < |g[sx]| && 0 <= dx < |g| && 0 <= dy < |g[dx]|
    requires g[sx][sy] && !g[dx][dy]
    requires lo <= hi && forall i :: 0 <= i < |g| ==> hi <= |g[i]|
    ensures Count(Set(Set(g, sx, sy, false), dx, dy, true), lo, hi) + B2N(lo <= sy < hi)
         == Count(g, lo, hi) + B2N(lo <= dy < hi)
  {
    var cleared := Set(g, sx, sy, false);
    assert cleared[dx][dy] == g[dx][dy];
    CountSet(g, sx, sy, false, lo, hi);
    CountSet(cleared, dx, dy, true, lo, hi);
  }

  /** A tick conserves the number of molecules in the stored matrix. The
      overflow column only ever gains molecules (a source always lies in the
      drawn region), and the drawn region loses exactly what the overflow
      column gains. Teleport moves never reach column N, so under them the
      drawn count is conserved as well. */
  lemma {:induction false} RunConserves(g: Grid, m: MoveMethod, trials: seq<Trial>)
    requires WellFormed(g) && TrialsInRange(m, |g|, trials)
    ensures var r := Run(g, m, trials);
      Total(r) == Total(g) &&
      Overflow(g) <= Overflow(r) &&
      (m == Teleport ==> Drawn(r) == Drawn(g))
    decreases |trials|
  {
    if trials != [] {
      var init := trials[..|trials| - 1];
      var before := Run(g, m, init);
      RunConserves(g, m, init);
      var t := trials[|trials| - 1];
      AttemptConserves(before, Propose(m, |before|, t.draws), t.accept);
    }
    TotalIsDrawnPlusOverflow(g);
    TotalIsDrawnPlusOverflow(Run(g, m, trials));
  }
}
