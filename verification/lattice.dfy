/** The simulation state of the lattice gas: the global `matrix` of index.js.

    `g[x][y]` is the cell in drawn row `x` and column `y`. A well-formed grid of
    size N has N rows of N + 1 cells: columns 0 .. N-1 are the N x N region that
    is drawn, and column N is an overflow column. The update's bounds check lets a
    molecule be written to `matrix[x][N]`; before any such write that cell does
    not exist and reads as falsy, which the overflow column models as `false`. */
module Lattice {

  type Grid = seq<seq<bool>>

  /** Seeding density: a cell starts occupied when its uniform draw is below it. */
  const Density: real := 0.1

  /** N rows, each of N drawn cells plus the overflow cell in column N. */
  predicate WellFormed(g: Grid) {
    forall i :: 0 <= i < |g| ==> |g[i]| == |g| + 1
  }

  /** Reads `(matrix[r] || [])[c]` as a truth value: a row or column that is not
      stored (row -1 or N, column -1 or N + 1) gives `undefined`, which counts as
      unoccupied. The grid does not wrap around. */
  function Get(g: Grid, r: int, c: int): (v: bool)
    ensures !(0 <= r < |g| && 0 <= c < |g[r]|) ==> !v
    ensures 0 <= r < |g| && 0 <= c < |g[r]| ==> v == g[r][c]
  {
    0 <= r < |g| && 0 <= c < |g[r]| && g[r][c]
  }

  /** The assignment `matrix[x][y] = v`. */
  function Set(g: Grid, x: int, y: int, v: bool): (r: Grid)
    requires 0 <= x < |g| && 0 <= y < |g[x]|
    ensures |r| == |g| && forall i :: 0 <= i < |g| ==> |r[i]| == |g[i]|
    ensures WellFormed(g) ==> WellFormed(r)
    ensures forall i, j :: 0 <= i < |g| && 0 <= j < |g[i]| ==>
      r[i][j] == if i == x && j == y then v else g[i][j]
  {
    g[x := g[x][y := v]]
  }

  /** The grid `initializeMatrix` builds from one uniform draw in [0, 1) per
      drawn cell, `draws[i][j]` being the draw for cell (i, j). */
  function Seeded(draws: seq<seq<real>>): (g: Grid)
    requires forall i :: 0 <= i < |draws| ==> |draws[i]| == |draws|
    ensures |g| == |draws| && WellFormed(g)
    ensures forall i, j :: 0 <= i < |g| && 0 <= j < |draws| ==> (g[i][j] <==> draws[i][j] < Density)
    ensures forall i :: 0 <= i < |g| ==> !g[i][|g|]
  {
    seq(|draws|, i requires 0 <= i < |draws| =>
      seq(|draws| + 1, j requires 0 <= j <= |draws| => j < |draws| && draws[i][j] < Density))
  }

  /** Number of occupied cells in a row. */
  function Occupied(s: seq<bool>): nat {
    multiset(s)[true]
  }

  /** Number of occupied cells of `g` in columns lo .. hi-1, over all rows. */
  function Count(g: Grid, lo: nat, hi: nat): nat
    requires lo <= hi
    requires forall i :: 0 <= i < |g| ==> hi <= |g[i]|
  {
    if g == [] then 0 else Count(g[..|g| - 1], lo, hi) + Occupied(g[|g| - 1][lo..hi])
  }

  /** Occupied cells in the whole stored matrix, overflow column included. */
  function Total(g: Grid): nat
    requires WellFormed(g)
  {
    Count(g, 0, |g| + 1)
  }

  /** Occupied cells in the drawn N x N region. */
  function Drawn(g: Grid): nat
    requires WellFormed(g)
  {
    Count(g, 0, |g|)
  }

  /** Occupied cells in the overflow column N, which is never drawn. */
  function Overflow(g: Grid): nat
    requires WellFormed(g)
  {
    Count(g, |g|, |g| + 1)
  }

  function B2N(b: bool): nat { if b then 1 else 0 }

  /** Writing one cell changes the count of a column range by the difference
      of the old and new value, when the cell lies in the range. */
  lemma {:induction false} CountSet(g: Grid, x: int, y: int, v: bool, lo: nat, hi: nat)
    requires 0 <= x < |g| && 0 <= y < |g[x]|
    requires lo <= hi && forall i :: 0 <= i < |g| ==> hi <= |g[i]|
    ensures Count(Set(g, x, y, v), lo, hi) + (if lo <= y < hi then B2N(g[x][y]) else 0)
         == Count(g, lo, hi) + (if lo <= y < hi then B2N(v) else 0)
  {
    var r := Set(g, x, y, v);
    var last := |g| - 1;
    if x == last {
      assert r[..last] == g[..last];
      OccupiedSet(g[last], y, v, lo, hi);
    } else {
      assert r[..last] == Set(g[..last], x, y, v);
      CountSet(g[..last], x, y, v, lo, hi);
      assert r[last] == g[last];
    }
  }

  /** The same for one row. */
  lemma OccupiedSet(s: seq<bool>, y: int, v: bool, lo: nat, hi: nat)
    requires 0 <= y < |s| && lo <= hi <= |s|
    ensures Occupied(s[y := v][lo..hi]) + (if lo <= y < hi then B2N(s[y]) else 0)
         == Occupied(s[lo..hi]) + (if lo <= y < hi then B2N(v) else 0)
  {
  }

  /** A column range splits into two adjacent ranges. */
  lemma {:induction false} CountSplit(g: Grid, lo: nat, mid: nat, hi: nat)
    requires lo <= mid <= hi && forall i :: 0 <= i < |g| ==> hi <= |g[i]|
    ensures Count(g, lo, hi) == Count(g, lo, mid) + Count(g, mid, hi)
  {
    if g != [] {
      CountSplit(g[..|g| - 1], lo, mid, hi);
      var row := g[|g| - 1];
      assert row[lo..hi] == row[lo..mid] + row[mid..hi];
    }
  }

  /** Every occupied cell is either drawn or in the overflow column. */
  lemma TotalIsDrawnPlusOverflow(g: Grid)
    requires WellFormed(g)
    ensures Total(g) == Drawn(g) + Overflow(g)
  {
    CountSplit(g, 0, |g|, |g| + 1);
  }

  /** A freshly seeded grid has nothing in the overflow column. */
  lemma {:induction false} SeededOverflowEmpty(draws: seq<seq<real>>)
    requires forall i :: 0 <= i < |draws| ==> |draws[i]| == |draws|
    ensures Overflow(Seeded(draws)) == 0
  {
    var g := Seeded(draws);
    EmptyColumnCount(g, |g|);
  }

  lemma {:induction false} EmptyColumnCount(g: Grid, c: nat)
    requires forall i :: 0 <= i < |g| ==> c < |g[i]| && !g[i][c]
    ensures Count(g, c, c + 1) == 0
  {
    if g != [] {
      EmptyColumnCount(g[..|g| - 1], c);
      assert g[|g| - 1][c..c + 1] == [false];
    }
  }
}
