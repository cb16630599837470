/** The simulation as index.js runs it: one matrix of booleans updated in
    place, cell by cell. Each method is proved against the value model of
    the Dynamics module: `Cells()` is the matrix as a `Grid`. */
module Engine {
  import opened Lattice
  import opened Dynamics
  import opened Conservation

  class Simulation {
    /** The grid size N. */
    const n: nat
    /** `matrix`, with room for the overflow column N. */
    const matrix: array2<bool>

    ghost predicate Valid()
      reads this
    {
      matrix.Length0 == n && matrix.Length1 == n + 1
    }

    /** The matrix as a value. */
    ghost function Cells(): (g: Grid)
      reads this, matrix
      requires Valid()
      ensures |g| == n && WellFormed(g)
    {
      seq(n, i requires 0 <= i < n reads matrix =>
        seq(n + 1, j requires 0 <= j <= n reads matrix => matrix[i, j]))
    }

    /** `initializeMatrix`: cell (i, j) of the drawn region is occupied when
        its draw is below the density; column N does not exist yet and reads
        as unoccupied. */
    constructor (size: nat, draws: seq<seq<real>>)
      requires |draws| == size && forall i :: 0 <= i < size ==> |draws[i]| == size
      ensures Valid() && n == size && fresh(matrix)
      ensures Cells() == Seeded(draws)
    {
      var a := new bool[size, size + 1];
      var i := 0;
      while i < size
        invariant 0 <= i <= size
        invariant forall r, c :: 0 <= r < i && 0 <= c <= size ==> a[r, c] == (c < size && draws[r][c] < Density)
      {
        var j := 0;
        while j < size
          invariant 0 <= j <= size
          invariant forall r, c :: 0 <= r < i && 0 <= c <= size ==> a[r, c] == (c < size && draws[r][c] < Density)
          invariant forall c :: 0 <= c < j ==> a[i, c] == (draws[i][c] < Density)
        {
          a[i, j] := draws[i][j] < Density;
          j := j + 1;
        }
        a[i, size] := false;
        i := i + 1;
      }
      n, matrix := size, a;
      new;
      assert forall r :: 0 <= r < n ==> Cells()[r] == Seeded(draws)[r];
    }

    /** `(matrix[r] || [])[c]` on the stored matrix. */
    function At(r: int, c: int): (v: bool)
      reads this, matrix
      requires Valid()
      ensures v == Get(Cells(), r, c)
    {
      0 <= r < n && 0 <= c <= n && matrix[r, c]
    }

    /** `-arraySum(neighborDeltas.map(...))` at (x, y) on the stored matrix. */
    function NeighbourEnergy(x: int, y: int): (e: int)
      reads this, matrix
      requires Valid()
      ensures e == Energy(Cells(), x, y)
    {
      var vs := seq(|NeighborDeltas|, k requires 0 <= k < |NeighborDeltas| && Valid() reads this, matrix =>
        At(x + NeighborDeltas[k].0, y + NeighborDeltas[k].1));
      assert vs == Neighbours(Cells(), x, y);
      -ArraySum(vs)
    }

    /** `matrix[x][y] = v` changes `Cells()` in exactly that cell. */
    method Write(x: int, y: int, v: bool)
      requires Valid() && 0 <= x < n && 0 <= y <= n
      modifies matrix
      ensures Valid() && Cells() == Set(old(Cells()), x, y, v)
    {
      matrix[x, y] := v;
      assert forall i :: 0 <= i < n ==> Cells()[i] == Set(old(Cells()), x, y, v)[i];
    }

    /** One pass of the loop body of `update`, proved to be `Attempt` on the
        proposal of its draws: the matrix afterwards is the grid `Attempt`
        computes and the outcome is its outcome. */
    method Candidate(m: MoveMethod, t: Trial) returns (outcome: Outcome)
      requires Valid() && DrawsInRange(m, n, t.draws)
      modifies matrix
      ensures Valid()
      ensures StepResult(Cells(), outcome) == Attempt(old(Cells()), Propose(m, n, t.draws), t.accept)
    {
      ghost var g := Cells();
      var mv := Propose(m, n, t.draws);
      var srcX, srcY, dstX, dstY := mv.srcX, mv.srcY, mv.dstX, mv.dstY;
      if dstX == srcX && dstY == srcY {
        return Rejected(SameCell);
      }
      if dstX < 0 || dstX >= n || dstY < 0 || dstY > n {
        return Rejected(OutOfBounds);
      }
      if !matrix[srcX, srcY] {
        return Rejected(EmptySource);
      }
      if matrix[dstX, dstY] {
        return Rejected(OccupiedDestination);
      }
      assert Attempt(g, mv, t.accept) == Evaluate(g, mv, t.accept);
      Write(srcX, srcY, false);
      ghost var cleared := Cells();
      assert cleared == Set(g, srcX, srcY, false);
      var e1 := NeighbourEnergy(srcX, srcY);
      var e2 := NeighbourEnergy(dstX, dstY);
      var deltaE := e2 - e1;
      EvaluateWith(g, mv, t.accept, deltaE);
      if t.accept(deltaE) {
        Write(dstX, dstY, true);
        outcome := Committed(deltaE);
      } else {
        Write(srcX, srcY, true);
        outcome := Reverted(deltaE);
        SetRestores(g, srcX, srcY);
      }
    }

    /** `update`: one tick of `AttemptCount(N)` candidates, all with the same
        move method. The matrix afterwards is `Run` of the candidates, so it
        holds as many molecules as before. */
    method Update(m: MoveMethod, trials: seq<Trial>)
      requires Valid() && TrialsInRange(m, n, trials) && |trials| == AttemptCount(n)
      modifies matrix
      ensures Valid()
      ensures Cells() == Run(old(Cells()), m, trials)
      ensures Total(Cells()) == Total(old(Cells()))
    {
      var i := 0;
      while i < |trials|
        invariant 0 <= i <= |trials|
        invariant Valid()
        invariant Cells() == Run(old(Cells()), m, trials[..i])
      {
        assert trials[..i + 1][..i] == trials[..i];
        var _ := Candidate(m, trials[i]);
        i := i + 1;
      }
      assert trials[..|trials|] == trials;
      RunConserves(old(Cells()), m, trials);
    }
  }
}
