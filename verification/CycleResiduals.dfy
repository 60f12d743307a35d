/** What one V-cycle makes of the residual, in terms of the matrices alone. */
module CycleResiduals {
  import opened Basics
  import opened Sums
  import opened Vectors
  import opened VCycle

  /** `r - A (omega D^-1 r)`: the residual that one damped sweep leaves of `r`. */
  function Damped(a: Matrix, omega: real, r: Vector): (r': Vector)
    requires NonzeroDiagonal(a) && |r| == |a|
    ensures |r'| == |r|
  {
    var step := seq(|a|, j requires 0 <= j < |a| => omega * At(r, j) / Entry(a, j, j));
    seq(|a|, i requires 0 <= i < |a| => r[i] - Dot(a[i], step))
  }

  function DampedTimes(a: Matrix, omega: real, k: nat, r: Vector): (r': Vector)
    requires NonzeroDiagonal(a) && |r| == |a|
    ensures |r'| == |r|
  {
    if k == 0 then r else Damped(a, omega, DampedTimes(a, omega, k - 1, r))
  }

  /** The residual after a correction is the one before it less the operator's part of the correction. */
  lemma {:induction false} ResidualAfter(a: Matrix, n: nat, b: Vector, x: Vector, d: Vector)
    requires Shape(a, n, n) && |b| == |x| == |d| == n
    ensures Residual(a, b, Add(x, d)) == Sub(Residual(a, b, x), MatVec(a, d))
  {
    MatVecAdd(a, x, d, n);
  }

  lemma {:induction false} SweepResidual(a: Matrix, n: nat, omega: real, b: Vector, x: Vector)
    requires Shape(a, n, n) && NonzeroDiagonal(a) && |b| == |x| == n
    ensures Residual(a, b, JacobiSweep(a, b, x, omega)) == Damped(a, omega, Residual(a, b, x))
  {
    var r := Residual(a, b, x);
    ResidualAfter(a, n, b, x, Correction(a, omega, r));
    assert Correction(a, omega, r) == seq(n, j requires 0 <= j < n => omega * At(r, j) / Entry(a, j, j));
  }

  /** Every sweep damps the residual once more. */
  lemma {:induction false} SweepsResidual(a: Matrix, n: nat, omega: real, b: Vector, x: Vector, k: nat)
    requires Shape(a, n, n) && NonzeroDiagonal(a) && |b| == |x| == n
    ensures |Sweeps(a, b, x, omega, k)| == n
    ensures Residual(a, b, Sweeps(a, b, x, omega, k)) == DampedTimes(a, omega, k, Residual(a, b, x))
  {
    if k > 0 {
      SweepsResidual(a, n, omega, b, x, k - 1);
      SweepResidual(a, n, omega, b, Sweeps(a, b, x, omega, k - 1));
    }
  }

  lemma {:induction false} FirstSweeps(a: Matrix, n: nat, omega: real, b: Vector, k: nat)
    requires Shape(a, n, n) && NonzeroDiagonal(a) && |b| == n
    ensures Residual(a, b, Sweeps(a, b, Zeros(n), omega, k)) == DampedTimes(a, omega, k, b)
    ensures |Sweeps(a, b, Zeros(n), omega, k)| == n
  {
    SweepsResidual(a, n, omega, b, Zeros(n), k);
    MatVecZeros(a, n);
    assert Residual(a, b, Zeros(n)) == b;
  }

  lemma {:induction false} TwoGridLength(a: Matrix, b: Vector, coarse: Op, s: Settings)
    requires NonzeroDiagonal(a)
    ensures |TwoGrid(a, b, coarse, s)| == |b|
  {
    var x := Sweeps(a, b, Zeros(|b|), s.omega, s.pre);
    SweepsLength(a, b, Zeros(|b|), s.omega, s.pre);
    SweepsLength(a, b, Add(x, coarse(Residual(a, b, x))), s.omega, s.post);
  }

  lemma {:induction false} CycleLength(levels: seq<Level>, grid: nat, b: Vector, s: Settings)
    requires grid < |levels| && Smoothable(levels) && levels[|levels| - 1].cellMap.None?
    ensures |Cycle(levels, grid, b, s)| == |b|
  {
    if levels[grid].cellMap.None? {
      SweepsLength(levels[grid].a, b, Zeros(|b|), s.omega, s.coarseSweeps);
    } else {
      CycleOpsAre(levels, grid, s);
      CycleIsTwoGrid(levels, grid, b, s);
      var coarse := CoarseOp(levels, grid, s);
      TwoGridLength(levels[grid].a, b, coarse, s);
    }
  }

  lemma {:induction false} SweepsLength(a: Matrix, b: Vector, x: Vector, omega: real, k: nat)
    requires NonzeroDiagonal(a)
    ensures |Sweeps(a, b, x, omega, k)| == |x|
  {
    if k > 0 {
      SweepsLength(a, b, x, omega, k - 1);
    }
  }

  /** The coarsest level: nothing but sweeps. */
  lemma {:induction false} CoarsestResidual(levels: seq<Level>, grid: nat, b: Vector, s: Settings)
    requires grid < |levels| && Smoothable(levels) && levels[|levels| - 1].cellMap.None?
    requires levels[grid].cellMap.None?
    requires Shape(levels[grid].a, |b|, |b|)
    ensures Residual(levels[grid].a, b, Cycle(levels, grid, b, s))
         == DampedTimes(levels[grid].a, s.omega, s.coarseSweeps, b)
  {
    FirstSweeps(levels[grid].a, |b|, s.omega, b, s.coarseSweeps);
  }

  lemma {:induction false} CoarseAnswer(levels: seq<Level>, grid: nat, r: Vector, s: Settings, x: Vector)
    returns (coarse: Op)
    requires grid + 1 < |levels| && Smoothable(levels) && levels[|levels| - 1].cellMap.None?
    requires NCoarse(levels[grid]) == |levels[grid + 1].a|
    requires var pt := Transpose(levels[grid].p, |levels[grid].a|, |levels[grid + 1].a|);
      x == Cycle(levels, grid + 1, MatVec(pt, r), s)
    ensures coarse == CoarseOp(levels, grid, s) && coarse(r) == MatVec(levels[grid].p, x)
  {
    coarse := CoarseOp(levels, grid, s);
  }

  lemma {:induction false} CycleTwoGrid(levels: seq<Level>, grid: nat, b: Vector, s: Settings, coarse: Op)
    requires grid + 1 < |levels| && Smoothable(levels) && levels[|levels| - 1].cellMap.None?
    requires levels[grid].cellMap.Some? && coarse == CoarseOp(levels, grid, s)
    ensures Cycle(levels, grid, b, s) == TwoGrid(levels[grid].a, b, coarse, s)
  {
    CycleIsTwoGrid(levels, grid, b, s);
  }

  lemma {:induction false} CycleAround(a: Matrix, b: Vector, s: Settings, r: Vector, d: Vector, coarse: Op, y: Vector)
    requires Shape(a, |b|, |b|) && NonzeroDiagonal(a) && |d| == |b|
    requires y == TwoGrid(a, b, coarse, s)
    requires r == DampedTimes(a, s.omega, s.pre, b) && d == coarse(r)
    ensures Residual(a, b, y) == DampedTimes(a, s.omega, s.post, Sub(r, MatVec(a, d)))
  {
    TwoGridResidual(a, |b|, b, coarse, s);
  }

  /** A level above the coarsest, with `x` the answer of the level below to what it is asked for: the residual is
      damped, the answer taken off, and the rest damped again. */
  lemma {:induction false} CycleResidual(levels: seq<Level>, grid: nat, b: Vector, s: Settings, r: Vector, x: Vector)
    requires grid + 1 < |levels| && Smoothable(levels) && levels[|levels| - 1].cellMap.None?
    requires Linked(levels[grid], levels[grid + 1]) && Shape(levels[grid].a, |b|, |b|)
    requires r == DampedTimes(levels[grid].a, s.omega, s.pre, b)
    requires x == Cycle(levels, grid + 1, MatVec(Transpose(levels[grid].p, |b|, |levels[grid + 1].a|), r), s)
    ensures |x| == |levels[grid + 1].a|
    ensures Residual(levels[grid].a, b, Cycle(levels, grid, b, s))
         == DampedTimes(levels[grid].a, s.omega, s.post, Sub(r, MatVec(levels[grid].a, MatVec(levels[grid].p, x))))
  {
    LinkedShape(levels[grid], levels[grid + 1]);
    CycleLength(levels, grid + 1, MatVec(Transpose(levels[grid].p, |b|, |levels[grid + 1].a|), r), s);
    var coarse := CoarseAnswer(levels, grid, r, s, x);
    CycleTwoGrid(levels, grid, b, s, coarse);
    CycleAround(levels[grid].a, b, s, r, MatVec(levels[grid].p, x), coarse, Cycle(levels, grid, b, s));
  }

  lemma {:induction false} TwoGridResidual(a: Matrix, n: nat, b: Vector, coarse: Op, s: Settings)
    requires Shape(a, n, n) && NonzeroDiagonal(a) && |b| == n
    requires |coarse(DampedTimes(a, s.omega, s.pre, b))| == n
    ensures var r := DampedTimes(a, s.omega, s.pre, b);
      && |MatVec(a, coarse(r))| == n
      && Residual(a, b, TwoGrid(a, b, coarse, s)) == DampedTimes(a, s.omega, s.post, Sub(r, MatVec(a, coarse(r))))
  {
    var x := Sweeps(a, b, Zeros(n), s.omega, s.pre);
    FirstSweeps(a, n, s.omega, b, s.pre);
    var d := coarse(Residual(a, b, x));
    ResidualAfter(a, n, b, x, d);
    SweepsResidual(a, n, s.omega, b, Add(x, d), s.post);
  }

  lemma {:induction false} LinkedShape(level: Level, next: Level)
    requires Linked(level, next)
    ensures Shape(level.p, |level.a|, |next.a|) && NCoarse(level) == |next.a|
  {
  }

  /** Taking off the coarse answer leaves, summed up over each coarse cell, the residual of the coarse answer. */
  lemma {:induction false} CoarseEquation(level: Level, next: Level, r: Vector, x: Vector)
    requires Linked(level, next) && Shape(level.a, |level.a|, |level.a|) && |r| == |level.a| && |x| == |next.a|
    ensures var pt := Transpose(level.p, |level.a|, |next.a|);
      MatVec(pt, Sub(r, MatVec(level.a, MatVec(level.p, x)))) == Residual(next.a, MatVec(pt, r), x)
  {
    LinkedShape(level, next);
    var pt := Transpose(level.p, |level.a|, |next.a|);
    GalerkinApplies(level.a, level.p, |level.a|, |next.a|, x);
    MatVecSub(pt, r, MatVec(level.a, MatVec(level.p, x)), |next.a|);
  }

  lemma {:induction false} MatVecSub(a: Matrix, x: Vector, y: Vector, n: nat)
    requires Shape(a, n, |x|) && |x| == |y|
    ensures MatVec(a, Sub(x, y)) == Sub(MatVec(a, x), MatVec(a, y))
  {
    forall i | 0 <= i < n ensures MatVec(a, Sub(x, y))[i] == Sub(MatVec(a, x), MatVec(a, y))[i] {
      DotSub(x, y, a[i]);
    }
  }

  /** Main result: without sweeps behind it, the cycle leaves in each coarse cell what the cycle below leaves of it. */
  lemma {:induction false} CoarseCorrected(levels: seq<Level>, grid: nat, b: Vector, s: Settings, asked: Vector)
    requires grid + 1 < |levels| && Smoothable(levels) && levels[|levels| - 1].cellMap.None?
    requires Linked(levels[grid], levels[grid + 1]) && Shape(levels[grid].a, |b|, |b|) && s.post == 0
    requires var a := levels[grid].a;
      asked == MatVec(Transpose(levels[grid].p, |b|, |levels[grid + 1].a|),
                      Residual(a, b, Sweeps(a, b, Zeros(|b|), s.omega, s.pre)))
    ensures
      MatVec(Transpose(levels[grid].p, |b|, |levels[grid + 1].a|),
             Residual(levels[grid].a, b, Cycle(levels, grid, b, s)))
      == Residual(levels[grid + 1].a, asked, Cycle(levels, grid + 1, asked, s))
  {
    var r, x := DampedTimes(levels[grid].a, s.omega, s.pre, b), Cycle(levels, grid + 1, asked, s);
    FirstSweeps(levels[grid].a, |b|, s.omega, b, s.pre);
    CycleResidual(levels, grid, b, s, r, x);
    CoarseEquation(levels[grid], levels[grid + 1], r, x);
  }

  // ---- the transfers, cell by cell ------------------------------------------------------------------

  /** Prolongation copies a coarse value to every cell of its aggregate. */
  lemma {:induction false} ProlongCopies(cellMap: seq<nat>, m: nat, x: Vector, i: nat)
    requires i < |cellMap| && cellMap[i] < m && |x| == m
    ensures MatVec(Injection(cellMap, m), x)[i] == x[cellMap[i]]
  {
    var row := Injection(cellMap, m)[i];
    forall j | 0 <= j < m ensures Term(row, x)(j) == if j == cellMap[i] then x[j] else 0.0 {
    }
    SumOnly(m, Term(row, x), cellMap[i]);
  }

  /** The part of cell `i` in coarse cell `c`. */
  function Share(cellMap: seq<nat>, r: Vector, c: int): int -> real {
    i => if 0 <= i < |cellMap| && cellMap[i] == c then At(r, i) else 0.0
  }

  /** Restriction sums over an aggregate. */
  lemma {:induction false} RestrictSums(cellMap: seq<nat>, m: nat, r: Vector, c: nat)
    requires c < m && |r| == |cellMap|
    ensures MatVec(Transpose(Injection(cellMap, m), |cellMap|, m), r)[c] == Sum(|cellMap|, Share(cellMap, r, c))
  {
    var row := Transpose(Injection(cellMap, m), |cellMap|, m)[c];
    forall i | 0 <= i < |cellMap| ensures Term(row, r)(i) == Share(cellMap, r, c)(i) {
      assert row[i] == Entry(Injection(cellMap, m), i, c);
    }
    SumEqual(|cellMap|, Term(row, r), Share(cellMap, r, c));
  }
}
