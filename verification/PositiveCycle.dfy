/** When corrections of non-negative energy around a positive one make a positive cycle: a symmetric sandwich
    of self-adjoint steps, level by level. */
module PositiveCycle {
  import opened Basics
  import opened Sums
  import opened Vectors
  import opened VCycle

  // ---- sums ---------------------------------------------------------------------------------------

  lemma SumAtMost(n: nat, s: int -> real, t: int -> real)
    requires forall i :: 0 <= i < n ==> s(i) <= t(i)
    ensures Sum(n, s) <= Sum(n, t)
  {
  }

  lemma SumPositive(n: nat, t: int -> real, k: nat)
    requires k < n && t(k) > 0.0 && forall i :: 0 <= i < n ==> t(i) >= 0.0
    ensures Sum(n, t) > 0.0
  {
    if k < n - 1 {
      SumPositive(n - 1, t, k);
    } else {
      SumAtMost(n - 1, i => 0.0, t);
      SumZero(n - 1, i => 0.0);
    }
  }

  predicate Nonzero(x: Vector) {
    exists i :: 0 <= i < |x| && x[i] != 0.0
  }

  // ---- a symmetric sandwich ---------------------------------------------------------------------------

  /** Running the same correction first and last adds a square-like term to what the middle contributes. */
  lemma {:induction false} Sandwich(a: Matrix, op: Op, ops: seq<Op>, n: nat, b: Vector)
    requires SelfAdjointMatrix(a, n) && SelfAdjoint(op, n) && AllSelfAdjoint(ops, n) && |b| == n
    ensures var u := op(b); var r := Residual(a, b, u);
            Dot(Run(a, [op] + ops + [op], b), b) ==
            2.0 * Dot(u, b) - Dot(MatVec(a, u), u) + Dot(Run(a, ops, r), r)
  {
    var u := op(b);
    var r := Residual(a, b, u);
    var z := Run(a, ops, r);
    var all := [op] + ops + [op];
    assert all[..|all| - 1] == [op] + ops && all[|all| - 1] == op;
    RunPrepend(a, op, ops, n, b);
    RunLength(a, ops, n, r);
    var y := Add(u, z);
    assert Run(a, all, b) == Add(y, op(Residual(a, b, y)));
    calc {
      Dot(Run(a, all, b), b);
      { DotAdd(y, op(Residual(a, b, y)), b); }
      Dot(y, b) + Dot(op(Residual(a, b, y)), b);
      Dot(y, b) + Dot(Residual(a, b, y), u);
      { DotSub(b, MatVec(a, y), u); DotSymmetric(b, u); }
      Dot(y, b) + Dot(u, b) - Dot(MatVec(a, y), u);
      Dot(y, b) + Dot(u, b) - Dot(y, MatVec(a, u));
      { DotSub(b, MatVec(a, u), y); }
      Dot(y, r) + Dot(u, b);
      { DotAdd(u, z, r); }
      Dot(u, r) + Dot(z, r) + Dot(u, b);
      { DotSub(b, MatVec(a, u), u); DotSymmetric(u, MatVec(a, u)); }
      2.0 * Dot(u, b) - Dot(MatVec(a, u), u) + Dot(z, r);
    }
  }

  ghost predicate NonNegative(a: Matrix, ops: seq<Op>, n: nat) {
    forall b: Vector {:trigger Run(a, ops, b)} :: |b| == n ==> Dot(Run(a, ops, b), b) >= 0.0
  }

  ghost predicate Positive(a: Matrix, ops: seq<Op>, n: nat) {
    forall b: Vector {:trigger Run(a, ops, b)} :: |b| == n && Nonzero(b) ==> Dot(Run(a, ops, b), b) > 0.0
  }

  /** The smoother's step is short enough for its operator: `omega x^T A x < 2 x^T D x`. */
  ghost predicate Damped(a: Matrix, omega: real, n: nat) {
    forall u: Vector {:trigger Dot(MatVec(a, u), u)} :: |u| == n && Nonzero(u) ==>
      omega * Dot(MatVec(a, u), u) < 2.0 * Sum(n, Squares(a, u))
  }

  ghost function Squares(a: Matrix, u: Vector): int -> real {
    i => Weighted(Entry(a, i, i), At(u, i))
  }

  function Weighted(d: real, x: real): real { d * x * x }

  ghost predicate PositiveDiagonal(a: Matrix) {
    forall i :: 0 <= i < |a| ==> Entry(a, i, i) > 0.0
  }

  lemma SmoothEnergy(a: Matrix, omega: real, b: Vector)
    requires omega > 0.0 && PositiveDiagonal(a) && |b| == |a|
    ensures var u := Correction(a, omega, b);
            omega * Dot(u, b) == Sum(|a|, Squares(a, u)) && (Nonzero(b) ==> Nonzero(u) && Dot(u, b) > 0.0)
  {
    var u, n := Correction(a, omega, b), |a|;
    forall i | 0 <= i < n
      ensures Squares(a, u)(i) == omega * Term(u, b)(i) && Term(u, b)(i) >= 0.0
    {
      ScaledSquare(omega, At(b, i), Entry(a, i, i));
    }
    SumScale(n, omega, Term(u, b), Squares(a, u));
    if Nonzero(b) {
      var k :| 0 <= k < |b| && b[k] != 0.0;
      ScaledSquare(omega, At(b, k), Entry(a, k, k));
      assert u[k] != 0.0 && Term(u, b)(k) > 0.0;
      SumPositive(n, Term(u, b), k);
    }
  }

  lemma ScaledSquare(omega: real, b: real, d: real)
    requires omega > 0.0 && d > 0.0
    ensures var u := omega * b / d;
            Weighted(d, u) == omega * (u * b) && u * b >= 0.0 && (b != 0.0 ==> u != 0.0 && u * b > 0.0)
  {
    var u := omega * b / d;
    assert d * u == omega * b;
    var q := omega / d;
    assert q > 0.0 && u == q * b;
    if b != 0.0 {
      assert b * b > 0.0;
      assert u * b == q * (b * b) > 0.0;
    }
  }

  lemma {:induction false} SandwichPositive(a: Matrix, omega: real, ops: seq<Op>)
    requires omega > 0.0 && PositiveDiagonal(a) && SelfAdjointMatrix(a, |a|) && Damped(a, omega, |a|)
    requires AllSelfAdjoint(ops, |a|) && NonNegative(a, ops, |a|)
    ensures var op := SmoothOp(a, omega); Positive(a, [op] + ops + [op], |a|)
  {
    var op, n := SmoothOp(a, omega), |a|;
    forall b: Vector | |b| == n && Nonzero(b) ensures Dot(Run(a, [op] + ops + [op], b), b) > 0.0 {
      SandwichPositiveAt(a, omega, ops, b);
    }
  }

  lemma {:induction false} SandwichPositiveAt(a: Matrix, omega: real, ops: seq<Op>, b: Vector)
    requires omega > 0.0 && PositiveDiagonal(a) && SelfAdjointMatrix(a, |a|) && Damped(a, omega, |a|)
    requires AllSelfAdjoint(ops, |a|) && NonNegative(a, ops, |a|)
    requires |b| == |a| && Nonzero(b)
    ensures var op := SmoothOp(a, omega); Dot(Run(a, [op] + ops + [op], b), b) > 0.0
  {
    var op, n := SmoothOp(a, omega), |a|;
    SmoothSelfAdjoint(a, omega);
    Sandwich(a, op, ops, n, b);
    var u := Correction(a, omega, b);
    assert op(b) == u;
    var r := Residual(a, b, u);
    assert Dot(Run(a, ops, r), r) >= 0.0;
    StepEnergy(a, omega, b);
  }

  lemma StepEnergy(a: Matrix, omega: real, b: Vector)
    requires omega > 0.0 && PositiveDiagonal(a) && Damped(a, omega, |a|) && |b| == |a| && Nonzero(b)
    ensures var u := Correction(a, omega, b); 2.0 * Dot(u, b) - Dot(MatVec(a, u), u) > 0.0
  {
    var u := Correction(a, omega, b);
    SmoothEnergy(a, omega, b);
    var rest := 2.0 * Dot(u, b) - Dot(MatVec(a, u), u);
    assert omega * Dot(MatVec(a, u), u) < 2.0 * (omega * Dot(u, b));
    assert omega * rest > 0.0;
    FactorPositive(omega, rest);
  }

  lemma FactorPositive(k: real, x: real)
    requires k > 0.0 && k * x > 0.0
    ensures x > 0.0
  {
  }

  lemma DotZero(x: Vector, b: Vector)
    requires |x| == |b| && !Nonzero(b)
    ensures Dot(x, b) == 0.0
  {
    SumZero(|x|, Term(x, b));
  }

  lemma PositiveNonNegative(a: Matrix, ops: seq<Op>, n: nat)
    requires Positive(a, ops, n) && Shape(a, n, n) && AllSelfAdjoint(ops, n)
    ensures NonNegative(a, ops, n)
  {
    forall b: Vector | |b| == n ensures Dot(Run(a, ops, b), b) >= 0.0 {
      if !Nonzero(b) {
        RunLength(a, ops, n, b);
        DotZero(Run(a, ops, b), b);
      }
    }
  }

  // ---- the cycle ----------------------------------------------------------------------------------

  /** A positive number of equal corrections is positive: peel pairs down to one or none. */
  lemma RepeatPositive(a: Matrix, omega: real, k: nat)
    requires omega > 0.0 && PositiveDiagonal(a) && SelfAdjointMatrix(a, |a|) && Damped(a, omega, |a|)
    ensures NonNegative(a, Repeat(SmoothOp(a, omega), k), |a|)
    ensures k > 0 ==> Positive(a, Repeat(SmoothOp(a, omega), k), |a|)
  {
    var op, n := SmoothOp(a, omega), |a|;
    SmoothSelfAdjoint(a, omega);
    RepeatSelfAdjoint(op, k, n);
    if k == 0 {
      EmptyNonNegative(a, n);
    } else if k == 1 {
      assert Repeat(op, 1) == [op];
      OnePositive(a, omega);
      PositiveNonNegative(a, [op], n);
    } else {
      RepeatPositive(a, omega, k - 2);
      RepeatSelfAdjoint(op, k - 2, n);
      SandwichPositive(a, omega, Repeat(op, k - 2));
      RepeatPalindrome(op, k - 1);
      assert Repeat(op, k) == [op] + Repeat(op, k - 2) + [op];
      PositiveNonNegative(a, Repeat(op, k), n);
    }
  }

  lemma EmptyNonNegative(a: Matrix, n: nat)
    ensures NonNegative(a, [], n)
  {
    forall b: Vector | |b| == n ensures Dot(Run(a, [], b), b) >= 0.0 {
      SumZero(n, Term(Zeros(n), b));
    }
  }

  lemma OnePositive(a: Matrix, omega: real)
    requires omega > 0.0 && PositiveDiagonal(a) && Shape(a, |a|, |a|)
    ensures Positive(a, [SmoothOp(a, omega)], |a|)
  {
    var op, n := SmoothOp(a, omega), |a|;
    forall b: Vector | |b| == n && Nonzero(b) ensures Dot(Run(a, [op], b), b) > 0.0 {
      SmoothEnergy(a, omega, b);
      MatVecZeros(a, n);
      assert Residual(a, b, Zeros(n)) == b;
      assert Run(a, [], b) == Zeros(n);
      assert Run(a, [op], b) == Add(Zeros(n), op(b)) == op(b);
    }
  }

  /** Sweeps on both sides of a non-negative middle. */
  lemma AroundPositive(a: Matrix, omega: real, middle: Op, k: nat)
    requires omega > 0.0 && PositiveDiagonal(a) && SelfAdjointMatrix(a, |a|) && Damped(a, omega, |a|)
    requires SelfAdjoint(middle, |a|) && NonNegative(a, [middle], |a|)
    ensures var sweeps := Repeat(SmoothOp(a, omega), k);
            NonNegative(a, sweeps + [middle] + sweeps, |a|) && (k > 0 ==> Positive(a, sweeps + [middle] + sweeps, |a|))
  {
    var op, n := SmoothOp(a, omega), |a|;
    var sweeps := Repeat(op, k);
    if k == 0 {
      assert [] + [middle] + [] == [middle];
    } else {
      AroundPositive(a, omega, middle, k - 1);
      SmoothSelfAdjoint(a, omega);
      RepeatSelfAdjoint(op, k - 1, n);
      RepeatSelfAdjoint(op, k, n);
      var inner := Repeat(op, k - 1) + [middle] + Repeat(op, k - 1);
      AroundSelfAdjoint(Repeat(op, k - 1), middle, n);
      AroundSelfAdjoint(sweeps, middle, n);
      SandwichPositive(a, omega, inner);
      RepeatPalindrome(op, k);
      assert sweeps + [middle] + sweeps == [op] + inner + [op];
      PositiveNonNegative(a, sweeps + [middle] + sweeps, n);
    }
  }

  /** Operators and damping for which every level's smoother is short enough. */
  ghost predicate WellDamped(levels: seq<Level>, s: Settings) {
    && s.omega > 0.0 && s.pre == s.post && s.pre > 0 && s.coarseSweeps > 0
    && forall g :: 0 <= g < |levels| ==> PositiveDiagonal(levels[g].a) && Damped(levels[g].a, s.omega, |levels[g].a|)
  }

  lemma {:induction false} CyclePositive(levels: seq<Level>, grid: nat, s: Settings, b: Vector)
    requires Hierarchy(levels) && grid < |levels| && WellDamped(levels, s)
    requires |b| == |levels[grid].a|
    ensures Dot(Cycle(levels, grid, b, s), b) >= 0.0
    ensures Nonzero(b) ==> Dot(Cycle(levels, grid, b, s), b) > 0.0
    decreases |levels| - grid, 2
  {
    OpsPositive(levels, grid, s);
    CycleRun(levels, grid, b, s);
    PositiveAt(levels[grid].a, CycleOps(levels, grid, s), b);
  }

  lemma PositiveAt(a: Matrix, ops: seq<Op>, b: Vector)
    requires NonNegative(a, ops, |a|) && Positive(a, ops, |a|) && |b| == |a|
    ensures Dot(Run(a, ops, b), b) >= 0.0
    ensures Nonzero(b) ==> Dot(Run(a, ops, b), b) > 0.0
  {
  }

  lemma {:induction false} OpsPositive(levels: seq<Level>, grid: nat, s: Settings)
    requires Hierarchy(levels) && grid < |levels| && WellDamped(levels, s)
    ensures NonNegative(levels[grid].a, CycleOps(levels, grid, s), |levels[grid].a|)
    ensures Positive(levels[grid].a, CycleOps(levels, grid, s), |levels[grid].a|)
    decreases |levels| - grid, 1
  {
    if levels[grid].cellMap.None? {
      CoarsestPositive(levels, grid, s);
    } else {
      InnerPositive(levels, grid, s);
    }
  }

  lemma {:induction false} CoarsestPositive(levels: seq<Level>, grid: nat, s: Settings)
    requires Hierarchy(levels) && grid < |levels| && WellDamped(levels, s) && levels[grid].cellMap.None?
    ensures NonNegative(levels[grid].a, CycleOps(levels, grid, s), |levels[grid].a|)
    ensures Positive(levels[grid].a, CycleOps(levels, grid, s), |levels[grid].a|)
  {
    LevelsSelfAdjoint(levels, grid);
    RepeatPositive(levels[grid].a, s.omega, s.coarseSweeps);
  }

  lemma {:induction false} InnerPositive(levels: seq<Level>, grid: nat, s: Settings)
    requires Hierarchy(levels) && grid < |levels| && WellDamped(levels, s) && levels[grid].cellMap.Some?
    ensures NonNegative(levels[grid].a, CycleOps(levels, grid, s), |levels[grid].a|)
    ensures Positive(levels[grid].a, CycleOps(levels, grid, s), |levels[grid].a|)
    decreases |levels| - grid, 0
  {
    CycleOpsAre(levels, grid, s);
    LevelsSelfAdjoint(levels, grid);
    CoarseSelfAdjoint(levels, grid, s);
    var coarse := CoarseOp(levels, grid, s);
    CoarseNonNegatives(levels, grid, s);
    CoarseLengths(levels, grid, s);
    SingleNonNegative(levels[grid].a, coarse, |levels[grid].a|);
    AroundPositive(levels[grid].a, s.omega, coarse, s.pre);
  }

  lemma SingleNonNegative(a: Matrix, op: Op, n: nat)
    requires Shape(a, n, n)
    requires forall b: Vector :: |b| == n ==> |op(b)| == n
    requires forall b: Vector {:trigger op(b)} :: |b| == n ==> Dot(op(b), b) >= 0.0
    ensures NonNegative(a, [op], n)
  {
    forall b: Vector | |b| == n ensures Dot(Run(a, [op], b), b) >= 0.0 {
      MatVecZeros(a, n);
      assert Residual(a, b, Zeros(n)) == b;
      assert Run(a, [], b) == Zeros(n);
      assert Run(a, [op], b) == Add(Zeros(n), op(b)) == op(b);
    }
  }

  lemma {:induction false} CoarseNonNegatives(levels: seq<Level>, grid: nat, s: Settings)
    requires Hierarchy(levels) && grid + 1 < |levels| && WellDamped(levels, s)
    ensures forall b: Vector {:trigger CoarseOp(levels, grid, s)(b)} ::
              |b| == |levels[grid].a| ==> Dot(CoarseOp(levels, grid, s)(b), b) >= 0.0
    decreases |levels| - (grid + 1), 4
  {
    forall b: Vector | |b| == |levels[grid].a| ensures Dot(CoarseOp(levels, grid, s)(b), b) >= 0.0 {
      CoarseNonNegativeAt(levels, grid, s, b);
    }
  }

  lemma {:induction false} CoarseNonNegativeAt(levels: seq<Level>, grid: nat, s: Settings, b: Vector)
    requires Hierarchy(levels) && grid + 1 < |levels| && WellDamped(levels, s) && |b| == |levels[grid].a|
    ensures Dot(CoarseOp(levels, grid, s)(b), b) >= 0.0
    decreases |levels| - (grid + 1), 3
  {
    LevelShapes(levels, grid);
    var p, n, m := levels[grid].p, |levels[grid].a|, |levels[grid + 1].a|;
    var bc := Restrict(levels[grid], b);
    CyclePositive(levels, grid + 1, s, bc);
    CycleSelfAdjoint(levels, grid + 1, s, bc, bc);
    TransferAdjoint(p, n, m, b, Cycle(levels, grid + 1, bc, s));
  }
}
