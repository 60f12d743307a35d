/** One multigrid V-cycle, and why it is a legal preconditioner for conjugate gradients. */
module VCycle {
  import opened Basics
  import opened Sums
  import opened Vectors
  import opened Sequences

  /** One level: its operator, and the fine-to-coarse cell map and prolongation unless it is the coarsest. */
  datatype Level = Level(a: Matrix, cellMap: Option<seq<nat>>, p: Matrix)

  // ---- the code -----------------------------------------------------------------------------------

  predicate NonzeroDiagonal(a: Matrix) {
    forall i :: 0 <= i < |a| ==> Entry(a, i, i) != 0.0
  }

  /** `omega * r / diag(A)`: what one damped Jacobi sweep adds for the residual `r`. */
  function Correction(a: Matrix, omega: real, r: Vector): Vector
    requires NonzeroDiagonal(a)
  {
    seq(|a|, i requires 0 <= i < |a| => omega * At(r, i) / Entry(a, i, i))
  }

  function Residual(a: Matrix, b: Vector, x: Vector): Vector {
    Sub(b, MatVec(a, x))
  }

  function JacobiSweep(a: Matrix, b: Vector, x: Vector, omega: real): Vector
    requires NonzeroDiagonal(a)
  {
    Add(x, Correction(a, omega, Residual(a, b, x)))
  }

  function Sweeps(a: Matrix, b: Vector, x: Vector, omega: real, count: nat): Vector
    requires NonzeroDiagonal(a)
  {
    if count == 0 then x else JacobiSweep(a, b, Sweeps(a, b, x, omega, count - 1), omega)
  }

  /** The 0/1 prolongator of a cell map. */
  function Injection(cellMap: seq<nat>, nCoarse: nat): Matrix {
    seq(|cellMap|, i requires 0 <= i < |cellMap| => seq(nCoarse, j => if j == cellMap[i] then 1.0 else 0.0))
  }

  /** `P^T A P`. */
  function Galerkin(a: Matrix, p: Matrix, n: nat, nCoarse: nat): Matrix {
    MatMul(MatMul(Transpose(p, n, nCoarse), a, nCoarse, n, n), p, nCoarse, n, nCoarse)
  }

  predicate Smoothable(levels: seq<Level>) {
    forall g :: 0 <= g < |levels| ==> NonzeroDiagonal(levels[g].a)
  }

  datatype Settings = Settings(omega: real, pre: nat, post: nat, coarseSweeps: nat)

  function Cycle(levels: seq<Level>, grid: nat, b: Vector, s: Settings): Vector
    requires grid < |levels| && Smoothable(levels) && levels[|levels| - 1].cellMap.None?
    decreases |levels| - grid
  {
    var level := levels[grid];
    var x := Zeros(|b|);
    if level.cellMap.None? then
      Sweeps(level.a, b, x, s.omega, s.coarseSweeps)
    else
      var x := Sweeps(level.a, b, x, s.omega, s.pre);
      var r := Residual(level.a, b, x);
      var bCoarse := Restrict(level, r);
      var xCoarse := Cycle(levels, grid + 1, bCoarse, s);
      var x := Add(x, Prolong(level, xCoarse));
      Sweeps(level.a, b, x, s.omega, s.post)
  }

  function Restrict(level: Level, r: Vector): Vector {
    MatVec(Transpose(level.p, |level.a|, NCoarse(level)), r)
  }

  function Prolong(level: Level, x: Vector): Vector {
    MatVec(level.p, x)
  }

  function NCoarse(level: Level): nat {
    if |level.p| > 0 then |level.p[0]| else 0
  }

  // ---- which hierarchies --------------------------------------------------------------------------

  predicate SymmetricMatrix(a: Matrix, n: nat) {
    Shape(a, n, n) && forall i, j :: 0 <= i < n && 0 <= j < n ==> a[i][j] == a[j][i]
  }

  /** Levels as `build_levels` links them: injection by the cell map, Galerkin operator next. */
  predicate Linked(level: Level, next: Level) {
    && level.cellMap.Some?
    && |level.a| > 0
    && |level.cellMap.value| == |level.a|
    && (forall i :: 0 <= i < |level.a| ==> level.cellMap.value[i] < |next.a|)
    && level.p == Injection(level.cellMap.value, |next.a|)
    && next.a == Galerkin(level.a, level.p, |level.a|, |next.a|)
  }

  predicate Hierarchy(levels: seq<Level>) {
    && |levels| > 0
    && SymmetricMatrix(levels[0].a, |levels[0].a|)
    && Smoothable(levels)
    && levels[|levels| - 1].cellMap.None?
    && forall g {:trigger Linked(levels[g], levels[g + 1])} :: 0 <= g < |levels| - 1 ==>
       Linked(levels[g], levels[g + 1])
  }

  // ---- a solve as a list of corrections -----------------------------------------------------------

  type Op = Vector -> Vector

  /** Start from zero and let each correction in turn see the current residual. */
  ghost function Run(a: Matrix, ops: seq<Op>, b: Vector): Vector {
    if ops == [] then Zeros(|b|)
    else
      var y := Run(a, ops[..|ops| - 1], b);
      Add(y, ops[|ops| - 1](Residual(a, b, y)))
  }

  ghost predicate SelfAdjoint(op: Op, n: nat) {
    && (forall u: Vector :: |u| == n ==> |op(u)| == n)
    && (forall u: Vector, v: Vector {:trigger Dot(op(u), v)} :: |u| == n && |v| == n ==> Dot(op(u), v) == Dot(u, op(v)))
  }

  ghost predicate AllSelfAdjoint(ops: seq<Op>, n: nat) {
    forall i :: 0 <= i < |ops| ==> SelfAdjoint(ops[i], n)
  }

  ghost predicate SelfAdjointMatrix(a: Matrix, n: nat) {
    && Shape(a, n, n)
    && forall u: Vector, v: Vector {:trigger Dot(MatVec(a, u), v)} :: |u| == n && |v| == n ==>
         Dot(MatVec(a, u), v) == Dot(u, MatVec(a, v))
  }

  lemma RunLength(a: Matrix, ops: seq<Op>, n: nat, b: Vector)
    requires Shape(a, n, n) && AllSelfAdjoint(ops, n) && |b| == n
    ensures |Run(a, ops, b)| == n
  {
  }

  /** Putting a correction first: the rest of the list solves for what it leaves over. */
  lemma {:induction false} RunPrepend(a: Matrix, op: Op, ops: seq<Op>, n: nat, b: Vector)
    requires Shape(a, n, n) && SelfAdjoint(op, n) && AllSelfAdjoint(ops, n) && |b| == n
    ensures Run(a, [op] + ops, b) == Add(op(b), Run(a, ops, Residual(a, b, op(b))))
  {
    var first := op(b);
    var rest := Residual(a, b, first);
    if ops == [] {
      assert [op] + ops == [op];
      MatVecZeros(a, n);
      assert Residual(a, b, Zeros(n)) == b;
      assert Run(a, [op], b) == Add(Run(a, [], b), op(Residual(a, b, Run(a, [], b))));
    } else {
      var front, last := ops[..|ops| - 1], ops[|ops| - 1];
      assert ([op] + ops)[..|ops|] == [op] + front;
      RunPrepend(a, op, front, n, b);
      RunLength(a, front, n, rest);
      var z := Run(a, front, rest);
      MatVecAdd(a, first, z, n);
      assert Residual(a, b, Add(first, z)) == Residual(a, rest, z);
      var step := last(Residual(a, rest, z));
      assert Add(Add(first, z), step) == Add(first, Add(z, step));
    }
  }

  lemma MatVecZeros(a: Matrix, n: nat)
    requires Shape(a, n, n)
    ensures MatVec(a, Zeros(n)) == Zeros(n)
  {
    forall i | 0 <= i < n ensures Dot(a[i], Zeros(n)) == 0.0 {
      SumZero(n, Term(a[i], Zeros(n)));
    }
  }

  /** The adjoint of a list of self-adjoint corrections is the reversed list. */
  lemma {:induction false} RunAdjoint(a: Matrix, ops: seq<Op>, n: nat, b: Vector, c: Vector)
    requires SelfAdjointMatrix(a, n) && AllSelfAdjoint(ops, n) && |b| == n && |c| == n
    ensures Dot(Run(a, ops, b), c) == Dot(b, Run(a, Reversed(ops), c))
  {
    if ops == [] {
      SumZero(n, Term(Zeros(n), c));
      SumZero(n, Term(b, Zeros(n)));
    } else {
      var front, op := ops[..|ops| - 1], ops[|ops| - 1];
      ReversedSelfAdjoint(front, n);
      var y := Run(a, front, b);
      RunLength(a, front, n, b);
      var opc := op(c);
      var rest := Residual(a, c, opc);
      var tail := Run(a, Reversed(front), rest);
      RunLength(a, Reversed(front), n, rest);
      calc {
        Dot(Run(a, ops, b), c);
        Dot(Add(y, op(Residual(a, b, y))), c);
        { DotAdd(y, op(Residual(a, b, y)), c); }
        Dot(y, c) + Dot(op(Residual(a, b, y)), c);
        Dot(y, c) + Dot(Residual(a, b, y), opc);
        { DotSub(b, MatVec(a, y), opc); }
        Dot(y, c) + Dot(b, opc) - Dot(MatVec(a, y), opc);
        Dot(y, c) + Dot(b, opc) - Dot(y, MatVec(a, opc));
        { DotSub(c, MatVec(a, opc), y); }
        Dot(y, rest) + Dot(b, opc);
        { RunAdjoint(a, front, n, b, rest); }
        Dot(b, tail) + Dot(b, opc);
        { DotAdd(opc, tail, b); }
        Dot(b, Add(opc, tail));
        { RunPrepend(a, op, Reversed(front), n, c); assert Reversed(ops) == [op] + Reversed(front); }
        Dot(b, Run(a, Reversed(ops), c));
      }
    }
  }

  lemma ReversedSelfAdjoint(ops: seq<Op>, n: nat)
    requires AllSelfAdjoint(ops, n)
    ensures AllSelfAdjoint(Reversed(ops), n)
  {
  }

  // ---- the cycle is such a list, and the list is a palindrome ---------------------------------------

  ghost function SmoothOp(a: Matrix, omega: real): Op
    requires NonzeroDiagonal(a)
  {
    r => Correction(a, omega, r)
  }

  /** Restrict, cycle on the next level, prolong. */
  ghost function CoarseOp(levels: seq<Level>, grid: nat, s: Settings): Op
    requires grid + 1 < |levels| && Smoothable(levels) && levels[|levels| - 1].cellMap.None?
  {
    r => Prolong(levels[grid], Cycle(levels, grid + 1, Restrict(levels[grid], r), s))
  }

  ghost function Repeat(op: Op, k: nat): (r: seq<Op>)
    ensures |r| == k && forall i :: 0 <= i < k ==> r[i] == op
  {
    seq(k, _ => op)
  }

  ghost function CycleOps(levels: seq<Level>, grid: nat, s: Settings): seq<Op>
    requires grid < |levels| && Smoothable(levels) && levels[|levels| - 1].cellMap.None?
  {
    var smooth := SmoothOp(levels[grid].a, s.omega);
    if levels[grid].cellMap.None? then Repeat(smooth, s.coarseSweeps)
    else Repeat(smooth, s.pre) + [CoarseOp(levels, grid, s)] + Repeat(smooth, s.post)
  }

  lemma {:induction false} SweepsRun(a: Matrix, ops: seq<Op>, b: Vector, omega: real, k: nat)
    requires NonzeroDiagonal(a)
    ensures Run(a, ops + Repeat(SmoothOp(a, omega), k), b) == Sweeps(a, b, Run(a, ops, b), omega, k)
  {
    var smooth := SmoothOp(a, omega);
    if k == 0 {
      assert ops + [] == ops;
    } else {
      SweepsRun(a, ops, b, omega, k - 1);
      var longer := ops + Repeat(smooth, k);
      assert longer[..|longer| - 1] == ops + Repeat(smooth, k - 1);
      assert longer[|longer| - 1] == smooth;
    }
  }

  /** Sweeps, one coarse correction, sweeps. */
  ghost function TwoGrid(a: Matrix, b: Vector, coarse: Op, s: Settings): Vector
    requires NonzeroDiagonal(a)
  {
    var x := Sweeps(a, b, Zeros(|b|), s.omega, s.pre);
    Sweeps(a, b, Add(x, coarse(Residual(a, b, x))), s.omega, s.post)
  }

  lemma {:induction false} TwoGridRun(a: Matrix, b: Vector, coarse: Op, s: Settings)
    requires NonzeroDiagonal(a)
    ensures TwoGrid(a, b, coarse, s) ==
            Run(a, Repeat(SmoothOp(a, s.omega), s.pre) + [coarse] + Repeat(SmoothOp(a, s.omega), s.post), b)
  {
    var before := Repeat(SmoothOp(a, s.omega), s.pre);
    SweepsRun(a, [], b, s.omega, s.pre);
    assert [] + before == before;
    var ops := before + [coarse];
    assert ops[..|ops| - 1] == before && ops[|ops| - 1] == coarse;
    SweepsRun(a, ops, b, s.omega, s.post);
  }

  lemma {:induction false} CycleIsTwoGrid(levels: seq<Level>, grid: nat, b: Vector, s: Settings)
    requires grid < |levels| && Smoothable(levels) && levels[|levels| - 1].cellMap.None? && levels[grid].cellMap.Some?
    ensures Cycle(levels, grid, b, s) == TwoGrid(levels[grid].a, b, CoarseOp(levels, grid, s), s)
  {
  }

  lemma CycleOpsAre(levels: seq<Level>, grid: nat, s: Settings)
    requires grid < |levels| && Smoothable(levels) && levels[|levels| - 1].cellMap.None? && levels[grid].cellMap.Some?
    ensures grid + 1 < |levels|
    ensures var smooth := SmoothOp(levels[grid].a, s.omega);
            CycleOps(levels, grid, s) ==
            Repeat(smooth, s.pre) + [CoarseOp(levels, grid, s)] + Repeat(smooth, s.post)
  {
  }

  lemma {:induction false} CycleRun(levels: seq<Level>, grid: nat, b: Vector, s: Settings)
    requires grid < |levels| && Smoothable(levels) && levels[|levels| - 1].cellMap.None?
    ensures Cycle(levels, grid, b, s) == Run(levels[grid].a, CycleOps(levels, grid, s), b)
  {
    var a := levels[grid].a;
    if levels[grid].cellMap.None? {
      var all := Repeat(SmoothOp(a, s.omega), s.coarseSweeps);
      SweepsRun(a, [], b, s.omega, s.coarseSweeps);
      assert [] + all == all;
    } else {
      CycleIsTwoGrid(levels, grid, b, s);
      CycleOpsAre(levels, grid, s);
      var coarse := CoarseOp(levels, grid, s);
      TwoGridRun(a, b, coarse, s);
    }
  }

  lemma RepeatPalindrome(op: Op, k: nat)
    ensures Reversed(Repeat(op, k)) == Repeat(op, k)
    ensures k > 0 ==> Repeat(op, k) == [op] + Repeat(op, k - 1)
  {
  }

  lemma AroundPalindrome(ops: seq<Op>, op: Op)
    requires Reversed(ops) == ops
    ensures Reversed(ops + [op] + ops) == ops + [op] + ops
  {
    var all := ops + [op] + ops;
    forall i | 0 <= i < |ops| ensures ops[i] == ops[|ops| - 1 - i] {
      assert Reversed(ops)[i] == ops[|ops| - 1 - i];
    }
    forall i | 0 <= i < |all| ensures Reversed(all)[i] == all[i] {
    }
  }

  lemma RepeatSelfAdjoint(op: Op, k: nat, n: nat)
    requires SelfAdjoint(op, n)
    ensures AllSelfAdjoint(Repeat(op, k), n)
  {
  }

  lemma AroundSelfAdjoint(ops: seq<Op>, op: Op, n: nat)
    requires AllSelfAdjoint(ops, n) && SelfAdjoint(op, n)
    ensures AllSelfAdjoint(ops + [op] + ops, n)
  {
    var all := ops + [op] + ops;
    forall i | 0 <= i < |all| ensures SelfAdjoint(all[i], n) {
      assert all[i] == op || all[i] == ops[if i < |ops| then i else i - |ops| - 1];
    }
  }

  /** Damped Jacobi is a diagonal scaling, hence self-adjoint. */
  lemma SmoothSelfAdjoint(a: Matrix, omega: real)
    requires NonzeroDiagonal(a)
    ensures SelfAdjoint(SmoothOp(a, omega), |a|)
  {
    var op, n := SmoothOp(a, omega), |a|;
    forall u: Vector, v: Vector | |u| == n && |v| == n ensures Dot(op(u), v) == Dot(u, op(v)) {
      forall i | 0 <= i < n ensures Term(op(u), v)(i) == Term(u, op(v))(i) {
        var d := Entry(a, i, i);
        assert (omega * u[i] / d) * v[i] == u[i] * (omega * v[i] / d) by {
          Quotients(omega, u[i], v[i], d);
        }
      }
      SumEqual(n, Term(op(u), v), Term(u, op(v)));
    }
  }

  lemma Quotients(k: real, x: real, y: real, d: real)
    requires d != 0.0
    ensures (k * x / d) * y == x * (k * y / d)
  {
    var q := k / d;
    assert k * x / d == q * x && k * y / d == q * y;
  }

  /** Restriction is the transpose of prolongation, so a self-adjoint coarse solve stays one on the fine level. */
  lemma TransferAdjoint(p: Matrix, n: nat, m: nat, u: Vector, v: Vector)
    requires Shape(p, n, m) && |u| == n && |v| == m
    ensures Dot(MatVec(p, v), u) == Dot(v, MatVec(Transpose(p, n, m), u))
  {
    MatVecAdjoint(p, n, m, v, u);
  }

  lemma GalerkinApplies(a: Matrix, p: Matrix, n: nat, m: nat, x: Vector)
    requires Shape(a, n, n) && Shape(p, n, m) && |x| == m
    ensures MatVec(Galerkin(a, p, n, m), x) == MatVec(Transpose(p, n, m), MatVec(a, MatVec(p, x)))
  {
    MatMulVec(MatMul(Transpose(p, n, m), a, m, n, n), p, m, n, m, x);
    MatMulVec(Transpose(p, n, m), a, m, n, n, MatVec(p, x));
  }

  /** The Galerkin operator of a self-adjoint operator is self-adjoint. */
  lemma GalerkinSelfAdjoint(a: Matrix, p: Matrix, n: nat, m: nat)
    requires SelfAdjointMatrix(a, n) && Shape(p, n, m)
    ensures SelfAdjointMatrix(Galerkin(a, p, n, m), m)
  {
    var c := Galerkin(a, p, n, m);
    forall u: Vector, v: Vector | |u| == m && |v| == m ensures Dot(MatVec(c, u), v) == Dot(u, MatVec(c, v)) {
      var pu, pv := MatVec(p, u), MatVec(p, v);
      GalerkinApplies(a, p, n, m, u);
      GalerkinApplies(a, p, n, m, v);
      TransferAdjoint(p, n, m, MatVec(a, pu), v);
      TransferAdjoint(p, n, m, MatVec(a, pv), u);
      DotSymmetric(MatVec(c, u), v);
      DotSymmetric(pv, MatVec(a, pu));
      assert Dot(MatVec(a, pu), pv) == Dot(pu, MatVec(a, pv));
    }
  }

  lemma LevelShapes(levels: seq<Level>, g: nat)
    requires Hierarchy(levels) && g + 1 < |levels|
    ensures |levels[g].a| > 0
    ensures Shape(levels[g].p, |levels[g].a|, |levels[g + 1].a|) && NCoarse(levels[g]) == |levels[g + 1].a|
  {
    assert Linked(levels[g], levels[g + 1]);
    assert levels[g].p == Injection(levels[g].cellMap.value, |levels[g + 1].a|);
  }

  lemma NextIsGalerkin(levels: seq<Level>, g: nat)
    requires Hierarchy(levels) && g + 1 < |levels|
    ensures levels[g + 1].a == Galerkin(levels[g].a, levels[g].p, |levels[g].a|, |levels[g + 1].a|)
  {
    assert Linked(levels[g], levels[g + 1]);
  }

  lemma LevelsSelfAdjoint(levels: seq<Level>, g: nat)
    requires Hierarchy(levels) && g < |levels|
    ensures SelfAdjointMatrix(levels[g].a, |levels[g].a|)
  {
    var n := |levels[g].a|;
    if g == 0 {
      var a := levels[0].a;
      TransposeSymmetric(a, n);
      forall u: Vector, v: Vector | |u| == n && |v| == n ensures Dot(MatVec(a, u), v) == Dot(u, MatVec(a, v)) {
        MatVecAdjoint(a, n, n, u, v);
      }
    } else {
      LevelsSelfAdjoint(levels, g - 1);
      LevelShapes(levels, g - 1);
      NextIsGalerkin(levels, g - 1);
      GalerkinSelfAdjoint(levels[g - 1].a, levels[g - 1].p, |levels[g - 1].a|, n);
    }
  }

  /** The corrections of one cycle: each self-adjoint, and the same list read backwards. */
  lemma {:induction false} CycleOpsPalindrome(levels: seq<Level>, grid: nat, s: Settings)
    requires Hierarchy(levels) && grid < |levels| && s.pre == s.post
    ensures AllSelfAdjoint(CycleOps(levels, grid, s), |levels[grid].a|)
    ensures Reversed(CycleOps(levels, grid, s)) == CycleOps(levels, grid, s)
    decreases |levels| - grid, 1
  {
    var a, n := levels[grid].a, |levels[grid].a|;
    var smooth := SmoothOp(a, s.omega);
    SmoothSelfAdjoint(a, s.omega);
    if levels[grid].cellMap.None? {
      RepeatPalindrome(smooth, s.coarseSweeps);
      RepeatSelfAdjoint(smooth, s.coarseSweeps, n);
    } else {
      LevelShapes(levels, grid);
      RepeatPalindrome(smooth, s.pre);
      RepeatSelfAdjoint(smooth, s.pre, n);
      CoarseSelfAdjoint(levels, grid, s);
      CycleOpsAre(levels, grid, s);
      var coarse := CoarseOp(levels, grid, s);
      AroundSelfAdjoint(Repeat(smooth, s.pre), coarse, n);
      AroundPalindrome(Repeat(smooth, s.pre), coarse);
    }
  }

  /** Main result: with as many sweeps after as before, the cycle from zero is self-adjoint on every level. */
  lemma {:induction false} CycleSelfAdjoint(levels: seq<Level>, grid: nat, s: Settings, b: Vector, c: Vector)
    requires Hierarchy(levels) && grid < |levels| && s.pre == s.post
    requires |b| == |levels[grid].a| == |c|
    ensures |Cycle(levels, grid, b, s)| == |b|
    ensures Dot(Cycle(levels, grid, b, s), c) == Dot(b, Cycle(levels, grid, c, s))
    decreases |levels| - grid, 2
  {
    var a, ops := levels[grid].a, CycleOps(levels, grid, s);
    LevelsSelfAdjoint(levels, grid);
    CycleOpsPalindrome(levels, grid, s);
    CycleRun(levels, grid, b, s);
    CycleRun(levels, grid, c, s);
    RunLength(a, ops, |a|, b);
    RunAdjoint(a, ops, |a|, b, c);
  }

  lemma {:induction false} CoarseSelfAdjoint(levels: seq<Level>, grid: nat, s: Settings)
    requires Hierarchy(levels) && grid + 1 < |levels| && s.pre == s.post && levels[grid].cellMap.Some?
    ensures SelfAdjoint(CoarseOp(levels, grid, s), |levels[grid].a|)
    decreases |levels| - grid, 0
  {
    CoarseLengths(levels, grid, s);
    CoarseAdjoints(levels, grid, s);
  }

  lemma {:induction false} CoarseLengths(levels: seq<Level>, grid: nat, s: Settings)
    requires Hierarchy(levels) && grid + 1 < |levels|
    ensures forall u: Vector :: |u| == |levels[grid].a| ==> |CoarseOp(levels, grid, s)(u)| == |levels[grid].a|
  {
    forall u: Vector | |u| == |levels[grid].a| ensures |CoarseOp(levels, grid, s)(u)| == |levels[grid].a| {
      CoarseLength(levels, grid, s, u);
    }
  }

  lemma {:induction false} CoarseAdjoints(levels: seq<Level>, grid: nat, s: Settings)
    requires Hierarchy(levels) && grid + 1 < |levels| && s.pre == s.post && levels[grid].cellMap.Some?
    ensures forall u: Vector, v: Vector {:trigger Dot(CoarseOp(levels, grid, s)(u), v)} ::
              |u| == |levels[grid].a| == |v| ==>
                Dot(CoarseOp(levels, grid, s)(u), v) == Dot(u, CoarseOp(levels, grid, s)(v))
    decreases |levels| - (grid + 1), 4
  {
    forall u: Vector, v: Vector | |u| == |levels[grid].a| == |v|
      ensures Dot(CoarseOp(levels, grid, s)(u), v) == Dot(u, CoarseOp(levels, grid, s)(v))
    {
      CoarseAdjoint(levels, grid, s, u, v);
    }
  }

  lemma {:induction false} CoarseLength(levels: seq<Level>, grid: nat, s: Settings, u: Vector)
    requires Hierarchy(levels) && grid + 1 < |levels|
    ensures |CoarseOp(levels, grid, s)(u)| == |levels[grid].a|
  {
    LevelShapes(levels, grid);
  }

  lemma {:induction false} CoarseAdjoint(levels: seq<Level>, grid: nat, s: Settings, u: Vector, v: Vector)
    requires Hierarchy(levels) && grid + 1 < |levels| && s.pre == s.post && levels[grid].cellMap.Some?
    requires |u| == |levels[grid].a| == |v|
    ensures Dot(CoarseOp(levels, grid, s)(u), v) == Dot(u, CoarseOp(levels, grid, s)(v))
    decreases |levels| - (grid + 1), 3
  {
    LevelShapes(levels, grid);
    var p, n, m := levels[grid].p, |levels[grid].a|, |levels[grid + 1].a|;
    var ru, rv := Restrict(levels[grid], u), Restrict(levels[grid], v);
    CycleSelfAdjoint(levels, grid + 1, s, ru, rv);
    CycleSelfAdjoint(levels, grid + 1, s, rv, ru);
    var xu, xv := Cycle(levels, grid + 1, ru, s), Cycle(levels, grid + 1, rv, s);
    TransferAdjoint(p, n, m, v, xu);
    TransferAdjoint(p, n, m, u, xv);
    DotSymmetric(u, Prolong(levels[grid], xv));
    DotSymmetric(xv, ru);
  }

  /** Hence the cycle is a linear operator: its products with every vector are linear in the argument. */
  lemma {:induction false} CycleLinear(levels: seq<Level>, grid: nat, s: Settings, k: real, b: Vector, c: Vector)
    requires Hierarchy(levels) && grid < |levels| && s.pre == s.post
    requires |b| == |levels[grid].a| == |c|
    ensures Cycle(levels, grid, Add(Scale(k, b), c), s) ==
            Add(Scale(k, Cycle(levels, grid, b, s)), Cycle(levels, grid, c, s))
  {
    var bc := Add(Scale(k, b), c);
    var left := Cycle(levels, grid, bc, s);
    var xb, xc := Cycle(levels, grid, b, s), Cycle(levels, grid, c, s);
    CycleSelfAdjoint(levels, grid, s, b, c);
    CycleSelfAdjoint(levels, grid, s, c, b);
    CycleSelfAdjoint(levels, grid, s, bc, b);
    var right := Add(Scale(k, xb), xc);
    forall z: Vector | |z| == |left| ensures Dot(left, z) == Dot(right, z) {
      CycleTested(levels, grid, s, k, b, c, z);
    }
    DotDetermines(left, right);
  }

  lemma {:induction false} CycleTested(levels: seq<Level>, grid: nat, s: Settings, k: real, b: Vector, c: Vector,
                                       z: Vector)
    requires Hierarchy(levels) && grid < |levels| && s.pre == s.post
    requires |b| == |levels[grid].a| == |c| == |z|
    ensures Dot(Cycle(levels, grid, Add(Scale(k, b), c), s), z) ==
            Dot(Add(Scale(k, Cycle(levels, grid, b, s)), Cycle(levels, grid, c, s)), z)
  {
    var bc, xz := Add(Scale(k, b), c), Cycle(levels, grid, z, s);
    var xb, xc := Cycle(levels, grid, b, s), Cycle(levels, grid, c, s);
    CycleSelfAdjoint(levels, grid, s, bc, z);
    CycleSelfAdjoint(levels, grid, s, b, z);
    CycleSelfAdjoint(levels, grid, s, c, z);
    CycleSelfAdjoint(levels, grid, s, z, z);
    SameCombination(k, b, c, xz, xb, xc, z);
  }

  lemma SameCombination(k: real, b: Vector, c: Vector, xz: Vector, xb: Vector, xc: Vector, z: Vector)
    requires |b| == |c| == |xz| == |xb| == |xc| == |z|
    requires Dot(xb, z) == Dot(b, xz) && Dot(xc, z) == Dot(c, xz)
    ensures Dot(Add(Scale(k, b), c), xz) == Dot(Add(Scale(k, xb), xc), z)
  {
    DotCombination(k, b, c, xz);
    DotCombination(k, xb, xc, z);
  }

  lemma DotCombination(k: real, x: Vector, y: Vector, z: Vector)
    requires |x| == |y| == |z|
    ensures Dot(Add(Scale(k, x), y), z) == k * Dot(x, z) + Dot(y, z)
  {
    DotAdd(Scale(k, x), y, z);
    DotScale(k, x, z);
  }
}
