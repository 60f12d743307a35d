/** When the V-cycle is positive definite, which conjugate gradients also need. */
module Definite {
  import opened Sums
  import opened Vectors
  import opened VCycle
  import opened PositiveCycle

  // ---- operators that qualify ------------------------------------------------------------------------

  function Ones(n: nat): Vector { seq(n, _ => 1.0) }

  /** Symmetric, no positive coupling, no negative row sum: what diffusion on a mesh assembles to. */
  ghost predicate Diffusive(a: Matrix, n: nat) {
    && SelfAdjointMatrix(a, n)
    && (forall i, j :: 0 <= i < n && 0 <= j < n && i != j ==> Entry(a, i, j) <= 0.0)
    && (forall i :: 0 <= i < n ==> Dot(a[i], Ones(n)) >= 0.0)
  }

  lemma EntriesSymmetric(a: Matrix, n: nat, i: nat, j: nat)
    requires SelfAdjointMatrix(a, n) && i < n && j < n
    ensures Entry(a, i, j) == Entry(a, j, i)
  {
    var ei, ej := Unit(n, i), Unit(n, j);
    assert Dot(MatVec(a, ej), ei) == Dot(ej, MatVec(a, ei));
    DotUnit(MatVec(a, ej), i);
    DotSymmetric(ej, MatVec(a, ei));
    DotUnit(MatVec(a, ei), j);
    DotUnit(a[i], j);
    DotUnit(a[j], i);
  }

  /** One coupling is bounded by the two squares. */
  lemma CouplingBound(c: real, x: real, y: real)
    requires c <= 0.0
    ensures 2.0 * (c * x * y) <= -(c * (x * x)) - c * (y * y)
  {
    var q := x + y;
    assert q * q >= 0.0;
    assert c * (q * q) <= 0.0;
    assert q * q == x * x + 2.0 * (x * y) + y * y;
    assert c * x * y == c * (x * y);
    assert c * (x * x + 2.0 * (x * y) + y * y) == c * (x * x) + 2.0 * (c * (x * y)) + c * (y * y);
  }

  lemma CouplingAtLeast(c: real, x: real, y: real)
    requires c <= 0.0
    ensures 2.0 * (c * x * y) >= c * (x * x) + c * (y * y)
  {
    CouplingBound(c, -x, y);
    assert c * -x * y == -(c * x * y) && -x * -x == x * x;
  }

  /** Coupling of `i` with `j` in the quadratic form, and its share of the square of `u[i]`. */
  function Cross(a: Matrix, u: Vector, i: int, j: int): real { Entry(a, i, j) * At(u, j) * At(u, i) }

  function Share(a: Matrix, u: Vector, i: int, j: int): real { Entry(a, i, j) * (At(u, i) * At(u, i)) }

  lemma PairBound(a: Matrix, n: nat, u: Vector, i: nat, j: nat)
    requires Diffusive(a, n) && |u| == n && i < n && j < n
    ensures 2.0 * Cross(a, u, i, j) <=
            (if i == j then 4.0 * Squares(a, u)(i) else 0.0) - Share(a, u, i, j) - Share(a, u, j, i)
  {
    EntriesSymmetric(a, n, i, j);
    if i != j {
      CouplingBound(Entry(a, i, j), At(u, j), At(u, i));
    }
  }

  lemma PairAtLeast(a: Matrix, n: nat, u: Vector, i: nat, j: nat)
    requires Diffusive(a, n) && |u| == n && i < n && j < n
    ensures 2.0 * Cross(a, u, i, j) >= Share(a, u, i, j) + Share(a, u, j, i)
  {
    EntriesSymmetric(a, n, i, j);
    if i != j {
      CouplingAtLeast(Entry(a, i, j), At(u, j), At(u, i));
    } else {
      assert Cross(a, u, i, i) == Entry(a, i, i) * (At(u, i) * At(u, i));
    }
  }

  lemma SumAtLeast(n: nat, row: int -> real, f: int -> real, g: int -> real)
    requires forall j :: 0 <= j < n ==> 2.0 * row(j) >= f(j) + g(j)
    ensures 2.0 * Sum(n, row) >= Sum(n, f) + Sum(n, g)
  {
  }

  lemma SumBound(n: nat, row: int -> real, d: int -> real, f: int -> real, g: int -> real)
    requires forall j :: 0 <= j < n ==> 2.0 * row(j) <= d(j) - f(j) - g(j)
    ensures 2.0 * Sum(n, row) <= Sum(n, d) - Sum(n, f) - Sum(n, g)
  {
  }

  function RowShares(a: Matrix, u: Vector, i: int): int -> real { j => Share(a, u, i, j) }

  function ColShares(a: Matrix, u: Vector, i: int): int -> real { j => Share(a, u, j, i) }

  lemma RowBound(a: Matrix, n: nat, u: Vector, i: nat)
    requires Diffusive(a, n) && |u| == n && i < n
    ensures 2.0 * Term(MatVec(a, u), u)(i) <=
            4.0 * Squares(a, u)(i) - Sum(n, RowShares(a, u, i)) - Sum(n, ColShares(a, u, i))
  {
    var row := (j: int) => Cross(a, u, i, j);
    var d := (j: int) => if i == j then 4.0 * Squares(a, u)(i) else 0.0;
    RowTerms(a, n, u, i, row);
    forall j | 0 <= j < n ensures 2.0 * row(j) <= d(j) - RowShares(a, u, i)(j) - ColShares(a, u, i)(j) {
      PairBound(a, n, u, i, j);
    }
    SumBound(n, row, d, RowShares(a, u, i), ColShares(a, u, i));
    SumOnly(n, d, i);
  }

  lemma RowAtLeast(a: Matrix, n: nat, u: Vector, i: nat)
    requires Diffusive(a, n) && |u| == n && i < n
    ensures 2.0 * Term(MatVec(a, u), u)(i) >= Sum(n, RowShares(a, u, i)) + Sum(n, ColShares(a, u, i))
  {
    var row := (j: int) => Cross(a, u, i, j);
    RowTerms(a, n, u, i, row);
    forall j | 0 <= j < n ensures 2.0 * row(j) >= RowShares(a, u, i)(j) + ColShares(a, u, i)(j) {
      PairAtLeast(a, n, u, i, j);
    }
    SumAtLeast(n, row, RowShares(a, u, i), ColShares(a, u, i));
  }

  lemma RowTerms(a: Matrix, n: nat, u: Vector, i: nat, row: int -> real)
    requires Shape(a, n, n) && |u| == n && i < n && forall j :: 0 <= j < n ==> row(j) == Cross(a, u, i, j)
    ensures Sum(n, row) == Term(MatVec(a, u), u)(i)
  {
    SumScale(n, At(u, i), Term(a[i], u), row);
  }

  lemma SharesNonNegative(a: Matrix, n: nat, u: Vector, i: nat)
    requires Diffusive(a, n) && |u| == n && i < n
    ensures Sum(n, RowShares(a, u, i)) >= 0.0
  {
    var square := At(u, i) * At(u, i);
    forall j | 0 <= j < n ensures RowShares(a, u, i)(j) == square * Term(a[i], Ones(n))(j) {
      assert RowShares(a, u, i)(j) == Share(a, u, i, j) == Entry(a, i, j) * square;
      assert Term(a[i], Ones(n))(j) == Entry(a, i, j);
    }
    SumScale(n, square, Term(a[i], Ones(n)), RowShares(a, u, i));
    assert Dot(a[i], Ones(n)) >= 0.0;
    assert square >= 0.0;
  }

  /** Row by row or column by column, the shares have the same total. */
  lemma SharesSwap(a: Matrix, n: nat, u: Vector, rows: int -> real, cols: int -> real)
    requires forall i :: 0 <= i < n ==> rows(i) == Sum(n, RowShares(a, u, i)) && cols(i) == Sum(n, ColShares(a, u, i))
    ensures Sum(n, rows) == Sum(n, cols)
  {
    var t := (i: int, j: int) => Share(a, u, i, j);
    forall i | 0 <= i < n ensures rows(i) == Sum(n, j => t(i, j)) && cols(i) == Sum(n, j => t(j, i)) {
      SumEqual(n, RowShares(a, u, i), j => t(i, j));
      SumEqual(n, ColShares(a, u, i), j => t(j, i));
    }
    SumSwap(n, n, t, rows, cols);
  }

  /** For such operators `0 <= x^T A x <= 2 x^T D x`. */
  lemma EnergyBound(a: Matrix, n: nat, u: Vector)
    requires Diffusive(a, n) && |u| == n
    ensures 0.0 <= Dot(MatVec(a, u), u) <= 2.0 * Sum(n, Squares(a, u))
  {
    var rows, cols := (i: int) => Sum(n, RowShares(a, u, i)), (i: int) => Sum(n, ColShares(a, u, i));
    EnergyRows(a, n, u, rows, cols);
    EnergyAtLeast(a, n, u, rows, cols);
    SharesSwap(a, n, u, rows, cols);
    forall i | 0 <= i < n ensures rows(i) >= 0.0 {
      SharesNonNegative(a, n, u, i);
    }
    SumAtMost(n, i => 0.0, rows);
    SumZero(n, i => 0.0);
  }

  lemma EnergyAtLeast(a: Matrix, n: nat, u: Vector, rows: int -> real, cols: int -> real)
    requires Diffusive(a, n) && |u| == n
    requires forall i :: 0 <= i < n ==> rows(i) == Sum(n, RowShares(a, u, i)) && cols(i) == Sum(n, ColShares(a, u, i))
    ensures 2.0 * Dot(MatVec(a, u), u) >= Sum(n, rows) + Sum(n, cols)
  {
    forall i | 0 <= i < n ensures 2.0 * Term(MatVec(a, u), u)(i) >= rows(i) + cols(i) {
      RowAtLeast(a, n, u, i);
    }
    SumAtLeast(n, Term(MatVec(a, u), u), rows, cols);
  }

  lemma EnergyRows(a: Matrix, n: nat, u: Vector, rows: int -> real, cols: int -> real)
    requires Diffusive(a, n) && |u| == n
    requires forall i :: 0 <= i < n ==> rows(i) == Sum(n, RowShares(a, u, i)) && cols(i) == Sum(n, ColShares(a, u, i))
    ensures 2.0 * Dot(MatVec(a, u), u) <= 4.0 * Sum(n, Squares(a, u)) - Sum(n, rows) - Sum(n, cols)
  {
    var four := (i: int) => 4.0 * Squares(a, u)(i);
    forall i | 0 <= i < n ensures 2.0 * Term(MatVec(a, u), u)(i) <= four(i) - rows(i) - cols(i) {
      RowBound(a, n, u, i);
    }
    SumBound(n, Term(MatVec(a, u), u), four, rows, cols);
    SumScale(n, 4.0, Squares(a, u), four);
  }

  // ---- and stay so from level to level ---------------------------------------------------------------

  /** The Galerkin operator of a diffusive operator under injection is diffusive. */
  lemma GalerkinDiffusive(a: Matrix, cellMap: seq<nat>, n: nat, m: nat)
    requires Diffusive(a, n) && |cellMap| == n && forall i :: 0 <= i < n ==> cellMap[i] < m
    ensures Diffusive(Galerkin(a, Injection(cellMap, m), n, m), m)
  {
    var p := Injection(cellMap, m);
    var c := Galerkin(a, p, n, m);
    GalerkinSelfAdjoint(a, p, n, m);
    forall i, j | 0 <= i < m && 0 <= j < m && i != j ensures Entry(c, i, j) <= 0.0 {
      CouplingStays(a, cellMap, n, m, i, j);
    }
    forall i | 0 <= i < m ensures Dot(c[i], Ones(m)) >= 0.0 {
      RowSumStays(a, cellMap, n, m, i);
    }
  }

  lemma CouplingStays(a: Matrix, cellMap: seq<nat>, n: nat, m: nat, i: nat, j: nat)
    requires Diffusive(a, n) && |cellMap| == n && i < m && j < m && i != j
    ensures Entry(Galerkin(a, Injection(cellMap, m), n, m), i, j) <= 0.0
  {
    var p := Injection(cellMap, m);
    var pt := Transpose(p, n, m);
    var pa := MatMul(pt, a, m, n, n);
    var outer := (l: int) => Entry(pa, i, l) * Entry(p, l, j);
    forall l | 0 <= l < n ensures outer(l) <= 0.0 {
      if cellMap[l] == j {
        var inner := (k: int) => Entry(pt, i, k) * Entry(a, k, l);
        forall k | 0 <= k < n ensures inner(k) <= 0.0 {
          assert Entry(pt, i, k) == if cellMap[k] == i then 1.0 else 0.0;
        }
        SumAtMost(n, inner, x => 0.0);
        SumZero(n, x => 0.0);
        assert Entry(pa, i, l) == Sum(n, inner);
      }
    }
    SumAtMost(n, outer, x => 0.0);
    SumZero(n, x => 0.0);
  }

  lemma RowSumStays(a: Matrix, cellMap: seq<nat>, n: nat, m: nat, i: nat)
    requires Diffusive(a, n) && |cellMap| == n && i < m && forall k :: 0 <= k < n ==> cellMap[k] < m
    ensures Dot(Galerkin(a, Injection(cellMap, m), n, m)[i], Ones(m)) >= 0.0
  {
    var p := Injection(cellMap, m);
    var c := Galerkin(a, p, n, m);
    GalerkinApplies(a, p, n, m, Ones(m));
    forall k | 0 <= k < n ensures MatVec(p, Ones(m))[k] == 1.0 {
      SumOnly(m, Term(p[k], Ones(m)), cellMap[k]);
    }
    assert MatVec(p, Ones(m)) == Ones(n);
    var rowSums := MatVec(a, Ones(n));
    var t := Term(Transpose(p, n, m)[i], rowSums);
    SumAtMost(n, x => 0.0, t);
    SumZero(n, x => 0.0);
    assert MatVec(c, Ones(m))[i] == Sum(n, t);
  }

  lemma LevelsDiffusive(levels: seq<Level>, g: nat)
    requires Hierarchy(levels) && g < |levels| && Diffusive(levels[0].a, |levels[0].a|)
    ensures Diffusive(levels[g].a, |levels[g].a|)
  {
    if g > 0 {
      LevelsDiffusive(levels, g - 1);
      LevelMap(levels, g - 1);
      NextIsGalerkin(levels, g - 1);
      GalerkinDiffusive(levels[g - 1].a, levels[g - 1].cellMap.value, |levels[g - 1].a|, |levels[g].a|);
    }
  }

  lemma LevelMap(levels: seq<Level>, g: nat)
    requires Hierarchy(levels) && g + 1 < |levels|
    ensures levels[g].cellMap.Some? && |levels[g].cellMap.value| == |levels[g].a|
    ensures levels[g].p == Injection(levels[g].cellMap.value, |levels[g + 1].a|)
    ensures forall i :: 0 <= i < |levels[g].a| ==> levels[g].cellMap.value[i] < |levels[g + 1].a|
  {
    assert Linked(levels[g], levels[g + 1]);
  }

  /** A diffusive operator with no zero on its diagonal has a positive one, and damping below 1 suits it. */
  lemma DiffusiveDamped(a: Matrix, omega: real)
    requires Diffusive(a, |a|) && NonzeroDiagonal(a) && 0.0 < omega < 1.0
    ensures PositiveDiagonal(a) && Damped(a, omega, |a|)
  {
    forall i | 0 <= i < |a| ensures Entry(a, i, i) > 0.0 {
      DiagonalPositive(a, i);
    }
    forall u: Vector | |u| == |a| && Nonzero(u) ensures omega * Dot(MatVec(a, u), u) < 2.0 * Sum(|a|, Squares(a, u)) {
      EnergyBound(a, |a|, u);
      SquaresPositive(a, u);
      Shrunk(omega, Dot(MatVec(a, u), u), 2.0 * Sum(|a|, Squares(a, u)));
    }
  }

  lemma SquaresPositive(a: Matrix, u: Vector)
    requires PositiveDiagonal(a) && |u| == |a| && Nonzero(u)
    ensures Sum(|a|, Squares(a, u)) > 0.0
  {
    var k :| 0 <= k < |a| && u[k] != 0.0;
    forall i | 0 <= i < |a| ensures Squares(a, u)(i) >= 0.0 {
      SquareWeighted(Entry(a, i, i), At(u, i));
    }
    SquareWeighted(Entry(a, k, k), At(u, k));
    assert At(u, k) != 0.0;
    SumPositive(|a|, Squares(a, u), k);
  }

  lemma SquareWeighted(d: real, x: real)
    requires d > 0.0
    ensures Weighted(d, x) >= 0.0 && (x != 0.0 ==> Weighted(d, x) > 0.0)
  {
    if x == 0.0 {
      assert Weighted(d, x) == 0.0;
    } else {
      var size := if x > 0.0 then x else -x;
      ProductPositive(d, size);
      ProductPositive(d * size, size);
      assert Weighted(d, x) == d * size * size;
    }
  }

  lemma ProductPositive(x: real, y: real)
    requires x > 0.0 && y > 0.0
    ensures x * y > 0.0
  {
  }

  lemma Shrunk(omega: real, e: real, bound: real)
    requires 0.0 < omega < 1.0 && e <= bound && bound > 0.0
    ensures omega * e < bound
  {
    assert omega * (bound - e) >= 0.0;
    assert (1.0 - omega) * bound > 0.0;
  }

  lemma DiagonalPositive(a: Matrix, i: nat)
    requires Diffusive(a, |a|) && NonzeroDiagonal(a) && i < |a|
    ensures Entry(a, i, i) > 0.0
  {
    var n := |a|;
    var d := (j: int) => if j == i then Entry(a, i, i) else 0.0;
    assert Dot(a[i], Ones(n)) >= 0.0;
    forall j | 0 <= j < n ensures Term(a[i], Ones(n))(j) <= d(j) {
      assert Term(a[i], Ones(n))(j) == Entry(a, i, j);
    }
    SumAtMost(n, Term(a[i], Ones(n)), d);
    SumOnly(n, d, i);
  }

  /** Main result: for a diffusive finest operator and damping below 1, as in brae's 0.8, one cycle is a
      symmetric positive definite operator on every level. */
  lemma {:induction false} CycleDefinite(levels: seq<Level>, grid: nat, s: Settings, b: Vector)
    requires Hierarchy(levels) && grid < |levels| && Diffusive(levels[0].a, |levels[0].a|)
    requires 0.0 < s.omega < 1.0 && s.pre == s.post && s.pre > 0 && s.coarseSweeps > 0
    requires |b| == |levels[grid].a|
    ensures Dot(Cycle(levels, grid, b, s), b) >= 0.0
    ensures Nonzero(b) ==> Dot(Cycle(levels, grid, b, s), b) > 0.0
  {
    AllWellDamped(levels, s);
    CyclePositive(levels, grid, s, b);
  }

  lemma AllWellDamped(levels: seq<Level>, s: Settings)
    requires Hierarchy(levels) && Diffusive(levels[0].a, |levels[0].a|)
    requires 0.0 < s.omega < 1.0 && s.pre == s.post && s.pre > 0 && s.coarseSweeps > 0
    ensures WellDamped(levels, s)
  {
    forall g | 0 <= g < |levels| ensures PositiveDiagonal(levels[g].a) && Damped(levels[g].a, s.omega, |levels[g].a|) {
      LevelsDiffusive(levels, g);
      DiffusiveDamped(levels[g].a, s.omega);
    }
  }
}
