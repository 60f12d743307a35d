/** Real vectors and dense matrices, with out-of-range entries read as zero, and the laws of dot products and
    matrix products that the preconditioners rest on. */
module Vectors {
  import opened Sums

  type Vector = seq<real>
  type Matrix = seq<seq<real>>

  function At(x: Vector, i: int): real { if 0 <= i < |x| then x[i] else 0.0 }

  function Entry(a: Matrix, i: int, j: int): real { if 0 <= i < |a| then At(a[i], j) else 0.0 }

  function Zeros(n: nat): Vector { seq(n, _ => 0.0) }

  function Unit(n: nat, k: nat): Vector { seq(n, i => if i == k then 1.0 else 0.0) }

  function Add(x: Vector, y: Vector): Vector { seq(|x|, i => At(x, i) + At(y, i)) }

  function Sub(x: Vector, y: Vector): Vector { seq(|x|, i => At(x, i) - At(y, i)) }

  function Scale(k: real, x: Vector): Vector { seq(|x|, i => k * At(x, i)) }

  function Term(x: Vector, y: Vector): int -> real { i => At(x, i) * At(y, i) }

  function Dot(x: Vector, y: Vector): real { Sum(|x|, Term(x, y)) }

  function MatVec(a: Matrix, x: Vector): Vector { seq(|a|, i requires 0 <= i < |a| => Dot(a[i], x)) }

  /** An n by m matrix. */
  predicate Shape(a: Matrix, n: nat, m: nat) {
    |a| == n && forall i :: 0 <= i < n ==> |a[i]| == m
  }

  function Transpose(a: Matrix, n: nat, m: nat): (t: Matrix)
    ensures Shape(t, m, n)
  {
    seq(m, j => seq(n, i => Entry(a, i, j)))
  }

  function MatMul(a: Matrix, b: Matrix, n: nat, k: nat, m: nat): (c: Matrix)
    ensures Shape(c, n, m)
  {
    seq(n, i => seq(m, j => Sum(k, l => Entry(a, i, l) * Entry(b, l, j))))
  }

  // ---- vector laws --------------------------------------------------------------------------------

  lemma DotSymmetric(x: Vector, y: Vector)
    requires |x| == |y|
    ensures Dot(x, y) == Dot(y, x)
  {
    SumEqual(|x|, Term(x, y), Term(y, x));
  }

  lemma DotAdd(x: Vector, y: Vector, z: Vector)
    requires |x| == |y| == |z|
    ensures Dot(Add(x, y), z) == Dot(x, z) + Dot(y, z)
    ensures Dot(z, Add(x, y)) == Dot(z, x) + Dot(z, y)
  {
    SumAdd(|x|, Term(x, z), Term(y, z), Term(Add(x, y), z));
    DotSymmetric(Add(x, y), z);
    DotSymmetric(x, z);
    DotSymmetric(y, z);
  }

  lemma DotScale(k: real, x: Vector, z: Vector)
    requires |x| == |z|
    ensures Dot(Scale(k, x), z) == k * Dot(x, z)
    ensures Dot(z, Scale(k, x)) == k * Dot(z, x)
  {
    SumScale(|x|, k, Term(x, z), Term(Scale(k, x), z));
    DotSymmetric(Scale(k, x), z);
    DotSymmetric(x, z);
  }

  lemma DotSub(x: Vector, y: Vector, z: Vector)
    requires |x| == |y| == |z|
    ensures Dot(Sub(x, y), z) == Dot(x, z) - Dot(y, z)
    ensures Dot(z, Sub(x, y)) == Dot(z, x) - Dot(z, y)
  {
    var d := Sub(x, y);
    assert Add(d, y) == x;
    DotAdd(d, y, z);
  }

  /** A vector is determined by its products with all vectors. */
  lemma DotDetermines(x: Vector, y: Vector)
    requires |x| == |y|
    requires forall z: Vector :: |z| == |x| ==> Dot(x, z) == Dot(y, z)
    ensures x == y
  {
    forall k | 0 <= k < |x| ensures x[k] == y[k] {
      var e := Unit(|x|, k);
      DotUnit(x, k);
      DotUnit(y, k);
      assert Dot(x, e) == Dot(y, e);
    }
  }

  lemma DotUnit(x: Vector, k: nat)
    requires k < |x|
    ensures Dot(x, Unit(|x|, k)) == x[k]
  {
    SumOnly(|x|, Term(x, Unit(|x|, k)), k);
  }

  // ---- matrix laws --------------------------------------------------------------------------------

  lemma MatVecAdd(a: Matrix, x: Vector, y: Vector, n: nat)
    requires Shape(a, n, |x|) && |x| == |y|
    ensures MatVec(a, Add(x, y)) == Add(MatVec(a, x), MatVec(a, y))
  {
    forall i | 0 <= i < n ensures MatVec(a, Add(x, y))[i] == Add(MatVec(a, x), MatVec(a, y))[i] {
      DotAdd(x, y, a[i]);
    }
  }

  /** Moving a matrix across the product transposes it. */
  lemma MatVecAdjoint(a: Matrix, n: nat, m: nat, x: Vector, y: Vector)
    requires Shape(a, n, m) && |x| == m && |y| == n
    ensures Dot(MatVec(a, x), y) == Dot(x, MatVec(Transpose(a, n, m), y))
  {
    var t := (i: int, j: int) => Entry(a, i, j) * At(x, j) * At(y, i);
    var left, right := Term(MatVec(a, x), y), Term(x, MatVec(Transpose(a, n, m), y));
    forall i | 0 <= i < n ensures left(i) == Sum(m, j => t(i, j)) {
      SumScale(m, At(y, i), Term(a[i], x), j => t(i, j));
    }
    forall j | 0 <= j < m ensures right(j) == Sum(n, i => t(i, j)) {
      SumScale(n, At(x, j), Term(Transpose(a, n, m)[j], y), i => t(i, j));
    }
    SumSwap(n, m, t, left, right);
  }

  lemma MatMulVec(a: Matrix, b: Matrix, n: nat, k: nat, m: nat, x: Vector)
    requires Shape(a, n, k) && Shape(b, k, m) && |x| == m
    ensures MatVec(MatMul(a, b, n, k, m), x) == MatVec(a, MatVec(b, x))
  {
    forall i | 0 <= i < n ensures MatVec(MatMul(a, b, n, k, m), x)[i] == MatVec(a, MatVec(b, x))[i] {
      var t := (j: int, l: int) => Entry(a, i, l) * Entry(b, l, j) * At(x, j);
      var ab := MatMul(a, b, n, k, m);
      var left, right := Term(ab[i], x), Term(a[i], MatVec(b, x));
      forall j | 0 <= j < m ensures left(j) == Sum(k, l => t(j, l)) {
        SumScale(k, At(x, j), l => Entry(a, i, l) * Entry(b, l, j), l => t(j, l));
      }
      forall l | 0 <= l < k ensures right(l) == Sum(m, j => t(j, l)) {
        SumScale(m, Entry(a, i, l), Term(b[l], x), j => t(j, l));
      }
      SumSwap(m, k, t, left, right);
    }
  }

  lemma TransposeSymmetric(a: Matrix, n: nat)
    requires Shape(a, n, n) && forall i, j :: 0 <= i < n && 0 <= j < n ==> a[i][j] == a[j][i]
    ensures Transpose(a, n, n) == a
  {
    forall j | 0 <= j < n ensures Transpose(a, n, n)[j] == a[j] {
    }
  }

  // ---- cell by cell products ------------------------------------------------------------------------

  function Times(d: Vector, x: Vector): (y: Vector)
    ensures |y| == |x|
  {
    seq(|x|, i => At(d, i) * At(x, i))
  }

  lemma TimesSub(d: Vector, x: Vector, y: Vector)
    requires |d| == |x| == |y|
    ensures Times(d, Sub(x, y)) == Sub(Times(d, x), Times(d, y))
  {
    forall i | 0 <= i < |d| ensures Times(d, Sub(x, y))[i] == Sub(Times(d, x), Times(d, y))[i] {
      MulSub(d[i], x[i], y[i]);
    }
  }

  lemma MulSub(d: real, x: real, y: real)
    ensures d * (x - y) == d * x - d * y
  {
  }

  /** `rD` holds the reciprocals of `d`. */
  predicate Reciprocals(rD: Vector, d: Vector) {
    |rD| == |d| && forall c :: 0 <= c < |d| ==> d[c] != 0.0 && rD[c] == 1.0 / d[c]
  }

  lemma TimesReciprocal(d: Vector, rD: Vector, x: Vector)
    requires Reciprocals(rD, d) && |x| == |d|
    ensures Times(d, Times(rD, x)) == x
  {
    forall i | 0 <= i < |d| ensures Times(d, Times(rD, x))[i] == x[i] {
      Cancel(d[i], rD[i], x[i]);
    }
  }

  lemma Cancel(d: real, rD: real, x: real)
    requires d != 0.0 && rD == 1.0 / d
    ensures d * (rD * x) == x
  {
    assert d * rD == 1.0;
    assert d * (rD * x) == (d * rD) * x;
  }

  predicate NoZeros(d: Vector) {
    forall c :: 0 <= c < |d| ==> d[c] != 0.0
  }

  function Over(x: Vector, d: Vector): (y: Vector)
    requires |x| == |d| && NoZeros(d)
    ensures |y| == |x|
  {
    seq(|x|, i requires 0 <= i < |x| => x[i] / d[i])
  }

  lemma TimesOver(d: Vector, x: Vector)
    requires |x| == |d| && NoZeros(d)
    ensures Times(d, Over(x, d)) == x
  {
    forall i | 0 <= i < |d| ensures Times(d, Over(x, d))[i] == x[i] {
      assert d[i] * (x[i] / d[i]) == x[i];
    }
  }

  lemma TimesAdd(d: Vector, x: Vector, y: Vector)
    requires |d| == |x| == |y|
    ensures Times(d, Add(x, y)) == Add(Times(d, x), Times(d, y))
  {
    forall i | 0 <= i < |d| ensures Times(d, Add(x, y))[i] == Add(Times(d, x), Times(d, y))[i] {
      MulSub(d[i], x[i], -y[i]);
    }
  }

  /** A cell by cell product without zero factors can be undone. */
  lemma TimesInjective(d: Vector, x: Vector, y: Vector)
    requires |d| == |x| == |y| && NoZeros(d) && Times(d, x) == Times(d, y)
    ensures x == y
  {
    forall i | 0 <= i < |d| ensures x[i] == y[i] {
      assert Times(d, x)[i] == Times(d, y)[i];
      FactorEqual(d[i], x[i], y[i]);
    }
  }

  lemma FactorEqual(d: real, x: real, y: real)
    requires d != 0.0 && d * x == d * y
    ensures x == y
  {
    assert x == d * x / d && y == d * y / d;
  }

  /** Undoing a relaxation step `w - rD * s`. */
  lemma RelaxUndone(d: Vector, rD: Vector, w: Vector, s: Vector)
    requires Reciprocals(rD, d) && |w| == |s| == |d|
    ensures Add(Times(d, Sub(w, Times(rD, s))), s) == Times(d, w)
  {
    TimesSub(d, w, Times(rD, s));
    TimesReciprocal(d, rD, s);
  }
}
