/** The truncated Neumann series preconditioner. */
module Neumann {
  import opened Sums
  import opened Vectors
  import opened Ldu

  // ---- the operator is linear -----------------------------------------------------------------------

  lemma {:induction false} LowerLinear(l: Ldu, x: Vector, y: Vector, c: int)
    requires l.Valid() && |x| == |y| == l.n
    ensures Sum(l.NFaces(), l.LowerTerm(Sub(x, y), c)) ==
      Sum(l.NFaces(), l.LowerTerm(x, c)) - Sum(l.NFaces(), l.LowerTerm(y, c))
  {
    forall f | 0 <= f < l.NFaces()
      ensures l.LowerTerm(x, c)(f) == l.LowerTerm(Sub(x, y), c)(f) + l.LowerTerm(y, c)(f)
    {
      MulSub(l.lower[f], At(x, l.own[f]), At(y, l.own[f]));
    }
    SumAdd(l.NFaces(), l.LowerTerm(Sub(x, y), c), l.LowerTerm(y, c), l.LowerTerm(x, c));
  }

  lemma {:induction false} UpperLinear(l: Ldu, x: Vector, y: Vector, c: int)
    requires l.Valid() && |x| == |y| == l.n
    ensures Sum(l.NFaces(), l.UpperTerm(Sub(x, y), c)) ==
      Sum(l.NFaces(), l.UpperTerm(x, c)) - Sum(l.NFaces(), l.UpperTerm(y, c))
  {
    forall f | 0 <= f < l.NFaces()
      ensures l.UpperTerm(x, c)(f) == l.UpperTerm(Sub(x, y), c)(f) + l.UpperTerm(y, c)(f)
    {
      MulSub(l.upper[f], At(x, l.nei[f]), At(y, l.nei[f]));
    }
    SumAdd(l.NFaces(), l.UpperTerm(Sub(x, y), c), l.UpperTerm(y, c), l.UpperTerm(x, c));
  }

  lemma {:induction false} AmulSub(l: Ldu, x: Vector, y: Vector)
    requires l.Valid() && |x| == |y| == l.n
    ensures l.Amul(Sub(x, y)) == Sub(l.Amul(x), l.Amul(y))
  {
    assert seq(l.n, c => At(x, c)) == x && seq(l.n, c => At(y, c)) == y;
    assert seq(l.n, c => At(Sub(x, y), c)) == Sub(x, y);
    TimesSub(l.diag, x, y);
    forall c | 0 <= c < l.n ensures l.Amul(Sub(x, y))[c] == Sub(l.Amul(x), l.Amul(y))[c] {
      LowerLinear(l, x, y, c);
      UpperLinear(l, x, y, c);
    }
  }

  lemma {:induction false} AmulAdd(l: Ldu, x: Vector, y: Vector)
    requires l.Valid() && |x| == |y| == l.n
    ensures l.Amul(Add(x, y)) == Add(l.Amul(x), l.Amul(y))
  {
    AmulSub(l, Add(x, y), y);
    assert Sub(Add(x, y), y) == x;
  }

  // ---- what the series is ---------------------------------------------------------------------------

  /** `(I - D^-1 A)^j z`. */
  function Powers(l: Ldu, rD: Vector, z: Vector, j: nat): (t: Vector)
    requires l.Valid() && |rD| == |z| == l.n
    ensures |t| == l.n
  {
    if j == 0 then z
    else var t := Powers(l, rD, z, j - 1); Sub(t, Times(rD, l.Amul(t)))
  }

  /** The sum of the first `k` powers applied to `D^-1 r`. */
  function Series(l: Ldu, rD: Vector, r: Vector, k: nat): (w: Vector)
    requires l.Valid() && |rD| == |r| == l.n
    ensures |w| == l.n
  {
    if k == 0 then Zeros(l.n) else Add(Series(l, rD, r, k - 1), Powers(l, rD, Times(rD, r), k - 1))
  }

  /** `k` undamped Jacobi sweeps from zero. */
  function Jacobi(l: Ldu, rD: Vector, r: Vector, k: nat): (x: Vector)
    requires l.Valid() && |rD| == |r| == l.n
    ensures |x| == l.n
  {
    if k == 0 then Zeros(l.n)
    else var x := Jacobi(l, rD, r, k - 1); Add(x, Times(rD, Sub(r, l.Amul(x))))
  }

  /** `(I - A D^-1)^k r`. */
  function ErrorPower(l: Ldu, rD: Vector, r: Vector, k: nat): (e: Vector)
    requires l.Valid() && |rD| == |r| == l.n
    ensures |e| == l.n
  {
    if k == 0 then r
    else var e := ErrorPower(l, rD, r, k - 1); Sub(e, l.Amul(Times(rD, e)))
  }

  method Apply(l: Ldu, rD: Vector, r: Vector, k: nat) returns (w: Vector)
    requires l.Valid() && |rD| == |r| == l.n && k >= 1
    ensures w == Series(l, rD, r, k)
  {
    w := Times(rD, r);
    var t := w;
    assert Add(Zeros(l.n), w) == w;
    assert Series(l, rD, r, 0) == Zeros(l.n);
    for i := 1 to k
      invariant t == Powers(l, rD, Times(rD, r), i - 1)
      invariant w == Series(l, rD, r, i)
    {
      t := Sub(t, Times(rD, l.Amul(t)));
      w := Add(w, t);
    }
  }

  /** Each power is the scaled residual left by the powers before it. */
  lemma {:induction false} PowerIsScaledError(l: Ldu, rD: Vector, r: Vector, j: nat)
    requires l.Valid() && |rD| == |r| == l.n
    ensures Powers(l, rD, Times(rD, r), j) == Times(rD, ErrorPower(l, rD, r, j))
  {
    if j > 0 {
      PowerIsScaledError(l, rD, r, j - 1);
      var e := ErrorPower(l, rD, r, j - 1);
      TimesSub(rD, e, l.Amul(Times(rD, e)));
    }
  }

  lemma {:induction false} AmulZeros(l: Ldu)
    requires l.Valid()
    ensures l.Amul(Zeros(l.n)) == Zeros(l.n)
  {
    AmulSub(l, Zeros(l.n), Zeros(l.n));
    assert Sub(Zeros(l.n), Zeros(l.n)) == Zeros(l.n);
    var z := l.Amul(Zeros(l.n));
    forall c | 0 <= c < l.n ensures z[c] == 0.0 {
      assert z[c] == Sub(z, z)[c];
    }
  }

  lemma SubAdd(r: Vector, a: Vector, b: Vector)
    requires |r| == |a| == |b|
    ensures Sub(r, Add(a, b)) == Sub(Sub(r, a), b)
  {
  }

  /** One more term takes the residual one error power further. */
  lemma {:induction false} ResidualStep(l: Ldu, rD: Vector, r: Vector, w: Vector, e: Vector)
    requires l.Valid() && |rD| == |r| == |w| == |e| == l.n && Sub(r, l.Amul(w)) == e
    ensures Sub(r, l.Amul(Add(w, Times(rD, e)))) == Sub(e, l.Amul(Times(rD, e)))
  {
    AmulAdd(l, w, Times(rD, e));
    SubAdd(r, l.Amul(w), l.Amul(Times(rD, e)));
  }

  /** Main result: the residual of the series is the error operator to the power `k`. */
  lemma {:induction false} SeriesResidual(l: Ldu, rD: Vector, r: Vector, k: nat)
    requires l.Valid() && |rD| == |r| == l.n
    ensures Sub(r, l.Amul(Series(l, rD, r, k))) == ErrorPower(l, rD, r, k)
  {
    if k == 0 {
      AmulZeros(l);
      assert Sub(r, Zeros(l.n)) == r;
    } else {
      SeriesResidual(l, rD, r, k - 1);
      PowerIsScaledError(l, rD, r, k - 1);
      ResidualStep(l, rD, r, Series(l, rD, r, k - 1), ErrorPower(l, rD, r, k - 1));
    }
  }

  /** Main result: the series is exactly `k` undamped Jacobi sweeps from zero. */
  lemma {:induction false} SeriesIsJacobi(l: Ldu, rD: Vector, r: Vector, k: nat)
    requires l.Valid() && |rD| == |r| == l.n
    ensures Series(l, rD, r, k) == Jacobi(l, rD, r, k)
  {
    if k > 0 {
      SeriesIsJacobi(l, rD, r, k - 1);
      SeriesResidual(l, rD, r, k - 1);
      PowerIsScaledError(l, rD, r, k - 1);
    }
  }
}
