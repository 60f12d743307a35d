/** The diagonal incomplete LU preconditioner: reciprocal pivots and two in-place face sweeps. */
module Dilu {
  import opened Sums
  import opened Vectors
  import opened Ldu

  // ---- pivots -------------------------------------------------------------------------------------

  function PivotTerm(l: Ldu, d: Vector, c: int): int -> real
    requires l.Valid()
  {
    f => if 0 <= f < |l.own| && l.nei[f] == c && At(d, l.own[f]) != 0.0
         then l.upper[f] * l.lower[f] / At(d, l.own[f]) else 0.0
  }

  /** The pivots of the first `k` cells: each cell's diagonal less what its lower neighbours take off. */
  function Pivots(l: Ldu, k: nat): (d: Vector)
    requires l.Valid() && k <= l.n
    ensures |d| == k
  {
    if k == 0 then []
    else
      var d := Pivots(l, k - 1);
      d + [l.diag[k - 1] - Sum(l.NFaces(), PivotTerm(l, d, k - 1))]
  }

  predicate NonzeroPivots(l: Ldu)
    requires l.Valid()
  {
    NoZeros(Pivots(l, l.n))
  }

  lemma PivotsPrefix(l: Ldu, k: nat, c: nat)
    requires l.UpperTriangular() && c < k <= l.n
    ensures Pivots(l, k)[c] == l.diag[c] - Sum(l.NFaces(), PivotTerm(l, Pivots(l, k), c))
    ensures forall j :: 0 <= j < c ==> Pivots(l, k)[j] == Pivots(l, c)[j]
  {
    if c == k - 1 {
      SumEqual(l.NFaces(), PivotTerm(l, Pivots(l, c), c), PivotTerm(l, Pivots(l, k), c));
    } else {
      PivotsPrefix(l, k - 1, c);
      SumEqual(l.NFaces(), PivotTerm(l, Pivots(l, k - 1), c), PivotTerm(l, Pivots(l, k), c));
    }
  }

  lemma PivotAt(l: Ldu, c: nat)
    requires l.UpperTriangular() && c < l.n
    ensures Pivots(l, l.n)[c] == l.diag[c] - Sum(l.NFaces(), PivotTerm(l, Pivots(l, l.n), c))
  {
    PivotsPrefix(l, l.n, c);
  }

  /** No face from `f` on has cell `own[f]` as its neighbour: faces come in owner order. */
  lemma {:induction false} OwnerDone(l: Ldu, f: nat)
    requires l.UpperTriangular() && f < l.NFaces()
    ensures forall g :: f <= g < l.NFaces() ==> l.nei[g] != l.own[f]
    ensures forall g :: 0 <= g < f ==> l.own[g] != l.nei[f]
    ensures forall g :: f <= g < l.NFaces() ==> l.nei[g] > l.own[f]
  {
    forall g | f <= g < l.NFaces() ensures l.nei[g] > l.own[f] {
      assert g == f || l.own[f] <= l.own[g];
    }
  }

  ghost predicate PivotsDone(l: Ldu, d: Vector, rD: Vector, f: nat)
    requires l.Valid() && |d| == |rD| == l.n && f <= l.NFaces()
  {
    forall c :: 0 <= c < l.n ==> rD[c] == l.diag[c] - Sum(f, PivotTerm(l, d, c))
  }

  lemma {:induction false} PivotReady(l: Ldu, rD: Vector, f: nat)
    requires l.UpperTriangular() && NonzeroPivots(l) && |rD| == l.n && f < l.NFaces()
    requires PivotsDone(l, Pivots(l, l.n), rD, f)
    ensures rD[l.own[f]] == Pivots(l, l.n)[l.own[f]] != 0.0
  {
    var d, own := Pivots(l, l.n), l.own[f];
    OwnerDone(l, f);
    PivotsPrefix(l, l.n, own);
    SumSplit(f, l.NFaces(), PivotTerm(l, d, own));
    SumFromZero(f, l.NFaces(), PivotTerm(l, d, own));
  }

  lemma {:induction false} PivotStep(l: Ldu, d: Vector, rD: Vector, x: real, f: nat)
    requires l.UpperTriangular() && |d| == |rD| == l.n && f < l.NFaces() && d[l.own[f]] != 0.0
    requires PivotsDone(l, d, rD, f)
    requires x == rD[l.nei[f]] - l.upper[f] * l.lower[f] / d[l.own[f]]
    ensures PivotsDone(l, d, rD[l.nei[f] := x], f + 1)
  {
    var rD' := rD[l.nei[f] := x];
    forall c | 0 <= c < l.n ensures rD'[c] == l.diag[c] - Sum(f + 1, PivotTerm(l, d, c)) {
      assert Sum(f + 1, PivotTerm(l, d, c)) == Sum(f, PivotTerm(l, d, c)) + PivotTerm(l, d, c)(f);
    }
  }

  lemma {:induction false} PivotsFinal(l: Ldu, rD: Vector)
    requires l.UpperTriangular() && |rD| == l.n && PivotsDone(l, Pivots(l, l.n), rD, l.NFaces())
    ensures rD == Pivots(l, l.n)
  {
    forall c | 0 <= c < l.n ensures rD[c] == Pivots(l, l.n)[c] {
      PivotsPrefix(l, l.n, c);
    }
  }

  /** `calcReciprocalD`: subtract face by face, then invert. */
  method ReciprocalD(l: Ldu) returns (rD: array<real>)
    requires l.UpperTriangular() && NonzeroPivots(l)
    ensures fresh(rD) && rD.Length == l.n
    ensures Reciprocals(rD[..], Pivots(l, l.n))
  {
    ghost var d := Pivots(l, l.n);
    rD := new real[l.n](i requires 0 <= i < |l.diag| => l.diag[i]);
    for f := 0 to l.NFaces()
      invariant PivotsDone(l, d, rD[..], f)
    {
      PivotReady(l, rD[..], f);
      var x := rD[l.nei[f]] - l.upper[f] * l.lower[f] / rD[l.own[f]];
      PivotStep(l, d, rD[..], x, f);
      rD[l.nei[f]] := x;
    }
    PivotsFinal(l, rD[..]);
    Invert(rD);
  }

  method Invert(a: array<real>)
    requires forall c :: 0 <= c < a.Length ==> a[c] != 0.0
    modifies a
    ensures Reciprocals(a[..], old(a[..]))
  {
    ghost var d := a[..];
    for c := 0 to a.Length
      invariant forall k :: 0 <= k < c ==> a[k] == 1.0 / d[k]
      invariant forall k :: c <= k < a.Length ==> a[k] == d[k]
    {
      a[c] := 1.0 / a[c];
    }
  }

  // ---- the two sweeps -------------------------------------------------------------------------------

  /** `(D* + L) w == r`. */
  predicate SolvesLower(l: Ldu, d: Vector, w: Vector, r: Vector)
    requires l.Valid() && |d| == |w| == |r| == l.n
  {
    Add(Times(d, w), l.LowerSums(w)) == r
  }

  /** `(D* + U) w == D* v`. */
  predicate SolvesUpper(l: Ldu, d: Vector, w: Vector, v: Vector)
    requires l.Valid() && |d| == |w| == |v| == l.n
  {
    Add(Times(d, w), l.UpperSums(w)) == Times(d, v)
  }

  /** Cell `c` has taken in what the faces below `f` put below its diagonal. */
  ghost predicate ForwardAt(l: Ldu, rD: Vector, w: Vector, r: Vector, f: nat, c: nat)
    requires l.Valid() && |rD| == |w| == |r| == l.n && f <= l.NFaces() && c < l.n
  {
    w[c] == rD[c] * (r[c] - Sum(f, l.LowerTerm(w, c)))
  }

  ghost predicate ForwardDone(l: Ldu, rD: Vector, w: Vector, r: Vector, f: nat)
    requires l.Valid() && |rD| == |w| == |r| == l.n && f <= l.NFaces()
  {
    forall c {:trigger ForwardAt(l, rD, w, r, f, c)} :: 0 <= c < l.n ==> ForwardAt(l, rD, w, r, f, c)
  }

  lemma {:induction false} ForwardStep(l: Ldu, rD: Vector, w: Vector, x: real, r: Vector, f: nat)
    requires l.UpperTriangular() && |rD| == |w| == |r| == l.n && f < l.NFaces() && ForwardDone(l, rD, w, r, f)
    requires x == w[l.nei[f]] - rD[l.nei[f]] * l.lower[f] * w[l.own[f]]
    ensures ForwardDone(l, rD, w[l.nei[f] := x], r, f + 1)
  {
    var w', next := w[l.nei[f] := x], f + 1;
    forall c | 0 <= c < l.n ensures ForwardAt(l, rD, w', r, next, c) {
      assert ForwardAt(l, rD, w, r, f, c);
      ForwardCell(l, rD, w, x, r, f, c);
    }
  }

  lemma {:induction false} ForwardCell(l: Ldu, rD: Vector, w: Vector, x: real, r: Vector, f: nat, c: nat)
    requires l.UpperTriangular() && |rD| == |w| == |r| == l.n && f < l.NFaces() && c < l.n
    requires ForwardAt(l, rD, w, r, f, c)
    requires x == w[l.nei[f]] - rD[l.nei[f]] * l.lower[f] * w[l.own[f]]
    ensures ForwardAt(l, rD, w[l.nei[f] := x], r, f + 1, c)
  {
    var w' := w[l.nei[f] := x];
    ForwardSum(l, w, w', f, c);
    var s, own := Sum(f, l.LowerTerm(w, c)), l.own[f];
    if c == l.nei[f] {
      ForwardArith(rD[c], r[c], s, l.lower[f], w[own], w[c], x);
    } else {
      assert Sum(f + 1, l.LowerTerm(w', c)) == s;
    }
  }

  /** Cells that feed the rows seen so far are no longer written. */
  lemma {:induction false} ForwardSum(l: Ldu, w: Vector, w': Vector, f: nat, c: nat)
    requires l.UpperTriangular() && |w| == |w'| == l.n && f < l.NFaces() && c < l.n
    requires forall k :: 0 <= k < l.n && k != l.nei[f] ==> w'[k] == w[k]
    ensures Sum(f + 1, l.LowerTerm(w', c)) ==
            Sum(f, l.LowerTerm(w, c)) + (if l.nei[f] == c then l.lower[f] * w[l.own[f]] else 0.0)
  {
    OwnerDone(l, f);
    SumEqual(f, l.LowerTerm(w, c), l.LowerTerm(w', c));
  }

  lemma {:induction false} ForwardArith(k: real, r: real, s: real, lo: real, x: real, w: real, w': real)
    requires w == k * (r - s) && w' == w - k * lo * x
    ensures w' == k * (r - (s + lo * x))
  {
    var y := lo * x;
    assert k * lo * x == k * y;
    assert k * (r - (s + y)) == k * (r - s) - k * y;
  }

  /** Cell `c` has given off what the faces from `f` on put above its diagonal. */
  ghost predicate BackwardAt(l: Ldu, rD: Vector, w: Vector, v: Vector, f: nat, c: nat)
    requires l.Valid() && |rD| == |w| == |v| == l.n && f <= l.NFaces() && c < l.n
  {
    w[c] == v[c] - rD[c] * SumFrom(f, l.NFaces(), l.UpperTerm(w, c))
  }

  ghost predicate BackwardDone(l: Ldu, rD: Vector, w: Vector, v: Vector, f: nat)
    requires l.Valid() && |rD| == |w| == |v| == l.n && f <= l.NFaces()
  {
    forall c {:trigger BackwardAt(l, rD, w, v, f, c)} :: 0 <= c < l.n ==> BackwardAt(l, rD, w, v, f, c)
  }

  lemma {:induction false} BackwardStep(l: Ldu, rD: Vector, w: Vector, x: real, v: Vector, f: nat)
    requires l.UpperTriangular() && |rD| == |w| == |v| == l.n && f < l.NFaces() && BackwardDone(l, rD, w, v, f + 1)
    requires x == w[l.own[f]] - rD[l.own[f]] * l.upper[f] * w[l.nei[f]]
    ensures BackwardDone(l, rD, w[l.own[f] := x], v, f)
  {
    var w' := w[l.own[f] := x];
    forall c | 0 <= c < l.n ensures BackwardAt(l, rD, w', v, f, c) {
      assert BackwardAt(l, rD, w, v, f + 1, c);
      BackwardCell(l, rD, w, x, v, f, c);
    }
  }

  lemma {:induction false} BackwardCell(l: Ldu, rD: Vector, w: Vector, x: real, v: Vector, f: nat, c: nat)
    requires l.UpperTriangular() && |rD| == |w| == |v| == l.n && f < l.NFaces() && c < l.n
    requires BackwardAt(l, rD, w, v, f + 1, c)
    requires x == w[l.own[f]] - rD[l.own[f]] * l.upper[f] * w[l.nei[f]]
    ensures BackwardAt(l, rD, w[l.own[f] := x], v, f, c)
  {
    var w' := w[l.own[f] := x];
    BackwardSum(l, w, w', f, c);
    var s, s' := SumFrom(f + 1, l.NFaces(), l.UpperTerm(w, c)), SumFrom(f, l.NFaces(), l.UpperTerm(w', c));
    if c == l.own[f] {
      BackwardArith(rD[c], v[c], s, l.upper[f], w[l.nei[f]], w[c], x, s');
    } else {
      SameProduct(rD[c], s, rD[c], s');
    }
  }

  lemma {:induction false} BackwardSum(l: Ldu, w: Vector, w': Vector, f: nat, c: nat)
    requires l.UpperTriangular() && |w| == |w'| == l.n && f < l.NFaces() && c < l.n
    requires forall k :: 0 <= k < l.n && k != l.own[f] ==> w'[k] == w[k]
    ensures SumFrom(f, l.NFaces(), l.UpperTerm(w', c)) ==
            (if l.own[f] == c then l.upper[f] * w[l.nei[f]] else 0.0) + SumFrom(f + 1, l.NFaces(), l.UpperTerm(w, c))
  {
    OwnerDone(l, f);
    SumFromEqual(f + 1, l.NFaces(), l.UpperTerm(w, c), l.UpperTerm(w', c));
  }

  lemma {:induction false} BackwardArith(k: real, v: real, s: real, up: real, x: real, w: real, w': real, s': real)
    requires w == v - k * s && w' == w - k * up * x && s' == up * x + s
    ensures w' == v - k * s'
  {
    var y := up * x;
    assert k * up * x == k * y;
    assert k * (y + s) == k * y + k * s;
  }

  method ForwardSweep(l: Ldu, rD: Vector, w: array<real>, ghost r: Vector)
    requires l.UpperTriangular() && |rD| == w.Length == |r| == l.n && ForwardDone(l, rD, w[..], r, 0)
    modifies w
    ensures ForwardDone(l, rD, w[..], r, l.NFaces())
  {
    for f := 0 to l.NFaces()
      invariant ForwardDone(l, rD, w[..], r, f)
    {
      var x := w[l.nei[f]] - rD[l.nei[f]] * l.lower[f] * w[l.own[f]];
      ForwardStep(l, rD, w[..], x, r, f);
      w[l.nei[f]] := x;
    }
  }

  method BackwardSweep(l: Ldu, rD: Vector, w: array<real>)
    requires l.UpperTriangular() && |rD| == w.Length == l.n
    modifies w
    ensures BackwardDone(l, rD, w[..], old(w[..]), 0)
  {
    ghost var v := w[..];
    for f := l.NFaces() downto 0
      invariant BackwardDone(l, rD, w[..], v, f)
    {
      var x := w[l.own[f]] - rD[l.own[f]] * l.upper[f] * w[l.nei[f]];
      BackwardStep(l, rD, w[..], x, v, f);
      w[l.own[f]] := x;
    }
  }

  /** One application of the preconditioner: the product of `M` with what it returns is the input. */
  method Apply(l: Ldu, rD: Vector, r: Vector) returns (w: array<real>)
    requires l.UpperTriangular() && NonzeroPivots(l) && |r| == l.n && Reciprocals(rD, Pivots(l, l.n))
    ensures fresh(w) && w.Length == l.n
    ensures Product(l, Pivots(l, l.n), w[..]) == r
  {
    w := new real[l.n](i requires 0 <= i < |rD| == |r| => rD[i] * r[i]);
    ForwardSweep(l, rD, w, r);
    ghost var v := w[..];
    ForwardSolves(l, Pivots(l, l.n), rD, v, r);
    BackwardSweep(l, rD, w);
    BackwardSolves(l, Pivots(l, l.n), rD, w[..], v);
    ExactInverse(l, Pivots(l, l.n), w[..], v, r);
  }

  lemma {:induction false} ForwardSolves(l: Ldu, d: Vector, rD: Vector, w: Vector, r: Vector)
    requires l.Valid() && |d| == |rD| == |w| == |r| == l.n
    requires Reciprocals(rD, d)
    requires ForwardDone(l, rD, w, r, l.NFaces())
    ensures SolvesLower(l, d, w, r)
  {
    forall c | 0 <= c < l.n ensures Times(d, w)[c] + l.LowerSums(w)[c] == r[c] {
      assert ForwardAt(l, rD, w, r, l.NFaces(), c);
      SolveArith(d[c], rD[c], w[c], 0.0, Sum(l.NFaces(), l.LowerTerm(w, c)) - r[c]);
    }
  }

  lemma {:induction false} BackwardSolves(l: Ldu, d: Vector, rD: Vector, w: Vector, v: Vector)
    requires l.Valid() && |d| == |rD| == |w| == |v| == l.n
    requires Reciprocals(rD, d)
    requires BackwardDone(l, rD, w, v, 0)
    ensures SolvesUpper(l, d, w, v)
  {
    forall c | 0 <= c < l.n ensures Times(d, w)[c] + l.UpperSums(w)[c] == Times(d, v)[c] {
      assert BackwardAt(l, rD, w, v, 0, c);
      SumSplit(0, l.NFaces(), l.UpperTerm(w, c));
      SameProduct(rD[c], SumFrom(0, l.NFaces(), l.UpperTerm(w, c)), rD[c], l.UpperSums(w)[c]);
      CellSolved(d, rD, w, v, l.UpperSums(w), c);
    }
  }

  lemma CellSolved(d: Vector, rD: Vector, w: Vector, v: Vector, s: Vector, c: nat)
    requires Reciprocals(rD, d) && |w| == |v| == |s| == |d| && c < |d| && w[c] == v[c] - rD[c] * s[c]
    ensures Times(d, w)[c] + s[c] == Times(d, v)[c]
  {
    SolveArith(d[c], rD[c], w[c], v[c], s[c]);
  }

  lemma {:induction false} SolveArith(d: real, rD: real, w: real, v: real, s: real)
    requires d != 0.0 && rD == 1.0 / d && w == v - rD * s
    ensures d * w + s == d * v
  {
    Cancel(d, rD, s);
    assert d * (v - rD * s) == d * v - d * (rD * s);
  }

  // ---- what is inverted -----------------------------------------------------------------------------

  /** `D*^-1 (D* + U) x`. */
  function UpperPart(l: Ldu, d: Vector, x: Vector): (v: Vector)
    requires l.Valid() && |d| == |x| == l.n && NoZeros(d)
    ensures |v| == l.n
  {
    Add(x, Over(l.UpperSums(x), d))
  }

  /** The product with `M = (D* + L) D*^-1 (D* + U)`. */
  function Product(l: Ldu, d: Vector, x: Vector): (r: Vector)
    requires l.Valid() && |d| == |x| == l.n && NoZeros(d)
    ensures |r| == l.n
  {
    var v := UpperPart(l, d, x);
    Add(Times(d, v), l.LowerSums(v))
  }

  lemma {:induction false} UpperPartSolves(l: Ldu, d: Vector, x: Vector)
    requires l.Valid() && |d| == |x| == l.n && NoZeros(d)
    ensures SolvesUpper(l, d, x, UpperPart(l, d, x))
  {
    TimesAdd(d, x, Over(l.UpperSums(x), d));
    TimesOver(d, l.UpperSums(x));
  }

  lemma {:induction false} ExactInverse(l: Ldu, d: Vector, w: Vector, v: Vector, r: Vector)
    requires l.Valid() && |d| == |w| == |v| == |r| == l.n && NoZeros(d)
    requires SolvesLower(l, d, v, r) && SolvesUpper(l, d, w, v)
    ensures Product(l, d, w) == r
  {
    UpperPartSolves(l, d, w);
    TimesInjective(d, UpperPart(l, d, w), v);
  }

  // ---- the solution is unique -------------------------------------------------------------------------

  lemma CellUnique(d: Vector, v: Vector, s: Vector, w: Vector, t: Vector, k: nat)
    requires |d| == |v| == |s| == |w| == |t| && k < |d| && NoZeros(d)
    requires Add(Times(d, v), s) == Add(Times(d, w), t) && s[k] == t[k]
    ensures v[k] == w[k]
  {
    assert Add(Times(d, v), s)[k] == Times(d, v)[k] + s[k];
    assert Add(Times(d, w), t)[k] == Times(d, w)[k] + t[k];
    FactorEqual(d[k], v[k], w[k]);
  }

  lemma {:induction false} LowerUnique(l: Ldu, d: Vector, v: Vector, w: Vector, c: nat)
    requires l.UpperTriangular() && |d| == |v| == |w| == l.n && c <= l.n && NoZeros(d)
    requires Add(Times(d, v), l.LowerSums(v)) == Add(Times(d, w), l.LowerSums(w))
    ensures forall k :: 0 <= k < c ==> v[k] == w[k]
  {
    if c > 0 {
      var k := c - 1;
      LowerUnique(l, d, v, w, k);
      SumEqual(l.NFaces(), l.LowerTerm(v, k), l.LowerTerm(w, k));
      CellUnique(d, v, l.LowerSums(v), w, l.LowerSums(w), k);
    }
  }

  lemma {:induction false} UpperUnique(l: Ldu, d: Vector, v: Vector, w: Vector, c: nat)
    requires l.UpperTriangular() && |d| == |v| == |w| == l.n && c <= l.n && NoZeros(d)
    requires Add(Times(d, v), l.UpperSums(v)) == Add(Times(d, w), l.UpperSums(w))
    ensures forall k :: c <= k < l.n ==> v[k] == w[k]
    decreases l.n - c
  {
    if c < l.n {
      UpperUnique(l, d, v, w, c + 1);
      SumEqual(l.NFaces(), l.UpperTerm(v, c), l.UpperTerm(w, c));
      CellUnique(d, v, l.UpperSums(v), w, l.UpperSums(w), c);
    }
  }

  /** `M` is injective, so what `Apply` returns is the only solution of `M w == r`. */
  lemma {:induction false} ProductInjective(l: Ldu, d: Vector, x: Vector, y: Vector)
    requires l.UpperTriangular() && |d| == |x| == |y| == l.n && NoZeros(d)
    requires Product(l, d, x) == Product(l, d, y)
    ensures x == y
  {
    var u, v := UpperPart(l, d, x), UpperPart(l, d, y);
    LowerUnique(l, d, u, v, l.n);
    assert u == v;
    UpperPartSolves(l, d, x);
    UpperPartSolves(l, d, y);
    UpperUnique(l, d, x, y, 0);
  }

  // ---- the diagonal of the product ------------------------------------------------------------------

  /** The coefficients that the faces other than `f` put on the same cell pair, same way round. */
  function TwinTerm(l: Ldu, f: int): int -> real
    requires l.Valid()
  {
    g => if 0 <= f < |l.own| && 0 <= g < |l.own| && g != f && l.own[g] == l.own[f] && l.nei[g] == l.nei[f]
         then l.upper[g] else 0.0
  }

  /** What twin faces add to the diagonal of cell `c`. */
  function CrossTerm(l: Ldu, d: Vector, c: int): int -> real
    requires l.Valid()
  {
    f => if 0 <= f < |l.own| && l.nei[f] == c && At(d, l.own[f]) != 0.0
         then l.lower[f] * Sum(|l.own|, TwinTerm(l, f)) / At(d, l.own[f]) else 0.0
  }

  /** The diagonal of `M` is that of the matrix plus what twin faces add, for every cell. */
  lemma {:induction false} ProductDiagonal(l: Ldu, c: nat)
    requires l.UpperTriangular() && NonzeroPivots(l) && c < l.n
    ensures var d := Pivots(l, l.n);
            Product(l, d, Unit(l.n, c))[c] == l.diag[c] + Sum(l.NFaces(), CrossTerm(l, d, c))
  {
    var d, nF := Pivots(l, l.n), l.NFaces();
    var v := UpperPart(l, d, Unit(l.n, c));
    OnPivot(l, d, c);
    forall f | 0 <= f < nF ensures l.LowerTerm(v, c)(f) == PivotTerm(l, d, c)(f) + CrossTerm(l, d, c)(f) {
      FaceOnDiagonal(l, d, c, f);
    }
    SumAdd(nF, PivotTerm(l, d, c), CrossTerm(l, d, c), l.LowerTerm(v, c));
    PivotsPrefix(l, l.n, c);
    SameProduct(d[c], v[c], d[c], 1.0);
  }

  lemma {:induction false} FaceOnDiagonal(l: Ldu, d: Vector, c: nat, f: nat)
    requires l.UpperTriangular() && |d| == l.n && c < l.n && f < l.NFaces() && NoZeros(d)
    ensures l.LowerTerm(UpperPart(l, d, Unit(l.n, c)), c)(f) == PivotTerm(l, d, c)(f) + CrossTerm(l, d, c)(f)
  {
    if l.nei[f] == c {
      UnitRowSum(l, f);
      UnitRowEntry(l, d, c, l.own[f]);
    }
    FaceTerms(l, d, UpperPart(l, d, Unit(l.n, c)), c, f);
  }

  lemma {:induction false} FaceTerms(l: Ldu, d: Vector, v: Vector, c: nat, f: nat)
    requires l.Valid() && |d| == l.n && f < l.NFaces() && NoZeros(d)
    requires l.nei[f] == c ==> At(v, l.own[f]) == (l.upper[f] + Sum(l.NFaces(), TwinTerm(l, f))) / d[l.own[f]]
    ensures l.LowerTerm(v, c)(f) == PivotTerm(l, d, c)(f) + CrossTerm(l, d, c)(f)
  {
    if l.nei[f] == c {
      SplitQuotient(l.lower[f], l.upper[f], Sum(l.NFaces(), TwinTerm(l, f)), d[l.own[f]], At(v, l.own[f]));
    }
  }

  lemma {:induction false} OnPivot(l: Ldu, d: Vector, c: nat)
    requires l.UpperTriangular() && |d| == l.n && c < l.n && NoZeros(d)
    ensures UpperPart(l, d, Unit(l.n, c))[c] == 1.0
  {
    SumZero(l.NFaces(), l.UpperTerm(Unit(l.n, c), c));
  }

  lemma {:induction false} UnitRowEntry(l: Ldu, d: Vector, c: nat, row: nat)
    requires l.Valid() && |d| == l.n && NoZeros(d) && c < l.n && row < l.n && row != c
    ensures UpperPart(l, d, Unit(l.n, c))[row] == Sum(l.NFaces(), l.UpperTerm(Unit(l.n, c), row)) / d[row]
  {
  }

  lemma {:induction false} UnitRowSum(l: Ldu, f: nat)
    requires l.UpperTriangular() && f < l.NFaces()
    ensures Sum(l.NFaces(), l.UpperTerm(Unit(l.n, l.nei[f]), l.own[f])) == l.upper[f] + Sum(l.NFaces(), TwinTerm(l, f))
  {
    var only := (g: int) => if g == f then l.upper[f] else 0.0;
    SumOnly(l.NFaces(), only, f);
    SumAdd(l.NFaces(), only, TwinTerm(l, f), l.UpperTerm(Unit(l.n, l.nei[f]), l.own[f]));
  }

  lemma SplitQuotient(lo: real, up: real, t: real, d: real, x: real)
    requires d != 0.0 && x == (up + t) / d
    ensures lo * x == up * lo / d + lo * t / d
  {
    var q := 1.0 / d;
    assert x == (up + t) * q && up * lo / d == up * lo * q && lo * t / d == lo * t * q;
    assert lo * ((up + t) * q) == up * lo * q + lo * t * q;
  }

  predicate NoTwinFaces(l: Ldu)
    requires l.Valid()
  {
    forall f, g :: 0 <= f < g < |l.own| ==> l.own[f] != l.own[g] || l.nei[f] != l.nei[g]
  }

  lemma {:induction false} NoCross(l: Ldu, d: Vector, c: nat, f: nat)
    requires l.Valid() && |d| == l.n && f < l.NFaces() && NoTwinFaces(l)
    ensures CrossTerm(l, d, c)(f) == 0.0
  {
    SumZero(l.NFaces(), TwinTerm(l, f));
    SameProduct(l.lower[f], Sum(l.NFaces(), TwinTerm(l, f)), l.lower[f], 0.0);
  }

  /** With one face per cell pair, `M` has exactly the diagonal of the matrix. */
  lemma {:induction false} DiagonalKept(l: Ldu, c: nat)
    requires l.UpperTriangular() && NonzeroPivots(l) && c < l.n && NoTwinFaces(l)
    ensures Product(l, Pivots(l, l.n), Unit(l.n, c))[c] == l.diag[c]
  {
    var d, nF := Pivots(l, l.n), l.NFaces();
    ProductDiagonal(l, c);
    forall f | 0 <= f < nF ensures CrossTerm(l, d, c)(f) == 0.0 {
      NoCross(l, d, c, f);
    }
    SumZero(nF, CrossTerm(l, d, c));
  }

  // ---- exactly when the diagonal is kept ------------------------------------------------------------

  predicate SameAddressing(l: Ldu, l': Ldu) {
    l'.n == l.n && l'.own == l.own && l'.nei == l.nei
  }

  ghost predicate KeepsDiagonal(l: Ldu)
    requires l.Valid() && NonzeroPivots(l)
  {
    forall c :: 0 <= c < l.n ==> Product(l, Pivots(l, l.n), Unit(l.n, c))[c] == l.diag[c]
  }

  /** Whatever the coefficients on this addressing, `M` has the diagonal of the matrix. */
  ghost predicate AlwaysKeepsDiagonal(l: Ldu)
    requires l.Valid()
  {
    forall l': Ldu :: SameAddressing(l, l') && l'.Valid() && NonzeroPivots(l') ==> KeepsDiagonal(l')
  }

  /** A one at position `k`, else zeros. */
  function OneAt(n: nat, k: nat): (v: Vector)
    ensures |v| == n && forall i :: 0 <= i < n ==> v[i] == if i == k then 1.0 else 0.0
  {
    seq(n, i => if i == k then 1.0 else 0.0)
  }

  /** Coefficients for two faces `f` and `g`: ones on the diagonal, below it for `f`, and above it for `g`. */
  function Skewed(l: Ldu, f: nat, g: nat): (l': Ldu)
    requires l.Valid()
    ensures SameAddressing(l, l') && l'.Valid()
  {
    l.(diag := seq(l.n, _ => 1.0), upper := OneAt(l.NFaces(), g), lower := OneAt(l.NFaces(), f))
  }

  lemma {:induction false} SkewedPivots(l: Ldu, f: nat, g: nat, k: nat)
    requires l.Valid() && f != g && k <= l.n
    ensures Pivots(Skewed(l, f, g), k) == seq(k, _ => 1.0)
  {
    if k > 0 {
      SkewedPivots(l, f, g, k - 1);
      NothingOff(l, f, g, Pivots(Skewed(l, f, g), k - 1), k - 1);
    }
  }

  /** No face has a coefficient on both sides, so nothing comes off a pivot. */
  lemma {:induction false} NothingOff(l: Ldu, f: nat, g: nat, d: Vector, c: nat)
    requires l.Valid() && f != g
    ensures Sum(l.NFaces(), PivotTerm(Skewed(l, f, g), d, c)) == 0.0
  {
    var l' := Skewed(l, f, g);
    var t := PivotTerm(l', d, c);
    forall i | 0 <= i < l.NFaces() ensures t(i) == 0.0 {
      assert l'.upper[i] * l'.lower[i] == 0.0;
    }
    SumZero(l.NFaces(), t);
  }

  predicate Twins(l: Ldu, f: nat, g: nat)
    requires l.Valid()
  {
    f < |l.own| && g < |l.own| && f != g && l.own[f] == l.own[g] && l.nei[f] == l.nei[g]
  }

  lemma {:induction false} SkewedCross(l: Ldu, f: nat, g: nat, d: Vector)
    requires l.UpperTriangular() && Twins(l, f, g) && d == seq(l.n, _ => 1.0)
    ensures Sum(l.NFaces(), CrossTerm(Skewed(l, f, g), d, l.nei[f])) == 1.0
  {
    var l', nF := Skewed(l, f, g), l.NFaces();
    var t := CrossTerm(l', d, l.nei[f]);
    SumOnly(nF, TwinTerm(l', f), g);
    assert t(f) == 1.0;
    forall i | 0 <= i < nF && i != f ensures t(i) == 0.0 {
      assert l'.lower[i] * Sum(nF, TwinTerm(l', i)) == 0.0;
    }
    SumOnly(nF, t, f);
  }

  lemma {:induction false} TwinsBreak(l: Ldu, f: nat, g: nat)
    requires l.UpperTriangular() && Twins(l, f, g)
    ensures var l' := Skewed(l, f, g); NonzeroPivots(l') && !KeepsDiagonal(l')
  {
    var l' := Skewed(l, f, g);
    SkewedPivots(l, f, g, l.n);
    SkewedCross(l, f, g, Pivots(l', l.n));
    ProductDiagonal(l', l.nei[f]);
  }

  /** The diagonal is kept for all coefficients exactly when no two faces join the same two cells. */
  lemma {:induction false} DiagonalKeptExactly(l: Ldu)
    requires l.UpperTriangular()
    ensures AlwaysKeepsDiagonal(l) <==> NoTwinFaces(l)
  {
    if NoTwinFaces(l) {
      forall l': Ldu | SameAddressing(l, l') && l'.Valid() && NonzeroPivots(l') ensures KeepsDiagonal(l') {
        forall c | 0 <= c < l'.n ensures Product(l', Pivots(l', l'.n), Unit(l'.n, c))[c] == l'.diag[c] {
          DiagonalKept(l', c);
        }
      }
    } else {
      var f, g :| 0 <= f < g < |l.own| && l.own[f] == l.own[g] && l.nei[f] == l.nei[g];
      TwinsBreak(l, f, g);
    }
  }

  /** Two cells joined by two faces. */
  const TWINS := Ldu(2, [0, 0], [1, 1], [1.0, 3.0], [1.0, 1.0], [1.0, 1.0])

  lemma {:induction false} TwinPivots()
    ensures TWINS.UpperTriangular() && Pivots(TWINS, 2) == [1.0, 1.0]
  {
    assert Pivots(TWINS, 0) == [];
    SumZero(2, PivotTerm(TWINS, [], 0));
    assert Pivots(TWINS, 1) == [1.0];
    var t := PivotTerm(TWINS, [1.0], 1);
    assert t(0) == 1.0 && t(1) == 1.0;
    assert Sum(0, t) == 0.0 && Sum(1, t) == 1.0 && Sum(2, t) == 2.0;
  }

  lemma {:induction false} TwinCross()
    ensures TWINS.Valid() && Sum(2, CrossTerm(TWINS, [1.0, 1.0], 1)) == 2.0
  {
    SumOnly(2, TwinTerm(TWINS, 0), 1);
    SumOnly(2, TwinTerm(TWINS, 1), 0);
    var t := CrossTerm(TWINS, [1.0, 1.0], 1);
    assert t(0) == 1.0 && t(1) == 1.0;
    assert Sum(0, t) == 0.0 && Sum(1, t) == 1.0;
  }

  /** With two faces between the same two cells it can fail: this diagonal entry of `M` comes out as 5, not 3. */
  lemma {:induction false} TwinFacesBreakDiagonal()
    ensures TWINS.UpperTriangular() && NonzeroPivots(TWINS)
    ensures Product(TWINS, Pivots(TWINS, 2), Unit(2, 1))[1] == 5.0 && TWINS.diag[1] == 3.0
  {
    TwinPivots();
    TwinCross();
    assert NonzeroPivots(TWINS);
    ProductDiagonal(TWINS, 1);
  }
}
