/** Red-black DILU: two scatter steps forward and two back on a two-coloured mesh. */
module RedBlackDilu {
  import opened Sums
  import opened Vectors
  import opened Ldu
  import opened Dilu

  /** A matrix whose cells are coloured 0 (red) and 1 (black), no face joining two of one colour. */
  datatype Coloured = Coloured(l: Ldu, colour: seq<int>)
  {
    predicate Valid() {
      && l.Valid() && |colour| == l.n
      && (forall c :: 0 <= c < l.n ==> colour[c] == 0 || colour[c] == 1)
      && (forall f :: 0 <= f < l.NFaces() ==> colour[l.own[f]] != colour[l.nei[f]])
    }

    predicate IsRedOwn(f: nat)
      requires Valid() && f < l.NFaces()
    {
      colour[l.own[f]] == 0
    }

    function Red(f: nat): nat
      requires Valid() && f < l.NFaces()
      ensures Red(f) < l.n && colour[Red(f)] == 0
    {
      if IsRedOwn(f) then l.own[f] else l.nei[f]
    }

    function Black(f: nat): nat
      requires Valid() && f < l.NFaces()
      ensures Black(f) < l.n && colour[Black(f)] == 1
    {
      if IsRedOwn(f) then l.nei[f] else l.own[f]
    }

    /** The coefficient of face `f` in its black row, and in its red row. */
    function InBlackRow(f: nat): real
      requires Valid() && f < l.NFaces()
    {
      if IsRedOwn(f) then l.lower[f] else l.upper[f]
    }

    function InRedRow(f: nat): real
      requires Valid() && f < l.NFaces()
    {
      if IsRedOwn(f) then l.upper[f] else l.lower[f]
    }

    function PivotTerm(c: int): int -> real
      requires Valid()
    {
      f => if 0 <= f < l.NFaces() && Black(f) == c && l.diag[Red(f)] != 0.0
           then l.upper[f] * l.lower[f] / l.diag[Red(f)] else 0.0
    }

    /** Red pivots are the diagonal; a black one loses one product per face. */
    function Pivots(): Vector
      requires Valid()
    {
      seq(l.n, c requires 0 <= c < l.n => l.diag[c] - Sum(l.NFaces(), PivotTerm(c)))
    }

    predicate NonzeroPivots()
      requires Valid()
    {
      NoZeros(Pivots())
    }

    function BlackTerm(x: Vector, c: int): int -> real
      requires Valid()
    {
      f => if 0 <= f < l.NFaces() && Black(f) == c then InBlackRow(f) * At(x, Red(f)) else 0.0
    }

    function BlackSums(x: Vector): (s: Vector)
      requires Valid()
      ensures |s| == l.n
    {
      seq(l.n, c => Sum(l.NFaces(), BlackTerm(x, c)))
    }

    function RedSums(x: Vector): (s: Vector)
      requires Valid()
      ensures |s| == l.n
    {
      seq(l.n, c => Sum(l.NFaces(), RedTerm(x, c)))
    }

    function RedTerm(x: Vector, c: int): int -> real
      requires Valid()
    {
      f => if 0 <= f < l.NFaces() && Red(f) == c then InRedRow(f) * At(x, Black(f)) else 0.0
    }
  }

  lemma {:induction false} RedPivot(m: Coloured, c: nat)
    requires m.Valid() && c < m.l.n && m.colour[c] == 0
    ensures m.Pivots()[c] == m.l.diag[c]
  {
    SumZero(m.l.NFaces(), m.PivotTerm(c));
  }

  // ---- the code -----------------------------------------------------------------------------------

  function ScatterTerm(target: seq<nat>, value: Vector, c: int): int -> real {
    k => if 0 <= k < |target| && target[k] == c then At(value, k) else 0.0
  }

  /** `np.add.at`: unbuffered, so a cell listed several times receives every one of its values. */
  method AddAt(a: array<real>, target: seq<nat>, value: Vector)
    requires |target| == |value| && forall k :: 0 <= k < |target| ==> target[k] < a.Length
    modifies a
    ensures forall c :: 0 <= c < a.Length ==> a[c] == old(a[c]) + Sum(|target|, ScatterTerm(target, value, c))
  {
    for k := 0 to |target|
      invariant forall c :: 0 <= c < a.Length ==> a[c] == old(a[c]) + Sum(k, ScatterTerm(target, value, c))
    {
      var x := a[target[k]] + value[k];
      a[target[k]] := x;
    }
  }

  /** Pivots by one scatter over all faces, then inverted. */
  method ReciprocalD(m: Coloured) returns (rD: array<real>)
    requires m.Valid() && m.NonzeroPivots()
    ensures fresh(rD) && Reciprocals(rD[..], m.Pivots())
  {
    rD := new real[m.l.n](i requires 0 <= i < |m.l.diag| => m.l.diag[i]);
    RedDiagonal(m);
    var target, value := PivotScatterLists(m);
    AddAt(rD, target, value);
    forall c | 0 <= c < m.l.n ensures rD[c] == m.Pivots()[c] {
      PivotScatter(m, target, value, c);
    }
    assert rD[..] == m.Pivots();
    Invert(rD);
  }

  /** Where each face's correction goes, and its value `-upper * lower / diag[red]`. */
  method PivotScatterLists(m: Coloured) returns (target: seq<nat>, value: Vector)
    requires m.Valid() && forall f :: 0 <= f < m.l.NFaces() ==> m.l.diag[m.Red(f)] != 0.0
    ensures |target| == |value| == m.l.NFaces()
    ensures forall f :: 0 <= f < m.l.NFaces() ==> target[f] == m.Black(f)
    ensures forall f :: 0 <= f < m.l.NFaces() ==> value[f] == -(m.l.upper[f] * m.l.lower[f]) / m.l.diag[m.Red(f)]
  {
    var nF := m.l.NFaces();
    target := seq(nF, f requires 0 <= f < nF => m.Black(f));
    value := seq(nF, f requires 0 <= f < nF => -(m.l.upper[f] * m.l.lower[f]) / m.l.diag[m.Red(f)]);
  }

  lemma {:induction false} RedDiagonal(m: Coloured)
    requires m.Valid() && m.NonzeroPivots()
    ensures forall f :: 0 <= f < m.l.NFaces() ==> m.l.diag[m.Red(f)] != 0.0
  {
    forall f | 0 <= f < m.l.NFaces() ensures m.l.diag[m.Red(f)] != 0.0 {
      RedPivot(m, m.Red(f));
      assert m.Pivots()[m.Red(f)] != 0.0;
    }
  }

  lemma {:induction false} PivotScatter(m: Coloured, target: seq<nat>, value: Vector, c: nat)
    requires m.Valid() && c < m.l.n && |target| == |value| == m.l.NFaces()
    requires forall f :: 0 <= f < m.l.NFaces() ==> m.l.diag[m.Red(f)] != 0.0
    requires forall f :: 0 <= f < m.l.NFaces() ==> target[f] == m.Black(f)
    requires forall f :: 0 <= f < m.l.NFaces() ==> value[f] == -(m.l.upper[f] * m.l.lower[f]) / m.l.diag[m.Red(f)]
    ensures m.l.diag[c] + Sum(m.l.NFaces(), ScatterTerm(target, value, c)) == m.Pivots()[c]
  {
    forall f | 0 <= f < m.l.NFaces() ensures ScatterTerm(target, value, c)(f) == -1.0 * m.PivotTerm(c)(f) {
      Negated(m.l.upper[f] * m.l.lower[f], m.l.diag[m.Red(f)]);
    }
    SumScale(m.l.NFaces(), -1.0, m.PivotTerm(c), ScatterTerm(target, value, c));
  }

  lemma Negated(x: real, d: real)
    requires d != 0.0
    ensures -x / d == -1.0 * (x / d)
  {
  }

  /** `np.where`: the positions where a mask is `want`, in order. */
  function Where(mask: seq<bool>, want: bool, upTo: nat): (fs: seq<nat>)
    requires upTo <= |mask|
    ensures forall k :: 0 <= k < |fs| ==> fs[k] < upTo && mask[fs[k]] == want
  {
    if upTo == 0 then []
    else Where(mask, want, upTo - 1) + (if mask[upTo - 1] == want then [upTo - 1] else [])
  }

  /** The terms at the positions where the mask is `want`. */
  function Only(mask: seq<bool>, want: bool, t: int -> real): int -> real {
    f => if 0 <= f < |mask| && mask[f] == want then t(f) else 0.0
  }

  lemma {:induction false} FilteredSum(mask: seq<bool>, want: bool, upTo: nat, fs: seq<nat>, t: int -> real,
                                       s: int -> real)
    requires upTo <= |mask| && fs == Where(mask, want, upTo)
    requires forall k :: 0 <= k < |fs| ==> s(k) == t(fs[k])
    ensures Sum(|fs|, s) == Sum(upTo, Only(mask, want, t))
  {
    if upTo > 0 {
      FilteredSum(mask, want, upTo - 1, Where(mask, want, upTo - 1), t, s);
    }
  }

  lemma {:induction false} BothKinds(mask: seq<bool>, t: int -> real)
    ensures Sum(|mask|, Only(mask, true, t)) + Sum(|mask|, Only(mask, false, t)) == Sum(|mask|, t)
  {
    SumAdd(|mask|, Only(mask, true, t), Only(mask, false, t), t);
  }

  function Mask(m: Coloured): seq<bool>
    requires m.Valid()
  {
    seq(m.l.NFaces(), f requires 0 <= f < m.l.NFaces() => m.IsRedOwn(f))
  }

  /** One scatter of a list of faces: `upd[to[f]] += coef[f] * w[from[f]]`. */
  method ScatterFaces(upd: array<real>, faces: seq<nat>, to: seq<nat>, from: seq<nat>, coef: Vector, w: Vector)
    requires |to| == |from| == |coef| && forall k :: 0 <= k < |faces| ==> faces[k] < |to|
    requires forall f :: 0 <= f < |to| ==> to[f] < upd.Length && from[f] < |w|
    modifies upd
    ensures forall c :: 0 <= c < upd.Length ==>
              upd[c] == old(upd[c]) + Sum(|faces|, FaceTerm(faces, to, from, coef, w, c))
  {
    var target := seq(|faces|, k requires 0 <= k < |faces| => to[faces[k]]);
    var value := seq(|faces|, k requires 0 <= k < |faces| => coef[faces[k]] * w[from[faces[k]]]);
    AddAt(upd, target, value);
    forall c | 0 <= c < upd.Length
      ensures upd[c] == old(upd[c]) + Sum(|faces|, FaceTerm(faces, to, from, coef, w, c))
    {
      SumEqual(|faces|, ScatterTerm(target, value, c), FaceTerm(faces, to, from, coef, w, c));
    }
  }

  function FaceTerm(faces: seq<nat>, to: seq<nat>, from: seq<nat>, coef: Vector, w: Vector, c: int): int -> real
    requires |to| == |from| == |coef|
  {
    k => if 0 <= k < |faces| && faces[k] < |to| && to[faces[k]] == c
         then coef[faces[k]] * At(w, from[faces[k]]) else 0.0
  }

  /** The values of red cells, gathered in the black rows: red-owned faces first, then the others. */
  method GatherBlack(m: Coloured, w: Vector) returns (upd: array<real>)
    requires m.Valid() && |w| == m.l.n
    ensures fresh(upd) && upd[..] == m.BlackSums(w)
  {
    var l, mask := m.l, Mask(m);
    upd := new real[l.n](_ => 0.0);
    ScatterFaces(upd, Where(mask, true, |mask|), l.nei, l.own, l.lower, w);
    ScatterFaces(upd, Where(mask, false, |mask|), l.own, l.nei, l.upper, w);
    forall c | 0 <= c < l.n ensures upd[c] == Sum(l.NFaces(), m.BlackTerm(w, c)) {
      BlackGathered(m, w, c);
    }
  }

  lemma {:induction false} BlackGathered(m: Coloured, w: Vector, c: nat)
    requires m.Valid() && |w| == m.l.n && c < m.l.n
    ensures var l, mask := m.l, Mask(m); var rb, br := Where(mask, true, |mask|), Where(mask, false, |mask|);
            Sum(|rb|, FaceTerm(rb, l.nei, l.own, l.lower, w, c)) + Sum(|br|, FaceTerm(br, l.own, l.nei, l.upper, w, c))
            == Sum(l.NFaces(), m.BlackTerm(w, c))
  {
    var l, mask := m.l, Mask(m);
    var rb, br := Where(mask, true, |mask|), Where(mask, false, |mask|);
    FilteredSum(mask, true, |mask|, rb, m.BlackTerm(w, c), FaceTerm(rb, l.nei, l.own, l.lower, w, c));
    FilteredSum(mask, false, |mask|, br, m.BlackTerm(w, c), FaceTerm(br, l.own, l.nei, l.upper, w, c));
    BothKinds(mask, m.BlackTerm(w, c));
  }

  /** The values of black cells, gathered in the red rows. */
  method GatherRed(m: Coloured, w: Vector) returns (upd: array<real>)
    requires m.Valid() && |w| == m.l.n
    ensures fresh(upd) && upd[..] == m.RedSums(w)
  {
    var l, mask := m.l, Mask(m);
    upd := new real[l.n](_ => 0.0);
    ScatterFaces(upd, Where(mask, true, |mask|), l.own, l.nei, l.upper, w);
    ScatterFaces(upd, Where(mask, false, |mask|), l.nei, l.own, l.lower, w);
    forall c | 0 <= c < l.n ensures upd[c] == Sum(l.NFaces(), m.RedTerm(w, c)) {
      RedGathered(m, w, c);
    }
  }

  lemma {:induction false} RedGathered(m: Coloured, w: Vector, c: nat)
    requires m.Valid() && |w| == m.l.n && c < m.l.n
    ensures var l, mask := m.l, Mask(m); var rb, br := Where(mask, true, |mask|), Where(mask, false, |mask|);
            Sum(|rb|, FaceTerm(rb, l.own, l.nei, l.upper, w, c)) + Sum(|br|, FaceTerm(br, l.nei, l.own, l.lower, w, c))
            == Sum(l.NFaces(), m.RedTerm(w, c))
  {
    var l, mask := m.l, Mask(m);
    var rb, br := Where(mask, true, |mask|), Where(mask, false, |mask|);
    FilteredSum(mask, true, |mask|, rb, m.RedTerm(w, c), FaceTerm(rb, l.own, l.nei, l.upper, w, c));
    FilteredSum(mask, false, |mask|, br, m.RedTerm(w, c), FaceTerm(br, l.nei, l.own, l.lower, w, c));
    BothKinds(mask, m.RedTerm(w, c));
  }

  /** What one application computes: black rows see the red values, then red rows the new black ones. */
  function Forward(m: Coloured, rD: Vector, r: Vector): Vector
    requires m.Valid() && |rD| == |r| == m.l.n
  {
    var w := Times(rD, r);
    Sub(w, Times(rD, m.BlackSums(w)))
  }

  function Backward(m: Coloured, rD: Vector, w: Vector): Vector
    requires m.Valid() && |rD| == |w| == m.l.n
  {
    Sub(w, Times(rD, m.RedSums(w)))
  }

  method Apply(m: Coloured, rD: Vector, r: Vector) returns (w: Vector)
    requires m.Valid() && |rD| == |r| == m.l.n
    ensures w == Backward(m, rD, Forward(m, rD, r))
  {
    w := Times(rD, r);
    var upd := GatherBlack(m, w);
    w := Sub(w, Times(rD, upd[..]));
    upd := GatherRed(m, w);
    w := Sub(w, Times(rD, upd[..]));
  }
}
