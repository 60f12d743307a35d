/** Natural-order DILU on the mesh renumbered red cells first computes what red-black DILU computes. */
module Renumbering {
  import opened Sums
  import opened Vectors
  import opened Ldu
  import opened Dilu
  import opened RedBlackDilu

  /** A new number for every cell, and the old faces in their new order; each with its inverse. */
  datatype Order = Order(rank: seq<nat>, cellAt: seq<nat>, faces: seq<nat>, place: seq<nat>)
  {
    /** Red cells before black ones, faces by the new number of their red cell. */
    predicate Valid(m: Coloured)
      requires m.Valid()
    {
      var n, nF := m.l.n, m.l.NFaces();
      && |rank| == |cellAt| == n && |faces| == |place| == nF
      && (forall c :: 0 <= c < n ==> rank[c] < n && cellAt[rank[c]] == c)
      && (forall i :: 0 <= i < n ==> cellAt[i] < n && rank[cellAt[i]] == i)
      && (forall k :: 0 <= k < nF ==> faces[k] < nF && place[faces[k]] == k)
      && (forall f :: 0 <= f < nF ==> place[f] < nF && faces[place[f]] == f)
      && (forall a, b :: 0 <= a < n && 0 <= b < n && m.colour[a] == 0 && m.colour[b] == 1 ==> rank[a] < rank[b])
      && (forall k, j :: 0 <= k < j < nF ==> rank[m.Red(faces[k])] <= rank[m.Red(faces[j])])
    }

    /** A vector in the new cell order. */
    function Moved(m: Coloured, x: Vector): (y: Vector)
      requires m.Valid() && Valid(m) && |x| == m.l.n
      ensures |y| == m.l.n && forall c :: 0 <= c < m.l.n ==> y[rank[c]] == x[c]
    {
      seq(m.l.n, i requires 0 <= i < m.l.n => x[cellAt[i]])
    }

    /** The same matrix in the new numbering. */
    function Matrix(m: Coloured): Ldu
      requires m.Valid() && Valid(m)
    {
      var nF := m.l.NFaces();
      Ldu(m.l.n,
          seq(nF, k requires 0 <= k < nF => rank[m.Red(faces[k])]),
          seq(nF, k requires 0 <= k < nF => rank[m.Black(faces[k])]),
          Moved(m, m.l.diag),
          seq(nF, k requires 0 <= k < nF => m.InRedRow(faces[k])),
          seq(nF, k requires 0 <= k < nF => m.InBlackRow(faces[k])))
    }
  }

  // ---- every coloured matrix has such an order ------------------------------------------------------

  /** Every position of `key` once, the keys not decreasing. */
  predicate Sorts(at: seq<nat>, key: seq<nat>) {
    && |at| == |key|
    && (forall k :: 0 <= k < |at| ==> at[k] < |key|)
    && (forall c :: 0 <= c < |key| ==> c in at)
    && (forall k, j :: 0 <= k < j < |at| ==> at[k] != at[j] && key[at[k]] <= key[at[j]])
  }

  lemma {:induction false} SortExists(key: seq<nat>) returns (at: seq<nat>)
    ensures Sorts(at, key)
  {
    if key == [] {
      return [];
    }
    var last := |key| - 1;
    var before := SortExists(key[..last]);
    var p := 0;
    while p < |before| && key[before[p]] <= key[last]
      invariant 0 <= p <= |before| && forall k :: 0 <= k < p ==> key[before[k]] <= key[last]
    {
      p := p + 1;
    }
    at := Inserted(key, before, p);
  }

  lemma {:induction false} Inserted(key: seq<nat>, before: seq<nat>, p: nat) returns (at: seq<nat>)
    requires key != [] && Sorts(before, key[..|key| - 1]) && p <= |before|
    requires forall k :: 0 <= k < p ==> key[before[k]] <= key[|key| - 1]
    requires p < |before| ==> key[before[p]] > key[|key| - 1]
    ensures Sorts(at, key)
  {
    at := before[..p] + [|key| - 1] + before[p..];
    assert before == before[..p] + before[p..];
    assert at[p] == |key| - 1;
    forall c | 0 <= c < |key| ensures c in at {
      assert c == |key| - 1 || c in before;
    }
    forall k, j | 0 <= k < j < |at| ensures at[k] != at[j] && key[at[k]] <= key[at[j]] {
      InOrder(key, before, p, at, k, j);
    }
  }

  lemma {:induction false} InOrder(key: seq<nat>, before: seq<nat>, p: nat, at: seq<nat>, k: nat, j: nat)
    requires key != [] && Sorts(before, key[..|key| - 1]) && p <= |before|
    requires forall k :: 0 <= k < p ==> key[before[k]] <= key[|key| - 1]
    requires p < |before| ==> key[before[p]] > key[|key| - 1]
    requires at == before[..p] + [|key| - 1] + before[p..] && k < j < |at|
    ensures at[k] < |key| && at[j] < |key| && at[k] != at[j] && key[at[k]] <= key[at[j]]
  {
    var key' := key[..|key| - 1];
    var k', j' := if k < p then k else k - 1, if j < p then j else j - 1;
    if k != p && j != p {
      assert at[k] == before[k'] && at[j] == before[j'];
      assert key'[before[k']] <= key'[before[j']];
    } else if k == p {
      assert at[j] == before[j'];
      assert p == j' || key'[before[p]] <= key'[before[j']];
    }
  }

  function IndexOf(s: seq<nat>, c: nat): (k: nat)
    requires c in s
    ensures k < |s| && s[k] == c
  {
    if s[0] == c then 0 else 1 + IndexOf(s[1..], c)
  }

  function Inverse(at: seq<nat>): (place: seq<nat>)
    requires forall c :: 0 <= c < |at| ==> c in at
    ensures |place| == |at| && forall c :: 0 <= c < |at| ==> place[c] < |at| && at[place[c]] == c
  {
    seq(|at|, c requires 0 <= c < |at| => IndexOf(at, c))
  }

  lemma {:induction false} SortInverts(at: seq<nat>, key: seq<nat>)
    requires Sorts(at, key)
    ensures forall k :: 0 <= k < |at| ==> Inverse(at)[at[k]] == k
    ensures forall a, b :: 0 <= a < |key| && 0 <= b < |key| && key[a] < key[b] ==> Inverse(at)[a] < Inverse(at)[b]
  {
    var place := Inverse(at);
    forall a, b | 0 <= a < |key| && 0 <= b < |key| && key[a] < key[b] ensures place[a] < place[b] {
      assert at[place[a]] == a && at[place[b]] == b;
    }
  }

  /** Sort the cells by colour... */
  lemma {:induction false} CellOrder(m: Coloured) returns (rank: seq<nat>, cellAt: seq<nat>)
    requires m.Valid()
    ensures |rank| == |cellAt| == m.l.n
    ensures forall c :: 0 <= c < m.l.n ==> rank[c] < m.l.n && cellAt[rank[c]] == c
    ensures forall i :: 0 <= i < m.l.n ==> cellAt[i] < m.l.n && rank[cellAt[i]] == i
    ensures forall a, b :: 0 <= a < m.l.n && 0 <= b < m.l.n && m.colour[a] == 0 && m.colour[b] == 1 ==>
      rank[a] < rank[b]
  {
    var colours := seq(m.l.n, c requires 0 <= c < m.l.n => if m.colour[c] == 0 then 0 else 1);
    cellAt := SortExists(colours);
    SortInverts(cellAt, colours);
    rank := Inverse(cellAt);
  }

  /** ...then the faces by the new number of their red cell. */
  lemma {:induction false} FaceOrder(m: Coloured, rank: seq<nat>) returns (faces: seq<nat>, place: seq<nat>)
    requires m.Valid() && |rank| == m.l.n
    ensures |faces| == |place| == m.l.NFaces()
    ensures forall k :: 0 <= k < m.l.NFaces() ==> faces[k] < m.l.NFaces() && place[faces[k]] == k
    ensures forall f :: 0 <= f < m.l.NFaces() ==> place[f] < m.l.NFaces() && faces[place[f]] == f
    ensures forall k, j :: 0 <= k < j < m.l.NFaces() ==> rank[m.Red(faces[k])] <= rank[m.Red(faces[j])]
  {
    var nF := m.l.NFaces();
    var reds := seq(nF, f requires 0 <= f < nF => rank[m.Red(f)]);
    faces := SortExists(reds);
    SortInverts(faces, reds);
    place := Inverse(faces);
    forall k, j | 0 <= k < j < nF ensures rank[m.Red(faces[k])] <= rank[m.Red(faces[j])] {
      assert reds[faces[k]] <= reds[faces[j]];
    }
  }

  lemma {:induction false} OrderExists(m: Coloured) returns (o: Order)
    requires m.Valid()
    ensures o.Valid(m)
  {
    var rank, cellAt := CellOrder(m);
    var faces, place := FaceOrder(m, rank);
    o := Order(rank, cellAt, faces, place);
  }

  lemma MatrixSorted(m: Coloured, o: Order)
    requires m.Valid() && o.Valid(m)
    ensures o.Matrix(m).UpperTriangular()
  {
  }

  // ---- moving commutes with everything -----------------------------------------------------------

  lemma MovedTimes(m: Coloured, o: Order, x: Vector, y: Vector)
    requires m.Valid() && o.Valid(m) && |x| == |y| == m.l.n
    ensures o.Moved(m, Times(x, y)) == Times(o.Moved(m, x), o.Moved(m, y))
  {
    forall i | 0 <= i < m.l.n ensures o.Moved(m, Times(x, y))[i] == Times(o.Moved(m, x), o.Moved(m, y))[i] {
      SameProduct(o.Moved(m, x)[i], o.Moved(m, y)[i], x[o.cellAt[i]], y[o.cellAt[i]]);
    }
  }

  lemma MovedAdd(m: Coloured, o: Order, x: Vector, y: Vector)
    requires m.Valid() && o.Valid(m) && |x| == |y| == m.l.n
    ensures o.Moved(m, Add(x, y)) == Add(o.Moved(m, x), o.Moved(m, y))
  {
  }

  lemma {:induction false} MovedLower(m: Coloured, o: Order, x: Vector)
    requires m.Valid() && o.Valid(m) && |x| == m.l.n && o.Matrix(m).Valid()
    ensures o.Matrix(m).LowerSums(o.Moved(m, x)) == o.Moved(m, m.BlackSums(x))
  {
    forall i | 0 <= i < m.l.n
      ensures o.Matrix(m).LowerSums(o.Moved(m, x))[i] == o.Moved(m, m.BlackSums(x))[i]
    {
      LowerSum(m, o, x, o.cellAt[i]);
    }
  }

  lemma {:induction false} MovedUpper(m: Coloured, o: Order, x: Vector)
    requires m.Valid() && o.Valid(m) && |x| == m.l.n && o.Matrix(m).Valid()
    ensures o.Matrix(m).UpperSums(o.Moved(m, x)) == o.Moved(m, m.RedSums(x))
  {
    forall i | 0 <= i < m.l.n
      ensures o.Matrix(m).UpperSums(o.Moved(m, x))[i] == o.Moved(m, m.RedSums(x))[i]
    {
      UpperSum(m, o, x, o.cellAt[i]);
    }
  }

  /** The product of the renumbered matrix is the renumbered product: only names have changed. */
  lemma {:induction false} SameOperator(m: Coloured, o: Order, x: Vector)
    requires m.Valid() && o.Valid(m) && |x| == m.l.n
    ensures o.Matrix(m).Valid() && o.Matrix(m).Amul(o.Moved(m, x)) == o.Moved(m, m.l.Amul(x))
  {
    MatrixSorted(m, o);
    var y, l := o.Moved(m, x), m.l;
    assert seq(l.n, c => At(x, c)) == x && seq(l.n, c => At(y, c)) == y;
    MovedTimes(m, o, l.diag, x);
    MovedLower(m, o, x);
    MovedUpper(m, o, x);
    MovedAdd(m, o, m.BlackSums(x), m.RedSums(x));
    assert Add(m.BlackSums(x), m.RedSums(x)) == Add(l.LowerSums(x), l.UpperSums(x)) by {
      forall c | 0 <= c < l.n
        ensures Add(m.BlackSums(x), m.RedSums(x))[c] == Add(l.LowerSums(x), l.UpperSums(x))[c]
      {
        RowSplit(m, x, c);
      }
    }
    MovedAdd(m, o, Times(l.diag, x), Add(l.LowerSums(x), l.UpperSums(x)));
  }

  /** A row sum splits by side of the diagonal or by colour. */
  lemma {:induction false} RowSplit(m: Coloured, x: Vector, c: nat)
    requires m.Valid() && |x| == m.l.n && c < m.l.n
    ensures var nF := m.l.NFaces();
            Sum(nF, m.BlackTerm(x, c)) + Sum(nF, m.RedTerm(x, c))
            == Sum(nF, m.l.LowerTerm(x, c)) + Sum(nF, m.l.UpperTerm(x, c))
  {
    var nF := m.l.NFaces();
    var both := (f: int) => m.BlackTerm(x, c)(f) + m.RedTerm(x, c)(f);
    SumAdd(nF, m.BlackTerm(x, c), m.RedTerm(x, c), both);
    forall f | 0 <= f < nF ensures both(f) == m.l.LowerTerm(x, c)(f) + m.l.UpperTerm(x, c)(f) {
      FaceSplit(m, x, c, f);
    }
    SumAdd(nF, m.l.LowerTerm(x, c), m.l.UpperTerm(x, c), both);
  }

  lemma {:induction false} FaceSplit(m: Coloured, x: Vector, c: nat, f: nat)
    requires m.Valid() && |x| == m.l.n && c < m.l.n && f < m.l.NFaces()
    ensures m.BlackTerm(x, c)(f) + m.RedTerm(x, c)(f) == m.l.LowerTerm(x, c)(f) + m.l.UpperTerm(x, c)(f)
  {
    var l := m.l;
    if m.IsRedOwn(f) {
      SameProduct(m.InBlackRow(f), At(x, m.Red(f)), l.lower[f], At(x, l.own[f]));
      SameProduct(m.InRedRow(f), At(x, m.Black(f)), l.upper[f], At(x, l.nei[f]));
    } else {
      SameProduct(m.InBlackRow(f), At(x, m.Red(f)), l.upper[f], At(x, l.nei[f]));
      SameProduct(m.InRedRow(f), At(x, m.Black(f)), l.lower[f], At(x, l.own[f]));
    }
  }

  /** Below the diagonal of the renumbered matrix are the couplings of black rows to red cells... */
  lemma {:induction false} LowerSum(m: Coloured, o: Order, x: Vector, c: nat)
    requires m.Valid() && o.Valid(m) && |x| == m.l.n && c < m.l.n && o.Matrix(m).Valid()
    ensures Sum(m.l.NFaces(), o.Matrix(m).LowerTerm(o.Moved(m, x), o.rank[c])) == Sum(m.l.NFaces(), m.BlackTerm(x, c))
  {
    var l', y, nF := o.Matrix(m), o.Moved(m, x), m.l.NFaces();
    forall k | 0 <= k < nF ensures l'.LowerTerm(y, o.rank[c])(k) == m.BlackTerm(x, c)(o.faces[k]) {
      assert o.rank[m.Black(o.faces[k])] == o.rank[c] <==> m.Black(o.faces[k]) == c;
    }
    SumReordered(nF, o.faces, o.place, m.BlackTerm(x, c), l'.LowerTerm(y, o.rank[c]));
  }

  /** ...and above it those of red rows to black cells. */
  lemma {:induction false} UpperSum(m: Coloured, o: Order, x: Vector, c: nat)
    requires m.Valid() && o.Valid(m) && |x| == m.l.n && c < m.l.n && o.Matrix(m).Valid()
    ensures Sum(m.l.NFaces(), o.Matrix(m).UpperTerm(o.Moved(m, x), o.rank[c])) == Sum(m.l.NFaces(), m.RedTerm(x, c))
  {
    var l', y, nF := o.Matrix(m), o.Moved(m, x), m.l.NFaces();
    forall k | 0 <= k < nF ensures l'.UpperTerm(y, o.rank[c])(k) == m.RedTerm(x, c)(o.faces[k]) {
      assert o.rank[m.Red(o.faces[k])] == o.rank[c] <==> m.Red(o.faces[k]) == c;
    }
    SumReordered(nF, o.faces, o.place, m.RedTerm(x, c), l'.UpperTerm(y, o.rank[c]));
  }

  // ---- pivots -------------------------------------------------------------------------------------

  lemma {:induction false} RedPivotMoved(m: Coloured, o: Order, c: nat)
    requires m.Valid() && o.Valid(m) && c < m.l.n && m.colour[c] == 0 && o.Matrix(m).UpperTriangular()
    ensures Pivots(o.Matrix(m), m.l.n)[o.rank[c]] == m.l.diag[c]
  {
    var l', i := o.Matrix(m), o.rank[c];
    PivotAt(l', i);
    SumZero(m.l.NFaces(), PivotTerm(l', Pivots(l', m.l.n), i));
  }

  lemma {:induction false} PivotSumMoved(m: Coloured, o: Order, c: nat, d': Vector)
    requires m.Valid() && o.Valid(m) && c < m.l.n && o.Matrix(m).UpperTriangular()
    requires |d'| == m.l.n && forall a :: 0 <= a < m.l.n && m.colour[a] == 0 ==> d'[o.rank[a]] == m.l.diag[a]
    ensures Sum(m.l.NFaces(), PivotTerm(o.Matrix(m), d', o.rank[c])) == Sum(m.l.NFaces(), m.PivotTerm(c))
  {
    var t, t', nF := m.PivotTerm(c), PivotTerm(o.Matrix(m), d', o.rank[c]), m.l.NFaces();
    forall k | 0 <= k < nF ensures t'(k) == t(o.faces[k]) {
      PivotTermMoved(m, o, d', c, k);
    }
    SumReordered(nF, o.faces, o.place, t, t');
  }

  lemma {:induction false} PivotMoved(m: Coloured, o: Order, c: nat, d': Vector)
    requires m.Valid() && o.Valid(m) && c < m.l.n && o.Matrix(m).UpperTriangular()
    requires d' == Pivots(o.Matrix(m), m.l.n)
    requires Sum(m.l.NFaces(), PivotTerm(o.Matrix(m), d', o.rank[c])) == Sum(m.l.NFaces(), m.PivotTerm(c))
    ensures d'[o.rank[c]] == m.Pivots()[c]
  {
    PivotAt(o.Matrix(m), o.rank[c]);
  }

  lemma {:induction false} PivotTermMoved(m: Coloured, o: Order, d': Vector, c: nat, k: nat)
    requires m.Valid() && o.Valid(m) && c < m.l.n && k < m.l.NFaces() && o.Matrix(m).UpperTriangular()
    requires |d'| == m.l.n && forall a :: 0 <= a < m.l.n && m.colour[a] == 0 ==> d'[o.rank[a]] == m.l.diag[a]
    ensures PivotTerm(o.Matrix(m), d', o.rank[c])(k) == m.PivotTerm(c)(o.faces[k])
  {
    var f := o.faces[k];
    assert o.rank[m.Black(f)] == o.rank[c] <==> m.Black(f) == c;
    if m.IsRedOwn(f) {
      SameProduct(m.InRedRow(f), m.InBlackRow(f), m.l.upper[f], m.l.lower[f]);
    } else {
      SameProduct(m.InRedRow(f), m.InBlackRow(f), m.l.lower[f], m.l.upper[f]);
    }
  }

  lemma {:induction false} AllPivotsMoved(m: Coloured, o: Order)
    requires m.Valid() && o.Valid(m) && m.NonzeroPivots()
    ensures o.Matrix(m).UpperTriangular()
    ensures Pivots(o.Matrix(m), m.l.n) == o.Moved(m, m.Pivots())
    ensures NonzeroPivots(o.Matrix(m))
  {
    MatrixSorted(m, o);
    var d' := Pivots(o.Matrix(m), m.l.n);
    forall a | 0 <= a < m.l.n && m.colour[a] == 0 ensures d'[o.rank[a]] == m.l.diag[a] {
      RedPivotMoved(m, o, a);
    }
    forall i | 0 <= i < m.l.n ensures d'[i] == o.Moved(m, m.Pivots())[i] != 0.0 {
      PivotSumMoved(m, o, o.cellAt[i], d');
      PivotMoved(m, o, o.cellAt[i], d');
    }
  }

  // ---- one application ------------------------------------------------------------------------------

  lemma ZeroStep(rD: Vector, w: Vector, s: Vector, a: nat)
    requires |rD| == |w| == |s| && a < |s| && s[a] == 0.0
    ensures Sub(w, Times(rD, s))[a] == w[a]
  {
    SameProduct(rD[a], s[a], rD[a], 0.0);
  }

  lemma {:induction false} RedSumZero(m: Coloured, x: Vector, a: nat)
    requires m.Valid() && |x| == m.l.n && a < m.l.n && m.colour[a] == 0
    ensures m.BlackSums(x)[a] == 0.0
  {
    SumZero(m.l.NFaces(), m.BlackTerm(x, a));
  }

  lemma {:induction false} BlackSumZero(m: Coloured, x: Vector, b: nat)
    requires m.Valid() && |x| == m.l.n && b < m.l.n && m.colour[b] == 1
    ensures m.RedSums(x)[b] == 0.0
  {
    SumZero(m.l.NFaces(), m.RedTerm(x, b));
  }

  /** Red values are final before the forward step, black ones before the backward step. */
  lemma {:induction false} ForwardKeepsRed(m: Coloured, rD: Vector, r: Vector)
    requires m.Valid() && |rD| == |r| == m.l.n
    ensures m.BlackSums(Forward(m, rD, r)) == m.BlackSums(Times(rD, r))
  {
    var w0, w, nF := Times(rD, r), Forward(m, rD, r), m.l.NFaces();
    forall f | 0 <= f < nF ensures At(w, m.Red(f)) == At(w0, m.Red(f)) {
      RedSumZero(m, w0, m.Red(f));
      ZeroStep(rD, w0, m.BlackSums(w0), m.Red(f));
    }
    forall c | 0 <= c < m.l.n ensures m.BlackSums(w)[c] == m.BlackSums(w0)[c] {
      SumEqual(nF, m.BlackTerm(w0, c), m.BlackTerm(w, c));
    }
  }

  lemma {:induction false} BackwardKeepsBlack(m: Coloured, rD: Vector, v: Vector)
    requires m.Valid() && |rD| == |v| == m.l.n
    ensures m.RedSums(Backward(m, rD, v)) == m.RedSums(v)
  {
    var w, nF := Backward(m, rD, v), m.l.NFaces();
    forall f | 0 <= f < nF ensures At(w, m.Black(f)) == At(v, m.Black(f)) {
      BlackSumZero(m, v, m.Black(f));
      ZeroStep(rD, v, m.RedSums(v), m.Black(f));
    }
    forall c | 0 <= c < m.l.n ensures m.RedSums(w)[c] == m.RedSums(v)[c] {
      SumEqual(nF, m.RedTerm(v, c), m.RedTerm(w, c));
    }
  }

  lemma {:induction false} ForwardMoved(m: Coloured, o: Order, d: Vector, rD: Vector, r: Vector)
    requires m.Valid() && o.Valid(m) && |d| == |r| == m.l.n && Reciprocals(rD, d) && o.Matrix(m).Valid()
    ensures SolvesLower(o.Matrix(m), o.Moved(m, d), o.Moved(m, Forward(m, rD, r)), o.Moved(m, r))
  {
    var w0, w := Times(rD, r), Forward(m, rD, r);
    ForwardKeepsRed(m, rD, r);
    RelaxUndone(d, rD, w0, m.BlackSums(w0));
    TimesReciprocal(d, rD, r);
    assert Add(Times(d, w), m.BlackSums(w)) == r;
    MovedAdd(m, o, Times(d, w), m.BlackSums(w));
    MovedTimes(m, o, d, w);
    MovedLower(m, o, w);
  }

  lemma {:induction false} BackwardMoved(m: Coloured, o: Order, d: Vector, rD: Vector, v: Vector)
    requires m.Valid() && o.Valid(m) && |d| == |v| == m.l.n && Reciprocals(rD, d) && o.Matrix(m).Valid()
    ensures SolvesUpper(o.Matrix(m), o.Moved(m, d), o.Moved(m, Backward(m, rD, v)), o.Moved(m, v))
  {
    var w := Backward(m, rD, v);
    BackwardKeepsBlack(m, rD, v);
    RelaxUndone(d, rD, v, m.RedSums(v));
    assert Add(Times(d, w), m.RedSums(w)) == Times(d, v);
    MovedAdd(m, o, Times(d, w), m.RedSums(w));
    MovedTimes(m, o, d, w);
    MovedTimes(m, o, d, v);
    MovedUpper(m, o, w);
  }

  /** Main result: whatever natural-order DILU returns on the renumbered matrix for the renumbered right
      side is the renumbered result of red-black DILU. */
  lemma {:induction false} RedBlackIsNatural(m: Coloured, o: Order, rD: Vector, r: Vector, w': Vector)
    requires m.Valid() && o.Valid(m) && m.NonzeroPivots() && |r| == m.l.n && Reciprocals(rD, m.Pivots())
    requires o.Matrix(m).UpperTriangular() && NonzeroPivots(o.Matrix(m)) && |w'| == m.l.n
    requires Product(o.Matrix(m), Pivots(o.Matrix(m), m.l.n), w') == o.Moved(m, r)
    ensures w' == o.Moved(m, Backward(m, rD, Forward(m, rD, r)))
  {
    AllPivotsMoved(m, o);
    ForwardMoved(m, o, m.Pivots(), rD, r);
    BackwardMoved(m, o, m.Pivots(), rD, Forward(m, rD, r));
    var l', d' := o.Matrix(m), Pivots(o.Matrix(m), m.l.n);
    var v := o.Moved(m, Forward(m, rD, r));
    var w := o.Moved(m, Backward(m, rD, Forward(m, rD, r)));
    ExactInverse(l', d', w, v, o.Moved(m, r));
    ProductInjective(l', d', w, w');
  }
}
