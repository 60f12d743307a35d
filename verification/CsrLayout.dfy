/** Rows of coefficients laid out one behind the other in the three arrays of a compressed-row matrix. */
module CsrLayout {
  import opened Sums
  import opened Vectors
  import opened Ldu
  import opened CsrRows

  type Rows = seq<seq<Coeff>>

  /** Where row `c` starts: behind the rows before it. */
  function Start(rows: Rows, c: nat): (s: nat)
    requires c <= |rows|
  {
    if c == 0 then 0 else Start(rows, c - 1) + |rows[c - 1]|
  }

  lemma {:induction false} StartMonotone(rows: Rows, c: nat, d: nat)
    requires c < d <= |rows|
    ensures Start(rows, c) + |rows[c]| <= Start(rows, d)
  {
    if c + 1 < d {
      StartMonotone(rows, c, d - 1);
    }
  }

  /** Every slot belongs to one row. */
  lemma {:induction false} RowOfSlot(rows: Rows, c: nat, p: nat) returns (d: nat)
    requires c <= |rows| && p < Start(rows, c)
    ensures d < c && Start(rows, d) <= p < Start(rows, d) + |rows[d]|
  {
    if p < Start(rows, c - 1) {
      d := RowOfSlot(rows, c - 1, p);
    } else {
      d := c - 1;
    }
  }

  lemma StartByLengths(rows: Rows, rows': Rows, c: nat)
    requires c <= |rows| && |rows| == |rows'| && forall d :: 0 <= d < c ==> |rows[d]| == |rows'[d]|
    ensures Start(rows, c) == Start(rows', c)
  {
  }

  /** The entries `es` stand in the two arrays from slot `lo` on. */
  ghost predicate Shows(l: Ldu, es: seq<Coeff>, lo: int, cols: seq<nat>, vals: seq<real>) {
    && 0 <= lo && lo + |es| <= |cols| == |vals|
    && forall i :: 0 <= i < |es| ==> cols[lo + i] == es[i].col && vals[lo + i] == ValueOf(l, es[i])
  }

  /** The three arrays hold exactly these rows. */
  ghost predicate IsCsr(l: Ldu, rows: Rows, rowPtr: seq<nat>, cols: seq<nat>, vals: seq<real>) {
    && |rowPtr| == |rows| + 1 && |cols| == |vals| == Start(rows, |rows|)
    && (forall c {:trigger rowPtr[c]} :: 0 <= c <= |rows| ==> rowPtr[c] == Start(rows, c))
    && forall c {:trigger Shows(l, rows[c], rowPtr[c], cols, vals)} :: 0 <= c < |rows| ==>
       Shows(l, rows[c], rowPtr[c], cols, vals)
  }

  /** The rows fix the arrays completely. */
  lemma {:induction false} OneLayout(l: Ldu, rows: Rows, rowPtr: seq<nat>, cols: seq<nat>, vals: seq<real>,
                                     rowPtr': seq<nat>, cols': seq<nat>, vals': seq<real>)
    requires IsCsr(l, rows, rowPtr, cols, vals) && IsCsr(l, rows, rowPtr', cols', vals')
    ensures rowPtr == rowPtr' && cols == cols' && vals == vals'
  {
    forall p | 0 <= p < |cols| ensures cols[p] == cols'[p] && vals[p] == vals'[p] {
      var c := RowOfSlot(rows, |rows|, p);
      var k := p - Start(rows, c);
      assert Shows(l, rows[c], rowPtr[c], cols, vals) && Shows(l, rows[c], rowPtr'[c], cols', vals');
      assert cols[rowPtr[c] + k] == rows[c][k].col && cols'[rowPtr'[c] + k] == rows[c][k].col;
    }
  }

  /** All rows after the first `f` faces. */
  function CollectedRows(l: Ldu, f: nat): (r: Rows)
    requires l.Valid() && f <= l.NFaces()
    ensures |r| == l.n && forall c :: 0 <= c < l.n ==> r[c] == RowEntries(l, c, f)
  {
    seq(l.n, c requires 0 <= c < l.n => RowEntries(l, c, f))
  }

  function SortedRows(l: Ldu): (r: Rows)
    requires l.Valid()
    ensures |r| == l.n && forall c :: 0 <= c < l.n ==> r[c] == Sorted(RowEntries(l, c, l.NFaces()))
  {
    seq(l.n, c requires 0 <= c < l.n => Sorted(RowEntries(l, c, l.NFaces())))
  }

  /** One face puts one entry into its owner's row and one into its neighbour's. */
  lemma {:induction false} StartOfFace(l: Ldu, f: nat, c: nat)
    requires l.Valid() && 0 < f <= l.NFaces() && c <= l.n
    ensures Start(CollectedRows(l, f), c) ==
      Start(CollectedRows(l, f - 1), c) + (if l.own[f - 1] < c then 1 else 0) + (if l.nei[f - 1] < c then 1 else 0)
  {
    if c > 0 {
      StartOfFace(l, f, c - 1);
    }
  }

  lemma {:induction false} StartOfDiagonal(l: Ldu, c: nat)
    requires l.Valid() && c <= l.n
    ensures Start(CollectedRows(l, 0), c) == c
  {
    if c > 0 {
      StartOfDiagonal(l, c - 1);
    }
  }

  /** The number of stored coefficients: one a cell, two a face. */
  lemma {:induction false} CountStored(l: Ldu, f: nat)
    requires l.Valid() && f <= l.NFaces()
    ensures Start(CollectedRows(l, f), l.n) == l.n + 2 * f
  {
    if f == 0 {
      StartOfDiagonal(l, l.n);
    } else {
      CountStored(l, f - 1);
      StartOfFace(l, f, l.n);
    }
  }

  /** One more entry at the end of row `c`. */
  function Put(rows: Rows, c: nat, e: Coeff): (r: Rows)
    requires c < |rows|
    ensures |r| == |rows|
  {
    rows[c := rows[c] + [e]]
  }

  /** The diagonal entries of the first `c` rows. */
  function DiagonalRows(l: Ldu, c: nat): (r: Rows)
    requires l.Valid() && c <= l.n
    ensures |r| == l.n
  {
    seq(l.n, d requires 0 <= d < l.n => if d < c then [Coeff(d, Diag, d)] else [])
  }

  lemma {:induction false} RowsOfFace(l: Ldu, f: nat)
    requires l.Valid() && f < l.NFaces()
    ensures var rows, full := CollectedRows(l, f), CollectedRows(l, l.NFaces());
      && |rows[l.own[f]]| < |full[l.own[f]]| && |rows[l.nei[f]]| < |full[l.nei[f]]|
      && CollectedRows(l, f + 1) ==
         Put(Put(rows, l.own[f], Coeff(l.nei[f], Upper, f)), l.nei[f], Coeff(l.own[f], Lower, f))
  {
    RowGrows(l, l.own[f], f, l.NFaces());
    RowGrows(l, l.nei[f], f, l.NFaces());
    var rows := CollectedRows(l, f);
    var put := Put(Put(rows, l.own[f], Coeff(l.nei[f], Upper, f)), l.nei[f], Coeff(l.own[f], Lower, f));
    forall c | 0 <= c < l.n ensures CollectedRows(l, f + 1)[c] == put[c] {
      assert RowEntries(l, c, f + 1) == RowEntries(l, c, f) + FaceEntries(l, c, f);
      assert put[c] == rows[c] + FaceEntries(l, c, f);
    }
  }

  lemma {:induction false} RowsOfDiagonal(l: Ldu, c: nat)
    requires l.Valid() && c <= l.n
    ensures c < l.n ==>
      DiagonalRows(l, c + 1) == Put(DiagonalRows(l, c), c, Coeff(c, Diag, c)) && DiagonalRows(l, c)[c] == []
    ensures c == l.n ==> DiagonalRows(l, c) == CollectedRows(l, 0)
  {
    if c < l.n {
      assert [] + [Coeff(c, Diag, c)] == [Coeff(c, Diag, c)];
    }
  }

  /** Each row holds what the matrix puts there, in some order. */
  ghost predicate RowsOf(l: Ldu, rows: Rows)
    requires l.Valid()
  {
    |rows| == l.n && forall c {:trigger multiset(rows[c])} :: 0 <= c < l.n ==>
      multiset(rows[c]) == multiset(RowEntries(l, c, l.NFaces()))
  }

  lemma {:induction false} RowsOfStart(l: Ldu, rows: Rows, c: nat)
    requires l.Valid() && RowsOf(l, rows) && c <= l.n
    ensures Start(rows, c) == Start(CollectedRows(l, l.NFaces()), c)
    ensures c == l.n ==> Start(rows, c) == l.n + 2 * l.NFaces()
  {
    forall d | 0 <= d < l.n ensures |rows[d]| == |CollectedRows(l, l.NFaces())[d]| {
      SameLength(rows[d], RowEntries(l, d, l.NFaces()));
    }
    StartByLengths(rows, CollectedRows(l, l.NFaces()), c);
    CountStored(l, l.NFaces());
  }

  lemma {:induction false} SortedRowsOf(l: Ldu)
    requires l.Valid()
    ensures RowsOf(l, SortedRows(l))
  {
    forall c | 0 <= c < l.n ensures multiset(SortedRows(l)[c]) == multiset(RowEntries(l, c, l.NFaces())) {
      SortedSorts(RowEntries(l, c, l.NFaces()));
    }
  }

  lemma {:induction false} DiagonalPart(l: Ldu, c: nat, x: Vector)
    requires l.Valid() && c < l.n
    ensures At(Times(l.diag, seq(l.n, i => At(x, i))), c) == l.diag[c] * At(x, c)
  {
    SameProduct(At(l.diag, c), At(seq(l.n, i => At(x, i)), c), l.diag[c], At(x, c));
  }

  lemma {:induction false} AmulAt(l: Ldu, c: nat, x: Vector)
    requires l.Valid() && c < l.n
    ensures At(l.Amul(x), c) ==
      l.diag[c] * At(x, c) + (Sum(l.NFaces(), l.LowerTerm(x, c)) + Sum(l.NFaces(), l.UpperTerm(x, c)))
  {
    DiagonalPart(l, c, x);
    var d := Times(l.diag, seq(l.n, i => At(x, i)));
    var s := Add(l.LowerSums(x), l.UpperSums(x));
    assert At(s, c) == Sum(l.NFaces(), l.LowerTerm(x, c)) + Sum(l.NFaces(), l.UpperTerm(x, c));
    assert At(Add(d, s), c) == At(d, c) + At(s, c);
  }

  /** The row products are the owner/neighbour product, whatever order the rows are in. */
  lemma {:induction false} RowsMultiply(l: Ldu, rows: Rows, c: nat, x: Vector)
    requires l.Valid() && RowsOf(l, rows) && c < l.n
    ensures RowDot(l, rows[c], x) == At(l.Amul(x), c)
  {
    RowDotReordered(l, rows[c], RowEntries(l, c, l.NFaces()), x);
    RowDotIsAmul(l, c, l.NFaces(), x);
    AmulAt(l, c, x);
  }

  /** The inner loop: the product of slots `lo` to `hi` with `x`. */
  method RowProduct(ghost l: Ldu, ghost row: seq<Coeff>, lo: nat, hi: nat, colIdx: array<nat>, valCsr: array<real>,
                    x: Vector) returns (s: real)
    requires Shows(l, row, lo, colIdx[..], valCsr[..]) && hi == lo + |row|
    ensures s == RowDot(l, row, x)
  {
    s := 0.0;
    var k := lo;
    while k < hi
      invariant lo <= k <= hi
      invariant s == RowDot(l, row[..k - lo], x)
    {
      ProductRead(l, row, k - lo, lo, colIdx[..], valCsr[..], x);
      s := s + valCsr[k] * At(x, colIdx[k]);
      k := k + 1;
    }
    assert row[..|row|] == row;
  }

  /** The loop over the rows. */
  method SubtractRows(ghost l: Ldu, ghost rows: Rows, rowPtr: array<nat>, colIdx: array<nat>, valCsr: array<real>,
                      rhs: Vector, x: Vector, r: array<real>)
    requires IsCsr(l, rows, rowPtr[..], colIdx[..], valCsr[..])
    requires |rhs| == r.Length == |rows| && r != valCsr
    modifies r
    ensures forall c :: 0 <= c < |rhs| ==> r[c] == rhs[c] - RowDot(l, rows[c], x)
  {
    ghost var ptr, cols, vals := rowPtr[..], colIdx[..], valCsr[..];
    var c := 0;
    while c < |rhs|
      invariant 0 <= c <= |rhs|
      invariant rowPtr[..] == ptr && colIdx[..] == cols && valCsr[..] == vals
      invariant forall d :: 0 <= d < c ==> r[d] == rhs[d] - RowDot(l, rows[d], x)
    {
      RowAt(l, rows, c, ptr, cols, vals);
      assert rowPtr[c] == ptr[c] && rowPtr[c + 1] == ptr[c + 1];
      var s := RowProduct(l, rows[c], rowPtr[c], rowPtr[c + 1], colIdx, valCsr, x);
      r[c] := rhs[c] - s;
      c := c + 1;
    }
  }

  /** The residual from the compressed rows is the residual of the matrix. */
  method Residual(ghost l: Ldu, ghost rows: Rows, rowPtr: array<nat>, colIdx: array<nat>, valCsr: array<real>,
                  rhs: Vector, x: Vector, r: array<real>)
    requires l.Valid() && RowsOf(l, rows) && IsCsr(l, rows, rowPtr[..], colIdx[..], valCsr[..])
    requires |rhs| == |x| == r.Length == l.n && r != valCsr
    modifies r
    ensures r[..] == Sub(rhs, l.Amul(x))
  {
    SubtractRows(l, rows, rowPtr, colIdx, valCsr, rhs, x, r);
    ResidualRows(l, rows, rhs, x, r[..]);
  }

  lemma {:induction false} ResidualRows(l: Ldu, rows: Rows, rhs: Vector, x: Vector, r: Vector)
    requires l.Valid() && RowsOf(l, rows) && |rhs| == |x| == |r| == l.n
    requires forall c :: 0 <= c < l.n ==> r[c] == rhs[c] - RowDot(l, rows[c], x)
    ensures r == Sub(rhs, l.Amul(x))
  {
    forall c | 0 <= c < l.n ensures r[c] == At(rhs, c) - At(l.Amul(x), c) {
      RowsMultiply(l, rows, c, x);
    }
  }

  lemma {:induction false} RowAt(l: Ldu, rows: Rows, c: nat, rowPtr: seq<nat>, cols: seq<nat>, vals: seq<real>)
    requires IsCsr(l, rows, rowPtr, cols, vals) && c < |rows|
    ensures Shows(l, rows[c], rowPtr[c], cols, vals) && rowPtr[c + 1] == rowPtr[c] + |rows[c]|
  {
  }

  lemma {:induction false} ProductRead(l: Ldu, row: seq<Coeff>, i: nat, lo: nat, cols: seq<nat>, vals: seq<real>,
                                       x: Vector)
    requires Shows(l, row, lo, cols, vals) && i < |row|
    ensures RowDot(l, row[..i + 1], x) == RowDot(l, row[..i], x) + vals[lo + i] * At(x, cols[lo + i])
  {
    assert row[..i + 1] == row[..i] + [row[i]];
    RowDotAppend(l, row[..i], row[i], x);
    SameProduct(ValueOf(l, row[i]), At(x, row[i].col), vals[lo + i], At(x, cols[lo + i]));
  }
}
