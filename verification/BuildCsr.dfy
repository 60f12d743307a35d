/** The compressed-row converter of the tracing driver: count the entries of every row, add up the row starts,
    scatter the coefficients, sort each row in place. */
module BuildCsr {
  import opened Ldu
  import opened CsrRows
  import opened CsrLayout

  // ---- counting and row starts ----------------------------------------------------------------------

  lemma {:induction false} EntriesOfFace(l: Ldu, c: nat, f: nat)
    requires l.Valid() && c < l.n && f < l.NFaces()
    ensures |RowEntries(l, c, f + 1)| ==
      |RowEntries(l, c, f)| + (if l.own[f] == c then 1 else 0) + (if l.nei[f] == c then 1 else 0)
  {
  }

  method CountEntries(l: Ldu) returns (count: array<nat>)
    requires l.Valid()
    ensures fresh(count) && count.Length == l.n
    ensures forall c :: 0 <= c < l.n ==> count[c] == |RowEntries(l, c, l.NFaces())|
  {
    count := new nat[l.n](_ => 1);
    var f := 0;
    while f < l.NFaces()
      invariant 0 <= f <= l.NFaces()
      invariant forall c :: 0 <= c < l.n ==> count[c] == |RowEntries(l, c, f)|
    {
      forall c | 0 <= c < l.n
        ensures |RowEntries(l, c, f + 1)| ==
          |RowEntries(l, c, f)| + (if l.own[f] == c then 1 else 0) + (if l.nei[f] == c then 1 else 0)
      {
        EntriesOfFace(l, c, f);
      }
      count[l.own[f]] := count[l.own[f]] + 1;
      count[l.nei[f]] := count[l.nei[f]] + 1;
      f := f + 1;
    }
  }

  method StartRows(ghost rows: Rows, count: array<nat>) returns (rowPtr: array<nat>, cursor: array<nat>)
    requires count.Length == |rows| && forall c :: 0 <= c < |rows| ==> count[c] == |rows[c]|
    ensures fresh(rowPtr) && rowPtr.Length == count.Length + 1
    ensures fresh(cursor) && cursor.Length == count.Length && cursor != rowPtr
    ensures forall c {:trigger rowPtr[c]} :: 0 <= c <= |rows| ==> rowPtr[c] == Start(rows, c)
    ensures forall c {:trigger cursor[c]} :: 0 <= c < |rows| ==> cursor[c] == Start(rows, c)
  {
    rowPtr := new nat[count.Length + 1](_ => 0);
    cursor := new nat[count.Length](_ => 0);
    var c := 0;
    while c < count.Length
      invariant 0 <= c <= count.Length
      invariant forall d {:trigger rowPtr[d]} :: 0 <= d <= c ==> rowPtr[d] == Start(rows, d)
      invariant forall d {:trigger cursor[d]} :: 0 <= d < c ==> cursor[d] == Start(rows, d)
    {
      rowPtr[c + 1] := rowPtr[c] + count[c];
      cursor[c] := rowPtr[c];
      c := c + 1;
    }
  }

  // ---- scattering -----------------------------------------------------------------------------------

  /** The collected part `rows` of the rows `full` stands where the full rows will start. */
  ghost predicate Filling(l: Ldu, full: Rows, rows: Rows, cols: seq<nat>, vals: seq<real>) {
    && |rows| == |full| && |cols| == |vals| == Start(full, |full|)
    && forall c {:trigger Shows(l, rows[c], Start(full, c), cols, vals)} :: 0 <= c < |rows| ==>
       Shows(l, rows[c], Start(full, c), cols, vals)
  }

  /** Every cursor stands behind its row's collected part. */
  ghost predicate CursorsAt(full: Rows, rows: Rows, cursor: seq<nat>) {
    && |cursor| == |rows| == |full|
    && forall c {:trigger cursor[c]} :: 0 <= c < |rows| ==> cursor[c] == Start(full, c) + |rows[c]|
  }

  ghost predicate Room(full: Rows, rows: Rows) {
    |rows| == |full| && forall c {:trigger rows[c]} :: 0 <= c < |rows| ==> |rows[c]| <= |full[c]|
  }

  lemma {:induction false} SlotFree(full: Rows, rows: Rows, c: nat, d: nat)
    requires Room(full, rows) && c < |full| && d < |full| && c != d && |rows[c]| < |full[c]|
    ensures Start(full, c) + |rows[c]| < Start(full, d) || Start(full, d) + |rows[d]| <= Start(full, c)
  {
    if c < d {
      StartMonotone(full, c, d);
    } else {
      StartMonotone(full, d, c);
      assert |rows[d]| <= |full[d]|;
    }
  }

  lemma {:induction false} FillOne(l: Ldu, full: Rows, rows: Rows, c: nat, e: Coeff, cols: seq<nat>, vals: seq<real>)
    requires Filling(l, full, rows, cols, vals) && Room(full, rows) && c < |full| && |rows[c]| < |full[c]|
    ensures Start(full, c) + |rows[c]| < |cols|
    ensures var p := Start(full, c) + |rows[c]|;
      Filling(l, full, Put(rows, c, e), cols[p := e.col], vals[p := ValueOf(l, e)])
    ensures Room(full, Put(rows, c, e))
  {
    StartMonotone(full, c, |full|);
    var p, put := Start(full, c) + |rows[c]|, Put(rows, c, e);
    forall d | 0 <= d < |put| ensures Shows(l, put[d], Start(full, d), cols[p := e.col], vals[p := ValueOf(l, e)]) {
      assert Shows(l, rows[d], Start(full, d), cols, vals) && |rows[d]| <= |full[d]|;
      if d != c {
        SlotFree(full, rows, c, d);
      }
    }
  }

  method PutEntry(l: Ldu, ghost full: Rows, ghost rows: Rows, c: nat, ghost e: Coeff, value: real, col: nat,
                  cursor: array<nat>, colIdx: array<nat>, valCsr: array<real>)
    requires cursor != colIdx
    requires Filling(l, full, rows, colIdx[..], valCsr[..]) && CursorsAt(full, rows, cursor[..]) && Room(full, rows)
    requires c < |full| && |rows[c]| < |full[c]| && col == e.col && value == ValueOf(l, e)
    modifies cursor, colIdx, valCsr
    ensures Filling(l, full, Put(rows, c, e), colIdx[..], valCsr[..])
    ensures CursorsAt(full, Put(rows, c, e), cursor[..]) && Room(full, Put(rows, c, e))
  {
    FillOne(l, full, rows, c, e, colIdx[..], valCsr[..]);
    assert cursor[..][c] == cursor[c];
    colIdx[cursor[c]] := col;
    valCsr[cursor[c]] := value;
    cursor[c] := cursor[c] + 1;
  }

  lemma {:induction false} RowsRoom(l: Ldu, f: nat)
    requires l.Valid() && f <= l.NFaces()
    ensures Room(CollectedRows(l, l.NFaces()), CollectedRows(l, f))
  {
    var full, rows := CollectedRows(l, l.NFaces()), CollectedRows(l, f);
    forall c | 0 <= c < |rows| ensures |rows[c]| <= |full[c]| {
      RowGrows(l, c, f, l.NFaces());
    }
  }

  lemma {:induction false} NothingPlaced(l: Ldu, full: Rows, none: Rows, cols: seq<nat>, vals: seq<real>)
    requires |none| == |full| && |cols| == |vals| == Start(full, |full|)
    requires forall c :: 0 <= c < |none| ==> none[c] == []
    ensures Filling(l, full, none, cols, vals) && Room(full, none)
  {
    forall c | 0 <= c < |full| ensures Shows(l, none[c], Start(full, c), cols, vals) {
      StartMonotone(full, c, |full|);
    }
  }

  method PlaceDiagonal(l: Ldu, ghost full: Rows, cursor: array<nat>, colIdx: array<nat>, valCsr: array<real>)
    requires l.Valid() && cursor != colIdx && full == CollectedRows(l, l.NFaces())
    requires cursor.Length == l.n && colIdx.Length == valCsr.Length == Start(full, l.n)
    requires forall c {:trigger cursor[c]} :: 0 <= c < l.n ==> cursor[c] == Start(full, c)
    modifies cursor, colIdx, valCsr
    ensures Filling(l, full, CollectedRows(l, 0), colIdx[..], valCsr[..])
    ensures CursorsAt(full, CollectedRows(l, 0), cursor[..])
  {
    NothingPlaced(l, full, DiagonalRows(l, 0), colIdx[..], valCsr[..]);
    var c := 0;
    while c < l.n
      invariant 0 <= c <= l.n
      invariant Filling(l, full, DiagonalRows(l, c), colIdx[..], valCsr[..])
      invariant CursorsAt(full, DiagonalRows(l, c), cursor[..]) && Room(full, DiagonalRows(l, c))
    {
      RowsOfDiagonal(l, c);
      PutEntry(l, full, DiagonalRows(l, c), c, Coeff(c, Diag, c), l.diag[c], c, cursor, colIdx, valCsr);
      c := c + 1;
    }
    RowsOfDiagonal(l, l.n);
  }

  method PlaceFace(l: Ldu, ghost full: Rows, ghost rows: Rows, f: nat, cursor: array<nat>, colIdx: array<nat>,
                   valCsr: array<real>)
    requires l.Valid() && cursor != colIdx && f < l.NFaces() && |full| == l.n
    requires Filling(l, full, rows, colIdx[..], valCsr[..]) && CursorsAt(full, rows, cursor[..]) && Room(full, rows)
    requires |rows[l.own[f]]| < |full[l.own[f]]| && |rows[l.nei[f]]| < |full[l.nei[f]]|
    modifies cursor, colIdx, valCsr
    ensures var rows' := Put(Put(rows, l.own[f], Coeff(l.nei[f], Upper, f)), l.nei[f], Coeff(l.own[f], Lower, f));
      Filling(l, full, rows', colIdx[..], valCsr[..]) && CursorsAt(full, rows', cursor[..])
  {
    var o, n := l.own[f], l.nei[f];
    PutEntry(l, full, rows, o, Coeff(n, Upper, f), l.upper[f], n, cursor, colIdx, valCsr);
    PutEntry(l, full, Put(rows, o, Coeff(n, Upper, f)), n, Coeff(o, Lower, f), l.lower[f], o, cursor, colIdx, valCsr);
  }

  method PlaceFaces(l: Ldu, ghost full: Rows, cursor: array<nat>, colIdx: array<nat>, valCsr: array<real>)
    requires l.Valid() && cursor != colIdx && full == CollectedRows(l, l.NFaces())
    requires Filling(l, full, CollectedRows(l, 0), colIdx[..], valCsr[..])
    requires CursorsAt(full, CollectedRows(l, 0), cursor[..])
    modifies cursor, colIdx, valCsr
    ensures Filling(l, full, full, colIdx[..], valCsr[..])
  {
    var f := 0;
    while f < l.NFaces()
      invariant 0 <= f <= l.NFaces()
      invariant Filling(l, full, CollectedRows(l, f), colIdx[..], valCsr[..])
      invariant CursorsAt(full, CollectedRows(l, f), cursor[..])
    {
      RowsRoom(l, f);
      RowsOfFace(l, f);
      PlaceFace(l, full, CollectedRows(l, f), f, cursor, colIdx, valCsr);
      f := f + 1;
    }
  }

  // ---- sorting in place -----------------------------------------------------------------------------

  lemma {:induction false} InsertSplit(p: seq<Coeff>, e: Coeff, m: nat)
    requires 0 < m <= |p| && p[m - 1].col > e.col && Insert(p, e) == Insert(p[..m], e) + p[m..]
    ensures Insert(p, e) == Insert(p[..m - 1], e) + p[m - 1..]
  {
    assert p[..m][..m - 1] == p[..m - 1];
    assert p[m - 1..] == [p[m - 1]] + p[m..];
  }

  lemma {:induction false} InsertDone(p: seq<Coeff>, e: Coeff, m: nat)
    requires m <= |p| && (m == 0 || p[m - 1].col <= e.col) && Insert(p, e) == Insert(p[..m], e) + p[m..]
    ensures Insert(p, e) == p[..m] + [e] + p[m..]
  {
  }

  lemma {:induction false} ShowsParts(l: Ldu, a: seq<Coeff>, b: seq<Coeff>, lo: nat, cols: seq<nat>, vals: seq<real>)
    requires Shows(l, a, lo, cols, vals) && Shows(l, b, lo + |a|, cols, vals)
    ensures Shows(l, a + b, lo, cols, vals)
  {
    forall i | 0 <= i < |a + b| ensures cols[lo + i] == (a + b)[i].col && vals[lo + i] == ValueOf(l, (a + b)[i]) {
      if i >= |a| {
        assert lo + i == lo + |a| + (i - |a|);
      }
    }
  }

  /** One slot written, an entry shown there. */
  lemma {:induction false} ShowsWritten(l: Ldu, a: seq<Coeff>, lo: nat, b: seq<Coeff>, e: Coeff, cols: seq<nat>,
                                        vals: seq<real>, cols': seq<nat>, vals': seq<real>)
    requires Shows(l, a, lo, cols, vals) && Shows(l, b, lo + |a| + 1, cols, vals)
    requires lo + |a| < |cols| && cols' == cols[lo + |a| := e.col] && vals' == vals[lo + |a| := ValueOf(l, e)]
    ensures Shows(l, a + [e] + b, lo, cols', vals') && Shows(l, a, lo, cols', vals')
    ensures Shows(l, [e] + b, lo + |a|, cols', vals')
  {
    ShowsParts(l, a, [e], lo, cols', vals');
    ShowsParts(l, a + [e], b, lo, cols', vals');
    ShowsParts(l, [e], b, lo + |a|, cols', vals');
  }

  /** The arrays changed only between `lo` and `hi`. */
  ghost predicate Outside(lo: int, hi: int, cols: seq<nat>, vals: seq<real>, cols': seq<nat>, vals': seq<real>) {
    && |cols| == |vals| == |cols'| == |vals'|
    && forall i :: 0 <= i < |cols| && !(lo <= i < hi) ==> cols[i] == cols'[i] && vals[i] == vals'[i]
  }

  lemma {:induction false} ShiftUp(l: Ldu, p: seq<Coeff>, m: nat, lo: nat, cols: seq<nat>, vals: seq<real>)
    requires 0 < m <= |p| && Shows(l, p[..m], lo, cols, vals) && Shows(l, p[m..], lo + m + 1, cols, vals)
    requires lo + m < |cols|
    ensures var cols', vals' := cols[lo + m := cols[lo + m - 1]], vals[lo + m := vals[lo + m - 1]];
      Shows(l, p[..m - 1], lo, cols', vals') && Shows(l, p[m - 1..], lo + m, cols', vals')
  {
    var e := p[m - 1];
    assert p[..m][m - 1] == e && cols[lo + (m - 1)] == e.col && vals[lo + (m - 1)] == ValueOf(l, e);
    ShowsWritten(l, p[..m], lo, p[m..], e, cols, vals, cols[lo + m := e.col], vals[lo + m := ValueOf(l, e)]);
    assert p[m - 1..] == [e] + p[m..];
    assert forall i :: 0 <= i < m - 1 ==> p[..m - 1][i] == p[..m][i];
  }

  /** The entry `e` is on its way down: the first `m` entries of `p` in place, the rest one slot up. */
  ghost predicate Hole(l: Ldu, p: seq<Coeff>, e: Coeff, lo: nat, m: nat, cols: seq<nat>, vals: seq<real>) {
    && m <= |p| && lo + m < |cols|
    && Shows(l, p[..m], lo, cols, vals) && Shows(l, p[m..], lo + m + 1, cols, vals)
    && Insert(p, e) == Insert(p[..m], e) + p[m..]
  }

  lemma {:induction false} HoleOpens(l: Ldu, p: seq<Coeff>, e: Coeff, lo: nat, cols: seq<nat>, vals: seq<real>)
    requires Shows(l, p + [e], lo, cols, vals)
    ensures Hole(l, p, e, lo, |p|, cols, vals) && cols[lo + |p|] == e.col && vals[lo + |p|] == ValueOf(l, e)
  {
    assert (p + [e])[|p|] == e;
    assert forall i :: 0 <= i < |p| ==> (p + [e])[i] == p[i];
    assert p[..|p|] == p && p[|p|..] == [] && Insert(p, e) + [] == Insert(p, e);
  }

  lemma {:induction false} HoleBelow(l: Ldu, p: seq<Coeff>, e: Coeff, lo: nat, m: nat, cols: seq<nat>, vals: seq<real>)
    requires Hole(l, p, e, lo, m, cols, vals) && m > 0
    ensures cols[lo + m - 1] == p[m - 1].col
  {
    assert p[..m][m - 1] == p[m - 1] && cols[lo + (m - 1)] == p[m - 1].col;
  }

  lemma {:induction false} HoleMoves(l: Ldu, p: seq<Coeff>, e: Coeff, lo: nat, m: nat, cols: seq<nat>, vals: seq<real>)
    requires Hole(l, p, e, lo, m, cols, vals) && m > 0 && p[m - 1].col > e.col
    ensures Hole(l, p, e, lo, m - 1, cols[lo + m := cols[lo + m - 1]], vals[lo + m := vals[lo + m - 1]])
  {
    InsertSplit(p, e, m);
    ShiftUp(l, p, m, lo, cols, vals);
  }

  lemma {:induction false} HoleFills(l: Ldu, p: seq<Coeff>, e: Coeff, lo: nat, m: nat, cols: seq<nat>, vals: seq<real>)
    requires Hole(l, p, e, lo, m, cols, vals) && (m == 0 || p[m - 1].col <= e.col)
    ensures Shows(l, Insert(p, e), lo, cols[lo + m := e.col], vals[lo + m := ValueOf(l, e)])
  {
    InsertDone(p, e, m);
    ShowsWritten(l, p[..m], lo, p[m..], e, cols, vals, cols[lo + m := e.col], vals[lo + m := ValueOf(l, e)]);
  }

  /** The inner loop: the entry in slot `k` moves down to its place in the sorted slots from `lo`. */
  method MoveDown(ghost l: Ldu, ghost p: seq<Coeff>, ghost e: Coeff, lo: nat, k: nat, colIdx: array<nat>,
                  valCsr: array<real>)
    requires Shows(l, p + [e], lo, colIdx[..], valCsr[..]) && k == lo + |p|
    modifies colIdx, valCsr
    ensures Shows(l, Insert(p, e), lo, colIdx[..], valCsr[..])
    ensures Outside(lo, k + 1, old(colIdx[..]), old(valCsr[..]), colIdx[..], valCsr[..])
  {
    ghost var cols0, vals0 := colIdx[..], valCsr[..];
    HoleOpens(l, p, e, lo, cols0, vals0);
    var kc, kv := colIdx[k], valCsr[k];
    var j := k - 1;
    ghost var m := |p|;
    while j >= lo && colIdx[j] > kc
      invariant j == lo + m - 1 && 0 <= m <= |p| && kc == e.col && kv == ValueOf(l, e)
      invariant Hole(l, p, e, lo, m, colIdx[..], valCsr[..])
      invariant Outside(lo, k + 1, cols0, vals0, colIdx[..], valCsr[..])
    {
      ghost var cols, vals := colIdx[..], valCsr[..];
      HoleBelow(l, p, e, lo, m, cols, vals);
      HoleMoves(l, p, e, lo, m, cols, vals);
      OutsideWritten(lo, k + 1, cols0, vals0, cols, vals, j + 1, colIdx[j], valCsr[j]);
      colIdx[j + 1] := colIdx[j];
      valCsr[j + 1] := valCsr[j];
      assert colIdx[..] == cols[j + 1 := cols[j]] && valCsr[..] == vals[j + 1 := vals[j]];
      j, m := j - 1, m - 1;
    }
    ghost var cols, vals := colIdx[..], valCsr[..];
    if m > 0 {
      HoleBelow(l, p, e, lo, m, cols, vals);
    }
    HoleFills(l, p, e, lo, m, cols, vals);
    OutsideWritten(lo, k + 1, cols0, vals0, cols, vals, j + 1, kc, kv);
    colIdx[j + 1] := kc;
    valCsr[j + 1] := kv;
    assert colIdx[..] == cols[j + 1 := kc] && valCsr[..] == vals[j + 1 := kv];
  }

  lemma {:induction false} OutsideWritten(lo: int, hi: int, cols0: seq<nat>, vals0: seq<real>, cols: seq<nat>,
                                          vals: seq<real>, p: int, col: nat, val: real)
    requires Outside(lo, hi, cols0, vals0, cols, vals) && lo <= p < hi && 0 <= p < |cols|
    ensures Outside(lo, hi, cols0, vals0, cols[p := col], vals[p := val])
  {
  }

  /** The first `m` entries of the row sorted, the others as they were. */
  ghost predicate PartSorted(l: Ldu, row: seq<Coeff>, lo: nat, m: nat, cols: seq<nat>, vals: seq<real>) {
    m <= |row| && Shows(l, Sorted(row[..m]), lo, cols, vals) && Shows(l, row[m..], lo + m, cols, vals)
  }

  lemma {:induction false} PartOpens(l: Ldu, row: seq<Coeff>, lo: nat, cols: seq<nat>, vals: seq<real>)
    requires Shows(l, row, lo, cols, vals) && row != []
    ensures PartSorted(l, row, lo, 1, cols, vals)
  {
    SortedOne(row);
    assert forall i :: 0 <= i < |row[1..]| ==> row[1..][i] == row[i + 1] && cols[lo + (i + 1)] == row[i + 1].col;
  }

  lemma {:induction false} PartNext(l: Ldu, row: seq<Coeff>, lo: nat, m: nat, cols: seq<nat>, vals: seq<real>)
    requires PartSorted(l, row, lo, m, cols, vals) && m < |row|
    ensures Shows(l, Sorted(row[..m]) + [row[m]], lo, cols, vals)
  {
    assert row[m..][0] == row[m];
    assert cols[lo + m + 0] == row[m].col && vals[lo + m + 0] == ValueOf(l, row[m]);
    ShowsParts(l, Sorted(row[..m]), [row[m]], lo, cols, vals);
  }

  lemma {:induction false} PartGrows(l: Ldu, row: seq<Coeff>, lo: nat, m: nat, cols: seq<nat>, vals: seq<real>,
                                     cols': seq<nat>, vals': seq<real>)
    requires PartSorted(l, row, lo, m, cols, vals) && m < |row|
    requires Shows(l, Insert(Sorted(row[..m]), row[m]), lo, cols', vals')
    requires Outside(lo, lo + m + 1, cols, vals, cols', vals')
    ensures PartSorted(l, row, lo, m + 1, cols', vals')
  {
    assert row[..m + 1][..m] == row[..m];
    var rest := row[m + 1..];
    forall i | 0 <= i < |rest|
      ensures cols'[lo + m + 1 + i] == rest[i].col && vals'[lo + m + 1 + i] == ValueOf(l, rest[i])
    {
      assert rest[i] == row[m..][i + 1] && cols[lo + m + (i + 1)] == rest[i].col;
    }
  }

  /** One row sorted in place. */
  method SortRow(ghost l: Ldu, ghost row: seq<Coeff>, lo: nat, hi: nat, colIdx: array<nat>, valCsr: array<real>)
    requires Shows(l, row, lo, colIdx[..], valCsr[..]) && hi == lo + |row| && row != []
    modifies colIdx, valCsr
    ensures Shows(l, Sorted(row), lo, colIdx[..], valCsr[..])
    ensures Outside(lo, hi, old(colIdx[..]), old(valCsr[..]), colIdx[..], valCsr[..])
  {
    var k := lo + 1;
    PartOpens(l, row, lo, colIdx[..], valCsr[..]);
    while k < hi
      invariant lo < k <= hi
      invariant PartSorted(l, row, lo, k - lo, colIdx[..], valCsr[..])
      invariant Outside(lo, k, old(colIdx[..]), old(valCsr[..]), colIdx[..], valCsr[..])
    {
      ghost var cols, vals := colIdx[..], valCsr[..];
      PartNext(l, row, lo, k - lo, cols, vals);
      MoveDown(l, Sorted(row[..k - lo]), row[k - lo], lo, k, colIdx, valCsr);
      PartGrows(l, row, lo, k - lo, cols, vals, colIdx[..], valCsr[..]);
      k := k + 1;
    }
    assert row[..|row|] == row;
  }

  lemma {:induction false} SortedOne(row: seq<Coeff>)
    requires row != []
    ensures Sorted(row[..1]) == row[..1]
  {
    var one := row[..1];
    assert one[..0] == [] && Sorted(one[..0]) == [];
    assert Insert([], one[0]) == [] + [one[0]];
  }

  /** The first `c` rows sorted. */
  function SortedTo(rows: Rows, c: nat): (r: Rows)
    ensures |r| == |rows| && forall d :: 0 <= d < |rows| ==> r[d] == if d < c then Sorted(rows[d]) else rows[d]
  {
    seq(|rows|, d requires 0 <= d < |rows| => if d < c then Sorted(rows[d]) else rows[d])
  }

  lemma {:induction false} ShowsKept(l: Ldu, row: seq<Coeff>, at: nat, lo: nat, hi: nat, cols: seq<nat>,
                                     vals: seq<real>, cols': seq<nat>, vals': seq<real>)
    requires Shows(l, row, at, cols, vals) && Outside(lo, hi, cols, vals, cols', vals')
    requires (at + |row| <= lo || hi <= at)
    ensures Shows(l, row, at, cols', vals')
  {
  }

  lemma {:induction false} OneRowSorted(l: Ldu, full: Rows, c: nat, cols: seq<nat>, vals: seq<real>, cols': seq<nat>,
                                        vals': seq<real>)
    requires Filling(l, full, SortedTo(full, c), cols, vals) && c < |full|
    requires Shows(l, Sorted(full[c]), Start(full, c), cols', vals')
    requires Outside(Start(full, c), Start(full, c) + |full[c]|, cols, vals, cols', vals')
    ensures Filling(l, full, SortedTo(full, c + 1), cols', vals')
  {
    var rows, rows' := SortedTo(full, c), SortedTo(full, c + 1);
    forall d | 0 <= d < |rows'| ensures Shows(l, rows'[d], Start(full, d), cols', vals') {
      if d != c {
        if d < c { StartMonotone(full, d, c); } else { StartMonotone(full, c, d); }
        assert Shows(l, rows[d], Start(full, d), cols, vals);
        ShowsKept(l, rows[d], Start(full, d), Start(full, c), Start(full, c) + |full[c]|, cols, vals, cols', vals');
      }
    }
  }

  method SortRows(ghost l: Ldu, ghost full: Rows, n: nat, rowPtr: array<nat>, colIdx: array<nat>, valCsr: array<real>)
    requires Filling(l, full, full, colIdx[..], valCsr[..]) && n == |full| && rowPtr != colIdx && rowPtr.Length == n + 1
    requires forall c {:trigger rowPtr[c]} :: 0 <= c <= n ==> rowPtr[c] == Start(full, c)
    requires forall c :: 0 <= c < n ==> full[c] != []
    modifies colIdx, valCsr
    ensures Filling(l, full, SortedTo(full, n), colIdx[..], valCsr[..])
  {
    assert SortedTo(full, 0) == full;
    var c := 0;
    while c < n
      invariant 0 <= c <= n
      invariant Filling(l, full, SortedTo(full, c), colIdx[..], valCsr[..])
    {
      assert SortedTo(full, c)[c] == full[c];
      ghost var cols, vals := colIdx[..], valCsr[..];
      SortRow(l, full[c], rowPtr[c], rowPtr[c + 1], colIdx, valCsr);
      OneRowSorted(l, full, c, cols, vals, colIdx[..], valCsr[..]);
      c := c + 1;
    }
  }

  lemma {:induction false} FilledIsCsr(l: Ldu, rowPtr: seq<nat>, cols: seq<nat>, vals: seq<real>)
    requires l.Valid() && |rowPtr| == l.n + 1
    requires var full := CollectedRows(l, l.NFaces());
      && (forall c {:trigger rowPtr[c]} :: 0 <= c <= l.n ==> rowPtr[c] == Start(full, c))
      && Filling(l, full, SortedTo(full, l.n), cols, vals)
    ensures IsCsr(l, SortedRows(l), rowPtr, cols, vals) && |cols| == l.n + 2 * l.NFaces()
  {
    var full, rows := CollectedRows(l, l.NFaces()), SortedRows(l);
    assert SortedTo(full, l.n) == rows;
    CountStored(l, l.NFaces());
    forall c | 0 <= c <= l.n ensures Start(rows, c) == Start(full, c) {
      StartByLengths(rows, full, c);
    }
    forall c | 0 <= c < l.n ensures Shows(l, rows[c], rowPtr[c], cols, vals) {
      assert Shows(l, rows[c], Start(full, c), cols, vals);
    }
  }

  /** Every row in column order, its slots behind those of the rows before it, `n + 2 nFaces` slots in all. */
  method BuildCsr(l: Ldu) returns (rowPtr: array<nat>, colIdx: array<nat>, valCsr: array<real>)
    requires l.Valid()
    ensures fresh(rowPtr) && fresh(colIdx) && fresh(valCsr)
    ensures IsCsr(l, SortedRows(l), rowPtr[..], colIdx[..], valCsr[..])
    ensures colIdx.Length == l.n + 2 * l.NFaces()
  {
    ghost var full := CollectedRows(l, l.NFaces());
    var count := CountEntries(l);
    var cursor;
    rowPtr, cursor := StartRows(full, count);
    var nnz := rowPtr[l.n];
    colIdx := new nat[nnz](_ => 0);
    valCsr := new real[nnz](_ => 0.0);
    PlaceDiagonal(l, full, cursor, colIdx, valCsr);
    PlaceFaces(l, full, cursor, colIdx, valCsr);
    SortRows(l, full, l.n, rowPtr, colIdx, valCsr);
    FilledIsCsr(l, rowPtr[..], colIdx[..], valCsr[..]);
  }
}
