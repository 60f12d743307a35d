/** The two compressed-row converters against each other, and the cache's guard against a change of addressing. */
module Converters {
  import opened Sums
  import opened Vectors
  import opened Ldu
  import opened CsrRows
  import opened CsrLayout
  import opened AmgxCache

  /** The row products of either converter's arrays are the owner/neighbour product. */
  lemma {:induction false} ArraysMultiply(l: Ldu, rows: Rows, rowPtr: seq<nat>, cols: seq<nat>, vals: seq<real>,
                                          x: Vector, c: nat)
    requires l.Valid() && RowsOf(l, rows) && IsCsr(l, rows, rowPtr, cols, vals) && c < l.n
    ensures rowPtr[c] <= rowPtr[c + 1] <= |cols| == |vals|
    ensures SlotDot(cols, vals, rowPtr[c], rowPtr[c + 1], x) == At(l.Amul(x), c)
  {
    RowAt(l, rows, c, rowPtr, cols, vals);
    StartMonotone(rows, c, |rows|);
    SlotDotIsRowDot(l, rows[c], rowPtr[c], |rows[c]|, cols, vals, x);
    assert rows[c][..|rows[c]|] == rows[c];
    RowsMultiply(l, rows, c, x);
  }

  /** So what the building loops leave multiplies like the matrix, row for row. */
  lemma {:induction false} BuiltMultiplies(l: Ldu, rowPtr: seq<nat>, cols: seq<nat>, vals: seq<real>, x: Vector, c: nat)
    requires l.Valid() && IsCsr(l, SortedRows(l), rowPtr, cols, vals) && c < l.n
    ensures rowPtr[c] <= rowPtr[c + 1] <= |cols| == |vals|
    ensures SlotDot(cols, vals, rowPtr[c], rowPtr[c + 1], x) == At(l.Amul(x), c)
  {
    SortedRowsOf(l);
    ArraysMultiply(l, SortedRows(l), rowPtr, cols, vals, x, c);
  }

  /** The sum over the slots from `lo` up to `hi`, in terms of the arrays alone. */
  function SlotDot(cols: seq<nat>, vals: seq<real>, lo: nat, hi: nat, x: Vector): real
    requires lo <= hi <= |cols| == |vals|
    decreases hi
  {
    if lo == hi then 0.0 else SlotDot(cols, vals, lo, hi - 1, x) + vals[hi - 1] * At(x, cols[hi - 1])
  }

  lemma {:induction false} SlotDotIsRowDot(l: Ldu, row: seq<Coeff>, lo: nat, k: nat, cols: seq<nat>, vals: seq<real>,
                                           x: Vector)
    requires Shows(l, row, lo, cols, vals) && k <= |row|
    ensures SlotDot(cols, vals, lo, lo + k, x) == RowDot(l, row[..k], x)
  {
    if k == 0 {
      assert row[..0] == [];
    } else {
      SlotDotIsRowDot(l, row, lo, k - 1, cols, vals, x);
      ProductRead(l, row, k - 1, lo, cols, vals, x);
      SameProduct(vals[lo + (k - 1)], At(x, cols[lo + (k - 1)]), vals[lo + k - 1], At(x, cols[lo + k - 1]));
    }
  }

  /** Every arrangement that keeps each row's coefficients and sorts them by column is the same one. */
  ghost predicate OrderForced(l: Ldu)
    requires l.Valid()
  {
    forall rows {:trigger RowsOf(l, rows)} ::
      RowsOf(l, rows) && (forall c :: 0 <= c < l.n ==> SortedByColumn(rows[c])) ==> rows == SortedRows(l)
  }

  lemma {:induction false} OnePairForces(l: Ldu, rows: Rows)
    requires l.Valid() && OneFacePerPair(l)
    requires RowsOf(l, rows) && forall c :: 0 <= c < l.n ==> SortedByColumn(rows[c])
    ensures rows == SortedRows(l)
  {
    forall c | 0 <= c < l.n ensures rows[c] == SortedRows(l)[c] {
      assert multiset(rows[c]) == multiset(RowEntries(l, c, l.NFaces()));
      RowOrderUnique(l, c, rows[c]);
    }
  }

  lemma {:induction false} SwapEqualColumns(row: seq<Coeff>, i: nat, j: nat)
    requires i < j < |row| && row[i].col == row[j].col && SortedByColumn(row)
    ensures SortedByColumn(row[i := row[j]][j := row[i]]) && multiset(row[i := row[j]][j := row[i]]) == multiset(row)
  {
  }

  lemma {:induction false} TwinsInRow(l: Ldu, f: nat, g: nat) returns (i: nat, j: nat)
    requires l.Valid() && f < g < l.NFaces()
    requires (l.own[f] == l.own[g] && l.nei[f] == l.nei[g]) || (l.own[f] == l.nei[g] && l.nei[f] == l.own[g])
    ensures var row := SortedRows(l)[l.own[f]]; i < j < |row| && row[i].col == row[j].col && row[i] != row[j]
  {
    var c := l.own[f];
    var row := RowEntries(l, c, l.NFaces());
    SortedSorts(row);
    var d := Coeff(l.nei[f], Upper, f);
    var e := if l.own[g] == c then Coeff(l.nei[g], Upper, g) else Coeff(l.own[g], Lower, g);
    var a := PlaceInRow(l, c, Sorted(row), d);
    var b := PlaceInRow(l, c, Sorted(row), e);
    i, j := if a < b then a else b, if a < b then b else a;
  }

  /** The sort leaves no choice exactly when no two faces join the same two cells. */
  lemma {:induction false} OrderForcedExactly(l: Ldu)
    requires l.Valid()
    ensures OrderForced(l) <==> OneFacePerPair(l)
  {
    if OneFacePerPair(l) {
      forall rows | RowsOf(l, rows) && (forall c :: 0 <= c < l.n ==> SortedByColumn(rows[c]))
        ensures rows == SortedRows(l)
      {
        OnePairForces(l, rows);
      }
    } else {
      var f, g :| 0 <= f < g < l.NFaces() &&
        ((l.own[f] == l.own[g] && l.nei[f] == l.nei[g]) || (l.own[f] == l.nei[g] && l.nei[f] == l.own[g]));
      OtherOrder(l, f, g);
    }
  }

  lemma {:induction false} OtherRow(l: Ldu, c: nat, row: seq<Coeff>)
    requires l.Valid() && c < l.n && row != SortedRows(l)[c]
    requires SortedByColumn(row) && multiset(row) == multiset(RowEntries(l, c, l.NFaces()))
    ensures !OrderForced(l)
  {
    var rows := SortedRows(l)[c := row];
    forall d | 0 <= d < l.n
      ensures SortedByColumn(rows[d]) && multiset(rows[d]) == multiset(RowEntries(l, d, l.NFaces()))
    {
      if d != c {
        SortedSorts(RowEntries(l, d, l.NFaces()));
      }
    }
    assert RowsOf(l, rows);
    assert rows[c] != SortedRows(l)[c];
  }

  lemma {:induction false} OtherOrder(l: Ldu, f: nat, g: nat)
    requires l.Valid() && f < g < l.NFaces()
    requires (l.own[f] == l.own[g] && l.nei[f] == l.nei[g]) || (l.own[f] == l.nei[g] && l.nei[f] == l.own[g])
    ensures !OrderForced(l)
  {
    var c := l.own[f];
    var sorted := SortedRows(l)[c];
    var i, j := TwinsInRow(l, f, g);
    SortedSorts(RowEntries(l, c, l.NFaces()));
    SwapEqualColumns(sorted, i, j);
    var swapped := sorted[i := sorted[j]][j := sorted[i]];
    assert swapped[i] == sorted[j];
    OtherRow(l, c, swapped);
  }

  /** Without twin faces the two converters give the same three arrays. */
  lemma {:induction false} ConvertersAgree(l: Ldu, rows: Rows, rowPtr: seq<nat>, colIdx: seq<nat>, val: seq<real>,
                                           diagPos: seq<nat>, upperPos: seq<nat>, lowerPos: seq<nat>,
                                           rowPtr': seq<nat>, colIdx': seq<nat>, valCsr: seq<real>)
    requires l.Valid() && OneFacePerPair(l)
    requires Cached(l, rows, rowPtr, colIdx, val, diagPos, upperPos, lowerPos)
    requires IsCsr(l, SortedRows(l), rowPtr', colIdx', valCsr)
    ensures rowPtr == rowPtr' && colIdx == colIdx' && val == valCsr
  {
    OnePairForces(l, rows);
    OneLayout(l, rows, rowPtr, colIdx, val, rowPtr', colIdx', valCsr);
  }

  /** Values replaced in an old structure are the values a rebuild in the same row order would give. */
  lemma {:induction false} ReplacedIsRebuilt(l: Ldu, rows: Rows, rowPtr: seq<nat>, colIdx: seq<nat>, val: seq<real>,
                                             diagPos: seq<nat>, upperPos: seq<nat>, lowerPos: seq<nat>,
                                             rowPtr': seq<nat>, colIdx': seq<nat>, val': seq<real>,
                                             diagPos': seq<nat>, upperPos': seq<nat>, lowerPos': seq<nat>)
    requires Cached(l, rows, rowPtr, colIdx, val, diagPos, upperPos, lowerPos)
    requires Cached(l, rows, rowPtr', colIdx', val', diagPos', upperPos', lowerPos')
    ensures rowPtr == rowPtr' && colIdx == colIdx' && val == val' && diagPos == diagPos' && upperPos == upperPos'
    ensures lowerPos == lowerPos'
  {
    OneLayout(l, rows, rowPtr, colIdx, val, rowPtr', colIdx', val');
    SamePositions(l, Flat(rows, l.n), diagPos, upperPos, lowerPos, diagPos', upperPos', lowerPos');
  }

  lemma {:induction false} SamePositions(l: Ldu, flat: seq<Coeff>, diagPos: seq<nat>, upperPos: seq<nat>,
                                         lowerPos: seq<nat>, diagPos': seq<nat>, upperPos': seq<nat>,
                                         lowerPos': seq<nat>)
    requires l.Valid() && Positions(l, flat, diagPos, upperPos, lowerPos)
    requires Positions(l, flat, diagPos', upperPos', lowerPos')
    ensures diagPos == diagPos' && upperPos == upperPos' && lowerPos == lowerPos'
  {
    forall i | 0 <= i < l.n ensures diagPos[i] == diagPos'[i] {
      assert Slot(diagPos', upperPos', lowerPos', flat[diagPos[i]]) == diagPos[i];
    }
    forall f | 0 <= f < l.NFaces() ensures upperPos[f] == upperPos'[f] && lowerPos[f] == lowerPos'[f] {
      assert Slot(diagPos', upperPos', lowerPos', flat[upperPos[f]]) == upperPos[f];
      assert Slot(diagPos', upperPos', lowerPos', flat[lowerPos[f]]) == lowerPos[f];
    }
  }

  // ---- what the guard lets through ------------------------------------------------------------------

  /** Whatever the new coefficients, the old structure with them multiplies like the new matrix. */
  ghost predicate GuardSafe(m: Ldu, l: Ldu)
    requires m.Valid() && l.Valid()
  {
    forall k: Ldu, x: Vector {:trigger Recoefficient(m, k).Amul(x)} ::
      k.Valid() && k.n == l.n && k.own == l.own && k.nei == l.nei && |x| == l.n ==>
        Recoefficient(m, k).Valid() && Recoefficient(m, k).Amul(x) == k.Amul(x)
  }

  /** Only face `f` carries a coefficient, its upper one. */
  function OneUpper(l: Ldu, f: nat): Ldu {
    Ldu(l.n, l.own, l.nei, Zeros(l.n), Unit(l.NFaces(), f), Zeros(l.NFaces()))
  }

  lemma {:induction false} OneUpperAt(m: Ldu, f: nat, c: nat, x: Vector)
    requires m.Valid() && f < m.NFaces() && c < m.n && |x| == m.n
    ensures OneUpper(m, f).Valid()
    ensures At(OneUpper(m, f).Amul(x), c) == if m.own[f] == c then At(x, m.nei[f]) else 0.0
  {
    var k := OneUpper(m, f);
    AmulAt(k, c, x);
    SumZero(k.NFaces(), k.LowerTerm(x, c));
    SumOnly(k.NFaces(), k.UpperTerm(x, c), f);
  }

  /** The size check is enough exactly when the addressing did not change. */
  lemma {:induction false} GuardExact(m: Ldu, l: Ldu)
    requires m.Valid() && l.Valid() && m.n == l.n && m.NFaces() == l.NFaces()
    ensures GuardSafe(m, l) <==> m.own == l.own && m.nei == l.nei
  {
    if m.own == l.own && m.nei == l.nei {
      forall k: Ldu | k.n == l.n && k.own == l.own && k.nei == l.nei ensures Recoefficient(m, k) == k {
      }
    } else {
      var f :| 0 <= f < l.NFaces() && (m.own[f] != l.own[f] || m.nei[f] != l.nei[f]);
      GuardFails(m, l, f);
    }
  }

  lemma {:induction false} GuardFails(m: Ldu, l: Ldu, f: nat)
    requires m.Valid() && l.Valid() && m.n == l.n && m.NFaces() == l.NFaces() && f < l.NFaces()
    requires m.own[f] != l.own[f] || m.nei[f] != l.nei[f]
    ensures !GuardSafe(m, l)
  {
    var k, x, c := OneUpper(l, f), Unit(l.n, m.nei[f]), m.own[f];
    OneUpperAt(m, f, c, x);
    OneUpperAt(l, f, c, x);
    assert Recoefficient(m, k) == OneUpper(m, f);
    assert At(Recoefficient(m, k).Amul(x), c) != At(k.Amul(x), c);
  }

  /** Two cells of three joined by one face, then two others: same sizes, other matrix. */
  lemma {:induction false} StaleAddressing()
    ensures var m := Ldu(3, [0], [1], [0.0, 0.0, 0.0], [1.0], [1.0]);
            var l := Ldu(3, [0], [2], [0.0, 0.0, 0.0], [1.0], [1.0]);
      m.Valid() && l.Valid() && m.NFaces() == l.NFaces() && !GuardSafe(m, l)
  {
    GuardFails(Ldu(3, [0], [1], [0.0, 0.0, 0.0], [1.0], [1.0]), Ldu(3, [0], [2], [0.0, 0.0, 0.0], [1.0], [1.0]), 0);
  }
}
