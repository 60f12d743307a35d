/** What a compressed-row form of an owner/neighbour matrix has to hold, row by row. */
module CsrRows {
  import opened Sums
  import opened Vectors
  import opened Ldu

  /** Where a coefficient comes from: the diagonal of a cell, or the upper or lower one of a face. */
  datatype Kind = Diag | Upper | Lower

  /** One stored coefficient: its column and its origin. */
  datatype Coeff = Coeff(col: nat, kind: Kind, idx: nat)

  /** The coefficient an entry stands for. */
  function ValueOf(l: Ldu, e: Coeff): real {
    match e.kind
    case Diag => At(l.diag, e.idx)
    case Upper => At(l.upper, e.idx)
    case Lower => At(l.lower, e.idx)
  }

  /** What face `f` adds to row `c`. */
  function FaceEntries(l: Ldu, c: nat, f: nat): seq<Coeff>
    requires l.Valid() && f < l.NFaces()
  {
    if l.own[f] == c then [Coeff(l.nei[f], Upper, f)]
    else if l.nei[f] == c then [Coeff(l.own[f], Lower, f)]
    else []
  }

  /** Row `c` as both converters collect it from the diagonal and the first `f` faces. */
  function RowEntries(l: Ldu, c: nat, f: nat): (r: seq<Coeff>)
    requires l.Valid() && c < l.n && f <= l.NFaces()
    ensures |r| > 0
    ensures forall e :: e in r ==> InRow(l, c, e)
  {
    if f == 0 then [Coeff(c, Diag, c)] else RowEntries(l, c, f - 1) + FaceEntries(l, c, f - 1)
  }

  /** Coeff `e` is one of the coefficients of row `c`. */
  predicate InRow(l: Ldu, c: nat, e: Coeff)
    requires l.Valid()
  {
    match e.kind
    case Diag => e.idx == c < l.n && e.col == c
    case Upper => e.idx < l.NFaces() && l.own[e.idx] == c && e.col == l.nei[e.idx]
    case Lower => e.idx < l.NFaces() && l.nei[e.idx] == c && e.col == l.own[e.idx]
  }

  lemma RowHolds(l: Ldu, c: nat, f: nat, e: Coeff)
    requires l.Valid() && c < l.n && f <= l.NFaces() && InRow(l, c, e)
    ensures e in RowEntries(l, c, f) <==> e.kind.Diag? || e.idx < f
  {
  }

  lemma RowDistinct(l: Ldu, c: nat, f: nat)
    requires l.Valid() && c < l.n && f <= l.NFaces()
    ensures forall i, j :: 0 <= i < j < |RowEntries(l, c, f)| ==> RowEntries(l, c, f)[i] != RowEntries(l, c, f)[j]
  {
    if f > 0 {
      RowDistinct(l, c, f - 1);
      if FaceEntries(l, c, f - 1) != [] {
        RowHolds(l, c, f - 1, FaceEntries(l, c, f - 1)[0]);
      }
    }
  }

  lemma RowGrows(l: Ldu, c: nat, f: nat, g: nat)
    requires l.Valid() && c < l.n && f <= g <= l.NFaces()
    ensures |RowEntries(l, c, f)| + (if f < g && FaceEntries(l, c, f) != [] then 1 else 0) <= |RowEntries(l, c, g)|
    decreases g - f
  {
    if f < g {
      RowGrows(l, c, f, g - 1);
    }
  }

  // ---- the product by rows --------------------------------------------------------------------------

  /** What one stored entry adds to its row's product. */
  function Term(l: Ldu, e: Coeff, x: Vector): real {
    ValueOf(l, e) * At(x, e.col)
  }

  /** The row loop of a compressed-row product. */
  function RowDot(l: Ldu, row: seq<Coeff>, x: Vector): real {
    if row == [] then 0.0 else RowDot(l, row[..|row| - 1], x) + Term(l, row[|row| - 1], x)
  }

  lemma {:induction false} RowDotAppend(l: Ldu, row: seq<Coeff>, e: Coeff, x: Vector)
    ensures RowDot(l, row + [e], x) == RowDot(l, row, x) + Term(l, e, x)
  {
    assert (row + [e])[..|row|] == row;
  }

  lemma {:induction false} TermOfFace(l: Ldu, c: nat, f: nat, x: Vector)
    requires l.Valid() && f < l.NFaces()
    ensures (if FaceEntries(l, c, f) == [] then 0.0 else Term(l, FaceEntries(l, c, f)[0], x)) ==
      l.LowerTerm(x, c)(f) + l.UpperTerm(x, c)(f)
  {
    if l.own[f] == c {
      SameProduct(At(l.upper, f), At(x, l.nei[f]), l.upper[f], At(x, l.nei[f]));
    } else if l.nei[f] == c {
      SameProduct(At(l.lower, f), At(x, l.own[f]), l.lower[f], At(x, l.own[f]));
    }
  }

  lemma {:induction false} RowDotOfFace(l: Ldu, c: nat, f: nat, x: Vector)
    requires l.Valid() && c < l.n && 0 < f <= l.NFaces()
    ensures RowDot(l, RowEntries(l, c, f), x) ==
      RowDot(l, RowEntries(l, c, f - 1), x) + l.LowerTerm(x, c)(f - 1) + l.UpperTerm(x, c)(f - 1)
  {
    TermOfFace(l, c, f - 1, x);
    var row, more := RowEntries(l, c, f - 1), FaceEntries(l, c, f - 1);
    if more == [] {
      assert RowEntries(l, c, f) == row;
    } else {
      assert RowEntries(l, c, f) == row + [more[0]];
      RowDotAppend(l, row, more[0], x);
    }
  }

  lemma {:induction false} RowDotGathers(l: Ldu, c: nat, f: nat, x: Vector, d: real)
    requires l.Valid() && c < l.n && f <= l.NFaces() && d == RowDot(l, RowEntries(l, c, 0), x)
    ensures RowDot(l, RowEntries(l, c, f), x) == d + Sum(f, l.LowerTerm(x, c)) + Sum(f, l.UpperTerm(x, c))
  {
    if f > 0 {
      RowDotGathers(l, c, f - 1, x, d);
      RowDotOfFace(l, c, f, x);
    }
  }

  lemma {:induction false} DiagonalDot(l: Ldu, c: nat, x: Vector)
    requires l.Valid() && c < l.n
    ensures RowDot(l, RowEntries(l, c, 0), x) == l.diag[c] * At(x, c)
  {
    RowDotAppend(l, [], Coeff(c, Diag, c), x);
    assert [] + [Coeff(c, Diag, c)] == RowEntries(l, c, 0);
    SameProduct(At(l.diag, c), At(x, c), l.diag[c], At(x, c));
  }

  /** A row's product is the diagonal term plus what each face gathers into the row. */
  lemma {:induction false} RowDotIsAmul(l: Ldu, c: nat, f: nat, x: Vector)
    requires l.Valid() && c < l.n && f <= l.NFaces()
    ensures RowDot(l, RowEntries(l, c, f), x) ==
      l.diag[c] * At(x, c) + Sum(f, l.LowerTerm(x, c)) + Sum(f, l.UpperTerm(x, c))
  {
    DiagonalDot(l, c, x);
    RowDotGathers(l, c, f, x, RowDot(l, RowEntries(l, c, 0), x));
  }

  // ---- sorting a row --------------------------------------------------------------------------------

  predicate SortedByColumn(row: seq<Coeff>) {
    forall i, j :: 0 <= i < j < |row| ==> row[i].col <= row[j].col
  }

  /** `e` put into a sorted row behind the entries with a column not above its own. */
  function Insert(row: seq<Coeff>, e: Coeff): (r: seq<Coeff>)
    ensures |r| == |row| + 1
  {
    if row == [] || row[|row| - 1].col <= e.col then row + [e]
    else Insert(row[..|row| - 1], e) + [row[|row| - 1]]
  }

  /** The row in column order, equal columns in the order they were collected. */
  function Sorted(row: seq<Coeff>): (r: seq<Coeff>)
    ensures |r| == |row|
  {
    if row == [] then [] else Insert(Sorted(row[..|row| - 1]), row[|row| - 1])
  }

  lemma {:induction false} InsertKeeps(row: seq<Coeff>, e: Coeff)
    ensures multiset(Insert(row, e)) == multiset(row) + multiset{e}
  {
    if row != [] && row[|row| - 1].col > e.col {
      InsertKeeps(row[..|row| - 1], e);
      assert row == row[..|row| - 1] + [row[|row| - 1]];
    }
  }

  lemma {:induction false} InsertSorts(row: seq<Coeff>, e: Coeff)
    requires SortedByColumn(row)
    ensures SortedByColumn(Insert(row, e))
  {
    if row != [] && row[|row| - 1].col > e.col {
      var front, last := row[..|row| - 1], row[|row| - 1];
      InsertSorts(front, e);
      InsertKeeps(front, e);
      forall i | 0 <= i < |front| + 1 ensures Insert(front, e)[i].col <= last.col {
        assert Insert(front, e)[i] in multiset(front) + multiset{e};
      }
    }
  }

  lemma {:induction false} SortedSorts(row: seq<Coeff>)
    ensures SortedByColumn(Sorted(row)) && multiset(Sorted(row)) == multiset(row)
  {
    if row != [] {
      SortedSorts(row[..|row| - 1]);
      InsertSorts(Sorted(row[..|row| - 1]), row[|row| - 1]);
      InsertKeeps(Sorted(row[..|row| - 1]), row[|row| - 1]);
      assert row == row[..|row| - 1] + [row[|row| - 1]];
    }
  }

  /** The row without its entry `k`. */
  function Without(row: seq<Coeff>, k: nat): (r: seq<Coeff>)
    requires k < |row|
    ensures |r| == |row| - 1
  {
    row[..k] + row[k + 1..]
  }

  lemma {:induction false} WithoutTakesOne(row: seq<Coeff>, k: nat)
    requires k < |row|
    ensures multiset(row) == multiset(Without(row, k)) + multiset{row[k]}
  {
    assert row == row[..k] + [row[k]] + row[k + 1..];
  }

  lemma {:induction false} WithoutLast(row: seq<Coeff>, row': seq<Coeff>, k: nat)
    requires multiset(row) == multiset(row') && k < |row'| && |row| > 0 && row[|row| - 1] == row'[k]
    ensures multiset(row[..|row| - 1]) == multiset(Without(row', k))
  {
    WithoutTakesOne(row', k);
    WithoutTakesOne(row, |row| - 1);
    assert Without(row, |row| - 1) == row[..|row| - 1];
    var one := multiset{row'[k]};
    assert multiset(row[..|row| - 1]) == multiset(row) - one;
    assert multiset(Without(row', k)) == multiset(row') - one;
  }

  lemma {:induction false} SomePlace(row: seq<Coeff>, row': seq<Coeff>, i: nat) returns (k: nat)
    requires multiset(row) == multiset(row') && i < |row|
    ensures k < |row'| && row'[k] == row[i]
  {
    assert row[i] in multiset(row');
    k :| k < |row'| && row'[k] == row[i];
  }

  lemma {:induction false} SameLength(row: seq<Coeff>, row': seq<Coeff>)
    requires multiset(row) == multiset(row')
    ensures |row| == |row'|
  {
    assert |row| == |multiset(row)|;
  }

  lemma {:induction false} RowDotTakeOut(l: Ldu, row: seq<Coeff>, k: nat, x: Vector)
    requires k < |row|
    ensures RowDot(l, row, x) == RowDot(l, Without(row, k), x) + Term(l, row[k], x)
    decreases |row|
  {
    var n := |row| - 1;
    if k == n {
      assert Without(row, k) == row[..n];
    } else {
      RowDotTakeOut(l, row[..n], k, x);
      assert Without(row, k) == Without(row[..n], k) + [row[n]];
      RowDotAppend(l, Without(row[..n], k), row[n], x);
    }
  }

  /** Reordering a row does not change its product. */
  lemma {:induction false} RowDotReordered(l: Ldu, row: seq<Coeff>, row': seq<Coeff>, x: Vector)
    requires multiset(row) == multiset(row')
    ensures RowDot(l, row, x) == RowDot(l, row', x)
    decreases |row|
  {
    SameLength(row, row');
    if row != [] {
      var k := SomePlace(row, row', |row| - 1);
      RowDotTakeOut(l, row', k, x);
      WithoutLast(row, row', k);
      RowDotReordered(l, row[..|row| - 1], Without(row', k), x);
    }
  }

  lemma {:induction false} SortedSameLast(row: seq<Coeff>, row': seq<Coeff>)
    requires SortedByColumn(row) && SortedByColumn(row') && multiset(row) == multiset(row')
    requires forall i, j :: 0 <= i < j < |row| ==> row[i].col != row[j].col
    requires |row| == |row'| > 0
    ensures row[|row| - 1] == row'[|row| - 1]
  {
    var n := |row| - 1;
    var i := SomePlace(row, row', n);
    var j := SomePlace(row', row, n);
    assert i < n ==> row'[i].col <= row'[n].col;
    assert j < n ==> row[j].col < row[n].col;
  }

  /** With distinct columns there is only one sorted order. */
  lemma {:induction false} SortedUnique(row: seq<Coeff>, row': seq<Coeff>)
    requires SortedByColumn(row) && SortedByColumn(row') && multiset(row) == multiset(row')
    requires forall i, j :: 0 <= i < j < |row| ==> row[i].col != row[j].col
    ensures row == row'
    decreases |row|
  {
    SameLength(row, row');
    if row != [] {
      var n := |row| - 1;
      SortedSameLast(row, row');
      WithoutLast(row, row', n);
      assert Without(row', n) == row'[..n];
      SortedUnique(row[..n], row'[..n]);
      assert row == row[..n] + [row[n]] && row' == row'[..n] + [row'[n]];
    }
  }

  /** At most one face joins any two cells. */
  predicate OneFacePerPair(l: Ldu)
    requires l.Valid()
  {
    forall f, g :: 0 <= f < g < l.NFaces() ==>
      !(l.own[f] == l.own[g] && l.nei[f] == l.nei[g]) && !(l.own[f] == l.nei[g] && l.nei[f] == l.own[g])
  }

  lemma DistinctColumns(l: Ldu, c: nat, d: Coeff, e: Coeff)
    requires l.Valid() && OneFacePerPair(l) && InRow(l, c, d) && InRow(l, c, e) && d.col == e.col
    ensures d == e
  {
  }

  lemma {:induction false} ColumnsDistinct(l: Ldu, c: nat)
    requires l.Valid() && OneFacePerPair(l) && c < l.n
    ensures forall i, j :: 0 <= i < j < |RowEntries(l, c, l.NFaces())| ==>
      RowEntries(l, c, l.NFaces())[i].col != RowEntries(l, c, l.NFaces())[j].col
  {
    var row := RowEntries(l, c, l.NFaces());
    RowDistinct(l, c, l.NFaces());
    forall i, j | 0 <= i < j < |row| ensures row[i].col != row[j].col {
      assert row[i] in row && row[j] in row;
      if row[i].col == row[j].col {
        DistinctColumns(l, c, row[i], row[j]);
      }
    }
  }

  /** Distinct entries stay distinct in another order. */
  lemma {:induction false} StillApart(row: seq<Coeff>, row': seq<Coeff>)
    requires multiset(row) == multiset(row') && forall i, j :: 0 <= i < j < |row| ==> row[i] != row[j]
    ensures forall i, j :: 0 <= i < j < |row'| ==> row'[i] != row'[j]
    decreases |row|
  {
    SameLength(row, row');
    if row != [] {
      var k := SomePlace(row, row', |row| - 1);
      WithoutLast(row, row', k);
      var rest := Without(row', k);
      StillApart(row[..|row| - 1], rest);
      forall i, j | 0 <= i < j < |row'| ensures row'[i] != row'[j] {
        if i == k || j == k {
          Elsewhere(row, row', k, if i == k then j else i);
        } else {
          assert rest[if i < k then i else i - 1] == row'[i] && rest[if j < k then j else j - 1] == row'[j];
        }
      }
    }
  }

  lemma {:induction false} Elsewhere(row: seq<Coeff>, row': seq<Coeff>, k: nat, i: nat)
    requires |row| > 0 && k < |row'| && i < |row'| && i != k && row'[k] == row[|row| - 1]
    requires multiset(row[..|row| - 1]) == multiset(Without(row', k))
    requires forall i, j :: 0 <= i < j < |row| ==> row[i] != row[j]
    ensures row'[i] != row'[k]
  {
    var rest := Without(row', k);
    var at := if i < k then i else i - 1;
    assert rest[at] == row'[i];
    var m := SomePlace(rest, row[..|row| - 1], at);
    assert row[m] == row'[i];
  }

  /** Distinct columns too. */
  lemma {:induction false} StillDistinct(row: seq<Coeff>, row': seq<Coeff>)
    requires multiset(row) == multiset(row') && forall i, j :: 0 <= i < j < |row| ==> row[i].col != row[j].col
    ensures forall i, j :: 0 <= i < j < |row'| ==> row'[i].col != row'[j].col
  {
    StillApart(row, row');
    forall i, j | 0 <= i < j < |row'| ensures row'[i].col != row'[j].col {
      var a := SomePlace(row', row, i);
      var b := SomePlace(row', row, j);
      assert a != b;
    }
  }

  /** Then every sorted arrangement of a row is the same one. */
  lemma {:induction false} RowOrderUnique(l: Ldu, c: nat, row: seq<Coeff>)
    requires l.Valid() && OneFacePerPair(l) && c < l.n
    requires SortedByColumn(row) && multiset(row) == multiset(RowEntries(l, c, l.NFaces()))
    ensures row == Sorted(RowEntries(l, c, l.NFaces()))
  {
    var full := RowEntries(l, c, l.NFaces());
    SortedSorts(full);
    ColumnsDistinct(l, c);
    StillDistinct(full, row);
    SortedUnique(row, Sorted(full));
  }
}
