/** The compressed-row cache of the offload solver: structure built once, coefficients replaced in place. */
module AmgxCache {
  import opened Ldu
  import opened CsrRows
  import opened CsrLayout

  // ---- collecting and sorting the rows --------------------------------------------------------------

  method CollectRows(l: Ldu) returns (rows: Rows)
    requires l.Valid()
    ensures rows == CollectedRows(l, l.NFaces())
  {
    rows := seq(l.n, _ => []);
    assert rows == DiagonalRows(l, 0);
    var i := 0;
    while i < l.n
      invariant 0 <= i <= l.n
      invariant rows == DiagonalRows(l, i)
    {
      RowsOfDiagonal(l, i);
      rows := rows[i := rows[i] + [Coeff(i, Diag, i)]];
      i := i + 1;
    }
    RowsOfDiagonal(l, l.n);
    var f := 0;
    while f < l.NFaces()
      invariant 0 <= f <= l.NFaces()
      invariant rows == CollectedRows(l, f)
    {
      RowsOfFace(l, f);
      rows := rows[l.own[f] := rows[l.own[f]] + [Coeff(l.nei[f], Upper, f)]];
      rows := rows[l.nei[f] := rows[l.nei[f]] + [Coeff(l.own[f], Lower, f)]];
      f := f + 1;
    }
  }

  /** The library's sort promises column order and nothing about entries with equal columns; callers use no more. */
  method LibrarySort(row: seq<Coeff>) returns (r: seq<Coeff>)
    ensures SortedByColumn(r) && multiset(r) == multiset(row)
  {
    SortedSorts(row);
    r := Sorted(row);
  }

  // ---- slots ----------------------------------------------------------------------------------------

  /** All rows one behind the other. */
  function Flat(rows: Rows, c: nat): (s: seq<Coeff>)
    requires c <= |rows|
    ensures |s| == Start(rows, c)
  {
    if c == 0 then [] else Flat(rows, c - 1) + rows[c - 1]
  }

  lemma {:induction false} FlatAt(rows: Rows, c: nat, d: nat, k: nat)
    requires d < c <= |rows| && k < |rows[d]|
    ensures Start(rows, d) + k < Start(rows, c) && Flat(rows, c)[Start(rows, d) + k] == rows[d][k]
  {
    if d < c - 1 {
      FlatAt(rows, c - 1, d, k);
    }
  }

  lemma {:induction false} FlatFrom(rows: Rows, c: nat, p: nat) returns (d: nat, k: nat)
    requires c <= |rows| && p < Start(rows, c)
    ensures d < c && k < |rows[d]| && p == Start(rows, d) + k && Flat(rows, c)[p] == rows[d][k]
  {
    if p < Start(rows, c - 1) {
      d, k := FlatFrom(rows, c - 1, p);
    } else {
      d, k := c - 1, p - Start(rows, c - 1);
    }
  }

  /** No coefficient is stored twice. */
  lemma {:induction false} FlatDistinct(l: Ldu, rows: Rows, c: nat, k: nat, p: nat)
    requires l.Valid() && RowsOf(l, rows) && c < l.n && k < |rows[c]| && p < Start(rows, c) + k
    ensures p < Start(rows, c) ==> Flat(rows, c)[p] != rows[c][k]
    ensures p >= Start(rows, c) ==> rows[c][p - Start(rows, c)] != rows[c][k]
  {
    InItsRow(l, rows, c, k);
    if p < Start(rows, c) {
      var d, j := FlatFrom(rows, c, p);
      InItsRow(l, rows, d, j);
    } else {
      RowDistinct(l, c, l.NFaces());
      StillApart(RowEntries(l, c, l.NFaces()), rows[c]);
    }
  }

  lemma {:induction false} InItsRow(l: Ldu, rows: Rows, c: nat, k: nat)
    requires l.Valid() && RowsOf(l, rows) && c < l.n && k < |rows[c]|
    ensures InRow(l, c, rows[c][k])
  {
    var j := SomePlace(rows[c], RowEntries(l, c, l.NFaces()), k);
    assert RowEntries(l, c, l.NFaces())[j] in RowEntries(l, c, l.NFaces());
  }

  /** The slot a position map gives for an entry. */
  function Slot(diagPos: seq<nat>, upperPos: seq<nat>, lowerPos: seq<nat>, e: Coeff): int {
    match e.kind
    case Diag => if e.idx < |diagPos| then diagPos[e.idx] else -1
    case Upper => if e.idx < |upperPos| then upperPos[e.idx] else -1
    case Lower => if e.idx < |lowerPos| then lowerPos[e.idx] else -1
  }

  /** Each slot is the one its entry's position map gives. */
  ghost predicate SlotsKnown(flat: seq<Coeff>, diagPos: seq<nat>, upperPos: seq<nat>, lowerPos: seq<nat>) {
    forall p :: 0 <= p < |flat| ==> Slot(diagPos, upperPos, lowerPos, flat[p]) == p
  }

  /** The three maps together: every coefficient of the matrix has its slot, and the slot holds it. */
  ghost predicate Positions(l: Ldu, flat: seq<Coeff>, diagPos: seq<nat>, upperPos: seq<nat>, lowerPos: seq<nat>)
    requires l.Valid()
  {
    && SlotsKnown(flat, diagPos, upperPos, lowerPos)
    && |diagPos| == l.n && |upperPos| == |lowerPos| == l.NFaces() && |flat| == l.n + 2 * l.NFaces()
    && (forall i :: 0 <= i < l.n ==> diagPos[i] < |flat| && flat[diagPos[i]] == Coeff(i, Diag, i))
    && (forall f :: 0 <= f < l.NFaces() ==> upperPos[f] < |flat| && flat[upperPos[f]] == Coeff(l.nei[f], Upper, f))
    && (forall f :: 0 <= f < l.NFaces() ==> lowerPos[f] < |flat| && flat[lowerPos[f]] == Coeff(l.own[f], Lower, f))
  }

  /** The coefficient the `k`-th element of `diagPos + upperPos + lowerPos` gives the slot of. */
  function Listed(l: Ldu, k: nat): Coeff
    requires l.Valid() && k < l.n + 2 * l.NFaces()
  {
    if k < l.n then Coeff(k, Diag, k)
    else if k < l.n + l.NFaces() then Coeff(l.nei[k - l.n], Upper, k - l.n)
    else Coeff(l.own[k - l.n - l.NFaces()], Lower, k - l.n - l.NFaces())
  }

  function Place(l: Ldu, e: Coeff): nat
    requires l.Valid()
  {
    match e.kind
    case Diag => e.idx
    case Upper => l.n + e.idx
    case Lower => l.n + l.NFaces() + e.idx
  }

  lemma {:induction false} ListedSlot(l: Ldu, flat: seq<Coeff>, diagPos: seq<nat>, upperPos: seq<nat>,
                                      lowerPos: seq<nat>, k: nat)
    requires l.Valid() && Positions(l, flat, diagPos, upperPos, lowerPos) && k < l.n + 2 * l.NFaces()
    ensures var all := diagPos + upperPos + lowerPos;
            all[k] < |flat| && flat[all[k]] == Listed(l, k) && Place(l, Listed(l, k)) == k
  {
    var all := diagPos + upperPos + lowerPos;
    if k < l.n {
      assert all[k] == diagPos[k];
    } else if k < l.n + l.NFaces() {
      assert all[k] == upperPos[k - l.n];
    } else {
      assert all[k] == lowerPos[k - l.n - l.NFaces()];
    }
  }

  lemma {:induction false} SlotListed(l: Ldu, flat: seq<Coeff>, diagPos: seq<nat>, upperPos: seq<nat>,
                                      lowerPos: seq<nat>, p: nat)
    requires l.Valid() && Positions(l, flat, diagPos, upperPos, lowerPos) && p < |flat|
    ensures var all := diagPos + upperPos + lowerPos; Place(l, flat[p]) < |all| && all[Place(l, flat[p])] == p
  {
    assert Slot(diagPos, upperPos, lowerPos, flat[p]) == p;
  }

  /** `diagPos`, `upperPos` and `lowerPos` behind one another are a rearrangement of the slots. */
  lemma {:induction false} PositionsAreBijection(l: Ldu, flat: seq<Coeff>, diagPos: seq<nat>, upperPos: seq<nat>,
                                                 lowerPos: seq<nat>)
    requires l.Valid() && Positions(l, flat, diagPos, upperPos, lowerPos)
    ensures var all := diagPos + upperPos + lowerPos;
      && |all| == l.n + 2 * l.NFaces()
      && (forall k :: 0 <= k < |all| ==> all[k] < |all|)
      && (forall j, k :: 0 <= j < k < |all| ==> all[j] != all[k])
      && (forall p :: 0 <= p < |all| ==> p in all)
  {
    var all := diagPos + upperPos + lowerPos;
    forall k | 0 <= k < |all| ensures all[k] < |all| {
      ListedSlot(l, flat, diagPos, upperPos, lowerPos, k);
    }
    forall j, k | 0 <= j < k < |all| ensures all[j] != all[k] {
      ListedSlot(l, flat, diagPos, upperPos, lowerPos, j);
      ListedSlot(l, flat, diagPos, upperPos, lowerPos, k);
    }
    forall p | 0 <= p < |all| ensures p in all {
      SlotListed(l, flat, diagPos, upperPos, lowerPos, p);
      assert all[Place(l, flat[p])] in all;
    }
  }

  lemma {:induction false} PlaceInRow(l: Ldu, c: nat, row: seq<Coeff>, e: Coeff) returns (k: nat)
    requires l.Valid() && c < l.n && multiset(row) == multiset(RowEntries(l, c, l.NFaces())) && InRow(l, c, e)
    ensures k < |row| && row[k] == e
  {
    RowHolds(l, c, l.NFaces(), e);
    assert e in multiset(row);
    k :| k < |row| && row[k] == e;
  }

  lemma {:induction false} Held(l: Ldu, rows: Rows, diagPos: seq<nat>, upperPos: seq<nat>, lowerPos: seq<nat>, c: nat,
                                e: Coeff)
    requires l.Valid() && RowsOf(l, rows) && c < l.n && InRow(l, c, e)
    requires SlotsKnown(Flat(rows, l.n), diagPos, upperPos, lowerPos)
    ensures var p := Slot(diagPos, upperPos, lowerPos, e); 0 <= p < Start(rows, l.n) && Flat(rows, l.n)[p] == e
  {
    var k := PlaceInRow(l, c, rows[c], e);
    FlatAt(rows, l.n, c, k);
    assert Slot(diagPos, upperPos, lowerPos, Flat(rows, l.n)[Start(rows, c) + k]) == Start(rows, c) + k;
  }

  lemma {:induction false} CellHeld(l: Ldu, rows: Rows, diagPos: seq<nat>, upperPos: seq<nat>, lowerPos: seq<nat>,
                                    i: nat)
    requires l.Valid() && RowsOf(l, rows) && SlotsKnown(Flat(rows, l.n), diagPos, upperPos, lowerPos)
    requires i < |diagPos| == l.n
    ensures diagPos[i] < Start(rows, l.n) && Flat(rows, l.n)[diagPos[i]] == Coeff(i, Diag, i)
  {
    Held(l, rows, diagPos, upperPos, lowerPos, i, Coeff(i, Diag, i));
  }

  lemma {:induction false} FaceHeld(l: Ldu, rows: Rows, diagPos: seq<nat>, upperPos: seq<nat>, lowerPos: seq<nat>,
                                    f: nat)
    requires l.Valid() && RowsOf(l, rows) && SlotsKnown(Flat(rows, l.n), diagPos, upperPos, lowerPos)
    requires f < |upperPos| == |lowerPos| == l.NFaces()
    ensures upperPos[f] < Start(rows, l.n) && Flat(rows, l.n)[upperPos[f]] == Coeff(l.nei[f], Upper, f)
    ensures lowerPos[f] < Start(rows, l.n) && Flat(rows, l.n)[lowerPos[f]] == Coeff(l.own[f], Lower, f)
  {
    Held(l, rows, diagPos, upperPos, lowerPos, l.own[f], Coeff(l.nei[f], Upper, f));
    Held(l, rows, diagPos, upperPos, lowerPos, l.nei[f], Coeff(l.own[f], Lower, f));
  }

  lemma {:induction false} AllHeld(l: Ldu, rows: Rows, diagPos: seq<nat>, upperPos: seq<nat>, lowerPos: seq<nat>)
    requires l.Valid() && RowsOf(l, rows) && SlotsKnown(Flat(rows, l.n), diagPos, upperPos, lowerPos)
    requires |diagPos| == l.n && |upperPos| == |lowerPos| == l.NFaces()
    ensures Positions(l, Flat(rows, l.n), diagPos, upperPos, lowerPos)
  {
    RowsOfStart(l, rows, l.n);
    forall i | 0 <= i < l.n ensures diagPos[i] < Start(rows, l.n) && Flat(rows, l.n)[diagPos[i]] == Coeff(i, Diag, i) {
      CellHeld(l, rows, diagPos, upperPos, lowerPos, i);
    }
    forall f | 0 <= f < l.NFaces()
      ensures upperPos[f] < Start(rows, l.n) && Flat(rows, l.n)[upperPos[f]] == Coeff(l.nei[f], Upper, f)
        && lowerPos[f] < Start(rows, l.n) && Flat(rows, l.n)[lowerPos[f]] == Coeff(l.own[f], Lower, f)
    {
      FaceHeld(l, rows, diagPos, upperPos, lowerPos, f);
    }
  }

  // ---- values ---------------------------------------------------------------------------------------

  /** The entry's value has been written once the first `i` cells and `f` faces are done. */
  predicate Written(e: Coeff, i: nat, f: nat) {
    if e.kind.Diag? then e.idx < i else e.idx < f
  }

  ghost predicate Filled(l: Ldu, flat: seq<Coeff>, i: nat, f: nat, vals: seq<real>) {
    |vals| == |flat| && forall p :: 0 <= p < |flat| && Written(flat[p], i, f) ==> vals[p] == ValueOf(l, flat[p])
  }

  method Refill(ghost l: Ldu, diag: seq<real>, upper: seq<real>, lower: seq<real>, ghost flat: seq<Coeff>,
                diagPos: seq<nat>, upperPos: seq<nat>, lowerPos: seq<nat>, val: seq<real>) returns (r: seq<real>)
    requires l.Valid() && Positions(l, flat, diagPos, upperPos, lowerPos) && |val| == |flat|
    requires diag == l.diag && upper == l.upper && lower == l.lower
    ensures |r| == |flat| && forall p :: 0 <= p < |flat| ==> r[p] == ValueOf(l, flat[p])
  {
    r := val;
    var i := 0;
    while i < |diag|
      invariant 0 <= i <= |diag|
      invariant Filled(l, flat, i, 0, r)
    {
      CellFilled(l, flat, diagPos, upperPos, lowerPos, i, r);
      r := r[diagPos[i] := diag[i]];
      i := i + 1;
    }
    var f := 0;
    while f < |upper|
      invariant 0 <= f <= |upper|
      invariant Filled(l, flat, l.n, f, r)
    {
      FaceFilled(l, flat, diagPos, upperPos, lowerPos, f, r);
      r := r[upperPos[f] := upper[f]];
      r := r[lowerPos[f] := lower[f]];
      f := f + 1;
    }
    AllWritten(l, flat, diagPos, upperPos, lowerPos);
  }

  lemma {:induction false} CellFilled(l: Ldu, flat: seq<Coeff>, diagPos: seq<nat>, upperPos: seq<nat>,
                                      lowerPos: seq<nat>, i: nat, vals: seq<real>)
    requires l.Valid() && Positions(l, flat, diagPos, upperPos, lowerPos) && Filled(l, flat, i, 0, vals) && i < l.n
    ensures Filled(l, flat, i + 1, 0, vals[diagPos[i] := l.diag[i]])
  {
    forall p | 0 <= p < |flat| && Written(flat[p], i + 1, 0) && p != diagPos[i] ensures Written(flat[p], i, 0) {
      assert Slot(diagPos, upperPos, lowerPos, flat[p]) == p;
    }
  }

  lemma {:induction false} FaceFilled(l: Ldu, flat: seq<Coeff>, diagPos: seq<nat>, upperPos: seq<nat>,
                                      lowerPos: seq<nat>, f: nat, vals: seq<real>)
    requires l.Valid() && Positions(l, flat, diagPos, upperPos, lowerPos) && Filled(l, flat, l.n, f, vals)
    requires f < l.NFaces()
    ensures Filled(l, flat, l.n, f + 1, vals[upperPos[f] := l.upper[f]][lowerPos[f] := l.lower[f]])
  {
    forall p | 0 <= p < |flat| && Written(flat[p], l.n, f + 1) && p != upperPos[f] && p != lowerPos[f]
      ensures Written(flat[p], l.n, f)
    {
      assert Slot(diagPos, upperPos, lowerPos, flat[p]) == p;
    }
  }

  lemma {:induction false} AllWritten(l: Ldu, flat: seq<Coeff>, diagPos: seq<nat>, upperPos: seq<nat>,
                                      lowerPos: seq<nat>)
    requires l.Valid() && Positions(l, flat, diagPos, upperPos, lowerPos)
    ensures forall p :: 0 <= p < |flat| ==> Written(flat[p], l.n, l.NFaces())
  {
    forall p | 0 <= p < |flat| ensures Written(flat[p], l.n, l.NFaces()) {
      assert Slot(diagPos, upperPos, lowerPos, flat[p]) == p;
    }
  }

  lemma {:induction false} FlatIsCsr(l: Ldu, rows: Rows, rowPtr: seq<nat>, cols: seq<nat>, vals: seq<real>)
    requires |rowPtr| == |rows| + 1 && |cols| == |vals| == Start(rows, |rows|)
    requires forall c {:trigger rowPtr[c]} :: 0 <= c <= |rows| ==> rowPtr[c] == Start(rows, c)
    requires forall p :: 0 <= p < |cols| ==>
      cols[p] == Flat(rows, |rows|)[p].col && vals[p] == ValueOf(l, Flat(rows, |rows|)[p])
    ensures IsCsr(l, rows, rowPtr, cols, vals)
  {
    forall c | 0 <= c < |rows| ensures Shows(l, rows[c], rowPtr[c], cols, vals) {
      StartMonotone(rows, c, |rows|);
      forall k | 0 <= k < |rows[c]|
        ensures cols[rowPtr[c] + k] == rows[c][k].col && vals[rowPtr[c] + k] == ValueOf(l, rows[c][k])
      {
        FlatAt(rows, |rows|, c, k);
      }
    }
  }

  // ---- the structure --------------------------------------------------------------------------------

  /** The entries `done` have been given the first slots. */
  ghost predicate Laid(l: Ldu, done: seq<Coeff>, colIdx: seq<nat>, diagPos: seq<nat>, upperPos: seq<nat>,
                       lowerPos: seq<nat>) {
    && |done| <= |colIdx| && (forall p :: 0 <= p < |done| ==> colIdx[p] == done[p].col)
    && |diagPos| == l.n && |upperPos| == |lowerPos| == l.NFaces()
    && SlotsKnown(done, diagPos, upperPos, lowerPos)
  }

  predicate InRange(l: Ldu, e: Coeff) {
    if e.kind.Diag? then e.idx < l.n else e.idx < l.NFaces()
  }

  /** Two coefficients of the matrix are the same one. */
  predicate SameOrigin(d: Coeff, e: Coeff) {
    d.kind == e.kind && d.idx == e.idx
  }

  /** The next slot goes to `e`. */
  method LayEntry(l: Ldu, ghost done: seq<Coeff>, e: Coeff, colIdx: seq<nat>, diagPos: seq<nat>, upperPos: seq<nat>,
                  lowerPos: seq<nat>, pos: nat)
    returns (colIdx': seq<nat>, diagPos': seq<nat>, upperPos': seq<nat>, lowerPos': seq<nat>)
    requires Laid(l, done, colIdx, diagPos, upperPos, lowerPos) && pos == |done| < |colIdx| && InRange(l, e)
    requires forall p :: 0 <= p < |done| ==> !SameOrigin(done[p], e)
    ensures Laid(l, done + [e], colIdx', diagPos', upperPos', lowerPos') && |colIdx'| == |colIdx|
  {
    colIdx', diagPos', upperPos', lowerPos' := colIdx[pos := e.col], diagPos, upperPos, lowerPos;
    match e.kind {
      case Diag => diagPos' := diagPos[e.idx := pos];
      case Upper => upperPos' := upperPos[e.idx := pos];
      case Lower => lowerPos' := lowerPos[e.idx := pos];
    }
    forall p | 0 <= p < |done + [e]| ensures Slot(diagPos', upperPos', lowerPos', (done + [e])[p]) == p {
      if p < |done| {
        assert !SameOrigin(done[p], e) && Slot(diagPos, upperPos, lowerPos, done[p]) == p;
      }
    }
  }

  lemma {:induction false} NotYetLaid(l: Ldu, rows: Rows, c: nat, k: nat)
    requires l.Valid() && RowsOf(l, rows) && c < l.n && k < |rows[c]|
    ensures InRange(l, rows[c][k])
    ensures forall p :: 0 <= p < Start(rows, c) + k ==> !SameOrigin((Flat(rows, c) + rows[c][..k])[p], rows[c][k])
  {
    InItsRow(l, rows, c, k);
    forall p | 0 <= p < Start(rows, c) + k ensures !SameOrigin((Flat(rows, c) + rows[c][..k])[p], rows[c][k]) {
      FlatDistinct(l, rows, c, k, p);
      if p < Start(rows, c) {
        var d, j := FlatFrom(rows, c, p);
        InItsRow(l, rows, d, j);
        OneOrigin(l, d, c, rows[d][j], rows[c][k]);
      } else {
        InItsRow(l, rows, c, p - Start(rows, c));
        OneOrigin(l, c, c, rows[c][p - Start(rows, c)], rows[c][k]);
      }
    }
  }

  lemma {:induction false} OneOrigin(l: Ldu, c: nat, c': nat, d: Coeff, e: Coeff)
    requires l.Valid() && InRow(l, c, d) && InRow(l, c', e)
    ensures SameOrigin(d, e) ==> d == e
  {
  }

  method LayRow(l: Ldu, ghost rows: Rows, c: nat, row: seq<Coeff>, colIdx: seq<nat>, diagPos: seq<nat>,
                upperPos: seq<nat>, lowerPos: seq<nat>, pos: nat)
    returns (colIdx': seq<nat>, diagPos': seq<nat>, upperPos': seq<nat>, lowerPos': seq<nat>, pos': nat)
    requires l.Valid() && RowsOf(l, rows) && c < l.n && row == rows[c]
    requires Laid(l, Flat(rows, c), colIdx, diagPos, upperPos, lowerPos) && pos == Start(rows, c)
    requires Start(rows, c + 1) <= |colIdx|
    ensures Laid(l, Flat(rows, c + 1), colIdx', diagPos', upperPos', lowerPos') && pos' == Start(rows, c + 1)
    ensures |colIdx'| == |colIdx|
  {
    colIdx', diagPos', upperPos', lowerPos', pos' := colIdx, diagPos, upperPos, lowerPos, pos;
    assert Flat(rows, c) + row[..0] == Flat(rows, c);
    for k := 0 to |row|
      invariant Laid(l, Flat(rows, c) + row[..k], colIdx', diagPos', upperPos', lowerPos')
      invariant pos' == pos + k && |colIdx'| == |colIdx|
    {
      NotYetLaid(l, rows, c, k);
      colIdx', diagPos', upperPos', lowerPos' :=
        LayEntry(l, Flat(rows, c) + row[..k], row[k], colIdx', diagPos', upperPos', lowerPos', pos');
      pos' := pos' + 1;
      assert Flat(rows, c) + row[..k] + [row[k]] == Flat(rows, c) + row[..k + 1];
    }
    assert row[..|row|] == row;
  }

  method SortAll(l: Ldu) returns (rows: Rows)
    requires l.Valid()
    ensures RowsOf(l, rows) && forall c :: 0 <= c < l.n ==> SortedByColumn(rows[c])
  {
    rows := CollectRows(l);
    ghost var collected := rows;
    for c := 0 to l.n
      invariant |rows| == l.n
      invariant forall d :: 0 <= d < l.n ==> multiset(rows[d]) == multiset(collected[d])
      invariant forall d :: 0 <= d < c ==> SortedByColumn(rows[d])
    {
      var row := LibrarySort(rows[c]);
      rows := rows[c := row];
    }
  }

  method LayRows(l: Ldu, rows: Rows)
    returns (rowPtr: seq<nat>, colIdx: seq<nat>, diagPos: seq<nat>, upperPos: seq<nat>, lowerPos: seq<nat>)
    requires l.Valid() && RowsOf(l, rows)
    ensures |rowPtr| == l.n + 1 && forall c {:trigger rowPtr[c]} :: 0 <= c <= l.n ==> rowPtr[c] == Start(rows, c)
    ensures Laid(l, Flat(rows, l.n), colIdx, diagPos, upperPos, lowerPos)
    ensures |colIdx| == Start(rows, l.n) == l.n + 2 * l.NFaces()
  {
    RowsOfStart(l, rows, l.n);
    rowPtr, colIdx := seq(l.n + 1, _ => 0), seq(l.n + 2 * l.NFaces(), _ => 0);
    diagPos, upperPos, lowerPos := seq(l.n, _ => 0), seq(l.NFaces(), _ => 0), seq(l.NFaces(), _ => 0);
    var pos := 0;
    for c := 0 to l.n
      invariant |rowPtr| == l.n + 1 && |colIdx| == l.n + 2 * l.NFaces()
      invariant forall d {:trigger rowPtr[d]} :: 0 <= d < c ==> rowPtr[d] == Start(rows, d)
      invariant pos == Start(rows, c) && Laid(l, Flat(rows, c), colIdx, diagPos, upperPos, lowerPos)
    {
      StartMonotone(rows, c, l.n);
      rowPtr := rowPtr[c := pos];
      colIdx, diagPos, upperPos, lowerPos, pos := LayRow(l, rows, c, rows[c], colIdx, diagPos, upperPos, lowerPos, pos);
    }
    rowPtr := rowPtr[l.n := pos];
  }

  /** The matrix with the addressing of `m` and the coefficients of `l`. */
  function Recoefficient(m: Ldu, l: Ldu): Ldu {
    Ldu(m.n, m.own, m.nei, l.diag, l.upper, l.lower)
  }

  // ---- the cache ------------------------------------------------------------------------------------

  /** The arrays stand for the matrix `l`, its rows in column order as `rows` lists them. */
  ghost predicate Cached(l: Ldu, rows: Rows, rowPtr: seq<nat>, colIdx: seq<nat>, val: seq<real>, diagPos: seq<nat>,
                         upperPos: seq<nat>, lowerPos: seq<nat>) {
    && l.Valid() && RowsOf(l, rows) && (forall c :: 0 <= c < l.n ==> SortedByColumn(rows[c]))
    && IsCsr(l, rows, rowPtr, colIdx, val)
    && Positions(l, Flat(rows, l.n), diagPos, upperPos, lowerPos)
  }

  lemma {:induction false} CsrIsFlat(l: Ldu, rows: Rows, rowPtr: seq<nat>, cols: seq<nat>, vals: seq<real>)
    requires IsCsr(l, rows, rowPtr, cols, vals)
    ensures forall p :: 0 <= p < |cols| ==> cols[p] == Flat(rows, |rows|)[p].col
  {
    forall p | 0 <= p < |cols| ensures cols[p] == Flat(rows, |rows|)[p].col {
      var d, k := FlatFrom(rows, |rows|, p);
      RowAt(l, rows, d, rowPtr, cols, vals);
      assert cols[rowPtr[d] + k] == rows[d][k].col;
    }
  }

  /** The structure from scratch, then the values. */
  method BuildAll(l: Ldu)
    returns (ghost rows: Rows, rowPtr: seq<nat>, colIdx: seq<nat>, val: seq<real>, diagPos: seq<nat>,
             upperPos: seq<nat>, lowerPos: seq<nat>)
    requires l.Valid()
    ensures Cached(l, rows, rowPtr, colIdx, val, diagPos, upperPos, lowerPos)
  {
    var sorted := SortAll(l);
    rows := sorted;
    rowPtr, colIdx, diagPos, upperPos, lowerPos := LayRows(l, sorted);
    AllHeld(l, sorted, diagPos, upperPos, lowerPos);
    val := Refill(l, l.diag, l.upper, l.lower, Flat(sorted, l.n), diagPos, upperPos, lowerPos,
                  seq(l.n + 2 * l.NFaces(), _ => 0.0));
    FlatIsCsr(l, sorted, rowPtr, colIdx, val);
  }

  /** New values into the old structure. */
  method ReplaceCoefficients(ghost m: Ldu, l: Ldu, ghost rows: Rows, ghost rowPtr: seq<nat>, ghost colIdx: seq<nat>,
                             val: seq<real>, diagPos: seq<nat>, upperPos: seq<nat>, lowerPos: seq<nat>)
    returns (val': seq<real>)
    requires Cached(m, rows, rowPtr, colIdx, val, diagPos, upperPos, lowerPos)
    requires l.Valid() && l.n == m.n && l.NFaces() == m.NFaces()
    ensures Cached(Recoefficient(m, l), rows, rowPtr, colIdx, val', diagPos, upperPos, lowerPos)
  {
    ghost var m' := Recoefficient(m, l);
    CsrIsFlat(m, rows, rowPtr, colIdx, val);
    SameStructure(m, m', rows, diagPos, upperPos, lowerPos);
    val' := Refill(m', l.diag, l.upper, l.lower, Flat(rows, m'.n), diagPos, upperPos, lowerPos, val);
    FlatIsCsr(m', rows, rowPtr, colIdx, val');
  }

  class Cache {
    var ready: bool
    var nCells: int
    var nFaces: int
    var nnz: int
    var rowPtr: seq<nat>
    var colIdx: seq<nat>
    var val: seq<real>
    var diagPos: seq<nat>
    var upperPos: seq<nat>
    var lowerPos: seq<nat>
    /** The matrix the arrays stand for, and its rows in the order they are stored. */
    ghost var held: Ldu
    ghost var rows: Rows

    ghost predicate Valid()
      reads this
    {
      ready ==>
        && Cached(held, rows, rowPtr, colIdx, val, diagPos, upperPos, lowerPos)
        && held.n == nCells && held.NFaces() == nFaces && nnz == nCells + 2 * nFaces
    }

    constructor ()
      ensures Valid() && !ready
    {
      ready, nCells, nFaces, nnz := false, -1, -1, -1;
      rowPtr, colIdx, val, diagPos, upperPos, lowerPos := [], [], [], [], [], [];
      held, rows := Ldu(0, [], [], [], [], []), [];
    }

    /** First use, or other sizes: everything anew. */
    method Rebuild(l: Ldu)
      requires l.Valid()
      modifies this
      ensures Valid() && ready && held == l
    {
      ghost var rows';
      var p, c, v, dp, up, lp;
      rows', p, c, v, dp, up, lp := BuildAll(l);
      nCells, nFaces, nnz := l.n, l.NFaces(), l.n + 2 * l.NFaces();
      rowPtr, colIdx, val, diagPos, upperPos, lowerPos := p, c, v, dp, up, lp;
      held, rows, ready := l, rows', true;
    }

    /** Same sizes: new values only. */
    method Replace(l: Ldu)
      requires Valid() && ready && l.Valid() && nCells == l.n && nFaces == l.NFaces()
      modifies this`val, this`held
      ensures Valid() && held == Recoefficient(old(held), l)
    {
      var v := ReplaceCoefficients(held, l, rows, rowPtr, colIdx, val, diagPos, upperPos, lowerPos);
      val, held := v, Recoefficient(held, l);
    }

    /** The part of one solve that brings the arrays up to date with the matrix. */
    method Update(l: Ldu)
      requires Valid() && l.Valid()
      modifies this
      ensures Valid() && ready && nCells == l.n && nFaces == l.NFaces()
      ensures old(!ready || nCells != l.n || nFaces != l.NFaces()) ==> held == l
      ensures old(ready && nCells == l.n && nFaces == l.NFaces()) ==>
        && held == Recoefficient(old(held), l) && rows == old(rows)
        && rowPtr == old(rowPtr) && colIdx == old(colIdx)
        && diagPos == old(diagPos) && upperPos == old(upperPos) && lowerPos == old(lowerPos)
    {
      if !ready || nCells != l.n || nFaces != l.NFaces() {
        Rebuild(l);
      } else {
        Replace(l);
      }
    }
  }

  lemma {:induction false} SameRow(m: Ldu, l: Ldu, c: nat, f: nat)
    requires m.Valid() && l.Valid() && m.n == l.n && m.own == l.own && m.nei == l.nei && c < l.n && f <= l.NFaces()
    ensures RowEntries(m, c, f) == RowEntries(l, c, f)
  {
    if f > 0 {
      SameRow(m, l, c, f - 1);
    }
  }

  lemma {:induction false} SameStructure(m: Ldu, l: Ldu, rows: Rows, diagPos: seq<nat>, upperPos: seq<nat>,
                                         lowerPos: seq<nat>)
    requires m.Valid() && l.Valid() && m.n == l.n && m.own == l.own && m.nei == l.nei
    requires RowsOf(m, rows) && Positions(m, Flat(rows, m.n), diagPos, upperPos, lowerPos)
    ensures RowsOf(l, rows) && Positions(l, Flat(rows, l.n), diagPos, upperPos, lowerPos)
  {
    forall c | 0 <= c < l.n ensures multiset(rows[c]) == multiset(RowEntries(l, c, l.NFaces())) {
      SameRow(m, l, c, l.NFaces());
      assert multiset(rows[c]) == multiset(RowEntries(m, c, m.NFaces()));
    }
  }
}
