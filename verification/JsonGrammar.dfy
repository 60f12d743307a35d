/** The texts the parser accepts and what they mean, as a grammar over literal bytes: a text is accepted exactly if it
    has a derivation. */
module JsonGrammar {
  import opened Basics
  import opened JsonText

  // ---- white space ----------------------------------------------------------------------------------

  predicate Blank(c: byte) { c == 0x20 || c == 0x09 || c == 0x0A || c == 0x0D }

  /** White space alone, from `lo` up to `hi`. */
  predicate Blanks(text: Bytes, lo: nat, hi: nat)
    decreases hi - lo
  {
    if lo >= hi then lo == hi <= |text| else lo < |text| && Blank(text[lo]) && Blanks(text, lo + 1, hi)
  }

  lemma {:induction false} BlanksAre(text: Bytes, lo: nat, hi: nat)
    ensures Blanks(text, lo, hi) <==> lo <= hi <= |text| && forall i :: lo <= i < hi ==> Blank(text[i])
    decreases hi - lo
  {
    if lo < hi && lo < |text| {
      BlanksAre(text, lo + 1, hi);
    }
  }

  lemma {:induction false} BlanksSkipped(text: Bytes, lo: nat, hi: nat)
    requires Blanks(text, lo, hi) && (hi < |text| ==> !Blank(text[hi]))
    ensures lo <= hi <= |text| && SkipSpace(text, lo) == hi
    decreases hi - lo
  {
    if lo < hi {
      BlanksSkipped(text, lo + 1, hi);
    }
  }

  lemma {:induction false} SkippedBlanks(text: Bytes, lo: nat)
    requires lo <= |text|
    ensures Blanks(text, lo, SkipSpace(text, lo))
    ensures SkipSpace(text, lo) < |text| ==> !Blank(text[SkipSpace(text, lo)])
    decreases |text| - lo
  {
    if lo < |text| && Space(text[lo]) {
      SkippedBlanks(text, lo + 1);
    }
  }

  // ---- strings --------------------------------------------------------------------------------------

  /** A byte as it is, a backslash and a letter, a code unit in four hex digits, or a surrogate pair of them. */
  datatype Piece = Plain(b: byte) | Short(letter: byte) | Unit(n: Four) | Pair(high: Four, low: Four)

  /** Four hex digits, the first most significant. */
  datatype Four = Four(a: nat, b: nat, c: nat, d: nat)
  {
    function Value(): nat { ((a * 16 + b) * 16 + c) * 16 + d }
  }

  function Width(p: Piece): nat {
    match p case Plain(_) => 1 case Short(_) => 2 case Unit(_) => 6 case Pair(_, _) => 12
  }

  /** The byte that a backslash and a letter stand for. */
  function ShortMeans(letter: byte): Option<byte> {
    if letter == 0x22 then Some(0x22)
    else if letter == 0x5C then Some(0x5C)
    else if letter == 0x2F then Some(0x2F)
    else if letter == 0x62 then Some(0x08)
    else if letter == 0x66 then Some(0x0C)
    else if letter == 0x6E then Some(0x0A)
    else if letter == 0x72 then Some(0x0D)
    else if letter == 0x74 then Some(0x09)
    else None
  }

  /** The byte `c` is the hex digit for `d`, in either case. */
  predicate HexIs(c: byte, d: nat) {
    (d < 10 && c as int == 0x30 + d) || (10 <= d < 16 && (c as int == 0x61 + d - 10 || c as int == 0x41 + d - 10))
  }

  predicate FourAt(text: Bytes, pos: nat, n: Four) {
    && pos + 4 <= |text|
    && HexIs(text[pos], n.a) && HexIs(text[pos + 1], n.b) && HexIs(text[pos + 2], n.c) && HexIs(text[pos + 3], n.d)
  }

  predicate UnitAt(text: Bytes, pos: nat, n: Four) {
    pos + 6 <= |text| && text[pos] == 0x5C && text[pos + 1] == 0x75 && FourAt(text, pos + 2, n)
  }

  predicate HighUnit(n: Four) { 0xD800 <= n.Value() <= 0xDBFF }

  predicate LowUnit(n: Four) { 0xDC00 <= n.Value() <= 0xDFFF }

  ghost predicate LowFollows(text: Bytes, pos: nat) {
    exists n: Four :: LowUnit(n) && UnitAt(text, pos, n)
  }

  ghost predicate PieceAt(text: Bytes, pos: nat, p: Piece) {
    pos + Width(p) <= |text| &&
    match p
    case Plain(b) => text[pos] == b && b != 0x22 && b != 0x5C
    case Short(letter) => text[pos] == 0x5C && text[pos + 1] == letter && ShortMeans(letter).Some?
    case Unit(n) => UnitAt(text, pos, n) && !(HighUnit(n) && LowFollows(text, pos + 6))
    case Pair(h, l) =>
      && HighUnit(h) && LowUnit(l)
      && UnitAt(text, pos, h) && UnitAt(text, pos + 6, l)
  }

  function PieceMeans(p: Piece): Bytes {
    match p
    case Plain(b) => [b]
    case Short(letter) => if ShortMeans(letter).Some? then [ShortMeans(letter).value] else []
    case Unit(n) => if n.Value() < 0x1_0000 then Utf8(n.Value()) else []
    case Pair(h, l) =>
      if HighUnit(h) && LowUnit(l) then Utf8(0x1_0000 + (h.Value() - 0xD800) * 0x400 + (l.Value() - 0xDC00)) else []
  }

  lemma {:induction false} DigitIs(c: byte, d: nat)
    ensures HexIs(c, d) <==> HexValue(c) == Some(d)
  {
  }

  lemma {:induction false} HexStep(text: Bytes, pos: nat, k: nat)
    requires pos + k < |text|
    ensures Hex(text, pos, k + 1) ==
      match (Hex(text, pos, k), HexValue(text[pos + k]))
      case (Some(high), Some(d)) => Some(high * 16 + d)
      case _ => None
  {
  }

  lemma {:induction false} FourRead(text: Bytes, pos: nat, n: Four)
    requires FourAt(text, pos, n)
    ensures HexFour(text, pos) == Some(n.Value()) && n.Value() < 0x1_0000
  {
    DigitIs(text[pos], n.a);
    DigitIs(text[pos + 1], n.b);
    DigitIs(text[pos + 2], n.c);
    DigitIs(text[pos + 3], n.d);
    assert Hex(text, pos, 0) == Some(0);
    HexStep(text, pos, 0);
    HexStep(text, pos, 1);
    HexStep(text, pos, 2);
    HexStep(text, pos, 3);
  }

  lemma {:induction false} ReadFour(text: Bytes, pos: nat) returns (n: Four)
    requires pos + 4 <= |text| && HexFour(text, pos).Some?
    ensures FourAt(text, pos, n)
  {
    HexStep(text, pos, 0);
    HexStep(text, pos, 1);
    HexStep(text, pos, 2);
    HexStep(text, pos, 3);
    n := Four(HexValue(text[pos]).value, HexValue(text[pos + 1]).value,
              HexValue(text[pos + 2]).value, HexValue(text[pos + 3]).value);
    DigitIs(text[pos], n.a);
    DigitIs(text[pos + 1], n.b);
    DigitIs(text[pos + 2], n.c);
    DigitIs(text[pos + 3], n.d);
  }

  lemma {:induction false} LowRead(text: Bytes, pos: nat, n: Four)
    requires LowUnit(n) && UnitAt(text, pos, n)
    ensures LowHalf(text, pos) == Some(n.Value())
  {
    FourRead(text, pos + 2, n);
  }

  lemma {:induction false} LowFollowsIs(text: Bytes, pos: nat)
    ensures LowFollows(text, pos) <==> LowHalf(text, pos).Some?
  {
    if LowHalf(text, pos).Some? {
      var n := ReadFour(text, pos + 2);
      FourRead(text, pos + 2, n);
      assert LowUnit(n) && UnitAt(text, pos, n);
    }
    if LowFollows(text, pos) {
      var n :| LowUnit(n) && UnitAt(text, pos, n);
      LowRead(text, pos, n);
    }
  }

  // ---- a piece is what one turn of the string loop takes --------------------------------------------

  lemma {:induction false} UnitRead(text: Bytes, pos: nat, p: Piece)
    requires PieceAt(text, pos, p) && (p.Unit? || p.Pair?)
    ensures text[pos] == BACKSLASH && text[pos + 1] == LETTER_U
    ensures Unicode(text, pos + 2) == Done(PieceMeans(p), pos + Width(p))
  {
    if p.Unit? {
      FourRead(text, pos + 2, p.n);
      LowFollowsIs(text, pos + 6);
    } else {
      FourRead(text, pos + 2, p.high);
      LowRead(text, pos + 6, p.low);
    }
  }

  lemma {:induction false} EscapeRead(text: Bytes, pos: nat, p: Piece)
    requires PieceAt(text, pos, p) && !p.Plain?
    ensures text[pos] == BACKSLASH && Escape(text, pos + 1) == Done(PieceMeans(p), pos + Width(p))
  {
    if p.Unit? || p.Pair? {
      UnitRead(text, pos, p);
    }
  }

  lemma {:induction false} PieceRead(text: Bytes, pos: nat, p: Piece, out: Bytes, r: Outcome<Bytes>)
    requires PieceAt(text, pos, p) && r == StringBody(text, pos, out)
    ensures pos + Width(p) <= |text|
    ensures r == StringBody(text, pos + Width(p), out + PieceMeans(p))
  {
    assert r == StringByte(text, pos, out);
    if !p.Plain? {
      EscapeRead(text, pos, p);
    }
  }

  lemma {:induction false} ReadUnit(text: Bytes, pos: nat) returns (p: Piece)
    requires pos + 2 <= |text| && text[pos] == BACKSLASH && text[pos + 1] == LETTER_U
    requires Unicode(text, pos + 2).Done?
    ensures PieceAt(text, pos, p) && (p.Unit? || p.Pair?)
  {
    var n := ReadFour(text, pos + 2);
    FourRead(text, pos + 2, n);
    LowFollowsIs(text, pos + 6);
    if HighUnit(n) && LowFollows(text, pos + 6) {
      var l :| LowUnit(l) && UnitAt(text, pos + 6, l);
      p := Pair(n, l);
    } else {
      p := Unit(n);
    }
  }

  /** Where a string goes on, a piece stands. */
  lemma {:induction false} ReadPiece(text: Bytes, pos: nat, out: Bytes) returns (p: Piece)
    requires pos < |text| && text[pos] != QUOTE && StringBody(text, pos, out).Done?
    ensures PieceAt(text, pos, p)
  {
    assert StringBody(text, pos, out) == StringByte(text, pos, out);
    if text[pos] != BACKSLASH {
      p := Plain(text[pos]);
    } else if text[pos + 1] == LETTER_U {
      p := ReadUnit(text, pos);
    } else {
      p := Short(text[pos + 1]);
    }
  }

  // ---- whole strings --------------------------------------------------------------------------------

  ghost predicate PiecesAt(text: Bytes, pos: nat, pieces: seq<Piece>)
    decreases |pieces|, 1
  {
    if pieces == [] then pos <= |text| else PiecesFrom(text, pos, pieces)
  }

  ghost predicate PiecesFrom(text: Bytes, pos: nat, pieces: seq<Piece>)
    requires pieces != []
    decreases |pieces|, 0
  {
    PieceAt(text, pos, pieces[0]) && PiecesAt(text, pos + Width(pieces[0]), pieces[1..])
  }

  function PiecesEnd(pos: nat, pieces: seq<Piece>): nat
    decreases |pieces|
  {
    if pieces == [] then pos else PiecesEnd(pos + Width(pieces[0]), pieces[1..])
  }

  function Spelled(pieces: seq<Piece>): Bytes
    decreases |pieces|, 1
  {
    if pieces == [] then [] else SpelledFrom(pieces)
  }

  function SpelledFrom(pieces: seq<Piece>): Bytes
    requires pieces != []
    decreases |pieces|, 0
  {
    PieceMeans(pieces[0]) + Spelled(pieces[1..])
  }

  /** A string literal from `lo` up to `hi`, quotes included. */
  ghost predicate StringAt(text: Bytes, lo: nat, pieces: seq<Piece>, hi: nat) {
    && lo < |text| && text[lo] == 0x22 && PiecesAt(text, lo + 1, pieces)
    && hi == PiecesEnd(lo + 1, pieces) + 1 <= |text| && text[hi - 1] == 0x22
  }

  lemma {:induction false} PiecesRead(
    text: Bytes, pos: nat, pieces: seq<Piece>, end: nat, out: Bytes, r: Outcome<Bytes>)
    requires PiecesAt(text, pos, pieces) && end == PiecesEnd(pos, pieces) < |text| && text[end] == QUOTE
    requires pos <= |text| && r == StringBody(text, pos, out)
    ensures r == Done(out + Spelled(pieces), end + 1)
    decreases |pieces|
  {
    if pieces == [] {
      assert r == StringByte(text, pos, out);
      assert out + [] == out;
    } else {
      assert PiecesFrom(text, pos, pieces) && Spelled(pieces) == SpelledFrom(pieces);
      PieceRead(text, pos, pieces[0], out, r);
      PiecesRead(text, pos + Width(pieces[0]), pieces[1..], end, out + PieceMeans(pieces[0]), r);
      assert out + PieceMeans(pieces[0]) + Spelled(pieces[1..]) == out + Spelled(pieces);
    }
  }

  lemma {:induction false} ReadPieces(text: Bytes, pos: nat, out: Bytes) returns (pieces: seq<Piece>)
    requires pos <= |text| && StringBody(text, pos, out).Done?
    ensures PiecesAt(text, pos, pieces) && PiecesEnd(pos, pieces) < |text| && text[PiecesEnd(pos, pieces)] == QUOTE
    decreases |text| - pos
  {
    if pos < |text| && text[pos] == QUOTE {
      return [];
    }
    var p := ReadPiece(text, pos, out);
    PieceRead(text, pos, p, out, StringBody(text, pos, out));
    var rest := ReadPieces(text, pos + Width(p), out + PieceMeans(p));
    pieces := [p] + rest;
    assert pieces[1..] == rest && PiecesFrom(text, pos, pieces);
  }

  lemma {:induction false} StringRead(text: Bytes, pos: nat, lo: nat, pieces: seq<Piece>, hi: nat)
    requires Blanks(text, pos, lo) && StringAt(text, lo, pieces, hi)
    ensures ParseString(text, pos) == Done(Spelled(pieces), hi)
  {
    BlanksSkipped(text, pos, lo);
    PiecesRead(text, lo + 1, pieces, hi - 1, [], StringBody(text, lo + 1, []));
    assert [] + Spelled(pieces) == Spelled(pieces);
  }

  lemma {:induction false} ReadString(text: Bytes, pos: nat) returns (lo: nat, pieces: seq<Piece>)
    requires pos <= |text| && ParseString(text, pos).Done?
    ensures Blanks(text, pos, lo) && StringAt(text, lo, pieces, ParseString(text, pos).pos)
    ensures ParseString(text, pos).value == Spelled(pieces)
  {
    lo := SkipSpace(text, pos);
    SkippedBlanks(text, pos);
    pieces := ReadPieces(text, lo + 1, []);
    StringRead(text, pos, lo, pieces, PiecesEnd(lo + 1, pieces) + 1);
  }

  // ---- values ---------------------------------------------------------------------------------------

  /** A value where it stands: each node says where it starts, and where the comma or bracket behind each of its
      elements or members is. */
  datatype Tree =
    | Word(lo: nat, v: Json)
    | Numeral(lo: nat, length: nat, x: real)
    | Text(lo: nat, pieces: seq<Piece>, hi: nat)
    | List(lo: nat, trees: seq<Tree>, marks: seq<nat>, close: nat)
    | Record(lo: nat, members: seq<Member>, close: nat)

  /** A member: its key, the colon, its value, and the comma or bracket behind it. */
  datatype Member = Member(keyAt: nat, key: seq<Piece>, keyEnd: nat, colon: nat, tree: Tree, mark: nat)

  function End(t: Tree): nat {
    match t
    case Word(lo, v) => lo + |Spelling(v)|
    case Numeral(lo, n, _) => lo + n
    case Text(_, _, hi) => hi
    case List(_, _, _, close) => close + 1
    case Record(_, _, close) => close + 1
  }

  /** The three words. */
  function Spelling(v: Json): Bytes {
    if v == Json.Null then [0x6E, 0x75, 0x6C, 0x6C]
    else if v == Json.Bool(true) then [0x74, 0x72, 0x75, 0x65]
    else if v == Json.Bool(false) then [0x66, 0x61, 0x6C, 0x73, 0x65]
    else []
  }

  predicate Stands(text: Bytes, lo: nat, word: Bytes) {
    lo + |word| <= |text| && text[lo..lo + |word|] == word
  }

  predicate WordAt(text: Bytes, lo: nat, v: Json) {
    (v == Json.Null || v == Json.Bool(true) || v == Json.Bool(false)) && Stands(text, lo, Spelling(v))
  }

  /** Nothing but a number can start here. */
  predicate NumeralStart(text: Bytes, lo: nat) {
    && lo < |text| && !Blank(text[lo]) && text[lo] != 0x22 && text[lo] != 0x5B && text[lo] != 0x7B
    && !WordAt(text, lo, Json.Null) && !WordAt(text, lo, Json.Bool(true)) && !WordAt(text, lo, Json.Bool(false))
  }

  /** The tree is how the text reads at its place, `depth` containers deep. */
  ghost predicate Derives(scan: Strtod, text: Bytes, t: Tree, depth: nat)
    decreases t, 3
  {
    depth <= 32 && NodeAt(scan, text, t, depth)
  }

  ghost predicate NodeAt(scan: Strtod, text: Bytes, t: Tree, depth: nat)
    decreases t, 2
  {
    match t
    case Word(lo, v) => WordAt(text, lo, v)
    case Numeral(lo, n, x) => NumeralStart(text, lo) && ScanNumber(scan, text, lo) == Scanned(x, n)
    case Text(lo, pieces, hi) => StringAt(text, lo, pieces, hi)
    case List(lo, trees, marks, close) =>
      && lo < close < |text| && text[lo] == 0x5B && text[close] == 0x5D
      && |marks| == |trees|
      && (if trees == [] then Blanks(text, lo + 1, close)
          else (trees[0].lo < |text| ==> text[trees[0].lo] != 0x5D)
               && ElemsAt(scan, text, lo + 1, trees, marks, close, depth))
    case Record(lo, members, close) =>
      && lo < close < |text| && text[lo] == 0x7B && text[close] == 0x7D
      && (if members == [] then Blanks(text, lo + 1, close) else MembersAt(scan, text, lo + 1, members, close, depth))
  }

  /** Elements with white space round them, commas between them, and `close` behind the last. */
  ghost predicate ElemsAt(scan: Strtod, text: Bytes, pos: nat, trees: seq<Tree>, marks: seq<nat>, close: nat,
                          depth: nat)
    requires trees != [] && |marks| == |trees|
    decreases trees, 0
  {
    && ElemAt(scan, text, pos, trees[0], marks[0], depth)
    && (if |trees| == 1 then marks[0] == close
        else marks[0] < |text| && text[marks[0]] == 0x2C
             && ElemsAt(scan, text, marks[0] + 1, trees[1..], marks[1..], close, depth))
  }

  /** A value, and white space round it up to the mark behind it. */
  ghost predicate ElemAt(scan: Strtod, text: Bytes, pos: nat, t: Tree, mark: nat, depth: nat)
    decreases t, 4
  {
    Blanks(text, pos, t.lo) && Derives(scan, text, t, depth + 1) && Blanks(text, End(t), mark)
  }

  /** Members likewise. */
  ghost predicate MembersAt(scan: Strtod, text: Bytes, pos: nat, members: seq<Member>, close: nat, depth: nat)
    requires members != []
    decreases members, 0
  {
    var m := members[0];
    && MemberAt(scan, text, pos, m, depth)
    && (if |members| == 1 then m.mark == close
        else m.mark < |text| && text[m.mark] == 0x2C
             && MembersAt(scan, text, m.mark + 1, members[1..], close, depth))
  }

  /** A key, a colon and a value. */
  ghost predicate MemberAt(scan: Strtod, text: Bytes, pos: nat, m: Member, depth: nat)
    decreases m, 2
  {
    && KeyAt(text, pos, m)
    && Blanks(text, m.colon + 1, m.tree.lo) && Derives(scan, text, m.tree, depth + 1)
    && Blanks(text, End(m.tree), m.mark)
  }

  ghost predicate KeyAt(text: Bytes, pos: nat, m: Member) {
    && Blanks(text, pos, m.keyAt) && StringAt(text, m.keyAt, m.key, m.keyEnd)
    && Blanks(text, m.keyEnd, m.colon) && m.colon < |text| && text[m.colon] == 0x3A
  }

  function Meaning(t: Tree): Json
    decreases t, 3
  {
    NodeMeans(t)
  }

  function NodeMeans(t: Tree): Json
    decreases t, 2
  {
    match t
    case Word(_, v) => v
    case Numeral(_, _, x) => Json.Number(x)
    case Text(_, pieces, _) => Json.String(Spelled(pieces))
    case List(_, trees, _, _) => Json.Array(Meanings(trees))
    case Record(_, members, _) => Json.Object(Gathered([], members))
  }

  function Meanings(trees: seq<Tree>): seq<Json>
    decreases trees, 1
  {
    if trees == [] then [] else MeaningsFrom(trees)
  }

  function MeaningsFrom(trees: seq<Tree>): seq<Json>
    requires trees != []
    decreases trees, 0
  {
    [Meaning(trees[0])] + Meanings(trees[1..])
  }

  /** The members in order; one with a key already there overwrites it. */
  function Gathered(fields: seq<Field>, members: seq<Member>): seq<Field>
    decreases members, 1
  {
    if members == [] then fields else GatheredFrom(fields, members)
  }

  function GatheredFrom(fields: seq<Field>, members: seq<Member>): seq<Field>
    requires members != []
    decreases members, 0
  {
    Gathered(With(fields, members[0]), members[1..])
  }

  function With(fields: seq<Field>, m: Member): seq<Field>
    decreases m, 4
  {
    Set(fields, Spelled(m.key), Meaning(m.tree))
  }

  // ---- what derives is read -------------------------------------------------------------------------

  lemma {:induction false} StandsAt(text: Bytes, lo: nat, word: Bytes)
    ensures Stands(text, lo, word) <==> At(text, lo, word)
    decreases |word|
  {
    if word != [] && lo < |text| {
      StandsAt(text, lo + 1, word[1..]);
      if Stands(text, lo, word) {
        assert text[lo..lo + |word|][1..] == text[lo + 1..lo + |word|];
      }
      if At(text, lo, word) {
        AtFits(text, lo, word);
        assert text[lo..lo + |word|] == [text[lo]] + text[lo + 1..lo + |word|];
      }
    }
  }

  lemma {:induction false} WordsAt(text: Bytes, lo: nat)
    ensures WordAt(text, lo, Json.Null) <==> At(text, lo, NULL)
    ensures WordAt(text, lo, Json.Bool(true)) <==> At(text, lo, TRUE)
    ensures WordAt(text, lo, Json.Bool(false)) <==> At(text, lo, FALSE)
  {
    StandsAt(text, lo, NULL);
    StandsAt(text, lo, TRUE);
    StandsAt(text, lo, FALSE);
  }

  /** A tree starts with a byte that is not white space. */
  lemma {:induction false} TreeStarts(scan: Strtod, text: Bytes, t: Tree, depth: nat)
    requires NodeAt(scan, text, t, depth)
    ensures t.lo < |text| && !Blank(text[t.lo])
    ensures text[t.lo] == OPEN_LIST <==> t.List?
    ensures text[t.lo] == OPEN_OBJECT <==> t.Record?
    ensures text[t.lo] == QUOTE <==> t.Text?
  {
    if t.Word? {
      assert text[t.lo..t.lo + |Spelling(t.v)|][0] == text[t.lo];
    }
  }

  lemma {:induction false} ScalarRead(scan: Strtod, text: Bytes, t: Tree, depth: nat)
    requires NodeAt(scan, text, t, depth) && !t.List? && !t.Record?
    ensures t.lo < |text| && ParseScalar(scan, text, t.lo) == Done(NodeMeans(t), End(t))
  {
    TreeStarts(scan, text, t, depth);
    WordsAt(text, t.lo);
    if t.Text? {
      StringRead(text, t.lo, t.lo, t.pieces, t.hi);
    }
    if t.Word? {
      OneWord(text, t.lo, t.v);
    }
  }

  lemma {:induction false} OneWord(text: Bytes, lo: nat, v: Json)
    requires WordAt(text, lo, v)
    ensures lo < |text| && text[lo] == Spelling(v)[0]
    ensures v == Json.Null ==> !At(text, lo, TRUE) && !At(text, lo, FALSE)
    ensures v == Json.Bool(false) ==> !At(text, lo, TRUE)
  {
    assert text[lo..lo + |Spelling(v)|][0] == text[lo];
  }

  lemma {:induction false} MarkRead(text: Bytes, e: nat, mark: nat, close: byte)
    requires Blanks(text, e, mark) && mark < |text| && (text[mark] == COMMA || text[mark] == close) && !Blank(close)
    requires close != COMMA
    ensures AfterElement(text, e, close) == if text[mark] == COMMA then More(mark + 1) else Next.End(mark + 1)
  {
    BlanksSkipped(text, e, mark);
    BlanksSkipped(text, mark, mark);
  }

  lemma {:induction false} TreeRead(scan: Strtod, text: Bytes, pos: nat, t: Tree, depth: nat, r: Outcome<Json>)
    requires Blanks(text, pos, t.lo) && Derives(scan, text, t, depth) && r == ParseValue(scan, text, pos, depth)
    ensures r == Done(Meaning(t), End(t))
    decreases t, 3
  {
    TreeStarts(scan, text, t, depth);
    BlanksSkipped(text, pos, t.lo);
    assert r == ParseAt(scan, text, t.lo, depth);
    if t.List? {
      ListRead(scan, text, t, depth, r);
    } else if t.Record? {
      RecordRead(scan, text, t, depth, r);
    } else {
      ScalarRead(scan, text, t, depth);
    }
  }

  lemma {:induction false} ElemsFromFirst(scan: Strtod, text: Bytes, pos: nat, trees: seq<Tree>, marks: seq<nat>,
                                          close: nat, depth: nat)
    requires trees != [] && |marks| == |trees| && ElemsAt(scan, text, pos, trees, marks, close, depth)
    requires trees[0].lo <= |text|
    ensures ElemsAt(scan, text, trees[0].lo, trees, marks, close, depth)
  {
  }

  lemma {:induction false} ListOpens(scan: Strtod, text: Bytes, lo: nat, first: nat, depth: nat, r: Outcome<Json>)
    requires lo < first < |text| && text[lo] == OPEN_LIST && SkipSpace(text, lo + 1) == first
    requires text[first] != CLOSE_LIST && r == ParseAt(scan, text, lo, depth)
    ensures r == ParseItems(scan, text, first, depth, [])
  {
  }

  lemma {:induction false} ListRead(scan: Strtod, text: Bytes, t: Tree, depth: nat, r: Outcome<Json>)
    requires NodeAt(scan, text, t, depth) && t.List? && r == ParseAt(scan, text, t.lo, depth)
    ensures r == Done(NodeMeans(t), End(t))
    decreases t, 2
  {
    if t.trees == [] {
      BlanksSkipped(text, t.lo + 1, t.close);
    } else {
      var first := t.trees[0].lo;
      ElemsSplit(scan, text, t.lo + 1, t.trees, t.marks, t.close, depth);
      TreeStarts(scan, text, t.trees[0], depth + 1);
      BlanksSkipped(text, t.lo + 1, first);
      ElemsFromFirst(scan, text, t.lo + 1, t.trees, t.marks, t.close, depth);
      ListOpens(scan, text, t.lo, first, depth, r);
      assert [] + Meanings(t.trees) == Meanings(t.trees);
      ElemsRead(scan, text, first, t.trees, t.marks, t.close, depth, [], Meanings(t.trees), r);
    }
  }

  lemma {:induction false} ElemsSplit(
    scan: Strtod, text: Bytes, pos: nat, trees: seq<Tree>, marks: seq<nat>, close: nat, depth: nat)
    requires trees != [] && |marks| == |trees| && ElemsAt(scan, text, pos, trees, marks, close, depth)
    ensures ElemAt(scan, text, pos, trees[0], marks[0], depth)
    ensures |trees| == 1 ==> marks[0] == close
    ensures |trees| > 1 ==> marks[0] < |text| && text[marks[0]] == COMMA
                            && ElemsAt(scan, text, marks[0] + 1, trees[1..], marks[1..], close, depth)
  {
  }

  lemma {:induction false} ElemStep(scan: Strtod, text: Bytes, pos: nat, depth: nat, before: seq<Json>, value: Json,
                                    e: nat, mark: nat, r: Outcome<Json>, more: Outcome<Json>)
    requires pos <= |text| && ParseValue(scan, text, pos, depth + 1) == Done(value, e)
    requires Blanks(text, e, mark) && mark < |text| && (text[mark] == COMMA || text[mark] == CLOSE_LIST)
    requires r == ParseItems(scan, text, pos, depth, before)
    requires more == ParseItems(scan, text, mark + 1, depth, before + [value])
    ensures r == if text[mark] == COMMA then more else Done(Json.Array(before + [value]), mark + 1)
  {
    MarkRead(text, e, mark, CLOSE_LIST);
  }

  lemma {:induction false} MeaningsFirst(before: seq<Json>, trees: seq<Tree>, after: seq<Json>, all: seq<Json>)
    requires trees != [] && after == before + [Meaning(trees[0])] && all == before + Meanings(trees)
    ensures all == after + Meanings(trees[1..]) && (|trees| == 1 ==> all == after)
  {
    assert Meanings(trees) == MeaningsFrom(trees) == [Meaning(trees[0])] + Meanings(trees[1..]);
    if |trees| == 1 {
      assert trees[1..] == [] && Meanings(trees[1..]) == [];
    }
  }

  lemma {:induction false} ElemsRead(scan: Strtod, text: Bytes, pos: nat, trees: seq<Tree>, marks: seq<nat>, close: nat,
                                     depth: nat, before: seq<Json>, all: seq<Json>, r: Outcome<Json>)
    requires trees != [] && |marks| == |trees| && ElemsAt(scan, text, pos, trees, marks, close, depth)
    requires close < |text| && text[close] == CLOSE_LIST && pos <= |text|
    requires r == ParseItems(scan, text, pos, depth, before) && all == before + Meanings(trees)
    ensures r == Done(Json.Array(all), close + 1)
    decreases trees, 1
  {
    var after := before + [Meaning(trees[0])];
    MeaningsFirst(before, trees, after, all);
    ElemsSplit(scan, text, pos, trees, marks, close, depth);
    ElemRead(scan, text, pos, trees[0], marks[0], depth, before, after, r);
    if |trees| > 1 {
      ElemsRead(scan, text, marks[0] + 1, trees[1..], marks[1..], close, depth, after, all, r);
    }
  }

  lemma {:induction false} ElemRead(scan: Strtod, text: Bytes, pos: nat, t: Tree, mark: nat, depth: nat,
                                    before: seq<Json>, after: seq<Json>, r: Outcome<Json>)
    requires ElemAt(scan, text, pos, t, mark, depth)
    requires mark < |text| && (text[mark] == COMMA || text[mark] == CLOSE_LIST)
    requires after == before + [Meaning(t)] && r == ParseItems(scan, text, pos, depth, before)
    ensures r == if text[mark] == COMMA then ParseItems(scan, text, mark + 1, depth, after)
                 else Done(Json.Array(after), mark + 1)
    decreases t, 5
  {
    ValueRead(scan, text, pos, t, depth + 1);
    ElemStep(scan, text, pos, depth, before, Meaning(t), End(t), mark, r,
             ParseItems(scan, text, mark + 1, depth, after));
  }

  lemma {:induction false} MembersFromFirst(scan: Strtod, text: Bytes, pos: nat, members: seq<Member>, close: nat,
                                            depth: nat)
    requires members != [] && MembersAt(scan, text, pos, members, close, depth) && members[0].keyAt <= |text|
    ensures MembersAt(scan, text, members[0].keyAt, members, close, depth)
  {
  }

  lemma {:induction false} RecordRead(scan: Strtod, text: Bytes, t: Tree, depth: nat, r: Outcome<Json>)
    requires NodeAt(scan, text, t, depth) && t.Record? && r == ParseAt(scan, text, t.lo, depth)
    ensures r == Done(NodeMeans(t), End(t))
    decreases t, 2
  {
    if t.members == [] {
      BlanksSkipped(text, t.lo + 1, t.close);
    } else {
      MembersSplit(scan, text, t.lo + 1, t.members, t.close, depth);
      assert KeyAt(text, t.lo + 1, t.members[0]);
      BlanksSkipped(text, t.lo + 1, t.members[0].keyAt);
      MembersFromFirst(scan, text, t.lo + 1, t.members, t.close, depth);
      MembersRead(scan, text, t.members[0].keyAt, t.members, t.close, depth, [], Gathered([], t.members), r);
    }
  }

  lemma {:induction false} KeyRead(text: Bytes, pos: nat, m: Member)
    requires KeyAt(text, pos, m)
    ensures pos < |text| && ParseKey(text, pos) == Done(Spelled(m.key), m.colon + 1)
  {
    StringRead(text, pos, m.keyAt, m.key, m.keyEnd);
    BlanksSkipped(text, m.keyEnd, m.colon);
  }

  lemma {:induction false} MembersSplit(
    scan: Strtod, text: Bytes, pos: nat, members: seq<Member>, close: nat, depth: nat)
    requires members != [] && MembersAt(scan, text, pos, members, close, depth)
    ensures MemberAt(scan, text, pos, members[0], depth)
    ensures |members| == 1 ==> members[0].mark == close
    ensures |members| > 1 ==> members[0].mark < |text| && text[members[0].mark] == COMMA
                              && MembersAt(scan, text, members[0].mark + 1, members[1..], close, depth)
  {
  }

  lemma {:induction false} PairStep(scan: Strtod, text: Bytes, pos: nat, depth: nat, before: seq<Field>, key: Bytes,
                                    q: nat, value: Json, e: nat, mark: nat, r: Outcome<Json>, more: Outcome<Json>)
    requires pos < |text| && ParseKey(text, pos) == Done(key, q)
    requires ParseValue(scan, text, q, depth + 1) == Done(value, e)
    requires Blanks(text, e, mark) && mark < |text| && (text[mark] == COMMA || text[mark] == CLOSE_OBJECT)
    requires r == ParseMembers(scan, text, pos, depth, before)
    requires more == ParseMembers(scan, text, mark + 1, depth, Set(before, key, value))
    ensures r == if text[mark] == COMMA then more else Done(Json.Object(Set(before, key, value)), mark + 1)
  {
    assert r == ParseMembersAt(scan, text, pos, depth, before);
    assert r == ParseMember(scan, text, q, depth, before, key);
    MarkRead(text, e, mark, CLOSE_OBJECT);
  }

  lemma {:induction false} GatheredFirst(before: seq<Field>, members: seq<Member>, after: seq<Field>)
    requires members != [] && after == With(before, members[0])
    ensures Gathered(before, members) == Gathered(after, members[1..])
    ensures |members| == 1 ==> Gathered(before, members) == after
  {
    assert Gathered(before, members) == GatheredFrom(before, members);
    assert |members| == 1 ==> members[1..] == [];
  }

  lemma {:induction false} MemberRead(scan: Strtod, text: Bytes, pos: nat, m: Member, depth: nat, before: seq<Field>,
                                      after: seq<Field>, r: Outcome<Json>)
    requires MemberAt(scan, text, pos, m, depth) && pos <= |text|
    requires m.mark < |text| && (text[m.mark] == COMMA || text[m.mark] == CLOSE_OBJECT)
    requires after == With(before, m) && r == ParseMembers(scan, text, pos, depth, before)
    ensures r == if text[m.mark] == COMMA then ParseMembers(scan, text, m.mark + 1, depth, after)
                 else Done(Json.Object(after), m.mark + 1)
    decreases m, 4
  {
    KeyRead(text, pos, m);
    ValueRead(scan, text, m.colon + 1, m.tree, depth + 1);
    PairStep(scan, text, pos, depth, before, Spelled(m.key), m.colon + 1, Meaning(m.tree), End(m.tree), m.mark, r,
             ParseMembers(scan, text, m.mark + 1, depth, after));
  }

  lemma {:induction false} ValueRead(scan: Strtod, text: Bytes, q: nat, t: Tree, depth: nat)
    requires Blanks(text, q, t.lo) && Derives(scan, text, t, depth)
    ensures ParseValue(scan, text, q, depth) == Done(Meaning(t), End(t))
    decreases t, 4
  {
    TreeRead(scan, text, q, t, depth, ParseValue(scan, text, q, depth));
  }

  lemma {:induction false} MembersRead(scan: Strtod, text: Bytes, pos: nat, members: seq<Member>, close: nat,
                                       depth: nat, before: seq<Field>, all: seq<Field>, r: Outcome<Json>)
    requires members != [] && MembersAt(scan, text, pos, members, close, depth)
    requires close < |text| && text[close] == CLOSE_OBJECT && pos <= |text|
    requires r == ParseMembers(scan, text, pos, depth, before) && all == Gathered(before, members)
    ensures r == Done(Json.Object(all), close + 1)
    decreases members, 1
  {
    var after := With(before, members[0]);
    GatheredFirst(before, members, after);
    MembersSplit(scan, text, pos, members, close, depth);
    MemberRead(scan, text, pos, members[0], depth, before, after, r);
    if |members| > 1 {
      MembersRead(scan, text, members[0].mark + 1, members[1..], close, depth, after, all, r);
    }
  }

  // ---- what is read derives -------------------------------------------------------------------------

  lemma {:induction false} BlanksJoin(text: Bytes, lo: nat, mid: nat, hi: nat)
    requires Blanks(text, lo, mid) && Blanks(text, mid, hi)
    ensures Blanks(text, lo, hi)
    decreases mid - lo
  {
    if lo < mid {
      BlanksJoin(text, lo + 1, mid, hi);
    }
  }

  lemma {:induction false} ReadMark(text: Bytes, pos: nat, close: byte) returns (mark: nat)
    requires pos <= |text| && !AfterElement(text, pos, close).Neither? && !Blank(close)
    ensures Blanks(text, pos, mark) && mark < |text| && (text[mark] == COMMA || text[mark] == close)
    ensures AfterElement(text, pos, close) == if text[mark] == COMMA then More(mark + 1) else Next.End(mark + 1)
  {
    mark := SkipSpace(text, pos);
    SkippedBlanks(text, pos);
    BlanksSkipped(text, mark, mark);
  }

  lemma {:induction false} ReadScalar(scan: Strtod, text: Bytes, lo: nat) returns (t: Tree)
    requires lo < |text| && !Blank(text[lo]) && text[lo] != OPEN_LIST && text[lo] != OPEN_OBJECT
    requires ParseScalar(scan, text, lo).Done?
    ensures t.lo == lo && !t.List? && !t.Record? && forall depth: nat :: NodeAt(scan, text, t, depth)
  {
    WordsAt(text, lo);
    if text[lo] == QUOTE {
      var at, pieces := ReadString(text, lo);
      assert at == lo;
      t := Text(lo, pieces, ParseString(text, lo).pos);
    } else if At(text, lo, TRUE) {
      t := Word(lo, Json.Bool(true));
    } else if At(text, lo, FALSE) {
      t := Word(lo, Json.Bool(false));
    } else if At(text, lo, NULL) {
      t := Word(lo, Json.Null);
    } else {
      var s := ScanNumber(scan, text, lo);
      t := Numeral(lo, s.length, s.value);
    }
  }

  lemma {:induction false} ReadTree(scan: Strtod, text: Bytes, pos: nat, depth: nat) returns (t: Tree)
    requires pos <= |text| && ParseValue(scan, text, pos, depth).Done?
    ensures Blanks(text, pos, t.lo) && Derives(scan, text, t, depth)
    decreases |text| - pos, 3
  {
    var lo := SkipSpace(text, pos);
    SkippedBlanks(text, pos);
    assert ParseValue(scan, text, pos, depth) == ParseAt(scan, text, lo, depth);
    if text[lo] == OPEN_LIST {
      t := ReadList(scan, text, lo, depth);
    } else if text[lo] == OPEN_OBJECT {
      t := ReadRecord(scan, text, lo, depth);
    } else {
      t := ReadScalar(scan, text, lo);
    }
  }

  lemma {:induction false} ReadList(scan: Strtod, text: Bytes, lo: nat, depth: nat) returns (t: Tree)
    requires lo < |text| && text[lo] == OPEN_LIST && ParseAt(scan, text, lo, depth).Done?
    ensures t.List? && t.lo == lo && NodeAt(scan, text, t, depth)
    decreases |text| - lo, 2
  {
    var q := SkipSpace(text, lo + 1);
    SkippedBlanks(text, lo + 1);
    if q < |text| && text[q] == CLOSE_LIST {
      t := List(lo, [], [], q);
    } else {
      var trees, marks, close := ReadElems(scan, text, q, depth, []);
      ElemsSplit(scan, text, q, trees, marks, close, depth);
      BlanksJoin(text, lo + 1, q, trees[0].lo);
      ElemsEarlier(scan, text, lo + 1, q, trees, marks, close, depth);
      t := List(lo, trees, marks, close);
    }
  }

  lemma {:induction false} ElemsEarlier(scan: Strtod, text: Bytes, lo: nat, q: nat, trees: seq<Tree>, marks: seq<nat>,
                                        close: nat, depth: nat)
    requires trees != [] && |marks| == |trees| && ElemsAt(scan, text, q, trees, marks, close, depth)
    requires Blanks(text, lo, trees[0].lo)
    ensures ElemsAt(scan, text, lo, trees, marks, close, depth)
  {
  }

  /** A value and the comma or bracket behind it. */
  lemma {:induction false} ReadBranch(scan: Strtod, text: Bytes, pos: nat, depth: nat, close: byte, v: Outcome<Json>)
    returns (t: Tree, mark: nat)
    requires pos <= |text| && v == ParseValue(scan, text, pos, depth) && v.Done? && !Blank(close)
    requires !AfterElement(text, v.pos, close).Neither?
    ensures Blanks(text, pos, t.lo) && Derives(scan, text, t, depth) && Blanks(text, End(t), mark)
    ensures pos <= mark < |text| && (text[mark] == COMMA || text[mark] == close)
    decreases |text| - pos, 4
  {
    t := ReadTree(scan, text, pos, depth);
    TreeRead(scan, text, pos, t, depth, v);
    mark := ReadMark(text, v.pos, close);
  }

  lemma {:induction false} ReadElem(scan: Strtod, text: Bytes, pos: nat, depth: nat, before: seq<Json>)
    returns (t: Tree, mark: nat)
    requires pos <= |text| && ParseItems(scan, text, pos, depth, before).Done?
    ensures ElemAt(scan, text, pos, t, mark, depth)
    ensures pos <= mark < |text| && (text[mark] == COMMA || text[mark] == CLOSE_LIST)
    decreases |text| - pos, 5
  {
    t, mark := ReadBranch(scan, text, pos, depth + 1, CLOSE_LIST, ParseValue(scan, text, pos, depth + 1));
  }

  lemma {:induction false} MoreElems(
    scan: Strtod, text: Bytes, pos: nat, depth: nat, before: seq<Json>, t: Tree, mark: nat)
    returns (after: seq<Json>)
    requires pos <= |text| && ParseItems(scan, text, pos, depth, before).Done?
    requires ElemAt(scan, text, pos, t, mark, depth)
    requires mark < |text| && text[mark] == COMMA
    ensures ParseItems(scan, text, mark + 1, depth, after).Done?
  {
    after := before + [Meaning(t)];
    ElemRead(scan, text, pos, t, mark, depth, before, after, ParseItems(scan, text, pos, depth, before));
  }

  lemma {:induction false} ReadElems(scan: Strtod, text: Bytes, pos: nat, depth: nat, before: seq<Json>)
    returns (trees: seq<Tree>, marks: seq<nat>, close: nat)
    requires pos <= |text| && ParseItems(scan, text, pos, depth, before).Done?
    ensures trees != [] && |marks| == |trees| && pos <= close < |text| && text[close] == CLOSE_LIST
    ensures ElemsAt(scan, text, pos, trees, marks, close, depth)
    decreases |text| - pos, 6
  {
    var t, mark := ReadElem(scan, text, pos, depth, before);
    var more, others := [], [];
    close := mark;
    if text[mark] == COMMA {
      var after := MoreElems(scan, text, pos, depth, before, t, mark);
      more, others, close := ReadElems(scan, text, mark + 1, depth, after);
    }
    trees, marks := [t] + more, [mark] + others;
    ElemsMade(scan, text, pos, t, mark, more, others, trees, marks, close, depth);
  }

  lemma {:induction false} ElemsMade(
    scan: Strtod, text: Bytes, pos: nat, t: Tree, mark: nat, more: seq<Tree>, others: seq<nat>,
    trees: seq<Tree>, marks: seq<nat>, close: nat, depth: nat)
    requires |others| == |more| && trees == [t] + more && marks == [mark] + others
    requires ElemAt(scan, text, pos, t, mark, depth)
    requires more == [] ==> mark == close
    requires more != [] ==> mark < |text| && text[mark] == COMMA
                            && ElemsAt(scan, text, mark + 1, more, others, close, depth)
    ensures ElemsAt(scan, text, pos, trees, marks, close, depth)
  {
    assert trees[1..] == more && marks[1..] == others;
  }

  lemma {:induction false} ReadRecord(scan: Strtod, text: Bytes, lo: nat, depth: nat) returns (t: Tree)
    requires lo < |text| && text[lo] == OPEN_OBJECT && ParseAt(scan, text, lo, depth).Done?
    ensures t.Record? && t.lo == lo && NodeAt(scan, text, t, depth)
    decreases |text| - lo, 2
  {
    var q := SkipSpace(text, lo + 1);
    SkippedBlanks(text, lo + 1);
    if q < |text| && text[q] == CLOSE_OBJECT {
      t := Record(lo, [], q);
    } else {
      var members, close := ReadMembers(scan, text, q, depth, []);
      MembersSplit(scan, text, q, members, close, depth);
      BlanksJoin(text, lo + 1, q, members[0].keyAt);
      MembersEarlier(scan, text, lo + 1, q, members, close, depth);
      t := Record(lo, members, close);
    }
  }

  lemma {:induction false} MembersEarlier(scan: Strtod, text: Bytes, lo: nat, q: nat, members: seq<Member>, close: nat,
                                          depth: nat)
    requires members != [] && MembersAt(scan, text, q, members, close, depth)
    requires Blanks(text, lo, members[0].keyAt)
    ensures MembersAt(scan, text, lo, members, close, depth)
  {
  }

  /** The key and the colon, with the value and the mark behind them. */
  lemma {:induction false} ReadKey(text: Bytes, pos: nat, t: Tree, mark: nat) returns (m: Member)
    requires pos <= |text| && ParseKey(text, pos).Done?
    ensures KeyAt(text, pos, m) && m.tree == t && m.mark == mark
    ensures ParseKey(text, pos).pos == m.colon + 1
  {
    var keyAt, key := ReadString(text, pos);
    var keyEnd := ParseString(text, pos).pos;
    SkippedBlanks(text, keyEnd);
    m := Member(keyAt, key, keyEnd, SkipSpace(text, keyEnd), t, mark);
  }

  lemma {:induction false} MemberParts(scan: Strtod, text: Bytes, pos: nat, depth: nat, before: seq<Field>)
    returns (key: Outcome<Bytes>, v: Outcome<Json>)
    requires pos <= |text| && ParseMembers(scan, text, pos, depth, before).Done?
    ensures key == ParseKey(text, pos) && key.Done?
    ensures v == ParseValue(scan, text, key.pos, depth + 1) && v.Done?
    ensures !AfterElement(text, v.pos, CLOSE_OBJECT).Neither?
  {
    assert ParseMembers(scan, text, pos, depth, before) == ParseMembersAt(scan, text, pos, depth, before);
    key := ParseKey(text, pos);
    assert ParseMembers(scan, text, pos, depth, before) == ParseMember(scan, text, key.pos, depth, before, key.value);
    v := ParseValue(scan, text, key.pos, depth + 1);
  }

  lemma {:induction false} ReadMember(
    scan: Strtod, text: Bytes, pos: nat, depth: nat, k: Outcome<Bytes>, v: Outcome<Json>)
    returns (m: Member)
    requires pos <= |text| && k == ParseKey(text, pos) && k.Done?
    requires v == ParseValue(scan, text, k.pos, depth + 1) && v.Done?
    requires !AfterElement(text, v.pos, CLOSE_OBJECT).Neither?
    ensures MemberAt(scan, text, pos, m, depth)
    ensures m.mark < |text| && (text[m.mark] == COMMA || text[m.mark] == CLOSE_OBJECT) && pos <= m.mark
    decreases |text| - pos, 5
  {
    var t, mark := ReadBranch(scan, text, k.pos, depth + 1, CLOSE_OBJECT, v);
    m := ReadKey(text, pos, t, mark);
  }

  lemma {:induction false} MoreMembers(scan: Strtod, text: Bytes, pos: nat, depth: nat, before: seq<Field>, m: Member)
    returns (after: seq<Field>)
    requires pos <= |text| && ParseMembers(scan, text, pos, depth, before).Done?
    requires MemberAt(scan, text, pos, m, depth) && m.mark < |text| && text[m.mark] == COMMA
    ensures ParseMembers(scan, text, m.mark + 1, depth, after).Done?
  {
    after := With(before, m);
    MemberRead(scan, text, pos, m, depth, before, after, ParseMembers(scan, text, pos, depth, before));
  }

  lemma {:induction false} ReadMembers(scan: Strtod, text: Bytes, pos: nat, depth: nat, before: seq<Field>)
    returns (members: seq<Member>, close: nat)
    requires pos <= |text| && ParseMembers(scan, text, pos, depth, before).Done?
    ensures members != [] && pos <= close < |text| && text[close] == CLOSE_OBJECT
    ensures MembersAt(scan, text, pos, members, close, depth)
    decreases |text| - pos, 6
  {
    var k, v := MemberParts(scan, text, pos, depth, before);
    var m := ReadMember(scan, text, pos, depth, k, v);
    var more := [];
    close := m.mark;
    if text[m.mark] == COMMA {
      var after := MoreMembers(scan, text, pos, depth, before, m);
      more, close := ReadMembers(scan, text, m.mark + 1, depth, after);
    }
    members := [m] + more;
    MembersMade(scan, text, pos, m, more, members, close, depth);
  }

  lemma {:induction false} MembersMade(scan: Strtod, text: Bytes, pos: nat, m: Member, more: seq<Member>,
                                       members: seq<Member>, close: nat, depth: nat)
    requires members == [m] + more && MemberAt(scan, text, pos, m, depth)
    requires more == [] ==> m.mark == close
    requires more != [] ==> m.mark < |text| && text[m.mark] == COMMA
                            && MembersAt(scan, text, m.mark + 1, more, close, depth)
    ensures MembersAt(scan, text, pos, members, close, depth)
  {
    assert members[1..] == more;
  }

  // ---- whole texts ----------------------------------------------------------------------------------

  /** One value with white space round it, in at most a mebibyte. */
  ghost predicate Document(scan: Strtod, text: Bytes, t: Tree) {
    |text| <= 0x10_0000 && Blanks(text, 0, t.lo) && Derives(scan, text, t, 0) && Blanks(text, End(t), |text|)
  }

  /** Main result: the parser accepts exactly the texts that derive, with the value they derive. */
  lemma {:induction false} AcceptsExactly(scan: Strtod, text: Bytes, v: Json)
    ensures Parse(scan, text) == Done(v, |text|) <==> exists t :: Document(scan, text, t) && Meaning(t) == v
    ensures Parse(scan, text).Done? ==> Parse(scan, text).pos == |text|
  {
    if Parse(scan, text) == Done(v, |text|) {
      var t := ReadTree(scan, text, 0, 0);
      TreeRead(scan, text, 0, t, 0, ParseValue(scan, text, 0, 0));
      SkippedBlanks(text, End(t));
      assert Document(scan, text, t) && Meaning(t) == v;
    }
    if exists t :: Document(scan, text, t) && Meaning(t) == v {
      var t :| Document(scan, text, t) && Meaning(t) == v;
      TreeRead(scan, text, 0, t, 0, ParseValue(scan, text, 0, 0));
      BlanksSkipped(text, End(t), |text|);
    }
  }
}
