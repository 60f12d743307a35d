/** How a printed value is read, piece by piece: strings, numbers, containers, and whole values wherever they
    stand in a text; and what every accepted text has in common. */
module JsonReading {
  import opened Basics
  import opened JsonText

  // ---- pieces of text -------------------------------------------------------------------------------

  lemma {:induction false} AtSplit(text: Bytes, pos: nat, a: Bytes, b: Bytes)
    ensures At(text, pos, a + b) <==> At(text, pos, a) && At(text, pos + |a|, b)
    decreases |a|
  {
    if a == [] {
      assert a + b == b;
      if At(text, pos, b) {
        AtFits(text, pos, b);
      }
    } else if pos < |text| {
      assert (a + b)[1..] == a[1..] + b;
      AtSplit(text, pos + 1, a[1..], b);
    }
  }

  lemma {:induction false} AtByte(text: Bytes, pos: nat, s: Bytes, i: nat)
    requires At(text, pos, s) && i < |s|
    ensures pos + i < |text| && text[pos + i] == s[i]
    decreases i
  {
    if i > 0 {
      AtByte(text, pos + 1, s[1..], i - 1);
    }
  }

  lemma {:induction false} AtWhole(s: Bytes, tail: Bytes)
    ensures At(s + tail, 0, s)
  {
    AtPrefix(s, tail, 0);
  }

  lemma {:induction false} AtPrefix(s: Bytes, tail: Bytes, i: nat)
    requires i <= |s|
    ensures At(s + tail, i, s[i..])
    decreases |s| - i
  {
    if i < |s| {
      AtPrefix(s, tail, i + 1);
      assert s[i..][1..] == s[i + 1..];
    }
  }

  lemma {:induction false} Regroup<T>(before: seq<T>, s: seq<T>)
    requires s != []
    ensures before + [s[0]] + s[1..] == before + s
  {
  }

  // ---- strings --------------------------------------------------------------------------------------

  lemma {:induction false} HexOfByte(d: nat)
    requires d < 16
    ensures HexValue(HexOf(d)) == Some(d)
  {
  }

  lemma {:induction false} HexReads(text: Bytes, pos: nat, a: nat, b: nat, c: nat, d: nat)
    requires pos + 4 <= |text| && a < 16 && b < 16 && c < 16 && d < 16
    requires HexValue(text[pos]) == Some(a) && HexValue(text[pos + 1]) == Some(b) && HexValue(text[pos + 2]) == Some(c)
    requires HexValue(text[pos + 3]) == Some(d)
    ensures HexFour(text, pos) == Some(((a * 16 + b) * 16 + c) * 16 + d)
  {
    assert Hex(text, pos, 0) == Some(0);
    assert Hex(text, pos, 1) == Some(a);
    assert Hex(text, pos, 2) == Some(a * 16 + b);
    assert Hex(text, pos, 3) == Some((a * 16 + b) * 16 + c);
    assert Hex(text, pos, 4) == Some(((a * 16 + b) * 16 + c) * 16 + d);
  }

  lemma {:induction false} ControlReads(text: Bytes, pos: nat, c: byte)
    requires c < 0x20 && At(text, pos, [0x30, 0x30, HexOf(c / 16), HexOf(c % 16)])
    ensures Unicode(text, pos) == Done([c], pos + 4)
  {
    var s := [0x30, 0x30, HexOf(c / 16), HexOf(c % 16)];
    AtByte(text, pos, s, 0);
    AtByte(text, pos, s, 1);
    AtByte(text, pos, s, 2);
    AtByte(text, pos, s, 3);
    HexOfByte(c / 16);
    HexOfByte(c % 16);
    HexReads(text, pos, 0, 0, c / 16, c % 16);
  }

  /** One printed byte is read back as that byte. */
  lemma {:induction false} ByteReads(text: Bytes, pos: nat, c: byte, out: Bytes)
    requires At(text, pos, EscapeByte(c))
    ensures pos + |EscapeByte(c)| <= |text|
    ensures StringBody(text, pos, out) == StringBody(text, pos + |EscapeByte(c)|, out + [c])
  {
    var s := EscapeByte(c);
    AtFits(text, pos, s);
    AtByte(text, pos, s, 0);
    if s[0] == BACKSLASH {
      AtByte(text, pos, s, 1);
      if s[1] == LETTER_U {
        AtSplit(text, pos, s[..2], s[2..]);
        assert s == s[..2] + s[2..];
        ControlReads(text, pos + 2, c);
      }
    }
  }

  lemma {:induction false} EscapedSplit(text: Bytes, pos: nat, s: Bytes)
    requires s != [] && At(text, pos, Escaped(s) + [QUOTE])
    ensures At(text, pos, EscapeByte(s[0])) && At(text, pos + |EscapeByte(s[0])|, Escaped(s[1..]) + [QUOTE])
    ensures |Escaped(s)| == |EscapeByte(s[0])| + |Escaped(s[1..])|
  {
    assert Escaped(s) + [QUOTE] == EscapeByte(s[0]) + (Escaped(s[1..]) + [QUOTE]);
    AtSplit(text, pos, EscapeByte(s[0]), Escaped(s[1..]) + [QUOTE]);
  }

  lemma {:induction false} StringReads(text: Bytes, pos: nat, s: Bytes, out: Bytes)
    requires At(text, pos, Escaped(s) + [QUOTE])
    ensures StringBody(text, pos, out) == Done(out + s, pos + |Escaped(s)| + 1)
    decreases |s|
  {
    if s == [] {
      AtByte(text, pos, Escaped(s) + [QUOTE], 0);
      assert out + s == out;
    } else {
      EscapedSplit(text, pos, s);
      ByteReads(text, pos, s[0], out);
      StringReads(text, pos + |EscapeByte(s[0])|, s[1..], out + [s[0]]);
      Regroup(out, s);
    }
  }

  lemma {:induction false} QuotedReads(text: Bytes, pos: nat, s: Bytes)
    requires At(text, pos, [QUOTE] + Escaped(s) + [QUOTE])
    ensures ParseString(text, pos) == Done(s, pos + |Escaped(s)| + 2)
  {
    assert [QUOTE] + Escaped(s) + [QUOTE] == [QUOTE] + (Escaped(s) + [QUOTE]);
    AtSplit(text, pos, [QUOTE], Escaped(s) + [QUOTE]);
    AtByte(text, pos, [QUOTE], 0);
    StringReads(text, pos + 1, s, []);
    assert [] + s == s;
  }

  // ---- numbers --------------------------------------------------------------------------------------

  /** What may follow a value without becoming part of it. */
  predicate Stops(text: Bytes, p: nat) {
    p >= |text| || text[p] == COMMA || text[p] == CLOSE_LIST || text[p] == CLOSE_OBJECT || Space(text[p])
  }

  lemma {:induction false} DigitsEndAt(text: Bytes, pos: nat, end: nat)
    requires pos <= end <= |text| && AllDigits(text, pos, end) && (end < |text| ==> !Digit(text[end]))
    ensures DigitsEnd(text, pos) == end
    decreases end - pos
  {
    if pos < end {
      DigitFirst(text, pos, end);
      DigitsEndAt(text, pos + 1, end);
    }
  }

  lemma {:induction false} DigitsRead(text: Bytes, pos: nat, n: nat)
    requires At(text, pos, Digits(n))
    ensures pos + |Digits(n)| <= |text|
    ensures AllDigits(text, pos, pos + |Digits(n)|) && DigitsValue(text, pos, pos + |Digits(n)|) == n
    decreases n
  {
    var s := Digits(n);
    AtFits(text, pos, s);
    AtByte(text, pos, s, |s| - 1);
    if n < 10 {
      assert DigitsValue(text, pos, pos) == 0;
    } else {
      AtSplit(text, pos, Digits(n / 10), [0x30 + n % 10]);
      DigitsRead(text, pos, n / 10);
    }
  }

  lemma {:induction false} NumberReads(other: Strtod, text: Bytes, pos: nat, n: int)
    requires At(text, pos, Decimal(n)) && Stops(text, pos + |Decimal(n)|) && -ExactIntegers <= n <= ExactIntegers
    ensures pos < |text| && (text[pos] == MINUS || Digit(text[pos]))
    ensures ScanNumber(other, text, pos) == Scanned(n as real, |Decimal(n)|)
  {
    AtByte(text, pos, Decimal(n), 0);
    AtFits(text, pos, Decimal(n));
    var m := if n < 0 then -n else n;
    var lo := if n < 0 then pos + 1 else pos;
    if n < 0 {
      AtSplit(text, pos, [MINUS], Digits(-n));
    }
    DigitsRead(text, lo, m);
    var hi := lo + |Digits(m)|;
    DigitFirst(text, lo, hi);
    assert Digit(text[lo]);
    assert hi < |text| ==> !Digit(text[hi]);
    DigitsEndAt(text, lo, hi);
  }

  // ---- values ---------------------------------------------------------------------------------------

  /** An integer a double holds exactly. */
  predicate SmallInteger(x: real) {
    Integral(x) && -ExactIntegers <= x.Floor <= ExactIntegers
  }

  function NumberText(lib: Library, x: real): Bytes { Dump(Number(x), lib.fraction) }

  /** The scanner finds `s` at the text `t`, wherever that stands. */
  ghost predicate TextScans(lib: Library, t: Bytes, s: Scan) {
    && t != [] && (t[0] == MINUS || Digit(t[0]))
    && forall text: Bytes, pos: nat {:trigger ScanNumber(lib.scan, text, pos)} ::
      pos < |text| && At(text, pos, t) && Stops(text, pos + |t|) ==> ScanNumber(lib.scan, text, pos) == s
  }

  /** What is left of a number that has been printed and read. */
  function After(lib: Library, x: real): real {
    if SmallInteger(x) then x else lib.rounded(x)
  }

  /** The text of the number is read, as what is left of it. */
  ghost predicate Rounds(lib: Library, x: real) {
    SmallInteger(x) || TextScans(lib, NumberText(lib, x), Scanned(lib.rounded(x), |NumberText(lib, x)|))
  }

  /** The text of the number is beyond what a double holds. */
  ghost predicate Overflows(lib: Library, x: real) {
    !SmallInteger(x) && TextScans(lib, NumberText(lib, x), Infinite)
  }

  /** The library reads every number it prints, as what is left of it, or finds that it overflows. */
  ghost predicate Sound(lib: Library) {
    forall x: real {:trigger Rounds(lib, x)} :: Rounds(lib, x) || Overflows(lib, x)
  }

  /** All numbers of the value survive printing and reading, rounded or not. */
  ghost predicate Readable(lib: Library, v: Json) {
    match v
    case Number(x) => Rounds(lib, x)
    case Array(items) => forall i :: 0 <= i < |items| ==> Readable(lib, items[i])
    case Object(fields) => forall i :: 0 <= i < |fields| ==> Readable(lib, fields[i].value)
    case _ => true
  }

  /** The library makes something of every number of the value: it rounds, or it overflows. */
  ghost predicate Known(lib: Library, v: Json) {
    match v
    case Number(x) => Rounds(lib, x) || Overflows(lib, x)
    case Array(items) => forall i :: 0 <= i < |items| ==> Known(lib, items[i])
    case Object(fields) => forall i :: 0 <= i < |fields| ==> Known(lib, fields[i].value)
    case _ => true
  }

  /** The value with every number replaced by what is left of it. */
  function Rounded(lib: Library, v: Json): Json {
    match v
    case Number(x) => Number(After(lib, x))
    case Array(items) => Array(RoundedItems(lib, items))
    case Object(fields) => Object(RoundedFields(lib, fields))
    case _ => v
  }

  function RoundedItems(lib: Library, items: seq<Json>): (r: seq<Json>)
    ensures |r| == |items|
  {
    if items == [] then [] else [Rounded(lib, items[0])] + RoundedItems(lib, items[1..])
  }

  function RoundedFields(lib: Library, fields: seq<Field>): (r: seq<Field>)
    ensures |r| == |fields|
  {
    if fields == [] then [] else [RoundedField(lib, fields[0])] + RoundedFields(lib, fields[1..])
  }

  function RoundedField(lib: Library, f: Field): Field { Field(f.key, Rounded(lib, f.value)) }

  lemma {:induction false} RoundedItemAt(lib: Library, items: seq<Json>, i: nat)
    requires i < |items|
    ensures RoundedItems(lib, items)[i] == Rounded(lib, items[i])
    decreases i
  {
    if i > 0 {
      RoundedItemAt(lib, items[1..], i - 1);
    }
  }

  lemma {:induction false} RoundedFieldAt(lib: Library, fields: seq<Field>, i: nat)
    requires i < |fields|
    ensures RoundedFields(lib, fields)[i] == RoundedField(lib, fields[i])
    decreases i
  {
    if i > 0 {
      RoundedFieldAt(lib, fields[1..], i - 1);
    }
  }

  predicate DistinctKeys(fields: seq<Field>) {
    forall i, j :: 0 <= i < j < |fields| ==> fields[i].key != fields[j].key
  }

  /** No object has the same key twice. */
  predicate KeysUnique(v: Json) {
    match v
    case Array(items) => forall i :: 0 <= i < |items| ==> KeysUnique(items[i])
    case Object(fields) => DistinctKeys(fields) && forall i :: 0 <= i < |fields| ==> KeysUnique(fields[i].value)
    case _ => true
  }

  /** Standing inside `depth` containers, the value puts nothing inside more than `MaxDepth`. */
  predicate Within(v: Json, depth: nat) {
    match v
    case Array(items) =>
      (items != [] ==> depth < MaxDepth) && forall i :: 0 <= i < |items| ==> Within(items[i], depth + 1)
    case Object(fields) =>
      (fields != [] ==> depth < MaxDepth) && forall i :: 0 <= i < |fields| ==> Within(fields[i].value, depth + 1)
    case _ => true
  }

  predicate ItemsFit(items: seq<Json>, depth: nat) {
    (items != [] ==> depth < MaxDepth) && forall i :: 0 <= i < |items| ==>
      KeysUnique(items[i]) && Within(items[i], depth + 1)
  }

  predicate FieldsFit(fields: seq<Field>, depth: nat) {
    (fields != [] ==> depth < MaxDepth) && forall i :: 0 <= i < |fields| ==>
      KeysUnique(fields[i].value) && Within(fields[i].value, depth + 1)
  }

  predicate Fits(v: Json, depth: nat) {
    depth <= MaxDepth && KeysUnique(v) && Within(v, depth)
  }

  lemma {:induction false} SetNew(fields: seq<Field>, key: Bytes, value: Json)
    requires forall i :: 0 <= i < |fields| ==> fields[i].key != key
    ensures Set(fields, key, value) == fields + [Field(key, value)]
  {
    if fields != [] {
      SetNew(fields[1..], key, value);
      assert fields == [fields[0]] + fields[1..];
    }
  }

  /** The first byte of a printed value: not a space, and the start of no closing bracket. */
  lemma {:induction false} DumpStarts(lib: Library, v: Json)
    requires v.Number? ==> Rounds(lib, v.num) || Overflows(lib, v.num)
    ensures |Dump(v, lib.fraction)| > 0
    ensures var c := Dump(v, lib.fraction)[0]; !Space(c) && c != CLOSE_LIST && c != CLOSE_OBJECT && c != COMMA
    ensures var c := Dump(v, lib.fraction)[0];
      && (c == OPEN_OBJECT <==> v.Object?) && (c == OPEN_LIST <==> v.Array?) && (c == QUOTE <==> v.String?)
  {
    if v.Number? {
      DigitsStart(if v.num.Floor < 0 then -v.num.Floor else v.num.Floor);
    }
  }

  lemma {:induction false} DigitsStart(n: nat)
    ensures Digit(Digits(n)[0])
  {
    if n >= 10 {
      DigitsStart(n / 10);
    }
  }

  lemma {:induction false} WordReads(other: Strtod, text: Bytes, pos: nat, word: Bytes)
    requires (word == TRUE || word == FALSE || word == NULL) && At(text, pos, word)
    ensures pos < |text|
    ensures ParseScalar(other, text, pos) == Done(if word == NULL then Null else Bool(word == TRUE), pos + |word|)
  {
    AtByte(text, pos, word, 0);
    OtherWord(text, pos, TRUE);
    OtherWord(text, pos, FALSE);
  }

  lemma {:induction false} OtherWord(text: Bytes, pos: nat, word: Bytes)
    requires word != [] && pos < |text|
    ensures At(text, pos, word) ==> text[pos] == word[0]
  {
    if At(text, pos, word) {
      AtByte(text, pos, word, 0);
    }
  }

  lemma {:induction false} IntegerReads(other: Strtod, text: Bytes, pos: nat, n: int)
    requires At(text, pos, Decimal(n)) && Stops(text, pos + |Decimal(n)|) && -ExactIntegers <= n <= ExactIntegers
    ensures pos < |text| && ParseScalar(other, text, pos) == Done(Number(n as real), pos + |Decimal(n)|)
  {
    NumberReads(other, text, pos, n);
    OtherWord(text, pos, TRUE);
    OtherWord(text, pos, FALSE);
    OtherWord(text, pos, NULL);
  }

  /** A number's text starts no word and no string. */
  lemma {:induction false} NoWord(lib: Library, text: Bytes, pos: nat, t: Bytes, s: Scan)
    requires TextScans(lib, t, s) && At(text, pos, t) && Stops(text, pos + |t|)
    ensures pos < |text| && text[pos] == t[0] && ScanNumber(lib.scan, text, pos) == s
    ensures text[pos] != QUOTE && !At(text, pos, TRUE) && !At(text, pos, FALSE) && !At(text, pos, NULL)
  {
    AtByte(text, pos, t, 0);
    OtherWord(text, pos, TRUE);
    OtherWord(text, pos, FALSE);
    OtherWord(text, pos, NULL);
  }

  lemma {:induction false} LibraryNumberReads(lib: Library, text: Bytes, pos: nat, t: Bytes, x: real)
    requires TextScans(lib, t, Scanned(x, |t|)) && At(text, pos, t) && Stops(text, pos + |t|)
    ensures pos < |text| && ParseScalar(lib.scan, text, pos) == Done(Number(x), pos + |t|)
  {
    NoWord(lib, text, pos, t, Scanned(x, |t|));
  }

  lemma {:induction false} LibraryNumberFails(lib: Library, text: Bytes, pos: nat, t: Bytes)
    requires TextScans(lib, t, Infinite) && At(text, pos, t) && Stops(text, pos + |t|)
    ensures pos < |text| && text[pos] == t[0] && ParseScalar(lib.scan, text, pos).Failed?
  {
    NoWord(lib, text, pos, t, Infinite);
  }

  lemma {:induction false} ScalarReads(lib: Library, text: Bytes, pos: nat, v: Json)
    requires !v.Array? && !v.Object? && (v.Number? ==> Rounds(lib, v.num))
    requires At(text, pos, Dump(v, lib.fraction)) && Stops(text, pos + |Dump(v, lib.fraction)|)
    ensures pos < |text| && ParseScalar(lib.scan, text, pos) == Done(Rounded(lib, v), pos + |Dump(v, lib.fraction)|)
  {
    match v {
      case Null =>
        WordReads(lib.scan, text, pos, NULL);
      case Bool(b) =>
        WordReads(lib.scan, text, pos, if b then TRUE else FALSE);
      case Number(x) =>
        if SmallInteger(x) {
          IntegerReads(lib.scan, text, pos, x.Floor);
        } else {
          LibraryNumberReads(lib, text, pos, NumberText(lib, x), lib.rounded(x));
        }
      case String(s) =>
        QuotedReads(text, pos, s);
        AtByte(text, pos, [QUOTE] + Escaped(s) + [QUOTE], 0);
    }
  }

  // ---- one step of the value parser -----------------------------------------------------------------

  lemma {:induction false} NoSpace(text: Bytes, pos: nat)
    requires pos < |text| && !Space(text[pos])
    ensures SkipSpace(text, pos) == pos
  {
  }

  lemma {:induction false} ScalarStep(other: Strtod, text: Bytes, pos: nat, depth: nat)
    requires pos < |text| && depth <= MaxDepth && !Space(text[pos]) && text[pos] != OPEN_LIST
    requires text[pos] != OPEN_OBJECT
    ensures ParseValue(other, text, pos, depth) == ParseScalar(other, text, pos)
  {
    NoSpace(text, pos);
  }

  lemma {:induction false} Opens(text: Bytes, pos: nat, close: byte)
    requires pos + 1 < |text| && !Space(text[pos + 1])
    ensures Opened(text, pos, close) == if text[pos + 1] == close then End(pos + 2) else More(pos + 1)
  {
    NoSpace(text, pos + 1);
  }

  lemma {:induction false} ListOpens(other: Strtod, text: Bytes, pos: nat, depth: nat)
    requires pos + 1 < |text| && depth <= MaxDepth && text[pos] == OPEN_LIST && !Space(text[pos + 1])
    ensures ParseValue(other, text, pos, depth) ==
      if text[pos + 1] == CLOSE_LIST then Done(Array([]), pos + 2) else ParseItems(other, text, pos + 1, depth, [])
  {
    NoSpace(text, pos);
    Opens(text, pos, CLOSE_LIST);
  }

  lemma {:induction false} ObjectOpens(other: Strtod, text: Bytes, pos: nat, depth: nat)
    requires pos + 1 < |text| && depth <= MaxDepth && text[pos] == OPEN_OBJECT && !Space(text[pos + 1])
    ensures ParseValue(other, text, pos, depth) ==
      if text[pos + 1] == CLOSE_OBJECT then Done(Object([]), pos + 2) else ParseMembers(other, text, pos + 1, depth, [])
  {
    NoSpace(text, pos);
    Opens(text, pos, CLOSE_OBJECT);
  }

  lemma {:induction false} Continued(text: Bytes, e: nat, close: byte)
    requires e < |text| && (text[e] == COMMA || text[e] == close) && !Space(close)
    ensures AfterElement(text, e, close) == if text[e] == COMMA then More(e + 1) else End(e + 1)
  {
    NoSpace(text, e);
  }

  // The results below are parameters tied down by `requires`: a call in an `ensures` would be unfolded twice.

  lemma {:induction false} ItemStep(other: Strtod, text: Bytes, pos: nat, depth: nat, before: seq<Json>, value: Json,
                                    e: nat, r: Outcome<Json>, more: Outcome<Json>)
    requires pos <= |text| && ParseValue(other, text, pos, depth + 1) == Done(value, e)
    requires e < |text| && (text[e] == COMMA || text[e] == CLOSE_LIST)
    requires r == ParseItems(other, text, pos, depth, before)
    requires more == ParseItems(other, text, e + 1, depth, before + [value])
    ensures r == if text[e] == COMMA then more else Done(Array(before + [value]), e + 1)
  {
    Continued(text, e, CLOSE_LIST);
  }

  lemma {:induction false} MemberStep(other: Strtod, text: Bytes, pos: nat, depth: nat, before: seq<Field>, key: Bytes,
                                      value: Json, e: nat, r: Outcome<Json>, more: Outcome<Json>)
    requires pos <= |text| && ParseValue(other, text, pos, depth + 1) == Done(value, e)
    requires e < |text| && (text[e] == COMMA || text[e] == CLOSE_OBJECT)
    requires r == ParseMember(other, text, pos, depth, before, key)
    requires more == ParseMembers(other, text, e + 1, depth, Set(before, key, value))
    ensures r == if text[e] == COMMA then more else Done(Object(Set(before, key, value)), e + 1)
  {
    Continued(text, e, CLOSE_OBJECT);
  }

  lemma {:induction false} KeyedStep(other: Strtod, text: Bytes, pos: nat, depth: nat, before: seq<Field>, key: Bytes,
                                     q: nat, r: Outcome<Json>)
    requires pos <= |text| && ParseKey(text, pos) == Done(key, q) && r == ParseMembers(other, text, pos, depth, before)
    ensures r == ParseMember(other, text, q, depth, before, key)
  {
    assert r == ParseMembersAt(other, text, pos, depth, before);
  }

  lemma {:induction false} FieldStep(other: Strtod, text: Bytes, pos: nat, depth: nat, before: seq<Field>,
                                     before': seq<Field>, f: Field, q: nat, e: nat, r: Outcome<Json>,
                                     more: Outcome<Json>)
    requires pos <= |text| && ParseKey(text, pos) == Done(f.key, q)
    requires ParseValue(other, text, q, depth + 1) == Done(f.value, e)
    requires e < |text| && (text[e] == COMMA || text[e] == CLOSE_OBJECT) && before' == Set(before, f.key, f.value)
    requires r == ParseMembers(other, text, pos, depth, before)
    requires more == ParseMembers(other, text, e + 1, depth, before')
    ensures r == if text[e] == COMMA then more else Done(Object(before'), e + 1)
  {
    KeyedStep(other, text, pos, depth, before, f.key, q, r);
    MemberStep(other, text, q, depth, before, f.key, f.value, e, r, more);
  }

  lemma {:induction false} KeyStep(text: Bytes, pos: nat, key: Bytes, p: nat)
    requires pos <= |text| && ParseString(text, pos) == Done(key, p) && p < |text| && text[p] == COLON
    ensures ParseKey(text, pos) == Done(key, p + 1)
  {
    NoSpace(text, p);
  }

  // ---- the text of containers -----------------------------------------------------------------------

  /** What stands behind an element: the closing bracket, or a comma and the other elements. */
  function Tail(more: Bytes, last: bool, close: byte): Bytes {
    if last then [close] else [COMMA] + (more + [close])
  }

  lemma {:induction false} TailReads(text: Bytes, e: nat, more: Bytes, last: bool, close: byte)
    requires At(text, e, Tail(more, last, close))
    ensures e < |text| && text[e] == (if last then close else COMMA)
    ensures !last ==> At(text, e + 1, more + [close])
  {
    AtByte(text, e, Tail(more, last, close), 0);
    if !last {
      AtSplit(text, e, [COMMA], more + [close]);
    }
  }

  /** Where the first element's text ends, and the text of the others. */
  lemma {:induction false} ItemsText(lib: Library, text: Bytes, pos: nat, items: seq<Json>, dump: Bytes)
    returns (e: nat, rest: Bytes)
    requires items != [] && dump == DumpItems(items, lib.fraction) && At(text, pos, dump + [CLOSE_LIST])
    ensures At(text, pos, Dump(items[0], lib.fraction)) && e == pos + |Dump(items[0], lib.fraction)|
    ensures e < |text| && text[e] == (if |items| == 1 then CLOSE_LIST else COMMA)
    ensures |items| > 1 ==>
      rest == DumpItems(items[1..], lib.fraction) && At(text, e + 1, rest + [CLOSE_LIST])
        && pos + |dump| == e + 1 + |rest|
    ensures |items| == 1 ==> pos + |dump| == e
  {
    var first := Dump(items[0], lib.fraction);
    rest := if |items| == 1 then [] else DumpItems(items[1..], lib.fraction);
    e := pos + |first|;
    assert dump + [CLOSE_LIST] == first + Tail(rest, |items| == 1, CLOSE_LIST);
    AtSplit(text, pos, first, Tail(rest, |items| == 1, CLOSE_LIST));
    TailReads(text, e, rest, |items| == 1, CLOSE_LIST);
  }

  function KeyText(key: Bytes): Bytes {
    [QUOTE] + Escaped(key) + [QUOTE, COLON]
  }

  lemma {:induction false} KeyReads(text: Bytes, pos: nat, key: Bytes)
    requires At(text, pos, KeyText(key))
    ensures ParseKey(text, pos) == Done(key, pos + |KeyText(key)|)
  {
    var quoted := [QUOTE] + Escaped(key) + [QUOTE];
    assert KeyText(key) == quoted + [COLON];
    AtSplit(text, pos, quoted, [COLON]);
    QuotedReads(text, pos, key);
    AtByte(text, pos + |quoted|, [COLON], 0);
    KeyStep(text, pos, key, pos + |quoted|);
  }

  lemma {:induction false} FieldReads(lib: Library, text: Bytes, pos: nat, f: Field)
    requires At(text, pos, DumpField(f, lib.fraction))
    ensures ParseKey(text, pos) == Done(f.key, pos + |KeyText(f.key)|)
    ensures At(text, pos + |KeyText(f.key)|, Dump(f.value, lib.fraction))
    ensures |DumpField(f, lib.fraction)| == |KeyText(f.key)| + |Dump(f.value, lib.fraction)|
  {
    assert DumpField(f, lib.fraction) == KeyText(f.key) + Dump(f.value, lib.fraction);
    AtSplit(text, pos, KeyText(f.key), Dump(f.value, lib.fraction));
    KeyReads(text, pos, f.key);
  }

  lemma {:induction false} FieldsAt(lib: Library, text: Bytes, pos: nat, fields: seq<Field>, dump: Bytes)
    returns (e: nat, rest: Bytes)
    requires fields != [] && dump == DumpFields(fields, lib.fraction) && At(text, pos, dump + [CLOSE_OBJECT])
    ensures At(text, pos, DumpField(fields[0], lib.fraction)) && e == pos + |DumpField(fields[0], lib.fraction)|
    ensures e < |text| && text[e] == (if |fields| == 1 then CLOSE_OBJECT else COMMA)
    ensures |fields| > 1 ==>
      rest == DumpFields(fields[1..], lib.fraction) && At(text, e + 1, rest + [CLOSE_OBJECT])
        && pos + |dump| == e + 1 + |rest|
    ensures |fields| == 1 ==> pos + |dump| == e
  {
    var first := DumpField(fields[0], lib.fraction);
    rest := if |fields| == 1 then [] else DumpFields(fields[1..], lib.fraction);
    e := pos + |first|;
    FieldsParts(lib, fields, dump, rest);
    AtSplit(text, pos, first, Tail(rest, |fields| == 1, CLOSE_OBJECT));
    TailReads(text, e, rest, |fields| == 1, CLOSE_OBJECT);
  }

  /** Where the first member's value starts and ends, and the text of the other members. */
  lemma {:induction false} FieldsText(lib: Library, text: Bytes, pos: nat, fields: seq<Field>, dump: Bytes)
    returns (q: nat, e: nat, rest: Bytes)
    requires fields != [] && dump == DumpFields(fields, lib.fraction) && At(text, pos, dump + [CLOSE_OBJECT])
    ensures pos <= |text| && ParseKey(text, pos) == Done(fields[0].key, q)
    ensures At(text, q, Dump(fields[0].value, lib.fraction)) && e == q + |Dump(fields[0].value, lib.fraction)|
    ensures e < |text| && text[e] == (if |fields| == 1 then CLOSE_OBJECT else COMMA)
    ensures |fields| > 1 ==>
      rest == DumpFields(fields[1..], lib.fraction) && At(text, e + 1, rest + [CLOSE_OBJECT])
        && pos + |dump| == e + 1 + |rest|
    ensures |fields| == 1 ==> pos + |dump| == e
  {
    e, rest := FieldsAt(lib, text, pos, fields, dump);
    q := pos + |KeyText(fields[0].key)|;
    FieldReads(lib, text, pos, fields[0]);
  }

  lemma {:induction false} FieldsParts(lib: Library, fields: seq<Field>, dump: Bytes, rest: Bytes)
    requires fields != [] && dump == DumpFields(fields, lib.fraction)
    requires rest == if |fields| == 1 then [] else DumpFields(fields[1..], lib.fraction)
    ensures dump + [CLOSE_OBJECT] == DumpField(fields[0], lib.fraction) + Tail(rest, |fields| == 1, CLOSE_OBJECT)
    ensures |dump| == |DumpField(fields[0], lib.fraction)| + if |fields| == 1 then 0 else 1 + |rest|
  {
  }

  lemma {:induction false} ListText(lib: Library, text: Bytes, pos: nat, items: seq<Json>)
    requires At(text, pos, Dump(Array(items), lib.fraction))
    requires items != [] && items[0].Number? ==> Rounds(lib, items[0].num) || Overflows(lib, items[0].num)
    ensures pos + 1 < |text| && text[pos] == OPEN_LIST
    ensures At(text, pos + 1, DumpItems(items, lib.fraction) + [CLOSE_LIST])
    ensures items == [] ==> text[pos + 1] == CLOSE_LIST
    ensures items != [] ==> !Space(text[pos + 1]) && text[pos + 1] != CLOSE_LIST
  {
    assert Dump(Array(items), lib.fraction) == [OPEN_LIST] + (DumpItems(items, lib.fraction) + [CLOSE_LIST]);
    AtSplit(text, pos, [OPEN_LIST], DumpItems(items, lib.fraction) + [CLOSE_LIST]);
    AtByte(text, pos, [OPEN_LIST], 0);
    AtByte(text, pos + 1, DumpItems(items, lib.fraction) + [CLOSE_LIST], 0);
    if items != [] {
      DumpStarts(lib, items[0]);
    }
  }

  lemma {:induction false} ObjectText(lib: Library, text: Bytes, pos: nat, fields: seq<Field>)
    requires At(text, pos, Dump(Object(fields), lib.fraction))
    ensures pos + 1 < |text| && text[pos] == OPEN_OBJECT
    ensures At(text, pos + 1, DumpFields(fields, lib.fraction) + [CLOSE_OBJECT])
    ensures text[pos + 1] == if fields == [] then CLOSE_OBJECT else QUOTE
  {
    assert Dump(Object(fields), lib.fraction) == [OPEN_OBJECT] + (DumpFields(fields, lib.fraction) + [CLOSE_OBJECT]);
    AtSplit(text, pos, [OPEN_OBJECT], DumpFields(fields, lib.fraction) + [CLOSE_OBJECT]);
    AtByte(text, pos, [OPEN_OBJECT], 0);
    AtByte(text, pos + 1, DumpFields(fields, lib.fraction) + [CLOSE_OBJECT], 0);
    if fields != [] {
      assert DumpField(fields[0], lib.fraction)[0] == QUOTE;
    }
  }

  // ---- whole values ---------------------------------------------------------------------------------

  /** All a value needs to be read back at a depth, in one predicate. */
  ghost predicate Good(lib: Library, v: Json, depth: nat) {
    match v
    case Number(x) => Rounds(lib, x)
    case Array(items) =>
      (items != [] ==> depth < MaxDepth) && forall i :: 0 <= i < |items| ==> Good(lib, items[i], depth + 1)
    case Object(fields) =>
      && DistinctKeys(fields) && (fields != [] ==> depth < MaxDepth)
      && forall i :: 0 <= i < |fields| ==> Good(lib, fields[i].value, depth + 1)
    case _ => true
  }

  ghost predicate GoodItems(lib: Library, items: seq<Json>, depth: nat) {
    (items != [] ==> depth < MaxDepth) && forall i :: 0 <= i < |items| ==> Good(lib, items[i], depth + 1)
  }

  ghost predicate GoodFields(lib: Library, fields: seq<Field>, depth: nat) {
    (fields != [] ==> depth < MaxDepth) && forall i :: 0 <= i < |fields| ==> Good(lib, fields[i].value, depth + 1)
  }

  lemma {:induction false} FitsIsGood(lib: Library, v: Json, depth: nat)
    requires Readable(lib, v) && KeysUnique(v) && Within(v, depth)
    ensures Good(lib, v, depth)
  {
    if v.Array? {
      forall i | 0 <= i < |v.items| ensures Good(lib, v.items[i], depth + 1) {
        FitsIsGood(lib, v.items[i], depth + 1);
      }
    } else if v.Object? {
      forall i | 0 <= i < |v.fields| ensures Good(lib, v.fields[i].value, depth + 1) {
        FitsIsGood(lib, v.fields[i].value, depth + 1);
      }
    }
  }

  /** What a value's text is read as, wherever it stands in the input. */
  lemma {:induction false} ValueReads(lib: Library, text: Bytes, pos: nat, v: Json, depth: nat, r: Outcome<Json>)
    requires depth <= MaxDepth && Good(lib, v, depth)
    requires At(text, pos, Dump(v, lib.fraction)) && Stops(text, pos + |Dump(v, lib.fraction)|)
    requires r == ParseValue(lib.scan, text, pos, depth)
    ensures r == Done(Rounded(lib, v), pos + |Dump(v, lib.fraction)|)
    decreases v, 1
  {
    match v {
      case Array(items) =>
        ListText(lib, text, pos, items);
        ListOpens(lib.scan, text, pos, depth);
        if items != [] {
          ItemsRead(lib, text, pos + 1, depth, [], items, DumpItems(items, lib.fraction), r);
          assert [] + RoundedItems(lib, items) == RoundedItems(lib, items);
        }
      case Object(fields) =>
        ObjectText(lib, text, pos, fields);
        ObjectOpens(lib.scan, text, pos, depth);
        if fields != [] {
          var all := RoundedFields(lib, fields);
          RoundedKeys(lib, fields);
          assert [] + all == all;
          FieldsRead(lib, text, pos + 1, depth, [], fields, all, DumpFields(fields, lib.fraction), r);
        }
      case _ =>
        ScalarReads(lib, text, pos, v);
        DumpStarts(lib, v);
        AtByte(text, pos, Dump(v, lib.fraction), 0);
        ScalarStep(lib.scan, text, pos, depth);
    }
  }

  lemma {:induction false} RoundedKeys(lib: Library, fields: seq<Field>)
    requires DistinctKeys(fields)
    ensures DistinctKeys(RoundedFields(lib, fields))
  {
    forall i, j | 0 <= i < j < |fields|
      ensures RoundedFields(lib, fields)[i].key != RoundedFields(lib, fields)[j].key
    {
      RoundedFieldAt(lib, fields, i);
      RoundedFieldAt(lib, fields, j);
    }
  }

  lemma {:induction false} GoodRest(lib: Library, items: seq<Json>, depth: nat)
    requires items != [] && GoodItems(lib, items, depth)
    ensures depth < MaxDepth && Good(lib, items[0], depth + 1) && GoodItems(lib, items[1..], depth)
  {
  }

  lemma {:induction false} ItemRead(lib: Library, text: Bytes, pos: nat, depth: nat, item: Json, e: nat)
    requires depth < MaxDepth && Good(lib, item, depth + 1)
    requires At(text, pos, Dump(item, lib.fraction)) && e == pos + |Dump(item, lib.fraction)|
    requires e < |text| && (text[e] == COMMA || text[e] == CLOSE_LIST || text[e] == CLOSE_OBJECT)
    ensures ParseValue(lib.scan, text, pos, depth + 1) == Done(Rounded(lib, item), e)
    decreases item, 2
  {
    ValueReads(lib, text, pos, item, depth + 1, ParseValue(lib.scan, text, pos, depth + 1));
  }

  lemma {:induction false} FirstItem(lib: Library, text: Bytes, pos: nat, depth: nat, before: seq<Json>,
                                     items: seq<Json>,
                                     dump: Bytes, r: Outcome<Json>)
    returns (e: nat, rest: Bytes, more: Outcome<Json>)
    requires items != [] && GoodItems(lib, items, depth)
    requires dump == DumpItems(items, lib.fraction) && At(text, pos, dump + [CLOSE_LIST])
    requires r == ParseItems(lib.scan, text, pos, depth, before)
    ensures e < |text| && more == ParseItems(lib.scan, text, e + 1, depth, before + [Rounded(lib, items[0])])
    ensures |items| == 1 ==> r == Done(Array(before + [Rounded(lib, items[0])]), pos + |dump| + 1)
    ensures |items| > 1 ==> r == more && rest == DumpItems(items[1..], lib.fraction)
    ensures |items| > 1 ==> At(text, e + 1, rest + [CLOSE_LIST]) && pos + |dump| == e + 1 + |rest|
    decreases items, 0
  {
    GoodRest(lib, items, depth);
    e, rest := ItemsText(lib, text, pos, items, dump);
    ItemRead(lib, text, pos, depth, items[0], e);
    more := ParseItems(lib.scan, text, e + 1, depth, before + [Rounded(lib, items[0])]);
    ItemStep(lib.scan, text, pos, depth, before, Rounded(lib, items[0]), e, r, more);
  }

  lemma {:induction false} RoundedSplit(lib: Library, before: seq<Json>, items: seq<Json>)
    requires items != []
    ensures before + [Rounded(lib, items[0])] + RoundedItems(lib, items[1..]) == before + RoundedItems(lib, items)
    ensures |items| == 1 ==> RoundedItems(lib, items) == [Rounded(lib, items[0])]
  {
  }

  lemma {:induction false} ItemsRead(lib: Library, text: Bytes, pos: nat, depth: nat, before: seq<Json>,
                                     items: seq<Json>,
                                     dump: Bytes, r: Outcome<Json>)
    requires items != [] && GoodItems(lib, items, depth)
    requires dump == DumpItems(items, lib.fraction) && At(text, pos, dump + [CLOSE_LIST])
    requires r == ParseItems(lib.scan, text, pos, depth, before)
    ensures r == Done(Array(before + RoundedItems(lib, items)), pos + |dump| + 1)
    decreases items, 1
  {
    var e, rest, more := FirstItem(lib, text, pos, depth, before, items, dump, r);
    RoundedSplit(lib, before, items);
    if |items| > 1 {
      GoodRest(lib, items, depth);
      ItemsRead(lib, text, e + 1, depth, before + [Rounded(lib, items[0])], items[1..], rest, more);
    }
  }

  lemma {:induction false} NewKey(lib: Library, before: seq<Field>, fields: seq<Field>)
    requires fields != [] && DistinctKeys(before + RoundedFields(lib, fields))
    ensures Set(before, fields[0].key, Rounded(lib, fields[0].value)) == before + [RoundedField(lib, fields[0])]
    ensures before + [RoundedField(lib, fields[0])] + RoundedFields(lib, fields[1..]) ==
      before + RoundedFields(lib, fields)
    ensures |fields| == 1 ==> RoundedFields(lib, fields) == [RoundedField(lib, fields[0])]
  {
    var rounded := RoundedFields(lib, fields);
    forall i | 0 <= i < |before| ensures before[i].key != fields[0].key {
      assert (before + rounded)[i] == before[i] && (before + rounded)[|before|] == RoundedField(lib, fields[0]);
    }
    SetNew(before, fields[0].key, Rounded(lib, fields[0].value));
  }

  lemma {:induction false} GoodRestOfFields(lib: Library, fields: seq<Field>, depth: nat)
    requires fields != [] && GoodFields(lib, fields, depth)
    ensures depth < MaxDepth && Good(lib, fields[0].value, depth + 1) && GoodFields(lib, fields[1..], depth)
  {
  }

  /** The members `fields` stand at `pos`, the members before them are `before`, `r` is what is read from there. */
  ghost predicate Ahead(lib: Library, text: Bytes, pos: nat, depth: nat, before: seq<Field>, fields: seq<Field>,
                        dump: Bytes, r: Outcome<Json>) {
    && fields != [] && GoodFields(lib, fields, depth)
    && dump == DumpFields(fields, lib.fraction) && At(text, pos, dump + [CLOSE_OBJECT])
    && r == ParseMembers(lib.scan, text, pos, depth, before)
  }

  lemma {:induction false} FieldRead(lib: Library, text: Bytes, pos: nat, depth: nat, fields: seq<Field>, dump: Bytes)
    returns (q: nat, e: nat, rest: Bytes)
    requires fields != [] && GoodFields(lib, fields, depth)
    requires dump == DumpFields(fields, lib.fraction) && At(text, pos, dump + [CLOSE_OBJECT])
    ensures pos <= |text| && ParseKey(text, pos) == Done(fields[0].key, q)
    ensures ParseValue(lib.scan, text, q, depth + 1) == Done(Rounded(lib, fields[0].value), e)
    ensures e < |text| && text[e] == (if |fields| == 1 then CLOSE_OBJECT else COMMA)
    ensures |fields| > 1 ==> rest == DumpFields(fields[1..], lib.fraction) && At(text, e + 1, rest + [CLOSE_OBJECT])
    ensures |fields| > 1 ==> pos + |dump| == e + 1 + |rest|
    ensures |fields| == 1 ==> pos + |dump| == e
    decreases fields, 0
  {
    GoodRestOfFields(lib, fields, depth);
    q, e, rest := FieldsText(lib, text, pos, fields, dump);
    ItemRead(lib, text, q, depth, fields[0].value, e);
  }

  lemma {:induction false} FirstField(lib: Library, text: Bytes, pos: nat, depth: nat, before: seq<Field>,
                                      before': seq<Field>, fields: seq<Field>, dump: Bytes, r: Outcome<Json>)
    returns (e: nat, rest: Bytes)
    requires Ahead(lib, text, pos, depth, before, fields, dump, r)
    requires before' == Set(before, fields[0].key, Rounded(lib, fields[0].value))
    ensures e < |text|
    ensures |fields| == 1 ==> r == Done(Object(before'), pos + |dump| + 1)
    ensures |fields| > 1 ==> r == ParseMembers(lib.scan, text, e + 1, depth, before')
    ensures |fields| > 1 ==> rest == DumpFields(fields[1..], lib.fraction) && At(text, e + 1, rest + [CLOSE_OBJECT])
    ensures |fields| > 1 ==> pos + |dump| == e + 1 + |rest|
    decreases fields, 1
  {
    var q;
    q, e, rest := FieldRead(lib, text, pos, depth, fields, dump);
    var more := ParseMembers(lib.scan, text, e + 1, depth, before');
    FieldStep(lib.scan, text, pos, depth, before, before', RoundedField(lib, fields[0]), q, e, r, more);
  }

  lemma {:induction false} AheadOfTail(lib: Library, text: Bytes, pos: nat, depth: nat, before: seq<Field>,
                                       fields: seq<Field>, tail: seq<Field>, dump: Bytes, r: Outcome<Json>)
    requires fields != [] && GoodFields(lib, fields, depth) && tail == fields[1..] && tail != []
    requires dump == DumpFields(tail, lib.fraction) && At(text, pos, dump + [CLOSE_OBJECT])
    requires r == ParseMembers(lib.scan, text, pos, depth, before)
    ensures Ahead(lib, text, pos, depth, before, tail, dump, r)
  {
    GoodRestOfFields(lib, fields, depth);
  }

  lemma {:induction false} FieldsRead(lib: Library, text: Bytes, pos: nat, depth: nat, before: seq<Field>,
                                      fields: seq<Field>, all: seq<Field>, dump: Bytes, r: Outcome<Json>)
    requires Ahead(lib, text, pos, depth, before, fields, dump, r)
    requires all == before + RoundedFields(lib, fields) && DistinctKeys(all)
    ensures r == Done(Object(all), pos + |dump| + 1)
    decreases fields, 2
  {
    NewKey(lib, before, fields);
    var before', tail := before + [RoundedField(lib, fields[0])], fields[1..];
    var e, rest := FirstField(lib, text, pos, depth, before, before', fields, dump, r);
    if tail != [] {
      AheadOfTail(lib, text, e + 1, depth, before', fields, tail, rest, r);
      FieldsRead(lib, text, e + 1, depth, before', tail, all, rest, r);
    }
  }

  // ---- what the parser accepts ----------------------------------------------------------------------

  lemma {:induction false} SetKeys(fields: seq<Field>, key: Bytes, value: Json)
    ensures |fields| <= |Set(fields, key, value)| <= |fields| + 1
    ensures forall i :: 0 <= i < |fields| ==>
      Set(fields, key, value)[i].key == fields[i].key
        && (Set(fields, key, value)[i] == fields[i] || Set(fields, key, value)[i].value == value)
    ensures |Set(fields, key, value)| > |fields| ==>
      Set(fields, key, value)[|fields|] == Field(key, value) && forall i :: 0 <= i < |fields| ==> fields[i].key != key
  {
    if fields != [] && fields[0].key != key {
      SetKeys(fields[1..], key, value);
      forall i | 0 <= i < |fields|
        ensures Set(fields, key, value)[i].key == fields[i].key
        ensures (Set(fields, key, value)[i] == fields[i] || Set(fields, key, value)[i].value == value)
      {
        if i > 0 {
          assert Set(fields, key, value)[i] == Set(fields[1..], key, value)[i - 1] && fields[i] == fields[1..][i - 1];
        }
      }
      if |Set(fields, key, value)| > |fields| {
        forall i | 0 <= i < |fields| ensures fields[i].key != key {
          if i > 0 {
            assert fields[i] == fields[1..][i - 1];
          }
        }
      }
    }
  }

  lemma {:induction false} SetFits(fields: seq<Field>, key: Bytes, value: Json, depth: nat)
    requires DistinctKeys(fields) && FieldsFit(fields, depth) && depth < MaxDepth && Fits(value, depth + 1)
    ensures DistinctKeys(Set(fields, key, value)) && FieldsFit(Set(fields, key, value), depth)
  {
    SetKeys(fields, key, value);
  }

  /** Whatever is accepted has distinct keys throughout and stays within the depth limit. */
  lemma {:induction false} AcceptedFits(other: Strtod, text: Bytes, pos: nat, depth: nat)
    requires pos <= |text| && ParseValue(other, text, pos, depth).Done?
    ensures Fits(ParseValue(other, text, pos, depth).value, depth)
    decreases |text| - pos, 1
  {
    var p := SkipSpace(text, pos);
    assert ParseValue(other, text, pos, depth) == ParseAt(other, text, p, depth);
    AcceptedAtFits(other, text, p, depth);
  }

  lemma {:induction false} AcceptedAtFits(other: Strtod, text: Bytes, p: nat, depth: nat)
    requires p <= |text| && depth <= MaxDepth && ParseAt(other, text, p, depth).Done?
    ensures Fits(ParseAt(other, text, p, depth).value, depth)
    decreases |text| - p, 0
  {
    if text[p] == OPEN_OBJECT {
      var o := Opened(text, p, CLOSE_OBJECT);
      if o.More? {
        MembersFit(other, text, o.at, depth, []);
      }
    } else if text[p] == OPEN_LIST {
      var o := Opened(text, p, CLOSE_LIST);
      if o.More? {
        ItemsAccepted(other, text, o.at, depth, []);
      }
    }
  }

  lemma {:induction false} ItemsAccepted(other: Strtod, text: Bytes, pos: nat, depth: nat, items: seq<Json>)
    requires pos <= |text| && depth <= MaxDepth && ItemsFit(items, depth)
    requires ParseItems(other, text, pos, depth, items).Done?
    ensures Fits(ParseItems(other, text, pos, depth, items).value, depth)
    decreases |text| - pos, 2
  {
    AcceptedFits(other, text, pos, depth + 1);
    var v := ParseValue(other, text, pos, depth + 1);
    var next := AfterElement(text, v.pos, CLOSE_LIST);
    if next.More? {
      ItemsAccepted(other, text, next.at, depth, items + [v.value]);
    }
  }

  lemma {:induction false} MembersFit(other: Strtod, text: Bytes, pos: nat, depth: nat, fields: seq<Field>)
    requires pos <= |text| && depth <= MaxDepth && DistinctKeys(fields) && FieldsFit(fields, depth)
    requires ParseMembers(other, text, pos, depth, fields).Done?
    ensures Fits(ParseMembers(other, text, pos, depth, fields).value, depth)
    decreases |text| - pos, 3
  {
    assert ParseMembers(other, text, pos, depth, fields) == ParseMembersAt(other, text, pos, depth, fields);
    var key := ParseKey(text, pos);
    KeyedStep(other, text, pos, depth, fields, key.value, key.pos, ParseMembers(other, text, pos, depth, fields));
    MemberFits(other, text, key.pos, depth, fields, key.value);
  }

  lemma {:induction false} MemberFits(other: Strtod, text: Bytes, pos: nat, depth: nat, fields: seq<Field>, key: Bytes)
    requires pos <= |text| && depth <= MaxDepth && DistinctKeys(fields) && FieldsFit(fields, depth)
    requires ParseMember(other, text, pos, depth, fields, key).Done?
    ensures Fits(ParseMember(other, text, pos, depth, fields, key).value, depth)
    decreases |text| - pos, 2
  {
    AcceptedFits(other, text, pos, depth + 1);
    var v := ParseValue(other, text, pos, depth + 1);
    SetFits(fields, key, v.value, depth);
    var next := AfterElement(text, v.pos, CLOSE_OBJECT);
    if next.More? {
      MembersFit(other, text, next.at, depth, Set(fields, key, v.value));
    }
  }
}
