/** JSON values, their text form, and the grammar the parser accepts, byte by byte. Every parse function gives
    a value and the position behind it, or the first failure and where it is. */
module JsonText {
  import opened Basics

  type byte = b: int | 0 <= b < 256
  type Bytes = seq<byte>

  datatype Json =
    | Null
    | Bool(b: bool)
    | Number(num: real)
    | String(s: Bytes)
    | Array(items: seq<Json>)
    | Object(fields: seq<Field>)

  datatype Field = Field(key: Bytes, value: Json)

  /** Why parsing stopped. */
  datatype Why =
    | Expected(c: byte)
    | EndsInEscape
    | TruncatedUnicode
    | BadHex
    | UnknownEscape
    | Unterminated
    | TooDeep
    | UnexpectedEnd
    | NotAValue
    | NotFinite
    | TooLong
    | TrailingData

  /** A step of the parser: a value and the position behind it, or the first failure and where it was. */
  datatype Outcome<T> = Done(value: T, pos: nat) | Failed(why: Why, at: nat)

  /** What `strtod` finds at a position. */
  datatype Scan = NoNumber | Infinite | Scanned(value: real, length: nat)

  type Strtod = (Bytes, nat) -> Scan

  /** The number routines of the C library: `strtod`, `%.10g`, and what is left of a number that has gone through
      both. */
  datatype Library = Library(scan: Strtod, fraction: real -> Bytes, rounded: real -> real)

  const MaxDepth: nat := 32
  const MaxInput: nat := 0x10_0000
  const ExactIntegers: int := 0x20_0000_0000_0000

  const QUOTE: byte := 0x22
  const COMMA: byte := 0x2C
  const MINUS: byte := 0x2D
  const SLASH: byte := 0x2F
  const COLON: byte := 0x3A
  const OPEN_LIST: byte := 0x5B
  const BACKSLASH: byte := 0x5C
  const CLOSE_LIST: byte := 0x5D
  const LETTER_U: byte := 0x75
  const OPEN_OBJECT: byte := 0x7B
  const CLOSE_OBJECT: byte := 0x7D
  const TRUE: Bytes := [0x74, 0x72, 0x75, 0x65]
  const FALSE: Bytes := [0x66, 0x61, 0x6C, 0x73, 0x65]
  const NULL: Bytes := [0x6E, 0x75, 0x6C, 0x6C]

  // ---- printing -------------------------------------------------------------------------------------

  function HexOf(d: nat): byte
    requires d < 16
  {
    if d < 10 then 0x30 + d else 0x61 + d - 10
  }

  function EscapeByte(c: byte): (r: Bytes)
    ensures |r| > 0
  {
    if c == QUOTE then [BACKSLASH, QUOTE]
    else if c == BACKSLASH then [BACKSLASH, BACKSLASH]
    else if c == 0x0A then [BACKSLASH, 0x6E]
    else if c == 0x0D then [BACKSLASH, 0x72]
    else if c == 0x09 then [BACKSLASH, 0x74]
    else if c == 0x08 then [BACKSLASH, 0x62]
    else if c == 0x0C then [BACKSLASH, 0x66]
    else if c < 0x20 then [BACKSLASH, LETTER_U, 0x30, 0x30, HexOf(c / 16), HexOf(c % 16)]
    else [c]
  }

  function Escaped(s: Bytes): Bytes {
    if s == [] then [] else EscapeByte(s[0]) + Escaped(s[1..])
  }

  function Digits(n: nat): (r: Bytes)
    ensures |r| > 0
  {
    if n < 10 then [0x30 + n] else Digits(n / 10) + [0x30 + n % 10]
  }

  function Decimal(n: int): Bytes {
    if n < 0 then [MINUS] + Digits(-n) else Digits(n)
  }

  predicate Integral(x: real) {
    x == x.Floor as real && -0x8000_0000_0000_0000 <= x.Floor <= 0x7FFF_FFFF_FFFF_FFFF
  }

  /** The text of a value; `fraction` is the library's `%.10g`. */
  function Dump(v: Json, fraction: real -> Bytes): Bytes {
    match v
    case Null => NULL
    case Bool(b) => if b then TRUE else FALSE
    case Number(x) => if Integral(x) then Decimal(x.Floor) else fraction(x)
    case String(s) => [QUOTE] + Escaped(s) + [QUOTE]
    case Array(items) => [OPEN_LIST] + DumpItems(items, fraction) + [CLOSE_LIST]
    case Object(fields) => [OPEN_OBJECT] + DumpFields(fields, fraction) + [CLOSE_OBJECT]
  }

  function DumpItems(items: seq<Json>, fraction: real -> Bytes): Bytes {
    if items == [] then []
    else Dump(items[0], fraction) + (if |items| == 1 then [] else [COMMA] + DumpItems(items[1..], fraction))
  }

  function DumpField(f: Field, fraction: real -> Bytes): Bytes {
    [QUOTE] + Escaped(f.key) + [QUOTE, COLON] + Dump(f.value, fraction)
  }

  function DumpFields(fields: seq<Field>, fraction: real -> Bytes): Bytes {
    if fields == [] then []
    else DumpField(fields[0], fraction) + (if |fields| == 1 then [] else [COMMA] + DumpFields(fields[1..], fraction))
  }

  // ---- reading: spaces, strings ---------------------------------------------------------------------

  predicate Space(c: byte) { c == 0x20 || c == 0x09 || c == 0x0A || c == 0x0D }

  function SkipSpace(text: Bytes, pos: nat): (p: nat)
    requires pos <= |text|
    ensures pos <= p <= |text| && (p < |text| ==> !Space(text[p]))
    decreases |text| - pos
  {
    if pos < |text| && Space(text[pos]) then SkipSpace(text, pos + 1) else pos
  }

  function Eat(text: Bytes, pos: nat, c: byte): (r: Outcome<()>)
    requires pos <= |text|
    ensures r.Done? ==> pos < r.pos <= |text|
  {
    var p := SkipSpace(text, pos);
    if p < |text| && text[p] == c then Done((), p + 1) else Failed(Expected(c), p)
  }

  function HexValue(c: byte): Option<nat> {
    if 0x30 <= c <= 0x39 then Some(c - 0x30)
    else if 0x61 <= c <= 0x66 then Some(c - 0x61 + 10)
    else if 0x41 <= c <= 0x46 then Some(c - 0x41 + 10)
    else None
  }

  /** The number `k` hex digits from `pos` spell. */
  function Hex(text: Bytes, pos: nat, k: nat): (r: Option<nat>)
    requires pos + k <= |text|
  {
    if k == 0 then Some(0)
    else
      match (Hex(text, pos, k - 1), HexValue(text[pos + k - 1]))
      case (Some(high), Some(d)) => Some(high * 16 + d)
      case _ => None
  }

  lemma HexBound(text: Bytes, pos: nat, k: nat)
    requires pos + k <= |text|
    ensures Hex(text, pos, k).Some? ==> 0 <= Hex(text, pos, k).value < Power16(k)
  {
  }

  function Power16(k: nat): nat {
    if k == 0 then 1 else 16 * Power16(k - 1)
  }

  function HexFour(text: Bytes, pos: nat): (r: Option<nat>)
    requires pos + 4 <= |text|
    ensures r.Some? ==> r.value < 0x1_0000
  {
    HexBound(text, pos, 4);
    assert Power16(4) == 16 * (16 * (16 * (16 * Power16(0))));
    Hex(text, pos, 4)
  }

  predicate High(cp: nat) { 0xD800 <= cp <= 0xDBFF }

  predicate Low(cp: nat) { 0xDC00 <= cp <= 0xDFFF }

  /** The bytes written for a code point. */
  function Utf8(cp: nat): (r: Bytes)
    requires cp < 0x11_0000
  {
    if cp < 0x80 then [cp]
    else if cp < 0x800 then [0xC0 + cp / 0x40, 0x80 + cp % 0x40]
    else if cp < 0x1_0000 then [0xE0 + cp / 0x1000, 0x80 + cp / 0x40 % 0x40, 0x80 + cp % 0x40]
    else [0xF0 + cp / 0x4_0000, 0x80 + cp / 0x1000 % 0x40, 0x80 + cp / 0x40 % 0x40, 0x80 + cp % 0x40]
  }

  /** The low half of a surrogate pair, if one follows at `q`. */
  function LowHalf(text: Bytes, q: nat): (r: Option<nat>)
    ensures r.Some? ==> q + 6 <= |text| && Low(r.value)
  {
    if q + 6 <= |text| && text[q] == BACKSLASH && text[q + 1] == LETTER_U then
      match HexFour(text, q + 2)
      case Some(lo) => if Low(lo) then Some(lo) else None
      case None => None
    else None
  }

  /** A `\u` escape whose digits start at `pos`. */
  function Unicode(text: Bytes, pos: nat): (r: Outcome<Bytes>)
    requires pos <= |text|
    ensures r.Done? ==> pos < r.pos <= |text|
  {
    if pos + 4 > |text| then Failed(TruncatedUnicode, pos)
    else
      match HexFour(text, pos)
      case None => Failed(BadHex, pos)
      case Some(cp) =>
        if High(cp) && LowHalf(text, pos + 4).Some? then
          Done(Utf8(0x1_0000 + (cp - 0xD800) * 0x400 + (LowHalf(text, pos + 4).value - 0xDC00)), pos + 10)
        else Done(Utf8(cp), pos + 4)
  }

  /** The escape whose letter stands at `pos`. */
  function Escape(text: Bytes, pos: nat): (r: Outcome<Bytes>)
    requires pos < |text|
    ensures r.Done? ==> pos < r.pos <= |text|
  {
    var e := text[pos];
    if e == QUOTE || e == BACKSLASH || e == SLASH then Done([e], pos + 1)
    else if e == 0x62 then Done([0x08], pos + 1)
    else if e == 0x66 then Done([0x0C], pos + 1)
    else if e == 0x6E then Done([0x0A], pos + 1)
    else if e == 0x72 then Done([0x0D], pos + 1)
    else if e == 0x74 then Done([0x09], pos + 1)
    else if e == LETTER_U then Unicode(text, pos + 1)
    else Failed(UnknownEscape, pos + 1)
  }

  /** The rest of a string from `pos`, `out` already read. */
  function StringBody(text: Bytes, pos: nat, out: Bytes): (r: Outcome<Bytes>)
    requires pos <= |text|
    ensures r.Done? ==> pos < r.pos <= |text|
    decreases |text| - pos, 1
  {
    if pos == |text| then Failed(Unterminated, pos) else StringByte(text, pos, out)
  }

  function StringByte(text: Bytes, pos: nat, out: Bytes): (r: Outcome<Bytes>)
    requires pos < |text|
    ensures r.Done? ==> pos < r.pos <= |text|
    decreases |text| - pos, 0
  {
    if text[pos] == QUOTE then Done(out, pos + 1)
    else if text[pos] != BACKSLASH then StringBody(text, pos + 1, out + [text[pos]])
    else if pos + 1 == |text| then Failed(EndsInEscape, pos + 1)
    else
      match Escape(text, pos + 1)
      case Failed(why, at) => Failed(why, at)
      case Done(b, p) => StringBody(text, p, out + b)
  }

  function ParseString(text: Bytes, pos: nat): (r: Outcome<Bytes>)
    requires pos <= |text|
    ensures r.Done? ==> pos < r.pos <= |text|
  {
    match Eat(text, pos, QUOTE)
    case Failed(why, at) => Failed(why, at)
    case Done(_, p) => StringBody(text, p, [])
  }

  // ---- reading: numbers -----------------------------------------------------------------------------

  predicate Digit(c: byte) { 0x30 <= c <= 0x39 }

  predicate AllDigits(text: Bytes, lo: nat, hi: nat)
    requires lo <= hi <= |text|
    decreases hi
  {
    lo == hi || (Digit(text[hi - 1]) && AllDigits(text, lo, hi - 1))
  }

  lemma {:induction false} DigitFirst(text: Bytes, lo: nat, hi: nat)
    requires lo < hi <= |text|
    ensures AllDigits(text, lo, hi) <==> Digit(text[lo]) && AllDigits(text, lo + 1, hi)
    decreases hi
  {
    if lo + 1 < hi {
      DigitFirst(text, lo, hi - 1);
    }
  }

  function DigitsEnd(text: Bytes, pos: nat): (p: nat)
    requires pos <= |text|
    ensures pos <= p <= |text| && AllDigits(text, pos, p)
    ensures p < |text| ==> !Digit(text[p])
    decreases |text| - pos
  {
    if pos < |text| && Digit(text[pos]) then
      var p := DigitsEnd(text, pos + 1);
      DigitFirst(text, pos, p);
      p
    else pos
  }

  /** The number the digits from `lo` up to `hi` spell. */
  function DigitsValue(text: Bytes, lo: nat, hi: nat): (n: nat)
    requires lo <= hi <= |text| && AllDigits(text, lo, hi)
    decreases hi
  {
    if lo == hi then 0 else DigitsValue(text, lo, hi - 1) * 10 + (text[hi - 1] - 0x30)
  }

  /** Bytes that would make more of a run of digits than an integer. */
  predicate Continues(c: byte) { c == 0x2E || c == 0x45 || c == 0x65 || c == 0x58 || c == 0x78 }

  /** `strtod` on a plain decimal integer a double holds exactly; every other number is left to `other`. */
  function ScanNumber(other: Strtod, text: Bytes, pos: nat): (r: Scan)
    requires pos < |text|
    ensures r.Scanned? ==> 0 < r.length <= |text| - pos
  {
    var lo := if text[pos] == MINUS then pos + 1 else pos;
    var hi := DigitsEnd(text, lo);
    if lo < hi && !(hi < |text| && Continues(text[hi])) && DigitsValue(text, lo, hi) <= ExactIntegers then
      var n: int := DigitsValue(text, lo, hi);
      Scanned((if lo > pos then -n else n) as real, hi - pos)
    else
      var s := other(text, pos);
      if s.Scanned? && !(0 < s.length <= |text| - pos) then NoNumber else s
  }

  // ---- reading: values ------------------------------------------------------------------------------

  /** The bytes `s` stand in the text at `pos`. */
  predicate At(text: Bytes, pos: nat, s: Bytes)
    decreases |s|
  {
    if s == [] then pos <= |text| else pos < |text| && text[pos] == s[0] && At(text, pos + 1, s[1..])
  }

  lemma AtFits(text: Bytes, pos: nat, s: Bytes)
    requires At(text, pos, s)
    ensures pos + |s| <= |text|
    decreases |s|
  {
    if s != [] {
      AtFits(text, pos + 1, s[1..]);
    }
  }

  predicate HasKey(fields: seq<Field>, key: Bytes) {
    exists i :: 0 <= i < |fields| && fields[i].key == key
  }

  /** The first member with the key gets the value, or a new member at the end. */
  function Set(fields: seq<Field>, key: Bytes, value: Json): (r: seq<Field>)
    ensures |r| == if HasKey(fields, key) then |fields| else |fields| + 1
  {
    if fields == [] then [Field(key, value)]
    else if fields[0].key == key then [Field(key, value)] + fields[1..]
    else
      assert HasKey(fields, key) ==> HasKey(fields[1..], key) by {
        if HasKey(fields, key) {
          var i :| 0 <= i < |fields| && fields[i].key == key;
          assert fields[1..][i - 1].key == key;
        }
      }
      [fields[0]] + Set(fields[1..], key, value)
  }

  function ParseScalar(other: Strtod, text: Bytes, pos: nat): (r: Outcome<Json>)
    requires pos < |text|
    ensures r.Done? ==> pos < r.pos <= |text|
  {
    if text[pos] == QUOTE then
      match ParseString(text, pos)
      case Failed(why, at) => Failed(why, at)
      case Done(s, p) => Done(String(s), p)
    else if At(text, pos, TRUE) then AtFits(text, pos, TRUE); Done(Bool(true), pos + 4)
    else if At(text, pos, FALSE) then AtFits(text, pos, FALSE); Done(Bool(false), pos + 5)
    else if At(text, pos, NULL) then AtFits(text, pos, NULL); Done(Null, pos + 4)
    else
      match ScanNumber(other, text, pos)
      case NoNumber => Failed(NotAValue, pos)
      case Infinite => Failed(NotFinite, pos)
      case Scanned(x, n) => Done(Number(x), pos + n)
  }

  /** What stands behind an element of a container. */
  datatype Next = More(at: nat) | End(at: nat) | Neither(why: Why, at: nat)

  function AfterElement(text: Bytes, pos: nat, close: byte): (r: Next)
    requires pos <= |text|
    ensures !r.Neither? ==> pos < r.at <= |text|
  {
    var s := SkipSpace(text, pos);
    if s < |text| && text[s] == COMMA then More(s + 1)
    else
      match Eat(text, s, close)
      case Failed(why, at) => Neither(why, at)
      case Done(_, end) => End(end)
  }

  /** A member's key and the colon behind it. */
  function ParseKey(text: Bytes, pos: nat): (r: Outcome<Bytes>)
    requires pos <= |text|
    ensures r.Done? ==> pos < r.pos <= |text|
  {
    match ParseString(text, pos)
    case Failed(why, at) => Failed(why, at)
    case Done(key, p) =>
      match Eat(text, p, COLON)
      case Failed(why, at) => Failed(why, at)
      case Done(_, q) => Done(key, q)
  }

  /** Is the container that opens at `pos` closed at once? Then where it ends, else where its first element starts. */
  function Opened(text: Bytes, pos: nat, close: byte): (r: Next)
    requires pos < |text|
    ensures r.End? ==> pos < r.at <= |text|
    ensures r.More? ==> pos < r.at <= |text|
    ensures !r.Neither?
  {
    var q := SkipSpace(text, pos + 1);
    if q < |text| && text[q] == close then End(q + 1) else More(q)
  }

  function ParseValue(other: Strtod, text: Bytes, pos: nat, depth: nat): (r: Outcome<Json>)
    requires pos <= |text|
    ensures r.Done? ==> pos < r.pos <= |text|
    decreases |text| - pos, 1
  {
    if depth > MaxDepth then Failed(TooDeep, pos) else ParseAt(other, text, SkipSpace(text, pos), depth)
  }

  /** A value whose first byte stands at `p`. */
  function ParseAt(other: Strtod, text: Bytes, p: nat, depth: nat): (r: Outcome<Json>)
    requires p <= |text|
    ensures r.Done? ==> p < r.pos <= |text|
    decreases |text| - p, 0
  {
    if p == |text| then Failed(UnexpectedEnd, p)
    else if text[p] == OPEN_OBJECT then
      var o := Opened(text, p, CLOSE_OBJECT);
      if o.End? then Done(Object([]), o.at) else ParseMembers(other, text, o.at, depth, [])
    else if text[p] == OPEN_LIST then
      var o := Opened(text, p, CLOSE_LIST);
      if o.End? then Done(Array([]), o.at) else ParseItems(other, text, o.at, depth, [])
    else ParseScalar(other, text, p)
  }

  function ParseMembers(other: Strtod, text: Bytes, pos: nat, depth: nat, fields: seq<Field>): (r: Outcome<Json>)
    requires pos <= |text|
    ensures r.Done? ==> pos < r.pos <= |text|
    decreases |text| - pos, 3
  {
    if pos == |text| then Failed(Expected(QUOTE), pos) else ParseMembersAt(other, text, pos, depth, fields)
  }

  function ParseMembersAt(other: Strtod, text: Bytes, pos: nat, depth: nat, fields: seq<Field>): (r: Outcome<Json>)
    requires pos < |text|
    ensures r.Done? ==> pos < r.pos <= |text|
    decreases |text| - pos, 2
  {
    match ParseKey(text, pos)
    case Failed(why, at) => Failed(why, at)
    case Done(key, q) => ParseMember(other, text, q, depth, fields, key)
  }

  /** The value of the member `key`, and the members behind it. */
  function ParseMember(other: Strtod, text: Bytes, pos: nat, depth: nat, fields: seq<Field>,
                       key: Bytes): (r: Outcome<Json>)
    requires pos <= |text|
    ensures r.Done? ==> pos < r.pos <= |text|
    decreases |text| - pos, 2
  {
    match ParseValue(other, text, pos, depth + 1)
    case Failed(why, at) => Failed(why, at)
    case Done(value, e) =>
      match AfterElement(text, e, CLOSE_OBJECT)
      case Neither(why, at) => Failed(why, at)
      case More(p) => ParseMembers(other, text, p, depth, Set(fields, key, value))
      case End(p) => Done(Object(Set(fields, key, value)), p)
  }

  function ParseItems(other: Strtod, text: Bytes, pos: nat, depth: nat, items: seq<Json>): (r: Outcome<Json>)
    requires pos <= |text|
    ensures r.Done? ==> pos < r.pos <= |text|
    decreases |text| - pos, 3
  {
    match ParseValue(other, text, pos, depth + 1)
    case Failed(why, at) => Failed(why, at)
    case Done(value, e) =>
      match AfterElement(text, e, CLOSE_LIST)
      case Neither(why, at) => Failed(why, at)
      case More(p) => ParseItems(other, text, p, depth, items + [value])
      case End(p) => Done(Array(items + [value]), p)
  }

  /** The whole text as one value. */
  function Parse(other: Strtod, text: Bytes): Outcome<Json> {
    if |text| > MaxInput then Failed(TooLong, 0)
    else
      match ParseValue(other, text, 0, 0)
      case Failed(why, at) => Failed(why, at)
      case Done(v, p) =>
        var e := SkipSpace(text, p);
        if e == |text| then Done(v, e) else Failed(TrailingData, e)
  }
}
