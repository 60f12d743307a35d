/** The parser object: a position that advances over the text, and the first error. */
module JsonParser {
  import opened Basics
  import opened JsonText

  /** The first error and where it was met. */
  datatype Failure = Failure(why: Why, at: nat)

  class Parser {
    const text: Bytes
    var pos: nat
    var error: Option<Failure>

    constructor (text: Bytes)
      ensures this.text == text && pos == 0 && error == None
    {
      this.text := text;
      pos, error := 0, None;
    }

    predicate Valid()
      reads this
    {
      pos <= |text| && error.None?
    }

    /** What a step of the parser must have done, given what the grammar says. */
    ghost predicate Did<T>(ok: bool, out: T, spec: Outcome<T>)
      reads this
    {
      match spec
      case Done(v, p) => ok && out == v && pos == p && error.None?
      case Failed(why, at) => !ok && error == Some(Failure(why, at))
    }

    method SkipSpaces()
      requires Valid()
      modifies this`pos
      ensures Valid() && pos == SkipSpace(text, old(pos))
    {
      while pos < |text| && Space(text[pos])
        invariant Valid() && SkipSpace(text, pos) == SkipSpace(text, old(pos))
        decreases |text| - pos
      {
        pos := pos + 1;
      }
    }

    method Fail(why: Why) returns (ok: bool)
      modifies this`error
      ensures !ok && error == if old(error).None? then Some(Failure(why, pos)) else old(error)
    {
      if error.None? {
        error := Some(Failure(why, pos));
      }
      ok := false;
    }

    method EatByte(c: byte) returns (ok: bool)
      requires Valid()
      modifies this
      ensures Did(ok, (), Eat(text, old(pos), c))
    {
      SkipSpaces();
      if pos < |text| && text[pos] == c {
        pos := pos + 1;
        return true;
      }
      ok := Fail(Expected(c));
    }

    /** The four-digit loop of the escapes: reads without moving. */
    method FourDigits(from: nat) returns (cp: Option<nat>)
      requires from + 4 <= |text|
      ensures cp == HexFour(text, from)
    {
      var n := 0;
      for i := 0 to 4
        invariant Hex(text, from, i) == Some(n)
      {
        match HexValue(text[from + i]) {
          case None =>
            BadDigit(text, from, i, 4);
            return None;
          case Some(d) =>
            n := n * 16 + d;
        }
      }
      cp := Some(n);
    }

    method ReadUnicode() returns (ok: bool, out: Bytes)
      requires Valid()
      modifies this
      ensures Did(ok, out, Unicode(text, old(pos)))
    {
      out := [];
      if pos + 4 > |text| {
        ok := Fail(TruncatedUnicode);
        return;
      }
      var four := FourDigits(pos);
      if four.None? {
        ok := Fail(BadHex);
        return;
      }
      var cp := four.value;
      pos := pos + 4;
      if High(cp) && pos + 6 <= |text| && text[pos] == BACKSLASH && text[pos + 1] == LETTER_U {
        var lo := FourDigits(pos + 2);
        if lo.Some? && Low(lo.value) {
          cp := 0x1_0000 + (cp - 0xD800) * 0x400 + (lo.value - 0xDC00);
          pos := pos + 6;
        }
      }
      ok, out := true, Utf8(cp);
    }

    method ReadEscape() returns (ok: bool, out: Bytes)
      requires Valid() && pos < |text|
      modifies this
      ensures Did(ok, out, Escape(text, old(pos)))
    {
      var e := text[pos];
      pos := pos + 1;
      ok, out := true, [];
      if e == QUOTE || e == BACKSLASH || e == SLASH {
        out := [e];
      } else if e == 0x62 {
        out := [0x08];
      } else if e == 0x66 {
        out := [0x0C];
      } else if e == 0x6E {
        out := [0x0A];
      } else if e == 0x72 {
        out := [0x0D];
      } else if e == 0x74 {
        out := [0x09];
      } else if e == LETTER_U {
        ok, out := ReadUnicode();
      } else {
        ok := Fail(UnknownEscape);
      }
    }

    method ReadString() returns (ok: bool, out: Bytes)
      requires Valid()
      modifies this
      ensures Did(ok, out, ParseString(text, old(pos)))
    {
      out := [];
      ok := EatByte(QUOTE);
      if !ok {
        return;
      }
      ghost var spec := StringBody(text, pos, []);
      while pos < |text|
        invariant Valid() && StringBody(text, pos, out) == spec
        decreases |text| - pos
      {
        var c := text[pos];
        pos := pos + 1;
        if c == QUOTE {
          return true, out;
        }
        if c != BACKSLASH {
          out := out + [c];
          continue;
        }
        if pos >= |text| {
          ok := Fail(EndsInEscape);
          return;
        }
        var b;
        ok, b := ReadEscape();
        if !ok {
          return;
        }
        out := out + b;
      }
      ok := Fail(Unterminated);
    }

    /** The loop of `Json::set`: the first member with the key is overwritten, else one is added. */
    method SetMember(fields: seq<Field>, key: Bytes, value: Json) returns (r: seq<Field>)
      ensures r == Set(fields, key, value)
    {
      for i := 0 to |fields|
        invariant forall k :: 0 <= k < i ==> fields[k].key != key
      {
        if fields[i].key == key {
          SetFirst(fields, key, value, i);
          return fields[i := Field(key, value)];
        }
      }
      SetFirst(fields, key, value, |fields|);
      r := fields + [Field(key, value)];
    }

    method ReadScalar(other: Strtod) returns (ok: bool, out: Json)
      requires Valid() && pos < |text|
      modifies this
      ensures Did(ok, out, ParseScalar(other, text, old(pos)))
    {
      out := Null;
      if text[pos] == QUOTE {
        var s;
        ok, s := ReadString();
        if ok {
          out := String(s);
        }
      } else if At(text, pos, TRUE) {
        AtFits(text, pos, TRUE);
        ok, out, pos := true, Bool(true), pos + 4;
      } else if At(text, pos, FALSE) {
        AtFits(text, pos, FALSE);
        ok, out, pos := true, Bool(false), pos + 5;
      } else if At(text, pos, NULL) {
        AtFits(text, pos, NULL);
        ok, out, pos := true, Null, pos + 4;
      } else {
        match ScanNumber(other, text, pos) {
          case NoNumber =>
            ok := Fail(NotAValue);
          case Infinite =>
            ok := Fail(NotFinite);
          case Scanned(x, n) =>
            ok, out, pos := true, Number(x), pos + n;
        }
      }
    }

    /** Recursion as deep as the text nests, never deeper than the limit. */
    method ReadValue(other: Strtod, depth: nat) returns (ok: bool, out: Json)
      requires Valid() && depth <= MaxDepth + 1
      modifies this
      ensures Did(ok, out, ParseValue(other, text, old(pos), depth))
      decreases MaxDepth + 1 - depth, 2
    {
      out := Null;
      if depth > MaxDepth {
        ok := Fail(TooDeep);
        return;
      }
      SkipSpaces();
      assert ParseValue(other, text, old(pos), depth) == ParseAt(other, text, pos, depth);
      if pos >= |text| {
        ok := Fail(UnexpectedEnd);
        return;
      }
      if text[pos] == OPEN_OBJECT {
        ok, out := ReadObject(other, depth);
      } else if text[pos] == OPEN_LIST {
        ok, out := ReadArray(other, depth);
      } else {
        ok, out := ReadScalar(other);
      }
    }

    method ReadObject(other: Strtod, depth: nat) returns (ok: bool, out: Json)
      requires Valid() && depth <= MaxDepth && pos < |text| && text[pos] == OPEN_OBJECT
      modifies this
      ensures Did(ok, out, ParseAt(other, text, old(pos), depth))
      decreases MaxDepth + 1 - depth, 1
    {
      out := Object([]);
      pos := pos + 1;
      SkipSpaces();
      if pos < |text| && text[pos] == CLOSE_OBJECT {
        pos := pos + 1;
        return true, out;
      }
      ghost var spec := ParseMembers(other, text, pos, depth, []);
      var fields: seq<Field> := [];
      while true
        invariant Valid() && ParseMembers(other, text, pos, depth, fields) == spec
        decreases |text| - pos
      {
        var more;
        ok, more, fields := ReadMember(other, depth, fields);
        if !ok {
          return;
        }
        if !more {
          return true, Object(fields);
        }
      }
    }

    /** One turn of the loop: a key, a value, and what stands behind them. */
    method ReadMember(other: Strtod, depth: nat, fields: seq<Field>)
      returns (ok: bool, more: bool, after: seq<Field>)
      requires Valid() && depth <= MaxDepth
      modifies this
      ensures ok && more ==>
        && Valid() && pos > old(pos)
        && ParseMembers(other, text, old(pos), depth, fields) == ParseMembers(other, text, pos, depth, after)
      ensures !(ok && more) ==> Did(ok, Object(after), ParseMembers(other, text, old(pos), depth, fields))
      decreases MaxDepth + 1 - depth, 0
    {
      more, after := false, fields;
      var key;
      ok, key := ReadKey();
      MembersByKey(other, text, old(pos), depth, fields, ParseKey(text, old(pos)));
      if !ok {
        return;
      }
      ghost var middle := pos;
      var value;
      ok, value := ReadValue(other, depth + 1);
      MemberByValue(other, text, middle, depth, fields, key, ParseValue(other, text, middle, depth + 1));
      if !ok {
        return;
      }
      ok, more := ReadNext(CLOSE_OBJECT);
      if ok {
        after := SetMember(fields, key, value);
      }
    }

    method ReadArray(other: Strtod, depth: nat) returns (ok: bool, out: Json)
      requires Valid() && depth <= MaxDepth && pos < |text| && text[pos] == OPEN_LIST
      modifies this
      ensures Did(ok, out, ParseAt(other, text, old(pos), depth))
      decreases MaxDepth + 1 - depth, 0
    {
      out := Array([]);
      pos := pos + 1;
      SkipSpaces();
      if pos < |text| && text[pos] == CLOSE_LIST {
        pos := pos + 1;
        return true, out;
      }
      ghost var spec := ParseItems(other, text, pos, depth, []);
      var items: seq<Json> := [];
      while true
        invariant Valid() && ParseItems(other, text, pos, depth, items) == spec
        decreases |text| - pos
      {
        ghost var start := pos;
        var value;
        ok, value := ReadValue(other, depth + 1);
        ItemsByValue(other, text, start, depth, items, ParseValue(other, text, start, depth + 1));
        if !ok {
          return;
        }
        var more;
        ok, more := ReadNext(CLOSE_LIST);
        if !ok {
          return;
        }
        items := items + [value];
        if !more {
          return true, Array(items);
        }
      }
    }

    method ReadKey() returns (ok: bool, key: Bytes)
      requires Valid()
      modifies this
      ensures Did(ok, key, ParseKey(text, old(pos)))
    {
      ok, key := ReadString();
      if ok {
        ok := EatByte(COLON);
      }
    }

    /** Behind an element: a comma, or the closing bracket. */
    method ReadNext(close: byte) returns (ok: bool, more: bool)
      requires Valid()
      modifies this
      ensures match AfterElement(text, old(pos), close)
        case More(p) => ok && more && pos == p && error.None?
        case End(p) => ok && !more && pos == p && error.None?
        case Neither(why, at) => !ok && error == Some(Failure(why, at))
    {
      more := false;
      SkipSpaces();
      if pos < |text| && text[pos] == COMMA {
        pos := pos + 1;
        return true, true;
      }
      ok := EatByte(close);
    }
  }

  lemma {:induction false} BadDigit(text: Bytes, from: nat, i: nat, k: nat)
    requires from + k <= |text| && i < k && HexValue(text[from + i]).None?
    ensures Hex(text, from, k).None?
    decreases k
  {
    if i < k - 1 {
      BadDigit(text, from, i, k - 1);
    }
  }

  lemma {:induction false} SetFirst(fields: seq<Field>, key: Bytes, value: Json, i: nat)
    requires i <= |fields| && forall k :: 0 <= k < i ==> fields[k].key != key
    requires i < |fields| ==> fields[i].key == key
    ensures Set(fields, key, value) ==
      if i < |fields| then fields[i := Field(key, value)] else fields + [Field(key, value)]
    decreases i
  {
    if i > 0 {
      SetFirst(fields[1..], key, value, i - 1);
      assert fields == [fields[0]] + fields[1..];
    }
  }

  lemma {:induction false} MembersByKey(other: Strtod, text: Bytes, pos: nat, depth: nat, fields: seq<Field>,
                                        k: Outcome<Bytes>)
    requires pos <= |text| && k == ParseKey(text, pos)
    ensures ParseMembers(other, text, pos, depth, fields) ==
      match k
      case Failed(why, at) => Failed(why, at)
      case Done(key, q) => ParseMember(other, text, q, depth, fields, key)
  {
    if pos < |text| {
      assert ParseMembers(other, text, pos, depth, fields) == ParseMembersAt(other, text, pos, depth, fields);
    } else {
      assert ParseMembers(other, text, pos, depth, fields) == Failed(Expected(QUOTE), pos);
    }
  }

  lemma {:induction false} MemberByValue(other: Strtod, text: Bytes, pos: nat, depth: nat, fields: seq<Field>,
                                         key: Bytes, v: Outcome<Json>)
    requires pos <= |text| && v == ParseValue(other, text, pos, depth + 1)
    ensures ParseMember(other, text, pos, depth, fields, key) ==
      match v
      case Failed(why, at) => Failed(why, at)
      case Done(value, e) =>
        match AfterElement(text, e, CLOSE_OBJECT)
        case Neither(why, at) => Failed(why, at)
        case More(p) => ParseMembers(other, text, p, depth, Set(fields, key, value))
        case End(p) => Done(Object(Set(fields, key, value)), p)
  {
  }

  lemma {:induction false} ItemsByValue(other: Strtod, text: Bytes, pos: nat, depth: nat, items: seq<Json>,
                                        v: Outcome<Json>)
    requires pos <= |text| && v == ParseValue(other, text, pos, depth + 1)
    ensures ParseItems(other, text, pos, depth, items) ==
      match v
      case Failed(why, at) => Failed(why, at)
      case Done(value, e) =>
        match AfterElement(text, e, CLOSE_LIST)
        case Neither(why, at) => Failed(why, at)
        case More(p) => ParseItems(other, text, p, depth, items + [value])
        case End(p) => Done(Array(items + [value]), p)
  {
  }

  /** `Json::parse`: the whole text as one value, or the first error. */
  method ParseText(other: Strtod, text: Bytes) returns (r: Outcome<Json>)
    ensures r == Parse(other, text)
  {
    if |text| > MaxInput {
      return Failed(TooLong, 0);
    }
    var p := new Parser(text);
    var ok, v := p.ReadValue(other, 0);
    if !ok {
      return Failed(p.error.value.why, p.error.value.at);
    }
    p.SkipSpaces();
    if p.pos != |text| {
      return Failed(TrailingData, p.pos);
    }
    r := Done(v, p.pos);
  }
}
