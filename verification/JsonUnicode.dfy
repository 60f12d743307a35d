/** What `\u` escapes mean: section 7 of RFC 8259 against the UTF-8 of section 3 of RFC 3629. */
module JsonUnicode {
  import opened Basics
  import opened JsonText

  predicate Scalar(cp: nat) { cp < 0x11_0000 && !High(cp) && !Low(cp) }

  predicate Tail(b: byte) { 0x80 <= b <= 0xBF }

  function Six(b: byte): (n: nat)
    requires Tail(b)
    ensures n < 0x40
  {
    b as int - 0x80
  }

  /** The code point of a byte sequence, by the syntax of section 4 of RFC 3629; none for anything else. */
  function Decode(b: Bytes): Option<nat> {
    if |b| == 1 && b[0] <= 0x7F then Some(b[0])
    else if |b| == 2 && 0xC2 <= b[0] <= 0xDF && Tail(b[1]) then Some((b[0] as int - 0xC0) * 0x40 + Six(b[1]))
    else if |b| == 3 && 0xE0 <= b[0] <= 0xEF && Tail(b[1]) && Tail(b[2])
            && (b[0] == 0xE0 ==> b[1] >= 0xA0) && (b[0] == 0xED ==> b[1] <= 0x9F) then
      Some((b[0] as int - 0xE0) * 0x1000 + Six(b[1]) * 0x40 + Six(b[2]))
    else if |b| == 4 && 0xF0 <= b[0] <= 0xF4 && Tail(b[1]) && Tail(b[2]) && Tail(b[3])
            && (b[0] == 0xF0 ==> b[1] >= 0x90) && (b[0] == 0xF4 ==> b[1] <= 0x8F) then
      Some((b[0] as int - 0xF0) * 0x4_0000 + Six(b[1]) * 0x1000 + Six(b[2]) * 0x40 + Six(b[3]))
    else None
  }

  lemma {:induction false} Step64(q: nat, r: nat)
    requires r < 0x40
    ensures (q * 0x40 + r) / 0x40 == q && (q * 0x40 + r) % 0x40 == r
  {
  }

  lemma {:induction false} Nested64(n: nat)
    ensures n / 0x1000 == n / 0x40 / 0x40 && n / 0x4_0000 == n / 0x40 / 0x40 / 0x40
  {
  }

  /** Digits to base 64. */
  lemma {:induction false} Base64(w: nat, x: nat, y: nat, z: nat)
    requires x < 0x40 && y < 0x40 && z < 0x40
    ensures var n := w * 0x4_0000 + x * 0x1000 + y * 0x40 + z;
      n / 0x4_0000 == w && n / 0x1000 == w * 0x40 + x && n / 0x1000 % 0x40 == x && n / 0x40 % 0x40 == y && n % 0x40 == z
  {
    Nested64(w * 0x4_0000 + x * 0x1000 + y * 0x40 + z);
    Step64(w * 0x1000 + x * 0x40 + y, z);
    Step64(w * 0x40 + x, y);
    Step64(w, x);
  }

  lemma {:induction false} Digits64(n: nat)
    ensures n == n / 0x4_0000 * 0x4_0000 + n / 0x1000 % 0x40 * 0x1000 + n / 0x40 % 0x40 * 0x40 + n % 0x40
    ensures n / 0x1000 == n / 0x4_0000 * 0x40 + n / 0x1000 % 0x40
  {
    var a := n / 0x40;
    var b := a / 0x40;
    assert n == a * 0x40 + n % 0x40 && a == b * 0x40 + a % 0x40;
    assert b == n / 0x1000;
    assert b / 0x40 == n / 0x4_0000;
  }

  /** The bytes written for a code point are its UTF-8 form, and the only one. */
  lemma {:induction false} Utf8Exact(cp: nat, b: Bytes)
    requires cp < 0x11_0000
    ensures Decode(b) == Some(cp) <==> Scalar(cp) && b == Utf8(cp)
  {
    if Decode(b) == Some(cp) {
      Encoded(cp, b);
    }
    if Scalar(cp) {
      Decoded(cp);
    }
  }

  lemma {:induction false} Decoded(cp: nat)
    requires Scalar(cp)
    ensures Decode(Utf8(cp)) == Some(cp)
  {
    Digits64(cp);
    var b := Utf8(cp);
    if |b| == 4 {
      assert b[1] == 0x80 + cp / 0x1000 % 0x40;
    } else if |b| == 3 {
      assert b[0] == 0xE0 + cp / 0x1000 && cp / 0x4_0000 == 0;
    }
  }

  lemma {:induction false} Encoded(cp: nat, b: Bytes)
    requires Decode(b) == Some(cp)
    ensures Scalar(cp) && b == Utf8(cp)
  {
    if |b| == 2 {
      Base64(0, 0, b[0] as int - 0xC0, Six(b[1]));
    } else if |b| == 3 {
      Base64(0, b[0] as int - 0xE0, Six(b[1]), Six(b[2]));
    } else if |b| == 4 {
      Base64(b[0] as int - 0xF0, Six(b[1]), Six(b[2]), Six(b[3]));
    }
  }

  /** The hex digits from `pos` to `end` spell the code point: four of them, or the two halves of its surrogate pair. */
  predicate Spells(text: Bytes, pos: nat, cp: nat, end: nat) {
    if cp < 0x1_0000 then end == pos + 4 <= |text| && HexFour(text, pos) == Some(cp)
    else
      && end == pos + 10 <= |text|
      && HexFour(text, pos) == Some(0xD800 + (cp - 0x1_0000) / 0x400)
      && text[pos + 4] == BACKSLASH && text[pos + 5] == LETTER_U
      && HexFour(text, pos + 6) == Some(0xDC00 + (cp - 0x1_0000) % 0x400)
  }

  /** A well-formed escape is read as the UTF-8 of the code point it spells. */
  lemma {:induction false} EscapeMeans(text: Bytes, pos: nat, cp: nat, end: nat)
    requires Scalar(cp) && Spells(text, pos, cp, end)
    ensures Unicode(text, pos).Done? && Unicode(text, pos).pos == end && Decode(Unicode(text, pos).value) == Some(cp)
  {
    if cp >= 0x1_0000 {
      assert LowHalf(text, pos + 4) == Some(0xDC00 + (cp - 0x1_0000) % 0x400);
    }
    Utf8Exact(cp, Utf8(cp));
  }
}
