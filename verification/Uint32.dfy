/** The operations of 32-bit words, and what the functions of SHA-256 come to with them. */
module Uint32 {
  import opened Sha256Constants
  import opened Sha256

  function Sum(x: bv32, y: bv32): bv32 { x + y }
  function Xor(x: bv32, y: bv32): bv32 { x ^ y }
  function And(x: bv32, y: bv32): bv32 { x & y }
  function Not(x: bv32): bv32 { !x }

  /** `rotr` of the source; no distance is more than the width. */
  function Rotr(x: bv32, n: bv6): bv32 { if n <= 32 then (x >> n) | (x << (32 - n)) else 0 }
  function Shr(x: bv32, n: bv6): bv32 { if n <= 32 then x >> n else 0 }

  function Word(a: bv8, b: bv8, c: bv8, d: bv8): bv32 {
    ((a as bv32) << 24) | ((b as bv32) << 16) | ((c as bv32) << 8) | (d as bv32)
  }

  const UINT32: Ops := Ops(Sum, Xor, And, Not, Rotr, Shr, Word)

  // ---- what the functions of section 4.1.2 come to --------------------------------------------------

  /** The bits of the second word where the first is set, of the third elsewhere. */
  lemma {:induction false} ChooseSelects(x: bv32, y: bv32, z: bv32)
    ensures UINT32.Choose(x, y, z) & x == y & x && UINT32.Choose(x, y, z) & !x == z & !x
  {
  }

  /** Set where at least two of the three are. */
  lemma {:induction false} MajorityCounts(x: bv32, y: bv32, z: bv32)
    ensures UINT32.Majority(x, y, z) == (x & y) | (y & z) | (x & z)
  {
  }

  /** The source's rotation is rotation, for every distance the standard uses. */
  lemma {:induction false} RotrTurns(x: bv32)
    ensures Rotr(x, 2) == x.RotateRight(2) && Rotr(x, 13) == x.RotateRight(13) && Rotr(x, 22) == x.RotateRight(22)
    ensures Rotr(x, 6) == x.RotateRight(6) && Rotr(x, 11) == x.RotateRight(11) && Rotr(x, 25) == x.RotateRight(25)
    ensures Rotr(x, 7) == x.RotateRight(7) && Rotr(x, 18) == x.RotateRight(18)
    ensures Rotr(x, 17) == x.RotateRight(17) && Rotr(x, 19) == x.RotateRight(19)
  {
  }

  lemma {:induction false} XorTwice(a: bv32, b: bv32, c: bv32)
    ensures Xor(Xor(a, b), c) == a ^ b ^ c
  {
  }

  lemma {:induction false} IsXor(a: bv32, b: bv32, c: bv32, r: bv32)
    requires r == a ^ b ^ c
    ensures r == Xor(Xor(a, b), c)
  {
    XorTwice(a, b, c);
  }

  lemma {:induction false} BigSigmaOps(x: bv32)
    ensures UINT32.BigSigma0(x) == Xor(Xor(Rotr(x, 2), Rotr(x, 13)), Rotr(x, 22))
    ensures UINT32.BigSigma1(x) == Xor(Xor(Rotr(x, 6), Rotr(x, 11)), Rotr(x, 25))
  {
  }

  lemma {:induction false} SmallSigmaOps(x: bv32)
    ensures UINT32.SmallSigma0(x) == Xor(Xor(Rotr(x, 7), Rotr(x, 18)), Shr(x, 3))
    ensures UINT32.SmallSigma1(x) == Xor(Xor(Rotr(x, 17), Rotr(x, 19)), Shr(x, 10))
  {
  }

  /** The four sigmas: three turned or shifted words, by the distances of the standard, added without carry. */
  lemma {:induction false} BigSigma0Is(x: bv32, a: bv32, b: bv32, c: bv32, r: bv32)
    requires a == x.RotateRight(2) && b == x.RotateRight(13) && c == x.RotateRight(22) && r == a ^ b ^ c
    ensures UINT32.BigSigma0(x) == r
  {
    assert r == Xor(Xor(a, b), c) by { IsXor(a, b, c, r); }
    assert a == Rotr(x, 2) && b == Rotr(x, 13) && c == Rotr(x, 22) by { RotrTurns(x); }
    BigSigmaOps(x);
  }

  lemma {:induction false} BigSigma1Is(x: bv32, a: bv32, b: bv32, c: bv32, r: bv32)
    requires a == x.RotateRight(6) && b == x.RotateRight(11) && c == x.RotateRight(25) && r == a ^ b ^ c
    ensures UINT32.BigSigma1(x) == r
  {
    assert r == Xor(Xor(a, b), c) by { IsXor(a, b, c, r); }
    assert a == Rotr(x, 6) && b == Rotr(x, 11) && c == Rotr(x, 25) by { RotrTurns(x); }
    BigSigmaOps(x);
  }

  lemma {:induction false} SmallSigma0Is(x: bv32, a: bv32, b: bv32, c: bv32, r: bv32)
    requires a == x.RotateRight(7) && b == x.RotateRight(18) && c == x >> 3 && r == a ^ b ^ c
    ensures UINT32.SmallSigma0(x) == r
  {
    assert r == Xor(Xor(a, b), c) by { IsXor(a, b, c, r); }
    assert a == Rotr(x, 7) && b == Rotr(x, 18) && c == Shr(x, 3) by { RotrTurns(x); }
    SmallSigmaOps(x);
  }

  lemma {:induction false} SmallSigma1Is(x: bv32, a: bv32, b: bv32, c: bv32, r: bv32)
    requires a == x.RotateRight(17) && b == x.RotateRight(19) && c == x >> 10 && r == a ^ b ^ c
    ensures UINT32.SmallSigma1(x) == r
  {
    assert r == Xor(Xor(a, b), c) by { IsXor(a, b, c, r); }
    assert a == Rotr(x, 17) && b == Rotr(x, 19) && c == Shr(x, 10) by { RotrTurns(x); }
    SmallSigmaOps(x);
  }

  /** The bytes of a word, from the first on. */
  lemma {:induction false} WordBytes(a: bv8, b: bv8, c: bv8, d: bv8)
    ensures var w := UINT32.word(a, b, c, d);
      w >> 24 == a as bv32 && (w >> 16) & 0xFF == b as bv32 && (w >> 8) & 0xFF == c as bv32 && w & 0xFF == d as bv32
  {
  }

  /** The digest as text, with these operations. */
  method Sha256Hex(data: Bytes) returns (out: string)
    requires |data| < 0x2000_0000_0000_0000
    ensures out == Printed(WordsOf(HashWith(UINT32, data))) && |out| == 64
  {
    out := HashHex(UINT32, data);
  }
}
