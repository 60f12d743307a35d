/** SHA-256 as FIPS 180-4 defines it, and the routine that computes it. */
module Sha256 {
  import opened Sha256Constants

  type Bytes = seq<bv8>

  // ---- padding: section 5.1.1 -----------------------------------------------------------------------

  function Power256(k: nat): (r: nat)
    ensures r > 0
  {
    if k == 0 then 1 else 256 * Power256(k - 1)
  }

  /** The last `k` digits of `n` to base 256, most significant first. */
  function BigEndian(n: nat, k: nat): (r: Bytes)
    ensures |r| == k
  {
    if k == 0 then [] else BigEndian(n / 256, k - 1) + [(n % 256) as bv8]
  }

  function ValueOf(digits: Bytes): nat {
    if digits == [] then 0 else ValueOf(digits[..|digits| - 1]) * 256 + digits[|digits| - 1] as nat
  }

  lemma {:induction false} Doubled(b: bv8)
    requires b < 0x80
    ensures (b << 1) as nat == 2 * (b as nat) && ((b << 1) | 1) as nat == 2 * (b as nat) + 1
  {
  }

  lemma {:induction false} Small(b: bv8)
    requires b as nat < 128
    ensures b < 0x80
  {
  }

  /** Every number below 256 is that of a byte. */
  lemma {:induction false} SomeByte(n: nat) returns (b: bv8)
    requires n < 256
    ensures b as nat == n
  {
    if n == 0 {
      return 0;
    }
    var h := SomeByte(n / 2);
    Small(h);
    Doubled(h);
    b := if n % 2 == 0 then h << 1 else (h << 1) | 1;
  }

  lemma {:induction false} CastBack(b: bv8)
    ensures (b as nat) as bv8 == b
  {
  }

  lemma {:induction false} ByteReads(n: nat)
    requires n < 256
    ensures (n as bv8) as nat == n
  {
    var b := SomeByte(n);
    CastBack(b);
  }

  lemma {:induction false} BigEndianReads(n: nat, k: nat)
    requires n < Power256(k)
    ensures ValueOf(BigEndian(n, k)) == n
  {
    if k > 0 {
      BigEndianReads(n / 256, k - 1);
      assert BigEndian(n, k)[..k - 1] == BigEndian(n / 256, k - 1);
      ByteReads(n % 256);
    }
  }

  /** `(n >> 8 i) & 0xFF`. */
  function Digit(n: nat, i: nat): bv8 { (n / Power256(i) % 256) as bv8 }

  /** Digit by digit, the way shifts and masks read it off. */
  lemma {:induction false} DigitAt(n: nat, k: nat, i: nat)
    requires i < k
    ensures BigEndian(n, k)[k - 1 - i] == Digit(n, i)
  {
    if i > 0 {
      DigitAt(n / 256, k - 1, i - 1);
      DivideTwice(n, Power256(i - 1));
    }
  }

  lemma {:induction false} DivideTwice(n: nat, b: nat)
    requires b > 0
    ensures n / 256 / b == n / (256 * b)
  {
    var q, r := n / 256, n % 256;
    var t, u := q / b, q % b;
    assert n == 256 * (t * b + u) + r && u <= b - 1;
    assert n == t * (256 * b) + (256 * u + r);
    Quotient(n, 256 * b, t, 256 * u + r);
  }

  lemma {:induction false} Quotient(n: nat, d: nat, q: nat, r: nat)
    requires d > 0 && n == q * d + r && r < d
    ensures n / d == q
  {
    var p := n / d;
    assert n == p * d + n % d;
    assert p < q ==> (p + 1) * d <= q * d;
    assert p > q ==> (q + 1) * d <= p * d;
  }

  function Zeros(k: nat): (r: Bytes)
    ensures |r| == k && forall i :: 0 <= i && i < k ==> r[i] == 0
  {
    seq(k, _ => 0)
  }

  /** The smallest number of zero bytes that leaves room for the length in the last block. */
  function Filling(size: nat): (k: nat)
    ensures k < 64 && (size + 1 + k) % 64 == 56
  {
    (119 - size % 64) % 64
  }

  /** The message, a one bit, zeros, and the length in bits as a 64-bit number. */
  function Padded(m: Bytes): (r: Bytes)
    ensures |r| == |m| + 1 + Filling(|m|) + 8
  {
    m + [0x80] + Zeros(Filling(|m|)) + BigEndian(|m| * 8, 8)
  }

  /** Whole blocks, and no more of them than the message, its one bit and its length need. */
  lemma {:induction false} PaddedFits(m: Bytes)
    ensures |Padded(m)| % 64 == 0 && |m| + 9 <= |Padded(m)| < |m| + 9 + 64
  {
    Aligned(|m| + 1 + Filling(|m|));
  }

  lemma {:induction false} Aligned(size: nat)
    requires size % 64 == 56
    ensures (size + 8) % 64 == 0
  {
  }

  lemma {:induction false} EightDigits(n: nat)
    ensures n < 0x1_0000_0000_0000_0000 ==> n < Power256(8)
  {
    assert Power256(2) == 256 * (256 * Power256(0));
    assert Power256(4) == 256 * (256 * Power256(2));
    assert Power256(6) == 256 * (256 * Power256(4));
    assert Power256(8) == 256 * (256 * Power256(6));
  }

  /** The last eight bytes say how long the message is. */
  lemma {:induction false} LengthReads(m: Bytes)
    requires |m| < 0x2000_0000_0000_0000
    ensures ValueOf(Padded(m)[|Padded(m)| - 8..]) == |m| * 8
  {
    assert Padded(m)[|Padded(m)| - 8..] == BigEndian(|m| * 8, 8);
    EightDigits(|m| * 8);
    BigEndianReads(|m| * 8, 8);
  }

  lemma {:induction false} PaddedParts(m: Bytes, i: nat)
    requires i < |m| + 1 + Filling(|m|)
    ensures Padded(m)[i] == if i < |m| then m[i] else if i == |m| then 0x80 else 0
  {
  }

  lemma {:induction false} PaddedLength(m: Bytes, n: Bytes)
    requires |m| < |n|
    ensures Padded(m) != Padded(n)
  {
    PaddedParts(n, |n|);
    if |Padded(m)| == |Padded(n)| {
      PaddedParts(m, |n|);
      assert Padded(m)[|n|] == 0 && Padded(n)[|n|] == 0x80;
    }
  }

  /** Different messages, however long, are padded differently. */
  lemma {:induction false} PaddedInjective(m: Bytes, n: Bytes)
    requires Padded(m) == Padded(n)
    ensures m == n
  {
    if |m| < |n| {
      PaddedLength(m, n);
    } else if |n| < |m| {
      PaddedLength(n, m);
    }
    assert Padded(m)[..|m|] == m && Padded(n)[..|n|] == n;
  }

  // ---- the hash: sections 4.1.2, 5.2.1 and 6.2.2 ----------------------------------------------------

  /** The operations on 32-bit words. What the routine does with them is proved whatever they are; `UINT32` is what they
      are. */
  datatype Ops = Ops(
    add: (bv32, bv32) -> bv32,
    xor: (bv32, bv32) -> bv32,
    and: (bv32, bv32) -> bv32,
    not: bv32 -> bv32,
    rotr: (bv32, bv6) -> bv32,
    shr: (bv32, bv6) -> bv32,
    word: (bv8, bv8, bv8, bv8) -> bv32)
  {
    function BigSigma0(x: bv32): bv32 { xor(xor(rotr(x, 2), rotr(x, 13)), rotr(x, 22)) }
    function BigSigma1(x: bv32): bv32 { xor(xor(rotr(x, 6), rotr(x, 11)), rotr(x, 25)) }
    function SmallSigma0(x: bv32): bv32 { xor(xor(rotr(x, 7), rotr(x, 18)), shr(x, 3)) }
    function SmallSigma1(x: bv32): bv32 { xor(xor(rotr(x, 17), rotr(x, 19)), shr(x, 10)) }
    function Choose(x: bv32, y: bv32, z: bv32): bv32 { xor(and(x, y), and(not(x), z)) }
    function Majority(x: bv32, y: bv32, z: bv32): bv32 { xor(xor(and(x, y), and(x, z)), and(y, z)) }

    /** A later entry of the schedule. */
    function Mix(w16: bv32, w15: bv32, w7: bv32, w2: bv32): bv32 {
      add(add(add(w16, SmallSigma0(w15)), w7), SmallSigma1(w2))
    }

    /** The two temporary words of a round. */
    function Temp1(s: Work, k: bv32, w: bv32): bv32 {
      add(add(add(add(s.h, BigSigma1(s.e)), Choose(s.e, s.f, s.g)), k), w)
    }

    function Temp2(s: Work): bv32 { add(BigSigma0(s.a), Majority(s.a, s.b, s.c)) }

    /** One round. */
    function Round(s: Work, k: bv32, w: bv32): Work {
      Work(add(Temp1(s, k, w), Temp2(s)), s.a, s.b, s.c, add(s.d, Temp1(s, k, w)), s.e, s.f, s.g)
    }

    function Plus(s: Work, t: Work): Work {
      Work(add(s.a, t.a), add(s.b, t.b), add(s.c, t.c), add(s.d, t.d),
           add(s.e, t.e), add(s.f, t.f), add(s.g, t.g), add(s.h, t.h))
    }
  }

  /** The eight working variables. */
  datatype Work = Work(a: bv32, b: bv32, c: bv32, d: bv32, e: bv32, f: bv32, g: bv32, h: bv32)

  /** One block of 64 bytes. */
  function Block(m: Bytes, i: nat): (b: Bytes)
    requires 64 * i + 64 <= |m|
    ensures |b| == 64
  {
    m[64 * i..64 * i + 64]
  }

  /** The message schedule. */
  function Schedule(o: Ops, b: Bytes, t: nat): bv32
    requires |b| == 64
    decreases t, |b|, 1
  {
    if t < 16 then o.word(b[4 * t], b[4 * t + 1], b[4 * t + 2], b[4 * t + 3]) else Mixed(o, b, t)
  }

  function Mixed(o: Ops, b: Bytes, t: nat): bv32
    requires |b| == 64 && t >= 16
    decreases t, |b|, 0
  {
    o.Mix(Schedule(o, b, t - 16), Schedule(o, b, t - 15), Schedule(o, b, t - 7), Schedule(o, b, t - 2))
  }

  function Constant(t: nat): bv32
    requires t < 64
  {
    K[t]
  }

  function Rounds(o: Ops, b: Bytes, s: Work, t: nat): Work
    requires |b| == 64 && t <= 64
    decreases t, |b|, 0
  {
    if t == 0 then s else RoundAfter(o, b, s, t - 1)
  }

  function RoundAfter(o: Ops, b: Bytes, s: Work, t: nat): Work
    requires |b| == 64 && t < 64
    decreases t, |b|, 1
  {
    o.Round(Rounds(o, b, s, t), Constant(t), Schedule(o, b, t))
  }

  function Initial(): Work {
    Work(H0[0], H0[1], H0[2], H0[3], H0[4], H0[5], H0[6], H0[7])
  }

  /** The hash value after `n` blocks. */
  function HashOf(o: Ops, m: Bytes, n: nat): Work
    requires 64 * n <= |m|
    decreases n, 0
  {
    if n == 0 then Initial() else HashNext(o, m, n - 1)
  }

  function HashNext(o: Ops, m: Bytes, n: nat): Work
    requires 64 * n + 64 <= |m|
    decreases n, 1
  {
    o.Plus(HashOf(o, m, n), Rounds(o, Block(m, n), HashOf(o, m, n), 64))
  }

  function HashWith(o: Ops, m: Bytes): Work {
    PaddedFits(m);
    HashOf(o, Padded(m), |Padded(m)| / 64)
  }

  /** Reading block after block from the front. */
  function Continued(o: Ops, s: Work, m: Bytes, n: nat): Work
    requires 64 * n <= |m|
    decreases n
  {
    if n == 0 then s else Continued(o, o.Plus(s, Rounds(o, m[..64], s, 64)), m[64..], n - 1)
  }

  lemma {:induction false} ContinuedLast(o: Ops, s: Work, m: Bytes, n: nat)
    requires 64 * n + 64 <= |m|
    ensures Continued(o, s, m, n + 1) ==
      var h := Continued(o, s, m, n); o.Plus(h, Rounds(o, Block(m, n), h, 64))
    decreases n
  {
    if n > 0 {
      ContinuedLast(o, o.Plus(s, Rounds(o, m[..64], s, 64)), m[64..], n - 1);
      assert Block(m[64..], n - 1) == Block(m, n);
    } else {
      assert m[..64] == Block(m, 0);
    }
  }

  /** Every block takes up where the one before it left off. */
  lemma {:induction false} BlocksChain(o: Ops, m: Bytes, n: nat)
    requires 64 * n <= |m|
    ensures HashOf(o, m, n) == Continued(o, Initial(), m, n)
  {
    if n > 0 {
      BlocksChain(o, m, n - 1);
      ContinuedLast(o, Initial(), m, n - 1);
      assert HashOf(o, m, n) == HashNext(o, m, n - 1);
    }
  }

  // ---- the code -------------------------------------------------------------------------------------

  /** The zero loop. */
  method Fill(data: Bytes) returns (msg: Bytes)
    ensures msg == data + [0x80] + Zeros(Filling(|data|))
  {
    msg := data + [0x80];
    ghost var zeros := 0;
    assert msg == data + [0x80] + Zeros(0);
    while |msg| % 64 != 56
      invariant 0 <= zeros <= Filling(|data|) && msg == data + [0x80] + Zeros(zeros)
      decreases Filling(|data|) - zeros
    {
      assert zeros != Filling(|data|);
      msg := msg + [0];
      assert Zeros(zeros) + [0] == Zeros(zeros + 1);
      zeros := zeros + 1;
    }
    FillingIs(|data|, zeros);
  }

  lemma {:induction false} FillingIs(size: nat, k: nat)
    requires k <= Filling(size) && (size + 1 + k) % 64 == 56
    ensures k == Filling(size)
  {
    var f := Filling(size);
    assert (f - k) % 64 == 0;
  }

  method AppendLength(head: Bytes, bits: nat) returns (msg: Bytes)
    ensures msg == head + BigEndian(bits, 8)
  {
    msg := head;
    ghost var length := BigEndian(bits, 8);
    var i := 8;
    while i > 0
      invariant 0 <= i <= 8 && msg == head + length[..8 - i]
    {
      i := i - 1;
      DigitAt(bits, 8, i);
      assert length[..8 - i] == length[..7 - i] + [length[7 - i]];
      msg := msg + [Digit(bits, i)];
    }
    assert length[..8] == length;
  }

  lemma {:induction false} BitsFit(size: nat)
    requires size < 0x2000_0000_0000_0000
    ensures size * 8 % 0x1_0000_0000_0000_0000 == size * 8
  {
  }

  /** The padding: zeros, then the length from its most significant byte down. */
  method Pad(data: Bytes) returns (msg: Bytes)
    requires |data| < 0x2000_0000_0000_0000
    ensures msg == Padded(data)
  {
    var bits := |data| * 8 % 0x1_0000_0000_0000_0000;
    BitsFit(|data|);
    var filled := Fill(data);
    msg := AppendLength(filled, bits);
  }

  /** One later entry of the schedule. */
  method MixWord(o: Ops, w16: bv32, w15: bv32, w7: bv32, w2: bv32) returns (w: bv32)
    ensures w == o.Mix(w16, w15, w7, w2)
  {
    var s0 := o.xor(o.xor(o.rotr(w15, 7), o.rotr(w15, 18)), o.shr(w15, 3));
    var s1 := o.xor(o.xor(o.rotr(w2, 17), o.rotr(w2, 19)), o.shr(w2, 10));
    w := o.add(o.add(o.add(w16, s0), w7), s1);
  }

  lemma {:induction false} MixedIs(o: Ops, b: Bytes, t: nat, w16: bv32, w15: bv32, w7: bv32, w2: bv32)
    requires |b| == 64 && t >= 16 && w16 == Schedule(o, b, t - 16) && w15 == Schedule(o, b, t - 15)
    requires w7 == Schedule(o, b, t - 7) && w2 == Schedule(o, b, t - 2)
    ensures Schedule(o, b, t) == o.Mix(w16, w15, w7, w2)
  {
    assert Schedule(o, b, t) == Mixed(o, b, t);
  }

  /** The schedule array of one block. */
  method FillSchedule(o: Ops, msg: Bytes, off: nat, w: array<bv32>)
    requires off + 64 <= |msg| && w.Length == 64
    modifies w
    ensures forall t :: 0 <= t < 64 ==> w[t] == Schedule(o, msg[off..off + 64], t)
  {
    ghost var b := msg[off..off + 64];
    for i := 0 to 16
      invariant forall t :: 0 <= t < i ==> w[t] == Schedule(o, b, t)
    {
      w[i] := o.word(msg[off + i * 4], msg[off + i * 4 + 1], msg[off + i * 4 + 2], msg[off + i * 4 + 3]);
    }
    for i := 16 to 64
      invariant forall t :: 0 <= t < i ==> w[t] == Schedule(o, b, t)
    {
      MixedIs(o, b, i, w[i - 16], w[i - 15], w[i - 7], w[i - 2]);
      w[i] := MixWord(o, w[i - 16], w[i - 15], w[i - 7], w[i - 2]);
    }
  }

  lemma {:induction false} RoundIs(o: Ops, b: Bytes, s: Work, t: nat, r: Work, w: bv32)
    requires |b| == 64 && t < 64 && r == Rounds(o, b, s, t) && w == Schedule(o, b, t)
    ensures Rounds(o, b, s, t + 1) == o.Round(r, Constant(t), w)
  {
    assert Rounds(o, b, s, t + 1) == RoundAfter(o, b, s, t);
  }

  /** The 64 rounds over rotating variables. */
  method Compress(o: Ops, ghost block: Bytes, w: array<bv32>, s: Work) returns (r: Work)
    requires |block| == 64 && w.Length == 64 && forall t :: 0 <= t < 64 ==> w[t] == Schedule(o, block, t)
    ensures r == Rounds(o, block, s, 64)
  {
    var a, b, c, d, e, f, g, hh := s.a, s.b, s.c, s.d, s.e, s.f, s.g, s.h;
    for i := 0 to 64
      invariant Work(a, b, c, d, e, f, g, hh) == Rounds(o, block, s, i)
    {
      RoundIs(o, block, s, i, Work(a, b, c, d, e, f, g, hh), w[i]);
      var bigS1 := o.xor(o.xor(o.rotr(e, 6), o.rotr(e, 11)), o.rotr(e, 25));
      var ch := o.xor(o.and(e, f), o.and(o.not(e), g));
      var t1 := o.add(o.add(o.add(o.add(hh, bigS1), ch), Constant(i)), w[i]);
      var bigS0 := o.xor(o.xor(o.rotr(a, 2), o.rotr(a, 13)), o.rotr(a, 22));
      var maj := o.xor(o.xor(o.and(a, b), o.and(a, c)), o.and(b, c));
      var t2 := o.add(bigS0, maj);
      hh := g;
      g := f;
      f := e;
      e := o.add(d, t1);
      d := c;
      c := b;
      b := a;
      a := o.add(t1, t2);
    }
    r := Work(a, b, c, d, e, f, g, hh);
  }

  lemma {:induction false} HashStep(o: Ops, m: Bytes, n: nat, h: Work)
    requires 64 * n + 64 <= |m| && h == HashOf(o, m, n)
    ensures HashOf(o, m, n + 1) == o.Plus(h, Rounds(o, Block(m, n), h, 64))
  {
    assert HashOf(o, m, n + 1) == HashNext(o, m, n);
  }

  method AddBlock(o: Ops, msg: Bytes, off: nat, w: array<bv32>, h: Work) returns (h': Work)
    requires off + 64 <= |msg| && w.Length == 64
    modifies w
    ensures h' == o.Plus(h, Rounds(o, msg[off..off + 64], h, 64))
  {
    FillSchedule(o, msg, off, w);
    var r := Compress(o, msg[off..off + 64], w, h);
    h' := Work(o.add(h.a, r.a), o.add(h.b, r.b), o.add(h.c, r.c), o.add(h.d, r.d),
               o.add(h.e, r.e), o.add(h.f, r.f), o.add(h.g, r.g), o.add(h.h, r.h));
  }

  /** Block after block, each working value added to the hash value so far. */
  method AddBlocks(o: Ops, msg: Bytes) returns (h: Work)
    ensures h == HashOf(o, msg, |msg| / 64)
  {
    h := Initial();
    var w := new bv32[64](_ => 0);
    for n := 0 to |msg| / 64
      invariant h == HashOf(o, msg, n)
    {
      HashStep(o, msg, n, h);
      h := AddBlock(o, msg, 64 * n, w, h);
    }
  }

  method Hash(o: Ops, data: Bytes) returns (h: Work)
    requires |data| < 0x2000_0000_0000_0000
    ensures h == HashWith(o, data)
  {
    var msg := Pad(data);
    h := AddBlocks(o, msg);
  }

  // ---- the 64 hex digits ------------------------------------------------------------------------------

  const HEX_DIGITS := "0123456789abcdef"

  /** The last `k` digits of `n` to base 16: what `%08x` prints for eight of them. */
  function Hex(n: nat, k: nat): (s: string)
    ensures |s| == k
  {
    if k == 0 then "" else Hex(n / 16, k - 1) + [HEX_DIGITS[n % 16]]
  }

  function DigitOf(c: char): nat {
    if '0' <= c <= '9' then c as nat - '0' as nat else if 'a' <= c <= 'f' then c as nat - 'a' as nat + 10 else 16
  }

  /** The number that a string of hex digits spells. */
  function ReadHex(s: string): nat {
    if s == "" then 0 else 16 * ReadHex(s[..|s| - 1]) + DigitOf(s[|s| - 1])
  }

  function Power16(k: nat): (r: nat)
    ensures r > 0
  {
    if k == 0 then 1 else 16 * Power16(k - 1)
  }

  lemma {:induction false} HexReads(n: nat, k: nat)
    requires n < Power16(k)
    ensures ReadHex(Hex(n, k)) == n
  {
    if k > 0 {
      HexReads(n / 16, k - 1);
      assert Hex(n, k)[..k - 1] == Hex(n / 16, k - 1);
      DigitReads(n % 16);
    }
  }

  lemma {:induction false} DigitReads(d: nat)
    requires d < 16
    ensures DigitOf(HEX_DIGITS[d]) == d
  {
    assert HEX_DIGITS[..10] == "0123456789";
  }

  function WordsOf(h: Work): (r: seq<bv32>)
    ensures |r| == 8
  {
    [h.a, h.b, h.c, h.d, h.e, h.f, h.g, h.h]
  }

  function Printed(words: seq<bv32>): (s: string)
    ensures |s| == 8 * |words|
  {
    if words == [] then "" else Printed(words[..|words| - 1]) + Hex(words[|words| - 1] as nat, 8)
  }

  lemma {:induction false} PrintedAt(words: seq<bv32>, i: nat)
    requires i < |words|
    ensures Printed(words)[8 * i..8 * i + 8] == Hex(words[i] as nat, 8)
  {
    if i < |words| - 1 {
      PrintedAt(words[..|words| - 1], i);
      assert Printed(words)[8 * i..8 * i + 8] == Printed(words[..|words| - 1])[8 * i..8 * i + 8];
    }
  }

  /** Each group of eight hex digits spells its word of the hash. */
  lemma {:induction false} DigestSpells(o: Ops, m: Bytes, i: nat)
    requires i < 8
    ensures ReadHex(Printed(WordsOf(HashWith(o, m)))[8 * i..8 * i + 8]) == WordsOf(HashWith(o, m))[i] as nat
  {
    var words := WordsOf(HashWith(o, m));
    PrintedAt(words, i);
    assert Power16(8) == 0x1_0000_0000;
    HexReads(words[i] as nat, 8);
  }

  /** The hash as text, eight digits a word. */
  method HashHex(o: Ops, data: Bytes) returns (out: string)
    requires |data| < 0x2000_0000_0000_0000
    ensures out == Printed(WordsOf(HashWith(o, data))) && |out| == 64
  {
    var h := Hash(o, data);
    var words := WordsOf(h);
    out := "";
    for i := 0 to 8
      invariant out == Printed(words[..i])
    {
      assert words[..i + 1][..i] == words[..i];
      out := out + Hex(words[i] as nat, 8);
    }
    assert words[..8] == words;
  }
}
