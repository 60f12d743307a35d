/** The published digest of the message "abc", worked through eight rounds at a time. */
module Sha256Example {
  import opened Sha256Constants
  import opened Sha256
  import opened Uint32

  datatype Eight = Eight(w0: bv32, w1: bv32, w2: bv32, w3: bv32, w4: bv32, w5: bv32, w6: bv32, w7: bv32)

  /** Eight entries of the schedule. */
  function Window(o: Ops, b: Bytes, t: nat): Eight
    requires |b| == 64
  {
    Eight(Schedule(o, b, t), Schedule(o, b, t + 1), Schedule(o, b, t + 2), Schedule(o, b, t + 3),
          Schedule(o, b, t + 4), Schedule(o, b, t + 5), Schedule(o, b, t + 6), Schedule(o, b, t + 7))
  }

  /** The eight entries behind `u` and `v`. */
  function Next(o: Ops, u: Eight, v: Eight): Eight {
    var x0 := o.Mix(u.w0, u.w1, v.w1, v.w6);
    var x1 := o.Mix(u.w1, u.w2, v.w2, v.w7);
    var x2 := o.Mix(u.w2, u.w3, v.w3, x0);
    var x3 := o.Mix(u.w3, u.w4, v.w4, x1);
    var x4 := o.Mix(u.w4, u.w5, v.w5, x2);
    var x5 := o.Mix(u.w5, u.w6, v.w6, x3);
    var x6 := o.Mix(u.w6, u.w7, v.w7, x4);
    var x7 := o.Mix(u.w7, v.w0, x0, x5);
    Eight(x0, x1, x2, x3, x4, x5, x6, x7)
  }

  lemma {:induction false} NextWindow(o: Ops, b: Bytes, t: nat, u: Eight, v: Eight, w: Eight)
    requires |b| == 64 && u == Window(o, b, t) && v == Window(o, b, t + 8) && w == Next(o, u, v)
    ensures Window(o, b, t + 16) == w
  {
    MixedIs(o, b, t + 16, u.w0, u.w1, v.w1, Schedule(o, b, t + 14));
    MixedIs(o, b, t + 17, u.w1, u.w2, v.w2, Schedule(o, b, t + 15));
    MixedIs(o, b, t + 18, u.w2, u.w3, v.w3, Schedule(o, b, t + 16));
    MixedIs(o, b, t + 19, u.w3, u.w4, v.w4, Schedule(o, b, t + 17));
    MixedIs(o, b, t + 20, u.w4, u.w5, v.w5, Schedule(o, b, t + 18));
    MixedIs(o, b, t + 21, u.w5, u.w6, v.w6, Schedule(o, b, t + 19));
    MixedIs(o, b, t + 22, u.w6, u.w7, v.w7, Schedule(o, b, t + 20));
    MixedIs(o, b, t + 23, u.w7, v.w0, Schedule(o, b, t + 16), Schedule(o, b, t + 21));
  }

  /** Four rounds. */
  function FourRounds(o: Ops, s: Work, k0: bv32, w0: bv32, k1: bv32, w1: bv32, k2: bv32, w2: bv32,
                      k3: bv32, w3: bv32): Work {
    o.Round(o.Round(o.Round(o.Round(s, k0, w0), k1, w1), k2, w2), k3, w3)
  }

  lemma {:induction false} TwoMore(o: Ops, b: Bytes, s: Work, t: nat, r0: Work, r1: Work, r2: Work,
                                   k0: bv32, w0: bv32, k1: bv32, w1: bv32)
    requires |b| == 64 && t <= 62 && r0 == Rounds(o, b, s, t) && k0 == Constant(t) && k1 == Constant(t + 1)
    requires w0 == Schedule(o, b, t) && w1 == Schedule(o, b, t + 1)
    requires r1 == o.Round(r0, k0, w0) && r2 == o.Round(r1, k1, w1)
    ensures Rounds(o, b, s, t + 2) == r2
  {
    RoundIs(o, b, s, t, r0, w0);
    RoundIs(o, b, s, t + 1, r1, w1);
  }

  lemma {:induction false} FourMore(o: Ops, b: Bytes, s: Work, t: nat, r: Work, r': Work,
                                    k0: bv32, w0: bv32, k1: bv32, w1: bv32, k2: bv32, w2: bv32, k3: bv32, w3: bv32)
    requires |b| == 64 && t <= 60 && r == Rounds(o, b, s, t)
    requires k0 == Constant(t) && k1 == Constant(t + 1) && k2 == Constant(t + 2) && k3 == Constant(t + 3)
    requires w0 == Schedule(o, b, t) && w1 == Schedule(o, b, t + 1)
    requires w2 == Schedule(o, b, t + 2) && w3 == Schedule(o, b, t + 3)
    requires r' == FourRounds(o, r, k0, w0, k1, w1, k2, w2, k3, w3)
    ensures Rounds(o, b, s, t + 4) == r'
  {
    var r1 := o.Round(r, k0, w0);
    var r2 := o.Round(r1, k1, w1);
    TwoMore(o, b, s, t, r, r1, r2, k0, w0, k1, w1);
    TwoMore(o, b, s, t + 2, r2, o.Round(r2, k2, w2), r', k2, w2, k3, w3);
  }

  /** Eight rounds with the constants `k` and the entries `v`. */
  function EightRounds(o: Ops, s: Work, k: Eight, v: Eight): Work {
    FourRounds(o, FourRounds(o, s, k.w0, v.w0, k.w1, v.w1, k.w2, v.w2, k.w3, v.w3),
               k.w4, v.w4, k.w5, v.w5, k.w6, v.w6, k.w7, v.w7)
  }

  predicate ConstantsFrom(t: nat, k: Eight)
    requires t <= 56
  {
    && k.w0 == Constant(t) && k.w1 == Constant(t + 1) && k.w2 == Constant(t + 2) && k.w3 == Constant(t + 3)
    && k.w4 == Constant(t + 4) && k.w5 == Constant(t + 5) && k.w6 == Constant(t + 6) && k.w7 == Constant(t + 7)
  }

  lemma {:induction false} EightMore(o: Ops, b: Bytes, s: Work, t: nat, k: Eight, r: Work, v: Eight, r': Work)
    requires |b| == 64 && t <= 56 && ConstantsFrom(t, k) && r == Rounds(o, b, s, t) && v == Window(o, b, t)
    requires r' == EightRounds(o, r, k, v)
    ensures Rounds(o, b, s, t + 8) == r'
  {
    var h := FourRounds(o, r, k.w0, v.w0, k.w1, v.w1, k.w2, v.w2, k.w3, v.w3);
    FourMore(o, b, s, t, r, h, k.w0, v.w0, k.w1, v.w1, k.w2, v.w2, k.w3, v.w3);
    FourMore(o, b, s, t + 4, h, r', k.w4, v.w4, k.w5, v.w5, k.w6, v.w6, k.w7, v.w7);
  }

  // ---- the one block of "abc" -----------------------------------------------------------------------

  const ABC: Bytes := [0x61, 0x62, 0x63]

  lemma {:induction false} ZeroDigits(k: nat)
    ensures BigEndian(0, k) == Zeros(k)
  {
    if k > 0 {
      ZeroDigits(k - 1);
    }
  }

  predicate IsAbc(b: Bytes) {
    && |b| == 64 && b[0] == 0x61 && b[1] == 0x62 && b[2] == 0x63 && b[3] == 0x80 && b[63] == 24
    && forall i :: 4 <= i && i < 63 ==> b[i] == 0
  }

  lemma {:induction false} AbcPadded()
    ensures IsAbc(Padded(ABC))
  {
    ZeroDigits(7);
    assert BigEndian(24, 8) == Zeros(7) + [24];
    assert Filling(3) == 52;
    assert Padded(ABC) == ABC + [0x80] + Zeros(52) + (Zeros(7) + [24]);
  }

  // the schedule
  const W0 := Eight(0x61626380, 0, 0, 0, 0, 0, 0, 0)
  const W1 := Eight(0, 0, 0, 0, 0, 0, 0, 0x18)
  const W2 := Eight(0x61626380, 0xF0000, 0x7DA86405, 0x600003C6, 0x3E9D7B78, 0x183FC00, 0x12DCBFDB, 0xE2E2C38E)
  const W3 := Eight(0xC8215C1A, 0xB73679A2, 0xE5BC3909, 0x32663C5B, 0x9D209D67, 0xEC8726CB, 0x702138A4, 0xD3B7973B)
  const W4 := Eight(0x93F5997F, 0x3B68BA73, 0xAFF4FFC1, 0xF10A5C62, 0xA8B3996, 0x72AF830A, 0x9409E33E, 0x24641522)
  const W5 := Eight(0x9F47BF94, 0xF0A64F5A, 0x3E246A79, 0x27333BA3, 0xC4763F2, 0x840ABF27, 0x7A290D5D, 0x65C43DA)
  const W6 := Eight(0xFB3E89CB, 0xCC7617DB, 0xB9E66C34, 0xA9993667, 0x84BADEDD, 0xC21462BC, 0x1487472C, 0xB20F7A99)
  const W7 := Eight(0xEF57B9CD, 0xEBE6B238, 0x9FE3095E, 0x78BC8D4B, 0xA43FCF15, 0x668B2FF8, 0xEEABA2CC, 0x12B1EDEB)

  // the constants
  const C0 := Eight(0x428A2F98, 0x71374491, 0xB5C0FBCF, 0xE9B5DBA5, 0x3956C25B, 0x59F111F1, 0x923F82A4, 0xAB1C5ED5)
  const C1 := Eight(0xD807AA98, 0x12835B01, 0x243185BE, 0x550C7DC3, 0x72BE5D74, 0x80DEB1FE, 0x9BDC06A7, 0xC19BF174)
  const C2 := Eight(0xE49B69C1, 0xEFBE4786, 0xFC19DC6, 0x240CA1CC, 0x2DE92C6F, 0x4A7484AA, 0x5CB0A9DC, 0x76F988DA)
  const C3 := Eight(0x983E5152, 0xA831C66D, 0xB00327C8, 0xBF597FC7, 0xC6E00BF3, 0xD5A79147, 0x6CA6351, 0x14292967)
  const C4 := Eight(0x27B70A85, 0x2E1B2138, 0x4D2C6DFC, 0x53380D13, 0x650A7354, 0x766A0ABB, 0x81C2C92E, 0x92722C85)
  const C5 := Eight(0xA2BFE8A1, 0xA81A664B, 0xC24B8B70, 0xC76C51A3, 0xD192E819, 0xD6990624, 0xF40E3585, 0x106AA070)
  const C6 := Eight(0x19A4C116, 0x1E376C08, 0x2748774C, 0x34B0BCB5, 0x391C0CB3, 0x4ED8AA4A, 0x5B9CCA4F, 0x682E6FF3)
  const C7 := Eight(0x748F82EE, 0x78A5636F, 0x84C87814, 0x8CC70208, 0x90BEFFFA, 0xA4506CEB, 0xBEF9A3F7, 0xC67178F2)

  // the working variables
  const S0 := Work(0x6A09E667, 0xBB67AE85, 0x3C6EF372, 0xA54FF53A, 0x510E527F, 0x9B05688C, 0x1F83D9AB, 0x5BE0CD19)
  const S1 := Work(0x85A07B5F, 0xE5030380, 0x2B4209F5, 0x4409A6A, 0xC657A79, 0x9B27A401, 0x714260AD, 0x43ADA245)
  const S2 := Work(0xB0FA238E, 0xC0645FDE, 0xD932EB16, 0x87912990, 0x7590DCD, 0xB92F20C, 0x745A48DE, 0x1E578218)
  const S3 := Work(0xC5D53D8D, 0xA7A3623F, 0xC2606D6D, 0x9DC68B63, 0xAA47C347, 0x49F5114A, 0xE1257970, 0x8ADA8930)
  const S4 := Work(0x73B33BF5, 0xEA992A22, 0xA0060B30, 0x363482C9, 0xBA591112, 0x109AB3A, 0xADE79437, 0x6112A3B7)
  const S5 := Work(0x79EA687A, 0x6DC57A8A, 0x34DF1604, 0x41A65CB1, 0x1EFBC0A0, 0xF0781BC8, 0xA507A53D, 0x772A26B)
  const S6 := Work(0x4172328D, 0xA14C14B0, 0x72AB4B91, 0x26628815, 0xFECF0BC6, 0xD57B94A9, 0xB7755DA1, 0xA80F11F0)
  const S7 := Work(0x38CC9913, 0x3EC45CDB, 0xF5702FDB, 0x101FD28F, 0x54CB266B, 0xE50E1B4F, 0x9F4787C3, 0x529E7D00)
  const S8 := Work(0x506E3058, 0xD39A2165, 0x4D24D6C, 0xB85E2CE9, 0x5EF50F24, 0xFB121210, 0x948D25B6, 0x961F4894)

  lemma {:induction false} Starts(b: Bytes)
    requires IsAbc(b)
    ensures Window(UINT32, b, 0) == W0 && Window(UINT32, b, 8) == W1
  {
    assert Word(0x61, 0x62, 0x63, 0x80) == 0x61626380 && Word(0, 0, 0, 0) == 0 && Word(0, 0, 0, 24) == 24;
  }

  lemma {:induction false} Schedule2(b: Bytes)
    requires IsAbc(b)
    ensures Window(UINT32, b, 16) == W2
  {
    Starts(b);
    assert Next(UINT32, W0, W1) == W2;
    NextWindow(UINT32, b, 0, W0, W1, W2);
  }

  lemma {:induction false} Schedule3(b: Bytes)
    requires IsAbc(b)
    ensures Window(UINT32, b, 24) == W3
  {
    Starts(b);
    Schedule2(b);
    assert Next(UINT32, W1, W2) == W3;
    NextWindow(UINT32, b, 8, W1, W2, W3);
  }

  lemma {:induction false} Schedule4(b: Bytes)
    requires IsAbc(b)
    ensures Window(UINT32, b, 32) == W4
  {
    Schedule2(b);
    Schedule3(b);
    assert Next(UINT32, W2, W3) == W4;
    NextWindow(UINT32, b, 16, W2, W3, W4);
  }

  lemma {:induction false} Schedule5(b: Bytes)
    requires IsAbc(b)
    ensures Window(UINT32, b, 40) == W5
  {
    Schedule3(b);
    Schedule4(b);
    assert Next(UINT32, W3, W4) == W5;
    NextWindow(UINT32, b, 24, W3, W4, W5);
  }

  lemma {:induction false} Schedule6(b: Bytes)
    requires IsAbc(b)
    ensures Window(UINT32, b, 48) == W6
  {
    Schedule4(b);
    Schedule5(b);
    assert Next(UINT32, W4, W5) == W6;
    NextWindow(UINT32, b, 32, W4, W5, W6);
  }

  lemma {:induction false} Schedule7(b: Bytes)
    requires IsAbc(b)
    ensures Window(UINT32, b, 56) == W7
  {
    Schedule5(b);
    Schedule6(b);
    assert Next(UINT32, W5, W6) == W7;
    NextWindow(UINT32, b, 40, W5, W6, W7);
  }

  lemma {:induction false} Constants0()
    ensures ConstantsFrom(0, C0)
  {
  }

  lemma {:induction false} Rounds0()
    ensures EightRounds(UINT32, S0, C0, W0) == S1
  {
  }

  lemma {:induction false} After1(b: Bytes)
    requires IsAbc(b)
    ensures Rounds(UINT32, b, S0, 8) == S1
  {
    Starts(b);
    Constants0();
    Rounds0();
    EightMore(UINT32, b, S0, 0, C0, S0, W0, S1);
  }

  lemma {:induction false} Constants1()
    ensures ConstantsFrom(8, C1)
  {
  }

  lemma {:induction false} Rounds1()
    ensures EightRounds(UINT32, S1, C1, W1) == S2
  {
  }

  lemma {:induction false} After2(b: Bytes)
    requires IsAbc(b)
    ensures Rounds(UINT32, b, S0, 16) == S2
  {
    Starts(b);
    After1(b);
    Constants1();
    Rounds1();
    EightMore(UINT32, b, S0, 8, C1, S1, W1, S2);
  }

  lemma {:induction false} Constants2()
    ensures ConstantsFrom(16, C2)
  {
  }

  lemma {:induction false} Rounds2()
    ensures EightRounds(UINT32, S2, C2, W2) == S3
  {
  }

  lemma {:induction false} After3(b: Bytes)
    requires IsAbc(b)
    ensures Rounds(UINT32, b, S0, 24) == S3
  {
    Schedule2(b);
    After2(b);
    Constants2();
    Rounds2();
    EightMore(UINT32, b, S0, 16, C2, S2, W2, S3);
  }

  lemma {:induction false} Constants3()
    ensures ConstantsFrom(24, C3)
  {
  }

  lemma {:induction false} Rounds3()
    ensures EightRounds(UINT32, S3, C3, W3) == S4
  {
  }

  lemma {:induction false} After4(b: Bytes)
    requires IsAbc(b)
    ensures Rounds(UINT32, b, S0, 32) == S4
  {
    Schedule3(b);
    After3(b);
    Constants3();
    Rounds3();
    EightMore(UINT32, b, S0, 24, C3, S3, W3, S4);
  }

  lemma {:induction false} Constants4()
    ensures ConstantsFrom(32, C4)
  {
  }

  lemma {:induction false} Rounds4()
    ensures EightRounds(UINT32, S4, C4, W4) == S5
  {
  }

  lemma {:induction false} After5(b: Bytes)
    requires IsAbc(b)
    ensures Rounds(UINT32, b, S0, 40) == S5
  {
    Schedule4(b);
    After4(b);
    Constants4();
    Rounds4();
    EightMore(UINT32, b, S0, 32, C4, S4, W4, S5);
  }

  lemma {:induction false} Constants5()
    ensures ConstantsFrom(40, C5)
  {
  }

  lemma {:induction false} Rounds5()
    ensures EightRounds(UINT32, S5, C5, W5) == S6
  {
  }

  lemma {:induction false} After6(b: Bytes)
    requires IsAbc(b)
    ensures Rounds(UINT32, b, S0, 48) == S6
  {
    Schedule5(b);
    After5(b);
    Constants5();
    Rounds5();
    EightMore(UINT32, b, S0, 40, C5, S5, W5, S6);
  }

  lemma {:induction false} Constants6()
    ensures ConstantsFrom(48, C6)
  {
  }

  lemma {:induction false} Rounds6()
    ensures EightRounds(UINT32, S6, C6, W6) == S7
  {
  }

  lemma {:induction false} After7(b: Bytes)
    requires IsAbc(b)
    ensures Rounds(UINT32, b, S0, 56) == S7
  {
    Schedule6(b);
    After6(b);
    Constants6();
    Rounds6();
    EightMore(UINT32, b, S0, 48, C6, S6, W6, S7);
  }

  lemma {:induction false} Constants7()
    ensures ConstantsFrom(56, C7)
  {
  }

  lemma {:induction false} Rounds7()
    ensures EightRounds(UINT32, S7, C7, W7) == S8
  {
  }

  lemma {:induction false} After8(b: Bytes)
    requires IsAbc(b)
    ensures Rounds(UINT32, b, S0, 64) == S8
  {
    Schedule7(b);
    After7(b);
    Constants7();
    Rounds7();
    EightMore(UINT32, b, S0, 56, C7, S7, W7, S8);
  }

  /** The digest that the standard's example gives for "abc". */
  lemma {:induction false} AbcDigest()
    ensures HashWith(UINT32, ABC) ==
      Work(0xBA7816BF, 0x8F01CFEA, 0x414140DE, 0x5DAE2223, 0xB00361A3, 0x96177A9C, 0xB410FF61, 0xF20015AD)
  {
    AbcPadded();
    var m := Padded(ABC);
    assert Block(m, 0) == m;
    After8(m);
    assert Initial() == S0;
    HashStep(UINT32, m, 0, S0);
  }
}
