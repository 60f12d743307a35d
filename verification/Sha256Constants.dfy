/** The constants of SHA-256 and where FIPS 180-4 takes them from: the first bits behind the point of the
    cube roots and square roots of the first primes. */
module Sha256Constants {

  // The constants of section 4.2.2, eight at a time, and the primes they belong to.
  const K0: seq<bv32> :=
    [0x428A2F98, 0x71374491, 0xB5C0FBCF, 0xE9B5DBA5, 0x3956C25B, 0x59F111F1, 0x923F82A4, 0xAB1C5ED5]
  const K1: seq<bv32> :=
    [0xD807AA98, 0x12835B01, 0x243185BE, 0x550C7DC3, 0x72BE5D74, 0x80DEB1FE, 0x9BDC06A7, 0xC19BF174]
  const K2: seq<bv32> :=
    [0xE49B69C1, 0xEFBE4786, 0x0FC19DC6, 0x240CA1CC, 0x2DE92C6F, 0x4A7484AA, 0x5CB0A9DC, 0x76F988DA]
  const K3: seq<bv32> :=
    [0x983E5152, 0xA831C66D, 0xB00327C8, 0xBF597FC7, 0xC6E00BF3, 0xD5A79147, 0x06CA6351, 0x14292967]
  const K4: seq<bv32> :=
    [0x27B70A85, 0x2E1B2138, 0x4D2C6DFC, 0x53380D13, 0x650A7354, 0x766A0ABB, 0x81C2C92E, 0x92722C85]
  const K5: seq<bv32> :=
    [0xA2BFE8A1, 0xA81A664B, 0xC24B8B70, 0xC76C51A3, 0xD192E819, 0xD6990624, 0xF40E3585, 0x106AA070]
  const K6: seq<bv32> :=
    [0x19A4C116, 0x1E376C08, 0x2748774C, 0x34B0BCB5, 0x391C0CB3, 0x4ED8AA4A, 0x5B9CCA4F, 0x682E6FF3]
  const K7: seq<bv32> :=
    [0x748F82EE, 0x78A5636F, 0x84C87814, 0x8CC70208, 0x90BEFFFA, 0xA4506CEB, 0xBEF9A3F7, 0xC67178F2]

  const K: seq<bv32> := K0 + K1 + K2 + K3 + K4 + K5 + K6 + K7

  const P0: seq<nat> := [2, 3, 5, 7, 11, 13, 17, 19]
  const P1: seq<nat> := [23, 29, 31, 37, 41, 43, 47, 53]
  const P2: seq<nat> := [59, 61, 67, 71, 73, 79, 83, 89]
  const P3: seq<nat> := [97, 101, 103, 107, 109, 113, 127, 131]
  const P4: seq<nat> := [137, 139, 149, 151, 157, 163, 167, 173]
  const P5: seq<nat> := [179, 181, 191, 193, 197, 199, 211, 223]
  const P6: seq<nat> := [227, 229, 233, 239, 241, 251, 257, 263]
  const P7: seq<nat> := [269, 271, 277, 281, 283, 293, 307, 311]

  /** The initial hash value of section 5.3.3. */
  const H0: seq<bv32> :=
    [0x6A09E667, 0xBB67AE85, 0x3C6EF372, 0xA54FF53A, 0x510E527F, 0x9B05688C, 0x1F83D9AB, 0x5BE0CD19]

  /** `k` is the first 32 bits behind the point of the cube root of `p`. */
  predicate CubeRootBits(k: bv32, p: nat) {
    var r := CubeRootWhole(p) * 0x1_0000_0000 + k as nat;
    r * r * r <= p * 0x1_0000_0000_0000_0000_0000_0000 < (r + 1) * (r + 1) * (r + 1)
  }

  function CubeRootWhole(p: nat): nat {
    if p < 8 then 1 else if p < 27 then 2 else if p < 64 then 3 else if p < 125 then 4 else if p < 216 then 5 else 6
  }

  /** `h` is the first 32 bits behind the point of the square root of `p`. */
  predicate SquareRootBits(h: bv32, p: nat) {
    var r := SquareRootWhole(p) * 0x1_0000_0000 + h as nat;
    r * r <= p * 0x1_0000_0000_0000_0000 < (r + 1) * (r + 1)
  }

  function SquareRootWhole(p: nat): nat {
    if p < 4 then 1 else if p < 9 then 2 else if p < 16 then 3 else 4
  }

  predicate CubeRoots(ks: seq<bv32>, ps: seq<nat>) {
    |ks| == |ps| == 8 && forall i :: 0 <= i && i < 8 ==> CubeRootBits(ks[i], ps[i])
  }

  lemma CubeRoots0()
    ensures CubeRoots(K0, P0)
  {
    assert CubeRootBits(0x428A2F98, 2);
    assert CubeRootBits(0x71374491, 3);
    assert CubeRootBits(0xB5C0FBCF, 5);
    assert CubeRootBits(0xE9B5DBA5, 7);
    assert CubeRootBits(0x3956C25B, 11);
    assert CubeRootBits(0x59F111F1, 13);
    assert CubeRootBits(0x923F82A4, 17);
    assert CubeRootBits(0xAB1C5ED5, 19);
  }

  lemma CubeRoots1()
    ensures CubeRoots(K1, P1)
  {
    assert CubeRootBits(0xD807AA98, 23);
    assert CubeRootBits(0x12835B01, 29);
    assert CubeRootBits(0x243185BE, 31);
    assert CubeRootBits(0x550C7DC3, 37);
    assert CubeRootBits(0x72BE5D74, 41);
    assert CubeRootBits(0x80DEB1FE, 43);
    assert CubeRootBits(0x9BDC06A7, 47);
    assert CubeRootBits(0xC19BF174, 53);
  }

  lemma CubeRoots2()
    ensures CubeRoots(K2, P2)
  {
    assert CubeRootBits(0xE49B69C1, 59);
    assert CubeRootBits(0xEFBE4786, 61);
    assert CubeRootBits(0x0FC19DC6, 67);
    assert CubeRootBits(0x240CA1CC, 71);
    assert CubeRootBits(0x2DE92C6F, 73);
    assert CubeRootBits(0x4A7484AA, 79);
    assert CubeRootBits(0x5CB0A9DC, 83);
    assert CubeRootBits(0x76F988DA, 89);
  }

  lemma CubeRoots3()
    ensures CubeRoots(K3, P3)
  {
    assert CubeRootBits(0x983E5152, 97);
    assert CubeRootBits(0xA831C66D, 101);
    assert CubeRootBits(0xB00327C8, 103);
    assert CubeRootBits(0xBF597FC7, 107);
    assert CubeRootBits(0xC6E00BF3, 109);
    assert CubeRootBits(0xD5A79147, 113);
    assert CubeRootBits(0x06CA6351, 127);
    assert CubeRootBits(0x14292967, 131);
  }

  lemma CubeRoots4()
    ensures CubeRoots(K4, P4)
  {
    assert CubeRootBits(0x27B70A85, 137);
    assert CubeRootBits(0x2E1B2138, 139);
    assert CubeRootBits(0x4D2C6DFC, 149);
    assert CubeRootBits(0x53380D13, 151);
    assert CubeRootBits(0x650A7354, 157);
    assert CubeRootBits(0x766A0ABB, 163);
    assert CubeRootBits(0x81C2C92E, 167);
    assert CubeRootBits(0x92722C85, 173);
  }

  lemma CubeRoots5()
    ensures CubeRoots(K5, P5)
  {
    assert CubeRootBits(0xA2BFE8A1, 179);
    assert CubeRootBits(0xA81A664B, 181);
    assert CubeRootBits(0xC24B8B70, 191);
    assert CubeRootBits(0xC76C51A3, 193);
    assert CubeRootBits(0xD192E819, 197);
    assert CubeRootBits(0xD6990624, 199);
    assert CubeRootBits(0xF40E3585, 211);
    assert CubeRootBits(0x106AA070, 223);
  }

  lemma CubeRoots6()
    ensures CubeRoots(K6, P6)
  {
    assert CubeRootBits(0x19A4C116, 227);
    assert CubeRootBits(0x1E376C08, 229);
    assert CubeRootBits(0x2748774C, 233);
    assert CubeRootBits(0x34B0BCB5, 239);
    assert CubeRootBits(0x391C0CB3, 241);
    assert CubeRootBits(0x4ED8AA4A, 251);
    assert CubeRootBits(0x5B9CCA4F, 257);
    assert CubeRootBits(0x682E6FF3, 263);
  }

  lemma CubeRoots7()
    ensures CubeRoots(K7, P7)
  {
    assert CubeRootBits(0x748F82EE, 269);
    assert CubeRootBits(0x78A5636F, 271);
    assert CubeRootBits(0x84C87814, 277);
    assert CubeRootBits(0x8CC70208, 281);
    assert CubeRootBits(0x90BEFFFA, 283);
    assert CubeRootBits(0xA4506CEB, 293);
    assert CubeRootBits(0xBEF9A3F7, 307);
    assert CubeRootBits(0xC67178F2, 311);
  }

  /** The round constants come from the cube roots of the first 64 primes, in order. */
  lemma RoundConstants()
    ensures |K| == 64
    ensures CubeRoots(K0, P0) && K[0..8] == K0
    ensures CubeRoots(K1, P1) && K[8..16] == K1
    ensures CubeRoots(K2, P2) && K[16..24] == K2
    ensures CubeRoots(K3, P3) && K[24..32] == K3
    ensures CubeRoots(K4, P4) && K[32..40] == K4
    ensures CubeRoots(K5, P5) && K[40..48] == K5
    ensures CubeRoots(K6, P6) && K[48..56] == K6
    ensures CubeRoots(K7, P7) && K[56..64] == K7
  {
    CubeRoots0();
    CubeRoots1();
    CubeRoots2();
    CubeRoots3();
    CubeRoots4();
    CubeRoots5();
    CubeRoots6();
    CubeRoots7();
  }

  /** The initial hash value comes from the square roots of the first eight. */
  lemma InitialHash()
    ensures |H0| == 8 && forall i :: 0 <= i && i < 8 ==> SquareRootBits(H0[i], P0[i])
  {
    assert SquareRootBits(0x6A09E667, 2);
    assert SquareRootBits(0xBB67AE85, 3);
    assert SquareRootBits(0x3C6EF372, 5);
    assert SquareRootBits(0xA54FF53A, 7);
    assert SquareRootBits(0x510E527F, 11);
    assert SquareRootBits(0x9B05688C, 13);
    assert SquareRootBits(0x1F83D9AB, 17);
    assert SquareRootBits(0x5BE0CD19, 19);
  }
}
