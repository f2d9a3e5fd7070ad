/**
 The substitution box of Aes_ECB.h is the one of FIPS 197 section 5.1.1: the inverse in GF(2^8), then an affine
 map over the bits.  The 255 products are computed on bit-vectors, row by row.
 */
module AesSBox {
  import opened Octets
  import opened AesField
  import opened AesTables
  import opened Aes

  const ONE := Octet(false, false, false, false, false, false, false, true)

  function Sum(a: bool, b: bool, c: bool, d: bool, e: bool): bool {
    a != (b != (c != (d != e)))
  }

  /** Each bit plus those four to seven places above it, cyclically, and the bits of 0x63. */
  function Affine(v: Octet): Octet {
    Octet(Sum(v.b7, v.b3, v.b4, v.b5, v.b6), !Sum(v.b6, v.b2, v.b3, v.b4, v.b5),
          !Sum(v.b5, v.b1, v.b2, v.b3, v.b4), Sum(v.b4, v.b0, v.b1, v.b2, v.b3),
          Sum(v.b3, v.b7, v.b0, v.b1, v.b2), Sum(v.b2, v.b6, v.b7, v.b0, v.b1),
          !Sum(v.b1, v.b5, v.b6, v.b7, v.b0), !Sum(v.b0, v.b4, v.b5, v.b6, v.b7))
  }

  // ---------- bytes as bit-vectors ----------

  function Bit7(v: bv8): bool { v & 0x80 != 0 }
  function Bit6(v: bv8): bool { v & 0x40 != 0 }
  function Bit5(v: bv8): bool { v & 0x20 != 0 }
  function Bit4(v: bv8): bool { v & 0x10 != 0 }
  function Bit3(v: bv8): bool { v & 8 != 0 }
  function Bit2(v: bv8): bool { v & 4 != 0 }
  function Bit1(v: bv8): bool { v & 2 != 0 }
  function Bit0(v: bv8): bool { v & 1 != 0 }

  function FromBv(v: bv8): Octet {
    Octet(Bit7(v), Bit6(v), Bit5(v), Bit4(v), Bit3(v), Bit2(v), Bit1(v), Bit0(v))
  }

  lemma {:induction false} XorBits(a: bv8, b: bv8)
    ensures (Bit7(a ^ b) <==> (Bit7(a) != Bit7(b))) && (Bit6(a ^ b) <==> (Bit6(a) != Bit6(b)))
    ensures (Bit5(a ^ b) <==> (Bit5(a) != Bit5(b))) && (Bit4(a ^ b) <==> (Bit4(a) != Bit4(b)))
    ensures (Bit3(a ^ b) <==> (Bit3(a) != Bit3(b))) && (Bit2(a ^ b) <==> (Bit2(a) != Bit2(b)))
    ensures (Bit1(a ^ b) <==> (Bit1(a) != Bit1(b))) && (Bit0(a ^ b) <==> (Bit0(a) != Bit0(b)))
  {
  }

  /** Addition is exclusive or. */
  lemma {:induction false} AddBv(a: bv8, b: bv8)
    ensures FromBv(a ^ b) == Add(FromBv(a), FromBv(b))
  {
    XorBits(a, b);
  }

  function Twice(v: bv8): bv8 {
    (v << 1) ^ (if v & 0x80 != 0 then 0x1B else 0)
  }

  lemma {:induction false} TwiceBv(v: bv8)
    ensures FromBv(Twice(v)) == XTime(FromBv(v))
  {
  }

  lemma {:induction false} HalfBv(v: bv8)
    ensures FromBv(v >> 1) == ShiftRight(FromBv(v))
  {
  }

  function Part(u: bv8, v: bv8): bv8 {
    if u & 1 != 0 then v else 0
  }

  lemma {:induction false} PartBv(u: bv8, v: bv8)
    ensures FromBv(Part(u, v)) == Chosen(FromBv(u), FromBv(v))
  {
  }

  /** The product, step by step as AesField.Times has it. */
  function Multiply(u: bv8, v: bv8, n: nat): bv8
    decreases n
  {
    if n == 0 then 0 else Part(u, v) ^ Multiply(u >> 1, Twice(v), n - 1)
  }

  lemma {:induction false} TimesBv(u: bv8, v: bv8, n: nat)
    ensures Times(FromBv(u), FromBv(v), n) == FromBv(Multiply(u, v, n))
    decreases n
  {
    if n > 0 {
      var w := Multiply(u >> 1, Twice(v), n - 1);
      TimesBv(u >> 1, Twice(v), n - 1);
      HalfBv(u);
      TwiceBv(v);
      PartBv(u, v);
      AddBv(Part(u, v), w);
    }
  }

  function AffineBv(v: bv8): bv8 {
    v ^ v.RotateLeft(1) ^ v.RotateLeft(2) ^ v.RotateLeft(3) ^ v.RotateLeft(4) ^ 0x63
  }

  /** Undoes the affine map. */
  function Unaffine(v: bv8): bv8 {
    v.RotateLeft(1) ^ v.RotateLeft(3) ^ v.RotateLeft(6) ^ 0x05
  }

  lemma {:induction false} AffineIs(v: bv8)
    ensures Affine(FromBv(v)) == FromBv(AffineBv(v))
  {
  }

  lemma {:induction false} AffineOfUnaffine(v: bv8)
    ensures AffineBv(Unaffine(v)) == v
  {
  }

  // ---------- the 256 entries ----------

  lemma {:induction false} UpperBits(n: nat)
    requires n < 256
    ensures (Bit7(n as bv8) <==> n / 16 >= 8) && (Bit6(n as bv8) <==> n / 16 % 8 >= 4)
  {
  }

  lemma {:induction false} MiddleBits(n: nat)
    requires n < 256
    ensures (Bit5(n as bv8) <==> n / 32 % 2 == 1) && (Bit4(n as bv8) <==> n / 16 % 2 == 1)
    ensures (Bit3(n as bv8) <==> n / 8 % 2 == 1) && (Bit2(n as bv8) <==> n / 4 % 2 == 1)
  {
  }

  lemma {:induction false} LowerBits(n: nat)
    requires n < 256
    ensures (Bit1(n as bv8) <==> n / 2 % 2 == 1) && (Bit0(n as bv8) <==> n % 2 == 1)
  {
  }

  /** The same bits of the two halves. */
  lemma {:induction false} HalfBits(n: nat, h: nat, l: nat)
    requires n == 16 * h + l && l < 16 && h < 16
    ensures (h % 4 >= 2 <==> n / 32 % 2 == 1) && (h % 2 >= 1 <==> n / 16 % 2 == 1)
  {
  }

  lemma {:induction false} UpperPair(n: nat, h: nat, l: nat)
    requires n == 16 * h + l && l < 16 && h < 16
    ensures (l >= 8 <==> n / 8 % 2 == 1) && (l % 8 >= 4 <==> n / 4 % 2 == 1)
  {
    assert n / 8 == 2 * h + l / 8 && n / 4 == 4 * h + l / 4;
  }

  lemma {:induction false} LowerPair(n: nat, h: nat, l: nat)
    requires n == 16 * h + l && l < 16 && h < 16
    ensures (l % 4 >= 2 <==> n / 2 % 2 == 1) && (l % 2 >= 1 <==> n % 2 == 1)
  {
    assert n / 2 == 8 * h + l / 2;
  }

  lemma {:induction false} BvIs(n: nat)
    requires n < 256
    ensures FromBv(n as bv8) == FromNum(n)
  {
    UpperBits(n);
    MiddleBits(n);
    LowerBits(n);
    HalfBits(n, n / 16, n % 16);
    UpperPair(n, n / 16, n % 16);
    LowerPair(n, n / 16, n % 16);
  }

  /** Entry y at index u: without the affine map it is the inverse of u. */
  predicate Made(u: bv8, y: bv8) {
    if u == 0 then Unaffine(y) == 0 else Multiply(u, Unaffine(y), 8) == 1
  }

  /** The same for numbers. */
  predicate MadeNow(n: int, s: int) {
    0 <= n < 256 && 0 <= s < 256 && Made(n as bv8, s as bv8)
  }

  /** The same by way of a quantifier, so that only MadeAtIs unfolds it. */
  ghost predicate MadeAt(n: nat, s: nat) {
    forall m: nat :: MadeFor(n, s, m)
  }

  ghost predicate MadeFor(n: nat, s: nat, m: nat) {
    m == s ==> MadeNow(n, m)
  }

  lemma {:induction false} MadeAtIs(n: nat, s: nat)
    ensures MadeAt(n, s) <==> MadeNow(n, s)
  {
    assert MadeAt(n, s) ==> MadeFor(n, s, s);
  }

  lemma {:induction false} Made0()
    ensures Made(0x00, 0x63) && Made(0x01, 0x7C) && Made(0x02, 0x77) && Made(0x03, 0x7B)
    ensures Made(0x04, 0xF2) && Made(0x05, 0x6B) && Made(0x06, 0x6F) && Made(0x07, 0xC5)
    ensures Made(0x08, 0x30) && Made(0x09, 0x01) && Made(0x0A, 0x67) && Made(0x0B, 0x2B)
    ensures Made(0x0C, 0xFE) && Made(0x0D, 0xD7) && Made(0x0E, 0xAB) && Made(0x0F, 0x76)
  {
  }

  lemma {:induction false} Pick0(c: nat, made: (int, int) -> bool)
    requires c < 16
    requires made(0x00, 0x63) && made(0x01, 0x7C) && made(0x02, 0x77) && made(0x03, 0x7B)
    requires made(0x04, 0xF2) && made(0x05, 0x6B) && made(0x06, 0x6F) && made(0x07, 0xC5)
    requires made(0x08, 0x30) && made(0x09, 0x01) && made(0x0A, 0x67) && made(0x0B, 0x2B)
    requires made(0x0C, 0xFE) && made(0x0D, 0xD7) && made(0x0E, 0xAB) && made(0x0F, 0x76)
    ensures made(0x00 + c, S0(c))
  {
  }

  lemma {:induction false} Row0(c: nat)
    requires c < 16
    ensures MadeAt(0x00 + c, S0(c))
  {
    Made0();
    Pick0(c, (n, s) => MadeNow(n, s));
    MadeAtIs(0x00 + c, S0(c));
  }

  lemma {:induction false} Made1()
    ensures Made(0x10, 0xCA) && Made(0x11, 0x82) && Made(0x12, 0xC9) && Made(0x13, 0x7D)
    ensures Made(0x14, 0xFA) && Made(0x15, 0x59) && Made(0x16, 0x47) && Made(0x17, 0xF0)
    ensures Made(0x18, 0xAD) && Made(0x19, 0xD4) && Made(0x1A, 0xA2) && Made(0x1B, 0xAF)
    ensures Made(0x1C, 0x9C) && Made(0x1D, 0xA4) && Made(0x1E, 0x72) && Made(0x1F, 0xC0)
  {
  }

  lemma {:induction false} Pick1(c: nat, made: (int, int) -> bool)
    requires c < 16
    requires made(0x10, 0xCA) && made(0x11, 0x82) && made(0x12, 0xC9) && made(0x13, 0x7D)
    requires made(0x14, 0xFA) && made(0x15, 0x59) && made(0x16, 0x47) && made(0x17, 0xF0)
    requires made(0x18, 0xAD) && made(0x19, 0xD4) && made(0x1A, 0xA2) && made(0x1B, 0xAF)
    requires made(0x1C, 0x9C) && made(0x1D, 0xA4) && made(0x1E, 0x72) && made(0x1F, 0xC0)
    ensures made(0x10 + c, S1(c))
  {
  }

  lemma {:induction false} Row1(c: nat)
    requires c < 16
    ensures MadeAt(0x10 + c, S1(c))
  {
    Made1();
    Pick1(c, (n, s) => MadeNow(n, s));
    MadeAtIs(0x10 + c, S1(c));
  }

  lemma {:induction false} Made2()
    ensures Made(0x20, 0xB7) && Made(0x21, 0xFD) && Made(0x22, 0x93) && Made(0x23, 0x26)
    ensures Made(0x24, 0x36) && Made(0x25, 0x3F) && Made(0x26, 0xF7) && Made(0x27, 0xCC)
    ensures Made(0x28, 0x34) && Made(0x29, 0xA5) && Made(0x2A, 0xE5) && Made(0x2B, 0xF1)
    ensures Made(0x2C, 0x71) && Made(0x2D, 0xD8) && Made(0x2E, 0x31) && Made(0x2F, 0x15)
  {
  }

  lemma {:induction false} Pick2(c: nat, made: (int, int) -> bool)
    requires c < 16
    requires made(0x20, 0xB7) && made(0x21, 0xFD) && made(0x22, 0x93) && made(0x23, 0x26)
    requires made(0x24, 0x36) && made(0x25, 0x3F) && made(0x26, 0xF7) && made(0x27, 0xCC)
    requires made(0x28, 0x34) && made(0x29, 0xA5) && made(0x2A, 0xE5) && made(0x2B, 0xF1)
    requires made(0x2C, 0x71) && made(0x2D, 0xD8) && made(0x2E, 0x31) && made(0x2F, 0x15)
    ensures made(0x20 + c, S2(c))
  {
  }

  lemma {:induction false} Row2(c: nat)
    requires c < 16
    ensures MadeAt(0x20 + c, S2(c))
  {
    Made2();
    Pick2(c, (n, s) => MadeNow(n, s));
    MadeAtIs(0x20 + c, S2(c));
  }

  lemma {:induction false} Made3()
    ensures Made(0x30, 0x04) && Made(0x31, 0xC7) && Made(0x32, 0x23) && Made(0x33, 0xC3)
    ensures Made(0x34, 0x18) && Made(0x35, 0x96) && Made(0x36, 0x05) && Made(0x37, 0x9A)
    ensures Made(0x38, 0x07) && Made(0x39, 0x12) && Made(0x3A, 0x80) && Made(0x3B, 0xE2)
    ensures Made(0x3C, 0xEB) && Made(0x3D, 0x27) && Made(0x3E, 0xB2) && Made(0x3F, 0x75)
  {
  }

  lemma {:induction false} Pick3(c: nat, made: (int, int) -> bool)
    requires c < 16
    requires made(0x30, 0x04) && made(0x31, 0xC7) && made(0x32, 0x23) && made(0x33, 0xC3)
    requires made(0x34, 0x18) && made(0x35, 0x96) && made(0x36, 0x05) && made(0x37, 0x9A)
    requires made(0x38, 0x07) && made(0x39, 0x12) && made(0x3A, 0x80) && made(0x3B, 0xE2)
    requires made(0x3C, 0xEB) && made(0x3D, 0x27) && made(0x3E, 0xB2) && made(0x3F, 0x75)
    ensures made(0x30 + c, S3(c))
  {
  }

  lemma {:induction false} Row3(c: nat)
    requires c < 16
    ensures MadeAt(0x30 + c, S3(c))
  {
    Made3();
    Pick3(c, (n, s) => MadeNow(n, s));
    MadeAtIs(0x30 + c, S3(c));
  }

  lemma {:induction false} Made4()
    ensures Made(0x40, 0x09) && Made(0x41, 0x83) && Made(0x42, 0x2C) && Made(0x43, 0x1A)
    ensures Made(0x44, 0x1B) && Made(0x45, 0x6E) && Made(0x46, 0x5A) && Made(0x47, 0xA0)
    ensures Made(0x48, 0x52) && Made(0x49, 0x3B) && Made(0x4A, 0xD6) && Made(0x4B, 0xB3)
    ensures Made(0x4C, 0x29) && Made(0x4D, 0xE3) && Made(0x4E, 0x2F) && Made(0x4F, 0x84)
  {
  }

  lemma {:induction false} Pick4(c: nat, made: (int, int) -> bool)
    requires c < 16
    requires made(0x40, 0x09) && made(0x41, 0x83) && made(0x42, 0x2C) && made(0x43, 0x1A)
    requires made(0x44, 0x1B) && made(0x45, 0x6E) && made(0x46, 0x5A) && made(0x47, 0xA0)
    requires made(0x48, 0x52) && made(0x49, 0x3B) && made(0x4A, 0xD6) && made(0x4B, 0xB3)
    requires made(0x4C, 0x29) && made(0x4D, 0xE3) && made(0x4E, 0x2F) && made(0x4F, 0x84)
    ensures made(0x40 + c, S4(c))
  {
  }

  lemma {:induction false} Row4(c: nat)
    requires c < 16
    ensures MadeAt(0x40 + c, S4(c))
  {
    Made4();
    Pick4(c, (n, s) => MadeNow(n, s));
    MadeAtIs(0x40 + c, S4(c));
  }

  lemma {:induction false} Made5()
    ensures Made(0x50, 0x53) && Made(0x51, 0xD1) && Made(0x52, 0x00) && Made(0x53, 0xED)
    ensures Made(0x54, 0x20) && Made(0x55, 0xFC) && Made(0x56, 0xB1) && Made(0x57, 0x5B)
    ensures Made(0x58, 0x6A) && Made(0x59, 0xCB) && Made(0x5A, 0xBE) && Made(0x5B, 0x39)
    ensures Made(0x5C, 0x4A) && Made(0x5D, 0x4C) && Made(0x5E, 0x58) && Made(0x5F, 0xCF)
  {
  }

  lemma {:induction false} Pick5(c: nat, made: (int, int) -> bool)
    requires c < 16
    requires made(0x50, 0x53) && made(0x51, 0xD1) && made(0x52, 0x00) && made(0x53, 0xED)
    requires made(0x54, 0x20) && made(0x55, 0xFC) && made(0x56, 0xB1) && made(0x57, 0x5B)
    requires made(0x58, 0x6A) && made(0x59, 0xCB) && made(0x5A, 0xBE) && made(0x5B, 0x39)
    requires made(0x5C, 0x4A) && made(0x5D, 0x4C) && made(0x5E, 0x58) && made(0x5F, 0xCF)
    ensures made(0x50 + c, S5(c))
  {
  }

  lemma {:induction false} Row5(c: nat)
    requires c < 16
    ensures MadeAt(0x50 + c, S5(c))
  {
    Made5();
    Pick5(c, (n, s) => MadeNow(n, s));
    MadeAtIs(0x50 + c, S5(c));
  }

  lemma {:induction false} Made6()
    ensures Made(0x60, 0xD0) && Made(0x61, 0xEF) && Made(0x62, 0xAA) && Made(0x63, 0xFB)
    ensures Made(0x64, 0x43) && Made(0x65, 0x4D) && Made(0x66, 0x33) && Made(0x67, 0x85)
    ensures Made(0x68, 0x45) && Made(0x69, 0xF9) && Made(0x6A, 0x02) && Made(0x6B, 0x7F)
    ensures Made(0x6C, 0x50) && Made(0x6D, 0x3C) && Made(0x6E, 0x9F) && Made(0x6F, 0xA8)
  {
  }

  lemma {:induction false} Pick6(c: nat, made: (int, int) -> bool)
    requires c < 16
    requires made(0x60, 0xD0) && made(0x61, 0xEF) && made(0x62, 0xAA) && made(0x63, 0xFB)
    requires made(0x64, 0x43) && made(0x65, 0x4D) && made(0x66, 0x33) && made(0x67, 0x85)
    requires made(0x68, 0x45) && made(0x69, 0xF9) && made(0x6A, 0x02) && made(0x6B, 0x7F)
    requires made(0x6C, 0x50) && made(0x6D, 0x3C) && made(0x6E, 0x9F) && made(0x6F, 0xA8)
    ensures made(0x60 + c, S6(c))
  {
  }

  lemma {:induction false} Row6(c: nat)
    requires c < 16
    ensures MadeAt(0x60 + c, S6(c))
  {
    Made6();
    Pick6(c, (n, s) => MadeNow(n, s));
    MadeAtIs(0x60 + c, S6(c));
  }

  lemma {:induction false} Made7()
    ensures Made(0x70, 0x51) && Made(0x71, 0xA3) && Made(0x72, 0x40) && Made(0x73, 0x8F)
    ensures Made(0x74, 0x92) && Made(0x75, 0x9D) && Made(0x76, 0x38) && Made(0x77, 0xF5)
    ensures Made(0x78, 0xBC) && Made(0x79, 0xB6) && Made(0x7A, 0xDA) && Made(0x7B, 0x21)
    ensures Made(0x7C, 0x10) && Made(0x7D, 0xFF) && Made(0x7E, 0xF3) && Made(0x7F, 0xD2)
  {
  }

  lemma {:induction false} Pick7(c: nat, made: (int, int) -> bool)
    requires c < 16
    requires made(0x70, 0x51) && made(0x71, 0xA3) && made(0x72, 0x40) && made(0x73, 0x8F)
    requires made(0x74, 0x92) && made(0x75, 0x9D) && made(0x76, 0x38) && made(0x77, 0xF5)
    requires made(0x78, 0xBC) && made(0x79, 0xB6) && made(0x7A, 0xDA) && made(0x7B, 0x21)
    requires made(0x7C, 0x10) && made(0x7D, 0xFF) && made(0x7E, 0xF3) && made(0x7F, 0xD2)
    ensures made(0x70 + c, S7(c))
  {
  }

  lemma {:induction false} Row7(c: nat)
    requires c < 16
    ensures MadeAt(0x70 + c, S7(c))
  {
    Made7();
    Pick7(c, (n, s) => MadeNow(n, s));
    MadeAtIs(0x70 + c, S7(c));
  }

  lemma {:induction false} Made8()
    ensures Made(0x80, 0xCD) && Made(0x81, 0x0C) && Made(0x82, 0x13) && Made(0x83, 0xEC)
    ensures Made(0x84, 0x5F) && Made(0x85, 0x97) && Made(0x86, 0x44) && Made(0x87, 0x17)
    ensures Made(0x88, 0xC4) && Made(0x89, 0xA7) && Made(0x8A, 0x7E) && Made(0x8B, 0x3D)
    ensures Made(0x8C, 0x64) && Made(0x8D, 0x5D) && Made(0x8E, 0x19) && Made(0x8F, 0x73)
  {
  }

  lemma {:induction false} Pick8(c: nat, made: (int, int) -> bool)
    requires c < 16
    requires made(0x80, 0xCD) && made(0x81, 0x0C) && made(0x82, 0x13) && made(0x83, 0xEC)
    requires made(0x84, 0x5F) && made(0x85, 0x97) && made(0x86, 0x44) && made(0x87, 0x17)
    requires made(0x88, 0xC4) && made(0x89, 0xA7) && made(0x8A, 0x7E) && made(0x8B, 0x3D)
    requires made(0x8C, 0x64) && made(0x8D, 0x5D) && made(0x8E, 0x19) && made(0x8F, 0x73)
    ensures made(0x80 + c, S8(c))
  {
  }

  lemma {:induction false} Row8(c: nat)
    requires c < 16
    ensures MadeAt(0x80 + c, S8(c))
  {
    Made8();
    Pick8(c, (n, s) => MadeNow(n, s));
    MadeAtIs(0x80 + c, S8(c));
  }

  lemma {:induction false} Made9()
    ensures Made(0x90, 0x60) && Made(0x91, 0x81) && Made(0x92, 0x4F) && Made(0x93, 0xDC)
    ensures Made(0x94, 0x22) && Made(0x95, 0x2A) && Made(0x96, 0x90) && Made(0x97, 0x88)
    ensures Made(0x98, 0x46) && Made(0x99, 0xEE) && Made(0x9A, 0xB8) && Made(0x9B, 0x14)
    ensures Made(0x9C, 0xDE) && Made(0x9D, 0x5E) && Made(0x9E, 0x0B) && Made(0x9F, 0xDB)
  {
  }

  lemma {:induction false} Pick9(c: nat, made: (int, int) -> bool)
    requires c < 16
    requires made(0x90, 0x60) && made(0x91, 0x81) && made(0x92, 0x4F) && made(0x93, 0xDC)
    requires made(0x94, 0x22) && made(0x95, 0x2A) && made(0x96, 0x90) && made(0x97, 0x88)
    requires made(0x98, 0x46) && made(0x99, 0xEE) && made(0x9A, 0xB8) && made(0x9B, 0x14)
    requires made(0x9C, 0xDE) && made(0x9D, 0x5E) && made(0x9E, 0x0B) && made(0x9F, 0xDB)
    ensures made(0x90 + c, S9(c))
  {
  }

  lemma {:induction false} Row9(c: nat)
    requires c < 16
    ensures MadeAt(0x90 + c, S9(c))
  {
    Made9();
    Pick9(c, (n, s) => MadeNow(n, s));
    MadeAtIs(0x90 + c, S9(c));
  }

  lemma {:induction false} MadeAHead()
    ensures Made(0xA0, 0xE0) && Made(0xA1, 0x32) && Made(0xA2, 0x3A) && Made(0xA3, 0x0A)
  {
  }

  lemma {:induction false} MadeATail()
    ensures Made(0xA4, 0x49) && Made(0xA5, 0x06) && Made(0xA6, 0x24) && Made(0xA7, 0x5C)
    ensures Made(0xA8, 0xC2) && Made(0xA9, 0xD3) && Made(0xAA, 0xAC) && Made(0xAB, 0x62)
    ensures Made(0xAC, 0x91) && Made(0xAD, 0x95) && Made(0xAE, 0xE4) && Made(0xAF, 0x79)
  {
  }

  lemma {:induction false} PickA(c: nat, made: (int, int) -> bool)
    requires c < 16
    requires made(0xA0, 0xE0) && made(0xA1, 0x32) && made(0xA2, 0x3A) && made(0xA3, 0x0A)
    requires made(0xA4, 0x49) && made(0xA5, 0x06) && made(0xA6, 0x24) && made(0xA7, 0x5C)
    requires made(0xA8, 0xC2) && made(0xA9, 0xD3) && made(0xAA, 0xAC) && made(0xAB, 0x62)
    requires made(0xAC, 0x91) && made(0xAD, 0x95) && made(0xAE, 0xE4) && made(0xAF, 0x79)
    ensures made(0xA0 + c, SA(c))
  {
  }

  lemma {:induction false} RowA(c: nat)
    requires c < 16
    ensures MadeAt(0xA0 + c, SA(c))
  {
    MadeAHead();
    MadeATail();
    PickA(c, (n, s) => MadeNow(n, s));
    MadeAtIs(0xA0 + c, SA(c));
  }

  lemma {:induction false} MadeB()
    ensures Made(0xB0, 0xE7) && Made(0xB1, 0xC8) && Made(0xB2, 0x37) && Made(0xB3, 0x6D)
    ensures Made(0xB4, 0x8D) && Made(0xB5, 0xD5) && Made(0xB6, 0x4E) && Made(0xB7, 0xA9)
    ensures Made(0xB8, 0x6C) && Made(0xB9, 0x56) && Made(0xBA, 0xF4) && Made(0xBB, 0xEA)
    ensures Made(0xBC, 0x65) && Made(0xBD, 0x7A) && Made(0xBE, 0xAE) && Made(0xBF, 0x08)
  {
  }

  lemma {:induction false} PickB(c: nat, made: (int, int) -> bool)
    requires c < 16
    requires made(0xB0, 0xE7) && made(0xB1, 0xC8) && made(0xB2, 0x37) && made(0xB3, 0x6D)
    requires made(0xB4, 0x8D) && made(0xB5, 0xD5) && made(0xB6, 0x4E) && made(0xB7, 0xA9)
    requires made(0xB8, 0x6C) && made(0xB9, 0x56) && made(0xBA, 0xF4) && made(0xBB, 0xEA)
    requires made(0xBC, 0x65) && made(0xBD, 0x7A) && made(0xBE, 0xAE) && made(0xBF, 0x08)
    ensures made(0xB0 + c, SB(c))
  {
  }

  lemma {:induction false} RowB(c: nat)
    requires c < 16
    ensures MadeAt(0xB0 + c, SB(c))
  {
    MadeB();
    PickB(c, (n, s) => MadeNow(n, s));
    MadeAtIs(0xB0 + c, SB(c));
  }

  lemma {:induction false} MadeC()
    ensures Made(0xC0, 0xBA) && Made(0xC1, 0x78) && Made(0xC2, 0x25) && Made(0xC3, 0x2E)
    ensures Made(0xC4, 0x1C) && Made(0xC5, 0xA6) && Made(0xC6, 0xB4) && Made(0xC7, 0xC6)
    ensures Made(0xC8, 0xE8) && Made(0xC9, 0xDD) && Made(0xCA, 0x74) && Made(0xCB, 0x1F)
    ensures Made(0xCC, 0x4B) && Made(0xCD, 0xBD) && Made(0xCE, 0x8B) && Made(0xCF, 0x8A)
  {
  }

  lemma {:induction false} PickC(c: nat, made: (int, int) -> bool)
    requires c < 16
    requires made(0xC0, 0xBA) && made(0xC1, 0x78) && made(0xC2, 0x25) && made(0xC3, 0x2E)
    requires made(0xC4, 0x1C) && made(0xC5, 0xA6) && made(0xC6, 0xB4) && made(0xC7, 0xC6)
    requires made(0xC8, 0xE8) && made(0xC9, 0xDD) && made(0xCA, 0x74) && made(0xCB, 0x1F)
    requires made(0xCC, 0x4B) && made(0xCD, 0xBD) && made(0xCE, 0x8B) && made(0xCF, 0x8A)
    ensures made(0xC0 + c, SC(c))
  {
  }

  lemma {:induction false} RowC(c: nat)
    requires c < 16
    ensures MadeAt(0xC0 + c, SC(c))
  {
    MadeC();
    PickC(c, (n, s) => MadeNow(n, s));
    MadeAtIs(0xC0 + c, SC(c));
  }

  lemma {:induction false} MadeD()
    ensures Made(0xD0, 0x70) && Made(0xD1, 0x3E) && Made(0xD2, 0xB5) && Made(0xD3, 0x66)
    ensures Made(0xD4, 0x48) && Made(0xD5, 0x03) && Made(0xD6, 0xF6) && Made(0xD7, 0x0E)
    ensures Made(0xD8, 0x61) && Made(0xD9, 0x35) && Made(0xDA, 0x57) && Made(0xDB, 0xB9)
    ensures Made(0xDC, 0x86) && Made(0xDD, 0xC1) && Made(0xDE, 0x1D) && Made(0xDF, 0x9E)
  {
  }

  lemma {:induction false} PickD(c: nat, made: (int, int) -> bool)
    requires c < 16
    requires made(0xD0, 0x70) && made(0xD1, 0x3E) && made(0xD2, 0xB5) && made(0xD3, 0x66)
    requires made(0xD4, 0x48) && made(0xD5, 0x03) && made(0xD6, 0xF6) && made(0xD7, 0x0E)
    requires made(0xD8, 0x61) && made(0xD9, 0x35) && made(0xDA, 0x57) && made(0xDB, 0xB9)
    requires made(0xDC, 0x86) && made(0xDD, 0xC1) && made(0xDE, 0x1D) && made(0xDF, 0x9E)
    ensures made(0xD0 + c, SD(c))
  {
  }

  lemma {:induction false} RowD(c: nat)
    requires c < 16
    ensures MadeAt(0xD0 + c, SD(c))
  {
    MadeD();
    PickD(c, (n, s) => MadeNow(n, s));
    MadeAtIs(0xD0 + c, SD(c));
  }

  lemma {:induction false} MadeE()
    ensures Made(0xE0, 0xE1) && Made(0xE1, 0xF8) && Made(0xE2, 0x98) && Made(0xE3, 0x11)
    ensures Made(0xE4, 0x69) && Made(0xE5, 0xD9) && Made(0xE6, 0x8E) && Made(0xE7, 0x94)
    ensures Made(0xE8, 0x9B) && Made(0xE9, 0x1E) && Made(0xEA, 0x87) && Made(0xEB, 0xE9)
    ensures Made(0xEC, 0xCE) && Made(0xED, 0x55) && Made(0xEE, 0x28) && Made(0xEF, 0xDF)
  {
  }

  lemma {:induction false} PickE(c: nat, made: (int, int) -> bool)
    requires c < 16
    requires made(0xE0, 0xE1) && made(0xE1, 0xF8) && made(0xE2, 0x98) && made(0xE3, 0x11)
    requires made(0xE4, 0x69) && made(0xE5, 0xD9) && made(0xE6, 0x8E) && made(0xE7, 0x94)
    requires made(0xE8, 0x9B) && made(0xE9, 0x1E) && made(0xEA, 0x87) && made(0xEB, 0xE9)
    requires made(0xEC, 0xCE) && made(0xED, 0x55) && made(0xEE, 0x28) && made(0xEF, 0xDF)
    ensures made(0xE0 + c, SE(c))
  {
  }

  lemma {:induction false} RowE(c: nat)
    requires c < 16
    ensures MadeAt(0xE0 + c, SE(c))
  {
    MadeE();
    PickE(c, (n, s) => MadeNow(n, s));
    MadeAtIs(0xE0 + c, SE(c));
  }

  lemma {:induction false} MadeF()
    ensures Made(0xF0, 0x8C) && Made(0xF1, 0xA1) && Made(0xF2, 0x89) && Made(0xF3, 0x0D)
    ensures Made(0xF4, 0xBF) && Made(0xF5, 0xE6) && Made(0xF6, 0x42) && Made(0xF7, 0x68)
    ensures Made(0xF8, 0x41) && Made(0xF9, 0x99) && Made(0xFA, 0x2D) && Made(0xFB, 0x0F)
    ensures Made(0xFC, 0xB0) && Made(0xFD, 0x54) && Made(0xFE, 0xBB) && Made(0xFF, 0x16)
  {
  }

  lemma {:induction false} PickF(c: nat, made: (int, int) -> bool)
    requires c < 16
    requires made(0xF0, 0x8C) && made(0xF1, 0xA1) && made(0xF2, 0x89) && made(0xF3, 0x0D)
    requires made(0xF4, 0xBF) && made(0xF5, 0xE6) && made(0xF6, 0x42) && made(0xF7, 0x68)
    requires made(0xF8, 0x41) && made(0xF9, 0x99) && made(0xFA, 0x2D) && made(0xFB, 0x0F)
    requires made(0xFC, 0xB0) && made(0xFD, 0x54) && made(0xFE, 0xBB) && made(0xFF, 0x16)
    ensures made(0xF0 + c, SF(c))
  {
  }

  lemma {:induction false} RowF(c: nat)
    requires c < 16
    ensures MadeAt(0xF0 + c, SF(c))
  {
    MadeF();
    PickF(c, (n, s) => MadeNow(n, s));
    MadeAtIs(0xF0 + c, SF(c));
  }

  lemma {:induction false} LowerEntries(r: nat, c: nat)
    requires r < 8 && c < 16
    ensures MadeAt(16 * r + c, SRow(r, c))
  {
    match r
    case 0 => Row0(c);
    case 1 => Row1(c);
    case 2 => Row2(c);
    case 3 => Row3(c);
    case 4 => Row4(c);
    case 5 => Row5(c);
    case 6 => Row6(c);
    case _ => Row7(c);
  }

  lemma {:induction false} UpperEntries(r: nat, c: nat)
    requires 8 <= r < 16 && c < 16
    ensures MadeAt(16 * r + c, SRow(r, c))
  {
    match r
    case 8 => Row8(c);
    case 9 => Row9(c);
    case 10 => RowA(c);
    case 11 => RowB(c);
    case 12 => RowC(c);
    case 13 => RowD(c);
    case 14 => RowE(c);
    case _ => RowF(c);
  }

  lemma {:induction false} EntryMade(n: nat, s: nat)
    requires n < 256 && s == S(n)
    ensures MadeAt(n, s)
  {
    if n < 128 {
      LowerEntries(n / 16, n % 16);
    } else {
      UpperEntries(n / 16, n % 16);
    }
  }

  /** The inverse whose affine image an entry is. */
  lemma {:induction false} EntryInverts(n: nat, s: nat) returns (v: bv8)
    requires MadeAt(n, s)
    ensures n < 256 && s < 256 && AffineBv(v) == s as bv8
    ensures if n as bv8 == 0 then v == 0 else Multiply(n as bv8, v, 8) == 1
  {
    MadeAtIs(n, s);
    v := Unaffine(s as bv8);
    AffineOfUnaffine(s as bv8);
  }

  lemma {:induction false} ByteInverts(n: nat, s: nat) returns (x: Octet)
    requires MadeAt(n, s)
    ensures n < 256 && FromNum(s) == Affine(x)
    ensures if FromNum(n) == ZERO then x == ZERO else Times(FromNum(n), x, 8) == ONE
  {
    var v := EntryInverts(n, s);
    x := FromBv(v);
    BvIs(n);
    BvIs(s);
    AffineIs(v);
    TimesBv(n as bv8, v, 8);
    OnlyZero(n as bv8);
  }

  lemma {:induction false} OnlyZero(v: bv8)
    ensures FromBv(v) == ZERO <==> v == 0
    ensures FromBv(1) == ONE
  {
  }

  /** SubByte is the affine map of the inverse; 0 takes the place of its own inverse. */
  lemma {:induction false} SubByteIs(o: Octet) returns (x: Octet)
    ensures SubByte(o) == Affine(x)
    ensures if o == ZERO then x == ZERO else Times(o, x, 8) == ONE
  {
    var n := Num(o);
    var s := S(n);
    EntryMade(n, s);
    x := ByteInverts(n, s);
    FromNumOfNum(o);
  }
}
