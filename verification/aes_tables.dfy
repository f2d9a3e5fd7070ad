/**
 The substitution boxes of Aes_ECB.h (FIPS 197 sections 5.1.1 and 5.3.2), one function per row of
 sixteen entries.
 */
module AesTables {

  function S0(c: nat): nat {
    match c
    case 0 => 0x63 case 1 => 0x7C case 2 => 0x77 case 3 => 0x7B
    case 4 => 0xF2 case 5 => 0x6B case 6 => 0x6F case 7 => 0xC5
    case 8 => 0x30 case 9 => 0x01 case 10 => 0x67 case 11 => 0x2B
    case 12 => 0xFE case 13 => 0xD7 case 14 => 0xAB case _ => 0x76
  }

  function S1(c: nat): nat {
    match c
    case 0 => 0xCA case 1 => 0x82 case 2 => 0xC9 case 3 => 0x7D
    case 4 => 0xFA case 5 => 0x59 case 6 => 0x47 case 7 => 0xF0
    case 8 => 0xAD case 9 => 0xD4 case 10 => 0xA2 case 11 => 0xAF
    case 12 => 0x9C case 13 => 0xA4 case 14 => 0x72 case _ => 0xC0
  }

  function S2(c: nat): nat {
    match c
    case 0 => 0xB7 case 1 => 0xFD case 2 => 0x93 case 3 => 0x26
    case 4 => 0x36 case 5 => 0x3F case 6 => 0xF7 case 7 => 0xCC
    case 8 => 0x34 case 9 => 0xA5 case 10 => 0xE5 case 11 => 0xF1
    case 12 => 0x71 case 13 => 0xD8 case 14 => 0x31 case _ => 0x15
  }

  function S3(c: nat): nat {
    match c
    case 0 => 0x04 case 1 => 0xC7 case 2 => 0x23 case 3 => 0xC3
    case 4 => 0x18 case 5 => 0x96 case 6 => 0x05 case 7 => 0x9A
    case 8 => 0x07 case 9 => 0x12 case 10 => 0x80 case 11 => 0xE2
    case 12 => 0xEB case 13 => 0x27 case 14 => 0xB2 case _ => 0x75
  }

  function S4(c: nat): nat {
    match c
    case 0 => 0x09 case 1 => 0x83 case 2 => 0x2C case 3 => 0x1A
    case 4 => 0x1B case 5 => 0x6E case 6 => 0x5A case 7 => 0xA0
    case 8 => 0x52 case 9 => 0x3B case 10 => 0xD6 case 11 => 0xB3
    case 12 => 0x29 case 13 => 0xE3 case 14 => 0x2F case _ => 0x84
  }

  function S5(c: nat): nat {
    match c
    case 0 => 0x53 case 1 => 0xD1 case 2 => 0x00 case 3 => 0xED
    case 4 => 0x20 case 5 => 0xFC case 6 => 0xB1 case 7 => 0x5B
    case 8 => 0x6A case 9 => 0xCB case 10 => 0xBE case 11 => 0x39
    case 12 => 0x4A case 13 => 0x4C case 14 => 0x58 case _ => 0xCF
  }

  function S6(c: nat): nat {
    match c
    case 0 => 0xD0 case 1 => 0xEF case 2 => 0xAA case 3 => 0xFB
    case 4 => 0x43 case 5 => 0x4D case 6 => 0x33 case 7 => 0x85
    case 8 => 0x45 case 9 => 0xF9 case 10 => 0x02 case 11 => 0x7F
    case 12 => 0x50 case 13 => 0x3C case 14 => 0x9F case _ => 0xA8
  }

  function S7(c: nat): nat {
    match c
    case 0 => 0x51 case 1 => 0xA3 case 2 => 0x40 case 3 => 0x8F
    case 4 => 0x92 case 5 => 0x9D case 6 => 0x38 case 7 => 0xF5
    case 8 => 0xBC case 9 => 0xB6 case 10 => 0xDA case 11 => 0x21
    case 12 => 0x10 case 13 => 0xFF case 14 => 0xF3 case _ => 0xD2
  }

  function S8(c: nat): nat {
    match c
    case 0 => 0xCD case 1 => 0x0C case 2 => 0x13 case 3 => 0xEC
    case 4 => 0x5F case 5 => 0x97 case 6 => 0x44 case 7 => 0x17
    case 8 => 0xC4 case 9 => 0xA7 case 10 => 0x7E case 11 => 0x3D
    case 12 => 0x64 case 13 => 0x5D case 14 => 0x19 case _ => 0x73
  }

  function S9(c: nat): nat {
    match c
    case 0 => 0x60 case 1 => 0x81 case 2 => 0x4F case 3 => 0xDC
    case 4 => 0x22 case 5 => 0x2A case 6 => 0x90 case 7 => 0x88
    case 8 => 0x46 case 9 => 0xEE case 10 => 0xB8 case 11 => 0x14
    case 12 => 0xDE case 13 => 0x5E case 14 => 0x0B case _ => 0xDB
  }

  function SA(c: nat): nat {
    match c
    case 0 => 0xE0 case 1 => 0x32 case 2 => 0x3A case 3 => 0x0A
    case 4 => 0x49 case 5 => 0x06 case 6 => 0x24 case 7 => 0x5C
    case 8 => 0xC2 case 9 => 0xD3 case 10 => 0xAC case 11 => 0x62
    case 12 => 0x91 case 13 => 0x95 case 14 => 0xE4 case _ => 0x79
  }

  function SB(c: nat): nat {
    match c
    case 0 => 0xE7 case 1 => 0xC8 case 2 => 0x37 case 3 => 0x6D
    case 4 => 0x8D case 5 => 0xD5 case 6 => 0x4E case 7 => 0xA9
    case 8 => 0x6C case 9 => 0x56 case 10 => 0xF4 case 11 => 0xEA
    case 12 => 0x65 case 13 => 0x7A case 14 => 0xAE case _ => 0x08
  }

  function SC(c: nat): nat {
    match c
    case 0 => 0xBA case 1 => 0x78 case 2 => 0x25 case 3 => 0x2E
    case 4 => 0x1C case 5 => 0xA6 case 6 => 0xB4 case 7 => 0xC6
    case 8 => 0xE8 case 9 => 0xDD case 10 => 0x74 case 11 => 0x1F
    case 12 => 0x4B case 13 => 0xBD case 14 => 0x8B case _ => 0x8A
  }

  function SD(c: nat): nat {
    match c
    case 0 => 0x70 case 1 => 0x3E case 2 => 0xB5 case 3 => 0x66
    case 4 => 0x48 case 5 => 0x03 case 6 => 0xF6 case 7 => 0x0E
    case 8 => 0x61 case 9 => 0x35 case 10 => 0x57 case 11 => 0xB9
    case 12 => 0x86 case 13 => 0xC1 case 14 => 0x1D case _ => 0x9E
  }

  function SE(c: nat): nat {
    match c
    case 0 => 0xE1 case 1 => 0xF8 case 2 => 0x98 case 3 => 0x11
    case 4 => 0x69 case 5 => 0xD9 case 6 => 0x8E case 7 => 0x94
    case 8 => 0x9B case 9 => 0x1E case 10 => 0x87 case 11 => 0xE9
    case 12 => 0xCE case 13 => 0x55 case 14 => 0x28 case _ => 0xDF
  }

  function SF(c: nat): nat {
    match c
    case 0 => 0x8C case 1 => 0xA1 case 2 => 0x89 case 3 => 0x0D
    case 4 => 0xBF case 5 => 0xE6 case 6 => 0x42 case 7 => 0x68
    case 8 => 0x41 case 9 => 0x99 case 10 => 0x2D case 11 => 0x0F
    case 12 => 0xB0 case 13 => 0x54 case 14 => 0xBB case _ => 0x16
  }

  /** The substitution box at row r, column c. */
  function SRow(r: nat, c: nat): nat {
    match r
    case 0 => S0(c)
    case 1 => S1(c)
    case 2 => S2(c)
    case 3 => S3(c)
    case 4 => S4(c)
    case 5 => S5(c)
    case 6 => S6(c)
    case 7 => S7(c)
    case 8 => S8(c)
    case 9 => S9(c)
    case 10 => SA(c)
    case 11 => SB(c)
    case 12 => SC(c)
    case 13 => SD(c)
    case 14 => SE(c)
    case _ => SF(c)
  }

  function InvS0(c: nat): nat {
    match c
    case 0 => 0x52 case 1 => 0x09 case 2 => 0x6A case 3 => 0xD5
    case 4 => 0x30 case 5 => 0x36 case 6 => 0xA5 case 7 => 0x38
    case 8 => 0xBF case 9 => 0x40 case 10 => 0xA3 case 11 => 0x9E
    case 12 => 0x81 case 13 => 0xF3 case 14 => 0xD7 case _ => 0xFB
  }

  function InvS1(c: nat): nat {
    match c
    case 0 => 0x7C case 1 => 0xE3 case 2 => 0x39 case 3 => 0x82
    case 4 => 0x9B case 5 => 0x2F case 6 => 0xFF case 7 => 0x87
    case 8 => 0x34 case 9 => 0x8E case 10 => 0x43 case 11 => 0x44
    case 12 => 0xC4 case 13 => 0xDE case 14 => 0xE9 case _ => 0xCB
  }

  function InvS2(c: nat): nat {
    match c
    case 0 => 0x54 case 1 => 0x7B case 2 => 0x94 case 3 => 0x32
    case 4 => 0xA6 case 5 => 0xC2 case 6 => 0x23 case 7 => 0x3D
    case 8 => 0xEE case 9 => 0x4C case 10 => 0x95 case 11 => 0x0B
    case 12 => 0x42 case 13 => 0xFA case 14 => 0xC3 case _ => 0x4E
  }

  function InvS3(c: nat): nat {
    match c
    case 0 => 0x08 case 1 => 0x2E case 2 => 0xA1 case 3 => 0x66
    case 4 => 0x28 case 5 => 0xD9 case 6 => 0x24 case 7 => 0xB2
    case 8 => 0x76 case 9 => 0x5B case 10 => 0xA2 case 11 => 0x49
    case 12 => 0x6D case 13 => 0x8B case 14 => 0xD1 case _ => 0x25
  }

  function InvS4(c: nat): nat {
    match c
    case 0 => 0x72 case 1 => 0xF8 case 2 => 0xF6 case 3 => 0x64
    case 4 => 0x86 case 5 => 0x68 case 6 => 0x98 case 7 => 0x16
    case 8 => 0xD4 case 9 => 0xA4 case 10 => 0x5C case 11 => 0xCC
    case 12 => 0x5D case 13 => 0x65 case 14 => 0xB6 case _ => 0x92
  }

  function InvS5(c: nat): nat {
    match c
    case 0 => 0x6C case 1 => 0x70 case 2 => 0x48 case 3 => 0x50
    case 4 => 0xFD case 5 => 0xED case 6 => 0xB9 case 7 => 0xDA
    case 8 => 0x5E case 9 => 0x15 case 10 => 0x46 case 11 => 0x57
    case 12 => 0xA7 case 13 => 0x8D case 14 => 0x9D case _ => 0x84
  }

  function InvS6(c: nat): nat {
    match c
    case 0 => 0x90 case 1 => 0xD8 case 2 => 0xAB case 3 => 0x00
    case 4 => 0x8C case 5 => 0xBC case 6 => 0xD3 case 7 => 0x0A
    case 8 => 0xF7 case 9 => 0xE4 case 10 => 0x58 case 11 => 0x05
    case 12 => 0xB8 case 13 => 0xB3 case 14 => 0x45 case _ => 0x06
  }

  function InvS7(c: nat): nat {
    match c
    case 0 => 0xD0 case 1 => 0x2C case 2 => 0x1E case 3 => 0x8F
    case 4 => 0xCA case 5 => 0x3F case 6 => 0x0F case 7 => 0x02
    case 8 => 0xC1 case 9 => 0xAF case 10 => 0xBD case 11 => 0x03
    case 12 => 0x01 case 13 => 0x13 case 14 => 0x8A case _ => 0x6B
  }

  function InvS8(c: nat): nat {
    match c
    case 0 => 0x3A case 1 => 0x91 case 2 => 0x11 case 3 => 0x41
    case 4 => 0x4F case 5 => 0x67 case 6 => 0xDC case 7 => 0xEA
    case 8 => 0x97 case 9 => 0xF2 case 10 => 0xCF case 11 => 0xCE
    case 12 => 0xF0 case 13 => 0xB4 case 14 => 0xE6 case _ => 0x73
  }

  function InvS9(c: nat): nat {
    match c
    case 0 => 0x96 case 1 => 0xAC case 2 => 0x74 case 3 => 0x22
    case 4 => 0xE7 case 5 => 0xAD case 6 => 0x35 case 7 => 0x85
    case 8 => 0xE2 case 9 => 0xF9 case 10 => 0x37 case 11 => 0xE8
    case 12 => 0x1C case 13 => 0x75 case 14 => 0xDF case _ => 0x6E
  }

  function InvSA(c: nat): nat {
    match c
    case 0 => 0x47 case 1 => 0xF1 case 2 => 0x1A case 3 => 0x71
    case 4 => 0x1D case 5 => 0x29 case 6 => 0xC5 case 7 => 0x89
    case 8 => 0x6F case 9 => 0xB7 case 10 => 0x62 case 11 => 0x0E
    case 12 => 0xAA case 13 => 0x18 case 14 => 0xBE case _ => 0x1B
  }

  function InvSB(c: nat): nat {
    match c
    case 0 => 0xFC case 1 => 0x56 case 2 => 0x3E case 3 => 0x4B
    case 4 => 0xC6 case 5 => 0xD2 case 6 => 0x79 case 7 => 0x20
    case 8 => 0x9A case 9 => 0xDB case 10 => 0xC0 case 11 => 0xFE
    case 12 => 0x78 case 13 => 0xCD case 14 => 0x5A case _ => 0xF4
  }

  function InvSC(c: nat): nat {
    match c
    case 0 => 0x1F case 1 => 0xDD case 2 => 0xA8 case 3 => 0x33
    case 4 => 0x88 case 5 => 0x07 case 6 => 0xC7 case 7 => 0x31
    case 8 => 0xB1 case 9 => 0x12 case 10 => 0x10 case 11 => 0x59
    case 12 => 0x27 case 13 => 0x80 case 14 => 0xEC case _ => 0x5F
  }

  function InvSD(c: nat): nat {
    match c
    case 0 => 0x60 case 1 => 0x51 case 2 => 0x7F case 3 => 0xA9
    case 4 => 0x19 case 5 => 0xB5 case 6 => 0x4A case 7 => 0x0D
    case 8 => 0x2D case 9 => 0xE5 case 10 => 0x7A case 11 => 0x9F
    case 12 => 0x93 case 13 => 0xC9 case 14 => 0x9C case _ => 0xEF
  }

  function InvSE(c: nat): nat {
    match c
    case 0 => 0xA0 case 1 => 0xE0 case 2 => 0x3B case 3 => 0x4D
    case 4 => 0xAE case 5 => 0x2A case 6 => 0xF5 case 7 => 0xB0
    case 8 => 0xC8 case 9 => 0xEB case 10 => 0xBB case 11 => 0x3C
    case 12 => 0x83 case 13 => 0x53 case 14 => 0x99 case _ => 0x61
  }

  function InvSF(c: nat): nat {
    match c
    case 0 => 0x17 case 1 => 0x2B case 2 => 0x04 case 3 => 0x7E
    case 4 => 0xBA case 5 => 0x77 case 6 => 0xD6 case 7 => 0x26
    case 8 => 0xE1 case 9 => 0x69 case 10 => 0x14 case 11 => 0x63
    case 12 => 0x55 case 13 => 0x21 case 14 => 0x0C case _ => 0x7D
  }

  /** The inverse substitution box at row r, column c. */
  function InvSRow(r: nat, c: nat): nat {
    match r
    case 0 => InvS0(c)
    case 1 => InvS1(c)
    case 2 => InvS2(c)
    case 3 => InvS3(c)
    case 4 => InvS4(c)
    case 5 => InvS5(c)
    case 6 => InvS6(c)
    case 7 => InvS7(c)
    case 8 => InvS8(c)
    case 9 => InvS9(c)
    case 10 => InvSA(c)
    case 11 => InvSB(c)
    case 12 => InvSC(c)
    case 13 => InvSD(c)
    case 14 => InvSE(c)
    case _ => InvSF(c)
  }

  lemma {:induction false} Row0(c: nat)
    requires c < 16
    ensures S0(c) < 256 && InvSRow(S0(c) / 16, S0(c) % 16) == 0 + c
  {
  }

  lemma {:induction false} Row1(c: nat)
    requires c < 16
    ensures S1(c) < 256 && InvSRow(S1(c) / 16, S1(c) % 16) == 16 + c
  {
  }

  lemma {:induction false} Row2(c: nat)
    requires c < 16
    ensures S2(c) < 256 && InvSRow(S2(c) / 16, S2(c) % 16) == 32 + c
  {
  }

  lemma {:induction false} Row3(c: nat)
    requires c < 16
    ensures S3(c) < 256 && InvSRow(S3(c) / 16, S3(c) % 16) == 48 + c
  {
  }

  lemma {:induction false} Row4(c: nat)
    requires c < 16
    ensures S4(c) < 256 && InvSRow(S4(c) / 16, S4(c) % 16) == 64 + c
  {
  }

  lemma {:induction false} Row5(c: nat)
    requires c < 16
    ensures S5(c) < 256 && InvSRow(S5(c) / 16, S5(c) % 16) == 80 + c
  {
  }

  lemma {:induction false} Row6(c: nat)
    requires c < 16
    ensures S6(c) < 256 && InvSRow(S6(c) / 16, S6(c) % 16) == 96 + c
  {
  }

  lemma {:induction false} Row7(c: nat)
    requires c < 16
    ensures S7(c) < 256 && InvSRow(S7(c) / 16, S7(c) % 16) == 112 + c
  {
  }

  lemma {:induction false} Row8(c: nat)
    requires c < 16
    ensures S8(c) < 256 && InvSRow(S8(c) / 16, S8(c) % 16) == 128 + c
  {
  }

  lemma {:induction false} Row9(c: nat)
    requires c < 16
    ensures S9(c) < 256 && InvSRow(S9(c) / 16, S9(c) % 16) == 144 + c
  {
  }

  lemma {:induction false} RowA(c: nat)
    requires c < 16
    ensures SA(c) < 256 && InvSRow(SA(c) / 16, SA(c) % 16) == 160 + c
  {
  }

  lemma {:induction false} RowB(c: nat)
    requires c < 16
    ensures SB(c) < 256 && InvSRow(SB(c) / 16, SB(c) % 16) == 176 + c
  {
  }

  lemma {:induction false} RowC(c: nat)
    requires c < 16
    ensures SC(c) < 256 && InvSRow(SC(c) / 16, SC(c) % 16) == 192 + c
  {
  }

  lemma {:induction false} RowD(c: nat)
    requires c < 16
    ensures SD(c) < 256 && InvSRow(SD(c) / 16, SD(c) % 16) == 208 + c
  {
  }

  lemma {:induction false} RowE(c: nat)
    requires c < 16
    ensures SE(c) < 256 && InvSRow(SE(c) / 16, SE(c) % 16) == 224 + c
  {
  }

  lemma {:induction false} RowF(c: nat)
    requires c < 16
    ensures SF(c) < 256 && InvSRow(SF(c) / 16, SF(c) % 16) == 240 + c
  {
  }

  lemma {:induction false} LowerRows(r: nat, c: nat)
    requires r < 8 && c < 16
    ensures SRow(r, c) < 256 && InvSRow(SRow(r, c) / 16, SRow(r, c) % 16) == 16 * r + c
  {
    match r
    case 0 => Row0(c);
    case 1 => Row1(c);
    case 2 => Row2(c);
    case 3 => Row3(c);
    case 4 => Row4(c);
    case 5 => Row5(c);
    case 6 => Row6(c);
    case _ => Row7(c);
  }

  lemma {:induction false} UpperRows(r: nat, c: nat)
    requires 8 <= r < 16 && c < 16
    ensures SRow(r, c) < 256 && InvSRow(SRow(r, c) / 16, SRow(r, c) % 16) == 16 * r + c
  {
    match r
    case 8 => Row8(c);
    case 9 => Row9(c);
    case 10 => RowA(c);
    case 11 => RowB(c);
    case 12 => RowC(c);
    case 13 => RowD(c);
    case 14 => RowE(c);
    case _ => RowF(c);
  }

  function S(x: nat): nat
  {
    SRow(x / 16, x % 16)
  }

  function InvS(x: nat): nat
  {
    InvSRow(x / 16, x % 16)
  }

  /** The inverse box undoes the box. */
  lemma {:induction false} InvSOfS(x: nat)
    requires x < 256
    ensures S(x) < 256 && InvS(S(x)) == x
  {
    if x / 16 < 8 {
      LowerRows(x / 16, x % 16);
    } else {
      UpperRows(x / 16, x % 16);
    }
  }
}
