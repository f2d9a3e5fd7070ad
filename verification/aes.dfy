/**
 AES-128 of Aes_ECB.cpp (FIPS 197 section 5): the round transformations on a 4 by 4 state, the key
 schedule, and the cipher with its inverse.  A 32-bit word is modelled as its four bytes, highest first.
 */
module Aes {
  import opened Octets
  import opened AesField
  import AesTables

  // ---------- substitution ----------

  function SubByte(o: Octet): Octet {
    FromNum(AesTables.S(Num(o)))
  }

  function InvSubByte(o: Octet): Octet {
    FromNum(AesTables.InvS(Num(o)))
  }

  lemma {:induction false} InvSubByteOfSubByte(o: Octet)
    ensures InvSubByte(SubByte(o)) == o
  {
    AesTables.InvSOfS(Num(o));
    NumOfFromNum(AesTables.S(Num(o)));
    FromNumOfNum(o);
  }

  // ---------- states ----------

  /** Sixteen bytes: a block, or a state row by row. */
  type Block = s: seq<Octet> | |s| == 16 witness seq(16, _ => ZERO)

  function At(s: Block, i: nat, j: nat): Octet
    requires i < 4 && j < 4
  {
    s[4 * i + j]
  }

  lemma {:induction false} RowColumn(i: nat, j: nat)
    requires i < 4 && j < 4
    ensures (4 * i + j) / 4 == i && (4 * i + j) % 4 == j
  {
  }

  lemma {:induction false} SameState(s: Block, t: Block)
    requires forall i, j :: 0 <= i < 4 && 0 <= j < 4 ==> At(s, i, j) == At(t, i, j)
    ensures s == t
  {
    forall n | 0 <= n < 16
      ensures s[n] == t[n]
    {
      assert At(s, n / 4, n % 4) == At(t, n / 4, n % 4);
    }
  }

  function SubBytes(s: Block): Block {
    seq(16, n requires 0 <= n < 16 => SubByte(s[n]))
  }

  function InvSubBytes(s: Block): Block {
    seq(16, n requires 0 <= n < 16 => InvSubByte(s[n]))
  }

  /** Row i is rotated left by i. */
  function Rotated(i: nat, j: nat): (k: nat)
    requires i < 4 && j < 4
    ensures k < 4
  {
    if i + j < 4 then i + j else i + j - 4
  }

  function RotatedBack(i: nat, j: nat): (k: nat)
    requires i < 4 && j < 4
    ensures k < 4
  {
    if i <= j then j - i else j + 4 - i
  }

  function ShiftRows(s: Block): Block {
    seq(16, n requires 0 <= n < 16 => At(s, n / 4, Rotated(n / 4, n % 4)))
  }

  function InvShiftRows(s: Block): Block {
    seq(16, n requires 0 <= n < 16 => At(s, n / 4, RotatedBack(n / 4, n % 4)))
  }

  function Column(s: Block, j: nat): Four
    requires j < 4
  {
    Four(At(s, 0, j), At(s, 1, j), At(s, 2, j), At(s, 3, j))
  }

  function MixColumns(s: Block): Block {
    seq(16, n requires 0 <= n < 16 => Mixed(Column(s, n % 4), n / 4))
  }

  function InvMixColumns(s: Block): Block {
    seq(16, n requires 0 <= n < 16 => Unmixed(Column(s, n % 4), n / 4))
  }

  function AddRoundKey(s: Block, k: Block): Block {
    seq(16, n requires 0 <= n < 16 => Add(s[n], k[n]))
  }

  // ---------- every transformation has its inverse ----------

  lemma {:induction false} InvSubBytesOfSubBytes(s: Block)
    ensures InvSubBytes(SubBytes(s)) == s
  {
    forall n | 0 <= n < 16
      ensures InvSubBytes(SubBytes(s))[n] == s[n]
    {
      InvSubByteOfSubByte(s[n]);
    }
  }

  lemma {:induction false} ShiftRowsAt(s: Block, i: nat, j: nat)
    requires i < 4 && j < 4
    ensures At(ShiftRows(s), i, j) == At(s, i, Rotated(i, j))
    ensures At(InvShiftRows(s), i, j) == At(s, i, RotatedBack(i, j))
  {
    RowColumn(i, j);
  }

  lemma {:induction false} InvShiftRowsOfShiftRows(s: Block)
    ensures InvShiftRows(ShiftRows(s)) == s
  {
    forall i, j | 0 <= i < 4 && 0 <= j < 4
      ensures At(InvShiftRows(ShiftRows(s)), i, j) == At(s, i, j)
    {
      ShiftRowsAt(ShiftRows(s), i, j);
      ShiftRowsAt(s, i, RotatedBack(i, j));
    }
    SameState(InvShiftRows(ShiftRows(s)), s);
  }

  lemma {:induction false} MixColumnsAt(s: Block, i: nat, j: nat)
    requires i < 4 && j < 4
    ensures At(MixColumns(s), i, j) == Mixed(Column(s, j), i)
    ensures At(InvMixColumns(s), i, j) == Unmixed(Column(s, j), i)
  {
    RowColumn(i, j);
    MixedEntry(s, 4 * i + j);
  }

  lemma {:induction false} MixedEntry(s: Block, n: nat)
    requires n < 16
    ensures MixColumns(s)[n] == Mixed(Column(s, n % 4), n / 4)
    ensures InvMixColumns(s)[n] == Unmixed(Column(s, n % 4), n / 4)
  {
  }

  lemma {:induction false} MixedColumn(s: Block, j: nat)
    requires j < 4
    ensures var c := Column(s, j);
            Column(MixColumns(s), j) == Four(Mixed(c, 0), Mixed(c, 1), Mixed(c, 2), Mixed(c, 3))
  {
    MixColumnsAt(s, 0, j);
    MixColumnsAt(s, 1, j);
    MixColumnsAt(s, 2, j);
    MixColumnsAt(s, 3, j);
  }

  lemma {:induction false} UnmixedAt(s: Block, i: nat, j: nat)
    requires i < 4 && j < 4
    ensures At(InvMixColumns(MixColumns(s)), i, j) == At(s, i, j)
  {
    var c := Column(s, j);
    MixedColumn(s, j);
    MixColumnsAt(MixColumns(s), i, j);
    UnmixedOfMixed(c, i);
    PickColumn(s, i, j);
  }

  lemma {:induction false} PickColumn(s: Block, i: nat, j: nat)
    requires i < 4 && j < 4
    ensures Pick(Column(s, j), i) == At(s, i, j)
  {
  }

  lemma {:induction false} InvMixColumnsOfMixColumns(s: Block)
    ensures InvMixColumns(MixColumns(s)) == s
  {
    var t := InvMixColumns(MixColumns(s));
    forall i, j | 0 <= i < 4 && 0 <= j < 4
      ensures At(t, i, j) == At(s, i, j)
    {
      UnmixedAt(s, i, j);
    }
    SameState(t, s);
  }

  lemma {:induction false} AddRoundKeyTwice(s: Block, k: Block)
    ensures AddRoundKey(AddRoundKey(s, k), k) == s
  {
    forall n | 0 <= n < 16
      ensures AddRoundKey(AddRoundKey(s, k), k)[n] == s[n]
    {
      AddAssoc(s[n], k[n], k[n]);
      AddZero(s[n]);
      AddZero(k[n]);
    }
  }

  // ---------- the key schedule ----------

  function AddWords(v: Four, w: Four): Four {
    Four(Add(v.a, w.a), Add(v.b, w.b), Add(v.c, w.c), Add(v.d, w.d))
  }

  /** The word rotated left by a byte, with every byte substituted. */
  function Mix(w: Four): Four {
    Four(SubByte(w.b), SubByte(w.c), SubByte(w.d), SubByte(w.a))
  }

  /** The round constants. */
  function Rcon(i: nat): Four {
    Four(FromNum(RconByte(i)), ZERO, ZERO, ZERO)
  }

  function RconByte(i: nat): nat {
    match i
    case 0 => 0x01 case 1 => 0x02 case 2 => 0x04 case 3 => 0x08 case 4 => 0x10
    case 5 => 0x20 case 6 => 0x40 case 7 => 0x80 case 8 => 0x1B case _ => 0x36
  }

  /** Each round constant is x times the one before. */
  lemma {:induction false} RconDoubles(i: nat)
    requires i < 9
    ensures Rcon(i + 1).a == XTime(Rcon(i).a)
  {
    if i < 4 {
      EarlyRcon(i);
    } else {
      LateRcon(i);
    }
  }

  lemma {:induction false} EarlyRcon(i: nat)
    requires i < 4
    ensures FromNum(RconByte(i + 1)) == XTime(FromNum(RconByte(i)))
  {
  }

  lemma {:induction false} LateRcon(i: nat)
    requires 4 <= i < 9
    ensures FromNum(RconByte(i + 1)) == XTime(FromNum(RconByte(i)))
  {
  }

  /** Word n of the expanded key (section 5.2). */
  ghost function Expanded(key: Block, n: nat): Four {
    if n < 4 then Four(key[4 * n], key[4 * n + 1], key[4 * n + 2], key[4 * n + 3])
    else if n % 4 == 0 then
      AddWords(AddWords(Expanded(key, n - 4), Mix(Expanded(key, n - 1))), Rcon(n / 4 - 1))
    else AddWords(Expanded(key, n - 4), Expanded(key, n - 1))
  }

  /** The same by choice; KeyWordIs unfolds it. */
  ghost function KeyWord(key: Block, n: nat): Four {
    assert KeyWordStands(key, n, Expanded(key, n));
    var w :| KeyWordStands(key, n, w);
    w
  }

  ghost predicate KeyWordStands(key: Block, n: nat, w: Four) {
    forall m: nat :: KeyWordStandsAt(key, n, w, m)
  }

  ghost predicate KeyWordStandsAt(key: Block, n: nat, w: Four, m: nat) {
    m == n ==> w == Expanded(key, m)
  }

  lemma {:induction false} KeyWordIs(key: Block, n: nat)
    ensures KeyWord(key, n) == Expanded(key, n)
  {
    assert KeyWordStandsAt(key, n, KeyWord(key, n), n);
  }

  class AesKey {
    const eK: array<Four>
    const dK: array<Four>

    constructor ()
      ensures eK.Length == 44 && dK.Length == 44 && fresh(eK) && fresh(dK) && eK != dK
    {
      eK := new Four[44](_ => Four(ZERO, ZERO, ZERO, ZERO));
      dK := new Four[44](_ => Four(ZERO, ZERO, ZERO, ZERO));
    }

    ghost predicate Encrypts(key: Block, n: nat)
      reads this, eK
    {
      eK.Length == 44 && forall k :: 0 <= k < n && k < 44 ==> eK[k] == KeyWord(key, k)
    }

    /** The decryption key is the encryption key, its groups of four words in reverse order. */
    ghost predicate Decrypts(key: Block, n: nat)
      reads this, dK
    {
      dK.Length == 44 && forall r, i :: 0 <= r < n && r < 11 && 0 <= i < 4 ==> DecryptsAt(key, r, i)
    }

    ghost predicate DecryptsAt(key: Block, r: nat, i: nat)
      requires r < 11 && i < 4 && dK.Length == 44
      reads this, dK
    {
      dK[4 * r + i] == KeyWord(key, 4 * (10 - r) + i)
    }

    method KeyExpansion(key: Block)
      requires eK.Length == 44 && dK.Length == 44 && eK != dK
      modifies eK, dK
      ensures Encrypts(key, 44) && Decrypts(key, 11)
    {
      for i := 0 to 4
        invariant Encrypts(key, i)
      {
        KeyWordIs(key, i);
        SetWord(key, i, Four(key[4 * i], key[4 * i + 1], key[4 * i + 2], key[4 * i + 3]));
      }
      for i := 0 to 10
        invariant Encrypts(key, 4 * i + 4)
      {
        ExpandRound(key, i);
      }
      for j := 0 to 11
        invariant Encrypts(key, 44) && Decrypts(key, j)
      {
        CopyRound(key, j);
      }
    }

    /** Words 4 i + 4 to 4 i + 7. */
    method ExpandRound(key: Block, i: nat)
      requires i < 10 && Encrypts(key, 4 * i + 4)
      modifies eK
      ensures Encrypts(key, 4 * i + 8)
    {
      var n := 4 * i + 4;
      Words(i);
      var w := FirstWord(key, n, i, eK[n - 4], eK[n - 1]);
      SetWord(key, n, w);
      w := OtherWord(key, n + 1, eK[n - 3], w);
      SetWord(key, n + 1, w);
      w := OtherWord(key, n + 2, eK[n - 2], w);
      SetWord(key, n + 2, w);
      w := OtherWord(key, n + 3, eK[n - 1], w);
      SetWord(key, n + 3, w);
    }

    method SetWord(ghost key: Block, n: nat, w: Four)
      requires n < 44 && Encrypts(key, n) && w == KeyWord(key, n)
      modifies eK
      ensures Encrypts(key, n + 1)
    {
      eK[n] := w;
    }

    /** Group j of the decryption key is group 10 - j of the encryption key. */
    method CopyRound(key: Block, j: nat)
      requires j < 11 && Encrypts(key, 44) && Decrypts(key, j) && eK != dK
      modifies dK
      ensures Encrypts(key, 44) && Decrypts(key, j + 1)
    {
      for i := 0 to 4
        invariant Encrypts(key, 44) && Decrypts(key, j)
        invariant forall k :: 0 <= k < i ==> DecryptsAt(key, j, k)
      {
        label before:
        dK[4 * j + i] := eK[4 * (10 - j) + i];
        forall r, k | 0 <= r <= j && 0 <= k < 4 && (r < j || k < i)
          ensures DecryptsAt(key, r, k)
        {
          assert old@before(DecryptsAt(key, r, k));
        }
      }
    }
  }

  /** The first word of a round from those four places and one place before it. */
  method FirstWord(ghost key: Block, ghost n: nat, i: nat, w: Four, v: Four) returns (r: Four)
    requires n >= 4 && n % 4 == 0 && n / 4 - 1 == i && w == KeyWord(key, n - 4) && v == KeyWord(key, n - 1)
    ensures r == KeyWord(key, n)
  {
    FirstOfRound(key, n, i);
    r := AddWords(AddWords(w, Mix(v)), Rcon(i));
  }

  method OtherWord(ghost key: Block, ghost n: nat, w: Four, v: Four) returns (r: Four)
    requires n >= 4 && n % 4 != 0 && w == KeyWord(key, n - 4) && v == KeyWord(key, n - 1)
    ensures r == KeyWord(key, n)
  {
    OtherOfRound(key, n);
    r := AddWords(w, v);
  }

  lemma {:induction false} FirstOfRound(key: Block, n: nat, i: nat)
    requires n >= 4 && n % 4 == 0 && n / 4 - 1 == i
    ensures KeyWord(key, n) == AddWords(AddWords(KeyWord(key, n - 4), Mix(KeyWord(key, n - 1))), Rcon(i))
  {
    KeyWordIs(key, n);
    KeyWordIs(key, n - 4);
    KeyWordIs(key, n - 1);
  }

  lemma {:induction false} OtherOfRound(key: Block, n: nat)
    requires n >= 4 && n % 4 != 0
    ensures KeyWord(key, n) == AddWords(KeyWord(key, n - 4), KeyWord(key, n - 1))
  {
    KeyWordIs(key, n);
    KeyWordIs(key, n - 4);
    KeyWordIs(key, n - 1);
  }

  lemma {:induction false} Words(i: nat)
    ensures (4 * i + 4) % 4 == 0 && (4 * i + 4) / 4 - 1 == i
    ensures (4 * i + 5) % 4 == 1 && (4 * i + 6) % 4 == 2 && (4 * i + 7) % 4 == 3
  {
  }
}
