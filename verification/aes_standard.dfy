/**
 The cipher as FIPS 197 writes it down: equations for every byte of the expanded key and of every state.  What
 the model of Aes_ECB.cpp encrypts a block to is what these equations determine.
 */
module AesStandard {
  import opened Octets
  import opened AesField
  import opened Aes
  import opened AesCipher

  /** Section 4.2.1: multiplication by {02} and by {03}. */
  function Two(v: Octet): Octet {
    if v.b7 then Add(ShiftLeft(v), Octet(false, false, false, true, true, false, true, true)) else ShiftLeft(v)
  }

  function Three(v: Octet): Octet {
    Add(v, Two(v))
  }

  /** The powers of x. */
  function XPower(i: nat): Octet {
    if i == 0 then Octet(false, false, false, false, false, false, false, true) else Two(XPower(i - 1))
  }

  /** Byte r of a word. */
  function ByteOf(w: Four, r: nat): Octet
    requires r < 4
  {
    match r case 0 => w.a case 1 => w.b case 2 => w.c case _ => w.d
  }

  /** RotWord and SubWord (section 5.2). */
  function SubRot(w: Four): Four {
    Four(SubByte(w.b), SubByte(w.c), SubByte(w.d), SubByte(w.a))
  }

  /** Section 5.2: byte r of word n. */
  ghost predicate KeyByte(key: Block, w: seq<Four>, n: nat, r: nat)
    requires |w| == 44 && n < 44 && r < 4
  {
    ByteOf(w[n], r) ==
      if n < 4 then key[4 * n + r]
      else if n % 4 != 0 then Add(ByteOf(w[n - 4], r), ByteOf(w[n - 1], r))
      else Add(Add(ByteOf(w[n - 4], r), ByteOf(SubRot(w[n - 1]), r)), if r == 0 then XPower(n / 4 - 1) else ZERO)
  }

  /** Row r, column c of a state after SubBytes and ShiftRows (sections 5.1.1 and 5.1.2). */
  function Shifted(s: Block, r: nat, c: nat): Octet
    requires r < 4 && c < 4
  {
    SubByte(s[4 * r + (c + r) % 4])
  }

  /** MixColumns (section 5.1.3). */
  function MixedByte(s: Block, r: nat, c: nat): Octet
    requires r < 4 && c < 4
  {
    match r
    case 0 => Sum4(Two(Shifted(s, 0, c)), Three(Shifted(s, 1, c)), Shifted(s, 2, c), Shifted(s, 3, c))
    case 1 => Sum4(Shifted(s, 0, c), Two(Shifted(s, 1, c)), Three(Shifted(s, 2, c)), Shifted(s, 3, c))
    case 2 => Sum4(Shifted(s, 0, c), Shifted(s, 1, c), Two(Shifted(s, 2, c)), Three(Shifted(s, 3, c)))
    case _ => Sum4(Three(Shifted(s, 0, c)), Shifted(s, 1, c), Shifted(s, 2, c), Two(Shifted(s, 3, c)))
  }

  /** Section 5.1: row r, column c of state n; the input fills the columns, and the tenth round does not mix. */
  ghost predicate StateByte(input: Block, w: seq<Four>, t: seq<Block>, n: nat, r: nat, c: nat)
    requires |w| == 44 && |t| == 11 && n < 11 && r < 4 && c < 4
  {
    t[n][4 * r + c] ==
      Add(if n == 0 then input[r + 4 * c] else if n < 10 then MixedByte(t[n - 1], r, c) else Shifted(t[n - 1], r, c),
          ByteOf(w[4 * n + c], r))
  }

  /** Every byte of the expanded key and of the eleven states is as the standard says. */
  ghost predicate Fips197(key: Block, input: Block, w: seq<Four>, t: seq<Block>) {
    && |w| == 44 && |t| == 11
    && (forall n, r :: 0 <= n < 44 && 0 <= r < 4 ==> KeyByte(key, w, n, r))
    && (forall n, r, c :: 0 <= n < 11 && 0 <= r < 4 && 0 <= c < 4 ==> StateByte(input, w, t, n, r, c))
  }

  /** The encrypted block is read from the columns of the last of those states. */
  lemma {:induction false} EncryptIsFips197(key: Block, input: Block) returns (w: seq<Four>, t: seq<Block>)
    ensures Fips197(key, input, w, t)
    ensures forall r, c :: 0 <= r < 4 && 0 <= c < 4 ==> EncryptBlock(key, input)[r + 4 * c] == t[10][4 * r + c]
  {
    w := seq(44, n requires 0 <= n => KeyWord(key, n));
    t := seq(11, n requires 0 <= n => StateAfter(key, Transpose(input), n));
    forall n, r | 0 <= n < 44 && 0 <= r < 4
      ensures KeyByte(key, w, n, r)
    {
      KeyByteIs(key, n, r);
    }
    forall n, r, c | 0 <= n < 11 && 0 <= r < 4 && 0 <= c < 4
      ensures StateByte(input, w, t, n, r, c)
    {
      StateByteStands(key, input, w, t, n, r, c);
    }
    forall r, c | 0 <= r < 4 && 0 <= c < 4
      ensures EncryptBlock(key, input)[r + 4 * c] == t[10][4 * r + c]
    {
      OutputByte(key, input, r, c);
    }
  }

  lemma {:induction false} StateByteStands(key: Block, input: Block, w: seq<Four>, t: seq<Block>, n: nat, r: nat, c: nat)
    requires |w| == 44 && |t| == 11 && n < 11 && r < 4 && c < 4
    requires w[4 * n + c] == KeyWord(key, 4 * n + c) && t[n] == StateAfter(key, Transpose(input), n)
    requires n > 0 ==> t[n - 1] == StateAfter(key, Transpose(input), n - 1)
    ensures StateByte(input, w, t, n, r, c)
  {
    RowColumn(r, c);
    StateByteIs(key, Transpose(input), n, r, c);
  }

  lemma {:induction false} OutputByte(key: Block, input: Block, r: nat, c: nat)
    requires r < 4 && c < 4
    ensures EncryptBlock(key, input)[r + 4 * c] == StateAfter(key, Transpose(input), 10)[4 * r + c]
  {
    RowColumn(c, r);
  }

  ghost function StateAfter(key: Block, s: Block, n: nat): Block {
    if n == 10 then Cipher(key, s) else Rounds(key, s, n)
  }

  lemma {:induction false} TwoIs(v: Octet)
    ensures XTime(v) == Two(v)
  {
  }

  lemma {:induction false} RconIs(i: nat)
    requires i < 10
    ensures Rcon(i) == Four(XPower(i), ZERO, ZERO, ZERO)
  {
    if i > 0 {
      RconIs(i - 1);
      RconDoubles(i - 1);
      TwoIs(XPower(i - 1));
    }
  }

  lemma {:induction false} KeyByteIs(key: Block, n: nat, r: nat)
    requires n < 44 && r < 4
    ensures ByteOf(KeyWord(key, n), r) ==
              if n < 4 then key[4 * n + r]
              else if n % 4 != 0 then Add(ByteOf(KeyWord(key, n - 4), r), ByteOf(KeyWord(key, n - 1), r))
              else Add(Add(ByteOf(KeyWord(key, n - 4), r), ByteOf(SubRot(KeyWord(key, n - 1)), r)),
                       if r == 0 then XPower(n / 4 - 1) else ZERO)
  {
    if n < 4 {
      KeyWordIs(key, n);
    } else if n % 4 != 0 {
      OtherOfRound(key, n);
    } else {
      FirstOfRound(key, n, n / 4 - 1);
      RconIs(n / 4 - 1);
      SubRotIs(KeyWord(key, n - 1));
      FirstByte(KeyWord(key, n - 4), Mix(KeyWord(key, n - 1)), XPower(n / 4 - 1), r);
    }
  }

  lemma {:induction false} SubRotIs(w: Four)
    ensures Mix(w) == SubRot(w)
  {
  }

  lemma {:induction false} FirstByte(w: Four, v: Four, x: Octet, r: nat)
    requires r < 4
    ensures ByteOf(AddWords(AddWords(w, v), Four(x, ZERO, ZERO, ZERO)), r)
            == Add(Add(ByteOf(w, r), ByteOf(v, r)), if r == 0 then x else ZERO)
  {
    AddWordsByte(AddWords(w, v), Four(x, ZERO, ZERO, ZERO), r);
    AddWordsByte(w, v, r);
  }

  lemma {:induction false} AddWordsByte(v: Four, w: Four, r: nat)
    requires r < 4
    ensures ByteOf(AddWords(v, w), r) == Add(ByteOf(v, r), ByteOf(w, r))
  {
  }

  /** The products of the three factors that occur. */
  lemma {:induction false} FactorsAre(a: Octet)
    ensures Times(Value(Factor(false, false, true, false)), a, 8) == Two(a)
    ensures Times(Value(Factor(false, false, true, true)), a, 8) == Three(a)
    ensures Times(Value(Factor(false, false, false, true)), a, 8) == a
  {
    FactorPoly(Factor(false, false, true, false), a);
    FactorPoly(Factor(false, false, true, true), a);
    FactorPoly(Factor(false, false, false, true), a);
    TwoIs(a);
    FewTerms(a, XTime(a));
  }

  lemma {:induction false} FewTerms(a: Octet, b: Octet)
    ensures Add(ZERO, Add(b, Add(ZERO, Add(ZERO, ZERO)))) == b
    ensures Add(a, Add(b, Add(ZERO, Add(ZERO, ZERO)))) == Add(a, b)
    ensures Add(a, Add(ZERO, Add(ZERO, Add(ZERO, ZERO)))) == a
  {
    AddZero(ZERO);
    AddZero(a);
    AddZero(b);
  }

  lemma {:induction false} MixedIs(f: Four, i: nat)
    requires i < 4
    ensures Mixed(f, i) == match i
                           case 0 => Sum4(Two(f.a), Three(f.b), f.c, f.d)
                           case 1 => Sum4(f.a, Two(f.b), Three(f.c), f.d)
                           case 2 => Sum4(f.a, f.b, Two(f.c), Three(f.d))
                           case _ => Sum4(Three(f.a), f.b, f.c, Two(f.d))
  {
    FactorsAre(f.a);
    FactorsAre(f.b);
    FactorsAre(f.c);
    FactorsAre(f.d);
    MixedOf(f, i, Four(Two(f.a), Two(f.b), Two(f.c), Two(f.d)), Four(Three(f.a), Three(f.b), Three(f.c), Three(f.d)));
  }

  ghost predicate Multiples(a: Octet, two: Octet, three: Octet) {
    && Times(Value(Factor(false, false, true, false)), a, 8) == two
    && Times(Value(Factor(false, false, true, true)), a, 8) == three
    && Times(Value(Factor(false, false, false, true)), a, 8) == a
  }

  lemma {:induction false} MixedOf(f: Four, i: nat, two: Four, three: Four)
    requires i < 4 && Multiples(f.a, two.a, three.a) && Multiples(f.b, two.b, three.b)
    requires Multiples(f.c, two.c, three.c) && Multiples(f.d, two.d, three.d)
    ensures Mixed(f, i) == match i
                           case 0 => Sum4(two.a, three.b, f.c, f.d)
                           case 1 => Sum4(f.a, two.b, three.c, f.d)
                           case 2 => Sum4(f.a, f.b, two.c, three.d)
                           case _ => Sum4(three.a, f.b, f.c, two.d)
  {
    Entry(i, 0, f.a, two.a, three.a);
    Entry(i, 1, f.b, two.b, three.b);
    Entry(i, 2, f.c, two.c, three.c);
    Entry(i, 3, f.d, two.d, three.d);
  }

  lemma {:induction false} Entry(i: nat, j: nat, a: Octet, two: Octet, three: Octet)
    requires i < 4 && j < 4 && Multiples(a, two, three)
    ensures Times(Value(MixFactor(i, j)), a, 8) == if i == j then two else if (i + 1) % 4 == j then three else a
  {
    FactorIs(i, j);
    MultipleIs(MixFactor(i, j), a, two, three);
  }

  lemma {:induction false} FactorIs(i: nat, j: nat)
    requires i < 4 && j < 4
    ensures MixFactor(i, j) == if i == j then Factor(false, false, true, false)
                               else if (i + 1) % 4 == j then Factor(false, false, true, true)
                               else Factor(false, false, false, true)
  {
  }

  lemma {:induction false} MultipleIs(f: Factor, a: Octet, two: Octet, three: Octet)
    requires Multiples(a, two, three)
    ensures f == Factor(false, false, true, false) ==> Times(Value(f), a, 8) == two
    ensures f == Factor(false, false, true, true) ==> Times(Value(f), a, 8) == three
    ensures f == Factor(false, false, false, true) ==> Times(Value(f), a, 8) == a
  {
  }

  lemma {:induction false} ShiftedIs(s: Block, r: nat, c: nat)
    requires r < 4 && c < 4
    ensures At(ShiftRows(SubBytes(s)), r, c) == Shifted(s, r, c)
  {
    ShiftRowsAt(SubBytes(s), r, c);
    RotatedIs(r, c);
    SubBytesAt(s, r, Rotated(r, c));
  }

  lemma {:induction false} RotatedIs(r: nat, c: nat)
    requires r < 4 && c < 4
    ensures Rotated(r, c) == (c + r) % 4
  {
  }

  lemma {:induction false} SubBytesAt(s: Block, r: nat, c: nat)
    requires r < 4 && c < 4
    ensures At(SubBytes(s), r, c) == SubByte(s[4 * r + c])
  {
  }

  lemma {:induction false} MixedByteIs(s: Block, r: nat, c: nat)
    requires r < 4 && c < 4
    ensures At(MixColumns(ShiftRows(SubBytes(s))), r, c) == MixedByte(s, r, c)
  {
    var b := ShiftRows(SubBytes(s));
    MixColumnsAt(b, r, c);
    ShiftedIs(s, 0, c);
    ShiftedIs(s, 1, c);
    ShiftedIs(s, 2, c);
    ShiftedIs(s, 3, c);
    MixedIs(Column(b, c), r);
  }

  lemma {:induction false} KeyAt(key: Block, n: nat, s: Block, r: nat, c: nat)
    requires r < 4 && c < 4
    ensures At(AddRoundKey(s, RoundKey(key, n)), r, c) == Add(At(s, r, c), ByteOf(KeyWord(key, 4 * n + c), r))
  {
    RowColumn(r, c);
  }

  lemma {:induction false} StateByteIs(key: Block, s: Block, n: nat, r: nat, c: nat)
    requires n < 11 && r < 4 && c < 4
    ensures var before := if n == 0 then s else StateAfter(key, s, n - 1);
            At(StateAfter(key, s, n), r, c) ==
              Add(if n == 0 then At(s, r, c) else if n < 10 then MixedByte(before, r, c) else Shifted(before, r, c),
                  ByteOf(KeyWord(key, 4 * n + c), r))
  {
    if n == 0 {
      KeyAt(key, 0, s, r, c);
    } else {
      var before := Rounds(key, s, n - 1);
      if n < 10 {
        RoundIsForward(before, RoundKey(key, n));
        KeyAt(key, n, MixColumns(ShiftRows(SubBytes(before))), r, c);
        MixedByteIs(before, r, c);
      } else {
        LastRoundIs(before, RoundKey(key, 10));
        KeyAt(key, 10, ShiftRows(SubBytes(before)), r, c);
        ShiftedIs(before, r, c);
      }
    }
  }
}
