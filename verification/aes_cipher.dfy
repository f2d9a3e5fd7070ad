/**
 The cipher of Aes_ECB.cpp and its inverse (FIPS 197 sections 5.1 and 5.3), working in place on a 4 by 4
 state, and blocks encrypted one by one.
 */
module AesCipher {
  import opened Octets
  import opened AesField
  import opened Aes

  const BLOCKSIZE := 16

  // ---------- the state ----------

  ghost predicate Square(state: array2<Octet>) {
    state.Length0 == 4 && state.Length1 == 4
  }

  /** Entry n of the state, row by row. */
  ghost function Cell(state: array2<Octet>, n: nat): Octet
    requires Square(state) && n < 16
    reads state
  {
    state[n / 4, n % 4]
  }

  /** The first m entries are those of t, the others those of s. */
  ghost predicate Between(state: array2<Octet>, s: Block, t: Block, m: nat)
    reads state
  {
    Square(state) && forall n :: 0 <= n < 16 ==> Cell(state, n) == if n < m then t[n] else s[n]
  }

  ghost predicate Holds(state: array2<Octet>, s: Block)
    reads state
  {
    Between(state, s, s, 0)
  }

  lemma {:induction false} BetweenEnds(state: array2<Octet>, s: Block, t: Block)
    ensures Holds(state, s) ==> Between(state, s, t, 0)
    ensures Between(state, s, t, 16) ==> Holds(state, t)
  {
  }

  /** Writes the next entry. */
  method Set(state: array2<Octet>, i: nat, j: nat, v: Octet, ghost s: Block, ghost t: Block)
    requires i < 4 && j < 4 && Between(state, s, t, 4 * i + j) && v == t[4 * i + j]
    modifies state
    ensures Between(state, s, t, 4 * i + j + 1)
  {
    RowColumn(i, j);
    state[i, j] := v;
    forall n | 0 <= n < 16
      ensures Cell(state, n) == if n < 4 * i + j + 1 then t[n] else s[n]
    {
      assert n != 4 * i + j ==> Cell(state, n) == old(Cell(state, n));
    }
  }

  /** An entry that has not been written. */
  method Get(state: array2<Octet>, i: nat, j: nat, ghost s: Block, ghost t: Block, ghost m: nat) returns (v: Octet)
    requires i < 4 && j < 4 && m <= 4 * i + j && Between(state, s, t, m)
    ensures v == At(s, i, j)
  {
    RowColumn(i, j);
    assert Cell(state, 4 * i + j) == s[4 * i + j];
    v := state[i, j];
  }

  method Copy(state: array2<Octet>, ghost s: Block) returns (tmp: Block)
    requires Holds(state, s)
    ensures tmp == s
  {
    tmp := [state[0, 0], state[0, 1], state[0, 2], state[0, 3], state[1, 0], state[1, 1], state[1, 2], state[1, 3],
            state[2, 0], state[2, 1], state[2, 2], state[2, 3], state[3, 0], state[3, 1], state[3, 2], state[3, 3]];
    forall n | 0 <= n < 16
      ensures tmp[n] == s[n]
    {
      assert Cell(state, n) == s[n];
    }
  }

  // ---------- transformations in place ----------

  method SubstituteBytes(state: array2<Octet>, ghost s: Block)
    requires Holds(state, s)
    modifies state
    ensures Holds(state, SubBytes(s))
  {
    ghost var t := SubBytes(s);
    BetweenEnds(state, s, t);
    for i := 0 to 4
      invariant Between(state, s, t, 4 * i)
    {
      for j := 0 to 4
        invariant Between(state, s, t, 4 * i + j)
      {
        var v := Get(state, i, j, s, t, 4 * i + j);
        Set(state, i, j, SubByte(v), s, t);
      }
    }
    BetweenEnds(state, s, t);
  }

  method InvSubstituteBytes(state: array2<Octet>, ghost s: Block)
    requires Holds(state, s)
    modifies state
    ensures Holds(state, InvSubBytes(s))
  {
    ghost var t := InvSubBytes(s);
    BetweenEnds(state, s, t);
    for i := 0 to 4
      invariant Between(state, s, t, 4 * i)
    {
      for j := 0 to 4
        invariant Between(state, s, t, 4 * i + j)
      {
        var v := Get(state, i, j, s, t, 4 * i + j);
        Set(state, i, j, InvSubByte(v), s, t);
      }
    }
    BetweenEnds(state, s, t);
  }

  /** A word rotated left by i bytes. */
  function RotateLeft(w: Four, i: nat): Four
    requires i < 4
  {
    match i
    case 0 => w
    case 1 => Four(w.b, w.c, w.d, w.a)
    case 2 => Four(w.c, w.d, w.a, w.b)
    case _ => Four(w.d, w.a, w.b, w.c)
  }

  function RotateRight(w: Four, i: nat): Four
    requires i < 4
  {
    match i
    case 0 => w
    case 1 => Four(w.d, w.a, w.b, w.c)
    case 2 => Four(w.c, w.d, w.a, w.b)
    case _ => Four(w.b, w.c, w.d, w.a)
  }

  function Row(s: Block, i: nat): Four
    requires i < 4
  {
    Four(At(s, i, 0), At(s, i, 1), At(s, i, 2), At(s, i, 3))
  }

  /** Row i as a word. */
  method LoadRow(state: array2<Octet>, i: nat, ghost s: Block, ghost t: Block) returns (w: Four)
    requires i < 4 && Between(state, s, t, 4 * i)
    ensures w == Row(s, i)
  {
    var a := Get(state, i, 0, s, t, 4 * i);
    var b := Get(state, i, 1, s, t, 4 * i);
    var c := Get(state, i, 2, s, t, 4 * i);
    var d := Get(state, i, 3, s, t, 4 * i);
    w := Four(a, b, c, d);
  }

  method StoreRow(state: array2<Octet>, i: nat, w: Four, ghost s: Block, ghost t: Block)
    requires i < 4 && Between(state, s, t, 4 * i) && w == Row(t, i)
    modifies state
    ensures Between(state, s, t, 4 * i + 4)
  {
    Set(state, i, 0, w.a, s, t);
    Set(state, i, 1, w.b, s, t);
    Set(state, i, 2, w.c, s, t);
    Set(state, i, 3, w.d, s, t);
  }

  lemma {:induction false} ShiftedRow(s: Block, i: nat)
    requires i < 4
    ensures RotateLeft(Row(s, i), i) == Row(ShiftRows(s), i)
    ensures RotateRight(Row(s, i), i) == Row(InvShiftRows(s), i)
  {
    ShiftRowsAt(s, i, 0);
    ShiftRowsAt(s, i, 1);
    ShiftRowsAt(s, i, 2);
    ShiftRowsAt(s, i, 3);
  }

  method ShiftTheRows(state: array2<Octet>, ghost s: Block)
    requires Holds(state, s)
    modifies state
    ensures Holds(state, ShiftRows(s))
  {
    ghost var t := ShiftRows(s);
    BetweenEnds(state, s, t);
    for i := 0 to 4
      invariant Between(state, s, t, 4 * i)
    {
      var block := LoadRow(state, i, s, t);
      ShiftedRow(s, i);
      StoreRow(state, i, RotateLeft(block, i), s, t);
    }
    BetweenEnds(state, s, t);
  }

  method InvShiftTheRows(state: array2<Octet>, ghost s: Block)
    requires Holds(state, s)
    modifies state
    ensures Holds(state, InvShiftRows(s))
  {
    ghost var t := InvShiftRows(s);
    BetweenEnds(state, s, t);
    for i := 0 to 4
      invariant Between(state, s, t, 4 * i)
    {
      var block := LoadRow(state, i, s, t);
      ShiftedRow(s, i);
      StoreRow(state, i, RotateRight(block, i), s, t);
    }
    BetweenEnds(state, s, t);
  }

  /** The sum of four products, by repeated doubling. */
  method Combine(f0: Factor, f1: Factor, f2: Factor, f3: Factor, c: Four) returns (v: Octet)
    ensures v == Sum4(Times(Value(f0), c.a, 8), Times(Value(f1), c.b, 8), Times(Value(f2), c.c, 8), Times(Value(f3), c.d, 8))
  {
    var p0 := GMul(Value(f0), c.a);
    var p1 := GMul(Value(f1), c.b);
    var p2 := GMul(Value(f2), c.c);
    var p3 := GMul(Value(f3), c.d);
    v := Add(Add(Add(p0, p1), p2), p3);
  }

  method MixEntry(tmp: Block, i: nat, j: nat) returns (v: Octet)
    requires i < 4 && j < 4
    ensures v == At(MixColumns(tmp), i, j)
  {
    MixColumnsAt(tmp, i, j);
    v := Combine(MixFactor(i, 0), MixFactor(i, 1), MixFactor(i, 2), MixFactor(i, 3), Column(tmp, j));
  }

  method InvMixEntry(tmp: Block, i: nat, j: nat) returns (v: Octet)
    requires i < 4 && j < 4
    ensures v == At(InvMixColumns(tmp), i, j)
  {
    MixColumnsAt(tmp, i, j);
    v := Combine(InvMixFactor(i, 0), InvMixFactor(i, 1), InvMixFactor(i, 2), InvMixFactor(i, 3), Column(tmp, j));
  }

  method MixTheColumns(state: array2<Octet>, ghost s: Block)
    requires Holds(state, s)
    modifies state
    ensures Holds(state, MixColumns(s))
  {
    var tmp := Copy(state, s);
    ghost var t := MixColumns(s);
    BetweenEnds(state, s, t);
    for i := 0 to 4
      invariant Between(state, s, t, 4 * i)
    {
      for j := 0 to 4
        invariant Between(state, s, t, 4 * i + j)
      {
        var v := MixEntry(tmp, i, j);
        Set(state, i, j, v, s, t);
      }
    }
    BetweenEnds(state, s, t);
  }

  method InvMixTheColumns(state: array2<Octet>, ghost s: Block)
    requires Holds(state, s)
    modifies state
    ensures Holds(state, InvMixColumns(s))
  {
    var tmp := Copy(state, s);
    ghost var t := InvMixColumns(s);
    BetweenEnds(state, s, t);
    for i := 0 to 4
      invariant Between(state, s, t, 4 * i)
    {
      for j := 0 to 4
        invariant Between(state, s, t, 4 * i + j)
      {
        var v := InvMixEntry(tmp, i, j);
        Set(state, i, j, v, s, t);
      }
    }
    BetweenEnds(state, s, t);
  }

  /** Round key r: four words of the expanded key as columns. */
  ghost function RoundKey(key: Block, r: nat): Block {
    seq(16, n requires 0 <= n < 16 => Pick(KeyWord(key, 4 * r + n % 4), n / 4))
  }

  /** The four words at rk are round key r. */
  ghost predicate HasRound(k: array<Four>, rk: nat, key: Block, r: nat)
    reads k
  {
    rk + 4 <= k.Length && forall j :: 0 <= j < 4 ==> HasWord(k, rk, key, r, j)
  }

  ghost predicate HasWord(k: array<Four>, rk: nat, key: Block, r: nat, j: nat)
    requires rk + j < k.Length
    reads k
  {
    k[rk + j] == KeyWord(key, 4 * r + j)
  }

  method AddTheRoundKey(state: array2<Octet>, k: array<Four>, rk: nat, ghost key: Block, ghost r: nat, ghost s: Block)
    requires Holds(state, s) && HasRound(k, rk, key, r)
    modifies state
    ensures Holds(state, AddRoundKey(s, RoundKey(key, r)))
  {
    ghost var t := AddRoundKey(s, RoundKey(key, r));
    BetweenEnds(state, s, t);
    for i := 0 to 4
      invariant Between(state, s, t, 4 * i)
    {
      for j := 0 to 4
        invariant Between(state, s, t, 4 * i + j)
      {
        RowColumn(i, j);
        assert HasWord(k, rk, key, r, j);
        var v := Get(state, i, j, s, t, 4 * i + j);
        Set(state, i, j, Add(v, Pick(k[rk + j], i)), s, t);
      }
    }
    BetweenEnds(state, s, t);
  }

  // ---------- the cipher ----------

  /**
   A round with round key k.  The four kinds of rounds are chosen by what they must be, so that proofs
   about runs of rounds do not unfold them; the lemmas after them do.
   */
  ghost function Round(s: Block, k: Block): Block {
    assert RoundIs(0, s, k, Forward(s, k));
    var t :| RoundIs(0, s, k, t);
    t
  }

  ghost function Forward(s: Block, k: Block): Block {
    AddRoundKey(MixColumns(ShiftRows(SubBytes(s))), k)
  }

  /** The last round, without mixing. */
  ghost function LastRound(s: Block, k: Block): Block {
    assert RoundIs(1, s, k, AddRoundKey(ShiftRows(SubBytes(s)), k));
    var t :| RoundIs(1, s, k, t);
    t
  }

  ghost function InvRound(s: Block, k: Block): Block {
    assert RoundIs(2, s, k, Backward(s, k));
    var t :| RoundIs(2, s, k, t);
    t
  }

  ghost function Backward(s: Block, k: Block): Block {
    InvMixColumns(AddRoundKey(InvSubBytes(InvShiftRows(s)), k))
  }

  ghost function InvLastRound(s: Block, k: Block): Block {
    assert RoundIs(3, s, k, AddRoundKey(InvSubBytes(InvShiftRows(s)), k));
    var t :| RoundIs(3, s, k, t);
    t
  }

  ghost predicate RoundIs(kind: nat, s: Block, k: Block, t: Block) {
    forall key: Block :: RoundIsWith(kind, s, k, t, key)
  }

  ghost predicate RoundIsWith(kind: nat, s: Block, k: Block, t: Block, key: Block) {
    key == k ==>
      t == (if kind == 0 then Forward(s, key) else if kind == 1 then AddRoundKey(ShiftRows(SubBytes(s)), key)
            else if kind == 2 then Backward(s, key) else AddRoundKey(InvSubBytes(InvShiftRows(s)), key))
  }

  lemma {:induction false} RoundIsForward(s: Block, k: Block)
    ensures Round(s, k) == Forward(s, k)
  {
    assert RoundIsWith(0, s, k, Round(s, k), k);
  }

  lemma {:induction false} LastRoundIs(s: Block, k: Block)
    ensures LastRound(s, k) == AddRoundKey(ShiftRows(SubBytes(s)), k)
  {
    assert RoundIsWith(1, s, k, LastRound(s, k), k);
  }

  lemma {:induction false} InvRoundIsBackward(s: Block, k: Block)
    ensures InvRound(s, k) == Backward(s, k)
  {
    assert RoundIsWith(2, s, k, InvRound(s, k), k);
  }

  lemma {:induction false} InvLastRoundIs(s: Block, k: Block)
    ensures InvLastRound(s, k) == AddRoundKey(InvSubBytes(InvShiftRows(s)), k)
  {
    assert RoundIsWith(3, s, k, InvLastRound(s, k), k);
  }

  /** The state after r rounds. */
  ghost function Rounds(key: Block, s: Block, r: nat): Block {
    if r == 0 then AddRoundKey(s, RoundKey(key, 0)) else Round(Rounds(key, s, r - 1), RoundKey(key, r))
  }

  /** Nine rounds and a last one without mixing. */
  ghost function Cipher(key: Block, s: Block): Block {
    LastRound(Rounds(key, s, 9), RoundKey(key, 10))
  }

  ghost function InvRounds(key: Block, s: Block, r: nat): Block
    requires r <= 10
  {
    if r == 0 then AddRoundKey(s, RoundKey(key, 10)) else InvRound(InvRounds(key, s, r - 1), RoundKey(key, 10 - r))
  }

  ghost function InvCipher(key: Block, s: Block): Block {
    InvLastRound(InvRounds(key, s, 9), RoundKey(key, 0))
  }

  lemma {:induction false} SubShiftUndone(s: Block)
    ensures InvSubBytes(InvShiftRows(ShiftRows(SubBytes(s)))) == s
  {
    InvShiftRowsOfShiftRows(SubBytes(s));
    InvSubBytesOfSubBytes(s);
  }

  /** One round undone, up to the substitution and shift before it. */
  lemma {:induction false} RoundUndone(s: Block, k: Block)
    ensures InvRound(ShiftRows(SubBytes(Round(s, k))), k) == ShiftRows(SubBytes(s))
  {
    var t := Round(s, k);
    InvRoundIsBackward(ShiftRows(SubBytes(t)), k);
    SubShiftUndone(t);
    RoundIsForward(s, k);
    AddRoundKeyTwice(MixColumns(ShiftRows(SubBytes(s))), k);
    InvMixColumnsOfMixColumns(ShiftRows(SubBytes(s)));
  }

  /** After r inverse rounds the state is what it was before round 10 - r mixed its columns. */
  lemma {:induction false} InvRoundsUndo(key: Block, s: Block, r: nat)
    requires r <= 9
    ensures InvRounds(key, Cipher(key, s), r) == ShiftRows(SubBytes(Rounds(key, s, 9 - r)))
  {
    if r == 0 {
      LastRoundIs(Rounds(key, s, 9), RoundKey(key, 10));
      AddRoundKeyTwice(ShiftRows(SubBytes(Rounds(key, s, 9))), RoundKey(key, 10));
    } else {
      InvRoundsUndo(key, s, r - 1);
      RoundUndone(Rounds(key, s, 9 - r), RoundKey(key, 10 - r));
    }
  }

  /** Decryption undoes encryption. */
  lemma {:induction false} InvCipherOfCipher(key: Block, s: Block)
    ensures InvCipher(key, Cipher(key, s)) == s
  {
    InvRoundsUndo(key, s, 9);
    InvLastRoundIs(InvRounds(key, Cipher(key, s), 9), RoundKey(key, 0));
    SubShiftUndone(Rounds(key, s, 0));
    AddRoundKeyTwice(s, RoundKey(key, 0));
  }

  // ---------- blocks ----------

  /** Bytes fill the state column by column. */
  function Transpose(b: Block): Block {
    seq(16, n requires 0 <= n < 16 => At(b, n % 4, n / 4))
  }

  lemma {:induction false} TransposeTwice(b: Block)
    ensures Transpose(Transpose(b)) == b
  {
    forall i, j | 0 <= i < 4 && 0 <= j < 4
      ensures At(Transpose(Transpose(b)), i, j) == At(b, i, j)
    {
      RowColumn(i, j);
      RowColumn(j, i);
    }
    SameState(Transpose(Transpose(b)), b);
  }

  ghost function EncryptBlock(key: Block, b: Block): Block {
    Transpose(Cipher(key, Transpose(b)))
  }

  ghost function DecryptBlock(key: Block, b: Block): Block {
    Transpose(InvCipher(key, Transpose(b)))
  }

  lemma {:induction false} DecryptBlockOfEncryptBlock(key: Block, b: Block)
    ensures DecryptBlock(key, EncryptBlock(key, b)) == b
  {
    TransposeTwice(Cipher(key, Transpose(b)));
    InvCipherOfCipher(key, Transpose(b));
    TransposeTwice(b);
  }

  method LoadStateArray(state: array2<Octet>, input: Block)
    requires Square(state)
    modifies state
    ensures Holds(state, Transpose(input))
  {
    ghost var t := Transpose(input);
    for i := 0 to 4
      invariant forall n :: 0 <= n < 16 && n % 4 < i ==> Cell(state, n) == t[n]
    {
      for j := 0 to 4
        invariant forall n :: 0 <= n < 16 && (n % 4 < i || (n % 4 == i && n / 4 < j)) ==> Cell(state, n) == t[n]
      {
        RowColumn(j, i);
        state[j, i] := At(input, i, j);
      }
    }
  }

  method StoreStateArray(state: array2<Octet>, ghost s: Block) returns (out: Block)
    requires Holds(state, s)
    ensures out == Transpose(s)
  {
    var tmp := Copy(state, s);
    out := Transpose(tmp);
  }

  /** One block with the expanded key. */
  method Encrypt(aesKey: AesKey, state: array2<Octet>, ghost key: Block, input: Block) returns (out: Block)
    requires aesKey.Encrypts(key, 44) && Square(state)
    modifies state
    ensures out == EncryptBlock(key, input)
  {
    var rk := 0;
    ghost var s := Transpose(input);
    LoadStateArray(state, input);
    EncryptionRound(aesKey, key, 0);
    AddTheRoundKey(state, aesKey.eK, rk, key, 0, s);
    for j := 1 to 10
      invariant rk == 4 * (j - 1) && Holds(state, Rounds(key, s, j - 1))
    {
      rk := rk + 4;
      EncryptRound(aesKey, state, rk, key, Rounds(key, s, j - 1), j);
    }
    EncryptLastRound(aesKey, state, rk + 4, key, Rounds(key, s, 9));
    out := StoreStateArray(state, Cipher(key, s));
  }

  method EncryptLastRound(aesKey: AesKey, state: array2<Octet>, rk: nat, ghost key: Block, ghost t: Block)
    requires aesKey.Encrypts(key, 44) && rk == 40 && Holds(state, t)
    modifies state
    ensures Holds(state, LastRound(t, RoundKey(key, 10)))
  {
    EncryptionRound(aesKey, key, 10);
    SubstituteBytes(state, t);
    ShiftTheRows(state, SubBytes(t));
    AddTheRoundKey(state, aesKey.eK, rk, key, 10, ShiftRows(SubBytes(t)));
    LastRoundIs(t, RoundKey(key, 10));
  }

  method EncryptRound(aesKey: AesKey, state: array2<Octet>, rk: nat, ghost key: Block, ghost t: Block, ghost j: nat)
    requires aesKey.Encrypts(key, 44) && 1 <= j < 10 && rk == 4 * j && Holds(state, t)
    modifies state
    ensures Holds(state, Round(t, RoundKey(key, j)))
  {
    EncryptionRound(aesKey, key, j);
    SubstituteBytes(state, t);
    ShiftTheRows(state, SubBytes(t));
    MixTheColumns(state, ShiftRows(SubBytes(t)));
    AddTheRoundKey(state, aesKey.eK, rk, key, j, MixColumns(ShiftRows(SubBytes(t))));
    RoundIsForward(t, RoundKey(key, j));
  }

  lemma {:induction false} EncryptionRound(aesKey: AesKey, key: Block, r: nat)
    requires aesKey.Encrypts(key, 44) && r <= 10
    ensures HasRound(aesKey.eK, 4 * r, key, r)
  {
  }

  lemma {:induction false} DecryptionRound(aesKey: AesKey, key: Block, r: nat)
    requires aesKey.Decrypts(key, 11) && r <= 10
    ensures HasRound(aesKey.dK, 4 * r, key, 10 - r)
  {
    var rk, q := 4 * r, 10 - r;
    forall j | 0 <= j < 4
      ensures HasWord(aesKey.dK, rk, key, q, j)
    {
      assert aesKey.DecryptsAt(key, r, j);
    }
  }

  method Decrypt(aesKey: AesKey, state: array2<Octet>, ghost key: Block, input: Block) returns (out: Block)
    requires aesKey.Decrypts(key, 11) && Square(state)
    modifies state
    ensures out == DecryptBlock(key, input)
  {
    var rk := 0;
    ghost var s := Transpose(input);
    LoadStateArray(state, input);
    DecryptionRound(aesKey, key, 0);
    AddTheRoundKey(state, aesKey.dK, rk, key, 10, s);
    for j := 1 to 10
      invariant rk == 4 * (j - 1) && Holds(state, InvRounds(key, s, j - 1))
    {
      rk := rk + 4;
      DecryptRound(aesKey, state, rk, key, InvRounds(key, s, j - 1), j);
    }
    DecryptLastRound(aesKey, state, rk + 4, key, InvRounds(key, s, 9));
    out := StoreStateArray(state, InvCipher(key, s));
  }

  method DecryptRound(aesKey: AesKey, state: array2<Octet>, rk: nat, ghost key: Block, ghost t: Block, ghost j: nat)
    requires aesKey.Decrypts(key, 11) && 1 <= j < 10 && rk == 4 * j && Holds(state, t)
    modifies state
    ensures Holds(state, InvRound(t, RoundKey(key, 10 - j)))
  {
    DecryptionRound(aesKey, key, j);
    InvShiftTheRows(state, t);
    InvSubstituteBytes(state, InvShiftRows(t));
    AddTheRoundKey(state, aesKey.dK, rk, key, 10 - j, InvSubBytes(InvShiftRows(t)));
    InvMixTheColumns(state, AddRoundKey(InvSubBytes(InvShiftRows(t)), RoundKey(key, 10 - j)));
    InvRoundIsBackward(t, RoundKey(key, 10 - j));
  }

  method DecryptLastRound(aesKey: AesKey, state: array2<Octet>, rk: nat, ghost key: Block, ghost t: Block)
    requires aesKey.Decrypts(key, 11) && rk == 40 && Holds(state, t)
    modifies state
    ensures Holds(state, InvLastRound(t, RoundKey(key, 0)))
  {
    DecryptionRound(aesKey, key, 10);
    InvShiftTheRows(state, t);
    InvSubstituteBytes(state, InvShiftRows(t));
    AddTheRoundKey(state, aesKey.dK, rk, key, 0, InvSubBytes(InvShiftRows(t)));
    InvLastRoundIs(t, RoundKey(key, 0));
  }

  /** Block m of a byte string. */
  function BlockAt(bytes: seq<Octet>, m: nat): Block
    requires 16 * m + 16 <= |bytes|
  {
    bytes[16 * m..16 * m + 16]
  }

  ghost predicate EncryptedAt(key: Block, input: seq<Octet>, ct: seq<Octet>, m: nat)
    requires 16 * m + 16 <= |input| && 16 * m + 16 <= |ct|
  {
    BlockAt(ct, m) == EncryptBlock(key, BlockAt(input, m))
  }

  /** Encrypts every whole block of the input; bytes after the last one are left out. */
  method AesEncrypt(input: seq<Octet>, key: Block, ct: array<Octet>)
    requires |input| / BLOCKSIZE * BLOCKSIZE <= ct.Length
    modifies ct
    ensures forall m :: 0 <= m < |input| / BLOCKSIZE ==> EncryptedAt(key, input, ct[..], m)
    ensures ct[|input| / BLOCKSIZE * BLOCKSIZE..] == old(ct[|input| / BLOCKSIZE * BLOCKSIZE..])
  {
    var aesKey := new AesKey();
    var state := new Octet[4, 4]((i, j) => ZERO);
    aesKey.KeyExpansion(key);
    var blockCount := |input| / BLOCKSIZE;
    for i := 0 to blockCount
      invariant aesKey.Encrypts(key, 44)
      invariant forall m :: 0 <= m < i ==> EncryptedAt(key, input, ct[..], m)
      invariant forall n :: 16 * i <= n < ct.Length ==> ct[n] == old(ct[n])
    {
      var out := Encrypt(aesKey, state, key, BlockAt(input, i));
      ghost var before := ct[..];
      StoreBlock(ct, i, out);
      forall m | 0 <= m <= i
        ensures EncryptedAt(key, input, ct[..], m)
      {
        if m < i {
          assert EncryptedAt(key, input, before, m);
          SameBlock(before, ct[..], m);
        }
      }
    }
  }

  lemma {:induction false} SameBlock(a: seq<Octet>, b: seq<Octet>, m: nat)
    requires 16 * m + 16 <= |a| && |a| == |b| && forall n :: 16 * m <= n < 16 * m + 16 ==> a[n] == b[n]
    ensures BlockAt(a, m) == BlockAt(b, m)
  {
  }

  method StoreBlock(ct: array<Octet>, i: nat, out: Block)
    requires 16 * i + 16 <= ct.Length
    modifies ct
    ensures BlockAt(ct[..], i) == out
    ensures forall n :: 0 <= n < ct.Length && (n < 16 * i || n >= 16 * i + 16) ==> ct[n] == old(ct[n])
  {
    forall n | 0 <= n < 16 {
      ct[16 * i + n] := out[n];
    }
  }

  /** Decrypts exactly one block. */
  method AesDecrypt(key: Block, ct: Block) returns (pt: Block)
    ensures pt == DecryptBlock(key, ct)
  {
    var aesKey := new AesKey();
    var state := new Octet[4, 4]((i, j) => ZERO);
    aesKey.KeyExpansion(key);
    pt := Decrypt(aesKey, state, key, ct);
  }

  /** Every block of a ciphertext decrypts to the block of the plaintext. */
  method EncryptThenDecrypt(input: seq<Octet>, key: Block) returns (blocks: seq<Block>)
    ensures |blocks| == |input| / 16 && forall m :: 0 <= m < |blocks| ==> blocks[m] == BlockAt(input, m)
  {
    var ct := new Octet[|input| / 16 * 16](_ => ZERO);
    AesEncrypt(input, key, ct);
    var bytes := ct[..];
    blocks := [];
    for m := 0 to |input| / 16
      invariant forall k :: 0 <= k < |input| / 16 ==> EncryptedAt(key, input, bytes, k)
      invariant |blocks| == m && forall k :: 0 <= k < m ==> blocks[k] == BlockAt(input, k)
    {
      assert EncryptedAt(key, input, bytes, m);
      var pt := AesDecrypt(key, BlockAt(bytes, m));
      DecryptBlockOfEncryptBlock(key, BlockAt(input, m));
      blocks := blocks + [pt];
    }
  }
}
