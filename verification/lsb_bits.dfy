/**
 Bit streams that start with the least significant bit of each byte, as deflate and GIF use them:
 numbers are stored low bit first, code words high bit first, and reversal leads from one to the other.
 */
module LsbBits {
  import opened Bits

  function Bit(b: bool): (v: nat)
    ensures v <= 1
  {
    if b then 1 else 0
  }

  /** The low n bits of v, least significant first. */
  ghost function LowFirst(v: nat, n: nat): (b: BitString)
    ensures |b| == n
    decreases n, v
  {
    if n == 0 then [] else [v % 2 == 1] + LowFirst(v / 2, n - 1)
  }

  /** The bits of a byte string, least significant bit of each byte first. */
  ghost function StreamOf(bytes: seq<Byte>): (d: BitString)
    ensures |d| == 8 * |bytes|
  {
    if bytes == [] then [] else LowFirst(bytes[0], 8) + StreamOf(bytes[1..])
  }

  /** The number in n bits from position p of d, low bit first; d continues with zeros. */
  ghost function Field(d: BitString, p: nat, n: nat): (v: nat)
    ensures v < Pow2(n)
    decreases n, d
  {
    if n == 0 then 0 else Bit(At(d, p)) + 2 * Field(d, p + 1, n - 1)
  }

  /** The low n bits of v in reverse order. */
  function Rev(v: nat, n: nat): nat {
    if n == 0 then 0 else Shl(v % 2, n - 1) + Rev(v / 2, n - 1)
  }

  lemma {:induction false} FieldLow(d: BitString, p: nat, n: nat, k: nat)
    requires k <= n
    ensures Low(Field(d, p, n), k) == Field(d, p, k)
    decreases n
  {
    if k > 0 {
      FieldLow(d, p + 1, n - 1, k - 1);
    }
  }

  lemma {:induction false} FieldShr(d: BitString, p: nat, n: nat, k: nat)
    requires k <= n
    ensures Shr(Field(d, p, n), k) == Field(d, p + k, n - k)
    decreases n
  {
    if k > 0 {
      FieldShr(d, p + 1, n - 1, k - 1);
    }
  }

  lemma {:induction false} FieldSplit(d: BitString, p: nat, a: nat, b: nat)
    ensures Field(d, p, a + b) == Field(d, p, a) + Shl(Field(d, p + a, b), a)
    decreases a
  {
    if a > 0 {
      FieldSplit(d, p + 1, a - 1, b);
    }
  }

  lemma {:induction false} FieldPast(d: BitString, p: nat, n: nat)
    requires p >= |d|
    ensures Field(d, p, n) == 0
    decreases n
  {
    if n > 0 {
      FieldPast(d, p + 1, n - 1);
    }
  }

  /** Positions count from the start of a suffix when its offset is taken off. */
  lemma {:induction false} FieldTail(d: BitString, k: nat, p: nat, n: nat)
    requires k <= |d|
    ensures Field(d, k + p, n) == Field(d[k..], p, n)
    decreases n
  {
    if n > 0 {
      assert At(d, k + p) == At(d[k..], p);
      FieldTail(d, k, p + 1, n - 1);
    }
  }

  lemma {:induction false} FieldOfLowFirst(v: nat, n: nat, d: BitString)
    requires v < Pow2(n) && LowFirst(v, n) <= d
    ensures Field(d, 0, n) == v
    decreases n
  {
    if n > 0 {
      assert d[0] == (v % 2 == 1);
      assert LowFirst(v / 2, n - 1) == LowFirst(v, n)[1..];
      FieldOfLowFirst(v / 2, n - 1, d[1..]);
      FieldTail(d, 1, 0, n - 1);
    }
  }

  /** Byte i of a string is the number in its eight bits of the stream. */
  lemma {:induction false} StreamByte(bytes: seq<Byte>, i: nat)
    requires i < |bytes|
    ensures Field(StreamOf(bytes), 8 * i, 8) == bytes[i]
  {
    if i == 0 {
      StreamFirst(bytes);
    } else {
      StreamByte(bytes[1..], i - 1);
      StreamShift(bytes, i - 1);
    }
  }

  /** Bit k of byte i, the lowest being bit 0, stands at place 8 i + k (RFC 1951 section 3.1.1). */
  lemma {:induction false} StreamBit(bytes: seq<Byte>, i: nat, k: nat)
    requires i < |bytes| && k < 8
    ensures StreamOf(bytes)[8 * i + k] <==> Shr(bytes[i], k) % 2 == 1
  {
    var d, p := StreamOf(bytes), 8 * i;
    StreamByte(bytes, i);
    FieldShr(d, p, 8, k);
    LowestBit(d, p + k, 8 - k);
  }

  lemma {:induction false} LowestBit(d: BitString, p: nat, n: nat)
    requires n > 0
    ensures Field(d, p, n) % 2 == Bit(At(d, p))
  {
  }

  /** d is the stream of the bytes. */
  ghost predicate Streams(bytes: seq<Byte>, d: BitString) {
    |d| == 8 * |bytes| && forall i :: 0 <= i < |bytes| ==> StreamsAt(bytes, d, i)
  }

  ghost predicate StreamsAt(bytes: seq<Byte>, d: BitString, i: nat)
    requires i < |bytes|
  {
    Field(d, 8 * i, 8) == bytes[i]
  }

  lemma {:induction false} StreamStreams(bytes: seq<Byte>)
    ensures Streams(bytes, StreamOf(bytes))
  {
    forall i | 0 <= i < |bytes|
      ensures StreamsAt(bytes, StreamOf(bytes), i)
    {
      StreamByte(bytes, i);
    }
  }

  lemma {:induction false} StreamFirst(bytes: seq<Byte>)
    requires bytes != []
    ensures Field(StreamOf(bytes), 0, 8) == bytes[0]
  {
    Pow2Values();
    FieldOfLowFirst(bytes[0], 8, StreamOf(bytes));
  }

  lemma {:induction false} StreamShift(bytes: seq<Byte>, j: nat)
    requires bytes != []
    ensures Field(StreamOf(bytes), 8 * j + 8, 8) == Field(StreamOf(bytes[1..]), 8 * j, 8)
  {
    StreamRest(bytes);
    FieldTail(StreamOf(bytes), 8, 8 * j, 8);
  }

  lemma {:induction false} StreamRest(bytes: seq<Byte>)
    requires bytes != []
    ensures StreamOf(bytes)[8..] == StreamOf(bytes[1..])
  {
  }

  lemma {:induction false} OrZero(v: nat)
    ensures BitOr(0, v) == v
  {
    if v > 0 {
      OrZero(v / 2);
    }
  }

  /** Or with bits above the others is their sum. */
  lemma {:induction false} OrAbove(r: nat, v: nat, n: nat)
    requires r < Pow2(n)
    ensures BitOr(r, Shl(v, n)) == r + Shl(v, n)
  {
    if n > 0 {
      OrAbove(r / 2, v, n - 1);
    } else {
      OrZero(v);
    }
  }

  /** A byte pushed above n buffered bits extends the field that the buffer holds. */
  lemma {:induction false} FieldPush(d: BitString, p: nat, n: nat, byte: nat)
    requires Field(d, p + n, 8) == byte
    ensures BitOr(Field(d, p, n), Shl(byte, n)) == Field(d, p, n + 8)
  {
    FieldSplit(d, p, n, 8);
    OrAbove(Field(d, p, n), byte, n);
  }

  /** Zeros past the end count as buffered bits. */
  lemma {:induction false} FieldPadded(d: BitString, p: nat, n: nat, m: nat)
    requires p + n >= |d|
    ensures Field(d, p, n + m) == Field(d, p, n)
  {
    FieldSplit(d, p, n, m);
    FieldPast(d, p + n, m);
    ShlIsMul(0, n);
  }

  // ---------- reversal ----------

  lemma {:induction false} RevField(d: BitString, p: nat, n: nat)
    ensures Rev(Field(d, p, n), n) == Peek(d, p, n)
    decreases n
  {
    if n > 0 {
      RevField(d, p + 1, n - 1);
      PeekSplit(d, p, 1, n - 1);
      assert Peek(d, p, 1) == Bit(At(d, p));
    }
  }

  lemma {:induction false} RevPeek(d: BitString, p: nat, n: nat)
    ensures Rev(Peek(d, p, n), n) == Field(d, p, n)
  {
    if n > 0 {
      RevPeek(d, p, n - 1);
      FieldSplit(d, p, n - 1, 1);
      assert Field(d, p + n - 1, 1) == Bit(At(d, p + n - 1));
    }
  }

  lemma {:induction false} PeekAll(v: nat, n: nat)
    requires v < Pow2(n)
    ensures Peek(FromVal(v, n), 0, n) == v
  {
    PeekIsVal(FromVal(v, n), 0, FromVal(v, n));
    ValOfFromVal(v, n);
  }

  lemma {:induction false} RevRev(v: nat, n: nat)
    requires v < Pow2(n)
    ensures Rev(Rev(v, n), n) == v && Rev(v, n) < Pow2(n)
  {
    var d := FromVal(v, n);
    PeekAll(v, n);
    RevPeek(d, 0, n);
    RevField(d, 0, n);
  }

  /** A code word, high bit first, stands at p exactly when its reversal is the field there. */
  lemma {:induction false} WordAt(d: BitString, p: nat, n: nat, code: nat)
    requires code < Pow2(n)
    ensures Field(d, p, n) == Rev(code, n) <==> Peek(d, p, n) == code
  {
    RevField(d, p, n);
    RevPeek(d, p, n);
    RevRev(code, n);
  }

  lemma {:induction false} RevSplit(v: nat, a: nat, b: nat)
    ensures Rev(v, a + b) == Shl(Rev(v, a), b) + Rev(Shr(v, a), b)
  {
    if a > 0 {
      RevSplit(v / 2, a - 1, b);
      ShlSum(Shl(v % 2, a - 1), Rev(v / 2, a - 1), b);
      ShlAdd(v % 2, a - 1, b);
    } else {
      ShlIsMul(0, b);
    }
  }

  lemma {:induction false} RevZero(n: nat)
    ensures Rev(0, n) == 0
  {
    if n > 0 {
      RevZero(n - 1);
      ShlIsMul(0, n - 1);
    }
  }

  /** Reversing in a wider register and shifting back. */
  lemma {:induction false} RevNarrow(v: nat, n: nat, w: nat)
    requires v < Pow2(n) && n <= w
    ensures Shr(Rev(v, w), w - n) == Rev(v, n)
  {
    RevSplit(v, n, w - n);
    ShrOfShl(0, v, n);
    ShlIsMul(0, n);
    RevZero(w - n);
    ShrOfShl(Rev(v, n), 0, w - n);
  }

  lemma {:induction false} LowShr(v: nat, n: nat)
    ensures v == Shl(Shr(v, n), n) + Low(v, n)
  {
    if n > 0 {
      LowShr(v / 2, n - 1);
    }
  }

  lemma {:induction false} RevLow(v: nat, n: nat)
    ensures Rev(Low(v, n), n) == Rev(v, n)
  {
    if n > 0 {
      RevLow(v / 2, n - 1);
    }
  }

  // ---------- the swap network ----------

  /** Bitwise and on natural numbers of any width. */
  function BitAnd(a: nat, b: nat): nat {
    if a == 0 || b == 0 then 0
    else 2 * BitAnd(a / 2, b / 2) + (if a % 2 == 1 && b % 2 == 1 then 1 else 0)
  }

  /** Bit i of v. */
  ghost predicate Has(v: nat, i: nat) {
    Shr(v, i) % 2 == 1
  }

  /** Swaps the bits that two masks of neighbouring w-bit groups select. */
  function Swap(n: nat, high: nat, low: nat, w: nat): nat {
    BitOr(Shr(BitAnd(n, high), w), Shl(BitAnd(n, low), w))
  }

  /** Reverses the low sixteen bits of a register. */
  function BitReverse16(n: nat): nat {
    var n1 := Swap(n, 0xAAAA, 0x5555, 1);
    var n2 := Swap(n1, 0xCCCC, 0x3333, 2);
    var n3 := Swap(n2, 0xF0F0, 0x0F0F, 4);
    Swap(n3, 0xFF00, 0x00FF, 8)
  }

  lemma {:induction false} HasAnd(a: nat, b: nat, i: nat)
    ensures Has(BitAnd(a, b), i) <==> Has(a, i) && Has(b, i)
    decreases i
  {
    if i > 0 {
      HasAnd(a / 2, b / 2, i - 1);
      assert a == 0 || b == 0 ==> BitAnd(a / 2, b / 2) == 0;
    }
  }

  lemma {:induction false} HasOr(a: nat, b: nat, i: nat)
    ensures Has(BitOr(a, b), i) <==> Has(a, i) || Has(b, i)
    decreases i
  {
    OrHalf(a, b);
    if i > 0 {
      HasOr(a / 2, b / 2, i - 1);
      HasHalf(a, i);
      HasHalf(b, i);
      HasHalf(BitOr(a, b), i);
    }
  }

  /** The lowest bit of a disjunction, and the others. */
  lemma {:induction false} OrHalf(a: nat, b: nat)
    ensures BitOr(a, b) / 2 == BitOr(a / 2, b / 2)
    ensures BitOr(a, b) % 2 == 1 <==> a % 2 == 1 || b % 2 == 1
  {
    if a == 0 && b == 0 {
      assert BitOr(a / 2, b / 2) == 0;
    }
  }

  lemma {:induction false} HasHalf(v: nat, i: nat)
    requires i > 0
    ensures Has(v, i) <==> Has(v / 2, i - 1)
  {
  }

  lemma {:induction false} HasShr(v: nat, k: nat, i: nat)
    ensures Has(Shr(v, k), i) <==> Has(v, i + k)
    decreases k
  {
    if k > 0 {
      HasShr(v / 2, k - 1, i);
    }
  }

  lemma {:induction false} HasShl(v: nat, k: nat, i: nat)
    ensures Has(Shl(v, k), i) <==> i >= k && Has(v, i - k)
    decreases k
  {
    if k > 0 {
      if i > 0 {
        HasShl(v, k - 1, i - 1);
      }
    }
  }

  lemma {:induction false} HasSwap(n: nat, high: nat, low: nat, w: nat, i: nat)
    ensures Has(Swap(n, high, low, w), i)
        <==> (Has(n, i + w) && Has(high, i + w)) || (i >= w && Has(n, i - w) && Has(low, i - w))
  {
    HasOr(Shr(BitAnd(n, high), w), Shl(BitAnd(n, low), w), i);
    HasShr(BitAnd(n, high), w, i);
    HasShl(BitAnd(n, low), w, i);
    HasAnd(n, high, i + w);
    if i >= w {
      HasAnd(n, low, i - w);
    }
  }

  /** The bits of a sum of disjoint parts. */
  lemma {:induction false} HasSum(v: nat, r: nat, n: nat, i: nat)
    requires r < Pow2(n)
    ensures Has(Shl(v, n) + r, i) <==> if i < n then Has(r, i) else Has(v, i - n)
    decreases n
  {
    if n > 0 && i > 0 {
      HasSum(v, r / 2, n - 1, i - 1);
    }
  }

  /** m groups of w ones, each below w zeros. */
  function Groups(w: nat, m: nat): nat {
    if m == 0 then 0 else Shl(Groups(w, m - 1), 2 * w) + (Pow2(w) - 1)
  }

  /** Bit i lies in the lower half of one of m groups of 2w bits. */
  predicate Lower(w: nat, m: nat, i: nat) {
    m > 0 && (i < w || (i >= 2 * w && Lower(w, m - 1, i - 2 * w)))
  }

  /** The bit that a stage with m groups of 2w bits moves to place i. */
  function Partner(w: nat, m: nat, i: nat): nat {
    if Lower(w, m, i) then i + w else if i >= w then i - w else 0
  }

  lemma {:induction false} HasOnes(w: nat, i: nat)
    ensures Has(Pow2(w) - 1, i) <==> i < w
    decreases i
  {
    if w > 0 && i > 0 {
      HasOnes(w - 1, i - 1);
    } else if w == 0 {
      HasNone(i);
    }
  }

  lemma {:induction false} HasNone(i: nat)
    ensures !Has(0, i)
  {
    if i > 0 {
      HasNone(i - 1);
    }
  }

  lemma {:induction false} HasGroups(w: nat, m: nat, i: nat)
    ensures Has(Groups(w, m), i) <==> Lower(w, m, i)
  {
    if m == 0 {
      HasNone(i);
    } else {
      Pow2Mono(w, 2 * w);
      HasSum(Groups(w, m - 1), Pow2(w) - 1, 2 * w, i);
      HasOnes(w, i);
      if i >= 2 * w {
        HasGroups(w, m - 1, i - 2 * w);
      }
    }
  }

  /** The lower halves alternate with the upper halves up to the last group. */
  lemma {:induction false} Alternate(w: nat, m: nat, n: nat, i: nat)
    requires w > 0 && n == m * w + m * w
    ensures i + w >= n ==> !Lower(w, m, i)
    ensures i >= w && i < n ==> (Lower(w, m, i - w) <==> !Lower(w, m, i))
    ensures i < w && m > 0 ==> Lower(w, m, i)
    decreases m
  {
    if m > 0 {
      assert n == 2 * w + ((m - 1) * w + (m - 1) * w);
      if i >= 2 * w {
        Alternate(w, m - 1, n - 2 * w, i - 2 * w);
      }
    }
  }

  /** The masks of the network are groups covering sixteen bits. */
  lemma {:induction false} Masks()
    ensures Groups(1, 8) == 0x5555 && Shl(0x5555, 1) == 0xAAAA
    ensures Groups(2, 4) == 0x3333 && Shl(0x3333, 2) == 0xCCCC
    ensures Groups(4, 2) == 0x0F0F && Shl(0x0F0F, 4) == 0xF0F0
    ensures Groups(8, 1) == 0x00FF && Shl(0x00FF, 8) == 0xFF00
  {
    NarrowMasks();
    WideMasks();
  }

  lemma {:induction false} NarrowMasks()
    ensures Groups(1, 8) == 0x5555 && Shl(0x5555, 1) == 0xAAAA
    ensures Groups(2, 4) == 0x3333 && Shl(0x3333, 2) == 0xCCCC
  {
  }

  lemma {:induction false} WideMasks()
    ensures Groups(4, 2) == 0x0F0F && Shl(0x0F0F, 4) == 0xF0F0
    ensures Groups(8, 1) == 0x00FF && Shl(0x00FF, 8) == 0xFF00
  {
  }

  /** One stage exchanges the halves of every group. */
  lemma {:induction false} HasStage(n: nat, w: nat, m: nat, i: nat)
    requires w > 0 && m * w + m * w == 16
    ensures Has(Swap(n, Shl(Groups(w, m), w), Groups(w, m), w), i) <==> i < 16 && Has(n, Partner(w, m, i))
  {
    HasSwap(n, Shl(Groups(w, m), w), Groups(w, m), w, i);
    HasShl(Groups(w, m), w, i + w);
    HasGroups(w, m, i);
    Alternate(w, m, 16, i);
    if i >= w {
      HasGroups(w, m, i - w);
      Alternate(w, m, 16, i - w);
    }
  }

  lemma {:induction false} LowerEight(i: nat)
    ensures Lower(8, 1, i) <==> i < 8
  {
    assert i >= 16 ==> !Lower(8, 0, i - 16);
  }

  lemma {:induction false} LowerFour(i: nat)
    ensures Lower(4, 2, i) <==> i < 4 || 8 <= i < 12
  {
    assert i >= 8 ==> (Lower(4, 1, i - 8) <==> i < 12 || (i >= 16 && Lower(4, 0, i - 16)));
  }

  lemma {:induction false} LowerTwo(i: nat)
    ensures Lower(2, 4, i) <==> i < 2 || 4 <= i < 6 || 8 <= i < 10 || 12 <= i < 14
  {
    assert i >= 4 ==> (Lower(2, 3, i - 4) <==> i < 6 || (i >= 8 && Lower(2, 2, i - 8)));
    assert i >= 8 ==> (Lower(2, 2, i - 8) <==> i < 10 || (i >= 12 && Lower(2, 1, i - 12)));
    assert i >= 12 ==> (Lower(2, 1, i - 12) <==> i < 14 || (i >= 16 && Lower(2, 0, i - 16)));
  }

  lemma {:induction false} LowerOne(i: nat)
    ensures Lower(1, 8, i) <==> i in {0, 2, 4, 6, 8, 10, 12, 14}
  {
    assert i >= 2 ==> (Lower(1, 7, i - 2) <==> i < 3 || (i >= 4 && Lower(1, 6, i - 4)));
    assert i >= 4 ==> (Lower(1, 6, i - 4) <==> i < 5 || (i >= 6 && Lower(1, 5, i - 6)));
    assert i >= 6 ==> (Lower(1, 5, i - 6) <==> i < 7 || (i >= 8 && Lower(1, 4, i - 8)));
    assert i >= 8 ==> (Lower(1, 4, i - 8) <==> i < 9 || (i >= 10 && Lower(1, 3, i - 10)));
    assert i >= 10 ==> (Lower(1, 3, i - 10) <==> i < 11 || (i >= 12 && Lower(1, 2, i - 12)));
    assert i >= 12 ==> (Lower(1, 2, i - 12) <==> i < 13 || (i >= 14 && Lower(1, 1, i - 14)));
    assert i >= 14 ==> (Lower(1, 1, i - 14) <==> i < 15 || (i >= 16 && Lower(1, 0, i - 16)));
  }

  /** The four exchanges together reverse the order. */
  lemma {:induction false} Network(i: nat)
    requires i < 16
    ensures Partner(1, 8, Partner(2, 4, Partner(4, 2, Partner(8, 1, i)))) == 15 - i
  {
    LowerEight(i);
    var i3 := Partner(8, 1, i);
    LowerFour(i3);
    var i2 := Partner(4, 2, i3);
    LowerTwo(i2);
    LowerOne(Partner(2, 4, i2));
  }

  lemma {:induction false} HasReverse(n: nat, i: nat)
    ensures Has(BitReverse16(n), i) <==> i < 16 && Has(n, 15 - i)
  {
    Masks();
    var n1 := Swap(n, 0xAAAA, 0x5555, 1);
    var n2 := Swap(n1, 0xCCCC, 0x3333, 2);
    var n3 := Swap(n2, 0xF0F0, 0x0F0F, 4);
    HasStage(n3, 8, 1, i);
    if i < 16 {
      var i3 := Partner(8, 1, i);
      var i2 := Partner(4, 2, i3);
      HasStage(n2, 4, 2, i3);
      HasStage(n1, 2, 4, i2);
      HasStage(n, 1, 8, Partner(2, 4, i2));
      Network(i);
      PartnerBelow(i);
    }
  }

  lemma {:induction false} PartnerBelow(i: nat)
    requires i < 16
    ensures Partner(8, 1, i) < 16 && Partner(4, 2, Partner(8, 1, i)) < 16
    ensures Partner(2, 4, Partner(4, 2, Partner(8, 1, i))) < 16
  {
    LowerEight(i);
    var i3 := Partner(8, 1, i);
    LowerFour(i3);
    LowerTwo(Partner(4, 2, i3));
  }

  lemma {:induction false} HasRev(v: nat, n: nat, i: nat)
    ensures Rev(v, n) < Pow2(n)
    ensures Has(Rev(v, n), i) <==> i < n && Has(v, n - 1 - i)
    decreases n
  {
    if n == 0 {
      HasNone(i);
    } else {
      HasRev(v / 2, n - 1, i);
      ShlBelowSum(v % 2, 1, Rev(v / 2, n - 1), n - 1);
      HasSum(v % 2, Rev(v / 2, n - 1), n - 1, i);
      if i >= n {
        HasSmall(v % 2, i - n + 1);
      }
    }
  }

  lemma {:induction false} HasSmall(b: nat, i: nat)
    requires b < 2 && i > 0
    ensures !Has(b, i)
  {
    HasNone(i - 1);
  }

  lemma {:induction false} SameBits(u: nat, v: nat)
    requires forall i: nat :: Has(u, i) <==> Has(v, i)
    ensures u == v
    decreases u + v
  {
    if u + v > 0 {
      assert Has(u, 0) <==> Has(v, 0);
      forall i: nat
        ensures Has(u / 2, i) <==> Has(v / 2, i)
      {
        assert Has(u, i + 1) <==> Has(v, i + 1);
      }
      SameBits(u / 2, v / 2);
    }
  }

  /** The swap network reverses sixteen bits. */
  lemma {:induction false} BitReverse16Is(n: nat)
    ensures BitReverse16(n) == Rev(n, 16)
  {
    forall i: nat
      ensures Has(BitReverse16(n), i) <==> Has(Rev(n, 16), i)
    {
      HasReverse(n, i);
      HasRev(n, 16, i);
    }
    SameBits(BitReverse16(n), Rev(n, 16));
  }

  /** Reverses a number of the given width, at most sixteen bits. */
  function BitReverse(v: nat, bits: nat): nat
    requires bits <= 16
  {
    Shr(BitReverse16(v), 16 - bits)
  }

  lemma {:induction false} BitReverseIs(v: nat, bits: nat)
    requires bits <= 16 && v < Pow2(bits)
    ensures BitReverse(v, bits) == Rev(v, bits)
  {
    BitReverse16Is(v);
    RevNarrow(v, bits, 16);
  }
}
