/**
 The checksum hhd_crc8 of config.cpp: a cyclic code over bits taken lowest first, with the polynomial
 0x8C.  It is linear, and it notices every burst of up to eight bits and every odd number of wrong bits.
 */
module Crc8 {
  import opened Octets

  /** Shifts a bit out and adds the polynomial if it was set. */
  function Step(c: Octet): Octet {
    Octet(c.b0, c.b7, c.b6, c.b5, c.b4 != c.b0, c.b3 != c.b0, c.b2, c.b1)
  }

  const POLYNOMIAL := Octet(true, false, false, false, true, true, false, false)

  function Steps(c: Octet, n: nat): Octet
    decreases n, c
  {
    if n == 0 then c else Step(Steps(c, n - 1))
  }

  /** The checksum of the bytes. */
  function Crc(data: seq<Octet>): Octet {
    if data == [] then ZERO else Steps(Add(Crc(data[..|data| - 1]), data[|data| - 1]), 8)
  }

  method HhdCrc8(data: seq<Octet>) returns (crc: Octet)
    ensures crc == Crc(data)
  {
    crc := ZERO;
    for k := 0 to |data|
      invariant crc == Crc(data[..k])
    {
      assert data[..k + 1][..k] == data[..k];
      crc := CrcByte(Add(crc, data[k]));
    }
    assert data[..|data|] == data;
  }

  method CrcByte(c: Octet) returns (crc: Octet)
    ensures crc == Steps(c, 8)
  {
    crc := c;
    for i := 0 to 8
      invariant crc == Steps(c, i)
    {
      StepIs(crc);
      if crc.b0 {
        crc := Add(ShiftRight(crc), POLYNOMIAL);
      } else {
        crc := ShiftRight(crc);
      }
    }
  }

  lemma {:induction false} StepIs(c: Octet)
    ensures Step(c) == if c.b0 then Add(ShiftRight(c), POLYNOMIAL) else ShiftRight(c)
  {
  }

  // ---------- linearity ----------

  lemma {:induction false} StepSum(a: Octet, b: Octet)
    ensures Step(Add(a, b)) == Add(Step(a), Step(b))
  {
  }

  lemma {:induction false} StepsSum(a: Octet, b: Octet, n: nat)
    ensures Steps(Add(a, b), n) == Add(Steps(a, n), Steps(b, n))
  {
    if n > 0 {
      StepsSum(a, b, n - 1);
      StepSum(Steps(a, n - 1), Steps(b, n - 1));
    }
  }

  /** Byte by byte exclusive or. */
  function Xor(d: seq<Octet>, e: seq<Octet>): (r: seq<Octet>)
    requires |d| == |e|
    ensures |r| == |d| && forall i :: 0 <= i < |d| ==> r[i] == Add(d[i], e[i])
  {
    if d == [] then [] else Xor(d[..|d| - 1], e[..|e| - 1]) + [Add(d[|d| - 1], e[|e| - 1])]
  }

  /** The checksum of a sum is the sum of the checksums. */
  lemma {:induction false} CrcSum(d: seq<Octet>, e: seq<Octet>)
    requires |d| == |e|
    ensures Crc(Xor(d, e)) == Add(Crc(d), Crc(e))
  {
    if d != [] {
      var n := |d| - 1;
      assert Xor(d, e)[..n] == Xor(d[..n], e[..n]);
      CrcSum(d[..n], e[..n]);
      AddSwap(Crc(d[..n]), Crc(e[..n]), d[n], e[n]);
      StepsSum(Add(Crc(d[..n]), d[n]), Add(Crc(e[..n]), e[n]), 8);
    } else {
      AddZero(ZERO);
    }
  }

  lemma {:induction false} StepsInjective(a: Octet, b: Octet, n: nat)
    requires Steps(a, n) == Steps(b, n)
    ensures a == b
  {
    if n > 0 {
      StepInjective(Steps(a, n - 1), Steps(b, n - 1));
      StepsInjective(a, b, n - 1);
    }
  }

  lemma {:induction false} StepInjective(a: Octet, b: Octet)
    requires Step(a) == Step(b)
    ensures a == b
  {
  }

  lemma {:induction false} StepsZero(n: nat)
    ensures Steps(ZERO, n) == ZERO
  {
    if n > 0 {
      StepsZero(n - 1);
    }
  }

  lemma {:induction false} NonzeroSteps(c: Octet, n: nat)
    ensures Steps(c, n) == ZERO <==> c == ZERO
  {
    StepsZero(n);
    if Steps(c, n) == ZERO {
      StepsInjective(c, ZERO, n);
    }
  }

  // ---------- bit by bit ----------

  /** The lowest bit flipped if b is set. */
  function AddBit(c: Octet, b: bool): Octet {
    c.(b0 := c.b0 != b)
  }

  /** Bits fed one at a time. */
  function Feed(c: Octet, bits: seq<bool>): Octet {
    if bits == [] then c else Step(AddBit(Feed(c, bits[..|bits| - 1]), bits[|bits| - 1]))
  }

  /** The bits of bytes, lowest first. */
  function BitsOf(data: seq<Octet>): (b: seq<bool>)
    ensures |b| == 8 * |data|
  {
    if data == [] then [] else BitsOf(data[..|data| - 1]) + ByteBits(data[|data| - 1])
  }

  function ByteBits(o: Octet): (b: seq<bool>)
    ensures |b| == 8
  {
    [o.b0, o.b1, o.b2, o.b3, o.b4, o.b5, o.b6, o.b7]
  }

  lemma {:induction false} FeedConcat(c: Octet, a: seq<bool>, b: seq<bool>)
    ensures Feed(c, a + b) == Feed(Feed(c, a), b)
    decreases |b|
  {
    if b == [] {
      assert a + b == a;
    } else {
      assert (a + b)[..|a + b| - 1] == a + b[..|b| - 1];
      FeedConcat(c, a, b[..|b| - 1]);
    }
  }

  /** o shifted right n times. */
  function Shifted(o: Octet, n: nat): Octet {
    match n
    case 0 => o
    case 1 => Octet(false, o.b7, o.b6, o.b5, o.b4, o.b3, o.b2, o.b1)
    case 2 => Octet(false, false, o.b7, o.b6, o.b5, o.b4, o.b3, o.b2)
    case 3 => Octet(false, false, false, o.b7, o.b6, o.b5, o.b4, o.b3)
    case 4 => Octet(false, false, false, false, o.b7, o.b6, o.b5, o.b4)
    case 5 => Octet(false, false, false, false, false, o.b7, o.b6, o.b5)
    case 6 => Octet(false, false, false, false, false, false, o.b7, o.b6)
    case 7 => Octet(false, false, false, false, false, false, false, o.b7)
    case _ => ZERO
  }

  lemma {:induction false} ShiftedNext(o: Octet, k: nat)
    requires k < 8
    ensures Shifted(o, k + 1) == ShiftRight(Shifted(o, k))
  {
    match k {
      case 0 => case 1 => case 2 => case 3 => case 4 => case 5 => case 6 => case _ =>
    }
  }

  lemma {:induction false} ShiftedLowest(o: Octet, k: nat)
    requires k < 8
    ensures Shifted(o, k).b0 == ByteBits(o)[k]
  {
    if k < 4 {
      match k { case 0 => case 1 => case 2 => case _ => }
    } else {
      UpperLowest(o, k);
    }
  }

  lemma {:induction false} UpperLowest(o: Octet, k: nat)
    requires 4 <= k < 8
    ensures Shifted(o, k).b0 == ByteBits(o)[k]
  {
    match k { case 4 => case 5 => case 6 => case _ => }
  }

  /** A bit may be added when its turn comes instead of at the start. */
  lemma {:induction false} OneBit(f: Octet, r: Octet)
    ensures Step(Add(f, r)) == Add(Step(AddBit(f, r.b0)), ShiftRight(r))
  {
  }

  lemma {:induction false} FeedPart(c: Octet, o: Octet, k: nat)
    requires k <= 8
    ensures Steps(Add(c, o), k) == Add(Feed(c, ByteBits(o)[..k]), Shifted(o, k))
  {
    if k > 0 {
      var bits := ByteBits(o)[..k];
      FeedPart(c, o, k - 1);
      ShiftedNext(o, k - 1);
      ShiftedLowest(o, k - 1);
      assert bits[..k - 1] == ByteBits(o)[..k - 1];
      OneBit(Feed(c, bits[..k - 1]), Shifted(o, k - 1));
    }
  }

  /** A byte at once or its bits one at a time. */
  lemma {:induction false} FeedByte(c: Octet, o: Octet)
    ensures Feed(c, ByteBits(o)) == Steps(Add(c, o), 8)
  {
    FeedPart(c, o, 8);
    AddZero(Feed(c, ByteBits(o)));
    assert ByteBits(o)[..8] == ByteBits(o);
  }

  /** The checksum depends on the stream of bits only. */
  lemma {:induction false} CrcIsFeed(data: seq<Octet>)
    ensures Crc(data) == Feed(ZERO, BitsOf(data))
  {
    if data != [] {
      var n := |data| - 1;
      CrcIsFeed(data[..n]);
      FeedConcat(ZERO, BitsOf(data[..n]), ByteBits(data[n]));
      FeedByte(Crc(data[..n]), data[n]);
    }
  }

  // ---------- the remainder ----------

  // Bits stand for polynomials over two elements, highest power first; outside the sequence they are zero.

  predicate At(bits: seq<bool>, i: int) {
    0 <= i < |bits| && bits[i]
  }

  /** Coefficient i, counted from the highest, of q times x^8 + x^5 + x^4 + 1. */
  predicate Product(q: seq<bool>, i: int) {
    ((At(q, i) != At(q, i - 3)) != At(q, i - 4)) != At(q, i - 8)
  }

  /** Divided by x^8 + x^5 + x^4 + 1, the bits followed by eight zeros leave r, whose lowest bit is that of x^7. */
  ghost predicate Divides(bits: seq<bool>, q: seq<bool>, r: Octet) {
    && |q| == |bits|
    && (forall i :: 0 <= i < |bits| ==> bits[i] == Product(q, i))
    && (forall j :: 0 <= j < 8 ==> ByteBits(r)[j] == Product(q, |bits| + j))
  }

  ghost predicate Leaves(bits: seq<bool>, r: Octet) {
    exists q :: Divides(bits, q, r)
  }

  /** The checksum is the remainder of the stream of bits. */
  lemma {:induction false} CrcIsRemainder(data: seq<Octet>, r: Octet)
    ensures Leaves(BitsOf(data), r) <==> r == Crc(data)
  {
    var bits := BitsOf(data);
    var q := FeedDivides(bits);
    CrcIsFeed(data);
    if Leaves(bits, r) {
      var q' :| Divides(bits, q', r);
      SameQuotient(bits, q, q', |bits|);
      assert q == q';
      BitsSame(r, Crc(data));
    }
  }

  lemma {:induction false} BitsSame(a: Octet, b: Octet)
    requires forall j :: 0 <= j < 8 ==> ByteBits(a)[j] == ByteBits(b)[j]
    ensures a == b
  {
    assert ByteBits(a) == ByteBits(b);
  }

  lemma {:induction false} SameQuotient(bits: seq<bool>, q: seq<bool>, q': seq<bool>, n: nat)
    requires n <= |bits| == |q| == |q'|
    requires forall i :: 0 <= i < |bits| ==> bits[i] == Product(q, i) == Product(q', i)
    ensures q[..n] == q'[..n]
    decreases n
  {
    if n > 0 {
      SameQuotient(bits, q, q', n - 1);
      SameBefore(q, q', n - 1, n - 4);
      SameBefore(q, q', n - 1, n - 5);
      SameBefore(q, q', n - 1, n - 9);
      assert bits[n - 1] == Product(q, n - 1) == Product(q', n - 1);
      assert At(q, n - 1) == At(q', n - 1);
      assert q[..n] == q[..n - 1] + [q[n - 1]] && q'[..n] == q'[..n - 1] + [q'[n - 1]];
    }
  }

  lemma {:induction false} SameBefore(q: seq<bool>, q': seq<bool>, n: nat, k: int)
    requires n <= |q| == |q'| && q[..n] == q'[..n] && k < n
    ensures At(q, k) == At(q', k)
  {
    if k >= 0 {
      assert q[k] == q[..n][k] == q'[..n][k] == q'[k];
    }
  }

  /** The bits shifted out make up the quotient. */
  lemma {:induction false} FeedDivides(bits: seq<bool>) returns (q: seq<bool>)
    ensures Divides(bits, q, Feed(ZERO, bits))
  {
    q := [];
    if bits != [] {
      var n := |bits| - 1;
      q := FeedDivides(bits[..n]);
      var f := Feed(ZERO, bits[..n]);
      var s := f.b0 != bits[n];
      forall i: int
        ensures Product(q + [s], i) == (Product(q, i) != (s && i - n in {0, 3, 4, 8}))
      {
        OneMoreTerm(q, s, i);
      }
      forall i | 0 <= i < n
        ensures bits[i] == Product(q + [s], i)
      {
        assert bits[..n][i] == bits[i];
      }
      StepDivides(f, bits[n], q, n);
      q := q + [s];
    }
  }

  lemma {:induction false} OneMoreTerm(q: seq<bool>, s: bool, i: int)
    ensures Product(q + [s], i) == (Product(q, i) != (s && i - |q| in {0, 3, 4, 8}))
  {
    AtMore(q, s, i);
    AtMore(q, s, i - 3);
    AtMore(q, s, i - 4);
    AtMore(q, s, i - 8);
  }

  lemma {:induction false} AtMore(q: seq<bool>, s: bool, i: int)
    ensures At(q + [s], i) == if i == |q| then s else At(q, i)
  {
  }

  /** The coefficients of the new register. */
  lemma {:induction false} StepDivides(f: Octet, b: bool, q: seq<bool>, n: nat)
    requires |q| == n && forall j :: 0 <= j < 8 ==> ByteBits(f)[j] == Product(q, n + j)
    ensures var s, next := f.b0 != b, ByteBits(Step(AddBit(f, b)));
            && b == (Product(q, n) != s)
            && forall j :: 0 <= j < 8 ==> next[j] == (Product(q, n + 1 + j) != (s && 1 + j in {0, 3, 4, 8}))
  {
    var s, bits := f.b0 != b, ByteBits(f);
    NextBits(f, b);
    OneShift(bits, s, ByteBits(Step(AddBit(f, b))), q, n);
    assert bits[0] == Product(q, n + 0);
  }

  lemma {:induction false} OneShift(bits: seq<bool>, s: bool, next: seq<bool>, q: seq<bool>, n: nat)
    requires |bits| == 8 && |q| == n && forall j :: 0 <= j < 8 ==> bits[j] == Product(q, n + j)
    requires next == [bits[1], bits[2], bits[3] != s, bits[4] != s, bits[5], bits[6], bits[7], s]
    ensures forall j :: 0 <= j < 8 ==> next[j] == (Product(q, n + 1 + j) != (s && 1 + j in {0, 3, 4, 8}))
  {
    forall j | 0 <= j < 8
      ensures next[j] == (Product(q, n + 1 + j) != (s && 1 + j in {0, 3, 4, 8}))
    {
      if j < 7 {
        assert bits[j + 1] == Product(q, n + (j + 1));
      } else {
        assert !Product(q, n + 8);
      }
    }
  }

  lemma {:induction false} NextBits(f: Octet, b: bool)
    ensures var s := f.b0 != b;
            var bits := ByteBits(f);
            ByteBits(Step(AddBit(f, b))) == [bits[1], bits[2], bits[3] != s, bits[4] != s, bits[5], bits[6], bits[7], s]
  {
  }

  // ---------- bursts ----------

  ghost predicate Quiet(bits: seq<bool>) {
    forall i :: 0 <= i < |bits| ==> !bits[i]
  }

  lemma {:induction false} FeedQuiet(c: Octet, bits: seq<bool>)
    requires Quiet(bits)
    ensures Feed(c, bits) == Steps(c, |bits|)
  {
    if bits != [] {
      FeedQuiet(c, bits[..|bits| - 1]);
      assert !bits[|bits| - 1];
    }
  }

  /** Some bit is wrong, and all wrong bits lie among eight in a row. */
  ghost predicate Burst(e: seq<Octet>) {
    exists p: nat :: BurstAt(BitsOf(e), p)
  }

  ghost predicate BurstAt(bits: seq<bool>, p: nat) {
    p + 8 <= |bits| && Quiet(bits[..p]) && Quiet(bits[p + 8..]) && !Quiet(bits[p..p + 8])
  }

  /** The byte with the given bits. */
  lemma {:induction false} Assemble(w: seq<bool>) returns (o: Octet)
    requires |w| == 8
    ensures ByteBits(o) == w && (o == ZERO ==> Quiet(w))
  {
    o := Octet(w[7], w[6], w[5], w[4], w[3], w[2], w[1], w[0]);
    EightBits(w);
  }

  lemma {:induction false} EightBits(w: seq<bool>)
    requires |w| == 8
    ensures w == [w[0], w[1], w[2], w[3], w[4], w[5], w[6], w[7]]
  {
  }

  lemma {:induction false} WindowNonzero(w: seq<bool>)
    requires |w| == 8 && !Quiet(w)
    ensures Feed(ZERO, w) != ZERO
  {
    var o := Assemble(w);
    FeedByte(ZERO, o);
    AddZero(o);
    NonzeroSteps(o, 8);
  }

  /** Fed with the wrong bits only, the register is not zero at the end. */
  lemma {:induction false} BurstFed(a: seq<bool>, w: seq<bool>, b: seq<bool>)
    requires Quiet(a) && Quiet(b) && |w| == 8 && !Quiet(w)
    ensures Feed(ZERO, a + (w + b)) != ZERO
  {
    FeedConcat(ZERO, a, w + b);
    FeedQuiet(ZERO, a);
    StepsZero(|a|);
    FeedConcat(ZERO, w, b);
    WindowNonzero(w);
    FeedQuiet(Feed(ZERO, w), b);
    NonzeroSteps(Feed(ZERO, w), |b|);
  }

  lemma {:induction false} BurstNonzero(e: seq<Octet>, p: nat)
    requires BurstAt(BitsOf(e), p)
    ensures Crc(e) != ZERO
  {
    var bits := BitsOf(e);
    assert bits == bits[..p] + (bits[p..p + 8] + bits[p + 8..]);
    BurstFed(bits[..p], bits[p..p + 8], bits[p + 8..]);
    CrcIsFeed(e);
  }

  lemma {:induction false} AddNonzero(a: Octet, b: Octet)
    ensures Add(a, b) == a <==> b == ZERO
  {
  }

  /** Every burst of at most eight bits changes the checksum, whatever the data. */
  lemma {:induction false} BurstDetected(d: seq<Octet>, e: seq<Octet>)
    requires |d| == |e| && Burst(e)
    ensures Crc(Xor(d, e)) != Crc(d)
  {
    var p: nat :| BurstAt(BitsOf(e), p);
    BurstNonzero(e, p);
    CrcSum(d, e);
    AddNonzero(Crc(d), Crc(e));
  }

  // ---------- parity ----------

  /** Whether an odd number of bits is set. */
  function Odd(bits: seq<bool>): bool {
    if bits == [] then false else Odd(bits[..|bits| - 1]) != bits[|bits| - 1]
  }

  function OddByte(o: Octet): bool {
    ((o.b7 != o.b6) != (o.b5 != o.b4)) != ((o.b3 != o.b2) != (o.b1 != o.b0))
  }

  lemma {:induction false} StepOdd(c: Octet)
    ensures OddByte(Step(c)) == OddByte(c)
  {
  }

  lemma {:induction false} FeedOdd(c: Octet, bits: seq<bool>)
    ensures OddByte(Feed(c, bits)) == (OddByte(c) != Odd(bits))
  {
    if bits != [] {
      var f := Feed(c, bits[..|bits| - 1]);
      FeedOdd(c, bits[..|bits| - 1]);
      StepOdd(AddBit(f, bits[|bits| - 1]));
    }
  }

  /** Every odd number of wrong bits changes the checksum. */
  lemma {:induction false} OddDetected(d: seq<Octet>, e: seq<Octet>)
    requires |d| == |e| && Odd(BitsOf(e))
    ensures Crc(Xor(d, e)) != Crc(d)
  {
    CrcIsFeed(e);
    FeedOdd(ZERO, BitsOf(e));
    CrcSum(d, e);
    AddNonzero(Crc(d), Crc(e));
  }
}
