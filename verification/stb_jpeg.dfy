/**
 The baseline JPEG entropy decoder of stb_image.h: Lookup table construction with its 9-bit
 acceleration table, the combined run/value table, the bit buffer, and the data-unit decoder.
 Every method is proved against the reading functions of JpegSpec.
 */
module StbJpeg {
  import opened Bits
  import opened Canonical
  import opened JpegSpec
  import ZigZag

  const FAST_BITS := 9

  /** The acceleration entry for nine leading bits c: a word of at most nine bits, or 255. */
  ghost function FastOf(s: seq<nat>, n: nat, c: nat): (f: nat)
    requires n <= |s|
    ensures f < 256
  {
    if n == 0 then 255
    else if s[n - 1] <= FAST_BITS && Heads(s, n - 1, 128 * c) then (n - 1) % 256
    else FastOf(s, n - 1, c)
  }

  /** The flag value 255 never names a word that the acceleration table must serve. */
  ghost predicate Accelerable(s: seq<nat>) {
    |s| <= 255 || s[255] > FAST_BITS
  }

  /** Word 255 is short and heads t: its acceleration entry reads as the flag. */
  ghost predicate Masked(s: seq<nat>, t: nat) {
    !Accelerable(s) && Find(s, |s|, t) == 255
  }

  class Huffman {
    const fast: array<int>
    const code: array<int>
    const size: array<int>
    const maxcode: array<int>
    const delta: array<int>

    ghost predicate Shaped()
      reads this
    {
      && fast.Length == 512 && code.Length == 256 && size.Length == 257
      && maxcode.Length == 18 && delta.Length == 17
      && fast != code && fast != size && fast != maxcode
      && code != size && code != maxcode && size != maxcode
      && delta != fast && delta != code && delta != size && delta != maxcode
    }

    constructor ()
      ensures Shaped() && fresh(fast) && fresh(code) && fresh(size) && fresh(maxcode) && fresh(delta)
    {
      fast := new int[512](_ => 0);
      code := new int[256](_ => 0);
      size := new int[257](_ => 0);
      maxcode := new int[18](_ => 0);
      delta := new int[17](_ => 0);
    }

    ghost predicate Sized(s: seq<nat>)
      requires Shaped()
      reads this, size
    {
      && |s| <= 256 && size[|s|] == 0
      && forall i :: 0 <= i < |s| ==> size[i] == s[i]
    }

    ghost predicate Coded(s: seq<nat>, k: nat)
      requires Shaped()
      reads this, code
    {
      k <= |s| <= 256 && forall i :: 0 <= i < k ==> code[i] == Code(s, i) % 0x1_0000
    }

    /** The first word of length i is i's first position less delta[i]. */
    ghost predicate Offsets(s: seq<nat>, j: nat)
      requires Shaped() && j <= 16
      reads this, delta
    {
      forall i :: 1 <= i <= j ==> Offset(s, i, delta[i])
    }

    ghost predicate Bounded(s: seq<nat>, j: nat)
      requires Shaped() && j <= 16
      reads this, maxcode
    {
      forall i :: 1 <= i <= j ==> maxcode[i] == Left(s, Upto(s, |s|, i))
    }

    ghost predicate Accelerated(s: seq<nat>, n: nat)
      requires Shaped() && n <= |s|
      reads this, fast
    {
      forall c :: 0 <= c < 512 ==> fast[c] == FastOf(s, n, c)
    }

    /** The table decodes the canonical code with these word lengths. */
    ghost predicate Built(s: seq<nat>)
      reads this, fast, code, size, maxcode, delta
    {
      && Shaped() && Fits(s) && Sized(s) && Coded(s, |s|) && Offsets(s, 16) && Bounded(s, 16)
      && maxcode[17] == 0xFFFF_FFFF && Accelerated(s, |s|)
    }

    /** Writes the list of word lengths; fails when it would fill all 257 places. */
    method BuildSizes(count: seq<nat>) returns (ok: bool)
      requires Shaped() && |count| == 16
      modifies size
      ensures ok <==> |SizesOf(count)| <= 256
      ensures ok ==> Sized(SizesOf(count))
    {
      var k := 0;
      for i := 0 to 16
        invariant k == |SizesOf(count[..i])| <= 256
        invariant size[..k] == SizesOf(count[..i])
      {
        ghost var done := SizesOf(count[..i]);
        assert count[..i + 1][..i] == count[..i];
        assert SizesOf(count[..i + 1]) == done + Repeat(i + 1, count[i]);
        SizesOfPrefix(count, i + 1);
        for j := 0 to count[i]
          invariant k == |done| + j <= 256
          invariant size[..k] == done + Repeat(i + 1, j)
        {
          size[k] := i + 1;
          k := k + 1;
          if k >= 257 {
            return false;
          }
        }
      }
      assert count[..16] == count;
      size[k] := 0;
      assert forall i :: 0 <= i < k ==> size[i] == size[..k][i];
      return true;
    }

    /** Assigns the words of length j, starting with number k and the given code. */
    method BuildCodesOfLength(ghost s: seq<nat>, j: nat, k0: nat, code0: nat) returns (k: nat, code: nat)
      requires Shaped() && Ordered(s) && Sized(s) && 1 <= j <= 16
      requires k0 == Upto(s, |s|, j - 1) && Shl(code0, 16 - j) == Left(s, k0)
      requires Coded(s, k0)
      modifies this.code
      ensures k == Upto(s, |s|, j) && Shl(code, 16 - j) == Left(s, k) && Coded(s, k)
    {
      k, code := k0, code0;
      while size[k] == j
        invariant k0 <= k <= |s| && Coded(s, k)
        invariant forall i :: k0 <= i < k ==> s[i] == j
        invariant Shl(code, 16 - j) == Left(s, k)
        decreases |s| - k
      {
        NextWord(s, k, code);
        this.code[k] := code % 0x1_0000;
        k, code := k + 1, code + 1;
      }
      UptoNext(s, j, k0, k);
    }

    /** Offset, codes and preshifted limit of one length; fails on an overfull code. */
    method BuildLength(ghost s: seq<nat>, j: nat, k0: nat, code0: nat) returns (ok: bool, k: nat, code: nat)
      requires Shaped() && Ordered(s) && Sized(s) && 1 <= j <= 16
      requires k0 == Upto(s, |s|, j - 1) && Shl(code0, 16 - j) == Left(s, k0) <= 0x1_0000
      requires Coded(s, k0) && Offsets(s, j - 1) && Bounded(s, j - 1)
      modifies this.code, delta, maxcode
      ensures k == Upto(s, |s|, j) && (ok <==> Left(s, k) <= 0x1_0000)
      ensures ok ==> Shl(code, 16 - j) == Left(s, k)
      ensures ok ==> Coded(s, k) && Offsets(s, j) && Bounded(s, j)
    {
      k, code := k0, code0;
      delta[j] := k - code;
      if size[k] == j {
        k, code := BuildCodesOfLength(s, j, k, code);
        Overfull(code, j);
        if code - 1 >= Pow2(j) {
          return false, k, code;
        }
      } else {
        UptoNext(s, j, k, k);
      }
      maxcode[j] := Shl(code, 16 - j);
      return true, k, code;
    }

    /** Assigns codes and preshifted limits length by length. */
    method BuildCodes(ghost s: seq<nat>) returns (ok: bool, k: nat)
      requires Shaped() && Ordered(s) && Sized(s)
      modifies code, delta, maxcode
      ensures ok <==> Fits(s)
      ensures ok ==> k == |s| && Coded(s, |s|) && Offsets(s, 16) && Bounded(s, 16) && maxcode[17] == 0xFFFF_FFFF
    {
      var code: nat := 0;
      k := 0;
      ReachedFirst(s);
      for j := 1 to 17
        invariant Reached(s, j, k, code) && Coded(s, k) && Offsets(s, j - 1) && Bounded(s, j - 1)
      {
        ok, k, code := BuildNext(s, j, k, code);
        if !ok {
          LeftMono(s, k, |s|);
          return;
        }
      }
      ReachedLast(s, k, code);
      maxcode[17] := 0xFFFF_FFFF;
      ok := true;
    }

    /** One length, and the first code of the next. */
    method BuildNext(ghost s: seq<nat>, j: nat, k0: nat, code0: nat) returns (ok: bool, k: nat, code: nat)
      requires Shaped() && Ordered(s) && Sized(s) && 1 <= j <= 16 && Reached(s, j, k0, code0)
      requires Coded(s, k0) && Offsets(s, j - 1) && Bounded(s, j - 1)
      modifies this.code, delta, maxcode
      ensures k <= |s| && (ok <==> Left(s, k) <= 0x1_0000)
      ensures ok ==> Reached(s, j + 1, k, code) && Coded(s, k) && Offsets(s, j) && Bounded(s, j)
    {
      ok, k, code := BuildLength(s, j, k0, code0);
      if ok {
        NextLength(code, j);
        code := 2 * code;
      }
    }

    /** Fills the acceleration table: one entry for every completion of a short word. */
    method BuildFast(ghost s: seq<nat>, k: nat)
      requires Shaped() && Fits(s) && Sized(s) && Coded(s, |s|) && k == |s|
      modifies fast
      ensures Accelerated(s, |s|)
    {
      forall c | 0 <= c < 512 {
        fast[c] := 255;
      }
      for i := 0 to k
        invariant Accelerated(s, i)
      {
        FastWord(s, i);
      }
    }

    /** The entries of one word, if it is short. */
    method FastWord(ghost s: seq<nat>, i: nat)
      requires Shaped() && Fits(s) && Sized(s) && Coded(s, |s|) && i < |s| && Accelerated(s, i)
      modifies fast
      ensures Accelerated(s, i + 1)
    {
      assert size[i] == s[i] && code[i] == Code(s, i) % 0x1_0000;
      if size[i] <= FAST_BITS {
        var c, m := Shl(code[i], FAST_BITS - size[i]), Pow2(FAST_BITS - size[i]);
        FastFits(s, i, c, m);
        Stamp(c, m, i % 256);
        forall x | 0 <= x < 512
          ensures fast[x] == FastOf(s, i + 1, x)
        {
          assert old(fast[x]) == FastOf(s, i, x);
          FastNext(s, i, c, m, x);
        }
      } else {
        forall x | 0 <= x < 512
          ensures fast[x] == FastOf(s, i + 1, x)
        {
          assert fast[x] == FastOf(s, i, x);
        }
      }
    }

    /** Writes m neighbouring entries from c on. */
    method Stamp(c: nat, m: nat, v: nat)
      requires Shaped() && c + m <= 512
      modifies fast
      ensures forall x :: 0 <= x < 512 ==> fast[x] == if c <= x < c + m then v else old(fast[x])
    {
      for j := 0 to m
        invariant forall x :: 0 <= x < 512 ==> fast[x] == if c <= x < c + j then v else old(fast[x])
      {
        fast[c + j] := v;
      }
    }

    /** Builds the table, or fails when the counts do not describe a code of at most 256 words. */
    method BuildHuffman(count: seq<nat>) returns (ok: bool)
      requires Shaped() && |count| == 16
      modifies fast, code, size, maxcode, delta
      ensures ok <==> |SizesOf(count)| <= 256 && Fits(SizesOf(count))
      ensures ok ==> Built(SizesOf(count))
    {
      ghost var s := SizesOf(count);
      ok := BuildSizes(count);
      if ok {
        SizesOfOrdered(count);
        var k;
        ok, k := BuildCodes(s);
        if ok {
          BuildFast(s, k);
        }
      }
    }

    /** The finished table with the values of its words, which need not fill their 256 places. */
    method Finish(values: seq<Byte>, ghost s: seq<nat>) returns (h: Lookup)
      requires Built(s) && |values| == 256
      ensures Decodes(h, Codes(s, values[..|s|]))
    {
      h := Lookup(fast[..], values, size[..], maxcode[..], delta[..]);
    }
  }

  /** A finished decoding table: what the decoder reads and no longer changes. */
  datatype Lookup = Lookup(fast: seq<int>, values: seq<Byte>, size: seq<int>, maxcode: seq<int>, delta: seq<int>)

  ghost predicate Shape(h: Lookup) {
    |h.fast| == 512 && |h.size| == 257 && |h.maxcode| == 18 && |h.delta| == 17
  }

  ghost predicate FastEntry(h: Lookup, s: seq<nat>, x: nat)
    requires x < |h.fast|
  {
    h.fast[x] == FastOf(s, |s|, x)
  }

  ghost predicate SizeEntry(h: Lookup, s: seq<nat>, k: nat)
    requires k < |s| && k < |h.size|
  {
    h.size[k] == s[k]
  }

  /** The first places hold the values of the words. */
  ghost predicate Values(values: seq<Byte>, vals: seq<Byte>) {
    |vals| <= |values| == 256 && forall k :: 0 <= k < |vals| ==> ValueEntry(values, vals, k)
  }

  ghost predicate ValueEntry(values: seq<Byte>, vals: seq<Byte>, k: nat)
    requires k < |vals| <= |values|
  {
    values[k] == vals[k]
  }

  /** The limit for words of length up to j, and the offset of the words of length j. */
  ghost predicate LengthEntry(h: Lookup, s: seq<nat>, j: nat)
    requires Shape(h) && 1 <= j <= 16
  {
    h.maxcode[j] == Left(s, Upto(s, |s|, j)) && Offset(s, j, h.delta[j])
  }

  /** The table decodes the canonical code with these lengths and values. */
  ghost predicate Decodes(h: Lookup, c: Codes) {
    && Shape(h) && ValidCodes(c) && Values(h.values, c.vals) && h.maxcode[17] == 0xFFFF_FFFF
    && (forall x :: 0 <= x < 512 ==> FastEntry(h, c.sizes, x))
    && (forall k :: 0 <= k < |c.sizes| ==> SizeEntry(h, c.sizes, k))
    && (forall j :: 1 <= j <= 16 ==> LengthEntry(h, c.sizes, j))
  }

  /** The first length above nine whose limit exceeds temp; 17 if there is none. */
  method SlowLength(h: Lookup, temp: nat, ghost c: Codes) returns (k: nat)
    requires Decodes(h, c) && temp < 0x1_0000
    ensures 10 <= k <= 17 && (k > 10 ==> Left(c.sizes, Upto(c.sizes, |c.sizes|, k - 1)) <= temp)
    ensures k <= 16 ==> temp < Left(c.sizes, Upto(c.sizes, |c.sizes|, k)) && Offset(c.sizes, k, h.delta[k])
  {
    k := FAST_BITS + 1;
    while temp >= h.maxcode[k]
      invariant 10 <= k <= 17 && (k > 10 ==> Left(c.sizes, Upto(c.sizes, |c.sizes|, k - 1)) <= temp)
      decreases 17 - k
    {
      assert LengthEntry(h, c.sizes, k);
      k := k + 1;
    }
    assert k <= 16 ==> LengthEntry(h, c.sizes, k);
  }

  /** The combined entry for nine bits that start with a word of length len and value rs. */
  method FastAcEntry(i: nat, rs: Byte, len: nat) returns (r: int)
    requires 1 <= len <= 16
    ensures r == Packed(rs, len, i)
  {
    var run, magbits := rs / 16 % 16, rs % 16;
    r := 0;
    if magbits != 0 && len + magbits <= FAST_BITS {
      var k: int := Shr(Shl(i, len) % 512, FAST_BITS - magbits);
      var m := Pow2(magbits - 1);
      if k < m {
        k := k - Pow2(magbits) + 1;
      }
      if -128 <= k <= 127 {
        r := Int16(k * 256 + run * 16 + (len + magbits));
      }
    }
  }

  /** Combines short words with short amplitudes into one table. */
  method BuildFastAc(fast_ac: array<int>, h: Lookup, ghost c: Codes)
    requires Decodes(h, c) && fast_ac.Length == 512
    modifies fast_ac
    ensures FastAc(fast_ac[..], c)
  {
    for i := 0 to 512
      invariant forall x :: 0 <= x < i ==> fast_ac[x] == FastAcOf(c, x)
    {
      assert FastEntry(h, c.sizes, i);
      var f := h.fast[i];
      fast_ac[i] := 0;
      if f < 255 {
        FastOfHeads(c.sizes, |c.sizes|, i);
        OrderedAt(c.sizes, f);
        assert SizeEntry(h, c.sizes, f) && ValueEntry(h.values, c.vals, f);
        var r := FastAcEntry(i, h.values[f], h.size[f]);
        fast_ac[i] := r;
      }
    }
  }

  /** The words shorter than j are the first k, and the first code of length j is at hand. */
  ghost predicate Reached(s: seq<nat>, j: nat, k: nat, code: nat) {
    && 1 <= j <= 17 && k == Upto(s, |s|, j - 1) && Left(s, k) <= 0x1_0000
    && (j <= 16 ==> Shl(code, 16 - j) == Left(s, k))
  }

  lemma {:induction false} ReachedFirst(s: seq<nat>)
    requires Ordered(s)
    ensures Reached(s, 1, 0, 0)
  {
    UptoEnds(s, |s|);
    ShlIsMul(0, 15);
  }

  lemma {:induction false} ReachedLast(s: seq<nat>, k: nat, code: nat)
    requires Ordered(s) && Reached(s, 17, k, code)
    ensures k == |s| && Fits(s)
  {
    UptoEnds(s, |s|);
  }

  lemma {:induction false} FastFits(s: seq<nat>, i: nat, c: nat, m: nat)
    requires Fits(s) && i < |s| && s[i] <= FAST_BITS
    requires c == Shl(Code(s, i) % 0x1_0000, FAST_BITS - s[i]) && m == Pow2(FAST_BITS - s[i])
    ensures c + m <= 512
  {
    FastRange(s, i);
  }

  /** A short word takes m entries from c on. */
  lemma {:induction false} FastNext(s: seq<nat>, i: nat, c: nat, m: nat, x: nat)
    requires Fits(s) && i < |s| && s[i] <= FAST_BITS
    requires c == Shl(Code(s, i) % 0x1_0000, FAST_BITS - s[i]) && m == Pow2(FAST_BITS - s[i])
    ensures FastOf(s, i + 1, x) == if c <= x < c + m then i % 256 else FastOf(s, i, x)
  {
    FastRange(s, i);
    assert Heads(s, i, 128 * x) <==> c <= x < c + m;
  }

  lemma {:induction false} FastRange(s: seq<nat>, i: nat)
    requires Fits(s) && i < |s| && s[i] <= FAST_BITS
    ensures Code(s, i) < 0x1_0000
    ensures var c, m := Shl(Code(s, i), FAST_BITS - s[i]), Pow2(FAST_BITS - s[i]);
            && c + m <= 512
            && Left(s, i) == 128 * c && Left(s, i + 1) == 128 * (c + m)
            && forall x: nat :: Heads(s, i, 128 * x) <==> c <= x < c + m
  {
    CodeSpan(s, i);
    Pow2Values();
    Times128(Code(s, i), FAST_BITS - s[i]);
    Times128(Code(s, i) + 1, FAST_BITS - s[i]);
    ShlSum(Code(s, i), 1, FAST_BITS - s[i]);
  }

  lemma {:induction false} Times128(v: nat, n: nat)
    ensures Shl(v, n + 7) == 128 * Shl(v, n)
  {
    if n > 0 {
      Times128(v, n - 1);
    } else {
      ShlIsMul(v, 7);
      Pow2Values();
    }
  }

  lemma FastOfHeads(s: seq<nat>, n: nat, c: nat)
    requires n <= |s| <= 256
    ensures FastOf(s, n, c) != 255 ==> FastOf(s, n, c) < n && Heads(s, FastOf(s, n, c), 128 * c)
                                       && s[FastOf(s, n, c)] <= FAST_BITS
  {
  }

  /** A served entry names the word that heads any sixteen bits starting with these nine. */
  lemma {:induction false} FastHit(s: seq<nat>, c: nat, t: nat)
    requires Fits(s) && |s| <= 256 && 128 * c <= t < 128 * c + 128 && FastOf(s, |s|, c) != 255
    ensures Find(s, |s|, t) == FastOf(s, |s|, c) && s[FastOf(s, |s|, c)] <= FAST_BITS
  {
    var f := FastOf(s, |s|, c);
    FastOfHeads(s, |s|, c);
    FastRange(s, f);
    FindIs(s, |s|, t, f);
  }

  lemma {:induction false} FastOfIs(s: seq<nat>, n: nat, c: nat, f: nat)
    requires Fits(s) && f < n <= |s| && Heads(s, f, 128 * c) && s[f] <= FAST_BITS
    ensures FastOf(s, n, c) == f % 256
  {
    if Heads(s, n - 1, 128 * c) {
      HeadsUnique(s, n - 1, f, 128 * c);
    } else {
      FastOfIs(s, n - 1, c, f);
    }
  }

  /** An entry that is not served leaves only longer words. */
  lemma {:induction false} FastMiss(s: seq<nat>, c: nat, t: nat, f: nat)
    requires Fits(s) && |s| <= 256 && f < |s|
    requires 128 * c <= t < 128 * c + 128 && FastOf(s, |s|, c) == 255
    ensures Heads(s, f, t) ==> s[f] > FAST_BITS || f == 255
  {
    if Heads(s, f, t) && s[f] <= FAST_BITS {
      FastRange(s, f);
      FastOfIs(s, |s|, c, f);
    }
  }

  /** Value, run and total length in one number, or 0 if they do not all fit. */
  function Packed(rs: Byte, len: nat, i: nat): int {
    var mag := rs % 16;
    if mag == 0 || len + mag > FAST_BITS then 0
    else
      var k := Extend(Shr(Shl(i, len) % 512, FAST_BITS - mag), mag);
      if -128 <= k <= 127 then k * 256 + rs / 16 * 16 + (len + mag) else 0
  }

  /** The combined entry for nine bits: that of their word, if it is short. */
  ghost function FastAcOf(c: Codes, i: nat): int
    requires ValidCodes(c)
  {
    FastOfHeads(c.sizes, |c.sizes|, i);
    var f := FastOf(c.sizes, |c.sizes|, i);
    if f == 255 then 0 else Packed(c.vals[f], c.sizes[f], i)
  }

  // ---------- the bit buffer ----------

  /**
   The buffer holds `bits` bits of d from position p at its top and zeros below.
   Beyond its end d continues with zeros.
   */
  ghost predicate Holds(buf: nat, bits: nat, d: BitString, p: nat) {
    Top(buf, Peek(d, p, bits), bits)
  }

  /** What is left of d from position k on. */
  ghost function Tail(d: BitString, k: nat): BitString {
    if k <= |d| then d[k..] else []
  }

  /** The top k bits of the buffer are the next k bits. */
  lemma {:induction false} HoldsPeek(buf: nat, bits: nat, d: BitString, p: nat, k: nat)
    requires Holds(buf, bits, d, p) && k <= 32 && (bits >= k || p + bits >= |d|)
    ensures Shr(buf, 32 - k) == Peek(d, p, k)
  {
    if bits >= k {
      PeekSplit(d, p, k, bits - k);
      TopRead(buf, Peek(d, p, k), k, Peek(d, p + k, bits - k), bits - k);
    } else {
      HoldsAll(buf, bits, d, p, k);
    }
  }

  /** The same where the bits run out. */
  lemma {:induction false} HoldsAll(buf: nat, bits: nat, d: BitString, p: nat, k: nat)
    requires Holds(buf, bits, d, p) && bits < k <= 32 && p + bits >= |d|
    ensures Shr(buf, 32 - k) == Peek(d, p, k)
  {
    PeekSplit(d, p, bits, k - bits);
    PeekPast(d, p + bits, k - bits);
    ShlAdd(Peek(d, p, bits), k - bits, 32 - k);
    ShrOfShl(Peek(d, p, k), 0, 32 - k);
  }

  lemma {:induction false} NineOfSixteen(d: BitString, p: nat)
    ensures var c, t := Peek(d, p, 9), Peek(d, p, 16);
            c < 512 && 128 * c <= t < 128 * c + 128
  {
    PeekSplit(d, p, 9, 7);
    ShlIsMul(Peek(d, p, 9), 7);
    Pow2Values();
  }

  lemma {:induction false} HoldsWord(buf: nat, bits: nat, d: BitString, p: nat, k: nat)
    requires Holds(buf, bits, d, p) && k <= bits
    ensures Low(Shr(buf, 32 - k), k) == Peek(d, p, k)
  {
    HoldsPeek(buf, bits, d, p, k);
    LowOfSmall(Shr(buf, 32 - k), k);
  }

  lemma {:induction false} HoldsSixteen(buf: nat, bits: nat, d: BitString, p: nat)
    requires Holds(buf, bits, d, p) && (bits >= 16 || p + bits >= |d|)
    ensures Shr(buf, 16) == Peek(d, p, 16) < 0x1_0000
  {
    HoldsPeek(buf, bits, d, p, 16);
    Pow2Values();
  }

  lemma {:induction false} HoldsNine(buf: nat, bits: nat, d: BitString, p: nat)
    requires Holds(buf, bits, d, p) && (bits >= 9 || p + bits >= |d|)
    ensures Shr(buf, 23) % 512 == Peek(d, p, 9) < 512
  {
    HoldsPeek(buf, bits, d, p, 9);
    NineOfSixteen(d, p);
  }

  lemma {:induction false} HoldsPush(buf: nat, bits: nat, d: BitString, p: nat, byte: Byte)
    requires Holds(buf, bits, d, p) && bits <= 24 && Peek(d, p + bits, 8) == byte
    ensures Holds(BitOr(buf, Shl(byte, 24 - bits)), bits + 8, d, p)
  {
    PeekSplit(d, p, bits, 8);
    TopPush(buf, Peek(d, p, bits), bits, byte, 8);
  }

  /** The byte that was fetched is the next eight bits. */
  lemma {:induction false} FedByte(d: BitString, k: nat, before: BitString, byte: Byte, after: BitString)
    requires before == Tail(d, k)
    requires before == [] ==> byte == 0 && after == []
    requires before != [] ==> before == FromVal(byte, 8) + after
    ensures Peek(d, k, 8) == byte && Tail(d, k + 8) == after
  {
    if before == [] {
      PeekPast(d, k, 8);
    } else {
      var b := FromVal(byte, 8);
      assert d[k..k + 8] == d[k..][..8] == b;
      PeekIsVal(d, k, b);
      Pow2Values();
      ValOfFromVal(byte, 8);
      assert d[k + 8..] == d[k..][8..] == after;
    }
  }

  lemma {:induction false} HoldsDrop(buf: nat, bits: nat, d: BitString, p: nat, s: nat)
    requires Holds(buf, bits, d, p) && s <= bits
    ensures Holds(Shl(buf, s) % 0x1_0000_0000, bits - s, d, p + s)
  {
    PeekSplit(d, p, s, bits - s);
    TopDrop(buf, Peek(d, p, s), s, Peek(d, p + s, bits - s), bits - s);
  }

  lemma {:induction false} DataByte(s: seq<Byte>)
    requires s != [] && s[0] != 0xFF
    ensures BitsOf(DataBytes(s)) == FromVal(s[0], 8) + BitsOf(DataBytes(s[1..]))
  {
    assert DataBytes(s)[1..] == DataBytes(s[1..]);
  }

  lemma {:induction false} DataEscape(s: seq<Byte>, t: seq<Byte>)
    requires s != [] && s[0] == 0xFF && t == AfterFill(s[1..])
    ensures t == [] ==> BitsOf(DataBytes(s)) == FromVal(s[0], 8) + BitsOf([])
    ensures t != [] && t[0] == 0 ==> BitsOf(DataBytes(s)) == FromVal(s[0], 8) + BitsOf(DataBytes(t[1..]))
    ensures t != [] && t[0] != 0 ==> BitsOf(DataBytes(s)) == []
  {
    if t != [] && t[0] == 0 {
      assert DataBytes(s) == [s[0]] + DataBytes(t[1..]);
      assert DataBytes(s)[1..] == DataBytes(t[1..]);
    } else if t == [] {
      assert DataBytes(s) == [s[0]];
    }
  }

  class Jpeg {
    const input: seq<Byte>
    var pos: nat
    var code_buffer: nat
    var code_bits: int
    var nomore: bool
    var marker: Byte
    var dc_pred: seq<int>
    /** The bits of the segment and how many of them have been consumed. */
    ghost const d: BitString
    ghost var p: nat
    /** How many of them have been fetched into the buffer, zeros past the end included. */
    ghost var fetched: nat

    /** The reset before a scan. */
    constructor (input: seq<Byte>, pos: nat)
      requires pos <= |input|
      ensures Valid() && Predicts() && this.input == input && p == 0 && dc_pred == [0, 0, 0, 0]
      ensures d == BitsOf(DataBytes(input[pos..]))
    {
      RegisterEmpty();
      this.input, this.pos := input, pos;
      code_buffer, code_bits, nomore, marker, dc_pred := 0, 0, false, 0xFF, [0, 0, 0, 0];
      d, p, fetched := BitsOf(DataBytes(input[pos..])), 0, 0;
    }

    ghost function Rest(): BitString
      requires pos <= |input|
      reads this`pos, this`nomore
    {
      if nomore then [] else BitsOf(DataBytes(input[pos..]))
    }

    ghost predicate Valid()
      reads this
    {
      && pos <= |input| && 0 <= code_bits <= 32
      && Holds(code_buffer, code_bits, d, p) && fetched == p + code_bits && Feeds()
    }

    ghost predicate Predicts()
      reads this`dc_pred
    {
      |dc_pred| == 4 && forall i :: 0 <= i < 4 ==> Fits32(dc_pred[i])
    }

    /** The input still provides the bits that were not fetched. */
    ghost predicate Feeds()
      requires pos <= |input|
      reads this`pos, this`nomore, this`fetched
    {
      Rest() == Tail(d, fetched)
    }

    /** At least k bits are buffered, or all the bits there are. */
    ghost predicate Filled(k: nat)
      reads this
    {
      code_bits >= k || p + code_bits >= |d|
    }

    /** The next input byte, 0 at the end of the input. */
    method Get8() returns (b: Byte)
      requires pos <= |input|
      modifies this`pos
      ensures pos == (if old(pos) < |input| then old(pos) + 1 else old(pos))
      ensures b == (if old(pos) < |input| then input[old(pos)] else 0)
    {
      if pos < |input| {
        b := input[pos];
        pos := pos + 1;
      } else {
        b := 0;
      }
    }

    /** After a 0xFF: the first byte that is not fill. */
    method GetAfterFill() returns (c: Byte)
      requires pos <= |input|
      modifies this`pos
      ensures pos <= |input|
      ensures var t := AfterFill(input[old(pos)..]);
              if t == [] then c == 0 && pos == |input| else c == t[0] && input[pos..] == t[1..]
    {
      c := Get8();
      while c == 0xFF
        invariant old(pos) <= pos <= |input|
        invariant c == 0xFF ==> pos > old(pos) && AfterFill(input[old(pos)..]) == AfterFill(input[pos..])
        invariant c != 0xFF ==> var t := AfterFill(input[old(pos)..]);
                    if t == [] then c == 0 && pos == |input| else c == t[0] && input[pos..] == t[1..]
        decreases |input| - pos, c
      {
        c := Get8();
      }
    }
  
    /** Fetches bytes until more than 24 bits are buffered or a marker is met. */
    method GrowBuffer()
      requires Valid() && code_bits <= 24
      modifies this`pos, this`code_buffer, this`code_bits, this`nomore, this`marker, this`fetched
      ensures Valid() && Filled(25) && code_bits >= old(code_bits)
    {
      var more := GrowByte();
      while more && code_bits <= 24
        invariant Valid() && code_bits >= old(code_bits)
        invariant !more ==> p + code_bits >= |d|
        decreases more, 32 - code_bits
      {
        more := GrowByte();
      }
    }

    /** The next data byte, zero past the end; false when the byte starts a marker. */
    method NextByte() returns (more: bool, b: Byte)
      requires pos <= |input|
      modifies this`pos, this`nomore, this`marker
      ensures pos <= |input|
      ensures !more ==> old(Rest()) == Rest() == []
      ensures more && old(Rest()) == [] ==> b == 0 && Rest() == []
      ensures more && old(Rest()) != [] ==> old(Rest()) == FromVal(b, 8) + Rest()
    {
      b := 0;
      ghost var s := input[pos..];
      if !nomore {
        b := Get8();
      }
      more := true;
      if b == 0xFF {
        assert input[pos..] == s[1..];
        more := AfterEscape(s);
      } else if !nomore && s != [] {
        assert input[pos..] == s[1..];
        DataByte(s);
      }
    }

    /** After a 0xFF: what follows decides whether it is data or starts a marker. */
    method AfterEscape(ghost s: seq<Byte>) returns (more: bool)
      requires pos <= |input| && !nomore && s != [] && s[0] == 0xFF && input[pos..] == s[1..]
      modifies this`pos, this`nomore, this`marker
      ensures pos <= |input|
      ensures more ==> BitsOf(DataBytes(s)) == FromVal(0xFF, 8) + Rest()
      ensures !more ==> BitsOf(DataBytes(s)) == Rest() == []
    {
      var c := GetAfterFill();
      DataEscape(s, AfterFill(s[1..]));
      more := c == 0;
      if !more {
        marker, nomore := c, true;
      } else if AfterFill(s[1..]) == [] {
        assert input[pos..] == [];
      }
    }

    /** Fetches the next eight bits of the segment; false when a marker ends it. */
    method FeedByte() returns (more: bool, b: Byte)
      requires pos <= |input| && Feeds()
      modifies this`pos, this`nomore, this`marker, this`fetched
      ensures pos <= |input| && Feeds()
      ensures more ==> fetched == old(fetched) + 8 && Peek(d, old(fetched), 8) == b
      ensures !more ==> fetched == old(fetched) >= |d|
    {
      more, b := NextByte();
      if more {
        FedByte(d, fetched, old(Rest()), b, Rest());
        fetched := fetched + 8;
      }
    }

    /** Appends one byte to the buffer; false when a marker ends the segment. */
    method GrowByte() returns (more: bool)
      requires Valid() && code_bits <= 24
      modifies this`pos, this`code_buffer, this`code_bits, this`nomore, this`marker, this`fetched
      ensures Valid()
      ensures more ==> code_bits == old(code_bits) + 8
      ensures !more ==> code_bits == old(code_bits) && p + code_bits >= |d|
    {
      var b;
      more, b := FeedByte();
      if more {
        HoldsPush(code_buffer, code_bits, d, p, b);
        code_buffer := BitOr(code_buffer, Shl(b, 24 - code_bits));
        code_bits := code_bits + 8;
      }
    }

    /** Drops s bits that are buffered. */
    method Drop(s: nat)
      requires Valid() && s <= code_bits
      modifies this`code_buffer, this`code_bits, this`p
      ensures Valid() && p == old(p) + s && code_bits == old(code_bits) - s
    {
      HoldsDrop(code_buffer, code_bits, d, p, s);
      code_buffer := Shl(code_buffer, s) % 0x1_0000_0000;
      code_bits := code_bits - s;
      p := p + s;
    }

    /** The next nine bits, zeros past the end included. */
    method PeekFast() returns (x: nat)
      requires Valid()
      modifies this`pos, this`code_buffer, this`code_bits, this`nomore, this`marker, this`fetched
      ensures Valid() && Filled(16) && x == Peek(d, p, 9) < 512
    {
      if code_bits < 16 {
        GrowBuffer();
      }
      HoldsNine(code_buffer, code_bits, d, p);
      x := Shr(code_buffer, 23) % 512;
    }

    /** The next symbol; negative when no word matches or its bits are not all there. */
    method HuffDecode(h: Lookup, ghost c: Codes) returns (r: int)
      requires Valid() && Decodes(h, c)
      modifies this`pos, this`code_buffer, this`code_bits, this`nomore, this`marker, this`fetched, this`p
      ensures r < 256 && (r >= 0 ==> Valid())
      ensures !Masked(c.sizes, Peek(d, old(p), 16)) ==> Completes(PaddedSymbol(c, d, old(p)), r, p, |d|)
      ensures !Masked(c.sizes, Peek(d, old(p), 16)) ==> Answers(ReadSymbol(c, d, old(p)), r, p)
      ensures Masked(c.sizes, Peek(d, old(p), 16)) && !ReadSymbol(c, d, old(p)).Short? ==>
                !Answers(ReadSymbol(c, d, old(p)), r, p)
    {
      var x := PeekFast();
      assert FastEntry(h, c.sizes, x);
      var k := h.fast[x];
      if k < 255 {
        FastPath(c, d, p, x);
        NotMasked(c.sizes, x, d, p);
        assert SizeEntry(h, c.sizes, k) && ValueEntry(h.values, c.vals, k);
        r := TakeShort(h.size[k], h.values[k]);
      } else {
        r := HuffDecodeSlow(h, c, x);
      }
      if !Masked(c.sizes, Peek(d, old(p), 16)) {
        CompletedAnswers(c, d, old(p), r, p);
      }
    }

    /** Takes a word of s bits found in the acceleration table. */
    method TakeShort(s: nat, value: Byte) returns (r: int)
      requires Valid() && Filled(16) && s <= 16
      modifies this`code_buffer, this`code_bits, this`p
      ensures r < 256 && (r >= 0 ==> Valid())
      ensures Completes(Got(value, old(p) + s), r, p, |d|)
    {
      if s > code_bits {
        return -1;
      }
      Drop(s);
      r := value;
    }

    /** Searches the preshifted limits for the length of the word. */
    method HuffDecodeSlow(h: Lookup, ghost c: Codes, ghost x: nat) returns (r: int)
      requires Valid() && Filled(16) && Decodes(h, c)
      requires x == Peek(d, p, 9) && FastOf(c.sizes, |c.sizes|, x) == 255
      modifies this`code_buffer, this`code_bits, this`p
      ensures r < 256 && (r >= 0 ==> Valid())
      ensures !Masked(c.sizes, Peek(d, old(p), 16)) ==> Completes(PaddedSymbol(c, d, old(p)), r, p, |d|)
      ensures Masked(c.sizes, Peek(d, old(p), 16)) ==> r < 0 || p == old(p) + 10
    {
      HoldsSixteen(code_buffer, code_bits, d, p);
      var k := SlowLength(h, Shr(code_buffer, 16), c);
      SlowStart(c.sizes, x, d, p, k);
      if k == 17 {
        NoWord(c.sizes, Peek(d, p, 16));
        code_bits := code_bits - 16;
        return -1;
      }
      r := TakeWord(k, h.delta[k], h.values, c);
    }

    /** Takes a word of k bits and converts it to its value. */
    method TakeWord(k: nat, delta: int, values: seq<Byte>, ghost c: Codes) returns (r: int)
      requires Valid() && Filled(16) && ValidCodes(c) && Values(values, c.vals) && 1 <= k <= 16
      modifies this`code_buffer, this`code_bits, this`p
      ensures r < 256 && (r >= 0 ==> Valid() && p == old(p) + k)
      ensures Between(c.sizes, Peek(d, old(p), 16), k, delta) ==> Completes(PaddedSymbol(c, d, old(p)), r, p, |d|)
    {
      if Between(c.sizes, Peek(d, p, 16), k, delta) {
        SlowPath(c, d, p, k, delta);
      }
      if k > code_bits {
        return -1;
      }
      HoldsWord(code_buffer, code_bits, d, p, k);
      var i := Low(Shr(code_buffer, 32 - k), k) + delta;
      if i < 0 || i >= 256 {
        return -1;
      }
      assert i < |c.vals| ==> ValueEntry(values, c.vals, i);
      Drop(k);
      r := values[i];
    }
  
    /**
     Receives n bits and extends them to a signed value.  When they are not all there, either zeros stand for
     the missing ones, or nothing is taken and the value is 0.
     */
    method ExtendReceive(n: nat) returns (r: int)
      requires Valid() && 1 <= n <= 15
      modifies this`pos, this`code_buffer, this`code_bits, this`nomore, this`marker, this`fetched, this`p
      ensures Valid()
      ensures -0x8000 <= r < 0x8000 && (ReadAmplitude(d, old(p), n).Got? ==> Answers(ReadAmplitude(d, old(p), n), r, p))
      ensures if p == old(p) then r == 0 && ReadAmplitude(d, p, n).Short?
              else p == old(p) + n && r == Extend(Peek(d, old(p), n), n)
    {
      if code_bits < n {
        GrowBuffer();
      }
      if code_bits < n {
        return 0;
      }
      r := TakeAmplitude(n);
      Pow2Mono(n, 15);
      Pow2Values();
    }

    method TakeAmplitude(n: nat) returns (r: int)
      requires Valid() && 1 <= n <= code_bits
      modifies this`code_buffer, this`code_bits, this`p
      ensures Valid() && p == old(p) + n
      ensures r == Extend(Peek(d, old(p), n), n) && r + Pow2(n) > 0 && r < Pow2(n)
    {
      Received(code_buffer, code_bits, d, p, n);
      var sgn := Shr(code_buffer, 31);
      var k := RotateLeft(code_buffer, n);
      code_buffer := k - Low(k, n);
      k := Low(k, n);
      code_bits := code_bits - n;
      p := p + n;
      r := k as int + if sgn == 0 then 1 - Pow2(n) else 0;
    }

    /** One step of the AC loop: the combined table first, then symbol and amplitude. */
    method DecodeAcStep(hac: Lookup, fac: seq<int>, ghost c: Codes, k: nat) returns (step: Step)
      requires Valid() && 1 <= k < 64 && Decodes(hac, c) && Accelerable(c.sizes) && FastAc(fac, c)
      modifies this`pos, this`code_buffer, this`code_bits, this`nomore, this`marker, this`fetched, this`p
      ensures !step.Missing? && (!step.Broken? ==> Valid())
      ensures step.Store? ==> k <= step.at <= k + 15
      ensures StepAnswers(NextStep(c, d, old(p), k), step, p)
    {
      NextStepIs(c, d, p, k);
      var x := PeekFast();
      var r := fac[x];
      if r != 0 {
        FastAcMeaning(fac, c, d, p, k, x);
        step := DecodeFastStep(r, k);
      } else {
        step := DecodeSlowStep(hac, c, k);
      }
    }

    method DecodeFastStep(r: int, k: nat) returns (step: Step)
      requires Valid() && Filled(16) && 1 <= k < 64
      modifies this`code_buffer, this`code_bits, this`p
      ensures !step.Missing? && (!step.Broken? ==> Valid())
      ensures step.Store? ==> k <= step.at <= k + 15
      ensures StepAnswers(FastStep(r, k, d, old(p)), step, p)
    {
      var s := r % 16;
      if s > code_bits {
        return Broken;
      }
      Drop(s);
      step := Store(k + r / 16 % 16, r / 256);
    }

    method DecodeSlowStep(hac: Lookup, ghost c: Codes, k: nat) returns (step: Step)
      requires Valid() && 1 <= k < 64 && Decodes(hac, c) && Accelerable(c.sizes)
      modifies this`pos, this`code_buffer, this`code_bits, this`nomore, this`marker, this`fetched, this`p
      ensures !step.Missing? && (!step.Broken? ==> Valid())
      ensures step.Store? ==> k <= step.at <= k + 15
      ensures StepAnswers(AcStep(c, d, old(p), k), step, p)
    {
      var rs := HuffDecode(hac, c);
      if rs < 0 {
        return Broken;
      }
      var s, r := rs % 16, rs / 16;
      if s == 0 {
        return if rs != 0xF0 then Stop else Skip;
      }
      var v := ExtendReceive(s);
      step := Store(k + r, v);
    }

    /** The DC difference; fails on a bad category. */
    method DecodeDiff(hdc: Lookup, ghost c: Codes) returns (ok: bool, diff: int)
      requires Valid() && Decodes(hdc, c) && Accelerable(c.sizes)
      modifies this`pos, this`code_buffer, this`code_bits, this`nomore, this`marker, this`fetched, this`p
      ensures ok ==> Valid() && -0x8000 <= diff < 0x8000
      ensures match ReadDiff(c, d, old(p))
              case Got(v, q) => ok && diff == v && p == q
              case NoCode => !ok
              case Short => true
    {
      if code_bits < 16 {
        GrowBuffer();
      }
      var t := HuffDecode(hdc, c);
      if t < 0 || t > 15 {
        return false, 0;
      }
      diff := 0;
      if t != 0 {
        diff := ExtendReceive(t);
      }
      ok := true;
    }

    /** The DC coefficient of component b and its dequantised value. */
    method DecodeDc(hdc: Lookup, b: nat, q0: nat, ghost c: Codes) returns (ok: bool, value: int)
      requires Valid() && Predicts() && b < 4 && Decodes(hdc, c) && Accelerable(c.sizes)
      modifies this`pos, this`code_buffer, this`code_bits, this`nomore, this`marker, this`fetched, this`p, this`dc_pred
      ensures Predicts() && (ok ==> Valid())
      ensures match ReadDc(c, d, old(p), old(dc_pred[b]), q0)
              case Got(dc, q) => ok && value == dc * q0 && p == q && dc_pred == old(dc_pred)[b := dc]
              case NoCode => !ok
              case Short => true
    {
      value := 0;
      var diff;
      ok, diff := DecodeDiff(hdc, c);
      if !ok {
        return;
      }
      ghost var p', pred := p, dc_pred[b];
      ok, value := Predict(b, diff, q0);
      DcOfDiff(c, d, old(p), pred, q0, diff, p');
    }

    lemma {:induction false} DcOfDiff(c: Codes, d: BitString, p: nat, pred: int, q0: nat, diff: int, q: nat)
      requires ValidCodes(c)
      ensures ReadDiff(c, d, p) == Got(diff, q) ==>
                ReadDc(c, d, p, pred, q0)
                == if Fits32(pred + diff) && Fits16((pred + diff) * q0) then Got(pred + diff, q) else NoCode
      ensures !ReadDiff(c, d, p).Got? ==> ReadDc(c, d, p, pred, q0) == ReadDiff(c, d, p)
    {
    }

    /** Adds a difference to the prediction of component b; fails when a result is out of range. */
    method Predict(b: nat, diff: int, q0: nat) returns (ok: bool, value: int)
      requires Predicts() && b < 4 && Fits32(diff)
      modifies this`dc_pred
      ensures Predicts()
      ensures ok <==> Fits32(old(dc_pred[b]) + diff) && Fits16((old(dc_pred[b]) + diff) * q0)
      ensures ok ==> value == (old(dc_pred[b]) + diff) * q0 && dc_pred == old(dc_pred)[b := old(dc_pred[b]) + diff]
    {
      value := 0;
      ok := AddIntsValid(dc_pred[b], diff);
      if !ok {
        return;
      }
      var dc := dc_pred[b] + diff;
      dc_pred := dc_pred[b := dc];
      ok := MulShortsValid(dc, q0);
      if ok {
        value := Int16(dc * q0);
      }
    }

    /** Decodes one data unit of component b into data, in row-major order. */
    method DecodeBlock(data: array<int>, hdc: Lookup, hac: Lookup, fac: seq<int>, b: nat, dequant: seq<nat>,
                       ghost dcc: Codes, ghost acc: Codes) returns (ok: bool)
      requires Valid() && Predicts() && b < 4 && data.Length == |dequant| == 64
      requires Decodes(hdc, dcc) && Accelerable(dcc.sizes)
      requires Decodes(hac, acc) && Accelerable(acc.sizes) && FastAc(fac, acc)
      modifies this, data
      ensures Predicts() && (ok ==> Valid())
      ensures UnitAnswers(ReadUnit(dcc, acc, d, old(p), old(dc_pred[b]), dequant), ok, data[..], p, old(dc_pred), dc_pred, b)
    {
      var value;
      ok, value := DecodeDc(hdc, b, dequant[0], dcc);
      if !ok {
        return;
      }
      StartUnit(data, value);
      ReadAcDc(acc, d, p, 1, data[..], dequant, dc_pred[b]);
      AcOutcomeIs(acc, d, p, 1, data[..], dequant, dc_pred[b]);
      ok := DecodeAc(data, hac, fac, dequant, acc, dc_pred[b]);
    }

    /** All coefficients but the first are zero. */
    method StartUnit(data: array<int>, value: int)
      requires data.Length == 64
      modifies data
      ensures data[..] == ZeroUnit()[0 := value]
    {
      forall i | 0 <= i < 64 {
        data[i] := 0;
      }
      data[0] := value;
    }

    /** The AC loop of a data unit. */
    method DecodeAc(data: array<int>, hac: Lookup, fac: seq<int>, dequant: seq<nat>, ghost c: Codes, ghost dc: int)
      returns (ok: bool)
      requires Valid() && data.Length == |dequant| == 64
      requires Decodes(hac, c) && Accelerable(c.sizes) && FastAc(fac, c)
      modifies this`pos, this`code_buffer, this`code_bits, this`nomore, this`marker, this`fetched, this`p, data
      ensures ok ==> Valid()
      ensures AcAnswers(AcOutcome(c, d, old(p), 1, old(data[..]), dequant, dc), ok, data[..], p)
    {
      var k: nat := 1;
      ghost var expected := AcOutcome(c, d, p, 1, data[..], dequant, dc);
      while k < 64
        invariant Valid() && 1 <= k < 80
        invariant expected.Cut? || expected == AcOutcome(c, d, p, k, data[..], dequant, dc)
        decreases 80 - k
      {
        var progress;
        progress, k := DecodeAcOne(data, hac, fac, dequant, c, dc, k);
        if progress != 0 {
          return progress > 0;
        }
      }
      AcOutcomeEnd(c, d, p, k, data[..], dequant, dc);
      ok := true;
    }

    /** One iteration: 1 at the end of the block, -1 on an error, 0 otherwise. */
    method DecodeAcOne(data: array<int>, hac: Lookup, fac: seq<int>, dequant: seq<nat>, ghost c: Codes, ghost dc: int,
                       k0: nat) returns (progress: int, k: nat)
      requires Valid() && data.Length == |dequant| == 64 && 1 <= k0 < 64
      requires Decodes(hac, c) && Accelerable(c.sizes) && FastAc(fac, c)
      modifies this`pos, this`code_buffer, this`code_bits, this`nomore, this`marker, this`fetched, this`p, data
      ensures progress >= 0 ==> Valid()
      ensures progress == 0 ==> k0 < k < 80
      ensures var expected := AcOutcome(c, d, old(p), k0, old(data[..]), dequant, dc);
              || expected.Cut?
              || (progress == 0 && expected == AcOutcome(c, d, p, k, data[..], dequant, dc))
              || (progress > 0 && expected == Done(data[..], dc, p))
              || (progress < 0 && expected.Bad?)
    {
      k := k0;
      AcOutcomeStep(c, d, p, k, data[..], dequant, dc, NextStep(c, d, p, k).0, NextStep(c, d, p, k).1);
      var step := DecodeAcStep(hac, fac, c, k);
      match step {
        case Store(at, v) =>
          PutAt(data, at, v, dequant);
          progress, k := 0, at + 1;
        case Skip =>
          progress, k := 0, k + 16;
        case Stop =>
          progress := 1;
        case _ =>
          progress := -1;
      }
    }
  }

  /** What a decoded step and the new position say about the step to be read. */
  ghost predicate StepAnswers(expected: (Step, nat), step: Step, p: nat) {
    expected.0.Missing? || (step == expected.0 && (!step.Broken? ==> p == expected.1))
  }

  /** The combined table built for these codes. */
  ghost predicate FastAc(fac: seq<int>, c: Codes)
    requires ValidCodes(c)
  {
    |fac| == 512 && forall i :: 0 <= i < 512 ==> FastAcAt(fac, c, i)
  }

  ghost predicate FastAcAt(fac: seq<int>, c: Codes, i: nat)
    requires ValidCodes(c) && i < |fac|
  {
    fac[i] == FastAcOf(c, i)
  }

  /** Stores a dequantised coefficient in its unzigzagged place. */
  method PutAt(data: array<int>, at: nat, v: int, dequant: seq<nat>)
    requires data.Length == |dequant| == 64
    modifies data
    ensures data[..] == Put(old(data[..]), at, v, dequant)
  {
    var zig := ZigZag.Unscan(at);
    data[zig] := Int16(v * dequant[zig]);
  }

  /** What decoded coefficients and the new position say about the unit to be read. */
  ghost predicate AcAnswers(expected: Outcome, ok: bool, data: seq<int>, p: nat) {
    match expected
    case Done(v, _, q) => ok && data == v && p == q
    case Bad => !ok
    case Cut => true
  }

  /** Also what the prediction of component b becomes. */
  ghost predicate UnitAnswers(expected: Outcome, ok: bool, data: seq<int>, p: nat,
                              before: seq<int>, after: seq<int>, b: nat)
    requires b < |before|
  {
    AcAnswers(expected, ok, data, p) && (expected.Done? ==> after == before[b := expected.dc])
  }

  lemma {:induction false} ReadAcDc(c: Codes, d: BitString, p: nat, k: nat, data: seq<int>, dequant: seq<nat>, dc: int)
    requires ValidCodes(c) && 1 <= k && |data| == |dequant| == 64
    ensures var o := ReadAc(c, d, p, k, data, dequant, dc); o.Done? ==> o.dc == dc
    decreases 80 - k
  {
    if k < 64 {
      var (step, q) := NextStep(c, d, p, k);
      match step
      case Skip => ReadAcDc(c, d, q, k + 16, data, dequant, dc);
      case Store(at, v) => ReadAcDc(c, d, q, at + 1, Put(data, at, v, dequant), dequant, dc);
      case _ =>
    }
  }

  /** Whether the sum of two 32-bit integers is one. */
  method AddIntsValid(a: int, b: int) returns (r: bool)
    requires Fits32(a) && Fits32(b)
    ensures r <==> Fits32(a + b)
  {
    if (a >= 0) != (b >= 0) {
      return true;
    }
    if a < 0 && b < 0 {
      return a >= -0x8000_0000 - b;
    }
    r := a <= 0x7FFF_FFFF - b;
  }

  /** Whether the product with a quantiser fits in 16 bits; division rounds toward zero. */
  method MulShortsValid(a: int, b: nat) returns (r: bool)
    ensures r <==> Fits16(a * b)
  {
    if b == 0 {
      return true;
    }
    if a >= 0 {
      QuotientBound(a, b, 0x7FFF);
      return a <= 0x7FFF / b;
    }
    QuotientBound(-a, b, 0x8000);
    r := a >= -(0x8000 / b);
  }

  lemma {:induction false} QuotientBound(a: int, b: nat, m: nat)
    requires b > 0
    ensures a <= m / b <==> a * b <= m
  {
    assert m == m / b * b + m % b;
    MulGap(m / b, a, b);
    MulGap(a, m / b, b);
  }

  /** 32-bit rotation to the left. */
  function RotateLeft(x: nat, n: nat): nat
    requires n <= 32
  {
    BitOr(Shl(x, n) % 0x1_0000_0000, Shr(x, 32 - n))
  }

  /** Rotating, then splitting off the low n bits, receives n bits and drops them. */
  lemma {:induction false} Received(buf: nat, bits: nat, d: BitString, p: nat, n: nat)
    requires Holds(buf, bits, d, p) && 1 <= n <= bits
    ensures Low(RotateLeft(buf, n), n) == Peek(d, p, n)
    ensures Holds(RotateLeft(buf, n) - Low(RotateLeft(buf, n), n), bits - n, d, p + n)
    ensures Shr(buf, 31) == 0 <==> Peek(d, p, n) < Pow2(n - 1)
  {
    HoldsPeek(buf, bits, d, p, 1);
    FirstBit(d, p, n);
    HoldsPeek(buf, bits, d, p, n);
    HoldsDrop(buf, bits, d, p, n);
    RotateParts(Shl(buf, n) % 0x1_0000_0000, Peek(d, p, n), Peek(d, p + n, bits - n), 32 - bits, n);
  }

  lemma {:induction false} RotateParts(shifted: nat, top: nat, rest: nat, m: nat, n: nat)
    requires shifted == Shl(rest, m + n) && top < Pow2(n)
    ensures Low(BitOr(shifted, top), n) == top && BitOr(shifted, top) == shifted + top
  {
    ShlAdd(rest, m, n);
    LowOrDisjoint(Shl(rest, m), top, n);
  }

  /** The sign bit decides whether n bits are below half of their range. */
  lemma {:induction false} FirstBit(d: BitString, p: nat, n: nat)
    requires n >= 1
    ensures Peek(d, p, 1) == 0 <==> Peek(d, p, n) < Pow2(n - 1)
  {
    PeekSplit(d, p, 1, n - 1);
    ShlIsMul(Peek(d, p, 1), n - 1);
    assert Peek(d, p, 1) == 0 || Peek(d, p, 1) == 1;
  }

  /** What a decoded symbol and the new position say about the symbol to be read. */
  ghost predicate Answers(read: Read, r: int, p: nat) {
    match read
    case Got(v, q) => r == v && p == q
    case NoCode => r == -1
    case Short => true
  }

  /** The same of the word with zeros for missing bits: one that ends past n bits may be given up. */
  ghost predicate Completes(padded: Read, r: int, p: nat, n: nat) {
    match padded
    case Got(v, q) => (r == v && p == q) || (r == -1 && q > n)
    case _ => r == -1
  }

  lemma {:induction false} CompletedAnswers(c: Codes, d: BitString, p: nat, r: int, q: nat)
    requires ValidCodes(c) && Completes(PaddedSymbol(c, d, p), r, q, |d|)
    ensures Answers(ReadSymbol(c, d, p), r, q)
  {
  }

  lemma {:induction false} FastPath(c: Codes, d: BitString, p: nat, x: nat)
    requires ValidCodes(c) && x == Peek(d, p, 9) && FastOf(c.sizes, |c.sizes|, x) != 255
    ensures var f := FastOf(c.sizes, |c.sizes|, x);
            && f < |c.sizes| && 1 <= c.sizes[f] <= FAST_BITS
            && PaddedSymbol(c, d, p) == Got(c.vals[f], p + c.sizes[f])
  {
    NineOfSixteen(d, p);
    FastOfHeads(c.sizes, |c.sizes|, x);
    FastHit(c.sizes, x, Peek(d, p, 16));
    OrderedAt(c.sizes, FastOf(c.sizes, |c.sizes|, x));
  }

  /** The limits of length k enclose t. */
  ghost predicate Between(s: seq<nat>, t: nat, k: nat, delta: int)
    requires 1 <= k <= 16
  {
    && Offset(s, k, delta)
    && Left(s, Upto(s, |s|, k - 1)) <= t < Left(s, Upto(s, |s|, k))
  }

  /** A served entry is not the masked one. */
  lemma {:induction false} NotMasked(s: seq<nat>, x: nat, d: BitString, p: nat)
    requires Fits(s) && |s| <= 256 && x == Peek(d, p, 9) && FastOf(s, |s|, x) != 255
    ensures !Masked(s, Peek(d, p, 16))
  {
    NineOfSixteen(d, p);
    FastHit(s, x, Peek(d, p, 16));
  }

  /** Where the search stops, and that it stops at ten bits for the masked word. */
  lemma {:induction false} SlowStart(s: seq<nat>, x: nat, d: BitString, p: nat, k: nat)
    requires Fits(s) && |s| <= 256 && x == Peek(d, p, 9) && FastOf(s, |s|, x) == 255
    requires 10 <= k <= 17 && (k > 10 ==> Left(s, Upto(s, |s|, k - 1)) <= Peek(d, p, 16))
    ensures if Masked(s, Peek(d, p, 16)) then k == 10 else Left(s, Upto(s, |s|, k - 1)) <= Peek(d, p, 16)
  {
    if Masked(s, Peek(d, p, 16)) {
      UptoSplits(s, |s|, k - 1);
    } else {
      NotBelowFast(s, x, d, p);
    }
  }

  lemma {:induction false} SlowPath(c: Codes, d: BitString, p: nat, k: nat, delta: int)
    requires ValidCodes(c) && 1 <= k <= 16 && Between(c.sizes, Peek(d, p, 16), k, delta)
    ensures var f := Peek(d, p, k) + delta;
            && 0 <= f < |c.sizes| && Peek(d, p, k) < Pow2(k)
            && PaddedSymbol(c, d, p) == Got(c.vals[f], p + k)
  {
    var t := Peek(d, p, 16);
    SlowHit(c.sizes, t, k);
    var f := Find(c.sizes, |c.sizes|, t);
    WordValue(c.sizes, f, d, p);
    OffsetOf(c.sizes, f, delta);
  }

  /** When the acceleration table does not serve these bits they lie beyond all short words. */
  lemma {:induction false} NotBelowFast(s: seq<nat>, x: nat, d: BitString, p: nat)
    requires Fits(s) && |s| <= 256 && !Masked(s, Peek(d, p, 16))
    requires x == Peek(d, p, 9) && FastOf(s, |s|, x) == 255
    ensures Left(s, Upto(s, |s|, 9)) <= Peek(d, p, 16)
  {
    var t := Peek(d, p, 16);
    NineOfSixteen(d, p);
    if t < Left(s, Upto(s, |s|, 9)) {
      var f := HeadsExists(s, Upto(s, |s|, 9), t);
      UptoSplits(s, |s|, 9);
      FastMiss(s, x, t, f);
      FindIs(s, |s|, t, f);
    }
  }

  // ---------- data units ----------

  /** The step that a combined entry stands for. */
  ghost function FastStep(r: int, k: nat, d: BitString, p: nat): (Step, nat) {
    if p + r % 16 <= |d| then (Store(k + r / 16 % 16, r / 256), p + r % 16) else (Missing, p)
  }

  /** A nonzero combined entry is the next symbol and its amplitude. */
  lemma {:induction false} FastAcMeaning(fac: seq<int>, c: Codes, d: BitString, p: nat, k: nat, x: nat)
    requires ValidCodes(c) && FastAc(fac, c) && 1 <= k < 64 && x == Peek(d, p, 9) < 512 && fac[x] != 0
    ensures AcStep(c, d, p, k) == FastStep(fac[x], k, d, p)
  {
    assert FastAcAt(fac, c, x);
    FastPath(c, d, p, x);
    var f := FastOf(c.sizes, |c.sizes|, x);
    var rs, len := c.vals[f], c.sizes[f];
    PackedMeaning(rs, len, d, p);
  }

  lemma {:induction false} PackedMeaning(rs: Byte, len: nat, d: BitString, p: nat)
    requires 1 <= len
    ensures var x, mag := Peek(d, p, 9), rs % 16;
            var r := Packed(rs, len, x);
            r != 0 ==> && mag > 0 && r % 16 == len + mag && r / 16 % 16 == rs / 16
                       && r / 256 == Extend(Peek(d, p + len, mag), mag)
  {
    var x, mag := Peek(d, p, 9), rs % 16;
    if mag > 0 && len + mag <= FAST_BITS {
      MiddleBits(d, p, len, mag);
      var k := Extend(Peek(d, p + len, mag), mag);
      Unpack(k, rs / 16, len + mag);
    }
  }

  lemma {:induction false} Unpack(k: int, run: int, n: int)
    requires 0 <= run < 16 && 0 <= n < 16
    ensures var r := k * 256 + run * 16 + n; r % 16 == n && r / 16 % 16 == run && r / 256 == k
  {
    var r := k * 256 + run * 16 + n;
    DivModUnique(r, k, 256, run * 16 + n);
    DivModUnique(r, k * 16 + run, 16, n);
    DivModUnique(k * 16 + run, k, 16, run);
  }

  /** Shifting nine bits left within nine bits, then right, picks the bits in the middle. */
  lemma {:induction false} MiddleBits(d: BitString, p: nat, len: nat, mag: nat)
    requires len + mag <= 9
    ensures Shr(Shl(Peek(d, p, 9), len) % 512, 9 - mag) == Peek(d, p + len, mag)
  {
    MiddleOf(d, p, len, mag, 9 - len - mag);
    Pow2At9();
  }

  lemma {:induction false} MiddleOf(d: BitString, p: nat, a: nat, b: nat, c: nat)
    ensures Shr(Shl(Peek(d, p, a + (b + c)), a) % Pow2(b + c + a), a + c) == Peek(d, p + a, b)
  {
    var hi, mid, lo := Peek(d, p, a), Peek(d, p + a, b), Peek(d, p + a + b, c);
    PeekSplit(d, p, a, b + c);
    PeekSplit(d, p + a, b, c);
    assert Peek(d, p + a, b + c) == Shl(mid, c) + lo;
    MiddleValue(Peek(d, p, a + (b + c)), hi, mid, lo, a, b, c);
  }

  lemma {:induction false} MiddleValue(v: nat, hi: nat, mid: nat, lo: nat, a: nat, b: nat, c: nat)
    requires v == Shl(hi, b + c) + (Shl(mid, c) + lo) && lo < Pow2(c) && Shl(mid, c) + lo < Pow2(b + c)
    ensures Shr(Shl(v, a) % Pow2(b + c + a), a + c) == mid
  {
    RegisterDrop(hi, Shl(mid, c) + lo, b + c, a, 0);
    MiddleShifted(mid, lo, a, c);
  }

  lemma {:induction false} Pow2At9()
    ensures Pow2(9) == 512
  {
    Pow2Values();
  }

  lemma {:induction false} MiddleShifted(mid: nat, lo: nat, a: nat, c: nat)
    requires lo < Pow2(c)
    ensures Shr(Shl(Shl(mid, c) + lo, a), a + c) == mid
  {
    ShlSum(Shl(mid, c), lo, a);
    ShlAdd(mid, c, a);
    ShlBelow(lo, c, a);
    ShrOfShl(mid, Shl(lo, a), c + a);
  }
}
