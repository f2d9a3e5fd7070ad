/**
 The deflate code tables of stb_image.h: building the 9-bit acceleration table and the preshifted
 limits from a list of code lengths, and finding the symbol whose code word comes next.
 */
module StbZHuffman {
  import opened Bits
  import opened LsbBits
  import opened Canonical
  import opened DeflateCodes

  const ZFAST_BITS := 9
  const ZNSYMS := 288

  // ---------- what the tables hold ----------

  /** The word of symbol i, at most nine bits long, is what x starts with. */
  ghost predicate Serves(lens: seq<nat>, i: nat, x: nat)
    requires i < |lens|
  {
    && 1 <= lens[i] <= ZFAST_BITS && Rank(lens, i) < |Sizes(lens)|
    && Low(x, lens[i]) == Rev(Code(Sizes(lens), Rank(lens, i)), lens[i])
  }

  /** The acceleration entry for nine buffered bits: length and symbol, or 0. */
  ghost function FastOf(lens: seq<nat>, n: nat, x: nat): nat
    requires n <= |lens|
  {
    if n == 0 then 0 else if Serves(lens, n - 1, x) then 512 * lens[n - 1] + (n - 1) else FastOf(lens, n - 1, x)
  }

  /** First code, first place and preshifted limit of the words of length j. */
  ghost predicate LengthEntry(lens: seq<nat>, j: nat, firstcode: nat, firstsymbol: nat, maxcode: nat)
    requires 1 <= j <= 15
  {
    UptoIs(lens, j - 1);
    UptoIs(lens, j);
    && firstsymbol == Below(lens, j - 1) && maxcode == Left(Sizes(lens), Below(lens, j))
    && Shl(firstcode, 16 - j) == Left(Sizes(lens), Below(lens, j - 1))
  }

  /** Place k, once its symbol is among the first n. */
  ghost predicate PlaceEntry(lens: seq<nat>, n: nat, k: nat, size: nat, value: nat)
    requires k < |Order(lens)|
  {
    Order(lens)[k] < n ==> size == Sizes(lens)[k] && value == Order(lens)[k]
  }

  // ---------- building ----------

  class ZHuffman {
    const fast: array<nat>
    const firstcode: array<nat>
    const maxcode: array<nat>
    const firstsymbol: array<nat>
    const size: array<nat>
    const value: array<nat>

    ghost predicate Shaped() {
      && fast.Length == 512 && firstcode.Length == 16 && maxcode.Length == 17 && firstsymbol.Length == 16
      && size.Length == ZNSYMS && value.Length == ZNSYMS
      && fast !in {firstcode, maxcode, firstsymbol, size, value} && firstcode !in {maxcode, firstsymbol, size, value}
      && maxcode !in {firstsymbol, size, value} && firstsymbol !in {size, value} && size != value
    }

    constructor ()
      ensures Shaped() && fresh(fast) && fresh(firstcode) && fresh(maxcode)
      ensures fresh(firstsymbol) && fresh(size) && fresh(value)
    {
      fast := new nat[512](_ => 0);
      firstcode := new nat[16](_ => 0);
      maxcode := new nat[17](_ => 0);
      firstsymbol := new nat[16](_ => 0);
      size := new nat[ZNSYMS](_ => 0);
      value := new nat[ZNSYMS](_ => 0);
    }

    ghost predicate Limited(lens: seq<nat>, j: nat)
      requires Shaped() && j <= 16
      reads firstcode, firstsymbol, maxcode
    {
      forall i :: 1 <= i < j ==> LengthEntry(lens, i, firstcode[i], firstsymbol[i], maxcode[i])
    }

    ghost predicate Placed(lens: seq<nat>, n: nat)
      requires Shaped()
      reads size, value
    {
      |Order(lens)| <= ZNSYMS && forall k :: 0 <= k < |Order(lens)| ==> PlaceEntry(lens, n, k, size[k], value[k])
    }

    ghost predicate Accelerated(lens: seq<nat>, n: nat)
      requires Shaped() && n <= |lens|
      reads fast
    {
      forall x :: 0 <= x < 512 ==> fast[x] == FastOf(lens, n, x)
    }

    ghost predicate Built(lens: seq<nat>)
      reads fast, firstcode, maxcode, firstsymbol, size, value
    {
      && Shaped() && Fits(Sizes(lens)) && |lens| <= ZNSYMS
      && Limited(lens, 16) && maxcode[16] == 0x1_0000 && Placed(lens, |lens|) && Accelerated(lens, |lens|)
    }

    /** The codes handed out so far are the first codes of the lengths below j. */
    ghost predicate Starts(next_code: seq<nat>, j: nat)
      requires Shaped() && j <= 16
      reads firstcode
    {
      |next_code| == 16 && forall i :: 1 <= i < j ==> next_code[i] == firstcode[i]
    }

    /** Codes and limits of the words of length j, which start at place k0 with the given code. */
    method BuildLength(lens: seq<nat>, j: nat, count: nat, k0: nat, code0: nat) returns (ok: bool, k: nat, code: nat)
      requires Shaped() && 1 <= j <= 15 && count == Count(lens, j, |lens|)
      requires NextUp(lens, j, k0, code0) && Limited(lens, j)
      modifies firstcode, firstsymbol, maxcode
      ensures ok ==> NextUp(lens, j + 1, k, code) && Limited(lens, j + 1)
      ensures !ok ==> !Fits(Sizes(lens))
      ensures firstcode[j] == code0 && forall i :: 0 <= i < j ==> firstcode[i] == old(firstcode[i])
    {
      firstcode[j], firstsymbol[j] := code0, k0;
      k, code := k0, code0 + count;
      LengthDone(lens, j, count, k, code0);
      if count != 0 && code - 1 >= Pow2(j) {
        return false, k, code;
      }
      maxcode[j] := Shl(code, 16 - j);
      code := 2 * code;
      k := k + count;
      ok := true;
    }

    /** Codes and limits of all lengths; fails when the words do not fit. */
    method BuildCodes(lens: seq<nat>, sizes: seq<nat>) returns (ok: bool, next_code: seq<nat>)
      requires Shaped() && Counted(sizes, lens)
      modifies firstcode, firstsymbol, maxcode
      ensures ok <==> Fits(Sizes(lens))
      ensures ok ==> Limited(lens, 16) && maxcode[16] == 0x1_0000 && Starts(next_code, 16)
    {
      var code: nat, k: nat := 0, 0;
      next_code := seq(16, _ => 0);
      FirstUp(lens);
      ok := true;
      for j := 1 to 16
        invariant ok && NextUp(lens, j, k, code) && Limited(lens, j) && Starts(next_code, j)
      {
        next_code := next_code[j := code];
        assert sizes[j] == Count(lens, j, |lens|);
        ok, k, code := BuildLength(lens, j, sizes[j], k, code);
        if !ok {
          return;
        }
      }
      AllUp(lens, k, code);
      maxcode[16] := 0x1_0000;
    }

    /** Writes an entry to every place whose low s bits are r. */
    method Stamp(r: nat, s: nat, entry: nat)
      requires Shaped() && r < Pow2(s)
      modifies fast
      ensures forall x :: 0 <= x < 512 ==> fast[x] == if Low(x, s) == r then entry else old(fast[x])
    {
      var j := r;
      ghost var m := 0;
      ShlIsMul(0, s);
      LowestEntry(r, s);
      while j < 512
        invariant j == r + Shl(m, s)
        invariant forall x :: 0 <= x < 512 ==> fast[x] == if x < j && Low(x, s) == r then entry else old(fast[x])
        decreases 512 - j
      {
        NextEntries(r, s, m);
        fast[j] := entry;
        j, m := j + Pow2(s), m + 1;
      }
    }

    /** Enters the word of symbol i, if it is short, for every completion to nine bits. */
    method EnterFast(lens: seq<nat>, i: nat, s: nat, code: nat)
      requires Shaped() && i < |lens| <= ZNSYMS && s == lens[i] && Accelerated(lens, i)
      requires 1 <= s <= 15 && Rank(lens, i) < |Sizes(lens)| && code == Code(Sizes(lens), Rank(lens, i)) < Pow2(s)
      modifies fast
      ensures Accelerated(lens, i + 1)
    {
      if s <= ZFAST_BITS {
        BitReverseIs(code, s);
        RevRev(code, s);
        FastEntryIs(s, i);
        Stamp(BitReverse(code, s), s, FastEntry(s, i));
      }
    }

    /** Enters symbol i in its place. */
    method EnterPlace(lens: seq<nat>, i: nat, c: nat)
      requires Shaped() && i < |lens| <= ZNSYMS && 1 <= lens[i] <= 15 && c == Rank(lens, i) && Placed(lens, i)
      modifies size, value
      ensures Placed(lens, i + 1)
    {
      OwnPlace(lens, i);
      size[c] := lens[i];
      value[c] := i;
      forall k | 0 <= k < |Order(lens)|
        ensures PlaceEntry(lens, i + 1, k, size[k], value[k])
      {
        if k != c {
          assert PlaceEntry(lens, i, k, old(size[k]), old(value[k]));
          OtherPlaces(lens, i, k, size[k], value[k]);
        }
      }
    }

    /** A symbol without a word has no place. */
    lemma {:induction false} SkipPlaces(lens: seq<nat>, i: nat)
      requires Shaped() && i < |lens| && lens[i] == 0 && Placed(lens, i)
      ensures Placed(lens, i + 1)
    {
      forall k | 0 <= k < |Order(lens)|
        ensures PlaceEntry(lens, i + 1, k, size[k], value[k])
      {
        assert PlaceEntry(lens, i, k, size[k], value[k]);
        OtherPlaces(lens, i, k, size[k], value[k]);
      }
    }

    /** Enters symbol i in its place and, if its word is short, in the acceleration table. */
    method PlaceSymbol(lens: seq<nat>, i: nat, next_code: seq<nat>) returns (next: seq<nat>)
      requires Shaped() && Lengths(lens) && Fits(Sizes(lens)) && i < |lens| <= ZNSYMS
      requires Limited(lens, 16) && Placed(lens, i) && Accelerated(lens, i)
      requires Upcoming(lens, i, next_code, firstcode[..])
      modifies fast, size, value
      ensures Placed(lens, i + 1) && Accelerated(lens, i + 1)
      ensures Upcoming(lens, i + 1, next, firstcode[..])
    {
      next := next_code;
      var s := lens[i];
      if s != 0 {
        assert LengthEntry(lens, s, firstcode[s], firstsymbol[s], maxcode[s]);
        RankAndCode(lens, i, firstcode[s], firstsymbol[s], maxcode[s]);
        EnterPlace(lens, i, next_code[s] - firstcode[s] + firstsymbol[s]);
        EnterFast(lens, i, s, next_code[s]);
        next := next[s := next[s] + 1];
      } else {
        SkipPlaces(lens, i);
      }
    }

    /** Builds the tables for the given lengths, or fails when their words do not fit. */
    method Build(sizelist: seq<nat>) returns (ok: bool)
      requires Shaped() && Lengths(sizelist) && |sizelist| <= ZNSYMS
      modifies fast, firstcode, firstsymbol, maxcode, size, value
      ensures ok <==> Fits(Sizes(sizelist))
      ensures ok ==> Built(sizelist)
    {
      forall x | 0 <= x < 512 {
        fast[x] := 0;
      }
      var sizes := CountLengths(sizelist);
      ok := CheckSizes(sizelist, sizes);
      if !ok {
        return;
      }
      var next_code;
      ok, next_code := BuildCodes(sizelist, sizes);
      if ok {
        PlaceSymbols(sizelist, next_code);
      }
    }

    method PlaceSymbols(lens: seq<nat>, next_code0: seq<nat>)
      requires Shaped() && Lengths(lens) && Fits(Sizes(lens)) && |lens| <= ZNSYMS
      requires Limited(lens, 16) && Accelerated(lens, 0) && Starts(next_code0, 16)
      modifies fast, size, value
      ensures Placed(lens, |lens|) && Accelerated(lens, |lens|)
    {
      var next_code := next_code0;
      OrderShort(lens);
      for i := 0 to |lens|
        invariant Limited(lens, 16) && Placed(lens, i) && Accelerated(lens, i)
        invariant Upcoming(lens, i, next_code, firstcode[..])
      {
        next_code := PlaceSymbol(lens, i, next_code);
      }
    }

    /** The finished tables. */
    method Finish(ghost lens: seq<nat>) returns (h: Lookup)
      requires Built(lens)
      ensures Decodes(h, WordsOf(lens))
    {
      h := Lookup(fast[..], firstcode[..], maxcode[..], firstsymbol[..], size[..], value[..]);
      FinishedParts(lens, h);
    }

    lemma {:induction false} FinishedParts(lens: seq<nat>, h: Lookup)
      requires Built(lens)
      requires h == Lookup(fast[..], firstcode[..], maxcode[..], firstsymbol[..], size[..], value[..])
      ensures Decodes(h, WordsOf(lens))
    {
      var w := WordsOf(lens);
      WordsValid(lens);
      OrderShort(lens);
      forall x | 0 <= x < 512
        ensures FastAt(h, w, x)
      {
        FastMeans(lens, x);
      }
      forall k | 0 <= k < |w.order|
        ensures PlaceAt(h, w, k)
      {
        assert PlaceEntry(lens, |lens|, k, size[k], value[k]);
      }
      forall j | 1 <= j <= 15
        ensures LengthAt(h, w, j)
      {
        assert LengthEntry(lens, j, firstcode[j], firstsymbol[j], maxcode[j]);
        LengthMeans(lens, j, h);
      }
    }
  }

  /** Finished decoding tables: what the decoder reads and no longer changes. */
  datatype Lookup = Lookup(fast: seq<nat>, firstcode: seq<nat>, maxcode: seq<nat>, firstsymbol: seq<nat>,
                           size: seq<nat>, value: seq<nat>)

  ghost predicate Shape(h: Lookup) {
    && |h.fast| == 512 && |h.firstcode| == |h.firstsymbol| == 16 && |h.maxcode| == 17
    && |h.size| == |h.value| == ZNSYMS
  }

  /** The word at place k, at most nine bits long, is what x starts with. */
  ghost predicate PlaceServes(w: Words, k: nat, x: nat) {
    && k < |w.sizes| == |w.order| && 1 <= w.sizes[k] <= ZFAST_BITS
    && Low(x, w.sizes[k]) == Rev(Code(w.sizes, k), w.sizes[k])
  }

  ghost predicate ServedBy(w: Words, k: nat, x: nat, b: nat) {
    PlaceServes(w, k, x) && b == 512 * w.sizes[k] + w.order[k]
  }

  /** A nonzero entry gives length and symbol of a short word that the nine bits start with. */
  ghost predicate FastAt(h: Lookup, w: Words, x: nat)
    requires x < |h.fast|
  {
    if h.fast[x] == 0 then forall k: nat :: !PlaceServes(w, k, x)
    else exists k: nat :: ServedBy(w, k, x, h.fast[x])
  }

  ghost predicate PlaceAt(h: Lookup, w: Words, k: nat)
    requires Shape(h) && k < |w.order| == |w.sizes|
  {
    k < ZNSYMS && h.size[k] == w.sizes[k] && h.value[k] == w.order[k]
  }

  ghost predicate LengthAt(h: Lookup, w: Words, j: nat)
    requires Shape(h) && 1 <= j <= 15
  {
    && h.maxcode[j] == Left(w.sizes, Upto(w.sizes, |w.sizes|, j))
    && Offset(w.sizes, j, h.firstsymbol[j] as int - h.firstcode[j] as int)
  }

  /** The tables decode these words. */
  ghost predicate Decodes(h: Lookup, w: Words) {
    && Shape(h) && ValidWords(w) && w.count <= ZNSYMS && h.maxcode[16] == 0x1_0000
    && (forall x :: 0 <= x < 512 ==> FastAt(h, w, x))
    && (forall k :: 0 <= k < |w.order| ==> PlaceAt(h, w, k))
    && (forall j :: 1 <= j <= 15 ==> LengthAt(h, w, j))
  }

  lemma {:induction false} FastFinds(lens: seq<nat>, n: nat, x: nat) returns (i: nat)
    requires n <= |lens| <= ZNSYMS && FastOf(lens, n, x) != 0
    ensures i < n && Serves(lens, i, x) && FastOf(lens, n, x) == 512 * lens[i] + i
  {
    if Serves(lens, n - 1, x) {
      i := n - 1;
    } else {
      i := FastFinds(lens, n - 1, x);
    }
  }

  lemma {:induction false} FastServes(lens: seq<nat>, n: nat, x: nat, i: nat)
    requires i < n <= |lens| && Serves(lens, i, x)
    ensures FastOf(lens, n, x) != 0
  {
    if i < n - 1 {
      FastServes(lens, n - 1, x, i);
    }
  }

  lemma {:induction false} FastMeans(lens: seq<nat>, x: nat)
    requires |lens| <= ZNSYMS
    ensures var b := FastOf(lens, |lens|, x);
            if b == 0 then forall k: nat :: !PlaceServes(WordsOf(lens), k, x)
            else exists k: nat :: ServedBy(WordsOf(lens), k, x, b)
  {
    var b := FastOf(lens, |lens|, x);
    if b == 0 {
      forall k: nat
        ensures !PlaceServes(WordsOf(lens), k, x)
      {
        if PlaceServes(WordsOf(lens), k, x) {
          OrderRank(lens, k);
          FastServes(lens, |lens|, x, Order(lens)[k]);
        }
      }
    } else {
      var i := FastFinds(lens, |lens|, x);
      RankOrder(lens, i);
      assert ServedBy(WordsOf(lens), Rank(lens, i), x, b);
    }
  }

  lemma {:induction false} LengthMeans(lens: seq<nat>, j: nat, h: Lookup)
    requires Shape(h) && 1 <= j <= 15 && LengthEntry(lens, j, h.firstcode[j], h.firstsymbol[j], h.maxcode[j])
    ensures LengthAt(h, WordsOf(lens), j)
  {
    UptoIs(lens, j - 1);
    UptoIs(lens, j);
  }

  // ---------- placing the symbols ----------

  /** The next code of every length: the first one plus the symbols of that length already placed. */
  ghost predicate Upcoming(lens: seq<nat>, n: nat, next_code: seq<nat>, firstcode: seq<nat>)
    requires n <= |lens|
  {
    |next_code| == |firstcode| == 16
    && forall j :: 1 <= j < 16 ==> next_code[j] == firstcode[j] + Count(lens, j, n)
  }

  /** Place and code of a symbol follow from the first ones of its length. */
  lemma {:induction false} RankAndCode(lens: seq<nat>, i: nat, firstcode: nat, firstsymbol: nat, maxcode: nat)
    requires i < |lens| && 1 <= lens[i] <= 15 && LengthEntry(lens, lens[i], firstcode, firstsymbol, maxcode)
    ensures Rank(lens, i) == firstsymbol + Count(lens, lens[i], i) < |Order(lens)|
    ensures Fits(Sizes(lens)) ==> Code(Sizes(lens), Rank(lens, i)) < Pow2(lens[i])
    ensures Code(Sizes(lens), Rank(lens, i)) == firstcode + Count(lens, lens[i], i)
  {
    RankOrder(lens, i);
    RunOf(lens, lens[i], Rank(lens, i));
    SizesOrdered(lens);
    CodeAfter(Sizes(lens), Rank(lens, i), lens[i], firstcode, Count(lens, lens[i], i), Below(lens, lens[i] - 1));
  }

  lemma {:induction false} CodeAfter(s: seq<nat>, k: nat, j: nat, first: nat, t: nat, u: nat)
    requires Ordered(s) && k < |s| && u <= k && s[k] == j <= 16
    requires Left(s, k) == Left(s, u) + Shl(t, 16 - j) && Shl(first, 16 - j) == Left(s, u)
    ensures Code(s, k) == first + t
    ensures Fits(s) ==> Code(s, k) < Pow2(j)
  {
    if Fits(s) {
      CodeSpan(s, k);
    }
    CodeIsLeft(s, k);
    ShlSum(first, t, 16 - j);
    ShlInjective(Code(s, k), first + t, 16 - j);
  }

  /** Placing symbol i touches no other place. */
  lemma {:induction false} OtherPlaces(lens: seq<nat>, i: nat, k: nat, size: nat, value: nat)
    requires i < |lens| && k < |Order(lens)| && PlaceEntry(lens, i, k, size, value)
    requires lens[i] >= 1 ==> k != Rank(lens, i)
    ensures PlaceEntry(lens, i + 1, k, size, value)
  {
    OrderRank(lens, k);
  }

  lemma {:induction false} OwnPlace(lens: seq<nat>, i: nat)
    requires i < |lens| && 1 <= lens[i] <= 15
    ensures Rank(lens, i) < |Order(lens)| && PlaceEntry(lens, i + 1, Rank(lens, i), lens[i], i)
  {
    RankOrder(lens, i);
  }

  lemma {:induction false} OrderShort(lens: seq<nat>)
    ensures |Order(lens)| <= |lens|
  {
    BelowPart(lens, 15, |lens|);
  }

  /** Symbols among the first n with words of length 1 to j: each is counted for one length. */
  function BelowIn(lens: seq<nat>, j: nat, n: nat): nat
    requires n <= |lens|
  {
    if n == 0 then 0 else BelowIn(lens, j, n - 1) + (if 1 <= lens[n - 1] <= j then 1 else 0)
  }

  lemma {:induction false} BelowInBound(lens: seq<nat>, j: nat, n: nat)
    requires n <= |lens|
    ensures BelowIn(lens, j, n) <= n
    ensures j > 0 ==> BelowIn(lens, j, n) == BelowIn(lens, j - 1, n) + Count(lens, j, n)
    ensures j == 0 ==> BelowIn(lens, j, n) == 0
  {
    if n > 0 {
      BelowInBound(lens, j, n - 1);
    }
  }

  lemma {:induction false} BelowPart(lens: seq<nat>, j: nat, n: nat)
    requires n == |lens|
    ensures Below(lens, j) == BelowIn(lens, j, n) <= n
  {
    BelowInBound(lens, j, n);
    if j > 0 {
      BelowPart(lens, j - 1, n);
    }
  }

  /** The words shorter than j fit; the next word of length j takes place k and has this code. */
  ghost predicate NextUp(lens: seq<nat>, j: nat, k: nat, code: nat)
    requires 1 <= j <= 16
  {
    && k == Below(lens, j - 1) <= |Sizes(lens)| && Left(Sizes(lens), k) <= 0x1_0000
    && Shl(code, 16 - j) == Left(Sizes(lens), k)
  }

  lemma {:induction false} FirstUp(lens: seq<nat>)
    ensures NextUp(lens, 1, 0, 0)
  {
    ShlIsMul(0, 15);
  }

  lemma {:induction false} AllUp(lens: seq<nat>, k: nat, code: nat)
    requires NextUp(lens, 16, k, code)
    ensures Fits(Sizes(lens))
  {
    SizesOrdered(lens);
  }

  lemma {:induction false} LengthDone(lens: seq<nat>, j: nat, count: nat, k: nat, code: nat)
    requires 1 <= j <= 15 && count == Count(lens, j, |lens|) && NextUp(lens, j, k, code)
    ensures if count != 0 && code + count - 1 >= Pow2(j) then !Fits(Sizes(lens))
            else && NextUp(lens, j + 1, k + count, 2 * (code + count))
                 && LengthEntry(lens, j, code, k, Shl(code + count, 16 - j))
  {
    RunOf(lens, j, k + count);
    SizesOrdered(lens);
    LengthFits(Sizes(lens), j, k, count, code);
  }

  lemma {:induction false} LengthFits(s: seq<nat>, j: nat, k: nat, count: nat, code: nat)
    requires Ordered(s) && 1 <= j <= 15 && k + count <= |s| && Left(s, k + count) == Left(s, k) + Shl(count, 16 - j)
    requires Shl(code, 16 - j) == Left(s, k) <= 0x1_0000
    ensures Shl(code + count, 16 - j) == Shl(2 * (code + count), 15 - j) == Left(s, k + count)
    ensures if count != 0 && code + count - 1 >= Pow2(j) then !Fits(s) else Left(s, k + count) <= 0x1_0000
  {
    ShlSum(code, count, 16 - j);
    Overfull(code + count, j);
    NextLength(code + count, j);
    LeftMono(s, k + count, |s|);
  }

  // ---------- the acceleration table ----------

  /** Numbers with the same low s bits are 2^s apart. */
  lemma {:induction false} NextEntry(r: nat, s: nat, m: nat, x: nat)
    requires r < Pow2(s) && Low(x, s) == r && r + Shl(m, s) < x
    ensures r + Shl(m + 1, s) <= x
  {
    LowShr(x, s);
    ShlSum(Shr(x, s), m, s);
    if Shr(x, s) > m + 1 {
      ShlSum(m + 1, Shr(x, s), s);
    }
  }

  lemma {:induction false} NextEntries(r: nat, s: nat, m: nat)
    requires r < Pow2(s)
    ensures Low(r + Shl(m, s), s) == r && Shl(m + 1, s) == Shl(m, s) + Pow2(s)
    ensures forall x: nat :: Low(x, s) == r && r + Shl(m, s) < x ==> r + Shl(m + 1, s) <= x
  {
    LowOfSum(m, r, s);
    ShlSum(m, 1, s);
    forall x: nat | Low(x, s) == r && r + Shl(m, s) < x
      ensures r + Shl(m + 1, s) <= x
    {
      NextEntry(r, s, m, x);
    }
  }

  lemma {:induction false} LowestEntry(r: nat, s: nat)
    ensures forall x: nat :: Low(x, s) == r ==> r <= x
  {
  }

  /** Length and symbol in one entry. */
  function FastEntry(s: nat, i: nat): nat {
    BitOr(Shl(s, 9), i)
  }

  lemma {:induction false} FastEntryIs(s: nat, i: nat)
    requires i < 512
    ensures FastEntry(s, i) == 512 * s + i
  {
    Pow2Values();
    LowOrDisjoint(s, i, 9);
    ShlIsMul(s, 9);
  }

  lemma {:induction false} Unpack(s: nat, i: nat)
    requires i < 512
    ensures (512 * s + i) % 512 == i && (512 * s + i) / 512 == s
  {
    DivModUnique(512 * s + i, s, 512, i);
  }

  ghost predicate Counted(sizes: seq<nat>, lens: seq<nat>) {
    |sizes| == 17 && forall j :: 1 <= j < 16 ==> sizes[j] == Count(lens, j, |lens|)
  }

  method CountLengths(lens: seq<nat>) returns (sizes: seq<nat>)
    requires Lengths(lens)
    ensures Counted(sizes, lens)
  {
    sizes := seq(17, _ => 0);
    for i := 0 to |lens|
      invariant |sizes| == 17 && forall j :: 0 <= j < 17 ==> sizes[j] == Count(lens, j, i)
    {
      sizes := sizes[lens[i] := sizes[lens[i]] + 1];
    }
    sizes := sizes[0 := 0];
  }

  /** No length may have more words than there are. */
  method CheckSizes(lens: seq<nat>, sizes: seq<nat>) returns (ok: bool)
    requires Counted(sizes, lens)
    ensures !ok ==> !Fits(Sizes(lens))
  {
    for i := 1 to 16 {
      if sizes[i] > Pow2(i) {
        TooMany(lens, i);
        return false;
      }
    }
    ok := true;
  }

  lemma {:induction false} TooMany(lens: seq<nat>, j: nat)
    requires 1 <= j <= 15 && Count(lens, j, |lens|) > Pow2(j)
    ensures !Fits(Sizes(lens))
  {
    var s := Sizes(lens);
    RunOf(lens, j, Below(lens, j));
    Overfull(Count(lens, j, |lens|), j);
    SizesOrdered(lens);
    LeftMono(s, Below(lens, j), |s|);
  }

  // ---------- decoding ----------

  /** A short word stands at p exactly when the next nine bits start with it. */
  lemma {:induction false} ServesAt(w: Words, k: nat, d: BitString, p: nat)
    requires ValidWords(w) && k < |w.sizes| && w.sizes[k] <= ZFAST_BITS
    ensures PlaceServes(w, k, Field(d, p, 9)) <==> Find(w.sizes, |w.sizes|, Peek(d, p, 16)) == k
  {
    assert ValidPlace(w, k);
    CodeSpan(w.sizes, k);
    FieldLow(d, p, 9, w.sizes[k]);
    WordAt(d, p, w.sizes[k], Code(w.sizes, k));
    PlaceStands(w, k, d, p);
  }

  /** A nonzero acceleration entry is the next symbol with the length of its word. */
  lemma {:induction false} FastPath(h: Lookup, w: Words, d: BitString, p: nat, x: nat)
    requires Decodes(h, w) && x == Field(d, p, 9) < 512 && h.fast[x] != 0
    ensures var b := h.fast[x]; b / 512 <= 9 && ReadSymbol(w, d, p) == Sym(b % 512, p + b / 512)
  {
    assert FastAt(h, w, x);
    var k: nat :| ServedBy(w, k, x, h.fast[x]);
    assert ValidPlace(w, k);
    Unpack(w.sizes[k], w.order[k]);
    ServesAt(w, k, d, p);
  }

  /** Without an entry every short word is ruled out. */
  lemma {:induction false} FastMiss(h: Lookup, w: Words, d: BitString, p: nat, x: nat)
    requires Decodes(h, w) && x == Field(d, p, 9) < 512 && h.fast[x] == 0
    ensures Left(w.sizes, Upto(w.sizes, |w.sizes|, 9)) <= Peek(d, p, 16)
  {
    var s, t := w.sizes, Peek(d, p, 16);
    assert FastAt(h, w, x);
    if t < Left(s, Upto(s, |s|, 9)) {
      var k := HeadsExists(s, Upto(s, |s|, 9), t);
      UptoSplits(s, |s|, 9);
      FindIs(s, |s|, t, k);
      ServesAt(w, k, d, p);
    }
  }

  /** Searches the preshifted limits from ten bits on; 16 when none exceeds k. */
  method SlowLength(h: Lookup, ghost w: Words, k: nat) returns (s: nat)
    requires Decodes(h, w) && k < 0x1_0000
    ensures 10 <= s <= 16 && (s > 10 ==> Left(w.sizes, Upto(w.sizes, |w.sizes|, s - 1)) <= k)
    ensures s < 16 ==> k < Left(w.sizes, Upto(w.sizes, |w.sizes|, s))
  {
    s := ZFAST_BITS + 1;
    while k >= h.maxcode[s]
      invariant 10 <= s <= 16 && (s > 10 ==> Left(w.sizes, Upto(w.sizes, |w.sizes|, s - 1)) <= k)
      decreases 17 - s
    {
      assert LengthAt(h, w, s);
      s := s + 1;
    }
    assert s < 16 ==> LengthAt(h, w, s);
  }

  /** The word of length s between its limits, and its place. */
  lemma {:induction false} SlowPath(h: Lookup, w: Words, d: BitString, p: nat, s: nat)
    requires Decodes(h, w) && 10 <= s <= 15
    requires Left(w.sizes, Upto(w.sizes, |w.sizes|, s - 1)) <= Peek(d, p, 16)
    requires Peek(d, p, 16) < Left(w.sizes, Upto(w.sizes, |w.sizes|, s))
    ensures var b := Peek(d, p, s) - h.firstcode[s] + h.firstsymbol[s];
            && 0 <= b < ZNSYMS && h.size[b] == s && ReadSymbol(w, d, p) == Sym(h.value[b], p + s)
  {
    var f := SlowFinds(w, d, p, s);
    assert LengthAt(h, w, s);
    OffsetOf(w.sizes, f, h.firstsymbol[s] as int - h.firstcode[s] as int);
    assert PlaceAt(h, w, f);
  }

  lemma {:induction false} SlowFinds(w: Words, d: BitString, p: nat, s: nat) returns (f: nat)
    requires ValidWords(w) && 10 <= s <= 15
    requires Left(w.sizes, Upto(w.sizes, |w.sizes|, s - 1)) <= Peek(d, p, 16)
    requires Peek(d, p, 16) < Left(w.sizes, Upto(w.sizes, |w.sizes|, s))
    ensures f < |w.sizes| && w.sizes[f] == s && Peek(d, p, s) == Code(w.sizes, f)
    ensures ReadSymbol(w, d, p) == Sym(w.order[f], p + s)
  {
    SlowHit(w.sizes, Peek(d, p, 16), s);
    f := Find(w.sizes, |w.sizes|, Peek(d, p, 16));
    WordValue(w.sizes, f, d, p);
  }

  lemma {:induction false} SlowNone(w: Words, d: BitString, p: nat)
    requires ValidWords(w) && Left(w.sizes, Upto(w.sizes, |w.sizes|, 15)) <= Peek(d, p, 16)
    ensures ReadSymbol(w, d, p) == NoSym
  {
    var s := w.sizes;
    forall k | 0 <= k < |s|
      ensures s[k] <= 15
    {
      assert ValidPlace(w, k);
    }
    UptoSplits(s, |s|, 15);
    UptoEnds(s, |s|);
    NoWord(s, Peek(d, p, 16));
  }
}
