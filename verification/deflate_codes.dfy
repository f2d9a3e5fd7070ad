/**
 The code words of deflate (RFC 1951 section 3.2.2): which word a list of code lengths gives to each
 symbol, and what reading a symbol from a bit stream means.
 */
module DeflateCodes {
  import opened Bits
  import opened Canonical

  // ---------- codes (section 3.2.2) ----------

  /** How many symbols below n have code words of length j. */
  function Count(lens: seq<nat>, j: nat, n: nat): (c: nat)
    requires n <= |lens|
    ensures c <= n
  {
    if n == 0 then 0 else Count(lens, j, n - 1) + (if lens[n - 1] == j then 1 else 0)
  }

  /** How many symbols have code words of length 1 to j. */
  function Below(lens: seq<nat>, j: nat): nat {
    if j == 0 then 0 else Below(lens, j - 1) + Count(lens, j, |lens|)
  }

  /** The symbols below n whose code words have length j, in increasing order. */
  function OfLength(lens: seq<nat>, j: nat, n: nat): (r: seq<nat>)
    requires n <= |lens|
    ensures |r| == Count(lens, j, n)
    ensures forall k :: 0 <= k < |r| ==> r[k] < n && lens[r[k]] == j
  {
    if n == 0 then [] else OfLength(lens, j, n - 1) + (if lens[n - 1] == j then [n - 1] else [])
  }

  /** The symbols with words of length 1 to j in the order in which the words are assigned. */
  function Symbols(lens: seq<nat>, j: nat): (r: seq<nat>)
    ensures |r| == Below(lens, j)
    ensures forall k :: 0 <= k < |r| ==> r[k] < |lens|
  {
    if j == 0 then [] else Symbols(lens, j - 1) + OfLength(lens, j, |lens|)
  }

  /** All symbols in code order, and the lengths of their words. */
  function Order(lens: seq<nat>): (r: seq<nat>)
    ensures forall k :: 0 <= k < |r| ==> r[k] < |lens|
  {
    Symbols(lens, 15)
  }

  function LensOf(lens: seq<nat>, order: seq<nat>): (s: seq<nat>)
    requires forall k :: 0 <= k < |order| ==> order[k] < |lens|
    ensures |s| == |order|
    ensures forall k :: 0 <= k < |order| ==> s[k] == lens[order[k]]
  {
    if order == [] then [] else LensOf(lens, order[..|order| - 1]) + [lens[order[|order| - 1]]]
  }

  function Sizes(lens: seq<nat>): (s: seq<nat>)
    ensures |s| == |Order(lens)|
  {
    LensOf(lens, Order(lens))
  }

  ghost predicate Lengths(lens: seq<nat>) {
    forall i :: 0 <= i < |lens| ==> lens[i] <= 15
  }

  /** Word lengths and symbols in code order, and the number of symbols. */
  datatype Words = Words(sizes: seq<nat>, order: seq<nat>, count: nat)

  function WordsOf(lens: seq<nat>): Words {
    Words(Sizes(lens), Order(lens), |lens|)
  }

  ghost predicate ValidWords(w: Words) {
    Fits(w.sizes) && |w.sizes| == |w.order| && forall k :: 0 <= k < |w.sizes| ==> ValidPlace(w, k)
  }

  ghost predicate ValidPlace(w: Words, k: nat)
    requires k < |w.sizes| == |w.order|
  {
    1 <= w.sizes[k] <= 15 && w.order[k] < w.count
  }

  datatype Read = Sym(value: nat, pos: nat) | NoSym

  /** The symbol whose word stands at p. */
  ghost function ReadSymbol(w: Words, d: BitString, p: nat): (r: Read)
    ensures r.Sym? ==> r.pos >= p
    ensures r.Sym? && ValidWords(w) ==> r.value < w.count
  {
    var k := Find(w.sizes, |w.sizes|, Peek(d, p, 16));
    if k < 0 || k >= |w.order| then NoSym
    else
      assert ValidWords(w) ==> ValidPlace(w, k);
      Sym(w.order[k], p + w.sizes[k])
  }

  // ---------- places in the code order ----------

  /** The place of symbol i in the code order. */
  function Rank(lens: seq<nat>, i: nat): nat
    requires i < |lens| && lens[i] >= 1
  {
    Below(lens, lens[i] - 1) + Count(lens, lens[i], i)
  }

  lemma {:induction false} OfLengthRank(lens: seq<nat>, j: nat, n: nat, t: nat)
    requires n <= |lens| && t < Count(lens, j, n)
    ensures var i := OfLength(lens, j, n)[t]; i < n && lens[i] == j && Count(lens, j, i) == t
  {
    if lens[n - 1] != j || t < Count(lens, j, n - 1) {
      OfLengthRank(lens, j, n - 1, t);
    }
  }

  lemma {:induction false} OfLengthHas(lens: seq<nat>, j: nat, n: nat, i: nat)
    requires i < n <= |lens| && lens[i] == j
    ensures var t := Count(lens, j, i); t < Count(lens, j, n) && OfLength(lens, j, n)[t] == i
  {
    if i < n - 1 {
      OfLengthHas(lens, j, n - 1, i);
    }
  }

  lemma {:induction false} SymbolsAt(lens: seq<nat>, j: nat, k: nat)
    requires j > 0 && k < Below(lens, j)
    ensures var u := Below(lens, j - 1);
            if k < u then Symbols(lens, j)[k] == Symbols(lens, j - 1)[k]
            else k - u < Count(lens, j, |lens|) && Symbols(lens, j)[k] == OfLength(lens, j, |lens|)[k - u]
  {
  }

  /** Place k of the order holds the symbol whose rank is k. */
  lemma {:induction false} SymbolsRank(lens: seq<nat>, j: nat, k: nat, i: nat)
    requires k < Below(lens, j) && Symbols(lens, j)[k] == i
    ensures i < |lens| && 1 <= lens[i] <= j && Rank(lens, i) == k
  {
    SymbolsAt(lens, j, k);
    if k < Below(lens, j - 1) {
      SymbolsRank(lens, j - 1, k, i);
    } else {
      LastGroupRank(lens, j, k - Below(lens, j - 1), i);
    }
  }

  lemma {:induction false} LastGroupRank(lens: seq<nat>, j: nat, t: nat, i: nat)
    requires 1 <= j && t < Count(lens, j, |lens|) && OfLength(lens, j, |lens|)[t] == i
    ensures i < |lens| && lens[i] == j && Rank(lens, i) == Below(lens, j - 1) + t
  {
    OfLengthRank(lens, j, |lens|, t);
  }

  /** The symbols with words of length up to j come first. */
  lemma {:induction false} SymbolsPrefix(lens: seq<nat>, j: nat, j': nat)
    requires j <= j'
    ensures Below(lens, j) <= Below(lens, j')
    ensures forall k :: 0 <= k < Below(lens, j) ==> Symbols(lens, j)[k] == Symbols(lens, j')[k]
    decreases j'
  {
    if j < j' {
      SymbolsPrefix(lens, j, j' - 1);
    }
  }

  lemma {:induction false} OrderRank(lens: seq<nat>, k: nat)
    requires k < |Order(lens)|
    ensures var i := Order(lens)[k]; 1 <= lens[i] <= 15 && Rank(lens, i) == k && Sizes(lens)[k] == lens[i]
  {
    SymbolsRank(lens, 15, k, Order(lens)[k]);
  }

  lemma {:induction false} RankOrder(lens: seq<nat>, i: nat)
    requires i < |lens| && 1 <= lens[i] <= 15
    ensures Rank(lens, i) < Below(lens, lens[i]) <= |Order(lens)|
    ensures Order(lens)[Rank(lens, i)] == i && Sizes(lens)[Rank(lens, i)] == lens[i]
  {
    OfLengthHas(lens, lens[i], |lens|, i);
    SymbolsPrefix(lens, lens[i], 15);
  }

  /** Word lengths at most j are exactly those of the first Below(lens, j) places. */
  lemma {:induction false} SizesSplit(lens: seq<nat>, j: nat, k: nat)
    requires j <= 15 && k < |Order(lens)|
    ensures Below(lens, j) <= |Order(lens)|
    ensures k < Below(lens, j) <==> Sizes(lens)[k] <= j
  {
    SymbolsPrefix(lens, j, 15);
    OrderRank(lens, k);
    if k < Below(lens, j) {
      SymbolsRank(lens, j, k, Symbols(lens, j)[k]);
    } else if lens[Order(lens)[k]] <= j {
      RankOrder(lens, Order(lens)[k]);
      SymbolsPrefix(lens, lens[Order(lens)[k]], j);
    }
  }

  lemma {:induction false} SizesOrdered(lens: seq<nat>)
    ensures Ordered(Sizes(lens))
  {
    var s := Sizes(lens);
    forall i | 0 <= i < |s|
      ensures LongestSoFar(s, i)
    {
      OrderRank(lens, i);
      forall j | 0 <= j < i
        ensures s[j] <= s[i]
      {
        SizesSplit(lens, s[i], i);
        SizesSplit(lens, s[i], j);
      }
    }
  }

  lemma {:induction false} UptoIs(lens: seq<nat>, j: nat)
    requires j <= 15
    ensures Below(lens, j) <= |Sizes(lens)|
    ensures Upto(Sizes(lens), |Sizes(lens)|, j) == Below(lens, j)
  {
    var s, u := Sizes(lens), Below(lens, j);
    SymbolsPrefix(lens, j, 15);
    SizesOrdered(lens);
    UptoSplits(s, |s|, j);
    var v := Upto(s, |s|, j);
    if v < u {
      SizesSplit(lens, j, v);
    } else if u < v {
      SizesSplit(lens, j, u);
    }
  }

  lemma {:induction false} InRun(lens: seq<nat>, j: nat, k: nat)
    requires 1 <= j <= 15 && Below(lens, j - 1) <= k < Below(lens, j)
    ensures k < |Sizes(lens)| && Sizes(lens)[k] == j
  {
    SymbolsPrefix(lens, j, 15);
    SizesSplit(lens, j - 1, k);
    SizesSplit(lens, j, k);
  }

  /** The words of length j take the places from Below(lens, j - 1) on. */
  lemma {:induction false} RunOf(lens: seq<nat>, j: nat, f: nat)
    requires 1 <= j <= 15 && Below(lens, j - 1) <= f <= Below(lens, j)
    ensures f <= |Sizes(lens)|
    ensures Left(Sizes(lens), f) == Left(Sizes(lens), Below(lens, j - 1)) + Shl(f - Below(lens, j - 1), 16 - j)
  {
    var s, u := Sizes(lens), Below(lens, j - 1);
    SymbolsPrefix(lens, j, 15);
    SizesOrdered(lens);
    forall k | u <= k < f
      ensures s[k] == j
    {
      InRun(lens, j, k);
    }
    RunLeft(s, u, f, j);
  }

  lemma {:induction false} WordsValid(lens: seq<nat>)
    requires Fits(Sizes(lens))
    ensures ValidWords(WordsOf(lens))
  {
    forall k | 0 <= k < |Sizes(lens)|
      ensures ValidPlace(WordsOf(lens), k)
    {
      OrderRank(lens, k);
    }
  }

  /** The word at place k is read exactly when it stands at p. */
  lemma {:induction false} PlaceStands(w: Words, k: nat, d: BitString, p: nat)
    requires ValidWords(w) && k < |w.sizes|
    ensures ValidPlace(w, k)
    ensures Peek(d, p, w.sizes[k]) == Code(w.sizes, k) <==> Find(w.sizes, |w.sizes|, Peek(d, p, 16)) == k
  {
    var s := w.sizes;
    assert ValidPlace(w, k);
    PeekSplit(d, p, s[k], 16 - s[k]);
    HeadsIsCode(s, k, Peek(d, p, s[k]), Peek(d, p + s[k], 16 - s[k]));
    if Heads(s, k, Peek(d, p, 16)) {
      FindIs(s, |s|, Peek(d, p, 16), k);
    }
  }

  /** Symbol i is read at p exactly when it has a word and its word stands there. */
  lemma {:induction false} SymbolStands(lens: seq<nat>, i: nat, d: BitString, p: nat)
    requires Fits(Sizes(lens)) && i < |lens| && 1 <= lens[i] <= 15
    ensures Rank(lens, i) < |Sizes(lens)|
    ensures ReadSymbol(WordsOf(lens), d, p) == Sym(i, p + lens[i])
       <==> Peek(d, p, lens[i]) == Code(Sizes(lens), Rank(lens, i))
  {
    RankOrder(lens, i);
    WordsValid(lens);
    PlaceStands(WordsOf(lens), Rank(lens, i), d, p);
    var k := Find(Sizes(lens), |Sizes(lens)|, Peek(d, p, 16));
    if k >= 0 && Order(lens)[k] == i {
      OrderRank(lens, k);
    }
  }

  /** A symbol that is read has a word. */
  lemma {:induction false} SymbolHasWord(lens: seq<nat>, d: BitString, p: nat)
    ensures var r := ReadSymbol(WordsOf(lens), d, p);
            r.Sym? ==> r.value < |lens| && 1 <= lens[r.value] <= 15 && r.pos == p + lens[r.value]
  {
    var k := Find(Sizes(lens), |Sizes(lens)|, Peek(d, p, 16));
    if k >= 0 {
      OrderRank(lens, k);
    }
  }

  // ---------- the fixed codes (section 3.2.6) ----------

  function FixedLength(i: nat): nat {
    if i < 144 then 8 else if i < 256 then 9 else if i < 280 then 7 else 8
  }

  function FixedLengths(): (l: seq<nat>)
    ensures |l| == 288 && Lengths(l) && forall i :: 0 <= i < 288 ==> l[i] == FixedLength(i)
  {
    seq(288, i requires 0 <= i => FixedLength(i))
  }

  function FixedDistances(): (l: seq<nat>)
    ensures |l| == 32 && Lengths(l) && forall i :: 0 <= i < 32 ==> l[i] == 5
  {
    seq(32, _ => 5)
  }

  /** Counts for lengths that are 8, 9, 7, 8 over four ranges. */
  lemma {:induction false} FixedCount(l: seq<nat>, j: nat, n: nat)
    requires n <= |l| == 288 && forall i :: 0 <= i < 288 ==> l[i] == FixedLength(i)
    ensures Count(l, j, n) == if j == 7 then (if n < 256 then 0 else if n < 280 then n - 256 else 24)
                              else if j == 8 then (if n < 144 then n else if n < 280 then 144 else n - 136)
                              else if j == 9 then (if n < 144 then 0 else if n < 256 then n - 144 else 112)
                              else 0
  {
    if n > 0 {
      FixedCount(l, j, n - 1);
    }
  }

  lemma {:induction false} EvenCount(l: seq<nat>, c: nat, j: nat, n: nat)
    requires n <= |l| && forall i :: 0 <= i < |l| ==> l[i] == c
    ensures Count(l, j, n) == if j == c then n else 0
  {
    if n > 0 {
      EvenCount(l, c, j, n - 1);
    }
  }

  /** The words of length up to j take as much room as their counts say. */
  lemma {:induction false} LeftBelow(lens: seq<nat>, j: nat)
    requires j <= 15
    ensures Below(lens, j) <= |Sizes(lens)|
    ensures j == 0 ==> Left(Sizes(lens), Below(lens, j)) == 0
    ensures j > 0 ==> Below(lens, j - 1) <= |Sizes(lens)|
    ensures j > 0 ==> (Left(Sizes(lens), Below(lens, j))
                       == Left(Sizes(lens), Below(lens, j - 1)) + Shl(Count(lens, j, |lens|), 16 - j))
  {
    SymbolsPrefix(lens, j, 15);
    if j > 0 {
      SymbolsPrefix(lens, j - 1, 15);
      RunOf(lens, j, Below(lens, j));
    }
  }

  /** Room taken by the words of length up to j of the fixed code. */
  function FixedRoom(j: nat): nat {
    if j < 7 then 0 else if j == 7 then 12288 else if j == 8 then 51200 else 0x1_0000
  }

  lemma {:induction false} FixedLeft(l: seq<nat>, j: nat)
    requires |l| == 288 && j <= 15 && forall i :: 0 <= i < 288 ==> l[i] == FixedLength(i)
    ensures Below(l, j) <= |Sizes(l)| && Left(Sizes(l), Below(l, j)) == FixedRoom(j)
  {
    LeftBelow(l, j);
    if j > 0 {
      FixedLeft(l, j - 1);
      FixedCount(l, j, 288);
      FixedSteps(j);
    }
  }

  lemma {:induction false} FixedSteps(j: nat)
    requires 1 <= j <= 15
    ensures Shl(0, 16 - j) == 0
    ensures Shl(24, 9) == 12288 && Shl(152, 8) == 38912 && Shl(112, 7) == 14336
  {
    ShlIsMul(0, 16 - j);
    ShlIsMul(24, 9);
    ShlIsMul(152, 8);
    ShlIsMul(112, 7);
    Pow2Values();
  }

  lemma {:induction false} EvenLeft(l: seq<nat>, j: nat)
    requires |l| == 32 && j <= 15 && forall i :: 0 <= i < 32 ==> l[i] == 5
    ensures Below(l, j) <= |Sizes(l)| && Left(Sizes(l), Below(l, j)) == if j < 5 then 0 else 0x1_0000
  {
    LeftBelow(l, j);
    if j > 0 {
      EvenLeft(l, j - 1);
      EvenCount(l, 5, j, 32);
      ShlIsMul(0, 16 - j);
      ShlIsMul(32, 11);
      Pow2Values();
    }
  }

  /** The words take all the room there is. */
  ghost predicate Complete(lens: seq<nat>) {
    Fits(Sizes(lens)) && Left(Sizes(lens), |Sizes(lens)|) == 0x1_0000
  }

  lemma {:induction false} FixedLengthsComplete()
    ensures Complete(FixedLengths())
  {
    SizesOrdered(FixedLengths());
    FixedLeft(FixedLengths(), 15);
  }

  /** The words that section 3.2.6 lists for literals and lengths. */
  function FixedCode(i: nat): nat {
    if i < 144 then 0x30 + i else if i < 256 then 0x190 + (i - 144) else if i < 280 then i - 256 else 0xC0 + (i - 280)
  }

  /** With the fixed code, symbol i is read exactly where its listed word stands. */
  lemma {:induction false} FixedWordStands(l: seq<nat>, i: nat, d: BitString, p: nat)
    requires l == FixedLengths() && i < 288
    ensures ReadSymbol(WordsOf(l), d, p) == Sym(i, p + l[i]) <==> Peek(d, p, l[i]) == FixedCode(i)
  {
    FixedFits(l);
    FixedCodeIs(l, i);
    WordStands(l, i, FixedCode(i), d, p);
  }

  lemma {:induction false} FixedFits(l: seq<nat>)
    requires l == FixedLengths()
    ensures Fits(Sizes(l))
  {
    FixedLengthsComplete();
  }

  lemma {:induction false} WordStands(l: seq<nat>, i: nat, c: nat, d: BitString, p: nat)
    requires Fits(Sizes(l)) && i < |l| && 1 <= l[i] <= 15 && Rank(l, i) < |Sizes(l)| && Code(Sizes(l), Rank(l, i)) == c
    ensures ReadSymbol(WordsOf(l), d, p) == Sym(i, p + l[i]) <==> Peek(d, p, l[i]) == c
  {
    SymbolStands(l, i, d, p);
  }

  lemma {:induction false} FixedCodeIs(l: seq<nat>, i: nat)
    requires l == FixedLengths() && i < 288
    ensures Rank(l, i) < |Sizes(l)| && Code(Sizes(l), Rank(l, i)) == FixedCode(i)
  {
    SizesOrdered(l);
    RankOrder(l, i);
    FixedRank(l, i);
    CodeIsLeft(Sizes(l), Rank(l, i));
    SameCode(Code(Sizes(l), Rank(l, i)), FixedCode(i), 16 - FixedLength(i));
  }

  lemma {:induction false} SameCode(c: nat, v: nat, n: nat)
    requires Shl(c, n) == Shl(v, n)
    ensures c == v
  {
    if n > 0 {
      SameCode(c, v, n - 1);
    }
  }

  lemma {:induction false} FixedRank(l: seq<nat>, i: nat)
    requires l == FixedLengths() && i < 288
    ensures Rank(l, i) < |Sizes(l)| && Left(Sizes(l), Rank(l, i)) == Shl(FixedCode(i), 16 - FixedLength(i))
  {
    var n := FixedLength(i);
    RankOrder(l, i);
    FixedLeft(l, n - 1);
    FixedCount(l, n, i);
    RunOf(l, n, Rank(l, i));
    FixedPlace(i, Count(l, n, i));
  }

  lemma {:induction false} FixedPlace(i: nat, c: nat)
    requires i < 288
    requires c == if i < 144 then i else if i < 256 then i - 144 else if i < 280 then i - 256 else i - 136
    ensures var n := FixedLength(i); FixedRoom(n - 1) + Shl(c, 16 - n) == Shl(FixedCode(i), 16 - n)
  {
    var n := FixedLength(i);
    ShlIsMul(FixedCode(i), 16 - n);
    ShlIsMul(c, 16 - n);
    Pow2Values();
  }

  /** The word of a fixed distance code is its number. */
  lemma {:induction false} FixedDistanceStands(l: seq<nat>, i: nat, d: BitString, p: nat)
    requires l == FixedDistances() && i < 32
    ensures ReadSymbol(WordsOf(l), d, p) == Sym(i, p + 5) <==> Peek(d, p, 5) == i
  {
    FixedDistancesComplete();
    SymbolStands(l, i, d, p);
    FixedDistanceIs(l, i);
  }

  lemma {:induction false} FixedDistanceIs(l: seq<nat>, i: nat)
    requires l == FixedDistances() && i < 32
    ensures Rank(l, i) < |Sizes(l)| && Code(Sizes(l), Rank(l, i)) == i
  {
    SizesOrdered(l);
    RankOrder(l, i);
    EvenLeft(l, 4);
    EvenCount(l, 5, 5, i);
    RunOf(l, 5, Rank(l, i));
    CodeIsLeft(Sizes(l), Rank(l, i));
    SameCode(Code(Sizes(l), Rank(l, i)), i, 11);
  }

  lemma {:induction false} FixedDistancesComplete()
    ensures Complete(FixedDistances())
  {
    SizesOrdered(FixedDistances());
    EvenLeft(FixedDistances(), 15);
  }
}
