/**
 Canonical prefix codes (ITU-T T.81 Annex C, RFC 1951 section 3.2.2).  A code is given by the
 lengths of its words in the order in which the words are assigned.  Word k owns the interval
 [Left(k), Left(k+1)) of the 16-bit numbers: exactly the numbers whose leading bits are the word.
 */
module Canonical {
  import opened Bits

  /** Word lengths in assignment order: between 1 and 16, never decreasing. */
  ghost predicate Ordered(s: seq<nat>) {
    forall i :: 0 <= i < |s| ==> LongestSoFar(s, i)
  }

  ghost predicate LongestSoFar(s: seq<nat>, i: nat)
    requires i < |s|
  {
    1 <= s[i] <= 16 && forall j :: 0 <= j < i ==> s[j] <= s[i]
  }

  lemma {:induction false} OrderedAt(s: seq<nat>, i: nat)
    requires Ordered(s) && i < |s|
    ensures 1 <= s[i] <= 16
    ensures i > 0 ==> s[i - 1] <= s[i]
  {
    assert LongestSoFar(s, i);
  }

  lemma {:induction false} OrderedAll(s: seq<nat>)
    requires Ordered(s)
    ensures forall i :: 0 <= i < |s| ==> 1 <= s[i] <= 16
    ensures forall i, j :: 0 <= i < j < |s| ==> s[i] <= s[j]
  {
    forall i | 0 <= i < |s|
      ensures 1 <= s[i] <= 16 && forall j :: 0 <= j < i ==> s[j] <= s[i]
    {
      assert LongestSoFar(s, i);
    }
  }

  /** How many 16-bit numbers start with a given word of length n. */
  function Span(n: nat): nat {
    if n <= 16 then Pow2(16 - n) else 0
  }

  function Left(s: seq<nat>, k: nat): nat
    requires k <= |s|
  {
    if k == 0 then 0 else Left(s, k - 1) + Span(s[k - 1])
  }

  /** The lengths leave room for every word (Kraft's inequality). */
  ghost predicate Fits(s: seq<nat>) {
    Ordered(s) && Left(s, |s|) <= 0x1_0000
  }

  /** Annex C: the next word is one more, shifted left when the length grows. */
  function Code(s: seq<nat>, k: nat): nat
    requires k < |s|
  {
    if k == 0 then 0 else Shl(Code(s, k - 1) + 1, if s[k - 1] <= s[k] then s[k] - s[k - 1] else 0)
  }

  ghost function Word(s: seq<nat>, k: nat): BitString
    requires k < |s|
  {
    FromVal(Code(s, k), s[k])
  }

  /** Word k heads the bits whose first sixteen have value t. */
  ghost predicate Heads(s: seq<nat>, k: nat, t: nat) {
    k < |s| && Left(s, k) <= t < Left(s, k + 1)
  }

  function Repeat(v: nat, n: nat): (r: seq<nat>)
    ensures |r| == n && forall i :: 0 <= i < n ==> r[i] == v
  {
    if n == 0 then [] else Repeat(v, n - 1) + [v]
  }

  /** The word lengths that a list of counts per length (1, 2, ...) stands for. */
  function SizesOf(counts: seq<nat>): (s: seq<nat>) {
    if counts == [] then []
    else SizesOf(counts[..|counts| - 1]) + Repeat(|counts|, counts[|counts| - 1])
  }

  lemma {:induction false} SizesOfOrdered(counts: seq<nat>)
    requires |counts| <= 16
    ensures Ordered(SizesOf(counts))
    ensures forall i :: 0 <= i < |SizesOf(counts)| ==> SizesOf(counts)[i] <= |counts|
  {
    var s := SizesOf(counts);
    if counts != [] {
      SizesOfOrdered(counts[..|counts| - 1]);
      OrderedAll(SizesOf(counts[..|counts| - 1]));
      forall i | 0 <= i < |s|
        ensures LongestSoFar(s, i)
      {
      }
    }
  }

  /** The lengths up to j are a prefix of all the lengths. */
  lemma {:induction false} SizesOfPrefix(counts: seq<nat>, j: nat)
    requires j <= |counts| <= 16
    ensures var m := |SizesOf(counts[..j])|;
            && m <= |SizesOf(counts)|
            && SizesOf(counts)[..m] == SizesOf(counts[..j])
            && (forall i :: m <= i < |SizesOf(counts)| ==> SizesOf(counts)[i] > j)
    decreases |counts|
  {
    if j == |counts| {
      assert counts[..j] == counts;
    } else {
      var c := counts[..|counts| - 1];
      SizesOfPrefix(c, j);
      assert c[..j] == counts[..j];
    }
  }

  lemma {:induction false} LeftMono(s: seq<nat>, i: nat, j: nat)
    requires Ordered(s) && i <= j <= |s|
    ensures Left(s, i) <= Left(s, j)
    ensures i < j ==> Left(s, i) < Left(s, i + 1) <= Left(s, j)
    decreases j
  {
    if i < j {
      OrderedAt(s, i);
      LeftMono(s, i, j - 1);
    }
  }

  lemma {:induction false} CodeIsLeft(s: seq<nat>, k: nat)
    requires Ordered(s) && k < |s|
    ensures 1 <= s[k] <= 16 && Shl(Code(s, k), 16 - s[k]) == Left(s, k)
  {
    OrderedAt(s, k);
    if k > 0 {
      OrderedAt(s, k - 1);
      CodeIsLeft(s, k - 1);
      NextCode(Code(s, k - 1), s[k - 1], s[k], Left(s, k - 1));
    } else {
      ShlIsMul(0, 16 - s[0]);
    }
  }

  lemma {:induction false} NextCode(c: nat, n: nat, n': nat, left: nat)
    requires 1 <= n <= n' <= 16 && Shl(c, 16 - n) == left
    ensures Shl(Shl(c + 1, n' - n), 16 - n') == left + Span(n)
  {
    ShlAdd(c + 1, n' - n, 16 - n');
    ShlSum(c, 1, 16 - n);
    ShlIsMul(1, 16 - n);
  }

  lemma {:induction false} CodeSpan(s: seq<nat>, k: nat)
    requires Fits(s) && k < |s|
    ensures 1 <= s[k] <= 16 && Shl(Code(s, k), 16 - s[k]) == Left(s, k)
    ensures Shl(Code(s, k) + 1, 16 - s[k]) == Left(s, k + 1) <= Pow2(16)
    ensures Code(s, k) < Pow2(s[k]) <= Pow2(16)
    ensures Val(Word(s, k)) == Code(s, k)
  {
    CodeIsLeft(s, k);
    LeftMono(s, k + 1, |s|);
    ShlSum(Code(s, k), 1, 16 - s[k]);
    Pow2Values();
    CodeBelow(Code(s, k), s[k], 16 - s[k]);
    Pow2Mono(s[k], 16);
    ValOfFromVal(Code(s, k), s[k]);
  }

  lemma {:induction false} CodeBelow(c: nat, n: nat, m: nat)
    requires Shl(c + 1, m) <= Pow2(n + m)
    ensures c < Pow2(n)
  {
    if m > 0 {
      CodeBelow(c, n, m - 1);
    }
  }

  /** A number lies in word k's interval exactly when its leading bits are word k. */
  lemma {:induction false} HeadsIsCode(s: seq<nat>, k: nat, hi: nat, lo: nat)
    requires Fits(s) && k < |s| && s[k] <= 16 && lo < Pow2(16 - s[k])
    ensures Heads(s, k, Shl(hi, 16 - s[k]) + lo) <==> hi == Code(s, k)
  {
    var c, m := Code(s, k), 16 - s[k];
    SpanOf(s, k, c, m);
    HeadsIs(s, k, hi, lo, c, m);
  }

  lemma {:induction false} SpanOf(s: seq<nat>, k: nat, c: nat, m: nat)
    requires Fits(s) && k < |s| && s[k] <= 16 && c == Code(s, k) && m == 16 - s[k]
    ensures Shl(c, m) == Left(s, k) && Shl(c + 1, m) == Left(s, k + 1)
  {
    CodeSpan(s, k);
  }

  lemma {:induction false} HeadsIs(s: seq<nat>, k: nat, hi: nat, lo: nat, c: nat, m: nat)
    requires k < |s| && Shl(c, m) == Left(s, k) && Shl(c + 1, m) == Left(s, k + 1) && lo < Pow2(m)
    ensures Heads(s, k, Shl(hi, m) + lo) <==> hi == c
  {
    WithinSpan(hi, lo, c, m);
  }

  lemma {:induction false} WithinSpan(hi: nat, lo: nat, c: nat, m: nat)
    requires lo < Pow2(m)
    ensures Shl(c, m) <= Shl(hi, m) + lo < Shl(c + 1, m) <==> hi == c
  {
    ShlSum(c, 1, m);
    ShlSum(hi, c, m);
    ShlSum(c, hi, m);
  }

  lemma {:induction false} HeadsIsPrefix(s: seq<nat>, k: nat, w: BitString)
    requires Fits(s) && k < |s| && |w| == 16
    ensures 1 <= s[k] <= 16 && (Heads(s, k, Val(w)) <==> w[..s[k]] == Word(s, k))
  {
    CodeSpan(s, k);
    var n := s[k];
    ValSplit(w, n);
    HeadsIsCode(s, k, Val(w[..n]), Val(w[n..]));
    IsWord(s, k, w[..n]);
  }

  lemma {:induction false} IsWord(s: seq<nat>, k: nat, w: BitString)
    requires Fits(s) && k < |s| && |w| == s[k]
    ensures w == Word(s, k) <==> Val(w) == Code(s, k)
  {
    CodeSpan(s, k);
    SameValue(w, Word(s, k));
  }

  lemma {:induction false} SameValue(a: BitString, b: BitString)
    requires |a| == |b|
    ensures a == b <==> Val(a) == Val(b)
  {
    if Val(a) == Val(b) {
      ValInjective(a, b);
    }
  }

  lemma {:induction false} HeadsUnique(s: seq<nat>, i: nat, j: nat, t: nat)
    requires Ordered(s) && Heads(s, i, t) && Heads(s, j, t)
    ensures i == j
  {
    LeftMono(s, i, |s|);
    LeftMono(s, j, |s|);
    if i < j {
      LeftMono(s, i, j);
    } else if j < i {
      LeftMono(s, j, i);
    }
  }

  /** Below the last boundary some word heads the bits. */
  lemma {:induction false} HeadsExists(s: seq<nat>, n: nat, t: nat) returns (k: nat)
    requires n <= |s| && t < Left(s, n)
    ensures k < n && Heads(s, k, t)
  {
    if t >= Left(s, n - 1) {
      k := n - 1;
    } else {
      k := HeadsExists(s, n - 1, t);
    }
  }

  /** No word is a prefix of another. */
  lemma {:induction false} PrefixFree(s: seq<nat>, i: nat, j: nat)
    requires Fits(s) && i < |s| && j < |s| && i != j
    ensures !(Word(s, i) <= Word(s, j))
  {
    if Word(s, i) <= Word(s, j) {
      OrderedAt(s, j);
      var w := Word(s, j) + Zeros(16 - s[j]);
      HeadsIsPrefix(s, j, w);
      HeadsIsPrefix(s, i, w);
      HeadsUnique(s, i, j, Val(w));
    }
  }

  // ---------- finding the word that heads some bits ----------

  /** How many of the first n words have length at most j. */
  function Upto(s: seq<nat>, n: nat, j: nat): (k: nat)
    requires n <= |s|
    ensures k <= n
  {
    if n == 0 then 0 else if s[n - 1] <= j then n else Upto(s, n - 1, j)
  }

  lemma {:induction false} UptoSplits(s: seq<nat>, n: nat, j: nat)
    requires Ordered(s) && n <= |s|
    ensures forall i :: 0 <= i < n ==> (i < Upto(s, n, j) <==> s[i] <= j)
  {
    OrderedAll(s);
    if n > 0 && s[n - 1] > j {
      UptoSplits(s, n - 1, j);
    }
  }

  lemma {:induction false} UptoEnds(s: seq<nat>, n: nat)
    requires Ordered(s) && n <= |s|
    ensures Upto(s, n, 0) == 0 && Upto(s, n, 16) == n
  {
    if n > 0 {
      OrderedAt(s, n - 1);
      UptoEnds(s, n - 1);
    }
  }

  /** The run of words of length j ends where the words of length at most j end. */
  lemma {:induction false} UptoNext(s: seq<nat>, j: nat, k0: nat, k: nat)
    requires Ordered(s) && 1 <= j && k0 == Upto(s, |s|, j - 1) <= k <= |s|
    requires forall i :: k0 <= i < k ==> s[i] == j
    requires k < |s| ==> s[k] != j
    ensures Upto(s, |s|, j) == k
  {
    OrderedAll(s);
    UptoSplits(s, |s|, j - 1);
    UptoSplits(s, |s|, j);
    var u := Upto(s, |s|, j);
    var atU, atK := if u < |s| then s[u] else 17, if k < |s| then s[k] else 17;
  }

  ghost predicate Offset(s: seq<nat>, j: nat, delta: int)
    requires 1 <= j <= 16
  {
    var u := Upto(s, |s|, j - 1);
    delta <= u && Shl(u - delta, 16 - j) == Left(s, u)
  }

  /** The word among the first n that heads t, or -1. */
  ghost function Find(s: seq<nat>, n: nat, t: nat): (k: int)
    requires n <= |s|
    ensures -1 <= k < n
    ensures k >= 0 ==> Heads(s, k, t)
    ensures k < 0 ==> forall i :: 0 <= i < n ==> !Heads(s, i, t)
  {
    if n == 0 then -1 else if Heads(s, n - 1, t) then n - 1 else Find(s, n - 1, t)
  }

  lemma {:induction false} FindIs(s: seq<nat>, n: nat, t: nat, k: nat)
    requires Ordered(s) && k < n <= |s| && Heads(s, k, t)
    ensures Find(s, n, t) == k
  {
    HeadsUnique(s, Find(s, n, t), k, t);
  }

  /** Between two neighbouring limits lie exactly the words of one length. */
  lemma {:induction false} SlowHit(s: seq<nat>, t: nat, k: nat)
    requires Fits(s) && 1 <= k <= 16
    requires Left(s, Upto(s, |s|, k - 1)) <= t < Left(s, Upto(s, |s|, k))
    ensures var f := Find(s, |s|, t); f >= 0 && s[f] == k
  {
    UptoSplits(s, |s|, k - 1);
    UptoSplits(s, |s|, k);
    var f := HeadsExists(s, Upto(s, |s|, k), t);
    FindIs(s, |s|, t, f);
    if s[f] <= k - 1 {
      LeftMono(s, f + 1, Upto(s, |s|, k - 1));
    }
  }

  lemma {:induction false} RunLeft(s: seq<nat>, u: nat, f: nat, k: nat)
    requires Ordered(s) && u <= f <= |s| && k <= 16 && forall i :: u <= i < f ==> s[i] == k
    ensures Left(s, f) == Left(s, u) + Shl(f - u, 16 - k)
  {
    if u < f {
      RunLeft(s, u, f - 1, k);
      ShlSum(f - 1 - u, 1, 16 - k);
    } else {
      ShlIsMul(0, 16 - k);
    }
  }

  /** The stored offset turns a word of length k into its position. */
  lemma {:induction false} OffsetOf(s: seq<nat>, f: nat, delta: int)
    requires Fits(s) && f < |s| && 1 <= s[f] <= 16 && Offset(s, s[f], delta)
    ensures Code(s, f) + delta == f
  {
    var k, u := s[f], Upto(s, |s|, s[f] - 1);
    OrderedAll(s);
    UptoSplits(s, |s|, k - 1);
    RunLeft(s, u, f, k);
    CodeIsLeft(s, f);
    ShlSum(u - delta, f - u, 16 - k);
    ShlInjective(Code(s, f), u - delta + (f - u), 16 - k);
  }

  lemma {:induction false} ShlInjective(a: nat, b: nat, n: nat)
    requires Shl(a, n) == Shl(b, n)
    ensures a == b
  {
    if n > 0 {
      ShlInjective(a, b, n - 1);
    }
  }

  lemma {:induction false} NextWord(s: seq<nat>, k: nat, code: nat)
    requires Ordered(s) && k < |s| && 1 <= s[k] <= 16 && Shl(code, 16 - s[k]) == Left(s, k)
    ensures code == Code(s, k) && Shl(code + 1, 16 - s[k]) == Left(s, k + 1)
  {
    CodeIsLeft(s, k);
    ShlInjective(code, Code(s, k), 16 - s[k]);
    ShlSum(code, 1, 16 - s[k]);
  }

  lemma {:induction false} NextLength(code: nat, j: nat)
    ensures j < 16 ==> Shl(2 * code, 16 - (j + 1)) == Shl(code, 16 - j)
  {
    if j < 16 {
      ShlAdd(code, 1, 15 - j);
    }
  }

  lemma {:induction false} NoWord(s: seq<nat>, t: nat)
    requires Ordered(s) && Left(s, Upto(s, |s|, 16)) <= t
    ensures Find(s, |s|, t) == -1
  {
    UptoEnds(s, |s|);
    var f := Find(s, |s|, t);
    if f >= 0 {
      LeftMono(s, f + 1, |s|);
    }
  }

  /** The bits of the word that was found are its code. */
  lemma {:induction false} WordValue(s: seq<nat>, f: nat, d: BitString, p: nat)
    requires Fits(s) && f < |s| && Heads(s, f, Peek(d, p, 16))
    ensures 1 <= s[f] <= 16 && Peek(d, p, s[f]) == Code(s, f)
  {
    OrderedAt(s, f);
    PeekSplit(d, p, s[f], 16 - s[f]);
    HeadsIsCode(s, f, Peek(d, p, s[f]), Peek(d, p + s[f], 16 - s[f]));
  }

  /** The check on the last code of a length detects lengths that leave no room. */
  lemma {:induction false} Overfull(code: nat, j: nat)
    requires 1 <= j <= 16
    ensures code - 1 >= Pow2(j) <==> Shl(code, 16 - j) > 0x1_0000
  {
    ShlIsMul(Pow2(j), 16 - j);
    Pow2Add(j, 16 - j);
    Pow2Values();
    ShlSum(Pow2(j), code, 16 - j);
    ShlSum(code, Pow2(j), 16 - j);
  }
}
