/**
 LZW as GIF89a Appendix F tells it, without a table: every code is a pixel or refers to two phrases before it.
 The decoder of stb_image.h puts out the phrases, one after the other.
 */
module GifPhrases {
  import opened Bits
  import opened LsbBits
  import opened GifLzw

  /**
   The phrases that codes stand for after a clear code: a pixel of its own, or, for code number j from the first
   free one on, phrase j with the first pixel of the phrase after it, which may be the phrase itself.
   */
  ghost predicate Spells(cs: nat, codes: seq<nat>, phrases: seq<seq<Byte>>) {
    |codes| == |phrases| && forall k :: 0 <= k < |codes| ==> SpellsAt(cs, codes, phrases, k)
  }

  ghost predicate SpellsAt(cs: nat, codes: seq<nat>, phrases: seq<seq<Byte>>, k: nat)
    requires k < |codes| == |phrases|
  {
    if codes[k] < Pow2(cs) then phrases[k] == [codes[k] % 256]
    else
      var j := codes[k] - Pow2(cs) - 2;
      0 <= j < k && phrases[j + 1] != [] && phrases[k] == phrases[j] + [phrases[j + 1][0]]
  }

  /** The bits of code k: as few, from cs + 1 to 12, as the next free number needs. */
  function Width(cs: nat, k: nat): nat {
    FewestBits(Pow2(cs) + 2 + (if k == 0 then 0 else k - 1), cs + 1)
  }

  /** Where code k starts when the first one starts at p. */
  function Start(cs: nat, p: nat, k: nat): (q: nat)
    ensures q >= p
  {
    if k == 0 then p else Start(cs, p, k - 1) + Width(cs, k - 1)
  }

  /** The codes stand in the stream from p on. */
  ghost predicate Written(cs: nat, d: BitString, p: nat, codes: seq<nat>) {
    Start(cs, p, |codes|) <= |d| && forall k :: 0 <= k < |codes| ==> WrittenAt(cs, d, p, codes, k)
  }

  ghost predicate WrittenAt(cs: nat, d: BitString, p: nat, codes: seq<nat>, k: nat)
    requires k < |codes|
  {
    Start(cs, p, k + 1) <= |d| && Field(d, Start(cs, p, k), Width(cs, k)) == codes[k]
  }

  function Concat(phrases: seq<seq<Byte>>): seq<Byte> {
    if phrases == [] then [] else Concat(phrases[..|phrases| - 1]) + phrases[|phrases| - 1]
  }

  /** A clear code, codes, and the code that ends the data: the phrases are put out. */
  lemma {:induction false} PhrasesDecoded(cs: nat, d: BitString, codes: seq<nat>, phrases: seq<seq<Byte>>)
    requires 2 <= cs <= 12 && Spells(cs, codes, phrases) && Pow2(cs) + 2 + |codes| <= LIMIT
    requires cs + 1 <= |d| && Field(d, 0, cs + 1) == Pow2(cs) && Written(cs, d, cs + 1, codes + [Pow2(cs) + 1])
    ensures Decode(cs, d, 0, NotStarted(cs), []) == GifLzw.Outcome(true, Concat(phrases))
  {
    var n, p, all := |codes|, cs + 1, codes + [Pow2(cs) + 1];
    assert Decode(cs, d, 0, NotStarted(cs), []) == Decode(cs, d, p, Empty(cs), []);
    forall k | 0 <= k < n
      ensures WrittenAt(cs, d, p, codes, k)
    {
      assert WrittenAt(cs, d, p, all, k);
    }
    CodesDecoded(cs, d, p, codes, phrases, n);
    TablesFit(cs, codes, phrases, n);
    assert phrases[..0] == [] && phrases[..n] == phrases;
    assert WrittenAt(cs, d, p, all, n);
    LastCode(cs, d, Start(cs, p, n), TableAfter(cs, codes, phrases, n), Concat(phrases), Width(cs, n));
  }

  lemma {:induction false} LastCode(cs: nat, d: BitString, p: nat, t: Table, out: seq<Byte>, w: nat)
    requires w == t.width && p + w <= |d| && Field(d, p, w) == Pow2(cs) + 1
    ensures Decode(cs, d, p, t, out) == GifLzw.Outcome(true, out)
  {
  }

  // ---------- the table ----------

  /** The first n entries. */
  function Entries(phrases: seq<seq<Byte>>, n: nat): (e: seq<seq<Byte>>)
    requires n == 0 || n < |phrases|
    ensures |e| == n
    ensures forall j :: 0 <= j < n ==> e[j] == Entry(phrases, j)
  {
    if n == 0 then [] else Entries(phrases, n - 1) + [Entry(phrases, n - 1)]
  }

  function Entry(phrases: seq<seq<Byte>>, j: nat): seq<Byte>
    requires j + 1 < |phrases|
  {
    phrases[j] + (if phrases[j + 1] == [] then [] else [phrases[j + 1][0]])
  }

  /** The table after k codes. */
  function TableAfter(cs: nat, codes: seq<nat>, phrases: seq<seq<Byte>>, k: nat): Table
    requires k <= |codes| == |phrases|
  {
    if k == 0 then Empty(cs) else Table(Entries(phrases, k - 1), codes[k - 1], Width(cs, k))
  }

  lemma {:induction false} PhraseNotEmpty(cs: nat, codes: seq<nat>, phrases: seq<seq<Byte>>, k: nat)
    requires Spells(cs, codes, phrases) && k < |codes|
    ensures phrases[k] != []
  {
    assert SpellsAt(cs, codes, phrases, k);
  }

  /** The codes so far, and those that refer to entries, have their phrases as strings. */
  lemma {:induction false} StringIs(cs: nat, codes: seq<nat>, phrases: seq<seq<Byte>>, k: nat, i: nat)
    requires Spells(cs, codes, phrases) && i < |codes| && 1 <= k <= |codes|
    requires codes[i] < Pow2(cs) + 2 + (k - 1)
    ensures var t := TableAfter(cs, codes, phrases, k);
            Defined(cs, t, codes[i]) && StringOf(cs, t, codes[i]) == phrases[i]
  {
    assert SpellsAt(cs, codes, phrases, i);
  }

  /** Code k puts out its phrase and leads to the next table. */
  lemma {:induction false} OneCode(cs: nat, codes: seq<nat>, phrases: seq<seq<Byte>>, k: nat)
    requires 2 <= cs <= 12 && Spells(cs, codes, phrases) && k < |codes| && Pow2(cs) + 2 + |codes| <= LIMIT
    requires var t := TableAfter(cs, codes, phrases, k); Sound(cs, t) && Snug(cs, t)
    ensures var t, t' := TableAfter(cs, codes, phrases, k), TableAfter(cs, codes, phrases, k + 1);
            Obey(cs, t, codes[k]) == Emit(phrases[k], t') && Sound(cs, t') && Snug(cs, t')
  {
    var t := TableAfter(cs, codes, phrases, k);
    assert SpellsAt(cs, codes, phrases, k);
    if k == 0 {
      FirstCode(cs, codes, phrases);
    } else {
      LaterCode(cs, codes, phrases, k);
    }
    EnterSound(cs, t, codes[k]);
    SnugKept(cs, t, codes[k]);
  }

  lemma {:induction false} FirstCode(cs: nat, codes: seq<nat>, phrases: seq<seq<Byte>>)
    requires 2 <= cs <= 12 && Spells(cs, codes, phrases) && codes != []
    ensures Obey(cs, Empty(cs), codes[0]) == Emit(phrases[0], TableAfter(cs, codes, phrases, 1))
  {
    assert SpellsAt(cs, codes, phrases, 0);
    EmptySnug(cs);
    FirstSnug(cs, Empty(cs), codes[0]);
  }

  lemma {:induction false} LaterCode(cs: nat, codes: seq<nat>, phrases: seq<seq<Byte>>, k: nat)
    requires 2 <= cs <= 12 && Spells(cs, codes, phrases) && 1 <= k < |codes| && Pow2(cs) + 2 + |codes| <= LIMIT
    requires var t := TableAfter(cs, codes, phrases, k); Sound(cs, t) && Snug(cs, t)
    ensures Obey(cs, TableAfter(cs, codes, phrases, k), codes[k])
            == Emit(phrases[k], TableAfter(cs, codes, phrases, k + 1))
  {
    var t := TableAfter(cs, codes, phrases, k);
    assert SpellsAt(cs, codes, phrases, k);
    MeaningIs(cs, codes, phrases, k);
    EnterIs(cs, codes, phrases, k);
  }

  lemma {:induction false} EnterIs(cs: nat, codes: seq<nat>, phrases: seq<seq<Byte>>, k: nat)
    requires 2 <= cs <= 12 && Spells(cs, codes, phrases) && 1 <= k < |codes|
    requires var t := TableAfter(cs, codes, phrases, k);
             Sound(cs, t) && Snug(cs, t) && Meaning(cs, t, codes[k]) == phrases[k]
    ensures Enter(cs, TableAfter(cs, codes, phrases, k), codes[k]) == TableAfter(cs, codes, phrases, k + 1)
  {
    var t := TableAfter(cs, codes, phrases, k);
    assert SpellsAt(cs, codes, phrases, k - 1);
    StringIs(cs, codes, phrases, k, k - 1);
    PhraseNotEmpty(cs, codes, phrases, k);
    GrownSnug(Avail(cs, t), cs + 1, t.width);
    NextEntry(phrases, k);
    EnterOf(cs, t, codes[k], phrases[k - 1], phrases[k]);
  }

  lemma {:induction false} EnterOf(cs: nat, t: Table, code: nat, before: seq<Byte>, m: seq<Byte>)
    requires t.prev >= 0 && StringOf(cs, t, t.prev) == before && Meaning(cs, t, code) == m != []
    ensures Enter(cs, t, code) == Table(t.dict + [before + [m[0]]], code, Widened(t.width, Avail(cs, t) + 1))
  {
  }

  lemma {:induction false} NextEntry(phrases: seq<seq<Byte>>, k: nat)
    requires 1 <= k < |phrases| && phrases[k] != []
    ensures Entries(phrases, k) == Entries(phrases, k - 1) + [phrases[k - 1] + [phrases[k][0]]]
  {
  }

  lemma {:induction false} MeaningIs(cs: nat, codes: seq<nat>, phrases: seq<seq<Byte>>, k: nat)
    requires Spells(cs, codes, phrases) && 1 <= k < |codes|
    ensures Meaning(cs, TableAfter(cs, codes, phrases, k), codes[k]) == phrases[k]
  {
    assert SpellsAt(cs, codes, phrases, k);
    assert SpellsAt(cs, codes, phrases, k - 1);
    StringIs(cs, codes, phrases, k, k - 1);
    PhraseNotEmpty(cs, codes, phrases, k - 1);
    if codes[k] < Pow2(cs) + 2 + (k - 1) {
      StringIs(cs, codes, phrases, k, k);
    }
  }

  /** What is put out in the end if the decoder has come to code k. */
  ghost function FinalOutcome(cs: nat, d: BitString, p: nat, codes: seq<nat>, phrases: seq<seq<Byte>>, k: nat): GifLzw.Outcome
    requires k <= |codes| == |phrases|
  {
    Decode(cs, d, Start(cs, p, k), TableAfter(cs, codes, phrases, k), Concat(phrases[..k]))
  }

  /** It comes to every code. */
  lemma {:induction false} CodesDecoded(cs: nat, d: BitString, p: nat, codes: seq<nat>, phrases: seq<seq<Byte>>, k: nat)
    requires 2 <= cs <= 12 && Spells(cs, codes, phrases) && k <= |codes| && Pow2(cs) + 2 + |codes| <= LIMIT
    requires forall i :: 0 <= i < |codes| ==> WrittenAt(cs, d, p, codes, i)
    ensures FinalOutcome(cs, d, p, codes, phrases, 0) == FinalOutcome(cs, d, p, codes, phrases, k)
  {
    if k > 0 {
      CodesDecoded(cs, d, p, codes, phrases, k - 1);
      CodeDecoded(cs, d, p, codes, phrases, k - 1);
    }
  }

  lemma {:induction false} CodeDecoded(cs: nat, d: BitString, p: nat, codes: seq<nat>, phrases: seq<seq<Byte>>, k: nat)
    requires 2 <= cs <= 12 && Spells(cs, codes, phrases) && k < |codes| && Pow2(cs) + 2 + |codes| <= LIMIT
    requires WrittenAt(cs, d, p, codes, k)
    ensures FinalOutcome(cs, d, p, codes, phrases, k) == FinalOutcome(cs, d, p, codes, phrases, k + 1)
  {
    var t := TableAfter(cs, codes, phrases, k);
    TablesFit(cs, codes, phrases, k);
    OneCode(cs, codes, phrases, k);
    NextStart(cs, p, k + 1, t.width);
    OneMorePhrase(phrases, k + 1);
    OneDecoded(cs, d, Start(cs, p, k), t, codes[k], phrases[k], Concat(phrases[..k]), Start(cs, p, k + 1),
               TableAfter(cs, codes, phrases, k + 1), Concat(phrases[..k + 1]));
  }

  lemma {:induction false} NextStart(cs: nat, p: nat, k: nat, w: nat)
    requires k > 0 && w == Width(cs, k - 1)
    ensures Start(cs, p, k) == Start(cs, p, k - 1) + w
  {
  }

  lemma {:induction false} OneMorePhrase(phrases: seq<seq<Byte>>, k: nat)
    requires 0 < k <= |phrases|
    ensures Concat(phrases[..k]) == Concat(phrases[..k - 1]) + phrases[k - 1]
  {
    assert phrases[..k][..k - 1] == phrases[..k - 1];
  }

  lemma {:induction false} TablesFit(cs: nat, codes: seq<nat>, phrases: seq<seq<Byte>>, k: nat)
    requires 2 <= cs <= 12 && Spells(cs, codes, phrases) && k <= |codes| && Pow2(cs) + 2 + |codes| <= LIMIT
    ensures var t := TableAfter(cs, codes, phrases, k); Sound(cs, t) && Snug(cs, t) && t.width == Width(cs, k) > 0
  {
    if k > 0 {
      TablesFit(cs, codes, phrases, k - 1);
      OneCode(cs, codes, phrases, k - 1);
    } else {
      EmptySnug(cs);
    }
    FewestHas(Pow2(cs) + 2 + (if k == 0 then 0 else k - 1), cs + 1);
  }

  lemma {:induction false} OneDecoded(cs: nat, d: BitString, p: nat, t: Table, code: nat, bytes: seq<Byte>, out: seq<Byte>,
                                      p': nat, t': Table, out': seq<Byte>)
    requires 0 < t.width && p' == p + t.width <= |d| && out' == out + bytes
    requires Field(d, p, t.width) == code && Obey(cs, t, code) == Emit(bytes, t')
    ensures Decode(cs, d, p, t, out) == Decode(cs, d, p', t', out')
  {
  }
}
