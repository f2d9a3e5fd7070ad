/**
 The variable-length-code LZW of GIF (GIF89a specification, Appendix F): what the codes in a bit stream
 stand for.
 */
module GifLzw {
  import opened Bits
  import opened LsbBits

  /** The strings entered since the last clear code, the code before, if any, and the width of the next. */
  datatype Table = Table(dict: seq<seq<Byte>>, prev: int, width: nat)

  const LIMIT := 8192

  /** The code that clears the table; the next one ends the data. */
  function Clear(cs: nat): nat {
    Pow2(cs)
  }

  /** The code of the next entry. */
  function Avail(cs: nat, t: Table): nat {
    Clear(cs) + 2 + |t.dict|
  }

  /** The string of a code that has one; empty for other codes. */
  function StringOf(cs: nat, t: Table, code: nat): seq<Byte> {
    if code < Clear(cs) then [code % 256]
    else if Clear(cs) + 2 <= code < Avail(cs, t) then t.dict[code - Clear(cs) - 2]
    else []
  }

  ghost predicate Defined(cs: nat, t: Table, code: int) {
    0 <= code < Clear(cs) || Clear(cs) + 2 <= code < Avail(cs, t)
  }

  /** A code grows by a bit when the number of the next entry is a multiple of its range, up to 4095. */
  function Widened(w: nat, avail: nat): nat {
    if Low(avail, w) == 0 && avail <= 0x0FFF then w + 1 else w
  }

  /** The string a code stands for: an entry, or the old string and its own first byte. */
  ghost function Meaning(cs: nat, t: Table, code: nat): seq<Byte> {
    if code == Avail(cs, t) && Defined(cs, t, t.prev) then
      StringOf(cs, t, t.prev) + (if StringOf(cs, t, t.prev) == [] then [] else [StringOf(cs, t, t.prev)[0]])
    else StringOf(cs, t, code)
  }

  /** The table after a code: the old string with the first byte of the new one is entered. */
  ghost function Enter(cs: nat, t: Table, code: nat): Table {
    var m := Meaning(cs, t, code);
    var dict := if t.prev < 0 || m == [] then t.dict else t.dict + [StringOf(cs, t, t.prev) + [m[0]]];
    Table(dict, code, Widened(t.width, Clear(cs) + 2 + |dict|))
  }

  /** What a code leads to. */
  datatype Step = Emit(bytes: seq<Byte>, next: Table) | Restart | Stop | Bad

  /** The table before the first clear code, and after every one. */
  function NotStarted(cs: nat): Table { Table([], -2, cs + 1) }
  function Empty(cs: nat): Table { Table([], -1, cs + 1) }

  ghost function Obey(cs: nat, t: Table, code: nat): Step {
    if code == Clear(cs) then Restart
    else if code == Clear(cs) + 1 then Stop
    else if t.prev == -2 || code > Avail(cs, t) || (code == Avail(cs, t) && t.prev < 0) then Bad
    else if t.prev >= 0 && Avail(cs, t) >= LIMIT then Bad
    else Emit(Meaning(cs, t, code), Enter(cs, t, code))
  }

  datatype Outcome = Outcome(ok: bool, bytes: seq<Byte>)

  /** Decodes from bit p on, after the bytes already emitted; the data may also just end. */
  ghost function Decode(cs: nat, d: BitString, p: nat, t: Table, out: seq<Byte>): Outcome
    decreases |d| - p
  {
    var w := t.width;
    if w == 0 || p + w > |d| then Outcome(true, out)
    else
      match Obey(cs, t, Field(d, p, w))
      case Restart => Decode(cs, d, p + w, Empty(cs), out)
      case Stop => Outcome(true, out)
      case Bad => Outcome(false, out)
      case Emit(bytes, next) => Decode(cs, d, p + w, next, out + bytes)
  }

  // ---------- the table ----------

  /** Every entry is longer than one byte, and the old code has a string. */
  ghost predicate Sound(cs: nat, t: Table) {
    && (forall k :: 0 <= k < |t.dict| ==> |t.dict[k]| >= 2)
    && (t.prev >= 0 ==> Defined(cs, t, t.prev)) && (t.prev < 0 ==> t.dict == [])
  }

  lemma {:induction false} StringNotEmpty(cs: nat, t: Table, code: nat)
    requires Sound(cs, t) && Defined(cs, t, code)
    ensures StringOf(cs, t, code) != []
  {
  }

  /** A code that is obeyed keeps the table sound and is itself defined afterwards. */
  lemma {:induction false} EnterSound(cs: nat, t: Table, code: nat)
    requires Sound(cs, t) && Obey(cs, t, code).Emit?
    ensures Sound(cs, Enter(cs, t, code)) && Meaning(cs, t, code) != []
    ensures t.prev >= 0 ==> Avail(cs, Enter(cs, t, code)) == Avail(cs, t) + 1
    ensures t.prev < 0 ==> Enter(cs, t, code).dict == [] && code < Clear(cs)
  {
    if t.prev >= 0 {
      StringNotEmpty(cs, t, t.prev);
    }
  }

  /** Entering a string leaves the strings of the other codes alone. */
  lemma {:induction false} OldStrings(cs: nat, t: Table, s: seq<Byte>, code: nat, prev: int, w: nat)
    requires Defined(cs, t, code)
    ensures var t' := Table(t.dict + [s], prev, w);
            Defined(cs, t', code) && StringOf(cs, t', code) == StringOf(cs, t, code)
  {
  }

  /** After the step, the meaning of the code is its string. */
  lemma {:induction false} MeaningIsString(cs: nat, t: Table, code: nat)
    requires Sound(cs, t) && Obey(cs, t, code).Emit?
    ensures Defined(cs, Enter(cs, t, code), code)
    ensures Meaning(cs, t, code) == StringOf(cs, Enter(cs, t, code), code)
  {
    if t.prev >= 0 {
      StringNotEmpty(cs, t, t.prev);
    }
  }

  // ---------- the width of codes ----------

  /** The fewest bits, at least w and unless there are twelve, in which the next entry's number fits. */
  function FewestBits(avail: nat, w: nat): (r: nat)
    decreases 12 - w
  {
    if w >= 12 || avail < Pow2(w) then w else FewestBits(avail, w + 1)
  }

  /** The width is as small as the next entry permits. */
  ghost predicate Snug(cs: nat, t: Table) {
    t.width == FewestBits(Avail(cs, t), cs + 1)
  }

  lemma {:induction false} FewestIs(avail: nat, w: nat, r: nat)
    requires w <= r && (r >= 12 || avail < Pow2(r)) && (w < r ==> r <= 12 && Pow2(r - 1) <= avail)
    ensures FewestBits(avail, w) == r
    decreases r - w
  {
    if w < r {
      Pow2Mono(w, r - 1);
      FewestIs(avail, w + 1, r);
    }
  }

  lemma {:induction false} FewestHas(avail: nat, w: nat)
    ensures var r := FewestBits(avail, w);
            w <= r && (r >= 12 || avail < Pow2(r)) && (w < r ==> r <= 12 && Pow2(r - 1) <= avail)
    decreases 12 - w
  {
    if !(w >= 12 || avail < Pow2(w)) {
      FewestHas(avail, w + 1);
    }
  }

  lemma {:induction false} LowIsZero(avail: nat, w: nat)
    requires 0 < avail <= Pow2(w)
    ensures Low(avail, w) == 0 <==> avail == Pow2(w)
  {
    if avail < Pow2(w) {
      LowOfSmall(avail, w);
    } else {
      ShlIsMul(1, w);
      LowOfSum(1, 0, w);
    }
  }

  /** Growing by one entry keeps the width as small as possible. */
  lemma {:induction false} GrownSnug(avail: nat, c: nat, w: nat)
    requires w == FewestBits(avail, c) && 0 < avail
    ensures Widened(w, avail + 1) == FewestBits(avail + 1, c)
  {
    FewestHas(avail, c);
    TwelveBits();
    if w >= 12 {
      WideStays(avail + 1, w);
      FewestIs(avail + 1, c, w);
    } else {
      Pow2Mono(w, 11);
      LowIsZero(avail + 1, w);
      FewestIs(avail + 1, c, if avail + 1 == Pow2(w) then w + 1 else w);
    }
  }

  /** With twelve bits or more a multiple of the range is past 4095. */
  lemma {:induction false} WideStays(avail: nat, w: nat)
    requires w >= 12 && avail > 0
    ensures Widened(w, avail) == w
  {
    TwelveBits();
    Pow2Mono(12, w);
    if avail <= 0x0FFF {
      LowOfSmall(avail, w);
    }
  }

  /** The empty table has the least width exactly when pixels have at least two bits. */
  lemma {:induction false} EmptySnug(cs: nat)
    requires cs <= 12
    ensures Snug(cs, Empty(cs)) <==> cs >= 2
  {
    if cs >= 2 {
      Pow2Values();
      Pow2Mono(2, cs);
      FewestIs(Pow2(cs) + 2, cs + 1, cs + 1);
    } else if cs == 1 {
      FewestIs(4, 2, 3);
    } else {
      FewestIs(3, 1, 2);
    }
  }

  /** Decoding keeps the width as small as the table permits. */
  lemma {:induction false} SnugKept(cs: nat, t: Table, code: nat)
    requires 2 <= cs <= 12 && Sound(cs, t) && Snug(cs, t) && Obey(cs, t, code).Emit?
    ensures Snug(cs, Enter(cs, t, code))
  {
    EnterSound(cs, t, code);
    if t.prev >= 0 {
      GrownSnug(Avail(cs, t), cs + 1, t.width);
    } else {
      FirstSnug(cs, t, code);
    }
  }

  /** The first code after a clear code leaves the width as it is. */
  lemma {:induction false} FirstSnug(cs: nat, t: Table, code: nat)
    requires 2 <= cs <= 12 && Sound(cs, t) && Snug(cs, t) && Obey(cs, t, code).Emit? && t.prev < 0
    ensures Snug(cs, Enter(cs, t, code))
  {
    EmptySnug(cs);
    Pow2Mono(2, cs);
    LowOfSmall(Pow2(cs) + 2, cs + 1);
  }

  lemma {:induction false} TwelveBits()
    ensures Pow2(12) == 4096 && Pow2(11) == 2048
  {
  }
}
