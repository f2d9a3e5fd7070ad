/**
 LZW as the GIF89a specification has it (Appendix F): codes have at most twelve bits, so that the table is
 full at 4096 entries and stays as it is until the next clear code.  The decoder goes on entering strings that no
 code can name, and gives up at 8192.
 */
module GifStandard {
  import opened Bits
  import opened LsbBits
  import opened GifLzw

  const FULL := 4096

  /** The table after a code: a full table stays as it is. */
  ghost function EnterFull(cs: nat, t: Table, code: nat): Table {
    if Avail(cs, t) < FULL then Enter(cs, t, code) else t.(prev := code)
  }

  ghost function ObeyFull(cs: nat, t: Table, code: nat): Step {
    if code == Clear(cs) then Restart
    else if code == Clear(cs) + 1 then Stop
    else if t.prev == -2 || code > Avail(cs, t) || (code == Avail(cs, t) && t.prev < 0) then Bad
    else Emit(Meaning(cs, t, code), EnterFull(cs, t, code))
  }

  ghost function DecodeFull(cs: nat, d: BitString, p: nat, t: Table, out: seq<Byte>): Outcome
    decreases |d| - p
  {
    var w := t.width;
    if w == 0 || p + w > |d| then Outcome(true, out)
    else
      match ObeyFull(cs, t, Field(d, p, w))
      case Restart => DecodeFull(cs, d, p + w, Empty(cs), out)
      case Stop => Outcome(true, out)
      case Bad => Outcome(false, out)
      case Emit(bytes, next) => DecodeFull(cs, d, p + w, next, out + bytes)
  }

  /** The strings that would have been entered after a code, with n of them before. */
  function Entered(t: Table, n: nat): nat {
    if t.prev >= 0 then n + 1 else n
  }

  /** Some run of codes without a clear code enters more strings than there are places; n have been entered so far. */
  ghost predicate Overflows(cs: nat, d: BitString, p: nat, t: Table, n: nat)
    decreases |d| - p
  {
    var w := t.width;
    if w == 0 || p + w > |d| then false
    else
      match ObeyFull(cs, t, Field(d, p, w))
      case Restart => Overflows(cs, d, p + w, Empty(cs), 0)
      case Stop => false
      case Bad => false
      case Emit(_, next) =>
        Clear(cs) + 2 + Entered(t, n) > LIMIT || Overflows(cs, d, p + w, next, Entered(t, n))
  }

  // ---------- the decoder and the standard ----------

  /** t is the decoder's table after n strings were entered, u that of the standard. */
  ghost predicate Alike(cs: nat, t: Table, u: Table, n: nat) {
    && Sound(cs, t) && t.width <= 12 && t.prev < FULL && |t.dict| == n
    && u.prev == t.prev && u.width == t.width
    && (if Avail(cs, t) <= FULL then u.dict == t.dict
        else u.dict <= t.dict && Avail(cs, u) == FULL)
  }

  lemma {:induction false} CodesSmall(d: BitString, p: nat, w: nat)
    requires w <= 12
    ensures Field(d, p, w) < FULL
  {
    Pow2Mono(w, 12);
    TwelveBits();
  }

  lemma {:induction false} SameStrings(cs: nat, t: Table, u: Table, n: nat, code: nat)
    requires Alike(cs, t, u, n) && code < FULL
    ensures StringOf(cs, u, code) == StringOf(cs, t, code) && Meaning(cs, u, code) == Meaning(cs, t, code)
  {
  }

  /** Codes have at most twelve bits. */
  lemma {:induction false} NoWider(w: nat, avail: nat)
    requires w <= 12 && avail > 0
    ensures Widened(w, avail) <= 12
  {
    if w == 12 {
      WideStays(avail, w);
    }
  }

  /** Unless the decoder gives up, a code leads to tables that are alike again. */
  lemma {:induction false} StepAlike(cs: nat, t: Table, u: Table, n: nat, code: nat)
    requires cs <= 11 && Alike(cs, t, u, n) && code < FULL
    ensures var s, r := Obey(cs, t, code), ObeyFull(cs, u, code);
            if r.Emit? && Clear(cs) + 2 + Entered(t, n) > LIMIT then s.Bad?
            else if r.Emit? then
              s.Emit? && s.bytes == r.bytes != [] && Alike(cs, s.next, r.next, Entered(t, n))
            else s == r
  {
    SameStrings(cs, t, u, n, code);
    if Obey(cs, t, code).Emit? {
      EnterSound(cs, t, code);
      NoWider(t.width, Avail(cs, Enter(cs, t, code)));
    }
  }

  /** The decoder never loses what it has emitted. */
  lemma {:induction false} EmittedStays(cs: nat, d: BitString, p: nat, t: Table, out: seq<Byte>)
    ensures |DecodeFull(cs, d, p, t, out).bytes| >= |out|
    decreases |d| - p
  {
    var w := t.width;
    if w != 0 && p + w <= |d| {
      var s := ObeyFull(cs, t, Field(d, p, w));
      if s.Restart? {
        EmittedStays(cs, d, p + w, Empty(cs), out);
      } else if s.Emit? {
        EmittedStays(cs, d, p + w, s.next, out + s.bytes);
      }
    }
  }

  /** Without an overflow the decoder does what the standard says. */
  lemma {:induction false} WithinAgrees(cs: nat, d: BitString, p: nat, t: Table, u: Table, n: nat, out: seq<Byte>)
    requires cs <= 11 && Alike(cs, t, u, n) && !Overflows(cs, d, p, u, n)
    ensures Decode(cs, d, p, t, out) == DecodeFull(cs, d, p, u, out)
    decreases |d| - p
  {
    var w := t.width;
    if w != 0 && p + w <= |d| {
      var code := Field(d, p, w);
      CodesSmall(d, p, w);
      StepAlike(cs, t, u, n, code);
      var s := ObeyFull(cs, u, code);
      if s.Restart? {
        WithinAgrees(cs, d, p + w, Empty(cs), Empty(cs), 0, out);
      } else if s.Emit? {
        WithinAgrees(cs, d, p + w, Obey(cs, t, code).next, s.next, Entered(t, n), out + s.bytes);
      }
    }
  }

  /** With one it fails, and has emitted less. */
  lemma {:induction false} OverflowRejected(cs: nat, d: BitString, p: nat, t: Table, u: Table, n: nat, out: seq<Byte>)
    requires cs <= 11 && Alike(cs, t, u, n) && Overflows(cs, d, p, u, n)
    ensures !Decode(cs, d, p, t, out).ok
    ensures |Decode(cs, d, p, t, out).bytes| < |DecodeFull(cs, d, p, u, out).bytes|
    decreases |d| - p
  {
    var w := t.width;
    var code := Field(d, p, w);
    CodesSmall(d, p, w);
    StepAlike(cs, t, u, n, code);
    var s := ObeyFull(cs, u, code);
    if s.Restart? {
      OverflowRejected(cs, d, p + w, Empty(cs), Empty(cs), 0, out);
    } else if Clear(cs) + 2 + Entered(t, n) <= LIMIT {
      OverflowRejected(cs, d, p + w, Obey(cs, t, code).next, s.next, Entered(t, n), out + s.bytes);
    } else {
      EmittedStays(cs, d, p + w, s.next, out + s.bytes);
    }
  }

  /** The decoder does what the standard says exactly if no run of codes overflows its table. */
  lemma {:induction false} AgreesIff(cs: nat, d: BitString, p: nat, t: Table, u: Table, n: nat, out: seq<Byte>)
    requires cs <= 11 && Alike(cs, t, u, n)
    ensures Decode(cs, d, p, t, out) == DecodeFull(cs, d, p, u, out) <==> !Overflows(cs, d, p, u, n)
  {
    if Overflows(cs, d, p, u, n) {
      OverflowRejected(cs, d, p, t, u, n, out);
    } else {
      WithinAgrees(cs, d, p, t, u, n, out);
    }
  }

  /** For a whole raster whose pixels have at most eleven bits. */
  lemma {:induction false} RasterAgreesIff(cs: nat, d: BitString)
    requires cs <= 11
    ensures Decode(cs, d, 0, NotStarted(cs), []) == DecodeFull(cs, d, 0, NotStarted(cs), [])
            <==> !Overflows(cs, d, 0, NotStarted(cs), 0)
  {
    Pow2Mono(cs, 11);
    TwelveBits();
    AgreesIff(cs, d, 0, NotStarted(cs), NotStarted(cs), 0, []);
  }

  // ---------- a raster that is rejected ----------

  /** No bit from p on is set. */
  ghost predicate Quiet(d: BitString, p: nat) {
    forall i :: p <= i < |d| ==> !At(d, i)
  }

  lemma {:induction false} QuietField(d: BitString, p: nat, n: nat)
    requires Quiet(d, p)
    ensures Field(d, p, n) == 0
    decreases n
  {
    if n > 0 {
      QuietField(d, p + 1, n - 1);
    }
  }

  /** Zeros after a clear code: code 0 again and again, which the standard permits. */
  lemma {:induction false} ZerosFull(cs: nat, d: BitString, p: nat, t: Table, out: seq<Byte>)
    requires Quiet(d, p) && t.prev >= -1
    ensures DecodeFull(cs, d, p, t, out).ok
    decreases |d| - p
  {
    var w := t.width;
    if w != 0 && p + w <= |d| {
      QuietField(d, p, w);
      ZerosFull(cs, d, p + w, EnterFull(cs, t, 0), out + Meaning(cs, t, 0));
    }
  }

  /** Enough of them overflow the table. */
  lemma {:induction false} ZerosOverflow(cs: nat, d: BitString, p: nat, t: Table, u: Table, n: nat)
    requires cs <= 11 && Alike(cs, t, u, n) && Quiet(d, p) && u.prev == 0 && u.width > 0
    requires Clear(cs) + 2 + n <= LIMIT && p + 12 * (LIMIT - (Clear(cs) + 2 + n) + 1) <= |d|
    ensures Overflows(cs, d, p, u, n)
    decreases LIMIT - n
  {
    var w := t.width;
    QuietField(d, p, w);
    StepAlike(cs, t, u, n, 0);
    if Clear(cs) + 2 + n + 1 <= LIMIT {
      ZerosOverflow(cs, d, p + w, Obey(cs, t, 0).next, ObeyFull(cs, u, 0).next, n + 1);
    }
  }

  /** The byte 4 and then zeros: for pixels of two bits, a clear code and then only the code 0. */
  ghost function Flat(zeros: nat): (bytes: seq<Byte>) {
    [4] + seq(zeros, _ => 0)
  }

  lemma {:induction false} FlatBits(zeros: nat)
    ensures Field(StreamOf(Flat(zeros)), 0, 3) == 4 && Quiet(StreamOf(Flat(zeros)), 3)
  {
    var d := StreamOf(Flat(zeros));
    StreamStreams(Flat(zeros));
    assert StreamsAt(Flat(zeros), d, 0);
    FirstByteFour(d);
    forall i | 3 <= i < |d|
      ensures !At(d, i)
    {
      if i < 8 {
        FieldBit(d, 3, 5, i);
      } else {
        ZeroByte(d, zeros, i, i / 8);
      }
    }
  }

  lemma {:induction false} FirstByteFour(d: BitString)
    requires Field(d, 0, 8) == 4
    ensures Field(d, 0, 3) == 4 && Field(d, 3, 5) == 0
  {
    FieldSplit(d, 0, 3, 5);
    ShlIsMul(Field(d, 3, 5), 3);
    Pow2Values();
  }

  lemma {:induction false} ZeroByte(d: BitString, zeros: nat, i: nat, k: nat)
    requires Streams(Flat(zeros), d) && 8 <= i < |d| && k == i / 8
    ensures !At(d, i)
  {
    assert StreamsAt(Flat(zeros), d, k);
    FieldBit(d, 8 * k, 8, i);
  }

  /** The bits of a field that is 0 are not set. */
  lemma {:induction false} FieldBit(d: BitString, p: nat, n: nat, i: nat)
    requires Field(d, p, n) == 0 && p <= i < p + n
    ensures !At(d, i)
    decreases n
  {
    if p < i {
      FieldBit(d, p + 1, n - 1, i);
    }
  }

  /** The standard accepts the data with any number of zeros, the decoder rejects them if there are enough. */
  lemma {:induction false} FlatIsRejected(zeros: nat)
    requires zeros >= 12500
    ensures var d, t := StreamOf(Flat(zeros)), NotStarted(2);
            DecodeFull(2, d, 0, t, []).ok && !Decode(2, d, 0, t, []).ok
  {
    var d, e := StreamOf(Flat(zeros)), Empty(2);
    Pow2Values();
    FlatBits(zeros);
    ZerosFull(2, d, 3, e, []);
    ZerosStart(d, e);
    OverflowRejected(2, d, 3, e, e, 0, []);
  }

  /** After the clear code the first code enters nothing. */
  lemma {:induction false} ZerosStart(d: BitString, e: Table)
    requires e == Empty(2) && Quiet(d, 3) && |d| >= 98304
    ensures Alike(2, e, e, 0) && Overflows(2, d, 3, e, 0)
  {
    Pow2Values();
    QuietField(d, 3, 3);
    StepAlike(2, e, e, 0, 0);
    LowOfSmall(6, 3);
    var next := ObeyFull(2, e, 0).next;
    assert next == Table([], 0, 3);
    ZerosOverflow(2, d, 6, next, next, 0);
  }
}
