/**
 What a baseline JPEG decoder reads from a string of entropy-coded bits (T.81 section F.2.2).
 The bits are taken to be followed by zeros; reading beyond them is told apart as `Short`.
 */
module JpegSpec {
  import opened Bits
  import opened Canonical
  import ZigZag

  /** A decoding table: word lengths in assignment order and the values of the words. */
  datatype Codes = Codes(sizes: seq<nat>, vals: seq<Byte>)

  ghost predicate ValidCodes(c: Codes) {
    Fits(c.sizes) && |c.sizes| == |c.vals| <= 256
  }

  datatype Read = Got(value: int, pos: nat) | NoCode | Short

  /** The word that heads the bits, which go on with zeros. */
  ghost function PaddedSymbol(c: Codes, d: BitString, p: nat): (r: Read)
    requires ValidCodes(c)
    ensures !r.Short?
  {
    var k := Find(c.sizes, |c.sizes|, Peek(d, p, 16));
    if k < 0 then NoCode else Got(c.vals[k], p + c.sizes[k])
  }

  ghost function ReadSymbol(c: Codes, d: BitString, p: nat): (r: Read)
    requires ValidCodes(c)
    ensures r.Got? ==> 0 <= r.value < 256
  {
    var k := Find(c.sizes, |c.sizes|, Peek(d, p, 16));
    if k < 0 then NoCode
    else if p + c.sizes[k] > |d| then Short
    else Got(c.vals[k], p + c.sizes[k])
  }

  /** T.81 figure F.12: n bits without their leading one stand for a negative number. */
  function Extend(v: nat, n: nat): int
    requires n >= 1
  {
    if v < Pow2(n - 1) then v - Pow2(n) + 1 else v
  }

  ghost function ReadAmplitude(d: BitString, p: nat, n: nat): Read
    requires n >= 1
  {
    if p + n > |d| then Short else Got(Extend(Peek(d, p, n), n), p + n)
  }

  /** Conversion to a 16-bit integer. */
  function Int16(x: int): (y: int)
    ensures -0x8000 <= y < 0x8000
    ensures -0x8000 <= x < 0x8000 ==> y == x
  {
    (x + 0x8000) % 0x1_0000 - 0x8000
  }

  datatype Outcome = Done(data: seq<int>, dc: int, pos: nat) | Bad | Cut

  /** One symbol of the AC part: end of block, sixteen zeros, or a coefficient at a scan position. */
  datatype Step = Stop | Skip | Store(at: nat, value: int) | Broken | Missing

  ghost function AcStep(c: Codes, d: BitString, p: nat, k: nat): (r: (Step, nat))
    requires ValidCodes(c) && 1 <= k < 64
    ensures r.0.Store? ==> k <= r.0.at <= k + 15
  {
    match ReadSymbol(c, d, p)
    case NoCode => (Broken, p)
    case Short => (Missing, p)
    case Got(rs, q) =>
      if rs % 16 == 0 then (if rs == 0xF0 then Skip else Stop, q)
      else
        match ReadAmplitude(d, q, rs % 16)
        case Got(v, q') => (Store(k + rs / 16, v), q')
        case _ => (Missing, p)
  }

  /** The same by choice, so that only NextStepIs unfolds it. */
  ghost function NextStep(c: Codes, d: BitString, p: nat, k: nat): (r: (Step, nat))
    requires ValidCodes(c) && 1 <= k < 64
    ensures r.0.Store? ==> k <= r.0.at <= k + 15
  {
    assert IsStep(c, d, p, k, AcStep(c, d, p, k));
    var r :| IsStep(c, d, p, k, r);
    assert StepFor(c, d, p, k, r, k);
    r
  }

  ghost predicate IsStep(c: Codes, d: BitString, p: nat, k: nat, r: (Step, nat))
    requires ValidCodes(c)
  {
    forall m: nat :: StepFor(c, d, p, k, r, m)
  }

  ghost predicate StepFor(c: Codes, d: BitString, p: nat, k: nat, r: (Step, nat), m: nat)
    requires ValidCodes(c)
  {
    m == k && 1 <= m < 64 ==> r == AcStep(c, d, p, m)
  }

  lemma {:induction false} NextStepIs(c: Codes, d: BitString, p: nat, k: nat)
    requires ValidCodes(c) && 1 <= k < 64
    ensures NextStep(c, d, p, k) == AcStep(c, d, p, k)
  {
    assert StepFor(c, d, p, k, NextStep(c, d, p, k), k);
  }

  /** Stores a dequantised coefficient at its place in the row-major block. */
  function Put(data: seq<int>, at: nat, v: int, dequant: seq<nat>): (r: seq<int>)
    requires |data| == |dequant| == 64
    ensures |r| == 64
  {
    data[ZigZag.Unscan(at) := Int16(v * dequant[ZigZag.Unscan(at)])]
  }

  /** The coefficient of cell (r, c) goes to row r and column c. */
  lemma {:induction false} PutPlaces(data: seq<int>, r: nat, c: nat, v: int, dequant: seq<nat>)
    requires |data| == |dequant| == 64 && r < 8 && c < 8
    ensures Put(data, ZigZag.Place(r, c), v, dequant) == data[8 * r + c := Int16(v * dequant[8 * r + c])]
  {
    ZigZag.ScanIsPlace(r, c);
  }

  /** The AC coefficients from scan position k on, stored into data. */
  ghost function ReadAc(c: Codes, d: BitString, p: nat, k: nat, data: seq<int>, dequant: seq<nat>, dc: int): Outcome
    requires ValidCodes(c) && 1 <= k && |data| == |dequant| == 64
    decreases 80 - k
  {
    if k >= 64 then Done(data, dc, p)
    else
      var (step, q) := NextStep(c, d, p, k);
      match step
      case Broken => Bad
      case Missing => Cut
      case Stop => Done(data, dc, q)
      case Skip => ReadAc(c, d, q, k + 16, data, dequant, dc)
      case Store(at, v) => ReadAc(c, d, q, at + 1, Put(data, at, v, dequant), dequant, dc)
  }

  /** The same as ReadAc, by choice, so that only AcOutcomeIs unfolds it. */
  ghost function AcOutcome(c: Codes, d: BitString, p: nat, k: nat, data: seq<int>, dequant: seq<nat>, dc: int): Outcome
    requires ValidCodes(c) && 1 <= k && |data| == |dequant| == 64
  {
    var o := ReadAc(c, d, p, k, data, dequant, dc);
    assert AcOutcomes(c, d, p, k, data, dequant, dc, o);
    var o :| AcOutcomes(c, d, p, k, data, dequant, dc, o);
    o
  }

  ghost predicate AcOutcomes(c: Codes, d: BitString, p: nat, k: nat, data: seq<int>, dequant: seq<nat>, dc: int, o: Outcome)
    requires ValidCodes(c) && |data| == |dequant| == 64
  {
    forall m: nat :: AcOutcomeFor(c, d, p, k, data, dequant, dc, o, m)
  }

  ghost predicate AcOutcomeFor(c: Codes, d: BitString, p: nat, k: nat, data: seq<int>, dequant: seq<nat>, dc: int,
                               o: Outcome, m: nat)
    requires ValidCodes(c) && |data| == |dequant| == 64
  {
    m == k && 1 <= m ==> o == ReadAc(c, d, p, m, data, dequant, dc)
  }

  lemma {:induction false} AcOutcomeIs(c: Codes, d: BitString, p: nat, k: nat, data: seq<int>, dequant: seq<nat>, dc: int)
    requires ValidCodes(c) && 1 <= k && |data| == |dequant| == 64
    ensures AcOutcome(c, d, p, k, data, dequant, dc) == ReadAc(c, d, p, k, data, dequant, dc)
  {
    assert AcOutcomeFor(c, d, p, k, data, dequant, dc, AcOutcome(c, d, p, k, data, dequant, dc), k);
  }

  /** All coefficients are there. */
  lemma {:induction false} AcOutcomeEnd(c: Codes, d: BitString, p: nat, k: nat, data: seq<int>, dequant: seq<nat>, dc: int)
    requires ValidCodes(c) && 64 <= k && |data| == |dequant| == 64
    ensures AcOutcome(c, d, p, k, data, dequant, dc) == Done(data, dc, p)
  {
    AcOutcomeIs(c, d, p, k, data, dequant, dc);
  }

  lemma {:induction false} ReadAcEnd(c: Codes, d: BitString, p: nat, k: nat, data: seq<int>, dequant: seq<nat>, dc: int,
                                     step: Step, q: nat)
    requires ValidCodes(c) && 1 <= k < 64 && |data| == |dequant| == 64 && NextStep(c, d, p, k) == (step, q)
    requires !step.Skip? && !step.Store?
    ensures ReadAc(c, d, p, k, data, dequant, dc)
            == if step.Broken? then Bad else if step.Missing? then Cut else Done(data, dc, q)
  {
  }

  lemma {:induction false} ReadAcStore(c: Codes, d: BitString, p: nat, k: nat, data: seq<int>, dequant: seq<nat>, dc: int,
                                       at: nat, v: int, q: nat)
    requires ValidCodes(c) && 1 <= k < 64 && |data| == |dequant| == 64 && NextStep(c, d, p, k) == (Store(at, v), q)
    ensures ReadAc(c, d, p, k, data, dequant, dc) == ReadAc(c, d, q, at + 1, Put(data, at, v, dequant), dequant, dc)
  {
  }

  lemma {:induction false} ReadAcSkip(c: Codes, d: BitString, p: nat, k: nat, data: seq<int>, dequant: seq<nat>, dc: int,
                                      q: nat)
    requires ValidCodes(c) && 1 <= k < 64 && |data| == |dequant| == 64 && NextStep(c, d, p, k) == (Skip, q)
    ensures ReadAc(c, d, p, k, data, dequant, dc) == ReadAc(c, d, q, k + 16, data, dequant, dc)
  {
  }

  /** Reading goes on after one step. */
  lemma {:induction false} AcOutcomeStep(c: Codes, d: BitString, p: nat, k: nat, data: seq<int>, dequant: seq<nat>, dc: int,
                                         step: Step, q: nat)
    requires ValidCodes(c) && 1 <= k < 64 && |data| == |dequant| == 64 && NextStep(c, d, p, k) == (step, q)
    ensures AcLeads(c, d, data, dequant, dc, k, AcOutcome(c, d, p, k, data, dequant, dc), step, q)
  {
    AcOutcomeIs(c, d, p, k, data, dequant, dc);
    if step.Skip? {
      ReadAcSkip(c, d, p, k, data, dequant, dc, q);
      AcOutcomeIs(c, d, q, k + 16, data, dequant, dc);
    } else if step.Store? {
      ReadAcStore(c, d, p, k, data, dequant, dc, step.at, step.value, q);
      AcOutcomeIs(c, d, q, step.at + 1, Put(data, step.at, step.value, dequant), dequant, dc);
    } else {
      ReadAcEnd(c, d, p, k, data, dequant, dc, step, q);
    }
  }

  /** The same for each kind of step that goes on or ends the block. */
  lemma {:induction false} AcStored(c: Codes, d: BitString, p: nat, k: nat, data: seq<int>, dequant: seq<nat>, dc: int,
                                    at: nat, v: int, q: nat)
    requires ValidCodes(c) && 1 <= k < 64 && |data| == |dequant| == 64 && NextStep(c, d, p, k) == (Store(at, v), q)
    ensures AcOutcome(c, d, p, k, data, dequant, dc) == AcOutcome(c, d, q, at + 1, Put(data, at, v, dequant), dequant, dc)
  {
    AcOutcomeStep(c, d, p, k, data, dequant, dc, Store(at, v), q);
  }

  lemma {:induction false} AcSkipped(c: Codes, d: BitString, p: nat, k: nat, data: seq<int>, dequant: seq<nat>, dc: int,
                                     q: nat)
    requires ValidCodes(c) && 1 <= k < 64 && |data| == |dequant| == 64 && NextStep(c, d, p, k) == (Skip, q)
    ensures AcOutcome(c, d, p, k, data, dequant, dc) == AcOutcome(c, d, q, k + 16, data, dequant, dc)
  {
    AcOutcomeStep(c, d, p, k, data, dequant, dc, Skip, q);
  }

  lemma {:induction false} AcStopped(c: Codes, d: BitString, p: nat, k: nat, data: seq<int>, dequant: seq<nat>, dc: int,
                                     q: nat)
    requires ValidCodes(c) && 1 <= k < 64 && |data| == |dequant| == 64 && NextStep(c, d, p, k) == (Stop, q)
    ensures AcOutcome(c, d, p, k, data, dequant, dc) == Done(data, dc, q)
  {
    AcOutcomeStep(c, d, p, k, data, dequant, dc, Stop, q);
  }

  /** What a step that ends at q makes of the outcome. */
  ghost predicate AcLeads(c: Codes, d: BitString, data: seq<int>, dequant: seq<nat>, dc: int, k: nat, o: Outcome,
                          step: Step, q: nat)
    requires ValidCodes(c) && |data| == |dequant| == 64
  {
    match step
    case Broken => o == Bad
    case Missing => o == Cut
    case Stop => o == Done(data, dc, q)
    case Skip => o == AcOutcome(c, d, q, k + 16, data, dequant, dc)
    case Store(at, v) => o == AcOutcome(c, d, q, at + 1, Put(data, at, v, dequant), dequant, dc)
  }

  function ZeroUnit(): (z: seq<int>)
    ensures |z| == 64 && forall i :: 0 <= i < 64 ==> z[i] == 0
  {
    seq(64, _ => 0)
  }

  ghost predicate Fits32(x: int) {
    -0x8000_0000 <= x <= 0x7FFF_FFFF
  }

  ghost predicate Fits16(x: int) {
    -0x8000 <= x <= 0x7FFF
  }

  ghost function ReadDiff(c: Codes, d: BitString, p: nat): Read
    requires ValidCodes(c)
  {
    match ReadSymbol(c, d, p)
    case Got(t, q) => if t == 0 then Got(0, q) else if t > 15 then NoCode else ReadAmplitude(d, q, t)
    case r => r
  }

  /** The new DC prediction; `NoCode` also when it or its dequantised value is out of range. */
  ghost function ReadDc(c: Codes, d: BitString, p: nat, pred: int, q0: nat): (r: Read)
    requires ValidCodes(c)
    ensures r.Got? ==> Fits32(r.value) && Fits16(r.value * q0)
  {
    match ReadDiff(c, d, p)
    case Got(diff, q) =>
      if Fits32(pred + diff) && Fits16((pred + diff) * q0) then Got(pred + diff, q) else NoCode
    case r => r
  }

  /** One data unit: the DC coefficient, then the AC coefficients. */
  ghost function ReadUnit(dcc: Codes, acc: Codes, d: BitString, p: nat, pred: int, dequant: seq<nat>): Outcome
    requires ValidCodes(dcc) && ValidCodes(acc) && |dequant| == 64
  {
    match ReadDc(dcc, d, p, pred, dequant[0])
    case NoCode => Bad
    case Short => Cut
    case Got(dc, q) => AcOutcome(acc, d, q, 1, ZeroUnit()[0 := dc * dequant[0]], dequant, dc)
  }

  /** The bytes of an entropy-coded segment without stuffing, up to the first marker. */
  ghost function DataBytes(s: seq<Byte>): seq<Byte>
    decreases |s|
  {
    if s == [] then []
    else if s[0] != 0xFF then [s[0]] + DataBytes(s[1..])
    else
      var t := AfterFill(s[1..]);
      if t == [] then [0xFF] else if t[0] == 0 then [0xFF] + DataBytes(t[1..]) else []
  }

  /** Skips 0xFF fill bytes. */
  ghost function AfterFill(s: seq<Byte>): (t: seq<Byte>)
    ensures |t| <= |s| && t == s[|s| - |t|..]
  {
    if s != [] && s[0] == 0xFF then AfterFill(s[1..]) else s
  }
}
