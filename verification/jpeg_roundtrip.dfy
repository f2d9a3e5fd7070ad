/**
 The decoder of stb_image.h undoes the encoder of tiny_jpeg.h: whatever data units are encoded,
 the bytes that reach the callback decode to the same coefficients.
 */
module JpegRoundTrip {
  import opened Bits
  import opened Canonical
  import opened JpegSpec
  import opened TinyJpeg
  import StbJpeg
  import ZigZag

  /** Encoder and decoder agree on symbol v: it is some word of the decoder's table. */
  ghost predicate Agree(t: Table, c: Codes, v: int) {
    && ValidCodes(c) && Known(t, v)
    && exists k :: 0 <= k < |c.sizes| && AgreeAt(t, c, v, k)
  }

  ghost predicate AgreeAt(t: Table, c: Codes, v: int, k: nat) {
    && k < |c.sizes| == |c.vals| && Known(t, v)
    && c.vals[k] == v && t.size[v] == c.sizes[k] && t.code[v] == Code(c.sizes, k)
  }

  /** A symbol written with the encoder's table is read back with the decoder's. */
  lemma {:induction false} SymbolRead(t: Table, c: Codes, d: BitString, p: nat, v: int, rest: Pieces) returns (q: nat)
    requires Agree(t, c, v) && Stands(d, p, Symbol(t, v, rest))
    ensures ReadSymbol(c, d, p) == Got(v, q) && Stands(d, q, rest)
  {
    var k :| 0 <= k < |c.sizes| && AgreeAt(t, c, v, k);
    var n := c.sizes[k];
    q := p + n;
    PeekSplit(d, p, n, 16 - n);
    HeadsIsCode(c.sizes, k, Peek(d, p, n), Peek(d, p + n, 16 - n));
    FindIs(c.sizes, |c.sizes|, Peek(d, p, 16), k);
  }

  /** Extending undoes the variable-length code of a nonzero value. */
  lemma {:induction false} ExtendVli(v: int)
    requires v != 0
    ensures Extend(VliBits(v), BitLen(Abs(v))) == v
  {
  }

  lemma {:induction false} AmplitudeRead(d: BitString, p: nat, v: int, rest: Pieces) returns (q: nat)
    requires v != 0 && Stands(d, p, Vli(v, rest))
    ensures ReadAmplitude(d, p, BitLen(Abs(v))) == Got(v, q) && Stands(d, q, rest)
  {
    q := p + BitLen(Abs(v));
    ExtendVli(v);
  }

  /** The tables agree on all DC, or all AC, symbols that the encoder uses. */
  ghost predicate AgreeDc(t: Table, c: Codes) {
    forall v {:trigger Agree(t, c, v)} :: 0 <= v <= 11 ==> Agree(t, c, v)
  }

  ghost predicate AgreeAc(t: Table, c: Codes) {
    forall v {:trigger Agree(t, c, v)} :: AcSymbol(v) ==> Agree(t, c, v)
  }

  /** Expanding a table for the encoder makes it agree on every listed value. */
  lemma {:induction false} AgreeOnValues(t: Table, c: Codes, v: Byte)
    requires ValidCodes(c) && Assigns(t, c.sizes, c.vals) && v in c.vals
    ensures Agree(t, c, v)
  {
    var k :| 0 <= k < |c.sizes| && AssignsAt(t, c.sizes, c.vals, v, k);
    CodeSpan(c.sizes, k);
    assert AgreeAt(t, c, v, k);
  }

  // ---------- one data unit ----------

  /** The coefficients i..last of a unit put into the block. */
  ghost function Filled(data: seq<int>, du: seq<int>, i: nat, last: nat, dequant: seq<nat>): (r: seq<int>)
    requires |data| == |dequant| == |du| == 64 && last < 64
    ensures |r| == 64
    decreases 64 - i
  {
    if i > last then data
    else Filled(if du[i] == 0 then data else Put(data, i, du[i], dequant), du, i + 1, last, dequant)
  }

  /** The AC pieces from coefficient i on stand at p, after a pending run of zeros. */
  ghost predicate AcStands(t: Table, c: Codes, d: BitString, p: nat, du: seq<int>, i: nat, zeros: nat, last: nat,
                           rest: Pieces)
  {
    && ValidCodes(c) && AgreeAc(t, c) && DataUnit(du)
    && 1 <= i <= last + 1 <= 64 && zeros < 16 && zeros < i
    && (i > last ==> zeros == 0) && (last > 0 ==> du[last] != 0)
    && Stands(d, p, AcPieces(t, du, i, zeros, last, rest))
  }

  /** Reading what follows a pending run of zeros stores the remaining coefficients. */
  lemma {:induction false} AcRead(t: Table, c: Codes, d: BitString, p: nat, du: seq<int>, i: nat, zeros: nat,
                                  last: nat, data: seq<int>, dequant: seq<nat>, dc: int, rest: Pieces) returns (q: nat)
    requires AcStands(t, c, d, p, du, i, zeros, last, rest) && |data| == |dequant| == 64
    ensures AcOutcome(c, d, p, i - zeros, data, dequant, dc) == Done(Filled(data, du, i, last, dequant), dc, q)
    ensures Stands(d, q, rest)
    decreases 64 - i, 1
  {
    if i > last {
      q := AcReadEnd(t, c, d, p, du, i, last, data, dequant, dc, rest);
    } else if du[i] == 0 && zeros < 15 {
      q := AcRead(t, c, d, p, du, i + 1, zeros + 1, last, data, dequant, dc, rest);
    } else if du[i] == 0 {
      q := AcReadSixteen(t, c, d, p, du, i, last, data, dequant, dc, rest);
    } else {
      q := AcReadCoefficient(t, c, d, p, du, i, zeros, last, data, dequant, dc, rest);
    }
  }

  lemma {:induction false} AcReadEnd(t: Table, c: Codes, d: BitString, p: nat, du: seq<int>, i: nat, last: nat,
                                     data: seq<int>, dequant: seq<nat>, dc: int, rest: Pieces)
    returns (q: nat)
    requires AcStands(t, c, d, p, du, i, 0, last, rest) && |data| == |dequant| == 64 && i > last
    ensures AcOutcome(c, d, p, i, data, dequant, dc) == Done(data, dc, q)
    ensures Stands(d, q, rest)
  {
    q := p;
    if last != 63 {
      q := MarkRead(t, c, d, p, i, 0, rest);
      AcStopped(c, d, p, i, data, dequant, dc, q);
    } else {
      AcOutcomeEnd(c, d, p, i, data, dequant, dc);
    }
  }

  lemma {:induction false} AcReadSixteen(t: Table, c: Codes, d: BitString, p: nat, du: seq<int>, i: nat,
                                         last: nat, data: seq<int>, dequant: seq<nat>, dc: int, rest: Pieces)
    returns (q: nat)
    requires AcStands(t, c, d, p, du, i, 15, last, rest) && |data| == |dequant| == 64
    requires i <= last && du[i] == 0
    ensures AcOutcome(c, d, p, i - 15, data, dequant, dc) == Done(Filled(data, du, i, last, dequant), dc, q)
    ensures Stands(d, q, rest)
    decreases 64 - i, 0
  {
    q := MarkRead(t, c, d, p, i - 15, 0xF0, AcPieces(t, du, i + 1, 0, last, rest));
    AcSkipped(c, d, p, i - 15, data, dequant, dc, q);
    q := AcRead(t, c, d, q, du, i + 1, 0, last, data, dequant, dc, rest);
  }

  lemma {:induction false} AcReadCoefficient(t: Table, c: Codes, d: BitString, p: nat, du: seq<int>, i: nat, zeros: nat,
                                             last: nat, data: seq<int>, dequant: seq<nat>, dc: int, rest: Pieces)
    returns (q: nat)
    requires AcStands(t, c, d, p, du, i, zeros, last, rest) && |data| == |dequant| == 64
    requires i <= last && du[i] != 0
    ensures AcOutcome(c, d, p, i - zeros, data, dequant, dc) == Done(Filled(data, du, i, last, dequant), dc, q)
    ensures Stands(d, q, rest)
    decreases 64 - i, 0
  {
    AcCoefficient(t, c, d, p, du, i, zeros, last, rest);
    q := CoefficientRead(t, c, d, p, i, zeros, du[i], AcPieces(t, du, i + 1, 0, last, rest));
    AcStored(c, d, p, i - zeros, data, dequant, dc, i, du[i], q);
    AcNext(t, c, d, p, du, i, zeros, last, rest, q);
    FilledStep(data, du, i, last, dequant);
    q := AcRead(t, c, d, q, du, i + 1, 0, last, Put(data, i, du[i], dequant), dequant, dc, rest);
  }

  /** The pieces of a coefficient, then those of the next. */
  lemma {:induction false} AcCoefficient(t: Table, c: Codes, d: BitString, p: nat, du: seq<int>, i: nat, zeros: nat,
                                         last: nat, rest: Pieces)
    requires AcStands(t, c, d, p, du, i, zeros, last, rest) && i <= last && du[i] != 0
    ensures Abs(du[i]) < 1024
    ensures Stands(d, p, Coefficient(t, zeros, du[i], AcPieces(t, du, i + 1, 0, last, rest)))
  {
  }

  lemma {:induction false} AcNext(t: Table, c: Codes, d: BitString, p: nat, du: seq<int>, i: nat, zeros: nat, last: nat,
                                  rest: Pieces, q: nat)
    requires AcStands(t, c, d, p, du, i, zeros, last, rest) && i <= last
    requires Stands(d, q, AcPieces(t, du, i + 1, 0, last, rest))
    ensures AcStands(t, c, d, q, du, i + 1, 0, last, rest)
  {
  }

  lemma {:induction false} FilledStep(data: seq<int>, du: seq<int>, i: nat, last: nat, dequant: seq<nat>)
    requires |data| == |dequant| == |du| == 64 && i <= last < 64 && du[i] != 0
    ensures Filled(data, du, i, last, dequant) == Filled(Put(data, i, du[i], dequant), du, i + 1, last, dequant)
  {
  }

  /** End of block and sixteen zeros carry no amplitude. */
  lemma {:induction false} MarkRead(t: Table, c: Codes, d: BitString, p: nat, k: nat, v: int, rest: Pieces) returns (q: nat)
    requires ValidCodes(c) && AgreeAc(t, c) && 1 <= k < 64 && v in {0, 0xF0}
    requires Stands(d, p, Symbol(t, v, rest))
    ensures NextStep(c, d, p, k) == (if v == 0 then Stop else Skip, q) && Stands(d, q, rest)
  {
    assert Agree(t, c, v);
    q := SymbolRead(t, c, d, p, v, rest);
    NextStepIs(c, d, p, k);
  }

  lemma {:induction false} CoefficientRead(t: Table, c: Codes, d: BitString, p: nat, i: nat, zeros: nat, v: int, rest: Pieces)
    returns (q: nat)
    requires ValidCodes(c) && AgreeAc(t, c)
    requires zeros < i < 64 && zeros < 16 && v != 0 && Abs(v) < 1024
    requires Stands(d, p, Coefficient(t, zeros, v, rest))
    ensures NextStep(c, d, p, i - zeros) == (Store(i, v), q) && Stands(d, q, rest)
  {
    var n := BitLen(Abs(v));
    AcSize(zeros, v);
    assert Agree(t, c, 16 * zeros + n);
    q := SymbolRead(t, c, d, p, 16 * zeros + n, Vli(v, rest));
    q := AmplitudeRead(d, q, v, rest);
    StepOf(c, d, p, i - zeros, zeros, n);
    NextStepIs(c, d, p, i - zeros);
  }

  lemma {:induction false} StepOf(c: Codes, d: BitString, p: nat, k: nat, zeros: nat, n: nat)
    requires ValidCodes(c) && 1 <= k < 64 && 1 <= n < 16
    requires var r := ReadSymbol(c, d, p);
             r.Got? && r.value == 16 * zeros + n && ReadAmplitude(d, r.pos, n).Got?
    ensures var r := ReadAmplitude(d, ReadSymbol(c, d, p).pos, n);
            AcStep(c, d, p, k) == (Store(k + zeros, r.value), r.pos)
  {
    DivModUnique(16 * zeros + n, zeros, 16, n);
  }

  lemma {:induction false} DiffRead(t: Table, c: Codes, d: BitString, p: nat, diff: int, rest: Pieces) returns (q: nat)
    requires ValidCodes(c) && AgreeDc(t, c) && Abs(diff) < 2048
    requires Stands(d, p, DcPieces(t, diff, rest))
    ensures ReadDiff(c, d, p) == Got(diff, q) && Stands(d, q, rest)
  {
    if diff == 0 {
      assert Agree(t, c, 0);
      q := SymbolRead(t, c, d, p, 0, rest);
    } else {
      DcSize(diff);
      assert Agree(t, c, BitLen(Abs(diff)));
      q := SymbolRead(t, c, d, p, BitLen(Abs(diff)), Vli(diff, rest));
      q := AmplitudeRead(d, q, diff, rest);
    }
  }

  /** The block that decoding a unit yields: every coefficient, dequantised, in its place. */
  ghost predicate Decoded(du: seq<int>, dequant: seq<nat>, data: seq<int>) {
    && |du| == |dequant| == |data| == 64
    && forall k :: 0 <= k < 64 ==> DecodedAt(du, dequant, data, k)
  }

  ghost predicate DecodedAt(du: seq<int>, dequant: seq<nat>, data: seq<int>, k: nat)
    requires |du| == |dequant| == |data| == 64 && k < 64
  {
    data[ZigZag.Unscan(k)] == Int16(du[k] * dequant[ZigZag.Unscan(k)])
  }

  /** A decoded block holds the coefficient of cell (r, c) in row r and column c. */
  lemma {:induction false} DecodedPlaces(du: seq<int>, dequant: seq<nat>, data: seq<int>, r: nat, c: nat)
    requires Decoded(du, dequant, data) && r < 8 && c < 8
    ensures ZigZag.Place(r, c) < 64
    ensures data[8 * r + c] == Int16(du[ZigZag.Place(r, c)] * dequant[8 * r + c])
  {
    ZigZag.ScanIsPlace(r, c);
    assert DecodedAt(du, dequant, data, ZigZag.Place(r, c));
  }

  lemma {:induction false} PutElsewhere(data: seq<int>, at: nat, v: int, dequant: seq<nat>, k: nat)
    requires |data| == |dequant| == 64 && at < 64 && k < 64
    ensures Put(data, at, v, dequant)[ZigZag.Unscan(k)]
         == if at == k then Int16(v * dequant[ZigZag.Unscan(k)]) else data[ZigZag.Unscan(k)]
  {
    if at != k {
      ZigZag.UnscanInjective(at, k);
    }
  }

  /** Later coefficients leave earlier places alone and fill their own. */
  lemma {:induction false} FilledAt(data: seq<int>, du: seq<int>, i: nat, last: nat, dequant: seq<nat>, k: nat)
    requires |data| == |dequant| == |du| == 64 && i <= last + 1 <= 64 && k < 64
    ensures var r := Filled(data, du, i, last, dequant)[ZigZag.Unscan(k)];
            if i <= k <= last && du[k] != 0 then r == Int16(du[k] * dequant[ZigZag.Unscan(k)])
            else r == data[ZigZag.Unscan(k)]
    decreases 64 - i
  {
    if i <= last {
      PutElsewhere(data, i, du[i], dequant, k);
      FilledAt(if du[i] == 0 then data else Put(data, i, du[i], dequant), du, i + 1, last, dequant, k);
    }
  }

  lemma {:induction false} FilledDecodes(du: seq<int>, dequant: seq<nat>, k: nat)
    requires |dequant| == |du| == 64 && k < 64 && Fits16(du[0] * dequant[0])
    ensures DecodedAt(du, dequant,
                      Filled(ZeroUnit()[0 := du[0] * dequant[0]], du, 1, LastNonZero(du, 63), dequant), k)
  {
    FilledAt(ZeroUnit()[0 := du[0] * dequant[0]], du, 1, LastNonZero(du, 63), dequant, k);
    if k > 0 {
      ZigZag.UnscanInjective(0, k);
    }
  }

  /** Reading an encoded unit yields its coefficients and stops where the next one starts. */
  lemma {:induction false} UnitRead(dct: Table, act: Table, dcc: Codes, acc: Codes, d: BitString, p: nat, du: seq<int>, pred: int,
                 dequant: seq<nat>, rest: Pieces) returns (data: seq<int>, q: nat)
    requires ValidCodes(dcc) && ValidCodes(acc) && AgreeDc(dct, dcc) && AgreeAc(act, acc)
    requires DataUnit(du) && Abs(du[0] - pred) < 2048 && |dequant| == 64
    requires Fits32(du[0]) && Fits16(du[0] * dequant[0])
    requires Stands(d, p, UnitPieces(dct, act, du, pred, rest))
    ensures ReadUnit(dcc, acc, d, p, pred, dequant) == Done(data, du[0], q)
    ensures Decoded(du, dequant, data) && Stands(d, q, rest)
  {
    var last, zero := LastNonZero(du, 63), ZeroUnit()[0 := du[0] * dequant[0]];
    q := DiffRead(dct, dcc, d, p, du[0] - pred, AcPieces(act, du, 1, 0, last, rest));
    UnitStep(dcc, acc, d, p, pred, du[0], dequant, q);
    q := AcRead(act, acc, d, q, du, 1, 0, last, zero, dequant, du[0], rest);
    data := Filled(zero, du, 1, last, dequant);
    AllFilled(du, dequant);
  }

  /** A unit is read from where its DC difference ends. */
  lemma {:induction false} UnitStep(dcc: Codes, acc: Codes, d: BitString, p: nat, pred: int, dc: int, dequant: seq<nat>, q: nat)
    requires ValidCodes(dcc) && ValidCodes(acc) && |dequant| == 64 && Fits32(dc) && Fits16(dc * dequant[0])
    requires ReadDiff(dcc, d, p) == Got(dc - pred, q)
    ensures ReadUnit(dcc, acc, d, p, pred, dequant)
            == AcOutcome(acc, d, q, 1, ZeroUnit()[0 := dc * dequant[0]], dequant, dc)
  {
  }

  lemma {:induction false} AllFilled(du: seq<int>, dequant: seq<nat>)
    requires |dequant| == |du| == 64 && Fits16(du[0] * dequant[0])
    ensures Decoded(du, dequant, Filled(ZeroUnit()[0 := du[0] * dequant[0]], du, 1, LastNonZero(du, 63), dequant))
  {
    var data := Filled(ZeroUnit()[0 := du[0] * dequant[0]], du, 1, LastNonZero(du, 63), dequant);
    forall k | 0 <= k < 64
      ensures DecodedAt(du, dequant, data, k)
    {
      FilledDecodes(du, dequant, k);
    }
  }

  // ---------- the scan ----------

  /** The decoder's tables for a component, with their abstract values. */
  datatype Component = Component(hdc: StbJpeg.Lookup, hac: StbJpeg.Lookup, fac: seq<int>, dequant: seq<nat>,
                                 dc: Codes, ac: Codes)

  ghost predicate Ready(c: Component) {
    && StbJpeg.Decodes(c.hdc, c.dc) && StbJpeg.Accelerable(c.dc.sizes)
    && StbJpeg.Decodes(c.hac, c.ac) && StbJpeg.Accelerable(c.ac.sizes)
    && StbJpeg.FastAc(c.fac, c.ac) && |c.dequant| == 64
  }

  /** Encoder and decoder agree on the tables of a component. */
  ghost predicate Paired(tab: Tables, c: Component) {
    && ValidCodes(c.dc) && ValidCodes(c.ac) && AgreeDc(tab.dc, c.dc) && AgreeAc(tab.ac, c.ac)
    && |c.dequant| == 64
  }

  /** The DC coefficients of a component stay in range when dequantised. */
  ghost predicate InRange(units: seq<Unit>, i: nat, dequant: seq<nat>)
    requires i < |units| && |dequant| == 64
  {
    Fits32(units[i][0]) && Fits16(units[i][0] * dequant[0])
  }

  /** The tables agree and express the units of the scan. */
  ghost predicate Fitting(comps: seq<Component>, tabs: seq<Tables>, units: seq<Unit>) {
    && |comps| == |tabs| == 3 && Scannable(units)
    && (forall b :: 0 <= b < 3 ==> Ready(comps[b]) && Paired(tabs[b], comps[b]))
    && forall i :: 0 <= i < |units| ==> InRange(units, i, comps[i % 3].dequant)
  }

  /** The last DC coefficient of component b among the first i units, or 0. */
  ghost function LastDc(units: seq<Unit>, i: nat, b: nat): int
    requires i <= |units|
  {
    if i == 0 then 0 else if (i - 1) % 3 == b then units[i - 1][0] else LastDc(units, i - 1, b)
  }

  lemma {:induction false} LastDcIsPred(units: seq<Unit>, i: nat)
    requires i <= |units|
    ensures LastDc(units, i, i % 3) == Pred(units, i)
  {
    var b := i % 3;
    if i >= 3 {
      ThreeApart(i);
      assert LastDc(units, i, b) == LastDc(units, i - 1, b) == LastDc(units, i - 2, b);
    } else if i == 2 {
      assert LastDc(units, i, b) == LastDc(units, 1, b) == LastDc(units, 0, b);
    } else if i == 1 {
      assert LastDc(units, i, b) == LastDc(units, 0, b);
    }
  }

  lemma {:induction false} ThreeApart(i: nat)
    requires i >= 3
    ensures (i - 1) % 3 != i % 3 && (i - 2) % 3 != i % 3 && (i - 3) % 3 == i % 3
  {
  }

  /** The decoder is about to read unit i, with its predictions in step. */
  ghost predicate AtUnit(j: StbJpeg.Jpeg, tabs: seq<Tables>, units: seq<Unit>, i: nat)
    requires |tabs| == 3 && i <= |units|
    reads j
  {
    && j.Valid() && j.Predicts() && Stands(j.d, j.p, ScanPieces(tabs, units, i))
    && forall b :: 0 <= b < 3 ==> j.dc_pred[b] == LastDc(units, i, b)
  }

  /** One unit of the scan. */
  method DecodeUnit(j: StbJpeg.Jpeg, c: Component, b: nat, ghost comps: seq<Component>, ghost tabs: seq<Tables>,
                    ghost units: seq<Unit>, ghost i: nat) returns (ok: bool, block: seq<int>)
    requires Fitting(comps, tabs, units) && i < |units| && b == i % 3 && c == comps[b]
    requires AtUnit(j, tabs, units, i)
    modifies j
    ensures ok && AtUnit(j, tabs, units, i + 1) && Decoded(units[i], c.dequant, block)
  {
    assert ScannableAt(units, i) && Ready(c) && Paired(tabs[b], c) && InRange(units, i, c.dequant);
    LastDcIsPred(units, i);
    ghost var data', q := UnitRead(tabs[b].dc, tabs[b].ac, c.dc, c.ac, j.d, j.p, units[i], Pred(units, i), c.dequant,
                                   ScanPieces(tabs, units, i + 1));
    var data := new int[64];
    ok := j.DecodeBlock(data, c.hdc, c.hac, c.fac, b, c.dequant, c.dc, c.ac);
    block := data[..];
  }

  /** Every decoded block holds the dequantised coefficients of its unit. */
  ghost predicate AllDecoded(comps: seq<Component>, units: seq<Unit>, blocks: seq<seq<int>>)
    requires |comps| == 3
  {
    |blocks| <= |units| && forall i :: 0 <= i < |blocks| ==> DecodedUnit(comps, units, blocks, i)
  }

  ghost predicate DecodedUnit(comps: seq<Component>, units: seq<Unit>, blocks: seq<seq<int>>, i: nat)
    requires |comps| == 3 && i < |blocks| <= |units|
  {
    Decoded(units[i], comps[i % 3].dequant, blocks[i])
  }

  lemma {:induction false} AppendDecoded(comps: seq<Component>, units: seq<Unit>, blocks: seq<seq<int>>, block: seq<int>)
    requires |comps| == 3 && AllDecoded(comps, units, blocks) && |blocks| < |units|
    requires Decoded(units[|blocks|], comps[|blocks| % 3].dequant, block)
    ensures AllDecoded(comps, units, blocks + [block])
  {
    forall i | 0 <= i < |blocks| + 1
      ensures DecodedUnit(comps, units, blocks + [block], i)
    {
      assert i < |blocks| ==> DecodedUnit(comps, units, blocks, i);
    }
  }

  /** The interleaved scan: the units of the components in turn. */
  method DecodeScan(j: StbJpeg.Jpeg, comps: seq<Component>, count: nat, ghost tabs: seq<Tables>, ghost units: seq<Unit>)
    returns (ok: bool, blocks: seq<seq<int>>)
    requires Fitting(comps, tabs, units) && count == |units| && AtUnit(j, tabs, units, 0)
    modifies j
    ensures ok && |blocks| == |units| && AllDecoded(comps, units, blocks)
  {
    blocks := [];
    var i := 0;
    ok := true;
    while i < count
      invariant ok && 0 <= i <= count && |blocks| == i && AllDecoded(comps, units, blocks)
      invariant AtUnit(j, tabs, units, i)
    {
      var block;
      ok, block := DecodeUnit(j, comps[i % 3], i % 3, comps, tabs, units, i);
      if !ok {
        return;
      }
      AppendDecoded(comps, units, blocks, block);
      blocks := blocks + [block];
      i := i + 1;
    }
  }

  /** Removing the stuffing recovers the bytes, whatever follows the end marker. */
  lemma {:induction false} Unstuff(bytes: seq<Byte>, more: seq<Byte>)
    ensures DataBytes(Stuff(bytes) + [0xFF, 0xD9] + more) == bytes
  {
    UnstuffUpTo(bytes, [0xFF, 0xD9] + more);
    assert Stuff(bytes) + [0xFF, 0xD9] + more == Stuff(bytes) + ([0xFF, 0xD9] + more);
  }

  lemma {:induction false} UnstuffUpTo(bytes: seq<Byte>, end: seq<Byte>)
    requires |end| >= 2 && end[0] == 0xFF && end[1] == 0xD9
    ensures DataBytes(Stuff(bytes) + end) == bytes
  {
    if bytes == [] {
      assert end[1..][0] == 0xD9;
      assert Stuff(bytes) + end == end;
    } else {
      UnstuffUpTo(bytes[1..], end);
      UnstuffByte(bytes[0], Stuff(bytes[1..]) + end);
      Regroup(if bytes[0] == 0xFF then [0xFF, 0x00] else [bytes[0]], Stuff(bytes[1..]), end);
    }
  }

  lemma {:induction false} Regroup(a: seq<Byte>, b: seq<Byte>, c: seq<Byte>)
    ensures a + b + c == a + (b + c)
  {
  }

  lemma {:induction false} UnstuffByte(b: Byte, rest: seq<Byte>)
    ensures DataBytes((if b == 0xFF then [0xFF, 0x00] else [b]) + rest) == [b] + DataBytes(rest)
  {
    var s := (if b == 0xFF then [0xFF, 0x00] else [b]) + rest;
    if b == 0xFF {
      assert s[1..] == [0x00] + rest && s[1..][1..] == rest;
    } else {
      assert s[1..] == rest;
    }
  }
}
