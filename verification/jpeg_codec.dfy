/**
 Encoder and decoder end to end: tables are built on both sides from the same specifications, the
 scan is written after a header, and reading what the callback received restores the coefficients.
 */
module JpegCodec {
  import opened Bits
  import opened Canonical
  import opened JpegSpec
  import opened TinyJpeg
  import opened JpegRoundTrip
  import StbJpeg
  import ZigZag

  /** A table as a DHT segment states it: how many words of each length, and the values. */
  datatype HuffSpec = HuffSpec(bits: seq<nat>, vals: seq<Byte>)

  ghost predicate Usable(h: HuffSpec) {
    && |h.bits| == 16 && Fits(SizesOf(h.bits)) && StbJpeg.Accelerable(SizesOf(h.bits))
    && 1 <= |SizesOf(h.bits)| == |h.vals| <= 256
  }

  function CodesOf(h: HuffSpec): Codes {
    Codes(SizesOf(h.bits), h.vals)
  }

  ghost predicate CoversDc(h: HuffSpec) {
    forall v: Byte :: v <= 11 ==> v in h.vals
  }

  ghost predicate CoversAc(h: HuffSpec) {
    forall v: Byte :: AcSymbol(v) ==> v in h.vals
  }

  /** The tables and the quantiser of a component. */
  datatype Setup = Setup(dc: HuffSpec, ac: HuffSpec, dequant: seq<nat>)

  ghost predicate Usables(c: Setup) {
    Usable(c.dc) && Usable(c.ac) && CoversDc(c.dc) && CoversAc(c.ac) && |c.dequant| == 64
  }

  /** The encoder's side of a table. */
  method EncoderTable(h: HuffSpec) returns (t: Table)
    requires Usable(h)
    ensures Assigns(t, SizesOf(h.bits), h.vals)
  {
    var size := new nat[257](_ => 0);
    var code := new nat[256](_ => 0);
    HuffExpand(h.bits, h.vals, size, code);
    t := Table(size[..], code[..]);
  }

  /** The decoder's side of a table. */
  method DecoderTable(h: HuffSpec) returns (l: StbJpeg.Lookup)
    requires Usable(h)
    ensures StbJpeg.Decodes(l, CodesOf(h))
  {
    var table := new StbJpeg.Huffman();
    var ok := table.BuildHuffman(h.bits);
    var values := h.vals + seq(256 - |h.vals|, _ => 0);
    l := table.Finish(values, SizesOf(h.bits));
    assert values[..|h.vals|] == h.vals;
  }

  method DecoderSide(c: Setup) returns (r: Component)
    requires Usables(c)
    ensures Ready(r) && r.dc == CodesOf(c.dc) && r.ac == CodesOf(c.ac) && r.dequant == c.dequant
  {
    var hdc := DecoderTable(c.dc);
    var hac := DecoderTable(c.ac);
    var fac := new int[512];
    StbJpeg.BuildFastAc(fac, hac, CodesOf(c.ac));
    r := Component(hdc, hac, fac[..], c.dequant, CodesOf(c.dc), CodesOf(c.ac));
  }

  lemma {:induction false} AgreeOnDc(t: Table, h: HuffSpec)
    requires Usable(h) && CoversDc(h) && Assigns(t, SizesOf(h.bits), h.vals)
    ensures AgreeDc(t, CodesOf(h)) && KnowsDc(t)
  {
    forall v | 0 <= v <= 11
      ensures Agree(t, CodesOf(h), v)
    {
      AgreeOnValues(t, CodesOf(h), v);
    }
    assert forall v {:trigger Known(t, v)} :: 0 <= v <= 11 ==> Agree(t, CodesOf(h), v);
  }

  lemma {:induction false} AgreeOnAc(t: Table, h: HuffSpec)
    requires Usable(h) && CoversAc(h) && Assigns(t, SizesOf(h.bits), h.vals)
    ensures AgreeAc(t, CodesOf(h)) && KnowsAc(t)
  {
    forall v | AcSymbol(v)
      ensures Agree(t, CodesOf(h), v)
    {
      AgreeOnValues(t, CodesOf(h), v);
    }
    assert forall v {:trigger Known(t, v)} :: AcSymbol(v) ==> Agree(t, CodesOf(h), v);
  }

  /** Both sides of a component. */
  method BothSides(c: Setup) returns (tab: Tables, r: Component)
    requires Usables(c)
    ensures Ready(r) && Paired(tab, r) && KnowsBoth(tab) && r.dequant == c.dequant
  {
    var dc := EncoderTable(c.dc);
    var ac := EncoderTable(c.ac);
    tab := Tables(dc, ac);
    r := DecoderSide(c);
    AgreeOnDc(dc, c.dc);
    AgreeOnAc(ac, c.ac);
  }

  // ---------- the pieces of a scan ----------

  lemma {:induction false} NarrowAc(t: Table, du: seq<int>, i: nat, zeros: nat, last: nat, rest: Pieces)
    requires last < |du| && Narrow(rest)
    ensures Narrow(AcPieces(t, du, i, zeros, last, rest))
    decreases |du| - i
  {
    if i <= last {
      NarrowAc(t, du, i + 1, if du[i] == 0 && zeros != 15 then zeros + 1 else 0, last, rest);
    }
  }

  lemma {:induction false} NarrowUnit(dc: Table, ac: Table, du: seq<int>, pred: int, rest: Pieces)
    requires |du| == 64 && Narrow(rest)
    ensures Narrow(UnitPieces(dc, ac, du, pred, rest))
  {
    NarrowAc(ac, du, 1, 0, LastNonZero(du, 63), rest);
  }

  lemma {:induction false} NarrowScan(tabs: seq<Tables>, units: seq<Unit>, i: nat)
    requires |tabs| == 3
    ensures Narrow(ScanPieces(tabs, units, i))
    decreases |units| - i
  {
    if i < |units| {
      NarrowScan(tabs, units, i + 1);
      NarrowUnit(tabs[i % 3].dc, tabs[i % 3].ac, units[i], Pred(units, i), ScanPieces(tabs, units, i + 1));
    }
  }

  /** The bits of the written segment are the pieces of the scan. */
  lemma {:induction false} Written(received: seq<Byte>, header: seq<Byte>, bytes: seq<Byte>, pad: nat, pieces: Pieces)
    requires received == header + Stuff(bytes) + [0xFF, 0xD9]
    requires BitsOf(bytes) == Flat(pieces) + FromVal(0, pad) && Narrow(pieces)
    ensures |header| <= |received| && Stands(BitsOf(DataBytes(received[|header|..])), 0, pieces)
  {
    assert received[|header|..] == Stuff(bytes) + [0xFF, 0xD9] + [];
    Unstuff(bytes, []);
    FlatStands(BitsOf(bytes), 0, pieces, FromVal(0, pad));
  }

  // ---------- the pipeline ----------

  /** Units that the encoder can express and whose dequantised DC coefficients the decoder accepts. */
  ghost predicate Expressible(setups: seq<Setup>, units: seq<Unit>) {
    && |setups| == 3 && Usables(setups[0]) && Usables(setups[1]) && Usables(setups[2])
    && Scannable(units)
    && forall i :: 0 <= i < |units| ==> InRange(units, i, setups[i % 3].dequant)
  }

  /** Encodes the units after a header and decodes what the callback received from there on. */
  method EncodeDecode(header: seq<Byte>, setups: seq<Setup>, units: seq<Unit>) returns (ok: bool, blocks: seq<seq<int>>)
    requires Expressible(setups, units)
    ensures ok && |blocks| == |units|
    ensures forall i :: 0 <= i < |units| ==> Decoded(units[i], setups[i % 3].dequant, blocks[i])
  {
    var tabs, comps := AllSides(setups);
    var received := Encode(header, tabs, units);
    AllFitting(setups, comps, tabs, units);
    ok, blocks := Decode(received, |header|, comps, |units|, tabs, units);
    SameQuantisers(setups, comps, units, blocks);
  }

  /** Both sides of the three components. */
  method AllSides(setups: seq<Setup>) returns (tabs: seq<Tables>, comps: seq<Component>)
    requires |setups| == 3 && Usables(setups[0]) && Usables(setups[1]) && Usables(setups[2])
    ensures |comps| == 3 && KnowsAll(tabs)
    ensures forall b :: 0 <= b < 3 ==> Ready(comps[b]) && Paired(tabs[b], comps[b])
    ensures forall b :: 0 <= b < 3 ==> comps[b].dequant == setups[b].dequant
  {
    var tab0, comp0 := BothSides(setups[0]);
    var tab1, comp1 := BothSides(setups[1]);
    var tab2, comp2 := BothSides(setups[2]);
    tabs, comps := [tab0, tab1, tab2], [comp0, comp1, comp2];
  }

  lemma {:induction false} AllFitting(setups: seq<Setup>, comps: seq<Component>, tabs: seq<Tables>, units: seq<Unit>)
    requires Expressible(setups, units) && |comps| == |tabs| == 3
    requires forall b :: 0 <= b < 3 ==> Ready(comps[b]) && Paired(tabs[b], comps[b])
    requires forall b :: 0 <= b < 3 ==> comps[b].dequant == setups[b].dequant
    ensures Fitting(comps, tabs, units)
  {
  }

  lemma {:induction false} SameQuantisers(setups: seq<Setup>, comps: seq<Component>, units: seq<Unit>, blocks: seq<seq<int>>)
    requires |setups| == |comps| == 3 && |blocks| == |units| && AllDecoded(comps, units, blocks)
    requires forall b :: 0 <= b < 3 ==> comps[b].dequant == setups[b].dequant
    ensures forall i :: 0 <= i < |units| ==> Decoded(units[i], setups[i % 3].dequant, blocks[i])
  {
    forall i | 0 <= i < |units|
      ensures Decoded(units[i], setups[i % 3].dequant, blocks[i])
    {
      assert DecodedUnit(comps, units, blocks, i);
    }
  }

  method Encode(header: seq<Byte>, tabs: seq<Tables>, units: seq<Unit>) returns (received: seq<Byte>)
    requires Scannable(units) && KnowsAll(tabs)
    ensures |header| <= |received|
    ensures Stands(BitsOf(DataBytes(received[|header|..])), 0, ScanPieces(tabs, units, 0))
  {
    var w := new Writer();
    w.Write(header);
    assert w.Emitted() == header;
    ghost var bytes, pad := EncodeScan(w, tabs, units);
    received := w.received;
    NarrowScan(tabs, units, 0);
    Written(received, header, bytes, pad, ScanPieces(tabs, units, 0));
  }

  method Decode(input: seq<Byte>, pos: nat, comps: seq<Component>, count: nat, ghost tabs: seq<Tables>,
                ghost units: seq<Unit>) returns (ok: bool, blocks: seq<seq<int>>)
    requires Fitting(comps, tabs, units) && count == |units| && pos <= |input|
    requires Stands(BitsOf(DataBytes(input[pos..])), 0, ScanPieces(tabs, units, 0))
    ensures ok && |blocks| == |units| && AllDecoded(comps, units, blocks)
  {
    var j := new StbJpeg.Jpeg(input, pos);
    ok, blocks := DecodeScan(j, comps, count, tabs, units);
  }

  // ---------- the quantiser of highest quality ----------

  ghost predicate Ones(dequant: seq<nat>) {
    |dequant| == 64 && forall i :: 0 <= i < 64 ==> dequant[i] == 1
  }

  /** Without quantisation the block is the one that was put into scan order. */
  lemma {:induction false} OnesRestore(vals: seq<int>, du: seq<int>, dequant: seq<nat>, block: seq<int>)
    requires Scanned(vals, du) && Decoded(du, dequant, block) && Ones(dequant) && DataUnit(du) && Fits16(du[0])
    ensures block == vals
  {
    forall i | 0 <= i < 64
      ensures block[i] == vals[i]
    {
      ZigZag.Inverses();
      assert DecodedAt(du, dequant, block, ZigZag.Scan(i));
    }
  }

  /** DC coefficients are 16 bits wide, their differences at most 11, the other coefficients at most 10. */
  ghost predicate Encodable(vals: seq<Unit>) {
    |vals| % 3 == 0 && forall i :: 0 <= i < |vals| ==> EncodableAt(vals, i)
  }

  ghost predicate EncodableAt(vals: seq<Unit>, i: nat)
    requires i < |vals|
  {
    && Fits16(vals[i][0]) && Abs(vals[i][0] - Pred(vals, i)) < 2048
    && forall k :: 1 <= k < 64 ==> Abs(vals[i][k]) < 1024
  }

  ghost predicate AllScanned(vals: seq<Unit>, units: seq<Unit>) {
    |vals| == |units| && forall i :: 0 <= i < |vals| ==> Scanned(vals[i], units[i])
  }

  method ScanAll(vals: seq<Unit>) returns (units: seq<Unit>)
    ensures AllScanned(vals, units)
  {
    units := [];
    for i := 0 to |vals|
      invariant AllScanned(vals[..i], units)
    {
      var du := ToScanOrder(vals[i]);
      units := units + [du];
    }
    assert vals[..|vals|] == vals;
  }

  /** Scan order keeps the first coefficient first and the ranges of the others. */
  lemma {:induction false} ScannedUnit(vals: Unit, du: Unit)
    requires Scanned(vals, du) && forall k :: 1 <= k < 64 ==> Abs(vals[k]) < 1024
    ensures du[0] == vals[0] && DataUnit(du)
  {
    ZigZag.Inverses();
    assert ZigZag.Scan(0) == 0;
    forall k | 1 <= k < 64
      ensures Abs(du[k]) < 1024
    {
      assert ZigZag.Scan(ZigZag.Unscan(k)) == k;
    }
  }

  lemma {:induction false} EncodableScannable(vals: seq<Unit>, units: seq<Unit>, i: nat)
    requires Encodable(vals) && AllScanned(vals, units) && i < |units|
    ensures ScannableAt(units, i) && Fits16(units[i][0])
  {
    assert EncodableAt(vals, i);
    ScannedUnit(vals[i], units[i]);
    if i >= 3 {
      assert EncodableAt(vals, i - 3);
      ScannedUnit(vals[i - 3], units[i - 3]);
    }
  }

  lemma {:induction false} InRangeOnes(units: seq<Unit>, i: nat, dequant: seq<nat>)
    requires i < |units| && Fits16(units[i][0]) && Ones(dequant)
    ensures InRange(units, i, dequant)
  {
  }

  lemma {:induction false} EncodableExpressible(setups: seq<Setup>, vals: seq<Unit>, units: seq<Unit>)
    requires |setups| == 3 && Usables(setups[0]) && Usables(setups[1]) && Usables(setups[2])
    requires forall b :: 0 <= b < 3 ==> Ones(setups[b].dequant)
    requires Encodable(vals) && AllScanned(vals, units)
    ensures Expressible(setups, units)
  {
    forall i | 0 <= i < |units|
      ensures ScannableAt(units, i)
    {
      EncodableScannable(vals, units, i);
    }
    forall i | 0 <= i < |units|
      ensures InRange(units, i, setups[i % 3].dequant)
    {
      EncodableScannable(vals, units, i);
      InRangeOnes(units, i, setups[i % 3].dequant);
    }
  }

  /** Row-major blocks in, the same row-major blocks out. */
  method Restore(header: seq<Byte>, setups: seq<Setup>, vals: seq<Unit>) returns (ok: bool, blocks: seq<seq<int>>)
    requires |setups| == 3 && Usables(setups[0]) && Usables(setups[1]) && Usables(setups[2])
    requires forall b :: 0 <= b < 3 ==> Ones(setups[b].dequant)
    requires Encodable(vals)
    ensures ok && blocks == vals
  {
    var units := ScanAll(vals);
    EncodableExpressible(setups, vals, units);
    ok, blocks := EncodeDecode(header, setups, units);
    forall i | 0 <= i < |vals|
      ensures blocks[i] == vals[i]
    {
      EncodableScannable(vals, units, i);
      OnesRestore(vals[i], units[i], setups[i % 3].dequant, blocks[i]);
    }
  }
}
