/**
 A table that stb_image.h builds but cannot read in full: 128 words of eight bits and 128 of nine.  Word 255 is
 short enough for the acceleration table, where its index is the mark of an entry that is not served.
 */
module MaskedTable {
  import opened Bits
  import opened Canonical
  import opened JpegSpec
  import opened DefaultTables
  import StbJpeg

  const COUNTS: seq<nat> := [0, 0, 0, 0] + [0, 0, 0, 128] + [128, 0, 0, 0] + [0, 0, 0, 0]

  /** What matters about the lengths of its words. */
  ghost predicate Halves(s: seq<nat>) {
    |s| == 256 && Fits(s) && s[255] == 9 && Left(s, 256) == 0xC000
  }

  lemma {:induction false} HalvesOf(counts: seq<nat>)
    requires |counts| == 16 && Total(counts, 8) == 128 && Total(counts, 9) == Total(counts, 16) == 256
    requires Room(counts, 16) == 0xC000
    ensures Halves(SizesOf(counts))
  {
    var s := SizesOf(counts);
    RoomIsLeft(counts, 8);
    RoomIsLeft(counts, 9);
    RoomIsLeft(counts, 16);
    assert counts[..16] == counts;
    SizesOfOrdered(counts);
    SizesOfPrefix(counts, 8);
    SizesOfPrefix(counts, 9);
    SizesOfOrdered(counts[..9]);
    assert s[..256][255] == SizesOf(counts[..9])[255];
  }

  lemma {:induction false} CountsAre()
    ensures |COUNTS| == 16 && Total(COUNTS, 8) == 128 && Total(COUNTS, 9) == Total(COUNTS, 16) == 256
    ensures Room(COUNTS, 16) == 0xC000
  {
    RoomOfCounts(COUNTS);
    TotalStep(COUNTS, 9);
    TotalStep(COUNTS, 10);
    TotalStep(COUNTS, 11);
    TotalStep(COUNTS, 12);
    TotalStep(COUNTS, 13);
    TotalStep(COUNTS, 14);
    TotalStep(COUNTS, 15);
    TotalStep(COUNTS, 16);
  }

  lemma {:induction false} TotalStep(c: seq<nat>, j: nat)
    requires 1 <= j <= |c|
    ensures Total(c, j) == Total(c, j - 1) + c[j - 1]
  {
  }

  /** The builder accepts the table, and sixteen bits that start with word 255 are masked. */
  lemma {:induction false} HalvesMasked(s: seq<nat>)
    requires Halves(s)
    ensures !StbJpeg.Accelerable(s) && StbJpeg.Masked(s, 0xBF80)
  {
    OrderedAt(s, 255);
    Pow2Values();
    assert Left(s, 255) == 0xBF80;
    FindIs(s, 256, 0xBF80, 255);
  }

  // ---------- a segment that is misread ----------

  const SEGMENT: seq<Byte> := [0xBF, 0x80]

  lemma {:induction false} SegmentBits(input: seq<Byte>)
    requires input == SEGMENT
    ensures var d := BitsOf(DataBytes(input)); |d| == 16 && Peek(d, 0, 16) == 0xBF80
  {
    assert DataBytes(input[1..][1..]) == [];
    assert DataBytes(input[1..]) == [0x80];
    assert DataBytes(input) == [0xBF] + [0x80];
    BitsOfConcat([0xBF], [0x80]);
    var a, b := BitsOf([0xBF]), BitsOf([0x80]);
    OneByte(0xBF);
    OneByte(0x80);
    ValConcat(a, b);
    ShlIsMul(0xBF, 8);
    Pow2Values();
    assert (a + b)[0..16] == a + b;
    PeekIsVal(a + b, 0, a + b);
  }

  lemma {:induction false} OneByte(v: Byte)
    ensures |BitsOf([v])| == 8 && Val(BitsOf([v])) == v
  {
    assert [v][1..] == [];
    assert BitsOf([v]) == FromVal(v, 8) + [] == FromVal(v, 8);
    ValOfFromVal(v, 8);
    Pow2Values();
  }

  lemma {:induction false} SegmentSymbol(s: seq<nat>, values: seq<Byte>, d: BitString)
    requires Halves(s) && |values| == 256 && |d| == 16 && Peek(d, 0, 16) == 0xBF80
    ensures ReadSymbol(Codes(s, values), d, 0) == Got(values[255], 9)
  {
    OrderedAt(s, 255);
    Pow2Values();
    FindIs(s, 256, 0xBF80, 255);
  }

  /** The table is built, its word 255 stands at the start of the segment, and something else is read. */
  method Misread(values: seq<Byte>) returns (built: bool, r: int, ghost p: nat)
    requires |values| == 256
    ensures built && !(r == values[255] as int && p == 9)
    ensures Halves(SizesOf(COUNTS))
    ensures ReadSymbol(Codes(SizesOf(COUNTS), values), BitsOf(DataBytes(SEGMENT)), 0) == Got(values[255], 9)
  {
    ghost var s := SizesOf(COUNTS);
    CountsAre();
    HalvesOf(COUNTS);
    HalvesMasked(s);
    SegmentBits(SEGMENT);
    SegmentSymbol(s, values, BitsOf(DataBytes(SEGMENT)));
    var table := new StbJpeg.Huffman();
    built := table.BuildHuffman(COUNTS);
    var h := table.Finish(values, s);
    assert values[..256] == values;
    var j := new StbJpeg.Jpeg(SEGMENT, 0);
    r := j.HuffDecode(h, Codes(s, values));
    p := j.p;
  }
}
