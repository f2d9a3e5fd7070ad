/**
 The tables tiny_jpeg.h writes into every file (T.81 tables K.3 to K.6): they are complete enough for
 every coefficient and leave room for every word, so files of highest quality restore their blocks.
 */
module DefaultTables {
  import opened Bits
  import opened Canonical
  import opened TinyJpeg
  import opened JpegCodec

  const LUMA_DC_COUNTS: seq<nat> := [0, 1, 5, 1] + [1, 1, 1, 1] + [1, 0, 0, 0] + [0, 0, 0, 0]
  const LUMA_DC_VALUES: seq<Byte> := [
    0, 1, 2, 3, 4, 5, 6, 7, 8, 9, 10, 11
  ]

  const CHROMA_DC_COUNTS: seq<nat> := [0, 3, 1, 1] + [1, 1, 1, 1] + [1, 1, 1, 0] + [0, 0, 0, 0]
  const CHROMA_DC_VALUES: seq<Byte> := [
    0, 1, 2, 3, 4, 5, 6, 7, 8, 9, 10, 11
  ]

  const LUMA_AC_COUNTS: seq<nat> := [0, 2, 1, 3] + [3, 2, 4, 3] + [5, 5, 4, 4] + [0, 0, 1, 125]
  const LUMA_AC_VALUES: seq<Byte> := [
    0x01, 0x02, 0x03, 0x00, 0x04, 0x11, 0x05, 0x12, 0x21, 0x31, 0x41, 0x06, 0x13, 0x51, 0x61, 0x07] + [
    0x22, 0x71, 0x14, 0x32, 0x81, 0x91, 0xA1, 0x08, 0x23, 0x42, 0xB1, 0xC1, 0x15, 0x52, 0xD1, 0xF0] + [
    0x24, 0x33, 0x62, 0x72, 0x82, 0x09, 0x0A, 0x16, 0x17, 0x18, 0x19, 0x1A, 0x25, 0x26, 0x27, 0x28] + [
    0x29, 0x2A, 0x34, 0x35, 0x36, 0x37, 0x38, 0x39, 0x3A, 0x43, 0x44, 0x45, 0x46, 0x47, 0x48, 0x49] + [
    0x4A, 0x53, 0x54, 0x55, 0x56, 0x57, 0x58, 0x59, 0x5A, 0x63, 0x64, 0x65, 0x66, 0x67, 0x68, 0x69] + [
    0x6A, 0x73, 0x74, 0x75, 0x76, 0x77, 0x78, 0x79, 0x7A, 0x83, 0x84, 0x85, 0x86, 0x87, 0x88, 0x89] + [
    0x8A, 0x92, 0x93, 0x94, 0x95, 0x96, 0x97, 0x98, 0x99, 0x9A, 0xA2, 0xA3, 0xA4, 0xA5, 0xA6, 0xA7] + [
    0xA8, 0xA9, 0xAA, 0xB2, 0xB3, 0xB4, 0xB5, 0xB6, 0xB7, 0xB8, 0xB9, 0xBA, 0xC2, 0xC3, 0xC4, 0xC5] + [
    0xC6, 0xC7, 0xC8, 0xC9, 0xCA, 0xD2, 0xD3, 0xD4, 0xD5, 0xD6, 0xD7, 0xD8, 0xD9, 0xDA, 0xE1, 0xE2] + [
    0xE3, 0xE4, 0xE5, 0xE6, 0xE7, 0xE8, 0xE9, 0xEA, 0xF1, 0xF2, 0xF3, 0xF4, 0xF5, 0xF6, 0xF7, 0xF8] + [
    0xF9, 0xFA
  ]

  const CHROMA_AC_COUNTS: seq<nat> := [0, 2, 1, 2] + [4, 4, 3, 4] + [7, 5, 4, 4] + [0, 1, 2, 119]
  const CHROMA_AC_VALUES: seq<Byte> := [
    0x00, 0x01, 0x02, 0x03, 0x11, 0x04, 0x05, 0x21, 0x31, 0x06, 0x12, 0x41, 0x51, 0x07, 0x61, 0x71] + [
    0x13, 0x22, 0x32, 0x81, 0x08, 0x14, 0x42, 0x91, 0xA1, 0xB1, 0xC1, 0x09, 0x23, 0x33, 0x52, 0xF0] + [
    0x15, 0x62, 0x72, 0xD1, 0x0A, 0x16, 0x24, 0x34, 0xE1, 0x25, 0xF1, 0x17, 0x18, 0x19, 0x1A, 0x26] + [
    0x27, 0x28, 0x29, 0x2A, 0x35, 0x36, 0x37, 0x38, 0x39, 0x3A, 0x43, 0x44, 0x45, 0x46, 0x47, 0x48] + [
    0x49, 0x4A, 0x53, 0x54, 0x55, 0x56, 0x57, 0x58, 0x59, 0x5A, 0x63, 0x64, 0x65, 0x66, 0x67, 0x68] + [
    0x69, 0x6A, 0x73, 0x74, 0x75, 0x76, 0x77, 0x78, 0x79, 0x7A, 0x82, 0x83, 0x84, 0x85, 0x86, 0x87] + [
    0x88, 0x89, 0x8A, 0x92, 0x93, 0x94, 0x95, 0x96, 0x97, 0x98, 0x99, 0x9A, 0xA2, 0xA3, 0xA4, 0xA5] + [
    0xA6, 0xA7, 0xA8, 0xA9, 0xAA, 0xB2, 0xB3, 0xB4, 0xB5, 0xB6, 0xB7, 0xB8, 0xB9, 0xBA, 0xC2, 0xC3] + [
    0xC4, 0xC5, 0xC6, 0xC7, 0xC8, 0xC9, 0xCA, 0xD2, 0xD3, 0xD4, 0xD5, 0xD6, 0xD7, 0xD8, 0xD9, 0xDA] + [
    0xE2, 0xE3, 0xE4, 0xE5, 0xE6, 0xE7, 0xE8, 0xE9, 0xEA, 0xF2, 0xF3, 0xF4, 0xF5, 0xF6, 0xF7, 0xF8] + [
    0xF9, 0xFA
  ]

  // ---------- room for the words ----------

  /** How many words have one of the first j lengths. */
  function Total(counts: seq<nat>, j: nat): nat
    requires j <= |counts|
  {
    if j == 0 then 0 else Total(counts, j - 1) + counts[j - 1]
  }

  /** How many 16-bit numbers those words head. */
  function Room(counts: seq<nat>, j: nat): nat
    requires j <= |counts|
  {
    if j == 0 then 0 else Room(counts, j - 1) + counts[j - 1] * Span(j)
  }

  lemma {:induction false} OneMore(n: nat, x: nat)
    requires n > 0
    ensures (n - 1) * x + x == n * x
  {
  }

  lemma {:induction false} LeftOfRepeat(s: seq<nat>, v: nat, n: nat)
    ensures Left(s + Repeat(v, n), |s| + n) == Left(s, |s|) + n * Span(v)
  {
    if n == 0 {
      assert s + Repeat(v, n) == s;
    } else {
      var t := s + Repeat(v, n - 1);
      LeftOfRepeat(s, v, n - 1);
      OneMore(n, Span(v));
      assert s + Repeat(v, n) == t + [v];
      LeftOfOne(t, v);
    }
  }

  lemma {:induction false} LeftOfOne(s: seq<nat>, v: nat)
    ensures Left(s + [v], |s| + 1) == Left(s, |s|) + Span(v)
  {
    LeftOfPrefix(s, [v], |s|);
  }

  lemma {:induction false} LeftOfPrefix(s: seq<nat>, t: seq<nat>, k: nat)
    requires k <= |s|
    ensures Left(s + t, k) == Left(s, k)
  {
    if k > 0 {
      LeftOfPrefix(s, t, k - 1);
    }
  }

  /** The counts alone tell how many words there are and whether they fit. */
  lemma {:induction false} RoomIsLeft(counts: seq<nat>, j: nat)
    requires j <= |counts|
    ensures |SizesOf(counts[..j])| == Total(counts, j)
    ensures Left(SizesOf(counts[..j]), |SizesOf(counts[..j])|) == Room(counts, j)
  {
    if j > 0 {
      RoomIsLeft(counts, j - 1);
      assert counts[..j][..j - 1] == counts[..j - 1];
      LeftOfRepeat(SizesOf(counts[..j - 1]), j, counts[j - 1]);
    }
  }

  /** Counts that stay within the room make a usable table. */
  lemma {:induction false} UsableIfRoom(h: HuffSpec)
    requires |h.bits| == 16 && Room(h.bits, 16) <= 0x1_0000 && 1 <= Total(h.bits, 16) == |h.vals| <= 255
    ensures Usable(h)
  {
    RoomIsLeft(h.bits, 16);
    assert h.bits[..16] == h.bits;
    SizesOfOrdered(h.bits);
  }

  lemma {:induction false} Distribute(a: nat, b: nat, c: nat, d: nat, w: nat)
    ensures a * (8 * w) + b * (4 * w) + c * (2 * w) + d * w == w * (8 * a + 4 * b + 2 * c + d)
  {
  }

  /** Four lengths more; w is what a word of the last of them takes. */
  lemma {:induction false} RoomStep(c: seq<nat>, j: nat, w: nat)
    requires j + 4 <= |c|
    requires Span(j + 1) == 8 * w && Span(j + 2) == 4 * w && Span(j + 3) == 2 * w && Span(j + 4) == w
    ensures Room(c, j + 4) == Room(c, j) + w * (8 * c[j] + 4 * c[j + 1] + 2 * c[j + 2] + c[j + 3])
    ensures Total(c, j + 4) == Total(c, j) + c[j] + c[j + 1] + c[j + 2] + c[j + 3]
  {
    Distribute(c[j], c[j + 1], c[j + 2], c[j + 3], w);
    assert Room(c, j + 2) == Room(c, j) + c[j] * Span(j + 1) + c[j + 1] * Span(j + 2);
    assert Total(c, j + 2) == Total(c, j) + c[j] + c[j + 1];
  }

  lemma {:induction false} RoomOfCounts(c: seq<nat>)
    requires |c| == 16
    ensures Room(c, 16) == 0x1000 * (8 * c[0] + 4 * c[1] + 2 * c[2] + c[3])
                           + 0x100 * (8 * c[4] + 4 * c[5] + 2 * c[6] + c[7])
                           + 0x10 * (8 * c[8] + 4 * c[9] + 2 * c[10] + c[11])
                           + (8 * c[12] + 4 * c[13] + 2 * c[14] + c[15])
    ensures Total(c, 16) == c[0] + c[1] + c[2] + c[3] + c[4] + c[5] + c[6] + c[7]
                            + c[8] + c[9] + c[10] + c[11] + c[12] + c[13] + c[14] + c[15]
  {
    Spans();
    RoomStep(c, 0, 0x1000);
    RoomStep(c, 4, 0x100);
    RoomStep(c, 8, 0x10);
    RoomStep(c, 12, 1);
  }

  lemma {:induction false} Spans()
    ensures Span(1) == 0x8000 && Span(2) == 0x4000 && Span(3) == 0x2000 && Span(4) == 0x1000
    ensures Span(5) == 0x800 && Span(6) == 0x400 && Span(7) == 0x200 && Span(8) == 0x100
    ensures Span(9) == 0x80 && Span(10) == 0x40 && Span(11) == 0x20 && Span(12) == 0x10
    ensures Span(13) == 8 && Span(14) == 4 && Span(15) == 2 && Span(16) == 1
  {
    Pow2Values();
  }

  // ---------- the tables ----------

  const LUMA_DC := HuffSpec(LUMA_DC_COUNTS, LUMA_DC_VALUES)
  const CHROMA_DC := HuffSpec(CHROMA_DC_COUNTS, CHROMA_DC_VALUES)
  const LUMA_AC := HuffSpec(LUMA_AC_COUNTS, LUMA_AC_VALUES)
  const CHROMA_AC := HuffSpec(CHROMA_AC_COUNTS, CHROMA_AC_VALUES)

  lemma {:induction false} LumaDcUsable()
    ensures Usable(LUMA_DC)
  {
    RoomOfCounts(LUMA_DC_COUNTS);
    UsableIfRoom(LUMA_DC);
  }

  lemma {:induction false} LumaAcUsable()
    ensures Usable(LUMA_AC)
  {
    RoomOfCounts(LUMA_AC_COUNTS);
    UsableIfRoom(LUMA_AC);
  }

  lemma {:induction false} LumaDcCovers()
    ensures CoversDc(LUMA_DC)
  {
    forall v: Byte | v <= 11
      ensures v in LUMA_DC_VALUES
    {
      assert LUMA_DC_VALUES[v] == v;
    }
  }

  lemma {:induction false} LumaAcCovers()
    ensures CoversAc(LUMA_AC)
  {
    forall v: Byte | AcSymbol(v)
      ensures v in LUMA_AC_VALUES
    {
      LumaAcLow(v);
      LumaAcHigh(v);
    }
  }

  lemma {:induction false} LumaAcLow(v: Byte)
    ensures AcSymbol(v) && v < 0x80 ==> v in LUMA_AC_VALUES
  {
  }

  lemma {:induction false} LumaAcHigh(v: Byte)
    ensures AcSymbol(v) && v >= 0x80 ==> v in LUMA_AC_VALUES
  {
  }

  lemma {:induction false} ChromaDcUsable()
    ensures Usable(CHROMA_DC)
  {
    RoomOfCounts(CHROMA_DC_COUNTS);
    UsableIfRoom(CHROMA_DC);
  }

  lemma {:induction false} ChromaAcUsable()
    ensures Usable(CHROMA_AC)
  {
    RoomOfCounts(CHROMA_AC_COUNTS);
    UsableIfRoom(CHROMA_AC);
  }

  lemma {:induction false} ChromaDcCovers()
    ensures CoversDc(CHROMA_DC)
  {
    forall v: Byte | v <= 11
      ensures v in CHROMA_DC_VALUES
    {
      assert CHROMA_DC_VALUES[v] == v;
    }
  }

  lemma {:induction false} ChromaAcCovers()
    ensures CoversAc(CHROMA_AC)
  {
    forall v: Byte | AcSymbol(v)
      ensures v in CHROMA_AC_VALUES
    {
      ChromaAcLow(v);
      ChromaAcHigh(v);
    }
  }

  lemma {:induction false} ChromaAcLow(v: Byte)
    ensures AcSymbol(v) && v < 0x80 ==> v in CHROMA_AC_VALUES
  {
  }

  lemma {:induction false} ChromaAcHigh(v: Byte)
    ensures AcSymbol(v) && v >= 0x80 ==> v in CHROMA_AC_VALUES
  {
  }

  // ---------- files of highest quality ----------

  function OnesQuantiser(): (q: seq<nat>)
    ensures Ones(q)
  {
    seq(64, _ => 1)
  }

  function Luma(): Setup {
    Setup(LUMA_DC, LUMA_AC, OnesQuantiser())
  }

  function Chroma(): Setup {
    Setup(CHROMA_DC, CHROMA_AC, OnesQuantiser())
  }

  lemma {:induction false} LumaUsable()
    ensures Usables(Luma()) && Ones(Luma().dequant)
  {
    LumaDcUsable();
    LumaAcUsable();
    LumaDcCovers();
    LumaAcCovers();
  }

  lemma {:induction false} ChromaUsable()
    ensures Usables(Chroma()) && Ones(Chroma().dequant)
  {
    ChromaDcUsable();
    ChromaAcUsable();
    ChromaDcCovers();
    ChromaAcCovers();
  }

  /** Luma first, then both chroma components. */
  function Three(luma: Setup, chroma: Setup): seq<Setup> {
    [luma, chroma, chroma]
  }

  lemma {:induction false} ThreeUsable(luma: Setup, chroma: Setup)
    requires Usables(luma) && Usables(chroma) && Ones(luma.dequant) && Ones(chroma.dequant)
    ensures var s := Three(luma, chroma);
            && Usables(s[0]) && Usables(s[1]) && Usables(s[2])
            && forall b :: 0 <= b < 3 ==> Ones(s[b].dequant)
  {
  }

  /**
   Row-major blocks of coefficients, written in scan order with the default tables and read back with the
   tables of the file, are restored.
   */
  method RestoreBlocks(header: seq<Byte>, vals: seq<Unit>) returns (ok: bool, blocks: seq<seq<int>>)
    requires Encodable(vals)
    ensures ok && blocks == vals
  {
    LumaUsable();
    ChromaUsable();
    ThreeUsable(Luma(), Chroma());
    ok, blocks := Restore(header, Three(Luma(), Chroma()), vals);
  }
}
