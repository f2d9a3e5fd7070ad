/**
 How T.81 sections F.1.2.1 and F.1.2.2 code a data unit, stated by what is coded rather than by how the encoder
 goes about it; tiny_jpeg.h codes every data unit so.
 */
module JpegStandard {
  import opened Bits
  import opened TinyJpeg

  /** A Huffman coded symbol and the additional bits after it. */
  datatype Coded = Coded(symbol: nat, size: nat, extra: nat)

  /** Tables F.1 and F.2. */
  function Category(v: int): nat {
    var a := if v < 0 then -v else v;
    if a == 0 then 0 else if a <= 1 then 1 else if a <= 3 then 2 else if a <= 7 then 3 else if a <= 15 then 4
    else if a <= 31 then 5 else if a <= 63 then 6 else if a <= 127 then 7 else if a <= 255 then 8
    else if a <= 511 then 9 else if a <= 1023 then 10 else 11
  }

  /** The additional bits: the number itself, or counted from the least of its category if it is negative. */
  function Extra(v: int): (b: nat)
    requires -2048 < v < 2048
  {
    CategoryIs(v);
    if v < 0 then v + Pow2(Category(v)) - 1 else v
  }

  /** The difference of a DC coefficient from its prediction. */
  function DcCode(diff: int): Coded
    requires -2048 < diff < 2048
  {
    Coded(Category(diff), Category(diff), Extra(diff))
  }

  /** The first nonzero coefficient from i on, 64 if there is none. */
  function Next(du: seq<int>, i: nat): (k: nat)
    requires |du| == 64 && i <= 64
    ensures i <= k <= 64 && (k < 64 ==> du[k] != 0) && forall j :: i <= j < k ==> du[j] == 0
    decreases 64 - i
  {
    if i == 64 || du[i] != 0 then i else Next(du, i + 1)
  }

  /** n times the symbol for sixteen zeros. */
  function Sixteens(n: nat): seq<Coded> {
    if n == 0 then [] else Sixteens(n - 1) + [Coded(0xF0, 0, 0)]
  }

  /** The coefficient at k after the one at j: zeros since the last sixteen, and category, in one symbol. */
  function CodeOf(du: seq<int>, j: nat, k: nat): Coded
    requires DataUnit(du) && j < k < 64
  {
    assert Abs(du[k]) < 1024;
    Coded(16 * ((k - j - 1) % 16) + Category(du[k]), Category(du[k]), Extra(du[k]))
  }

  /**
   The AC coefficients behind the nonzero one at j, or behind the DC coefficient: the zeros up to the next nonzero
   one, sixteen by sixteen, what is left of them together with its category, its additional bits, and so on; after
   the last one the end of the block, unless it has the last place.
   */
  function AcCodes(du: seq<int>, j: nat): seq<Coded>
    requires DataUnit(du) && j < 64
    decreases 64 - j
  {
    var k := Next(du, j + 1);
    if k == 64 then (if j == 63 then [] else [Coded(0x00, 0, 0)])
    else
      Sixteens((k - j - 1) / 16) + [CodeOf(du, j, k)] + AcCodes(du, k)
  }

  /** The bits of the codes with a table, then the rest. */
  ghost function Text(t: Table, codes: seq<Coded>, rest: Pieces): Pieces {
    if codes == [] then rest else OneText(t, codes[0], Text(t, codes[1..], rest))
  }

  ghost function OneText(t: Table, c: Coded, rest: Pieces): Pieces {
    Symbol(t, c.symbol, if c.size == 0 then rest else Piece(c.extra, c.size, rest))
  }

  ghost function UnitText(dc: Table, ac: Table, du: seq<int>, pred: int, rest: Pieces): Pieces
    requires DataUnit(du) && -2048 < du[0] - pred < 2048
  {
    Text(dc, [DcCode(du[0] - pred)], Text(ac, AcCodes(du, 0), rest))
  }

  /** A data unit is coded as the standard says. */
  lemma {:induction false} UnitIsStandard(dc: Table, ac: Table, du: seq<int>, pred: int, rest: Pieces)
    requires DataUnit(du) && -2048 < du[0] - pred < 2048
    ensures UnitPieces(dc, ac, du, pred, rest) == UnitText(dc, ac, du, pred, rest)
  {
    var diff, after := du[0] - pred, Text(ac, AcCodes(du, 0), rest);
    AcIsStandard(ac, du, 0, LastNonZero(du, 63), rest);
    DcIsStandard(dc, diff, after);
  }

  lemma {:induction false} DcIsStandard(t: Table, diff: int, rest: Pieces)
    requires -2048 < diff < 2048
    ensures DcPieces(t, diff, rest) == Text(t, [DcCode(diff)], rest)
  {
    CategoryIs(diff);
    OneMoreText(t, [], DcCode(diff), rest);
    assert [] + [DcCode(diff)] == [DcCode(diff)];
  }

  /** The text of the units from i on; the first three predictions are 0, the others three units back. */
  ghost function ScanText(tabs: seq<Tables>, units: seq<Unit>, i: nat): Pieces
    requires |tabs| == 3 && Scannable(units)
    decreases |units| - i
  {
    if i >= |units| then End
    else
      assert ScannableAt(units, i);
      var prediction := if i < 3 then 0 else units[i - 3][0];
      UnitText(tabs[i % 3].dc, tabs[i % 3].ac, units[i], prediction, ScanText(tabs, units, i + 1))
  }

  /** And so is a scan. */
  lemma {:induction false} ScanIsStandard(tabs: seq<Tables>, units: seq<Unit>, i: nat)
    requires |tabs| == 3 && Scannable(units)
    ensures ScanPieces(tabs, units, i) == ScanText(tabs, units, i)
    decreases |units| - i
  {
    if i < |units| {
      assert ScannableAt(units, i);
      var rest, b := ScanText(tabs, units, i + 1), i % 3;
      ScanIsStandard(tabs, units, i + 1);
      UnitIsStandard(tabs[b].dc, tabs[b].ac, units[i], Pred(units, i), rest);
    }
  }

  /** A byte 0xFF is always followed by a zero (section F.1.2.3)... */
  ghost predicate NoMarker(s: seq<Byte>) {
    forall i :: 0 <= i < |s| && s[i] == 0xFF ==> i + 1 < |s| && s[i + 1] == 0x00
  }

  /** ...and without the bytes after 0xFF the text is as it was. */
  function Dropped(s: seq<Byte>): seq<Byte> {
    if s == [] then [] else if s[0] == 0xFF && |s| >= 2 then [0xFF] + Dropped(s[2..]) else [s[0]] + Dropped(s[1..])
  }

  lemma {:induction false} StuffedIs(bytes: seq<Byte>)
    ensures NoMarker(Stuff(bytes)) && Dropped(Stuff(bytes)) == bytes
    decreases |bytes|
  {
    if bytes != [] {
      StuffedIs(bytes[1..]);
      var s, t := Stuff(bytes), Stuff(bytes[1..]);
      var n := |s| - |t|;
      assert s[n..] == t;
      forall i | 0 <= i < |s| && s[i] == 0xFF
        ensures i + 1 < |s| && s[i + 1] == 0x00
      {
        if i >= n {
          assert s[i] == t[i - n];
        }
      }
    }
  }

  lemma {:induction false} CategoryIs(v: int)
    requires -2048 < v < 2048
    ensures v != 0 ==> BitLen(Abs(v)) == Category(v) && Abs(v) < Pow2(Category(v))
  {
    Pow2Values();
    if v != 0 {
      SameLength(Abs(v), BitLen(Abs(v)), Category(v));
    }
  }

  lemma {:induction false} SameLength(a: nat, m: nat, n: nat)
    requires m >= 1 && n >= 1 && Pow2(m - 1) <= a < Pow2(m) && Pow2(n - 1) <= a < Pow2(n)
    ensures m == n
  {
    if m < n {
      Pow2Mono(m, n - 1);
    } else if n < m {
      Pow2Mono(n, m - 1);
    }
  }

  lemma {:induction false} TextConcat(t: Table, a: seq<Coded>, b: seq<Coded>, rest: Pieces)
    ensures Text(t, a + b, rest) == Text(t, a, Text(t, b, rest))
    decreases |a|
  {
    if a == [] {
      assert a + b == b;
    } else {
      assert (a + b)[1..] == a[1..] + b;
      TextConcat(t, a[1..], b, rest);
    }
  }

  lemma {:induction false} OneMoreText(t: Table, codes: seq<Coded>, c: Coded, rest: Pieces)
    ensures Text(t, codes + [c], rest) == Text(t, codes, OneText(t, c, rest))
  {
    TextConcat(t, codes, [c], rest);
    assert [c][1..] == [];
    assert Text(t, [], rest) == rest;
  }

  /** Up to coefficient i, all zeros, there have been a number of sixteens, and some zeros are pending. */
  lemma {:induction false} RunIsStandard(t: Table, du: seq<int>, j: nat, i: nat, last: nat, rest: Pieces)
    requires DataUnit(du) && j < i <= last < 64 && forall k :: j < k < i ==> du[k] == 0
    ensures AcPieces(t, du, j + 1, 0, last, rest)
            == Text(t, Sixteens((i - j - 1) / 16), AcPieces(t, du, i, (i - j - 1) % 16, last, rest))
    decreases i
  {
    if i > j + 1 {
      RunIsStandard(t, du, j, i - 1, last, rest);
      var z := i - j - 2;
      NextZero(z);
      if z % 16 == 15 {
        OneMoreText(t, Sixteens(z / 16), Coded(0xF0, 0, 0), AcPieces(t, du, i, 0, last, rest));
      }
    }
  }

  lemma {:induction false} NextZero(z: nat)
    ensures if z % 16 == 15 then (z + 1) % 16 == 0 && (z + 1) / 16 == z / 16 + 1
            else (z + 1) % 16 == z % 16 + 1 && (z + 1) / 16 == z / 16
  {
  }

  lemma {:induction false} AcIsStandard(t: Table, du: seq<int>, j: nat, last: nat, rest: Pieces)
    requires DataUnit(du) && j <= last < 64 && (last > 0 ==> du[last] != 0) && forall k :: last < k < 64 ==> du[k] == 0
    ensures AcPieces(t, du, j + 1, 0, last, rest) == Text(t, AcCodes(du, j), rest)
    decreases 64 - j
  {
    if j == last {
      LastText(t, rest);
    } else {
      var k := Next(du, j + 1);
      assert k <= last;
      RunIsStandard(t, du, j, k, last, rest);
      AcIsStandard(t, du, k, last, rest);
      CoefficientIsStandard(t, du, j, k, last, rest);
    }
  }

  /** The nonzero coefficient at k after the one at j. */
  lemma {:induction false} CoefficientIsStandard(t: Table, du: seq<int>, j: nat, k: nat, last: nat, rest: Pieces)
    requires DataUnit(du) && j < k <= last < 64 && k == Next(du, j + 1)
    requires AcPieces(t, du, k + 1, 0, last, rest) == Text(t, AcCodes(du, k), rest)
    ensures Text(t, Sixteens((k - j - 1) / 16), AcPieces(t, du, k, (k - j - 1) % 16, last, rest))
            == Text(t, AcCodes(du, j), rest)
  {
    var z, c := (k - j - 1) % 16, CodeOf(du, j, k);
    var after := Text(t, AcCodes(du, k), rest);
    CoefficientText(t, z, du[k], c, after);
    CodesAre(du, j, k);
    ThreeParts(t, Sixteens((k - j - 1) / 16), c, AcCodes(du, k), rest);
    PiecesAre(t, du, k, z, last, rest);
  }

  lemma {:induction false} CodesAre(du: seq<int>, j: nat, k: nat)
    requires DataUnit(du) && j < k < 64 && k == Next(du, j + 1)
    ensures AcCodes(du, j) == Sixteens((k - j - 1) / 16) + [CodeOf(du, j, k)] + AcCodes(du, k)
  {
  }

  lemma {:induction false} PiecesAre(t: Table, du: seq<int>, k: nat, z: nat, last: nat, rest: Pieces)
    requires |du| == 64 && k <= last < 64 && du[k] != 0
    ensures AcPieces(t, du, k, z, last, rest) == Coefficient(t, z, du[k], AcPieces(t, du, k + 1, 0, last, rest))
  {
  }

  lemma {:induction false} LastText(t: Table, rest: Pieces)
    ensures Text(t, [], rest) == rest
    ensures Text(t, [Coded(0x00, 0, 0)], rest) == Symbol(t, 0, rest)
  {
    OneMoreText(t, [], Coded(0x00, 0, 0), rest);
    assert [] + [Coded(0x00, 0, 0)] == [Coded(0x00, 0, 0)];
  }

  lemma {:induction false} CoefficientText(t: Table, zeros: nat, v: int, c: Coded, rest: Pieces)
    requires v != 0 && -2048 < v < 2048 && c == Coded(16 * zeros + Category(v), Category(v), Extra(v))
    ensures Coefficient(t, zeros, v, rest) == OneText(t, c, rest)
  {
    CategoryIs(v);
  }

  lemma {:induction false} ThreeParts(t: Table, a: seq<Coded>, c: Coded, b: seq<Coded>, rest: Pieces)
    ensures Text(t, a + [c] + b, rest) == Text(t, a, OneText(t, c, Text(t, b, rest)))
  {
    TextConcat(t, a + [c], b, rest);
    OneMoreText(t, a, c, Text(t, b, rest));
  }
}
