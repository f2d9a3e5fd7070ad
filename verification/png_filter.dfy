/**
 The scan-line filters of PNG (second edition, sections 9.2 to 9.4) and their removal in stb_image.h.
 */
module PngFilter {
  import Bits

  type Byte = Bits.Byte
  type Row = seq<Byte>

  const NONE := 0
  const SUB := 1
  const UP := 2
  const AVERAGE := 3
  const PAETH := 4
  const AVERAGE_FIRST := 5

  // ---------- filtering ----------

  function Abs(x: int): nat {
    if x < 0 then -x else x
  }

  /** Section 9.4: whichever of a, b and c is nearest to a + b - c, in this order. */
  function PaethPredictor(a: int, b: int, c: int): int {
    var p := a + b - c;
    if Abs(p - a) <= Abs(p - b) && Abs(p - a) <= Abs(p - c) then a else if Abs(p - b) <= Abs(p - c) then b else c
  }

  /** The byte bpp places to the left, 0 before the start of the row. */
  function Left(row: Row, k: nat, bpp: nat): Byte
    requires k < |row|
  {
    if bpp <= k then row[k - bpp] else 0
  }

  /** Section 9.2: the prediction from the bytes to the left, above, and above left. */
  function Predict(filter: nat, a: Byte, b: Byte, c: Byte): int {
    if filter == SUB then a
    else if filter == UP then b
    else if filter == AVERAGE then (a as int + b as int) / 2
    else if filter == PAETH then PaethPredictor(a, b, c)
    else 0
  }

  /** Byte k of the filtered row. */
  function Filtered(filter: nat, row: Row, prior: Row, bpp: nat, k: nat): Byte
    requires k < |row| == |prior|
  {
    (row[k] as int - Predict(filter, Left(row, k, bpp), prior[k], Left(prior, k, bpp))) % 256
  }

  /** raw is the row filtered against the one before it. */
  ghost predicate IsFiltered(filter: nat, row: Row, prior: Row, bpp: nat, raw: Row) {
    |row| == |prior| == |raw| && forall k :: 0 <= k < |row| ==> FilteredAt(filter, row, prior, bpp, raw, k)
  }

  ghost predicate FilteredAt(filter: nat, row: Row, prior: Row, bpp: nat, raw: Row, k: nat)
    requires k < |row| == |prior| == |raw|
  {
    raw[k] == Filtered(filter, row, prior, bpp, k)
  }

  function ZeroRow(n: nat): (z: Row)
    ensures |z| == n
  {
    seq(n, _ => 0)
  }

  /** The row before row j of an image; zeros before the first. */
  function Prior(rows: seq<Row>, j: nat, n: nat): Row
    requires j <= |rows|
  {
    if j == 0 then ZeroRow(n) else rows[j - 1]
  }

  /** A byte follows from its prediction and what was stored. */
  lemma {:induction false} Restored(x: Byte, p: int, raw: Byte)
    ensures (x as int - p) % 256 == raw <==> x == (raw as int + p) % 256
  {
  }

  /** Only one row can have been filtered to the stored bytes. */
  lemma {:induction false} FilteredUnique(filter: nat, r: Row, s: Row, prior: Row, bpp: nat, raw: Row, k: nat)
    requires IsFiltered(filter, r, prior, bpp, raw) && IsFiltered(filter, s, prior, bpp, raw)
    requires 1 <= bpp && k < |raw|
    ensures r[k] == s[k]
    decreases k
  {
    if bpp <= k {
      FilteredUnique(filter, r, s, prior, bpp, raw, k - bpp);
    }
    assert FilteredAt(filter, r, prior, bpp, raw, k) && FilteredAt(filter, s, prior, bpp, raw, k);
    var p := Predict(filter, Left(r, k, bpp), prior[k], Left(prior, k, bpp));
    Restored(r[k], p, raw[k]);
    Restored(s[k], p, raw[k]);
  }

  // ---------- removing filters ----------

  /** The predictor in the form the decoder uses. */
  method StbPaeth(a: int, b: int, c: int) returns (r: int)
    ensures r == PaethPredictor(a, b, c)
  {
    var thresh := c * 3 - (a + b);
    var lo := if a < b then a else b;
    var hi := if a < b then b else a;
    var t0 := if hi <= thresh then lo else c;
    r := if thresh <= lo then hi else t0;
  }

  /** Filters of the first row: there is nothing above it. */
  function FirstRowFilter(filter: nat): nat {
    match filter
    case 0 => NONE case 1 => SUB case 2 => NONE case 3 => AVERAGE_FIRST case _ => SUB
  }

  /** The first k bytes of the row have been restored. */
  ghost predicate Upto(filter: nat, cur: array<Byte>, prior: Row, bpp: nat, raw: Row, k: nat)
    reads cur
  {
    && cur.Length == |prior| == |raw| && k <= |raw|
    && forall i :: 0 <= i < k ==> FilteredAt(filter, cur[..], prior, bpp, raw, i)
  }

  /** Restores byte k from its prediction. */
  method Restore(filter: nat, cur: array<Byte>, ghost prior: Row, bpp: nat, raw: Row, k: nat, p: int)
    requires Upto(filter, cur, prior, bpp, raw, k) && k < |raw| && bpp >= 1
    requires p == Predict(filter, Left(cur[..], k, bpp), prior[k], Left(prior, k, bpp))
    modifies cur
    ensures Upto(filter, cur, prior, bpp, raw, k + 1)
  {
    ghost var before := cur[..];
    cur[k] := (raw[k] as int + p) % 256;
    Restored(cur[k], p, raw[k]);
    forall i | 0 <= i < k + 1
      ensures FilteredAt(filter, cur[..], prior, bpp, raw, i)
    {
      if i < k {
        assert FilteredAt(filter, before, prior, bpp, raw, i);
        assert Left(cur[..], i, bpp) == Left(before, i, bpp);
      } else {
        assert Left(cur[..], i, bpp) == Left(before, i, bpp);
      }
    }
  }

  /** What stands above a row: the other buffer's row, or nothing for the first. */
  ghost predicate Above(first: bool, prior: Row, buffer: Row) {
    && |prior| == |buffer|
    && if first then forall k :: 0 <= k < |prior| ==> prior[k] == 0 else prior == buffer
  }

  /** The filter that is run for a stored filter byte, and what it predicts byte k of the row to be. */
  function Run(first: bool, filter: nat): nat {
    if first then FirstRowFilter(filter) else filter
  }

  /** Over a row of zeros, the first row's filters predict what the stored ones do. */
  lemma {:induction false} FirstRow(filter: nat, a: Byte)
    requires filter <= 4
    ensures Run(true, filter) == NONE ==> Predict(filter, a, 0, 0) == 0
    ensures Run(true, filter) == SUB ==> Predict(filter, a, 0, 0) == a as int
    ensures Run(true, filter) == AVERAGE_FIRST ==> Predict(filter, a, 0, 0) == a as int / 2
    ensures Run(true, filter) != UP && Run(true, filter) != AVERAGE && Run(true, filter) != PAETH
  {
  }

  /** What a row's loop needs of its buffers. */
  ghost predicate Ready(first: bool, filter: nat, cur: array<Byte>, prior: array<Byte>, above: Row, bpp: nat, raw: Row)
    reads cur, prior
  {
    && cur != prior && cur.Length == prior.Length == |raw| && 1 <= bpp <= |raw| && filter <= 4
    && Above(first, above, prior[..])
  }

  /** The first bytes of a row have nothing to their left. */
  method Start(first: bool, filter: nat, cur: array<Byte>, prior: array<Byte>, ghost above: Row, bpp: nat, raw: Row)
    requires Ready(first, filter, cur, prior, above, bpp, raw)
    modifies cur
    ensures Upto(filter, cur, above, bpp, raw, bpp)
  {
    var k := 0;
    while k < bpp
      invariant k <= bpp
      invariant Upto(filter, cur, above, bpp, raw, k)
    {
      FirstRow(filter, 0);
      var run := Run(first, filter);
      var p: int := 0;
      if run == UP || run == PAETH {
        p := prior[k] as int;
      } else if run == AVERAGE {
        p := prior[k] as int / 2;
      }
      Restore(filter, cur, above, bpp, raw, k, p);
      k := k + 1;
    }
  }

  /** Restores a row from its stored bytes, whatever filter was chosen for it. */
  method UnfilterRow(first: bool, filter: nat, cur: array<Byte>, prior: array<Byte>, ghost above: Row, bpp: nat, raw: Row)
    requires Ready(first, filter, cur, prior, above, bpp, raw)
    modifies cur
    ensures IsFiltered(filter, cur[..], above, bpp, raw)
  {
    Start(first, filter, cur, prior, above, bpp, raw);
    var run := Run(first, filter);
    var k := bpp;
    while k < |raw|
      invariant bpp <= k <= |raw|
      invariant Upto(filter, cur, above, bpp, raw, k)
    {
      FirstRow(filter, cur[k - bpp]);
      var p: int := 0;
      if run == SUB {
        p := cur[k - bpp] as int;
      } else if run == UP {
        p := prior[k] as int;
      } else if run == AVERAGE {
        p := (prior[k] as int + cur[k - bpp] as int) / 2;
      } else if run == PAETH {
        p := StbPaeth(cur[k - bpp] as int, prior[k] as int, prior[k - bpp] as int);
      } else if run == AVERAGE_FIRST {
        p := cur[k - bpp] as int / 2;
      }
      Restore(filter, cur, above, bpp, raw, k, p);
      k := k + 1;
    }
  }

  // ---------- images ----------

  /** Where row j's filter byte stands. */
  function RowStart(j: nat, nk: nat): nat {
    j * (nk + 1)
  }

  lemma {:induction false} RowStartStep(j: nat, nk: nat)
    ensures RowStart(j + 1, nk) == RowStart(j, nk) + nk + 1
  {
  }

  lemma {:induction false} RowStartGrows(i: nat, j: nat, nk: nat)
    requires i <= j
    ensures RowStart(i, nk) + (j - i) <= RowStart(j, nk)
    decreases j - i
  {
    if i < j {
      RowStartStep(i, nk);
      RowStartGrows(i + 1, j, nk);
    }
  }

  /** Row j, with its filter byte, is among the stored bytes. */
  ghost predicate HasRow(raw: Row, j: nat, nk: nat) {
    RowStart(j, nk) + nk + 1 <= |raw|
  }

  /** Row j is stored under a filter that exists. */
  ghost predicate Known(raw: Row, j: nat, nk: nat) {
    HasRow(raw, j, nk) && raw[RowStart(j, nk)] <= 4
  }

  ghost predicate AllKnown(raw: Row, y: nat, nk: nat) {
    forall j :: 0 <= j < y ==> Known(raw, j, nk)
  }

  /** The stored bytes of row j. */
  function Line(raw: Row, j: nat, nk: nat): (line: Row)
    requires HasRow(raw, j, nk)
    ensures |line| == nk
  {
    raw[RowStart(j, nk) + 1..RowStart(j, nk) + 1 + nk]
  }

  /** Row j of the image, filtered against the row above it, is what is stored. */
  ghost predicate RowStored(raw: Row, rows: seq<Row>, bpp: nat, nk: nat, j: nat)
    requires j < |rows|
  {
    Known(raw, j, nk) && IsFiltered(raw[RowStart(j, nk)] as nat, rows[j], Prior(rows, j, nk), bpp, Line(raw, j, nk))
  }

  ghost predicate Stored(raw: Row, rows: seq<Row>, bpp: nat, nk: nat) {
    forall j :: 0 <= j < |rows| ==> RowStored(raw, rows, bpp, nk, j)
  }

  /** Stored rows say nothing of later ones. */
  lemma {:induction false} StoredGrows(raw: Row, rows: seq<Row>, row: Row, bpp: nat, nk: nat)
    requires Stored(raw, rows, bpp, nk)
    requires Known(raw, |rows|, nk)
    requires IsFiltered(raw[RowStart(|rows|, nk)] as nat, row, Prior(rows, |rows|, nk), bpp, Line(raw, |rows|, nk))
    ensures Stored(raw, rows + [row], bpp, nk)
  {
    var more := rows + [row];
    forall j | 0 <= j < |more|
      ensures RowStored(raw, more, bpp, nk, j)
    {
      assert Prior(more, j, nk) == Prior(rows, j, nk);
      if j < |rows| {
        assert RowStored(raw, rows, bpp, nk, j);
      }
    }
  }

  /**
   Restores an image of y rows of nk bytes. It fails exactly when bytes are missing or a row names an unknown
   filter; otherwise every row, filtered against the restored row above it, gives the stored bytes.
   */
  method CreateImageRaw(raw: Row, bpp: nat, nk: nat, y: nat) returns (ok: bool, rows: seq<Row>)
    requires 1 <= bpp <= nk
    ensures ok <==> RowStart(y, nk) <= |raw| && AllKnown(raw, y, nk)
    ensures ok ==> |rows| == y && Stored(raw, rows, bpp, nk)
  {
    rows := [];
    ok := RowStart(y, nk) <= |raw|;
    if !ok {
      return;
    }
    var cur := new Byte[nk](_ => 0);
    var prior := new Byte[nk](_ => 0);
    var j := 0;
    while j < y
      invariant j <= y && |rows| == j
      invariant cur.Length == prior.Length == nk && cur != prior
      invariant fresh(cur) && fresh(prior)
      invariant Stored(raw, rows, bpp, nk)
      invariant AllKnown(raw, j, nk)
      invariant j > 0 ==> prior[..] == rows[j - 1]
    {
      RowStartStep(j, nk);
      RowStartGrows(j + 1, y, nk);
      var filter: nat := raw[RowStart(j, nk)] as nat;
      if filter > 4 {
        assert !Known(raw, j, nk);
        ok := false;
        return;
      }
      assert Known(raw, j, nk);
      ghost var above := Prior(rows, j, nk);
      UnfilterRow(j == 0, filter, cur, prior, above, bpp, Line(raw, j, nk));
      StoredGrows(raw, rows, cur[..], bpp, nk);
      rows := rows + [cur[..]];
      cur, prior := prior, cur;
      j := j + 1;
    }
  }

  // ---------- the stored bytes ----------

  /** Of a, b and c, the first that is at least as near to a + b - c as the other two. */
  ghost predicate Nearest(x: int, a: int, b: int, c: int) {
    var p := a + b - c;
    && (x == a || x == b || x == c)
    && Abs(p - x) <= Abs(p - a) && Abs(p - x) <= Abs(p - b) && Abs(p - x) <= Abs(p - c)
    && (x != a ==> Abs(p - x) < Abs(p - a))
    && (x != a && x != b ==> Abs(p - x) < Abs(p - b))
  }

  lemma {:induction false} PaethNearest(x: int, a: int, b: int, c: int)
    ensures Nearest(x, a, b, c) <==> x == PaethPredictor(a, b, c)
  {
  }

  ghost predicate IsImage(rows: seq<Row>, nk: nat) {
    forall j :: 0 <= j < |rows| ==> |rows[j]| == nk
  }

  /** Byte k of row j of the image; bytes left of a row and above the first are zero. */
  function ByteAt(rows: seq<Row>, j: int, k: int): Byte {
    if 0 <= j < |rows| && 0 <= k < |rows[j]| then rows[j][k] else 0
  }

  /**
   What is stored for byte k of row j after the row's filter byte: its difference from nothing, from the byte bpp
   to the left, from the byte above, from the mean of both, or from the nearest of both and the byte above left.
   */
  lemma {:induction false} StoredByte(raw: Row, rows: seq<Row>, bpp: nat, nk: nat, j: nat, k: nat) returns (p: int)
    requires Stored(raw, rows, bpp, nk) && j < |rows| && k < nk && IsImage(rows, nk)
    ensures var start := j * (nk + 1);
            && start + nk < |raw| && raw[start + 1 + k] == (rows[j][k] as int - p) % 256
            && var a, b, c := ByteAt(rows, j, k - bpp), ByteAt(rows, j - 1, k), ByteAt(rows, j - 1, k - bpp);
            match raw[start] as int
            case 0 => p == 0
            case 1 => p == a as int
            case 2 => p == b as int
            case 3 => 2 * p <= a + b <= 2 * p + 1
            case 4 => Nearest(p, a as int, b as int, c as int)
            case _ => false
  {
    assert RowStored(raw, rows, bpp, nk, j);
    var filter, prior := raw[RowStart(j, nk)] as nat, Prior(rows, j, nk);
    assert FilteredAt(filter, rows[j], prior, bpp, Line(raw, j, nk), k);
    p := Predict(filter, Left(rows[j], k, bpp), prior[k], Left(prior, k, bpp));
    PriorBytes(rows, j, k, bpp, nk);
    PaethNearest(PaethPredictor(Left(rows[j], k, bpp) as int, prior[k] as int, Left(prior, k, bpp) as int),
                 Left(rows[j], k, bpp) as int, prior[k] as int, Left(prior, k, bpp) as int);
  }

  lemma {:induction false} PriorBytes(rows: seq<Row>, j: nat, k: nat, bpp: nat, nk: nat)
    requires IsImage(rows, nk) && j < |rows| && k < nk
    ensures Left(rows[j], k, bpp) == ByteAt(rows, j, k - bpp)
    ensures Prior(rows, j, nk)[k] == ByteAt(rows, j - 1, k)
    ensures Left(Prior(rows, j, nk), k, bpp) == ByteAt(rows, j - 1, k - bpp)
  {
  }

  // ---------- round trip ----------

  /** A row as an encoder stores it: the filter byte, then the differences. */
  function FilterRow(filter: Byte, row: Row, prior: Row, bpp: nat): (raw: Row)
    requires |row| == |prior|
    ensures |raw| == |row| + 1
  {
    [filter] + seq(|row|, k requires 0 <= k < |row| => Filtered(filter as nat, row, prior, bpp, k))
  }

  /** An image as an encoder stores it, with any filter for each row. */
  function FilterImage(rows: seq<Row>, filters: seq<Byte>, bpp: nat, nk: nat): (raw: Row)
    requires |rows| == |filters| && IsImage(rows, nk)
    ensures |raw| == RowStart(|rows|, nk)
  {
    if rows == [] then
      []
    else
      var last := |rows| - 1;
      RowStartStep(last, nk);
      FilterImage(rows[..last], filters[..last], bpp, nk)
      + FilterRow(filters[last], rows[last], Prior(rows, last, nk), bpp)
  }

  /** An image's stored form, followed by anything, is that of its rows. */
  lemma {:induction false} FilterImageStored(rows: seq<Row>, filters: seq<Byte>, bpp: nat, nk: nat, rest: Row)
    requires |rows| == |filters| && IsImage(rows, nk)
    requires forall j :: 0 <= j < |filters| ==> filters[j] <= 4
    ensures Stored(FilterImage(rows, filters, bpp, nk) + rest, rows, bpp, nk)
    decreases |rows|
  {
    if rows != [] {
      var last := |rows| - 1;
      RowStartStep(last, nk);
      var head := FilterImage(rows[..last], filters[..last], bpp, nk);
      var line := FilterRow(filters[last], rows[last], Prior(rows, last, nk), bpp);
      var raw := FilterImage(rows, filters, bpp, nk) + rest;
      assert raw == head + (line + rest);
      FilterImageStored(rows[..last], filters[..last], bpp, nk, line + rest);
      assert Line(raw, last, nk) == line[1..];
      assert Prior(rows, last, nk) == Prior(rows[..last], last, nk);
      assert IsFiltered(filters[last] as nat, rows[last], Prior(rows, last, nk), bpp, line[1..]);
      StoredGrows(raw, rows[..last], rows[last], bpp, nk);
      assert rows == rows[..last] + [rows[last]];
    }
  }

  /** Stored bytes determine the image. */
  lemma {:induction false} StoredUnique(raw: Row, r: seq<Row>, s: seq<Row>, bpp: nat, nk: nat, j: nat)
    requires Stored(raw, r, bpp, nk) && Stored(raw, s, bpp, nk) && bpp >= 1
    requires j < |r| == |s|
    ensures r[j] == s[j]
    decreases j
  {
    if j > 0 {
      StoredUnique(raw, r, s, bpp, nk, j - 1);
    }
    assert RowStored(raw, r, bpp, nk, j) && RowStored(raw, s, bpp, nk, j);
    forall k | 0 <= k < nk
      ensures r[j][k] == s[j][k]
    {
      FilteredUnique(raw[RowStart(j, nk)] as nat, r[j], s[j], Prior(r, j, nk), bpp, Line(raw, j, nk), k);
    }
  }

  /** Whatever filters its rows were stored under, and whatever follows them, an image is restored. */
  method FilterThenUnfilter(rows: seq<Row>, filters: seq<Byte>, bpp: nat, nk: nat, rest: Row)
      returns (ok: bool, restored: seq<Row>)
    requires 1 <= bpp <= nk
    requires |rows| == |filters| && IsImage(rows, nk)
    ensures ok <==> forall j :: 0 <= j < |filters| ==> filters[j] <= 4
    ensures ok ==> restored == rows
  {
    var raw := FilterImage(rows, filters, bpp, nk) + rest;
    ok, restored := CreateImageRaw(raw, bpp, nk, |rows|);
    FiltersKnown(rows, filters, bpp, nk, rest);
    if ok {
      FilterImageStored(rows, filters, bpp, nk, rest);
      forall j | 0 <= j < |rows|
        ensures restored[j] == rows[j]
      {
        StoredUnique(raw, restored, rows, bpp, nk, j);
      }
    }
  }

  /** The filter bytes of a stored image are those chosen. */
  lemma {:induction false} FiltersKnown(rows: seq<Row>, filters: seq<Byte>, bpp: nat, nk: nat, rest: Row)
    requires |rows| == |filters| && IsImage(rows, nk)
    ensures AllKnown(FilterImage(rows, filters, bpp, nk) + rest, |rows|, nk)
            <==> forall j :: 0 <= j < |filters| ==> filters[j] <= 4
    decreases |rows|
  {
    if rows != [] {
      var last := |rows| - 1;
      RowStartStep(last, nk);
      var head := FilterImage(rows[..last], filters[..last], bpp, nk);
      var line := FilterRow(filters[last], rows[last], Prior(rows, last, nk), bpp);
      var raw := FilterImage(rows, filters, bpp, nk) + rest;
      assert raw == head + (line + rest);
      FiltersKnown(rows[..last], filters[..last], bpp, nk, line + rest);
      assert raw[RowStart(last, nk)] == filters[last];
      assert Known(raw, last, nk) <==> filters[last] <= 4;
      assert AllKnown(raw, |rows|, nk) <==> AllKnown(raw, last, nk) && Known(raw, last, nk);
    }
  }
}
