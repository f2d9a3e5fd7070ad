/** The two zig-zag tables: tiny_jpeg.h maps rows to scan order, stb_image.h maps back. */
module ZigZag {

  /** Scan position of the coefficient at row-major index i. */
  function Scan(i: nat): (k: nat)
    requires i < 64
    ensures k < 64
  {
    ScanRow(i / 8)[i % 8]
  }

  function ScanRow(r: nat): (row: seq<nat>)
    requires r < 8
    ensures |row| == 8 && forall c :: 0 <= c < 8 ==> row[c] < 64
  {
    match r
    case 0 => [ 0,  1,  5,  6, 14, 15, 27, 28]
    case 1 => [ 2,  4,  7, 13, 16, 26, 29, 42]
    case 2 => [ 3,  8, 12, 17, 25, 30, 41, 43]
    case 3 => [ 9, 11, 18, 24, 31, 40, 44, 53]
    case 4 => [10, 19, 23, 32, 39, 45, 52, 54]
    case 5 => [20, 22, 33, 38, 46, 51, 55, 60]
    case 6 => [21, 34, 37, 47, 50, 56, 59, 61]
    case _ => [35, 36, 48, 49, 57, 58, 62, 63]
  }

  /** Row-major index of scan position k; positions past the end map to 63. */
  function Unscan(k: nat): (i: nat)
    ensures i < 64
  {
    if k < 64 then UnscanRow(k / 8)[k % 8] else 63
  }

  function UnscanRow(r: nat): (row: seq<nat>)
    requires r < 8
    ensures |row| == 8 && forall c :: 0 <= c < 8 ==> row[c] < 64
  {
    match r
    case 0 => [ 0,  1,  8, 16,  9,  2,  3, 10]
    case 1 => [17, 24, 32, 25, 18, 11,  4,  5]
    case 2 => [12, 19, 26, 33, 40, 48, 41, 34]
    case 3 => [27, 20, 13,  6,  7, 14, 21, 28]
    case 4 => [35, 42, 49, 56, 57, 50, 43, 36]
    case 5 => [29, 22, 15, 23, 30, 37, 44, 51]
    case 6 => [58, 59, 52, 45, 38, 31, 39, 46]
    case _ => [53, 60, 61, 54, 47, 55, 62, 63]
  }

  lemma {:induction false} UpperRows(r: nat, c: nat)
    requires r < 4 && c < 8
    ensures Unscan(ScanRow(r)[c]) == 8 * r + c
  {
  }

  lemma {:induction false} LowerRows(r: nat, c: nat)
    requires 4 <= r < 8 && c < 8
    ensures Unscan(ScanRow(r)[c]) == 8 * r + c
  {
  }

  lemma {:induction false} UpperRowsBack(r: nat, c: nat)
    requires r < 4 && c < 8
    ensures Scan(UnscanRow(r)[c]) == 8 * r + c
  {
  }

  lemma {:induction false} LowerRowsBack(r: nat, c: nat)
    requires 4 <= r < 8 && c < 8
    ensures Scan(UnscanRow(r)[c]) == 8 * r + c
  {
  }

  /** The tables of the two files are inverse permutations. */
  lemma {:induction false} Inverses()
    ensures forall i :: 0 <= i < 64 ==> Unscan(Scan(i)) == i && Scan(Unscan(i)) == i
  {
    forall i | 0 <= i < 64
      ensures Unscan(Scan(i)) == i && Scan(Unscan(i)) == i
    {
      if i < 32 {
        UpperRows(i / 8, i % 8);
        UpperRowsBack(i / 8, i % 8);
      } else {
        LowerRows(i / 8, i % 8);
        LowerRowsBack(i / 8, i % 8);
      }
    }
  }

  lemma {:induction false} Injective(i: nat)
    requires i < 64
    ensures forall j :: 0 <= j < i ==> Scan(j) != Scan(i)
  {
    Inverses();
    assert forall j :: 0 <= j < i ==> Unscan(Scan(j)) == j;
  }

  lemma {:induction false} UnscanInjective(i: nat, k: nat)
    requires i < 64 && k < 64 && i != k
    ensures Unscan(i) != Unscan(k)
  {
    Inverses();
    assert Scan(Unscan(i)) == i && Scan(Unscan(k)) == k;
  }

  // ---------- the order of T.81 Figure 5 ----------

  /** The cells of anti-diagonal d: those with r + c == d. */
  function Cells(d: nat): nat {
    if d < 8 then d + 1 else if d < 15 then 15 - d else 0
  }

  /** The cells of all earlier ones. */
  function Earlier(d: nat): nat {
    if d == 0 then 0 else Earlier(d - 1) + Cells(d - 1)
  }

  /** The position of cell (r, c): odd anti-diagonals run down to the left, even ones up to the right. */
  function Place(r: nat, c: nat): nat
    requires r < 8 && c < 8
  {
    var d := r + c;
    var first := if d < 8 then 0 else d - 7;
    Earlier(d) + if d % 2 == 1 then r - first else c - first
  }

  lemma {:induction false} EarlierValues()
    ensures Earlier(0) == 0 && Earlier(1) == 1 && Earlier(2) == 3 && Earlier(3) == 6 && Earlier(4) == 10
    ensures Earlier(5) == 15 && Earlier(6) == 21 && Earlier(7) == 28 && Earlier(8) == 36 && Earlier(9) == 43
    ensures Earlier(10) == 49 && Earlier(11) == 54 && Earlier(12) == 58 && Earlier(13) == 61 && Earlier(14) == 63
  {
    assert Earlier(4) == 10;
    assert Earlier(8) == 36;
    assert Earlier(12) == 58;
  }

  lemma {:induction false} UpperPlaces(r: nat, c: nat)
    requires r < 4 && c < 8
    ensures ScanRow(r)[c] == Place(r, c)
  {
    EarlierValues();
  }

  lemma {:induction false} LowerPlaces(r: nat, c: nat)
    requires 4 <= r < 8 && c < 8
    ensures ScanRow(r)[c] == Place(r, c)
  {
    EarlierValues();
  }

  /** Both tables follow that order. */
  lemma {:induction false} ScanIsPlace(r: nat, c: nat)
    requires r < 8 && c < 8
    ensures Place(r, c) < 64 && Scan(8 * r + c) == Place(r, c) && Unscan(Place(r, c)) == 8 * r + c
  {
    assert (8 * r + c) / 8 == r && (8 * r + c) % 8 == c;
    if r < 4 {
      UpperPlaces(r, c);
    } else {
      LowerPlaces(r, c);
    }
    Inverses();
  }
}
