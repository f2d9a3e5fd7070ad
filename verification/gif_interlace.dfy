/**
 The order in which the GIF decoder of stb_image.h visits the pixels of a frame: rows in order, or the
 four passes of GIF89a Appendix E.  Every pixel of the rectangle is drawn once.
 */
module GifInterlace {
  import opened Bits
  import opened LsbBits
  import opened GifLzw
  import opened StbGif

  /** An image descriptor: a rectangle of w by h pixels at (x, y). */
  datatype Rectangle = Rectangle(x: nat, y: nat, w: nat, h: nat)

  /** Where the rectangle lies in an image of `width` pixels of four bytes a row. */
  function FrameOf(g: Rectangle, width: nat): Frame {
    var line := 4 * width;
    Frame(4 * g.x, line * g.y, 4 * g.x + 4 * g.w, line * g.y + line * g.h, line)
  }

  /** The cursor before the first pixel. */
  function Start(g: Rectangle, width: nat, interlaced: bool): Raster {
    var f := FrameOf(g, width);
    Raster(f.start_x, if g.w == 0 then f.max_y else f.start_y, if interlaced then 8 * f.line_size else f.line_size,
           if interlaced then 3 else 0, [])
  }

  // ---------- the order promised ----------

  /** Every step-th row from `from` on. */
  function Rows(from: nat, step: nat, h: nat): seq<nat>
    requires step > 0
    decreases h - from
  {
    if from >= h then [] else [from] + Rows(from + step, step, h)
  }

  /** Every 8th row from row 0, every 8th from row 4, every 4th from row 2 and every 2nd from row 1. */
  function Order(interlaced: bool, h: nat): seq<nat> {
    if interlaced then Rows(0, 8, h) + (Rows(4, 8, h) + (Rows(2, 4, h) + Rows(1, 2, h))) else Rows(0, 1, h)
  }

  /** The pixels of these rows of w columns, the first i pixels of the first row left out. */
  function Pixels(w: nat, i: nat, rows: seq<nat>): seq<(nat, nat)>
    decreases |rows|, w - i
  {
    if rows == [] then []
    else if i < w then [(i, rows[0])] + Pixels(w, i + 1, rows)
    else Pixels(w, 0, rows[1..])
  }

  function Position(f: Frame, pixel: (nat, nat)): nat {
    f.start_x + 4 * pixel.0 + (f.start_y + f.line_size * pixel.1)
  }

  // ---------- every row once ----------

  ghost predicate Distinct<T>(s: seq<T>) {
    forall a, b :: 0 <= a < b < |s| ==> s[a] != s[b]
  }

  lemma {:induction false} DistinctConcat<T>(s: seq<T>, t: seq<T>)
    requires Distinct(s) && Distinct(t) && forall x :: x in s ==> x !in t
    ensures Distinct(s + t)
  {
    forall a, b | 0 <= a < b < |s + t|
      ensures (s + t)[a] != (s + t)[b]
    {
      if a < |s| <= b {
        assert s[a] in s && t[b - |s|] in t;
      }
    }
  }

  function Nth(from: nat, step: nat, k: nat): nat {
    from + step * k
  }

  /** Row j is one of those from `from` on. */
  ghost predicate Visited(from: nat, step: nat, h: nat, j: nat) {
    j < h && exists k: nat :: j == Nth(from, step, k)
  }

  lemma {:induction false} RowsAre(from: nat, step: nat, h: nat)
    requires step > 0
    ensures Distinct(Rows(from, step, h))
    ensures forall j: nat :: j in Rows(from, step, h) <==> Visited(from, step, h, j)
    decreases h - from
  {
    forall j: nat
      ensures Visited(from, step, h, j) <==> from < h && (j == from || Visited(from + step, step, h, j))
      ensures Visited(from + step, step, h, j) ==> j > from
    {
      VisitedStep(from, step, h, j);
    }
    if from < h {
      RowsAre(from + step, step, h);
      DistinctConcat([from], Rows(from + step, step, h));
    }
  }

  lemma {:induction false} VisitedStep(from: nat, step: nat, h: nat, j: nat)
    requires step > 0
    ensures Visited(from, step, h, j) <==> from < h && (j == from || Visited(from + step, step, h, j))
    ensures Visited(from + step, step, h, j) ==> j > from
  {
    if Visited(from, step, h, j) {
      var k: nat :| j == Nth(from, step, k);
      if k > 0 {
        NthStep(from, step, k);
        assert j == Nth(from + step, step, k - 1);
      } else {
        assert step * 0 == 0;
      }
    }
    if Visited(from + step, step, h, j) {
      var k: nat :| j == Nth(from + step, step, k);
      NthStep(from, step, k + 1);
      assert j == Nth(from, step, k + 1);
    }
    if j == from {
      assert step * 0 == 0;
      assert j == Nth(from, step, 0);
    }
  }

  lemma {:induction false} NthStep(from: nat, step: nat, k: nat)
    requires k > 0
    ensures Nth(from, step, k) == Nth(from + step, step, k - 1) >= from + step
  {
    assert step * k == step * (k - 1) + step;
  }

  /** No row belongs to two passes. */
  ghost predicate OnePass(h: nat, j: nat) {
    && (Visited(0, 8, h, j) ==> !Visited(4, 8, h, j) && !Visited(2, 4, h, j) && !Visited(1, 2, h, j))
    && (Visited(4, 8, h, j) ==> !Visited(2, 4, h, j) && !Visited(1, 2, h, j))
    && (Visited(2, 4, h, j) ==> !Visited(1, 2, h, j))
  }

  lemma {:induction false} PassesApart(h: nat, j: nat)
    ensures OnePass(h, j)
  {
    if Visited(4, 8, h, j) {
      var k: nat :| j == Nth(4, 8, k);
      forall l: nat
        ensures j != Nth(0, 8, l)
      {
        assert 4 + 8 * k != 8 * l;
      }
    }
    Fourths(h, j);
    Odds(h, j);
  }

  /** The rows of the third pass are those after a multiple of four by two. */
  lemma {:induction false} Fourths(h: nat, j: nat)
    ensures Visited(2, 4, h, j) ==> !Visited(0, 8, h, j) && !Visited(4, 8, h, j)
  {
    if Visited(2, 4, h, j) {
      var k: nat :| j == Nth(2, 4, k);
      forall l: nat
        ensures j != Nth(0, 8, l) && j != Nth(4, 8, l)
      {
        assert 2 + 4 * k != 8 * l && 2 + 4 * k != 4 + 8 * l;
      }
    }
  }

  /** Those of the last one are odd. */
  lemma {:induction false} Odds(h: nat, j: nat)
    ensures Visited(1, 2, h, j) ==> !Visited(0, 8, h, j) && !Visited(4, 8, h, j) && !Visited(2, 4, h, j)
  {
    if Visited(1, 2, h, j) {
      var k: nat :| j == Nth(1, 2, k);
      forall l: nat
        ensures j != Nth(0, 8, l) && j != Nth(4, 8, l) && j != Nth(2, 4, l)
      {
        assert 1 + 2 * k != 8 * l && 1 + 2 * k != 4 + 8 * l && 1 + 2 * k != 2 + 4 * l;
      }
    }
  }

  /** Every row belongs to a pass. */
  lemma {:induction false} PassesMeet(h: nat, j: nat)
    ensures j < h <==> Visited(0, 8, h, j) || Visited(4, 8, h, j) || Visited(2, 4, h, j) || Visited(1, 2, h, j)
  {
    var q := j / 8;
    match j - 8 * q {
      case 0 => assert j == Nth(0, 8, q);
      case 4 => assert j == Nth(4, 8, q);
      case 2 => assert j == Nth(2, 4, 2 * q);
      case 6 => assert j == Nth(2, 4, 2 * q + 1);
      case r => assert j == Nth(1, 2, 4 * q + (r - 1) / 2);
    }
  }

  /** Both orders visit each row once. */
  lemma {:induction false} OrderIs(interlaced: bool, h: nat)
    ensures Distinct(Order(interlaced, h)) && |Order(interlaced, h)| == h
    ensures forall j: nat :: j in Order(interlaced, h) <==> j < h
  {
    if interlaced {
      PassesDistinct(h);
      forall j: nat
        ensures j in Order(true, h) <==> j < h
      {
        PassesMeet(h, j);
      }
    } else {
      RowsAre(0, 1, h);
      forall j: nat
        ensures Visited(0, 1, h, j) <==> j < h
      {
        assert j == Nth(0, 1, j);
      }
    }
    SizeIs(Order(interlaced, h), h);
  }

  /** All numbers below h, each once, are h numbers. */
  lemma {:induction false} SizeIs(s: seq<nat>, h: nat)
    requires Distinct(s) && forall j: nat :: j in s <==> j < h
    ensures |s| == h
    decreases h
  {
    if s == [] {
      var first: nat := 0;
      assert first in s <==> first < h;
    } else {
      assert s[0] in s;
      var last: nat := h - 1;
      assert last in s;
      var i :| 0 <= i < |s| && s[i] == last;
      Removed(s, i);
      SizeIs(Without(s, i), last);
    }
  }

  function Without<T>(s: seq<T>, i: nat): seq<T>
    requires i < |s|
  {
    s[..i] + s[i + 1..]
  }

  lemma {:induction false} Removed(s: seq<nat>, i: nat)
    requires Distinct(s) && i < |s|
    ensures Distinct(Without(s, i)) && forall j: nat :: j in Without(s, i) <==> j in s && j != s[i]
  {
    var t := Without(s, i);
    forall j: nat | j in s && j != s[i]
      ensures j in t
    {
      var k :| 0 <= k < |s| && s[k] == j;
      assert if k < i then t[k] == j else t[k - 1] == j;
    }
  }

  lemma {:induction false} PassesDistinct(h: nat)
    ensures Distinct(Order(true, h))
    ensures forall j: nat :: j in Order(true, h) <==>
              Visited(0, 8, h, j) || Visited(4, 8, h, j) || Visited(2, 4, h, j) || Visited(1, 2, h, j)
  {
    var (a, b, c, d) := (Rows(0, 8, h), Rows(4, 8, h), Rows(2, 4, h), Rows(1, 2, h));
    RowsAre(0, 8, h);
    RowsAre(4, 8, h);
    RowsAre(2, 4, h);
    RowsAre(1, 2, h);
    forall j: nat
      ensures OnePass(h, j)
    {
      PassesApart(h, j);
    }
    DistinctConcat(c, d);
    DistinctConcat(b, c + d);
    DistinctConcat(a, b + (c + d));
  }

  /** Which of the four passes of Appendix E a row belongs to. */
  function Pass(j: nat): nat {
    if j % 8 == 0 then 0 else if j % 8 == 4 then 1 else if j % 4 == 2 then 2 else 3
  }

  /** Rows pass by pass, and downwards in each pass. */
  ghost predicate PassByPass(rows: seq<nat>) {
    forall a, b :: 0 <= a < b < |rows| ==>
      Pass(rows[a]) < Pass(rows[b]) || (Pass(rows[a]) == Pass(rows[b]) && rows[a] < rows[b])
  }

  /** The rows are visited pass by pass, or downwards. */
  lemma {:induction false} OrderRises(interlaced: bool, h: nat)
    ensures var rows := Order(interlaced, h);
            if interlaced then PassByPass(rows) else Rising(rows)
  {
    if interlaced {
      var (a, b, c, d) := (Rows(0, 8, h), Rows(4, 8, h), Rows(2, 4, h), Rows(1, 2, h));
      RowsOfPass(0, 8, h, 0);
      RowsOfPass(4, 8, h, 1);
      RowsOfPass(2, 4, h, 2);
      RowsOfPass(1, 2, h, 3);
      PassesConcat(c, d, 3);
      PassesConcat(b, c + d, 2);
      PassesConcat(a, b + (c + d), 1);
    } else {
      RowsRise(0, 1, h);
    }
  }

  ghost predicate Rising(rows: seq<nat>) {
    forall a, b :: 0 <= a < b < |rows| ==> rows[a] < rows[b]
  }

  ghost predicate From(rows: seq<nat>, from: nat) {
    forall a :: 0 <= a < |rows| ==> rows[a] >= from
  }

  lemma {:induction false} RowsRise(from: nat, step: nat, h: nat)
    requires step > 0
    ensures From(Rows(from, step, h), from) && Rising(Rows(from, step, h))
    decreases h - from
  {
    if from < h {
      RowsRise(from + step, step, h);
      RisingCons(from, Rows(from + step, step, h));
    }
  }

  lemma {:induction false} RisingCons(j: nat, rows: seq<nat>)
    requires Rising(rows) && From(rows, j + 1)
    ensures Rising([j] + rows) && From([j] + rows, j)
  {
    var all := [j] + rows;
    assert forall a :: 1 <= a < |all| ==> all[a] == rows[a - 1];
  }

  ghost predicate InPass(from: nat, step: nat, pass: nat) {
    match pass
    case 0 => step == 8 && from % 8 == 0
    case 1 => step == 8 && from % 8 == 4
    case 2 => step == 4 && from % 4 == 2
    case 3 => step == 2 && from % 2 == 1
    case _ => false
  }

  ghost predicate AllIn(rows: seq<nat>, pass: nat) {
    forall a :: 0 <= a < |rows| ==> Pass(rows[a]) == pass
  }

  lemma {:induction false} RowsOfPass(from: nat, step: nat, h: nat, pass: nat)
    requires InPass(from, step, pass)
    ensures var rows := Rows(from, step, h); PassByPass(rows) && AllIn(rows, pass)
  {
    RowsRise(from, step, h);
    RowsIn(from, step, h, pass);
  }

  lemma {:induction false} RowsIn(from: nat, step: nat, h: nat, pass: nat)
    requires InPass(from, step, pass)
    ensures AllIn(Rows(from, step, h), pass)
    decreases h - from
  {
    if from < h {
      StepIn(from, step, pass);
      RowsIn(from + step, step, h, pass);
      var rows, rest := Rows(from, step, h), Rows(from + step, step, h);
      assert forall a :: 1 <= a < |rows| ==> rows[a] == rest[a - 1];
    }
  }

  lemma {:induction false} StepIn(from: nat, step: nat, pass: nat)
    requires InPass(from, step, pass)
    ensures Pass(from) == pass && InPass(from + step, step, pass)
  {
  }

  lemma {:induction false} PassesConcat(a: seq<nat>, b: seq<nat>, pass: nat)
    requires PassByPass(a) && PassByPass(b)
    requires (forall i :: 0 <= i < |a| ==> Pass(a[i]) < pass) && (forall i :: 0 <= i < |b| ==> Pass(b[i]) >= pass)
    ensures PassByPass(a + b)
  {
  }

  /** The place of pixel (i, j) of the rectangle in rows of `width` pixels of four bytes. */
  lemma {:induction false} PositionIs(g: Rectangle, width: nat, i: nat, j: nat)
    ensures Position(FrameOf(g, width), (i, j)) == 4 * ((g.y + j) * width + (g.x + i))
  {
  }

  /** Each pixel of the rows occurs once. */
  lemma {:induction false} PixelsAre(w: nat, i: nat, rows: seq<nat>)
    requires i <= w && Distinct(rows)
    ensures Distinct(Pixels(w, i, rows))
    ensures forall p :: p in Pixels(w, i, rows) <==> Listed(w, i, rows, p)
    decreases |rows|, w - i
  {
    if rows != [] {
      if i < w {
        PixelsAre(w, i + 1, rows);
        DistinctConcat([(i, rows[0])], Pixels(w, i + 1, rows));
      } else {
        PixelsAre(w, 0, rows[1..]);
        assert rows == [rows[0]] + rows[1..];
      }
    }
  }

  ghost predicate Listed(w: nat, i: nat, rows: seq<nat>, p: (nat, nat)) {
    p.1 in rows && p.0 < w && (p.1 == rows[0] ==> p.0 >= i)
  }

  lemma {:induction false} PixelsSize(w: nat, i: nat, rows: seq<nat>)
    requires i <= w
    ensures |Pixels(w, i, rows)| == if rows == [] then 0 else w * |rows| - i
    decreases |rows|, w - i
  {
    if rows != [] {
      if i < w {
        PixelsSize(w, i + 1, rows);
      } else {
        PixelsSize(w, 0, rows[1..]);
        Pred(w, |rows|);
      }
    }
  }

  lemma {:induction false} Pred(w: nat, n: nat)
    requires n > 0
    ensures w * n - w == w * (n - 1)
  {
  }

  // ---------- the cursor ----------

  /** Column, row, step in rows, and passes still to come. */
  datatype Cursor = Cursor(i: nat, j: nat, s: nat, parse: nat)

  ghost predicate Shows(f: Frame, c: Cursor, r: Raster) {
    && r.cur_x == f.start_x + 4 * c.i && r.cur_y == f.start_y + f.line_size * c.j
    && r.step == f.line_size * c.s && r.parse == c.parse && c.s > 0
  }

  /** The rows of the passes to come. */
  function Later(parse: nat, h: nat): seq<nat>
    decreases parse, h
  {
    if parse == 0 then [] else Rows(Pow2(parse - 1), Pow2(parse), h) + Later(parse - 1, h)
  }

  /** The rows from the cursor on. */
  function Left(c: Cursor, h: nat): seq<nat>
    requires c.s > 0
  {
    Rows(c.j, c.s, h) + Later(c.parse, h)
  }

  lemma {:induction false} InRows(line: nat, j: nat, h: nat)
    requires line > 0
    ensures line * j >= line * h <==> j >= h
  {
    if j >= h {
      Mono(line, h, j);
    } else {
      Mono(line, j + 1, h);
    }
  }

  lemma {:induction false} Mono(line: nat, a: nat, b: nat)
    requires a <= b
    ensures line * a <= line * b
    decreases b - a
  {
    if a < b {
      Mono(line, a, b - 1);
    }
  }

  /** The loop at the end of a pass leads to the next row there is, and leaves the rows to come as they are. */
  lemma {:induction false} NextPassLeft(g: Rectangle, width: nat, c: Cursor, r: Raster) returns (c': Cursor)
    requires width > 0 && Shows(FrameOf(g, width), c, r)
    ensures Shows(FrameOf(g, width), c', NextPass(FrameOf(g, width), r)) && c'.i == c.i
    ensures Left(c', g.h) == Left(c, g.h) && (c'.j < g.h || c'.parse == 0)
    decreases c.parse
  {
    var f := FrameOf(g, width);
    c' := c;
    InRows(f.line_size, c.j, g.h);
    if c.j >= g.h && c.parse > 0 {
      var next := Cursor(c.i, Pow2(c.parse - 1), Pow2(c.parse), c.parse - 1);
      var step := Pow2(c.parse) * f.line_size;
      HalfStep(f.line_size, c.parse);
      c' := NextPassLeft(g, width, next, r.(step := step, cur_y := f.start_y + step / 2, parse := r.parse - 1));
    }
  }

  lemma {:induction false} HalfStep(line: nat, parse: nat)
    requires parse > 0
    ensures Pow2(parse) * line == line * Pow2(parse) && Pow2(parse) * line / 2 == line * Pow2(parse - 1)
    ensures Pow2(parse) > 0
  {
    var half := Pow2(parse - 1);
    assert Pow2(parse) == 2 * half;
    assert Pow2(parse) * line == 2 * (line * half);
  }

  /** Drawing goes to the next pixel of those to come. */
  lemma {:induction false} DrawOneMoves(g: Rectangle, width: nat, c: Cursor, r: Raster, b: Byte) returns (c': Cursor)
    requires width > 0 && Shows(FrameOf(g, width), c, r) && c.i < g.w && c.j < g.h
    ensures Shows(FrameOf(g, width), c', DrawOne(FrameOf(g, width), r, b)) && c'.i < g.w
    ensures Pixels(g.w, c.i, Left(c, g.h)) == [(c.i, c.j)] + Pixels(g.w, c'.i, Left(c', g.h))
    ensures c'.j < g.h || Left(c', g.h) == []
    ensures DrawOne(FrameOf(g, width), r, b).drawn == r.drawn + [(Position(FrameOf(g, width), (c.i, c.j)), b)]
  {
    var f := FrameOf(g, width);
    InRows(f.line_size, c.j, g.h);
    var drawn := r.drawn + [(r.cur_x + r.cur_y, b)];
    if c.i + 1 < g.w {
      c' := c.(i := c.i + 1);
    } else {
      c' := NextRow(g, width, c, r, drawn);
    }
  }

  /** From the last pixel of a row to the first of the next. */
  lemma {:induction false} NextRow(g: Rectangle, width: nat, c: Cursor, r: Raster, drawn: seq<(nat, Byte)>)
      returns (c': Cursor)
    requires width > 0 && Shows(FrameOf(g, width), c, r) && c.i + 1 == g.w && c.j < g.h
    ensures var f := FrameOf(g, width);
            var next := NextPass(f, r.(cur_x := f.start_x, cur_y := r.cur_y + r.step, drawn := drawn));
            Shows(f, c', next) && next.drawn == drawn
    ensures c'.i == 0 && Pixels(g.w, g.w, Left(c, g.h)) == Pixels(g.w, 0, Left(c', g.h))
    ensures c'.j < g.h || Left(c', g.h) == []
  {
    var f := FrameOf(g, width);
    var next, r' := c.(i := 0, j := c.j + c.s), r.(cur_x := f.start_x, cur_y := r.cur_y + r.step, drawn := drawn);
    StepDown(f, c, r, next, r');
    c' := NextPassLeft(g, width, next, r');
    NextPassKeeps(f, r');
    RowDone(g.w, c, next, g.h);
  }

  lemma {:induction false} StepDown(f: Frame, c: Cursor, r: Raster, c': Cursor, r': Raster)
    requires Shows(f, c, r) && c' == c.(i := 0, j := c.j + c.s)
    requires r'.cur_x == f.start_x && r'.cur_y == r.cur_y + r.step && r'.step == r.step && r'.parse == r.parse
    ensures Shows(f, c', r')
  {
    assert f.line_size * c.j + f.line_size * c.s == f.line_size * (c.j + c.s);
  }

  lemma {:induction false} RowDone(w: nat, c: Cursor, c': Cursor, h: nat)
    requires c.s > 0 && c.j < h && c' == c.(i := 0, j := c.j + c.s)
    ensures Pixels(w, w, Left(c, h)) == Pixels(w, 0, Left(c', h))
  {
    assert Left(c, h)[1..] == Left(c', h);
  }

  function Min(a: nat, b: nat): nat {
    if a < b then a else b
  }

  /** The cursor stands at the first of the pixels to come, or below the frame when there is none. */
  ghost predicate StandsAt(g: Rectangle, width: nat, c: Cursor, r: Raster, rest: seq<(nat, nat)>) {
    if rest == [] then r.cur_y >= FrameOf(g, width).max_y
    else Shows(FrameOf(g, width), c, r) && c.i < g.w && c.j < g.h && rest == Pixels(g.w, c.i, Left(c, g.h))
  }

  lemma {:induction false} AtStart(g: Rectangle, width: nat, interlaced: bool) returns (c: Cursor)
    requires g.w <= width
    ensures StandsAt(g, width, c, Start(g, width, interlaced), Pixels(g.w, 0, Order(interlaced, g.h)))
  {
    var f := FrameOf(g, width);
    c := Cursor(0, 0, if interlaced then 8 else 1, if interlaced then 3 else 0);
    OrderIs(interlaced, g.h);
    LeftIsOrder(interlaced, g.h);
    if g.w > 0 && g.h > 0 {
      Mono(f.line_size, 0, g.y);
      assert Order(interlaced, g.h) != [];
    } else if g.w == 0 {
      NoColumns(Order(interlaced, g.h));
    }
  }

  lemma {:induction false} NoColumns(rows: seq<nat>)
    ensures Pixels(0, 0, rows) == []
    decreases |rows|
  {
    if rows != [] {
      NoColumns(rows[1..]);
    }
  }

  lemma {:induction false} LeftIsOrder(interlaced: bool, h: nat)
    ensures Left(Cursor(0, 0, if interlaced then 8 else 1, if interlaced then 3 else 0), h) == Order(interlaced, h)
  {
    assert Pow2(0) == 1 && Pow2(1) == 2 && Pow2(2) == 4 && Pow2(3) == 8;
    assert Later(0, h) == [];
    assert Later(1, h) == Rows(1, 2, h);
    assert Later(2, h) == Rows(2, 4, h) + Later(1, h);
    assert Later(3, h) == Rows(4, 8, h) + Later(2, h);
  }

  lemma {:induction false} DrawOneStands(g: Rectangle, width: nat, c: Cursor, r: Raster, rest: seq<(nat, nat)>, b: Byte)
      returns (c': Cursor)
    requires g.w <= width && StandsAt(g, width, c, r, rest)
    ensures rest == [] ==> DrawOne(FrameOf(g, width), r, b) == r
    ensures rest != [] ==>
              && StandsAt(g, width, c', DrawOne(FrameOf(g, width), r, b), rest[1..])
              && DrawOne(FrameOf(g, width), r, b).drawn == r.drawn + [(Position(FrameOf(g, width), rest[0]), b)]
  {
    c' := c;
    if rest != [] {
      c' := DrawOneMoves(g, width, c, r, b);
      assert rest[1..] == Pixels(g.w, c'.i, Left(c', g.h));
      if rest[1..] == [] {
        assert c'.j >= g.h;
        InRows(FrameOf(g, width).line_size, c'.j, g.h);
      }
    }
  }

  /** Byte k is drawn at pixel k of the order promised, until there are no more. */
  lemma {:induction false} DrawnAt(g: Rectangle, width: nat, interlaced: bool, bytes: seq<Byte>) returns (c: Cursor)
    requires g.w <= width
    ensures var pixels, r := Pixels(g.w, 0, Order(interlaced, g.h)), DrawAll(FrameOf(g, width), Start(g, width, interlaced), bytes);
            && |r.drawn| == Min(|bytes|, |pixels|) && StandsAt(g, width, c, r, pixels[|r.drawn|..])
            && forall k :: 0 <= k < |r.drawn| ==> r.drawn[k] == (Position(FrameOf(g, width), pixels[k]), bytes[k])
    decreases |bytes|
  {
    var f, pixels := FrameOf(g, width), Pixels(g.w, 0, Order(interlaced, g.h));
    if bytes == [] {
      c := AtStart(g, width, interlaced);
      assert pixels[0..] == pixels;
    } else {
      var n := |bytes| - 1;
      c := DrawnAt(g, width, interlaced, bytes[..n]);
      var r := DrawAll(f, Start(g, width, interlaced), bytes[..n]);
      c := DrawOneStands(g, width, c, r, pixels[|r.drawn|..], bytes[n]);
    }
  }

  /** Pixels of the rectangle lie at different positions. */
  lemma {:induction false} Apart(g: Rectangle, width: nat, p: (nat, nat), q: (nat, nat))
    requires g.x + g.w <= width && p.0 < g.w && q.0 < g.w
    requires Position(FrameOf(g, width), p) == Position(FrameOf(g, width), q)
    ensures p == q
  {
    var f := FrameOf(g, width);
    OnePlace(f.line_size, f.start_x + 4 * p.0, p.1, f.start_x + 4 * q.0, q.1);
  }

  lemma {:induction false} OnePlace(line: nat, a: nat, j: nat, b: nat, k: nat)
    requires a < line && b < line && a + line * j == b + line * k
    ensures a == b && j == k
  {
    if j < k {
      Mono(line, j + 1, k);
    } else if k < j {
      Mono(line, k + 1, j);
    }
  }

  /** Some pixel was drawn there. */
  ghost predicate Covers(drawn: seq<(nat, Byte)>, position: nat) {
    exists k :: 0 <= k < |drawn| && drawn[k].0 == position
  }

  ghost predicate Inside(g: Rectangle, f: Frame, position: nat) {
    exists p: (nat, nat) :: p.0 < g.w && p.1 < g.h && position == Position(f, p)
  }

  /**
   Whatever the order, no pixel is drawn twice and nothing is drawn outside the rectangle; with enough bytes
   every pixel of it is drawn.
   */
  lemma {:induction false} EveryPixelOnce(g: Rectangle, width: nat, interlaced: bool, bytes: seq<Byte>)
    requires g.x + g.w <= width
    ensures var f := FrameOf(g, width);
            var drawn := DrawAll(f, Start(g, width, interlaced), bytes).drawn;
            && |drawn| == Min(|bytes|, g.w * g.h)
            && (forall k :: 0 <= k < |drawn| ==> Inside(g, f, drawn[k].0))
            && (forall k, l :: 0 <= k < l < |drawn| ==> drawn[k].0 != drawn[l].0)
            && (|bytes| >= g.w * g.h ==>
                  forall p: (nat, nat) :: p.0 < g.w && p.1 < g.h ==> Covers(drawn, Position(f, p)))
  {
    var f, pixels := FrameOf(g, width), Pixels(g.w, 0, Order(interlaced, g.h));
    var drawn := DrawAll(f, Start(g, width, interlaced), bytes).drawn;
    var _ := DrawnAt(g, width, interlaced, bytes);
    PixelCount(g, interlaced);
    forall k | 0 <= k < |drawn|
      ensures Inside(g, f, drawn[k].0)
    {
      assert pixels[k] in pixels;
    }
    forall k, l | 0 <= k < l < |drawn|
      ensures drawn[k].0 != drawn[l].0
    {
      Different(g, width, pixels, k, l);
    }
    if |drawn| == |pixels| {
      forall p: (nat, nat) | p.0 < g.w && p.1 < g.h
        ensures Covers(drawn, Position(f, p))
      {
        var k :| 0 <= k < |pixels| && pixels[k] == p;
        assert drawn[k].0 == Position(f, p);
      }
    }
  }

  lemma {:induction false} PixelCount(g: Rectangle, interlaced: bool)
    ensures var pixels := Pixels(g.w, 0, Order(interlaced, g.h));
            && |pixels| == g.w * g.h && Distinct(pixels)
            && forall p: (nat, nat) :: p in pixels <==> p.0 < g.w && p.1 < g.h
  {
    OrderIs(interlaced, g.h);
    PixelsAre(g.w, 0, Order(interlaced, g.h));
    PixelsSize(g.w, 0, Order(interlaced, g.h));
  }

  lemma {:induction false} Different(g: Rectangle, width: nat, pixels: seq<(nat, nat)>, k: nat, l: nat)
    requires g.x + g.w <= width && k < l < |pixels| && Distinct(pixels)
    requires forall p: (nat, nat) :: p in pixels ==> p.0 < g.w
    ensures Position(FrameOf(g, width), pixels[k]) != Position(FrameOf(g, width), pixels[l])
  {
    if Position(FrameOf(g, width), pixels[k]) == Position(FrameOf(g, width), pixels[l]) {
      Apart(g, width, pixels[k], pixels[l]);
    }
  }

  // ---------- a frame ----------

  /** What a frame's data, from its minimum code size on, expand to; none when the size is too large. */
  ghost function FrameOutcome(input: seq<Byte>, pos: nat): Outcome {
    var (cs, start) := FirstByte(input, pos);
    if cs > 12 then Outcome(false, []) else Decode(cs, StreamOf(Payload(input, start, 0)), 0, NotStarted(cs), [])
  }

  /** When the data are stored in blocks, what the blocks hold is decoded as one stream. */
  lemma {:induction false} FrameOfBlocks(input: seq<Byte>, pos: nat, cs: Byte, blocks: seq<seq<Byte>>)
    requires DataBlocks(blocks) && pos < |input| && input[pos] == cs && Stored(blocks) <= input[pos + 1..]
    ensures FrameOutcome(input, pos) == if cs > 12 then Outcome(false, [])
                                        else Decode(cs, StreamOf(Joined(blocks)), 0, NotStarted(cs), [])
  {
    PayloadOfBlocks(input, pos + 1, blocks);
  }

  /**
   One image of a GIF file of width by height pixels: refused when it does not lie inside the file's canvas or
   its data are illegal; otherwise byte k of the data is drawn at pixel k of the order promised.
   */
  method LoadImage(input: seq<Byte>, pos: nat, g: Rectangle, width: nat, height: nat, interlaced: bool)
      returns (ok: bool, drawn: seq<(nat, Byte)>)
    requires pos <= |input|
    ensures ok <==> g.x + g.w <= width && g.y + g.h <= height && FrameOutcome(input, pos).ok
    ensures ok ==>
              var pixels, bytes := Pixels(g.w, 0, Order(interlaced, g.h)), FrameOutcome(input, pos).bytes;
              && |drawn| == Min(|bytes|, |pixels|)
              && forall k :: 0 <= k < |drawn| ==> drawn[k] == (Position(FrameOf(g, width), pixels[k]), bytes[k])
  {
    if g.x + g.w > width || g.y + g.h > height {
      return false, [];
    }
    var r := Start(g, width, interlaced);
    var gif := new Gif(input, pos, FrameOf(g, width), r.cur_y, r.step, r.parse);
    ok := gif.ProcessGifRaster();
    drawn := gif.drawn;
    if ok {
      var _ := DrawnAt(g, width, interlaced, FrameOutcome(input, pos).bytes);
    }
  }
}
