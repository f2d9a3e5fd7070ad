/**
 The GIF raster decoder of stb_image.h: codes from a chain of data blocks, a code table linked through
 prefixes, and pixels drawn at a cursor that may interlace.
 */
module StbGif {
  import opened Bits
  import opened LsbBits
  import opened GifLzw

  // ---------- drawing ----------

  /** Where the frame lies, in bytes of the output. */
  datatype Frame = Frame(start_x: nat, start_y: nat, max_x: nat, max_y: nat, line_size: nat)

  /** The cursor, and the pixels drawn so far with their positions. */
  datatype Raster = Raster(cur_x: nat, cur_y: nat, step: nat, parse: nat, drawn: seq<(nat, Byte)>)

  /** The next interlacing pass, while the cursor is below the frame. */
  function NextPass(f: Frame, r: Raster): Raster
    decreases r.parse
  {
    if r.cur_y >= f.max_y && r.parse > 0 then
      var step := Pow2(r.parse) * f.line_size;
      NextPass(f, r.(step := step, cur_y := f.start_y + step / 2, parse := r.parse - 1))
    else r
  }

  /** Draws one pixel unless the frame is full. */
  function DrawOne(f: Frame, r: Raster, b: Byte): Raster {
    if r.cur_y >= f.max_y then r
    else
      var drawn := r.drawn + [(r.cur_x + r.cur_y, b)];
      if r.cur_x + 4 < f.max_x then r.(cur_x := r.cur_x + 4, drawn := drawn)
      else NextPass(f, r.(cur_x := f.start_x, cur_y := r.cur_y + r.step, drawn := drawn))
  }

  function DrawAll(f: Frame, r: Raster, bytes: seq<Byte>): Raster {
    if bytes == [] then r else DrawOne(f, DrawAll(f, r, bytes[..|bytes| - 1]), bytes[|bytes| - 1])
  }

  lemma {:induction false} DrawConcat(f: Frame, r: Raster, a: seq<Byte>, b: seq<Byte>)
    ensures DrawAll(f, r, a + b) == DrawAll(f, DrawAll(f, r, a), b)
    decreases |b|
  {
    if b == [] {
      assert a + b == a;
    } else {
      assert (a + b)[..|a + b| - 1] == a + b[..|b| - 1];
      DrawConcat(f, r, a, b[..|b| - 1]);
    }
  }

  /** The values of drawn pixels. */
  function Values(drawn: seq<(nat, Byte)>): (v: seq<Byte>)
    ensures |v| == |drawn|
  {
    if drawn == [] then [] else Values(drawn[..|drawn| - 1]) + [drawn[|drawn| - 1].1]
  }

  lemma {:induction false} NextPassKeeps(f: Frame, r: Raster)
    ensures NextPass(f, r).drawn == r.drawn
    decreases r.parse
  {
    if r.cur_y >= f.max_y && r.parse > 0 {
      var step := Pow2(r.parse) * f.line_size;
      NextPassKeeps(f, r.(step := step, cur_y := f.start_y + step / 2, parse := r.parse - 1));
    }
  }

  /** What is drawn is the bytes in order, as many as fit into the frame. */
  lemma {:induction false} DrawnInOrder(f: Frame, r: Raster, bytes: seq<Byte>) returns (k: nat)
    ensures k <= |bytes| && Values(DrawAll(f, r, bytes).drawn) == Values(r.drawn) + bytes[..k]
    ensures k < |bytes| ==> DrawAll(f, r, bytes).cur_y >= f.max_y
    decreases |bytes|
  {
    k := |bytes|;
    if bytes == [] {
      assert bytes[..k] == [];
    } else {
      var n := |bytes| - 1;
      var s := DrawAll(f, r, bytes[..n]);
      k := DrawnInOrder(f, r, bytes[..n]);
      if s.cur_y < f.max_y {
        k := |bytes|;
        DrawOneValue(f, s, bytes[n]);
        assert bytes[..n] + [bytes[n]] == bytes[..k];
        assert bytes[..n][..n] == bytes[..n];
      } else {
        assert bytes[..n][..k] == bytes[..k];
      }
    }
  }

  lemma {:induction false} DrawOneValue(f: Frame, r: Raster, b: Byte)
    requires r.cur_y < f.max_y
    ensures Values(DrawOne(f, r, b).drawn) == Values(r.drawn) + [b]
  {
    var drawn := r.drawn + [(r.cur_x + r.cur_y, b)];
    assert drawn[..|drawn| - 1] == r.drawn;
    NextPassKeeps(f, r.(cur_x := f.start_x, cur_y := r.cur_y + r.step, drawn := drawn));
  }

  // ---------- data blocks ----------

  /** The bytes still to come when `len` bytes of the current block are left: past the end of the input, zeros. */
  ghost function Payload(input: seq<Byte>, pos: nat, len: nat): seq<Byte>
    decreases |input| - pos, len
  {
    if len > 0 then
      if pos < |input| then [input[pos]] + Payload(input, pos + 1, len - 1) else [0] + Payload(input, pos, len - 1)
    else if pos >= |input| || input[pos] == 0 then []
    else Payload(input, pos + 1, input[pos])
  }

  /** Where the blocks end: after the first empty one. */
  function AfterBlocks(input: seq<Byte>, pos: nat, len: nat): nat
    requires pos <= |input|
    decreases |input| - pos, len
  {
    if len > 0 then AfterBlocks(input, if pos + len < |input| then pos + len else |input|, 0)
    else if pos >= |input| then pos
    else if input[pos] == 0 then pos + 1
    else AfterBlocks(input, pos + 1, input[pos])
  }

  /** Data blocks hold 1 to 255 bytes each. */
  predicate DataBlocks(blocks: seq<seq<Byte>>) {
    forall i :: 0 <= i < |blocks| ==> 1 <= |blocks[i]| <= 255
  }

  /** As GIF89a section 15 stores them: each after its length, and an empty one at the end. */
  function Stored(blocks: seq<seq<Byte>>): (s: seq<Byte>)
    requires DataBlocks(blocks)
  {
    if blocks == [] then [0] else [|blocks[0]|] + blocks[0] + Stored(blocks[1..])
  }

  function Joined(blocks: seq<seq<Byte>>): seq<Byte> {
    if blocks == [] then [] else blocks[0] + Joined(blocks[1..])
  }

  /** What is left of a block comes before the blocks after it. */
  lemma {:induction false} PayloadRun(input: seq<Byte>, pos: nat, len: nat)
    requires pos + len <= |input|
    ensures Payload(input, pos, len) == input[pos..pos + len] + Payload(input, pos + len, 0)
    decreases len
  {
    if len > 0 {
      PayloadRun(input, pos + 1, len - 1);
      assert input[pos..pos + len] == [input[pos]] + input[pos + 1..pos + len];
    }
  }

  /** One block, and those after it. */
  lemma {:induction false} PayloadStep(input: seq<Byte>, pos: nat, b: seq<Byte>, next: nat)
    requires 1 <= |b| && next == pos + 1 + |b| <= |input| && input[pos] == |b| && input[pos + 1..next] == b
    ensures Payload(input, pos, 0) == b + Payload(input, next, 0)
    ensures AfterBlocks(input, pos, 0) == AfterBlocks(input, next, 0)
  {
    PayloadRun(input, pos + 1, |b|);
  }

  /** The payload of stored blocks is what they hold, and they end after the empty one, whatever follows. */
  lemma {:induction false} PayloadOfBlocks(input: seq<Byte>, pos: nat, blocks: seq<seq<Byte>>)
    requires DataBlocks(blocks) && pos <= |input| && Stored(blocks) <= input[pos..]
    ensures Payload(input, pos, 0) == Joined(blocks)
    ensures AfterBlocks(input, pos, 0) == pos + |Stored(blocks)| <= |input|
    decreases |blocks|
  {
    if blocks == [] {
      assert input[pos..][0] == 0;
    } else {
      var next := pos + 1 + |blocks[0]|;
      BlockStands(input, pos, blocks[0], Stored(blocks[1..]));
      PayloadStep(input, pos, blocks[0], next);
      PayloadOfBlocks(input, next, blocks[1..]);
    }
  }

  lemma {:induction false} BlockStands(input: seq<Byte>, pos: nat, b: seq<Byte>, rest: seq<Byte>)
    requires pos <= |input| && |b| <= 255 && [|b|] + b + rest <= input[pos..]
    ensures pos + 1 + |b| <= |input| && input[pos] == |b| && input[pos + 1..pos + 1 + |b|] == b
    ensures rest <= input[pos + 1 + |b|..]
  {
    var t := input[pos..];
    assert t[0] == |b| && t[1..1 + |b|] == b && t[1 + |b|..] == input[pos + 1 + |b|..];
  }

  /** An entry of the code table: a shorter code, and first and last byte of the string. */
  datatype Entry = Entry(prefix: int, first: Byte, suffix: Byte)

  /** The entry spells string k of the table. */
  ghost predicate Builds(cs: nat, t: Table, k: nat, e: Entry)
    requires k < |t.dict|
  {
    && e.prefix < Clear(cs) + 2 + k && Defined(cs, t, e.prefix)
    && t.dict[k] == StringOf(cs, t, e.prefix) + [e.suffix] && [e.first] <= t.dict[k]
  }

  /** Entries keep spelling their strings when the next one is entered, and the new one spells its own. */
  lemma {:induction false} StillBuilds(cs: nat, t: Table, code: nat, k: nat, e: Entry)
    requires Sound(cs, t) && Obey(cs, t, code).Emit? && t.prev >= 0 && k <= |t.dict|
    requires k < |t.dict| ==> Builds(cs, t, k, e)
    requires k == |t.dict| ==> StringOf(cs, t, t.prev) != [] && Meaning(cs, t, code) != []
                               && e == Entry(t.prev, StringOf(cs, t, t.prev)[0], Meaning(cs, t, code)[0])
    ensures k < |Enter(cs, t, code).dict| && Builds(cs, Enter(cs, t, code), k, e)
  {
    var t' := Enter(cs, t, code);
    EnterSound(cs, t, code);
    OldStrings(cs, t, t'.dict[|t.dict|], e.prefix, code, t'.width);
  }

  class Gif {
    const input: seq<Byte>
    const frame: Frame
    const codes: array<Entry>
    var pos: nat
    var cur_x: nat
    var cur_y: nat
    var step: nat
    var parse: nat
    var drawn: seq<(nat, Byte)>

    constructor (input: seq<Byte>, pos: nat, frame: Frame, cur_y: nat, step: nat, parse: nat)
      requires pos <= |input|
      ensures this.input == input && this.pos == pos && this.frame == frame && codes.Length == LIMIT && fresh(codes)
      ensures View() == Raster(frame.start_x, cur_y, step, parse, [])
    {
      this.input, this.pos, this.frame := input, pos, frame;
      cur_x, this.cur_y, this.step, this.parse, drawn := frame.start_x, cur_y, step, parse, [];
      codes := new Entry[LIMIT](_ => Entry(-1, 0, 0));
    }

    function View(): Raster
      reads this`cur_x, this`cur_y, this`step, this`parse, this`drawn
    {
      Raster(cur_x, cur_y, step, parse, drawn)
    }

    /** Draws one pixel and advances the cursor. */
    method Draw(suffix: Byte)
      modifies this`cur_x, this`cur_y, this`step, this`parse, this`drawn
      ensures View() == DrawOne(frame, old(View()), suffix)
    {
      if cur_y >= frame.max_y {
        return;
      }
      drawn := drawn + [(cur_x + cur_y, suffix)];
      cur_x := cur_x + 4;
      if cur_x >= frame.max_x {
        cur_x := frame.start_x;
        cur_y := cur_y + step;
        ghost var r := View();
        while cur_y >= frame.max_y && parse > 0
          invariant NextPass(frame, r) == NextPass(frame, View())
          decreases parse
        {
          step := Pow2(parse) * frame.line_size;
          cur_y := frame.start_y + step / 2;
          parse := parse - 1;
        }
      }
    }

    /** Entry k of the table is built on an earlier code. */
    ghost predicate EntryFits(cs: nat, t: Table, k: nat)
      requires k < |t.dict| && codes.Length == LIMIT && Avail(cs, t) <= LIMIT
      reads codes
    {
      Builds(cs, t, k, codes[Clear(cs) + 2 + k])
    }

    ghost predicate RootFits(c: nat)
      requires c < codes.Length
      reads codes
    {
      codes[c] == Entry(-1, c % 256, c % 256)
    }

    /** The arrays hold the table. */
    ghost predicate Represents(cs: nat, t: Table)
      reads codes
    {
      && codes.Length == LIMIT && cs <= 12 && Avail(cs, t) <= LIMIT && Sound(cs, t)
      && (forall c :: 0 <= c < Clear(cs) ==> RootFits(c))
      && (forall k :: 0 <= k < |t.dict| ==> EntryFits(cs, t, k))
    }

    /** Draws the string of a code, its prefix first. */
    method OutGifCode(code: nat, ghost cs: nat, ghost t: Table)
      requires Represents(cs, t) && Defined(cs, t, code)
      modifies this`cur_x, this`cur_y, this`step, this`parse, this`drawn
      ensures View() == DrawAll(frame, old(View()), StringOf(cs, t, code))
      decreases code
    {
      ghost var s := StringOf(cs, t, code);
      ghost var r := View();
      if code >= Clear(cs) {
        assert EntryFits(cs, t, code - Clear(cs) - 2);
      } else {
        assert RootFits(code);
      }
      if codes[code].prefix >= 0 {
        OutGifCode(codes[code].prefix, cs, t);
      }
      assert s[..|s| - 1] == (if codes[code].prefix >= 0 then StringOf(cs, t, codes[code].prefix) else []);
      Draw(codes[code].suffix);
    }

    /** The first byte of the string of a code. */
    lemma {:induction false} FirstIs(code: nat, cs: nat, t: Table)
      requires Represents(cs, t) && Defined(cs, t, code)
      ensures StringOf(cs, t, code) != [] && codes[code].first == StringOf(cs, t, code)[0]
    {
      if code >= Clear(cs) {
        assert EntryFits(cs, t, code - Clear(cs) - 2);
      } else {
        assert RootFits(code);
      }
    }

    /** Enters the old string with the first byte of the new one. */
    method EnterCode(code: nat, oldcode: nat, avail: nat, ghost cs: nat, ghost t: Table)
      requires Represents(cs, t) && t.prev == oldcode && avail == Avail(cs, t) < LIMIT && Obey(cs, t, code).Emit?
      modifies codes
      ensures Represents(cs, Enter(cs, t, code))
    {
      FirstIs(oldcode, cs, t);
      if code < avail {
        FirstIs(code, cs, t);
      }
      EnterSound(cs, t, code);
      var first := codes[oldcode].first;
      codes[avail] := Entry(oldcode, first, first);
      codes[avail] := Entry(oldcode, first, if code == avail + 1 then first else codes[code].first);
      forall c | 0 <= c < Clear(cs)
        ensures RootFits(c)
      {
        assert old(RootFits(c));
      }
      forall k | 0 <= k < |t.dict| + 1
        ensures k < |Enter(cs, t, code).dict| && EntryFits(cs, Enter(cs, t, code), k)
      {
        assert k < |t.dict| ==> old(EntryFits(cs, t, k));
        StillBuilds(cs, t, code, k, codes[Clear(cs) + 2 + k]);
      }
    }

    // ---------- bits ----------

    /** The next byte, 0 past the end. */
    method Get8() returns (b: Byte)
      requires pos <= |input|
      modifies this`pos
      ensures pos == (if old(pos) < |input| then old(pos) + 1 else old(pos))
      ensures b == (if old(pos) < |input| then input[old(pos)] else 0)
    {
      b := 0;
      if pos < |input| {
        b := input[pos];
        pos := pos + 1;
      }
    }

    /** The next byte of the data; there is none after the last block. */
    method NextByte(len0: nat) returns (more: bool, len: nat, b: Byte)
      requires pos <= |input|
      modifies this`pos
      ensures pos <= |input|
      ensures if more then Payload(input, old(pos), len0) == [b] + Payload(input, pos, len)
              else Payload(input, old(pos), len0) == []
    {
      len, b := len0, 0;
      if len == 0 {
        len := Get8();
        if len == 0 {
          return false, 0, 0;
        }
      }
      len := len - 1;
      b := Get8();
      more := true;
    }

    /** Skips the rest of the block and all blocks after it. */
    method SkipBlocks(len0: nat)
      requires pos <= |input|
      modifies this`pos
      ensures pos <= |input| && pos == AfterBlocks(input, old(pos), len0)
    {
      pos := if pos + len0 < |input| then pos + len0 else |input|;
      var len := Get8();
      while len > 0
        invariant pos <= |input|
        invariant if len > 0 then AfterBlocks(input, old(pos), len0) == AfterBlocks(input, pos, len)
                  else AfterBlocks(input, old(pos), len0) == pos
        decreases |input| - pos, len
      {
        pos := if pos + len < |input| then pos + len else |input|;
        len := Get8();
      }
    }

    // ---------- codes ----------

    /** Enters and draws a code that is neither of the special ones; false when it is illegal. */
    method TakeCode(cs: nat, code: nat, m0: Machine, ghost t: Table) returns (ok: bool, m: Machine)
      requires Represents(cs, t) && Mirrors(cs, t, m0) && code != Clear(cs) && code != Clear(cs) + 1
      modifies this`cur_x, this`cur_y, this`step, this`parse, this`drawn, codes
      ensures ok <==> Obey(cs, t, code).Emit?
      ensures ok ==> var next := Obey(cs, t, code).next;
                Represents(cs, next) && Mirrors(cs, next, m)
                && View() == DrawAll(frame, old(View()), Obey(cs, t, code).bytes)
    {
      m := m0;
      if code > m.avail || m.first {
        return false, m;
      }
      if m.oldcode >= 0 {
        if m.avail + 1 > LIMIT {
          return false, m;
        }
        EnterSound(cs, t, code);
        EnterCode(code, m.oldcode, m.avail, cs, t);
        m := m.(avail := m.avail + 1);
      } else if code == m.avail {
        return false, m;
      } else {
        EnterFirst(cs, code, t);
      }
      ghost var next := Enter(cs, t, code);
      MeaningIsString(cs, t, code);
      OutGifCode(code, cs, next);
      if Low(m.avail, m.codesize) == 0 && m.avail <= 0x0FFF {
        m := m.(codesize := m.codesize + 1);
      }
      m := m.(oldcode := code);
      ok := true;
    }

    /** The first code after a clear code enters nothing. */
    lemma {:induction false} EnterFirst(cs: nat, code: nat, t: Table)
      requires Represents(cs, t) && Obey(cs, t, code).Emit? && t.prev < 0
      ensures Represents(cs, Enter(cs, t, code))
    {
      EnterSound(cs, t, code);
    }

    // ---------- the loop ----------

    /** The table before anything is read: one code for every byte that may occur. */
    method InitCodes(cs: nat)
      requires codes.Length == LIMIT && cs <= 12
      modifies codes
      ensures Represents(cs, NotStarted(cs))
    {
      ClearSmall(cs);
      for c := 0 to Clear(cs)
        invariant forall k :: 0 <= k < c ==> RootFits(k)
      {
        codes[c] := Entry(-1, c % 256, c % 256);
      }
    }

    /** The bit buffer holds the data from p on; the blocks hold what was not fetched. */
    ghost predicate Feeds(b: BitBuffer, payload: seq<Byte>, d: BitString, p: nat, fed: nat)
      reads this`pos
    {
      && pos <= |input| && Streams(payload, d) && fed <= |payload| && 8 * fed == p + b.valid_bits
      && b.bits == Field(d, p, b.valid_bits) && payload[fed..] == Payload(input, pos, b.len)
    }

    /** Fetches a byte; false at the end of the data. */
    method Fetch(b0: BitBuffer, ghost payload: seq<Byte>, ghost d: BitString, ghost p: nat, ghost fed: nat)
      returns (more: bool, b: BitBuffer)
      requires Feeds(b0, payload, d, p, fed)
      modifies this`pos
      ensures if more then fed < |payload| && b.valid_bits == b0.valid_bits + 8 && Feeds(b, payload, d, p, fed + 1)
              else fed == |payload|
    {
      var len, byte;
      more, len, byte := NextByte(b0.len);
      b := b0;
      if more {
        assert payload[fed] == payload[fed..][0] && payload[fed + 1..] == payload[fed..][1..];
        assert StreamsAt(payload, d, fed);
        FieldPush(d, p, b0.valid_bits, byte);
        b := BitBuffer(BitOr(b0.bits, Shl(byte, b0.valid_bits)), b0.valid_bits + 8, len);
      }
    }

    /** Reads w bits that are buffered. */
    method Take(b0: BitBuffer, w: nat, ghost payload: seq<Byte>, ghost d: BitString, ghost p: nat, ghost fed: nat)
      returns (code: nat, b: BitBuffer)
      requires Feeds(b0, payload, d, p, fed) && w <= b0.valid_bits
      ensures code == Field(d, p, w) && b.valid_bits == b0.valid_bits - w && Feeds(b, payload, d, p + w, fed)
    {
      FieldLow(d, p, b0.valid_bits, w);
      FieldShr(d, p, b0.valid_bits, w);
      code := Low(b0.bits, w);
      b := BitBuffer(Shr(b0.bits, w), b0.valid_bits - w, b0.len);
    }

    /** Acts on one code; `done` ends the loop with result `ok`. */
    method Act(cs: nat, code: nat, len: nat, m0: Machine, ghost t: Table) returns (done: bool, ok: bool, m: Machine)
      requires Represents(cs, t) && Mirrors(cs, t, m0) && pos <= |input|
      modifies this, codes
      ensures pos <= |input| && (!done ==> pos == old(pos))
      ensures match Obey(cs, t, code)
              case Restart => !done && Represents(cs, Empty(cs)) && Mirrors(cs, Empty(cs), m) && View() == old(View())
              case Stop => done && ok && View() == old(View()) && pos == AfterBlocks(input, old(pos), len)
              case Bad => done && !ok
              case Emit(bytes, next) =>
                !done && Represents(cs, next) && Mirrors(cs, next, m) && View() == DrawAll(frame, old(View()), bytes)
    {
      m, done, ok := m0, false, true;
      if code == Clear(cs) {
        m := Machine(cs + 1, Clear(cs) + 2, -1, false);
        EmptyRepresented(cs, t);
      } else if code == Clear(cs) + 1 {
        SkipBlocks(len);
        done := true;
      } else {
        ok, m := TakeCode(cs, code, m0, t);
        done := !ok;
      }
    }

    lemma {:induction false} EmptyRepresented(cs: nat, t: Table)
      requires Represents(cs, t)
      ensures Represents(cs, Empty(cs))
    {
    }

    /** The whole raster: minimum code size, then the data blocks. */
    method ProcessGifRaster() returns (ok: bool)
      requires codes.Length == LIMIT && pos <= |input|
      modifies this, codes
      ensures var (cs, start) := FirstByte(input, old(pos));
              if cs > 12 then !ok
              else
                var o := Decode(cs, StreamOf(Payload(input, start, 0)), 0, NotStarted(cs), []);
                ok == o.ok && (ok ==> View() == DrawAll(frame, old(View()), o.bytes))
    {
      var cs := Get8();
      if cs > 12 {
        return false;
      }
      ghost var payload := Payload(input, pos, 0);
      StreamStreams(payload);
      InitCodes(cs);
      ok := DecodeBlocks(cs, payload);
    }

    /** The result of a whole run. */
    ghost predicate Ends(r: Run, ok: bool)
      reads this`cur_x, this`cur_y, this`step, this`parse, this`drawn
    {
      ok == r.expected.ok && (ok ==> View() == DrawAll(frame, r.start, r.expected.bytes))
    }

    /** What has been read and drawn, and what is still to come. */
    ghost predicate Running(cs: nat, b: BitBuffer, m: Machine, r: Run)
      reads this, codes
    {
      && Feeds(b, r.payload, r.d, r.p, r.fed) && Represents(cs, r.t) && Mirrors(cs, r.t, m) && m.codesize >= 1
      && Decode(cs, r.d, r.p, r.t, r.out) == r.expected && View() == DrawAll(frame, r.start, r.out)
    }

    method DecodeBlocks(cs: nat, ghost payload: seq<Byte>) returns (ok: bool)
      requires pos <= |input| && Represents(cs, NotStarted(cs))
      requires payload == Payload(input, pos, 0) && Streams(payload, StreamOf(payload))
      modifies this, codes
      ensures var o := Decode(cs, StreamOf(payload), 0, NotStarted(cs), []);
              ok == o.ok && (ok ==> View() == DrawAll(frame, old(View()), o.bytes))
    {
      ghost var d, t := StreamOf(payload), NotStarted(cs);
      ghost var r := Run(payload, d, 0, 0, t, [], View(), Decode(cs, d, 0, t, []));
      var m, b := Machine(cs + 1, Clear(cs) + 2, -1, true), BitBuffer(0, 0, 0);
      assert payload[0..] == payload;
      ok := Loop(cs, b, m, r);
    }

    method Loop(cs: nat, b0: BitBuffer, m0: Machine, ghost r0: Run) returns (ok: bool)
      requires Running(cs, b0, m0, r0)
      modifies this, codes
      ensures Ends(r0, ok)
    {
      var b, m := b0, m0;
      ghost var r := r0;
      while true
        invariant Running(cs, b, m, r) && r.expected == r0.expected && r.start == r0.start && r.payload == r0.payload
        decreases |r.payload| - r.fed, b.valid_bits
      {
        var done;
        if b.valid_bits < m.codesize {
          done, b, r := OneByte(cs, b, m, r);
          ok := true;
        } else {
          done, ok, b, m, r := OneCode(cs, b, m, r);
        }
        if done {
          return;
        }
      }
    }

    /** Fetches one byte; at the end of the data the run ends. */
    method OneByte(cs: nat, b0: BitBuffer, m: Machine, ghost r0: Run) returns (done: bool, b: BitBuffer, ghost r: Run)
      requires Running(cs, b0, m, r0) && b0.valid_bits < m.codesize
      modifies this`pos
      ensures r == if done then r0 else r0.(fed := r0.fed + 1)
      ensures if done then Ends(r0, true) else Running(cs, b, m, r) && r0.fed < |r0.payload|
    {
      var more;
      more, b := Fetch(b0, r0.payload, r0.d, r0.p, r0.fed);
      done, r := !more, r0;
      if more {
        r := r0.(fed := r0.fed + 1);
      }
    }

    /** Reads one code and acts on it. */
    method OneCode(cs: nat, b0: BitBuffer, m0: Machine, ghost r0: Run)
      returns (done: bool, ok: bool, b: BitBuffer, m: Machine, ghost r: Run)
      requires Running(cs, b0, m0, r0) && m0.codesize <= b0.valid_bits
      modifies this, codes
      ensures r.expected == r0.expected && r.start == r0.start && r.payload == r0.payload && r.fed == r0.fed
      ensures if done then Ends(r0, ok) else Running(cs, b, m, r) && b.valid_bits < b0.valid_bits
    {
      var code;
      code, b := Take(b0, m0.codesize, r0.payload, r0.d, r0.p, r0.fed);
      ghost var step := Obey(cs, r0.t, code);
      DecodeStep(cs, r0.d, r0.p, r0.t, r0.out, code);
      done, ok, m := Act(cs, code, b.len, m0, r0.t);
      r := r0.(p := r0.p + m0.codesize, t := Empty(cs));
      if step.Emit? {
        DrawConcat(frame, r0.start, r0.out, step.bytes);
        r := r.(t := step.next, out := r0.out + step.bytes);
      }
    }
  }

  /** A run of the decoding loop: the data, how far they are read, and the outcome to be reached. */
  datatype Run = Run(payload: seq<Byte>, d: BitString, p: nat, fed: nat, t: Table, out: seq<Byte>, start: Raster,
                     expected: Outcome)

  lemma {:induction false} DecodeStep(cs: nat, d: BitString, p: nat, t: Table, out: seq<Byte>, code: nat)
    requires t.width >= 1 && p + t.width <= |d| && code == Field(d, p, t.width)
    ensures Decode(cs, d, p, t, out) == match Obey(cs, t, code)
              case Restart => Decode(cs, d, p + t.width, Empty(cs), out)
              case Stop => Outcome(true, out)
              case Bad => Outcome(false, out)
              case Emit(bytes, next) => Decode(cs, d, p + t.width, next, out + bytes)
  {
  }

  /** The buffered bits, how many there are, and how many bytes of the block are left. */
  datatype BitBuffer = BitBuffer(bits: nat, valid_bits: nat, len: nat)

  /** A byte, 0 past the end, and the position after it. */
  function FirstByte(input: seq<Byte>, pos: nat): (Byte, nat) {
    if pos < |input| then (input[pos], pos + 1) else (0, pos)
  }

  lemma {:induction false} ClearSmall(cs: nat)
    requires cs <= 12
    ensures Clear(cs) <= 4096
  {
    Pow2Mono(cs, 12);
    TwelveBits();
  }

  /** The variables of the decoding loop. */
  datatype Machine = Machine(codesize: nat, avail: nat, oldcode: int, first: bool)

  /** They are those of the table. */
  ghost predicate Mirrors(cs: nat, t: Table, m: Machine) {
    && m.codesize == t.width && m.avail == Avail(cs, t) && (m.first <==> t.prev == -2)
    && m.oldcode == (if t.prev < 0 then -1 else t.prev) && t.prev >= -2
  }
}
