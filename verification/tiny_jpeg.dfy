/**
 The entropy coder of tiny_jpeg.h: Huffman table expansion, variable-length integers, the bit
 stack with byte stuffing, the buffered byte sink and the coefficient part of an MCU.
 Every method is proved to append the bits that the functions of this module describe.
 */
module TinyJpeg {
  import opened Bits
  import opened Canonical
  import ZigZag

  const BUFFER_SIZE := 1024

  // ---------- Huffman tables ----------

  /** Writes the code length of every symbol, then a 0 terminator (T.81 figure C.1). */
  method GetCodeLengths(huffsize: array<nat>, bits: seq<nat>)
    requires |bits| == 16 && |SizesOf(bits)| <= 256 && huffsize.Length == 257
    modifies huffsize
    ensures Lengths(huffsize, SizesOf(bits))
  {
    var k := 0;
    for i := 0 to 16
      invariant k == |SizesOf(bits[..i])| <= 256
      invariant huffsize[..k] == SizesOf(bits[..i])
      invariant i > 0 ==> huffsize[k] == 0
    {
      assert bits[..i + 1][..i] == bits[..i];
      SizesOfPrefix(bits, i + 1);
      k := PutLengths(huffsize, k, i + 1, bits[i]);
    }
    assert bits[..16] == bits;
    assert forall i :: 0 <= i < k ==> huffsize[i] == huffsize[..k][i];
  }

  /** Writes n times the same length, and a 0 after them. */
  method PutLengths(huffsize: array<nat>, k0: nat, length: nat, n: nat) returns (k: nat)
    requires k0 + n < huffsize.Length
    modifies huffsize
    ensures k == k0 + n && huffsize[..k] == old(huffsize[..k0]) + Repeat(length, n) && huffsize[k] == 0
  {
    k := k0;
    for j := 0 to n
      invariant k == k0 + j
      invariant huffsize[..k] == old(huffsize[..k0]) + Repeat(length, j)
    {
      huffsize[k] := length;
      k := k + 1;
    }
    huffsize[k] := 0;
  }

  /** The zero-terminated list of code lengths in the array. */
  ghost predicate Lengths(huffsize: array<nat>, s: seq<nat>)
    reads huffsize
  {
    && huffsize.Length == 257 && |s| <= 256 && huffsize[|s|] == 0
    && forall i :: 0 <= i < |s| ==> huffsize[i] == s[i]
  }

  lemma {:induction false} LengthsEnd(huffsize: array<nat>, s: seq<nat>, k: nat)
    requires Ordered(s) && Lengths(huffsize, s) && k <= |s|
    ensures huffsize[k] == 0 <==> k == |s|
  {
    if k < |s| {
      OrderedAt(s, k);
    }
  }

  ghost predicate CodesUpTo(codes: array<nat>, s: seq<nat>, k: nat)
    reads codes
  {
    k <= |s| <= codes.Length && forall i :: 0 <= i < k ==> codes[i] == Code(s, i)
  }

  /** Assigns the codes (T.81 figure C.2); `code` is sixteen bits wide. */
  method GetCodes(codes: array<nat>, huffsize: array<nat>, ghost s: seq<nat>)
    requires Fits(s) && s != [] && codes.Length == 256 && codes != huffsize && Lengths(huffsize, s)
    modifies codes
    ensures CodesUpTo(codes, s, |s|)
  {
    var code, k, sz := 0, 0, huffsize[0];
    while true
      invariant 0 <= k < |s| && sz == s[k] && code == Code(s, k)
      invariant CodesUpTo(codes, s, k) && Lengths(huffsize, s)
      decreases |s| - k
    {
      ghost var k0 := k;
      OrderedAt(s, k);
      codes[k] := code;
      k, code := k + 1, (code + 1) % 0x1_0000;
      while huffsize[k] == sz
        invariant k0 < k <= |s| && s[k - 1] == sz >= 1 && code == (Code(s, k - 1) + 1) % 0x1_0000
        invariant CodesUpTo(codes, s, k) && Lengths(huffsize, s)
        decreases |s| - k
      {
        LengthsEnd(huffsize, s, k);
        CodeSmall(s, k);
        codes[k] := code;
        k, code := k + 1, (code + 1) % 0x1_0000;
      }
      LengthsEnd(huffsize, s, k);
      if huffsize[k] == 0 {
        return;
      }
      CodeSmall(s, k);
      ShlMono(code, 1, s[k] - sz);
      code, sz := ShiftCode(code, sz, huffsize[k]);
    }
  }

  /** Shifts a zero into the code for every step up to the next length in use. */
  method ShiftCode(code0: nat, sz0: nat, next: nat) returns (code: nat, sz: nat)
    requires sz0 < next && Shl(code0, next - sz0) < 0x1_0000
    ensures sz == next && code == Shl(code0, next - sz0)
  {
    ShlMono(code0, 1, next - sz0);
    code, sz := code0 * 2 % 0x1_0000, sz0 + 1;
    while next != sz
      invariant sz0 < sz <= next && code == Shl(code0, sz - sz0)
    {
      ShlMono(code0, sz + 1 - sz0, next - sz0);
      code, sz := code * 2 % 0x1_0000, sz + 1;
    }
  }

  lemma {:induction false} CodeSmall(s: seq<nat>, k: nat)
    requires Fits(s) && k < |s|
    ensures Code(s, k) < 0x1_0000
    ensures k > 0 ==> s[k - 1] <= s[k]
    ensures k > 0 ==> Code(s, k - 1) + 1 < 0x1_0000
    ensures k > 0 ==> Code(s, k) == Shl(Code(s, k - 1) + 1, s[k] - s[k - 1])
  {
    CodeSpan(s, k);
    OrderedAt(s, k);
    Pow2Values();
    if k > 0 {
      ShlMono(Code(s, k - 1) + 1, 0, s[k] - s[k - 1]);
    }
  }

  /** Codes and code lengths by symbol value. */
  datatype Table = Table(size: seq<nat>, code: seq<nat>)

  /** Each listed symbol has the code of a position that lists it. */
  ghost predicate Assigns(t: Table, s: seq<nat>, vals: seq<Byte>) {
    && Fits(s) && |vals| == |s|
    && |t.size| == 257 && |t.code| == 256
    && forall v :: v in vals ==> exists k :: 0 <= k < |s| && AssignsAt(t, s, vals, v, k)
  }

  ghost predicate AssignsAt(t: Table, s: seq<nat>, vals: seq<Byte>, v: Byte, k: nat)
    requires |vals| == |s| && |t.size| == 257 && |t.code| == 256 && k < |s|
  {
    vals[k] == v && t.size[v] == s[k] && t.code[v] == Code(s, k)
  }

  /** The last of the first n positions that lists v, or -1. */
  function LastIndex(vals: seq<Byte>, n: nat, v: Byte): (k: int)
    requires n <= |vals|
    ensures -1 <= k < n
    ensures k >= 0 ==> vals[k] == v
    ensures k < 0 ==> v !in vals[..n]
  {
    if n == 0 then -1 else if vals[n - 1] == v then n - 1 else LastIndex(vals, n - 1, v)
  }

  /** Reorders the codes by symbol value (T.81 figure C.3). */
  method GetExtended(ehuffsize: array<nat>, ehuffcode: array<nat>, huffval: seq<Byte>,
                     huffsize: array<nat>, huffcode: array<nat>, count: nat)
    requires ehuffsize.Length == 257 && ehuffcode.Length == 256
    requires huffsize.Length == 257 && huffcode.Length == 256
    requires ehuffsize != huffsize && ehuffsize != ehuffcode && ehuffcode != huffcode
    requires ehuffcode != huffsize && ehuffsize != huffcode
    requires 1 <= count == |huffval| <= 256
    modifies ehuffsize, ehuffcode
    ensures forall v: Byte :: var k := LastIndex(huffval, count, v);
              && ehuffsize[v] == (if k < 0 then old(ehuffsize[v]) else huffsize[k])
              && ehuffcode[v] == (if k < 0 then old(ehuffcode[v]) else huffcode[k])
  {
    var k := 0;
    while k < count
      invariant 0 <= k <= count
      invariant forall v: Byte :: var i := LastIndex(huffval, k, v);
                  && ehuffsize[v] == (if i < 0 then old(ehuffsize[v]) else huffsize[i])
                  && ehuffcode[v] == (if i < 0 then old(ehuffcode[v]) else huffcode[i])
    {
      var val := huffval[k];
      ehuffcode[val] := huffcode[k];
      ehuffsize[val] := huffsize[k];
      k := k + 1;
    }
  }

  /** One table of the expansion done before encoding: code lengths, codes, reordering. */
  method HuffExpand(bits: seq<nat>, vals: seq<Byte>, ehuffsize: array<nat>, ehuffcode: array<nat>)
    requires |bits| == 16 && Fits(SizesOf(bits)) && 1 <= |SizesOf(bits)| == |vals| <= 256
    requires ehuffsize.Length == 257 && ehuffcode.Length == 256 && ehuffsize != ehuffcode
    modifies ehuffsize, ehuffcode
    ensures Assigns(Table(ehuffsize[..], ehuffcode[..]), SizesOf(bits), vals)
    ensures forall v: Byte :: v !in vals ==> ehuffsize[v] == old(ehuffsize[v]) && ehuffcode[v] == old(ehuffcode[v])
  {
    ghost var s := SizesOf(bits);
    var huffsize := new nat[257];
    var huffcode := new nat[256];
    GetCodeLengths(huffsize, bits);
    GetCodes(huffcode, huffsize, s);
    GetExtended(ehuffsize, ehuffcode, vals, huffsize, huffcode, |vals|);
    assert vals[..|vals|] == vals;
    ghost var t := Table(ehuffsize[..], ehuffcode[..]);
    forall v | v in vals
      ensures exists k :: 0 <= k < |s| && AssignsAt(t, s, vals, v, k)
    {
      assert AssignsAt(t, s, vals, v, LastIndex(vals, |vals|, v));
    }
  }

  // ---------- variable-length integers ----------

  /** Number of bits of a, at least 1. */
  function BitLen(a: nat): (n: nat)
    ensures n >= 1 && a < Pow2(n) && (a > 0 ==> Pow2(n - 1) <= a)
  {
    if a < 2 then 1 else 1 + BitLen(a / 2)
  }

  function Abs(v: int): nat {
    if v < 0 then -v else v
  }

  /** T.81 section F.1.2.1: the low-order bits of the value, or of the value less one if negative. */
  function VliBits(v: int): (b: nat)
    ensures b < Pow2(BitLen(Abs(v)))
  {
    if v < 0 then Pow2(BitLen(Abs(v))) + v - 1 else v
  }

  /** Masking a negative number keeps the low bits of its two's complement. */
  lemma {:induction false} VliMask(v: int)
    ensures (if v < 0 then v - 1 else v) % Pow2(BitLen(Abs(v))) == VliBits(v)
  {
    var d := Pow2(BitLen(Abs(v)));
    DivModUnique(if v < 0 then v - 1 else v, if v < 0 then -1 else 0, d, VliBits(v));
  }

  /** Sixteen bits lose nothing of a value of sixteen bits. */
  lemma {:induction false} VliShort(v: int)
    requires Abs(v) < 0x1_0000
    ensures BitLen(Abs(v)) <= 16 && VliBits(v) % 0x1_0000 == VliBits(v) < Pow2(BitLen(Abs(v)))
  {
    Pow2Values();
    BitLenBound(Abs(v), 16);
    Pow2Mono(BitLen(Abs(v)), 16);
  }

  method CalculateVariableLengthInt(value: int) returns (bits: nat, size: nat)
    requires Abs(value) < 0x4000_0000
    ensures size == BitLen(Abs(value)) && bits == VliBits(value) % 0x1_0000
    ensures Abs(value) < 0x1_0000 ==> size <= 16 && bits == VliBits(value) < Pow2(size)
  {
    var abs, val := value, value;
    if value < 0 {
      abs, val := -abs, val - 1;
    }
    size := 1;
    while abs / 2 != 0
      invariant abs >= 0 && size - 1 + BitLen(abs) == BitLen(Abs(value))
      decreases abs
    {
      abs, size := abs / 2, size + 1;
    }
    VliMask(value);
    if Abs(value) < 0x1_0000 {
      VliShort(value);
    }
    bits := val % Pow2(size) % 0x1_0000;
  }

  lemma {:induction false} BitLenBound(a: nat, n: nat)
    requires 1 <= n && a < Pow2(n)
    ensures BitLen(a) <= n
  {
    if a >= 2 {
      BitLenBound(a / 2, n - 1);
    }
  }

  // ---------- byte stuffing ----------

  /** A zero byte follows every 0xFF, so that no marker appears (T.81 section F.1.2.3). */
  function Stuff(bytes: seq<Byte>): seq<Byte> {
    if bytes == [] then []
    else (if bytes[0] == 0xFF then [0xFF, 0x00] else [bytes[0]]) + Stuff(bytes[1..])
  }

  lemma {:induction false} StuffConcat(a: seq<Byte>, b: seq<Byte>)
    ensures Stuff(a + b) == Stuff(a) + Stuff(b)
  {
    if a == [] {
      assert a + b == b;
    } else {
      assert (a + b)[1..] == a[1..] + b;
      StuffConcat(a[1..], b);
    }
  }

  // ---------- the writer ----------

  /** The output buffer and callback of TJEState with the bit stack of the encoding loop. */
  class Writer {
    const output_buffer: array<Byte>
    var output_buffer_count: nat
    /** What the write callback has received so far. */
    var received: seq<Byte>
    var bitbuffer: nat
    var location: nat
    /** Bytes written before the entropy-coded segment. */
    ghost var header: seq<Byte>
    /** Every bit pushed on the stack, and the whole bytes already taken from it. */
    ghost var pushed: BitString
    ghost var popped: seq<Byte>

    constructor ()
      ensures Valid() && fresh(output_buffer)
      ensures Emitted() == [] && pushed == []
    {
      RegisterEmpty();
      output_buffer := new Byte[BUFFER_SIZE](_ => 0);
      output_buffer_count, received, bitbuffer, location := 0, [], 0, 0;
      header, pushed, popped := [], [], [];
    }

    /** Everything written so far: delivered to the callback or still buffered. */
    ghost function Emitted(): seq<Byte>
      requires output_buffer_count <= output_buffer.Length
      reads this, output_buffer
    {
      received + output_buffer[..output_buffer_count]
    }

    ghost predicate Buffered()
      reads this
    {
      output_buffer.Length == BUFFER_SIZE && output_buffer_count < BUFFER_SIZE - 1
    }

    /** Whole bytes taken from the stack were written stuffed; the other bits are on the stack. */
    ghost predicate Stacked()
      reads this, output_buffer
    {
      Buffered() && Emitted() == header + Stuff(popped) && Stack(bitbuffer, location, pushed, popped)
    }

    ghost predicate Valid()
      reads this, output_buffer
    {
      Stacked() && location < 8
    }

    /** Copies what fits, flushes a full buffer, continues with the rest. */
    method Write(data: seq<Byte>)
      requires Buffered()
      modifies this`output_buffer_count, this`received, output_buffer
      ensures Buffered() && Emitted() == old(Emitted()) + data
      decreases |data|
    {
      var room := BUFFER_SIZE - 1 - output_buffer_count;
      var capped := if |data| < room then |data| else room;
      forall i | 0 <= i < capped {
        output_buffer[output_buffer_count + i] := data[i];
      }
      output_buffer_count := output_buffer_count + capped;
      assert Emitted() == old(Emitted()) + data[..capped];
      if output_buffer_count == BUFFER_SIZE - 1 {
        received := received + output_buffer[..output_buffer_count];
        output_buffer_count := 0;
      }
      if capped < |data| {
        Write(data[capped..]);
        assert data[..capped] + data[capped..] == data;
      }
    }

    /** Starts an entropy-coded segment after the bytes written so far. */
    method Begin()
      requires Buffered()
      modifies this
      ensures Valid() && pushed == [] && popped == [] && header == Emitted() == old(Emitted())
    {
      RegisterEmpty();
      bitbuffer, location := 0, 0;
      header, pushed, popped := Emitted(), [], [];
    }

    /** Pushes the bits and writes every byte they complete. */
    method WriteBits(num_bits: nat, bits: nat)
      requires Valid() && 1 <= num_bits <= 16 && bits < Pow2(num_bits)
      modifies this, output_buffer
      ensures Valid() && header == old(header) && pushed == old(pushed) + FromVal(bits, num_bits)
    {
      var nloc := location + num_bits;
      PushStep(bitbuffer, location, pushed, popped, bits, num_bits);
      bitbuffer := BitOr(bitbuffer, Shl(bits, 32 - nloc));
      location := nloc;
      pushed := pushed + FromVal(bits, num_bits);
      while location >= 8
        invariant Stacked() && location <= 23
        invariant pushed == old(pushed) + FromVal(bits, num_bits) && header == old(header)
        decreases location
      {
        PopByte();
      }
    }

    /** Writes a byte of entropy-coded data. */
    method WriteStuffed(c: Byte)
      requires Buffered()
      modifies this`output_buffer_count, this`received, output_buffer
      ensures Buffered() && Emitted() == old(Emitted()) + (if c == 0xFF then [0xFF, 0x00] else [c])
    {
      Write([c]);
      if c == 0xFF {
        Write([0x00]);
      }
    }

    /** Takes the top byte off the stack and writes it, stuffed. */
    method PopByte()
      requires Stacked() && 8 <= location
      modifies this`output_buffer_count, this`received, this`bitbuffer, this`location, this`popped, output_buffer
      ensures Stacked() && location == old(location) - 8
    {
      PopStep(bitbuffer, location, pushed, popped);
      var c := Shr(bitbuffer, 24) % 256;
      WriteStuffed(c);
      bitbuffer := Shl(bitbuffer, 8) % 0x1_0000_0000;
      location := location - 8;
      popped := popped + [c];
    }
  }

  /** Pushed bits are first in whole popped bytes, then at the top of the register. */
  ghost predicate Stack(reg: nat, location: nat, pushed: BitString, popped: seq<Byte>) {
    && |pushed| == 8 * |popped| + location
    && BitsOf(popped) == pushed[..8 * |popped|]
    && Register(reg, pushed[8 * |popped|..])
  }

  lemma {:induction false} PushStep(reg: nat, location: nat, pushed: BitString, popped: seq<Byte>, v: nat, n: nat)
    requires Stack(reg, location, pushed, popped) && location + n <= 32 && v < Pow2(n)
    ensures Stack(BitOr(reg, Shl(v, 32 - location - n)), location + n, pushed + FromVal(v, n), popped)
  {
    var m := 8 * |popped|;
    RegisterPush(reg, pushed[m..], v, n);
    assert (pushed + FromVal(v, n))[m..] == pushed[m..] + FromVal(v, n);
    assert (pushed + FromVal(v, n))[..m] == pushed[..m];
  }

  lemma {:induction false} PopStep(reg: nat, location: nat, pushed: BitString, popped: seq<Byte>)
    requires Stack(reg, location, pushed, popped) && location >= 8
    ensures Shr(reg, 24) < 256
    ensures Stack(Shl(reg, 8) % 0x1_0000_0000, location - 8, pushed, popped + [Shr(reg, 24)])
    ensures Stuff(popped + [Shr(reg, 24)])
         == Stuff(popped) + (if Shr(reg, 24) == 0xFF then [0xFF, 0x00] else [Shr(reg, 24)])
  {
    var m := 8 * |popped|;
    RegisterPop(reg, pushed[m..]);
    BitsOfConcat(popped, [Shr(reg, 24)]);
    StuffConcat(popped, [Shr(reg, 24)]);
    assert pushed[m..][8..] == pushed[m + 8..];
    assert pushed[..m] + pushed[m..][..8] == pushed[..m + 8];
  }

  // ---------- one data unit ----------

  ghost predicate Known(t: Table, v: int) {
    && |t.size| == 257 && |t.code| == 256 && 0 <= v < 256
    && 1 <= t.size[v] <= 16 && t.code[v] < Pow2(t.size[v])
  }

  /** The code of symbol v, then the rest. */
  ghost function Symbol(t: Table, v: int, rest: Pieces): Pieces {
    if Known(t, v) then Piece(t.code[v], t.size[v], rest) else rest
  }

  /** The variable-length code of v, then the rest. */
  ghost function Vli(v: int, rest: Pieces): Pieces {
    Piece(VliBits(v), BitLen(Abs(v)), rest)
  }

  /** Every DC size category from 0 to 11 has a code. */
  ghost predicate KnowsDc(t: Table) {
    forall v :: 0 <= v <= 11 ==> Known(t, v)
  }

  /** End of block, sixteen zeros, and every run with every size from 1 to 10. */
  predicate AcSymbol(v: int) {
    v == 0 || v == 0xF0 || (0 <= v < 256 && 1 <= v % 16 <= 10)
  }

  ghost predicate KnowsAc(t: Table) {
    forall v :: AcSymbol(v) ==> Known(t, v)
  }

  ghost function DcPieces(t: Table, diff: int, rest: Pieces): Pieces {
    if diff == 0 then Symbol(t, 0, rest) else Symbol(t, BitLen(Abs(diff)), Vli(diff, rest))
  }

  lemma {:induction false} DcSize(v: int)
    requires Abs(v) < 2048
    ensures BitLen(Abs(v)) <= 11
  {
    Pow2Values();
    BitLenBound(Abs(v), 11);
  }

  lemma {:induction false} AcSize(zeros: nat, v: int)
    requires zeros < 16 && Abs(v) < 1024
    ensures BitLen(Abs(v)) <= 10 && AcSymbol(16 * zeros + BitLen(Abs(v)))
  {
    Pow2Values();
    BitLenBound(Abs(v), 10);
    DivModUnique(16 * zeros + BitLen(Abs(v)), zeros, 16, BitLen(Abs(v)));
  }

  /** A data unit in zig-zag order whose AC coefficients need at most ten bits. */
  ghost predicate DataUnit(du: seq<int>) {
    |du| == 64 && forall i :: 1 <= i < 64 ==> Abs(du[i]) < 1024
  }

  /** Index of the last nonzero AC coefficient, 0 if there is none. */
  function LastNonZero(du: seq<int>, n: nat): (last: nat)
    requires n < |du|
    ensures last <= n
    ensures last > 0 ==> du[last] != 0
    ensures forall i :: last < i <= n ==> du[i] == 0
  {
    if n == 0 || du[n] != 0 then n else LastNonZero(du, n - 1)
  }

  /** A nonzero AC coefficient after a run of zeros: run and size, then the amplitude. */
  ghost function Coefficient(t: Table, zeros: nat, v: int, rest: Pieces): Pieces {
    Symbol(t, 16 * zeros + BitLen(Abs(v)), Vli(v, rest))
  }

  /** Coefficients i..last after a pending run of zeros (T.81 figure F.2), then the rest. */
  ghost function AcPieces(t: Table, du: seq<int>, i: nat, zeros: nat, last: nat, rest: Pieces): Pieces
    requires last < |du|
    decreases |du| - i
  {
    if i > last then (if last != 63 then Symbol(t, 0, rest) else rest)
    else if du[i] == 0 then
      if zeros == 15 then Symbol(t, 0xF0, AcPieces(t, du, i + 1, 0, last, rest))
      else AcPieces(t, du, i + 1, zeros + 1, last, rest)
    else Coefficient(t, zeros, du[i], AcPieces(t, du, i + 1, 0, last, rest))
  }

  ghost function UnitPieces(dc: Table, ac: Table, du: seq<int>, pred: int, rest: Pieces): Pieces
    requires |du| == 64
  {
    DcPieces(dc, du[0] - pred, AcPieces(ac, du, 1, 0, LastNonZero(du, 63), rest))
  }

  method WriteSymbol(w: Writer, t: Table, v: int, ghost rest: Pieces, ghost total: BitString)
    requires w.Valid() && Known(t, v)
    requires Yields(w.pushed, Symbol(t, v, rest), total)
    modifies w, w.output_buffer
    ensures w.Valid() && w.header == old(w.header)
    ensures Yields(w.pushed, rest, total)
  {
    w.WriteBits(t.size[v], t.code[v]);
  }

  method WriteVli(w: Writer, v: int, ghost rest: Pieces, ghost total: BitString)
    requires w.Valid() && Abs(v) < 2048
    requires Yields(w.pushed, Vli(v, rest), total)
    modifies w, w.output_buffer
    ensures w.Valid() && w.header == old(w.header)
    ensures Yields(w.pushed, rest, total)
  {
    var bits, size := CalculateVariableLengthInt(v);
    w.WriteBits(size, bits);
  }

  /** Quantised coefficients in scan order. */
  ghost predicate Scanned(vals: seq<int>, du: seq<int>) {
    |vals| == |du| == 64 && forall i :: 0 <= i < 64 ==> du[ZigZag.Scan(i)] == vals[i]
  }

  method ToScanOrder(vals: seq<int>) returns (du: seq<int>)
    requires |vals| == 64
    ensures Scanned(vals, du)
    ensures forall r, c :: 0 <= r < 8 && 0 <= c < 8 ==>
              ZigZag.Place(r, c) < 64 && du[ZigZag.Place(r, c)] == vals[8 * r + c]
  {
    var a := new int[64](_ => 0);
    for i := 0 to 64
      invariant forall j :: 0 <= j < i ==> a[ZigZag.Scan(j)] == vals[j]
    {
      ZigZag.Injective(i);
      a[ZigZag.Scan(i)] := vals[i];
    }
    du := a[..];
    forall r, c | 0 <= r < 8 && 0 <= c < 8
      ensures ZigZag.Place(r, c) < 64 && du[ZigZag.Place(r, c)] == vals[8 * r + c]
    {
      ZigZag.ScanIsPlace(r, c);
    }
  }

  method EncodeDc(w: Writer, dc: Table, diff: int, ghost rest: Pieces, ghost total: BitString)
    requires w.Valid() && KnowsDc(dc) && Abs(diff) < 2048
    requires Yields(w.pushed, DcPieces(dc, diff, rest), total)
    modifies w, w.output_buffer
    ensures w.Valid() && w.header == old(w.header)
    ensures Yields(w.pushed, rest, total)
  {
    if diff != 0 {
      DcSize(diff);
      var _, size := CalculateVariableLengthInt(diff);
      WriteSymbol(w, dc, size, Vli(diff, rest), total);
      WriteVli(w, diff, rest, total);
    } else {
      WriteSymbol(w, dc, 0, rest, total);
    }
  }

  /** Writes one sixteen-zero symbol per sixteen zeros and stops at a nonzero coefficient. */
  method EncodeRun(w: Writer, ac: Table, du: seq<int>, i0: nat, last: nat, ghost rest: Pieces, ghost total: BitString)
    returns (i: nat, zeros: nat)
    requires w.Valid() && KnowsAc(ac) && 1 <= i0 <= last < |du| == 64 && du[last] != 0
    requires Yields(w.pushed, AcPieces(ac, du, i0, 0, last, rest), total)
    modifies w, w.output_buffer
    ensures w.Valid() && w.header == old(w.header)
    ensures i0 <= i <= last && zeros < 16 && du[i] != 0
    ensures Yields(w.pushed, AcPieces(ac, du, i, zeros, last, rest), total)
  {
    i, zeros := i0, 0;
    while du[i] == 0
      invariant w.Valid() && w.header == old(w.header) && i0 <= i <= last && zeros < 16
      invariant Yields(w.pushed, AcPieces(ac, du, i, zeros, last, rest), total)
      decreases last - i
    {
      i, zeros := i + 1, zeros + 1;
      if zeros == 16 {
        WriteSymbol(w, ac, 0xF0, AcPieces(ac, du, i, 0, last, rest), total);
        zeros := 0;
      }
    }
  }

  /** Writes a nonzero coefficient: run and size in one symbol, then the amplitude. */
  method EncodeCoefficient(w: Writer, ac: Table, zeros: nat, v: int, ghost rest: Pieces, ghost total: BitString)
    requires w.Valid() && KnowsAc(ac) && zeros < 16 && v != 0 && Abs(v) < 1024
    requires Yields(w.pushed, Coefficient(ac, zeros, v, rest), total)
    modifies w, w.output_buffer
    ensures w.Valid() && w.header == old(w.header)
    ensures Yields(w.pushed, rest, total)
  {
    AcSize(zeros, v);
    var _, size := CalculateVariableLengthInt(v);
    WriteSymbol(w, ac, 16 * zeros + size, Vli(v, rest), total);
    WriteVli(w, v, rest, total);
  }

  method EncodeAc(w: Writer, ac: Table, du: seq<int>, ghost rest: Pieces, ghost total: BitString)
    requires w.Valid() && KnowsAc(ac) && DataUnit(du)
    requires Yields(w.pushed, AcPieces(ac, du, 1, 0, LastNonZero(du, 63), rest), total)
    modifies w, w.output_buffer
    ensures w.Valid() && w.header == old(w.header)
    ensures Yields(w.pushed, rest, total)
  {
    var last := LastNonZero(du, 63);
    var i := 1;
    while i <= last
      invariant w.Valid() && w.header == old(w.header) && 1 <= i <= last + 1
      invariant Yields(w.pushed, AcPieces(ac, du, i, 0, last, rest), total)
    {
      var zeros;
      i, zeros := EncodeRun(w, ac, du, i, last, rest, total);
      EncodeCoefficient(w, ac, zeros, du[i], AcPieces(ac, du, i + 1, 0, last, rest), total);
      i := i + 1;
    }
    if last != 63 {
      WriteSymbol(w, ac, 0, rest, total);
    }
  }

  /** The coefficient part of an MCU: difference to the previous DC value, then the AC values. */
  method EncodeMCU(w: Writer, dc: Table, ac: Table, du: seq<int>, pred: int, ghost rest: Pieces, ghost total: BitString) returns (pred': int)
    requires w.Valid() && KnowsDc(dc) && KnowsAc(ac) && DataUnit(du) && Abs(du[0] - pred) < 2048
    requires Yields(w.pushed, UnitPieces(dc, ac, du, pred, rest), total)
    modifies w, w.output_buffer
    ensures w.Valid() && w.header == old(w.header) && pred' == du[0]
    ensures Yields(w.pushed, rest, total)
  {
    pred' := du[0];
    EncodeDc(w, dc, du[0] - pred, AcPieces(ac, du, 1, 0, LastNonZero(du, 63), rest), total);
    EncodeAc(w, ac, du, rest, total);
  }

  // ---------- the scan ----------

  /** The Huffman tables of a component. */
  datatype Tables = Tables(dc: Table, ac: Table)

  /** A data unit in scan order: 64 coefficients. */
  type Unit = u: seq<int> | |u| == 64 witness seq(64, _ => 0)

  /** The prediction for unit i: the DC coefficient of the previous unit of its component, or 0. */
  function Pred(units: seq<Unit>, i: nat): int
    requires i < |units| + 3
  {
    if i < 3 then 0 else units[i - 3][0]
  }

  /** Units of three interleaved components whose coefficients the tables can express. */
  ghost predicate Scannable(units: seq<Unit>) {
    |units| % 3 == 0 && forall i :: 0 <= i < |units| ==> ScannableAt(units, i)
  }

  ghost predicate ScannableAt(units: seq<Unit>, i: nat)
    requires i < |units|
  {
    DataUnit(units[i]) && Abs(units[i][0] - Pred(units, i)) < 2048
  }

  ghost predicate KnowsAll(tabs: seq<Tables>) {
    |tabs| == 3 && forall i :: 0 <= i < 3 ==> KnowsBoth(tabs[i])
  }

  ghost predicate KnowsBoth(tab: Tables) {
    KnowsDc(tab.dc) && KnowsAc(tab.ac)
  }

  /** The units from i on. */
  ghost function ScanPieces(tabs: seq<Tables>, units: seq<Unit>, i: nat): Pieces
    requires |tabs| == 3
    decreases |units| - i
  {
    if i >= |units| then End
    else UnitPieces(tabs[i % 3].dc, tabs[i % 3].ac, units[i], Pred(units, i), ScanPieces(tabs, units, i + 1))
  }

  /** Unit i of the scan. */
  method EncodeUnit(w: Writer, tab: Tables, pred: int, ghost tabs: seq<Tables>, units: seq<Unit>, i: nat,
                    ghost total: BitString) returns (pred': int)
    requires w.Valid() && Scannable(units) && KnowsAll(tabs) && i < |units|
    requires tab == tabs[i % 3] && pred == Pred(units, i)
    requires Yields(w.pushed, ScanPieces(tabs, units, i), total)
    modifies w, w.output_buffer
    ensures w.Valid() && w.header == old(w.header) && pred' == units[i][0]
    ensures Yields(w.pushed, ScanPieces(tabs, units, i + 1), total)
  {
    assert ScannableAt(units, i);
    pred' := EncodeMCU(w, tab.dc, tab.ac, units[i], pred, ScanPieces(tabs, units, i + 1), total);
  }

  lemma {:induction false} NextOfThree(i: nat)
    requires i % 3 == 0
    ensures (i + 1) % 3 == 1 && (i + 2) % 3 == 2 && (i + 3) % 3 == 0
  {
  }

  /** The three units of the MCU that starts at unit i. */
  method EncodeThree(w: Writer, tabs: seq<Tables>, units: seq<Unit>, i: nat, pred_y: int, pred_b: int, pred_r: int,
                     ghost total: BitString) returns (pred_y': int, pred_b': int, pred_r': int)
    requires w.Valid() && Scannable(units) && KnowsAll(tabs) && i + 3 <= |units| && i % 3 == 0
    requires pred_y == Pred(units, i) && pred_b == Pred(units, i + 1) && pred_r == Pred(units, i + 2)
    requires Yields(w.pushed, ScanPieces(tabs, units, i), total)
    modifies w, w.output_buffer
    ensures w.Valid() && w.header == old(w.header)
    ensures pred_y' == units[i][0] && pred_b' == units[i + 1][0] && pred_r' == units[i + 2][0]
    ensures Yields(w.pushed, ScanPieces(tabs, units, i + 3), total)
  {
    NextOfThree(i);
    pred_y' := EncodeUnit(w, tabs[0], pred_y, tabs, units, i, total);
    pred_b' := EncodeUnit(w, tabs[1], pred_b, tabs, units, i + 1, total);
    pred_r' := EncodeUnit(w, tabs[2], pred_r, tabs, units, i + 2, total);
  }

  /** The entropy-coded segment: every unit, padding to a whole byte, the EOI marker, the last flush. */
  method EncodeScan(w: Writer, tabs: seq<Tables>, units: seq<Unit>) returns (ghost bytes: seq<Byte>, ghost pad: nat)
    requires w.Buffered() && Scannable(units) && KnowsAll(tabs)
    modifies w, w.output_buffer
    ensures w.received == old(w.Emitted()) + Stuff(bytes) + [0xFF, 0xD9]
    ensures w.output_buffer_count == 0 && pad < 8
    ensures BitsOf(bytes) == Flat(ScanPieces(tabs, units, 0)) + FromVal(0, pad)
  {
    w.Begin();
    EncodeUnits(w, tabs, units);
    bytes, pad := FinishScan(w);
  }

  method EncodeUnits(w: Writer, tabs: seq<Tables>, units: seq<Unit>)
    requires w.Valid() && w.pushed == [] && Scannable(units) && KnowsAll(tabs)
    modifies w, w.output_buffer
    ensures w.Valid() && w.header == old(w.header) && w.pushed == Flat(ScanPieces(tabs, units, 0))
  {
    ghost var total := Flat(ScanPieces(tabs, units, 0));
    assert total == [] + total;
    YieldsFlat([], ScanPieces(tabs, units, 0), total);
    var pred_y, pred_b, pred_r, i := 0, 0, 0, 0;
    while i < |units|
      invariant w.Valid() && w.header == old(w.header) && 0 <= i <= |units| && i % 3 == 0
      invariant i < |units| ==>
                  pred_y == Pred(units, i) && pred_b == Pred(units, i + 1) && pred_r == Pred(units, i + 2)
      invariant Yields(w.pushed, ScanPieces(tabs, units, i), total)
    {
      NextOfThree(i);
      pred_y, pred_b, pred_r := EncodeThree(w, tabs, units, i, pred_y, pred_b, pred_r, total);
      i := i + 3;
    }
  }

  method FinishScan(w: Writer) returns (ghost bytes: seq<Byte>, ghost pad: nat)
    requires w.Valid()
    modifies w, w.output_buffer
    ensures w.received == old(w.header) + Stuff(bytes) + [0xFF, 0xD9]
    ensures w.output_buffer_count == 0 && pad < 8
    ensures BitsOf(bytes) == old(w.pushed) + FromVal(0, pad)
  {
    pad := 0;
    if 0 < w.location < 8 {
      pad := 8 - w.location;
      w.WriteBits(8 - w.location, 0);
    }
    assert |w.pushed| == |old(w.pushed)| + pad;
    bytes := w.popped;
    assert w.location == 0;
    w.Write([0xFF, 0xD9]);
    if w.output_buffer_count != 0 {
      w.received := w.received + w.output_buffer[..w.output_buffer_count];
      w.output_buffer_count := 0;
    }
  }
}
