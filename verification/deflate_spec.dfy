/**
 The deflate format (RFC 1951) as a relation between a bit stream and the bytes it stands for.
 The stream is taken to continue with zeros.
 */
module DeflateSpec {
  import opened Bits
  import opened LsbBits
  import opened Canonical
  import opened DeflateCodes

  // ---------- tokens (section 3.2.5) ----------

  function LengthBase(z: nat): nat {
    if z < 8 then z + 3
    else match z
      case 8 => 11 case 9 => 13 case 10 => 15 case 11 => 17
      case 12 => 19 case 13 => 23 case 14 => 27 case 15 => 31
      case 16 => 35 case 17 => 43 case 18 => 51 case 19 => 59
      case 20 => 67 case 21 => 83 case 22 => 99 case 23 => 115
      case 24 => 131 case 25 => 163 case 26 => 195 case 27 => 227
      case 28 => 258 case _ => 0
  }

  function LengthExtra(z: nat): (n: nat)
    ensures n <= 5
  {
    if z < 8 || z >= 28 then 0 else (z - 4) / 4
  }

  function DistBase(z: nat): nat {
    match z
    case 0 => 1 case 1 => 2 case 2 => 3 case 3 => 4
    case 4 => 5 case 5 => 7 case 6 => 9 case 7 => 13
    case 8 => 17 case 9 => 25 case 10 => 33 case 11 => 49
    case 12 => 65 case 13 => 97 case 14 => 129 case 15 => 193
    case 16 => 257 case 17 => 385 case 18 => 513 case 19 => 769
    case 20 => 1025 case 21 => 1537 case 22 => 2049 case 23 => 3073
    case 24 => 4097 case 25 => 6145 case 26 => 8193 case 27 => 12289
    case 28 => 16385 case 29 => 24577 case _ => 0
  }

  function DistExtra(z: nat): (n: nat)
    ensures z < 30 ==> n <= 13
  {
    if z < 4 then 0 else (z - 2) / 2
  }

  /**
   The ranges of the length and of the distance codes meet without gap or overlap; from the first code with extra
   bits on there are four length codes for each number of extra bits, and two distance codes.
   */
  lemma {:induction false} RangesMeet(z: nat)
    ensures z < 27 ==> LengthBase(z + 1) == LengthBase(z) + Pow2(LengthExtra(z))
    ensures z < 29 ==> DistBase(z + 1) == DistBase(z) + Pow2(DistExtra(z))
    ensures LengthBase(0) == 3 && LengthBase(28) == 258 && DistBase(0) == 1 && DistBase(29) + Pow2(DistExtra(29)) == 32769
    ensures 4 <= z < 28 ==> LengthBase(z) == 3 + (4 + z % 4) * Pow2(z / 4 - 1)
    ensures 2 <= z < 30 ==> DistBase(z) == 1 + (2 + z % 2) * Pow2(z / 2 - 1)
  {
    Pow2Small();
    if 4 <= z < 28 {
      LengthFormula(z);
    }
    if 2 <= z < 30 {
      DistFormula(z);
    }
  }

  lemma {:induction false} LengthFormula(z: nat)
    requires 4 <= z < 28
    ensures LengthBase(z) == 3 + (4 + z % 4) * Pow2(z / 4 - 1)
  {
    Pow2Small();
    match z / 4 { case 1 => case 2 => case 3 => case 4 => case 5 => case _ => }
  }

  lemma {:induction false} DistFormula(z: nat)
    requires 2 <= z < 30
    ensures DistBase(z) == 1 + (2 + z % 2) * Pow2(z / 2 - 1)
  {
    Pow2Small();
    if z < 16 {
      match z / 2 { case 1 => case 2 => case 3 => case 4 => case 5 => case 6 => case _ => }
    } else {
      match z / 2 { case 8 => case 9 => case 10 => case 11 => case 12 => case 13 => case _ => }
    }
  }

  lemma {:induction false} Pow2Small()
    ensures Pow2(0) == 1 && Pow2(1) == 2 && Pow2(2) == 4 && Pow2(3) == 8 && Pow2(4) == 16 && Pow2(5) == 32
    ensures Pow2(6) == 64 && Pow2(7) == 128 && Pow2(8) == 256 && Pow2(9) == 512 && Pow2(10) == 1024
    ensures Pow2(11) == 2048 && Pow2(12) == 4096 && Pow2(13) == 8192
  {
  }

  datatype Token = Literal(b: Byte, pos: nat) | Copy(len: nat, dist: nat, pos: nat) | EndOfBlock(pos: nat) | Malformed

  /** What stands at p, coded with the given literal/length and distance codes. */
  ghost function ReadToken(ll: Words, dd: Words, d: BitString, p: nat): Token {
    TokenOf(ReadSymbol(ll, d, p), dd, d)
  }

  ghost function TokenOf(r: Read, dd: Words, d: BitString): Token {
    match r
    case NoSym => Malformed
    case Sym(z, q) =>
      if z < 256 then Literal(z, q)
      else if z == 256 then EndOfBlock(q)
      else if z >= 286 then Malformed
      else ReadMatch(z - 257, q, dd, d)
  }

  /** A length code z, its extra bits at q, and a distance. */
  ghost function ReadMatch(z: nat, q: nat, dd: Words, d: BitString): Token {
    var q' := q + LengthExtra(z);
    DistanceOf(ReadSymbol(dd, d, q'), LengthBase(z) + Field(d, q, LengthExtra(z)), d)
  }

  ghost function DistanceOf(r: Read, len: nat, d: BitString): Token {
    match r
    case NoSym => Malformed
    case Sym(z, q) =>
      if z >= 30 then Malformed else Copy(len, DistBase(z) + Field(d, q, DistExtra(z)), q + DistExtra(z))
  }

  /** Repeats what was written dist bytes ago, byte by byte; the copy may overlap itself. */
  function CopyBack(out: seq<Byte>, dist: nat, len: nat): (r: seq<Byte>)
    requires 1 <= dist <= |out|
    ensures |r| == |out| + len
  {
    if len == 0 then out
    else
      var o := CopyBack(out, dist, len - 1);
      o + [o[|o| - dist]]
  }

  /** Every byte written is the one that stands dist bytes before it; what was there stays. */
  lemma {:induction false} CopyBackIs(out: seq<Byte>, dist: nat, len: nat)
    requires 1 <= dist <= |out|
    ensures var r := CopyBack(out, dist, len);
            r[..|out|] == out && forall i :: |out| <= i < |r| ==> r[i] == r[i - dist]
  {
    if len > 0 {
      CopyBackIs(out, dist, len - 1);
      var o, r := CopyBack(out, dist, len - 1), CopyBack(out, dist, len);
      assert r[..|o|] == o;
      assert o[..|out|] == r[..|out|];
    }
  }

  /** Position in the stream and bytes written so far. */
  datatype State = State(pos: nat, out: seq<Byte>)

  datatype Reached = Reached(s: State) | Unreached

  /** The effect of a token inside a block. */
  function Apply(t: Token, out: seq<Byte>): Reached {
    match t
    case Literal(b, q) => Reached(State(q, out + [b]))
    case Copy(len, dist, q) =>
      if 1 <= dist <= |out| then Reached(State(q, CopyBack(out, dist, len))) else Unreached
    case _ => Unreached
  }

  /** The state after n tokens of a block. */
  ghost function Run(ll: Words, dd: Words, d: BitString, s: State, n: nat): Reached {
    if n == 0 then Reached(s) else After(ll, dd, d, Run(ll, dd, d, s, n - 1))
  }

  /** One token more. */
  ghost function After(ll: Words, dd: Words, d: BitString, r: Reached): Reached {
    if r.Unreached? then Unreached else Apply(ReadToken(ll, dd, d, r.s.pos), r.s.out)
  }

  // ---------- blocks (sections 3.2.3 to 3.2.7) ----------

  /** The order in which the lengths of the code length code are stored. */
  function Dezigzag(i: nat): (k: nat)
    ensures k < 19
  {
    match i
    case 0 => 16 case 1 => 17 case 2 => 18 case 3 => 0 case 4 => 8 case 5 => 7 case 6 => 9
    case 7 => 6 case 8 => 10 case 9 => 5 case 10 => 11 case 11 => 4 case 12 => 12 case 13 => 3
    case 14 => 13 case 15 => 2 case 16 => 14 case 17 => 1 case _ => 15
  }

  /** Where the length of symbol i is stored in that order. */
  function Zigzag(i: nat): (k: nat)
    ensures k < 19
  {
    match i
    case 0 => 3 case 1 => 17 case 2 => 15 case 3 => 13 case 4 => 11 case 5 => 9 case 6 => 7
    case 7 => 5 case 8 => 4 case 9 => 6 case 10 => 8 case 11 => 10 case 12 => 12 case 13 => 14
    case 14 => 16 case 15 => 18 case 16 => 0 case 17 => 1 case _ => 2
  }

  lemma {:induction false} ZigzagInverse(i: nat)
    requires i < 19
    ensures Dezigzag(Zigzag(i)) == i && Zigzag(Dezigzag(i)) == i
  {
  }

  /** First the three repetitions and zero, then outwards from 8: down to 1 in odd places, up to 15 in even ones. */
  lemma {:induction false} DezigzagIs(i: nat)
    requires i < 19
    ensures Dezigzag(i) == if i < 3 then 16 + i else if i == 3 then 0 else if i % 2 == 0 then 6 + i / 2 else 9 - i / 2
  {
    if i < 10 {
      match i { case 0 => case 1 => case 2 => case 3 => case 4 => case 5 => case 6 => case 7 => case 8 => case _ => }
    } else {
      match i { case 10 => case 11 => case 12 => case 13 => case 14 => case 15 => case 16 => case 17 => case _ => }
    }
  }

  /** The lengths of the code length code when the first n are stored. */
  ghost function LengthLengths(d: BitString, p: nat, n: nat): (l: seq<nat>)
    ensures |l| == 19
  {
    seq(19, i requires 0 <= i < 19 => LengthLength(d, p, n, i))
  }

  ghost function LengthLength(d: BitString, p: nat, n: nat, i: nat): (s: nat)
    ensures s < 8
  {
    Pow2Small();
    if Zigzag(i) < n then Field(d, p + 3 * Zigzag(i), 3) else 0
  }

  datatype Lens = Lens(l: seq<nat>, pos: nat) | NoLens

  /** Extra bits of the symbols that repeat a length. */
  function RepeatBits(c: nat): (n: nat)
    ensures n <= 7
  {
    if c < 16 then 0 else if c == 16 then 2 else if c == 17 then 3 else 7
  }

  /** The lengths after symbol c with value v in its extra bits. */
  function Extended(got: seq<nat>, c: nat, v: nat): (r: seq<nat>)
    requires c == 16 ==> got != []
    ensures |r| > |got|
  {
    if c < 16 then got + [c]
    else if c == 16 then got + Repeat(got[|got| - 1], 3 + v)
    else if c == 17 then got + Repeat(0, 3 + v)
    else got + Repeat(0, 11 + v)
  }

  /** Symbol 16 repeats the last length 3 to 6 times; 17 and 18 add 3 to 10 or 11 to 138 zeros. */
  lemma {:induction false} RepeatsAre(got: seq<nat>, c: nat, k: nat)
    requires 16 <= c <= 18 && got != []
    ensures (exists v: nat :: v < Pow2(RepeatBits(c)) && |Extended(got, c, v)| == |got| + k)
       <==> (if c == 16 then 3 <= k <= 6 else if c == 17 then 3 <= k <= 10 else 11 <= k <= 138)
    ensures forall v: nat ::
              var r := Extended(got, c, v);
              got <= r && forall i :: |got| <= i < |r| ==> r[i] == if c == 16 then got[|got| - 1] else 0
  {
    Pow2Small();
    var few := if c == 18 then 11 else 3;
    if k >= few {
      assert |Extended(got, c, k - few)| == |got| + k;
    }
  }

  /** Run-length coded code lengths, up to a total. */
  ghost function ReadLens(cl: Words, d: BitString, p: nat, total: nat, got: seq<nat>): (r: Lens)
    ensures r.Lens? ==> |r.l| == total
    decreases total - |got|
  {
    if |got| == total then Lens(got, p)
    else if |got| > total then NoLens
    else
      match ReadSymbol(cl, d, p)
      case NoSym => NoLens
      case Sym(c, q) =>
        if c == 16 && got == [] then NoLens
        else ReadLens(cl, d, q + RepeatBits(c), total, Extended(got, c, Field(d, q, RepeatBits(c))))
  }

  /**
   What reading n code lengths at p gives.  CodeLengths is defined through it by choice, so that proofs
   that only pass the lengths on do not unfold how they are read; CodeLengthsAre unfolds it.
   */
  ghost predicate LengthsStand(cl: seq<nat>, d: BitString, p: nat, total: nat, r: Lens) {
    forall n: nat :: LengthsStandFor(cl, d, p, total, r, n)
  }

  ghost predicate LengthsStandFor(cl: seq<nat>, d: BitString, p: nat, total: nat, r: Lens, n: nat) {
    n == total ==> r == ReadLens(WordsOf(cl), d, p, n, [])
  }

  ghost function CodeLengths(cl: seq<nat>, d: BitString, p: nat, total: nat): (r: Lens)
    ensures r.Lens? ==> |r.l| == total
  {
    assert LengthsStand(cl, d, p, total, ReadLens(WordsOf(cl), d, p, total, []));
    var r :| LengthsStand(cl, d, p, total, r);
    assert LengthsStandFor(cl, d, p, total, r, total);
    r
  }

  lemma {:induction false} CodeLengthsAre(cl: seq<nat>, d: BitString, p: nat, total: nat)
    ensures CodeLengths(cl, d, p, total) == ReadLens(WordsOf(cl), d, p, total, [])
  {
    assert LengthsStandFor(cl, d, p, total, CodeLengths(cl, d, p, total), total);
  }

  /** Code lengths of both codes, hlit of them for literals and lengths. */
  datatype Header = Codes(lens: seq<nat>, hlit: nat, pos: nat) | BadHeader

  ghost predicate Decent(h: Header) {
    h.Codes? && h.hlit <= |h.lens| && Decodable(h.lens[..h.hlit]) && Decodable(h.lens[h.hlit..])
  }

  /** Lengths of at most 15 bits whose words fit. */
  ghost predicate Decodable(lens: seq<nat>) {
    Lengths(lens) && forall k: nat :: Room(lens, k)
  }

  /** The first k words leave room for the others. */
  ghost predicate Room(lens: seq<nat>, k: nat) {
    var s := Sizes(lens);
    Ordered(s) && (k <= |s| ==> Left(s, k) <= 0x1_0000)
  }

  lemma {:induction false} DecodableFits(lens: seq<nat>)
    ensures Decodable(lens) <==> Lengths(lens) && Fits(Sizes(lens))
  {
    var s := Sizes(lens);
    if Decodable(lens) {
      assert Room(lens, |s|);
    } else if Fits(s) {
      forall k: nat
        ensures Room(lens, k)
      {
        if k <= |s| {
          LeftMono(s, k, |s|);
        }
      }
    }
  }

  /** The fixed codes can be decoded. */
  lemma {:induction false} FixedDecent(p: nat)
    ensures Decent(Codes(FixedLengths() + FixedDistances(), 288, p))
  {
    FixedDecodable();
    Halves(FixedLengths(), FixedDistances());
  }

  lemma {:induction false} FixedDecodable()
    ensures Decodable(FixedLengths()) && Decodable(FixedDistances())
  {
    FixedLengthsComplete();
    FixedDistancesComplete();
    DecodableFits(FixedLengths());
    DecodableFits(FixedDistances());
  }

  lemma {:induction false} Halves(a: seq<nat>, b: seq<nat>)
    ensures (a + b)[..|a|] == a && (a + b)[|a|..] == b
  {
  }

  ghost function ReadDynamic(d: BitString, p: nat): Header {
    ReadCounted(d, p + 14, Field(d, p, 5) + 257, Field(d, p + 5, 5) + 1, Field(d, p + 10, 4) + 4)
  }

  /** The rest of a dynamic header, which starts at p, given the numbers of lengths. */
  ghost function ReadCounted(d: BitString, p: nat, hlit: nat, hdist: nat, hclen: nat): Header {
    ReadCodes(LengthLengths(d, p, hclen), d, p + 3 * hclen, hlit, hdist)
  }

  /** The two codes, whose lengths are coded with the code length code. */
  ghost function ReadCodes(cl: seq<nat>, d: BitString, p: nat, hlit: nat, hdist: nat): Header {
    if !Decodable(cl) then BadHeader
    else
      match CodeLengths(cl, d, p, hlit + hdist)
      case NoLens => BadHeader
      case Lens(l, q) => Codes(l, hlit, q)
  }

  /** The codes of a block of type 1 or 2 whose header continues at p. */
  ghost function HeaderOf(d: BitString, kind: nat, p: nat): Header {
    if kind == 1 then Codes(FixedLengths() + FixedDistances(), 288, p) else ReadDynamic(d, p)
  }

  /** The next byte boundary. */
  function Align(p: nat): (a: nat)
    ensures a >= p
  {
    p + (8 - p % 8) % 8
  }

  ghost function BytesAt(d: BitString, p: nat, n: nat): (b: seq<Byte>)
    ensures |b| == n
  {
    Pow2Small();
    if n == 0 then [] else BytesAt(d, p, n - 1) + [Field(d, p + 8 * (n - 1), 8)]
  }

  /** A stored block: length, complement, bytes. */
  ghost predicate Stored(d: BitString, s: State, s': State) {
    var a := Align(s.pos);
    var len := Field(d, a, 16);
    && Field(d, a + 16, 16) == 0xFFFF - len
    && s'.pos == a + 32 + 8 * len && s'.out == s.out + BytesAt(d, a + 32, len)
  }

  /** A compressed block whose n tokens are followed by the end-of-block symbol. */
  ghost predicate Coded(ll: Words, dd: Words, d: BitString, s: State, n: nat, s': State) {
    var r := Run(ll, dd, d, s, n);
    r.Reached? && ReadToken(ll, dd, d, r.s.pos) == EndOfBlock(s'.pos) && s'.out == r.s.out
  }

  /** A compressed block with its header read. */
  ghost predicate CodedAfter(h: Header, d: BitString, out: seq<Byte>, n: nat, s': State)
  {
    Decent(h) && Coded(WordsOf(h.lens[..h.hlit]), WordsOf(h.lens[h.hlit..]), d, State(h.pos, out), n, s')
  }

  /** A compressed block of the given type after the three bits that every block starts with. */
  ghost predicate Compressed(d: BitString, kind: nat, s: State, n: nat, s': State) {
    forall h: Header :: CompressedWith(d, kind, s, n, s', h)
  }

  ghost predicate CompressedWith(d: BitString, kind: nat, s: State, n: nat, s': State, h: Header) {
    h == HeaderOf(d, kind, s.pos) ==> CodedAfter(h, d, s.out, n, s')
  }

  lemma {:induction false} CompressedIs(d: BitString, kind: nat, s: State, n: nat, s': State, h: Header)
    requires h == HeaderOf(d, kind, s.pos)
    ensures Compressed(d, kind, s, n, s') <==> CodedAfter(h, d, s.out, n, s')
  {
    if Compressed(d, kind, s, n, s') {
      assert CompressedWith(d, kind, s, n, s', h);
    }
  }

  /** A block of the given type after the three bits that every block starts with. */
  ghost predicate Body(d: BitString, kind: nat, s: State, n: nat, s': State) {
    if kind == 0 then n == 0 && Stored(d, s, s') else kind != 3 && Compressed(d, kind, s, n, s')
  }

  /** One block of n tokens leads from s to s'. */
  ghost predicate Block(d: BitString, s: State, final: bool, n: nat, s': State) {
    final == (Field(d, s.pos, 1) == 1) && Body(d, Field(d, s.pos + 1, 2), State(s.pos + 3, s.out), n, s')
  }

  /** The blocks passed so far, with the state after each. */
  datatype History = Start(s: State) | Then(before: History, n: nat, s: State)

  ghost predicate Blocks(d: BitString, h: History) {
    match h
    case Start(_) => true
    case Then(before, n, s) => Blocks(d, before) && Block(d, before.s, false, n, s)
  }

  function First(h: History): State {
    match h
    case Start(s) => s
    case Then(before, _, _) => First(before)
  }

  /** The stream from bit p on, up to its final block, stands for these bytes. */
  ghost predicate Inflates(d: BitString, p: nat, h: History, n: nat, s: State) {
    First(h) == State(p, []) && Blocks(d, h) && Block(d, h.s, true, n, s)
  }

  // ---------- progress ----------

  lemma {:induction false} LensMoves(cl: Words, d: BitString, p: nat, total: nat, got: seq<nat>)
    ensures var r := ReadLens(cl, d, p, total, got); r.Lens? ==> r.pos >= p
    decreases total - |got|
  {
    if |got| < total {
      var r := ReadSymbol(cl, d, p);
      if r.Sym? && (r.value == 16 ==> got != []) {
        var n := RepeatBits(r.value);
        LensMoves(cl, d, r.pos + n, total, Extended(got, r.value, Field(d, r.pos, n)));
      }
    }
  }

  lemma {:induction false} HeaderMoves(d: BitString, kind: nat, p: nat)
    ensures var h := HeaderOf(d, kind, p); h.Codes? ==> h.pos >= p
  {
    var hclen := Field(d, p + 10, 4) + 4;
    var cl, q, total := LengthLengths(d, p + 14, hclen), p + 14 + 3 * hclen, Field(d, p, 5) + Field(d, p + 5, 5) + 258;
    CodeLengthsMove(cl, d, q, total);
  }

  lemma {:induction false} CodeLengthsMove(cl: seq<nat>, d: BitString, q: nat, total: nat)
    ensures var r := CodeLengths(cl, d, q, total); r.Lens? ==> r.pos >= q
  {
    CodeLengthsAre(cl, d, q, total);
    LensMoves(WordsOf(cl), d, q, total, []);
  }

  /** A token other than a malformed one ends where it starts or later. */
  lemma {:induction false} TokenMoves(r: Read, dd: Words, d: BitString)
    ensures var t := TokenOf(r, dd, d); !t.Malformed? ==> r.Sym? && t.pos >= r.pos
  {
  }

  /** A block starts inside the stream and takes at least its three header bits. */
  lemma {:induction false} BlockMoves(d: BitString, s: State, final: bool, n: nat, s': State)
    requires Block(d, s, final, n, s')
    ensures s'.pos >= s.pos + 3 && s.pos < |d|
  {
    var kind := Field(d, s.pos + 1, 2);
    if s.pos >= |d| {
      NoBlockPast(d, s, s');
    }
    if kind != 0 {
      CompressedMoves(d, kind, State(s.pos + 3, s.out), n, s');
    }
  }

  /** Past the end every block would be a stored one with a bad complement. */
  lemma {:induction false} NoBlockPast(d: BitString, s: State, s': State)
    requires s.pos >= |d|
    ensures Field(d, s.pos + 1, 2) == 0 && !Stored(d, State(s.pos + 3, s.out), s')
  {
    FieldPast(d, s.pos + 1, 2);
    FieldPast(d, Align(s.pos + 3), 16);
    FieldPast(d, Align(s.pos + 3) + 16, 16);
  }

  lemma {:induction false} CompressedMoves(d: BitString, kind: nat, s: State, n: nat, s': State)
    requires Compressed(d, kind, s, n, s')
    ensures NoLater(s, s')
  {
    var h := HeaderOf(d, kind, s.pos);
    HeaderMoves(d, kind, s.pos);
    CompressedIs(d, kind, s, n, s', h);
    CodedAfterGrows(h, d, s.out, n, s');
  }

  /** Later is not before and not shorter. */
  ghost predicate NoLater(s: State, t: State) {
    s.pos <= t.pos && |s.out| <= |t.out|
  }

  lemma {:induction false} RunGrows(ll: Words, dd: Words, d: BitString, s: State, n: nat, m: nat)
    requires n <= m && Run(ll, dd, d, s, m).Reached?
    ensures Run(ll, dd, d, s, n).Reached? && NoLater(Run(ll, dd, d, s, n).s, Run(ll, dd, d, s, m).s)
    decreases m
  {
    if n < m {
      var r := Run(ll, dd, d, s, m - 1);
      AfterGrows(ll, dd, d, r);
      RunGrows(ll, dd, d, s, n, m - 1);
    }
  }

  lemma {:induction false} AfterGrows(ll: Words, dd: Words, d: BitString, r: Reached)
    requires After(ll, dd, d, r).Reached?
    ensures r.Reached? && NoLater(r.s, After(ll, dd, d, r).s)
  {
    TokenMoves(ReadSymbol(ll, d, r.s.pos), dd, d);
  }

  lemma {:induction false} CodedGrows(ll: Words, dd: Words, d: BitString, s: State, n: nat, s': State)
    requires Coded(ll, dd, d, s, n, s')
    ensures NoLater(s, s')
  {
    RunGrows(ll, dd, d, s, 0, n);
    TokenMoves(ReadSymbol(ll, d, Run(ll, dd, d, s, n).s.pos), dd, d);
  }

  lemma {:induction false} BlockGrows(d: BitString, s: State, final: bool, n: nat, s': State)
    requires Block(d, s, final, n, s')
    ensures NoLater(s, s')
  {
    var kind := Field(d, s.pos + 1, 2);
    BlockMoves(d, s, final, n, s');
    if kind != 0 {
      CompressedMoves(d, kind, State(s.pos + 3, s.out), n, s');
    }
  }

  lemma {:induction false} CodedAfterGrows(h: Header, d: BitString, out: seq<Byte>, n: nat, s': State)
    requires CodedAfter(h, d, out, n, s')
    ensures NoLater(State(h.pos, out), s')
  {
    CodedGrows(WordsOf(h.lens[..h.hlit]), WordsOf(h.lens[h.hlit..]), d, State(h.pos, out), n, s');
  }

  // ---------- a stream stands for one byte string only ----------

  lemma {:induction false} RunDies(ll: Words, dd: Words, d: BitString, s: State, n: nat, m: nat)
    requires Run(ll, dd, d, s, n) == Unreached && n <= m
    ensures Run(ll, dd, d, s, m) == Unreached
    decreases m
  {
    if n < m {
      RunDies(ll, dd, d, s, n, m - 1);
    }
  }

  lemma {:induction false} RunStops(ll: Words, dd: Words, d: BitString, s: State, n: nat, m: nat)
    requires Run(ll, dd, d, s, n).Reached? && n < m
    requires ReadToken(ll, dd, d, Run(ll, dd, d, s, n).s.pos).EndOfBlock?
    ensures Run(ll, dd, d, s, m) == Unreached
  {
    NothingAfterEnd(ll, dd, d, Run(ll, dd, d, s, n));
    RunDies(ll, dd, d, s, n + 1, m);
  }

  lemma {:induction false} NothingAfterEnd(ll: Words, dd: Words, d: BitString, r: Reached)
    requires r.Reached? && ReadToken(ll, dd, d, r.s.pos).EndOfBlock?
    ensures After(ll, dd, d, r) == Unreached
  {
  }

  lemma {:induction false} CodedUnique(ll: Words, dd: Words, d: BitString, s: State, n: nat, s': State, m: nat, t': State)
    requires Coded(ll, dd, d, s, n, s') && Coded(ll, dd, d, s, m, t')
    ensures n == m && s' == t'
  {
    if n < m {
      RunStops(ll, dd, d, s, n, m);
    } else if m < n {
      RunStops(ll, dd, d, s, m, n);
    }
  }

  lemma {:induction false} BlockUnique(d: BitString, s: State, f: bool, n: nat, s': State, g: bool, m: nat, t': State)
    requires Block(d, s, f, n, s') && Block(d, s, g, m, t')
    ensures f == g && n == m && s' == t'
  {
    var kind := Field(d, s.pos + 1, 2);
    if kind != 0 {
      CompressedUnique(d, kind, State(s.pos + 3, s.out), n, s', m, t');
    }
  }

  lemma {:induction false} CompressedUnique(d: BitString, kind: nat, s: State, n: nat, s': State, m: nat, t': State)
    requires Compressed(d, kind, s, n, s') && Compressed(d, kind, s, m, t')
    ensures n == m && s' == t'
  {
    var h := HeaderOf(d, kind, s.pos);
    CompressedIs(d, kind, s, n, s', h);
    CompressedIs(d, kind, s, m, t', h);
    CodedAfterUnique(h, d, s.out, n, s', m, t');
  }

  lemma {:induction false} CodedAfterUnique(h: Header, d: BitString, out: seq<Byte>, n: nat, s': State, m: nat, t': State)
    requires CodedAfter(h, d, out, n, s') && CodedAfter(h, d, out, m, t')
    ensures n == m && s' == t'
  {
    CodedUnique(WordsOf(h.lens[..h.hlit]), WordsOf(h.lens[h.hlit..]), d, State(h.pos, out), n, s', m, t');
  }

  function Depth(h: History): nat {
    match h
    case Start(_) => 0
    case Then(before, _, _) => 1 + Depth(before)
  }

  lemma {:induction false} HistoryUnique(d: BitString, h: History, g: History)
    requires Blocks(d, h) && Blocks(d, g) && First(h) == First(g) && Depth(h) == Depth(g)
    ensures h.s == g.s
  {
    if h.Then? {
      HistoryUnique(d, h.before, g.before);
      BlockUnique(d, h.before.s, false, h.n, h.s, false, g.n, g.s);
    }
  }

  /** After the final block there is no further block. */
  lemma {:induction false} NoneAfterFinal(d: BitString, h: History, g: History, n: nat, s: State)
    requires Blocks(d, h) && Blocks(d, g) && First(h) == First(g) && Block(d, h.s, true, n, s)
    ensures Depth(g) <= Depth(h)
    decreases g
  {
    if Depth(g) > Depth(h) {
      if Depth(g) == Depth(h) + 1 {
        HistoryUnique(d, h, g.before);
      } else {
        NoneAfterFinal(d, h, g.before, n, s);
      }
    }
  }

  /** Decompression is a function of the stream. */
  lemma {:induction false} InflatesUnique(d: BitString, p: nat, h: History, n: nat, s: State, g: History, m: nat, t: State)
    requires Inflates(d, p, h, n, s) && Inflates(d, p, g, m, t)
    ensures s == t
  {
    NoneAfterFinal(d, h, g, n, s);
    NoneAfterFinal(d, g, h, m, t);
    HistoryUnique(d, h, g);
    BlockUnique(d, h.s, true, n, s, true, m, t);
  }
}
