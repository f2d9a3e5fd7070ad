/**
 The zlib decoder of stb_image.h: the bit buffer, the code tables in use, the growing output
 buffer, and the three kinds of blocks.  Every method is proved against DeflateSpec.
 */
module StbZlib {
  import opened Bits
  import opened LsbBits
  import opened DeflateCodes
  import opened DeflateSpec
  import opened ZlibReader
  import Z = StbZHuffman

  /** The largest size that doubling reaches; sizes above 0x7FFF_FFFF are not doubled. */
  function Largest(size: nat): (m: nat)
    requires size > 0
    ensures m >= size && (size <= 0xFFFF_FFFF ==> m <= 0xFFFF_FFFF)
    decreases 0x8000_0000 - size
  {
    if size > 0x7FFF_FFFF then size else Largest(2 * size)
  }

  /** No room for this many bytes of output. */
  predicate Cramped(expandable: bool, capacity: nat, need: nat)
    requires capacity > 0
  {
    need > capacity && (expandable ==> need > 0xFFFF_FFFF || need > Largest(capacity))
  }

  /**
   Why decoding may stop at a token: it is malformed, the reader has given up, it reaches back before the
   output, or there is no room for what it writes.
   */
  ghost predicate Refused(t: Token, f: Feed, size: nat, expandable: bool, capacity: nat)
    requires capacity > 0
  {
    match t
    case Malformed => true
    case EndOfBlock(_) => f.Late?
    case Literal(_, _) => f.Late? || Cramped(expandable, capacity, size + 1)
    case Copy(len, dist, _) => f.Late? || dist > size || Cramped(expandable, capacity, size + len)
  }

  /** What a reader of n bits finds in a buffer that holds at least as many. */
  lemma {:induction false} Takes(d: BitString, p: nat, bits: nat, n: nat)
    requires n <= bits
    ensures Low(Field(d, p, bits), n) == Field(d, p, n) && Shr(Field(d, p, bits), n) == Field(d, p + n, bits - n)
  {
    FieldLow(d, p, bits, n);
    FieldShr(d, p, bits, n);
  }

  class Zbuf {
    const input: seq<Byte>
    const z_expandable: bool
    var zbuffer: nat
    var num_bits: nat
    var hit_zeof_once: bool
    var code_buffer: nat
    var zout: nat
    var zout_start: array<Byte>
    /** The input as a bit stream and the position of the next bit to be read. */
    ghost const d: BitString
    ghost var p: nat
    /** Bytes fetched into the bit buffer, those past the end of the input included. */
    ghost var fed: nat
    ghost const capacity: nat

    /** The bit buffer holds the bits from p on. */
    ghost predicate Reads()
      reads this
    {
      && Streams(input, d)
      && zbuffer == (if fed <= |input| then fed else |input|)
      && num_bits <= 32 && 8 * fed == p + num_bits && code_buffer == Field(d, p, num_bits)
      && (hit_zeof_once ==> fed >= |input| + 2)
    }

    /** The output buffer has the size it was given, or has grown. */
    ghost predicate Writes()
      reads this
    {
      && zout <= zout_start.Length && 0 < capacity <= zout_start.Length
      && (zout_start.Length == capacity
          || (z_expandable && zout_start.Length <= 0xFFFF_FFFF && Largest(zout_start.Length) == Largest(capacity)))
    }

    /** How far the reader has got. */
    ghost function Feeding(): Feed
      reads this
    {
      Feed(fed, hit_zeof_once)
    }

    ghost function Contents(): (out: seq<Byte>)
      requires Writes()
      reads this, zout_start
      ensures |out| == zout
    {
      zout_start[..zout]
    }

    /** Nothing has been read or written. */
    constructor (input: seq<Byte>, obuf: array<Byte>, expandable: bool)
      requires obuf.Length > 0
      ensures Reads() && Writes() && Contents() == [] && zout_start == obuf && d == StreamOf(input)
      ensures p == 0 && num_bits == 0 && !hit_zeof_once && zout == 0
      ensures this.input == input && z_expandable == expandable && capacity == obuf.Length
    {
      StreamStreams(input);
      this.input, z_expandable, zbuffer := input, expandable, 0;
      num_bits, hit_zeof_once, code_buffer := 0, false, 0;
      zout, zout_start := 0, obuf;
      d, p, fed, capacity := StreamOf(input), 0, 0, obuf.Length;
    }

    // ---------- bits ----------

    method Zget8() returns (b: Byte)
      requires Reads() && num_bits == 0
      modifies this`zbuffer, this`p, this`fed, this`code_buffer
      ensures Reads() && p == old(p) + 8 && fed == old(fed) + 1 && b == Field(d, old(p), 8)
    {
      b := Fetch();
      p := p + 8;
      code_buffer := 0;
    }

    /** The next byte of the input, 0 past its end. */
    method Fetch() returns (b: Byte)
      requires Streams(input, d) && zbuffer == (if fed <= |input| then fed else |input|)
      modifies this`zbuffer, this`fed
      ensures fed == old(fed) + 1 && zbuffer == (if fed <= |input| then fed else |input|)
      ensures b == Field(d, 8 * old(fed), 8)
    {
      if zbuffer >= |input| {
        FieldPast(d, 8 * fed, 8);
        b := 0;
      } else {
        assert StreamsAt(input, d, fed);
        b := input[zbuffer];
        zbuffer := zbuffer + 1;
      }
      fed := fed + 1;
    }

    /** Fetches bytes until more than 24 bits are buffered. */
    method FillBits()
      requires Reads() && num_bits <= 24
      modifies this`zbuffer, this`num_bits, this`code_buffer, this`fed
      ensures Reads() && num_bits > 24 && fed == Filled(p)
    {
      while num_bits <= 24
        invariant Reads()
        decreases 32 - num_bits
      {
        if code_buffer >= Pow2(num_bits) {
          assert false;
        }
        PushByte();
      }
    }

    /** Fetches one byte into the free bits above the buffered ones. */
    method PushByte()
      requires Reads() && num_bits <= 24
      modifies this`zbuffer, this`num_bits, this`code_buffer, this`fed
      ensures Reads() && num_bits == old(num_bits) + 8
    {
      var b := Fetch();
      FieldPush(d, p, num_bits, b);
      code_buffer := BitOr(code_buffer, Shl(b, num_bits));
      num_bits := num_bits + 8;
    }

    /** Takes n bits, low bit first. */
    method Zreceive(n: nat) returns (k: nat)
      requires Reads() && n <= 24
      modifies this`zbuffer, this`num_bits, this`code_buffer, this`fed, this`p
      ensures Reads() && p == old(p) + n && k == Field(d, old(p), n)
      ensures Feeding() == Take(old(Feeding()), old(p), n)
    {
      TakeIs(Feeding(), p, n);
      if num_bits < n {
        FillBits();
      }
      k := TakeBits(n);
    }

    method TakeBits(n: nat) returns (k: nat)
      requires Reads() && n <= num_bits
      modifies this`num_bits, this`code_buffer, this`p
      ensures Reads() && p == old(p) + n && k == Field(d, old(p), n)
    {
      Takes(d, p, num_bits, n);
      k := Low(code_buffer, n);
      code_buffer := Shr(code_buffer, n);
      num_bits := num_bits - n;
      p := p + n;
    }

    // ---------- symbols ----------

    /** Makes sixteen bits available; fails when the input ended more than sixteen bits ago. */
    method Ensure16() returns (ok: bool)
      requires Reads()
      modifies this`zbuffer, this`num_bits, this`code_buffer, this`fed, this`hit_zeof_once
      ensures ok ==> Reads() && num_bits >= 16 && Feeding() == Word(old(Feeding()), p, |input|)
      ensures !ok ==> Word(old(Feeding()), p, |input|).Late?
    {
      ok := true;
      WordIs(Feeding(), p, |input|);
      if num_bits < 16 {
        if zbuffer >= |input| {
          if hit_zeof_once {
            return false;
          }
          hit_zeof_once := true;
          FieldPadded(d, p, num_bits, 16);
          num_bits := num_bits + 16;
          fed := fed + 2;
        } else {
          FillBits();
        }
      }
    }

    /** The next symbol; negative when no word matches or the input has ended. */
    method HuffmanDecode(h: Z.Lookup, ghost w: Words) returns (r: int)
      requires Reads() && Z.Decodes(h, w)
      modifies this`zbuffer, this`num_bits, this`code_buffer, this`fed, this`hit_zeof_once, this`p
      ensures r >= 0 ==> Reads() && ReadSymbol(w, d, old(p)) == Sym(r, p)
      ensures r >= 0 ==> Feeding() == Word(old(Feeding()), old(p), |input|)
      ensures r < 0 ==> ReadSymbol(w, d, old(p)) == NoSym || Word(old(Feeding()), old(p), |input|).Late?
    {
      var ok := Ensure16();
      if !ok {
        return -1;
      }
      Takes(d, p, num_bits, 9);
      Pow2Values();
      ghost var x := Field(d, p, 9);
      var b := h.fast[Low(code_buffer, 9)];
      if b != 0 {
        Z.FastPath(h, w, d, p, x);
        var _ := TakeBits(b / 512);
        return b % 512;
      }
      r := HuffmanDecodeSlow(h, w);
    }

    method HuffmanDecodeSlow(h: Z.Lookup, ghost w: Words) returns (r: int)
      requires Reads() && num_bits >= 16 && Z.Decodes(h, w) && Field(d, p, 9) < 512 && h.fast[Field(d, p, 9)] == 0
      modifies this`num_bits, this`code_buffer, this`p
      ensures r >= 0 ==> Reads() && ReadSymbol(w, d, old(p)) == Sym(r, p)
      ensures r < 0 ==> ReadSymbol(w, d, old(p)) == NoSym
    {
      var k := BitReverse(code_buffer, 16);
      ReversedBits(d, p, num_bits);
      var s, b := FindSlow(h, w, k, d, p);
      if s >= 16 {
        return -1;
      }
      if b >= Z.ZNSYMS {
        return -1;
      }
      if h.size[b] != s {
        return -1;
      }
      var _ := TakeBits(s);
      r := h.value[b];
    }

    // ---------- output ----------

    /** The size that holds n more bytes, found by doubling; 0 when it would not fit in 32 bits. */
    method Doubled(n: nat) returns (limit: nat)
      requires Writes() && zout + n > zout_start.Length
      ensures limit != 0 ==> zout + n <= limit <= 0xFFFF_FFFF && zout_start.Length <= limit
      ensures limit != 0 ==> Largest(limit) == Largest(zout_start.Length)
      ensures limit == 0 ==> zout + n > 0xFFFF_FFFF || zout + n > Largest(zout_start.Length)
    {
      limit := zout_start.Length;
      if 0xFFFF_FFFF - zout < n {
        return 0;
      }
      while zout + n > limit
        invariant 0 < zout_start.Length <= limit && Largest(limit) == Largest(zout_start.Length)
        invariant limit == zout_start.Length || limit <= 0xFFFF_FFFF
        decreases zout + n - limit
      {
        if limit > 0x7FFF_FFFF {
          return 0;
        }
        limit := 2 * limit;
      }
    }

    /** Makes room for n bytes by moving the output to a larger buffer. */
    method Zexpand(n: nat) returns (ok: bool)
      requires Writes() && zout + n > zout_start.Length
      modifies this`zout_start
      ensures Writes() && Contents() == old(Contents()) && (zout_start == old(zout_start) || fresh(zout_start))
      ensures ok ==> zout + n <= zout_start.Length
      ensures !ok ==> Cramped(z_expandable, capacity, zout + n)
    {
      if !z_expandable {
        return false;
      }
      var limit := Doubled(n);
      if limit == 0 {
        return false;
      }
      var q := new Byte[limit](_ => 0);
      forall i | 0 <= i < zout {
        q[i] := zout_start[i];
      }
      zout_start := q;
      ok := true;
    }

    /** Makes room if there is none. */
    method Reserve(n: nat) returns (ok: bool)
      requires Writes()
      modifies this`zout_start
      ensures Writes() && Contents() == old(Contents()) && (zout_start == old(zout_start) || fresh(zout_start))
      ensures ok ==> zout + n <= zout_start.Length
      ensures !ok ==> Cramped(z_expandable, capacity, zout + n)
    {
      ok := true;
      if n > zout_start.Length - zout {
        ok := Zexpand(n);
      }
    }

    /** Writes one byte where there is room. */
    method Store(b: Byte)
      requires Writes() && zout < zout_start.Length
      modifies this`zout, zout_start
      ensures Writes() && Contents() == old(Contents()) + [b]
    {
      zout_start[zout] := b;
      zout := zout + 1;
    }

    method PutLiteral(b: Byte) returns (ok: bool)
      requires Writes()
      modifies this`zout, this`zout_start, zout_start
      ensures Writes() && (zout_start == old(zout_start) || fresh(zout_start))
      ensures ok ==> Contents() == old(Contents()) + [b]
      ensures !ok ==> Cramped(z_expandable, capacity, old(zout) + 1)
    {
      ok := Reserve(1);
      if ok {
        Store(b);
      }
    }

    /** Repeats what was written dist bytes ago; one byte ago is a run of one value. */
    method PutCopy(len: nat, dist: nat) returns (ok: bool)
      requires Writes() && dist >= 1
      modifies this`zout, this`zout_start, zout_start
      ensures Writes() && (zout_start == old(zout_start) || fresh(zout_start))
      ensures ok ==> dist <= old(zout) && Contents() == CopyBack(old(Contents()), dist, len)
      ensures ok ==> |Contents()| == old(zout) + len && Contents()[..old(zout)] == old(Contents())
                     && forall i :: old(zout) <= i < old(zout) + len ==> Contents()[i] == Contents()[i - dist]
      ensures !ok ==> dist > old(zout) || Cramped(z_expandable, capacity, old(zout) + len)
    {
      if zout < dist {
        return false;
      }
      CopyBackIs(Contents(), dist, len);
      ok := Reserve(len);
      if ok {
        if dist == 1 {
          FillRun(len);
        } else {
          CopyBytes(len, dist);
        }
      }
    }

    method FillRun(len: nat)
      requires Writes() && 1 <= zout && zout + len <= zout_start.Length
      modifies this`zout, zout_start
      ensures Writes() && Contents() == CopyBack(old(Contents()), 1, len)
    {
      var v := zout_start[zout - 1];
      ghost var before := Contents();
      for i := 0 to len
        invariant Writes() && zout == |before| + i && zout_start == old(zout_start)
        invariant Contents() == CopyBack(before, 1, i) && Contents()[zout - 1] == v
      {
        Store(v);
      }
    }

    method CopyBytes(len: nat, dist: nat)
      requires Writes() && 1 <= dist <= zout && zout + len <= zout_start.Length
      modifies this`zout, zout_start
      ensures Writes() && Contents() == CopyBack(old(Contents()), dist, len)
    {
      ghost var before := Contents();
      for i := 0 to len
        invariant Writes() && zout == |before| + i && zout_start == old(zout_start)
        invariant Contents() == CopyBack(before, dist, i)
      {
        assert zout_start[zout - dist] == Contents()[zout - dist];
        Store(zout_start[zout - dist]);
      }
    }

    // ---------- compressed blocks ----------

    /** What has been written has room. */
    lemma {:induction false} Roomy()
      requires Writes()
      ensures !Cramped(z_expandable, capacity, zout)
    {
    }

    /** A number of bits that may be none. */
    method ReceiveExtra(n: nat) returns (k: nat)
      requires Reads() && n <= 24
      modifies this`zbuffer, this`num_bits, this`code_buffer, this`fed, this`p
      ensures Reads() && p == old(p) + n && k == Field(d, old(p), n)
      ensures Feeding() == Take(old(Feeding()), old(p), n)
    {
      k := 0;
      TakeIs(Feeding(), p, n);
      if n != 0 {
        k := Zreceive(n);
      }
    }

    /** The distance of a match, after the bits that give its length. */
    method ReadDist(hd: Z.Lookup, ghost dd: Words, ghost len: nat) returns (ok: bool, dist: nat)
      requires Reads() && Z.Decodes(hd, dd)
      modifies this`zbuffer, this`num_bits, this`code_buffer, this`fed, this`hit_zeof_once, this`p
      ensures ok ==> Reads() && dist >= 1 && DistanceOf(ReadSymbol(dd, d, old(p)), len, d) == Copy(len, dist, p)
      ensures var f := DistFeed(ReadSymbol(dd, d, old(p)), Word(old(Feeding()), old(p), |input|));
              if ok then Feeding() == f else Ends(DistanceOf(ReadSymbol(dd, d, old(p)), len, d), f)
    {
      ghost var r := ReadSymbol(dd, d, p);
      dist := 0;
      var z := HuffmanDecode(hd, dd);
      if z < 0 {
        return false, 0;
      }
      ok := z < 30;
      if ok {
        var e := ReceiveExtra(DistExtra(z));
        DistPositive(z);
        dist := DistBase(z) + e;
      }
    }

    method ReadLength(z: nat) returns (len: nat)
      requires Reads() && z < 29
      modifies this`zbuffer, this`num_bits, this`code_buffer, this`fed, this`p
      ensures Reads() && p == old(p) + LengthExtra(z) && len >= 3 && len == LengthBase(z) + Field(d, old(p), LengthExtra(z))
      ensures Feeding() == Take(old(Feeding()), old(p), LengthExtra(z))
    {
      var e := ReceiveExtra(LengthExtra(z));
      LengthPositive(z);
      len := LengthBase(z) + e;
    }

    method ReceiveMatch(hd: Z.Lookup, ghost dd: Words, z: nat) returns (ok: bool, len: nat, dist: nat)
      requires Reads() && Z.Decodes(hd, dd) && z < 29
      modifies this`zbuffer, this`num_bits, this`code_buffer, this`fed, this`hit_zeof_once, this`p
      ensures ok ==> Reads() && dist >= 1 && len >= 3 && ReadMatch(z, old(p), dd, d) == Copy(len, dist, p)
      ensures var f := MatchFeed(z, dd, d, old(Feeding()), old(p), |input|);
              if ok then Feeding() == f else Ends(ReadMatch(z, old(p), dd, d), f)
    {
      ghost var f, q := Feeding(), p;
      len := ReadLength(z);
      MatchIs(z, dd, d, f, q, |input|, len, p, Feeding());
      ok, dist := ReadDist(hd, dd, len);
    }

    /** One token of a block and its effect: 1 at the end of the block, -1 on an error, 0 otherwise. */
    method DecodeToken(hl: Z.Lookup, hd: Z.Lookup, ghost ll: Words, ghost dd: Words) returns (progress: int)
      requires Reads() && Writes() && Z.Decodes(hl, ll) && Z.Decodes(hd, dd)
      modifies this, zout_start
      ensures Writes() && (zout_start == old(zout_start) || fresh(zout_start))
      ensures Progresses(ReadToken(ll, dd, d, old(p)), TokenFeed(ll, dd, d, old(Feeding()), old(p), |input|),
                         old(Contents()), progress)
    {
      ghost var r := ReadSymbol(ll, d, p);
      TokenFeedIs(ll, dd, d, Feeding(), p, |input|);
      SymbolLate(r, dd, d, |input|);
      var z := HuffmanDecode(hl, ll);
      if z < 0 {
        progress := -1;
      } else {
        progress := ObeySymbol(z, hd, dd, r);
      }
    }

    /** The effect of symbol z of the literal/length code, which has just been read. */
    method ObeySymbol(z: nat, hd: Z.Lookup, ghost dd: Words, ghost r: Read) returns (progress: int)
      requires Reads() && Writes() && Z.Decodes(hd, dd) && r == Sym(z, p)
      modifies this, zout_start
      ensures Writes() && (zout_start == old(zout_start) || fresh(zout_start))
      ensures Progresses(TokenOf(r, dd, d), SymbolFeed(r, dd, d, old(Feeding()), |input|), old(Contents()), progress)
    {
      if z < 256 {
        progress := DecodeLiteral(z, p);
      } else {
        progress := ObeyCode(z, hd, dd, p);
      }
    }

    /** Any symbol but a literal. */
    method ObeyCode(z: nat, hd: Z.Lookup, ghost dd: Words, ghost q: nat) returns (progress: int)
      requires Reads() && Writes() && Z.Decodes(hd, dd) && z >= 256 && q == p
      modifies this, zout_start
      ensures Writes() && (zout_start == old(zout_start) || fresh(zout_start))
      ensures Progresses(TokenOf(Sym(z, q), dd, d), SymbolFeed(Sym(z, q), dd, d, old(Feeding()), |input|),
                         old(Contents()), progress)
    {
      if z == 256 {
        progress := EndBlock();
      } else if z >= 286 {
        progress := -1;
      } else {
        progress := DecodeMatch(hd, dd, z - 257);
      }
    }

    /** Refused when fewer than sixteen bits are left of what was read past the end. */
    method EndBlock() returns (progress: int)
      requires Reads() && Writes()
      ensures Progresses(EndOfBlock(p), ZlibReader.End(Feeding(), p), Contents(), progress)
    {
      progress := if hit_zeof_once && num_bits < 16 then -1 else 1;
    }

    method DecodeLiteral(z: Byte, ghost q: nat) returns (progress: int)
      requires Reads() && Writes() && q == p
      modifies this`zout, this`zout_start, zout_start
      ensures Writes() && (zout_start == old(zout_start) || fresh(zout_start))
      ensures Progresses(Literal(z, q), old(Feeding()), old(Contents()), progress)
    {
      var ok := PutLiteral(z);
      progress := if ok then 0 else -1;
    }

    method DecodeMatch(hd: Z.Lookup, ghost dd: Words, z: nat) returns (progress: int)
      requires Reads() && Writes() && Z.Decodes(hd, dd) && z < 29
      modifies this, zout_start
      ensures Writes() && (zout_start == old(zout_start) || fresh(zout_start))
      ensures Progresses(ReadMatch(z, old(p), dd, d), MatchFeed(z, dd, d, old(Feeding()), old(p), |input|),
                         old(Contents()), progress)
    {
      var ok, len, dist := ReceiveMatch(hd, dd, z);
      if !ok {
        return -1;
      }
      ok := PutCopy(len, dist);
      progress := if ok then 0 else -1;
    }

    /** The tokens of a block up to its end; every one but the last writes something. */
    method ParseHuffmanBlock(hl: Z.Lookup, hd: Z.Lookup, ghost ll: Words, ghost dd: Words)
      returns (ok: bool, ghost n: nat)
      requires Reads() && Writes() && Z.Decodes(hl, ll) && Z.Decodes(hd, dd)
      modifies this, zout_start
      ensures Writes() && (zout_start == old(zout_start) || fresh(zout_start))
      ensures ok ==> Reads() && Coded(ll, dd, d, State(old(p), old(Contents())), n, State(p, Contents()))
      ensures ok ==> Feeding() == RunFeed(ll, dd, d, State(old(p), old(Contents())), n + 1, old(Feeding()), |input|)
      ensures !ok ==> RefusedAt(ll, dd, State(old(p), old(Contents())), n, old(Feeding()))
    {
      n := 0;
      ghost var start, f := State(p, Contents()), Feeding();
      while true
        invariant Reads() && Writes() && (zout_start == old(zout_start) || fresh(zout_start))
        invariant Ran(ll, dd, start, n, f)
        decreases capacity + 0xFFFF_FFFF - zout
      {
        var progress := Advance(hl, hd, ll, dd, start, n, f);
        if progress != 0 {
          return progress > 0, n;
        }
        n := n + 1;
      }
    }

    /** The state after n tokens has been reached. */
    ghost predicate Ran(ll: Words, dd: Words, start: State, n: nat, f: Feed)
      requires Writes()
      reads this, zout_start
    {
      forall k: nat :: RanFor(ll, dd, start, n, f, k)
    }

    ghost predicate RanFor(ll: Words, dd: Words, start: State, n: nat, f: Feed, k: nat)
      requires Writes()
      reads this, zout_start
    {
      k == n ==>
        && Run(ll, dd, d, start, k) == Reached(State(p, Contents()))
        && Feeding() == RunFeed(ll, dd, d, start, k, f, |input|)
    }

    /** One token after n others. */
    method Advance(hl: Z.Lookup, hd: Z.Lookup, ghost ll: Words, ghost dd: Words, ghost start: State, ghost n: nat,
                   ghost f: Feed) returns (progress: int)
      requires Reads() && Writes() && Z.Decodes(hl, ll) && Z.Decodes(hd, dd)
      requires Ran(ll, dd, start, n, f)
      modifies this, zout_start
      ensures Writes() && (zout_start == old(zout_start) || fresh(zout_start))
      ensures progress >= 0 ==> Reads()
      ensures progress > 0 ==> Coded(ll, dd, d, start, n, State(p, Contents()))
      ensures progress > 0 ==> Feeding() == RunFeed(ll, dd, d, start, n + 1, f, |input|)
      ensures progress == 0 ==> zout > old(zout) && Ran(ll, dd, start, n + 1, f)
      ensures progress < 0 ==> RefusedAt(ll, dd, start, n, f)
    {
      assert RanFor(ll, dd, start, n, f, n);
      RunNext(ll, dd, d, start, n, State(p, Contents()), f, |input|);
      progress := DecodeToken(hl, hd, ll, dd);
    }

    // ---------- code lengths ----------

    method ReadLengthLengths(hclen: nat) returns (cl: seq<nat>)
      requires Reads() && hclen <= 19
      modifies this`zbuffer, this`num_bits, this`code_buffer, this`fed, this`p
      ensures Reads() && p == old(p) + 3 * hclen && cl == LengthLengths(d, old(p), hclen) && Lengths(cl)
      ensures Feeding() == LengthsFeed(old(Feeding()), old(p), hclen)
    {
      cl := seq(19, _ => 0);
      for i := 0 to hclen
        invariant Reads() && p == old(p) + 3 * i && |cl| == 19
        invariant forall k :: 0 <= k < 19 ==> cl[k] == LengthLength(d, old(p), i, k)
        invariant Feeding() == LengthsFeed(old(Feeding()), old(p), i)
      {
        var s := Zreceive(3);
        NextLengthLength(i);
        cl := cl[Dezigzag(i) := s];
      }
    }

    /** The lengths that one symbol of the code length code adds; fails on a bad symbol. */
    method ReadRepeat(hc: Z.Lookup, ghost cl: Words, got: seq<nat>, ntot: nat) returns (ok: bool, more: seq<nat>)
      requires Reads() && Z.Decodes(hc, cl) && cl.count == 19 && |got| < ntot && Lengths(got)
      modifies this`zbuffer, this`num_bits, this`code_buffer, this`fed, this`hit_zeof_once, this`p
      ensures ok ==> Reads() && |got| < |more| <= ntot && Lengths(more)
      ensures ok ==> SameLens(cl, d, old(Feeding()), old(p), got, Feeding(), p, more, ntot, |input|)
      ensures !ok ==> LensBad(cl, d, old(Feeding()), old(p), ntot, got, |input|)
    {
      LensStep(cl, d, Feeding(), p, ntot, got, |input|);
      var c := HuffmanDecode(hc, cl);
      if c < 0 || c >= 19 {
        return false, got;
      }
      ok, more := Repeated(c, got, ntot);
      if |more| > ntot {
        TooMany(cl, d, Feeding(), p, ntot, more, |input|);
      }
    }

    /** The lengths that symbol c adds, with its extra bits. */
    method Repeated(c: nat, got: seq<nat>, ntot: nat) returns (ok: bool, more: seq<nat>)
      requires Reads() && c < 19 && Lengths(got)
      modifies this`zbuffer, this`num_bits, this`code_buffer, this`fed, this`p
      ensures c == 16 && got == [] ==> !ok
      ensures !(c == 16 && got == []) ==>
                && Reads() && p == old(p) + RepeatBits(c) && Lengths(more) && (ok <==> |more| <= ntot)
                && more == Extended(got, c, Field(d, old(p), RepeatBits(c)))
                && Feeding() == Take(old(Feeding()), old(p), RepeatBits(c))
    {
      var v := ReceiveExtra(RepeatBits(c));
      if c == 16 && got == [] {
        return false, got;
      }
      more := Extended(got, c, v);
      ok := |more| <= ntot;
      ExtendedLengths(got, c, v);
    }

    /** Run-length coded code lengths. */
    method ReadCodeLengths(hc: Z.Lookup, ghost cl: Words, ntot: nat) returns (ok: bool, lencodes: seq<nat>)
      requires Reads() && Z.Decodes(hc, cl) && cl.count == 19
      modifies this`zbuffer, this`num_bits, this`code_buffer, this`fed, this`hit_zeof_once, this`p
      ensures ok ==> Reads() && |lencodes| == ntot && Lengths(lencodes)
      ensures ok ==> ReadLens(cl, d, old(p), ntot, []) == Lens(lencodes, p)
      ensures ok ==> Feeding() == LensFeed(cl, d, old(Feeding()), old(p), ntot, [], |input|)
      ensures !ok ==> LensBad(cl, d, old(Feeding()), old(p), ntot, [], |input|)
    {
      lencodes := [];
      ok := true;
      while |lencodes| < ntot
        invariant ok && Reads() && |lencodes| <= ntot && Lengths(lencodes)
        invariant SameLens(cl, d, old(Feeding()), old(p), [], Feeding(), p, lencodes, ntot, |input|)
        decreases ntot - |lencodes|
      {
        ok, lencodes := ReadRepeat(hc, cl, lencodes, ntot);
        if !ok {
          return;
        }
      }
    }

    /** The code lengths of a dynamic block. */
    method ReadBothLengths(cl: seq<nat>, hlit: nat, hdist: nat) returns (ok: bool, lencodes: seq<nat>)
      requires Reads() && |cl| == 19 && Lengths(cl)
      modifies this`zbuffer, this`num_bits, this`code_buffer, this`fed, this`hit_zeof_once, this`p
      ensures ok ==> Reads() && |lencodes| == hlit + hdist && Lengths(lencodes)
      ensures ok ==> ReadCodes(cl, d, old(p), hlit, hdist) == Codes(lencodes, hlit, p)
      ensures var f := CodesFeed(cl, d, old(Feeding()), old(p), hlit + hdist, |input|);
              if ok then Feeding() == f else Unreadable(ReadCodes(cl, d, old(p), hlit, hdist), f)
    {
      lencodes := [];
      var hc;
      ok, hc := BuildTable(cl);
      if ok {
        CodeLengthsAre(cl, d, p, hlit + hdist);
        CodesFeedIs(cl, d, Feeding(), p, hlit + hdist, |input|);
        ok, lencodes := ReadCodeLengths(hc, WordsOf(cl), hlit + hdist);
      }
    }

    /** The header of a dynamic block, and the tables of its two codes. */
    method ComputeHuffmanCodes() returns (ok: bool, hl: Z.Lookup, hd: Z.Lookup, ghost h: Header)
      requires Reads()
      modifies this`zbuffer, this`num_bits, this`code_buffer, this`fed, this`hit_zeof_once, this`p
      ensures h == ReadDynamic(d, old(p))
      ensures ok ==> Reads() && h.Codes? && h.pos == p && Ready(h, hl, hd)
      ensures var f := DynamicFeed(d, old(Feeding()), old(p), |input|);
              if ok then Feeding() == f else HeaderLost(h, f)
    {
      h := ReadDynamic(d, p);
      hl, hd := NoTable(), NoTable();
      var hlit, lencodes;
      ok, hlit, lencodes := ReadDynamicLengths();
      if ok {
        ok, hl, hd := BuildBoth(lencodes, hlit, h);
      }
    }

    method ReadDynamicLengths() returns (ok: bool, hlit: nat, lencodes: seq<nat>)
      requires Reads()
      modifies this`zbuffer, this`num_bits, this`code_buffer, this`fed, this`hit_zeof_once, this`p
      ensures ok ==> Reads() && hlit <= |lencodes| && Lengths(lencodes)
      ensures ok ==> hlit <= Z.ZNSYMS && |lencodes| - hlit <= Z.ZNSYMS
      ensures ok ==> ReadDynamic(d, old(p)) == Codes(lencodes, hlit, p)
      ensures var f := DynamicFeed(d, old(Feeding()), old(p), |input|);
              if ok then Feeding() == f else Unreadable(ReadDynamic(d, old(p)), f)
    {
      var hdist, hclen;
      ghost var f, q := Feeding(), p;
      hlit, hdist, hclen := ReadCounts();
      DynamicIs(d, f, q, hlit, hdist, hclen, |input|);
      ok, lencodes := ReadCountedLengths(hlit, hdist, hclen);
    }

    method ReadCountedLengths(hlit: nat, hdist: nat, hclen: nat) returns (ok: bool, lencodes: seq<nat>)
      requires Reads() && hclen <= 19
      modifies this`zbuffer, this`num_bits, this`code_buffer, this`fed, this`hit_zeof_once, this`p
      ensures ok ==> Reads() && |lencodes| == hlit + hdist && Lengths(lencodes)
      ensures ok ==> ReadCounted(d, old(p), hlit, hdist, hclen) == Codes(lencodes, hlit, p)
      ensures var f := CountedFeed(d, old(Feeding()), old(p), hlit, hdist, hclen, |input|);
              if ok then Feeding() == f else Unreadable(ReadCounted(d, old(p), hlit, hdist, hclen), f)
    {
      CountedFeedIs(d, Feeding(), p, hlit, hdist, hclen, |input|);
      var cl := ReadLengthLengths(hclen);
      ok, lencodes := ReadBothLengths(cl, hlit, hdist);
    }

    /** How many lengths there are of each kind. */
    method ReadCounts() returns (hlit: nat, hdist: nat, hclen: nat)
      requires Reads()
      modifies this`zbuffer, this`num_bits, this`code_buffer, this`fed, this`p
      ensures Reads() && p == old(p) + 14 && hlit <= Z.ZNSYMS && hdist <= Z.ZNSYMS
      ensures hlit == Field(d, old(p), 5) + 257 && hdist == Field(d, old(p) + 5, 5) + 1
      ensures hclen == Field(d, old(p) + 10, 4) + 4 <= 19
      ensures Feeding() == CountsFeed(old(Feeding()), old(p))
    {
      hlit := Zreceive(5);
      hdist := Zreceive(5);
      hclen := Zreceive(4);
      Pow2Values();
      hlit, hdist, hclen := hlit + 257, hdist + 1, hclen + 4;
    }

    // ---------- stored blocks ----------

    /** Drops the rest of the current byte; the buffer then holds whole bytes. */
    method DiscardBits() returns (ghost whole: nat)
      requires Reads()
      modifies this`num_bits, this`code_buffer, this`p
      ensures Reads() && p == Align(old(p)) && num_bits == 8 * whole
    {
      AlignIs(fed, num_bits, p);
      whole := num_bits / 8;
      var drop := num_bits % 8;
      if drop != 0 {
        var _ := TakeBits(drop);
      }
    }

    /** Moves the buffered bytes to the header. */
    method DrainHeader(ghost whole0: nat) returns (header: seq<Byte>)
      requires Reads() && num_bits == 8 * whole0
      modifies this`num_bits, this`code_buffer, this`p
      ensures Reads() && num_bits == 0 && |header| <= 4 && BytesFrom(d, old(p), header) && p == old(p) + 8 * |header|
    {
      header := [];
      ghost var whole := whole0;
      while num_bits > 0
        invariant Reads() && num_bits == 8 * whole && |header| + whole <= 4
        invariant BytesFrom(d, old(p), header) && p == old(p) + 8 * |header|
        decreases num_bits
      {
        var b := TakeBits(8);
        Pow2Values();
        BytesFromPush(d, old(p), header, b);
        header := header + [b];
        whole := whole - 1;
      }
    }

    /** The four bytes after the next byte boundary: first from the bit buffer, then from the input. */
    method ReadStoredHeader() returns (header: seq<Byte>)
      requires Reads()
      modifies this`zbuffer, this`num_bits, this`code_buffer, this`fed, this`p
      ensures Reads() && num_bits == 0 && p == Align(old(p)) + 32
      ensures |header| == 4 && BytesFrom(d, Align(old(p)), header)
    {
      ghost var whole := DiscardBits();
      header := DrainHeader(whole);
      while |header| < 4
        invariant Reads() && num_bits == 0 && |header| <= 4
        invariant BytesFrom(d, Align(old(p)), header) && p == Align(old(p)) + 8 * |header|
      {
        var b := Zget8();
        BytesFromPush(d, Align(old(p)), header, b);
        header := header + [b];
      }
    }

    /** The length of a stored block whose complement matches and whose bytes are all there. */
    method ReadStoredLength() returns (ok: bool, len: nat)
      requires Reads()
      modifies this`zbuffer, this`num_bits, this`code_buffer, this`fed, this`p
      ensures ok ==> Reads() && num_bits == 0 && zbuffer == fed && zbuffer + len <= |input|
      ensures var a := Align(old(p));
              if ok then len == Field(d, a, 16) && Field(d, a + 16, 16) == 0xFFFF - len && p == a + 32
              else StoredBad(a)
    {
      ghost var a := Align(p);
      var header := ReadStoredHeader();
      HeaderFields(d, a, header);
      len := Pair(header[0], header[1]);
      var nlen := Pair(header[2], header[3]);
      if nlen != 0xFFFF - len {
        return false, 0;
      }
      if zbuffer + len > |input| {
        return false, 0;
      }
      LengthInside(d, a + 24, header, fed, |input|);
      ok := true;
    }

    /** The length does not match its complement, or the bytes end past the input. */
    ghost predicate StoredBad(a: nat) {
      var len := Field(d, a, 16);
      Field(d, a + 16, 16) != 0xFFFF - len || a + 32 + 8 * len > 8 * |input|
    }

    method ParseUncompressedBlock() returns (ok: bool)
      requires Reads() && Writes()
      modifies this, zout_start
      ensures Writes() && (zout_start == old(zout_start) || fresh(zout_start))
      ensures ok ==> Reads() && Stored(d, State(old(p), old(Contents())), State(p, Contents()))
      ensures ok ==> Feeding() == StoredFeed(d, old(Feeding()), old(p), |input|)
      ensures !ok ==> StoredRefused(State(old(p), old(Contents())), old(Feeding()))
    {
      var len;
      ghost var f, s := Feeding(), State(p, Contents());
      ok, len := ReadStoredLength();
      if ok {
        ok := PutBlock(len, f, s);
      }
    }

    /** The bytes of a stored block that began at s. */
    method PutBlock(len: nat, ghost f: Feed, ghost s: State) returns (ok: bool)
      requires Reads() && Writes() && num_bits == 0 && zbuffer == fed && zbuffer + len <= |input|
      requires len == Field(d, Align(s.pos), 16) && Field(d, Align(s.pos) + 16, 16) == 0xFFFF - len
      requires p == Align(s.pos) + 32 && Contents() == s.out && f.Feed? && f.hit == hit_zeof_once
      modifies this`zbuffer, this`fed, this`p, this`code_buffer, this`zout, this`zout_start, zout_start
      ensures Writes() && (zout_start == old(zout_start) || fresh(zout_start))
      ensures ok ==> Reads() && Stored(d, s, State(p, Contents())) && Feeding() == StoredFeed(d, f, s.pos, |input|)
      ensures !ok ==> Cramped(z_expandable, capacity, |s.out| + len)
    {
      ok := PutStored(len);
      if ok {
        StoredRead(d, s, State(p, Contents()), len, f, Feeding(), |input|);
      }
    }

    method PutStored(len: nat) returns (ok: bool)
      requires Reads() && Writes() && num_bits == 0 && zbuffer == fed && zbuffer + len <= |input|
      modifies this`zbuffer, this`fed, this`p, this`code_buffer, this`zout, this`zout_start, zout_start
      ensures Writes() && (zout_start == old(zout_start) || fresh(zout_start))
      ensures ok ==> Reads() && p == old(p) + 8 * len && Contents() == old(Contents()) + BytesAt(d, old(p), len)
      ensures ok ==> fed <= |input|
      ensures !ok ==> Cramped(z_expandable, capacity, old(zout) + len)
    {
      ok := Reserve(len);
      if ok {
        CopyStored(len);
      }
    }

    /** Copies len bytes of the input to the output. */
    method CopyStored(len: nat)
      requires Reads() && Writes() && num_bits == 0 && zbuffer == fed
      requires zbuffer + len <= |input| && zout + len <= zout_start.Length
      modifies this`zbuffer, this`fed, this`p, this`code_buffer, this`zout, zout_start
      ensures Reads() && Writes() && p == old(p) + 8 * len
      ensures Contents() == old(Contents()) + BytesAt(d, old(p), len) && fed <= |input|
    {
      BytesAre(input, d, fed, len);
      forall i | 0 <= i < len {
        zout_start[zout + i] := input[zbuffer + i];
      }
      assert zout_start[..zout + len] == old(Contents()) + input[zbuffer..zbuffer + len];
      zbuffer, zout := zbuffer + len, zout + len;
      fed, p, code_buffer := fed + len, p + 8 * len, 0;
    }

    /** Why decoding may stop at a stored block. */
    ghost predicate StoredRefused(s: State, f: Feed)
      requires capacity > 0
    {
      var len := Field(d, Align(s.pos), 16);
      || Field(d, Align(s.pos) + 16, 16) != 0xFFFF - len || StoredFeed(d, f, s.pos, |input|).Late?
      || Cramped(z_expandable, capacity, |s.out| + len)
    }

    // ---------- blocks ----------

    /** The tables of a block of type 1 or 2. */
    method ReadTables(kind: nat) returns (ok: bool, hl: Z.Lookup, hd: Z.Lookup, ghost h: Header)
      requires Reads()
      modifies this`zbuffer, this`num_bits, this`code_buffer, this`fed, this`hit_zeof_once, this`p
      ensures h == HeaderOf(d, kind, old(p))
      ensures ok ==> Reads() && h.Codes? && h.pos == p && Ready(h, hl, hd)
      ensures var f := HeaderFeed(d, kind, old(Feeding()), old(p), |input|);
              if ok then Feeding() == f else HeaderLost(h, f)
    {
      if kind == 1 {
        h := Codes(FixedLengths() + FixedDistances(), 288, p);
        FixedDecent(p);
        ok, hl, hd := BuildBoth(FixedLengths() + FixedDistances(), 288, h);
      } else {
        ok, hl, hd, h := ComputeHuffmanCodes();
      }
    }

    method ParseCompressedBlock(kind: nat) returns (ok: bool, ghost n: nat)
      requires Reads() && Writes()
      modifies this, zout_start
      ensures Writes() && (zout_start == old(zout_start) || fresh(zout_start))
      ensures ok ==> Reads() && Compressed(d, kind, State(old(p), old(Contents())), n, State(p, Contents()))
      ensures ok ==> Feeding() == CompressedFeed(d, kind, State(old(p), old(Contents())), n, old(Feeding()), |input|)
      ensures !ok ==> CompressedRefused(kind, State(old(p), old(Contents())), n, old(Feeding()))
    {
      n := 0;
      ghost var s, f := State(p, Contents()), Feeding();
      var hl, hd;
      ghost var h;
      ok, hl, hd, h := ReadTables(kind);
      if ok {
        ok, n := ParseAfterHeader(hl, hd, h);
        CompressedIs(d, kind, s, n, State(p, Contents()), h);
      }
      CompressedFeedIs(d, kind, s, n, f, |input|, h);
    }

    method ParseAfterHeader(hl: Z.Lookup, hd: Z.Lookup, ghost h: Header) returns (ok: bool, ghost n: nat)
      requires Reads() && Writes() && h.Codes? && h.pos == p && Ready(h, hl, hd)
      modifies this, zout_start
      ensures Writes() && (zout_start == old(zout_start) || fresh(zout_start))
      ensures ok ==> Reads() && CodedAfter(h, d, old(Contents()), n, State(p, Contents()))
      ensures ok ==> Feeding() == CodedFeed(h, d, old(Contents()), n, old(Feeding()), |input|)
      ensures !ok ==> RefusedAfter(h, old(Contents()), n, old(Feeding()))
    {
      ok, n := ParseHuffmanBlock(hl, hd, WordsOf(h.lens[..h.hlit]), WordsOf(h.lens[h.hlit..]));
    }

    /** One block. */
    method ParseBlock() returns (ok: bool, final: bool, ghost n: nat)
      requires Reads() && Writes()
      modifies this, zout_start
      ensures Writes() && (zout_start == old(zout_start) || fresh(zout_start))
      ensures ok ==> Reads() && Block(d, State(old(p), old(Contents())), final, n, State(p, Contents()))
      ensures ok ==> Feeding() == BlockFeed(d, State(old(p), old(Contents())), n, old(Feeding()), |input|)
      ensures !ok ==> BlockRefused(State(old(p), old(Contents())), n, old(Feeding()))
    {
      var kind;
      ghost var s, f := State(p, Contents()), Feeding();
      final, kind := ReadBlockHead();
      ghost var t, g := State(p, Contents()), Feeding();
      ok, n := ParseBody(kind);
      if ok {
        BodyIsBlock(d, s, final, n, State(p, Contents()), f, |input|, kind, t, g);
      } else {
        BlockRefusedIs(s, n, f, kind, t, g);
      }
    }

    lemma {:induction false} BlockRefusedIs(s: State, n: nat, f: Feed, kind: nat, t: State, g: Feed)
      requires capacity > 0 && kind == Field(d, s.pos + 1, 2) && t == State(s.pos + 3, s.out) && g == HeadFeed(f, s.pos)
      ensures BlockRefused(s, n, f) <==> BodyRefused(kind, t, n, g)
    {
    }

    /** The final bit and the kind of a block. */
    method ReadBlockHead() returns (final: bool, kind: nat)
      requires Reads()
      modifies this`zbuffer, this`num_bits, this`code_buffer, this`fed, this`p
      ensures Reads() && p == old(p) + 3
      ensures final == (Field(d, old(p), 1) == 1) && kind == Field(d, old(p) + 1, 2)
      ensures Feeding() == HeadFeed(old(Feeding()), old(p))
    {
      var f := Zreceive(1);
      final := f == 1;
      kind := Zreceive(2);
    }

    method ParseBody(kind: nat) returns (ok: bool, ghost n: nat)
      requires Reads() && Writes()
      modifies this, zout_start
      ensures Writes() && (zout_start == old(zout_start) || fresh(zout_start))
      ensures ok ==> Reads() && Body(d, kind, State(old(p), old(Contents())), n, State(p, Contents()))
      ensures ok ==> Feeding() == BodyFeed(d, kind, State(old(p), old(Contents())), n, old(Feeding()), |input|)
      ensures !ok ==> BodyRefused(kind, State(old(p), old(Contents())), n, old(Feeding()))
    {
      n := 0;
      if kind == 0 {
        ok := ParseUncompressedBlock();
      } else if kind == 3 {
        ok := false;
      } else {
        ok, n := ParseCompressedBlock(kind);
      }
    }

    // ---------- every stream that is read in time is accepted ----------

    /** There is room for the output. */
    ghost predicate Fits(s: State)
      requires capacity > 0
    {
      !Cramped(z_expandable, capacity, |s.out|)
    }

    lemma {:induction false} TokenAccepted(t: Token, out: seq<Byte>, f: Feed)
      requires capacity > 0 && Apply(t, out).Reached? && Fits(Apply(t, out).s) && f.Feed?
      ensures !Refused(t, f, |out|, z_expandable, capacity)
    {
    }

    /** After k tokens a state is reached whose output has room, and the next token is read in time. */
    ghost predicate Fine(ll: Words, dd: Words, s: State, k: nat, f: Feed)
      requires capacity > 0
    {
      forall j: nat :: FineFor(ll, dd, s, k, f, j)
    }

    ghost predicate FineFor(ll: Words, dd: Words, s: State, k: nat, f: Feed, j: nat)
      requires capacity > 0
    {
      j == k ==>
        && Run(ll, dd, d, s, j).Reached? && Fits(Run(ll, dd, d, s, j).s)
        && RunFeed(ll, dd, d, s, j, f, |input|).Feed?
    }

    lemma {:induction false} EarlierFine(ll: Words, dd: Words, s: State, m: nat, k: nat, f: Feed)
      requires capacity > 0 && Fine(ll, dd, s, m, f) && k <= m
      ensures Fine(ll, dd, s, k, f)
    {
      assert FineFor(ll, dd, s, m, f, m);
      RunGrows(ll, dd, d, s, k, m);
      RunInTime(ll, dd, d, s, k, m, f, |input|);
    }

    lemma {:induction false} CodedFine(ll: Words, dd: Words, s: State, m: nat, s': State, f: Feed)
      requires capacity > 0 && Coded(ll, dd, d, s, m, s') && Fits(s')
      requires RunFeed(ll, dd, d, s, m + 1, f, |input|).Feed?
      ensures Fine(ll, dd, s, m, f)
    {
      CodedGrowsFrom(ll, dd, s, m, s');
      RunInTime(ll, dd, d, s, m, m + 1, f, |input|);
    }

    lemma {:induction false} CodedAccepted(ll: Words, dd: Words, s: State, m: nat, s': State, n: nat, f: Feed)
      requires capacity > 0 && Coded(ll, dd, d, s, m, s') && Fits(s')
      requires RunFeed(ll, dd, d, s, m + 1, f, |input|).Feed?
      ensures !RefusedAt(ll, dd, s, n, f)
    {
      if n < m {
        CodedFine(ll, dd, s, m, s', f);
        EarlierFine(ll, dd, s, m, n + 1, f);
        NotRefused(ll, dd, s, n, f);
      } else if n > m {
        RunStops(ll, dd, d, s, m, n);
        NotReached(ll, dd, s, n, f);
      } else {
        EndAccepted(ll, dd, s, m, s', f);
      }
    }

    lemma {:induction false} NotReached(ll: Words, dd: Words, s: State, n: nat, f: Feed)
      requires capacity > 0 && Run(ll, dd, d, s, n).Unreached?
      ensures !RefusedAt(ll, dd, s, n, f)
    {
      assert !RefusedFor(ll, dd, s, n, f, n);
    }

    lemma {:induction false} EndAccepted(ll: Words, dd: Words, s: State, n: nat, s': State, f: Feed)
      requires capacity > 0 && Coded(ll, dd, d, s, n, s') && RunFeed(ll, dd, d, s, n + 1, f, |input|).Feed?
      ensures !RefusedAt(ll, dd, s, n, f)
    {
      assert !RefusedFor(ll, dd, s, n, f, n);
    }

    lemma {:induction false} NotRefused(ll: Words, dd: Words, s: State, n: nat, f: Feed)
      requires capacity > 0 && Fine(ll, dd, s, n + 1, f)
      ensures !RefusedAt(ll, dd, s, n, f)
    {
      var r := Run(ll, dd, d, s, n);
      assert FineFor(ll, dd, s, n + 1, f, n + 1);
      if r.Reached? {
        TokenAccepted(ReadToken(ll, dd, d, r.s.pos), r.s.out, RunFeed(ll, dd, d, s, n + 1, f, |input|));
      }
      assert !RefusedFor(ll, dd, s, n, f, n);
    }

    lemma {:induction false} CodedGrowsFrom(ll: Words, dd: Words, s: State, m: nat, s': State)
      requires Coded(ll, dd, d, s, m, s')
      ensures NoLater(Run(ll, dd, d, s, m).s, s')
    {
      TokenMoves(ReadSymbol(ll, d, Run(ll, dd, d, s, m).s.pos), dd, d);
    }

    lemma {:induction false} CodedAfterAccepted(h: Header, out: seq<Byte>, m: nat, s': State, n: nat, f: Feed)
      requires capacity > 0 && CodedAfter(h, d, out, m, s') && Fits(s') && CodedFeed(h, d, out, m, f, |input|).Feed?
      ensures !HeaderLost(h, f) && !RefusedAfter(h, out, n, f)
    {
      var ll, dd := WordsOf(h.lens[..h.hlit]), WordsOf(h.lens[h.hlit..]);
      if f.Late? {
        RunLate(ll, dd, d, State(h.pos, out), 0, m + 1, f, |input|);
      }
      CodedAccepted(ll, dd, State(h.pos, out), m, s', n, f);
    }

    lemma {:induction false} BlockAccepted(s: State, final: bool, m: nat, s': State, n: nat, f: Feed)
      requires capacity > 0 && Block(d, s, final, m, s') && Fits(s') && BlockFeed(d, s, m, f, |input|).Feed?
      ensures !BlockRefused(s, n, f)
    {
      var kind, t, g := Field(d, s.pos + 1, 2), State(s.pos + 3, s.out), HeadFeed(f, s.pos);
      BlockIsBody(d, s, final, m, s', f, |input|, kind, t);
      BodyAccepted(kind, t, m, s', n, g);
      BlockRefusedIs(s, n, f, kind, t, g);
    }

    lemma {:induction false} BodyAccepted(kind: nat, s: State, m: nat, s': State, n: nat, f: Feed)
      requires capacity > 0 && Body(d, kind, s, m, s') && Fits(s') && BodyFeed(d, kind, s, m, f, |input|).Feed?
      ensures !BodyRefused(kind, s, n, f)
    {
      if kind != 0 {
        CompressedAccepted(kind, s, m, s', n, f);
      }
    }

    lemma {:induction false} CompressedAccepted(kind: nat, s: State, m: nat, s': State, n: nat, f: Feed)
      requires capacity > 0 && Compressed(d, kind, s, m, s') && Fits(s')
      requires CompressedFeed(d, kind, s, m, f, |input|).Feed?
      ensures !CompressedRefused(kind, s, n, f)
    {
      var h := HeaderOf(d, kind, s.pos);
      CompressedIs(d, kind, s, m, s', h);
      CompressedFeedIs(d, kind, s, m, f, |input|, h);
      CodedAfterAccepted(h, s.out, m, s', n, HeaderFeed(d, kind, f, s.pos, |input|));
      assert !RefusedWith(kind, s, n, h, f);
    }

    /** No block of a stream that is read in time and has room is refused. */
    lemma {:induction false} StreamAccepted(p: nat, g: History, m: nat, t: State, h: History, n: nat)
      requires capacity > 0 && Inflates(d, p, g, m, t) && Fits(t) && InTime(d, p, g, m, |input|)
      requires First(h) == State(p, []) && Blocks(d, h)
      ensures !BlockRefused(h.s, n, BlocksFeed(d, h, Begin(p), |input|))
    {
      var final, k, s := NextInTime(d, h, g, m, t, Begin(p), |input|);
      BlockAccepted(h.s, final, k, s, n, BlocksFeed(d, h, Begin(p), |input|));
    }

    ghost predicate RefusedAfter(h: Header, out: seq<Byte>, n: nat, f: Feed)
      requires Decent(h) && capacity > 0
    {
      RefusedAt(WordsOf(h.lens[..h.hlit]), WordsOf(h.lens[h.hlit..]), State(h.pos, out), n, f)
    }

    /** Why decoding may stop at a compressed block. */
    ghost predicate CompressedRefused(kind: nat, s: State, n: nat, f: Feed)
      requires capacity > 0
    {
      forall h: Header :: RefusedWith(kind, s, n, h, f)
    }

    ghost predicate RefusedWith(kind: nat, s: State, n: nat, h: Header, f: Feed)
      requires capacity > 0
    {
      var g := HeaderFeed(d, kind, f, s.pos, |input|);
      h == HeaderOf(d, kind, s.pos) ==> HeaderLost(h, g) || RefusedAfter(h, s.out, n, g)
    }

    ghost predicate BodyRefused(kind: nat, s: State, n: nat, f: Feed)
      requires capacity > 0
    {
      if kind == 0 then StoredRefused(s, f) else kind == 3 || CompressedRefused(kind, s, n, f)
    }

    /** Why decoding may stop at a block. */
    ghost predicate BlockRefused(s: State, n: nat, f: Feed)
      requires capacity > 0
    {
      BodyRefused(Field(d, s.pos + 1, 2), State(s.pos + 3, s.out), n, HeadFeed(f, s.pos))
    }

    // ---------- the stream ----------

    /** The two bytes of a zlib header; fails when they are not followed by anything or not acceptable. */
    method ParseZlibHeader() returns (ok: bool)
      requires Reads() && num_bits == 0 && p == 0
      modifies this`zbuffer, this`p, this`fed, this`code_buffer
      ensures ok <==> ZlibHeader(input)
      ensures Reads() && p == 16
    {
      var cmf := Zget8();
      var flg := Zget8();
      HeaderBytes(input, d, cmf, flg);
      if zbuffer >= |input| {
        return false;
      }
      if (cmf as int * 256 + flg) % 31 != 0 {
        return false;
      }
      if flg / 32 % 2 != 0 {
        return false;
      }
      ok := cmf % 16 == 8;
    }

    /** All blocks up to the final one, after the zlib header if there is to be one. */
    method ParseZlib(parse_header: bool) returns (ok: bool, ghost h: History, ghost n: nat)
      requires Reads() && Writes() && num_bits == 0 && p == 0 && !hit_zeof_once && zout == 0
      modifies this, zout_start
      ensures Writes()
      ensures ok ==> (parse_header ==> ZlibHeader(input))
      ensures ok ==> Inflates(d, StartBit(parse_header), h, n, State(p, Contents()))
      ensures ok ==> InTime(d, StartBit(parse_header), h, n, |input|)
      ensures !ok ==> || (parse_header && !ZlibHeader(input))
                      || (First(h) == State(StartBit(parse_header), []) && Blocks(d, h)
                          && BlockRefused(h.s, n, BlocksFeed(d, h, Begin(StartBit(parse_header)), |input|)))
    {
      n := 0;
      h := Start(State(0, []));
      if parse_header {
        ok := ParseZlibHeader();
        if !ok {
          return;
        }
      }
      h := Start(State(p, Contents()));
      var final := false;
      ghost var start := p;
      while true
        invariant Reads() && Writes() && (zout_start == old(zout_start) || fresh(zout_start))
        invariant First(h) == State(start, []) && Blocks(d, h) && h.s == State(p, Contents())
        invariant Feeding() == BlocksFeed(d, h, Begin(start), |input|)
        decreases |d| - p
      {
        ghost var s := h.s;
        ok, final, n := ParseBlock();
        if !ok {
          return;
        }
        BlockMoves(d, s, final, n, State(p, Contents()));
        if final {
          return;
        }
        h := Then(h, n, State(p, Contents()));
      }
    }

    /** After n tokens comes one that cannot be decoded. */
    ghost predicate RefusedAt(ll: Words, dd: Words, start: State, n: nat, f: Feed)
      requires capacity > 0
    {
      forall k: nat :: RefusedFor(ll, dd, start, n, f, k)
    }

    ghost predicate RefusedFor(ll: Words, dd: Words, start: State, n: nat, f: Feed, k: nat)
      requires capacity > 0
    {
      var r, g := Run(ll, dd, d, start, k), RunFeed(ll, dd, d, start, k + 1, f, |input|);
      k == n ==> r.Reached? && Refused(ReadToken(ll, dd, d, r.s.pos), g, |r.s.out|, z_expandable, capacity)
    }

    /** What the progress made says about the token that was read, the reader after it and the output before it. */
    ghost predicate Progresses(t: Token, f: Feed, before: seq<Byte>, progress: int)
      requires Writes()
      reads this, zout_start
    {
      if progress > 0 then Reads() && t == EndOfBlock(p) && Contents() == before && Feeding() == f
      else if progress == 0 then
        Reads() && Apply(t, before) == Reached(State(p, Contents())) && zout > |before| && Feeding() == f
      else Refused(t, f, |before|, z_expandable, capacity)
    }
  }

  /** Code lengths that cannot be read: malformed, or the reader gives up. */
  ghost predicate LensBad(cl: Words, d: BitString, f: Feed, p: nat, total: nat, got: seq<nat>, bytes: nat) {
    ReadLens(cl, d, p, total, got).NoLens? || LensFeed(cl, d, f, p, total, got, bytes).Late?
  }

  /** Reading the lengths that are missing gives the same from here and from there. */
  ghost predicate SameLens(cl: Words, d: BitString, f: Feed, p: nat, got: seq<nat>, f': Feed, p': nat, more: seq<nat>,
                           total: nat, bytes: nat) {
    && ReadLens(cl, d, p, total, got) == ReadLens(cl, d, p', total, more)
    && LensFeed(cl, d, f, p, total, got, bytes) == LensFeed(cl, d, f', p', total, more, bytes)
  }

  /** Reading one symbol of the code lengths. */
  lemma {:induction false} LensStep(cl: Words, d: BitString, f: Feed, p: nat, total: nat, got: seq<nat>, bytes: nat)
    requires |got| < total
    ensures var r := ReadSymbol(cl, d, p);
            if r.NoSym? || (r.value == 16 && got == []) || Word(f, p, bytes).Late? then
              LensBad(cl, d, f, p, total, got, bytes)
            else
              LensGoesOn(cl, d, f, p, total, got, bytes, r)
  {
    if Word(f, p, bytes).Late? {
      LensStepLate(cl, d, f, p, total, got, bytes);
    }
  }

  /** After symbol r, which can be obeyed. */
  ghost predicate LensGoesOn(cl: Words, d: BitString, f: Feed, p: nat, total: nat, got: seq<nat>, bytes: nat, r: Read)
    requires r.Sym? && (r.value == 16 ==> got != [])
  {
    var n := RepeatBits(r.value);
    var more := Extended(got, r.value, Field(d, r.pos, n));
    SameLens(cl, d, f, p, got, Take(Word(f, p, bytes), r.pos, n), r.pos + n, more, total, bytes)
  }

  lemma {:induction false} TooMany(cl: Words, d: BitString, f: Feed, p: nat, total: nat, got: seq<nat>, bytes: nat)
    requires |got| > total
    ensures LensBad(cl, d, f, p, total, got, bytes)
  {
  }

  lemma {:induction false} LensStepLate(cl: Words, d: BitString, f: Feed, p: nat, total: nat, got: seq<nat>, bytes: nat)
    requires |got| < total && Word(f, p, bytes).Late?
    ensures LensFeed(cl, d, f, p, total, got, bytes).Late?
  {
    var r := ReadSymbol(cl, d, p);
    if r.Sym? && !(r.value == 16 && got == []) {
      var n := RepeatBits(r.value);
      LensLate(cl, d, r.pos + n, total, Extended(got, r.value, Field(d, r.pos, n)), bytes);
    }
  }

  lemma {:induction false} ExtendedLengths(got: seq<nat>, c: nat, v: nat)
    requires Lengths(got) && (c == 16 ==> got != [])
    ensures Lengths(Extended(got, c, v))
  {
  }

  lemma {:induction false} NextLengthLength(i: nat)
    requires i < 19
    ensures forall k :: 0 <= k < 19 ==> (Zigzag(k) == i <==> k == Dezigzag(i))
  {
    forall k | 0 <= k < 19
      ensures Zigzag(k) == i <==> k == Dezigzag(i)
    {
      ZigzagInverse(k);
      ZigzagInverse(i);
    }
  }

  function NoTable(): Z.Lookup {
    Z.Lookup([], [], [], [], [], [])
  }

  /** Decoding tables for a list of code lengths, unless their words do not fit. */
  method BuildTable(lens: seq<nat>) returns (ok: bool, h: Z.Lookup)
    requires Lengths(lens) && |lens| <= Z.ZNSYMS
    ensures ok <==> Decodable(lens)
    ensures ok ==> Z.Decodes(h, WordsOf(lens))
  {
    DecodableFits(lens);
    var table := new Z.ZHuffman();
    ok := table.Build(lens);
    h := NoTable();
    if ok {
      h := table.Finish(lens);
    }
  }

  /** Two bytes that name the deflate method, check out and ask for no preset dictionary, then more. */
  ghost predicate ZlibHeader(input: seq<Byte>) {
    && |input| > 2 && input[0] % 16 == 8
    && (input[0] as int * 256 + input[1] as int) % 31 == 0 && input[1] / 32 % 2 == 0
  }

  lemma {:induction false} HeaderBytes(input: seq<Byte>, d: BitString, cmf: nat, flg: nat)
    requires Streams(input, d) && cmf == Field(d, 0, 8) && flg == Field(d, 8, 8)
    ensures |input| > 2 ==> cmf == input[0] && flg == input[1]
  {
    if |input| > 2 {
      assert StreamsAt(input, d, 0) && StreamsAt(input, d, 1);
    }
  }

  /** The tables of both codes. */
  method BuildBoth(lens: seq<nat>, hlit: nat, ghost h: Header) returns (ok: bool, hl: Z.Lookup, hd: Z.Lookup)
    requires h.Codes? && h.lens == lens && h.hlit == hlit <= |lens|
    requires Lengths(lens) && hlit <= Z.ZNSYMS && |lens| - hlit <= Z.ZNSYMS
    ensures ok <==> Decent(h)
    ensures ok ==> Ready(h, hl, hd)
  {
    hd := NoTable();
    ok, hl := BuildTable(lens[..hlit]);
    if ok {
      ok, hd := BuildTable(lens[hlit..]);
    }
  }

  /** The tables decode the codes of the header. */
  ghost predicate Ready(h: Header, hl: Z.Lookup, hd: Z.Lookup) {
    Decent(h) && Z.Decodes(hl, WordsOf(h.lens[..h.hlit])) && Z.Decodes(hd, WordsOf(h.lens[h.hlit..]))
  }

  ghost predicate Unreadable(h: Header, f: Feed) {
    h.BadHeader? || f.Late?
  }

  /** A header that cannot be used, or at which the reader has given up. */
  ghost predicate HeaderLost(h: Header, f: Feed) {
    !Decent(h) || f.Late?
  }

  /** Dropping the rest of the current byte from the bit buffer leads to the next byte boundary. */
  lemma {:induction false} AlignIs(fed: nat, bits: nat, p: nat)
    requires 8 * fed == p + bits
    ensures Align(p) == p + bits % 8 && (bits - bits % 8) % 8 == 0
  {
  }

  /** The bytes stand in d from bit a on. */
  ghost predicate BytesFrom(d: BitString, a: nat, bytes: seq<Byte>) {
    forall i :: 0 <= i < |bytes| ==> ByteFrom(d, a, bytes, i)
  }

  ghost predicate ByteFrom(d: BitString, a: nat, bytes: seq<Byte>, i: nat)
    requires i < |bytes|
  {
    bytes[i] == Field(d, a + 8 * i, 8)
  }

  lemma {:induction false} BytesFromPush(d: BitString, a: nat, bytes: seq<Byte>, b: Byte)
    requires BytesFrom(d, a, bytes) && b == Field(d, a + 8 * |bytes|, 8)
    ensures BytesFrom(d, a, bytes + [b])
  {
    forall i | 0 <= i < |bytes| + 1
      ensures ByteFrom(d, a, bytes + [b], i)
    {
      assert i < |bytes| ==> ByteFrom(d, a, bytes, i);
    }
  }

  /** Two bytes, low byte first. */
  function Pair(lo: Byte, hi: Byte): (v: nat)
    ensures v <= 0xFFFF
  {
    hi as int * 256 + lo as int
  }

  /** A complement of a small length has a nonzero last byte, so the header ends inside the input. */
  lemma {:induction false} LengthInside(d: BitString, q: nat, header: seq<Byte>, fed: nat, n: nat)
    requires |header| == 4 && header[3] == Field(d, q, 8) && 8 * fed == q + 8 && |d| == 8 * n
    requires Pair(header[2], header[3]) == 0xFFFF - Pair(header[0], header[1])
    ensures Pair(header[0], header[1]) < 0xFF00 ==> fed <= n
  {
    if q >= |d| {
      FieldPast(d, q, 8);
    }
  }

  lemma {:induction false} HeaderFields(d: BitString, a: nat, header: seq<Byte>)
    requires |header| == 4 && BytesFrom(d, a, header)
    ensures Field(d, a, 16) == Pair(header[0], header[1]) && Field(d, a + 16, 16) == Pair(header[2], header[3])
    ensures header[3] == Field(d, a + 24, 8)
  {
    TwoBytes(d, a);
    TwoBytes(d, a + 16);
    assert ByteFrom(d, a, header, 0) && ByteFrom(d, a, header, 1);
    assert ByteFrom(d, a, header, 2) && ByteFrom(d, a, header, 3);
  }

  lemma {:induction false} TwoBytes(d: BitString, a: nat)
    ensures Field(d, a, 16) == Field(d, a + 8, 8) * 256 + Field(d, a, 8)
  {
    FieldSplit(d, a, 8, 8);
    ShlIsMul(Field(d, a + 8, 8), 8);
    Pow2Values();
  }

  lemma {:induction false} BytesAre(input: seq<Byte>, d: BitString, at: nat, n: nat)
    requires Streams(input, d) && at + n <= |input|
    ensures BytesAt(d, 8 * at, n) == input[at..at + n]
  {
    if n > 0 {
      BytesAre(input, d, at, n - 1);
      assert StreamsAt(input, d, at + n - 1);
    }
  }

  lemma {:induction false} LengthPositive(z: nat)
    requires z < 29
    ensures LengthBase(z) >= 3
  {
  }

  lemma {:induction false} DistPositive(z: nat)
    requires z < 30
    ensures DistBase(z) >= 1
  {
  }

  /** A token that cannot be read: malformed, or the reader has given up. */
  ghost predicate Ends(t: Token, f: Feed) {
    t.Malformed? || f.Late?
  }

  /** Length and place of the word that starts the bits k; a length of 16 when there is none. */
  method FindSlow(h: Z.Lookup, ghost w: Words, k: nat, ghost d: BitString, ghost p: nat) returns (s: nat, b: int)
    requires Z.Decodes(h, w) && k == Peek(d, p, 16) < 0x1_0000 && Field(d, p, 9) < 512 && h.fast[Field(d, p, 9)] == 0
    ensures s <= 16 && (s == 16 ==> ReadSymbol(w, d, p) == NoSym)
    ensures s < 16 ==> 0 <= b < Z.ZNSYMS && h.size[b] == s && ReadSymbol(w, d, p) == Sym(h.value[b], p + s)
  {
    Z.FastMiss(h, w, d, p, Field(d, p, 9));
    s := Z.SlowLength(h, w, k);
    b := 0;
    if s >= 16 {
      Z.SlowNone(w, d, p);
    } else {
      Z.SlowPath(h, w, d, p, s);
      ReversedTop(d, p, s);
      b := Shr(k, 16 - s) - h.firstcode[s] + h.firstsymbol[s];
    }
  }

  lemma {:induction false} ReversedBits(d: BitString, p: nat, bits: nat)
    requires bits >= 16
    ensures BitReverse(Field(d, p, bits), 16) == Peek(d, p, 16) < 0x1_0000
  {
    BitReverse16Is(Field(d, p, bits));
    RevLow(Field(d, p, bits), 16);
    FieldLow(d, p, bits, 16);
    RevField(d, p, 16);
    Pow2Values();
  }

  lemma {:induction false} ReversedTop(d: BitString, p: nat, s: nat)
    requires s <= 16
    ensures Shr(Peek(d, p, 16), 16 - s) == Peek(d, p, s)
  {
    PeekSplit(d, p, s, 16 - s);
    ShrOfShl(Peek(d, p, s), Peek(d, p + s, 16 - s), 16 - s);
  }

  /** The bit where the deflate data of an input start. */
  function StartBit(parse_header: bool): nat {
    if parse_header then 16 else 0
  }

  /** The input stands for the state t, the reader gets through it, and its output has room. */
  ghost predicate Readable(input: seq<Byte>, parse_header: bool, expandable: bool, capacity: nat,
                           h: History, n: nat, t: State)
    requires capacity > 0
  {
    && (parse_header ==> ZlibHeader(input)) && Inflates(StreamOf(input), StartBit(parse_header), h, n, t)
    && InTime(StreamOf(input), StartBit(parse_header), h, n, |input|) && !Cramped(expandable, capacity, |t.out|)
  }

  /**
   Decodes the input into a buffer, or into larger ones if it may be expanded.  It succeeds exactly when the
   input is readable, which every stream that ends inside the input is (InsideInTime).
   */
  method DoZlib(input: seq<Byte>, obuf: array<Byte>, expandable: bool, parse_header: bool)
    returns (ok: bool, out: seq<Byte>, ghost h: History, ghost n: nat, ghost end: nat)
    requires obuf.Length > 0
    modifies obuf
    ensures ok ==> Readable(input, parse_header, expandable, obuf.Length, h, n, State(end, out))
    ensures forall g, m, t :: Readable(input, parse_header, expandable, obuf.Length, g, m, t) ==> ok && out == t.out
  {
    var a := new Zbuf(input, obuf, expandable);
    ok, h, n := a.ParseZlib(parse_header);
    out := a.zout_start[..a.zout];
    end := a.p;
    a.Roomy();
    forall g, m, t | Readable(input, parse_header, expandable, obuf.Length, g, m, t)
      ensures ok && out == t.out
    {
      if ok {
        InflatesUnique(a.d, StartBit(parse_header), h, n, State(end, out), g, m, t);
      } else {
        a.StreamAccepted(StartBit(parse_header), g, m, t, h, n);
      }
    }
  }

  // ---------- a stream cut short ----------

  /** The byte 3: a final block with the fixed codes, cut inside its end-of-block symbol. */
  ghost function Cut(): BitString {
    StreamOf([3])
  }

  lemma {:induction false} CutBits()
    ensures |Cut()| == 8 && Field(Cut(), 0, 1) == 1 && Field(Cut(), 1, 2) == 1 && Peek(Cut(), 3, 7) == 0
  {
    var d := Cut();
    StreamByte([3], 0);
    ThreeSplit(d);
    RevField(d, 3, 7);
    RevZero(7);
  }

  /** Eight bits with value 3, and zeros after them. */
  lemma {:induction false} ThreeSplit(d: BitString)
    requires |d| == 8 && Field(d, 0, 8) == 3
    ensures Field(d, 0, 1) == 1 && Field(d, 1, 2) == 1 && Field(d, 3, 7) == 0
  {
    FieldSplit(d, 0, 1, 7);
    FieldSplit(d, 1, 2, 5);
    FieldSplit(d, 3, 5, 2);
    FieldPast(d, 8, 2);
    ShlIsMul(Field(d, 1, 7), 1);
    ShlIsMul(Field(d, 3, 5), 2);
    ShlIsMul(0, 5);
    Pow2Values();
    assert Field(d, 3, 5 + 2) == 0;
  }

  /** The end-of-block symbol of the fixed code is seven zeros. */
  lemma {:induction false} EndIsZeros(l: seq<nat>, d: BitString, p: nat)
    requires |l| == 288 && (forall i :: 0 <= i < 288 ==> l[i] == FixedLength(i)) && Complete(l)
    requires Peek(d, p, 7) == 0
    ensures ReadSymbol(WordsOf(l), d, p) == Sym(256, p + 7)
  {
    FixedCount(l, 7, 256);
    NoneBelow(l, 6);
    SymbolStands(l, 256, d, p);
  }

  lemma {:induction false} NoneBelow(l: seq<nat>, j: nat)
    requires |l| == 288 && (forall i :: 0 <= i < 288 ==> l[i] == FixedLength(i)) && j <= 6
    ensures Below(l, j) == 0
  {
    if j > 0 {
      NoneBelow(l, j - 1);
      FixedCount(l, j, 288);
    }
  }

  /** An end-of-block symbol is an end-of-block token, and a reader that is far enough ahead does not notice the end. */
  lemma {:induction false} EndToken(ll: Words, dd: Words, d: BitString, p: nat, fed: nat, bytes: nat)
    requires ReadSymbol(ll, d, p) == Sym(256, p + 7) && p + 16 <= 8 * fed
    ensures ReadToken(ll, dd, d, p) == EndOfBlock(p + 7)
    ensures TokenFeed(ll, dd, d, Feed(fed, false), p, bytes) == Feed(fed, false)
  {
    TokenFeedIs(ll, dd, d, Feed(fed, false), p, bytes);
    WordIs(Feed(fed, false), p, bytes);
  }

  /** A block without tokens. */
  lemma {:induction false} EmptyCoded(ll: Words, dd: Words, d: BitString, p: nat, fed: nat, bytes: nat)
    requires ReadSymbol(ll, d, p) == Sym(256, p + 7) && p + 16 <= 8 * fed
    ensures Coded(ll, dd, d, State(p, []), 0, State(p + 7, []))
    ensures RunFeed(ll, dd, d, State(p, []), 1, Feed(fed, false), bytes) == Feed(fed, false)
  {
    EndToken(ll, dd, d, p, fed, bytes);
    RunNext(ll, dd, d, State(p, []), 0, State(p, []), Feed(fed, false), bytes);
  }

  lemma {:induction false} EmptyCompressed(d: BitString, l: seq<nat>, m: seq<nat>, p: nat, fed: nat, bytes: nat)
    requires l == FixedLengths() && m == FixedDistances() && Peek(d, p, 7) == 0 && p + 16 <= 8 * fed
    ensures Compressed(d, 1, State(p, []), 0, State(p + 7, []))
    ensures CompressedFeed(d, 1, State(p, []), 0, Feed(fed, false), bytes) == Feed(fed, false)
  {
    FixedEmpty(d, l, m, p, fed, bytes);
    FixedCoded(d, l, m, p, fed, bytes, Codes(l + m, 288, p), State(p + 7, []));
  }

  lemma {:induction false} FixedEmpty(d: BitString, l: seq<nat>, m: seq<nat>, p: nat, fed: nat, bytes: nat)
    requires l == FixedLengths() && m == FixedDistances() && Peek(d, p, 7) == 0 && p + 16 <= 8 * fed
    ensures Coded(WordsOf(l), WordsOf(m), d, State(p, []), 0, State(p + 7, []))
    ensures RunFeed(WordsOf(l), WordsOf(m), d, State(p, []), 1, Feed(fed, false), bytes) == Feed(fed, false)
  {
    FixedLengthsComplete();
    EndIsZeros(l, d, p);
    EmptyCoded(WordsOf(l), WordsOf(m), d, p, fed, bytes);
  }

  /** What the two codes give is what the block of kind 1 gives. */
  lemma {:induction false} FixedCoded(d: BitString, l: seq<nat>, m: seq<nat>, p: nat, fed: nat, bytes: nat, h: Header,
                                      s: State)
    requires l == FixedLengths() && m == FixedDistances() && h == Codes(l + m, 288, p)
    requires Coded(WordsOf(l), WordsOf(m), d, State(p, []), 0, s)
    requires RunFeed(WordsOf(l), WordsOf(m), d, State(p, []), 1, Feed(fed, false), bytes) == Feed(fed, false)
    ensures Compressed(d, 1, State(p, []), 0, s)
    ensures CompressedFeed(d, 1, State(p, []), 0, Feed(fed, false), bytes) == Feed(fed, false)
  {
    FixedDecent(p);
    Halves(l, m);
    CompressedIs(d, 1, State(p, []), 0, s, h);
    CompressedFeedIs(d, 1, State(p, []), 0, Feed(fed, false), bytes, h);
  }

  /** The stream of the byte 3 ends two bits past the input. */
  lemma {:induction false} CutInflates()
    ensures Inflates(Cut(), 0, Start(State(0, [])), 0, State(10, [])) && 10 > 8 * |[3]|
    ensures InTime(Cut(), 0, Start(State(0, [])), 0, 1)
  {
    CutBits();
    EmptyCompressed(Cut(), FixedLengths(), FixedDistances(), 3, 4, 1);
    assert Body(Cut(), 1, State(3, []), 0, State(10, []));
    TakeIs(Begin(0), 0, 1);
    TakeIs(Feed(4, false), 1, 2);
    assert HeadFeed(Begin(0), 0) == Feed(4, false);
    assert BlockFeed(Cut(), State(0, []), 0, Begin(0), 1) == BodyFeed(Cut(), 1, State(3, []), 0, Feed(4, false), 1);
  }

  /** Because the bits past the end count as zeros, a stream is accepted that does not end inside the input. */
  method CutIsAccepted(obuf: array<Byte>, expandable: bool) returns (ok: bool, out: seq<Byte>, ghost end: nat)
    requires obuf.Length > 0
    modifies obuf
    ensures ok && out == [] && end == 10 > 8 * |[3]|
  {
    ghost var h, n;
    CutInflates();
    ok, out, h, n, end := DoZlib([3], obuf, expandable, false);
    assert Readable([3], false, expandable, obuf.Length, Start(State(0, [])), 0, State(10, []));
    InflatesUnique(Cut(), 0, h, n, State(end, out), Start(State(0, [])), 0, State(10, []));
  }
}
