/**
 When the bit reader of stb_image.h runs dry.  It fetches whole bytes ahead of the position, zeros past the end
 of the input, and looks for the end only before a symbol and at the end of a block.  How far it has fetched
 therefore depends on every read before; this module follows it through the parts of a deflate stream.
 */
module ZlibReader {
  import opened Bits
  import opened LsbBits
  import opened DeflateCodes
  import opened DeflateSpec

  /** Bytes fetched, and whether sixteen zeros have been added at the end; or the reader has given up. */
  datatype Feed = Feed(fed: nat, hit: bool) | Late

  /** Whole bytes in so many bits. */
  ghost function Bytes(bits: nat): (n: nat)
    ensures 8 * n <= bits < 8 * n + 8
  {
    assert 8 * (bits / 8) <= bits < 8 * (bits / 8) + 8;
    var n: nat :| 8 * n <= bits < 8 * n + 8;
    n
  }

  /** Bytes fetched when the buffer has been filled at p: the fewest that give more than 24 bits. */
  ghost function Filled(p: nat): (n: nat)
    ensures p + 24 < 8 * n <= p + 32
  {
    Bytes(p + 32)
  }

  // ---------- single reads ----------

  /** After n bits were read at p. */
  ghost function AfterBits(f: Feed, p: nat, n: nat): Feed {
    match f
    case Late => Late
    case Feed(fed, hit) => if 8 * fed < p + n then Feed(Filled(p), hit) else f
  }

  /** After a symbol was read at p from an input of that many bytes. */
  ghost function AfterWord(f: Feed, p: nat, bytes: nat): Feed {
    match f
    case Late => Late
    case Feed(fed, hit) =>
      if p + 16 <= 8 * fed then f
      else if fed < bytes then Feed(Filled(p), hit)
      else if hit then Late
      else Feed(fed + 2, true)
  }

  // The same by choice, as are the functions for tokens, codes and compressed blocks below, so that proofs that
  // only pass the result on do not unfold them; the lemmas named after them do.

  ghost function Take(f: Feed, p: nat, n: nat): (g: Feed)
    ensures f.Late? ==> g.Late?
  {
    assert Taken(f, p, n, AfterBits(f, p, n));
    var g :| Taken(f, p, n, g);
    assert TakenFor(f, p, n, g, n);
    g
  }

  ghost predicate Taken(f: Feed, p: nat, n: nat, g: Feed) {
    forall m: nat :: TakenFor(f, p, n, g, m)
  }

  ghost predicate TakenFor(f: Feed, p: nat, n: nat, g: Feed, m: nat) {
    m == n ==> g == AfterBits(f, p, m)
  }

  lemma {:induction false} TakeIs(f: Feed, p: nat, n: nat)
    ensures Take(f, p, n) == AfterBits(f, p, n)
  {
    assert TakenFor(f, p, n, Take(f, p, n), n);
  }

  ghost function Word(f: Feed, p: nat, bytes: nat): (g: Feed)
    ensures f.Late? ==> g.Late?
  {
    assert Worded(f, p, bytes, AfterWord(f, p, bytes));
    var g :| Worded(f, p, bytes, g);
    assert WordedFor(f, p, bytes, g, bytes);
    g
  }

  ghost predicate Worded(f: Feed, p: nat, bytes: nat, g: Feed) {
    forall m: nat :: WordedFor(f, p, bytes, g, m)
  }

  ghost predicate WordedFor(f: Feed, p: nat, bytes: nat, g: Feed, m: nat) {
    m == bytes ==> g == AfterWord(f, p, m)
  }

  lemma {:induction false} WordIs(f: Feed, p: nat, bytes: nat)
    ensures Word(f, p, bytes) == AfterWord(f, p, bytes)
  {
    assert WordedFor(f, p, bytes, Word(f, p, bytes), bytes);
  }

  /** After the end-of-block symbol, which ends at p. */
  function End(f: Feed, p: nat): Feed {
    match f
    case Late => Late
    case Feed(fed, hit) => if hit && 8 * fed < p + 16 then Late else f
  }

  // ---------- tokens ----------

  /** After the token at p. */
  ghost function TokenFeed(ll: Words, dd: Words, d: BitString, f: Feed, p: nat, bytes: nat): Feed {
    var g := SymbolFeed(ReadSymbol(ll, d, p), dd, d, Word(f, p, bytes), bytes);
    assert TokenFeeds(ll, dd, d, f, p, bytes, g);
    var g :| TokenFeeds(ll, dd, d, f, p, bytes, g);
    g
  }

  ghost predicate TokenFeeds(ll: Words, dd: Words, d: BitString, f: Feed, p: nat, bytes: nat, g: Feed) {
    forall r: Read :: TokenFeedsAt(ll, dd, d, f, p, bytes, g, r)
  }

  ghost predicate TokenFeedsAt(ll: Words, dd: Words, d: BitString, f: Feed, p: nat, bytes: nat, g: Feed, r: Read) {
    r == ReadSymbol(ll, d, p) ==> g == SymbolFeed(r, dd, d, Word(f, p, bytes), bytes)
  }

  lemma {:induction false} TokenFeedIs(ll: Words, dd: Words, d: BitString, f: Feed, p: nat, bytes: nat)
    ensures TokenFeed(ll, dd, d, f, p, bytes) == SymbolFeed(ReadSymbol(ll, d, p), dd, d, Word(f, p, bytes), bytes)
  {
    assert TokenFeedsAt(ll, dd, d, f, p, bytes, TokenFeed(ll, dd, d, f, p, bytes), ReadSymbol(ll, d, p));
  }

  /** What follows a symbol of the literal/length code. */
  ghost function SymbolFeed(r: Read, dd: Words, d: BitString, f: Feed, bytes: nat): Feed {
    match r
    case NoSym => f
    case Sym(z, q) =>
      if z == 256 then End(f, q) else if 256 < z < 286 then MatchFeed(z - 257, dd, d, f, q, bytes) else f
  }

  ghost function MatchFeed(z: nat, dd: Words, d: BitString, f: Feed, q: nat, bytes: nat): Feed {
    var q' := q + LengthExtra(z);
    DistFeed(ReadSymbol(dd, d, q'), Word(Take(f, q, LengthExtra(z)), q', bytes))
  }

  /** A match is a length and a distance. */
  lemma {:induction false} MatchIs(z: nat, dd: Words, d: BitString, f: Feed, q: nat, bytes: nat, len: nat, q': nat, g: Feed)
    requires q' == q + LengthExtra(z) && len == LengthBase(z) + Field(d, q, LengthExtra(z))
    requires g == Take(f, q, LengthExtra(z))
    ensures ReadMatch(z, q, dd, d) == DistanceOf(ReadSymbol(dd, d, q'), len, d)
    ensures MatchFeed(z, dd, d, f, q, bytes) == DistFeed(ReadSymbol(dd, d, q'), Word(g, q', bytes))
  {
  }

  ghost function DistFeed(r: Read, f: Feed): Feed {
    match r
    case NoSym => f
    case Sym(z, q) => if z < 30 then Take(f, q, DistExtra(z)) else f
  }

  /** After n tokens of a block that starts in state s. */
  ghost function RunFeed(ll: Words, dd: Words, d: BitString, s: State, n: nat, f: Feed, bytes: nat): Feed {
    if n == 0 then f
    else
      match Run(ll, dd, d, s, n - 1)
      case Unreached => Late
      case Reached(r) => TokenFeed(ll, dd, d, RunFeed(ll, dd, d, s, n - 1, f, bytes), r.pos, bytes)
  }

  /** The token after n others. */
  lemma {:induction false} RunNext(ll: Words, dd: Words, d: BitString, s: State, n: nat, r: State, f: Feed, bytes: nat)
    requires Run(ll, dd, d, s, n) == Reached(r)
    ensures Run(ll, dd, d, s, n + 1) == Apply(ReadToken(ll, dd, d, r.pos), r.out)
    ensures RunFeed(ll, dd, d, s, n + 1, f, bytes) == TokenFeed(ll, dd, d, RunFeed(ll, dd, d, s, n, f, bytes), r.pos, bytes)
  {
  }

  // ---------- headers ----------

  /** After n lengths of three bits. */
  ghost function LengthsFeed(f: Feed, p: nat, n: nat): Feed {
    if n == 0 then f else Take(LengthsFeed(f, p, n - 1), p + 3 * (n - 1), 3)
  }

  /** After the run-length coded lengths that are still missing. */
  ghost function LensFeed(cl: Words, d: BitString, f: Feed, p: nat, total: nat, got: seq<nat>, bytes: nat): Feed
    decreases total - |got|
  {
    if |got| >= total then f
    else
      match ReadSymbol(cl, d, p)
      case NoSym => Word(f, p, bytes)
      case Sym(c, q) =>
        if c == 16 && got == [] then Word(f, p, bytes)
        else
          LensFeed(cl, d, Take(Word(f, p, bytes), q, RepeatBits(c)), q + RepeatBits(c), total,
                   Extended(got, c, Field(d, q, RepeatBits(c))), bytes)
  }

  ghost function CodesFeed(cl: seq<nat>, d: BitString, f: Feed, p: nat, total: nat, bytes: nat): Feed {
    var g := if Decodable(cl) then LensFeed(WordsOf(cl), d, f, p, total, [], bytes) else f;
    assert CodesFeeds(cl, d, f, p, total, bytes, g);
    var g :| CodesFeeds(cl, d, f, p, total, bytes, g);
    g
  }

  ghost predicate CodesFeeds(cl: seq<nat>, d: BitString, f: Feed, p: nat, total: nat, bytes: nat, g: Feed) {
    forall n: nat :: CodesFeedsFor(cl, d, f, p, total, bytes, g, n)
  }

  ghost predicate CodesFeedsFor(cl: seq<nat>, d: BitString, f: Feed, p: nat, total: nat, bytes: nat, g: Feed, n: nat) {
    n == total ==> g == if Decodable(cl) then LensFeed(WordsOf(cl), d, f, p, n, [], bytes) else f
  }

  lemma {:induction false} CodesFeedIs(cl: seq<nat>, d: BitString, f: Feed, p: nat, total: nat, bytes: nat)
    ensures CodesFeed(cl, d, f, p, total, bytes)
            == if Decodable(cl) then LensFeed(WordsOf(cl), d, f, p, total, [], bytes) else f
  {
    assert CodesFeedsFor(cl, d, f, p, total, bytes, CodesFeed(cl, d, f, p, total, bytes), total);
  }

  ghost function CountedFeed(d: BitString, f: Feed, p: nat, hlit: nat, hdist: nat, hclen: nat, bytes: nat): Feed {
    var g := CodesFeed(LengthLengths(d, p, hclen), d, LengthsFeed(f, p, hclen), p + 3 * hclen, hlit + hdist, bytes);
    assert CountedFeeds(d, f, p, hlit, hdist, hclen, bytes, g);
    var g :| CountedFeeds(d, f, p, hlit, hdist, hclen, bytes, g);
    g
  }

  ghost predicate CountedFeeds(d: BitString, f: Feed, p: nat, hlit: nat, hdist: nat, hclen: nat, bytes: nat, g: Feed) {
    forall n: nat :: CountedFeedsFor(d, f, p, hlit, hdist, hclen, bytes, g, n)
  }

  ghost predicate CountedFeedsFor(d: BitString, f: Feed, p: nat, hlit: nat, hdist: nat, hclen: nat, bytes: nat, g: Feed,
                                  n: nat)
  {
    n == hclen ==> g == CodesFeed(LengthLengths(d, p, n), d, LengthsFeed(f, p, n), p + 3 * n, hlit + hdist, bytes)
  }

  lemma {:induction false} CountedFeedIs(d: BitString, f: Feed, p: nat, hlit: nat, hdist: nat, hclen: nat, bytes: nat)
    ensures CountedFeed(d, f, p, hlit, hdist, hclen, bytes)
            == CodesFeed(LengthLengths(d, p, hclen), d, LengthsFeed(f, p, hclen), p + 3 * hclen, hlit + hdist, bytes)
  {
    assert CountedFeedsFor(d, f, p, hlit, hdist, hclen, bytes, CountedFeed(d, f, p, hlit, hdist, hclen, bytes), hclen);
  }

  /** After the numbers of lengths. */
  ghost function CountsFeed(f: Feed, p: nat): Feed {
    Take(Take(Take(f, p, 5), p + 5, 5), p + 10, 4)
  }

  ghost function DynamicFeed(d: BitString, f: Feed, p: nat, bytes: nat): Feed {
    CountedFeed(d, CountsFeed(f, p), p + 14, Field(d, p, 5) + 257, Field(d, p + 5, 5) + 1, Field(d, p + 10, 4) + 4, bytes)
  }

  lemma {:induction false} DynamicIs(d: BitString, f: Feed, p: nat, hlit: nat, hdist: nat, hclen: nat, bytes: nat)
    requires hlit == Field(d, p, 5) + 257 && hdist == Field(d, p + 5, 5) + 1 && hclen == Field(d, p + 10, 4) + 4
    ensures ReadDynamic(d, p) == ReadCounted(d, p + 14, hlit, hdist, hclen)
    ensures DynamicFeed(d, f, p, bytes) == CountedFeed(d, CountsFeed(f, p), p + 14, hlit, hdist, hclen, bytes)
  {
    ReadDynamicIs(d, p, hlit, hdist, hclen);
    DynamicFeedIs(d, f, p, hlit, hdist, hclen, bytes);
  }

  lemma {:induction false} ReadDynamicIs(d: BitString, p: nat, hlit: nat, hdist: nat, hclen: nat)
    requires hlit == Field(d, p, 5) + 257 && hdist == Field(d, p + 5, 5) + 1 && hclen == Field(d, p + 10, 4) + 4
    ensures ReadDynamic(d, p) == ReadCounted(d, p + 14, hlit, hdist, hclen)
  {
  }

  lemma {:induction false} DynamicFeedIs(d: BitString, f: Feed, p: nat, hlit: nat, hdist: nat, hclen: nat, bytes: nat)
    requires hlit == Field(d, p, 5) + 257 && hdist == Field(d, p + 5, 5) + 1 && hclen == Field(d, p + 10, 4) + 4
    ensures DynamicFeed(d, f, p, bytes) == CountedFeed(d, CountsFeed(f, p), p + 14, hlit, hdist, hclen, bytes)
  {
  }

  ghost function HeaderFeed(d: BitString, kind: nat, f: Feed, p: nat, bytes: nat): Feed {
    if kind == 1 then f else DynamicFeed(d, f, p, bytes)
  }

  // ---------- blocks ----------

  /** A stored block is fetched to its last byte, which must be a byte of the input. */
  ghost function StoredFeed(d: BitString, f: Feed, p: nat, bytes: nat): Feed {
    var end := Align(p) + 32 + 8 * Field(d, Align(p), 16);
    match f
    case Late => Late
    case Feed(_, hit) => if end <= 8 * bytes then Feed(Bytes(end), hit) else Late
  }

  /** A stored block that was read, and how far the reader has got then. */
  lemma {:induction false} StoredRead(d: BitString, s: State, s': State, len: nat, f: Feed, f': Feed, bytes: nat)
    requires len == Field(d, Align(s.pos), 16) && Field(d, Align(s.pos) + 16, 16) == 0xFFFF - len
    requires s'.pos == Align(s.pos) + 32 + 8 * len && s'.out == s.out + BytesAt(d, Align(s.pos) + 32, len)
    requires f.Feed? && f'.Feed? && f'.hit == f.hit && 8 * f'.fed == s'.pos && f'.fed <= bytes
    ensures Stored(d, s, s') && f' == StoredFeed(d, f, s.pos, bytes)
  {
  }

  /** n tokens and the end-of-block symbol after a header. */
  ghost function CodedFeed(h: Header, d: BitString, out: seq<Byte>, n: nat, f: Feed, bytes: nat): Feed {
    if Decent(h) then
      RunFeed(WordsOf(h.lens[..h.hlit]), WordsOf(h.lens[h.hlit..]), d, State(h.pos, out), n + 1, f, bytes)
    else f
  }

  ghost function CompressedFeed(d: BitString, kind: nat, s: State, n: nat, f: Feed, bytes: nat): Feed {
    var g := CodedFeed(HeaderOf(d, kind, s.pos), d, s.out, n, HeaderFeed(d, kind, f, s.pos, bytes), bytes);
    assert CompressedFeeds(d, kind, s, n, f, bytes, g);
    var g :| CompressedFeeds(d, kind, s, n, f, bytes, g);
    g
  }

  ghost predicate CompressedFeeds(d: BitString, kind: nat, s: State, n: nat, f: Feed, bytes: nat, g: Feed) {
    forall h: Header :: CompressedFeedsAt(d, kind, s, n, f, bytes, g, h)
  }

  ghost predicate CompressedFeedsAt(d: BitString, kind: nat, s: State, n: nat, f: Feed, bytes: nat, g: Feed, h: Header) {
    h == HeaderOf(d, kind, s.pos) ==> g == CodedFeed(h, d, s.out, n, HeaderFeed(d, kind, f, s.pos, bytes), bytes)
  }

  lemma {:induction false} CompressedFeedIs(d: BitString, kind: nat, s: State, n: nat, f: Feed, bytes: nat, h: Header)
    requires h == HeaderOf(d, kind, s.pos)
    ensures CompressedFeed(d, kind, s, n, f, bytes)
            == CodedFeed(h, d, s.out, n, HeaderFeed(d, kind, f, s.pos, bytes), bytes)
  {
    assert CompressedFeedsAt(d, kind, s, n, f, bytes, CompressedFeed(d, kind, s, n, f, bytes), h);
  }

  ghost function BodyFeed(d: BitString, kind: nat, s: State, n: nat, f: Feed, bytes: nat): Feed {
    if kind == 0 then StoredFeed(d, f, s.pos, bytes) else CompressedFeed(d, kind, s, n, f, bytes)
  }

  /** After the final bit and the kind. */
  ghost function HeadFeed(f: Feed, p: nat): Feed {
    Take(Take(f, p, 1), p + 1, 2)
  }

  ghost function BlockFeed(d: BitString, s: State, n: nat, f: Feed, bytes: nat): Feed {
    BodyFeed(d, Field(d, s.pos + 1, 2), State(s.pos + 3, s.out), n, HeadFeed(f, s.pos), bytes)
  }

  /** After the blocks passed so far; f is the state before the first. */
  ghost function BlocksFeed(d: BitString, h: History, f: Feed, bytes: nat): Feed {
    match h
    case Start(_) => f
    case Then(before, n, _) => BlockFeed(d, before.s, n, BlocksFeed(d, before, f, bytes), bytes)
  }

  /** Nothing is fetched before the first block but the two bytes of a header. */
  ghost function Begin(p: nat): Feed {
    Feed(Bytes(p), false)
  }

  /** The reader gets through the whole stream, which starts at p. */
  ghost predicate InTime(d: BitString, p: nat, h: History, n: nat, bytes: nat) {
    BlockFeed(d, h.s, n, BlocksFeed(d, h, Begin(p), bytes), bytes).Feed?
  }

  // ---------- a reader that has given up stays so ----------

  lemma {:induction false} SymbolLate(r: Read, dd: Words, d: BitString, bytes: nat)
    ensures SymbolFeed(r, dd, d, Late, bytes) == Late
  {
  }

  lemma {:induction false} TokenLate(ll: Words, dd: Words, d: BitString, p: nat, bytes: nat)
    ensures TokenFeed(ll, dd, d, Late, p, bytes) == Late
  {
    TokenFeedIs(ll, dd, d, Late, p, bytes);
  }

  lemma {:induction false} RunLate(ll: Words, dd: Words, d: BitString, s: State, n: nat, m: nat, f: Feed, bytes: nat)
    requires n <= m && RunFeed(ll, dd, d, s, n, f, bytes).Late?
    ensures RunFeed(ll, dd, d, s, m, f, bytes).Late?
    decreases m
  {
    if n < m {
      RunLate(ll, dd, d, s, n, m - 1, f, bytes);
      var r := Run(ll, dd, d, s, m - 1);
      if r.Reached? {
        TokenLate(ll, dd, d, r.s.pos, bytes);
      }
    }
  }

  lemma {:induction false} RunInTime(ll: Words, dd: Words, d: BitString, s: State, n: nat, m: nat, f: Feed, bytes: nat)
    requires n <= m && RunFeed(ll, dd, d, s, m, f, bytes).Feed?
    ensures RunFeed(ll, dd, d, s, n, f, bytes).Feed?
  {
    if RunFeed(ll, dd, d, s, n, f, bytes).Late? {
      RunLate(ll, dd, d, s, n, m, f, bytes);
    }
  }

  lemma {:induction false} LensLate(cl: Words, d: BitString, p: nat, total: nat, got: seq<nat>, bytes: nat)
    ensures LensFeed(cl, d, Late, p, total, got, bytes) == Late
    decreases total - |got|
  {
    if |got| < total {
      var r := ReadSymbol(cl, d, p);
      if r.Sym? && (r.value == 16 ==> got != []) {
        var n := RepeatBits(r.value);
        LensLate(cl, d, r.pos + n, total, Extended(got, r.value, Field(d, r.pos, n)), bytes);
      }
    }
  }

  lemma {:induction false} LengthsLate(p: nat, n: nat)
    ensures LengthsFeed(Late, p, n) == Late
  {
    if n > 0 {
      LengthsLate(p, n - 1);
    }
  }

  lemma {:induction false} CountedLate(d: BitString, p: nat, hlit: nat, hdist: nat, hclen: nat, bytes: nat)
    ensures CountedFeed(d, Late, p, hlit, hdist, hclen, bytes) == Late
  {
    CountedFeedIs(d, Late, p, hlit, hdist, hclen, bytes);
    LengthsLate(p, hclen);
    CodesLate(LengthLengths(d, p, hclen), d, p + 3 * hclen, hlit + hdist, bytes);
  }

  lemma {:induction false} CodesLate(cl: seq<nat>, d: BitString, p: nat, total: nat, bytes: nat)
    ensures CodesFeed(cl, d, Late, p, total, bytes) == Late
  {
    CodesFeedIs(cl, d, Late, p, total, bytes);
    LensLate(WordsOf(cl), d, p, total, [], bytes);
  }

  lemma {:induction false} HeaderLate(d: BitString, kind: nat, p: nat, bytes: nat)
    ensures HeaderFeed(d, kind, Late, p, bytes) == Late
  {
    CountedLate(d, p + 14, Field(d, p, 5) + 257, Field(d, p + 5, 5) + 1, Field(d, p + 10, 4) + 4, bytes);
  }

  lemma {:induction false} CompressedLate(d: BitString, kind: nat, s: State, n: nat, bytes: nat)
    ensures CompressedFeed(d, kind, s, n, Late, bytes) == Late
  {
    var h := HeaderOf(d, kind, s.pos);
    CompressedFeedIs(d, kind, s, n, Late, bytes, h);
    HeaderLate(d, kind, s.pos, bytes);
    if Decent(h) {
      RunLate(WordsOf(h.lens[..h.hlit]), WordsOf(h.lens[h.hlit..]), d, State(h.pos, s.out), 0, n + 1, Late, bytes);
    }
  }

  lemma {:induction false} BlockLate(d: BitString, s: State, n: nat, bytes: nat)
    ensures BlockFeed(d, s, n, Late, bytes) == Late
  {
    CompressedLate(d, Field(d, s.pos + 1, 2), State(s.pos + 3, s.out), n, bytes);
  }

  /** Equal numbers of blocks leave the reader in the same state. */
  lemma {:induction false} BlocksFeedUnique(d: BitString, h: History, g: History, f: Feed, bytes: nat)
    requires Blocks(d, h) && Blocks(d, g) && First(h) == First(g) && Depth(h) == Depth(g)
    ensures BlocksFeed(d, h, f, bytes) == BlocksFeed(d, g, f, bytes)
  {
    if h.Then? {
      HistoryUnique(d, h.before, g.before);
      BlocksFeedUnique(d, h.before, g.before, f, bytes);
      BlockUnique(d, h.before.s, false, h.n, h.s, false, g.n, g.s);
    }
  }

  /** Whatever blocks have been passed, the next one of a stream that is read in time is read in time. */
  lemma {:induction false} NextInTime(d: BitString, h: History, g: History, n: nat, t: State, f: Feed, bytes: nat)
    returns (final: bool, m: nat, s: State)
    requires Blocks(d, h) && Blocks(d, g) && First(h) == First(g) && Block(d, g.s, true, n, t)
    requires BlockFeed(d, g.s, n, BlocksFeed(d, g, f, bytes), bytes).Feed?
    ensures Block(d, h.s, final, m, s) && NoLater(s, t)
    ensures BlockFeed(d, h.s, m, BlocksFeed(d, h, f, bytes), bytes).Feed?
  {
    NoneAfterFinal(d, g, h, n, t);
    BlockGrows(d, g.s, true, n, t);
    if Depth(h) == Depth(g) {
      HistoryUnique(d, h, g);
      BlocksFeedUnique(d, h, g, f, bytes);
      final, m, s := true, n, t;
    } else {
      if BlocksFeed(d, g, f, bytes).Late? {
        BlockLate(d, g.s, n, bytes);
      }
      final, m, s := EarlierInTime(d, h, g, f, bytes);
    }
  }

  lemma {:induction false} EarlierInTime(d: BitString, h: History, g: History, f: Feed, bytes: nat)
    returns (final: bool, m: nat, s: State)
    requires Blocks(d, h) && Blocks(d, g) && First(h) == First(g) && Depth(h) < Depth(g)
    requires BlocksFeed(d, g, f, bytes).Feed?
    ensures Block(d, h.s, final, m, s) && NoLater(s, g.s)
    ensures BlockFeed(d, h.s, m, BlocksFeed(d, h, f, bytes), bytes).Feed?
    decreases g
  {
    BlockGrows(d, g.before.s, false, g.n, g.s);
    if Depth(h) + 1 == Depth(g) {
      HistoryUnique(d, h, g.before);
      BlocksFeedUnique(d, h, g.before, f, bytes);
      final, m, s := false, g.n, g.s;
    } else {
      if BlocksFeed(d, g.before, f, bytes).Late? {
        BlockLate(d, g.before.s, g.n, bytes);
      }
      final, m, s := EarlierInTime(d, h, g.before, f, bytes);
    }
  }

  // ---------- the reader gives up past the end of the input only ----------

  /** What holds at position p of an input of that many bytes. */
  ghost predicate Sane(f: Feed, p: nat, bytes: nat) {
    match f
    case Late => p > 8 * bytes
    case Feed(fed, hit) => 8 * fed <= p + 32 && (hit ==> fed >= bytes + 2)
  }

  lemma {:induction false} TakeSane(f: Feed, p: nat, n: nat, bytes: nat)
    requires Sane(f, p, bytes) && n <= 24
    ensures Sane(Take(f, p, n), p + n, bytes)
  {
    TakeIs(f, p, n);
  }

  lemma {:induction false} WordSane(f: Feed, p: nat, q: nat, bytes: nat)
    requires Sane(f, p, bytes) && p <= q
    ensures Sane(Word(f, p, bytes), q, bytes)
  {
    WordIs(f, p, bytes);
  }

  lemma {:induction false} EndSane(f: Feed, p: nat, bytes: nat)
    requires Sane(f, p, bytes)
    ensures Sane(End(f, p), p, bytes)
  {
  }

  lemma {:induction false} TokenSane(ll: Words, dd: Words, d: BitString, f: Feed, p: nat, bytes: nat)
    requires Sane(f, p, bytes) && !ReadToken(ll, dd, d, p).Malformed?
    ensures Sane(TokenFeed(ll, dd, d, f, p, bytes), ReadToken(ll, dd, d, p).pos, bytes)
  {
    var r := ReadSymbol(ll, d, p);
    TokenFeedIs(ll, dd, d, f, p, bytes);
    WordSane(f, p, r.pos, bytes);
    var g := Word(f, p, bytes);
    if r.value == 256 {
      EndSane(g, r.pos, bytes);
    } else if r.value > 256 {
      MatchSane(r.value - 257, dd, d, g, r.pos, bytes);
    }
  }

  lemma {:induction false} MatchSane(z: nat, dd: Words, d: BitString, f: Feed, q: nat, bytes: nat)
    requires Sane(f, q, bytes) && !ReadMatch(z, q, dd, d).Malformed?
    ensures Sane(MatchFeed(z, dd, d, f, q, bytes), ReadMatch(z, q, dd, d).pos, bytes)
  {
    var q', f' := q + LengthExtra(z), Take(f, q, LengthExtra(z));
    TakeSane(f, q, LengthExtra(z), bytes);
    var r := ReadSymbol(dd, d, q');
    WordSane(f', q', r.pos, bytes);
    TakeSane(Word(f', q', bytes), r.pos, DistExtra(r.value), bytes);
  }

  lemma {:induction false} RunSane(ll: Words, dd: Words, d: BitString, s: State, n: nat, f: Feed, bytes: nat)
    requires Sane(f, s.pos, bytes) && Run(ll, dd, d, s, n).Reached?
    ensures Sane(RunFeed(ll, dd, d, s, n, f, bytes), Run(ll, dd, d, s, n).s.pos, bytes)
  {
    if n > 0 {
      RunSane(ll, dd, d, s, n - 1, f, bytes);
      TokenSane(ll, dd, d, RunFeed(ll, dd, d, s, n - 1, f, bytes), Run(ll, dd, d, s, n - 1).s.pos, bytes);
    }
  }

  lemma {:induction false} EndedSane(ll: Words, dd: Words, d: BitString, s: State, n: nat, s': State, f: Feed, bytes: nat)
    requires Sane(f, s.pos, bytes) && Coded(ll, dd, d, s, n, s')
    ensures Sane(RunFeed(ll, dd, d, s, n + 1, f, bytes), s'.pos, bytes)
  {
    RunSane(ll, dd, d, s, n, f, bytes);
    TokenSane(ll, dd, d, RunFeed(ll, dd, d, s, n, f, bytes), Run(ll, dd, d, s, n).s.pos, bytes);
  }

  lemma {:induction false} LengthsSane(f: Feed, p: nat, n: nat, bytes: nat)
    requires Sane(f, p, bytes)
    ensures Sane(LengthsFeed(f, p, n), p + 3 * n, bytes)
  {
    if n > 0 {
      LengthsSane(f, p, n - 1, bytes);
      TakeSane(LengthsFeed(f, p, n - 1), p + 3 * (n - 1), 3, bytes);
    }
  }

  lemma {:induction false} LensSane(cl: Words, d: BitString, f: Feed, p: nat, total: nat, got: seq<nat>, bytes: nat)
    requires Sane(f, p, bytes) && ReadLens(cl, d, p, total, got).Lens?
    ensures Sane(LensFeed(cl, d, f, p, total, got, bytes), ReadLens(cl, d, p, total, got).pos, bytes)
    decreases total - |got|
  {
    if |got| < total {
      var r := ReadSymbol(cl, d, p);
      var n := RepeatBits(r.value);
      WordSane(f, p, r.pos, bytes);
      TakeSane(Word(f, p, bytes), r.pos, n, bytes);
      LensSane(cl, d, Take(Word(f, p, bytes), r.pos, n), r.pos + n, total,
               Extended(got, r.value, Field(d, r.pos, n)), bytes);
    }
  }

  lemma {:induction false} CodesSane(cl: seq<nat>, d: BitString, f: Feed, p: nat, hlit: nat, hdist: nat, bytes: nat)
    requires Sane(f, p, bytes) && ReadCodes(cl, d, p, hlit, hdist).Codes?
    ensures Sane(CodesFeed(cl, d, f, p, hlit + hdist, bytes), ReadCodes(cl, d, p, hlit, hdist).pos, bytes)
  {
    CodeLengthsAre(cl, d, p, hlit + hdist);
    CodesFeedIs(cl, d, f, p, hlit + hdist, bytes);
    LensSane(WordsOf(cl), d, f, p, hlit + hdist, [], bytes);
  }

  lemma {:induction false} CountedSane(d: BitString, f: Feed, p: nat, hlit: nat, hdist: nat, hclen: nat, bytes: nat)
    requires Sane(f, p, bytes) && ReadCounted(d, p, hlit, hdist, hclen).Codes?
    ensures Sane(CountedFeed(d, f, p, hlit, hdist, hclen, bytes), ReadCounted(d, p, hlit, hdist, hclen).pos, bytes)
  {
    CountedFeedIs(d, f, p, hlit, hdist, hclen, bytes);
    LengthsSane(f, p, hclen, bytes);
    CodesSane(LengthLengths(d, p, hclen), d, LengthsFeed(f, p, hclen), p + 3 * hclen, hlit, hdist, bytes);
  }

  lemma {:induction false} CountsSane(f: Feed, p: nat, bytes: nat)
    requires Sane(f, p, bytes)
    ensures Sane(CountsFeed(f, p), p + 14, bytes)
  {
    TakeSane(f, p, 5, bytes);
    TakeSane(Take(f, p, 5), p + 5, 5, bytes);
    TakeSane(Take(Take(f, p, 5), p + 5, 5), p + 10, 4, bytes);
  }

  lemma {:induction false} HeaderSane(d: BitString, kind: nat, f: Feed, p: nat, bytes: nat)
    requires Sane(f, p, bytes) && HeaderOf(d, kind, p).Codes?
    ensures Sane(HeaderFeed(d, kind, f, p, bytes), HeaderOf(d, kind, p).pos, bytes)
  {
    if kind != 1 {
      ReadDynamicSane(d, f, p, bytes);
    }
  }

  lemma {:induction false} ReadDynamicSane(d: BitString, f: Feed, p: nat, bytes: nat)
    requires Sane(f, p, bytes) && ReadDynamic(d, p).Codes?
    ensures Sane(DynamicFeed(d, f, p, bytes), ReadDynamic(d, p).pos, bytes)
  {
    DynamicSane(d, f, p, Field(d, p, 5) + 257, Field(d, p + 5, 5) + 1, Field(d, p + 10, 4) + 4, bytes);
  }

  lemma {:induction false} DynamicSane(d: BitString, f: Feed, p: nat, hlit: nat, hdist: nat, hclen: nat, bytes: nat)
    requires Sane(f, p, bytes) && ReadCounted(d, p + 14, hlit, hdist, hclen).Codes?
    ensures Sane(CountedFeed(d, CountsFeed(f, p), p + 14, hlit, hdist, hclen, bytes),
                 ReadCounted(d, p + 14, hlit, hdist, hclen).pos, bytes)
  {
    CountsSane(f, p, bytes);
    CountedSane(d, CountsFeed(f, p), p + 14, hlit, hdist, hclen, bytes);
  }

  lemma {:induction false} StoredSane(d: BitString, f: Feed, s: State, s': State, bytes: nat)
    requires Sane(f, s.pos, bytes) && Stored(d, s, s')
    ensures Sane(StoredFeed(d, f, s.pos, bytes), s'.pos, bytes)
  {
  }

  lemma {:induction false} CodedSane(h: Header, d: BitString, out: seq<Byte>, n: nat, s': State, f: Feed, bytes: nat)
    requires CodedAfter(h, d, out, n, s') && Sane(f, h.pos, bytes)
    ensures Sane(CodedFeed(h, d, out, n, f, bytes), s'.pos, bytes)
  {
    EndedSane(WordsOf(h.lens[..h.hlit]), WordsOf(h.lens[h.hlit..]), d, State(h.pos, out), n, s', f, bytes);
  }

  lemma {:induction false} BodySane(d: BitString, kind: nat, s: State, n: nat, s': State, f: Feed, bytes: nat)
    requires Body(d, kind, s, n, s') && Sane(f, s.pos, bytes)
    ensures Sane(BodyFeed(d, kind, s, n, f, bytes), s'.pos, bytes)
  {
    if kind == 0 {
      StoredSane(d, f, s, s', bytes);
    } else {
      var h := HeaderOf(d, kind, s.pos);
      CompressedIs(d, kind, s, n, s', h);
      CompressedFeedIs(d, kind, s, n, f, bytes, h);
      HeaderSane(d, kind, f, s.pos, bytes);
      CodedSane(h, d, s.out, n, s', HeaderFeed(d, kind, f, s.pos, bytes), bytes);
    }
  }

  lemma {:induction false} HeadSane(f: Feed, p: nat, bytes: nat)
    requires Sane(f, p, bytes)
    ensures Sane(HeadFeed(f, p), p + 3, bytes)
  {
    TakeSane(f, p, 1, bytes);
    TakeSane(Take(f, p, 1), p + 1, 2, bytes);
  }

  lemma {:induction false} BlockIsBody(d: BitString, s: State, final: bool, n: nat, s': State, f: Feed, bytes: nat,
                                       kind: nat, after: State)
    requires Block(d, s, final, n, s') && kind == Field(d, s.pos + 1, 2) && after == State(s.pos + 3, s.out)
    ensures Body(d, kind, after, n, s')
    ensures BlockFeed(d, s, n, f, bytes) == BodyFeed(d, kind, after, n, HeadFeed(f, s.pos), bytes)
  {
  }

  lemma {:induction false} BodyIsBlock(d: BitString, s: State, final: bool, n: nat, s': State, f: Feed, bytes: nat,
                                       kind: nat, after: State, g: Feed)
    requires kind == Field(d, s.pos + 1, 2) && after == State(s.pos + 3, s.out) && g == HeadFeed(f, s.pos)
    requires final == (Field(d, s.pos, 1) == 1) && Body(d, kind, after, n, s')
    ensures Block(d, s, final, n, s') && BlockFeed(d, s, n, f, bytes) == BodyFeed(d, kind, after, n, g, bytes)
  {
  }

  lemma {:induction false} BlockSane(d: BitString, s: State, final: bool, n: nat, s': State, f: Feed, bytes: nat)
    requires Block(d, s, final, n, s') && Sane(f, s.pos, bytes)
    ensures Sane(BlockFeed(d, s, n, f, bytes), s'.pos, bytes)
  {
    var kind, after := Field(d, s.pos + 1, 2), State(s.pos + 3, s.out);
    BlockIsBody(d, s, final, n, s', f, bytes, kind, after);
    HeadSane(f, s.pos, bytes);
    BodySane(d, kind, after, n, s', HeadFeed(f, s.pos), bytes);
  }

  lemma {:induction false} BlocksSane(d: BitString, h: History, f: Feed, bytes: nat)
    requires Blocks(d, h) && Sane(f, First(h).pos, bytes)
    ensures Sane(BlocksFeed(d, h, f, bytes), h.s.pos, bytes)
  {
    if h.Then? {
      BlocksSane(d, h.before, f, bytes);
      BlockSane(d, h.before.s, false, h.n, h.s, BlocksFeed(d, h.before, f, bytes), bytes);
    }
  }

  /** A stream that ends inside the input is read to its end. */
  lemma {:induction false} InsideInTime(d: BitString, p: nat, h: History, n: nat, s: State, bytes: nat)
    requires Inflates(d, p, h, n, s) && s.pos <= 8 * bytes
    ensures InTime(d, p, h, n, bytes)
  {
    BlocksSane(d, h, Begin(p), bytes);
    BlockSane(d, h.s, true, n, s, BlocksFeed(d, h, Begin(p), bytes), bytes);
  }
}
