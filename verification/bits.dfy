/**
 Bit strings and their values.  Shift registers are modelled as natural numbers with the
 machine's shifts written as multiplication and division by powers of two; the lemmas
 below say what those shifts do to the string of bits the register holds.
 */
module Bits {

  /** A string of bits, most significant first. */
  type BitString = seq<bool>

  type Byte = b: int | 0 <= b < 256

  function Pow2(n: nat): (p: nat)
    ensures p > 0
  {
    if n == 0 then 1 else 2 * Pow2(n - 1)
  }

  /** v shifted left by n places. */
  function Shl(v: nat, n: nat): nat {
    if n == 0 then v else 2 * Shl(v, n - 1)
  }

  /** v shifted right by n places. */
  function Shr(v: nat, n: nat): nat {
    if n == 0 then v else Shr(v / 2, n - 1)
  }

  /** The low n bits of v: v masked with 2^n - 1. */
  function Low(v: nat, n: nat): (r: nat)
    ensures r <= v
  {
    if n == 0 then 0 else 2 * Low(v / 2, n - 1) + v % 2
  }

  /** The number a bit string denotes. */
  function Val(b: BitString): nat {
    if b == [] then 0 else 2 * Val(b[..|b| - 1]) + (if b[|b| - 1] then 1 else 0)
  }

  /** The low n bits of v. */
  function FromVal(v: nat, n: nat): (b: BitString)
    ensures |b| == n
  {
    if n == 0 then [] else FromVal(v / 2, n - 1) + [v % 2 == 1]
  }

  function Zeros(n: nat): (b: BitString)
    ensures |b| == n && forall i :: 0 <= i < n ==> !b[i]
  {
    if n == 0 then [] else Zeros(n - 1) + [false]
  }

  /** Bitwise or on natural numbers of any width. */
  function BitOr(a: nat, b: nat): nat {
    if a == 0 && b == 0 then 0
    else 2 * BitOr(a / 2, b / 2) + (if a % 2 == 1 || b % 2 == 1 then 1 else 0)
  }

  /** The bits of a byte string, most significant bit of each byte first. */
  function BitsOf(bytes: seq<Byte>): (b: BitString)
    ensures |b| == 8 * |bytes|
  {
    if bytes == [] then [] else FromVal(bytes[0], 8) + BitsOf(bytes[1..])
  }

  // ---------- arithmetic ----------

  lemma {:induction false} MulGap(a: int, b: int, d: int)
    requires d > 0
    ensures a < b ==> a * d + d <= b * d
  {
    if a < b {
      assert b * d == (a + 1) * d + (b - a - 1) * d;
      assert (b - a - 1) * d >= 0;
    }
  }

  lemma {:induction false} MulAssoc(a: int, b: int, c: int)
    ensures a * b * c == a * (b * c)
  {
  }

  lemma {:induction false} DivModUnique(x: int, q: int, d: int, r: int)
    requires x == q * d + r && 0 <= r < d
    ensures x / d == q && x % d == r
  {
    assert x == x / d * d + x % d;
    MulGap(x / d, q, d);
    MulGap(q, x / d, d);
  }

  lemma {:induction false} ModDouble(v: nat, d: nat)
    requires d > 0
    ensures v % (2 * d) == 2 * (v / 2 % d) + v % 2
    ensures v / (2 * d) == v / 2 / d
  {
    var q, r := v / 2 / d, v / 2 % d;
    assert v / 2 == q * d + r;
    assert q * (2 * d) == 2 * (q * d);
    DivModUnique(v, q, 2 * d, 2 * r + v % 2);
  }

  lemma {:induction false} Pow2Add(a: nat, b: nat)
    ensures Pow2(a + b) == Pow2(a) * Pow2(b)
  {
    if a > 0 {
      Pow2Add(a - 1, b);
    }
  }

  lemma {:induction false} Pow2Mono(a: nat, b: nat)
    requires a <= b
    ensures Pow2(a) <= Pow2(b)
    ensures a < b ==> Pow2(a) < Pow2(b)
    decreases b
  {
    if a < b {
      Pow2Mono(a, b - 1);
    }
  }

  lemma {:induction false} Pow2Values()
    ensures Pow2(0) == 1 && Pow2(1) == 2 && Pow2(2) == 4 && Pow2(3) == 8 && Pow2(4) == 16
    ensures Pow2(5) == 32 && Pow2(6) == 64 && Pow2(7) == 128 && Pow2(8) == 256 && Pow2(9) == 512
    ensures Pow2(10) == 1024 && Pow2(11) == 2048 && Pow2(15) == 0x8000 && Pow2(16) == 0x1_0000
    ensures Pow2(23) == 0x80_0000 && Pow2(24) == 0x100_0000 && Pow2(31) == 0x8000_0000
    ensures Pow2(32) == 0x1_0000_0000
  {
    Pow2Add(8, 8);
    Pow2Add(16, 8);
    Pow2Add(16, 16);
  }

  lemma {:induction false} ShlIsMul(v: nat, n: nat)
    ensures Shl(v, n) == v * Pow2(n)
  {
    if n > 0 {
      ShlIsMul(v, n - 1);
      MulAssoc(v, Pow2(n - 1), 2);
    }
  }

  lemma {:induction false} ShlAdd(v: nat, a: nat, b: nat)
    ensures Shl(v, a + b) == Shl(Shl(v, a), b)
    decreases b
  {
    if b > 0 {
      ShlAdd(v, a, b - 1);
    }
  }

  lemma {:induction false} ShlMono(v: nat, a: nat, b: nat)
    requires a <= b
    ensures Shl(v, a) <= Shl(v, b)
    decreases b
  {
    if a < b {
      ShlMono(v, a, b - 1);
    }
  }

  lemma {:induction false} ShlSum(u: nat, v: nat, n: nat)
    ensures Shl(u + v, n) == Shl(u, n) + Shl(v, n)
    ensures u < v ==> Shl(u, n) + Shl(1, n) <= Shl(v, n)
    ensures Shl(1, n) == Pow2(n)
  {
    if n > 0 {
      ShlSum(u, v, n - 1);
    }
  }

  lemma {:induction false} ShlBelow(v: nat, n: nat, m: nat)
    requires v < Pow2(n)
    ensures Shl(v, m) < Pow2(n + m)
  {
    if m > 0 {
      ShlBelow(v, n, m - 1);
    }
  }

  lemma {:induction false} LowOfSum(v: nat, r: nat, n: nat)
    requires r < Pow2(n)
    ensures Low(Shl(v, n) + r, n) == r
  {
    if n > 0 {
      LowOfSum(v, r / 2, n - 1);
    }
  }

  lemma {:induction false} LowOfSmall(r: nat, n: nat)
    requires r < Pow2(n)
    ensures Low(r, n) == r
  {
    ShlIsMul(0, n);
    LowOfSum(0, r, n);
  }

  /** Shifting right undoes shifting left and drops what was below. */
  lemma {:induction false} ShrOfShl(v: nat, r: nat, n: nat)
    requires r < Pow2(n)
    ensures Shr(Shl(v, n) + r, n) == v
  {
    if n > 0 {
      ShrOfShl(v, r / 2, n - 1);
    }
  }

  /** Concatenation is associative. */
  lemma {:induction false} Assoc(a: BitString, b: BitString, c: BitString)
    ensures a + b + c == a + (b + c)
  {
  }

  lemma {:induction false} Pow2At32()
    ensures Pow2(32) == 0x1_0000_0000
  {
    Pow2Values();
  }

  // ---------- values of bit strings ----------

  lemma {:induction false} ValBound(b: BitString)
    ensures Val(b) < Pow2(|b|)
  {
    if b != [] {
      ValBound(b[..|b| - 1]);
    }
  }

  lemma {:induction false} ValConcat(a: BitString, b: BitString)
    ensures Val(a + b) == Shl(Val(a), |b|) + Val(b)
    decreases |b|
  {
    if b == [] {
      assert a + b == a;
    } else {
      var b' := b[..|b| - 1];
      assert (a + b)[..|a + b| - 1] == a + b';
      ValConcat(a, b');
    }
  }

  lemma {:induction false} ValSplit(b: BitString, k: nat)
    requires k <= |b|
    ensures Val(b) == Shl(Val(b[..k]), |b| - k) + Val(b[k..])
    ensures Val(b[k..]) < Pow2(|b| - k)
  {
    assert b == b[..k] + b[k..];
    ValConcat(b[..k], b[k..]);
    ValBound(b[k..]);
  }

  /** Shifting right keeps the leading bits. */
  lemma {:induction false} ValTop(b: BitString, k: nat)
    requires k <= |b|
    ensures Shr(Val(b), |b| - k) == Val(b[..k])
  {
    ValSplit(b, k);
    ShrOfShl(Val(b[..k]), Val(b[k..]), |b| - k);
  }

  lemma {:induction false} ValZeros(n: nat)
    ensures Val(Zeros(n)) == 0
  {
    if n > 0 {
      assert Zeros(n)[..n - 1] == Zeros(n - 1);
      ValZeros(n - 1);
    }
  }

  lemma {:induction false} FromValOfVal(b: BitString)
    ensures FromVal(Val(b), |b|) == b
  {
    if b != [] {
      FromValOfVal(b[..|b| - 1]);
      assert b == b[..|b| - 1] + [b[|b| - 1]];
    }
  }

  lemma {:induction false} ValOfFromVal(v: nat, n: nat)
    ensures Val(FromVal(v, n)) == v % Pow2(n)
    ensures v < Pow2(n) ==> Val(FromVal(v, n)) == v
  {
    if n > 0 {
      ValOfFromVal(v / 2, n - 1);
      assert FromVal(v, n)[..n - 1] == FromVal(v / 2, n - 1);
      ModDouble(v, Pow2(n - 1));
    }
    if v < Pow2(n) {
      DivModUnique(v, 0, Pow2(n), v);
    }
  }

  lemma {:induction false} ValInjective(a: BitString, b: BitString)
    requires |a| == |b| && Val(a) == Val(b)
    ensures a == b
  {
    FromValOfVal(a);
    FromValOfVal(b);
  }

  /** Setting bits in the free low part of a register is adding them. */
  lemma {:induction false} OrDisjoint(a: nat, b: nat, k: nat)
    requires b < Pow2(k) && a % Pow2(k) == 0
    ensures BitOr(a, b) == a + b
    decreases k, a
  {
    if k == 0 {
      if a > 0 {
        OrDisjoint(a / 2, 0, 0);
      }
    } else {
      var d := Pow2(k - 1);
      var q := a / Pow2(k);
      assert a == q * (2 * d) == 2 * (q * d);
      DivModUnique(a / 2, q, d, 0);
      OrDisjoint(a / 2, b / 2, k - 1);
    }
  }

  lemma {:induction false} BitsOfConcat(a: seq<Byte>, b: seq<Byte>)
    ensures BitsOf(a + b) == BitsOf(a) + BitsOf(b)
  {
    if a == [] {
      assert a + b == b;
    } else {
      assert (a + b)[1..] == a[1..] + b;
      BitsOfConcat(a[1..], b);
    }
  }

  // ---------- 32-bit registers filled from the top ----------

  /** The register holds the bits w at its top and zeros below them. */
  ghost predicate Register(reg: nat, w: BitString) {
    |w| <= 32 && reg == Shl(Val(w), 32 - |w|)
  }

  lemma {:induction false} ShlVal(w: BitString, n: nat)
    ensures Shl(Val(w), n) == Val(w + Zeros(n))
  {
    ValConcat(w, Zeros(n));
    ValZeros(n);
  }

  lemma {:induction false} RegisterEmpty()
    ensures Register(0, [])
  {
    ShlIsMul(0, 32);
  }

  /** `reg |= v << (32 - (|w| + n))` appends n bits. */
  lemma {:induction false} RegisterPush(reg: nat, w: BitString, v: nat, n: nat)
    requires Register(reg, w) && |w| + n <= 32 && v < Pow2(n)
    ensures Shl(v, 32 - |w| - n) < 0x1_0000_0000
    ensures Register(BitOr(reg, Shl(v, 32 - |w| - n)), w + FromVal(v, n))
  {
    var m := 32 - |w| - n;
    RegisterFree(Val(w), v, n, m);
    RegisterFits(v, n, m);
    RegisterValue(w, v, n, m);
  }

  lemma {:induction false} RegisterValue(w: BitString, v: nat, n: nat, m: nat)
    requires v < Pow2(n)
    ensures Shl(Val(w + FromVal(v, n)), m) == Shl(Val(w), n + m) + Shl(v, m)
  {
    ValOfFromVal(v, n);
    ValConcat(w, FromVal(v, n));
    ShlSum(Shl(Val(w), n), v, m);
    ShlAdd(Val(w), n, m);
  }

  lemma {:induction false} RegisterFits(v: nat, n: nat, m: nat)
    requires v < Pow2(n) && n + m <= 32
    ensures Shl(v, m) < 0x1_0000_0000
  {
    ShlBelow(v, n, m);
    Pow2Mono(n + m, 32);
    Pow2Values();
  }

  lemma {:induction false} RegisterFree(a: nat, v: nat, n: nat, m: nat)
    requires v < Pow2(n)
    ensures BitOr(Shl(a, n + m), Shl(v, m)) == Shl(a, n + m) + Shl(v, m)
  {
    ShlBelow(v, n, m);
    ShlIsMul(a, n + m);
    DivModUnique(Shl(a, n + m), a, Pow2(n + m), 0);
    OrDisjoint(Shl(a, n + m), Shl(v, m), n + m);
  }

  /** `reg <<= s` drops the first s bits. */
  lemma {:induction false} RegisterShift(reg: nat, w: BitString, s: nat)
    requires Register(reg, w) && s <= |w|
    ensures Register(Shl(reg, s) % 0x1_0000_0000, w[s..])
  {
    var hi, lo, n := Val(w[..s]), Val(w[s..]), |w| - s;
    ValSplit(w, s);
    RegisterDrop32(hi, lo, n, s, 32 - |w|);
  }

  lemma {:induction false} RegisterDrop(hi: nat, lo: nat, n: nat, s: nat, m: nat)
    requires lo < Pow2(n)
    ensures Shl(Shl(Shl(hi, n) + lo, m), s) % Pow2(n + (m + s)) == Shl(lo, m + s)
  {
    ShlAdd(Shl(hi, n) + lo, m, s);
    ShlSum(Shl(hi, n), lo, m + s);
    ShlAdd(hi, n, m + s);
    ShlIsMul(hi, n + (m + s));
    ShlBelow(lo, n, m + s);
    DivModUnique(Shl(Shl(Shl(hi, n) + lo, m), s), hi, Pow2(n + (m + s)), Shl(lo, m + s));
  }

  lemma {:induction false} RegisterDrop32(hi: nat, lo: nat, n: nat, s: nat, m: nat)
    requires lo < Pow2(n) && n + s + m == 32
    ensures Shl(Shl(Shl(hi, n) + lo, m), s) % 0x1_0000_0000 == Shl(lo, m + s)
  {
    RegisterDrop(hi, lo, n, s, m);
    Pow2At32();
    assert n + (m + s) == 32;
  }

  /** `reg >> (32 - k)` reads the first k bits. */
  lemma {:induction false} RegisterTop(reg: nat, w: BitString, k: nat)
    requires Register(reg, w) && k <= |w|
    ensures Shr(reg, 32 - k) == Val(w[..k])
  {
    var z := w + Zeros(32 - |w|);
    ShlVal(w, 32 - |w|);
    ValTop(z, k);
    assert z[..k] == w[..k];
  }

  /** Taking the top byte off a register. */
  lemma {:induction false} RegisterPop(reg: nat, w: BitString)
    requires Register(reg, w) && |w| >= 8
    ensures Shr(reg, 24) == Val(w[..8]) < 256
    ensures BitsOf([Shr(reg, 24)]) == w[..8]
    ensures Register(Shl(reg, 8) % 0x1_0000_0000, w[8..])
  {
    RegisterTop(reg, w, 8);
    RegisterShift(reg, w, 8);
    ByteBits(w[..8]);
  }

  lemma {:induction false} ByteBits(w: BitString)
    requires |w| == 8
    ensures Val(w) < 256 && BitsOf([Val(w)]) == w
  {
    ValBound(w);
    FromValOfVal(w);
    Pow2Values();
  }

  /** Or with bits below the others: the sum, whose low bits they are. */
  lemma {:induction false} LowOrDisjoint(v: nat, r: nat, n: nat)
    requires r < Pow2(n)
    ensures BitOr(Shl(v, n), r) == Shl(v, n) + r
    ensures Low(Shl(v, n) + r, n) == r
  {
    ShlIsMul(v, n);
    DivModUnique(Shl(v, n), v, Pow2(n), 0);
    OrDisjoint(Shl(v, n), r, n);
    LowOfSum(v, r, n);
  }

  // ---------- reading numbers from a bit string ----------

  ghost predicate At(d: BitString, i: nat) {
    i < |d| && d[i]
  }

  /** The number in k bits from position p of d, which continues with zeros. */
  ghost function Peek(d: BitString, p: nat, k: nat): (v: nat)
    ensures v < Pow2(k)
  {
    if k == 0 then 0 else 2 * Peek(d, p, k - 1) + (if At(d, p + k - 1) then 1 else 0)
  }

  lemma {:induction false} PeekSplit(d: BitString, p: nat, a: nat, b: nat)
    ensures Peek(d, p, a + b) == Shl(Peek(d, p, a), b) + Peek(d, p + a, b)
  {
    if b > 0 {
      PeekSplit(d, p, a, b - 1);
    }
  }

  lemma {:induction false} PeekPast(d: BitString, p: nat, k: nat)
    requires p >= |d|
    ensures Peek(d, p, k) == 0
  {
    if k > 0 {
      PeekPast(d, p, k - 1);
    }
  }

  lemma {:induction false} PeekIsVal(d: BitString, p: nat, w: BitString)
    requires p + |w| <= |d| && d[p..p + |w|] == w
    ensures Peek(d, p, |w|) == Val(w)
  {
    if w != [] {
      var w' := w[..|w| - 1];
      assert w' == d[p..p + |w'|];
      PeekIsVal(d, p, w');
    }
  }

  /** The register holds the n-bit number v at its top and zeros below it. */
  ghost predicate Top(reg: nat, v: nat, n: nat) {
    n <= 32 && v < Pow2(n) && reg == Shl(v, 32 - n)
  }

  lemma {:induction false} TopPush(reg: nat, v: nat, n: nat, x: nat, m: nat)
    requires Top(reg, v, n) && n + m <= 32 && x < Pow2(m)
    ensures Top(BitOr(reg, Shl(x, 32 - n - m)), Shl(v, m) + x, n + m)
  {
    var r := 32 - n - m;
    ShlSum(Shl(v, m), x, r);
    ShlAdd(v, m, r);
    RegisterFree(v, x, m, r);
    ShlBelowSum(v, n, x, m);
  }

  lemma {:induction false} ShlBelowSum(v: nat, n: nat, x: nat, m: nat)
    requires v < Pow2(n) && x < Pow2(m)
    ensures Shl(v, m) + x < Pow2(n + m)
  {
    if m > 0 {
      ShlBelowSum(v, n, x / 2, m - 1);
    }
  }

  lemma {:induction false} TopDrop(reg: nat, hi: nat, a: nat, lo: nat, b: nat)
    requires Top(reg, Shl(hi, b) + lo, a + b) && lo < Pow2(b)
    ensures Top(Shl(reg, a) % 0x1_0000_0000, lo, b)
  {
    RegisterDrop32(hi, lo, b, a, 32 - a - b);
    Top32(lo, b);
  }

  lemma {:induction false} Top32(lo: nat, b: nat)
    requires b <= 32 && lo < Pow2(b)
    ensures Top(Shl(lo, 32 - b), lo, b)
  {
  }

  lemma {:induction false} TopRead(reg: nat, hi: nat, a: nat, lo: nat, b: nat)
    requires Top(reg, Shl(hi, b) + lo, a + b) && lo < Pow2(b)
    ensures Shr(reg, 32 - a) == hi
  {
    var m := 32 - a - b;
    ShlSum(Shl(hi, b), lo, m);
    ShlAdd(hi, b, m);
    ShlBelow(lo, b, m);
    ShrOfShl(hi, Shl(lo, m), b + m);
  }

  // ---------- code words in writing order ----------

  /** A list of numbers with their widths in bits. */
  datatype Pieces = End | Piece(v: nat, n: nat, rest: Pieces)

  ghost function Flat(w: Pieces): BitString {
    match w
    case End => []
    case Piece(v, n, rest) => FromVal(v, n) + Flat(rest)
  }

  /** Appending the pieces one after the other to `before` gives `total`. */
  ghost predicate Yields(before: BitString, w: Pieces, total: BitString)
    decreases w
  {
    match w
    case End => before == total
    case Piece(v, n, rest) => Yields(before + FromVal(v, n), rest, total)
  }

  lemma {:induction false} YieldsFlat(before: BitString, w: Pieces, total: BitString)
    ensures Yields(before, w, total) <==> total == before + Flat(w)
    decreases w
  {
    match w
    case End => assert before + [] == before;
    case Piece(v, n, rest) =>
      Assoc(before, FromVal(v, n), Flat(rest));
      YieldsFlat(before + FromVal(v, n), rest, total);
  }

  /** The pieces stand in d from position p on. */
  ghost predicate Stands(d: BitString, p: nat, w: Pieces)
    decreases w
  {
    match w
    case End => true
    case Piece(v, n, rest) => p + n <= |d| && Peek(d, p, n) == v && Stands(d, p + n, rest)
  }

  /** Pieces narrower than their values would lose bits. */
  ghost predicate Narrow(w: Pieces) {
    match w
    case End => true
    case Piece(v, n, rest) => v < Pow2(n) && Narrow(rest)
  }

  lemma {:induction false} FlatStands(d: BitString, p: nat, w: Pieces, tail: BitString)
    requires p <= |d| && d[p..] == Flat(w) + tail && Narrow(w)
    ensures Stands(d, p, w)
    decreases w
  {
    match w
    case End =>
    case Piece(v, n, rest) =>
      var b := FromVal(v, n);
      assert d[p..p + n] == d[p..][..n] == b;
      PeekIsVal(d, p, b);
      ValOfFromVal(v, n);
      assert d[p + n..] == d[p..][n..] == Flat(rest) + tail;
      FlatStands(d, p + n, rest, tail);
  }
}
