/**
 Base64 (RFC 4648 section 4) as base_json.cpp writes and reads it: three bytes are the base-64 digits
 of one 24-bit number.
 */
module Base64 {
  import Bits

  type Byte = Bits.Byte

  const PAD: Byte := 0x3D

  /** The alphabet. */
  function Char(v: nat): (c: Byte)
    requires v < 64
  {
    if v < 26 then 0x41 + v else if v < 52 then 0x61 + (v - 26) else if v < 62 then 0x30 + (v - 52)
    else if v == 62 then 0x2B else 0x2F
  }

  /** Letters, digits, plus and slash. */
  predicate IsBase64(c: Byte) {
    0x41 <= c <= 0x5A || 0x61 <= c <= 0x7A || 0x30 <= c <= 0x39 || c == 0x2B || c == 0x2F
  }

  /** Position in the alphabet. */
  function Find(c: Byte): (v: nat)
    requires IsBase64(c)
    ensures v < 64
  {
    if 0x41 <= c <= 0x5A then c - 0x41 else if 0x61 <= c <= 0x7A then c - 0x61 + 26
    else if 0x30 <= c <= 0x39 then c - 0x30 + 52 else if c == 0x2B then 62 else 63
  }

  lemma {:induction false} FindIsInverse(v: nat, c: Byte)
    ensures v < 64 ==> IsBase64(Char(v)) && Find(Char(v)) == v
    ensures IsBase64(c) ==> Char(Find(c)) == c
  {
  }

  // ---------- specification ----------

  type Sextet = d: nat | d < 64

  datatype Group = Group(a: Byte, b: Byte, c: Byte)

  datatype Digits = Digits(d: Sextet, e: Sextet, f: Sextet, g: Sextet)

  /** Three bytes and four base-64 digits of the same 24-bit number. */
  ghost predicate SameNumber(t: Group, q: Digits) {
    0x1_0000 * t.a + 0x100 * t.b + t.c == 0x4_0000 * q.d + 0x1000 * q.e + 64 * q.f + q.g
  }

  ghost function Split(t: Group): (q: Digits)
    ensures SameNumber(t, q)
  {
    Sextets(t.a, t.b, t.c);
    var q :| SameNumber(t, q);
    q
  }

  ghost function Join(q: Digits): (t: Group)
    ensures SameNumber(t, q)
  {
    Octets(q.d, q.e, q.f, q.g);
    var t :| SameNumber(t, q);
    t
  }

  function Chars(q: Digits): seq<Byte> {
    [Char(q.d), Char(q.e), Char(q.f), Char(q.g)]
  }

  function Bytes(t: Group): seq<Byte> {
    [t.a, t.b, t.c]
  }

  /** Section 4: whole groups of three, then two digits and two pads, or three and one. */
  ghost function Encoded(s: seq<Byte>): seq<Byte> {
    if s == [] then []
    else if |s| == 1 then Chars(Split(Group(s[0], 0, 0)))[..2] + [PAD, PAD]
    else if |s| == 2 then Chars(Split(Group(s[0], s[1], 0)))[..3] + [PAD]
    else Chars(Split(Group(s[0], s[1], s[2]))) + Encoded(s[3..])
  }

  /** How many characters of the alphabet s starts with. */
  function RunLength(s: seq<Byte>): (n: nat)
    ensures n <= |s|
  {
    if s == [] || !IsBase64(s[0]) then 0 else 1 + RunLength(s[1..])
  }

  ghost predicate AllBase64(s: seq<Byte>) {
    forall i :: 0 <= i < |s| ==> IsBase64(s[i])
  }

  /** The bytes that characters of the alphabet stand for; a last lone character stands for none. */
  ghost function Decoded(s: seq<Byte>): seq<Byte>
    requires AllBase64(s)
  {
    if |s| <= 1 then []
    else if |s| == 2 then Bytes(Join(Digits(Find(s[0]), Find(s[1]), 0, 0)))[..1]
    else if |s| == 3 then Bytes(Join(Digits(Find(s[0]), Find(s[1]), Find(s[2]), 0)))[..2]
    else Bytes(Join(Digits(Find(s[0]), Find(s[1]), Find(s[2]), Find(s[3])))) + Decoded(s[4..])
  }

  // ---------- numbers ----------

  /** The digits that the encoder's masks and shifts pick make up the number. */
  lemma {:induction false} Sextets(a: Byte, b: Byte, c: Byte)
    ensures a / 4 < 64 && a % 4 * 16 + b / 16 < 64 && b % 16 * 4 + c / 64 < 64 && c % 64 < 64
    ensures SameNumber(Group(a, b, c), Digits(a / 4, a % 4 * 16 + b / 16, b % 16 * 4 + c / 64, c % 64))
  {
  }

  /** The bytes that the decoder's masks and shifts pick make up the number. */
  lemma {:induction false} Octets(d: Sextet, e: Sextet, f: Sextet, g: Sextet)
    ensures d * 4 + e % 64 / 16 < 256 && e % 16 * 16 + f / 4 < 256 && f % 4 * 64 + g < 256
    ensures SameNumber(Group(d * 4 + e % 64 / 16, e % 16 * 16 + f / 4, f % 4 * 64 + g), Digits(d, e, f, g))
  {
  }

  lemma {:induction false} Pairs(h: nat, l: nat, h': nat, l': nat, m: nat)
    requires l < m && l' < m && m * h + l == m * h' + l'
    ensures h == h' && l == l'
  {
    Bits.DivModUnique(m * h + l, h, m, l);
    Bits.DivModUnique(m * h + l, h', m, l');
  }

  /** A number has one representation by digits and one by bytes. */
  lemma {:induction false} SplitIs(t: Group, q: Digits)
    requires SameNumber(t, q)
    ensures Split(t) == q
  {
    var r := Split(t);
    Pairs(0x1000 * r.d + 64 * r.e + r.f, r.g, 0x1000 * q.d + 64 * q.e + q.f, q.g, 64);
    Pairs(64 * r.d + r.e, r.f, 64 * q.d + q.e, q.f, 64);
    Pairs(r.d, r.e, q.d, q.e, 64);
  }

  lemma {:induction false} JoinIs(t: Group, q: Digits)
    requires SameNumber(t, q)
    ensures Join(q) == t
  {
    var r := Join(q);
    Pairs(0x100 * r.a + r.b, r.c, 0x100 * t.a + t.b, t.c, 256);
    Pairs(r.a, r.b, t.a, t.b, 256);
  }

  /** Digits left out of a short last group are 0. */
  lemma {:induction false} ShortSplit(a: Byte, b: Byte)
    ensures var q := Split(Group(a, b, 0)); q.g == 0 && q.f % 4 == 0 && (b == 0 ==> q.f == 0 && q.e % 16 == 0)
  {
    Sextets(a, b, 0);
    SplitIs(Group(a, b, 0), Digits(a / 4, a % 4 * 16 + b / 16, b % 16 * 4, 0));
  }

  /** And so are the bytes, if the unused bits are. */
  lemma {:induction false} ShortJoin(d: Sextet, e: Sextet, f: Sextet)
    ensures var t := Join(Digits(d, e, f, 0));
            && (f % 4 == 0 ==> t.c == 0)
            && (e % 16 == 0 && f == 0 ==> t.b == 0)
  {
    Octets(d, e, f, 0);
    JoinIs(Group(d * 4 + e % 64 / 16, e % 16 * 16 + f / 4, f % 4 * 64), Digits(d, e, f, 0));
  }

  // ---------- characters of the text ----------

  const UPPER := "ABCDEFGHIJKLMNOPQRSTUVWXYZ"
  const LOWER := "abcdefghijklmnopqrstuvwxyz"
  const OTHER := "0123456789+/"

  /** Table 1 of RFC 4648. */
  function Alphabet(): (t: string)
    ensures |t| == 64
  {
    UPPER + LOWER + OTHER
  }

  lemma {:induction false} CharIs(v: Sextet)
    ensures Char(v) == Alphabet()[v] as int
  {
    if v < 26 {
      UpperIs(v, UPPER);
    } else if v < 52 {
      LowerIs(v - 26, LOWER);
    } else {
      assert Alphabet()[v] == OTHER[v - 52];
    }
  }

  lemma {:induction false} UpperIs(i: nat, letters: string)
    requires i < 26 && letters == "ABCDEFGHIJKLMNOPQRSTUVWXYZ"
    ensures letters[i] as int == 0x41 + i
  {
  }

  lemma {:induction false} LowerIs(i: nat, letters: string)
    requires i < 26 && letters == "abcdefghijklmnopqrstuvwxyz"
    ensures letters[i] as int == 0x61 + i
  {
  }

  function At(s: seq<Byte>, i: nat): Byte {
    if i < |s| then s[i] else 0
  }

  /** The 24 bits of three bytes, the first of which are the highest; bytes missing at the end are zero. */
  function Bits24(s: seq<Byte>, g: nat): (n: nat)
    ensures n < 0x100_0000
  {
    0x1_0000 * At(s, 3 * g) + 0x100 * At(s, 3 * g + 1) + At(s, 3 * g + 2)
  }

  /** Six of the 24 bits, the highest first. */
  function SixOf(n: nat, j: nat): Sextet {
    if j == 0 then n / 0x4_0000 % 64 else if j == 1 then n / 0x1000 % 64 else if j == 2 then n / 64 % 64 else n % 64
  }

  /** Character j of group g of the text: six bits of the three bytes, or a pad where they are missing. */
  lemma {:induction false} EncodedAt(s: seq<Byte>, g: nat, j: nat)
    requires j < 4 && 3 * g < |s|
    ensures 4 * g + 4 <= |Encoded(s)|
    ensures Encoded(s)[4 * g + j] == if 3 * g + j > |s| then '=' as int else Alphabet()[SixOf(Bits24(s, g), j)] as int
    decreases |s|
  {
    if g == 0 {
      FirstAt(s, Group(s[0], At(s, 1), At(s, 2)), j);
      CharIs(SixOf(Bits24(s, 0), j));
    } else {
      EncodedAt(s[3..], g - 1, j);
      NextGroup(s, g);
      assert |s[3..]| == |s| - 3;
    }
  }

  lemma {:induction false} NextGroup(s: seq<Byte>, g: nat)
    requires g >= 1 && |s| >= 3
    ensures Bits24(s[3..], g - 1) == Bits24(s, g)
  {
    assert At(s[3..], 3 * (g - 1)) == At(s, 3 * g);
    assert At(s[3..], 3 * (g - 1) + 1) == At(s, 3 * g + 1);
    assert At(s[3..], 3 * (g - 1) + 2) == At(s, 3 * g + 2);
  }

  /** The characters of the first group. */
  lemma {:induction false} FirstAt(s: seq<Byte>, t: Group, k: nat)
    requires s != [] && t == Group(s[0], At(s, 1), At(s, 2)) && k < 4
    ensures Encoded(s) != [] && |Encoded(s)| >= 4
    ensures Encoded(s)[k] == if k > |s| then PAD else Char(SixOf(Bits24(s, 0), k))
  {
    SixOfSplit(t, k);
  }

  lemma {:induction false} SixOfSplit(t: Group, k: nat)
    requires k < 4
    ensures Chars(Split(t))[k] == Char(SixOf(0x1_0000 * t.a + 0x100 * t.b + t.c, k))
  {
    var q := Split(t);
    var n := 0x1_0000 * t.a + 0x100 * t.b + t.c;
    assert n == 0x4_0000 * q.d + 0x1000 * q.e + 64 * q.f + q.g;
    SixOfDigits(q.d, q.e, q.f, q.g, n, k);
  }

  lemma {:induction false} SixOfDigits(d: Sextet, e: Sextet, f: Sextet, g: Sextet, n: nat, k: nat)
    requires n == 0x4_0000 * d + 0x1000 * e + 64 * f + g && k < 4
    ensures SixOf(n, k) == if k == 0 then d else if k == 1 then e else if k == 2 then f else g
  {
    Bits.DivModUnique(n, 0x1000 * d + 64 * e + f, 64, g);
    Bits.DivModUnique(n, 64 * d + e, 0x1000, 64 * f + g);
    Bits.DivModUnique(n, d, 0x4_0000, 0x1000 * e + 64 * f + g);
    Bits.DivModUnique(64 * d + e, d, 64, e);
    Bits.DivModUnique(0x1000 * d + 64 * e + f, 64 * d + e, 64, f);
  }

  // ---------- encoding ----------

  /** The characters of three bytes. */
  method EncodeGroup(a: Byte, b: Byte, c: Byte) returns (q: seq<Byte>)
    ensures q == Chars(Split(Group(a, b, c)))
  {
    Sextets(a, b, c);
    var digits := Digits(a / 4, a % 4 * 16 + b / 16, b % 16 * 4 + c / 64, c % 64);
    SplitIs(Group(a, b, c), digits);
    q := Chars(digits);
  }

  /** ret, the pending bytes and those to come make up the encoding of all bytes. */
  ghost predicate Encoding(ret: seq<Byte>, pending: seq<Byte>, rest: seq<Byte>, bytes: seq<Byte>) {
    ret + Encoded(pending + rest) == Encoded(bytes)
  }

  method Base64Encode(bytes: seq<Byte>) returns (ret: seq<Byte>)
    ensures ret == Encoded(bytes)
  {
    ret := [];
    var char_array_3 := new Byte[3](_ => 0);
    var i: nat, p: nat := 0, 0;
    NothingEncoded(char_array_3[..i], bytes);
    while p < |bytes|
      invariant p <= |bytes| && i < 3
      invariant Encoding(ret, char_array_3[..i], bytes[p..], bytes)
    {
      FirstOfRest(bytes, p);
      i, ret := EncodeByte(char_array_3, i, bytes[p], ret, bytes[p + 1..], bytes);
      p := p + 1;
    }
    AllTaken(ret, char_array_3[..i], bytes);
    if i > 0 {
      var last := EncodeLast(char_array_3, i);
      ret := ret + last;
    }
  }

  lemma {:induction false} NothingEncoded(pending: seq<Byte>, bytes: seq<Byte>)
    requires pending == []
    ensures Encoding([], pending, bytes[0..], bytes)
  {
    assert pending + bytes[0..] == bytes;
  }

  lemma {:induction false} FirstOfRest(bytes: seq<Byte>, p: nat)
    requires p < |bytes|
    ensures bytes[p..] == [bytes[p]] + bytes[p + 1..]
  {
  }

  lemma {:induction false} AllTaken(ret: seq<Byte>, pending: seq<Byte>, bytes: seq<Byte>)
    requires Encoding(ret, pending, bytes[|bytes|..], bytes)
    ensures Encoded(bytes) == ret + Encoded(pending) && (pending == [] ==> Encoded(bytes) == ret)
  {
    assert pending + bytes[|bytes|..] == pending;
  }

  /** Takes a byte into the group; a full group is written. */
  method EncodeByte(char_array_3: array<Byte>, i: nat, b: Byte, ret: seq<Byte>, ghost rest: seq<Byte>,
                    ghost bytes: seq<Byte>) returns (i': nat, ret': seq<Byte>)
    requires char_array_3.Length == 3 && i < 3 && Encoding(ret, char_array_3[..i], [b] + rest, bytes)
    modifies char_array_3
    ensures i' < 3 && Encoding(ret', char_array_3[..i'], rest, bytes)
  {
    Joined(char_array_3[..i], [b], rest);
    char_array_3[i] := b;
    i', ret' := i + 1, ret;
    assert char_array_3[..i'] == old(char_array_3[..i]) + [b];
    if i' == 3 {
      var q := EncodeGroup(char_array_3[0], char_array_3[1], char_array_3[2]);
      EncodedMore(Group(char_array_3[0], char_array_3[1], char_array_3[2]), rest);
      assert char_array_3[..3] == [char_array_3[0], char_array_3[1], char_array_3[2]];
      Joined(ret, q, Encoded(rest));
      i', ret' := 0, ret + q;
      assert char_array_3[..0] + rest == rest;
    }
  }

  /** A last group of i bytes, filled up with zeros. */
  method EncodeLast(char_array_3: array<Byte>, i: nat) returns (ret: seq<Byte>)
    requires char_array_3.Length == 3 && 1 <= i <= 2
    modifies char_array_3
    ensures ret == Encoded(old(char_array_3[..i]))
  {
    ghost var last := char_array_3[..i];
    var j := i;
    while j < 3
      invariant i <= j <= 3 && char_array_3[..i] == last
      invariant forall k :: i <= k < j ==> char_array_3[k] == 0
    {
      char_array_3[j] := 0;
      j := j + 1;
    }
    var q := EncodeGroup(char_array_3[0], char_array_3[1], char_array_3[2]);
    assert char_array_3[0] == char_array_3[..i][0] && (i == 2 ==> char_array_3[1] == char_array_3[..i][1]);
    LastGroup(last, char_array_3[1], q);
    ret := q[..i + 1] + Pads(3 - i);
  }

  function Pads(n: nat): seq<Byte> {
    if n == 0 then [] else [PAD] + Pads(n - 1)
  }

  lemma {:induction false} Joined(a: seq<Byte>, b: seq<Byte>, c: seq<Byte>)
    ensures a + (b + c) == a + b + c
  {
  }

  /** The start of a group filled up with zeros, and pads. */
  lemma {:induction false} LastGroup(last: seq<Byte>, second: Byte, q: seq<Byte>)
    requires 1 <= |last| <= 2 && second == (if |last| == 2 then last[1] else 0)
    requires q == Chars(Split(Group(last[0], second, 0)))
    ensures q[..|last| + 1] + Pads(3 - |last|) == Encoded(last)
  {
    assert Pads(1) == [PAD] + [];
    assert Pads(2) == [PAD] + Pads(1);
  }

  // ---------- decoding ----------

  lemma {:induction false} RunLengthStops(s: seq<Byte>)
    ensures forall i :: 0 <= i < RunLength(s) ==> IsBase64(s[i])
    ensures RunLength(s) < |s| ==> !IsBase64(s[RunLength(s)])
  {
    if s != [] && IsBase64(s[0]) {
      RunLengthStops(s[1..]);
    }
  }

  function Run(s: seq<Byte>): (r: seq<Byte>)
    ensures AllBase64(r) && r == s[..RunLength(s)]
  {
    RunLengthStops(s);
    s[..RunLength(s)]
  }

  lemma {:induction false} RunGoesOn(s: seq<Byte>, p: nat)
    requires p <= |Run(s)| && p < |s| && IsBase64(s[p])
    ensures p < |Run(s)| && Run(s)[p] == s[p]
  {
    RunLengthStops(s);
  }

  lemma {:induction false} RunEnds(s: seq<Byte>, p: nat)
    requires p <= |Run(s)| && (p >= |s| || s[p] == PAD || !IsBase64(s[p]))
    ensures p == |Run(s)|
  {
    RunLengthStops(s);
  }

  /** The bytes of four digits. */
  method DecodeGroup(d: Sextet, e: Sextet, f: Sextet, g: Sextet) returns (t: seq<Byte>)
    ensures t == Bytes(Join(Digits(d, e, f, g)))
  {
    Octets(d, e, f, g);
    var group := Group(d * 4 + e % 64 / 16, e % 16 * 16 + f / 4, f % 4 * 64 + g);
    JoinIs(group, Digits(d, e, f, g));
    t := Bytes(group);
  }

  /** ret, the pending characters and those to come make up what the run decodes to. */
  ghost predicate Decoding(ret: seq<Byte>, pending: seq<Byte>, rest: seq<Byte>, run: seq<Byte>) {
    AllBase64(pending + rest) && AllBase64(run) && ret + Decoded(pending + rest) == Decoded(run)
  }

  /** Stops at the first character that is not of the alphabet. */
  method Base64Decode(encoded: seq<Byte>) returns (ret: seq<Byte>)
    ensures ret == Decoded(Run(encoded))
  {
    ghost var run := Run(encoded);
    ret := [];
    var char_array_4 := new Byte[4](_ => 0);
    var i: nat, p: nat := 0, 0;
    assert char_array_4[..i] + run[p..] == run;
    while p < |encoded| && encoded[p] != PAD && IsBase64(encoded[p])
      invariant p <= |run| && i < 4
      invariant Decoding(ret, char_array_4[..i], run[p..], run)
    {
      RunGoesOn(encoded, p);
      assert run[p..] == [encoded[p]] + run[p + 1..];
      i, ret := DecodeChar(char_array_4, i, encoded[p], ret, run[p + 1..], run);
      p := p + 1;
    }
    RunEnds(encoded, p);
    assert char_array_4[..i] + run[p..] == char_array_4[..i];
    if i > 0 {
      var last := DecodeLast(char_array_4, i);
      ret := ret + last;
    }
  }

  /** Takes a character into the group; a full group is decoded. */
  method DecodeChar(char_array_4: array<Byte>, i: nat, c: Byte, ret: seq<Byte>, ghost rest: seq<Byte>,
                    ghost run: seq<Byte>) returns (i': nat, ret': seq<Byte>)
    requires char_array_4.Length == 4 && i < 4 && Decoding(ret, char_array_4[..i], [c] + rest, run)
    modifies char_array_4
    ensures i' < 4 && Decoding(ret', char_array_4[..i'], rest, run)
  {
    Joined(char_array_4[..i], [c], rest);
    char_array_4[i] := c;
    i', ret' := i + 1, ret;
    assert char_array_4[..i'] == old(char_array_4[..i]) + [c];
    if i' == 4 {
      var group := char_array_4[..];
      assert char_array_4[..4] == group;
      DecodedMore(group, rest);
      var t := DecodeGroup(Find(group[0]), Find(group[1]), Find(group[2]), Find(group[3]));
      Joined(ret, t, Decoded(rest));
      i', ret' := 0, ret + t;
      assert char_array_4[..0] + rest == rest;
    }
  }

  lemma {:induction false} DecodedMore(c: seq<Byte>, rest: seq<Byte>)
    requires |c| == 4 && AllBase64(c + rest)
    ensures AllBase64(c) && AllBase64(rest)
    ensures Decoded(c + rest) == Bytes(Join(Digits(Find(c[0]), Find(c[1]), Find(c[2]), Find(c[3])))) + Decoded(rest)
  {
    var s := c + rest;
    assert s[4..] == rest;
    assert s[0] == c[0] && s[1] == c[1] && s[2] == c[2] && s[3] == c[3];
    forall i | 0 <= i < |rest|
      ensures IsBase64(rest[i])
    {
      assert s[i + 4] == rest[i];
    }
  }

  /** A last group of i characters, filled up with zero digits. */
  method DecodeLast(char_array_4: array<Byte>, i: nat) returns (ret: seq<Byte>)
    requires char_array_4.Length == 4 && 1 <= i <= 3 && AllBase64(char_array_4[..i])
    ensures AllBase64(char_array_4[..i]) && ret == Decoded(char_array_4[..i])
  {
    ghost var last := char_array_4[..i];
    var digits := new Sextet[4](_ => 0);
    var j := 0;
    while j < i
      invariant j <= i
      invariant forall k :: 0 <= k < j ==> digits[k] == Find(last[k])
      invariant forall k :: j <= k < 4 ==> digits[k] == 0
    {
      assert char_array_4[j] == last[j];
      digits[j] := Find(char_array_4[j]);
      j := j + 1;
    }
    var t := DecodeGroup(digits[0], digits[1], digits[2], digits[3]);
    ret := t[..i - 1];
  }

  // ---------- round trips ----------

  /** Encodings come in groups of four characters. */
  lemma {:induction false} EncodedLength(s: seq<Byte>)
    ensures |Encoded(s)| == 4 * Groups(|s|)
    decreases |s|
  {
    if |s| >= 3 {
      EncodedLength(s[3..]);
    }
  }

  /** A third of n, rounded up. */
  function Groups(n: nat): nat {
    if n == 0 then 0 else if n < 3 then 1 else 1 + Groups(n - 3)
  }

  lemma {:induction false} GroupsIs(n: nat)
    ensures Groups(n) == (n + 2) / 3
  {
    if n >= 3 {
      GroupsIs(n - 3);
    }
  }

  lemma {:induction false} CharsFound(q: Digits)
    ensures AllBase64(Chars(q))
    ensures Find(Char(q.d)) == q.d && Find(Char(q.e)) == q.e && Find(Char(q.f)) == q.f && Find(Char(q.g)) == q.g
  {
    FindIsInverse(q.d, 0);
    FindIsInverse(q.e, 0);
    FindIsInverse(q.f, 0);
    FindIsInverse(q.g, 0);
  }

  lemma {:induction false} RunOfFour(q: seq<Byte>, s: seq<Byte>)
    requires |q| == 4 && AllBase64(q)
    ensures Run(q + s) == q + Run(s)
  {
    var t := q + s;
    assert t[1..][1..][1..][1..] == s;
    assert RunLength(t) == 1 + RunLength(t[1..]);
    assert RunLength(t[1..]) == 1 + RunLength(t[1..][1..]);
    assert RunLength(t[1..][1..]) == 1 + RunLength(t[1..][1..][1..]);
  }

  lemma {:induction false} RunOfThree(e: seq<Byte>)
    requires |e| == 4 && IsBase64(e[0]) && IsBase64(e[1]) && IsBase64(e[2]) && e[3] == PAD
    ensures Run(e) == [e[0], e[1], e[2]]
  {
    assert RunLength(e[1..][1..][1..]) == 0;
    assert RunLength(e[1..][1..]) == 1;
    assert RunLength(e[1..]) == 2;
  }

  lemma {:induction false} RunOfTwo(e: seq<Byte>)
    requires |e| == 4 && IsBase64(e[0]) && IsBase64(e[1]) && e[2] == PAD
    ensures Run(e) == [e[0], e[1]]
  {
    assert RunLength(e[1..][1..]) == 0;
    assert RunLength(e[1..]) == 1;
  }

  lemma {:induction false} DecodedOfEncoded(s: seq<Byte>)
    ensures Decoded(Run(Encoded(s))) == s
    decreases |s|
  {
    if |s| >= 3 {
      DecodedOfEncoded(s[3..]);
      WholeDecoded(Group(s[0], s[1], s[2]), Encoded(s[3..]));
      assert s == [s[0], s[1], s[2]] + s[3..];
    } else if |s| == 2 {
      ShortDecoded(s[0], s[1], Encoded(s));
      assert s == [s[0], s[1]];
    } else if |s| == 1 {
      ShortDecoded(s[0], 0, Encoded(s));
      assert s == [s[0]];
    }
  }

  lemma {:induction false} WholeDecoded(t: Group, rest: seq<Byte>)
    ensures Decoded(Run(Chars(Split(t)) + rest)) == Bytes(t) + Decoded(Run(rest))
  {
    var q := Split(t);
    CharsFound(q);
    JoinIs(t, q);
    RunOfFour(Chars(q), rest);
    assert (Chars(q) + Run(rest))[4..] == Run(rest);
  }

  lemma {:induction false} ShortDecoded(a: Byte, b: Byte, e: seq<Byte>)
    ensures var q := Split(Group(a, b, 0));
            && (e == Chars(q)[..3] + [PAD] ==> Decoded(Run(e)) == [a, b])
            && (b == 0 && e == Chars(q)[..2] + [PAD, PAD] ==> Decoded(Run(e)) == [a])
  {
    var q := Split(Group(a, b, 0));
    ShortSplit(a, b);
    CharsFound(q);
    JoinIs(Group(a, b, 0), q);
    if e == Chars(q)[..3] + [PAD] {
      RunOfThree(e);
    } else if b == 0 && e == Chars(q)[..2] + [PAD, PAD] {
      RunOfTwo(e);
    }
  }

  method EncodeThenDecode(bytes: seq<Byte>) returns (encoded: seq<Byte>, decoded: seq<Byte>)
    ensures |encoded| == 4 * ((|bytes| + 2) / 3)
    ensures decoded == bytes
  {
    encoded := Base64Encode(bytes);
    decoded := Base64Decode(encoded);
    EncodedLength(bytes);
    GroupsIs(|bytes|);
    DecodedOfEncoded(bytes);
  }

  // ---------- which texts are encodings ----------

  /** Groups of four characters; a short last group is padded and its unused bits are 0. */
  predicate Canonical(s: seq<Byte>)
    decreases |s|, 1
  {
    s == [] || (|s| >= 4 && IsBase64(s[0]) && IsBase64(s[1]) && CanonicalEnd(s))
  }

  predicate CanonicalEnd(s: seq<Byte>)
    requires |s| >= 4 && IsBase64(s[0]) && IsBase64(s[1])
    decreases |s|, 0
  {
    if |s| == 4 && s[2] == PAD then s[3] == PAD && Find(s[1]) % 16 == 0
    else if |s| == 4 && s[3] == PAD then IsBase64(s[2]) && Find(s[2]) % 4 == 0
    else IsBase64(s[2]) && IsBase64(s[3]) && Canonical(s[4..])
  }

  lemma {:induction false} EncodedCanonical(s: seq<Byte>)
    ensures Canonical(Encoded(s))
    decreases |s|
  {
    if |s| >= 3 {
      CharsFound(Split(Group(s[0], s[1], s[2])));
      EncodedCanonical(s[3..]);
      assert Encoded(s)[4..] == Encoded(s[3..]);
    } else if |s| == 2 {
      ShortSplit(s[0], s[1]);
      CharsFound(Split(Group(s[0], s[1], 0)));
    } else if |s| == 1 {
      ShortSplit(s[0], 0);
      CharsFound(Split(Group(s[0], 0, 0)));
    }
  }

  lemma {:induction false} CharsOf(q: Digits, s: seq<Byte>)
    requires |s| >= 2 && IsBase64(s[0]) && IsBase64(s[1]) && q.d == Find(s[0]) && q.e == Find(s[1])
    ensures Char(q.d) == s[0] && Char(q.e) == s[1] && Split(Join(q)) == q
  {
    FindIsInverse(0, s[0]);
    FindIsInverse(0, s[1]);
    SplitIs(Join(q), q);
  }

  lemma {:induction false} CanonicalEncoded(s: seq<Byte>)
    requires Canonical(s)
    ensures Encoded(Decoded(Run(s))) == s
    decreases |s|
  {
    if s != [] {
      if |s| == 4 && s[2] == PAD {
        TwoEncoded(s);
      } else if |s| == 4 && s[3] == PAD {
        ThreeEncoded(s);
      } else {
        CanonicalEncoded(s[4..]);
        FourEncoded(s);
      }
    }
  }

  lemma {:induction false} TwoEncoded(s: seq<Byte>)
    requires |s| == 4 && Canonical(s) && s[2] == PAD
    ensures Encoded(Decoded(Run(s))) == s
  {
    var q := Digits(Find(s[0]), Find(s[1]), 0, 0);
    RunOfTwo(s);
    CharsOf(q, s);
    ShortJoin(q.d, q.e, 0);
  }

  lemma {:induction false} ThreeEncoded(s: seq<Byte>)
    requires |s| == 4 && Canonical(s) && s[2] != PAD && s[3] == PAD
    ensures Encoded(Decoded(Run(s))) == s
  {
    var q := Digits(Find(s[0]), Find(s[1]), Find(s[2]), 0);
    RunOfThree(s);
    CharsOf(q, s);
    FindIsInverse(0, s[2]);
    ShortJoin(q.d, q.e, q.f);
  }

  lemma {:induction false} FourEncoded(s: seq<Byte>)
    requires |s| >= 4 && AllBase64(s[..4]) && Encoded(Decoded(Run(s[4..]))) == s[4..]
    ensures Encoded(Decoded(Run(s))) == s
  {
    var c := s[..4];
    assert c[0] == s[0] && c[1] == s[1] && c[2] == s[2] && c[3] == s[3];
    var q := Digits(Find(s[0]), Find(s[1]), Find(s[2]), Find(s[3]));
    assert s == c + s[4..];
    RunOfFour(c, s[4..]);
    CharsOf(q, s);
    FindIsInverse(0, s[2]);
    FindIsInverse(0, s[3]);
    var rest := Decoded(Run(s[4..]));
    assert (c + Run(s[4..]))[4..] == Run(s[4..]);
    EncodedMore(Join(q), rest);
  }

  lemma {:induction false} EncodedMore(t: Group, rest: seq<Byte>)
    ensures Encoded(Bytes(t) + rest) == Chars(Split(t)) + Encoded(rest)
  {
    assert (Bytes(t) + rest)[3..] == rest;
  }

  /** Exactly the canonical texts are restored by encoding what they decode to. */
  lemma {:induction false} CanonicalIff(s: seq<Byte>)
    ensures Encoded(Decoded(Run(s))) == s <==> Canonical(s)
  {
    if Canonical(s) {
      CanonicalEncoded(s);
    }
    EncodedCanonical(Decoded(Run(s)));
  }
}
