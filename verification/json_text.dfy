/**
 JSON values and the text that cJSON.c prints for them (RFC 8259 with a fixed layout).  A text is a list
 of bytes in front of whatever follows, so that printer and parser can be compared byte by byte.
 */
module JsonText {

  import Bits

  type Byte = Bits.Byte

  /** A byte of a C string. */
  type CByte = b: int | 0 < b < 256 witness 1

  type Int32 = i: int | -0x8000_0000 <= i <= 0x7FFF_FFFF

  /** Numbers are integers of 32 bits. */
  datatype Json =
    | Null
    | False
    | True
    | Number(valueint: Int32)
    | String(valuestring: seq<CByte>)
    | Array(items: seq<Json>)
    | Object(members: seq<Member>)

  datatype Member = Member(name: seq<CByte>, value: Json)

  const QUOTE: CByte := 0x22
  const BACKSLASH: CByte := 0x5C
  const COMMA: CByte := 0x2C
  const COLON: CByte := 0x3A
  const TAB: CByte := 9
  const NEWLINE: CByte := 10
  const SPACE: CByte := 32

  function NullWord(): seq<CByte> { [0x6E, 0x75, 0x6C, 0x6C] }
  function TrueWord(): seq<CByte> { [0x74, 0x72, 0x75, 0x65] }
  function FalseWord(): seq<CByte> { [0x66, 0x61, 0x6C, 0x73, 0x65] }

  /** Bytes and what follows them. */
  datatype Chars = End | Cons(b: Byte, rest: Chars)

  function Word(bytes: seq<CByte>, rest: Chars): Chars {
    if bytes == [] then rest else Cons(bytes[0], Word(bytes[1..], rest))
  }

  // ---------- strings ----------

  function HexDigit(v: nat): CByte
    requires v < 16
  {
    if v < 10 then 0x30 + v else 0x57 + v
  }

  /** The letter after the backslash in a short escape, 0 if there is none for c. */
  function Letter(c: Byte): Byte {
    if c == QUOTE || c == BACKSLASH then c
    else if c == 8 then 0x62 else if c == 12 then 0x66 else if c == 10 then 0x6E
    else if c == 13 then 0x72 else if c == 9 then 0x74 else 0
  }

  /** A control character as \u00xx. */
  function UnicodeEscape(c: CByte): (e: seq<CByte>)
    requires c < 32
    ensures |e| == 6
  {
    [BACKSLASH, 0x75, 0x30, 0x30, HexDigit(c / 16), HexDigit(c % 16)]
  }

  /** A byte inside a string literal. */
  function Escape(c: CByte): (e: seq<CByte>)
    ensures |e| == if Letter(c) != 0 then 2 else if c < 32 then 6 else 1
  {
    if Letter(c) != 0 then [BACKSLASH, Letter(c)] else if c < 32 then UnicodeEscape(c) else [c]
  }

  /** The bytes of s from i on, escaped. */
  function EscapedFrom(s: seq<CByte>, i: nat, rest: Chars): Chars
    decreases |s| - i
  {
    if i >= |s| then rest else Word(Escape(s[i]), EscapedFrom(s, i + 1, rest))
  }

  function StringText(s: seq<CByte>, rest: Chars): Chars {
    Cons(QUOTE, EscapedFrom(s, 0, Cons(QUOTE, rest)))
  }

  // ---------- numbers ----------

  function Digits(n: nat): (d: seq<CByte>)
    ensures |d| >= 1
  {
    if n < 10 then [0x30 + n] else Digits(n / 10) + [0x30 + n % 10]
  }

  /** What the conversion %d prints. */
  function Decimal(i: int): (d: seq<CByte>)
    ensures |d| >= 1
  {
    if i < 0 then [0x2D] + Digits(-i) else Digits(i)
  }

  lemma {:induction false} DigitsShort(n: nat, k: nat)
    requires n < Power10(k) && k >= 1
    ensures |Digits(n)| <= k
  {
    if n >= 10 {
      DigitsShort(n / 10, k - 1);
    }
  }

  function Power10(k: nat): nat {
    if k == 0 then 1 else 10 * Power10(k - 1)
  }

  lemma {:induction false} DecimalShort(i: Int32)
    ensures |Decimal(i)| <= 11
  {
    DigitsShort(if i < 0 then -(i as int) else i, 10);
  }

  // ---------- values ----------

  function Width(v: Json): nat {
    match v
    case Array(items) => |items|
    case Object(members) => |members|
    case _ => 0
  }

  function Repeat(b: Byte, n: nat, rest: Chars): Chars {
    if n == 0 then rest else Cons(b, Repeat(b, n - 1, rest))
  }

  /** Layout bytes, in formatted text only. */
  function Layout(fmt: bool, b: Byte, n: nat, rest: Chars): Chars {
    if fmt then Repeat(b, n, rest) else rest
  }

  ghost function ValueText(v: Json, depth: nat, fmt: bool, rest: Chars): Chars
    decreases v, Width(v) + 1
  {
    match v
    case Null => Word(NullWord(), rest)
    case False => Word(FalseWord(), rest)
    case True => Word(TrueWord(), rest)
    case Number(i) => Word(Decimal(i), rest)
    case String(s) => StringText(s, rest)
    case Array(_) => Cons(0x5B, ItemsText(v, 0, depth + 1, fmt, Cons(0x5D, rest)))
    case Object(_) =>
      Cons(0x7B, Layout(fmt, NEWLINE, 1,
        MembersText(v, 0, depth + 1, fmt, Layout(fmt, TAB, depth, Cons(0x7D, rest)))))
  }

  /** The elements of an array from the i-th on. */
  ghost function ItemsText(v: Json, i: nat, depth: nat, fmt: bool, rest: Chars): Chars
    requires v.Array?
    decreases v, Width(v) - i
  {
    if i >= |v.items| then rest
    else ValueText(v.items[i], depth, fmt,
           if i + 1 == |v.items| then rest
           else Cons(COMMA, Layout(fmt, SPACE, 1, ItemsText(v, i + 1, depth, fmt, rest))))
  }

  /** The members of an object from the i-th on. */
  ghost function MembersText(v: Json, i: nat, depth: nat, fmt: bool, rest: Chars): Chars
    requires v.Object?
    decreases v, Width(v) - i
  {
    if i >= |v.members| then rest
    else
      Layout(fmt, TAB, depth, StringText(v.members[i].name, Cons(COLON, Layout(fmt, TAB, 1,
        ValueText(v.members[i].value, depth, fmt,
          AfterMember(i + 1 == |v.members|, fmt, MembersText(v, i + 1, depth, fmt, rest)))))))
  }

  /** A comma if another member follows, and the end of the line. */
  function AfterMember(last: bool, fmt: bool, rest: Chars): Chars {
    var line := Layout(fmt, NEWLINE, 1, rest);
    if last then line else Cons(COMMA, line)
  }

  // ---------- texts in byte strings ----------

  /** The text stands in s at p and ends where s ends. */
  ghost predicate Stands(s: seq<Byte>, p: nat, w: Chars)
    decreases w
  {
    match w
    case End => p == |s|
    case Cons(b, rest) => p < |s| && s[p] == b && Stands(s, p + 1, rest)
  }

  /** Appending the text to `before` gives `total`. */
  ghost predicate Yields(before: seq<Byte>, w: Chars, total: seq<Byte>)
    decreases w
  {
    match w
    case End => before == total
    case Cons(b, rest) => Yields(before + [b], rest, total)
  }

  /**
   The same, stated with a bound variable for the text so that proofs unfold it on demand only:
   `total` is what has been written with the text that is still owed.
   */
  ghost predicate Owes(before: seq<Byte>, w: Chars, total: seq<Byte>) {
    forall x: Chars :: OwesIf(before, w, total, x)
  }

  ghost predicate OwesIf(before: seq<Byte>, w: Chars, total: seq<Byte>, x: Chars) {
    x == w ==> Yields(before, x, total)
  }

  lemma {:induction false} OwesIs(before: seq<Byte>, w: Chars, total: seq<Byte>)
    ensures Owes(before, w, total) <==> Yields(before, w, total)
  {
    if Owes(before, w, total) {
      assert OwesIf(before, w, total, w);
    }
  }

  /** Writing the first byte of what is owed. */
  lemma {:induction false} OwesLess(before: seq<Byte>, b: Byte, rest: Chars, total: seq<Byte>)
    requires Owes(before, Cons(b, rest), total)
    ensures Owes(before + [b], rest, total) && |before| < |total|
  {
    OwesIs(before, Cons(b, rest), total);
    OwesIs(before + [b], rest, total);
    YieldsStands(before + [b], rest, total);
  }

  ghost function Flat(w: Chars): seq<Byte> {
    match w
    case End => []
    case Cons(b, rest) => [b] + Flat(rest)
  }

  lemma {:induction false} YieldsFlat(before: seq<Byte>, w: Chars, total: seq<Byte>)
    ensures Yields(before, w, total) <==> total == before + Flat(w)
    decreases w
  {
    match w
    case End => assert before + [] == before;
    case Cons(b, rest) =>
      YieldsFlat(before + [b], rest, total);
      assert before + [b] + Flat(rest) == before + Flat(w);
  }

  lemma {:induction false} YieldsStands(before: seq<Byte>, w: Chars, total: seq<Byte>)
    requires Yields(before, w, total)
    ensures |before| <= |total| && total[..|before|] == before && Stands(total, |before|, w)
    decreases w
  {
    if w.Cons? {
      YieldsStands(before + [w.b], w.rest, total);
      assert total[..|before|] == total[..|before| + 1][..|before|];
    }
  }

  /** The printed text of a value, with the zero byte that ends it. */
  ghost function TextOf(v: Json, fmt: bool): seq<Byte> {
    Flat(ValueText(v, 0, fmt, Cons(0, End)))
  }

  lemma {:induction false} OwesWord(before: seq<Byte>, bytes: seq<CByte>, rest: Chars, total: seq<Byte>)
    requires Owes(before, Word(bytes, rest), total)
    ensures Owes(before + bytes, rest, total) && |before| + |bytes| <= |total|
    decreases |bytes|
  {
    if bytes == [] {
      assert before + bytes == before;
      OwesIs(before, rest, total);
      YieldsStands(before, rest, total);
    } else {
      OwesLess(before, bytes[0], Word(bytes[1..], rest), total);
      OwesWord(before + [bytes[0]], bytes[1..], rest, total);
      assert before + [bytes[0]] + bytes[1..] == before + bytes;
    }
  }

  lemma {:induction false} OwesRepeat(before: seq<Byte>, b: Byte, n: nat, rest: Chars, total: seq<Byte>)
    requires Owes(before, Repeat(b, n, rest), total)
    ensures |before| + n <= |total|
    decreases n
  {
    if n == 0 {
      OwesIs(before, rest, total);
      YieldsStands(before, rest, total);
    } else {
      OwesLess(before, b, Repeat(b, n - 1, rest), total);
      OwesRepeat(before + [b], b, n - 1, rest, total);
    }
  }

  /** How many layout bytes there are. */
  function LayoutLength(fmt: bool, n: nat): nat {
    if fmt then n else 0
  }

  lemma {:induction false} OwesLayout(before: seq<Byte>, fmt: bool, b: Byte, n: nat, rest: Chars, total: seq<Byte>)
    requires Owes(before, Layout(fmt, b, n, rest), total)
    ensures |before| + LayoutLength(fmt, n) <= |total|
  {
    if fmt {
      OwesRepeat(before, b, n, rest, total);
    } else {
      OwesWord(before, [], rest, total);
    }
  }
}
