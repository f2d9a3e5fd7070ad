/**
 What the string literals of cJSON.c have to do with RFC 8259: an independent decoder for the standard, and where
 the parser and the printer agree with it.
 */
module CJsonStandard {
  import opened JsonText
  import opened CJsonParse

  // ---------- the standard ----------

  // RFC 8259: a literal is UTF-8 (section 8.1) without bare control characters, and \u is followed by four
  // hexadecimal digits (section 7).  A surrogate may stand alone; what it means is left open (section 8.2), and it is
  // kept here as the three bytes of its number.

  /** How many bytes from the second on the first byte of a UTF-8 sequence asks for; 0 if it asks for none. */
  function Following(b: Byte): nat {
    if 0xC2 <= b <= 0xDF then 1 else if 0xE0 <= b <= 0xEF then 2 else if 0xF0 <= b <= 0xF4 then 3 else 0
  }

  /** The bounds of the second byte (RFC 3629 section 4). */
  function SecondLow(b: Byte): Byte {
    if b == 0xE0 then 0xA0 else if b == 0xF0 then 0x90 else 0x80
  }

  function SecondHigh(b: Byte): Byte {
    if b == 0xED then 0x9F else if b == 0xF4 then 0x8F else 0xBF
  }

  predicate Within(s: seq<Byte>, p: nat, end: nat, low: Byte, high: Byte)
    requires end <= |s|
  {
    p < end && low <= s[p] <= high
  }

  /** The length of the UTF-8 sequence at p, 0 if it is not well formed. */
  function SequenceLength(s: seq<Byte>, p: nat, end: nat): (n: nat)
    requires p < end <= |s|
    ensures n <= 4 && p + n <= end
  {
    if s[p] < 0x80 then 1
    else
      var n := Following(s[p]);
      if && n > 0 && Within(s, p + 1, end, SecondLow(s[p]), SecondHigh(s[p]))
         && (n < 2 || Within(s, p + 2, end, 0x80, 0xBF)) && (n < 3 || Within(s, p + 3, end, 0x80, 0xBF))
      then n + 1 else 0
  }

  predicate Surrogate(c: nat) {
    0xD800 <= c <= 0xDFFF
  }

  /** A hexadecimal digit of either case, or -1. */
  function Hex(b: Byte): (v: int)
    ensures -1 <= v < 16
  {
    match b
    case 0x30 => 0 case 0x31 => 1 case 0x32 => 2 case 0x33 => 3 case 0x34 => 4
    case 0x35 => 5 case 0x36 => 6 case 0x37 => 7 case 0x38 => 8 case 0x39 => 9
    case 0x41 => 10 case 0x42 => 11 case 0x43 => 12 case 0x44 => 13 case 0x45 => 14 case 0x46 => 15
    case 0x61 => 10 case 0x62 => 11 case 0x63 => 12 case 0x64 => 13 case 0x65 => 14 case 0x66 => 15
    case _ => -1
  }

  predicate FourHex(s: seq<Byte>, p: nat)
    requires p + 4 <= |s|
  {
    Hex(s[p]) >= 0 && Hex(s[p + 1]) >= 0 && Hex(s[p + 2]) >= 0 && Hex(s[p + 3]) >= 0
  }

  function FourValue(s: seq<Byte>, p: nat): (v: nat)
    requires p + 4 <= |s| && FourHex(s, p)
    ensures v <= 0xFFFF
  {
    0x1000 * Hex(s[p]) + 0x100 * Hex(s[p + 1]) + 0x10 * Hex(s[p + 2]) + Hex(s[p + 3])
  }

  /** A \u escape at p, with the second one if both make up a surrogate pair. */
  function StandardUnit(s: seq<Byte>, p: nat, end: nat): (u: Unit)
    requires p < end <= |s|
    ensures u.Unit? ==> u.code <= 0x10FFFF && 6 <= u.used <= 12 && p + u.used <= end
  {
    if end - p < 6 || !FourHex(s, p + 2) then BadUnit
    else
      var h := FourValue(s, p + 2);
      if 0xD800 <= h < 0xDC00 && LowFollows(s, p + 6, end) then
        Unit(0x1_0000 + (h - 0xD800) * 0x400 + (FourValue(s, p + 8) - 0xDC00), 12)
      else Unit(h, 6)
  }

  /** The escape of a low surrogate stands at p. */
  predicate LowFollows(s: seq<Byte>, p: nat, end: nat)
    requires p <= end <= |s|
  {
    && end - p >= 6 && s[p] == 0x5C && s[p + 1] == 0x75 && FourHex(s, p + 2)
    && 0xDC00 <= FourValue(s, p + 2) <= 0xDFFF
  }

  /** The bytes of a literal as the standard defines them. */
  function StrictUnescape(s: seq<Byte>, p: nat, end: nat, out: seq<Byte>): Decoded
    requires end < |s|
    decreases end - p
  {
    if p >= end then Decoded(out)
    else if s[p] < 0x20 || s[p] == 0x22 then Undecodable
    else if s[p] != 0x5C then
      var n := SequenceLength(s, p, end);
      if n == 0 then Undecodable else StrictUnescape(s, p + n, end, out + s[p..p + n])
    else if p + 1 >= end then Undecodable
    else if s[p + 1] == 0x75 then
      var u := StandardUnit(s, p, end);
      if u.BadUnit? then Undecodable else StrictUnescape(s, p + u.used, end, out + Utf8(u.code))
    else if Denoted(s[p + 1]) < 0 then Undecodable
    else StrictUnescape(s, p + 2, end, out + [Denoted(s[p + 1])])
  }

  /** What a letter after a backslash stands for, or -1. */
  function Denoted(letter: Byte): (c: int)
    ensures -1 <= c < 256
  {
    match letter
    case 0x22 => 0x22 case 0x5C => 0x5C case 0x2F => 0x2F case 0x62 => 0x08
    case 0x66 => 0x0C case 0x6E => 0x0A case 0x72 => 0x0D case 0x74 => 0x09 case _ => -1
  }

  /** No surrogate stands alone before the literal ends or breaks the standard. */
  predicate Paired(s: seq<Byte>, p: nat, end: nat)
    requires end < |s|
    decreases end - p
  {
    if p >= end || s[p] < 0x20 || s[p] == 0x22 then true
    else if s[p] != 0x5C then
      var n := SequenceLength(s, p, end);
      n == 0 || Paired(s, p + n, end)
    else if p + 1 >= end then true
    else if s[p + 1] == 0x75 then
      var u := StandardUnit(s, p, end);
      u.BadUnit? || (!Surrogate(u.code) && Paired(s, p + u.used, end))
    else Denoted(s[p + 1]) < 0 || Paired(s, p + 2, end)
  }

  /** Nothing that only the parser takes is met before the literal ends or an escape is bad. */
  predicate Conforms(s: seq<Byte>, p: nat, end: nat)
    requires end < |s|
    decreases end - p
  {
    if p >= end then true
    else if s[p] != BACKSLASH then
      var n := SequenceLength(s, p, end);
      s[p] >= 0x20 && s[p] != QUOTE && n > 0 && Conforms(s, p + n, end)
    else if p + 1 >= end then false
    else if s[p + 1] == 0x75 then
      var u := Utf16(s, p, end);
      u.BadUnit? || (Hexes(s, p + 2, 4) && Conforms(s, p + u.used, end))
    else Unletter(s[p + 1]) < 0 || Conforms(s, p + 2, end)
  }

  /** The parser takes the bytes of a sequence one by one. */
  lemma {:induction false} PlainRun(s: seq<Byte>, p: nat, n: nat, end: nat, out: seq<Byte>)
    requires p + n <= end < |s| && forall k :: p <= k < p + n ==> s[k] != BACKSLASH
    ensures Unescape(s, p, end, out) == Unescape(s, p + n, end, out + s[p..p + n])
    decreases n
  {
    if n == 0 {
      assert out + s[p..p] == out;
    } else {
      PlainRun(s, p + 1, n - 1, end, out + [s[p]]);
      assert out + [s[p]] + s[p + 1..p + n] == out + s[p..p + n];
    }
  }

  /** The parser takes a \u escape as the standard does if it has its digits and is no lone surrogate. */
  lemma {:induction false} UnitsAgree(s: seq<Byte>, p: nat, end: nat)
    requires p < end <= |s|
    ensures var u, v := StandardUnit(s, p, end), Utf16(s, p, end);
            && (v.Unit? && Hexes(s, p + 2, 4) ==> u == v && !Surrogate(u.code))
            && (u.Unit? ==> Hexes(s, p + 2, 4) && if Surrogate(u.code) then v.BadUnit? else u == v)
  {
    if end - p >= 6 {
      HexesAgree(s, p + 2);
      if end - p >= 12 {
        HexesAgree(s, p + 8);
      }
      if Hexes(s, p + 2, 4) && LowFollows(s, p + 6, end) && 0xD800 <= FourValue(s, p + 2) < 0xDC00 {
        PairArithmetic(FourValue(s, p + 2), FourValue(s, p + 8));
      }
    }
  }

  lemma {:induction false} HexAgrees(b: Byte)
    ensures Hex(b) == HexValue(b)
  {
  }

  lemma {:induction false} HexesAgree(s: seq<Byte>, p: nat)
    requires p + 4 <= |s|
    ensures FourHex(s, p) <==> Hexes(s, p, 4)
    ensures FourHex(s, p) ==> HexUpTo(s, p, 4) == FourValue(s, p)
  {
    HexAgrees(s[p]);
    HexAgrees(s[p + 1]);
    HexAgrees(s[p + 2]);
    HexAgrees(s[p + 3]);
    assert Hexes(s, p, 4) <==> Hexes(s, p, 3) && HexValue(s[p + 3]) >= 0;
    assert Hexes(s, p, 3) <==> Hexes(s, p, 2) && HexValue(s[p + 2]) >= 0;
    assert Hexes(s, p, 2) <==> Hexes(s, p, 1) && HexValue(s[p + 1]) >= 0;
    if FourHex(s, p) {
      FourDigits(s, p);
    }
  }

  lemma {:induction false} PairArithmetic(h: int, l: int)
    requires 0xD800 <= h < 0xDC00 <= l <= 0xDFFF
    ensures h % 1024 * 1024 + l % 1024 == (h - 0xD800) * 0x400 + (l - 0xDC00)
    ensures 0x1_0000 + h % 1024 * 1024 + l % 1024 >= 0x1_0000
  {
    assert h == 54 * 1024 + (h - 0xD800) && l == 55 * 1024 + (l - 0xDC00);
  }

  /**
   What both make of a literal: the same where it conforms and is decoded, or is permitted and without lone
   surrogates; a permitted literal with a lone surrogate is refused by the parser.
   */
  lemma {:induction false} StrictIff(s: seq<Byte>, p: nat, end: nat, out: seq<Byte>)
    requires end < |s|
    ensures var strict, lax := StrictUnescape(s, p, end, out), Unescape(s, p, end, out);
            && (lax.Decoded? && Conforms(s, p, end) <==> strict.Decoded? && Paired(s, p, end))
            && (strict.Decoded? && lax.Decoded? ==> strict == lax)
            && (strict.Decoded? ==> (lax.Decoded? <==> Paired(s, p, end)))
            && (lax.Decoded? ==> (strict.Decoded? <==> Conforms(s, p, end)))
    decreases end - p
  {
    if p < end {
      if s[p] != BACKSLASH {
        var n := SequenceLength(s, p, end);
        if n > 0 {
          PlainRun(s, p, n, end, out);
          StrictIff(s, p + n, end, out + s[p..p + n]);
        }
      } else if s[p + 1] == 0x75 {
        UnitsAgree(s, p, end);
        var u, v := StandardUnit(s, p, end), Utf16(s, p, end);
        if u.Unit? && u == v {
          StrictIff(s, p + u.used, end, out + Utf8(u.code));
        }
      } else if Unletter(s[p + 1]) >= 0 {
        StrictIff(s, p + 2, end, out + [Unletter(s[p + 1])]);
      }
    }
  }

  // ---------- the parser ----------

  /** The bytes of the literal at the start of s by the standard. */
  function LiteralOf(s: seq<Byte>): Decoded
    requires s != []
  {
    var q := Closing(s, 1);
    if s[0] == QUOTE && q >= 0 then StrictUnescape(s, 1, q, []) else Undecodable
  }

  predicate LiteralPaired(s: seq<Byte>)
    requires s != []
  {
    var q := Closing(s, 1);
    q >= 0 && Paired(s, 1, q)
  }

  /** A literal that the parser decodes although the standard does not permit it. */
  predicate Lax(s: seq<Byte>)
    requires s != []
  {
    var q := Closing(s, 1);
    s[0] == QUOTE && q >= 0 && Unescape(s, 1, q, []).Decoded? && !Conforms(s, 1, q)
  }

  /** A C string ends before the first zero. */
  lemma {:induction false} CStringIff(b: seq<Byte>)
    ensures CString(b) == b <==> 0 !in b
  {
    if b != [] && b[0] != 0 {
      CStringIff(b[1..]);
      assert b == [b[0]] + b[1..];
      assert CString(b)[1..] == CString(b[1..]);
    }
  }

  /**
   The parser returns what a permitted literal denotes exactly if no surrogate in it stands alone and no zero is
   denoted.  With a lone surrogate it fails; at a zero the string is cut.  What is not permitted is taken exactly
   if it is lax.
   */
  method ParseLiteral(s: seq<Byte>) returns (ok: bool, valuestring: seq<CByte>)
    requires s != []
    ensures ok && LiteralOf(s) == Decoded(valuestring)
            <==> LiteralOf(s).Decoded? && LiteralPaired(s) && 0 !in LiteralOf(s).bytes
    ensures LiteralOf(s).Decoded? ==>
              (ok <==> LiteralPaired(s)) && (ok ==> valuestring == CString(LiteralOf(s).bytes))
    ensures LiteralOf(s).Undecodable? ==> (ok <==> Lax(s))
  {
    var buffer := new ParseBuffer(s);
    ok, valuestring := buffer.ParseString();
    ghost var q := Closing(s, 1);
    if q >= 0 {
      StrictIff(s, 1, q, []);
    }
    if LiteralOf(s).Decoded? {
      CStringIff(LiteralOf(s).bytes);
    }
  }

  // ---------- the printer ----------

  /** The bytes are UTF-8 from i on. */
  predicate WellFormed(s: seq<Byte>, i: nat)
    decreases |s| - i
  {
    if i >= |s| then true
    else
      var n := SequenceLength(s, i, |s|);
      n > 0 && WellFormed(s, i + n)
  }

  /** The printed form of byte i and of those after it stands at p and ends at `end`. */
  ghost predicate Printed(t: seq<Byte>, p: nat, s: seq<CByte>, i: nat, end: nat, rest: Chars) {
    && i <= |s| && end < |t| && t[end] == QUOTE && end == EscapedEnd(s, i, p)
    && Stands(t, p, EscapedFrom(s, i, Cons(QUOTE, rest)))
  }

  /** A byte of a longer sequence stands for itself; nothing else looks like one. */
  lemma {:induction false} NextPrinted(t: seq<Byte>, p: nat, s: seq<CByte>, i: nat, end: nat, rest: Chars)
    requires Printed(t, p, s, i, end, rest)
    ensures if i < |s| && s[i] >= 0x80 then p < end && t[p] == s[i] && Printed(t, p + 1, s, i + 1, end, rest)
            else p >= end || t[p] < 0x80
  {
    if i < |s| {
      WordStands(t, p, Escape(s[i]), EscapedFrom(s, i + 1, Cons(QUOTE, rest)));
      assert t[p + 0] == Escape(s[i])[0];
    }
  }

  /** A longer sequence stands for itself. */
  lemma {:induction false} SequencePrinted(t: seq<Byte>, p: nat, s: seq<CByte>, i: nat, end: nat, rest: Chars)
    requires Printed(t, p, s, i, end, rest) && i < |s| && s[i] >= 0x80
    ensures p < end && t[p] == s[i] && SequenceLength(t, p, end) == SequenceLength(s, i, |s|)
    ensures var n := SequenceLength(s, i, |s|); n > 0 ==> Printed(t, p + n, s, i + n, end, rest)
  {
    NextPrinted(t, p, s, i, end, rest);
    NextPrinted(t, p + 1, s, i + 1, end, rest);
    if i + 1 < |s| && s[i + 1] >= 0x80 {
      NextPrinted(t, p + 2, s, i + 2, end, rest);
      if i + 2 < |s| && s[i + 2] >= 0x80 {
        NextPrinted(t, p + 3, s, i + 3, end, rest);
      }
    }
  }

  /** One escaped byte that is no part of a longer sequence. */
  lemma {:induction false} BytePrinted(t: seq<Byte>, p: nat, s: seq<CByte>, i: nat, end: nat, rest: Chars)
    requires Printed(t, p, s, i, end, rest) && i < |s| && s[i] < 0x80
    ensures p + |Escape(s[i])| <= end && Printed(t, p + |Escape(s[i])|, s, i + 1, end, rest)
    ensures Conforms(t, p, end) == Conforms(t, p + |Escape(s[i])|, end)
  {
    var c, e := s[i], Escape(s[i]);
    WordStands(t, p, e, EscapedFrom(s, i + 1, Cons(QUOTE, rest)));
    assert t[p + 0] == e[0];
    if Letter(c) != 0 {
      assert t[p + 1] == e[1];
    } else if c < 32 {
      assert t[p + 1] == e[1] && t[p + 2] == e[2] && t[p + 3] == e[3] && t[p + 4] == e[4] && t[p + 5] == e[5];
      UnicodeDigits(t, p + 2, c);
      assert Utf16(t, p, end) == Unit(c, 6);
    }
  }

  lemma {:induction false} PrintedConforms(t: seq<Byte>, p: nat, s: seq<CByte>, i: nat, end: nat, rest: Chars)
    requires Printed(t, p, s, i, end, rest)
    ensures Conforms(t, p, end) <==> WellFormed(s, i)
    decreases |s| - i
  {
    if i < |s| {
      if s[i] < 0x80 {
        BytePrinted(t, p, s, i, end, rest);
        PrintedConforms(t, p + |Escape(s[i])|, s, i + 1, end, rest);
      } else {
        SequencePrinted(t, p, s, i, end, rest);
        var n := SequenceLength(s, i, |s|);
        if n > 0 {
          PrintedConforms(t, p + n, s, i + n, end, rest);
        }
      }
    }
  }

  /** The printed form of a string is a literal of the standard, and denotes the string, exactly if the string is UTF-8. */
  lemma {:induction false} PrintedIff(t: seq<Byte>, s: seq<CByte>, rest: Chars)
    requires Stands(t, 0, StringText(s, rest))
    ensures t != [] && LiteralOf(t) == if WellFormed(s, 0) then Decoded(s) else Undecodable
  {
    StringRead(t, 0, s, rest);
    EscapedStands(t, 1, s, 0, rest);
    PrintedConforms(t, 1, s, 0, Closing(t, 1), rest);
    StrictIff(t, 1, Closing(t, 1), []);
  }

  /** The bytes of a code point, by how many continuation bytes there are. */
  lemma {:induction false} Utf8Bytes(c: nat)
    requires c <= 0x10FFFF
    ensures var b, q, r := Utf8(c), c / 64, c / 64 / 64;
            b == if c < 0x80 then [c]
                 else if c < 0x800 then [0xC0 + q, 0x80 + c % 64]
                 else if c < 0x1_0000 then [0xE0 + r, 0x80 + q % 64, 0x80 + c % 64]
                 else [0xF0 + r / 64, 0x80 + r % 64, 0x80 + q % 64, 0x80 + c % 64]
  {
    var q, r := c / 64, c / 64 / 64;
    assert High(q, 1) == r && High(r, 1) == r / 64 && High(q, 2) == r / 64;
    assert Low(r, 1) == [0x80 + r % 64] && Low(q, 1) == [0x80 + q % 64] && Low(c, 1) == [0x80 + c % 64];
    assert Low(q, 2) == Low(r, 1) + [0x80 + q % 64] && Low(c, 2) == Low(q, 1) + [0x80 + c % 64];
    assert Low(c, 3) == Low(q, 2) + [0x80 + c % 64];
    assert High(c, 1) == q && High(c, 2) == r && High(c, 3) == r / 64;
  }

  /** The code points that the parser encodes are UTF-8 exactly if they are no surrogates. */
  lemma {:induction false} EncodedIff(c: nat)
    requires c <= 0x10FFFF
    ensures SequenceLength(Utf8(c), 0, |Utf8(c)|) == if Surrogate(c) then 0 else |Utf8(c)|
  {
    Utf8Bytes(c);
    var q, r := c / 64, c / 64 / 64;
    assert c == 64 * q + c % 64 && q == 64 * r + q % 64 && r == 64 * (r / 64) + r % 64;
    assert Surrogate(c) <==> r == 13 && q % 64 >= 32;
  }

  // ---------- literals on which they differ ----------

  const A: Byte := 0x61
  const B: Byte := 0x62

  /** A literal like "a\uXXXXb", in which nothing but the four digits is open. */
  ghost predicate Around(s: seq<Byte>) {
    && |s| == 10 && s[..4] == [QUOTE, A, BACKSLASH, 0x75] && s[8..] == [B, QUOTE]
    && forall k :: 4 <= k < 8 ==> s[k] != QUOTE && s[k] != BACKSLASH
  }

  lemma {:induction false} AroundParts(s: seq<Byte>)
    requires Around(s)
    ensures s[0] == s[9] == QUOTE && s[1] == A && s[2] == BACKSLASH && s[3] == 0x75 && s[8] == B
    ensures Closing(s, 1) == 9
  {
    assert s[..4][0] == QUOTE && s[..4][1] == A && s[..4][2] == BACKSLASH && s[..4][3] == 0x75;
    assert s[8..][0] == B && s[8..][1] == QUOTE;
    assert Closing(s, 8) == 9 && Closing(s, 7) == 9 && Closing(s, 6) == 9 && Closing(s, 5) == 9;
    assert Closing(s, 4) == 9 && Closing(s, 2) == 9;
  }

  lemma {:induction false} AroundDecodes(s: seq<Byte>)
    requires Around(s) && Hex4(s, 4) == 0
    ensures Closing(s, 1) == 9 && Unescape(s, 1, 9, []) == Decoded([A, 0, B])
    ensures LiteralOf(s) == if Hexes(s, 4, 4) then Decoded([A, 0, B]) else Undecodable
  {
    AroundParts(s);
    assert Utf16(s, 2, 9) == Unit(0, 6) && Utf8(0) == [0];
    assert [] + [A] == [A] && [A] + [0] == [A, 0] && [A, 0] + [B] == [A, 0, B];
    assert Unescape(s, 9, 9, [A, 0, B]) == Decoded([A, 0, B]);
    assert Unescape(s, 8, 9, [A, 0]) == Decoded([A, 0, B]);
    assert Unescape(s, 2, 9, [A]) == Decoded([A, 0, B]);
    StrictIff(s, 1, 9, []);
    assert Conforms(s, 9, 9) && Conforms(s, 8, 9) && (Conforms(s, 2, 9) <==> Hexes(s, 4, 4)) && SequenceLength(s, 1, 9) == 1;
  }

  lemma {:induction false} FourDigits(s: seq<Byte>, p: nat)
    requires p + 4 <= |s| && forall k :: p <= k < p + 4 ==> HexValue(s[k]) >= 0
    ensures Hexes(s, p, 4)
    ensures HexUpTo(s, p, 4)
            == 0x1000 * HexValue(s[p]) + 0x100 * HexValue(s[p + 1]) + 0x10 * HexValue(s[p + 2]) + HexValue(s[p + 3])
  {
    NextHex(s, p, 0);
    NextHex(s, p, 1);
    NextHex(s, p, 2);
    NextHex(s, p, 3);
  }

  lemma {:induction false} CutAfterA()
    ensures CString([A, 0, B]) == [A]
  {
    assert [A, 0, B][1..] == [0, B];
    assert CString([0, B]) == [];
  }

  /** The literal "a\u0000b" is permitted, but cut after its first character. */
  method ZeroIsCut() returns (ok: bool, valuestring: seq<CByte>, ghost s: seq<Byte>)
    ensures ok && valuestring == [A] && s != [] && LiteralOf(s) == Decoded([A, 0, B])
  {
    var literal := [QUOTE, A, BACKSLASH, 0x75] + [0x30, 0x30, 0x30, 0x30] + [B, QUOTE];
    s := literal;
    assert s[4] == s[5] == s[6] == s[7] == 0x30;
    FourDigits(s, 4);
    AroundDecodes(s);
    CutAfterA();
    ok, valuestring := ParseLiteral(literal);
  }

  /** The literal "a\uZZZZb" is not permitted, but accepted and cut. */
  method NotHexIsCut() returns (ok: bool, valuestring: seq<CByte>, ghost s: seq<Byte>)
    ensures ok && valuestring == [A] && s != [] && LiteralOf(s) == Undecodable
  {
    var literal := [QUOTE, A, BACKSLASH, 0x75] + [0x5A, 0x5A, 0x5A, 0x5A] + [B, QUOTE];
    s := literal;
    assert s[4] == s[5] == s[6] == s[7] == 0x5A;
    assert HexValue(s[4]) == -1;
    HexesAll(s, 4, 0, 4);
    AroundDecodes(s);
    CutAfterA();
    var buffer := new ParseBuffer(literal);
    ok, valuestring := buffer.ParseString();
  }

  /** The literal "\uDEAD" is permitted, but refused. */
  method LoneIsRefused() returns (ok: bool, valuestring: seq<CByte>, ghost s: seq<Byte>)
    ensures !ok && s != [] && LiteralOf(s).Decoded?
  {
    var literal := [QUOTE, BACKSLASH, 0x75, 0x44, 0x45, 0x41, 0x44, QUOTE];
    s := literal;
    assert Closing(s, 1) == 7 by {
      assert Closing(s, 6) == 7 && Closing(s, 5) == 7 && Closing(s, 4) == 7 && Closing(s, 3) == 7;
    }
    FourDigits(s, 3);
    assert StandardUnit(s, 1, 7) == Unit(0xDEAD, 6);
    assert StrictUnescape(s, 7, 7, [] + Utf8(0xDEAD)).Decoded?;
    ok, valuestring := ParseLiteral(literal);
  }

  /** A byte that is not UTF-8 is taken as it is. */
  method RawByteIsTaken() returns (ok: bool, valuestring: seq<CByte>, ghost s: seq<Byte>)
    ensures ok && valuestring == [0x80] && s != [] && LiteralOf(s) == Undecodable
  {
    var literal := [QUOTE, 0x80, QUOTE];
    s := literal;
    assert Closing(s, 1) == 2 && SequenceLength(s, 1, 2) == 0;
    assert Unescape(s, 2, 2, [0x80]) == Decoded([0x80]);
    assert [] + [0x80] == [0x80];
    CStringWhole([0x80]);
    var buffer := new ParseBuffer(literal);
    ok, valuestring := buffer.ParseString();
  }
}
