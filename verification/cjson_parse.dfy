/**
 The parser of cJSON.c: string literals with their escapes, integers, and nested values.
 String literals are proved against a specification of what they decode to; every value is proved to be
 read back from its printed text.
 */
module CJsonParse {
  import opened JsonText
  import opened JsonTree

  const NESTING_LIMIT := 1000

  // ---------- string literals ----------

  /** Where the literal that starts before p is closed, or -1; a backslash hides the byte after it. */
  function Closing(s: seq<Byte>, p: nat): (q: int)
    ensures q == -1 || p <= q < |s|
    decreases |s| - p
  {
    if p >= |s| then -1
    else if s[p] == QUOTE then p
    else if s[p] == BACKSLASH then (if p + 1 >= |s| then -1 else Closing(s, p + 2))
    else Closing(s, p + 1)
  }

  /** The value of a hexadecimal digit, or -1. */
  function HexValue(b: Byte): (v: int)
    ensures -1 <= v < 16
  {
    if 0x30 <= b <= 0x39 then b - 0x30
    else if 0x41 <= b <= 0x46 then b - 0x41 + 10
    else if 0x61 <= b <= 0x66 then b - 0x61 + 10
    else -1
  }

  /** The first n of four bytes are hexadecimal digits. */
  predicate Hexes(s: seq<Byte>, p: nat, n: nat)
    requires n <= 4 && p + 4 <= |s|
  {
    n == 0 || (Hexes(s, p, n - 1) && HexValue(s[p + n - 1]) >= 0)
  }

  /** The number that the first n digits denote. */
  function HexUpTo(s: seq<Byte>, p: nat, n: nat): int
    requires n <= 4 && p + 4 <= |s|
  {
    if n == 0 then 0 else 16 * HexUpTo(s, p, n - 1) + HexValue(s[p + n - 1])
  }

  lemma {:induction false} HexBound(s: seq<Byte>, p: nat, n: nat)
    requires n <= 4 && p + 4 <= |s| && Hexes(s, p, n)
    ensures 0 <= HexUpTo(s, p, n)
    ensures n == 1 ==> HexUpTo(s, p, n) < 16
    ensures n == 2 ==> HexUpTo(s, p, n) < 256
    ensures n == 3 ==> HexUpTo(s, p, n) < 4096
    ensures n == 4 ==> HexUpTo(s, p, n) < 65536
  {
    if n > 0 {
      HexBound(s, p, n - 1);
    }
  }

  /** Four hexadecimal digits; anything else counts as 0. */
  function Hex4(s: seq<Byte>, p: nat): (h: nat)
    requires p + 4 <= |s|
    ensures h < 0x1_0000
  {
    if Hexes(s, p, 4) then HexBound(s, p, 4); HexUpTo(s, p, 4) else 0
  }

  lemma {:induction false} HexesAll(s: seq<Byte>, p: nat, i: nat, n: nat)
    requires i < n <= 4 && p + 4 <= |s| && HexValue(s[p + i]) < 0
    ensures !Hexes(s, p, n)
    decreases n
  {
    if i < n - 1 {
      HexesAll(s, p, i, n - 1);
    }
  }

  /** A code point and the number of bytes that denote it. */
  datatype Unit = Unit(code: nat, used: nat) | BadUnit

  /** The escape sequence \uXXXX at p, or two of them for a surrogate pair. */
  function Utf16(s: seq<Byte>, p: nat, end: nat): (u: Unit)
    requires p < end <= |s|
    ensures u.Unit? ==> u.code <= 0x10FFFF && 6 <= u.used <= 12 && p + u.used <= end
  {
    if end - p < 6 then BadUnit
    else
      var first := Hex4(s, p + 2);
      if 0xDC00 <= first <= 0xDFFF then BadUnit
      else if 0xD800 <= first <= 0xDBFF then
        if end - (p + 6) < 6 || s[p + 6] != BACKSLASH || s[p + 7] != 0x75 then BadUnit
        else
          var second := Hex4(s, p + 8);
          if second < 0xDC00 || second > 0xDFFF then BadUnit
          else Unit(0x1_0000 + first % 1024 * 1024 + second % 1024, 12)
      else Unit(first, 6)
  }

  // UTF-8 (RFC 3629 section 3): a first byte that tells how many continuation bytes follow.

  /** The number of continuation bytes. */
  function Utf8Tail(c: nat): (n: nat)
    ensures n <= 3
  {
    if c < 0x80 then 0 else if c < 0x800 then 1 else if c < 0x1_0000 then 2 else 3
  }

  function Mark(n: nat): Byte {
    if n == 0 then 0 else if n == 1 then 0xC0 else if n == 2 then 0xE0 else 0xF0
  }

  /** What is left of c when n groups of six bits are taken off its end. */
  function High(c: nat, n: nat): nat {
    if n == 0 then c else High(c / 64, n - 1)
  }

  /** The last n groups of six bits as continuation bytes. */
  function Low(c: nat, n: nat): (b: seq<Byte>)
    ensures |b| == n
  {
    if n == 0 then [] else Low(c / 64, n - 1) + [0x80 + c % 64]
  }

  lemma {:induction false} FirstByte(c: nat)
    requires c <= 0x10FFFF
    ensures Mark(Utf8Tail(c)) + High(c, Utf8Tail(c)) < 256
  {
    assert High(c / 64 / 64, 1) == High(c / 64 / 64 / 64, 0) && High(c / 64, 1) == High(c / 64 / 64, 0);
  }

  function Utf8(c: nat): (b: seq<Byte>)
    requires c <= 0x10FFFF
    ensures 1 <= |b| <= 4
  {
    FirstByte(c);
    [Mark(Utf8Tail(c)) + High(c, Utf8Tail(c))] + Low(c, Utf8Tail(c))
  }

  /** The code point with leading bits h and these continuation bytes. */
  function Joined(h: nat, tail: seq<Byte>): nat {
    if tail == [] then h else Joined(h, tail[..|tail| - 1]) * 64 + tail[|tail| - 1] % 64
  }

  /** Joining the bits of the bytes gives the code point back. */
  lemma {:induction false} Utf8Joins(c: nat, n: nat)
    ensures Joined(High(c, n), Low(c, n)) == c
  {
    if n > 0 {
      assert Low(c, n)[..n - 1] == Low(c / 64, n - 1);
      Utf8Joins(c / 64, n - 1);
    }
  }

  datatype Decoded = Decoded(bytes: seq<Byte>) | Undecodable

  /** The byte that a short escape stands for, or -1. */
  function Unletter(b: Byte): (c: int)
    ensures -1 <= c < 256
  {
    if b == 0x62 then 8 else if b == 0x66 then 12 else if b == 0x6E then 10 else if b == 0x72 then 13
    else if b == 0x74 then 9 else if b == QUOTE || b == BACKSLASH || b == 0x2F then b else -1
  }

  /** The bytes of a literal from p on, after those already decoded. */
  function Unescape(s: seq<Byte>, p: nat, end: nat, out: seq<Byte>): Decoded
    requires end < |s|
    decreases end - p
  {
    if p >= end then Decoded(out)
    else if s[p] != BACKSLASH then Unescape(s, p + 1, end, out + [s[p]])
    else if s[p + 1] == 0x75 then
      var u := Utf16(s, p, end);
      if u.BadUnit? then Undecodable else Unescape(s, p + u.used, end, out + Utf8(u.code))
    else if Unletter(s[p + 1]) < 0 then Undecodable
    else Unescape(s, p + 2, end, out + [Unletter(s[p + 1])])
  }

  // ---------- the room for a literal ----------

  /** The backslashes that hide a byte, as the search for the closing quote counts them. */
  function Hiding(s: seq<Byte>, p: nat, end: nat): nat
    requires end <= |s|
    decreases end - p
  {
    if p >= end then 0 else if s[p] == BACKSLASH then 1 + Hiding(s, p + 2, end) else Hiding(s, p + 1, end)
  }

  lemma {:induction false} HidingStep(s: seq<Byte>, p: nat, end: nat)
    requires end <= |s|
    ensures Hiding(s, p + 1, end) <= Hiding(s, p, end) <= Hiding(s, p + 1, end) + 1
    ensures Hiding(s, p, end) <= Hiding(s, p + 2, end) + 1
    decreases end - p
  {
    if p < end {
      HidingStep(s, p + 1, end);
    }
  }

  /** The search passes over \u and its digits. */
  lemma {:induction false} HexPassed(s: seq<Byte>, p: nat, end: nat)
    requires p + 6 <= end <= |s| && s[p] == BACKSLASH && s[p + 1] == 0x75 && Hexes(s, p + 2, 4)
    ensures Hiding(s, p, end) == 1 + Hiding(s, p + 6, end) && Closing(s, p) == Closing(s, p + 6)
  {
    assert Hexes(s, p + 2, 3) && Hexes(s, p + 2, 2) && Hexes(s, p + 2, 1);
    assert Hiding(s, p + 2, end) == Hiding(s, p + 3, end) == Hiding(s, p + 4, end);
    assert Hiding(s, p + 4, end) == Hiding(s, p + 5, end) == Hiding(s, p + 6, end);
    assert Closing(s, p + 2) == Closing(s, p + 3) == Closing(s, p + 4) == Closing(s, p + 5) == Closing(s, p + 6);
  }

  /** One more byte than there is room for, where the decoder has lost step with the search. */
  function Excess(s: seq<Byte>, p: nat, end: nat): nat {
    if Closing(s, p) == end then 0 else 1
  }

  /** A \u escape denotes no more bytes than it has itself, less those that hide another. */
  lemma {:induction false} UnitFits(s: seq<Byte>, p: nat, end: nat)
    requires p < end < |s| && s[p] == BACKSLASH && s[p + 1] == 0x75 && Utf16(s, p, end).Unit?
    ensures var u := Utf16(s, p, end);
            |Utf8(u.code)| + Hiding(s, p, end) + Excess(s, p + u.used, end)
            <= u.used + Hiding(s, p + u.used, end) + Excess(s, p, end)
  {
    var u := Utf16(s, p, end);
    if Hexes(s, p + 2, 4) {
      HexPassed(s, p, end);
      if u.used == 12 {
        HexPassed(s, p + 6, end);
      }
    } else {
      HidingStep(s, p + 2, end);
      HidingStep(s, p + 4, end);
    }
  }

  /**
   Every literal fits the room that is allocated for it: as many bytes as stand between the quotes, less those
   that hide another.  A broken \u may take the backslash of the next escape, but denotes a single byte.
   */
  lemma {:induction false} DecodedFits(s: seq<Byte>, p: nat, end: nat, out: seq<Byte>)
    requires p <= end + 1 && end < |s|
    ensures var u := Unescape(s, p, end, out);
            u.Decoded? ==> |u.bytes| + Hiding(s, p, end) <= |out| + (end - p) + Excess(s, p, end)
    decreases end - p
  {
    if p < end {
      if s[p] != BACKSLASH {
        DecodedFits(s, p + 1, end, out + [s[p]]);
      } else if s[p + 1] == 0x75 {
        var u := Utf16(s, p, end);
        if u.Unit? {
          UnitFits(s, p, end);
          DecodedFits(s, p + u.used, end, out + Utf8(u.code));
        }
      } else if Unletter(s[p + 1]) >= 0 {
        DecodedFits(s, p + 2, end, out + [Unletter(s[p + 1])]);
      }
    }
  }

  /** The C string at the start of the bytes: up to the first zero. */
  function CString(b: seq<Byte>): (c: seq<CByte>)
    ensures |c| <= |b|
  {
    if b == [] || b[0] == 0 then [] else [b[0]] + CString(b[1..])
  }

  lemma {:induction false} CStringWhole(b: seq<CByte>)
    ensures CString(b) == b
  {
    if b != [] {
      CStringWhole(b[1..]);
    }
  }

  // ---------- numbers ----------

  predicate Digit(b: Byte) {
    0x30 <= b <= 0x39
  }

  predicate NumberByte(b: Byte) {
    Digit(b) || b == 0x2B || b == 0x2D || b == 0x65 || b == 0x45 || b == 0x2E
  }

  /** How many number bytes follow p, counting at most n. */
  function NumberRun(s: seq<Byte>, p: nat, n: nat): (k: nat)
    ensures k <= n && (k > 0 ==> p + k <= |s|)
    decreases n
  {
    if n == 0 || p >= |s| || !NumberByte(s[p]) then 0 else 1 + NumberRun(s, p + 1, n - 1)
  }

  function DigitRun(s: seq<Byte>, p: nat): (k: nat)
    ensures k > 0 ==> p + k <= |s|
    decreases |s| - p
  {
    if p >= |s| || !Digit(s[p]) then 0 else 1 + DigitRun(s, p + 1)
  }

  /** The number that n digits from p denote. */
  function DigitsValue(s: seq<Byte>, p: nat, n: nat): int
    requires n > 0 ==> p + n <= |s|
  {
    if n == 0 then 0 else 10 * DigitsValue(s, p, n - 1) + (s[p + n - 1] as int - 0x30)
  }

  /** What converting a text to a number gives, as far as it is an integer: its value and its length. */
  datatype Conversion = Whole(value: int, used: nat) | NotWhole

  function ToInteger(text: seq<Byte>): (c: Conversion)
    ensures c.Whole? ==> 0 < c.used <= |text|
  {
    var sign := if text != [] && (text[0] == 0x2B || text[0] == 0x2D) then 1 else 0;
    var n := DigitRun(text, sign);
    if n == 0 || (sign + n < |text| && text[sign + n] in {0x2E, 0x65, 0x45}) then NotWhole
    else
      var v := DigitsValue(text, sign, n);
      Whole(if text[0] == 0x2D then -v else v, sign + n)
  }

  function Saturated(v: int): Int32 {
    if v >= 0x7FFF_FFFF then 0x7FFF_FFFF else if v <= -0x8000_0000 then -0x8000_0000 else v
  }

  class ParseBuffer {
    const content: seq<Byte>
    var offset: nat
    var depth: nat

    constructor (content: seq<Byte>)
      ensures Valid() && offset == 0 && depth == 0 && this.content == content
    {
      this.content, offset, depth := content, 0, 0;
    }

    ghost predicate Valid()
      reads this
    {
      offset <= |content|
    }

    method ParseHex4(p: nat) returns (h: nat)
      requires p + 4 <= |content|
      ensures h == Hex4(content, p)
    {
      h := 0;
      for i := 0 to 4
        invariant if i < 4 then h == 16 * HexUpTo(content, p, i) && Hexes(content, p, i) else h == Hex4(content, p)
      {
        var b := content[p + i];
        if 0x30 <= b <= 0x39 {
          h := h + (b - 0x30);
        } else if 0x41 <= b <= 0x46 {
          h := h + (10 + b - 0x41);
        } else if 0x61 <= b <= 0x66 {
          h := h + (10 + b - 0x61);
        } else {
          HexesAll(content, p, i, 4);
          return 0;
        }
        if i < 3 {
          h := h * 16;
        }
      }
    }

    /** Decodes the escape sequence at p to UTF-8; a length of 0 means failure. */
    method Utf16LiteralToUtf8(p: nat, end: nat) returns (length: nat, bytes: seq<Byte>)
      requires p < end <= |content|
      ensures var u := Utf16(content, p, end);
              if length == 0 then u.BadUnit? else u.Unit? && length == u.used && bytes == Utf8(u.code)
    {
      if end - p < 6 {
        return 0, [];
      }
      var codepoint := ParseHex4(p + 2);
      length := 6;
      if 0xDC00 <= codepoint <= 0xDFFF {
        return 0, [];
      }
      if 0xD800 <= codepoint <= 0xDBFF {
        if end - (p + 6) < 6 || content[p + 6] != BACKSLASH || content[p + 7] != 0x75 {
          return 0, [];
        }
        var second := ParseHex4(p + 8);
        if second < 0xDC00 || second > 0xDFFF {
          return 0, [];
        }
        codepoint := 0x1_0000 + (codepoint % 1024 * 1024 + second % 1024);
        length := 12;
      }
      bytes := EncodeUtf8(codepoint);
    }

    /** Takes six bits at a time off the end of the code point. */
    method EncodeUtf8(code: nat) returns (bytes: seq<Byte>)
      requires code <= 0x10FFFF
      ensures bytes == Utf8(code)
    {
      var length, mark: Byte := 1, 0;
      if 0x80 <= code < 0x800 {
        length, mark := 2, 0xC0;
      } else if 0x800 <= code < 0x1_0000 {
        length, mark := 3, 0xE0;
      } else if 0x1_0000 <= code {
        length, mark := 4, 0xF0;
      }
      bytes := [];
      var c: nat, position: nat := code, length - 1;
      while position > 0
        invariant position <= Utf8Tail(code) && High(code, Utf8Tail(code)) == High(c, position)
        invariant Low(code, Utf8Tail(code)) == Low(c, position) + bytes
      {
        bytes := [0x80 + c % 64] + bytes;
        c := c / 64;
        position := position - 1;
      }
      FirstByte(code);
      bytes := [mark as int + c] + bytes;
    }

    /** Finds the end of the literal whose first byte is at p, or -1, and counts the bytes that hide another. */
    method FindClosing(p: nat) returns (q: int, skipped: nat)
      requires p <= |content|
      ensures q == Closing(content, p) && (q >= 0 ==> skipped == Hiding(content, p, q))
    {
      var e := p;
      skipped := 0;
      while e < |content| && content[e] != QUOTE
        invariant Closing(content, p) == Closing(content, e)
        invariant forall end :: e <= end <= |content| && Closing(content, e) == end ==>
                    Hiding(content, p, end) == skipped + Hiding(content, e, end)
        decreases |content| - e
      {
        if content[e] == BACKSLASH {
          if e + 1 >= |content| {
            return -1, 0;
          }
          skipped := skipped + 1;
          e := e + 1;
        }
        e := e + 1;
      }
      q := if e >= |content| || content[e] != QUOTE then -1 else e;
    }

    /** Decodes the bytes from p to the closing quote at end. */
    method DecodeLiteral(p0: nat, end: nat) returns (ok: bool, p: nat, output: seq<Byte>)
      requires p0 <= end < |content|
      ensures p <= |content|
      ensures ok <==> Unescape(content, p0, end, []).Decoded?
      ensures ok ==> output == Unescape(content, p0, end, []).bytes
    {
      p, output := p0, [];
      while p < end
        invariant p <= |content| && Unescape(content, p0, end, []) == Unescape(content, p, end, output)
        decreases end - p
      {
        if content[p] != BACKSLASH {
          output := output + [content[p]];
          p := p + 1;
        } else {
          var length, bytes := DecodeEscape(p, end);
          if length == 0 {
            return false, p, output;
          }
          output := output + bytes;
          p := p + length;
        }
      }
      ok := true;
    }

    /** The escape sequence at p; a length of 0 means failure. */
    method DecodeEscape(p: nat, end: nat) returns (length: nat, bytes: seq<Byte>)
      requires p < end < |content| && content[p] == BACKSLASH
      ensures p + length <= |content|
      ensures forall out: seq<Byte> {:trigger Unescape(content, p, end, out)} ::
                Unescape(content, p, end, out)
                == if length == 0 then Undecodable else Unescape(content, p + length, end, out + bytes)
    {
      length, bytes := 2, [];
      match content[p + 1] {
        case 0x62 => bytes := [8];
        case 0x66 => bytes := [12];
        case 0x6E => bytes := [10];
        case 0x72 => bytes := [13];
        case 0x74 => bytes := [9];
        case 0x22 => bytes := [0x22];
        case 0x5C => bytes := [0x5C];
        case 0x2F => bytes := [0x2F];
        case 0x75 => length, bytes := Utf16LiteralToUtf8(p, end);
        case _ => length := 0;
      }
    }

    /** A string literal; the offset moves past its closing quote. */
    method ParseString() returns (ok: bool, valuestring: seq<CByte>)
      requires offset < |content|
      modifies this`offset
      ensures Valid()
      ensures var q := Closing(content, old(offset) + 1);
              var starts := content[old(offset)] == QUOTE && q >= 0;
              && (ok <==> starts && Unescape(content, old(offset) + 1, q, []).Decoded?)
              && (ok ==> valuestring == CString(Unescape(content, old(offset) + 1, q, []).bytes) && offset == q + 1)
    {
      var p := offset + 1;
      valuestring := [];
      if content[offset] != QUOTE {
        offset := p;
        return false, [];
      }
      var end, skipped := FindClosing(p);
      if end < 0 {
        offset := p;
        return false, [];
      }
      ghost var allocation_length := end - offset - skipped;
      DecodedFits(content, p, end, []);
      var output;
      ok, p, output := DecodeLiteral(p, end);
      assert ok ==> |output| < allocation_length;
      if !ok {
        offset := p;
        return;
      }
      valuestring := CString(output);
      offset := end + 1;
    }

    // ---------- numbers ----------

    /** An integer; other numbers are not part of the model and fail. */
    method ParseNumber() returns (ok: bool, valueint: Int32)
      requires Valid()
      modifies this`offset
      ensures Valid()
      ensures var text := content[old(offset)..][..NumberRun(content, old(offset), 63)];
              if ok then ToInteger(text).Whole? && valueint == Saturated(ToInteger(text).value)
                         && offset == old(offset) + ToInteger(text).used
              else ToInteger(text).NotWhole? && offset == old(offset)
    {
      var i := NumberLength();
      valueint := 0;
      var c := ToInteger(content[offset..][..i]);
      ok := c.Whole?;
      if ok {
        valueint := Saturated(c.value);
        offset := offset + c.used;
      }
    }

    /** How many number bytes follow, at most 63. */
    method NumberLength() returns (i: nat)
      requires Valid()
      ensures i == NumberRun(content, offset, 63)
    {
      i := 0;
      while i < 63 && offset + i < |content| && NumberByte(content[offset + i])
        invariant i <= 63 && NumberRun(content, offset, 63) == i + NumberRun(content, offset + i, 63 - i)
      {
        i := i + 1;
      }
    }

    // ---------- values ----------

    /** Skips blanks and control characters, but stays on the last byte. */
    method SkipWhitespace(ghost w: Chars)
      requires Valid()
      modifies this`offset
      ensures Valid() && offset >= old(offset) && (old(offset) < |content| ==> offset < |content|)
      ensures Spaced(content, old(offset), w) && Solid(w) ==> Stands(content, offset, w)
      ensures old(offset) < |content| && Blanks(content[old(offset)..]) ==> offset + 1 == |content|
    {
      if offset >= |content| {
        return;
      }
      while offset < |content| && content[offset] <= 32
        invariant Valid() && offset >= old(offset)
        invariant Spaced(content, old(offset), w) && Solid(w) ==> Spaced(content, offset, w)
        invariant old(offset) < |content| && Blanks(content[old(offset)..]) ==> Blanks(content[offset..])
        decreases |content| - offset
      {
        assert content[offset + 1..] == content[offset..][1..];
        offset := offset + 1;
      }
      assert offset < |content| ==> content[offset] == content[offset..][0];
      if offset == |content| {
        offset := offset - 1;
      }
    }

    /** Skips a byte order mark at the very start. */
    method SkipUtf8Bom()
      requires offset == 0 && Valid()
      modifies this`offset
      ensures Valid() && (content != [] && content[0] != 0xEF ==> offset == 0)
    {
      if 4 < |content| && content[..3] == [0xEF, 0xBB, 0xBF] {
        assert content[0] == content[..3][0];
        offset := 3;
      }
    }

    /** A text of the value stands at the offset. */
    ghost predicate Meets(g: Goal)
      reads this
    {
      StandsHere(g) && Stop(g.rest) && depth <= NESTING_LIMIT
    }

    ghost predicate StandsHere(g: Goal)
      reads this
    {
      Accepts(g.t, g.v) && Stands(content, offset, GoalText(g))
    }

    /** The value is read and its text consumed. */
    ghost predicate Reads(g: Goal, v: Json)
      reads this
    {
      v == g.v && Stands(content, offset, g.rest)
    }

    /** The bytes stand at the offset. */
    method LooksAt(word: seq<CByte>) returns (r: bool)
      requires Valid()
      ensures r <==> Matches(content, offset, word)
    {
      r := offset + |word| <= |content| && content[offset..offset + |word|] == word;
    }

    /** One of the three words null, false and true. */
    method ParseWord(ghost g: Goal) returns (ok: bool, v: Json)
      requires Valid()
      modifies this`offset
      ensures Valid() && (if ok then offset > old(offset) else offset == old(offset))
      ensures old(Meets(g)) && (g.v.Null? || g.v.False? || g.v.True?) ==> ok && Reads(g, v)
      ensures old(Meets(g)) && !(g.v.Null? || g.v.False? || g.v.True?) ==> !ok
    {
      if Meets(g) {
        TextStarts(g, content, offset);
        WordRead(g, content, offset);
      }
      ok, v := true, Null;
      var found := LooksAt(NullWord());
      if found {
        offset := offset + 4;
        return;
      }
      found := LooksAt(FalseWord());
      if found {
        offset := offset + 5;
        v := False;
        return;
      }
      ok := LooksAt(TrueWord());
      if ok {
        offset := offset + 4;
        v := True;
      }
    }

    /** A value.  If a text of g.v stands at the offset, g.v is read exactly if it is not nested too deeply. */
    method ParseValue(ghost g: Goal) returns (ok: bool, v: Json)
      requires Valid()
      modifies this
      ensures Valid() && (ok ==> offset > old(offset) && depth == old(depth))
      ensures old(Meets(g)) ==> (ok <==> Fits(g.v, old(depth))) && (ok ==> Reads(g, v))
      decreases |content| - offset, 6
    {
      TextStarts(g, content, offset);
      ok, v := ParseWord(g);
      if ok || offset >= |content| {
        return;
      }
      if content[offset] == QUOTE {
        ok, v := ParseStringValue(g);
      } else if content[offset] == 0x2D || Digit(content[offset]) {
        ok, v := ParseNumberValue(g);
      } else if content[offset] == 0x5B {
        ok, v := ParseArray(g);
      } else if content[offset] == 0x7B {
        ok, v := ParseObject(g);
      }
    }

    method ParseStringValue(ghost g: Goal) returns (ok: bool, v: Json)
      requires offset < |content| && content[offset] == QUOTE
      modifies this`offset
      ensures Valid() && (ok ==> offset > old(offset))
      ensures old(Meets(g)) ==> ok && Reads(g, v)
    {
      TextStarts(g, content, offset);
      if Meets(g) {
        LiteralRead(content, offset, g.t.raw, g.v.valuestring, g.rest);
      }
      var s;
      ok, s := ParseString();
      v := String(s);
    }

    method ParseNumberValue(ghost g: Goal) returns (ok: bool, v: Json)
      requires offset < |content| && (content[offset] == 0x2D || Digit(content[offset]))
      modifies this`offset
      ensures Valid() && (ok ==> offset > old(offset))
      ensures old(Meets(g)) ==> ok && Reads(g, v)
    {
      if Meets(g) {
        NumberMet(g, content, offset);
      }
      var n;
      ok, n := ParseNumber();
      v := Number(n);
    }

    /** An array: values separated by commas. */
    method ParseArray(ghost g: Goal) returns (ok: bool, v: Json)
      requires offset < |content| && content[offset] == 0x5B
      modifies this
      ensures Valid() && (ok ==> offset > old(offset) && depth == old(depth))
      ensures old(Meets(g)) ==> (ok <==> Fits(g.v, old(depth))) && (ok ==> Reads(g, v))
      decreases |content| - offset, 5
    {
      v := Null;
      TextStarts(g, content, offset);
      if depth >= NESTING_LIMIT {
        return false, v;
      }
      depth := depth + 1;
      var items;
      ok, items := ParseArrayBody(g);
      if !ok {
        return;
      }
      depth := depth - 1;
      offset := offset + 1;
      v := Array(items);
    }

    /** Up to the closing bracket. */
    method ParseArrayBody(ghost g: Goal) returns (ok: bool, items: seq<Json>)
      requires offset < |content| && content[offset] == 0x5B && depth >= 1
      modifies this
      ensures Valid()
      ensures ok ==> offset < |content| && offset > old(offset) && depth == old(depth)
      ensures old(Opens(g)) ==> (ok <==> Fits(g.v, old(depth) - 1))
      ensures old(Opens(g)) && ok ==> g.v.Array? && items == g.v.items && Stands(content, offset + 1, g.rest)
      decreases |content| - offset, 4
    {
      items := [];
      if Opens(g) {
        EmptyFits(g.v, depth);
      }
      var empty := OpenArray(g);
      if offset >= |content| {
        return false, items;
      }
      ok := true;
      if !empty {
        offset := offset - 1;
        ok, items := ParseItems(g);
      }
    }

    /** The text of an array or object stands here, one level down. */
    ghost predicate Opens(g: Goal)
      reads this
    {
      StandsHere(g) && 1 <= depth <= NESTING_LIMIT
    }

    /** Moves past the bracket and blanks; true when the array ends there. */
    method OpenArray(ghost g: Goal) returns (empty: bool)
      requires offset < |content| && content[offset] == 0x5B
      modifies this`offset
      ensures Valid() && offset >= old(offset) && (offset < |content| ==> offset > old(offset))
      ensures empty ==> offset < |content| && content[offset] == 0x5D
      ensures old(StandsHere(g)) ==>
                && offset < |content| && IsArray(g) && (empty <==> g.v.items == [])
                && (if empty then Stands(content, offset + 1, g.rest) else Stands(content, offset, GoalText(ItemGoal(g, 0))))
    {
      if StandsHere(g) {
        ArrayStarts(g, content, offset);
      }
      offset := offset + 1;
      SkipWhitespace(ArrayBody(g));
      empty := offset < |content| && content[offset] == 0x5D;
    }

    /** After one more byte and blanks come the items from i on. */
    ghost predicate Awaits(g: Goal, i: nat)
      reads this
    {
      IsArray(g) && i < |g.v.items| && 1 <= depth <= NESTING_LIMIT && Spaced(content, offset + 1, GoalText(ItemGoal(g, i)))
    }

    /** The items up to the closing bracket. */
    method ParseItems(ghost g: Goal) returns (ok: bool, items: seq<Json>)
      requires offset < |content|
      modifies this
      ensures Valid()
      ensures ok ==> offset < |content| && content[offset] == 0x5D && offset > old(offset) && depth == old(depth)
      ensures old(Awaits(g, 0)) ==> (ok <==> Fits(g.v, old(depth) - 1))
      ensures old(Awaits(g, 0)) && ok ==> items == g.v.items && Stands(content, offset, Cons(0x5D, g.rest))
      decreases |content| - offset, 3
    {
      items := [];
      while true
        invariant offset < |content| && offset >= old(offset) && depth == old(depth)
        invariant old(Awaits(g, 0)) ==> Awaits(g, |items|) && ItemsRead(g.v, depth, items)
        decreases |content| - offset
      {
        var r, more;
        if Awaits(g, |items|) && ItemsRead(g.v, depth, items) {
          OneMoreItem(g.v, depth, items);
        }
        ok, r, more := ParseNextItem(g, |items|);
        if !ok {
          return;
        }
        items := items + [r];
        if !more {
          break;
        }
      }
      ok := offset < |content| && content[offset] == 0x5D;
    }

    /** One item, and whether a comma follows it. */
    method ParseNextItem(ghost g: Goal, ghost i: nat) returns (ok: bool, r: Json, more: bool)
      requires offset < |content|
      modifies this
      ensures Valid() && (ok ==> offset > old(offset) && depth == old(depth) && (more ==> offset < |content|))
      ensures old(Awaits(g, i)) ==> (ok <==> Fits(g.v.items[i], old(depth))) && (ok ==> r == g.v.items[i])
      ensures old(Awaits(g, i)) && ok && more ==> Awaits(g, i + 1)
      ensures old(Awaits(g, i)) && ok && !more ==>
                i + 1 == |g.v.items| && Stands(content, offset, Cons(0x5D, g.rest))
      decreases |content| - offset, 2
    {
      ghost var expected := Awaits(g, i);
      ok, r := ParseItem(g, i);
      more := offset < |content| && content[offset] == COMMA;
      if expected && ok {
        PastItem(g, i, content, offset);
      }
    }

    /** One item, with the blanks around it. */
    method ParseItem(ghost g: Goal, ghost i: nat) returns (ok: bool, r: Json)
      requires offset < |content|
      modifies this
      ensures Valid() && (ok ==> offset > old(offset) && depth == old(depth))
      ensures old(Awaits(g, i)) ==> (ok <==> Fits(g.v.items[i], old(depth)))
      ensures old(Awaits(g, i)) && ok ==> r == g.v.items[i] && Stands(content, offset, AfterItem(g, i))
      decreases |content| - offset, 1
    {
      ghost var goal, expected := ItemGoal(g, i), Awaits(g, i);
      if expected {
        ItemStarts(g, i);
      }
      offset := offset + 1;
      SkipWhitespace(GoalText(goal));
      ok, r := ParseValue(goal);
      if ok {
        if expected {
          BlanksSpaced(content, offset, g.t.elements[i].after, AfterItem(g, i));
        }
        SkipWhitespace(AfterItem(g, i));
      }
    }

    /** An object: members separated by commas. */
    method ParseObject(ghost g: Goal) returns (ok: bool, v: Json)
      requires offset < |content| && content[offset] == 0x7B
      modifies this
      ensures Valid() && (ok ==> offset > old(offset) && depth == old(depth))
      ensures old(Meets(g)) ==> (ok <==> Fits(g.v, old(depth))) && (ok ==> Reads(g, v))
      decreases |content| - offset, 5
    {
      v := Null;
      TextStarts(g, content, offset);
      if depth >= NESTING_LIMIT {
        return false, v;
      }
      depth := depth + 1;
      var members;
      ok, members := ParseObjectBody(g);
      if !ok {
        return;
      }
      depth := depth - 1;
      offset := offset + 1;
      v := Object(members);
    }

    /** Up to the closing brace. */
    method ParseObjectBody(ghost g: Goal) returns (ok: bool, members: seq<Member>)
      requires offset < |content| && content[offset] == 0x7B && depth >= 1
      modifies this
      ensures Valid()
      ensures ok ==> offset < |content| && offset > old(offset) && depth == old(depth)
      ensures old(Opens(g)) ==> (ok <==> Fits(g.v, old(depth) - 1))
      ensures old(Opens(g)) && ok ==> g.v.Object? && members == g.v.members && Stands(content, offset + 1, g.rest)
      decreases |content| - offset, 4
    {
      members := [];
      if Opens(g) {
        EmptyFits(g.v, depth);
      }
      var empty := OpenObject(g);
      if offset >= |content| {
        return false, members;
      }
      ok := true;
      if !empty {
        offset := offset - 1;
        ok, members := ParseMembers(g);
      }
    }

    /** Moves past the brace and blanks; true when the object ends there. */
    method OpenObject(ghost g: Goal) returns (empty: bool)
      requires offset < |content| && content[offset] == 0x7B
      modifies this`offset
      ensures Valid() && offset >= old(offset) && (offset < |content| ==> offset > old(offset))
      ensures empty ==> offset < |content| && content[offset] == 0x7D
      ensures old(StandsHere(g)) ==>
                && offset < |content| && IsObject(g) && (empty <==> g.v.members == [])
                && (if empty then Stands(content, offset + 1, g.rest) else Stands(content, offset, MemberBody(g, 0)))
    {
      if StandsHere(g) {
        ObjectStarts(g, content, offset);
      }
      offset := offset + 1;
      SkipWhitespace(ObjectBody(g));
      empty := offset < |content| && content[offset] == 0x7D;
    }

    /** After one more byte and blanks comes member i. */
    ghost predicate AwaitsMember(g: Goal, i: nat)
      reads this
    {
      IsObject(g) && i < |g.v.members| && 1 <= depth <= NESTING_LIMIT && Spaced(content, offset + 1, MemberBody(g, i))
    }

    /** The members up to the closing brace. */
    method ParseMembers(ghost g: Goal) returns (ok: bool, members: seq<Member>)
      requires offset < |content|
      modifies this
      ensures Valid()
      ensures ok ==> offset < |content| && content[offset] == 0x7D && offset > old(offset) && depth == old(depth)
      ensures old(AwaitsMember(g, 0)) ==> (ok <==> Fits(g.v, old(depth) - 1))
      ensures old(AwaitsMember(g, 0)) && ok ==> members == g.v.members && Stands(content, offset, Cons(0x7D, g.rest))
      decreases |content| - offset, 3
    {
      members := [];
      while true
        invariant offset < |content| && offset >= old(offset) && depth == old(depth)
        invariant old(AwaitsMember(g, 0)) ==>
                    AwaitsMember(g, |members|) && MembersRead(g.v, depth, members)
        decreases |content| - offset
      {
        var m, more;
        if AwaitsMember(g, |members|) && MembersRead(g.v, depth, members) {
          OneMoreMember(g.v, depth, members);
        }
        ok, m, more := ParseNextMember(g, |members|);
        if !ok {
          return;
        }
        members := members + [m];
        if !more {
          break;
        }
      }
      ok := offset < |content| && content[offset] == 0x7D;
    }

    /** One member, and whether a comma follows it. */
    method ParseNextMember(ghost g: Goal, ghost i: nat) returns (ok: bool, m: Member, more: bool)
      requires offset < |content|
      modifies this
      ensures Valid() && (ok ==> offset > old(offset) && depth == old(depth) && (more ==> offset < |content|))
      ensures old(AwaitsMember(g, i)) ==> (ok <==> Fits(g.v.members[i].value, old(depth))) && (ok ==> m == g.v.members[i])
      ensures old(AwaitsMember(g, i)) && ok && more ==> AwaitsMember(g, i + 1)
      ensures old(AwaitsMember(g, i)) && ok && !more ==>
                i + 1 == |g.v.members| && Stands(content, offset, Cons(0x7D, g.rest))
      decreases |content| - offset, 2
    {
      ghost var expected := AwaitsMember(g, i);
      ok, m := ParseMember(g, i);
      more := offset < |content| && content[offset] == COMMA;
      if expected && ok {
        PastMember(g, i, content, offset);
      }
    }

    /** One member, with the blanks around its parts. */
    method ParseMember(ghost g: Goal, ghost i: nat) returns (ok: bool, m: Member)
      requires offset < |content|
      modifies this
      ensures Valid() && (ok ==> offset > old(offset) && depth == old(depth))
      ensures old(AwaitsMember(g, i)) ==> (ok <==> Fits(g.v.members[i].value, old(depth)))
      ensures old(AwaitsMember(g, i)) && ok ==> m == g.v.members[i] && Stands(content, offset, MemberEnd(g, i))
      decreases |content| - offset, 1
    {
      m := Member([], Null);
      ghost var expected := AwaitsMember(g, i);
      if offset + 1 >= |content| {
        return false, m;
      }
      offset := offset + 1;
      var name;
      ok, name := ParseName(g, i);
      if !ok || offset >= |content| || content[offset] != COLON {
        return false, m;
      }
      if expected {
        ColonSpaced(g, i, content, offset + 1);
      }
      var v;
      ok, v := ParseMemberValue(g, i);
      m := Member(name, v);
    }

    /** After one more byte and blanks comes the value of member i. */
    ghost predicate AwaitsValue(g: Goal, i: nat)
      reads this
    {
      && IsObject(g) && i < |g.v.members| && 1 <= depth <= NESTING_LIMIT
      && Spaced(content, offset + 1, GoalText(ValueGoal(g, i)))
    }

    /** The value of a member, with the blanks around it. */
    method ParseMemberValue(ghost g: Goal, ghost i: nat) returns (ok: bool, v: Json)
      requires offset < |content|
      modifies this
      ensures Valid() && (ok ==> offset > old(offset) && depth == old(depth))
      ensures old(AwaitsValue(g, i)) ==> (ok <==> Fits(g.v.members[i].value, old(depth)))
      ensures old(AwaitsValue(g, i)) && ok ==> v == g.v.members[i].value && Stands(content, offset, MemberEnd(g, i))
      decreases |content| - offset, 0
    {
      ghost var goal, expected := ValueGoal(g, i), AwaitsValue(g, i);
      if expected {
        ValueStarts(g, i);
      }
      offset := offset + 1;
      SkipWhitespace(GoalText(goal));
      ok, v := ParseValue(goal);
      if ok {
        if expected {
          BlanksSpaced(content, offset, g.t.pairs[i].after, MemberEnd(g, i));
        }
        SkipWhitespace(MemberEnd(g, i));
      }
    }

    /** The name of a member, with the blanks around it. */
    method ParseName(ghost g: Goal, ghost i: nat) returns (ok: bool, name: seq<CByte>)
      requires offset < |content|
      modifies this`offset
      ensures Valid() && (ok ==> offset > old(offset))
      ensures IsObject(g) && i < |g.v.members| && old(Spaced(content, offset, MemberBody(g, i))) ==>
                ok && name == g.v.members[i].name && Stands(content, offset, Cons(0x3A, ColonText(g, i)))
    {
      SkipWhitespace(MemberBody(g, i));
      ghost var expected := IsObject(g) && i < |g.v.members| && Stands(content, offset, MemberBody(g, i));
      if expected {
        NameStarts(g, i);
        LiteralRead(content, offset, g.t.pairs[i].name, g.v.members[i].name, MiddleText(g, i));
      }
      ok, name := ParseString();
      if ok {
        if expected {
          BlanksSpaced(content, offset, g.t.pairs[i].middle, Cons(0x3A, ColonText(g, i)));
        }
        SkipWhitespace(Cons(0x3A, ColonText(g, i)));
      }
    }
  }

  /**
   Parses a text; afterwards only blanks may come before its terminating zero if that is required.
   If the text is a text of g with blanks around it, g is what is read, unless it is nested too deeply.
   */
  method Parse(value: seq<Byte>, require_null_terminated: bool, ghost g: Json, ghost t: Tree, ghost lead: seq<Byte>,
               ghost trail: seq<Byte>) returns (ok: bool, item: Json)
    ensures Accepts(t, g) && Blanks(lead) && Blanks(trail) && value == TextWith(lead, t, trail) ==>
              (ok <==> Shallow(g, NESTING_LIMIT)) && (ok ==> item == g)
  {
    ghost var goal := Goal(g, t, Bytes(trail, Cons(0, End)));
    ghost var expected := Accepts(t, g) && Blanks(lead) && Blanks(trail) && value == TextWith(lead, t, trail);
    if expected {
      TextStands(goal, value, lead, trail);
    }
    if value == [] {
      return false, Null;
    }
    var buffer := new ParseBuffer(value);
    buffer.SkipUtf8Bom();
    buffer.SkipWhitespace(GoalText(goal));
    ok, item := buffer.ParseValue(goal);
    if ok && require_null_terminated {
      if expected {
        TrailBlank(value, buffer.offset, trail);
      }
      buffer.SkipWhitespace(End);
      ok := buffer.offset < |value| && value[buffer.offset] == 0;
    }
  }

  // ---------- texts that the parser accepts ----------

  /** What the parser takes for blanks. */
  ghost predicate Blanks(b: seq<Byte>) {
    forall i :: 0 <= i < |b| ==> b[i] <= 32
  }

  /** The literal is closed by its last quote and decodes to s, up to the first zero. */
  predicate LiteralTaken(raw: seq<Byte>, s: seq<CByte>) {
    var lit, end := [QUOTE] + raw + [QUOTE], |raw| + 1;
    && Closing(lit, 1) == end
    && Unescape(lit, 1, end, []).Decoded? && CString(Unescape(lit, 1, end, []).bytes) == s
  }

  /** The bytes are read as one integer. */
  predicate NumberTaken(text: seq<Byte>, i: Int32) {
    && 1 <= |text| <= 63 && (text[0] == 0x2D || Digit(text[0])) && (forall k :: 0 <= k < |text| ==> NumberByte(text[k]))
    && ToInteger(text).Whole? && ToInteger(text).used == |text| && Saturated(ToInteger(text).value) == i
  }

  /** The tree is one whose text the parser reads as v. */
  ghost predicate Accepts(t: Tree, v: Json)
    decreases v
  {
    match (t, v)
    case (NullTree, Null) => true
    case (FalseTree, False) => true
    case (TrueTree, True) => true
    case (NumberTree(text), Number(i)) => NumberTaken(text, i)
    case (StringTree(raw), String(s)) => LiteralTaken(raw, s)
    case (ArrayTree(open, elements), Array(items)) =>
      |elements| == |items| && Blanks(open) && forall i :: 0 <= i < |items| ==>
        Accepts(elements[i].tree, items[i]) && Blanks(elements[i].before) && Blanks(elements[i].after)
    case (ObjectTree(open, pairs), Object(members)) =>
      |pairs| == |members| && Blanks(open) && forall i :: 0 <= i < |members| ==>
        Accepts(pairs[i].tree, members[i].value) && NameTaken(pairs[i], members[i].name)
    case _ => false
  }

  ghost predicate NameTaken(e: Pair, name: seq<CByte>) {
    LiteralTaken(e.name, name) && Blanks(e.before) && Blanks(e.middle) && Blanks(e.gap) && Blanks(e.after)
  }

  /** A value, a tree of one of its texts, and the text after it. */
  datatype Goal = Goal(v: Json, t: Tree, rest: Chars)

  ghost function GoalText(g: Goal): Chars {
    TreeText(g.t, g.rest)
  }

  /** A text with blanks around it, and a terminating zero. */
  ghost function TextWith(lead: seq<Byte>, t: Tree, trail: seq<Byte>): seq<Byte> {
    Flat(Bytes(lead, TreeText(t, Bytes(trail, Cons(0, End)))))
  }

  /** What follows a value does not continue a number. */
  ghost predicate Stop(w: Chars) {
    w.Cons? && !NumberByte(w.b)
  }

  /** The text does not start with a blank. */
  ghost predicate Solid(w: Chars) {
    w.Cons? && w.b > 32
  }

  /** The text stands at p or after some blanks. */
  ghost predicate Spaced(s: seq<Byte>, p: nat, w: Chars)
    decreases |s| - p
  {
    Stands(s, p, w) || (p < |s| && s[p] <= 32 && Spaced(s, p + 1, w))
  }

  lemma {:induction false} BlanksSpaced(s: seq<Byte>, p: nat, b: seq<Byte>, w: Chars)
    requires Stands(s, p, Bytes(b, w)) && Blanks(b)
    ensures Spaced(s, p, w)
    decreases |b|
  {
    if b != [] {
      BlanksSpaced(s, p + 1, b[1..], w);
    }
  }

  /** Blanks do not continue a number. */
  lemma {:induction false} BlanksStop(b: seq<Byte>, w: Chars)
    requires Blanks(b) && Stop(w)
    ensures Stop(Bytes(b, w))
  {
  }

  lemma {:induction false} TextStands(g: Goal, s: seq<Byte>, lead: seq<Byte>, trail: seq<Byte>)
    requires Accepts(g.t, g.v) && Blanks(lead) && Blanks(trail) && g.rest == Bytes(trail, Cons(0, End))
    requires s == TextWith(lead, g.t, trail)
    ensures s != [] && s[0] != 0xEF && Spaced(s, 0, GoalText(g)) && Solid(GoalText(g)) && Stop(g.rest)
  {
    var w := Bytes(lead, GoalText(g));
    assert [] + s == s;
    YieldsFlat([], w, s);
    YieldsStands([], w, s);
    BlanksSpaced(s, 0, lead, GoalText(g));
    TreeStarts(g.t, g.v, g.rest);
    BlanksStop(trail, Cons(0, End));
  }

  /** Behind the value only blanks and the zero are left. */
  lemma {:induction false} TrailBlank(s: seq<Byte>, p: nat, trail: seq<Byte>)
    requires Stands(s, p, Bytes(trail, Cons(0, End))) && Blanks(trail)
    ensures p < |s| && Blanks(s[p..]) && s[|s| - 1] == 0
    decreases |trail|
  {
    if trail == [] {
      assert s[p..] == [0];
    } else {
      TrailBlank(s, p + 1, trail[1..]);
      assert s[p..] == [s[p]] + s[p + 1..];
    }
  }

  /** At most `room` levels of arrays and objects. */
  ghost predicate Shallow(v: Json, room: nat) {
    match v
    case Array(items) => room > 0 && forall k :: 0 <= k < |items| ==> Shallow(items[k], room - 1)
    case Object(members) => room > 0 && forall k :: 0 <= k < |members| ==> Shallow(members[k].value, room - 1)
    case _ => true
  }

  /** The value may stand below `depth` levels. */
  ghost predicate Fits(v: Json, depth: int) {
    0 <= depth <= NESTING_LIMIT && Shallow(v, NESTING_LIMIT - depth)
  }

  /** The first n values directly below v may stand there. */
  ghost predicate FirstFit(v: Json, depth: nat, n: nat) {
    match v
    case Array(items) => n <= |items| && forall k :: 0 <= k < n ==> Fits(items[k], depth)
    case Object(members) => n <= |members| && forall k :: 0 <= k < n ==> Fits(members[k].value, depth)
    case _ => true
  }

  /** The first items of v, all of which fit. */
  ghost predicate ItemsRead(v: Json, depth: nat, items: seq<Json>) {
    v.Array? && FirstFit(v, depth, |items|) && items == v.items[..|items|]
  }

  ghost predicate MembersRead(v: Json, depth: nat, members: seq<Member>) {
    v.Object? && FirstFit(v, depth, |members|) && members == v.members[..|members|]
  }

  lemma {:induction false} OneMoreItem(v: Json, depth: nat, items: seq<Json>)
    requires 1 <= depth <= NESTING_LIMIT && ItemsRead(v, depth, items) && |items| < |v.items|
    ensures var n, r := |items|, v.items[|items|];
            if !Fits(r, depth) then !Fits(v, depth - 1)
            else ItemsRead(v, depth, items + [r]) && (n + 1 == |v.items| ==> items + [r] == v.items && Fits(v, depth - 1))
  {
    assert v.items[..|items| + 1] == items + [v.items[|items|]];
    if |items| + 1 == |v.items| && Fits(v.items[|items|], depth) {
      AllFit(v, depth);
    }
  }

  lemma {:induction false} OneMoreMember(v: Json, depth: nat, members: seq<Member>)
    requires 1 <= depth <= NESTING_LIMIT && MembersRead(v, depth, members) && |members| < |v.members|
    ensures var n, m := |members|, v.members[|members|];
            if !Fits(m.value, depth) then !Fits(v, depth - 1)
            else MembersRead(v, depth, members + [m])
                 && (n + 1 == |v.members| ==> members + [m] == v.members && Fits(v, depth - 1))
  {
    assert v.members[..|members| + 1] == members + [v.members[|members|]];
    if |members| + 1 == |v.members| && Fits(v.members[|members|].value, depth) {
      AllFit(v, depth);
    }
  }

  /** All values below v. */
  lemma {:induction false} AllFit(v: Json, depth: nat)
    requires 1 <= depth <= NESTING_LIMIT
    ensures v.Array? && FirstFit(v, depth, |v.items|) ==> Fits(v, depth - 1)
    ensures v.Object? && FirstFit(v, depth, |v.members|) ==> Fits(v, depth - 1)
  {
  }

  lemma {:induction false} EmptyFits(v: Json, depth: nat)
    requires 1 <= depth <= NESTING_LIMIT
    ensures Width(v) == 0 ==> Fits(v, depth - 1)
  {
    if Width(v) == 0 {
      AllFit(v, depth);
    }
  }

  /** The first byte of a tree's text. */
  function FirstOf(t: Tree): Byte {
    match t
    case NullTree => 0x6E
    case FalseTree => 0x66
    case TrueTree => 0x74
    case NumberTree(text) => if text == [] then 0 else text[0]
    case StringTree(_) => 0x22
    case ArrayTree(_, _) => 0x5B
    case ObjectTree(_, _) => 0x7B
  }

  lemma {:induction false} TreeStarts(t: Tree, v: Json, rest: Chars)
    requires Accepts(t, v)
    ensures var w := TreeText(t, rest); w.Cons? && w.b == FirstOf(t) > 32 && FirstOf(t) != 0xEF
    ensures t.NumberTree? ==> FirstOf(t) == 0x2D || Digit(FirstOf(t))
  {
  }

  lemma {:induction false} TextStarts(g: Goal, s: seq<Byte>, p: nat)
    ensures Accepts(g.t, g.v) && Stands(s, p, GoalText(g)) ==> p < |s| && s[p] == FirstOf(g.t)
    ensures Accepts(g.t, g.v) ==> FirstOf(g.t) > 32 && (g.t.NumberTree? ==> FirstOf(g.t) == 0x2D || Digit(FirstOf(g.t)))
  {
    if Accepts(g.t, g.v) {
      TreeStarts(g.t, g.v, g.rest);
    }
  }

  // ---------- arrays ----------

  ghost predicate IsArray(g: Goal) {
    Accepts(g.t, g.v) && g.v.Array?
  }

  /** The text after item i and the blanks that follow it. */
  ghost function AfterItem(g: Goal, i: nat): Chars {
    if g.t.ArrayTree? && i + 1 < |g.t.elements| then Cons(0x2C, ElementsText(g.t, i + 1, Cons(0x5D, g.rest)))
    else Cons(0x5D, g.rest)
  }

  ghost function ItemGoal(g: Goal, i: nat): Goal {
    if g.v.Array? && g.t.ArrayTree? && i < |g.v.items| && i < |g.t.elements| then
      Goal(g.v.items[i], g.t.elements[i].tree, Bytes(g.t.elements[i].after, AfterItem(g, i)))
    else g
  }

  /** What comes after the bracket and the blanks behind it. */
  ghost function ArrayBody(g: Goal): Chars {
    if g.t.ArrayTree? && g.t.elements != [] then GoalText(ItemGoal(g, 0)) else Cons(0x5D, g.rest)
  }

  lemma {:induction false} ElementsAre(g: Goal, i: nat)
    requires IsArray(g) && i < |g.v.items|
    ensures ElementsText(g.t, i, Cons(0x5D, g.rest)) == Bytes(g.t.elements[i].before, GoalText(ItemGoal(g, i)))
    ensures Blanks(g.t.elements[i].before) && Blanks(g.t.elements[i].after)
  {
  }

  lemma {:induction false} ItemStarts(g: Goal, i: nat)
    requires IsArray(g) && i < |g.v.items|
    ensures var h := ItemGoal(g, i);
            && h == Goal(g.v.items[i], g.t.elements[i].tree, Bytes(g.t.elements[i].after, AfterItem(g, i)))
            && Accepts(h.t, h.v) && Solid(GoalText(h)) && FirstOf(h.t) != 0x5D && Stop(h.rest)
    ensures Blanks(g.t.elements[i].after) && Solid(AfterItem(g, i))
  {
    var h := ItemGoal(g, i);
    TreeStarts(h.t, h.v, h.rest);
    BlanksStop(g.t.elements[i].after, AfterItem(g, i));
  }

  lemma {:induction false} ArrayStarts(g: Goal, s: seq<Byte>, p: nat)
    requires Accepts(g.t, g.v) && Stands(s, p, GoalText(g)) && p < |s| && s[p] == 0x5B
    ensures IsArray(g) && Spaced(s, p + 1, ArrayBody(g)) && Solid(ArrayBody(g))
    ensures ArrayBody(g).b == 0x5D <==> g.v.items == []
    ensures g.v.items != [] ==> ArrayBody(g) == GoalText(ItemGoal(g, 0))
    ensures g.v.items == [] ==> ArrayBody(g) == Cons(0x5D, g.rest)
  {
    TreeStarts(g.t, g.v, g.rest);
    if g.v.items == [] {
      BlanksSpaced(s, p + 1, g.t.open, Cons(0x5D, g.rest));
    } else {
      ElementsAre(g, 0);
      ItemStarts(g, 0);
      BlanksSpaced(s, p + 1, g.t.elements[0].before, GoalText(ItemGoal(g, 0)));
      TreeStarts(ItemGoal(g, 0).t, ItemGoal(g, 0).v, ItemGoal(g, 0).rest);
    }
  }

  /** A comma is followed by the next item; the last one has none. */
  lemma {:induction false} PastItem(g: Goal, i: nat, s: seq<Byte>, p: nat)
    requires IsArray(g) && i < |g.v.items| && Stands(s, p, AfterItem(g, i))
    ensures p < |s|
    ensures s[p] == COMMA ==> i + 1 < |g.v.items| && Spaced(s, p + 1, GoalText(ItemGoal(g, i + 1)))
    ensures s[p] != COMMA ==> i + 1 == |g.v.items| && Stands(s, p, Cons(0x5D, g.rest))
  {
    if i + 1 < |g.v.items| {
      ElementsAre(g, i + 1);
      BlanksSpaced(s, p + 1, g.t.elements[i + 1].before, GoalText(ItemGoal(g, i + 1)));
    }
  }

  // ---------- objects ----------

  ghost predicate IsObject(g: Goal) {
    Accepts(g.t, g.v) && g.v.Object?
  }

  /** What follows member i and the blanks after it. */
  ghost function MemberEnd(g: Goal, i: nat): Chars {
    if g.t.ObjectTree? && i + 1 < |g.t.pairs| then Cons(0x2C, PairsText(g.t, i + 1, Cons(0x7D, g.rest)))
    else Cons(0x7D, g.rest)
  }

  /** The value of member i as a goal of its own. */
  ghost function ValueGoal(g: Goal, i: nat): Goal {
    if g.v.Object? && g.t.ObjectTree? && i < |g.v.members| && i < |g.t.pairs| then
      Goal(g.v.members[i].value, g.t.pairs[i].tree, Bytes(g.t.pairs[i].after, MemberEnd(g, i)))
    else g
  }

  /** What comes after the colon of member i. */
  ghost function ColonText(g: Goal, i: nat): Chars {
    if g.t.ObjectTree? && i < |g.t.pairs| then Bytes(g.t.pairs[i].gap, GoalText(ValueGoal(g, i))) else End
  }

  /** What comes after the name of member i. */
  ghost function MiddleText(g: Goal, i: nat): Chars {
    if g.t.ObjectTree? && i < |g.t.pairs| then Bytes(g.t.pairs[i].middle, Cons(0x3A, ColonText(g, i))) else End
  }

  /** Member i without the blanks before it. */
  ghost function MemberBody(g: Goal, i: nat): Chars {
    if g.t.ObjectTree? && i < |g.t.pairs| then LiteralText(g.t.pairs[i].name, MiddleText(g, i)) else End
  }

  /** What comes after the brace and the blanks behind it. */
  ghost function ObjectBody(g: Goal): Chars {
    if g.t.ObjectTree? && g.t.pairs != [] then MemberBody(g, 0) else Cons(0x7D, g.rest)
  }

  lemma {:induction false} PairsAre(g: Goal, i: nat)
    requires IsObject(g) && i < |g.v.members|
    ensures PairsText(g.t, i, Cons(0x7D, g.rest)) == Bytes(g.t.pairs[i].before, MemberBody(g, i))
    ensures NameTaken(g.t.pairs[i], g.v.members[i].name)
  {
  }

  lemma {:induction false} NameStarts(g: Goal, i: nat)
    requires IsObject(g) && i < |g.v.members|
    ensures MemberBody(g, i) == LiteralText(g.t.pairs[i].name, MiddleText(g, i))
    ensures MiddleText(g, i) == Bytes(g.t.pairs[i].middle, Cons(0x3A, ColonText(g, i)))
    ensures NameTaken(g.t.pairs[i], g.v.members[i].name)
  {
  }

  lemma {:induction false} ValueStarts(g: Goal, i: nat)
    requires IsObject(g) && i < |g.v.members|
    ensures var h := ValueGoal(g, i);
            && h == Goal(g.v.members[i].value, g.t.pairs[i].tree, Bytes(g.t.pairs[i].after, MemberEnd(g, i)))
            && Accepts(h.t, h.v) && Solid(GoalText(h)) && Stop(h.rest)
    ensures Blanks(g.t.pairs[i].after) && Solid(MemberEnd(g, i))
  {
    var h := ValueGoal(g, i);
    TreeStarts(h.t, h.v, h.rest);
    BlanksStop(g.t.pairs[i].after, MemberEnd(g, i));
  }

  lemma {:induction false} ObjectStarts(g: Goal, s: seq<Byte>, p: nat)
    requires Accepts(g.t, g.v) && Stands(s, p, GoalText(g)) && p < |s| && s[p] == 0x7B
    ensures IsObject(g) && Spaced(s, p + 1, ObjectBody(g)) && Solid(ObjectBody(g))
    ensures ObjectBody(g).b == 0x7D <==> g.v.members == []
    ensures g.v.members != [] ==> ObjectBody(g) == MemberBody(g, 0)
    ensures g.v.members == [] ==> ObjectBody(g) == Cons(0x7D, g.rest)
  {
    TreeStarts(g.t, g.v, g.rest);
    if g.v.members == [] {
      BlanksSpaced(s, p + 1, g.t.open, Cons(0x7D, g.rest));
    } else {
      PairsAre(g, 0);
      BlanksSpaced(s, p + 1, g.t.pairs[0].before, MemberBody(g, 0));
    }
  }

  /** A comma is followed by the next member; the last one has none. */
  lemma {:induction false} PastMember(g: Goal, i: nat, s: seq<Byte>, p: nat)
    requires IsObject(g) && i < |g.v.members| && Stands(s, p, MemberEnd(g, i))
    ensures p < |s|
    ensures s[p] == COMMA ==> i + 1 < |g.v.members| && Spaced(s, p + 1, MemberBody(g, i + 1))
    ensures s[p] != COMMA ==> i + 1 == |g.v.members| && Stands(s, p, Cons(0x7D, g.rest))
  {
    if i + 1 < |g.v.members| {
      PairsAre(g, i + 1);
      BlanksSpaced(s, p + 1, g.t.pairs[i + 1].before, MemberBody(g, i + 1));
    }
  }

  lemma {:induction false} ColonSpaced(g: Goal, i: nat, s: seq<Byte>, p: nat)
    requires IsObject(g) && i < |g.v.members| && Stands(s, p, ColonText(g, i))
    ensures Spaced(s, p, GoalText(ValueGoal(g, i)))
  {
    PairsAre(g, i);
    BlanksSpaced(s, p, g.t.pairs[i].gap, GoalText(ValueGoal(g, i)));
  }

  // ---------- words ----------

  ghost predicate Matches(s: seq<Byte>, p: nat, word: seq<CByte>) {
    p + |word| <= |s| && s[p..p + |word|] == word
  }

  lemma {:induction false} WordMatches(s: seq<Byte>, p: nat, word: seq<Byte>, rest: Chars)
    requires Stands(s, p, Bytes(word, rest)) && word != []
    ensures p + |word| <= |s| && s[p..p + |word|] == word && Stands(s, p + |word|, rest)
  {
    BytesStand(s, p, word, rest);
  }

  /** The words stand for themselves, and no other value starts with one of them. */
  lemma {:induction false} WordRead(g: Goal, s: seq<Byte>, p: nat)
    requires Accepts(g.t, g.v) && Stands(s, p, GoalText(g))
    ensures Matches(s, p, NullWord()) <==> g.v.Null?
    ensures Matches(s, p, FalseWord()) <==> g.v.False?
    ensures Matches(s, p, TrueWord()) <==> g.v.True?
    ensures g.v.Null? || g.v.True? ==> Stands(s, p + 4, g.rest)
    ensures g.v.False? ==> Stands(s, p + 5, g.rest)
  {
    TextStarts(g, s, p);
    match g.v
    case Null => WordMatches(s, p, [0x6E, 0x75, 0x6C, 0x6C], g.rest);
    case False => WordMatches(s, p, [0x66, 0x61, 0x6C, 0x73, 0x65], g.rest);
    case True => WordMatches(s, p, [0x74, 0x72, 0x75, 0x65], g.rest);
    case _ =>
    WordStarts(s, p);
  }

  lemma {:induction false} WordStarts(s: seq<Byte>, p: nat)
    ensures Matches(s, p, NullWord()) ==> s[p] == 0x6E
    ensures Matches(s, p, FalseWord()) ==> s[p] == 0x66
    ensures Matches(s, p, TrueWord()) ==> s[p] == 0x74
  {
    assert Matches(s, p, NullWord()) ==> s[p] == s[p..p + 4][0];
    assert Matches(s, p, FalseWord()) ==> s[p] == s[p..p + 5][0];
    assert Matches(s, p, TrueWord()) ==> s[p] == s[p..p + 4][0];
  }

  // ---------- a number is read to its end ----------

  lemma {:induction false} DigitRunAll(s: seq<Byte>, p: nat)
    requires p <= |s| && forall k :: p <= k < |s| ==> Digit(s[k])
    ensures DigitRun(s, p) == |s| - p
    decreases |s| - p
  {
    if p < |s| {
      DigitRunAll(s, p + 1);
    }
  }

  lemma {:induction false} NumberRunIs(s: seq<Byte>, p: nat, k: nat, n: nat)
    requires k <= n && p + k < |s| && !NumberByte(s[p + k])
    requires forall j :: p <= j < p + k ==> NumberByte(s[j])
    ensures NumberRun(s, p, n) == k
    decreases n
  {
    if k > 0 {
      NumberRunIs(s, p + 1, k - 1, n - 1);
    }
  }

  // ---------- a printed string is read back ----------

  lemma {:induction false} WordStands(s: seq<Byte>, p: nat, bytes: seq<CByte>, rest: Chars)
    requires Stands(s, p, Word(bytes, rest))
    ensures Stands(s, p + |bytes|, rest) && (bytes != [] ==> p + |bytes| <= |s|)
    ensures forall k {:trigger bytes[k]} :: 0 <= k < |bytes| ==> s[p + k] == bytes[k]
    decreases |bytes|
  {
    if bytes != [] {
      WordStands(s, p + 1, bytes[1..], rest);
      forall k | 0 <= k < |bytes|
        ensures p + k < |s| && s[p + k] == bytes[k]
      {
        if k > 0 {
          assert bytes[1..][k - 1] == bytes[k];
        }
      }
    }
  }

  lemma {:induction false} HexDigitValue(v: nat)
    requires v < 16
    ensures HexValue(HexDigit(v)) == v && HexDigit(v) != QUOTE && HexDigit(v) != BACKSLASH
  {
  }

  /** One byte of a literal: finding the end and decoding pass over its escaped form. */
  lemma {:induction false} PlainRead(s: seq<Byte>, p: nat, c: CByte, end: nat, out: seq<Byte>)
    requires p < end < |s| && s[p] == c >= 32 && Letter(c) == 0
    ensures Closing(s, p) == Closing(s, p + 1) && Unescape(s, p, end, out) == Unescape(s, p + 1, end, out + [c])
  {
  }

  lemma {:induction false} ShortRead(s: seq<Byte>, p: nat, c: CByte, end: nat, out: seq<Byte>)
    requires p + 2 <= end < |s| && s[p] == BACKSLASH && s[p + 1] == Letter(c) != 0
    ensures Closing(s, p) == Closing(s, p + 2) && Unescape(s, p, end, out) == Unescape(s, p + 2, end, out + [c])
  {
  }

  lemma {:induction false} NextHex(s: seq<Byte>, p: nat, n: nat)
    requires n < 4 && p + 4 <= |s| && HexValue(s[p + n]) >= 0
    ensures HexUpTo(s, p, n + 1) == 16 * HexUpTo(s, p, n) + HexValue(s[p + n])
    ensures Hexes(s, p, n) ==> Hexes(s, p, n + 1)
  {
  }

  /** The four digits of \u00xx. */
  lemma {:induction false} UnicodeDigits(s: seq<Byte>, p: nat, c: CByte)
    requires p + 4 <= |s| && c < 32 && s[p] == 0x30 && s[p + 1] == 0x30
    requires s[p + 2] == HexDigit(c / 16) && s[p + 3] == HexDigit(c % 16)
    ensures Hexes(s, p, 4) && Hex4(s, p) == c
  {
    HexDigitValue(c / 16);
    HexDigitValue(c % 16);
    NextHex(s, p, 0);
    NextHex(s, p, 1);
    NextHex(s, p, 2);
    NextHex(s, p, 3);
  }

  lemma {:induction false} UnicodeRead(s: seq<Byte>, p: nat, c: CByte, end: nat, out: seq<Byte>)
    requires p + 6 <= end < |s| && c < 32 && s[p] == BACKSLASH && s[p + 1] == 0x75 && s[p + 2] == 0x30
    requires s[p + 3] == 0x30 && s[p + 4] == HexDigit(c / 16) && s[p + 5] == HexDigit(c % 16)
    ensures Closing(s, p) == Closing(s, p + 6) && Unescape(s, p, end, out) == Unescape(s, p + 6, end, out + [c])
  {
    UnicodeDigits(s, p + 2, c);
    HexDigitValue(c / 16);
    HexDigitValue(c % 16);
    assert Closing(s, p) == Closing(s, p + 2) == Closing(s, p + 3) == Closing(s, p + 4);
    assert Closing(s, p + 4) == Closing(s, p + 5) == Closing(s, p + 6);
    assert Utf16(s, p, end) == Unit(c, 6) && Utf8(c) == [c];
  }

  /** One escaped byte. */
  lemma {:induction false} EscapeRead(s: seq<Byte>, p: nat, c: CByte, end: nat, out: seq<Byte>, rest: Chars)
    requires Stands(s, p, Word(Escape(c), rest)) && p + |Escape(c)| <= end < |s|
    ensures Stands(s, p + |Escape(c)|, rest) && Closing(s, p) == Closing(s, p + |Escape(c)|)
    ensures Unescape(s, p, end, out) == Unescape(s, p + |Escape(c)|, end, out + [c])
  {
    var e := Escape(c);
    WordStands(s, p, e, rest);
    assert s[p + 0] == e[0];
    if Letter(c) != 0 {
      assert s[p + 1] == e[1];
      ShortRead(s, p, c, end, out);
    } else if c < 32 {
      assert s[p + 1] == e[1] && s[p + 2] == e[2] && s[p + 3] == e[3] && s[p + 4] == e[4] && s[p + 5] == e[5];
      UnicodeRead(s, p, c, end, out);
    } else {
      PlainRead(s, p, c, end, out);
    }
  }

  /** Where the escaped bytes of s from i on end. */
  function EscapedEnd(s: seq<CByte>, i: nat, p: nat): (q: nat)
    ensures q >= p
    decreases |s| - i
  {
    if i >= |s| then p else EscapedEnd(s, i + 1, p + |Escape(s[i])|)
  }

  lemma {:induction false} EscapedStands(t: seq<Byte>, p: nat, s: seq<CByte>, i: nat, rest: Chars)
    requires Stands(t, p, EscapedFrom(s, i, Cons(QUOTE, rest)))
    ensures EscapedEnd(s, i, p) < |t| && Stands(t, EscapedEnd(s, i, p), Cons(QUOTE, rest))
    decreases |s| - i
  {
    if i < |s| {
      WordStands(t, p, Escape(s[i]), EscapedFrom(s, i + 1, Cons(QUOTE, rest)));
      EscapedStands(t, p + |Escape(s[i])|, s, i + 1, rest);
    }
  }

  /** The escaped bytes from i on are closed where they end, and decode to themselves. */
  lemma {:induction false} EscapedRead(t: seq<Byte>, p: nat, s: seq<CByte>, i: nat, out: seq<Byte>, end: nat, rest: Chars)
    requires Stands(t, p, EscapedFrom(s, i, Cons(QUOTE, rest))) && end == EscapedEnd(s, i, p) < |t| && i <= |s|
    ensures Closing(t, p) == end && Unescape(t, p, end, out) == Decoded(out + s[i..])
    decreases |s| - i
  {
    if i < |s| {
      var more := EscapedFrom(s, i + 1, Cons(QUOTE, rest));
      EscapeRead(t, p, s[i], end, out, more);
      EscapedRead(t, p + |Escape(s[i])|, s, i + 1, out + [s[i]], end, rest);
      assert out + [s[i]] + s[i + 1..] == out + s[i..];
    } else {
      assert out + s[i..] == out;
    }
  }

  /** A printed string literal is closed by its own quote and decodes to the string. */
  lemma {:induction false} StringRead(t: seq<Byte>, p: nat, s: seq<CByte>, rest: Chars)
    requires Stands(t, p, StringText(s, rest))
    ensures p < |t| && t[p] == QUOTE
    ensures var q := Closing(t, p + 1);
            && q == EscapedEnd(s, 0, p + 1) && Unescape(t, p + 1, q, []) == Decoded(s)
            && CString(s) == s && Stands(t, q + 1, rest)
  {
    EscapedStands(t, p + 1, s, 0, rest);
    EscapedRead(t, p + 1, s, 0, [], EscapedEnd(s, 0, p + 1), rest);
    assert [] + s[0..] == s;
    CStringWhole(s);
  }

  // ---------- a literal or a number is read wherever it stands ----------

  /** The bytes stand in s from p on. */
  ghost predicate Copied(s: seq<Byte>, p: nat, lit: seq<Byte>) {
    p + |lit| <= |s| && s[p..p + |lit|] == lit
  }

  lemma {:induction false} CopiedAt(s: seq<Byte>, p: nat, lit: seq<Byte>, k: nat)
    requires Copied(s, p, lit) && k < |lit|
    ensures s[p + k] == lit[k]
  {
    assert s[p + k] == s[p..p + |lit|][k];
  }

  lemma {:induction false} ClosingMoved(s: seq<Byte>, p: nat, lit: seq<Byte>, k: nat)
    requires Copied(s, p, lit) && Closing(lit, k) >= 0
    ensures Closing(s, p + k) == p + Closing(lit, k)
    decreases |lit| - k
  {
    CopiedAt(s, p, lit, k);
    if lit[k] == BACKSLASH {
      ClosingMoved(s, p, lit, k + 2);
    } else if lit[k] != QUOTE {
      ClosingMoved(s, p, lit, k + 1);
    }
  }

  lemma {:induction false} HexesMoved(s: seq<Byte>, p: nat, lit: seq<Byte>, k: nat, n: nat)
    requires Copied(s, p, lit) && k + 4 <= |lit| && n <= 4
    ensures Hexes(s, p + k, n) == Hexes(lit, k, n) && HexUpTo(s, p + k, n) == HexUpTo(lit, k, n)
    decreases n
  {
    if n > 0 {
      CopiedAt(s, p, lit, k + n - 1);
      HexesMoved(s, p, lit, k, n - 1);
    }
  }

  lemma {:induction false} UnitMoved(s: seq<Byte>, p: nat, lit: seq<Byte>, k: nat, end: nat)
    requires Copied(s, p, lit) && k < end <= |lit|
    ensures Utf16(s, p + k, p + end) == Utf16(lit, k, end)
  {
    if end - k >= 6 {
      HexesMoved(s, p, lit, k + 2, 4);
      if end - k >= 12 {
        CopiedAt(s, p, lit, k + 6);
        CopiedAt(s, p, lit, k + 7);
        HexesMoved(s, p, lit, k + 8, 4);
      }
    }
  }

  lemma {:induction false} UnescapeMoved(s: seq<Byte>, p: nat, lit: seq<Byte>, k: nat, end: nat, out: seq<Byte>)
    requires Copied(s, p, lit) && end < |lit|
    ensures Unescape(s, p + k, p + end, out) == Unescape(lit, k, end, out)
    decreases end - k
  {
    if k < end {
      CopiedAt(s, p, lit, k);
      CopiedAt(s, p, lit, k + 1);
      if lit[k] != BACKSLASH {
        UnescapeMoved(s, p, lit, k + 1, end, out + [lit[k]]);
      } else if lit[k + 1] == 0x75 {
        UnitMoved(s, p, lit, k, end);
        var u := Utf16(lit, k, end);
        if u.Unit? {
          UnescapeMoved(s, p, lit, k + u.used, end, out + Utf8(u.code));
        }
      } else if Unletter(lit[k + 1]) >= 0 {
        UnescapeMoved(s, p, lit, k + 2, end, out + [Unletter(lit[k + 1])]);
      }
    }
  }

  lemma {:induction false} LiteralCopied(s: seq<Byte>, p: nat, raw: seq<Byte>, rest: Chars)
    requires Stands(s, p, LiteralText(raw, rest))
    ensures Copied(s, p, [QUOTE] + raw + [QUOTE]) && Stands(s, p + |raw| + 2, rest)
  {
    BytesStand(s, p + 1, raw, Cons(0x22, rest));
    var lit := [QUOTE] + raw + [QUOTE];
    forall k | 0 <= k < |lit|
      ensures s[p..p + |lit|][k] == lit[k]
    {
      if 1 <= k <= |raw| {
        assert s[p + k] == s[p + 1..p + 1 + |raw|][k - 1];
      }
    }
  }

  lemma {:induction false} LiteralRead(s: seq<Byte>, p: nat, raw: seq<Byte>, str: seq<CByte>, rest: Chars)
    requires Stands(s, p, LiteralText(raw, rest)) && LiteralTaken(raw, str)
    ensures p < |s| && s[p] == QUOTE
    ensures var q := Closing(s, p + 1);
            && q >= 0 && Unescape(s, p + 1, q, []).Decoded? && CString(Unescape(s, p + 1, q, []).bytes) == str
            && Stands(s, q + 1, rest)
  {
    var lit := [QUOTE] + raw + [QUOTE];
    LiteralCopied(s, p, raw, rest);
    CopiedAt(s, p, lit, 0);
    ClosingMoved(s, p, lit, 1);
    UnescapeMoved(s, p, lit, 1, |raw| + 1, []);
  }

  lemma {:induction false} NumberRead(s: seq<Byte>, p: nat, text: seq<Byte>, rest: Chars)
    requires Stands(s, p, Bytes(text, rest)) && Stop(rest)
    requires 1 <= |text| <= 63 && forall k :: 0 <= k < |text| ==> NumberByte(text[k])
    ensures p <= |s| && NumberRun(s, p, 63) == |text| && s[p..][..|text|] == text && Stands(s, p + |text|, rest)
  {
    BytesStand(s, p, text, rest);
    forall j | p <= j < p + |text|
      ensures NumberByte(s[j])
    {
      CopiedAt(s, p, text, j - p);
    }
    NumberRunIs(s, p, |text|, 63);
  }

  /** The number that stands at p is the value. */
  lemma {:induction false} NumberMet(g: Goal, s: seq<Byte>, p: nat)
    requires Accepts(g.t, g.v) && Stands(s, p, GoalText(g)) && Stop(g.rest)
    requires p < |s| && (s[p] == 0x2D || Digit(s[p]))
    ensures var text := s[p..][..NumberRun(s, p, 63)];
            var n := ToInteger(text);
            && g.v.Number? && n.Whole? && Saturated(n.value) == g.v.valueint
            && n.used > 0 && Stands(s, p + n.used, g.rest)
  {
    TextStarts(g, s, p);
    OnlyNumber(g.t, g.v);
    NumberStands(s, p, g.t.text, g.v.valueint, g.rest);
  }

  /** Only numbers start with a minus sign or a digit. */
  lemma {:induction false} OnlyNumber(t: Tree, v: Json)
    requires Accepts(t, v) && (FirstOf(t) == 0x2D || Digit(FirstOf(t)))
    ensures t.NumberTree? && v.Number? && NumberTaken(t.text, v.valueint)
  {
  }

  lemma {:induction false} NumberStands(s: seq<Byte>, p: nat, text: seq<Byte>, i: Int32, rest: Chars)
    requires p <= |s| && Stands(s, p, Bytes(text, rest)) && Stop(rest) && NumberTaken(text, i)
    ensures var n := ToInteger(s[p..][..NumberRun(s, p, 63)]);
            n.Whole? && Saturated(n.value) == i && n.used > 0 && Stands(s, p + n.used, rest)
  {
    NumberRead(s, p, text, rest);
  }
}
