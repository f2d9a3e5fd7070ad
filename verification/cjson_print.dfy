/**
 The printer of cJSON.c: a buffer that grows on demand and is kept terminated by a zero byte, and the
 printing of values, formatted or not.  Every method is proved to append the text of its value.
 */
module CJsonPrint {
  import opened JsonText

  const INT_MAX := 0x7FFF_FFFF

  /** Escaped length of the first n bytes. */
  function EscapedLength(s: seq<CByte>, n: nat): (l: nat)
    requires n <= |s|
    ensures l >= n
  {
    if n == 0 then 0 else EscapedLength(s, n - 1) + |Escape(s[n - 1])|
  }

  /** When nothing is lengthened nothing is escaped. */
  lemma {:induction false} NothingEscaped(s: seq<CByte>, n: nat, i: nat)
    requires i < n <= |s| && EscapedLength(s, n) == n
    ensures Escape(s[i]) == [s[i]]
  {
    if i < n - 1 {
      NothingEscaped(s, n - 1, i);
    }
  }

  class PrintBuffer {
    var buffer: array<Byte>
    var offset: nat
    var depth: nat
    const noalloc: bool
    const format: bool

    constructor (buffer: array<Byte>, noalloc: bool, format: bool)
      ensures Valid() && offset == 0 && depth == 0 && this.buffer == buffer
      ensures this.noalloc == noalloc && this.format == format
    {
      this.buffer, offset, depth, this.noalloc, this.format := buffer, 0, 0, noalloc, format;
    }

    /** No zero byte among the first offset + k. */
    ghost predicate Clean(k: nat)
      reads this, buffer
    {
      offset + k <= buffer.Length && forall i :: 0 <= i < offset + k ==> buffer[i] != 0
    }

    ghost predicate Valid()
      reads this, buffer
    {
      Clean(0) && (buffer.Length > 0 ==> offset < buffer.Length)
    }

    /** What has been written up to k bytes after the offset. */
    ghost function Out(k: nat): (out: seq<Byte>)
      requires offset + k <= buffer.Length
      reads this, buffer
      ensures |out| == offset + k
    {
      buffer[..offset + k]
    }

    /** n bytes and a zero byte stand after the offset, which has not moved past them yet. */
    ghost predicate Terminated(n: nat)
      reads this, buffer
    {
      Clean(n) && offset + n < buffer.Length && buffer[offset + n] == 0
    }

    /** The text up to `rest` has been written. */
    ghost predicate Printed(n: nat, rest: Chars, total: seq<Byte>)
      reads this, buffer
    {
      Terminated(n) && Owes(Out(n), rest, total)
    }

    /** Printing cannot fail for want of room. */
    ghost predicate Roomy(total: seq<Byte>) {
      !noalloc && |total| + 4 <= INT_MAX
    }

    /** Makes room for `needed` bytes after the offset and one more. */
    method Ensure(needed: nat) returns (ok: bool)
      requires Valid()
      modifies this`buffer
      ensures Valid() && Out(0) == old(Out(0)) && (buffer == old(buffer) || fresh(buffer))
      ensures ok ==> offset + needed + 1 <= buffer.Length
      ensures !ok ==> noalloc || offset + needed + 1 > INT_MAX
    {
      if buffer.Length > 0 && offset >= buffer.Length {
        return false;
      }
      if needed > INT_MAX {
        return false;
      }
      var total := needed + offset + 1;
      if total <= buffer.Length {
        return true;
      }
      if noalloc {
        return false;
      }
      var newsize: nat;
      if total > INT_MAX / 2 {
        if total > INT_MAX {
          return false;
        }
        newsize := INT_MAX;
      } else {
        newsize := total * 2;
      }
      var newbuffer := new Byte[newsize](_ => 0);
      forall i | 0 <= i < offset {
        newbuffer[i] := buffer[i];
      }
      buffer := newbuffer;
      ok := true;
    }

    /** Moves the offset to the zero byte. */
    method UpdateOffset(ghost n: nat)
      requires Valid() && Terminated(n)
      modifies this`offset
      ensures Valid() && offset == old(offset) + n
    {
      var k := 0;
      while buffer[offset + k] != 0
        invariant k <= n
        decreases n - k
      {
        k := k + 1;
      }
      offset := offset + k;
    }

    /** Writes one byte, k places after the offset. */
    method Put(k: nat, b: CByte)
      requires Clean(k) && offset + k < buffer.Length
      modifies buffer
      ensures Clean(k + 1) && Out(k + 1) == old(Out(k)) + [b]
    {
      buffer[offset + k] := b;
    }

    method Terminate(k: nat)
      requires Clean(k) && offset + k < buffer.Length
      modifies buffer
      ensures Terminated(k) && Out(k) == old(Out(k))
    {
      buffer[offset + k] := 0;
    }

    method PutWord(k: nat, bytes: seq<CByte>, ghost rest: Chars, ghost total: seq<Byte>)
      requires Clean(k) && offset + k + |bytes| <= buffer.Length && Owes(Out(k), Word(bytes, rest), total)
      modifies buffer
      ensures Clean(k + |bytes|) && Owes(Out(k + |bytes|), rest, total)
    {
      OwesWord(Out(k), bytes, rest, total);
      for i := 0 to |bytes|
        invariant Clean(k + i) && Out(k + i) == old(Out(k)) + bytes[..i]
      {
        Put(k + i, bytes[i]);
      }
      assert bytes[..|bytes|] == bytes;
    }

    /** Writes one byte of what is owed. */
    method PutByte(k: nat, b: CByte, ghost rest: Chars, ghost total: seq<Byte>)
      requires Clean(k) && offset + k < buffer.Length && Owes(Out(k), Cons(b, rest), total)
      modifies buffer
      ensures Clean(k + 1) && Owes(Out(k + 1), rest, total)
    {
      OwesLess(Out(k), b, rest, total);
      Put(k, b);
    }

    /** Writes a word that stands for a value. */
    method PrintWord(word: seq<CByte>, ghost rest: Chars, ghost total: seq<Byte>) returns (ok: bool, ghost n: nat)
      requires Valid() && Owes(Out(0), Word(word, rest), total)
      modifies this`buffer, buffer
      ensures Valid() && (buffer == old(buffer) || fresh(buffer))
      ensures ok ==> Printed(n, rest, total) && n == |word|
      ensures !ok ==> !Roomy(total)
    {
      n := |word|;
      OwesWord(Out(0), word, rest, total);
      ok := Ensure(|word| + 1);
      if ok {
        PutWord(0, word, rest, total);
        Terminate(|word|);
      }
    }

    method PrintNumber(i: Int32, ghost rest: Chars, ghost total: seq<Byte>) returns (ok: bool, ghost n: nat)
      requires Valid() && Owes(Out(0), Word(Decimal(i), rest), total)
      modifies this, buffer
      ensures Valid() && depth == old(depth) && (buffer == old(buffer) || fresh(buffer))
      ensures ok ==> Printed(n, rest, total)
      ensures !ok ==> !Roomy(total)
    {
      var number_buffer := Decimal(i);
      DecimalShort(i);
      ok, n := |number_buffer| <= 25, 0;
      if ok {
        ok, n := PrintWord(number_buffer, rest, total);
      }
      if ok {
        offset, n := offset + |number_buffer|, 0;
      }
    }

    // ---------- strings ----------

    /** How many bytes escaping adds. */
    method CountEscapes(s: seq<CByte>) returns (escape_characters: nat)
      ensures |s| + escape_characters == EscapedLength(s, |s|)
    {
      escape_characters := 0;
      for i := 0 to |s|
        invariant i + escape_characters == EscapedLength(s, i)
      {
        var c := s[i];
        if c == QUOTE || c == BACKSLASH || c == 8 || c == 12 || c == 10 || c == 13 || c == 9 {
          escape_characters := escape_characters + 1;
        } else if c < 32 {
          escape_characters := escape_characters + 5;
        }
      }
    }

    /** Writes one byte of a string, escaped if need be. */
    method PutEscaped(c: CByte, k: nat, ghost rest: Chars, ghost total: seq<Byte>)
      requires Clean(k) && offset + k + |Escape(c)| <= buffer.Length && Owes(Out(k), Word(Escape(c), rest), total)
      modifies buffer
      ensures Clean(k + |Escape(c)|) && Owes(Out(k + |Escape(c)|), rest, total)
    {
      if c > 31 && c != QUOTE && c != BACKSLASH {
        PutWord(k, [c], rest, total);
      } else {
        var letter := ShortEscape(c);
        if letter != 0 {
          PutWord(k, [BACKSLASH, letter], rest, total);
        } else {
          PutWord(k, UnicodeEscape(c), rest, total);
        }
      }
    }

    /** The letter of a short escape. */
    method ShortEscape(c: CByte) returns (letter: Byte)
      ensures letter == Letter(c)
    {
      match c {
        case 0x5C => letter := 0x5C;
        case 0x22 => letter := 0x22;
        case 8 => letter := 0x62;
        case 12 => letter := 0x66;
        case 10 => letter := 0x6E;
        case 13 => letter := 0x72;
        case 9 => letter := 0x74;
        case _ => letter := 0;
      }
    }

    /** Copies a string in which nothing has to be escaped. */
    method PutPlain(s: seq<CByte>, k: nat, ghost rest: Chars, ghost total: seq<Byte>)
      requires Clean(k) && offset + k + |s| <= buffer.Length && EscapedLength(s, |s|) == |s|
      requires Owes(Out(k), EscapedFrom(s, 0, rest), total)
      modifies buffer
      ensures Clean(k + |s|) && Owes(Out(k + |s|), rest, total)
    {
      for i := 0 to |s|
        invariant Clean(k + i) && Owes(Out(k + i), EscapedFrom(s, i, rest), total)
      {
        PlainStep(s, i, rest);
        PutByte(k + i, s[i], EscapedFrom(s, i + 1, rest), total);
      }
    }

    method PutAllEscaped(s: seq<CByte>, k: nat, ghost rest: Chars, ghost total: seq<Byte>)
      requires Clean(k) && offset + k + EscapedLength(s, |s|) <= buffer.Length
      requires Owes(Out(k), EscapedFrom(s, 0, rest), total)
      modifies buffer
      ensures Clean(k + EscapedLength(s, |s|)) && Owes(Out(k + EscapedLength(s, |s|)), rest, total)
    {
      var j := k;
      for i := 0 to |s|
        invariant j == k + EscapedLength(s, i) && Clean(j) && Owes(Out(j), EscapedFrom(s, i, rest), total)
      {
        EscapedMono(s, i + 1, |s|);
        j := PutNext(s, i, j, rest, total);
      }
    }

    method PutNext(s: seq<CByte>, i: nat, k: nat, ghost rest: Chars, ghost total: seq<Byte>) returns (k': nat)
      requires Clean(k) && i < |s| && offset + k + |Escape(s[i])| <= buffer.Length
      requires Owes(Out(k), EscapedFrom(s, i, rest), total)
      modifies buffer
      ensures k' == k + |Escape(s[i])| && Clean(k') && Owes(Out(k'), EscapedFrom(s, i + 1, rest), total)
    {
      PutEscaped(s[i], k, EscapedFrom(s, i + 1, rest), total);
      k' := k + |Escape(s[i])|;
    }

    /** Writes a string literal. */
    method PrintStringPtr(s: seq<CByte>, ghost rest: Chars, ghost total: seq<Byte>) returns (ok: bool, ghost n: nat)
      requires Valid() && Owes(Out(0), StringText(s, rest), total)
      modifies this`buffer, buffer
      ensures Valid() && (buffer == old(buffer) || fresh(buffer))
      ensures ok ==> Printed(n, rest, total)
      ensures !ok ==> !Roomy(total)
    {
      var escape_characters := CountEscapes(s);
      var output_length := |s| + escape_characters;
      n := output_length + 2;
      StringFits(Out(0), s, rest, total);
      ok := Ensure(output_length + 3);
      if ok {
        PutString(s, escape_characters, rest, total);
      }
    }

    /** Writes a string literal where there is room. */
    method PutString(s: seq<CByte>, escape_characters: nat, ghost rest: Chars, ghost total: seq<Byte>)
      requires Valid() && |s| + escape_characters == EscapedLength(s, |s|)
      requires offset + EscapedLength(s, |s|) + 2 < buffer.Length && Owes(Out(0), StringText(s, rest), total)
      modifies buffer
      ensures Valid() && Printed(EscapedLength(s, |s|) + 2, rest, total)
    {
      var output_length := |s| + escape_characters;
      PutByte(0, QUOTE, EscapedFrom(s, 0, Cons(QUOTE, rest)), total);
      PutContents(s, escape_characters, Cons(QUOTE, rest), total);
      PutByte(output_length + 1, QUOTE, rest, total);
      Terminate(output_length + 2);
    }

    /** What stands between the quotes. */
    method PutContents(s: seq<CByte>, escape_characters: nat, ghost rest: Chars, ghost total: seq<Byte>)
      requires Clean(1) && |s| + escape_characters == EscapedLength(s, |s|)
      requires offset + 1 + EscapedLength(s, |s|) <= buffer.Length && Owes(Out(1), EscapedFrom(s, 0, rest), total)
      modifies buffer
      ensures Clean(1 + EscapedLength(s, |s|)) && Owes(Out(1 + EscapedLength(s, |s|)), rest, total)
    {
      if escape_characters == 0 {
        PutPlain(s, 1, rest, total);
      } else {
        PutAllEscaped(s, 1, rest, total);
      }
    }

    // ---------- arrays and objects ----------

    /** Writes layout bytes, in formatted text only. */
    method PutLayout(b: CByte, n: nat, k: nat, ghost rest: Chars, ghost total: seq<Byte>) returns (k': nat)
      requires Clean(k) && offset + k + LayoutLength(format, n) <= buffer.Length
      requires Owes(Out(k), Layout(format, b, n, rest), total)
      modifies buffer
      ensures k' == k + LayoutLength(format, n) && Clean(k') && Owes(Out(k'), rest, total)
    {
      k' := k;
      if format {
        for i := 0 to n
          invariant k' == k + i && Clean(k') && Owes(Out(k'), Repeat(b, n - i, rest), total)
        {
          PutByte(k', b, Repeat(b, n - i - 1, rest), total);
          k' := k' + 1;
        }
      }
    }

    /** Room for one byte, n layout bytes and `more` bytes. */
    method EnsureLayout(one: Byte, b: CByte, n: nat, more: nat, ghost rest: Chars, ghost total: seq<Byte>)
      returns (ok: bool)
      requires Valid() && more <= 1 && Owes(Out(0), Cons(one, Layout(format, b, n, rest)), total)
      modifies this`buffer
      ensures Valid() && Out(0) == old(Out(0)) && (buffer == old(buffer) || fresh(buffer))
      ensures ok ==> offset + 1 + LayoutLength(format, n) + more + 1 <= buffer.Length
      ensures !ok ==> !Roomy(total)
    {
      OwesLess(Out(0), one, Layout(format, b, n, rest), total);
      OwesLayout(Out(0) + [one], format, b, n, rest, total);
      ok := Ensure((if format then n + 1 else 1) + more);
    }

    /** Writes one byte and layout bytes and moves past them. */
    method PutStep(one: CByte, b: CByte, n: nat, ghost rest: Chars, ghost total: seq<Byte>)
      requires Valid() && offset + 1 + LayoutLength(format, n) < buffer.Length
      requires Owes(Out(0), Cons(one, Layout(format, b, n, rest)), total)
      modifies this`offset, buffer
      ensures Valid() && Owes(Out(0), rest, total)
    {
      PutByte(0, one, Layout(format, b, n, rest), total);
      var k := PutLayout(b, n, 1, rest, total);
      offset := offset + k;
    }

    /** Prints a value; n bytes of it stand after the offset. */
    method PrintValue(v: Json, ghost rest: Chars, ghost total: seq<Byte>) returns (ok: bool, ghost n: nat)
      requires Valid() && Owes(Out(0), ValueText(v, depth, format, rest), total)
      modifies this, buffer
      ensures Valid() && (buffer == old(buffer) || fresh(buffer))
      ensures ok ==> Printed(n, rest, total) && depth == old(depth)
      ensures !ok ==> !Roomy(total)
      decreases v, 3
    {
      match v {
        case Null => ok, n := PrintWord(NullWord(), rest, total);
        case False => ok, n := PrintWord(FalseWord(), rest, total);
        case True => ok, n := PrintWord(TrueWord(), rest, total);
        case Number(i) => ok, n := PrintNumber(i, rest, total);
        case String(s) => ok, n := PrintStringPtr(s, rest, total);
        case Array(_) => ok, n := PrintArray(v, rest, total);
        case Object(_) => ok, n := PrintObject(v, rest, total);
      }
    }

    /** A value followed by moving the offset to its end. */
    method PrintWhole(v: Json, ghost rest: Chars, ghost total: seq<Byte>) returns (ok: bool)
      requires Valid() && Owes(Out(0), ValueText(v, depth, format, rest), total)
      modifies this, buffer
      ensures Valid() && (buffer == old(buffer) || fresh(buffer))
      ensures ok ==> Owes(Out(0), rest, total) && depth == old(depth)
      ensures !ok ==> !Roomy(total)
      decreases v, 4
    {
      ghost var n;
      ok, n := PrintValue(v, rest, total);
      if ok {
        UpdateOffset(n);
      }
    }

    method PrintArray(v: Json, ghost rest: Chars, ghost total: seq<Byte>) returns (ok: bool, ghost n: nat)
      requires v.Array? && Valid() && Owes(Out(0), ValueText(v, depth, format, rest), total)
      modifies this, buffer
      ensures Valid() && (buffer == old(buffer) || fresh(buffer))
      ensures ok ==> Printed(n, rest, total) && depth == old(depth)
      ensures !ok ==> !Roomy(total)
      decreases v, 2
    {
      n := 1;
      ok := OpenArray(v, rest, total);
      if ok {
        ok := PrintItems(v, Cons(0x5D, rest), total);
      }
      if ok {
        ok := Close(0x5D, 0, rest, total);
      }
    }

    method PrintItems(v: Json, ghost rest: Chars, ghost total: seq<Byte>) returns (ok: bool)
      requires v.Array? && Valid() && Owes(Out(0), ItemsText(v, 0, depth, format, rest), total)
      modifies this, buffer
      ensures Valid() && (buffer == old(buffer) || fresh(buffer))
      ensures ok ==> Owes(Out(0), rest, total) && depth == old(depth)
      ensures !ok ==> !Roomy(total)
      decreases v, 1
    {
      ok := true;
      for i := 0 to |v.items|
        invariant ok && Valid() && (buffer == old(buffer) || fresh(buffer)) && depth == old(depth)
        invariant Owes(Out(0), ItemsText(v, i, depth, format, rest), total)
      {
        ok := PrintItem(v, i, rest, total);
        if !ok {
          return;
        }
      }
    }

    /** Ends an array or an object; the closing byte stands n bytes after the offset. */
    method Close(b: CByte, n: nat, ghost rest: Chars, ghost total: seq<Byte>) returns (ok: bool)
      requires Valid() && Owes(Out(0), Layout(format, TAB, n, Cons(b, rest)), total) && depth > 0
      modifies this, buffer
      ensures Valid() && (buffer == old(buffer) || fresh(buffer))
      ensures ok ==> Printed(LayoutLength(format, n) + 1, rest, total) && depth == old(depth) - 1
      ensures !ok ==> !Roomy(total)
    {
      OwesLayout(Out(0), format, TAB, n, Cons(b, rest), total);
      ok := Ensure(if format then n + 2 else 2);
      if ok {
        PutClose(b, n, rest, total);
        depth := depth - 1;
      }
    }

    method PutClose(b: CByte, n: nat, ghost rest: Chars, ghost total: seq<Byte>)
      requires Valid() && Owes(Out(0), Layout(format, TAB, n, Cons(b, rest)), total)
      requires offset + LayoutLength(format, n) + 1 < buffer.Length
      modifies buffer
      ensures Valid() && Printed(LayoutLength(format, n) + 1, rest, total)
    {
      var k := PutLayout(TAB, n, 0, Cons(b, rest), total);
      PutByte(k, b, rest, total);
      Terminate(k + 1);
    }

    method OpenArray(v: Json, ghost rest: Chars, ghost total: seq<Byte>) returns (ok: bool)
      requires v.Array? && Valid() && Owes(Out(0), ValueText(v, depth, format, rest), total)
      modifies this, buffer
      ensures Valid() && (buffer == old(buffer) || fresh(buffer))
      ensures ok ==> depth == old(depth) + 1
      ensures ok ==> Owes(Out(0), ItemsText(v, 0, depth, format, Cons(0x5D, rest)), total)
      ensures !ok ==> !Roomy(total)
    {
      ghost var w := ItemsText(v, 0, depth + 1, format, Cons(0x5D, rest));
      OwesLess(Out(0), 0x5B, w, total);
      ok := Ensure(1);
      if ok {
        PutByte(0, 0x5B, w, total);
        offset := offset + 1;
        depth := depth + 1;
      }
    }

    /** Element i and the comma after it. */
    method PrintItem(v: Json, i: nat, ghost rest: Chars, ghost total: seq<Byte>) returns (ok: bool)
      requires v.Array? && i < |v.items| && Valid() && Owes(Out(0), ItemsText(v, i, depth, format, rest), total)
      modifies this, buffer
      ensures Valid() && (buffer == old(buffer) || fresh(buffer))
      ensures ok ==> Owes(Out(0), ItemsText(v, i + 1, depth, format, rest), total) && depth == old(depth)
      ensures !ok ==> !Roomy(total)
      decreases v, 0
    {
      ghost var next := ItemsText(v, i + 1, depth, format, rest);
      var last := i + 1 == |v.items|;
      ok := PrintWhole(v.items[i], if last then rest else Cons(COMMA, Layout(format, SPACE, 1, next)), total);
      if ok && !last {
        ok := EnsureLayout(COMMA, SPACE, 1, 1, next, total);
        if ok {
          PutStep(COMMA, SPACE, 1, next, total);
        }
      }
    }

    method PrintObject(v: Json, ghost rest: Chars, ghost total: seq<Byte>) returns (ok: bool, ghost n: nat)
      requires v.Object? && Valid() && Owes(Out(0), ValueText(v, depth, format, rest), total)
      modifies this, buffer
      ensures Valid() && (buffer == old(buffer) || fresh(buffer))
      ensures ok ==> Printed(n, rest, total) && depth == old(depth)
      ensures !ok ==> !Roomy(total)
      decreases v, 2
    {
      n := LayoutLength(format, depth) + 1;
      ok := OpenObject(v, rest, total);
      if ok {
        ok := PrintMembers(v, Layout(format, TAB, depth - 1, Cons(0x7D, rest)), total);
      }
      if ok {
        ok := Close(0x7D, depth - 1, rest, total);
      }
    }

    method OpenObject(v: Json, ghost rest: Chars, ghost total: seq<Byte>) returns (ok: bool)
      requires v.Object? && Valid() && Owes(Out(0), ValueText(v, depth, format, rest), total)
      modifies this, buffer
      ensures Valid() && (buffer == old(buffer) || fresh(buffer))
      ensures ok ==> depth == old(depth) + 1
      ensures ok ==> Owes(Out(0), MembersText(v, 0, depth, format, Layout(format, TAB, depth - 1, Cons(0x7D, rest))), total)
      ensures !ok ==> !Roomy(total)
    {
      ghost var w := MembersText(v, 0, depth + 1, format, Layout(format, TAB, depth, Cons(0x7D, rest)));
      ok := EnsureLayout(0x7B, NEWLINE, 1, 1, w, total);
      if ok {
        PutStep(0x7B, NEWLINE, 1, w, total);
        depth := depth + 1;
      }
    }

    method PrintMembers(v: Json, ghost rest: Chars, ghost total: seq<Byte>) returns (ok: bool)
      requires v.Object? && Valid() && Owes(Out(0), MembersText(v, 0, depth, format, rest), total)
      modifies this, buffer
      ensures Valid() && (buffer == old(buffer) || fresh(buffer))
      ensures ok ==> Owes(Out(0), rest, total) && depth == old(depth)
      ensures !ok ==> !Roomy(total)
      decreases v, 1
    {
      ok := true;
      for i := 0 to |v.members|
        invariant ok && Valid() && (buffer == old(buffer) || fresh(buffer)) && depth == old(depth)
        invariant Owes(Out(0), MembersText(v, i, depth, format, rest), total)
      {
        ok := PrintMember(v, i, rest, total);
        if !ok {
          return;
        }
      }
    }

    /** Member i: indentation, name, value, and the comma and line end after it. */
    method PrintMember(v: Json, i: nat, ghost rest: Chars, ghost total: seq<Byte>) returns (ok: bool)
      requires v.Object? && i < |v.members| && Valid() && Owes(Out(0), MembersText(v, i, depth, format, rest), total)
      modifies this, buffer
      ensures Valid() && (buffer == old(buffer) || fresh(buffer))
      ensures ok ==> Owes(Out(0), MembersText(v, i + 1, depth, format, rest), total) && depth == old(depth)
      ensures !ok ==> !Roomy(total)
      decreases v, 0
    {
      var m, last := v.members[i], i + 1 == |v.members|;
      ghost var next := MembersText(v, i + 1, depth, format, rest);
      ghost var value := ValueText(m.value, depth, format, AfterMember(last, format, next));
      ok := Indent(StringText(m.name, Cons(COLON, Layout(format, TAB, 1, value))), total);
      if ok {
        ok := PrintName(m.name, value, total);
      }
      if ok {
        ok := PrintWhole(m.value, AfterMember(last, format, next), total);
      }
      if ok {
        ok := EndMember(last, next, total);
      }
    }

    /** The tabs in front of a member, in formatted text only. */
    method Indent(ghost rest: Chars, ghost total: seq<Byte>) returns (ok: bool)
      requires Valid() && Owes(Out(0), Layout(format, TAB, depth, rest), total)
      modifies this`buffer, this`offset, buffer
      ensures Valid() && (buffer == old(buffer) || fresh(buffer))
      ensures ok ==> Owes(Out(0), rest, total)
      ensures !ok ==> !Roomy(total)
    {
      ok := true;
      if format {
        OwesLayout(Out(0), format, TAB, depth, rest, total);
        ok := Ensure(depth);
        if ok {
          var k := PutLayout(TAB, depth, 0, rest, total);
          offset := offset + k;
        }
      }
    }

    /** The name of a member and the colon. */
    method PrintName(name: seq<CByte>, ghost rest: Chars, ghost total: seq<Byte>) returns (ok: bool)
      requires Valid() && Owes(Out(0), StringText(name, Cons(COLON, Layout(format, TAB, 1, rest))), total)
      modifies this`buffer, this`offset, buffer
      ensures Valid() && (buffer == old(buffer) || fresh(buffer))
      ensures ok ==> Owes(Out(0), rest, total)
      ensures !ok ==> !Roomy(total)
    {
      ghost var n;
      ok, n := PrintStringPtr(name, Cons(COLON, Layout(format, TAB, 1, rest)), total);
      if ok {
        UpdateOffset(n);
        ok := EnsureLayout(COLON, TAB, 1, 0, rest, total);
        if ok {
          PutStep(COLON, TAB, 1, rest, total);
        }
      }
    }

    /** The comma after a member that is not the last one, and the end of the line. */
    method EndMember(last: bool, ghost rest: Chars, ghost total: seq<Byte>) returns (ok: bool)
      requires Valid() && Owes(Out(0), AfterMember(last, format, rest), total)
      modifies this`buffer, this`offset, buffer
      ensures Valid() && (buffer == old(buffer) || fresh(buffer))
      ensures ok ==> Owes(Out(0), rest, total)
      ensures !ok ==> !Roomy(total)
    {
      if !last {
        ok := EnsureLayout(COMMA, NEWLINE, 1, 1, rest, total);
        if ok {
          PutStep(COMMA, NEWLINE, 1, rest, total);
        }
      } else {
        OwesLayout(Out(0), format, NEWLINE, 1, rest, total);
        ok := Ensure((if format then 1 else 0) + 1);
        if ok {
          var k := PutLayout(NEWLINE, 1, 0, rest, total);
          offset := offset + k;
        }
      }
    }
  }

  /** Prints into a new buffer that grows as needed; the text ends with a zero byte. */
  method Print(v: Json, format: bool) returns (ok: bool, printed: seq<Byte>)
    ensures ok ==> printed == TextOf(v, format)
    ensures |TextOf(v, format)| + 4 <= INT_MAX ==> ok
  {
    ghost var total := TextOf(v, format);
    var buffer := new Byte[256](_ => 0);
    var p := new PrintBuffer(buffer, false, format);
    assert p.Out(0) == [] && [] + total == total;
    YieldsFlat([], ValueText(v, 0, format, Cons(0, End)), total);
    OwesIs([], ValueText(v, 0, format, Cons(0, End)), total);
    printed := [];
    ghost var n;
    ok, n := p.PrintValue(v, Cons(0, End), total);
    if ok {
      OwesIs(p.Out(n), Cons(0, End), total);
      p.UpdateOffset(n);
      printed := p.buffer[..p.offset + 1];
      assert printed == p.Out(0) + [0];
    }
  }

  lemma {:induction false} PlainStep(s: seq<CByte>, i: nat, rest: Chars)
    requires i < |s| && EscapedLength(s, |s|) == |s|
    ensures EscapedFrom(s, i, rest) == Cons(s[i], EscapedFrom(s, i + 1, rest))
  {
    NothingEscaped(s, |s|, i);
    assert Word([s[i]], EscapedFrom(s, i + 1, rest)) == Cons(s[i], EscapedFrom(s, i + 1, rest));
  }

  lemma {:induction false} EscapedMono(s: seq<CByte>, i: nat, n: nat)
    requires i <= n <= |s|
    ensures EscapedLength(s, i) <= EscapedLength(s, n)
  {
    if i < n {
      EscapedMono(s, i, n - 1);
    }
  }

  /** The escaped bytes from i on lie inside the total. */
  lemma {:induction false} EscapedFits(before: seq<Byte>, s: seq<CByte>, i: nat, rest: Chars, total: seq<Byte>)
    requires i <= |s| && Owes(before, EscapedFrom(s, i, Cons(QUOTE, rest)), total)
    ensures |before| + EscapedLength(s, |s|) - EscapedLength(s, i) < |total|
    decreases |s| - i
  {
    if i < |s| {
      OwesWord(before, Escape(s[i]), EscapedFrom(s, i + 1, Cons(QUOTE, rest)), total);
      EscapedFits(before + Escape(s[i]), s, i + 1, rest, total);
    } else {
      OwesLess(before, QUOTE, rest, total);
    }
  }

  lemma {:induction false} StringFits(before: seq<Byte>, s: seq<CByte>, rest: Chars, total: seq<Byte>)
    requires Owes(before, StringText(s, rest), total)
    ensures |before| + EscapedLength(s, |s|) + 2 <= |total|
  {
    OwesLess(before, QUOTE, EscapedFrom(s, 0, Cons(QUOTE, rest)), total);
    EscapedFits(before + [QUOTE], s, 0, rest, total);
  }
}
