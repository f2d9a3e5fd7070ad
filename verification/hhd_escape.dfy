/**
 Escaping of the HHD serial protocol (hhdProtocol.cpp): the flag byte 0x7E and the escape byte 0x7D are
 written as two bytes, except for a flag at index 19; the last two bytes of a message stay as they are.
 */
module HhdEscape {
  import Bits

  type Byte = Bits.Byte

  const FLAG: Byte := 0x7E
  const ESC: Byte := 0x7D

  /** Where a flag is not escaped. */
  const KEPT := 19

  function Image(b: Byte, i: nat): seq<Byte> {
    if b == FLAG && i != KEPT then [ESC, 2] else if b == ESC then [ESC, 1] else [b]
  }

  /** Two bytes are written for 0x7D and for 0x7E, except at index 19: 0x7D and how far the byte lies above 0x7C. */
  lemma {:induction false} ImageIs(b: Byte, i: nat)
    ensures |Image(b, i)| == 2 <==> b == 0x7D || (b == 0x7E && i != 19)
    ensures Image(b, i) == if |Image(b, i)| == 2 then [0x7D, b - 0x7C] else [b]
  {
  }

  /** The bytes of s, the first of which has index i, escaped. */
  function Escaped(s: seq<Byte>, i: nat): seq<Byte> {
    if s == [] then [] else Image(s[0], i) + Escaped(s[1..], i + 1)
  }

  /** What the decoder makes of data[i..end]; an unknown escape is dropped. */
  function Restored(data: seq<Byte>, i: nat, end: nat): (s: seq<Byte>)
    requires end < |data|
    ensures i <= end ==> |s| <= end - i
    decreases |data| - i
  {
    if i >= end then []
    else if data[i] != ESC then [data[i]] + Restored(data, i + 1, end)
    else if data[i + 1] == 2 then [FLAG] + Restored(data, i + 2, end)
    else if data[i + 1] == 1 then [ESC] + Restored(data, i + 2, end)
    else Restored(data, i + 1, end)
  }

  // ---------- the methods ----------

  lemma {:induction false} EscapedSnoc(s: seq<Byte>, i: nat, b: Byte)
    ensures Escaped(s + [b], i) == Escaped(s, i) + Image(b, i + |s|)
    decreases |s|
  {
    if s == [] {
      assert s + [b] == [b];
      assert [b][1..] == [];
    } else {
      assert (s + [b])[1..] == s[1..] + [b];
      EscapedSnoc(s[1..], i + 1, b);
    }
  }

  lemma {:induction false} EscapedLength(s: seq<Byte>, i: nat)
    ensures |s| <= |Escaped(s, i)| <= 2 * |s|
    decreases |s|
  {
    if s != [] {
      EscapedLength(s[1..], i + 1);
    }
  }

  ghost predicate Untouched(cmd: array<Byte>, was: seq<Byte>, j: nat)
    reads cmd
  {
    j <= cmd.Length == |was| && cmd[j..] == was[j..]
  }

  method PutImage(cmd: array<Byte>, j: nat, b: Byte, i: nat, ghost was: seq<Byte>) returns (j': nat)
    requires Untouched(cmd, was, j) && j + 2 <= cmd.Length
    modifies cmd
    ensures j < j' <= j + 2 && Untouched(cmd, was, j')
    ensures cmd[..j'] == old(cmd[..j]) + Image(b, i)
  {
    if b == FLAG && i != KEPT {
      cmd[j], cmd[j + 1] := ESC, 2;
      j' := j + 2;
    } else if b == ESC {
      cmd[j], cmd[j + 1] := ESC, 1;
      j' := j + 2;
    } else {
      cmd[j] := b;
      j' := j + 1;
    }
    assert cmd[j'..] == cmd[j..][j' - j..];
    assert was[j'..] == was[j..][j' - j..];
  }

  method EscapeData(data: seq<Byte>, cmd: array<Byte>) returns (len: nat)
    requires 2 <= |data| && 2 * |data| <= cmd.Length
    modifies cmd
    ensures len <= cmd.Length
    ensures cmd[..len] == Escaped(data[..|data| - 2], 0) + data[|data| - 2..]
    ensures cmd[len..] == old(cmd[len..])
  {
    ghost var was := cmd[..];
    var i, j := 0, 0;
    while i < |data| - 2
      invariant i <= |data| - 2 && j <= 2 * i
      invariant cmd[..j] == Escaped(data[..i], 0)
      invariant Untouched(cmd, was, j)
    {
      EscapedSnoc(data[..i], 0, data[i]);
      assert data[..i + 1] == data[..i] + [data[i]];
      j := PutImage(cmd, j, data[i], i, was);
      i := i + 1;
    }
    cmd[j], cmd[j + 1] := data[|data| - 2], data[|data| - 1];
    len := j + 2;
    assert cmd[len..] == was[j..][2..];
  }

  /** Copies the four bytes from data[len - 3] on as they are, so one byte beyond the length is read. */
  method UnEscapeData(data: seq<Byte>, cmd: array<Byte>, len: nat)
    requires 3 <= len < |data| && len + 1 <= cmd.Length
    modifies cmd
    ensures |Restored(data, 0, len - 3)| + 4 <= cmd.Length
    ensures cmd[..|Restored(data, 0, len - 3)| + 4] == Restored(data, 0, len - 3) + data[len - 3..len + 1]
    ensures Untouched(cmd, old(cmd[..]), |Restored(data, 0, len - 3)| + 4)
  {
    ghost var was := cmd[..];
    var i, j := 0, 0;
    while i < len - 3
      invariant j <= i <= len - 2
      invariant cmd[..j] + Restored(data, i, len - 3) == Restored(data, 0, len - 3)
      invariant Untouched(cmd, was, j)
    {
      i, j := RestoreOne(data, i, cmd, j, len - 3, was);
    }
    assert cmd[..j] == Restored(data, 0, len - 3);
    CopyLast(data, cmd, j, len, was);
  }

  /** The last four bytes. */
  method CopyLast(data: seq<Byte>, cmd: array<Byte>, j: nat, len: nat, ghost was: seq<Byte>)
    requires 3 <= len < |data| && j + 4 <= cmd.Length && Untouched(cmd, was, j)
    modifies cmd
    ensures cmd[..j + 4] == old(cmd[..j]) + data[len - 3..len + 1] && Untouched(cmd, was, j + 4)
  {
    ghost var body := cmd[..j];
    cmd[j], cmd[j + 1], cmd[j + 2], cmd[j + 3] := data[len - 3], data[len - 2], data[len - 1], data[len];
    assert cmd[j + 4..] == was[j..][4..];
    assert cmd[..j] == body;
  }

  /** One turn of the loop. */
  method RestoreOne(data: seq<Byte>, i: nat, cmd: array<Byte>, j: nat, ghost end: nat, ghost was: seq<Byte>)
      returns (i': nat, j': nat)
    requires j <= i < end < |data| && end + 4 <= cmd.Length && Untouched(cmd, was, j)
    modifies cmd
    ensures i < i' <= i + 2 && j <= j' <= j + 1 && j' <= i' && i' <= end + 1
    ensures Untouched(cmd, was, j')
    ensures cmd[..j'] + Restored(data, i', end) == old(cmd[..j]) + Restored(data, i, end)
  {
    i', j' := i + 1, j;
    ghost var before := cmd[..j];
    if data[i] == ESC {
      if data[i + 1] == 2 {
        j' := Append(cmd, j, FLAG, was);
        i' := i + 2;
        Joined(before, FLAG, Restored(data, i', end));
      } else if data[i + 1] == 1 {
        j' := Append(cmd, j, ESC, was);
        i' := i + 2;
        Joined(before, ESC, Restored(data, i', end));
      }
    } else {
      j' := Append(cmd, j, data[i], was);
      Joined(before, data[i], Restored(data, i', end));
    }
  }

  lemma {:induction false} Joined(a: seq<Byte>, b: Byte, c: seq<Byte>)
    ensures a + [b] + c == a + ([b] + c)
  {
  }

  method Append(cmd: array<Byte>, j: nat, b: Byte, ghost was: seq<Byte>) returns (j': nat)
    requires Untouched(cmd, was, j) && j < cmd.Length
    modifies cmd
    ensures j' == j + 1 && Untouched(cmd, was, j')
    ensures cmd[..j'] == old(cmd[..j]) + [b]
  {
    cmd[j] := b;
    j' := j + 1;
    assert cmd[j'..] == was[j..][1..];
  }

  // ---------- round trip ----------

  lemma {:induction false} RestoredOfEscaped(s: seq<Byte>, i: nat, before: seq<Byte>, after: seq<Byte>)
    requires after != []
    ensures var data := before + Escaped(s, i) + after;
            Restored(data, |before|, |before| + |Escaped(s, i)|) == s
    decreases |s|
  {
    if s != [] {
      var head, rest := Image(s[0], i), Escaped(s[1..], i + 1);
      assert before + Escaped(s, i) + after == (before + head) + rest + after;
      RestoredOfEscaped(s[1..], i + 1, before + head, after);
    }
  }

  /** The check byte after an escaped message is copied with its last two bytes. */
  method EscapeThenUnEscape(data: seq<Byte>, check: Byte, beyond: Byte) returns (received: seq<Byte>)
    requires 2 <= |data|
    ensures received == data + [check] + [beyond]
  {
    var cmd := new Byte[2 * |data|](_ => 0);
    var len := EscapeData(data, cmd);
    ghost var body, ends := data[..|data| - 2], data[|data| - 2..];
    EscapedLength(body, 0);
    var sent := cmd[..len] + [check] + [beyond];
    SentRestored(body, ends, check, beyond, sent);
    var restored := new Byte[len + 2](_ => 0);
    UnEscapeData(sent, restored, len + 1);
    assert sent[len - 2..len + 2] == sent[|sent| - 4..];
    received := restored[..|data| + 2];
    Whole(data, check, beyond);
  }

  lemma {:induction false} Whole(data: seq<Byte>, check: Byte, beyond: Byte)
    requires 2 <= |data|
    ensures data[..|data| - 2] + (data[|data| - 2..] + [check] + [beyond]) == data + [check] + [beyond]
  {
  }

  lemma {:induction false} SentRestored(body: seq<Byte>, ends: seq<Byte>, check: Byte, beyond: Byte, sent: seq<Byte>)
    requires |ends| == 2 && sent == Escaped(body, 0) + ends + [check] + [beyond]
    ensures Restored(sent, 0, |sent| - 4) == body && sent[|sent| - 4..] == ends + [check] + [beyond]
  {
    var after := ends + [check] + [beyond];
    RestoredOfEscaped(body, 0, [], after);
    assert sent == Escaped(body, 0) + after;
    assert |after| == 4;
    assert sent == [] + Escaped(body, 0) + after;
  }

  // ---------- what can be received ----------

  /** A flag stands in the escaped bytes only where index 19 was written. */
  lemma {:induction false} OnlyKeptFlag(s: seq<Byte>, i: nat, k: nat)
    requires k < |Escaped(s, i)| && Escaped(s, i)[k] == FLAG
    ensures i <= KEPT < i + |s| && s[KEPT - i] == FLAG && k == |Escaped(s[..KEPT - i], i)|
    decreases |s|
  {
    var head := Image(s[0], i);
    if k < |head| {
      assert s[..0] == [];
    } else {
      OnlyKeptFlag(s[1..], i + 1, k - |head|);
      var t := s[..KEPT - i];
      assert t[1..] == s[1..][..KEPT - (i + 1)];
    }
  }

  /** data[p..end] consists of known escapes, other bytes than the flag, and the flag of index 19; i counts them. */
  predicate Clean(data: seq<Byte>, p: nat, end: nat, i: nat)
    requires p <= end < |data|
    decreases end - p
  {
    if p == end then true
    else if data[p] == FLAG then i == KEPT && Clean(data, p + 1, end, i + 1)
    else if data[p] != ESC then Clean(data, p + 1, end, i + 1)
    else
      && p + 1 < end && (data[p + 1] == 1 || (data[p + 1] == 2 && i != KEPT))
      && Clean(data, p + 2, end, i + 1)
  }

  /** Exactly the clean texts are what the encoder writes for the bytes that the decoder restores from them. */
  lemma {:induction false} CleanIsEscaped(data: seq<Byte>, p: nat, end: nat, i: nat)
    requires p <= end < |data|
    ensures Clean(data, p, end, i) <==> Escaped(Restored(data, p, end), i) == data[p..end]
    decreases end - p
  {
    if p < end {
      var s := Restored(data, p, end);
      if data[p] != ESC {
        CleanIsEscaped(data, p + 1, end, i + 1);
        assert data[p..end] == [data[p]] + data[p + 1..end];
        assert s[1..] == Restored(data, p + 1, end);
        assert Escaped(s, i) == Image(data[p], i) + Escaped(s[1..], i + 1);
        if data[p] == FLAG && i != KEPT {
          assert Escaped(s, i)[0] != data[p..end][0];
        } else {
          assert Escaped(s, i)[1..] == Escaped(s[1..], i + 1);
          assert data[p..end][1..] == data[p + 1..end];
        }
      } else {
        EscapeIsEscaped(data, p, end, i);
      }
    }
  }

  /** The same where an escape byte comes first. */
  lemma {:induction false} EscapeIsEscaped(data: seq<Byte>, p: nat, end: nat, i: nat)
    requires p < end < |data| && data[p] == ESC
    ensures Clean(data, p, end, i) <==> Escaped(Restored(data, p, end), i) == data[p..end]
    decreases end - p, 0
  {
    var s := Restored(data, p, end);
    var e := Escaped(s, i);
    assert data[p..end][0] == ESC;
    if data[p + 1] == 1 || data[p + 1] == 2 {
      assert s[1..] == Restored(data, p + 2, end);
      if data[p + 1] == 2 && i == KEPT {
        assert e[0] == FLAG;
      } else if p + 1 < end {
        CleanIsEscaped(data, p + 2, end, i + 1);
        PairsAgree(e, data[p..end]);
        assert data[p..end][2..] == data[p + 2..end];
        assert e[2..] == Escaped(s[1..], i + 1);
        assert data[p..end][1] == data[p + 1];
      } else {
        assert |e| >= 2;
      }
    } else {
      EscapeFollowed(s, i);
      if p + 1 < end {
        assert data[p..end][1] == data[p + 1];
      }
    }
  }

  lemma {:induction false} PairsAgree(a: seq<Byte>, b: seq<Byte>)
    requires |a| >= 2 && |b| >= 2
    ensures a == b <==> a[0] == b[0] && a[1] == b[1] && a[2..] == b[2..]
  {
    assert a == [a[0], a[1]] + a[2..];
    assert b == [b[0], b[1]] + b[2..];
  }

  /** An escape byte that was written is followed by 1 or 2. */
  lemma {:induction false} EscapeFollowed(s: seq<Byte>, i: nat)
    ensures Escaped(s, i) != [] && Escaped(s, i)[0] == ESC ==>
              |Escaped(s, i)| >= 2 && (Escaped(s, i)[1] == 1 || Escaped(s, i)[1] == 2)
  {
  }
}
