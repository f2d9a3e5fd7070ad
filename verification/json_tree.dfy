/**
 The grammar of RFC 8259 sections 2 to 7: a JSON text taken apart into words, numbers, literals, and the blanks
 between them.  All its characters are written out here.
 */
module JsonTree {
  import opened JsonText

  datatype Tree =
    | NullTree
    | FalseTree
    | TrueTree
    | NumberTree(text: seq<Byte>)
    | StringTree(raw: seq<Byte>)
    | ArrayTree(open: seq<Byte>, elements: seq<Element>)
    | ObjectTree(open: seq<Byte>, pairs: seq<Pair>)

  /** An element of an array with the blanks around it; `open` above stands alone between empty brackets. */
  datatype Element = Element(before: seq<Byte>, tree: Tree, after: seq<Byte>)

  /** A member of an object: blanks, the name's literal, blanks, colon, blanks, value, blanks. */
  datatype Pair = Pair(before: seq<Byte>, name: seq<Byte>, middle: seq<Byte>, gap: seq<Byte>, tree: Tree, after: seq<Byte>)

  function Bytes(bytes: seq<Byte>, rest: Chars): Chars {
    if bytes == [] then rest else Cons(bytes[0], Bytes(bytes[1..], rest))
  }

  function LiteralText(raw: seq<Byte>, rest: Chars): Chars {
    Cons(0x22, Bytes(raw, Cons(0x22, rest)))
  }

  function Count(t: Tree): nat {
    match t
    case ArrayTree(_, elements) => |elements|
    case ObjectTree(_, pairs) => |pairs|
    case _ => 0
  }

  /** The text of a tree and what follows it. */
  ghost function TreeText(t: Tree, rest: Chars): Chars
    decreases t, Count(t) + 1
  {
    match t
    case NullTree => Bytes([0x6E, 0x75, 0x6C, 0x6C], rest)
    case FalseTree => Bytes([0x66, 0x61, 0x6C, 0x73, 0x65], rest)
    case TrueTree => Bytes([0x74, 0x72, 0x75, 0x65], rest)
    case NumberTree(text) => Bytes(text, rest)
    case StringTree(raw) => LiteralText(raw, rest)
    case ArrayTree(open, elements) =>
      Cons(0x5B, if elements == [] then Bytes(open, Cons(0x5D, rest)) else ElementsText(t, 0, Cons(0x5D, rest)))
    case ObjectTree(open, pairs) =>
      Cons(0x7B, if pairs == [] then Bytes(open, Cons(0x7D, rest)) else PairsText(t, 0, Cons(0x7D, rest)))
  }

  /** The elements from the i-th on, with commas between them. */
  ghost function ElementsText(t: Tree, i: nat, end: Chars): Chars
    requires t.ArrayTree?
    decreases t, Count(t) - i
  {
    if i >= |t.elements| then end
    else
      var e := t.elements[i];
      Bytes(e.before, TreeText(e.tree, Bytes(e.after,
        if i + 1 == |t.elements| then end else Cons(0x2C, ElementsText(t, i + 1, end)))))
  }

  /** The members from the i-th on, with commas between them. */
  ghost function PairsText(t: Tree, i: nat, end: Chars): Chars
    requires t.ObjectTree?
    decreases t, Count(t) - i
  {
    if i >= |t.pairs| then end
    else
      var e := t.pairs[i];
      Bytes(e.before, LiteralText(e.name, Bytes(e.middle, Cons(0x3A, Bytes(e.gap, TreeText(e.tree, Bytes(e.after,
        if i + 1 == |t.pairs| then end else Cons(0x2C, PairsText(t, i + 1, end)))))))))
  }

  lemma {:induction false} WordIsBytes(bytes: seq<CByte>, rest: Chars)
    ensures Word(bytes, rest) == Bytes(bytes, rest)
  {
    if bytes != [] {
      WordIsBytes(bytes[1..], rest);
    }
  }

  lemma {:induction false} BytesConcat(a: seq<Byte>, b: seq<Byte>, rest: Chars)
    ensures Bytes(a + b, rest) == Bytes(a, Bytes(b, rest))
    decreases |a|
  {
    if a == [] {
      assert a + b == b;
    } else {
      assert (a + b)[1..] == a[1..] + b;
      BytesConcat(a[1..], b, rest);
    }
  }

  lemma {:induction false} BytesStand(s: seq<Byte>, p: nat, bytes: seq<Byte>, rest: Chars)
    requires Stands(s, p, Bytes(bytes, rest))
    ensures p + |bytes| <= |s| || bytes == []
    ensures Stands(s, p + |bytes|, rest) && (bytes != [] ==> s[p..p + |bytes|] == bytes)
    decreases |bytes|
  {
    if bytes != [] {
      BytesStand(s, p + 1, bytes[1..], rest);
      assert bytes == [bytes[0]] + bytes[1..];
      if |bytes| > 1 {
        assert s[p..p + |bytes|] == [s[p]] + s[p + 1..p + |bytes|];
      }
    }
  }
}
