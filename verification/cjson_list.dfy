/**
 The doubly linked sibling list of cJSON.c.  The `prev` of the first item is the last item, so that
 appending takes constant time; the `next` of the last item is null.  Every operation is proved to do
 to the list what its name says for sequences.
 */
module CJsonList {
  import opened JsonText

  datatype Kind = KNull | KFalse | KTrue | KNumber | KString | KArray | KObject

  datatype Text = NoText | Text(s: seq<CByte>)

  /** What an item holds besides its place in a list; `reference` marks an item whose value belongs to another. */
  datatype Label = Label(kind: Kind, reference: bool, valueint: Int32, valuestring: Text, name: Text)

  class Item {
    var next: Item?
    var prev: Item?
    var child: Item?
    const data: Label

    constructor (data: Label)
      ensures next == null && prev == null && child == null && this.data == data
    {
      this.data := data;
      next, prev, child := null, null, null;
    }
  }

  /** Element k, or null past the end. */
  function At(s: seq<Item>, k: nat): (x: Item?)
    ensures x == null <==> k >= |s|
    ensures k < |s| ==> x == s[k]
  {
    if k < |s| then s[k] else null
  }

  /** What the prev of element i must be. */
  function Before(s: seq<Item>, i: nat): Item
    requires i < |s|
  {
    if i > 0 then s[i - 1] else s[|s| - 1]
  }

  /** The items and no others are the children, in this order. */
  ghost predicate Children(parent: Item, s: seq<Item>)
    reads parent`child, s
  {
    && parent !in s && Distinct(s) && parent.child == At(s, 0)
    && forall i :: 0 <= i < |s| ==> Linked(s, i)
  }

  ghost predicate Linked(s: seq<Item>, i: nat)
    requires i < |s|
    reads s[i]
  {
    s[i].next == At(s, i + 1) && s[i].prev == Before(s, i)
  }

  ghost predicate Distinct(s: seq<Item>) {
    forall i, j :: 0 <= i < j < |s| ==> s[i] != s[j]
  }

  function Obj(x: Item?): set<object> {
    if x == null then {} else {x}
  }

  ghost function Objs(s: seq<Item>): set<object> {
    set x | x in s
  }

  /** The child at an index, or null past the end. */
  method GetArrayItem(parent: Item?, index: nat, ghost s: seq<Item>) returns (item: Item?)
    requires parent != null ==> Children(parent, s)
    ensures item == (if parent == null then null else At(s, index))
  {
    if parent == null {
      return null;
    }
    item := parent.child;
    var i: nat := index;
    ghost var k := 0;
    while item != null && i > 0
      invariant k + i == index && k <= |s| && item == At(s, k)
      decreases i
    {
      assert Linked(s, k);
      i := i - 1;
      item := item.next;
      k := k + 1;
    }
  }

  method GetArraySize(parent: Item?, ghost s: seq<Item>) returns (size: nat)
    requires parent != null ==> Children(parent, s)
    ensures size == if parent == null then 0 else |s|
  {
    size := 0;
    if parent == null {
      return;
    }
    var child := parent.child;
    while child != null
      invariant size <= |s| && child == At(s, size)
      decreases |s| - size
    {
      assert Linked(s, size);
      size := size + 1;
      child := child.next;
    }
  }

  // ---------- appending ----------

  /** Links item after prev. */
  method SuffixObject(prev: Item, item: Item)
    modifies prev`next, item`prev
    ensures prev.next == item && item.prev == prev
  {
    prev.next := item;
    item.prev := prev;
  }

  /**
   Appends an item that is not a child yet.  The item's own `next` is left alone when there are
   children already: the result is well linked exactly when it was null.
   */
  method AddItemToArray(parent: Item?, item: Item?, ghost s: seq<Item>) returns (ok: bool)
    requires parent != null ==> Children(parent, s) && item !in s
    modifies Obj(parent), Obj(item), if parent != null then Objs(s) else {}
    ensures ok <==> item != null && parent != null && parent != item
    ensures ok ==> (Children(parent, s + [item]) <==> s == [] || old(item.next) == null)
    ensures ok && s != [] ==> parent.child == s[0] && s[|s| - 1].next == item && item.next == old(item.next)
    ensures !ok && parent != null ==> Children(parent, s)
  {
    if item == null || parent == null || parent == item {
      return false;
    }
    var child := parent.child;
    ghost var t := s + [item];
    if child == null {
      parent.child := item;
      item.prev := item;
      item.next := null;
      assert Linked(t, 0);
    } else {
      assert Linked(s, 0) && Linked(s, |s| - 1);
      if child.prev != null {
        SuffixObject(child.prev, item);
        parent.child.prev := item;
      }
      forall i | 0 <= i < |s|
        ensures Linked(t, i)
      {
        assert old(Linked(s, i));
      }
      assert Linked(t, |s|) <==> item.next == null;
    }
    ok := true;
  }

  /** The first child of another array takes that array's other children along: they are reached from both. */
  method AppendForeign(parent: Item, ghost s: seq<Item>, ghost other: Item, first: Item, ghost t: seq<Item>)
      returns (ok: bool)
    requires Children(parent, s) && Children(other, t) && s != [] && |t| >= 2 && first == t[0]
    requires parent != other && parent !in t && other !in s && first !in s
    modifies parent, first, Objs(s)
    ensures ok && !Children(parent, s + [first])
    ensures parent.child == s[0] && s[|s| - 1].next == first && first.next == t[1] && other.child == first
  {
    assert Linked(t, 0);
    ok := AddItemToArray(parent, first, s);
  }

  // ---------- detaching ----------

  /** The list without its element k. */
  function Without(s: seq<Item>, k: nat): (r: seq<Item>)
    requires k < |s|
    ensures |r| == |s| - 1
    ensures forall i :: 0 <= i < |r| ==> r[i] == if i < k then s[i] else s[i + 1]
  {
    s[..k] + s[k + 1..]
  }

  /** What becomes of the next and prev of the other children when child k is unlinked. */
  function NextWithout(s: seq<Item>, k: nat, i: nat): Item?
    requires k < |s| && i < |s|
  {
    if i + 1 == k then At(s, k + 1) else At(s, i + 1)
  }

  function PrevWithout(s: seq<Item>, k: nat, i: nat): Item
    requires k < |s| && i < |s|
  {
    if i == k + 1 || (i == 0 && k + 1 == |s|) then Before(s, k) else Before(s, i)
  }

  lemma {:induction false} Unlinked(parent: Item, s: seq<Item>, k: nat)
    requires k < |s| && Distinct(s) && parent !in s
    requires parent.child == if k == 0 then At(s, 1) else At(s, 0)
    requires forall i :: 0 <= i < |s| && i != k ==>
               s[i].next == NextWithout(s, k, i) && s[i].prev == PrevWithout(s, k, i)
    ensures Children(parent, Without(s, k))
  {
    var t := Without(s, k);
    DistinctWithout(parent, s, k);
    forall i | 0 <= i < |t|
      ensures Linked(t, i)
    {
      NeighboursWithout(s, k, i);
      var j := if i < k then i else i + 1;
      assert t[i] == s[j] && s[j].next == NextWithout(s, k, j) && s[j].prev == PrevWithout(s, k, j);
    }
  }

  lemma {:induction false} DistinctWithout(parent: Item, s: seq<Item>, k: nat)
    requires k < |s| && Distinct(s) && parent !in s
    ensures Distinct(Without(s, k)) && parent !in Without(s, k)
    ensures At(Without(s, k), 0) == if k == 0 then At(s, 1) else At(s, 0)
  {
  }

  /** Neighbours in the shorter list. */
  lemma {:induction false} NeighboursWithout(s: seq<Item>, k: nat, i: nat)
    requires k < |s| && i < |s| - 1
    ensures var j := if i < k then i else i + 1;
            At(Without(s, k), i + 1) == NextWithout(s, k, j) && Before(Without(s, k), i) == PrevWithout(s, k, j)
  {
  }

  /** Unlinks child k; an item without `prev` that is not the first child is refused. */
  method DetachItemViaPointer(parent: Item?, item: Item?, ghost s: seq<Item>, ghost k: nat) returns (r: Item?)
    requires parent != null ==> Children(parent, s)
    requires parent != null && item != null ==> if k < |s| then item == s[k] else item !in s && item.prev == null
    modifies Obj(parent), Obj(item), if parent != null then Objs(s) else {}
    ensures r == if parent != null && item != null && k < |s| then item else null
    ensures r != null ==> Children(parent, Without(s, k)) && r.prev == null && r.next == null
    ensures r == null && parent != null ==> Children(parent, s)
  {
    assert parent != null && item != null && k < |s| ==> Linked(s, k);
    if parent == null || item == null || (item != parent.child && item.prev == null) {
      return null;
    }
    Unlink(parent, item, s, k);
    r := item;
  }

  method Unlink(parent: Item, item: Item, ghost s: seq<Item>, ghost k: nat)
    requires Children(parent, s) && k < |s| && item == s[k]
    modifies parent, Objs(s)
    ensures Children(parent, Without(s, k)) && item.prev == null && item.next == null
  {
    assert Linked(s, k) && Linked(s, 0);
    if item != parent.child {
      item.prev.next := item.next;
    }
    if item.next != null {
      item.next.prev := item.prev;
    }
    if item == parent.child {
      parent.child := item.next;
    } else if item.next == null {
      parent.child.prev := item.prev;
    }
    item.prev := null;
    item.next := null;
    forall i | 0 <= i < |s| && i != k
      ensures s[i].next == NextWithout(s, k, i) && s[i].prev == PrevWithout(s, k, i)
    {
      assert old(Linked(s, i));
    }
    Unlinked(parent, s, k);
  }

  method DetachItemFromArray(parent: Item?, which: int, ghost s: seq<Item>) returns (r: Item?)
    requires parent != null ==> Children(parent, s)
    modifies Obj(parent), if parent != null then Objs(s) else {}
    ensures r == if parent != null && which >= 0 then At(s, which) else null
    ensures r != null ==> Children(parent, Without(s, which)) && r.prev == null && r.next == null
    ensures r == null && parent != null ==> Children(parent, s)
  {
    if which < 0 {
      return null;
    }
    var item := GetArrayItem(parent, which, s);
    r := DetachItemViaPointer(parent, item, s, which);
  }

  // ---------- inserting ----------

  /** The list with x before element k. */
  function WithBefore(s: seq<Item>, k: nat, x: Item): (r: seq<Item>)
    requires k <= |s|
    ensures |r| == |s| + 1
    ensures forall i :: 0 <= i < |r| ==> r[i] == if i < k then s[i] else if i == k then x else s[i - 1]
  {
    s[..k] + [x] + s[k..]
  }

  /** What becomes of the next and prev of the children when x is inserted before child k. */
  ghost predicate Pushed(s: seq<Item>, k: nat, x: Item, i: nat)
    requires i < |s|
    reads s[i]
  {
    && s[i].next == (if i + 1 == k then x else At(s, i + 1))
    && s[i].prev == (if i == k then x else Before(s, i))
  }

  lemma {:induction false} InsertedAt(s: seq<Item>, k: nat, x: Item, i: nat)
    requires k < |s| && i <= |s| && x.next == s[k] && x.prev == Before(s, k)
    requires i < k ==> Pushed(s, k, x, i)
    requires i > k ==> Pushed(s, k, x, i - 1)
    ensures Linked(WithBefore(s, k, x), i)
  {
  }

  lemma {:induction false} Inserted(parent: Item, s: seq<Item>, k: nat, x: Item)
    requires k < |s| && Distinct(s) && parent !in s && x !in s && x != parent
    requires parent.child == (if k == 0 then x else s[0]) && x.next == s[k] && x.prev == Before(s, k)
    requires forall i :: 0 <= i < |s| ==> Pushed(s, k, x, i)
    ensures Children(parent, WithBefore(s, k, x))
  {
    forall i | 0 <= i < |s| + 1
      ensures Linked(WithBefore(s, k, x), i)
    {
      InsertedAt(s, k, x, i);
    }
    StillDistinct(s, k, x);
  }

  lemma {:induction false} StillDistinct(s: seq<Item>, k: nat, x: Item)
    requires k <= |s| && Distinct(s) && x !in s
    ensures Distinct(WithBefore(s, k, x))
  {
  }

  /** Inserts before child `which`, or appends when there are fewer children. */
  method InsertItemInArray(parent: Item, which: int, newitem: Item?, ghost s: seq<Item>) returns (ok: bool)
    requires Children(parent, s) && newitem !in s
    modifies parent, Obj(newitem), Objs(s)
    ensures which < 0 || newitem == null ==> !ok
    ensures !ok ==> Children(parent, s)
    ensures which >= 0 && newitem != null && parent != newitem ==>
              && ok
              && (Children(parent, WithBefore(s, if which < |s| then which else |s|, newitem))
                  <==> which < |s| || s == [] || old(newitem.next) == null)
  {
    if which < 0 || newitem == null {
      return false;
    }
    var after_inserted := GetArrayItem(parent, which, s);
    if after_inserted == null {
      assert WithBefore(s, |s|, newitem) == s + [newitem];
      ok := AddItemToArray(parent, newitem, s);
      return;
    }
    assert Linked(s, which);
    if after_inserted != parent.child && after_inserted.prev == null {
      return false;
    }
    newitem.next := after_inserted;
    newitem.prev := after_inserted.prev;
    after_inserted.prev := newitem;
    if after_inserted == parent.child {
      parent.child := newitem;
    } else {
      newitem.prev.next := newitem;
    }
    if parent != newitem {
      forall i | 0 <= i < |s|
        ensures Pushed(s, which, newitem, i)
      {
        assert old(Linked(s, i));
      }
      Inserted(parent, s, which, newitem);
    }
    ok := true;
  }

  // ---------- replacing ----------

  /** Replaces child k; the old item is unlinked. */
  method ReplaceItemViaPointer(parent: Item?, item: Item?, replacement: Item?, ghost s: seq<Item>, ghost k: nat)
    returns (ok: bool)
    requires parent != null ==> Children(parent, s)
    requires parent != null && parent.child != null && item != null && replacement != null && replacement != item ==>
               k < |s| && item == s[k] && replacement !in s && replacement != parent
    modifies Obj(parent), Obj(item), Obj(replacement), if parent != null then Objs(s) else {}
    ensures ok <==> parent != null && old(parent.child) != null && item != null && replacement != null
    ensures ok && replacement != item ==>
              Children(parent, s[k := replacement]) && item.next == null && item.prev == null
    ensures parent != null && (!ok || replacement == item) ==> Children(parent, s)
  {
    if parent == null || parent.child == null || replacement == null || item == null {
      return false;
    }
    if replacement == item {
      return true;
    }
    assert Linked(s, k) && Linked(s, 0);
    replacement.next := item.next;
    replacement.prev := item.prev;
    if replacement.next != null {
      replacement.next.prev := replacement;
    }
    if parent.child == item {
      if parent.child.prev == parent.child {
        replacement.prev := replacement;
      }
      parent.child := replacement;
    } else {
      if replacement.prev != null {
        replacement.prev.next := replacement;
      }
      if replacement.next == null {
        parent.child.prev := replacement;
      }
    }
    item.next := null;
    item.prev := null;
    ghost var t := s[k := replacement];
    forall i | 0 <= i < |t|
      ensures Linked(t, i)
    {
      assert old(Linked(s, i));
    }
    ok := true;
  }
}
