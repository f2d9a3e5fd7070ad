/**
 Copies of trees of items (cJSON_Duplicate): a copy consists of new items only, is linked like the original
 at every level, and holds the same values.
 */
module CJsonDuplicate {
  import opened JsonText
  import opened CJsonList
  import CJsonCompare

  const CIRCULAR_LIMIT := 10000

  // ---------- trees of items ----------

  /** An item, the trees of its children in the order of the list, and the items that these consist of. */
  datatype Tree = Tree(root: Item, kids: seq<Tree>, below: set<object>)

  ghost function Items(t: Tree): set<object> {
    {t.root} + t.below
  }

  function Roots(kids: seq<Tree>): (s: seq<Item>)
    ensures |s| == |kids| && forall i :: 0 <= i < |s| ==> s[i] == kids[i].root
  {
    seq(|kids|, i requires 0 <= i < |kids| => kids[i].root)
  }

  ghost predicate KidInside(t: Tree, i: nat)
    requires i < |t.kids|
  {
    && t.kids[i].root !in t.kids[i].below && Items(t.kids[i]) <= t.below
    && forall j :: 0 <= j < i ==> Items(t.kids[j]) !! Items(t.kids[i])
  }

  /** No item occurs twice. */
  ghost predicate Apart(t: Tree) {
    t.root !in t.below && forall i :: 0 <= i < |t.kids| ==> KidInside(t, i)
  }

  /** At every level the children are linked as a list. */
  ghost predicate Shaped(t: Tree)
    reads t.root`child, t.below
    decreases t
  {
    && Apart(t)
    && (forall i :: 0 <= i < |t.kids| ==> KidInside(t, i) && t.kids[i].root in t.below && Shaped(t.kids[i]))
    && Children(t.root, Roots(t.kids))
  }

  /** Item i of a list whose first item lacks its prev. */
  ghost predicate ChainedAt(s: seq<Item>, i: nat)
    requires i < |s|
    reads s[i]
  {
    s[i].next == At(s, i + 1) && (i > 0 ==> s[i].prev == s[i - 1])
  }

  /** A value of its own. */
  function Owned(d: Label): Label {
    d.(reference := false)
  }

  /** The copy holds what the original holds, but as its own. */
  ghost predicate Matches(copy: Tree, t: Tree) {
    && copy.root.data == Owned(t.root.data) && |copy.kids| == |t.kids|
    && forall i :: 0 <= i < |t.kids| ==> Matches(copy.kids[i], t.kids[i])
  }

  /** No item with children lies at the limit or below it. */
  ghost predicate Shallow(t: Tree, depth: nat)
    decreases t
  {
    t.kids == [] || (depth < CIRCULAR_LIMIT && forall i :: 0 <= i < |t.kids| ==> Shallow(t.kids[i], depth + 1))
  }

  // ---------- copying ----------

  /** The first n children match. */
  ghost predicate Matched(copy: Tree, t: Tree, n: nat) {
    n <= |copy.kids| && n <= |t.kids| && forall i :: 0 <= i < n ==> Matches(copy.kids[i], t.kids[i])
  }

  /** The trees of the children are shaped. */
  ghost predicate KidsShaped(t: Tree)
    requires Apart(t)
    reads t.below
  {
    forall i :: 0 <= i < |t.kids| ==> KidInside(t, i) && t.kids[i].root in t.below && Shaped(t.kids[i])
  }

  /** They are also linked up to the last one. */
  ghost predicate Chained(t: Tree)
    reads t.root`child, t.below
  {
    && Apart(t) && t.root.child == At(Roots(t.kids), 0) && KidsShaped(t)
    && Chain(Roots(t.kids))
  }

  /** The root of the last child. */
  function Last(kids: seq<Tree>): Item? {
    if kids == [] then null else kids[|kids| - 1].root
  }

  function One(x: Item?): set<Item> {
    if x == null then {} else {x}
  }

  ghost function With(copy: Tree, d: Tree): Tree {
    Tree(copy.root, copy.kids + [d], copy.below + Items(d))
  }

  /** One more child, made of other items. */
  lemma {:induction false} WithApart(copy: Tree, d: Tree)
    requires Apart(copy) && Apart(d) && Items(d) !! Items(copy)
    ensures Apart(With(copy, d))
  {
    var more := With(copy, d);
    forall i | 0 <= i < |more.kids|
      ensures KidInside(more, i)
    {
      if i < |copy.kids| {
        assert KidInside(copy, i);
      } else {
        forall j | 0 <= j < i
          ensures Items(more.kids[j]) !! Items(more.kids[i])
        {
          assert KidInside(copy, j);
        }
      }
    }
  }

  /** The roots of the children, and those below them, are different. */
  lemma {:induction false} RootsOutside(t: Tree, i: nat, j: nat)
    requires Apart(t) && i < |t.kids| && j < |t.kids|
    ensures t.kids[i].root !in t.kids[j].below && t.root !in Items(t.kids[j])
    ensures i != j ==> t.kids[i].root != t.kids[j].root
    ensures t.kids[i].root in t.below && t.kids[i].below <= t.below
  {
    assert KidInside(t, i) && KidInside(t, j);
  }

  /** Items linked one after the other, the last one to null. */
  ghost predicate Chain(s: seq<Item>)
    reads s
  {
    forall i :: 0 <= i < |s| ==> ChainedAt(s, i)
  }

  /** Links an item after the others. */
  method LinkLast(next: Item?, x: Item, ghost s: seq<Item>)
    requires Chain(s) && Distinct(s) && x !in s && x.next == null && next == (if s == [] then null else s[|s| - 1])
    modifies x`prev, One(next)`next
    ensures Chain(s + [x])
  {
    if next != null {
      next.next := x;
      x.prev := next;
    }
    ghost var t := s + [x];
    forall i | 0 <= i < |t|
      ensures ChainedAt(t, i)
    {
      assert i < |s| ==> old(ChainedAt(s, i));
    }
  }

  /** The same for the roots of trees, whose shapes it does not disturb. */
  method LinkRoot(next: Item?, x: Item, ghost s: seq<Item>, ghost t: Tree)
    requires Apart(t) && KidsShaped(t) && Roots(t.kids) == s + [x]
    requires Chain(s) && x.next == null && next == (if s == [] then null else s[|s| - 1])
    modifies x`prev, One(next)`next
    ensures KidsShaped(t) && Chain(s + [x])
  {
    DistinctRoots(t);
    ghost var n := |s|;
    assert x == Roots(t.kids)[n] && (forall i :: 0 <= i < n ==> s[i] == Roots(t.kids)[i]);
    LinkLast(next, x, s);
    forall j | 0 <= j < |t.kids|
      ensures KidInside(t, j) && t.kids[j].root in t.below && Shaped(t.kids[j])
    {
      assert old(Shaped(t.kids[j]));
      RootsOutside(t, n, j);
      if n > 0 {
        RootsOutside(t, n - 1, j);
      }
    }
  }

  /** Makes a child the first one. */
  method SetChild(x: Item, y: Item, ghost t: Tree)
    requires Apart(t) && KidsShaped(t) && x == t.root
    modifies x`child
    ensures x.child == y && KidsShaped(t)
  {
    x.child := y;
    forall j | 0 <= j < |t.kids|
      ensures KidInside(t, j) && t.kids[j].root in t.below && Shaped(t.kids[j])
    {
      RootsOutside(t, j, j);
      assert old(Shaped(t.kids[j]));
    }
  }

  /** Links a copy of the next child after the others. */
  method Attach(newitem: Item, next: Item?, newchild: Item, ghost copy: Tree, ghost d: Tree)
    requires Chained(copy) && copy.root == newitem && next == Last(copy.kids)
    requires Shaped(d) && d.root == newchild && newchild.next == null && Items(d) !! Items(copy)
    modifies newitem`child, newchild`prev, One(next)`next
    ensures Chained(With(copy, d))
    ensures newitem.child == if next == null then newchild else old(newitem.child)
  {
    ghost var more := With(copy, d);
    MoreShaped(copy, d);
    assert Roots(more.kids) == Roots(copy.kids) + [newchild];
    if next == null {
      SetChild(newitem, newchild, more);
    }
    LinkRoot(next, newchild, Roots(copy.kids), more);
  }

  lemma {:induction false} MoreShaped(copy: Tree, d: Tree)
    requires Chained(copy) && Shaped(d) && Items(d) !! Items(copy)
    ensures Apart(With(copy, d)) && KidsShaped(With(copy, d))
  {
    var more := With(copy, d);
    WithApart(copy, d);
    forall j | 0 <= j < |more.kids|
      ensures KidInside(more, j) && more.kids[j].root in more.below && Shaped(more.kids[j])
    {
      RootsOutside(more, j, j);
      if j < |copy.kids| {
        assert KidInside(copy, j);
      }
    }
  }

  lemma {:induction false} DistinctRoots(t: Tree)
    requires Apart(t)
    ensures Distinct(Roots(t.kids)) && t.root !in Roots(t.kids)
  {
    forall i, j | 0 <= i < j < |t.kids|
      ensures Roots(t.kids)[i] != Roots(t.kids)[j]
    {
      RootsOutside(t, i, j);
    }
    forall i | 0 <= i < |t.kids|
      ensures Roots(t.kids)[i] != t.root
    {
      RootsOutside(t, i, i);
    }
  }

  /** Closes the list of children. */
  method Close(newitem: Item, newchild: Item?, ghost copy: Tree)
    requires Chained(copy) && copy.root == newitem && newchild == Last(copy.kids)
    modifies One(newitem.child)`prev
    ensures Shaped(copy)
  {
    if newitem.child != null {
      CloseRoots(newitem.child, newchild, Roots(copy.kids), copy);
    }
    ClosedIsShaped(copy);
  }

  method CloseRoots(first: Item, last: Item?, ghost s: seq<Item>, ghost t: Tree)
    requires Apart(t) && KidsShaped(t) && Roots(t.kids) == s
    requires Chain(s) && s != [] && first == s[0] && last == s[|s| - 1]
    modifies first`prev
    ensures KidsShaped(t) && forall i :: 0 <= i < |s| ==> Linked(s, i)
  {
    DistinctRoots(t);
    first.prev := last;
    forall j | 0 <= j < |t.kids|
      ensures KidInside(t, j) && t.kids[j].root in t.below && Shaped(t.kids[j])
    {
      assert old(Shaped(t.kids[j]));
      RootsOutside(t, 0, j);
    }
    forall i | 0 <= i < |s|
      ensures Linked(s, i)
    {
      assert old(ChainedAt(s, i));
    }
  }

  lemma {:induction false} ClosedIsShaped(t: Tree)
    requires Apart(t) && KidsShaped(t) && t.root.child == At(Roots(t.kids), 0)
    requires forall i :: 0 <= i < |Roots(t.kids)| ==> Linked(Roots(t.kids), i)
    ensures Shaped(t)
  {
    DistinctRoots(t);
  }

  // ---------- copying ----------

  /** The first n children are not too deep. */
  ghost predicate ShallowKids(t: Tree, depth: nat, n: nat) {
    n <= |t.kids| && (n == 0 || depth < CIRCULAR_LIMIT) && forall i :: 0 <= i < n ==> Shallow(t.kids[i], depth + 1)
  }

  lemma {:induction false} ShallowNext(t: Tree, depth: nat, k: nat)
    requires k < |t.kids|
    ensures depth < CIRCULAR_LIMIT && Shallow(t.kids[k], depth + 1) && ShallowKids(t, depth, k) ==> ShallowKids(t, depth, k + 1)
    ensures depth >= CIRCULAR_LIMIT || !Shallow(t.kids[k], depth + 1) ==> !Shallow(t, depth)
  {
  }

  lemma {:induction false} ShallowAll(t: Tree, depth: nat)
    requires ShallowKids(t, depth, |t.kids|)
    ensures Shallow(t, depth)
  {
  }

  /**
   Copies a tree, or its root alone.  It fails exactly when an item with children lies at the limit; the
   original is left as it is.
   */
  method DuplicateRec(item: Item?, depth: nat, recurse: bool, ghost t: Tree) returns (r: Item?, ghost copy: Tree)
    requires item != null ==> t.root == item && Shaped(t)
    ensures r == null <==> item == null || (recurse && !Shallow(t, depth))
    ensures r != null ==> copy.root == r && fresh(Items(copy)) && Shaped(copy) && r.next == null && r.prev == null
    ensures r != null ==> if recurse then Matches(copy, t) else copy.kids == [] && r.data == Owned(t.root.data)
    decreases t, 2
  {
    r, copy := null, t;
    if item == null {
      return;
    }
    var newitem := new Item(Owned(item.data));
    if !recurse {
      r, copy := newitem, Tree(newitem, [], {});
      return;
    }
    var ok;
    ok, copy := CopyChildren(newitem, item, depth, t);
    if ok {
      r := newitem;
    }
  }

  /** The first children are copied and linked below newitem; child is the next one. */
  ghost predicate Walking(t: Tree, depth: nat, copy: Tree, child: Item?, next: Item?)
    reads t.root`child, t.below, copy.root`child, copy.below
  {
    && Shaped(t) && Chained(copy) && next == Last(copy.kids) && copy.root !in Items(t) && copy.below !! Items(t)
    && child == At(Roots(t.kids), |copy.kids|)
    && Matched(copy, t, |copy.kids|) && ShallowKids(t, depth, |copy.kids|)
  }

  /** Copies the next child. */
  method CopyNext(child: Item, depth: nat, ghost t: Tree, ghost copy: Tree, ghost next: Item?)
      returns (newchild: Item?, ghost d: Tree)
    requires Walking(t, depth, copy, child, next)
    ensures Walking(t, depth, copy, child, next) && |copy.kids| < |t.kids|
    ensures newchild == null <==> !Shallow(t.kids[|copy.kids|], depth + 1)
    ensures newchild != null ==> Copy(d, t.kids[|copy.kids|], newchild) && fresh(Items(d))
    ensures newchild != null ==> Items(d) !! Items(copy) + Items(t)
    decreases t, 0
  {
    KidAt(t, |copy.kids|);
    newchild, d := CopyKid(child, depth, t.kids[|copy.kids|], Items(copy) + Items(t));
  }

  method CopyKid(child: Item, depth: nat, ghost t: Tree, ghost before: set<object>)
      returns (newchild: Item?, ghost d: Tree)
    requires t.root == child && Shaped(t)
    ensures newchild == null <==> !Shallow(t, depth + 1)
    ensures newchild != null ==> Copy(d, t, newchild) && fresh(Items(d)) && Items(d) !! before
    decreases t, 3
  {
    newchild, d := DuplicateRec(child, depth + 1, true, t);
  }

  ghost predicate Copy(d: Tree, t: Tree, r: Item)
    reads d.root, d.below
  {
    d.root == r && Shaped(d) && Matches(d, t) && r.next == null
  }

  /** Links the copy and goes on to the next child. */
  method Step(newitem: Item, next: Item?, newchild: Item, child: Item, ghost t: Tree, ghost depth: nat,
              ghost copy: Tree, ghost d: Tree) returns (following: Item?)
    requires Walking(t, depth, copy, child, next) && copy.root == newitem && |copy.kids| < |t.kids|
    requires Copy(d, t.kids[|copy.kids|], newchild) && Items(d) !! Items(copy) + Items(t)
    requires depth < CIRCULAR_LIMIT && Shallow(t.kids[|copy.kids|], depth + 1)
    modifies newitem`child, newchild`prev, One(next)`next
    ensures Walking(t, depth, With(copy, d), following, newchild)
    ensures newitem.child == if next == null then newchild else old(newitem.child)
  {
    ghost var k := |copy.kids|;
    NextOutside(t, copy, next);
    Attach(newitem, next, newchild, copy, d);
    KidAt(t, k);
    ShallowNext(t, depth, k);
    MoreMatched(copy, With(copy, d), t, k);
    following := child.next;
  }

  lemma {:induction false} NextOutside(t: Tree, copy: Tree, next: Item?)
    requires Apart(copy) && next == Last(copy.kids) && copy.below !! Items(t)
    ensures next != null ==> next !in Items(t)
  {
    if next != null {
      assert KidInside(copy, |copy.kids| - 1);
    }
  }

  lemma {:induction false} MoreMatched(copy: Tree, more: Tree, t: Tree, k: nat)
    requires Matched(copy, t, k) && k < |t.kids| && |copy.kids| == k && |more.kids| == k + 1
    requires more.kids[..k] == copy.kids && Matches(more.kids[k], t.kids[k])
    ensures Matched(more, t, k + 1)
  {
    forall i | 0 <= i < k + 1
      ensures Matches(more.kids[i], t.kids[i])
    {
      assert i < k ==> more.kids[i] == more.kids[..k][i];
    }
  }

  /** What the walk along the children reads of the original. */
  lemma {:induction false} KidAt(t: Tree, k: nat)
    requires Shaped(t) && k <= |t.kids|
    ensures k < |t.kids| ==>
              && At(Roots(t.kids), k) == t.kids[k].root && Shaped(t.kids[k])
              && t.kids[k].root.next == At(Roots(t.kids), k + 1) && t.kids[k].root in t.below
  {
    if k < |t.kids| {
      assert KidInside(t, k) && Linked(Roots(t.kids), k);
    }
  }

  /** Walks along the children and links their copies below newitem. */
  method CopyChildren(newitem: Item, item: Item, depth: nat, ghost t: Tree) returns (ok: bool, ghost copy: Tree)
    requires t.root == item && Shaped(t) && newitem !in Items(t) && newitem.child == null
    modifies newitem`child
    ensures ok <==> Shallow(t, depth)
    ensures ok ==> copy.root == newitem && fresh(copy.below) && Shaped(copy)
    ensures ok ==> Matched(copy, t, |t.kids|) && |copy.kids| == |t.kids|
    decreases t, 1
  {
    copy := Tree(newitem, [], {});
    ok := false;
    var child := item.child;
    var next: Item?, newchild: Item? := null, null;
    while child != null
      invariant Walking(t, depth, copy, child, next) && newchild == next
      invariant copy.root == newitem && fresh(copy.below)
      invariant fresh(One(next)) && fresh(One(newitem.child))
      decreases |t.kids| - |copy.kids|
    {
      ghost var d, k := copy, |copy.kids|;
      ShallowNext(t, depth, k);
      if depth >= CIRCULAR_LIMIT {
        return;
      }
      newchild, d := CopyNext(child, depth, t, copy, next);
      if newchild == null {
        return;
      }
      child := Step(newitem, next, newchild, child, t, depth, copy, d);
      ghost var more := With(copy, d);
      forall o | o in more.below
        ensures fresh(o)
      {
        assert o in copy.below || o in Items(d);
      }
      copy := more;
      next := newchild;
    }
    Finish(newitem, newchild, t, depth, copy);
    ok := true;
  }

  /** Closes the list when no child is left. */
  method Finish(newitem: Item, newchild: Item?, ghost t: Tree, ghost depth: nat, ghost copy: Tree)
    requires Walking(t, depth, copy, null, newchild) && copy.root == newitem
    modifies One(newitem.child)`prev
    ensures Shaped(copy) && Shallow(t, depth)
    ensures Matched(copy, t, |t.kids|) && |copy.kids| == |t.kids|
  {
    ShallowAll(t, depth);
    Close(newitem, newchild, copy);
  }

  /** Copies a tree of at most the permitted depth, or its root alone. */
  method Duplicate(item: Item?, recurse: bool, ghost t: Tree) returns (r: Item?, ghost copy: Tree)
    requires item != null ==> t.root == item && Shaped(t)
    ensures r == null <==> item == null || (recurse && !Shallow(t, 0))
    ensures r != null ==> copy.root == r && fresh(Items(copy)) && Shaped(copy) && r.next == null && r.prev == null
    ensures r != null ==> if recurse then Matches(copy, t) else copy.kids == [] && r.data == Owned(t.root.data)
    ensures r != null && recurse ==> Denotes(copy) == Denotes(t)
  {
    r, copy := DuplicateRec(item, 0, recurse, t);
    if r != null && recurse {
      MatchesDenotes(copy, t);
    }
  }

  // ---------- values ----------

  function Chars(x: Text): seq<CByte> {
    if x.Text? then x.s else []
  }

  /** The value of a tree; missing strings count as empty. */
  ghost function Denotes(t: Tree): Json
    decreases t, |t.kids| + 1
  {
    match t.root.data.kind
    case KNull => Null
    case KFalse => False
    case KTrue => True
    case KNumber => Number(t.root.data.valueint)
    case KString => String(Chars(t.root.data.valuestring))
    case KArray => Array(Elements(t, |t.kids|))
    case KObject => Object(Members(t, |t.kids|))
  }

  ghost function Elements(t: Tree, n: nat): (r: seq<Json>)
    requires n <= |t.kids|
    decreases t, n
  {
    if n == 0 then [] else Elements(t, n - 1) + [Denotes(t.kids[n - 1])]
  }

  ghost function Members(t: Tree, n: nat): (r: seq<Member>)
    requires n <= |t.kids|
    decreases t, n
  {
    if n == 0 then []
    else Members(t, n - 1) + [Member(Chars(t.kids[n - 1].root.data.name), Denotes(t.kids[n - 1]))]
  }

  /** A copy has the value of its original. */
  lemma {:induction false} MatchesDenotes(copy: Tree, t: Tree)
    requires Matches(copy, t)
    ensures Denotes(copy) == Denotes(t)
    decreases t, |t.kids| + 1
  {
    PartsMatch(copy, t, |t.kids|);
  }

  lemma {:induction false} PartsMatch(copy: Tree, t: Tree, n: nat)
    requires Matches(copy, t) && n <= |t.kids|
    ensures Elements(copy, n) == Elements(t, n) && Members(copy, n) == Members(t, n)
    decreases t, n
  {
    if n > 0 {
      PartsMatch(copy, t, n - 1);
      MatchesDenotes(copy.kids[n - 1], t.kids[n - 1]);
    }
  }

  /** A copy compares as equal to its original exactly if the original has no conflicting members. */
  lemma {:induction false} CopyComparesEqual(copy: Tree, t: Tree, cs: bool)
    requires Matches(copy, t)
    ensures CJsonCompare.Same(Denotes(copy), Denotes(t), cs) <==> CJsonCompare.Consistent(Denotes(t), cs)
  {
    MatchesDenotes(copy, t);
    CJsonCompare.SelfSame(Denotes(t), cs);
  }
}
