/**
 cJSON_Compare: arrays are compared in order, objects by looking every member up by name in the other
 object.  When names are unique this decides whether two trees mean the same value.
 */
module CJsonCompare {
  import opened JsonText

  // ---------- names ----------

  function Lower(c: CByte): CByte {
    if 0x41 <= c <= 0x5A then c + 0x20 else c
  }

  function Folded(s: seq<CByte>): (r: seq<CByte>)
    ensures |r| == |s|
  {
    if s == [] then [] else [Lower(s[0])] + Folded(s[1..])
  }

  /** The same letter in upper and lower case. */
  predicate CasePair(upper: CByte, lower: CByte) {
    0x41 <= upper <= 0x5A && lower == upper + 32
  }

  predicate SameLetter(c: CByte, d: CByte) {
    c == d || CasePair(c, d) || CasePair(d, c)
  }

  lemma {:induction false} LowerIs(c: CByte, d: CByte)
    ensures Lower(c) == Lower(d) <==> SameLetter(c, d)
  {
  }

  /** Names are the same up to case if they are the same letter by letter, only A to Z having two cases. */
  lemma {:induction false} FoldedIs(a: seq<CByte>, b: seq<CByte>)
    ensures Folded(a) == Folded(b) <==> |a| == |b| && forall i :: 0 <= i < |a| ==> SameLetter(a[i], b[i])
    decreases |a|
  {
    if a != [] && b != [] {
      FoldedCons(a, b);
      FoldedIs(a[1..], b[1..]);
      LowerIs(a[0], b[0]);
      if |a| == |b| && forall i :: 0 <= i < |a[1..]| ==> SameLetter(a[1..][i], b[1..][i]) {
        assert forall i :: 1 <= i < |a| ==> a[i] == a[1..][i - 1] && b[i] == b[1..][i - 1];
      }
    }
  }

  /** What two names must share to count as the same. */
  function Key(name: seq<CByte>, case_sensitive: bool): seq<CByte> {
    if case_sensitive then name else Folded(name)
  }

  /** The first of the members from i on with this key, or -1. */
  function Lookup(ms: seq<Member>, i: nat, key: seq<CByte>, cs: bool): (k: int)
    ensures k == -1 || (i <= k < |ms| && Key(ms[k].name, cs) == key)
    ensures k == -1 ==> forall j :: i <= j < |ms| ==> Key(ms[j].name, cs) != key
    ensures k >= 0 ==> forall j :: i <= j < k ==> Key(ms[j].name, cs) != key
    decreases |ms| - i
  {
    if i >= |ms| then -1 else if Key(ms[i].name, cs) == key then i else Lookup(ms, i + 1, key, cs)
  }

  method CaseInsensitiveStrcmp(a: seq<CByte>, b: seq<CByte>) returns (same: bool)
    ensures same <==> Folded(a) == Folded(b)
    ensures same <==> |a| == |b| && forall i :: 0 <= i < |a| ==> SameLetter(a[i], b[i])
  {
    FoldedIs(a, b);
    var i := 0;
    while i < |a| && i < |b| && Lower(a[i]) == Lower(b[i])
      invariant i <= |a| && i <= |b|
      invariant Folded(a) == Folded(b) <==> Folded(a[i..]) == Folded(b[i..])
    {
      assert a[i..][1..] == a[i + 1..] && b[i..][1..] == b[i + 1..];
      FoldedCons(a[i..], b[i..]);
      i := i + 1;
    }
    same := i == |a| && i == |b|;
    if i < |a| && i < |b| {
      FoldedCons(a[i..], b[i..]);
    }
  }

  lemma {:induction false} FoldedCons(a: seq<CByte>, b: seq<CByte>)
    requires a != [] && b != []
    ensures Folded(a) == Folded(b) <==> Lower(a[0]) == Lower(b[0]) && Folded(a[1..]) == Folded(b[1..])
  {
    assert Folded(a)[0] == Lower(a[0]) && Folded(b)[0] == Lower(b[0]);
    assert Folded(a)[1..] == Folded(a[1..]) && Folded(b)[1..] == Folded(b[1..]);
  }

  /** The first member with the name, or -1. */
  method GetObjectItem(ms: seq<Member>, name: seq<CByte>, case_sensitive: bool) returns (k: int)
    ensures k == Lookup(ms, 0, Key(name, case_sensitive), case_sensitive)
  {
    var i := 0;
    while i < |ms|
      invariant i <= |ms|
      invariant Lookup(ms, 0, Key(name, case_sensitive), case_sensitive)
             == Lookup(ms, i, Key(name, case_sensitive), case_sensitive)
    {
      var same;
      if case_sensitive {
        same := name == ms[i].name;
      } else {
        same := CaseInsensitiveStrcmp(name, ms[i].name);
      }
      if same {
        return i;
      }
      i := i + 1;
    }
    k := -1;
  }

  // ---------- comparing ----------

  function Height(v: Json): (h: nat)
    ensures v.Array? ==> forall i :: 0 <= i < |v.items| ==> Height(v.items[i]) < h
    ensures v.Object? ==> forall i :: 0 <= i < |v.members| ==> Height(v.members[i].value) < h
    decreases v, Width(v) + 1
  {
    1 + Tallest(v, Width(v))
  }

  /** The height of the first n parts. */
  function Tallest(v: Json, n: nat): (h: nat)
    requires n <= Width(v)
    ensures v.Array? ==> forall i :: 0 <= i < n ==> Height(v.items[i]) <= h
    ensures v.Object? ==> forall i :: 0 <= i < n ==> Height(v.members[i].value) <= h
    decreases v, n
  {
    if n == 0 then 0
    else
      var h, t := Height(if v.Array? then v.items[n - 1] else v.members[n - 1].value), Tallest(v, n - 1);
      if h > t then h else t
  }

  /** What the comparison says. */
  ghost predicate Same(a: Json, b: Json, cs: bool)
    decreases Height(a) + Height(b), 1
  {
    match (a, b)
    case (Null, Null) => true
    case (False, False) => true
    case (True, True) => true
    case (Number(i), Number(j)) => i == j
    case (String(s), String(t)) => s == t
    case (Array(s), Array(t)) => |s| == |t| && forall i :: 0 <= i < |s| ==> Same(s[i], t[i], cs)
    case (Object(_), Object(_)) => AllMatched(a, b, cs) && AllMatched(b, a, cs)
    case _ => false
  }

  /** Every member of a is matched by the first member of b with its name. */
  ghost predicate AllMatched(a: Json, b: Json, cs: bool)
    requires a.Object? && b.Object?
    decreases Height(a) + Height(b), 0
  {
    forall i :: 0 <= i < |a.members| ==>
      var k := Lookup(b.members, 0, Key(a.members[i].name, cs), cs);
      k >= 0 && Same(a.members[i].value, b.members[k].value, cs)
  }

  method Compare(a: Json, b: Json, case_sensitive: bool) returns (r: bool)
    ensures r <==> Same(a, b, case_sensitive)
    decreases Height(a) + Height(b), 2
  {
    match (a, b) {
      case (Null, Null) => r := true;
      case (False, False) => r := true;
      case (True, True) => r := true;
      case (Number(i), Number(j)) => r := i == j;
      case (String(s), String(t)) => r := s == t;
      case (Array(s), Array(t)) =>
        var i := 0;
        while i < |s| && i < |t|
          invariant i <= |s| && i <= |t| && forall j :: 0 <= j < i ==> Same(s[j], t[j], case_sensitive)
        {
          r := Compare(s[i], t[i], case_sensitive);
          if !r {
            return;
          }
          i := i + 1;
        }
        r := i == |s| && i == |t|;
      case (Object(_), Object(_)) =>
        r := CompareMembers(a, b, case_sensitive);
        if r {
          r := CompareMembers(b, a, case_sensitive);
        }
      case _ => r := false;
    }
  }

  /** Looks every member of a up in b. */
  method CompareMembers(a: Json, b: Json, case_sensitive: bool) returns (r: bool)
    requires a.Object? && b.Object?
    ensures r <==> AllMatched(a, b, case_sensitive)
    decreases Height(a) + Height(b), 1
  {
    for i := 0 to |a.members|
      invariant forall j :: 0 <= j < i ==>
                  var k := Lookup(b.members, 0, Key(a.members[j].name, case_sensitive), case_sensitive);
                  k >= 0 && Same(a.members[j].value, b.members[k].value, case_sensitive)
    {
      var k := GetObjectItem(b.members, a.members[i].name, case_sensitive);
      if k < 0 {
        return false;
      }
      r := Compare(a.members[i].value, b.members[k].value, case_sensitive);
      if !r {
        return;
      }
    }
    r := true;
  }

  // ---------- meaning ----------

  /** The value a tree denotes: the members of an object have no order. */
  datatype Meaning =
    | MNull | MFalse | MTrue | MNumber(i: int) | MString(s: seq<CByte>)
    | MArray(items: seq<Meaning>) | MObject(members: map<seq<CByte>, Meaning>)

  ghost function Means(v: Json, cs: bool): Meaning
    decreases v, Width(v) + 1
  {
    match v
    case Null => MNull
    case False => MFalse
    case True => MTrue
    case Number(i) => MNumber(i)
    case String(s) => MString(s)
    case Array(_) => MArray(ItemMeanings(v, |v.items|, cs))
    case Object(_) => MObject(MemberMeanings(v, |v.members|, cs))
  }

  ghost function ItemMeanings(v: Json, n: nat, cs: bool): (r: seq<Meaning>)
    requires v.Array? && n <= |v.items|
    ensures |r| == n && forall i :: 0 <= i < n ==> r[i] == Means(v.items[i], cs)
    decreases v, n
  {
    if n == 0 then [] else ItemMeanings(v, n - 1, cs) + [Means(v.items[n - 1], cs)]
  }

  /** The first n members by name; the first member of a name counts. */
  ghost function MemberMeanings(v: Json, n: nat, cs: bool): (r: map<seq<CByte>, Meaning>)
    requires v.Object? && n <= |v.members|
    decreases v, n
  {
    if n == 0 then map[]
    else
      var r, key := MemberMeanings(v, n - 1, cs), Key(v.members[n - 1].name, cs);
      if key in r then r else r[key := Means(v.members[n - 1].value, cs)]
  }

  /** No two members of an object share a name. */
  ghost predicate Unique(v: Json, cs: bool) {
    match v
    case Array(items) => forall i :: 0 <= i < |items| ==> Unique(items[i], cs)
    case Object(members) =>
      && (forall i :: 0 <= i < |members| ==> Unique(members[i].value, cs))
      && forall i, j :: 0 <= i < j < |members| ==> Key(members[i].name, cs) != Key(members[j].name, cs)
    case _ => true
  }

  /** A name has a meaning exactly when it can be looked up, and then that of the member found. */
  lemma {:induction false} MeaningOfName(v: Json, n: nat, cs: bool, key: seq<CByte>)
    requires v.Object? && n <= |v.members|
    ensures var k := Lookup(v.members, 0, key, cs);
            && (key in MemberMeanings(v, n, cs) <==> 0 <= k < n)
            && (0 <= k < n ==> MemberMeanings(v, n, cs)[key] == Means(v.members[k].value, cs))
  {
    if n > 0 {
      MeaningOfName(v, n - 1, cs, key);
      MeaningOfName(v, n - 1, cs, Key(v.members[n - 1].name, cs));
    }
  }

  /** Members that share a name mean the same, at every level. */
  ghost predicate Consistent(v: Json, cs: bool) {
    match v
    case Array(items) => forall i :: 0 <= i < |items| ==> Consistent(items[i], cs)
    case Object(members) =>
      forall i :: 0 <= i < |members| ==> Consistent(members[i].value, cs) && MeansAsFirst(members, i, cs)
    case _ => true
  }

  /** Member i means what the first member with its name means. */
  ghost predicate MeansAsFirst(members: seq<Member>, i: nat, cs: bool)
    requires i < |members|
  {
    var k := Lookup(members, 0, Key(members[i].name, cs), cs);
    k >= 0 && Means(members[i].value, cs) == Means(members[k].value, cs)
  }

  /**
   Exactly the values that mean the same and have no conflicting members compare as equal.
   */
  lemma {:induction false} SameIsEqual(a: Json, b: Json, cs: bool)
    ensures Same(a, b, cs) <==> Consistent(a, cs) && Consistent(b, cs) && Means(a, cs) == Means(b, cs)
    decreases Height(a) + Height(b), 2
  {
    if a.Array? && b.Array? {
      SameItems(a, b, cs);
    } else if a.Object? && b.Object? {
      if Same(a, b, cs) {
        MatchedMeans(a, b, cs);
        MatchedMeans(b, a, cs);
        IncludedBothWays(Members(a, cs), Members(b, cs));
      } else if Consistent(a, cs) && Consistent(b, cs) && Means(a, cs) == Means(b, cs) {
        MeansMatched(a, b, cs);
        MeansMatched(b, a, cs);
      }
    }
  }

  /** A value compares as equal to a separate copy of itself exactly if it has no conflicting members. */
  lemma {:induction false} SelfSame(v: Json, cs: bool)
    ensures Same(v, v, cs) <==> Consistent(v, cs)
  {
    SameIsEqual(v, v, cs);
  }

  /** In particular if no name occurs twice. */
  lemma {:induction false} UniqueConsistent(v: Json, cs: bool)
    requires Unique(v, cs)
    ensures Consistent(v, cs)
  {
    if v.Array? {
      forall i | 0 <= i < |v.items|
        ensures Consistent(v.items[i], cs)
      {
        UniqueConsistent(v.items[i], cs);
      }
    } else if v.Object? {
      forall i | 0 <= i < |v.members|
        ensures Consistent(v.members[i].value, cs) && MeansAsFirst(v.members, i, cs)
      {
        UniqueConsistent(v.members[i].value, cs);
        OwnName(v, i, cs);
      }
    }
  }

  /** The first member with a member's name is there and has this name. */
  lemma {:induction false} OwnName(v: Json, i: nat, cs: bool)
    requires v.Object? && i < |v.members|
    ensures var k := Lookup(v.members, 0, Key(v.members[i].name, cs), cs);
            0 <= k <= i && Key(v.members[k].name, cs) == Key(v.members[i].name, cs)
  {
    MeaningOfName(v, i + 1, cs, Key(v.members[i].name, cs));
  }

  lemma {:induction false} IncludedBothWays(m: map<seq<CByte>, Meaning>, n: map<seq<CByte>, Meaning>)
    ensures Included(m, n) && Included(n, m) <==> m == n
  {
  }

  lemma {:induction false} SameItems(a: Json, b: Json, cs: bool)
    requires a.Array? && b.Array?
    ensures Same(a, b, cs) <==> Consistent(a, cs) && Consistent(b, cs) && Means(a, cs) == Means(b, cs)
    decreases Height(a) + Height(b), 0
  {
    if |a.items| == |b.items| {
      forall i | 0 <= i < |a.items|
        ensures Same(a.items[i], b.items[i], cs)
                <==> Consistent(a.items[i], cs) && Consistent(b.items[i], cs)
                     && Means(a.items[i], cs) == Means(b.items[i], cs)
      {
        SameIsEqual(a.items[i], b.items[i], cs);
      }
      var ma, mb := ItemMeanings(a, |a.items|, cs), ItemMeanings(b, |b.items|, cs);
      if Same(a, b, cs) {
        assert forall i :: 0 <= i < |a.items| ==> ma[i] == mb[i];
      } else if Means(a, cs) == Means(b, cs) {
        assert forall i :: 0 <= i < |a.items| ==> ma[i] == mb[i];
      }
    }
  }

  ghost function Members(v: Json, cs: bool): map<seq<CByte>, Meaning>
    requires v.Object?
  {
    MemberMeanings(v, |v.members|, cs)
  }

  /** Every name of the one means the same in the other. */
  ghost predicate Included(m: map<seq<CByte>, Meaning>, n: map<seq<CByte>, Meaning>) {
    forall key :: key in m ==> key in n && m[key] == n[key]
  }

  /** If all members are matched, they do not conflict and mean what they mean in the other object. */
  lemma {:induction false} MatchedMeans(a: Json, b: Json, cs: bool)
    requires a.Object? && b.Object? && AllMatched(a, b, cs)
    ensures Consistent(a, cs) && Included(Members(a, cs), Members(b, cs))
    decreases Height(a) + Height(b), 0
  {
    forall i | 0 <= i < |a.members|
      ensures Consistent(a.members[i].value, cs) && MeansAsFirst(a.members, i, cs)
    {
      OwnName(a, i, cs);
      MemberMeans(a, b, cs, i);
      MemberMeans(a, b, cs, Lookup(a.members, 0, Key(a.members[i].name, cs), cs));
    }
    forall key | key in Members(a, cs)
      ensures key in Members(b, cs) && Members(a, cs)[key] == Members(b, cs)[key]
    {
      MeaningOfName(a, |a.members|, cs, key);
      MeaningOfName(b, |b.members|, cs, key);
      MemberMeans(a, b, cs, Lookup(a.members, 0, key, cs));
    }
  }

  /** A matched member means what the first member with its name means in the other object. */
  lemma {:induction false} MemberMeans(a: Json, b: Json, cs: bool, i: nat)
    requires a.Object? && b.Object? && AllMatched(a, b, cs) && i < |a.members|
    ensures var k := Lookup(b.members, 0, Key(a.members[i].name, cs), cs);
            k >= 0 && Consistent(a.members[i].value, cs) && Means(a.members[i].value, cs) == Means(b.members[k].value, cs)
    decreases Height(a) + Height(b), -1
  {
    var k := Lookup(b.members, 0, Key(a.members[i].name, cs), cs);
    SameIsEqual(a.members[i].value, b.members[k].value, cs);
  }

  /** Members of objects that mean the same match if they do not conflict. */
  lemma {:induction false} MeansMatched(a: Json, b: Json, cs: bool)
    requires a.Object? && b.Object? && Consistent(a, cs) && Consistent(b, cs) && Members(a, cs) == Members(b, cs)
    ensures AllMatched(a, b, cs)
    decreases Height(a) + Height(b), 0
  {
    forall i | 0 <= i < |a.members|
      ensures var k := Lookup(b.members, 0, Key(a.members[i].name, cs), cs);
              k >= 0 && Same(a.members[i].value, b.members[k].value, cs)
    {
      var key := Key(a.members[i].name, cs);
      assert MeansAsFirst(a.members, i, cs);
      MeaningOfName(a, |a.members|, cs, key);
      MeaningOfName(b, |b.members|, cs, key);
      SameIsEqual(a.members[i].value, b.members[Lookup(b.members, 0, key, cs)].value, cs);
    }
  }

  /** Two separate equal trees with conflicting members compare as different. */
  lemma {:induction false} RepeatedName()
    ensures var v := Object([Member([0x61], Null), Member([0x61], True)]); !Same(v, v, true) && !Consistent(v, true)
  {
    var v := Object([Member([0x61], Null), Member([0x61], True)]);
    assert Lookup(v.members, 0, [0x61], true) == 0;
    assert !Same(v.members[1].value, v.members[0].value, true);
    SelfSame(v, true);
  }

  /** With a repeated name that does not conflict they compare as equal. */
  lemma {:induction false} RepeatedEqual()
    ensures var v := Object([Member([0x61], Null), Member([0x61], Null)]); Same(v, v, true) && !Unique(v, true)
  {
    var v := Object([Member([0x61], Null), Member([0x61], Null)]);
    assert Key(v.members[0].name, true) == Key(v.members[1].name, true);
    assert Lookup(v.members, 0, [0x61], true) == 0;
  }
}
