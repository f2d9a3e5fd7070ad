/**
 What texts denote by RFC 8259 sections 2 to 8, stated apart from printer and parser of cJSON.c: every text that
 denotes a value is parsed to it, and what is printed for a value denotes it.
 */
module CJsonGrammar {
  import opened JsonText
  import opened JsonTree
  import opened CJsonParse
  import opened CJsonStandard

  // ---------- the standard ----------

  /** Insignificant white space (section 2). */
  ghost predicate White(b: seq<Byte>) {
    forall i :: 0 <= i < |b| ==> b[i] in {0x20, 0x09, 0x0A, 0x0D}
  }

  function Unsigned(text: seq<Byte>): seq<Byte> {
    if text != [] && text[0] == 0x2D then text[1..] else text
  }

  /** An integer (section 6): digits without a superfluous zero in front, after an optional minus sign. */
  ghost predicate IntegerText(text: seq<Byte>) {
    var d := Unsigned(text);
    d != [] && (forall k :: 0 <= k < |d| ==> 0x30 <= d[k] <= 0x39) && (d[0] == 0x30 ==> |d| == 1)
  }

  /** The number that decimal digits denote. */
  function Decimals(d: seq<Byte>): int {
    if d == [] then 0 else 10 * Decimals(d[..|d| - 1]) + (d[|d| - 1] as int - 0x30)
  }

  ghost predicate NumberDenotes(text: seq<Byte>, i: int) {
    var n := Decimals(Unsigned(text));
    IntegerText(text) && i == if text[0] == 0x2D then -n else n
  }

  /** The bytes between the quotes of a literal denote s; a lone surrogate, and thus its literal, denotes nothing. */
  ghost predicate LiteralDenotes(raw: seq<Byte>, s: seq<CByte>) {
    var lit := [0x22] + raw + [0x22];
    StrictUnescape(lit, 1, |raw| + 1, []) == Decoded(s) && Paired(lit, 1, |raw| + 1)
  }

  /** Sections 3 to 5: words, arrays in order, objects member by member. */
  ghost predicate Denotes(t: Tree, v: Json)
    decreases v
  {
    match (t, v)
    case (NullTree, Null) => true
    case (FalseTree, False) => true
    case (TrueTree, True) => true
    case (NumberTree(text), Number(i)) => NumberDenotes(text, i)
    case (StringTree(raw), String(s)) => LiteralDenotes(raw, s)
    case (ArrayTree(open, elements), Array(items)) =>
      |elements| == |items| && White(open) && forall i :: 0 <= i < |items| ==>
        Denotes(elements[i].tree, items[i]) && White(elements[i].before) && White(elements[i].after)
    case (ObjectTree(open, pairs), Object(members)) =>
      |pairs| == |members| && White(open) && forall i :: 0 <= i < |members| ==>
        Denotes(pairs[i].tree, members[i].value) && PairDenotes(pairs[i], members[i].name)
    case _ => false
  }

  ghost predicate PairDenotes(e: Pair, name: seq<CByte>) {
    LiteralDenotes(e.name, name) && PairWhite(e)
  }

  ghost predicate PairWhite(e: Pair) {
    White(e.before) && White(e.middle) && White(e.gap) && White(e.after)
  }

  /** The text s denotes v. */
  ghost predicate TextDenotes(s: seq<Byte>, v: Json) {
    exists lead, t, trail :: IsText(s, v, lead, t, trail)
  }

  /** In particular with these blanks around this tree; the zero at the end of a C string is no part of it. */
  ghost predicate IsText(s: seq<Byte>, v: Json, lead: seq<Byte>, t: Tree, trail: seq<Byte>) {
    White(lead) && White(trail) && Denotes(t, v) && s + [0] == TextWith(lead, t, trail)
  }

  // ---------- parsing ----------

  /** Every text that denotes v is parsed to v, unless v is nested too deeply, in which case it is refused. */
  method ParseText(s: seq<Byte>, require_null_terminated: bool, ghost v: Json) returns (ok: bool, item: Json)
    ensures TextDenotes(s, v) ==> (ok <==> Shallow(v, NESTING_LIMIT)) && (ok ==> item == v)
  {
    ghost var lead, t, trail: seq<Byte> := [], NullTree, [];
    if TextDenotes(s, v) {
      lead, t, trail :| IsText(s, v, lead, t, trail);
      DenotesAccepts(t, v);
    }
    ok, item := Parse(s + [0], require_null_terminated, v, t, lead, trail);
  }

  lemma {:induction false} WhiteBlank(b: seq<Byte>)
    requires White(b)
    ensures Blanks(b)
  {
  }

  /** What the standard permits the parser accepts, with the same meaning. */
  lemma {:induction false} DenotesAccepts(t: Tree, v: Json)
    requires Denotes(t, v)
    ensures Accepts(t, v)
    decreases v
  {
    match v
    case Number(i) => NumberAccepted(t.text, i);
    case String(s) => LiteralAccepted(t.raw, s);
    case Array(items) =>
      WhiteBlank(t.open);
      forall i | 0 <= i < |items|
        ensures Accepts(t.elements[i].tree, items[i]) && Blanks(t.elements[i].before) && Blanks(t.elements[i].after)
      {
        DenotesAccepts(t.elements[i].tree, items[i]);
      }
    case Object(members) =>
      WhiteBlank(t.open);
      forall i | 0 <= i < |members|
        ensures Accepts(t.pairs[i].tree, members[i].value) && NameTaken(t.pairs[i], members[i].name)
      {
        DenotesAccepts(t.pairs[i].tree, members[i].value);
        LiteralAccepted(t.pairs[i].name, members[i].name);
      }
    case _ =>
  }

  /** The quote after a permitted literal closes it. */
  lemma {:induction false} StrictCloses(s: seq<Byte>, p: nat, end: nat, out: seq<Byte>)
    requires p <= end < |s| && s[end] == 0x22 && StrictUnescape(s, p, end, out).Decoded?
    ensures Closing(s, p) == end
    decreases end - p
  {
    if p < end {
      if s[p] != 0x5C {
        var n := SequenceLength(s, p, end);
        PlainCloses(s, p, n);
        StrictCloses(s, p + n, end, out + s[p..p + n]);
      } else if s[p + 1] == 0x75 {
        var u := StandardUnit(s, p, end);
        UnitCloses(s, p, end);
        StrictCloses(s, p + u.used, end, out + Utf8(u.code));
      } else {
        StrictCloses(s, p + 2, end, out + [Denoted(s[p + 1])]);
      }
    }
  }

  lemma {:induction false} PlainCloses(s: seq<Byte>, p: nat, n: nat)
    requires p + n <= |s| && forall k :: p <= k < p + n ==> s[k] != QUOTE && s[k] != BACKSLASH
    ensures Closing(s, p) == Closing(s, p + n)
    decreases n
  {
    if n > 0 {
      PlainCloses(s, p + 1, n - 1);
    }
  }

  lemma {:induction false} HexCloses(s: seq<Byte>, p: nat)
    requires p + 6 <= |s| && s[p] == BACKSLASH && s[p + 1] == 0x75 && FourHex(s, p + 2)
    ensures Closing(s, p) == Closing(s, p + 6)
  {
    HexesAgree(s, p + 2);
    assert Closing(s, p) == Closing(s, p + 2);
    PlainCloses(s, p + 2, 4);
  }

  lemma {:induction false} UnitCloses(s: seq<Byte>, p: nat, end: nat)
    requires p + 1 < end <= |s| && s[p] == BACKSLASH && s[p + 1] == 0x75 && StandardUnit(s, p, end).Unit?
    ensures Closing(s, p) == Closing(s, p + StandardUnit(s, p, end).used)
  {
    HexCloses(s, p);
    if StandardUnit(s, p, end).used == 12 {
      HexCloses(s, p + 6);
    }
  }

  lemma {:induction false} LiteralAccepted(raw: seq<Byte>, s: seq<CByte>)
    requires LiteralDenotes(raw, s)
    ensures LiteralTaken(raw, s)
  {
    var lit := [0x22] + raw + [0x22];
    StrictCloses(lit, 1, |raw| + 1, []);
    StrictIff(lit, 1, |raw| + 1, []);
    CStringWhole(s);
  }

  // ---------- numbers ----------

  lemma {:induction false} DecimalsBound(d: seq<Byte>)
    requires d != [] && d[0] > 0x30 && forall k :: 0 <= k < |d| ==> 0x30 <= d[k] <= 0x39
    ensures Decimals(d) >= Power10(|d| - 1)
    decreases |d|
  {
    if |d| > 1 {
      DecimalsBound(d[..|d| - 1]);
    } else {
      assert Decimals(d[..0]) == 0 && Power10(0) == 1;
    }
  }

  lemma {:induction false} Power10Mono(k: nat, n: nat)
    requires k <= n
    ensures 1 <= Power10(k) <= Power10(n)
    decreases n
  {
    if n > 0 && k < n {
      Power10Mono(k, n - 1);
    } else if n > 0 {
      Power10Mono(k - 1, n - 1);
    }
  }

  lemma {:induction false} DigitsAre(s: seq<Byte>, p: nat, n: nat)
    requires p + n <= |s|
    ensures DigitsValue(s, p, n) == Decimals(s[p..p + n])
    decreases n
  {
    if n > 0 {
      DigitsAre(s, p, n - 1);
      assert s[p..p + n][..n - 1] == s[p..p + n - 1];
    }
  }

  /** More than eleven digits are more than 32 bits hold. */
  lemma {:induction false} LongIsLarge(d: seq<Byte>)
    requires |d| > 11 && d[0] > 0x30 && forall k :: 0 <= k < |d| ==> 0x30 <= d[k] <= 0x39
    ensures Decimals(d) >= 100000000000
  {
    DecimalsBound(d);
    Power10Mono(11, |d| - 1);
    assert Power10(2) == 100 && Power10(5) == 100000 && Power10(8) == 100000000 && Power10(11) == 100000000000;
  }

  lemma {:induction false} NumberAccepted(text: seq<Byte>, i: Int32)
    requires NumberDenotes(text, i)
    ensures NumberTaken(text, i)
  {
    var d := Unsigned(text);
    var sign := |text| - |d|;
    if |d| > 11 {
      LongIsLarge(d);
    }
    DigitRunAll(text, sign);
    DigitsAre(text, sign, |d|);
    assert text[sign..sign + |d|] == d;
  }

  // ---------- printing ----------

  /** The bytes of s from i on, escaped. */
  function Raw(s: seq<CByte>, i: nat): seq<Byte>
    decreases |s| - i
  {
    if i >= |s| then [] else Escape(s[i]) + Raw(s, i + 1)
  }

  function Tabs(n: nat): seq<Byte> {
    if n == 0 then [] else [0x09] + Tabs(n - 1)
  }

  /** A new line and its indentation, in formatted text only. */
  function Line(fmt: bool, n: nat): seq<Byte> {
    if fmt then [0x0A] + Tabs(n) else []
  }

  /** The text that is printed for v, taken apart. */
  ghost function PrintedTree(v: Json, d: nat, fmt: bool): Tree
    decreases v
  {
    match v
    case Null => NullTree
    case False => FalseTree
    case True => TrueTree
    case Number(i) => NumberTree(Decimal(i))
    case String(s) => StringTree(Raw(s, 0))
    case Array(items) =>
      ArrayTree([], seq(|items|, i requires 0 <= i < |items| =>
        Element(if i > 0 && fmt then [0x20] else [], PrintedTree(items[i], d + 1, fmt), [])))
    case Object(members) =>
      ObjectTree(Line(fmt, d), seq(|members|, i requires 0 <= i < |members| =>
        PrintedPair(members[i], d, fmt, PrintedTree(members[i].value, d + 1, fmt), i + 1 == |members|)))
  }

  lemma {:induction false} RawText(s: seq<CByte>, i: nat, rest: Chars)
    ensures EscapedFrom(s, i, rest) == Bytes(Raw(s, i), rest)
    decreases |s| - i
  {
    if i < |s| {
      RawText(s, i + 1, rest);
      WordIsBytes(Escape(s[i]), Bytes(Raw(s, i + 1), rest));
      BytesConcat(Escape(s[i]), Raw(s, i + 1), rest);
    }
  }

  lemma {:induction false} TabsText(n: nat, rest: Chars)
    ensures Bytes(Tabs(n), rest) == Repeat(0x09, n, rest)
  {
    if n > 0 {
      TabsText(n - 1, rest);
      assert Tabs(n)[1..] == Tabs(n - 1);
    }
  }

  lemma {:induction false} LineText(fmt: bool, n: nat, rest: Chars)
    ensures Bytes(Line(fmt, n), rest) == Layout(fmt, NEWLINE, 1, Layout(fmt, TAB, n, rest))
  {
    if fmt {
      TabsText(n, rest);
      assert Line(fmt, n)[1..] == Tabs(n);
      assert Repeat(NEWLINE, 1, Repeat(TAB, n, rest)) == Cons(NEWLINE, Repeat(NEWLINE, 0, Repeat(TAB, n, rest)));
    }
  }

  lemma {:induction false} OneText(fmt: bool, b: Byte, rest: Chars)
    ensures Bytes(if fmt then [b] else [], rest) == Layout(fmt, b, 1, rest)
  {
    assert [b][1..] == [];
    assert Repeat(b, 1, rest) == Cons(b, Repeat(b, 0, rest));
  }

  /** The printed text is the text of that tree. */
  lemma {:induction false} PrintedText(v: Json, d: nat, fmt: bool, rest: Chars)
    ensures TreeText(PrintedTree(v, d, fmt), rest) == ValueText(v, d, fmt, rest)
    decreases v, Width(v) + 1
  {
    match v
    case Null => WordIsBytes(NullWord(), rest);
    case False => WordIsBytes(FalseWord(), rest);
    case True => WordIsBytes(TrueWord(), rest);
    case Number(i) => WordIsBytes(Decimal(i), rest);
    case String(s) => RawText(s, 0, Cons(0x22, rest));
    case Array(items) =>
      if items != [] {
        PrintedElements(v, 0, d, fmt, Cons(0x5D, rest));
      }
    case Object(members) =>
      if members != [] {
        PrintedPairs(v, 0, d, fmt, Cons(0x7D, rest));
      } else {
        LineText(fmt, d, Cons(0x7D, rest));
      }
  }

  lemma {:induction false} PrintedElements(v: Json, i: nat, d: nat, fmt: bool, end: Chars)
    requires v.Array? && i < |v.items|
    ensures ElementsText(PrintedTree(v, d, fmt), i, end)
            == Layout(fmt && i > 0, SPACE, 1, ItemsText(v, i, d + 1, fmt, end))
    decreases v, Width(v) - i
  {
    var t := PrintedTree(v, d, fmt);
    var e := t.elements[i];
    var after := if i + 1 == |v.items| then end else Cons(0x2C, ElementsText(t, i + 1, end));
    if i + 1 < |v.items| {
      PrintedElements(v, i + 1, d, fmt, end);
    }
    PrintedText(v.items[i], d + 1, fmt, after);
    OneText(fmt && i > 0, 0x20, TreeText(e.tree, after));
    assert ElementsText(t, i, end) == Bytes(e.before, TreeText(e.tree, Bytes(e.after, after)));
  }

  lemma {:induction false} PrintedPairs(v: Json, i: nat, d: nat, fmt: bool, end: Chars)
    requires v.Object? && i < |v.members|
    ensures PairsText(PrintedTree(v, d, fmt), i, end) == MembersLines(v, i, d, fmt, end)
    decreases v, Width(v) - i
  {
    var t, m, last := PrintedTree(v, d, fmt), v.members[i], i + 1 == |v.members|;
    if last {
      LineText(fmt, d, end);
    } else {
      PrintedPairs(v, i + 1, d, fmt, end);
    }
    var after := AfterPair(v, i, d, fmt, end);
    PrintedText(m.value, d + 1, fmt, after);
    PairAt(v, i, d, fmt);
    assert TreeText(t.pairs[i].tree, after) == ValueText(m.value, d + 1, fmt, after);
    PairStep(v, t, i, d, fmt, end);
  }

  lemma {:induction false} PairAt(v: Json, i: nat, d: nat, fmt: bool)
    requires v.Object? && i < |v.members|
    ensures var t, m := PrintedTree(v, d, fmt), v.members[i];
            && t.ObjectTree? && |t.pairs| == |v.members| && t.pairs[i].tree == PrintedTree(m.value, d + 1, fmt)
            && t.pairs[i] == PrintedPair(m, d, fmt, t.pairs[i].tree, i + 1 == |v.members|)
  {
  }

  /** Members from the i-th on as they are printed, with the line breaks before and after. */
  ghost function MembersLines(v: Json, i: nat, d: nat, fmt: bool, end: Chars): Chars
    requires v.Object?
  {
    Layout(fmt, NEWLINE, 1, MembersText(v, i, d + 1, fmt, Layout(fmt, TAB, d, end)))
  }

  /** What is printed behind the value of member i. */
  ghost function AfterPair(v: Json, i: nat, d: nat, fmt: bool, end: Chars): Chars
    requires v.Object?
  {
    AfterMember(i + 1 == |v.members|, fmt, MembersText(v, i + 1, d + 1, fmt, Layout(fmt, TAB, d, end)))
  }

  lemma {:induction false} PairStep(v: Json, t: Tree, i: nat, d: nat, fmt: bool, end: Chars)
    requires v.Object? && t.ObjectTree? && i < |v.members| == |t.pairs|
    requires t.pairs[i] == PrintedPair(v.members[i], d, fmt, t.pairs[i].tree, i + 1 == |v.members|)
    requires if i + 1 == |v.members| then
               Bytes(Line(fmt, d), end) == Layout(fmt, NEWLINE, 1, Layout(fmt, TAB, d, end))
             else PairsText(t, i + 1, end) == MembersLines(v, i + 1, d, fmt, end)
    requires var after := AfterPair(v, i, d, fmt, end);
             TreeText(t.pairs[i].tree, after) == ValueText(v.members[i].value, d + 1, fmt, after)
    ensures PairsText(t, i, end) == MembersLines(v, i, d, fmt, end)
  {
    var e, after := t.pairs[i], AfterPair(v, i, d, fmt, end);
    var next := if i + 1 == |v.members| then end else Cons(0x2C, PairsText(t, i + 1, end));
    assert Bytes(e.after, next) == after;
    PairText(v.members[i], d, fmt, e, next, after);
  }

  function PrintedPair(m: Member, d: nat, fmt: bool, t: Tree, last: bool): Pair {
    Pair(Line(fmt, d + 1), Raw(m.name, 0), [], if fmt then [0x09] else [], t, if last then Line(fmt, d) else [])
  }

  /** One member of an object. */
  lemma {:induction false} PairText(m: Member, d: nat, fmt: bool, e: Pair, next: Chars, after: Chars)
    requires Bytes(e.after, next) == after && exists last :: e == PrintedPair(m, d, fmt, e.tree, last)
    ensures Bytes(e.before, LiteralText(e.name, Bytes(e.middle, Cons(0x3A, Bytes(e.gap, TreeText(e.tree, after))))))
            == Layout(fmt, NEWLINE, 1, Layout(fmt, TAB, d + 1, StringText(m.name,
                 Cons(COLON, Layout(fmt, TAB, 1, TreeText(e.tree, after))))))
  {
    var value := TreeText(e.tree, after);
    OneText(fmt, 0x09, value);
    var colon := Cons(0x3A, Layout(fmt, TAB, 1, value));
    RawText(m.name, 0, Cons(0x22, colon));
    LineText(fmt, d + 1, StringText(m.name, colon));
  }

  // ---------- what is printed ----------

  /** All strings and names in v are UTF-8. */
  ghost predicate Utf8Value(v: Json) {
    match v
    case String(s) => WellFormed(s, 0)
    case Array(items) => forall i :: 0 <= i < |items| ==> Utf8Value(items[i])
    case Object(members) => forall i :: 0 <= i < |members| ==> Utf8Value(members[i].value) && WellFormed(members[i].name, 0)
    case _ => true
  }

  lemma {:induction false} RawLiteral(s: seq<CByte>)
    ensures LiteralTaken(Raw(s, 0), s)
    ensures LiteralDenotes(Raw(s, 0), s) <==> WellFormed(s, 0)
  {
    var raw := Raw(s, 0);
    var lit := [0x22] + raw + [0x22];
    LiteralStands(raw);
    RawText(s, 0, Cons(0x22, End));
    StringRead(lit, 0, s, End);
    assert Closing(lit, 1) == |raw| + 1;
    PrintedIff(lit, s, End);
    StrictIff(lit, 1, |raw| + 1, []);
  }

  lemma {:induction false} LiteralStands(raw: seq<Byte>)
    ensures Stands([0x22] + raw + [0x22], 0, LiteralText(raw, End))
  {
    var lit := [0x22] + raw + [0x22];
    BytesCopied(lit, 1, raw, Cons(0x22, End));
  }

  lemma {:induction false} BytesCopied(s: seq<Byte>, p: nat, b: seq<Byte>, rest: Chars)
    requires Copied(s, p, b) && Stands(s, p + |b|, rest)
    ensures Stands(s, p, Bytes(b, rest))
    decreases |b|
  {
    if b != [] {
      CopiedAt(s, p, b, 0);
      assert s[p + 1..p + 1 + |b[1..]|] == s[p..p + |b|][1..];
      BytesCopied(s, p + 1, b[1..], rest);
    }
  }

  lemma {:induction false} DecimalDigits(n: nat)
    ensures var d := Digits(n);
            Decimals(d) == n && (forall k :: 0 <= k < |d| ==> 0x30 <= d[k] <= 0x39) && (d[0] == 0x30 ==> n == 0 && |d| == 1)
  {
    if n >= 10 {
      DecimalDigits(n / 10);
      assert Digits(n)[..|Digits(n)| - 1] == Digits(n / 10);
    } else {
      assert Digits(n)[..0] == [];
    }
  }

  lemma {:induction false} DecimalDenotes(i: int)
    ensures NumberDenotes(Decimal(i), i)
  {
    DecimalDigits(if i < 0 then -i else i);
    if i < 0 {
      assert Decimal(i)[1..] == Digits(-i);
    }
  }

  lemma {:induction false} TabsWhite(n: nat)
    ensures White(Tabs(n))
  {
    if n > 0 {
      TabsWhite(n - 1);
    }
  }

  lemma {:induction false} LineWhite(fmt: bool, n: nat)
    ensures White(Line(fmt, n)) && Blanks(Line(fmt, n))
  {
    TabsWhite(n);
  }

  lemma {:induction false} ElementsAre(v: Json, d: nat, fmt: bool)
    requires v.Array?
    ensures var t := PrintedTree(v, d, fmt);
            t.ArrayTree? && t.open == [] && |t.elements| == |v.items| && forall i :: 0 <= i < |v.items| ==>
              && t.elements[i].tree == PrintedTree(v.items[i], d + 1, fmt)
              && White(t.elements[i].before) && White(t.elements[i].after)
  {
  }

  lemma {:induction false} PairsAre(v: Json, d: nat, fmt: bool)
    requires v.Object?
    ensures var t := PrintedTree(v, d, fmt);
            t.ObjectTree? && White(t.open) && |t.pairs| == |v.members| && forall i :: 0 <= i < |v.members| ==>
              && t.pairs[i].tree == PrintedTree(v.members[i].value, d + 1, fmt)
              && t.pairs[i].name == Raw(v.members[i].name, 0) && PairWhite(t.pairs[i])
  {
    LineWhite(fmt, d);
    LineWhite(fmt, d + 1);
  }

  /** The parser reads the printed tree of every value as that value. */
  lemma {:induction false} PrintedAccepted(v: Json, d: nat, fmt: bool)
    ensures Accepts(PrintedTree(v, d, fmt), v)
    decreases v
  {
    match v
    case Number(i) =>
      DecimalDenotes(i);
      NumberAccepted(Decimal(i), i);
    case String(s) => RawLiteral(s);
    case Array(items) =>
      ElementsAre(v, d, fmt);
      forall i | 0 <= i < |items| ensures Accepts(PrintedTree(items[i], d + 1, fmt), items[i]) {
        PrintedAccepted(items[i], d + 1, fmt);
      }
      ArrayAccepted(PrintedTree(v, d, fmt), v);
    case Object(members) =>
      PairsAre(v, d, fmt);
      forall i | 0 <= i < |members| ensures Accepts(PrintedTree(members[i].value, d + 1, fmt), members[i].value) {
        PrintedAccepted(members[i].value, d + 1, fmt);
      }
      ObjectAccepted(PrintedTree(v, d, fmt), v);
    case _ =>
  }

  lemma {:induction false} ArrayAccepted(t: Tree, v: Json)
    requires t.ArrayTree? && v.Array? && |t.elements| == |v.items| && t.open == []
    requires forall i :: 0 <= i < |v.items| ==>
               Accepts(t.elements[i].tree, v.items[i]) && White(t.elements[i].before) && White(t.elements[i].after)
    ensures Accepts(t, v)
  {
  }

  lemma {:induction false} ObjectAccepted(t: Tree, v: Json)
    requires t.ObjectTree? && v.Object? && |t.pairs| == |v.members| && White(t.open)
    requires forall i :: 0 <= i < |v.members| ==>
               && Accepts(t.pairs[i].tree, v.members[i].value) && PairWhite(t.pairs[i])
               && t.pairs[i].name == Raw(v.members[i].name, 0)
    ensures Accepts(t, v)
  {
    forall i | 0 <= i < |v.members| ensures NameTaken(t.pairs[i], v.members[i].name) {
      RawLiteral(v.members[i].name);
    }
  }

  /** By the standard it denotes the value exactly if all strings are UTF-8. */
  lemma {:induction false} PrintedDenotes(v: Json, d: nat, fmt: bool)
    ensures Denotes(PrintedTree(v, d, fmt), v) <==> Utf8Value(v)
    decreases v
  {
    match v
    case Number(i) => DecimalDenotes(i);
    case String(s) => RawLiteral(s);
    case Array(items) =>
      ElementsAre(v, d, fmt);
      forall i | 0 <= i < |items| ensures Denotes(PrintedTree(items[i], d + 1, fmt), items[i]) <==> Utf8Value(items[i]) {
        PrintedDenotes(items[i], d + 1, fmt);
      }
      ArrayDenotes(PrintedTree(v, d, fmt), v);
    case Object(members) =>
      PairsAre(v, d, fmt);
      forall i | 0 <= i < |members|
        ensures Denotes(PrintedTree(members[i].value, d + 1, fmt), members[i].value) <==> Utf8Value(members[i].value)
      {
        PrintedDenotes(members[i].value, d + 1, fmt);
      }
      ObjectDenotes(PrintedTree(v, d, fmt), v);
    case _ =>
  }

  lemma {:induction false} ArrayDenotes(t: Tree, v: Json)
    requires t.ArrayTree? && v.Array? && |t.elements| == |v.items| && t.open == []
    requires forall i :: 0 <= i < |v.items| ==>
               && (Denotes(t.elements[i].tree, v.items[i]) <==> Utf8Value(v.items[i]))
               && White(t.elements[i].before) && White(t.elements[i].after)
    ensures Denotes(t, v) <==> Utf8Value(v)
  {
  }

  lemma {:induction false} ObjectDenotes(t: Tree, v: Json)
    requires t.ObjectTree? && v.Object? && |t.pairs| == |v.members| && White(t.open)
    requires forall i :: 0 <= i < |v.members| ==>
               && (Denotes(t.pairs[i].tree, v.members[i].value) <==> Utf8Value(v.members[i].value))
               && PairWhite(t.pairs[i]) && t.pairs[i].name == Raw(v.members[i].name, 0)
    ensures Denotes(t, v) <==> Utf8Value(v)
  {
    forall i | 0 <= i < |v.members|
      ensures PairDenotes(t.pairs[i], v.members[i].name) <==> WellFormed(v.members[i].name, 0)
    {
      RawLiteral(v.members[i].name);
    }
  }

  lemma {:induction false} PrintedWhole(v: Json, fmt: bool)
    ensures TextOf(v, fmt) == TextWith([], PrintedTree(v, 0, fmt), [])
  {
    PrintedText(v, 0, fmt, Cons(0, End));
  }

  /** What is printed for a value whose strings are UTF-8, without its final zero, denotes the value. */
  lemma {:induction false} PrintedTextDenotes(v: Json, fmt: bool, s: seq<Byte>)
    requires Utf8Value(v) && s + [0] == TextOf(v, fmt)
    ensures TextDenotes(s, v)
  {
    PrintedWhole(v, fmt);
    PrintedDenotes(v, 0, fmt);
    assert IsText(s, v, [], PrintedTree(v, 0, fmt), []);
  }
}
