/** Canonical JSON: the tree a value is normalised to, how it is printed, and
    why two trees never print alike (sections 3.2.2 and 3.2.3 of RFC 8785). */
module Canonical {
  import opened Json
  import opened Hex
  import opened Unicode

  datatype Entry = Entry(key: Points, value: Tree)

  datatype Tree =
    | NullTree
    | BoolTree(b: bool)
    | NumberTree(shown: NumberText)
    | StringTree(text: Points)
    | ArrayTree(items: seq<Tree>)
    | ObjectTree(entries: seq<Entry>)

  const QUOTE: CodePoint := 34
  const COMMA: CodePoint := 44

  function Literal(s: string): Points
    requires forall i :: 0 <= i < |s| ==> s[i] < 128 as char
  {
    Text(s)
  }

  /** Short escapes where there are any, \u00xx for the other controls, and
      everything else as it is. */
  function Escape(p: CodePoint): (e: Points)
    ensures e != [] && e[0] != QUOTE
  {
    if p == 8 then [92, 98]
    else if p == 9 then [92, 116]
    else if p == 10 then [92, 110]
    else if p == 12 then [92, 102]
    else if p == 13 then [92, 114]
    else if p == 34 then [92, 34]
    else if p == 92 then [92, 92]
    else if p < 32 then [92, 117, 48, 48, HexDigit(p / 16), HexDigit(p % 16)]
    else [p]
  }

  function Escaped(p: Points): Points {
    if p == [] then [] else Escape(p[0]) + Escaped(p[1..])
  }

  function Quoted(p: Points): Points {
    [QUOTE] + Escaped(p) + [QUOTE]
  }

  function Print(t: Tree): Points
    decreases t, 1
  {
    match t
    case NullTree => Literal("null")
    case BoolTree(b) => if b then Literal("true") else Literal("false")
    case NumberTree(shown) => shown
    case StringTree(text) => Quoted(text)
    case ArrayTree(items) => [91] + PrintItems(items) + [93]
    case ObjectTree(entries) => [123] + PrintEntries(entries) + [125]
  }

  function PrintItems(items: seq<Tree>): Points
    decreases items, 0
  {
    if items == [] then []
    else if |items| == 1 then Print(items[0])
    else Print(items[0]) + [COMMA] + PrintItems(items[1..])
  }

  function PrintEntries(entries: seq<Entry>): Points
    decreases entries, 0
  {
    if entries == [] then []
    else if |entries| == 1 then Quoted(entries[0].key) + [58] + Print(entries[0].value)
    else Quoted(entries[0].key) + [58] + Print(entries[0].value) + [COMMA] + PrintEntries(entries[1..])
  }

  function Join<T>(parts: seq<seq<T>>, comma: T): seq<T> {
    if parts == [] then [] else if |parts| == 1 then parts[0] else parts[0] + [comma] + Join(parts[1..], comma)
  }

  // ----- No two trees print alike ------------------------------------------

  /** What may follow a value: nothing, a comma or a closing bracket. */
  predicate Delimited(x: Points) {
    x == [] || x[0] == COMMA || x[0] == 93 || x[0] == 125
  }

  lemma EscapePrefix(p: CodePoint, q: CodePoint, x: Points, y: Points)
    requires Escape(p) + x == Escape(q) + y
    ensures p == q && x == y
  {
    var a, b := Escape(p), Escape(q);
    var whole := a + x;
    assert whole[0] == a[0] && whole[0] == b[0];
    if |a| > 1 { assert whole[1] == a[1]; }
    if |b| > 1 { assert whole[1] == b[1]; }
    if |a| == 6 && |b| == 6 {
      assert whole[4] == a[4] && whole[4] == b[4] && whole[5] == a[5] && whole[5] == b[5];
      DigitReads(p / 16);
      DigitReads(q / 16);
      DigitReads(p % 16);
      DigitReads(q % 16);
    }
    assert |a| == |b|;
    assert x == whole[|a|..] && y == whole[|b|..];
  }

  function TextThen(p: Points, x: Points): Points {
    Escaped(p) + [QUOTE] + x
  }

  lemma TextSplits(p: Points, x: Points)
    ensures p == [] ==> TextThen(p, x) == [QUOTE] + x
    ensures p != [] ==> TextThen(p, x) == Escape(p[0]) + TextThen(p[1..], x)
    ensures TextThen(p, x) != [] && (TextThen(p, x)[0] == QUOTE <==> p == [])
  {
    if p != [] { Reassociate(Escape(p[0]), Escaped(p[1..]), x); }
  }

  lemma Reassociate(e: Points, r: Points, x: Points)
    ensures e + r + [QUOTE] + x == e + (r + [QUOTE] + x)
  {
  }

  lemma {:induction false} EscapedPrefix(p: Points, q: Points, x: Points, y: Points)
    requires TextThen(p, x) == TextThen(q, y)
    ensures p == q && x == y
  {
    TextSplits(p, x);
    TextSplits(q, y);
    if p == [] {
      assert x == ([QUOTE] + x)[1..] && y == ([QUOTE] + y)[1..];
    } else {
      EscapePrefix(p[0], q[0], TextThen(p[1..], x), TextThen(q[1..], y));
      EscapedPrefix(p[1..], q[1..], x, y);
      assert p == [p[0]] + p[1..] && q == [q[0]] + q[1..];
    }
  }

  lemma QuotedPrefix(p: Points, q: Points, x: Points, y: Points)
    requires Quoted(p) + x == Quoted(q) + y
    ensures p == q && x == y
  {
    assert (Quoted(p) + x)[1..] == TextThen(p, x);
    assert (Quoted(q) + y)[1..] == TextThen(q, y);
    EscapedPrefix(p, q, x, y);
  }

  /** A number ends where its digits do. */
  lemma NumberPrefix(m: NumberText, n: NumberText, x: Points, y: Points)
    requires Delimited(x) && Delimited(y) && m + x == n + y
    ensures m == n && x == y
  {
    NoLonger(m, n, x, y);
    NoLonger(n, m, y, x);
    var whole: Points := m + x;
    assert m == whole[..|m|] && n == whole[..|n|] && x == whole[|m|..] && y == whole[|n|..];
  }

  lemma NoLonger(m: NumberText, n: NumberText, x: Points, y: Points)
    requires Delimited(x) && m + x == n + y
    ensures |n| <= |m|
  {
    var whole: Points := m + x;
    assert forall i :: 0 <= i < |n| ==> whole[i] == n[i] && NumberUnit(n[i]);
    assert x != [] ==> whole[|m|] == x[0];
  }

  /** The first code point of a text says what kind of value it is. */
  function Opening(t: Tree): int {
    match t
    case NullTree => 110
    case BoolTree(b) => if b then 116 else 102
    case NumberTree(_) => 0
    case StringTree(_) => 34
    case ArrayTree(_) => 91
    case ObjectTree(_) => 123
  }

  predicate OpensAs(p: Points, t: Tree) {
    p != [] && if t.NumberTree? then p[0] <= 0xFFFF && NumberUnit(p[0]) else p[0] == Opening(t)
  }

  lemma PrintOpens(t: Tree, x: Points)
    ensures OpensAs(Print(t) + x, t)
  {
    if t.NumberTree? { assert NumberUnit(t.shown[0]); }
  }

  lemma SameOpening(a: Tree, b: Tree, x: Points, y: Points)
    requires Print(a) + x == Print(b) + y
    ensures Opening(a) == Opening(b)
  {
    PrintOpens(a, x);
    PrintOpens(b, y);
  }

  lemma LengthsAgree(p: Points, q: Points, x: Points, y: Points)
    requires p + x == q + y && |p| == |q|
    ensures x == y
  {
    assert x == (p + x)[|p|..] && y == (q + y)[|q|..];
  }

  lemma SameSeq<T>(a: seq<T>, b: seq<T>)
    requires a != [] && b != [] && a[0] == b[0] && |a| == |b| && (|a| > 1 ==> a[1..] == b[1..])
    ensures a == b
  {
    assert a == [a[0]] + a[1..] && b == [b[0]] + b[1..];
    if |a| == 1 { assert a[1..] == b[1..]; }
  }

  lemma DropFirst(first: CodePoint, x: Points, y: Points)
    requires [first] + x == [first] + y
    ensures x == y
  {
    LengthsAgree([first], [first], x, y);
  }

  function ItemsThen(items: seq<Tree>, x: Points): Points {
    PrintItems(items) + [93] + x
  }

  function AfterItem(items: seq<Tree>, x: Points): (rest: Points)
    requires items != []
    ensures Delimited(rest)
  {
    if |items| == 1 then [93] + x else [COMMA] + ItemsThen(items[1..], x)
  }

  lemma ItemsSplit(items: seq<Tree>, x: Points)
    ensures items == [] ==> ItemsThen(items, x) == [93] + x
    ensures items != [] ==> ItemsThen(items, x) == Print(items[0]) + AfterItem(items, x)
    ensures ItemsThen(items, x) != [] && (ItemsThen(items, x)[0] == 93 <==> items == [])
  {
    if items != [] {
      PrintOpens(items[0], AfterItem(items, x));
      var first, rest := Print(items[0]), PrintItems(items[1..]);
      if |items| == 1 { assert first + [93] + x == first + ([93] + x); }
      else { Regroup(first, rest, 93, x); }
    }
  }

  function EntriesThen(entries: seq<Entry>, x: Points): Points {
    PrintEntries(entries) + [125] + x
  }

  function AfterEntry(entries: seq<Entry>, x: Points): (rest: Points)
    requires entries != []
    ensures Delimited(rest)
  {
    if |entries| == 1 then [125] + x else [COMMA] + EntriesThen(entries[1..], x)
  }

  function ValueThen(entries: seq<Entry>, x: Points): Points
    requires entries != []
  {
    Print(entries[0].value) + AfterEntry(entries, x)
  }

  lemma EntriesSplit(entries: seq<Entry>, x: Points)
    ensures entries == [] ==> EntriesThen(entries, x) == [125] + x
    ensures entries != [] ==> EntriesThen(entries, x) == Quoted(entries[0].key) + ([58] + ValueThen(entries, x))
    ensures EntriesThen(entries, x) != [] && (EntriesThen(entries, x)[0] == 125 <==> entries == [])
  {
    if entries != [] {
      var key, first, rest := Quoted(entries[0].key), Print(entries[0].value), PrintEntries(entries[1..]);
      if |entries| == 1 { RegroupLast(key, first, x); } else { RegroupEntry(key, first, rest, x); }
    }
  }

  lemma RegroupLast(k: Points, v: Points, x: Points)
    ensures k + [58] + v + [125] + x == k + ([58] + (v + ([125] + x)))
  {
  }

  lemma RegroupEntry(k: Points, v: Points, r: Points, x: Points)
    ensures k + [58] + v + [COMMA] + r + [125] + x == k + ([58] + (v + ([COMMA] + (r + [125] + x))))
  {
  }

  lemma Regroup(p: Points, r: Points, close: CodePoint, x: Points)
    ensures p + [COMMA] + r + [close] + x == p + ([COMMA] + (r + [close] + x))
  {
  }

  lemma EntriesEnd(a: seq<Entry>, b: seq<Entry>, x: Points, y: Points)
    requires EntriesThen(a, x) == EntriesThen(b, y)
    ensures a == [] <==> b == []
    ensures a == [] ==> x == y
  {
    EntriesSplit(a, x);
    EntriesSplit(b, y);
    if a == [] { DropFirst(125, x, y); }
  }

  lemma FirstKey(a: seq<Entry>, b: seq<Entry>, x: Points, y: Points)
    requires a != [] && b != [] && EntriesThen(a, x) == EntriesThen(b, y)
    ensures a[0].key == b[0].key && ValueThen(a, x) == ValueThen(b, y)
  {
    EntriesSplit(a, x);
    EntriesSplit(b, y);
    QuotedPrefix(a[0].key, b[0].key, [58] + ValueThen(a, x), [58] + ValueThen(b, y));
    DropFirst(58, ValueThen(a, x), ValueThen(b, y));
  }

  /** A value's text ends where the value does. */
  lemma {:induction false} PrintPrefix(a: Tree, b: Tree, x: Points, y: Points)
    requires Delimited(x) && Delimited(y) && Print(a) + x == Print(b) + y
    ensures a == b && x == y
    decreases a, 2
  {
    SameOpening(a, b, x, y);
    match a
    case NullTree => LengthsAgree(Print(a), Print(b), x, y);
    case BoolTree(_) => LengthsAgree(Print(a), Print(b), x, y);
    case NumberTree(shown) => NumberPrefix(shown, b.shown, x, y);
    case StringTree(text) => QuotedPrefix(text, b.text, x, y);
    case ArrayTree(items) => ArrayPrefix(items, b.items, x, y);
    case ObjectTree(entries) => ObjectPrefix(entries, b.entries, x, y);
  }

  lemma Enclosed(open: CodePoint, inner: Points, close: CodePoint, x: Points)
    ensures [open] + inner + [close] + x == [open] + (inner + [close] + x)
  {
  }

  lemma {:induction false} ArrayPrefix(a: seq<Tree>, b: seq<Tree>, x: Points, y: Points)
    requires Print(ArrayTree(a)) + x == Print(ArrayTree(b)) + y
    ensures a == b && x == y
    decreases a, 1
  {
    Enclosed(91, PrintItems(a), 93, x);
    Enclosed(91, PrintItems(b), 93, y);
    DropFirst(91, ItemsThen(a, x), ItemsThen(b, y));
    ItemsPrefix(a, b, x, y);
  }

  lemma {:induction false} ObjectPrefix(a: seq<Entry>, b: seq<Entry>, x: Points, y: Points)
    requires Print(ObjectTree(a)) + x == Print(ObjectTree(b)) + y
    ensures a == b && x == y
    decreases a, 1
  {
    Enclosed(123, PrintEntries(a), 125, x);
    Enclosed(123, PrintEntries(b), 125, y);
    DropFirst(123, EntriesThen(a, x), EntriesThen(b, y));
    EntriesPrefix(a, b, x, y);
  }

  lemma {:induction false} ItemsPrefix(a: seq<Tree>, b: seq<Tree>, x: Points, y: Points)
    requires ItemsThen(a, x) == ItemsThen(b, y)
    ensures a == b && x == y
    decreases a, 0
  {
    ItemsEnd(a, b, x, y);
    if a != [] {
      PrintPrefix(a[0], b[0], AfterItem(a, x), AfterItem(b, y));
      ItemsAfter(a, b, x, y);
      if |a| > 1 { ItemsPrefix(a[1..], b[1..], x, y); }
      SameSeq(a, b);
    }
  }

  lemma ItemsEnd(a: seq<Tree>, b: seq<Tree>, x: Points, y: Points)
    requires ItemsThen(a, x) == ItemsThen(b, y)
    ensures a == [] <==> b == []
    ensures a == [] ==> x == y
    ensures a != [] ==> Print(a[0]) + AfterItem(a, x) == Print(b[0]) + AfterItem(b, y)
  {
    ItemsSplit(a, x);
    ItemsSplit(b, y);
    if a == [] { DropFirst(93, x, y); }
  }

  lemma ItemsAfter(a: seq<Tree>, b: seq<Tree>, x: Points, y: Points)
    requires a != [] && b != [] && AfterItem(a, x) == AfterItem(b, y)
    ensures |a| == 1 <==> |b| == 1
    ensures |a| == 1 ==> x == y
    ensures |a| > 1 ==> ItemsThen(a[1..], x) == ItemsThen(b[1..], y)
  {
    assert AfterItem(a, x)[0] == AfterItem(b, y)[0];
    assert AfterItem(a, x)[1..] == if |a| == 1 then x else ItemsThen(a[1..], x);
    assert AfterItem(b, y)[1..] == if |b| == 1 then y else ItemsThen(b[1..], y);
  }

  lemma {:induction false} EntriesPrefix(a: seq<Entry>, b: seq<Entry>, x: Points, y: Points)
    requires EntriesThen(a, x) == EntriesThen(b, y)
    ensures a == b && x == y
    decreases a, 0
  {
    EntriesEnd(a, b, x, y);
    if a != [] {
      FirstKey(a, b, x, y);
      PrintPrefix(a[0].value, b[0].value, AfterEntry(a, x), AfterEntry(b, y));
      EntriesAfter(a, b, x, y);
      if |a| > 1 { EntriesPrefix(a[1..], b[1..], x, y); }
      SameSeq(a, b);
    }
  }

  lemma EntriesAfter(a: seq<Entry>, b: seq<Entry>, x: Points, y: Points)
    requires a != [] && b != [] && AfterEntry(a, x) == AfterEntry(b, y)
    ensures |a| == 1 <==> |b| == 1
    ensures |a| == 1 ==> x == y
    ensures |a| > 1 ==> EntriesThen(a[1..], x) == EntriesThen(b[1..], y)
  {
    assert AfterEntry(a, x)[0] == AfterEntry(b, y)[0];
    assert AfterEntry(a, x)[1..] == if |a| == 1 then x else EntriesThen(a[1..], x);
    assert AfterEntry(b, y)[1..] == if |b| == 1 then y else EntriesThen(b[1..], y);
  }

  /** Two trees with one text are one tree. */
  lemma PrintInjective(a: Tree, b: Tree)
    requires Print(a) == Print(b)
    ensures a == b
  {
    assert Print(a) + [] == Print(b) + [];
    PrintPrefix(a, b, [], []);
  }
}
