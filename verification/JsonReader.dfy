/** Reading JSON back: a reader of the grammar of RFC 8259, without white space,
    and what it finds in a canonical text. */
module JsonReader {
  import opened Json
  import opened Results
  import opened Sorting
  import opened Unicode
  import opened Canonical
  import opened Canonicalize

  // ----- The reader -------------------------------------------------------

  /** What was read, and the text that is left. */
  datatype Reading<+T> = Reading(value: T, rest: Points)

  predicate Opens(p: Points, c: CodePoint) {
    p != [] && p[0] == c
  }

  predicate StartsWith(p: Points, word: Str) {
    |word| <= |p| && p[..|word|] == word
  }

  function HexDigitOf(c: CodePoint): (v: Option<nat>)
    ensures v.Some? ==> v.value < 16
  {
    if '0' as int <= c <= '9' as int then Some(c - '0' as int)
    else if 'a' as int <= c <= 'f' as int then Some(c - 'a' as int + 10)
    else if 'A' as int <= c <= 'F' as int then Some(c - 'A' as int + 10)
    else None
  }

  /** The code unit four hex digits name. */
  function UnitOf(a: CodePoint, b: CodePoint, c: CodePoint, d: CodePoint): Option<CodeUnit> {
    var w, x, y, z := HexDigitOf(a), HexDigitOf(b), HexDigitOf(c), HexDigitOf(d);
    if w.None? || x.None? || y.None? || z.None? then None
    else Some(((w.value * 16 + x.value) * 16 + y.value) * 16 + z.value)
  }

  /** The character a letter stands for after a backslash (section 7). */
  function Unescaped(c: CodePoint): Option<CodeUnit> {
    if c == '"' as int || c == '\\' as int || c == '/' as int then Some(c)
    else if c == 'b' as int then Some(0x08)
    else if c == 't' as int then Some(0x09)
    else if c == 'n' as int then Some(0x0A)
    else if c == 'f' as int then Some(0x0C)
    else if c == 'r' as int then Some(0x0D)
    else None
  }

  /** One character of a string, escaped or not. */
  function ReadCharacter(p: Points): (r: Option<Reading<Str>>)
    ensures r.Some? ==> |r.value.rest| < |p|
  {
    if p == [] || p[0] < 0x20 || p[0] == '"' as int then None
    else if p[0] != '\\' as int then Some(Reading(EncodePoint(p[0]), p[1..]))
    else if |p| >= 2 && Unescaped(p[1]).Some? then Some(Reading([Unescaped(p[1]).value], p[2..]))
    else if |p| >= 6 && p[1] == 'u' as int && UnitOf(p[2], p[3], p[4], p[5]).Some?
    then Some(Reading([UnitOf(p[2], p[3], p[4], p[5]).value], p[6..]))
    else None
  }

  /** A string, after its opening quote. */
  function ReadString(p: Points): (r: Option<Reading<Str>>)
    ensures r.Some? ==> |r.value.rest| < |p|
    decreases |p|
  {
    if Opens(p, '"' as int) then Some(Reading([], p[1..]))
    else
      var first := ReadCharacter(p);
      if first.None? then None
      else
        var others := ReadString(first.value.rest);
        if others.None? then None else Some(Reading(first.value.value + others.value.value, others.value.rest))
  }

  /** How many characters a number can be written with come first. */
  function NumberLength(p: Points): (n: nat)
    ensures n <= |p|
  {
    if p == [] || !(p[0] <= 0xFFFF && NumberUnit(p[0])) then 0 else 1 + NumberLength(p[1..])
  }

  lemma NumberUnits(p: Points)
    ensures forall i :: 0 <= i < NumberLength(p) ==> p[i] <= 0xFFFF && NumberUnit(p[i])
  {
  }

  /** A number is named by its text. */
  function ReadNumber(p: Points): (r: Option<Reading<Json>>)
    ensures r.Some? ==> |r.value.rest| < |p|
  {
    var n := NumberLength(p);
    NumberUnits(p);
    if n == 0 then None else Some(Reading(Number(Finite(p[..n])), p[n..]))
  }

  function ReadValue(p: Points): (r: Option<Reading<Json>>)
    ensures r.Some? ==> |r.value.rest| < |p|
    decreases |p|, 0
  {
    if StartsWith(p, Text("null")) then Some(Reading(Null, p[4..]))
    else if StartsWith(p, Text("true")) then Some(Reading(Bool(true), p[4..]))
    else if StartsWith(p, Text("false")) then Some(Reading(Bool(false), p[5..]))
    else if Opens(p, '"' as int) then
      var text := ReadString(p[1..]);
      if text.None? then None else Some(Reading(String(text.value.value), text.value.rest))
    else if Opens(p, '[' as int) then
      var items := if StartsWith(p, Text("[]")) then Some(Reading([], p[2..])) else ReadItems(p[1..]);
      if items.None? then None else Some(Reading(Array(items.value.value), items.value.rest))
    else if Opens(p, '{' as int) then
      var fields := if StartsWith(p, Text("{}")) then Some(Reading([], p[2..])) else ReadFields(p[1..]);
      if fields.None? then None else Some(Reading(Object(fields.value.value), fields.value.rest))
    else ReadNumber(p)
  }

  /** The items of an array from this one on, with its closing bracket. */
  function ReadItems(p: Points): (r: Option<Reading<seq<Json>>>)
    ensures r.Some? ==> |r.value.rest| < |p|
    decreases |p|, 1
  {
    var first := ReadValue(p);
    if first.None? then None
    else if Opens(first.value.rest, ']' as int) then Some(Reading([first.value.value], first.value.rest[1..]))
    else if Opens(first.value.rest, ',' as int) then
      var others := ReadItems(first.value.rest[1..]);
      if others.None? then None else Some(Reading([first.value.value] + others.value.value, others.value.rest))
    else None
  }

  function ReadField(p: Points): (r: Option<Reading<Field>>)
    ensures r.Some? ==> |r.value.rest| < |p|
    decreases |p|, 1
  {
    if !Opens(p, '"' as int) then None
    else
      var key := ReadString(p[1..]);
      if key.None? || !Opens(key.value.rest, ':' as int) then None
      else
        var value := ReadValue(key.value.rest[1..]);
        if value.None? then None else Some(Reading(Field(key.value.value, value.value.value), value.value.rest))
  }

  /** The fields of an object from this one on, with its closing brace. */
  function ReadFields(p: Points): (r: Option<Reading<seq<Field>>>)
    ensures r.Some? ==> |r.value.rest| < |p|
    decreases |p|, 2
  {
    var first := ReadField(p);
    if first.None? then None
    else if Opens(first.value.rest, '}' as int) then Some(Reading([first.value.value], first.value.rest[1..]))
    else if Opens(first.value.rest, ',' as int) then
      var others := ReadFields(first.value.rest[1..]);
      if others.None? then None else Some(Reading([first.value.value] + others.value.value, others.value.rest))
    else None
  }

  /** A whole text is one value and nothing else. */
  function ReadJson(text: Points): Option<Json> {
    var r := ReadValue(text);
    if r.Some? && r.value.rest == [] then Some(r.value.value) else None
  }

  // ----- Printed text reads back --------------------------------------------

  /** The value a tree is the tree of. */
  function ValueOf(t: Tree): Json
    decreases t
  {
    match t
    case NullTree => Null
    case BoolTree(b) => Bool(b)
    case NumberTree(shown) => Number(Finite(shown))
    case StringTree(text) => String(Encode(text))
    case ArrayTree(items) => Array(ValuesOf(items))
    case ObjectTree(entries) => Object(FieldsOf(entries))
  }

  function ValuesOf(items: seq<Tree>): (values: seq<Json>)
    ensures |values| == |items| && forall i :: 0 <= i < |items| ==> values[i] == ValueOf(items[i])
    decreases items
  {
    seq(|items|, i requires 0 <= i < |items| => ValueOf(items[i]))
  }

  function FieldsOf(entries: seq<Entry>): (fields: seq<Field>)
    ensures |fields| == |entries|
    ensures forall i :: 0 <= i < |entries| ==> fields[i] == Field(Encode(entries[i].key), ValueOf(entries[i].value))
    decreases entries
  {
    seq(|entries|, i requires 0 <= i < |entries| => Field(Encode(entries[i].key), ValueOf(entries[i].value)))
  }

  lemma Ahead(a: Points, x: Points)
    ensures (a + x)[|a|..] == x
    ensures forall i :: 0 <= i < |a| ==> (a + x)[i] == a[i]
  {
  }

  lemma ReadsEscape(p: CodePoint, x: Points)
    ensures ReadCharacter(Escape(p) + x) == Some(Reading(EncodePoint(p), x))
  {
    Ahead(Escape(p), x);
  }

  lemma {:induction false} ReadsString(text: Points, x: Points)
    ensures ReadString(TextThen(text, x)) == Some(Reading(Encode(text), x))
  {
    TextSplits(text, x);
    if text == [] {
      Ahead([QUOTE], x);
    } else {
      ReadsEscape(text[0], TextThen(text[1..], x));
      ReadsString(text[1..], x);
    }
  }

  lemma ReadsQuoted(text: Points, x: Points)
    ensures Opens(Quoted(text) + x, '"' as int)
    ensures ReadString((Quoted(text) + x)[1..]) == Some(Reading(Encode(text), x))
  {
    assert (Quoted(text) + x)[1..] == TextThen(text, x);
    ReadsString(text, x);
  }

  lemma {:induction false} NumberEnds(shown: NumberText, x: Points, n: nat)
    requires Delimited(x) && n <= |shown|
    ensures NumberLength((shown + x)[n..]) == |shown| - n
    decreases |shown| - n
  {
    var whole: Points := shown + x;
    if n < |shown| {
      assert whole[n..][0] == shown[n] && NumberUnit(shown[n]);
      assert whole[n..][1..] == whole[n + 1..];
      NumberEnds(shown, x, n + 1);
    } else {
      assert whole[n..] == x;
    }
  }

  lemma ReadsNumber(shown: NumberText, x: Points)
    requires Delimited(x)
    ensures ReadNumber(shown + x) == Some(Reading(Number(Finite(shown)), x))
  {
    NumberEnds(shown, x, 0);
    var whole: Points := shown + x;
    assert whole[0..] == whole && whole[..|shown|] == shown && whole[|shown|..] == x;
  }

  lemma ReadsLiteral(t: Tree, x: Points)
    requires t.NullTree? || t.BoolTree?
    ensures ReadValue(Print(t) + x) == Some(Reading(ValueOf(t), x))
  {
    Ahead(Print(t), x);
    assert (Print(t) + x)[..|Print(t)|] == Print(t);
    if t == BoolTree(true) { NotLiteral(Print(t) + x, "null"); }
    if t == BoolTree(false) {
      NotLiteral(Print(t) + x, "null");
      NotLiteral(Print(t) + x, "true");
    }
  }

  lemma NotLiteral(p: Points, word: string)
    requires word != "" && forall i :: 0 <= i < |word| ==> word[i] < 128 as char
    requires p == [] || p[0] != word[0] as int
    ensures !StartsWith(p, Text(word))
  {
    if |word| <= |p| { assert p[..|word|][0] == p[0] && Text(word)[0] == word[0] as int; }
  }

  /** Any other value is told by its first character. */
  lemma NoLiteral(p: Points)
    requires p != [] && p[0] != 'n' as int && p[0] != 't' as int && p[0] != 'f' as int
    ensures !StartsWith(p, Text("null")) && !StartsWith(p, Text("true")) && !StartsWith(p, Text("false"))
  {
    NotLiteral(p, "null");
    NotLiteral(p, "true");
    NotLiteral(p, "false");
  }

  /** A value's text reads as the value, whatever follows. */
  lemma {:induction false} ReadsValue(t: Tree, x: Points)
    requires Delimited(x)
    ensures ReadValue(Print(t) + x) == Some(Reading(ValueOf(t), x))
    decreases t, 2
  {
    match t
    case NullTree => ReadsLiteral(t, x);
    case BoolTree(_) => ReadsLiteral(t, x);
    case NumberTree(shown) => ReadsNumberTree(shown, x);
    case StringTree(text) => ReadsStringTree(text, x);
    case ArrayTree(items) => ReadsArray(items, x);
    case ObjectTree(entries) => ReadsObject(entries, x);
  }

  lemma ReadsNumberTree(shown: NumberText, x: Points)
    requires Delimited(x)
    ensures ReadValue(shown + x) == Some(Reading(Number(Finite(shown)), x))
  {
    var whole: Points := shown + x;
    assert whole[0] == shown[0] && NumberUnit(shown[0]);
    NoLiteral(whole);
    ReadsNumber(shown, x);
  }

  lemma ReadsStringTree(text: Points, x: Points)
    ensures ReadValue(Quoted(text) + x) == Some(Reading(String(Encode(text)), x))
  {
    NoLiteral(Quoted(text) + x);
    ReadsQuoted(text, x);
  }

  lemma ArrayStep(p: Points, rest: Points, items: seq<Json>, x: Points)
    requires p == ['[' as int] + rest
    requires if items == [] then rest == [']' as int] + x
      else rest != [] && rest[0] != ']' as int && ReadItems(rest) == Some(Reading(items, x))
    ensures ReadValue(p) == Some(Reading(Array(items), x))
  {
    NoLiteral(p);
    assert p[1..] == rest && p[1] == rest[0];
    assert p[..2][0] == p[0] && p[..2][1] == p[1];
    if items == [] { assert p[2..] == x && p[..2] == Text("[]"); }
  }

  lemma {:induction false} ReadsArray(items: seq<Tree>, x: Points)
    ensures ReadValue(Print(ArrayTree(items)) + x) == Some(Reading(Array(ValuesOf(items)), x))
    decreases items, 1
  {
    Enclosed('[' as int, PrintItems(items), ']' as int, x);
    ItemsSplit(items, x);
    if items != [] { ReadsItems(items, x); }
    ArrayStep(Print(ArrayTree(items)) + x, ItemsThen(items, x), ValuesOf(items), x);
  }

  lemma ItemsStep(p: Points, value: Json, after: Points, others: seq<Json>, x: Points)
    requires ReadValue(p) == Some(Reading(value, after))
    requires if others == [] then after == [']' as int] + x
      else Opens(after, ',' as int) && ReadItems(after[1..]) == Some(Reading(others, x))
    ensures ReadItems(p) == Some(Reading([value] + others, x))
  {
    if others == [] { assert after[1..] == x && [value] + others == [value]; }
  }

  lemma {:induction false} ReadsItems(items: seq<Tree>, x: Points)
    requires items != []
    ensures ReadItems(ItemsThen(items, x)) == Some(Reading(ValuesOf(items), x))
    decreases items, 0
  {
    ReadsValue(items[0], AfterItem(items, x));
    if |items| > 1 { ReadsItems(items[1..], x); }
    ItemsFollow(items, x);
    ValuesSplit(items);
  }

  lemma ValuesSplit(items: seq<Tree>)
    requires items != []
    ensures ValuesOf(items) == [ValueOf(items[0])] + ValuesOf(items[1..])
  {
  }

  lemma ItemsFollow(items: seq<Tree>, x: Points)
    requires items != []
    requires ReadValue(Print(items[0]) + AfterItem(items, x)) ==
      Some(Reading(ValueOf(items[0]), AfterItem(items, x)))
    requires |items| > 1 ==> ReadItems(ItemsThen(items[1..], x)) == Some(Reading(ValuesOf(items[1..]), x))
    ensures ReadItems(ItemsThen(items, x)) == Some(Reading([ValueOf(items[0])] + ValuesOf(items[1..]), x))
  {
    var after := AfterItem(items, x);
    ItemsSplit(items, x);
    if |items| > 1 { assert after[1..] == ItemsThen(items[1..], x); }
    ItemsStep(ItemsThen(items, x), ValueOf(items[0]), after, ValuesOf(items[1..]), x);
  }

  lemma ObjectStep(p: Points, rest: Points, fields: seq<Field>, x: Points)
    requires p == ['{' as int] + rest
    requires if fields == [] then rest == ['}' as int] + x
      else rest != [] && rest[0] != '}' as int && ReadFields(rest) == Some(Reading(fields, x))
    ensures ReadValue(p) == Some(Reading(Object(fields), x))
  {
    NoLiteral(p);
    assert p[1..] == rest && p[1] == rest[0];
    assert p[..2][0] == p[0] && p[..2][1] == p[1];
    if fields == [] { assert p[2..] == x && p[..2] == Text("{}"); }
  }

  lemma {:induction false} ReadsObject(entries: seq<Entry>, x: Points)
    ensures ReadValue(Print(ObjectTree(entries)) + x) == Some(Reading(Object(FieldsOf(entries)), x))
    decreases entries, 1
  {
    Enclosed('{' as int, PrintEntries(entries), '}' as int, x);
    EntriesSplit(entries, x);
    if entries != [] { ReadsFields(entries, x); }
    ObjectStep(Print(ObjectTree(entries)) + x, EntriesThen(entries, x), FieldsOf(entries), x);
  }

  lemma FieldsStep(p: Points, field: Field, after: Points, others: seq<Field>, x: Points)
    requires ReadField(p) == Some(Reading(field, after))
    requires if others == [] then after == ['}' as int] + x
      else Opens(after, ',' as int) && ReadFields(after[1..]) == Some(Reading(others, x))
    ensures ReadFields(p) == Some(Reading([field] + others, x))
  {
    if others == [] { assert after[1..] == x && [field] + others == [field]; }
  }

  lemma {:induction false} ReadsFields(entries: seq<Entry>, x: Points)
    requires entries != []
    ensures ReadFields(EntriesThen(entries, x)) == Some(Reading(FieldsOf(entries), x))
    decreases entries, 0
  {
    ReadsValue(entries[0].value, AfterEntry(entries, x));
    ReadsField(entries, x);
    if |entries| > 1 { ReadsFields(entries[1..], x); }
    FieldsFollow(entries, x);
    FieldsSplit(entries);
  }

  lemma FieldsSplit(entries: seq<Entry>)
    requires entries != []
    ensures FieldsOf(entries) == [FieldOf(entries[0])] + FieldsOf(entries[1..])
  {
  }

  lemma FieldsFollow(entries: seq<Entry>, x: Points)
    requires entries != []
    requires ReadField(EntriesThen(entries, x)) == Some(Reading(FieldOf(entries[0]), AfterEntry(entries, x)))
    requires |entries| > 1 ==> ReadFields(EntriesThen(entries[1..], x)) == Some(Reading(FieldsOf(entries[1..]), x))
    ensures ReadFields(EntriesThen(entries, x)) ==
      Some(Reading([FieldOf(entries[0])] + FieldsOf(entries[1..]), x))
  {
    var after := AfterEntry(entries, x);
    if |entries| > 1 { assert after[1..] == EntriesThen(entries[1..], x); }
    FieldsStep(EntriesThen(entries, x), FieldOf(entries[0]), after, FieldsOf(entries[1..]), x);
  }

  function FieldOf(e: Entry): Field {
    Field(Encode(e.key), ValueOf(e.value))
  }

  lemma ReadsField(entries: seq<Entry>, x: Points)
    requires entries != []
    requires ReadValue(ValueThen(entries, x)) == Some(Reading(ValueOf(entries[0].value), AfterEntry(entries, x)))
    ensures ReadField(EntriesThen(entries, x)) == Some(Reading(FieldOf(entries[0]), AfterEntry(entries, x)))
  {
    var rest := [':' as int] + ValueThen(entries, x);
    EntriesSplit(entries, x);
    ReadsQuoted(entries[0].key, rest);
    assert rest[1..] == ValueThen(entries, x);
  }

  /** Printing and reading come back to the value. */
  lemma ReadsBack(t: Tree)
    ensures ReadJson(Print(t)) == Some(ValueOf(t))
  {
    ReadsValue(t, []);
    assert Print(t) + [] == Print(t);
  }

  // ----- … and is the canonical text of it ------------------------------------

  /** In a, the first code unit that differs is the smaller, or there is none
      and a ends first. */
  ghost predicate UnitsBefore(a: Str, b: Str) {
    exists k :: 0 <= k <= |a| && k < |b| && a[..k] == b[..k] && (k == |a| || a[k] < b[k])
  }

  ghost predicate IsNormal(s: Str, nfc: Nfc) {
    nfc(Decode(s)) == Decode(s)
  }

  /** Every text is in NFC, and the keys of every object strictly ascend. */
  ghost predicate InCanonicalForm(v: Json, nfc: Nfc) {
    match v
    case String(s) => IsNormal(s, nfc)
    case Array(items) => forall i :: 0 <= i < |items| ==> InCanonicalForm(items[i], nfc)
    case Object(fields) =>
      && (forall i :: 0 <= i < |fields| ==> IsNormal(fields[i].key, nfc) && InCanonicalForm(fields[i].value, nfc))
      && (forall i, j :: 0 <= i < j < |fields| ==> UnitsBefore(fields[i].key, fields[j].key))
    case _ => true
  }

  lemma {:induction false} StrictlyBefore(a: Str, b: Str)
    requires LexLe(a, b) && a != b
    ensures UnitsBefore(a, b)
  {
    if a == [] || a[0] < b[0] {
      assert a[..0] == b[..0];
    } else {
      assert a == [a[0]] + a[1..] && b == [b[0]] + b[1..];
      StrictlyBefore(a[1..], b[1..]);
      var k :| 0 <= k <= |a[1..]| && k < |b[1..]| && a[1..][..k] == b[1..][..k]
        && (k == |a[1..]| || a[1..][k] < b[1..][k]);
      assert a[..k + 1] == [a[0]] + a[1..][..k] && b[..k + 1] == [b[0]] + b[1..][..k];
    }
  }

  /** Sorted entries with different keys come in strictly ascending order. */
  lemma KeysAscend(entries: seq<Entry>)
    requires KeysDiffer(entries) && forall e :: e in entries ==> Scalars(e.key)
    ensures var sorted := Sort(entries, EntryByUnits);
      forall i, j :: 0 <= i < j < |sorted| ==> UnitsBefore(Encode(sorted[i].key), Encode(sorted[j].key))
  {
    var sorted := Sort(entries, EntryByUnits);
    UnitsAreAnOrder();
    SortSorts(entries, EntryByUnits);
    SortHasNoRepeats(entries, EntryByUnits);
    SortKeeps(entries, EntryByUnits);
    MembersOf(sorted, entries);
    forall i, j | 0 <= i < j < |sorted| ensures UnitsBefore(Encode(sorted[i].key), Encode(sorted[j].key)) {
      assert sorted[i] in entries && sorted[j] in entries && EntryByUnits(sorted[i], sorted[j]);
      DecodeUndoesEncode(sorted[i].key);
      DecodeUndoesEncode(sorted[j].key);
      StrictlyBefore(Encode(sorted[i].key), Encode(sorted[j].key));
    }
  }

  /** Normalised text is text in NFC. */
  lemma NormalIsNormal(s: Str, nfc: Nfc)
    requires IsNormalForm(nfc) && NormalText(s, nfc).Success?
    ensures var text := NormalText(s, nfc).value;
      Scalars(text) && Decode(Encode(text)) == text && IsNormal(Encode(text), nfc) && nfc(Decode(s)) == text
  {
    ScalarsAreWellFormed(s);
    DecodeUndoesEncode(NormalText(s, nfc).value);
  }

  lemma {:induction false} TreesAreCanonical(v: Json, nfc: Nfc)
    requires IsNormalForm(nfc) && TreeOf(v, nfc).Success?
    ensures Alike(v, ValueOf(TreeOf(v, nfc).value), nfc)
    ensures InCanonicalForm(ValueOf(TreeOf(v, nfc).value), nfc)
    decreases v, 1
  {
    match v
    case String(s) => NormalIsNormal(s, nfc);
    case Array(items) =>
      TreesAt(items, nfc);
      forall i | 0 <= i < |items|
        ensures Alike(items[i], ValueOf(TreesOf(items, nfc).value[i]), nfc)
        ensures InCanonicalForm(ValueOf(TreesOf(items, nfc).value[i]), nfc)
      {
        TreesAreCanonical(items[i], nfc);
      }
    case Object(fields) => ObjectsAreCanonical(fields, nfc);
    case _ =>
  }

  /** One field and the field its entry reads as. */
  ghost predicate Pair(a: Field, e: Entry, nfc: Nfc) {
    FieldsAlike(a, FieldOf(e), nfc) && IsNormal(FieldOf(e).key, nfc) && InCanonicalForm(FieldOf(e).value, nfc)
  }

  lemma {:induction false} ObjectsAreCanonical(fields: seq<Field>, nfc: Nfc)
    requires IsNormalForm(nfc) && TreeOf(Object(fields), nfc).Success?
    ensures Alike(Object(fields), ValueOf(TreeOf(Object(fields), nfc).value), nfc)
    ensures InCanonicalForm(ValueOf(TreeOf(Object(fields), nfc).value), nfc)
    decreases fields, 0
  {
    var entries := ObjectEntries(fields, nfc);
    KeysAreScalars(fields, entries, nfc);
    KeysAscend(entries);
    forall i | 0 <= i < |fields| ensures Pair(fields[i], entries[i], nfc) {
      TreesAreCanonical(fields[i].value, nfc);
      NormalIsNormal(fields[i].key, nfc);
    }
    SortKeeps(entries, EntryByUnits);
    var sorted := Sort(entries, EntryByUnits);
    MembersOf(sorted, entries);
    SortedFields(fields, entries, sorted, nfc);
    SortedIsAlike(fields, sorted, nfc);
    SortedIsCanonical(fields, sorted, nfc);
  }

  ghost predicate BackIn(fields: seq<Field>, e: Entry, nfc: Nfc) {
    RightIn(fields, FieldOf(e), nfc) && IsNormal(FieldOf(e).key, nfc) && InCanonicalForm(FieldOf(e).value, nfc)
  }

  lemma FoundIn(a: Field, e: Entry, sorted: seq<Entry>, nfc: Nfc)
    requires Pair(a, e, nfc) && e in sorted
    ensures LeftIn(a, FieldsOf(sorted), nfc)
  {
    var j :| 0 <= j < |sorted| && sorted[j] == e;
    assert FieldsAlike(a, FieldsOf(sorted)[j], nfc);
  }

  lemma FoundBack(fields: seq<Field>, i: nat, e: Entry, nfc: Nfc)
    requires i < |fields| && Pair(fields[i], e, nfc)
    ensures BackIn(fields, e, nfc)
  {
  }

  lemma SortedFields(fields: seq<Field>, entries: seq<Entry>, sorted: seq<Entry>, nfc: Nfc)
    requires |fields| == |entries| && forall i :: 0 <= i < |fields| ==> Pair(fields[i], entries[i], nfc)
    requires forall e :: e in sorted <==> e in entries
    ensures forall i :: 0 <= i < |fields| ==> LeftIn(fields[i], FieldsOf(sorted), nfc)
    ensures forall j :: 0 <= j < |sorted| ==> BackIn(fields, sorted[j], nfc)
  {
    forall i | 0 <= i < |fields| ensures LeftIn(fields[i], FieldsOf(sorted), nfc) {
      FoundIn(fields[i], entries[i], sorted, nfc);
    }
    forall j | 0 <= j < |sorted| ensures BackIn(fields, sorted[j], nfc) {
      assert sorted[j] in entries;
      var i :| 0 <= i < |entries| && entries[i] == sorted[j];
      FoundBack(fields, i, sorted[j], nfc);
    }
  }

  lemma ReadIsAlike(fields: seq<Field>, read: seq<Field>, nfc: Nfc)
    requires forall i :: 0 <= i < |fields| ==> LeftIn(fields[i], read, nfc)
    requires forall j :: 0 <= j < |read| ==> RightIn(fields, read[j], nfc)
    ensures Alike(Object(fields), Object(read), nfc)
  {
  }

  lemma SortedIsAlike(fields: seq<Field>, sorted: seq<Entry>, nfc: Nfc)
    requires forall i :: 0 <= i < |fields| ==> LeftIn(fields[i], FieldsOf(sorted), nfc)
    requires forall j :: 0 <= j < |sorted| ==> BackIn(fields, sorted[j], nfc)
    ensures Alike(Object(fields), Object(FieldsOf(sorted)), nfc)
  {
    var read := FieldsOf(sorted);
    forall j | 0 <= j < |read| ensures RightIn(fields, read[j], nfc) {
      assert BackIn(fields, sorted[j], nfc) && read[j] == FieldOf(sorted[j]);
    }
    ReadIsAlike(fields, read, nfc);
  }

  lemma SortedIsCanonical(fields: seq<Field>, sorted: seq<Entry>, nfc: Nfc)
    requires forall j :: 0 <= j < |sorted| ==> BackIn(fields, sorted[j], nfc)
    requires forall i, j :: 0 <= i < j < |sorted| ==> UnitsBefore(Encode(sorted[i].key), Encode(sorted[j].key))
    ensures InCanonicalForm(Object(FieldsOf(sorted)), nfc)
  {
  }

  // ----- … the shortest there is ------------------------------------------

  /** How long a string is printed. */
  function Cost(s: Str): nat {
    |Escaped(Decode(s))|
  }

  lemma CostOf(first: CodePoint, others: Points)
    ensures |Escaped([first] + others)| == |Escape(first)| + |Escaped(others)|
  {
    assert ([first] + others)[1..] == others;
  }

  lemma UnitCosts(u: CodeUnit, s: Str)
    ensures Cost([u] + s) <= |Escape(u)| + Cost(s)
  {
    var whole := [u] + s;
    assert whole[1..] == s;
    if IsHigh(u) && s != [] && IsLow(s[0]) {
      assert whole[2..] == s[1..];
      CostOf(Combine(u, s[0]), Decode(s[1..]));
      CostOf(s[0], Decode(s[1..]));
    } else {
      CostOf(u, Decode(s));
    }
  }

  lemma PointCosts(p: CodePoint, s: Str)
    ensures Cost(EncodePoint(p) + s) <= |Escape(p)| + Cost(s)
  {
    if p < 0x10000 {
      UnitCosts(p, s);
    } else {
      var whole := EncodePoint(p) + s;
      assert whole[2..] == s && Combine(whole[0], whole[1]) == p;
      CostOf(p, Decode(s));
    }
  }

  /** No way of writing a character is shorter than the printed one. */
  lemma CharacterCosts(p: Points, s: Str)
    requires ReadCharacter(p).Some?
    ensures Cost(ReadCharacter(p).value.value + s) <= |p| - |ReadCharacter(p).value.rest| + Cost(s)
  {
    if p[0] != '\\' as int { PointCosts(p[0], s); } else { UnitCosts(ReadCharacter(p).value.value[0], s); }
  }

  lemma {:induction false} StringCosts(p: Points)
    requires ReadString(p).Some?
    ensures Cost(ReadString(p).value.value) + 1 + |ReadString(p).value.rest| <= |p|
    decreases |p|
  {
    if !Opens(p, '"' as int) {
      var first := ReadCharacter(p).value;
      StringCosts(first.rest);
      CharacterCosts(p, ReadString(first.rest).value.value);
    }
  }

  lemma TextCosts(p: Points, text: Points)
    requires Opens(p, '"' as int) && ReadString(p[1..]).Some?
    requires Scalars(text) && ReadString(p[1..]).value.value == Encode(text)
    ensures |Quoted(text)| + |ReadString(p[1..]).value.rest| <= |p|
  {
    StringCosts(p[1..]);
    DecodeUndoesEncode(text);
  }

  lemma {:induction false} ValueCosts(p: Points, t: Tree)
    requires TreeScalars(t) && ReadValue(p).Some? && ReadValue(p).value.value == ValueOf(t)
    ensures |Print(t)| + |ReadValue(p).value.rest| <= |p|
    decreases |p|, 0
  {
    match t
    case StringTree(text) => TextCosts(p, text);
    case ArrayTree(items) => if items != [] { ItemsCost(p[1..], items); }
    case ObjectTree(entries) => if entries != [] { FieldsCost(p[1..], entries); }
    case _ =>
  }

  lemma {:induction false} ItemsCost(p: Points, items: seq<Tree>)
    requires items != [] && forall i :: 0 <= i < |items| ==> TreeScalars(items[i])
    requires ReadItems(p).Some? && ReadItems(p).value.value == ValuesOf(items)
    ensures |PrintItems(items)| + 1 + |ReadItems(p).value.rest| <= |p|
    decreases |p|, 1
  {
    var first := ReadValue(p).value;
    var values := ReadItems(p).value.value;
    assert values[0] == first.value == ValueOf(items[0]);
    ValueCosts(p, items[0]);
    if |items| > 1 {
      assert ReadItems(first.rest[1..]).value.value == values[1..] == ValuesOf(items[1..]);
      ItemsCost(first.rest[1..], items[1..]);
    }
  }

  lemma {:induction false} FieldsCost(p: Points, entries: seq<Entry>)
    requires entries != []
    requires forall i :: 0 <= i < |entries| ==> Scalars(entries[i].key) && TreeScalars(entries[i].value)
    requires ReadFields(p).Some? && ReadFields(p).value.value == FieldsOf(entries)
    ensures |PrintEntries(entries)| + 1 + |ReadFields(p).value.rest| <= |p|
    decreases |p|, 2
  {
    var first := ReadField(p).value;
    var fields := ReadFields(p).value.value;
    assert fields[0] == first.value == FieldOf(entries[0]);
    FieldCosts(p, entries[0]);
    if |entries| > 1 {
      assert ReadFields(first.rest[1..]).value.value == fields[1..] == FieldsOf(entries[1..]);
      FieldsCost(first.rest[1..], entries[1..]);
    }
  }

  lemma {:induction false} FieldCosts(p: Points, e: Entry)
    requires Scalars(e.key) && TreeScalars(e.value)
    requires ReadField(p).Some? && ReadField(p).value.value == FieldOf(e)
    ensures |Quoted(e.key) + [58] + Print(e.value)| + |ReadField(p).value.rest| <= |p|
    decreases |p|, 1
  {
    TextCosts(p, e.key);
    ValueCosts(ReadString(p[1..]).value.rest[1..], e.value);
  }

  // ----- The canonical text of a value ----------------------------------------

  /** The canonical text of a value reads, by the grammar of JSON, as a value
      alike to it, in canonical form, and no text that reads so is shorter. */
  lemma CanonicalTextReads(v: Json, nfc: Nfc)
    requires IsNormalForm(nfc) && CanonicalText(v, nfc).Success?
    ensures var text := Decode(CanonicalText(v, nfc).value);
      && ReadJson(text).Some?
      && Alike(v, ReadJson(text).value, nfc) && InCanonicalForm(ReadJson(text).value, nfc)
      && forall p :: ReadJson(p) == ReadJson(text) ==> |text| <= |p|
  {
    var t := TreeOf(v, nfc).value;
    TextDecodes(v, nfc);
    ReadsBack(t);
    TreesAreCanonical(v, nfc);
    TreeOfIsScalar(v, nfc);
    forall p | ReadJson(p) == ReadJson(Print(t)) ensures |Print(t)| <= |p| { ValueCosts(p, t); }
  }

  /** And its escapes are in lower case: a capital letter in a printed string is
      one of the string. */
  lemma {:induction false} EscapesAddNoCapitals(text: Points)
    ensures forall c :: c in Escaped(text) && 'A' as int <= c <= 'Z' as int ==> c in text
  {
    if text != [] {
      EscapesAddNoCapitals(text[1..]);
      assert forall c :: c in Escape(text[0]) && 'A' as int <= c <= 'Z' as int ==> c == text[0];
      assert forall c :: c in text[1..] ==> c in text;
    }
  }
}
