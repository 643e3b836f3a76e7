/** The TypeScript canonicaliser as it runs: loops over strings, arrays and keys. */
module CanonicalizeLoops {
  import opened Json
  import opened Results
  import opened Sorting
  import opened Unicode
  import opened Canonical
  import opened Canonicalize

  method AssertWellFormed(s: Str) returns (ok: bool)
    ensures ok <==> WellFormed(s)
  {
    var i := 0;
    while i < |s|
      invariant 0 <= i <= |s|
      invariant WellFormed(s) <==> WellFormed(s[i..])
    {
      var c := s[i];
      if IsHigh(c) {
        var next := if i + 1 < |s| then s[i + 1] else 0;
        if !IsLow(next) { return false; }
        assert s[i..][2..] == s[i + 2..];
        i := i + 1;
      } else if IsLow(c) {
        return false;
      } else {
        assert s[i..][1..] == s[i + 1..];
      }
      i := i + 1;
    }
    return true;
  }

  function QuotedText(text: Result<Points, CanonicalError>): Result<Str, CanonicalError> {
    var points :- text;
    Success(Encode(Quoted(points)))
  }

  method SerializeString(raw: Str, nfc: Nfc) returns (r: Result<Str, CanonicalError>)
    requires IsNormalForm(nfc)
    ensures r == QuotedText(NormalText(raw, nfc))
  {
    var ok := AssertWellFormed(raw);
    if !ok { return Failure(UnpairedSurrogate); }
    var s := Encode(nfc(Decode(raw)));
    ScalarsAreWellFormed(raw);
    DecodeUndoesEncode(nfc(Decode(raw)));
    var points := Decode(s);
    var out: Str := [QUOTE];
    for i := 0 to |points|
      invariant out == Encode([QUOTE] + Escaped(points[..i]))
    {
      QuotingGrows(points, i);
      out := out + Encode(Escape(points[i]));
    }
    assert points[..|points|] == points;
    EncodeConcatenates([QUOTE] + Escaped(points), [QUOTE]);
    return Success(out + [QUOTE]);
  }

  lemma {:induction false} EscapedConcatenates(a: Points, b: Points)
    ensures Escaped(a + b) == Escaped(a) + Escaped(b)
  {
    if a == [] {
      assert a + b == b;
    } else {
      EscapedConcatenates(a[1..], b);
      assert (a + b)[0] == a[0] && (a + b)[1..] == a[1..] + b;
      Associate(Escape(a[0]), Escaped(a[1..]), Escaped(b));
    }
  }

  lemma Associate(a: Points, b: Points, c: Points)
    ensures a + (b + c) == a + b + c
  {
  }

  lemma QuotingGrows(points: Points, i: nat)
    requires i < |points|
    ensures Encode([QUOTE] + Escaped(points[..i])) + Encode(Escape(points[i])) ==
      Encode([QUOTE] + Escaped(points[..i + 1]))
  {
    EscapedGrows(points, i);
    EncodeConcatenates([QUOTE] + Escaped(points[..i]), Escape(points[i]));
    assert [QUOTE] + Escaped(points[..i]) + Escape(points[i]) == [QUOTE] + Escaped(points[..i + 1]);
  }

  lemma EscapedGrows(points: Points, i: nat)
    requires i < |points|
    ensures Escaped(points[..i + 1]) == Escaped(points[..i]) + Escape(points[i])
  {
    assert points[..i + 1] == points[..i] + [points[i]];
    EscapedConcatenates(points[..i], [points[i]]);
    assert Escaped([points[i]]) == Escape(points[i]) + Escaped([]);
  }

  // ----- Arrays -----------------------------------------------------------

  lemma {:induction false} JoinedItems(parts: seq<Str>, trees: seq<Tree>)
    requires |parts| == |trees| && forall i :: 0 <= i < |parts| ==> parts[i] == Encode(Print(trees[i]))
    ensures Join(parts, COMMA) == Encode(PrintItems(trees))
  {
    if |parts| > 1 {
      JoinedItems(parts[1..], trees[1..]);
      EncodeJoin(Print(trees[0]), PrintItems(trees[1..]));
    }
  }

  lemma EncodeUnit(u: CodeUnit)
    ensures Encode([u]) == [u]
  {
    assert [u][1..] == [];
    assert Encode([u]) == EncodePoint(u) + Encode([]);
  }

  lemma EncodeJoin(a: Points, b: Points)
    ensures Encode(a + [COMMA] + b) == Encode(a) + [COMMA] + Encode(b)
  {
    EncodeConcatenates(a + [COMMA], b);
    EncodeConcatenates(a, [COMMA]);
    EncodeUnit(COMMA);
  }

  lemma {:induction false} TreesUntil(items: seq<Json>, i: nat, nfc: Nfc)
    requires i < |items| && TreeOf(items[i], nfc).Failure?
    requires forall j :: 0 <= j < i ==> TreeOf(items[j], nfc).Success?
    ensures TreesOf(items, nfc) == Failure(TreeOf(items[i], nfc).error)
  {
    if i > 0 { TreesUntil(items[1..], i - 1, nfc); }
  }

  lemma {:induction false} TreesAll(items: seq<Json>, nfc: Nfc)
    requires forall j :: 0 <= j < |items| ==> TreeOf(items[j], nfc).Success?
    ensures TreesOf(items, nfc).Success?
  {
    if items != [] { TreesAll(items[1..], nfc); }
  }

  /** The parts are the texts of the first items. */
  ghost predicate Texts(items: seq<Json>, parts: seq<Str>, nfc: Nfc) {
    && |parts| <= |items|
    && forall j :: 0 <= j < |parts| ==> CanonicalText(items[j], nfc) == Success(parts[j])
  }

  lemma ItemFails(items: seq<Json>, parts: seq<Str>, nfc: Nfc)
    requires Texts(items, parts, nfc) && |parts| < |items| && CanonicalText(items[|parts|], nfc).Failure?
    ensures CanonicalText(Array(items), nfc) == CanonicalText(items[|parts|], nfc)
  {
    TreesUntil(items, |parts|, nfc);
  }

  lemma ItemsJoin(items: seq<Json>, parts: seq<Str>, nfc: Nfc)
    requires Texts(items, parts, nfc) && |parts| == |items|
    ensures CanonicalText(Array(items), nfc) == Success([91] + Join(parts, COMMA) + [93])
  {
    TreesAll(items, nfc);
    TreesAt(items, nfc);
    var trees := TreesOf(items, nfc).value;
    JoinedItems(parts, trees);
    ArrayPrints(trees, Join(parts, COMMA));
  }

  lemma ArrayPrints(trees: seq<Tree>, joined: Str)
    requires joined == Encode(PrintItems(trees))
    ensures Encode(Print(ArrayTree(trees))) == [91] + joined + [93]
  {
    Bracketed(91, PrintItems(trees), 93);
  }

  method SerializeItems(items: seq<Json>, nfc: Nfc) returns (r: Result<Str, CanonicalError>)
    requires IsNormalForm(nfc)
    ensures r == CanonicalText(Array(items), nfc)
    decreases items, 0
  {
    var parts: seq<Str> := [];
    for i := 0 to |items|
      invariant |parts| == i && Texts(items, parts, nfc)
    {
      var part := Serialize(items[i], nfc);
      if part.Failure? {
        ItemFails(items, parts, nfc);
        return part;
      }
      parts := parts + [part.value];
    }
    ItemsJoin(items, parts, nfc);
    return Success([91] + Join(parts, COMMA) + [93]);
  }

  lemma Bracketed(open: CodePoint, inner: Points, close: CodePoint)
    requires open < 128 && close < 128
    ensures Encode([open] + inner + [close]) == [open] + Encode(inner) + [close]
  {
    EncodeConcatenates([open] + inner, [close]);
    EncodeConcatenates([open], inner);
    EncodeUnit(open);
    EncodeUnit(close);
  }

  // ----- Objects ----------------------------------------------------------

  lemma {:induction false} KeysUntil(fields: seq<Field>, i: nat, nfc: Nfc)
    requires i <= |fields| && NormalKeys(fields[..i], nfc).Failure?
    ensures NormalKeys(fields, nfc) == NormalKeys(fields[..i], nfc)
  {
    if i == |fields| {
      assert fields[..i] == fields;
    } else {
      assert fields[..|fields| - 1][..i] == fields[..i];
      KeysUntil(fields[..|fields| - 1], i, nfc);
    }
  }

  /** The map holds these names and no other, each with its field's value. */
  ghost predicate Maps(normalized: map<Points, Json>, names: seq<Points>, fields: seq<Field>) {
    && |names| <= |fields|
    && (forall name :: name in normalized <==> name in names)
    && (forall j :: 0 <= j < |names| ==> normalized[names[j]] == fields[j].value)
  }

  lemma MapsGrow(normalized: map<Points, Json>, names: seq<Points>, fields: seq<Field>, name: Points)
    requires Maps(normalized, names, fields) && |names| < |fields| && name !in names
    ensures Maps(normalized[name := fields[|names|].value], names + [name], fields)
  {
  }

  /** The normalised keys of an object, each with the value its original has. */
  method NormalizeKeys(fields: seq<Field>, nfc: Nfc)
    returns (keys: Result<seq<Points>, CanonicalError>, normalized: map<Points, Json>)
    ensures keys == NormalKeys(fields, nfc)
    ensures keys.Success? ==>
      forall i :: 0 <= i < |fields| ==> keys.value[i] in normalized && normalized[keys.value[i]] == fields[i].value
  {
    var names: seq<Points> := [];
    normalized := map[];
    for i := 0 to |fields|
      invariant NormalKeys(fields[..i], nfc) == Success(names) && |names| == i
      invariant Maps(normalized, names, fields)
    {
      KeysGrow(fields, i, nfc);
      var ok := AssertWellFormed(fields[i].key);
      if !ok {
        KeysUntil(fields, i + 1, nfc);
        return Failure(UnpairedSurrogate), normalized;
      }
      var name := nfc(Decode(fields[i].key));
      if name in normalized {
        KeysUntil(fields, i + 1, nfc);
        return Failure(DuplicateKey), normalized;
      }
      MapsGrow(normalized, names, fields, name);
      normalized := normalized[name := fields[i].value];
      names := names + [name];
    }
    assert fields[..|fields|] == fields;
    keys := Success(names);
  }

  lemma KeysGrow(fields: seq<Field>, i: nat, nfc: Nfc)
    requires i < |fields| && NormalKeys(fields[..i], nfc).Success?
    ensures var front, key := NormalKeys(fields[..i], nfc).value, NormalText(fields[i].key, nfc);
      NormalKeys(fields[..i + 1], nfc) ==
        if key.Failure? then Failure(key.error)
        else if key.value in front then Failure(DuplicateKey)
        else Success(front + [key.value])
  {
    assert fields[..i + 1][..i] == fields[..i];
  }

  lemma KeysSortAlike(named: seq<Named>, keys: seq<Points>)
    requires |named| == |keys| && forall i :: 0 <= i < |keys| ==> named[i].key == keys[i]
    ensures |Sort(named, NamedByUnits)| == |Sort(keys, ByUnits)|
    ensures forall i :: 0 <= i < |Sort(keys, ByUnits)| ==> Sort(keys, ByUnits)[i] == Sort(named, NamedByUnits)[i].key
  {
    SortMaps(named, keys, NamedByUnits, ByUnits, (n: Named) => n.key);
  }

  lemma NamedIsChild(fields: seq<Field>, keys: seq<Points>, normalized: map<Points, Json>, nfc: Nfc, e: Named)
    requires |keys| == |fields| && e in NamedOf(fields, keys, nfc)
    requires forall i :: 0 <= i < |fields| ==> keys[i] in normalized && normalized[keys[i]] == fields[i].value
    requires forall key :: key in keys ==> NormalText(Encode(key), nfc) == Success(key)
    ensures IsChild(fields, e.key, normalized, e, nfc)
  {
    var named := NamedOf(fields, keys, nfc);
    var j :| 0 <= j < |named| && named[j] == e;
    assert keys[j] in keys;
    assert fields[j].value == normalized[e.key];
  }

  /** Sorting the keys alone visits the children in the order sorting them with
      their children does. */
  lemma SortedChildren(fields: seq<Field>, keys: seq<Points>, normalized: map<Points, Json>, nfc: Nfc)
    requires |keys| == |fields|
    requires forall i :: 0 <= i < |fields| ==> keys[i] in normalized && normalized[keys[i]] == fields[i].value
    requires forall key :: key in keys ==> NormalText(Encode(key), nfc) == Success(key)
    ensures var named, sorted := Sort(NamedOf(fields, keys, nfc), NamedByUnits), Sort(keys, ByUnits);
      Children(fields, sorted, normalized, named, nfc)
  {
    var named := NamedOf(fields, keys, nfc);
    var order := Sort(named, NamedByUnits);
    KeysSortAlike(named, keys);
    SortedMembers(named);
    OrderIsChildren(fields, keys, normalized, order, nfc);
    ChildrenByKey(fields, Sort(keys, ByUnits), normalized, order, nfc);
  }

  lemma SortedMembers(named: seq<Named>)
    ensures forall e :: e in Sort(named, NamedByUnits) ==> e in named
  {
    SortKeeps(named, NamedByUnits);
    MembersOf(Sort(named, NamedByUnits), named);
  }

  lemma OrderIsChildren(fields: seq<Field>, keys: seq<Points>, normalized: map<Points, Json>, order: seq<Named>,
                        nfc: Nfc)
    requires |keys| == |fields| && forall e :: e in order ==> e in NamedOf(fields, keys, nfc)
    requires forall i :: 0 <= i < |fields| ==> keys[i] in normalized && normalized[keys[i]] == fields[i].value
    requires forall key :: key in keys ==> NormalText(Encode(key), nfc) == Success(key)
    ensures forall i :: 0 <= i < |order| ==> IsChild(fields, order[i].key, normalized, order[i], nfc)
  {
    forall i | 0 <= i < |order| ensures IsChild(fields, order[i].key, normalized, order[i], nfc) {
      NamedIsChild(fields, keys, normalized, nfc, order[i]);
    }
  }

  lemma ChildrenByKey(fields: seq<Field>, sorted: seq<Points>, normalized: map<Points, Json>, named: seq<Named>,
                      nfc: Nfc)
    requires |sorted| == |named| && forall i :: 0 <= i < |named| ==> sorted[i] == named[i].key
    requires forall i :: 0 <= i < |named| ==> IsChild(fields, named[i].key, normalized, named[i], nfc)
    ensures Children(fields, sorted, normalized, named, nfc)
  {
  }

  lemma {:induction false} CollectUntil(named: seq<Named>, i: nat)
    requires i < |named| && named[i].child.Failure?
    requires forall j :: 0 <= j < i ==> named[j].child.Success?
    ensures Collect(named) == Failure(named[i].child.error)
  {
    if i > 0 { CollectUntil(named[1..], i - 1); }
  }

  function EntryText(e: Entry): Str {
    Encode(Quoted(e.key)) + [58] + Encode(Print(e.value))
  }

  lemma {:induction false} JoinedEntries(parts: seq<Str>, entries: seq<Entry>)
    requires |parts| == |entries| && forall i :: 0 <= i < |parts| ==> parts[i] == EntryText(entries[i])
    ensures Join(parts, COMMA) == Encode(PrintEntries(entries))
  {
    if parts != [] {
      EncodeEntry(entries[0]);
    }
    if |parts| > 1 {
      JoinedEntries(parts[1..], entries[1..]);
      EncodeJoin(Quoted(entries[0].key) + [58] + Print(entries[0].value), PrintEntries(entries[1..]));
    }
  }

  lemma EncodeEntry(e: Entry)
    ensures Encode(Quoted(e.key) + [58] + Print(e.value)) == EntryText(e)
  {
    Colon(Quoted(e.key), Print(e.value));
  }

  lemma Colon(a: Points, b: Points)
    ensures Encode(a + [58] + b) == Encode(a) + [58] + Encode(b)
  {
    EncodeConcatenates(a + [58], b);
    EncodeConcatenates(a, [58]);
    EncodeUnit(58);
  }

  /** A normalised key is quoted as it is. */
  lemma KeyQuotes(key: Points, raw: Str, nfc: Nfc)
    requires IsNormalForm(nfc) && NormalText(raw, nfc) == Success(key)
    ensures NormalText(Encode(key), nfc) == Success(key)
  {
    ScalarsAreWellFormed(raw);
    DecodeUndoesEncode(key);
    ScalarsAreWellFormed(Encode(key));
  }

  lemma KeysQuote(fields: seq<Field>, nfc: Nfc)
    requires IsNormalForm(nfc) && NormalKeys(fields, nfc).Success?
    ensures forall key :: key in NormalKeys(fields, nfc).value ==> NormalText(Encode(key), nfc) == Success(key)
  {
    KeysAt(fields, nfc);
    var keys := NormalKeys(fields, nfc).value;
    forall i | 0 <= i < |keys| ensures NormalText(Encode(keys[i]), nfc) == Success(keys[i]) {
      KeyQuotes(keys[i], fields[i].key, nfc);
    }
  }

  method SerializeFields(fields: seq<Field>, nfc: Nfc) returns (r: Result<Str, CanonicalError>)
    requires IsNormalForm(nfc)
    ensures r == CanonicalText(Object(fields), nfc)
    decreases fields, 2
  {
    if HasToJson(fields) { return Failure(CarriesToJson); }
    var keys, normalized := NormalizeKeys(fields, nfc);
    if keys.Failure? { return Failure(keys.error); }
    var sorted := Sort(keys.value, ByUnits);
    ghost var named := Sort(NamedOf(fields, keys.value, nfc), NamedByUnits);
    KeysQuote(fields, nfc);
    SortedChildren(fields, keys.value, normalized, nfc);
    r := SerializeSorted(fields, sorted, normalized, named, nfc);
  }

  /** The text of an object from its sorted keys; named is what they name. */
  method SerializeSorted(fields: seq<Field>, sorted: seq<Points>, normalized: map<Points, Json>,
                         ghost named: seq<Named>, nfc: Nfc)
    returns (r: Result<Str, CanonicalError>)
    requires IsNormalForm(nfc) && Children(fields, sorted, normalized, named, nfc)
    ensures r == ObjectText(named)
    decreases fields, 1
  {
    var parts: seq<Str> := [];
    for i := 0 to |sorted|
      invariant |parts| == i
      invariant Parted(named, parts)
    {
      assert IsChild(fields, sorted[i], normalized, named[i], nfc);
      PartedGrows(named, parts);
      var part := SerializeEntry(fields, sorted[i], normalized, named[i], nfc);
      if part.Failure? {
        ObjectFails(named, i);
        return part;
      }
      parts := parts + [part.value];
    }
    ObjectJoins(named, parts);
    return Success([123] + Join(parts, COMMA) + [125]);
  }

  /** The parts are the texts of the first entries. */
  ghost predicate Parted(named: seq<Named>, parts: seq<Str>) {
    && |parts| <= |named|
    && forall j :: 0 <= j < |parts| ==> named[j].child.Success? && parts[j] == EntryText(EntryOf(named[j]))
  }

  lemma PartedGrows(named: seq<Named>, parts: seq<Str>)
    requires Parted(named, parts) && |parts| < |named|
    ensures named[|parts|].child.Success? ==> Parted(named, parts + [EntryText(EntryOf(named[|parts|]))])
  {
  }

  lemma ObjectFails(named: seq<Named>, i: nat)
    requires i < |named| && named[i].child.Failure?
    requires forall j :: 0 <= j < i ==> named[j].child.Success?
    ensures ObjectText(named) == Failure(named[i].child.error)
  {
    CollectUntil(named, i);
  }

  lemma ObjectJoins(named: seq<Named>, parts: seq<Str>)
    requires |parts| == |named| && Parted(named, parts)
    ensures ObjectText(named) == Success([123] + Join(parts, COMMA) + [125])
  {
    var entries := Collect(named).value;
    JoinedEntries(parts, entries);
    ObjectPrints(entries, Join(parts, COMMA));
  }

  lemma ObjectPrints(entries: seq<Entry>, joined: Str)
    requires joined == Encode(PrintEntries(entries))
    ensures Encode(Print(ObjectTree(entries))) == [123] + joined + [125]
  {
    Bracketed(123, PrintEntries(entries), 125);
  }

  method SerializeEntry(fields: seq<Field>, key: Points, normalized: map<Points, Json>, ghost named: Named, nfc: Nfc)
    returns (part: Result<Str, CanonicalError>)
    requires IsNormalForm(nfc) && IsChild(fields, key, normalized, named, nfc)
    ensures named.child.Failure? ==> part == Failure(named.child.error)
    ensures named.child.Success? ==> part == Success(EntryText(EntryOf(named)))
    decreases fields, 0
  {
    ghost var j :| 0 <= j < |fields| && fields[j].value == normalized[key];
    var child := Serialize(normalized[key], nfc);
    if child.Failure? { return child; }
    var name := SerializeString(Encode(key), nfc);
    part := Success(name.value + [58] + child.value);
  }

  ghost predicate IsChild(fields: seq<Field>, key: Points, normalized: map<Points, Json>, named: Named, nfc: Nfc) {
    && key in normalized && (exists j :: 0 <= j < |fields| && fields[j].value == normalized[key])
    && named == Named(key, TreeOf(normalized[key], nfc)) && NormalText(Encode(key), nfc) == Success(key)
  }

  ghost predicate Children(fields: seq<Field>, sorted: seq<Points>, normalized: map<Points, Json>, named: seq<Named>,
                           nfc: Nfc) {
    && |named| == |sorted|
    && forall i {:trigger IsChild(fields, sorted[i], normalized, named[i], nfc)} ::
      0 <= i < |sorted| ==> IsChild(fields, sorted[i], normalized, named[i], nfc)
  }

  function EntryOf(named: Named): Entry
    requires named.child.Success?
  {
    Entry(named.key, named.child.value)
  }

  function ObjectText(named: seq<Named>): Result<Str, CanonicalError> {
    var tree :- Assembled(named);
    Success(Encode(Print(tree)))
  }

  // ----- A value ----------------------------------------------------------

  method Serialize(value: Json, nfc: Nfc) returns (r: Result<Str, CanonicalError>)
    requires IsNormalForm(nfc)
    ensures r == CanonicalText(value, nfc)
    decreases value, 1
  {
    match value
    case Null =>
      UnitsEncode(Text("null"));
      r := Success(Text("null"));
    case Bool(b) =>
      var shown := if b then Text("true") else Text("false");
      UnitsEncode(shown);
      r := Success(shown);
    case Number(n) =>
      var shown := NumberTextOf(n);
      if shown.Failure? { return Failure(shown.error); }
      UnitsEncode(shown.value);
      r := Success(shown.value);
    case String(s) => r := SerializeString(s, nfc);
    case Array(items) => r := SerializeItems(items, nfc);
    case Object(fields) => r := SerializeFields(fields, nfc);
  }

  lemma {:induction false} UnitsEncode(p: Str)
    ensures Encode(p) == p
  {
    if p != [] { UnitsEncode(p[1..]); }
  }
}
