/** The Python port as it runs: loops over strings, lists and dictionaries. */
module CanonicalPythonLoops {
  import opened Results
  import opened Sorting
  import opened Unicode
  import opened Canonical
  import opened Canonicalize
  import opened CanonicalPython
  import Loops = CanonicalizeLoops

  method SerialiseString(value: Points) returns (r: Result<Points, CanonicalError>)
    ensures r == if Scalars(value) then Success(Quoted(value)) else Failure(UnpairedSurrogate)
  {
    if !Scalars(value) { return Failure(UnpairedSurrogate); }
    var out: Points := [QUOTE];
    for i := 0 to |value|
      invariant out == [QUOTE] + Escaped(value[..i])
    {
      Loops.EscapedGrows(value, i);
      out := out + Escape(value[i]);
    }
    assert value[..|value|] == value;
    return Success(out + [QUOTE]);
  }

  // ----- Lists ------------------------------------------------------------

  lemma {:induction false} JoinedItems(parts: seq<Points>, trees: seq<Tree>)
    requires |parts| == |trees| && forall i :: 0 <= i < |parts| ==> parts[i] == Print(trees[i])
    ensures Join(parts, COMMA) == PrintItems(trees)
  {
    if |parts| > 1 { JoinedItems(parts[1..], trees[1..]); }
  }

  lemma {:induction false} TreesUntil(items: seq<PyValue>, i: nat, nfc: Nfc)
    requires i < |items| && PyTreeOf(items[i], nfc).Failure?
    requires forall j :: 0 <= j < i ==> PyTreeOf(items[j], nfc).Success?
    ensures PyTreesOf(items, nfc) == Failure(PyTreeOf(items[i], nfc).error)
  {
    if i > 0 { TreesUntil(items[1..], i - 1, nfc); }
  }

  lemma {:induction false} TreesAll(items: seq<PyValue>, nfc: Nfc)
    requires forall j :: 0 <= j < |items| ==> PyTreeOf(items[j], nfc).Success?
    ensures PyTreesOf(items, nfc).Success? && |PyTreesOf(items, nfc).value| == |items|
    ensures forall j :: 0 <= j < |items| ==> PyTreeOf(items[j], nfc) == Success(PyTreesOf(items, nfc).value[j])
  {
    if items != [] { TreesAll(items[1..], nfc); }
  }

  method SerialiseItems(items: seq<PyValue>, nfc: Nfc) returns (r: Result<Points, CanonicalError>)
    requires IsNormalForm(nfc)
    ensures r == PyCanonicalText(PyList(items), nfc)
    decreases items, 0
  {
    var parts: seq<Points> := [];
    for i := 0 to |items|
      invariant |parts| == i
      invariant forall j :: 0 <= j < i ==> PyCanonicalText(items[j], nfc) == Success(parts[j])
    {
      var part := Serialise(items[i], nfc);
      if part.Failure? {
        TreesUntil(items, i, nfc);
        return part;
      }
      parts := parts + [part.value];
    }
    TreesAll(items, nfc);
    JoinedItems(parts, PyTreesOf(items, nfc).value);
    return Success([91] + Join(parts, COMMA) + [93]);
  }

  // ----- Dictionaries -----------------------------------------------------

  lemma {:induction false} KeysUntil(fields: seq<PyField>, i: nat, nfc: Nfc)
    requires i <= |fields| && PyKeys(fields[..i], nfc).Failure?
    ensures PyKeys(fields, nfc) == PyKeys(fields[..i], nfc)
  {
    if i == |fields| {
      assert fields[..i] == fields;
    } else {
      assert fields[..|fields| - 1][..i] == fields[..i];
      KeysUntil(fields[..|fields| - 1], i, nfc);
    }
  }

  lemma KeysGrow(fields: seq<PyField>, i: nat, nfc: Nfc)
    requires i < |fields| && PyKeys(fields[..i], nfc).Success?
    ensures var front, raw := PyKeys(fields[..i], nfc).value, fields[i].key;
      PyKeys(fields[..i + 1], nfc) ==
        if !Scalars(raw) then Failure(UnpairedSurrogate)
        else if nfc(raw) in front then Failure(DuplicateKey)
        else Success(front + [nfc(raw)])
  {
    assert fields[..i + 1][..i] == fields[..i];
  }

  method NormaliseKeys(fields: seq<PyField>, nfc: Nfc)
    returns (keys: Result<seq<Points>, CanonicalError>, normalised: map<Points, PyValue>)
    ensures keys == PyKeys(fields, nfc)
    ensures keys.Success? ==>
      forall i :: 0 <= i < |fields| ==> keys.value[i] in normalised && normalised[keys.value[i]] == fields[i].value
  {
    var names: seq<Points> := [];
    normalised := map[];
    for i := 0 to |fields|
      invariant PyKeys(fields[..i], nfc) == Success(names) && |names| == i
      invariant normalised.Keys == set name | name in names
      invariant forall j :: 0 <= j < i ==> names[j] in normalised && normalised[names[j]] == fields[j].value
    {
      KeysGrow(fields, i, nfc);
      if !Scalars(fields[i].key) {
        KeysUntil(fields, i + 1, nfc);
        return Failure(UnpairedSurrogate), normalised;
      }
      var normal := nfc(fields[i].key);
      if normal in normalised {
        KeysUntil(fields, i + 1, nfc);
        return Failure(DuplicateKey), normalised;
      }
      normalised := normalised[normal := fields[i].value];
      names := names + [normal];
    }
    assert fields[..|fields|] == fields;
    keys := Success(names);
  }

  ghost predicate IsChild(fields: seq<PyField>, key: Points, normalised: map<Points, PyValue>, named: Named, nfc: Nfc) {
    && key in normalised && (exists j :: 0 <= j < |fields| && fields[j].value == normalised[key])
    && named == Named(key, PyTreeOf(normalised[key], nfc)) && Scalars(key)
  }

  lemma {:induction false} KeysAreScalars(fields: seq<PyField>, nfc: Nfc)
    requires IsNormalForm(nfc) && PyKeys(fields, nfc).Success?
    ensures forall key :: key in PyKeys(fields, nfc).value ==> Scalars(key)
  {
    if fields != [] { KeysAreScalars(fields[..|fields| - 1], nfc); }
  }

  /** Sorting the keys alone visits the children in the order sorting them with
      their children does. */
  lemma SortedChildren(fields: seq<PyField>, keys: seq<Points>, normalised: map<Points, PyValue>, nfc: Nfc)
    requires |keys| == |fields| && forall key :: key in keys ==> Scalars(key)
    requires forall i :: 0 <= i < |fields| ==> keys[i] in normalised && normalised[keys[i]] == fields[i].value
    ensures var named, sorted := SortedNames(fields, keys, nfc), Sort(keys, ByBytes);
      && |named| == |sorted|
      && forall i :: 0 <= i < |sorted| ==> IsChild(fields, sorted[i], normalised, named[i], nfc)
  {
    var named := Zip(keys, PyChildrenOf(fields, nfc));
    SortMaps(named, keys, NamedByBytes, ByBytes, (n: Named) => n.key);
    SortKeeps(named, NamedByBytes);
    MembersOf(Sort(named, NamedByBytes), named);
    var order := Sort(named, NamedByBytes);
    forall i | 0 <= i < |order| ensures IsChild(fields, order[i].key, normalised, order[i], nfc) {
      assert order[i] in named;
      var j :| 0 <= j < |named| && named[j] == order[i];
      assert fields[j].value == normalised[order[i].key];
    }
  }

  function EntryPoints(e: Entry): Points {
    Quoted(e.key) + [58] + Print(e.value)
  }

  lemma {:induction false} JoinedEntries(parts: seq<Points>, entries: seq<Entry>)
    requires |parts| == |entries| && forall i :: 0 <= i < |parts| ==> parts[i] == EntryPoints(entries[i])
    ensures Join(parts, COMMA) == PrintEntries(entries)
  {
    if |parts| > 1 { JoinedEntries(parts[1..], entries[1..]); }
  }

  function DictPoints(named: seq<Named>): Result<Points, CanonicalError> {
    var tree :- Assembled(named);
    Success(Print(tree))
  }

  lemma DictJoins(named: seq<Named>, parts: seq<Points>)
    requires |parts| == |named|
    requires forall j :: 0 <= j < |named| ==>
      named[j].child.Success? && parts[j] == EntryPoints(Loops.EntryOf(named[j]))
    ensures DictPoints(named) == Success([123] + Join(parts, COMMA) + [125])
  {
    JoinedEntries(parts, Collect(named).value);
  }

  method SerialiseEntry(fields: seq<PyField>, key: Points, normalised: map<Points, PyValue>, ghost named: Named,
                        nfc: Nfc)
    returns (part: Result<Points, CanonicalError>)
    requires IsNormalForm(nfc) && IsChild(fields, key, normalised, named, nfc)
    ensures named.child.Failure? ==> part == Failure(named.child.error)
    ensures named.child.Success? ==> part == Success(EntryPoints(Loops.EntryOf(named)))
    decreases fields, 0
  {
    ghost var j :| 0 <= j < |fields| && fields[j].value == normalised[key];
    var name := SerialiseString(key);
    var child := Serialise(normalised[key], nfc);
    if child.Failure? { return child; }
    part := Success(name.value + [58] + child.value);
  }

  method SerialiseSorted(fields: seq<PyField>, sorted: seq<Points>, normalised: map<Points, PyValue>,
                         ghost named: seq<Named>, nfc: Nfc)
    returns (r: Result<Points, CanonicalError>)
    requires IsNormalForm(nfc) && |named| == |sorted|
    requires forall i {:trigger IsChild(fields, sorted[i], normalised, named[i], nfc)} ::
      0 <= i < |sorted| ==> IsChild(fields, sorted[i], normalised, named[i], nfc)
    ensures r == DictPoints(named)
    decreases fields, 1
  {
    var parts: seq<Points> := [];
    for i := 0 to |sorted|
      invariant |parts| == i
      invariant forall j :: 0 <= j < i ==> named[j].child.Success? && parts[j] == EntryPoints(Loops.EntryOf(named[j]))
    {
      assert IsChild(fields, sorted[i], normalised, named[i], nfc);
      var part := SerialiseEntry(fields, sorted[i], normalised, named[i], nfc);
      if part.Failure? {
        Loops.CollectUntil(named, i);
        return part;
      }
      parts := parts + [part.value];
    }
    DictJoins(named, parts);
    return Success([123] + Join(parts, COMMA) + [125]);
  }

  function SortedNames(fields: seq<PyField>, keys: seq<Points>, nfc: Nfc): seq<Named>
    requires |keys| == |fields|
  {
    Sort(Zip(keys, PyChildrenOf(fields, nfc)), NamedByBytes)
  }

  lemma DictText(fields: seq<PyField>, keys: seq<Points>, nfc: Nfc)
    requires PyKeys(fields, nfc) == Success(keys)
    ensures PyCanonicalText(PyDict(fields), nfc) == DictPoints(SortedNames(fields, keys, nfc))
  {
  }

  method SerialiseFields(fields: seq<PyField>, nfc: Nfc) returns (r: Result<Points, CanonicalError>)
    requires IsNormalForm(nfc)
    ensures r == PyCanonicalText(PyDict(fields), nfc)
    decreases fields, 2
  {
    var keys, normalised := NormaliseKeys(fields, nfc);
    if keys.Failure? { return Failure(keys.error); }
    KeysAreScalars(fields, nfc);
    SortedChildren(fields, keys.value, normalised, nfc);
    ghost var named := SortedNames(fields, keys.value, nfc);
    DictText(fields, keys.value, nfc);
    r := SerialiseSorted(fields, Sort(keys.value, ByBytes), normalised, named, nfc);
  }

  // ----- A value ----------------------------------------------------------

  method Serialise(value: PyValue, nfc: Nfc) returns (r: Result<Points, CanonicalError>)
    requires IsNormalForm(nfc)
    ensures r == PyCanonicalText(value, nfc)
    decreases value, 1
  {
    match value
    case PyNone => r := Success(Literal("null"));
    case PyBool(b) => r := Success(if b then Literal("true") else Literal("false"));
    case PyNumber(n) =>
      var shown := NumberTextOf(n);
      r := if shown.Failure? then Failure(shown.error) else Success(shown.value);
    case PyStr(text) => r := SerialiseString(nfc(text));
    case PyList(items) => r := SerialiseItems(items, nfc);
    case PyDict(fields) => r := SerialiseFields(fields, nfc);
  }
}
