/** The Python port of the canonicaliser, and why it prints the same text. */
module CanonicalPython {
  import opened Json
  import opened Results
  import opened Sorting
  import opened Unicode
  import opened Canonical
  import opened Canonicalize

  /** A value as Python holds it: its strings are sequences of code points. */
  datatype PyValue =
    | PyNone
    | PyBool(b: bool)
    | PyNumber(n: Double)
    | PyStr(text: Points)
    | PyList(items: seq<PyValue>)
    | PyDict(fields: seq<PyField>)

  datatype PyField = PyField(key: Points, value: PyValue)

  // ----- From a value to the tree that is printed ---------------------------

  function Encodable(text: Points): Result<Points, CanonicalError> {
    if Scalars(text) then Success(text) else Failure(UnpairedSurrogate)
  }

  /** A key is checked before it is normalised, a string after. */
  function PyKeys(fields: seq<PyField>, nfc: Nfc): (keys: Result<seq<Points>, CanonicalError>)
    ensures keys.Success? ==> |keys.value| == |fields|
  {
    if fields == [] then Success([])
    else
      var front :- PyKeys(fields[..|fields| - 1], nfc);
      var raw :- Encodable(fields[|fields| - 1].key);
      var key := nfc(raw);
      if key in front then Failure(DuplicateKey) else Success(front + [key])
  }

  /** Key order: by the bytes of the key in big-endian UTF-16. */
  predicate ByBytes(a: Points, b: Points) {
    LexLe(BigEndian(Encode(a)), BigEndian(Encode(b)))
  }

  predicate NamedByBytes(a: Named, b: Named) {
    ByBytes(a.key, b.key)
  }

  function PyTreeOf(value: PyValue, nfc: Nfc): Result<Tree, CanonicalError>
    decreases value, 1
  {
    match value
    case PyNone => Success(NullTree)
    case PyBool(b) => Success(BoolTree(b))
    case PyNumber(n) =>
      var shown :- NumberTextOf(n);
      Success(NumberTree(shown))
    case PyStr(raw) =>
      var text :- Encodable(nfc(raw));
      Success(StringTree(text))
    case PyList(items) =>
      var trees :- PyTreesOf(items, nfc);
      Success(ArrayTree(trees))
    case PyDict(fields) =>
      var keys :- PyKeys(fields, nfc);
      Assembled(Sort(Zip(keys, PyChildrenOf(fields, nfc)), NamedByBytes))
  }

  function PyTreesOf(items: seq<PyValue>, nfc: Nfc): Result<seq<Tree>, CanonicalError>
    decreases items, 0
  {
    if items == [] then Success([])
    else
      var first :- PyTreeOf(items[0], nfc);
      var rest :- PyTreesOf(items[1..], nfc);
      Success([first] + rest)
  }

  function PyChildrenOf(fields: seq<PyField>, nfc: Nfc): (children: seq<Result<Tree, CanonicalError>>)
    ensures |children| == |fields|
    ensures forall i :: 0 <= i < |fields| ==> children[i] == PyTreeOf(fields[i].value, nfc)
    decreases fields, 0
  {
    if fields == [] then [] else [PyTreeOf(fields[0].value, nfc)] + PyChildrenOf(fields[1..], nfc)
  }

  function PyCanonicalText(value: PyValue, nfc: Nfc): Result<Points, CanonicalError> {
    var tree :- PyTreeOf(value, nfc);
    Success(Print(tree))
  }

  // ----- The same value in both languages ----------------------------------

  function ToPython(v: Json): PyValue
    decreases v, 1
  {
    match v
    case Null => PyNone
    case Bool(b) => PyBool(b)
    case Number(n) => PyNumber(n)
    case String(s) => PyStr(Decode(s))
    case Array(items) => PyList(ItemsToPython(items))
    case Object(fields) => PyDict(FieldsToPython(fields))
  }

  function ItemsToPython(items: seq<Json>): (py: seq<PyValue>)
    ensures |py| == |items| && forall i :: 0 <= i < |items| ==> py[i] == ToPython(items[i])
    decreases items, 0
  {
    if items == [] then [] else [ToPython(items[0])] + ItemsToPython(items[1..])
  }

  function FieldsToPython(fields: seq<Field>): (py: seq<PyField>)
    ensures |py| == |fields|
    ensures forall i :: 0 <= i < |fields| ==> py[i] == PyField(Decode(fields[i].key), ToPython(fields[i].value))
    decreases fields, 0
  {
    if fields == [] then []
    else [PyField(Decode(fields[0].key), ToPython(fields[0].value))] + FieldsToPython(fields[1..])
  }

  /** No object in it has a key the TypeScript canonicaliser refuses. */
  predicate NoToJson(v: Json)
    decreases v, 1
  {
    match v
    case Array(items) => forall i :: 0 <= i < |items| ==> NoToJson(items[i])
    case Object(fields) => !HasToJson(fields) && forall i :: 0 <= i < |fields| ==> NoToJson(fields[i].value)
    case _ => true
  }

  lemma {:induction false} SameKeys(fields: seq<Field>, nfc: Nfc)
    ensures PyKeys(FieldsToPython(fields), nfc) == NormalKeys(fields, nfc)
  {
    if fields != [] {
      var front, last := fields[..|fields| - 1], fields[|fields| - 1];
      SameKeys(front, nfc);
      assert FieldsToPython(fields)[..|fields| - 1] == FieldsToPython(front);
      ScalarsAreWellFormed(last.key);
    }
  }

  /** Byte order and code-unit order sort alike. */
  lemma SameSort(named: seq<Named>)
    ensures Sort(named, NamedByBytes) == Sort(named, NamedByUnits)
  {
    forall a, b ensures NamedByBytes(a, b) == NamedByUnits(a, b) { BytesOrderUnits(Encode(a.key), Encode(b.key)); }
    SortMaps(named, named, NamedByUnits, NamedByBytes, (n: Named) => n);
  }

  /** Without toJSON keys the two canonicalisers build the same tree, or fail alike. */
  lemma {:induction false} SameTree(v: Json, nfc: Nfc)
    requires IsNormalForm(nfc) && NoToJson(v)
    ensures PyTreeOf(ToPython(v), nfc) == TreeOf(v, nfc)
    decreases v, 1
  {
    match v
    case String(s) => ScalarsAreWellFormed(s);
    case Array(items) => SameTrees(items, nfc);
    case Object(fields) => SameObject(fields, nfc);
    case _ =>
  }

  lemma {:induction false} SameObject(fields: seq<Field>, nfc: Nfc)
    requires IsNormalForm(nfc) && !HasToJson(fields) && forall i :: 0 <= i < |fields| ==> NoToJson(fields[i].value)
    ensures PyTreeOf(PyDict(FieldsToPython(fields)), nfc) == TreeOf(Object(fields), nfc)
    decreases fields, 1
  {
    SameKeys(fields, nfc);
    SameChildren(fields, nfc);
    var keys := NormalKeys(fields, nfc);
    if keys.Success? { SameSort(Zip(keys.value, ChildrenOf(fields, nfc))); }
  }

  lemma {:induction false} SameTrees(items: seq<Json>, nfc: Nfc)
    requires IsNormalForm(nfc) && forall i :: 0 <= i < |items| ==> NoToJson(items[i])
    ensures PyTreesOf(ItemsToPython(items), nfc) == TreesOf(items, nfc)
    decreases items, 0
  {
    if items != [] {
      SameTree(items[0], nfc);
      SameTrees(items[1..], nfc);
    }
  }

  lemma {:induction false} SameChildren(fields: seq<Field>, nfc: Nfc)
    requires IsNormalForm(nfc) && forall i :: 0 <= i < |fields| ==> NoToJson(fields[i].value)
    ensures PyChildrenOf(FieldsToPython(fields), nfc) == ChildrenOf(fields, nfc)
    decreases fields, 0
  {
    forall i | 0 <= i < |fields| ensures PyTreeOf(ToPython(fields[i].value), nfc) == TreeOf(fields[i].value, nfc) {
      SameTree(fields[i].value, nfc);
    }
  }

  /** What TypeScript accepts has no toJSON key anywhere. */
  lemma {:induction false} AcceptedHasNoToJson(v: Json, nfc: Nfc)
    requires TreeOf(v, nfc).Success?
    ensures NoToJson(v)
  {
    match v
    case Array(items) =>
      TreesAt(items, nfc);
      forall i | 0 <= i < |items| ensures NoToJson(items[i]) { AcceptedHasNoToJson(items[i], nfc); }
    case Object(fields) =>
      var entries := ObjectEntries(fields, nfc);
      forall i | 0 <= i < |fields| ensures NoToJson(fields[i].value) { AcceptedHasNoToJson(fields[i].value, nfc); }
    case _ =>
  }

  /** TypeScript prints a value exactly when Python does and it has no toJSON
      key; then the two texts are the same text. */
  lemma PythonAgrees(v: Json, nfc: Nfc)
    requires IsNormalForm(nfc)
    ensures CanonicalText(v, nfc).Success? <==> PyCanonicalText(ToPython(v), nfc).Success? && NoToJson(v)
    ensures CanonicalText(v, nfc).Success? ==>
      && Encode(PyCanonicalText(ToPython(v), nfc).value) == CanonicalText(v, nfc).value
      && Decode(CanonicalText(v, nfc).value) == PyCanonicalText(ToPython(v), nfc).value
  {
    if TreeOf(v, nfc).Success? { AcceptedHasNoToJson(v, nfc); }
    if NoToJson(v) { SameTree(v, nfc); }
    if TreeOf(v, nfc).Success? { TextDecodes(v, nfc); }
  }

  /** Where TypeScript refuses a toJSON key, Python prints a text. */
  lemma ToJsonDivides(nfc: Nfc)
    requires nfc(Decode(TO_JSON)) == Decode(TO_JSON)
    ensures var v := Object([Field(TO_JSON, Null)]);
      CanonicalText(v, nfc) == Failure(CarriesToJson) && PyCanonicalText(ToPython(v), nfc).Success?
  {
    var fields := [Field(TO_JSON, Null)];
    assert HasToJson(fields) by { assert fields[0].key == TO_JSON; }
    ScalarsAreWellFormed(TO_JSON);
    SameKeys(fields, nfc);
    assert fields[..0] == [];
    assert NormalKeys(fields[..0], nfc) == Success([]);
    var named := Zip(NormalKeys(fields, nfc).value, PyChildrenOf(FieldsToPython(fields), nfc));
    SortKeeps(named, NamedByBytes);
    MembersOf(Sort(named, NamedByBytes), named);
    var order := Sort(named, NamedByBytes);
    forall i | 0 <= i < |order| ensures order[i].child.Success? { assert order[i] in named; }
  }
}
