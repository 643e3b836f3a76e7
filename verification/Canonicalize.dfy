/** The TypeScript canonicaliser. Unicode's NFC is a parameter throughout. */
module Canonicalize {
  import opened Json
  import opened Results
  import opened Sorting
  import opened Unicode
  import opened Canonical

  datatype CanonicalError = UnpairedSurrogate | NonFiniteNumber | DuplicateKey | CarriesToJson

  type Nfc = Points -> Points

  /** What is used of NFC: normalising twice is normalising once, and it
      neither makes nor removes surrogates. */
  ghost predicate IsNormalForm(nfc: Nfc) {
    && (forall p :: nfc(nfc(p)) == nfc(p))
    && (forall p :: Scalars(nfc(p)) <==> Scalars(p))
  }

  const TO_JSON: Str := Text("toJSON")

  // ----- From a value to the tree that is printed ---------------------------

  function NumberTextOf(n: Double): Result<NumberText, CanonicalError> {
    match n
    case Finite(shown) => Success(shown)
    case NegativeZero => Success([48])
    case NonFinite => Failure(NonFiniteNumber)
  }

  function NormalText(s: Str, nfc: Nfc): Result<Points, CanonicalError> {
    if WellFormed(s) then Success(nfc(Decode(s))) else Failure(UnpairedSurrogate)
  }

  /** The normalised keys of an object, in its own order. */
  function NormalKeys(fields: seq<Field>, nfc: Nfc): (keys: Result<seq<Points>, CanonicalError>)
    ensures keys.Success? ==> |keys.value| == |fields|
  {
    if fields == [] then Success([])
    else
      var front :- NormalKeys(fields[..|fields| - 1], nfc);
      var key :- NormalText(fields[|fields| - 1].key, nfc);
      if key in front then Failure(DuplicateKey) else Success(front + [key])
  }

  predicate HasToJson(fields: seq<Field>) {
    exists i | 0 <= i < |fields| :: fields[i].key == TO_JSON
  }

  datatype Named = Named(key: Points, child: Result<Tree, CanonicalError>)

  /** Key order: by the code units of the normalised key. */
  predicate ByUnits(a: Points, b: Points) {
    LexLe(Encode(a), Encode(b))
  }

  predicate NamedByUnits(a: Named, b: Named) {
    ByUnits(a.key, b.key)
  }

  function Zip(keys: seq<Points>, children: seq<Result<Tree, CanonicalError>>): (named: seq<Named>)
    requires |keys| == |children|
    ensures |named| == |keys|
    ensures forall i :: 0 <= i < |keys| ==> named[i] == Named(keys[i], children[i])
  {
    seq(|keys|, i requires 0 <= i < |keys| => Named(keys[i], children[i]))
  }

  /** The entries, or the first failure in key order. */
  function Collect(named: seq<Named>): (entries: Result<seq<Entry>, CanonicalError>)
    ensures entries.Success? <==> forall i :: 0 <= i < |named| ==> named[i].child.Success?
    ensures entries.Success? ==> |entries.value| == |named|
    ensures entries.Success? ==>
      forall i :: 0 <= i < |named| ==> entries.value[i] == Entry(named[i].key, named[i].child.value)
  {
    if named == [] then Success([])
    else if named[0].child.Failure? then Failure(named[0].child.error)
    else
      var rest :- Collect(named[1..]);
      Success([Entry(named[0].key, named[0].child.value)] + rest)
  }

  function Assembled(named: seq<Named>): Result<Tree, CanonicalError> {
    var entries :- Collect(named);
    Success(ObjectTree(entries))
  }

  function TreeOf(value: Json, nfc: Nfc): Result<Tree, CanonicalError>
    decreases value, 1
  {
    match value
    case Null => Success(NullTree)
    case Bool(b) => Success(BoolTree(b))
    case Number(n) =>
      var shown :- NumberTextOf(n);
      Success(NumberTree(shown))
    case String(s) =>
      var text :- NormalText(s, nfc);
      Success(StringTree(text))
    case Array(items) =>
      var trees :- TreesOf(items, nfc);
      Success(ArrayTree(trees))
    case Object(fields) =>
      if HasToJson(fields) then Failure(CarriesToJson)
      else
        var keys :- NormalKeys(fields, nfc);
        Assembled(Sort(Zip(keys, ChildrenOf(fields, nfc)), NamedByUnits))
  }

  function TreesOf(items: seq<Json>, nfc: Nfc): (trees: Result<seq<Tree>, CanonicalError>)
    ensures trees.Success? ==> |trees.value| == |items|
    decreases items, 0
  {
    if items == [] then Success([])
    else
      var first :- TreeOf(items[0], nfc);
      var rest :- TreesOf(items[1..], nfc);
      Success([first] + rest)
  }

  function ChildrenOf(fields: seq<Field>, nfc: Nfc): (children: seq<Result<Tree, CanonicalError>>)
    ensures |children| == |fields|
    ensures forall i :: 0 <= i < |fields| ==> children[i] == TreeOf(fields[i].value, nfc)
    decreases fields, 0
  {
    if fields == [] then [] else [TreeOf(fields[0].value, nfc)] + ChildrenOf(fields[1..], nfc)
  }

  /** The canonical text of a value. */
  function CanonicalText(value: Json, nfc: Nfc): Result<Str, CanonicalError> {
    var tree :- TreeOf(value, nfc);
    Success(Encode(Print(tree)))
  }

  // ----- Equal texts mean equal values -------------------------------------

  /** Equal up to key order, NFC and the sign of zero. */
  ghost predicate Alike(v: Json, w: Json, nfc: Nfc) {
    match v
    case Null => w.Null?
    case Bool(b) => w == v
    case Number(n) => w.Number? && NumberTextOf(n) == NumberTextOf(w.n)
    case String(s) => w.String? && nfc(Decode(s)) == nfc(Decode(w.s))
    case Array(items) =>
      w.Array? && |items| == |w.items| && forall i :: 0 <= i < |items| ==> Alike(items[i], w.items[i], nfc)
    case Object(fields) =>
      && w.Object?
      && (forall i :: 0 <= i < |fields| ==> LeftIn(fields[i], w.fields, nfc))
      && (forall j :: 0 <= j < |w.fields| ==> RightIn(fields, w.fields[j], nfc))
  }

  ghost predicate LeftIn(a: Field, fields: seq<Field>, nfc: Nfc) {
    exists j :: 0 <= j < |fields| && FieldsAlike(a, fields[j], nfc)
  }

  ghost predicate RightIn(fields: seq<Field>, b: Field, nfc: Nfc) {
    exists i :: 0 <= i < |fields| && FieldsAlike(fields[i], b, nfc)
  }

  ghost predicate FieldsAlike(a: Field, b: Field, nfc: Nfc) {
    nfc(Decode(a.key)) == nfc(Decode(b.key)) && Alike(a.value, b.value, nfc)
  }

  lemma {:induction false} TreesAt(items: seq<Json>, nfc: Nfc)
    requires TreesOf(items, nfc).Success?
    ensures forall i :: 0 <= i < |items| ==> TreeOf(items[i], nfc) == Success(TreesOf(items, nfc).value[i])
  {
    if items != [] { TreesAt(items[1..], nfc); }
  }

  ghost predicate KeysDiffer(entries: seq<Entry>) {
    forall i, j :: 0 <= i < j < |entries| ==> entries[i].key != entries[j].key
  }

  predicate EntryByUnits(a: Entry, b: Entry) {
    ByUnits(a.key, b.key)
  }

  lemma {:induction false} KeysAt(fields: seq<Field>, nfc: Nfc)
    requires NormalKeys(fields, nfc).Success?
    ensures var keys := NormalKeys(fields, nfc).value;
      && (forall i :: 0 <= i < |fields| ==> NormalText(fields[i].key, nfc) == Success(keys[i]))
      && NoRepeats(keys)
  {
    if fields != [] { KeysAt(fields[..|fields| - 1], nfc); }
  }

  /** The entries of an object in its own order: printed, they are sorted. */
  lemma ObjectEntries(fields: seq<Field>, nfc: Nfc) returns (entries: seq<Entry>)
    requires TreeOf(Object(fields), nfc).Success?
    ensures |entries| == |fields| && KeysDiffer(entries)
    ensures forall i :: 0 <= i < |fields| ==> NormalText(fields[i].key, nfc) == Success(entries[i].key)
    ensures forall i :: 0 <= i < |fields| ==> TreeOf(fields[i].value, nfc) == Success(entries[i].value)
    ensures TreeOf(Object(fields), nfc) == Success(ObjectTree(Sort(entries, EntryByUnits)))
  {
    ObjectParts(fields, nfc);
    KeysAt(fields, nfc);
    var keys := NormalKeys(fields, nfc).value;
    var named := NamedOf(fields, keys, nfc);
    AllCollected(named);
    entries := EntriesOf(named);
    SortedEntries(named, entries);
    EntriesDiffer(keys, entries);
  }

  function NamedOf(fields: seq<Field>, keys: seq<Points>, nfc: Nfc): (named: seq<Named>)
    requires |keys| == |fields|
    ensures |named| == |fields|
    ensures forall i :: 0 <= i < |fields| ==> named[i] == Named(keys[i], TreeOf(fields[i].value, nfc))
  {
    Zip(keys, ChildrenOf(fields, nfc))
  }

  function EntriesOf(named: seq<Named>): (entries: seq<Entry>)
    requires forall i :: 0 <= i < |named| ==> named[i].child.Success?
    ensures |entries| == |named|
    ensures forall i :: 0 <= i < |named| ==> entries[i] == Entry(named[i].key, named[i].child.value)
  {
    seq(|named|, i requires 0 <= i < |named| => Entry(named[i].key, named[i].child.value))
  }

  lemma EntriesDiffer(keys: seq<Points>, entries: seq<Entry>)
    requires NoRepeats(keys) && |entries| == |keys| && forall i :: 0 <= i < |keys| ==> entries[i].key == keys[i]
    ensures KeysDiffer(entries)
  {
  }

  /** What the tree of an object is made of. */
  lemma ObjectParts(fields: seq<Field>, nfc: Nfc)
    requires TreeOf(Object(fields), nfc).Success?
    ensures NormalKeys(fields, nfc).Success?
    ensures var sorted := Sort(NamedOf(fields, NormalKeys(fields, nfc).value, nfc), NamedByUnits);
      Collect(sorted).Success? && TreeOf(Object(fields), nfc) == Success(ObjectTree(Collect(sorted).value))
  {
  }

  lemma AllCollected(named: seq<Named>)
    requires Collect(Sort(named, NamedByUnits)).Success?
    ensures forall i :: 0 <= i < |named| ==> named[i].child.Success?
  {
    var sorted := Sort(named, NamedByUnits);
    SortKeeps(named, NamedByUnits);
    MembersOf(sorted, named);
    forall i | 0 <= i < |named| ensures named[i].child.Success? { assert named[i] in sorted; }
  }

  lemma SortedEntries(named: seq<Named>, entries: seq<Entry>)
    requires |entries| == |named|
    requires forall i :: 0 <= i < |named| ==>
      named[i].child.Success? && entries[i] == Entry(named[i].key, named[i].child.value)
    requires Collect(Sort(named, NamedByUnits)).Success?
    ensures Collect(Sort(named, NamedByUnits)).value == Sort(entries, EntryByUnits)
  {
    SortMaps(named, entries, NamedByUnits, EntryByUnits,
             (n: Named) => Entry(n.key, if n.child.Success? then n.child.value else NullTree));
  }

  /** Keys that sort together are one key. */
  lemma UnitsDecide(a: Points, b: Points)
    requires Scalars(a) && Scalars(b) && ByUnits(a, b) && ByUnits(b, a)
    ensures a == b
  {
    LexAntisymmetric(Encode(a), Encode(b));
    DecodeUndoesEncode(a);
    DecodeUndoesEncode(b);
  }

  lemma UnitsAreAnOrder()
    ensures TotalPreorder(EntryByUnits)
  {
    forall a, b ensures EntryByUnits(a, b) || EntryByUnits(b, a) { LexTotal(Encode(a.key), Encode(b.key)); }
    forall a, b, c | EntryByUnits(a, b) && EntryByUnits(b, c) ensures EntryByUnits(a, c) {
      LexTransitive(Encode(a.key), Encode(b.key), Encode(c.key));
    }
  }

  /** Sorting forgets the order of the entries and nothing else. */
  lemma SortForgetsOrder(a: seq<Entry>, b: seq<Entry>)
    requires KeysDiffer(a) && KeysDiffer(b)
    requires forall e :: e in a ==> Scalars(e.key)
    ensures Sort(a, EntryByUnits) == Sort(b, EntryByUnits) <==> forall e :: e in a <==> e in b
  {
    SortKeeps(a, EntryByUnits);
    SortKeeps(b, EntryByUnits);
    var x, y := Sort(a, EntryByUnits), Sort(b, EntryByUnits);
    MembersOf(x, a);
    MembersOf(y, b);
    if forall e :: e in a <==> e in b {
      SameMembers(a, b);
      UnitsAreAnOrder();
      SortSorts(a, EntryByUnits);
      SortSorts(b, EntryByUnits);
      forall p, q | p in x && q in x && EntryByUnits(p, q) && EntryByUnits(q, p) ensures p == q {
        UnitsDecide(p.key, q.key);
        assert p in a && q in a;
      }
      SortedIsUnique(x, y, EntryByUnits);
    }
  }

  lemma KeysAreScalars(fields: seq<Field>, entries: seq<Entry>, nfc: Nfc)
    requires IsNormalForm(nfc) && |entries| == |fields|
    requires forall i :: 0 <= i < |fields| ==> NormalText(fields[i].key, nfc) == Success(entries[i].key)
    ensures forall e :: e in entries ==> Scalars(e.key)
  {
    forall i | 0 <= i < |entries| ensures Scalars(entries[i].key) { ScalarsAreWellFormed(fields[i].key); }
  }

  /** Two values have one tree exactly when they are alike. */
  lemma {:induction false} TreesAreAlike(v: Json, w: Json, nfc: Nfc)
    requires IsNormalForm(nfc) && TreeOf(v, nfc).Success? && TreeOf(w, nfc).Success?
    ensures TreeOf(v, nfc) == TreeOf(w, nfc) <==> Alike(v, w, nfc)
    decreases v, 1
  {
    if v.Array? && w.Array? {
      ArraysAreAlike(v, w, nfc);
    } else if v.Object? && w.Object? {
      ObjectsAreAlike(v, w, nfc);
    }
  }

  lemma {:induction false} ArraysAreAlike(v: Json, w: Json, nfc: Nfc)
    requires IsNormalForm(nfc) && v.Array? && w.Array? && TreeOf(v, nfc).Success? && TreeOf(w, nfc).Success?
    ensures TreeOf(v, nfc) == TreeOf(w, nfc) <==> Alike(v, w, nfc)
    decreases v, 0
  {
    TreesAt(v.items, nfc);
    TreesAt(w.items, nfc);
    var a, b := TreesOf(v.items, nfc).value, TreesOf(w.items, nfc).value;
    if |a| == |b| {
      forall i | 0 <= i < |a| ensures a[i] == b[i] <==> Alike(v.items[i], w.items[i], nfc) {
        TreesAreAlike(v.items[i], w.items[i], nfc);
      }
      assert a == b <==> forall i :: 0 <= i < |a| ==> a[i] == b[i];
    }
  }

  lemma {:induction false} ObjectsAreAlike(v: Json, w: Json, nfc: Nfc)
    requires IsNormalForm(nfc) && v.Object? && w.Object? && TreeOf(v, nfc).Success? && TreeOf(w, nfc).Success?
    ensures TreeOf(v, nfc) == TreeOf(w, nfc) <==> Alike(v, w, nfc)
    decreases v, 0
  {
    var a := ObjectEntries(v.fields, nfc);
    var b := ObjectEntries(w.fields, nfc);
    KeysAreScalars(v.fields, a, nfc);
    SortForgetsOrder(a, b);
    forall i, j | 0 <= i < |a| && 0 <= j < |b| ensures a[i] == b[j] <==> FieldsAlike(v.fields[i], w.fields[j], nfc) {
      TreesAreAlike(v.fields[i].value, w.fields[j].value, nfc);
    }
    SameEntries(v, w, a, b, nfc);
  }

  lemma SameEntries(v: Json, w: Json, a: seq<Entry>, b: seq<Entry>, nfc: Nfc)
    requires v.Object? && w.Object? && Matched(v.fields, w.fields, a, b, nfc)
    ensures (forall e :: e in a <==> e in b) <==> Alike(v, w, nfc)
  {
    if forall e :: e in a <==> e in b { EntriesCover(v.fields, w.fields, a, b, nfc); }
    if Alike(v, w, nfc) { CoverEntries(v.fields, w.fields, a, b, nfc); }
  }

  ghost predicate Matched(v: seq<Field>, w: seq<Field>, a: seq<Entry>, b: seq<Entry>, nfc: Nfc) {
    && |a| == |v| && |b| == |w|
    && forall i, j :: 0 <= i < |a| && 0 <= j < |b| ==> (a[i] == b[j] <==> FieldsAlike(v[i], w[j], nfc))
  }

  lemma EntriesCover(v: seq<Field>, w: seq<Field>, a: seq<Entry>, b: seq<Entry>, nfc: Nfc)
    requires Matched(v, w, a, b, nfc) && forall e :: e in a <==> e in b
    ensures forall i :: 0 <= i < |v| ==> LeftIn(v[i], w, nfc)
    ensures forall j :: 0 <= j < |w| ==> RightIn(v, w[j], nfc)
  {
    forall i | 0 <= i < |v| ensures LeftIn(v[i], w, nfc) {
      assert a[i] in b;
      var j :| 0 <= j < |b| && b[j] == a[i];
      assert FieldsAlike(v[i], w[j], nfc);
    }
    forall j | 0 <= j < |w| ensures RightIn(v, w[j], nfc) {
      assert b[j] in a;
      var i :| 0 <= i < |a| && a[i] == b[j];
      assert FieldsAlike(v[i], w[j], nfc);
    }
  }

  lemma CoverEntries(v: seq<Field>, w: seq<Field>, a: seq<Entry>, b: seq<Entry>, nfc: Nfc)
    requires Matched(v, w, a, b, nfc)
    requires forall i :: 0 <= i < |v| ==> LeftIn(v[i], w, nfc)
    requires forall j :: 0 <= j < |w| ==> RightIn(v, w[j], nfc)
    ensures forall e :: e in a <==> e in b
  {
    forall i | 0 <= i < |a| ensures a[i] in b {
      assert LeftIn(v[i], w, nfc);
      var j :| 0 <= j < |w| && FieldsAlike(v[i], w[j], nfc);
      assert a[i] == b[j];
    }
    forall j | 0 <= j < |b| ensures b[j] in a {
      assert RightIn(v, w[j], nfc);
      var i :| 0 <= i < |v| && FieldsAlike(v[i], w[j], nfc);
      assert a[i] == b[j];
    }
  }

  // ----- The text as code units -------------------------------------------

  ghost predicate TreeScalars(t: Tree) {
    match t
    case StringTree(text) => Scalars(text)
    case ArrayTree(items) => forall i :: 0 <= i < |items| ==> TreeScalars(items[i])
    case ObjectTree(entries) => forall i :: 0 <= i < |entries| ==>
      Scalars(entries[i].key) && TreeScalars(entries[i].value)
    case _ => true
  }

  lemma {:induction false} TreeOfIsScalar(v: Json, nfc: Nfc)
    requires IsNormalForm(nfc) && TreeOf(v, nfc).Success?
    ensures TreeScalars(TreeOf(v, nfc).value)
  {
    match v
    case String(s) =>
      ScalarsAreWellFormed(s);
    case Array(items) =>
      TreesAt(items, nfc);
      forall i | 0 <= i < |items| ensures TreeScalars(TreesOf(items, nfc).value[i]) { TreeOfIsScalar(items[i], nfc); }
    case Object(fields) =>
      var entries := ObjectEntries(fields, nfc);
      KeysAreScalars(fields, entries, nfc);
      forall i | 0 <= i < |fields| ensures TreeScalars(entries[i].value) { TreeOfIsScalar(fields[i].value, nfc); }
      SortKeeps(entries, EntryByUnits);
      MembersOf(Sort(entries, EntryByUnits), entries);
      var sorted := Sort(entries, EntryByUnits);
      forall i | 0 <= i < |sorted| ensures Scalars(sorted[i].key) && TreeScalars(sorted[i].value) {
        assert sorted[i] in entries;
      }
    case _ =>
  }

  lemma {:induction false} QuotedScalars(p: Points)
    requires Scalars(p)
    ensures Scalars(Escaped(p)) && Scalars(Quoted(p))
  {
    if p != [] { QuotedScalars(p[1..]); }
  }

  lemma {:induction false} PrintScalars(t: Tree)
    requires TreeScalars(t)
    ensures Scalars(Print(t))
    decreases t, 1
  {
    match t
    case NumberTree(shown) =>
      assert forall i :: 0 <= i < |shown| ==> NumberUnit(shown[i]);
    case StringTree(text) => QuotedScalars(text);
    case ArrayTree(items) => ItemsScalars(items);
    case ObjectTree(entries) => EntriesScalars(entries);
    case _ =>
  }

  lemma {:induction false} ItemsScalars(items: seq<Tree>)
    requires forall i :: 0 <= i < |items| ==> TreeScalars(items[i])
    ensures Scalars(PrintItems(items))
    decreases items, 0
  {
    if items != [] {
      PrintScalars(items[0]);
      ItemsScalars(items[1..]);
    }
  }

  lemma {:induction false} EntriesScalars(entries: seq<Entry>)
    requires forall i :: 0 <= i < |entries| ==> Scalars(entries[i].key) && TreeScalars(entries[i].value)
    ensures Scalars(PrintEntries(entries))
    decreases entries, 0
  {
    if entries != [] {
      QuotedScalars(entries[0].key);
      PrintScalars(entries[0].value);
      EntriesScalars(entries[1..]);
    }
  }

  /** A text decodes to what was printed. */
  lemma TextDecodes(v: Json, nfc: Nfc)
    requires IsNormalForm(nfc) && TreeOf(v, nfc).Success?
    ensures Decode(CanonicalText(v, nfc).value) == Print(TreeOf(v, nfc).value)
  {
    TreeOfIsScalar(v, nfc);
    PrintScalars(TreeOf(v, nfc).value);
    DecodeUndoesEncode(Print(TreeOf(v, nfc).value));
  }

  /** Two values have one canonical text exactly when they are equal up to key
      order, NFC and the sign of zero. */
  lemma CanonicalTextIsInjective(v: Json, w: Json, nfc: Nfc)
    requires IsNormalForm(nfc) && CanonicalText(v, nfc).Success? && CanonicalText(w, nfc).Success?
    ensures CanonicalText(v, nfc) == CanonicalText(w, nfc) <==> Alike(v, w, nfc)
  {
    TreesAreAlike(v, w, nfc);
    if CanonicalText(v, nfc) == CanonicalText(w, nfc) {
      TextDecodes(v, nfc);
      TextDecodes(w, nfc);
      PrintInjective(TreeOf(v, nfc).value, TreeOf(w, nfc).value);
    }
  }
}
