/** Which values have a canonical text. */
module CanonicalDomain {
  import opened Json
  import opened Results
  import opened Sorting
  import opened Unicode
  import opened Canonical
  import opened Canonicalize

  // ----- Strings ----------------------------------------------------------

  predicate High(c: CodeUnit) {
    0xD800 <= c < 0xDC00
  }

  predicate Low(c: CodeUnit) {
    0xDC00 <= c < 0xE000
  }

  /** Every high surrogate has a low one after it, and every low one a high one
      before it. */
  ghost predicate Paired(s: Str) {
    && (forall i :: 0 <= i < |s| && High(s[i]) ==> i + 1 < |s| && Low(s[i + 1]))
    && (forall i :: 0 <= i < |s| && Low(s[i]) ==> i > 0 && High(s[i - 1]))
  }

  lemma {:induction false} PairedExactly(s: Str)
    ensures WellFormed(s) <==> Paired(s)
    decreases |s|
  {
    if s != [] {
      var n := if High(s[0]) then 2 else 1;
      if n == 2 && (|s| < 2 || !Low(s[1])) {
        assert !Paired(s);
      } else if Low(s[0]) {
        assert !Paired(s);
      } else {
        PairedExactly(s[n..]);
        PairedTail(s, n);
      }
    }
  }

  lemma PairedTail(s: Str, n: nat)
    requires n == 1 || n == 2
    requires |s| >= n && !Low(s[0]) && (n == 2 <==> High(s[0])) && (n == 2 ==> Low(s[1]))
    ensures Paired(s) <==> Paired(s[n..])
  {
    var t := s[n..];
    assert forall i :: 0 <= i < |t| ==> t[i] == s[i + n];
    if Paired(s) {
      forall i | 0 <= i < |t| && High(t[i]) ensures i + 1 < |t| && Low(t[i + 1]) { assert High(s[i + n]); }
      forall i | 0 <= i < |t| && Low(t[i]) ensures i > 0 && High(t[i - 1]) { assert Low(s[i + n]); }
    }
    if Paired(t) {
      forall i | 0 <= i < |s| && High(s[i]) ensures i + 1 < |s| && Low(s[i + 1]) {
        if i >= n { assert High(t[i - n]); }
      }
      forall i | 0 <= i < |s| && Low(s[i]) ensures i > 0 && High(s[i - 1]) {
        if i >= n { assert Low(t[i - n]); }
      }
    }
  }

  // ----- Values -----------------------------------------------------------

  /** Finite numbers, paired surrogates, and in each object no key toJSON and no
      two keys that normalise alike. */
  ghost predicate HasText(v: Json, nfc: Nfc) {
    match v
    case Number(n) => !n.NonFinite?
    case String(s) => Paired(s)
    case Array(items) => forall i :: 0 <= i < |items| ==> HasText(items[i], nfc)
    case Object(fields) =>
      && (forall i :: 0 <= i < |fields| ==> KeyHasText(fields[i].key) && HasText(fields[i].value, nfc))
      && KeysStayApart(fields, nfc)
    case _ => true
  }

  ghost predicate KeyHasText(key: Str) {
    Paired(key) && key != Text("toJSON")
  }

  ghost predicate KeysStayApart(fields: seq<Field>, nfc: Nfc) {
    forall i, j :: 0 <= i < j < |fields| ==> nfc(Decode(fields[i].key)) != nfc(Decode(fields[j].key))
  }

  lemma {:induction false} KeysNormalise(fields: seq<Field>, nfc: Nfc)
    ensures NormalKeys(fields, nfc).Success? <==>
      (forall i :: 0 <= i < |fields| ==> Paired(fields[i].key)) && KeysStayApart(fields, nfc)
  {
    if fields != [] {
      var n := |fields| - 1;
      KeysNormalise(fields[..n], nfc);
      PairedExactly(fields[n].key);
      assert forall i :: 0 <= i < n ==> fields[..n][i] == fields[i];
      if NormalKeys(fields[..n], nfc).Success? { FrontKeys(fields[..n], NormalKeys(fields[..n], nfc).value, nfc); }
    }
  }

  lemma FrontKeys(fields: seq<Field>, keys: seq<Points>, nfc: Nfc)
    requires NormalKeys(fields, nfc) == Success(keys)
    ensures forall key :: key in keys <==> NormalisesTo(fields, key, nfc)
  {
    KeysAt(fields, nfc);
    KeysAreNormal(fields, keys, nfc);
  }

  ghost predicate NormalisesTo(fields: seq<Field>, key: Points, nfc: Nfc) {
    exists i :: 0 <= i < |fields| && nfc(Decode(fields[i].key)) == key
  }

  lemma KeysAreNormal(fields: seq<Field>, keys: seq<Points>, nfc: Nfc)
    requires |keys| == |fields| && forall i :: 0 <= i < |fields| ==> NormalText(fields[i].key, nfc) == Success(keys[i])
    ensures forall key :: key in keys <==> NormalisesTo(fields, key, nfc)
  {
    forall key | key in keys ensures NormalisesTo(fields, key, nfc) {
      var i :| 0 <= i < |keys| && keys[i] == key;
      assert NormalText(fields[i].key, nfc) == Success(keys[i]);
    }
    forall key | NormalisesTo(fields, key, nfc) ensures key in keys {
      var i :| 0 <= i < |fields| && nfc(Decode(fields[i].key)) == key;
      assert NormalText(fields[i].key, nfc) == Success(keys[i]);
    }
  }

  lemma ChildrenCollect(named: seq<Named>)
    ensures Collect(Sort(named, NamedByUnits)).Success? <==>
      forall i :: 0 <= i < |named| ==> named[i].child.Success?
  {
    var sorted := Sort(named, NamedByUnits);
    SortKeeps(named, NamedByUnits);
    MembersOf(sorted, named);
    if Collect(sorted).Success? { AllCollected(named); }
    if forall i :: 0 <= i < |named| ==> named[i].child.Success? {
      forall i | 0 <= i < |sorted| ensures sorted[i].child.Success? { assert sorted[i] in named; }
    }
  }

  lemma NoToJson(fields: seq<Field>)
    ensures !HasToJson(fields) <==> forall i :: 0 <= i < |fields| ==> fields[i].key != Text("toJSON")
  {
  }

  lemma ObjectAccepts(fields: seq<Field>, nfc: Nfc)
    ensures TreeOf(Object(fields), nfc).Success? <==>
      && !HasToJson(fields) && NormalKeys(fields, nfc).Success?
      && forall i :: 0 <= i < |fields| ==> TreeOf(fields[i].value, nfc).Success?
  {
    if !HasToJson(fields) && NormalKeys(fields, nfc).Success? {
      var named := NamedOf(fields, NormalKeys(fields, nfc).value, nfc);
      ChildrenCollect(named);
      assert forall i :: 0 <= i < |fields| ==> named[i].child == TreeOf(fields[i].value, nfc);
    }
  }

  lemma {:induction false} ItemsAccept(items: seq<Json>, nfc: Nfc)
    ensures TreesOf(items, nfc).Success? <==> forall i :: 0 <= i < |items| ==> TreeOf(items[i], nfc).Success?
  {
    if items != [] { ItemsAccept(items[1..], nfc); }
  }

  ghost predicate Agrees(v: Json, nfc: Nfc) {
    TreeOf(v, nfc).Success? <==> HasText(v, nfc)
  }

  lemma ItemsAgree(items: seq<Json>, nfc: Nfc)
    requires forall i :: 0 <= i < |items| ==> Agrees(items[i], nfc)
    ensures Agrees(Array(items), nfc)
  {
    ItemsAccept(items, nfc);
  }

  lemma FieldsAgree(fields: seq<Field>, nfc: Nfc)
    requires forall i :: 0 <= i < |fields| ==> Agrees(fields[i].value, nfc)
    ensures Agrees(Object(fields), nfc)
  {
    ObjectAccepts(fields, nfc);
    KeysNormalise(fields, nfc);
    NoToJson(fields);
  }

  lemma {:induction false} TreesExactly(v: Json, nfc: Nfc)
    ensures Agrees(v, nfc)
    decreases v
  {
    match v
    case String(s) => PairedExactly(s);
    case Array(items) =>
      forall i | 0 <= i < |items| ensures Agrees(items[i], nfc) { TreesExactly(items[i], nfc); }
      ItemsAgree(items, nfc);
    case Object(fields) =>
      forall i | 0 <= i < |fields| ensures Agrees(fields[i].value, nfc) { TreesExactly(fields[i].value, nfc); }
      FieldsAgree(fields, nfc);
    case _ =>
  }

  /** A value has a canonical text exactly when it meets this condition. */
  lemma AcceptsExactly(v: Json, nfc: Nfc)
    ensures CanonicalText(v, nfc).Success? <==> HasText(v, nfc)
  {
    TreesExactly(v, nfc);
  }
}
