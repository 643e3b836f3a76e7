/** Which runs a run is followed into: the claims its traces make, no more and no fewer. */
module ClaimMeaning {
  import opened Json
  import opened Results
  import opened Receipts
  import opened Executor
  import opened TemplateMeaning
  import opened Verify
  import Hex
  import HireTree
  import Template

  // ----- An id as text ------------------------------------------------------

  const LOWER := "0123456789abcdef"
  const UPPER := "0123456789ABCDEF"

  /** c is the hex digit n, in either case. */
  predicate IsHexDigit(c: CodeUnit, n: nat) {
    n < 16 && (c == LOWER[n] as int || c == UPPER[n] as int)
  }

  lemma HexValueReads(c: CodeUnit, n: nat)
    ensures Hex.HexValue(c) == Some(n) <==> IsHexDigit(c, n)
  {
  }

  /** The text is 0x and the two digits of each byte in turn. */
  ghost predicate SpellsId(s: Str, id: Bytes32) {
    && |s| == 66 && s[0] == '0' as int && s[1] == 'x' as int
    && forall k :: 0 <= k < 32 ==> IsHexDigit(s[2 + 2 * k], id[k] / 16) && IsHexDigit(s[3 + 2 * k], id[k] % 16)
  }

  ghost predicate SpellsBytes(s: Str, b: Bytes) {
    && |s| == 2 * |b|
    && forall k :: 0 <= k < |b| ==> SpellsByte(s[2 * k], s[2 * k + 1], b[k])
  }

  predicate SpellsByte(high: CodeUnit, low: CodeUnit, b: Byte) {
    Hex.HexValue(high) == Some(b / 16) && Hex.HexValue(low) == Some(b % 16)
  }

  lemma {:induction false} FromHexReads(s: Str, b: Bytes)
    ensures Hex.FromHex(s) == Some(b) <==> SpellsBytes(s, b)
    decreases |s|
  {
    if |s| >= 2 && b != [] {
      FromHexReads(s[2..], b[1..]);
      ByteOf(s[0], s[1], b[0]);
      SpelledTail(s, b);
      assert b == [b[0]] + b[1..];
      if Hex.FromHex(s) == Some(b) { assert Hex.FromHex(s[2..]) == Some(b[1..]); }
    }
  }

  lemma ByteOf(high: CodeUnit, low: CodeUnit, b: Byte)
    ensures var x, y := Hex.HexValue(high), Hex.HexValue(low);
      SpellsByte(high, low, b) <==> x.Some? && y.Some? && b == 16 * x.value + y.value
  {
  }

  lemma SpelledTail(s: Str, b: Bytes)
    requires |s| >= 2 && b != []
    ensures SpellsBytes(s, b) <==> SpellsByte(s[0], s[1], b[0]) && SpellsBytes(s[2..], b[1..])
  {
    if |s| == 2 * |b| {
      if SpellsBytes(s, b) {
        assert SpellsByte(s[2 * 0], s[2 * 0 + 1], b[0]);
        forall k | 0 <= k < |b[1..]| ensures SpellsByte(s[2..][2 * k], s[2..][2 * k + 1], b[1..][k]) {
          assert SpellsByte(s[2 * (k + 1)], s[2 * (k + 1) + 1], b[k + 1]);
        }
      }
      if SpellsByte(s[0], s[1], b[0]) && SpellsBytes(s[2..], b[1..]) {
        forall k | 0 <= k < |b| ensures SpellsByte(s[2 * k], s[2 * k + 1], b[k]) {
          if k > 0 { assert SpellsByte(s[2..][2 * (k - 1)], s[2..][2 * (k - 1) + 1], b[1..][k - 1]); }
        }
      }
    }
  }

  lemma DigitsSpell(s: Str, id: Bytes32)
    requires |s| == 66
    ensures SpellsBytes(s[2..], id) <==>
      forall k :: 0 <= k < 32 ==> IsHexDigit(s[2 + 2 * k], id[k] / 16) && IsHexDigit(s[3 + 2 * k], id[k] % 16)
  {
    forall k | 0 <= k < 32
      ensures SpellsByte(s[2..][2 * k], s[2..][2 * k + 1], id[k]) <==>
        IsHexDigit(s[2 + 2 * k], id[k] / 16) && IsHexDigit(s[3 + 2 * k], id[k] % 16)
    {
      HexValueReads(s[2 + 2 * k], id[k] / 16);
      HexValueReads(s[3 + 2 * k], id[k] % 16);
    }
  }

  /** An id is read exactly where the text spells it. */
  lemma ParsesId(s: Str, id: Bytes32)
    ensures Hex.ParseId(s) == Some(id) <==> SpellsId(s, id)
  {
    if |s| == 66 {
      FromHexReads(s[2..], id);
      DigitsSpell(s, id);
    }
  }

  // ----- The shape of a claim -----------------------------------------------

  /** The value has a field of this name, first of its name, holding x. */
  ghost predicate Holds(value: Json, key: Str, x: Json) {
    value.Object? && exists j :: FirstField(value.fields, key, j) && value.fields[j].value == x
  }

  lemma LookupHolds(value: Json, key: Str, x: Json)
    ensures Lookup(value, key) == Some(x) <==> Holds(value, key, x)
  {
    if value.Object? {
      FieldFound(value.fields, key, 0);
      forall j ensures FirstField(value.fields, key, j) ==> Template.FieldIndex(value.fields, key) == j {
        FieldFound(value.fields, key, j);
      }
    }
  }

  ghost predicate HoldsId(value: Json, key: Str, id: Bytes32) {
    exists s :: Holds(value, key, String(s)) && SpellsId(s, id)
  }

  ghost predicate HoldsNumber(value: Json, key: Str) {
    exists n :: Holds(value, key, Number(n))
  }

  /** The output is that of a sub-flow: it names a run, the root it was sealed
      under, a number of steps and an outcome. */
  ghost predicate NamesRun(output: Json, runId: Bytes32, root: Bytes32) {
    && HoldsId(output, Text("childRunId"), runId) && HoldsId(output, Text("chainRoot"), root)
    && HoldsNumber(output, Text("stepCount")) && HoldsNumber(output, Text("outcome"))
  }

  lemma IdHolds(value: Json, key: Str, id: Bytes32)
    ensures LookupId(value, key) == Some(id) <==> HoldsId(value, key, id)
  {
    var v := Lookup(value, key);
    if v.Some? && v.value.String? {
      LookupHolds(value, key, v.value);
      ParsesId(v.value.s, id);
    }
    forall s | Holds(value, key, String(s)) ensures v == Some(String(s)) { LookupHolds(value, key, String(s)); }
  }

  lemma NumberHolds(value: Json, key: Str)
    ensures LookupIsNumber(value, key) <==> HoldsNumber(value, key)
  {
    var v := Lookup(value, key);
    if v.Some? && v.value.Number? { LookupHolds(value, key, v.value); }
    forall n | Holds(value, key, Number(n)) ensures v == Some(Number(n)) { LookupHolds(value, key, Number(n)); }
  }

  /** An output is read as a claim of a run exactly when it names one. */
  lemma ClaimReads(output: Json, runId: Bytes32, root: Bytes32)
    ensures ReadHiredClaim(output) == Some((runId, root)) <==> NamesRun(output, runId, root)
  {
    IdHolds(output, HireTree.CHILD_RUN_ID, runId);
    IdHolds(output, HireTree.CHAIN_ROOT, root);
    NumberHolds(output, HireTree.STEP_COUNT);
    NumberHolds(output, HireTree.OUTCOME);
  }

  // ----- The claims of a run ------------------------------------------------

  /** The trace of step i claims a sub-flow run. */
  ghost predicate ClaimsSubFlow(i: nat, t: Trace, c: Claim) {
    exists root :: NamesRun(t.output, c.runId, root) && c == Claim(i, c.runId, Some(root), SubFlow)
  }

  /** The trace of step i discloses a run. */
  ghost predicate Discloses(i: nat, t: Trace, c: Claim) {
    c == Claim(i, c.runId, None, Disclosed) && exists h :: h in t.hiredRuns && SpellsId(h, c.runId)
  }

  ghost predicate SubFlowOf(view: View, receipts: seq<Receipt>, c: Claim) {
    exists r :: r in receipts && TraceOf(view, r).Some? && ClaimsSubFlow(r.stepIndex, TraceOf(view, r).value, c)
  }

  ghost predicate DisclosureOf(view: View, receipts: seq<Receipt>, c: Claim) {
    exists r :: r in receipts && TraceOf(view, r).Some? && Discloses(r.stepIndex, TraceOf(view, r).value, c)
  }

  /** No disclosed run was claimed before. */
  ghost predicate DisclosedOnce(claims: seq<Claim>) {
    forall i, j :: 0 <= i < j < |claims| && claims[j].kind.Disclosed? ==> claims[i].runId != claims[j].runId
  }

  lemma {:induction false} DisclosedAdds(claims: seq<Claim>, i: nat, hired: seq<Str>)
    requires DisclosedOnce(claims)
    ensures DisclosedOnce(AddDisclosed(claims, i, hired))
    ensures forall c :: c in claims ==> c in AddDisclosed(claims, i, hired)
    ensures forall c :: c in AddDisclosed(claims, i, hired) ==>
      || c in claims
      || (c == Claim(i, c.runId, None, Disclosed) && exists h :: h in hired && SpellsId(h, c.runId))
  {
    if hired != [] {
      var front, last := hired[..|hired| - 1], hired[|hired| - 1];
      assert hired == front + [last];
      DisclosedAdds(claims, i, front);
      var runId := Hex.ParseId(last);
      if runId.Some? {
        ParsesId(last, runId.value);
        assert last in hired;
      }
    }
  }

  lemma SubFlowAdds(claims: seq<Claim>, i: nat, t: Trace, c: Claim)
    ensures c in AddSubFlow(claims, i, t.output) <==> c in claims || ClaimsSubFlow(i, t, c)
  {
    var claim := ReadHiredClaim(t.output);
    if claim.Some? { ClaimReads(t.output, claim.value.0, claim.value.1); }
    forall root | NamesRun(t.output, c.runId, root) ensures claim == Some((c.runId, root)) {
      ClaimReads(t.output, c.runId, root);
    }
  }

  lemma TraceAdds(claims: seq<Claim>, i: nat, t: Trace, c: Claim)
    requires DisclosedOnce(claims)
    ensures var added := AddDisclosed(AddSubFlow(claims, i, t.output), i, t.hiredRuns);
      && DisclosedOnce(added)
      && (c.kind.SubFlow? ==> (c in added <==> c in claims || ClaimsSubFlow(i, t, c)))
      && (c.kind.Disclosed? && c in added ==> c in claims || Discloses(i, t, c))
  {
    var first := AddSubFlow(claims, i, t.output);
    SubFlowAdds(claims, i, t, c);
    DisclosedAdds(first, i, t.hiredRuns);
  }

  /** The runs followed are exactly the sub-flows the traces name, and of the
      runs they disclose each that is not followed already, once. */
  lemma {:induction false} ClaimsExactly(view: View, receipts: seq<Receipt>, c: Claim)
    ensures c.kind.SubFlow? ==> (c in ClaimsOf(view, receipts) <==> SubFlowOf(view, receipts, c))
    ensures c.kind.Disclosed? && c in ClaimsOf(view, receipts) ==> DisclosureOf(view, receipts, c)
    ensures c.kind.Disclosed? && DisclosureOf(view, receipts, c) ==> Claimed(ClaimsOf(view, receipts), c.runId)
    ensures DisclosedOnce(ClaimsOf(view, receipts))
  {
    if receipts != [] {
      var front, r := receipts[..|receipts| - 1], receipts[|receipts| - 1];
      assert receipts == front + [r] && r in receipts;
      ClaimsExactly(view, front, c);
      if TraceOf(view, r).Some? { TraceAdds(ClaimsOf(view, front), r.stepIndex, TraceOf(view, r).value, c); }
      LastReceipt(view, front, r, c);
      if c.kind.Disclosed? && DisclosureOf(view, receipts, c) { DisclosureIsClaimed(view, receipts, c); }
    }
  }

  lemma LastReceipt(view: View, front: seq<Receipt>, r: Receipt, c: Claim)
    ensures SubFlowOf(view, front + [r], c) <==>
      SubFlowOf(view, front, c) ||
      (TraceOf(view, r).Some? && ClaimsSubFlow(r.stepIndex, TraceOf(view, r).value, c))
    ensures DisclosureOf(view, front + [r], c) <==>
      DisclosureOf(view, front, c) ||
      (TraceOf(view, r).Some? && Discloses(r.stepIndex, TraceOf(view, r).value, c))
  {
    var all := front + [r];
    assert r in all && forall s :: s in all <==> s in front || s == r;
  }

  lemma DisclosureIsClaimed(view: View, receipts: seq<Receipt>, c: Claim)
    requires DisclosureOf(view, receipts, c)
    ensures Claimed(ClaimsOf(view, receipts), c.runId)
  {
    var r :| r in receipts && TraceOf(view, r).Some? && Discloses(r.stepIndex, TraceOf(view, r).value, c);
    var h :| h in TraceOf(view, r).value.hiredRuns && SpellsId(h, c.runId);
    var k :| 0 <= k < |receipts| && receipts[k] == r;
    ParsesId(h, c.runId);
    EveryDisclosureClaimed(view, receipts, k, h);
  }

  // ----- The id of a child run ------------------------------------------------

  /** A child run's id is the hash of this text: the prefix, the parent's id, a
      colon and the step's index in decimal. */
  lemma ChildTextSpells(host: HireTree.Host, parent: Bytes32, step: nat)
    ensures var text := HireTree.ChildText(parent, step);
      && HireTree.ChildId(host, parent, step) == host.keccakText(text)
      && |text| > 82 && text[..15] == Text("0gflow-subflow:")
      && SpellsId(text[15..81], parent) && text[81] == ':' as int
      && Template.IsIndex(text[82..]) && Template.Decimal(text[82..]) == step
  {
    var text := HireTree.ChildText(parent, step);
    assert text[15..81] == Hex.ShowId(parent) && text[82..] == Hex.Digits(step);
    IdShown(parent);
    DigitsAreIndex(step);
  }

  /** The number is this one, in decimal. */
  ghost predicate HoldsCount(value: Json, key: Str, n: nat) {
    exists shown: NumberText ::
      Holds(value, key, Number(Finite(shown))) && Template.IsIndex(shown) && Template.Decimal(shown) == n
  }

  lemma IdShown(id: Bytes32)
    ensures SpellsId(Hex.ShowId(id), id)
  {
    Hex.IdRoundTrip(id);
    ParsesId(Hex.ShowId(id), id);
  }

  lemma IdField(value: Json, key: Str, j: nat, id: Bytes32)
    requires value.Object? && FirstField(value.fields, key, j) && value.fields[j].value == String(Hex.ShowId(id))
    ensures HoldsId(value, key, id)
  {
    IdShown(id);
    assert Holds(value, key, String(Hex.ShowId(id)));
  }

  lemma CountField(value: Json, key: Str, j: nat, n: nat)
    requires value.Object? && FirstField(value.fields, key, j)
    requires value.fields[j].value == Number(Finite(Hex.Digits(n)))
    ensures HoldsCount(value, key, n)
  {
    DigitsAreIndex(n);
    assert Holds(value, key, Number(Finite(Hex.Digits(n))));
  }

  lemma ChildFields(fields: seq<Field>)
    requires |fields| == 5
    requires fields[0].key == HireTree.CHILD_RUN_ID && fields[1].key == HireTree.CHILD_FLOW_ID
    requires fields[2].key == HireTree.CHAIN_ROOT && fields[3].key == HireTree.STEP_COUNT
    requires fields[4].key == HireTree.OUTCOME
    ensures FirstField(fields, HireTree.CHILD_RUN_ID, 0) && FirstField(fields, HireTree.CHILD_FLOW_ID, 1)
    ensures FirstField(fields, HireTree.CHAIN_ROOT, 2) && FirstField(fields, HireTree.STEP_COUNT, 3)
    ensures FirstField(fields, HireTree.OUTCOME, 4)
  {
    assert HireTree.CHAIN_ROOT[0] != HireTree.STEP_COUNT[0];
  }

  /** What a sub-flow step puts out says of its run. */
  ghost predicate SaysRun(output: Json, runId: Bytes32, flowId: Bytes32, root: Bytes32, count: nat, code: nat) {
    && HoldsId(output, HireTree.CHILD_RUN_ID, runId) && HoldsId(output, HireTree.CHILD_FLOW_ID, flowId)
    && HoldsId(output, HireTree.CHAIN_ROOT, root)
    && HoldsCount(output, HireTree.STEP_COUNT, count) && HoldsCount(output, HireTree.OUTCOME, code)
  }

  /** What a sub-flow step puts out names its run and its flow, the root it was
      sealed under, how many steps it has and how it came out. */
  lemma ChildOutputSays(runId: Bytes32, flowId: Bytes32, root: Bytes32, count: nat, outcome: Status)
    ensures SaysRun(HireTree.ChildOutput(runId, flowId, root, count, outcome), runId, flowId, root, count,
                    outcome.Code())
  {
    var output := HireTree.ChildOutput(runId, flowId, root, count, outcome);
    ChildFields(output.fields);
    IdField(output, HireTree.CHILD_RUN_ID, 0, runId);
    IdField(output, HireTree.CHILD_FLOW_ID, 1, flowId);
    IdField(output, HireTree.CHAIN_ROOT, 2, root);
    CountField(output, HireTree.STEP_COUNT, 3, count);
    CountField(output, HireTree.OUTCOME, 4, outcome.Code());
  }

  /** What a parent step is told of the run it opened: that it did not complete,
      or what it puts out and whether every step of it was ok. */
  lemma ParentIsTold(result: HireTree.TreeResult)
    ensures result.Aborted? ==> HireTree.AsChild(result).ChildThrew?
    ensures result.Completed? ==>
      var rs, told := Sealed(result.st), HireTree.AsChild(result);
      && told.ChildSealed? && (told.succeeded <==> forall r :: r in rs ==> r.status.Code() == 0)
      && SaysRun(told.output, result.run.runId, result.run.flowId, result.chainRoot, |rs|, SealedOutcome(rs).Code())
  {
    if result.Completed? {
      var rs := Sealed(result.st);
      ChildOutputSays(result.run.runId, result.run.flowId, result.chainRoot, |rs|, SealedOutcome(rs));
    }
  }
}
