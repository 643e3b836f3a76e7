/** The linkage check: re-deriving every step's input from receipts and stored
    traces alone, in index order. */
module Linkage {
  import opened Json
  import opened Results
  import opened Receipts
  import Template

  datatype LinkedStep = LinkedStep(id: Str, input: Json, needs: seq<Str>)

  datatype StepEvidence = StepEvidence(stepId: Str, input: Json, output: Json)

  datatype Query = Query(
    hash: Json -> Bytes32,
    steps: seq<LinkedStep>,
    runInputs: Json,
    evidence: seq<StepEvidence>,
    receipts: seq<Receipt>)

  datatype LinkFailure =
    | BadTemplate(reason: Template.TemplateError)
    | Undeclared(upstream: Str)
    | Unknown(upstream: Str)
    | NotBefore(upstream: Str)
    | NoReceipt
    | NoEvidence
    | UpstreamNotOk(upstream: Str)
    | CommitsNothing
    | OutputMismatch
    | InputMismatch
    | Unconfirmed
    | Unresolved(reason: Template.TemplateError)
    | StrayReceipt(stepIndex: nat)

  datatype StepLinkage = StepLinkage(
    stepIndex: nat,
    stepId: Str,
    derivedFrom: seq<Str>,
    derivedInputHash: Option<Bytes32>,
    inputHashMatches: bool,
    outputHashMatches: bool,
    ok: bool,
    failures: seq<LinkFailure>)

  datatype LinkageReport = LinkageReport(
    ok: bool,
    totalSteps: nat,
    linkedSteps: nat,
    steps: seq<StepLinkage>,
    failures: seq<LinkFailure>)

  // ----- Look-ups: a later entry replaces an earlier one ------------------

  function ReceiptByIndex(receipts: seq<Receipt>): map<nat, Receipt> {
    if receipts == [] then map[]
    else
      var last := receipts[|receipts| - 1];
      ReceiptByIndex(receipts[..|receipts| - 1])[last.stepIndex := last]
  }

  function EvidenceById(evidence: seq<StepEvidence>): map<Str, StepEvidence> {
    if evidence == [] then map[]
    else
      var last := evidence[|evidence| - 1];
      EvidenceById(evidence[..|evidence| - 1])[last.stepId := last]
  }

  function IndexById(steps: seq<LinkedStep>): (m: map<Str, nat>)
    ensures forall id :: id in m ==> m[id] < |steps| && steps[m[id]].id == id
    ensures forall i :: 0 <= i < |steps| ==> steps[i].id in m && i <= m[steps[i].id]
  {
    if steps == [] then map[]
    else
      var n := |steps| - 1;
      var front := IndexById(steps[..n]);
      assert forall i :: 0 <= i < n ==> steps[..n][i] == steps[i];
      front[steps[n].id := n]
  }

  // ----- What the check asks of a step ------------------------------------

  function Receipted(q: Query, i: nat): Option<Receipt> {
    var m := ReceiptByIndex(q.receipts);
    if i in m then Some(m[i]) else None
  }

  function Recorded(q: Query, id: Str): Option<StepEvidence> {
    var m := EvidenceById(q.evidence);
    if id in m then Some(m[id]) else None
  }

  function DerivedFrom(step: LinkedStep): seq<Str> {
    var found := Template.ReferencedSteps(step.input);
    if found.Success? then found.value else []
  }

  /** The output of step i is the one its receipt commits to. */
  predicate Confirms(q: Query, i: nat)
    requires i < |q.steps|
  {
    var r, e := Receipted(q, i), Recorded(q, q.steps[i].id);
    && r.Some? && e.Some?
    && r.value.outputHash != ZERO32 && q.hash(e.value.output) == r.value.outputHash
  }

  /** The outputs confirmed by the steps before i. */
  function ConfirmedBefore(q: Query, i: nat): (m: map<Str, Json>)
    requires i <= |q.steps|
    ensures forall id :: id in m ==> Recorded(q, id).Some? && m[id] == Recorded(q, id).value.output
    ensures forall id :: id in m <==> exists j :: 0 <= j < i && q.steps[j].id == id && Confirms(q, j)
  {
    if i == 0 then map[]
    else
      var m := ConfirmedBefore(q, i - 1);
      if Confirms(q, i - 1) then m[q.steps[i - 1].id := Recorded(q, q.steps[i - 1].id).value.output] else m
  }

  function StatusBefore(q: Query, i: nat): map<Str, Status>
    requires i <= |q.steps|
  {
    if i == 0 then map[]
    else
      var m := StatusBefore(q, i - 1);
      var r := Receipted(q, i - 1);
      if r.Some? then m[q.steps[i - 1].id := r.value.status] else m
  }

  /** A read is declared in needs and names a step that comes earlier. */
  ghost predicate ReadDeclared(q: Query, i: nat, upstream: Str)
    requires i < |q.steps|
  {
    && upstream in q.steps[i].needs
    && upstream in IndexById(q.steps) && IndexById(q.steps)[upstream] < i
  }

  ghost predicate ReadsLinked(q: Query, i: nat)
    requires i < |q.steps|
  {
    && Template.ReferencedSteps(q.steps[i].input).Success?
    && forall u :: u in DerivedFrom(q.steps[i]) ==> ReadDeclared(q, i, u)
  }

  predicate UpstreamFine(q: Query, i: nat, upstream: Str)
    requires i < |q.steps|
  {
    var m := StatusBefore(q, i + 1);
    upstream in m ==> m[upstream].Ok?
  }

  ghost predicate StatusLinked(q: Query, i: nat, r: Receipt)
    requires i < |q.steps|
  {
    r.status.Ok? ==>
      && r.inputHash != ZERO32 && r.outputHash != ZERO32
      && forall u :: u in DerivedFrom(q.steps[i]) ==> UpstreamFine(q, i, u)
  }

  ghost predicate InputLinked(q: Query, i: nat, r: Receipt)
    requires i < |q.steps|
  {
    r.inputHash != ZERO32 ==>
      var context := Template.Context(q.runInputs, ConfirmedBefore(q, i));
      && (forall u :: u in DerivedFrom(q.steps[i]) ==> u in context.outputs)
      && Template.Resolve(q.steps[i].input, context).Success?
      && q.hash(Template.Resolve(q.steps[i].input, context).value) == r.inputHash
  }

  ghost predicate OutputLinked(q: Query, r: Receipt, e: StepEvidence) {
    r.outputHash != ZERO32 ==> q.hash(e.output) == r.outputHash
  }

  ghost predicate StepLinked(q: Query, i: nat)
    requires i < |q.steps|
  {
    var r, e := Receipted(q, i), Recorded(q, q.steps[i].id);
    && ReadsLinked(q, i)
    && r.Some? && e.Some?
    && StatusLinked(q, i, r.value)
    && OutputLinked(q, r.value, e.value)
    && InputLinked(q, i, r.value)
  }

  ghost predicate NoStrays(q: Query) {
    forall k :: 0 <= k < |q.receipts| ==> q.receipts[k].stepIndex < |q.steps|
  }

  ghost predicate Linked(q: Query) {
    (forall i :: 0 <= i < |q.steps| ==> StepLinked(q, i)) && NoStrays(q)
  }

  // ----- The check, as the source runs it ---------------------------------

  method CheckReads(q: Query, i: nat) returns (derivedFrom: seq<Str>, failures: seq<LinkFailure>)
    requires i < |q.steps|
    ensures derivedFrom == DerivedFrom(q.steps[i])
    ensures failures == [] <==> ReadsLinked(q, i)
  {
    var step := q.steps[i];
    failures := [];
    derivedFrom := [];
    var found := Template.ReferencedSteps(step.input);
    if found.Success? {
      derivedFrom := found.value;
    } else {
      failures := failures + [BadTemplate(found.error)];
    }
    var indexById := IndexById(q.steps);
    for k := 0 to |derivedFrom|
      invariant failures == [] <==>
        found.Success? && forall a :: 0 <= a < k ==> ReadDeclared(q, i, derivedFrom[a])
    {
      var upstream := derivedFrom[k];
      if upstream !in step.needs {
        failures := failures + [Undeclared(upstream)];
      }
      if upstream !in indexById {
        failures := failures + [Unknown(upstream)];
      } else if indexById[upstream] >= i {
        failures := failures + [NotBefore(upstream)];
      }
    }
  }

  method CheckUpstream(q: Query, i: nat, derivedFrom: seq<Str>, statuses: map<Str, Status>)
      returns (failures: seq<LinkFailure>)
    requires i < |q.steps| && statuses == StatusBefore(q, i + 1)
    ensures failures == [] <==> forall u :: u in derivedFrom ==> UpstreamFine(q, i, u)
  {
    failures := [];
    for k := 0 to |derivedFrom|
      invariant failures == [] <==> forall a :: 0 <= a < k ==> UpstreamFine(q, i, derivedFrom[a])
    {
      var upstream := derivedFrom[k];
      if upstream in statuses && !statuses[upstream].Ok? {
        failures := failures + [UpstreamNotOk(upstream)];
      }
    }
  }

  /** The input hash the check reports: none when there was none to derive. */
  function DerivedHash(q: Query, i: nat, r: Receipt): Option<Bytes32>
    requires i < |q.steps|
  {
    var confirmed := ConfirmedBefore(q, i);
    var input := Template.Resolve(q.steps[i].input, Template.Context(q.runInputs, confirmed));
    if r.inputHash == ZERO32 then None
    else if exists u | u in DerivedFrom(q.steps[i]) :: u !in confirmed then None
    else if input.Failure? then None
    else Some(q.hash(input.value))
  }

  method CheckInput(q: Query, i: nat, r: Receipt, derivedFrom: seq<Str>, confirmed: map<Str, Json>)
      returns (failures: seq<LinkFailure>, derived: Option<Bytes32>, matches: bool)
    requires i < |q.steps| && derivedFrom == DerivedFrom(q.steps[i])
    requires confirmed == ConfirmedBefore(q, i)
    ensures failures == [] <==> InputLinked(q, i, r)
    ensures failures == [] <==> matches
    ensures derived == DerivedHash(q, i, r)
  {
    failures, derived, matches := [], None, false;
    var context := Template.Context(q.runInputs, confirmed);
    if r.inputHash == ZERO32 {
      matches := true;
    } else if exists u | u in derivedFrom :: u !in confirmed {
      failures := [Unconfirmed];
    } else {
      var resolved := Template.Resolve(q.steps[i].input, context);
      if resolved.Failure? {
        failures := [Unresolved(resolved.error)];
      } else {
        derived := Some(q.hash(resolved.value));
        matches := derived.value == r.inputHash;
        if !matches {
          failures := [InputMismatch];
        }
      }
    }
  }

  /** One turn of the source's loop over the declared steps. */
  method CheckStep(q: Query, i: nat, confirmed: map<Str, Json>, statuses: map<Str, Status>)
      returns (result: StepLinkage, confirmed': map<Str, Json>, statuses': map<Str, Status>)
    requires i < |q.steps|
    requires confirmed == ConfirmedBefore(q, i) && statuses == StatusBefore(q, i)
    ensures confirmed' == ConfirmedBefore(q, i + 1) && statuses' == StatusBefore(q, i + 1)
    ensures result.ok <==> StepLinked(q, i)
    ensures result.ok <==> result.failures == []
    ensures result.stepIndex == i && result.stepId == q.steps[i].id
    ensures result.derivedFrom == DerivedFrom(q.steps[i])
    ensures var r, e := Receipted(q, i), Recorded(q, q.steps[i].id);
      if r.Some? && e.Some? then
        && (result.inputHashMatches <==> InputLinked(q, i, r.value))
        && (result.outputHashMatches <==> OutputLinked(q, r.value, e.value))
        && result.derivedInputHash == DerivedHash(q, i, r.value)
      else !result.inputHashMatches && !result.outputHashMatches && result.derivedInputHash.None?
  {
    var step := q.steps[i];
    confirmed', statuses' := confirmed, statuses;
    var derived: Option<Bytes32>, inputMatches, outputMatches := None, false, false;
    var derivedFrom, failures := CheckReads(q, i);
    var receipt, record := Receipted(q, i), Recorded(q, step.id);
    if receipt.None? {
      failures := failures + [NoReceipt];
    }
    if record.None? {
      failures := failures + [NoEvidence];
    }
    if receipt.Some? {
      statuses' := statuses'[step.id := receipt.value.status];
      if receipt.value.status.Ok? {
        var upstream := CheckUpstream(q, i, derivedFrom, statuses');
        failures := failures + upstream;
      }
    }
    if receipt.Some? && record.Some? {
      var r := receipt.value;
      if r.status.Ok? && !(r.outputHash != ZERO32 && r.inputHash != ZERO32) {
        failures := failures + [CommitsNothing];
      }
      outputMatches := r.outputHash == ZERO32 || q.hash(record.value.output) == r.outputHash;
      if !outputMatches {
        failures := failures + [OutputMismatch];
      }
      var more: seq<LinkFailure>;
      more, derived, inputMatches := CheckInput(q, i, r, derivedFrom, confirmed);
      failures := failures + more;
      if outputMatches && r.outputHash != ZERO32 {
        confirmed' := confirmed'[step.id := record.value.output];
      }
    }
    result := StepLinkage(i, step.id, derivedFrom, derived, inputMatches, outputMatches,
                          failures == [] && inputMatches && outputMatches, failures);
  }

  function CountOk(results: seq<StepLinkage>): nat {
    if results == [] then 0
    else CountOk(results[..|results| - 1]) + if results[|results| - 1].ok then 1 else 0
  }

  lemma {:induction false} CountAll(results: seq<StepLinkage>)
    ensures CountOk(results) <= |results|
    ensures CountOk(results) == |results| <==> forall i :: 0 <= i < |results| ==> results[i].ok
  {
    if results != [] {
      CountAll(results[..|results| - 1]);
    }
  }

  ghost function LinkedSteps(q: Query, n: nat): set<nat>
    requires n <= |q.steps|
  {
    set i: nat | i < n && StepLinked(q, i)
  }

  lemma {:induction false} CountLinked(q: Query, results: seq<StepLinkage>)
    requires |results| <= |q.steps| && forall i :: 0 <= i < |results| ==> (results[i].ok <==> StepLinked(q, i))
    ensures CountOk(results) == |LinkedSteps(q, |results|)|
  {
    if results == [] {
      assert LinkedSteps(q, 0) == {};
    } else {
      var n := |results| - 1;
      CountLinked(q, results[..n]);
      OneMoreLinked(q, n);
    }
  }

  lemma OneMoreLinked(q: Query, n: nat)
    requires n < |q.steps|
    ensures |LinkedSteps(q, n + 1)| == |LinkedSteps(q, n)| + if StepLinked(q, n) then 1 else 0
  {
    assert LinkedSteps(q, n + 1) == LinkedSteps(q, n) + if StepLinked(q, n) then {n} else {};
  }

  /** The check passes exactly the runs that are linked, reports a step ok
      exactly when that step is, and counts those. */
  method VerifyLinkage(q: Query) returns (report: LinkageReport)
    ensures report.ok <==> Linked(q)
    ensures |report.steps| == report.totalSteps == |q.steps|
    ensures forall i :: 0 <= i < |q.steps| ==> (report.steps[i].ok <==> StepLinked(q, i))
    ensures report.linkedSteps == |LinkedSteps(q, |q.steps|)|
    ensures report.linkedSteps == report.totalSteps <==> forall i :: 0 <= i < |q.steps| ==> StepLinked(q, i)
  {
    var failures: seq<LinkFailure>, results: seq<StepLinkage> := [], [];
    var confirmed: map<Str, Json> := map[];
    var statuses: map<Str, Status> := map[];
    for i := 0 to |q.steps|
      invariant |results| == i
      invariant confirmed == ConfirmedBefore(q, i) && statuses == StatusBefore(q, i)
      invariant forall k :: 0 <= k < i ==> (results[k].ok <==> StepLinked(q, k))
      invariant failures == [] <==> forall k :: 0 <= k < i ==> results[k].ok
    {
      var result;
      result, confirmed, statuses := CheckStep(q, i, confirmed, statuses);
      results := results + [result];
      failures := failures + result.failures;
    }
    for k := 0 to |q.receipts|
      invariant failures == [] <==>
        && (forall i :: 0 <= i < |q.steps| ==> results[i].ok)
        && (forall a :: 0 <= a < k ==> q.receipts[a].stepIndex < |q.steps|)
    {
      if q.receipts[k].stepIndex >= |q.steps| {
        failures := failures + [StrayReceipt(q.receipts[k].stepIndex)];
      }
    }
    CountAll(results);
    CountLinked(q, results);
    report := LinkageReport(failures == [], |q.steps|, CountOk(results), results, failures);
  }

  /** Two queries in which every look-up gives the same. */
  ghost predicate SameLookups(q1: Query, q2: Query) {
    && q1.hash == q2.hash && q1.steps == q2.steps && q1.runInputs == q2.runInputs
    && ReceiptByIndex(q1.receipts) == ReceiptByIndex(q2.receipts)
    && forall i :: 0 <= i < |q1.steps| ==> Recorded(q1, q1.steps[i].id) == Recorded(q2, q1.steps[i].id)
  }

  lemma {:induction false} SameBefore(q1: Query, q2: Query, i: nat)
    requires SameLookups(q1, q2) && i <= |q1.steps|
    ensures ConfirmedBefore(q1, i) == ConfirmedBefore(q2, i)
    ensures StatusBefore(q1, i) == StatusBefore(q2, i)
  {
    if i > 0 {
      SameBefore(q1, q2, i - 1);
      assert Confirms(q1, i - 1) <==> Confirms(q2, i - 1);
    }
  }

  lemma {:induction false} ReceiptKeys(receipts: seq<Receipt>)
    ensures forall i :: i in ReceiptByIndex(receipts) <==> exists r :: r in receipts && r.stepIndex == i
  {
    if receipts != [] {
      var front, last := receipts[..|receipts| - 1], receipts[|receipts| - 1];
      assert receipts == front + [last];
      ReceiptKeys(front);
    }
  }

  ghost predicate IndicesBelow(m: map<nat, Receipt>, n: nat) {
    forall i :: i in m ==> i < n
  }

  lemma StrayKeys(q: Query)
    ensures NoStrays(q) <==> IndicesBelow(ReceiptByIndex(q.receipts), |q.steps|)
  {
    var m := ReceiptByIndex(q.receipts);
    ReceiptKeys(q.receipts);
    if NoStrays(q) {
      forall i | i in m ensures i < |q.steps| {
        var r :| r in q.receipts && r.stepIndex == i;
      }
    } else {
      var k :| 0 <= k < |q.receipts| && q.receipts[k].stepIndex >= |q.steps|;
      assert q.receipts[k] in q.receipts;
      assert q.receipts[k].stepIndex in m;
    }
  }

  /** Nothing but what the look-ups find matters to the check. */
  lemma SameLookupsLink(q1: Query, q2: Query)
    requires SameLookups(q1, q2)
    ensures Linked(q1) <==> Linked(q2)
  {
    StrayKeys(q1);
    StrayKeys(q2);
    forall i | 0 <= i < |q2.steps| ensures StepLinked(q1, i) <==> StepLinked(q2, i) {
      SameBefore(q1, q2, i);
      SameBefore(q1, q2, i + 1);
      SameStep(q1, q2, i);
    }
  }

  lemma SameStep(q1: Query, q2: Query, i: nat)
    requires SameLookups(q1, q2) && i < |q1.steps|
    requires ConfirmedBefore(q1, i) == ConfirmedBefore(q2, i) && StatusBefore(q1, i + 1) == StatusBefore(q2, i + 1)
    ensures StepLinked(q1, i) <==> StepLinked(q2, i)
  {
    SameReads(q1, q2, i);
    var r, e := Receipted(q1, i), Recorded(q1, q1.steps[i].id);
    assert Receipted(q2, i) == r && Recorded(q2, q2.steps[i].id) == e;
    if r.Some? {
      SameStatus(q1, q2, i, r.value);
      SameInput(q1, q2, i, r.value);
    }
  }

  lemma SameReads(q1: Query, q2: Query, i: nat)
    requires q1.steps == q2.steps && i < |q1.steps|
    ensures ReadsLinked(q1, i) <==> ReadsLinked(q2, i)
  {
    assert forall u :: ReadDeclared(q1, i, u) <==> ReadDeclared(q2, i, u);
  }

  lemma SameStatus(q1: Query, q2: Query, i: nat, r: Receipt)
    requires q1.steps == q2.steps && i < |q1.steps| && StatusBefore(q1, i + 1) == StatusBefore(q2, i + 1)
    ensures StatusLinked(q1, i, r) <==> StatusLinked(q2, i, r)
  {
    assert forall u :: UpstreamFine(q1, i, u) <==> UpstreamFine(q2, i, u);
  }

  lemma SameInput(q1: Query, q2: Query, i: nat, r: Receipt)
    requires q1.steps == q2.steps && q1.hash == q2.hash && q1.runInputs == q2.runInputs && i < |q1.steps|
    requires ConfirmedBefore(q1, i) == ConfirmedBefore(q2, i)
    ensures InputLinked(q1, i, r) <==> InputLinked(q2, i, r)
  {
  }

  /** No two different receipts for one index, nor two records of one step. */
  ghost predicate Unambiguous(q: Query) {
    && (forall r, s :: r in q.receipts && s in q.receipts && r.stepIndex == s.stepIndex ==> r == s)
    && (forall e, f :: e in q.evidence && f in q.evidence && e.stepId == f.stepId ==> e == f)
  }

  lemma {:induction false} ReceiptFound(receipts: seq<Receipt>, i: nat)
    requires i in ReceiptByIndex(receipts)
    ensures ReceiptByIndex(receipts)[i] in receipts && ReceiptByIndex(receipts)[i].stepIndex == i
  {
    if receipts[|receipts| - 1].stepIndex != i { ReceiptFound(receipts[..|receipts| - 1], i); }
  }

  lemma {:induction false} EvidenceFound(evidence: seq<StepEvidence>, id: Str)
    ensures id in EvidenceById(evidence) <==> exists e :: e in evidence && e.stepId == id
    ensures id in EvidenceById(evidence) ==>
      EvidenceById(evidence)[id] in evidence && EvidenceById(evidence)[id].stepId == id
  {
    if evidence != [] {
      var front, last := evidence[..|evidence| - 1], evidence[|evidence| - 1];
      assert evidence == front + [last];
      EvidenceFound(front, id);
    }
  }

  /** So, short of two different receipts for one index or two different records
      of one step, the order and repetition of receipts and evidence do not
      matter: two queries that hold the same ones link alike. */
  lemma OrderDoesNotMatter(q1: Query, q2: Query)
    requires q1.hash == q2.hash && q1.steps == q2.steps && q1.runInputs == q2.runInputs && Unambiguous(q1)
    requires forall r :: r in q1.receipts <==> r in q2.receipts
    requires forall e :: e in q1.evidence <==> e in q2.evidence
    ensures Linked(q1) <==> Linked(q2)
  {
    ReceiptKeys(q1.receipts);
    ReceiptKeys(q2.receipts);
    forall i | i in ReceiptByIndex(q1.receipts)
      ensures i in ReceiptByIndex(q2.receipts) && ReceiptByIndex(q1.receipts)[i] == ReceiptByIndex(q2.receipts)[i]
    {
      var r :| r in q1.receipts && r.stepIndex == i;
      ReceiptFound(q1.receipts, i);
      ReceiptFound(q2.receipts, i);
    }
    forall i | i in ReceiptByIndex(q2.receipts) ensures i in ReceiptByIndex(q1.receipts) {
      var r :| r in q2.receipts && r.stepIndex == i;
    }
    forall i | 0 <= i < |q1.steps| ensures Recorded(q1, q1.steps[i].id) == Recorded(q2, q1.steps[i].id) {
      EvidenceFound(q1.evidence, q1.steps[i].id);
      EvidenceFound(q2.evidence, q1.steps[i].id);
    }
    SameLookupsLink(q1, q2);
  }

  // ----- What linkage proves ----------------------------------------------

  lemma StatusOfLast(q: Query, i: nat, j: nat, id: Str)
    requires j < i <= |q.steps| && q.steps[j].id == id && Receipted(q, j).Some?
    requires forall k :: j < k < i ==> q.steps[k].id != id
    ensures id in StatusBefore(q, i) && StatusBefore(q, i)[id] == Receipted(q, j).value.status
    decreases i
  {
    if j + 1 < i { StatusOfLast(q, i - 1, j, id); }
  }

  ghost predicate OkAt(q: Query, i: nat) {
    Receipted(q, i).Some? && Receipted(q, i).value.status.Ok?
  }

  /** The statuses seen are those of a map that agrees with every receipt. */
  lemma {:induction false} StatusesFrom(q: Query, i: nat, m: map<Str, Status>)
    requires i <= |q.steps|
    requires forall j :: 0 <= j < i && Receipted(q, j).Some? ==>
      q.steps[j].id in m && m[q.steps[j].id] == Receipted(q, j).value.status
    ensures forall u :: u in StatusBefore(q, i) ==> u in m && StatusBefore(q, i)[u] == m[u]
  {
    if i > 0 { StatusesFrom(q, i - 1, m); }
  }

  /** `outputs` holds, for each id read, the committed output of a step before i
      that succeeded. */
  ghost predicate FromEarlierOk(q: Query, i: nat, outputs: map<Str, Json>)
    requires i <= |q.steps|
  {
    forall u :: u in outputs ==> EarlierOk(q, i, u, outputs[u])
  }

  ghost predicate EarlierOk(q: Query, i: nat, id: Str, output: Json)
    requires i <= |q.steps|
  {
    exists j :: 0 <= j < i && q.steps[j].id == id && OkAt(q, j) &&
      q.hash(output) == Receipted(q, j).value.outputHash
  }

  /** The outputs a step reads, and nothing else. */
  function ReadOutputs(q: Query, i: nat): map<Str, Json>
    requires i < |q.steps|
  {
    var confirmed := ConfirmedBefore(q, i);
    map u | u in DerivedFrom(q.steps[i]) && u in confirmed :: confirmed[u]
  }

  lemma ReadIsEarlierOk(q: Query, i: nat, u: Str)
    requires i < |q.steps| && Linked(q) && OkAt(q, i)
    requires u in DerivedFrom(q.steps[i])
    ensures u in ConfirmedBefore(q, i) && EarlierOk(q, i, u, ConfirmedBefore(q, i)[u])
  {
    var j := UpstreamIsOk(q, i, u);
    OkConfirms(q, j);
  }

  lemma UpstreamIsOk(q: Query, i: nat, u: Str) returns (j: nat)
    requires i < |q.steps| && Linked(q) && OkAt(q, i)
    requires u in DerivedFrom(q.steps[i])
    ensures j < i && q.steps[j].id == u && OkAt(q, j)
  {
    ReadIsChecked(q, i, u);
    j := IndexById(q.steps)[u];
    HasReceipt(q, j);
    FineIsOk(q, i, u, j);
  }

  lemma FineIsOk(q: Query, i: nat, u: Str, j: nat)
    requires i < |q.steps| && UpstreamFine(q, i, u)
    requires u in IndexById(q.steps) && IndexById(q.steps)[u] == j && Receipted(q, j).Some?
    requires j < i
    ensures OkAt(q, j)
  {
    StatusOfLast(q, i + 1, j, u);
  }

  lemma ReadIsChecked(q: Query, i: nat, u: Str)
    requires i < |q.steps| && StepLinked(q, i) && OkAt(q, i)
    requires u in DerivedFrom(q.steps[i])
    ensures ReadDeclared(q, i, u) && UpstreamFine(q, i, u)
  {
  }

  lemma HasReceipt(q: Query, j: nat)
    requires j < |q.steps| && Linked(q)
    ensures Receipted(q, j).Some?
  {
    assert StepLinked(q, j);
  }

  lemma OkConfirms(q: Query, j: nat)
    requires j < |q.steps| && Linked(q) && OkAt(q, j)
    ensures Confirms(q, j)
    ensures q.hash(Recorded(q, q.steps[j].id).value.output) == Receipted(q, j).value.outputHash
  {
    assert StepLinked(q, j);
  }

  /** Every ok step's committed input is its template resolved over nothing but
      the run's inputs and the committed outputs of earlier ok steps. */
  lemma LinkedIsDerived(q: Query, i: nat)
    requires i < |q.steps| && Linked(q) && OkAt(q, i)
    ensures FromEarlierOk(q, i, ReadOutputs(q, i))
    ensures ReadOutputs(q, i).Keys == set u | u in DerivedFrom(q.steps[i])
    ensures var input := Template.Resolve(q.steps[i].input, Template.Context(q.runInputs, ReadOutputs(q, i)));
      input.Success? && q.hash(input.value) == Receipted(q, i).value.inputHash
  {
    assert StepLinked(q, i);
    var read := ReadOutputs(q, i);
    forall u | u in DerivedFrom(q.steps[i])
      ensures u in read && EarlierOk(q, i, u, read[u])
    {
      ReadIsEarlierOk(q, i, u);
    }
    var all := Template.Context(q.runInputs, ConfirmedBefore(q, i));
    Template.TemplateFrame(q.steps[i].input, Template.Context(q.runInputs, read), all);
  }

  // ----- What is linked is uniquely determined ----------------------------

  /** Two different values with one hash. */
  ghost predicate Collide(hash: Json -> Bytes32, a: Json, b: Json) {
    a != b && hash(a) == hash(b)
  }

  /** The two queries check different evidence against the same receipts. */
  ghost predicate SameClaims(q1: Query, q2: Query) {
    && q1.hash == q2.hash && q1.steps == q2.steps
    && q1.runInputs == q2.runInputs && q1.receipts == q2.receipts
  }

  function InputOf(q: Query, i: nat): Template.Resolved
    requires i < |q.steps|
  {
    Template.Resolve(q.steps[i].input, Template.Context(q.runInputs, ConfirmedBefore(q, i)))
  }

  /** Two accepted evidence sets agree on every committed output, or exhibit a
      collision in that very output. */
  lemma OutputsUnique(q1: Query, q2: Query, i: nat)
    requires SameClaims(q1, q2) && Linked(q1) && Linked(q2) && i < |q1.steps|
    requires Receipted(q1, i).Some? && Receipted(q1, i).value.outputHash != ZERO32
    ensures var e1, e2 := Recorded(q1, q1.steps[i].id), Recorded(q2, q2.steps[i].id);
      && e1.Some? && e2.Some?
      && (e1.value.output == e2.value.output || Collide(q1.hash, e1.value.output, e2.value.output))
  {
    assert StepLinked(q1, i) && StepLinked(q2, i);
  }

  lemma ConfirmedUnique(q1: Query, q2: Query, i: nat, u: Str)
    requires SameClaims(q1, q2) && Linked(q1) && Linked(q2) && i <= |q1.steps|
    requires u in ConfirmedBefore(q1, i)
    ensures u in ConfirmedBefore(q2, i)
    ensures q1.hash(ConfirmedBefore(q1, i)[u]) == q1.hash(ConfirmedBefore(q2, i)[u])
  {
    var j :| 0 <= j < i && q1.steps[j].id == u && Confirms(q1, j);
    assert StepLinked(q1, j) && StepLinked(q2, j);
    assert Confirms(q2, j);
  }

  ghost predicate ReadsCollide(q1: Query, q2: Query, i: nat, u: Str)
    requires i <= |q1.steps| && i <= |q2.steps|
  {
    && u in ConfirmedBefore(q1, i) && u in ConfirmedBefore(q2, i)
    && Collide(q1.hash, ConfirmedBefore(q1, i)[u], ConfirmedBefore(q2, i)[u])
  }

  /** … and on every derived input, unless outputs it reads collide. */
  lemma InputsUnique(q1: Query, q2: Query, i: nat)
    requires SameClaims(q1, q2) && Linked(q1) && Linked(q2) && i < |q1.steps|
    requires Receipted(q1, i).Some? && Receipted(q1, i).value.inputHash != ZERO32
    ensures InputOf(q1, i).Success? && InputOf(q2, i).Success?
    ensures InputOf(q1, i) == InputOf(q2, i) ||
            exists u :: u in DerivedFrom(q1.steps[i]) && ReadsCollide(q1, q2, i, u)
  {
    assert StepLinked(q1, i) && StepLinked(q2, i);
    var c1, c2 := ConfirmedBefore(q1, i), ConfirmedBefore(q2, i);
    var ids := DerivedFrom(q1.steps[i]);
    if forall u :: u in ids ==> c1[u] == c2[u] {
      Template.TemplateFrame(q1.steps[i].input, Template.Context(q1.runInputs, c1),
                             Template.Context(q1.runInputs, c2));
    } else {
      var u :| u in ids && c1[u] != c2[u];
      ConfirmedUnique(q1, q2, i, u);
    }
  }
}
