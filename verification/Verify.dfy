/** The verification procedure: a verdict on a run from what is public. */
module Verify {
  import opened Json
  import opened Results
  import opened Receipts
  import opened Executor
  import opened Sorting
  import ChainRoot
  import Hex
  import HireTree
  import Linkage
  import Template

  const DEFAULT_HIRE_DEPTH: int := 3

  // ----- What a stranger can read -----------------------------------------

  datatype Seal = Seal(chainRoot: Bytes32, stepCount: nat, outcome: nat)

  /** A stored trace: None when its bytes are not a trace. */
  datatype Fetched = Fetched(trace: Option<Trace>, proven: bool)

  /** The chain, the storage network, and the registries' answers. */
  datatype View = View(
    hash: Json -> Bytes32,
    keccak: Bytes -> Bytes32,
    stepLogs: Bytes32 -> seq<Receipt>,
    sealLogs: Bytes32 -> seq<Seal>,
    fetch: Bytes32 -> Option<Fetched>,
    identified: Receipt -> bool,
    attestationHolds: (Receipt, Trace) -> bool,
    signatureHolds: (Receipt, Trace) -> bool)

  datatype SpecStep = SpecStep(step: Linkage.LinkedStep, flow: Option<seq<SpecStep>>)
  datatype Spec = Spec(steps: seq<SpecStep>, inputs: Json)

  datatype Verdict = Verified | Failed | Incomplete

  datatype ClaimKind = SubFlow | Disclosed
  datatype Claim = Claim(stepIndex: nat, runId: Bytes32, chainRoot: Option<Bytes32>, kind: ClaimKind)

  datatype HiredCheck = HiredCheck(claim: Claim, report: Option<Report>)

  datatype Report = Report(
    runId: Bytes32,
    verdict: Verdict,
    stepCount: nat,
    computedRoot: Option<Bytes32>,
    sealedRoot: Option<Bytes32>,
    runSucceeded: bool,
    hired: seq<HiredCheck>,
    failures: nat,
    incomplete: nat)

  function Anchored(view: View, runId: Bytes32): seq<Receipt> {
    Sort(view.stepLogs(runId), ChainRoot.ByIndex)
  }

  function SealOf(view: View, runId: Bytes32): Option<Seal> {
    var logs := view.sealLogs(runId);
    if logs == [] then None else Some(logs[|logs| - 1])
  }

  /** The root a report gives as sealed: none for a run with no receipts. */
  function SealedRoot(view: View, runId: Bytes32): Option<Bytes32> {
    if view.stepLogs(runId) == [] || SealOf(view, runId).None? then None
    else Some(SealOf(view, runId).value.chainRoot)
  }

  // ----- One step's evidence ----------------------------------------------

  function TraceOf(view: View, r: Receipt): Option<Trace> {
    var f := view.fetch(r.traceRoot);
    if f.Some? then f.value.trace else None
  }

  /** The commitments of a receipt hold of its trace. */
  predicate CommitmentsHold(view: View, r: Receipt, t: Trace) {
    && (r.status.Ok? ==> r.inputHash != ZERO32 && r.outputHash != ZERO32)
    && (r.inputHash != ZERO32 ==> view.hash(t.input) == r.inputHash)
    && (r.outputHash != ZERO32 ==> view.hash(t.output) == r.outputHash)
  }

  predicate TraceHolds(view: View, r: Receipt, t: Trace) {
    CommitmentsHold(view, r, t) && (r.attestationRef != ZERO32 ==> view.attestationHolds(r, t))
  }

  /** Some check of this step ran and did not pass. */
  predicate StepFails(view: View, r: Receipt) {
    || !view.identified(r)
    || (view.fetch(r.traceRoot).Some? && TraceOf(view, r).None?)
    || (TraceOf(view, r).Some? && !TraceHolds(view, r, TraceOf(view, r).value))
  }

  /** Some check of this step could not run. */
  predicate StepGaps(view: View, r: Receipt) {
    || view.fetch(r.traceRoot).None?
    || !view.fetch(r.traceRoot).value.proven
    || (TraceOf(view, r).Some? && TraceOf(view, r).value.signature.Some?
          && !view.signatureHolds(r, TraceOf(view, r).value))
  }

  // ----- Claims of hired runs ---------------------------------------------

  function Lookup(value: Json, key: Str): Option<Json> {
    if value.Object? then
      var i := Template.FieldIndex(value.fields, key);
      if i < |value.fields| then Some(value.fields[i].value) else None
    else None
  }

  function LookupId(value: Json, key: Str): Option<Bytes32> {
    var v := Lookup(value, key);
    if v.Some? && v.value.String? then Hex.ParseId(v.value.s) else None
  }

  predicate LookupIsNumber(value: Json, key: Str) {
    Lookup(value, key).Some? && Lookup(value, key).value.Number?
  }

  /** The child run and root an output claims, when it is shaped as one. */
  function ReadHiredClaim(output: Json): Option<(Bytes32, Bytes32)> {
    var runId, chainRoot := LookupId(output, HireTree.CHILD_RUN_ID), LookupId(output, HireTree.CHAIN_ROOT);
    if runId.Some? && chainRoot.Some? && LookupIsNumber(output, HireTree.STEP_COUNT)
       && LookupIsNumber(output, HireTree.OUTCOME)
    then Some((runId.value, chainRoot.value)) else None
  }

  predicate Claimed(claims: seq<Claim>, runId: Bytes32) {
    exists k | 0 <= k < |claims| :: claims[k].runId == runId
  }

  function AddDisclosed(claims: seq<Claim>, stepIndex: nat, hiredRuns: seq<Str>): seq<Claim> {
    if hiredRuns == [] then claims
    else
      var before := AddDisclosed(claims, stepIndex, hiredRuns[..|hiredRuns| - 1]);
      var runId := Hex.ParseId(hiredRuns[|hiredRuns| - 1]);
      if runId.None? || Claimed(before, runId.value) then before
      else before + [Claim(stepIndex, runId.value, None, Disclosed)]
  }

  function AddSubFlow(claims: seq<Claim>, stepIndex: nat, output: Json): seq<Claim> {
    var claim := ReadHiredClaim(output);
    if claim.Some? then claims + [Claim(stepIndex, claim.value.0, Some(claim.value.1), SubFlow)] else claims
  }

  function AddClaims(view: View, claims: seq<Claim>, r: Receipt): seq<Claim> {
    match TraceOf(view, r)
    case None => claims
    case Some(t) => AddDisclosed(AddSubFlow(claims, r.stepIndex, t.output), r.stepIndex, t.hiredRuns)
  }

  function ClaimsOf(view: View, receipts: seq<Receipt>): seq<Claim> {
    if receipts == [] then []
    else AddClaims(view, ClaimsOf(view, receipts[..|receipts| - 1]), receipts[|receipts| - 1])
  }

  // ----- Linkage ----------------------------------------------------------

  /** The first receipt with this index that has a trace. */
  function WithTrace(view: View, receipts: seq<Receipt>, i: nat): Option<Receipt> {
    if receipts == [] then None
    else if receipts[0].stepIndex == i && TraceOf(view, receipts[0]).Some? then Some(receipts[0])
    else WithTrace(view, receipts[1..], i)
  }

  ghost predicate AllTraced(view: View, receipts: seq<Receipt>) {
    forall k :: 0 <= k < |receipts| ==> TraceOf(view, receipts[k]).Some?
  }

  /** Every declared step has evidence to link. The source throws otherwise. */
  predicate Linkable(view: View, spec: Spec, receipts: seq<Receipt>) {
    forall i | 0 <= i < |spec.steps| :: WithTrace(view, receipts, i).Some?
  }

  function EvidenceFor(view: View, spec: Spec, receipts: seq<Receipt>, i: nat): Linkage.StepEvidence
    requires i < |spec.steps| && WithTrace(view, receipts, i).Some?
  {
    var t := TraceOf(view, WithTrace(view, receipts, i).value);
    if t.Some? then Linkage.StepEvidence(spec.steps[i].step.id, t.value.input, t.value.output)
    else Linkage.StepEvidence(spec.steps[i].step.id, Null, Null)
  }

  function QueryFor(view: View, spec: Spec, receipts: seq<Receipt>): Linkage.Query
    requires Linkable(view, spec, receipts)
  {
    Linkage.Query(
      view.hash,
      seq(|spec.steps|, i requires 0 <= i < |spec.steps| => spec.steps[i].step),
      spec.inputs,
      seq(|spec.steps|, i requires 0 <= i < |spec.steps| => EvidenceFor(view, spec, receipts, i)),
      receipts)
  }

  /** The child's spec, when the parent's declares one at that step. */
  function ChildSpecFor(view: View, spec: Option<Spec>, receipts: seq<Receipt>, claim: Claim): Option<Spec> {
    if claim.kind.Disclosed? || spec.None? || claim.stepIndex >= |spec.value.steps| then None
    else if spec.value.steps[claim.stepIndex].flow.None? then None
    else
      var r := WithTrace(view, receipts, claim.stepIndex);
      if r.None? then None
      else
        var t := TraceOf(view, r.value);
        if t.None? then None else Some(Spec(spec.value.steps[claim.stepIndex].flow.value, t.value.input))
  }

  // ----- What the verdict should be ---------------------------------------

  ghost predicate SealAgrees(view: View, runId: Bytes32, seal: Seal) {
    var rs := Anchored(view, runId);
    && ChainRoot.RunRoot(view.keccak, rs) == Some(seal.chainRoot)
    && seal.stepCount == |rs|
  }

  /** A check of the run itself, apart from its hires, did not pass. */
  ghost predicate RunFails(view: View, runId: Bytes32, spec: Option<Spec>) {
    var rs := Anchored(view, runId);
    || (exists k :: 0 <= k < |rs| && (rs[k].flowId != rs[0].flowId || StepFails(view, rs[k])))
    || ChainRoot.RunRoot(view.keccak, rs).None?
    || (SealOf(view, runId).Some? && !SealAgrees(view, runId, SealOf(view, runId).value))
    || (spec.Some? && AllTraced(view, rs) && Linkable(view, spec.value, rs)
          && !Linkage.Linked(QueryFor(view, spec.value, rs)))
  }

  /** A check of the run itself could not run. */
  ghost predicate RunGaps(view: View, runId: Bytes32, spec: Option<Spec>) {
    var rs := Anchored(view, runId);
    || SealOf(view, runId).None?
    || spec.None?
    || (exists k :: 0 <= k < |rs| && StepGaps(view, rs[k]))
    || !AllTraced(view, rs)
  }

  ghost predicate RunThrows(view: View, runId: Bytes32, spec: Option<Spec>) {
    var rs := Anchored(view, runId);
    rs != [] && spec.Some? && AllTraced(view, rs) && !Linkable(view, spec.value, rs)
  }

  /** None when the procedure throws. */
  ghost function VerdictOf(view: View, runId: Bytes32, spec: Option<Spec>, depth: int): Option<Verdict>
    decreases if depth > 0 then depth else 0, 3
  {
    if Anchored(view, runId) == [] then Some(Verdict.Failed)
    else if RunThrows(view, runId, spec) then None
    else if RunFails(view, runId, spec) || AnyClaimFails(view, runId, spec, depth) then Some(Verdict.Failed)
    else if RunGaps(view, runId, spec) || AnyClaimGaps(view, runId, spec, depth) then Some(Incomplete)
    else Some(Verified)
  }

  ghost predicate AnyClaimFails(view: View, runId: Bytes32, spec: Option<Spec>, depth: int)
    decreases if depth > 0 then depth else 0, 2
  {
    exists c :: c in ClaimsOf(view, Anchored(view, runId)) && ClaimFails(view, runId, spec, depth, c)
  }

  ghost predicate AnyClaimGaps(view: View, runId: Bytes32, spec: Option<Spec>, depth: int)
    decreases if depth > 0 then depth else 0, 2
  {
    exists c :: c in ClaimsOf(view, Anchored(view, runId)) && ClaimGaps(view, runId, spec, depth, c)
  }

  /** The verdict on the run a claim names; None when it is not reached, or
      verifying it throws. */
  ghost function ChildVerdict(view: View, runId: Bytes32, spec: Option<Spec>, depth: int, c: Claim): Option<Verdict>
    decreases if depth > 0 then depth else 0, 0
  {
    if depth <= 0 then None
    else VerdictOf(view, c.runId, ChildSpecFor(view, spec, Anchored(view, runId), c), depth - 1)
  }

  predicate RootsDiffer(view: View, c: Claim) {
    c.chainRoot.Some? && SealedRoot(view, c.runId).Some? && c.chainRoot != SealedRoot(view, c.runId)
  }

  /** The claim is checked and found wrong. */
  ghost predicate ClaimFails(view: View, runId: Bytes32, spec: Option<Spec>, depth: int, c: Claim)
    decreases if depth > 0 then depth else 0, 1
  {
    var v := ChildVerdict(view, runId, spec, depth, c);
    v.Some? && (RootsDiffer(view, c) || (v.value.Failed? && c.kind.SubFlow?))
  }

  /** The claim cannot be fully checked. */
  ghost predicate ClaimGaps(view: View, runId: Bytes32, spec: Option<Spec>, depth: int, c: Claim)
    decreases if depth > 0 then depth else 0, 1
  {
    var v := ChildVerdict(view, runId, spec, depth, c);
    || v.None?
    || SealedRoot(view, c.runId).None?
    || (v.value.Failed? && c.kind.Disclosed?)
    || v.value.Incomplete?
  }

  // ----- Verified means verified all the way down -------------------------

  /** Everything that holds of a run that is verified, hires and all. */
  ghost predicate SoundAllTheWay(view: View, runId: Bytes32, spec: Option<Spec>, depth: int)
    decreases if depth > 0 then depth else 0
  {
    var rs := Anchored(view, runId);
    && rs != []
    // sealed with the root and the count of exactly these receipts
    && SealOf(view, runId).Some? && SealAgrees(view, runId, SealOf(view, runId).value)
    // every trace retrieved with proof, and everything committed to holds
    && (forall k :: 0 <= k < |rs| ==> rs[k].flowId == rs[0].flowId && view.identified(rs[k]) && StepSound(view, rs[k]))
    // linked
    && spec.Some? && Linkable(view, spec.value, rs) && Linkage.Linked(QueryFor(view, spec.value, rs))
    // every hired run is a sub-flow, sealed with the root claimed, and sound
    && (forall c :: c in ClaimsOf(view, rs) ==>
          && depth > 0 && c.kind.SubFlow? && c.chainRoot == SealedRoot(view, c.runId)
          && SealedRoot(view, c.runId).Some?
          && SoundAllTheWay(view, c.runId, ChildSpecFor(view, spec, rs, c), depth - 1))
  }

  ghost predicate StepSound(view: View, r: Receipt) {
    && view.fetch(r.traceRoot).Some? && view.fetch(r.traceRoot).value.proven
    && TraceOf(view, r).Some? && TraceHolds(view, r, TraceOf(view, r).value)
    && (TraceOf(view, r).value.signature.Some? ==> view.signatureHolds(r, TraceOf(view, r).value))
  }

  lemma StepSoundIff(view: View, r: Receipt)
    ensures !StepFails(view, r) && !StepGaps(view, r) <==> view.identified(r) && StepSound(view, r)
  {
  }

  lemma {:induction false} AddDisclosedKinds(claims: seq<Claim>, stepIndex: nat, hiredRuns: seq<Str>)
    requires forall c :: c in claims ==> (c.kind.SubFlow? <==> c.chainRoot.Some?)
    ensures forall c :: c in AddDisclosed(claims, stepIndex, hiredRuns) ==>
      (c.kind.SubFlow? <==> c.chainRoot.Some?)
  {
    if hiredRuns != [] {
      AddDisclosedKinds(claims, stepIndex, hiredRuns[..|hiredRuns| - 1]);
    }
  }

  lemma {:induction false} ClaimKinds(view: View, receipts: seq<Receipt>)
    ensures forall c :: c in ClaimsOf(view, receipts) ==> (c.kind.SubFlow? <==> c.chainRoot.Some?)
  {
    if receipts != [] {
      ClaimKinds(view, receipts[..|receipts| - 1]);
      var r := receipts[|receipts| - 1];
      if TraceOf(view, r).Some? {
        var t := TraceOf(view, r).value;
        var claims := ClaimsOf(view, receipts[..|receipts| - 1]);
        AddDisclosedKinds(AddSubFlow(claims, r.stepIndex, t.output), r.stepIndex, t.hiredRuns);
      }
    }
  }

  lemma RunSoundIff(view: View, runId: Bytes32, spec: Option<Spec>)
    requires Anchored(view, runId) != []
    ensures var rs := Anchored(view, runId);
      !RunThrows(view, runId, spec) && !RunFails(view, runId, spec) && !RunGaps(view, runId, spec) <==>
      && SealOf(view, runId).Some? && SealAgrees(view, runId, SealOf(view, runId).value)
      && (forall k :: 0 <= k < |rs| ==>
          rs[k].flowId == rs[0].flowId && view.identified(rs[k]) && StepSound(view, rs[k]))
      && spec.Some? && Linkable(view, spec.value, rs) && Linkage.Linked(QueryFor(view, spec.value, rs))
  {
    var rs := Anchored(view, runId);
    forall k | 0 <= k < |rs|
      ensures !StepFails(view, rs[k]) && !StepGaps(view, rs[k]) <==> view.identified(rs[k]) && StepSound(view, rs[k])
    {
      StepSoundIff(view, rs[k]);
    }
  }

  /** Verified is never rounded up: the verdict is `verified` exactly when the
      run and every run it hired, at every depth, is sound. In particular a
      verified run discloses no hire outside its sub-flows. */
  lemma {:induction false} VerifiedAllTheWayDown(view: View, runId: Bytes32, spec: Option<Spec>, depth: int)
    ensures VerdictOf(view, runId, spec, depth) == Some(Verified) <==> SoundAllTheWay(view, runId, spec, depth)
    decreases if depth > 0 then depth else 0
  {
    var rs := Anchored(view, runId);
    if rs != [] {
      RunSoundIff(view, runId, spec);
      ClaimKinds(view, rs);
      forall c | c in ClaimsOf(view, rs)
        ensures !ClaimFails(view, runId, spec, depth, c) && !ClaimGaps(view, runId, spec, depth, c) <==>
          && depth > 0 && c.kind.SubFlow? && c.chainRoot == SealedRoot(view, c.runId)
          && SealedRoot(view, c.runId).Some?
          && SoundAllTheWay(view, c.runId, ChildSpecFor(view, spec, rs, c), depth - 1)
      {
        ClaimSoundIff(view, runId, spec, depth, c);
      }
    }
  }

  lemma {:induction false} ClaimSoundIff(view: View, runId: Bytes32, spec: Option<Spec>, depth: int, c: Claim)
    requires c.kind.SubFlow? <==> c.chainRoot.Some?
    ensures !ClaimFails(view, runId, spec, depth, c) && !ClaimGaps(view, runId, spec, depth, c) <==>
      && depth > 0 && c.kind.SubFlow? && c.chainRoot == SealedRoot(view, c.runId)
      && SealedRoot(view, c.runId).Some?
      && SoundAllTheWay(view, c.runId, ChildSpecFor(view, spec, Anchored(view, runId), c), depth - 1)
    decreases if depth > 0 then depth else 0, 0
  {
    ClaimByVerdict(view, runId, spec, depth, c);
    if depth > 0 {
      var childSpec := ChildSpecFor(view, spec, Anchored(view, runId), c);
      VerifiedAllTheWayDown(view, c.runId, childSpec, depth - 1);
      if SoundAllTheWay(view, c.runId, childSpec, depth - 1) {
        SoundNeedsSpec(view, c.runId, childSpec, depth - 1);
      }
      DisclosedHasNoSpec(view, spec, Anchored(view, runId), c);
    }
  }

  lemma ClaimByVerdict(view: View, runId: Bytes32, spec: Option<Spec>, depth: int, c: Claim)
    ensures !ClaimFails(view, runId, spec, depth, c) && !ClaimGaps(view, runId, spec, depth, c) <==>
      && ChildVerdict(view, runId, spec, depth, c) == Some(Verified)
      && SealedRoot(view, c.runId).Some? && !RootsDiffer(view, c)
  {
  }

  lemma SoundNeedsSpec(view: View, runId: Bytes32, spec: Option<Spec>, depth: int)
    requires SoundAllTheWay(view, runId, spec, depth)
    ensures spec.Some?
  {
  }

  lemma DisclosedHasNoSpec(view: View, spec: Option<Spec>, receipts: seq<Receipt>, c: Claim)
    ensures c.kind.Disclosed? ==> ChildSpecFor(view, spec, receipts, c).None?
  {
  }

  /** A run the claims name, whatever else is claimed. */
  lemma {:induction false} DisclosedIsClaimed(claims: seq<Claim>, stepIndex: nat, hiredRuns: seq<Str>)
    ensures claims <= AddDisclosed(claims, stepIndex, hiredRuns)
    ensures forall h :: h in hiredRuns && Hex.ParseId(h).Some? ==>
      Claimed(AddDisclosed(claims, stepIndex, hiredRuns), Hex.ParseId(h).value)
  {
    if hiredRuns != [] {
      var front := hiredRuns[..|hiredRuns| - 1];
      DisclosedIsClaimed(claims, stepIndex, front);
      var before, after := AddDisclosed(claims, stepIndex, front), AddDisclosed(claims, stepIndex, hiredRuns);
      assert before <= after;
      var last := Hex.ParseId(hiredRuns[|hiredRuns| - 1]);
      forall h | h in hiredRuns && Hex.ParseId(h).Some? ensures Claimed(after, Hex.ParseId(h).value) {
        if h in front {
          ClaimedStays(before, after, Hex.ParseId(h).value);
        } else if !Claimed(before, last.value) {
          assert after[|after| - 1].runId == last.value;
        }
      }
    }
  }

  lemma ClaimedStays(before: seq<Claim>, after: seq<Claim>, runId: Bytes32)
    requires before <= after && Claimed(before, runId)
    ensures Claimed(after, runId)
  {
    var k :| 0 <= k < |before| && before[k].runId == runId;
    assert after[k].runId == runId;
  }

  lemma {:induction false} EveryDisclosureClaimed(view: View, receipts: seq<Receipt>, k: nat, h: Str)
    requires k < |receipts| && TraceOf(view, receipts[k]).Some?
    requires h in TraceOf(view, receipts[k]).value.hiredRuns && Hex.ParseId(h).Some?
    ensures Claimed(ClaimsOf(view, receipts), Hex.ParseId(h).value)
  {
    var front, r := receipts[..|receipts| - 1], receipts[|receipts| - 1];
    var claims := ClaimsOf(view, front);
    if TraceOf(view, r).Some? {
      var t := TraceOf(view, r).value;
      DisclosedIsClaimed(AddSubFlow(claims, r.stepIndex, t.output), r.stepIndex, t.hiredRuns);
    }
    if k < |receipts| - 1 {
      EveryDisclosureClaimed(view, front, k, h);
      ClaimedStays(claims, ClaimsOf(view, receipts), Hex.ParseId(h).value);
    }
  }

  /** The claim is of a sub-flow run with this id, under the root it sealed. */
  predicate OpenedAs(view: View, c: Claim, runId: Bytes32) {
    c.kind.SubFlow? && c.runId == runId && c.chainRoot == SealedRoot(view, runId)
  }

  /** In a verified run, whatever an agent disclosed is a run that one of the
      sub-flow steps of the same run opened, and that is itself sound. */
  lemma VerifiedDisclosuresAreSubFlows(view: View, runId: Bytes32, spec: Option<Spec>, depth: int, k: nat, h: Str)
    requires VerdictOf(view, runId, spec, depth) == Some(Verified)
    requires k < |Anchored(view, runId)| && TraceOf(view, Anchored(view, runId)[k]).Some?
    requires h in TraceOf(view, Anchored(view, runId)[k]).value.hiredRuns && Hex.ParseId(h).Some?
    ensures exists c :: c in ClaimsOf(view, Anchored(view, runId)) && OpenedAs(view, c, Hex.ParseId(h).value)
  {
    var rs := Anchored(view, runId);
    VerifiedAllTheWayDown(view, runId, spec, depth);
    EveryDisclosureClaimed(view, rs, k, h);
    var claims := ClaimsOf(view, rs);
    var j :| 0 <= j < |claims| && claims[j].runId == Hex.ParseId(h).value;
    assert claims[j] in claims;
  }

  // ----- The procedure, as the source runs it -----------------------------

  method CheckStep(view: View, r: Receipt) returns (failures: nat, gaps: nat)
    ensures failures > 0 <==> StepFails(view, r)
    ensures gaps > 0 <==> StepGaps(view, r)
  {
    failures, gaps := 0, 0;
    if !view.identified(r) {
      failures := failures + 1;
    }
    var fetched := view.fetch(r.traceRoot);
    if fetched.None? {
      gaps := gaps + 1;
    } else {
      if !fetched.value.proven {
        gaps := gaps + 1;
      }
      if fetched.value.trace.None? {
        failures := failures + 1;
      } else {
        var t := fetched.value.trace.value;
        var commitsInput, commitsOutput := r.inputHash != ZERO32, r.outputHash != ZERO32;
        if r.status.Ok? && !(commitsInput && commitsOutput) {
          failures := failures + 1;
        }
        if commitsInput && view.hash(t.input) != r.inputHash {
          failures := failures + 1;
        }
        if commitsOutput && view.hash(t.output) != r.outputHash {
          failures := failures + 1;
        }
        if r.attestationRef != ZERO32 && !view.attestationHolds(r, t) {
          failures := failures + 1;
        }
        if t.signature.Some? && !view.signatureHolds(r, t) {
          gaps := gaps + 1;
        }
      }
    }
  }

  ghost predicate FailsBefore(view: View, rs: seq<Receipt>, k: nat)
    requires k <= |rs|
  {
    exists a :: 0 <= a < k && (rs[a].flowId != rs[0].flowId || StepFails(view, rs[a]))
  }

  ghost predicate GapsBefore(view: View, rs: seq<Receipt>, k: nat)
    requires k <= |rs|
  {
    exists a :: 0 <= a < k && StepGaps(view, rs[a])
  }

  lemma BeforeGrows(view: View, rs: seq<Receipt>, k: nat)
    requires k < |rs|
    ensures FailsBefore(view, rs, k + 1) <==>
      FailsBefore(view, rs, k) || rs[k].flowId != rs[0].flowId || StepFails(view, rs[k])
    ensures GapsBefore(view, rs, k + 1) <==> GapsBefore(view, rs, k) || StepGaps(view, rs[k])
  {
  }

  /** What the loop over receipts has found after k of them. */
  ghost predicate FoundSoFar(view: View, rs: seq<Receipt>, k: nat, failures: nat, gaps: nat, traced: nat,
                             claims: seq<Claim>)
    requires k <= |rs|
  {
    && (failures > 0 <==> FailsBefore(view, rs, k)) && (gaps > 0 <==> GapsBefore(view, rs, k))
    && traced <= k && (traced == k <==> AllTraced(view, rs[..k]))
    && claims == ClaimsOf(view, rs[..k])
  }

  lemma FoundAtFirst(view: View, rs: seq<Receipt>)
    ensures FoundSoFar(view, rs, 0, 0, 0, 0, [])
  {
  }

  lemma FoundNext(view: View, rs: seq<Receipt>, k: nat, failures: nat, gaps: nat, traced: nat, claims: seq<Claim>,
                  more: nat, missing: nat)
    requires k < |rs| && FoundSoFar(view, rs, k, failures, gaps, traced, claims)
    requires more > 0 <==> rs[k].flowId != rs[0].flowId || StepFails(view, rs[k])
    requires missing > 0 <==> StepGaps(view, rs[k])
    ensures FoundSoFar(view, rs, k + 1, failures + more, gaps + missing,
                       traced + if TraceOf(view, rs[k]).Some? then 1 else 0, AddClaims(view, claims, rs[k]))
  {
    BeforeGrows(view, rs, k);
    TracedNext(view, rs, k);
    assert rs[..k + 1][..k] == rs[..k];
  }

  lemma TracedNext(view: View, rs: seq<Receipt>, k: nat)
    requires k < |rs|
    ensures AllTraced(view, rs[..k + 1]) <==> AllTraced(view, rs[..k]) && TraceOf(view, rs[k]).Some?
  {
    assert rs[..k + 1] == rs[..k] + [rs[k]];
  }

  lemma FoundAtLast(view: View, rs: seq<Receipt>, failures: nat, gaps: nat, traced: nat, claims: seq<Claim>)
    requires FoundSoFar(view, rs, |rs|, failures, gaps, traced, claims)
    ensures failures > 0 <==> exists k :: 0 <= k < |rs| && (rs[k].flowId != rs[0].flowId || StepFails(view, rs[k]))
    ensures gaps > 0 <==> exists k :: 0 <= k < |rs| && StepGaps(view, rs[k])
    ensures (traced == |rs| <==> AllTraced(view, rs)) && claims == ClaimsOf(view, rs)
  {
    assert rs[..|rs|] == rs;
  }

  method CheckSteps(view: View, rs: seq<Receipt>) returns (failures: nat, gaps: nat, traced: nat, claims: seq<Claim>)
    requires rs != []
    ensures failures > 0 <==> exists k :: 0 <= k < |rs| && (rs[k].flowId != rs[0].flowId || StepFails(view, rs[k]))
    ensures gaps > 0 <==> exists k :: 0 <= k < |rs| && StepGaps(view, rs[k])
    ensures traced == |rs| <==> AllTraced(view, rs)
    ensures claims == ClaimsOf(view, rs)
  {
    failures, gaps, traced, claims := 0, 0, 0, [];
    FoundAtFirst(view, rs);
    for k := 0 to |rs|
      invariant FoundSoFar(view, rs, k, failures, gaps, traced, claims)
    {
      ghost var before := failures;
      if rs[k].flowId != rs[0].flowId {
        failures := failures + 1;
      }
      var f, g := CheckStep(view, rs[k]);
      FoundNext(view, rs, k, before, gaps, traced, claims, failures + f - before, g);
      failures, gaps := failures + f, gaps + g;
      if TraceOf(view, rs[k]).Some? {
        traced := traced + 1;
      }
      claims := AddClaims(view, claims, rs[k]);
    }
    FoundAtLast(view, rs, failures, gaps, traced, claims);
  }

  method CheckSeal(view: View, runId: Bytes32, rs: seq<Receipt>)
      returns (failures: nat, gaps: nat, computed: Option<Bytes32>)
    requires rs == Anchored(view, runId)
    ensures computed == ChainRoot.RunRoot(view.keccak, rs)
    ensures failures > 0 <==>
      computed.None? || (SealOf(view, runId).Some? && !SealAgrees(view, runId, SealOf(view, runId).value))
    ensures gaps > 0 <==> SealOf(view, runId).None?
  {
    failures, gaps := 0, 0;
    var seal := SealOf(view, runId);
    if seal.None? {
      gaps := 1;
    }
    computed := ChainRoot.FoldChainRoot(view.keccak, rs);
    if computed.None? {
      failures := 1;
    }
    if seal.Some? && computed.Some? {
      if seal.value.chainRoot != computed.value {
        failures := failures + 1;
      }
      if seal.value.stepCount != |rs| {
        failures := failures + 1;
      }
    }
  }

  /** What following one claim adds. */
  method CheckClaim(view: View, claim: Claim, report: Option<Report>) returns (failures: nat, gaps: nat)
    requires report.Some? ==> report.value.sealedRoot == SealedRoot(view, claim.runId)
    ensures failures > 0 <==>
      report.Some? && (RootsDiffer(view, claim) || (report.value.verdict.Failed? && claim.kind.SubFlow?))
    ensures gaps > 0 <==>
      || report.None? || report.value.sealedRoot.None?
      || (report.value.verdict.Failed? && claim.kind.Disclosed?) || report.value.verdict.Incomplete?
  {
    failures, gaps := 0, 0;
    if report.None? {
      return 0, 1;
    }
    var r := report.value;
    if claim.chainRoot.Some? && r.sealedRoot.Some? && r.sealedRoot != claim.chainRoot {
      failures := failures + 1;
    }
    if r.sealedRoot.None? {
      gaps := gaps + 1;
    }
    if r.verdict.Failed? && claim.kind.SubFlow? {
      failures := failures + 1;
    } else if r.verdict.Failed? || r.verdict.Incomplete? {
      gaps := gaps + 1;
    }
  }

  /** The report follows the hires of a run in order, each with its own report
      or with none where it was not reached. */
  ghost predicate Follows(view: View, runId: Bytes32, spec: Option<Spec>, depth: int,
                          claims: seq<Claim>, hired: seq<HiredCheck>) {
    && |hired| == |claims|
    && forall k :: 0 <= k < |hired| ==>
         hired[k].claim == claims[k] && Answers(view, runId, spec, depth, hired[k])
  }

  ghost predicate Answers(view: View, runId: Bytes32, spec: Option<Spec>, depth: int, h: HiredCheck) {
    var v := ChildVerdict(view, runId, spec, depth, h.claim);
    && (h.report.Some? <==> v.Some?)
    && (h.report.Some? ==>
          && h.report.value.verdict == v.value && h.report.value.runId == h.claim.runId
          && h.report.value.sealedRoot == SealedRoot(view, h.claim.runId))
  }

  /** The checks of the run itself: what fails, what is missing, or None when they throw. */
  method CheckRun(view: View, runId: Bytes32, spec: Option<Spec>, rs: seq<Receipt>)
      returns (found: Option<(nat, nat)>, computed: Option<Bytes32>, claims: seq<Claim>)
    requires rs == Anchored(view, runId) && rs != []
    ensures found.None? <==> RunThrows(view, runId, spec)
    ensures found.Some? ==> (found.value.0 > 0 <==> RunFails(view, runId, spec))
    ensures found.Some? ==> (found.value.1 > 0 <==> RunGaps(view, runId, spec))
    ensures computed == ChainRoot.RunRoot(view.keccak, rs) && claims == ClaimsOf(view, rs)
  {
    var sealFailures, sealGaps, stepFailures, stepGaps, traced: nat;
    sealFailures, sealGaps, computed := CheckSeal(view, runId, rs);
    stepFailures, stepGaps, traced, claims := CheckSteps(view, rs);
    var failures, gaps := sealFailures + stepFailures, sealGaps + stepGaps;
    if spec.None? || traced != |rs| {
      gaps := gaps + 1;
    } else if !Linkable(view, spec.value, rs) {
      return None, computed, claims;
    } else {
      var linkage := Linkage.VerifyLinkage(QueryFor(view, spec.value, rs));
      if !linkage.ok {
        failures := failures + 1;
      }
    }
    found := Some((failures, gaps));
  }

  /** A run counts as a success when it is sealed so and every step is ok. */
  ghost predicate Succeeded(view: View, runId: Bytes32) {
    && Anchored(view, runId) != [] && SealOf(view, runId).Some? && SealOf(view, runId).value.outcome == 0
    && forall r :: r in Anchored(view, runId) ==> r.status.Ok?
  }

  method VerifyRun(view: View, runId: Bytes32, spec: Option<Spec>, depth: int) returns (result: Option<Report>)
    ensures result.Some? <==> VerdictOf(view, runId, spec, depth).Some?
    ensures result.Some? ==>
      var report := result.value;
      && Some(report.verdict) == VerdictOf(view, runId, spec, depth)
      && report.runId == runId && report.sealedRoot == SealedRoot(view, runId)
      && report.stepCount == |Anchored(view, runId)| && (report.runSucceeded <==> Succeeded(view, runId))
      && (report.verdict.Failed? <==> report.failures > 0)
      && (report.verdict.Verified? <==> report.failures == 0 && report.incomplete == 0)
      && (Anchored(view, runId) != [] ==>
            && report.computedRoot == ChainRoot.RunRoot(view.keccak, Anchored(view, runId))
            && Follows(view, runId, spec, depth, ClaimsOf(view, Anchored(view, runId)), report.hired))
    decreases if depth > 0 then depth else 0
  {
    var rs := Anchored(view, runId);
    SortKeeps(view.stepLogs(runId), ChainRoot.ByIndex);
    if rs == [] {
      return Some(Report(runId, Verdict.Failed, 0, None, None, false, [], 1, 0));
    }
    var found, computed, claims := CheckRun(view, runId, spec, rs);
    if found.None? {
      return None;
    }
    var hired, claimFailures, claimGaps := FollowClaims(view, runId, spec, depth, rs, claims);
    var failures, gaps := found.value.0 + claimFailures, found.value.1 + claimGaps;
    var seal := SealOf(view, runId);
    var verdict := if failures > 0 then Verdict.Failed else if gaps > 0 then Incomplete else Verified;
    var succeeded := seal.Some? && seal.value.outcome == 0 && forall r | r in rs :: r.status.Ok?;
    return Some(Report(runId, verdict, |rs|, computed, SealedRoot(view, runId), succeeded, hired, failures, gaps));
  }

  /** The loop over the claims, verifying each hired run in its own right. */
  method FollowClaims(view: View, runId: Bytes32, spec: Option<Spec>, depth: int, rs: seq<Receipt>, claims: seq<Claim>)
      returns (hired: seq<HiredCheck>, failures: nat, gaps: nat)
    requires rs == Anchored(view, runId) && claims == ClaimsOf(view, rs)
    ensures Follows(view, runId, spec, depth, claims, hired)
    ensures failures > 0 <==> AnyClaimFails(view, runId, spec, depth)
    ensures gaps > 0 <==> AnyClaimGaps(view, runId, spec, depth)
    decreases if depth > 0 then depth else 0, 1
  {
    hired, failures, gaps := [], 0, 0;
    for k := 0 to |claims|
      invariant |hired| == k
      invariant forall a :: 0 <= a < k ==>
        hired[a].claim == claims[a] && Answers(view, runId, spec, depth, hired[a])
      invariant failures > 0 <==> exists a :: 0 <= a < k && ClaimFails(view, runId, spec, depth, claims[a])
      invariant gaps > 0 <==> exists a :: 0 <= a < k && ClaimGaps(view, runId, spec, depth, claims[a])
    {
      var check, f, g := FollowClaim(view, runId, spec, depth, rs, claims[k]);
      hired := hired + [check];
      failures, gaps := failures + f, gaps + g;
    }
  }

  method FollowClaim(view: View, runId: Bytes32, spec: Option<Spec>, depth: int, rs: seq<Receipt>, claim: Claim)
      returns (check: HiredCheck, failures: nat, gaps: nat)
    requires rs == Anchored(view, runId)
    ensures check.claim == claim && Answers(view, runId, spec, depth, check)
    ensures failures > 0 <==> ClaimFails(view, runId, spec, depth, claim)
    ensures gaps > 0 <==> ClaimGaps(view, runId, spec, depth, claim)
    decreases if depth > 0 then depth else 0, 0
  {
    var report: Option<Report> := None;
    if depth > 0 {
      report := VerifyRun(view, claim.runId, ChildSpecFor(view, spec, rs, claim), depth - 1);
    }
    failures, gaps := CheckClaim(view, claim, report);
    check := HiredCheck(claim, report);
  }
}
