/** What each verdict says: failed where evidence contradicts what was anchored,
    incomplete where nothing does but evidence is missing. */
module VerdictMeaning {
  import opened Results
  import opened Receipts
  import opened Executor
  import opened Sorting
  import opened Verify
  import ChainRoot
  import Linkage

  // ----- One receipt ------------------------------------------------------

  /** The trace a receipt points at was retrieved and reads as t. */
  ghost predicate Retrieved(view: View, r: Receipt, t: Trace) {
    view.fetch(r.traceRoot).Some? && view.fetch(r.traceRoot).value.trace == Some(t)
  }

  /** The trace is not what the receipt commits to. */
  ghost predicate Contradicts(view: View, r: Receipt, t: Trace) {
    || (r.inputHash != ZERO32 && view.hash(t.input) != r.inputHash)
    || (r.outputHash != ZERO32 && view.hash(t.output) != r.outputHash)
    || (r.status.Code() == 0 && (r.inputHash == ZERO32 || r.outputHash == ZERO32))
    || (r.attestationRef != ZERO32 && !view.attestationHolds(r, t))
  }

  ghost predicate WrongStep(view: View, r: Receipt) {
    || !view.identified(r)
    || (view.fetch(r.traceRoot).Some? && view.fetch(r.traceRoot).value.trace.None?)
    || exists t :: Retrieved(view, r, t) && Contradicts(view, r, t)
  }

  ghost predicate MissingStep(view: View, r: Receipt) {
    || view.fetch(r.traceRoot).None?
    || !view.fetch(r.traceRoot).value.proven
    || exists t :: Retrieved(view, r, t) && t.signature.Some? && !view.signatureHolds(r, t)
  }

  // ----- One run ----------------------------------------------------------

  ghost predicate SomeWrongStep(view: View, logs: seq<Receipt>) {
    exists r :: r in logs && WrongStep(view, r)
  }

  ghost predicate SomeMissingStep(view: View, logs: seq<Receipt>) {
    exists r :: r in logs && MissingStep(view, r)
  }

  ghost predicate FlowsDiffer(logs: seq<Receipt>) {
    exists r, s :: r in logs && s in logs && r.flowId != s.flowId
  }

  /** The root the receipts fold to and their number are not those sealed. */
  ghost predicate SealDiffers(view: View, runId: Bytes32, seal: Seal) {
    || ChainRoot.RunRoot(view.keccak, view.stepLogs(runId)) != Some(seal.chainRoot)
    || |view.stepLogs(runId)| != seal.stepCount
  }

  ghost predicate EveryTraceReads(view: View, runId: Bytes32) {
    forall r :: r in view.stepLogs(runId) ==> exists t :: Retrieved(view, r, t)
  }

  /** A step of the spec has a receipt of its index with a trace. */
  ghost predicate HasEvidence(view: View, runId: Bytes32, i: nat) {
    exists r, t :: r in view.stepLogs(runId) && r.stepIndex == i && Retrieved(view, r, t)
  }

  /** The declared steps are checked against the receipts and traces, and do not link. */
  ghost predicate LinkageBreaks(view: View, runId: Bytes32, spec: Spec) {
    && EveryTraceReads(view, runId) && Linkable(view, spec, Anchored(view, runId))
    && !Linkage.Linked(QueryFor(view, spec, Anchored(view, runId)))
  }

  ghost predicate WrongRun(view: View, runId: Bytes32, spec: Option<Spec>) {
    var logs, seals := view.stepLogs(runId), view.sealLogs(runId);
    || SomeWrongStep(view, logs)
    || FlowsDiffer(logs)
    || ChainRoot.RunRoot(view.keccak, logs).None?
    || (seals != [] && SealDiffers(view, runId, seals[|seals| - 1]))
    || (spec.Some? && LinkageBreaks(view, runId, spec.value))
  }

  ghost predicate MissingRun(view: View, runId: Bytes32, spec: Option<Spec>) {
    || view.sealLogs(runId) == []
    || spec.None?
    || SomeMissingStep(view, view.stepLogs(runId))
  }

  /** The declared steps can be checked, but one of them has no receipt. */
  ghost predicate Unanswerable(view: View, runId: Bytes32, spec: Option<Spec>) {
    && spec.Some? && EveryTraceReads(view, runId)
    && exists i :: 0 <= i < |spec.value.steps| && !HasEvidence(view, runId, i)
  }

  // ----- The runs it hired --------------------------------------------------

  /** The verdict on a claimed run, where following it gets as far as one. */
  ghost predicate Reached(view: View, runId: Bytes32, spec: Option<Spec>, depth: int, c: Claim, v: Verdict) {
    && depth > 0
    && VerdictOf(view, c.runId, ChildSpecFor(view, spec, Anchored(view, runId), c), depth - 1) == Some(v)
  }

  /** The run was sealed under this root, and has receipts. */
  ghost predicate SealedUnder(view: View, runId: Bytes32, root: Bytes32) {
    var seals := view.sealLogs(runId);
    view.stepLogs(runId) != [] && seals != [] && seals[|seals| - 1].chainRoot == root
  }

  ghost predicate WrongHire(view: View, runId: Bytes32, spec: Option<Spec>, depth: int, c: Claim) {
    || (c.kind.SubFlow? && Reached(view, runId, spec, depth, c, Verdict.Failed))
    || exists v, root ::
         && Reached(view, runId, spec, depth, c, v)
         && SealedUnder(view, c.runId, root) && c.chainRoot.Some? && c.chainRoot != Some(root)
  }

  ghost predicate MissingHire(view: View, runId: Bytes32, spec: Option<Spec>, depth: int, c: Claim) {
    || (forall v :: !Reached(view, runId, spec, depth, c, v))
    || (forall root :: !SealedUnder(view, c.runId, root))
    || (c.kind.Disclosed? && Reached(view, runId, spec, depth, c, Verdict.Failed))
    || Reached(view, runId, spec, depth, c, Incomplete)
  }

  ghost predicate Wrong(view: View, runId: Bytes32, spec: Option<Spec>, depth: int) {
    || WrongRun(view, runId, spec)
    || exists c :: c in ClaimsOf(view, Anchored(view, runId)) && WrongHire(view, runId, spec, depth, c)
  }

  ghost predicate Missing(view: View, runId: Bytes32, spec: Option<Spec>, depth: int) {
    || MissingRun(view, runId, spec)
    || exists c :: c in ClaimsOf(view, Anchored(view, runId)) && MissingHire(view, runId, spec, depth, c)
  }

  // ----- The two accounts agree -----------------------------------------------

  lemma StepVerdicts(view: View, r: Receipt)
    ensures WrongStep(view, r) <==> StepFails(view, r)
    ensures MissingStep(view, r) <==> StepGaps(view, r)
    ensures (exists t :: Retrieved(view, r, t)) <==> TraceOf(view, r).Some?
  {
    if TraceOf(view, r).Some? { assert Retrieved(view, r, TraceOf(view, r).value); }
  }

  lemma SameReceipts(view: View, runId: Bytes32)
    ensures var rs, logs := Anchored(view, runId), view.stepLogs(runId);
      && |rs| == |logs| && (forall r :: r in rs <==> r in logs)
      && ChainRoot.RunRoot(view.keccak, rs) == ChainRoot.RunRoot(view.keccak, logs)
  {
    SortKeeps(view.stepLogs(runId), ChainRoot.ByIndex);
    MembersOf(Anchored(view, runId), view.stepLogs(runId));
    ChainRoot.OrderIrrelevant(view.keccak, Anchored(view, runId), view.stepLogs(runId));
  }

  /** The receipts are taken as they were logged, in ascending step index. */
  lemma AnchoredInOrder(view: View, runId: Bytes32)
    ensures multiset(Anchored(view, runId)) == multiset(view.stepLogs(runId))
    ensures forall i, j :: 0 <= i < j < |Anchored(view, runId)| ==>
      Anchored(view, runId)[i].stepIndex <= Anchored(view, runId)[j].stepIndex
  {
    SortKeeps(view.stepLogs(runId), ChainRoot.ByIndex);
    SortSorts(view.stepLogs(runId), ChainRoot.ByIndex);
  }

  lemma AllTracedAlike(view: View, runId: Bytes32)
    ensures AllTraced(view, Anchored(view, runId)) <==> EveryTraceReads(view, runId)
  {
    var rs := Anchored(view, runId);
    SameReceipts(view, runId);
    forall r ensures (exists t :: Retrieved(view, r, t)) <==> TraceOf(view, r).Some? { StepVerdicts(view, r); }
    if EveryTraceReads(view, runId) {
      forall k | 0 <= k < |rs| ensures TraceOf(view, rs[k]).Some? { assert rs[k] in view.stepLogs(runId); }
    }
  }

  lemma SomeFlowDiffers(view: View, runId: Bytes32)
    requires Anchored(view, runId) != []
    ensures var rs := Anchored(view, runId);
      (exists k :: 0 <= k < |rs| && rs[k].flowId != rs[0].flowId) <==> FlowsDiffer(view.stepLogs(runId))
  {
    var rs, logs := Anchored(view, runId), view.stepLogs(runId);
    SameReceipts(view, runId);
    if k :| 0 <= k < |rs| && rs[k].flowId != rs[0].flowId { assert rs[k] in logs && rs[0] in logs; }
    if r, s :| r in logs && s in logs && r.flowId != s.flowId {
      var j :| 0 <= j < |rs| && rs[j] == r;
      var k :| 0 <= k < |rs| && rs[k] == s;
    }
  }

  lemma SomeStep(view: View, runId: Bytes32)
    ensures var rs, logs := Anchored(view, runId), view.stepLogs(runId);
      && ((exists k :: 0 <= k < |rs| && StepFails(view, rs[k])) <==> SomeWrongStep(view, logs))
      && ((exists k :: 0 <= k < |rs| && StepGaps(view, rs[k])) <==> SomeMissingStep(view, logs))
  {
    var rs, logs := Anchored(view, runId), view.stepLogs(runId);
    SameReceipts(view, runId);
    forall r ensures (WrongStep(view, r) <==> StepFails(view, r)) && (MissingStep(view, r) <==> StepGaps(view, r)) {
      StepVerdicts(view, r);
    }
    forall k | 0 <= k < |rs| ensures rs[k] in logs { assert rs[k] in rs; }
    forall r | r in logs ensures exists k :: 0 <= k < |rs| && rs[k] == r { assert r in rs; }
  }

  /** Failed: the receipts, their fold, the seal and the linkage, one by one. */
  lemma RunFailsExactly(view: View, runId: Bytes32, spec: Option<Spec>)
    requires Anchored(view, runId) != []
    ensures WrongRun(view, runId, spec) <==> RunFails(view, runId, spec)
  {
    SomeFlowDiffers(view, runId);
    SomeStep(view, runId);
    AllTracedAlike(view, runId);
    SealAlike(view, runId);
  }

  lemma SealAlike(view: View, runId: Bytes32)
    ensures ChainRoot.RunRoot(view.keccak, Anchored(view, runId)) ==
      ChainRoot.RunRoot(view.keccak, view.stepLogs(runId))
    ensures var seals := view.sealLogs(runId);
      (seals != [] && SealDiffers(view, runId, seals[|seals| - 1])) <==>
      (SealOf(view, runId).Some? && !SealAgrees(view, runId, SealOf(view, runId).value))
  {
    SameReceipts(view, runId);
  }

  lemma RunGapsExactly(view: View, runId: Bytes32, spec: Option<Spec>)
    ensures RunGaps(view, runId, spec) <==> MissingRun(view, runId, spec) || !EveryTraceReads(view, runId)
  {
    SomeStep(view, runId);
    AllTracedAlike(view, runId);
  }

  lemma UnreadIsWrongOrMissing(view: View, runId: Bytes32, spec: Option<Spec>)
    requires !EveryTraceReads(view, runId)
    ensures WrongRun(view, runId, spec) || MissingRun(view, runId, spec)
  {
    var r :| r in view.stepLogs(runId) && !exists t :: Retrieved(view, r, t);
    StepVerdicts(view, r);
  }

  lemma RunVerdicts(view: View, runId: Bytes32, spec: Option<Spec>)
    requires view.stepLogs(runId) != []
    ensures Anchored(view, runId) != []
    ensures WrongRun(view, runId, spec) <==> RunFails(view, runId, spec)
    ensures !EveryTraceReads(view, runId) ==> WrongRun(view, runId, spec) || MissingRun(view, runId, spec)
    ensures RunGaps(view, runId, spec) <==> MissingRun(view, runId, spec) || !EveryTraceReads(view, runId)
  {
    SameReceipts(view, runId);
    RunFailsExactly(view, runId, spec);
    RunGapsExactly(view, runId, spec);
    if !EveryTraceReads(view, runId) { UnreadIsWrongOrMissing(view, runId, spec); }
  }

  lemma {:induction false} EvidenceFound(view: View, rs: seq<Receipt>, i: nat)
    ensures WithTrace(view, rs, i).Some? <==> exists r :: r in rs && r.stepIndex == i && TraceOf(view, r).Some?
  {
    if rs != [] {
      EvidenceFound(view, rs[1..], i);
      assert rs == [rs[0]] + rs[1..];
      assert rs[0] in rs;
    }
  }

  lemma LinkableExactly(view: View, runId: Bytes32, spec: Spec)
    ensures Linkable(view, spec, Anchored(view, runId)) <==>
      forall i :: 0 <= i < |spec.steps| ==> HasEvidence(view, runId, i)
  {
    SameReceipts(view, runId);
    forall i: nat ensures WithTrace(view, Anchored(view, runId), i).Some? <==> HasEvidence(view, runId, i) {
      EvidenceFound(view, Anchored(view, runId), i);
      if r :| r in Anchored(view, runId) && r.stepIndex == i && TraceOf(view, r).Some? {
        assert Retrieved(view, r, TraceOf(view, r).value);
      }
    }
  }

  lemma ThrowsExactly(view: View, runId: Bytes32, spec: Option<Spec>)
    requires view.stepLogs(runId) != []
    ensures RunThrows(view, runId, spec) <==> Unanswerable(view, runId, spec)
  {
    SameReceipts(view, runId);
    AllTracedAlike(view, runId);
    if spec.Some? { LinkableExactly(view, runId, spec.value); }
  }

  lemma SealedUnderExactly(view: View, runId: Bytes32, root: Bytes32)
    ensures SealedUnder(view, runId, root) <==> SealedRoot(view, runId) == Some(root)
  {
  }

  lemma HireVerdicts(view: View, runId: Bytes32, spec: Option<Spec>, depth: int, c: Claim)
    ensures WrongHire(view, runId, spec, depth, c) <==> ClaimFails(view, runId, spec, depth, c)
    ensures MissingHire(view, runId, spec, depth, c) <==> ClaimGaps(view, runId, spec, depth, c)
  {
    var v := ChildVerdict(view, runId, spec, depth, c);
    forall x ensures Reached(view, runId, spec, depth, c, x) <==> v == Some(x) {}
    forall root ensures SealedUnder(view, c.runId, root) <==> SealedRoot(view, c.runId) == Some(root) {
      SealedUnderExactly(view, c.runId, root);
    }
    if v.Some? { assert Reached(view, runId, spec, depth, c, v.value); }
    if SealedRoot(view, c.runId).Some? { assert SealedUnder(view, c.runId, SealedRoot(view, c.runId).value); }
  }

  /** The verdict of every run, under every spec and depth. A run with no
      receipts has failed, and the procedure throws where it cannot be asked.
      Otherwise the verdict is failed exactly when some evidence is wrong,
      incomplete exactly when none is wrong and some is missing, and verified
      when none is either. */
  lemma VerdictMeans(view: View, runId: Bytes32, spec: Option<Spec>, depth: int)
    ensures VerdictOf(view, runId, spec, depth) ==
      if view.stepLogs(runId) == [] then Some(Verdict.Failed)
      else if Unanswerable(view, runId, spec) then None
      else if Wrong(view, runId, spec, depth) then Some(Verdict.Failed)
      else if Missing(view, runId, spec, depth) then Some(Incomplete)
      else Some(Verified)
  {
    SameReceipts(view, runId);
    if view.stepLogs(runId) != [] {
      ThrowsExactly(view, runId, spec);
      RunVerdicts(view, runId, spec);
      ClaimsVerdicts(view, runId, spec, depth);
    }
  }

  lemma ClaimsVerdicts(view: View, runId: Bytes32, spec: Option<Spec>, depth: int)
    ensures AnyClaimFails(view, runId, spec, depth) <==>
      exists c :: c in ClaimsOf(view, Anchored(view, runId)) && WrongHire(view, runId, spec, depth, c)
    ensures AnyClaimGaps(view, runId, spec, depth) <==>
      exists c :: c in ClaimsOf(view, Anchored(view, runId)) && MissingHire(view, runId, spec, depth, c)
  {
    forall c
      ensures WrongHire(view, runId, spec, depth, c) <==> ClaimFails(view, runId, spec, depth, c)
      ensures MissingHire(view, runId, spec, depth, c) <==> ClaimGaps(view, runId, spec, depth, c)
    {
      HireVerdicts(view, runId, spec, depth, c);
    }
  }
}
