/** From execution to verification: a tree of runs, published, is verified all
    the way down by a stranger with the default limits. */
module EndToEnd {
  import opened Json
  import opened Results
  import opened Flow
  import opened Receipts
  import opened Executor
  import opened HireTree
  import opened Verify
  import opened Hires
  import opened Sorting
  import ChainRoot
  import Completeness
  import Hex
  import Linkage
  import Plan
  import RunTheorems
  import Schedules
  import Template
  import Waves

  // ----- What the executor leaves behind ----------------------------------

  /** The parts of a flow a stranger needs to verify a run of it. */
  function SpecSteps(steps: seq<StepSpec>): (s: seq<SpecStep>)
    ensures |s| == |steps|
    ensures forall i :: 0 <= i < |steps| ==> s[i] == SpecStepOf(steps[i])
    decreases steps, 0
  {
    if steps == [] then []
    else
      var rest := SpecSteps(steps[1..]);
      assert forall i :: 0 < i < |steps| ==> steps[i] == steps[1..][i - 1] && rest[i - 1] == SpecStepOf(steps[i]);
      [SpecStepOf(steps[0])] + rest
  }

  function SpecStepOf(step: StepSpec): SpecStep
    decreases step, 1
  {
    SpecStep(Linkage.LinkedStep(step.id, step.input, step.needs),
             if step.flow.Some? then Some(SpecSteps(step.flow.value.steps)) else None)
  }

  function SpecOf(flow: FlowSpec, inputs: Json): Spec {
    Spec(SpecSteps(flow.steps), inputs)
  }

  /** The run a settled sub-flow step opened. */
  ghost function ChildOf(host: Host, spec: FlowSpec, runId: Bytes32, lineage: seq<Bytes32>, o: Outcome): TreeResult
    requires Opens(host, spec, lineage)
  {
    RunChild(host, spec, runId, lineage, o.step.stepIndex, o.trace.input)
  }

  /** What one completed run wrote can be read. */
  ghost predicate RunPublished(host: Host, view: View, runId: Bytes32, done: TreeResult)
    requires done.Completed?
  {
    var w := host.world(runId);
    && w.hash == view.hash && w.keccak == view.keccak && HashesAreClaims(w)
    && multiset(view.stepLogs(runId)) == multiset(Sealed(done.st))
    && SealOf(view, runId) ==
         Some(Seal(done.chainRoot, |done.steps|, SealedOutcome(Sealed(done.st)).Code()))
    && forall o :: o in done.st.completed ==>
         view.fetch(o.receipt.traceRoot) == Some(Fetched(Some(o.trace), true))
  }

  /** The step's trace names the run it opened, and that run completed. */
  ghost predicate Vouches(host: Host, spec: FlowSpec, runId: Bytes32, lineage: seq<Bytes32>, o: Outcome)
    requires Opens(host, spec, lineage)
  {
    ReadHiredClaim(o.trace.output).Some? && ChildOf(host, spec, runId, lineage, o).Completed?
  }

  /** … and so can what the runs below it wrote, as far as its traces name them. */
  ghost predicate Published(host: Host, view: View, spec: FlowSpec, inputs: Json, runId: Bytes32,
                            lineage: seq<Bytes32>)
    requires ExecuteTree(host, spec, inputs, runId, lineage).Completed?
    decreases Remaining(host, lineage)
  {
    && RunPublished(host, view, runId, ExecuteTree(host, spec, inputs, runId, lineage))
    && forall o :: o in FinalState(host, spec, inputs, runId, lineage).completed
                   && Vouches(host, spec, runId, lineage, o) ==>
         ChildPublished(host, view, spec, runId, lineage, o)
  }

  ghost predicate ChildPublished(host: Host, view: View, spec: FlowSpec, runId: Bytes32,
                                 lineage: seq<Bytes32>, o: Outcome)
    requires Opens(host, spec, lineage) && ChildOf(host, spec, runId, lineage, o).Completed?
    decreases Remaining(host, lineage), 0
  {
    Published(host, view, spec.steps[o.step.stepIndex].flow.value, o.trace.input,
              ChildId(host, runId, o.step.stepIndex), lineage + [host.flowIdOf(spec)])
  }

  // ----- Reading a child's result back ------------------------------------

  lemma ClaimReadsBack(runId: Bytes32, flowId: Bytes32, chainRoot: Bytes32, count: nat, outcome: Status)
    ensures ReadHiredClaim(ChildOutput(runId, flowId, chainRoot, count, outcome)) == Some((runId, chainRoot))
  {
    var output := ChildOutput(runId, flowId, chainRoot, count, outcome);
    var fields := output.fields;
    assert |CHILD_RUN_ID| == 10 && |CHILD_FLOW_ID| == 11 && |CHAIN_ROOT| == 9 && |STEP_COUNT| == 9 && |OUTCOME| == 7;
    assert CHAIN_ROOT[0] != STEP_COUNT[0];
    FieldAt(fields, 0);
    FieldAt(fields, 2);
    FieldAt(fields, 3);
    FieldAt(fields, 4);
    Hex.IdRoundTrip(runId);
    Hex.IdRoundTrip(chainRoot);
  }

  lemma {:induction false} FieldAt(fields: seq<Field>, i: nat)
    requires i < |fields| && forall a, b :: 0 <= a < b < |fields| ==> fields[a].key != fields[b].key
    ensures Template.FieldIndex(fields, fields[i].key) == i
    decreases i
  {
    if i > 0 {
      FieldAt(fields[1..], i - 1);
    }
  }

  // ----- One run ----------------------------------------------------------

  /** The hashes of a trace are those its receipt commits to. */
  lemma TraceCommits(w: World, run: Run, st: State, p: PlannedStep, halted: bool)
    requires HashesAreClaims(w)
    ensures var o := RunStep(w, run, p, halted, st.outputs, st.statuses);
      && (o.receipt.inputHash != ZERO32 ==> w.hash(o.trace.input) == o.receipt.inputHash)
      && (o.receipt.outputHash != ZERO32 ==> w.hash(o.trace.output) == o.receipt.outputHash)
      && (o.receipt.status.Ok? ==> o.receipt.inputHash != ZERO32 && o.receipt.outputHash != ZERO32)
  {
  }

  /** What a flow step's trace can say: nothing, or its child's result. */
  lemma FlowStepOutput(w: World, run: Run, st: State, p: PlannedStep, halted: bool)
    requires p.spec.isFlow
    ensures var o := RunStep(w, run, p, halted, st.outputs, st.statuses);
      || o.trace.output == EMPTY
      || w.child(p.stepIndex, o.trace.input) == ChildSealed(o.trace.output, true)
  {
  }

  lemma EmptyClaimsNothing()
    ensures ReadHiredClaim(EMPTY).None?
  {
  }

  /** The facts about a completed run that verifying it needs, in one place. */
  datatype Done = Done(host: Host, view: View, spec: FlowSpec, inputs: Json, runId: Bytes32,
                       lineage: seq<Bytes32>)
  {
    ghost predicate Valid() {
      && ExecuteTree(host, spec, inputs, runId, lineage).Completed?
      && Published(host, view, spec, inputs, runId, lineage)
    }

    ghost function W(): World
      requires Valid()
    {
      WorldOf(host, spec, runId, lineage)
    }

    ghost function R(): Run {
      Run(host.flowIdOf(spec), runId, inputs)
    }

    ghost function Steps(): seq<PlannedStep>
      requires Valid()
    {
      Plan.PlanFlow(spec).value
    }

    ghost function St(): State
      requires Valid()
    {
      FinalState(host, spec, inputs, runId, lineage)
    }

    ghost function Root(): Bytes32
      requires Valid()
    {
      ExecuteTree(host, spec, inputs, runId, lineage).chainRoot
    }
  }

  /** The run that a step of this one opened. */
  ghost function Below(d: Done, o: Outcome): Done
    requires d.Valid() && o.step.stepIndex < |d.spec.steps| && d.spec.steps[o.step.stepIndex].flow.Some?
  {
    Done(d.host, d.view, d.spec.steps[o.step.stepIndex].flow.value, o.trace.input,
         ChildId(d.host, d.runId, o.step.stepIndex), d.lineage + [d.host.flowIdOf(d.spec)])
  }

  /** What was attested or signed of a step holds up, and no agent's output
      passes itself off as a sub-flow's. */
  ghost predicate Undoubted(view: View, o: Outcome) {
    && view.identified(o.receipt)
    && (o.receipt.attestationRef != ZERO32 ==> view.attestationHolds(o.receipt, o.trace))
    && (o.trace.signature.Some? ==> view.signatureHolds(o.receipt, o.trace))
    && (!o.step.spec.isFlow ==> ReadHiredClaim(o.trace.output).None?)
  }

  ghost predicate NothingDoubted(d: Done)
    requires d.Valid()
  {
    forall o :: o in d.St().completed ==> Undoubted(d.view, o)
  }

  /** Nothing of the run is doubted, whatever its agents disclose is a sub-flow
      opened by then, and the same holds of every run its sub-flows opened. */
  ghost predicate Clean(d: Done)
    requires d.Valid()
    decreases Remaining(d.host, d.lineage)
  {
    && NothingDoubted(d) && DisclosesOwn(d.view, Sealed(d.St()))
    && forall o :: o in d.St().completed && Vouches(d.host, d.spec, d.runId, d.lineage, o) ==> CleanBelow(d, o)
  }

  ghost predicate CleanBelow(d: Done, o: Outcome)
    requires d.Valid() && o in d.St().completed && Vouches(d.host, d.spec, d.runId, d.lineage, o)
    decreases Remaining(d.host, d.lineage), 0
  {
    assert ChildPublished(d.host, d.view, d.spec, d.runId, d.lineage, o);
    Clean(Below(d, o))
  }

  lemma DoneIsScheduled(d: Done)
    requires d.Valid()
    ensures Plan.Sound(d.Steps()) && Schedules.Schedule(d.Steps(), Waves.Levels(d.Steps()))
    ensures d.St() == RunWaves(d.W(), d.R(), d.host.failFast, Waves.Levels(d.Steps()))
    ensures HashesAreClaims(d.W()) && d.W().hash == d.view.hash
  {
    Plan.AcceptedIsSound(d.spec, 0);
    Waves.LevelsFill(d.Steps());
    Schedules.LevelsAreSchedule(d.Steps(), Waves.Levels(d.Steps()));
  }

  /** Step i as it settled. */
  lemma Settled(d: Done, i: nat) returns (o: Outcome, halted: bool)
    requires d.Valid() && i < |d.Steps()|
    ensures |Sealed(d.St())| == |d.Steps()| && Sealed(d.St())[i] == o.receipt
    ensures o in d.St().completed && o.step == d.Steps()[i] && o.receipt.stepIndex == i == o.step.stepIndex
    ensures o == RunStep(d.W(), d.R(), o.step, halted, d.St().outputs, d.St().statuses)
    ensures o.receipt.flowId == d.R().flowId
  {
    DoneIsScheduled(d);
    o := RunTheorems.At(d.W(), d.R(), d.host.failFast, d.Steps(), Waves.Levels(d.Steps()), i);
    halted := o != RunStep(d.W(), d.R(), o.step, false, d.St().outputs, d.St().statuses);
  }

  /** The receipts a stranger sorts are the ones the executor sealed. */
  lemma AnchoredIsSealed(d: Done)
    requires d.Valid()
    ensures Anchored(d.view, d.runId) == Sealed(d.St())
    ensures ChainRoot.RunRoot(d.view.keccak, Anchored(d.view, d.runId)) == Some(d.Root())
    ensures |Sealed(d.St())| == |d.Steps()| > 0
  {
    DoneIsScheduled(d);
    var st := d.St();
    var receipts := ReceiptsOf(st.completed);
    Schedules.RunKeeps(d.W(), d.R(), d.host.failFast, d.Steps(), Waves.Levels(d.Steps()));
    RunTheorems.DistinctIndices(d.W(), d.R(), d.host.failFast, d.Steps(), st);
    SortKeeps(receipts, ChainRoot.ByIndex);
    ChainRoot.ContiguousEitherWay(receipts, d.view.stepLogs(d.runId));
    ChainRoot.SortAgrees(receipts, d.view.stepLogs(d.runId));
    var o, h := Settled(d, 0);
  }

  lemma StepIsSound(d: Done, i: nat)
    requires d.Valid() && i < |d.Steps()| && NothingDoubted(d)
    ensures |Sealed(d.St())| == |d.Steps()|
    ensures StepSound(d.view, Sealed(d.St())[i]) && d.view.identified(Sealed(d.St())[i])
    ensures Sealed(d.St())[i].flowId == d.R().flowId
  {
    DoneIsScheduled(d);
    var o, h := Settled(d, i);
    assert Undoubted(d.view, o);
    TraceCommits(d.W(), d.R(), d.St(), o.step, h);
  }

  lemma {:induction false} FirstWithTrace(view: View, rs: seq<Receipt>, i: nat)
    requires i < |rs| && forall k :: 0 <= k < |rs| ==> TraceOf(view, rs[k]).Some?
    requires forall a, b :: 0 <= a < b < |rs| ==> rs[a].stepIndex != rs[b].stepIndex
    ensures WithTrace(view, rs, rs[i].stepIndex) == Some(rs[i])
  {
    if i > 0 { FirstWithTrace(view, rs[1..], i - 1); }
  }

  /** The trace found for step i is the one its step stored. */
  lemma TraceFound(d: Done, i: nat) returns (o: Outcome, halted: bool)
    requires d.Valid() && i < |d.Steps()|
    ensures |Sealed(d.St())| == |d.Steps()| && Sealed(d.St())[i] == o.receipt
    ensures WithTrace(d.view, Sealed(d.St()), i) == Some(o.receipt)
    ensures TraceOf(d.view, o.receipt) == Some(o.trace)
    ensures o in d.St().completed && o.step == d.Steps()[i] && o.receipt.stepIndex == i == o.step.stepIndex
    ensures o == RunStep(d.W(), d.R(), o.step, halted, d.St().outputs, d.St().statuses)
  {
    o, halted := Settled(d, i);
    forall k | 0 <= k < |d.Steps()|
      ensures Sealed(d.St())[k].stepIndex == k && TraceOf(d.view, Sealed(d.St())[k]).Some?
    {
      var p, h := Settled(d, k);
    }
    FirstWithTrace(d.view, Sealed(d.St()), i);
  }

  lemma DoneLinks(d: Done)
    requires d.Valid()
    ensures Linkable(d.view, SpecOf(d.spec, d.inputs), Sealed(d.St()))
    ensures Linkage.Linked(QueryFor(d.view, SpecOf(d.spec, d.inputs), Sealed(d.St())))
  {
    DoneIsScheduled(d);
    EveryStepTraced(d);
    Completeness.EveryRunLinks(d.W(), d.R(), d.host.failFast, d.Steps(), Waves.Levels(d.Steps()));
    SameQueries(d);
    Linkage.SameLookupsLink(Completeness.Challenge(d.W(), d.R(), d.Steps(), d.St()),
                            QueryFor(d.view, SpecOf(d.spec, d.inputs), Sealed(d.St())));
  }

  lemma EveryStepTraced(d: Done)
    requires d.Valid()
    ensures |d.Steps()| == |d.spec.steps| && Linkable(d.view, SpecOf(d.spec, d.inputs), Sealed(d.St()))
  {
    Plan.AcceptedIsSound(d.spec, 0);
    forall i | 0 <= i < |d.spec.steps| ensures WithTrace(d.view, Sealed(d.St()), i).Some? {
      var o, h := TraceFound(d, i);
    }
  }

  /** The stranger's query finds what the executor's own would. */
  lemma SameQueries(d: Done)
    requires d.Valid() && Linkable(d.view, SpecOf(d.spec, d.inputs), Sealed(d.St()))
    ensures Linkage.SameLookups(Completeness.Challenge(d.W(), d.R(), d.Steps(), d.St()),
                                QueryFor(d.view, SpecOf(d.spec, d.inputs), Sealed(d.St())))
  {
    DoneIsScheduled(d);
    Plan.AcceptedIsSound(d.spec, 0);
    var q1 := Completeness.Challenge(d.W(), d.R(), d.Steps(), d.St());
    var q2 := QueryFor(d.view, SpecOf(d.spec, d.inputs), Sealed(d.St()));
    assert q1.steps == q2.steps;
    forall i | 0 <= i < |q1.steps|
      ensures Linkage.Recorded(q1, q1.steps[i].id) == Linkage.Recorded(q2, q1.steps[i].id)
    {
      SameEvidence(d, i);
    }
  }

  lemma OneOutcome(d: Done, o: Outcome, p: Outcome)
    requires d.Valid() && o in d.St().completed && p in d.St().completed && o.step == p.step
    ensures o == p
  {
    DoneIsScheduled(d);
    RunTheorems.OneOutcome(d.W(), d.R(), d.host.failFast, d.Steps(), Waves.Levels(d.Steps()), o, p);
  }

  lemma SameEvidence(d: Done, i: nat)
    requires d.Valid() && i < |d.Steps()|
    requires Linkable(d.view, SpecOf(d.spec, d.inputs), Sealed(d.St()))
    ensures var q1 := Completeness.Challenge(d.W(), d.R(), d.Steps(), d.St());
      var q2 := QueryFor(d.view, SpecOf(d.spec, d.inputs), Sealed(d.St()));
      Linkage.Recorded(q1, d.Steps()[i].Id()) == Linkage.Recorded(q2, d.Steps()[i].Id())
  {
    var o, h := TraceFound(d, i);
    InChallenge(d, i, o);
    InQuery(d, i, o);
  }

  lemma InChallenge(d: Done, i: nat, o: Outcome)
    requires d.Valid() && i < |d.Steps()| && o in d.St().completed && o.step == d.Steps()[i]
    ensures Linkage.Recorded(Completeness.Challenge(d.W(), d.R(), d.Steps(), d.St()), d.Steps()[i].Id())
      == Some(Completeness.EvidenceOf(o))
  {
    DoneIsScheduled(d);
    var p := Completeness.See(d.W(), d.R(), d.host.failFast, d.Steps(), Waves.Levels(d.Steps()), i);
    OneOutcome(d, o, p);
  }

  lemma InQuery(d: Done, i: nat, o: Outcome)
    requires d.Valid() && i < |d.Steps()| && o in d.St().completed && o.step == d.Steps()[i]
    requires Linkable(d.view, SpecOf(d.spec, d.inputs), Sealed(d.St()))
    ensures Linkage.Recorded(QueryFor(d.view, SpecOf(d.spec, d.inputs), Sealed(d.St())), d.Steps()[i].Id())
      == Some(Completeness.EvidenceOf(o))
  {
    Plan.AcceptedIsSound(d.spec, 0);
    QueryIds(d);
    var evidence := QueryFor(d.view, SpecOf(d.spec, d.inputs), Sealed(d.St())).evidence;
    Completeness.EvidenceLookup(evidence, i);
    QueryEvidence(d, i, o);
  }

  lemma QueryIdAt(d: Done, k: nat)
    requires d.Valid() && Linkable(d.view, SpecOf(d.spec, d.inputs), Sealed(d.St())) && k < |d.spec.steps|
    ensures k < |d.Steps()|
    ensures EvidenceFor(d.view, SpecOf(d.spec, d.inputs), Sealed(d.St()), k).stepId == d.Steps()[k].Id()
  {
    Plan.AcceptedIsSound(d.spec, 0);
  }

  lemma QueryIds(d: Done)
    requires d.Valid() && Linkable(d.view, SpecOf(d.spec, d.inputs), Sealed(d.St()))
    ensures var evidence := QueryFor(d.view, SpecOf(d.spec, d.inputs), Sealed(d.St())).evidence;
      && |evidence| == |d.Steps()|
      && (forall k :: 0 <= k < |evidence| ==> evidence[k].stepId == d.Steps()[k].Id())
      && (forall a, b :: 0 <= a < b < |evidence| ==> evidence[a].stepId != evidence[b].stepId)
  {
    Plan.AcceptedIsSound(d.spec, 0);
    var evidence := QueryFor(d.view, SpecOf(d.spec, d.inputs), Sealed(d.St())).evidence;
    forall k | 0 <= k < |evidence| ensures evidence[k].stepId == d.Steps()[k].Id() { QueryIdAt(d, k); }
  }

  lemma QueryEvidence(d: Done, i: nat, o: Outcome)
    requires d.Valid() && i < |d.Steps()| && o in d.St().completed && o.step == d.Steps()[i]
    requires |d.Steps()| == |d.spec.steps| && WithTrace(d.view, Sealed(d.St()), i).Some?
    ensures EvidenceFor(d.view, SpecOf(d.spec, d.inputs), Sealed(d.St()), i) == Completeness.EvidenceOf(o)
  {
    Plan.AcceptedIsSound(d.spec, 0);
    FoundIsOwn(d, i, o);
  }

  lemma FoundIsOwn(d: Done, i: nat, o: Outcome)
    requires d.Valid() && i < |d.Steps()| && o in d.St().completed && o.step == d.Steps()[i]
    ensures WithTrace(d.view, Sealed(d.St()), i) == Some(o.receipt) && TraceOf(d.view, o.receipt) == Some(o.trace)
    ensures o.trace.stepId == o.step.Id()
  {
    var p, h := TraceFound(d, i);
    OneOutcome(d, o, p);
    Schedules.StepOfOutcome(d.W(), d.R(), p.step, h, d.St().outputs, d.St().statuses);
  }

  // ----- Hires ------------------------------------------------------------

  /** A claim in a completed run is that of a sub-flow step whose run completed. */
  lemma ClaimIsChild(d: Done, c: Claim) returns (o: Outcome)
    requires d.Valid() && c in ClaimsOf(d.view, Sealed(d.St())) && c.kind.SubFlow? && NothingDoubted(d)
    ensures o in d.St().completed && o.step.stepIndex < |d.spec.steps|
    ensures Vouches(d.host, d.spec, d.runId, d.lineage, o)
    ensures var child := ChildOf(d.host, d.spec, d.runId, d.lineage, o);
      c == Claim(o.step.stepIndex, child.run.runId, Some(child.chainRoot), SubFlow)
    ensures WithTrace(d.view, Sealed(d.St()), o.step.stepIndex) == Some(o.receipt)
    ensures TraceOf(d.view, o.receipt) == Some(o.trace)
  {
    AnchoredIsSealed(d);
    var k := ClaimSource(d.view, Sealed(d.St()), c);
    var h;
    o, h := TraceFound(d, k);
    assert Undoubted(d.view, o);
    ClaimedStepIsFlow(d, k, o, h);
  }

  /** An output that reads as a sub-flow's, of a step that runs one, is that of its run. */
  lemma ClaimedStepIsFlow(d: Done, i: nat, o: Outcome, halted: bool)
    requires d.Valid() && i < |d.Steps()| && o.step == d.Steps()[i] && i == o.step.stepIndex
    requires o == RunStep(d.W(), d.R(), o.step, halted, d.St().outputs, d.St().statuses)
    requires o.step.spec.isFlow && ReadHiredClaim(o.trace.output).Some?
    ensures i < |d.spec.steps| && ChildOf(d.host, d.spec, d.runId, d.lineage, o).Completed?
    ensures var child := ChildOf(d.host, d.spec, d.runId, d.lineage, o);
      ReadHiredClaim(o.trace.output) == Some((child.run.runId, child.chainRoot))
  {
    DoneIsScheduled(d);
    Plan.AcceptedIsSound(d.spec, 0);
    EmptyClaimsNothing();
    FlowStepOutput(d.W(), d.R(), d.St(), o.step, halted);
    ChildResultReadsBack(d, i, o);
  }

  lemma ChildResultReadsBack(d: Done, i: nat, o: Outcome)
    requires d.Valid() && i < |d.spec.steps| && i == o.step.stepIndex
    requires d.W().child(i, o.trace.input) == ChildSealed(o.trace.output, true)
    ensures ChildOf(d.host, d.spec, d.runId, d.lineage, o).Completed?
    ensures var child := ChildOf(d.host, d.spec, d.runId, d.lineage, o);
      ReadHiredClaim(o.trace.output) == Some((child.run.runId, child.chainRoot))
  {
    var child := ChildOf(d.host, d.spec, d.runId, d.lineage, o);
    assert d.W().child(i, o.trace.input) == AsChild(child);
    var rs := Sealed(child.st);
    ClaimReadsBack(child.run.runId, child.run.flowId, child.chainRoot, |rs|, SealedOutcome(rs));
  }

  // ----- The whole tree ---------------------------------------------------

  lemma RunIsSound(d: Done)
    requires d.Valid() && NothingDoubted(d)
    ensures var rs := Anchored(d.view, d.runId);
      && rs != [] && SealOf(d.view, d.runId).Some? && SealAgrees(d.view, d.runId, SealOf(d.view, d.runId).value)
      && SealedRoot(d.view, d.runId) == Some(d.Root())
      && (forall k :: 0 <= k < |rs| ==>
          rs[k].flowId == rs[0].flowId && d.view.identified(rs[k]) && StepSound(d.view, rs[k]))
      && Linkable(d.view, SpecOf(d.spec, d.inputs), rs)
      && Linkage.Linked(QueryFor(d.view, SpecOf(d.spec, d.inputs), rs))
  {
    AnchoredIsSealed(d);
    DoneLinks(d);
    StepIsSound(d, 0);
    forall k | 0 <= k < |d.Steps()|
      ensures Sealed(d.St())[k].flowId == Sealed(d.St())[0].flowId
      ensures d.view.identified(Sealed(d.St())[k]) && StepSound(d.view, Sealed(d.St())[k])
    {
      StepIsSound(d, k);
    }
    RootIsSealed(d);
  }

  lemma RootIsSealed(d: Done)
    requires d.Valid()
    ensures SealedRoot(d.view, d.runId) == Some(d.Root())
  {
    AnchoredIsSealed(d);
    if d.view.stepLogs(d.runId) == [] {
      SortKeeps(d.view.stepLogs(d.runId), ChainRoot.ByIndex);
    }
  }

  /** The spec a stranger verifies the child against is the child's. */
  lemma ChildSpecIs(d: Done, o: Outcome, c: Claim)
    requires d.Valid() && o in d.St().completed && Vouches(d.host, d.spec, d.runId, d.lineage, o)
    requires c.kind.SubFlow? && c.stepIndex == o.step.stepIndex
    requires WithTrace(d.view, Sealed(d.St()), o.step.stepIndex) == Some(o.receipt)
    requires TraceOf(d.view, o.receipt) == Some(o.trace)
    ensures Below(d, o).Valid()
    ensures ChildSpecFor(d.view, Some(SpecOf(d.spec, d.inputs)), Sealed(d.St()), c)
      == Some(SpecOf(Below(d, o).spec, Below(d, o).inputs))
  {
    assert ChildPublished(d.host, d.view, d.spec, d.runId, d.lineage, o);
  }

  lemma {:induction false} TreeIsSound(d: Done, depth: int)
    requires d.Valid() && Clean(d) && depth >= d.host.maxDepth - 1 - |d.lineage|
    ensures SoundAllTheWay(d.view, d.runId, Some(SpecOf(d.spec, d.inputs)), depth)
    decreases Remaining(d.host, d.lineage)
  {
    RunIsSound(d);
    AnchoredIsSealed(d);
    var spec := Some(SpecOf(d.spec, d.inputs));
    var rs := Anchored(d.view, d.runId);
    OwnHiresExactly(d.view, rs);
    forall c | c in ClaimsOf(d.view, rs)
      ensures depth > 0 && c.kind.SubFlow? && c.chainRoot == SealedRoot(d.view, c.runId)
      ensures SealedRoot(d.view, c.runId).Some?
      ensures SoundAllTheWay(d.view, c.runId, ChildSpecFor(d.view, spec, rs, c), depth - 1)
    {
      var o := ClaimIsChild(d, c);
      ChildSpecIs(d, o, c);
      var child := Below(d, o);
      assert CleanBelow(d, o);
      RootIsSealed(child);
      TreeIsSound(child, depth - 1);
    }
  }

  // ----- … and nothing less verifies -----------------------------------------

  lemma SoundRunIsUndoubted(d: Done, depth: int)
    requires d.Valid() && SoundAllTheWay(d.view, d.runId, Some(SpecOf(d.spec, d.inputs)), depth)
    ensures NothingDoubted(d)
  {
    forall o | o in d.St().completed ensures Undoubted(d.view, o) {
      OutcomeIsUndoubted(d, depth, o);
    }
  }

  lemma OutcomeIsUndoubted(d: Done, depth: int, o: Outcome)
    requires d.Valid() && SoundAllTheWay(d.view, d.runId, Some(SpecOf(d.spec, d.inputs)), depth)
    requires o in d.St().completed
    ensures Undoubted(d.view, o)
  {
    AnchoredIsSealed(d);
    var i, h := SettledWithTrace(d, o);
    assert StepSound(d.view, Sealed(d.St())[i]);
    if !o.step.spec.isFlow && HireOf(d.view, o.receipt).Some? {
      AgentClaimsNothing(d, depth, i, o);
    }
  }

  /** Every outcome is that of one of the planned steps. */
  lemma StepOf(d: Done, o: Outcome) returns (i: nat)
    requires d.Valid() && o in d.St().completed
    ensures i < |d.Steps()| && o.step == d.Steps()[i] && o.step.stepIndex == i
  {
    DoneIsScheduled(d);
    i := RunTheorems.PlannedAt(d.W(), d.R(), d.host.failFast, d.Steps(), Waves.Levels(d.Steps()), o);
  }

  /** A sound run makes no claim on behalf of a step that runs no flow. */
  lemma AgentClaimsNothing(d: Done, depth: int, i: nat, o: Outcome)
    requires d.Valid() && SoundAllTheWay(d.view, d.runId, Some(SpecOf(d.spec, d.inputs)), depth)
    requires i < |d.Steps()| && o.step == d.Steps()[i] && |Sealed(d.St())| == |d.Steps()|
    requires Anchored(d.view, d.runId) == Sealed(d.St()) && Sealed(d.St())[i] == o.receipt && o.receipt.stepIndex == i
    requires !o.step.spec.isFlow
    ensures HireOf(d.view, o.receipt).None?
  {
    Plan.AcceptedIsSound(d.spec, 0);
    SubFlowAccepted(d.spec, i);
    if HireOf(d.view, o.receipt).Some? {
      HireIsClaimed(d.view, Sealed(d.St()), i);
      var c := ClaimBy(d.view, o.receipt);
      SoundNeedsSpec(d.view, c.runId, ChildSpecFor(d.view, Some(SpecOf(d.spec, d.inputs)), Sealed(d.St()), c),
                     depth - 1);
    }
  }

  lemma {:induction false} SoundTreeIsClean(d: Done, depth: int)
    requires d.Valid() && SoundAllTheWay(d.view, d.runId, Some(SpecOf(d.spec, d.inputs)), depth)
    ensures Clean(d)
    decreases Remaining(d.host, d.lineage)
  {
    SoundRunIsUndoubted(d, depth);
    AnchoredIsSealed(d);
    OwnHiresExactly(d.view, Sealed(d.St()));
    forall o | o in d.St().completed && Vouches(d.host, d.spec, d.runId, d.lineage, o) ensures CleanBelow(d, o) {
      var c := ChildIsClaimed(d, o);
      ChildSpecIs(d, o, c);
      SoundTreeIsClean(Below(d, o), depth - 1);
    }
  }

  /** A sub-flow step's run is among the claims. */
  lemma ChildIsClaimed(d: Done, o: Outcome) returns (c: Claim)
    requires d.Valid() && NothingDoubted(d) && o in d.St().completed
    requires Vouches(d.host, d.spec, d.runId, d.lineage, o)
    ensures c in ClaimsOf(d.view, Sealed(d.St())) && c.kind.SubFlow?
    ensures c.stepIndex == o.step.stepIndex && c.runId == ChildId(d.host, d.runId, o.step.stepIndex)
    ensures WithTrace(d.view, Sealed(d.St()), o.step.stepIndex) == Some(o.receipt)
    ensures TraceOf(d.view, o.receipt) == Some(o.trace)
  {
    var i, h := SettledWithTrace(d, o);
    assert Undoubted(d.view, o);
    ClaimedStepIsFlow(d, i, o, h);
    ChildRunId(d, o);
    HireIsClaimed(d.view, Sealed(d.St()), i);
    c := ClaimBy(d.view, o.receipt);
  }

  lemma ChildRunId(d: Done, o: Outcome)
    requires d.Valid() && ChildOf(d.host, d.spec, d.runId, d.lineage, o).Completed?
    ensures ChildOf(d.host, d.spec, d.runId, d.lineage, o).run.runId == ChildId(d.host, d.runId, o.step.stepIndex)
  {
    CompletedRunId(d.host, d.spec.steps[o.step.stepIndex].flow.value, o.trace.input,
                   ChildId(d.host, d.runId, o.step.stepIndex), d.lineage + [d.host.flowIdOf(d.spec)]);
  }

  lemma CompletedRunId(host: Host, spec: FlowSpec, inputs: Json, runId: Bytes32, lineage: seq<Bytes32>)
    requires ExecuteTree(host, spec, inputs, runId, lineage).Completed?
    ensures ExecuteTree(host, spec, inputs, runId, lineage).run.runId == runId
  {
  }

  /** The trace found for an outcome is its own. */
  lemma SettledWithTrace(d: Done, o: Outcome) returns (i: nat, halted: bool)
    requires d.Valid() && o in d.St().completed
    ensures i < |d.Steps()| && o.step == d.Steps()[i] && i == o.step.stepIndex == o.receipt.stepIndex
    ensures |Sealed(d.St())| == |d.Steps()| && Sealed(d.St())[i] == o.receipt
    ensures o == RunStep(d.W(), d.R(), o.step, halted, d.St().outputs, d.St().statuses)
    ensures WithTrace(d.view, Sealed(d.St()), i) == Some(o.receipt) && TraceOf(d.view, o.receipt) == Some(o.trace)
  {
    var p;
    i := StepOf(d, o);
    p, halted := TraceFound(d, i);
    OneOutcome(d, o, p);
  }

  /** Whatever flow is planned and whatever its agents do, a run that completes
      and is published, with every run its sub-flows opened, is verified by a
      stranger exactly when nothing in that tree is left to doubt: what was
      attested or signed holds up, no agent's output reads as a sub-flow's, and
      no agent discloses a run but one its own run had opened by then. */
  lemma ExecutedRunsVerify(d: Done, depth: int)
    requires d.Valid() && depth >= d.host.maxDepth - 1 - |d.lineage|
    ensures VerdictOf(d.view, d.runId, Some(SpecOf(d.spec, d.inputs)), depth) == Some(Verified) <==> Clean(d)
  {
    VerifiedAllTheWayDown(d.view, d.runId, Some(SpecOf(d.spec, d.inputs)), depth);
    if Clean(d) { TreeIsSound(d, depth); }
    if SoundAllTheWay(d.view, d.runId, Some(SpecOf(d.spec, d.inputs)), depth) { SoundTreeIsClean(d, depth); }
  }

  /** The defaults match: three hires followed cover four nested runs. */
  lemma DefaultsSuffice(d: Done)
    requires d.Valid() && d.lineage == [] && d.host.maxDepth == DEFAULT_MAX_DEPTH
    ensures VerdictOf(d.view, d.runId, Some(SpecOf(d.spec, d.inputs)), DEFAULT_HIRE_DEPTH) == Some(Verified) <==>
      Clean(d)
  {
    ExecutedRunsVerify(d, DEFAULT_HIRE_DEPTH);
  }
}
