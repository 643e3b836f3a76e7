/** Every run the executor completes passes the linkage check. */
module Completeness {
  import opened Json
  import opened Results
  import opened Flow
  import opened Receipts
  import opened Executor
  import opened Schedules
  import opened RunTheorems
  import opened Waves
  import Linkage
  import Plan
  import Template

  function LinkedSteps(steps: seq<PlannedStep>): (linked: seq<Linkage.LinkedStep>)
    ensures |linked| == |steps|
    ensures forall i :: 0 <= i < |steps| ==>
      linked[i] == Linkage.LinkedStep(steps[i].Id(), steps[i].spec.input, steps[i].spec.needs)
  {
    seq(|steps|, i requires 0 <= i < |steps| =>
      Linkage.LinkedStep(steps[i].Id(), steps[i].spec.input, steps[i].spec.needs))
  }

  /** What the stored traces say happened. */
  function TracesOf(completed: seq<Outcome>): (evidence: seq<Linkage.StepEvidence>)
    ensures |evidence| == |completed|
    ensures forall k :: 0 <= k < |completed| ==> evidence[k] == EvidenceOf(completed[k])
  {
    seq(|completed|, k requires 0 <= k < |completed| => EvidenceOf(completed[k]))
  }

  function EvidenceOf(o: Outcome): Linkage.StepEvidence {
    Linkage.StepEvidence(o.trace.stepId, o.trace.input, o.trace.output)
  }

  /** The check a stranger makes of a run: its flow, its inputs, its receipts
      as sealed, and its traces in whatever order the steps completed. */
  function Challenge(w: World, run: Run, steps: seq<PlannedStep>, st: State): Linkage.Query {
    Linkage.Query(w.hash, LinkedSteps(steps), run.inputs, TracesOf(st.completed), Sealed(st))
  }

  // ----- The verifier finds what the executor wrote ------------------------

  lemma {:induction false} ReceiptLookup(receipts: seq<Receipt>, i: nat)
    requires i < |receipts| && forall k :: 0 <= k < |receipts| ==> receipts[k].stepIndex == k
    ensures i in Linkage.ReceiptByIndex(receipts) && Linkage.ReceiptByIndex(receipts)[i] == receipts[i]
  {
    if i < |receipts| - 1 {
      ReceiptLookup(receipts[..|receipts| - 1], i);
    }
  }

  lemma {:induction false} EvidenceLookup(evidence: seq<Linkage.StepEvidence>, k: nat)
    requires k < |evidence|
    requires forall a, b :: 0 <= a < b < |evidence| ==> evidence[a].stepId != evidence[b].stepId
    ensures evidence[k].stepId in Linkage.EvidenceById(evidence)
    ensures Linkage.EvidenceById(evidence)[evidence[k].stepId] == evidence[k]
  {
    if k < |evidence| - 1 {
      EvidenceLookup(evidence[..|evidence| - 1], k);
    }
  }

  /** What is known of step i: its outcome, and that the check will see it. */
  ghost predicate Seen(w: World, run: Run, failFast: bool, steps: seq<PlannedStep>, st: State,
                       i: nat, o: Outcome)
    requires i < |steps|
  {
    && o.step == steps[i] && Recorded(st, o) && Fixed(w, run, failFast, st, o)
    && Linkage.Receipted(Challenge(w, run, steps, st), i) == Some(o.receipt)
    && Linkage.Recorded(Challenge(w, run, steps, st), steps[i].Id()) == Some(EvidenceOf(o))
  }

  lemma See(w: World, run: Run, failFast: bool, steps: seq<PlannedStep>, waves: seq<Wave>, i: nat)
      returns (o: Outcome)
    requires Plan.Sound(steps) && Schedule(steps, waves) && i < |steps|
    ensures Seen(w, run, failFast, steps, RunWaves(w, run, failFast, waves), i, o)
    ensures o in RunWaves(w, run, failFast, waves).completed
  {
    var st := RunWaves(w, run, failFast, waves);
    o := At(w, run, failFast, steps, waves, i);
    OneReceiptPerStep(w, run, failFast, steps, waves);
    ReceiptLookup(Sealed(st), i);
    TraceLookup(w, run, failFast, steps, waves, o);
  }

  lemma TracesNameSteps(w: World, run: Run, failFast: bool, steps: seq<PlannedStep>, st: State)
    requires Plan.Sound(steps) && Kept(w, run, failFast, steps, st, IdsOf(steps))
    ensures forall a :: 0 <= a < |st.completed| ==> st.completed[a].trace.stepId == StepsOf(st.completed)[a].Id()
  {
    forall a | 0 <= a < |st.completed| ensures st.completed[a].trace.stepId == StepsOf(st.completed)[a].Id() {
      var p := st.completed[a];
      assert p in st.completed;
      StepOfOutcome(w, run, p.step, false, st.outputs, st.statuses);
      StepOfOutcome(w, run, p.step, true, st.outputs, st.statuses);
    }
  }

  lemma TraceLookup(w: World, run: Run, failFast: bool, steps: seq<PlannedStep>, waves: seq<Wave>, o: Outcome)
    requires Plan.Sound(steps) && Schedule(steps, waves)
    requires o in RunWaves(w, run, failFast, waves).completed
    ensures Linkage.EvidenceById(TracesOf(RunWaves(w, run, failFast, waves).completed)).Keys >= {o.trace.stepId}
    ensures Linkage.EvidenceById(TracesOf(RunWaves(w, run, failFast, waves).completed))[o.trace.stepId] == EvidenceOf(o)
  {
    var st := RunWaves(w, run, failFast, waves);
    RunKeeps(w, run, failFast, steps, waves);
    DistinctIds(w, run, failFast, steps, st);
    var k :| 0 <= k < |st.completed| && st.completed[k] == o;
    TracesNameSteps(w, run, failFast, steps, st);
    EvidenceLookup(TracesOf(st.completed), k);
  }

  // ----- What one settled step commits to ---------------------------------

  /** How an outcome's commitments relate to what it ran on. */
  ghost predicate Commits(w: World, run: Run, st: State, o: Outcome) {
    var input := Template.Resolve(o.step.spec.input, Template.Context(run.inputs, st.outputs));
    && (o.receipt.inputHash != ZERO32 ==> input.Success? && w.hash(input.value) == o.receipt.inputHash)
    && (o.receipt.outputHash != ZERO32 ==> w.hash(o.trace.output) == o.receipt.outputHash)
    && (o.receipt.status.Ok? ==>
          && o.receipt.inputHash != ZERO32 && o.receipt.outputHash != ZERO32
          && !Blocked(o.step, st.statuses))
    && (o.output != Null ==> o.receipt.status.Ok? && o.trace.output == o.output)
  }

  lemma StepCommits(w: World, run: Run, st: State, p: PlannedStep, halted: bool)
    requires HashesAreClaims(w)
    ensures Commits(w, run, st, RunStep(w, run, p, halted, st.outputs, st.statuses))
  {
  }

  // ----- The check passes -------------------------------------------------

  lemma ReadIndex(steps: seq<PlannedStep>, i: nat)
    requires WellNumbered(steps) && i < |steps|
    ensures steps[i].Id() in Linkage.IndexById(LinkedSteps(steps))
    ensures Linkage.IndexById(LinkedSteps(steps))[steps[i].Id()] == i
  {
    var linked := LinkedSteps(steps);
    assert linked[i].id == steps[i].Id();
    var j := Linkage.IndexById(linked)[steps[i].Id()];
    assert linked[j].id == steps[j].Id();
  }

  lemma StatusSeen(w: World, run: Run, failFast: bool, steps: seq<PlannedStep>, waves: seq<Wave>,
                   i: nat, u: Str)
    requires Plan.Sound(steps) && Schedule(steps, waves) && i <= |steps|
    ensures var st := RunWaves(w, run, failFast, waves);
      var seen := Linkage.StatusBefore(Challenge(w, run, steps, st), i);
      u in seen ==> u in st.statuses && seen[u] == st.statuses[u]
  {
    var st := RunWaves(w, run, failFast, waves);
    var q := Challenge(w, run, steps, st);
    forall j | 0 <= j < i && Linkage.Receipted(q, j).Some?
      ensures q.steps[j].id in st.statuses
      ensures st.statuses[q.steps[j].id] == Linkage.Receipted(q, j).value.status
    {
      ReceiptStatus(w, run, failFast, steps, waves, j);
    }
    Linkage.StatusesFrom(q, i, st.statuses);
  }

  lemma ReceiptStatus(w: World, run: Run, failFast: bool, steps: seq<PlannedStep>, waves: seq<Wave>, i: nat)
    requires Plan.Sound(steps) && Schedule(steps, waves) && i < |steps|
    ensures var st := RunWaves(w, run, failFast, waves);
      var r := Linkage.Receipted(Challenge(w, run, steps, st), i);
      r.Some? && steps[i].Id() in st.statuses && r.value.status == st.statuses[steps[i].Id()]
  {
    var o := See(w, run, failFast, steps, waves, i);
  }

  /** An output the executor passed on is one the verifier has confirmed. */
  lemma OutputConfirmed(w: World, run: Run, failFast: bool, steps: seq<PlannedStep>, waves: seq<Wave>,
                        i: nat, d: nat)
    requires Plan.Sound(steps) && Schedule(steps, waves) && HashesAreClaims(w)
    requires d < i < |steps| && steps[d].Id() in RunWaves(w, run, failFast, waves).outputs
    ensures var st := RunWaves(w, run, failFast, waves);
      var confirmed := Linkage.ConfirmedBefore(Challenge(w, run, steps, st), i);
      steps[d].Id() in confirmed && confirmed[steps[d].Id()] == st.outputs[steps[d].Id()]
  {
    var st := RunWaves(w, run, failFast, waves);
    var o := See(w, run, failFast, steps, waves, d);
    StepCommits(w, run, st, o.step, false);
    StepCommits(w, run, st, o.step, true);
    assert Linkage.Confirms(Challenge(w, run, steps, st), d);
  }

  /** The verifier derives the very input the executor built. */
  lemma InputRederived(w: World, run: Run, failFast: bool, steps: seq<PlannedStep>, waves: seq<Wave>,
                       i: nat, o: Outcome)
    requires Plan.Sound(steps) && Schedule(steps, waves) && HashesAreClaims(w) && i < |steps|
    requires Seen(w, run, failFast, steps, RunWaves(w, run, failFast, waves), i, o)
    requires Commits(w, run, RunWaves(w, run, failFast, waves), o)
    ensures Linkage.InputLinked(Challenge(w, run, steps, RunWaves(w, run, failFast, waves)), i, o.receipt)
  {
    var st := RunWaves(w, run, failFast, waves);
    var q := Challenge(w, run, steps, st);
    var ids, template := steps[i].readsFrom, steps[i].spec.input;
    if o.receipt.inputHash != ZERO32 {
      var ran := Template.Context(run.inputs, st.outputs);
      var checked := Template.Context(run.inputs, Linkage.ConfirmedBefore(q, i));
      assert Plan.ReadsDeclared(steps[i]);
      Template.ResolvedReadsAreAvailable(template, ran);
      forall u | u in ids ensures u in checked.outputs && checked.outputs[u] == ran.outputs[u] {
        assert u in steps[i].dependsOn;
        OutputConfirmed(w, run, failFast, steps, waves, i, IndexOf(steps, u));
      }
      Template.TemplateFrame(template, ran, checked);
    }
  }

  lemma StepPasses(w: World, run: Run, failFast: bool, steps: seq<PlannedStep>, waves: seq<Wave>, i: nat)
    requires Plan.Sound(steps) && Schedule(steps, waves) && HashesAreClaims(w) && i < |steps|
    ensures Linkage.StepLinked(Challenge(w, run, steps, RunWaves(w, run, failFast, waves)), i)
  {
    var st := RunWaves(w, run, failFast, waves);
    var q := Challenge(w, run, steps, st);
    var o := See(w, run, failFast, steps, waves, i);
    StepCommits(w, run, st, o.step, false);
    StepCommits(w, run, st, o.step, true);
    InputRederived(w, run, failFast, steps, waves, i, o);
    ReadsPass(w, run, steps, st, i);
    forall u | u in Linkage.DerivedFrom(q.steps[i]) && o.receipt.status.Ok?
      ensures Linkage.UpstreamFine(q, i, u)
    {
      StatusSeen(w, run, failFast, steps, waves, i + 1, u);
    }
  }

  lemma ReadsPass(w: World, run: Run, steps: seq<PlannedStep>, st: State, i: nat)
    requires Plan.Sound(steps) && i < |steps|
    ensures Linkage.ReadsLinked(Challenge(w, run, steps, st), i)
    ensures Linkage.DerivedFrom(LinkedSteps(steps)[i]) == steps[i].readsFrom
    ensures forall u :: u in steps[i].readsFrom ==> u in steps[i].dependsOn
  {
    assert Plan.ReadsDeclared(steps[i]);
    forall u | u in steps[i].readsFrom
      ensures Linkage.ReadDeclared(Challenge(w, run, steps, st), i, u)
    {
      assert u in steps[i].dependsOn;
      ReadIndex(steps, IndexOf(steps, u));
    }
  }

  /** Whatever the agents, registries and sub-flows do — succeed, fail, answer
      null, go unattested, be skipped by policy or halted by failFast — the
      receipts and traces of the run pass the linkage check. */
  lemma EveryRunLinks(w: World, run: Run, failFast: bool, steps: seq<PlannedStep>, waves: seq<Wave>)
    requires Plan.Sound(steps) && Schedule(steps, waves) && HashesAreClaims(w)
    ensures Linkage.Linked(Challenge(w, run, steps, RunWaves(w, run, failFast, waves)))
  {
    forall i | 0 <= i < |steps|
      ensures Linkage.StepLinked(Challenge(w, run, steps, RunWaves(w, run, failFast, waves)), i)
    {
      StepPasses(w, run, failFast, steps, waves, i);
    }
    OneReceiptPerStep(w, run, failFast, steps, waves);
  }

  /** Plan a flow, run its waves, check what was written: the check passes with
      every step linked, for every flow the planner accepts. */
  method PlanRunCheck(w: World, run: Run, failFast: bool, spec: FlowSpec)
      returns (accepted: bool, report: Option<Linkage.LinkageReport>)
    requires HashesAreClaims(w)
    ensures accepted <==> Plan.PlanFlow(spec).Success?
    ensures accepted <==> report.Some?
    ensures accepted ==> report.value.ok && report.value.linkedSteps == |spec.steps|
  {
    var planned, waves := Plan.PlanAndLevel(spec);
    if planned.Failure? {
      return false, None;
    }
    var steps := planned.value;
    Plan.AcceptedIsSound(spec, 0);
    LevelsAreSchedule(steps, waves);
    EveryRunLinks(w, run, failFast, steps, waves);
    var receipts, completed, chainRoot, outcome := ExecuteRun(w, run, failFast, waves);
    var checked := Linkage.VerifyLinkage(
      Linkage.Query(w.hash, LinkedSteps(steps), run.inputs, TracesOf(completed), receipts));
    return true, Some(checked);
  }
}
