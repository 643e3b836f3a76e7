/** What a finished run says of each step, from nothing but what the outside
    answered: its status, its hashes, and what the steps below it read. */
module StepMeaning {
  import opened Json
  import opened Results
  import opened Flow
  import opened Receipts
  import opened Executor
  import opened Schedules
  import opened Waves
  import opened RunTheorems
  import Plan
  import Template

  // ----- What is asked of a step and what it gives -----------------------------

  /** A step it depends on is not ok. */
  ghost predicate BlockedBy(steps: seq<PlannedStep>, rs: seq<Receipt>, i: nat)
    requires i < |steps| == |rs|
  {
    exists j :: 0 <= j < |steps| && steps[j].Id() in steps[i].dependsOn && rs[j].status.Code() != 0
  }

  /** A step of a wave before this one is not ok. */
  ghost predicate StoppedBefore(steps: seq<PlannedStep>, waves: seq<Wave>, rs: seq<Receipt>, l: nat)
    requires l <= |waves| && |steps| == |rs|
  {
    exists k, j :: 0 <= k < l && 0 <= j < |steps| && steps[j] in waves[k] && rs[j].status.Code() != 0
  }

  /** The step is not run at all. */
  ghost predicate Held(w: World, failFast: bool, steps: seq<PlannedStep>, waves: seq<Wave>, rs: seq<Receipt>,
                       l: nat, i: nat)
    requires i < |steps| == |rs| && l <= |waves|
  {
    BlockedBy(steps, rs, i) || (failFast && StoppedBefore(steps, waves, rs, l)) || w.belowBar(i)
  }

  /** What the template gives when the step can be run. */
  ghost predicate HasInput(w: World, run: Run, p: PlannedStep, outputs: map<Str, Json>, input: Json) {
    && (p.spec.isFlow || w.listed(p.stepIndex))
    && Template.Resolve(p.spec.input, Template.Context(run.inputs, outputs)) == Success(input)
  }

  /** The agent answers, or the sub-flow is sealed and succeeded, with this output. */
  ghost predicate Gives(w: World, p: PlannedStep, input: Json, output: Json) {
    if p.spec.isFlow then w.child(p.stepIndex, input) == ChildSealed(output, true)
    else
      && !w.refuses(p.stepIndex, input)
      && w.invoke(p.stepIndex, input).Answered? && w.invoke(p.stepIndex, input).output == output
  }

  /** This binding is at least what was asked for; asking for none asks that there be one. */
  predicate Reaches(got: Binding, asked: Option<Binding>) {
    match asked
    case None => got != Absent
    case Some(Absent) => true
    case Some(Present) => got != Absent
    case Some(Attested) => got == Attested || got == Bound
    case Some(Bound) => got == Bound
  }

  /** Everything the step demands of an answer is established. */
  ghost predicate Established(w: World, p: PlannedStep, input: Json) {
    p.spec.isFlow ||
    var a := w.invoke(p.stepIndex, input);
    && a.Answered?
    && (p.spec.requireAttestation ==> a.attestation.Some? && Reaches(a.binding, p.spec.requireBinding))
    && (p.spec.requireSignedOutput ==> a.signature.Some? && a.signatureValid)
  }

  /** The digest of the attestation that came with the answer. */
  ghost predicate RefersTo(w: World, p: PlannedStep, input: Json, reference: Bytes32) {
    if p.spec.isFlow then reference == ZERO32
    else
      var a := w.invoke(p.stepIndex, input);
      reference == if a.Answered? && a.attestation.Some? then w.digest(a.attestation.value) else ZERO32
  }

  // ----- What is recorded of it -------------------------------------------------

  /** The trace of a step with no answer. */
  predicate Unanswered(t: Trace) {
    t.output == Object([]) && t.attestation.None? && t.signature.None? && t.hiredRuns == [] && t.errored
  }

  /** The trace of an answer has all that came with it. */
  ghost predicate Keeps(w: World, p: PlannedStep, input: Json, t: Trace) {
    && !t.errored
    && if p.spec.isFlow then t.attestation.None? && t.signature.None? && t.hiredRuns == []
       else
         var a := w.invoke(p.stepIndex, input);
         a.Answered? && t.attestation == a.attestation && t.signature == a.signature && t.hiredRuns == a.hiredRuns
  }

  /** Nothing was committed to. */
  ghost predicate CommitsNothing(o: Outcome, code: nat) {
    && o.receipt.status.Code() == code && o.trace.input == Object([]) && Unanswered(o.trace)
    && o.receipt.inputHash == ZERO32 && o.receipt.outputHash == ZERO32 && o.receipt.attestationRef == ZERO32
  }

  /** The input was committed to, and the step failed on it. */
  ghost predicate FailsOn(w: World, o: Outcome, input: Json) {
    && o.receipt.status.Code() == 1 && Unanswered(o.trace)
    && o.trace.input == input && o.receipt.inputHash == w.hash(input)
    && o.receipt.outputHash == ZERO32 && o.receipt.attestationRef == ZERO32
  }

  /** The answer was committed to: ok, or unattested when something demanded is missing. */
  ghost predicate Answers(w: World, p: PlannedStep, o: Outcome, input: Json, output: Json) {
    && o.receipt.status.Code() == (if Established(w, p, input) then 0 else 3)
    && o.trace.input == input && o.receipt.inputHash == w.hash(input)
    && o.trace.output == output && o.receipt.outputHash == w.hash(output)
    && RefersTo(w, p, input, o.receipt.attestationRef) && Keeps(w, p, input, o.trace)
  }

  ghost predicate Stamped(w: World, run: Run, p: PlannedStep, o: Outcome) {
    && o.receipt.flowId == run.flowId && o.receipt.runId == run.runId && o.receipt.agentId == p.spec.agent
    && o.receipt.stepIndex == p.stepIndex && o.receipt.traceRoot == w.store(o.trace)
    && o.receipt.startedAt == w.startedAt(p.stepIndex) && o.receipt.endedAt == w.endedAt(p.stepIndex)
    && o.trace.stepId == p.spec.id
  }

  /** What a step that is not held comes to. */
  ghost predicate Performs(w: World, run: Run, p: PlannedStep, outputs: map<Str, Json>, o: Outcome) {
    && (forall input :: HasInput(w, run, p, outputs, input) ==>
          && (forall output :: Gives(w, p, input, output) ==> Answers(w, p, o, input, output))
          && ((forall output :: !Gives(w, p, input, output)) ==> FailsOn(w, o, input)))
    && ((forall input :: !HasInput(w, run, p, outputs, input)) ==> CommitsNothing(o, 1))
  }

  /** The output of a step that is ok, if it is not null, is there to be read; nothing else is. */
  ghost predicate OutputsOfOk(completed: seq<Outcome>, outputs: map<Str, Json>) {
    forall id, v :: Holds(outputs, id, v) <==> exists o :: o in completed && Publishes(o, id, v)
  }

  ghost predicate Holds(outputs: map<Str, Json>, id: Str, v: Json) {
    id in outputs && outputs[id] == v
  }

  ghost predicate Publishes(o: Outcome, id: Str, v: Json) {
    o.step.spec.id == id && o.receipt.status.Code() == 0 && o.trace.output == v && v != Null
  }

  // ----- One step on its own --------------------------------------------------

  lemma Meets(p: PlannedStep, a: Invocation)
    requires a.Answered?
    ensures DecideStepStatus(StatusDecision(
        p.spec.requireAttestation, a.attestation.Some?, Some(a.binding), p.spec.requireBinding,
        p.spec.requireSignedOutput, a.signature.Some? && a.signatureValid, false, false)) ==
      if (p.spec.requireAttestation ==> a.attestation.Some? && Reaches(a.binding, p.spec.requireBinding))
         && (p.spec.requireSignedOutput ==> a.signature.Some? && a.signatureValid) then Ok else Unattested
  {
  }

  lemma AgentMeans(w: World, run: Run, p: PlannedStep, input: Json)
    requires !p.spec.isFlow
    ensures var o := RunAgent(w, run, p, input);
      && (forall output :: Gives(w, p, input, output) ==> Answers(w, p, o, input, output))
      && ((forall output :: !Gives(w, p, input, output)) ==> FailsOn(w, o, input))
  {
    var a := w.invoke(p.stepIndex, input);
    if a.Answered? {
      Meets(p, a);
      if !w.refuses(p.stepIndex, input) { assert Gives(w, p, input, a.output); }
    }
  }

  lemma SubFlowMeans(w: World, run: Run, p: PlannedStep, input: Json)
    requires p.spec.isFlow
    ensures var o := RunSubFlow(w, run, p, input);
      && (forall output :: Gives(w, p, input, output) ==> Answers(w, p, o, input, output))
      && ((forall output :: !Gives(w, p, input, output)) ==> FailsOn(w, o, input))
  {
    var child := w.child(p.stepIndex, input);
    if child.ChildSealed? && child.succeeded { assert Gives(w, p, input, child.output); }
  }

  ghost predicate Waits(w: World, p: PlannedStep, halted: bool, statuses: map<Str, Status>) {
    || (exists d :: d in p.dependsOn && d in statuses && statuses[d].Code() != 0)
    || halted || w.belowBar(p.stepIndex)
  }

  lemma StepMeans(w: World, run: Run, p: PlannedStep, halted: bool, outputs: map<Str, Json>, statuses: map<Str, Status>)
    ensures var o := RunStep(w, run, p, halted, outputs, statuses);
      if Waits(w, p, halted, statuses) then CommitsNothing(o, 2) else Performs(w, run, p, outputs, o)
  {
    assert Blocked(p, statuses) <==> exists d :: d in p.dependsOn && d in statuses && statuses[d].Code() != 0;
    if !Waits(w, p, halted, statuses) { PerformMeans(w, run, p, outputs, statuses); }
  }

  lemma PerformMeans(w: World, run: Run, p: PlannedStep, outputs: map<Str, Json>, statuses: map<Str, Status>)
    requires !Blocked(p, statuses) && !w.belowBar(p.stepIndex)
    ensures Performs(w, run, p, outputs, RunStep(w, run, p, false, outputs, statuses))
  {
    var resolved := Template.Resolve(p.spec.input, Template.Context(run.inputs, outputs));
    if resolved.Success? && (p.spec.isFlow || w.listed(p.stepIndex)) {
      assert HasInput(w, run, p, outputs, resolved.value);
      if p.spec.isFlow { SubFlowMeans(w, run, p, resolved.value); } else { AgentMeans(w, run, p, resolved.value); }
    }
  }

  lemma StepIsStamped(w: World, run: Run, p: PlannedStep, halted: bool,
                      outputs: map<Str, Json>, statuses: map<Str, Status>)
    ensures Stamped(w, run, p, RunStep(w, run, p, halted, outputs, statuses))
  {
  }

  lemma OutputMeans(w: World, run: Run, p: PlannedStep, halted: bool, outputs: map<Str, Json>, statuses: map<Str,
                    Status>)
    ensures var o := RunStep(w, run, p, halted, outputs, statuses);
      o.output == if o.receipt.status.Code() == 0 then o.trace.output else Null
  {
  }

  // ----- The maps a step saw and the maps in the end --------------------------------

  lemma {:induction false} InOrderBefore(steps: seq<PlannedStep>, waves: seq<Wave>, k: nat)
    requires InOrder(steps, waves) && k <= |waves|
    ensures InOrder(steps, waves[..k])
    ensures k < |waves| ==> MayRun(steps, waves[k], Covered(waves[..k]))
    decreases |waves|
  {
    if k == |waves| {
      assert waves[..k] == waves;
    } else if k < |waves| - 1 {
      InOrderBefore(steps, waves[..|waves| - 1], k);
      assert waves[..|waves| - 1][..k] == waves[..k];
    }
  }

  /** What a wave finds of the steps it depends on is what stays. */
  lemma DependencyStays(w: World, run: Run, failFast: bool, steps: seq<PlannedStep>, waves: seq<Wave>, l: nat,
                        s: PlannedStep)
    requires Plan.Sound(steps) && Schedule(steps, waves) && l <= |waves|
    requires s in steps && s.Id() in Covered(waves[..l])
    ensures var before, st := RunWaves(w, run, failFast, waves[..l]), RunWaves(w, run, failFast, waves);
      SameAt(before.outputs, st.outputs, s.Id()) && SameAt(before.statuses, st.statuses, s.Id())
  {
    var before, st := RunWaves(w, run, failFast, waves[..l]), RunWaves(w, run, failFast, waves);
    InOrderBefore(steps, waves, l);
    RunKeeps(w, run, failFast, steps, waves[..l]);
    RunKeeps(w, run, failFast, steps, waves);
    assert Completed(before, s);
    var o :| o in before.completed && o.step == s;
    CompletedStays(w, run, failFast, waves, l, |waves|, o);
    assert waves[..|waves|] == waves;
    assert Recorded(before, o) && Recorded(st, o);
  }

  /** A step of wave l ran as it would on the final maps, halted as the run was then. */
  lemma RanOnFinal(w: World, run: Run, failFast: bool, steps: seq<PlannedStep>, waves: seq<Wave>, l: nat, i: nat)
      returns (o: Outcome)
    requires Plan.Sound(steps) && Schedule(steps, waves)
    requires l < |waves| && i < |steps| && steps[i] in waves[l]
    ensures var st := RunWaves(w, run, failFast, waves);
      && |Sealed(st)| == |steps| && Sealed(st)[i] == o.receipt && o in st.completed && o.step == steps[i]
      && o == RunStep(w, run, steps[i], RunWaves(w, run, failFast, waves[..l]).halted, st.outputs, st.statuses)
    ensures o in Settle(w, run, waves[l], RunWaves(w, run, failFast, waves[..l]))
  {
    var before, st := RunWaves(w, run, failFast, waves[..l]), RunWaves(w, run, failFast, waves);
    var p := steps[i];
    o := SettledStays(w, run, failFast, waves, l, p);
    var at := At(w, run, failFast, steps, waves, i);
    OneOutcome(w, run, failFast, steps, waves, o, at);
    SettledRan(w, run, waves[l], before, o);
    InOrderBefore(steps, waves, l);
    forall d | d in p.dependsOn
      ensures SameAt(before.outputs, st.outputs, d) && SameAt(before.statuses, st.statuses, d)
    {
      assert d in ToSet(p.dependsOn);
      DependencyStays(w, run, failFast, steps, waves, l, steps[IndexOf(steps, d)]);
    }
    StepFrame(w, run, p, before.halted, before.outputs, before.statuses, st.outputs, st.statuses);
  }

  lemma SettledRan(w: World, run: Run, wave: Wave, st: State, o: Outcome)
    requires o in Settle(w, run, wave, st)
    ensures o.step in wave && o == RunStep(w, run, o.step, st.halted, st.outputs, st.statuses)
  {
    var settled := Settle(w, run, wave, st);
    var a :| 0 <= a < |settled| && settled[a] == o;
    StepOfOutcome(w, run, wave[a], st.halted, st.outputs, st.statuses);
  }

  // ----- When a run is halted --------------------------------------------------

  ghost predicate WaveStops(w: World, run: Run, failFast: bool, waves: seq<Wave>, k: nat)
    requires k < |waves|
  {
    exists o :: o in Settle(w, run, waves[k], RunWaves(w, run, failFast, waves[..k])) && !o.receipt.status.Ok?
  }

  ghost predicate StopsWithin(w: World, run: Run, failFast: bool, waves: seq<Wave>, l: nat)
    requires l <= |waves|
  {
    exists k :: 0 <= k < l && WaveStops(w, run, failFast, waves, k)
  }

  /** A flag that each turn may raise and none lowers. */
  lemma {:induction false} RaisedExactly(flags: seq<bool>, raises: seq<bool>, l: nat)
    requires |flags| == |raises| + 1 && l <= |raises| && !flags[0]
    requires forall n :: 0 <= n < |raises| ==> flags[n + 1] == (flags[n] || raises[n])
    ensures flags[l] <==> exists k :: 0 <= k < l && raises[k]
  {
    if l > 0 { RaisedExactly(flags, raises, l - 1); }
  }

  function HaltedAt(w: World, run: Run, failFast: bool, waves: seq<Wave>, n: nat): bool
    requires n <= |waves|
  {
    RunWaves(w, run, failFast, waves[..n]).halted
  }

  lemma HaltedExactly(w: World, run: Run, failFast: bool, waves: seq<Wave>, l: nat)
    requires l <= |waves|
    ensures RunWaves(w, run, failFast, waves[..l]).halted <==> failFast && StopsWithin(w, run, failFast, waves, l)
  {
    var flags := seq(l + 1, n requires 0 <= n <= l => HaltedAt(w, run, failFast, waves, n));
    var raises := seq(l, n requires 0 <= n < l => failFast && WaveStops(w, run, failFast, waves, n));
    assert waves[..0] == [];
    forall n | 0 <= n < l ensures flags[n + 1] == (flags[n] || raises[n]) { HaltedNext(w, run, failFast, waves, n); }
    RaisedExactly(flags, raises, l);
    assert (exists k :: 0 <= k < l && raises[k]) <==> failFast && StopsWithin(w, run, failFast, waves, l) by {
      assert forall k :: 0 <= k < l ==> raises[k] == (failFast && WaveStops(w, run, failFast, waves, k));
    }
  }

  lemma HaltedNext(w: World, run: Run, failFast: bool, waves: seq<Wave>, n: nat)
    requires n < |waves|
    ensures RunWaves(w, run, failFast, waves[..n + 1]).halted <==>
      RunWaves(w, run, failFast, waves[..n]).halted || (failFast && WaveStops(w, run, failFast, waves, n))
  {
    assert waves[..n + 1][..n] == waves[..n];
    var before := RunWaves(w, run, failFast, waves[..n]);
    RecordAppends(before, Settle(w, run, waves[n], before));
  }

  lemma StopsExactly(w: World, run: Run, failFast: bool, steps: seq<PlannedStep>, waves: seq<Wave>, k: nat)
    requires Plan.Sound(steps) && Schedule(steps, waves) && k < |waves|
    ensures var rs := Sealed(RunWaves(w, run, failFast, waves));
      && |rs| == |steps|
      && (WaveStops(w, run, failFast, waves, k) <==>
            exists j :: 0 <= j < |steps| && steps[j] in waves[k] && rs[j].status.Code() != 0)
  {
    var rs, before := Sealed(RunWaves(w, run, failFast, waves)), RunWaves(w, run, failFast, waves[..k]);
    var first := At(w, run, failFast, steps, waves, 0);
    if WaveStops(w, run, failFast, waves, k) {
      var o :| o in Settle(w, run, waves[k], before) && !o.receipt.status.Ok?;
      SettledRan(w, run, waves[k], before, o);
      InOrderBefore(steps, waves, k);
      var j := PositionOf(steps, o.step);
      var same := RanOnFinal(w, run, failFast, steps, waves, k, j);
      SettledRan(w, run, waves[k], before, same);
    }
    if j :| 0 <= j < |steps| && steps[j] in waves[k] && rs[j].status.Code() != 0 {
      var o := RanOnFinal(w, run, failFast, steps, waves, k, j);
      assert o in Settle(w, run, waves[k], before) && !o.receipt.status.Ok?;
    }
  }

  // ----- Every step of a finished run ---------------------------------------------

  lemma HaltedIsSealed(w: World, run: Run, failFast: bool, steps: seq<PlannedStep>, waves: seq<Wave>, l: nat)
    requires Plan.Sound(steps) && Schedule(steps, waves) && l <= |waves|
    ensures var rs := Sealed(RunWaves(w, run, failFast, waves));
      && |rs| == |steps|
      && (RunWaves(w, run, failFast, waves[..l]).halted <==> failFast && StoppedBefore(steps, waves, rs, l))
  {
    var rs := Sealed(RunWaves(w, run, failFast, waves));
    var first := At(w, run, failFast, steps, waves, 0);
    HaltedExactly(w, run, failFast, waves, l);
    forall k | 0 <= k < l
      ensures WaveStops(w, run, failFast, waves, k) <==>
        exists j :: 0 <= j < |steps| && steps[j] in waves[k] && rs[j].status.Code() != 0
    {
      StopsExactly(w, run, failFast, steps, waves, k);
    }
  }

  lemma BlockedIsSealed(w: World, run: Run, failFast: bool, steps: seq<PlannedStep>, waves: seq<Wave>, i: nat)
    requires Plan.Sound(steps) && Schedule(steps, waves) && i < |steps|
    ensures var st := RunWaves(w, run, failFast, waves);
      && |Sealed(st)| == |steps|
      && ((exists d :: d in steps[i].dependsOn && d in st.statuses && st.statuses[d].Code() != 0) <==>
            BlockedBy(steps, Sealed(st), i))
  {
    var st := RunWaves(w, run, failFast, waves);
    var rs := Sealed(st);
    StatusesAreSealed(w, run, failFast, steps, waves);
    if j :| 0 <= j < |steps| && steps[j].Id() in steps[i].dependsOn && rs[j].status.Code() != 0 {
      assert st.statuses[steps[j].Id()].Code() != 0;
    }
    forall d | d in steps[i].dependsOn && d in st.statuses && st.statuses[d].Code() != 0
      ensures BlockedBy(steps, rs, i)
    {
      var j := IndexOf(steps, d);
      assert rs[j].status == st.statuses[steps[j].Id()];
    }
  }

  lemma WaitsExactly(w: World, run: Run, failFast: bool, steps: seq<PlannedStep>, waves: seq<Wave>, l: nat, i: nat)
    requires Plan.Sound(steps) && Schedule(steps, waves) && l < |waves| && i < |steps|
    ensures var st := RunWaves(w, run, failFast, waves);
      && |Sealed(st)| == |steps|
      && (Waits(w, steps[i], RunWaves(w, run, failFast, waves[..l]).halted, st.statuses) <==>
            Held(w, failFast, steps, waves, Sealed(st), l, i))
  {
    HaltedIsSealed(w, run, failFast, steps, waves, l);
    BlockedIsSealed(w, run, failFast, steps, waves, i);
  }

  lemma StatusesAreSealed(w: World, run: Run, failFast: bool, steps: seq<PlannedStep>, waves: seq<Wave>)
    requires Plan.Sound(steps) && Schedule(steps, waves)
    ensures var st := RunWaves(w, run, failFast, waves);
      && |Sealed(st)| == |steps|
      && forall j :: 0 <= j < |steps| ==>
        steps[j].Id() in st.statuses && st.statuses[steps[j].Id()] == Sealed(st)[j].status
  {
    var first := At(w, run, failFast, steps, waves, 0);
    var st := RunWaves(w, run, failFast, waves);
    forall j | 0 <= j < |steps|
      ensures steps[j].Id() in st.statuses && st.statuses[steps[j].Id()] == Sealed(st)[j].status
    {
      var o := At(w, run, failFast, steps, waves, j);
    }
  }

  /** The sealed receipt and the trace of every step of a finished run. A step
      is skipped (2) exactly when one it depends on is not ok, the run was
      halted by a wave before its own, or it is below the bar. Otherwise it
      fails (1) when it has no input or nothing is given for it, is unattested
      (3) when what was demanded of the answer is not established, and is ok
      (0) in every other case, with the hashes of that input and that answer. */
  lemma SealedStepMeans(w: World, run: Run, failFast: bool, steps: seq<PlannedStep>, waves: seq<Wave>, l: nat, i: nat)
      returns (o: Outcome)
    requires Plan.Sound(steps) && Schedule(steps, waves)
    requires l < |waves| && i < |steps| && steps[i] in waves[l]
    ensures var st := RunWaves(w, run, failFast, waves);
      && |Sealed(st)| == |steps| && Sealed(st)[i] == o.receipt && o in st.completed && o.step == steps[i]
      && Stamped(w, run, steps[i], o)
      && if Held(w, failFast, steps, waves, Sealed(st), l, i) then CommitsNothing(o, 2)
         else Performs(w, run, steps[i], st.outputs, o)
  {
    var st := RunWaves(w, run, failFast, waves);
    o := RanOnFinal(w, run, failFast, steps, waves, l, i);
    var halted := RunWaves(w, run, failFast, waves[..l]).halted;
    StepMeans(w, run, steps[i], halted, st.outputs, st.statuses);
    StepIsStamped(w, run, steps[i], halted, st.outputs, st.statuses);
    WaitsExactly(w, run, failFast, steps, waves, l, i);
  }

  /** In particular, when a step is ok. */
  lemma OkExactly(w: World, run: Run, failFast: bool, steps: seq<PlannedStep>, waves: seq<Wave>, l: nat, i: nat)
    requires Plan.Sound(steps) && Schedule(steps, waves)
    requires l < |waves| && i < |steps| && steps[i] in waves[l]
    ensures var st := RunWaves(w, run, failFast, waves);
      && |Sealed(st)| == |steps|
      && (Sealed(st)[i].status.Code() == 0 <==>
            && !Held(w, failFast, steps, waves, Sealed(st), l, i)
            && exists input, output ::
                 && HasInput(w, run, steps[i], st.outputs, input) && Gives(w, steps[i], input, output)
                 && Established(w, steps[i], input))
  {
    var o := SealedStepMeans(w, run, failFast, steps, waves, l, i);
  }

  /** What the steps below read in the end: the answers of the ok steps. */
  lemma OutputsAreOfOk(w: World, run: Run, failFast: bool, steps: seq<PlannedStep>, waves: seq<Wave>)
    requires Plan.Sound(steps) && Schedule(steps, waves)
    ensures var st := RunWaves(w, run, failFast, waves); OutputsOfOk(st.completed, st.outputs)
  {
    var st := RunWaves(w, run, failFast, waves);
    RunKeeps(w, run, failFast, steps, waves);
    forall o | o in st.completed ensures o.output == if o.receipt.status.Code() == 0 then o.trace.output else Null {
      OutputMeans(w, run, o.step, false, st.outputs, st.statuses);
      OutputMeans(w, run, o.step, true, st.outputs, st.statuses);
    }
    forall id, v | Holds(st.outputs, id, v) ensures exists o :: o in st.completed && Publishes(o, id, v)
    {
      var s := StepNamed(steps, id);
      assert Completed(st, s);
      var o :| o in st.completed && o.step == s;
      assert Recorded(st, o) && Publishes(o, id, v);
    }
    forall id, v, o | o in st.completed && Publishes(o, id, v) ensures Holds(st.outputs, id, v) {
      assert Recorded(st, o);
    }
  }

  lemma StepNamed(steps: seq<PlannedStep>, id: Str) returns (s: PlannedStep)
    requires id in IdsOf(steps)
    ensures s in steps && s.Id() == id
  {
    s :| s in steps && s.Id() == id;
  }
}
