/** What holds of every run of an accepted plan, whatever the agents do. */
module RunTheorems {
  import opened Json
  import opened Flow
  import opened Receipts
  import opened Executor
  import opened Schedules
  import opened Waves
  import ChainRoot
  import Plan

  // ----- One receipt a step, in order -------------------------------------

  function StepsOf(completed: seq<Outcome>): (steps: seq<PlannedStep>)
    ensures |steps| == |completed|
    ensures forall k :: 0 <= k < |steps| ==> steps[k] == completed[k].step
  {
    seq(|completed|, k requires 0 <= k < |completed| => completed[k].step)
  }

  lemma AllCompleted(w: World, run: Run, failFast: bool, steps: seq<PlannedStep>, st: State)
    requires Plan.Sound(steps) && Kept(w, run, failFast, steps, st, IdsOf(steps))
    ensures |st.completed| == |steps|
  {
    DistinctIds(w, run, failFast, steps, st);
    CountIds(StepsOf(st.completed));
    CountIds(steps);
    SameIds(w, run, failFast, steps, st);
  }

  lemma DistinctIds(w: World, run: Run, failFast: bool, steps: seq<PlannedStep>, st: State)
    requires Plan.Sound(steps) && Kept(w, run, failFast, steps, st, IdsOf(steps))
    ensures var ran := StepsOf(st.completed);
      forall a, b :: 0 <= a < b < |ran| ==> ran[a].Id() != ran[b].Id()
  {
    var ran := StepsOf(st.completed);
    forall a, b | 0 <= a < b < |ran| ensures ran[a].Id() != ran[b].Id() {
      assert st.completed[a] in st.completed && st.completed[b] in st.completed;
      var i := PositionOf(steps, ran[a]);
      var j := PositionOf(steps, ran[b]);
    }
  }

  lemma SameIds(w: World, run: Run, failFast: bool, steps: seq<PlannedStep>, st: State)
    requires Plan.Sound(steps) && Kept(w, run, failFast, steps, st, IdsOf(steps))
    ensures IdsOf(StepsOf(st.completed)) == IdsOf(steps)
  {
    var ran := StepsOf(st.completed);
    forall s | s in ran ensures s in steps {
      var k :| 0 <= k < |ran| && ran[k] == s;
      assert st.completed[k] in st.completed;
    }
    forall s | s in steps ensures s in ran {
      assert Completed(st, s);
      var o :| o in st.completed && o.step == s;
      var k :| 0 <= k < |ran| && st.completed[k] == o;
      assert ran[k] == s;
    }
  }

  lemma OutcomeOf(w: World, run: Run, failFast: bool, steps: seq<PlannedStep>, st: State, i: nat)
      returns (o: Outcome)
    requires Plan.Sound(steps) && Kept(w, run, failFast, steps, st, IdsOf(steps))
    requires i < |steps|
    ensures o in st.completed && o.step == steps[i]
    ensures Numbered(run, steps[i], o.receipt, i) && o.trace.stepId == steps[i].Id()
    ensures Recorded(st, o) && Fixed(w, run, failFast, st, o)
  {
    assert steps[i].Id() in IdsOf(steps);
    assert Completed(st, steps[i]);
    o :| o in st.completed && o.step == steps[i];
    StepOfOutcome(w, run, o.step, false, st.outputs, st.statuses);
    StepOfOutcome(w, run, o.step, true, st.outputs, st.statuses);
  }

  lemma IndexOfReceipt(w: World, run: Run, failFast: bool, steps: seq<PlannedStep>, st: State, k: nat)
    requires Plan.Sound(steps) && Kept(w, run, failFast, steps, st, IdsOf(steps))
    requires k < |st.completed|
    ensures st.completed[k].receipt.stepIndex == st.completed[k].step.stepIndex < |steps|
    ensures steps[st.completed[k].step.stepIndex] == st.completed[k].step
  {
    var o := st.completed[k];
    assert o in st.completed;
    var i := PositionOf(steps, o.step);
    StepOfOutcome(w, run, o.step, false, st.outputs, st.statuses);
    StepOfOutcome(w, run, o.step, true, st.outputs, st.statuses);
  }

  /** Every outcome is that of a planned step. */
  lemma PlannedAt(w: World, run: Run, failFast: bool, steps: seq<PlannedStep>, waves: seq<Wave>, o: Outcome)
    returns (i: nat)
    requires Plan.Sound(steps) && Schedule(steps, waves) && o in RunWaves(w, run, failFast, waves).completed
    ensures i < |steps| && o.step == steps[i] && o.step.stepIndex == i
  {
    RunKeeps(w, run, failFast, steps, waves);
    i := PositionOf(steps, o.step);
  }

  lemma DistinctIndices(w: World, run: Run, failFast: bool, steps: seq<PlannedStep>, st: State)
    requires Plan.Sound(steps) && Kept(w, run, failFast, steps, st, IdsOf(steps))
    ensures ChainRoot.Contiguous(ReceiptsOf(st.completed))
  {
    var rs := ReceiptsOf(st.completed);
    AllCompleted(w, run, failFast, steps, st);
    forall a, b | 0 <= a < b < |rs| ensures rs[a].stepIndex != rs[b].stepIndex {
      IndexOfReceipt(w, run, failFast, steps, st, a);
      IndexOfReceipt(w, run, failFast, steps, st, b);
    }
    forall a | 0 <= a < |rs| ensures rs[a].stepIndex < |rs| {
      IndexOfReceipt(w, run, failFast, steps, st, a);
    }
  }

  /** Sealing puts the receipt of step i at place i. */
  lemma SealedAt(w: World, run: Run, failFast: bool, steps: seq<PlannedStep>, st: State, i: nat)
      returns (o: Outcome)
    requires Plan.Sound(steps) && Kept(w, run, failFast, steps, st, IdsOf(steps))
    requires i < |steps|
    ensures |Sealed(st)| == |steps|
    ensures o in st.completed && o.step == steps[i] && Sealed(st)[i] == o.receipt
    ensures Numbered(run, steps[i], o.receipt, i) && o.trace.stepId == steps[i].Id()
    ensures Recorded(st, o) && Fixed(w, run, failFast, st, o)
  {
    var rs := ReceiptsOf(st.completed);
    AllCompleted(w, run, failFast, steps, st);
    DistinctIndices(w, run, failFast, steps, st);
    ChainRoot.OrderedAt(rs, i);
    o := OutcomeOf(w, run, failFast, steps, st, i);
    var k :| 0 <= k < |st.completed| && st.completed[k] == o;
    assert rs[k] == o.receipt;
    ChainRoot.OneAtIndex(rs, o.receipt, Sealed(st)[i]);
  }

  /** The outcome of step i in a finished run, with its place in the seal. */
  lemma At(w: World, run: Run, failFast: bool, steps: seq<PlannedStep>, waves: seq<Wave>, i: nat)
      returns (o: Outcome)
    requires Plan.Sound(steps) && Schedule(steps, waves) && i < |steps|
    ensures var st := RunWaves(w, run, failFast, waves);
      && |Sealed(st)| == |steps| && Sealed(st)[i] == o.receipt
      && o in st.completed && o.step == steps[i]
      && Numbered(run, steps[i], o.receipt, i) && o.trace.stepId == steps[i].Id()
      && Recorded(st, o) && Fixed(w, run, failFast, st, o)
  {
    RunKeeps(w, run, failFast, steps, waves);
    o := SealedAt(w, run, failFast, steps, RunWaves(w, run, failFast, waves), i);
  }

  /** A step has one outcome. */
  lemma OneOutcome(w: World, run: Run, failFast: bool, steps: seq<PlannedStep>, waves: seq<Wave>,
                   o: Outcome, p: Outcome)
    requires Plan.Sound(steps) && Schedule(steps, waves)
    requires o in RunWaves(w, run, failFast, waves).completed && p in RunWaves(w, run, failFast, waves).completed
    requires o.step == p.step
    ensures o == p
  {
    RunKeeps(w, run, failFast, steps, waves);
    Unrepeated(RunWaves(w, run, failFast, waves).completed, o, p);
  }

  lemma Unrepeated(completed: seq<Outcome>, o: Outcome, p: Outcome)
    requires forall a, b :: 0 <= a < b < |completed| ==> completed[a].step != completed[b].step
    requires o in completed && p in completed && o.step == p.step
    ensures o == p
  {
    var a :| 0 <= a < |completed| && completed[a] == o;
    var b :| 0 <= b < |completed| && completed[b] == p;
  }

  /** Every step gets exactly one receipt, and they are numbered 0 .. n-1. */
  lemma OneReceiptPerStep(w: World, run: Run, failFast: bool, steps: seq<PlannedStep>, waves: seq<Wave>)
    requires Plan.Sound(steps) && Schedule(steps, waves)
    ensures |Sealed(RunWaves(w, run, failFast, waves))| == |steps|
    ensures forall i :: 0 <= i < |steps| ==>
      Numbered(run, steps[i], Sealed(RunWaves(w, run, failFast, waves))[i], i)
  {
    ReceiptAt(w, run, failFast, steps, waves, 0);
    forall i | 0 <= i < |steps|
      ensures Numbered(run, steps[i], Sealed(RunWaves(w, run, failFast, waves))[i], i)
    {
      ReceiptAt(w, run, failFast, steps, waves, i);
    }
  }

  lemma ReceiptAt(w: World, run: Run, failFast: bool, steps: seq<PlannedStep>, waves: seq<Wave>, i: nat)
    requires Plan.Sound(steps) && Schedule(steps, waves) && i < |steps|
    ensures |Sealed(RunWaves(w, run, failFast, waves))| == |steps|
    ensures Numbered(run, steps[i], Sealed(RunWaves(w, run, failFast, waves))[i], i)
  {
    var o := At(w, run, failFast, steps, waves, i);
  }

  // ----- Any schedule gives the same run ----------------------------------

  lemma {:induction false} OutcomesAgree(w: World, run: Run, steps: seq<PlannedStep>,
                                         st1: State, st2: State, i: nat, o1: Outcome, o2: Outcome)
    requires Plan.Sound(steps) && i < |steps|
    requires Kept(w, run, false, steps, st1, IdsOf(steps)) && Kept(w, run, false, steps, st2, IdsOf(steps))
    requires o1 in st1.completed && o2 in st2.completed && o1.step == o2.step == steps[i]
    ensures o1 == o2
    decreases i
  {
    forall d | d in steps[i].dependsOn
      ensures SameAt(st1.outputs, st2.outputs, d) && SameAt(st1.statuses, st2.statuses, d)
    {
      var j := IndexOf(steps, d);
      var p1 := OutcomeOf(w, run, false, steps, st1, j);
      var p2 := OutcomeOf(w, run, false, steps, st2, j);
      OutcomesAgree(w, run, steps, st1, st2, j, p1, p2);
    }
    StepFrame(w, run, steps[i], false, st1.outputs, st1.statuses, st2.outputs, st2.statuses);
  }

  lemma StepsAgree(w: World, run: Run, steps: seq<PlannedStep>, waves1: seq<Wave>, waves2: seq<Wave>, i: nat)
    requires Plan.Sound(steps) && Schedule(steps, waves1) && Schedule(steps, waves2) && i < |steps|
    ensures var st1, st2 := RunWaves(w, run, false, waves1), RunWaves(w, run, false, waves2);
      && |Sealed(st1)| == |Sealed(st2)| == |steps| && Sealed(st1)[i] == Sealed(st2)[i]
      && SameAt(st1.outputs, st2.outputs, steps[i].Id())
      && SameAt(st1.statuses, st2.statuses, steps[i].Id())
  {
    var o1 := At(w, run, false, steps, waves1, i);
    var o2 := At(w, run, false, steps, waves2, i);
    RunKeeps(w, run, false, steps, waves1);
    RunKeeps(w, run, false, steps, waves2);
    OutcomesAgree(w, run, steps, RunWaves(w, run, false, waves1), RunWaves(w, run, false, waves2), i, o1, o2);
  }

  lemma MapsCovered(w: World, run: Run, failFast: bool, steps: seq<PlannedStep>, waves: seq<Wave>)
    requires Plan.Sound(steps) && Schedule(steps, waves)
    ensures RunWaves(w, run, failFast, waves).outputs.Keys <= IdsOf(steps)
    ensures RunWaves(w, run, failFast, waves).statuses.Keys == IdsOf(steps)
  {
    RunKeeps(w, run, failFast, steps, waves);
  }

  /** Without failFast, every schedule — the planner's waves, one step at a time
      in declaration order, or the members of a wave in any order — leaves the
      same outputs and statuses and seals the same receipts. */
  lemma SchedulesAgree(w: World, run: Run, steps: seq<PlannedStep>, waves1: seq<Wave>, waves2: seq<Wave>)
    requires Plan.Sound(steps) && Schedule(steps, waves1) && Schedule(steps, waves2)
    ensures var st1, st2 := RunWaves(w, run, false, waves1), RunWaves(w, run, false, waves2);
      && Sealed(st1) == Sealed(st2)
      && st1.outputs == st2.outputs && st1.statuses == st2.statuses
  {
    StepsAgree(w, run, steps, waves1, waves2, 0);
    forall i | 0 <= i < |steps|
      ensures var st1, st2 := RunWaves(w, run, false, waves1), RunWaves(w, run, false, waves2);
        && Sealed(st1)[i] == Sealed(st2)[i]
        && SameAt(st1.outputs, st2.outputs, steps[i].Id())
        && SameAt(st1.statuses, st2.statuses, steps[i].Id())
    {
      StepsAgree(w, run, steps, waves1, waves2, i);
    }
    MapsCovered(w, run, false, steps, waves1);
    MapsCovered(w, run, false, steps, waves2);
    MapsAgree(steps, RunWaves(w, run, false, waves1).outputs, RunWaves(w, run, false, waves2).outputs);
    MapsAgree(steps, RunWaves(w, run, false, waves1).statuses, RunWaves(w, run, false, waves2).statuses);
  }

  lemma MapsAgree<V>(steps: seq<PlannedStep>, m1: map<Str, V>, m2: map<Str, V>)
    requires m1.Keys <= IdsOf(steps) && m2.Keys <= IdsOf(steps)
    requires forall i :: 0 <= i < |steps| ==> SameAt(m1, m2, steps[i].Id())
    ensures m1 == m2
  {
    forall id | id in IdsOf(steps) ensures SameAt(m1, m2, id) {
      var s :| s in steps && s.Id() == id;
      var i :| 0 <= i < |steps| && steps[i] == s;
    }
    assert m1.Keys == m2.Keys;
  }

  /** The planner's waves refine one-step-at-a-time interpretation. */
  lemma WavesRefineOneByOne(w: World, run: Run, steps: seq<PlannedStep>, waves: seq<Wave>)
    requires Plan.Sound(steps) && AreLevels(steps, waves)
    ensures Sealed(RunWaves(w, run, false, waves)) == Sealed(RunWaves(w, run, false, OneByOne(steps)))
  {
    LevelsAreSchedule(steps, waves);
    OneByOneIsSchedule(steps);
    SchedulesAgree(w, run, steps, waves, OneByOne(steps));
  }

  // ----- Safety -----------------------------------------------------------

  /** Step d is below step i: i needs it, directly or through others. */
  ghost predicate Below(steps: seq<PlannedStep>, d: nat, i: nat)
    requires d < |steps| && i < |steps|
  {
    exists chain :: Chain(steps, chain) && |chain| > 1 && chain[0] == d && chain[|chain| - 1] == i
  }

  ghost predicate OkIn(st: State, s: PlannedStep) {
    s.Id() in st.statuses && st.statuses[s.Id()].Ok?
  }

  /** Every dependency of a step that is ok is ok. */
  lemma OkOneDown(w: World, run: Run, failFast: bool, steps: seq<PlannedStep>, waves: seq<Wave>,
                  d: nat, i: nat)
    requires Plan.Sound(steps) && Schedule(steps, waves) && d < |steps| && i < |steps|
    requires steps[d].Id() in steps[i].dependsOn
    requires OkIn(RunWaves(w, run, failFast, waves), steps[i])
    ensures OkIn(RunWaves(w, run, failFast, waves), steps[d])
  {
    var st := RunWaves(w, run, failFast, waves);
    var o := At(w, run, failFast, steps, waves, i);
    OkNotBlocked(w, run, o.step, true, st.outputs, st.statuses);
    OkNotBlocked(w, run, o.step, false, st.outputs, st.statuses);
  }

  /** What is ok reaches down every link. */
  ghost predicate OkClosed(st: State, steps: seq<PlannedStep>) {
    forall d, i :: 0 <= d < |steps| && 0 <= i < |steps| && steps[d].Id() in steps[i].dependsOn ==>
      OkIn(st, steps[i]) ==> OkIn(st, steps[d])
  }

  lemma RunOkClosed(w: World, run: Run, failFast: bool, steps: seq<PlannedStep>, waves: seq<Wave>)
    requires Plan.Sound(steps) && Schedule(steps, waves)
    ensures OkClosed(RunWaves(w, run, failFast, waves), steps)
  {
    forall d, i | 0 <= d < |steps| && 0 <= i < |steps| && steps[d].Id() in steps[i].dependsOn
                  && OkIn(RunWaves(w, run, failFast, waves), steps[i])
      ensures OkIn(RunWaves(w, run, failFast, waves), steps[d])
    {
      OkOneDown(w, run, failFast, steps, waves, d, i);
    }
  }

  lemma {:induction false} OkDownChain(st: State, steps: seq<PlannedStep>, chain: seq<nat>)
    requires OkClosed(st, steps) && Chain(steps, chain) && OkIn(st, steps[chain[|chain| - 1]])
    ensures OkIn(st, steps[chain[0]])
    decreases |chain|
  {
    if |chain| > 1 {
      ChainFront(steps, chain);
      OkDownChain(st, steps, chain[..|chain| - 1]);
    }
  }

  lemma OkNotBlocked(w: World, run: Run, p: PlannedStep, halted: bool,
                     outputs: map<Str, Json>, statuses: map<Str, Status>)
    ensures RunStep(w, run, p, halted, outputs, statuses).receipt.status.Ok? ==>
      !halted && !Blocked(p, statuses)
  {
  }

  /** No step succeeds on a step that did not, at any depth. */
  lemma NoOkAboveNotOk(w: World, run: Run, failFast: bool, steps: seq<PlannedStep>, waves: seq<Wave>,
                       d: nat, i: nat)
    requires Plan.Sound(steps) && Schedule(steps, waves)
    requires d < |steps| && i < |steps| && Below(steps, d, i)
    ensures var rs := Sealed(RunWaves(w, run, failFast, waves));
      |rs| == |steps| && (rs[i].status.Ok? ==> rs[d].status.Ok?)
  {
    var oi := At(w, run, failFast, steps, waves, i);
    var od := At(w, run, failFast, steps, waves, d);
    if oi.receipt.status.Ok? {
      var chain :| Chain(steps, chain) && |chain| > 1 && chain[0] == d && chain[|chain| - 1] == i;
      RunOkClosed(w, run, failFast, steps, waves);
      OkDownChain(RunWaves(w, run, failFast, waves), steps, chain);
    }
  }

  /** Under failFast, everything after a wave that failed is skipped. */
  lemma {:induction false} FailFastSkips(w: World, run: Run, waves: seq<Wave>, k: nat)
    requires k <= |waves| && RunWaves(w, run, true, waves[..k]).halted
    ensures var st, done := RunWaves(w, run, true, waves), |RunWaves(w, run, true, waves[..k]).completed|;
      && st.halted && done <= |st.completed|
      && (forall a :: done <= a < |st.completed| ==> st.completed[a].receipt.status.Skipped?)
    decreases |waves|
  {
    if k == |waves| {
      assert waves[..k] == waves;
    } else {
      var front := waves[..|waves| - 1];
      assert front[..k] == waves[..k];
      FailFastSkips(w, run, front, k);
      var st := RunWaves(w, run, true, front);
      var settled := Settle(w, run, waves[|waves| - 1], st);
      RecordAppends(st, settled);
      forall o | o in settled ensures o.receipt.status.Skipped? {
        var a :| 0 <= a < |settled| && settled[a] == o;
      }
    }
  }

  lemma {:induction false} RecordAppends(st: State, settled: seq<Outcome>)
    ensures RecordAll(st, settled).completed == st.completed + settled
    ensures RecordAll(st, settled).halted == st.halted
  {
    if settled != [] {
      RecordAppends(st, settled[..|settled| - 1]);
      assert settled == settled[..|settled| - 1] + [settled[|settled| - 1]];
    }
  }

  /** A wave with a step that is not ok halts the run, when failFast is set. */
  lemma FailingWaveHalts(w: World, run: Run, waves: seq<Wave>, k: nat, o: Outcome)
    requires k < |waves|
    requires o in Settle(w, run, waves[k], RunWaves(w, run, true, waves[..k])) && !o.receipt.status.Ok?
    ensures RunWaves(w, run, true, waves[..k + 1]).halted
  {
    assert waves[..k + 1][..k] == waves[..k];
  }

  /** A wave appends what it settles, and never ends a halt. */
  lemma LastWave(w: World, run: Run, failFast: bool, waves: seq<Wave>, n: nat)
    requires n < |waves|
    ensures var before := RunWaves(w, run, failFast, waves[..n]);
      && RunWaves(w, run, failFast, waves[..n + 1]).completed == before.completed + Settle(w, run, waves[n], before)
      && (before.halted ==> RunWaves(w, run, failFast, waves[..n + 1]).halted)
  {
    assert waves[..n + 1][..n] == waves[..n];
    var before := RunWaves(w, run, failFast, waves[..n]);
    RecordAppends(before, Settle(w, run, waves[n], before));
  }

  lemma SettledIn(w: World, run: Run, wave: Wave, st: State, p: PlannedStep) returns (o: Outcome)
    requires p in wave
    ensures o.step == p && o in Settle(w, run, wave, st)
  {
    var settled := Settle(w, run, wave, st);
    var a :| 0 <= a < |wave| && wave[a] == p;
    o := settled[a];
    StepKept(w, run, p, st.halted, st.outputs, st.statuses);
  }

  lemma {:induction false} CompletedStays(w: World, run: Run, failFast: bool, waves: seq<Wave>, k: nat, l: nat,
                                          o: Outcome)
    requires k <= l <= |waves| && o in RunWaves(w, run, failFast, waves[..k]).completed
    ensures o in RunWaves(w, run, failFast, waves[..l]).completed
    decreases l
  {
    if k < l {
      CompletedStays(w, run, failFast, waves, k, l - 1, o);
      CompletedNext(w, run, failFast, waves, l - 1, o);
    }
  }

  lemma CompletedNext(w: World, run: Run, failFast: bool, waves: seq<Wave>, n: nat, o: Outcome)
    requires n < |waves| && o in RunWaves(w, run, failFast, waves[..n]).completed
    ensures o in RunWaves(w, run, failFast, waves[..n + 1]).completed
  {
    LastWave(w, run, failFast, waves, n);
  }

  /** Each step of a wave settles there, and that is how it completes. */
  lemma SettledStays(w: World, run: Run, failFast: bool, waves: seq<Wave>, k: nat, p: PlannedStep) returns (o: Outcome)
    requires k < |waves| && p in waves[k]
    ensures o.step == p && o in RunWaves(w, run, failFast, waves).completed
    ensures o in Settle(w, run, waves[k], RunWaves(w, run, failFast, waves[..k]))
  {
    o := SettledIn(w, run, waves[k], RunWaves(w, run, failFast, waves[..k]), p);
    LastWave(w, run, failFast, waves, k);
    CompletedStays(w, run, failFast, waves, k + 1, |waves|, o);
    assert waves[..|waves|] == waves;
  }

  lemma StepKept(w: World, run: Run, p: PlannedStep, halted: bool, outputs: map<Str, Json>, statuses: map<Str, Status>)
    ensures RunStep(w, run, p, halted, outputs, statuses).step == p
    ensures halted ==> RunStep(w, run, p, halted, outputs, statuses).receipt.status.Skipped?
  {
  }

  /** Once halted, a run stays so. */
  lemma {:induction false} StaysHalted(w: World, run: Run, failFast: bool, waves: seq<Wave>, k: nat, l: nat)
    requires k <= l <= |waves| && RunWaves(w, run, failFast, waves[..k]).halted
    ensures RunWaves(w, run, failFast, waves[..l]).halted
    decreases l
  {
    if k < l {
      StaysHalted(w, run, failFast, waves, k, l - 1);
      LastWave(w, run, failFast, waves, l - 1);
    }
  }

  /** Under failFast, what is sealed of a step in a wave after that of a step
      that is not ok is that it was skipped. */
  lemma FailFastSeals(w: World, run: Run, steps: seq<PlannedStep>, waves: seq<Wave>, k: nat, l: nat, i: nat, j: nat)
    requires Plan.Sound(steps) && Schedule(steps, waves)
    requires k < l < |waves| && i < |steps| && j < |steps| && steps[i] in waves[k] && steps[j] in waves[l]
    ensures var rs := Sealed(RunWaves(w, run, true, waves));
      |rs| == |steps| && (!rs[i].status.Ok? ==> rs[j].status.Skipped?)
  {
    var at := At(w, run, true, steps, waves, i);
    var after := At(w, run, true, steps, waves, j);
    var o := SettledStays(w, run, true, waves, k, steps[i]);
    var p := SettledStays(w, run, true, waves, l, steps[j]);
    OneOutcome(w, run, true, steps, waves, o, at);
    OneOutcome(w, run, true, steps, waves, p, after);
    if !o.receipt.status.Ok? {
      FailingWaveHalts(w, run, waves, k, o);
      StaysHalted(w, run, true, waves, k + 1, l);
      HaltedSkips(w, run, waves[l], RunWaves(w, run, true, waves[..l]), p);
    }
  }

  lemma HaltedSkips(w: World, run: Run, wave: Wave, st: State, o: Outcome)
    requires st.halted && o in Settle(w, run, wave, st)
    ensures o.receipt.status.Skipped?
  {
    var settled := Settle(w, run, wave, st);
    var a :| 0 <= a < |settled| && settled[a] == o;
    StepKept(w, run, wave[a], st.halted, st.outputs, st.statuses);
  }

  /** Step i is not ok, and every step before it is. */
  ghost predicate FirstFailure(rs: seq<Receipt>, i: nat) {
    i < |rs| && !rs[i].status.Ok? && forall j :: 0 <= j < i ==> rs[j].status.Ok?
  }

  /** The sealed outcome is 0 exactly when every step is ok; otherwise it is the
      status of the lowest-numbered step that is not. */
  lemma OutcomeIsFirstFailure(w: World, run: Run, failFast: bool, steps: seq<PlannedStep>, waves: seq<Wave>)
    requires Plan.Sound(steps) && Schedule(steps, waves)
    ensures var st := RunWaves(w, run, failFast, waves);
      && (SealedOutcome(Sealed(st)).Code() == 0 <==> forall i :: 0 <= i < |steps| ==> OkIn(st, steps[i]))
      && (SealedOutcome(Sealed(st)).Code() != 0 ==>
            exists i: nat :: FirstFailure(Sealed(st), i) && SealedOutcome(Sealed(st)) == Sealed(st)[i].status)
  {
    var st := RunWaves(w, run, failFast, waves);
    var rs := Sealed(st);
    OneReceiptPerStep(w, run, failFast, steps, waves);
    forall i | 0 <= i < |steps| ensures rs[i].status.Ok? <==> OkIn(st, steps[i]) {
      var o := At(w, run, failFast, steps, waves, i);
    }
    if FirstNotOk(rs) < |rs| {
      assert FirstFailure(rs, FirstNotOk(rs));
    }
  }
}
