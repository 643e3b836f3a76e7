/** Orders in which a flow's steps may be run, and what every such order keeps
    true of the executor's maps. */
module Schedules {
  import opened Json
  import opened Flow
  import opened Receipts
  import opened Executor
  import Plan
  import Template
  import opened Waves

  // ----- Schedules --------------------------------------------------------

  function Covered(waves: seq<Wave>): set<Str> {
    if waves == [] then {} else Covered(waves[..|waves| - 1]) + IdsOf(waves[|waves| - 1])
  }

  /** A wave that may run once the steps in `done` have completed. */
  ghost predicate MayRun(steps: seq<PlannedStep>, wave: Wave, done: set<Str>) {
    && (forall s :: s in wave ==> s in steps && s.Id() !in done && ToSet(s.dependsOn) <= done)
    && (forall a, b :: 0 <= a < b < |wave| ==> wave[a].Id() != wave[b].Id())
  }

  ghost predicate InOrder(steps: seq<PlannedStep>, waves: seq<Wave>) {
    waves == [] ||
    ( && InOrder(steps, waves[..|waves| - 1])
      && MayRun(steps, waves[|waves| - 1], Covered(waves[..|waves| - 1])))
  }

  /** Every step runs in some wave, once, after everything it depends on. */
  ghost predicate Schedule(steps: seq<PlannedStep>, waves: seq<Wave>) {
    InOrder(steps, waves) && Covered(waves) == IdsOf(steps)
  }

  /** One step at a time, in declaration order. */
  function OneByOne(steps: seq<PlannedStep>): (waves: seq<Wave>)
    ensures |waves| == |steps|
    ensures forall k :: 0 <= k < |steps| ==> waves[k] == [steps[k]]
  {
    seq(|steps|, k requires 0 <= k < |steps| => [steps[k]])
  }

  lemma {:induction false} OneByOneInOrder(steps: seq<PlannedStep>, k: nat)
    requires Plan.Sound(steps) && k <= |steps|
    ensures InOrder(steps, OneByOne(steps)[..k])
    ensures Covered(OneByOne(steps)[..k]) == IdsOf(steps[..k])
  {
    if k > 0 {
      var waves := OneByOne(steps);
      OneByOneInOrder(steps, k - 1);
      assert waves[..k][..k - 1] == waves[..k - 1];
      assert steps[..k] == steps[..k - 1] + [steps[k - 1]];
      NextMayRun(steps, k - 1);
    }
  }

  lemma NextMayRun(steps: seq<PlannedStep>, k: nat)
    requires Plan.Sound(steps) && k < |steps|
    ensures MayRun(steps, [steps[k]], IdsOf(steps[..k]))
  {
    forall d | d in steps[k].dependsOn ensures d in IdsOf(steps[..k]) {
      assert steps[IndexOf(steps, d)] in steps[..k];
    }
  }

  lemma OneByOneIsSchedule(steps: seq<PlannedStep>)
    requires Plan.Sound(steps)
    ensures Schedule(steps, OneByOne(steps))
  {
    OneByOneInOrder(steps, |steps|);
    assert OneByOne(steps)[..|steps|] == OneByOne(steps) && steps[..|steps|] == steps;
  }

  lemma {:induction false} LevelsInOrder(steps: seq<PlannedStep>, waves: seq<Wave>, k: nat)
    requires Plan.Sound(steps) && AreLevels(steps, waves) && k <= |waves|
    ensures InOrder(steps, waves[..k])
    ensures DoneBelow(steps, Covered(waves[..k]), k) && Covered(waves[..k]) <= IdsOf(steps)
  {
    if k > 0 {
      LevelsInOrder(steps, waves, k - 1);
      assert waves[..k][..k - 1] == waves[..k - 1];
      var done := Covered(waves[..k - 1]);
      LevelCompletes(steps, done, k - 1);
      LevelMayRun(steps, k - 1, done);
      assert waves[k - 1] == AtLevel(steps, k - 1);
    }
  }

  lemma LevelMayRun(steps: seq<PlannedStep>, level: nat, done: set<Str>)
    requires Plan.Sound(steps) && DoneBelow(steps, done, level)
    ensures MayRun(steps, AtLevel(steps, level), done)
    ensures IdsOf(AtLevel(steps, level)) <= IdsOf(steps)
  {
    var wave := AtLevel(steps, level);
    forall s | s in wave ensures s in steps && s.Id() !in done && ToSet(s.dependsOn) <= done {
      AtLevelHas(steps, level, 0, s);
      var i := PositionOf(steps, s);
      forall d | d in s.dependsOn ensures d in done {
        LevelOverBounds(steps, i, s.dependsOn, d);
      }
    }
    AtLevelOrdered(steps, level, 0);
    forall a, b | 0 <= a < b < |wave| ensures wave[a].Id() != wave[b].Id() {
      var i := PositionOf(steps, wave[a]);
      var j := PositionOf(steps, wave[b]);
    }
  }

  lemma LevelsAreSchedule(steps: seq<PlannedStep>, waves: seq<Wave>)
    requires Plan.Sound(steps) && AreLevels(steps, waves)
    ensures Schedule(steps, waves)
  {
    LevelsInOrder(steps, waves, |waves|);
    assert waves[..|waves|] == waves;
    forall s | s in steps ensures s.Id() in Covered(waves) {
      var i := PositionOf(steps, s);
    }
  }

  // ----- What a run keeps -------------------------------------------------

  /** The maps agree at an id. */
  ghost predicate SameAt<V>(m1: map<Str, V>, m2: map<Str, V>, id: Str) {
    (id in m1 <==> id in m2) && (id in m1 && id in m2 ==> m1[id] == m2[id])
  }

  /** A step sees only the entries of the steps it depends on. */
  lemma StepFrame(w: World, run: Run, p: PlannedStep, halted: bool,
                  o1: map<Str, Json>, s1: map<Str, Status>, o2: map<Str, Json>, s2: map<Str, Status>)
    requires Plan.ReadsDeclared(p)
    requires forall d :: d in p.dependsOn ==> SameAt(o1, o2, d) && SameAt(s1, s2, d)
    ensures RunStep(w, run, p, halted, o1, s1) == RunStep(w, run, p, halted, o2, s2)
  {
    assert Blocked(p, s1) <==> Blocked(p, s2);
    var c1, c2 := Template.Context(run.inputs, o1), Template.Context(run.inputs, o2);
    assert Template.Agree(c1, c2, p.readsFrom);
    Template.TemplateFrame(p.spec.input, c1, c2);
  }

  /** The maps hold what this outcome left in them. */
  ghost predicate Recorded(st: State, o: Outcome) {
    var id := o.step.Id();
    && id in st.statuses && st.statuses[id] == o.receipt.status
    && (id in st.outputs <==> o.output != Null)
    && (id in st.outputs ==> st.outputs[id] == o.output)
  }

  /** Running the step again on the maps as they now stand changes nothing. */
  ghost predicate Fixed(w: World, run: Run, failFast: bool, st: State, o: Outcome) {
    && (forall d :: d in o.step.dependsOn ==> d in st.statuses)
    && (o == RunStep(w, run, o.step, false, st.outputs, st.statuses) ||
        (failFast && o == RunStep(w, run, o.step, true, st.outputs, st.statuses)))
  }

  ghost predicate Kept(w: World, run: Run, failFast: bool, steps: seq<PlannedStep>, st: State,
                       done: set<Str>) {
    && st.statuses.Keys == done && st.outputs.Keys <= done
    && (forall o :: o in st.completed ==>
          o.step in steps && o.step.Id() in done && Recorded(st, o) && Fixed(w, run, failFast, st, o))
    && (forall a, b :: 0 <= a < b < |st.completed| ==> st.completed[a].step != st.completed[b].step)
    && (forall s :: s in steps && s.Id() in done ==> Completed(st, s))
  }

  ghost predicate Completed(st: State, s: PlannedStep) {
    exists o :: o in st.completed && o.step == s
  }

  /** Recording one more outcome of a step whose dependencies are all done. */
  lemma RecordKeeps(w: World, run: Run, failFast: bool, steps: seq<PlannedStep>, st: State,
                    done: set<Str>, o: Outcome)
    requires Plan.Sound(steps) && Kept(w, run, failFast, steps, st, done)
    requires o.step in steps && o.step.Id() !in done && ToSet(o.step.dependsOn) <= done
    requires Fixed(w, run, failFast, st, o)
    ensures Kept(w, run, failFast, steps, Record(st, o), done + {o.step.Id()})
  {
    var st' := Record(st, o);
    forall p | p in st'.completed
      ensures p.step in steps && Recorded(st', p) && Fixed(w, run, failFast, st', p)
      ensures p.step.Id() in done + {o.step.Id()}
    {
      if p != o { assert p in st.completed; }
      FixedFrame(w, run, failFast, steps, st, o, p);
    }
    forall s | s in steps && s.Id() in done + {o.step.Id()} ensures Completed(st', s) {
      var i := PositionOf(steps, s);
      var j := PositionOf(steps, o.step);
      if s.Id() in done {
        assert Completed(st, s);
        var p :| p in st.completed && p.step == s;
        assert p in st'.completed;
      } else {
        assert o in st'.completed;
      }
    }
  }

  lemma FixedFrame(w: World, run: Run, failFast: bool, steps: seq<PlannedStep>, st: State,
                   o: Outcome, p: Outcome)
    requires Plan.Sound(steps) && p.step in steps
    requires o.step.Id() !in st.statuses && o.step.Id() !in st.outputs
    requires Fixed(w, run, failFast, st, p)
    ensures Fixed(w, run, failFast, Record(st, o), p)
  {
    var st' := Record(st, o);
    var i := PositionOf(steps, p.step);
    assert Plan.ReadsDeclared(p.step);
    StepFrame(w, run, p.step, false, st.outputs, st.statuses, st'.outputs, st'.statuses);
    StepFrame(w, run, p.step, true, st.outputs, st.statuses, st'.outputs, st'.statuses);
  }

  /** The later maps hold what the earlier ones held of the steps in `done`. */
  ghost predicate Extends(st: State, st': State, done: set<Str>) {
    && st'.halted == st.halted
    && forall id :: id in done ==> SameAt(st.outputs, st'.outputs, id) && SameAt(st.statuses, st'.statuses, id)
  }

  /** A step that ran on the maps at the start of its wave is recorded in maps
      that its wave mates have since added to. */
  lemma WaveStep(w: World, run: Run, failFast: bool, steps: seq<PlannedStep>, st: State, st': State,
                 done: set<Str>, done': set<Str>, p: PlannedStep)
    requires Plan.Sound(steps) && Kept(w, run, failFast, steps, st', done') && done <= done'
    requires Extends(st, st', done) && (st.halted ==> failFast)
    requires p in steps && p.Id() !in done' && ToSet(p.dependsOn) <= done
    ensures var o := RunStep(w, run, p, st.halted, st.outputs, st.statuses);
      && Kept(w, run, failFast, steps, Record(st', o), done' + {p.Id()})
      && Extends(st, Record(st', o), done)
  {
    var o := RunStep(w, run, p, st.halted, st.outputs, st.statuses);
    StepOfOutcome(w, run, p, st.halted, st.outputs, st.statuses);
    var i := PositionOf(steps, p);
    assert forall d :: d in p.dependsOn ==> d in ToSet(p.dependsOn);
    StepFrame(w, run, p, st.halted, st.outputs, st.statuses, st'.outputs, st'.statuses);
    RecordKeeps(w, run, failFast, steps, st', done', o);
  }

  /** The first k outcomes of a wave, recorded in order. */
  lemma {:induction false} WaveKeeps(w: World, run: Run, failFast: bool, steps: seq<PlannedStep>,
                                     st: State, wave: Wave, done: set<Str>, k: nat)
    requires Plan.Sound(steps) && Kept(w, run, failFast, steps, st, done)
    requires st.halted ==> failFast
    requires MayRun(steps, wave, done) && k <= |wave|
    ensures var st' := RecordAll(st, Settle(w, run, wave, st)[..k]);
      && Kept(w, run, failFast, steps, st', done + IdsOf(wave[..k]))
      && Extends(st, st', done)
  {
    if k == 0 {
      assert done + IdsOf(wave[..0]) == done;
    } else {
      WaveKeeps(w, run, failFast, steps, st, wave, done, k - 1);
      WaveNext(w, run, failFast, steps, st, wave, done, k - 1);
    }
  }

  lemma RecordAllGrows(st: State, settled: seq<Outcome>, k: nat)
    requires k < |settled|
    ensures RecordAll(st, settled[..k + 1]) == Record(RecordAll(st, settled[..k]), settled[k])
  {
    assert settled[..k + 1][..k] == settled[..k];
  }

  lemma WaveNext(w: World, run: Run, failFast: bool, steps: seq<PlannedStep>,
                 st: State, wave: Wave, done: set<Str>, k: nat)
    requires Plan.Sound(steps) && (st.halted ==> failFast) && MayRun(steps, wave, done) && k < |wave|
    requires Kept(w, run, failFast, steps, RecordAll(st, Settle(w, run, wave, st)[..k]), done + IdsOf(wave[..k]))
    requires Extends(st, RecordAll(st, Settle(w, run, wave, st)[..k]), done)
    ensures var st' := RecordAll(st, Settle(w, run, wave, st)[..k + 1]);
      && Kept(w, run, failFast, steps, st', done + IdsOf(wave[..k + 1]))
      && Extends(st, st', done)
  {
    var settled := Settle(w, run, wave, st);
    WaveSplits(wave, done, k);
    RecordAllGrows(st, settled, k);
    WaveStep(w, run, failFast, steps, st, RecordAll(st, settled[..k]), done, done + IdsOf(wave[..k]), wave[k]);
  }

  lemma WaveSplits(wave: Wave, done: set<Str>, k: nat)
    requires k < |wave| && wave[k].Id() !in done
    requires forall a, b :: 0 <= a < b < |wave| ==> wave[a].Id() != wave[b].Id()
    ensures wave[k].Id() !in done + IdsOf(wave[..k])
    ensures done + IdsOf(wave[..k + 1]) == done + IdsOf(wave[..k]) + {wave[k].Id()}
  {
    assert wave[..k + 1] == wave[..k] + [wave[k]];
  }

  /** The receipt is numbered i and names this run and the step's agent. */
  ghost predicate Numbered(run: Run, step: PlannedStep, receipt: Receipt, i: nat) {
    && receipt.stepIndex == i && receipt.agentId == step.spec.agent
    && receipt.flowId == run.flowId && receipt.runId == run.runId
  }

  lemma StepOfOutcome(w: World, run: Run, p: PlannedStep, halted: bool,
                      outputs: map<Str, Json>, statuses: map<Str, Status>)
    ensures var o := RunStep(w, run, p, halted, outputs, statuses);
      o.step == p && Numbered(run, p, o.receipt, p.stepIndex) && o.trace.stepId == p.Id()
  {
  }

  lemma {:induction false} RunKeeps(w: World, run: Run, failFast: bool, steps: seq<PlannedStep>,
                                    waves: seq<Wave>)
    requires Plan.Sound(steps) && InOrder(steps, waves)
    ensures Kept(w, run, failFast, steps, RunWaves(w, run, failFast, waves), Covered(waves))
    ensures RunWaves(w, run, failFast, waves).halted ==> failFast
  {
    if waves != [] {
      var front, wave := waves[..|waves| - 1], waves[|waves| - 1];
      RunKeeps(w, run, failFast, steps, front);
      var st := RunWaves(w, run, failFast, front);
      WaveKeeps(w, run, failFast, steps, st, wave, Covered(front), |wave|);
      assert wave[..|wave|] == wave;
      var settled := Settle(w, run, wave, st);
      assert settled[..|wave|] == settled;
      HaltKeeps(w, run, failFast, steps, RecordAll(st, settled), Covered(waves), settled);
    }
  }

  lemma HaltKeeps(w: World, run: Run, failFast: bool, steps: seq<PlannedStep>, st: State,
                  done: set<Str>, settled: seq<Outcome>)
    requires Kept(w, run, failFast, steps, st, done)
    ensures Kept(w, run, failFast, steps, HaltAfter(st, failFast, settled), done)
  {
    var st' := HaltAfter(st, failFast, settled);
    forall s | s in steps && s.Id() in done ensures Completed(st', s) {
      assert Completed(st, s);
    }
    forall o | o in st'.completed ensures Recorded(st', o) && Fixed(w, run, failFast, st', o) {
      assert Recorded(st, o) && Fixed(w, run, failFast, st, o);
    }
  }
}
