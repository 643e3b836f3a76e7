/** Kahn's algorithm by levels: which steps may run together. */
module Waves {
  import opened Json
  import opened Results
  import opened Flow

  datatype WaveError =
    | Cycle(stuck: seq<PlannedStep>)
    | NotDeclaredBefore(id: Str, upstream: Str)

  type Wave = seq<PlannedStep>

  // ----- What the waves should be -----------------------------------------

  function Max(a: nat, b: nat): nat {
    if a < b then b else a
  }

  /** How long the longest chain of dependencies below step i is. */
  function Level(steps: seq<PlannedStep>, i: nat): nat
    requires i < |steps|
    decreases i, |steps[i].dependsOn| + 1
  {
    LevelOver(steps, i, steps[i].dependsOn)
  }

  function LevelOver(steps: seq<PlannedStep>, i: nat, deps: seq<Str>): nat
    requires i < |steps| && |deps| <= |steps[i].dependsOn|
    decreases i, |deps|
  {
    if deps == [] then 0
    else
      var d := IndexOf(steps, deps[0]);
      Max(if d < i then 1 + Level(steps, d) else 0, LevelOver(steps, i, deps[1..]))
  }

  /** The steps of one level, in declaration order. */
  function AtLevel(steps: seq<PlannedStep>, level: nat, from: nat := 0): Wave
    requires from <= |steps|
    decreases |steps| - from
  {
    if from == |steps| then []
    else if Level(steps, from) == level then [steps[from]] + AtLevel(steps, level, from + 1)
    else AtLevel(steps, level, from + 1)
  }

  /** The waves are the levels, none of them empty and none left out. */
  ghost predicate AreLevels(steps: seq<PlannedStep>, waves: seq<Wave>) {
    && (forall w :: 0 <= w < |waves| ==> waves[w] == AtLevel(steps, w) && waves[w] != [])
    && (forall i :: 0 <= i < |steps| ==> Level(steps, i) < |waves|)
  }

  /** How many levels the first k steps have. */
  function Depth(steps: seq<PlannedStep>, k: nat): nat
    requires k <= |steps|
  {
    if k == 0 then 0 else Max(Depth(steps, k - 1), 1 + Level(steps, k - 1))
  }

  function Levels(steps: seq<PlannedStep>): (waves: seq<Wave>)
    ensures |waves| == Depth(steps, |steps|)
    ensures forall w :: 0 <= w < |waves| ==> waves[w] == AtLevel(steps, w)
  {
    seq(Depth(steps, |steps|), w requires 0 <= w < Depth(steps, |steps|) => AtLevel(steps, w))
  }

  lemma {:induction false} DepthBounds(steps: seq<PlannedStep>, k: nat, i: nat)
    requires i < k <= |steps|
    ensures Level(steps, i) < Depth(steps, k)
  {
    if i < k - 1 { DepthBounds(steps, k - 1, i); }
  }

  lemma {:induction false} DepthReached(steps: seq<PlannedStep>, k: nat) returns (i: nat)
    requires 0 < k <= |steps|
    ensures i < k && 1 + Level(steps, i) == Depth(steps, k)
  {
    i := k - 1;
    if k > 1 && 1 + Level(steps, i) != Depth(steps, k) {
      i := DepthReached(steps, k - 1);
    }
  }

  lemma {:induction false} LowerLevel(steps: seq<PlannedStep>, i: nat, level: nat) returns (j: nat)
    requires i < |steps| && level <= Level(steps, i)
    ensures j < |steps| && Level(steps, j) == level
    decreases i
  {
    j := i;
    if Level(steps, i) != level {
      var d := LevelOverReached(steps, i, steps[i].dependsOn);
      j := LowerLevel(steps, IndexOf(steps, d), level);
    }
  }

  lemma LevelsFill(steps: seq<PlannedStep>)
    ensures AreLevels(steps, Levels(steps))
  {
    forall w | 0 <= w < Depth(steps, |steps|) ensures AtLevel(steps, w) != [] {
      if steps != [] {
        var i := DepthReached(steps, |steps|);
        var j := LowerLevel(steps, i, w);
        AtLevelHas(steps, w, 0, steps[j]);
      }
    }
    forall i | 0 <= i < |steps| ensures Level(steps, i) < Depth(steps, |steps|) {
      DepthBounds(steps, |steps|, i);
    }
  }

  /** There is one way for waves to be the levels. */
  lemma LevelsAreUnique(steps: seq<PlannedStep>, waves: seq<Wave>)
    requires AreLevels(steps, waves)
    ensures waves == Levels(steps)
  {
    if steps != [] {
      var i := DepthReached(steps, |steps|);
      if Depth(steps, |steps|) < |waves| {
        var last := waves[|waves| - 1];
        AtLevelHas(steps, |waves| - 1, 0, last[0]);
        var j :| 0 <= j < |steps| && steps[j] == last[0] && Level(steps, j) == |waves| - 1;
        DepthBounds(steps, |steps|, j);
      }
    }
  }

  /** A chain of steps, each depending on the one before it. */
  ghost predicate Chain(steps: seq<PlannedStep>, chain: seq<nat>) {
    && |chain| > 0
    && (forall k :: 0 <= k < |chain| ==> chain[k] < |steps|)
    && (forall k {:trigger chain[k + 1]} :: 0 <= k < |chain| - 1 ==>
          steps[chain[k]].Id() in steps[chain[k + 1]].dependsOn)
  }

  lemma {:induction false} LevelOverBounds(steps: seq<PlannedStep>, i: nat, deps: seq<Str>, d: Str)
    requires i < |steps| && |deps| <= |steps[i].dependsOn|
    requires d in deps && IndexOf(steps, d) < i
    ensures Level(steps, IndexOf(steps, d)) < LevelOver(steps, i, deps)
  {
    if deps[0] != d { LevelOverBounds(steps, i, deps[1..], d); }
  }

  lemma {:induction false} LevelOverReached(steps: seq<PlannedStep>, i: nat, deps: seq<Str>)
      returns (d: Str)
    requires i < |steps| && |deps| <= |steps[i].dependsOn|
    requires LevelOver(steps, i, deps) > 0
    ensures d in deps && IndexOf(steps, d) < i
    ensures Level(steps, IndexOf(steps, d)) == LevelOver(steps, i, deps) - 1
  {
    d := deps[0];
    if !(IndexOf(steps, d) < i && 1 + Level(steps, IndexOf(steps, d)) == LevelOver(steps, i, deps)) {
      d := LevelOverReached(steps, i, deps[1..]);
    }
  }

  lemma ChainFront(steps: seq<PlannedStep>, chain: seq<nat>)
    requires Chain(steps, chain) && |chain| > 1
    ensures Chain(steps, chain[..|chain| - 1])
    ensures chain[..|chain| - 1][0] == chain[0] && chain[..|chain| - 1][|chain| - 2] == chain[|chain| - 2]
    ensures chain[|chain| - 2] < |steps| && chain[|chain| - 1] < |steps|
    ensures steps[chain[|chain| - 2]].Id() in steps[chain[|chain| - 1]].dependsOn
  {
    var front := chain[..|chain| - 1];
    assert forall k {:trigger front[k + 1]} :: 0 <= k < |front| - 1 ==>
      front[k] == chain[k] && front[k + 1] == chain[k + 1];
    var n := |chain| - 2;
    assert chain[n + 1] == chain[|chain| - 1];
  }

  /** No chain that ends at a step is longer than its level. */
  lemma {:induction false} ChainFitsLevel(steps: seq<PlannedStep>, chain: seq<nat>)
    requires WellNumbered(steps) && DeclaredBefore(steps) && Chain(steps, chain)
    ensures |chain| - 1 <= Level(steps, chain[|chain| - 1])
    decreases |chain|
  {
    if |chain| > 1 {
      var n := |chain| - 2;
      var front := chain[..|chain| - 1];
      ChainFront(steps, chain);
      ChainFitsLevel(steps, front);
      var id := steps[chain[n]].Id();
      assert id in steps[chain[n + 1]].dependsOn;
      IndexOfId(steps, chain[n]);
      LevelOverBounds(steps, chain[n + 1], steps[chain[n + 1]].dependsOn, id);
    }
  }

  /** Some chain that ends at a step is as long as its level. */
  lemma {:induction false} ChainOfLevel(steps: seq<PlannedStep>, i: nat) returns (chain: seq<nat>)
    requires WellNumbered(steps) && i < |steps|
    ensures Chain(steps, chain) && chain[|chain| - 1] == i && |chain| - 1 == Level(steps, i)
    decreases i
  {
    if Level(steps, i) == 0 {
      chain := [i];
    } else {
      var d := LevelOverReached(steps, i, steps[i].dependsOn);
      var front := ChainOfLevel(steps, IndexOf(steps, d));
      chain := front + [i];
    }
  }

  // ----- Membership of a level --------------------------------------------

  lemma {:induction false} AtLevelHas(steps: seq<PlannedStep>, level: nat, from: nat, s: PlannedStep)
    requires from <= |steps|
    ensures s in AtLevel(steps, level, from) <==>
      exists i :: from <= i < |steps| && steps[i] == s && Level(steps, i) == level
    decreases |steps| - from
  {
    if from < |steps| {
      AtLevelHas(steps, level, from + 1, s);
    }
  }

  /** The levels partition the steps: each is in the wave of its level, once,
      and in no other wave. */
  lemma WavesPartition(steps: seq<PlannedStep>, waves: seq<Wave>, i: nat)
    requires WellNumbered(steps) && AreLevels(steps, waves) && i < |steps|
    ensures forall w :: 0 <= w < |waves| ==> (steps[i] in waves[w] <==> w == Level(steps, i))
    ensures forall w, s :: 0 <= w < |waves| && s in waves[w] ==> s in steps
    ensures forall w, a, b :: 0 <= w < |waves| && 0 <= a < b < |waves[w]| ==>
      waves[w][a].stepIndex < waves[w][b].stepIndex
  {
    forall w | 0 <= w < |waves| ensures steps[i] in waves[w] <==> w == Level(steps, i) {
      AtLevelHas(steps, w, 0, steps[i]);
    }
    forall w, s | 0 <= w < |waves| && s in waves[w] ensures s in steps {
      AtLevelHas(steps, w, 0, s);
    }
    forall w, a, b | 0 <= w < |waves| && 0 <= a < b < |waves[w]|
      ensures waves[w][a].stepIndex < waves[w][b].stepIndex
    {
      AtLevelOrdered(steps, w, 0);
      assert waves[w] == AtLevel(steps, w, 0);
    }
  }

  lemma {:induction false} AtLevelOrdered(steps: seq<PlannedStep>, level: nat, from: nat)
    requires WellNumbered(steps) && from <= |steps|
    ensures Ordered(AtLevel(steps, level, from), from)
    decreases |steps| - from
  {
    if from < |steps| {
      AtLevelOrdered(steps, level, from + 1);
      var rest := AtLevel(steps, level, from + 1);
      assert Ordered(rest, from) && Ordered([steps[from]] + rest, from);
    }
  }

  ghost predicate Ordered(wave: Wave, from: nat) {
    && (forall a :: 0 <= a < |wave| ==> from <= wave[a].stepIndex)
    && (forall a, b :: 0 <= a < b < |wave| ==> wave[a].stepIndex < wave[b].stepIndex)
  }

  // ----- The algorithm ----------------------------------------------------

  function ToSet(ids: seq<Str>): set<Str> {
    set id | id in ids
  }

  function IdsOf(steps: seq<PlannedStep>): set<Str> {
    set s | s in steps :: s.Id()
  }

  lemma {:induction false} CountIds(steps: seq<PlannedStep>)
    requires forall i, j :: 0 <= i < j < |steps| ==> steps[i].Id() != steps[j].Id()
    ensures |IdsOf(steps)| == |steps|
  {
    if steps != [] {
      var front, last := steps[..|steps| - 1], steps[|steps| - 1];
      CountIds(front);
      assert steps == front + [last];
      assert IdsOf(steps) == IdsOf(front) + {last.Id()};
    }
  }

  /** The steps whose dependencies have all completed, in declaration order. */
  function Ready(steps: seq<PlannedStep>, done: set<Str>, remaining: map<Str, set<Str>>,
                 from: nat := 0): Wave
    requires from <= |steps|
    requires forall s :: s in steps ==> s.Id() in remaining
    decreases |steps| - from
  {
    if from == |steps| then []
    else
      var rest := Ready(steps, done, remaining, from + 1);
      if steps[from].Id() !in done && remaining[steps[from].Id()] == {} then [steps[from]] + rest
      else rest
  }

  lemma {:induction false} ReadyHas(steps: seq<PlannedStep>, done: set<Str>,
                                    remaining: map<Str, set<Str>>, from: nat, s: PlannedStep)
    requires from <= |steps|
    requires forall s :: s in steps ==> s.Id() in remaining
    ensures s in Ready(steps, done, remaining, from) <==>
      exists i :: from <= i < |steps| && steps[i] == s && s.Id() !in done && remaining[s.Id()] == {}
    decreases |steps| - from
  {
    if from < |steps| {
      ReadyHas(steps, done, remaining, from + 1, s);
      if steps[from] != s || s.Id() in done || remaining[s.Id()] != {} {
        assert s in Ready(steps, done, remaining, from) <==> s in Ready(steps, done, remaining, from + 1);
      }
    }
  }

  /** After a round, the completed ids are those of the lower levels. */
  ghost predicate DoneBelow(steps: seq<PlannedStep>, done: set<Str>, level: nat) {
    forall i :: 0 <= i < |steps| ==> (steps[i].Id() in done <==> Level(steps, i) < level)
  }

  /** What is left to wait for is what is not done. */
  ghost predicate Waiting(steps: seq<PlannedStep>, done: set<Str>, remaining: map<Str, set<Str>>) {
    && remaining.Keys == IdsOf(steps)
    && forall i :: 0 <= i < |steps| && steps[i].Id() !in done ==>
         steps[i].Id() in remaining &&
         remaining[steps[i].Id()] == ToSet(steps[i].dependsOn) - done
  }

  /** A step is ready exactly when its level is the next one. */
  lemma ReadyAtLevel(steps: seq<PlannedStep>, done: set<Str>, remaining: map<Str, set<Str>>,
                     level: nat, i: nat)
    requires WellNumbered(steps) && DeclaredBefore(steps) && i < |steps|
    requires DoneBelow(steps, done, level) && Waiting(steps, done, remaining)
    requires steps[i].Id() !in done
    ensures remaining[steps[i].Id()] == {} <==> Level(steps, i) == level
  {
    var deps := steps[i].dependsOn;
    if Level(steps, i) > level {
      var d := LevelOverReached(steps, i, deps);
      assert d in ToSet(deps) - done;
    }
    if remaining[steps[i].Id()] != {} {
      var d :| d in ToSet(deps) - done;
      LevelOverBounds(steps, i, deps, d);
    }
  }

  lemma {:induction false} ReadyIsLevel(steps: seq<PlannedStep>, done: set<Str>,
                                        remaining: map<Str, set<Str>>, level: nat, from: nat)
    requires WellNumbered(steps) && DeclaredBefore(steps) && from <= |steps|
    requires DoneBelow(steps, done, level) && Waiting(steps, done, remaining)
    ensures forall s :: s in steps ==> s.Id() in remaining
    ensures Ready(steps, done, remaining, from) == AtLevel(steps, level, from)
    decreases |steps| - from
  {
    if from < |steps| {
      ReadyIsLevel(steps, done, remaining, level, from + 1);
      if steps[from].Id() !in done { ReadyAtLevel(steps, done, remaining, level, from); }
    }
  }

  lemma AllDone(steps: seq<PlannedStep>, done: set<Str>)
    requires WellNumbered(steps) && done <= IdsOf(steps)
    ensures |done| < |steps| <==> exists i :: 0 <= i < |steps| && steps[i].Id() !in done
  {
    CountIds(steps);
    if exists i :: 0 <= i < |steps| && steps[i].Id() !in done {
      var i :| 0 <= i < |steps| && steps[i].Id() !in done;
      Proper(done, IdsOf(steps), steps[i].Id());
    } else {
      assert done == IdsOf(steps);
    }
  }

  lemma Proper(a: set<Str>, b: set<Str>, x: Str)
    requires a <= b && x in b && x !in a
    ensures |a| < |b|
  {
    var rest := b - a;
    assert b == a + rest && |rest| > 0;
  }

  /** One round: the ready wave completes and is crossed off. */
  method Complete(steps: seq<PlannedStep>, wave: Wave, done: set<Str>, remaining: map<Str, set<Str>>)
      returns (done': set<Str>, remaining': map<Str, set<Str>>)
    requires WellNumbered(steps) && Waiting(steps, done, remaining)
    ensures done' == done + IdsOf(wave)
    ensures Waiting(steps, done', remaining')
  {
    done' := done;
    for k := 0 to |wave|
      invariant done' == done + IdsOf(wave[..k])
    {
      assert wave[..k + 1] == wave[..k] + [wave[k]];
      done' := done' + {wave[k].Id()};
    }
    assert wave[..|wave|] == wave;
    remaining' := remaining;
    for k := 0 to |steps|
      invariant remaining'.Keys == IdsOf(steps)
      invariant forall i :: 0 <= i < |steps| && steps[i].Id() !in done' ==>
        remaining'[steps[i].Id()] ==
          ToSet(steps[i].dependsOn) - if i < k then done' else done
    {
      var id := steps[k].Id();
      if id !in done' {
        remaining' := remaining'[id := remaining'[id] - IdsOf(wave)];
      }
    }
  }

  /** The steps that wait on one another, none of which can ever start. */
  ghost predicate Stuck(steps: seq<PlannedStep>, stuck: seq<PlannedStep>) {
    && stuck != []
    && (forall s :: s in stuck ==> s in steps)
    && (forall s {:trigger WaitsOnOneOf(s, stuck)} :: s in stuck ==> WaitsOnOneOf(s, stuck))
  }

  ghost predicate WaitsOnOneOf(s: PlannedStep, others: seq<PlannedStep>) {
    exists t :: t in others && t.Id() in s.dependsOn
  }

  method BuildWaves(steps: seq<PlannedStep>) returns (result: Result<seq<Wave>, WaveError>)
    requires WellNumbered(steps) && DependenciesKnown(steps)
    ensures result.Success? <==> DeclaredBefore(steps)
    ensures result.Success? ==> AreLevels(steps, result.value) && result.value == Levels(steps)
    ensures result.Failure? && result.error.Cycle? ==> Stuck(steps, result.error.stuck)
    ensures result.Failure? && result.error.NotDeclaredBefore? ==> !exists stuck :: Stuck(steps, stuck)
    ensures result.Failure? && result.error.NotDeclaredBefore? ==>
      exists i, j :: FirstLate(steps, i, j) && result.error == NotDeclaredBefore(steps[i].Id(), steps[i].dependsOn[j])
  {
    result := Rounds(steps);
    if result.Success? {
      var late := CheckOrder(steps);
      if late.Some? {
        result := Failure(late.value);
      } else {
        LevelsAreUnique(steps, result.value);
      }
    }
  }

  /** The while loop: rounds until every step is done or none is ready. */
  method Rounds(steps: seq<PlannedStep>) returns (result: Result<seq<Wave>, WaveError>)
    requires WellNumbered(steps) && DependenciesKnown(steps)
    ensures result.Success? ==> !exists stuck :: Stuck(steps, stuck)
    ensures result.Success? && DeclaredBefore(steps) ==> AreLevels(steps, result.value)
    ensures result.Failure? ==>
      result.error.Cycle? && Stuck(steps, result.error.stuck) && !DeclaredBefore(steps)
  {
    var done: set<Str>, waves: seq<Wave> := {}, [];
    var remaining := Dependencies(steps);
    while |done| < |steps|
      invariant RoundState(steps, done, remaining, waves)
      decreases IdsOf(steps) - done
    {
      var wave := Ready(steps, done, remaining);
      if wave == [] {
        StuckWaits(steps, done, remaining);
        return Failure(Cycle(NotDone(steps, done)));
      }
      var done', remaining' := Complete(steps, wave, done, remaining);
      RoundAdvances(steps, done, remaining, waves, done', remaining');
      done, remaining, waves := done', remaining', waves + [wave];
    }
    RoundsEnd(steps, done, remaining, waves);
    return Success(waves);
  }

  ghost predicate RoundState(steps: seq<PlannedStep>, done: set<Str>, remaining: map<Str, set<Str>>,
                             waves: seq<Wave>) {
    && done <= IdsOf(steps) && Waiting(steps, done, remaining)
    && (forall s :: s in steps ==> s.Id() in remaining)
    && NeverStuck(steps, done)
    && (DeclaredBefore(steps) ==> LevelsSoFar(steps, done, waves))
  }

  lemma RoundAdvances(steps: seq<PlannedStep>, done: set<Str>, remaining: map<Str, set<Str>>,
                      waves: seq<Wave>, done': set<Str>, remaining': map<Str, set<Str>>)
    requires WellNumbered(steps) && RoundState(steps, done, remaining, waves)
    requires Ready(steps, done, remaining) != []
    requires done' == done + IdsOf(Ready(steps, done, remaining)) && Waiting(steps, done', remaining')
    ensures RoundState(steps, done', remaining', waves + [Ready(steps, done, remaining)])
    ensures IdsOf(steps) - done' < IdsOf(steps) - done
  {
    WaveProgress(steps, done, remaining, waves);
    var first := Ready(steps, done, remaining)[0];
    assert first.Id() in IdsOf(Ready(steps, done, remaining));
    assert first.Id() in IdsOf(steps) - done && first.Id() !in IdsOf(steps) - done';
  }

  lemma RoundsEnd(steps: seq<PlannedStep>, done: set<Str>, remaining: map<Str, set<Str>>,
                  waves: seq<Wave>)
    requires WellNumbered(steps) && RoundState(steps, done, remaining, waves) && |done| >= |steps|
    ensures !exists stuck :: Stuck(steps, stuck)
    ensures DeclaredBefore(steps) ==> AreLevels(steps, waves)
  {
    AllDone(steps, done);
    forall stuck ensures !Stuck(steps, stuck) {
      if stuck != [] { assert stuck[0] in stuck; }
    }
  }

  /** What each step waits for at first. */
  method Dependencies(steps: seq<PlannedStep>) returns (remaining: map<Str, set<Str>>)
    requires WellNumbered(steps)
    ensures RoundState(steps, {}, remaining, [])
  {
    remaining := map[];
    for k := 0 to |steps|
      invariant remaining.Keys == IdsOf(steps[..k])
      invariant forall i :: 0 <= i < k ==> remaining[steps[i].Id()] == ToSet(steps[i].dependsOn)
    {
      assert steps[..k + 1] == steps[..k] + [steps[k]];
      remaining := remaining[steps[k].Id() := ToSet(steps[k].dependsOn)];
    }
    assert steps[..|steps|] == steps;
  }

  /** Dependency j of step i is the first, step by step, not declared before its step. */
  ghost predicate FirstLate(steps: seq<PlannedStep>, i: int, j: int) {
    && 0 <= i < |steps| && 0 <= j < |steps[i].dependsOn|
    && IndexOf(steps, steps[i].dependsOn[j]) >= i
    && (forall k, d :: 0 <= k < i && d in steps[k].dependsOn ==> IndexOf(steps, d) < k)
    && (forall l :: 0 <= l < j ==> IndexOf(steps, steps[i].dependsOn[l]) < i)
  }

  /** The source's last loops: the first dependency not declared earlier. */
  method CheckOrder(steps: seq<PlannedStep>) returns (late: Option<WaveError>)
    requires WellNumbered(steps)
    ensures late.None? <==> DeclaredBefore(steps)
    ensures late.Some? ==>
      exists i, j :: FirstLate(steps, i, j) && late.value == NotDeclaredBefore(steps[i].Id(), steps[i].dependsOn[j])
  {
    for i := 0 to |steps|
      invariant forall k, d :: 0 <= k < i && d in steps[k].dependsOn ==> IndexOf(steps, d) < k
    {
      var deps := steps[i].dependsOn;
      for j := 0 to |deps|
        invariant forall k :: 0 <= k < j ==> IndexOf(steps, deps[k]) < i
      {
        if IndexOf(steps, deps[j]) >= steps[i].stepIndex {
          assert FirstLate(steps, i, j);
          return Some(NotDeclaredBefore(steps[i].Id(), deps[j]));
        }
      }
    }
    return None;
  }

  /** What has completed is clear of every stuck set. */
  ghost predicate NeverStuck(steps: seq<PlannedStep>, done: set<Str>) {
    forall stuck, s: PlannedStep :: Stuck(steps, stuck) && s in stuck ==> s.Id() !in done
  }

  ghost predicate LevelsSoFar(steps: seq<PlannedStep>, done: set<Str>, waves: seq<Wave>) {
    && DoneBelow(steps, done, |waves|)
    && forall w :: 0 <= w < |waves| ==> waves[w] == AtLevel(steps, w) && waves[w] != []
  }

  function NotDone(steps: seq<PlannedStep>, done: set<Str>): (stuck: seq<PlannedStep>)
    ensures forall s :: s in stuck <==> s in steps && s.Id() !in done
  {
    if steps == [] then []
    else if steps[0].Id() in done then NotDone(steps[1..], done)
    else [steps[0]] + NotDone(steps[1..], done)
  }

  /** When no step is ready, every waiting step waits on a waiting step. */
  lemma StuckWaits(steps: seq<PlannedStep>, done: set<Str>, remaining: map<Str, set<Str>>)
    requires WellNumbered(steps) && DependenciesKnown(steps) && Waiting(steps, done, remaining)
    requires forall s :: s in steps ==> s.Id() in remaining
    requires Ready(steps, done, remaining) == []
    requires done <= IdsOf(steps) && |done| < |steps|
    ensures Stuck(steps, NotDone(steps, done)) && !DeclaredBefore(steps)
  {
    var stuck := NotDone(steps, done);
    AllDone(steps, done);
    SomeNotDone(steps, done);
    forall s {:trigger WaitsOnOneOf(s, stuck)} | s in stuck ensures WaitsOnOneOf(s, stuck) {
      NotDoneWaits(steps, done, remaining, s);
    }
    StuckMeansLate(steps, stuck);
  }

  lemma SomeNotDone(steps: seq<PlannedStep>, done: set<Str>)
    requires exists i :: 0 <= i < |steps| && steps[i].Id() !in done
    ensures NotDone(steps, done) != []
  {
    var i :| 0 <= i < |steps| && steps[i].Id() !in done;
    assert steps[i] in NotDone(steps, done);
  }

  lemma NotDoneWaits(steps: seq<PlannedStep>, done: set<Str>, remaining: map<Str, set<Str>>,
                     s: PlannedStep)
    requires WellNumbered(steps) && DependenciesKnown(steps) && Waiting(steps, done, remaining)
    requires forall s :: s in steps ==> s.Id() in remaining
    requires Ready(steps, done, remaining) == []
    requires s in NotDone(steps, done)
    ensures WaitsOnOneOf(s, NotDone(steps, done))
  {
    var k := PositionOf(steps, s);
    WaitsOnUndone(steps, done, remaining, k);
  }

  lemma WaitsOnUndone(steps: seq<PlannedStep>, done: set<Str>, remaining: map<Str, set<Str>>, k: nat)
    requires WellNumbered(steps) && DependenciesKnown(steps) && Waiting(steps, done, remaining)
    requires forall s :: s in steps ==> s.Id() in remaining
    requires Ready(steps, done, remaining) == []
    requires k < |steps| && steps[k].Id() !in done
    ensures WaitsOnOneOf(steps[k], NotDone(steps, done))
  {
    ReadyHas(steps, done, remaining, 0, steps[k]);
    assert steps[k] !in Ready(steps, done, remaining, 0);
    var d :| d in remaining[steps[k].Id()];
    var t := steps[IndexOf(steps, d)];
    assert t in NotDone(steps, done) && t.Id() in steps[k].dependsOn;
  }

  /** Among stuck steps the earliest declared waits on a later one. */
  lemma StuckMeansLate(steps: seq<PlannedStep>, stuck: seq<PlannedStep>)
    requires WellNumbered(steps) && Stuck(steps, stuck)
    ensures !DeclaredBefore(steps)
  {
    if DeclaredBefore(steps) {
      StuckDescends(steps, stuck, stuck[0]);
    }
  }

  lemma {:induction false} StuckDescends(steps: seq<PlannedStep>, stuck: seq<PlannedStep>, s: PlannedStep)
    requires WellNumbered(steps) && DeclaredBefore(steps)
    requires Stuck(steps, stuck) && s in stuck
    ensures false
    decreases s.stepIndex
  {
    var t := WaitedOn(s, stuck);
    var i := PositionOf(steps, t);
    var j := PositionOf(steps, s);
    StuckDescends(steps, stuck, t);
  }

  lemma WaitedOn(s: PlannedStep, stuck: seq<PlannedStep>) returns (t: PlannedStep)
    requires WaitsOnOneOf(s, stuck)
    ensures t in stuck && t.Id() in s.dependsOn
  {
    t :| t in stuck && t.Id() in s.dependsOn;
  }

  lemma PositionOf(steps: seq<PlannedStep>, s: PlannedStep) returns (i: nat)
    requires WellNumbered(steps) && s in steps
    ensures i < |steps| && steps[i] == s && s.stepIndex == i && IndexOf(steps, s.Id()) == i
  {
    i :| 0 <= i < |steps| && steps[i] == s;
    IndexOfId(steps, i);
  }

  /** A wave holds only waiting steps that wait for nothing. */
  lemma WaveMembers(steps: seq<PlannedStep>, done: set<Str>, remaining: map<Str, set<Str>>)
    requires WellNumbered(steps) && Waiting(steps, done, remaining)
    ensures forall s :: s in steps ==> s.Id() in remaining
    ensures var wave := Ready(steps, done, remaining);
      && IdsOf(wave) <= IdsOf(steps) && IdsOf(wave) !! done
      && forall s :: s in wave ==> s in steps && ToSet(s.dependsOn) <= done
  {
    forall s | s in Ready(steps, done, remaining)
      ensures s in steps && s.Id() !in done && ToSet(s.dependsOn) <= done
    {
      ReadyHas(steps, done, remaining, 0, s);
      var i := PositionOf(steps, s);
      assert steps[i].Id() !in done && remaining[steps[i].Id()] == {};
      Subset(ToSet(s.dependsOn), done);
    }
  }

  lemma Subset(a: set<Str>, b: set<Str>)
    requires a - b == {}
    ensures a <= b
  {
    forall x | x in a ensures x in b {
      assert x !in a - b;
    }
  }

  /** Completing a non-empty wave keeps what the rounds maintain. */
  lemma WaveProgress(steps: seq<PlannedStep>, done: set<Str>, remaining: map<Str, set<Str>>,
                     waves: seq<Wave>)
    requires WellNumbered(steps) && RoundState(steps, done, remaining, waves)
    ensures var wave := Ready(steps, done, remaining);
      && IdsOf(wave) <= IdsOf(steps) && IdsOf(wave) !! done
      && NeverStuck(steps, done + IdsOf(wave))
      && (DeclaredBefore(steps) && LevelsSoFar(steps, done, waves) && wave != [] ==>
            LevelsSoFar(steps, done + IdsOf(wave), waves + [wave]))
  {
    var wave := Ready(steps, done, remaining);
    WaveMembers(steps, done, remaining);
    forall stuck, s: PlannedStep | Stuck(steps, stuck) && s in stuck ensures s.Id() !in IdsOf(wave) {
      WaveNotStuck(steps, done, wave, stuck, s);
    }
    if DeclaredBefore(steps) && LevelsSoFar(steps, done, waves) && wave != [] {
      ReadyIsLevel(steps, done, remaining, |waves|, 0);
      LevelCompletes(steps, done, |waves|);
    }
  }

  lemma WaveNotStuck(steps: seq<PlannedStep>, done: set<Str>, wave: Wave, stuck: seq<PlannedStep>,
                     s: PlannedStep)
    requires WellNumbered(steps) && NeverStuck(steps, done)
    requires forall s :: s in wave ==> s in steps && ToSet(s.dependsOn) <= done
    requires Stuck(steps, stuck) && s in stuck
    ensures s.Id() !in IdsOf(wave)
  {
    var t := WaitedOn(s, stuck);
    assert t.Id() in ToSet(s.dependsOn) && t.Id() !in done;
    var i := PositionOf(steps, s);
    forall u | u in wave ensures u.Id() != s.Id() {
      var j := PositionOf(steps, u);
    }
  }

  lemma LevelCompletes(steps: seq<PlannedStep>, done: set<Str>, level: nat)
    requires WellNumbered(steps) && DoneBelow(steps, done, level)
    ensures DoneBelow(steps, done + IdsOf(AtLevel(steps, level)), level + 1)
  {
    var wave := AtLevel(steps, level);
    forall i | 0 <= i < |steps|
      ensures steps[i].Id() in done + IdsOf(wave) <==> Level(steps, i) < level + 1
    {
      AtLevelHas(steps, level, 0, steps[i]);
      if steps[i].Id() in IdsOf(wave) {
        var s :| s in wave && s.Id() == steps[i].Id();
        AtLevelHas(steps, level, 0, s);
        IndexOfId(steps, i);
      }
    }
  }
}
