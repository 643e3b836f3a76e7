/** Runs that open runs: sub-flows, their lineage and their ids. */
module HireTree {
  import opened Json
  import opened Results
  import opened Flow
  import opened Receipts
  import opened Executor
  import opened Hex
  import ChainRoot
  import Plan
  import Waves

  const DEFAULT_MAX_DEPTH: nat := 4

  /** What stays the same through a whole tree of runs: the outside world as
      each run finds it, how flows and child runs are named, and the limits. */
  datatype Host = Host(
    world: Bytes32 -> World,
    flowIdOf: FlowSpec -> Bytes32,
    keccakText: Str -> Bytes32,
    failFast: bool,
    maxDepth: nat)

  const PREFIX: Str := Text("0gflow-subflow:")

  /** The text a child run's id is the hash of. */
  function ChildText(parent: Bytes32, step: nat): Str {
    PREFIX + ShowId(parent) + [58] + Digits(step)
  }

  function ChildId(host: Host, parent: Bytes32, step: nat): Bytes32 {
    host.keccakText(ChildText(parent, step))
  }

  lemma ChildTextInjective(p: Bytes32, i: nat, q: Bytes32, j: nat)
    requires ChildText(p, i) == ChildText(q, j)
    ensures p == q && i == j
  {
    var a, b := ChildText(p, i), ChildText(q, j);
    var n := |PREFIX|;
    assert a[n..n + 66] == ShowId(p) && b[n..n + 66] == ShowId(q);
    assert a[n + 67..] == Digits(i) && b[n + 67..] == Digits(j);
    IdRoundTrip(p);
    IdRoundTrip(q);
    DigitsInjective(i, j);
  }

  // ----- One run of the tree ----------------------------------------------

  datatype TreeResult =
    | Aborted
    | Completed(run: Run, steps: seq<PlannedStep>, st: State, chainRoot: Bytes32)

  /** The checks `executeRun` makes before it opens a run. */
  ghost predicate Opens(host: Host, spec: FlowSpec, lineage: seq<Bytes32>) {
    && Plan.PlanFlow(spec).Success?
    && |lineage| < host.maxDepth
    && host.flowIdOf(spec) !in lineage
  }

  const CHILD_RUN_ID: Str := Text("childRunId")
  const CHILD_FLOW_ID: Str := Text("childFlowId")
  const CHAIN_ROOT: Str := Text("chainRoot")
  const STEP_COUNT: Str := Text("stepCount")
  const OUTCOME: Str := Text("outcome")

  /** What a parent step publishes of the run it opened. */
  function ChildOutput(runId: Bytes32, flowId: Bytes32, chainRoot: Bytes32, count: nat, outcome: Status): Json {
    Object([
      Field(CHILD_RUN_ID, String(ShowId(runId))),
      Field(CHILD_FLOW_ID, String(ShowId(flowId))),
      Field(CHAIN_ROOT, String(ShowId(chainRoot))),
      Field(STEP_COUNT, Number(Finite(Digits(count)))),
      Field(OUTCOME, Number(Finite(Digits(outcome.Code()))))])
  }

  ghost function AsChild(result: TreeResult): Child {
    match result
    case Aborted => ChildThrew
    case Completed(run, steps, st, chainRoot) =>
      var receipts := Sealed(st);
      ChildSealed(ChildOutput(run.runId, run.flowId, chainRoot, |receipts|, SealedOutcome(receipts)),
                  SealedOutcome(receipts).Ok?)
  }

  ghost function Remaining(host: Host, lineage: seq<Bytes32>): nat {
    if |lineage| <= host.maxDepth then host.maxDepth - |lineage| else 0
  }

  /** Step i of this run, as a run of its own. */
  ghost function RunChild(host: Host, spec: FlowSpec, runId: Bytes32, lineage: seq<Bytes32>,
                          i: nat, input: Json): TreeResult
    requires Opens(host, spec, lineage)
    decreases Remaining(host, lineage), 0
  {
    if i < |spec.steps| && spec.steps[i].flow.Some? then
      ExecuteTree(host, spec.steps[i].flow.value, input, ChildId(host, runId, i),
                  lineage + [host.flowIdOf(spec)])
    else Aborted
  }

  /** The world as one run finds it, with its sub-flows opened by the executor. */
  ghost function WorldOf(host: Host, spec: FlowSpec, runId: Bytes32, lineage: seq<Bytes32>): World
    requires Opens(host, spec, lineage)
    decreases Remaining(host, lineage), 1
  {
    host.world(runId).(child := (i: nat, input: Json) =>
      AsChild(RunChild(host, spec, runId, lineage, i, input)))
  }

  ghost function FinalState(host: Host, spec: FlowSpec, inputs: Json, runId: Bytes32,
                            lineage: seq<Bytes32>): State
    requires Opens(host, spec, lineage)
    decreases Remaining(host, lineage), 2
  {
    RunWaves(WorldOf(host, spec, runId, lineage), Run(host.flowIdOf(spec), runId, inputs), host.failFast,
             Waves.Levels(Plan.PlanFlow(spec).value))
  }

  /** `executeRun` and every run it opens. It terminates because the lineage
      grows and is bounded, whatever the specs lead back to. */
  ghost function ExecuteTree(host: Host, spec: FlowSpec, inputs: Json, runId: Bytes32,
                             lineage: seq<Bytes32>): TreeResult
    decreases Remaining(host, lineage), 3
  {
    if !Opens(host, spec, lineage) then Aborted
    else
      var st := FinalState(host, spec, inputs, runId, lineage);
      var root := ChainRoot.RunRoot(host.world(runId).keccak, Sealed(st));
      if root.None? then Aborted
      else Completed(Run(host.flowIdOf(spec), runId, inputs), Plan.PlanFlow(spec).value, st, root.value)
  }

  // ----- The runs that were opened ----------------------------------------

  datatype Opening = Opening(path: seq<nat>, runId: Bytes32, lineage: seq<Bytes32>, flowId: Bytes32)

  /** A sub-flow step got as far as opening its run: its input is committed. */
  predicate Called(o: Outcome) {
    o.step.spec.isFlow && o.receipt.inputHash != ZERO32
  }

  /** Every run opened below and including this one, by the steps that lead to
      it. */
  ghost function Opened(host: Host, spec: FlowSpec, inputs: Json, runId: Bytes32, lineage: seq<Bytes32>)
      : set<Opening>
    decreases Remaining(host, lineage)
  {
    if !Opens(host, spec, lineage) then {}
    else
      {Opening([], runId, lineage, host.flowIdOf(spec))} +
      (set o, r | o in FinalState(host, spec, inputs, runId, lineage).completed && Called(o)
                  && r in OpenedBy(host, spec, runId, lineage, o)
                :: r.(path := [o.step.stepIndex] + r.path))
  }

  ghost function OpenedBy(host: Host, spec: FlowSpec, runId: Bytes32, lineage: seq<Bytes32>, o: Outcome)
      : set<Opening>
    requires Opens(host, spec, lineage)
    decreases Remaining(host, lineage), 0
  {
    if o.step.stepIndex < |spec.steps| && spec.steps[o.step.stepIndex].flow.Some? then
      Opened(host, spec.steps[o.step.stepIndex].flow.value, o.trace.input,
             ChildId(host, runId, o.step.stepIndex), lineage + [host.flowIdOf(spec)])
    else {}
  }

  /** The id of the run reached from `root` by opening these steps in turn. */
  function IdAt(host: Host, root: Bytes32, path: seq<nat>): Bytes32
    decreases |path|
  {
    if path == [] then root
    else ChildId(host, IdAt(host, root, path[..|path| - 1]), path[|path| - 1])
  }

  lemma {:induction false} IdBelow(host: Host, root: Bytes32, i: nat, path: seq<nat>)
    ensures IdAt(host, root, [i] + path) == IdAt(host, ChildId(host, root, i), path)
    decreases |path|
  {
    var whole := [i] + path;
    if path == [] {
      assert whole[..0] == [];
    } else {
      IdBelow(host, root, i, path[..|path| - 1]);
      assert whole[..|path|] == [i] + path[..|path| - 1];
    }
  }

  ghost predicate Distinct(ids: seq<Bytes32>) {
    forall a, b :: 0 <= a < b < |ids| ==> ids[a] != ids[b]
  }

  /** A run other than the first was opened by one of its steps. */
  lemma OpenedBelow(host: Host, spec: FlowSpec, inputs: Json, runId: Bytes32, lineage: seq<Bytes32>, r: Opening)
      returns (o: Outcome, below: Opening)
    requires r in Opened(host, spec, inputs, runId, lineage)
    requires r != Opening([], runId, lineage, host.flowIdOf(spec))
    ensures Opens(host, spec, lineage)
    ensures o.step.stepIndex < |spec.steps| && spec.steps[o.step.stepIndex].flow.Some?
    ensures below in Opened(host, spec.steps[o.step.stepIndex].flow.value, o.trace.input,
                            ChildId(host, runId, o.step.stepIndex), lineage + [host.flowIdOf(spec)])
    ensures r == below.(path := [o.step.stepIndex] + below.path)
  {
    o, below :| o in FinalState(host, spec, inputs, runId, lineage).completed && Called(o)
      && below in OpenedBy(host, spec, runId, lineage, o)
      && r == below.(path := [o.step.stepIndex] + below.path);
  }

  /** Every opened run is within the depth limit, names no flow of its lineage
      again, and has the id its path gives it. */
  lemma {:induction false} OpenedIsBounded(host: Host, spec: FlowSpec, inputs: Json, runId: Bytes32,
                                           lineage: seq<Bytes32>, r: Opening)
    requires r in Opened(host, spec, inputs, runId, lineage)
    requires Distinct(lineage)
    ensures |r.lineage| < host.maxDepth && |r.lineage| == |lineage| + |r.path|
    ensures Distinct(r.lineage + [r.flowId]) && lineage <= r.lineage
    ensures r.runId == IdAt(host, runId, r.path)
    decreases Remaining(host, lineage)
  {
    if r != Opening([], runId, lineage, host.flowIdOf(spec)) {
      var o, below := OpenedBelow(host, spec, inputs, runId, lineage, r);
      var i := o.step.stepIndex;
      LineageGrows(host, spec, lineage);
      OpenedIsBounded(host, spec.steps[i].flow.value, o.trace.input, ChildId(host, runId, i),
                      lineage + [host.flowIdOf(spec)], below);
      IdBelow(host, runId, i, below.path);
    }
  }

  lemma LineageGrows(host: Host, spec: FlowSpec, lineage: seq<Bytes32>)
    requires Opens(host, spec, lineage) && Distinct(lineage)
    ensures Distinct(lineage + [host.flowIdOf(spec)])
    ensures Remaining(host, lineage + [host.flowIdOf(spec)]) < Remaining(host, lineage)
  {
  }

  // ----- Run ids do not collide -------------------------------------------

  /** The texts hashed for the run at p[..a + 1] and for the one at q[..b + 1]
      differ, and hash alike. */
  ghost predicate IdCollision(host: Host, root: Bytes32, p: seq<nat>, a: nat, q: seq<nat>, b: nat) {
    && a < |p| && b < |q|
    && ChildText(IdAt(host, root, p[..a]), p[a]) != ChildText(IdAt(host, root, q[..b]), q[b])
    && ChildId(host, IdAt(host, root, p[..a]), p[a]) == ChildId(host, IdAt(host, root, q[..b]), q[b])
  }

  /** The root's id is also the id of a run on the way to this path's end. */
  ghost predicate RootReappears(host: Host, root: Bytes32, path: seq<nat>, a: nat) {
    0 < a <= |path| && IdAt(host, root, path[..a]) == root
  }

  /** The hash has failed on the ids along these two paths themselves. */
  ghost predicate HashFails(host: Host, root: Bytes32, p: seq<nat>, q: seq<nat>) {
    || (exists a: nat :: RootReappears(host, root, p, a))
    || (exists b: nat :: RootReappears(host, root, q, b))
    || (exists a: nat, b: nat :: IdCollision(host, root, p, a, q, b))
  }

  /** Runs at different places of the tree have different ids, unless the hash
      of two different texts on the way to them agrees or one of those ids is
      the root's own. */
  lemma {:induction false} IdsDistinct(host: Host, root: Bytes32, p: seq<nat>, q: seq<nat>)
    requires p != q && IdAt(host, root, p) == IdAt(host, root, q)
    ensures HashFails(host, root, p, q)
    decreases |p|
  {
    assert p[..|p|] == p && q[..|q|] == q;
    if p == [] {
      assert RootReappears(host, root, q, |q|);
    } else if q == [] {
      assert RootReappears(host, root, p, |p|);
    } else {
      var m, n := |p| - 1, |q| - 1;
      if ChildText(IdAt(host, root, p[..m]), p[m]) == ChildText(IdAt(host, root, q[..n]), q[n]) {
        ChildTextInjective(IdAt(host, root, p[..m]), p[m], IdAt(host, root, q[..n]), q[n]);
        assert p == p[..m] + [p[m]] && q == q[..n] + [q[n]];
        IdsDistinct(host, root, p[..m], q[..n]);
        FailsLonger(host, root, p, q);
      } else {
        assert IdCollision(host, root, p, m, q, n);
      }
    }
  }

  lemma FailsLonger(host: Host, root: Bytes32, p: seq<nat>, q: seq<nat>)
    requires p != [] && q != [] && HashFails(host, root, p[..|p| - 1], q[..|q| - 1])
    ensures HashFails(host, root, p, q)
  {
    var p', q' := p[..|p| - 1], q[..|q| - 1];
    if a: nat :| RootReappears(host, root, p', a) {
      assert p'[..a] == p[..a];
      assert RootReappears(host, root, p, a);
    } else if b: nat :| RootReappears(host, root, q', b) {
      assert q'[..b] == q[..b];
      assert RootReappears(host, root, q, b);
    } else {
      var a: nat, b: nat :| IdCollision(host, root, p', a, q', b);
      assert p'[..a] == p[..a] && q'[..b] == q[..b];
      assert IdCollision(host, root, p, a, q, b);
    }
  }

  /** The whole tree of a top-level run: at most maxDepth runs are nested, no
      flow appears twice on a lineage, and distinct places have distinct ids
      unless the hash fails on those very ids. */
  lemma HireTreeIsBounded(host: Host, spec: FlowSpec, inputs: Json, runId: Bytes32, r: Opening, s: Opening)
    requires r in Opened(host, spec, inputs, runId, []) && s in Opened(host, spec, inputs, runId, [])
    ensures |r.path| < host.maxDepth
    ensures Distinct(r.lineage + [r.flowId])
    ensures r.path != s.path && r.runId == s.runId ==> HashFails(host, runId, r.path, s.path)
  {
    OpenedIsBounded(host, spec, inputs, runId, [], r);
    OpenedIsBounded(host, spec, inputs, runId, [], s);
    if r.path != s.path && r.runId == s.runId {
      IdsDistinct(host, runId, r.path, s.path);
    }
  }

  // ----- How deep the planner looks ---------------------------------------

  /** How many flows are nested in a spec, itself included. */
  function Nesting(spec: FlowSpec): (n: nat)
    ensures n > 0
    decreases spec, 1
  {
    1 + NestingOf(spec.steps)
  }

  function NestingOf(steps: seq<StepSpec>): nat
    decreases steps, 0
  {
    if steps == [] then 0
    else
      var rest := NestingOf(steps[1..]);
      if steps[0].isFlow && steps[0].flow.Some? then Waves.Max(Nesting(steps[0].flow.value), rest)
      else rest
  }

  lemma {:induction false} NestingBounded(steps: seq<StepSpec>, bound: nat)
    requires forall i :: 0 <= i < |steps| && steps[i].isFlow && steps[i].flow.Some? ==>
      Nesting(steps[i].flow.value) <= bound
    ensures NestingOf(steps) <= bound
  {
    if steps != [] { NestingBounded(steps[1..], bound); }
  }

  /** The planner accepts at most five nested flows: one more than the executor
      will open. */
  lemma {:induction false} AcceptedNesting(spec: FlowSpec, depth: nat)
    requires depth <= Plan.MAX_PLAN_DEPTH + 1 && Plan.PlanInner(spec, depth).Success?
    ensures depth + Nesting(spec) <= Plan.MAX_PLAN_DEPTH + 1
    decreases Plan.MAX_PLAN_DEPTH + 1 - depth
  {
    var steps := Plan.PlanInner(spec, depth).value;
    var bound := Plan.MAX_PLAN_DEPTH - depth;
    forall i | 0 <= i < |spec.steps| && spec.steps[i].isFlow && spec.steps[i].flow.Some?
      ensures Nesting(spec.steps[i].flow.value) <= bound
    {
      assert Plan.PlanStep(spec, 0 + i, depth) == Success(steps[i]);
      AcceptedNesting(spec.steps[i].flow.value, depth + 1);
    }
    NestingBounded(spec.steps, bound);
  }

  /** n flows, each with one step that runs the next. */
  function Nested(n: nat): FlowSpec
    requires n > 0
  {
    var step := StepSpec(Text("s"), 0, Null, [], n > 1, if n > 1 then Some(Nested(n - 1)) else None,
                         false, None, false);
    FlowSpec(Digits(n), [], [step])
  }

  lemma {:induction false} NestedNesting(n: nat)
    requires n > 0
    ensures Nesting(Nested(n)) == n
  {
    if n > 1 {
      NestedNesting(n - 1);
    }
    assert Nested(n).steps[1..] == [];
    assert NestingOf(Nested(n).steps) == n - 1;
  }

  /** The bound is exact at every depth: a chain of flows is accepted if and
      only if it fits. */
  lemma {:induction false} NestedAccepted(n: nat, depth: nat)
    requires n > 0 && depth <= Plan.MAX_PLAN_DEPTH + 1
    ensures Plan.PlanInner(Nested(n), depth).Success? <==> depth + n <= Plan.MAX_PLAN_DEPTH + 1
    decreases n
  {
    if depth <= Plan.MAX_PLAN_DEPTH {
      var spec := Nested(n);
      assert spec.steps[0].id != [];
      assert Plan.ReferencedInputs(Null) == [];
      if n > 1 { NestedAccepted(n - 1, depth + 1); }
      var step := Plan.PlanStep(spec, 0, depth);
      assert step.Success? <==> depth + n <= Plan.MAX_PLAN_DEPTH + 1;
      assert Plan.PlanSteps(spec, 1, depth) == Success([]);
    }
  }

  // ----- Which flows the executor follows -----------------------------------

  /** The flow nested in a spec at the end of these steps. */
  function SpecAt(spec: FlowSpec, path: seq<nat>): Option<FlowSpec>
    decreases |path|
  {
    if path == [] then Some(spec)
    else if path[0] < |spec.steps| && spec.steps[path[0]].isFlow && spec.steps[path[0]].flow.Some? then
      SpecAt(spec.steps[path[0]].flow.value, path[1..])
    else None
  }

  lemma {:induction false} NestingBelow(steps: seq<StepSpec>, i: nat)
    requires i < |steps| && steps[i].isFlow && steps[i].flow.Some?
    ensures Nesting(steps[i].flow.value) <= NestingOf(steps)
  {
    if i > 0 { NestingBelow(steps[1..], i - 1); }
  }

  /** Nothing in a spec lies deeper than its nesting says. */
  lemma {:induction false} SpecAtFits(spec: FlowSpec, path: seq<nat>)
    requires SpecAt(spec, path).Some?
    ensures |path| + Nesting(SpecAt(spec, path).value) <= Nesting(spec)
    decreases |path|
  {
    if path != [] {
      NestingBelow(spec.steps, path[0]);
      SpecAtFits(spec.steps[path[0]].flow.value, path[1..]);
    }
  }

  /** The step whose flow nests deepest. */
  lemma {:induction false} DeepestStep(steps: seq<StepSpec>) returns (i: nat)
    requires NestingOf(steps) > 0
    ensures i < |steps| && steps[i].isFlow && steps[i].flow.Some? && Nesting(steps[i].flow.value) == NestingOf(steps)
  {
    if steps[0].isFlow && steps[0].flow.Some? && Nesting(steps[0].flow.value) == NestingOf(steps) {
      i := 0;
    } else {
      i := DeepestStep(steps[1..]);
      i := i + 1;
    }
  }

  /** At every depth up to its nesting a spec has a flow. */
  lemma {:induction false} PathOfLength(spec: FlowSpec, n: nat) returns (path: seq<nat>)
    requires n < Nesting(spec)
    ensures |path| == n && SpecAt(spec, path).Some?
    decreases n
  {
    if n == 0 {
      path := [];
    } else {
      var i := DeepestStep(spec.steps);
      var rest := PathOfLength(spec.steps[i].flow.value, n - 1);
      path := [i] + rest;
    }
  }

  /** A plan accepted at some depth is accepted nearer the top. */
  lemma {:induction false} PlannedNearer(spec: FlowSpec, depth: nat, nearer: nat)
    requires nearer <= depth <= Plan.MAX_PLAN_DEPTH + 1 && Plan.PlanInner(spec, depth).Success?
    ensures Plan.PlanInner(spec, nearer) == Plan.PlanInner(spec, depth)
    decreases Plan.MAX_PLAN_DEPTH + 1 - depth, 1
  {
    StepsPlannedNearer(spec, 0, depth, nearer);
  }

  lemma {:induction false} StepsPlannedNearer(spec: FlowSpec, i: nat, depth: nat, nearer: nat)
    requires i <= |spec.steps| && nearer <= depth <= Plan.MAX_PLAN_DEPTH && Plan.PlanSteps(spec, i, depth).Success?
    ensures Plan.PlanSteps(spec, i, nearer) == Plan.PlanSteps(spec, i, depth)
    decreases Plan.MAX_PLAN_DEPTH + 1 - depth, 0, |spec.steps| - i
  {
    if i < |spec.steps| {
      StepsPlannedNearer(spec, i + 1, depth, nearer);
      StepPlannedNearer(spec, i, depth, nearer);
    }
  }

  lemma {:induction false} StepPlannedNearer(spec: FlowSpec, i: nat, depth: nat, nearer: nat)
    requires i < |spec.steps| && nearer <= depth <= Plan.MAX_PLAN_DEPTH && Plan.PlanStep(spec, i, depth).Success?
    ensures Plan.PlanStep(spec, i, nearer) == Plan.PlanStep(spec, i, depth)
    decreases Plan.MAX_PLAN_DEPTH + 1 - depth, 0, 0
  {
    SubFlowPlanned(spec, i, depth);
    if spec.steps[i].isFlow { PlannedNearer(spec.steps[i].flow.value, depth + 1, nearer + 1); }
  }

  /** An accepted step has a flow exactly when it runs one, and that flow is accepted too. */
  lemma SubFlowPlanned(spec: FlowSpec, i: nat, depth: nat)
    requires i < |spec.steps| && depth <= Plan.MAX_PLAN_DEPTH && Plan.PlanStep(spec, i, depth).Success?
    ensures spec.steps[i].isFlow <==> spec.steps[i].flow.Some?
    ensures spec.steps[i].isFlow ==> Plan.PlanInner(spec.steps[i].flow.value, depth + 1).Success?
  {
  }

  lemma SubFlowAccepted(spec: FlowSpec, i: nat)
    requires Plan.PlanFlow(spec).Success? && i < |spec.steps|
    ensures spec.steps[i].isFlow <==> spec.steps[i].flow.Some?
    ensures spec.steps[i].isFlow ==> Plan.PlanFlow(spec.steps[i].flow.value).Success?
  {
    var steps := Plan.PlanFlow(spec).value;
    assert Plan.PlanSteps(spec, 0, 0) == Success(steps);
    assert Plan.PlanStep(spec, 0 + i, 0) == Success(steps[i]);
    SubFlowPlanned(spec, i, 0);
    if spec.steps[i].isFlow { PlannedNearer(spec.steps[i].flow.value, 1, 0); }
  }

  /** Each run opened is a run of the flow nested at its path. */
  lemma {:induction false} OpenedRunsSpec(host: Host, spec: FlowSpec, inputs: Json, runId: Bytes32,
                                          lineage: seq<Bytes32>, r: Opening)
    requires r in Opened(host, spec, inputs, runId, lineage)
    ensures SpecAt(spec, r.path).Some? && Plan.PlanFlow(SpecAt(spec, r.path).value).Success?
    ensures r.flowId == host.flowIdOf(SpecAt(spec, r.path).value) && |r.lineage| == |lineage| + |r.path| < host.maxDepth
    decreases Remaining(host, lineage)
  {
    if r != Opening([], runId, lineage, host.flowIdOf(spec)) {
      var o, below := OpenedBelow(host, spec, inputs, runId, lineage, r);
      var i := o.step.stepIndex;
      SubFlowAccepted(spec, i);
      OpenedRunsSpec(host, spec.steps[i].flow.value, o.trace.input, ChildId(host, runId, i),
                     lineage + [host.flowIdOf(spec)], below);
      assert r.path[0] == i && r.path[1..] == below.path;
    }
  }

  /** Where the nesting fits below the lineage, a run that was opened has each
      of its sub-flows opened when it gets to it, unless that flow is on the
      lineage already: depth refuses none. */
  lemma FollowedWhenItFits(host: Host, spec: FlowSpec, inputs: Json, runId: Bytes32, lineage: seq<Bytes32>,
                           r: Opening, i: nat)
    requires r in Opened(host, spec, inputs, runId, lineage)
    requires |lineage| + Nesting(spec) <= host.maxDepth
    requires SpecAt(spec, r.path + [i]).Some?
    ensures var child := SpecAt(spec, r.path + [i]).value;
      Opens(host, child, r.lineage + [r.flowId]) <==> host.flowIdOf(child) !in r.lineage + [r.flowId]
  {
    OpenedRunsSpec(host, spec, inputs, runId, lineage, r);
    SpecAtFits(spec, r.path + [i]);
    SpecAtExtends(spec, r.path, i);
    SubFlowAccepted(SpecAt(spec, r.path).value, i);
  }

  lemma {:induction false} SpecAtExtends(spec: FlowSpec, path: seq<nat>, i: nat)
    requires SpecAt(spec, path + [i]).Some?
    ensures SpecAt(spec, path).Some?
    ensures var q := SpecAt(spec, path).value;
      i < |q.steps| && q.steps[i].isFlow && q.steps[i].flow == SpecAt(spec, path + [i])
    decreases |path|
  {
    var whole := path + [i];
    if path == [] {
      assert whole == [i] && whole[1..] == [];
    } else {
      assert whole[0] == path[0] && whole[1..] == path[1..] + [i];
      SpecAtExtends(spec.steps[path[0]].flow.value, path[1..], i);
    }
  }

  /** Where it does not fit, some nested flow is never opened, whatever the
      agents do: depth alone refuses it. */
  lemma TooDeepNeverOpened(host: Host, spec: FlowSpec, lineage: seq<Bytes32>) returns (path: seq<nat>)
    requires |lineage| + Nesting(spec) > host.maxDepth
    ensures SpecAt(spec, path).Some? && |lineage| + |path| >= host.maxDepth
    ensures forall inputs, runId, r :: r in Opened(host, spec, inputs, runId, lineage) ==> r.path != path
  {
    path := PathOfLength(spec, Remaining(host, lineage));
    forall inputs, runId, r | r in Opened(host, spec, inputs, runId, lineage) ensures r.path != path {
      OpenedRunsSpec(host, spec, inputs, runId, lineage, r);
    }
  }

  /** Depth refuses every run at this path. */
  ghost predicate NeverOpened(host: Host, spec: FlowSpec, lineage: seq<Bytes32>, path: seq<nat>) {
    && |lineage| + |path| >= host.maxDepth
    && forall inputs, runId, r :: r in Opened(host, spec, inputs, runId, lineage) ==> r.path != path
  }

  /** For every flow, lineage and limit: depth keeps some nested flow from ever
      being opened exactly when the nesting does not fit below the lineage. */
  lemma DepthRefusesExactly(host: Host, spec: FlowSpec, lineage: seq<Bytes32>)
    ensures (exists path :: SpecAt(spec, path).Some? && NeverOpened(host, spec, lineage, path)) <==>
      |lineage| + Nesting(spec) > host.maxDepth
  {
    if |lineage| + Nesting(spec) > host.maxDepth {
      var path := TooDeepNeverOpened(host, spec, lineage);
      assert NeverOpened(host, spec, lineage, path);
    }
    forall path | SpecAt(spec, path).Some? && NeverOpened(host, spec, lineage, path)
      ensures |lineage| + Nesting(spec) > host.maxDepth
    {
      SpecAtFits(spec, path);
    }
  }

  /** So with the default limits the planner and the executor part at one level:
      an accepted flow nests up to five flows, and is followed all the way
      down exactly when it nests at most four. */
  lemma PlannerLooksOneDeeper(host: Host, spec: FlowSpec)
    requires host.maxDepth == DEFAULT_MAX_DEPTH && Plan.PlanFlow(spec).Success?
    ensures Nesting(spec) <= 5 && Plan.PlanFlow(Nested(5)).Success? && Nesting(Nested(5)) == 5
    ensures (exists path :: SpecAt(spec, path).Some? && NeverOpened(host, spec, [], path)) <==> Nesting(spec) == 5
  {
    AcceptedNesting(spec, 0);
    NestedNesting(5);
    NestedAccepted(5, 0);
    DepthRefusesExactly(host, spec, []);
  }
}
