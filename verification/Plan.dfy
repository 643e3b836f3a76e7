/** Planning: everything about a flow that is checked before it costs anything. */
module Plan {
  import opened Json
  import opened Results
  import opened Flow
  import Template
  import Tokens
  import Waves

  const MAX_PLAN_DEPTH: nat := 4

  datatype PlanError =
    | NoSteps
    | EmptyId
    | DuplicateId(id: Str)
    | BadTemplate(id: Str, reason: Template.TemplateError)
    | UndeclaredInput(id: Str, name: Str)
    | UnknownNeed(id: Str, upstream: Str)
    | UnknownRead(id: Str, upstream: Str)
    | UndeclaredRead(id: Str, upstream: Str)
    | NoFlowToRun(id: Str)
    | BadSubFlow(id: Str, inner: PlanError)
    | StrayFlow(id: Str)
    | TooDeep
    | BadOrder

  /** The first thing wrong with the ids, given those already seen. */
  function IdProblem(steps: seq<StepSpec>, seen: set<Str>): (problem: Option<PlanError>)
    ensures problem.None? <==>
      && (forall i :: 0 <= i < |steps| ==> steps[i].id != [] && steps[i].id !in seen)
      && (forall i, j :: 0 <= i < j < |steps| ==> steps[i].id != steps[j].id)
  {
    if steps == [] then None
    else if steps[0].id == [] then Some(EmptyId)
    else if steps[0].id in seen then Some(DuplicateId(steps[0].id))
    else
      var rest := IdProblem(steps[1..], seen + {steps[0].id});
      var tail := steps[1..];
      assert forall i :: 0 < i < |steps| ==> steps[i] in tail;
      assert forall i :: 0 <= i < |tail| ==> tail[i] == steps[i + 1];
      rest
  }

  function HasStep(steps: seq<StepSpec>, id: Str): bool {
    exists i | 0 <= i < |steps| :: steps[i].id == id
  }

  // ----- Which inputs a template mentions ---------------------------------

  function InputsInTokens(tokens: seq<Tokens.Token>): seq<Str> {
    if tokens == [] then []
    else
      var rest := InputsInTokens(tokens[1..]);
      match tokens[0]
      case Literal(_) => rest
      case Expr(e) =>
        var path := Template.SplitDots(Template.Trim(e));
        if |path| > 1 && path[0] == Template.INPUTS then [path[1]] + rest else rest
  }

  function ReferencedInputs(value: Json): seq<Str>
    decreases value, 1
  {
    match value
    case String(s) => InputsInTokens(Tokens.Scan(s, 0))
    case Array(items) => InputsInItems(items)
    case Object(fields) => InputsInFields(fields)
    case _ => []
  }

  function InputsInItems(items: seq<Json>): seq<Str>
    decreases items, 0
  {
    if items == [] then [] else ReferencedInputs(items[0]) + InputsInItems(items[1..])
  }

  function InputsInFields(fields: seq<Field>): seq<Str>
    decreases fields, 0
  {
    if fields == [] then [] else ReferencedInputs(fields[0].value) + InputsInFields(fields[1..])
  }

  // ----- One step ---------------------------------------------------------

  function FirstNotIn(ids: seq<Str>, known: Str -> bool): (missing: Option<Str>)
    ensures missing.None? <==> forall id :: id in ids ==> known(id)
    ensures missing.Some? ==> missing.value in ids && !known(missing.value)
  {
    if ids == [] then None
    else if !known(ids[0]) then Some(ids[0])
    else FirstNotIn(ids[1..], known)
  }

  /** The checks of the reads loop, in its order: known first, then declared. */
  function ReadProblem(spec: FlowSpec, step: StepSpec, readIds: seq<Str>): (problem: Option<PlanError>)
    ensures problem.None? <==> forall id :: id in readIds ==> HasStep(spec.steps, id) && id in step.needs
  {
    if readIds == [] then None
    else if !HasStep(spec.steps, readIds[0]) then Some(UnknownRead(step.id, readIds[0]))
    else if readIds[0] !in step.needs then Some(UndeclaredRead(step.id, readIds[0]))
    else ReadProblem(spec, step, readIds[1..])
  }

  /** A list with later repeats dropped, as spreading a Set gives it. */
  function Distinct(ids: seq<Str>): (d: seq<Str>)
    ensures forall id :: id in d <==> id in ids
  {
    if ids == [] then []
    else Template.Add(Distinct(ids[..|ids| - 1]), ids[|ids| - 1])
  }

  function PlanStep(spec: FlowSpec, i: nat, depth: nat): Result<PlannedStep, PlanError>
    requires i < |spec.steps| && depth <= MAX_PLAN_DEPTH
    decreases MAX_PLAN_DEPTH + 1 - depth, 0, |spec.steps| - i
  {
    var step := spec.steps[i];
    match Template.ReferencedSteps(step.input)
    case Failure(reason) => Failure(BadTemplate(step.id, reason))
    case Success(readIds) =>
      var undeclared := FirstNotIn(ReferencedInputs(step.input), name => name in spec.inputs);
      if undeclared.Some? then Failure(UndeclaredInput(step.id, undeclared.value)) else
      var unknown := FirstNotIn(step.needs, id => HasStep(spec.steps, id));
      if unknown.Some? then Failure(UnknownNeed(step.id, unknown.value)) else
      var unreadable := ReadProblem(spec, step, readIds);
      if unreadable.Some? then Failure(unreadable.value) else
      var planned := PlannedStep(step, i, readIds, Distinct(step.needs + readIds));
      if !step.isFlow then
        if step.flow.Some? then Failure(StrayFlow(step.id)) else Success(planned)
      else if step.flow.None? then Failure(NoFlowToRun(step.id))
      else
        match PlanInner(step.flow.value, depth + 1)
        case Failure(reason) => Failure(BadSubFlow(step.id, reason))
        case Success(_) => Success(planned)
  }

  function PlanSteps(spec: FlowSpec, i: nat, depth: nat): (planned: Result<seq<PlannedStep>, PlanError>)
    requires i <= |spec.steps| && depth <= MAX_PLAN_DEPTH
    ensures planned.Success? ==> |planned.value| == |spec.steps| - i
    ensures planned.Success? ==> forall k :: 0 <= k < |planned.value| ==>
      PlanStep(spec, i + k, depth) == Success(planned.value[k])
    decreases MAX_PLAN_DEPTH + 1 - depth, 1, |spec.steps| - i
  {
    if i == |spec.steps| then Success([])
    else
      var step :- PlanStep(spec, i, depth);
      var rest :- PlanSteps(spec, i + 1, depth);
      Success([step] + rest)
  }

  /** Planning a flow at a nesting depth. It terminates by depth alone, so even
      a spec that leads back to itself is refused rather than followed. */
  function PlanInner(spec: FlowSpec, depth: nat): Result<seq<PlannedStep>, PlanError>
    requires depth <= MAX_PLAN_DEPTH + 1
    decreases MAX_PLAN_DEPTH + 1 - depth, 2, 0
  {
    if depth > MAX_PLAN_DEPTH then Failure(TooDeep)
    else if spec.steps == [] then Failure(NoSteps)
    else
      var problem := IdProblem(spec.steps, {});
      if problem.Some? then Failure(problem.value) else
      var planned :- PlanSteps(spec, 0, depth);
      if DeclaredBefore(planned) then Success(planned) else Failure(BadOrder)
  }

  function PlanFlow(spec: FlowSpec): Result<seq<PlannedStep>, PlanError> {
    PlanInner(spec, 0)
  }

  // ----- What an accepted plan guarantees ---------------------------------

  /** What the executor and the verifier rely on in a plan. */
  ghost predicate Sound(steps: seq<PlannedStep>) {
    && steps != []
    && WellNumbered(steps)
    && DependenciesKnown(steps)
    && DeclaredBefore(steps)
    && forall i :: 0 <= i < |steps| ==> ReadsDeclared(steps[i])
  }

  ghost predicate ReadsDeclared(step: PlannedStep) {
    && Template.ReferencedSteps(step.spec.input) == Success(step.readsFrom)
    && (forall id :: id in step.readsFrom ==> id in step.spec.needs)
    && (forall id :: id in step.dependsOn <==> id in step.spec.needs)
  }

  lemma PlanStepFacts(spec: FlowSpec, i: nat, depth: nat)
    requires i < |spec.steps| && depth <= MAX_PLAN_DEPTH
    requires PlanStep(spec, i, depth).Success?
    ensures var p := PlanStep(spec, i, depth).value;
      && p.spec == spec.steps[i] && p.stepIndex == i && ReadsDeclared(p)
      && (forall id :: id in p.dependsOn ==> HasStep(spec.steps, id))
  {
  }

  lemma KnownIndex(steps: seq<PlannedStep>, specs: seq<StepSpec>, id: Str)
    requires |steps| == |specs| && forall k :: 0 <= k < |steps| ==> steps[k].spec == specs[k]
    requires HasStep(specs, id)
    ensures IndexOf(steps, id) < |steps|
  {
    var k :| 0 <= k < |specs| && specs[k].id == id;
    assert steps[k].Id() == id;
  }

  lemma AcceptedIsSound(spec: FlowSpec, depth: nat)
    requires depth <= MAX_PLAN_DEPTH + 1 && PlanInner(spec, depth).Success?
    ensures Sound(PlanInner(spec, depth).value)
    ensures |PlanInner(spec, depth).value| == |spec.steps|
    ensures forall i :: 0 <= i < |spec.steps| ==> PlanInner(spec, depth).value[i].spec == spec.steps[i]
  {
    var steps := PlanInner(spec, depth).value;
    assert PlanSteps(spec, 0, depth) == Success(steps);
    forall i | 0 <= i < |steps|
      ensures steps[i].spec == spec.steps[i] && steps[i].stepIndex == i && ReadsDeclared(steps[i])
      ensures forall id :: id in steps[i].dependsOn ==> HasStep(spec.steps, id)
    {
      assert PlanStep(spec, 0 + i, depth) == Success(steps[i]);
      PlanStepFacts(spec, i, depth);
    }
    forall i, d | 0 <= i < |steps| && d in steps[i].dependsOn ensures IndexOf(steps, d) < |steps| {
      KnownIndex(steps, spec.steps, d);
    }
  }

  /** `planFlow`: the plan, then its waves. The waves exist whenever the plan
      is accepted, and they are its levels. */
  method PlanAndLevel(spec: FlowSpec)
      returns (planned: Result<seq<PlannedStep>, PlanError>, waves: seq<Waves.Wave>)
    ensures planned == PlanFlow(spec)
    ensures planned.Success? ==> Sound(planned.value) && Waves.AreLevels(planned.value, waves)
    ensures planned.Success? ==> waves == Waves.Levels(planned.value)
  {
    waves := [];
    var problem := IdProblem(spec.steps, {});
    if spec.steps == [] {
      return Failure(NoSteps), waves;
    }
    if problem.Some? {
      return Failure(problem.value), waves;
    }
    planned := PlanSteps(spec, 0, 0);
    if planned.Success? {
      PlannedIsNumbered(spec, planned.value);
      var levelled := Waves.BuildWaves(planned.value);
      if levelled.Failure? {
        return Failure(BadOrder), waves;
      }
      AcceptedIsSound(spec, 0);
      waves := levelled.value;
    }
  }

  lemma PlannedIsNumbered(spec: FlowSpec, steps: seq<PlannedStep>)
    requires IdProblem(spec.steps, {}).None? && PlanSteps(spec, 0, 0) == Success(steps)
    ensures WellNumbered(steps) && DependenciesKnown(steps)
  {
    forall i | 0 <= i < |steps|
      ensures steps[i].spec == spec.steps[i] && steps[i].stepIndex == i
      ensures forall id :: id in steps[i].dependsOn ==> HasStep(spec.steps, id)
    {
      assert PlanStep(spec, 0 + i, 0) == Success(steps[i]);
      PlanStepFacts(spec, i, 0);
    }
    forall i, d | 0 <= i < |steps| && d in steps[i].dependsOn ensures IndexOf(steps, d) < |steps| {
      KnownIndex(steps, spec.steps, d);
    }
  }
}
