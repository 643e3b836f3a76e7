/** Which flows are accepted: the condition an author can check. */
module PlanMeaning {
  import opened Json
  import opened Results
  import opened Tokens
  import opened Template
  import opened TemplateMeaning
  import opened Flow
  import opened Plan

  // ----- What a template refers to ----------------------------------------

  /** The reference is a path whose first two names are these. */
  ghost predicate RefersTo(expression: Str, root: Str, name: Str) {
    exists path :: Refers(expression, path) && path[0] == root && path[1] == name
  }

  ghost predicate TokenRefers(token: Token, root: Str, name: Str) {
    token.Expr? && RefersTo(token.expression, root, name)
  }

  /** Some reference in a string of the value is such a path. */
  ghost predicate Mentions(value: Json, root: Str, name: Str) {
    match value
    case String(s) => exists tokens, token :: IsReading(s, tokens) && token in tokens && TokenRefers(token, root, name)
    case Array(items) => exists i :: 0 <= i < |items| && Mentions(items[i], root, name)
    case Object(fields) => exists i :: 0 <= i < |fields| && Mentions(fields[i].value, root, name)
    case _ => false
  }

  /** A reference past a step must lead into its output. */
  ghost predicate GoodReference(expression: Str) {
    exists path :: Refers(expression, path) && (path[0] == Text("steps") ==> |path| >= 3 && path[2] == Text("output"))
  }

  ghost predicate GoodToken(token: Token) {
    token.Expr? ==> GoodReference(token.expression)
  }

  /** Every string of the value is balanced, and every reference in it is good. */
  ghost predicate WellTemplated(value: Json) {
    match value
    case String(s) => exists tokens :: IsReading(s, tokens) && forall token :: token in tokens ==> GoodToken(token)
    case Array(items) => forall i :: 0 <= i < |items| ==> WellTemplated(items[i])
    case Object(fields) => forall i :: 0 <= i < |fields| ==> WellTemplated(fields[i].value)
    case _ => true
  }

  // ----- The walks find exactly those -----------------------------------------

  lemma OnePath(expression: Str, root: Str, name: Str)
    ensures var path := ParsePath(expression);
      RefersTo(expression, root, name) <==> path.Success? && path.value[0] == root && path.value[1] == name
  {
    if ParsePath(expression).Success? { ParsesExactly(expression, ParsePath(expression).value); }
    forall path | Refers(expression, path) ensures ParsePath(expression) == Success(path) {
      ParsesExactly(expression, path);
    }
  }

  lemma GoodPath(expression: Str)
    ensures var path := ParsePath(expression);
      GoodReference(expression) <==>
      path.Success? && (path.value[0] == STEPS ==> |path.value| >= 3 && path.value[2] == OUTPUT)
  {
    if ParsePath(expression).Success? { ParsesExactly(expression, ParsePath(expression).value); }
    forall path | Refers(expression, path) ensures ParsePath(expression) == Success(path) {
      ParsesExactly(expression, path);
    }
  }

  /** The walk of one token. */
  lemma TokenWalks(token: Token, found: seq<Str>) returns (more: seq<Str>)
    requires token.Expr?
    ensures GoodToken(token) <==>
      ParsePath(token.expression).Success? && WalkPath(ParsePath(token.expression).value, found).Success?
    ensures GoodToken(token) ==> WalkPath(ParsePath(token.expression).value, found) == Success(more)
    ensures GoodToken(token) ==> forall id :: id in more <==> id in found || TokenRefers(token, STEPS, id)
  {
    GoodPath(token.expression);
    more := [];
    if GoodToken(token) {
      more := WalkPath(ParsePath(token.expression).value, found).value;
      forall id ensures id in more <==> id in found || TokenRefers(token, STEPS, id) {
        OnePath(token.expression, STEPS, id);
      }
    }
  }

  ghost predicate AllGood(tokens: seq<Token>) {
    forall token :: token in tokens ==> GoodToken(token)
  }

  ghost predicate AnyRefers(tokens: seq<Token>, root: Str, name: Str) {
    exists token :: token in tokens && TokenRefers(token, root, name)
  }

  lemma FirstGood(tokens: seq<Token>)
    requires tokens != []
    ensures AllGood(tokens) <==> GoodToken(tokens[0]) && AllGood(tokens[1..])
  {
    assert tokens == [tokens[0]] + tokens[1..];
  }

  lemma FirstRefers(tokens: seq<Token>, root: Str, name: Str)
    requires tokens != []
    ensures AnyRefers(tokens, root, name) <==> TokenRefers(tokens[0], root, name) || AnyRefers(tokens[1..], root, name)
  {
    assert tokens == [tokens[0]] + tokens[1..];
    if TokenRefers(tokens[0], root, name) { assert tokens[0] in tokens; }
  }

  lemma {:induction false} TokensWalk(tokens: seq<Token>, found: seq<Str>, id: Str)
    ensures WalkTokens(tokens, found).Success? <==> AllGood(tokens)
    ensures AllGood(tokens) ==> (id in WalkTokens(tokens, found).value <==> id in found || AnyRefers(tokens, STEPS, id))
  {
    if tokens != [] {
      FirstGood(tokens);
      FirstRefers(tokens, STEPS, id);
      if tokens[0].Expr? {
        var more := TokenWalks(tokens[0], found);
        TokensWalk(tokens[1..], more, id);
      } else {
        TokensWalk(tokens[1..], found, id);
      }
    }
  }

  lemma StringMentions(s: Str, root: Str, name: Str)
    ensures Mentions(String(s), root, name) <==> Tokenize(s).Some? && AnyRefers(Tokenize(s).value, root, name)
    ensures WellTemplated(String(s)) <==> Tokenize(s).Some? && AllGood(Tokenize(s).value)
  {
    if Tokenize(s).Some? { TokenizeIsTheOnlyReading(s, Tokenize(s).value); }
    forall tokens | IsReading(s, tokens) ensures Tokenize(s) == Some(tokens) { TokenizeIsTheOnlyReading(s, tokens); }
  }

  ghost predicate AllWell(values: seq<Json>) {
    forall i :: 0 <= i < |values| ==> WellTemplated(values[i])
  }

  ghost predicate AnyMention(values: seq<Json>, root: Str, name: Str) {
    exists i :: 0 <= i < |values| && Mentions(values[i], root, name)
  }

  lemma FirstValue(values: seq<Json>, root: Str, name: Str)
    requires values != []
    ensures AllWell(values) <==> WellTemplated(values[0]) && AllWell(values[1..])
    ensures AnyMention(values, root, name) <==>
      Mentions(values[0], root, name) || AnyMention(values[1..], root, name)
  {
    assert forall i :: 0 < i < |values| ==> values[i] == values[1..][i - 1];
    if i :| 0 <= i < |values[1..]| && Mentions(values[1..][i], root, name) {
      assert Mentions(values[i + 1], root, name);
    }
  }

  function Values(fields: seq<Field>): (values: seq<Json>)
    ensures |values| == |fields| && forall i :: 0 <= i < |fields| ==> values[i] == fields[i].value
  {
    seq(|fields|, i requires 0 <= i < |fields| => fields[i].value)
  }

  lemma FieldValues(fields: seq<Field>, root: Str, name: Str)
    ensures WellTemplated(Object(fields)) <==> AllWell(Values(fields))
    ensures Mentions(Object(fields), root, name) <==> AnyMention(Values(fields), root, name)
  {
    if i :| 0 <= i < |fields| && Mentions(fields[i].value, root, name) {
      assert Mentions(Values(fields)[i], root, name);
    }
  }

  lemma ItemValues(items: seq<Json>, root: Str, name: Str)
    ensures WellTemplated(Array(items)) <==> AllWell(items)
    ensures Mentions(Array(items), root, name) <==> AnyMention(items, root, name)
  {
  }

  /** The steps a template is found to read are those it mentions; and the walk
      fails exactly where the template is not well formed. */
  lemma {:induction false} WalkExactly(value: Json, found: seq<Str>, id: Str)
    ensures Walk(value, found).Success? <==> WellTemplated(value)
    ensures WellTemplated(value) ==> (id in Walk(value, found).value <==> id in found || Mentions(value, STEPS, id))
    decreases value, 1
  {
    match value
    case String(s) =>
      StringMentions(s, STEPS, id);
      if Tokenize(s).Some? { TokensWalk(Tokenize(s).value, found, id); }
    case Array(items) =>
      ItemValues(items, STEPS, id);
      WalkItemsExactly(items, found, id);
    case Object(fields) =>
      FieldValues(fields, STEPS, id);
      WalkFieldsExactly(fields, found, id);
    case _ =>
  }

  lemma {:induction false} WalkItemsExactly(items: seq<Json>, found: seq<Str>, id: Str)
    ensures WalkItems(items, found).Success? <==> AllWell(items)
    ensures AllWell(items) ==> (id in WalkItems(items, found).value <==> id in found || AnyMention(items, STEPS, id))
    decreases items, 0
  {
    if items != [] {
      FirstValue(items, STEPS, id);
      WalkExactly(items[0], found, id);
      var more := Walk(items[0], found);
      if more.Success? { WalkItemsExactly(items[1..], more.value, id); }
    }
  }

  lemma {:induction false} WalkFieldsExactly(fields: seq<Field>, found: seq<Str>, id: Str)
    ensures WalkFields(fields, found).Success? <==> AllWell(Values(fields))
    ensures AllWell(Values(fields)) ==>
      (id in WalkFields(fields, found).value <==> id in found || AnyMention(Values(fields), STEPS, id))
    decreases fields, 0
  {
    if fields != [] {
      FirstValue(Values(fields), STEPS, id);
      assert Values(fields)[1..] == Values(fields[1..]);
      WalkExactly(fields[0].value, found, id);
      var more := Walk(fields[0].value, found);
      if more.Success? { WalkFieldsExactly(fields[1..], more.value, id); }
    }
  }

  lemma {:induction false} InputsInTokensExactly(tokens: seq<Token>, name: Str)
    requires AllGood(tokens)
    ensures name in InputsInTokens(tokens) <==> AnyRefers(tokens, INPUTS, name)
  {
    if tokens != [] {
      FirstGood(tokens);
      FirstRefers(tokens, INPUTS, name);
      InputsInTokensExactly(tokens[1..], name);
      if tokens[0].Expr? {
        GoodPath(tokens[0].expression);
        OnePath(tokens[0].expression, INPUTS, name);
      }
    }
  }

  /** And the inputs it is found to read are those it mentions. */
  lemma {:induction false} InputsExactly(value: Json, name: Str)
    requires WellTemplated(value)
    ensures name in ReferencedInputs(value) <==> Mentions(value, INPUTS, name)
    decreases value, 1
  {
    match value
    case String(s) =>
      StringMentions(s, INPUTS, name);
      InputsInTokensExactly(Tokenize(s).value, name);
    case Array(items) =>
      ItemValues(items, INPUTS, name);
      InputsInItemsExactly(items, name);
    case Object(fields) =>
      FieldValues(fields, INPUTS, name);
      InputsInFieldsExactly(fields, name);
    case _ =>
  }

  lemma {:induction false} InputsInItemsExactly(items: seq<Json>, name: Str)
    requires AllWell(items)
    ensures name in InputsInItems(items) <==> AnyMention(items, INPUTS, name)
    decreases items, 0
  {
    if items != [] {
      FirstValue(items, INPUTS, name);
      InputsExactly(items[0], name);
      InputsInItemsExactly(items[1..], name);
    }
  }

  lemma {:induction false} InputsInFieldsExactly(fields: seq<Field>, name: Str)
    requires AllWell(Values(fields))
    ensures name in InputsInFields(fields) <==> AnyMention(Values(fields), INPUTS, name)
    decreases fields, 0
  {
    if fields != [] {
      FirstValue(Values(fields), INPUTS, name);
      assert Values(fields)[1..] == Values(fields[1..]);
      InputsExactly(fields[0].value, name);
      InputsInFieldsExactly(fields[1..], name);
    }
  }

  // ----- The flows that are accepted ----------------------------------------

  /** The step called id is declared before step i. */
  ghost predicate DeclaredEarlier(steps: seq<StepSpec>, i: nat, id: Str)
    requires i <= |steps|
  {
    exists j :: 0 <= j < i && steps[j].id == id
  }

  /** Its template is well formed and mentions declared inputs and needed steps
      only, what it needs is declared before it, and it is a flow exactly when it
      has one to run. */
  ghost predicate AcceptableStep(spec: FlowSpec, i: nat)
    requires i < |spec.steps|
  {
    var step := spec.steps[i];
    && WellTemplated(step.input)
    && (forall name :: Mentions(step.input, Text("inputs"), name) ==> name in spec.inputs)
    && (forall id :: Mentions(step.input, Text("steps"), id) ==> id in step.needs)
    && (forall id :: id in step.needs ==> DeclaredEarlier(spec.steps, i, id))
    && (step.isFlow <==> step.flow.Some?)
  }

  /** The steps have different, non-empty ids. */
  ghost predicate Distinguished(spec: FlowSpec) {
    && spec.steps != []
    && (forall i :: 0 <= i < |spec.steps| ==> spec.steps[i].id != [])
    && (forall i, j :: 0 <= i < j < |spec.steps| ==> spec.steps[i].id != spec.steps[j].id)
  }

  /** A flow whose steps are told apart and acceptable one by one, with flows
      nested at most this many levels below it. */
  ghost predicate Acceptable(spec: FlowSpec, levels: nat)
    decreases levels, 2
  {
    Distinguished(spec) && AllAcceptable(spec, levels)
  }

  ghost predicate AllAcceptable(spec: FlowSpec, levels: nat)
    decreases levels, 1
  {
    forall i :: 0 <= i < |spec.steps| ==> AcceptableWith(spec, i, levels)
  }

  /** Step i is acceptable, and so is any flow nested in it. */
  ghost predicate AcceptableWith(spec: FlowSpec, i: nat, levels: nat)
    requires i < |spec.steps|
    decreases levels, 0
  {
    && AcceptableStep(spec, i)
    && (spec.steps[i].flow.Some? ==> levels > 0 && Acceptable(spec.steps[i].flow.value, levels - 1))
  }

  /** What planning checks of a step before anything else has been planned. */
  ghost predicate KnownStep(spec: FlowSpec, i: nat)
    requires i < |spec.steps|
  {
    var step := spec.steps[i];
    && WellTemplated(step.input)
    && (forall name :: Mentions(step.input, INPUTS, name) ==> name in spec.inputs)
    && (forall id :: Mentions(step.input, STEPS, id) ==> id in step.needs)
    && (forall id :: id in step.needs ==> HasStep(spec.steps, id))
    && (step.isFlow <==> step.flow.Some?)
  }

  lemma StepReads(step: StepSpec)
    ensures ReferencedSteps(step.input).Success? <==> WellTemplated(step.input)
    ensures WellTemplated(step.input) ==>
      && (forall id :: id in ReferencedSteps(step.input).value <==> Mentions(step.input, STEPS, id))
      && (forall name :: name in ReferencedInputs(step.input) <==> Mentions(step.input, INPUTS, name))
  {
    WalkExactly(step.input, [], []);
    if WellTemplated(step.input) {
      forall id ensures id in ReferencedSteps(step.input).value <==> Mentions(step.input, STEPS, id) {
        WalkExactly(step.input, [], id);
      }
      forall name ensures name in ReferencedInputs(step.input) <==> Mentions(step.input, INPUTS, name) {
        InputsExactly(step.input, name);
      }
    }
  }

  lemma StepPlanned(spec: FlowSpec, i: nat, depth: nat)
    requires i < |spec.steps| && depth <= MAX_PLAN_DEPTH
    ensures Plans(spec, i, depth) <==>
      && KnownStep(spec, i)
      && (spec.steps[i].flow.Some? ==> PlanInner(spec.steps[i].flow.value, depth + 1).Success?)
  {
    StepReads(spec.steps[i]);
  }

  ghost predicate Plans(spec: FlowSpec, i: nat, depth: nat)
    requires i < |spec.steps| && depth <= MAX_PLAN_DEPTH
  {
    PlanStep(spec, i, depth).Success?
  }

  ghost predicate AllPlan(spec: FlowSpec, depth: nat)
    requires depth <= MAX_PLAN_DEPTH
  {
    forall i :: 0 <= i < |spec.steps| ==> Plans(spec, i, depth)
  }

  lemma {:induction false} StepsPlanned(spec: FlowSpec, i: nat, depth: nat)
    requires i <= |spec.steps| && depth <= MAX_PLAN_DEPTH
    ensures PlanSteps(spec, i, depth).Success? <==>
      forall k :: i <= k < |spec.steps| ==> Plans(spec, k, depth)
    decreases |spec.steps| - i
  {
    if i < |spec.steps| {
      StepsPlanned(spec, i + 1, depth);
      assert PlanSteps(spec, i, depth).Success? <==> Plans(spec, i, depth) && PlanSteps(spec, i + 1, depth).Success?;
    }
  }

  ghost predicate NeedsEarlier(spec: FlowSpec) {
    forall i, id :: 0 <= i < |spec.steps| && id in spec.steps[i].needs ==> DeclaredEarlier(spec.steps, i, id)
  }

  /** Every dependency of the plan is declared before it exactly when every need
      of the spec is. */
  lemma OrderedExactly(spec: FlowSpec, steps: seq<PlannedStep>)
    requires |steps| == |spec.steps|
    requires forall i :: 0 <= i < |steps| ==> steps[i].spec == spec.steps[i] && ReadsDeclared(steps[i])
    ensures DeclaredBefore(steps) <==> NeedsEarlier(spec)
  {
    forall i, id | 0 <= i < |steps|
      ensures IndexOf(steps, id) < i <==> DeclaredEarlier(spec.steps, i, id)
    {
      if IndexOf(steps, id) < i { assert steps[IndexOf(steps, id)].Id() == id; }
      if j :| 0 <= j < i && spec.steps[j].id == id { assert steps[j].Id() == id; }
    }
  }

  lemma InnerSteps(spec: FlowSpec, depth: nat)
    requires depth <= MAX_PLAN_DEPTH
    ensures PlanInner(spec, depth).Success? <==>
      && Distinguished(spec) && PlanSteps(spec, 0, depth).Success?
      && DeclaredBefore(PlanSteps(spec, 0, depth).value)
  {
    assert IdProblem(spec.steps, {}).None? <==> spec.steps == [] || Distinguished(spec);
  }

  lemma StepsOrdered(spec: FlowSpec, depth: nat)
    requires depth <= MAX_PLAN_DEPTH && PlanSteps(spec, 0, depth).Success?
    ensures DeclaredBefore(PlanSteps(spec, 0, depth).value) <==> NeedsEarlier(spec)
  {
    var planned := PlanSteps(spec, 0, depth).value;
    forall i | 0 <= i < |spec.steps| ensures planned[i].spec == spec.steps[i] && ReadsDeclared(planned[i]) {
      assert PlanStep(spec, 0 + i, depth) == Success(planned[i]);
      PlanStepFacts(spec, i, depth);
    }
    OrderedExactly(spec, planned);
  }

  lemma InnerPlanned(spec: FlowSpec, depth: nat)
    requires depth <= MAX_PLAN_DEPTH
    ensures PlanInner(spec, depth).Success? <==>
      Distinguished(spec) && NeedsEarlier(spec) && AllPlan(spec, depth)
  {
    InnerSteps(spec, depth);
    StepsPlanned(spec, 0, depth);
    if PlanSteps(spec, 0, depth).Success? { StepsOrdered(spec, depth); }
  }

  lemma KnownIsAcceptable(spec: FlowSpec)
    requires NeedsEarlier(spec)
    ensures forall i :: 0 <= i < |spec.steps| ==> (KnownStep(spec, i) <==> AcceptableStep(spec, i))
  {
    forall i | 0 <= i < |spec.steps| ensures KnownStep(spec, i) <==> AcceptableStep(spec, i) {
      forall id | id in spec.steps[i].needs ensures HasStep(spec.steps, id) {
        assert DeclaredEarlier(spec.steps, i, id);
      }
    }
  }

  lemma AcceptableOrdered(spec: FlowSpec, levels: nat)
    requires AllAcceptable(spec, levels)
    ensures NeedsEarlier(spec)
  {
    forall i, id | 0 <= i < |spec.steps| && id in spec.steps[i].needs ensures DeclaredEarlier(spec.steps, i, id) {
      assert AcceptableWith(spec, i, levels);
    }
  }

  lemma StepAccepted(spec: FlowSpec, i: nat, depth: nat)
    requires i < |spec.steps| && depth <= MAX_PLAN_DEPTH && (KnownStep(spec, i) <==> AcceptableStep(spec, i))
    requires spec.steps[i].flow.Some? && depth < MAX_PLAN_DEPTH ==>
      (PlanInner(spec.steps[i].flow.value, depth + 1).Success? <==>
       Acceptable(spec.steps[i].flow.value, MAX_PLAN_DEPTH - depth - 1))
    ensures Plans(spec, i, depth) <==> AcceptableWith(spec, i, MAX_PLAN_DEPTH - depth)
  {
    StepPlanned(spec, i, depth);
  }

  lemma {:induction false} StepsAccepted(spec: FlowSpec, depth: nat)
    requires depth <= MAX_PLAN_DEPTH && NeedsEarlier(spec)
    ensures AllPlan(spec, depth) <==> AllAcceptable(spec, MAX_PLAN_DEPTH - depth)
    decreases MAX_PLAN_DEPTH - depth, 1
  {
    var levels := MAX_PLAN_DEPTH - depth;
    KnownIsAcceptable(spec);
    if AllPlan(spec, depth) {
      forall i | 0 <= i < |spec.steps| ensures AcceptableWith(spec, i, levels) {
        assert Plans(spec, i, depth);
        NestedAccepted(spec, i, depth);
      }
    }
    if AllAcceptable(spec, levels) {
      forall i | 0 <= i < |spec.steps| ensures Plans(spec, i, depth) {
        assert AcceptableWith(spec, i, levels);
        NestedAccepted(spec, i, depth);
      }
    }
  }

  lemma {:induction false} NestedAccepted(spec: FlowSpec, i: nat, depth: nat)
    requires i < |spec.steps| && depth <= MAX_PLAN_DEPTH && (KnownStep(spec, i) <==> AcceptableStep(spec, i))
    ensures Plans(spec, i, depth) <==> AcceptableWith(spec, i, MAX_PLAN_DEPTH - depth)
    decreases MAX_PLAN_DEPTH - depth, 0
  {
    if spec.steps[i].flow.Some? && depth < MAX_PLAN_DEPTH {
      AcceptedExactly(spec.steps[i].flow.value, depth + 1);
    }
    StepAccepted(spec, i, depth);
  }

  /** A flow is accepted at a depth exactly when it is acceptable with the
      levels that are left. */
  lemma {:induction false} AcceptedExactly(spec: FlowSpec, depth: nat)
    requires depth <= MAX_PLAN_DEPTH
    ensures PlanInner(spec, depth).Success? <==> Acceptable(spec, MAX_PLAN_DEPTH - depth)
    decreases MAX_PLAN_DEPTH - depth, 2
  {
    InnerPlanned(spec, depth);
    if NeedsEarlier(spec) { StepsAccepted(spec, depth); }
    if AllAcceptable(spec, MAX_PLAN_DEPTH - depth) { AcceptableOrdered(spec, MAX_PLAN_DEPTH - depth); }
  }

  /** `planFlow` accepts exactly the acceptable flows, nested up to four levels. */
  lemma PlannerAccepts(spec: FlowSpec)
    ensures PlanFlow(spec).Success? <==> Acceptable(spec, 4)
  {
    AcceptedExactly(spec, 0);
  }
}
