/** Flow specs, as an author writes them, and planned steps, as the executor
    and the verifier read them. */
module Flow {
  import opened Json
  import opened Results

  /** How much an attestation establishes, weakest first. */
  datatype Binding = Absent | Present | Attested | Bound {
    function Rank(): nat {
      match this
      case Absent => 0
      case Present => 1
      case Attested => 2
      case Bound => 3
    }
  }

  datatype StepSpec = StepSpec(
    id: Str,
    agent: nat,
    input: Json,
    needs: seq<Str>,
    isFlow: bool,
    flow: Option<FlowSpec>,
    requireAttestation: bool,
    requireBinding: Option<Binding>,
    requireSignedOutput: bool)

  datatype FlowSpec = FlowSpec(name: Str, inputs: seq<Str>, steps: seq<StepSpec>)

  /** A step with its place in declaration order, the steps its input reads,
      and everything that must complete before it. */
  datatype PlannedStep = PlannedStep(
    spec: StepSpec,
    stepIndex: nat,
    readsFrom: seq<Str>,
    dependsOn: seq<Str>)
  {
    function Id(): Str {
      spec.id
    }
  }

  /** Ids are unique and every step sits at its own index. */
  ghost predicate WellNumbered(steps: seq<PlannedStep>) {
    && (forall i :: 0 <= i < |steps| ==> steps[i].stepIndex == i)
    && (forall i, j :: 0 <= i < j < |steps| ==> steps[i].Id() != steps[j].Id())
  }

  /** The position of the step called id, or the number of steps. */
  function IndexOf(steps: seq<PlannedStep>, id: Str): (i: nat)
    ensures i <= |steps|
    ensures i < |steps| ==> steps[i].Id() == id
    ensures forall j :: 0 <= j < i ==> steps[j].Id() != id
  {
    if steps == [] || steps[0].Id() == id then 0 else 1 + IndexOf(steps[1..], id)
  }

  /** Every dependency names a step of the flow. */
  ghost predicate DependenciesKnown(steps: seq<PlannedStep>) {
    forall i, d :: 0 <= i < |steps| && d in steps[i].dependsOn ==> IndexOf(steps, d) < |steps|
  }

  /** Every dependency is declared before the step that has it. */
  predicate DeclaredBefore(steps: seq<PlannedStep>) {
    forall i, d | 0 <= i < |steps| && d in steps[i].dependsOn :: IndexOf(steps, d) < i
  }

  lemma IndexOfId(steps: seq<PlannedStep>, i: nat)
    requires WellNumbered(steps) && i < |steps|
    ensures IndexOf(steps, steps[i].Id()) == i
  {
  }
}
