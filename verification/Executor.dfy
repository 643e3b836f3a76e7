/** The executor: one run of a planned flow, wave by wave. */
module Executor {
  import opened Json
  import opened Results
  import opened Flow
  import opened Receipts
  import opened Sorting
  import ChainRoot
  import Template
  import Waves

  // ----- The world outside the executor -----------------------------------

  /** What invoking an agent comes to. */
  datatype Invocation =
    | Threw
    | Answered(
        output: Json,
        attestation: Option<Bytes>,
        binding: Binding,
        signature: Option<Bytes>,
        signatureValid: bool,
        hiredRuns: seq<Str>)

  /** What opening a sub-flow comes to. */
  datatype Child = ChildThrew | ChildSealed(output: Json, succeeded: bool)

  datatype Trace = Trace(
    stepId: Str,
    input: Json,
    output: Json,
    attestation: Option<Bytes>,
    signature: Option<Bytes>,
    hiredRuns: seq<Str>,
    errored: bool)

  /** Everything a run asks of the outside. Each step runs once, so an answer
      that depends on the step and its input is an arbitrary behaviour. */
  datatype World = World(
    hash: Json -> Bytes32,
    store: Trace -> Bytes32,
    digest: Bytes -> Bytes32,
    keccak: Bytes -> Bytes32,
    startedAt: nat -> nat,
    endedAt: nat -> nat,
    belowBar: nat -> bool,
    listed: nat -> bool,
    refuses: (nat, Json) -> bool,
    invoke: (nat, Json) -> Invocation,
    child: (nat, Json) -> Child)

  /** No value hashes to the word that claims absence. */
  ghost predicate HashesAreClaims(w: World) {
    forall v :: w.hash(v) != ZERO32
  }

  datatype Run = Run(flowId: Bytes32, runId: Bytes32, inputs: Json)

  /** A settled step. An output of Null is one there is nothing to pass on for. */
  datatype Outcome = Outcome(step: PlannedStep, receipt: Receipt, trace: Trace, output: Json)

  const EMPTY: Json := Object([])

  // ----- One step ---------------------------------------------------------

  function MakeReceipt(w: World, run: Run, p: PlannedStep, inputHash: Bytes32, outputHash: Bytes32,
                       trace: Trace, attestationRef: Bytes32, status: Status): Receipt {
    Receipt(run.flowId, run.runId, p.stepIndex, p.spec.agent, inputHash, outputHash, w.store(trace),
            attestationRef, w.startedAt(p.stepIndex), w.endedAt(p.stepIndex), status)
  }

  function BuildFailed(w: World, run: Run, p: PlannedStep, input: Option<Json>): Outcome {
    var trace := Trace(p.Id(), if input.None? then EMPTY else input.value, EMPTY, None, None, [], true);
    var status := DecideStepStatus(StatusDecision(false, false, None, None, false, false, true, false));
    var inputHash := if input.None? then ZERO32 else w.hash(input.value);
    Outcome(p, MakeReceipt(w, run, p, inputHash, ZERO32, trace, ZERO32, status), trace, Null)
  }

  function BuildSkipped(w: World, run: Run, p: PlannedStep): Outcome {
    var trace := Trace(p.Id(), EMPTY, EMPTY, None, None, [], true);
    var status := DecideStepStatus(StatusDecision(false, false, None, None, false, false, false, true));
    Outcome(p, MakeReceipt(w, run, p, ZERO32, ZERO32, trace, ZERO32, status), trace, Null)
  }

  function BuildAnswered(w: World, run: Run, p: PlannedStep, input: Json, a: Invocation): Outcome
    requires a.Answered?
  {
    var trace := Trace(p.Id(), input, a.output, a.attestation, a.signature, a.hiredRuns, false);
    var reference := if a.attestation.None? then ZERO32 else w.digest(a.attestation.value);
    var status := DecideStepStatus(StatusDecision(
      p.spec.requireAttestation, a.attestation.Some?, Some(a.binding), p.spec.requireBinding,
      p.spec.requireSignedOutput, a.signature.Some? && a.signatureValid, false, false));
    Outcome(p, MakeReceipt(w, run, p, w.hash(input), w.hash(a.output), trace, reference, status), trace,
            if status.Ok? then a.output else Null)
  }

  function RunSubFlow(w: World, run: Run, p: PlannedStep, input: Json): Outcome {
    match w.child(p.stepIndex, input)
    case ChildThrew => BuildFailed(w, run, p, Some(input))
    case ChildSealed(output, succeeded) =>
      if !succeeded then BuildFailed(w, run, p, Some(input))
      else
        var trace := Trace(p.Id(), input, output, None, None, [], false);
        var status := DecideStepStatus(StatusDecision(false, false, None, None, false, false, false, false));
        Outcome(p, MakeReceipt(w, run, p, w.hash(input), w.hash(output), trace, ZERO32, status), trace, output)
  }

  function RunAgent(w: World, run: Run, p: PlannedStep, input: Json): Outcome {
    if w.refuses(p.stepIndex, input) then BuildFailed(w, run, p, Some(input))
    else
      var a := w.invoke(p.stepIndex, input);
      if a.Threw? then BuildFailed(w, run, p, Some(input)) else BuildAnswered(w, run, p, input, a)
  }

  predicate Blocked(p: PlannedStep, statuses: map<Str, Status>) {
    exists d | d in p.dependsOn :: d in statuses && !statuses[d].Ok?
  }

  function RunStep(w: World, run: Run, p: PlannedStep, halted: bool,
                   outputs: map<Str, Json>, statuses: map<Str, Status>): Outcome
  {
    if Blocked(p, statuses) || halted || w.belowBar(p.stepIndex) then BuildSkipped(w, run, p)
    else if !p.spec.isFlow && !w.listed(p.stepIndex) then BuildFailed(w, run, p, None)
    else
      match Template.Resolve(p.spec.input, Template.Context(run.inputs, outputs))
      case Failure(_) => BuildFailed(w, run, p, None)
      case Success(input) =>
        if p.spec.isFlow then RunSubFlow(w, run, p, input) else RunAgent(w, run, p, input)
  }

  // ----- A whole run ------------------------------------------------------

  datatype State = State(
    outputs: map<Str, Json>,
    statuses: map<Str, Status>,
    completed: seq<Outcome>,
    halted: bool)

  const START: State := State(map[], map[], [], false)

  /** A wave runs on what completed before it. */
  function Settle(w: World, run: Run, wave: Waves.Wave, st: State): (settled: seq<Outcome>)
    ensures |settled| == |wave|
    ensures forall k :: 0 <= k < |wave| ==>
      settled[k] == RunStep(w, run, wave[k], st.halted, st.outputs, st.statuses)
  {
    seq(|wave|, k requires 0 <= k < |wave| => RunStep(w, run, wave[k], st.halted, st.outputs, st.statuses))
  }

  function Record(st: State, o: Outcome): State {
    State(if o.output != Null then st.outputs[o.step.Id() := o.output] else st.outputs,
          st.statuses[o.step.Id() := o.receipt.status], st.completed + [o], st.halted)
  }

  function RecordAll(st: State, settled: seq<Outcome>): State {
    if settled == [] then st
    else Record(RecordAll(st, settled[..|settled| - 1]), settled[|settled| - 1])
  }

  predicate AnyNotOk(settled: seq<Outcome>) {
    exists o | o in settled :: !o.receipt.status.Ok?
  }

  function HaltAfter(st: State, failFast: bool, settled: seq<Outcome>): State {
    State(st.outputs, st.statuses, st.completed, st.halted || (failFast && AnyNotOk(settled)))
  }

  function RunWave(w: World, run: Run, failFast: bool, wave: Waves.Wave, st: State): State {
    HaltAfter(RecordAll(st, Settle(w, run, wave, st)), failFast, Settle(w, run, wave, st))
  }

  function RunWaves(w: World, run: Run, failFast: bool, waves: seq<Waves.Wave>): State {
    if waves == [] then START
    else RunWave(w, run, failFast, waves[|waves| - 1], RunWaves(w, run, failFast, waves[..|waves| - 1]))
  }

  function ReceiptsOf(completed: seq<Outcome>): (receipts: seq<Receipt>)
    ensures |receipts| == |completed|
  {
    seq(|completed|, k requires 0 <= k < |completed| => completed[k].receipt)
  }

  /** The receipts of a run, folded into its root in ascending step index. */
  function Sealed(st: State): seq<Receipt> {
    Sort(ReceiptsOf(st.completed), ChainRoot.ByIndex)
  }

  function FirstNotOk(receipts: seq<Receipt>): (i: nat)
    ensures i <= |receipts|
    ensures i < |receipts| ==> !receipts[i].status.Ok?
    ensures forall j :: 0 <= j < i ==> receipts[j].status.Ok?
  {
    if receipts == [] || !receipts[0].status.Ok? then 0 else 1 + FirstNotOk(receipts[1..])
  }

  function SealedOutcome(receipts: seq<Receipt>): Status {
    var i := FirstNotOk(receipts);
    if i == |receipts| then Ok else receipts[i].status
  }

  /** The wave loop of `executeRun`, updating its maps in place. */
  method ExecuteRun(w: World, run: Run, failFast: bool, waves: seq<Waves.Wave>)
      returns (receipts: seq<Receipt>, completed: seq<Outcome>, chainRoot: Option<Bytes32>, outcome: Status)
    ensures completed == RunWaves(w, run, failFast, waves).completed
    ensures receipts == Sealed(RunWaves(w, run, failFast, waves))
    ensures chainRoot == ChainRoot.RunRoot(w.keccak, receipts)
    ensures outcome == SealedOutcome(receipts)
  {
    var outputs: map<Str, Json> := map[];
    var statuses: map<Str, Status> := map[];
    var halted := false;
    completed := [];
    for k := 0 to |waves|
      invariant State(outputs, statuses, completed, halted) == RunWaves(w, run, failFast, waves[..k])
    {
      ghost var before := State(outputs, statuses, completed, halted);
      var settled := Settle(w, run, waves[k], State(outputs, statuses, completed, halted));
      for j := 0 to |settled|
        invariant State(outputs, statuses, completed, halted) == RecordAll(before, settled[..j])
      {
        var o := settled[j];
        assert settled[..j + 1][..j] == settled[..j];
        completed := completed + [o];
        statuses := statuses[o.step.Id() := o.receipt.status];
        if o.output != Null {
          outputs := outputs[o.step.Id() := o.output];
        }
      }
      assert settled[..|settled|] == settled;
      if failFast && AnyNotOk(settled) {
        halted := true;
      }
      assert waves[..k + 1][..k] == waves[..k];
    }
    assert waves[..|waves|] == waves;
    receipts := Sort(ReceiptsOf(completed), ChainRoot.ByIndex);
    chainRoot := ChainRoot.FoldChainRoot(w.keccak, receipts);
    outcome := SealedOutcome(receipts);
  }
}
