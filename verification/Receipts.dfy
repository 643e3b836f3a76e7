/** Receipts and the rules that decide a step's status. */
module Receipts {
  import opened Results
  import opened Flow

  type Byte = b: int | 0 <= b < 256
  type Bytes = seq<Byte>
  type Bytes32 = b: Bytes | |b| == 32 witness Zeros(32)

  function Zeros(n: nat): (z: Bytes)
    ensures |z| == n
    ensures forall i :: 0 <= i < n ==> z[i] == 0
  {
    seq(n, _ => 0)
  }

  const ZERO32: Bytes32 := Zeros(32)

  datatype Status = Ok | Failed | Skipped | Unattested {
    function Code(): nat {
      match this
      case Ok => 0
      case Failed => 1
      case Skipped => 2
      case Unattested => 3
    }
  }

  datatype Receipt = Receipt(
    flowId: Bytes32,
    runId: Bytes32,
    stepIndex: nat,
    agentId: nat,
    inputHash: Bytes32,
    outputHash: Bytes32,
    traceRoot: Bytes32,
    attestationRef: Bytes32,
    startedAt: nat,
    endedAt: nat,
    status: Status)

  datatype StatusDecision = StatusDecision(
    requireAttestation: bool,
    attestationPresent: bool,
    bindingLevel: Option<Binding>,
    requireBinding: Option<Binding>,
    requireSignedOutput: bool,
    signatureValid: bool,
    error: bool,
    skipped: bool)

  function MeetsBinding(level: Binding, required: Binding): bool {
    level.Rank() >= required.Rank()
  }

  function OrPresent(level: Option<Binding>): Binding {
    if level.None? then Present else level.value
  }

  function DecideStepStatus(d: StatusDecision): Status {
    if d.skipped then Skipped
    else if d.error then Failed
    else if d.requireAttestation && !d.attestationPresent then Unattested
    else if d.requireAttestation && !MeetsBinding(OrPresent(d.bindingLevel), OrPresent(d.requireBinding))
    then Unattested
    else if d.requireSignedOutput && !d.signatureValid then Unattested
    else Ok
  }

  /** Which steps may be reported ok, from what was demanded and established. */
  lemma OkMeansEstablished(d: StatusDecision)
    ensures DecideStepStatus(d).Ok? <==>
      && !d.skipped && !d.error
      && (d.requireAttestation ==> d.attestationPresent)
      && (d.requireAttestation ==> OrPresent(d.requireBinding).Rank() <= OrPresent(d.bindingLevel).Rank())
      && (d.requireSignedOutput ==> d.signatureValid)
  {
  }
}
