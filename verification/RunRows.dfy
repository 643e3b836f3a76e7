/** What the index says of a run: its steps and its seal, read off the logs. */
module RunRows {
  import opened Results
  import opened Receipts
  import opened Logs
  import opened Store

  predicate Anchors(log: Log, run: Bytes32, index: nat) {
    log.event.StepAnchored? && log.event.receipt.runId == run && log.event.receipt.stepIndex == index
  }

  predicate Seals(log: Log, run: Bytes32) {
    log.event.RunSealed? && log.event.sealedRun == run
  }

  /** The row is this log's, field by field. */
  predicate IsStepOf(row: StepRow, log: Log) {
    && log.event.StepAnchored? && row.receipt == log.event.receipt && row.txHash == log.event.txHash
    && row.block == log.block && row.blockHash == log.blockHash && row.logIndex == log.logIndex
  }

  predicate IsSealOf(row: SealRow, log: Log) {
    && log.event.RunSealed? && row.run == log.event.sealedRun && row.chainRoot == log.event.chainRoot
    && row.stepCount == log.event.stepCount && row.outcome == log.event.outcome && row.txHash == log.event.sealTx
    && row.block == log.block && row.blockHash == log.blockHash
  }

  /** Log i is the last that anchors the step; it is -1 when none does. */
  ghost predicate LastAnchor(logs: seq<Log>, run: Bytes32, index: nat, i: int) {
    && -1 <= i < |logs| && (i >= 0 ==> Anchors(logs[i], run, index))
    && forall j :: i < j < |logs| && 0 <= j ==> !Anchors(logs[j], run, index)
  }

  ghost predicate LastSeal(logs: seq<Log>, run: Bytes32, i: int) {
    && -1 <= i < |logs| && (i >= 0 ==> Seals(logs[i], run))
    && forall j :: i < j < |logs| && 0 <= j ==> !Seals(logs[j], run)
  }

  /** A step is indexed exactly when a log anchors it, as the last such log has it. */
  lemma {:induction false} StepIsLastAnchored(logs: seq<Log>, run: Bytes32, index: nat) returns (i: int)
    ensures LastAnchor(logs, run, index, i)
    ensures var row := Get(Fold(EMPTY.rows, logs).steps, StepKey(run, index));
      if i < 0 then row.None? else row.Some? && IsStepOf(row.value, logs[i])
  {
    if logs == [] {
      i := -1;
    } else {
      var front, last := logs[..|logs| - 1], logs[|logs| - 1];
      i := StepIsLastAnchored(front, run, index);
      if Anchors(last, run, index) { i := |front|; }
    }
  }

  /** A run is sealed exactly when a log seals it, as the last such log has it. */
  lemma {:induction false} SealIsLastSealed(logs: seq<Log>, run: Bytes32) returns (i: int)
    ensures LastSeal(logs, run, i)
    ensures var row := Get(Fold(EMPTY.rows, logs).seals, run);
      if i < 0 then row.None? else row.Some? && IsSealOf(row.value, logs[i])
  {
    if logs == [] {
      i := -1;
    } else {
      var front, last := logs[..|logs| - 1], logs[|logs| - 1];
      i := SealIsLastSealed(front, run);
      if Seals(last, run) { i := |front|; }
    }
  }
}
