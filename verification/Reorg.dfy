/** After a reorganisation: the stored steps and seals are the canonical ones. */
module Reorg {
  import opened Results
  import opened Receipts
  import opened Logs
  import opened Sorting
  import opened Store
  import opened Ingest
  import Replay

  // ----- Steps and seals, alike -------------------------------------------

  datatype AnchorKey = OfStep(step: StepKey) | OfSeal(run: Bytes32)

  datatype AnchorRow = StepRowIs(step: StepRow) | SealRowIs(seal: SealRow) {
    function Block(): nat {
      match this
      case StepRowIs(step) => step.block
      case SealRowIs(seal) => seal.block
    }

    function Hash(): BlockHash {
      match this
      case StepRowIs(step) => step.blockHash
      case SealRowIs(seal) => seal.blockHash
    }
  }

  function RowAt(s: Rows, k: AnchorKey): Option<AnchorRow> {
    match k
    case OfStep(step) => if step in s.steps then Some(StepRowIs(s.steps[step])) else None
    case OfSeal(run) => if run in s.seals then Some(SealRowIs(s.seals[run])) else None
  }

  function KeyOf(log: Log): Option<AnchorKey> {
    match log.event
    case StepAnchored(receipt, _) => Some(OfStep(StepKey(receipt.runId, receipt.stepIndex)))
    case RunSealed(run, _, _, _, _) => Some(OfSeal(run))
    case _ => None
  }

  function AnchorOf(log: Log): (row: AnchorRow)
    requires KeyOf(log).Some?
    ensures row.Block() == log.block && row.Hash() == log.blockHash
  {
    if log.event.StepAnchored? then StepRowIs(StepRowOf(log)) else SealRowIs(SealRowOf(log))
  }

  predicate Anchors(log: Log, c: Contracts, k: AnchorKey) {
    log.contract in Watched(c) && KeyOf(log) == Some(k)
  }

  // ----- What each operation does to them -----------------------------------

  /** A key reads as the last log that writes it, or as before when none does. */
  lemma {:induction false} LastAnchor(s: Rows, logs: seq<Log>, k: AnchorKey) returns (i: int)
    ensures i == -1 ==> RowAt(Fold(s, logs), k) == RowAt(s, k) && forall log :: log in logs ==> KeyOf(log) != Some(k)
    ensures i != -1 ==>
      0 <= i < |logs| && KeyOf(logs[i]) == Some(k) && RowAt(Fold(s, logs), k) == Some(AnchorOf(logs[i]))
  {
    if logs == [] {
      i := -1;
    } else {
      var front, last := logs[..|logs| - 1], logs[|logs| - 1];
      assert logs == front + [last];
      ApplyAnchors(Fold(s, front), last, k);
      if KeyOf(last) == Some(k) {
        i := |logs| - 1;
      } else {
        i := LastAnchor(s, front, k);
      }
    }
  }

  lemma ApplyAnchors(s: Rows, log: Log, k: AnchorKey)
    ensures RowAt(ApplyLog(s, log), k) == if KeyOf(log) == Some(k) then Some(AnchorOf(log)) else RowAt(s, k)
  {
  }

  lemma RollbackAnchors(s: Rows, block: nat, k: AnchorKey)
    ensures RowAt(RolledBack(s, block), k) ==
      if RowAt(s, k).Some? && RowAt(s, k).value.Block() < block then RowAt(s, k) else None
  {
  }

  lemma OrderedMembers(chain: Chain, c: Contracts, from: nat, to: nat)
    ensures forall log :: log in Ordered(chain, c, from, to) <==>
      log in chain.logs && from <= log.block <= to && log.contract in Watched(c)
  {
    var fetched := Fetch(chain, c, from, to);
    SortKeeps(fetched, ByPosition);
    MembersOf(Ordered(chain, c, from, to), fetched);
  }

  // ----- Canonical rows ----------------------------------------------------

  ghost predicate Canonical(chain: Chain, c: Contracts, k: AnchorKey, row: AnchorRow) {
    exists log :: log in chain.logs && Anchors(log, c, k) && AnchorOf(log) == row
  }

  /** No row below a height that the chain does not have. */
  ghost predicate NoneStale(s: Rows, chain: Chain, c: Contracts, from: nat, end: nat) {
    forall k :: RowAt(s, k).Some? && from <= RowAt(s, k).value.Block() < end ==>
      Canonical(chain, c, k, RowAt(s, k).value)
  }

  /** No step or seal of the chain below a height that is not a row. */
  ghost predicate NoneMissing(s: Rows, chain: Chain, c: Contracts, end: nat) {
    forall log :: log in chain.logs && log.contract in Watched(c) && KeyOf(log).Some? && log.block < end ==>
      RowAt(s, KeyOf(log).value) == Some(AnchorOf(log))
  }

  /** The rows below a height are exactly the chain's steps and seals. */
  ghost predicate ExactUnder(s: Rows, chain: Chain, c: Contracts, end: nat) {
    NoneStale(s, chain, c, 0, end) && NoneMissing(s, chain, c, end)
  }

  /** A chain anchors each (run, step) and seals each run at most once. */
  ghost predicate UniqueKeys(chain: Chain, c: Contracts) {
    forall a, b ::
      a in chain.logs && b in chain.logs && BothAnchor(a, b, c) ==> a == b
  }

  ghost predicate BothAnchor(a: Log, b: Log, c: Contracts) {
    a.contract in Watched(c) && b.contract in Watched(c) && KeyOf(a).Some? && KeyOf(a) == KeyOf(b)
  }

  /** What every block hash stands for, on any chain. */
  type History = BlockHash -> seq<Log>

  /** A block's hash determines the logs the chain has at it. */
  ghost predicate Describes(history: History, chain: Chain) {
    forall log :: log in chain.logs <==> log in history(log.blockHash) && log.blockHash == chain.hashAt(log.block)
  }

  ghost predicate FromHistory(history: History, c: Contracts, k: AnchorKey, row: AnchorRow) {
    exists log :: log in history(row.Hash()) && log.blockHash == row.Hash() && Anchors(log, c, k) &&
      AnchorOf(log) == row
  }

  /** What holds of a store filled by ingestion alone: each row came from a
      block of some chain, whose hash is the one recorded for its height. */
  ghost predicate Sourced(s: Rows, history: History, c: Contracts) {
    forall k :: RowAt(s, k).Some? ==>
      && FromHistory(history, c, k, RowAt(s, k).value)
      && Get(s.blocks, RowAt(s, k).value.Block()) == Some(RowAt(s, k).value.Hash())
  }

  // ----- One pass ---------------------------------------------------------

  /** A row whose block still has its hash is canonical. */
  lemma HashDecides(history: History, chain: Chain, c: Contracts, k: AnchorKey, row: AnchorRow)
    requires Describes(history, chain) && FromHistory(history, c, k, row)
    requires row.Hash() == chain.hashAt(row.Block())
    ensures Canonical(chain, c, k, row)
  {
    var log :| log in history(row.Hash()) && log.blockHash == row.Hash() && Anchors(log, c, k) && AnchorOf(log) == row;
    assert log in chain.logs;
  }

  /** What the rollback leaves at or below `to` is canonical. */
  lemma KeptIsCanonical(s: Rows, history: History, chain: Chain, c: Contracts, from: nat, to: nat, finalityDepth: nat,
                        k: AnchorKey)
    requires Describes(history, chain) && Sourced(s, history, c)
    requires NoneStale(s, chain, c, 0, Lowest(chain.head, from, finalityDepth))
    ensures var kept := RowAt(Trimmed(s, ReorgOf(s, chain, from, to, finalityDepth)), k);
      kept.Some? && kept.value.Block() <= to ==> Canonical(chain, c, k, kept.value)
  {
    var lowest := Lowest(chain.head, from, finalityDepth);
    var reorg := ReorgOf(s, chain, from, to, finalityDepth);
    FirstReplacedIsFirst(s.blocks, chain, lowest, to);
    if reorg.Some? { RollbackAnchors(s, reorg.value, k); }
    var kept := RowAt(Trimmed(s, reorg), k);
    if kept.Some? && lowest <= kept.value.Block() <= to {
      assert !Replaced(s.blocks, chain, kept.value.Block());
      HashDecides(history, chain, c, k, kept.value);
    }
  }

  /** A row below the scanned range survives the rollback. */
  lemma KeptBelow(s: Rows, chain: Chain, from: nat, to: nat, finalityDepth: nat, k: AnchorKey)
    requires RowAt(s, k).Some? && RowAt(s, k).value.Block() < from
    ensures RowAt(Trimmed(s, ReorgOf(s, chain, from, to, finalityDepth)), k) == RowAt(s, k)
  {
    var reorg := ReorgOf(s, chain, from, to, finalityDepth);
    FirstReplacedIsFirst(s.blocks, chain, Lowest(chain.head, from, finalityDepth), to);
    if reorg.Some? { RollbackAnchors(s, reorg.value, k); }
  }

  ghost predicate PassReady(s: Rows, history: History, chain: Chain, c: Contracts, from: nat, finalityDepth: nat) {
    && WellFormed(chain) && Describes(history, chain) && UniqueKeys(chain, c)
    && Sourced(s, history, c)
    && ExactUnder(s, chain, c, from)
    && NoneStale(s, chain, c, 0, Lowest(chain.head, from, finalityDepth))
  }

  lemma NoneStaleAfter(s: Snapshot, history: History, chain: Chain, c: Contracts, from: nat, to: nat,
                       finalityDepth: nat)
    requires PassReady(s.rows, history, chain, c, from, finalityDepth)
    ensures NoneStale(Ingested(s, chain, c, from, to, finalityDepth).rows, chain, c, 0, to + 1)
  {
    var trimmed := Trimmed(s.rows, ReorgOf(s.rows, chain, from, to, finalityDepth));
    var logs := Ordered(chain, c, from, to);
    OrderedMembers(chain, c, from, to);
    forall k | RowAt(Fold(trimmed, logs), k).Some? && RowAt(Fold(trimmed, logs), k).value.Block() < to + 1
      ensures Canonical(chain, c, k, RowAt(Fold(trimmed, logs), k).value)
    {
      var i := LastAnchor(trimmed, logs, k);
      if i == -1 {
        KeptIsCanonical(s.rows, history, chain, c, from, to, finalityDepth, k);
      } else {
        assert logs[i] in chain.logs && Anchors(logs[i], c, k);
      }
    }
  }

  lemma NotMissingAfter(s: Rows, chain: Chain, c: Contracts, from: nat, to: nat, finalityDepth: nat, log: Log)
    requires UniqueKeys(chain, c) && NoneMissing(s, chain, c, from)
    requires log in chain.logs && log.contract in Watched(c) && KeyOf(log).Some? && log.block <= to
    ensures var trimmed := Trimmed(s, ReorgOf(s, chain, from, to, finalityDepth));
      RowAt(Fold(trimmed, Ordered(chain, c, from, to)), KeyOf(log).value) == Some(AnchorOf(log))
  {
    var logs := Ordered(chain, c, from, to);
    OrderedMembers(chain, c, from, to);
    var k := KeyOf(log).value;
    var i := LastAnchor(Trimmed(s, ReorgOf(s, chain, from, to, finalityDepth)), logs, k);
    if i == -1 {
      assert log !in logs;
      KeptBelow(s, chain, from, to, finalityDepth, k);
    } else {
      assert logs[i] in logs && BothAnchor(logs[i], log, c);
    }
  }

  lemma NoneMissingAfter(s: Snapshot, chain: Chain, c: Contracts, from: nat, to: nat, finalityDepth: nat)
    requires UniqueKeys(chain, c) && NoneMissing(s.rows, chain, c, from)
    ensures NoneMissing(Ingested(s, chain, c, from, to, finalityDepth).rows, chain, c, to + 1)
  {
    forall log | log in chain.logs && log.contract in Watched(c) && KeyOf(log).Some? && log.block < to + 1
      ensures RowAt(Ingested(s, chain, c, from, to, finalityDepth).rows, KeyOf(log).value) == Some(AnchorOf(log))
    {
      NotMissingAfter(s.rows, chain, c, from, to, finalityDepth, log);
    }
  }

  lemma SourcedAfter(s: Snapshot, history: History, chain: Chain, c: Contracts, from: nat, to: nat, finalityDepth: nat)
    requires PassReady(s.rows, history, chain, c, from, finalityDepth)
    ensures Sourced(Ingested(s, chain, c, from, to, finalityDepth).rows, history, c)
  {
    var trimmed := Trimmed(s.rows, ReorgOf(s.rows, chain, from, to, finalityDepth));
    var logs := Ordered(chain, c, from, to);
    OrderedMembers(chain, c, from, to);
    forall k | RowAt(Fold(trimmed, logs), k).Some?
      ensures FromHistory(history, c, k, RowAt(Fold(trimmed, logs), k).value)
      ensures Get(Fold(trimmed, logs).blocks, RowAt(Fold(trimmed, logs), k).value.Block())
        == Some(RowAt(Fold(trimmed, logs), k).value.Hash())
    {
      var row := RowAt(Fold(trimmed, logs), k).value;
      FoldRecordsBlocks(trimmed, logs, chain.hashAt, row.Block());
      var i := LastAnchor(trimmed, logs, k);
      if i == -1 {
        KeptIsSourced(s.rows, history, chain, c, from, to, finalityDepth, k);
        KeptIsCanonical(s.rows, history, chain, c, from, to, finalityDepth, k);
        if Touches(logs, row.Block()) { CanonicalHash(chain, c, k, row); }
      } else {
        assert logs[i] in logs && Touches(logs, row.Block());
      }
    }
  }

  lemma CanonicalHash(chain: Chain, c: Contracts, k: AnchorKey, row: AnchorRow)
    requires WellFormed(chain) && Canonical(chain, c, k, row)
    ensures row.Hash() == chain.hashAt(row.Block())
  {
  }

  lemma KeptIsSourced(s: Rows, history: History, chain: Chain, c: Contracts, from: nat, to: nat, finalityDepth: nat,
                      k: AnchorKey)
    requires Sourced(s, history, c)
    ensures var trimmed := Trimmed(s, ReorgOf(s, chain, from, to, finalityDepth));
      RowAt(trimmed, k).Some? ==>
        && FromHistory(history, c, k, RowAt(trimmed, k).value)
        && Get(trimmed.blocks, RowAt(trimmed, k).value.Block()) == Some(RowAt(trimmed, k).value.Hash())
  {
    var reorg := ReorgOf(s, chain, from, to, finalityDepth);
    if reorg.Some? { RollbackAnchors(s, reorg.value, k); }
  }

  /** Whatever stale tail was stored, after a pass the steps and seals at or
      below `to` are exactly the canonical chain's, and the next pass may rely
      on what this one relied on. */
  lemma IngestConverges(s: Snapshot, history: History, chain: Chain, c: Contracts, from: nat, to: nat,
                        finalityDepth: nat)
    requires PassReady(s.rows, history, chain, c, from, finalityDepth)
    ensures var after := Ingested(s, chain, c, from, to, finalityDepth).rows;
      ExactUnder(after, chain, c, to + 1) && Sourced(after, history, c)
  {
    NoneStaleAfter(s, history, chain, c, from, to, finalityDepth);
    NoneMissingAfter(s, chain, c, from, to, finalityDepth);
    SourcedAfter(s, history, chain, c, from, to, finalityDepth);
  }

  // ----- Any number of passes, over a chain that keeps changing --------------

  /** One call of ingestRange: the chain it sees and the range it is given. */
  datatype Scan = Scan(chain: Chain, from: nat, to: nat)

  function Scans(s: Snapshot, scans: seq<Scan>, c: Contracts, finalityDepth: nat): Snapshot {
    if scans == [] then s
    else
      var before, last := Scans(s, scans[..|scans| - 1], c, finalityDepth), scans[|scans| - 1];
      Ingested(before, last.chain, c, last.from, last.to, finalityDepth)
  }

  ghost predicate NoneAbove(s: Rows, top: nat) {
    forall k :: RowAt(s, k).Some? ==> RowAt(s, k).value.Block() <= top
  }

  ghost predicate Proper(scan: Scan, history: History, c: Contracts) {
    WellFormed(scan.chain) && Describes(history, scan.chain) && UniqueKeys(scan.chain, c)
  }

  /** A scan that leaves no gap after the last one, does not end before it, and
      looks back as far as the chain changed, short of what was final. */
  ghost predicate Follows(last: Scan, next: Scan, finalityDepth: nat) {
    && next.from <= last.to + 1 && last.to <= next.to
    && SameUnder(last.chain, next.chain, Shared(last, next, finalityDepth))
  }

  function Shared(last: Scan, next: Scan, finalityDepth: nat): nat {
    var lowest := Lowest(next.chain.head, next.from, finalityDepth);
    if lowest <= last.to + 1 then lowest else last.to + 1
  }

  /** Nothing is anchored below the first block scanned. */
  ghost predicate Deployed(scan: Scan, c: Contracts) {
    forall log :: log in scan.chain.logs && log.contract in Watched(c) && KeyOf(log).Some? ==> scan.from <= log.block
  }

  ghost predicate Campaign(scans: seq<Scan>, history: History, c: Contracts, finalityDepth: nat) {
    && scans != [] && Deployed(scans[0], c)
    && (forall i :: 0 <= i < |scans| ==> Proper(scans[i], history, c))
    && (forall i :: 0 < i < |scans| ==> Follows(scans[i - 1], scans[i], finalityDepth))
  }

  /** Rows exact for one chain are exact for another, below what they share. */
  lemma ExactCarries(s: Rows, a: Chain, b: Chain, c: Contracts, end: nat)
    requires SameUnder(a, b, end) && ExactUnder(s, a, c, end)
    ensures ExactUnder(s, b, c, end)
  {
    assert forall log :: log in a.logs && log.block < end <==> log in Under(a.logs, end);
    assert forall log :: log in b.logs && log.block < end <==> log in Under(b.logs, end);
    forall k | RowAt(s, k).Some? && RowAt(s, k).value.Block() < end ensures Canonical(b, c, k, RowAt(s, k).value) {
      var row := RowAt(s, k).value;
      assert Canonical(a, c, k, row);
      var log :| log in a.logs && Anchors(log, c, k) && AnchorOf(log) == row;
      assert log in Under(b.logs, end);
    }
    forall log | log in b.logs && log.contract in Watched(c) && KeyOf(log).Some? && log.block < end
      ensures RowAt(s, KeyOf(log).value) == Some(AnchorOf(log))
    {
      assert log in Under(a.logs, end);
    }
  }

  lemma ExactLower(s: Rows, chain: Chain, c: Contracts, lower: nat, upper: nat)
    requires ExactUnder(s, chain, c, upper) && lower <= upper
    ensures ExactUnder(s, chain, c, lower)
  {
  }

  /** A pass leaves no row above the highest block scanned so far. */
  lemma NoneAboveAfter(s: Snapshot, chain: Chain, c: Contracts, from: nat, to: nat, finalityDepth: nat, top: nat)
    requires NoneAbove(s.rows, top) && top <= to
    ensures NoneAbove(Ingested(s, chain, c, from, to, finalityDepth).rows, to)
  {
    var reorg := ReorgOf(s.rows, chain, from, to, finalityDepth);
    var trimmed := Trimmed(s.rows, reorg);
    var logs := Ordered(chain, c, from, to);
    OrderedMembers(chain, c, from, to);
    forall k | RowAt(Fold(trimmed, logs), k).Some? ensures RowAt(Fold(trimmed, logs), k).value.Block() <= to {
      if reorg.Some? { RollbackAnchors(s.rows, reorg.value, k); }
      var i := LastAnchor(trimmed, logs, k);
      if i != -1 { assert logs[i] in logs; }
    }
  }

  lemma NextIsReady(s: Rows, last: Scan, next: Scan, history: History, c: Contracts, finalityDepth: nat)
    requires Proper(next, history, c) && Follows(last, next, finalityDepth)
    requires ExactUnder(s, last.chain, c, last.to + 1) && Sourced(s, history, c) && NoneAbove(s, last.to)
    ensures PassReady(s, history, next.chain, c, next.from, finalityDepth)
  {
    var shared := Shared(last, next, finalityDepth);
    ExactLower(s, last.chain, c, shared, last.to + 1);
    ExactCarries(s, last.chain, next.chain, c, shared);
    ExactLower(s, next.chain, c, next.from, shared);
  }

  /** Starting from an empty store, after every pass the steps and seals are
      exactly those of the chain that pass saw, however often it was reorganised. */
  lemma {:induction false} EveryPassConverges(scans: seq<Scan>, history: History, c: Contracts, finalityDepth: nat,
                                              n: nat)
    requires Campaign(scans, history, c, finalityDepth) && 0 < n <= |scans|
    ensures var rows := Scans(EMPTY, scans[..n], c, finalityDepth).rows;
      && ExactUnder(rows, scans[n - 1].chain, c, scans[n - 1].to + 1)
      && NoneAbove(rows, scans[n - 1].to) && Sourced(rows, history, c)
  {
    var scan := scans[n - 1];
    assert scans[..n][..n - 1] == scans[..n - 1];
    var before := Scans(EMPTY, scans[..n - 1], c, finalityDepth);
    if n > 1 {
      EveryPassConverges(scans, history, c, finalityDepth, n - 1);
      NextIsReady(before.rows, scans[n - 2], scan, history, c, finalityDepth);
      NoneAboveAfter(before, scan.chain, c, scan.from, scan.to, finalityDepth, scans[n - 2].to);
    } else {
      assert before == EMPTY;
      NoneAboveAfter(before, scan.chain, c, scan.from, scan.to, finalityDepth, 0);
    }
    IngestConverges(before, history, scan.chain, c, scan.from, scan.to, finalityDepth);
  }

  /** Step and seal tables that answer every key alike are the same. */
  lemma SameAnchors(a: Rows, b: Rows)
    requires forall k :: RowAt(a, k) == RowAt(b, k)
    ensures a.steps == b.steps && a.seals == b.seals
  {
    forall k ensures Get(a.steps, k) == Get(b.steps, k) { assert RowAt(a, OfStep(k)) == RowAt(b, OfStep(k)); }
    Replay.SameAnswers(a.steps, b.steps);
    forall k ensures Get(a.seals, k) == Get(b.seals, k) { assert RowAt(a, OfSeal(k)) == RowAt(b, OfSeal(k)); }
    Replay.SameAnswers(a.seals, b.seals);
  }

  /** Exact rows with none above are determined by the chain. */
  lemma ExactIsUnique(a: Rows, b: Rows, chain: Chain, c: Contracts, to: nat)
    requires ExactUnder(a, chain, c, to + 1) && NoneAbove(a, to)
    requires ExactUnder(b, chain, c, to + 1) && NoneAbove(b, to)
    ensures a.steps == b.steps && a.seals == b.seals
  {
    forall k ensures RowAt(a, k) == RowAt(b, k) {
      ExactAgree(a, b, chain, c, to, k);
      ExactAgree(b, a, chain, c, to, k);
    }
    SameAnchors(a, b);
  }

  lemma ExactAgree(a: Rows, b: Rows, chain: Chain, c: Contracts, to: nat, k: AnchorKey)
    requires ExactUnder(a, chain, c, to + 1) && NoneAbove(a, to) && ExactUnder(b, chain, c, to + 1)
    ensures RowAt(a, k).Some? ==> RowAt(b, k) == RowAt(a, k)
  {
    if RowAt(a, k).Some? {
      var row := RowAt(a, k).value;
      assert Canonical(chain, c, k, row);
      var log :| log in chain.logs && Anchors(log, c, k) && AnchorOf(log) == row;
    }
  }

  /** So the tables are those a fresh index of the canonical chain would hold. */
  lemma PassesAgreeWithFreshIndex(scans: seq<Scan>, history: History, c: Contracts, finalityDepth: nat)
    requires Campaign(scans, history, c, finalityDepth) && DistinctContracts(c)
    ensures var last := scans[|scans| - 1];
      var rows := Scans(EMPTY, scans, c, finalityDepth).rows;
      var plain := Fold(EMPTY.rows, WatchedLogs(last.chain, c, 0, last.to));
      rows.steps == plain.steps && rows.seals == plain.seals
  {
    var last := scans[|scans| - 1];
    assert scans[..|scans|] == scans;
    EveryPassConverges(scans, history, c, finalityDepth, |scans|);
    FreshIsExact(last, history, c, finalityDepth);
    ExactIsUnique(Scans(EMPTY, scans, c, finalityDepth).rows, Fold(EMPTY.rows, WatchedLogs(last.chain, c, 0, last.to)),
                  last.chain, c, last.to);
  }

  lemma FreshIsExact(scan: Scan, history: History, c: Contracts, finalityDepth: nat)
    requires Proper(scan, history, c) && DistinctContracts(c)
    ensures var plain := Fold(EMPTY.rows, WatchedLogs(scan.chain, c, 0, scan.to));
      ExactUnder(plain, scan.chain, c, scan.to + 1) && NoneAbove(plain, scan.to)
  {
    FirstReplacedIsFirst(EMPTY.rows.blocks, scan.chain, Lowest(scan.chain.head, 0, finalityDepth), scan.to);
    assert ReorgOf(EMPTY.rows, scan.chain, 0, scan.to, finalityDepth) == None;
    FetchSortsToWatched(scan.chain, c, 0, scan.to);
    IngestConverges(EMPTY, history, scan.chain, c, 0, scan.to, finalityDepth);
    NoneAboveAfter(EMPTY, scan.chain, c, 0, scan.to, finalityDepth, 0);
  }
}
