/** Reading logs twice: whatever was scanned can be scanned again. */
module Replay {
  import opened Results
  import opened Receipts
  import opened Logs
  import opened Store
  import opened Ingest

  // ----- Steps, seals and blocks: the last write of a key ------------------

  function BlockWrites(logs: seq<Log>): map<nat, BlockHash> {
    if logs == [] then map[]
    else BlockWrites(logs[..|logs| - 1])[logs[|logs| - 1].block := logs[|logs| - 1].blockHash]
  }

  function StepWrites(logs: seq<Log>): map<StepKey, StepRow> {
    if logs == [] then map[] else StepsAfter(StepWrites(logs[..|logs| - 1]), logs[|logs| - 1])
  }

  function SealWrites(logs: seq<Log>): map<Bytes32, SealRow> {
    if logs == [] then map[] else SealsAfter(SealWrites(logs[..|logs| - 1]), logs[|logs| - 1])
  }

  lemma {:induction false} FoldWritesBlocks(s: Rows, logs: seq<Log>)
    ensures Fold(s, logs).blocks == s.blocks + BlockWrites(logs)
  {
    if logs != [] { FoldWritesBlocks(s, logs[..|logs| - 1]); }
  }

  lemma {:induction false} FoldWritesSteps(s: Rows, logs: seq<Log>)
    ensures Fold(s, logs).steps == s.steps + StepWrites(logs)
  {
    if logs != [] { FoldWritesSteps(s, logs[..|logs| - 1]); }
  }

  lemma {:induction false} FoldWritesSeals(s: Rows, logs: seq<Log>)
    ensures Fold(s, logs).seals == s.seals + SealWrites(logs)
  {
    if logs != [] { FoldWritesSeals(s, logs[..|logs| - 1]); }
  }

  // ----- Listings: a threshold and a deactivation --------------------------

  /** The effect of a run of listing logs on one agent's row: what replaces a
      row of no higher version, and what a deactivation does to a higher one. */
  datatype ListingEffect = ListingEffect(top: Option<ListingRow>, gone: Option<nat>)

  function Deactivated(row: ListingRow, block: nat): ListingRow {
    row.(active := false, block := block)
  }

  function ApplyListing(e: ListingEffect, row: Option<ListingRow>): Option<ListingRow> {
    if e.top.Some? && (row.None? || row.value.version <= e.top.value.version) then e.top
    else if row.Some? && e.gone.Some? then Some(Deactivated(row.value, e.gone.value))
    else row
  }

  function ListingEffectOf(logs: seq<Log>, agent: nat): ListingEffect {
    if logs == [] then ListingEffect(None, None)
    else
      var e, log := ListingEffectOf(logs[..|logs| - 1], agent), logs[|logs| - 1];
      match log.event
      case AdapterRegistered(listed, version, _, _) =>
        if listed != agent || (e.top.Some? && e.top.value.version > version) then e
        else e.(top := Some(ListingRowOf(log)))
      case AdapterDeactivated(goneAgent) =>
        if goneAgent != agent then e
        else ListingEffect(if e.top.Some? then Some(Deactivated(e.top.value, log.block)) else None, Some(log.block))
      case _ => e
  }

  lemma {:induction false} FoldListing(s: Rows, logs: seq<Log>, agent: nat)
    ensures Get(Fold(s, logs).listings, agent) == ApplyListing(ListingEffectOf(logs, agent), Get(s.listings, agent))
  {
    if logs != [] {
      FoldListing(s, logs[..|logs| - 1], agent);
    }
  }

  // ----- Bonds: only the logs of the last block count -----------------------

  /** The effect of the bond logs of one block on a bond that is no later. */
  datatype BondEffect = Nothing | SetsBond(amount: Option<nat>, unlockAt: nat, slashed: bool, hash: BlockHash)

  function ApplyBond(e: BondEffect, agent: nat, block: nat, row: Option<BondRow>): Option<BondRow> {
    match e
    case Nothing => row
    case SetsBond(amount, unlockAt, slashed, hash) =>
      var held := if row.Some? then row.value.amount else 0;
      Some(BondRow(agent, if amount.Some? then amount.value else held, unlockAt,
                   slashed || (row.Some? && row.value.slashed), block, hash))
  }

  function NextBond(e: BondEffect, log: Log): BondEffect
    requires IsBondEvent(log.event)
  {
    var slashed := e.SetsBond? && e.slashed;
    match log.event
    case Staked(_, total) => SetsBond(Some(total), 0, slashed, log.blockHash)
    case Slashed(_) => SetsBond(Some(0), 0, true, log.blockHash)
    case Withdrawn(_) => SetsBond(Some(0), 0, slashed, log.blockHash)
    case UnstakeRequested(_, unlockAt) =>
      SetsBond(if e.SetsBond? then e.amount else None, unlockAt, slashed, log.blockHash)
  }

  function BondEffectOf(logs: seq<Log>, agent: nat, block: nat): BondEffect {
    if logs == [] then Nothing
    else
      var e, log := BondEffectOf(logs[..|logs| - 1], agent, block), logs[|logs| - 1];
      if IsBondEvent(log.event) && BondAgent(log.event) == agent && log.block == block then NextBond(e, log) else e
  }

  predicate IsBondLog(log: Log, agent: nat) {
    IsBondEvent(log.event) && BondAgent(log.event) == agent
  }

  /** The highest block an agent's bond logs are from. */
  function LastBondBlock(logs: seq<Log>, agent: nat): (block: Option<nat>)
    ensures forall log :: log in logs && IsBondLog(log, agent) ==> block.Some? && log.block <= block.value
  {
    if logs == [] then None
    else
      var before, log := LastBondBlock(logs[..|logs| - 1], agent), logs[|logs| - 1];
      if IsBondLog(log, agent) && (before.None? || before.value < log.block) then Some(log.block) else before
  }

  ghost predicate BondsBy(logs: seq<Log>, agent: nat, block: nat) {
    forall log :: log in logs && IsBondLog(log, agent) ==> log.block <= block
  }

  /** A bond as recent as its logs only feels those of the last block. */
  lemma {:induction false} FoldBond(s: Rows, logs: seq<Log>, agent: nat, block: nat)
    requires BondsBy(logs, agent, block) && agent in s.bonds && s.bonds[agent].block == block
    ensures Get(Fold(s, logs).bonds, agent) ==
      ApplyBond(BondEffectOf(logs, agent, block), agent, block, Get(s.bonds, agent))
  {
    if logs != [] { FoldBond(s, logs[..|logs| - 1], agent, block); }
  }

  /** A bond more recent than its logs, or with none, stays. */
  lemma {:induction false} FoldKeepsBond(s: Rows, logs: seq<Log>, agent: nat)
    requires forall log :: log in logs && IsBondLog(log, agent) ==> agent in s.bonds && s.bonds[agent].block > log.block
    ensures Get(Fold(s, logs).bonds, agent) == Get(s.bonds, agent)
  {
    if logs != [] { FoldKeepsBond(s, logs[..|logs| - 1], agent); }
  }

  /** What the logs of the last block leave, they leave again. */
  lemma {:induction false} BondSettles(s: Rows, logs: seq<Log>, agent: nat, block: nat)
    requires BondsBy(logs, agent, block) && BondEffectOf(logs, agent, block).SetsBond?
    ensures var row := Get(Fold(s, logs).bonds, agent);
      && row.Some? && row.value.block >= block
      && (row.value.block == block ==> ApplyBond(BondEffectOf(logs, agent, block), agent, block, row) == row)
  {
    var front := logs[..|logs| - 1];
    if BondEffectOf(front, agent, block).SetsBond? {
      BondSettles(s, front, agent, block);
    }
  }

  lemma {:induction false} LastBondCounts(logs: seq<Log>, agent: nat)
    ensures var last := LastBondBlock(logs, agent);
      last.Some? ==> BondEffectOf(logs, agent, last.value).SetsBond?
  {
    if logs != [] { LastBondCounts(logs[..|logs| - 1], agent); }
  }

  lemma BondTwice(s: Rows, logs: seq<Log>, agent: nat)
    ensures Get(Fold(Fold(s, logs), logs).bonds, agent) == Get(Fold(s, logs).bonds, agent)
  {
    var last := LastBondBlock(logs, agent);
    var once := Fold(s, logs);
    if last.None? {
      FoldKeepsBond(once, logs, agent);
    } else {
      LastBondCounts(logs, agent);
      BondSettles(s, logs, agent, last.value);
      if once.bonds[agent].block == last.value {
        FoldBond(once, logs, agent, last.value);
      } else {
        FoldKeepsBond(once, logs, agent);
      }
    }
  }

  // ----- Reading any logs twice -------------------------------------------

  /** Two tables that answer every key alike are the same. */
  lemma SameAnswers<K(!new), V>(a: map<K, V>, b: map<K, V>)
    requires forall k :: Get(a, k) == Get(b, k)
    ensures a == b
  {
    forall k ensures k in a <==> k in b { assert Get(a, k) == Get(b, k); }
    forall k | k in a ensures a[k] == b[k] { assert Get(a, k) == Get(b, k); }
  }

  /** Applying the same logs a second time changes nothing: neither the
      unguarded deactivation, nor an equal version, nor the amount an unstake
      request reads back, whatever the store held before. */
  lemma FoldTwice(s: Rows, logs: seq<Log>)
    ensures Fold(Fold(s, logs), logs) == Fold(s, logs)
  {
    var once, twice := Fold(s, logs), Fold(Fold(s, logs), logs);
    assert twice.blocks == once.blocks && twice.steps == once.steps && twice.seals == once.seals by {
      WritesTwice(s, logs);
    }
    forall agent ensures Get(twice.listings, agent) == Get(once.listings, agent) { ListingTwice(s, logs, agent); }
    SameAnswers(twice.listings, once.listings);
    forall agent ensures Get(twice.bonds, agent) == Get(once.bonds, agent) { BondTwice(s, logs, agent); }
    SameAnswers(twice.bonds, once.bonds);
  }

  lemma WritesTwice(s: Rows, logs: seq<Log>)
    ensures var once, twice := Fold(s, logs), Fold(Fold(s, logs), logs);
      twice.blocks == once.blocks && twice.steps == once.steps && twice.seals == once.seals
  {
    FoldWritesBlocks(s, logs);
    FoldWritesBlocks(Fold(s, logs), logs);
    FoldWritesSteps(s, logs);
    FoldWritesSteps(Fold(s, logs), logs);
    FoldWritesSeals(s, logs);
    FoldWritesSeals(Fold(s, logs), logs);
  }

  lemma ListingTwice(s: Rows, logs: seq<Log>, agent: nat)
    ensures Get(Fold(Fold(s, logs), logs).listings, agent) == Get(Fold(s, logs).listings, agent)
  {
    FoldListing(s, logs, agent);
    FoldListing(Fold(s, logs), logs, agent);
  }

  /** So replaying any suffix of a log over the store the log produced leaves
      the store as it was. */
  lemma ReplayChangesNothing(s: Rows, logs: seq<Log>, kept: nat)
    requires kept <= |logs|
    ensures Fold(Fold(s, logs), logs[kept..]) == Fold(s, logs)
  {
    var suffix := logs[kept..];
    assert logs == logs[..kept] + suffix;
    FoldConcatenates(s, logs[..kept], suffix);
    FoldTwice(Fold(s, logs[..kept]), suffix);
  }

  // ----- Scanning a range again --------------------------------------------

  lemma NothingReplacedAfter(rows: Rows, chain: Chain, c: Contracts, from: nat, to: nat, finalityDepth: nat, block: nat)
    requires WellFormed(chain) && DistinctContracts(c)
    requires Lowest(chain.head, from, finalityDepth) <= block <= to
    ensures !Replaced(Ingested(Snapshot(0, rows), chain, c, from, to, finalityDepth).rows.blocks, chain, block)
  {
    var lowest := Lowest(chain.head, from, finalityDepth);
    var reorg := ReorgOf(rows, chain, from, to, finalityDepth);
    FirstReplacedIsFirst(rows.blocks, chain, lowest, to);
    FetchSortsToWatched(chain, c, from, to);
    var logs := Ordered(chain, c, from, to);
    var trimmed := Trimmed(rows, reorg);
    FoldRecordsBlocks(trimmed, logs, chain.hashAt, block);
    assert block in trimmed.blocks ==> block in rows.blocks && trimmed.blocks[block] == rows.blocks[block];
    assert reorg.None? || block < reorg.value ==> !Replaced(rows.blocks, chain, block);
  }

  lemma RescanFindsNoReorg(rows: Rows, chain: Chain, later: Chain, c: Contracts, from: nat, mid: nat, to: nat,
                           finalityDepth: nat)
    requires WellFormed(chain) && DistinctContracts(c) && from <= mid <= to
    requires SameUnder(later, chain, to + 1) && chain.head <= later.head
    ensures var after := Ingested(Snapshot(0, rows), chain, c, from, to, finalityDepth).rows;
      ReorgOf(after, later, mid, to, finalityDepth) == None
  {
    var after := Ingested(Snapshot(0, rows), chain, c, from, to, finalityDepth).rows;
    FirstReplacedIsFirst(after.blocks, later, Lowest(later.head, mid, finalityDepth), to);
    forall block: nat | Lowest(later.head, mid, finalityDepth) <= block <= to
      ensures !Replaced(after.blocks, later, block)
    {
      NothingReplacedAfter(rows, chain, c, from, to, finalityDepth, block);
    }
  }

  /** A scan that overlaps the last one, of a chain that has only grown since,
      leaves the store as it was. */
  lemma RescanChangesNothing(s: Snapshot, chain: Chain, later: Chain, c: Contracts, from: nat, mid: nat, to: nat,
                             finalityDepth: nat)
    requires WellFormed(chain) && WellFormed(later) && DistinctContracts(c) && from <= mid <= to
    requires SameUnder(later, chain, to + 1) && chain.head <= later.head
    ensures var after := Ingested(s, chain, c, from, to, finalityDepth);
      Ingested(after, later, c, mid, to, finalityDepth) == after
  {
    RescanFindsNoReorg(s.rows, chain, later, c, from, mid, to, finalityDepth);
    SuffixWatched(chain, later, c, from, mid, to);
    ReplaySuffix(Trimmed(s.rows, ReorgOf(s.rows, chain, from, to, finalityDepth)),
                 Ordered(chain, c, from, to), Ordered(later, c, mid, to));
  }

  lemma ReplaySuffix(rows: Rows, whole: seq<Log>, part: seq<Log>)
    requires |part| <= |whole| && whole[|whole| - |part|..] == part
    ensures Fold(Fold(rows, whole), part) == Fold(rows, whole)
  {
    ReplayChangesNothing(rows, whole, |whole| - |part|);
  }

  lemma SuffixWatched(chain: Chain, later: Chain, c: Contracts, from: nat, mid: nat, to: nat)
    requires WellFormed(chain) && WellFormed(later) && DistinctContracts(c) && from <= mid <= to
    requires SameUnder(later, chain, to + 1)
    ensures var whole, part := Ordered(chain, c, from, to), Ordered(later, c, mid, to);
      |part| <= |whole| && whole[|whole| - |part|..] == part
  {
    FetchSortsToWatched(chain, c, from, to);
    FetchSortsToWatched(later, c, mid, to);
    SameLogsUnder(later, chain, c, mid, to);
    RangesConcatenate(chain.logs, from, mid, to + 1, Watched(c));
  }
}
