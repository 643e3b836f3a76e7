/** The indexer's store: what each operation does to it, as values, and the
    mutable store that does it. */
module Store {
  import opened Results
  import opened Receipts
  import opened Logs

  datatype StepKey = StepKey(run: Bytes32, index: nat)

  datatype StepRow = StepRow(receipt: Receipt, txHash: Bytes32, block: nat, blockHash: BlockHash, logIndex: nat)

  datatype SealRow = SealRow(
    run: Bytes32, chainRoot: Bytes32, stepCount: nat, outcome: nat,
    txHash: Bytes32, block: nat, blockHash: BlockHash)

  datatype ListingRow = ListingRow(
    agent: nat, version: nat, active: bool, details: Bytes, block: nat, blockHash: BlockHash)

  datatype BondRow = BondRow(
    agent: nat, amount: nat, unlockAt: nat, slashed: bool, block: nat, blockHash: BlockHash)

  datatype Rows = Rows(
    blocks: map<nat, BlockHash>,
    steps: map<StepKey, StepRow>,
    seals: map<Bytes32, SealRow>,
    listings: map<nat, ListingRow>,
    bonds: map<nat, BondRow>)

  /** Everything the store holds: its rows and the highest block scanned. */
  datatype Snapshot = Snapshot(cursor: nat, rows: Rows)

  const EMPTY := Snapshot(0, Rows(map[], map[], map[], map[], map[]))

  function Get<K, V>(m: map<K, V>, k: K): Option<V> {
    if k in m then Some(m[k]) else None
  }

  // ----- Each operation, on the table it changes ---------------------------

  function WithStep(steps: map<StepKey, StepRow>, row: StepRow): map<StepKey, StepRow> {
    steps[StepKey(row.receipt.runId, row.receipt.stepIndex) := row]
  }

  function WithSeal(seals: map<Bytes32, SealRow>, row: SealRow): map<Bytes32, SealRow> {
    seals[row.run := row]
  }

  /** A listing of a lower version than the stored one is ignored. */
  function WithListing(listings: map<nat, ListingRow>, row: ListingRow): map<nat, ListingRow> {
    if row.agent in listings && listings[row.agent].version > row.version then listings
    else listings[row.agent := row]
  }

  /** Unguarded: only an unknown agent is ignored. */
  function WithoutListing(listings: map<nat, ListingRow>, agent: nat, block: nat): map<nat, ListingRow> {
    if agent !in listings then listings
    else listings[agent := listings[agent].(active := false, block := block)]
  }

  /** A bond of an earlier block is ignored; slashed never goes back. */
  function WithBond(bonds: map<nat, BondRow>, row: BondRow): map<nat, BondRow> {
    if row.agent in bonds && bonds[row.agent].block > row.block then bonds
    else
      var before := row.agent in bonds && bonds[row.agent].slashed;
      bonds[row.agent := row.(slashed := row.slashed || before)]
  }

  /** The entries whose block is below this one. */
  function Below<K, V>(entries: map<K, V>, blockOf: map<K, nat>, block: nat): map<K, V> {
    map k | k in entries && k in blockOf && blockOf[k] < block :: entries[k]
  }

  function StepBlocks(steps: map<StepKey, StepRow>): map<StepKey, nat> {
    map k | k in steps :: steps[k].block
  }

  function SealBlocks(seals: map<Bytes32, SealRow>): map<Bytes32, nat> {
    map k | k in seals :: seals[k].block
  }

  function ListingBlocks(listings: map<nat, ListingRow>): map<nat, nat> {
    map k | k in listings :: listings[k].block
  }

  function BondBlocks(bonds: map<nat, BondRow>): map<nat, nat> {
    map k | k in bonds :: bonds[k].block
  }

  function Numbers(blocks: map<nat, BlockHash>): map<nat, nat> {
    map b | b in blocks :: b
  }

  function RolledBack(s: Rows, block: nat): Rows {
    Rows(
      Below(s.blocks, Numbers(s.blocks), block),
      Below(s.steps, StepBlocks(s.steps), block),
      Below(s.seals, SealBlocks(s.seals), block),
      Below(s.listings, ListingBlocks(s.listings), block),
      Below(s.bonds, BondBlocks(s.bonds), block))
  }

  function RewoundCursor(cursor: nat, block: nat): nat {
    if cursor >= block then (if block > 0 then block - 1 else 0) else cursor
  }

  // ----- One log, and a sequence of them -----------------------------------

  function HeldAmount(bonds: map<nat, BondRow>, agent: nat): nat {
    if agent in bonds then bonds[agent].amount else 0
  }

  function StepRowOf(log: Log): StepRow
    requires log.event.StepAnchored?
  {
    StepRow(log.event.receipt, log.event.txHash, log.block, log.blockHash, log.logIndex)
  }

  function SealRowOf(log: Log): SealRow
    requires log.event.RunSealed?
  {
    var e := log.event;
    SealRow(e.sealedRun, e.chainRoot, e.stepCount, e.outcome, e.sealTx, log.block, log.blockHash)
  }

  function ListingRowOf(log: Log): ListingRow
    requires log.event.AdapterRegistered?
  {
    var e := log.event;
    ListingRow(e.listedAgent, e.version, e.active, e.details, log.block, log.blockHash)
  }

  predicate IsBondEvent(e: Event) {
    e.Staked? || e.Slashed? || e.Withdrawn? || e.UnstakeRequested?
  }

  function BondAgent(e: Event): nat
    requires IsBondEvent(e)
  {
    match e
    case Staked(agent, _) => agent
    case Slashed(agent) => agent
    case Withdrawn(agent) => agent
    case UnstakeRequested(agent, _) => agent
  }

  /** The bond a log sets; held is what an unstake request carries through. */
  function BondRowOf(log: Log, held: nat): BondRow
    requires IsBondEvent(log.event)
  {
    match log.event
    case Staked(agent, total) => BondRow(agent, total, 0, false, log.block, log.blockHash)
    case Slashed(agent) => BondRow(agent, 0, 0, true, log.block, log.blockHash)
    case Withdrawn(agent) => BondRow(agent, 0, 0, false, log.block, log.blockHash)
    case UnstakeRequested(agent, unlockAt) => BondRow(agent, held, unlockAt, false, log.block, log.blockHash)
  }

  function StepsAfter(steps: map<StepKey, StepRow>, log: Log): map<StepKey, StepRow> {
    if log.event.StepAnchored? then WithStep(steps, StepRowOf(log)) else steps
  }

  function SealsAfter(seals: map<Bytes32, SealRow>, log: Log): map<Bytes32, SealRow> {
    if log.event.RunSealed? then WithSeal(seals, SealRowOf(log)) else seals
  }

  function ListingsAfter(listings: map<nat, ListingRow>, log: Log): map<nat, ListingRow> {
    if log.event.AdapterRegistered? then WithListing(listings, ListingRowOf(log))
    else if log.event.AdapterDeactivated? then WithoutListing(listings, log.event.goneAgent, log.block)
    else listings
  }

  function BondsAfter(bonds: map<nat, BondRow>, log: Log): map<nat, BondRow> {
    if IsBondEvent(log.event)
    then WithBond(bonds, BondRowOf(log, HeldAmount(bonds, BondAgent(log.event))))
    else bonds
  }

  function ApplyLog(s: Rows, log: Log): Rows {
    Rows(
      s.blocks[log.block := log.blockHash],
      StepsAfter(s.steps, log), SealsAfter(s.seals, log),
      ListingsAfter(s.listings, log), BondsAfter(s.bonds, log))
  }

  function Fold(s: Rows, logs: seq<Log>): Rows {
    if logs == [] then s else ApplyLog(Fold(s, logs[..|logs| - 1]), logs[|logs| - 1])
  }

  lemma {:induction false} FoldConcatenates(s: Rows, a: seq<Log>, b: seq<Log>)
    ensures Fold(s, a + b) == Fold(Fold(s, a), b)
  {
    if b == [] {
      assert a + b == a;
    } else {
      FoldConcatenates(s, a, b[..|b| - 1]);
      assert (a + b)[..|a + b| - 1] == a + b[..|b| - 1];
    }
  }

  lemma FoldJoins(s: Rows, a: seq<Log>, b: seq<Log>, whole: seq<Log>)
    requires a + b == whole
    ensures Fold(Fold(s, a), b) == Fold(s, whole)
  {
    FoldConcatenates(s, a, b);
  }

  ghost predicate Touches(logs: seq<Log>, block: nat) {
    exists log :: log in logs && log.block == block
  }

  /** Logs of one chain record its hash for the blocks they touch, and no other. */
  lemma {:induction false} FoldRecordsBlocks(s: Rows, logs: seq<Log>, hashAt: nat -> BlockHash, block: nat)
    requires forall log :: log in logs ==> log.blockHash == hashAt(log.block)
    ensures Get(Fold(s, logs).blocks, block) ==
      if Touches(logs, block) then Some(hashAt(block)) else Get(s.blocks, block)
  {
    if logs != [] {
      var front, last := logs[..|logs| - 1], logs[|logs| - 1];
      assert logs == front + [last];
      FoldRecordsBlocks(s, front, hashAt, block);
      assert Touches(logs, block) <==> Touches(front, block) || last.block == block by {
        assert last in logs;
      }
    }
  }

  // ----- The store itself -------------------------------------------------

  /** Deletes the entries at or above a block, one key at a time. */
  method DropFrom<K(==), V>(entries: map<K, V>, blockOf: map<K, nat>, block: nat) returns (kept: map<K, V>)
    requires blockOf.Keys == entries.Keys
    ensures kept == Below(entries, blockOf, block)
  {
    kept := entries;
    var left := entries.Keys;
    while left != {}
      invariant left <= entries.Keys
      invariant kept == map k | k in entries && (k in left || blockOf[k] < block) :: entries[k]
    {
      var k :| k in left;
      if blockOf[k] >= block {
        kept := kept - {k};
      }
      left := left - {k};
    }
  }

  class MemoryStore {
    var cursor: nat
    var blocks: map<nat, BlockHash>
    var steps: map<StepKey, StepRow>
    var seals: map<Bytes32, SealRow>
    var listings: map<nat, ListingRow>
    var bonds: map<nat, BondRow>

    function Value(): Snapshot
      reads this
    {
      Snapshot(cursor, Rows(blocks, steps, seals, listings, bonds))
    }

    constructor ()
      ensures Value() == EMPTY
    {
      cursor := 0;
      blocks, steps, seals, listings, bonds := map[], map[], map[], map[], map[];
    }

    method SetCursor(block: nat)
      modifies `cursor
      ensures cursor == block
    {
      cursor := block;
    }

    method RecordBlock(block: nat, hash: BlockHash)
      modifies `blocks
      ensures blocks == old(blocks)[block := hash]
    {
      blocks := blocks[block := hash];
    }

    method UpsertStep(row: StepRow)
      modifies `steps
      ensures steps == WithStep(old(steps), row)
    {
      steps := steps[StepKey(row.receipt.runId, row.receipt.stepIndex) := row];
    }

    method UpsertSeal(row: SealRow)
      modifies `seals
      ensures seals == WithSeal(old(seals), row)
    {
      seals := seals[row.run := row];
    }

    method UpsertAgentListing(row: ListingRow)
      modifies `listings
      ensures listings == WithListing(old(listings), row)
    {
      var existing := Get(listings, row.agent);
      if existing.Some? && existing.value.version > row.version { return; }
      listings := listings[row.agent := row];
    }

    method DeactivateAgentListing(agent: nat, block: nat)
      modifies `listings
      ensures listings == WithoutListing(old(listings), agent, block)
    {
      var existing := Get(listings, agent);
      if existing.None? { return; }
      listings := listings[agent := existing.value.(active := false, block := block)];
    }

    method UpsertAgentBond(row: BondRow)
      modifies `bonds
      ensures bonds == WithBond(old(bonds), row)
    {
      var previous := Get(bonds, row.agent);
      if previous.Some? && previous.value.block > row.block { return; }
      bonds := bonds[row.agent := row.(slashed := row.slashed || (previous.Some? && previous.value.slashed))];
    }

    method RollbackFrom(block: nat)
      modifies this
      ensures Value() == Snapshot(RewoundCursor(old(cursor), block), RolledBack(old(Value().rows), block))
      // the cursor is at the highest block scanned that was not dropped, or at 0
      ensures cursor <= old(cursor) && (cursor < block || cursor == 0)
      ensures cursor == old(cursor) || cursor + 1 >= block
    {
      steps := DropFrom(steps, StepBlocks(steps), block);
      seals := DropFrom(seals, SealBlocks(seals), block);
      listings := DropFrom(listings, ListingBlocks(listings), block);
      bonds := DropFrom(bonds, BondBlocks(bonds), block);
      blocks := DropFrom(blocks, Numbers(blocks), block);
      if cursor >= block {
        cursor := if block > 0 then block - 1 else 0;
      }
    }
  }
}
