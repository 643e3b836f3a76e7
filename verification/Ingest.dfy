/** Scanning a range of blocks into the store, and catching up in batches. */
module Ingest {
  import opened Results
  import opened Logs
  import opened Sorting
  import opened Store

  // ----- Looking for a reorganisation -------------------------------------

  ghost predicate Replaced(blocks: map<nat, BlockHash>, chain: Chain, block: nat) {
    block in blocks && blocks[block] != chain.hashAt(block)
  }

  /** Blocks below this are never checked again. */
  function Lowest(head: nat, from: nat, finalityDepth: nat): nat {
    if from > head - finalityDepth then from else head - finalityDepth
  }

  function FirstReplaced(blocks: map<nat, BlockHash>, chain: Chain, block: nat, to: nat): Option<nat>
    decreases 1 + to - block
  {
    if block > to then None
    else if block in blocks && blocks[block] != chain.hashAt(block) then Some(block)
    else FirstReplaced(blocks, chain, block + 1, to)
  }

  /** The first recorded block of the range whose hash the chain no longer has. */
  lemma {:induction false} FirstReplacedIsFirst(blocks: map<nat, BlockHash>, chain: Chain, block: nat, to: nat)
    ensures var r := FirstReplaced(blocks, chain, block, to);
      && (r.None? <==> forall b: nat :: block <= b <= to ==> !Replaced(blocks, chain, b))
      && (r.Some? ==> block <= r.value <= to && Replaced(blocks, chain, r.value))
      && (r.Some? ==> forall b: nat :: block <= b < r.value ==> !Replaced(blocks, chain, b))
    decreases 1 + to - block
  {
    if block <= to && !Replaced(blocks, chain, block) {
      FirstReplacedIsFirst(blocks, chain, block + 1, to);
    }
  }

  method FindReorg(store: MemoryStore, chain: Chain, from: nat, to: nat, finalityDepth: nat)
    returns (earliest: Option<nat>)
    ensures earliest == FirstReplaced(store.blocks, chain, Lowest(chain.head, from, finalityDepth), to)
  {
    var finalised := chain.head - finalityDepth;
    var lowest: nat := if from > finalised then from else finalised;
    earliest := None;
    var block := lowest;
    while block <= to
      invariant earliest.None? && lowest <= block
      invariant FirstReplaced(store.blocks, chain, lowest, to) == FirstReplaced(store.blocks, chain, block, to)
      decreases 1 + to - block
    {
      var indexed := Get(store.blocks, block);
      if indexed.Some? && chain.hashAt(block) != indexed.value {
        earliest := Some(block);
        break;
      }
      block := block + 1;
    }
  }

  // ----- One range --------------------------------------------------------

  datatype IngestResult = IngestResult(
    scannedFrom: nat, scannedTo: nat,
    steps: nat, seals: nat, listings: nat, bonds: nat,
    reorgedFrom: Option<nat>)

  datatype Kind = StepLog | SealLog | ListingLog | BondLog

  predicate IsKind(e: Event, kind: Kind) {
    match kind
    case StepLog => e.StepAnchored?
    case SealLog => e.RunSealed?
    case ListingLog => e.AdapterRegistered? || e.AdapterDeactivated?
    case BondLog => IsBondEvent(e)
  }

  function Count(logs: seq<Log>, kind: Kind): nat {
    if logs == [] then 0
    else Count(logs[..|logs| - 1], kind) + (if IsKind(logs[|logs| - 1].event, kind) then 1 else 0)
  }

  /** The logs of one kind: the places where they are. */
  ghost function Places(logs: seq<Log>, kind: Kind): set<nat> {
    set i: nat | i < |logs| && IsKind(logs[i].event, kind)
  }

  lemma PlacesGrow(logs: seq<Log>, kind: Kind)
    requires logs != []
    ensures var n := |logs| - 1;
      && n !in Places(logs[..n], kind)
      && Places(logs, kind) ==
         if IsKind(logs[n].event, kind) then Places(logs[..n], kind) + {n} else Places(logs[..n], kind)
  {
    var n := |logs| - 1;
    forall i: nat ensures i in Places(logs, kind) <==>
      i in Places(logs[..n], kind) || (i == n && IsKind(logs[n].event, kind))
    {
      if i < n { assert logs[..n][i] == logs[i]; }
    }
  }

  /** What is counted is each of them once. */
  lemma {:induction false} CountsPlaces(logs: seq<Log>, kind: Kind)
    ensures Count(logs, kind) == |Places(logs, kind)|
  {
    if logs == [] {
      assert Places(logs, kind) == {};
    } else {
      CountsPlaces(logs[..|logs| - 1], kind);
      PlacesGrow(logs, kind);
    }
  }

  /** The rows left once what was replaced is dropped. */
  function Trimmed(rows: Rows, reorg: Option<nat>): Rows {
    if reorg.Some? then RolledBack(rows, reorg.value) else rows
  }

  function ReorgOf(rows: Rows, chain: Chain, from: nat, to: nat, finalityDepth: nat): Option<nat> {
    FirstReplaced(rows.blocks, chain, Lowest(chain.head, from, finalityDepth), to)
  }

  /** A reorganisation is found at the lowest recorded block of the range, and
      not below the finalised height, whose hash the chain no longer has. */
  lemma ReorgFound(rows: Rows, chain: Chain, from: nat, to: nat, finalityDepth: nat, b: nat)
    ensures ReorgOf(rows, chain, from, to, finalityDepth) == Some(b) <==>
      && from <= b <= to && chain.head - finalityDepth <= b && Replaced(rows.blocks, chain, b)
      && forall a: nat :: from <= a < b && chain.head - finalityDepth <= a ==> !Replaced(rows.blocks, chain, a)
  {
    FirstReplacedIsFirst(rows.blocks, chain, Lowest(chain.head, from, finalityDepth), to);
  }

  /** The store after a range is scanned. */
  function Ingested(s: Snapshot, chain: Chain, c: Contracts, from: nat, to: nat, finalityDepth: nat): Snapshot {
    Snapshot(to, Fold(Trimmed(s.rows, ReorgOf(s.rows, chain, from, to, finalityDepth)), Ordered(chain, c, from, to)))
  }

  method ApplyTo(store: MemoryStore, log: Log) returns (kind: Option<Kind>)
    modifies store
    ensures store.Value() == Snapshot(old(store.cursor), ApplyLog(old(store.Value().rows), log))
    ensures forall k :: IsKind(log.event, k) <==> kind == Some(k)
  {
    store.RecordBlock(log.block, log.blockHash);
    match log.event
    case StepAnchored(_, _) =>
      store.UpsertStep(StepRowOf(log));
      kind := Some(StepLog);
    case RunSealed(_, _, _, _, _) =>
      store.UpsertSeal(SealRowOf(log));
      kind := Some(SealLog);
    case AdapterRegistered(_, _, _, _) =>
      store.UpsertAgentListing(ListingRowOf(log));
      kind := Some(ListingLog);
    case AdapterDeactivated(agent) =>
      store.DeactivateAgentListing(agent, log.block);
      kind := Some(ListingLog);
    case Unrecognised =>
      kind := None;
    case _ =>
      var agent := BondAgent(log.event);
      var held := if agent in store.bonds then store.bonds[agent].amount else 0;
      store.UpsertAgentBond(BondRowOf(log, held));
      kind := Some(BondLog);
  }

  method ApplyAll(store: MemoryStore, ordered: seq<Log>)
    returns (steps: nat, seals: nat, listings: nat, bonds: nat)
    modifies store
    ensures store.Value().rows == Fold(old(store.Value().rows), ordered)
    ensures steps == Count(ordered, StepLog) && seals == Count(ordered, SealLog)
    ensures listings == Count(ordered, ListingLog) && bonds == Count(ordered, BondLog)
  {
    steps, seals, listings, bonds := 0, 0, 0, 0;
    for i := 0 to |ordered|
      invariant store.Value().rows == Fold(old(store.Value().rows), ordered[..i])
      invariant steps == Count(ordered[..i], StepLog) && seals == Count(ordered[..i], SealLog)
      invariant listings == Count(ordered[..i], ListingLog) && bonds == Count(ordered[..i], BondLog)
    {
      assert ordered[..i + 1][..i] == ordered[..i];
      var kind := ApplyTo(store, ordered[i]);
      if kind == Some(StepLog) { steps := steps + 1; }
      else if kind == Some(SealLog) { seals := seals + 1; }
      else if kind == Some(ListingLog) { listings := listings + 1; }
      else if kind == Some(BondLog) { bonds := bonds + 1; }
    }
    assert ordered[..|ordered|] == ordered;
  }

  method IngestRange(store: MemoryStore, chain: Chain, c: Contracts, start: nat, to: nat, finalityDepth: nat)
    returns (result: IngestResult)
    modifies store
    ensures store.Value() == Ingested(old(store.Value()), chain, c, start, to, finalityDepth)
    ensures result.scannedFrom == start && result.scannedTo == to
    ensures result.reorgedFrom == ReorgOf(old(store.Value().rows), chain, start, to, finalityDepth)
    ensures result.steps == Count(Ordered(chain, c, start, to), StepLog)
    ensures result.seals == Count(Ordered(chain, c, start, to), SealLog)
    ensures result.listings == Count(Ordered(chain, c, start, to), ListingLog)
    ensures result.bonds == Count(Ordered(chain, c, start, to), BondLog)
  {
    var from := start;
    var reorgedFrom := FindReorg(store, chain, from, to, finalityDepth);
    FirstReplacedIsFirst(store.blocks, chain, Lowest(chain.head, from, finalityDepth), to);
    if reorgedFrom.Some? {
      var replaced := reorgedFrom.value;
      store.RollbackFrom(replaced);
      if replaced < from { from := replaced; }
    }
    var ordered := Sort(
      GetLogs(chain, from, to, c.receipts)
      + (if c.registry.None? then [] else GetLogs(chain, from, to, c.registry.value))
      + (if c.reputation.None? then [] else GetLogs(chain, from, to, c.reputation.value)),
      ByPosition);
    assert ordered == Ordered(chain, c, start, to);
    var steps, seals, listings, bonds := ApplyAll(store, ordered);
    store.SetCursor(to);
    result := IngestResult(from, to, steps, seals, listings, bonds, reorgedFrom);
  }
}
