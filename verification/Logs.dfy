/** The chain's logs as the indexer reads them. */
module Logs {
  import opened Results
  import opened Receipts
  import opened Sorting

  type Address = nat
  type BlockHash = nat

  datatype Event =
    | StepAnchored(receipt: Receipt, txHash: Bytes32)
    | RunSealed(sealedRun: Bytes32, chainRoot: Bytes32, stepCount: nat, outcome: nat, sealTx: Bytes32)
    | AdapterRegistered(listedAgent: nat, version: nat, active: bool, details: Bytes)
    | AdapterDeactivated(goneAgent: nat)
    | Staked(stakedAgent: nat, total: nat)
    | Slashed(slashedAgent: nat)
    | Withdrawn(withdrawnAgent: nat)
    | UnstakeRequested(leavingAgent: nat, unlockAt: nat)
    | Unrecognised

  datatype Log = Log(contract: Address, block: nat, blockHash: BlockHash, logIndex: nat, event: Event)

  function ByPosition(a: Log, b: Log): bool {
    a.block < b.block || (a.block == b.block && a.logIndex <= b.logIndex)
  }

  ghost predicate Before(a: Log, b: Log) {
    a.block < b.block || (a.block == b.block && a.logIndex < b.logIndex)
  }

  ghost predicate Ascending(logs: seq<Log>) {
    forall i, j :: 0 <= i < j < |logs| ==> Before(logs[i], logs[j])
  }

  /** A chain as it stands: its height, its block hashes and its logs in order. */
  datatype Chain = Chain(head: nat, hashAt: nat -> BlockHash, logs: seq<Log>)

  ghost predicate WellFormed(chain: Chain) {
    && Ascending(chain.logs)
    && forall log :: log in chain.logs ==> log.blockHash == chain.hashAt(log.block)
  }

  /** The contracts an indexer watches. */
  datatype Contracts = Contracts(receipts: Address, registry: Option<Address>, reputation: Option<Address>)

  function Watched(c: Contracts): set<Address> {
    {c.receipts} + (if c.registry.Some? then {c.registry.value} else {})
    + (if c.reputation.Some? then {c.reputation.value} else {})
  }

  ghost predicate DistinctContracts(c: Contracts) {
    && Some(c.receipts) != c.registry && Some(c.receipts) != c.reputation
    && (c.registry.Some? ==> c.registry != c.reputation)
  }

  // ----- eth_getLogs ------------------------------------------------------

  /** The logs of these addresses in the blocks from..end-1, in chain order. */
  function Select(logs: seq<Log>, from: nat, end: nat, addresses: set<Address>): (kept: seq<Log>)
    ensures forall log :: log in kept <==> log in logs && from <= log.block < end && log.contract in addresses
  {
    if logs == [] then []
    else
      var front, last := Select(logs[..|logs| - 1], from, end, addresses), logs[|logs| - 1];
      if from <= last.block < end && last.contract in addresses then front + [last] else front
  }

  function GetLogs(chain: Chain, from: nat, to: nat, address: Address): seq<Log> {
    Select(chain.logs, from, to + 1, {address})
  }

  /** Every watched log of a range, in the order of the chain. */
  function WatchedLogs(chain: Chain, c: Contracts, from: nat, to: nat): seq<Log> {
    Select(chain.logs, from, to + 1, Watched(c))
  }

  /** One request per contract, concatenated. */
  function Fetch(chain: Chain, c: Contracts, from: nat, to: nat): seq<Log> {
    GetLogs(chain, from, to, c.receipts)
    + (if c.registry.None? then [] else GetLogs(chain, from, to, c.registry.value))
    + (if c.reputation.None? then [] else GetLogs(chain, from, to, c.reputation.value))
  }

  /** The logs below a height. */
  function Under(logs: seq<Log>, end: nat): (kept: seq<Log>)
    ensures forall log :: log in kept <==> log in logs && log.block < end
  {
    if logs == [] then []
    else
      var front, last := Under(logs[..|logs| - 1], end), logs[|logs| - 1];
      if last.block < end then front + [last] else front
  }

  /** Two chains with the same history below a height. */
  ghost predicate SameUnder(a: Chain, b: Chain, end: nat) {
    && (forall block: nat :: block < end ==> a.hashAt(block) == b.hashAt(block))
    && Under(a.logs, end) == Under(b.logs, end)
  }

  lemma {:induction false} SelectUnder(logs: seq<Log>, from: nat, end: nat, top: nat, addresses: set<Address>)
    requires end <= top
    ensures Select(Under(logs, top), from, end, addresses) == Select(logs, from, end, addresses)
  {
    if logs != [] {
      var front, last := logs[..|logs| - 1], logs[|logs| - 1];
      SelectUnder(front, from, end, top, addresses);
      var under := Under(front, top);
      assert (under + [last])[..|under + [last]| - 1] == under;
    }
  }

  /** What is read of two chains below a height they share is the same. */
  lemma SameLogsUnder(a: Chain, b: Chain, c: Contracts, from: nat, to: nat)
    requires SameUnder(a, b, to + 1)
    ensures WatchedLogs(a, c, from, to) == WatchedLogs(b, c, from, to)
    ensures Fetch(a, c, from, to) == Fetch(b, c, from, to)
  {
    SelectSame(a, b, from, to + 1, Watched(c));
    SelectSame(a, b, from, to + 1, {c.receipts});
    if c.registry.Some? { SelectSame(a, b, from, to + 1, {c.registry.value}); }
    if c.reputation.Some? { SelectSame(a, b, from, to + 1, {c.reputation.value}); }
  }

  lemma SelectSame(a: Chain, b: Chain, from: nat, end: nat, addresses: set<Address>)
    requires SameUnder(a, b, end)
    ensures Select(a.logs, from, end, addresses) == Select(b.logs, from, end, addresses)
  {
    SelectUnder(a.logs, from, end, end, addresses);
    SelectUnder(b.logs, from, end, end, addresses);
  }

  // ----- Fetching by contract and sorting is reading the chain in order ----

  lemma {:induction false} SelectAscends(logs: seq<Log>, from: nat, end: nat, addresses: set<Address>)
    requires Ascending(logs)
    ensures Ascending(Select(logs, from, end, addresses))
  {
    if logs != [] {
      var front := Select(logs[..|logs| - 1], from, end, addresses);
      SelectAscends(logs[..|logs| - 1], from, end, addresses);
      forall i | 0 <= i < |front| ensures Before(front[i], logs[|logs| - 1]) {
        assert front[i] in logs[..|logs| - 1];
      }
    }
  }

  /** Selecting two disjoint sets of addresses is selecting each. */
  lemma {:induction false} SelectSplits(logs: seq<Log>, from: nat, end: nat, a: set<Address>, b: set<Address>)
    requires a !! b
    ensures multiset(Select(logs, from, end, a + b)) ==
      multiset(Select(logs, from, end, a)) + multiset(Select(logs, from, end, b))
  {
    if logs != [] {
      SelectSplits(logs[..|logs| - 1], from, end, a, b);
    }
  }

  lemma FetchIsWatched(chain: Chain, c: Contracts, from: nat, to: nat)
    requires DistinctContracts(c)
    ensures multiset(Fetch(chain, c, from, to)) == multiset(WatchedLogs(chain, c, from, to))
  {
    var a := {c.receipts};
    var b := if c.registry.Some? then {c.registry.value} else {};
    var d := if c.reputation.Some? then {c.reputation.value} else {};
    SelectSplits(chain.logs, from, to + 1, a, b);
    SelectSplits(chain.logs, from, to + 1, a + b, d);
    SelectNone(chain.logs, from, to + 1);
  }

  lemma {:induction false} SelectNone(logs: seq<Log>, from: nat, end: nat)
    ensures Select(logs, from, end, {}) == []
  {
    if logs != [] { SelectNone(logs[..|logs| - 1], from, end); }
  }

  /** The logs of a range as the indexer takes them: fetched, then sorted. */
  function Ordered(chain: Chain, c: Contracts, from: nat, to: nat): seq<Log> {
    Sort(Fetch(chain, c, from, to), ByPosition)
  }

  /** Fetching each contract's logs, concatenating and sorting gives the
      watched logs of the range in chain order. */
  lemma FetchSortsToWatched(chain: Chain, c: Contracts, from: nat, to: nat)
    requires WellFormed(chain) && DistinctContracts(c)
    ensures Ordered(chain, c, from, to) == WatchedLogs(chain, c, from, to)
  {
    var logs := Fetch(chain, c, from, to);
    FetchIsWatched(chain, c, from, to);
    SortKeeps(logs, ByPosition);
    SortSorts(logs, ByPosition);
    SelectAscends(chain.logs, from, to + 1, Watched(c));
    SortedIsUnique(WatchedLogs(chain, c, from, to), Sort(logs, ByPosition), ByPosition);
  }

  /** Adjacent ranges read one after the other are the whole range. */
  lemma {:induction false} RangesConcatenate(logs: seq<Log>, from: nat, mid: nat, end: nat, addresses: set<Address>)
    requires Ascending(logs) && from <= mid <= end
    ensures Select(logs, from, end, addresses) ==
      Select(logs, from, mid, addresses) + Select(logs, mid, end, addresses)
  {
    if logs != [] {
      var front, last := logs[..|logs| - 1], logs[|logs| - 1];
      RangesConcatenate(front, from, mid, end, addresses);
      if last.block < mid { NothingAfter(front, last.block, mid, end, addresses); }
    }
  }

  lemma {:induction false} NothingAfter(logs: seq<Log>, top: nat, from: nat, end: nat, addresses: set<Address>)
    requires forall i :: 0 <= i < |logs| ==> logs[i].block <= top
    requires top < from
    ensures Select(logs, from, end, addresses) == []
  {
    if logs != [] { NothingAfter(logs[..|logs| - 1], top, from, end, addresses); }
  }
}
