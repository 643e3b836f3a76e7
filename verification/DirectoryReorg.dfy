/** After a reorganisation: which listings and bonds are the chain's, exactly. */
module DirectoryReorg {
  import opened Results
  import opened Logs
  import opened Store
  import opened Ingest
  import opened Reorg
  import opened Directory
  import Replay

  /** What a plain index of the chain below a height holds. */
  function Indexed(chain: Chain, c: Contracts, end: nat): Rows {
    Fold(EMPTY.rows, Select(chain.logs, 0, end, Watched(c)))
  }

  // ----- Reading part of an index again ------------------------------------

  /** Reading from..to over an index that reaches between them is indexing up to `to`. */
  lemma OverlapIndexes(chain: Chain, c: Contracts, from: nat, mid: nat, to: nat)
    requires WellFormed(chain) && DistinctContracts(c) && from <= mid <= to + 1
    ensures Fold(Indexed(chain, c, mid), Ordered(chain, c, from, to)) == Indexed(chain, c, to + 1)
  {
    var w := Watched(c);
    var below, again, rest := Select(chain.logs, 0, from, w), Select(chain.logs, from, mid, w),
      Select(chain.logs, mid, to + 1, w);
    FetchSortsToWatched(chain, c, from, to);
    RangesConcatenate(chain.logs, 0, from, mid, w);
    RangesConcatenate(chain.logs, from, mid, to + 1, w);
    RangesConcatenate(chain.logs, 0, mid, to + 1, w);
    FoldConcatenates(EMPTY.rows, below, again);
    FoldConcatenates(Indexed(chain, c, mid), again, rest);
    Replay.FoldTwice(Fold(EMPTY.rows, below), again);
    FoldConcatenates(EMPTY.rows, below + again, rest);
  }

  /** An agent's listing depends on its listing before and on the logs alone. */
  lemma ListingFollows(a: Rows, b: Rows, logs: seq<Log>, agent: nat)
    requires Get(a.listings, agent) == Get(b.listings, agent)
    ensures Get(Fold(a, logs).listings, agent) == Get(Fold(b, logs).listings, agent)
  {
    Replay.FoldListing(a, logs, agent);
    Replay.FoldListing(b, logs, agent);
  }

  lemma {:induction false} BondFollows(a: Rows, b: Rows, logs: seq<Log>, agent: nat)
    requires Get(a.bonds, agent) == Get(b.bonds, agent)
    ensures Get(Fold(a, logs).bonds, agent) == Get(Fold(b, logs).bonds, agent)
  {
    if logs != [] {
      var front := logs[..|logs| - 1];
      BondFollows(a, b, front, agent);
      BondFollowsOne(Fold(a, front).bonds, Fold(b, front).bonds, logs[|logs| - 1], agent);
    }
  }

  lemma BondFollowsOne(a: map<nat, BondRow>, b: map<nat, BondRow>, log: Log, agent: nat)
    requires Get(a, agent) == Get(b, agent)
    ensures Get(BondsAfter(a, log), agent) == Get(BondsAfter(b, log), agent)
  {
  }

  ghost predicate LogsFrom(logs: seq<Log>, block: nat) {
    forall log :: log in logs ==> block <= log.block
  }

  /** Logs at or above a block leave an agent's rows alone or move them there. */
  lemma {:induction false} RowsMoveUp(s: Rows, logs: seq<Log>, agent: nat, block: nat)
    requires LogsFrom(logs, block)
    ensures var row := Get(Fold(s, logs).listings, agent);
      row == Get(s.listings, agent) || (row.Some? && row.value.block >= block)
    ensures var row := Get(Fold(s, logs).bonds, agent);
      row == Get(s.bonds, agent) || (row.Some? && row.value.block >= block)
  {
    if logs != [] {
      assert logs[|logs| - 1] in logs;
      RowsMoveUp(s, logs[..|logs| - 1], agent, block);
    }
  }

  lemma {:induction false} IndexedBelow(logs: seq<Log>, agent: nat, end: nat)
    requires forall log :: log in logs ==> log.block < end
    ensures var row := Get(Fold(EMPTY.rows, logs).listings, agent); row.Some? ==> row.value.block < end
    ensures var row := Get(Fold(EMPTY.rows, logs).bonds, agent); row.Some? ==> row.value.block < end
  {
    if logs != [] {
      assert logs[|logs| - 1] in logs;
      IndexedBelow(logs[..|logs| - 1], agent, end);
    }
  }

  // ----- What is left after the rollback ------------------------------------

  /** A block's hash commits to all the blocks before it. */
  ghost predicate HashesCommit(last: Chain, next: Chain) {
    forall block: nat :: last.hashAt(block) == next.hashAt(block) ==> SameUnder(last, next, block + 1)
  }

  /** Every block that has a watched log is recorded. */
  ghost predicate Recorded(blocks: map<nat, BlockHash>, chain: Chain, c: Contracts, end: nat) {
    forall log :: log in Select(chain.logs, 0, end, Watched(c)) ==> Get(blocks, log.block) == Some(log.blockHash)
  }

  /** A store filled by `last`, about to be taken on to `next`. */
  ghost predicate Ready(s: Rows, last: Scan, next: Scan, c: Contracts, finalityDepth: nat) {
    && WellFormed(last.chain) && WellFormed(next.chain) && DistinctContracts(c)
    && HashesCommit(last.chain, next.chain) && Follows(last, next, finalityDepth)
    && Recorded(s.blocks, last.chain, c, last.to + 1)
  }

  function ReorgAt(s: Rows, next: Scan, finalityDepth: nat): Option<nat> {
    ReorgOf(s, next.chain, next.from, next.to, finalityDepth)
  }

  function Cut(s: Rows, last: Scan, next: Scan, finalityDepth: nat): nat {
    CutAt(ReorgAt(s, next, finalityDepth), last.to)
  }

  function CutAt(reorg: Option<nat>, top: nat): nat {
    if reorg.Some? && reorg.value <= top then reorg.value else top + 1
  }

  /** Where two chains last agree among the watched blocks below a height. */
  lemma Meet(last: Chain, next: Chain, c: Contracts, shared: nat, cut: nat) returns (mid: nat)
    requires WellFormed(last) && HashesCommit(last, next) && shared <= cut && SameUnder(last, next, shared)
    requires forall log :: log in Select(last.logs, shared, cut, Watched(c)) ==> log.blockHash == next.hashAt(log.block)
    ensures shared <= mid <= cut && SameUnder(last, next, mid)
    ensures Select(last.logs, mid, cut, Watched(c)) == []
  {
    if Select(last.logs, shared, cut, Watched(c)) == [] {
      mid := shared;
    } else {
      mid := MeetAtLast(last, next, c, shared, cut);
    }
  }

  lemma MeetAtLast(last: Chain, next: Chain, c: Contracts, shared: nat, cut: nat) returns (mid: nat)
    requires WellFormed(last) && HashesCommit(last, next) && Select(last.logs, shared, cut, Watched(c)) != []
    requires forall log :: log in Select(last.logs, shared, cut, Watched(c)) ==> log.blockHash == next.hashAt(log.block)
    ensures shared <= mid <= cut && SameUnder(last, next, mid)
    ensures Select(last.logs, mid, cut, Watched(c)) == []
  {
    var recent := Select(last.logs, shared, cut, Watched(c));
    var top := recent[|recent| - 1];
    assert top in recent;
    mid := top.block + 1;
    NothingRecent(last, c, shared, mid, cut);
    SharedUpTo(last, next, top);
  }

  lemma SharedUpTo(last: Chain, next: Chain, log: Log)
    requires WellFormed(last) && HashesCommit(last, next) && log in last.logs && log.blockHash == next.hashAt(log.block)
    ensures SameUnder(last, next, log.block + 1)
  {
    assert last.hashAt(log.block) == next.hashAt(log.block);
  }

  /** No watched log lies above the last of them. */
  lemma NothingRecent(chain: Chain, c: Contracts, from: nat, mid: nat, cut: nat)
    requires WellFormed(chain) && from <= mid
    requires var recent := Select(chain.logs, from, cut, Watched(c));
      recent != [] && mid == recent[|recent| - 1].block + 1
    ensures Select(chain.logs, mid, cut, Watched(c)) == []
  {
    SelectAscends(chain.logs, from, cut, Watched(c));
    assert forall log :: log in Select(chain.logs, from, cut, Watched(c)) ==> log.block < mid;
    NoneSelected(chain.logs, mid, cut, Watched(c));
  }

  lemma {:induction false} NoneSelected(logs: seq<Log>, from: nat, end: nat, addresses: set<Address>)
    requires forall log :: log in logs && log.block < end && log.contract in addresses ==> log.block < from
    ensures Select(logs, from, end, addresses) == []
  {
    if logs != [] {
      assert logs[|logs| - 1] in logs;
      NoneSelected(logs[..|logs| - 1], from, end, addresses);
    }
  }

  /** What the rollback spares of the old chain's recent blocks is in the new one. */
  lemma SparedIsCanonical(s: Rows, last: Scan, next: Scan, c: Contracts, finalityDepth: nat, log: Log)
    requires Ready(s, last, next, c, finalityDepth)
    requires log in Select(last.chain.logs, Shared(last, next, finalityDepth), Cut(s, last, next, finalityDepth),
                           Watched(c))
    ensures log.blockHash == next.chain.hashAt(log.block)
  {
    FirstReplacedIsFirst(s.blocks, next.chain, Lowest(next.chain.head, next.from, finalityDepth), next.to);
    assert log in Select(last.chain.logs, 0, last.to + 1, Watched(c));
    assert Get(s.blocks, log.block) == Some(log.blockHash);
    assert !Replaced(s.blocks, next.chain, log.block);
  }

  lemma CutBounds(s: Rows, last: Scan, next: Scan, c: Contracts, finalityDepth: nat)
    requires Ready(s, last, next, c, finalityDepth)
    ensures next.from <= Shared(last, next, finalityDepth) <= Cut(s, last, next, finalityDepth) <= next.to + 1
  {
    FirstReplacedIsFirst(s.blocks, next.chain, Lowest(next.chain.head, next.from, finalityDepth), next.to);
  }

  /** Below the reorganisation the old index is an index of the new chain. */
  lemma IndexesMeet(s: Rows, last: Scan, next: Scan, c: Contracts, finalityDepth: nat) returns (mid: nat)
    requires Ready(s, last, next, c, finalityDepth)
    ensures next.from <= mid <= next.to + 1
    ensures Indexed(last.chain, c, Cut(s, last, next, finalityDepth)) == Indexed(next.chain, c, mid)
  {
    var shared, cut := Shared(last, next, finalityDepth), Cut(s, last, next, finalityDepth);
    CutBounds(s, last, next, c, finalityDepth);
    forall log | log in Select(last.chain.logs, shared, cut, Watched(c))
      ensures log.blockHash == next.chain.hashAt(log.block)
    {
      SparedIsCanonical(s, last, next, c, finalityDepth, log);
    }
    mid := Meet(last.chain, next.chain, c, shared, cut);
    SameIndex(last.chain, next.chain, c, mid, cut);
  }

  lemma SameIndex(last: Chain, next: Chain, c: Contracts, mid: nat, cut: nat)
    requires WellFormed(last) && SameUnder(last, next, mid) && mid <= cut &&
      Select(last.logs, mid, cut, Watched(c)) == []
    ensures Indexed(last, c, cut) == Indexed(next, c, mid)
  {
    RangesConcatenate(last.logs, 0, mid, cut, Watched(c));
    SelectSame(last, next, 0, mid, Watched(c));
    assert Select(last.logs, 0, cut, Watched(c)) == Select(last.logs, 0, mid, Watched(c));
  }

  // ----- One agent's rows across a pass ---------------------------------------

  /** The rollback of a pass deletes the agent's listing. */
  predicate Dropped(block: Option<nat>, reorg: Option<nat>) {
    block.Some? && reorg.Some? && block.value >= reorg.value
  }

  function ListedAt(row: Option<ListingRow>): Option<nat> {
    if row.Some? then Some(row.value.block) else None
  }

  function BondedAt(row: Option<BondRow>): Option<nat> {
    if row.Some? then Some(row.value.block) else None
  }

  lemma RollbackListing(s: Rows, reorg: Option<nat>, agent: nat)
    ensures var row := Get(s.listings, agent);
      Get(Trimmed(s, reorg).listings, agent) == if Dropped(ListedAt(row), reorg) then None else row
  {
  }

  lemma RollbackBond(s: Rows, reorg: Option<nat>, agent: nat)
    ensures var row := Get(s.bonds, agent);
      Get(Trimmed(s, reorg).bonds, agent) == if Dropped(BondedAt(row), reorg) then None else row
  {
  }

  /** Logs above a height leave an agent's row of an index alone or move it up there. */
  lemma OlderOrAbove(chain: Chain, c: Contracts, cut: nat, end: nat, agent: nat)
    requires WellFormed(chain) && cut <= end
    ensures var row := Get(Indexed(chain, c, end).listings, agent);
      row == Get(Indexed(chain, c, cut).listings, agent) || (row.Some? && row.value.block >= cut)
    ensures var row := Get(Indexed(chain, c, end).bonds, agent);
      row == Get(Indexed(chain, c, cut).bonds, agent) || (row.Some? && row.value.block >= cut)
  {
    var below, above := Select(chain.logs, 0, cut, Watched(c)), Select(chain.logs, cut, end, Watched(c));
    RangesConcatenate(chain.logs, 0, cut, end, Watched(c));
    FoldConcatenates(EMPTY.rows, below, above);
    RowsMoveUp(Fold(EMPTY.rows, below), above, agent, cut);
  }

  /** An agent's row that a rollback spares is the one below it. */
  lemma SparedIsOlder(chain: Chain, c: Contracts, reorg: Option<nat>, top: nat, agent: nat)
    requires WellFormed(chain)
    ensures var whole, older := Indexed(chain, c, top + 1), Indexed(chain, c, CutAt(reorg, top));
      && (Dropped(ListedAt(Get(whole.listings, agent)), reorg) ||
          Get(whole.listings, agent) == Get(older.listings, agent))
      && (Dropped(BondedAt(Get(whole.bonds, agent)), reorg) || Get(whole.bonds, agent) == Get(older.bonds, agent))
  {
    if reorg.Some? && reorg.value <= top { OlderOrAbove(chain, c, reorg.value, top + 1, agent); }
  }

  // ----- Listings ---------------------------------------------------------

  /** A registration that replaces this row. */
  ghost predicate Relists(logs: seq<Log>, agent: nat, row: Option<ListingRow>) {
    exists log :: log in logs && Lists(log, agent) && (row.None? || row.value.version <= log.event.version)
  }

  ghost predicate Delisted(logs: seq<Log>, agent: nat) {
    exists log :: log in logs && Delists(log, agent)
  }

  predicate Overtakes(e: Replay.ListingEffect, row: Option<ListingRow>) {
    e.top.Some? && (row.None? || row.value.version <= e.top.value.version)
  }

  lemma {:induction false} EffectsOf(logs: seq<Log>, agent: nat, row: Option<ListingRow>)
    ensures var e := Replay.ListingEffectOf(logs, agent);
      (Overtakes(e, row) <==> Relists(logs, agent, row)) && (e.gone.Some? <==> Delisted(logs, agent))
  {
    if logs != [] {
      var front, last := logs[..|logs| - 1], logs[|logs| - 1];
      assert logs == front + [last];
      EffectsOf(front, agent, row);
      assert Relists(logs, agent, row) <==>
        Relists(front, agent, row) || (Lists(last, agent) && (row.None? || row.value.version <= last.event.version));
      assert Delisted(logs, agent) <==> Delisted(front, agent) || Delists(last, agent);
    }
  }

  /** Rows that these logs make the same: equal already, both replaced, or both
      only deactivated while they differ in nothing a deactivation leaves. */
  ghost predicate ListingsMeet(logs: seq<Log>, agent: nat, a: Option<ListingRow>, b: Option<ListingRow>) {
    || a == b
    || (Relists(logs, agent, a) && Relists(logs, agent, b))
    || (!Relists(logs, agent, a) && !Relists(logs, agent, b) && Delisted(logs, agent) && a.Some? && b.Some?
        && Replay.Deactivated(a.value, 0) == Replay.Deactivated(b.value, 0))
  }

  lemma ListingsMeetExactly(a: Rows, b: Rows, logs: seq<Log>, agent: nat)
    ensures Get(Fold(a, logs).listings, agent) == Get(Fold(b, logs).listings, agent) <==>
      ListingsMeet(logs, agent, Get(a.listings, agent), Get(b.listings, agent))
  {
    Replay.FoldListing(a, logs, agent);
    Replay.FoldListing(b, logs, agent);
    EffectsOf(logs, agent, Get(a.listings, agent));
    EffectsOf(logs, agent, Get(b.listings, agent));
  }

  /** Whatever the store held, after a pass an agent's listing is the chain's
      exactly when what the rollback leaves of it meets, over the range's logs,
      what the chain has below the range. */
  lemma PassListsExactly(s: Snapshot, chain: Chain, c: Contracts, from: nat, to: nat, finalityDepth: nat, agent: nat)
    requires WellFormed(chain) && DistinctContracts(c) && from <= to + 1
    ensures var kept := Get(Trimmed(s.rows, ReorgOf(s.rows, chain, from, to, finalityDepth)).listings, agent);
      Get(Ingested(s, chain, c, from, to, finalityDepth).rows.listings, agent)
        == Get(Indexed(chain, c, to + 1).listings, agent) <==>
      ListingsMeet(Ordered(chain, c, from, to), agent, kept, Get(Indexed(chain, c, from).listings, agent))
  {
    OverlapIndexes(chain, c, from, from, to);
    ListingsMeetExactly(Trimmed(s.rows, ReorgOf(s.rows, chain, from, to, finalityDepth)), Indexed(chain, c, from),
                        Ordered(chain, c, from, to), agent);
  }

  ghost predicate ListingExact(s: Rows, scan: Scan, c: Contracts, agent: nat) {
    Get(s.listings, agent) == Get(Indexed(scan.chain, c, scan.to + 1).listings, agent)
  }

  /** The rollback deletes a listing that the agent had already below the
      range, and the range registers no version to replace it. */
  ghost predicate ListingLost(s: Rows, next: Scan, c: Contracts, finalityDepth: nat, agent: nat) {
    var below := Get(Indexed(next.chain, c, next.from).listings, agent);
    && Dropped(ListedAt(Get(s.listings, agent)), ReorgAt(s, next, finalityDepth))
    && below.Some? && !Relists(Ordered(next.chain, c, next.from, next.to), agent, below)
  }

  /** A store whose listing of the agent was that of the last chain has that of
      the next chain after a pass exactly when the pass does not lose it. */
  lemma ListingConvergesExactly(s: Snapshot, last: Scan, next: Scan, c: Contracts, finalityDepth: nat, agent: nat)
    requires Ready(s.rows, last, next, c, finalityDepth) && ListingExact(s.rows, last, c, agent)
    ensures ListingExact(Ingested(s, next.chain, c, next.from, next.to, finalityDepth).rows, next, c, agent) <==>
      !ListingLost(s.rows, next, c, finalityDepth, agent)
  {
    var mid := IndexesMeet(s.rows, last, next, c, finalityDepth);
    if Dropped(ListedAt(Get(s.rows.listings, agent)), ReorgAt(s.rows, next, finalityDepth)) {
      DroppedListing(s, next, c, finalityDepth, agent);
    } else {
      KeptListing(s, last, next, c, finalityDepth, agent, mid);
    }
  }

  lemma DroppedListing(s: Snapshot, next: Scan, c: Contracts, finalityDepth: nat, agent: nat)
    requires WellFormed(next.chain) && DistinctContracts(c) && next.from <= next.to + 1
    requires Dropped(ListedAt(Get(s.rows.listings, agent)), ReorgAt(s.rows, next, finalityDepth))
    ensures ListingExact(Ingested(s, next.chain, c, next.from, next.to, finalityDepth).rows, next, c, agent) <==>
      !ListingLost(s.rows, next, c, finalityDepth, agent)
  {
    ExactByFolds(s, next, c, finalityDepth, agent);
    RollbackListing(s.rows, ReorgAt(s.rows, next, finalityDepth), agent);
    NothingListed(Trimmed(s.rows, ReorgAt(s.rows, next, finalityDepth)), Indexed(next.chain, c, next.from),
                  Ordered(next.chain, c, next.from, next.to), agent);
  }

  /** A row is the chain's when the range's logs leave of what is kept what they
      leave of the chain's rows below the range. */
  lemma ExactByFolds(s: Snapshot, next: Scan, c: Contracts, finalityDepth: nat, agent: nat)
    requires WellFormed(next.chain) && DistinctContracts(c) && next.from <= next.to + 1
    ensures var logs := Ordered(next.chain, c, next.from, next.to);
      var ours := Fold(Trimmed(s.rows, ReorgAt(s.rows, next, finalityDepth)), logs);
      var theirs := Fold(Indexed(next.chain, c, next.from), logs);
      var after := Ingested(s, next.chain, c, next.from, next.to, finalityDepth).rows;
      && (ListingExact(after, next, c, agent) <==> Get(ours.listings, agent) == Get(theirs.listings, agent))
      && (BondExact(after, next, c, agent) <==> Get(ours.bonds, agent) == Get(theirs.bonds, agent))
  {
    OverlapIndexes(next.chain, c, next.from, next.from, next.to);
  }

  lemma KeptListing(s: Snapshot, last: Scan, next: Scan, c: Contracts, finalityDepth: nat, agent: nat, mid: nat)
    requires WellFormed(last.chain) && WellFormed(next.chain) && DistinctContracts(c)
    requires next.from <= mid <= next.to + 1
    requires !Dropped(ListedAt(Get(s.rows.listings, agent)), ReorgAt(s.rows, next, finalityDepth))
    requires ListingExact(s.rows, last, c, agent)
    requires Indexed(last.chain, c, Cut(s.rows, last, next, finalityDepth)) == Indexed(next.chain, c, mid)
    ensures ListingExact(Ingested(s, next.chain, c, next.from, next.to, finalityDepth).rows, next, c, agent)
  {
    var trimmed := Trimmed(s.rows, ReorgAt(s.rows, next, finalityDepth));
    SparedListing(s.rows, last, next, c, finalityDepth, agent);
    OverlapIndexes(next.chain, c, next.from, mid, next.to);
    ListingFollows(trimmed, Indexed(next.chain, c, mid), Ordered(next.chain, c, next.from, next.to), agent);
  }

  lemma SparedListing(s: Rows, last: Scan, next: Scan, c: Contracts, finalityDepth: nat, agent: nat)
    requires WellFormed(last.chain) && ListingExact(s, last, c, agent)
    requires !Dropped(ListedAt(Get(s.listings, agent)), ReorgAt(s, next, finalityDepth))
    ensures Get(Trimmed(s, ReorgAt(s, next, finalityDepth)).listings, agent)
      == Get(Indexed(last.chain, c, Cut(s, last, next, finalityDepth)).listings, agent)
  {
    RollbackListing(s, ReorgAt(s, next, finalityDepth), agent);
    SparedIsOlder(last.chain, c, ReorgAt(s, next, finalityDepth), last.to, agent);
  }

  lemma NothingListed(a: Rows, b: Rows, logs: seq<Log>, agent: nat)
    requires Get(a.listings, agent).None?
    ensures Get(Fold(a, logs).listings, agent) == Get(Fold(b, logs).listings, agent) <==>
      Get(b.listings, agent).None? || Relists(logs, agent, Get(b.listings, agent))
  {
    ListingsMeetExactly(a, b, logs, agent);
    if Relists(logs, agent, Get(b.listings, agent)) { assert Relists(logs, agent, None); }
  }

  // ----- Bonds ------------------------------------------------------------

  ghost predicate Bonds(logs: seq<Log>, agent: nat) {
    exists log :: log in logs && Replay.IsBondLog(log, agent)
  }

  ghost predicate Restates(logs: seq<Log>, agent: nat) {
    exists log :: log in logs && States(log, agent)
  }

  /** Bonds that these logs make the same: equal already, or overwritten with
      an amount that is stated or was the same, and slashed or alike in that. */
  ghost predicate BondsMeet(logs: seq<Log>, agent: nat, a: Option<BondRow>, b: Option<BondRow>) {
    a == b
    || (Bonds(logs, agent) && (Restates(logs, agent) || Held(a) == Held(b))
        && (EverSlashed(logs, agent) || WasSlashed(a) == WasSlashed(b)))
  }

  lemma BondsMeetExactly(a: Rows, b: Rows, logs: seq<Log>, agent: nat)
    requires InBlockOrder(logs) && NoLater(Get(a.bonds, agent), logs) && NoLater(Get(b.bonds, agent), logs)
    ensures Get(Fold(a, logs).bonds, agent) == Get(Fold(b, logs).bonds, agent) <==>
      BondsMeet(logs, agent, Get(a.bonds, agent), Get(b.bonds, agent))
  {
    var i, k := BondIsLastStated(a, logs, agent);
    var j, l := BondIsLastStated(b, logs, agent);
    LastIsUnique(logs, agent, i, j, false);
    LastIsUnique(logs, agent, k, l, true);
    LastBears(logs, agent, i, false);
    LastBears(logs, agent, k, true);
  }

  lemma LastBears(logs: seq<Log>, agent: nat, i: int, stating: bool)
    requires LastOf(logs, i, agent, stating)
    ensures i >= 0 <==> if stating then Restates(logs, agent) else Bonds(logs, agent)
  {
    if i >= 0 {
      assert logs[i] in logs;
    } else {
      assert forall log :: log in logs ==> !Bears(log, agent, stating);
    }
  }

  lemma OrderedAscends(chain: Chain, c: Contracts, from: nat, to: nat)
    requires WellFormed(chain) && DistinctContracts(c)
    ensures InBlockOrder(Ordered(chain, c, from, to)) && LogsFrom(Ordered(chain, c, from, to), from)
  {
    FetchSortsToWatched(chain, c, from, to);
    SelectAscends(chain.logs, from, to + 1, Watched(c));
    var logs := Ordered(chain, c, from, to);
    forall i, j | 0 <= i < j < |logs| ensures logs[i].block <= logs[j].block {
      assert Before(logs[i], logs[j]);
    }
  }

  ghost predicate EarlierThan(row: Option<BondRow>, from: nat) {
    row.Some? ==> row.value.block < from
  }

  /** Where the rollback leaves no bond of the range itself, after a pass an
      agent's bond is the chain's exactly when what is left of it meets, over
      the range's logs, what the chain has below the range. */
  lemma PassBondsExactly(s: Snapshot, chain: Chain, c: Contracts, from: nat, to: nat, finalityDepth: nat, agent: nat)
    requires WellFormed(chain) && DistinctContracts(c) && from <= to + 1
    requires EarlierThan(Get(Trimmed(s.rows, ReorgOf(s.rows, chain, from, to, finalityDepth)).bonds, agent), from)
    ensures var kept := Get(Trimmed(s.rows, ReorgOf(s.rows, chain, from, to, finalityDepth)).bonds, agent);
      Get(Ingested(s, chain, c, from, to, finalityDepth).rows.bonds, agent)
        == Get(Indexed(chain, c, to + 1).bonds, agent) <==>
      BondsMeet(Ordered(chain, c, from, to), agent, kept, Get(Indexed(chain, c, from).bonds, agent))
  {
    OverlapIndexes(chain, c, from, from, to);
    OrderedAscends(chain, c, from, to);
    IndexedBelow(Select(chain.logs, 0, from, Watched(c)), agent, from);
    BondsMeetExactly(Trimmed(s.rows, ReorgOf(s.rows, chain, from, to, finalityDepth)), Indexed(chain, c, from),
                     Ordered(chain, c, from, to), agent);
  }

  ghost predicate BondExact(s: Rows, scan: Scan, c: Contracts, agent: nat) {
    Get(s.bonds, agent) == Get(Indexed(scan.chain, c, scan.to + 1).bonds, agent)
  }

  /** Logs that leave of no bond what they leave of this one. */
  ghost predicate BringsBack(logs: seq<Log>, agent: nat, row: BondRow) {
    && Bonds(logs, agent)
    && (row.amount == 0 || Restates(logs, agent))
    && (row.slashed ==> EverSlashed(logs, agent))
  }

  lemma NothingMeets(logs: seq<Log>, agent: nat, row: Option<BondRow>)
    ensures BondsMeet(logs, agent, None, row) <==> row.None? || BringsBack(logs, agent, row.value)
  {
  }

  /** The rollback deletes a bond that the agent had already below the range,
      and the range does not bring back its amount or that it was slashed. */
  ghost predicate BondLost(s: Rows, next: Scan, c: Contracts, finalityDepth: nat, agent: nat) {
    var below := Get(Indexed(next.chain, c, next.from).bonds, agent);
    && Dropped(BondedAt(Get(s.bonds, agent)), ReorgAt(s, next, finalityDepth))
    && below.Some? && !BringsBack(Ordered(next.chain, c, next.from, next.to), agent, below.value)
  }

  /** A store whose bond of the agent was that of the last chain has that of
      the next chain after a pass exactly when the pass does not lose it. */
  lemma BondConvergesExactly(s: Snapshot, last: Scan, next: Scan, c: Contracts, finalityDepth: nat, agent: nat)
    requires Ready(s.rows, last, next, c, finalityDepth) && BondExact(s.rows, last, c, agent)
    ensures BondExact(Ingested(s, next.chain, c, next.from, next.to, finalityDepth).rows, next, c, agent) <==>
      !BondLost(s.rows, next, c, finalityDepth, agent)
  {
    var mid := IndexesMeet(s.rows, last, next, c, finalityDepth);
    if Dropped(BondedAt(Get(s.rows.bonds, agent)), ReorgAt(s.rows, next, finalityDepth)) {
      DroppedBond(s, next, c, finalityDepth, agent);
    } else {
      KeptBond(s, last, next, c, finalityDepth, agent, mid);
    }
  }

  lemma DroppedBond(s: Snapshot, next: Scan, c: Contracts, finalityDepth: nat, agent: nat)
    requires WellFormed(next.chain) && DistinctContracts(c) && next.from <= next.to + 1
    requires Dropped(BondedAt(Get(s.rows.bonds, agent)), ReorgAt(s.rows, next, finalityDepth))
    ensures BondExact(Ingested(s, next.chain, c, next.from, next.to, finalityDepth).rows, next, c, agent) <==>
      !BondLost(s.rows, next, c, finalityDepth, agent)
  {
    ExactByFolds(s, next, c, finalityDepth, agent);
    RollbackBond(s.rows, ReorgAt(s.rows, next, finalityDepth), agent);
    OrderedAscends(next.chain, c, next.from, next.to);
    IndexedBelow(Select(next.chain.logs, 0, next.from, Watched(c)), agent, next.from);
    NothingBonded(Trimmed(s.rows, ReorgAt(s.rows, next, finalityDepth)), Indexed(next.chain, c, next.from),
                  Ordered(next.chain, c, next.from, next.to), agent, next.from);
  }

  lemma NothingBonded(a: Rows, b: Rows, logs: seq<Log>, agent: nat, from: nat)
    requires InBlockOrder(logs) && LogsFrom(logs, from)
    requires Get(a.bonds, agent).None? && EarlierThan(Get(b.bonds, agent), from)
    ensures Get(Fold(a, logs).bonds, agent) == Get(Fold(b, logs).bonds, agent) <==>
      Get(b.bonds, agent).None? || BringsBack(logs, agent, Get(b.bonds, agent).value)
  {
    BondsMeetExactly(a, b, logs, agent);
    NothingMeets(logs, agent, Get(b.bonds, agent));
  }

  lemma KeptBond(s: Snapshot, last: Scan, next: Scan, c: Contracts, finalityDepth: nat, agent: nat, mid: nat)
    requires WellFormed(last.chain) && WellFormed(next.chain) && DistinctContracts(c)
    requires next.from <= mid <= next.to + 1
    requires !Dropped(BondedAt(Get(s.rows.bonds, agent)), ReorgAt(s.rows, next, finalityDepth))
    requires BondExact(s.rows, last, c, agent)
    requires Indexed(last.chain, c, Cut(s.rows, last, next, finalityDepth)) == Indexed(next.chain, c, mid)
    ensures BondExact(Ingested(s, next.chain, c, next.from, next.to, finalityDepth).rows, next, c, agent)
  {
    var trimmed := Trimmed(s.rows, ReorgAt(s.rows, next, finalityDepth));
    SparedBond(s.rows, last, next, c, finalityDepth, agent);
    OverlapIndexes(next.chain, c, next.from, mid, next.to);
    BondFollows(trimmed, Indexed(next.chain, c, mid), Ordered(next.chain, c, next.from, next.to), agent);
  }

  lemma SparedBond(s: Rows, last: Scan, next: Scan, c: Contracts, finalityDepth: nat, agent: nat)
    requires WellFormed(last.chain) && BondExact(s, last, c, agent)
    requires !Dropped(BondedAt(Get(s.bonds, agent)), ReorgAt(s, next, finalityDepth))
    ensures Get(Trimmed(s, ReorgAt(s, next, finalityDepth)).bonds, agent)
      == Get(Indexed(last.chain, c, Cut(s, last, next, finalityDepth)).bonds, agent)
  {
    RollbackBond(s, ReorgAt(s, next, finalityDepth), agent);
    SparedIsOlder(last.chain, c, ReorgAt(s, next, finalityDepth), last.to, agent);
  }

  // ----- Any number of passes ---------------------------------------------

  /** A pass records every block it takes a log from, and forgets none below its range. */
  lemma RecordedAfter(s: Snapshot, last: Scan, next: Scan, c: Contracts, finalityDepth: nat)
    requires Ready(s.rows, last, next, c, finalityDepth)
    ensures Recorded(Ingested(s, next.chain, c, next.from, next.to, finalityDepth).rows.blocks, next.chain, c,
                     next.to + 1)
  {
    CutBounds(s.rows, last, next, c, finalityDepth);
    forall log | log in Select(next.chain.logs, 0, next.to + 1, Watched(c))
      ensures Get(Ingested(s, next.chain, c, next.from, next.to, finalityDepth).rows.blocks, log.block) ==
        Some(log.blockHash)
    {
      if log.block < next.from { RecordedBelow(s.rows, last, next, c, finalityDepth, log); }
      RecordedAt(s, next, c, finalityDepth, log);
    }
  }

  lemma RecordedBelow(s: Rows, last: Scan, next: Scan, c: Contracts, finalityDepth: nat, log: Log)
    requires Ready(s, last, next, c, finalityDepth)
    requires log in Select(next.chain.logs, 0, next.to + 1, Watched(c)) && log.block < next.from
    ensures Get(s.blocks, log.block) == Some(log.blockHash)
  {
    CutBounds(s, last, next, c, finalityDepth);
    assert log in Under(next.chain.logs, Shared(last, next, finalityDepth));
    assert log in Select(last.chain.logs, 0, last.to + 1, Watched(c));
  }

  lemma RecordedAt(s: Snapshot, next: Scan, c: Contracts, finalityDepth: nat, log: Log)
    requires WellFormed(next.chain) && log in Select(next.chain.logs, 0, next.to + 1, Watched(c))
    requires log.block < next.from ==> Get(s.rows.blocks, log.block) == Some(log.blockHash)
    ensures Get(Ingested(s, next.chain, c, next.from, next.to, finalityDepth).rows.blocks, log.block) ==
      Some(log.blockHash)
  {
    var reorg, logs := ReorgAt(s.rows, next, finalityDepth), Ordered(next.chain, c, next.from, next.to);
    FirstReplacedIsFirst(s.rows.blocks, next.chain, Lowest(next.chain.head, next.from, finalityDepth), next.to);
    OrderedMembers(next.chain, c, next.from, next.to);
    FoldRecordsBlocks(Trimmed(s.rows, reorg), logs, next.chain.hashAt, log.block);
    if log.block >= next.from {
      assert log in logs && Touches(logs, log.block);
    } else {
      assert !Touches(logs, log.block);
    }
  }

  /** Scans from the first watched log on, each following the last, over chains
      whose hashes commit to their history. */
  ghost predicate Run(scans: seq<Scan>, c: Contracts, finalityDepth: nat) {
    && DistinctContracts(c) && (forall i :: 0 <= i < |scans| ==> WellFormed(scans[i].chain))
    && (scans != [] ==> scans[0].from <= scans[0].to + 1)
    && (scans != [] ==> Select(scans[0].chain.logs, 0, scans[0].from, Watched(c)) == [])
    && (forall i :: 0 < i < |scans| ==> Follows(scans[i - 1], scans[i], finalityDepth))
    && (forall i :: 0 < i < |scans| ==> HashesCommit(scans[i - 1].chain, scans[i].chain))
  }

  /** The rows after the first k of the scans, from an empty store. */
  function After(scans: seq<Scan>, k: nat, c: Contracts, finalityDepth: nat): Snapshot
    requires k <= |scans|
  {
    if k == 0 then EMPTY
    else Ingested(After(scans, k - 1, c, finalityDepth), scans[k - 1].chain, c, scans[k - 1].from, scans[k - 1].to,
                  finalityDepth)
  }

  lemma FirstPass(scan: Scan, c: Contracts, finalityDepth: nat)
    requires WellFormed(scan.chain) && DistinctContracts(c) && scan.from <= scan.to + 1
    requires Select(scan.chain.logs, 0, scan.from, Watched(c)) == []
    ensures Ingested(EMPTY, scan.chain, c, scan.from, scan.to, finalityDepth).rows ==
      Indexed(scan.chain, c, scan.to + 1)
    ensures ReorgAt(EMPTY.rows, scan, finalityDepth) == None
  {
    NothingToReplace(scan, finalityDepth);
    OverlapIndexes(scan.chain, c, scan.from, scan.from, scan.to);
  }

  lemma NothingToReplace(scan: Scan, finalityDepth: nat)
    ensures ReorgAt(EMPTY.rows, scan, finalityDepth) == None
  {
    FirstReplacedIsFirst(EMPTY.rows.blocks, scan.chain, Lowest(scan.chain.head, scan.from, finalityDepth), scan.to);
  }

  lemma IndexRecords(chain: Chain, c: Contracts, end: nat)
    requires WellFormed(chain)
    ensures Recorded(Indexed(chain, c, end).blocks, chain, c, end)
  {
    var logs := Select(chain.logs, 0, end, Watched(c));
    forall log | log in logs ensures Get(Indexed(chain, c, end).blocks, log.block) == Some(log.blockHash) {
      FoldRecordsBlocks(EMPTY.rows, logs, chain.hashAt, log.block);
      assert Touches(logs, log.block);
    }
  }

  lemma {:induction false} RunRecords(scans: seq<Scan>, c: Contracts, finalityDepth: nat, n: nat)
    requires Run(scans, c, finalityDepth) && 0 < n <= |scans|
    ensures Recorded(After(scans, n, c, finalityDepth).rows.blocks, scans[n - 1].chain, c, scans[n - 1].to + 1)
  {
    if n == 1 {
      FirstRecords(scans, c, finalityDepth);
    } else {
      RunRecords(scans, c, finalityDepth, n - 1);
      NextIsReady(scans, c, finalityDepth, n);
      NextRecords(After(scans, n - 1, c, finalityDepth), scans, c, finalityDepth, n);
    }
  }

  lemma FirstRecords(scans: seq<Scan>, c: Contracts, finalityDepth: nat)
    requires Run(scans, c, finalityDepth) && scans != []
    ensures Recorded(After(scans, 1, c, finalityDepth).rows.blocks, scans[0].chain, c, scans[0].to + 1)
  {
    FirstIsIndex(scans, c, finalityDepth);
    IndexRecords(scans[0].chain, c, scans[0].to + 1);
  }

  lemma FirstIsIndex(scans: seq<Scan>, c: Contracts, finalityDepth: nat)
    requires Run(scans, c, finalityDepth) && scans != []
    ensures After(scans, 1, c, finalityDepth).rows == Indexed(scans[0].chain, c, scans[0].to + 1)
    ensures After(scans, 0, c, finalityDepth) == EMPTY && ReorgAt(EMPTY.rows, scans[0], finalityDepth) == None
  {
    FirstPass(scans[0], c, finalityDepth);
  }

  lemma NextRecords(before: Snapshot, scans: seq<Scan>, c: Contracts, finalityDepth: nat, n: nat)
    requires 1 < n <= |scans| && before == After(scans, n - 1, c, finalityDepth)
    requires Ready(before.rows, scans[n - 2], scans[n - 1], c, finalityDepth)
    ensures Recorded(After(scans, n, c, finalityDepth).rows.blocks, scans[n - 1].chain, c, scans[n - 1].to + 1)
  {
    RecordedAfter(before, scans[n - 2], scans[n - 1], c, finalityDepth);
  }

  lemma NextIsReady(scans: seq<Scan>, c: Contracts, finalityDepth: nat, n: nat)
    requires Run(scans, c, finalityDepth) && 1 < n <= |scans|
    requires Recorded(After(scans, n - 1, c, finalityDepth).rows.blocks, scans[n - 2].chain, c, scans[n - 2].to + 1)
    ensures Ready(After(scans, n - 1, c, finalityDepth).rows, scans[n - 2], scans[n - 1], c, finalityDepth)
  {
  }

  ghost predicate ListingsExact(scans: seq<Scan>, c: Contracts, finalityDepth: nat, agent: nat, n: nat)
    requires n <= |scans|
  {
    forall k: nat :: 0 < k <= n ==> ListingExact(After(scans, k, c, finalityDepth).rows, scans[k - 1], c, agent)
  }

  ghost predicate NoListingLost(scans: seq<Scan>, c: Contracts, finalityDepth: nat, agent: nat, n: nat)
    requires n <= |scans|
  {
    forall k: nat :: k < n ==> !ListingLost(After(scans, k, c, finalityDepth).rows, scans[k], c, finalityDepth, agent)
  }

  /** From an empty store, over a chain that keeps being reorganised: an
      agent's listing is the chain's after every pass exactly when no pass
      loses it. */
  lemma {:induction false} ListingsConverge(scans: seq<Scan>, c: Contracts, finalityDepth: nat, agent: nat, n: nat)
    requires Run(scans, c, finalityDepth) && n <= |scans|
    ensures ListingsExact(scans, c, finalityDepth, agent, n) <==> NoListingLost(scans, c, finalityDepth, agent, n)
  {
    if n > 0 {
      ListingsConverge(scans, c, finalityDepth, agent, n - 1);
      if ListingsExact(scans, c, finalityDepth, agent, n - 1) {
        NextListingConverges(scans, c, finalityDepth, agent, n);
      }
    }
  }

  lemma NextListingConverges(scans: seq<Scan>, c: Contracts, finalityDepth: nat, agent: nat, n: nat)
    requires Run(scans, c, finalityDepth) && 0 < n <= |scans| && ListingsExact(scans, c, finalityDepth, agent, n - 1)
    ensures ListingExact(After(scans, n, c, finalityDepth).rows, scans[n - 1], c, agent) <==>
      !ListingLost(After(scans, n - 1, c, finalityDepth).rows, scans[n - 1], c, finalityDepth, agent)
  {
    if n == 1 {
      FirstIsIndex(scans, c, finalityDepth);
    } else {
      RunRecords(scans, c, finalityDepth, n - 1);
      ListingConvergesExactly(After(scans, n - 1, c, finalityDepth), scans[n - 2], scans[n - 1], c, finalityDepth,
                              agent);
    }
  }

  ghost predicate BondsExact(scans: seq<Scan>, c: Contracts, finalityDepth: nat, agent: nat, n: nat)
    requires n <= |scans|
  {
    forall k: nat :: 0 < k <= n ==> BondExact(After(scans, k, c, finalityDepth).rows, scans[k - 1], c, agent)
  }

  ghost predicate NoBondLost(scans: seq<Scan>, c: Contracts, finalityDepth: nat, agent: nat, n: nat)
    requires n <= |scans|
  {
    forall k: nat :: k < n ==> !BondLost(After(scans, k, c, finalityDepth).rows, scans[k], c, finalityDepth, agent)
  }

  /** The same of its bond. */
  lemma {:induction false} BondsConverge(scans: seq<Scan>, c: Contracts, finalityDepth: nat, agent: nat, n: nat)
    requires Run(scans, c, finalityDepth) && n <= |scans|
    ensures BondsExact(scans, c, finalityDepth, agent, n) <==> NoBondLost(scans, c, finalityDepth, agent, n)
  {
    if n > 0 {
      BondsConverge(scans, c, finalityDepth, agent, n - 1);
      if BondsExact(scans, c, finalityDepth, agent, n - 1) {
        NextBondConverges(scans, c, finalityDepth, agent, n);
      }
    }
  }

  lemma NextBondConverges(scans: seq<Scan>, c: Contracts, finalityDepth: nat, agent: nat, n: nat)
    requires Run(scans, c, finalityDepth) && 0 < n <= |scans| && BondsExact(scans, c, finalityDepth, agent, n - 1)
    ensures BondExact(After(scans, n, c, finalityDepth).rows, scans[n - 1], c, agent) <==>
      !BondLost(After(scans, n - 1, c, finalityDepth).rows, scans[n - 1], c, finalityDepth, agent)
  {
    if n == 1 {
      FirstIsIndex(scans, c, finalityDepth);
    } else {
      RunRecords(scans, c, finalityDepth, n - 1);
      BondConvergesExactly(After(scans, n - 1, c, finalityDepth), scans[n - 2], scans[n - 1], c, finalityDepth, agent);
    }
  }

  // ----- What is lost -----------------------------------------------------

  const WATCHED := Contracts(0, Some(1), Some(2))

  /** A chain of blocks 1 and 3, the hash of each block its number. */
  function OldView(one: Log, two: Log): Scan {
    Scan(Chain(3, block => block, [one, two]), 0, 3)
  }

  /** The chain once block 3 is replaced, scanned from block 2 on. */
  function NewView(one: Log, later: seq<Log>): Scan {
    Scan(Chain(4, block => if block < 3 then block else block + 1, [one] + later), 2, 3)
  }

  ghost predicate Blocks13(one: Log, two: Log, later: seq<Log>) {
    && one.block == 1 && one.blockHash == 1 && two.block == 3 && two.blockHash == 3
    && one.contract in Watched(WATCHED) && two.contract in Watched(WATCHED)
    && |later| <= 1 && forall log :: log in later ==>
      log.block == 3 && log.blockHash == 4 && log.contract in Watched(WATCHED)
  }

  lemma UnderTwo(one: Log, later: seq<Log>, end: nat)
    requires one.block == 1 && |later| <= 1 && (forall log :: log in later ==> log.block == 3) && end <= 3
    ensures Under([one] + later, end) == if end <= 1 then [] else [one]
  {
    var logs := [one] + later;
    assert Under([], end) == [];
    assert [one][..0] == [];
    assert Under([one], end) == if end <= 1 then [] else [one];
    if later == [] {
      assert logs == [one];
    } else {
      assert logs[..|logs| - 1] == [one] && later[0] in later;
    }
  }

  lemma ViewsRun(one: Log, two: Log, later: seq<Log>)
    requires Blocks13(one, two, later)
    ensures Run([OldView(one, two), NewView(one, later)], WATCHED, 2)
  {
    var last, next := OldView(one, two), NewView(one, later);
    assert [one, two] == [one] + [two];
    forall end: nat | end <= 3 ensures Under(last.chain.logs, end) == Under(next.chain.logs, end) {
      UnderTwo(one, [two], end);
      UnderTwo(one, later, end);
    }
    NoneSelected(last.chain.logs, 0, 0, Watched(WATCHED));
    assert SameUnder(last.chain, next.chain, Shared(last, next, 2));
  }

  /** What a plain index of each chain reads. */
  lemma SelectTwo(one: Log, later: seq<Log>, from: nat, w: set<Address>)
    requires one.block == 1 && one.contract in w && |later| <= 1 && from <= 2
    requires forall log :: log in later ==> log.block == 3 && log.contract in w
    ensures Select([one] + later, from, 4, w) == if from <= 1 then [one] + later else later
  {
    SelectLast([], one, from, 4, w);
    assert [] + [one] == [one];
    if later == [] {
      assert [one] + later == [one];
    } else {
      SelectLast([one], later[0], from, 4, w);
      assert later == [later[0]];
    }
  }

  lemma SelectLast(front: seq<Log>, last: Log, from: nat, end: nat, w: set<Address>)
    ensures Select(front + [last], from, end, w) ==
      Select(front, from, end, w) + if from <= last.block < end && last.contract in w then [last] else []
  {
    assert (front + [last])[..|front + [last]| - 1] == front;
  }

  lemma FoldOne(s: Rows, log: Log)
    ensures Fold(s, []) == s && Fold(s, [log]) == ApplyLog(s, log)
  {
    assert [log][..0] == [];
  }

  /** The two passes, row by row: the second finds block 3 replaced. */
  lemma TwoPasses(one: Log, two: Log, later: seq<Log>)
    requires Blocks13(one, two, later)
    ensures var scans := [OldView(one, two), NewView(one, later)];
      && After(scans, 2, WATCHED, 2).rows
         == Fold(RolledBack(ApplyLog(ApplyLog(EMPTY.rows, one), two), 3), later)
      && Indexed(scans[1].chain, WATCHED, 4) == Fold(ApplyLog(EMPTY.rows, one), later)
  {
    var scans := [OldView(one, two), NewView(one, later)];
    var next := scans[1];
    ViewsRun(one, two, later);
    OldIndex(one, two, later);
    SecondReorg(ApplyLog(ApplyLog(EMPTY.rows, one), two), one, two, later);
    FetchSortsToWatched(next.chain, WATCHED, 2, 3);
    SelectTwo(one, later, 2, Watched(WATCHED));
    SelectTwo(one, later, 0, Watched(WATCHED));
    FoldOne(EMPTY.rows, one);
    FoldConcatenates(EMPTY.rows, [one], later);
  }

  lemma OldIndex(one: Log, two: Log, later: seq<Log>)
    requires Blocks13(one, two, later)
    ensures After([OldView(one, two), NewView(one, later)], 1, WATCHED, 2).rows ==
      ApplyLog(ApplyLog(EMPTY.rows, one), two)
  {
    ViewsRun(one, two, later);
    FirstIsIndex([OldView(one, two), NewView(one, later)], WATCHED, 2);
    assert [one, two] == [one] + [two];
    SelectTwo(one, [two], 0, Watched(WATCHED));
    FoldConcatenates(EMPTY.rows, [one], [two]);
    FoldOne(EMPTY.rows, one);
    FoldOne(ApplyLog(EMPTY.rows, one), two);
  }

  lemma SecondReorg(before: Rows, one: Log, two: Log, later: seq<Log>)
    requires Blocks13(one, two, later) && before == ApplyLog(ApplyLog(EMPTY.rows, one), two)
    ensures ReorgAt(before, NewView(one, later), 2) == Some(3)
  {
    var next := NewView(one, later);
    FirstReplacedIsFirst(before.blocks, next.chain, Lowest(4, 2, 2), 3);
    assert Replaced(before.blocks, next.chain, 3) && !Replaced(before.blocks, next.chain, 2);
  }

  /** A pass that loses a listing: block 3 registered version 2 over the version
      1 of block 1, and is replaced by a block without logs. The pass starts at
      block 2, and leaves no listing where the chain has version 1. */
  lemma RollbackForgetsListing()
    ensures var one, two := Log(1, 1, 1, 0, AdapterRegistered(7, 1, true, [])),
      Log(1, 3, 3, 0, AdapterRegistered(7, 2, true, []));
      var scans := [OldView(one, two), NewView(one, [])];
      && Run(scans, WATCHED, 2)
      && Get(After(scans, 2, WATCHED, 2).rows.listings, 7) == None
      && Get(Indexed(scans[1].chain, WATCHED, 4).listings, 7) == Some(ListingRowOf(one))
  {
    var one, two := Log(1, 1, 1, 0, AdapterRegistered(7, 1, true, [])),
      Log(1, 3, 3, 0, AdapterRegistered(7, 2, true, []));
    ViewsRun(one, two, []);
    TwoPasses(one, two, []);
    FoldOne(ApplyLog(EMPTY.rows, one), one);
    FoldOne(RolledBack(ApplyLog(ApplyLog(EMPTY.rows, one), two), 3), one);
    ListedRows(one, two);
  }

  lemma ListedRows(one: Log, two: Log)
    requires one.event == AdapterRegistered(7, 1, true, []) && two.event == AdapterRegistered(7, 2, true, [])
    requires one.block == 1 && two.block == 3
    ensures var listed := ApplyLog(EMPTY.rows, one);
      && Get(listed.listings, 7) == Some(ListingRowOf(one))
      && Get(RolledBack(ApplyLog(listed, two), 3).listings, 7) == None
  {
    RollbackListing(ApplyLog(ApplyLog(EMPTY.rows, one), two), Some(3), 7);
  }

  /** A pass that loses a slash: the agent is slashed at block 1 and stakes
      again at block 3, which is replaced by a block in which it stakes the
      same. The pass starts at block 2, and leaves the bond unslashed. */
  lemma RollbackForgetsSlash()
    ensures var one, two, three := Log(2, 1, 1, 0, Slashed(7)), Log(2, 3, 3, 0, Staked(7, 5)),
      Log(2, 3, 4, 0, Staked(7, 5));
      var scans := [OldView(one, two), NewView(one, [three])];
      && Run(scans, WATCHED, 2)
      && Get(After(scans, 2, WATCHED, 2).rows.bonds, 7) == Some(BondRow(7, 5, 0, false, 3, 4))
      && Get(Indexed(scans[1].chain, WATCHED, 4).bonds, 7) == Some(BondRow(7, 5, 0, true, 3, 4))
  {
    var one, two, three := Log(2, 1, 1, 0, Slashed(7)), Log(2, 3, 3, 0, Staked(7, 5)), Log(2, 3, 4, 0, Staked(7, 5));
    ViewsRun(one, two, [three]);
    TwoPasses(one, two, [three]);
    FoldOne(ApplyLog(EMPTY.rows, one), three);
    FoldOne(RolledBack(ApplyLog(ApplyLog(EMPTY.rows, one), two), 3), three);
    SlashRows(one, two, three);
  }

  lemma SlashRows(one: Log, two: Log, three: Log)
    requires one.event == Slashed(7) && two.event == three.event == Staked(7, 5)
    requires one.block == 1 && two.block == three.block == 3
    ensures var slashed := ApplyLog(EMPTY.rows, one);
      && Get(ApplyLog(slashed, three).bonds, 7) == Some(BondRow(7, 5, 0, true, 3, three.blockHash))
      && Get(ApplyLog(RolledBack(ApplyLog(slashed, two), 3), three).bonds, 7) ==
        Some(BondRow(7, 5, 0, false, 3, three.blockHash))
  {
    var slashed := ApplyLog(EMPTY.rows, one);
    RollbackBond(ApplyLog(slashed, two), Some(3), 7);
  }
}
