/** Catching up with the head in batches, and why the batch size is invisible. */
module CatchUp {
  import opened Results
  import opened Logs
  import opened Store
  import opened Ingest

  function Later(a: nat, b: nat): nat {
    if a > b then a else b
  }

  /** Where a catch-up starts, from the cursor it finds. */
  function Start(cursor: nat, deployment: nat): nat {
    var resume := if cursor > 0 then cursor + 1 else deployment;
    Later(resume, deployment)
  }

  function End(from: nat, head: nat, batch: int): int {
    if from + batch - 1 > head then head else from + batch - 1
  }

  datatype Range = Range(from: nat, to: nat)

  /** The ranges those passes scan. */
  function Ranges(from: nat, head: nat, batch: int): seq<Range>
    requires batch >= 1 || from > head
    decreases head + 1 - from
  {
    if from > head then []
    else [Range(from, End(from, head, batch))] + Ranges(End(from, head, batch) + 1, head, batch)
  }

  /** The store after scanning the first n ranges in turn: pass k, counted from 1, sees views(k). */
  function Passes(s: Snapshot, views: nat -> Chain, c: Contracts, ranges: seq<Range>, n: nat,
                  finalityDepth: nat): Snapshot
    requires n <= |ranges|
  {
    if n == 0 then s
    else
      Ingested(Passes(s, views, c, ranges, n - 1, finalityDepth), views(n), c,
               ranges[n - 1].from, ranges[n - 1].to, finalityDepth)
  }

  function Scanned(results: seq<IngestResult>): seq<Range> {
    seq(|results|, i requires 0 <= i < |results| => Range(results[i].scannedFrom, results[i].scannedTo))
  }

  /** One turn of the loop below; entry is the store it started from and
      ranges what it will have scanned in the end. */
  method Pass(store: MemoryStore, chain: Chain, c: Contracts, from: nat, head: nat, deployment: nat, batchSize: int,
              finalityDepth: nat, ghost entry: Snapshot, ghost views: nat -> Chain, ghost ranges: seq<Range>,
              ghost n: nat)
    returns (result: IngestResult, next: nat)
    requires batchSize >= 1 && deployment <= from <= head && chain == views(n + 1)
    requires n < |ranges| && ranges[n] == Range(from, End(from, head, batchSize))
    requires store.Value() == Passes(entry, views, c, ranges, n, finalityDepth)
    modifies store
    ensures store.Value() == Passes(entry, views, c, ranges, n + 1, finalityDepth)
    ensures Range(result.scannedFrom, result.scannedTo) == ranges[n]
    ensures next == End(from, head, batchSize) + 1
  {
    var to := if from + batchSize - 1 > head then head else from + batchSize - 1;
    result := IngestRange(store, chain, c, from, to, finalityDepth);
    next := Later(store.cursor + 1, deployment);
  }

  /** The head is read once, from views(0). */
  method CatchUp(store: MemoryStore, views: nat -> Chain, c: Contracts, deployment: nat, batchSize: int,
                 finalityDepth: nat)
    returns (results: seq<IngestResult>)
    requires batchSize >= 1 || Start(store.cursor, deployment) > views(0).head
    modifies store
    ensures Scanned(results) == Ranges(Start(old(store.cursor), deployment), views(0).head, batchSize)
    ensures store.Value() == Passes(old(store.Value()), views, c, Scanned(results), |results|, finalityDepth)
  {
    results := [];
    var from := Start(store.cursor, deployment);
    var head := views(0).head;
    ghost var entry, ranges := store.Value(), Ranges(from, head, batchSize);
    while from <= head
      invariant deployment <= from && |results| <= |ranges|
      invariant ranges[|results|..] == Ranges(from, head, batchSize)
      invariant ScannedSoFar(results, ranges)
      invariant store.Value() == Passes(entry, views, c, ranges, |results|, finalityDepth)
      decreases if from <= head then head + 1 - from else 0
    {
      RangesStep(ranges, |results|, from, head, batchSize);
      var result, next := Pass(store, views(|results| + 1), c, from, head, deployment, batchSize, finalityDepth,
                               entry, views, ranges, |results|);
      ScannedGrows(results, result, ranges);
      results := results + [result];
      from := next;
    }
    AllScanned(results, ranges);
  }

  ghost predicate ScannedSoFar(results: seq<IngestResult>, ranges: seq<Range>) {
    && |results| <= |ranges|
    && forall i :: 0 <= i < |results| ==> Range(results[i].scannedFrom, results[i].scannedTo) == ranges[i]
  }

  lemma ScannedGrows(results: seq<IngestResult>, result: IngestResult, ranges: seq<Range>)
    requires ScannedSoFar(results, ranges) && |results| < |ranges|
    requires Range(result.scannedFrom, result.scannedTo) == ranges[|results|]
    ensures ScannedSoFar(results + [result], ranges)
  {
  }

  lemma AllScanned(results: seq<IngestResult>, ranges: seq<Range>)
    requires ScannedSoFar(results, ranges) && ranges[|results|..] == []
    ensures Scanned(results) == ranges
  {
  }

  lemma RangesStep(ranges: seq<Range>, done: nat, from: nat, head: nat, batch: int)
    requires batch >= 1 && from <= head && done <= |ranges| && ranges[done..] == Ranges(from, head, batch)
    ensures done < |ranges| && ranges[done] == Range(from, End(from, head, batch))
    ensures ranges[done + 1..] == Ranges(End(from, head, batch) + 1, head, batch)
  {
    assert ranges[done] == ranges[done..][0];
    assert ranges[done + 1..] == ranges[done..][1..];
  }

  /** Adjacent ranges that cover from..to, in order. */
  ghost predicate Tiles(ranges: seq<Range>, from: nat, to: nat) {
    && ranges != [] && ranges[0].from == from && ranges[|ranges| - 1].to == to
    && (forall i :: 0 <= i < |ranges| ==> ranges[i].from <= ranges[i].to)
    && (forall i :: 0 < i < |ranges| ==> ranges[i].from == ranges[i - 1].to + 1)
  }

  /** The scanned ranges tile start..head, and none is longer than a batch. */
  lemma {:induction false} RangesTile(from: nat, head: nat, batch: int)
    requires batch >= 1 || from > head
    ensures from > head ==> Ranges(from, head, batch) == []
    ensures from <= head ==> Tiles(Ranges(from, head, batch), from, head)
    ensures forall r :: r in Ranges(from, head, batch) ==> r.to < r.from + batch
    decreases head + 1 - from
  {
    if from <= head { RangesTile(End(from, head, batch) + 1, head, batch); }
  }

  /** Every one of them but the last is a whole batch. */
  lemma {:induction false} WholeBatches(from: nat, head: nat, batch: int, i: nat)
    requires batch >= 1 && i + 1 < |Ranges(from, head, batch)|
    ensures var r := Ranges(from, head, batch)[i]; r.to - r.from + 1 == batch
    decreases i
  {
    if i > 0 { WholeBatches(End(from, head, batch) + 1, head, batch, i - 1); }
  }

  lemma {:induction false} TilesAscend(ranges: seq<Range>, from: nat, to: nat, i: nat, j: nat)
    requires Tiles(ranges, from, to) && i < j < |ranges|
    ensures ranges[i].to < ranges[j].from
    decreases j
  {
    if i < j - 1 { TilesAscend(ranges, from, to, i, j - 1); }
  }

  lemma {:induction false} TilesCover(ranges: seq<Range>, from: nat, to: nat, block: nat, n: nat) returns (i: nat)
    requires Tiles(ranges, from, to) && 0 < n <= |ranges| && from <= block <= ranges[n - 1].to
    ensures i < n && ranges[i].from <= block <= ranges[i].to
  {
    if ranges[n - 1].from <= block {
      i := n - 1;
    } else {
      i := TilesCover(ranges, from, to, block, n - 1);
    }
  }

  /** Every block of start..head is scanned, and once only. */
  lemma ScannedOnce(from: nat, head: nat, batch: nat, block: nat) returns (i: nat)
    requires batch >= 1 && from <= block <= head
    ensures var r := Ranges(from, head, batch);
      i < |r| && forall j :: 0 <= j < |r| ==> (r[j].from <= block <= r[j].to <==> j == i)
  {
    RangesTile(from, head, batch);
    var ranges := Ranges(from, head, batch);
    i := TilesCover(ranges, from, head, block, |ranges|);
    forall j | 0 <= j < |ranges| && j != i ensures !(ranges[j].from <= block <= ranges[j].to) {
      TilesAscend(ranges, from, head, if i < j then i else j, if i < j then j else i);
    }
  }

  // ----- When it ends -----------------------------------------------------

  /** Where turn n of the loop starts, as far as there is one: the cursor a turn
      leaves is the end of its range. */
  function TurnStart(start: int, head: nat, deployment: nat, batch: int, n: nat): int {
    if n == 0 then start
    else
      var from := TurnStart(start, head, deployment, batch, n - 1);
      if from > head then from
      else
        var next := 1 + if from + batch - 1 > head then head else from + batch - 1;
        if next > deployment then next else deployment
  }

  lemma {:induction false} TurnsAdvance(start: int, head: nat, deployment: nat, batch: int, n: nat)
    requires deployment <= start
    ensures batch >= 1 && TurnStart(start, head, deployment, batch, n) <= head ==>
      TurnStart(start, head, deployment, batch, n) >= start + n
    ensures batch < 1 && start <= head ==> deployment <= TurnStart(start, head, deployment, batch, n) <= start
  {
    if n > 0 { TurnsAdvance(start, head, deployment, batch, n - 1); }
  }

  /** The loop ends exactly when there is nothing to scan or the batch size is
      at least 1: with a smaller one it never passes the block it started at. */
  lemma EndsExactly(start: int, head: nat, deployment: nat, batch: int)
    requires deployment <= start
    ensures (exists n: nat :: TurnStart(start, head, deployment, batch, n) > head) <==> start > head || batch >= 1
  {
    if start > head {
      assert TurnStart(start, head, deployment, batch, 0) > head;
    } else if batch >= 1 {
      var n := head + 1 - start;
      TurnsAdvance(start, head, deployment, batch, n);
      assert TurnStart(start, head, deployment, batch, n) > head;
    } else {
      forall n: nat ensures TurnStart(start, head, deployment, batch, n) <= head {
        TurnsAdvance(start, head, deployment, batch, n);
      }
    }
  }

  // ----- The batch size is invisible --------------------------------------

  /** The chain only grows: every pass sees the same history up to the head. */
  ghost predicate OnlyGrows(views: nat -> Chain, head: nat) {
    forall k: nat :: WellFormed(views(k)) && SameUnder(views(k), views(0), head + 1)
  }

  /** No block the store recorded in from..head has been replaced. */
  ghost predicate NoneReplaced(rows: Rows, chain: Chain, from: nat, head: nat) {
    forall block: nat :: from <= block <= head ==> !Replaced(rows.blocks, chain, block)
  }

  lemma PassFindsNoReorg(rows: Rows, chain: Chain, now: Chain, from: nat, to: nat, head: nat, finalityDepth: nat)
    requires SameUnder(now, chain, head + 1) && to <= head && NoneReplaced(rows, chain, from, head)
    ensures ReorgOf(rows, now, from, to, finalityDepth) == None
  {
    FirstReplacedIsFirst(rows.blocks, now, Lowest(now.head, from, finalityDepth), to);
    forall b: nat | from <= b <= to ensures !Replaced(rows.blocks, now, b) {
      assert !Replaced(rows.blocks, chain, b);
    }
  }

  lemma FoldReplacesNone(rows: Rows, chain: Chain, c: Contracts, from: nat, to: nat, head: nat)
    requires WellFormed(chain) && NoneReplaced(rows, chain, from, head) && from <= to
    ensures NoneReplaced(Fold(rows, WatchedLogs(chain, c, from, to)), chain, to + 1, head)
  {
    var logs := WatchedLogs(chain, c, from, to);
    forall block: nat | to + 1 <= block <= head ensures !Replaced(Fold(rows, logs).blocks, chain, block) {
      FoldRecordsBlocks(rows, logs, chain.hashAt, block);
      assert !Replaced(rows.blocks, chain, block);
    }
  }

  lemma PassFolds(s: Snapshot, views: nat -> Chain, k: nat, c: Contracts, from: nat, to: nat, head: nat,
                  finalityDepth: nat)
    requires OnlyGrows(views, head) && DistinctContracts(c) && from <= to <= head
    requires NoneReplaced(s.rows, views(0), from, head)
    ensures Ingested(s, views(k), c, from, to, finalityDepth) ==
      Snapshot(to, Fold(s.rows, WatchedLogs(views(0), c, from, to)))
  {
    var chain, now := views(0), views(k);
    PassFindsNoReorg(s.rows, chain, now, from, to, head, finalityDepth);
    FetchSortsToWatched(now, c, from, to);
    LowerView(now, chain, to + 1, head + 1);
    SameLogsUnder(now, chain, c, from, to);
  }

  /** Chains with one history below a height have one history below a lower one. */
  lemma LowerView(a: Chain, b: Chain, lower: nat, upper: nat)
    requires SameUnder(a, b, upper) && lower <= upper
    ensures SameUnder(a, b, lower)
  {
    UnderUnder(a.logs, lower, upper);
    UnderUnder(b.logs, lower, upper);
  }

  lemma {:induction false} UnderUnder(logs: seq<Log>, lower: nat, upper: nat)
    requires lower <= upper
    ensures Under(Under(logs, upper), lower) == Under(logs, lower)
  {
    if logs != [] {
      var front, last := logs[..|logs| - 1], logs[|logs| - 1];
      UnderUnder(front, lower, upper);
      var under := Under(front, upper);
      assert (under + [last])[..|under + [last]| - 1] == under;
    }
  }

  lemma WatchedJoins(chain: Chain, c: Contracts, from: nat, mid: nat, to: nat)
    requires WellFormed(chain) && from <= mid < to
    ensures WatchedLogs(chain, c, from, mid) + WatchedLogs(chain, c, mid + 1, to) == WatchedLogs(chain, c, from, to)
  {
    RangesConcatenate(chain.logs, from, mid + 1, to + 1, Watched(c));
  }

  /** One more adjacent range extends the fold. */
  lemma NextPassFolds(rows: Rows, before: Snapshot, views: nat -> Chain, k: nat, c: Contracts,
                      from: nat, mid: nat, to: nat, head: nat, finalityDepth: nat)
    requires OnlyGrows(views, head) && DistinctContracts(c) && from <= mid < to <= head
    requires before == Snapshot(mid, Fold(rows, WatchedLogs(views(0), c, from, mid)))
    requires NoneReplaced(rows, views(0), from, head)
    ensures Ingested(before, views(k), c, mid + 1, to, finalityDepth) ==
      Snapshot(to, Fold(rows, WatchedLogs(views(0), c, from, to)))
  {
    FoldReplacesNone(rows, views(0), c, from, mid, head);
    PassFolds(before, views, k, c, mid + 1, to, head, finalityDepth);
    WatchedJoins(views(0), c, from, mid, to);
    FoldJoins(rows, WatchedLogs(views(0), c, from, mid), WatchedLogs(views(0), c, mid + 1, to),
              WatchedLogs(views(0), c, from, to));
  }

  lemma NextRange(s: Snapshot, views: nat -> Chain, c: Contracts, ranges: seq<Range>, n: nat,
                  from: nat, mid: nat, to: nat, head: nat, finalityDepth: nat)
    requires OnlyGrows(views, head) && DistinctContracts(c) && from <= mid < to <= head
    requires 0 < n <= |ranges| && ranges[n - 1] == Range(mid + 1, to)
    requires NoneReplaced(s.rows, views(0), from, head)
    requires Passes(s, views, c, ranges, n - 1, finalityDepth)
      == Snapshot(mid, Fold(s.rows, WatchedLogs(views(0), c, from, mid)))
    ensures Passes(s, views, c, ranges, n, finalityDepth) ==
      Snapshot(to, Fold(s.rows, WatchedLogs(views(0), c, from, to)))
  {
    var before := Snapshot(mid, Fold(s.rows, WatchedLogs(views(0), c, from, mid)));
    NextPassFolds(s.rows, before, views, n, c, from, mid, to, head, finalityDepth);
  }

  lemma FirstRange(s: Snapshot, views: nat -> Chain, c: Contracts, ranges: seq<Range>, to: nat, head: nat,
                   finalityDepth: nat)
    requires OnlyGrows(views, head) && DistinctContracts(c)
    requires ranges != [] && ranges[0].from <= ranges[0].to == to <= head
    requires NoneReplaced(s.rows, views(0), ranges[0].from, head)
    ensures Passes(s, views, c, ranges, 1, finalityDepth) ==
      Snapshot(to, Fold(s.rows, WatchedLogs(views(0), c, ranges[0].from, to)))
  {
    assert Passes(s, views, c, ranges, 0, finalityDepth) == s;
    PassFolds(s, views, 1, c, ranges[0].from, to, head, finalityDepth);
  }

  lemma TileBounds(ranges: seq<Range>, from: nat, to: nat, n: nat)
    requires Tiles(ranges, from, to) && 0 < n <= |ranges|
    ensures from <= ranges[n - 1].to <= to
    ensures n > 1 ==> from <= ranges[n - 2].to < ranges[n - 1].to && ranges[n - 1].from == ranges[n - 2].to + 1
  {
    if n < |ranges| { TilesAscend(ranges, from, to, n - 1, |ranges| - 1); }
    if n > 1 { TilesAscend(ranges, from, to, 0, n - 1); }
    if n > 2 { TilesAscend(ranges, from, to, 0, n - 2); }
  }

  /** On a chain that only grows, scanning start..head in any adjacent ranges
      leaves what one fold of every watched log of start..head leaves. */
  lemma {:induction false} TilingIsOneFold(s: Snapshot, views: nat -> Chain, c: Contracts, ranges: seq<Range>,
                                           from: nat, to: nat, head: nat, n: nat, finalityDepth: nat)
    requires OnlyGrows(views, head) && DistinctContracts(c) && Tiles(ranges, from, to) && to <= head
    requires NoneReplaced(s.rows, views(0), from, head) && 0 < n <= |ranges|
    ensures Passes(s, views, c, ranges, n, finalityDepth) ==
      Snapshot(ranges[n - 1].to, Fold(s.rows, WatchedLogs(views(0), c, from, ranges[n - 1].to)))
  {
    TileBounds(ranges, from, to, n);
    if n == 1 {
      FirstRange(s, views, c, ranges, ranges[0].to, head, finalityDepth);
    } else {
      TilingIsOneFold(s, views, c, ranges, from, to, head, n - 1, finalityDepth);
      NextRange(s, views, c, ranges, n, from, ranges[n - 2].to, ranges[n - 1].to, head, finalityDepth);
    }
  }

  /** So whatever its batch size, a catch-up leaves that one fold, its cursor at the head. */
  lemma CatchUpIsOneFold(s: Snapshot, views: nat -> Chain, c: Contracts, deployment: nat, batch: int,
                         finalityDepth: nat)
    requires (batch >= 1 || Start(s.cursor, deployment) > views(0).head) && DistinctContracts(c) &&
      OnlyGrows(views, views(0).head)
    requires NoneReplaced(s.rows, views(0), Start(s.cursor, deployment), views(0).head)
    ensures var start, head := Start(s.cursor, deployment), views(0).head;
      Passes(s, views, c, Ranges(start, head, batch), |Ranges(start, head, batch)|, finalityDepth) ==
      if start > head then s else Snapshot(head, Fold(s.rows, WatchedLogs(views(0), c, start, head)))
  {
    var start, head := Start(s.cursor, deployment), views(0).head;
    RangesTile(start, head, batch);
    if start <= head {
      TilingIsOneFold(s, views, c, Ranges(start, head, batch), start, head, head, |Ranges(start, head, batch)|,
                      finalityDepth);
    }
  }
}
