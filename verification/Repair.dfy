/** What a pass repairs, exactly, and what a catch-up therefore repairs. */
module Repair {
  import opened Results
  import opened Logs
  import opened Store
  import opened Ingest
  import opened CatchUp
  import opened Reorg
  import Replay

  ghost predicate Unwritten(logs: seq<Log>, k: AnchorKey) {
    forall log :: log in logs ==> KeyOf(log) != Some(k)
  }

  // ----- One row ----------------------------------------------------------

  /** A row below the range a pass is given survives the pass, canonical or
      not, exactly when the range does not write its key again. */
  lemma RowsBelowStay(s: Snapshot, chain: Chain, c: Contracts, from: nat, to: nat, finalityDepth: nat, k: AnchorKey)
    requires RowAt(s.rows, k).Some? && RowAt(s.rows, k).value.Block() < from
    ensures RowAt(Ingested(s, chain, c, from, to, finalityDepth).rows, k) == RowAt(s.rows, k) <==>
      Unwritten(Ordered(chain, c, from, to), k)
  {
    var logs := Ordered(chain, c, from, to);
    OrderedMembers(chain, c, from, to);
    KeptBelow(s.rows, chain, from, to, finalityDepth, k);
    var i := LastAnchor(Trimmed(s.rows, ReorgOf(s.rows, chain, from, to, finalityDepth)), logs, k);
    if i != -1 { assert logs[i] in logs; }
  }

  /** No row for a key, or one from above a height. */
  ghost predicate GoneOrAbove(s: Rows, k: AnchorKey, height: nat) {
    RowAt(s, k).Some? ==> RowAt(s, k).value.Block() > height
  }

  /** A pass above a height leaves a key's row as it was, or gone or above that height. */
  lemma PassMovesUp(s: Snapshot, chain: Chain, c: Contracts, from: nat, to: nat, finalityDepth: nat, k: AnchorKey,
                    height: nat)
    requires height < from
    ensures var after := Ingested(s, chain, c, from, to, finalityDepth).rows;
      && (!Unwritten(Ordered(chain, c, from, to), k) || GoneOrAbove(s.rows, k, height) ==>
          GoneOrAbove(after, k, height))
  {
    var logs := Ordered(chain, c, from, to);
    OrderedMembers(chain, c, from, to);
    var reorg := ReorgOf(s.rows, chain, from, to, finalityDepth);
    if reorg.Some? { RollbackAnchors(s.rows, reorg.value, k); }
    var i := LastAnchor(Trimmed(s.rows, reorg), logs, k);
    if i != -1 { assert logs[i] in logs; }
  }

  ghost predicate UnwrittenBy(views: nat -> Chain, c: Contracts, ranges: seq<Range>, n: nat, k: AnchorKey)
    requires n <= |ranges|
  {
    forall i :: 0 <= i < n ==> Unwritten(Ordered(views(i + 1), c, ranges[i].from, ranges[i].to), k)
  }

  /** A row as it was, or gone or replaced by one from above it. */
  ghost predicate KeptOrMoved(s: Rows, k: AnchorKey, was: AnchorRow, kept: bool) {
    if kept then RowAt(s, k) == Some(was) else GoneOrAbove(s, k, was.Block())
  }

  /** A catch-up starts above the cursor, so a row at or below the cursor is
      left as it is exactly when no log the catch-up reads writes the row's key. */
  lemma CatchUpKeepsOldRows(s: Snapshot, views: nat -> Chain, c: Contracts, ranges: seq<Range>, n: nat,
                            finalityDepth: nat, k: AnchorKey)
    requires n <= |ranges| && RowAt(s.rows, k).Some?
    requires forall r :: r in ranges ==> RowAt(s.rows, k).value.Block() < r.from
    ensures RowAt(Passes(s, views, c, ranges, n, finalityDepth).rows, k) == RowAt(s.rows, k) <==>
      UnwrittenBy(views, c, ranges, n, k)
  {
    PassesKeepOrMove(s, views, c, ranges, n, finalityDepth, k, RowAt(s.rows, k).value);
  }

  lemma {:induction false} PassesKeepOrMove(s: Snapshot, views: nat -> Chain, c: Contracts, ranges: seq<Range>, n: nat,
                                            finalityDepth: nat, k: AnchorKey, was: AnchorRow)
    requires n <= |ranges| && RowAt(s.rows, k) == Some(was)
    requires forall r :: r in ranges ==> was.Block() < r.from
    ensures KeptOrMoved(Passes(s, views, c, ranges, n, finalityDepth).rows, k, was, UnwrittenBy(views, c, ranges, n, k))
  {
    if n > 0 {
      var last, kept := ranges[n - 1], UnwrittenBy(views, c, ranges, n - 1, k);
      assert last in ranges;
      PassesKeepOrMove(s, views, c, ranges, n - 1, finalityDepth, k, was);
      PassKeepsOrMoves(Passes(s, views, c, ranges, n - 1, finalityDepth), views(n), c, last.from, last.to,
                       finalityDepth, k, was, kept);
      OneMoreUnwritten(views, c, ranges, n, k);
    }
  }

  lemma OneMoreUnwritten(views: nat -> Chain, c: Contracts, ranges: seq<Range>, n: nat, k: AnchorKey)
    requires 0 < n <= |ranges|
    ensures UnwrittenBy(views, c, ranges, n, k) <==>
      UnwrittenBy(views, c, ranges, n - 1, k) &&
        Unwritten(Ordered(views(n), c, ranges[n - 1].from, ranges[n - 1].to), k)
  {
  }

  lemma PassKeepsOrMoves(s: Snapshot, chain: Chain, c: Contracts, from: nat, to: nat, finalityDepth: nat,
                         k: AnchorKey, was: AnchorRow, kept: bool)
    requires was.Block() < from && KeptOrMoved(s.rows, k, was, kept)
    ensures KeptOrMoved(Ingested(s, chain, c, from, to, finalityDepth).rows, k, was,
                        kept && Unwritten(Ordered(chain, c, from, to), k))
  {
    PassMovesUp(s, chain, c, from, to, finalityDepth, k, was.Block());
    if kept { RowsBelowStay(s, chain, c, from, to, finalityDepth, k); }
  }

  // ----- One pass ---------------------------------------------------------

  /** The stale rows a pass does not look at are overwritten by what it reads. */
  ghost predicate StaleOverwritten(s: Rows, chain: Chain, c: Contracts, from: nat, to: nat, finalityDepth: nat) {
    forall k ::
      RowAt(s, k).Some? && RowAt(s, k).value.Block() <= to
      && RowAt(s, k).value.Block() < Lowest(chain.head, from, finalityDepth)
      && !Canonical(chain, c, k, RowAt(s, k).value)
      ==> !Unwritten(Ordered(chain, c, from, to), k)
  }

  /** A stale row outlives the pass exactly when it lies below what is checked and is not overwritten. */
  lemma StaleStays(s: Snapshot, history: History, chain: Chain, c: Contracts, from: nat, to: nat, finalityDepth: nat,
                   k: AnchorKey)
    requires Describes(history, chain) && Sourced(s.rows, history, c)
    ensures var row, after := RowAt(s.rows, k), RowAt(Ingested(s, chain, c, from, to, finalityDepth).rows, k);
      (after.Some? && after.value.Block() <= to && !Canonical(chain, c, k, after.value)) <==>
      (row.Some? && row.value.Block() <= to && row.value.Block() < Lowest(chain.head, from, finalityDepth)
       && !Canonical(chain, c, k, row.value) && Unwritten(Ordered(chain, c, from, to), k))
  {
    var lowest := Lowest(chain.head, from, finalityDepth);
    var reorg := ReorgOf(s.rows, chain, from, to, finalityDepth);
    var logs := Ordered(chain, c, from, to);
    OrderedMembers(chain, c, from, to);
    FirstReplacedIsFirst(s.rows.blocks, chain, lowest, to);
    if reorg.Some? { RollbackAnchors(s.rows, reorg.value, k); }
    var kept := RowAt(Trimmed(s.rows, reorg), k);
    var i := LastAnchor(Trimmed(s.rows, reorg), logs, k);
    if i != -1 {
      assert logs[i] in chain.logs && Anchors(logs[i], c, k);
    } else if kept.Some? && lowest <= kept.value.Block() <= to {
      assert !Replaced(s.rows.blocks, chain, kept.value.Block());
      HashDecides(history, chain, c, k, kept.value);
    }
  }

  lemma NoneStaleExactly(s: Snapshot, history: History, chain: Chain, c: Contracts, from: nat, to: nat,
                         finalityDepth: nat)
    requires Describes(history, chain) && Sourced(s.rows, history, c)
    ensures NoneStale(Ingested(s, chain, c, from, to, finalityDepth).rows, chain, c, 0, to + 1) <==>
      StaleOverwritten(s.rows, chain, c, from, to, finalityDepth)
  {
    forall k
      ensures var row, after := RowAt(s.rows, k), RowAt(Ingested(s, chain, c, from, to, finalityDepth).rows, k);
        (after.Some? && after.value.Block() <= to && !Canonical(chain, c, k, after.value)) <==>
        (row.Some? && row.value.Block() <= to && row.value.Block() < Lowest(chain.head, from, finalityDepth)
         && !Canonical(chain, c, k, row.value) && Unwritten(Ordered(chain, c, from, to), k))
    {
      StaleStays(s, history, chain, c, from, to, finalityDepth, k);
    }
  }

  lemma NoneMissingExactly(s: Snapshot, chain: Chain, c: Contracts, from: nat, to: nat, finalityDepth: nat)
    requires UniqueKeys(chain, c) && from <= to + 1
    ensures NoneMissing(Ingested(s, chain, c, from, to, finalityDepth).rows, chain, c, to + 1) <==>
      NoneMissing(s.rows, chain, c, from)
  {
    var after := Ingested(s, chain, c, from, to, finalityDepth).rows;
    if NoneMissing(s.rows, chain, c, from) {
      NoneMissingAfter(s, chain, c, from, to, finalityDepth);
    }
    if NoneMissing(after, chain, c, to + 1) {
      forall log | log in chain.logs && log.contract in Watched(c) && KeyOf(log).Some? && log.block < from
        ensures RowAt(s.rows, KeyOf(log).value) == Some(AnchorOf(log))
      {
        WasThere(s, chain, c, from, to, finalityDepth, log);
      }
    }
  }

  /** What a pass holds of a log below its range it held before. */
  lemma WasThere(s: Snapshot, chain: Chain, c: Contracts, from: nat, to: nat, finalityDepth: nat, log: Log)
    requires UniqueKeys(chain, c)
    requires log in chain.logs && log.contract in Watched(c) && KeyOf(log).Some? && log.block < from
    requires RowAt(Ingested(s, chain, c, from, to, finalityDepth).rows, KeyOf(log).value) == Some(AnchorOf(log))
    ensures RowAt(s.rows, KeyOf(log).value) == Some(AnchorOf(log))
  {
    var logs, k := Ordered(chain, c, from, to), KeyOf(log).value;
    OrderedMembers(chain, c, from, to);
    var reorg := ReorgOf(s.rows, chain, from, to, finalityDepth);
    if reorg.Some? { RollbackAnchors(s.rows, reorg.value, k); }
    var i := LastAnchor(Trimmed(s.rows, reorg), logs, k);
    if i != -1 { WrittenOnce(chain, c, logs, from, to, i, log); }
  }

  lemma WrittenOnce(chain: Chain, c: Contracts, logs: seq<Log>, from: nat, to: nat, i: nat, log: Log)
    requires UniqueKeys(chain, c) && logs == Ordered(chain, c, from, to) && i < |logs| && KeyOf(logs[i]) == KeyOf(log)
    requires log in chain.logs && log.contract in Watched(c) && KeyOf(log).Some?
    ensures from <= log.block
  {
    OrderedMembers(chain, c, from, to);
    assert logs[i] in logs && BothAnchor(logs[i], log, c);
  }

  /** A pass leaves exactly the chain's steps and seals up to `to` if and only
      if nothing is missing below `from` and every stale row that it does not
      look at has its key written by the range. */
  lemma PassConvergesExactly(s: Snapshot, history: History, chain: Chain, c: Contracts, from: nat, to: nat,
                             finalityDepth: nat)
    requires Describes(history, chain) && UniqueKeys(chain, c)
    requires Sourced(s.rows, history, c) && from <= to + 1
    ensures ExactUnder(Ingested(s, chain, c, from, to, finalityDepth).rows, chain, c, to + 1) <==>
      StaleOverwritten(s.rows, chain, c, from, to, finalityDepth) && NoneMissing(s.rows, chain, c, from)
  {
    NoneStaleExactly(s, history, chain, c, from, to, finalityDepth);
    NoneMissingExactly(s, chain, c, from, to, finalityDepth);
  }

  // ----- A catch-up is one pass over all it scans ----------------------------

  function BlocksOver(blocks: map<nat, BlockHash>, height: nat): map<nat, BlockHash> {
    map block | block in blocks && block > height :: blocks[block]
  }

  /** The same steps and seals, and the same blocks above a height. */
  predicate AsIf(a: Rows, b: Rows, height: nat) {
    a.steps == b.steps && a.seals == b.seals && BlocksOver(a.blocks, height) == BlocksOver(b.blocks, height)
  }

  lemma AlikeAbove(a: Rows, b: Rows, height: nat, block: nat)
    requires AsIf(a, b, height) && block > height
    ensures Get(a.blocks, block) == Get(b.blocks, block)
  {
    assert block in a.blocks <==> block in BlocksOver(a.blocks, height);
    assert block in b.blocks <==> block in BlocksOver(b.blocks, height);
    if block in a.blocks { assert BlocksOver(a.blocks, height)[block] == BlocksOver(b.blocks, height)[block]; }
  }

  lemma AsIfByRows(a: Rows, b: Rows, height: nat)
    requires forall k :: RowAt(a, k) == RowAt(b, k)
    requires forall block: nat :: block > height ==> Get(a.blocks, block) == Get(b.blocks, block)
    ensures AsIf(a, b, height)
  {
    SameAnchors(a, b);
    forall block: nat ensures Get(BlocksOver(a.blocks, height), block) == Get(BlocksOver(b.blocks, height), block) {
      if block > height { assert Get(a.blocks, block) == Get(b.blocks, block); }
    }
    Replay.SameAnswers(BlocksOver(a.blocks, height), BlocksOver(b.blocks, height));
  }

  ghost predicate LogsWithin(logs: seq<Log>, from: nat, to: nat) {
    forall log :: log in logs ==> from <= log.block <= to
  }

  /** Logs below the block of a rollback can be applied before it or after it. */
  lemma {:induction false} RollbackCommutes(s: Rows, logs: seq<Log>, from: nat, height: nat, block: nat, k: AnchorKey)
    requires LogsWithin(logs, from, height) && height < block
    ensures RowAt(RolledBack(Fold(s, logs), block), k) == RowAt(Fold(RolledBack(s, block), logs), k)
  {
    var i := LastAnchor(s, logs, k);
    var j := LastAnchor(RolledBack(s, block), logs, k);
    RollbackAnchors(s, block, k);
    RollbackAnchors(Fold(s, logs), block, k);
    if i != -1 { assert logs[i] in logs; }
    if j != -1 { assert logs[j] in logs; }
    SameLast(s, RolledBack(s, block), logs, k);
  }

  lemma {:induction false} SameLast(a: Rows, b: Rows, logs: seq<Log>, k: AnchorKey)
    ensures !Unwritten(logs, k) || RowAt(a, k) == RowAt(b, k) ==> RowAt(Fold(a, logs), k) == RowAt(Fold(b, logs), k)
  {
    if logs != [] {
      var front, last := logs[..|logs| - 1], logs[|logs| - 1];
      assert logs == front + [last];
      SameLast(a, b, front, k);
      ApplyAnchors(Fold(a, front), last, k);
      ApplyAnchors(Fold(b, front), last, k);
    }
  }

  lemma {:induction false} BlocksAbove(s: Rows, logs: seq<Log>, from: nat, to: nat, block: nat)
    requires LogsWithin(logs, from, to) && block > to
    ensures Get(Fold(s, logs).blocks, block) == Get(s.blocks, block)
  {
    if logs != [] {
      var front, last := logs[..|logs| - 1], logs[|logs| - 1];
      assert last in logs;
      BlocksAbove(s, front, from, to, block);
    }
  }

  lemma OrderedWithin(chain: Chain, c: Contracts, from: nat, to: nat)
    ensures LogsWithin(Ordered(chain, c, from, to), from, to)
  {
    OrderedMembers(chain, c, from, to);
  }

  /** The first replaced block is found from the blocks of the range alone. */
  lemma SameReplaced(a: Rows, b: Rows, chain: Chain, start: nat, from: nat, to: nat)
    requires start <= from
    requires forall block: nat :: from <= block <= to ==> Get(a.blocks, block) == Get(b.blocks, block)
    requires forall block: nat :: start <= block < from && block <= to ==> !Replaced(a.blocks, chain, block)
    ensures FirstReplaced(a.blocks, chain, start, to) == FirstReplaced(b.blocks, chain, from, to)
  {
    FirstReplacedIsFirst(a.blocks, chain, start, to);
    FirstReplacedIsFirst(b.blocks, chain, from, to);
    forall block: nat | from <= block <= to
      ensures Replaced(a.blocks, chain, block) <==> Replaced(b.blocks, chain, block)
    {
      assert Get(a.blocks, block) == Get(b.blocks, block);
    }
  }

  /** What is rolled back and read on top of two stores that are alike is alike. */
  lemma PassAsIf(a: Rows, b: Rows, reorg: Option<nat>, logs: seq<Log>, from: nat, to: nat)
    requires from > 0 && AsIf(a, b, from - 1)
    requires LogsWithin(logs, from, to) && from <= to && (reorg.Some? ==> reorg.value >= from)
    ensures AsIf(Fold(Trimmed(a, reorg), logs), Fold(Trimmed(b, reorg), logs), to)
  {
    forall k ensures RowAt(Fold(Trimmed(a, reorg), logs), k) == RowAt(Fold(Trimmed(b, reorg), logs), k) {
      if reorg.Some? { RollbackAnchors(a, reorg.value, k); RollbackAnchors(b, reorg.value, k); }
      SameLast(Trimmed(a, reorg), Trimmed(b, reorg), logs, k);
    }
    forall block: nat | block > to
      ensures Get(Fold(Trimmed(a, reorg), logs).blocks, block) == Get(Fold(Trimmed(b, reorg), logs).blocks, block)
    {
      AlikeAbove(a, b, from - 1, block);
      BlocksAbove(Trimmed(a, reorg), logs, from, to, block);
      BlocksAbove(Trimmed(b, reorg), logs, from, to, block);
    }
    AsIfByRows(Fold(Trimmed(a, reorg), logs), Fold(Trimmed(b, reorg), logs), to);
  }

  lemma NextPassAsIf(a: Snapshot, b: Snapshot, chain: Chain, c: Contracts, mid: nat, to: nat, finalityDepth: nat)
    requires AsIf(a.rows, b.rows, mid) && mid < to
    ensures AsIf(Ingested(a, chain, c, mid + 1, to, finalityDepth).rows,
                 Ingested(b, chain, c, mid + 1, to, finalityDepth).rows, to)
  {
    var lowest := Lowest(chain.head, mid + 1, finalityDepth);
    forall block: nat | lowest <= block <= to ensures Get(a.rows.blocks, block) == Get(b.rows.blocks, block) {
      AlikeAbove(a.rows, b.rows, mid, block);
    }
    SameReplaced(a.rows, b.rows, chain, lowest, lowest, to);
    FirstReplacedIsFirst(a.rows.blocks, chain, lowest, to);
    OrderedWithin(chain, c, mid + 1, to);
    PassAsIf(a.rows, b.rows, ReorgOf(a.rows, chain, mid + 1, to, finalityDepth), Ordered(chain, c, mid + 1, to),
             mid + 1, to);
  }

  /** Where a second, adjacent pass finds its reorganisation. */
  lemma SecondReorg(s: Snapshot, chain: Chain, c: Contracts, from: nat, mid: nat, to: nat, finalityDepth: nat)
    requires from <= mid < to
    ensures var first, whole := ReorgOf(s.rows, chain, from, mid, finalityDepth),
      ReorgOf(s.rows, chain, from, to, finalityDepth);
      var second := ReorgOf(Ingested(s, chain, c, from, mid, finalityDepth).rows, chain, mid + 1, to, finalityDepth);
      if first.Some? then second.None? && whole == first else second == whole && (whole.Some? ==> whole.value > mid)
  {
    var logs := Ordered(chain, c, from, mid);
    var start, next := Lowest(chain.head, from, finalityDepth), Lowest(chain.head, mid + 1, finalityDepth);
    var first := ReorgOf(s.rows, chain, from, mid, finalityDepth);
    var after := Ingested(s, chain, c, from, mid, finalityDepth).rows;
    FirstReplacedIsFirst(s.rows.blocks, chain, start, mid);
    FirstReplacedIsFirst(s.rows.blocks, chain, start, to);
    FirstReplacedIsFirst(after.blocks, chain, next, to);
    OrderedWithin(chain, c, from, mid);
    forall block: nat | block > mid ensures Get(after.blocks, block) == Get(Trimmed(s.rows, first).blocks, block) {
      BlocksAbove(Trimmed(s.rows, first), logs, from, mid, block);
    }
    if first.None? {
      SameReplaced(s.rows, after, chain, start, next, to);
    } else {
      forall block: nat | next <= block <= to ensures !Replaced(after.blocks, chain, block) {
        assert Get(after.blocks, block) == Get(Trimmed(s.rows, first).blocks, block);
      }
    }
  }

  /** Two adjacent passes over one chain leave the steps and seals of one. */
  lemma TwoPassesAsOne(s: Snapshot, chain: Chain, c: Contracts, from: nat, mid: nat, to: nat, finalityDepth: nat)
    requires WellFormed(chain) && DistinctContracts(c) && from <= mid < to
    ensures AsIf(Ingested(Ingested(s, chain, c, from, mid, finalityDepth), chain, c, mid + 1, to, finalityDepth).rows,
                 Ingested(s, chain, c, from, to, finalityDepth).rows, to)
  {
    var first, whole := ReorgOf(s.rows, chain, from, mid, finalityDepth),
      ReorgOf(s.rows, chain, from, to, finalityDepth);
    var lower, upper := Ordered(chain, c, from, mid), Ordered(chain, c, mid + 1, to);
    SecondReorg(s, chain, c, from, mid, to, finalityDepth);
    FetchSortsToWatched(chain, c, from, mid);
    FetchSortsToWatched(chain, c, mid + 1, to);
    FetchSortsToWatched(chain, c, from, to);
    WatchedJoins(chain, c, from, mid, to);
    FoldConcatenates(Trimmed(s.rows, whole), lower, upper);
    if first.None? && whole.Some? {
      OrderedWithin(chain, c, from, mid);
      OrderedWithin(chain, c, mid + 1, to);
      RollbackAsIf(s.rows, lower, from, mid, whole.value);
      PassAsIf(RolledBack(Fold(s.rows, lower), whole.value), Fold(RolledBack(s.rows, whole.value), lower), None,
               upper, mid + 1, to);
    }
  }

  lemma RollbackAsIf(s: Rows, logs: seq<Log>, from: nat, height: nat, block: nat)
    requires LogsWithin(logs, from, height) && height < block
    ensures AsIf(RolledBack(Fold(s, logs), block), Fold(RolledBack(s, block), logs), height)
  {
    forall k ensures RowAt(RolledBack(Fold(s, logs), block), k) == RowAt(Fold(RolledBack(s, block), logs), k) {
      RollbackCommutes(s, logs, from, height, block, k);
    }
    forall b: nat | b > height
      ensures Get(RolledBack(Fold(s, logs), block).blocks, b) == Get(Fold(RolledBack(s, block), logs).blocks, b)
    {
      BlocksAbove(s, logs, from, height, b);
      BlocksAbove(RolledBack(s, block), logs, from, height, b);
    }
    AsIfByRows(RolledBack(Fold(s, logs), block), Fold(RolledBack(s, block), logs), height);
  }

  ghost predicate Unchanging(views: nat -> Chain, chain: Chain) {
    forall k: nat :: k > 0 ==> views(k) == chain
  }

  /** The steps and seals that one pass over from..to leaves. */
  ghost predicate LikeOnePass(after: Snapshot, s: Snapshot, chain: Chain, c: Contracts, from: nat, to: nat,
                              finalityDepth: nat) {
    AsIf(after.rows, Ingested(s, chain, c, from, to, finalityDepth).rows, to)
  }

  /** While the chain stands still a catch-up leaves the steps and seals that
      one pass over all its ranges would, whatever the store held before. */
  lemma {:induction false} CatchUpIsOnePass(s: Snapshot, views: nat -> Chain, chain: Chain, c: Contracts,
                                            ranges: seq<Range>, from: nat, to: nat, n: nat, finalityDepth: nat)
    requires Unchanging(views, chain) && WellFormed(chain) && DistinctContracts(c)
    requires Tiles(ranges, from, to) && 0 < n <= |ranges|
    ensures LikeOnePass(Passes(s, views, c, ranges, n, finalityDepth), s, chain, c, from, ranges[n - 1].to,
                        finalityDepth)
  {
    TileBounds(ranges, from, to, n);
    if n > 1 { CatchUpIsOnePass(s, views, chain, c, ranges, from, to, n - 1, finalityDepth); }
    LastRange(s, Passes(s, views, c, ranges, n - 1, finalityDepth), chain, c, from,
              if n == 1 then from else ranges[n - 2].to, ranges[n - 1].from, ranges[n - 1].to, finalityDepth);
    NthPass(s, views, chain, c, ranges, n, finalityDepth);
  }

  lemma LastRange(s: Snapshot, before: Snapshot, chain: Chain, c: Contracts, from: nat, mid: nat, start: nat, to: nat,
                  finalityDepth: nat)
    requires WellFormed(chain) && DistinctContracts(c)
    requires (before == s && start == from)
      || (start == mid + 1 && from <= mid < to && LikeOnePass(before, s, chain, c, from, mid, finalityDepth))
    ensures LikeOnePass(Ingested(before, chain, c, start, to, finalityDepth), s, chain, c, from, to, finalityDepth)
  {
    if !(before == s && start == from) {
      OneMoreRange(s, before, chain, c, from, mid, start, to, finalityDepth);
    }
  }

  lemma NthPass(s: Snapshot, views: nat -> Chain, chain: Chain, c: Contracts, ranges: seq<Range>, n: nat,
                finalityDepth: nat)
    requires Unchanging(views, chain) && 0 < n <= |ranges|
    ensures Passes(s, views, c, ranges, n, finalityDepth) ==
      Ingested(Passes(s, views, c, ranges, n - 1, finalityDepth), chain, c, ranges[n - 1].from, ranges[n - 1].to,
               finalityDepth)
    ensures n == 1 ==> Passes(s, views, c, ranges, n - 1, finalityDepth) == s
  {
  }

  lemma OneMoreRange(s: Snapshot, before: Snapshot, chain: Chain, c: Contracts, from: nat, mid: nat, start: nat,
                     to: nat, finalityDepth: nat)
    requires WellFormed(chain) && DistinctContracts(c) && from <= mid < to && start == mid + 1
    requires LikeOnePass(before, s, chain, c, from, mid, finalityDepth)
    ensures LikeOnePass(Ingested(before, chain, c, start, to, finalityDepth), s, chain, c, from, to, finalityDepth)
  {
    var once := Ingested(s, chain, c, from, mid, finalityDepth);
    NextPassAsIf(before, once, chain, c, mid, to, finalityDepth);
    TwoPassesAsOne(s, chain, c, from, mid, to, finalityDepth);
  }

  /** So a catch-up leaves exactly the chain's steps and seals up to the head if
      and only if nothing is missing below its start and every stale row that
      it does not look at has its key written by a log it reads. */
  lemma CatchUpConvergesExactly(s: Snapshot, history: History, views: nat -> Chain, chain: Chain, c: Contracts,
                                deployment: nat, batch: int, finalityDepth: nat)
    requires Unchanging(views, chain) && WellFormed(chain) && DistinctContracts(c)
    requires Describes(history, chain) && UniqueKeys(chain, c) && Sourced(s.rows, history, c)
    requires batch >= 1 && Start(s.cursor, deployment) <= views(0).head
    ensures var start, head := Start(s.cursor, deployment), views(0).head;
      var ranges := Ranges(start, head, batch);
      ExactUnder(Passes(s, views, c, ranges, |ranges|, finalityDepth).rows, chain, c, head + 1) <==>
      StaleOverwritten(s.rows, chain, c, start, head, finalityDepth) && NoneMissing(s.rows, chain, c, start)
  {
    var start, head := Start(s.cursor, deployment), views(0).head;
    var ranges := Ranges(start, head, batch);
    RangesTile(start, head, batch);
    TileBounds(ranges, start, head, |ranges|);
    CatchUpIsOnePass(s, views, chain, c, ranges, start, head, |ranges|, finalityDepth);
    SameExact(Passes(s, views, c, ranges, |ranges|, finalityDepth).rows,
              Ingested(s, chain, c, start, head, finalityDepth).rows, chain, c, head);
    PassConvergesExactly(s, history, chain, c, start, head, finalityDepth);
  }

  lemma SameExact(a: Rows, b: Rows, chain: Chain, c: Contracts, height: nat)
    requires a.steps == b.steps && a.seals == b.seals
    ensures ExactUnder(a, chain, c, height + 1) <==> ExactUnder(b, chain, c, height + 1)
  {
    assert forall k :: RowAt(a, k) == RowAt(b, k);
  }
}
