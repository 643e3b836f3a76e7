/** Catching up again and again: no block is scanned twice, and none is missed. */
module Polling {
  import opened Logs
  import opened Store
  import opened Ingest
  import opened CatchUp

  // ----- One catch-up -----------------------------------------------------

  ghost predicate Covers(ranges: seq<Range>, block: nat) {
    exists i :: 0 <= i < |ranges| && ranges[i].from <= block <= ranges[i].to
  }

  lemma TilesCoverExactly(ranges: seq<Range>, from: nat, to: nat, block: nat)
    requires from <= to && Tiles(ranges, from, to)
    ensures Covers(ranges, block) <==> from <= block <= to
  {
    if from <= block <= to { var i := TilesCover(ranges, from, to, block, |ranges|); }
    if i :| 0 <= i < |ranges| && ranges[i].from <= block <= ranges[i].to { TileBounds(ranges, from, to, i + 1); }
  }

  /** Whatever its batch size, a catch-up scans the blocks from the deployment
      block to the head that are above the cursor, where there is a cursor. */
  lemma ScansExactly(cursor: nat, deployment: nat, head: nat, batch: int, block: nat)
    requires batch >= 1
    ensures Covers(Ranges(Start(cursor, deployment), head, batch), block) <==>
      deployment <= block <= head && (cursor == 0 || cursor < block)
  {
    var start := Start(cursor, deployment);
    RangesTile(start, head, batch);
    if start <= head { TilesCoverExactly(Ranges(start, head, batch), start, head, block); }
  }

  // ----- Many of them -----------------------------------------------------

  /** One catch-up: what its calls see of the chain, and its batch size. */
  datatype Poll = Poll(views: nat -> Chain, batch: int) {
    function Head(): nat {
      views(0).head
    }
  }

  ghost predicate Batched(polls: seq<Poll>) {
    forall i :: 0 <= i < |polls| ==> polls[i].batch >= 1
  }

  function RangesOf(s: Snapshot, poll: Poll, deployment: nat): seq<Range>
    requires poll.batch >= 1
  {
    Ranges(Start(s.cursor, deployment), poll.Head(), poll.batch)
  }

  /** The store after one of them. */
  function After(s: Snapshot, poll: Poll, c: Contracts, deployment: nat, finalityDepth: nat): Snapshot
    requires poll.batch >= 1
  {
    Passes(s, poll.views, c, RangesOf(s, poll, deployment), |RangesOf(s, poll, deployment)|, finalityDepth)
  }

  /** The store after these catch-ups, from an empty one. */
  function Polled(polls: seq<Poll>, c: Contracts, deployment: nat, finalityDepth: nat): Snapshot
    requires Batched(polls)
  {
    if polls == [] then EMPTY
    else
      After(Polled(polls[..|polls| - 1], c, deployment, finalityDepth), polls[|polls| - 1], c, deployment,
            finalityDepth)
  }

  /** Every range they scan, in turn. */
  function AllRanges(polls: seq<Poll>, c: Contracts, deployment: nat, finalityDepth: nat): seq<Range>
    requires Batched(polls)
  {
    if polls == [] then []
    else
      var front := polls[..|polls| - 1];
      AllRanges(front, c, deployment, finalityDepth)
      + RangesOf(Polled(front, c, deployment, finalityDepth), polls[|polls| - 1], deployment)
  }

  /** The heads never fall, and every view is of the chain as it ends up, as far as it goes. */
  ghost predicate Grows(polls: seq<Poll>, chain: Chain) {
    && (forall i, j :: 0 <= i < j < |polls| ==> polls[i].Head() <= polls[j].Head())
    && (forall i :: 0 <= i < |polls| ==> SeesOf(polls[i], chain))
  }

  ghost predicate SeesOf(poll: Poll, chain: Chain) {
    forall k: nat :: WellFormed(poll.views(k)) && SameUnder(poll.views(k), chain, poll.Head() + 1)
  }

  /** Everything from the deployment block to the head has been read, once. */
  ghost predicate UpTo(s: Snapshot, ranges: seq<Range>, chain: Chain, c: Contracts, deployment: nat, head: nat) {
    if head < deployment then s == EMPTY && ranges == []
    else
      && s == Snapshot(head, Fold(EMPTY.rows, WatchedLogs(chain, c, deployment, head)))
      && Tiles(ranges, deployment, head)
  }

  lemma TilesJoin(a: seq<Range>, b: seq<Range>, from: nat, mid: nat, to: nat)
    requires Tiles(a, from, mid) && Tiles(b, mid + 1, to)
    ensures Tiles(a + b, from, to)
  {
  }

  /** Nothing above the highest block read is recorded. */
  lemma NothingAhead(chain: Chain, c: Contracts, deployment: nat, head: nat, now: Chain, from: nat, to: nat)
    requires WellFormed(chain) && head < from
    ensures NoneReplaced(Fold(EMPTY.rows, WatchedLogs(chain, c, deployment, head)), now, from, to)
  {
    var logs := WatchedLogs(chain, c, deployment, head);
    forall block: nat | from <= block <= to ensures !Replaced(Fold(EMPTY.rows, logs).blocks, now, block) {
      FoldRecordsBlocks(EMPTY.rows, logs, chain.hashAt, block);
      assert !Touches(logs, block);
    }
  }

  lemma SeesItself(poll: Poll, chain: Chain, head: nat)
    requires SeesOf(poll, chain) && head == poll.Head()
    ensures OnlyGrows(poll.views, head)
  {
  }

  lemma SeesLogs(poll: Poll, chain: Chain, c: Contracts, from: nat)
    requires SeesOf(poll, chain) && from <= poll.Head()
    ensures WatchedLogs(poll.views(0), c, from, poll.Head()) == WatchedLogs(chain, c, from, poll.Head())
  {
    SameLogsUnder(poll.views(0), chain, c, from, poll.Head());
  }

  /** What one catch-up that starts here leaves. */
  function Read(s: Snapshot, chain: Chain, c: Contracts, start: nat, head: nat): Snapshot {
    if start > head then s else Snapshot(head, Fold(s.rows, WatchedLogs(chain, c, start, head)))
  }

  /** One catch-up folds what it reads, from where it starts. */
  lemma OnePoll(s: Snapshot, poll: Poll, chain: Chain, c: Contracts, deployment: nat, finalityDepth: nat)
    requires poll.batch >= 1 && DistinctContracts(c) && SeesOf(poll, chain)
    requires NoneReplaced(s.rows, poll.views(0), Start(s.cursor, deployment), poll.Head())
    ensures After(s, poll, c, deployment, finalityDepth) == Read(s, chain, c, Start(s.cursor, deployment), poll.Head())
  {
    SeesItself(poll, chain, poll.Head());
    CatchUpIsOneFold(s, poll.views, c, deployment, poll.batch, finalityDepth);
    if Start(s.cursor, deployment) <= poll.Head() { SeesLogs(poll, chain, c, Start(s.cursor, deployment)); }
  }

  lemma ReadMore(chain: Chain, c: Contracts, from: nat, mid: nat, to: nat)
    requires WellFormed(chain) && from <= mid <= to
    ensures Read(Snapshot(mid, Fold(EMPTY.rows, WatchedLogs(chain, c, from, mid))), chain, c, mid + 1, to) ==
      Snapshot(to, Fold(EMPTY.rows, WatchedLogs(chain, c, from, to)))
  {
    if mid < to { MoreLogs(chain, c, from, mid, to); }
  }

  /** The first catch-up that has something to read. */
  lemma FirstPoll(poll: Poll, chain: Chain, c: Contracts, deployment: nat, finalityDepth: nat)
    requires poll.batch >= 1 && DistinctContracts(c) && SeesOf(poll, chain) && deployment >= 1
    ensures UpTo(After(EMPTY, poll, c, deployment, finalityDepth), RangesOf(EMPTY, poll, deployment),
                 chain, c, deployment, poll.Head())
  {
    RangesTile(deployment, poll.Head(), poll.batch);
    OnePoll(EMPTY, poll, chain, c, deployment, finalityDepth);
  }

  /** The next one goes on after the last block read. */
  lemma NextPoll(s: Snapshot, ranges: seq<Range>, poll: Poll, chain: Chain, c: Contracts, deployment: nat, head: nat,
                 finalityDepth: nat)
    requires poll.batch >= 1 && DistinctContracts(c) && SeesOf(poll, chain) && WellFormed(chain)
    requires 1 <= deployment <= head <= poll.Head() && UpTo(s, ranges, chain, c, deployment, head)
    ensures UpTo(After(s, poll, c, deployment, finalityDepth), ranges + RangesOf(s, poll, deployment),
                 chain, c, deployment, poll.Head())
  {
    NothingAhead(chain, c, deployment, head, poll.views(0), head + 1, poll.Head());
    GoesOn(s.rows, poll, chain, c, deployment, head, finalityDepth);
    Assembled(After(s, poll, c, deployment, finalityDepth), s, ranges, RangesOf(s, poll, deployment), poll.batch,
              chain, c, deployment, head, poll.Head());
  }

  lemma Assembled(after: Snapshot, s: Snapshot, ranges: seq<Range>, next: seq<Range>, batch: int, chain: Chain,
                  c: Contracts, deployment: nat, head: nat, to: nat)
    requires batch >= 1 && WellFormed(chain) && deployment <= head <= to
    requires UpTo(s, ranges, chain, c, deployment, head)
    requires after == Read(s, chain, c, head + 1, to) && next == Ranges(head + 1, to, batch)
    ensures UpTo(after, ranges + next, chain, c, deployment, to)
  {
    ReadMore(chain, c, deployment, head, to);
    NextRanges(ranges, head + 1, batch, deployment, head, to);
  }

  /** From a cursor at or above the deployment block, whatever the rows. */
  lemma GoesOn(rows: Rows, poll: Poll, chain: Chain, c: Contracts, deployment: nat, head: nat, finalityDepth: nat)
    requires poll.batch >= 1 && DistinctContracts(c) && SeesOf(poll, chain) && 1 <= deployment <= head
    requires NoneReplaced(rows, poll.views(0), head + 1, poll.Head())
    ensures After(Snapshot(head, rows), poll, c, deployment, finalityDepth) ==
      Read(Snapshot(head, rows), chain, c, head + 1, poll.Head())
    ensures RangesOf(Snapshot(head, rows), poll, deployment) == Ranges(head + 1, poll.Head(), poll.batch)
  {
    OnePoll(Snapshot(head, rows), poll, chain, c, deployment, finalityDepth);
  }

  lemma NextRanges(ranges: seq<Range>, start: nat, batch: int, deployment: nat, head: nat, to: nat)
    requires batch >= 1 && start == head + 1 && head <= to && Tiles(ranges, deployment, head)
    ensures Tiles(ranges + Ranges(start, to, batch), deployment, to)
  {
    RangesTile(start, to, batch);
    if head < to {
      TilesJoin(ranges, Ranges(start, to, batch), deployment, head, to);
    } else {
      assert ranges + [] == ranges;
    }
  }

  lemma MoreLogs(chain: Chain, c: Contracts, from: nat, mid: nat, to: nat)
    requires WellFormed(chain) && from <= mid < to
    ensures Fold(Fold(EMPTY.rows, WatchedLogs(chain, c, from, mid)), WatchedLogs(chain, c, mid + 1, to)) ==
      Fold(EMPTY.rows, WatchedLogs(chain, c, from, to))
  {
    WatchedJoins(chain, c, from, mid, to);
    FoldJoins(EMPTY.rows, WatchedLogs(chain, c, from, mid), WatchedLogs(chain, c, mid + 1, to),
              WatchedLogs(chain, c, from, to));
  }

  /** However often and in whatever batches the indexer catches up, on a chain
      that only grows: the ranges of all its catch-ups tile the blocks from the
      deployment to the last head, and the store is one fold of every watched
      log of those blocks, its cursor at that head. */
  lemma {:induction false} PollingComposes(polls: seq<Poll>, chain: Chain, c: Contracts, deployment: nat,
                                           finalityDepth: nat)
    requires polls != [] && Batched(polls) && Grows(polls, chain)
    requires WellFormed(chain) && DistinctContracts(c) && deployment >= 1
    ensures UpTo(Polled(polls, c, deployment, finalityDepth), AllRanges(polls, c, deployment, finalityDepth),
                 chain, c, deployment, polls[|polls| - 1].Head())
  {
    var front, last := polls[..|polls| - 1], polls[|polls| - 1];
    if front == [] {
      FirstPoll(last, chain, c, deployment, finalityDepth);
      var ranges := RangesOf(EMPTY, last, deployment);
      assert [] + ranges == ranges;
    } else {
      PollingComposes(front, chain, c, deployment, finalityDepth);
      PollAfter(front, last, chain, c, deployment, finalityDepth);
    }
  }

  lemma PollAfter(front: seq<Poll>, last: Poll, chain: Chain, c: Contracts, deployment: nat, finalityDepth: nat)
    requires front != [] && Batched(front) && last.batch >= 1 && SeesOf(last, chain)
    requires front[|front| - 1].Head() <= last.Head()
    requires WellFormed(chain) && DistinctContracts(c) && deployment >= 1
    requires UpTo(Polled(front, c, deployment, finalityDepth), AllRanges(front, c, deployment, finalityDepth),
                  chain, c, deployment, front[|front| - 1].Head())
    ensures var s := Polled(front, c, deployment, finalityDepth);
      UpTo(After(s, last, c, deployment, finalityDepth),
           AllRanges(front, c, deployment, finalityDepth) + RangesOf(s, last, deployment),
           chain, c, deployment, last.Head())
  {
    var s, ranges := Polled(front, c, deployment, finalityDepth), AllRanges(front, c, deployment, finalityDepth);
    if front[|front| - 1].Head() < deployment {
      FirstPoll(last, chain, c, deployment, finalityDepth);
      assert ranges + RangesOf(s, last, deployment) == RangesOf(s, last, deployment);
    } else {
      NextPoll(s, ranges, last, chain, c, deployment, front[|front| - 1].Head(), finalityDepth);
    }
  }

  ghost predicate Overlap(a: Range, b: Range, block: nat) {
    a.from <= block <= a.to && b.from <= block <= b.to
  }

  lemma TilesDoNotOverlap(ranges: seq<Range>, from: nat, to: nat, block: nat)
    requires Tiles(ranges, from, to)
    ensures forall i, j :: 0 <= i < j < |ranges| ==> !Overlap(ranges[i], ranges[j], block)
  {
    forall i, j | 0 <= i < j < |ranges| ensures !Overlap(ranges[i], ranges[j], block) {
      TilesAscend(ranges, from, to, i, j);
    }
  }

  /** So over all of them each block from the deployment to the last head is in
      exactly one range, and no block below the deployment is in any. */
  lemma EachBlockOnce(polls: seq<Poll>, chain: Chain, c: Contracts, deployment: nat, finalityDepth: nat, block: nat)
    requires polls != [] && Batched(polls) && Grows(polls, chain)
    requires WellFormed(chain) && DistinctContracts(c) && deployment >= 1
    ensures var ranges := AllRanges(polls, c, deployment, finalityDepth);
      && (Covers(ranges, block) <==> deployment <= block <= polls[|polls| - 1].Head())
      && forall i, j :: 0 <= i < j < |ranges| ==> !Overlap(ranges[i], ranges[j], block)
  {
    var ranges, head := AllRanges(polls, c, deployment, finalityDepth), polls[|polls| - 1].Head();
    PollingComposes(polls, chain, c, deployment, finalityDepth);
    if deployment <= head {
      TilesCoverExactly(ranges, deployment, head, block);
      TilesDoNotOverlap(ranges, deployment, head, block);
    }
  }
}
