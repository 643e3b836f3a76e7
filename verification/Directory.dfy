/** What the directory says: an agent's listing and bond, read off its logs. */
module Directory {
  import opened Results
  import opened Logs
  import opened Store
  import opened Replay

  predicate Lists(log: Log, agent: nat) {
    log.event.AdapterRegistered? && log.event.listedAgent == agent
  }

  predicate Delists(log: Log, agent: nat) {
    log.event.AdapterDeactivated? && log.event.goneAgent == agent
  }

  /** i is the last registration of the highest version an agent has. */
  ghost predicate Newest(logs: seq<Log>, agent: nat, i: int) {
    && 0 <= i < |logs| && Lists(logs[i], agent)
    && (forall j :: 0 <= j < |logs| && Lists(logs[j], agent) ==> logs[j].event.version <= logs[i].event.version)
    && (forall j :: i < j < |logs| && Lists(logs[j], agent) ==> logs[j].event.version < logs[i].event.version)
  }

  ghost predicate DelistedAfter(logs: seq<Log>, agent: nat, i: int) {
    exists j :: i < j < |logs| && 0 <= j && Delists(logs[j], agent)
  }

  /** The block of the last deactivation after log i, or that of i itself. */
  ghost predicate LastTouched(logs: seq<Log>, agent: nat, i: int, block: nat)
    requires 0 <= i < |logs|
  {
    exists k :: i <= k < |logs| && logs[k].block == block && (k == i || Delists(logs[k], agent))
      && forall j :: k < j < |logs| ==> !Delists(logs[j], agent)
  }

  /** The listing a log says an agent has, i being its newest registration. */
  ghost predicate ListingSays(logs: seq<Log>, agent: nat, i: int, row: Option<ListingRow>) {
    if i < 0 then
      row.None? && forall j :: 0 <= j < |logs| ==> !Lists(logs[j], agent)
    else
      && Newest(logs, agent, i) && row.Some?
      && row.value.agent == agent && row.value.version == logs[i].event.version
      && row.value.details == logs[i].event.details && row.value.blockHash == logs[i].blockHash
      && LastTouched(logs, agent, i, row.value.block)
      && (row.value.active <==> logs[i].event.active && !DelistedAfter(logs, agent, i))
  }

  /** An agent is listed exactly when it registered, with the details of its
      newest registration, and is active exactly when that registration was and
      no deactivation came after it. */
  lemma {:induction false} ListingIsNewest(logs: seq<Log>, agent: nat) returns (i: int)
    ensures ListingSays(logs, agent, i, Get(Fold(EMPTY.rows, logs).listings, agent))
  {
    if logs == [] {
      i := -1;
    } else {
      var front, last := logs[..|logs| - 1], logs[|logs| - 1];
      assert logs == front + [last];
      var k := ListingIsNewest(front, agent);
      i := NextListing(Fold(EMPTY.rows, front), front, last, agent, k);
    }
  }

  lemma NextListing(s: Rows, front: seq<Log>, last: Log, agent: nat, k: int) returns (i: int)
    requires ListingSays(front, agent, k, Get(s.listings, agent))
    ensures ListingSays(front + [last], agent, i, Get(ApplyLog(s, last).listings, agent))
  {
    var logs := front + [last];
    var n := |front|;
    if Lists(last, agent) && (k < 0 || front[k].event.version <= last.event.version) {
      i := n;
      assert logs[n].block == last.block;
      assert !DelistedAfter(logs, agent, n);
    } else {
      i := k;
      if k >= 0 {
        DelistedGrows(front, last, agent, k);
        TouchGrows(front, last, agent, k, s.listings[agent].block);
      }
    }
  }

  lemma TouchGrows(front: seq<Log>, last: Log, agent: nat, i: int, block: nat)
    requires 0 <= i < |front| && LastTouched(front, agent, i, block)
    ensures LastTouched(front + [last], agent, i, if Delists(last, agent) then last.block else block)
  {
    var logs := front + [last];
    if Delists(last, agent) {
      assert logs[|front|].block == last.block && Delists(logs[|front|], agent);
    } else {
      var k :| i <= k < |front| && front[k].block == block && (k == i || Delists(front[k], agent))
        && forall j :: k < j < |front| ==> !Delists(front[j], agent);
      assert logs[k].block == block && (k == i || Delists(logs[k], agent));
    }
  }

  lemma DelistedGrows(front: seq<Log>, last: Log, agent: nat, k: int)
    requires 0 <= k < |front|
    ensures DelistedAfter(front + [last], agent, k) <==> DelistedAfter(front, agent, k) || Delists(last, agent)
  {
    var logs := front + [last];
    if Delists(last, agent) { assert Delists(logs[|front|], agent); }
    if DelistedAfter(front, agent, k) {
      var j :| k < j < |front| && 0 <= j && Delists(front[j], agent);
      assert Delists(logs[j], agent);
    }
  }

  // ----- Bonds ------------------------------------------------------------

  /** A log that states what the bond now stands at. */
  predicate States(log: Log, agent: nat) {
    IsBondLog(log, agent) && !log.event.UnstakeRequested?
  }

  function StatedAmount(e: Event): nat {
    if e.Staked? then e.total else 0
  }

  function StatedUnlock(e: Event): nat {
    if e.UnstakeRequested? then e.unlockAt else 0
  }

  ghost predicate LastOf(logs: seq<Log>, i: int, agent: nat, stating: bool) {
    && -1 <= i < |logs|
    && (i >= 0 ==> Bears(logs[i], agent, stating))
    && forall j :: i < j < |logs| && 0 <= j ==> !Bears(logs[j], agent, stating)
  }

  predicate Bears(log: Log, agent: nat, stating: bool) {
    if stating then States(log, agent) else IsBondLog(log, agent)
  }

  ghost predicate EverSlashed(logs: seq<Log>, agent: nat) {
    exists j :: 0 <= j < |logs| && logs[j].event == Slashed(agent)
  }

  function Held(row: Option<BondRow>): nat {
    if row.Some? then row.value.amount else 0
  }

  predicate WasSlashed(row: Option<BondRow>) {
    row.Some? && row.value.slashed
  }

  /** The bond logs leave of the bond before them: i is the last bond log, a the last that states an amount. */
  ghost predicate BondSays(logs: seq<Log>, agent: nat, i: int, a: int, before: Option<BondRow>, row: Option<BondRow>) {
    && LastOf(logs, i, agent, false) && LastOf(logs, a, agent, true)
    && row ==
       if i < 0 then before
       else Some(BondRow(agent, if a >= 0 then StatedAmount(logs[a].event) else Held(before),
                         StatedUnlock(logs[i].event),
                         EverSlashed(logs, agent) || WasSlashed(before), logs[i].block, logs[i].blockHash))
  }

  ghost predicate InBlockOrder(logs: seq<Log>) {
    forall i, j :: 0 <= i < j < |logs| ==> logs[i].block <= logs[j].block
  }

  /** A bond that is no later than any of these logs. */
  ghost predicate NoLater(row: Option<BondRow>, logs: seq<Log>) {
    row.Some? ==> forall log :: log in logs ==> row.value.block <= log.block
  }

  /** Logs in chain order leave a bond at the amount last stated, pending
      exactly when the last bond log requested an unstake, and slashed exactly
      when it was or any of them slashes it. */
  lemma {:induction false} BondIsLastStated(s: Rows, logs: seq<Log>, agent: nat) returns (i: int, a: int)
    requires InBlockOrder(logs) && NoLater(Get(s.bonds, agent), logs)
    ensures BondSays(logs, agent, i, a, Get(s.bonds, agent), Get(Fold(s, logs).bonds, agent))
  {
    if logs == [] {
      i, a := -1, -1;
    } else {
      var front, last := logs[..|logs| - 1], logs[|logs| - 1];
      assert logs == front + [last] && last in logs;
      i, a := BondIsLastStated(s, front, agent);
      i, a := NextBondSays(Fold(s, front), front, last, agent, i, a, Get(s.bonds, agent));
    }
  }

  lemma NextBondSays(s: Rows, front: seq<Log>, last: Log, agent: nat, k: int, b: int, before: Option<BondRow>)
    returns (i: int, a: int)
    requires BondSays(front, agent, k, b, before, Get(s.bonds, agent))
    requires forall j :: 0 <= j < |front| ==> front[j].block <= last.block
    requires before.Some? ==> before.value.block <= last.block
    ensures BondSays(front + [last], agent, i, a, before, Get(ApplyLog(s, last).bonds, agent))
  {
    var logs, n := front + [last], |front|;
    SlashedGrows(front, last, agent);
    LastGrows(front, last, agent, k, false);
    LastGrows(front, last, agent, b, true);
    StatesLess(front, agent, k, b);
    i := if IsBondLog(last, agent) then n else k;
    a := if States(last, agent) then n else b;
  }

  lemma LastGrows(front: seq<Log>, last: Log, agent: nat, k: int, stating: bool)
    requires LastOf(front, k, agent, stating)
    ensures LastOf(front + [last], if Bears(last, agent, stating) then |front| else k, agent, stating)
  {
  }

  /** Without a bond log nothing is stated. */
  lemma StatesLess(logs: seq<Log>, agent: nat, i: int, a: int)
    requires LastOf(logs, i, agent, false) && LastOf(logs, a, agent, true)
    ensures i < 0 ==> a < 0 && !EverSlashed(logs, agent)
  {
    if EverSlashed(logs, agent) {
      var j :| 0 <= j < |logs| && logs[j].event == Slashed(agent);
      assert Bears(logs[j], agent, false);
    }
    if a >= 0 { assert Bears(logs[a], agent, false); }
  }

  lemma LastIsUnique(logs: seq<Log>, agent: nat, i: int, j: int, stating: bool)
    requires LastOf(logs, i, agent, stating) && LastOf(logs, j, agent, stating)
    ensures i == j
  {
  }

  lemma SlashedGrows(front: seq<Log>, last: Log, agent: nat)
    ensures EverSlashed(front + [last], agent) <==> EverSlashed(front, agent) || last.event == Slashed(agent)
  {
    var logs := front + [last];
    if last.event == Slashed(agent) { assert logs[|front|].event == Slashed(agent); }
    if EverSlashed(front, agent) {
      var j :| 0 <= j < |front| && front[j].event == Slashed(agent);
      assert logs[j].event == Slashed(agent);
    }
  }
}
