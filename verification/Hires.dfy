/** The hires a run claims: those of its sub-flows, and those disclosed. */
module Hires {
  import opened Json
  import opened Results
  import opened Receipts
  import opened Verify
  import Hex

  /** The child run and root that a receipt's trace claims, if any. */
  function HireOf(view: View, r: Receipt): Option<(Bytes32, Bytes32)> {
    if TraceOf(view, r).Some? then ReadHiredClaim(TraceOf(view, r).value.output) else None
  }

  /** The receipt's trace claims that this run was opened. */
  predicate Names(view: View, r: Receipt, runId: Bytes32) {
    HireOf(view, r).Some? && HireOf(view, r).value.0 == runId
  }

  function ClaimBy(view: View, r: Receipt): Claim
    requires HireOf(view, r).Some?
  {
    Claim(r.stepIndex, HireOf(view, r).value.0, Some(HireOf(view, r).value.1), SubFlow)
  }

  lemma {:induction false} SubFlowsKept(claims: seq<Claim>, stepIndex: nat, hiredRuns: seq<Str>, c: Claim)
    requires c in AddDisclosed(claims, stepIndex, hiredRuns) && c.kind.SubFlow?
    ensures c in claims
  {
    if hiredRuns != [] {
      var front := hiredRuns[..|hiredRuns| - 1];
      if c in AddDisclosed(claims, stepIndex, front) { SubFlowsKept(claims, stepIndex, front, c); }
    }
  }

  /** Each sub-flow claim is read from the output of a trace. */
  lemma {:induction false} ClaimSource(view: View, rs: seq<Receipt>, c: Claim) returns (k: nat)
    requires c in ClaimsOf(view, rs) && c.kind.SubFlow?
    ensures k < |rs| && HireOf(view, rs[k]).Some?
    ensures c == ClaimBy(view, rs[k])
  {
    var front, r := rs[..|rs| - 1], rs[|rs| - 1];
    if c in ClaimsOf(view, front) {
      k := ClaimSource(view, front, c);
    } else {
      k := |rs| - 1;
      var t := TraceOf(view, r).value;
      SubFlowsKept(AddSubFlow(ClaimsOf(view, front), r.stepIndex, t.output), r.stepIndex, t.hiredRuns, c);
    }
  }

  /** And each one read is claimed. */
  lemma {:induction false} HireIsClaimed(view: View, rs: seq<Receipt>, k: nat)
    requires k < |rs| && HireOf(view, rs[k]).Some?
    ensures ClaimBy(view, rs[k]) in ClaimsOf(view, rs)
  {
    var front, r := rs[..|rs| - 1], rs[|rs| - 1];
    ClaimsKept(view, ClaimsOf(view, front), r);
    if k < |rs| - 1 { HireIsClaimed(view, front, k); }
  }

  lemma ClaimsKept(view: View, claims: seq<Claim>, r: Receipt)
    ensures claims <= AddClaims(view, claims, r)
    ensures HireOf(view, r).Some? ==> ClaimBy(view, r) in AddClaims(view, claims, r)
  {
    if TraceOf(view, r).Some? {
      var t := TraceOf(view, r).value;
      var mine := AddSubFlow(claims, r.stepIndex, t.output);
      DisclosedIsClaimed(mine, r.stepIndex, t.hiredRuns);
      if HireOf(view, r).Some? { assert AddClaims(view, claims, r)[|claims|] == ClaimBy(view, r); }
    }
  }

  ghost predicate AllSubFlows(claims: seq<Claim>) {
    forall c :: c in claims ==> c.kind.SubFlow?
  }

  ghost predicate AllClaimed(claims: seq<Claim>, hiredRuns: seq<Str>) {
    forall h :: h in hiredRuns && Hex.ParseId(h).Some? ==> Claimed(claims, Hex.ParseId(h).value)
  }

  lemma {:induction false} AddsNoneExactly(claims: seq<Claim>, stepIndex: nat, hiredRuns: seq<Str>)
    ensures AllSubFlows(AddDisclosed(claims, stepIndex, hiredRuns)) <==>
      AllSubFlows(claims) && AllClaimed(claims, hiredRuns)
    ensures AllSubFlows(AddDisclosed(claims, stepIndex, hiredRuns)) ==>
      AddDisclosed(claims, stepIndex, hiredRuns) == claims
  {
    if hiredRuns != [] {
      var front, last := hiredRuns[..|hiredRuns| - 1], hiredRuns[|hiredRuns| - 1];
      var before, after := AddDisclosed(claims, stepIndex, front), AddDisclosed(claims, stepIndex, hiredRuns);
      AddsNoneExactly(claims, stepIndex, front);
      assert hiredRuns == front + [last];
      assert AllClaimed(claims, hiredRuns) <==>
        AllClaimed(claims, front) && (Hex.ParseId(last).Some? ==> Claimed(claims, Hex.ParseId(last).value));
      if after != before { assert after[|after| - 1].kind.Disclosed? && after[|after| - 1] in after; }
    }
  }

  /** One of the receipts before position n opened this run. */
  ghost predicate HiredBefore(view: View, rs: seq<Receipt>, n: nat, runId: Bytes32) {
    exists j :: 0 <= j < n && j < |rs| && Names(view, rs[j], runId)
  }

  /** Whatever a step discloses, it or a step before it opened as a sub-flow. */
  ghost predicate DisclosesOwn(view: View, rs: seq<Receipt>) {
    forall k, h :: 0 <= k < |rs| && TraceOf(view, rs[k]).Some? && h in TraceOf(view, rs[k]).value.hiredRuns
                   && Hex.ParseId(h).Some? ==>
      HiredBefore(view, rs, k + 1, Hex.ParseId(h).value)
  }

  lemma {:induction false} ClaimedIsHired(view: View, rs: seq<Receipt>, runId: Bytes32)
    requires AllSubFlows(ClaimsOf(view, rs))
    ensures Claimed(ClaimsOf(view, rs), runId) <==> HiredBefore(view, rs, |rs|, runId)
  {
    var claims := ClaimsOf(view, rs);
    if Claimed(claims, runId) {
      var k :| 0 <= k < |claims| && claims[k].runId == runId;
      assert claims[k] in claims;
      var j := ClaimSource(view, rs, claims[k]);
    }
    if HiredBefore(view, rs, |rs|, runId) {
      var j :| 0 <= j < |rs| && Names(view, rs[j], runId);
      HireIsClaimed(view, rs, j);
      var c := ClaimBy(view, rs[j]);
      var k :| 0 <= k < |claims| && claims[k] == c;
    }
  }

  /** A run makes no claim but of its sub-flows exactly when whatever its steps
      disclose is a sub-flow opened by then. */
  lemma {:induction false} OwnHiresExactly(view: View, rs: seq<Receipt>)
    ensures AllSubFlows(ClaimsOf(view, rs)) <==> DisclosesOwn(view, rs)
  {
    if rs != [] {
      var n := |rs| - 1;
      var front, r := rs[..n], rs[n];
      OwnHiresExactly(view, front);
      OwnHiresGrow(view, rs);
      if TraceOf(view, r).Some? { LastDiscloses(view, rs); }
    }
  }

  /** Disclosing only what was opened is a matter of the last step and of those before it. */
  lemma OwnHiresGrow(view: View, rs: seq<Receipt>)
    requires rs != []
    ensures var n := |rs| - 1;
      DisclosesOwn(view, rs) <==> DisclosesOwn(view, rs[..n]) && LastDisclosesOwn(view, rs)
  {
    var n := |rs| - 1;
    var front := rs[..n];
    if DisclosesOwn(view, rs) {
      forall k, h | 0 <= k < |front| && TraceOf(view, front[k]).Some? && h in TraceOf(view, front[k]).value.hiredRuns
                    && Hex.ParseId(h).Some?
        ensures HiredBefore(view, front, k + 1, Hex.ParseId(h).value)
      {
        assert front[k] == rs[k];
        HiredInFront(view, rs, k, Hex.ParseId(h).value);
      }
    }
    if DisclosesOwn(view, front) && LastDisclosesOwn(view, rs) {
      forall k, h | 0 <= k < |rs| && TraceOf(view, rs[k]).Some? && h in TraceOf(view, rs[k]).value.hiredRuns
                    && Hex.ParseId(h).Some?
        ensures HiredBefore(view, rs, k + 1, Hex.ParseId(h).value)
      {
        if k < n {
          assert front[k] == rs[k];
          HiredInFront(view, rs, k, Hex.ParseId(h).value);
        }
      }
    }
  }

  lemma HiredInFront(view: View, rs: seq<Receipt>, k: nat, runId: Bytes32)
    requires k < |rs| - 1
    ensures HiredBefore(view, rs, k + 1, runId) <==> HiredBefore(view, rs[..|rs| - 1], k + 1, runId)
  {
    var front := rs[..|rs| - 1];
    assert forall j :: 0 <= j < k + 1 ==> front[j] == rs[j];
  }

  ghost predicate LastDisclosesOwn(view: View, rs: seq<Receipt>)
    requires rs != []
  {
    var r := rs[|rs| - 1];
    TraceOf(view, r).Some? ==>
      forall h :: h in TraceOf(view, r).value.hiredRuns && Hex.ParseId(h).Some? ==>
        HiredBefore(view, rs, |rs|, Hex.ParseId(h).value)
  }

  lemma LastDiscloses(view: View, rs: seq<Receipt>)
    requires rs != [] && TraceOf(view, rs[|rs| - 1]).Some?
    ensures AllSubFlows(ClaimsOf(view, rs)) <==>
      AllSubFlows(ClaimsOf(view, rs[..|rs| - 1])) && LastDisclosesOwn(view, rs)
  {
    var front, r := rs[..|rs| - 1], rs[|rs| - 1];
    var t, claims := TraceOf(view, r).value, ClaimsOf(view, front);
    var mine := AddSubFlow(claims, r.stepIndex, t.output);
    AddsNoneExactly(mine, r.stepIndex, t.hiredRuns);
    assert AllSubFlows(mine) <==> AllSubFlows(claims);
    if AllSubFlows(claims) {
      forall runId ensures Claimed(mine, runId) <==> HiredBefore(view, rs, |rs|, runId) {
        ClaimedWithLast(view, rs, runId);
      }
    }
  }

  lemma ClaimedWithLast(view: View, rs: seq<Receipt>, runId: Bytes32)
    requires rs != [] && AllSubFlows(ClaimsOf(view, rs[..|rs| - 1])) && TraceOf(view, rs[|rs| - 1]).Some?
    ensures var r := rs[|rs| - 1];
      var mine := AddSubFlow(ClaimsOf(view, rs[..|rs| - 1]), r.stepIndex, TraceOf(view, r).value.output);
      Claimed(mine, runId) <==> HiredBefore(view, rs, |rs|, runId)
  {
    var front, r := rs[..|rs| - 1], rs[|rs| - 1];
    var claims := ClaimsOf(view, front);
    var mine := AddSubFlow(claims, r.stepIndex, TraceOf(view, r).value.output);
    ClaimedIsHired(view, front, runId);
    assert Claimed(mine, runId) <==> Claimed(claims, runId) || Names(view, r, runId) by {
      if Claimed(claims, runId) { ClaimedStays(claims, mine, runId); }
      if Names(view, r, runId) { assert mine[|mine| - 1].runId == runId; }
    }
    HiredByLast(view, rs, runId);
  }

  lemma HiredByLast(view: View, rs: seq<Receipt>, runId: Bytes32)
    requires rs != []
    ensures var n := |rs| - 1;
      HiredBefore(view, rs, |rs|, runId) <==>
      HiredBefore(view, rs[..n], n, runId) || Names(view, rs[n], runId)
  {
    var n := |rs| - 1;
    assert forall j :: 0 <= j < n ==> rs[..n][j] == rs[j];
  }
}
