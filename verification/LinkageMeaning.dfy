/** What linking asks of the receipts and traces themselves, with no look-up
    tables between. */
module LinkageMeaning {
  import opened Json
  import opened Results
  import opened Receipts
  import opened Linkage
  import PlanMeaning
  import Template

  // ----- Which receipt, which trace -----------------------------------------

  /** The last receipt of this index. */
  ghost predicate LatestReceipt(receipts: seq<Receipt>, i: nat, r: Receipt) {
    exists k :: ReceiptAt(receipts, i, r, k)
  }

  ghost predicate ReceiptAt(receipts: seq<Receipt>, i: nat, r: Receipt, k: int) {
    && 0 <= k < |receipts| && receipts[k] == r && r.stepIndex == i
    && forall m :: k < m < |receipts| ==> receipts[m].stepIndex != i
  }

  /** The last trace of this step id. */
  ghost predicate LatestTrace(evidence: seq<StepEvidence>, id: Str, e: StepEvidence) {
    exists k :: TraceAt(evidence, id, e, k)
  }

  ghost predicate TraceAt(evidence: seq<StepEvidence>, id: Str, e: StepEvidence, k: int) {
    && 0 <= k < |evidence| && evidence[k] == e && e.stepId == id
    && forall m :: k < m < |evidence| ==> evidence[m].stepId != id
  }

  ghost predicate LatestStep(steps: seq<LinkedStep>, id: Str, j: int) {
    0 <= j < |steps| && steps[j].id == id && forall m :: j < m < |steps| ==> steps[m].id != id
  }

  lemma {:induction false} ReceiptIsLatest(receipts: seq<Receipt>, i: nat)
    ensures i in ReceiptByIndex(receipts) ==> LatestReceipt(receipts, i, ReceiptByIndex(receipts)[i])
    ensures forall r :: LatestReceipt(receipts, i, r) ==>
      i in ReceiptByIndex(receipts) && ReceiptByIndex(receipts)[i] == r
  {
    if receipts != [] {
      var n := |receipts| - 1;
      ReceiptIsLatest(receipts[..n], i);
      if receipts[n].stepIndex == i {
        assert ReceiptAt(receipts, i, receipts[n], n);
      } else {
        forall r ensures LatestReceipt(receipts, i, r) <==> LatestReceipt(receipts[..n], i, r) {
          ReceiptLaterThan(receipts, i, r);
        }
      }
    }
  }

  lemma ReceiptLaterThan(receipts: seq<Receipt>, i: nat, r: Receipt)
    requires receipts != [] && receipts[|receipts| - 1].stepIndex != i
    ensures LatestReceipt(receipts, i, r) <==> LatestReceipt(receipts[..|receipts| - 1], i, r)
  {
    var front := receipts[..|receipts| - 1];
    forall k | ReceiptAt(front, i, r, k) ensures ReceiptAt(receipts, i, r, k) {}
    forall k | ReceiptAt(receipts, i, r, k) ensures ReceiptAt(front, i, r, k) {}
  }

  lemma {:induction false} TraceIsLatest(evidence: seq<StepEvidence>, id: Str)
    ensures id in EvidenceById(evidence) ==> LatestTrace(evidence, id, EvidenceById(evidence)[id])
    ensures forall e :: LatestTrace(evidence, id, e) ==> id in EvidenceById(evidence) && EvidenceById(evidence)[id] == e
  {
    if evidence != [] {
      var n := |evidence| - 1;
      TraceIsLatest(evidence[..n], id);
      if evidence[n].stepId == id {
        assert TraceAt(evidence, id, evidence[n], n);
      } else {
        forall e ensures LatestTrace(evidence, id, e) <==> LatestTrace(evidence[..n], id, e) {
          TraceLaterThan(evidence, id, e);
        }
      }
    }
  }

  lemma TraceLaterThan(evidence: seq<StepEvidence>, id: Str, e: StepEvidence)
    requires evidence != [] && evidence[|evidence| - 1].stepId != id
    ensures LatestTrace(evidence, id, e) <==> LatestTrace(evidence[..|evidence| - 1], id, e)
  {
    var front := evidence[..|evidence| - 1];
    forall k | TraceAt(front, id, e, k) ensures TraceAt(evidence, id, e, k) {}
    forall k | TraceAt(evidence, id, e, k) ensures TraceAt(front, id, e, k) {}
  }

  lemma StepLaterThan(steps: seq<LinkedStep>, id: Str, j: int)
    requires steps != []
    ensures var n := |steps| - 1;
      LatestStep(steps, id, j) <==> if steps[n].id == id then j == n else LatestStep(steps[..n], id, j)
  {
    var n := |steps| - 1;
    assert forall k :: 0 <= k < n ==> steps[..n][k] == steps[k];
  }

  lemma {:induction false} StepIsLatest(steps: seq<LinkedStep>, id: Str, j: int)
    ensures LatestStep(steps, id, j) <==> id in IndexById(steps) && IndexById(steps)[id] == j
  {
    if steps != [] {
      var n := |steps| - 1;
      StepIsLatest(steps[..n], id, j);
      StepLaterThan(steps, id, j);
      assert IndexById(steps) == IndexById(steps[..n])[steps[n].id := n];
    }
  }

  lemma LookupsAreLatest(q: Query, i: nat, id: Str)
    ensures forall r :: LatestReceipt(q.receipts, i, r) <==> Receipted(q, i) == Some(r)
    ensures forall e :: LatestTrace(q.evidence, id, e) <==> Recorded(q, id) == Some(e)
  {
    ReceiptIsLatest(q.receipts, i);
    TraceIsLatest(q.evidence, id);
  }

  // ----- What is asked of a step --------------------------------------------

  ghost predicate Mentions(q: Query, i: nat, u: Str)
    requires i < |q.steps|
  {
    PlanMeaning.Mentions(q.steps[i].input, Text("steps"), u)
  }

  /** The template is well formed; what it reads is declared, and the step read
      comes earlier. */
  ghost predicate ReadsEarlier(q: Query, i: nat)
    requires i < |q.steps|
  {
    && PlanMeaning.WellTemplated(q.steps[i].input)
    && forall u :: Mentions(q, i, u) ==> u in q.steps[i].needs && exists j :: LatestStep(q.steps, u, j) && j < i
  }

  /** The output of step j is this one, and its receipt commits to it. */
  ghost predicate Committed(q: Query, j: nat, output: Json)
    requires j < |q.steps|
  {
    exists r, e :: LatestReceipt(q.receipts, j, r) && LatestTrace(q.evidence, q.steps[j].id, e)
      && r.outputHash != ZERO32 && q.hash(output) == r.outputHash && output == e.output
  }

  /** These are the outputs the step reads, each committed to by an earlier step
      of that id, and over them its template gives what has this hash. */
  ghost predicate Derives(q: Query, i: nat, read: map<Str, Json>, inputHash: Bytes32)
    requires i < |q.steps|
  {
    && (forall u :: u in read <==> Mentions(q, i, u))
    && (forall u :: u in read ==> CommittedBefore(q, i, u, read[u]))
    && exists v :: Template.Resolve(q.steps[i].input, Template.Context(q.runInputs, read)) == Success(v)
         && q.hash(v) == inputHash
  }

  ghost predicate CommittedBefore(q: Query, i: nat, u: Str, output: Json)
    requires i <= |q.steps|
  {
    exists j :: 0 <= j < i && q.steps[j].id == u && Committed(q, j, output)
  }

  /** The latest step called u before i that has a receipt, and its receipt. */
  ghost predicate Upstream(q: Query, i: nat, u: Str, s: Receipt)
    requires i < |q.steps|
  {
    exists j :: UpstreamAt(q, i, u, j, s)
  }

  ghost predicate UpstreamAt(q: Query, i: nat, u: Str, j: int, s: Receipt)
    requires i < |q.steps|
  {
    && 0 <= j <= i && q.steps[j].id == u && LatestReceipt(q.receipts, j, s)
    && forall m :: j < m <= i && q.steps[m].id == u ==> forall r :: !LatestReceipt(q.receipts, m, r)
  }

  ghost predicate Links(q: Query, i: nat)
    requires i < |q.steps|
  {
    && ReadsEarlier(q, i)
    && exists r, e :: LatestReceipt(q.receipts, i, r) && LatestTrace(q.evidence, q.steps[i].id, e) && Holds(q, i, r, e)
  }

  /** What holds of a step's receipt and trace. */
  ghost predicate Holds(q: Query, i: nat, r: Receipt, e: StepEvidence)
    requires i < |q.steps|
  {
    // an ok step commits to both hashes, and nothing it reads is known not to be ok
    && (r.status.Code() == 0 ==>
          && r.inputHash != ZERO32 && r.outputHash != ZERO32
          && forall u, s :: Mentions(q, i, u) && Upstream(q, i, u, s) ==> s.status.Code() == 0)
    // the stored output is the one committed to
    && (r.outputHash != ZERO32 ==> q.hash(e.output) == r.outputHash)
    // the input committed to is derived from outputs committed to
    && (r.inputHash != ZERO32 ==> exists read :: Derives(q, i, read, r.inputHash))
  }

  // ----- The check asks exactly that ----------------------------------------

  lemma MentionsAreDerived(q: Query, i: nat)
    requires i < |q.steps|
    ensures Template.ReferencedSteps(q.steps[i].input).Success? <==> PlanMeaning.WellTemplated(q.steps[i].input)
    ensures PlanMeaning.WellTemplated(q.steps[i].input) ==>
      forall u :: u in DerivedFrom(q.steps[i]) <==> Mentions(q, i, u)
  {
    var input := q.steps[i].input;
    PlanMeaning.WalkExactly(input, [], []);
    if PlanMeaning.WellTemplated(input) {
      forall u ensures u in DerivedFrom(q.steps[i]) <==> Mentions(q, i, u) { PlanMeaning.WalkExactly(input, [], u); }
    }
  }

  lemma ReadsAlike(q: Query, i: nat)
    requires i < |q.steps|
    ensures ReadsLinked(q, i) <==> ReadsEarlier(q, i)
  {
    MentionsAreDerived(q, i);
    forall u ensures ReadDeclared(q, i, u) <==>
      u in q.steps[i].needs && exists j :: LatestStep(q.steps, u, j) && j < i
    {
      if u in IndexById(q.steps) { StepIsLatest(q.steps, u, IndexById(q.steps)[u]); }
      forall j | LatestStep(q.steps, u, j) ensures u in IndexById(q.steps) && IndexById(q.steps)[u] == j {
        StepIsLatest(q.steps, u, j);
      }
    }
  }

  lemma CommittedIsConfirmed(q: Query, j: nat, output: Json)
    requires j < |q.steps|
    ensures Committed(q, j, output) <==>
      Confirms(q, j) && Recorded(q, q.steps[j].id).value.output == output
  {
    LookupsAreLatest(q, j, q.steps[j].id);
    if Confirms(q, j) {
      assert LatestReceipt(q.receipts, j, Receipted(q, j).value);
      assert LatestTrace(q.evidence, q.steps[j].id, Recorded(q, q.steps[j].id).value);
    }
  }

  lemma ConfirmedIsCommitted(q: Query, i: nat, u: Str, output: Json)
    requires i <= |q.steps|
    ensures CommittedBefore(q, i, u, output) <==> u in ConfirmedBefore(q, i) && ConfirmedBefore(q, i)[u] == output
  {
    forall j: nat | j < i ensures Committed(q, j, output) <==>
      Confirms(q, j) && Recorded(q, q.steps[j].id).value.output == output
    {
      CommittedIsConfirmed(q, j, output);
    }
  }

  ghost predicate StatusIs(q: Query, i: nat, u: Str, status: Status)
    requires i < |q.steps|
  {
    u in StatusBefore(q, i + 1) && StatusBefore(q, i + 1)[u] == status
  }

  lemma {:induction false} StatusIsUpstream(q: Query, i: nat, u: Str, status: Status)
    requires i < |q.steps|
    ensures StatusIs(q, i, u, status) <==> exists s :: Upstream(q, i, u, s) && s.status == status
  {
    LookupsAreLatest(q, i, u);
    if q.steps[i].id == u && Receipted(q, i).Some? {
      ReceiptHere(q, i, u, Receipted(q, i).value);
    } else {
      if i > 0 {
        var before := i - 1;
        StatusIsUpstream(q, before, u, status);
        NoReceiptHere(q, before, i, u);
        assert StatusIs(q, i, u, status) <==> StatusIs(q, before, u, status);
      } else {
        assert StatusBefore(q, 0) == map[];
        assert !StatusIs(q, i, u, status);
      }
    }
  }

  lemma ReceiptHere(q: Query, i: nat, u: Str, r: Receipt)
    requires i < |q.steps| && q.steps[i].id == u && Receipted(q, i) == Some(r)
    ensures forall s :: Upstream(q, i, u, s) <==> s == r
  {
    LookupsAreLatest(q, i, u);
    assert LatestReceipt(q.receipts, i, r);
    assert UpstreamAt(q, i, u, i, r);
  }

  lemma NoReceiptHere(q: Query, before: nat, i: nat, u: Str)
    requires i == before + 1 && i < |q.steps| && !(q.steps[i].id == u && Receipted(q, i).Some?)
    ensures forall s :: Upstream(q, i, u, s) <==> Upstream(q, before, u, s)
  {
    LookupsAreLatest(q, i, u);
    forall s, j | UpstreamAt(q, i, u, j, s) ensures UpstreamAt(q, before, u, j, s) {}
    forall s, j | UpstreamAt(q, before, u, j, s) ensures UpstreamAt(q, i, u, j, s) {}
  }

  lemma StatusAlike(q: Query, i: nat, r: Receipt)
    requires i < |q.steps| && ReadsEarlier(q, i)
    ensures StatusLinked(q, i, r) <==>
      (r.status.Code() == 0 ==>
        && r.inputHash != ZERO32 && r.outputHash != ZERO32
        && forall u, s :: Mentions(q, i, u) && Upstream(q, i, u, s) ==> s.status.Code() == 0)
  {
    MentionsAreDerived(q, i);
    forall u ensures UpstreamFine(q, i, u) <==> forall s :: Upstream(q, i, u, s) ==> s.status.Code() == 0 {
      UpstreamAlike(q, i, u);
    }
  }

  lemma UpstreamAlike(q: Query, i: nat, u: Str)
    requires i < |q.steps|
    ensures UpstreamFine(q, i, u) <==> forall s :: Upstream(q, i, u, s) ==> s.status.Code() == 0
  {
    forall s | Upstream(q, i, u, s) ensures StatusIs(q, i, u, s.status) { StatusIsUpstream(q, i, u, s.status); }
    if u in StatusBefore(q, i + 1) { StatusIsUpstream(q, i, u, StatusBefore(q, i + 1)[u]); }
  }

  lemma DerivationFound(q: Query, i: nat, r: Receipt, h: Bytes32)
    requires i < |q.steps| && PlanMeaning.WellTemplated(q.steps[i].input) && DerivedHash(q, i, r) == Some(h)
    ensures Derives(q, i, ReadOutputs(q, i), h)
  {
    MentionsAreDerived(q, i);
    var read, confirmed := ReadOutputs(q, i), ConfirmedBefore(q, i);
    forall u | u in read ensures CommittedBefore(q, i, u, read[u]) { ConfirmedIsCommitted(q, i, u, read[u]); }
    Template.TemplateFrame(q.steps[i].input, Template.Context(q.runInputs, read),
                           Template.Context(q.runInputs, confirmed));
  }

  lemma DerivationHashes(q: Query, i: nat, r: Receipt, read: map<Str, Json>, h: Bytes32)
    requires i < |q.steps| && PlanMeaning.WellTemplated(q.steps[i].input)
    requires r.inputHash != ZERO32 && Derives(q, i, read, h)
    ensures DerivedHash(q, i, r) == Some(h)
  {
    MentionsAreDerived(q, i);
    var confirmed := ConfirmedBefore(q, i);
    forall u | u in DerivedFrom(q.steps[i]) ensures u in read && u in confirmed && confirmed[u] == read[u] {
      assert CommittedBefore(q, i, u, read[u]);
      ConfirmedIsCommitted(q, i, u, read[u]);
    }
    Template.TemplateFrame(q.steps[i].input, Template.Context(q.runInputs, read),
                           Template.Context(q.runInputs, confirmed));
  }

  /** The input hash the report derives, and when it derives none. */
  lemma DerivedExactly(q: Query, i: nat, r: Receipt, h: Bytes32)
    requires i < |q.steps| && PlanMeaning.WellTemplated(q.steps[i].input)
    ensures DerivedHash(q, i, r) == Some(h) <==> r.inputHash != ZERO32 && exists read :: Derives(q, i, read, h)
  {
    if DerivedHash(q, i, r) == Some(h) { DerivationFound(q, i, r, h); }
    if read :| r.inputHash != ZERO32 && Derives(q, i, read, h) { DerivationHashes(q, i, r, read, h); }
  }

  lemma InputAlike(q: Query, i: nat, r: Receipt)
    requires i < |q.steps| && ReadsEarlier(q, i)
    ensures InputLinked(q, i, r) <==> (r.inputHash != ZERO32 ==> exists read :: Derives(q, i, read, r.inputHash))
  {
    DerivedExactly(q, i, r, r.inputHash);
    assert r.inputHash != ZERO32 ==> (InputLinked(q, i, r) <==> DerivedHash(q, i, r) == Some(r.inputHash));
  }

  lemma HoldsExactly(q: Query, i: nat, r: Receipt, e: StepEvidence)
    requires i < |q.steps| && ReadsEarlier(q, i)
    ensures Holds(q, i, r, e) <==> StatusLinked(q, i, r) && OutputLinked(q, r, e) && InputLinked(q, i, r)
  {
    StatusAlike(q, i, r);
    InputAlike(q, i, r);
  }

  /** A step passes the check exactly when it links. */
  lemma StepLinksExactly(q: Query, i: nat)
    requires i < |q.steps|
    ensures StepLinked(q, i) <==> Links(q, i)
  {
    ReadsAlike(q, i);
    LookupsAreLatest(q, i, q.steps[i].id);
    var r, e := Receipted(q, i), Recorded(q, q.steps[i].id);
    if ReadsEarlier(q, i) && r.Some? && e.Some? {
      HoldsExactly(q, i, r.value, e.value);
      assert LatestReceipt(q.receipts, i, r.value) && LatestTrace(q.evidence, q.steps[i].id, e.value);
    }
  }

  /** A run passes exactly when every declared step links and every receipt is
      of a declared step. */
  lemma LinkedExactly(q: Query)
    ensures Linked(q) <==>
      && (forall i :: 0 <= i < |q.steps| ==> Links(q, i))
      && (forall r :: r in q.receipts ==> r.stepIndex < |q.steps|)
  {
    forall i | 0 <= i < |q.steps| ensures StepLinked(q, i) <==> Links(q, i) { StepLinksExactly(q, i); }
  }
}
