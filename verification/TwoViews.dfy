/** Two strangers who each verify a run under one sealed root saw the same run. */
module TwoViews {
  import opened Results
  import opened Receipts
  import opened Sorting
  import opened Verify
  import opened Hires
  import ChainRoot

  ghost predicate SameHashes(v: View, w: View) {
    v.hash == w.hash && v.keccak == w.keccak
  }

  // ----- What they agree on -------------------------------------------------

  /** What a receipt commits to is the same in both traces. */
  ghost predicate SameValues(v: View, w: View, r: Receipt) {
    var t, u := TraceOf(v, r), TraceOf(w, r);
    && t.Some? && u.Some?
    && (r.inputHash != ZERO32 ==> t.value.input == u.value.input)
    && (r.outputHash != ZERO32 ==> t.value.output == u.value.output)
  }

  ghost predicate SameRun(v: View, w: View, runId: Bytes32) {
    && multiset(v.stepLogs(runId)) == multiset(w.stepLogs(runId)) && Anchored(v, runId) == Anchored(w, runId)
    && forall r :: r in Anchored(v, runId) ==> SameValues(v, w, r)
  }

  /** The receipt commits to an output that names a run. */
  ghost predicate Commits(v: View, runId: Bytes32, r: Receipt, child: Bytes32) {
    r in Anchored(v, runId) && r.outputHash != ZERO32 && Names(v, r, child)
  }

  /** The same run, and the same in every run its committed outputs name, as
      many levels down. */
  ghost predicate SameTree(v: View, w: View, runId: Bytes32, depth: int)
    decreases if depth > 0 then depth else 0
  {
    && SameRun(v, w, runId)
    && (forall r, child :: Commits(v, runId, r, child) <==> Commits(w, runId, r, child))
    && forall r, child :: Commits(v, runId, r, child) ==> depth > 0 && SameTree(v, w, child, depth - 1)
  }

  // ----- Or what failed -------------------------------------------------------

  /** Two different values that a receipt commits to in these views hash alike. */
  ghost predicate ValuesCollide(v: View, w: View, r: Receipt) {
    var t, u := TraceOf(v, r), TraceOf(w, r);
    && t.Some? && u.Some?
    && ((t.value.input != u.value.input && v.hash(t.value.input) == v.hash(u.value.input))
        || (t.value.output != u.value.output && v.hash(t.value.output) == v.hash(u.value.output)))
  }

  ghost predicate RootsCollide(v: View, w: View, runId: Bytes32) {
    var rs, qs := Anchored(v, runId), Anchored(w, runId);
    && ChainRoot.AllFit(rs) && ChainRoot.AllFit(qs)
    && exists x, y :: ChainRoot.Collision(v.keccak, rs, qs, x, y)
  }

  ghost predicate RunCollides(v: View, w: View, runId: Bytes32) {
    RootsCollide(v, w, runId) || exists r :: r in Anchored(v, runId) && ValuesCollide(v, w, r)
  }

  /** A collision among what was hashed of the run, or of one its committed outputs name. */
  ghost predicate TreeCollides(v: View, w: View, runId: Bytes32, depth: int)
    decreases if depth > 0 then depth else 0
  {
    || RunCollides(v, w, runId)
    || (depth > 0 && exists r, child :: Commits(v, runId, r, child) && TreeCollides(v, w, child, depth - 1))
  }

  // ----- One run ----------------------------------------------------------

  /** A sound run's receipts, in any order, fold to the root its seal records. */
  lemma SoundRoot(v: View, runId: Bytes32, spec: Option<Spec>, depth: int)
    requires SoundAllTheWay(v, runId, spec, depth)
    ensures SealedRoot(v, runId).Some?
    ensures ChainRoot.RunRoot(v.keccak, v.stepLogs(runId)) == SealedRoot(v, runId)
  {
    SortKeeps(v.stepLogs(runId), ChainRoot.ByIndex);
    ChainRoot.OrderIrrelevant(v.keccak, Anchored(v, runId), v.stepLogs(runId));
  }

  lemma SameReceipts(v: View, w: View, runId: Bytes32)
    requires SameHashes(v, w)
    requires ChainRoot.RunRoot(v.keccak, v.stepLogs(runId)).Some?
    requires ChainRoot.RunRoot(v.keccak, v.stepLogs(runId)) == ChainRoot.RunRoot(w.keccak, w.stepLogs(runId))
    ensures RootsCollide(v, w, runId)
      || (multiset(v.stepLogs(runId)) == multiset(w.stepLogs(runId)) && Anchored(v, runId) == Anchored(w, runId))
  {
    var x, y := ChainRoot.ChainRootBindsRun(v.keccak, v.stepLogs(runId), w.stepLogs(runId));
    if multiset(v.stepLogs(runId)) == multiset(w.stepLogs(runId)) {
      ChainRoot.SortAgrees(v.stepLogs(runId), w.stepLogs(runId));
    }
  }

  lemma CommittedValues(v: View, w: View, r: Receipt)
    requires SameHashes(v, w) && StepSound(v, r) && StepSound(w, r)
    ensures SameValues(v, w, r) || ValuesCollide(v, w, r)
  {
  }

  lemma StepsSound(v: View, runId: Bytes32, spec: Option<Spec>, depth: int, r: Receipt)
    requires SoundAllTheWay(v, runId, spec, depth) && r in Anchored(v, runId)
    ensures StepSound(v, r)
  {
    var rs := Anchored(v, runId);
    var k :| 0 <= k < |rs| && rs[k] == r;
  }

  lemma RunsAgree(v: View, w: View, runId: Bytes32, specV: Option<Spec>, specW: Option<Spec>, depthV: int, depthW: int)
    requires SameHashes(v, w) && SealedRoot(v, runId) == SealedRoot(w, runId)
    requires SoundAllTheWay(v, runId, specV, depthV) && SoundAllTheWay(w, runId, specW, depthW)
    ensures SameRun(v, w, runId) || RunCollides(v, w, runId)
  {
    SoundRoot(v, runId, specV, depthV);
    SoundRoot(w, runId, specW, depthW);
    SameReceipts(v, w, runId);
    if !RootsCollide(v, w, runId) {
      forall r | r in Anchored(v, runId) ensures SameValues(v, w, r) || ValuesCollide(v, w, r) {
        StepsSound(v, runId, specV, depthV, r);
        StepsSound(w, runId, specW, depthW, r);
        CommittedValues(v, w, r);
      }
    }
  }

  // ----- The tree ---------------------------------------------------------

  /** The same committed outputs name the same runs. */
  lemma SameCommits(v: View, w: View, runId: Bytes32, r: Receipt, child: Bytes32)
    requires SameRun(v, w, runId)
    ensures Commits(v, runId, r, child) <==> Commits(w, runId, r, child)
  {
    if r in Anchored(v, runId) { assert SameValues(v, w, r); }
  }

  /** A run a sound run's receipt names is sound, under the root named with it. */
  lemma NamedIsSound(v: View, runId: Bytes32, spec: Option<Spec>, depth: int, r: Receipt, child: Bytes32)
      returns (childSpec: Option<Spec>)
    requires SoundAllTheWay(v, runId, spec, depth) && r in Anchored(v, runId) && Names(v, r, child)
    ensures depth > 0 && SoundAllTheWay(v, child, childSpec, depth - 1)
    ensures SealedRoot(v, child) == Some(HireOf(v, r).value.1)
  {
    var rs := Anchored(v, runId);
    var k :| 0 <= k < |rs| && rs[k] == r;
    HireIsClaimed(v, rs, k);
    childSpec := ChildSpecFor(v, spec, rs, ClaimBy(v, r));
  }

  lemma {:induction false} TreesAgree(v: View, w: View, runId: Bytes32, specV: Option<Spec>, specW: Option<Spec>,
                                      depthV: int, depthW: int)
    requires SameHashes(v, w) && SealedRoot(v, runId) == SealedRoot(w, runId)
    requires SoundAllTheWay(v, runId, specV, depthV) && SoundAllTheWay(w, runId, specW, depthW)
    ensures SameTree(v, w, runId, depthV) || TreeCollides(v, w, runId, depthV)
    decreases if depthV > 0 then depthV else 0
  {
    RunsAgree(v, w, runId, specV, specW, depthV, depthW);
    if !TreeCollides(v, w, runId, depthV) {
      forall r, child ensures Commits(v, runId, r, child) <==> Commits(w, runId, r, child) {
        SameCommits(v, w, runId, r, child);
      }
      forall r, child | Commits(v, runId, r, child) ensures depthV > 0 && SameTree(v, w, child, depthV - 1) {
        var childV := NamedIsSound(v, runId, specV, depthV, r, child);
        assert Commits(w, runId, r, child) && SameValues(v, w, r);
        var childW := NamedIsSound(w, runId, specW, depthW, r, child);
        TreesAgree(v, w, child, childV, childW, depthV - 1, depthW - 1);
      }
    }
  }

  /** Two strangers, whatever each was shown: where both verify a run under one
      sealed root, they hold the same receipts, the same committed inputs and
      outputs and the same tree of hired runs at every depth, or two of the
      values hashed on the way collide. */
  lemma VerifiedRunsAgree(v: View, w: View, runId: Bytes32, specV: Option<Spec>, specW: Option<Spec>, depthV: int,
                          depthW: int)
    requires SameHashes(v, w) && SealedRoot(v, runId) == SealedRoot(w, runId)
    requires VerdictOf(v, runId, specV, depthV) == VerdictOf(w, runId, specW, depthW) == Some(Verified)
    ensures SameTree(v, w, runId, depthV) || TreeCollides(v, w, runId, depthV)
  {
    VerifiedAllTheWayDown(v, runId, specV, depthV);
    VerifiedAllTheWayDown(w, runId, specW, depthW);
    TreesAgree(v, w, runId, specV, specW, depthV, depthW);
  }
}
