/** The chain root: what sealing a run commits to. */
module ChainRoot {
  import opened Results
  import opened Receipts
  import opened Sorting

  // ----- Fixed-width encoding ---------------------------------------------

  function Pow256(n: nat): (p: nat)
    ensures p > 0
  {
    if n == 0 then 1 else 256 * Pow256(n - 1)
  }

  /** The n low-order bytes of v, most significant first. */
  function BigEndian(v: nat, n: nat): (b: Bytes)
    ensures |b| == n
  {
    if n == 0 then [] else BigEndian(v / 256, n - 1) + [v % 256]
  }

  lemma {:induction false} BigEndianInjective(v: nat, w: nat, n: nat)
    requires v < Pow256(n) && w < Pow256(n) && BigEndian(v, n) == BigEndian(w, n)
    ensures v == w
  {
    if n > 0 {
      var a, b := BigEndian(v, n), BigEndian(w, n);
      assert a[..n - 1] == BigEndian(v / 256, n - 1) && b[..n - 1] == BigEndian(w / 256, n - 1);
      assert v % 256 == a[n - 1] == b[n - 1] == w % 256;
      BigEndianInjective(v / 256, w / 256, n - 1);
    }
  }

  /** Every number is within the width of its Solidity type. */
  function Fits(r: Receipt): bool {
    r.stepIndex < Pow256(4) && r.agentId < Pow256(32) &&
    r.startedAt < Pow256(8) && r.endedAt < Pow256(8)
  }

  function Words(r: Receipt): (words: seq<Bytes32>)
    ensures |words| == 11
  {
    [r.flowId, r.runId, BigEndian(r.stepIndex, 32), BigEndian(r.agentId, 32), r.inputHash,
     r.outputHash, r.traceRoot, r.attestationRef, BigEndian(r.startedAt, 32),
     BigEndian(r.endedAt, 32), BigEndian(r.status.Code(), 32)]
  }

  function Concat(words: seq<Bytes32>): (b: Bytes)
    ensures |b| == 32 * |words|
  {
    if words == [] then [] else words[0] + Concat(words[1..])
  }

  /** `abi.encode` of a receipt; None when a field exceeds its width. */
  function Encode(r: Receipt): (b: Option<Bytes>)
    ensures b.Some? <==> Fits(r)
    ensures b.Some? ==> |b.value| == 352
  {
    if Fits(r) then Some(Concat(Words(r))) else None
  }

  lemma {:induction false} ConcatInjective(a: seq<Bytes32>, b: seq<Bytes32>)
    requires |a| == |b| && Concat(a) == Concat(b)
    ensures a == b
  {
    if a != [] {
      var x, y := Concat(a), Concat(b);
      assert x[..32] == a[0] && y[..32] == b[0];
      assert x[32..] == Concat(a[1..]) && y[32..] == Concat(b[1..]);
      ConcatInjective(a[1..], b[1..]);
      assert a == [a[0]] + a[1..] && b == [b[0]] + b[1..];
    }
  }

  lemma {:induction false} Pow256Grows(m: nat, n: nat)
    requires m <= n
    ensures Pow256(m) <= Pow256(n)
  {
    if m < n { Pow256Grows(m, n - 1); }
  }

  lemma {:induction false} Pow256Adds(a: nat, b: nat)
    ensures Pow256(a + b) == Pow256(a) * Pow256(b)
  {
    if a > 0 {
      Pow256Adds(a - 1, b);
      assert 256 * (Pow256(a - 1) * Pow256(b)) == 256 * Pow256(a - 1) * Pow256(b);
    }
  }

  lemma Pow256Is()
    ensures Pow256(4) == 0x1_0000_0000 && Pow256(8) == 0x1_0000_0000_0000_0000
    ensures Pow256(32) == 0x1_0000_0000_0000_0000_0000_0000_0000_0000_0000_0000_0000_0000_0000_0000_0000_0000
  {
    assert Pow256(1) == 256 * Pow256(0);
    Pow256Adds(1, 1);
    Pow256Adds(2, 2);
    Pow256Adds(4, 4);
    Pow256Adds(8, 8);
    Pow256Adds(16, 16);
  }

  /** A receipt is encoded exactly when every number is within its Solidity type. */
  lemma EncodesExactly(r: Receipt)
    ensures Encode(r).Some? <==>
      && r.stepIndex < 0x1_0000_0000 && r.startedAt < 0x1_0000_0000_0000_0000 && r.endedAt < 0x1_0000_0000_0000_0000
      && r.agentId < 0x1_0000_0000_0000_0000_0000_0000_0000_0000_0000_0000_0000_0000_0000_0000_0000_0000
  {
    Pow256Is();
  }

  lemma NumberAt(a: seq<Bytes32>, b: seq<Bytes32>, k: nat, v: nat, w: nat)
    requires a == b && k < |a| && a[k] == BigEndian(v, 32) && b[k] == BigEndian(w, 32)
    requires v < Pow256(32) && w < Pow256(32)
    ensures v == w
  {
    BigEndianInjective(v, w, 32);
  }

  /** No two receipts share an encoding: no field is dropped or reordered. */
  lemma EncodeInjective(r: Receipt, s: Receipt)
    requires Encode(r).Some? && Encode(r) == Encode(s)
    ensures r == s
  {
    ConcatInjective(Words(r), Words(s));
    SmallNumbersMatch(r, s);
    TimesMatch(r, s);
    HashesMatch(r, s);
  }

  lemma HashesMatch(r: Receipt, s: Receipt)
    requires Words(r) == Words(s)
    ensures r.flowId == s.flowId && r.runId == s.runId && r.inputHash == s.inputHash && r.outputHash == s.outputHash
    ensures r.traceRoot == s.traceRoot && r.attestationRef == s.attestationRef
  {
    var a, b := Words(r), Words(s);
    assert a[0] == b[0] && a[1] == b[1] && a[4] == b[4] && a[5] == b[5] && a[6] == b[6] && a[7] == b[7];
  }

  lemma FitsWide(r: Receipt)
    requires Fits(r)
    ensures r.stepIndex < Pow256(32) && r.agentId < Pow256(32) && r.startedAt < Pow256(32) && r.endedAt < Pow256(32)
    ensures r.status.Code() < Pow256(32)
  {
    Pow256Grows(4, 32);
    Pow256Grows(8, 32);
    Pow256Grows(1, 32);
    assert Pow256(1) == 256 * Pow256(0);
  }

  lemma SmallNumbersMatch(r: Receipt, s: Receipt)
    requires Words(r) == Words(s) && Fits(r) && Fits(s)
    ensures r.stepIndex == s.stepIndex && r.agentId == s.agentId && r.status == s.status
  {
    PlacesMatch(r, s);
    StatusMatches(r, s);
  }

  lemma PlacesMatch(r: Receipt, s: Receipt)
    requires Words(r) == Words(s) && Fits(r) && Fits(s)
    ensures r.stepIndex == s.stepIndex && r.agentId == s.agentId
  {
    IndexMatches(r, s);
    NumberAt(Words(r), Words(s), 3, r.agentId, s.agentId);
  }

  lemma IndexMatches(r: Receipt, s: Receipt)
    requires Words(r) == Words(s) && Fits(r) && Fits(s)
    ensures r.stepIndex == s.stepIndex
  {
    FitsWide(r);
    FitsWide(s);
    NumberAt(Words(r), Words(s), 2, r.stepIndex, s.stepIndex);
  }

  lemma StatusMatches(r: Receipt, s: Receipt)
    requires Words(r) == Words(s) && Fits(r) && Fits(s)
    ensures r.status == s.status
  {
    FitsWide(r);
    FitsWide(s);
    NumberAt(Words(r), Words(s), 10, r.status.Code(), s.status.Code());
  }

  lemma TimesMatch(r: Receipt, s: Receipt)
    requires Words(r) == Words(s) && Fits(r) && Fits(s)
    ensures r.startedAt == s.startedAt && r.endedAt == s.endedAt
  {
    FitsWide(r);
    FitsWide(s);
    NumberAt(Words(r), Words(s), 8, r.startedAt, s.startedAt);
    NumberAt(Words(r), Words(s), 9, r.endedAt, s.endedAt);
  }

  // ----- Where each field lies ------------------------------------------------

  /** The word is this number, its least significant byte last. */
  ghost predicate Spells(word: Bytes, v: nat) {
    |word| == 32 && forall i :: 0 <= i < 32 ==> word[31 - i] == v / Pow256(i) % 256
  }

  lemma {:induction false} BigEndianDigit(v: nat, n: nat, i: nat)
    requires i < n
    ensures BigEndian(v, n)[n - 1 - i] == v / Pow256(i) % 256
  {
    if i > 0 {
      BigEndianDigit(v / 256, n - 1, i - 1);
      DivideTwice(v, Pow256(i - 1));
    } else {
      assert Pow256(0) == 1;
    }
  }

  lemma DivideTwice(v: nat, b: nat)
    requires b > 0
    ensures v / 256 / b == v / (256 * b)
  {
    var x := v / 256;
    var q := x / b;
    assert 256 * b * q == 256 * (b * q);
    Quotient(v, 256 * b, q, 256 * (x % b) + v % 256);
  }

  lemma Quotient(v: nat, d: nat, q: nat, r: nat)
    requires d > 0 && v == d * q + r && r < d
    ensures v / d == q
  {
    var k := v / d - q;
    assert d * k == r - v % d;
    assert k > 0 ==> d * k >= d;
    assert k < 0 ==> d * k <= 0 - d;
  }

  lemma BigEndianSpells(v: nat)
    ensures Spells(BigEndian(v, 32), v)
  {
    forall i | 0 <= i < 32 ensures BigEndian(v, 32)[31 - i] == v / Pow256(i) % 256 { BigEndianDigit(v, 32, i); }
  }

  lemma {:induction false} ConcatAt(words: seq<Bytes32>, k: nat)
    requires k < |words|
    ensures |Concat(words)| == 32 * |words| && Concat(words)[32 * k..32 * k + 32] == words[k]
  {
    if k > 0 {
      ConcatAt(words[1..], k - 1);
      var rest := Concat(words[1..]);
      assert Concat(words)[32 * k..32 * k + 32] == rest[32 * (k - 1)..32 * (k - 1) + 32];
    }
  }

  /** `abi.encode` lays the eleven fields out one word each, in the order the
      contract declares them. */
  lemma EncodingLays(r: Receipt)
    requires Encode(r).Some?
    ensures var b := Encode(r).value;
      && |b| == 352
      && b[0..32] == r.flowId && b[32..64] == r.runId && Spells(b[64..96], r.stepIndex)
      && Spells(b[96..128], r.agentId) && b[128..160] == r.inputHash && b[160..192] == r.outputHash
      && b[192..224] == r.traceRoot && b[224..256] == r.attestationRef
      && Spells(b[256..288], r.startedAt) && Spells(b[288..320], r.endedAt)
      && Spells(b[320..352], match r.status case Ok => 0 case Failed => 1 case Skipped => 2 case Unattested => 3)
  {
    var words := Words(r);
    forall k | 0 <= k < 11 ensures Concat(words)[32 * k..32 * k + 32] == words[k] { ConcatAt(words, k); }
    HashesLie(Concat(words), words);
    NumbersLie(Concat(words), words);
    BigEndianSpells(r.stepIndex);
    BigEndianSpells(r.agentId);
    BigEndianSpells(r.startedAt);
    BigEndianSpells(r.endedAt);
    BigEndianSpells(r.status.Code());
  }

  ghost predicate Lie(b: Bytes, words: seq<Bytes32>) {
    |b| == 352 && |words| == 11 && forall k :: 0 <= k < 11 ==> b[32 * k..32 * k + 32] == words[k]
  }

  lemma HashesLie(b: Bytes, words: seq<Bytes32>)
    requires Lie(b, words)
    ensures b[0..32] == words[0] && b[32..64] == words[1] && b[128..160] == words[4] && b[160..192] == words[5]
    ensures b[192..224] == words[6] && b[224..256] == words[7]
  {
    assert b[32 * 0..32 * 0 + 32] == words[0] && b[32 * 1..32 * 1 + 32] == words[1];
    assert b[32 * 4..32 * 4 + 32] == words[4] && b[32 * 5..32 * 5 + 32] == words[5];
    assert b[32 * 6..32 * 6 + 32] == words[6] && b[32 * 7..32 * 7 + 32] == words[7];
  }

  lemma NumbersLie(b: Bytes, words: seq<Bytes32>)
    requires Lie(b, words)
    ensures b[64..96] == words[2] && b[96..128] == words[3] && b[256..288] == words[8]
    ensures b[288..320] == words[9] && b[320..352] == words[10]
  {
    assert b[32 * 2..32 * 2 + 32] == words[2] && b[32 * 3..32 * 3 + 32] == words[3];
    assert b[32 * 8..32 * 8 + 32] == words[8] && b[32 * 9..32 * 9 + 32] == words[9];
    assert b[32 * 10..32 * 10 + 32] == words[10];
  }

  // ----- The fold ---------------------------------------------------------

  type Hash = Bytes -> Bytes32

  ghost predicate AllFit(receipts: seq<Receipt>) {
    forall k :: 0 <= k < |receipts| ==> Fits(receipts[k])
  }

  function Leaf(hash: Hash, r: Receipt): Bytes32
    requires Fits(r)
  {
    hash(Encode(r).value)
  }

  /** What the last hash of the fold over `ordered` is taken over. */
  function Preimage(hash: Hash, ordered: seq<Receipt>): (b: Bytes)
    requires ordered != [] && AllFit(ordered)
    ensures |b| == if |ordered| == 1 then 352 else 64
    decreases |ordered|, 0
  {
    var n := |ordered| - 1;
    if n == 0 then Encode(ordered[0]).value else Root(hash, ordered[..n]) + Leaf(hash, ordered[n])
  }

  function Root(hash: Hash, ordered: seq<Receipt>): Bytes32
    requires ordered != [] && AllFit(ordered)
    decreases |ordered|, 1
  {
    hash(Preimage(hash, ordered))
  }

  function ByIndex(a: Receipt, b: Receipt): bool {
    a.stepIndex <= b.stepIndex
  }

  /** A complete set of receipts: one for each of 0 .. n-1. */
  ghost predicate Contiguous(receipts: seq<Receipt>) {
    && receipts != []
    && (forall a, b :: 0 <= a < b < |receipts| ==> receipts[a].stepIndex != receipts[b].stepIndex)
    && (forall a :: 0 <= a < |receipts| ==> receipts[a].stepIndex < |receipts|)
  }

  ghost predicate Foldable(receipts: seq<Receipt>) {
    Contiguous(receipts) && AllFit(receipts)
  }

  function IndexSet(receipts: seq<Receipt>): set<nat> {
    set r | r in receipts :: r.stepIndex
  }

  function Below(n: nat): (s: set<nat>)
    ensures forall i: nat :: i in s <==> i < n
  {
    if n == 0 then {} else Below(n - 1) + {n - 1}
  }

  lemma {:induction false} CountBelow(n: nat)
    ensures |Below(n)| == n
  {
    if n > 0 { CountBelow(n - 1); }
  }

  lemma {:induction false} CountIndices(receipts: seq<Receipt>)
    requires forall a, b :: 0 <= a < b < |receipts| ==> receipts[a].stepIndex != receipts[b].stepIndex
    ensures |IndexSet(receipts)| == |receipts|
  {
    if receipts != [] {
      var front, last := receipts[..|receipts| - 1], receipts[|receipts| - 1];
      CountIndices(front);
      assert receipts == front + [last];
      assert IndexSet(receipts) == IndexSet(front) + {last.stepIndex};
    }
  }

  lemma ContiguousFills(receipts: seq<Receipt>)
    requires receipts != []
    requires forall a, b :: 0 <= a < b < |receipts| ==> receipts[a].stepIndex != receipts[b].stepIndex
    ensures Contiguous(receipts) <==> Below(|receipts|) <= IndexSet(receipts)
  {
    CountBelow(|receipts|);
    CountIndices(receipts);
    if Contiguous(receipts) {
      assert IndexSet(receipts) <= Below(|receipts|);
      SameSize(IndexSet(receipts), Below(|receipts|));
    }
    if Below(|receipts|) <= IndexSet(receipts) {
      SameSize(Below(|receipts|), IndexSet(receipts));
      assert forall a :: 0 <= a < |receipts| ==> receipts[a].stepIndex in IndexSet(receipts);
    }
  }

  /** The source's two loops: no index twice, then none missing. */
  method AssertContiguous(receipts: seq<Receipt>) returns (ok: bool)
    ensures ok <==> Contiguous(receipts)
  {
    if receipts == [] {
      return false;
    }
    var seen: set<nat> := {};
    for k := 0 to |receipts|
      invariant seen == IndexSet(receipts[..k])
      invariant forall a, b :: 0 <= a < b < k ==> receipts[a].stepIndex != receipts[b].stepIndex
    {
      assert receipts[..k + 1] == receipts[..k] + [receipts[k]];
      if receipts[k].stepIndex in seen {
        return false;
      }
      seen := seen + {receipts[k].stepIndex};
    }
    assert receipts[..|receipts|] == receipts;
    ContiguousFills(receipts);
    for i := 0 to |receipts|
      invariant Below(i) <= seen
    {
      if i !in seen {
        assert i in Below(|receipts|);
        return false;
      }
    }
    return true;
  }

  predicate Encodable(receipts: seq<Receipt>) {
    forall r | r in receipts :: Fits(r)
  }

  /** The root of a complete set of receipts, whatever order they come in. */
  ghost function RunRoot(hash: Hash, receipts: seq<Receipt>): Option<Bytes32> {
    if Foldable(receipts) then
      SortFits(receipts);
      Some(Root(hash, Sort(receipts, ByIndex)))
    else None
  }

  /** The source's fold, reassigning `root` receipt by receipt. */
  method FoldChainRoot(hash: Hash, receipts: seq<Receipt>) returns (result: Option<Bytes32>)
    ensures result == RunRoot(hash, receipts)
  {
    var contiguous := AssertContiguous(receipts);
    if !contiguous || !Encodable(receipts) {
      return None;
    }
    var ordered := Sort(receipts, ByIndex);
    SortFits(receipts);
    var root := FoldOrdered(hash, ordered);
    return Some(root);
  }

  method FoldOrdered(hash: Hash, ordered: seq<Receipt>) returns (root: Bytes32)
    requires ordered != [] && AllFit(ordered)
    ensures root == Root(hash, ordered)
  {
    root := Leaf(hash, ordered[0]);
    FirstRoot(hash, ordered);
    for i := 1 to |ordered|
      invariant root == RootAt(hash, ordered, i)
    {
      NextRoot(hash, ordered, i);
      root := hash(root + Leaf(hash, ordered[i]));
    }
    assert ordered[..|ordered|] == ordered;
  }

  /** The root of the first n receipts. */
  function RootAt(hash: Hash, ordered: seq<Receipt>, n: nat): Bytes32
    requires 0 < n <= |ordered| && AllFit(ordered)
  {
    Root(hash, ordered[..n])
  }

  lemma RootOfOne(hash: Hash, s: seq<Receipt>)
    requires |s| == 1 && AllFit(s)
    ensures Root(hash, s) == Leaf(hash, s[0])
  {
    assert Preimage(hash, s) == Encode(s[0]).value;
  }

  lemma RootOfMore(hash: Hash, s: seq<Receipt>)
    requires |s| > 1 && AllFit(s)
    ensures Root(hash, s) == hash(Root(hash, s[..|s| - 1]) + Leaf(hash, s[|s| - 1]))
  {
    assert Preimage(hash, s) == Root(hash, s[..|s| - 1]) + Leaf(hash, s[|s| - 1]);
  }

  lemma FirstRoot(hash: Hash, ordered: seq<Receipt>)
    requires ordered != [] && AllFit(ordered)
    ensures RootAt(hash, ordered, 1) == Leaf(hash, ordered[0])
  {
    RootOfOne(hash, ordered[..1]);
  }

  lemma NextRoot(hash: Hash, ordered: seq<Receipt>, n: nat)
    requires 0 < n < |ordered| && AllFit(ordered)
    ensures RootAt(hash, ordered, n + 1) == hash(RootAt(hash, ordered, n) + Leaf(hash, ordered[n]))
  {
    RootOfMore(hash, ordered[..n + 1]);
    assert ordered[..n + 1][..n] == ordered[..n];
  }

  /** The root of any receipts, in terms of what is hashed: the encoding of the
      first; and for each after it the root so far, then the hash of its encoding. */
  lemma RootIsFold(hash: Hash, ordered: seq<Receipt>, n: nat)
    requires 0 < n <= |ordered| && AllFit(ordered)
    ensures RootAt(hash, ordered, n) ==
      var leaf := hash(Encode(ordered[n - 1]).value);
      if n == 1 then leaf else hash(RootAt(hash, ordered, n - 1) + leaf)
  {
    if n == 1 { FirstRoot(hash, ordered); } else { NextRoot(hash, ordered, n - 1); }
  }

  lemma SortFits(receipts: seq<Receipt>)
    requires forall r :: r in receipts ==> Fits(r)
    ensures AllFit(Sort(receipts, ByIndex)) && |Sort(receipts, ByIndex)| == |receipts|
  {
    var ordered := Sort(receipts, ByIndex);
    SortKeeps(receipts, ByIndex);
    MembersOf(ordered, receipts);
    forall k | 0 <= k < |ordered| ensures Fits(ordered[k]) {
      assert ordered[k] in ordered;
    }
  }

  /** The root after each step. */
  method ChainRootProgression(hash: Hash, receipts: seq<Receipt>) returns (result: Option<seq<Bytes32>>)
    ensures result.Some? <==> Foldable(receipts)
    ensures result.Some? ==>
      var ordered := Sort(receipts, ByIndex);
      && AllFit(ordered) && |result.value| == |ordered| == |receipts|
      && forall i :: 0 <= i < |ordered| ==> result.value[i] == RootAt(hash, ordered, i + 1)
  {
    var contiguous := AssertContiguous(receipts);
    if !contiguous || !Encodable(receipts) {
      return None;
    }
    var ordered := Sort(receipts, ByIndex);
    SortFits(receipts);
    var roots := Roots(hash, ordered);
    return Some(roots);
  }

  method Roots(hash: Hash, ordered: seq<Receipt>) returns (roots: seq<Bytes32>)
    requires ordered != [] && AllFit(ordered)
    ensures |roots| == |ordered|
    ensures forall i :: 0 <= i < |ordered| ==> roots[i] == RootAt(hash, ordered, i + 1)
  {
    roots := [Leaf(hash, ordered[0])];
    FirstRoot(hash, ordered);
    for i := 1 to |ordered|
      invariant |roots| == i
      invariant forall k :: 0 <= k < i ==> roots[k] == RootAt(hash, ordered, k + 1)
    {
      NextRoot(hash, ordered, i);
      roots := roots + [hash(roots[i - 1] + Leaf(hash, ordered[i]))];
    }
  }

  // ----- What the root binds ----------------------------------------------

  /** Everything the fold hashes. */
  function Hashed(hash: Hash, ordered: seq<Receipt>): set<Bytes>
    requires AllFit(ordered)
    decreases |ordered|
  {
    if ordered == [] then {}
    else
      var n := |ordered| - 1;
      Hashed(hash, ordered[..n]) + {Preimage(hash, ordered), Encode(ordered[n]).value}
  }

  /** x and y are distinct, hash alike, and were hashed by these two folds. */
  ghost predicate Collision(hash: Hash, a: seq<Receipt>, b: seq<Receipt>, x: Bytes, y: Bytes)
    requires AllFit(a) && AllFit(b)
  {
    x != y && hash(x) == hash(y) && x in Hashed(hash, a) && y in Hashed(hash, b)
  }

  lemma LeafBinds(hash: Hash, a: seq<Receipt>, b: seq<Receipt>) returns (x: Bytes, y: Bytes)
    requires a != [] && b != [] && AllFit(a) && AllFit(b)
    requires Leaf(hash, a[|a| - 1]) == Leaf(hash, b[|b| - 1])
    ensures a[|a| - 1] == b[|b| - 1] || Collision(hash, a, b, x, y)
  {
    x, y := Encode(a[|a| - 1]).value, Encode(b[|b| - 1]).value;
    if x == y { EncodeInjective(a[|a| - 1], b[|b| - 1]); }
  }

  /** Folds of any lengths with one root are of the same receipts, or exhibit
      two distinct strings they hashed alike. */
  lemma {:induction false} RootBinds(hash: Hash, a: seq<Receipt>, b: seq<Receipt>)
      returns (x: Bytes, y: Bytes)
    requires a != [] && b != [] && AllFit(a) && AllFit(b)
    requires Root(hash, a) == Root(hash, b)
    ensures a == b || Collision(hash, a, b, x, y)
    decreases |a|
  {
    x, y := Preimage(hash, a), Preimage(hash, b);
    if x == y {
      assert |a| == 1 <==> |b| == 1;
      if |a| == 1 {
        x, y := LeafBinds(hash, a, b);
      } else {
        x, y := NodeBinds(hash, a, b);
      }
    }
  }

  lemma NodeParts(hash: Hash, a: seq<Receipt>)
    requires |a| > 1 && AllFit(a)
    ensures Preimage(hash, a)[..32] == Root(hash, a[..|a| - 1])
    ensures Preimage(hash, a)[32..] == Leaf(hash, a[|a| - 1])
  {
  }

  lemma {:induction false} NodeBinds(hash: Hash, a: seq<Receipt>, b: seq<Receipt>)
      returns (x: Bytes, y: Bytes)
    requires |a| > 1 && |b| > 1 && AllFit(a) && AllFit(b)
    requires Preimage(hash, a) == Preimage(hash, b)
    ensures a == b || Collision(hash, a, b, x, y)
    decreases |a|, 0
  {
    FrontRoots(hash, a, b);
    x, y := RootBinds(hash, a[..|a| - 1], b[..|b| - 1]);
    if a[..|a| - 1] == b[..|b| - 1] {
      x, y := LeafBinds(hash, a, b);
      SameFrontAndLast(a, b);
    } else {
      CollisionLifts(hash, a, b, x, y);
    }
  }

  /** Folds of one last preimage have one root before it and one last leaf. */
  lemma FrontRoots(hash: Hash, a: seq<Receipt>, b: seq<Receipt>)
    requires |a| > 1 && |b| > 1 && AllFit(a) && AllFit(b) && Preimage(hash, a) == Preimage(hash, b)
    ensures AllFit(a[..|a| - 1]) && AllFit(b[..|b| - 1])
    ensures Root(hash, a[..|a| - 1]) == Root(hash, b[..|b| - 1])
    ensures Leaf(hash, a[|a| - 1]) == Leaf(hash, b[|b| - 1])
  {
    NodeParts(hash, a);
    NodeParts(hash, b);
  }

  lemma SameFrontAndLast(a: seq<Receipt>, b: seq<Receipt>)
    requires a != [] && b != [] && a[..|a| - 1] == b[..|b| - 1]
    ensures a[|a| - 1] == b[|b| - 1] ==> a == b
  {
    assert a == a[..|a| - 1] + [a[|a| - 1]] && b == b[..|b| - 1] + [b[|b| - 1]];
  }

  /** A collision met on the way to a root is met on the way to a later one. */
  lemma CollisionLifts(hash: Hash, a: seq<Receipt>, b: seq<Receipt>, x: Bytes, y: Bytes)
    requires a != [] && b != [] && AllFit(a) && AllFit(b)
    requires Collision(hash, a[..|a| - 1], b[..|b| - 1], x, y)
    ensures Collision(hash, a, b, x, y)
  {
  }

  /** In ascending order, receipt i of a complete set is the one numbered i. */
  lemma OrderedAt(receipts: seq<Receipt>, i: nat)
    requires Contiguous(receipts) && i < |receipts|
    ensures |Sort(receipts, ByIndex)| == |receipts|
    ensures Sort(receipts, ByIndex)[i] in receipts && Sort(receipts, ByIndex)[i].stepIndex == i
  {
    var sorted := Sort(receipts, ByIndex);
    SortKeeps(receipts, ByIndex);
    MembersOf(sorted, receipts);
    SortAscends(receipts);
    var keys := seq(|sorted|, k requires 0 <= k < |sorted| => sorted[k].stepIndex);
    forall k | 0 <= k < |keys| ensures 0 <= keys[k] < |keys| {
      assert sorted[k] in receipts;
    }
    AscendingFills(keys, i);
    assert sorted[i] in sorted;
  }

  lemma SortAscends(receipts: seq<Receipt>)
    requires Contiguous(receipts)
    ensures var sorted := Sort(receipts, ByIndex);
      forall a, b :: 0 <= a < b < |sorted| ==> sorted[a].stepIndex < sorted[b].stepIndex
  {
    var sorted := Sort(receipts, ByIndex);
    SortKeeps(receipts, ByIndex);
    MembersOf(sorted, receipts);
    SortSorts(receipts, ByIndex);
    SortHasNoRepeats(receipts, ByIndex);
    forall a, b | 0 <= a < b < |sorted| ensures sorted[a].stepIndex < sorted[b].stepIndex {
      assert ByIndex(sorted[a], sorted[b]) && sorted[a] in receipts && sorted[b] in receipts;
    }
  }

  lemma FitsAlike(a: seq<Receipt>, b: seq<Receipt>)
    requires forall r :: r in a <==> r in b
    ensures AllFit(a) <==> AllFit(b)
  {
    assert AllFit(a) <==> forall r :: r in a ==> Fits(r);
    assert AllFit(b) <==> forall r :: r in b ==> Fits(r);
  }

  lemma OneAtIndex(receipts: seq<Receipt>, r: Receipt, s: Receipt)
    requires Contiguous(receipts) && r in receipts && s in receipts && r.stepIndex == s.stepIndex
    ensures r == s
  {
    var a :| 0 <= a < |receipts| && receipts[a] == r;
    var b :| 0 <= b < |receipts| && receipts[b] == s;
  }

  lemma SortAgrees(a: seq<Receipt>, b: seq<Receipt>)
    requires Contiguous(a) && Contiguous(b) && multiset(a) == multiset(b)
    ensures Sort(a, ByIndex) == Sort(b, ByIndex)
  {
    MembersOf(a, b);
    assert |a| == |multiset(a)| == |b|;
    OrderedAt(a, 0);
    OrderedAt(b, 0);
    forall i | 0 <= i < |a| ensures Sort(a, ByIndex)[i] == Sort(b, ByIndex)[i] {
      OrderedAt(a, i);
      OrderedAt(b, i);
      OneAtIndex(a, Sort(a, ByIndex)[i], Sort(b, ByIndex)[i]);
    }
  }

  lemma ContiguousEitherWay(a: seq<Receipt>, b: seq<Receipt>)
    requires Contiguous(a) && multiset(a) == multiset(b)
    ensures Contiguous(b)
  {
    MembersOf(a, b);
    assert |a| == |multiset(a)| == |b|;
    forall i, j | 0 <= i < j < |b| ensures b[i].stepIndex != b[j].stepIndex {
      assert b[i] in a && b[j] in a;
      CountsAtMostOne(a, b[i]);
      if b[i] == b[j] {
        RepeatCounts(b, i, j);
      } else if b[i].stepIndex == b[j].stepIndex {
        OneAtIndex(a, b[i], b[j]);
      }
    }
    forall i | 0 <= i < |b| ensures b[i].stepIndex < |b| {
      assert b[i] in a;
    }
  }

  /** Arrival order does not matter: the same receipts fold to the same root,
      or fail to fold, in any order. */
  lemma OrderIrrelevant(hash: Hash, a: seq<Receipt>, b: seq<Receipt>)
    requires multiset(a) == multiset(b)
    ensures RunRoot(hash, a) == RunRoot(hash, b)
  {
    MembersOf(a, b);
    FitsAlike(a, b);
    if Contiguous(a) {
      ContiguousEitherWay(a, b);
      SortAgrees(a, b);
    } else if Contiguous(b) {
      ContiguousEitherWay(b, a);
    }
  }

  /** Two complete receipt sets with one root are the same set, whatever order
      each arrived in, or their folds exhibit a collision. */
  lemma ChainRootBindsRun(hash: Hash, a: seq<Receipt>, b: seq<Receipt>) returns (x: Bytes, y: Bytes)
    requires Foldable(a) && Foldable(b)
    ensures AllFit(Sort(a, ByIndex)) && AllFit(Sort(b, ByIndex))
    ensures RunRoot(hash, a) == RunRoot(hash, b) ==>
      multiset(a) == multiset(b) || Collision(hash, Sort(a, ByIndex), Sort(b, ByIndex), x, y)
  {
    x, y := [], [];
    SortFits(a);
    SortFits(b);
    SortKeeps(a, ByIndex);
    SortKeeps(b, ByIndex);
    if RunRoot(hash, a) == RunRoot(hash, b) {
      x, y := RootBinds(hash, Sort(a, ByIndex), Sort(b, ByIndex));
    }
  }
}
