/** The hash of a value: SHA-256 over the UTF-8 bytes of its canonical text,
    with SHA-256 and NFC as parameters. */
module HashJson {
  import opened Json
  import opened Results
  import opened Receipts
  import opened Unicode
  import opened Canonicalize
  import opened Linkage

  type Sha = Bytes -> Bytes32

  function Utf8Point(p: CodePoint): (b: Bytes)
    ensures b != []
  {
    if p < 0x80 then [p]
    else if p < 0x800 then [0xC0 + p / 64, 0x80 + p % 64]
    else if p < 0x10000 then [0xE0 + p / 4096, 0x80 + p / 64 % 64, 0x80 + p % 64]
    else [0xF0 + p / 262144, 0x80 + p / 4096 % 64, 0x80 + p / 64 % 64, 0x80 + p % 64]
  }

  function Utf8(p: Points): Bytes {
    if p == [] then [] else Utf8Point(p[0]) + Utf8(p[1..])
  }

  /** The bytes every hash is taken over. */
  function CanonicalBytes(v: Json, nfc: Nfc): Result<Bytes, CanonicalError> {
    var text :- CanonicalText(v, nfc);
    Success(Utf8(Decode(text)))
  }

  // ----- UTF-8 loses nothing -----------------------------------------------

  lemma PointPrefix(p: CodePoint, q: CodePoint, x: Bytes, y: Bytes)
    requires Utf8Point(p) + x == Utf8Point(q) + y
    ensures p == q && x == y
  {
    var a, b, whole := Utf8Point(p), Utf8Point(q), Utf8Point(p) + x;
    assert whole[0] == a[0] == b[0];
    assert |a| == |b|;
    assert forall i :: 0 <= i < |a| ==> a[i] == whole[i] && b[i] == whole[i];
    assert x == whole[|a|..] && y == whole[|b|..];
    Digits64(p);
    Digits64(q);
  }

  lemma Digits64(p: nat)
    ensures p == p / 64 * 64 + p % 64
    ensures p / 64 == p / 4096 * 64 + p / 64 % 64
    ensures p / 4096 == p / 262144 * 64 + p / 4096 % 64
  {
  }

  lemma {:induction false} Utf8Injective(p: Points, q: Points)
    requires Utf8(p) == Utf8(q)
    ensures p == q
  {
    if p != [] && q != [] {
      PointPrefix(p[0], q[0], Utf8(p[1..]), Utf8(q[1..]));
      Utf8Injective(p[1..], q[1..]);
      assert p == [p[0]] + p[1..] && q == [q[0]] + q[1..];
    }
  }

  /** Two values have the same bytes exactly when they are equal up to key
      order, NFC and the sign of zero. */
  lemma BytesAreInjective(v: Json, w: Json, nfc: Nfc)
    requires IsNormalForm(nfc) && CanonicalBytes(v, nfc).Success? && CanonicalBytes(w, nfc).Success?
    ensures CanonicalBytes(v, nfc) == CanonicalBytes(w, nfc) <==> Alike(v, w, nfc)
  {
    CanonicalTextIsInjective(v, w, nfc);
    var s, t := CanonicalText(v, nfc).value, CanonicalText(w, nfc).value;
    if CanonicalBytes(v, nfc) == CanonicalBytes(w, nfc) {
      Utf8Injective(Decode(s), Decode(t));
      EncodeUndoesDecode(s);
      EncodeUndoesDecode(t);
    }
  }

  // ----- What a receipt's hashes pin down ------------------------------------

  /** hash is the repository's hash of every value that has one. */
  ghost predicate IsHashJson(hash: Json -> Bytes32, sha: Sha, nfc: Nfc) {
    forall v {:trigger hash(v)} :: CanonicalBytes(v, nfc).Success? ==> hash(v) == sha(CanonicalBytes(v, nfc).value)
  }

  ghost predicate ShaCollides(sha: Sha, x: Bytes, y: Bytes) {
    x != y && sha(x) == sha(y)
  }

  /** Two evidence sets accepted against one set of receipts agree on every
      committed output up to key order, NFC and the sign of zero, or the bytes
      of those two outputs collide under SHA-256. */
  lemma OutputsAgree(q1: Query, q2: Query, i: nat, sha: Sha, nfc: Nfc)
    requires SameClaims(q1, q2) && Linked(q1) && Linked(q2) && i < |q1.steps|
    requires Receipted(q1, i).Some? && Receipted(q1, i).value.outputHash != ZERO32
    requires IsNormalForm(nfc) && IsHashJson(q1.hash, sha, nfc)
    ensures var e1, e2 := Recorded(q1, q1.steps[i].id), Recorded(q2, q2.steps[i].id);
      && e1.Some? && e2.Some?
      && var x, y := CanonicalBytes(e1.value.output, nfc), CanonicalBytes(e2.value.output, nfc);
      (x.Success? && y.Success? ==> Alike(e1.value.output, e2.value.output, nfc) || ShaCollides(sha, x.value, y.value))
  {
    OutputsUnique(q1, q2, i);
    var v, w := Recorded(q1, q1.steps[i].id).value.output, Recorded(q2, q2.steps[i].id).value.output;
    if CanonicalBytes(v, nfc).Success? && CanonicalBytes(w, nfc).Success? {
      BytesAreInjective(v, w, nfc);
      assert q1.hash(v) == q1.hash(w);
    }
  }
}
