/** Public key recovery, over any curve y^2 = x^3 + 7 of prime order (section
    4.1.6 of SEC 1 v2.0); secp256k1 is one. */
module Recovery {
  import opened Results
  import opened Receipts
  import opened ChainRoot
  import opened Modular
  import opened Fermat
  import opened Jacobian
  import opened AffineCurve
  import opened Groups
  import opened Scalars

  /** The field prime, the group order and the generator. */
  datatype Curve = Curve(m: Modulus, n: Modulus, gx: nat, gy: nat)

  const SECP256K1 := Curve(
    0xfffffffffffffffffffffffffffffffffffffffffffffffffffffffefffffc2f,
    0xfffffffffffffffffffffffffffffffebaaedce6af48a03bbfd25e8cd0364141,
    0x79be667ef9dcbbac55a06295ce870b07029bfcdb2dce28d959f2815b16f81798,
    0x483ada7726a3c4655da4fbfc0e1108a8fd17b448a68554199c47d08ffb10d4b8)

  /** What is used of the two primes: their sizes, and square roots by a power. */
  ghost predicate Shaped(c: Curve) {
    && c.n <= c.m < 2 * c.n && c.m % 4 == 3
    && OnAffine(At(c.gx, c.gy), c.m)
  }

  /** Numbers modulo the two primes fit in 32 bytes. */
  ghost predicate Narrow(c: Curve) {
    c.n <= c.m < Pow256(32)
  }

  lemma Secp256k1IsShaped()
    ensures Shaped(SECP256K1) && Narrow(SECP256K1)
  {
    var c := SECP256K1;
    Pow256Is();
    assert (c.gy * c.gy - (c.gx * c.gx * c.gx + 7)) % c.m == 0;
  }

  // ----- Signatures -------------------------------------------------------

  datatype Signature = Signature(r: int, s: int, recovery: nat)

  datatype RecoveryError =
    | WrongLength | UnsupportedV | ROutOfRange | SOutOfRange | HighS
    | OutsideField | NotOnCurve | CannotInvert | AtInfinity

  /** The number a run of bytes spells, big end first. */
  function Number(b: Bytes): nat {
    if b == [] then 0 else 256 * Number(b[..|b| - 1]) + b[|b| - 1]
  }

  function ParseSignature(c: Curve, bytes: Bytes): Result<Signature, RecoveryError> {
    if |bytes| != 65 then Failure(WrongLength)
    else
      var r, s, raw := Number(bytes[..32]), Number(bytes[32..64]), bytes[64];
      if !(raw < 4 || raw == 27 || raw == 28) then Failure(UnsupportedV)
      else if r <= 0 || r >= c.n then Failure(ROutOfRange)
      else if s <= 0 || s >= c.n then Failure(SOutOfRange)
      else if s > c.n / 2 then Failure(HighS)
      else Success(Signature(r, s, if raw >= 27 then raw - 27 else raw))
  }

  // ----- Recovery ---------------------------------------------------------

  function Root(value: int, m: Modulus): int {
    Mod(Pow(value, (m + 1) / 4), m)
  }

  function YSquared(x: int, m: Modulus): int {
    Mod(Mod(x * x, m) * x + 7, m)
  }

  /** The point whose x coordinate the signature carries. */
  function NoncePoint(c: Curve, sig: Signature): Result<Point, RecoveryError> {
    var x := if sig.recovery / 2 % 2 == 1 then sig.r + c.n else sig.r;
    if x >= c.m then Failure(OutsideField)
    else
      var y := Root(YSquared(x, c.m), c.m);
      if Mod(y * y, c.m) != YSquared(x, c.m) then Failure(NotOnCurve)
      else Success(Point(x, if y % 2 != sig.recovery % 2 then c.m - y else y, 1))
  }

  /** Q = r^-1 (sR - zG). */
  function KeyPoint(c: Curve, z: nat, sig: Signature, nonce: Point): Point {
    var sR := Ladder(ZERO, nonce, Mod(sig.s, c.n), c.m);
    var zG := Ladder(ZERO, Point(c.gx, c.gy, 1), Mod(Mod(0 - z, c.n), c.n), c.m);
    Ladder(ZERO, Add(sR, zG, c.m), Mod(InverseOf(sig.r, c.n), c.n), c.m)
  }

  /** The 64 bytes of a public key. */
  function KeyBytes(a: Affine): Bytes
    requires a.At? && a.x >= 0 && a.y >= 0
  {
    BigEndian(a.x, 32) + BigEndian(a.y, 32)
  }

  function Recovered(c: Curve, hash: Bytes, sig: Signature): Result<Bytes, RecoveryError> {
    if |hash| != 32 then Failure(WrongLength)
    else
      var nonce :- NoncePoint(c, sig);
      if sig.r == 0 then Failure(CannotInvert)
      else
        var q := KeyPoint(c, Number(hash), sig, nonce);
        if IsZero(q) then Failure(AtInfinity) else Success(KeyBytes(ToAffine(q, c.m)))
  }

  method RecoverNonce(c: Curve, sig: Signature) returns (nonce: Result<Point, RecoveryError>)
    ensures nonce == NoncePoint(c, sig)
  {
    var x := if sig.recovery / 2 % 2 == 1 then sig.r + c.n else sig.r;
    if x >= c.m { return Failure(OutsideField); }
    var ySquared := YSquared(x, c.m);
    var y := Power(ySquared, (c.m + 1) / 4, c.m);
    if Mod(y * y, c.m) != ySquared { return Failure(NotOnCurve); }
    if y % 2 != sig.recovery % 2 { y := c.m - y; }
    return Success(Point(x, y, 1));
  }

  method RecoverKey(c: Curve, z: nat, sig: Signature, nonce: Point) returns (q: Result<Point, RecoveryError>)
    ensures q == if sig.r == 0 then Failure(CannotInvert) else Success(KeyPoint(c, z, sig, nonce))
  {
    var rInv := Invert(sig.r, c.n);
    if rInv.Failure? { return Failure(CannotInvert); }
    var sR := Multiply(nonce, sig.s, c.m, c.n);
    var zG := Multiply(Point(c.gx, c.gy, 1), Mod(0 - z, c.n), c.m, c.n);
    var product := Multiply(Add(sR, zG, c.m), rInv.value, c.m, c.n);
    return Success(product);
  }

  method RecoverPublicKey(c: Curve, hash: Bytes, sig: Signature) returns (key: Result<Bytes, RecoveryError>)
    ensures key == Recovered(c, hash, sig)
  {
    if |hash| != 32 { return Failure(WrongLength); }
    var nonce := RecoverNonce(c, sig);
    if nonce.Failure? { return Failure(nonce.error); }
    var q := RecoverKey(c, Number(hash), sig, nonce.value);
    if q.Failure? { return Failure(q.error); }
    if IsZero(q.value) { return Failure(AtInfinity); }
    return Success(KeyBytes(ToAffine(q.value, c.m)));
  }

  // ----- Square roots ------------------------------------------------------

  /** The power the source takes is a square root of any square. */
  lemma RootWorks(value: int, y: int, m: Modulus)
    requires Prime(m) && m % 4 == 3 && Cong(value, y * y, m)
    ensures Cong(Root(value, m) * Root(value, m), y * y, m)
  {
    var e := (m + 1) / 4;
    var root, half := Root(value, m), Pow(y, 2 * e);
    PowCong(value, y * y, e, m);
    PowSquares(y, e);
    ModOf(Pow(value, e), half, m);
    CongMul(root, half, root, half, m);
    PowAdds(y, 2 * e, 2 * e);
    assert 2 * e + 2 * e == m + 1;
    assert Pow(y, m + 1) == y * Pow(y, m);
    FermatOf(y, m);
    CongSelf(y, m);
    CongMul(y, y, Pow(y, m), y, m);
    CongTrans(root * root, Pow(y, m + 1), y * y, m);
  }

  /** A square has two roots. */
  lemma RootIsEither(root: int, y: int, m: Modulus)
    requires Prime(m) && 0 <= root < m && 0 < y < m && Cong(root * root, y * y, m)
    ensures root == y || root == m - y
  {
    assert (root - y) * (root + y) == root * root - y * y;
    NonzeroProduct(root - y, root + y, m);
    if Cong(root - y, 0, m) {
      var k := Witness(root - y, 0, m);
      NoSmallMultiple(m, k, root - y);
    } else {
      var k := Witness(root + y, 0, m);
      assert m * (k - 1) == root + y - m;
      NoSmallMultiple(m, k - 1, root + y - m);
    }
  }

  lemma YSquaredIs(x: int, m: Modulus)
    ensures Cong(YSquared(x, m), x * x * x + 7, m)
  {
    ModCong(x * x, m);
    CongSelf(x, m);
    CongSelf(7, m);
    CongMul(Mod(x * x, m), x * x, x, x, m);
    CongAdd(Mod(x * x, m) * x, x * x * x, 7, 7, m);
    ModOf(Mod(x * x, m) * x + 7, x * x * x + 7, m);
  }

  // ----- An honest signature ------------------------------------------------

  ghost function Generator(c: Curve): Affine {
    At(c.gx, c.gy)
  }

  ghost function Multiple(c: Curve, k: nat): Affine {
    Times(CurveGroup(c.m), k, Generator(c))
  }

  /** sig signs the number z under the key d, with the nonce k: s is
      k^-1 (z + r d) modulo the order, or its negation with the parity flipped,
      and the recovery id says which of the points with that r the nonce gave. */
  ghost predicate Signs(c: Curve, z: nat, d: nat, k: nat, s: nat, sig: Signature) {
    var nonce := Multiple(c, k);
    && nonce.At? && sig.r == nonce.x % c.n && sig.r != 0
    && 0 < s < c.n && Cong(s * k, z + sig.r * d, c.n)
    && sig.recovery < 4 && (sig.recovery >= 2 <==> nonce.x >= c.n)
    && ((sig.s == s && sig.recovery % 2 == nonce.y % 2) || (sig.s == c.n - s && sig.recovery % 2 != nonce.y % 2))
  }

  /** What is assumed of the curve and its two primes. */
  ghost predicate Assumed(c: Curve) {
    Shaped(c) && IsGroup(c.m, c.n)
  }

  lemma MultipleStays(c: Curve, k: nat)
    requires Assumed(c)
    ensures OnAffine(Multiple(c, k), c.m)
  {
    CurveLaws(c.m);
    TimesStays(CurveGroup(c.m), k, Generator(c));
  }

  /** The x coordinate is read back from r and the overflow bit. */
  lemma XReturns(c: Curve, nonce: Affine, sig: Signature)
    requires Shaped(c) && nonce.At? && 0 <= nonce.x < c.m
    requires sig.r == nonce.x % c.n && sig.recovery < 4 && (sig.recovery >= 2 <==> nonce.x >= c.n)
    ensures nonce.x == if sig.recovery / 2 % 2 == 1 then sig.r + c.n else sig.r
  {
    if nonce.x >= c.n {
      assert nonce.x - c.n < c.n;
      OneOver(nonce.x, c.n);
    } else {
      ModSmall(nonce.x, c.n);
    }
  }

  lemma OneOver(x: nat, n: nat)
    requires 0 < n <= x < 2 * n
    ensures x % n == x - n
  {
    var k := x / n;
    assert n * (k - 1) == (x - n) - x % n;
    NoSmallMultiple(n, k - 1, (x - n) - x % n);
  }

  /** The nonce's point comes back, negated when s was. */
  lemma NonceReturns(c: Curve, nonce: Affine, sig: Signature)
    requires Assumed(c) && OnAffine(nonce, c.m) && nonce.At?
    requires sig.r == nonce.x % c.n && sig.recovery < 4 && (sig.recovery >= 2 <==> nonce.x >= c.n)
    ensures NoncePoint(c, sig) == Success(Lift(if sig.recovery % 2 == nonce.y % 2 then nonce else Neg(nonce, c.m)))
  {
    XReturns(c, nonce, sig);
    NoZeroY(nonce, c.m, c.n);
    OddPrime(c.m);
    RootReturns(nonce.x, nonce.y, c.m);
    OtherParity(c.m, nonce.y);
  }

  lemma OtherParity(m: int, y: int)
    requires m % 2 == 1
    ensures (m - y) % 2 != y % 2 && m - (m - y) == y
  {
  }

  /** The root taken of a point's y^2 passes the check and is y or its negation. */
  lemma RootReturns(x: int, y: int, m: Modulus)
    requires Prime(m) && m % 4 == 3 && 0 < y < m && Cong(y * y, x * x * x + 7, m)
    ensures var root := Root(YSquared(x, m), m);
      Mod(root * root, m) == YSquared(x, m) && (root == y || root == m - y)
  {
    var value := YSquared(x, m);
    var root := Root(value, m);
    YSquaredIs(x, m);
    CongSym(y * y, x * x * x + 7, m);
    CongTrans(value, x * x * x + 7, y * y, m);
    RootWorks(value, y, m);
    CongSym(value, y * y, m);
    CongTrans(root * root, y * y, value, m);
    CongMod(root * root, value, m);
    ModSmall(value, m);
    RootIsEither(root, y, m);
  }

  /** The x coordinate a signature asks for. */
  function NonceX(c: Curve, sig: Signature): int {
    if sig.recovery < 2 then sig.r else sig.r + c.n
  }

  /** A root that passes the check is that of a point, and no other y has it. */
  lemma RootIsOnCurve(x: int, m: Modulus)
    requires 0 <= x < m && Mod(Root(YSquared(x, m), m) * Root(YSquared(x, m), m), m) == YSquared(x, m)
    ensures OnAffine(At(x, Root(YSquared(x, m), m)), m)
  {
    var root, value := Root(YSquared(x, m), m), YSquared(x, m);
    YSquaredIs(x, m);
    ModCong(root * root, m);
    CongSym(value, root * root, m);
    CongTrans(root * root, value, x * x * x + 7, m);
  }

  /** A point is found exactly when the x asked for is in the field and on the
      curve; it is the one there whose y has the parity asked for. */
  lemma NonceExactly(c: Curve, sig: Signature)
    requires Assumed(c) && sig.r >= 0 && sig.recovery < 4
    ensures var x := NonceX(c, sig);
      NoncePoint(c, sig).Success? <==> x < c.m && exists y :: OnAffine(At(x, y), c.m)
    ensures NoncePoint(c, sig).Success? ==> exists y ::
      && OnAffine(At(NonceX(c, sig), y), c.m) && y % 2 == sig.recovery % 2
      && NoncePoint(c, sig).value == Lift(At(NonceX(c, sig), y))
  {
    var x := NonceX(c, sig);
    if x < c.m {
      if y :| OnAffine(At(x, y), c.m) {
        NoZeroY(At(x, y), c.m, c.n);
        RootReturns(x, y, c.m);
      }
      if NoncePoint(c, sig).Success? { NonceIsPoint(c, sig, x); }
    }
  }

  lemma NonceIsPoint(c: Curve, sig: Signature, x: int)
    requires Assumed(c) && 0 <= x < c.m && x == NonceX(c, sig) && sig.recovery < 4 && NoncePoint(c, sig).Success?
    ensures exists y ::
      OnAffine(At(x, y), c.m) && NoncePoint(c, sig).value == Lift(At(x, y)) && y % 2 == sig.recovery % 2
  {
    var root := Root(YSquared(x, c.m), c.m);
    RootIsOnCurve(x, c.m);
    NoZeroY(At(x, root), c.m, c.n);
    NegStays(At(x, root), c.m);
    OddPrime(c.m);
    OtherParity(c.m, root);
    assert OnAffine(At(x, c.m - root), c.m);
  }

  /** The scalar whose multiple is the negation of the k-th. */
  lemma NegatedMultiple(c: Curve, k: nat) returns (j: nat)
    requires Assumed(c)
    ensures Multiple(c, j) == Neg(Multiple(c, k), c.m) && Cong(j, 0 - k, c.n)
  {
    j := Mod(0 - k, c.n);
    ModCong(0 - k, c.n);
    MultipleStays(c, k);
    MultipleStays(c, j);
    CongSelf(k, c.n);
    CongAdd(k, k, j, 0 - k, c.n);
    MultiplesCancel(c, k, j);
    OppositeIsNeg(Multiple(c, k), Multiple(c, j), c.m);
  }

  lemma MultiplesCancel(c: Curve, k: nat, j: nat)
    requires Assumed(c) && Cong(k + j, 0, c.n)
    ensures Plus(Multiple(c, k), Multiple(c, j), c.m) == Infinity
  {
    CurveLaws(c.m);
    TimesAdds(CurveGroup(c.m), k, j, Generator(c));
    TimesCongruent(CurveGroup(c.m), c.n, k + j, 0, Generator(c));
  }

  /** Negating both s and the nonce leaves their product. */
  lemma ProductKept(s: int, k: int, j: int, n: int)
    requires n > 0 && Cong(j, 0 - k, n)
    ensures Cong((n - s) * j, s * k, n)
  {
    FromWitness(n - s, 0 - s, n, 1);
    CongMul(n - s, 0 - s, j, 0 - k, n);
    assert (0 - s) * (0 - k) == s * k;
  }

  /** i (a j + b): what multiplying by a, adding b of the generator and multiplying by i gives. */
  function Combined(i: nat, a: nat, j: nat, b: nat): nat {
    i * (a * j + b)
  }

  /** The scalar the three multiplications amount to is the key. */
  lemma ScalarIsKey(s: int, j: int, z: nat, r: int, d: int, n: int)
    requires Prime(n) && Nonzero(r, n) && Cong(s * j, z + r * d, n)
    ensures Cong(InverseOf(r, n) * (Mod(s, n) * j + Mod(Mod(0 - z, n), n)), d, n)
  {
    var i, a, b := InverseOf(r, n), Mod(s, n), Mod(Mod(0 - z, n), n);
    ModCong(s, n);
    CongSelf(j, n);
    CongMul(a, s, j, j, n);
    CongTrans(a * j, s * j, z + r * d, n);
    ModCong(0 - z, n);
    ModOf(Mod(0 - z, n), 0 - z, n);
    CongAdd(a * j, z + r * d, b, 0 - z, n);
    CongSelf(i, n);
    CongMul(i, i, a * j + b, r * d, n);
    InverseWorks(r, n);
    CongSelf(d, n);
    CongMul(r * i, 1, d, d, n);
    assert i * (r * d) == r * i * d;
    CongTrans(i * (a * j + b), r * i * d, d, n);
  }

  function KeyScalar(c: Curve, z: nat, sig: Signature, j: nat): nat {
    Combined(InverseOf(sig.r, c.n), Mod(sig.s, c.n), j, Mod(Mod(0 - z, c.n), c.n))
  }

  lemma MultiplesCombine(c: Curve, i: nat, a: nat, j: nat, b: nat)
    requires Assumed(c)
    ensures Times(CurveGroup(c.m), i, Plus(Times(CurveGroup(c.m), a, Multiple(c, j)), Multiple(c, b), c.m)) ==
      Multiple(c, Combined(i, a, j, b))
  {
    CurveLaws(c.m);
    Combine(CurveGroup(c.m), i, a, j, b, Generator(c));
  }

  /** The three multiplications are one multiple of the generator. */
  lemma KeyIsMultiple(c: Curve, z: nat, sig: Signature, nonce: Point, j: nat)
    requires Assumed(c) && Sound(nonce, c.m) && ToAffine(nonce, c.m) == Multiple(c, j)
    ensures ToAffine(KeyPoint(c, z, sig, nonce), c.m) == Multiple(c, KeyScalar(c, z, sig, j))
  {
    var a, b, i := Mod(sig.s, c.n), Mod(Mod(0 - z, c.n), c.n), InverseOf(sig.r, c.n);
    LiftStands(Generator(c), c.m);
    MultiplyIsTimes(nonce, sig.s, c.m, c.n);
    MultiplyIsTimes(Lift(Generator(c)), Mod(0 - z, c.n), c.m, c.n);
    var sR, zG := Ladder(ZERO, nonce, a, c.m), Ladder(ZERO, Lift(Generator(c)), b, c.m);
    SoundStays(sR, zG, c.m);
    MultiplyIsTimes(Add(sR, zG, c.m), i, c.m, c.n);
    ModSmall(i, c.n);
    MultiplesCombine(c, i, a, j, b);
  }

  /** The scalar with which a signature's nonce point comes back. */
  lemma NonceMultiple(c: Curve, z: nat, d: nat, k: nat, s: nat, sig: Signature) returns (nonce: Point, j: nat)
    requires Assumed(c) && Signs(c, z, d, k, s, sig)
    ensures NoncePoint(c, sig) == Success(nonce) && Sound(nonce, c.m) && ToAffine(nonce, c.m) == Multiple(c, j)
    ensures Cong(sig.s * j, z + sig.r * d, c.n)
  {
    var point := Multiple(c, k);
    MultipleStays(c, k);
    NonceReturns(c, point, sig);
    NoZeroY(point, c.m, c.n);
    OddPrime(c.m);
    if sig.recovery % 2 == point.y % 2 {
      j := k;
      assert sig.s == s;
    } else {
      j := NegatedMultiple(c, k);
      NegatedScalar(s, sig.s, k, j, z + sig.r * d, c.n);
      NegStays(point, c.m);
    }
    LiftStands(Multiple(c, j), c.m);
    nonce := Lift(Multiple(c, j));
  }

  lemma NegatedScalar(s: nat, other: int, k: nat, j: nat, sum: int, n: Modulus)
    requires other == n - s && Cong(j, 0 - k, n) && Cong(s * k, sum, n)
    ensures Cong(other * j, sum, n)
  {
    ProductKept(s, k, j, n);
    CongTrans(other * j, s * k, sum, n);
  }

  /** Recovery returns the key of whoever signed. */
  lemma RecoversSigner(c: Curve, hash: Bytes, d: nat, k: nat, s: nat, sig: Signature)
    requires Assumed(c) && |hash| == 32 && Signs(c, Number(hash), d, k, s, sig)
    requires Multiple(c, d).At?
    ensures Multiple(c, d).x >= 0 && Multiple(c, d).y >= 0
    ensures Recovered(c, hash, sig) == Success(KeyBytes(Multiple(c, d)))
  {
    var nonce := KeyReturns(c, Number(hash), d, k, s, sig);
    MultipleStays(c, d);
  }

  lemma KeyReturns(c: Curve, z: nat, d: nat, k: nat, s: nat, sig: Signature) returns (nonce: Point)
    requires Assumed(c) && Signs(c, z, d, k, s, sig)
    ensures NoncePoint(c, sig) == Success(nonce)
    ensures ToAffine(KeyPoint(c, z, sig, nonce), c.m) == Multiple(c, d)
  {
    var j;
    nonce, j := NonceMultiple(c, z, d, k, s, sig);
    ModSmall(sig.r, c.n);
    ScalarIsKey(sig.s, j, z, sig.r, d, c.n);
    KeyIsMultiple(c, z, sig, nonce, j);
    SameMultiple(c, KeyScalar(c, z, sig, j), d);
  }

  lemma SameMultiple(c: Curve, j: nat, d: nat)
    requires Assumed(c) && Cong(j, d, c.n)
    ensures Multiple(c, j) == Multiple(c, d)
  {
    CurveLaws(c.m);
    TimesCongruent(CurveGroup(c.m), c.n, j, d, Generator(c));
  }

  // ----- The 65 bytes -------------------------------------------------------

  lemma {:induction false} NumberReads(v: nat, n: nat)
    requires v < Pow256(n)
    ensures Number(BigEndian(v, n)) == v
  {
    if n > 0 {
      var b := BigEndian(v, n);
      NumberReads(v / 256, n - 1);
      assert b[..n - 1] == BigEndian(v / 256, n - 1);
    }
  }

  function SignatureBytes(r: nat, s: nat, v: Byte): (b: Bytes)
    ensures |b| == 65
  {
    BigEndian(r, 32) + BigEndian(s, 32) + [v]
  }

  /** What is parsed is what was written, and only in range and in the low half. */
  lemma ParseReads(c: Curve, r: nat, s: nat, v: Byte)
    requires r < Pow256(32) && s < Pow256(32)
    ensures var parsed := ParseSignature(c, SignatureBytes(r, s, v));
      && (parsed.Success? <==> 0 < r < c.n && 0 < s <= c.n / 2 && (v < 4 || v == 27 || v == 28))
      && (parsed.Success? ==> parsed.value == Signature(r, s, if v >= 27 then v - 27 else v))
  {
    var b := SignatureBytes(r, s, v);
    assert b[..32] == BigEndian(r, 32) && b[32..64] == BigEndian(s, 32);
    NumberReads(r, 32);
    NumberReads(s, 32);
  }

  /** Of the two forms of a signature, s and n - s, exactly one is accepted. */
  lemma OneFormAccepted(c: Curve, r: nat, s: nat, v: Byte, w: Byte)
    requires Narrow(c) && c.n % 2 == 1 && 0 < r < c.n && 0 < s < c.n && v < 4 && w < 4
    ensures ParseSignature(c, SignatureBytes(r, s, v)).Success? <==>
      ParseSignature(c, SignatureBytes(r, c.n - s, w)).Failure?
  {
    AcceptedInLowHalf(c, r, s, v);
    AcceptedInLowHalf(c, r, c.n - s, w);
    OneHalf(c.n, s);
  }

  lemma AcceptedInLowHalf(c: Curve, r: nat, s: nat, v: Byte)
    requires Narrow(c) && 0 < r < c.n && 0 < s < c.n && v < 4
    ensures ParseSignature(c, SignatureBytes(r, s, v)).Success? <==> s <= c.n / 2
  {
    ParseReads(c, r, s, v);
  }

  lemma OneHalf(n: nat, s: nat)
    requires n % 2 == 1 && 0 < s < n
    ensures s <= n / 2 <==> !(n - s <= n / 2)
  {
  }

  /** Parsing an honest signature's bytes and recovering returns the signer's
      key, whichever of the two conventions the last byte follows. */
  lemma BytesRecoverSigner(c: Curve, hash: Bytes, d: nat, k: nat, s: nat, sig: Signature, v: Byte)
    requires Assumed(c) && Narrow(c) && |hash| == 32 && Signs(c, Number(hash), d, k, s, sig) && sig.s <= c.n / 2
    requires v == sig.recovery || (sig.recovery < 2 && v == sig.recovery + 27)
    requires Multiple(c, d).At?
    ensures sig.r >= 0 && sig.s >= 0 && ParseSignature(c, SignatureBytes(sig.r, sig.s, v)) == Success(sig)
    ensures Recovered(c, hash, sig).Success? && SpellsKey(Recovered(c, hash, sig).value, Multiple(c, d))
  {
    HonestParses(c, Number(hash), d, k, s, sig, v);
    RecoversSigner(c, hash, d, k, s, sig);
    MultipleStays(c, d);
    KeySpelled(Multiple(c, d));
  }

  /** The 64 bytes are x, then y, each in 32 bytes. */
  ghost predicate SpellsKey(key: Bytes, a: Affine)
    requires a.At?
  {
    |key| == 64 && Number(key[..32]) == a.x && Number(key[32..]) == a.y
  }

  lemma KeySpelled(a: Affine)
    requires a.At? && 0 <= a.x < Pow256(32) && 0 <= a.y < Pow256(32)
    ensures SpellsKey(KeyBytes(a), a)
  {
    NumberReads(a.x, 32);
    NumberReads(a.y, 32);
    assert KeyBytes(a)[..32] == BigEndian(a.x, 32) && KeyBytes(a)[32..] == BigEndian(a.y, 32);
  }

  lemma HonestParses(c: Curve, z: nat, d: nat, k: nat, s: nat, sig: Signature, v: Byte)
    requires Narrow(c) && Signs(c, z, d, k, s, sig) && sig.s <= c.n / 2
    requires v == sig.recovery || (sig.recovery < 2 && v == sig.recovery + 27)
    ensures sig.r >= 0 && sig.s >= 0 && ParseSignature(c, SignatureBytes(sig.r, sig.s, v)) == Success(sig)
  {
    SignedInRange(c, z, d, k, s, sig);
    InRangeParses(c, sig, v);
  }

  lemma InRangeParses(c: Curve, sig: Signature, v: Byte)
    requires Narrow(c) && 0 < sig.r < c.n && 0 < sig.s <= c.n / 2 && sig.recovery < 4
    requires v == sig.recovery || (sig.recovery < 2 && v == sig.recovery + 27)
    ensures ParseSignature(c, SignatureBytes(sig.r, sig.s, v)) == Success(sig)
  {
    ParseReads(c, sig.r, sig.s, v);
  }

  lemma SignedInRange(c: Curve, z: nat, d: nat, k: nat, s: nat, sig: Signature)
    requires Signs(c, z, d, k, s, sig)
    ensures 0 < sig.r < c.n && 0 < sig.s < c.n && sig.recovery < 4
  {
    ModBelow(Multiple(c, k).x, c.n);
  }

  lemma ModBelow(x: int, n: int)
    requires n > 0
    ensures 0 <= x % n < n
  {
  }
}
