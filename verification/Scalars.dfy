/** Scalar multiplication: double-and-add against repeated addition. */
module Scalars {
  import opened Modular
  import opened Jacobian
  import opened AffineCurve
  import opened Groups

  // ----- The curve's points -------------------------------------------------

  ghost predicate OnAffine(a: Affine, m: Modulus) {
    a.At? ==> 0 <= a.x < m && 0 <= a.y < m && Cong(a.y * a.y, a.x * a.x * a.x + 7, m)
  }

  function Lift(a: Affine): Point {
    match a
    case Infinity => ZERO
    case At(x, y) => Point(x, y, 1)
  }

  lemma LiftStands(a: Affine, m: Modulus)
    requires Prime(m) && OnAffine(a, m)
    ensures ToAffine(Lift(a), m) == a && Proper(Lift(a), m) && Valid(Lift(a), m)
  {
    if a.At? {
      SmallNonzero(1, m);
      CongSelf(a.x, m);
      CongSelf(a.y, m);
      StandsForOne(Lift(a), a.x, a.y, m);
      ModSmall(a.x, m);
      ModSmall(a.y, m);
    }
  }

  /** Dividing out z keeps a point on the curve. */
  lemma AffineStays(p: Point, m: Modulus)
    requires Prime(m) && Proper(p, m) && Valid(p, m)
    ensures OnAffine(ToAffine(p, m), m)
  {
    if !IsZero(p) {
      var a, z := ToAffine(p, m), p.z;
      AffineStands(p, m);
      CurveDivides(p, a.x, a.y, m);
      NonzeroProduct(z, z, m);
      NonzeroProduct(z * z, z * z, m);
      NonzeroProduct(z * z * (z * z), z * z, m);
      Cancel(a.y * a.y, a.x * a.x * a.x + 7, Sixth(z), m);
    }
  }

  lemma CurveDivides(p: Point, x: int, y: int, m: Modulus)
    requires StandsFor(p, x, y, m) && OnCurve(p, m)
    ensures Cong(y * y * Sixth(p.z), (x * x * x + 7) * Sixth(p.z), m)
  {
    var z := p.z;
    var ye, xe, right := y * (z * z * z), x * (z * z), p.x * p.x * p.x + 7 * Sixth(z);
    CongMul(p.y, ye, p.y, ye, m);
    CubeCong(p.x, xe, m);
    SquareOfProduct(y, z * z * z);
    CubeOfProduct(x, z * z);
    assert z * z * z * (z * z * z) == Sixth(z);
    CongSelf(7 * Sixth(z), m);
    CongAdd(p.x * p.x * p.x, xe * xe * xe, 7 * Sixth(z), 7 * Sixth(z), m);
    CongSym(p.y * p.y, ye * ye, m);
    CongTrans(ye * ye, p.y * p.y, right, m);
    CongTrans(ye * ye, right, xe * xe * xe + 7 * Sixth(z), m);
    assert (x * x * x + 7) * Sixth(z) == x * x * x * Sixth(z) + 7 * Sixth(z);
  }

  /** The chord-and-tangent law stays on the curve, because the Jacobian formulas do. */
  lemma PlusStays(a: Affine, b: Affine, m: Modulus)
    requires Prime(m) && OnAffine(a, m) && OnAffine(b, m)
    ensures OnAffine(Plus(a, b, m), m)
  {
    LiftStands(a, m);
    LiftStands(b, m);
    AddRefines(Lift(a), Lift(b), m);
    ValidStays(Lift(a), Lift(b), m);
    AffineStays(Add(Lift(a), Lift(b), m), m);
  }

  /** The curve's points under the chord-and-tangent law. */
  ghost function CurveGroup(m: Modulus): Group<Affine> {
    Group((a, b) => Plus(a, b, m), Infinity, iset a | OnAffine(a, m))
  }

  /** What is assumed of the curve: its points form a group of order n over a prime field. */
  ghost predicate IsGroup(m: Modulus, n: Modulus) {
    Prime(m) && Prime(n) && Associative(CurveGroup(m)) && HasOrder(CurveGroup(m), n)
  }

  lemma CurveLaws(m: Modulus)
    requires Prime(m) && Associative(CurveGroup(m))
    ensures Laws(CurveGroup(m))
  {
    var g := CurveGroup(m);
    forall a, b | a in g.points && b in g.points ensures ClosedAt(g, a, b) { PlusStays(a, b, m); }
    forall a | a in g.points ensures IdentityAt(g, a) { PlusInfinity(a, m); }
  }

  lemma PlusInfinity(a: Affine, m: Modulus)
    ensures Plus(a, Infinity, m) == a && Plus(Infinity, a, m) == a
  {
  }

  // ----- Double-and-add ------------------------------------------------------

  /** The loop of multiply, from any state of it. */
  function Ladder(result: Point, addend: Point, k: nat, m: Modulus): Point
    decreases k
  {
    if k == 0 then result
    else Ladder(if k % 2 == 1 then Add(result, addend, m) else result, Double(addend, m), k / 2, m)
  }

  method Multiply(point: Point, scalar: int, m: Modulus, n: Modulus) returns (result: Point)
    ensures result == Ladder(ZERO, point, Mod(scalar, n), m)
  {
    result := ZERO;
    var addend := point;
    var k := Mod(scalar, n);
    while k > 0
      invariant k >= 0
      invariant Ladder(ZERO, point, Mod(scalar, n), m) == Ladder(result, addend, k, m)
    {
      LadderStep(result, addend, k, m);
      if k % 2 == 1 { result := Add(result, addend, m); }
      addend := Double(addend, m);
      k := k / 2;
    }
  }

  lemma LadderStep(result: Point, addend: Point, k: nat, m: Modulus)
    requires k > 0
    ensures Ladder(result, addend, k, m) ==
      Ladder(if k % 2 == 1 then Add(result, addend, m) else result, Double(addend, m), k / 2, m)
  {
  }

  ghost predicate Sound(p: Point, m: Modulus) {
    Proper(p, m) && Valid(p, m)
  }

  lemma SoundStays(p: Point, q: Point, m: Modulus)
    requires Prime(m) && Sound(p, m) && Sound(q, m)
    ensures Sound(Add(p, q, m), m) && ToAffine(Add(p, q, m), m) == Plus(ToAffine(p, m), ToAffine(q, m), m)
    ensures Sound(Double(p, m), m) && ToAffine(Double(p, m), m) == Plus(ToAffine(p, m), ToAffine(p, m), m)
    ensures OnAffine(ToAffine(p, m), m) && OnAffine(ToAffine(q, m), m)
  {
    AffineStays(p, m);
    AffineStays(q, m);
    ValidStays(p, q, m);
    AddRefines(p, q, m);
    DoubleRefines(p, m);
  }

  /** The loop adds k times the addend to the result. */
  lemma {:induction false} LadderIsTimes(result: Point, addend: Point, k: nat, m: Modulus)
    requires Prime(m) && Associative(CurveGroup(m)) && Sound(result, m) && Sound(addend, m)
    ensures Sound(Ladder(result, addend, k, m), m)
    ensures ToAffine(Ladder(result, addend, k, m), m) ==
      Plus(ToAffine(result, m), Times(CurveGroup(m), k, ToAffine(addend, m)), m)
    decreases k
  {
    var g, r, a := CurveGroup(m), ToAffine(result, m), ToAffine(addend, m);
    SoundStays(result, addend, m);
    if k == 0 {
      PlusInfinity(r, m);
    } else {
      SoundStays(addend, addend, m);
      LadderStep(result, addend, k, m);
      LadderIsTimes(if k % 2 == 1 then Add(result, addend, m) else result, Double(addend, m), k / 2, m);
      CurveLaws(m);
      Halve(g, r, a, k);
    }
  }

  /** multiply is scalar multiplication. */
  lemma MultiplyIsTimes(point: Point, scalar: int, m: Modulus, n: Modulus)
    requires Prime(m) && Associative(CurveGroup(m)) && Sound(point, m)
    ensures var result := Ladder(ZERO, point, Mod(scalar, n), m);
      Sound(result, m) && ToAffine(result, m) == Times(CurveGroup(m), Mod(scalar, n), ToAffine(point, m))
  {
    LadderIsTimes(ZERO, point, Mod(scalar, n), m);
    PlusInfinity(Times(CurveGroup(m), Mod(scalar, n), ToAffine(point, m)), m);
  }

  // ----- Opposites ---------------------------------------------------------

  function Neg(a: Affine, m: Modulus): Affine {
    match a
    case Infinity => Infinity
    case At(x, y) => At(x, if y == 0 then 0 else m - y)
  }

  lemma NegCancels(a: Affine, m: Modulus)
    requires m % 2 == 1 && OnAffine(a, m)
    ensures Plus(a, Neg(a, m), m) == Infinity && Plus(Neg(a, m), a, m) == Infinity
  {
    if a.At? { assert a.y != m - a.y; }
  }

  lemma NegStays(a: Affine, m: Modulus)
    requires OnAffine(a, m)
    ensures OnAffine(Neg(a, m), m)
  {
    if a.At? && a.y != 0 {
      var y := a.y;
      assert (m - y) * (m - y) == y * y + m * (m - 2 * y);
      FromWitness((m - y) * (m - y), y * y, m, m - 2 * y);
      CongTrans((m - y) * (m - y), y * y, a.x * a.x * a.x + 7, m);
    }
  }

  /** What brings a point to infinity is its opposite. */
  lemma OppositeIsNeg(a: Affine, b: Affine, m: Modulus)
    requires Prime(m) && Associative(CurveGroup(m)) && OnAffine(a, m) && OnAffine(b, m) && Plus(a, b, m) == Infinity
    ensures b == Neg(a, m)
  {
    OddPrime(m);
    NegStays(a, m);
    NegCancels(a, m);
    CurveLaws(m);
    OppositesAgree(CurveGroup(m), Neg(a, m), a, b);
  }

  /** No point of the curve has y = 0: it would have order two. */
  lemma NoZeroY(a: Affine, m: Modulus, n: Modulus)
    requires IsGroup(m, n) && OnAffine(a, m) && a.At?
    ensures a.y != 0
  {
    var g := CurveGroup(m);
    CurveLaws(m);
    OddPrime(n);
    var h := n / 2;
    TimesSmall(g, a);
    TimesTimes(g, h, 2, a);
    TimesZero(g, h);
    assert Times(g, n, a) == g.op(a, Times(g, n - 1, a));
    assert n - 1 == h * 2;
    PlusInfinity(a, m);
    assert a.y == 0 ==> Plus(a, a, m) == Infinity;
  }
}
