/** Arithmetic modulo a number: congruence, Euclid's algorithm and powers. */
module Modular {
  import opened Results

  /** A modulus the curve can be taken over. */
  type Modulus = m: int | m > 2 witness 3

  /** The remainder the source takes: never negative. */
  function Mod(a: int, m: int): (r: int)
    requires m > 0
    ensures 0 <= r < m
  {
    a % m
  }

  ghost predicate Cong(a: int, b: int, m: int)
    requires m > 0
  {
    (a - b) % m == 0
  }

  // ----- Congruence --------------------------------------------------------

  lemma NoSmallMultiple(m: int, k: int, r: int)
    requires m > 0 && m * k == r && -m < r < m
    ensures k == 0
  {
    assert k >= 1 ==> m * k >= m;
    assert k <= -1 ==> m * k <= -m;
  }

  lemma MultipleVanishes(m: int, k: int)
    requires m > 0
    ensures (m * k) % m == 0
  {
    var x := m * k;
    var q, r := x / m, x % m;
    assert m * (k - q) == r;
    NoSmallMultiple(m, k - q, r);
  }

  lemma Witness(a: int, b: int, m: int) returns (k: int)
    requires m > 0 && Cong(a, b, m)
    ensures a == b + m * k
  {
    k := (a - b) / m;
  }

  lemma FromWitness(a: int, b: int, m: int, k: int)
    requires m > 0 && a == b + m * k
    ensures Cong(a, b, m)
  {
    MultipleVanishes(m, k);
  }

  lemma CongSelf(a: int, m: int)
    requires m > 0
    ensures Cong(a, a, m)
  {
    FromWitness(a, a, m, 0);
  }

  lemma CongSym(a: int, b: int, m: int)
    requires m > 0 && Cong(a, b, m)
    ensures Cong(b, a, m)
  {
    var k := Witness(a, b, m);
    FromWitness(b, a, m, -k);
  }

  lemma CongTrans(a: int, b: int, c: int, m: int)
    requires m > 0 && Cong(a, b, m) && Cong(b, c, m)
    ensures Cong(a, c, m)
  {
    var k := Witness(a, b, m);
    var l := Witness(b, c, m);
    assert m * (k + l) == m * k + m * l;
    FromWitness(a, c, m, k + l);
  }

  lemma CongAdd(a: int, b: int, c: int, d: int, m: int)
    requires m > 0 && Cong(a, b, m) && Cong(c, d, m)
    ensures Cong(a + c, b + d, m)
  {
    var k := Witness(a, b, m);
    var l := Witness(c, d, m);
    assert m * (k + l) == m * k + m * l;
    FromWitness(a + c, b + d, m, k + l);
  }

  lemma CongSub(a: int, b: int, c: int, d: int, m: int)
    requires m > 0 && Cong(a, b, m) && Cong(c, d, m)
    ensures Cong(a - c, b - d, m)
  {
    var k := Witness(a, b, m);
    var l := Witness(c, d, m);
    assert m * (k - l) == m * k - m * l;
    FromWitness(a - c, b - d, m, k - l);
  }

  lemma CongMul(a: int, b: int, c: int, d: int, m: int)
    requires m > 0 && Cong(a, b, m) && Cong(c, d, m)
    ensures Cong(a * c, b * d, m)
  {
    var k := Witness(a, b, m);
    var l := Witness(c, d, m);
    calc {
      a * c;
      (b + m * k) * c;
      b * c + m * k * c;
      b * (d + m * l) + m * k * c;
      b * d + b * (m * l) + m * k * c;
      b * d + m * (b * l + k * c);
    }
    FromWitness(a * c, b * d, m, b * l + k * c);
  }

  lemma ModCong(a: int, m: int)
    requires m > 0
    ensures Cong(Mod(a, m), a, m)
  {
    FromWitness(Mod(a, m), a, m, -(a / m));
  }

  /** Congruent numbers have one remainder. */
  lemma CongMod(a: int, b: int, m: int)
    requires m > 0
    ensures Cong(a, b, m) <==> Mod(a, m) == Mod(b, m)
  {
    ModCong(a, m);
    ModCong(b, m);
    if Cong(a, b, m) {
      CongTrans(Mod(a, m), a, b, m);
      CongSym(Mod(b, m), b, m);
      CongTrans(Mod(a, m), b, Mod(b, m), m);
      var k := Witness(Mod(a, m), Mod(b, m), m);
      NoSmallMultiple(m, k, Mod(a, m) - Mod(b, m));
    } else {
      if Mod(a, m) == Mod(b, m) {
        CongSym(Mod(a, m), a, m);
        CongTrans(a, Mod(a, m), b, m);
      }
    }
  }

  lemma ModSmall(a: int, m: int)
    requires 0 <= a < m
    ensures Mod(a, m) == a
  {
  }

  // ----- Euclid ------------------------------------------------------------

  function Gcd(a: nat, b: nat): nat
    decreases b
  {
    if b == 0 then a else Gcd(b, a % b)
  }

  ghost predicate Divides(d: int, a: int) {
    exists k :: a == d * k
  }

  lemma DividesBy(d: int, a: int, k: int)
    requires a == d * k
    ensures Divides(d, a)
  {
  }

  lemma DividesSum(d: int, a: int, b: int, q: int, r: int)
    requires a == b * q + r && Divides(d, b)
    ensures Divides(d, a) <==> Divides(d, r)
  {
    var i :| b == d * i;
    if Divides(d, r) {
      var j :| r == d * j;
      assert d * (i * q + j) == d * i * q + d * j;
      DividesBy(d, a, i * q + j);
    }
    if Divides(d, a) {
      var x :| a == d * x;
      assert d * (x - i * q) == d * x - d * i * q;
      DividesBy(d, r, x - i * q);
    }
  }

  /** Gcd is a common divisor, and any common divisor divides it. */
  lemma {:induction false} GcdIsGreatest(a: nat, b: nat, d: int)
    ensures Divides(Gcd(a, b), a) && Divides(Gcd(a, b), b)
    ensures Divides(d, a) && Divides(d, b) ==> Divides(d, Gcd(a, b))
    decreases b
  {
    if b == 0 {
      DividesBy(a, a, 1);
      DividesBy(a, 0, 0);
    } else {
      GcdIsGreatest(b, a % b, d);
      DividesSum(Gcd(a, b), a, b, a / b, a % b);
      if Divides(d, b) { DividesSum(d, a, b, a / b, a % b); }
    }
  }

  datatype ArithmeticError = CannotInvertZero

  /** Extended Euclid. The result is a true inverse exactly when the value and
      the modulus have no common divisor; the guard only excludes zero itself. */
  method Invert(value: int, modulus: int) returns (r: Result<int, ArithmeticError>)
    requires modulus > 1
    ensures r.Failure? <==> value == 0
    ensures r.Success? ==> 0 <= r.value < modulus
    ensures r.Success? ==> Cong(value * r.value, Gcd(Mod(value, modulus), modulus), modulus)
    ensures r.Success? ==> r.value == InverseOf(value, modulus)
  {
    if value == 0 { return Failure(CannotInvertZero); }
    var oldR, rest := Mod(value, modulus), modulus;
    var oldS, s := 1, 0;
    while rest != 0
      invariant oldR >= 0 && rest >= 0
      invariant Euclid(oldR, rest, oldS, s) == Euclid(Mod(value, modulus), modulus, 1, 0)
      decreases rest
    {
      var q := oldR / rest;
      EuclidStep(oldR, rest, oldS, s);
      oldR, rest := rest, oldR - q * rest;
      oldS, s := s, oldS - q * s;
    }
    InverseIsBezout(value, modulus);
    return Success(Mod(oldS, modulus));
  }

  lemma EuclidStep(oldR: nat, r: nat, oldS: int, s: int)
    requires r > 0
    ensures oldR - oldR / r * r == oldR % r
    ensures Euclid(oldR, r, oldS, s) == Euclid(r, oldR % r, s, oldS - oldR / r * s)
  {
  }

  /** The last coefficient of the loop, from any state of it. */
  function Euclid(oldR: nat, r: nat, oldS: int, s: int): int
    decreases r
  {
    if r == 0 then oldS else Euclid(r, oldR % r, s, oldS - oldR / r * s)
  }

  function InverseOf(value: int, modulus: int): (r: int)
    requires modulus > 1
    ensures 0 <= r < modulus
  {
    Mod(Euclid(Mod(value, modulus), modulus, 1, 0), modulus)
  }

  /** Bezout: each remainder stays the value times its coefficient. */
  lemma {:induction false} EuclidKeepsBezout(value: int, modulus: int, oldR: nat, r: nat, oldS: int, s: int)
    requires modulus > 0 && Cong(oldR, value * oldS, modulus) && Cong(r, value * s, modulus)
    ensures Cong(Gcd(oldR, r), value * Euclid(oldR, r, oldS, s), modulus)
    decreases r
  {
    if r > 0 {
      var q := oldR / r;
      CongSelf(q, modulus);
      CongMul(q, q, r, value * s, modulus);
      CongSub(oldR, value * oldS, q * r, q * (value * s), modulus);
      assert oldR - q * r == oldR % r;
      assert value * oldS - q * (value * s) == value * (oldS - q * s);
      EuclidKeepsBezout(value, modulus, r, oldR % r, s, oldS - q * s);
    }
  }

  lemma InverseIsBezout(value: int, modulus: int)
    requires modulus > 1
    ensures Cong(value * InverseOf(value, modulus), Gcd(Mod(value, modulus), modulus), modulus)
  {
    var v := Mod(value, modulus);
    var e := Euclid(v, modulus, 1, 0);
    ModCong(value, modulus);
    FromWitness(modulus, value * 0, modulus, 1);
    EuclidKeepsBezout(value, modulus, v, modulus, 1, 0);
    ModCong(e, modulus);
    CongSelf(value, modulus);
    CongMul(value, value, Mod(e, modulus), e, modulus);
    CongSym(Gcd(v, modulus), value * e, modulus);
    CongTrans(value * Mod(e, modulus), value * e, Gcd(v, modulus), modulus);
  }

  lemma {:induction false} GcdBounds(a: nat, m: nat)
    requires m > 0
    ensures 1 <= Gcd(a, m) <= m
    decreases m
  {
    if a % m > 0 { GcdBounds(m, a % m); }
  }

  /** The result is an inverse exactly when the two have no common divisor. */
  lemma InverseExactly(value: int, modulus: int)
    requires modulus > 1
    ensures Cong(value * InverseOf(value, modulus), 1, modulus) <==> Gcd(Mod(value, modulus), modulus) == 1
  {
    var g := Gcd(Mod(value, modulus), modulus);
    InverseIsBezout(value, modulus);
    GcdBounds(Mod(value, modulus), modulus);
    if Cong(value * InverseOf(value, modulus), 1, modulus) {
      CongSym(value * InverseOf(value, modulus), g, modulus);
      CongTrans(g, value * InverseOf(value, modulus), 1, modulus);
      var k := Witness(g, 1, modulus);
      NoSmallMultiple(modulus, k, g - 1);
    }
  }

  // ----- A prime modulus ----------------------------------------------------

  /** Every smaller number is prime to it. */
  ghost predicate Prime(m: int) {
    m > 1 && forall v :: 0 < v < m ==> Gcd(v, m) == 1
  }

  lemma OddPrime(m: int)
    requires Prime(m) && m > 2
    ensures m % 2 == 1
  {
    assert Gcd(2, m) == Gcd(m, 2) == Gcd(2, m % 2);
  }

  ghost predicate Nonzero(a: int, m: int)
    requires m > 0
  {
    !Cong(a, 0, m)
  }

  lemma NonzeroMod(a: int, m: int)
    requires m > 0
    ensures Nonzero(a, m) <==> Mod(a, m) != 0
  {
  }

  lemma InverseWorks(a: int, m: int)
    requires Prime(m) && Nonzero(a, m)
    ensures Cong(a * InverseOf(a, m), 1, m)
  {
    InverseExactly(a, m);
  }

  /** Equal multiples of something nonzero are multiples of equals. */
  lemma Cancel(a: int, b: int, c: int, m: int)
    requires Prime(m) && Nonzero(c, m) && Cong(a * c, b * c, m)
    ensures Cong(a, b, m)
  {
    var i := InverseOf(c, m);
    InverseWorks(c, m);
    CongSelf(i, m);
    CongMul(a * c, b * c, i, i, m);
    Undo(a, c, i, m);
    Undo(b, c, i, m);
    CongSym(a * c * i, a, m);
    CongTrans(a, a * c * i, b * c * i, m);
    CongTrans(a, b * c * i, b, m);
  }

  lemma Undo(a: int, c: int, i: int, m: int)
    requires m > 0 && Cong(c * i, 1, m)
    ensures Cong(a * c * i, a, m)
  {
    CongSelf(a, m);
    CongMul(a, a, c * i, 1, m);
    assert a * (c * i) == a * c * i;
  }

  lemma NonzeroProduct(a: int, b: int, m: int)
    requires Prime(m)
    ensures Nonzero(a * b, m) <==> Nonzero(a, m) && Nonzero(b, m)
  {
    if Nonzero(b, m) && Cong(a * b, 0 * b, m) { Cancel(a, 0, b, m); }
    if Cong(a, 0, m) {
      CongSelf(b, m);
      CongMul(a, 0, b, b, m);
    }
    if Cong(b, 0, m) {
      CongSelf(a, m);
      CongMul(a, a, b, 0, m);
    }
  }

  lemma NonzeroCong(a: int, b: int, m: int)
    requires m > 0 && Cong(a, b, m)
    ensures Nonzero(a, m) <==> Nonzero(b, m)
  {
    CongMod(a, b, m);
    CongMod(a, 0, m);
    CongMod(b, 0, m);
  }

  // ----- Powers -----------------------------------------------------------

  function Pow(b: int, e: nat): int {
    if e == 0 then 1 else b * Pow(b, e - 1)
  }

  lemma {:induction false} PowAdds(b: int, d: nat, e: nat)
    ensures Pow(b, d + e) == Pow(b, d) * Pow(b, e)
  {
    if d > 0 {
      PowAdds(b, d - 1, e);
      assert b * (Pow(b, d - 1) * Pow(b, e)) == b * Pow(b, d - 1) * Pow(b, e);
    }
  }

  lemma {:induction false} PowSquares(b: int, e: nat)
    ensures Pow(b * b, e) == Pow(b, 2 * e)
  {
    if e > 0 {
      PowSquares(b, e - 1);
      PowAdds(b, 2, 2 * (e - 1));
      assert Pow(b, 2) == b * Pow(b, 1) == b * b;
    }
  }

  lemma {:induction false} PowCong(a: int, b: int, e: nat, m: int)
    requires m > 0 && Cong(a, b, m)
    ensures Cong(Pow(a, e), Pow(b, e), m)
  {
    if e == 0 {
      CongSelf(1, m);
    } else {
      PowCong(a, b, e - 1, m);
      CongMul(a, b, Pow(a, e - 1), Pow(b, e - 1), m);
    }
  }

  /** What the loop still has to multiply in. */
  ghost predicate PowerLeft(result: int, b: int, e: nat, target: int, m: int)
    requires m > 0
  {
    Cong(result * Pow(b, e), target, m)
  }

  lemma PowerStep(result: int, b: int, e: nat, target: int, m: int)
    requires m > 0 && e > 0 && PowerLeft(result, b, e, target, m)
    ensures PowerLeft(if e % 2 == 1 then Mod(result * b, m) else result, Mod(b * b, m), e / 2, target, m)
  {
    var half := e / 2;
    var square := Mod(b * b, m);
    var next := if e % 2 == 1 then Mod(result * b, m) else result;
    var exact := if e % 2 == 1 then result * b else result;
    if e % 2 == 1 { ModCong(result * b, m); } else { CongSelf(result, m); }
    ModCong(b * b, m);
    PowCong(square, b * b, half, m);
    CongMul(next, exact, Pow(square, half), Pow(b * b, half), m);
    PowSquares(b, half);
    assert exact * Pow(b, 2 * half) == result * Pow(b, e) by {
      if e % 2 == 1 {
        assert Pow(b, e) == b * Pow(b, 2 * half);
        assert result * b * Pow(b, 2 * half) == result * (b * Pow(b, 2 * half));
      }
    }
    CongTrans(next * Pow(square, half), result * Pow(b, e), target, m);
  }

  /** Square-and-multiply computes the power, reduced. */
  method Power(base: int, exponent: int, modulus: int) returns (result: int)
    requires modulus > 1
    ensures result == if exponent <= 0 then 1 else Mod(Pow(base, exponent), modulus)
  {
    result := 1;
    var b := Mod(base, modulus);
    var e := exponent;
    if exponent <= 0 { return; }
    ModCong(base, modulus);
    PowCong(b, base, e, modulus);
    while e > 0
      invariant e >= 0 && 0 <= result < modulus
      invariant PowerLeft(result, b, e, Pow(base, exponent), modulus)
    {
      PowerStep(result, b, e, Pow(base, exponent), modulus);
      if e % 2 == 1 { result := Mod(result * b, modulus); }
      b := Mod(b * b, modulus);
      e := e / 2;
    }
    CongMod(result, Pow(base, exponent), modulus);
    ModSmall(result, modulus);
  }
}
