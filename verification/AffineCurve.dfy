/** The chord-and-tangent law, which the Jacobian formulas compute without dividing. */
module AffineCurve {
  import opened Modular
  import opened Jacobian

  datatype Affine = Infinity | At(x: int, y: int)

  function ToAffine(p: Point, m: Modulus): Affine {
    if IsZero(p) then Infinity
    else
      var zInv := InverseOf(p.z, m);
      var zInv2 := Mod(zInv * zInv, m);
      At(Mod(p.x * zInv2, m), Mod(p.y * zInv2 * zInv, m))
  }

  /** The third point of a line of this slope through a, whose other point has x coordinate bx. */
  function Third(slope: int, a: Affine, bx: int, m: Modulus): Affine
    requires a.At?
  {
    var x := Mod(slope * slope - a.x - bx, m);
    At(x, Mod(slope * (a.x - x) - a.y, m))
  }

  function Plus(a: Affine, b: Affine, m: Modulus): Affine {
    if a.Infinity? then b
    else if b.Infinity? then a
    else if a.x != b.x then Third(Mod((b.y - a.y) * InverseOf(b.x - a.x, m), m), a, b.x, m)
    else if a.y == b.y && a.y != 0 then Third(Mod(3 * (a.x * a.x) * InverseOf(2 * a.y, m), m), a, a.x, m)
    else Infinity
  }

  /** A point whose z is zero only when it is written zero. */
  ghost predicate Proper(p: Point, m: Modulus) {
    IsZero(p) || Nonzero(p.z, m)
  }

  /** p stands for the affine point (x, y). */
  ghost predicate StandsFor(p: Point, x: int, y: int, m: Modulus) {
    && !IsZero(p) && Nonzero(p.z, m)
    && Cong(p.x, x * (p.z * p.z), m) && Cong(p.y, y * (p.z * p.z * p.z), m)
  }

  // ----- Dividing by powers of z ------------------------------------------

  lemma Divides1(a: int, z: int, i: int, m: int)
    requires m > 0 && Cong(z * i, 1, m)
    ensures Cong(a * (i * i) * (z * z), a, m)
    ensures Cong(a * (i * i * i) * (z * z * z), a, m)
  {
    CongMul(z * i, 1, z * i, 1, m);
    CongMul(z * i * (z * i), 1, z * i, 1, m);
    CongSelf(a, m);
    CongMul(a, a, z * i * (z * i), 1, m);
    CongMul(a, a, z * i * (z * i) * (z * i), 1, m);
    assert a * (z * i * (z * i)) == a * (i * i) * (z * z);
    assert a * (z * i * (z * i) * (z * i)) == a * (i * i * i) * (z * z * z);
  }

  /** What ToAffine divides by, before it is reduced. */
  lemma AffineIs(p: Point, m: Modulus)
    requires !IsZero(p)
    ensures ToAffine(p, m).At?
    ensures var i := InverseOf(p.z, m);
      Cong(ToAffine(p, m).x, p.x * (i * i), m) && Cong(ToAffine(p, m).y, p.y * (i * i * i), m)
  {
    Scaled(p.x, p.y, InverseOf(p.z, m), m);
  }

  lemma Scaled(x: int, y: int, i: int, m: int)
    requires m > 0
    ensures Cong(Mod(x * Mod(i * i, m), m), x * (i * i), m)
    ensures Cong(Mod(y * Mod(i * i, m) * i, m), y * (i * i * i), m)
  {
    var i2 := Mod(i * i, m);
    ModCong(i * i, m);
    CongSelf(x, m);
    CongSelf(y, m);
    CongSelf(i, m);
    CongMul(x, x, i2, i * i, m);
    ModOf(x * i2, x * (i * i), m);
    CongMul(y, y, i2, i * i, m);
    CongMul(y * i2, y * (i * i), i, i, m);
    assert y * (i * i) * i == y * (i * i * i);
    ModOf(y * i2 * i, y * (i * i * i), m);
  }

  lemma AffineStands(p: Point, m: Modulus)
    requires Prime(m) && !IsZero(p) && Nonzero(p.z, m)
    ensures ToAffine(p, m).At? && StandsFor(p, ToAffine(p, m).x, ToAffine(p, m).y, m)
    ensures 0 <= ToAffine(p, m).x < m && 0 <= ToAffine(p, m).y < m
  {
    var z, i, a := p.z, InverseOf(p.z, m), ToAffine(p, m);
    InverseWorks(z, m);
    AffineIs(p, m);
    Divides1(p.x, z, i, m);
    Divides1(p.y, z, i, m);
    CongSelf(z * z, m);
    CongSelf(z * z * z, m);
    CongMul(a.x, p.x * (i * i), z * z, z * z, m);
    CongTrans(a.x * (z * z), p.x * (i * i) * (z * z), p.x, m);
    CongSym(a.x * (z * z), p.x, m);
    CongMul(a.y, p.y * (i * i * i), z * z * z, z * z * z, m);
    CongTrans(a.y * (z * z * z), p.y * (i * i * i) * (z * z * z), p.y, m);
    CongSym(a.y * (z * z * z), p.y, m);
  }

  /** A point stands for one affine point only. */
  lemma StandsForOne(p: Point, x: int, y: int, m: Modulus)
    requires Prime(m) && StandsFor(p, x, y, m)
    ensures ToAffine(p, m) == At(Mod(x, m), Mod(y, m))
  {
    var z, a := p.z, ToAffine(p, m);
    AffineStands(p, m);
    NonzeroProduct(z, z, m);
    NonzeroProduct(z * z, z, m);
    CongSym(p.x, a.x * (z * z), m);
    CongTrans(a.x * (z * z), p.x, x * (z * z), m);
    Cancel(a.x, x, z * z, m);
    CongMod(a.x, x, m);
    ModSmall(a.x, m);
    CongSym(p.y, a.y * (z * z * z), m);
    CongTrans(a.y * (z * z * z), p.y, y * (z * z * z), m);
    Cancel(a.y, y, z * z * z, m);
    CongMod(a.y, y, m);
    ModSmall(a.y, m);
  }

  // ----- Doubling -----------------------------------------------------------

  /** The slope of a line, times its rise over run. */
  lemma SlopeTimes(rise: int, run: int, m: int)
    requires Prime(m) && Nonzero(run, m)
    ensures Cong(Mod(rise * InverseOf(run, m), m) * run, rise, m)
  {
    var i := InverseOf(run, m);
    InverseWorks(run, m);
    ModCong(rise * i, m);
    CongSelf(run, m);
    CongMul(Mod(rise * i, m), rise * i, run, run, m);
    assert i * run == run * i;
    Undo(rise, i, run, m);
    CongTrans(Mod(rise * i, m) * run, rise * i * run, rise, m);
  }

  /** Scaling the coordinates scales what the doubling formulas compute. */
  lemma DoubledScales(x: int, y: int, z: int)
    ensures var f := z * z * (z * z);
      && DoubledX(x * (z * z), y * (z * z * z)) == f * f * DoubledX(x, y)
      && DoubledY(x * (z * z), y * (z * z * z)) == f * f * f * DoubledY(x, y)
  {
    var a, b, c := z * z, x * (z * z), y * (z * z * z);
    SquareOfProduct(y, z * z * z);
    assert z * z * z * (z * z * z) == a * (a * a);
    DoubledByParts(b, c, b * b, c * c);
    DoubledByParts(x, y, x * x, y * y);
    SquareOfProduct(x, a);
    ScaleParts(x, x * x, y * y, a, a * a, a * (a * a));
  }

  lemma DoubledByParts(x: int, y: int, xx: int, yy: int)
    requires xx == x * x && yy == y * y
    ensures DoubledX(x, y) == 9 * (xx * xx) - 8 * (x * yy)
    ensures DoubledY(x, y) == 36 * (xx * x * yy) - 27 * (xx * xx * xx) - 8 * (yy * yy)
  {
  }

  lemma ScaleParts(x: int, xx: int, yy: int, a: int, f: int, g: int)
    requires f == a * a && g == a * f
    ensures var b, bb, cc := x * a, xx * f, yy * g;
      && 9 * (bb * bb) - 8 * (b * cc) == f * f * (9 * (xx * xx) - 8 * (x * yy))
      && 36 * (bb * b * cc) - 27 * (bb * bb * bb) - 8 * (cc * cc) ==
        f * f * f * (36 * (xx * x * yy) - 27 * (xx * xx * xx) - 8 * (yy * yy))
  {
    var b, bb, cc := x * a, xx * f, yy * g;
    assert a * g == f * f && g * g == f * f * f;
    SquareOfProduct(xx, f);
    SquareOfProduct(yy, g);
    CubeOfProduct(xx, f);
    Pair(x, a, yy, g);
    Pair(xx * x, f * a, yy, g);
    Pair(xx, f, x, a);
    assert f * a * g == f * f * f;
    SpreadX(f * f, xx * xx, x * yy);
    SpreadY(f * f * f, xx * x * yy, xx * xx * xx, yy * yy);
  }

  lemma Pair(x: int, a: int, y: int, b: int)
    ensures x * a * (y * b) == x * y * (a * b)
  {
  }

  lemma SpreadX(f: int, p: int, q: int)
    ensures 9 * (p * f) - 8 * (q * f) == f * (9 * p - 8 * q)
  {
  }

  lemma SpreadY(f: int, p: int, q: int, r: int)
    ensures 36 * (p * f) - 27 * (q * f) - 8 * (r * f) == f * (36 * p - 27 * q - 8 * r)
  {
  }

  lemma DoubledCong(x: int, y: int, u: int, v: int, m: int)
    requires m > 0 && Cong(x, u, m) && Cong(y, v, m)
    ensures Cong(DoubledX(x, y), DoubledX(u, v), m) && Cong(DoubledY(x, y), DoubledY(u, v), m)
  {
    var xx, yy, uu, vv := x * x, y * y, u * u, v * v;
    CongMul(x, u, x, u, m);
    CongMul(y, v, y, v, m);
    DoubledByParts(x, y, xx, yy);
    DoubledByParts(u, v, uu, vv);
    PartsCong(x, xx, yy, u, uu, vv, m);
  }

  lemma TimesCong(k: int, a: int, b: int, m: int)
    requires m > 0 && Cong(a, b, m)
    ensures Cong(k * a, k * b, m)
  {
    CongSelf(k, m);
    CongMul(k, k, a, b, m);
  }

  lemma PartsCong(x: int, xx: int, yy: int, u: int, uu: int, vv: int, m: int)
    requires m > 0 && Cong(x, u, m) && Cong(xx, uu, m) && Cong(yy, vv, m)
    ensures Cong(9 * (xx * xx) - 8 * (x * yy), 9 * (uu * uu) - 8 * (u * vv), m)
    ensures Cong(36 * (xx * x * yy) - 27 * (xx * xx * xx) - 8 * (yy * yy),
                 36 * (uu * u * vv) - 27 * (uu * uu * uu) - 8 * (vv * vv), m)
  {
    CongMul(xx, uu, xx, uu, m);
    CongMul(x, u, yy, vv, m);
    TimesCong(9, xx * xx, uu * uu, m);
    TimesCong(8, x * yy, u * vv, m);
    CongSub(9 * (xx * xx), 9 * (uu * uu), 8 * (x * yy), 8 * (u * vv), m);
    CongMul(xx, uu, x, u, m);
    CongMul(xx * x, uu * u, yy, vv, m);
    CongMul(xx * xx, uu * uu, xx, uu, m);
    CongMul(yy, vv, yy, vv, m);
    TimesCong(36, xx * x * yy, uu * u * vv, m);
    TimesCong(27, xx * xx * xx, uu * uu * uu, m);
    TimesCong(8, yy * yy, vv * vv, m);
    CongSub(36 * (xx * x * yy), 36 * (uu * u * vv), 27 * (xx * xx * xx), 27 * (uu * uu * uu), m);
    CongSub(36 * (xx * x * yy) - 27 * (xx * xx * xx), 36 * (uu * u * vv) - 27 * (uu * uu * uu), 8 * (yy * yy),
            8 * (vv * vv), m);
  }

  /** The tangent's third point, before its coordinates are reduced. */
  function ThirdX(slope: int, x: int, bx: int): int {
    slope * slope - x - bx
  }

  function ThirdY(slope: int, x: int, y: int, bx: int): int {
    slope * (x - ThirdX(slope, x, bx)) - y
  }

  lemma ThirdIs(slope: int, a: Affine, bx: int, m: Modulus)
    requires a.At?
    ensures Third(slope, a, bx, m) == At(Mod(ThirdX(slope, a.x, bx), m), Mod(ThirdY(slope, a.x, a.y, bx), m))
  {
    var x := ThirdX(slope, a.x, bx);
    ModCong(x, m);
    CongSelf(a.x, m);
    CongSelf(a.y, m);
    CongSub(a.x, a.x, Mod(x, m), x, m);
    TimesCong(slope, a.x - Mod(x, m), a.x - x, m);
    CongSub(slope * (a.x - Mod(x, m)), slope * (a.x - x), a.y, a.y, m);
    CongMod(slope * (a.x - Mod(x, m)) - a.y, ThirdY(slope, a.x, a.y, bx), m);
  }

  /** With t the slope times 2y, the tangent's third point over w = 2 y f. */
  lemma TangentScaled(slope: int, x: int, y: int, f: int, t: int)
    requires t == slope * (2 * y)
    ensures var w := 2 * y * f;
      && ThirdX(slope, x, x) * (w * w) == f * f * (t * t - 8 * (x * (y * y)))
      && ThirdY(slope, x, y, x) * (w * w * w) ==
        f * f * f * (12 * (x * (y * y)) * t - t * t * t - 8 * (y * y * (y * y)))
  {
    var s, k := slope, 2 * y;
    assert ThirdX(s, x, x) == s * s - 2 * x;
    assert ThirdY(s, x, y, x) == 3 * (s * x) - s * s * s - y;
    TangentX(s, x, y, k, t);
    TangentY(s, x, y, k, t);
    SquareOfProduct(k, f);
    CubeOfProduct(k, f);
    Associate(ThirdX(s, x, x), k * k, f * f);
    Associate(ThirdY(s, x, y, x), k * k * k, f * f * f);
  }

  lemma Associate(a: int, b: int, c: int)
    ensures a * (b * c) == c * (a * b)
  {
  }

  lemma TangentX(s: int, x: int, y: int, k: int, t: int)
    requires k == 2 * y && t == s * k
    ensures (s * s - 2 * x) * (k * k) == t * t - 8 * (x * (y * y))
  {
  }

  lemma TangentY(s: int, x: int, y: int, k: int, t: int)
    requires k == 2 * y && t == s * k
    ensures (3 * (s * x) - s * s * s - y) * (k * k * k) == 12 * (x * (y * y)) * t - t * t * t - 8 * (y * y * (y * y))
  {
    assert 3 * (s * x) * (k * k * k) == 3 * (x * (k * k)) * t;
    assert s * s * s * (k * k * k) == t * t * t;
    assert k * k == 4 * (y * y) && k * k * k == 8 * (y * y * y);
  }

  /** Replacing t by what it is congruent to gives the doubling formulas. */
  lemma TangentCong(x: int, y: int, t: int, m: int)
    requires m > 0 && Cong(t, 3 * (x * x), m)
    ensures Cong(t * t - 8 * (x * (y * y)), DoubledX(x, y), m)
    ensures Cong(12 * (x * (y * y)) * t - t * t * t - 8 * (y * y * (y * y)), DoubledY(x, y), m)
  {
    var e, c, w := 3 * (x * x), 12 * (x * (y * y)), y * y;
    CongMul(t, e, t, e, m);
    CongMul(t * t, e * e, t, e, m);
    TimesCong(c, t, e, m);
    CongSelf(8 * (x * w), m);
    CongSelf(8 * (w * w), m);
    CongSub(t * t, e * e, 8 * (x * w), 8 * (x * w), m);
    CongSub(c * t, c * e, t * t * t, e * e * e, m);
    CongSub(c * t - t * t * t, c * e - e * e * e, 8 * (w * w), 8 * (w * w), m);
    DoubledByParts(x, y, x * x, w);
    assert e * e == 9 * (x * x * (x * x));
    assert c * e == 36 * (x * x * x * w);
    assert e * e * e == 27 * (x * x * (x * x) * (x * x));
  }

  /** From its coordinates up to congruence, what a point stands for. */
  lemma Stands(n: Point, w: int, x: int, y: int, m: Modulus)
    requires Cong(n.z, w, m) && Nonzero(w, m)
    requires Cong(n.x, x * (w * w), m) && Cong(n.y, y * (w * w * w), m)
    ensures StandsFor(n, x, y, m)
  {
    NonzeroCong(n.z, w, m);
    NonzeroMod(n.z, m);
    CongSym(n.z, w, m);
    CongMul(w, n.z, w, n.z, m);
    CubeCong(w, n.z, m);
    TimesCong(x, w * w, n.z * n.z, m);
    TimesCong(y, w * w * w, n.z * n.z * n.z, m);
    CongTrans(n.x, x * (w * w), x * (n.z * n.z), m);
    CongTrans(n.y, y * (w * w * w), y * (n.z * n.z * n.z), m);
  }

  /** What doubling computes, in terms of the affine point. */
  lemma DoubleScaled(p: Point, x: int, y: int, m: Modulus)
    requires StandsFor(p, x, y, m)
    ensures var n, f := Double(p, m), p.z * p.z * (p.z * p.z);
      && Cong(n.x, f * f * DoubledX(x, y), m) && Cong(n.y, f * f * f * DoubledY(x, y), m)
      && Cong(n.z, 2 * y * f, m)
  {
    var n, z := Double(p, m), p.z;
    var u, v := x * (z * z), y * (z * z * z);
    DoubleComputes(p, m);
    DoubledCong(p.x, p.y, u, v, m);
    DoubledScales(x, y, z);
    CongTrans(n.x, DoubledX(p.x, p.y), DoubledX(u, v), m);
    CongTrans(n.y, DoubledY(p.x, p.y), DoubledY(u, v), m);
    TimesCong(2, p.y, v, m);
    CongSelf(z, m);
    CongMul(2 * p.y, 2 * v, z, z, m);
    DoubleDepth(y, z);
    CongTrans(n.z, 2 * p.y * z, 2 * v * z, m);
  }

  lemma DoubleDepth(y: int, z: int)
    ensures 2 * (y * (z * z * z)) * z == 2 * y * (z * z * (z * z))
  {
  }

  lemma TangentStands(p: Point, x: int, y: int, slope: int, m: Modulus)
    requires Prime(m) && StandsFor(p, x, y, m) && Nonzero(2 * y, m) && Cong(slope * (2 * y), 3 * (x * x), m)
    ensures StandsFor(Double(p, m), ThirdX(slope, x, x), ThirdY(slope, x, y, x), m)
  {
    var n, z, t := Double(p, m), p.z, slope * (2 * y);
    var f := z * z * (z * z);
    var dx, dy := t * t - 8 * (x * (y * y)), 12 * (x * (y * y)) * t - t * t * t - 8 * (y * y * (y * y));
    DoubleScaled(p, x, y, m);
    TangentCong(x, y, t, m);
    TangentScaled(slope, x, y, f, t);
    TimesCong(f * f, dx, DoubledX(x, y), m);
    TimesCong(f * f * f, dy, DoubledY(x, y), m);
    CongSym(f * f * dx, f * f * DoubledX(x, y), m);
    CongSym(f * f * f * dy, f * f * f * DoubledY(x, y), m);
    CongTrans(n.x, f * f * DoubledX(x, y), f * f * dx, m);
    CongTrans(n.y, f * f * f * DoubledY(x, y), f * f * f * dy, m);
    NonzeroProduct(z, z, m);
    NonzeroProduct(z * z, z * z, m);
    NonzeroProduct(2 * y, f, m);
    Stands(n, 2 * y * f, ThirdX(slope, x, x), ThirdY(slope, x, y, x), m);
  }

  lemma SmallNonzero(a: int, m: int)
    requires 0 < a < m
    ensures Nonzero(a, m)
  {
    ModSmall(a, m);
  }

  /** Doubling in Jacobian coordinates is the tangent law. */
  lemma DoubleRefines(p: Point, m: Modulus)
    requires Prime(m) && Proper(p, m)
    ensures ToAffine(Double(p, m), m) == Plus(ToAffine(p, m), ToAffine(p, m), m) && Proper(Double(p, m), m)
  {
    if !IsZero(p) {
      var a := ToAffine(p, m);
      AffineStands(p, m);
      if a.y == 0 {
        DoubleScaled(p, a.x, 0, m);
        ModSmall(Double(p, m).z, m);
        CongMod(Double(p, m).z, 0, m);
      } else {
        SmallNonzero(2, m);
        SmallNonzero(a.y, m);
        NonzeroProduct(2, a.y, m);
        var slope := Mod(3 * (a.x * a.x) * InverseOf(2 * a.y, m), m);
        SlopeTimes(3 * (a.x * a.x), 2 * a.y, m);
        TangentStands(p, a.x, a.y, slope, m);
        StandsForOne(Double(p, m), ThirdX(slope, a.x, a.x), ThirdY(slope, a.x, a.y, a.x), m);
        ThirdIs(slope, a, a.x, m);
      }
    }
  }

  // ----- Addition -----------------------------------------------------------

  lemma ShareDepth(x: int, z: int, w: int)
    ensures x * (z * z) * (w * w) == x * (z * w * (z * w))
    ensures x * (z * z * z) * (w * w * w) == x * (z * w * (z * w) * (z * w))
  {
    SquareOfProduct(z, w);
    CubeOfProduct(z, w);
  }

  /** Over the shared denominator z1 z2, u1 and s1 are the affine coordinates. */
  lemma SharedStands(p: Point, q: Point, x: int, y: int, m: Modulus)
    requires StandsFor(p, x, y, m)
    ensures var z := p.z * q.z; Cong(U1(p, q, m), x * (z * z), m) && Cong(S1(p, q, m), y * (z * z * z), m)
  {
    var z, w := p.z, q.z;
    U1Is(p, q, m);
    S1Is(p, q, m);
    CongSelf(w * w, m);
    CongSelf(w * w * w, m);
    CongMul(p.x, x * (z * z), w * w, w * w, m);
    CongMul(p.y, y * (z * z * z), w * w * w, w * w * w, m);
    ShareDepth(x, z, w);
    ShareDepth(y, z, w);
    CongTrans(U1(p, q, m), p.x * (w * w), x * (z * z) * (w * w), m);
    CongTrans(S1(p, q, m), p.y * (w * w * w), y * (z * z * z) * (w * w * w), m);
  }

  lemma ScaledDifference(a: int, b: int, c: int, d: int, s: int, m: int)
    requires m > 0 && Cong(a, c * s, m) && Cong(b, d * s, m)
    ensures Cong(Mod(a - b, m), (c - d) * s, m)
  {
    CongSub(a, c * s, b, d * s, m);
    assert c * s - d * s == (c - d) * s;
    ModOf(a - b, (c - d) * s, m);
  }

  lemma DifferencesStand(p: Point, q: Point, a: Affine, b: Affine, m: Modulus)
    requires a.At? && b.At? && StandsFor(p, a.x, a.y, m) && StandsFor(q, b.x, b.y, m)
    ensures var z := p.z * q.z;
      Cong(H(p, q, m), (b.x - a.x) * (z * z), m) && Cong(R(p, q, m), (b.y - a.y) * (z * z * z), m)
  {
    var z := p.z * q.z;
    SharedStands(p, q, a.x, a.y, m);
    SharedStands(q, p, b.x, b.y, m);
    assert q.z * p.z == z;
    ScaledDifference(U1(q, p, m), U1(p, q, m), b.x, a.x, z * z, m);
    ScaledDifference(S1(q, p, m), S1(p, q, m), b.y, a.y, z * z * z, m);
  }

  lemma ReducedDifference(a: int, b: int, s: int, r: int, m: int)
    requires Prime(m) && 0 <= a < m && 0 <= b < m && 0 <= r < m && Nonzero(s, m) && Cong(r, (b - a) * s, m)
    ensures r == 0 <==> a == b
  {
    NonzeroProduct(b - a, s, m);
    NonzeroCong(r, (b - a) * s, m);
    NonzeroMod(r, m);
    ModSmall(r, m);
    if Cong(b - a, 0, m) {
      var k := Witness(b - a, 0, m);
      NoSmallMultiple(m, k, b - a);
    }
  }

  /** h and r vanish exactly when the affine coordinates agree. */
  lemma BranchesAgree(p: Point, q: Point, m: Modulus)
    requires Prime(m) && Proper(p, m) && Proper(q, m) && !IsZero(p) && !IsZero(q)
    ensures var a, b := ToAffine(p, m), ToAffine(q, m);
      a.At? && b.At? && (H(p, q, m) == 0 <==> a.x == b.x) && (R(p, q, m) == 0 <==> a.y == b.y)
  {
    var a, b, z := ToAffine(p, m), ToAffine(q, m), p.z * q.z;
    AffineStands(p, m);
    AffineStands(q, m);
    DifferencesStand(p, q, a, b, m);
    NonzeroProduct(p.z, q.z, m);
    NonzeroProduct(z, z, m);
    NonzeroProduct(z * z, z, m);
    ReducedDifference(a.x, b.x, z * z, H(p, q, m), m);
    ReducedDifference(a.y, b.y, z * z * z, R(p, q, m), m);
  }

  lemma AddedCong(u: int, s: int, h: int, r: int, v: int, t: int, i: int, j: int, m: int)
    requires m > 0 && Cong(u, v, m) && Cong(s, t, m) && Cong(h, i, m) && Cong(r, j, m)
    ensures Cong(AddedX(u, h, r), AddedX(v, i, j), m) && Cong(AddedY(u, s, h, r), AddedY(v, t, i, j), m)
  {
    CongMul(r, j, r, j, m);
    CongMul(h, i, h, i, m);
    CubeCong(h, i, m);
    CongMul(u, v, h * h, i * i, m);
    TimesCong(2, u * (h * h), v * (i * i), m);
    CongSub(r * r, j * j, h * h * h, i * i * i, m);
    CongSub(r * r - h * h * h, j * j - i * i * i, 2 * (u * (h * h)), 2 * (v * (i * i)), m);
    CongSub(u * (h * h), v * (i * i), AddedX(u, h, r), AddedX(v, i, j), m);
    CongMul(r, j, u * (h * h) - AddedX(u, h, r), v * (i * i) - AddedX(v, i, j), m);
    CongMul(s, t, h * h * h, i * i * i, m);
    CongSub(r * (u * (h * h) - AddedX(u, h, r)), j * (v * (i * i) - AddedX(v, i, j)), s * (h * h * h),
            t * (i * i * i), m);
  }

  /** Scaling the coordinates scales what the addition formulas compute. */
  lemma AddedScales(x: int, y: int, dx: int, dy: int, z: int)
    ensures var a, b := z * z, z * z * z;
      && AddedX(x * a, dx * a, dy * b) == b * b * AddedX(x, dx, dy)
      && AddedY(x * a, y * b, dx * a, dy * b) == b * b * b * AddedY(x, y, dx, dy)
  {
    var a, b := z * z, z * z * z;
    assert a * a * a == b * b;
    SquareOfProduct(dy, b);
    CubeOfProduct(dx, a);
    SquareOfProduct(dx, a);
    Pair(x, a, dx * dx, a * a);
    assert a * (a * a) == b * b;
    ScaleX(dy * dy, dx * dx * dx, x * (dx * dx), b * b);
    ScaleY(dy, x * (dx * dx), AddedX(x, dx, dy), y, dx * dx * dx, b);
  }

  lemma ScaleX(p: int, q: int, r: int, f: int)
    ensures p * f - q * f - 2 * (r * f) == f * (p - q - 2 * r)
  {
  }

  lemma ScaleY(r: int, v: int, n: int, s: int, c: int, b: int)
    ensures r * b * (v * (b * b) - b * b * n) - s * b * (c * (b * b)) == b * b * b * (r * (v - n) - s * c)
  {
    assert v * (b * b) - b * b * n == (v - n) * (b * b);
    assert r * b * ((v - n) * (b * b)) == b * b * b * (r * (v - n));
    assert s * b * (c * (b * b)) == b * b * b * (s * c);
  }

  /** With t the slope times dx, the chord's third point over dx. */
  lemma ChordScaled(slope: int, x: int, y: int, dx: int, t: int)
    requires t == slope * dx
    ensures ThirdX(slope, x, x + dx) * (dx * dx) == AddedX(x, dx, t)
    ensures ThirdY(slope, x, y, x + dx) * (dx * dx * dx) == AddedY(x, y, dx, t)
  {
    var s := slope;
    var e := ThirdX(s, x, x + dx);
    assert e == s * s - 2 * x - dx;
    assert t * t == s * s * (dx * dx);
    assert e * (dx * dx) == t * t - 2 * (x * (dx * dx)) - dx * dx * dx;
    assert t * (x * (dx * dx) - e * (dx * dx)) == s * (x - e) * (dx * dx * dx);
    assert (s * (x - e) - y) * (dx * dx * dx) == s * (x - e) * (dx * dx * dx) - y * (dx * dx * dx);
  }

  /** What the chord computes, in terms of the affine points. */
  lemma ChordIs(p: Point, q: Point, a: Affine, b: Affine, m: Modulus)
    requires a.At? && b.At? && StandsFor(p, a.x, a.y, m) && StandsFor(q, b.x, b.y, m)
    ensures var n, z := Chord(U1(p, q, m), S1(p, q, m), H(p, q, m), R(p, q, m), p.z, q.z, m), p.z * q.z;
      var f, dx, dy := z * z * z, b.x - a.x, b.y - a.y;
      && Cong(n.x, f * f * AddedX(a.x, dx, dy), m) && Cong(n.y, f * f * f * AddedY(a.x, a.y, dx, dy), m)
      && Cong(n.z, dx * f, m)
  {
    var u, s, h, r, z := U1(p, q, m), S1(p, q, m), H(p, q, m), R(p, q, m), p.z * q.z;
    SharedStands(p, q, a.x, a.y, m);
    DifferencesStand(p, q, a, b, m);
    ChordComputes(u, s, h, r, p.z, q.z, m);
    ChordMoves(Chord(u, s, h, r, p.z, q.z, m), u, s, h, r, a.x, a.y, b.x - a.x, b.y - a.y, z, m);
  }

  lemma ChordMoves(n: Point, u: int, s: int, h: int, r: int, x: int, y: int, dx: int, dy: int, z: int, m: Modulus)
    requires Cong(u, x * (z * z), m) && Cong(s, y * (z * z * z), m)
    requires Cong(h, dx * (z * z), m) && Cong(r, dy * (z * z * z), m)
    requires Cong(n.x, AddedX(u, h, r), m) && Cong(n.y, AddedY(u, s, h, r), m) && Cong(n.z, h * z, m)
    ensures var f := z * z * z;
      && Cong(n.x, f * f * AddedX(x, dx, dy), m) && Cong(n.y, f * f * f * AddedY(x, y, dx, dy), m)
      && Cong(n.z, dx * f, m)
  {
    var f := z * z * z;
    AddedCong(u, s, h, r, x * (z * z), y * f, dx * (z * z), dy * f, m);
    AddedScales(x, y, dx, dy, z);
    CongTrans(n.x, AddedX(u, h, r), f * f * AddedX(x, dx, dy), m);
    CongTrans(n.y, AddedY(u, s, h, r), f * f * f * AddedY(x, y, dx, dy), m);
    CongSelf(z, m);
    CongMul(h, dx * (z * z), z, z, m);
    assert dx * (z * z) * z == dx * f;
    CongTrans(n.z, h * z, dx * f, m);
  }

  lemma ChordStands(n: Point, f: int, x: int, y: int, dx: int, dy: int, slope: int, m: Modulus)
    requires Prime(m) && Nonzero(dx, m) && Nonzero(f, m) && Cong(slope * dx, dy, m)
    requires Cong(n.x, f * f * AddedX(x, dx, dy), m) && Cong(n.y, f * f * f * AddedY(x, y, dx, dy), m)
    requires Cong(n.z, dx * f, m)
    ensures StandsFor(n, ThirdX(slope, x, x + dx), ThirdY(slope, x, y, x + dx), m)
  {
    var t, w := slope * dx, dx * f;
    CongSelf(x, m);
    CongSelf(y, m);
    CongSelf(dx, m);
    CongSym(t, dy, m);
    AddedCong(x, y, dx, dy, x, y, dx, t, m);
    TimesCong(f * f, AddedX(x, dx, dy), AddedX(x, dx, t), m);
    TimesCong(f * f * f, AddedY(x, y, dx, dy), AddedY(x, y, dx, t), m);
    CongTrans(n.x, f * f * AddedX(x, dx, dy), f * f * AddedX(x, dx, t), m);
    CongTrans(n.y, f * f * f * AddedY(x, y, dx, dy), f * f * f * AddedY(x, y, dx, t), m);
    ChordScaled(slope, x, y, dx, t);
    ChordDepth(ThirdX(slope, x, x + dx), ThirdY(slope, x, y, x + dx), dx, f);
    NonzeroProduct(dx, f, m);
    Stands(n, w, ThirdX(slope, x, x + dx), ThirdY(slope, x, y, x + dx), m);
  }

  lemma ChordDepth(x: int, y: int, dx: int, f: int)
    ensures f * f * (x * (dx * dx)) == x * (dx * f * (dx * f))
    ensures f * f * f * (y * (dx * dx * dx)) == y * (dx * f * (dx * f) * (dx * f))
  {
    SquareOfProduct(dx, f);
    CubeOfProduct(dx, f);
    Associate(x, dx * dx, f * f);
    Associate(y, dx * dx * dx, f * f * f);
  }

  /** The chord of two points with different x is the chord law. */
  lemma ChordRefines(p: Point, q: Point, m: Modulus)
    requires Prime(m) && Proper(p, m) && Proper(q, m) && !IsZero(p) && !IsZero(q) && H(p, q, m) != 0
    ensures ToAffine(Add(p, q, m), m) == Plus(ToAffine(p, m), ToAffine(q, m), m) && Proper(Add(p, q, m), m)
  {
    var a, b, z := ToAffine(p, m), ToAffine(q, m), p.z * q.z;
    BranchesAgree(p, q, m);
    AffineStands(p, m);
    AffineStands(q, m);
    var dx, dy, n := b.x - a.x, b.y - a.y, Add(p, q, m);
    var slope := Mod(dy * InverseOf(dx, m), m);
    DifferentNonzero(a.x, b.x, m);
    SlopeTimes(dy, dx, m);
    ChordIs(p, q, a, b, m);
    NonzeroProduct(p.z, q.z, m);
    NonzeroProduct(z, z, m);
    NonzeroProduct(z * z, z, m);
    ChordStands(n, z * z * z, a.x, a.y, dx, dy, slope, m);
    StandsForOne(n, ThirdX(slope, a.x, b.x), ThirdY(slope, a.x, a.y, b.x), m);
    ThirdIs(slope, a, b.x, m);
  }

  lemma DifferentNonzero(a: int, b: int, m: int)
    requires m > 0 && 0 <= a < m && 0 <= b < m && a != b
    ensures Nonzero(b - a, m)
  {
    if Cong(b - a, 0, m) {
      var k := Witness(b - a, 0, m);
      NoSmallMultiple(m, k, b - a);
    }
  }

  /** Addition in Jacobian coordinates is the chord-and-tangent law, in every branch. */
  lemma AddRefines(p: Point, q: Point, m: Modulus)
    requires Prime(m) && Proper(p, m) && Proper(q, m)
    ensures ToAffine(Add(p, q, m), m) == Plus(ToAffine(p, m), ToAffine(q, m), m) && Proper(Add(p, q, m), m)
  {
    if !IsZero(p) && !IsZero(q) {
      BranchesAgree(p, q, m);
      if H(p, q, m) != 0 {
        ChordRefines(p, q, m);
      } else {
        DoubleRefines(p, m);
      }
    }
  }
}
