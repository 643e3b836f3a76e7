/** The curve y^2 = x^3 + 7 in Jacobian coordinates, over the numbers modulo m:
    (x, y, z) stands for (x / z^2, y / z^3). */
module Jacobian {
  import opened Modular

  datatype Point = Point(x: int, y: int, z: int)

  const ZERO := Point(0, 1, 0)

  predicate IsZero(p: Point) {
    p.z == 0
  }

  function Double(p: Point, m: Modulus): Point {
    if IsZero(p) then p
    else
      var a := p.x * p.x % m;
      var b := p.y * p.y % m;
      var c := b * b % m;
      var d := Mod(2 * ((p.x + b) * (p.x + b) - a - c), m);
      var e := 3 * a;
      var f := Mod(e * e, m);
      var nx := Mod(f - 2 * d, m);
      Point(nx, Mod(e * (d - nx) - 8 * c, m), Mod(2 * p.y * p.z, m))
  }

  function U1(p: Point, q: Point, m: Modulus): int {
    Mod(p.x * Mod(q.z * q.z, m), m)
  }

  function S1(p: Point, q: Point, m: Modulus): int {
    Mod(p.y * q.z * Mod(q.z * q.z, m), m)
  }

  /** The difference of the two x coordinates, brought to one denominator. */
  function H(p: Point, q: Point, m: Modulus): int {
    Mod(U1(q, p, m) - U1(p, q, m), m)
  }

  /** The difference of the two y coordinates, brought to one denominator. */
  function R(p: Point, q: Point, m: Modulus): int {
    Mod(S1(q, p, m) - S1(p, q, m), m)
  }

  function Add(p: Point, q: Point, m: Modulus): Point {
    if IsZero(p) then q
    else if IsZero(q) then p
    else
      var h, r := H(p, q, m), R(p, q, m);
      if h == 0 then (if r == 0 then Double(p, m) else ZERO)
      else Chord(U1(p, q, m), S1(p, q, m), h, r, p.z, q.z, m)
  }

  /** The third point of the chord, from u1, s1 and the differences h and r. */
  function Chord(u: int, s: int, h: int, r: int, z: int, w: int, m: Modulus): Point {
    var hh := Mod(h * h, m);
    var hhh := Mod(h * hh, m);
    var v := Mod(u * hh, m);
    var nx := Mod(r * r - hhh - 2 * v, m);
    Point(nx, Mod(r * (v - nx) - s * hhh, m), Mod(h * z * w, m))
  }

  // ----- The curve --------------------------------------------------------

  function Sixth(z: int): int {
    z * z * (z * z) * (z * z)
  }

  /** y^2 = x^3 + 7 z^6. */
  ghost predicate OnCurve(p: Point, m: Modulus) {
    Cong(p.y * p.y, p.x * p.x * p.x + 7 * Sixth(p.z), m)
  }

  // ----- What each formula computes, before it is reduced --------------------

  lemma ModOf(a: int, b: int, m: int)
    requires m > 0 && Cong(a, b, m)
    ensures Cong(Mod(a, m), b, m)
  {
    ModCong(a, m);
    CongTrans(Mod(a, m), a, b, m);
  }

  function DoubledX(x: int, y: int): int {
    9 * x * x * x * x - 8 * x * y * y
  }

  function DoubledY(x: int, y: int): int {
    36 * x * x * x * y * y - 27 * x * x * x * x * x * x - 8 * y * y * y * y
  }

  lemma SquareTerms(x: int, y: int)
    ensures 2 * ((x + y * y) * (x + y * y) - x * x - y * y * (y * y)) == 4 * x * (y * y)
  {
  }

  /** d is 4 x y^2. */
  lemma DoubleD(x: int, y: int, a: int, b: int, c: int, m: int)
    requires m > 0 && Cong(a, x * x, m) && Cong(b, y * y, m) && Cong(c, y * y * (y * y), m)
    ensures Cong(Mod(2 * ((x + b) * (x + b) - a - c), m), 4 * x * (y * y), m)
  {
    var w := y * y;
    CongSelf(x, m);
    CongSelf(2, m);
    CongAdd(x, x, b, w, m);
    CongMul(x + b, x + w, x + b, x + w, m);
    CongSub((x + b) * (x + b), (x + w) * (x + w), a, x * x, m);
    CongSub((x + b) * (x + b) - a, (x + w) * (x + w) - x * x, c, w * w, m);
    CongMul(2, 2, (x + b) * (x + b) - a - c, (x + w) * (x + w) - x * x - w * w, m);
    SquareTerms(x, y);
    ModOf(2 * ((x + b) * (x + b) - a - c), 4 * x * w, m);
  }

  /** nx from d and a. */
  lemma DoubleX(x: int, y: int, a: int, d: int, m: int)
    requires m > 0 && Cong(a, x * x, m) && Cong(d, 4 * x * (y * y), m)
    ensures Cong(Mod(Mod(3 * a * (3 * a), m) - 2 * d, m), DoubledX(x, y), m)
  {
    var e := 3 * a;
    CongSelf(3, m);
    CongSelf(2, m);
    CongMul(3, 3, a, x * x, m);
    CongMul(e, 3 * (x * x), e, 3 * (x * x), m);
    ModOf(e * e, 3 * (x * x) * (3 * (x * x)), m);
    CongMul(2, 2, d, 4 * x * (y * y), m);
    CongSub(Mod(e * e, m), 3 * (x * x) * (3 * (x * x)), 2 * d, 2 * (4 * x * (y * y)), m);
    assert 3 * (x * x) * (3 * (x * x)) - 2 * (4 * x * (y * y)) == DoubledX(x, y);
    ModOf(Mod(e * e, m) - 2 * d, DoubledX(x, y), m);
  }

  lemma DoubledTerms(x: int, y: int)
    ensures 3 * (x * x) * (4 * x * (y * y) - DoubledX(x, y)) - 8 * (y * y * (y * y)) == DoubledY(x, y)
  {
    var a, w := x * x, y * y;
    assert DoubledX(x, y) == 9 * (a * a) - 8 * x * w;
    assert 4 * x * w - DoubledX(x, y) == 12 * x * w - 9 * (a * a);
    assert 3 * a * (12 * x * w - 9 * (a * a)) == 36 * (a * x * w) - 27 * (a * a * a);
  }

  /** ny from d, nx, a and c. */
  lemma DoubleY(x: int, y: int, a: int, c: int, d: int, nx: int, m: int)
    requires m > 0 && Cong(a, x * x, m) && Cong(c, y * y * (y * y), m) && Cong(d, 4 * x * (y * y), m)
    requires Cong(nx, DoubledX(x, y), m)
    ensures Cong(Mod(3 * a * (d - nx) - 8 * c, m), DoubledY(x, y), m)
  {
    CongSelf(3, m);
    CongSelf(8, m);
    CongMul(3, 3, a, x * x, m);
    CongSub(d, 4 * x * (y * y), nx, DoubledX(x, y), m);
    CongMul(3 * a, 3 * (x * x), d - nx, 4 * x * (y * y) - DoubledX(x, y), m);
    CongMul(8, 8, c, y * y * (y * y), m);
    CongSub(3 * a * (d - nx), 3 * (x * x) * (4 * x * (y * y) - DoubledX(x, y)), 8 * c, 8 * (y * y * (y * y)), m);
    DoubledTerms(x, y);
    ModOf(3 * a * (d - nx) - 8 * c, DoubledY(x, y), m);
  }

  lemma DoubleComputes(p: Point, m: Modulus)
    requires !IsZero(p)
    ensures Cong(Double(p, m).x, DoubledX(p.x, p.y), m) && Cong(Double(p, m).y, DoubledY(p.x, p.y), m)
    ensures Cong(Double(p, m).z, 2 * p.y * p.z, m)
  {
    var x, y := p.x, p.y;
    var a, b := Mod(x * x, m), Mod(y * y, m);
    var c := Mod(b * b, m);
    ModCong(x * x, m);
    ModCong(y * y, m);
    CongMul(b, y * y, b, y * y, m);
    ModOf(b * b, y * y * (y * y), m);
    var d := Mod(2 * ((x + b) * (x + b) - a - c), m);
    DoubleD(x, y, a, b, c, m);
    var nx := Mod(Mod(3 * a * (3 * a), m) - 2 * d, m);
    DoubleX(x, y, a, d, m);
    DoubleY(x, y, a, c, d, nx, m);
    ModCong(2 * y * p.z, m);
  }

  // ----- Doubling stays on the curve -----------------------------------------

  /** With t = x^3 and w = y^2: ny^2 - nx^3 = 64 w^3 (w - t). */
  lemma DoubleIdentity(x: int, y: int, t: int, w: int)
    requires t == x * x * x && w == y * y
    ensures DoubledY(x, y) * DoubledY(x, y) - DoubledX(x, y) * DoubledX(x, y) * DoubledX(x, y) ==
      64 * (w * w * w) * (w - t)
  {
    var n := 9 * t - 8 * w;
    DoubledInTw(x, y, t, w);
    CubeOfProduct(x, n);
    TwoVariables(t, w);
  }

  lemma DoubledInTw(x: int, y: int, t: int, w: int)
    requires t == x * x * x && w == y * y
    ensures DoubledX(x, y) == x * (9 * t - 8 * w)
    ensures DoubledY(x, y) == 36 * (t * w) - 27 * (t * t) - 8 * (w * w)
  {
    assert x * x * x * y * y == t * w;
    assert x * x * x * x * x * x == t * t;
  }

  lemma CubeOfProduct(a: int, b: int)
    ensures a * b * (a * b) * (a * b) == a * a * a * (b * b * b)
  {
  }

  lemma TwoVariables(t: int, w: int)
    ensures var n, y := 9 * t - 8 * w, 36 * (t * w) - 27 * (t * t) - 8 * (w * w);
      y * y - t * (n * n * n) == 64 * (w * w * w) * (w - t)
  {
  }

  lemma SixthOfProduct(a: int, b: int)
    ensures Sixth(a * b) == Sixth(a) * Sixth(b)
  {
    SquareOfProduct(a, b);
    SixthOfSquares(a * b, a * a, b * b);
  }

  lemma SquareOfProduct(a: int, b: int)
    ensures a * b * (a * b) == a * a * (b * b)
  {
  }

  lemma SixthOfSquares(c: int, a: int, b: int)
    requires c * c == a * b
    ensures Sixth(c) == a * a * a * (b * b * b)
  {
    CubeOfProduct(a, b);
  }

  lemma SixthIsCube(y: int, w: int)
    requires w == y * y
    ensures Sixth(2 * y) == 64 * (w * w * w)
  {
  }

  /** A point whose coordinates are congruent to these is on the curve when they are. */
  lemma OnCurveCong(p: Point, x: int, y: int, z: int, m: Modulus)
    requires Cong(p.x, x, m) && Cong(p.y, y, m) && Cong(p.z, z, m)
    requires Cong(y * y, x * x * x + 7 * Sixth(z), m)
    ensures OnCurve(p, m)
  {
    CongMul(p.y, y, p.y, y, m);
    CubeCong(p.x, x, m);
    SixthCong(p.z, z, m);
    CongSelf(7, m);
    CongMul(7, 7, Sixth(p.z), Sixth(z), m);
    var right, exact := p.x * p.x * p.x + 7 * Sixth(p.z), x * x * x + 7 * Sixth(z);
    CongAdd(p.x * p.x * p.x, x * x * x, 7 * Sixth(p.z), 7 * Sixth(z), m);
    CongTrans(p.y * p.y, y * y, exact, m);
    CongSym(right, exact, m);
    CongTrans(p.y * p.y, exact, right, m);
  }

  lemma CubeCong(a: int, b: int, m: int)
    requires m > 0 && Cong(a, b, m)
    ensures Cong(a * a * a, b * b * b, m)
  {
    CongMul(a, b, a, b, m);
    CongMul(a * a, b * b, a, b, m);
  }

  lemma SixthCong(a: int, b: int, m: int)
    requires m > 0 && Cong(a, b, m)
    ensures Cong(Sixth(a), Sixth(b), m)
  {
    CubeCong(a, b, m);
    CongMul(a * a * a, b * b * b, a * a * a, b * b * b, m);
    assert Sixth(a) == a * a * a * (a * a * a) && Sixth(b) == b * b * b * (b * b * b);
  }

  /** Doubling keeps every point on the curve, the point at infinity included. */
  lemma DoubleStays(p: Point, m: Modulus)
    requires OnCurve(p, m)
    ensures OnCurve(Double(p, m), m)
  {
    if !IsZero(p) {
      var x, y, z := p.x, p.y, p.z;
      var t, w, z6 := x * x * x, y * y, Sixth(z);
      DoubleComputes(p, m);
      DoubleIdentity(x, y, t, w);
      SixthIsCube(y, w);
      SixthOfProduct(2 * y, z);
      var k := Witness(w, t + 7 * z6, m);
      var cube := 64 * (w * w * w);
      DoubleWitness(cube, w, t, z6, k, m);
      FromWitness(DoubledY(x, y) * DoubledY(x, y),
                  DoubledX(x, y) * DoubledX(x, y) * DoubledX(x, y) + 7 * Sixth(2 * y * z), m, cube * k);
      OnCurveCong(Double(p, m), DoubledX(x, y), DoubledY(x, y), 2 * y * z, m);
    }
  }

  lemma DoubleWitness(cube: int, w: int, t: int, z6: int, k: int, m: Modulus)
    requires w == t + 7 * z6 + m * k
    ensures cube * (w - t) == 7 * (cube * z6) + m * (cube * k)
  {
    assert w - t == 7 * z6 + m * k;
    assert cube * (7 * z6 + m * k) == cube * (7 * z6) + cube * (m * k);
  }

  // ----- What addition computes ---------------------------------------------

  function AddedX(u: int, h: int, r: int): int {
    r * r - h * h * h - 2 * (u * (h * h))
  }

  function AddedY(u: int, s: int, h: int, r: int): int {
    r * (u * (h * h) - AddedX(u, h, r)) - s * (h * h * h)
  }

  lemma AddX(u: int, h: int, r: int, hh: int, hhh: int, v: int, m: int)
    requires m > 0 && Cong(hhh, h * h * h, m) && Cong(v, u * (h * h), m)
    ensures Cong(Mod(r * r - hhh - 2 * v, m), AddedX(u, h, r), m)
  {
    CongSelf(r * r, m);
    CongSelf(2, m);
    CongSub(r * r, r * r, hhh, h * h * h, m);
    CongMul(2, 2, v, u * (h * h), m);
    CongSub(r * r - hhh, r * r - h * h * h, 2 * v, 2 * (u * (h * h)), m);
    ModOf(r * r - hhh - 2 * v, AddedX(u, h, r), m);
  }

  lemma AddY(u: int, s: int, h: int, r: int, hhh: int, v: int, nx: int, m: int)
    requires m > 0 && Cong(hhh, h * h * h, m) && Cong(v, u * (h * h), m) && Cong(nx, AddedX(u, h, r), m)
    ensures Cong(Mod(r * (v - nx) - s * hhh, m), AddedY(u, s, h, r), m)
  {
    CongSelf(r, m);
    CongSelf(s, m);
    CongSub(v, u * (h * h), nx, AddedX(u, h, r), m);
    CongMul(r, r, v - nx, u * (h * h) - AddedX(u, h, r), m);
    CongMul(s, s, hhh, h * h * h, m);
    CongSub(r * (v - nx), r * (u * (h * h) - AddedX(u, h, r)), s * hhh, s * (h * h * h), m);
    ModOf(r * (v - nx) - s * hhh, AddedY(u, s, h, r), m);
  }

  lemma ChordComputes(u: int, s: int, h: int, r: int, z: int, w: int, m: Modulus)
    ensures var n := Chord(u, s, h, r, z, w, m);
      && Cong(n.x, AddedX(u, h, r), m) && Cong(n.y, AddedY(u, s, h, r), m)
      && Cong(n.z, h * (z * w), m)
  {
    var hh := Mod(h * h, m);
    var hhh, v := Mod(h * hh, m), Mod(u * hh, m);
    ModCong(h * h, m);
    CongSelf(h, m);
    CongSelf(u, m);
    CongMul(h, h, hh, h * h, m);
    assert h * (h * h) == h * h * h;
    ModOf(h * hh, h * h * h, m);
    CongMul(u, u, hh, h * h, m);
    ModOf(u * hh, u * (h * h), m);
    AddX(u, h, r, hh, hhh, v, m);
    AddY(u, s, h, r, hhh, v, Mod(r * r - hhh - 2 * v, m), m);
    assert h * z * w == h * (z * w);
    ModCong(h * z * w, m);
  }

  // ----- Addition stays on the curve ----------------------------------------

  function Slope(u: int, h: int, r: int): int {
    3 * (u * (h * h)) + h * h * h - r * r
  }

  function Gap(u: int, s: int, h: int, r: int): int {
    2 * (s * r) + r * r - 3 * (u * u * h) - 3 * (u * (h * h)) - h * h * h
  }

  /** ny^2 - nx^3 = h^6 (s^2 - u^3) - h^3 X D. */
  lemma AddIdentity(u: int, s: int, h: int, r: int)
    ensures var x, y, h3 := AddedX(u, h, r), AddedY(u, s, h, r), h * h * h;
      y * y - x * x * x == h3 * h3 * (s * s - u * u * u) - h3 * (Slope(u, h, r) * Gap(u, s, h, r))
  {
    var h3, a, g := h * h * h, u * (h * h), Slope(u, h, r);
    assert AddedX(u, h, r) == a - g;
    assert AddedY(u, s, h, r) == r * g - s * h3;
    assert (r * g - s * h3) * (r * g - s * h3) == r * r * (g * g) - 2 * (r * s * h3 * g) + h3 * h3 * (s * s);
    assert (a - g) * (a - g) * (a - g) == a * a * a - 3 * (a * a * g) + 3 * (a * (g * g)) - g * g * g;
    AddCollect(u, s, h, r, h3, a, g);
  }

  lemma AddCollect(u: int, s: int, h: int, r: int, h3: int, a: int, g: int)
    requires h3 == h * h * h && a == u * (h * h) && g == 3 * a + h3 - r * r
    ensures r * r * (g * g) - 2 * (r * s * h3 * g) + h3 * h3 * (s * s)
      - (a * a * a - 3 * (a * a * g) + 3 * (a * (g * g)) - g * g * g)
      == h3 * h3 * (s * s - u * u * u) - h3 * (g * Gap(u, s, h, r))
  {
    assert a * a == u * u * h * h3;
    assert a * a * a == h3 * h3 * (u * u * u);
    assert g * g * (r * r + g - 3 * a) == g * g * h3;
    assert h3 * (g * Gap(u, s, h, r)) == h3 * g * (2 * (s * r) - 3 * (u * u * h) - g);
  }

  /** u1 and s1 before they are reduced. */
  lemma U1Is(p: Point, q: Point, m: Modulus)
    ensures Cong(U1(p, q, m), p.x * (q.z * q.z), m)
  {
    ModCong(q.z * q.z, m);
    CongSelf(p.x, m);
    CongMul(p.x, p.x, Mod(q.z * q.z, m), q.z * q.z, m);
    ModOf(p.x * Mod(q.z * q.z, m), p.x * (q.z * q.z), m);
  }

  lemma S1Is(p: Point, q: Point, m: Modulus)
    ensures Cong(S1(p, q, m), p.y * (q.z * q.z * q.z), m)
  {
    ModCong(q.z * q.z, m);
    CongSelf(p.y * q.z, m);
    CongMul(p.y * q.z, p.y * q.z, Mod(q.z * q.z, m), q.z * q.z, m);
    assert p.y * q.z * (q.z * q.z) == p.y * (q.z * q.z * q.z);
    ModOf(p.y * q.z * Mod(q.z * q.z, m), p.y * (q.z * q.z * q.z), m);
  }

  /** Brought to a shared denominator, a point of the curve satisfies s^2 = u^3 + 7 (z1 z2)^6. */
  lemma SharedCurve(p: Point, q: Point, m: Modulus)
    requires OnCurve(p, m)
    ensures var u, s := U1(p, q, m), S1(p, q, m); Cong(s * s, u * u * u + 7 * Sixth(p.z * q.z), m)
  {
    var u, s, z := U1(p, q, m), S1(p, q, m), q.z;
    var ue, se := p.x * (z * z), p.y * (z * z * z);
    U1Is(p, q, m);
    S1Is(p, q, m);
    CongMul(s, se, s, se, m);
    CubeCong(u, ue, m);
    SquareOfProduct(p.y, z * z * z);
    CubeOfProduct(p.x, z * z);
    SixthOfProduct(p.z, z);
    assert z * z * z * (z * z * z) == Sixth(z);
    CongSelf(Sixth(z), m);
    CongMul(p.y * p.y, p.x * p.x * p.x + 7 * Sixth(p.z), Sixth(z), Sixth(z), m);
    Spread(p.x * p.x * p.x, Sixth(p.z), Sixth(z));
    var c := 7 * Sixth(p.z * z);
    CongTrans(s * s, se * se, ue * ue * ue + c, m);
    CongSelf(c, m);
    CongAdd(u * u * u, ue * ue * ue, c, c, m);
    CongSym(u * u * u + c, ue * ue * ue + c, m);
    CongTrans(s * s, ue * ue * ue + c, u * u * u + c, m);
  }

  lemma Spread(cube: int, a: int, b: int)
    ensures (cube + 7 * a) * b == cube * b + 7 * (a * b)
  {
  }

  /** A difference reduced and added back gives the other term. */
  lemma Difference(a: int, b: int, m: int)
    requires m > 0
    ensures Cong(b + Mod(a - b, m), a, m)
  {
    ModCong(a - b, m);
    CongSelf(b, m);
    CongAdd(b, b, Mod(a - b, m), a - b, m);
  }

  /** The second point, in terms of the first and the differences. */
  lemma SecondOnCurve(p: Point, q: Point, m: Modulus)
    requires OnCurve(q, m)
    ensures var u, s := U1(p, q, m) + H(p, q, m), S1(p, q, m) + R(p, q, m);
      Cong(s * s, u * u * u + 7 * Sixth(p.z * q.z), m)
  {
    SharedCurve(q, p, m);
    assert q.z * p.z == p.z * q.z;
    Difference(U1(q, p, m), U1(p, q, m), m);
    Difference(S1(q, p, m), S1(p, q, m), m);
    CurveMoves(U1(p, q, m) + H(p, q, m), S1(p, q, m) + R(p, q, m), U1(q, p, m), S1(q, p, m), 7 * Sixth(p.z * q.z), m);
  }

  lemma CurveMoves(u: int, s: int, v: int, t: int, c: int, m: int)
    requires m > 0 && Cong(u, v, m) && Cong(s, t, m) && Cong(t * t, v * v * v + c, m)
    ensures Cong(s * s, u * u * u + c, m)
  {
    CongMul(s, t, s, t, m);
    CubeCong(u, v, m);
    CongTrans(s * s, t * t, v * v * v + c, m);
    CongSelf(c, m);
    CongAdd(u * u * u, v * v * v, c, c, m);
    CongSym(u * u * u + c, v * v * v + c, m);
    CongTrans(s * s, v * v * v + c, u * u * u + c, m);
  }

  lemma GapIs(u: int, s: int, h: int, r: int)
    ensures Gap(u, s, h, r) == (s + r) * (s + r) - (u + h) * (u + h) * (u + h) - (s * s - u * u * u)
  {
  }

  /** What the identity leaves when both points are on the curve. */
  lemma AddWitness(u: int, s: int, h: int, r: int, c: int, k: int, l: int, m: Modulus)
    requires s * s == u * u * u + c + m * k
    requires (s + r) * (s + r) == (u + h) * (u + h) * (u + h) + c + m * l
    ensures var x, y, h3, g := AddedX(u, h, r), AddedY(u, s, h, r), h * h * h, Slope(u, h, r);
      y * y == x * x * x + c * (h3 * h3) + m * (h3 * h3 * k - h3 * g * (l - k))
  {
    var h3, g := h * h * h, Slope(u, h, r);
    GapIs(u, s, h, r);
    AddIdentity(u, s, h, r);
    assert Gap(u, s, h, r) == m * (l - k);
    Scatter(h3, g, c, m, k, l - k);
  }

  lemma Scatter(h3: int, g: int, c: int, m: int, k: int, d: int)
    ensures h3 * h3 * (c + m * k) - h3 * (g * (m * d)) == c * (h3 * h3) + m * (h3 * h3 * k - h3 * g * d)
  {
    assert h3 * h3 * (c + m * k) == c * (h3 * h3) + m * (h3 * h3 * k);
    assert h3 * (g * (m * d)) == m * (h3 * g * d);
  }

  /** The chord through two points of the curve meets it again. */
  lemma ChordStays(p: Point, q: Point, m: Modulus)
    requires OnCurve(p, m) && OnCurve(q, m) && !IsZero(p) && !IsZero(q) && H(p, q, m) != 0
    ensures OnCurve(Add(p, q, m), m)
  {
    var u, s, h, r, z := U1(p, q, m), S1(p, q, m), H(p, q, m), R(p, q, m), p.z * q.z;
    SharedCurve(p, q, m);
    SecondOnCurve(p, q, m);
    ChordOnCurve(u, s, h, r, z, m);
    ChordComputes(u, s, h, r, p.z, q.z, m);
    OnCurveCong(Add(p, q, m), AddedX(u, h, r), AddedY(u, s, h, r), h * z, m);
  }

  lemma ChordOnCurve(u: int, s: int, h: int, r: int, z: int, m: Modulus)
    requires Cong(s * s, u * u * u + 7 * Sixth(z), m)
    requires Cong((s + r) * (s + r), (u + h) * (u + h) * (u + h) + 7 * Sixth(z), m)
    ensures var x, y := AddedX(u, h, r), AddedY(u, s, h, r); Cong(y * y, x * x * x + 7 * Sixth(h * z), m)
  {
    var x, y, h3, c := AddedX(u, h, r), AddedY(u, s, h, r), h * h * h, 7 * Sixth(z);
    var k := Witness(s * s, u * u * u + c, m);
    var l := Witness((s + r) * (s + r), (u + h) * (u + h) * (u + h) + c, m);
    AddWitness(u, s, h, r, c, k, l, m);
    ScaleSixth(h, z);
    FromWitness(y * y, x * x * x + 7 * Sixth(h * z), m, h3 * h3 * k - h3 * Slope(u, h, r) * (l - k));
  }

  lemma ScaleSixth(h: int, z: int)
    ensures 7 * Sixth(z) * (h * h * h * (h * h * h)) == 7 * Sixth(h * z)
  {
    SixthOfProduct(h, z);
    assert Sixth(h) == h * h * h * (h * h * h);
  }

  /** The point the addition of two opposite points returns is not on the
      curve the equation describes: it has y = 1 over z = 0. */
  lemma ZeroIsOffCurve(m: Modulus)
    ensures !OnCurve(ZERO, m)
  {
  }

  predicate Opposite(p: Point, q: Point, m: Modulus) {
    !IsZero(p) && !IsZero(q) && H(p, q, m) == 0 && R(p, q, m) != 0
  }

  /** Addition keeps points on the curve in every branch but that one. */
  lemma AddStays(p: Point, q: Point, m: Modulus)
    requires OnCurve(p, m) && OnCurve(q, m)
    ensures OnCurve(Add(p, q, m), m) <==> !Opposite(p, q, m)
    ensures Opposite(p, q, m) ==> Add(p, q, m) == ZERO
  {
    ZeroIsOffCurve(m);
    if !IsZero(p) && !IsZero(q) {
      if H(p, q, m) != 0 {
        ChordStays(p, q, m);
      } else if R(p, q, m) == 0 {
        DoubleStays(p, m);
      }
    }
  }

  function Negative(p: Point, m: Modulus): Point {
    Point(p.x, Mod(-p.y, m), p.z)
  }

  /** That branch is there to be taken: every point of the curve with y other
      than 0 has its negative on the curve too, and adding the two leaves it. */
  lemma NegativeLeaves(p: Point, m: Modulus)
    requires OnCurve(p, m) && p.z == 1 && 0 < p.y < m && m % 2 == 1
    ensures OnCurve(Negative(p, m), m) && Opposite(p, Negative(p, m), m)
    ensures !OnCurve(Add(p, Negative(p, m), m), m)
  {
    var q := Negative(p, m);
    ModSmall(1, m);
    NegativeSquare(p.y, m);
    CongSelf(p.x * p.x * p.x + 7 * Sixth(p.z), m);
    CongTrans(q.y * q.y, p.y * p.y, p.x * p.x * p.x + 7 * Sixth(p.z), m);
    ModSmall(p.y, m);
    ModSmall(q.y, m);
    DoubleIsNonzero(p.y, m);
    AddStays(p, q, m);
  }

  lemma NegativeSquare(y: int, m: Modulus)
    requires 0 < y < m
    ensures Mod(-y, m) == m - y && Cong((m - y) * (m - y), y * y, m)
  {
    FromWitness(-y, m - y, m, -1);
    CongMod(-y, m - y, m);
    ModSmall(m - y, m);
    FromWitness((m - y) * (m - y), y * y, m, m - 2 * y);
  }

  lemma DoubleIsNonzero(y: int, m: Modulus)
    requires 0 < y < m && m % 2 == 1
    ensures Mod(m - y - y, m) != 0
  {
    if Mod(m - y - y, m) == 0 {
      ModSmall(0, m);
      CongMod(m - y - y, 0, m);
      var k := Witness(m - y - y, 0, m);
      NoSmallMultiple(m, k, m - y - y);
    }
  }

  /** A point the arithmetic may hold: infinity, or a point of the curve. */
  ghost predicate Valid(p: Point, m: Modulus) {
    IsZero(p) || OnCurve(p, m)
  }

  /** So infinity aside, nothing ever leaves the curve. */
  lemma ValidStays(p: Point, q: Point, m: Modulus)
    requires Valid(p, m) && Valid(q, m)
    ensures Valid(Double(p, m), m) && Valid(Add(p, q, m), m)
  {
    if OnCurve(p, m) { DoubleStays(p, m); }
    if OnCurve(p, m) && OnCurve(q, m) { AddStays(p, q, m); }
  }
}
