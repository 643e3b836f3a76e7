/** Repeated addition in any group, and double-and-add against it. */
module Groups {
  import opened Modular

  datatype Group<!T> = Group(op: (T, T) -> T, zero: T, points: iset<T>)

  ghost predicate AssociatesAt<T(!new)>(g: Group<T>, a: T, b: T, c: T) {
    g.op(g.op(a, b), c) == g.op(a, g.op(b, c))
  }

  ghost predicate Associative<T(!new)>(g: Group<T>) {
    forall a, b, c {:trigger AssociatesAt(g, a, b, c)} ::
      a in g.points && b in g.points && c in g.points ==> AssociatesAt(g, a, b, c)
  }

  ghost predicate ClosedAt<T(!new)>(g: Group<T>, a: T, b: T) {
    g.op(a, b) in g.points
  }

  ghost predicate IdentityAt<T(!new)>(g: Group<T>, a: T) {
    g.op(a, g.zero) == a && g.op(g.zero, a) == a
  }

  ghost predicate Closed<T(!new)>(g: Group<T>) {
    && g.zero in g.points
    && (forall a, b {:trigger ClosedAt(g, a, b)} :: a in g.points && b in g.points ==> ClosedAt(g, a, b))
    && (forall a {:trigger IdentityAt(g, a)} :: a in g.points ==> IdentityAt(g, a))
  }

  ghost predicate Laws<T(!new)>(g: Group<T>) {
    Associative(g) && Closed(g)
  }

  function Times<T>(g: Group<T>, k: nat, a: T): T {
    if k == 0 then g.zero else g.op(a, Times(g, k - 1, a))
  }

  lemma {:induction false} TimesStays<T(!new)>(g: Group<T>, k: nat, a: T)
    requires Closed(g) && a in g.points
    ensures Times(g, k, a) in g.points
  {
    if k > 0 {
      TimesStays(g, k - 1, a);
      assert ClosedAt(g, a, Times(g, k - 1, a));
    }
  }

  lemma {:induction false} TimesAdds<T(!new)>(g: Group<T>, j: nat, k: nat, a: T)
    requires Laws(g) && a in g.points
    ensures Times(g, j + k, a) == g.op(Times(g, j, a), Times(g, k, a))
  {
    TimesStays(g, k, a);
    if j == 0 {
      assert IdentityAt(g, Times(g, k, a));
    } else {
      TimesAdds(g, j - 1, k, a);
      TimesStays(g, j - 1, a);
      assert AssociatesAt(g, a, Times(g, j - 1, a), Times(g, k, a));
    }
  }

  lemma {:induction false} TimesTimes<T(!new)>(g: Group<T>, j: nat, k: nat, a: T)
    requires Laws(g) && a in g.points
    ensures Times(g, j * k, a) == Times(g, j, Times(g, k, a))
  {
    if j > 0 {
      TimesTimes(g, j - 1, k, a);
      TimesAdds(g, k, (j - 1) * k, a);
      assert k + (j - 1) * k == j * k;
    }
  }

  /** Multiplying, adding and multiplying again is one multiple. */
  lemma Combine<T(!new)>(g: Group<T>, i: nat, a: nat, j: nat, b: nat, p: T)
    requires Laws(g) && p in g.points
    ensures Times(g, i, g.op(Times(g, a, Times(g, j, p)), Times(g, b, p))) == Times(g, i * (a * j + b), p)
  {
    TimesTimes(g, a, j, p);
    TimesAdds(g, a * j, b, p);
    TimesTimes(g, i, a * j + b, p);
  }

  lemma {:induction false} TimesZero<T(!new)>(g: Group<T>, k: nat)
    requires Closed(g)
    ensures Times(g, k, g.zero) == g.zero
  {
    if k > 0 {
      TimesZero(g, k - 1);
      assert IdentityAt(g, g.zero);
    }
  }

  lemma TimesSmall<T(!new)>(g: Group<T>, a: T)
    requires Closed(g) && a in g.points
    ensures Times(g, 1, a) == a && Times(g, 2, a) == g.op(a, a)
  {
    assert IdentityAt(g, a);
    assert Times(g, 1, a) == g.op(a, Times(g, 0, a));
    assert Times(g, 2, a) == g.op(a, Times(g, 1, a));
  }

  /** n times any point is zero. */
  ghost predicate HasOrder<T(!new)>(g: Group<T>, n: nat) {
    forall a :: a in g.points ==> Times(g, n, a) == g.zero
  }

  lemma TimesMod<T(!new)>(g: Group<T>, n: nat, k: nat, a: T)
    requires Laws(g) && n > 0 && HasOrder(g, n) && a in g.points
    ensures Times(g, k, a) == Times(g, Mod(k, n), a)
  {
    var q, r := k / n, Mod(k, n);
    assert k == q * n + r;
    TimesAdds(g, q * n, r, a);
    TimesTimes(g, q, n, a);
    TimesZero(g, q);
    TimesStays(g, r, a);
    assert IdentityAt(g, Times(g, r, a));
  }

  /** Only the scalar modulo the order matters. */
  lemma TimesCongruent<T(!new)>(g: Group<T>, n: nat, j: nat, k: nat, a: T)
    requires Laws(g) && n > 0 && HasOrder(g, n) && a in g.points && Cong(j, k, n)
    ensures Times(g, j, a) == Times(g, k, a)
  {
    CongMod(j, k, n);
    TimesMod(g, n, j, a);
    TimesMod(g, n, k, a);
  }

  /** One turn of double-and-add leaves the sum as it was. */
  lemma Halve<T(!new)>(g: Group<T>, r: T, a: T, k: nat)
    requires Laws(g) && r in g.points && a in g.points && k > 0
    ensures g.op(if k % 2 == 1 then g.op(r, a) else r, Times(g, k / 2, g.op(a, a))) == g.op(r, Times(g, k, a))
  {
    var h := k / 2;
    TimesSmall(g, a);
    TimesTimes(g, h, 2, a);
    TimesStays(g, h * 2, a);
    if k % 2 == 1 {
      assert k == h * 2 + 1;
      assert Times(g, k, a) == g.op(a, Times(g, h * 2, a));
      assert AssociatesAt(g, r, a, Times(g, h * 2, a));
    } else {
      assert k == h * 2;
    }
  }

  /** Two elements that each bring a third to zero, one from either side, are one. */
  lemma OppositesAgree<T(!new)>(g: Group<T>, l: T, a: T, r: T)
    requires Laws(g) && l in g.points && a in g.points && r in g.points
    requires g.op(l, a) == g.zero && g.op(a, r) == g.zero
    ensures l == r
  {
    assert AssociatesAt(g, l, a, r) && IdentityAt(g, l) && IdentityAt(g, r);
  }
}
