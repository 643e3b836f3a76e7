/** Fermat's little theorem: over a prime m, a^m is a. */
module Fermat {
  import opened Modular
  import Sorting

  function Product(s: seq<int>): int {
    if s == [] then 1 else Product(s[..|s| - 1]) * s[|s| - 1]
  }

  lemma {:induction false} ProductWithout(s: seq<int>, i: nat)
    requires i < |s|
    ensures Product(s) == Product(s[..i] + s[i + 1..]) * s[i]
  {
    var n := |s| - 1;
    var rest := s[..i] + s[i + 1..];
    if i == n {
      assert rest == s[..n];
    } else {
      ProductWithout(s[..n], i);
      assert s[..n][..i] == s[..i] && rest[..|rest| - 1] == s[..n][..i] + s[..n][i + 1..];
      var inner := Product(s[..n][..i] + s[..n][i + 1..]);
      assert inner * s[i] * s[n] == inner * s[n] * s[i];
    }
  }

  /** A product does not depend on the order of its factors. */
  lemma {:induction false} ProductPermutes(s: seq<int>, t: seq<int>)
    requires multiset(s) == multiset(t)
    ensures Product(s) == Product(t)
  {
    if s == [] {
      assert |multiset(t)| == 0;
    } else {
      var n, x := |s| - 1, s[|s| - 1];
      assert s == s[..n] + [x];
      assert x in multiset(t);
      var i :| 0 <= i < |t| && t[i] == x;
      var rest := t[..i] + t[i + 1..];
      assert t == t[..i] + [x] + t[i + 1..];
      assert multiset(rest) == multiset(t) - multiset{x};
      assert multiset(s[..n]) == multiset(s) - multiset{x};
      ProductPermutes(s[..n], rest);
      ProductWithout(t, i);
    }
  }

  // ----- The multiples of a are the numbers themselves -----------------------

  function Upto(n: nat): (s: seq<int>)
    ensures |s| == n && forall i :: 0 <= i < n ==> s[i] == i + 1
  {
    seq(n, i => i + 1)
  }

  function Multiples(a: int, n: nat, m: Modulus): (s: seq<int>)
    ensures |s| == n && forall i :: 0 <= i < n ==> s[i] == Mod(a * (i + 1), m)
  {
    seq(n, i => Mod(a * (i + 1), m))
  }

  ghost predicate Distinct(s: seq<int>) {
    forall i, j :: 0 <= i < j < |s| ==> s[i] != s[j]
  }

  function Members(s: seq<int>): set<int> {
    set x | x in s
  }

  lemma {:induction false} DistinctMembers(s: seq<int>)
    requires Distinct(s)
    ensures |Members(s)| == |s| && forall x :: multiset(s)[x] == if x in s then 1 else 0
  {
    if s == [] {
      assert Members(s) == {};
    } else {
      var front, last := s[..|s| - 1], s[|s| - 1];
      assert s == front + [last];
      DistinctMembers(front);
      assert Members(s) == Members(front) + {last} && last !in front;
    }
  }

  /** As many distinct numbers of 1..n as there are: all of them. */
  lemma DistinctIsPermutation(s: seq<int>, n: nat)
    requires Distinct(s) && |s| == n && forall x :: x in s ==> 0 < x <= n
    ensures multiset(s) == multiset(Upto(n))
  {
    var all := Upto(n);
    DistinctMembers(s);
    DistinctMembers(all);
    forall x | 0 < x <= n ensures x in all { assert all[x - 1] == x; }
    Sorting.SameSize(Members(s), Members(all));
    forall x ensures multiset(s)[x] == multiset(all)[x] {
      assert x in s <==> x in Members(s);
      assert x in all <==> x in Members(all);
    }
  }

  lemma MultiplesDiffer(a: int, m: Modulus, i: nat, j: nat)
    requires Prime(m) && Nonzero(a, m) && 0 < i < j < m
    ensures Mod(a * i, m) != Mod(a * j, m)
  {
    if Mod(a * i, m) == Mod(a * j, m) {
      CongMod(a * i, a * j, m);
      assert a * i == i * a && a * j == j * a;
      Cancel(i, j, a, m);
      var k := Witness(i, j, m);
      NoSmallMultiple(m, k, i - j);
    }
  }

  lemma MultipleNonzero(a: int, m: Modulus, i: nat)
    requires Prime(m) && Nonzero(a, m) && 0 < i < m
    ensures 0 < Mod(a * i, m) < m
  {
    SmallNonzero(i, m);
    NonzeroProduct(a, i, m);
    NonzeroMod(a * i, m);
  }

  lemma SmallNonzero(i: nat, m: Modulus)
    requires 0 < i < m
    ensures Nonzero(i, m)
  {
    ModSmall(i, m);
    NonzeroMod(i, m);
  }

  lemma MultiplesPermute(a: int, m: Modulus)
    requires Prime(m) && Nonzero(a, m)
    ensures multiset(Multiples(a, m - 1, m)) == multiset(Upto(m - 1))
  {
    var s := Multiples(a, m - 1, m);
    forall i, j | 0 <= i < j < |s| ensures s[i] != s[j] { MultiplesDiffer(a, m, i + 1, j + 1); }
    forall x | x in s ensures 0 < x <= m - 1 {
      var i :| 0 <= i < |s| && s[i] == x;
      MultipleNonzero(a, m, i + 1);
    }
    DistinctIsPermutation(s, m - 1);
  }

  // ----- Their product, both ways -------------------------------------------

  lemma {:induction false} ProductOfMultiples(a: int, n: nat, m: Modulus)
    ensures Cong(Product(Multiples(a, n, m)), Pow(a, n) * Product(Upto(n)), m)
  {
    if n == 0 {
      CongSelf(1, m);
    } else {
      var before, power, product := Product(Multiples(a, n - 1, m)), Pow(a, n - 1), Product(Upto(n - 1));
      ProductOfMultiples(a, n - 1, m);
      assert Multiples(a, n, m)[..n - 1] == Multiples(a, n - 1, m) && Upto(n)[..n - 1] == Upto(n - 1);
      ModCong(a * n, m);
      CongMul(before, power * product, Mod(a * n, m), a * n, m);
      Regroup(power, product, a, n);
    }
  }

  lemma Regroup(p: int, q: int, a: int, n: int)
    ensures p * q * (a * n) == a * p * (q * n)
  {
    assert p * q * (a * n) == p * (q * (a * n)) == p * (a * (q * n)) == a * p * (q * n);
  }

  lemma {:induction false} ProductNonzero(n: nat, m: Modulus)
    requires Prime(m) && n < m
    ensures Nonzero(Product(Upto(n)), m)
  {
    if n == 0 {
      SmallNonzero(1, m);
    } else {
      ProductNonzero(n - 1, m);
      assert Upto(n)[..n - 1] == Upto(n - 1);
      SmallNonzero(n, m);
      NonzeroProduct(Product(Upto(n - 1)), n, m);
    }
  }

  /** The multiples a, 2a, .. (m-1)a are 1, 2, .. m-1 in some order, so their
      product is both (m-1)! and a^(m-1) times that. */
  lemma PowerIsOne(a: int, m: Modulus)
    requires Prime(m) && Nonzero(a, m)
    ensures Cong(Pow(a, m - 1), 1, m)
  {
    var all := Product(Upto(m - 1));
    MultiplesPermute(a, m);
    ProductPermutes(Multiples(a, m - 1, m), Upto(m - 1));
    ProductOfMultiples(a, m - 1, m);
    ProductNonzero(m - 1, m);
    CongSym(all, Pow(a, m - 1) * all, m);
    assert 1 * all == all;
    Cancel(Pow(a, m - 1), 1, all, m);
  }

  lemma FermatOf(a: int, m: Modulus)
    requires Prime(m)
    ensures Cong(Pow(a, m), a, m)
  {
    var power := Pow(a, m - 1);
    assert Pow(a, m) == a * power;
    CongSelf(a, m);
    if Nonzero(a, m) {
      PowerIsOne(a, m);
      CongMul(a, a, power, 1, m);
    } else {
      CongSelf(power, m);
      CongMul(a, 0, power, power, m);
      CongSym(a, 0, m);
      CongTrans(a * power, 0, a, m);
    }
  }
}
