/** A stable sort, and what it gives when the keys are exactly 0 .. n-1. */
module Sorting {
  ghost predicate TotalPreorder<T(!new)>(le: (T, T) -> bool) {
    && (forall a, b :: le(a, b) || le(b, a))
    && (forall a, b, c :: le(a, b) && le(b, c) ==> le(a, c))
  }

  ghost predicate Sorted<T>(s: seq<T>, le: (T, T) -> bool) {
    forall i, j :: 0 <= i < j < |s| ==> le(s[i], s[j])
  }

  /** Inserts x after the elements it does not precede. */
  function Insert<T>(x: T, s: seq<T>, le: (T, T) -> bool): seq<T> {
    if s == [] then [x]
    else if le(s[|s| - 1], x) then s + [x]
    else Insert(x, s[..|s| - 1], le) + [s[|s| - 1]]
  }

  function Sort<T>(s: seq<T>, le: (T, T) -> bool): seq<T> {
    if s == [] then [] else Insert(s[|s| - 1], Sort(s[..|s| - 1], le), le)
  }

  lemma {:induction false} InsertKeeps<T>(x: T, s: seq<T>, le: (T, T) -> bool)
    ensures multiset(Insert(x, s, le)) == multiset(s) + multiset{x}
    ensures |Insert(x, s, le)| == |s| + 1
  {
    if s != [] {
      var front, last := s[..|s| - 1], s[|s| - 1];
      assert s == front + [last];
      InsertKeeps(x, front, le);
    }
  }

  lemma {:induction false} SortKeeps<T>(s: seq<T>, le: (T, T) -> bool)
    ensures multiset(Sort(s, le)) == multiset(s) && |Sort(s, le)| == |s|
  {
    if s != [] {
      var front, last := s[..|s| - 1], s[|s| - 1];
      assert s == front + [last];
      SortKeeps(front, le);
      InsertKeeps(last, Sort(front, le), le);
    }
  }

  lemma MembersOf<T>(s: seq<T>, t: seq<T>)
    requires multiset(s) == multiset(t)
    ensures forall x :: x in s <==> x in t
  {
    forall x ensures x in s <==> x in t {
      assert x in s <==> x in multiset(s);
      assert x in t <==> x in multiset(t);
    }
  }

  lemma {:induction false} InsertSorts<T(!new)>(x: T, s: seq<T>, le: (T, T) -> bool)
    requires TotalPreorder(le) && Sorted(s, le)
    ensures Sorted(Insert(x, s, le), le)
  {
    if s != [] {
      var front, last := s[..|s| - 1], s[|s| - 1];
      if le(last, x) {
        assert forall i :: 0 <= i < |s| ==> le(s[i], last) && le(s[i], x) by {
          assert le(last, last);
        }
      } else {
        InsertSorts(x, front, le);
        InsertKeeps(x, front, le);
        var inner := Insert(x, front, le);
        forall i | 0 <= i < |inner| ensures le(inner[i], last) {
          assert inner[i] in multiset(front) + multiset{x};
        }
      }
    }
  }

  lemma {:induction false} SortSorts<T(!new)>(s: seq<T>, le: (T, T) -> bool)
    requires TotalPreorder(le)
    ensures Sorted(Sort(s, le), le)
  {
    if s != [] {
      SortSorts(s[..|s| - 1], le);
      InsertSorts(s[|s| - 1], Sort(s[..|s| - 1], le), le);
    }
  }

  /** Sorting commutes with a map that keeps the order. */
  lemma {:induction false} InsertMaps<A(!new), B>(x: A, s: seq<A>, t: seq<B>, le: (A, A) -> bool,
                                                        leB: (B, B) -> bool, f: A -> B)
    requires |t| == |s| && forall i :: 0 <= i < |s| ==> t[i] == f(s[i])
    requires forall a, b :: leB(f(a), f(b)) == le(a, b)
    ensures |Insert(f(x), t, leB)| == |Insert(x, s, le)|
    ensures forall i :: 0 <= i < |Insert(x, s, le)| ==> Insert(f(x), t, leB)[i] == f(Insert(x, s, le)[i])
  {
    if s != [] {
      InsertMaps(x, s[..|s| - 1], t[..|t| - 1], le, leB, f);
    }
  }

  lemma {:induction false} SortMaps<A(!new), B>(s: seq<A>, t: seq<B>, le: (A, A) -> bool,
                                                      leB: (B, B) -> bool, f: A -> B)
    requires |t| == |s| && forall i :: 0 <= i < |s| ==> t[i] == f(s[i])
    requires forall a, b :: leB(f(a), f(b)) == le(a, b)
    ensures |Sort(t, leB)| == |Sort(s, le)|
    ensures forall i :: 0 <= i < |Sort(s, le)| ==> Sort(t, leB)[i] == f(Sort(s, le)[i])
  {
    if s != [] {
      SortMaps(s[..|s| - 1], t[..|t| - 1], le, leB, f);
      InsertMaps(s[|s| - 1], Sort(s[..|s| - 1], le), Sort(t[..|t| - 1], leB), le, leB, f);
    }
  }

  ghost predicate NoTies<T>(s: seq<T>, le: (T, T) -> bool) {
    forall x, y :: x in s && y in s && le(x, y) && le(y, x) ==> x == y
  }

  /** Without ties, the members of a sequence fix its sorted order. */
  lemma {:induction false} SortedIsUnique<T(!new)>(s: seq<T>, t: seq<T>, le: (T, T) -> bool)
    requires Sorted(s, le) && Sorted(t, le) && NoTies(s, le) && multiset(s) == multiset(t)
    requires forall x :: le(x, x)
    ensures s == t
  {
    if s == [] {
      assert |t| == |multiset(t)| == 0;
    } else {
      var n := |s| - 1;
      assert t != [] by { assert s[n] in multiset(t); }
      SameLast(s, t, le);
      FrontsMatch(s, t);
      PrefixOrdered(s, n, le);
      PrefixOrdered(t, n, le);
      SortedIsUnique(s[..n], t[..n], le);
    }
  }

  lemma PrefixOrdered<T>(s: seq<T>, n: nat, le: (T, T) -> bool)
    requires Sorted(s, le) && n <= |s|
    ensures Sorted(s[..n], le)
    ensures NoTies(s, le) ==> NoTies(s[..n], le)
  {
  }

  lemma SameLast<T(!new)>(s: seq<T>, t: seq<T>, le: (T, T) -> bool)
    requires Sorted(s, le) && Sorted(t, le) && NoTies(s, le) && multiset(s) == multiset(t) && s != [] && t != []
    requires forall x :: le(x, x)
    ensures s[|s| - 1] == t[|t| - 1]
  {
    MembersOf(s, t);
    var a, b := s[|s| - 1], t[|t| - 1];
    assert a in t && b in s;
    var i :| 0 <= i < |t| && t[i] == a;
    var j :| 0 <= j < |s| && s[j] == b;
    assert le(a, b) && le(b, a);
  }

  lemma FrontsMatch<T>(s: seq<T>, t: seq<T>)
    requires s != [] && t != [] && s[|s| - 1] == t[|t| - 1] && multiset(s) == multiset(t)
    ensures multiset(s[..|s| - 1]) == multiset(t[..|t| - 1])
    ensures |s| == |t| && s == s[..|s| - 1] + [s[|s| - 1]] && t == t[..|t| - 1] + [t[|t| - 1]]
  {
    assert s == s[..|s| - 1] + [s[|s| - 1]] && t == t[..|t| - 1] + [t[|t| - 1]];
    assert multiset(s[..|s| - 1]) == multiset(s) - multiset{s[|s| - 1]};
    assert multiset(t[..|t| - 1]) == multiset(t) - multiset{t[|t| - 1]};
    assert |s| == |multiset(s)| == |multiset(t)| == |t|;
  }

  ghost predicate NoRepeats<T>(s: seq<T>) {
    forall a, b :: 0 <= a < b < |s| ==> s[a] != s[b]
  }

  lemma {:induction false} CountsAtMostOne<T>(s: seq<T>, x: T)
    requires NoRepeats(s)
    ensures multiset(s)[x] <= 1
  {
    if s != [] {
      var front, last := s[..|s| - 1], s[|s| - 1];
      assert s == front + [last];
      CountsAtMostOne(front, x);
      if last == x { assert x !in front; }
    }
  }

  /** Without repeats, the same members mean the same multiset. */
  lemma SameMembers<T>(s: seq<T>, t: seq<T>)
    requires NoRepeats(s) && NoRepeats(t) && forall x :: x in s <==> x in t
    ensures multiset(s) == multiset(t)
  {
    forall x ensures multiset(s)[x] == multiset(t)[x] {
      CountsAtMostOne(s, x);
      CountsAtMostOne(t, x);
      assert x in s <==> x in multiset(s);
      assert x in t <==> x in multiset(t);
    }
  }

  lemma RepeatCounts<T>(s: seq<T>, a: nat, b: nat)
    requires a < b < |s| && s[a] == s[b]
    ensures multiset(s)[s[a]] >= 2
  {
    assert s == s[..b] + [s[b]] + s[b + 1..];
    assert s[a] in multiset(s[..b]) by { assert s[..b][a] == s[a]; }
  }

  lemma SortHasNoRepeats<T>(s: seq<T>, le: (T, T) -> bool)
    requires NoRepeats(s)
    ensures NoRepeats(Sort(s, le))
  {
    SortKeeps(s, le);
    var t := Sort(s, le);
    forall a, b | 0 <= a < b < |t| ensures t[a] != t[b] {
      CountsAtMostOne(s, t[a]);
      if t[a] == t[b] { RepeatCounts(t, a, b); }
    }
  }

  /** Distinct keys below the length, in ascending order, are 0, 1, 2, … */
  lemma {:induction false} AscendingFills(keys: seq<int>, i: nat)
    requires forall a, b :: 0 <= a < b < |keys| ==> keys[a] < keys[b]
    requires forall a :: 0 <= a < |keys| ==> 0 <= keys[a] < |keys|
    requires i < |keys|
    ensures keys[i] == i
  {
    AtLeast(keys, i);
    AtMost(keys, i);
  }

  lemma {:induction false} AtLeast(keys: seq<int>, i: nat)
    requires forall a, b :: 0 <= a < b < |keys| ==> keys[a] < keys[b]
    requires forall a :: 0 <= a < |keys| ==> 0 <= keys[a]
    requires i < |keys|
    ensures i <= keys[i]
  {
    if i > 0 { AtLeast(keys, i - 1); }
  }

  lemma {:induction false} AtMost(keys: seq<int>, i: nat)
    requires forall a, b :: 0 <= a < b < |keys| ==> keys[a] < keys[b]
    requires forall a :: 0 <= a < |keys| ==> keys[a] < |keys|
    requires i < |keys|
    ensures keys[i] <= i
    decreases |keys| - i
  {
    if i + 1 < |keys| { AtMost(keys, i + 1); }
  }

  /** A set within another of the same size is that set. */
  lemma SameSize<T>(a: set<T>, b: set<T>)
    requires a <= b && |a| == |b|
    ensures a == b
  {
    var rest := b - a;
    assert b == a + rest && |b| == |a| + |rest|;
  }
}
