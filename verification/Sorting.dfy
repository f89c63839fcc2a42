/** `sorted` as a stable insertion sort over a total preorder, with the facts
    its callers need: a permutation, in order, and unique where the order is
    antisymmetric on the elements. */
module Sorting {
  ghost predicate TotalPreorder<T(!new)>(leq: (T, T) -> bool) {
    && (forall x, y :: leq(x, y) || leq(y, x))
    && (forall x, y, z :: leq(x, y) && leq(y, z) ==> leq(x, z))
  }

  predicate Ordered<T>(s: seq<T>, leq: (T, T) -> bool) {
    forall i, j :: 0 <= i < j < |s| ==> leq(s[i], s[j])
  }

  /** Puts `x` before the first element it may precede: equal keys keep their order. */
  function Insert<T>(x: T, s: seq<T>, leq: (T, T) -> bool): seq<T> {
    if s == [] then [x]
    else if leq(x, s[0]) then [x] + s
    else [s[0]] + Insert(x, s[1..], leq)
  }

  function Sort<T>(s: seq<T>, leq: (T, T) -> bool): seq<T> {
    if s == [] then [] else Insert(s[0], Sort(s[1..], leq), leq)
  }

  lemma {:induction false} InsertPermutes<T>(x: T, s: seq<T>, leq: (T, T) -> bool)
    ensures multiset(Insert(x, s, leq)) == multiset{x} + multiset(s)
  {
    if s != [] {
      assert s == [s[0]] + s[1..];
      if !leq(x, s[0]) {
        InsertPermutes(x, s[1..], leq);
      }
    }
  }

  lemma {:induction false} SortPermutes<T>(s: seq<T>, leq: (T, T) -> bool)
    ensures multiset(Sort(s, leq)) == multiset(s)
    ensures |Sort(s, leq)| == |s|
    ensures forall x :: x in Sort(s, leq) <==> x in s
  {
    if s != [] {
      assert s == [s[0]] + s[1..];
      SortPermutes(s[1..], leq);
      InsertPermutes(s[0], Sort(s[1..], leq), leq);
    }
    assert |multiset(Sort(s, leq))| == |multiset(s)|;
    forall x ensures x in Sort(s, leq) <==> x in s {
      assert x in multiset(Sort(s, leq)) <==> x in multiset(s);
    }
  }

  lemma {:induction false} InsertOrdered<T(!new)>(x: T, s: seq<T>, leq: (T, T) -> bool)
    requires TotalPreorder(leq) && Ordered(s, leq)
    ensures Ordered(Insert(x, s, leq), leq)
  {
    if s != [] && !leq(x, s[0]) {
      InsertOrdered(x, s[1..], leq);
      var r := Insert(x, s[1..], leq);
      forall j | 0 <= j < |r| ensures leq(s[0], r[j]) {
        InsertPermutes(x, s[1..], leq);
        assert r[j] in multiset(r);
        assert r[j] == x || r[j] in s[1..];
      }
    }
  }

  lemma {:induction false} SortOrdered<T(!new)>(s: seq<T>, leq: (T, T) -> bool)
    requires TotalPreorder(leq)
    ensures Ordered(Sort(s, leq), leq)
  {
    if s != [] {
      SortOrdered(s[1..], leq);
      InsertOrdered(s[0], Sort(s[1..], leq), leq);
    }
  }

  ghost predicate AntisymmetricOn<T>(s: seq<T>, leq: (T, T) -> bool) {
    forall x, y :: x in s && y in s && leq(x, y) && leq(y, x) ==> x == y
  }

  lemma FirstIsLeast<T>(a: seq<T>, leq: (T, T) -> bool, x: T)
    requires Ordered(a, leq) && x in a && leq(a[0], a[0])
    ensures leq(a[0], x)
  {
  }

  lemma TailBag<T>(a: seq<T>)
    requires a != []
    ensures multiset(a[1..]) == multiset(a) - multiset{a[0]}
  {
    assert a == [a[0]] + a[1..];
  }

  lemma SameLength<T>(a: seq<T>, b: seq<T>)
    requires multiset(a) == multiset(b)
    ensures |a| == |b| && forall x :: x in a <==> x in b
  {
    assert |a| == |multiset(a)| == |multiset(b)| == |b|;
    forall x ensures x in a <==> x in b {
      assert x in multiset(a) <==> x in multiset(b);
    }
  }

  lemma SameFirst<T(!new)>(a: seq<T>, b: seq<T>, leq: (T, T) -> bool)
    requires TotalPreorder(leq) && Ordered(a, leq) && Ordered(b, leq)
    requires multiset(a) == multiset(b) && AntisymmetricOn(a, leq) && a != [] && b != []
    ensures a[0] == b[0] && multiset(a[1..]) == multiset(b[1..])
  {
    SameLength(a, b);
    FirstIsLeast(a, leq, b[0]);
    FirstIsLeast(b, leq, a[0]);
    TailBag(a);
    TailBag(b);
  }

  lemma TailAntisymmetric<T>(a: seq<T>, leq: (T, T) -> bool)
    requires AntisymmetricOn(a, leq) && a != []
    ensures AntisymmetricOn(a[1..], leq)
  {
    assert forall x :: x in a[1..] ==> x in a;
  }

  /** An ordered arrangement is determined by the elements alone. */
  lemma {:induction false} OrderedUnique<T(!new)>(a: seq<T>, b: seq<T>, leq: (T, T) -> bool)
    requires TotalPreorder(leq) && Ordered(a, leq) && Ordered(b, leq)
    requires multiset(a) == multiset(b) && AntisymmetricOn(a, leq)
    ensures a == b
  {
    SameLength(a, b);
    if a != [] {
      SameFirst(a, b, leq);
      TailAntisymmetric(a, leq);
      OrderedUnique(a[1..], b[1..], leq);
      assert a == [a[0]] + a[1..] && b == [b[0]] + b[1..];
    }
  }

  /** Sorting sees a bag, not a sequence. */
  lemma SortIgnoresOrder<T(!new)>(a: seq<T>, b: seq<T>, leq: (T, T) -> bool)
    requires TotalPreorder(leq) && AntisymmetricOn(a, leq)
    ensures Sort(a, leq) == Sort(b, leq) <==> multiset(a) == multiset(b)
  {
    SortPermutes(a, leq);
    SortPermutes(b, leq);
    SortOrdered(a, leq);
    SortOrdered(b, leq);
    if multiset(a) == multiset(b) {
      OrderedUnique(Sort(a, leq), Sort(b, leq), leq);
    }
  }

  // ---- stability ----

  /** `first`, and `second` between elements `first` cannot tell apart. */
  predicate Lexicographic<T>(first: (T, T) -> bool, second: (T, T) -> bool, x: T, y: T) {
    first(x, y) && (!first(y, x) || second(x, y))
  }

  ghost predicate OrderedThen<T>(s: seq<T>, first: (T, T) -> bool, second: (T, T) -> bool) {
    forall i, j :: 0 <= i < j < |s| ==> Lexicographic(first, second, s[i], s[j])
  }

  lemma {:induction false} InsertIsStable<T(!new)>(x: T, s: seq<T>, first: (T, T) -> bool, second: (T, T) -> bool)
    requires TotalPreorder(first) && OrderedThen(s, first, second)
    requires forall y :: y in s ==> second(x, y)
    ensures OrderedThen(Insert(x, s, first), first, second)
  {
    if s != [] && !first(x, s[0]) {
      InsertIsStable(x, s[1..], first, second);
      var r := Insert(x, s[1..], first);
      forall j | 0 <= j < |r| ensures Lexicographic(first, second, s[0], r[j]) {
        InsertPermutes(x, s[1..], first);
        assert r[j] in multiset(r);
        if r[j] != x {
          var k :| 0 <= k < |s[1..]| && s[1..][k] == r[j];
          assert s[k + 1] == r[j];
        }
      }
    } else if s != [] {
      assert first(x, s[0]);
      forall j | 0 <= j < |s| ensures Lexicographic(first, second, x, s[j]) {
        assert s[j] in s;
        assert j > 0 ==> Lexicographic(first, second, s[0], s[j]);
      }
    }
  }

  /** Sorting keeps the order that was there among elements it does not distinguish. */
  lemma {:induction false} SortIsStable<T(!new)>(s: seq<T>, first: (T, T) -> bool, second: (T, T) -> bool)
    requires TotalPreorder(first) && Ordered(s, second)
    ensures OrderedThen(Sort(s, first), first, second)
  {
    if s != [] {
      SortIsStable(s[1..], first, second);
      SortPermutes(s[1..], first);
      forall y | y in Sort(s[1..], first) ensures second(s[0], y) {
        assert y in s[1..];
      }
      InsertIsStable(s[0], Sort(s[1..], first), first, second);
    }
  }

  // ---- sequences without repetition ----

  predicate Distinct<T(==)>(s: seq<T>) {
    forall i, j :: 0 <= i < j < |s| ==> s[i] != s[j]
  }

  lemma {:induction false} DistinctIsBag<T>(s: seq<T>)
    ensures Distinct(s) <==> forall x :: x in s ==> multiset(s)[x] == 1
  {
    if s != [] {
      var rest := s[1..];
      assert s == [s[0]] + rest;
      DistinctIsBag(rest);
      assert forall i :: 0 <= i < |rest| ==> rest[i] == s[i + 1];
      assert forall x :: x in s <==> x == s[0] || x in rest;
      assert Distinct(s) <==> s[0] !in rest && Distinct(rest);
    }
  }

  lemma DistinctSameBag<T>(a: seq<T>, b: seq<T>)
    requires Distinct(a) && Distinct(b)
    requires forall x :: x in a <==> x in b
    ensures multiset(a) == multiset(b)
  {
    DistinctIsBag(a);
    DistinctIsBag(b);
    forall x ensures multiset(a)[x] == multiset(b)[x] {
      assert x in a <==> x in multiset(a);
      assert x in b <==> x in multiset(b);
    }
  }
}
