/** Nearest-rank percentiles with Python's half-to-even `round`, over exact reals. */
module Percentiles {
  import opened Sorting

  function RoundHalfEven(x: real): int {
    var low := x.Floor;
    var part := x - low as real;
    if part < 0.5 || (part == 0.5 && low % 2 == 0) then low else low + 1
  }

  /** No integer is nearer, and of two equally near ones the even one is taken; this pins the result. */
  lemma RoundingMeans(x: real, n: int)
    ensures RoundHalfEven(x) == n <==>
      (n as real - 0.5 < x < n as real + 0.5)
      || ((x == n as real - 0.5 || x == n as real + 0.5) && n % 2 == 0)
  {
    var low := x.Floor;
    assert low as real <= x < (low + 1) as real;
    if n as real - 0.5 <= x <= n as real + 0.5 {
      assert (n - 1) as real < (low + 1) as real && (low as real) < (n + 1) as real;
      assert n == low || n == low + 1;
    }
  }

  lemma RoundingIsMonotone(x: real, y: real)
    requires x <= y
    ensures RoundHalfEven(x) <= RoundHalfEven(y)
  {
    var m, n := x.Floor, y.Floor;
    assert (m as real) < (n + 1) as real;
    assert m <= n;
  }

  predicate RealLeq(a: real, b: real) { a <= b }

  /** `max(0, min(last, index))`. */
  function Clamp(index: int, last: nat): (r: nat)
    ensures r <= last
  {
    var capped := if index < last then index else last;
    if capped < 0 then 0 else capped
  }

  function Scaled(fraction: real, last: nat): real { fraction * last as real }

  /** The rank `fraction` picks among `n` sorted values. */
  function Rank(n: nat, fraction: real): (r: nat)
    requires n > 0
    ensures r < n
  {
    Clamp(RoundHalfEven(Scaled(fraction, n - 1)), n - 1)
  }

  /** The rank is the whole number nearest to `fraction` of the way from the first to the last value,
      the even one of two, and the nearest end where that lies outside. */
  lemma RankMeans(n: nat, fraction: real, r: nat)
    requires n > 0 && r < n
    ensures var x := Scaled(fraction, n - 1);
      Rank(n, fraction) == r <==>
        || (r as real - 0.5 < x < r as real + 0.5)
        || ((x == r as real - 0.5 || x == r as real + 0.5) && r % 2 == 0)
        || (r == 0 && x < 0.0) || (r == n - 1 && x > (n - 1) as real)
  {
    ClampMeans(Scaled(fraction, n - 1), n - 1, r);
  }

  lemma ClampMeans(x: real, last: nat, r: nat)
    requires r <= last
    ensures Clamp(RoundHalfEven(x), last) == r <==>
      || (r as real - 0.5 < x < r as real + 0.5)
      || ((x == r as real - 0.5 || x == r as real + 0.5) && r % 2 == 0)
      || (r == 0 && x < 0.0) || (r == last && x > last as real)
  {
    var m := RoundHalfEven(x);
    RoundingMeans(x, r);
    RoundingMeans(x, m);
    Nearest(x, m, 0);
    Nearest(x, m, last);
    Nearest(x, m, r);
  }

  /** Rounding keeps to the side of a whole number that a value is on. */
  lemma Nearest(x: real, m: int, n: int)
    requires m == RoundHalfEven(x)
    ensures (x <= n as real ==> m <= n) && (x >= n as real ==> m >= n)
  {
    RoundingMeans(n as real, n);
    if x <= n as real {
      RoundingIsMonotone(x, n as real);
    }
    if x >= n as real {
      RoundingIsMonotone(n as real, x);
    }
  }

  function Percentile(values: seq<real>, fraction: real): real {
    if values == [] then 0.0
    else
      SortPermutes(values, RealLeq);
      Sort(values, RealLeq)[Rank(|values|, fraction)]
  }

  function AtMost(values: seq<real>, limit: real): nat {
    if values == [] then 0 else (if values[0] <= limit then 1 else 0) + AtMost(values[1..], limit)
  }

  lemma {:induction false} AtMostInsert(x: real, s: seq<real>, limit: real)
    ensures AtMost(Insert(x, s, RealLeq), limit) == (if x <= limit then 1 else 0) + AtMost(s, limit)
  {
    if s == [] || RealLeq(x, s[0]) {
      assert ([x] + s)[1..] == s;
    } else {
      AtMostInsert(x, s[1..], limit);
      assert ([s[0]] + Insert(x, s[1..], RealLeq))[1..] == Insert(x, s[1..], RealLeq);
    }
  }

  lemma {:induction false} AtMostSorted(values: seq<real>, limit: real)
    ensures AtMost(Sort(values, RealLeq), limit) == AtMost(values, limit)
  {
    if values != [] {
      AtMostSorted(values[1..], limit);
      AtMostInsert(values[0], Sort(values[1..], RealLeq), limit);
    }
  }

  lemma {:induction false} RankInOrder(s: seq<real>, k: nat, limit: real)
    requires Ordered(s, RealLeq) && k < |s|
    ensures s[k] <= limit <==> AtMost(s, limit) > k
    decreases |s|
  {
    if k > 0 {
      RankInOrder(s[1..], k - 1, limit);
      assert RealLeq(s[0], s[k]);
    } else if s[0] > limit {
      assert forall i :: 0 < i < |s| ==> RealLeq(s[0], s[i]);
      NoneAtMost(s, limit);
    }
  }

  lemma {:induction false} NoneAtMost(s: seq<real>, limit: real)
    requires forall i :: 0 <= i < |s| ==> s[i] > limit
    ensures AtMost(s, limit) == 0
  {
    if s != [] {
      NoneAtMost(s[1..], limit);
    }
  }

  lemma SortedReals(values: seq<real>)
    ensures Ordered(Sort(values, RealLeq), RealLeq)
    ensures |Sort(values, RealLeq)| == |values|
    ensures forall x :: x in Sort(values, RealLeq) <==> x in values
  {
    SortOrdered(values, RealLeq);
    SortPermutes(values, RealLeq);
  }

  /** What a percentile gate asks, without sorting: a percentile is within a
      limit exactly when more than its rank of the values are. */
  lemma PercentileGate(values: seq<real>, fraction: real, limit: real)
    requires values != []
    ensures Percentile(values, fraction) <= limit <==> AtMost(values, limit) > Rank(|values|, fraction)
  {
    SortedReals(values);
    AtMostSorted(values, limit);
    RankInOrder(Sort(values, RealLeq), Rank(|values|, fraction), limit);
  }

  lemma PercentileIsElement(values: seq<real>, fraction: real)
    requires values != []
    ensures Percentile(values, fraction) in values
  {
    SortedReals(values);
  }

  lemma PercentileIgnoresOrder(a: seq<real>, b: seq<real>, fraction: real)
    requires multiset(a) == multiset(b)
    ensures Percentile(a, fraction) == Percentile(b, fraction)
  {
    assert |a| == |multiset(a)| == |multiset(b)| == |b|;
    SortIgnoresOrder(a, b, RealLeq);
  }

  lemma ScalingKeepsOrder(f: real, g: real, last: nat)
    requires f <= g
    ensures Scaled(f, last) <= Scaled(g, last)
  {
    assert (g - f) * last as real >= 0.0;
  }

  lemma RankIsMonotone(n: nat, f: real, g: real)
    requires n > 0 && f <= g
    ensures Rank(n, f) <= Rank(n, g)
  {
    ScalingKeepsOrder(f, g, n - 1);
    RoundingIsMonotone(Scaled(f, n - 1), Scaled(g, n - 1));
  }

  lemma PercentileIsMonotone(values: seq<real>, f: real, g: real)
    requires f <= g
    ensures Percentile(values, f) <= Percentile(values, g)
  {
    if values != [] {
      SortedReals(values);
      RankIsMonotone(|values|, f, g);
      var s := Sort(values, RealLeq);
      var i, j := Rank(|values|, f), Rank(|values|, g);
      assert i < j ==> RealLeq(s[i], s[j]);
    }
  }

  /** `max(values)` and `min(values)` are the percentiles at 1 and 0. */
  lemma ExtremePercentiles(values: seq<real>, x: real)
    requires x in values
    ensures Percentile(values, 0.0) <= x <= Percentile(values, 1.0)
  {
    SortedReals(values);
    var s := Sort(values, RealLeq);
    var i :| 0 <= i < |s| && s[i] == x;
    assert ((|s| - 1) as real).Floor == |s| - 1;
    assert Scaled(0.0, |s| - 1) == 0.0 && Scaled(1.0, |s| - 1) == (|s| - 1) as real;
    assert i < |s| - 1 ==> RealLeq(s[i], s[|s| - 1]);
    assert 0 < i ==> RealLeq(s[0], s[i]);
  }
}
