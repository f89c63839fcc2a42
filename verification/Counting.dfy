/** Counting items by a name derived from each, and why the counts of distinct
    names that cover every item sum to the number of items. */
module Counting {
  import opened Texts
  import opened Sorting

  function CountBy<X>(items: seq<X>, key: X -> Text, name: Text): nat {
    if items == [] then 0
    else CountBy(items[..|items| - 1], key, name) + (if key(items[|items| - 1]) == name then 1 else 0)
  }

  function Total(names: seq<Text>, count: Text -> nat): nat {
    if names == [] then 0 else count(names[0]) + Total(names[1..], count)
  }

  lemma {:induction false} TotalOfOneMore(names: seq<Text>, x: Text, before: Text -> nat, after: Text -> nat)
    requires Distinct(names)
    requires forall n :: after(n) == before(n) + (if n == x then 1 else 0)
    ensures Total(names, after) == Total(names, before) + (if x in names then 1 else 0)
  {
    if names != [] {
      TotalOfOneMore(names[1..], x, before, after);
      assert x in names <==> x == names[0] || x in names[1..];
    }
  }

  lemma {:induction false} TotalOfNone(names: seq<Text>, count: Text -> nat)
    requires forall n :: count(n) == 0
    ensures Total(names, count) == 0
  {
    if names != [] {
      TotalOfNone(names[1..], count);
    }
  }

  /** Nothing is lost and nothing counted twice. */
  lemma {:induction false} CountsSum<X>(items: seq<X>, key: X -> Text, names: seq<Text>)
    requires Distinct(names) && forall x :: x in items ==> key(x) in names
    ensures Total(names, n => CountBy(items, key, n)) == |items|
  {
    var after := (n: Text) => CountBy(items, key, n);
    if items == [] {
      TotalOfNone(names, after);
    } else {
      var front, last := items[..|items| - 1], items[|items| - 1];
      var before := (n: Text) => CountBy(front, key, n);
      assert last in items;
      CountsSum(front, key, names);
      TotalOfOneMore(names, key(last), before, after);
    }
  }

  /** The map a counting loop fills: exactly the names that occur, with their counts. */
  ghost predicate Tallies<X>(counts: map<Text, nat>, items: seq<X>, key: X -> Text) {
    && (forall n :: n in counts <==> CountBy(items, key, n) > 0)
    && (forall n :: n in counts ==> counts[n] == CountBy(items, key, n))
  }

  lemma CountStep<X>(items: seq<X>, key: X -> Text, k: nat)
    requires k < |items|
    ensures forall n ::
      CountBy(items[..k + 1], key, n) == CountBy(items[..k], key, n) + (if key(items[k]) == n then 1 else 0)
  {
    assert items[..k + 1][..k] == items[..k];
  }

  /** `counts[name] = counts.get(name, 0) + 1`. */
  function Bump(counts: map<Text, nat>, name: Text): map<Text, nat> {
    counts[name := (if name in counts then counts[name] else 0) + 1]
  }

  lemma TallyStep<X>(counts: map<Text, nat>, items: seq<X>, key: X -> Text, k: nat)
    requires k < |items| && Tallies(counts, items[..k], key)
    ensures Tallies(Bump(counts, key(items[k])), items[..k + 1], key)
  {
    CountStep(items, key, k);
  }

  method Tally<X>(items: seq<X>, key: X -> Text) returns (counts: map<Text, nat>)
    ensures Tallies(counts, items, key)
  {
    counts := map[];
    for k := 0 to |items|
      invariant Tallies(counts, items[..k], key)
    {
      TallyStep(counts, items, key, k);
      counts := Bump(counts, key(items[k]));
    }
    assert items[..|items|] == items;
  }
}
