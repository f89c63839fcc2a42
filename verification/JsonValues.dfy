/** Float-free JSON values as Python holds them: a dict keeps its insertion
    order, and what it means does not depend on it. */
module JsonValues {
  import opened Texts
  import opened Sorting

  datatype Member = Member(key: Text, value: Json)

  datatype Json =
    | Null
    | Bool(b: bool)
    | Int(n: int)
    | Str(s: Text)
    | Arr(items: seq<Json>)
    | Obj(members: seq<Member>)

  predicate DistinctKeys(ms: seq<Member>) {
    forall i, j :: 0 <= i < j < |ms| ==> ms[i].key != ms[j].key
  }

  /** What a Python dict guarantees of itself, at every level. */
  predicate WellFormed(v: Json) {
    match v
    case Arr(items) => forall i :: 0 <= i < |items| ==> WellFormed(items[i])
    case Obj(ms) =>
      DistinctKeys(ms) && forall i :: 0 <= i < |ms| ==> WellFormed(ms[i].value)
    case _ => true
  }

  // ---- what a value means: dicts are maps ----

  datatype Value =
    | VNull
    | VBool(b: bool)
    | VInt(n: int)
    | VStr(s: Text)
    | VArr(items: seq<Value>)
    | VObj(members: map<Text, Value>)

  function Meaning(v: Json): Value {
    match v
    case Null => VNull
    case Bool(b) => VBool(b)
    case Int(n) => VInt(n)
    case Str(s) => VStr(s)
    case Arr(items) => VArr(seq(|items|, i requires 0 <= i < |items| => Meaning(items[i])))
    case Obj(ms) => VObj(AsMap(ms))
  }

  /** A dict built from its pairs in order: a later pair wins. */
  function AsMap(ms: seq<Member>): map<Text, Value> {
    if ms == [] then map[]
    else map[ms[0].key := Meaning(ms[0].value)] + AsMap(ms[1..])
  }

  lemma {:induction false} AsMapKeys(ms: seq<Member>)
    ensures forall k :: k in AsMap(ms) <==> exists i :: 0 <= i < |ms| && ms[i].key == k
  {
    if ms != [] {
      var rest := ms[1..];
      AsMapKeys(rest);
      forall k ensures k in AsMap(ms) <==> exists i :: 0 <= i < |ms| && ms[i].key == k {
        if k in AsMap(rest) {
          var i :| 0 <= i < |rest| && rest[i].key == k;
          assert ms[i + 1].key == k;
        }
        if i :| 0 <= i < |ms| && ms[i].key == k {
          if i > 0 {
            assert rest[i - 1].key == k;
          }
        }
      }
    }
  }

  lemma {:induction false} AsMapAt(ms: seq<Member>, i: nat)
    requires DistinctKeys(ms) && i < |ms|
    ensures ms[i].key in AsMap(ms) && AsMap(ms)[ms[i].key] == Meaning(ms[i].value)
  {
    if i > 0 {
      AsMapAt(ms[1..], i - 1);
    } else {
      AsMapKeys(ms[1..]);
    }
  }

  // ---- sort_keys=True ----

  predicate KeyLeq(a: Member, b: Member) { TextLeq(a.key, b.key) }

  lemma KeyLeqTotalPreorder()
    ensures TotalPreorder(KeyLeq)
  {
    forall a, b ensures KeyLeq(a, b) || KeyLeq(b, a) {
      TextLeqTotal(a.key, b.key);
    }
    forall a, b, c | KeyLeq(a, b) && KeyLeq(b, c) ensures KeyLeq(a, c) {
      TextLeqTransitive(a.key, b.key, c.key);
    }
  }

  function SortMembers(ms: seq<Member>): (r: seq<Member>)
    ensures |r| == |ms| && multiset(r) == multiset(ms)
    ensures forall m :: m in r <==> m in ms
    ensures Ordered(r, KeyLeq)
  {
    SortPermutes(ms, KeyLeq);
    KeyLeqTotalPreorder();
    SortOrdered(ms, KeyLeq);
    Sort(ms, KeyLeq)
  }

  /** The same value with every dict's items in `sort_keys` order. */
  function Normalize(v: Json): Json {
    match v
    case Arr(items) => Arr(seq(|items|, i requires 0 <= i < |items| => Normalize(items[i])))
    case Obj(ms) => Obj(NormalizeMembers(ms))
    case _ => v
  }

  function NormalizeMembers(ms: seq<Member>): (r: seq<Member>)
    ensures |r| == |ms|
    ensures forall i :: 0 <= i < |ms| ==>
      SortMembers(ms)[i] in ms &&
      r[i] == Member(SortMembers(ms)[i].key, Normalize(SortMembers(ms)[i].value))
  {
    var sorted := SortMembers(ms);
    seq(|sorted|, i requires 0 <= i < |sorted| =>
      assert sorted[i] in ms;
      Member(sorted[i].key, Normalize(sorted[i].value)))
  }

  lemma SortKeepsDistinct(ms: seq<Member>)
    requires DistinctKeys(ms)
    ensures DistinctKeys(SortMembers(ms))
  {
    var r := SortMembers(ms);
    forall i, j | 0 <= i < j < |r| ensures r[i].key != r[j].key {
      assert r[i] in ms && r[j] in ms;
      if r[i] == r[j] {
        Distinguished(ms);
        DistinctIsBag(ms);
        DistinctIsBag(r);
      }
    }
  }

  lemma Distinguished(ms: seq<Member>)
    requires DistinctKeys(ms)
    ensures Distinct(ms)
  {
  }

  function Keys(ms: seq<Member>): (ks: seq<Text>)
    ensures |ks| == |ms| && forall i :: 0 <= i < |ms| ==> ks[i] == ms[i].key
  {
    seq(|ms|, i requires 0 <= i < |ms| => ms[i].key)
  }

  /** Reordering the pairs of a dict does not change the map it is. */
  lemma PermutedMembersMean(a: seq<Member>, b: seq<Member>)
    requires multiset(a) == multiset(b) && DistinctKeys(a) && DistinctKeys(b)
    ensures AsMap(a) == AsMap(b)
  {
    AsMapKeys(a);
    AsMapKeys(b);
    forall m ensures m in a <==> m in b {
      assert m in multiset(a) <==> m in multiset(b);
    }
    forall k ensures k in AsMap(a) <==> k in AsMap(b) {
      if i :| 0 <= i < |a| && a[i].key == k {
        assert a[i] in b;
      }
      if i :| 0 <= i < |b| && b[i].key == k {
        assert b[i] in a;
      }
    }
    forall k | k in AsMap(a) ensures AsMap(a)[k] == AsMap(b)[k] {
      var i :| 0 <= i < |a| && a[i].key == k;
      assert a[i] in b;
      var j :| 0 <= j < |b| && b[j] == a[i];
      AsMapAt(a, i);
      AsMapAt(b, j);
    }
  }

  lemma KeysAreDomain(a: seq<Member>)
    ensures forall k :: k in Keys(a) <==> k in AsMap(a).Keys
  {
    AsMapKeys(a);
    forall k ensures k in Keys(a) <==> k in AsMap(a).Keys {
      if i :| 0 <= i < |a| && a[i].key == k {
        assert Keys(a)[i] == k;
      }
    }
  }

  lemma SortedMembersUnique(a: seq<Member>, b: seq<Member>)
    requires Ordered(a, KeyLeq) && Ordered(b, KeyLeq) && DistinctKeys(a) && DistinctKeys(b)
    requires AsMap(a).Keys == AsMap(b).Keys
    ensures Keys(a) == Keys(b)
  {
    var ka, kb := Keys(a), Keys(b);
    KeysAreDomain(a);
    KeysAreDomain(b);
    DistinctSameBag(ka, kb);
    TextLeqTotalPreorder();
    TextLeqAntisymmetricOn(ka);
    OrderedUnique(ka, kb, TextLeq);
  }

  lemma {:induction false} NormalizeAgrees(v: Json, w: Json)
    requires WellFormed(v) && WellFormed(w) && Meaning(v) == Meaning(w)
    ensures Normalize(v) == Normalize(w)
    decreases v, 1
  {
    match v
    case Arr(items) =>
      assert Meaning(v).items == Meaning(w).items;
      forall i | 0 <= i < |items| ensures Normalize(items[i]) == Normalize(w.items[i]) {
        assert Meaning(v).items[i] == Meaning(w).items[i];
        NormalizeAgrees(items[i], w.items[i]);
      }
      assert Normalize(v).items == Normalize(w).items;
    case Obj(ms) => NormalizeMembersAgrees(ms, w.members);
    case _ =>
  }

  lemma {:induction false} NormalizeMembersAgrees(ms: seq<Member>, ns: seq<Member>)
    requires WellFormed(Obj(ms)) && WellFormed(Obj(ns)) && AsMap(ms) == AsMap(ns)
    ensures NormalizeMembers(ms) == NormalizeMembers(ns)
    decreases ms, 0
  {
    var a, b := SortMembers(ms), SortMembers(ns);
    SortKeepsDistinct(ms);
    SortKeepsDistinct(ns);
    PermutedMembersMean(ms, a);
    PermutedMembersMean(ns, b);
    SortedMembersUnique(a, b);
    var r, q := NormalizeMembers(ms), NormalizeMembers(ns);
    forall i | 0 <= i < |r| ensures r[i] == q[i] {
      assert a[i].key == Keys(a)[i] == b[i].key;
      assert a[i] in ms && b[i] in ns;
      AsMapAt(a, i);
      AsMapAt(b, i);
      NormalizeAgrees(a[i].value, b[i].value);
    }
  }

  /** Sorting the keys changes nothing about what a value means. */
  lemma {:induction false} NormalizeMeans(v: Json)
    requires WellFormed(v)
    ensures Meaning(Normalize(v)) == Meaning(v) && WellFormed(Normalize(v))
  {
    match v
    case Arr(items) =>
      forall i | 0 <= i < |items|
        ensures Meaning(Normalize(items[i])) == Meaning(items[i]) && WellFormed(Normalize(items[i]))
      {
        NormalizeMeans(items[i]);
      }
      assert Meaning(Normalize(v)).items == Meaning(v).items;
    case Obj(ms) =>
      var a, n := SortMembers(ms), Normalize(v).members;
      SortKeepsDistinct(ms);
      PermutedMembersMean(ms, a);
      forall i | 0 <= i < |a|
        ensures Meaning(n[i].value) == Meaning(a[i].value) && WellFormed(n[i].value)
      {
        assert a[i] in ms;
        NormalizeMeans(a[i].value);
      }
      PointwiseMean(a, n);
    case _ =>
  }

  lemma {:induction false} PointwiseMean(a: seq<Member>, b: seq<Member>)
    requires |a| == |b|
    requires forall i :: 0 <= i < |a| ==> a[i].key == b[i].key && Meaning(a[i].value) == Meaning(b[i].value)
    ensures AsMap(a) == AsMap(b)
  {
    if a != [] {
      PointwiseMean(a[1..], b[1..]);
    }
  }
}
