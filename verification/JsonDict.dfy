/** The dict operations the scripts use on JSON objects, and what each does to
    the map the object means; reading and writing below the top level. */
module JsonDict {
  import opened Texts
  import opened JsonValues
  import Sequences

  /** `d.get(key)`. */
  function Lookup(ms: seq<Member>, key: Text): Option<Json> {
    if ms == [] then None
    else if ms[0].key == key then Some(ms[0].value)
    else Lookup(ms[1..], key)
  }

  /** `d[key] = value`: an existing key keeps its place, a new one goes last. */
  function Put(ms: seq<Member>, key: Text, value: Json): seq<Member> {
    if ms == [] then [Member(key, value)]
    else if ms[0].key == key then [Member(key, value)] + ms[1..]
    else [ms[0]] + Put(ms[1..], key, value)
  }

  /** `{k: v for k, v in d.items() if k not in keys}`. */
  function Without(ms: seq<Member>, keys: set<Text>): seq<Member> {
    if ms == [] then []
    else if ms[0].key in keys then Without(ms[1..], keys)
    else [ms[0]] + Without(ms[1..], keys)
  }

  ghost predicate WellFormedMembers(ms: seq<Member>) {
    WellFormed(Obj(ms))
  }

  lemma TailWellFormed(ms: seq<Member>)
    requires WellFormedMembers(ms) && ms != []
    ensures WellFormedMembers(ms[1..]) && WellFormed(ms[0].value)
    ensures ms[0].key !in AsMap(ms[1..])
  {
    AsMapKeys(ms[1..]);
  }

  lemma ConsWellFormed(m: Member, ms: seq<Member>)
    requires WellFormedMembers(ms) && WellFormed(m.value) && m.key !in AsMap(ms)
    ensures WellFormedMembers([m] + ms)
    ensures AsMap([m] + ms) == map[m.key := Meaning(m.value)] + AsMap(ms)
  {
    AsMapKeys(ms);
    assert ([m] + ms)[1..] == ms;
  }

  lemma {:induction false} LookupMeans(ms: seq<Member>, key: Text)
    requires WellFormedMembers(ms)
    ensures Lookup(ms, key).Some? <==> key in AsMap(ms)
    ensures key in AsMap(ms) ==>
      AsMap(ms)[key] == Meaning(Lookup(ms, key).value) && WellFormed(Lookup(ms, key).value)
  {
    if ms != [] {
      TailWellFormed(ms);
      LookupMeans(ms[1..], key);
    }
  }

  lemma ConsMap(m: Member, ms: seq<Member>)
    ensures AsMap([m] + ms) == map[m.key := Meaning(m.value)] + AsMap(ms)
  {
    assert ([m] + ms)[1..] == ms;
  }

  lemma ReplaceFirst<K, V>(k: K, was: V, now: V, m: map<K, V>)
    requires k !in m
    ensures map[k := now] + m == (map[k := was] + m)[k := now]
  {
  }

  lemma UpdateLater<K, V>(first: K, v: V, m: map<K, V>, key: K, now: V)
    requires key != first
    ensures map[first := v] + m[key := now] == (map[first := v] + m)[key := now]
  {
  }

  lemma {:induction false} PutMap(ms: seq<Member>, key: Text, value: Json)
    requires WellFormedMembers(ms)
    ensures AsMap(Put(ms, key, value)) == AsMap(ms)[key := Meaning(value)]
  {
    if ms == [] {
      ConsMap(Member(key, value), []);
      assert [Member(key, value)] + [] == [Member(key, value)];
    } else {
      TailWellFormed(ms);
      if ms[0].key == key {
        ConsMap(Member(key, value), ms[1..]);
        ReplaceFirst(key, Meaning(ms[0].value), Meaning(value), AsMap(ms[1..]));
      } else {
        PutMap(ms[1..], key, value);
        ConsMap(ms[0], Put(ms[1..], key, value));
        UpdateLater(ms[0].key, Meaning(ms[0].value), AsMap(ms[1..]), key, Meaning(value));
      }
    }
  }

  lemma {:induction false} PutWellFormed(ms: seq<Member>, key: Text, value: Json)
    requires WellFormedMembers(ms) && WellFormed(value)
    ensures WellFormedMembers(Put(ms, key, value))
  {
    if ms != [] {
      TailWellFormed(ms);
      if ms[0].key == key {
        ConsWellFormed(Member(key, value), ms[1..]);
      } else {
        PutWellFormed(ms[1..], key, value);
        PutMap(ms[1..], key, value);
        ConsWellFormed(ms[0], Put(ms[1..], key, value));
      }
    }
  }

  lemma PutMeans(ms: seq<Member>, key: Text, value: Json)
    requires WellFormedMembers(ms) && WellFormed(value)
    ensures WellFormedMembers(Put(ms, key, value))
    ensures AsMap(Put(ms, key, value)) == AsMap(ms)[key := Meaning(value)]
  {
    PutMap(ms, key, value);
    PutWellFormed(ms, key, value);
  }

  function KeysOf(ms: seq<Member>): (keys: seq<Text>)
    ensures |keys| == |ms| && forall i :: 0 <= i < |ms| ==> keys[i] == ms[i].key
  {
    seq(|ms|, i requires 0 <= i < |ms| => ms[i].key)
  }

  /** Assignment leaves the keys in their order; a new one goes last. */
  lemma {:induction false} PutKeepsOrder(ms: seq<Member>, key: Text, value: Json)
    ensures KeysOf(Put(ms, key, value)) == KeysOf(ms) + (if key in KeysOf(ms) then [] else [key])
  {
    if ms == [] {
      assert KeysOf([Member(key, value)]) == [key] && KeysOf([]) == [];
    } else {
      var rest := ms[1..];
      PutKeepsOrder(rest, key, value);
      assert ms == [ms[0]] + rest;
      KeysCons(ms[0], rest);
      if ms[0].key == key {
        KeysCons(Member(key, value), rest);
      } else {
        KeysCons(ms[0], Put(rest, key, value));
        Sequences.Associate([ms[0].key], KeysOf(rest), if key in KeysOf(rest) then [] else [key]);
      }
    }
  }

  lemma KeysCons(m: Member, ms: seq<Member>)
    ensures KeysOf([m] + ms) == [m.key] + KeysOf(ms)
    ensures forall k :: k in KeysOf([m] + ms) <==> k == m.key || k in KeysOf(ms)
  {
    var keys := KeysOf([m] + ms);
    assert keys == [m.key] + KeysOf(ms);
  }

  lemma {:induction false} WithoutMeans(ms: seq<Member>, keys: set<Text>)
    requires WellFormedMembers(ms)
    ensures WellFormedMembers(Without(ms, keys))
    ensures AsMap(Without(ms, keys)) == AsMap(ms) - keys
  {
    if ms != [] {
      TailWellFormed(ms);
      WithoutMeans(ms[1..], keys);
      if ms[0].key !in keys {
        ConsWellFormed(ms[0], Without(ms[1..], keys));
      }
    }
  }

  lemma {:induction false} LookupDistinct(ms: seq<Member>, n: nat)
    requires DistinctKeys(ms) && n < |ms|
    ensures Lookup(ms, ms[n].key) == Some(ms[n].value)
  {
    if n > 0 {
      LookupDistinct(ms[1..], n - 1);
    }
  }

  lemma {:induction false} Absent(ms: seq<Member>, key: Text)
    requires forall i :: 0 <= i < |ms| ==> ms[i].key != key
    ensures Lookup(ms, key).None?
  {
    if ms != [] {
      Absent(ms[1..], key);
    }
  }

  // ---- what the operations do to each other ----

  lemma {:induction false} LookupPut(ms: seq<Member>, key: Text, value: Json, other: Text)
    ensures Lookup(Put(ms, key, value), other) == if other == key then Some(value) else Lookup(ms, other)
  {
    if ms != [] && ms[0].key != key {
      LookupPut(ms[1..], key, value, other);
      assert ([ms[0]] + Put(ms[1..], key, value))[1..] == Put(ms[1..], key, value);
    } else if ms != [] {
      assert ([Member(key, value)] + ms[1..])[1..] == ms[1..];
    }
  }

  lemma {:induction false} LookupWithout(ms: seq<Member>, keys: set<Text>, other: Text)
    ensures Lookup(Without(ms, keys), other) == if other in keys then None else Lookup(ms, other)
  {
    if ms != [] {
      LookupWithout(ms[1..], keys, other);
      assert ms[0].key !in keys ==> ([ms[0]] + Without(ms[1..], keys))[1..] == Without(ms[1..], keys);
    }
  }

  lemma {:induction false} WithoutPut(ms: seq<Member>, key: Text, value: Json, keys: set<Text>)
    requires key in keys
    ensures Without(Put(ms, key, value), keys) == Without(ms, keys)
  {
    if ms != [] && ms[0].key != key {
      WithoutPut(ms[1..], key, value, keys);
      assert ([ms[0]] + Put(ms[1..], key, value))[1..] == Put(ms[1..], key, value);
    } else if ms != [] {
      assert ([Member(key, value)] + ms[1..])[1..] == ms[1..];
    }
  }

  lemma {:induction false} WithoutAbsent(ms: seq<Member>, keys: set<Text>)
    requires forall k :: k in keys ==> Lookup(ms, k).None?
    ensures Without(ms, keys) == ms
  {
    if ms != [] {
      assert Lookup(ms, ms[0].key).Some?;
      forall k | k in keys ensures Lookup(ms[1..], k).None? {
        assert Lookup(ms, k).None?;
      }
      WithoutAbsent(ms[1..], keys);
      assert ms == [ms[0]] + ms[1..];
    }
  }

  lemma {:induction false} PutSame(ms: seq<Member>, key: Text, value: Json)
    requires Lookup(ms, key) == Some(value)
    ensures Put(ms, key, value) == ms
  {
    assert ms == [ms[0]] + ms[1..];
    if ms[0].key != key {
      PutSame(ms[1..], key, value);
    }
  }

  // ---- below the top level ----

  datatype Step = Key(key: Text) | Index(index: nat)

  function Child(v: Json, step: Step): Option<Json> {
    match (v, step)
    case (Obj(ms), Key(k)) => Lookup(ms, k)
    case (Arr(items), Index(i)) => if i < |items| then Some(items[i]) else None
    case _ => None
  }

  function At(v: Json, path: seq<Step>): Option<Json>
    decreases |path|
  {
    if path == [] then Some(v)
    else
      var child :- Child(v, path[0]);
      At(child, path[1..])
  }

  /** `v[step][step]... = value` on a deep copy. */
  function SetAt(v: Json, path: seq<Step>, value: Json): Json
    requires At(v, path).Some?
    decreases |path|
  {
    if path == [] then value
    else match (v, path[0])
      case (Obj(ms), Key(k)) => Obj(Put(ms, k, SetAt(Lookup(ms, k).value, path[1..], value)))
      case (Arr(items), Index(i)) => Arr(items[i := SetAt(items[i], path[1..], value)])
      case _ => v
  }

  lemma MemberChangeShows(ms: seq<Member>, key: Text, now: Json)
    requires WellFormedMembers(ms) && WellFormed(now) && Lookup(ms, key).Some?
    ensures WellFormedMembers(Put(ms, key, now))
    ensures Meaning(Obj(Put(ms, key, now))) == Meaning(Obj(ms)) <==> Meaning(now) == Meaning(Lookup(ms, key).value)
  {
    LookupMeans(ms, key);
    PutMeans(ms, key, now);
    assert AsMap(ms)[key := Meaning(now)][key] == Meaning(now);
  }

  lemma ItemChangeShows(items: seq<Json>, i: nat, now: Json)
    requires WellFormed(Arr(items)) && WellFormed(now) && i < |items|
    ensures WellFormed(Arr(items[i := now]))
    ensures Meaning(Arr(items[i := now])) == Meaning(Arr(items)) <==> Meaning(now) == Meaning(items[i])
  {
    var was := Meaning(Arr(items)).items;
    assert Meaning(Arr(items[i := now])).items == was[i := Meaning(now)];
    assert was[i := Meaning(now)][i] == Meaning(now);
  }

  /** A write at any depth that changes the meaning there changes the meaning of the whole. */
  lemma {:induction false} DeepChangeShows(v: Json, path: seq<Step>, value: Json)
    requires WellFormed(v) && WellFormed(value) && At(v, path).Some?
    ensures WellFormed(SetAt(v, path, value))
    ensures Meaning(SetAt(v, path, value)) == Meaning(v) <==> Meaning(value) == Meaning(At(v, path).value)
    decreases |path|
  {
    if path != [] {
      match (v, path[0])
      case (Obj(ms), Key(k)) =>
        var child := Lookup(ms, k).value;
        LookupMeans(ms, k);
        DeepChangeShows(child, path[1..], value);
        MemberChangeShows(ms, k, SetAt(child, path[1..], value));
      case (Arr(items), Index(i)) =>
        DeepChangeShows(items[i], path[1..], value);
        ItemChangeShows(items, i, SetAt(items[i], path[1..], value));
      case _ =>
    }
  }

  /** Neither path leads through the end of the other. */
  predicate Apart(path: seq<Step>, other: seq<Step>) {
    !(path <= other) && !(other <= path)
  }

  lemma PathTails(path: seq<Step>, other: seq<Step>)
    requires path != [] && other != [] && path[0] == other[0]
    ensures path <= other <==> path[1..] <= other[1..]
    ensures path <= other ==> other[|path|..] == other[1..][|path[1..]|..]
  {
    assert path == [path[0]] + path[1..] && other == [other[0]] + other[1..];
  }

  /** What is read below a write, and at it, is read in the value written. */
  lemma {:induction false} WriteShowsBelow(v: Json, path: seq<Step>, value: Json, other: seq<Step>)
    requires At(v, path).Some? && path <= other
    ensures At(SetAt(v, path, value), other) == At(value, other[|path|..])
    decreases |path|
  {
    if path == [] {
      assert other[0..] == other;
    } else {
      PathTails(path, other);
      match (v, path[0])
      case (Obj(ms), Key(k)) =>
        var child := SetAt(Lookup(ms, k).value, path[1..], value);
        LookupPut(ms, k, child, k);
        WriteShowsBelow(Lookup(ms, k).value, path[1..], value, other[1..]);
      case (Arr(items), Index(i)) =>
        WriteShowsBelow(items[i], path[1..], value, other[1..]);
      case _ =>
    }
  }

  /** A write changes nothing apart from where it is made: every other place holds what it held, or
      is missing as it was. */
  lemma {:induction false} WriteKeepsApart(v: Json, path: seq<Step>, value: Json, other: seq<Step>)
    requires At(v, path).Some? && Apart(path, other)
    ensures At(SetAt(v, path, value), other) == At(v, other)
    decreases |path|
  {
    match (v, path[0])
    case (Obj(ms), Key(k)) =>
      var child := SetAt(Lookup(ms, k).value, path[1..], value);
      if other[0] == path[0] {
        PathTails(path, other);
        PathTails(other, path);
        LookupPut(ms, k, child, k);
        WriteKeepsApart(Lookup(ms, k).value, path[1..], value, other[1..]);
      } else if other[0].Key? {
        LookupPut(ms, k, child, other[0].key);
      }
    case (Arr(items), Index(i)) =>
      if other[0] == path[0] {
        PathTails(path, other);
        PathTails(other, path);
        WriteKeepsApart(items[i], path[1..], value, other[1..]);
      }
    case _ =>
  }

  /** One value differs from another by a write at `path`, and by nothing else. */
  ghost predicate DiffersOnlyAt(v: Json, v': Json, path: seq<Step>, value: Json) {
    && At(v', path) == Some(value)
    && forall other :: Apart(path, other) ==> At(v', other) == At(v, other)
  }

  lemma WriteIsLocal(v: Json, path: seq<Step>, value: Json)
    requires At(v, path).Some?
    ensures DiffersOnlyAt(v, SetAt(v, path, value), path, value)
  {
    WriteShowsBelow(v, path, value, path);
    forall other | Apart(path, other) ensures At(SetAt(v, path, value), other) == At(v, other) {
      WriteKeepsApart(v, path, value, other);
    }
  }

  /** What leads to a value leads to every value on the way. */
  lemma {:induction false} WayIsRead(v: Json, path: seq<Step>, other: seq<Step>)
    requires At(v, path).Some? && other <= path
    ensures At(v, other).Some?
    decreases |path|
  {
    if other != [] {
      PathTails(other, path);
      WayIsRead(Child(v, path[0]).value, path[1..], other[1..]);
    }
  }

  /** A write leaves every place readable that does not lie below it. */
  lemma PlacesRemain(v: Json, path: seq<Step>, value: Json, other: seq<Step>)
    requires At(v, path).Some? && At(v, other).Some?
    requires !(path < other)
    ensures At(SetAt(v, path, value), other).Some?
  {
    if Apart(path, other) {
      WriteKeepsApart(v, path, value, other);
    } else {
      WriteShowsBelow(v, path, value, path);
      WayIsRead(SetAt(v, path, value), path, other);
    }
  }

  lemma {:induction false} AtAppend(v: Json, a: seq<Step>, b: seq<Step>)
    requires At(v, a).Some?
    ensures At(v, a + b) == At(At(v, a).value, b)
    decreases |a|
  {
    if a == [] {
      assert a + b == b;
    } else {
      var child := Child(v, a[0]).value;
      assert (a + b)[1..] == a[1..] + b;
      AtAppend(child, a[1..], b);
    }
  }
}
