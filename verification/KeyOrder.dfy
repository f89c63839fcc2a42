/** The order of keys in the canonical form against that of section 3.2.3 of
    RFC 8785, which sorts by UTF-16 code units. */
module KeyOrder {
  import opened Texts
  import opened Sorting
  import opened JsonValues
  import opened JsonPrinter
  import opened JsonParser
  import opened CanonicalForm
  import Utf8

  // ---- two keys ----

  /** The UTF-16 code units that section 3.2.3 of RFC 8785 sorts by. */
  function Utf16(t: Text): Text {
    if t == [] then []
    else if t[0] < 0x10000 then [t[0]] + Utf16(t[1..])
    else [0xD800 + (t[0] - 0x10000) / 0x400, 0xDC00 + (t[0] - 0x10000) % 0x400] + Utf16(t[1..])
  }

  /** The first difference is between a supplementary code point and one above the surrogates. */
  predicate Crossed(a: Text, b: Text) {
    a != [] && b != [] &&
    if a[0] == b[0] then Crossed(a[1..], b[1..])
    else (a[0] >= 0x10000 && 0xE000 <= b[0] < 0x10000) || (b[0] >= 0x10000 && 0xE000 <= a[0] < 0x10000)
  }

  /** Code-point order and RFC 8785 order disagree on two keys exactly when they are crossed. */
  lemma {:induction false} KeyOrderDiffersFromRfc8785(a: Text, b: Text)
    requires Utf8.Encodable(a) && Utf8.Encodable(b)
    ensures (TextLeq(a, b) <==> TextLeq(Utf16(a), Utf16(b))) <==> !Crossed(a, b)
  {
    if a != [] && b != [] {
      if a[0] == b[0] {
        KeyOrderDiffersFromRfc8785(a[1..], b[1..]);
        SamePrefix(Utf16(a[..1]), Utf16(a[1..]), Utf16(b[1..]));
      } else if a[0] >= 0x10000 && b[0] >= 0x10000 {
        var x, y := a[0] - 0x10000, b[0] - 0x10000;
        assert x == x / 0x400 * 0x400 + x % 0x400 && y == y / 0x400 * 0x400 + y % 0x400;
      }
    }
  }

  lemma {:induction false} SamePrefix(p: Text, a: Text, b: Text)
    ensures TextLeq(p + a, p + b) <==> TextLeq(a, b)
  {
    if p == [] {
      assert p + a == a && p + b == b;
    } else {
      assert (p + a)[1..] == p[1..] + a && (p + b)[1..] == p[1..] + b;
      SamePrefix(p[1..], a, b);
    }
  }

  lemma {:induction false} CrossedIsSymmetric(a: Text, b: Text)
    ensures Crossed(a, b) <==> Crossed(b, a)
  {
    if a != [] && b != [] && a[0] == b[0] {
      CrossedIsSymmetric(a[1..], b[1..]);
    }
  }

  // ---- one object ----

  predicate Utf16KeyLeq(a: Member, b: Member) { TextLeq(Utf16(a.key), Utf16(b.key)) }

  lemma Utf16Order()
    ensures TotalPreorder(Utf16KeyLeq)
  {
    forall a, b ensures Utf16KeyLeq(a, b) || Utf16KeyLeq(b, a) { TextLeqTotal(Utf16(a.key), Utf16(b.key)); }
    forall a, b, c | Utf16KeyLeq(a, b) && Utf16KeyLeq(b, c) ensures Utf16KeyLeq(a, c) {
      TextLeqTransitive(Utf16(a.key), Utf16(b.key), Utf16(c.key));
    }
  }

  function Utf16SortMembers(ms: seq<Member>): (r: seq<Member>)
    ensures |r| == |ms| && multiset(r) == multiset(ms)
    ensures forall m :: m in r <==> m in ms
    ensures Ordered(r, Utf16KeyLeq)
  {
    SortPermutes(ms, Utf16KeyLeq);
    Utf16Order();
    SortOrdered(ms, Utf16KeyLeq);
    Sort(ms, Utf16KeyLeq)
  }

  ghost predicate SameOn(ms: seq<Member>) {
    forall x, y :: x in ms && y in ms ==> (KeyLeq(x, y) <==> Utf16KeyLeq(x, y))
  }

  lemma {:induction false} SameInsert(x: Member, s: seq<Member>)
    requires SameOn([x] + s)
    ensures Insert(x, s, KeyLeq) == Insert(x, s, Utf16KeyLeq)
  {
    assert x in [x] + s;
    if s != [] {
      assert s[0] in [x] + s;
      assert forall y :: y in [x] + s[1..] ==> y in [x] + s;
      SameInsert(x, s[1..]);
    }
  }

  lemma {:induction false} SameSort(ms: seq<Member>)
    requires SameOn(ms)
    ensures Sort(ms, KeyLeq) == Sort(ms, Utf16KeyLeq)
  {
    if ms != [] {
      assert forall x :: x in ms[1..] ==> x in ms;
      SameSort(ms[1..]);
      var s := Sort(ms[1..], KeyLeq);
      SortPermutes(ms[1..], KeyLeq);
      SameInsert(ms[0], s);
    }
  }

  predicate NoCrossing(ms: seq<Member>) {
    forall i, j :: 0 <= i < j < |ms| ==> !Crossed(ms[i].key, ms[j].key)
  }

  ghost predicate KeysEncodable(ms: seq<Member>) {
    forall i :: 0 <= i < |ms| ==> Utf8.Encodable(ms[i].key)
  }

  lemma {:induction false} NotCrossedWithItself(a: Text)
    ensures !Crossed(a, a)
  {
    if a != [] {
      NotCrossedWithItself(a[1..]);
    }
  }

  lemma AnyTwo(ms: seq<Member>, x: Member, y: Member)
    requires NoCrossing(ms) && x in ms && y in ms
    ensures !Crossed(x.key, y.key)
  {
    var i :| 0 <= i < |ms| && ms[i] == x;
    var j :| 0 <= j < |ms| && ms[j] == y;
    CrossedIsSymmetric(x.key, y.key);
    NotCrossedWithItself(x.key);
  }

  /** Both orders arrange the items of one dict alike exactly when no two of its keys are crossed. */
  lemma ObjectOrdersAgree(ms: seq<Member>)
    requires KeysEncodable(ms)
    ensures SortMembers(ms) == Utf16SortMembers(ms) <==> NoCrossing(ms)
  {
    if NoCrossing(ms) {
      forall x, y | x in ms && y in ms ensures KeyLeq(x, y) <==> Utf16KeyLeq(x, y) {
        AnyTwo(ms, x, y);
        KeyOrderDiffersFromRfc8785(x.key, y.key);
      }
      SameSort(ms);
    }
    if SortMembers(ms) == Utf16SortMembers(ms) {
      forall i, j | 0 <= i < j < |ms| ensures !Crossed(ms[i].key, ms[j].key) {
        OrderedBothWays(SortMembers(ms), ms[i], ms[j]);
      }
    }
  }

  lemma OrderedBothWays(s: seq<Member>, x: Member, y: Member)
    requires Ordered(s, KeyLeq) && Ordered(s, Utf16KeyLeq) && x in s && y in s
    requires Utf8.Encodable(x.key) && Utf8.Encodable(y.key)
    ensures !Crossed(x.key, y.key)
  {
    var i :| 0 <= i < |s| && s[i] == x;
    var j :| 0 <= j < |s| && s[j] == y;
    KeyOrderDiffersFromRfc8785(x.key, y.key);
    KeyOrderDiffersFromRfc8785(y.key, x.key);
    CrossedIsSymmetric(x.key, y.key);
    NotCrossedWithItself(x.key);
  }

  // ---- a whole document ----

  /** The value with the items of every dict in the order of section 3.2.3 of RFC 8785. */
  function Utf16Sorted(v: Json): Json {
    match v
    case Arr(items) => Arr(seq(|items|, i requires 0 <= i < |items| => Utf16Sorted(items[i])))
    case Obj(ms) => Obj(Utf16SortedMembers(ms))
    case _ => v
  }

  function Utf16SortedMembers(ms: seq<Member>): (r: seq<Member>)
    ensures |r| == |ms|
    ensures forall i :: 0 <= i < |ms| ==>
      Utf16SortMembers(ms)[i] in ms &&
      r[i] == Member(Utf16SortMembers(ms)[i].key, Utf16Sorted(Utf16SortMembers(ms)[i].value))
  {
    var sorted := Utf16SortMembers(ms);
    seq(|sorted|, i requires 0 <= i < |sorted| =>
      assert sorted[i] in ms;
      Member(sorted[i].key, Utf16Sorted(sorted[i].value)))
  }

  predicate NoCrossedKeys(v: Json) {
    match v
    case Arr(items) => forall i :: 0 <= i < |items| ==> NoCrossedKeys(items[i])
    case Obj(ms) => NoCrossing(ms) && forall i :: 0 <= i < |ms| ==> NoCrossedKeys(ms[i].value)
    case _ => true
  }

  lemma SameKeySameMember(ms: seq<Member>, x: Member, y: Member)
    requires DistinctKeys(ms) && x in ms && y in ms && x.key == y.key
    ensures x == y
  {
    var i :| 0 <= i < |ms| && ms[i] == x;
    var j :| 0 <= j < |ms| && ms[j] == y;
    assert i == j;
  }

  /** The two sorted forms of a dict agree when the arrangements do and the values below do. */
  lemma MembersAgree(ms: seq<Member>)
    requires DistinctKeys(ms)
    ensures NormalizeMembers(ms) == Utf16SortedMembers(ms) <==>
      SortMembers(ms) == Utf16SortMembers(ms)
      && forall m :: m in ms ==> Normalize(m.value) == Utf16Sorted(m.value)
  {
    var a, b := SortMembers(ms), Utf16SortMembers(ms);
    var n, u := NormalizeMembers(ms), Utf16SortedMembers(ms);
    if n == u {
      forall i | 0 <= i < |ms| ensures a[i] == b[i] && Normalize(a[i].value) == Utf16Sorted(a[i].value) {
        assert n[i] == u[i];
        SameKeySameMember(ms, a[i], b[i]);
      }
      forall m | m in ms ensures Normalize(m.value) == Utf16Sorted(m.value) {
        assert m in a;
      }
    } else if a == b {
      var i :| 0 <= i < |ms| && n[i] != u[i];
      assert a[i] in ms;
    }
  }

  lemma {:induction false} SortedFormsAgree(v: Json)
    requires WellFormed(v) && TextsEncodable(v)
    ensures Utf16Sorted(v) == Normalize(v) <==> NoCrossedKeys(v)
  {
    match v
    case Arr(items) =>
      forall i | 0 <= i < |items| ensures Utf16Sorted(items[i]) == Normalize(items[i]) <==> NoCrossedKeys(items[i]) {
        SortedFormsAgree(items[i]);
      }
      ArraysAgree(items);
    case Obj(ms) =>
      forall i | 0 <= i < |ms|
        ensures Utf16Sorted(ms[i].value) == Normalize(ms[i].value) <==> NoCrossedKeys(ms[i].value)
      {
        SortedFormsAgree(ms[i].value);
      }
      MembersAgree(ms);
      ObjectOrdersAgree(ms);
    case _ =>
  }

  lemma ArraysAgree(items: seq<Json>)
    ensures Utf16Sorted(Arr(items)) == Normalize(Arr(items)) <==>
      forall i :: 0 <= i < |items| ==> Utf16Sorted(items[i]) == Normalize(items[i])
  {
    var u, n := Utf16Sorted(Arr(items)).items, Normalize(Arr(items)).items;
    assert forall i :: 0 <= i < |items| ==> u[i] == Utf16Sorted(items[i]) && n[i] == Normalize(items[i]);
  }

  lemma {:induction false} Utf16SortedIsWellFormed(v: Json)
    requires WellFormed(v)
    ensures WellFormed(Utf16Sorted(v))
  {
    match v
    case Arr(items) =>
      forall i | 0 <= i < |items| ensures WellFormed(Utf16Sorted(items[i])) { Utf16SortedIsWellFormed(items[i]); }
    case Obj(ms) =>
      var b, u := Utf16SortMembers(ms), Utf16SortedMembers(ms);
      forall i | 0 <= i < |u| ensures WellFormed(u[i].value) {
        assert b[i] in ms;
        Utf16SortedIsWellFormed(b[i].value);
      }
      Utf16SortKeepsDistinct(ms);
    case _ =>
  }

  lemma Utf16SortKeepsDistinct(ms: seq<Member>)
    requires DistinctKeys(ms)
    ensures DistinctKeys(Utf16SortMembers(ms))
  {
    var r := Utf16SortMembers(ms);
    Distinguished(ms);
    DistinctIsBag(ms);
    DistinctIsBag(r);
    forall i, j | 0 <= i < j < |r| ensures r[i].key != r[j].key {
      assert r[i] in ms && r[j] in ms;
      if r[i].key == r[j].key {
        SameKeySameMember(ms, r[i], r[j]);
      }
    }
  }

  /** The canonical text of a document is the text with keys in the order of section 3.2.3 of RFC 8785
      exactly when no object in it, at any depth, holds two crossed keys. */
  lemma CanonicalOrderAgrees(v: Json)
    requires WellFormed(v) && TextsEncodable(v)
    ensures Dumps(v) == Print(Utf16Sorted(v)) <==> NoCrossedKeys(v)
  {
    SortedFormsAgree(v);
    DumpsPrintsNormalForm(v);
    NormalizeMeans(v);
    Utf16SortedIsWellFormed(v);
    PrintReadsBack(Normalize(v));
    PrintReadsBack(Utf16Sorted(v));
  }

  /** A document on which they part: one key in the private use area, one beyond the first plane. */
  lemma OrdersCanPart() returns (v: Json)
    ensures WellFormed(v) && TextsEncodable(v) && Dumps(v) != Print(Utf16Sorted(v))
  {
    var a, b: Text := [0xE000], [0x10000];
    assert Crossed(a, b);
    var ms := [Member(a, Null), Member(b, Null)];
    v := Obj(ms);
    assert Crossed(ms[0].key, ms[1].key);
    CanonicalOrderAgrees(v);
  }
}
