/** The walk over a registry example document, what it visits and in which
    order, and the private-field check built on it. */
module JsonWalk {
  import opened Texts
  import opened JsonValues
  import opened JsonDict
  import JsonPrinter

  /** One yield: where the object is, and the key and value it holds there. */
  datatype Visit = Visit(parent: seq<Step>, key: Text, value: Json)

  function Walk(v: Json, path: seq<Step>): seq<Visit> {
    match v
    case Obj(ms) => WalkMembers(ms, path)
    case Arr(items) => WalkItems(items, path, 0)
    case _ => []
  }

  function WalkMembers(ms: seq<Member>, path: seq<Step>): seq<Visit> {
    if ms == [] then []
    else
      var here := Visit(path, ms[0].key, ms[0].value);
      [here] + Walk(ms[0].value, path + [Key(ms[0].key)]) + WalkMembers(ms[1..], path)
  }

  function WalkItems(items: seq<Json>, path: seq<Step>, index: nat): seq<Visit> {
    if items == [] then []
    else Walk(items[0], path + [Index(index)]) + WalkItems(items[1..], path, index + 1)
  }

  // ---- every member of every object, exactly once ----

  /** The object at `path` holds `value` under `key`. */
  predicate Holds(v: Json, path: seq<Step>, key: Text, value: Json) {
    At(v, path).Some? && Child(At(v, path).value, Key(key)) == Some(value)
  }

  predicate HoldsBelow(v: Json, path: seq<Step>, x: Visit) {
    path <= x.parent && Holds(v, x.parent[|path|..], x.key, x.value)
  }

  /** A visit below `path + [step]`, seen from `path`. */
  lemma BelowStep(path: seq<Step>, step: Step, x: Visit)
    ensures path + [step] <= x.parent <==> path < x.parent && x.parent[|path|] == step
    ensures path + [step] <= x.parent ==> x.parent[|path|..][0] == step
    ensures path + [step] <= x.parent ==> x.parent[|path|..][1..] == x.parent[|path + [step]|..]
  {
  }

  /** Every member at every depth is visited exactly once, and nothing else is. */
  lemma {:induction false} WalkVisits(v: Json, path: seq<Step>, x: Visit)
    requires WellFormed(v)
    ensures multiset(Walk(v, path))[x] == if HoldsBelow(v, path, x) then 1 else 0
    decreases v, 1
  {
    match v
    case Obj(ms) => WalkMembersVisits(ms, path, x);
    case Arr(items) => WalkItemsVisits(items, path, 0, x);
    case _ =>
  }

  lemma {:induction false} WalkMembersVisits(ms: seq<Member>, path: seq<Step>, x: Visit)
    requires WellFormedMembers(ms)
    ensures multiset(WalkMembers(ms, path))[x] == if HoldsBelow(Obj(ms), path, x) then 1 else 0
    decreases ms, 0
  {
    if ms != [] {
      var step := Key(ms[0].key);
      TailWellFormed(ms);
      WalkVisits(ms[0].value, path + [step], x);
      WalkMembersVisits(ms[1..], path, x);
      HoldsSplit(ms, path, x);
    }
  }

  function One(b: bool): nat { if b then 1 else 0 }

  /** A member of a dict is its first, or below its first, or belongs to the rest; only one of the three. */
  lemma HoldsSplit(ms: seq<Member>, path: seq<Step>, x: Visit)
    requires WellFormedMembers(ms) && ms != []
    ensures One(HoldsBelow(Obj(ms), path, x)) ==
      One(x == Visit(path, ms[0].key, ms[0].value))
      + One(HoldsBelow(ms[0].value, path + [Key(ms[0].key)], x))
      + One(HoldsBelow(Obj(ms[1..]), path, x))
  {
    var step := Key(ms[0].key);
    BelowStep(path, step, x);
    TailWellFormed(ms);
    LookupMeans(ms[1..], ms[0].key);
    if x.parent == path {
      assert x.parent[|path|..] == [];
    } else if path + [step] <= x.parent {
      var below := x.parent[|path|..];
      assert At(Obj(ms), below) == At(ms[0].value, below[1..]);
      assert At(Obj(ms[1..]), below).None?;
    } else if path <= x.parent {
      var below := x.parent[|path|..];
      assert At(Obj(ms), below) == At(Obj(ms[1..]), below);
    }
  }

  lemma {:induction false} WalkItemsVisits(items: seq<Json>, path: seq<Step>, index: nat, x: Visit)
    requires WellFormed(Arr(items))
    ensures multiset(WalkItems(items, path, index))[x] == if ItemHolds(items, path, index, x) then 1 else 0
    decreases items, 0
  {
    if items != [] {
      WalkVisits(items[0], path + [Index(index)], x);
      WalkItemsVisits(items[1..], path, index + 1, x);
      ItemHoldsSplit(items, path, index, x);
    }
  }

  lemma ItemHoldsSplit(items: seq<Json>, path: seq<Step>, index: nat, x: Visit)
    requires items != []
    ensures One(ItemHolds(items, path, index, x)) ==
      One(HoldsBelow(items[0], path + [Index(index)], x)) + One(ItemHolds(items[1..], path, index + 1, x))
  {
    BelowStep(path, Index(index), x);
    if path + [Index(index)] <= x.parent {
      assert x.parent[|path| + 1..] == x.parent[|path + [Index(index)]|..];
    }
  }

  /** One of `items`, numbered from `index`, holds the member visited. */
  predicate ItemHolds(items: seq<Json>, path: seq<Step>, index: nat, x: Visit) {
    && path < x.parent && x.parent[|path|].Index?
    && index <= x.parent[|path|].index < index + |items|
    && Holds(items[x.parent[|path|].index - index], x.parent[|path| + 1..], x.key, x.value)
  }

  // ---- in the order of the document ----

  function KeyPosition(ms: seq<Member>, key: Text): nat {
    if ms == [] || ms[0].key == key then 0 else 1 + KeyPosition(ms[1..], key)
  }

  /** Which child of a value a step leads to, counted as the document lists them. */
  function Position(v: Json, step: Step): nat {
    match (v, step)
    case (Obj(ms), Key(k)) => KeyPosition(ms, k)
    case (_, Index(i)) => i
    case _ => 0
  }

  /** Document order of two places: an object before what lies in it, and
      otherwise by where the two ways to them part. */
  predicate Earlier(v: Json, a: seq<Step>, b: seq<Step>) { Compare(v, a, b) < 0 }

  function Compare(v: Json, a: seq<Step>, b: seq<Step>): int
    decreases |a|
  {
    if a == [] || b == [] then |a| - |b|
    else if a[0] != b[0] then Position(v, a[0]) - Position(v, b[0])
    else
      match Child(v, a[0])
      case Some(child) => Compare(child, a[1..], b[1..])
      case None => 0
  }

  /** Where the member visited is, seen from the place `path` leads to. */
  function Place(x: Visit, path: seq<Step>): seq<Step> {
    if path <= x.parent then x.parent[|path|..] + [Key(x.key)] else []
  }

  lemma VisitsLieBelow(v: Json, path: seq<Step>, x: Visit)
    requires WellFormed(v) && x in Walk(v, path)
    ensures HoldsBelow(v, path, x)
  {
    WalkVisits(v, path, x);
  }

  lemma {:induction false} KeyPositionAt(ms: seq<Member>, n: nat)
    requires DistinctKeys(ms) && n < |ms|
    ensures KeyPosition(ms, ms[n].key) == n
  {
    if n > 0 {
      KeyPositionAt(ms[1..], n - 1);
    }
  }

  lemma {:induction false} LookupAt(ms: seq<Member>, key: Text) returns (n: nat)
    requires Lookup(ms, key).Some?
    ensures n < |ms| && ms[n].key == key
  {
    if ms[0].key == key {
      n := 0;
    } else {
      var m := LookupAt(ms[1..], key);
      n := m + 1;
    }
  }

  /** The place of a visit to the members from the `n`-th on starts at one of them. */
  lemma MemberVisitStarts(ms: seq<Member>, n: nat, path: seq<Step>, x: Visit)
    requires WellFormedMembers(ms) && n <= |ms| && x in WalkMembers(ms[n..], path)
    ensures path <= x.parent && Place(x, path)[0].Key? && n <= Position(Obj(ms), Place(x, path)[0])
  {
    var rest := ms[n..];
    VisitsLieBelow(Obj(rest), path, x);
    var place := Place(x, path);
    var key := if x.parent == path then x.key else place[0].key;
    assert Lookup(rest, key).Some?;
    var m := LookupAt(rest, key);
    KeyPositionAt(ms, n + m);
  }

  lemma ChildVisitPlace(path: seq<Step>, step: Step, x: Visit)
    requires path + [step] <= x.parent
    ensures path <= x.parent && Place(x, path) == [step] + Place(x, path + [step])
    ensures Place(x, path)[0] == step && Place(x, path)[1..] == Place(x, path + [step])
  {
    BelowStep(path, step, x);
    assert x.parent[|path|..] == [step] + x.parent[|path + [step]|..];
  }

  /** The walk goes through the document in pre-order. */
  lemma {:induction false} WalkInOrder(v: Json, path: seq<Step>, i: nat, j: nat)
    requires WellFormed(v) && i < j < |Walk(v, path)|
    ensures var x, y := Walk(v, path)[i], Walk(v, path)[j];
      path <= x.parent && path <= y.parent && Earlier(v, Place(x, path), Place(y, path))
    decreases v, 0
  {
    VisitsLieBelow(v, path, Walk(v, path)[i]);
    VisitsLieBelow(v, path, Walk(v, path)[j]);
    match v
    case Obj(ms) =>
      assert ms[0..] == ms;
      MembersInOrder(ms, 0, path, i, j);
    case Arr(items) =>
      assert items[0..] == items;
      ItemsInOrder(items, 0, path, i, j);
    case _ =>
  }

  /** The yields of the members from the n-th on: that member, what lies below it, the rest. */
  lemma WalkMembersFrom(ms: seq<Member>, n: nat, path: seq<Step>) returns (w: seq<Visit>)
    requires n < |ms|
    ensures w == WalkMembers(ms[n..], path)
    ensures var below, rest := Walk(ms[n].value, path + [Key(ms[n].key)]), WalkMembers(ms[n + 1..], path);
      && |w| == 1 + |below| + |rest| && w[0] == Visit(path, ms[n].key, ms[n].value)
      && (forall i :: 0 < i <= |below| ==> w[i] == below[i - 1])
      && (forall i :: |below| < i < |w| ==> w[i] == rest[i - |below| - 1])
  {
    w := WalkMembers(ms[n..], path);
    assert ms[n..][1..] == ms[n + 1..];
  }

  lemma {:induction false} MembersInOrder(ms: seq<Member>, n: nat, path: seq<Step>, i: nat, j: nat)
    requires WellFormedMembers(ms) && n <= |ms| && i < j < |WalkMembers(ms[n..], path)|
    ensures var w := WalkMembers(ms[n..], path);
      Earlier(Obj(ms), Place(w[i], path), Place(w[j], path))
    decreases ms, |ms| - n
  {
    var below := Walk(ms[n].value, path + [Key(ms[n].key)]);
    var w := WalkMembersFrom(ms, n, path);
    if i > |below| {
      MembersInOrder(ms, n + 1, path, i - |below| - 1, j - |below| - 1);
    } else if j > |below| {
      MemberBeforeRest(ms, n, path, w[i], w[j]);
    } else if i == 0 {
      assert Place(w[0], path) == [Key(ms[n].key)];
      MemberBeforeBelow(ms, n, path, j - 1);
    } else {
      BelowInOrder(ms, n, path, i - 1, j - 1);
    }
  }

  lemma MemberBeforeRest(ms: seq<Member>, n: nat, path: seq<Step>, x: Visit, y: Visit)
    requires WellFormedMembers(ms) && n < |ms| && y in WalkMembers(ms[n + 1..], path)
    requires x == Visit(path, ms[n].key, ms[n].value) || x in Walk(ms[n].value, path + [Key(ms[n].key)])
    ensures Earlier(Obj(ms), Place(x, path), Place(y, path))
  {
    MemberVisitStarts(ms, n + 1, path, y);
    KeyPositionAt(ms, n);
    if x in Walk(ms[n].value, path + [Key(ms[n].key)]) {
      VisitsLieBelow(ms[n].value, path + [Key(ms[n].key)], x);
      ChildVisitPlace(path, Key(ms[n].key), x);
    }
  }

  lemma MemberBeforeBelow(ms: seq<Member>, n: nat, path: seq<Step>, j: nat)
    requires WellFormedMembers(ms) && n < |ms| && j < |Walk(ms[n].value, path + [Key(ms[n].key)])|
    ensures var y := Walk(ms[n].value, path + [Key(ms[n].key)])[j];
      Earlier(Obj(ms), [Key(ms[n].key)], Place(y, path))
  {
    ChildVisit(ms[n].value, path, Key(ms[n].key), j);
    LookupDistinct(ms, n);
  }

  lemma BelowInOrder(ms: seq<Member>, n: nat, path: seq<Step>, i: nat, j: nat)
    requires WellFormedMembers(ms) && n < |ms| && i < j < |Walk(ms[n].value, path + [Key(ms[n].key)])|
    ensures var w := Walk(ms[n].value, path + [Key(ms[n].key)]);
      Earlier(Obj(ms), Place(w[i], path), Place(w[j], path))
    decreases ms, 0
  {
    var step := Key(ms[n].key);
    var w := Walk(ms[n].value, path + [step]);
    ChildVisit(ms[n].value, path, step, i);
    ChildVisit(ms[n].value, path, step, j);
    WalkInOrder(ms[n].value, path + [step], i, j);
    LookupDistinct(ms, n);
    EarlierBelow(Obj(ms), step, ms[n].value, Place(w[i], path + [step]), Place(w[j], path + [step]));
  }

  lemma ChildVisit(child: Json, path: seq<Step>, step: Step, i: nat)
    requires WellFormed(child) && i < |Walk(child, path + [step])|
    ensures var x := Walk(child, path + [step])[i];
      path + [step] <= x.parent && path <= x.parent && Place(x, path) == [step] + Place(x, path + [step])
  {
    VisitsLieBelow(child, path + [step], Walk(child, path + [step])[i]);
    ChildVisitPlace(path, step, Walk(child, path + [step])[i]);
  }

  lemma EarlierBelow(v: Json, step: Step, child: Json, a: seq<Step>, b: seq<Step>)
    requires Child(v, step) == Some(child) && Earlier(child, a, b)
    ensures Earlier(v, [step] + a, [step] + b)
  {
    assert ([step] + a)[1..] == a && ([step] + b)[1..] == b;
  }

  lemma ItemVisitStarts(items: seq<Json>, path: seq<Step>, n: nat, x: Visit)
    requires WellFormed(Arr(items)) && x in WalkItems(items, path, n)
    ensures path < x.parent && Place(x, path)[0].Index? && n <= Place(x, path)[0].index
  {
    WalkItemsVisits(items, path, n, x);
  }

  lemma ItemBeforeRest(items: seq<Json>, n: nat, path: seq<Step>, i: nat, y: Visit)
    requires WellFormed(Arr(items)) && n < |items| && i < |Walk(items[n], path + [Index(n)])|
    requires y in WalkItems(items[n + 1..], path, n + 1)
    ensures Earlier(Arr(items), Place(Walk(items[n], path + [Index(n)])[i], path), Place(y, path))
  {
    ChildVisit(items[n], path, Index(n), i);
    ItemVisitStarts(items[n + 1..], path, n + 1, y);
  }

  lemma ItemInOrder(items: seq<Json>, n: nat, path: seq<Step>, i: nat, j: nat)
    requires WellFormed(Arr(items)) && n < |items| && i < j < |Walk(items[n], path + [Index(n)])|
    ensures var w := Walk(items[n], path + [Index(n)]);
      Earlier(Arr(items), Place(w[i], path), Place(w[j], path))
    decreases items, 0
  {
    var step := Index(n);
    var w := Walk(items[n], path + [step]);
    ChildVisit(items[n], path, step, i);
    ChildVisit(items[n], path, step, j);
    WalkInOrder(items[n], path + [step], i, j);
    EarlierBelow(Arr(items), step, items[n], Place(w[i], path + [step]), Place(w[j], path + [step]));
  }

  lemma WalkItemsFrom(items: seq<Json>, n: nat, path: seq<Step>) returns (w: seq<Visit>)
    requires n < |items|
    ensures w == WalkItems(items[n..], path, n)
    ensures var below, rest := Walk(items[n], path + [Index(n)]), WalkItems(items[n + 1..], path, n + 1);
      && |w| == |below| + |rest|
      && (forall i :: 0 <= i < |below| ==> w[i] == below[i])
      && (forall i :: |below| <= i < |w| ==> w[i] == rest[i - |below|])
  {
    w := WalkItems(items[n..], path, n);
    assert items[n..][1..] == items[n + 1..];
  }

  lemma {:induction false} ItemsInOrder(items: seq<Json>, n: nat, path: seq<Step>, i: nat, j: nat)
    requires WellFormed(Arr(items)) && n <= |items| && i < j < |WalkItems(items[n..], path, n)|
    ensures var w := WalkItems(items[n..], path, n);
      Earlier(Arr(items), Place(w[i], path), Place(w[j], path))
    decreases items, |items| - n
  {
    var below := Walk(items[n], path + [Index(n)]);
    var w := WalkItemsFrom(items, n, path);
    if i >= |below| {
      ItemsInOrder(items, n + 1, path, i - |below|, j - |below|);
    } else if j >= |below| {
      ItemBeforeRest(items, n, path, i, w[j]);
    } else {
      ItemInOrder(items, n, path, i, j);
    }
  }

  // ---- the check on private fields ----

  const FORBIDDEN_KEYS: set<Text> := {
    T("skill_body"), T("skill_content"), T("prompt"), T("source_code"), T("local_path"), T("full_path"),
    T("repo_path"), T("customer_name"), T("env"), T("secret"), T("private_key"), T("device_private_key")
  }
  const TOKEN_KEYS: set<Text> := {T("token"), T("license_token"), T("team_token"), T("member_token")}

  predicate LowerHexDigit(c: CodePoint) { IsDigit(c) || 0x61 <= c <= 0x66 }

  /** `^[a-f0-9]{64}$` under `match`: the `$` also lets one final line feed pass. */
  predicate Sha256Shaped(s: Text) {
    && (|s| == 64 || (|s| == 65 && s[64] == 0x0A))
    && forall i :: 0 <= i < 64 ==> LowerHexDigit(s[i])
  }

  datatype Fault = ForbiddenField | TokenNotRedacted | BadSha256

  /** What is wrong with one member; `lower` is `str.lower` on a single character. */
  function MemberFault(lower: CodePoint -> Text, key: Text, value: Json): Option<Fault> {
    var normalized := Lower(lower, key);
    if normalized in FORBIDDEN_KEYS then Some(ForbiddenField)
    else if normalized in TOKEN_KEYS && !(value.Str? && Contains(value.s, T("redacted"))) then Some(TokenNotRedacted)
    else if normalized == T("sha256") && !(value.Str? && Sha256Shaped(value.s)) then Some(BadSha256)
    else None
  }

  /** `json.dumps(value, ensure_ascii=False)`: insertion order and the spaced separators. */
  function Shown(v: Json): Text {
    match v
    case Arr(items) => T("[") + ShownItems(items) + T("]")
    case Obj(ms) => T("{") + ShownMembers(ms) + T("}")
    case _ => JsonPrinter.Print(v)
  }

  function ShownItems(items: seq<Json>): Text {
    if items == [] then []
    else if |items| == 1 then Shown(items[0])
    else Shown(items[0]) + T(", ") + ShownItems(items[1..])
  }

  function ShownMember(m: Member): Text {
    JsonPrinter.PrintString(m.key) + T(": ") + Shown(m.value)
  }

  function ShownMembers(ms: seq<Member>): Text {
    if ms == [] then []
    else if |ms| == 1 then ShownMember(ms[0])
    else ShownMember(ms[0]) + T(", ") + ShownMembers(ms[1..])
  }

  predicate ShowsBodyText(lower: CodePoint -> Text, v: Json) {
    var serialized := Lower(lower, Shown(v));
    Contains(serialized, T("skill.md")) || Contains(serialized, T("```"))
  }

  ghost predicate Inside(part: Text, whole: Text) {
    exists before, after :: whole == before + part + after
  }

  /** Sixty-four lower-case hexadecimal digits, and perhaps a line feed. */
  ghost predicate HexDigest(s: Text) {
    exists h: Text :: |h| == 64 && (forall i :: 0 <= i < 64 ==> LowerHexDigit(h[i])) && (s == h || s == h + [0x0A])
  }

  /** What a member may hold under its key, in any case: nothing under a private one, a redacted text
      under that of a token, a digest under "sha256". */
  ghost predicate Lawful(lower: CodePoint -> Text, key: Text, value: Json) {
    var k := Lower(lower, key);
    && k !in FORBIDDEN_KEYS
    && (k in TOKEN_KEYS ==> value.Str? && Inside(T("redacted"), value.s))
    && (k == T("sha256") ==> value.Str? && HexDigest(value.s))
  }

  /** Every member at every depth is lawful, and the printed document shows no skill body. */
  ghost predicate Passes(lower: CodePoint -> Text, v: Json) {
    && !Inside(T("skill.md"), Lower(lower, Shown(v))) && !Inside(T("```"), Lower(lower, Shown(v)))
    && forall path, key, value :: Holds(v, path, key, value) ==> Lawful(lower, key, value)
  }

  lemma ShapeIsDigest(s: Text)
    ensures Sha256Shaped(s) <==> HexDigest(s)
  {
    if Sha256Shaped(s) {
      var h := s[..64];
      assert s == h || s == h + [0x0A];
    }
  }

  lemma TokensAreNotDigests()
    ensures T("sha256") !in TOKEN_KEYS && T("sha256") !in FORBIDDEN_KEYS
  {
    LiteralsDiffer("sha256", "prompt");
    LiteralsDiffer("sha256", "secret");
  }

  /** Which fault a member has. */
  lemma FaultMeans(lower: CodePoint -> Text, key: Text, value: Json)
    ensures var k, fault := Lower(lower, key), MemberFault(lower, key, value);
      && (fault.None? <==> Lawful(lower, key, value))
      && (fault == Some(ForbiddenField) <==> k in FORBIDDEN_KEYS)
      && (fault == Some(BadSha256) <==> k == T("sha256") && !Lawful(lower, key, value))
  {
    TokensAreNotDigests();
    if value.Str? {
      ContainsMeans(value.s, T("redacted"));
      ShapeIsDigest(value.s);
    }
  }

  lemma BodyTextMeans(lower: CodePoint -> Text, v: Json)
    ensures ShowsBodyText(lower, v) <==>
      Inside(T("skill.md"), Lower(lower, Shown(v))) || Inside(T("```"), Lower(lower, Shown(v)))
  {
    ContainsMeans(Lower(lower, Shown(v)), T("skill.md"));
    ContainsMeans(Lower(lower, Shown(v)), T("```"));
  }

  datatype Failure = BodyText | Field(fault: Fault, at: Visit)

  /** The check fails on exactly the documents that do not pass, naming the
      first faulty member in walk order. */
  method ValidateNoPrivateFields(lower: CodePoint -> Text, data: Json) returns (r: Option<Failure>)
    requires WellFormed(data)
    ensures r.None? <==> Passes(lower, data)
    ensures r == Some(BodyText) <==>
      Inside(T("skill.md"), Lower(lower, Shown(data))) || Inside(T("```"), Lower(lower, Shown(data)))
    ensures r.Some? && r.value.Field? ==>
      var w := Walk(data, []);
      exists n :: 0 <= n < |w| && w[n] == r.value.at
        && MemberFault(lower, w[n].key, w[n].value) == Some(r.value.fault)
        && forall i :: 0 <= i < n ==> MemberFault(lower, w[i].key, w[i].value).None?
  {
    BodyTextMeans(lower, data);
    if ShowsBodyText(lower, data) {
      return Some(BodyText);
    }
    var visits := Walk(data, []);
    for n := 0 to |visits|
      invariant forall i :: 0 <= i < n ==> MemberFault(lower, visits[i].key, visits[i].value).None?
    {
      var fault := MemberFault(lower, visits[n].key, visits[n].value);
      if fault.Some? {
        VisitsLieBelow(data, [], visits[n]);
        FaultMeans(lower, visits[n].key, visits[n].value);
        return Some(Field(fault.value, visits[n]));
      }
    }
    NoFaultOnWalk(lower, data);
    return None;
  }

  lemma NoFaultOnWalk(lower: CodePoint -> Text, v: Json)
    requires WellFormed(v) && forall x :: x in Walk(v, []) ==> MemberFault(lower, x.key, x.value).None?
    ensures forall path, key, value :: Holds(v, path, key, value) ==> Lawful(lower, key, value)
  {
    forall path, key, value | Holds(v, path, key, value) ensures Lawful(lower, key, value) {
      FaultMeans(lower, key, value);
      WalkVisits(v, [], Visit(path, key, value));
      assert Visit(path, key, value) in Walk(v, []);
    }
  }

  // ---- parts of a passing document pass ----

  lemma InsideWrap(part: Text, whole: Text, before: Text, after: Text)
    requires Inside(part, whole)
    ensures Inside(part, before + whole + after)
  {
    var b, a :| whole == b + part + a;
    assert before + whole + after == (before + b) + part + (a + after);
  }

  lemma InsideItself(part: Text)
    ensures Inside(part, part)
  {
    assert part == [] + part + [];
  }

  /** The printed form of a part lies in one piece in that of the whole. */
  lemma {:induction false} ShownInside(v: Json, path: seq<Step>)
    requires At(v, path).Some?
    ensures Inside(Shown(At(v, path).value), Shown(v))
    decreases |path|
  {
    if path == [] {
      InsideItself(Shown(v));
    } else {
      var child := Child(v, path[0]).value;
      ShownInside(child, path[1..]);
      match (v, path[0])
      case (Obj(ms), Key(k)) =>
        MemberInside(ms, k, Shown(At(v, path).value));
        InsideWrap(Shown(At(v, path).value), ShownMembers(ms), T("{"), T("}"));
      case (Arr(items), Index(i)) =>
        ItemInside(items, i, Shown(At(v, path).value));
        InsideWrap(Shown(At(v, path).value), ShownItems(items), T("["), T("]"));
      case _ =>
    }
  }

  lemma {:induction false} MemberInside(ms: seq<Member>, key: Text, part: Text)
    requires Lookup(ms, key).Some? && Inside(part, Shown(Lookup(ms, key).value))
    ensures Inside(part, ShownMembers(ms))
  {
    var name := JsonPrinter.PrintString(ms[0].key) + T(": ");
    if ms[0].key == key {
      InsideWrap(part, Shown(ms[0].value), name, []);
      assert ShownMember(ms[0]) == name + Shown(ms[0].value) + [];
    } else {
      MemberInside(ms[1..], key, part);
    }
    if |ms| > 1 {
      PairInside(part, ShownMember(ms[0]), T(", "), ShownMembers(ms[1..]));
    }
  }

  lemma {:induction false} ItemInside(items: seq<Json>, i: nat, part: Text)
    requires i < |items| && Inside(part, Shown(items[i]))
    ensures Inside(part, ShownItems(items))
  {
    if i > 0 {
      ItemInside(items[1..], i - 1, part);
    }
    if |items| > 1 {
      PairInside(part, Shown(items[0]), T(", "), ShownItems(items[1..]));
    }
  }

  lemma PairInside(part: Text, first: Text, separator: Text, rest: Text)
    requires Inside(part, first) || Inside(part, rest)
    ensures Inside(part, first + separator + rest)
  {
    if Inside(part, first) {
      InsideWrap(part, first, [], separator + rest);
      assert [] + first + (separator + rest) == first + separator + rest;
    } else {
      InsideWrap(part, rest, first + separator, []);
      assert first + separator + rest + [] == first + separator + rest;
    }
  }

  /** Any part of a passing document would pass by itself. */
  lemma PartsPass(lower: CodePoint -> Text, v: Json, path: seq<Step>)
    requires Passes(lower, v) && At(v, path).Some?
    ensures Passes(lower, At(v, path).value)
  {
    var part := At(v, path).value;
    forall q, key, value | Holds(part, q, key, value) ensures Lawful(lower, key, value) {
      AtAppend(v, path, q);
      assert Holds(v, path + q, key, value);
    }
    ShownInside(v, path);
    LowerInside(lower, Shown(part), Shown(v));
    if Inside(T("skill.md"), Lower(lower, Shown(part))) {
      InsideChain(T("skill.md"), Lower(lower, Shown(part)), Lower(lower, Shown(v)));
    }
    if Inside(T("```"), Lower(lower, Shown(part))) {
      InsideChain(T("```"), Lower(lower, Shown(part)), Lower(lower, Shown(v)));
    }
  }

  lemma InsideChain(a: Text, b: Text, c: Text)
    requires Inside(a, b) && Inside(b, c)
    ensures Inside(a, c)
  {
    var before, after :| c == before + b + after;
    InsideWrap(a, b, before, after);
  }

  lemma LowerInside(lower: CodePoint -> Text, part: Text, whole: Text)
    requires Inside(part, whole)
    ensures Inside(Lower(lower, part), Lower(lower, whole))
  {
    var before, after :| whole == before + part + after;
    LowerAppend(lower, before + part, after);
    LowerAppend(lower, before, part);
  }

  // ---- what the printed document shows ----

  /** A key or a text, somewhere in the document. */
  ghost predicate Says(v: Json, s: Text) {
    (exists path :: At(v, path) == Some(Str(s))) || (exists path, value :: Holds(v, path, s, value))
  }

  lemma {:induction false} KeyInside(ms: seq<Member>, key: Text)
    requires Lookup(ms, key).Some?
    ensures Inside(JsonPrinter.PrintString(key), ShownMembers(ms))
  {
    var printed := JsonPrinter.PrintString(key);
    if ms[0].key == key {
      InsideItself(printed);
      InsideWrap(printed, printed, [], T(": ") + Shown(ms[0].value));
      assert ShownMember(ms[0]) == [] + printed + (T(": ") + Shown(ms[0].value));
    } else {
      KeyInside(ms[1..], key);
    }
    if |ms| > 1 {
      PairInside(printed, ShownMember(ms[0]), T(", "), ShownMembers(ms[1..]));
    }
  }

  /** Every key and every text of a document stands in its printed form, as a string literal. */
  lemma TextsAreShown(v: Json, s: Text)
    requires Says(v, s)
    ensures Inside(JsonPrinter.PrintString(s), Shown(v))
  {
    if path :| At(v, path) == Some(Str(s)) {
      ShownInside(v, path);
    } else {
      var path, value :| Holds(v, path, s, value);
      var ms := At(v, path).value.members;
      KeyInside(ms, s);
      InsideWrap(JsonPrinter.PrintString(s), ShownMembers(ms), T("{"), T("}"));
      ShownInside(v, path);
      InsideChain(JsonPrinter.PrintString(s), Shown(At(v, path).value), Shown(v));
    }
  }

  /** So a document does not pass that says "skill.md", in any case, or three backticks, anywhere in a
      key or a text that is printed as it stands. */
  lemma BodyTextIsFound(lower: CodePoint -> Text, v: Json, s: Text, what: Text)
    requires Says(v, s) && JsonPrinter.Escape(s) == s && what in [T("skill.md"), T("```")]
    requires Inside(what, Lower(lower, s))
    ensures !Passes(lower, v)
  {
    TextsAreShown(v, s);
    InsideItself(s);
    InsideWrap(s, s, [JsonPrinter.QUOTE], [JsonPrinter.QUOTE]);
    InsideChain(s, JsonPrinter.PrintString(s), Shown(v));
    LowerInside(lower, s, Shown(v));
    InsideChain(what, Lower(lower, s), Lower(lower, Shown(v)));
  }
}
