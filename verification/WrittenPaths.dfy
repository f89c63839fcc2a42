/** The parent path as the walk writes it in a message, and which places that tells apart. */
module WrittenPaths {
  import opened Texts
  import opened JsonValues
  import opened JsonDict
  import JsonWalk
  import Sequences

  const DOT: CodePoint := 0x2E
  const BRACKET: CodePoint := 0x5B

  function RenderStep(step: Step): Text {
    match step
    case Key(k) => [DOT] + k
    case Index(i) => [BRACKET] + NatText(i) + T("]")
  }

  function Render(path: seq<Step>): Text {
    if path == [] then T("$") else Render(path[..|path| - 1]) + RenderStep(path[|path| - 1])
  }

  lemma RenderAppend(path: seq<Step>, step: Step)
    ensures Render(path + [step]) == Render(path) + RenderStep(step)
  {
    assert (path + [step])[..|path|] == path;
  }

  lemma {:induction false} RenderNonempty(path: seq<Step>)
    ensures |Render(path)| >= 1 && (path != [] ==> |Render(path)| >= 2)
  {
    if path != [] {
      RenderNonempty(path[..|path| - 1]);
    }
  }

  /** The key ends like a written list index. */
  ghost predicate EndsInIndex(key: Text) {
    exists a, i :: key == a + RenderStep(Index(i))
  }

  /** A key that can be read off a written path: no dot, and no written index at its end. */
  ghost predicate Clear(key: Text) { DOT !in key && !EndsInIndex(key) }

  ghost predicate ClearPath(path: seq<Step>) {
    forall i :: 0 <= i < |path| && path[i].Key? ==> Clear(path[i].key)
  }

  /** A text splits in one way at its last `stop`. */
  lemma LastStop(stop: CodePoint, a: Text, x: Text, b: Text, y: Text)
    requires stop !in x && stop !in y && a + [stop] + x == b + [stop] + y
    ensures a == b && x == y
  {
    AfterStop(stop, a, x);
    AfterStop(stop, b, y);
    assert |a| == |b|;
  }

  lemma AfterStop(stop: CodePoint, a: Text, x: Text)
    requires stop !in x
    ensures var l := a + [stop] + x;
      l[..|a|] == a && l[|a|] == stop && l[|a| + 1..] == x && forall k :: |a| < k < |l| ==> l[k] != stop
  {
  }

  lemma IndexShape(i: nat)
    ensures var t := RenderStep(Index(i));
      t == [BRACKET] + (NatText(i) + T("]")) && DOT !in t && BRACKET !in NatText(i) + T("]")
  {
    Sequences.Associate([BRACKET], NatText(i), T("]"));
    assert forall c :: c in NatText(i) ==> IsDigit(c);
  }

  lemma KeysReadBack(a: Text, k: Text, b: Text, l: Text)
    requires DOT !in k && DOT !in l && a + RenderStep(Key(k)) == b + RenderStep(Key(l))
    ensures a == b && k == l
  {
    Sequences.Associate(a, [DOT], k);
    Sequences.Associate(b, [DOT], l);
    LastStop(DOT, a, k, b, l);
  }

  lemma IndicesReadBack(a: Text, i: nat, b: Text, j: nat)
    requires a + RenderStep(Index(i)) == b + RenderStep(Index(j))
    ensures a == b && i == j
  {
    var x, y := NatText(i) + T("]"), NatText(j) + T("]");
    IndexShape(i);
    IndexShape(j);
    Sequences.Associate(a, [BRACKET], x);
    Sequences.Associate(b, [BRACKET], y);
    LastStop(BRACKET, a, x, b, y);
    assert x[..|x| - 1] == NatText(i) && y[..|y| - 1] == NatText(j);
    NatTextValue(i);
    NatTextValue(j);
  }

  /** What ends both like a key and like an index has a key that ends like the index. */
  lemma KeyOrIndex(a: Text, k: Text, b: Text, i: nat)
    requires a + RenderStep(Key(k)) == b + RenderStep(Index(i))
    ensures EndsInIndex(k)
  {
    var t := RenderStep(Index(i));
    var l, r := a + ([DOT] + k), b + t;
    IndexShape(i);
    assert l[|a|] == DOT;
    assert forall j :: |b| <= j < |r| ==> r[j] != DOT;
    assert k == l[|a| + 1..] && l[|a| + 1..] == r[|a| + 1..];
    assert r[|a| + 1..] == b[|a| + 1..] + t;
  }

  lemma LastOfClear(a: Text, x: Step, b: Text, y: Step)
    requires (x.Key? ==> Clear(x.key)) && (y.Key? ==> Clear(y.key))
    requires a + RenderStep(x) == b + RenderStep(y)
    ensures a == b && x == y
  {
    match (x, y)
    case (Key(k), Key(l)) => KeysReadBack(a, k, b, l);
    case (Index(i), Index(j)) => IndicesReadBack(a, i, b, j);
    case (Key(k), Index(i)) => KeyOrIndex(a, k, b, i);
    case (Index(i), Key(k)) => KeyOrIndex(b, k, a, i);
  }

  lemma LastSteps(p: seq<Step>, q: seq<Step>)
    requires ClearPath(p) && ClearPath(q) && p != [] && q != [] && Render(p) == Render(q)
    ensures p[|p| - 1] == q[|q| - 1] && Render(p[..|p| - 1]) == Render(q[..|q| - 1])
    ensures ClearPath(p[..|p| - 1]) && ClearPath(q[..|q| - 1])
  {
    LastOfClear(Render(p[..|p| - 1]), p[|p| - 1], Render(q[..|q| - 1]), q[|q| - 1]);
  }

  lemma EmptyRendersAlone(p: seq<Step>, q: seq<Step>)
    requires Render(p) == Render(q)
    ensures p == [] <==> q == []
  {
    RenderNonempty(p);
    RenderNonempty(q);
  }

  /** Where every key is clear, the written path tells the place. */
  lemma {:induction false} ClearPathsReadBack(p: seq<Step>, q: seq<Step>)
    requires ClearPath(p) && ClearPath(q) && Render(p) == Render(q)
    ensures p == q
    decreases |p|
  {
    EmptyRendersAlone(p, q);
    if p != [] {
      LastSteps(p, q);
      ClearPathsReadBack(p[..|p| - 1], q[..|q| - 1]);
      Sequences.SameFrontAndLast(p, q);
    }
  }

  // ---- and no key less ----

  /** The walk yields members under this parent path. */
  ghost predicate Yields(v: Json, path: seq<Step>) {
    exists x :: x in JsonWalk.Walk(v, []) && x.parent == path
  }

  /** One document, two places it yields members from, one way of writing both. */
  ghost predicate Collide(v: Json, p: seq<Step>, q: seq<Step>) {
    WellFormed(v) && p != q && Yields(v, p) && Yields(v, q) && Render(p) == Render(q)
  }

  const BOX: Json := Obj([Member([], Null)])

  lemma BoxIsYielded(v: Json, path: seq<Step>)
    requires WellFormed(v) && At(v, path) == Some(BOX)
    ensures Yields(v, path)
  {
    var x := JsonWalk.Visit(path, [], Null);
    JsonWalk.WalkVisits(v, [], x);
    assert x in JsonWalk.Walk(v, []);
  }

  /** The smallest document that holds `v` at the path. */
  function Nest(path: seq<Step>, v: Json): Json
    decreases |path|
  {
    if path == [] then v
    else
      var inner := Nest(path[1..], v);
      match path[0]
      case Key(k) => Obj([Member(k, inner)])
      case Index(i) => Arr(seq(i + 1, _ => inner))
  }

  lemma {:induction false} NestHolds(path: seq<Step>, v: Json)
    requires WellFormed(v)
    ensures WellFormed(Nest(path, v)) && At(Nest(path, v), path) == Some(v)
    decreases |path|
  {
    if path != [] {
      NestHolds(path[1..], v);
    }
  }

  /** A document that branches: the rest of the path lies under the key `a` and a step, and under the
      key `c` at once. */
  function Fork(a: Text, step: Step, c: Text, rest: seq<Step>): Json {
    Obj([Member(a, Nest([step] + rest, BOX)), Member(c, Nest(rest, BOX))])
  }

  lemma ForkHolds(a: Text, step: Step, c: Text, rest: seq<Step>)
    requires a != c
    ensures var v := Fork(a, step, c, rest);
      WellFormed(v) && At(v, [Key(a), step] + rest) == Some(BOX) && At(v, [Key(c)] + rest) == Some(BOX)
  {
    var x, y := Nest([step] + rest, BOX), Nest(rest, BOX);
    var ms := [Member(a, x), Member(c, y)];
    NestHolds([step] + rest, BOX);
    NestHolds(rest, BOX);
    assert ms[1..] == [Member(c, y)] && ms[1..][0].key == c;
    assert Lookup(ms, a) == Some(x) && Lookup(ms[1..], c) == Some(y);
    assert ([Key(a), step] + rest)[1..] == [step] + rest && ([Key(c)] + rest)[1..] == rest;
  }

  /** What is written alike stays so with the same steps behind. */
  lemma {:induction false} RenderBehind(p: seq<Step>, q: seq<Step>, rest: seq<Step>)
    requires Render(p) == Render(q)
    ensures Render(p + rest) == Render(q + rest)
    decreases |rest|
  {
    if rest == [] {
      assert p + rest == p && q + rest == q;
    } else {
      var step := rest[0];
      RenderAppend(p, step);
      RenderAppend(q, step);
      RenderBehind(p + [step], q + [step], rest[1..]);
      Sequences.MoveHead(p, rest);
      Sequences.MoveHead(q, rest);
    }
  }

  lemma StepJoinsLastKey(front: seq<Step>, a: Text, step: Step)
    ensures Render(front + [Key(a), step]) == Render(front + [Key(a + RenderStep(step))])
  {
    var t := RenderStep(step);
    assert front + [Key(a), step] == front + [Key(a)] + [step];
    RenderAppend(front + [Key(a)], step);
    RenderAppend(front, Key(a));
    RenderAppend(front, Key(a + t));
    Sequences.Associate([DOT], a, t);
    Sequences.Associate(Render(front), [DOT] + a, t);
  }

  /** A key with a step behind it is written like one longer key. */
  lemma StepJoinsKey(front: seq<Step>, a: Text, step: Step, rest: seq<Step>)
    ensures Render(front + ([Key(a), step] + rest)) == Render(front + ([Key(a + RenderStep(step))] + rest))
  {
    var two, one := [Key(a), step], [Key(a + RenderStep(step))];
    StepJoinsLastKey(front, a, step);
    RenderBehind(front + two, front + one, rest);
    Sequences.Associate(front, two, rest);
    Sequences.Associate(front, one, rest);
  }

  lemma JoinedKeyCollides(front: seq<Step>, a: Text, step: Step, rest: seq<Step>) returns (v: Json)
    ensures Collide(v, front + ([Key(a), step] + rest), front + ([Key(a + RenderStep(step))] + rest))
  {
    var c := a + RenderStep(step);
    var inner := Fork(a, step, c, rest);
    assert |c| > |a|;
    ForkHolds(a, step, c, rest);
    v := Nest(front, inner);
    NestHolds(front, inner);
    AtAppend(v, front, [Key(a), step] + rest);
    AtAppend(v, front, [Key(c)] + rest);
    BoxIsYielded(v, front + ([Key(a), step] + rest));
    BoxIsYielded(v, front + ([Key(c)] + rest));
    StepJoinsKey(front, a, step, rest);
    assert |front + ([Key(a), step] + rest)| != |front + ([Key(c)] + rest)|;
  }

  /** An unclear key is a shorter key with a step written behind it. */
  lemma UnclearKeySplits(c: Text) returns (a: Text, step: Step)
    requires !Clear(c)
    ensures c == a + RenderStep(step)
  {
    if DOT in c {
      var n :| 0 <= n < |c| && c[n] == DOT;
      a, step := c[..n], Key(c[n + 1..]);
    } else {
      var b, i :| c == b + RenderStep(Index(i));
      a, step := b, Index(i);
    }
  }

  /** List indices, and then perhaps one clear key. */
  ghost predicate Rigid(p: seq<Step>) {
    forall i :: 0 <= i < |p| && p[i].Key? ==> i == |p| - 1 && Clear(p[i].key)
  }

  lemma CollideSymmetric(v: Json, p: seq<Step>, q: seq<Step>)
    requires Collide(v, p, q)
    ensures Collide(v, q, p)
  {
  }

  lemma LoosePathCollides(p: seq<Step>) returns (v: Json, q: seq<Step>)
    requires !Rigid(p)
    ensures Collide(v, p, q)
  {
    var i :| 0 <= i < |p| && p[i].Key? && (i < |p| - 1 || !Clear(p[i].key));
    var front, k := p[..i], p[i].key;
    if i < |p| - 1 {
      var step, rest := p[i + 1], p[i + 2..];
      assert p == front + ([Key(k), step] + rest);
      q := front + ([Key(k + RenderStep(step))] + rest);
      v := JoinedKeyCollides(front, k, step, rest);
    } else {
      var a, step := UnclearKeySplits(k);
      assert p == front + ([Key(k)] + []);
      q := front + ([Key(a), step] + []);
      v := JoinedKeyCollides(front, a, step, []);
      CollideSymmetric(v, q, p);
    }
  }

  lemma {:induction false} IndicesHaveNoDot(p: seq<Step>)
    requires forall i :: 0 <= i < |p| ==> p[i].Index?
    ensures DOT !in Render(p)
  {
    if p == [] {
      assert T("$") == [0x24];
    } else {
      IndicesHaveNoDot(p[..|p| - 1]);
      IndexShape(p[|p| - 1].index);
    }
  }

  /** A text with one `stop` splits in one way at it. */
  lemma OnlyStop(stop: CodePoint, a: Text, x: Text, b: Text, y: Text)
    requires stop !in a && stop !in x && a + [stop] + x == b + [stop] + y
    ensures a == b && x == y
  {
    var l, r := a + [stop] + x, b + [stop] + y;
    assert r[|b|] == stop && forall j :: |a| < j < |l| ==> l[j] == x[j - |a| - 1];
    assert forall j :: 0 <= j < |a| ==> l[j] == a[j];
    assert |b| == |a|;
    assert l[..|a|] == a && r[..|b|] == b && l[|a| + 1..] == x && r[|b| + 1..] == y;
  }

  lemma KeyShowsDot(b: Text, k: Text)
    ensures DOT in b + RenderStep(Key(k))
  {
    assert (b + RenderStep(Key(k)))[|b|] == DOT;
  }

  lemma RigidKey(a: Text, c: Text, b: Text, y: Step)
    requires DOT !in a && Clear(c) && b + RenderStep(y) == a + RenderStep(Key(c))
    ensures a == b && y == Key(c)
  {
    match y
    case Key(k) =>
      Sequences.Associate(a, [DOT], c);
      Sequences.Associate(b, [DOT], k);
      OnlyStop(DOT, a, c, b, k);
    case Index(i) => KeyOrIndex(a, c, b, i);
  }

  lemma RigidIndex(a: Text, i: nat, b: Text, y: Step)
    requires DOT !in a && b + RenderStep(y) == a + RenderStep(Index(i))
    ensures a == b && y == Index(i)
  {
    match y
    case Index(j) => IndicesReadBack(a, i, b, j);
    case Key(k) =>
      IndexShape(i);
      KeyShowsDot(b, k);
  }

  lemma RigidLastSteps(p: seq<Step>, q: seq<Step>)
    requires Rigid(p) && p != [] && q != [] && Render(q) == Render(p)
    ensures p[|p| - 1] == q[|q| - 1] && Render(q[..|q| - 1]) == Render(p[..|p| - 1])
  {
    var a, x, b, y := Render(p[..|p| - 1]), p[|p| - 1], Render(q[..|q| - 1]), q[|q| - 1];
    IndicesHaveNoDot(p[..|p| - 1]);
    match x
    case Key(k) => RigidKey(a, k, b, y);
    case Index(i) => RigidIndex(a, i, b, y);
  }

  /** Nothing else is written like a rigid path. */
  lemma {:induction false} RigidPathIsAlone(p: seq<Step>, q: seq<Step>)
    requires Rigid(p) && Render(q) == Render(p)
    ensures q == p
    decreases |p|
  {
    EmptyRendersAlone(p, q);
    if p != [] {
      RigidLastSteps(p, q);
      RigidPathIsAlone(p[..|p| - 1], q[..|q| - 1]);
      Sequences.SameFrontAndLast(q, p);
    }
  }

  /** Some document has a second place written like `p`. */
  ghost predicate Collides(p: seq<Step>) { exists v, q :: Collide(v, p, q) }

  /** Some other path is written like `p`. */
  ghost predicate WrittenTwice(p: seq<Step>) { exists q :: q != p && Render(q) == Render(p) }

  lemma CollisionIsWritten(v: Json, p: seq<Step>, q: seq<Step>)
    requires Collide(v, p, q)
    ensures Collides(p) && WrittenTwice(p)
  {
  }

  lemma RigidIsWrittenOnce(p: seq<Step>)
    requires Rigid(p)
    ensures !WrittenTwice(p)
  {
    forall q | Render(q) == Render(p) ensures q == p {
      RigidPathIsAlone(p, q);
    }
  }

  lemma WrittenOnceIsAlone(p: seq<Step>)
    requires !WrittenTwice(p)
    ensures !Collides(p)
  {
  }

  /** The parent path in a message can stand for two places of one document, `p` one of them, exactly
      when `p` has a key with another step behind it, or ends in a key that is not clear. */
  lemma PathCollidesUnlessRigid(p: seq<Step>)
    ensures Collides(p) <==> !Rigid(p)
    ensures WrittenTwice(p) <==> !Rigid(p)
  {
    if Rigid(p) {
      RigidIsWrittenOnce(p);
      WrittenOnceIsAlone(p);
    } else {
      var v, q := LoosePathCollides(p);
      CollisionIsWritten(v, p, q);
    }
  }

  /** For a key at the top: exactly when it holds a dot or ends like a list index. */
  lemma KeyCollidesUnlessClear(c: Text)
    ensures Collides([Key(c)]) <==> !Clear(c)
    ensures WrittenTwice([Key(c)]) <==> !Clear(c)
  {
    PathCollidesUnlessRigid([Key(c)]);
    assert [Key(c)][0].key == c;
  }
}
