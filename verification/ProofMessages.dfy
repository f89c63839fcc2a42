/** Which proofs a device's signature covers, and what that means for the requests a
    verifier accepts over a whole run. */
module ProofMessages {
  import opened Texts
  import opened DeviceProof

  /** Two proofs that say something different in one and the same signed message. */
  ghost predicate SharesMessage(path: Text, p: ProofHeader, path': Text, q: ProofHeader)
    requires p.Proof?
  {
    q.Proof? && SignedMessage(path', q) == SignedMessage(path, p) && SignedParts(path', q) != SignedParts(path, p)
  }

  /** A signed field of the header holds a line feed. */
  predicate Spans(p: ProofHeader)
    requires p.Proof?
  {
    LF in p.bodySha256 || LF in p.timestamp || LF in p.nonce || LF in p.installId || LF in p.thumbprint
  }

  function Fields(p: ProofHeader): seq<Text>
    requires p.Proof?
  {
    [p.bodySha256, p.timestamp, p.nonce, p.installId, p.thumbprint]
  }

  lemma FieldsSpan(p: ProofHeader)
    requires p.Proof?
    ensures OnOneLine(Fields(p)) <==> !Spans(p)
  {
    var f := Fields(p);
    assert f[0] == p.bodySha256 && f[1] == p.timestamp && f[2] == p.nonce && f[3] == p.installId && f[4] == p.thumbprint;
  }

  lemma JoinCons(x: Text, rest: seq<Text>)
    requires rest != []
    ensures Join(LF, [x] + rest) == x + [LF] + Join(LF, rest)
  {
    assert ([x] + rest)[1..] == rest;
  }

  /** The first character of the path aside, a message is its other six parts. */
  lemma MessageIs(path: Text, p: ProofHeader)
    requires p.Proof?
    ensures var s := SignedPath(path);
      SignedMessage(path, p) == T("POST") + [LF] + ([s[0]] + Join(LF, [s[1..]] + Fields(p)))
    ensures SignedParts(path, p) == [T("POST"), SignedPath(path)] + Fields(p)
  {
    var s := SignedPath(path);
    assert SignedParts(path, p) == [T("POST")] + ([s] + Fields(p));
    JoinCons(T("POST"), [s] + Fields(p));
    JoinCons(s, Fields(p));
    JoinCons(s[1..], Fields(p));
    assert s == [s[0]] + s[1..];
  }

  /** Parts of which one spans lines are not: cut that one at a line feed and merge two others. */
  lemma {:induction false} JoinsTwice(parts: seq<Text>) returns (other: seq<Text>)
    requires |parts| >= 2 && !OnOneLine(parts)
    ensures |other| == |parts| && other != parts && Join(LF, other) == Join(LF, parts)
  {
    var first, rest := parts[0], parts[1..];
    assert parts == [first] + rest;
    JoinCons(first, rest);
    if LF in first {
      var n :| 0 <= n < |first| && first[n] == LF;
      other := MergeAfter(first, n, rest);
    } else if |rest| >= 2 {
      var tail := JoinsTwice(rest);
      other := [first] + tail;
      JoinCons(first, tail);
      assert other[1..] == tail;
    } else {
      var n :| 0 <= n < |rest[0]| && rest[0][n] == LF;
      var x, y := rest[0][..n], rest[0][n + 1..];
      assert rest[0] == x + [LF] + y;
      other := [first + [LF] + x, y];
      assert other[1..] == [y];
      assert |other[0]| != |first|;
      assert first + [LF] + (x + [LF] + y) == (first + [LF] + x) + [LF] + y;
    }
  }

  lemma MergeAfter(first: Text, n: nat, rest: seq<Text>) returns (other: seq<Text>)
    requires n < |first| && first[n] == LF && rest != []
    ensures |other| == |rest| + 1 && other[0] != first
    ensures Join(LF, other) == first + [LF] + Join(LF, rest)
  {
    var x, y := first[..n], first[n + 1..];
    assert first == x + [LF] + y;
    var merged := [y + [LF] + rest[0]] + rest[1..];
    other := [x] + merged;
    JoinCons(x, merged);
    assert Join(LF, merged) == y + [LF] + Join(LF, rest) by {
      assert rest == [rest[0]] + rest[1..];
      if |rest| > 1 {
        JoinCons(y + [LF] + rest[0], rest[1..]);
        JoinCons(rest[0], rest[1..]);
      } else {
        assert merged == [y + [LF] + rest[0]];
      }
    }
    assert |other[0]| != |first|;
  }

  /** The proof with these fields. */
  function WithFields(p: ProofHeader, fields: seq<Text>): (q: ProofHeader)
    requires p.Proof? && |fields| == 5
    ensures q.Proof? && Fields(q) == fields
  {
    p.(bodySha256 := fields[0], timestamp := fields[1], nonce := fields[2], installId := fields[3],
       thumbprint := fields[4])
  }

  lemma PartsTell(path: Text, p: ProofHeader, path': Text, q: ProofHeader)
    requires p.Proof? && q.Proof?
    ensures SignedParts(path', q) == SignedParts(path, p)
       <==> SignedPath(path') == SignedPath(path) && Fields(q) == Fields(p)
  {
    MessageIs(path, p);
    MessageIs(path', q);
    assert SignedParts(path, p)[2..] == Fields(p) && SignedParts(path', q)[2..] == Fields(q);
    assert SignedParts(path, p)[1] == SignedPath(path) && SignedParts(path', q)[1] == SignedPath(path');
  }

  lemma SpanningFieldsShare(path: Text, p: ProofHeader) returns (q: ProofHeader)
    requires p.Proof? && Spans(p)
    ensures SharesMessage(path, p, path, q)
  {
    FieldsSpan(p);
    var other := JoinsTwice(Fields(p));
    q := WithFields(p, other);
    var s := SignedPath(path);
    MessageIs(path, p);
    MessageIs(path, q);
    JoinCons(s[1..], Fields(p));
    JoinCons(s[1..], other);
    PartsTell(path, p, path, q);
  }

  lemma SpanningPathShares(path: Text, p: ProofHeader) returns (path': Text, q: ProofHeader)
    requires p.Proof? && LF in SignedPath(path)[1..]
    ensures SharesMessage(path, p, path', q)
  {
    var s := SignedPath(path);
    var parts := [s[1..]] + Fields(p);
    assert LF in parts[0];
    var other := JoinsTwice(parts);
    path' := [s[0]] + other[0];
    q := WithFields(p, other[1..]);
    MessageIs(path, p);
    MessageIs(path', q);
    assert SignedPath(path')[1..] == other[0] && [other[0]] + other[1..] == other;
    PartsTell(path, p, path', q);
    assert s == [s[0]] + s[1..] && path'[1..] == other[0];
  }

  lemma NothingShares(path: Text, p: ProofHeader, path': Text, q: ProofHeader)
    requires p.Proof? && q.Proof? && !Spans(p) && (path' == path || LF !in SignedPath(path)[1..])
    requires SignedMessage(path', q) == SignedMessage(path, p)
    ensures SignedParts(path', q) == SignedParts(path, p)
  {
    var s, s' := SignedPath(path), SignedPath(path');
    MessageIs(path, p);
    MessageIs(path', q);
    FieldsSpan(p);
    var head, a, b := T("POST") + [LF], [s[1..]] + Fields(p), [s'[1..]] + Fields(q);
    SameTail(head, s[0], Join(LF, a), s'[0], Join(LF, b));
    if LF !in s[1..] {
      OneLineJoinsReadBack(a, b);
      assert s[1..] == a[0] == b[0] == s'[1..] && Fields(p) == a[1..] == b[1..] == Fields(q);
      assert s == [s[0]] + s[1..] && s' == [s'[0]] + s'[1..];
    } else {
      JoinCons(s[1..], Fields(p));
      JoinCons(s[1..], Fields(q));
      assert (s[1..] + [LF] + Join(LF, Fields(p)))[|s|..] == Join(LF, Fields(p));
      assert (s[1..] + [LF] + Join(LF, Fields(q)))[|s|..] == Join(LF, Fields(q));
      OneLineJoinsReadBack(Fields(p), Fields(q));
    }
  }

  lemma SameTail(head: Text, c: CodePoint, x: Text, d: CodePoint, y: Text)
    requires head + ([c] + x) == head + ([d] + y)
    ensures c == d && x == y
  {
    var l, r := head + ([c] + x), head + ([d] + y);
    assert l[|head|] == c && r[|head|] == d && l[|head| + 1..] == x && r[|head| + 1..] == y;
  }

  /** The exact condition under which a signed message stands for one proof only. On the same path:
      no signed field of the header holds a line feed. Over all paths: nor does the path after its
      first character. */
  lemma MessageIsUniqueUnlessItSpans(path: Text, p: ProofHeader)
    requires p.Proof?
    ensures (exists q :: SharesMessage(path, p, path, q)) <==> Spans(p)
    ensures (exists path', q :: SharesMessage(path, p, path', q)) <==> Spans(p) || LF in SignedPath(path)[1..]
  {
    if Spans(p) {
      var q := SpanningFieldsShare(path, p);
    } else {
      forall q: ProofHeader | q.Proof? && SignedMessage(path, q) == SignedMessage(path, p)
        ensures !SharesMessage(path, p, path, q)
      {
        NothingShares(path, p, path, q);
      }
      if LF in SignedPath(path)[1..] {
        var path', q := SpanningPathShares(path, p);
      } else {
        forall path', q: ProofHeader | q.Proof? && SignedMessage(path', q) == SignedMessage(path, p)
          ensures !SharesMessage(path, p, path', q)
        {
          NothingShares(path, p, path', q);
        }
      }
    }
  }

  // ---- over a whole run ----

  /** The requests accepted during a run, in order. */
  function Accepted(env: Env, s: ProofState, events: seq<Event>): (reqs: seq<Request>)
    ensures forall i :: 0 <= i < |reqs| ==> reqs[i].proof.Proof?
    decreases |events|
  {
    if events == [] then []
    else
      var head := if AcceptedNow(env, s, events[0]) then [events[0].req] else [];
      head + Accepted(env, Step(env, s, events[0]), events[1..])
  }

  function Message(req: Request): Text
    requires req.proof.Proof?
  {
    SignedMessage(req.path, req.proof)
  }

  lemma {:induction false} AcceptedHaveKeys(env: Env, s: ProofState, events: seq<Event>)
    ensures var reqs, keys := Accepted(env, s, events), AcceptedKeys(env, s, events);
      |keys| == |reqs| && forall i :: 0 <= i < |reqs| ==> keys[i] == NonceKey(reqs[i])
    decreases |events|
  {
    if events != [] {
      AcceptedHaveKeys(env, Step(env, s, events[0]), events[1..]);
    }
  }

  lemma SamePartsSameKey(a: Request, b: Request)
    requires a.proof.Proof? && b.proof.Proof? && SignedParts(a.path, a.proof) == SignedParts(b.path, b.proof)
    ensures NonceKey(a) == NonceKey(b)
  {
    var x, y := SignedParts(a.path, a.proof), SignedParts(b.path, b.proof);
    assert x[4] == y[4] && x[5] == y[5];
  }

  /** Of two requests accepted in one run the signed messages differ, if one of them is on one line
      per field: no signature lets a second request in. */
  lemma AcceptedMessagesDiffer(env: Env, s: ProofState, events: seq<Event>)
    ensures var reqs := Accepted(env, s, events);
      forall i, j :: 0 <= i < j < |reqs|
        && (OneLineProof(reqs[i].path, reqs[i].proof) || OneLineProof(reqs[j].path, reqs[j].proof))
        ==> Message(reqs[i]) != Message(reqs[j])
  {
    var reqs, keys := Accepted(env, s, events), AcceptedKeys(env, s, events);
    EachNonceAcceptedOnce(env, s, events);
    AcceptedHaveKeys(env, s, events);
    forall i, j | 0 <= i < j < |reqs|
      && (OneLineProof(reqs[i].path, reqs[i].proof) || OneLineProof(reqs[j].path, reqs[j].proof))
      ensures Message(reqs[i]) != Message(reqs[j])
    {
      var a, b := reqs[i], reqs[j];
      assert keys[i] != keys[j];
      if OneLineProof(a.path, a.proof) {
        MessageBindsFields(a.path, a.proof, b.path, b.proof);
      } else {
        MessageBindsFields(b.path, b.proof, a.path, a.proof);
      }
      if Message(a) == Message(b) {
        SamePartsSameKey(a, b);
      }
    }
  }

  lemma {:induction false} AcceptedAreOneLine(env: Env, ledger: Ledger, s: ProofState, events: seq<Event>)
    requires Unforgeable(env, ledger)
    ensures forall r :: r in Accepted(env, s, events) ==> r.proof.Proof? && OneLineProof(r.path, r.proof)
    decreases |events|
  {
    if events != [] {
      AcceptedAreOneLine(env, ledger, Step(env, s, events[0]), events[1..]);
      if AcceptedNow(env, s, events[0]) {
        AcceptedWasSigned(env, ledger, s, events[0].req);
      }
    }
  }

  /** When only the devices sign, the messages accepted over a run are pairwise distinct: at most one
      accepted request for every message ever signed. */
  lemma EachMessageAcceptedOnce(env: Env, ledger: Ledger, s: ProofState, events: seq<Event>)
    requires Unforgeable(env, ledger)
    ensures var reqs := Accepted(env, s, events);
      forall i, j :: 0 <= i < j < |reqs| ==> Message(reqs[i]) != Message(reqs[j])
  {
    AcceptedMessagesDiffer(env, s, events);
    AcceptedAreOneLine(env, ledger, s, events);
  }

  lemma AcceptedCons(env: Env, s: ProofState, e: Event, rest: seq<Event>)
    ensures Accepted(env, s, [e] + rest)
      == (if AcceptedNow(env, s, e) then [e.req] else []) + Accepted(env, Step(env, s, e), rest)
  {
    assert ([e] + rest)[1..] == rest;
  }

  lemma {:induction false} JoinsBehind(front: seq<Text>, a: seq<Text>, b: seq<Text>)
    requires a != [] && b != [] && Join(LF, a) == Join(LF, b)
    ensures Join(LF, front + a) == Join(LF, front + b)
  {
    if front == [] {
      assert front + a == a && front + b == b;
    } else {
      JoinsBehind(front[1..], a, b);
      JoinCons(front[0], front[1..] + a);
      JoinCons(front[0], front[1..] + b);
      assert front + a == [front[0]] + (front[1..] + a) && front + b == [front[0]] + (front[1..] + b);
    }
  }

  /** A request whose nonce is "x", a line feed and "y". */
  function SpanningRequest(env: Env, path: Text, rawBody: Bytes, thumbprint: Text, time: Text, signature: Text): Request {
    Request(path, env.bearer,
            Proof(T("i"), thumbprint, env.sha256(rawBody), time, T("x") + [LF] + T("y"), signature), rawBody)
  }

  /** The same with the cut between nonce and installation one line feed earlier. */
  function RecutRequest(env: Env, path: Text, rawBody: Bytes, thumbprint: Text, time: Text, signature: Text): Request {
    Request(path, env.bearer,
            Proof(T("y") + [LF] + T("i"), thumbprint, env.sha256(rawBody), time, T("x"), signature), rawBody)
  }

  lemma RecutKeepsMessage(env: Env, path: Text, rawBody: Bytes, thumbprint: Text, time: Text, signature: Text)
    ensures Message(SpanningRequest(env, path, rawBody, thumbprint, time, signature))
      == Message(RecutRequest(env, path, rawBody, thumbprint, time, signature))
  {
    var a := SpanningRequest(env, path, rawBody, thumbprint, time, signature);
    var b := RecutRequest(env, path, rawBody, thumbprint, time, signature);
    var x, y, i := T("x"), T("y"), T("i");
    var front := [T("POST"), SignedPath(path), env.sha256(rawBody), time];
    assert SignedParts(path, a.proof) == front + [x + [LF] + y, i, thumbprint];
    assert SignedParts(path, b.proof) == front + [x, y + [LF] + i, thumbprint];
    JoinThree(x + [LF] + y, i, thumbprint);
    JoinThree(x, y + [LF] + i, thumbprint);
    assert (x + [LF] + y) + [LF] + i == x + [LF] + (y + [LF] + i);
    JoinsBehind(front, [x + [LF] + y, i, thumbprint], [x, y + [LF] + i, thumbprint]);
  }

  lemma JoinThree(x: Text, y: Text, z: Text)
    ensures Join(LF, [x, y, z]) == (x + [LF] + y) + [LF] + z
  {
    JoinCons(x, [y, z]);
    JoinCons(y, [z]);
    assert [x] + [y, z] == [x, y, z] && [y] + [z] == [y, z];
    assert x + [LF] + (y + [LF] + z) == (x + [LF] + y) + [LF] + z;
  }

  /** Where line feeds are signed it can fail: with one key under two ids, "i" and "y", line feed,
      "i", two requests of different installation and nonce are accepted with one message. */
  lemma MessagesCanRepeat(env: Env, path: Text, rawBody: Bytes, install: Install, time: Text, signature: Text)
    requires env.verify(install.publicKey, signature,
                        Message(SpanningRequest(env, path, rawBody, install.thumbprint, time, signature)))
    ensures var a := SpanningRequest(env, path, rawBody, install.thumbprint, time, signature);
      var b := RecutRequest(env, path, rawBody, install.thumbprint, time, signature);
      && Accepted(env, EMPTY, [Registered(a.proof.installId, install), Registered(b.proof.installId, install),
                               Protected(a), Protected(b)]) == [a, b]
      && NonceKey(a) != NonceKey(b) && Message(a) == Message(b)
  {
    var a := SpanningRequest(env, path, rawBody, install.thumbprint, time, signature);
    var b := RecutRequest(env, path, rawBody, install.thumbprint, time, signature);
    RecutKeepsMessage(env, path, rawBody, install.thumbprint, time, signature);
    var e0, e1 := Registered(a.proof.installId, install), Registered(b.proof.installId, install);
    var s1 := Step(env, EMPTY, e0);
    var s2 := Step(env, s1, e1);
    assert |a.proof.nonce| != |b.proof.nonce|;
    assert Judge(env, s2, a) == Success;
    var s3 := Step(env, s2, Protected(a));
    assert Judge(env, s3, b) == Success;
    AcceptedCons(env, EMPTY, e0, [e1, Protected(a), Protected(b)]);
    AcceptedCons(env, s1, e1, [Protected(a), Protected(b)]);
    AcceptedCons(env, s2, Protected(a), [Protected(b)]);
    AcceptedCons(env, s3, Protected(b), []);
    assert [e0] + [e1, Protected(a), Protected(b)] == [e0, e1, Protected(a), Protected(b)];
    assert [e1] + [Protected(a), Protected(b)] == [e1, Protected(a), Protected(b)];
    assert [Protected(a)] + [Protected(b)] == [Protected(a), Protected(b)] && [Protected(b)] + [] == [Protected(b)];
  }
}
