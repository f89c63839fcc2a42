/** The device-proof verifier both fixture registries share: an ordered chain of
    checks, a set of used nonces, four counters, and registrations in between.
    Hashing and signature verification are parameters. */
module DeviceProof {
  import opened Texts
  import opened Sorting

  datatype Install = Install(publicKey: Text, thumbprint: Text)

  /** The proof header: absent or empty, undecodable, or its six fields. */
  datatype ProofHeader =
    | NoProof
    | Garbled
    | Proof(installId: Text, thumbprint: Text, bodySha256: Text, timestamp: Text, nonce: Text, signature: Text)

  datatype Request = Request(path: Text, authorization: Text, proof: ProofHeader, rawBody: Bytes)

  /** `verify(key, signature, message)` is false on a bad signature and on any ValueError. */
  datatype Env = Env(bearer: Text, sha256: Bytes -> Text, verify: (Text, Text, Text) -> bool)

  datatype ProofState = ProofState(
    installations: map<Text, Install>,
    nonces: set<(Text, Text)>,
    missing: nat,
    invalid: nat,
    replay: nat,
    success: nat)

  const EMPTY: ProofState := ProofState(map[], {}, 0, 0, 0, 0)

  datatype Verdict = BadToken | Missing | Invalid | Replay | Success

  const LF: CodePoint := 0x0A

  function SignedPath(path: Text): (r: Text)
    ensures r != []
  {
    if path == [] then T("/") else path
  }

  function SignedParts(path: Text, p: ProofHeader): seq<Text>
    requires p.Proof?
  {
    [T("POST"), SignedPath(path), p.bodySha256, p.timestamp, p.nonce, p.installId, p.thumbprint]
  }

  /** The message a device signs. */
  function SignedMessage(path: Text, p: ProofHeader): Text
    requires p.Proof?
  {
    Join(LF, SignedParts(path, p))
  }

  function NonceKey(req: Request): (Text, Text)
    requires req.proof.Proof?
  {
    (req.proof.installId, req.proof.nonce)
  }

  /** The chain of checks, in the order the handler makes them: the nonce before the signature. */
  function Judge(env: Env, s: ProofState, req: Request): Verdict {
    if req.authorization != env.bearer then BadToken
    else match req.proof
      case NoProof => Missing
      case Garbled => Invalid
      case Proof(installId, thumbprint, bodySha256, timestamp, nonce, signature) =>
        if installId !in s.installations || thumbprint != s.installations[installId].thumbprint then Invalid
        else if bodySha256 != env.sha256(req.rawBody) then Invalid
        else if (installId, nonce) in s.nonces then Replay
        else if env.verify(s.installations[installId].publicKey, signature, SignedMessage(req.path, req.proof)) then Success
        else Invalid
  }

  function Record(s: ProofState, req: Request, v: Verdict): ProofState
    requires v == Success ==> req.proof.Proof?
  {
    match v
    case BadToken => s
    case Missing => s.(missing := s.missing + 1)
    case Invalid => s.(invalid := s.invalid + 1)
    case Replay => s.(replay := s.replay + 1)
    case Success => s.(nonces := s.nonces + {NonceKey(req)}, success := s.success + 1)
  }

  function Check(env: Env, s: ProofState, req: Request): ProofState {
    Record(s, req, Judge(env, s, req))
  }

  function Enroll(s: ProofState, installId: Text, install: Install): ProofState {
    s.(installations := s.installations[installId := install])
  }

  /** The `state` dictionary's proof entries, and the check that updates them. */
  class ProofStore {
    var installations: map<Text, Install>
    var nonces: set<(Text, Text)>
    var missing: nat
    var invalid: nat
    var replay: nat
    var success: nat

    ghost function View(): ProofState
      reads this
    {
      ProofState(installations, nonces, missing, invalid, replay, success)
    }

    constructor ()
      ensures View() == EMPTY
    {
      installations, nonces := map[], {};
      missing, invalid, replay, success := 0, 0, 0, 0;
    }

    method Register(installId: Text, install: Install)
      modifies this
      ensures View() == Enroll(old(View()), installId, install)
    {
      installations := installations[installId := install];
    }

    method VerifyProof(env: Env, req: Request) returns (v: Verdict)
      modifies this
      ensures v == Judge(env, old(View()), req)
      ensures View() == Check(env, old(View()), req)
    {
      if req.authorization != env.bearer { return BadToken; }
      if req.proof.NoProof? {
        missing := missing + 1;
        return Missing;
      }
      if req.proof.Garbled? {
        invalid := invalid + 1;
        return Invalid;
      }
      var p := req.proof;
      if p.installId !in installations || p.thumbprint != installations[p.installId].thumbprint {
        invalid := invalid + 1;
        return Invalid;
      }
      if p.bodySha256 != env.sha256(req.rawBody) {
        invalid := invalid + 1;
        return Invalid;
      }
      var key := (p.installId, p.nonce);
      if key in nonces {
        replay := replay + 1;
        return Replay;
      }
      if !env.verify(installations[p.installId].publicKey, p.signature, SignedMessage(req.path, p)) {
        invalid := invalid + 1;
        return Invalid;
      }
      nonces := nonces + {key};
      success := success + 1;
      return Success;
    }
  }

  // ---- whole runs, with re-registrations in between ----

  datatype Event = Registered(installId: Text, install: Install) | Protected(req: Request)

  function Step(env: Env, s: ProofState, e: Event): ProofState {
    match e
    case Registered(id, install) => Enroll(s, id, install)
    case Protected(req) => Check(env, s, req)
  }

  function Run(env: Env, s: ProofState, events: seq<Event>): ProofState
    decreases |events|
  {
    if events == [] then s else Run(env, Step(env, s, events[0]), events[1..])
  }

  /** The verdicts of the protected requests of a run, in order. */
  function Verdicts(env: Env, s: ProofState, events: seq<Event>): seq<Verdict>
    decreases |events|
  {
    if events == [] then []
    else
      var head := if events[0].Protected? then [Judge(env, s, events[0].req)] else [];
      head + Verdicts(env, Step(env, s, events[0]), events[1..])
  }

  predicate AcceptedNow(env: Env, s: ProofState, e: Event) {
    e.Protected? && Judge(env, s, e.req) == Success
  }

  /** The (install, nonce) pairs accepted during a run, in order. */
  function AcceptedKeys(env: Env, s: ProofState, events: seq<Event>): seq<(Text, Text)>
    decreases |events|
  {
    if events == [] then []
    else
      var head := if AcceptedNow(env, s, events[0]) then [NonceKey(events[0].req)] else [];
      head + AcceptedKeys(env, Step(env, s, events[0]), events[1..])
  }

  lemma ConsDistinct<E>(x: E, s: seq<E>)
    requires Distinct(s) && x !in s
    ensures Distinct([x] + s)
  {
  }

  /** No pair is accepted twice, whatever is registered or rejected in between: the nonces stored
      at the end are the initial ones and the accepted ones, without overlap, and the success
      counter grew by exactly as many. */
  lemma {:induction false} EachNonceAcceptedOnce(env: Env, s: ProofState, events: seq<Event>)
    ensures var keys := AcceptedKeys(env, s, events); var s' := Run(env, s, events);
      && Distinct(keys)
      && (forall k :: k in keys ==> k !in s.nonces)
      && (forall k :: k in s'.nonces <==> k in s.nonces || k in keys)
      && s'.success == s.success + |keys|
    decreases |events|
  {
    if events != [] {
      var s1 := Step(env, s, events[0]);
      EachNonceAcceptedOnce(env, s1, events[1..]);
      if AcceptedNow(env, s, events[0]) {
        ConsDistinct(NonceKey(events[0].req), AcceptedKeys(env, s1, events[1..]));
      }
    }
  }

  /** A reachable state counts a success for every stored nonce. */
  lemma {:induction false} SuccessCountsNonces(env: Env, s: ProofState, events: seq<Event>)
    requires s.success == |s.nonces|
    ensures Run(env, s, events).success == |Run(env, s, events).nonces|
    decreases |events|
  {
    if events != [] {
      SuccessCountsNonces(env, Step(env, s, events[0]), events[1..]);
    }
  }

  function Count(v: Verdict, vs: seq<Verdict>): nat {
    if vs == [] then 0 else (if vs[0] == v then 1 else 0) + Count(v, vs[1..])
  }

  /** Each counter grew by the number of its verdicts. */
  predicate Tallied(s: ProofState, s': ProofState, vs: seq<Verdict>) {
    (s'.missing, s'.invalid, s'.replay, s'.success)
      == (s.missing + Count(Missing, vs), s.invalid + Count(Invalid, vs),
          s.replay + Count(Replay, vs), s.success + Count(Success, vs))
  }

  lemma CountCons(v: Verdict, x: Verdict, vs: seq<Verdict>)
    ensures Count(v, [x] + vs) == (if x == v then 1 else 0) + Count(v, vs)
  {
    assert ([x] + vs)[1..] == vs;
  }

  lemma TalliedFromOneBefore(env: Env, s: ProofState, req: Request, s': ProofState, vs: seq<Verdict>)
    requires Tallied(Check(env, s, req), s', vs)
    ensures Tallied(s, s', [Judge(env, s, req)] + vs)
  {
    var v := Judge(env, s, req);
    CountCons(Missing, v, vs);
    CountCons(Invalid, v, vs);
    CountCons(Replay, v, vs);
    CountCons(Success, v, vs);
  }

  lemma {:induction false} FiveClasses(vs: seq<Verdict>)
    ensures |vs| == Count(BadToken, vs) + Count(Missing, vs) + Count(Invalid, vs) + Count(Replay, vs) + Count(Success, vs)
  {
    if vs != [] {
      FiveClasses(vs[1..]);
    }
  }

  lemma {:induction false} RunIsTallied(env: Env, s: ProofState, events: seq<Event>)
    ensures Tallied(s, Run(env, s, events), Verdicts(env, s, events))
    decreases |events|
  {
    if events != [] {
      var s1 := Step(env, s, events[0]);
      RunIsTallied(env, s1, events[1..]);
      var rest := Verdicts(env, s1, events[1..]);
      if events[0].Protected? {
        TalliedFromOneBefore(env, s, events[0].req, Run(env, s, events), rest);
      } else {
        assert [] + rest == rest;
      }
    }
  }

  /** Every protected request falls in exactly one class, and all but the refused tokens are counted. */
  lemma VerdictsAreCounted(env: Env, s: ProofState, events: seq<Event>)
    ensures var vs := Verdicts(env, s, events);
      && Tallied(s, Run(env, s, events), vs)
      && |vs| == Count(BadToken, vs) + Count(Missing, vs) + Count(Invalid, vs) + Count(Replay, vs) + Count(Success, vs)
  {
    RunIsTallied(env, s, events);
    FiveClasses(Verdicts(env, s, events));
  }

  // ---- rejected requests leave no trace but a counter ----

  predicate SameDecisions(s: ProofState, t: ProofState) {
    s.installations == t.installations && s.nonces == t.nonces
  }

  /** The run without its rejected requests. */
  function Purged(env: Env, s: ProofState, events: seq<Event>): seq<Event>
    decreases |events|
  {
    if events == [] then []
    else
      var head := if events[0].Registered? || AcceptedNow(env, s, events[0]) then [events[0]] else [];
      head + Purged(env, Step(env, s, events[0]), events[1..])
  }

  /** Leaving out every rejected request changes no other verdict and no nonce or registration:
      forged and replayed traffic cannot use up a device's nonce or lock it out. */
  lemma {:induction false} RejectionsAreInvisible(env: Env, s: ProofState, t: ProofState, events: seq<Event>)
    requires SameDecisions(s, t)
    ensures var purged := Purged(env, s, events);
      && SameDecisions(Run(env, t, purged), Run(env, s, events))
      && AcceptedKeys(env, t, purged) == AcceptedKeys(env, s, events)
      && Run(env, t, purged).success - t.success == Run(env, s, events).success - s.success
      && (forall v :: v in Verdicts(env, t, purged) ==> v == Success)
    decreases |events|
  {
    if events != [] {
      var e, s1 := events[0], Step(env, s, events[0]);
      if e.Registered? || AcceptedNow(env, s, e) {
        var t1 := Step(env, t, e);
        RejectionsAreInvisible(env, s1, t1, events[1..]);
        assert Purged(env, s, events)[1..] == Purged(env, s1, events[1..]);
      } else {
        RejectionsAreInvisible(env, s1, t, events[1..]);
        assert Purged(env, s, events) == Purged(env, s1, events[1..]);
        assert AcceptedKeys(env, s, events) == AcceptedKeys(env, s1, events[1..]);
      }
    }
  }

  // ---- what a signature says ----

  function LineFeeds(t: Text): nat {
    if t == [] then 0 else (if t[0] == LF then 1 else 0) + LineFeeds(t[1..])
  }

  function LineFeedsIn(parts: seq<Text>): nat {
    if parts == [] then 0 else LineFeeds(parts[0]) + LineFeedsIn(parts[1..])
  }

  lemma {:induction false} LineFeedsAppend(a: Text, b: Text)
    ensures LineFeeds(a + b) == LineFeeds(a) + LineFeeds(b)
  {
    if a == [] {
      assert a + b == b;
    } else {
      assert (a + b)[1..] == a[1..] + b;
      LineFeedsAppend(a[1..], b);
    }
  }

  lemma {:induction false} NoLineFeeds(t: Text)
    ensures LineFeeds(t) == 0 <==> LF !in t
  {
    if t != [] {
      NoLineFeeds(t[1..]);
      assert t == [t[0]] + t[1..];
    }
  }

  predicate OnOneLine(parts: seq<Text>) { forall i :: 0 <= i < |parts| ==> LF !in parts[i] }

  lemma {:induction false} NoLineFeedsIn(parts: seq<Text>)
    ensures LineFeedsIn(parts) == 0 <==> OnOneLine(parts)
  {
    if parts != [] {
      NoLineFeeds(parts[0]);
      NoLineFeedsIn(parts[1..]);
      assert parts == [parts[0]] + parts[1..];
    }
  }

  /** Joining adds one line feed between two parts. */
  lemma {:induction false} JoinLineFeeds(parts: seq<Text>)
    requires parts != []
    ensures LineFeeds(Join(LF, parts)) == LineFeedsIn(parts) + |parts| - 1
  {
    if |parts| == 1 {
      assert LineFeedsIn(parts[1..]) == 0;
    } else {
      JoinLineFeeds(parts[1..]);
      LineFeedsAppend(parts[0] + [LF], Join(LF, parts[1..]));
      LineFeedsAppend(parts[0], [LF]);
    }
  }

  lemma FirstLine(a: Text, x: Text, b: Text, y: Text)
    requires LF !in a && LF !in b && a + [LF] + x == b + [LF] + y
    ensures a == b && x == y
  {
    var l, r := a + [LF] + x, b + [LF] + y;
    assert l[|a|] == LF && r[|b|] == LF;
    assert |a| == |b| by {
      assert forall i :: 0 <= i < |a| ==> l[i] == a[i];
      assert forall i :: 0 <= i < |b| ==> r[i] == b[i];
    }
    assert l[..|a|] == a && r[..|b|] == b && l[|a| + 1..] == x && r[|b| + 1..] == y;
  }

  /** Parts without line feeds can be told apart again. */
  lemma {:induction false} LinesReadBack(a: seq<Text>, b: seq<Text>)
    requires OnOneLine(a) && OnOneLine(b) && |a| == |b| && Join(LF, a) == Join(LF, b)
    ensures a == b
  {
    if |a| == 1 {
      assert a == [a[0]] && b == [b[0]];
    } else if |a| > 1 {
      FirstLine(a[0], Join(LF, a[1..]), b[0], Join(LF, b[1..]));
      LinesReadBack(a[1..], b[1..]);
      assert a == [a[0]] + a[1..] && b == [b[0]] + b[1..];
    }
  }

  /** Parts on one line are the only ones of their number with that join. */
  lemma OneLineJoinsReadBack(a: seq<Text>, b: seq<Text>)
    requires a != [] && |a| == |b| && OnOneLine(a) && Join(LF, a) == Join(LF, b)
    ensures a == b
  {
    JoinLineFeeds(a);
    JoinLineFeeds(b);
    NoLineFeedsIn(a);
    NoLineFeedsIn(b);
    LinesReadBack(a, b);
  }

  /** A proof as the client makes it: no signed field spans lines. */
  predicate OneLineProof(path: Text, p: ProofHeader) {
    p.Proof? && OnOneLine(SignedParts(path, p))
  }

  /** A signature made for a client's proof covers any other proof, whatever its fields hold,
      exactly when all the signed fields agree. */
  lemma MessageBindsFields(path: Text, p: ProofHeader, path': Text, p': ProofHeader)
    requires OneLineProof(path, p) && p'.Proof?
    ensures SignedMessage(path, p) == SignedMessage(path', p') <==> SignedParts(path, p) == SignedParts(path', p')
  {
    var a, b := SignedParts(path, p), SignedParts(path', p');
    if Join(LF, a) == Join(LF, b) {
      OneLineJoinsReadBack(a, b);
    }
  }

  /** What the holders of the keys have signed: a key, the path and the proof it signed for. */
  type Ledger = iset<(Text, Text, ProofHeader)>

  /** Signatures verify only for messages in the ledger, which the client made. */
  ghost predicate Unforgeable(env: Env, ledger: Ledger) {
    && (forall k, path, p :: (k, path, p) in ledger ==> OneLineProof(path, p))
    && (forall k, sig, m :: env.verify(k, sig, m) ==>
          exists path, p :: (k, path, p) in ledger && m == SignedMessage(path, p))
  }

  /** Every accepted request is one the registered key signed: this path, this body, this nonce and
      timestamp, whatever characters the request's header holds. */
  lemma AcceptedWasSigned(env: Env, ledger: Ledger, s: ProofState, req: Request)
    requires Unforgeable(env, ledger) && Judge(env, s, req) == Success
    ensures req.proof.installId in s.installations && req.proof.bodySha256 == env.sha256(req.rawBody)
    ensures var k := s.installations[req.proof.installId].publicKey;
      exists path, p :: (k, path, p) in ledger && SignedParts(path, p) == SignedParts(req.path, req.proof)
  {
    var k := s.installations[req.proof.installId].publicKey;
    var m := SignedMessage(req.path, req.proof);
    assert env.verify(k, req.proof.signature, m);
    var path, p :| (k, path, p) in ledger && m == SignedMessage(path, p);
    MessageBindsFields(path, p, req.path, req.proof);
  }

  // ---- the negative-case probe ----

  /** A device: what it registered with, and its private key. */
  datatype Device = Device(installId: Text, publicKey: Text, thumbprint: Text, sign: Text -> Text)

  /** `proof_headers`: the device's proof for this path and body. */
  function ProofFor(env: Env, device: Device, path: Text, rawBody: Bytes, time: Text, nonce: Text): (p: ProofHeader)
    ensures p.Proof?
  {
    var p := Proof(device.installId, device.thumbprint, env.sha256(rawBody), time, nonce, []);
    p.(signature := device.sign(SignedMessage(path, p)))
  }

  ghost predicate Enrolled(s: ProofState, device: Device) {
    device.installId in s.installations
    && s.installations[device.installId] == Install(device.publicKey, device.thumbprint)
  }

  /** What the private key signs, the public key verifies. */
  ghost predicate Genuine(env: Env, device: Device) {
    forall m :: env.verify(device.publicKey, device.sign(m), m)
  }

  /** `bad` is no signature over the proof made for these. */
  predicate BadSignature(env: Env, device: Device, path: Text, rawBody: Bytes, time: Text, nonce: Text, bad: Text) {
    !env.verify(device.publicKey, bad, SignedMessage(path, ProofFor(env, device, path, rawBody, time, nonce)))
  }

  /** A proof the device makes is accepted exactly when its nonce is unused. */
  lemma DeviceProofIsAccepted(env: Env, s: ProofState, device: Device, path: Text, rawBody: Bytes, time: Text,
                              nonce: Text)
    requires Enrolled(s, device) && Genuine(env, device)
    ensures var p := ProofFor(env, device, path, rawBody, time, nonce);
      Judge(env, s, Request(path, env.bearer, p, rawBody))
        == if (device.installId, nonce) in s.nonces then Replay else Success
  {
    var p := ProofFor(env, device, path, rawBody, time, nonce);
    var bare := p.(signature := []);
    assert SignedMessage(path, p) == SignedMessage(path, bare);
    assert env.verify(device.publicKey, device.sign(SignedMessage(path, bare)), SignedMessage(path, bare));
  }

  /** The verifier's state after the probe. */
  function Probed(s: ProofState, device: Device, nonce: Text, replayed: bool): ProofState {
    s.(nonces := s.nonces + {(device.installId, nonce)},
       success := s.success + 1,
       missing := s.missing + 1,
       replay := s.replay + (if replayed then 2 else 1),
       invalid := s.invalid + (if replayed then 0 else 1))
  }

  /** The four verdicts of the probe, each in the state the ones before leave. */
  lemma ProbeVerdicts(env: Env, s: ProofState, device: Device, path: Text, rawBody: Bytes, time: Text, nonce: Text,
                      laterTime: Text, laterNonce: Text, bad: Text)
    requires Enrolled(s, device) && Genuine(env, device) && (device.installId, nonce) !in s.nonces
    requires BadSignature(env, device, path, rawBody, laterTime, laterNonce, bad)
    ensures var r0 := Request(path, env.bearer, NoProof, rawBody);
      var r1 := r0.(proof := ProofFor(env, device, path, rawBody, time, nonce));
      var r2 := r0.(proof := ProofFor(env, device, path, rawBody, laterTime, laterNonce).(signature := bad));
      var s1 := Check(env, s, r0);
      var s2 := Check(env, s1, r1);
      var s3 := Check(env, s2, r1);
      var used := laterNonce == nonce || (device.installId, laterNonce) in s.nonces;
      && Judge(env, s, r0) == Missing && Judge(env, s1, r1) == Success && Judge(env, s2, r1) == Replay
      && Judge(env, s3, r2) == (if used then Replay else Invalid)
      && Check(env, s3, r2) == Probed(s, device, nonce, used)
  {
    var r0 := Request(path, env.bearer, NoProof, rawBody);
    var r1 := r0.(proof := ProofFor(env, device, path, rawBody, time, nonce));
    var s1 := Check(env, s, r0);
    DeviceProofIsAccepted(env, s1, device, path, rawBody, time, nonce);
    var s2 := Check(env, s1, r1);
    DeviceProofIsAccepted(env, s2, device, path, rawBody, time, nonce);
    var s3 := Check(env, s2, r1);
    ForgedProofIsRefused(env, s3, device, path, rawBody, laterTime, laterNonce, bad);
  }

  lemma ForgedProofIsRefused(env: Env, s: ProofState, device: Device, path: Text, rawBody: Bytes, time: Text, nonce: Text,
                             bad: Text)
    requires Enrolled(s, device) && BadSignature(env, device, path, rawBody, time, nonce, bad)
    ensures var p := ProofFor(env, device, path, rawBody, time, nonce).(signature := bad);
      Judge(env, s, Request(path, env.bearer, p, rawBody))
        == if (device.installId, nonce) in s.nonces then Replay else Invalid
  {
    var p := ProofFor(env, device, path, rawBody, time, nonce);
    assert SignedMessage(path, p.(signature := bad)) == SignedMessage(path, p);
  }
}
