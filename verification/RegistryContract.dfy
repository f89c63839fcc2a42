/** The production-registry fixture server: the same proof verifier, but
    registrations are validated and many paths are protected. */
module RegistryContract {
  import opened Texts
  import opened JsonValues
  import opened DeviceProof
  import Sequences
  import MP = ManagedPolicy

  const DEFAULT_INSTALL: Text := T("uls_inst_prod_contract")
  const CATALOG: Text := T("/v1/catalog")
  const UPDATES: Text := T("/v1/collections/updates")
  const CHANNELS: Text := T("/v1/channels/status")
  const ENHANCEMENT: Text := T("/v1/enhancement/script")
  const ALLOWLIST: Text := T("/v1/hub/allowlist")
  const HEARTBEAT: Text := T("/v1/hub/heartbeat")
  const ENTITLEMENTS: Text := T("/v1/hub/entitlements")
  const TEAMS: Text := T("/v1/teams")
  const TEAM_SYNC: Text := T("/v1/teams/team_prod_contract/sync")

  datatype Response =
    | RegisteredAs(installId: Text, thumbprint: Text)
    | InvalidRegistration
    | Rejected(verdict: Verdict)
    | Served(path: Text)
    | NotFound

  function Status(r: Response): int {
    match r
    case InvalidRegistration => 400
    case Rejected(_) => 401
    case NotFound => 404
    case _ => 200
  }

  datatype State = State(proof: ProofState, seenChannels: seq<Text>)

  function Registration(sv: MP.Server, body: seq<Member>): (Text, Install) {
    (MP.Field(sv, body, T("install_id"), DEFAULT_INSTALL),
     Install(MP.Field(sv, body, T("public_key"), []), MP.Field(sv, body, T("key_thumbprint"), [])))
  }

  predicate ChannelPath(path: Text) { path in {CATALOG, UPDATES, CHANNELS} }

  predicate KnownPath(path: Text) {
    ChannelPath(path) || path in {ENHANCEMENT, ALLOWLIST, HEARTBEAT, ENTITLEMENTS, TEAMS, TEAM_SYNC}
  }

  function Handle(sv: MP.Server, s: State, p: MP.Post): (State, Response) {
    if p.req.path == MP.REGISTER_PATH then
      var (id, install) := Registration(sv, p.body);
      if install.publicKey == [] || install.thumbprint == [] then (s, InvalidRegistration)
      else (s.(proof := Enroll(s.proof, id, install)), RegisteredAs(id, install.thumbprint))
    else
      var v := Judge(sv.proof, s.proof, p.req);
      var checked := s.(proof := Check(sv.proof, s.proof, p.req));
      if v != Success then (checked, Rejected(v))
      else if ChannelPath(p.req.path) then
        (checked.(seenChannels := s.seenChannels + [MP.Field(sv, p.body, T("channel"), [])]), Served(p.req.path))
      else if KnownPath(p.req.path) then (checked, Served(p.req.path))
      else (checked, NotFound)
  }

  class FixtureServer {
    const server: MP.Server
    const store: ProofStore
    var seenChannels: seq<Text>

    ghost function View(): State
      reads this, store
    {
      State(store.View(), seenChannels)
    }

    constructor (server: MP.Server)
      ensures this.server == server && fresh(store)
      ensures View() == State(EMPTY, [])
    {
      this.server := server;
      store := new ProofStore();
      seenChannels := [];
    }

    method DoPost(p: MP.Post) returns (r: Response)
      modifies this, store
      ensures (View(), r) == Handle(server, old(View()), p)
    {
      if p.req.path == MP.REGISTER_PATH {
        var (id, install) := Registration(server, p.body);
        if install.publicKey == [] || install.thumbprint == [] { return InvalidRegistration; }
        store.Register(id, install);
        return RegisteredAs(id, install.thumbprint);
      }
      var v := store.VerifyProof(server.proof, p.req);
      if v != Success { return Rejected(v); }
      if ChannelPath(p.req.path) {
        seenChannels := seenChannels + [MP.Field(server, p.body, T("channel"), [])];
        return Served(p.req.path);
      }
      return if KnownPath(p.req.path) then Served(p.req.path) else NotFound;
    }
  }

  function Run(sv: MP.Server, s: State, posts: seq<MP.Post>): (State, seq<Response>)
    decreases |posts|
  {
    if posts == [] then (s, [])
    else
      var (s1, r) := Handle(sv, s, posts[0]);
      var (s2, rs) := Run(sv, s1, posts[1..]);
      (s2, [r] + rs)
  }

  /** What a run looks like to the proof verifier: a refused registration is no event, and
      every other path is checked, known or not. */
  function Events(sv: MP.Server, posts: seq<MP.Post>): seq<Event>
    decreases |posts|
  {
    if posts == [] then []
    else
      var p, rest := posts[0], Events(sv, posts[1..]);
      if p.req.path == MP.REGISTER_PATH then
        var (id, install) := Registration(sv, p.body);
        if install.publicKey == [] || install.thumbprint == [] then rest
        else [Event.Registered(id, install)] + rest
      else [Protected(p.req)] + rest
  }

  lemma {:induction false} ServerRunsVerifier(sv: MP.Server, s: State, posts: seq<MP.Post>)
    ensures Run(sv, s, posts).0.proof == DeviceProof.Run(sv.proof, s.proof, Events(sv, posts))
    decreases |posts|
  {
    if posts != [] {
      ServerRunsVerifier(sv, Handle(sv, s, posts[0]).0, posts[1..]);
      var rest, p := Events(sv, posts[1..]), posts[0];
      var (id, install) := Registration(sv, p.body);
      assert ([Event.Registered(id, install)] + rest)[1..] == rest;
      assert ([Protected(p.req)] + rest)[1..] == rest;
    }
  }

  predicate Complete(s: ProofState) {
    forall id :: id in s.installations ==> s.installations[id].publicKey != [] && s.installations[id].thumbprint != []
  }

  /** Over every run: no nonce is accepted twice, the success counter counts the nonces, and no
      installation without a key or a thumbprint gets in. */
  lemma RegistryIsSafe(sv: MP.Server, posts: seq<MP.Post>)
    ensures var s := Run(sv, State(EMPTY, []), posts).0;
      var keys := AcceptedKeys(sv.proof, EMPTY, Events(sv, posts));
      && s.proof.success == |s.proof.nonces| == |keys|
      && (forall k :: k in s.proof.nonces <==> k in keys)
      && Complete(s.proof)
  {
    var start := State(EMPTY, []);
    ServerRunsVerifier(sv, start, posts);
    EachNonceAcceptedOnce(sv.proof, EMPTY, Events(sv, posts));
    SuccessCountsNonces(sv.proof, EMPTY, Events(sv, posts));
    RunKeepsComplete(sv, start, posts);
  }

  lemma {:induction false} RunKeepsComplete(sv: MP.Server, s: State, posts: seq<MP.Post>)
    requires Complete(s.proof)
    ensures Complete(Run(sv, s, posts).0.proof)
    decreases |posts|
  {
    if posts != [] {
      RunKeepsComplete(sv, Handle(sv, s, posts[0]).0, posts[1..]);
    }
  }

  /** A protected request whose proof the verifier accepts in the state it meets. */
  predicate AcceptedPost(sv: MP.Server, s: State, p: MP.Post) {
    p.req.path != MP.REGISTER_PATH && Judge(sv.proof, s.proof, p.req) == Success
  }

  /** The channels named by the accepted catalog, update and channel requests, in order. */
  function ChannelsAsked(sv: MP.Server, s: State, posts: seq<MP.Post>): seq<Text>
    decreases |posts|
  {
    if posts == [] then []
    else
      var p := posts[0];
      var asked := AcceptedPost(sv, s, p) && ChannelPath(p.req.path);
      var head := if asked then [MP.Field(sv, p.body, T("channel"), [])] else [];
      head + ChannelsAsked(sv, Handle(sv, s, p).0, posts[1..])
  }

  lemma PathsDiffer(path: Text)
    requires ChannelPath(path)
    ensures path != MP.REGISTER_PATH
  {
    assert |MP.REGISTER_PATH| == 26 && |CATALOG| == 11 && |UPDATES| == 23 && |CHANNELS| == 19;
  }

  /** The channel log grows by exactly the channels asked for, in order. */
  lemma {:induction false} ChannelLogIsExact(sv: MP.Server, s: State, posts: seq<MP.Post>)
    ensures Run(sv, s, posts).0.seenChannels == s.seenChannels + ChannelsAsked(sv, s, posts)
    decreases |posts|
  {
    if posts != [] {
      var s1, p := Handle(sv, s, posts[0]).0, posts[0];
      ChannelLogIsExact(sv, s1, posts[1..]);
      if AcceptedPost(sv, s, p) && ChannelPath(p.req.path) {
        Sequences.Associate(s.seenChannels, [MP.Field(sv, p.body, T("channel"), [])], ChannelsAsked(sv, s1, posts[1..]));
      }
    }
  }

  // ---- the negative-case probe ----

  function ProbePost(sv: MP.Server, rawBody: Bytes, body: seq<Member>, proof: ProofHeader): MP.Post {
    MP.Post(Request(CATALOG, sv.proof.bearer, proof, rawBody), body)
  }

  function Probe(sv: MP.Server, rawBody: Bytes, body: seq<Member>, valid: ProofHeader, forged: ProofHeader)
    : seq<MP.Post>
  {
    [ ProbePost(sv, rawBody, body, NoProof), ProbePost(sv, rawBody, body, valid),
      ProbePost(sv, rawBody, body, valid), ProbePost(sv, rawBody, body, forged) ]
  }

  lemma RunOne(sv: MP.Server, s: State, p: MP.Post, posts: seq<MP.Post>)
    ensures Run(sv, s, [p] + posts)
      == (Run(sv, Handle(sv, s, p).0, posts).0, [Handle(sv, s, p).1] + Run(sv, Handle(sv, s, p).0, posts).1)
  {
    assert ([p] + posts)[1..] == posts;
  }

  lemma RunFour(sv: MP.Server, s: State, a: MP.Post, b: MP.Post, c: MP.Post, d: MP.Post)
    ensures var (s1, r1) := Handle(sv, s, a);
      var (s2, r2) := Handle(sv, s1, b);
      var (s3, r3) := Handle(sv, s2, c);
      var (s4, r4) := Handle(sv, s3, d);
      Run(sv, s, [a, b, c, d]) == (s4, [r1, r2, r3, r4])
  {
    var s1 := Handle(sv, s, a).0;
    var s2 := Handle(sv, s1, b).0;
    var s3 := Handle(sv, s2, c).0;
    RunOne(sv, s3, d, []);
    RunOne(sv, s2, c, [d]);
    RunOne(sv, s1, b, [c, d]);
    RunOne(sv, s, a, [b, c, d]);
    assert [a] + [b, c, d] == [a, b, c, d] && [b] + [c, d] == [b, c, d] && [c] + [d] == [c, d] && [d] + [] == [d];
    var r1, r2, r3, r4 := Handle(sv, s, a).1, Handle(sv, s1, b).1, Handle(sv, s2, c).1, Handle(sv, s3, d).1;
    assert [r1] + ([r2] + ([r3] + ([r4] + []))) == [r1, r2, r3, r4];
  }

  /** The same probe on the catalog: 401, 200, 401, 401, and only the accepted request is logged. */
  lemma ProbeOutcome(sv: MP.Server, s: State, device: Device, rawBody: Bytes, body: seq<Member>, time: Text, nonce: Text,
                     laterTime: Text, laterNonce: Text, bad: Text)
    requires Enrolled(s.proof, device) && Genuine(sv.proof, device) && (device.installId, nonce) !in s.proof.nonces
    requires BadSignature(sv.proof, device, CATALOG, rawBody, laterTime, laterNonce, bad)
    ensures var valid := ProofFor(sv.proof, device, CATALOG, rawBody, time, nonce);
      var forged := ProofFor(sv.proof, device, CATALOG, rawBody, laterTime, laterNonce).(signature := bad);
      var (s', rs) := Run(sv, s, Probe(sv, rawBody, body, valid, forged));
      && |rs| == 4 && [Status(rs[0]), Status(rs[1]), Status(rs[2]), Status(rs[3])] == [401, 200, 401, 401]
      && rs[0] == Rejected(Missing) && rs[1] == Served(CATALOG) && rs[2] == Rejected(Replay)
      && rs[3] == Rejected(
           if laterNonce == nonce || (device.installId, laterNonce) in s.proof.nonces then Replay else Invalid)
      && s'.proof == Probed(s.proof, device, nonce, rs[3] == Rejected(Replay))
      && s'.seenChannels == s.seenChannels + [MP.Field(sv, body, T("channel"), [])]
  {
    var valid := ProofFor(sv.proof, device, CATALOG, rawBody, time, nonce);
    var forged := ProofFor(sv.proof, device, CATALOG, rawBody, laterTime, laterNonce).(signature := bad);
    var a, b, c := ProbePost(sv, rawBody, body, NoProof), ProbePost(sv, rawBody, body, valid),
      ProbePost(sv, rawBody, body, forged);
    PathsDiffer(CATALOG);
    ProbeVerdicts(sv.proof, s.proof, device, CATALOG, rawBody, time, nonce, laterTime, laterNonce, bad);
    RunFour(sv, s, a, b, b, c);
  }

  // ---- from registration on ----

  /** A registration, from any state: refused exactly when it gives no key or no thumbprint, and else
      the device is enrolled with its own, whatever was registered under its id before. */
  lemma RegistrationEnrolls(sv: MP.Server, s: State, p: MP.Post, device: Device)
    requires p.req.path == MP.REGISTER_PATH && MP.Registers(p.body, device) && device.installId != []
    ensures var (s', r) := Handle(sv, s, p);
      if device.publicKey == [] || device.thumbprint == [] then r == InvalidRegistration && Status(r) == 400 && s' == s
      else
        && r == RegisteredAs(device.installId, device.thumbprint) && Status(r) == 200
        && Enrolled(s'.proof, device) && s'.seenChannels == s.seenChannels
        && MP.RegisteredOnly(s.proof, s'.proof, device.installId, Install(device.publicKey, device.thumbprint))
  {
    MP.RegisteredFields(sv, p.body, device, DEFAULT_INSTALL);
  }

  /** A device registers and then makes the probe: 200, and 401, 200, 401, 401. */
  lemma RegisteredDeviceIsProbed(sv: MP.Server, s: State, p: MP.Post, device: Device, rawBody: Bytes, body: seq<Member>,
                                 time: Text, nonce: Text, laterTime: Text, laterNonce: Text, bad: Text)
    requires p.req.path == MP.REGISTER_PATH && MP.Registers(p.body, device) && device.installId != []
    requires device.publicKey != [] && device.thumbprint != []
    requires Genuine(sv.proof, device) && (device.installId, nonce) !in s.proof.nonces
    requires BadSignature(sv.proof, device, CATALOG, rawBody, laterTime, laterNonce, bad)
    ensures var valid := ProofFor(sv.proof, device, CATALOG, rawBody, time, nonce);
      var forged := ProofFor(sv.proof, device, CATALOG, rawBody, laterTime, laterNonce).(signature := bad);
      var rs := Run(sv, s, [p] + Probe(sv, rawBody, body, valid, forged)).1;
      |rs| == 5 && [Status(rs[0]), Status(rs[1]), Status(rs[2]), Status(rs[3]), Status(rs[4])] == [200, 401, 200, 401, 401]
  {
    var valid := ProofFor(sv.proof, device, CATALOG, rawBody, time, nonce);
    var forged := ProofFor(sv.proof, device, CATALOG, rawBody, laterTime, laterNonce).(signature := bad);
    RegistrationEnrolls(sv, s, p, device);
    RunOne(sv, s, p, Probe(sv, rawBody, body, valid, forged));
    ProbeOutcome(sv, Handle(sv, s, p).0, device, rawBody, body, time, nonce, laterTime, laterNonce, bad);
  }

  /** A second registration of an id replaces the first: the new device is served on every path but
      that of registration, and the old one, whose thumbprint is another, is refused on each. */
  lemma ReRegistrationReplaces(sv: MP.Server, s: State, p: MP.Post, old': Device, device: Device, path: Text,
                               rawBody: Bytes, body: seq<Member>, time: Text, nonce: Text)
    requires p.req.path == MP.REGISTER_PATH != path && MP.Registers(p.body, device)
    requires device.installId == old'.installId != [] && device.publicKey != [] && device.thumbprint != []
    requires old'.thumbprint != device.thumbprint && Genuine(sv.proof, device)
    ensures var s' := Handle(sv, s, p).0;
      var mine, others := ProofFor(sv.proof, device, path, rawBody, time, nonce),
        ProofFor(sv.proof, old', path, rawBody, time, nonce);
      && Handle(sv, s', MP.Post(Request(path, sv.proof.bearer, others, rawBody), body)).1 == Rejected(Invalid)
      && AcceptedPost(sv, s', MP.Post(Request(path, sv.proof.bearer, mine, rawBody), body))
           == ((device.installId, nonce) !in s.proof.nonces)
  {
    RegistrationEnrolls(sv, s, p, device);
    DeviceProofIsAccepted(sv.proof, Handle(sv, s, p).0.proof, device, path, rawBody, time, nonce);
  }

  /** Which response a post draws: an unknown path is only called so once its proof is accepted. */
  lemma EachResponseMeans(sv: MP.Server, s: State, p: MP.Post)
    ensures var r := Handle(sv, s, p).1;
      && (r.RegisteredAs? || r.InvalidRegistration? <==> p.req.path == MP.REGISTER_PATH)
      && (r.Rejected? <==> p.req.path != MP.REGISTER_PATH && !AcceptedPost(sv, s, p))
      && (r.Rejected? ==> r.verdict == Judge(sv.proof, s.proof, p.req))
      && (r == Served(p.req.path) <==> AcceptedPost(sv, s, p) && KnownPath(p.req.path))
      && (r.NotFound? <==> AcceptedPost(sv, s, p) && !KnownPath(p.req.path))
      && (Status(r) == 404 <==> r.NotFound?) && (Status(r) == 401 <==> r.Rejected?)
      && (Status(r) == 400 <==> r.InvalidRegistration?)
      && (Status(r) == 200 <==> r.RegisteredAs? || (AcceptedPost(sv, s, p) && KnownPath(p.req.path)))
  {
  }
}
