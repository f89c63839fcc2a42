/** The managed-policy fixture server: registration, the protected sync path and
    its queue of assignments. */
module ManagedPolicy {
  import opened Texts
  import opened JsonValues
  import opened JsonDict
  import opened DeviceProof
  import Sequences

  /** A signed assignment; what it says is opaque to the server. */
  type Assignment = Json

  const REGISTER_PATH: Text := T("/v1/installations/register")
  const SYNC_PATH: Text := T("/v1/policy/sync")
  const DEFAULT_INSTALL: Text := T("uls_inst_managed_policy_e2e")
  const FORBIDDEN: set<Text> := {
    T("skill_bodies"), T("prompts"), T("source_code"), T("local_path"), T("token"), T("device_private_key") }

  /** A POST as the handler sees it: `body` is the decoded JSON object, or empty. */
  datatype Post = Post(req: Request, body: seq<Member>)

  /** `str` renders a value that is not a string; `none` is the assignment with action "none". */
  datatype Server = Server(proof: Env, str: Json -> Text, none: Assignment)

  datatype Response =
    | RegisteredAs(installId: Text, thumbprint: Text)
    | NotFound
    | Rejected(verdict: Verdict)
    | ForbiddenField
    | Assigned(assignment: Assignment)
    | NothingAssigned

  function Status(r: Response): int {
    match r
    case NotFound => 404
    case Rejected(_) => 401
    case ForbiddenField => 400
    case _ => 200
  }

  predicate Falsy(v: Json) {
    v in {Null, Bool(false), Int(0), Str([]), Arr([]), Obj([])}
  }

  /** `str(body.get(key) or default)`. */
  function Field(sv: Server, body: seq<Member>, key: Text, default: Text): Text {
    match Lookup(body, key)
    case None => default
    case Some(v) => if Falsy(v) then default else if v.Str? then v.s else sv.str(v)
  }

  predicate HasForbidden(body: seq<Member>) {
    exists i :: 0 <= i < |body| && body[i].key in FORBIDDEN
  }

  datatype State = State(
    proof: ProofState,
    requests: seq<seq<Member>>,
    assignments: seq<Assignment>,
    forbiddenSeen: bool)

  function Registration(sv: Server, body: seq<Member>): (Text, Install) {
    (Field(sv, body, T("install_id"), DEFAULT_INSTALL),
     Install(Field(sv, body, T("public_key"), []), Field(sv, body, T("key_thumbprint"), [])))
  }

  /** One POST, atomically. */
  function Handle(sv: Server, s: State, p: Post): (State, Response) {
    if p.req.path == REGISTER_PATH then
      var (id, install) := Registration(sv, p.body);
      (s.(proof := Enroll(s.proof, id, install)), RegisteredAs(id, install.thumbprint))
    else if p.req.path != SYNC_PATH then (s, NotFound)
    else
      var v := Judge(sv.proof, s.proof, p.req);
      var checked := s.(proof := Check(sv.proof, s.proof, p.req));
      if v != Success then (checked, Rejected(v))
      else
        var logged := checked.(requests := s.requests + [p.body]);
        if HasForbidden(p.body) then (logged.(forbiddenSeen := true), ForbiddenField)
        else if s.assignments == [] then (logged, NothingAssigned)
        else (logged.(assignments := s.assignments[1..]), Assigned(s.assignments[0]))
  }

  class FixtureServer {
    const server: Server
    const store: ProofStore
    var requests: seq<seq<Member>>
    var assignments: seq<Assignment>
    var forbiddenSeen: bool

    ghost function View(): State
      reads this, store
    {
      State(store.View(), requests, assignments, forbiddenSeen)
    }

    constructor (server: Server, assignments: seq<Assignment>)
      ensures this.server == server && fresh(store)
      ensures View() == State(EMPTY, [], assignments, false)
    {
      this.server := server;
      store := new ProofStore();
      requests, forbiddenSeen := [], false;
      this.assignments := assignments;
    }

    method DoPost(p: Post) returns (r: Response)
      modifies this, store
      ensures (View(), r) == Handle(server, old(View()), p)
    {
      if p.req.path == REGISTER_PATH {
        var (id, install) := Registration(server, p.body);
        store.Register(id, install);
        return RegisteredAs(id, install.thumbprint);
      }
      if p.req.path != SYNC_PATH { return NotFound; }
      var v := store.VerifyProof(server.proof, p.req);
      if v != Success { return Rejected(v); }
      requests := requests + [p.body];
      if HasForbidden(p.body) {
        forbiddenSeen := true;
        return ForbiddenField;
      }
      if assignments == [] { return NothingAssigned; }
      r := Assigned(assignments[0]);
      assignments := assignments[1..];
    }
  }

  // ---- whole runs ----

  function Run(sv: Server, s: State, posts: seq<Post>): (State, seq<Response>)
    decreases |posts|
  {
    if posts == [] then (s, [])
    else
      var (s1, r) := Handle(sv, s, posts[0]);
      var (s2, rs) := Run(sv, s1, posts[1..]);
      (s2, [r] + rs)
  }

  /** What a run looks like to the proof verifier. */
  function Events(sv: Server, posts: seq<Post>): seq<Event>
    decreases |posts|
  {
    if posts == [] then []
    else
      var p, rest := posts[0], Events(sv, posts[1..]);
      if p.req.path == REGISTER_PATH then
        var (id, install) := Registration(sv, p.body);
        [Event.Registered(id, install)] + rest
      else if p.req.path == SYNC_PATH then [Protected(p.req)] + rest
      else rest
  }

  /** The server's proof state is the verifier's, so its safety results hold of every run here. */
  lemma {:induction false} ServerRunsVerifier(sv: Server, s: State, posts: seq<Post>)
    ensures Run(sv, s, posts).0.proof == DeviceProof.Run(sv.proof, s.proof, Events(sv, posts))
    decreases |posts|
  {
    if posts != [] {
      var s1 := Handle(sv, s, posts[0]).0;
      ServerRunsVerifier(sv, s1, posts[1..]);
      var rest := Events(sv, posts[1..]);
      var p := posts[0];
      if p.req.path == REGISTER_PATH {
        var (id, install) := Registration(sv, p.body);
        assert ([Event.Registered(id, install)] + rest)[1..] == rest;
      } else if p.req.path == SYNC_PATH {
        assert ([Protected(p.req)] + rest)[1..] == rest;
      }
    }
  }

  /** The assignments handed out, in order. */
  function Served(rs: seq<Response>): seq<Assignment> {
    if rs == [] then []
    else
      var head := if rs[0].Assigned? then [rs[0].assignment] else [];
      head + Served(rs[1..])
  }

  // ---- what a request amounts to in the state it meets ----

  /** A protected request whose proof the verifier accepts. */
  predicate AcceptedPost(sv: Server, s: State, p: Post) {
    p.req.path == SYNC_PATH && Judge(sv.proof, s.proof, p.req) == Success
  }

  predicate CleanPost(sv: Server, s: State, p: Post) {
    AcceptedPost(sv, s, p) && !HasForbidden(p.body)
  }

  predicate CarriesForbidden(sv: Server, s: State, p: Post) {
    AcceptedPost(sv, s, p) && HasForbidden(p.body)
  }

  function Reached(sv: Server, s: State, posts: seq<Post>): State { Run(sv, s, posts).0 }

  /** How many of the requests are clean, each in the state it meets. */
  function CleanPosts(sv: Server, s: State, posts: seq<Post>): nat
    decreases |posts|
  {
    if posts == [] then 0
    else (if CleanPost(sv, s, posts[0]) then 1 else 0) + CleanPosts(sv, Handle(sv, s, posts[0]).0, posts[1..])
  }

  /** The bodies of the accepted requests, in order. */
  function AcceptedBodies(sv: Server, s: State, posts: seq<Post>): seq<seq<Member>>
    decreases |posts|
  {
    if posts == [] then []
    else
      var head := if AcceptedPost(sv, s, posts[0]) then [posts[0].body] else [];
      head + AcceptedBodies(sv, Handle(sv, s, posts[0]).0, posts[1..])
  }

  /** What one request does to the queue and the log. */
  lemma OneRequest(sv: Server, s: State, p: Post)
    ensures var (s', r) := Handle(sv, s, p);
      && s.assignments == (if r.Assigned? then [r.assignment] else []) + s'.assignments
      && (r.Assigned? <==> CleanPost(sv, s, p) && s.assignments != [])
      && (r.NothingAssigned? <==> CleanPost(sv, s, p) && s.assignments == [])
      && s'.requests == s.requests + (if AcceptedPost(sv, s, p) then [p.body] else [])
      && s'.proof.success == s.proof.success + (if AcceptedPost(sv, s, p) then 1 else 0)
  {
  }

  lemma Concat3<E>(all: seq<E>, first: seq<E>, mid: seq<E>, left: seq<E>, end: seq<E>)
    requires all == first + left && left == mid + end
    ensures all == (first + mid) + end
  {
  }

  /** No assignment is lost, repeated or reordered: the initial queue is what was served followed by
      what remains, and as many were served as there were clean requests, while there were any. */
  lemma {:induction false} AssignmentsAreConserved(sv: Server, s: State, posts: seq<Post>)
    ensures var (s', rs) := Run(sv, s, posts);
      && s.assignments == Served(rs) + s'.assignments
      && |Served(rs)| == if |s.assignments| < CleanPosts(sv, s, posts) then |s.assignments| else CleanPosts(sv, s, posts)
    decreases |posts|
  {
    if posts != [] {
      var (s1, r) := Handle(sv, s, posts[0]);
      OneRequest(sv, s, posts[0]);
      AssignmentsAreConserved(sv, s1, posts[1..]);
      var (s', rs) := Run(sv, s1, posts[1..]);
      var first := if r.Assigned? then [r.assignment] else [];
      assert ([r] + rs)[1..] == rs;
      Concat3(s.assignments, first, Served(rs), s1.assignments, s'.assignments);
    }
  }

  /** The request log grows by the bodies of the accepted requests, in order, and the success
      counter by their number. */
  lemma {:induction false} LogIsExact(sv: Server, s: State, posts: seq<Post>)
    ensures var s' := Reached(sv, s, posts);
      && s'.requests == s.requests + AcceptedBodies(sv, s, posts)
      && s'.proof.success == s.proof.success + |AcceptedBodies(sv, s, posts)|
    decreases |posts|
  {
    if posts != [] {
      var s1 := Handle(sv, s, posts[0]).0;
      OneRequest(sv, s, posts[0]);
      LogIsExact(sv, s1, posts[1..]);
      var head := if AcceptedPost(sv, s, posts[0]) then [posts[0].body] else [];
      Sequences.Associate(s.requests, head, AcceptedBodies(sv, s1, posts[1..]));
    }
  }

  lemma {:induction false} OneResponseEach(sv: Server, s: State, posts: seq<Post>)
    ensures |Run(sv, s, posts).1| == |posts|
    decreases |posts|
  {
    if posts != [] {
      OneResponseEach(sv, Handle(sv, s, posts[0]).0, posts[1..]);
    }
  }

  lemma ReachedLater(sv: Server, s: State, posts: seq<Post>, i: nat)
    requires 0 < i <= |posts|
    ensures var s1 := Handle(sv, s, posts[0]).0;
      && Reached(sv, s, posts[..i]) == Reached(sv, s1, posts[1..][..i - 1])
      && CleanPosts(sv, s, posts[..i])
           == (if CleanPost(sv, s, posts[0]) then 1 else 0) + CleanPosts(sv, s1, posts[1..][..i - 1])
  {
    assert posts[..i][1..] == posts[1..][..i - 1];
  }

  /** What a response hands out of the queue: an assignment, word that there is none, or nothing. */
  function Handed(r: Response): Option<Response> {
    if r.Assigned? || r.NothingAssigned? then Some(r) else None
  }

  /** What is due to a request when `before` clean ones came before it. */
  function Due(clean: bool, queue: seq<Assignment>, before: nat): Option<Response> {
    if !clean then None
    else if before < |queue| then Some(Assigned(queue[before]))
    else Some(NothingAssigned)
  }

  lemma DueLater(sv: Server, s: State, p: Post, clean: bool, before: nat)
    ensures Due(clean, Handle(sv, s, p).0.assignments, before)
         == Due(clean, s.assignments, before + (if CleanPost(sv, s, p) then 1 else 0))
  {
    OneRequest(sv, s, p);
  }

  /** What request `i` is told: a clean one gets the assignment whose place in the queue is the number
      of clean requests before it, or "none" when there are not so many; any other gets neither. */
  lemma {:induction false} EachCleanRequestIsServed(sv: Server, s: State, posts: seq<Post>, i: nat)
    requires i < |posts|
    ensures |Run(sv, s, posts).1| == |posts|
    ensures var met, before := Reached(sv, s, posts[..i]), CleanPosts(sv, s, posts[..i]);
      Handed(Run(sv, s, posts).1[i]) == Due(CleanPost(sv, met, posts[i]), s.assignments, before)
    decreases |posts|
  {
    OneResponseEach(sv, s, posts);
    if i == 0 {
      OneRequest(sv, s, posts[0]);
      assert posts[..0] == [];
    } else {
      var s1, rest := Handle(sv, s, posts[0]).0, posts[1..];
      EachCleanRequestIsServed(sv, s1, rest, i - 1);
      ReachedLater(sv, s, posts, i);
      var met := Reached(sv, s1, rest[..i - 1]);
      DueLater(sv, s, posts[0], CleanPost(sv, met, posts[i]), CleanPosts(sv, s1, rest[..i - 1]));
    }
  }

  /** Once the queue is empty it stays so, and exactly the clean requests are told "none". */
  lemma EmptyQueueAnswersNone(sv: Server, s: State, posts: seq<Post>)
    requires s.assignments == []
    ensures Reached(sv, s, posts).assignments == [] && |Run(sv, s, posts).1| == |posts|
    ensures forall i :: 0 <= i < |posts| ==>
      (Run(sv, s, posts).1[i] == NothingAssigned <==> CleanPost(sv, Reached(sv, s, posts[..i]), posts[i]))
  {
    OneResponseEach(sv, s, posts);
    AssignmentsAreConserved(sv, s, posts);
    forall i | 0 <= i < |posts|
      ensures Run(sv, s, posts).1[i] == NothingAssigned <==> CleanPost(sv, Reached(sv, s, posts[..i]), posts[i])
    {
      EachCleanRequestIsServed(sv, s, posts, i);
    }
  }

  ghost predicate SomeForbidden(sv: Server, s: State, posts: seq<Post>) {
    exists i :: 0 <= i < |posts| && CarriesForbidden(sv, Reached(sv, s, posts[..i]), posts[i])
  }

  lemma SomeForbiddenSplit(sv: Server, s: State, posts: seq<Post>)
    requires posts != []
    ensures SomeForbidden(sv, s, posts) <==>
      CarriesForbidden(sv, s, posts[0]) || SomeForbidden(sv, Handle(sv, s, posts[0]).0, posts[1..])
  {
    var s1, rest := Handle(sv, s, posts[0]).0, posts[1..];
    assert posts[..0] == [];
    if i :| 0 <= i < |posts| && CarriesForbidden(sv, Reached(sv, s, posts[..i]), posts[i]) {
      if i > 0 {
        ReachedLater(sv, s, posts, i);
        assert CarriesForbidden(sv, Reached(sv, s1, rest[..i - 1]), rest[i - 1]);
      }
    }
    if CarriesForbidden(sv, s, posts[0]) {
      assert CarriesForbidden(sv, Reached(sv, s, posts[..0]), posts[0]);
    }
    if i :| 0 <= i < |rest| && CarriesForbidden(sv, Reached(sv, s1, rest[..i]), rest[i]) {
      ReachedLater(sv, s, posts, i + 1);
      assert CarriesForbidden(sv, Reached(sv, s, posts[..i + 1]), posts[i + 1]);
    }
  }

  /** The flag records exactly that some accepted request carried a forbidden field. */
  lemma {:induction false} FlagMeansForbidden(sv: Server, s: State, posts: seq<Post>)
    ensures Reached(sv, s, posts).forbiddenSeen <==> s.forbiddenSeen || SomeForbidden(sv, s, posts)
    decreases |posts|
  {
    if posts != [] {
      FlagMeansForbidden(sv, Handle(sv, s, posts[0]).0, posts[1..]);
      SomeForbiddenSplit(sv, s, posts);
    }
  }

  // ---- rejected requests might as well not have been made ----

  predicate SameServer(s: State, t: State) {
    && SameDecisions(s.proof, t.proof) && s.proof.success == t.proof.success
    && s.requests == t.requests && s.assignments == t.assignments && s.forbiddenSeen == t.forbiddenSeen
  }

  function Purged(sv: Server, s: State, posts: seq<Post>): seq<Post>
    decreases |posts|
  {
    if posts == [] then []
    else
      var (s1, r) := Handle(sv, s, posts[0]);
      (if r.Rejected? then [] else [posts[0]]) + Purged(sv, s1, posts[1..])
  }

  function Accepted(rs: seq<Response>): seq<Response> {
    if rs == [] then []
    else (if rs[0].Rejected? then [] else [rs[0]]) + Accepted(rs[1..])
  }

  lemma RejectedKeeps(sv: Server, s: State, p: Post)
    requires Handle(sv, s, p).1.Rejected?
    ensures SameServer(Handle(sv, s, p).0, s)
  {
  }

  lemma ChecksAgree(env: Env, s: ProofState, t: ProofState, req: Request)
    requires SameDecisions(s, t) && s.success == t.success
    ensures Judge(env, s, req) == Judge(env, t, req)
    ensures SameDecisions(Check(env, s, req), Check(env, t, req))
    ensures Check(env, s, req).success == Check(env, t, req).success
  {
  }

  lemma HandleAgrees(sv: Server, s: State, t: State, p: Post)
    requires SameServer(s, t)
    ensures Handle(sv, t, p).1 == Handle(sv, s, p).1
    ensures SameServer(Handle(sv, s, p).0, Handle(sv, t, p).0)
  {
    if p.req.path != REGISTER_PATH && p.req.path == SYNC_PATH {
      ChecksAgree(sv.proof, s.proof, t.proof, p.req);
      SyncAgrees(sv, s, t, p);
    }
  }

  lemma SyncAgrees(sv: Server, s: State, t: State, p: Post)
    requires SameServer(s, t) && p.req.path == SYNC_PATH != REGISTER_PATH
    requires Judge(sv.proof, s.proof, p.req) == Judge(sv.proof, t.proof, p.req)
    requires SameDecisions(Check(sv.proof, s.proof, p.req), Check(sv.proof, t.proof, p.req))
    requires Check(sv.proof, s.proof, p.req).success == Check(sv.proof, t.proof, p.req).success
    ensures Handle(sv, t, p).1 == Handle(sv, s, p).1
    ensures SameServer(Handle(sv, s, p).0, Handle(sv, t, p).0)
  {
  }

  /** Dropping the rejected requests from a run leaves every other response, the assignments, the
      request log, the nonces and the registrations exactly as they were. */
  lemma {:induction false} RejectedRequestsChangeNothing(sv: Server, s: State, t: State, posts: seq<Post>)
    requires SameServer(s, t)
    ensures SameServer(Run(sv, s, posts).0, Run(sv, t, Purged(sv, s, posts)).0)
    ensures Run(sv, t, Purged(sv, s, posts)).1 == Accepted(Run(sv, s, posts).1)
    decreases |posts|
  {
    if posts != [] {
      var p, s1, t1 := posts[0], Handle(sv, s, posts[0]).0, Handle(sv, t, posts[0]).0;
      HandleAgrees(sv, s, t, p);
      var rs := Run(sv, s1, posts[1..]).1;
      assert ([Handle(sv, s, p).1] + rs)[1..] == rs;
      if Handle(sv, s, p).1.Rejected? {
        RejectedKeeps(sv, s, p);
        RejectedRequestsChangeNothing(sv, s1, t, posts[1..]);
        assert Purged(sv, s, posts) == Purged(sv, s1, posts[1..]);
      } else {
        RejectedRequestsChangeNothing(sv, s1, t1, posts[1..]);
        RunOne(sv, t, p, Purged(sv, s1, posts[1..]));
      }
    }
  }

  /** Over every run from the initial state: no (install, nonce) pair is accepted twice, and the
      success counter, the nonce set and the request log all have one entry per accepted proof. */
  lemma ServerIsSafe(sv: Server, queue: seq<Assignment>, posts: seq<Post>)
    ensures var s := Run(sv, State(EMPTY, [], queue, false), posts).0;
      var keys := AcceptedKeys(sv.proof, EMPTY, Events(sv, posts));
      && (forall k :: k in s.proof.nonces <==> k in keys)
      && (forall i, j :: 0 <= i < j < |keys| ==> keys[i] != keys[j])
      && s.proof.success == |s.proof.nonces| == |keys| == |s.requests|
  {
    var start := State(EMPTY, [], queue, false);
    ServerRunsVerifier(sv, start, posts);
    EachNonceAcceptedOnce(sv.proof, EMPTY, Events(sv, posts));
    SuccessCountsNonces(sv.proof, EMPTY, Events(sv, posts));
    LogIsExact(sv, start, posts);
  }

  // ---- the negative-case probe ----

  /** A sync request of a device, with this proof header. */
  function ProbePost(sv: Server, rawBody: Bytes, body: seq<Member>, proof: ProofHeader): Post {
    Post(Request(SYNC_PATH, sv.proof.bearer, proof, rawBody), body)
  }

  function Probe(sv: Server, rawBody: Bytes, body: seq<Member>, valid: ProofHeader, forged: ProofHeader): seq<Post> {
    [ ProbePost(sv, rawBody, body, NoProof), ProbePost(sv, rawBody, body, valid),
      ProbePost(sv, rawBody, body, valid), ProbePost(sv, rawBody, body, forged) ]
  }

  /** The probe (no proof, a proof the device made, the same again, a second one with its signature
      replaced) from any state in which the device is registered and its nonce unused: 401, 200, 401,
      401. The last is refused for its signature, unless its nonce was used too. */
  lemma ProbeOutcome(sv: Server, s: State, device: Device, rawBody: Bytes, body: seq<Member>, time: Text, nonce: Text,
                     laterTime: Text, laterNonce: Text, bad: Text)
    requires Enrolled(s.proof, device) && Genuine(sv.proof, device) && !HasForbidden(body)
    requires (device.installId, nonce) !in s.proof.nonces
    requires BadSignature(sv.proof, device, SYNC_PATH, rawBody, laterTime, laterNonce, bad)
    ensures var valid := ProofFor(sv.proof, device, SYNC_PATH, rawBody, time, nonce);
      var forged := ProofFor(sv.proof, device, SYNC_PATH, rawBody, laterTime, laterNonce).(signature := bad);
      var (s', rs) := Run(sv, s, Probe(sv, rawBody, body, valid, forged));
      && |rs| == 4 && [Status(rs[0]), Status(rs[1]), Status(rs[2]), Status(rs[3])] == [401, 200, 401, 401]
      && rs[0] == Rejected(Missing) && rs[2] == Rejected(Replay)
      && rs[3] == Rejected(
           if laterNonce == nonce || (device.installId, laterNonce) in s.proof.nonces then Replay else Invalid)
      && s'.proof == Probed(s.proof, device, nonce, rs[3] == Rejected(Replay))
  {
    var valid := ProofFor(sv.proof, device, SYNC_PATH, rawBody, time, nonce);
    var forged := ProofFor(sv.proof, device, SYNC_PATH, rawBody, laterTime, laterNonce).(signature := bad);
    var a, b, c := ProbePost(sv, rawBody, body, NoProof), ProbePost(sv, rawBody, body, valid),
      ProbePost(sv, rawBody, body, forged);
    ProbeVerdicts(sv.proof, s.proof, device, SYNC_PATH, rawBody, time, nonce, laterTime, laterNonce, bad);
    RunFour(sv, s, a, b, b, c);
  }

  lemma RunOne(sv: Server, s: State, p: Post, posts: seq<Post>)
    ensures Run(sv, s, [p] + posts)
      == (Run(sv, Handle(sv, s, p).0, posts).0, [Handle(sv, s, p).1] + Run(sv, Handle(sv, s, p).0, posts).1)
  {
    assert ([p] + posts)[1..] == posts;
  }

  lemma RunFour(sv: Server, s: State, a: Post, b: Post, c: Post, d: Post)
    ensures var (s1, r1) := Handle(sv, s, a);
      var (s2, r2) := Handle(sv, s1, b);
      var (s3, r3) := Handle(sv, s2, c);
      var (s4, r4) := Handle(sv, s3, d);
      Run(sv, s, [a, b, c, d]) == (s4, [r1, r2, r3, r4])
  {
    var s1 := Handle(sv, s, a).0;
    var s2 := Handle(sv, s1, b).0;
    var s3 := Handle(sv, s2, c).0;
    RunOne(sv, s3, d, []);
    RunOne(sv, s2, c, [d]);
    RunOne(sv, s1, b, [c, d]);
    RunOne(sv, s, a, [b, c, d]);
    assert [a] + [b, c, d] == [a, b, c, d] && [b] + [c, d] == [b, c, d] && [c] + [d] == [c, d] && [d] + [] == [d];
    var r1, r2, r3, r4 := Handle(sv, s, a).1, Handle(sv, s1, b).1, Handle(sv, s2, c).1, Handle(sv, s3, d).1;
    assert [r1] + ([r2] + ([r3] + ([r4] + []))) == [r1, r2, r3, r4];
  }

  // ---- from registration on ----

  /** What Python takes for true. */
  predicate Truthy(v: Json) {
    match v
    case Null => false
    case Bool(b) => b
    case Int(n) => n != 0
    case Str(t) => |t| > 0
    case Arr(items) => |items| > 0
    case Obj(ms) => |ms| > 0
  }

  /** A field is its text when that is not empty, the rendering of another true value, and otherwise
      the default. */
  lemma FieldMeans(sv: Server, body: seq<Member>, key: Text, default: Text)
    ensures var v := Lookup(body, key);
      && (v.None? || !Truthy(v.value) ==> Field(sv, body, key, default) == default)
      && (v.Some? && Truthy(v.value) ==>
            Field(sv, body, key, default) == if v.value.Str? then v.value.s else sv.str(v.value))
  {
  }

  /** A body is forbidden something exactly when one of the six names is a key of it. */
  lemma HasForbiddenMeans(body: seq<Member>)
    ensures HasForbidden(body) <==> exists key :: key in FORBIDDEN && key in AsMap(body)
  {
    AsMapKeys(body);
    if i :| 0 <= i < |body| && body[i].key in FORBIDDEN {
      assert body[i].key in AsMap(body);
    }
  }

  /** The body of a device's registration. */
  predicate Registers(body: seq<Member>, device: Device) {
    && Lookup(body, T("install_id")) == Some(Str(device.installId))
    && Lookup(body, T("public_key")) == Some(Str(device.publicKey))
    && Lookup(body, T("key_thumbprint")) == Some(Str(device.thumbprint))
  }

  lemma RegisteredFields(sv: Server, body: seq<Member>, device: Device, default: Text)
    requires Registers(body, device) && device.installId != []
    ensures Field(sv, body, T("install_id"), default) == device.installId
    ensures Field(sv, body, T("public_key"), []) == device.publicKey
    ensures Field(sv, body, T("key_thumbprint"), []) == device.thumbprint
  {
  }

  /** The server after `install` was registered: nothing else has changed. */
  predicate RegisteredOnly(s: ProofState, s': ProofState, id: Text, install: Install) {
    && s'.installations.Keys == s.installations.Keys + {id} && s'.installations[id] == install
    && (forall other :: other in s.installations && other != id ==> s'.installations[other] == s.installations[other])
    && s'.(installations := s.installations) == s
  }

  /** A registration, from any state: the response names the device and its thumbprint, and the device
      is enrolled with its own key, whatever was registered under its id before. */
  lemma RegistrationEnrolls(sv: Server, s: State, p: Post, device: Device)
    requires p.req.path == REGISTER_PATH && Registers(p.body, device) && device.installId != []
    ensures var (s', r) := Handle(sv, s, p);
      && r == RegisteredAs(device.installId, device.thumbprint) && Status(r) == 200
      && Enrolled(s'.proof, device) && s'.(proof := s.proof) == s
      && RegisteredOnly(s.proof, s'.proof, device.installId, Install(device.publicKey, device.thumbprint))
  {
    RegisteredFields(sv, p.body, device, DEFAULT_INSTALL);
  }

  /** A registration that names nothing gets the default id, and no key. */
  lemma EmptyRegistration(sv: Server, s: State, p: Post)
    requires p.req.path == REGISTER_PATH && p.body == []
    ensures var (s', r) := Handle(sv, s, p);
      && r == RegisteredAs(DEFAULT_INSTALL, [])
      && RegisteredOnly(s.proof, s'.proof, DEFAULT_INSTALL, Install([], []))
  {
  }

  /** A device registers and then makes the probe: 200, and 401, 200, 401, 401. */
  lemma RegisteredDeviceIsProbed(sv: Server, s: State, p: Post, device: Device, rawBody: Bytes, body: seq<Member>,
                                 time: Text, nonce: Text, laterTime: Text, laterNonce: Text, bad: Text)
    requires p.req.path == REGISTER_PATH && Registers(p.body, device) && device.installId != []
    requires Genuine(sv.proof, device) && !HasForbidden(body) && (device.installId, nonce) !in s.proof.nonces
    requires BadSignature(sv.proof, device, SYNC_PATH, rawBody, laterTime, laterNonce, bad)
    ensures var valid := ProofFor(sv.proof, device, SYNC_PATH, rawBody, time, nonce);
      var forged := ProofFor(sv.proof, device, SYNC_PATH, rawBody, laterTime, laterNonce).(signature := bad);
      var rs := Run(sv, s, [p] + Probe(sv, rawBody, body, valid, forged)).1;
      |rs| == 5 && [Status(rs[0]), Status(rs[1]), Status(rs[2]), Status(rs[3]), Status(rs[4])] == [200, 401, 200, 401, 401]
  {
    var valid := ProofFor(sv.proof, device, SYNC_PATH, rawBody, time, nonce);
    var forged := ProofFor(sv.proof, device, SYNC_PATH, rawBody, laterTime, laterNonce).(signature := bad);
    RegistrationEnrolls(sv, s, p, device);
    RunOne(sv, s, p, Probe(sv, rawBody, body, valid, forged));
    ProbeOutcome(sv, Handle(sv, s, p).0, device, rawBody, body, time, nonce, laterTime, laterNonce, bad);
  }

  /** A second registration of an id replaces the first: the new device is served, and the old one,
      whose thumbprint is another, is refused with every proof it can make. */
  lemma ReRegistrationReplaces(sv: Server, s: State, p: Post, old': Device, device: Device, rawBody: Bytes,
                               body: seq<Member>, time: Text, nonce: Text)
    requires p.req.path == REGISTER_PATH && Registers(p.body, device) && device.installId == old'.installId != []
    requires old'.thumbprint != device.thumbprint && Genuine(sv.proof, device)
    ensures var s' := Handle(sv, s, p).0;
      && Handle(sv, s', ProbePost(sv, rawBody, body, ProofFor(sv.proof, old', SYNC_PATH, rawBody, time, nonce))).1
           == Rejected(Invalid)
      && AcceptedPost(sv, s', ProbePost(sv, rawBody, body, ProofFor(sv.proof, device, SYNC_PATH, rawBody, time, nonce)))
           == ((device.installId, nonce) !in s.proof.nonces)
  {
    RegistrationEnrolls(sv, s, p, device);
    var s' := Handle(sv, s, p).0;
    DeviceProofIsAccepted(sv.proof, s'.proof, device, SYNC_PATH, rawBody, time, nonce);
    PathsDiffer();
  }

  lemma PathsDiffer()
    ensures SYNC_PATH != REGISTER_PATH
  {
    assert |REGISTER_PATH| == 26 && |SYNC_PATH| == 15;
  }

  /** Which response a post draws. */
  lemma EachResponseMeans(sv: Server, s: State, p: Post)
    ensures var (s', r) := Handle(sv, s, p);
      && (r.RegisteredAs? <==> p.req.path == REGISTER_PATH)
      && (r.NotFound? <==> p.req.path !in {REGISTER_PATH, SYNC_PATH})
      && (r.ForbiddenField? <==> CarriesForbidden(sv, s, p))
      && (r.Rejected? <==> p.req.path == SYNC_PATH && !AcceptedPost(sv, s, p))
      && (r.Rejected? ==> r.verdict == Judge(sv.proof, s.proof, p.req))
      && (r.NotFound? ==> s' == s)
      && (Status(r) == 404 <==> r.NotFound?) && (Status(r) == 401 <==> r.Rejected?)
      && (Status(r) == 400 <==> r.ForbiddenField?) && (Status(r) == 200 <==> p.req.path == REGISTER_PATH || CleanPost(sv, s, p))
  {
    PathsDiffer();
  }
}
