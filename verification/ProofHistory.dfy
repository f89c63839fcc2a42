/** Every verdict of a run in terms of the events before it: who was registered
    last, and which nonces were accepted earlier. */
module ProofHistory {
  import opened Texts
  import opened DeviceProof

  function Reached(env: Env, events: seq<Event>): ProofState { Run(env, EMPTY, events) }

  /** What was registered last under this id. */
  function LastRegistered(events: seq<Event>, id: Text): Option<Install> {
    if events == [] then None
    else match events[|events| - 1]
      case Registered(other, install) =>
        if other == id then Some(install) else LastRegistered(events[..|events| - 1], id)
      case Protected(_) => LastRegistered(events[..|events| - 1], id)
  }

  /** Nothing was registered under this id from `m + 1` on, and at `m` this was. */
  ghost predicate RegisteredAt(events: seq<Event>, m: nat, id: Text, install: Install) {
    && m < |events| && events[m] == Event.Registered(id, install)
    && forall k :: m < k < |events| && events[k].Registered? ==> events[k].installId != id
  }

  lemma {:induction false} LastRegisteredIs(events: seq<Event>, id: Text, install: Install)
    ensures LastRegistered(events, id) == Some(install) <==> exists m :: RegisteredAt(events, m, id, install)
  {
    if events != [] {
      var n := |events| - 1;
      var front := events[..n];
      LastRegisteredIs(front, id, install);
      if events[n].Registered? && events[n].installId == id {
        assert RegisteredAt(events, n, id, events[n].install);
      } else {
        if m :| RegisteredAt(front, m, id, install) {
          assert RegisteredAt(events, m, id, install);
        }
        if m :| RegisteredAt(events, m, id, install) {
          assert RegisteredAt(front, m, id, install);
        }
      }
    }
  }

  lemma {:induction false} RunSnoc(env: Env, s: ProofState, events: seq<Event>, e: Event)
    ensures Run(env, s, events + [e]) == Step(env, Run(env, s, events), e)
    decreases |events|
  {
    var all := events + [e];
    if events == [] {
      assert all == [e] && all[1..] == [];
    } else {
      assert all[1..] == events[1..] + [e];
      RunSnoc(env, Step(env, s, events[0]), events[1..], e);
    }
  }

  /** The request at `n` was accepted in the state it met. */
  predicate AcceptedAt(env: Env, events: seq<Event>, n: nat)
    requires n < |events|
  {
    AcceptedNow(env, Reached(env, events[..n]), events[n])
  }

  /** A request accepted before `n` used this pair of installation and nonce. */
  ghost predicate UsedBefore(env: Env, events: seq<Event>, n: nat, key: (Text, Text))
    requires n <= |events|
  {
    exists k :: 0 <= k < n && AcceptedAt(env, events, k) && NonceKey(events[k].req) == key
  }

  lemma {:induction false} ReachedInstalls(env: Env, events: seq<Event>, id: Text)
    ensures var installs := Reached(env, events).installations;
      LastRegistered(events, id) == if id in installs then Some(installs[id]) else None
  {
    if events != [] {
      var front, last := events[..|events| - 1], events[|events| - 1];
      assert events == front + [last];
      RunSnoc(env, EMPTY, front, last);
      ReachedInstalls(env, front, id);
    }
  }

  lemma UsedInPrefix(env: Env, events: seq<Event>, n: nat, key: (Text, Text))
    requires n <= |events|
    ensures UsedBefore(env, events, n, key) <==> UsedBefore(env, events[..n], n, key)
  {
    var front := events[..n];
    forall k | 0 <= k < n ensures AcceptedAt(env, front, k) == AcceptedAt(env, events, k) && front[k] == events[k] {
      assert front[..k] == events[..k];
    }
  }

  lemma {:induction false} ReachedNonces(env: Env, events: seq<Event>, key: (Text, Text))
    ensures key in Reached(env, events).nonces <==> UsedBefore(env, events, |events|, key)
  {
    if events != [] {
      var n := |events| - 1;
      var front, last := events[..n], events[n];
      assert events == front + [last];
      RunSnoc(env, EMPTY, front, last);
      ReachedNonces(env, front, key);
      UsedInPrefix(env, events, n, key);
      if AcceptedAt(env, events, n) && NonceKey(last.req) == key {
        assert UsedBefore(env, events, |events|, key);
      }
      if UsedBefore(env, events, n, key) {
        var k :| 0 <= k < n && AcceptedAt(env, events, k) && NonceKey(events[k].req) == key;
        assert 0 <= k < |events|;
      }
    }
  }

  /** The header names an installation by its last registration, and the body it came with. */
  ghost predicate Names(env: Env, events: seq<Event>, n: nat, req: Request, install: Install)
    requires n <= |events| && req.proof.Proof?
  {
    && (exists m :: RegisteredAt(events[..n], m, req.proof.installId, install))
    && req.proof.thumbprint == install.thumbprint && req.proof.bodySha256 == env.sha256(req.rawBody)
  }

  ghost predicate Known(env: Env, events: seq<Event>, n: nat, req: Request)
    requires n <= |events| && req.proof.Proof?
  {
    exists install :: Names(env, events, n, req, install)
  }

  /** The signature verifies under the key registered last for the installation. */
  ghost predicate Signed(env: Env, events: seq<Event>, n: nat, req: Request)
    requires n <= |events| && req.proof.Proof?
  {
    exists install :: Names(env, events, n, req, install)
      && env.verify(install.publicKey, req.proof.signature, SignedMessage(req.path, req.proof))
  }

  lemma NamesIs(env: Env, events: seq<Event>, n: nat, req: Request, install: Install)
    requires n <= |events| && req.proof.Proof?
    ensures var installs := Reached(env, events[..n]).installations; var p := req.proof;
      Names(env, events, n, req, install) <==>
        p.installId in installs && install == installs[p.installId]
        && p.thumbprint == install.thumbprint && p.bodySha256 == env.sha256(req.rawBody)
  {
    ReachedInstalls(env, events[..n], req.proof.installId);
    LastRegisteredIs(events[..n], req.proof.installId, install);
  }

  lemma KnownIs(env: Env, events: seq<Event>, n: nat, req: Request)
    requires n <= |events| && req.proof.Proof?
    ensures var installs := Reached(env, events[..n]).installations; var p := req.proof;
      && (Known(env, events, n, req) <==>
            p.installId in installs && p.thumbprint == installs[p.installId].thumbprint
            && p.bodySha256 == env.sha256(req.rawBody))
      && (Signed(env, events, n, req) <==>
            Known(env, events, n, req)
            && env.verify(installs[p.installId].publicKey, p.signature, SignedMessage(req.path, p)))
  {
    var installs := Reached(env, events[..n]).installations;
    forall install ensures Names(env, events, n, req, install) <==>
        req.proof.installId in installs && install == installs[req.proof.installId]
        && req.proof.thumbprint == install.thumbprint && req.proof.bodySha256 == env.sha256(req.rawBody)
    {
      NamesIs(env, events, n, req, install);
    }
    if req.proof.installId in installs {
      var install := installs[req.proof.installId];
      NamesIs(env, events, n, req, install);
    }
  }

  /** Every verdict of a run, from the events before it alone: the bearer first, then the header, then
      the last registration of its installation and the body, then the nonce, the signature last. */
  lemma EachVerdictIs(env: Env, events: seq<Event>, n: nat)
    requires n < |events| && events[n].Protected?
    ensures var req := events[n].req;
      Judge(env, Reached(env, events[..n]), req) ==
        if req.authorization != env.bearer then BadToken
        else if req.proof.NoProof? then Missing
        else if req.proof.Garbled? || !Known(env, events, n, req) then Invalid
        else if UsedBefore(env, events, n, NonceKey(req)) then Replay
        else if Signed(env, events, n, req) then Success else Invalid
  {
    var req := events[n].req;
    if req.proof.Proof? {
      KnownIs(env, events, n, req);
      ReachedNonces(env, events[..n], NonceKey(req));
      UsedInPrefix(env, events, n, NonceKey(req));
    }
  }

  /** The last registration of the header's installation was at `m`; it gave the header's thumbprint
      and a key under which the signature verifies. */
  ghost predicate LastSigned(env: Env, events: seq<Event>, n: nat, req: Request, m: nat, install: Install)
    requires n <= |events| && req.proof.Proof?
  {
    && RegisteredAt(events[..n], m, req.proof.installId, install) && install.thumbprint == req.proof.thumbprint
    && env.verify(install.publicKey, req.proof.signature, SignedMessage(req.path, req.proof))
  }

  /** A request is accepted exactly when it carries the bearer and a proof, the last registration of
      its installation carries its thumbprint and a key under which its signature verifies, its body
      is the one hashed, and no request accepted before used its installation and nonce. */
  lemma AcceptedExactly(env: Env, events: seq<Event>, n: nat)
    requires n < |events| && events[n].Protected?
    ensures var req := events[n].req;
      AcceptedAt(env, events, n) <==>
        && req.authorization == env.bearer && req.proof.Proof?
        && (exists m, install :: LastSigned(env, events, n, req, m, install))
        && req.proof.bodySha256 == env.sha256(req.rawBody)
        && !UsedBefore(env, events, n, NonceKey(req))
  {
    var req := events[n].req;
    EachVerdictIs(env, events, n);
    if req.proof.Proof? {
      if Signed(env, events, n, req) {
        var install :| Names(env, events, n, req, install)
          && env.verify(install.publicKey, req.proof.signature, SignedMessage(req.path, req.proof));
        var m :| RegisteredAt(events[..n], m, req.proof.installId, install);
        assert LastSigned(env, events, n, req, m, install);
      }
      if exists m, install :: LastSigned(env, events, n, req, m, install) {
        var m, install :| LastSigned(env, events, n, req, m, install);
        assert req.proof.bodySha256 == env.sha256(req.rawBody) ==> Names(env, events, n, req, install);
      }
    }
  }
}
