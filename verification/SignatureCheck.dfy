/** What an accepted signature says: who signed which document. */
module SignatureCheck {
  import opened Texts
  import opened JsonValues
  import opened JsonDict
  import opened CanonicalForm
  import opened SealedState
  import DesiredState
  import Base64Url

  const FIELDS: set<Text> := {ALGORITHM, KEY_ID, ROLE, SCHEMA_VERSION, SIGNATURE, SIGNED_SHA}

  /** What a signature object means that names this key and holds this text. */
  function SignatureMap(c: Crypto, keyId: Text, text: Text, body: Bytes, version: Value): map<Text, Value> {
    map[ALGORITHM := VStr(ED25519), KEY_ID := VStr(keyId), ROLE := VStr(SIGNING_ROLE), SCHEMA_VERSION := version,
        SIGNATURE := VStr(text), SIGNED_SHA := VStr(Digest(c, body))]
  }

  /** The text is a signature over these bytes by a trusted key of this name. */
  predicate Attests(c: Crypto, keyId: Text, text: Text, body: Bytes) {
    && keyId in c.trusted && Base64Url.Decode(text).Some?
    && c.verify(keyId, Base64Url.Decode(text).value, body)
  }

  // ---- acceptance in terms of what the document means ----

  lemma FieldsDiffer()
    ensures |FIELDS| == 6 && DIGEST_KEY != SIGNATURE_KEY
    ensures ALGORITHM !in {KEY_ID, ROLE, SCHEMA_VERSION, SIGNATURE, SIGNED_SHA}
    ensures KEY_ID !in {ROLE, SCHEMA_VERSION, SIGNATURE, SIGNED_SHA} && ROLE !in {SCHEMA_VERSION, SIGNATURE, SIGNED_SHA}
    ensures SCHEMA_VERSION !in {SIGNATURE, SIGNED_SHA} && SIGNATURE != SIGNED_SHA
  {
    KeysDiffer();
    KeyLengths();
  }

  lemma SignatureMapIs(c: Crypto, keyId: Text, text: Text, body: Bytes, version: Value, m: map<Text, Value>)
    ensures m == SignatureMap(c, keyId, text, body, version) <==>
      && m.Keys == FIELDS && m[ALGORITHM] == VStr(ED25519) && m[KEY_ID] == VStr(keyId) && m[ROLE] == VStr(SIGNING_ROLE)
      && m[SCHEMA_VERSION] == version && m[SIGNATURE] == VStr(text) && m[SIGNED_SHA] == VStr(Digest(c, body))
  {
    FieldsDiffer();
    var n := SignatureMap(c, keyId, text, body, version);
    assert n.Keys == FIELDS;
    if m.Keys == FIELDS && (forall k :: k in FIELDS ==> m[k] == n[k]) {
      assert m == n;
    }
  }

  lemma KeySetMeans(ms: seq<Member>)
    ensures AsMap(ms).Keys == KeySet(ms)
  {
    AsMapKeys(ms);
  }

  lemma TextMeans(v: Json, t: Text)
    ensures Meaning(v) == VStr(t) <==> v == Str(t)
  {
  }

  lemma VersionMeans(v: Json)
    ensures Meaning(v) in {VInt(1), VBool(true)} <==> EqualsOne(Some(v))
  {
  }

  lemma FieldMeans(ms: seq<Member>, key: Text, t: Text)
    requires WellFormedMembers(ms)
    ensures Lookup(ms, key) == Some(Str(t)) <==> key in AsMap(ms) && AsMap(ms)[key] == VStr(t)
  {
    LookupMeans(ms, key);
    if Lookup(ms, key).Some? {
      TextMeans(Lookup(ms, key).value, t);
    }
  }

  function TextAt(s: seq<Member>, key: Text): Text {
    match Lookup(s, key)
    case Some(Str(t)) => t
    case _ => []
  }

  /** The check as a decision on the fields' values alone. */
  function Decide(c: Crypto, whole: bool, version: Option<Json>, algorithm: Option<Json>, role: Option<Json>,
                  keyId: Option<Json>, sha: Option<Json>, text: Option<Json>, body: Bytes): Verdict {
    if !whole then InvalidSignatureFields
    else if !EqualsOne(version) then InvalidSchemaVersion
    else if algorithm != Some(Str(ED25519)) then InvalidAlgorithm
    else if role != Some(Str(SIGNING_ROLE)) then InvalidRole
    else if keyId.None? || !keyId.value.Str? then InvalidKeyId
    else if keyId.value.s !in c.trusted then UntrustedKey
    else if sha != Some(Str(Digest(c, body))) then PayloadMismatch
    else if text.Some? && text.value.Str? && Attests(c, keyId.value.s, text.value.s, body) then Accepted
    else SignatureInvalid
  }

  lemma Decides(c: Crypto, s: seq<Member>, body: Bytes)
    ensures VerifySignature(c, s, body)
         == Decide(c, KeySet(s) == FIELDS, Lookup(s, SCHEMA_VERSION), Lookup(s, ALGORITHM), Lookup(s, ROLE),
                   Lookup(s, KEY_ID), Lookup(s, SIGNED_SHA), Lookup(s, SIGNATURE), body)
  {
  }

  lemma AcceptedFields(c: Crypto, s: seq<Member>, body: Bytes)
    requires VerifySignature(c, s, body) == Accepted
    ensures KeySet(s) == FIELDS && EqualsOne(Lookup(s, SCHEMA_VERSION))
    ensures Lookup(s, ALGORITHM) == Some(Str(ED25519)) && Lookup(s, ROLE) == Some(Str(SIGNING_ROLE))
    ensures Lookup(s, SIGNED_SHA) == Some(Str(Digest(c, body)))
    ensures Lookup(s, KEY_ID) == Some(Str(TextAt(s, KEY_ID))) && Lookup(s, SIGNATURE) == Some(Str(TextAt(s, SIGNATURE)))
    ensures Attests(c, TextAt(s, KEY_ID), TextAt(s, SIGNATURE), body)
  {
  }

  /** The signature object is this map, whose text its key attests. */
  ghost predicate Signs(c: Crypto, m: map<Text, Value>, keyId: Text, text: Text, body: Bytes) {
    && (m == SignatureMap(c, keyId, text, body, VInt(1)) || m == SignatureMap(c, keyId, text, body, VBool(true)))
    && Attests(c, keyId, text, body)
  }

  lemma AcceptedSigns(c: Crypto, s: seq<Member>, body: Bytes) returns (keyId: Text, text: Text)
    requires WellFormedMembers(s) && VerifySignature(c, s, body) == Accepted
    ensures Signs(c, AsMap(s), keyId, text, body)
  {
    AcceptedFields(c, s, body);
    keyId, text := TextAt(s, KEY_ID), TextAt(s, SIGNATURE);
    KeySetMeans(s);
    FieldMeans(s, ALGORITHM, ED25519);
    FieldMeans(s, KEY_ID, keyId);
    FieldMeans(s, ROLE, SIGNING_ROLE);
    FieldMeans(s, SIGNATURE, text);
    FieldMeans(s, SIGNED_SHA, Digest(c, body));
    LookupMeans(s, SCHEMA_VERSION);
    VersionMeans(Lookup(s, SCHEMA_VERSION).value);
    SignatureMapIs(c, keyId, text, body, AsMap(s)[SCHEMA_VERSION], AsMap(s));
  }

  lemma SigningFields(c: Crypto, s: seq<Member>, keyId: Text, text: Text, body: Bytes)
    requires WellFormedMembers(s) && Signs(c, AsMap(s), keyId, text, body)
    ensures KeySet(s) == FIELDS && EqualsOne(Lookup(s, SCHEMA_VERSION))
    ensures Lookup(s, ALGORITHM) == Some(Str(ED25519)) && Lookup(s, ROLE) == Some(Str(SIGNING_ROLE))
    ensures Lookup(s, KEY_ID) == Some(Str(keyId)) && Lookup(s, SIGNATURE) == Some(Str(text))
    ensures Lookup(s, SIGNED_SHA) == Some(Str(Digest(c, body)))
  {
    var version := if AsMap(s) == SignatureMap(c, keyId, text, body, VInt(1)) then VInt(1) else VBool(true);
    SignatureMapIs(c, keyId, text, body, version, AsMap(s));
    KeySetMeans(s);
    FieldMeans(s, ALGORITHM, ED25519);
    FieldMeans(s, KEY_ID, keyId);
    FieldMeans(s, ROLE, SIGNING_ROLE);
    FieldMeans(s, SIGNATURE, text);
    FieldMeans(s, SIGNED_SHA, Digest(c, body));
    LookupMeans(s, SCHEMA_VERSION);
    VersionMeans(Lookup(s, SCHEMA_VERSION).value);
  }

  lemma SigningIsAccepted(c: Crypto, s: seq<Member>, keyId: Text, text: Text, body: Bytes)
    requires WellFormedMembers(s) && Signs(c, AsMap(s), keyId, text, body)
    ensures VerifySignature(c, s, body) == Accepted
  {
    SigningFields(c, s, keyId, text, body);
    Decides(c, s, body);
  }

  /** The document's digest field is the digest of everything but digest and signature. */
  ghost predicate DigestFits(c: Crypto, ms: seq<Member>) {
    && DigestBody(ms).Some? && DIGEST_KEY in AsMap(ms)
    && AsMap(ms)[DIGEST_KEY] == VStr(Digest(c, DigestBody(ms).value))
  }

  /** Its signature field is such an object over everything but itself. */
  ghost predicate SignedBy(c: Crypto, ms: seq<Member>, keyId: Text, text: Text) {
    && SignedBody(ms).Some? && SIGNATURE_KEY in AsMap(ms) && AsMap(ms)[SIGNATURE_KEY].VObj?
    && Signs(c, AsMap(ms)[SIGNATURE_KEY].members, keyId, text, SignedBody(ms).value)
  }

  /** Acceptance in terms of the map a document means: its digest fits, and its signature field has
      exactly the six fields, a trusted key's name among them and a text that decodes to bytes which
      that key's verification takes for the canonical bytes of all the rest. */
  lemma AcceptedExactly(c: Crypto, ms: seq<Member>)
    requires WellFormedMembers(ms)
    ensures Verify(c, ms) == Accepted <==> DigestFits(c, ms) && exists keyId, text :: SignedBy(c, ms, keyId, text)
  {
    LookupMeans(ms, SIGNATURE_KEY);
    if DigestBody(ms).Some? {
      FieldMeans(ms, DIGEST_KEY, Digest(c, DigestBody(ms).value));
    }
    if Verify(c, ms) == Accepted {
      var signature := Lookup(ms, SIGNATURE_KEY).value.members;
      var keyId, text := AcceptedSigns(c, signature, SignedBody(ms).value);
      assert SignedBy(c, ms, keyId, text);
    }
    if DigestFits(c, ms) && exists keyId, text :: SignedBy(c, ms, keyId, text) {
      var keyId, text :| SignedBy(c, ms, keyId, text);
      SigningIsAccepted(c, Lookup(ms, SIGNATURE_KEY).value.members, keyId, text, SignedBody(ms).value);
    }
  }

  // ---- when signatures cannot be forged ----

  /** What the holders of trusted keys have signed: a key and a document. */
  type Ledger = iset<(Text, seq<Member>)>

  /** A trusted key verifies a signature only over the body of a document its holder signed. */
  ghost predicate Unforgeable(c: Crypto, ledger: Ledger) {
    && (forall k, doc :: (k, doc) in ledger ==> WellFormedMembers(doc) && SignedBody(doc).Some?)
    && (forall k, raw, b :: k in c.trusted && c.verify(k, raw, b) ==>
          exists doc :: (k, doc) in ledger && SignedBody(doc) == Some(b))
  }

  /** An accepted document is one that the holder of the trusted key it names has signed: every field
      but the signature, at every depth, means what it meant in a document signed with that key. */
  lemma AcceptedWasSigned(c: Crypto, ledger: Ledger, ms: seq<Member>)
    requires WellFormedMembers(ms) && Unforgeable(c, ledger) && Verify(c, ms) == Accepted
    ensures exists keyId, text, doc ::
      && keyId in c.trusted && (keyId, doc) in ledger && SignedBy(c, ms, keyId, text)
      && AsMap(doc) - {SIGNATURE_KEY} == AsMap(ms) - {SIGNATURE_KEY}
  {
    AcceptedExactly(c, ms);
    var keyId, text :| SignedBy(c, ms, keyId, text);
    var body := SignedBody(ms).value;
    assert c.verify(keyId, Base64Url.Decode(text).value, body);
    var doc :| (keyId, doc) in ledger && SignedBody(doc) == Some(body);
    DesiredState.WithoutDecides(ms, doc, {SIGNATURE_KEY});
  }

  // ---- one field of the signature replaced ----

  /** The document with one field of its signature object written. */
  function Resigned(ms: seq<Member>, key: Text, value: Json): seq<Member>
    requires Lookup(ms, SIGNATURE_KEY).Some? && Lookup(ms, SIGNATURE_KEY).value.Obj?
  {
    Put(ms, SIGNATURE_KEY, Obj(Put(Lookup(ms, SIGNATURE_KEY).value.members, key, value)))
  }

  /** What the check finds of a signature in which this one field may be wrong. */
  function Finding(c: Crypto, s: seq<Member>, body: Bytes, key: Text, value: Json): Verdict {
    if key == SCHEMA_VERSION then if EqualsOne(Some(value)) then Accepted else InvalidSchemaVersion
    else if key == ALGORITHM then if value == Str(ED25519) then Accepted else InvalidAlgorithm
    else if key == ROLE then if value == Str(SIGNING_ROLE) then Accepted else InvalidRole
    else if key == KEY_ID then
      if !value.Str? then InvalidKeyId
      else if value.s !in c.trusted then UntrustedKey
      else if Attests(c, value.s, TextAt(s, SIGNATURE), body) then Accepted else SignatureInvalid
    else if key == SIGNED_SHA then if value == Str(Digest(c, body)) then Accepted else PayloadMismatch
    else if key == SIGNATURE then
      if value.Str? && Attests(c, TextAt(s, KEY_ID), value.s, body) then Accepted else SignatureInvalid
    else InvalidSignatureFields
  }

  lemma {:induction false} PutKeySet(ms: seq<Member>, key: Text, value: Json)
    ensures KeySet(Put(ms, key, value)) == KeySet(ms) + {key}
  {
    if ms != [] {
      PutKeySet(ms[1..], key, value);
      ConsKeySet(ms[0], ms[1..]);
      assert ms == [ms[0]] + ms[1..];
      if ms[0].key == key {
        ConsKeySet(Member(key, value), ms[1..]);
      } else {
        ConsKeySet(ms[0], Put(ms[1..], key, value));
      }
    } else {
      ConsKeySet(Member(key, value), []);
      assert [Member(key, value)] + [] == [Member(key, value)];
    }
  }

  lemma ConsKeySet(m: Member, ms: seq<Member>)
    ensures KeySet([m] + ms) == {m.key} + KeySet(ms)
  {
    assert forall x :: x in [m] + ms <==> x == m || x in ms;
  }

  lemma OneFieldFound(c: Crypto, s: seq<Member>, body: Bytes, key: Text, value: Json)
    requires VerifySignature(c, s, body) == Accepted
    ensures VerifySignature(c, Put(s, key, value), body) == Finding(c, s, body, key, value)
  {
    if key !in FIELDS {
      ExtraFieldFound(c, s, body, key, value);
    } else if key in {SCHEMA_VERSION, ALGORITHM, ROLE} {
      EarlyFieldFound(c, s, body, key, value);
    } else if key == KEY_ID {
      KeyFound(c, s, body, value);
    } else {
      LateFieldFound(c, s, body, key, value);
    }
  }

  lemma ExtraFieldFound(c: Crypto, s: seq<Member>, body: Bytes, key: Text, value: Json)
    requires key !in FIELDS
    ensures VerifySignature(c, Put(s, key, value), body) == InvalidSignatureFields == Finding(c, s, body, key, value)
  {
    PutKeySet(s, key, value);
    assert key in KeySet(Put(s, key, value));
  }

  lemma EarlyFieldFound(c: Crypto, s: seq<Member>, body: Bytes, key: Text, value: Json)
    requires VerifySignature(c, s, body) == Accepted && key in {SCHEMA_VERSION, ALGORITHM, ROLE}
    ensures VerifySignature(c, Put(s, key, value), body) == Finding(c, s, body, key, value)
  {
    FieldsDiffer();
    Decides(c, s, body);
    Decides(c, Put(s, key, value), body);
    FieldsAfterOne(s, key, value);
  }

  lemma KeyFound(c: Crypto, s: seq<Member>, body: Bytes, value: Json)
    requires VerifySignature(c, s, body) == Accepted
    ensures VerifySignature(c, Put(s, KEY_ID, value), body) == Finding(c, s, body, KEY_ID, value)
  {
    FieldsDiffer();
    Decides(c, s, body);
    Decides(c, Put(s, KEY_ID, value), body);
    FieldsAfterOne(s, KEY_ID, value);
  }

  lemma LateFieldFound(c: Crypto, s: seq<Member>, body: Bytes, key: Text, value: Json)
    requires VerifySignature(c, s, body) == Accepted && key in {SIGNED_SHA, SIGNATURE}
    ensures VerifySignature(c, Put(s, key, value), body) == Finding(c, s, body, key, value)
  {
    FieldsDiffer();
    Decides(c, s, body);
    Decides(c, Put(s, key, value), body);
    FieldsAfterOne(s, key, value);
  }

  lemma FieldsAfterOne(s: seq<Member>, key: Text, value: Json)
    ensures KeySet(Put(s, key, value)) == KeySet(s) + {key}
    ensures KeySet(s) == FIELDS && key in FIELDS ==> KeySet(Put(s, key, value)) == FIELDS
    ensures forall k :: Lookup(Put(s, key, value), k) == if k == key then Some(value) else Lookup(s, k)
  {
    PutKeySet(s, key, value);
    forall k ensures Lookup(Put(s, key, value), k) == if k == key then Some(value) else Lookup(s, k) {
      LookupPut(s, key, value, k);
    }
  }

  lemma ResignedKeepsBodies(ms: seq<Member>, signature: Json)
    ensures var now := Put(ms, SIGNATURE_KEY, signature);
      && DigestBody(now) == DigestBody(ms) && SignedBody(now) == SignedBody(ms)
      && Lookup(now, DIGEST_KEY) == Lookup(ms, DIGEST_KEY) && Lookup(now, SIGNATURE_KEY) == Some(signature)
  {
    KeysDiffer();
    WithoutPut(ms, SIGNATURE_KEY, signature, {DIGEST_KEY, SIGNATURE_KEY});
    WithoutPut(ms, SIGNATURE_KEY, signature, {SIGNATURE_KEY});
    LookupPut(ms, SIGNATURE_KEY, signature, DIGEST_KEY);
    LookupPut(ms, SIGNATURE_KEY, signature, SIGNATURE_KEY);
  }

  /** Writing one field of an accepted document's signature object: the verdict names that field, and
      is acceptance exactly when the new value serves as well. Another text is accepted exactly when it
      decodes to a signature that the named key verifies; another field is one too many. */
  lemma ReplacedFieldIsFound(c: Crypto, ms: seq<Member>, key: Text, value: Json)
    requires Verify(c, ms) == Accepted
    ensures Lookup(ms, SIGNATURE_KEY).Some? && Lookup(ms, SIGNATURE_KEY).value.Obj?
    ensures Verify(c, Resigned(ms, key, value))
         == Finding(c, Lookup(ms, SIGNATURE_KEY).value.members, SignedBody(ms).value, key, value)
  {
    var s := Lookup(ms, SIGNATURE_KEY).value.members;
    OneFieldFound(c, s, SignedBody(ms).value, key, value);
    ResignedKeepsBodies(ms, Obj(Put(s, key, value)));
  }

  /** Leaving out any of the six fields is noticed. */
  lemma MissingFieldIsFound(c: Crypto, ms: seq<Member>, key: Text)
    requires Verify(c, ms) == Accepted && key in FIELDS
    ensures Lookup(ms, SIGNATURE_KEY).Some? && Lookup(ms, SIGNATURE_KEY).value.Obj?
    ensures var s := Lookup(ms, SIGNATURE_KEY).value.members;
      Verify(c, Put(ms, SIGNATURE_KEY, Obj(Without(s, {key})))) == InvalidSignatureFields
  {
    var s := Lookup(ms, SIGNATURE_KEY).value.members;
    ResignedKeepsBodies(ms, Obj(Without(s, {key})));
    WithoutKeySet(s, key);
  }

  lemma {:induction false} WithoutKeySet(ms: seq<Member>, key: Text)
    ensures key !in KeySet(Without(ms, {key}))
  {
    if ms != [] {
      WithoutKeySet(ms[1..], key);
      if ms[0].key != key {
        ConsKeySet(ms[0], Without(ms[1..], {key}));
      }
    }
  }

  /** The order in which the fields are looked at. */
  function Turn(key: Text): nat {
    if key == SCHEMA_VERSION then 0
    else if key == ALGORITHM then 1
    else if key == ROLE then 2
    else if key == KEY_ID then 3
    else if key == SIGNED_SHA then 4
    else 5
  }

  /** Of two wrong fields the one looked at first is named; the signature itself comes last. */
  lemma FirstFaultIsNamed(c: Crypto, s: seq<Member>, body: Bytes, key: Text, value: Json, later: Text, other: Json)
    requires VerifySignature(c, s, body) == Accepted && key in FIELDS && later in FIELDS && Turn(key) < Turn(later)
    requires Finding(c, s, body, key, value) !in {Accepted, SignatureInvalid}
    ensures VerifySignature(c, Put(Put(s, later, other), key, value), body) == Finding(c, s, body, key, value)
  {
    if key in {SCHEMA_VERSION, ALGORITHM} {
      EarlyFaultIsNamed(c, s, body, key, value, later, other);
    } else if key == KEY_ID {
      FieldsDiffer();
      KeyFaultIsNamed(c, s, body, value, later, other);
    } else {
      LateFaultIsNamed(c, s, body, key, value, later, other);
    }
  }

  lemma EarlyFaultIsNamed(c: Crypto, s: seq<Member>, body: Bytes, key: Text, value: Json, later: Text, other: Json)
    requires VerifySignature(c, s, body) == Accepted && key in {SCHEMA_VERSION, ALGORITHM}
    requires later in FIELDS && Turn(key) < Turn(later) && Finding(c, s, body, key, value) != Accepted
    ensures VerifySignature(c, Put(Put(s, later, other), key, value), body) == Finding(c, s, body, key, value)
  {
    FieldsDiffer();
    Decides(c, s, body);
    Decides(c, Put(Put(s, later, other), key, value), body);
    FieldsAfterOne(s, later, other);
    FieldsAfterOne(Put(s, later, other), key, value);
  }

  lemma LateFaultIsNamed(c: Crypto, s: seq<Member>, body: Bytes, key: Text, value: Json, later: Text, other: Json)
    requires VerifySignature(c, s, body) == Accepted && key in {ROLE, SIGNED_SHA}
    requires later in FIELDS && Turn(key) < Turn(later)
    requires Finding(c, s, body, key, value) !in {Accepted, SignatureInvalid}
    ensures VerifySignature(c, Put(Put(s, later, other), key, value), body) == Finding(c, s, body, key, value)
  {
    FieldsDiffer();
    Decides(c, s, body);
    Decides(c, Put(Put(s, later, other), key, value), body);
    FieldsAfterOne(s, later, other);
    FieldsAfterOne(Put(s, later, other), key, value);
  }

  lemma KeyFaultIsNamed(c: Crypto, s: seq<Member>, body: Bytes, value: Json, later: Text, other: Json)
    requires VerifySignature(c, s, body) == Accepted && later in {SIGNED_SHA, SIGNATURE}
    requires Finding(c, s, body, KEY_ID, value) !in {Accepted, SignatureInvalid}
    ensures VerifySignature(c, Put(Put(s, later, other), KEY_ID, value), body) == Finding(c, s, body, KEY_ID, value)
  {
    FieldsDiffer();
    Decides(c, s, body);
    Decides(c, Put(Put(s, later, other), KEY_ID, value), body);
    FieldsAfterOne(s, later, other);
    FieldsAfterOne(Put(s, later, other), KEY_ID, value);
  }
}
