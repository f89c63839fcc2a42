/** Sealing a desired-state document (digest, then signature) and the checks a
    receiver makes. Hash, signing and key lookup are parameters. */
module SealedState {
  import opened Texts
  import opened JsonValues
  import opened JsonDict
  import opened CanonicalForm
  import Base64Url

  const DIGEST_KEY: Text := T("desired_state_digest")
  const SIGNATURE_KEY: Text := T("desired_state_signature")
  const ALGORITHM: Text := T("algorithm")
  const KEY_ID: Text := T("key_id")
  const ROLE: Text := T("role")
  const SCHEMA_VERSION: Text := T("schema_version")
  const SIGNATURE: Text := T("signature")
  const SIGNED_SHA: Text := T("signed_payload_sha256")
  const FIXTURE_KEY: Text := T("fleet-fixture-key-v1")
  const SIGNING_ROLE: Text := T("fleet-desired-state-signing")
  const ED25519: Text := T("ed25519")

  /** `hexDigest` is SHA-256, `sign` the private key, `verify` the trusted public keys by id. */
  datatype Crypto = Crypto(
    hexDigest: Bytes -> Text,
    sign: Bytes -> Bytes,
    trusted: set<Text>,
    verify: (Text, Bytes, Bytes) -> bool)

  ghost predicate InjectiveHash(c: Crypto) {
    forall a, b :: c.hexDigest(a) == c.hexDigest(b) ==> a == b
  }

  /** The fixture key is trusted and its signatures verify. */
  ghost predicate KeysMatch(c: Crypto) {
    FIXTURE_KEY in c.trusted && forall b :: c.verify(FIXTURE_KEY, c.sign(b), b)
  }

  function Digest(c: Crypto, b: Bytes): Text {
    T("sha256:") + c.hexDigest(b)
  }

  function DigestBody(ms: seq<Member>): Option<Bytes> {
    Canonical(Obj(Without(ms, {DIGEST_KEY, SIGNATURE_KEY})))
  }

  function SignedBody(ms: seq<Member>): Option<Bytes> {
    Canonical(Obj(Without(ms, {SIGNATURE_KEY})))
  }

  function SignatureObject(c: Crypto, body: Bytes): seq<Member> {
    [ Member(ALGORITHM, Str(ED25519)),
      Member(KEY_ID, Str(FIXTURE_KEY)),
      Member(ROLE, Str(SIGNING_ROLE)),
      Member(SCHEMA_VERSION, Int(1)),
      Member(SIGNATURE, Str(Base64Url.Encode(c.sign(body)))),
      Member(SIGNED_SHA, Str(Digest(c, body))) ]
  }

  function Dated(c: Crypto, ms: seq<Member>): Option<seq<Member>> {
    var body :- DigestBody(ms);
    Some(Put(ms, DIGEST_KEY, Str(Digest(c, body))))
  }

  /** The generator signs the dated document as it stands. */
  function Seal(c: Crypto, ms: seq<Member>): Option<seq<Member>> {
    var dated :- Dated(c, ms);
    var body :- Canonical(Obj(dated));
    Some(Put(dated, SIGNATURE_KEY, Obj(SignatureObject(c, body))))
  }

  // ---- the receiver ----

  datatype Verdict =
    | Accepted
    | DigestMismatch
    | SignatureRequired
    | InvalidSignatureFields
    | InvalidSchemaVersion
    | InvalidAlgorithm
    | InvalidRole
    | InvalidKeyId
    | UntrustedKey
    | PayloadMismatch
    | SignatureInvalid
    | EncodingError

  function KeySet(ms: seq<Member>): set<Text> {
    set m | m in ms :: m.key
  }

  /** Python's `== 1`, which `True` also satisfies. */
  predicate EqualsOne(v: Option<Json>) { v == Some(Int(1)) || v == Some(Bool(true)) }

  function VerifySignature(c: Crypto, signature: seq<Member>, body: Bytes): Verdict {
    if KeySet(signature) != {ALGORITHM, KEY_ID, ROLE, SCHEMA_VERSION, SIGNATURE, SIGNED_SHA} then InvalidSignatureFields
    else if !EqualsOne(Lookup(signature, SCHEMA_VERSION)) then InvalidSchemaVersion
    else if Lookup(signature, ALGORITHM) != Some(Str(ED25519)) then InvalidAlgorithm
    else if Lookup(signature, ROLE) != Some(Str(SIGNING_ROLE)) then InvalidRole
    else match Lookup(signature, KEY_ID)
      case Some(Str(keyId)) =>
        if keyId !in c.trusted then UntrustedKey
        else if Lookup(signature, SIGNED_SHA) != Some(Str(Digest(c, body))) then PayloadMismatch
        else (match Lookup(signature, SIGNATURE)
          case Some(Str(text)) =>
            var raw := Base64Url.Decode(text);
            if raw.Some? && c.verify(keyId, raw.value, body) then Accepted else SignatureInvalid
          case _ => SignatureInvalid)
      case _ => InvalidKeyId
  }

  function Verify(c: Crypto, ms: seq<Member>): Verdict {
    match DigestBody(ms)
    case None => EncodingError
    case Some(digestBody) =>
      if Lookup(ms, DIGEST_KEY) != Some(Str(Digest(c, digestBody))) then DigestMismatch
      else match Lookup(ms, SIGNATURE_KEY)
        case Some(Obj(signature)) =>
          (match SignedBody(ms)
            case None => EncodingError
            case Some(body) => VerifySignature(c, signature, body))
        case _ => SignatureRequired
  }

  // ---- sealed documents verify ----

  lemma KeysDiffer()
    ensures DIGEST_KEY != SIGNATURE_KEY
    ensures ALGORITHM != SIGNATURE
  {
    LiteralsDiffer("algorithm", "signature");
  }

  lemma SignatureKeys(c: Crypto, body: Bytes)
    ensures KeySet(SignatureObject(c, body)) == {ALGORITHM, KEY_ID, ROLE, SCHEMA_VERSION, SIGNATURE, SIGNED_SHA}
  {
    var s := SignatureObject(c, body);
    assert s[0].key == ALGORITHM && s[1].key == KEY_ID && s[2].key == ROLE;
    assert s[3].key == SCHEMA_VERSION && s[4].key == SIGNATURE && s[5].key == SIGNED_SHA;
  }

  lemma SignatureObjectVerifies(c: Crypto, body: Bytes, signed: Bytes)
    requires InjectiveHash(c) && KeysMatch(c)
    ensures VerifySignature(c, SignatureObject(c, signed), body) ==
      if body == signed then Accepted else PayloadMismatch
  {
    SignatureKeys(c, signed);
    SignatureLookups(c, signed);
    DigestInjective(c, body, signed);
    Base64Url.DecodeUndoesEncode(c.sign(signed));
  }

  lemma SkipLookup(ms: seq<Member>, n: nat, key: Text)
    requires n <= |ms| && forall i :: 0 <= i < n ==> ms[i].key != key
    ensures Lookup(ms, key) == Lookup(ms[n..], key)
  {
    if n > 0 {
      SkipLookup(ms[1..], n - 1, key);
      assert ms[1..][n - 1..] == ms[n..];
    }
  }

  lemma SignatureLookups(c: Crypto, body: Bytes)
    ensures var s := SignatureObject(c, body);
      && Lookup(s, ALGORITHM) == Some(Str(ED25519))
      && Lookup(s, KEY_ID) == Some(Str(FIXTURE_KEY))
      && Lookup(s, ROLE) == Some(Str(SIGNING_ROLE))
      && Lookup(s, SCHEMA_VERSION) == Some(Int(1))
      && Lookup(s, SIGNATURE) == Some(Str(Base64Url.Encode(c.sign(body))))
      && Lookup(s, SIGNED_SHA) == Some(Str(Digest(c, body)))
  {
    KeysDiffer();
    var s := SignatureObject(c, body);
    SkipLookup(s, 1, KEY_ID);
    SkipLookup(s, 2, ROLE);
    SkipLookup(s, 3, SCHEMA_VERSION);
    SkipLookup(s, 4, SIGNATURE);
    SkipLookup(s, 5, SIGNED_SHA);
  }

  lemma DigestInjective(c: Crypto, a: Bytes, b: Bytes)
    requires InjectiveHash(c)
    ensures Digest(c, a) == Digest(c, b) <==> a == b
  {
    var p := T("sha256:");
    if Digest(c, a) == Digest(c, b) {
      assert (p + c.hexDigest(a))[|p|..] == c.hexDigest(a);
      assert (p + c.hexDigest(b))[|p|..] == c.hexDigest(b);
    }
  }

  lemma KeyLengths()
    ensures |ALGORITHM| == 9 && |KEY_ID| == 6 && |ROLE| == 4 && |SCHEMA_VERSION| == 14
    ensures |SIGNATURE| == 9 && |SIGNED_SHA| == 21
  {
  }

  lemma DistinctByLength(s: seq<Member>)
    requires |s| == 6 && |s[0].key| == |s[4].key| == 9 && s[0].key != s[4].key
    requires |s[1].key| == 6 && |s[2].key| == 4 && |s[3].key| == 14 && |s[5].key| == 21
    ensures DistinctKeys(s)
  {
  }

  lemma SignatureObjectWellFormed(c: Crypto, body: Bytes)
    ensures WellFormed(Obj(SignatureObject(c, body)))
  {
    KeysDiffer();
    KeyLengths();
    DistinctByLength(SignatureObject(c, body));
  }

  /** The layers: the stored digest is the digest of everything but digest and signature,
      and the bytes signed are the canonical form of everything but the signature. */
  lemma SealLayers(c: Crypto, ms: seq<Member>)
    requires Seal(c, ms).Some?
    ensures var sealed := Seal(c, ms).value;
      && DigestBody(sealed) == DigestBody(ms)
      && Lookup(sealed, DIGEST_KEY) == Some(Str(Digest(c, DigestBody(sealed).value)))
      && Without(sealed, {SIGNATURE_KEY}) == Without(Dated(c, ms).value, {SIGNATURE_KEY})
      && Lookup(sealed, SIGNATURE_KEY)
           == Some(Obj(SignatureObject(c, Canonical(Obj(Dated(c, ms).value)).value)))
  {
    KeysDiffer();
    var dated := Dated(c, ms).value;
    var digest := Str(Digest(c, DigestBody(ms).value));
    var signature := Obj(SignatureObject(c, Canonical(Obj(dated)).value));
    WithoutPut(ms, DIGEST_KEY, digest, {DIGEST_KEY, SIGNATURE_KEY});
    WithoutPut(dated, SIGNATURE_KEY, signature, {DIGEST_KEY, SIGNATURE_KEY});
    WithoutPut(dated, SIGNATURE_KEY, signature, {SIGNATURE_KEY});
    LookupPut(ms, DIGEST_KEY, digest, DIGEST_KEY);
    LookupPut(dated, SIGNATURE_KEY, signature, DIGEST_KEY);
    LookupPut(dated, SIGNATURE_KEY, signature, SIGNATURE_KEY);
  }

  /** Sealing produces a document every receiver accepts exactly when the document carried
      no signature before: the generator signs what is there, the receiver drops the field. */
  lemma SealVerifies(c: Crypto, ms: seq<Member>)
    requires WellFormedMembers(ms) && Seal(c, ms).Some? && InjectiveHash(c) && KeysMatch(c)
    ensures Verify(c, Seal(c, ms).value) == Accepted <==> Lookup(ms, SIGNATURE_KEY).None?
  {
    KeysDiffer();
    SealLayers(c, ms);
    var dated := Dated(c, ms).value;
    var digest := Str(Digest(c, DigestBody(ms).value));
    PutMeans(ms, DIGEST_KEY, digest);
    LookupPut(ms, DIGEST_KEY, digest, SIGNATURE_KEY);
    var signed := Canonical(Obj(dated)).value;
    var sealed := Seal(c, ms).value;
    if Lookup(ms, SIGNATURE_KEY).None? {
      WithoutAbsent(dated, {SIGNATURE_KEY});
      SignatureObjectVerifies(c, signed, signed);
    } else if SignedBody(sealed).Some? {
      LookupMeans(dated, SIGNATURE_KEY);
      WithoutMeans(dated, {SIGNATURE_KEY});
      assert SIGNATURE_KEY !in AsMap(dated) - {SIGNATURE_KEY};
      CanonicalDecidesMeaning(Obj(dated), Obj(Without(dated, {SIGNATURE_KEY})));
      SignatureObjectVerifies(c, SignedBody(sealed).value, signed);
    }
  }

  /** Sealing the finished document again, its signature put aside, changes nothing. */
  lemma ResealIsStable(c: Crypto, ms: seq<Member>)
    requires Lookup(ms, SIGNATURE_KEY).None? && Seal(c, ms).Some?
    ensures Seal(c, Without(Seal(c, ms).value, {SIGNATURE_KEY})) == Seal(c, ms)
  {
    KeysDiffer();
    var dated := Dated(c, ms).value;
    var digest := Str(Digest(c, DigestBody(ms).value));
    SealLayers(c, ms);
    LookupPut(ms, DIGEST_KEY, digest, SIGNATURE_KEY);
    LookupPut(ms, DIGEST_KEY, digest, DIGEST_KEY);
    WithoutAbsent(dated, {SIGNATURE_KEY});
    WithoutPut(ms, DIGEST_KEY, digest, {DIGEST_KEY, SIGNATURE_KEY});
    assert DigestBody(dated) == DigestBody(ms);
    PutSame(dated, DIGEST_KEY, digest);
  }
}
