/** The desired-state documents the generator writes: the sealed one and the
    three tampered copies of it. */
module FleetFixtures {
  import opened Texts
  import opened JsonValues
  import opened JsonDict
  import opened CanonicalForm
  import opened SealedState
  import opened DesiredState
  import Base64Url
  import Utf8

  function Repeat(c: CodePoint, n: nat): (t: Text)
    ensures |t| == n && forall i :: 0 <= i < n ==> t[i] == c
  {
    seq(n, _ => c)
  }

  /** `"sha256:" + letter * 64`. */
  function FakeSha(letter: CodePoint): Text { T("sha256:") + Repeat(letter, 64) }

  const LETTER_A: CodePoint := 0x61

  function Item(): seq<Member> {
    [ Member(ACTION, Str(T("activate"))),
      Member(ACTIVATION_NONCE, Str(T("act_fixture_01"))),
      Member(ARCHIVE_SHA, Str(FakeSha(LETTER_A + 1))),
      Member(ATTEMPT_ID, Str(T("attempt_fixture_01"))),
      Member(T("manifest_ref"), Str(T("registry:private-pack/pack_fixture/release_b"))),
      Member(T("pack_id"), Str(T("pack_fixture"))),
      Member(T("release_id"), Str(T("release_b"))),
      Member(T("required"), Bool(true)),
      Member(T("version"), Str(T("2.0.0"))) ]
  }

  function Unsealed(): seq<Member> {
    [ Member(T("agent_id"), Str(T("agent_fixture_01"))),
      Member(T("contract_id"), Str(T("unlimited-skills.fleet-wire"))),
      Member(T("contract_version"), Int(1)),
      Member(CONTROL_EPOCH, Int(7)),
      Member(DIGEST_KEY, Str([])),
      Member(REVISION, Str(T("ds_fixture_b"))),
      Member(T("expected_inventory_digest"), Str(FakeSha(LETTER_A + 3))),
      Member(T("expires_at"), Str(T("2099-12-31T00:00:00Z"))),
      Member(T("issued_at"), Str(T("2026-07-27T00:00:00Z"))),
      Member(ITEMS, Arr([Obj(Item())])),
      Member(T("message_type"), Str(T("desired-state"))),
      Member(T("previous_digest"), Str(FakeSha(LETTER_A))),
      Member(T("rollout_id"), Str(T("rollout_fixture_b"))) ]
  }

  /** The hash is written in characters UTF-8 can encode. */
  ghost predicate HexText(c: Crypto) {
    forall b :: Utf8.Encodable(c.hexDigest(b))
  }

  /** Bytes as the characters of the same numbers. */
  function Latin1(b: Bytes): (t: Text)
    ensures |t| == |b| && forall i :: 0 <= i < |b| ==> t[i] == b[i]
  {
    seq(|b|, i requires 0 <= i < |b| => b[i] as CodePoint)
  }

  lemma Latin1Injective(a: Bytes, b: Bytes)
    ensures Latin1(a) == Latin1(b) <==> a == b
  {
    if Latin1(a) == Latin1(b) {
      assert forall i :: 0 <= i < |a| ==> a[i] == Latin1(a)[i] == b[i];
    }
  }

  /** The assumptions on hash and keys can be met together. */
  lemma AssumptionsHoldTogether() returns (c: Crypto)
    ensures InjectiveHash(c) && KeysMatch(c) && HexText(c)
  {
    c := Crypto(Latin1, b => b, {FIXTURE_KEY}, (k, signature, b) => signature == b);
    forall a, b | c.hexDigest(a) == c.hexDigest(b) ensures a == b {
      Latin1Injective(a, b);
    }
  }

  // ---- the document as it stands before sealing ----

  lemma LiteralEncodable(s: string)
    ensures Utf8.Encodable(T(s))
  {
  }

  lemma FakeShaEncodable(letter: CodePoint)
    requires letter < 0x80
    ensures Utf8.Encodable(FakeSha(letter))
  {
    LiteralEncodable("sha256:");
  }

  predicate PlainMember(m: Member) {
    Utf8.Encodable(m.key) && TextsEncodable(m.value) && WellFormed(m.value)
  }

  lemma PlainMembers(ms: seq<Member>)
    requires DistinctKeys(ms) && forall i :: 0 <= i < |ms| ==> PlainMember(ms[i])
    ensures WellFormedMembers(ms) && TextsEncodable(Obj(ms))
  {
  }

  lemma PlainText(key: string, value: string)
    ensures PlainMember(Member(T(key), Str(T(value))))
  {
    LiteralEncodable(key);
    LiteralEncodable(value);
  }

  lemma PlainSha(key: string, letter: CodePoint)
    requires letter < 0x80
    ensures PlainMember(Member(T(key), Str(FakeSha(letter))))
  {
    LiteralEncodable(key);
    FakeShaEncodable(letter);
  }

  lemma ItemIsPlain()
    ensures WellFormedMembers(Item()) && TextsEncodable(Obj(Item()))
  {
    PlainText("action", "activate");
    PlainText("activation_nonce", "act_fixture_01");
    PlainSha("archive_sha256", LETTER_A + 1);
    PlainText("attempt_id", "attempt_fixture_01");
    PlainText("manifest_ref", "registry:private-pack/pack_fixture/release_b");
    PlainText("pack_id", "pack_fixture");
    PlainText("release_id", "release_b");
    LiteralEncodable("required");
    PlainText("version", "2.0.0");
    ItemKeys();
    PlainMembers(Item());
  }

  lemma ItemKeys()
    ensures DistinctKeys(Item())
  {
    LiteralsDiffer("attempt_id", "release_id");
    LiteralsDiffer("pack_id", "version");
  }

  lemma UnsealedKeys()
    ensures DistinctKeys(Unsealed())
  {
    LiteralsDiffer("expires_at", "rollout_id");
  }

  lemma UnsealedIsPlain()
    ensures WellFormedMembers(Unsealed()) && TextsEncodable(Obj(Unsealed()))
  {
    PlainText("agent_id", "agent_fixture_01");
    PlainText("contract_id", "unlimited-skills.fleet-wire");
    LiteralEncodable("contract_version");
    LiteralEncodable("control_epoch");
    LiteralEncodable("desired_state_digest");
    PlainText("desired_state_revision", "ds_fixture_b");
    PlainSha("expected_inventory_digest", LETTER_A + 3);
    PlainText("expires_at", "2099-12-31T00:00:00Z");
    PlainText("issued_at", "2026-07-27T00:00:00Z");
    LiteralEncodable("items");
    ItemIsPlain();
    PlainText("message_type", "desired-state");
    PlainSha("previous_digest", LETTER_A);
    PlainText("rollout_id", "rollout_fixture_b");
    UnsealedKeys();
    PlainMembers(Unsealed());
  }

  lemma AtItem(ms: seq<Member>, item: seq<Member>, field: Text)
    requires Lookup(ms, ITEMS) == Some(Arr([Obj(item)]))
    ensures At(Obj(ms), ItemPath(field)) == Lookup(item, field)
  {
    var path := ItemPath(field);
    assert path[1..] == [Index(0), Key(field)] && path[1..][1..] == [Key(field)] && [Key(field)][1..] == [];
    assert At(Obj(item), [Key(field)]) == Lookup(item, field);
  }

  lemma AtField(ms: seq<Member>, field: Text)
    ensures At(Obj(ms), [Key(field)]) == Lookup(ms, field)
  {
    assert [Key(field)][1..] == [];
  }

  lemma ItemLookups()
    ensures Lookup(Item(), ARCHIVE_SHA) == Some(Str(FakeSha(LETTER_A + 1)))
    ensures Lookup(Item(), ACTIVATION_NONCE) == Some(Str(T("act_fixture_01")))
    ensures Lookup(Item(), ATTEMPT_ID).Some? && Lookup(Item(), ACTION).Some?
  {
    ItemKeys();
    LookupDistinct(Item(), 0);
    LookupDistinct(Item(), 1);
    LookupDistinct(Item(), 2);
    LookupDistinct(Item(), 3);
  }

  lemma UnsealedLookups()
    ensures Lookup(Unsealed(), ITEMS) == Some(Arr([Obj(Item())]))
    ensures Lookup(Unsealed(), CONTROL_EPOCH) == Some(Int(7))
    ensures Lookup(Unsealed(), REVISION).Some? && Lookup(Unsealed(), SIGNATURE_KEY).None?
  {
    UnsealedKeys();
    LookupDistinct(Unsealed(), 3);
    LookupDistinct(Unsealed(), 5);
    LookupDistinct(Unsealed(), 9);
    UnsealedHasNoSignature();
  }

  lemma UnsealedHasNoSignature()
    ensures Lookup(Unsealed(), SIGNATURE_KEY).None?
  {
    assert |SIGNATURE_KEY| == 23;
    assert forall i :: 0 <= i < |Unsealed()| ==> |Unsealed()[i].key| != 23;
    Absent(Unsealed(), SIGNATURE_KEY);
  }

  // ---- sealing it ----

  lemma Base64Encodable(b: Bytes)
    ensures Utf8.Encodable(Base64Url.Encode(b))
  {
    Base64Url.EncodeShape(b);
  }

  lemma DigestEncodable(c: Crypto, b: Bytes)
    requires HexText(c)
    ensures Utf8.Encodable(Digest(c, b))
  {
    LiteralEncodable("sha256:");
    EncodableConcat(T("sha256:"), c.hexDigest(b));
  }

  lemma SignatureEncodable(c: Crypto, b: Bytes)
    requires HexText(c)
    ensures TextsEncodable(Obj(SignatureObject(c, b)))
  {
    PlainText("algorithm", "ed25519");
    PlainText("key_id", "fleet-fixture-key-v1");
    PlainText("role", "fleet-desired-state-signing");
    LiteralEncodable("schema_version");
    LiteralEncodable("signature");
    LiteralEncodable("signed_payload_sha256");
    Base64Encodable(c.sign(b));
    DigestEncodable(c, b);
  }

  lemma PutKeepsPlain(ms: seq<Member>, key: Text, value: Json)
    requires WellFormedMembers(ms) && TextsEncodable(Obj(ms))
    requires Utf8.Encodable(key) && WellFormed(value) && TextsEncodable(value)
    ensures WellFormedMembers(Put(ms, key, value)) && TextsEncodable(Obj(Put(ms, key, value)))
    ensures forall other :: other != key ==> Lookup(Put(ms, key, value), other) == Lookup(ms, other)
  {
    PutMeans(ms, key, value);
    PutEncodable(ms, key, value);
    forall other | other != key ensures Lookup(Put(ms, key, value), other) == Lookup(ms, other) {
      LookupPut(ms, key, value, other);
    }
  }

  /** Sealing an encodable document succeeds, keeps it one, and touches only the sealing fields. */
  lemma SealKeepsRest(c: Crypto, ms: seq<Member>)
    requires HexText(c) && WellFormedMembers(ms) && TextsEncodable(Obj(ms))
    ensures Seal(c, ms).Some?
    ensures WellFormedMembers(Seal(c, ms).value) && TextsEncodable(Obj(Seal(c, ms).value))
    ensures forall k :: k !in {DIGEST_KEY, SIGNATURE_KEY} ==> Lookup(Seal(c, ms).value, k) == Lookup(ms, k)
  {
    LiteralEncodable("desired_state_digest");
    LiteralEncodable("desired_state_signature");
    var keys := {DIGEST_KEY, SIGNATURE_KEY};
    WithoutEncodable(ms, keys);
    CanonicalFailsOnSurrogates(Obj(Without(ms, keys)));
    var body := DigestBody(ms).value;
    DigestEncodable(c, body);
    PutKeepsPlain(ms, DIGEST_KEY, Str(Digest(c, body)));
    var dated := Dated(c, ms).value;
    CanonicalFailsOnSurrogates(Obj(dated));
    var signed := Canonical(Obj(dated)).value;
    SignatureObjectWellFormed(c, signed);
    SignatureEncodable(c, signed);
    PutKeepsPlain(dated, SIGNATURE_KEY, Obj(SignatureObject(c, signed)));
  }

  /** The sealed fixture is accepted and has what the tampering writes to. */
  lemma SealedFixture(c: Crypto)
    requires InjectiveHash(c) && KeysMatch(c) && HexText(c)
    ensures Seal(c, Unsealed()).Some?
    ensures var ms := Seal(c, Unsealed()).value;
      && Tamperable(ms) && Verify(c, ms) == Accepted
      && Lookup(ms, CONTROL_EPOCH) == Some(Int(7))
      && At(Obj(ms), ItemPath(ARCHIVE_SHA)) == Some(Str(FakeSha(LETTER_A + 1)))
      && At(Obj(ms), ItemPath(ACTIVATION_NONCE)) == Some(Str(T("act_fixture_01")))
  {
    UnsealedIsPlain();
    UnsealedLookups();
    ItemLookups();
    SealKeepsRest(c, Unsealed());
    var ms := Seal(c, Unsealed()).value;
    SealVerifies(c, Unsealed());
    BodyKeys();
    AtItem(ms, Item(), ARCHIVE_SHA);
    AtItem(ms, Item(), ACTIVATION_NONCE);
    AtItem(ms, Item(), ATTEMPT_ID);
    AtItem(ms, Item(), ACTION);
    AtField(ms, CONTROL_EPOCH);
    AtField(ms, REVISION);
  }

  lemma BodyKeys()
    ensures {ITEMS, CONTROL_EPOCH, REVISION} !! {DIGEST_KEY, SIGNATURE_KEY}
  {
    assert |ITEMS| == 5 && |CONTROL_EPOCH| == 13 && |REVISION| == 22 && |DIGEST_KEY| == 20 && |SIGNATURE_KEY| == 23;
  }

  lemma TamperedValuesDiffer()
    ensures FakeSha(LETTER_A + 2) != FakeSha(LETTER_A + 1)
    ensures T("act_fixture_tampered") != T("act_fixture_01")
  {
    assert FakeSha(LETTER_A + 2)[7] != FakeSha(LETTER_A + 1)[7];
  }

  /** The generator's run: a document every receiver accepts, and three copies every receiver refuses. */
  method Build(c: Crypto) returns (desired: Document, invalidSignature: Document, rollbackReplay: Document,
                                   nonceTampered: Document)
    requires InjectiveHash(c) && KeysMatch(c) && HexText(c)
    ensures Some(desired.members) == Seal(c, Unsealed()) && Verify(c, desired.members) == Accepted
    ensures Obj(invalidSignature.members)
         == WriteAt(Obj(desired.members), ItemPath(ARCHIVE_SHA), Str(FakeSha(LETTER_A + 2)))
    ensures Obj(rollbackReplay.members) == Replayed(Obj(desired.members))
    ensures Obj(nonceTampered.members)
         == WriteAt(Obj(desired.members), ItemPath(ACTIVATION_NONCE), Str(T("act_fixture_tampered")))
    ensures Verify(c, invalidSignature.members) == DigestMismatch
    ensures Verify(c, rollbackReplay.members) == DigestMismatch
    ensures Verify(c, nonceTampered.members) == DigestMismatch
  {
    SealedFixture(c);
    TamperedValuesDiffer();
    desired := new Document(Unsealed());
    var ok := desired.SealInPlace(c);
    FakeShaEncodable(LETTER_A + 2);
    LiteralEncodable("act_fixture_tampered");
    invalidSignature := TamperedCopy(c, desired, ItemPath(ARCHIVE_SHA), Str(FakeSha(LETTER_A + 2)));
    rollbackReplay := RollbackReplay(c, desired);
    nonceTampered := TamperedCopy(c, desired, ItemPath(ACTIVATION_NONCE), Str(T("act_fixture_tampered")));
  }
}
