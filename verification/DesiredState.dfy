/** The generator's document object, its deep copies, and why every tampered
    copy is refused. */
module DesiredState {
  import opened Texts
  import opened JsonValues
  import opened JsonDict
  import opened CanonicalForm
  import opened SealedState
  import Utf8

  // ---- any change outside the signature field is noticed ----

  lemma WithoutDecides(ms: seq<Member>, other: seq<Member>, keys: set<Text>)
    requires WellFormedMembers(ms) && WellFormedMembers(other)
    requires Canonical(Obj(Without(ms, keys))).Some?
    ensures Canonical(Obj(Without(other, keys))) == Canonical(Obj(Without(ms, keys)))
       <==> AsMap(other) - keys == AsMap(ms) - keys
  {
    WithoutMeans(ms, keys);
    WithoutMeans(other, keys);
    CanonicalDecidesMeaning(Obj(Without(ms, keys)), Obj(Without(other, keys)));
  }

  lemma AcceptedSignatureSaysBody(c: Crypto, signature: seq<Member>, body: Bytes)
    requires VerifySignature(c, signature, body) == Accepted
    ensures Lookup(signature, SIGNED_SHA) == Some(Str(Digest(c, body)))
  {
  }

  lemma AcceptedSaysBody(c: Crypto, ms: seq<Member>)
    requires Verify(c, ms) == Accepted
    ensures DigestBody(ms).Some? && SignedBody(ms).Some?
    ensures Lookup(ms, DIGEST_KEY) == Some(Str(Digest(c, DigestBody(ms).value)))
    ensures Lookup(ms, SIGNATURE_KEY).Some? && Lookup(ms, SIGNATURE_KEY).value.Obj?
    ensures Lookup(Lookup(ms, SIGNATURE_KEY).value.members, SIGNED_SHA) == Some(Str(Digest(c, SignedBody(ms).value)))
  {
    AcceptedSignatureSaysBody(c, Lookup(ms, SIGNATURE_KEY).value.members, SignedBody(ms).value);
  }

  lemma VerdictDependsOn(c: Crypto, ms: seq<Member>, other: seq<Member>)
    requires DigestBody(other) == DigestBody(ms) && SignedBody(other) == SignedBody(ms)
    requires Lookup(other, DIGEST_KEY) == Lookup(ms, DIGEST_KEY)
    requires Lookup(other, SIGNATURE_KEY) == Lookup(ms, SIGNATURE_KEY)
    ensures Verify(c, other) == Verify(c, ms)
  {
  }

  lemma MinusBoth<K, V>(a: map<K, V>, b: map<K, V>, k: K, l: K)
    requires a - {l} == b - {l}
    ensures a - {k, l} == b - {k, l}
  {
    assert a - {k, l} == (a - {l}) - {k};
    assert b - {k, l} == (b - {l}) - {k};
  }

  lemma MinusSees<K, V>(a: map<K, V>, b: map<K, V>, k: K, keys: set<K>)
    requires k !in keys && k in a && k in b && a[k] != b[k]
    ensures a - keys != b - keys
  {
    assert (a - keys)[k] != (b - keys)[k];
  }

  lemma SameContentSameVerdict(c: Crypto, ms: seq<Member>, other: seq<Member>)
    requires WellFormedMembers(ms) && WellFormedMembers(other) && Verify(c, ms) == Accepted
    requires Lookup(other, SIGNATURE_KEY) == Lookup(ms, SIGNATURE_KEY)
    requires AsMap(other) - {SIGNATURE_KEY} == AsMap(ms) - {SIGNATURE_KEY}
    ensures Verify(c, other) == Accepted
  {
    AcceptedSaysBody(c, ms);
    WithoutDecides(ms, other, {SIGNATURE_KEY});
    MinusBoth(AsMap(other), AsMap(ms), DIGEST_KEY, SIGNATURE_KEY);
    WithoutDecides(ms, other, {DIGEST_KEY, SIGNATURE_KEY});
    SameDigestField(ms, other);
    VerdictDependsOn(c, ms, other);
  }

  /** Under an accepted signature field, a document is accepted exactly when every other
      field, at every depth, means what it meant when it was signed. */
  lemma SignatureCoversEverything(c: Crypto, ms: seq<Member>, other: seq<Member>)
    requires InjectiveHash(c) && WellFormedMembers(ms) && WellFormedMembers(other)
    requires Verify(c, ms) == Accepted && Lookup(other, SIGNATURE_KEY) == Lookup(ms, SIGNATURE_KEY)
    ensures Verify(c, other) == Accepted <==> AsMap(other) - {SIGNATURE_KEY} == AsMap(ms) - {SIGNATURE_KEY}
  {
    if AsMap(other) - {SIGNATURE_KEY} == AsMap(ms) - {SIGNATURE_KEY} {
      SameContentSameVerdict(c, ms, other);
    }
    if Verify(c, other) == Accepted {
      AcceptedSaysBody(c, ms);
      AcceptedSaysBody(c, other);
      DigestInjective(c, SignedBody(ms).value, SignedBody(other).value);
      WithoutDecides(ms, other, {SIGNATURE_KEY});
    }
  }

  /** Whatever the rest of the check does, the stored payload hash no longer fits. */
  lemma SignedHashCoversEverything(c: Crypto, ms: seq<Member>, other: seq<Member>)
    requires InjectiveHash(c) && WellFormedMembers(ms) && WellFormedMembers(other)
    requires SignedBody(ms).Some? && SignedBody(other).Some?
    ensures Digest(c, SignedBody(other).value) == Digest(c, SignedBody(ms).value)
       <==> AsMap(other) - {SIGNATURE_KEY} == AsMap(ms) - {SIGNATURE_KEY}
  {
    DigestInjective(c, SignedBody(ms).value, SignedBody(other).value);
    WithoutDecides(ms, other, {SIGNATURE_KEY});
  }

  lemma SameDigestField(ms: seq<Member>, other: seq<Member>)
    requires WellFormedMembers(ms) && WellFormedMembers(other)
    requires AsMap(other) - {SIGNATURE_KEY} == AsMap(ms) - {SIGNATURE_KEY}
    requires Lookup(ms, DIGEST_KEY).Some? && Lookup(ms, DIGEST_KEY).value.Str?
    ensures Lookup(other, DIGEST_KEY) == Lookup(ms, DIGEST_KEY)
  {
    KeysDiffer();
    LookupMeans(ms, DIGEST_KEY);
    LookupMeans(other, DIGEST_KEY);
    var m := AsMap(ms) - {SIGNATURE_KEY};
    assert DIGEST_KEY in m && m[DIGEST_KEY] == AsMap(ms)[DIGEST_KEY];
    assert m[DIGEST_KEY] == AsMap(other)[DIGEST_KEY];
  }

  /** A change outside both sealing fields already fails the first check. */
  lemma DigestCoversBody(c: Crypto, ms: seq<Member>, other: seq<Member>)
    requires InjectiveHash(c) && WellFormedMembers(ms) && WellFormedMembers(other)
    requires Verify(c, ms) == Accepted && Lookup(other, DIGEST_KEY) == Lookup(ms, DIGEST_KEY)
    requires var keys := {DIGEST_KEY, SIGNATURE_KEY}; AsMap(other) - keys != AsMap(ms) - keys
    requires DigestBody(other).Some?
    ensures Verify(c, other) == DigestMismatch
  {
    AcceptedSaysBody(c, ms);
    WithoutDecides(ms, other, {DIGEST_KEY, SIGNATURE_KEY});
    DigestInjective(c, DigestBody(ms).value, DigestBody(other).value);
  }

  // ---- encodable texts stay encodable ----

  lemma {:induction false} PutEncodable(ms: seq<Member>, key: Text, value: Json)
    requires TextsEncodable(Obj(ms)) && Utf8.Encodable(key) && TextsEncodable(value)
    ensures TextsEncodable(Obj(Put(ms, key, value)))
  {
    if ms != [] && ms[0].key != key {
      assert TextsEncodable(Obj(ms[1..]));
      PutEncodable(ms[1..], key, value);
    }
  }

  lemma {:induction false} WithoutEncodable(ms: seq<Member>, keys: set<Text>)
    requires TextsEncodable(Obj(ms))
    ensures TextsEncodable(Obj(Without(ms, keys)))
  {
    if ms != [] {
      assert TextsEncodable(Obj(ms[1..]));
      WithoutEncodable(ms[1..], keys);
    }
  }

  lemma {:induction false} LookupEncodable(ms: seq<Member>, key: Text)
    requires TextsEncodable(Obj(ms)) && Lookup(ms, key).Some?
    ensures TextsEncodable(Lookup(ms, key).value) && Utf8.Encodable(key)
  {
    if ms[0].key != key {
      assert TextsEncodable(Obj(ms[1..]));
      LookupEncodable(ms[1..], key);
    }
  }

  lemma {:induction false} SetAtEncodable(v: Json, path: seq<Step>, value: Json)
    requires TextsEncodable(v) && TextsEncodable(value) && At(v, path).Some?
    ensures TextsEncodable(SetAt(v, path, value))
    decreases |path|
  {
    if path != [] {
      match (v, path[0])
      case (Obj(ms), Key(k)) =>
        LookupEncodable(ms, k);
        SetAtEncodable(Lookup(ms, k).value, path[1..], value);
        PutEncodable(ms, k, SetAt(Lookup(ms, k).value, path[1..], value));
      case (Arr(items), Index(i)) =>
        SetAtEncodable(items[i], path[1..], value);
      case _ =>
    }
  }

  // ---- a write below one top-level field ----

  predicate BodyPath(path: seq<Step>) {
    path != [] && path[0].Key? && path[0].key !in {DIGEST_KEY, SIGNATURE_KEY}
  }

  /** The document after a write: still a dict, its sealing fields and every other field as before. */
  lemma WriteBelow(ms: seq<Member>, path: seq<Step>, value: Json)
    requires WellFormedMembers(ms) && TextsEncodable(Obj(ms))
    requires WellFormed(value) && TextsEncodable(value)
    requires BodyPath(path) && At(Obj(ms), path).Some?
    ensures var v := SetAt(Obj(ms), path, value);
      && v.Obj? && WellFormedMembers(v.members) && TextsEncodable(v)
      && Lookup(v.members, DIGEST_KEY) == Lookup(ms, DIGEST_KEY)
      && Lookup(v.members, SIGNATURE_KEY) == Lookup(ms, SIGNATURE_KEY)
      && path[0].key in AsMap(ms) && path[0].key in AsMap(v.members)
      && AsMap(v.members) == AsMap(ms)[path[0].key := AsMap(v.members)[path[0].key]]
      && (AsMap(v.members)[path[0].key] == AsMap(ms)[path[0].key] <==> Meaning(value) == Meaning(At(Obj(ms), path).value))
  {
    var k := path[0].key;
    var child := Lookup(ms, k).value;
    DeepChangeShows(Obj(ms), path, value);
    SetAtEncodable(Obj(ms), path, value);
    LookupMeans(ms, k);
    DeepChangeShows(child, path[1..], value);
    var child' := SetAt(child, path[1..], value);
    PutMeans(ms, k, child');
    LookupPut(ms, k, child', DIGEST_KEY);
    LookupPut(ms, k, child', SIGNATURE_KEY);
  }

  /** Any one write inside an accepted document, at any depth outside the sealing fields,
      is refused as a digest mismatch exactly when it changes the meaning there. */
  lemma TamperingIsRefused(c: Crypto, ms: seq<Member>, path: seq<Step>, value: Json)
    requires InjectiveHash(c) && WellFormedMembers(ms) && TextsEncodable(Obj(ms)) && Verify(c, ms) == Accepted
    requires WellFormed(value) && TextsEncodable(value)
    requires BodyPath(path) && At(Obj(ms), path).Some?
    ensures Verify(c, SetAt(Obj(ms), path, value).members) ==
      if Meaning(value) == Meaning(At(Obj(ms), path).value) then Accepted else DigestMismatch
  {
    WriteBelow(ms, path, value);
    var other := SetAt(Obj(ms), path, value).members;
    if Meaning(value) == Meaning(At(Obj(ms), path).value) {
      SameFieldAccepted(c, ms, other, path[0].key);
    } else {
      ChangedField(c, ms, other, path[0].key);
    }
  }

  lemma SameUpdate<K, V>(a: map<K, V>, b: map<K, V>, k: K)
    requires k in a && k in b && b == a[k := b[k]] && a[k] == b[k]
    ensures a == b
  {
  }

  lemma SameFieldAccepted(c: Crypto, ms: seq<Member>, other: seq<Member>, k: Text)
    requires InjectiveHash(c) && WellFormedMembers(ms) && Verify(c, ms) == Accepted && WellFormedMembers(other)
    requires Lookup(other, SIGNATURE_KEY) == Lookup(ms, SIGNATURE_KEY)
    requires k in AsMap(ms) && k in AsMap(other)
    requires AsMap(other) == AsMap(ms)[k := AsMap(other)[k]] && AsMap(other)[k] == AsMap(ms)[k]
    ensures Verify(c, other) == Accepted
  {
    SameUpdate(AsMap(ms), AsMap(other), k);
    SignatureCoversEverything(c, ms, other);
  }

  /** One differing body field is enough. */
  lemma ChangedField(c: Crypto, ms: seq<Member>, other: seq<Member>, k: Text)
    requires InjectiveHash(c) && WellFormedMembers(ms) && Verify(c, ms) == Accepted
    requires WellFormedMembers(other) && TextsEncodable(Obj(other))
    requires Lookup(other, DIGEST_KEY) == Lookup(ms, DIGEST_KEY)
    requires k !in {DIGEST_KEY, SIGNATURE_KEY} && k in AsMap(ms) && k in AsMap(other)
    requires AsMap(other)[k] != AsMap(ms)[k]
    ensures Verify(c, other) == DigestMismatch
  {
    var keys := {DIGEST_KEY, SIGNATURE_KEY};
    MinusSees(AsMap(other), AsMap(ms), k, keys);
    WithoutEncodable(other, keys);
    CanonicalFailsOnSurrogates(Obj(Without(other, keys)));
    DigestCoversBody(c, ms, other);
  }

  // ---- the documents the generator builds ----

  const ITEMS: Text := T("items")
  const ARCHIVE_SHA: Text := T("archive_sha256")
  const ACTIVATION_NONCE: Text := T("activation_nonce")
  const ATTEMPT_ID: Text := T("attempt_id")
  const ACTION: Text := T("action")
  const CONTROL_EPOCH: Text := T("control_epoch")
  const REVISION: Text := T("desired_state_revision")

  function ItemPath(field: Text): seq<Step> {
    [Key(ITEMS), Index(0), Key(field)]
  }

  class Document {
    var members: seq<Member>

    constructor (ms: seq<Member>)
      ensures members == ms
    {
      members := ms;
    }

    /** `desired[key] = value`. */
    method Assign(key: Text, value: Json)
      modifies this
      ensures members == Put(old(members), key, value)
    {
      members := Put(members, key, value);
    }

    /** `desired[...][...] = value` through a path that exists. */
    method AssignAt(path: seq<Step>, value: Json)
      requires path != [] && path[0].Key? && At(Obj(members), path).Some?
      modifies this
      ensures Obj(members) == SetAt(Obj(old(members)), path, value)
      ensures DiffersOnlyAt(Obj(old(members)), Obj(members), path, value)
    {
      WriteIsLocal(Obj(members), path, value);
      members := SetAt(Obj(members), path, value).members;
    }

    method DeepCopy() returns (d: Document)
      ensures fresh(d) && d.members == members
    {
      d := new Document(members);
    }

    /** The two assignments that seal; a lone surrogate stops at the canonicalisation that met it. */
    method SealInPlace(c: Crypto) returns (ok: bool)
      modifies this
      ensures ok <==> Seal(c, old(members)).Some?
      ensures ok ==> members == Seal(c, old(members)).value
      ensures !ok ==> members == match Dated(c, old(members)) { case Some(d) => d case None => old(members) }
    {
      var digestBody := DigestBody(members);
      if digestBody.None? { return false; }
      Assign(DIGEST_KEY, Str(Digest(c, digestBody.value)));
      var signedBody := Canonical(Obj(members));
      if signedBody.None? { return false; }
      Assign(SIGNATURE_KEY, Obj(SignatureObject(c, signedBody.value)));
      return true;
    }
  }

  /** What the generator's desired document has where it is tampered with. */
  ghost predicate Tamperable(ms: seq<Member>) {
    && WellFormedMembers(ms) && TextsEncodable(Obj(ms))
    && At(Obj(ms), ItemPath(ARCHIVE_SHA)).Some?
    && At(Obj(ms), ItemPath(ACTIVATION_NONCE)).Some?
    && At(Obj(ms), ItemPath(ATTEMPT_ID)).Some?
    && At(Obj(ms), ItemPath(ACTION)).Some?
    && At(Obj(ms), [Key(CONTROL_EPOCH)]).Some?
    && At(Obj(ms), [Key(REVISION)]).Some?
  }

  /** A write of plain text keeps the document tamperable and its control epoch. */
  lemma WriteKeepsTamperable(ms: seq<Member>, path: seq<Step>, value: Json)
    requires Tamperable(ms) && WellFormed(value) && TextsEncodable(value)
    requires path in [ItemPath(ARCHIVE_SHA), ItemPath(ACTIVATION_NONCE), ItemPath(ATTEMPT_ID), ItemPath(ACTION),
                      [Key(CONTROL_EPOCH)], [Key(REVISION)]]
    ensures At(Obj(ms), path).Some? && SetAt(Obj(ms), path, value).Obj?
    ensures var ms' := SetAt(Obj(ms), path, value).members;
      && Tamperable(ms')
      && Lookup(ms', DIGEST_KEY) == Lookup(ms, DIGEST_KEY)
      && Lookup(ms', CONTROL_EPOCH) == if path == [Key(CONTROL_EPOCH)] then Some(value) else Lookup(ms, CONTROL_EPOCH)
  {
    WriteBelow(ms, path, value);
    var k := path[0].key;
    LookupPut(ms, k, SetAt(Lookup(ms, k).value, path[1..], value), CONTROL_EPOCH);
    PlacesRemain(Obj(ms), path, value, ItemPath(ARCHIVE_SHA));
    PlacesRemain(Obj(ms), path, value, ItemPath(ACTIVATION_NONCE));
    PlacesRemain(Obj(ms), path, value, ItemPath(ATTEMPT_ID));
    PlacesRemain(Obj(ms), path, value, ItemPath(ACTION));
    PlacesRemain(Obj(ms), path, value, [Key(CONTROL_EPOCH)]);
    PlacesRemain(Obj(ms), path, value, [Key(REVISION)]);
  }

  /** A tampered fixture made by one write: a deep copy, so the sealed document stays as it
      is, and refused at the digest check whenever the value written is really new. */
  method TamperedCopy(c: Crypto, desired: Document, path: seq<Step>, value: Json) returns (copy: Document)
    requires InjectiveHash(c) && Tamperable(desired.members) && Verify(c, desired.members) == Accepted
    requires path in [ItemPath(ARCHIVE_SHA), ItemPath(ACTIVATION_NONCE)]
    requires WellFormed(value) && TextsEncodable(value)
    ensures fresh(copy) && Obj(copy.members) == SetAt(Obj(desired.members), path, value)
    ensures DiffersOnlyAt(Obj(desired.members), Obj(copy.members), path, value)
    ensures Verify(c, copy.members) ==
      if Meaning(value) == Meaning(At(Obj(desired.members), path).value) then Accepted else DigestMismatch
  {
    copy := desired.DeepCopy();
    copy.AssignAt(path, value);
    TamperingIsRefused(c, desired.members, path, value);
  }

  lemma ReplayIsChanged(c: Crypto, ms: seq<Member>, copy: seq<Member>)
    requires InjectiveHash(c) && Tamperable(ms) && Tamperable(copy) && Verify(c, ms) == Accepted
    requires Lookup(copy, DIGEST_KEY) == Lookup(ms, DIGEST_KEY)
    requires Lookup(copy, CONTROL_EPOCH) == Some(Int(6)) && Lookup(ms, CONTROL_EPOCH) != Some(Int(6))
    ensures Verify(c, copy) == DigestMismatch
  {
    LookupMeans(copy, CONTROL_EPOCH);
    LookupMeans(ms, CONTROL_EPOCH);
    ChangedField(c, ms, copy, CONTROL_EPOCH);
  }

  function WriteAt(v: Json, path: seq<Step>, value: Json): Json {
    if At(v, path).Some? then SetAt(v, path, value) else v
  }

  /** The document after a write, which can be tampered with further. */
  ghost predicate Overwritten(was: seq<Member>, now: seq<Member>, path: seq<Step>, value: Json) {
    && Obj(now) == WriteAt(Obj(was), path, value) && Tamperable(now)
    && Lookup(now, DIGEST_KEY) == Lookup(was, DIGEST_KEY)
    && Lookup(now, CONTROL_EPOCH) == if path == [Key(CONTROL_EPOCH)] then Some(value) else Lookup(was, CONTROL_EPOCH)
  }

  /** The places and values the replay is made with. */
  predicate ReplayWrite(path: seq<Step>, value: Json) {
    && path in [ItemPath(ATTEMPT_ID), ItemPath(ACTION), [Key(CONTROL_EPOCH)], [Key(REVISION)]]
    && WellFormed(value) && TextsEncodable(value)
  }

  /** One of the generator's writes into a copy. */
  method Overwrite(copy: Document, path: seq<Step>, value: Json)
    requires Tamperable(copy.members) && ReplayWrite(path, value)
    modifies copy
    ensures Overwritten(old(copy.members), copy.members, path, value)
  {
    WriteKeepsTamperable(copy.members, path, value);
    copy.AssignAt(path, value);
  }

  const REPLAYED_EPOCH: Json := Int(6)
  const REPLAYED_ATTEMPT: Json := Str(T("attempt_fixture_replay"))
  const REPLAYED_ACTION: Json := Str(T("rollback"))
  const REPLAYED_REVISION: Json := Str(T("ds_fixture_a_replay"))

  /** The four fields a rollback replay differs in. */
  function Replayed(v: Json): Json {
    WriteAt(
      WriteAt(
        WriteAt(
          WriteAt(v, [Key(CONTROL_EPOCH)], REPLAYED_EPOCH),
          ItemPath(ATTEMPT_ID), REPLAYED_ATTEMPT),
        ItemPath(ACTION), REPLAYED_ACTION),
      [Key(REVISION)], REPLAYED_REVISION)
  }

  lemma ReplayedByWrites(a: seq<Member>, b: seq<Member>, c: seq<Member>, d: seq<Member>, e: seq<Member>)
    requires Overwritten(a, b, [Key(CONTROL_EPOCH)], REPLAYED_EPOCH)
    requires Overwritten(b, c, ItemPath(ATTEMPT_ID), REPLAYED_ATTEMPT)
    requires Overwritten(c, d, ItemPath(ACTION), REPLAYED_ACTION)
    requires Overwritten(d, e, [Key(REVISION)], REPLAYED_REVISION)
    ensures Obj(e) == Replayed(Obj(a)) && Tamperable(e)
    ensures Lookup(e, DIGEST_KEY) == Lookup(a, DIGEST_KEY) && Lookup(e, CONTROL_EPOCH) == Some(REPLAYED_EPOCH)
  {
    assert |REVISION| != |CONTROL_EPOCH|;
    assert [Key(REVISION)][0] != [Key(CONTROL_EPOCH)][0];
    assert |ItemPath(ATTEMPT_ID)| == |ItemPath(ACTION)| == 3;
  }

  lemma ReplayWrites()
    ensures ReplayWrite([Key(CONTROL_EPOCH)], REPLAYED_EPOCH)
    ensures ReplayWrite(ItemPath(ATTEMPT_ID), REPLAYED_ATTEMPT)
    ensures ReplayWrite(ItemPath(ACTION), REPLAYED_ACTION)
    ensures ReplayWrite([Key(REVISION)], REPLAYED_REVISION)
  {
  }

  /** The copy with the four writes made into it. */
  method MakeReplay(copy: Document)
    requires Tamperable(copy.members)
    modifies copy
    ensures Obj(copy.members) == Replayed(Obj(old(copy.members))) && Tamperable(copy.members)
    ensures Lookup(copy.members, DIGEST_KEY) == Lookup(old(copy.members), DIGEST_KEY)
    ensures Lookup(copy.members, CONTROL_EPOCH) == Some(REPLAYED_EPOCH)
  {
    ReplayWrites();
    Overwrite(copy, [Key(CONTROL_EPOCH)], REPLAYED_EPOCH);
    ghost var first := copy.members;
    Overwrite(copy, ItemPath(ATTEMPT_ID), REPLAYED_ATTEMPT);
    ghost var second := copy.members;
    Overwrite(copy, ItemPath(ACTION), REPLAYED_ACTION);
    ghost var third := copy.members;
    Overwrite(copy, [Key(REVISION)], REPLAYED_REVISION);
    ReplayedByWrites(old(copy.members), first, second, third, copy.members);
  }

  /** The replay is refused unless the sealed document already stood at the replayed epoch. */
  method RollbackReplay(c: Crypto, desired: Document) returns (copy: Document)
    requires InjectiveHash(c) && Tamperable(desired.members) && Verify(c, desired.members) == Accepted
    ensures fresh(copy) && Obj(copy.members) == Replayed(Obj(desired.members))
    ensures Lookup(desired.members, CONTROL_EPOCH) != Some(REPLAYED_EPOCH) ==> Verify(c, copy.members) == DigestMismatch
  {
    copy := desired.DeepCopy();
    MakeReplay(copy);
    if Lookup(desired.members, CONTROL_EPOCH) != Some(REPLAYED_EPOCH) {
      ReplayIsChanged(c, desired.members, copy.members);
    }
  }
}
