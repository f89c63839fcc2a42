/** The canonical signing form, and what signing over it relies on: it is
    lossless, it ignores insertion order, and it sorts keys by code point. */
module CanonicalForm {
  import opened Texts
  import opened Sorting
  import opened JsonValues
  import opened JsonPrinter
  import opened JsonParser
  import opened ShortestForm
  import ParserStrictness
  import Utf8

  const MAX_MESSAGE_BYTES := 256 * 1024

  /** `None` is the UnicodeEncodeError of a lone surrogate. */
  function Canonical(v: Json): Option<Bytes> {
    Utf8.Encode(Dumps(v))
  }

  /** The strict reader of wire messages. */
  function ParseStrict(data: Bytes): Result<Json> {
    if data == [] || |data| > MAX_MESSAGE_BYTES then Err(InvalidMessageSize)
    else match Utf8.Decode(data)
      case None => Err(InvalidJson)
      case Some(t) =>
        var v :- Loads(t);
        if v.Obj? then Ok(v) else Err(ObjectRequired)
  }

  // ---- lossless ----

  /** The bytes determine the value up to the order of dict items. */
  lemma CanonicalReadsBack(v: Json)
    requires WellFormed(v) && Canonical(v).Some?
    ensures Utf8.Decode(Canonical(v).value) == Some(Dumps(v))
    ensures Loads(Dumps(v)) == Ok(Normalize(v))
    ensures Meaning(Normalize(v)) == Meaning(v)
    ensures Canonical(v).value != []
  {
    Utf8.DecodeUndoesEncode(Dumps(v));
    DumpsPrintsNormalForm(v);
    NormalizeMeans(v);
    PrintReadsBack(Normalize(v));
    PrintStarts(Normalize(v));
  }

  /** Of canonical values the strict reader refuses the ones too large, for their size, and those that
      are no object; an accepted one is the sorted value and means what was written. */
  lemma StrictReaderAcceptsCanonical(v: Json)
    requires WellFormed(v) && Canonical(v).Some?
    ensures var b := Canonical(v).value;
      ParseStrict(b) ==
        if |b| > MAX_MESSAGE_BYTES then Err(InvalidMessageSize)
        else if v.Obj? then Ok(Normalize(v)) else Err(ObjectRequired)
    ensures Meaning(Normalize(v)) == Meaning(v)
  {
    CanonicalReadsBack(v);
  }

  /** Whatever the strict reader accepts is an object without repeated properties at any depth; read
      again in canonical form, if it has one within the limit, it is the same but for order. */
  lemma StrictReaderIsStrict(data: Bytes)
    requires ParseStrict(data).Ok?
    ensures 0 < |data| <= MAX_MESSAGE_BYTES && Utf8.Decode(data).Some?
    ensures var v := ParseStrict(data).value;
      && v.Obj? && WellFormed(v) && Shortest(Print(v), Utf8.Decode(data).value)
      && (Canonical(v).Some? && |Canonical(v).value| <= MAX_MESSAGE_BYTES ==>
            ParseStrict(Canonical(v).value) == Ok(Normalize(v)))
  {
    var t := Utf8.Decode(data).value;
    ParserStrictness.LoadsWellFormed(t);
    PrintIsShortest(t);
    var v := ParseStrict(data).value;
    if Canonical(v).Some? {
      StrictReaderAcceptsCanonical(v);
    }
  }

  /** Two values have the same canonical bytes exactly when they are equal with
      dicts compared as maps, whatever order their items were inserted in. */
  lemma CanonicalDecidesMeaning(v: Json, w: Json)
    requires WellFormed(v) && WellFormed(w) && Canonical(v).Some?
    ensures Canonical(v) == Canonical(w) <==> Meaning(v) == Meaning(w)
  {
    if Canonical(v) == Canonical(w) {
      CanonicalReadsBack(v);
      CanonicalReadsBack(w);
    }
    if Meaning(v) == Meaning(w) {
      NormalizeAgrees(v, w);
      DumpsPrintsNormalForm(v);
      DumpsPrintsNormalForm(w);
    }
  }

  // ---- when it fails ----

  predicate TextsEncodable(v: Json) {
    match v
    case Str(s) => Utf8.Encodable(s)
    case Arr(items) => forall i :: 0 <= i < |items| ==> TextsEncodable(items[i])
    case Obj(ms) =>
      forall i :: 0 <= i < |ms| ==> Utf8.Encodable(ms[i].key) && TextsEncodable(ms[i].value)
    case _ => true
  }

  lemma EncodableConcat(a: Text, b: Text)
    ensures Utf8.Encodable(a + b) <==> Utf8.Encodable(a) && Utf8.Encodable(b)
  {
    if Utf8.Encodable(a + b) {
      assert forall i :: 0 <= i < |a| ==> (a + b)[i] == a[i];
      assert forall i :: 0 <= i < |b| ==> (a + b)[|a| + i] == b[i];
    }
  }

  lemma {:induction false} EscapeEncodable(s: Text)
    ensures Utf8.Encodable(Escape(s)) <==> Utf8.Encodable(s)
  {
    if s != [] {
      EscapeEncodable(s[1..]);
      EncodableConcat(EscapeChar(s[0]), Escape(s[1..]));
      EncodableConcat([s[0]], s[1..]);
      assert s == [s[0]] + s[1..];
      OneEscapeEncodable(s[0]);
    }
  }

  lemma OneEscapeEncodable(c: CodePoint)
    ensures Utf8.Encodable(EscapeChar(c)) <==> Utf8.Encodable([c])
  {
    if EscapeChar(c) != [c] {
      assert c < 0x80;
      assert forall i :: 0 <= i < |EscapeChar(c)| ==> EscapeChar(c)[i] < 0x80;
    }
  }

  lemma StringEncodable(s: Text)
    ensures Utf8.Encodable(PrintString(s)) <==> Utf8.Encodable(s)
  {
    EscapeEncodable(s);
    EncodableConcat([QUOTE], Escape(s));
    EncodableConcat([QUOTE] + Escape(s), [QUOTE]);
  }

  lemma {:induction false} PrintEncodable(v: Json)
    ensures Utf8.Encodable(Print(v)) <==> TextsEncodable(v)
    decreases v, 1
  {
    match v
    case Int(n) =>
      var digits := NatText(if n < 0 then -n else n);
      assert forall i :: 0 <= i < |digits| ==> IsDigit(digits[i]);
    case Str(s) => StringEncodable(s);
    case Arr(items) =>
      ItemsEncodable(items);
      EncodableConcat([LBRACKET], PrintItems(items));
      EncodableConcat([LBRACKET] + PrintItems(items), [RBRACKET]);
    case Obj(ms) =>
      MembersEncodable(ms);
      EncodableConcat([LBRACE], PrintMembers(ms));
      EncodableConcat([LBRACE] + PrintMembers(ms), [RBRACE]);
    case _ =>
  }

  lemma {:induction false} ItemsEncodable(items: seq<Json>)
    ensures Utf8.Encodable(PrintItems(items)) <==> forall i :: 0 <= i < |items| ==> TextsEncodable(items[i])
    decreases items, 0
  {
    if items != [] {
      var rest := items[1..];
      assert forall i :: 0 <= i < |rest| ==> rest[i] == items[i + 1];
      PrintEncodable(items[0]);
      ItemsEncodable(rest);
      EncodableConcat(Print(items[0]), [COMMA]);
      EncodableConcat(Print(items[0]) + [COMMA], PrintItems(rest));
    }
  }

  lemma {:induction false} MembersEncodable(ms: seq<Member>)
    ensures Utf8.Encodable(PrintMembers(ms))
       <==> forall i :: 0 <= i < |ms| ==> Utf8.Encodable(ms[i].key) && TextsEncodable(ms[i].value)
    decreases ms, 0
  {
    if ms != [] {
      var m, rest := ms[0], ms[1..];
      assert forall i :: 0 <= i < |rest| ==> rest[i] == ms[i + 1];
      StringEncodable(m.key);
      PrintEncodable(m.value);
      MembersEncodable(rest);
      EncodableConcat(PrintString(m.key), [COLON]);
      EncodableConcat(PrintString(m.key) + [COLON], Print(m.value));
      EncodableConcat(PrintMember(m), [COMMA]);
      EncodableConcat(PrintMember(m) + [COMMA], PrintMembers(rest));
    }
  }

  lemma {:induction false} NormalizeKeepsTexts(v: Json)
    ensures TextsEncodable(Normalize(v)) <==> TextsEncodable(v)
  {
    match v
    case Arr(items) =>
      forall i | 0 <= i < |items| ensures TextsEncodable(Normalize(items[i])) <==> TextsEncodable(items[i]) {
        NormalizeKeepsTexts(items[i]);
      }
      assert forall i :: 0 <= i < |items| ==> Normalize(v).items[i] == Normalize(items[i]);
    case Obj(ms) =>
      var n := NormalizeMembers(ms);
      forall m | m in ms ensures TextsEncodable(Normalize(m.value)) <==> TextsEncodable(m.value) {
        NormalizeKeepsTexts(m.value);
      }
      SortedHolds(ms, (m: Member) => Utf8.Encodable(m.key) && TextsEncodable(m.value));
    case _ =>
  }

  lemma SortedHolds(ms: seq<Member>, p: Member -> bool)
    ensures (forall i :: 0 <= i < |ms| ==> p(ms[i]))
       <==> (forall i :: 0 <= i < |ms| ==> p(SortMembers(ms)[i]))
  {
    assert forall m :: m in ms <==> m in SortMembers(ms);
    assert (forall i :: 0 <= i < |ms| ==> p(ms[i])) <==> forall m :: m in ms ==> p(m);
  }

  /** Canonicalising raises exactly when some key or string holds a surrogate. */
  lemma CanonicalFailsOnSurrogates(v: Json)
    ensures Canonical(v).Some? <==> TextsEncodable(v)
  {
    DumpsPrintsNormalForm(v);
    PrintEncodable(Normalize(v));
    NormalizeKeepsTexts(v);
  }

  // ---- the order of keys ----

  predicate KeysInOrder(v: Json) {
    match v
    case Arr(items) => forall i :: 0 <= i < |items| ==> KeysInOrder(items[i])
    case Obj(ms) =>
      Ordered(ms, KeyLeq) && forall i :: 0 <= i < |ms| ==> KeysInOrder(ms[i].value)
    case _ => true
  }

  /** At every depth the canonical text lists keys in code-point order. */
  lemma {:induction false} CanonicalKeysInOrder(v: Json)
    ensures KeysInOrder(Normalize(v))
  {
    match v
    case Arr(items) =>
      forall i | 0 <= i < |items| ensures KeysInOrder(Normalize(items[i])) { CanonicalKeysInOrder(items[i]); }
    case Obj(ms) =>
      var a := SortMembers(ms);
      forall i | 0 <= i < |a| ensures KeysInOrder(Normalize(a[i].value)) {
        assert a[i] in ms;
        CanonicalKeysInOrder(a[i].value);
      }
      assert Ordered(Normalize(v).members, KeyLeq);
    case _ =>
  }
}
