/** What the parser refuses: repeated properties, and anything behind a value. */
module ParserStrictness {
  import opened Texts
  import opened JsonValues
  import opened JsonPrinter
  import opened JsonParser

  lemma {:induction false} OnlySpace(s: Text)
    ensures SkipSpace(s) == [] <==> forall i :: 0 <= i < |s| ==> s[i] in {0x20, 0x09, 0x0A, 0x0D}
  {
    if s != [] {
      OnlySpace(s[1..]);
      assert s == [s[0]] + s[1..];
    }
  }

  /** Behind a printed value only white space may stand. */
  lemma NothingMayFollow(v: Json, k: Text)
    requires WellFormed(v) && Delimited(k)
    ensures Loads(Print(v) + k) ==
      if forall i :: 0 <= i < |k| ==> k[i] in {0x20, 0x09, 0x0A, 0x0D} then Ok(v) else Err(InvalidJson)
  {
    ValueReadsBack(v, k);
    OnlySpace(k);
  }

  // ---- what is parsed is well-formed ----

  predicate AllWellFormed(items: seq<Json>) { forall i :: 0 <= i < |items| ==> WellFormed(items[i]) }

  predicate ValuesWellFormed(ms: seq<Member>) { forall i :: 0 <= i < |ms| ==> WellFormed(ms[i].value) }

  lemma {:induction false} ParsedValueIsWellFormed(text: Text)
    requires ParseValue(text).Ok?
    ensures WellFormed(ParseValue(text).value.0)
    decreases |text|, 4
  {
    var s := SkipSpace(text);
    if s[0] == LBRACKET {
      var t := SkipSpace(s[1..]);
      if !(t != [] && t[0] == RBRACKET) {
        ParsedItemsAreWellFormed(t);
      }
    } else if s[0] == LBRACE {
      var t := SkipSpace(s[1..]);
      if !(t != [] && t[0] == RBRACE) {
        ParsedMembersAreWellFormed(t);
      }
    }
  }

  lemma {:induction false} ParsedItemsAreWellFormed(text: Text)
    requires ParseItems(text).Ok?
    ensures AllWellFormed(ParseItems(text).value.0)
    decreases |text|, 5
  {
    var (v, rest) := ParseValue(text).value;
    ParsedValueIsWellFormed(text);
    var t := SkipSpace(rest);
    if t[0] == COMMA {
      ParsedItemsAreWellFormed(t[1..]);
    }
  }

  lemma {:induction false} ParsedMembersAreWellFormed(text: Text)
    requires ParseMembers(text).Ok?
    ensures ValuesWellFormed(ParseMembers(text).value.0)
    decreases |text|, 5
  {
    var (key, afterKey) := ParseChars(SkipSpace(text)[1..]).value;
    var c := SkipSpace(afterKey);
    var (v, rest) := ParseValue(c[1..]).value;
    ParsedValueIsWellFormed(c[1..]);
    var t := SkipSpace(rest);
    if t[0] == COMMA {
      ParsedMembersAreWellFormed(t[1..]);
    }
  }

  /** Nothing that is read holds a property twice, at any depth. */
  lemma LoadsWellFormed(t: Text)
    requires Loads(t).Ok?
    ensures WellFormed(Loads(t).value)
  {
    ParsedValueIsWellFormed(t);
  }

  /** And members that do are refused by name. */
  lemma RepeatedPropertyIsRefused(ms: seq<Member>)
    requires ValuesWellFormed(ms) && !DistinctKeys(ms)
    ensures Loads(Print(Obj(ms))) == Err(DuplicateProperty)
  {
    var t := PrintMembers(ms) + [RBRACE] + [];
    MembersReadBack(ms, []);
    MembersStart(ms, []);
    assert t[0] == QUOTE;
    DispatchObject(t);
    Bracketed(LBRACE, PrintMembers(ms), RBRACE, []);
    assert Print(Obj(ms)) == [LBRACE] + PrintMembers(ms) + [RBRACE] + [];
  }
}
