/** The canonical text is the shortest there is: nothing is spaced, escaped or
    written longer than the grammar demands. */
module ShortestForm {
  import opened Texts
  import opened JsonValues
  import opened JsonPrinter
  import opened JsonParser
  import opened Sequences

  // ---- no longer than another text, and the same one where it is as long ----

  /** The characters agree, but that `d` may be the lower-case form of a hexadecimal letter. */
  predicate SameButCase(c: CodePoint, d: CodePoint) {
    c == d || (0x41 <= c <= 0x46 && d == c + 0x20)
  }

  /** `best` is shorter than `t`, or `t` is `best` with some hexadecimal letters in upper case. */
  predicate Shortest(best: Text, t: Text) {
    |best| < |t| || (|best| == |t| && forall i :: 0 <= i < |t| ==> SameButCase(t[i], best[i]))
  }

  lemma ShortestConcat(a: Text, s: Text, b: Text, t: Text)
    requires Shortest(a, s) && Shortest(b, t)
    ensures Shortest(a + b, s + t)
  {
  }

  /** Of `s`, what was read before `rest` was left over is no better than `best`. */
  predicate Reads(s: Text, rest: Text, best: Text) {
    |rest| <= |s| && s[|s| - |rest|..] == rest && Shortest(best, s[..|s| - |rest|])
  }

  lemma ReadsThen(s: Text, mid: Text, rest: Text, a: Text, b: Text)
    requires Reads(s, mid, a) && Reads(mid, rest, b)
    ensures Reads(s, rest, a + b)
  {
    var n, m := |s| - |mid|, |mid| - |rest|;
    assert s == s[..n] + mid;
    assert s[..n + m] == s[..n] + mid[..m];
    assert s[n + m..] == mid[m..];
    ShortestConcat(a, s[..n], b, mid[..m]);
  }

  lemma ReadsExactly(s: Text, n: nat)
    requires n <= |s|
    ensures Reads(s, s[n..], s[..n])
  {
  }

  lemma {:induction false} ReadsSpace(s: Text)
    ensures Reads(s, SkipSpace(s), [])
  {
    if s != [] && s[0] in {0x20, 0x09, 0x0A, 0x0D} {
      ReadsSpace(s[1..]);
      assert s == [s[0]] + s[1..];
    }
  }

  /** White space in front of what is read only makes it longer. */
  lemma ReadsAfterSpace(s: Text, rest: Text, best: Text)
    requires Reads(SkipSpace(s), rest, best)
    ensures Reads(s, rest, best)
  {
    ReadsSpace(s);
    ReadsThen(s, SkipSpace(s), rest, [], best);
    assert [] + best == best;
  }

  /** One character is read, then the rest. */
  lemma ReadsOneThen(s: Text, rest: Text, best: Text)
    requires s != [] && Reads(s[1..], rest, best)
    ensures Reads(s, rest, [s[0]] + best)
  {
    ReadsExactly(s, 1);
    assert s[..1] == [s[0]];
    ReadsThen(s, s[1..], rest, [s[0]], best);
  }

  // ---- strings ----

  lemma EscapeBounds(c: CodePoint)
    ensures |EscapeChar(c)| <= 6 && (|EscapeChar(c)| == 6 ==> c < 0x20)
  {
  }

  lemma SimpleEscapeIsShortest(s: Text, c: CodePoint)
    requires |s| >= 2 && s[0] == BACKSLASH && SimpleEscape(s[1]) == Some(c)
    ensures Reads(s, s[2..], EscapeChar(c))
  {
    ReadsExactly(s, 2);
    assert s[..2] == [s[0], s[1]];
  }

  lemma RawIsShortest(s: Text)
    requires s != [] && s[0] >= 0x20 && s[0] !in {QUOTE, BACKSLASH}
    ensures Reads(s, s[1..], EscapeChar(s[0]))
  {
    ReadsExactly(s, 1);
    assert s[..1] == [s[0]];
  }

  /** Only the two letter cases write one hexadecimal digit. */
  lemma HexDigitOf(c: CodePoint)
    requires HexValue(c).Some?
    ensures SameButCase(c, HexDigit(HexValue(c).value))
  {
  }

  lemma ControlEscapeIs(h: Text, c: CodePoint)
    requires |h| == 4 && Hex4(h) == Some(c) && |EscapeChar(c)| == 6
    ensures forall i :: 0 <= i < 4 ==> SameButCase(h[i], EscapeChar(c)[i + 2])
  {
    var a, b, d, e := HexValue(h[0]).value, HexValue(h[1]).value, HexValue(h[2]).value, HexValue(h[3]).value;
    EscapeBounds(c);
    assert c == ((a * 16 + b) * 16 + d) * 16 + e;
    assert a == 0 && b == 0 && d == c / 16 && e == c % 16;
    HexDigitOf(h[0]);
    HexDigitOf(h[1]);
    HexDigitOf(h[2]);
    HexDigitOf(h[3]);
  }

  lemma UnicodeEscapeIsShortest(s: Text, c: CodePoint, rest: Text)
    requires |s| >= 2 && s[0] == BACKSLASH && s[1] == 0x75 && ParseUnicodeEscape(s) == Ok((c, rest))
    ensures Reads(s, rest, EscapeChar(c))
  {
    EscapeBounds(c);
    if rest == s[6..] {
      ReadsExactly(s, 6);
      if |EscapeChar(c)| == 6 {
        ControlEscapeIs(s[2..6], c);
        var h := s[2..6];
        assert forall i :: 2 <= i < 6 ==> s[i] == h[i - 2];
      }
    } else {
      ReadsExactly(s, 12);
    }
  }

  lemma CharsThen(s: Text, mid: Text, rest: Text, c: CodePoint, cs: Text)
    requires Reads(s, mid, EscapeChar(c)) && Reads(mid, rest, Escape(cs) + [QUOTE])
    ensures Reads(s, rest, Escape([c] + cs) + [QUOTE])
  {
    ReadsThen(s, mid, rest, EscapeChar(c), Escape(cs) + [QUOTE]);
    assert ([c] + cs)[1..] == cs;
    Associate(EscapeChar(c), Escape(cs), [QUOTE]);
  }

  lemma {:induction false} CharsAreShortest(s: Text)
    requires ParseChars(s).Ok?
    ensures Reads(s, ParseChars(s).value.1, Escape(ParseChars(s).value.0) + [QUOTE])
    decreases |s|
  {
    var (cs, rest) := ParseChars(s).value;
    if s[0] == QUOTE {
      ReadsExactly(s, 1);
      assert s[..1] == [QUOTE] == Escape([]) + [QUOTE];
    } else if s[0] == BACKSLASH {
      if s[1] == 0x75 {
        var (c, mid) := ParseUnicodeEscape(s).value;
        UnicodeEscapeIsShortest(s, c, mid);
        CharsAreShortest(mid);
        CharsThen(s, mid, rest, c, ParseChars(mid).value.0);
      } else {
        var c := SimpleEscape(s[1]).value;
        SimpleEscapeIsShortest(s, c);
        CharsAreShortest(s[2..]);
        CharsThen(s, s[2..], rest, c, ParseChars(s[2..]).value.0);
      }
    } else {
      RawIsShortest(s);
      CharsAreShortest(s[1..]);
      CharsThen(s, s[1..], rest, s[0], ParseChars(s[1..]).value.0);
    }
  }

  /** A character the reader takes as it stands. */
  predicate TakenRaw(c: CodePoint) { ParseChars([c, QUOTE]) == Ok(([c], [])) }

  /** Exactly the characters that may stand raw do. */
  lemma RawStaysRaw(c: CodePoint)
    ensures EscapeChar(c) == [c] <==> TakenRaw(c)
  {
    var s := [c, QUOTE];
    assert s[1..] == [QUOTE] && [QUOTE][1..] == [];
    assert ParseChars([QUOTE]) == Ok(([], []));
    assert [c] + [] == [c];
  }

  /** A string is written as it is, exactly when every character of it may stand raw. */
  lemma {:induction false} RawTextStaysRaw(s: Text)
    ensures Escape(s) == s <==> forall i :: 0 <= i < |s| ==> TakenRaw(s[i])
    ensures |Escape(s)| >= |s|
  {
    if s != [] {
      var rest := s[1..];
      RawTextStaysRaw(rest);
      RawStaysRaw(s[0]);
      assert s == [s[0]] + rest;
      assert forall i :: 0 <= i < |rest| ==> rest[i] == s[i + 1];
      if Escape(s) == s {
        assert |EscapeChar(s[0])| == 1;
        assert EscapeChar(s[0]) == Escape(s)[..1] == [s[0]];
        assert Escape(rest) == Escape(s)[1..] == rest;
      }
    }
  }

  // ---- numbers ----

  lemma NatTextSnoc(n: nat, d: nat)
    requires n > 0 && d < 10
    ensures NatText(10 * n + d) == NatText(n) + [0x30 + d]
  {
  }

  lemma DigitsSnoc(front: Text, last: CodePoint)
    requires AllDigits(front) && IsDigit(last)
    ensures AllDigits(front + [last]) && DigitsValue(front + [last]) == 10 * DigitsValue(front) + (last - 0x30)
  {
    var t := front + [last];
    assert t[..|t| - 1] == front && t[|t| - 1] == last;
  }

  lemma OneDigit(c: CodePoint)
    requires IsDigit(c)
    ensures AllDigits([c]) && DigitsValue([c]) == c - 0x30 && NatText(c - 0x30) == [c]
  {
    assert [c][..0] == [];
  }

  /** The digits of `n`, and no zero in front unless `n` is zero. */
  predicate Writes(t: Text, n: nat) { t == NatText(n) && AllDigits(t) && (n == 0 ==> t == [0x30]) }

  lemma AppendedDigit(front: Text, n: nat, last: CodePoint)
    requires Writes(front, n) && n > 0 && IsDigit(last)
    ensures Writes(front + [last], 10 * n + (last - 0x30))
  {
    NatTextSnoc(n, last - 0x30);
  }

  lemma {:induction false} DigitsReadBack(t: Text, n: nat)
    requires t != [] && AllDigits(t) && (t[0] == 0x30 ==> |t| == 1) && n == DigitsValue(t)
    ensures Writes(t, n) && (n == 0 ==> t[0] == 0x30)
    decreases |t|
  {
    var front, last := t[..|t| - 1], t[|t| - 1];
    assert IsDigit(last) && t == front + [last];
    if |t| == 1 {
      assert t == [last];
      OneDigit(last);
    } else {
      var m := DigitsValue(front);
      assert front[0] == t[0];
      DigitsReadBack(front, m);
      AppendedDigit(front, m, last);
      DigitsSnoc(front, last);
    }
  }

  lemma NatIsShortest(s: Text)
    requires ParseNat(s).Ok?
    ensures ParseNat(s).value.0 >= 0 && Reads(s, ParseNat(s).value.1, NatText(ParseNat(s).value.0))
  {
    if s[0] == 0x30 {
      ReadsExactly(s, 1);
      assert s[..1] == [0x30] == NatText(0);
    } else {
      var n := DigitRun(s);
      assert s[..n][0] == s[0];
      DigitsReadBack(s[..n], DigitsValue(s[..n]));
      ReadsExactly(s, n);
    }
  }

  lemma IntIsShortest(s: Text)
    requires ParseInt(s).Ok?
    ensures Reads(s, ParseInt(s).value.1, IntText(ParseInt(s).value.0))
  {
    if s != [] && s[0] == 0x2D {
      var (n, rest) := ParseNat(s[1..]).value;
      NatIsShortest(s[1..]);
      ReadsOneThen(s, rest, NatText(n));
      if n == 0 {
        assert |s[..|s| - |rest|]| >= 2;
      }
    } else {
      NatIsShortest(s);
    }
  }

  // ---- values ----

  lemma ScalarIsShortest(s: Text)
    requires s != [] && ParseScalar(s).Ok?
    ensures Reads(s, ParseScalar(s).value.1, Print(ParseScalar(s).value.0))
  {
    if s[0] == QUOTE {
      var (cs, rest) := ParseChars(s[1..]).value;
      CharsAreShortest(s[1..]);
      ReadsOneThen(s, rest, Escape(cs) + [QUOTE]);
      Associate([QUOTE], Escape(cs), [QUOTE]);
    } else if NULL_TEXT <= s || TRUE_TEXT <= s {
      ReadsExactly(s, 4);
    } else if FALSE_TEXT <= s {
      ReadsExactly(s, 5);
    } else {
      IntIsShortest(s);
    }
  }

  lemma {:induction false} ValueIsShortest(text: Text)
    requires ParseValue(text).Ok?
    ensures Reads(text, ParseValue(text).value.1, Print(ParseValue(text).value.0))
    decreases |text|, 4
  {
    var s := SkipSpace(text);
    var (v, rest) := ParseValue(text).value;
    if s[0] == LBRACKET {
      ArrayIsShortest(s[1..]);
      ReadsOneThen(s, rest, PrintItems(v.items) + [RBRACKET]);
      Associate([LBRACKET], PrintItems(v.items), [RBRACKET]);
    } else if s[0] == LBRACE {
      ObjectIsShortest(s[1..]);
      ReadsOneThen(s, rest, PrintMembers(v.members) + [RBRACE]);
      Associate([LBRACE], PrintMembers(v.members), [RBRACE]);
    } else {
      ScalarIsShortest(s);
    }
    ReadsAfterSpace(text, rest, Print(v));
  }

  lemma {:induction false} ArrayIsShortest(s: Text)
    requires ParseArray(s).Ok?
    ensures ParseArray(s).value.0.Arr?
    ensures Reads(s, ParseArray(s).value.1, PrintItems(ParseArray(s).value.0.items) + [RBRACKET])
    decreases |s|, 6
  {
    var t := SkipSpace(s);
    var (v, rest) := ParseArray(s).value;
    if t != [] && t[0] == RBRACKET {
      ReadsExactly(t, 1);
      assert t[..1] == [RBRACKET] == PrintItems([]) + [RBRACKET];
    } else {
      ItemsAreShortest(t);
    }
    ReadsAfterSpace(s, rest, PrintItems(v.items) + [RBRACKET]);
  }

  lemma {:induction false} ObjectIsShortest(s: Text)
    requires ParseObject(s).Ok?
    ensures ParseObject(s).value.0.Obj?
    ensures Reads(s, ParseObject(s).value.1, PrintMembers(ParseObject(s).value.0.members) + [RBRACE])
    decreases |s|, 6
  {
    var t := SkipSpace(s);
    var (v, rest) := ParseObject(s).value;
    if t != [] && t[0] == RBRACE {
      ReadsExactly(t, 1);
      assert t[..1] == [RBRACE] == PrintMembers([]) + [RBRACE];
    } else {
      MembersAreShortest(t);
    }
    ReadsAfterSpace(s, rest, PrintMembers(v.members) + [RBRACE]);
  }

  /** A separator or a closing bracket, after white space. */
  lemma ReadsMark(s: Text, rest: Text, best: Text)
    requires SkipSpace(s) != [] && Reads(SkipSpace(s)[1..], rest, best)
    ensures Reads(s, rest, [SkipSpace(s)[0]] + best)
  {
    ReadsOneThen(SkipSpace(s), rest, best);
    ReadsAfterSpace(s, rest, [SkipSpace(s)[0]] + best);
  }

  lemma ReadsClose(s: Text)
    requires SkipSpace(s) != []
    ensures Reads(s, SkipSpace(s)[1..], [SkipSpace(s)[0]])
  {
    ReadsExactly(SkipSpace(s)[1..], 0);
    ReadsMark(s, SkipSpace(s)[1..], []);
    assert [SkipSpace(s)[0]] + [] == [SkipSpace(s)[0]];
  }

  lemma {:induction false} ItemsAreShortest(text: Text)
    requires ParseItems(text).Ok?
    ensures ParseItems(text).value.0 != []
    ensures Reads(text, ParseItems(text).value.1, PrintItems(ParseItems(text).value.0) + [RBRACKET])
    decreases |text|, 5
  {
    var (v, mid) := ParseValue(text).value;
    ValueIsShortest(text);
    var t := SkipSpace(mid);
    var (all, rest) := ParseItems(text).value;
    if t[0] == RBRACKET {
      ReadsClose(mid);
      ReadsThen(text, mid, rest, Print(v), [RBRACKET]);
      assert all == [v];
    } else {
      ItemsAreShortest(t[1..]);
      var vs := ParseItems(t[1..]).value.0;
      ReadsMark(mid, rest, PrintItems(vs) + [RBRACKET]);
      ReadsThen(text, mid, rest, Print(v), [COMMA] + (PrintItems(vs) + [RBRACKET]));
      PrintItemsCons(v, vs);
    }
  }

  lemma PrintItemsCons(v: Json, vs: seq<Json>)
    requires vs != []
    ensures Print(v) + ([COMMA] + (PrintItems(vs) + [RBRACKET])) == PrintItems([v] + vs) + [RBRACKET]
  {
    assert ([v] + vs)[1..] == vs;
  }

  lemma MemberIsShortest(text: Text)
    requires ParseMembers(text).Ok?
    requires var c := SkipSpace(ParseChars(SkipSpace(text)[1..]).value.1);
      Reads(c[1..], ParseValue(c[1..]).value.1, Print(ParseValue(c[1..]).value.0))
    ensures var (key, afterKey) := ParseChars(SkipSpace(text)[1..]).value;
      var (v, rest) := ParseValue(SkipSpace(afterKey)[1..]).value;
      Reads(text, rest, PrintMember(Member(key, v)))
  {
    var s := SkipSpace(text);
    var (key, afterKey) := ParseChars(s[1..]).value;
    var (v, rest) := ParseValue(SkipSpace(afterKey)[1..]).value;
    CharsAreShortest(s[1..]);
    ReadsMark(text, afterKey, Escape(key) + [QUOTE]);
    ReadsMark(afterKey, rest, Print(v));
    ReadsThen(text, afterKey, rest, [QUOTE] + (Escape(key) + [QUOTE]), [COLON] + Print(v));
    Associate([QUOTE], Escape(key), [QUOTE]);
    Associate(PrintString(key), [COLON], Print(v));
  }

  lemma {:induction false} MembersAreShortest(text: Text)
    requires ParseMembers(text).Ok?
    ensures ParseMembers(text).value.0 != []
    ensures Reads(text, ParseMembers(text).value.1, PrintMembers(ParseMembers(text).value.0) + [RBRACE])
    decreases |text|, 5
  {
    var (key, afterKey) := ParseChars(SkipSpace(text)[1..]).value;
    var c := SkipSpace(afterKey);
    var (v, mid) := ParseValue(c[1..]).value;
    ValueIsShortest(c[1..]);
    MemberIsShortest(text);
    var t, m := SkipSpace(mid), Member(key, v);
    var (all, rest) := ParseMembers(text).value;
    if t[0] == RBRACE {
      ReadsClose(mid);
      ReadsThen(text, mid, rest, PrintMember(m), [RBRACE]);
      assert all == [m];
    } else {
      MembersAreShortest(t[1..]);
      var ms := ParseMembers(t[1..]).value.0;
      ReadsMark(mid, rest, PrintMembers(ms) + [RBRACE]);
      ReadsThen(text, mid, rest, PrintMember(m), [COMMA] + (PrintMembers(ms) + [RBRACE]));
      PrintMembersCons(m, ms);
    }
  }

  lemma PrintMembersCons(m: Member, ms: seq<Member>)
    requires ms != []
    ensures PrintMember(m) + ([COMMA] + (PrintMembers(ms) + [RBRACE])) == PrintMembers([m] + ms) + [RBRACE]
  {
    assert ([m] + ms)[1..] == ms;
  }

  /** Of all texts a parser reads as a value the printed one is the shortest, and any other of its
      length differs from it in upper-case hexadecimal letters alone. */
  lemma PrintIsShortest(t: Text)
    requires Loads(t).Ok?
    ensures Shortest(Print(Loads(t).value), t)
  {
    var (v, rest) := ParseValue(t).value;
    ValueIsShortest(t);
    ReadsSpace(rest);
    ReadsThen(t, rest, [], Print(v), []);
    assert Print(v) + [] == Print(v) && t[..|t|] == t;
  }

  /** The same of the canonical text among those with its keys in order. */
  lemma CanonicalIsShortest(v: Json, t: Text)
    requires Loads(t) == Ok(Normalize(v))
    ensures Shortest(Dumps(v), t)
  {
    PrintIsShortest(t);
    DumpsPrintsNormalForm(v);
  }

  lemma ShortestAntisymmetric(a: Text, b: Text)
    requires Shortest(a, b) && Shortest(b, a)
    ensures a == b
  {
    assert forall i :: 0 <= i < |a| ==> SameButCase(a[i], b[i]) && SameButCase(b[i], a[i]);
  }

  /** The canonical text is determined by the reader alone: it is the one text that is read as the
      sorted value and is the shortest of them all. */
  lemma CanonicalTextIsDetermined(v: Json, d: Text)
    requires WellFormed(v)
    ensures d == Dumps(v) <==>
      Loads(d) == Ok(Normalize(v)) && forall t :: Loads(t) == Ok(Normalize(v)) ==> Shortest(d, t)
  {
    NormalizeMeans(v);
    DumpsPrintsNormalForm(v);
    PrintReadsBack(Normalize(v));
    forall t | Loads(t) == Ok(Normalize(v)) ensures Shortest(Dumps(v), t) {
      CanonicalIsShortest(v, t);
    }
    if Loads(d) == Ok(Normalize(v)) && forall t :: Loads(t) == Ok(Normalize(v)) ==> Shortest(d, t) {
      ShortestAntisymmetric(d, Dumps(v));
    }
  }
}
