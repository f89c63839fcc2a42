/** The reading side: Python's `json.loads` on the grammar of RFC 8259 without
    fractions and exponents, with the duplicate-property hook of the strict
    parser, and the proof that it undoes the printer. */
module JsonParser {
  import opened Texts
  import opened JsonValues
  import opened JsonPrinter

  datatype ParseError = InvalidMessageSize | InvalidJson | DuplicateProperty | ObjectRequired

  datatype Result<+R> = Ok(value: R) | Err(error: ParseError) {
    predicate IsFailure() { Err? }
    function PropagateFailure<U>(): Result<U>
      requires Err?
    { Err(error) }
    function Extract(): R
      requires Ok?
    { value }
  }

  function SkipSpace(s: Text): (r: Text)
    ensures |r| <= |s|
    ensures s != [] && s[0] !in {0x20, 0x09, 0x0A, 0x0D} ==> r == s
  {
    if s != [] && s[0] in {0x20, 0x09, 0x0A, 0x0D} then SkipSpace(s[1..]) else s
  }

  function HexValue(c: CodePoint): (r: Option<int>)
    ensures r.Some? ==> 0 <= r.value < 16
  {
    if 0x30 <= c <= 0x39 then Some(c - 0x30)
    else if 0x61 <= c <= 0x66 then Some(c - 0x61 + 10)
    else if 0x41 <= c <= 0x46 then Some(c - 0x41 + 10)
    else None
  }

  function Hex4(s: Text): (r: Option<int>)
    requires |s| == 4
    ensures r.Some? ==> 0 <= r.value < 0x10000
  {
    var a :- HexValue(s[0]);
    var b :- HexValue(s[1]);
    var c :- HexValue(s[2]);
    var d :- HexValue(s[3]);
    Some(((a * 16 + b) * 16 + c) * 16 + d)
  }

  function SimpleEscape(c: CodePoint): Option<CodePoint> {
    if c in {QUOTE, BACKSLASH, 0x2F} then Some(c)
    else if c == 0x62 then Some(0x08)
    else if c == 0x66 then Some(0x0C)
    else if c == 0x6E then Some(0x0A)
    else if c == 0x72 then Some(0x0D)
    else if c == 0x74 then Some(0x09)
    else None
  }

  /** One `\uXXXX` escape at `s[0]`; a high surrogate takes a low one that follows. */
  function ParseUnicodeEscape(s: Text): (r: Result<(CodePoint, Text)>)
    requires |s| >= 2
    ensures r.Ok? ==> |r.value.1| < |s|
  {
    if |s| < 6 then Err(InvalidJson)
    else match Hex4(s[2..6])
      case None => Err(InvalidJson)
      case Some(hi) =>
        if 0xD800 <= hi < 0xDC00 && |s| >= 12 && s[6] == BACKSLASH && s[7] == 0x75
           && Hex4(s[8..12]).Some? && 0xDC00 <= Hex4(s[8..12]).value < 0xE000
        then Ok((0x10000 + (hi - 0xD800) * 0x400 + (Hex4(s[8..12]).value - 0xDC00), s[12..]))
        else Ok((hi, s[6..]))
  }

  /** The rest of a string whose opening quote has been read. */
  function ParseChars(s: Text): (r: Result<(Text, Text)>)
    ensures r.Ok? ==> |r.value.1| < |s|
    decreases |s|
  {
    if s == [] then Err(InvalidJson)
    else if s[0] == QUOTE then Ok(([], s[1..]))
    else if s[0] == BACKSLASH then
      if |s| < 2 then Err(InvalidJson)
      else if s[1] == 0x75 then
        var (c, rest) :- ParseUnicodeEscape(s);
        var (cs, rest') :- ParseChars(rest);
        Ok(([c] + cs, rest'))
      else match SimpleEscape(s[1])
        case None => Err(InvalidJson)
        case Some(c) =>
          var (cs, rest) :- ParseChars(s[2..]);
          Ok(([c] + cs, rest))
    else if s[0] < 0x20 then Err(InvalidJson)
    else
      var (cs, rest) :- ParseChars(s[1..]);
      Ok(([s[0]] + cs, rest))
  }

  function DigitRun(s: Text): (n: nat)
    ensures n <= |s| && AllDigits(s[..n])
    ensures n < |s| ==> !IsDigit(s[n])
  {
    if s == [] || !IsDigit(s[0]) then 0
    else
      var n := DigitRun(s[1..]);
      assert s[..n + 1] == [s[0]] + s[1..][..n];
      n + 1
  }

  function ParseNat(s: Text): (r: Result<(int, Text)>)
    ensures r.Ok? ==> |r.value.1| < |s|
  {
    if s == [] || !IsDigit(s[0]) then Err(InvalidJson)
    else if s[0] == 0x30 then Ok((0, s[1..]))
    else
      var n := DigitRun(s);
      Ok((DigitsValue(s[..n]), s[n..]))
  }

  function ParseInt(s: Text): (r: Result<(int, Text)>)
    ensures r.Ok? ==> |r.value.1| < |s|
  {
    if s != [] && s[0] == 0x2D then
      var (n, rest) :- ParseNat(s[1..]);
      Ok((-n, rest))
    else
      ParseNat(s)
  }

  /** One value, with leading insignificant whitespace. */
  function ParseValue(text: Text): (r: Result<(Json, Text)>)
    ensures r.Ok? ==> |r.value.1| < |text|
    decreases |text|, 4
  {
    var s := SkipSpace(text);
    if s == [] then Err(InvalidJson)
    else if s[0] == LBRACKET then ParseArray(s[1..])
    else if s[0] == LBRACE then ParseObject(s[1..])
    else ParseScalar(s)
  }

  function ParseScalar(s: Text): (r: Result<(Json, Text)>)
    requires s != []
    ensures r.Ok? ==> |r.value.1| < |s|
  {
    if s[0] == QUOTE then
      var (cs, rest) :- ParseChars(s[1..]);
      Ok((Str(cs), rest))
    else if NULL_TEXT <= s then Ok((Null, s[4..]))
    else if TRUE_TEXT <= s then Ok((Bool(true), s[4..]))
    else if FALSE_TEXT <= s then Ok((Bool(false), s[5..]))
    else
      var (n, rest) :- ParseInt(s);
      Ok((Int(n), rest))
  }

  /** An array whose opening bracket has been read. */
  function ParseArray(s: Text): (r: Result<(Json, Text)>)
    ensures r.Ok? ==> |r.value.1| < |s|
    decreases |s|, 6
  {
    var t := SkipSpace(s);
    if t != [] && t[0] == RBRACKET then Ok((Arr([]), t[1..]))
    else
      var (items, rest) :- ParseItems(t);
      Ok((Arr(items), rest))
  }

  /** An object whose opening brace has been read; a repeated property is refused. */
  function ParseObject(s: Text): (r: Result<(Json, Text)>)
    ensures r.Ok? ==> |r.value.1| < |s|
    decreases |s|, 6
  {
    var t := SkipSpace(s);
    if t != [] && t[0] == RBRACE then Ok((Obj([]), t[1..]))
    else
      var (ms, rest) :- ParseMembers(t);
      if DistinctKeys(ms) then Ok((Obj(ms), rest)) else Err(DuplicateProperty)
  }

  /** Array elements up to and including the closing bracket. */
  function ParseItems(text: Text): (r: Result<(seq<Json>, Text)>)
    ensures r.Ok? ==> |r.value.1| < |text|
    decreases |text|, 5
  {
    var (v, rest) :- ParseValue(text);
    var t := SkipSpace(rest);
    if t == [] then Err(InvalidJson)
    else if t[0] == RBRACKET then Ok(([v], t[1..]))
    else if t[0] == COMMA then
      var (vs, rest') :- ParseItems(t[1..]);
      Ok(([v] + vs, rest'))
    else Err(InvalidJson)
  }

  /** Object members up to and including the closing brace. */
  function ParseMembers(text: Text): (r: Result<(seq<Member>, Text)>)
    ensures r.Ok? ==> |r.value.1| < |text|
    decreases |text|, 5
  {
    var s := SkipSpace(text);
    if s == [] || s[0] != QUOTE then Err(InvalidJson)
    else
      var (key, afterKey) :- ParseChars(s[1..]);
      var c := SkipSpace(afterKey);
      if c == [] || c[0] != COLON then Err(InvalidJson)
      else
        var (v, rest) :- ParseValue(c[1..]);
        var t := SkipSpace(rest);
        if t == [] then Err(InvalidJson)
        else if t[0] == RBRACE then Ok(([Member(key, v)], t[1..]))
        else if t[0] == COMMA then
          var (ms, rest') :- ParseMembers(t[1..]);
          Ok(([Member(key, v)] + ms, rest'))
        else Err(InvalidJson)
  }

  /** A whole document: one value and nothing after it but whitespace. */
  function Loads(text: Text): Result<Json> {
    var (v, rest) :- ParseValue(text);
    if SkipSpace(rest) == [] then Ok(v) else Err(InvalidJson)
  }

  // ---- the parser undoes the printer ----

  lemma RawReadsBack(c: CodePoint, k: Text)
    requires ParseChars(k).Ok? && EscapeChar(c) == [c]
    ensures ParseChars([c] + k) == Ok(([c] + ParseChars(k).value.0, ParseChars(k).value.1))
  {
    assert ([c] + k)[1..] == k;
  }

  lemma SimpleReadsBack(c: CodePoint, k: Text)
    requires ParseChars(k).Ok? && |EscapeChar(c)| == 2
    ensures ParseChars(EscapeChar(c) + k) == Ok(([c] + ParseChars(k).value.0, ParseChars(k).value.1))
  {
    assert (EscapeChar(c) + k)[2..] == k;
    assert SimpleEscape(EscapeChar(c)[1]) == Some(c);
  }

  lemma ControlReadsBack(c: CodePoint, k: Text)
    requires |EscapeChar(c)| == 6
    ensures ParseUnicodeEscape(EscapeChar(c) + k) == Ok((c, k))
  {
    var e := EscapeChar(c);
    var s := e + k;
    assert s[2..6] == e[2..6] && s[6..] == k;
    assert HexValue(HexDigit(c / 16)) == Some(c / 16) && HexValue(HexDigit(c % 16)) == Some(c % 16);
    assert Hex4(e[2..6]) == Some(c);
  }

  lemma EscapeReadsBack(c: CodePoint, k: Text)
    requires ParseChars(k).Ok?
    ensures ParseChars(EscapeChar(c) + k)
         == Ok(([c] + ParseChars(k).value.0, ParseChars(k).value.1))
  {
    if EscapeChar(c) == [c] {
      RawReadsBack(c, k);
    } else if |EscapeChar(c)| == 2 {
      SimpleReadsBack(c, k);
    } else {
      ControlReadsBack(c, k);
    }
  }

  lemma {:induction false} StringReadsBack(s: Text, k: Text)
    ensures ParseChars(Escape(s) + [QUOTE] + k) == Ok((s, k))
  {
    if s == [] {
      assert (Escape(s) + [QUOTE] + k)[1..] == k;
    } else {
      var tail := Escape(s[1..]) + [QUOTE] + k;
      StringReadsBack(s[1..], k);
      EscapeReadsBack(s[0], tail);
      assert Escape(s) + [QUOTE] + k == EscapeChar(s[0]) + tail;
      assert s == [s[0]] + s[1..];
    }
  }

  lemma {:induction false} DigitRunIs(t: Text, k: Text)
    requires AllDigits(t) && (k == [] || !IsDigit(k[0]))
    ensures DigitRun(t + k) == |t|
  {
    if t == [] {
      assert t + k == k;
    } else {
      assert (t + k)[1..] == t[1..] + k;
      DigitRunIs(t[1..], k);
    }
  }

  lemma NatReadsBack(n: nat, k: Text)
    requires k == [] || !IsDigit(k[0])
    ensures ParseNat(NatText(n) + k) == Ok((n, k))
  {
    NatTextValue(n);
    DigitRunIs(NatText(n), k);
    var s := NatText(n) + k;
    assert s[..|NatText(n)|] == NatText(n) && s[|NatText(n)|..] == k;
  }

  lemma IntReadsBack(n: int, k: Text)
    requires k == [] || !IsDigit(k[0])
    ensures ParseInt(IntText(n) + k) == Ok((n, k))
  {
    if n < 0 {
      var t := NatText(-n);
      NatReadsBack(-n, k);
      assert ([0x2D] + t) + k == [0x2D] + (t + k);
      assert ([0x2D] + (t + k))[1..] == t + k;
    } else {
      NatReadsBack(n, k);
      assert IsDigit(NatText(n)[0]);
    }
  }

  predicate Delimited(k: Text) { k == [] || !IsDigit(k[0]) }

  predicate IsScalar(v: Json) { !v.Arr? && !v.Obj? }

  /** How a printed value starts decides which branch reads it. */
  lemma PrintStarts(v: Json)
    ensures Print(v) != [] && Print(v)[0] !in {0x20, 0x09, 0x0A, 0x0D, RBRACKET, RBRACE}
    ensures IsScalar(v) ==> Print(v)[0] !in {LBRACKET, LBRACE}
  {
    if v.Int? && v.n >= 0 {
      assert IsDigit(NatText(v.n)[0]);
    }
  }

  lemma LiteralReadsBack(v: Json, k: Text)
    requires v.Null? || v.Bool?
    ensures ParseScalar(Print(v) + k) == Ok((v, k))
  {
    var s := Print(v) + k;
    assert Print(v) <= s && s[|Print(v)|..] == k;
  }

  lemma IntScalarReadsBack(n: int, k: Text)
    requires Delimited(k)
    ensures ParseScalar(Print(Int(n)) + k) == Ok((Int(n), k))
  {
    var s := Print(Int(n)) + k;
    IntReadsBack(n, k);
    assert s[0] == IntText(n)[0];
    assert n >= 0 ==> IsDigit(s[0]);
  }

  lemma ScalarReadsBack(v: Json, k: Text)
    requires IsScalar(v) && Delimited(k)
    ensures ParseScalar(Print(v) + k) == Ok((v, k))
  {
    var s := Print(v) + k;
    match v
    case Int(n) => IntScalarReadsBack(n, k);
    case Str(cs) =>
      assert s[1..] == Escape(cs) + [QUOTE] + k;
      StringReadsBack(cs, k);
    case _ => LiteralReadsBack(v, k);
  }

  lemma DispatchArray(t: Text)
    ensures ParseValue([LBRACKET] + t) == ParseArray(t)
  {
    assert ([LBRACKET] + t)[1..] == t;
  }

  lemma DispatchObject(t: Text)
    ensures ParseValue([LBRACE] + t) == ParseObject(t)
  {
    assert ([LBRACE] + t)[1..] == t;
  }

  lemma Bracketed(open: CodePoint, t: Text, close: CodePoint, k: Text)
    ensures [open] + t + [close] + k == [open] + (t + [close] + k)
  {
  }

  lemma DispatchScalar(v: Json, k: Text)
    requires IsScalar(v) && Delimited(k)
    ensures ParseValue(Print(v) + k) == Ok((v, k))
  {
    var s := Print(v) + k;
    PrintStarts(v);
    assert s[0] == Print(v)[0];
    assert SkipSpace(s) == s;
    ScalarReadsBack(v, k);
  }

  lemma {:induction false} ValueReadsBack(v: Json, k: Text)
    requires WellFormed(v) && Delimited(k)
    ensures ParseValue(Print(v) + k) == Ok((v, k))
    decreases v, 2
  {
    match v
    case Arr(items) =>
      var t := PrintItems(items) + [RBRACKET] + k;
      ArrayReadsBack(items, k);
      DispatchArray(t);
      Bracketed(LBRACKET, PrintItems(items), RBRACKET, k);
    case Obj(ms) =>
      var t := PrintMembers(ms) + [RBRACE] + k;
      ObjectReadsBack(ms, k);
      DispatchObject(t);
      Bracketed(LBRACE, PrintMembers(ms), RBRACE, k);
    case _ => DispatchScalar(v, k);
  }

  lemma {:induction false} ArrayReadsBack(items: seq<Json>, k: Text)
    requires forall i :: 0 <= i < |items| ==> WellFormed(items[i])
    ensures ParseArray(PrintItems(items) + [RBRACKET] + k) == Ok((Arr(items), k))
    decreases items, 1
  {
    var s := PrintItems(items) + [RBRACKET] + k;
    if items == [] {
      assert s == [RBRACKET] + k;
    } else {
      ItemsReadBack(items, k);
      PrintStarts(items[0]);
      assert s[0] == Print(items[0])[0];
    }
  }

  lemma {:induction false} ObjectReadsBack(ms: seq<Member>, k: Text)
    requires DistinctKeys(ms) && forall i :: 0 <= i < |ms| ==> WellFormed(ms[i].value)
    ensures ParseObject(PrintMembers(ms) + [RBRACE] + k) == Ok((Obj(ms), k))
    decreases ms, 1
  {
    var s := PrintMembers(ms) + [RBRACE] + k;
    if ms == [] {
      assert s == [RBRACE] + k;
    } else {
      MembersReadBack(ms, k);
      assert s[0] == QUOTE;
    }
  }

  lemma LastItem(text: Text, v: Json, k: Text)
    requires ParseValue(text) == Ok((v, [RBRACKET] + k))
    ensures ParseItems(text) == Ok(([v], k))
  {
    assert ([RBRACKET] + k)[1..] == k;
  }

  lemma NextItem(text: Text, v: Json, next: Text, vs: seq<Json>, k: Text)
    requires ParseValue(text) == Ok((v, [COMMA] + next)) && ParseItems(next) == Ok((vs, k))
    ensures ParseItems(text) == Ok(([v] + vs, k))
  {
    assert ([COMMA] + next)[1..] == next;
  }

  function ItemsTail(items: seq<Json>, k: Text): Text
    requires items != []
  {
    if |items| == 1 then [RBRACKET] + k else [COMMA] + (PrintItems(items[1..]) + [RBRACKET] + k)
  }

  lemma ItemsSplit(items: seq<Json>, k: Text)
    requires items != []
    ensures PrintItems(items) + [RBRACKET] + k == Print(items[0]) + ItemsTail(items, k)
  {
  }

  lemma {:induction false} ItemsReadBack(items: seq<Json>, k: Text)
    requires items != [] && forall i :: 0 <= i < |items| ==> WellFormed(items[i])
    ensures ParseItems(PrintItems(items) + [RBRACKET] + k) == Ok((items, k))
    decreases items, 0
  {
    var text := Print(items[0]) + ItemsTail(items, k);
    ItemsSplit(items, k);
    ValueReadsBack(items[0], ItemsTail(items, k));
    if |items| == 1 {
      LastItem(text, items[0], k);
      assert items == [items[0]];
    } else {
      ItemsReadBack(items[1..], k);
      NextItem(text, items[0], PrintItems(items[1..]) + [RBRACKET] + k, items[1..], k);
      assert items == [items[0]] + items[1..];
    }
  }

  lemma LastMember(text: Text, m: Member, afterKey: Text, k: Text)
    requires ParseChars(text) == Ok((m.key, [COLON] + afterKey))
    requires ParseValue(afterKey) == Ok((m.value, [RBRACE] + k))
    ensures ParseMembers([QUOTE] + text) == Ok(([m], k))
  {
    assert ([QUOTE] + text)[1..] == text;
    assert ([COLON] + afterKey)[1..] == afterKey;
    assert ([RBRACE] + k)[1..] == k;
  }

  lemma NextMember(text: Text, m: Member, afterKey: Text, next: Text, ms: seq<Member>, k: Text)
    requires ParseChars(text) == Ok((m.key, [COLON] + afterKey))
    requires ParseValue(afterKey) == Ok((m.value, [COMMA] + next))
    requires ParseMembers(next) == Ok((ms, k))
    ensures ParseMembers([QUOTE] + text) == Ok(([m] + ms, k))
  {
    assert ([QUOTE] + text)[1..] == text;
    assert ([COLON] + afterKey)[1..] == afterKey;
    assert ([COMMA] + next)[1..] == next;
  }

  function MembersTail(ms: seq<Member>, k: Text): Text
    requires ms != []
  {
    if |ms| == 1 then [RBRACE] + k else [COMMA] + (PrintMembers(ms[1..]) + [RBRACE] + k)
  }

  lemma MembersSplit(ms: seq<Member>, k: Text)
    requires ms != []
    ensures PrintMembers(ms) + [RBRACE] + k == PrintMember(ms[0]) + MembersTail(ms, k)
  {
  }

  lemma MemberSplit(m: Member, tail: Text)
    ensures PrintMember(m) + tail
         == [QUOTE] + (Escape(m.key) + [QUOTE] + ([COLON] + (Print(m.value) + tail)))
  {
  }

  lemma MembersStart(ms: seq<Member>, k: Text)
    requires ms != []
    ensures PrintMembers(ms) + [RBRACE] + k
         == [QUOTE] + (Escape(ms[0].key) + [QUOTE] + ([COLON] + (Print(ms[0].value) + MembersTail(ms, k))))
  {
    MembersSplit(ms, k);
    MemberSplit(ms[0], MembersTail(ms, k));
  }

  lemma LastMemberReadsBack(ms: seq<Member>, k: Text)
    requires |ms| == 1
    requires var tail := MembersTail(ms, k); ParseValue(Print(ms[0].value) + tail) == Ok((ms[0].value, tail))
    ensures ParseMembers(PrintMembers(ms) + [RBRACE] + k) == Ok((ms, k))
  {
    var m, afterKey := ms[0], Print(ms[0].value) + MembersTail(ms, k);
    MembersStart(ms, k);
    StringReadsBack(m.key, [COLON] + afterKey);
    LastMember(Escape(m.key) + [QUOTE] + ([COLON] + afterKey), m, afterKey, k);
    assert ms == [m];
  }

  lemma NextMemberReadsBack(ms: seq<Member>, k: Text)
    requires |ms| > 1
    requires var tail := MembersTail(ms, k); ParseValue(Print(ms[0].value) + tail) == Ok((ms[0].value, tail))
    requires ParseMembers(PrintMembers(ms[1..]) + [RBRACE] + k) == Ok((ms[1..], k))
    ensures ParseMembers(PrintMembers(ms) + [RBRACE] + k) == Ok((ms, k))
  {
    var m, afterKey := ms[0], Print(ms[0].value) + MembersTail(ms, k);
    MembersStart(ms, k);
    StringReadsBack(m.key, [COLON] + afterKey);
    NextMember(Escape(m.key) + [QUOTE] + ([COLON] + afterKey), m, afterKey, PrintMembers(ms[1..]) + [RBRACE] + k,
               ms[1..], k);
    assert ms == [m] + ms[1..];
  }

  lemma {:induction false} MembersReadBack(ms: seq<Member>, k: Text)
    requires ms != [] && forall i :: 0 <= i < |ms| ==> WellFormed(ms[i].value)
    ensures ParseMembers(PrintMembers(ms) + [RBRACE] + k) == Ok((ms, k))
    decreases ms, 0
  {
    ValueReadsBack(ms[0].value, MembersTail(ms, k));
    if |ms| == 1 {
      LastMemberReadsBack(ms, k);
    } else {
      MembersReadBack(ms[1..], k);
      NextMemberReadsBack(ms, k);
    }
  }

  /** Every float-free value is recovered exactly from its printed form. */
  lemma PrintReadsBack(v: Json)
    requires WellFormed(v)
    ensures Loads(Print(v)) == Ok(v)
  {
    ValueReadsBack(v, []);
    assert Print(v) + [] == Print(v);
  }
}
