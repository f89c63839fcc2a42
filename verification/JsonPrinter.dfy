/** `json.dumps` with `ensure_ascii=False` and compact separators. */
module JsonPrinter {
  import opened Texts
  import opened JsonValues

  const QUOTE: CodePoint := 0x22
  const BACKSLASH: CodePoint := 0x5C
  const COMMA: CodePoint := 0x2C
  const COLON: CodePoint := 0x3A
  const LBRACKET: CodePoint := 0x5B
  const RBRACKET: CodePoint := 0x5D
  const LBRACE: CodePoint := 0x7B
  const RBRACE: CodePoint := 0x7D
  const NULL_TEXT: Text := [0x6E, 0x75, 0x6C, 0x6C]
  const TRUE_TEXT: Text := [0x74, 0x72, 0x75, 0x65]
  const FALSE_TEXT: Text := [0x66, 0x61, 0x6C, 0x73, 0x65]

  function HexDigit(n: int): CodePoint
    requires 0 <= n < 16
  {
    if n < 10 then 0x30 + n else 0x61 + (n - 10)
  }

  /** Only the quote, the backslash and the C0 controls are escaped. */
  function EscapeChar(c: CodePoint): (t: Text)
    ensures t != []
  {
    if c == QUOTE then [BACKSLASH, QUOTE]
    else if c == BACKSLASH then [BACKSLASH, BACKSLASH]
    else if c == 0x08 then [BACKSLASH, 0x62]
    else if c == 0x0C then [BACKSLASH, 0x66]
    else if c == 0x0A then [BACKSLASH, 0x6E]
    else if c == 0x0D then [BACKSLASH, 0x72]
    else if c == 0x09 then [BACKSLASH, 0x74]
    else if c < 0x20 then [BACKSLASH, 0x75, 0x30, 0x30, HexDigit(c / 16), HexDigit(c % 16)]
    else [c]
  }

  function Escape(s: Text): Text {
    if s == [] then [] else EscapeChar(s[0]) + Escape(s[1..])
  }

  function PrintString(s: Text): Text {
    [QUOTE] + Escape(s) + [QUOTE]
  }

  /** The printer without `sort_keys`: members in the order the dict holds them. */
  function Print(v: Json): Text {
    match v
    case Null => NULL_TEXT
    case Bool(b) => if b then TRUE_TEXT else FALSE_TEXT
    case Int(n) => IntText(n)
    case Str(s) => PrintString(s)
    case Arr(items) => [LBRACKET] + PrintItems(items) + [RBRACKET]
    case Obj(ms) => [LBRACE] + PrintMembers(ms) + [RBRACE]
  }

  function PrintItems(items: seq<Json>): Text {
    if items == [] then []
    else if |items| == 1 then Print(items[0])
    else Print(items[0]) + [COMMA] + PrintItems(items[1..])
  }

  function PrintMember(m: Member): Text {
    PrintString(m.key) + [COLON] + Print(m.value)
  }

  function PrintMembers(ms: seq<Member>): Text {
    if ms == [] then []
    else if |ms| == 1 then PrintMember(ms[0])
    else PrintMember(ms[0]) + [COMMA] + PrintMembers(ms[1..])
  }

  /** The printer with `sort_keys`: each dict sorts its items, then prints them. */
  function Dumps(v: Json): Text
    decreases v, 1
  {
    match v
    case Arr(items) =>
      [LBRACKET] + Join(COMMA, seq(|items|, i requires 0 <= i < |items| => Dumps(items[i]))) + [RBRACKET]
    case Obj(ms) =>
      var sorted := SortMembers(ms);
      [LBRACE]
      + Join(COMMA, seq(|sorted|, i requires 0 <= i < |sorted| =>
          assert sorted[i] in ms;
          PrintString(sorted[i].key) + [COLON] + Dumps(sorted[i].value)))
      + [RBRACE]
    case _ => Print(v)
  }

  lemma {:induction false} PrintItemsIsJoin(items: seq<Json>, parts: seq<Text>)
    requires |parts| == |items|
    requires forall i :: 0 <= i < |items| ==> parts[i] == Print(items[i])
    ensures PrintItems(items) == Join(COMMA, parts)
  {
    if |items| > 1 {
      PrintItemsIsJoin(items[1..], parts[1..]);
    }
  }

  lemma {:induction false} PrintMembersIsJoin(ms: seq<Member>, parts: seq<Text>)
    requires |parts| == |ms|
    requires forall i :: 0 <= i < |ms| ==> parts[i] == PrintMember(ms[i])
    ensures PrintMembers(ms) == Join(COMMA, parts)
  {
    if |ms| > 1 {
      PrintMembersIsJoin(ms[1..], parts[1..]);
    }
  }

  /** Sorting while printing is printing the value sorted once and for all. */
  lemma {:induction false} DumpsPrintsNormalForm(v: Json)
    ensures Dumps(v) == Print(Normalize(v))
  {
    match v
    case Arr(items) =>
      var parts := seq(|items|, i requires 0 <= i < |items| => Dumps(items[i]));
      forall i | 0 <= i < |items| ensures parts[i] == Print(Normalize(items[i])) {
        DumpsPrintsNormalForm(items[i]);
      }
      PrintItemsIsJoin(Normalize(v).items, parts);
    case Obj(ms) =>
      var sorted := SortMembers(ms);
      var n := Normalize(v).members;
      var parts := seq(|sorted|, i requires 0 <= i < |sorted| =>
          assert sorted[i] in ms;
          PrintString(sorted[i].key) + [COLON] + Dumps(sorted[i].value));
      forall i | 0 <= i < |sorted| ensures parts[i] == PrintMember(n[i]) {
        assert sorted[i] in ms;
        DumpsPrintsNormalForm(sorted[i].value);
      }
      PrintMembersIsJoin(n, parts);
    case _ =>
  }
}
