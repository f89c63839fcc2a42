/** Python's `str` as a sequence of code points, and the few string operations
    that several scripts share. Code points include the surrogates: a `str` may
    hold a lone one, and `encode("utf-8")` then raises. */
module Texts {
  import opened Sorting

  datatype Option<+T> = None | Some(value: T) {
    predicate IsFailure() { None? }
    function PropagateFailure<U>(): Option<U>
      requires None?
    { None }
    function Extract(): T
      requires Some?
    { value }
  }

  type CodePoint = c: int | 0 <= c < 0x110000
  type Text = seq<CodePoint>
  type Byte = b: int | 0 <= b < 256
  type Bytes = seq<Byte>

  /** A source literal as a text. */
  function T(s: string): (t: Text)
    ensures |t| == |s|
  {
    seq(|s|, i requires 0 <= i < |s| => s[i] as int)
  }

  /** Two literals of the same length differ as texts once one character does. */
  lemma LiteralsDiffer(a: string, b: string)
    requires a != b
    ensures T(a) != T(b)
  {
    if |a| == |b| {
      var i :| 0 <= i < |a| && a[i] != b[i];
      assert T(a)[i] != T(b)[i];
    }
  }

  /** `part in s`. */
  predicate Contains(s: Text, part: Text) {
    part <= s || (s != [] && Contains(s[1..], part))
  }

  lemma {:induction false} ContainsMeans(s: Text, part: Text)
    ensures Contains(s, part) <==> exists a, b :: s == a + part + b
  {
    if s != [] {
      ContainsMeans(s[1..], part);
    }
    if part <= s {
      assert s == [] + part + s[|part|..];
    } else if Contains(s, part) {
      var a, b :| s[1..] == a + part + b;
      assert s == ([s[0]] + a) + part + b;
    }
    if exists a, b :: s == a + part + b {
      var a, b :| s == a + part + b;
      if a == [] {
        assert s == part + b;
      } else {
        assert s[1..] == a[1..] + part + b;
      }
    }
  }

  /** `s.endswith(part)`. */
  predicate EndsWith(s: Text, part: Text) {
    |part| <= |s| && s[|s| - |part|..] == part
  }

  /** `separator.join(parts)`, for a separator of one character. */
  function Join(separator: CodePoint, parts: seq<Text>): Text {
    if parts == [] then []
    else if |parts| == 1 then parts[0]
    else parts[0] + [separator] + Join(separator, parts[1..])
  }

  /** `s.lower()`, given what it does to each character. */
  function Lower(lower: CodePoint -> Text, s: Text): Text {
    if s == [] then [] else lower(s[0]) + Lower(lower, s[1..])
  }

  lemma {:induction false} LowerAppend(lower: CodePoint -> Text, a: Text, b: Text)
    ensures Lower(lower, a + b) == Lower(lower, a) + Lower(lower, b)
  {
    if a == [] {
      assert a + b == b;
    } else {
      assert (a + b)[1..] == a[1..] + b;
      LowerAppend(lower, a[1..], b);
    }
  }

  /** The characters `str.strip()` removes. */
  predicate Whitespace(c: CodePoint) {
    0x09 <= c <= 0x0D || 0x1C <= c <= 0x20 || c in {0x85, 0xA0, 0x1680, 0x2028, 0x2029, 0x202F, 0x205F, 0x3000}
    || 0x2000 <= c <= 0x200A
  }

  // ---- `str.strip`, for any class of characters ----

  function StripLeft(s: Text, drop: CodePoint -> bool): Text {
    if s != [] && drop(s[0]) then StripLeft(s[1..], drop) else s
  }

  function StripRight(s: Text, drop: CodePoint -> bool): Text {
    if s != [] && drop(s[|s| - 1]) then StripRight(s[..|s| - 1], drop) else s
  }

  function Strip(s: Text, drop: CodePoint -> bool): Text {
    StripRight(StripLeft(s, drop), drop)
  }

  predicate Bare(s: Text, drop: CodePoint -> bool) {
    s == [] || (!drop(s[0]) && !drop(s[|s| - 1]))
  }

  lemma {:induction false} StripLeftIs(s: Text, drop: CodePoint -> bool)
    ensures var r := StripLeft(s, drop);
      |r| <= |s| && r == s[|s| - |r|..] && (r != [] ==> !drop(r[0]))
    ensures s != [] && !drop(s[0]) ==> StripLeft(s, drop) == s
  {
    if s != [] && drop(s[0]) {
      StripLeftIs(s[1..], drop);
    }
  }

  lemma {:induction false} StripRightIs(s: Text, drop: CodePoint -> bool)
    ensures var r := StripRight(s, drop); r <= s && (r != [] ==> !drop(r[|r| - 1]))
  {
    if s != [] && drop(s[|s| - 1]) {
      StripRightIs(s[..|s| - 1], drop);
    }
  }

  lemma StripIs(s: Text, drop: CodePoint -> bool)
    ensures Bare(Strip(s, drop), drop)
    ensures Bare(s, drop) ==> Strip(s, drop) == s
    ensures forall c :: c in Strip(s, drop) ==> c in s
  {
    var l := StripLeft(s, drop);
    StripLeftIs(s, drop);
    StripRightIs(l, drop);
    assert forall c :: c in l ==> c in s;
  }

  lemma StripPadded(s: Text, drop: CodePoint -> bool, x: CodePoint)
    requires drop(x) && Bare(s, drop)
    ensures Strip([x] + s + [x], drop) == s
  {
    assert ([x] + s + [x])[1..] == s + [x];
    if s == [] {
      assert StripLeft([x], drop) == StripLeft([], drop) by { assert [x][1..] == []; }
      assert [x] + s + [x] == [x, x];
    } else {
      assert StripLeft([x] + s + [x], drop) == StripLeft(s + [x], drop);
      assert StripLeft(s + [x], drop) == s + [x];
      assert (s + [x])[..|s + [x]| - 1] == s;
      assert StripRight(s + [x], drop) == StripRight(s, drop);
    }
  }

  lemma {:induction false} StripLeftEnd(s: Text, x: CodePoint, drop: CodePoint -> bool)
    requires drop(x)
    ensures StripLeft(s + [x], drop) == if StripLeft(s, drop) == [] then [] else StripLeft(s, drop) + [x]
  {
    if s == [] {
      assert s + [x] == [x] && [x][1..] == [];
      assert StripLeft([], drop) == [];
    } else {
      assert (s + [x])[1..] == s[1..] + [x];
      StripLeftEnd(s[1..], x, drop);
    }
  }

  /** What is stripped off anyway may stand at either end. */
  lemma StripEnds(s: Text, x: CodePoint, drop: CodePoint -> bool)
    requires drop(x)
    ensures Strip([x] + s, drop) == Strip(s, drop)
    ensures Strip(s + [x], drop) == Strip(s, drop)
  {
    assert ([x] + s)[1..] == s;
    StripLeftEnd(s, x, drop);
    var l := StripLeft(s, drop);
    assert (l + [x])[..|l|] == l;
  }

  // ---- the order of `str`: lexicographic by code point, a prefix first ----

  predicate TextLeq(a: Text, b: Text) {
    a == [] ||
    (b != [] && (a[0] < b[0] || (a[0] == b[0] && TextLeq(a[1..], b[1..]))))
  }

  lemma {:induction false} TextLeqTotal(a: Text, b: Text)
    ensures TextLeq(a, b) || TextLeq(b, a)
    ensures TextLeq(a, a)
  {
    if a != [] {
      TextLeqTotal(a[1..], if b == [] then [] else b[1..]);
    }
  }

  lemma {:induction false} TextLeqAntisymmetric(a: Text, b: Text)
    requires TextLeq(a, b) && TextLeq(b, a)
    ensures a == b
  {
    if a != [] {
      TextLeqAntisymmetric(a[1..], b[1..]);
      assert a == [a[0]] + a[1..] && b == [b[0]] + b[1..];
    }
  }

  lemma {:induction false} TextLeqTransitive(a: Text, b: Text, c: Text)
    requires TextLeq(a, b) && TextLeq(b, c)
    ensures TextLeq(a, c)
  {
    if a != [] && a[0] == b[0] == c[0] {
      TextLeqTransitive(a[1..], b[1..], c[1..]);
    }
  }

  lemma TextLeqTotalPreorder()
    ensures TotalPreorder(TextLeq)
  {
    forall a, b ensures TextLeq(a, b) || TextLeq(b, a) { TextLeqTotal(a, b); }
    forall a, b, c | TextLeq(a, b) && TextLeq(b, c) ensures TextLeq(a, c) {
      TextLeqTransitive(a, b, c);
    }
  }

  lemma TextLeqAntisymmetricOn(s: seq<Text>)
    ensures AntisymmetricOn(s, TextLeq)
  {
    forall a, b | a in s && b in s && TextLeq(a, b) && TextLeq(b, a) ensures a == b {
      TextLeqAntisymmetric(a, b);
    }
  }

  // ---- decimal integers, as `int.__repr__` writes them ----

  predicate IsDigit(c: CodePoint) { 0x30 <= c <= 0x39 }

  function NatText(n: nat): (t: Text)
    ensures t != [] && AllDigits(t)
  {
    if n < 10 then [0x30 + n] else NatText(n / 10) + [0x30 + n % 10]
  }

  function IntText(n: int): Text {
    if n < 0 then [0x2D] + NatText(-n) else NatText(n)
  }

  predicate AllDigits(t: Text) { forall i :: 0 <= i < |t| ==> IsDigit(t[i]) }

  function DigitsValue(t: Text): nat
    requires AllDigits(t)
  {
    if t == [] then 0
    else
      assert IsDigit(t[|t| - 1]);
      10 * DigitsValue(t[..|t| - 1]) + (t[|t| - 1] - 0x30)
  }

  lemma {:induction false} NatTextValue(n: nat)
    ensures DigitsValue(NatText(n)) == n
    ensures NatText(n)[0] == 0x30 <==> n == 0
    ensures n < 10 <==> |NatText(n)| == 1
  {
    if n >= 10 {
      NatTextValue(n / 10);
      assert NatText(n)[..|NatText(n)| - 1] == NatText(n / 10);
    } else {
      assert DigitsValue([0x30 + n][..0]) == 0;
    }
  }
}
