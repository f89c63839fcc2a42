/** `str.encode("utf-8")` and `bytes.decode("utf-8")`: encoding fails on a
    surrogate, decoding on anything encoding cannot have written. */
module Utf8 {
  import opened Texts

  predicate Surrogate(c: CodePoint) { 0xD800 <= c < 0xE000 }

  predicate Encodable(t: Text) { forall i :: 0 <= i < |t| ==> !Surrogate(t[i]) }

  function EncodeOne(c: CodePoint): Bytes {
    if c < 0x80 then [c]
    else if c < 0x800 then [0xC0 + c / 64, 0x80 + c % 64]
    else if c < 0x10000 then [0xE0 + c / 4096, 0x80 + c / 64 % 64, 0x80 + c % 64]
    else [0xF0 + c / 262144, 0x80 + c / 4096 % 64, 0x80 + c / 64 % 64, 0x80 + c % 64]
  }

  function EncodeAll(t: Text): Bytes {
    if t == [] then [] else EncodeOne(t[0]) + EncodeAll(t[1..])
  }

  function Encode(t: Text): Option<Bytes> {
    if Encodable(t) then Some(EncodeAll(t)) else None
  }

  predicate Continuation(b: Byte) { 0x80 <= b < 0xC0 }

  /** The first code point of a byte string and the bytes after it. */
  function DecodeOne(s: Bytes): (r: Option<(CodePoint, Bytes)>)
    ensures r.Some? ==> |r.value.1| < |s|
  {
    if s == [] then None
    else if s[0] < 0x80 then Some((s[0], s[1..]))
    else if 0xC2 <= s[0] < 0xE0 && |s| >= 2 && Continuation(s[1]) then
      Some(((s[0] as int - 0xC0) * 64 + (s[1] as int - 0x80), s[2..]))
    else if 0xE0 <= s[0] < 0xF0 && |s| >= 3 && Continuation(s[1]) && Continuation(s[2]) then
      var c: int := (s[0] as int - 0xE0) * 4096 + (s[1] as int - 0x80) * 64 + (s[2] as int - 0x80);
      if c >= 0x800 && !Surrogate(c) then Some((c, s[3..])) else None
    else if 0xF0 <= s[0] < 0xF5 && |s| >= 4 && Continuation(s[1]) && Continuation(s[2]) && Continuation(s[3]) then
      var c: int := (s[0] as int - 0xF0) * 262144 + (s[1] as int - 0x80) * 4096 + (s[2] as int - 0x80) * 64 + (s[3] as int - 0x80);
      if 0x10000 <= c < 0x110000 then Some((c, s[4..])) else None
    else None
  }

  function Decode(s: Bytes): Option<Text>
    decreases |s|
  {
    if s == [] then Some([])
    else
      var (c, rest) :- DecodeOne(s);
      var t :- Decode(rest);
      Some([c] + t)
  }

  lemma SixBits(a: nat, b: nat)
    requires b < 64
    ensures (a * 64 + b) / 64 == a && (a * 64 + b) % 64 == b
  {
  }

  lemma SixBitsTwice(a: nat, b: nat, c: nat)
    requires b < 64 && c < 64
    ensures var n := a * 4096 + b * 64 + c;
      n / 4096 == a && n / 64 % 64 == b && n % 64 == c
  {
    SixBits(a * 64 + b, c);
    SixBits(a, b);
  }

  lemma SixBitsThrice(a: nat, b: nat, c: nat, d: nat)
    requires b < 64 && c < 64 && d < 64
    ensures var n := a * 262144 + b * 4096 + c * 64 + d;
      n / 262144 == a && n / 4096 % 64 == b && n / 64 % 64 == c && n % 64 == d
  {
    SixBitsTwice(a * 64 + b, c, d);
    SixBits(a, b);
  }

  lemma TwoBytes(c: CodePoint, k: Bytes)
    requires 0x80 <= c < 0x800
    ensures DecodeOne(EncodeOne(c) + k) == Some((c, k))
  {
    var s := EncodeOne(c) + k;
    assert s[2..] == k;
    assert s[0] == 0xC0 + c / 64 && s[1] == 0x80 + c % 64;
  }

  lemma ThreeBytes(c: CodePoint, k: Bytes)
    requires 0x800 <= c < 0x10000 && !Surrogate(c)
    ensures DecodeOne(EncodeOne(c) + k) == Some((c, k))
  {
    var s := EncodeOne(c) + k;
    assert s[3..] == k;
    assert s[0] == 0xE0 + c / 4096 && s[1] == 0x80 + c / 64 % 64 && s[2] == 0x80 + c % 64;
    assert c / 64 / 64 == c / 4096;
    assert c == c / 4096 * 4096 + c / 64 % 64 * 64 + c % 64;
  }

  lemma FourBytes(c: CodePoint, k: Bytes)
    requires 0x10000 <= c
    ensures DecodeOne(EncodeOne(c) + k) == Some((c, k))
  {
    var s := EncodeOne(c) + k;
    assert s[4..] == k;
    assert s[0] == 0xF0 + c / 262144 && s[1] == 0x80 + c / 4096 % 64;
    assert s[2] == 0x80 + c / 64 % 64 && s[3] == 0x80 + c % 64;
    assert c / 64 / 64 == c / 4096 && c / 4096 / 64 == c / 262144;
    assert c == c / 262144 * 262144 + c / 4096 % 64 * 4096 + c / 64 % 64 * 64 + c % 64;
  }

  lemma OneReadsBack(c: CodePoint, k: Bytes)
    requires !Surrogate(c)
    ensures DecodeOne(EncodeOne(c) + k) == Some((c, k))
  {
    if c < 0x80 {
      assert ([c] + k)[1..] == k;
    } else if c < 0x800 {
      TwoBytes(c, k);
    } else if c < 0x10000 {
      ThreeBytes(c, k);
    } else {
      FourBytes(c, k);
    }
  }

  lemma TwoWriteBack(s: Bytes)
    requires DecodeOne(s).Some? && 0x80 <= s[0] < 0xE0
    ensures var (c, k) := DecodeOne(s).value; !Surrogate(c) && s == EncodeOne(c) + k
  {
    SixBits(s[0] - 0xC0, s[1] - 0x80);
    assert s == [s[0], s[1]] + s[2..];
  }

  lemma ThreeWriteBack(s: Bytes)
    requires DecodeOne(s).Some? && 0xE0 <= s[0] < 0xF0
    ensures var (c, k) := DecodeOne(s).value; !Surrogate(c) && s == EncodeOne(c) + k
  {
    SixBitsTwice(s[0] - 0xE0, s[1] - 0x80, s[2] - 0x80);
    assert s == [s[0], s[1], s[2]] + s[3..];
  }

  lemma FourWriteBack(s: Bytes)
    requires DecodeOne(s).Some? && 0xF0 <= s[0]
    ensures var (c, k) := DecodeOne(s).value; !Surrogate(c) && s == EncodeOne(c) + k
  {
    SixBitsThrice(s[0] - 0xF0, s[1] - 0x80, s[2] - 0x80, s[3] - 0x80);
    assert s == [s[0], s[1], s[2], s[3]] + s[4..];
  }

  /** Decoding accepts only the shortest form, so re-encoding gives the bytes read. */
  lemma OneWritesBack(s: Bytes)
    requires DecodeOne(s).Some?
    ensures var (c, k) := DecodeOne(s).value; !Surrogate(c) && s == EncodeOne(c) + k
  {
    if s[0] < 0x80 {
      assert s == [s[0]] + s[1..];
    } else if s[0] < 0xE0 {
      TwoWriteBack(s);
    } else if s[0] < 0xF0 {
      ThreeWriteBack(s);
    } else {
      FourWriteBack(s);
    }
  }

  /** The two directions together: encodable texts and valid byte strings correspond one to one. */
  lemma {:induction false} DecodeUndoesEncode(t: Text)
    requires Encodable(t)
    ensures Decode(EncodeAll(t)) == Some(t)
  {
    if t != [] {
      OneReadsBack(t[0], EncodeAll(t[1..]));
      DecodeUndoesEncode(t[1..]);
      assert t == [t[0]] + t[1..];
    }
  }

  lemma {:induction false} EncodeUndoesDecode(s: Bytes)
    requires Decode(s).Some?
    ensures Encode(Decode(s).value) == Some(s)
    decreases |s|
  {
    if s != [] {
      OneWritesBack(s);
      var (c, k) := DecodeOne(s).value;
      EncodeUndoesDecode(k);
      var t := Decode(k).value;
      assert Decode(s).value == [c] + t;
      assert ([c] + t)[1..] == t;
    }
  }
}
