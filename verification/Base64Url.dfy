/** Unpadded base64url, written by `b64url` and read back by
    `base64_urlsafe_decode` through Python's lenient decoder. */
module Base64Url {
  import opened Texts
  import Sequences

  const PAD: CodePoint := 0x3D

  function Symbol(i: int): CodePoint
    requires 0 <= i < 64
  {
    if i < 26 then 0x41 + i
    else if i < 52 then 0x61 + (i - 26)
    else if i < 62 then 0x30 + (i - 52)
    else if i == 62 then 0x2D
    else 0x5F
  }

  /** The decoder's table: "-" and "_" are translated first, so "+" and "/" are read too. */
  function SymbolValue(c: CodePoint): (r: Option<int>)
    ensures r.Some? ==> 0 <= r.value < 64
  {
    if 0x41 <= c <= 0x5A then Some(c - 0x41)
    else if 0x61 <= c <= 0x7A then Some(c - 0x61 + 26)
    else if 0x30 <= c <= 0x39 then Some(c - 0x30 + 52)
    else if c == 0x2D || c == 0x2B then Some(62)
    else if c == 0x5F || c == 0x2F then Some(63)
    else None
  }

  predicate UrlSafe(c: CodePoint) {
    0x41 <= c <= 0x5A || 0x61 <= c <= 0x7A || 0x30 <= c <= 0x39 || c == 0x2D || c == 0x5F
  }

  function EncodeBlock(a: Byte, b: Byte, c: Byte): Text {
    [Symbol(a / 4), Symbol(a % 4 * 16 + b / 16), Symbol(b % 16 * 4 + c / 64), Symbol(c % 64)]
  }

  /** The one or two bytes left over are written with the symbols that hold their bits. */
  function LastGroup(raw: Bytes): Text
    requires |raw| < 3
  {
    if raw == [] then []
    else if |raw| == 1 then EncodeBlock(raw[0], 0, 0)[..2]
    else EncodeBlock(raw[0], raw[1], 0)[..3]
  }

  function Pads(n: int): Text
    requires 0 <= n < 4
  {
    if n == 0 then [] else if n == 1 then [PAD] else if n == 2 then [PAD, PAD] else [PAD, PAD, PAD]
  }

  function PadCount(n: nat): (k: int)
    ensures 0 <= k < 3
  {
    (3 - n % 3) % 3
  }

  /** `base64.urlsafe_b64encode`, padding included. */
  function EncodePadded(raw: Bytes): Text {
    if |raw| < 3 then LastGroup(raw) + Pads(PadCount(|raw|))
    else EncodeBlock(raw[0], raw[1], raw[2]) + EncodePadded(raw[3..])
  }

  predicate IsPad(c: CodePoint) { c == PAD }

  function Encode(raw: Bytes): Text {
    StripRight(EncodePadded(raw), IsPad)
  }

  /** The decoder's loop: `quad` symbols of the current group are read, `left` holds their
      unused bits, `pads` the "=" seen since; anything outside the table is skipped. */
  function Scan(t: Text, quad: int, left: int, pads: int): Option<Bytes>
    requires 0 <= quad < 4 && 0 <= left < 64 && 0 <= pads
    requires quad == 2 ==> left < 16
    requires quad == 3 ==> left < 4
  {
    if t == [] then
      if quad == 0 then Some([]) else None
    else if t[0] == PAD then
      if quad >= 2 && quad + pads + 1 >= 4 then Some([])
      else Scan(t[1..], quad, left, if quad >= 2 then pads + 1 else pads)
    else match SymbolValue(t[0])
      case None => Scan(t[1..], quad, left, pads)
      case Some(v) =>
        if quad == 0 then Scan(t[1..], 1, v, 0)
        else if quad == 1 then
          var rest :- Scan(t[1..], 2, v % 16, 0);
          Some([left * 4 + v / 16] + rest)
        else if quad == 2 then
          var rest :- Scan(t[1..], 3, v % 4, 0);
          Some([left * 16 + v / 4] + rest)
        else
          var rest :- Scan(t[1..], 0, 0, 0);
          Some([left * 64 + v] + rest)
  }

  /** Restores the padding to a multiple of four, then decodes. */
  function Decode(t: Text): Option<Bytes> {
    Scan(t + Pads((4 - |t| % 4) % 4), 0, 0, 0)
  }

  // ---- what stripping leaves ----

  function EncodeBare(raw: Bytes): Text {
    if |raw| < 3 then LastGroup(raw)
    else EncodeBlock(raw[0], raw[1], raw[2]) + EncodeBare(raw[3..])
  }

  lemma {:induction false} BareShape(raw: Bytes)
    ensures forall i :: 0 <= i < |EncodeBare(raw)| ==> UrlSafe(EncodeBare(raw)[i])
    ensures |EncodeBare(raw)| == (4 * |raw| + 2) / 3
  {
    if |raw| >= 3 {
      BareShape(raw[3..]);
    }
  }

  lemma LengthArithmetic(n: nat)
    ensures var len := (4 * n + 2) / 3; len % 4 != 1 && (4 - len % 4) % 4 == PadCount(n)
  {
    var q := n / 3;
    if n % 3 == 0 {
      assert (4 * n + 2) / 3 == 4 * q;
    } else if n % 3 == 1 {
      assert (4 * n + 2) / 3 == 4 * q + 2;
    } else {
      assert (4 * n + 2) / 3 == 4 * q + 3;
    }
  }

  lemma {:induction false} PaddedIsBareAndPads(raw: Bytes)
    ensures EncodePadded(raw) == EncodeBare(raw) + Pads(PadCount(|raw|))
  {
    if |raw| >= 3 {
      PaddedIsBareAndPads(raw[3..]);
      assert PadCount(|raw[3..]|) == PadCount(|raw|);
      Sequences.Associate(EncodeBlock(raw[0], raw[1], raw[2]), EncodeBare(raw[3..]), Pads(PadCount(|raw|)));
    }
  }

  lemma DropLast(t: Text, x: CodePoint)
    ensures (t + [x])[|t + [x]| - 1] == x && (t + [x])[..|t + [x]| - 1] == t
  {
  }

  lemma {:induction false} StripsExactlyThePads(t: Text, n: int)
    requires 0 <= n < 4 && (t == [] || t[|t| - 1] != PAD)
    ensures StripRight(t + Pads(n), IsPad) == t
  {
    if n > 0 {
      assert Pads(n) == Pads(n - 1) + [PAD];
      Sequences.Associate(t, Pads(n - 1), [PAD]);
      DropLast(t + Pads(n - 1), PAD);
      StripsExactlyThePads(t, n - 1);
    } else {
      assert t + Pads(0) == t;
    }
  }

  lemma EncodeIsBare(raw: Bytes)
    ensures Encode(raw) == EncodeBare(raw)
  {
    var t := EncodeBare(raw);
    BareShape(raw);
    PaddedIsBareAndPads(raw);
    if t != [] {
      assert UrlSafe(t[|t| - 1]);
    }
    StripsExactlyThePads(t, PadCount(|raw|));
  }

  /** The text is URL-safe without padding, its length is the ceiling of 4n/3, and never 1 mod 4. */
  lemma EncodeShape(raw: Bytes)
    ensures forall i :: 0 <= i < |Encode(raw)| ==> UrlSafe(Encode(raw)[i])
    ensures |Encode(raw)| == (4 * |raw| + 2) / 3 && |Encode(raw)| % 4 != 1
  {
    EncodeIsBare(raw);
    BareShape(raw);
    LengthArithmetic(|raw|);
  }

  // ---- reading back ----

  lemma SymbolReadsBack(i: int)
    requires 0 <= i < 64
    ensures SymbolValue(Symbol(i)) == Some(i) && Symbol(i) != PAD
  {
  }

  lemma ScanSymbol(i: int, k: Text, quad: int, left: int, next: Option<Bytes>)
    requires 0 <= i < 64 && 1 <= quad < 4 && 0 <= left < 64
    requires quad == 2 ==> left < 16
    requires quad == 3 ==> left < 4
    requires next == Scan(k, (quad + 1) % 4, if quad == 1 then i % 16 else if quad == 2 then i % 4 else 0, 0)
    ensures Scan([Symbol(i)] + k, quad, left, 0) ==
      (if next.None? then None
       else Some([if quad == 1 then left * 4 + i / 16 else if quad == 2 then left * 16 + i / 4 else left * 64 + i]
                 + next.value))
  {
    SymbolReadsBack(i);
    assert ([Symbol(i)] + k)[1..] == k;
  }

  lemma ScanFirst(i: int, k: Text)
    requires 0 <= i < 64
    ensures Scan([Symbol(i)] + k, 0, 0, 0) == Scan(k, 1, i, 0)
  {
    SymbolReadsBack(i);
    assert ([Symbol(i)] + k)[1..] == k;
  }

  lemma SplitBits(a: Byte, b: Byte, c: Byte)
    ensures var i1, i2 := a % 4 * 16 + b / 16, b % 16 * 4 + c / 64;
      && 0 <= i1 < 64 && i1 / 16 == a % 4 && i1 % 16 == b / 16
      && 0 <= i2 < 64 && i2 / 4 == b % 16 && i2 % 4 == c / 64
    ensures a / 4 * 4 + a % 4 == a && b / 16 * 16 + b % 16 == b && c / 64 * 64 + c % 64 == c
  {
  }

  lemma ScanOne(a: Byte)
    ensures Scan(EncodeBlock(a, 0, 0)[..2] + [PAD, PAD], 0, 0, 0) == Some([a])
  {
    SplitBits(a, 0, 0);
    var i1 := a % 4 * 16;
    var k2 := [PAD, PAD];
    assert k2[1..] == [PAD];
    assert Scan(k2, 2, 0, 0) == Scan([PAD], 2, 0, 1) == Some([]);
    ScanSymbol(i1, k2, 1, a / 4, Some([]));
    assert [a] + [] == [a];
    ScanFirst(a / 4, [Symbol(i1)] + k2);
    assert EncodeBlock(a, 0, 0)[..2] + [PAD, PAD] == [Symbol(a / 4)] + ([Symbol(i1)] + k2);
  }

  lemma ScanTwo(a: Byte, b: Byte)
    ensures Scan(EncodeBlock(a, b, 0)[..3] + [PAD], 0, 0, 0) == Some([a, b])
  {
    SplitBits(a, b, 0);
    var i1, i2 := a % 4 * 16 + b / 16, b % 16 * 4;
    var k3 := [PAD];
    assert Scan(k3, 3, 0, 0) == Some([]);
    ScanSymbol(i2, k3, 2, b / 16, Some([]));
    assert [b] + [] == [b];
    var k2 := [Symbol(i2)] + k3;
    ScanSymbol(i1, k2, 1, a / 4, Some([b]));
    ScanFirst(a / 4, [Symbol(i1)] + k2);
    assert EncodeBlock(a, b, 0)[..3] + [PAD] == [Symbol(a / 4)] + ([Symbol(i1)] + k2);
    assert [a] + [b] == [a, b];
  }

  lemma Cons3(a: Byte, b: Byte, c: Byte, k: Bytes)
    ensures [a] + ([b] + ([c] + k)) == [a, b, c] + k
  {
  }

  lemma Cons4(a: CodePoint, b: CodePoint, c: CodePoint, d: CodePoint, k: Text)
    ensures [a] + ([b] + ([c] + ([d] + k))) == [a, b, c, d] + k
  {
  }

  lemma ScanThree(a: Byte, b: Byte, c: Byte, k: Text)
    requires Scan(k, 0, 0, 0).Some?
    ensures Scan(EncodeBlock(a, b, c) + k, 0, 0, 0) == Some([a, b, c] + Scan(k, 0, 0, 0).value)
  {
    SplitBits(a, b, c);
    var rest := Scan(k, 0, 0, 0).value;
    var i1, i2, i3 := a % 4 * 16 + b / 16, b % 16 * 4 + c / 64, c % 64;
    ScanSymbol(i3, k, 3, c / 64, Some(rest));
    var k3 := [Symbol(i3)] + k;
    ScanSymbol(i2, k3, 2, b / 16, Some([c] + rest));
    var k2 := [Symbol(i2)] + k3;
    ScanSymbol(i1, k2, 1, a / 4, Some([b] + ([c] + rest)));
    ScanFirst(a / 4, [Symbol(i1)] + k2);
    Cons4(Symbol(a / 4), Symbol(i1), Symbol(i2), Symbol(i3), k);
    Cons3(a, b, c, rest);
  }

  lemma LastGroupReadsBack(raw: Bytes)
    requires |raw| < 3
    ensures Scan(LastGroup(raw) + Pads(PadCount(|raw|)), 0, 0, 0) == Some(raw)
  {
    if |raw| == 1 {
      ScanOne(raw[0]);
      assert raw == [raw[0]];
    } else if |raw| == 2 {
      ScanTwo(raw[0], raw[1]);
      assert raw == [raw[0], raw[1]];
    }
  }

  lemma {:induction false} PaddedReadsBack(raw: Bytes)
    ensures Scan(EncodePadded(raw), 0, 0, 0) == Some(raw)
  {
    if |raw| < 3 {
      LastGroupReadsBack(raw);
    } else {
      PaddedReadsBack(raw[3..]);
      ScanThree(raw[0], raw[1], raw[2], EncodePadded(raw[3..]));
      assert raw == [raw[0], raw[1], raw[2]] + raw[3..];
    }
  }

  /** Restoring the padding and decoding gives every byte string back. */
  lemma DecodeUndoesEncode(raw: Bytes)
    ensures Decode(Encode(raw)) == Some(raw)
  {
    EncodeShape(raw);
    EncodeIsBare(raw);
    PaddedIsBareAndPads(raw);
    PaddedReadsBack(raw);
    LengthArithmetic(|raw|);
    assert (4 - |Encode(raw)| % 4) % 4 == PadCount(|raw|);
  }

  /** Dropping the padding loses nothing. */
  lemma EncodeInjective(a: Bytes, b: Bytes)
    ensures Encode(a) == Encode(b) <==> a == b
  {
    DecodeUndoesEncode(a);
    DecodeUndoesEncode(b);
  }
}
