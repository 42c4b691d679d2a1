/** UTF-8 as `TextEncoder` writes it and a fatal `TextDecoder` reads it, on Unicode scalar values. */
module Utf8 {
  import opened Wrappers

  type byte = b: int | 0 <= b < 256

  /** U+FEFF, and its three encoded bytes, which a `TextDecoder` drops at the start of its input. */
  const BYTE_ORDER_MARK: char := '\U{FEFF}'
  const BYTE_ORDER_MARK_BYTES: seq<byte> := [0xEF, 0xBB, 0xBF]

  function EncodeChar(c: char): (r: seq<byte>)
    ensures 1 <= |r| <= 4
  {
    var n := c as int;
    if n < 0x80 then [n]
    else if n < 0x800 then [0xC0 + n / 0x40, 0x80 + n % 0x40]
    else if n < 0x1_0000 then [0xE0 + n / 0x1000, 0x80 + n / 0x40 % 0x40, 0x80 + n % 0x40]
    else [0xF0 + n / 0x4_0000, 0x80 + n / 0x1000 % 0x40, 0x80 + n / 0x40 % 0x40, 0x80 + n % 0x40]
  }

  function Encode(s: string): seq<byte> {
    if s == [] then [] else EncodeChar(s[0]) + Encode(s[1..])
  }

  predicate IsContinuation(bytes: seq<byte>, i: nat) {
    i < |bytes| && 0x80 <= bytes[i] < 0xC0
  }

  predicate IsScalarValue(n: int) {
    0 <= n < 0xD800 || 0xE000 <= n < 0x11_0000
  }

  /** The six payload bits of a continuation byte. */
  function Payload(bytes: seq<byte>, i: nat): (p: nat)
    requires IsContinuation(bytes, i)
    ensures p < 0x40
  {
    bytes[i] - 0x80
  }

  /** One scalar value from the front of `bytes` and its encoded length; overlong forms are refused. */
  function DecodeChar(bytes: seq<byte>): (r: Option<(char, nat)>)
    requires |bytes| > 0
    ensures r.Some? ==> 1 <= r.value.1 <= |bytes|
  {
    var b: int := bytes[0];
    if b < 0x80 then
      Some((b as char, 1))
    else if 0xC2 <= b < 0xE0 && IsContinuation(bytes, 1) then
      Some((((b - 0xC0) * 0x40 + Payload(bytes, 1)) as char, 2))
    else if 0xE0 <= b < 0xF0 && IsContinuation(bytes, 1) && IsContinuation(bytes, 2) then
      var n := (b - 0xE0) * 0x1000 + Payload(bytes, 1) * 0x40 + Payload(bytes, 2);
      if n >= 0x800 && IsScalarValue(n) then Some((n as char, 3)) else None
    else if 0xF0 <= b < 0xF5 && IsContinuation(bytes, 1) && IsContinuation(bytes, 2) && IsContinuation(bytes, 3) then
      var n := (b - 0xF0) * 0x4_0000 + Payload(bytes, 1) * 0x1000 + Payload(bytes, 2) * 0x40 + Payload(bytes, 3);
      if n >= 0x1_0000 && IsScalarValue(n) then Some((n as char, 4)) else None
    else
      None
  }

  function DecodeAll(bytes: seq<byte>): Option<string> {
    if bytes == [] then Some([])
    else
      var (c, n) :- DecodeChar(bytes);
      var rest :- DecodeAll(bytes[n..]);
      Some([c] + rest)
  }

  /** `new TextDecoder("utf-8", { fatal: true }).decode(bytes)`; `None` is the thrown `TypeError`. */
  function Decode(bytes: seq<byte>): Option<string> {
    if BYTE_ORDER_MARK_BYTES <= bytes then DecodeAll(bytes[3..]) else DecodeAll(bytes)
  }

  lemma SixBitDigits(n: nat)
    ensures n == n / 0x40 * 0x40 + n % 0x40
    ensures n == n / 0x1000 * 0x1000 + n / 0x40 % 0x40 * 0x40 + n % 0x40
    ensures n == n / 0x4_0000 * 0x4_0000 + n / 0x1000 % 0x40 * 0x1000 + n / 0x40 % 0x40 * 0x40 + n % 0x40
  {
    assert n / 0x1000 == n / 0x40 / 0x40;
    assert n / 0x4_0000 == n / 0x1000 / 0x40;
  }

  lemma DecodeCharOfEncodeChar(c: char, rest: seq<byte>)
    ensures DecodeChar(EncodeChar(c) + rest) == Some((c, |EncodeChar(c)|))
  {
    var n := c as int;
    var bytes := EncodeChar(c) + rest;
    SixBitDigits(n);
    assert bytes[0] == EncodeChar(c)[0];
    if 0x80 <= n {
      assert bytes[1] == EncodeChar(c)[1];
    }
    if 0x800 <= n {
      assert bytes[2] == EncodeChar(c)[2];
    }
    if 0x1_0000 <= n {
      assert bytes[3] == EncodeChar(c)[3];
    }
  }

  lemma {:induction false} DecodeAllOfEncode(s: string)
    ensures DecodeAll(Encode(s)) == Some(s)
  {
    if s != [] {
      var head := EncodeChar(s[0]);
      DecodeCharOfEncodeChar(s[0], Encode(s[1..]));
      assert (head + Encode(s[1..]))[|head|..] == Encode(s[1..]);
      DecodeAllOfEncode(s[1..]);
      assert s == [s[0]] + s[1..];
    }
  }

  /** What survives an encode and decode: everything except one leading byte order mark. */
  function WithoutByteOrderMark(s: string): string {
    if s != [] && s[0] == BYTE_ORDER_MARK then s[1..] else s
  }

  lemma OnlyMarkStartsWithMarkBytes(s: string)
    requires s != [] && BYTE_ORDER_MARK_BYTES <= Encode(s)
    ensures s[0] == BYTE_ORDER_MARK
  {
    var rest := Encode(s)[3..];
    assert EncodeChar(BYTE_ORDER_MARK) + rest == Encode(s);
    DecodeCharOfEncodeChar(BYTE_ORDER_MARK, rest);
    DecodeCharOfEncodeChar(s[0], Encode(s[1..]));
  }

  lemma DecodeOfEncode(s: string)
    ensures Decode(Encode(s)) == Some(WithoutByteOrderMark(s))
  {
    DecodeAllOfEncode(s);
    if s != [] {
      if BYTE_ORDER_MARK_BYTES <= Encode(s) {
        OnlyMarkStartsWithMarkBytes(s);
      }
      if s[0] == BYTE_ORDER_MARK {
        assert EncodeChar(s[0]) == BYTE_ORDER_MARK_BYTES;
        assert Encode(s)[3..] == Encode(s[1..]);
        DecodeAllOfEncode(s[1..]);
      }
    }
  }

  /** What is decoded is what the bytes encode. */
  lemma DecodedCharIsEncoded(bytes: seq<byte>)
    requires bytes != [] && DecodeChar(bytes).Some?
    ensures var (c, n) := DecodeChar(bytes).value; bytes[..n] == EncodeChar(c)
  {
    var (c, n) := DecodeChar(bytes).value;
    if n == 2 {
      FourBytes(0, 0, bytes[0] - 0xC0, Payload(bytes, 1));
    } else if n == 3 {
      FourBytes(0, bytes[0] - 0xE0, Payload(bytes, 1), Payload(bytes, 2));
    } else if n == 4 {
      FourBytes(bytes[0] - 0xF0, Payload(bytes, 1), Payload(bytes, 2), Payload(bytes, 3));
    }
  }

  lemma FourBytes(a: nat, b: nat, c: nat, d: nat)
    requires b < 0x40 && c < 0x40 && d < 0x40
    ensures var n := a * 0x4_0000 + b * 0x1000 + c * 0x40 + d;
      && n / 0x4_0000 == a && n / 0x1000 % 0x40 == b && n / 0x40 % 0x40 == c && n % 0x40 == d
      && (a == 0 ==> n / 0x1000 == b && (b == 0 ==> n / 0x40 == c))
  {
    var n := a * 0x4_0000 + b * 0x1000 + c * 0x40 + d;
    assert n / 0x40 == a * 0x1000 + b * 0x40 + c;
    assert n / 0x1000 == a * 0x40 + b;
  }

  lemma {:induction false} DecodedIsEncoded(bytes: seq<byte>)
    requires DecodeAll(bytes).Some?
    ensures Encode(DecodeAll(bytes).value) == bytes
  {
    hide EncodeChar, DecodeChar;
    if bytes == [] {
      assert Encode([]) == [];
    } else {
      DecodedCharIsEncoded(bytes);
      var (c, n) := DecodeChar(bytes).value;
      DecodedIsEncoded(bytes[n..]);
      var rest := DecodeAll(bytes[n..]).value;
      assert ([c] + rest)[1..] == rest;
      assert bytes == bytes[..n] + bytes[n..];
    }
  }

  /** Decoding accepts exactly the bytes that encode some text, and drops nothing but one leading mark. */
  lemma DecodesExactly(bytes: seq<byte>, text: string)
    ensures Decode(bytes) == Some(text) <==> exists s :: bytes == Encode(s) && text == WithoutByteOrderMark(s)
  {
    hide DecodeAll, DecodeChar, EncodeChar;
    forall s | bytes == Encode(s) ensures Decode(bytes) == Some(WithoutByteOrderMark(s)) {
      DecodeOfEncode(s);
    }
    if Decode(bytes) == Some(text) {
      if BYTE_ORDER_MARK_BYTES <= bytes {
        DecodedIsEncoded(bytes[3..]);
        MarkAndText(text);
        assert bytes == BYTE_ORDER_MARK_BYTES + bytes[3..];
        assert bytes == Encode([BYTE_ORDER_MARK] + text) && ([BYTE_ORDER_MARK] + text)[1..] == text;
      } else {
        DecodedIsEncoded(bytes);
        DecodeOfEncode(text);
        assert bytes == Encode(text) && WithoutByteOrderMark(text) == text;
      }
    }
  }

  lemma MarkAndText(s: string)
    ensures Encode([BYTE_ORDER_MARK] + s) == BYTE_ORDER_MARK_BYTES + Encode(s)
  {
    assert ([BYTE_ORDER_MARK] + s)[1..] == s;
    assert EncodeChar(BYTE_ORDER_MARK) == BYTE_ORDER_MARK_BYTES;
  }

  ghost predicate IsAscii(s: string) {
    forall i | 0 <= i < |s| :: s[i] as int < 0x80
  }

  /** Text below U+0080 is its own encoding. */
  lemma {:induction false} AsciiIsItsOwnEncoding(s: string)
    requires IsAscii(s)
    ensures |Encode(s)| == |s| && forall i | 0 <= i < |s| :: Encode(s)[i] == s[i] as int
    ensures Decode(Encode(s)) == Some(s)
  {
    if s != [] {
      AsciiIsItsOwnEncoding(s[1..]);
      assert EncodeChar(s[0]) == [s[0] as int];
    }
    DecodeOfEncode(s);
  }

  lemma {:induction false} EncodeAppends(a: string, b: string)
    ensures Encode(a + b) == Encode(a) + Encode(b)
  {
    if a == [] {
      assert a + b == b;
    } else {
      var head, rest := EncodeChar(a[0]), a[1..];
      assert (a + b)[1..] == rest + b && (a + b)[0] == a[0];
      assert Encode(a + b) == head + Encode(rest + b) && Encode(a) == head + Encode(rest);
      hide EncodeChar, Encode;
      EncodeAppends(rest, b);
      assert head + (Encode(rest) + Encode(b)) == head + Encode(rest) + Encode(b);
    }
  }

  /** Bytes below 0x80 stand for themselves only. */
  lemma {:induction false} EncodedAsciiByte(s: string, b: byte)
    requires b < 0x80 && b as char !in s
    ensures b !in Encode(s)
  {
    if s != [] {
      assert s == [s[0]] + s[1..];
      EncodedAsciiByte(s[1..], b);
    }
  }
}
