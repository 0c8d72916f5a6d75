/**
 * UTF-8, the encoding in which a member id is written into a leader-info node.
 * A Dafny `char` is a Unicode scalar value, so every string has exactly one encoding.
 */
module Utf8 {
  import opened Results

  /** A byte, as its unsigned value. */
  type Byte = b: int | 0 <= b < 0x100

  predicate IsContinuation(b: Byte) { 0x80 <= b < 0xC0 }

  /** The number of bytes UTF-8 spends on a scalar value. */
  function Width(c: char): (n: nat)
    ensures 1 <= n <= 4
  {
    var v := c as int;
    if v < 0x80 then 1 else if v < 0x800 then 2 else if v < 0x1_0000 then 3 else 4
  }

  /** The UTF-8 bytes of one scalar value: a lead byte, then six bits per continuation byte. */
  function EncodeChar(c: char): (r: seq<Byte>)
    ensures |r| == Width(c)
    ensures Width(c) == 1 <==> r[0] < 0x80
    ensures Width(c) == 2 <==> 0xC0 <= r[0] < 0xE0
    ensures Width(c) == 3 <==> 0xE0 <= r[0] < 0xF0
    ensures Width(c) == 4 <==> 0xF0 <= r[0] < 0xF8
    ensures forall i :: 1 <= i < |r| ==> IsContinuation(r[i])
  {
    var v := c as int;
    var v1, d0 := v / 0x40, v % 0x40;
    var v2, d1 := v1 / 0x40, v1 % 0x40;
    var v3, d2 := v2 / 0x40, v2 % 0x40;
    if v < 0x80 then [v]
    else if v < 0x800 then [0xC0 + v1, 0x80 + d0]
    else if v < 0x1_0000 then [0xE0 + v2, 0x80 + d1, 0x80 + d0]
    else [0xF0 + v3, 0x80 + d2, 0x80 + d1, 0x80 + d0]
  }

  /** The UTF-8 bytes of a string: the encodings of its characters, in order. */
  function Encode(s: string): (r: seq<Byte>)
    ensures |s| <= |r| <= 4 * |s|
  {
    if s == [] then [] else EncodeChar(s[0]) + Encode(s[1..])
  }

  /** The value carried by a continuation byte. */
  function Payload(b: Byte): int { b - 0x80 }

  /**
   * Decodes the scalar value at the front of `b`, giving it with the number of bytes it
   * took; rejects a bad lead or continuation byte, an overlong form, a surrogate and a
   * value beyond U+10FFFF.
   */
  function DecodeChar(b: seq<Byte>): (r: Option<(char, nat)>)
    ensures r.Some? ==> 1 <= r.value.1 <= |b|
  {
    if |b| == 0 then None
    else if b[0] < 0x80 then Some((b[0] as char, 1))
    else if b[0] < 0xC0 then None
    else if b[0] < 0xE0 then
      if |b| < 2 || !IsContinuation(b[1]) then None
      else
        var v := (b[0] - 0xC0) * 0x40 + Payload(b[1]);
        if v < 0x80 then None else Some((v as char, 2))
    else if b[0] < 0xF0 then
      if |b| < 3 || !IsContinuation(b[1]) || !IsContinuation(b[2]) then None
      else
        var v := (b[0] - 0xE0) * 0x1000 + Payload(b[1]) * 0x40 + Payload(b[2]);
        if v < 0x800 || (0xD800 <= v < 0xE000) then None else Some((v as char, 3))
    else if b[0] < 0xF8 then
      if |b| < 4 || !IsContinuation(b[1]) || !IsContinuation(b[2]) || !IsContinuation(b[3]) then None
      else
        var v := (b[0] - 0xF0) * 0x4_0000 + Payload(b[1]) * 0x1000 + Payload(b[2]) * 0x40 + Payload(b[3]);
        if v < 0x1_0000 || 0x11_0000 <= v then None else Some((v as char, 4))
    else None
  }

  /** Decodes a whole byte sequence, or fails if any part of it is not well-formed UTF-8. */
  function Decode(b: seq<Byte>): Option<string>
    decreases |b|
  {
    if b == [] then Some([])
    else match DecodeChar(b)
      case None => None
      case Some((c, n)) =>
        match Decode(b[n..])
        case None => None
        case Some(s) => Some([c] + s)
  }

  /** `q * 64 + d` splits back into `q` and `d` when `d` is a six-bit digit. */
  lemma SixBits(q: int, d: int)
    requires 0 <= d < 0x40
    ensures (q * 0x40 + d) / 0x40 == q && (q * 0x40 + d) % 0x40 == d
  {
  }

  /** Decoding the front of an encoded character gives the character back. */
  lemma DecodeEncodeChar(c: char, rest: seq<Byte>)
    ensures DecodeChar(EncodeChar(c) + rest) == Some((c, Width(c)))
  {
    var b := EncodeChar(c) + rest;
    var v := c as int;
    var v1, d0 := v / 0x40, v % 0x40;
    var v2, d1 := v1 / 0x40, v1 % 0x40;
    var v3, d2 := v2 / 0x40, v2 % 0x40;
    assert v == v1 * 0x40 + d0 && v1 == v2 * 0x40 + d1 && v2 == v3 * 0x40 + d2;
    if v < 0x80 {
    } else if v < 0x800 {
      assert b[0] == 0xC0 + v1 && b[1] == 0x80 + d0;
    } else if v < 0x1_0000 {
      assert b[0] == 0xE0 + v2 && b[1] == 0x80 + d1 && b[2] == 0x80 + d0;
      assert (b[0] - 0xE0) * 0x1000 + Payload(b[1]) * 0x40 + Payload(b[2]) == (v2 * 0x40 + d1) * 0x40 + d0;
    } else {
      assert b[0] == 0xF0 + v3 && b[1] == 0x80 + d2 && b[2] == 0x80 + d1 && b[3] == 0x80 + d0;
      assert (b[0] - 0xF0) * 0x4_0000 + Payload(b[1]) * 0x1000 + Payload(b[2]) * 0x40 + Payload(b[3])
          == ((v3 * 0x40 + d2) * 0x40 + d1) * 0x40 + d0;
    }
  }

  /** Round trip: the bytes written for a string decode to that string. */
  lemma {:induction false} DecodeEncode(s: string)
    ensures Decode(Encode(s)) == Some(s)
  {
    if s != [] {
      var b := Encode(s);
      assert b == EncodeChar(s[0]) + Encode(s[1..]);
      DecodeEncodeChar(s[0], Encode(s[1..]));
      assert b[Width(s[0])..] == Encode(s[1..]);
      DecodeEncode(s[1..]);
      assert [s[0]] + s[1..] == s;
    }
  }

  /** A well-formed character encoding is the encoding of the character it decodes to. */
  lemma EncodeDecodeChar(b: seq<Byte>)
    requires DecodeChar(b).Some?
    ensures EncodeChar(DecodeChar(b).value.0) == b[..DecodeChar(b).value.1]
  {
    var (c, n) := DecodeChar(b).value;
    var v := c as int;
    if n == 2 {
      SixBits(b[0] - 0xC0, Payload(b[1]));
    } else if n == 3 {
      var v1 := (b[0] - 0xE0) * 0x40 + Payload(b[1]);
      assert v == v1 * 0x40 + Payload(b[2]);
      SixBits(v1, Payload(b[2]));
      SixBits(b[0] - 0xE0, Payload(b[1]));
    } else if n == 4 {
      var v2 := (b[0] - 0xF0) * 0x40 + Payload(b[1]);
      var v1 := v2 * 0x40 + Payload(b[2]);
      assert v == v1 * 0x40 + Payload(b[3]);
      SixBits(v1, Payload(b[3]));
      SixBits(v2, Payload(b[2]));
      SixBits(b[0] - 0xF0, Payload(b[1]));
    }
  }

  /** The other direction: bytes that decode to a string are exactly that string's encoding. */
  lemma {:induction false} EncodeDecode(b: seq<Byte>)
    requires Decode(b).Some?
    ensures Encode(Decode(b).value) == b
  {
    if b != [] {
      var (c, n) := DecodeChar(b).value;
      EncodeDecodeChar(b);
      EncodeDecode(b[n..]);
      var s := Decode(b).value;
      assert s[0] == c && s[1..] == Decode(b[n..]).value;
      assert b[..n] + b[n..] == b;
    }
  }
}
