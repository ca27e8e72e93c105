/**
 * Strict UTF-8 as section 4 of RFC 3629 defines it: the decoder accepts
 * exactly the well-formed byte sequences (no overlong forms, no encoded
 * surrogates, nothing above U+10FFFF) and fails on anything else, and the
 * encoder writes each scalar value in its one well-formed form. Latin-1
 * maps the code points U+0000..U+00FF to single bytes.
 */
module Utf8 {

  import opened Wrappers

  type byte = b: int | 0 <= b < 0x100

  predicate IsTail(b: byte)
  {
    0x80 <= b <= 0xBF
  }

  /** The character encoded by the well-formed sequence at the start of
      `bytes`, and that sequence's length; `None` when `bytes` does not start
      with a well-formed sequence. The second byte's range depends on the
      first byte, as in the `UTF8-3` and `UTF8-4` rules of section 4. */
  function DecodeFirst(bytes: seq<byte>): (r: Option<(char, nat)>)
    ensures r.Some? ==> 1 <= r.value.1 <= |bytes| && r.value.1 <= 4
  {
    if bytes == [] then None
    else
      var b0: int := bytes[0];
      if b0 <= 0x7F then
        Some((b0 as char, 1))
      else if 0xC2 <= b0 <= 0xDF then
        if 2 <= |bytes| && IsTail(bytes[1]) then
          Some((((b0 - 0xC0) * 0x40 + (bytes[1] as int - 0x80)) as char, 2))
        else None
      else if 0xE0 <= b0 <= 0xEF then
        var lo := if b0 == 0xE0 then 0xA0 else 0x80;
        var hi := if b0 == 0xED then 0x9F else 0xBF;
        if 3 <= |bytes| && lo <= bytes[1] <= hi && IsTail(bytes[2]) then
          Some((((b0 - 0xE0) * 0x1000 + (bytes[1] as int - 0x80) * 0x40 + (bytes[2] as int - 0x80)) as char, 3))
        else None
      else if 0xF0 <= b0 <= 0xF4 then
        var lo := if b0 == 0xF0 then 0x90 else 0x80;
        var hi := if b0 == 0xF4 then 0x8F else 0xBF;
        if 4 <= |bytes| && lo <= bytes[1] <= hi && IsTail(bytes[2]) && IsTail(bytes[3]) then
          Some((((b0 - 0xF0) * 0x40000 + (bytes[1] as int - 0x80) * 0x1000 +
                 (bytes[2] as int - 0x80) * 0x40 + (bytes[3] as int - 0x80)) as char, 4))
        else None
      else None
  }

  /** `bytes.decode('utf-8')`: the characters of a well-formed byte
      sequence, or `None` when any part of it is ill-formed. Every character
      takes at least one byte. */
  function Decode(bytes: seq<byte>): (r: Option<string>)
    ensures r.Some? ==> |r.value| <= |bytes|
    decreases |bytes|
  {
    if bytes == [] then Some([])
    else
      match DecodeFirst(bytes)
      case None => None
      case Some((c, n)) =>
        match Decode(bytes[n..])
        case None => None
        case Some(rest) => Some([c] + rest)
  }

  /** The well-formed encoding of one character. */
  function EncodeChar(c: char): (r: seq<byte>)
    ensures 1 <= |r| <= 4
  {
    var n := c as int;
    if n < 0x80 then
      [n]
    else if n < 0x800 then
      [0xC0 + n / 0x40, 0x80 + n % 0x40]
    else if n < 0x10000 then
      [0xE0 + n / 0x1000, 0x80 + (n / 0x40) % 0x40, 0x80 + n % 0x40]
    else
      [0xF0 + n / 0x40000, 0x80 + (n / 0x1000) % 0x40, 0x80 + (n / 0x40) % 0x40, 0x80 + n % 0x40]
  }

  /** `s.encode('utf-8')`. */
  function Encode(s: string): (r: seq<byte>)
    ensures |s| <= |r| <= 4 * |s|
  {
    if s == [] then [] else EncodeChar(s[0]) + Encode(s[1..])
  }

  /** The decoder reads back exactly the character the encoder wrote, and
      stops at its end. */
  lemma DecodeFirstEncodeChar(c: char, rest: seq<byte>)
    ensures DecodeFirst(EncodeChar(c) + rest) == Some((c, |EncodeChar(c)|))
  {
    var n := c as int;
    if n < 0x80 {
    } else if n < 0x800 {
      DecodeTwo(c, rest);
    } else if n < 0x10000 {
      DecodeThree(c, rest);
    } else {
      DecodeFour(c, rest);
    }
  }

  lemma DecodeTwo(c: char, rest: seq<byte>)
    requires 0x80 <= c as int < 0x800
    ensures DecodeFirst(EncodeChar(c) + rest) == Some((c, 2))
  {
    var n := c as int;
    var q, r := n / 0x40, n % 0x40;
    assert n == q * 0x40 + r;
    var bytes := EncodeChar(c) + rest;
    assert bytes[0] == 0xC0 + q && bytes[1] == 0x80 + r;
  }

  lemma DecodeThree(c: char, rest: seq<byte>)
    requires 0x800 <= c as int < 0x10000
    ensures DecodeFirst(EncodeChar(c) + rest) == Some((c, 3))
  {
    var n := c as int;
    var q1, r1 := n / 0x40, n % 0x40;
    var q2, r2 := q1 / 0x40, q1 % 0x40;
    assert n == q1 * 0x40 + r1 && q1 == q2 * 0x40 + r2;
    assert n / 0x1000 == q2;
    var bytes := EncodeChar(c) + rest;
    assert bytes[0] == 0xE0 + q2 && bytes[1] == 0x80 + r2 && bytes[2] == 0x80 + r1;
    assert n == q2 * 0x1000 + r2 * 0x40 + r1;
  }

  lemma DecodeFour(c: char, rest: seq<byte>)
    requires 0x10000 <= c as int
    ensures DecodeFirst(EncodeChar(c) + rest) == Some((c, 4))
  {
    var n := c as int;
    var q1, r1 := n / 0x40, n % 0x40;
    var q2, r2 := q1 / 0x40, q1 % 0x40;
    var q3, r3 := q2 / 0x40, q2 % 0x40;
    assert n == q1 * 0x40 + r1 && q1 == q2 * 0x40 + r2 && q2 == q3 * 0x40 + r3;
    assert n / 0x1000 == q2 && n / 0x40000 == q3;
    var bytes := EncodeChar(c) + rest;
    assert bytes[0] == 0xF0 + q3 && bytes[1] == 0x80 + r3 && bytes[2] == 0x80 + r2 && bytes[3] == 0x80 + r1;
    assert n == q3 * 0x40000 + r3 * 0x1000 + r2 * 0x40 + r1;
  }

  /** Decoding an encoding gives the string back. */
  lemma {:induction false} DecodeEncode(s: string)
    ensures Decode(Encode(s)) == Some(s)
  {
    if s != [] {
      var e := EncodeChar(s[0]);
      DecodeFirstEncodeChar(s[0], Encode(s[1..]));
      assert (e + Encode(s[1..]))[|e|..] == Encode(s[1..]);
      DecodeEncode(s[1..]);
      assert s == [s[0]] + s[1..];
    }
  }

  /** The decoder accepts only the form the encoder writes: a decoded
      sequence is the encoding of its character, so no overlong form gets
      through. */
  lemma EncodeCharDecodeFirst(bytes: seq<byte>)
    requires DecodeFirst(bytes).Some?
    ensures EncodeChar(DecodeFirst(bytes).value.0) == bytes[..DecodeFirst(bytes).value.1]
  {
    var b0: int := bytes[0];
    var c := DecodeFirst(bytes).value.0;
    if b0 <= 0x7F {
    } else if b0 <= 0xDF {
      ReencodeTwo(c, bytes[0], bytes[1]);
      assert bytes[..2] == [bytes[0], bytes[1]];
    } else if b0 <= 0xEF {
      ReencodeThree(c, bytes[0], bytes[1], bytes[2]);
      assert bytes[..3] == [bytes[0], bytes[1], bytes[2]];
    } else {
      ReencodeFour(c, bytes[0], bytes[1], bytes[2], bytes[3]);
      assert bytes[..4] == [bytes[0], bytes[1], bytes[2], bytes[3]];
    }
  }

  lemma ReencodeTwo(c: char, b0: byte, b1: byte)
    requires 0xC2 <= b0 <= 0xDF && IsTail(b1)
    requires c as int == (b0 - 0xC0) * 0x40 + (b1 - 0x80)
    ensures EncodeChar(c) == [b0, b1]
  {
    var n := c as int;
    assert n / 0x40 == b0 - 0xC0 && n % 0x40 == b1 - 0x80;
  }

  lemma ReencodeThree(c: char, b0: byte, b1: byte, b2: byte)
    requires 0xE0 <= b0 <= 0xEF && 0x80 <= b1 <= 0xBF && IsTail(b2)
    requires b0 == 0xE0 ==> 0xA0 <= b1
    requires c as int == (b0 - 0xE0) * 0x1000 + (b1 - 0x80) * 0x40 + (b2 - 0x80)
    ensures EncodeChar(c) == [b0, b1, b2]
  {
    var n := c as int;
    var q := (b0 - 0xE0) * 0x40 + (b1 - 0x80);
    assert n == q * 0x40 + (b2 - 0x80);
    assert n / 0x40 == q && n % 0x40 == b2 - 0x80;
    assert q / 0x40 == b0 - 0xE0 && q % 0x40 == b1 - 0x80;
    assert n / 0x1000 == q / 0x40;
  }

  lemma ReencodeFour(c: char, b0: byte, b1: byte, b2: byte, b3: byte)
    requires 0xF0 <= b0 <= 0xF4 && 0x80 <= b1 <= 0xBF && IsTail(b2) && IsTail(b3)
    requires b0 == 0xF0 ==> 0x90 <= b1
    requires c as int == (b0 - 0xF0) * 0x40000 + (b1 - 0x80) * 0x1000 + (b2 - 0x80) * 0x40 + (b3 - 0x80)
    ensures EncodeChar(c) == [b0, b1, b2, b3]
  {
    var n := c as int;
    var q2 := (b0 - 0xF0) * 0x40 + (b1 - 0x80);
    var q1 := q2 * 0x40 + (b2 - 0x80);
    assert n == q1 * 0x40 + (b3 - 0x80);
    assert n / 0x40 == q1 && n % 0x40 == b3 - 0x80;
    assert q1 / 0x40 == q2 && q1 % 0x40 == b2 - 0x80;
    assert q2 / 0x40 == b0 - 0xF0 && q2 % 0x40 == b1 - 0x80;
    assert n / 0x1000 == q2;
    assert n / 0x40000 == b0 - 0xF0;
  }

  /** Whatever decodes re-encodes to the same bytes: decoding is injective
      and the decoder and the encoder agree on the one well-formed form. */
  lemma {:induction false} EncodeDecode(bytes: seq<byte>)
    requires Decode(bytes).Some?
    ensures Encode(Decode(bytes).value) == bytes
    decreases |bytes|
  {
    if bytes != [] {
      var first := DecodeFirst(bytes).value;
      var c, n := first.0, first.1;
      var tail := bytes[n..];
      assert bytes[..n] + tail == bytes;
      var rest := Decode(tail).value;
      assert Decode(bytes).value == [c] + rest;
      EncodeCharDecodeFirst(bytes);
      EncodeDecode(tail);
      assert Encode([c] + rest) == EncodeChar(c) + Encode(rest) by {
        assert ([c] + rest)[1..] == rest;
      }
      calc {
        Encode(Decode(bytes).value);
        EncodeChar(c) + Encode(rest);
        bytes[..n] + tail;
        bytes;
      }
    }
  }

  /** Bytes below 0x80 decode one to one into the characters with the same
      code points. */
  lemma {:induction false} DecodeAscii(bytes: seq<byte>)
    requires forall i :: 0 <= i < |bytes| ==> bytes[i] < 0x80
    ensures Decode(bytes).Some?
    ensures |Decode(bytes).value| == |bytes|
    ensures forall i :: 0 <= i < |bytes| ==> Decode(bytes).value[i] as int == bytes[i]
  {
    if bytes != [] {
      DecodeAscii(bytes[1..]);
    }
  }

  // ---------------------------------------------------------------------
  // Latin-1

  /** `s.encode('latin1')`: each character as the byte of its code point,
      or `None` when some character is above U+00FF. */
  function Latin1Encode(s: string): (r: Option<seq<byte>>)
    ensures r.None? <==> exists i :: 0 <= i < |s| && s[i] as int > 0xFF
    ensures r.Some? ==> |r.value| == |s| && forall i :: 0 <= i < |s| ==> r.value[i] == s[i] as int
  {
    if s == [] then Some([])
    else if s[0] as int > 0xFF then None
    else
      match Latin1Encode(s[1..])
      case None => None
      case Some(rest) => Some([s[0] as int] + rest)
  }

  /** `bytes.decode('latin1')`: each byte as the character of that code
      point. It never fails. */
  function Latin1Decode(bytes: seq<byte>): (r: string)
    ensures |r| == |bytes|
    ensures forall i :: 0 <= i < |bytes| ==> r[i] as int == bytes[i]
  {
    if bytes == [] then [] else [bytes[0] as char] + Latin1Decode(bytes[1..])
  }

  /** Latin-1 encoding inverts Latin-1 decoding. */
  lemma Latin1RoundTrip(bytes: seq<byte>)
    ensures Latin1Encode(Latin1Decode(bytes)) == Some(bytes)
  {
    var s := Latin1Decode(bytes);
    assert Latin1Encode(s).Some?;
    assert Latin1Encode(s).value == bytes;
  }
}
