/**
 * Lower-case hexadecimal text of a byte string: each byte becomes its two-digit base-16
 * form, zero-padded (`b.toString(16).padStart(2, "0")`, joined with ""). Node's
 * `digest("hex")` produces the same text.
 */
module Hex {
  import opened Wrappers
  import opened Utf8

  const HexDigits: string := "0123456789abcdef"

  predicate IsHexDigit(c: char) { ('0' <= c <= '9') || ('a' <= c <= 'f') }

  function NibbleChar(d: nat): (c: char)
    requires d < 16
    ensures IsHexDigit(c)
  {
    HexDigits[d]
  }

  function NibbleValue(c: char): (d: nat)
    requires IsHexDigit(c)
    ensures d < 16 && NibbleChar(d) == c
  {
    if c <= '9' then c as int - '0' as int else c as int - 'a' as int + 10
  }

  /** One byte as two characters, high nibble first. */
  function ByteHex(b: Byte): (s: string)
    ensures |s| == 2 && IsHexDigit(s[0]) && IsHexDigit(s[1])
  {
    [NibbleChar(b / 16), NibbleChar(b % 16)]
  }

  function Encode(bytes: seq<Byte>): (s: string)
  {
    if bytes == [] then [] else ByteHex(bytes[0]) + Encode(bytes[1..])
  }

  /** Reads back lower-case hex text of even length; anything else is rejected. */
  function Decode(s: string): (r: Option<seq<Byte>>)
    decreases |s|
  {
    if s == [] then Some([])
    else if |s| < 2 || !IsHexDigit(s[0]) || !IsHexDigit(s[1]) then None
    else
      var tail :- Decode(s[2..]);
      Some([NibbleValue(s[0]) * 16 + NibbleValue(s[1])] + tail)
  }

  /** Two characters per byte, all of them lower-case hex digits. */
  lemma {:induction false} EncodeShape(bytes: seq<Byte>)
    ensures |Encode(bytes)| == 2 * |bytes|
    ensures forall i :: 0 <= i < |Encode(bytes)| ==> IsHexDigit(Encode(bytes)[i])
  {
    if bytes != [] {
      EncodeShape(bytes[1..]);
    }
  }

  lemma ByteHexRoundTrip(b: Byte)
    ensures NibbleValue(ByteHex(b)[0]) * 16 + NibbleValue(ByteHex(b)[1]) == b
  {
    var hi, lo := b / 16, b % 16;
    assert HexDigits[hi] == ByteHex(b)[0] && HexDigits[lo] == ByteHex(b)[1];
    assert NibbleValue(HexDigits[hi]) == hi by { NibbleOfDigit(hi); }
    assert NibbleValue(HexDigits[lo]) == lo by { NibbleOfDigit(lo); }
  }

  lemma NibbleOfDigit(d: nat)
    requires d < 16
    ensures NibbleValue(NibbleChar(d)) == d
  {
    assert HexDigits == ['0','1','2','3','4','5','6','7','8','9','a','b','c','d','e','f'];
  }

  lemma {:induction false} DecodeEncode(bytes: seq<Byte>)
    ensures Decode(Encode(bytes)) == Some(bytes)
  {
    if bytes != [] {
      var h, t := ByteHex(bytes[0]), Encode(bytes[1..]);
      assert Encode(bytes) == h + t;
      DecodeEncode(bytes[1..]);
      DecodeStep(h, t);
      ByteHexRoundTrip(bytes[0]);
      assert [bytes[0]] + bytes[1..] == bytes;
    }
  }

  /** Decoding takes two leading digits as one byte and goes on with the rest. */
  lemma DecodeStep(h: string, t: string)
    requires |h| == 2 && IsHexDigit(h[0]) && IsHexDigit(h[1]) && Decode(t).Some?
    ensures Decode(h + t) == Some([NibbleValue(h[0]) * 16 + NibbleValue(h[1])] + Decode(t).value)
  {
    var s := h + t;
    assert s[0] == h[0] && s[1] == h[1] && s[2..] == t;
  }

  lemma {:induction false} EncodeDecode(s: string)
    requires Decode(s).Some?
    ensures Encode(Decode(s).value) == s
    decreases |s|
  {
    if s != [] {
      EncodeDecode(s[2..]);
      var hi, lo := NibbleValue(s[0]), NibbleValue(s[1]);
      var b: Byte := hi * 16 + lo;
      assert b / 16 == hi && b % 16 == lo;
      assert Decode(s).value[1..] == Decode(s[2..]).value;
      assert s == [s[0], s[1]] + s[2..];
    }
  }

  /** Distinct byte strings have distinct hex text, so comparing texts compares digests. */
  lemma EncodeInjective(a: seq<Byte>, b: seq<Byte>)
    ensures Encode(a) == Encode(b) <==> a == b
  {
    DecodeEncode(a);
    DecodeEncode(b);
  }
}
