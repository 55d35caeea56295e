/**
 * The Borsh binary serialization that Anchor uses for account data and instruction
 * arguments: little-endian fixed-width integers, a one-byte bool, raw fixed-size byte
 * arrays, and strings as a u32 byte count followed by their UTF-8 bytes.
 *
 * Every decoder reads from the front of its input and returns what it read together
 * with the bytes that follow, so decoders compose field by field.
 */
module Borsh {
  import opened Wrappers
  import opened Utf8

  const U32_LIMIT: int := 0x1_0000_0000
  const U64_LIMIT: int := 0x1_0000_0000_0000_0000
  const I64_HALF: int := 0x8000_0000_0000_0000

  type U64 = n: int | 0 <= n < 0x1_0000_0000_0000_0000
  type I64 = n: int | -0x8000_0000_0000_0000 <= n < 0x8000_0000_0000_0000

  /** A `[u8; 32]` array; also the shape of a `pubkey`. */
  type Bytes32 = s: seq<Byte> | |s| == 32 witness seq(32, _ => 0)

  datatype DecodeError = NotEnoughData | InvalidBool(found: Byte) | InvalidUtf8

  /** What a decoder returns: the value and the unread remainder. */
  type Decoded<T> = Result<(T, seq<Byte>), DecodeError>

  function Pow256(k: nat): (p: nat)
    ensures p > 0
  {
    if k == 0 then 1 else 256 * Pow256(k - 1)
  }

  /** The `k` low-order bytes of `n`, least significant first. */
  function LeBytes(n: nat, k: nat): (r: seq<Byte>)
    ensures |r| == k
  {
    if k == 0 then [] else [n % 256] + LeBytes(n / 256, k - 1)
  }

  /** The unsigned number whose little-endian bytes are `s`. */
  function LeValue(s: seq<Byte>): (n: nat)
    ensures n < Pow256(|s|)
  {
    if s == [] then 0 else s[0] + 256 * LeValue(s[1..])
  }

  lemma {:induction false} LeValueOfLeBytes(n: nat, k: nat)
    requires n < Pow256(k)
    ensures LeValue(LeBytes(n, k)) == n
  {
    if k > 0 {
      LeValueOfLeBytes(n / 256, k - 1);
      assert LeBytes(n, k)[1..] == LeBytes(n / 256, k - 1);
    }
  }

  lemma {:induction false} LeBytesOfLeValue(s: seq<Byte>)
    ensures LeBytes(LeValue(s), |s|) == s
  {
    if s != [] {
      LeBytesOfLeValue(s[1..]);
      assert [s[0]] + s[1..] == s;
    }
  }

  lemma Pow256Eight()
    ensures Pow256(8) == U64_LIMIT
    ensures Pow256(4) == U32_LIMIT
  {
    assert Pow256(4) == 0x1_0000_0000;
  }

  /** Reading `k` bytes off the front of `s`. */
  function Take(s: seq<Byte>, k: nat): (r: Decoded<seq<Byte>>)
    ensures r.Ok? <==> k <= |s|
    ensures r.Ok? ==> r.value.0 + r.value.1 == s && |r.value.0| == k
  {
    if |s| < k then Err(NotEnoughData) else Ok((s[..k], s[k..]))
  }

  lemma TakeOfAppend(a: seq<Byte>, rest: seq<Byte>)
    ensures Take(a + rest, |a|) == Ok((a, rest))
  {
    assert (a + rest)[..|a|] == a;
    assert (a + rest)[|a|..] == rest;
  }

  // ---- u8 ----

  function EncodeU8(b: Byte): seq<Byte> { [b] }

  function DecodeU8(s: seq<Byte>): Decoded<Byte>
  {
    var p :- Take(s, 1);
    Ok((p.0[0], p.1))
  }

  lemma U8RoundTrip(b: Byte, rest: seq<Byte>)
    ensures DecodeU8(EncodeU8(b) + rest) == Ok((b, rest))
  {
    TakeOfAppend(EncodeU8(b), rest);
  }

  // ---- bool ----

  function EncodeBool(b: bool): seq<Byte> { [if b then 1 else 0] }

  /** Only 0 and 1 are booleans; any other byte is rejected. */
  function DecodeBool(s: seq<Byte>): (r: Decoded<bool>)
    ensures |s| >= 1 && s[0] > 1 ==> r == Err(InvalidBool(s[0]))
  {
    var p :- Take(s, 1);
    if p.0[0] == 0 then Ok((false, p.1))
    else if p.0[0] == 1 then Ok((true, p.1))
    else Err(InvalidBool(p.0[0]))
  }

  lemma BoolRoundTrip(b: bool, rest: seq<Byte>)
    ensures DecodeBool(EncodeBool(b) + rest) == Ok((b, rest))
  {
    TakeOfAppend(EncodeBool(b), rest);
  }

  // ---- u32 / u64 / i64 ----

  function EncodeU32(n: nat): (r: seq<Byte>)
    requires n < U32_LIMIT
    ensures |r| == 4
  {
    LeBytes(n, 4)
  }

  function DecodeU32(s: seq<Byte>): (r: Decoded<nat>)
    ensures r.Ok? ==> r.value.0 < U32_LIMIT
  {
    Pow256Eight();
    var p :- Take(s, 4);
    Ok((LeValue(p.0), p.1))
  }

  lemma U32RoundTrip(n: nat, rest: seq<Byte>)
    requires n < U32_LIMIT
    ensures DecodeU32(EncodeU32(n) + rest) == Ok((n, rest))
  {
    Pow256Eight();
    TakeOfAppend(EncodeU32(n), rest);
    LeValueOfLeBytes(n, 4);
  }

  function EncodeU64(n: U64): (r: seq<Byte>)
    ensures |r| == 8
  {
    LeBytes(n, 8)
  }

  function DecodeU64(s: seq<Byte>): Decoded<U64>
  {
    Pow256Eight();
    var p :- Take(s, 8);
    Ok((LeValue(p.0), p.1))
  }

  lemma U64RoundTrip(n: U64, rest: seq<Byte>)
    ensures DecodeU64(EncodeU64(n) + rest) == Ok((n, rest))
  {
    Pow256Eight();
    TakeOfAppend(EncodeU64(n), rest);
    LeValueOfLeBytes(n, 8);
  }

  /** Two's complement: a negative value is stored as itself plus 2^64. */
  function EncodeI64(x: I64): (r: seq<Byte>)
    ensures |r| == 8
  {
    LeBytes(if x < 0 then x + U64_LIMIT else x, 8)
  }

  function DecodeI64(s: seq<Byte>): Decoded<I64>
  {
    Pow256Eight();
    var p :- Take(s, 8);
    var u := LeValue(p.0);
    Ok((if u >= I64_HALF then u - U64_LIMIT else u, p.1))
  }

  lemma I64RoundTrip(x: I64, rest: seq<Byte>)
    ensures DecodeI64(EncodeI64(x) + rest) == Ok((x, rest))
  {
    Pow256Eight();
    TakeOfAppend(EncodeI64(x), rest);
    LeValueOfLeBytes(if x < 0 then x + U64_LIMIT else x, 8);
  }

  // ---- [u8; 32] ----

  function EncodeBytes32(a: Bytes32): seq<Byte> { a }

  function DecodeBytes32(s: seq<Byte>): Decoded<Bytes32>
  {
    var p :- Take(s, 32);
    Ok((p.0, p.1))
  }

  lemma Bytes32RoundTrip(a: Bytes32, rest: seq<Byte>)
    ensures DecodeBytes32(EncodeBytes32(a) + rest) == Ok((a, rest))
  {
    TakeOfAppend(a, rest);
  }

  // ---- string ----

  /** A string fits the u32 length prefix. */
  predicate EncodableString(s: string) { |Utf8.Encode(s)| < U32_LIMIT }

  function EncodeString(s: string): (r: seq<Byte>)
    requires EncodableString(s)
    ensures |r| == 4 + |Utf8.Encode(s)|
  {
    EncodeU32(|Utf8.Encode(s)|) + Utf8.Encode(s)
  }

  /** Reads the byte count, then that many bytes, which must be well-formed UTF-8. */
  function DecodeString(s: seq<Byte>): Decoded<string>
  {
    var len :- DecodeU32(s);
    var body :- Take(len.1, len.0);
    match Utf8.Decode(body.0)
    case None => Err(InvalidUtf8)
    case Some(text) => Ok((text, body.1))
  }

  lemma StringRoundTrip(t: string, rest: seq<Byte>)
    requires EncodableString(t)
    ensures DecodeString(EncodeString(t) + rest) == Ok((t, rest))
  {
    var u := Utf8.Encode(t);
    assert EncodeString(t) + rest == EncodeU32(|u|) + (u + rest);
    U32RoundTrip(|u|, u + rest);
    TakeOfAppend(u, rest);
    Utf8.DecodeEncode(t);
  }
}
