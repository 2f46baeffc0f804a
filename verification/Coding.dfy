/**
  Fixed-width and variable-length integers and length-prefixed strings as the store's files hold them.
  Every code is read back exactly, whatever follows it.
*/
module Coding {
  import opened Base

  lemma Associative(a: Bytes, b: Bytes, c: Bytes)
    ensures (a + b) + c == a + (b + c)
  {
  }

  type Word = w: nat | w < 0x1_0000_0000

  function EncodeFixed32(w: Word): Bytes {
    [(w % 256) as byte, (w / 256 % 256) as byte, (w / 65536 % 256) as byte, (w / 16777216) as byte]
  }

  function DecodeFixed32(b: Bytes): Word
    requires |b| == 4
  {
    b[0] as nat + 256 * b[1] as nat + 65536 * b[2] as nat + 16777216 * b[3] as nat
  }

  lemma Fixed32RoundTrip(w: Word)
    ensures DecodeFixed32(EncodeFixed32(w)) == w
  {
    var a, b, c := w / 256, w / 65536, w / 16777216;
    assert a / 256 == b && b / 256 == c;
    assert w == 256 * a + w % 256 && a == 256 * b + a % 256 && b == 256 * c + b % 256;
  }

  function EncodeFixed64(n: nat): Bytes
    requires n < 0x1_0000_0000_0000_0000
  {
    EncodeFixed32(n % 0x1_0000_0000) + EncodeFixed32(n / 0x1_0000_0000)
  }

  function DecodeFixed64(b: Bytes): nat
    requires |b| == 8
  {
    DecodeFixed32(b[..4]) + 0x1_0000_0000 * DecodeFixed32(b[4..])
  }

  lemma Fixed64RoundTrip(n: nat)
    requires n < 0x1_0000_0000_0000_0000
    ensures DecodeFixed64(EncodeFixed64(n)) == n
  {
    var low, high := n % 0x1_0000_0000, n / 0x1_0000_0000;
    Fixed32RoundTrip(low);
    Fixed32RoundTrip(high);
    assert EncodeFixed64(n)[..4] == EncodeFixed32(low) && EncodeFixed64(n)[4..] == EncodeFixed32(high);
  }

  // ---------------------------------------------------------------- varints

  /** Seven bits at a time, least significant first, with the high bit set on all bytes but the last. */
  function EncodeVarint(n: nat): (b: Bytes)
    ensures |b| >= 1
  {
    if n < 128 then [n as byte] else [(n % 128 + 128) as byte] + EncodeVarint(n / 128)
  }

  /** The value and the number of bytes it takes, if it ends within `limit` bytes. */
  function DecodeVarint(b: Bytes, limit: nat): (r: Option<(nat, nat)>)
    ensures r.Some? ==> 1 <= r.value.1 <= |b|
  {
    if limit == 0 || b == [] then None
    else if b[0] < 128 then Some((b[0] as nat, 1))
    else
      match DecodeVarint(b[1..], limit - 1)
      case None => None
      case Some(rest) => Some((b[0] as nat - 128 + 128 * rest.0, 1 + rest.1))
  }

  function Pow128(k: nat): (p: nat)
    ensures p >= 1
  {
    if k == 0 then 1 else 128 * Pow128(k - 1)
  }

  lemma {:induction false} VarintRoundTrip(n: nat, rest: Bytes, limit: nat)
    requires n < Pow128(limit) && limit >= 1
    ensures DecodeVarint(EncodeVarint(n) + rest, limit) == Some((n, |EncodeVarint(n)|))
    ensures |EncodeVarint(n)| <= limit
  {
    var code := EncodeVarint(n);
    if n >= 128 {
      VarintRoundTrip(n / 128, rest, limit - 1);
      assert (code + rest)[1..] == EncodeVarint(n / 128) + rest;
      assert (code + rest)[0] == (n % 128 + 128) as byte;
    } else {
      assert (code + rest)[0] == n as byte;
    }
  }

  const VARINT32_BYTES: nat := 5
  const VARINT64_BYTES: nat := 10

  lemma Varint32RoundTrip(w: Word, rest: Bytes)
    ensures DecodeVarint(EncodeVarint(w) + rest, VARINT32_BYTES) == Some((w as nat, |EncodeVarint(w)|))
  {
    assert Pow128(5) == 128 * (128 * (128 * (128 * 128)));
    VarintRoundTrip(w, rest, VARINT32_BYTES);
  }

  lemma Varint64RoundTrip(n: nat, rest: Bytes)
    requires n < 0x1_0000_0000_0000_0000
    ensures DecodeVarint(EncodeVarint(n) + rest, VARINT64_BYTES) == Some((n, |EncodeVarint(n)|))
  {
    assert Pow128(5) == 128 * (128 * (128 * (128 * 128)));
    assert Pow128(10) == 128 * (128 * (128 * (128 * (128 * Pow128(5)))));
    VarintRoundTrip(n, rest, VARINT64_BYTES);
  }

  // ---------------------------------------------------------------- length-prefixed strings

  function EncodeString(s: Bytes): Bytes {
    EncodeVarint(|s|) + s
  }

  /** The string and what is left after it. */
  function DecodeString(b: Bytes): (r: Option<(Bytes, Bytes)>)
    ensures r.Some? ==> |r.value.1| < |b|
  {
    match DecodeVarint(b, VARINT32_BYTES)
    case None => None
    case Some(len) =>
      if |b| - len.1 < len.0 then None
      else Some((b[len.1..len.1 + len.0], b[len.1 + len.0..]))
  }

  lemma StringRoundTrip(s: Bytes, rest: Bytes)
    requires |s| < 0x1_0000_0000
    ensures DecodeString(EncodeString(s) + rest) == Some((s, rest))
  {
    var b := EncodeString(s) + rest;
    assert b == EncodeVarint(|s|) + (s + rest);
    Varint32RoundTrip(|s|, s + rest);
    var n := |EncodeVarint(|s|)|;
    assert b[n..n + |s|] == s && b[n + |s|..] == rest;
  }
}
