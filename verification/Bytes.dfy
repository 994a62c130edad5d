/** Bytes and big-endian integers, the ground of every canonical form. */
module Bytes {
  import Basics

  type byte = x: int | 0 <= x < 256

  type u16 = x: int | 0 <= x < 0x1_0000
  type u32 = x: int | 0 <= x < 0x1_0000_0000
  type u64 = x: int | 0 <= x < 0x1_0000_0000_0000_0000

  /** An uninterpreted 16-byte identity. */
  type Uuid = s: seq<byte> | |s| == 16 witness seq(16, _ => 0)

  function Power256(n: nat): (p: int)
    ensures p >= 1
  {
    if n == 0 then 1 else 256 * Power256(n - 1)
  }

  /** The n-byte big-endian form of v. */
  function BigEndian(v: nat, n: nat): (s: seq<byte>)
    ensures |s| == n
  {
    if n == 0 then [] else BigEndian(v / 256, n - 1) + [v % 256]
  }

  /** The integer a byte string denotes, most significant byte first. */
  function FromBigEndian(s: seq<byte>): nat {
    if s == [] then 0 else FromBigEndian(s[..|s| - 1]) * 256 + s[|s| - 1]
  }

  lemma {:induction false} DecodeOfEncode(v: nat, n: nat)
    requires v < Power256(n)
    ensures FromBigEndian(BigEndian(v, n)) == v
  {
    if n > 0 {
      var s := BigEndian(v, n);
      assert s[..n - 1] == BigEndian(v / 256, n - 1);
      DecodeOfEncode(v / 256, n - 1);
    }
  }

  lemma {:induction false} EncodeOfDecode(s: seq<byte>)
    ensures FromBigEndian(s) < Power256(|s|)
    ensures BigEndian(FromBigEndian(s), |s|) == s
  {
    if s != [] {
      var n := |s| - 1;
      EncodeOfDecode(s[..n]);
      assert s == s[..n] + [s[n]];
    }
  }

  /** The bytes one at a time: byte i is the value shifted down past the bytes after it. */
  lemma {:induction false} BigEndianAt(v: nat, n: nat, i: nat)
    requires i < n
    ensures BigEndian(v, n)[i] == v / Power256(n - 1 - i) % 256
  {
    if i < n - 1 {
      BigEndianAt(v / 256, n - 1, i);
      ShiftTwice(v, Power256(n - 2 - i));
    }
  }

  lemma ShiftTwice(v: nat, p: nat)
    requires p >= 1
    ensures v / 256 / p == v / (256 * p)
  {
    var q := v / 256 / p;
    var r := v - 256 * (v / 256) + 256 * (v / 256 - p * q);
    assert v == (256 * p) * q + r && 0 <= r < 256 * p;
    Basics.QuotientIs(v, 256 * p, q, r);
  }

  lemma Widths()
    ensures Power256(1) == 0x100 && Power256(2) == 0x1_0000
    ensures Power256(4) == 0x1_0000_0000 && Power256(8) == 0x1_0000_0000_0000_0000
  {
    assert Power256(3) == 256 * Power256(2);
    assert Power256(4) == 256 * Power256(3);
    assert Power256(5) == 256 * Power256(4);
    assert Power256(6) == 256 * Power256(5);
    assert Power256(7) == 256 * Power256(6);
    assert Power256(8) == 256 * Power256(7);
  }

  function EncU8(v: byte): seq<byte> { [v] }

  function EncU16(v: u16): (s: seq<byte>)
    ensures |s| == 2
  {
    BigEndian(v, 2)
  }

  function EncU32(v: u32): (s: seq<byte>)
    ensures |s| == 4
  {
    BigEndian(v, 4)
  }

  function EncU64(v: u64): (s: seq<byte>)
    ensures |s| == 8
  {
    BigEndian(v, 8)
  }

  function DecU16(s: seq<byte>): u16
    requires |s| == 2
  {
    EncodeOfDecode(s); Widths(); FromBigEndian(s)
  }

  function DecU32(s: seq<byte>): u32
    requires |s| == 4
  {
    EncodeOfDecode(s); Widths(); FromBigEndian(s)
  }

  function DecU64(s: seq<byte>): u64
    requires |s| == 8
  {
    EncodeOfDecode(s); Widths(); FromBigEndian(s)
  }

  /** Each integer form is a bijection between the integers of its width and the byte strings of its length. */
  lemma U16RoundTrip(v: u16, s: seq<byte>)
    requires |s| == 2
    ensures DecU16(EncU16(v)) == v && EncU16(DecU16(s)) == s
  {
    Widths(); DecodeOfEncode(v, 2); EncodeOfDecode(s);
  }

  lemma U32RoundTrip(v: u32, s: seq<byte>)
    requires |s| == 4
    ensures DecU32(EncU32(v)) == v && EncU32(DecU32(s)) == s
  {
    Widths(); DecodeOfEncode(v, 4); EncodeOfDecode(s);
  }

  lemma U64RoundTrip(v: u64, s: seq<byte>)
    requires |s| == 8
    ensures DecU64(EncU64(v)) == v && EncU64(DecU64(s)) == s
  {
    Widths(); DecodeOfEncode(v, 8); EncodeOfDecode(s);
  }
}
