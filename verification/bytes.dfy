/** Machine integers shared by both brute forcers. Data bytes are `bv8`, so
    `^` is the byte XOR; bytes the programs compute with (RC4 table entries,
    key bytes) are the numbers `0..255`; 32-bit keys are a subset of `int`; and
    every narrowing cast is written out (`Wrap32`, `% 256`). */
module Bytes {

  const U32Limit: int := 0x1_0000_0000

  /** A `u8` as a number: RC4 table entries, cursors and key bytes, which the
      cipher adds and uses as indices. */
  type byte = x: int | 0 <= x < 256

  /** An unsigned 32-bit value (`u32`). */
  type u32 = x: int | 0 <= x < U32Limit

  /** `x as u32`: keeps the low 32 bits. */
  function Wrap32(x: int): (r: u32)
    ensures (x - r) % U32Limit == 0
    ensures 0 <= x < U32Limit ==> r == x
  {
    x % U32Limit
  }

  function Pow256(n: nat): (r: nat)
    ensures r >= 1
  {
    if n == 0 then 1 else 256 * Pow256(n - 1)
  }

  /** The numbers `0..255` that data bytes stand for. */
  function Values(bs: seq<bv8>): (r: seq<byte>)
    ensures |r| == |bs|
    ensures forall n :: 0 <= n < |bs| ==> r[n] == bs[n] as int
  {
    seq(|bs|, n requires 0 <= n < |bs| => bs[n] as int)
  }

  /** Distinct byte strings stand for distinct number strings. */
  lemma ValuesInjective(a: seq<bv8>, b: seq<bv8>)
    requires Values(a) == Values(b)
    ensures a == b
  {
    assert |a| == |b|;
    forall n | 0 <= n < |a|
      ensures a[n] == b[n]
    {
      assert Values(a)[n] == Values(b)[n];
    }
  }

  /** Little-endian decoding of a byte string (`u32::from_le_bytes`,
      `u16::from_le_bytes` for 4 and 2 bytes). */
  function LeValue(bs: seq<byte>): (v: nat)
    ensures v < Pow256(|bs|)
  {
    if bs == [] then 0 else bs[0] + 256 * LeValue(bs[1..])
  }

  /** Two byte strings of the same length with the same little-endian value are equal. */
  lemma {:induction false} LeValueInjective(a: seq<byte>, b: seq<byte>)
    requires |a| == |b|
    requires LeValue(a) == LeValue(b)
    ensures a == b
  {
    if a != [] {
      var x, y := LeValue(a[1..]), LeValue(b[1..]);
      assert a[0] + 256 * x == b[0] + 256 * y;
      assert x == y;
      LeValueInjective(a[1..], b[1..]);
      assert a == [a[0]] + a[1..] && b == [b[0]] + b[1..];
    }
  }

  /** Little-endian value of a four- or two-byte string. */
  lemma LeValue4(b0: byte, b1: byte, b2: byte, b3: byte)
    ensures LeValue([b0, b1, b2, b3]) == b0 + 0x100 * b1 + 0x1_0000 * b2 + 0x100_0000 * b3
  {
    assert [b0, b1, b2, b3][1..] == [b1, b2, b3];
    assert [b1, b2, b3][1..] == [b2, b3];
    LeValue2(b2, b3);
  }

  lemma LeValue2(b0: byte, b1: byte)
    ensures LeValue([b0, b1]) == b0 + 0x100 * b1
  {
    assert [b0, b1][1..] == [b1];
    assert [b1][1..] == [];
  }

  /** Byte-wise XOR of two equally long byte strings. */
  function XorBytes(a: seq<bv8>, b: seq<bv8>): (r: seq<bv8>)
    requires |a| == |b|
    ensures |r| == |a|
    ensures forall n :: 0 <= n < |a| ==> r[n] ^ b[n] == a[n]
  {
    seq(|a|, n requires 0 <= n < |a| => a[n] ^ b[n])
  }

  lemma XorBytesTwice(a: seq<bv8>, b: seq<bv8>)
    requires |a| == |b|
    ensures XorBytes(XorBytes(a, b), b) == a
  {
  }

  lemma XorBytesPrefix(a: seq<bv8>, b: seq<bv8>, m: nat)
    requires |a| == |b| && m <= |a|
    ensures XorBytes(a[..m], b[..m]) == XorBytes(a, b)[..m]
  {
  }

  /** Extending the data prefix and the keystream by one byte each extends
      their XOR by one byte. */
  lemma XorPrefixSnoc(data: seq<bv8>, n: nat, ks: seq<bv8>, y: bv8)
    requires n < |data| && |ks| == n
    ensures XorBytes(data[..n + 1], ks + [y]) == XorBytes(data[..n], ks) + [data[n] ^ y]
  {
    assert data[..n + 1] == data[..n] + [data[n]];
  }

  /** Numeric bytes as the `u8` values data is XORed with. */
  function ToBytes(ks: seq<byte>): (r: seq<bv8>)
    ensures |r| == |ks|
    ensures forall n :: 0 <= n < |ks| ==> r[n] == ks[n] as bv8
  {
    seq(|ks|, n requires 0 <= n < |ks| => ks[n] as bv8)
  }

  lemma ToBytesSnoc(ks: seq<byte>, y: byte)
    ensures ToBytes(ks + [y]) == ToBytes(ks) + [y as bv8]
  {
  }

  lemma ToBytesPrefix(ks: seq<byte>, m: nat)
    requires m <= |ks|
    ensures ToBytes(ks[..m]) == ToBytes(ks)[..m]
  {
  }
}
