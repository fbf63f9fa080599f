/** The repeating four-byte XOR of the XOR brute forcer (`xor_data`): byte `n`
    of the input is XORed with byte `n mod 4` of the key's little-endian
    encoding. */
module Xor {
  import opened Bytes
  import opened Keyspace

  /** The key bytes `key.to_le_bytes()` repeated to cover `len` data bytes. */
  function KeyPad(key: u32, len: nat): (p: seq<bv8>)
    ensures |p| == len
    ensures forall n :: 0 <= n < len ==> p[n] == KeyBytes(key, 4)[n % 4] as bv8
  {
    var keyBytes := ToBytes(KeyBytes(key, 4));
    seq(len, n requires 0 <= n < len => keyBytes[n % 4])
  }

  /** `xor_data(data, key)`: one output byte per input byte, each the input
      byte XORed with little-endian key byte `n mod 4`, that is bits
      `8 * (n mod 4)` to `8 * (n mod 4) + 7` of the key. */
  function XorData(data: seq<bv8>, key: u32): (r: seq<bv8>)
    ensures |r| == |data|
    ensures data == [] ==> r == []
    ensures forall n :: 0 <= n < |r| ==> r[n] ^ data[n] == KeyBytes(key, 4)[n % 4] as bv8
  {
    XorBytes(data, KeyPad(key, |data|))
  }

  /** XORing twice with the same key gives the data back. */
  lemma XorInvolution(data: seq<bv8>, key: u32)
    ensures XorData(XorData(data, key), key) == data
  {
    XorBytesTwice(data, KeyPad(key, |data|));
  }

  /** Key 0 leaves the data unchanged. */
  lemma XorZeroKey(data: seq<bv8>)
    ensures XorData(data, 0) == data
  {
    var pad := KeyPad(0, |data|);
    forall n | 0 <= n < |data|
      ensures pad[n] == 0
    {
      assert KeyBytes(0, 4)[n % 4] == 0 / Pow256(n % 4) % 256 == 0;
    }
  }
}
