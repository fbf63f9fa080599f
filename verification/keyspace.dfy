/** Key derivation and keyspace partitioning of the two brute forcers: the
    `key_length` clamp, `max_key_value`, the little-endian key bytes, and the
    per-thread `[start_key, end_key)` split computed in each program's `main`. */
module Keyspace {
  import opened Bytes

  datatype Option<T> = None | Some(value: T)

  /** The RC4 `key_length` setting: the parsed argument clamped with
      `.min(4).max(1)`, or 4 when the argument is absent. */
  function KeyLength(arg: Option<nat>): (r: nat)
    ensures 1 <= r <= 4
    ensures arg.Some? && 1 <= arg.value <= 4 ==> r == arg.value
    ensures arg == Some(0) ==> r == 1
    ensures arg.None? || arg.value >= 4 ==> r == 4
  {
    match arg
    case None => 4
    case Some(n) =>
      var atMost4 := if n < 4 then n else 4;
      if atMost4 > 1 then atMost4 else 1
  }

  /** `max_key_value`: the largest key of the RC4 keyspace for a key length. */
  function MaxKeyValue(keyLength: nat): (r: u32)
    ensures 1 <= keyLength <= 4 ==> r == Pow256(keyLength) - 1
    ensures !(1 <= keyLength <= 4) ==> r == 0xFFFF_FFFF
  {
    match keyLength
    case 1 => 0xFF
    case 2 => 0xFFFF
    case 3 => 0xFF_FFFF
    case 4 => 0xFFFF_FFFF
    case _ => 0xFFFF_FFFF
  }

  /** Number of key bytes the worker derives for a `key_length` (any value
      outside 1..4 falls into the four-byte default arm). */
  function KeyWidth(keyLength: nat): (w: nat)
  {
    if 1 <= keyLength <= 4 then keyLength else 4
  }

  /** The key material of `key_val`: its low `key_length` bytes, least
      significant first (`key_val as u8`, `(key_val >> 8) as u8`, ...).
      With `key_length` 4 this is also `key.to_le_bytes()`. */
  function KeyBytes(keyVal: u32, keyLength: nat): (r: seq<byte>)
    ensures |r| == KeyWidth(keyLength)
    ensures forall t :: 0 <= t < |r| ==> r[t] == keyVal / Pow256(t) % 256
  {
    var b0, b1, b2, b3 := keyVal % 0x100, keyVal / 0x100 % 0x100, keyVal / 0x1_0000 % 0x100, keyVal / 0x100_0000 % 0x100;
    assert Pow256(1) == 0x100 && Pow256(2) == 0x1_0000 && Pow256(3) == 0x100_0000 by {
      assert Pow256(0) == 1;
    }
    match keyLength
    case 1 => [b0]
    case 2 => [b0, b1]
    case 3 => [b0, b1, b2]
    case 4 => [b0, b1, b2, b3]
    case _ => [b0, b1, b2, b3]
  }

  /** Decoding the key bytes little-endian (`u32::from_le_bytes`) gives the
      key modulo `256^width`. */
  lemma KeyBytesValue(keyVal: u32, keyLength: nat)
    ensures LeValue(KeyBytes(keyVal, keyLength)) == keyVal % Pow256(KeyWidth(keyLength))
  {
    var full := KeyBytes(keyVal, 4);
    var b0, b1, b2, b3 := full[0], full[1], full[2], full[3];
    DigitValues(keyVal, b0, b1, b2, b3);
    var w := KeyWidth(keyLength);
    assert KeyBytes(keyVal, keyLength) == [b0, b1, b2, b3][..w];
    if w == 1 {
      assert [b0, b1, b2, b3][..1] == [b0];
    } else if w == 2 {
      assert [b0, b1, b2, b3][..2] == [b0, b1];
    } else if w == 3 {
      assert [b0, b1, b2, b3][..3] == [b0, b1, b2];
    } else {
      assert [b0, b1, b2, b3][..4] == [b0, b1, b2, b3];
    }
  }

  /** The little-endian value of each prefix of the four low bytes of `v` is
      `v` modulo the matching power of 256. */
  lemma DigitValues(v: u32, b0: byte, b1: byte, b2: byte, b3: byte)
    requires b0 == v % 0x100 && b1 == v / 0x100 % 0x100
    requires b2 == v / 0x1_0000 % 0x100 && b3 == v / 0x100_0000 % 0x100
    ensures Pow256(1) == 0x100 && Pow256(2) == 0x1_0000 && Pow256(3) == 0x100_0000 && Pow256(4) == U32Limit
    ensures LeValue([b0]) == v % 0x100
    ensures LeValue([b0, b1]) == v % 0x1_0000
    ensures LeValue([b0, b1, b2]) == v % 0x100_0000
    ensures LeValue([b0, b1, b2, b3]) == v
  {
    assert Pow256(2) == 0x1_0000 by { assert Pow256(1) == 0x100; }
    assert Pow256(4) == U32Limit by { assert Pow256(3) == 0x100_0000; }
    assert LeValue([b0]) == b0 by {
      assert [b0][1..] == [];
    }
    LeValue2(b0, b1);
    assert LeValue([b0, b1, b2]) == b0 + 0x100 * LeValue([b1, b2]) by {
      assert [b0, b1, b2][1..] == [b1, b2];
    }
    LeValue2(b1, b2);
    LeValue4(b0, b1, b2, b3);
    Digit8(v);
    Digit16(v);
    Digit24(v);
  }

  /** The base-256 digits of a 32-bit value, one digit at a time and with
      literal divisors. */
  lemma Digit8(v: nat)
    ensures v % 0x1_0000 == v % 0x100 + 0x100 * ((v / 0x100) % 0x100)
  {
    var a := v / 0x100;
    assert v == 0x100 * a + v % 0x100;
    assert a == 0x100 * (a / 0x100) + a % 0x100;
  }

  lemma Digit16(v: nat)
    ensures v % 0x100_0000 == v % 0x1_0000 + 0x1_0000 * ((v / 0x1_0000) % 0x100)
  {
    var a := v / 0x1_0000;
    assert v == 0x1_0000 * a + v % 0x1_0000;
    assert a == 0x100 * (a / 0x100) + a % 0x100;
  }

  lemma Digit24(v: u32)
    ensures v == v % 0x100_0000 + 0x100_0000 * ((v / 0x100_0000) % 0x100)
  {
    var a := v / 0x100_0000;
    assert v == 0x100_0000 * a + v % 0x100_0000;
    assert a < 0x100;
  }

  /** For a key inside the keyspace of its length, decoding the key bytes
      little-endian gives the key back; so distinct keys give distinct key
      material. */
  lemma KeyBytesRoundTrip(keyVal: u32, keyLength: nat)
    requires 1 <= keyLength <= 4
    requires keyVal <= MaxKeyValue(keyLength)
    ensures |KeyBytes(keyVal, keyLength)| == keyLength
    ensures LeValue(KeyBytes(keyVal, keyLength)) == keyVal
  {
    KeyBytesValue(keyVal, keyLength);
    assert KeyWidth(keyLength) == keyLength;
    ModBelow(keyVal, Pow256(keyLength));
  }

  lemma ModBelow(x: nat, p: nat)
    requires x < p
    ensures x % p == x
  {
  }

  lemma KeyBytesInjective(k1: u32, k2: u32, keyLength: nat)
    requires 1 <= keyLength <= 4
    requires k1 <= MaxKeyValue(keyLength) && k2 <= MaxKeyValue(keyLength)
    requires KeyBytes(k1, keyLength) == KeyBytes(k2, keyLength)
    ensures k1 == k2
  {
    KeyBytesRoundTrip(k1, keyLength);
    KeyBytesRoundTrip(k2, keyLength);
  }

  /** A worker's keys: the Rust half-open range `start_key..end_key`. */
  datatype KeyRange = KeyRange(start: u32, end: u32)

  predicate Contains(r: KeyRange, k: int)
  {
    r.start <= k < r.end
  }

  /** The ranges are non-empty as a list, each is well formed (so
      `end_key - start_key` cannot underflow), the first starts at `lo`,
      each ends where the next starts, and the last ends at `hi`. */
  ghost predicate Contiguous(rs: seq<KeyRange>, lo: int, hi: int)
  {
    && |rs| >= 1
    && rs[0].start == lo
    && rs[|rs| - 1].end == hi
    && (forall w :: 0 <= w < |rs| ==> rs[w].start <= rs[w].end)
    && (forall w :: 0 < w < |rs| ==> rs[w - 1].end == rs[w].start)
  }

  lemma {:induction false} ContiguousOrdered(rs: seq<KeyRange>, lo: int, hi: int, v: nat, w: nat)
    requires Contiguous(rs, lo, hi)
    requires v < w < |rs|
    ensures rs[v].end <= rs[w].start
    decreases w - v
  {
    if v + 1 < w {
      ContiguousOrdered(rs, lo, hi, v + 1, w);
      assert rs[v].end == rs[v + 1].start;
    }
  }

  lemma {:induction false} ContiguousBounds(rs: seq<KeyRange>, lo: int, hi: int, w: nat)
    requires Contiguous(rs, lo, hi)
    requires w < |rs|
    ensures lo <= rs[w].start && rs[w].end <= hi
  {
    if 0 < w {
      ContiguousOrdered(rs, lo, hi, 0, w);
    }
    if w < |rs| - 1 {
      ContiguousOrdered(rs, lo, hi, w, |rs| - 1);
    }
  }

  lemma {:induction false} ContiguousCovers(rs: seq<KeyRange>, lo: int, hi: int, k: int) returns (w: nat)
    requires Contiguous(rs, lo, hi)
    requires lo <= k < hi
    ensures w < |rs| && Contains(rs[w], k)
  {
    var last := |rs| - 1;
    if rs[last].start <= k {
      w := last;
    } else {
      assert Contiguous(rs[..last], lo, rs[last].start);
      w := ContiguousCovers(rs[..last], lo, rs[last].start, k);
    }
  }

  /** Some range of `rs` holds key `k`. */
  ghost predicate Covered(rs: seq<KeyRange>, k: int)
  {
    exists w :: 0 <= w < |rs| && Contains(rs[w], k)
  }

  /** Contiguous ranges tile `[lo, hi)`: every key of `[lo, hi)` lies in
      exactly one range and no range holds a key outside it (in particular
      `hi` itself is in none). */
  lemma PartitionExact(rs: seq<KeyRange>, lo: int, hi: int)
    requires Contiguous(rs, lo, hi)
    ensures forall k :: Covered(rs, k) <==> lo <= k < hi
    ensures forall v, w, k :: 0 <= v < |rs| && 0 <= w < |rs| && Contains(rs[v], k) && Contains(rs[w], k) ==> v == w
  {
    forall k | lo <= k < hi
      ensures Covered(rs, k)
    {
      var w := ContiguousCovers(rs, lo, hi, k);
    }
    forall w, k | 0 <= w < |rs| && Contains(rs[w], k)
      ensures lo <= k < hi
    {
      ContiguousBounds(rs, lo, hi, w);
    }
    forall v, w, k | 0 <= v < |rs| && 0 <= w < |rs| && Contains(rs[v], k) && Contains(rs[w], k)
      ensures v == w
    {
      if v < w {
        ContiguousOrdered(rs, lo, hi, v, w);
      } else if w < v {
        ContiguousOrdered(rs, lo, hi, w, v);
      }
    }
  }

  // ---------------------------------------------------------------------
  // The RC4 program's split (`keys_per_thread` as u32, u32 products)

  /** `((max_key_value as u64 + 1) / num_threads as u64) as u32`. */
  function Rc4KeysPerThread(maxKey: u32, numThreads: nat): u32
    requires numThreads >= 1
  {
    Wrap32((maxKey + 1) / numThreads)
  }

  /** Worker `w`'s range: `(i as u32) * keys_per_thread` up to either
      `max_key_value` (last worker) or `((i as u32) + 1) * keys_per_thread`. */
  function Rc4RangeOf(maxKey: u32, numThreads: nat, w: nat): KeyRange
    requires w < numThreads
  {
    var kpt := Rc4KeysPerThread(maxKey, numThreads);
    var start := Wrap32(Wrap32(w) * kpt);
    var end := if w == numThreads - 1 then maxKey else Wrap32(Wrap32(Wrap32(w) + 1) * kpt);
    KeyRange(start, end)
  }

  /** The u32 cast of `keys_per_thread` truncates only for a single thread over
      the full 32-bit keyspace, where it yields 0. */
  lemma Rc4KeysPerThreadCast(maxKey: u32, numThreads: nat)
    requires numThreads >= 1
    ensures !(numThreads == 1 && maxKey == 0xFFFF_FFFF) ==>
              Rc4KeysPerThread(maxKey, numThreads) == (maxKey + 1) / numThreads
    ensures numThreads == 1 && maxKey == 0xFFFF_FFFF ==> Rc4KeysPerThread(maxKey, numThreads) == 0
  {
    if numThreads >= 2 {
      DivShrinks(maxKey + 1, numThreads);
    }
  }

  lemma DivShrinks(x: nat, n: nat)
    requires n >= 2
    ensures x / n <= x / 2
  {
    var q := x / n;
    assert q * n <= x;
    assert q * 2 <= q * n;
  }

  lemma MulLe(a: nat, b: nat, c: nat)
    requires a <= b
    ensures a * c <= b * c
  {
    assert b * c == a * c + (b - a) * c;
  }

  /** With `kpt = floor(total / n)` and `w < n`, the product `w * kpt` stays
      at most `total - kpt`. */
  lemma ProductBelowTotal(total: nat, n: nat, w: nat)
    requires 1 <= n && w < n
    ensures w * (total / n) <= total - total / n
  {
    var q := total / n;
    assert q * n + total % n == total;
    MulLe(w, n - 1, q);
    assert (n - 1) * q == n * q - q;
  }

  /** Worker `w`'s RC4 range when `keys_per_thread` is positive: no u32
      product wraps, so the range is `[w * kpt, (w + 1) * kpt)`, or ends at
      `max_key_value` for the last worker. */
  lemma Rc4RangeExact(maxKey: u32, numThreads: nat, w: nat)
    requires w < numThreads
    requires Rc4KeysPerThread(maxKey, numThreads) > 0
    ensures Rc4RangeOf(maxKey, numThreads, w).start == w * Rc4KeysPerThread(maxKey, numThreads)
    ensures Rc4RangeOf(maxKey, numThreads, w).start <= Rc4RangeOf(maxKey, numThreads, w).end
    ensures w < numThreads - 1 ==>
              Rc4RangeOf(maxKey, numThreads, w).end == (w + 1) * Rc4KeysPerThread(maxKey, numThreads)
  {
    var kpt := Rc4KeysPerThread(maxKey, numThreads);
    Rc4StartNoWrap(maxKey, numThreads, w);
    if w < numThreads - 1 {
      Rc4StartNoWrap(maxKey, numThreads, w + 1);
      assert (w + 1) * kpt == w * kpt + kpt;
    }
  }

  /** Worker `w`'s start `w * kpt` fits in 32 bits and leaves room for one
      more share below `max_key_value + 1`. */
  lemma Rc4StartNoWrap(maxKey: u32, numThreads: nat, w: nat)
    requires w < numThreads
    requires Rc4KeysPerThread(maxKey, numThreads) > 0
    ensures w * Rc4KeysPerThread(maxKey, numThreads) <= maxKey + 1 - Rc4KeysPerThread(maxKey, numThreads)
    ensures Rc4RangeOf(maxKey, numThreads, w).start == w * Rc4KeysPerThread(maxKey, numThreads)
  {
    var kpt := Rc4KeysPerThread(maxKey, numThreads);
    Rc4KeysPerThreadCast(maxKey, numThreads);
    assert kpt == (maxKey + 1) / numThreads;
    ProductBelowTotal(maxKey + 1, numThreads, w);
    PositiveQuotient(maxKey + 1, numThreads);
    assert Wrap32(w) == w;
    var start := w * kpt;
    assert 0 <= start < U32Limit;
    assert Wrap32(Wrap32(w) * kpt) == start;
  }

  lemma PositiveQuotient(x: nat, n: nat)
    requires n >= 1 && x / n > 0
    ensures n <= x
  {
  }

  /** Worker `w`'s RC4 range when `keys_per_thread` is 0: empty at 0, except
      the last worker's `[0, max_key_value)`. */
  lemma Rc4RangeDegenerate(maxKey: u32, numThreads: nat, w: nat)
    requires w < numThreads
    requires Rc4KeysPerThread(maxKey, numThreads) == 0
    ensures Rc4RangeOf(maxKey, numThreads, w).start == 0
    ensures w < numThreads - 1 ==> Rc4RangeOf(maxKey, numThreads, w).end == 0
  {
  }

  lemma {:induction false} Rc4RangesContiguous(maxKey: u32, numThreads: nat, ranges: seq<KeyRange>)
    requires numThreads >= 1
    requires |ranges| == numThreads
    requires forall w :: 0 <= w < numThreads ==> ranges[w] == Rc4RangeOf(maxKey, numThreads, w)
    ensures Contiguous(ranges, 0, maxKey)
  {
    if Rc4KeysPerThread(maxKey, numThreads) == 0 {
      forall w | 0 <= w < numThreads
        ensures ranges[w].start == 0
        ensures w < numThreads - 1 ==> ranges[w].end == 0
      {
        Rc4RangeDegenerate(maxKey, numThreads, w);
      }
    } else {
      var kpt := Rc4KeysPerThread(maxKey, numThreads);
      forall w | 0 <= w < numThreads
        ensures ranges[w].start == w * kpt
        ensures ranges[w].start <= ranges[w].end
        ensures w < numThreads - 1 ==> ranges[w].end == (w + 1) * kpt
      {
        Rc4RangeExact(maxKey, numThreads, w);
      }
    }
  }

  /** The split loop of the RC4 program's `main`. */
  method Rc4Split(maxKey: u32, numThreads: nat) returns (ranges: seq<KeyRange>)
    requires numThreads >= 1
    ensures |ranges| == numThreads
    ensures forall w :: 0 <= w < numThreads ==> ranges[w] == Rc4RangeOf(maxKey, numThreads, w)
    ensures Contiguous(ranges, 0, maxKey)
  {
    var keysPerThread := Wrap32((maxKey + 1) / numThreads);
    ranges := [];
    var i := 0;
    while i < numThreads
      invariant 0 <= i <= numThreads
      invariant |ranges| == i
      invariant forall w :: 0 <= w < i ==> ranges[w] == Rc4RangeOf(maxKey, numThreads, w)
    {
      var startKey := Wrap32(Wrap32(i) * keysPerThread);
      var endKey := if i == numThreads - 1 then maxKey else Wrap32(Wrap32(Wrap32(i) + 1) * keysPerThread);
      ranges := ranges + [KeyRange(startKey, endKey)];
      i := i + 1;
    }
    Rc4RangesContiguous(maxKey, numThreads, ranges);
  }

  // ---------------------------------------------------------------------
  // The XOR program's split (`keys_per_thread` as u64, products cast to u32)

  /** `(0xFFFFFFFF_u64 + 1) / num_threads as u64`. */
  function XorKeysPerThread(numThreads: nat): nat
    requires numThreads >= 1
  {
    U32Limit / numThreads
  }

  /** Worker `w`'s range: `(i as u64 * keys_per_thread) as u32` up to either
      `0xFFFFFFFF` (last worker) or `((i as u64 + 1) * keys_per_thread) as u32`. */
  function XorRangeOf(numThreads: nat, w: nat): KeyRange
    requires w < numThreads
  {
    var kpt := XorKeysPerThread(numThreads);
    var start := Wrap32(w * kpt);
    var end := if w == numThreads - 1 then 0xFFFF_FFFF else Wrap32((w + 1) * kpt);
    KeyRange(start, end)
  }

  /** None of the u32 casts in the XOR split loses bits. */
  lemma XorSplitNoTruncation(numThreads: nat, w: nat)
    requires w < numThreads
    ensures w * XorKeysPerThread(numThreads) < U32Limit
    ensures w < numThreads - 1 ==> (w + 1) * XorKeysPerThread(numThreads) < U32Limit
  {
    var kpt := XorKeysPerThread(numThreads);
    ProductBelowTotal(U32Limit, numThreads, w);
    if w < numThreads - 1 {
      ProductBelowTotal(U32Limit, numThreads, w + 1);
    }
    if kpt == 0 {
      assert w * kpt == 0 && (w + 1) * kpt == 0;
    }
  }

  lemma {:induction false} XorRangesContiguous(numThreads: nat, ranges: seq<KeyRange>)
    requires numThreads >= 1
    requires |ranges| == numThreads
    requires forall w :: 0 <= w < numThreads ==> ranges[w] == XorRangeOf(numThreads, w)
    ensures Contiguous(ranges, 0, 0xFFFF_FFFF)
  {
    var kpt := XorKeysPerThread(numThreads);
    forall w | 0 <= w < numThreads
      ensures ranges[w].start == w * kpt
      ensures ranges[w].start <= ranges[w].end
      ensures w < numThreads - 1 ==> ranges[w].end == (w + 1) * kpt
    {
      XorSplitNoTruncation(numThreads, w);
      if w < numThreads - 1 {
        assert w * kpt <= (w + 1) * kpt;
      }
    }
  }

  /** The split loop of the XOR program's `main`. */
  method XorSplit(numThreads: nat) returns (ranges: seq<KeyRange>)
    requires numThreads >= 1
    ensures |ranges| == numThreads
    ensures forall w :: 0 <= w < numThreads ==> ranges[w] == XorRangeOf(numThreads, w)
    ensures Contiguous(ranges, 0, 0xFFFF_FFFF)
  {
    var keysPerThread := U32Limit / numThreads;
    ranges := [];
    var i := 0;
    while i < numThreads
      invariant 0 <= i <= numThreads
      invariant |ranges| == i
      invariant forall w :: 0 <= w < i ==> ranges[w] == XorRangeOf(numThreads, w)
    {
      var startKey := Wrap32(i * keysPerThread);
      var endKey := if i == numThreads - 1 then 0xFFFF_FFFF else Wrap32((i + 1) * keysPerThread);
      ranges := ranges + [KeyRange(startKey, endKey)];
      i := i + 1;
    }
    XorRangesContiguous(numThreads, ranges);
  }

  /** Over the full 32-bit keyspace the two programs split identically, although
      the RC4 program truncates `keys_per_thread` to 0 for a single thread. */
  lemma SplitsAgree(numThreads: nat, w: nat)
    requires w < numThreads
    ensures Rc4RangeOf(0xFFFF_FFFF, numThreads, w) == XorRangeOf(numThreads, w)
  {
    Rc4KeysPerThreadCast(0xFFFF_FFFF, numThreads);
    XorSplitNoTruncation(numThreads, w);
    if numThreads == 1 {
      assert w == 0;
    } else {
      var kpt := XorKeysPerThread(numThreads);
      assert numThreads <= U32Limit ==> Wrap32(w) == w;
      if numThreads > U32Limit {
        assert kpt == 0;
      }
    }
  }
}
