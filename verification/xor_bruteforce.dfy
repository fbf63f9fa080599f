/** The XOR brute forcer: every 32-bit key except `0xFFFFFFFF` is tried as a
    repeating four-byte XOR key over the buffer, and each filesystem
    signature found in the result is reported with the key. Workers own the
    key ranges of the split; each one appends its batch to the shared results
    once. */
module XorBruteforce {
  import opened Bytes
  import opened Keyspace
  import opened Scanner
  import opened Search
  import opened Xor

  /** The entries key `key` contributes: the signatures found in the buffer
      XORed with it, each paired with the key. */
  function KeyHits(data: seq<bv8>, key: u32): seq<Hit<u32>>
  {
    Tag(key, Scan(XorData(data, key)))
  }

  function Hits(data: seq<bv8>): u32 -> seq<Hit<u32>>
  {
    (key: u32) => KeyHits(data, key)
  }

  /** `hits` lists, for every key, the entries that key contributes. The
      methods below take such a function as a ghost argument and are
      specified in terms of it; `Hits(data)` is one. */
  ghost predicate ListsHits(hits: u32 -> seq<Hit<u32>>, data: seq<bv8>)
  {
    forall k: u32 {:trigger KeyHits(data, k)} :: hits(k) == KeyHits(data, k)
  }

  lemma HitsListsHits(data: seq<bv8>)
    ensures ListsHits(Hits(data), data)
  {
  }

  /** One iteration of the `worker_thread` loop: XOR, scan, and list a
      `(key, match)` entry per match. */
  method TryKey(data: seq<bv8>, key: u32, ghost hits: u32 -> seq<Hit<u32>>) returns (entries: seq<Hit<u32>>)
    requires ListsHits(hits, data)
    ensures entries == hits(key)
  {
    var xored := XorData(data, key);
    var matches := FindFilesystemMagic(xored);
    entries := [];
    var m := 0;
    while m < |matches|
      invariant m <= |matches|
      invariant entries == Tag(key, matches[..m])
    {
      TagSnoc(key, matches, m);
      entries := entries + [Hit(key, matches[m])];
      m := m + 1;
    }
    assert matches[..|matches|] == matches;
    assert entries == KeyHits(data, key);
  }

  /** `worker_thread`: tries the keys `start_key..end_key` in ascending order
      and extends the shared results with everything found, and with nothing
      else. */
  method Worker(data: seq<bv8>, startKey: u32, endKey: u32, results: ResultSink<Hit<u32>>,
                ghost hits: u32 -> seq<Hit<u32>>)
    requires ListsHits(hits, data)
    modifies results
    ensures results.entries == old(results.entries) + Batch(hits, startKey, endKey)
  {
    var localResults := [];
    var key := startKey;
    while key < endKey
      invariant startKey <= key && (key <= endKey || key == startKey)
      invariant localResults == Batch(hits, startKey, key)
      modifies {}
      decreases endKey - key
    {
      var entries := TryKey(data, key, hits);
      BatchSnoc(hits, startKey, key);
      localResults := localResults + entries;
      key := key + 1;
    }
    assert key == endKey || endKey < key == startKey;
    assert localResults == Batch(hits, startKey, endKey);
    if localResults != [] {
      results.Extend(localResults);
    } else {
      assert old(results.entries) + localResults == results.entries;
    }
  }

  /** The spawned threads: worker `order[t]` is the `t`-th to extend the
      shared results, each with its own range. */
  method RunWorkers(data: seq<bv8>, ranges: seq<KeyRange>, order: seq<nat>, ghost hits: u32 -> seq<Hit<u32>>)
    returns (results: seq<Hit<u32>>)
    requires InBounds(order, |ranges|)
    requires ListsHits(hits, data)
    ensures results == Flatten(hits, ranges, order)
  {
    var sink := new ResultSink();
    var t := 0;
    while t < |order|
      invariant t <= |order|
      invariant sink.entries == Flatten(hits, ranges, order[..t])
    {
      var w := order[t];
      Worker(data, ranges[w].start, ranges[w].end, sink, hits);
      assert order[..t + 1][..t] == order[..t];
      t := t + 1;
    }
    assert order[..|order|] == order;
    results := sink.entries;
  }

  /** The search of `main` after reading the buffer: split the 32-bit
      keyspace, run every worker (the batches reach the results in `order`,
      the order in which the threads take the lock) and report `2^32` keys
      tested, one more than the workers try. */
  method BruteForce(data: seq<bv8>, numThreads: nat, order: seq<nat>, ghost hits: u32 -> seq<Hit<u32>>)
    returns (ranges: seq<KeyRange>, results: seq<Hit<u32>>, keysTested: nat)
    requires numThreads >= 1
    requires IsOrder(order, numThreads)
    requires ListsHits(hits, data)
    ensures |ranges| == numThreads
    ensures forall w :: 0 <= w < numThreads ==> ranges[w] == XorRangeOf(numThreads, w)
    ensures results == Flatten(hits, ranges, order)
    ensures multiset(results) == multiset(Batch(hits, 0, 0xFFFF_FFFF))
    ensures order == Iota(numThreads) ==> results == Batch(hits, 0, 0xFFFF_FFFF)
    ensures keysTested == U32Limit
    ensures keysTested == KeysTried(ranges) + 1
  {
    ranges := XorSplit(numThreads);
    results := RunWorkers(data, ranges, order, hits);
    AllWorkers(hits, ranges, 0, 0xFFFF_FFFF, order);
    KeysTriedContiguous(ranges, 0, 0xFFFF_FFFF);
    keysTested := 0xFFFF_FFFF + 1;
  }

  /** The entries of one key: those carrying the key whose match is a
      signature of the buffer XORed with it. */
  lemma KeyHitsMember(data: seq<bv8>, hits: u32 -> seq<Hit<u32>>, k: u32, x: Hit<u32>)
    requires ListsHits(hits, data)
    ensures x in hits(k) <==> x.key == k && SignatureAt(XorData(data, k), x.found)
  {
    assert hits(k) == KeyHits(data, k);
    TagMember(k, Scan(XorData(data, k)), x);
    ScanExact(XorData(data, k));
  }

  /** An entry is reported exactly when its key is below `0xFFFFFFFF` and
      XORing the buffer with it shows that signature. */
  lemma Reported(data: seq<bv8>, hits: u32 -> seq<Hit<u32>>, x: Hit<u32>)
    requires ListsHits(hits, data)
    ensures x in Batch(hits, 0, 0xFFFF_FFFF)
        <==> x.key < 0xFFFF_FFFF && SignatureAt(XorData(data, x.key), x.found)
  {
    BatchMember(hits, 0, 0xFFFF_FFFF, x);
    forall k: u32
      ensures x in hits(k) <==> x.key == k && SignatureAt(XorData(data, k), x.found)
    {
      KeyHitsMember(data, hits, k, x);
    }
  }

  /** The last worker's range ends at `0xFFFFFFFF` exclusive: that key is
      never tried, so nothing is ever reported for it. */
  lemma LastKeyNeverReported(data: seq<bv8>, hits: u32 -> seq<Hit<u32>>, m: FsMatch)
    requires ListsHits(hits, data)
    ensures Hit(0xFFFF_FFFF, m) !in Batch(hits, 0, 0xFFFF_FFFF)
  {
    Reported(data, hits, Hit(0xFFFF_FFFF, m));
  }

  /** A buffer that is an image XORed with a key other than `0xFFFFFFFF` is
      caught: each signature of the image is reported with that key. */
  lemma EncryptedImageFound(plain: seq<bv8>, key: u32, m: FsMatch, hits: u32 -> seq<Hit<u32>>)
    requires key < 0xFFFF_FFFF
    requires SignatureAt(plain, m)
    requires ListsHits(hits, XorData(plain, key))
    ensures Hit(key, m) in Batch(hits, 0, 0xFFFF_FFFF)
  {
    XorInvolution(plain, key);
    Reported(XorData(plain, key), hits, Hit(key, m));
  }
}
