/** The RC4 brute forcer: every key of the keyspace of the chosen length is
    turned into key bytes, the buffer is RC4-decrypted with them, and each
    filesystem signature found in the plaintext is reported with the key
    bytes. Workers own the key ranges of the split; each one appends its batch
    to the shared results once. */
module Rc4Finder {
  import opened Bytes
  import opened Keyspace
  import opened Scanner
  import opened Search
  import Rc4

  /** The entries key `keyVal` contributes: the signatures found in the
      buffer decrypted with its key bytes, each paired with those bytes. */
  function KeyHits(data: seq<bv8>, keyLength: nat, keyVal: u32): seq<Hit<seq<byte>>>
  {
    var keyBytes := KeyBytes(keyVal, keyLength);
    Tag(keyBytes, Scan(Rc4.Cipher(data, keyBytes)))
  }

  function Hits(data: seq<bv8>, keyLength: nat): u32 -> seq<Hit<seq<byte>>>
  {
    (keyVal: u32) => KeyHits(data, keyLength, keyVal)
  }

  /** `hits` lists, for every key, the entries that key contributes. The
      methods below take such a function as a ghost argument and are
      specified in terms of it; `BruteForce` passes `Hits(data, keyLength)`. */
  ghost predicate ListsHits(hits: u32 -> seq<Hit<seq<byte>>>, data: seq<bv8>, keyLength: nat)
  {
    forall k: u32 {:trigger KeyHits(data, keyLength, k)} :: hits(k) == KeyHits(data, keyLength, k)
  }

  lemma HitsListsHits(data: seq<bv8>, keyLength: nat)
    ensures ListsHits(Hits(data, keyLength), data, keyLength)
  {
  }

  /** One iteration of the `worker_thread` loop: derive the key bytes,
      decrypt, scan, and list a `(key bytes, match)` entry per match. */
  method TryKey(data: seq<bv8>, keyVal: u32, keyLength: nat, ghost hits: u32 -> seq<Hit<seq<byte>>>)
    returns (entries: seq<Hit<seq<byte>>>)
    requires ListsHits(hits, data, keyLength)
    ensures entries == hits(keyVal)
  {
    var keyBytes := KeyBytes(keyVal, keyLength);
    var decrypted := Rc4.Decrypt(data, keyBytes);
    var matches := FindFilesystemMagic(decrypted);
    entries := [];
    var m := 0;
    while m < |matches|
      invariant m <= |matches|
      invariant entries == Tag(keyBytes, matches[..m])
    {
      TagSnoc(keyBytes, matches, m);
      entries := entries + [Hit(keyBytes, matches[m])];
      m := m + 1;
    }
    assert matches[..|matches|] == matches;
    assert entries == KeyHits(data, keyLength, keyVal);
  }

  /** `worker_thread`: tries the keys `start_key..end_key` in ascending order
      and extends the shared results with everything found, and with nothing
      else. */
  method Worker(data: seq<bv8>, startKey: u32, endKey: u32, results: ResultSink<Hit<seq<byte>>>, keyLength: nat,
                ghost hits: u32 -> seq<Hit<seq<byte>>>)
    requires ListsHits(hits, data, keyLength)
    modifies results
    ensures results.entries == old(results.entries) + Batch(hits, startKey, endKey)
  {
    var localResults := [];
    var keyVal := startKey;
    while keyVal < endKey
      invariant startKey <= keyVal && (keyVal <= endKey || keyVal == startKey)
      invariant localResults == Batch(hits, startKey, keyVal)
      modifies {}
      decreases endKey - keyVal
    {
      var entries := TryKey(data, keyVal, keyLength, hits);
      BatchSnoc(hits, startKey, keyVal);
      localResults := localResults + entries;
      keyVal := keyVal + 1;
    }
    assert keyVal == endKey || endKey < keyVal == startKey;
    assert localResults == Batch(hits, startKey, endKey);
    if localResults != [] {
      results.Extend(localResults);
    } else {
      assert old(results.entries) + localResults == results.entries;
    }
  }

  /** The spawned threads: worker `order[t]` is the `t`-th to extend the
      shared results, each with its own range. */
  method RunWorkers(data: seq<bv8>, keyLength: nat, ranges: seq<KeyRange>, order: seq<nat>,
                    ghost hits: u32 -> seq<Hit<seq<byte>>>)
    returns (results: seq<Hit<seq<byte>>>)
    requires InBounds(order, |ranges|)
    requires ListsHits(hits, data, keyLength)
    ensures results == Flatten(hits, ranges, order)
  {
    var sink := new ResultSink();
    var t := 0;
    while t < |order|
      invariant t <= |order|
      invariant sink.entries == Flatten(hits, ranges, order[..t])
    {
      var w := order[t];
      Worker(data, ranges[w].start, ranges[w].end, sink, keyLength, hits);
      assert order[..t + 1][..t] == order[..t];
      t := t + 1;
    }
    assert order[..|order|] == order;
    results := sink.entries;
  }

  /** The search of `main` after argument parsing: clamp the key length, split
      the keyspace, run every worker (the batches reach the results in
      `order`, the order in which the threads take the lock) and report the
      number of keys tested. */
  method BruteForce(data: seq<bv8>, keyLengthArg: Option<nat>, numThreads: nat, order: seq<nat>,
                    ghost hits: u32 -> seq<Hit<seq<byte>>>)
    returns (ranges: seq<KeyRange>, results: seq<Hit<seq<byte>>>, keysTested: nat)
    requires numThreads >= 1
    requires IsOrder(order, numThreads)
    requires ListsHits(hits, data, KeyLength(keyLengthArg))
    ensures |ranges| == numThreads
    ensures forall w :: 0 <= w < numThreads ==>
              ranges[w] == Rc4RangeOf(MaxKeyValue(KeyLength(keyLengthArg)), numThreads, w)
    ensures results == Flatten(hits, ranges, order)
    ensures multiset(results)
         == multiset(Batch(hits, 0, MaxKeyValue(KeyLength(keyLengthArg))))
    ensures order == Iota(numThreads) ==>
              results == Batch(hits, 0, MaxKeyValue(KeyLength(keyLengthArg)))
    ensures keysTested == MaxKeyValue(KeyLength(keyLengthArg)) + 1
    ensures keysTested == KeysTried(ranges) + 1
  {
    var keyLength := KeyLength(keyLengthArg);
    var maxKey: nat := MaxKeyValue(keyLength);
    ranges := Rc4Split(maxKey, numThreads);
    results := RunWorkers(data, keyLength, ranges, order, hits);
    AllWorkers(hits, ranges, 0, maxKey, order);
    KeysTriedContiguous(ranges, 0, maxKey);
    keysTested := maxKey + 1;
  }

  /** The entries of one key: those carrying its key bytes whose match is a
      signature of the buffer decrypted with them. */
  lemma KeyHitsMember(data: seq<bv8>, keyLength: nat, hits: u32 -> seq<Hit<seq<byte>>>, k: u32, x: Hit<seq<byte>>)
    requires ListsHits(hits, data, keyLength)
    ensures x in hits(k) <==> x.key == KeyBytes(k, keyLength) && SignatureAt(Rc4.Cipher(data, x.key), x.found)
  {
    var keyBytes := KeyBytes(k, keyLength);
    assert hits(k) == KeyHits(data, keyLength, k);
    TagMember(keyBytes, Scan(Rc4.Cipher(data, keyBytes)), x);
    ScanExact(Rc4.Cipher(data, keyBytes));
  }

  /** An entry is reported exactly when its key bytes are those of a key below
      `max_key_value` and decrypting the buffer with them shows that
      signature. */
  lemma Reported(data: seq<bv8>, keyLength: nat, hits: u32 -> seq<Hit<seq<byte>>>, x: Hit<seq<byte>>)
    requires 1 <= keyLength <= 4
    requires ListsHits(hits, data, keyLength)
    ensures x in Batch(hits, 0, MaxKeyValue(keyLength))
        <==> (exists k: u32 :: k < MaxKeyValue(keyLength) && x.key == KeyBytes(k, keyLength))
             && SignatureAt(Rc4.Cipher(data, x.key), x.found)
  {
    BatchMember(hits, 0, MaxKeyValue(keyLength), x);
    forall k: u32
      ensures x in hits(k) <==> x.key == KeyBytes(k, keyLength) && SignatureAt(Rc4.Cipher(data, x.key), x.found)
    {
      KeyHitsMember(data, keyLength, hits, k, x);
    }
  }

  /** The half-open ranges leave `max_key_value` untried: no reported entry
      carries its key bytes. */
  lemma MaxKeyNeverReported(data: seq<bv8>, keyLength: nat, hits: u32 -> seq<Hit<seq<byte>>>, x: Hit<seq<byte>>)
    requires 1 <= keyLength <= 4
    requires ListsHits(hits, data, keyLength)
    requires x in Batch(hits, 0, MaxKeyValue(keyLength))
    ensures x.key != KeyBytes(MaxKeyValue(keyLength), keyLength)
  {
    Reported(data, keyLength, hits, x);
    var k: u32 :| k < MaxKeyValue(keyLength) && x.key == KeyBytes(k, keyLength);
    if x.key == KeyBytes(MaxKeyValue(keyLength), keyLength) {
      KeyBytesInjective(k, MaxKeyValue(keyLength), keyLength);
    }
  }

  /** A buffer that is an image RC4-encrypted under a key of the keyspace
      (below `max_key_value`) is caught: each signature of the image is
      reported with that key's bytes. */
  lemma EncryptedImageFound(plain: seq<bv8>, keyLength: nat, k: u32, m: FsMatch,
                            hits: u32 -> seq<Hit<seq<byte>>>)
    requires 1 <= keyLength <= 4
    requires k < MaxKeyValue(keyLength)
    requires SignatureAt(plain, m)
    requires ListsHits(hits, Rc4.Cipher(plain, KeyBytes(k, keyLength)), keyLength)
    ensures Hit(KeyBytes(k, keyLength), m) in Batch(hits, 0, MaxKeyValue(keyLength))
  {
    var keyBytes := KeyBytes(k, keyLength);
    Rc4.CipherInvolution(plain, keyBytes);
    Reported(Rc4.Cipher(plain, keyBytes), keyLength, hits, Hit(keyBytes, m));
  }
}
