/** What the workers of both brute forcers collect, independent of the
    transform: for each key of a range, in ascending order, one `(key, match)`
    entry per signature found; and the shared result list that each worker
    extends once with its whole batch. Thread scheduling is an `order` in which
    the workers' batches reach the list. */
module Search {
  import opened Bytes
  import opened Keyspace
  import opened Scanner

  /** One entry of `local_results`: the key tried and a match it revealed. */
  datatype Hit<K> = Hit(key: K, found: FsMatch)

  /** The entries a key contributes: its matches in scan order, each paired
      with the key. */
  function Tag<K>(key: K, ms: seq<FsMatch>): (r: seq<Hit<K>>)
    ensures |r| == |ms|
    ensures forall n :: 0 <= n < |r| ==> r[n].key == key && r[n].found == ms[n]
  {
    seq(|ms|, n requires 0 <= n < |ms| => Hit(key, ms[n]))
  }

  lemma TagSnoc<K>(key: K, ms: seq<FsMatch>, m: nat)
    requires m < |ms|
    ensures Tag(key, ms[..m + 1]) == Tag(key, ms[..m]) + [Hit(key, ms[m])]
  {
  }

  /** An entry belongs to a key's list exactly when it carries that key and
      one of its matches. */
  lemma TagMember<K>(key: K, ms: seq<FsMatch>, x: Hit<K>)
    ensures x in Tag(key, ms) <==> x.key == key && x.found in ms
  {
    if x.key == key && x.found in ms {
      var n :| 0 <= n < |ms| && ms[n] == x.found;
      assert Tag(key, ms)[n] == x;
    }
  }

  /** The entries of keys `lo .. hi - 1` in ascending key order, each key's
      entries given by `hits`. */
  function Batch<H>(hits: u32 -> seq<H>, lo: nat, hi: nat): seq<H>
    requires hi <= U32Limit
    decreases hi
  {
    if hi <= lo then [] else Batch(hits, lo, hi - 1) + hits(hi - 1)
  }

  /** Trying one more key appends that key's entries. */
  lemma BatchSnoc<H>(hits: u32 -> seq<H>, lo: nat, hi: nat)
    requires lo <= hi < U32Limit
    ensures Batch(hits, lo, hi + 1) == Batch(hits, lo, hi) + hits(hi)
  {
  }

  /** Consecutive key ranges give consecutive batches. */
  lemma {:induction false} BatchSplit<H>(hits: u32 -> seq<H>, lo: nat, mid: nat, hi: nat)
    requires lo <= mid <= hi <= U32Limit
    ensures Batch(hits, lo, hi) == Batch(hits, lo, mid) + Batch(hits, mid, hi)
    decreases hi
  {
    if mid < hi {
      BatchSplit(hits, lo, mid, hi - 1);
      assert Batch(hits, mid, hi) == Batch(hits, mid, hi - 1) + hits(hi - 1);
    }
  }

  /** An entry is in the batch of `[lo, hi)` exactly when some key of that
      range produced it. */
  lemma {:induction false} BatchMember<H>(hits: u32 -> seq<H>, lo: nat, hi: nat, x: H)
    requires hi <= U32Limit
    ensures x in Batch(hits, lo, hi) <==> exists k: u32 :: lo <= k < hi && x in hits(k)
    decreases hi
  {
    if lo < hi {
      BatchMember(hits, lo, hi - 1, x);
      var k: u32 := hi - 1;
      assert x in hits(k) ==> lo <= k < hi && x in hits(k);
    }
  }

  /** A worker's batch: the entries of its range `start_key..end_key`. */
  function Part<H>(hits: u32 -> seq<H>, rs: seq<KeyRange>, w: nat): seq<H>
    requires w < |rs|
  {
    Batch(hits, rs[w].start, rs[w].end)
  }

  predicate InBounds(order: seq<nat>, n: nat)
  {
    forall t :: 0 <= t < |order| ==> order[t] < n
  }

  /** The shared list after the workers `order[0]`, `order[1]`, ... have each
      extended it with their batch. */
  function Flatten<H>(hits: u32 -> seq<H>, rs: seq<KeyRange>, order: seq<nat>): seq<H>
    requires InBounds(order, |rs|)
    decreases |order|
  {
    if order == [] then []
    else Flatten(hits, rs, order[..|order| - 1]) + Part(hits, rs, order[|order| - 1])
  }

  lemma {:induction false} FlattenAppend<H>(hits: u32 -> seq<H>, rs: seq<KeyRange>, a: seq<nat>, b: seq<nat>)
    requires InBounds(a, |rs|) && InBounds(b, |rs|)
    ensures InBounds(a + b, |rs|)
    ensures Flatten(hits, rs, a + b) == Flatten(hits, rs, a) + Flatten(hits, rs, b)
    decreases |b|
  {
    assert InBounds(a + b, |rs|) by {
      forall t | 0 <= t < |a + b|
        ensures (a + b)[t] < |rs|
      {
        if t >= |a| {
          assert (a + b)[t] == b[t - |a|];
        }
      }
    }
    if b == [] {
      assert a + b == a;
    } else {
      var init, last := b[..|b| - 1], b[|b| - 1];
      assert InBounds(init, |rs|);
      FlattenAppend(hits, rs, a, init);
      var ab := a + b;
      assert ab[..|ab| - 1] == a + init;
      assert ab[|ab| - 1] == last;
      calc {
        Flatten(hits, rs, ab);
        Flatten(hits, rs, a + init) + Part(hits, rs, last);
        Flatten(hits, rs, a) + Flatten(hits, rs, init) + Part(hits, rs, last);
        Flatten(hits, rs, a) + (Flatten(hits, rs, init) + Part(hits, rs, last));
      }
    }
  }

  /** Removing the last element of `a` and an equal element of `b` from two
      permutations of each other leaves permutations of each other. */
  lemma RemoveMatching<T>(a: seq<T>, b: seq<T>, p: nat)
    requires multiset(a) == multiset(b)
    requires a != [] && p < |b| && b[p] == a[|a| - 1]
    ensures multiset(a[..|a| - 1]) == multiset(b[..p] + b[p + 1..])
  {
    var x := b[p];
    var ma, mr := multiset(a[..|a| - 1]), multiset(b[..p] + b[p + 1..]);
    assert a == a[..|a| - 1] + [x];
    assert multiset(a) == ma + multiset{x};
    assert b == b[..p] + [x] + b[p + 1..];
    assert multiset(b) == multiset(b[..p]) + multiset{x} + multiset(b[p + 1..]);
    assert multiset(b) == mr + multiset{x};
    assert ma == ma + multiset{x} - multiset{x};
    assert mr == mr + multiset{x} - multiset{x};
  }

  /** The list for an order is the lists of the workers before `b[p]`, then
      `b[p]`'s batch, then the lists of the workers after it. */
  lemma FlattenAround<H>(hits: u32 -> seq<H>, rs: seq<KeyRange>, b: seq<nat>, p: nat)
    requires InBounds(b, |rs|) && p < |b|
    ensures InBounds(b[..p], |rs|) && InBounds(b[p + 1..], |rs|)
    ensures Flatten(hits, rs, b)
         == Flatten(hits, rs, b[..p]) + Part(hits, rs, b[p]) + Flatten(hits, rs, b[p + 1..])
  {
    var x, before, after := b[p], b[..p], b[p + 1..];
    assert b == (before + [x]) + after;
    assert InBounds(before, |rs|) && InBounds(after, |rs|) && InBounds([x], |rs|);
    FlattenAppend(hits, rs, before, [x]);
    FlattenAppend(hits, rs, before + [x], after);
    assert Flatten(hits, rs, [x]) == Part(hits, rs, x) by {
      assert [x][..0] == [];
    }
  }

  /** Taking worker `b[p]` out of the middle of an order takes its batch out
      of the middle of the list. */
  lemma FlattenRemove<H>(hits: u32 -> seq<H>, rs: seq<KeyRange>, b: seq<nat>, p: nat)
    requires InBounds(b, |rs|) && p < |b|
    ensures InBounds(b[..p] + b[p + 1..], |rs|)
    ensures multiset(Flatten(hits, rs, b))
         == multiset(Flatten(hits, rs, b[..p] + b[p + 1..])) + multiset(Part(hits, rs, b[p]))
  {
    FlattenAround(hits, rs, b, p);
    FlattenAppend(hits, rs, b[..p], b[p + 1..]);
    var fb, fx, fa := Flatten(hits, rs, b[..p]), Part(hits, rs, b[p]), Flatten(hits, rs, b[p + 1..]);
    assert multiset(fb + fx + fa) == multiset(fb + fa) + multiset(fx);
  }

  /** The contents of the shared list, counted with multiplicity, do not depend
      on the order in which the workers finish. */
  lemma {:induction false} FlattenReordered<H>(hits: u32 -> seq<H>, rs: seq<KeyRange>, a: seq<nat>, b: seq<nat>)
    requires InBounds(a, |rs|) && InBounds(b, |rs|)
    requires multiset(a) == multiset(b)
    ensures multiset(Flatten(hits, rs, a)) == multiset(Flatten(hits, rs, b))
    decreases |a|
  {
    if a != [] {
      var last := |a| - 1;
      var x := a[last];
      assert x in multiset(b) by {
        assert x in multiset(a);
      }
      var p :| 0 <= p < |b| && b[p] == x;
      RemoveMatching(a, b, p);
      FlattenRemove(hits, rs, b, p);
      FlattenReordered(hits, rs, a[..last], b[..p] + b[p + 1..]);
    }
  }

  /** `[0, 1, ..., n - 1]`: the workers in spawn order. */
  function Iota(n: nat): (r: seq<nat>)
    ensures |r| == n
    ensures forall t :: 0 <= t < n ==> r[t] == t
  {
    seq(n, t requires 0 <= t < n => t)
  }

  /** An order in which all `n` workers report, each exactly once. */
  ghost predicate IsOrder(order: seq<nat>, n: nat)
  {
    InBounds(order, n) && multiset(order) == multiset(Iota(n))
  }

  /** With contiguous ranges, the first `k` workers in spawn order together
      produce the batch of `[lo, end of worker k - 1)`. */
  lemma {:induction false} FlattenPrefix<H>(hits: u32 -> seq<H>, rs: seq<KeyRange>, lo: nat, hi: nat, k: nat)
    requires Contiguous(rs, lo, hi)
    requires 1 <= k <= |rs|
    ensures InBounds(Iota(k), |rs|)
    ensures Flatten(hits, rs, Iota(k)) == Batch(hits, lo, rs[k - 1].end)
  {
    assert Iota(k)[..k - 1] == Iota(k - 1);
    if k == 1 {
      assert Flatten(hits, rs, Iota(0)) == [];
    } else {
      FlattenPrefix(hits, rs, lo, hi, k - 1);
      ContiguousBounds(rs, lo, hi, k - 2);
      BatchSplit(hits, lo, rs[k - 2].end, rs[k - 1].end);
    }
  }

  /** Workers reporting in spawn order produce exactly the batch of the whole
      keyspace `[lo, hi)`; in any other order, the same entries with the same
      multiplicities. */
  lemma AllWorkers<H>(hits: u32 -> seq<H>, rs: seq<KeyRange>, lo: nat, hi: nat, order: seq<nat>)
    requires Contiguous(rs, lo, hi)
    requires IsOrder(order, |rs|)
    ensures hi <= U32Limit
    ensures InBounds(Iota(|rs|), |rs|)
    ensures Flatten(hits, rs, Iota(|rs|)) == Batch(hits, lo, hi)
    ensures multiset(Flatten(hits, rs, order)) == multiset(Batch(hits, lo, hi))
  {
    FlattenPrefix(hits, rs, lo, hi, |rs|);
    FlattenReordered(hits, rs, order, Iota(|rs|));
  }

  /** The number of keys the workers try between them. */
  function KeysTried(rs: seq<KeyRange>): int
    decreases |rs|
  {
    if rs == [] then 0 else KeysTried(rs[..|rs| - 1]) + rs[|rs| - 1].end - rs[|rs| - 1].start
  }

  /** Contiguous ranges over `[lo, hi)` try `hi - lo` keys between them. */
  lemma {:induction false} KeysTriedContiguous(rs: seq<KeyRange>, lo: int, hi: int)
    requires Contiguous(rs, lo, hi)
    ensures KeysTried(rs) == hi - lo
    decreases |rs|
  {
    var last := |rs| - 1;
    if last == 0 {
      assert rs[..0] == [];
    } else {
      assert Contiguous(rs[..last], lo, rs[last].start);
      KeysTriedContiguous(rs[..last], lo, rs[last].start);
    }
  }

  /** The shared `results` vector behind its mutex. */
  class ResultSink<H> {
    var entries: seq<H>

    constructor ()
      ensures entries == []
    {
      entries := [];
    }

    /** `results_lock.extend(local_results)`. */
    method Extend(batch: seq<H>)
      modifies this
      ensures entries == old(entries) + batch
    {
      entries := entries + batch;
    }
  }
}
