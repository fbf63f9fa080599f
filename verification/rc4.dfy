/** The RC4 (ARCFOUR) stream cipher of the RC4 brute forcer: key scheduling
    builds a permutation of the byte values in a 256-byte table, and each data
    byte is XORed with the next keystream byte. The functions below are the
    functional reading of the cipher; the class `Rc4` is the in-place engine
    (`struct RC4`) proved against them. */
module Rc4 {
  import opened Bytes

  /** `u8::wrapping_add`. */
  function WrappingAdd(x: byte, y: byte): (r: byte)
    ensures r == (x + y) % 256
  {
    if x + y < 256 then x + y else x + y - 256
  }

  /** The byte values `0, 1, ..., 255` in order. */
  function Identity(): (s: seq<byte>)
    ensures |s| == 256
    ensures forall n :: 0 <= n < 256 ==> s[n] == n
  {
    seq(256, n requires 0 <= n < 256 => n)
  }

  /** `s` is a permutation of the byte values `0..255`. */
  ghost predicate IsPermutation(s: seq<byte>)
  {
    multiset(s) == multiset(Identity())
  }

  /** Entry `n` of `s` after `s.swap(a, b)`. */
  function Swapped(s: seq<byte>, a: nat, b: nat, n: nat): byte
    requires a < |s| && b < |s| && n < |s|
  {
    if n == a then s[b] else if n == b then s[a] else s[n]
  }

  /** `s.swap(a, b)` on a table, built entry by entry up to length `k`. */
  function Swap(s: seq<byte>, a: nat, b: nat, k: nat := |s|): (r: seq<byte>)
    requires a < |s| && b < |s| && k <= |s|
    ensures |r| == k
  {
    if k == 0 then [] else Swap(s, a, b, k - 1) + [Swapped(s, a, b, k - 1)]
  }

  /** Every entry of a swapped table. */
  lemma {:induction false} SwapIndex(s: seq<byte>, a: nat, b: nat, k: nat := |s|)
    requires a < |s| && b < |s| && k <= |s|
    ensures forall n :: 0 <= n < k ==> Swap(s, a, b, k)[n] == Swapped(s, a, b, n)
  {
    if k > 0 {
      SwapIndex(s, a, b, k - 1);
    }
  }

  /** The swap is the two sequence updates `s[a] := s[b]`, `s[b] := s[a]`. */
  lemma SwapIsUpdate(s: seq<byte>, a: nat, b: nat)
    requires a < |s| && b < |s|
    ensures Swap(s, a, b) == s[a := s[b]][b := s[a]]
  {
    SwapIndex(s, a, b);
  }

  /** A swap only reorders the table. */
  lemma SwapMultiset(s: seq<byte>, a: nat, b: nat)
    requires a < |s| && b < |s|
    ensures multiset(Swap(s, a, b)) == multiset(s)
  {
    SwapIsUpdate(s, a, b);
  }

  // ---------------------------------------------------------------------
  // Key scheduling (`RC4::new`)

  datatype Schedule = Schedule(s: seq<byte>, j: byte)

  function KeyByte(key: seq<byte>, n: nat): byte
    requires |key| > 0
  {
    key[n % |key|]
  }

  /** Round `n` of key scheduling: `j += s[n] + key[n % len]`, swap `s[n]`, `s[j]`. */
  function ScheduleRound(st: Schedule, key: seq<byte>, n: nat): (r: Schedule)
    requires |st.s| == 256 && |key| > 0 && n < 256
    ensures |r.s| == 256
  {
    var j := WrappingAdd(WrappingAdd(st.j, st.s[n]), KeyByte(key, n));
    Schedule(Swap(st.s, n, j), j)
  }

  /** The table and `j` after the first `n` rounds of key scheduling. */
  function ScheduleUpTo(key: seq<byte>, n: nat): (st: Schedule)
    requires |key| > 0 && n <= 256
    ensures |st.s| == 256
  {
    if n == 0 then Schedule(Identity(), 0)
    else ScheduleRound(ScheduleUpTo(key, n - 1), key, n - 1)
  }

  /** Each scheduling round only swaps, so the table stays a permutation. */
  lemma {:induction false} ScheduleKeepsPermutation(key: seq<byte>, n: nat)
    requires |key| > 0 && n <= 256
    ensures IsPermutation(ScheduleUpTo(key, n).s)
  {
    if n > 0 {
      ScheduleKeepsPermutation(key, n - 1);
      var prev := ScheduleUpTo(key, n - 1);
      var j := WrappingAdd(WrappingAdd(prev.j, prev.s[n - 1]), KeyByte(key, n - 1));
      SwapMultiset(prev.s, n - 1, j);
    }
  }

  // ---------------------------------------------------------------------
  // Keystream generation (`RC4::decrypt`)

  /** The cipher's state: the table and the two cursors. */
  datatype State = State(s: seq<byte>, i: byte, j: byte)

  /** The state `RC4::new` returns: the scheduled table, `i = j = 0`. */
  function InitialState(key: seq<byte>): (st: State)
    requires |key| > 0
    ensures |st.s| == 256 && st.i == 0 && st.j == 0
    ensures st.s == ScheduleUpTo(key, 256).s
  {
    State(ScheduleUpTo(key, 256).s, 0, 0)
  }

  /** The initial table is a permutation of the byte values. */
  lemma InitialIsPermutation(key: seq<byte>)
    requires |key| > 0
    ensures IsPermutation(InitialState(key).s)
  {
    ScheduleKeepsPermutation(key, 256);
  }

  /** One keystream step: `i += 1`, `j += s[i]`, swap `s[i]`, `s[j]`. */
  function Step(st: State): (r: State)
    requires |st.s| == 256
    ensures |r.s| == 256
  {
    var i := WrappingAdd(st.i, 1);
    var j := WrappingAdd(st.j, st.s[i]);
    State(Swap(st.s, i, j), i, j)
  }

  /** The keystream byte read after a step: `s[s[i] + s[j]]`. */
  function Output(st: State): byte
    requires |st.s| == 256
  {
    st.s[WrappingAdd(st.s[st.i], st.s[st.j])]
  }

  /** The state after `n` steps. */
  function Run(st: State, n: nat): (r: State)
    requires |st.s| == 256
    ensures |r.s| == 256
  {
    if n == 0 then st else Step(Run(st, n - 1))
  }

  lemma StepKeepsPermutation(st: State)
    requires |st.s| == 256
    ensures multiset(Step(st).s) == multiset(st.s)
  {
    var i := WrappingAdd(st.i, 1);
    SwapMultiset(st.s, i, WrappingAdd(st.j, st.s[i]));
  }

  /** Keystream steps only swap table entries, so a permutation stays one. */
  lemma {:induction false} RunKeepsPermutation(st: State, n: nat)
    requires |st.s| == 256
    ensures multiset(Run(st, n).s) == multiset(st.s)
  {
    if n > 0 {
      RunKeepsPermutation(st, n - 1);
      StepKeepsPermutation(Run(st, n - 1));
    }
  }

  /** Each step advances `i` by one, so `n` steps advance it by `n` modulo 256. */
  lemma {:induction false} RunAdvancesI(st: State, n: nat)
    requires |st.s| == 256
    ensures Run(st, n).i == (st.i + n) % 256
  {
    if n > 0 {
      RunAdvancesI(st, n - 1);
      var before := Run(st, n - 1).i;
      assert Run(st, n).i == WrappingAdd(before, 1);
      ModSucc(st.i + n - 1);
    }
  }

  lemma ModSucc(x: nat)
    ensures (x % 256 + 1) % 256 == (x + 1) % 256
  {
  }

  /** The first `n` keystream bytes produced from state `st`. */
  function Keystream(st: State, n: nat): (ks: seq<byte>)
    requires |st.s| == 256
    ensures |ks| == n
  {
    if n == 0 then [] else Keystream(st, n - 1) + [Output(Run(st, n))]
  }

  /** A shorter keystream is a prefix of a longer one from the same state. */
  lemma {:induction false} KeystreamPrefix(st: State, m: nat, n: nat)
    requires |st.s| == 256 && m <= n
    ensures Keystream(st, m) == Keystream(st, n)[..m]
    decreases n - m
  {
    if m < n {
      KeystreamPrefix(st, m, n - 1);
      assert Keystream(st, n)[..n - 1] == Keystream(st, n - 1);
    }
  }

  /** `rc4_decrypt(data, key)`: `data` XORed with the first `|data|`
      keystream bytes of a fresh cipher keyed with `key`. */
  function Cipher(data: seq<bv8>, key: seq<byte>): (r: seq<bv8>)
    requires |key| > 0
    ensures |r| == |data|
  {
    XorBytes(data, ToBytes(Keystream(InitialState(key), |data|)))
  }

  /** RC4 is its own inverse: decrypting the decryption with the same key
      gives the data back, because the keystream depends only on the key and
      the length. */
  lemma CipherInvolution(data: seq<bv8>, key: seq<byte>)
    requires |key| > 0
    ensures Cipher(Cipher(data, key), key) == data
  {
    XorBytesTwice(data, ToBytes(Keystream(InitialState(key), |data|)));
  }

  /** Decrypting a prefix of the data gives the same prefix of the output. */
  lemma CipherPrefix(data: seq<bv8>, key: seq<byte>, m: nat)
    requires |key| > 0 && m <= |data|
    ensures Cipher(data[..m], key) == Cipher(data, key)[..m]
  {
    var ks := Keystream(InitialState(key), |data|);
    KeystreamPrefix(InitialState(key), m, |data|);
    ToBytesPrefix(ks, m);
    XorBytesPrefix(data, ToBytes(ks), m);
  }

  /** Decrypting one more byte appends that byte XOR the next keystream byte. */
  lemma DecryptedSnoc(data: seq<bv8>, st: State, n: nat)
    requires |st.s| == 256 && n < |data|
    ensures XorBytes(data[..n + 1], ToBytes(Keystream(st, n + 1)))
         == XorBytes(data[..n], ToBytes(Keystream(st, n))) + [data[n] ^ Output(Step(Run(st, n))) as bv8]
  {
    ToBytesSnoc(Keystream(st, n), Output(Run(st, n + 1)));
    XorPrefixSnoc(data, n, ToBytes(Keystream(st, n)), Output(Run(st, n + 1)) as bv8);
  }

  /** After `n` steps from a permutation, the table is still a permutation and
      `i` has advanced by `n` modulo 256. */
  lemma RunEnd(st: State, n: nat)
    requires |st.s| == 256 && IsPermutation(st.s)
    ensures IsPermutation(Run(st, n).s)
    ensures Run(st, n).i == (st.i + n) % 256
  {
    RunAdvancesI(st, n);
    RunKeepsPermutation(st, n);
  }

  // ---------------------------------------------------------------------
  // The in-place engine

  /** `s.swap(a, b)` on the engine's table, in place. */
  method SwapEntries(t: array<byte>, a: nat, b: nat)
    requires a < t.Length && b < t.Length
    modifies t
    ensures t[..] == Swap(old(t[..]), a, b)
  {
    SwapIsUpdate(t[..], a, b);
    t[a], t[b] := t[b], t[a];
  }

  /** `struct RC4`: the table `s` and the cursors `i`, `j`. */
  class Rc4 {
    var s: array<byte>
    var i: byte
    var j: byte

    ghost predicate Valid()
      reads this, s
    {
      s.Length == 256 && IsPermutation(s[..])
    }

    ghost function Current(): State
      reads this, s
    {
      State(s[..], i, j)
    }

    /** `RC4::new`: fill the table with `0..255`, then run the 256 rounds of
        key scheduling; both cursors start at 0. The key must be non-empty
        (`key[i % key.len()]`). */
    constructor (key: seq<byte>)
      requires |key| > 0
      ensures Valid() && fresh(s)
      ensures Current() == InitialState(key)
    {
      var table := new byte[256];
      var n := 0;
      while n < 256
        invariant 0 <= n <= 256
        invariant forall m :: 0 <= m < n ==> table[m] == m
      {
        table[n] := n;
        n := n + 1;
      }
      assert table[..] == Identity();
      var jj: byte := 0;
      n := 0;
      while n < 256
        invariant 0 <= n <= 256
        invariant Schedule(table[..], jj) == ScheduleUpTo(key, n)
      {
        ghost var before := Schedule(table[..], jj);
        jj := WrappingAdd(WrappingAdd(jj, table[n]), KeyByte(key, n));
        SwapEntries(table, n, jj);
        assert Schedule(table[..], jj) == ScheduleRound(before, key, n);
        n := n + 1;
      }
      ScheduleKeepsPermutation(key, 256);
      s := table;
      i := 0;
      j := 0;
    }

    /** One round of `RC4::decrypt`'s loop: advance the cursors, swap, and
        XOR one data byte with the keystream byte. */
    method NextByte(b: bv8) returns (out: bv8)
      requires s.Length == 256
      modifies this, s
      ensures s == old(s)
      ensures Current() == Step(old(Current()))
      ensures out == b ^ Output(Current()) as bv8
    {
      i := WrappingAdd(i, 1);
      j := WrappingAdd(j, s[i]);
      SwapEntries(s, i, j);
      var k := s[WrappingAdd(s[i], s[j])];
      out := b ^ k as bv8;
    }

    /** `RC4::decrypt`: for each data byte, advance the cursors, swap, and
        XOR the byte with the keystream byte. The output is as long as the
        data, the table stays a permutation, and `i` advances by the data
        length modulo 256. */
    method Decrypt(data: seq<bv8>) returns (output: seq<bv8>)
      requires Valid()
      modifies this, s
      ensures Valid() && s == old(s)
      ensures Current() == Run(old(Current()), |data|)
      ensures output == XorBytes(data, ToBytes(Keystream(old(Current()), |data|)))
      ensures i == (old(i) + |data|) % 256
    {
      ghost var start := Current();
      output := [];
      var n := 0;
      while n < |data|
        invariant 0 <= n <= |data|
        invariant s == old(s) && s.Length == 256
        invariant Current() == Run(start, n)
        invariant output == XorBytes(data[..n], ToBytes(Keystream(start, n)))
      {
        var out := NextByte(data[n]);
        DecryptedSnoc(data, start, n);
        output := output + [out];
        n := n + 1;
      }
      assert data[..|data|] == data;
      RunEnd(start, |data|);
    }
  }

  /** `rc4_decrypt`: a fresh engine per call, keyed with `key`. */
  method Decrypt(data: seq<bv8>, key: seq<byte>) returns (output: seq<bv8>)
    requires |key| > 0
    ensures output == Cipher(data, key)
  {
    var rc4 := new Rc4(key);
    output := rc4.Decrypt(data);
  }
}
