/** The filesystem magic scanner `find_filesystem_magic`, the same in both
    programs: at every offset that leaves four bytes it reads a little-endian
    u32 and checks it against the Squashfs and CramFS magics (at most one of
    them), then reads a little-endian u16 and checks it against the JFFS2
    magics (at most one of them). */
module Scanner {
  import opened Bytes

  datatype FsType = Squashfs | CramFS | Jffs2
  datatype Endian = Little | Big

  datatype FsMatch = FsMatch(offset: nat, fsType: FsType, endian: Endian)

  const SquashfsMagicLE: nat := 0x7371_7368
  const SquashfsMagicBE: nat := 0x6873_7173
  const CramfsMagicLE: nat := 0x28CD_3D45
  const CramfsMagicBE: nat := 0x453D_CD28
  const Jffs2MagicLE: nat := 0x1985
  const Jffs2MagicBE: nat := 0x8519

  /** The 32-bit checks at offset `i`, in source order: an if/else chain, so
      at most one match. */
  function Check32(data: seq<bv8>, i: nat): seq<FsMatch>
    requires i + 4 <= |data|
  {
    var magic32 := LeValue(Values(data[i..i + 4]));
    if magic32 == SquashfsMagicLE then [FsMatch(i, Squashfs, Little)]
    else if magic32 == SquashfsMagicBE then [FsMatch(i, Squashfs, Big)]
    else if magic32 == CramfsMagicLE then [FsMatch(i, CramFS, Little)]
    else if magic32 == CramfsMagicBE then [FsMatch(i, CramFS, Big)]
    else []
  }

  /** The 16-bit JFFS2 checks at offset `i`. */
  function Check16(data: seq<bv8>, i: nat): seq<FsMatch>
    requires i + 4 <= |data|
  {
    var magic16 := LeValue(Values(data[i..i + 2]));
    if magic16 == Jffs2MagicLE then [FsMatch(i, Jffs2, Little)]
    else if magic16 == Jffs2MagicBE then [FsMatch(i, Jffs2, Big)]
    else []
  }

  /** Everything reported at offset `i`: the 32-bit match first, then JFFS2. */
  function MatchesAt(data: seq<bv8>, i: nat): seq<FsMatch>
    requires i + 4 <= |data|
  {
    Check32(data, i) + Check16(data, i)
  }

  /** The matches of the offsets `0 .. n-1`, in scan order. */
  function ScanUpTo(data: seq<bv8>, n: nat): seq<FsMatch>
    requires n + 3 <= |data|
  {
    if n == 0 then [] else ScanUpTo(data, n - 1) + MatchesAt(data, n - 1)
  }

  /** What `find_filesystem_magic` returns: nothing for fewer than four
      bytes, otherwise the matches of the offsets `0 ..= len - 4`. */
  function Scan(data: seq<bv8>): seq<FsMatch>
  {
    if |data| < 4 then [] else ScanUpTo(data, |data| - 3)
  }

  /** The signatures: the bytes each (filesystem, endianness) pair shows in
      memory. */
  function Pattern(t: FsType, e: Endian): (p: seq<bv8>)
    ensures |p| == if t == Jffs2 then 2 else 4
  {
    match (t, e)
    case (Squashfs, Little) => [0x68, 0x73, 0x71, 0x73]
    case (Squashfs, Big) => [0x73, 0x71, 0x73, 0x68]
    case (CramFS, Little) => [0x45, 0x3D, 0xCD, 0x28]
    case (CramFS, Big) => [0x28, 0xCD, 0x3D, 0x45]
    case (Jffs2, Little) => [0x85, 0x19]
    case (Jffs2, Big) => [0x19, 0x85]
  }

  /** The magic constant the source compares against for each pair. */
  function Magic(t: FsType, e: Endian): nat
  {
    match (t, e)
    case (Squashfs, Little) => SquashfsMagicLE
    case (Squashfs, Big) => SquashfsMagicBE
    case (CramFS, Little) => CramfsMagicLE
    case (CramFS, Big) => CramfsMagicBE
    case (Jffs2, Little) => Jffs2MagicLE
    case (Jffs2, Big) => Jffs2MagicBE
  }

  /** Reading a pattern little-endian gives its magic constant: so the
      bytes `68 73 71 73` ("hsqs") are the Squashfs Little Endian magic. */
  lemma PatternIsMagic(t: FsType, e: Endian)
    ensures LeValue(Values(Pattern(t, e))) == Magic(t, e)
  {
    var v := Values(Pattern(t, e));
    match (t, e)
    case (Squashfs, Little) =>
      assert v == [0x68, 0x73, 0x71, 0x73];
      LeValue4(0x68, 0x73, 0x71, 0x73);
    case (Squashfs, Big) =>
      assert v == [0x73, 0x71, 0x73, 0x68];
      LeValue4(0x73, 0x71, 0x73, 0x68);
    case (CramFS, Little) =>
      assert v == [0x45, 0x3D, 0xCD, 0x28];
      LeValue4(0x45, 0x3D, 0xCD, 0x28);
    case (CramFS, Big) =>
      assert v == [0x28, 0xCD, 0x3D, 0x45];
      LeValue4(0x28, 0xCD, 0x3D, 0x45);
    case (Jffs2, Little) =>
      assert v == [0x85, 0x19];
      LeValue2(0x85, 0x19);
    case (Jffs2, Big) =>
      assert v == [0x19, 0x85];
      LeValue2(0x19, 0x85);
  }

  /** A window of `data` equals a pattern exactly when its little-endian
      value equals that pattern's magic. */
  lemma WindowMatchesMagic(data: seq<bv8>, i: nat, t: FsType, e: Endian)
    requires i + |Pattern(t, e)| <= |data|
    ensures data[i..i + |Pattern(t, e)|] == Pattern(t, e)
        <==> LeValue(Values(data[i..i + |Pattern(t, e)|])) == Magic(t, e)
  {
    var window := data[i..i + |Pattern(t, e)|];
    PatternIsMagic(t, e);
    if LeValue(Values(window)) == Magic(t, e) {
      LeValueInjective(Values(window), Values(Pattern(t, e)));
      ValuesInjective(window, Pattern(t, e));
    }
  }

  /** Declarative meaning of a match: its offset leaves four bytes to read,
      and the bytes there spell its pattern. */
  ghost predicate SignatureAt(data: seq<bv8>, m: FsMatch)
  {
    && m.offset + 4 <= |data|
    && data[m.offset..m.offset + |Pattern(m.fsType, m.endian)|] == Pattern(m.fsType, m.endian)
  }

  /** The per-offset checks: at most one 32-bit match, and at most one JFFS2
      match. */
  lemma ChecksAtMostOne(data: seq<bv8>, i: nat)
    requires i + 4 <= |data|
    ensures |Check32(data, i)| <= 1 && |Check16(data, i)| <= 1
    ensures forall m :: m in Check32(data, i) ==> m.fsType != Jffs2
    ensures forall m :: m in Check16(data, i) ==> m.fsType == Jffs2
  {
  }

  /** The per-offset checks report exactly the signatures present at that
      offset. */
  lemma MatchesAtExact(data: seq<bv8>, i: nat)
    requires i + 4 <= |data|
    ensures forall m :: m in MatchesAt(data, i) <==> m.offset == i && SignatureAt(data, m)
  {
    forall t: FsType, e: Endian {
      WindowMatchesMagic(data, i, t, e);
    }
  }

  /** The `find_filesystem_magic` loop. */
  method FindFilesystemMagic(data: seq<bv8>) returns (matches: seq<FsMatch>)
    ensures matches == Scan(data)
    ensures |data| < 4 ==> matches == []
    ensures forall m :: m in matches <==> SignatureAt(data, m)
    ensures forall a, b :: 0 <= a < b < |matches| ==> matches[a].offset <= matches[b].offset
  {
    matches := [];
    if |data| < 4 {
      return;
    }
    var i := 0;
    while i <= |data| - 4
      invariant 0 <= i <= |data| - 3
      invariant matches == ScanUpTo(data, i)
    {
      ScanUpToSnoc(data, i);
      var magic32 := LeValue(Values(data[i..i + 4]));
      if magic32 == SquashfsMagicLE {
        matches := matches + [FsMatch(i, Squashfs, Little)];
      } else if magic32 == SquashfsMagicBE {
        matches := matches + [FsMatch(i, Squashfs, Big)];
      } else if magic32 == CramfsMagicLE {
        matches := matches + [FsMatch(i, CramFS, Little)];
      } else if magic32 == CramfsMagicBE {
        matches := matches + [FsMatch(i, CramFS, Big)];
      }
      var magic16 := LeValue(Values(data[i..i + 2]));
      if magic16 == Jffs2MagicLE {
        matches := matches + [FsMatch(i, Jffs2, Little)];
      } else if magic16 == Jffs2MagicBE {
        matches := matches + [FsMatch(i, Jffs2, Big)];
      }
      i := i + 1;
    }
    ScanExact(data);
    ScanSorted(data);
  }

  /** Scanning one more offset appends its 32-bit match, then its JFFS2 match. */
  lemma ScanUpToSnoc(data: seq<bv8>, n: nat)
    requires n + 4 <= |data|
    ensures ScanUpTo(data, n + 1) == ScanUpTo(data, n) + Check32(data, n) + Check16(data, n)
  {
  }

  /** Every match of the first `n` offsets is at an offset below `n`. */
  lemma {:induction false} ScanUpToOffsets(data: seq<bv8>, n: nat)
    requires n + 3 <= |data|
    ensures forall m :: m in ScanUpTo(data, n) ==> m.offset < n
  {
    if n > 0 {
      ScanUpToOffsets(data, n - 1);
    }
  }

  lemma {:induction false} ScanUpToExact(data: seq<bv8>, n: nat)
    requires n + 3 <= |data|
    ensures forall m :: m in ScanUpTo(data, n) <==> m.offset < n && SignatureAt(data, m)
  {
    if n > 0 {
      ScanUpToExact(data, n - 1);
      MatchesAtExact(data, n - 1);
    }
  }

  /** The scanner reports a match exactly when the signature is present at an
      offset that leaves four bytes: a JFFS2 magic in the last two or three
      bytes is never reported, and nothing is reported for fewer than four
      bytes. */
  lemma ScanExact(data: seq<bv8>)
    ensures forall m :: m in Scan(data) <==> SignatureAt(data, m)
    ensures forall m :: m in Scan(data) ==> m.offset + 4 <= |data|
  {
    if |data| >= 4 {
      ScanUpToExact(data, |data| - 3);
    }
  }

  /** Offsets never decrease along the scan, so the matches of one offset
      are adjacent. */
  lemma {:induction false} ScanUpToSorted(data: seq<bv8>, n: nat)
    requires n + 3 <= |data|
    ensures forall a, b :: 0 <= a < b < |ScanUpTo(data, n)| ==> ScanUpTo(data, n)[a].offset <= ScanUpTo(data, n)[b].offset
  {
    if n > 0 {
      ScanUpToSorted(data, n - 1);
      ScanUpToOffsets(data, n - 1);
      var prefix: seq<FsMatch>, here: seq<FsMatch> := ScanUpTo(data, n - 1), MatchesAt(data, n - 1);
      forall a, b | 0 <= a < b < |prefix + here|
        ensures (prefix + here)[a].offset <= (prefix + here)[b].offset
      {
        if b >= |prefix| {
          assert (prefix + here)[b] in here;
          if a < |prefix| {
            assert prefix[a] in prefix;
          }
        }
      }
    }
  }

  lemma ScanSorted(data: seq<bv8>)
    ensures forall a, b :: 0 <= a < b < |Scan(data)| ==> Scan(data)[a].offset <= Scan(data)[b].offset
  {
    if |data| >= 4 {
      ScanUpToSorted(data, |data| - 3);
    }
  }

  /** The matches at offset `off`, in scan order. */
  function AtOffset(ms: seq<FsMatch>, off: nat): seq<FsMatch>
  {
    if ms == [] then []
    else AtOffset(ms[..|ms| - 1], off) + (if ms[|ms| - 1].offset == off then [ms[|ms| - 1]] else [])
  }

  lemma {:induction false} AtOffsetAppend(a: seq<FsMatch>, b: seq<FsMatch>, off: nat)
    ensures AtOffset(a + b, off) == AtOffset(a, off) + AtOffset(b, off)
    decreases |b|
  {
    if b != [] {
      var b' := b[..|b| - 1];
      var last := b[|b| - 1];
      assert (a + b)[..|a + b| - 1] == a + b';
      assert (a + b)[|a + b| - 1] == last;
      AtOffsetAppend(a, b', off);
      var tail := if last.offset == off then [last] else [];
      assert AtOffset(a + b, off) == AtOffset(a + b', off) + tail;
      assert AtOffset(b, off) == AtOffset(b', off) + tail;
    } else {
      assert a + b == a;
    }
  }

  lemma {:induction false} AtOffsetNone(ms: seq<FsMatch>, off: nat)
    requires forall m :: m in ms ==> m.offset != off
    ensures AtOffset(ms, off) == []
  {
    if ms != [] {
      AtOffsetNone(ms[..|ms| - 1], off);
    }
  }

  lemma {:induction false} AtOffsetAll(ms: seq<FsMatch>, off: nat)
    requires forall m :: m in ms ==> m.offset == off
    ensures AtOffset(ms, off) == ms
  {
    if ms != [] {
      AtOffsetAll(ms[..|ms| - 1], off);
    }
  }

  lemma MatchesAtOffset(data: seq<bv8>, i: nat)
    requires i + 4 <= |data|
    ensures forall m :: m in MatchesAt(data, i) ==> m.offset == i
  {
  }

  /** Grouped by offset, the scan yields for each offset exactly that
      offset's 32-bit match (if any) followed by its JFFS2 match (if any). */
  lemma {:induction false} ScanUpToAtOffset(data: seq<bv8>, n: nat, off: nat)
    requires off + 4 <= |data| && n + 3 <= |data|
    ensures AtOffset(ScanUpTo(data, n), off) == if off < n then MatchesAt(data, off) else []
  {
    if n > 0 {
      var here := MatchesAt(data, n - 1);
      ScanUpToAtOffset(data, n - 1, off);
      AtOffsetAppend(ScanUpTo(data, n - 1), here, off);
      MatchesAtOffset(data, n - 1);
      if off == n - 1 {
        AtOffsetAll(here, off);
      } else {
        AtOffsetNone(here, off);
      }
    }
  }

  lemma ScanAtOffset(data: seq<bv8>, off: nat)
    requires off + 4 <= |data|
    ensures AtOffset(Scan(data), off) == Check32(data, off) + Check16(data, off)
    ensures |AtOffset(Scan(data), off)| <= 2
  {
    ScanUpToAtOffset(data, |data| - 3, off);
    ChecksAtMostOne(data, off);
  }
}
