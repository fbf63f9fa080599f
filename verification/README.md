# firmware-bruteforce in Dafny

This project models two firmware brute forcers, `rc4_finder.rs` and
`filesystem-xor-bruteforce.rs`. Each reads the first megabyte of a firmware
image and splits a keyspace into one contiguous key range per worker thread.
Every worker tries each key of its range in ascending order. For each key it
de-obfuscates the buffer (RC4 with 1 to 4 little-endian key bytes, or a
repeating 4-byte XOR), then scans the result for Squashfs, CramFS and JFFS2
magic numbers. Each worker collects its `(key, match)` pairs locally and
appends the whole batch to a shared, mutex-protected result list once.

The model has these modules:

- `Bytes`: machine bytes, `u32` and its wrap-around, little-endian decoding, and byte-wise XOR.
- `Keyspace`:
  - the `key_length` clamp;
  - `max_key_value`;
  - the key bytes;
  - the two programs' per-thread range splits, as loops. Their `u32` and `u64` arithmetic is written out.
- `Scanner`: `find_filesystem_magic`, a loop proved against a recursive scan function and a declarative signature table.
- `Rc4`:
  - the RC4 cipher as a class over a 256-byte `array`, which the constructor and `Decrypt` update in place;
  - the functional key schedule and keystream that the class is proved against.
- `Xor`: `xor_data` as a pure function.
- `Search`: what the workers collect.
  - Per-key entries and per-range batches.
  - The shared list as a `ResultSink` class.
  - The order in which workers reach the lock, as an `order` argument.
- `Rc4Finder` and `XorBruteforce`: each program's `worker_thread` and the search part of its `main`.

The headline properties:

- RC4 and XOR decryption are involutions.
- The RC4 table stays a permutation.
- The scanner reports exactly the signatures present at offsets that leave four bytes, in nondecreasing offset order.
- The worker ranges tile `[0, max_key_value)`. `max_key_value` itself is never tried, although `keys_tested` counts it.
- The shared result list equals the batch of one worker over the whole keyspace when the threads finish in spawn order. In any other order it holds the same entries with the same multiplicities.
- An entry is reported exactly when decrypting with its key bytes shows its signature.
- Any image encrypted under a tried key is found.

Two places where the programs' own text announces more than the code does; the model follows the code:

- The programs announce the keys as `0x00` to `max_key_value` (rc4_finder.rs:217) and `0x00000000` to `0xFFFFFFFF` (filesystem-xor-bruteforce.rs:155). The workers loop over the half-open `start_key..end_key` (rc4_finder.rs:138, filesystem-xor-bruteforce.rs:101), so the last key is never tried.
- The usage text says `key_length: 1-4 bytes` (rc4_finder.rs:179). The code clamps with `.min(4).max(1)` (rc4_finder.rs:186), so 0 becomes 1 rather than being rejected.

The bytes `68 73 71 73` ("hsqs") are labelled Squashfs Little Endian. The code reads the window with `from_le_bytes` and compares it with `0x73717368`. `Scanner.PatternIsMagic` states this.

## Model

| member | source | states |
|---|---|---|
| Bytes.Wrap32 | rc4_finder.rs:227 | `x as u32` is a 32-bit value congruent to `x` modulo 2^32 (it keeps the low 32 bits), and leaves values already in range unchanged |
| Bytes.LeValue4 | rc4_finder.rs:78 | `u32::from_le_bytes` of four bytes is `b0 + 2^8 b1 + 2^16 b2 + 2^24 b3` |
| Bytes.LeValue2 | rc4_finder.rs:107 | `u16::from_le_bytes` of two bytes is `b0 + 2^8 b1` |
| Bytes.LeValueInjective | rc4_finder.rs:78 | equally long byte strings with the same little-endian value are equal |
| Bytes.XorBytes | rc4_finder.rs:55 | byte-wise XOR keeps the length, and XORing byte `n` again with the same byte gives the input byte back |
| Bytes.XorBytesTwice | rc4_finder.rs:55 | XORing twice with the same byte string is the identity |
| Keyspace.KeyLength | rc4_finder.rs:185-189 | the clamped key length is in 1..4; it is the argument if that is in 1..4, 1 for 0, and 4 for an absent or larger argument |
| Keyspace.MaxKeyValue | rc4_finder.rs:209-215 | `max_key_value` is `256^key_length - 1` for lengths 1..4 and `0xFFFFFFFF` otherwise |
| Keyspace.KeyBytes | rc4_finder.rs:146-152 | the key material has `key_length` bytes (4 outside 1..4), and byte `t` is `(key_val >> 8t) mod 256` |
| Keyspace.KeyBytesValue | rc4_finder.rs:146-152 | decoding the key bytes little-endian gives `key_val mod 256^width` |
| Keyspace.KeyBytesRoundTrip | rc4_finder.rs:146-152 | for `key_val <= max_key_value`, the key bytes have exactly `key_length` entries and decode back to `key_val` |
| Keyspace.KeyBytesInjective | rc4_finder.rs:146-152 | distinct keys of the keyspace get distinct key material |
| Keyspace.ContiguousCovers | rc4_finder.rs:138 | every key of `[lo, hi)` lies in some range of a contiguous split |
| Keyspace.PartitionExact | rc4_finder.rs:138 | contiguous half-open ranges hold every key of `[lo, hi)` in exactly one range, and no key outside it (so not `hi`) |
| Keyspace.Rc4KeysPerThreadCast | rc4_finder.rs:227 | the `as u32` cast of `keys_per_thread` truncates only for one thread over the 32-bit keyspace, where it gives 0 |
| Keyspace.Rc4RangeExact | rc4_finder.rs:236-241 | with a positive `keys_per_thread`, no u32 product wraps: worker `w` starts at `w * kpt` and a non-last worker ends at `(w + 1) * kpt`, with start <= end |
| Keyspace.Rc4StartNoWrap | rc4_finder.rs:236 | `(i as u32) * keys_per_thread` does not wrap and leaves room for one more share below `max_key_value + 1` |
| Keyspace.Rc4RangeDegenerate | rc4_finder.rs:236-241 | with `keys_per_thread` 0, every non-last range is empty at 0 |
| Keyspace.Rc4RangesContiguous | rc4_finder.rs:227-241 | the RC4 ranges start at 0, chain end to start, are well formed, and end at `max_key_value` |
| Keyspace.Rc4Split | rc4_finder.rs:227-241 | the split loop produces one range per thread, as computed by the source, and they tile `[0, max_key_value)` |
| Keyspace.XorSplitNoTruncation | filesystem-xor-bruteforce.rs:174-178 | none of the `u64 as u32` casts of the XOR split loses bits |
| Keyspace.XorRangesContiguous | filesystem-xor-bruteforce.rs:165-179 | the XOR ranges start at 0, chain end to start, are well formed, and end at `0xFFFFFFFF` |
| Keyspace.XorSplit | filesystem-xor-bruteforce.rs:165-179 | the split loop produces one range per thread, as computed by the source, and they tile `[0, 0xFFFFFFFF)` |
| Keyspace.SplitsAgree | rc4_finder.rs:227-241 | over the 32-bit keyspace the RC4 split equals the XOR split for every thread count, despite the truncated `keys_per_thread` |
| Scanner.PatternIsMagic | rc4_finder.rs:9-14 | each signature's bytes read little-endian equal its magic constant; `68 73 71 73` is Squashfs LE |
| Scanner.WindowMatchesMagic | rc4_finder.rs:78-80 | a window equals a signature's bytes iff its little-endian value equals that magic |
| Scanner.ChecksAtMostOne | rc4_finder.rs:76-121 | per offset, at most one Squashfs/CramFS match and at most one JFFS2 match |
| Scanner.MatchesAtExact | rc4_finder.rs:76-121 | an offset's checks report exactly the signatures present at that offset |
| Scanner.FindFilesystemMagic | rc4_finder.rs:67-125 | the loop returns the scan, which is empty below 4 bytes; it holds a match iff the signature is present at an offset with 4 bytes left; offsets are nondecreasing |
| Scanner.ScanUpToOffsets | filesystem-xor-bruteforce.rs:40 | the matches of the first `n` offsets lie below `n` |
| Scanner.ScanExact | filesystem-xor-bruteforce.rs:35-40 | the scan reports a match iff its signature is present and `offset + 4 <= len`; so a JFFS2 magic in the last 2 or 3 bytes is never reported |
| Scanner.ScanSorted | filesystem-xor-bruteforce.rs:40-88 | reported offsets never decrease |
| Scanner.ScanAtOffset | filesystem-xor-bruteforce.rs:40-88 | the matches at one offset are its 32-bit match followed by its JFFS2 match, two at most |
| Rc4.WrappingAdd | rc4_finder.rs:39 | `u8::wrapping_add` is addition mod 256 |
| Rc4.SwapIsUpdate | rc4_finder.rs:40 | `s.swap(a, b)` exchanges entries `a` and `b` and nothing else |
| Rc4.SwapMultiset | rc4_finder.rs:40 | a swap only reorders the table |
| Rc4.ScheduleKeepsPermutation | rc4_finder.rs:38-41 | every prefix of the key schedule leaves the table a permutation of 0..255 |
| Rc4.InitialIsPermutation | rc4_finder.rs:31-44 | the table `RC4::new` returns is a permutation of 0..255 |
| Rc4.StepKeepsPermutation | rc4_finder.rs:50-52 | one keystream step only reorders the table |
| Rc4.RunKeepsPermutation | rc4_finder.rs:49-56 | any number of keystream steps only reorder the table |
| Rc4.RunAdvancesI | rc4_finder.rs:50 | `n` steps advance `i` by `n` mod 256 |
| Rc4.KeystreamPrefix | rc4_finder.rs:49-56 | a shorter keystream from the same state is a prefix of a longer one |
| Rc4.CipherInvolution | rc4_finder.rs:62-65 | `rc4_decrypt(rc4_decrypt(d, k), k) == d` |
| Rc4.CipherPrefix | rc4_finder.rs:62-65 | decrypting a prefix of the data gives the same prefix of the output |
| Rc4.SwapEntries | rc4_finder.rs:40 | the in-place swap on the array is the functional swap of its old contents |
| Rc4.Rc4.constructor | rc4_finder.rs:31-44 | for a non-empty key: a fresh table that is a permutation of 0..255 and equal to the scheduled table, with `i = j = 0` |
| Rc4.Rc4.NextByte | rc4_finder.rs:50-55 | one round advances the state by one keystream step and outputs the data byte XOR the keystream byte |
| Rc4.Rc4.Decrypt | rc4_finder.rs:46-59 | the output has `data.len()` bytes, each the data byte XOR the keystream byte; the state advances `data.len()` steps; the table stays a permutation; `i` advances by `data.len()` mod 256 |
| Rc4.Decrypt | rc4_finder.rs:62-65 | `rc4_decrypt` with a fresh engine equals the functional cipher for the key |
| Xor.XorData | filesystem-xor-bruteforce.rs:23-29 | the output is as long as the data (empty for empty), and byte `n` XOR input byte `n` is key byte `n mod 4` |
| Xor.XorInvolution | filesystem-xor-bruteforce.rs:23-29 | `xor_data(xor_data(d, k), k) == d` |
| Xor.XorZeroKey | filesystem-xor-bruteforce.rs:23-29 | key 0 leaves the data unchanged |
| Search.TagMember | rc4_finder.rs:160-164 | an entry is in a key's list iff it carries that key and one of its matches |
| Search.BatchSplit | filesystem-xor-bruteforce.rs:101 | the batch of `[lo, hi)` is the batch of `[lo, mid)` followed by that of `[mid, hi)` |
| Search.BatchMember | filesystem-xor-bruteforce.rs:101-119 | an entry is in a range's batch iff some key of the range produced it |
| Search.FlattenAppend | filesystem-xor-bruteforce.rs:122-125 | the list after two successive groups of workers is the concatenation of their lists |
| Search.FlattenReordered | filesystem-xor-bruteforce.rs:122-125 | the multiset of the shared list does not depend on the order in which workers take the lock |
| Search.FlattenPrefix | rc4_finder.rs:232-241 | with contiguous ranges, the first `k` workers in spawn order produce the batch up to worker `k - 1`'s end |
| Search.AllWorkers | filesystem-xor-bruteforce.rs:170-188 | in spawn order the shared list equals one worker's batch over `[lo, hi)`; in any order it has the same multiset |
| Search.KeysTriedContiguous | rc4_finder.rs:283 | contiguous ranges over `[lo, hi)` try `hi - lo` keys between them |
| Search.ResultSink.constructor | rc4_finder.rs:225 | the shared result list starts empty |
| Search.ResultSink.Extend | rc4_finder.rs:170 | `extend` appends the batch to the shared list |
| Rc4Finder.TryKey | rc4_finder.rs:146-164 | one key yields one `(key bytes, match)` entry per match in the RC4-decrypted buffer, in scan order |
| Rc4Finder.Worker | rc4_finder.rs:127-172 | the shared results grow by exactly the entries of `start_key..end_key` in ascending key order, and by nothing else |
| Rc4Finder.RunWorkers | rc4_finder.rs:232-255 | the shared list is the workers' batches in the order the workers took the lock |
| Rc4Finder.BruteForce | rc4_finder.rs:209-241 | the ranges are the split of `[0, max_key_value)`; the results have the multiset of the whole keyspace's batch, and equal it in spawn order; `keys_tested` is `max_key_value + 1`, one more than the keys tried |
| Rc4Finder.KeyHitsMember | rc4_finder.rs:155-164 | a key's entries are exactly its key bytes paired with a signature of the buffer decrypted with them |
| Rc4Finder.Reported | rc4_finder.rs:138-165 | an entry is reported iff its key bytes are those of a key below `max_key_value` and decrypting with them shows its signature |
| Rc4Finder.MaxKeyNeverReported | rc4_finder.rs:138 | no reported entry carries the key bytes of `max_key_value` |
| Rc4Finder.EncryptedImageFound | rc4_finder.rs:155-164 | an image RC4-encrypted under a key below `max_key_value` has each of its signatures reported with that key's bytes |
| XorBruteforce.TryKey | filesystem-xor-bruteforce.rs:109-118 | one key yields one `(key, match)` entry per match in the XORed buffer, in scan order |
| XorBruteforce.Worker | filesystem-xor-bruteforce.rs:91-126 | the shared results grow by exactly the entries of `start_key..end_key` in ascending key order, and by nothing else |
| XorBruteforce.RunWorkers | filesystem-xor-bruteforce.rs:170-193 | the shared list is the workers' batches in the order the workers took the lock |
| XorBruteforce.BruteForce | filesystem-xor-bruteforce.rs:165-217 | the ranges are the split of `[0, 0xFFFFFFFF)`; the results have the multiset of the whole keyspace's batch, and equal it in spawn order; `keys_tested` is `2^32`, one more than the keys tried |
| XorBruteforce.KeyHitsMember | filesystem-xor-bruteforce.rs:109-118 | a key's entries are exactly that key paired with a signature of the buffer XORed with it |
| XorBruteforce.Reported | filesystem-xor-bruteforce.rs:101-119 | an entry is reported iff its key is below `0xFFFFFFFF` and XORing with it shows its signature |
| XorBruteforce.LastKeyNeverReported | filesystem-xor-bruteforce.rs:176 | nothing is ever reported for key `0xFFFFFFFF` |
| XorBruteforce.EncryptedImageFound | filesystem-xor-bruteforce.rs:109-118 | an image XORed with a key other than `0xFFFFFFFF` has each of its signatures reported with that key |

## Left out

- Argument parsing, file reading and the 1 MiB chunk (rc4_finder.rs:175-207, filesystem-xor-bruteforce.rs:129-151) are std I/O. The buffer is a parameter. A parsed `key_length` is an `Option<nat>`, and a parse failure (an early error return) is not modelled.
- `num_threads` comes from an argument or `num_cpus`, so it is a parameter. A value of 0 makes the source divide by zero, which panics. `BruteForce` and the split loops therefore require at least one thread.
- `thread::spawn`, `join`, `Arc` and `Mutex` are modelled sequentially:
  - each worker is a method call;
  - the locked `extend` is `ResultSink.Extend`;
  - the order in which threads take the lock is the `order` argument, any permutation of the worker indices.

  Interleavings inside a worker cannot affect the results, because a worker touches the shared list only once.
- Progress printing, its `f64` percentage, `Instant` timing and the keys-per-second figure are left out: they are floating point and stdout. `keys_tested` is kept as an integer.
- Result printing is left out: it is output formatting only. The `fs_type` and `endian` strings are the enums `FsType` and `Endian`.
- The `u32` arithmetic in the RC4 split uses release-mode wrap-around (`Wrap32`). A debug build would panic on overflow instead. The model shows that no product wraps whenever `keys_per_thread` is positive. It also shows that the only truncation is the cast of `keys_per_thread` to 0 for one thread over four-byte keys.
- The methods of `Rc4Finder` and `XorBruteforce` take a ghost per-key entry function `hits` together with the requirement `ListsHits`. `HitsListsHits` shows that the actual per-key function meets it. This is a proof device; it is not behaviour of the source.
- `total_keys` (rc4_finder.rs:136, filesystem-xor-bruteforce.rs:99) feeds only the progress percentage. The model keeps its no-underflow guarantee: every range has `start_key <= end_key`.
- The `max_key_value` key that the half-open ranges skip is reproduced, not corrected. See `MaxKeyNeverReported` and `LastKeyNeverReported`.
