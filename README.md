# intvector in Dafny

A model of `Intvector` from the Go package `intvector` (main.go): a
growable slice of Go `int` values with list operations (push, pop, shift,
insert, remove), position operations (at, swap, set), sorted and unique
insertion, searches, integer statistics (frequency table, min, max, mode,
modes) and a binary serialisation (eight big-endian two's-complement bytes
per element).

The model is imperative, as the Go code is. `Vector.Intvector` is a class
whose field `vec: seq<Int64>` is the Go slice. Every Go method except
`Average`, `Mean` and `Median` is a Dafny method: methods that change the slice carry `modifies this`, and queries
change nothing. Each method is proved against specification functions
(`AllRemoved`, `Dedup`, `FirstIndexOf`, `IndicesOf`, `Reversed`,
`SortedInsert`, `Spliced`, `Serialize`, `Deserialize`, ...). Separate lemmas
prove what those functions promise: round trips, idempotence, order
preservation and sortedness. The loops of the Go code are Dafny loops with
invariants. Three loops are written as helper methods of their own: the
binary search of `SortedPush` (`InsertionPoint`) and the map walks of
`Mode` and `Modes` (`CountsAndOwners`, `CountsAndGroups`). Their callers
use them exactly where the Go code runs the loop inline.

Modules:

- `Machine` (machine.dfy): Go's 64-bit `int`, `uint64` and `byte`, the
  wrap-around of `int` arithmetic, and the `uint64(x)` / `int(u)` casts.
- `Codec` (codec.dfy): big-endian digits, the eight-byte element encoding,
  and whole-vector `Serialize` / `Deserialize` with their round trips.
- `Sequences` (sequences.dfy): the specification functions over the
  element sequence, and their lemmas.
- `Statistics` (statistics.dfy): most-frequent values, and what a sorted
  list of frequency counts tells about them. `Mode` and `Modes` decide by
  looking at the last entries of such a list.
- `Vector` (intvector.dfy): the `Intvector` class, its errors, and the
  loop helpers.

Behaviours of the Go code worth spelling out:

- `Modes` (main.go:414-450) reports `UniqueMode` when the vector has one
  element (main.go:421-423), when it has a single distinct value
  (`len(frq) == 1`, main.go:428-430), or when exactly one value holds the
  highest count (main.go:445-447). So it succeeds exactly when at least two
  values share the highest count.
- `DeserializeFrom` (main.go:500-522) has two distinct errors. The length
  check (`InvalidLength`, main.go:503-506) comes before the emptiness check
  (`EmptyByteArray`, main.go:508-511). Neither error touches the vector.
- Serialising an empty vector (main.go:488-497) yields no bytes, and reading
  them back with `DeserializeFrom(b, false)` reports `EmptyByteArray`
  (main.go:508-511) and leaves the vector empty. So the round trip restores
  every vector, but succeeds only on non-empty ones (`SerializeRoundTrip`).
- `SortedPush` (main.go:196-228) expects a sorted vector, but its binary
  search (main.go:210-226) is safe on any vector. While the search runs,
  `vec[l] < n < vec[r + 1]` holds, so `l <= r`, every probe is in range, and
  `r - l` shrinks. On any vector, `n` is spliced in at some position. On a
  sorted vector the result is the sorted insertion.

## Model

| member | source | states |
|---|---|---|
| Machine.Wrap | main.go:342-346 | the result is the signed 64-bit value congruent to the exact product modulo 2^64, and equals it when it fits |
| Machine.ToUnsigned | main.go:492 | `uint64(x)` keeps the bits: congruent modulo 2^64, identity on non-negative values, undone by `ToSigned` |
| Machine.ToSigned | main.go:518 | `int(u)` keeps the bits: congruent modulo 2^64, identity below 2^63 |
| Machine.SignedUnsignedRoundTrip | main.go:518 | reading a `uint64` as `int` and back gives the same `uint64` |
| Codec.BigEndian | main.go:491-492 | `n` bytes whose last byte is the lowest base-256 digit |
| Codec.FromBigEndian | main.go:518 | the value read from big-endian bytes is below 256^length |
| Codec.BigEndianRoundTrip | main.go:488-522 | reading back the bytes written for a value that fits gives the value |
| Codec.FromBigEndianRoundTrip | main.go:488-522 | writing out the value read from bytes gives the bytes back |
| Codec.EncodeInt | main.go:491-492 | one element becomes exactly eight bytes |
| Codec.DecodeInt | main.go:518 | eight bytes decode to the signed value with the same bit pattern as their big-endian number |
| Codec.EncodeIntValue | main.go:491-492 | the eight bytes of an element read big-endian are `uint64(x)` |
| Codec.DecodeEncodeInt | main.go:488-522 | decoding an encoded element gives the element (negative ones included) |
| Codec.EncodeDecodeInt | main.go:488-522 | every eight-byte block is the encoding of what it decodes to |
| Codec.EncodeSmall | main.go:491-492 | an element in 0..255 is seven zero bytes followed by itself |
| Codec.Serialize | main.go:488-497 | the serialisation has exactly eight bytes per element |
| Codec.Deserialize | main.go:517-519 | a buffer whose length is a multiple of eight decodes to length / 8 elements |
| Codec.SerializeBlock | main.go:490-495 | bytes 8k..8k+8 of the serialisation are the encoding of element k |
| Codec.DeserializeSerialize | main.go:488-522 | decoding the serialisation of any element sequence gives it back |
| Codec.SerializeDeserialize | main.go:488-522 | serialising what a well-sized buffer decodes to gives the buffer back |
| Sequences.Removed | main.go:65 | one shorter; positions before `i` unchanged, positions after shift down by one; exactly one copy of `s[i]` leaves the multiset |
| Sequences.FirstIndexOf | main.go:281-291 | -1 exactly when `x` is absent; otherwise a position holding `x` with no `x` before it |
| Sequences.FirstIndexOfUnique | main.go:284-288 | a position holding `x` with no earlier `x` is the first index |
| Sequences.AllRemoved | main.go:94-110 | no `x` remains and every other value keeps its count |
| Sequences.AllRemovedAppend | main.go:94-110 | removing every `x` distributes over concatenation, so the other elements keep their order |
| Sequences.AllRemovedAbsent | main.go:94-110 | removing an absent value changes nothing |
| Sequences.Dedup | main.go:113-129 | no duplicates, the same set of values as the input |
| Sequences.DedupNoDups | main.go:113-129 | a duplicate-free sequence is left as it is |
| Sequences.DedupIdempotent | main.go:113-129 | deduplicating twice is deduplicating once |
| Sequences.DedupFirstSeenOrder | main.go:113-129 | the kept values appear in the order of their first occurrences |
| Sequences.IndicesOf | main.go:294-305 | one position per occurrence of `x`, each holding `x` |
| Sequences.IndicesOfComplete | main.go:294-305 | every position holding `x` is listed |
| Sequences.IndicesOfAscending | main.go:294-305 | the positions are strictly increasing |
| Sequences.Reversed | main.go:143-147 | same length, element `k` is element `len-1-k` of the input |
| Sequences.ReversedInvolution | main.go:143-147 | reversing twice gives the input |
| Sequences.SortedInsert | main.go:196-228 | exactly one copy of `x` is added to the multiset |
| Sequences.SortedInsertSorted | main.go:196-228 | inserting into a sorted sequence keeps it sorted |
| Sequences.SortedUnique | main.go:246-248 | two sorted sequences with the same multiset are equal, so a sorted permutation is unique |
| Sequences.Spliced | main.go:226 | `x` lands at position `k`, the elements before and after keep their places, one copy of `x` is added |
| Sequences.SplicedSorted | main.go:210-226 | splicing into a gap whose neighbours bracket `x` keeps a sorted sequence sorted |
| Sequences.InsertInGap | main.go:196-228 | on a sorted sequence, splicing into any bracketing gap equals the sorted insertion |
| Sequences.TwoOccurrences | main.go:406 | a value occurs at least twice exactly when two distinct positions hold it |
| Statistics.ListingTop | main.go:404-410 | after sorting a frequency table's counts, the last count is the highest, and the most frequent values are exactly those with that count |
| Statistics.SingleValue | main.go:421-430 | a sequence holding a single value has that value as its only most frequent value |
| Statistics.SoleMostFrequent | main.go:445-447 | a one-element group of all most frequent values names the unique most frequent value |
| Statistics.ListingTieShared | main.go:406-408 | equal last two sorted counts mean two distinct values share the highest count |
| Statistics.ListingSharedTie | main.go:406-408 | two distinct values sharing the highest count make the last two sorted counts equal |
| Statistics.ListingTie | main.go:406-408 | the last two sorted counts are equal if and only if two distinct values share the highest count |
| Vector.SortInts | main.go:247 | the result is sorted and a permutation of the input |
| Vector.RemoveAllStep | main.go:97-108 | one step of the scan, dropping a `num` and stepping back, or moving past another value, keeps the scan's invariant |
| Vector.RemoveAllDone | main.go:97-109 | a finished scan has removed every `num` and counted each one |
| Vector.DeserializeStep | main.go:517-519 | the next eight-byte block fits in the buffer, and decoding it extends the decoded prefix by one element |
| Vector.CountsAndOwners | main.go:400-403 | one count per distinct key, each the key's frequency, and every count maps back to a key with that count |
| Vector.CountsAndGroups | main.go:435-442 | one count per distinct key; the keys grouped by count, each group without duplicates, each key in the group of its own count |
| Vector.OnlyKey | main.go:428-430 | a frequency table with a single key means every element is that key |
| Vector.TopGroup | main.go:443-449 | the group under the highest sorted count is non-empty and holds exactly the most frequent values |
| Vector.InsertionPoint | main.go:210-226 | on any input the search stays in range and returns `m` in 1..len-1 with `vec[m-1] <= n`; on a sorted vector also `n <= vec[m]` |
| Vector.Intvector.constructor | main.go:12-14 | a fresh vector is empty |
| Vector.Intvector.Push | main.go:17-19 | the element is appended |
| Vector.Intvector.Insert | main.go:22-24 | all given elements are appended in order |
| Vector.Intvector.Pop | main.go:27-39 | on a non-empty vector, returns the last element and removes it; on an empty one, returns 0 and `EmptyVector` and changes nothing |
| Vector.Intvector.Shift | main.go:42-52 | on a non-empty vector, returns the first element and removes it; on an empty one, returns 0 and `EmptyVector` and changes nothing |
| Vector.Intvector.Unshift | main.go:55-57 | the element is prepended |
| Vector.Intvector.RemoveAt | main.go:60-67 | an index outside the vector reports `IndexOutOfBounds` and changes nothing; otherwise exactly that position is removed |
| Vector.Intvector.RemoveFirstOf | main.go:70-91 | reports whether `num` occurred; if so, exactly its first occurrence is removed, otherwise nothing changes |
| Vector.Intvector.RemoveAll | main.go:94-110 | returns the number of occurrences of `num`; the vector becomes the old one with every `num` filtered out |
| Vector.Intvector.MakeUnique | main.go:113-129 | the vector becomes its first-occurrence deduplication |
| Vector.Intvector.Size | main.go:132-134 | the number of elements |
| Vector.Intvector.Clear | main.go:137-140 | the vector becomes empty |
| Vector.Intvector.Reverse | main.go:143-147 | the vector becomes its reverse |
| Vector.Intvector.At | main.go:150-157 | element `i` for an index in range; otherwise 0 and `IndexOutOfBounds` |
| Vector.Intvector.Swap | main.go:160-177 | equal indices, then a bad first index, then a bad second index each report their error and change nothing; otherwise exactly the two positions exchange values |
| Vector.Intvector.Set | main.go:180-192 | a negative index, then an index at or past the end, report their error and change nothing; otherwise exactly one position changes |
| Vector.Intvector.SortedPush | main.go:196-228 | on any vector, `n` is spliced in at some position; on a sorted vector, the result is the sorted insertion of `n`, so it stays sorted with one more `n` |
| Vector.Intvector.UniquePush | main.go:233-243 | appends `n` exactly when it was absent and reports whether it did |
| Vector.Intvector.Sort | main.go:246-248 | the vector becomes a sorted permutation of itself |
| Vector.Intvector.IsSorted | main.go:251-261 | true exactly when the vector is sorted ascending |
| Vector.Intvector.First | main.go:264-269 | the first element, or 0 and `EmptyVector` |
| Vector.Intvector.Last | main.go:272-277 | the last element, or 0 and `EmptyVector` |
| Vector.Intvector.Search | main.go:281-291 | the index of the first occurrence, or -1 when absent |
| Vector.Intvector.SearchAll | main.go:294-305 | exactly the positions holding `n`, ascending, one per occurrence |
| Vector.Intvector.Min | main.go:308-322 | `(0, -1)` when empty; otherwise the least element and the index of its first occurrence |
| Vector.Intvector.Max | main.go:325-339 | `(0, -1)` when empty; otherwise the greatest element and the index of its first occurrence |
| Vector.Intvector.ScaleBy | main.go:342-346 | every element becomes its product with `s`, wrapped to 64 bits |
| Vector.Intvector.Mode | main.go:388-411 | `EmptyVector` exactly on an empty vector; `NoUniqueMode` when two distinct values share the highest count; otherwise the one most frequent value |
| Vector.Intvector.Modes | main.go:414-450 | `EmptyVector` exactly on an empty vector; on success, the duplicate-free list of exactly the most frequent values, at least two of them; `UniqueMode` only when one value is the sole most frequent |
| Vector.Intvector.Frequency | main.go:453-465 | the keys are exactly the elements, each mapped to its number of occurrences |
| Vector.Intvector.CountInstancesOf | main.go:468-476 | the number of occurrences of `num` |
| Vector.Intvector.IsEmpty | main.go:479-485 | true exactly when there are no elements |
| Vector.Intvector.Serialized | main.go:488-497 | eight bytes per element, block `k` being the big-endian encoding of element `k` |
| Vector.Intvector.DeserializeFrom | main.go:500-522 | `InvalidLength`, then `EmptyByteArray`, leave the vector as it was; otherwise the decoded elements follow the old elements (append) or replace them |
| Vector.SerializeRoundTrip | main.go:488-522 | deserialising the serialisation without append restores the elements, failing with `EmptyByteArray` only on an empty vector |

## Left out

- `Average`, `Mean` and `Median` (main.go:349-385): they compute `float64` results, and floating point is not modelled.
- `runtime.GC()` in `Clear` (main.go:139): host memory management with no effect on the elements.
- `sort.Ints` (main.go:247, 404, 443): the library sort is replaced by `SortInts`, an insertion sort proved to return a sorted permutation. The sorted permutation is unique (`SortedUnique`), so nothing depends on the library's algorithm.
- Go map iteration order (main.go:400, 435): the walk picks the next unvisited key arbitrarily. The model therefore covers every order, but it does not choose one.
- Vector.Intvector.Modes: the contract fixes which values are returned, not their order. The order follows the map walk, and Go leaves that unspecified.
- Vector.CountsAndOwners: states only that each count maps to some key with that count, not that it is the last key visited with it. `Mode` reads the map only at the highest count, and when it reads it, exactly one key has that count.
- Error values: each Go error message becomes an `Error` constructor. Constructors carry the vector length where the message prints it. The message text itself is not modelled.
- The branches at main.go:83-84 and main.go:100-101 (`idx == len(v.vec)`, `i == len(v.vec)`) can never be taken, because the index always points at an element. They are not written out.
- Shared element storage: `Intvector` is a struct holding a slice, so a Go copy `b := a` shares `a`'s backing array, and the methods that write in place (`RemoveAt` at main.go:65, `RemoveFirstOf` at main.go:86, `RemoveAll` at main.go:103, `Reverse` at main.go:145, `Swap` at main.go:174, `Set` at main.go:190, `Sort` at main.go:247, `ScaleBy` at main.go:344) show through such a copy. The model gives every vector its own element sequence, so this sharing between copies is not captured; Dafny has no struct copy, and `b := a` on the class aliases the whole object instead.
- Go's `int` is taken to be 64 bits wide, as on 64-bit platforms. A 32-bit `int` is not modelled.
- main_test.go checks that `Push` grows the vector by one and puts the element last. `Push`'s contract states this for every vector.
