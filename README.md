# Robin Hood map, binary heap and ring-buffer deque of `gen`, in Dafny

`gen` is a small C library of generic containers written as macros. This
project models three of them and proves their behaviour:

- **The Robin Hood hash map of `hash.h`.** It is an open-addressing table of
  `2^size` buckets. Each bucket holds a stored int64 hash, a key and a
  value. A stored hash of 0 marks an empty bucket. `find` scans forward
  from a key's home slot while the probe-distance guard holds. `set`
  either updates a matching bucket in place or places the incoming bucket
  by Robin Hood displacement. `remove` finds the bucket, takes it out and
  shifts the following buckets one slot back. `rh_string_hash` is 64-bit
  FNV-1a.
- **The binary min-heap of `rh_heap.h`.** Its buffer doubles when full,
  and insertion sifts up.
- **The ring-buffer deque of `rh_deq.h`.** The live items occupy the cyclic
  range from `end` up to `start`. `push` and `pop` work at `start`, and
  `rpush` and `rpop` work at `end`.

## How the project is laid out

- **Arithmetic.** `Slots` holds the size_t and slot arithmetic:
  `RH_HASH_SIZE`, `RH_HASH_SLOT`, `RH_SLOT_DIST`, the masked `(i + 1)` step,
  and C's wrapping `size_t` operations.
- **The map.**
  - `RobinHoodSpec` states what each map operation does to a table given as
    a sequence of buckets: `FindIndex`, `SetWalk`/`SetResult` and
    `ShiftBack`/`RemoveResult`. It also states the table invariant: the
    local Robin Hood order, unique keys, and stored hashes equal to their
    keys' hashes.
  - `RobinHoodLemmas`, `TableUpdates`, `SetProof` and `RemoveProof` prove
    what these functions do to the invariant and to the set of pairs the
    table holds.
  - `HashMap.Map` is the map object. It is a class over an array of
    buckets, with `no_items` as a wrapping size_t. Each method is proved to
    leave the array as the specification function says.
- **Shared.** `Wrappers` holds the `Option` type used by find and rpeek.
- **The string hash.** `StringHash` is `rh_string_hash`: a loop over the C
  string, proved against the FNV-1a fold `Fnv`, that never returns 0.
- **The test scenarios.** `Fixtures` holds the map scenarios of `tests.c`.
  Each is a lemma that works out the effect on the literal 4-slot table,
  plus a method that makes the calls on a `Map`.
- **The heap.** `Heap.MinHeap` is the heap class. Sift-up is specified by the
  function `Sifted`. Heap order is proved for every comparator that is a
  strict weak order.
- **The deque.** `Deq.Deque` is the deque class. It is specified by `Live`,
  the cyclic contents of the buffer. Resizing is specified by `Regrown`,
  which is realloc followed by memmove.

Allocation success (calloc, realloc) is a boolean parameter of the
operations that allocate, and a NULL buffer is modelled as an empty or null
array. The hash function of a map is a parameter of the map. Key equality
(`EQ_F`, here `rh_string_eq`) is Dafny's `==`.

For the unsigned arithmetic, the code is followed where it and the
documented intent differ:
- `no_items` wraps below 0 when the test scenarios remove from a map whose
  count they never set.
- The deque's `(x - 1) % size` is the Euclidean remainder only because
  sizes are powers of two.

## Model

| member | source | states |
|---|---|---|
| Slots.HashSlot | hash.h:9 | the home slot of a hash is below the capacity 2^size |
| Slots.HashSlotIsLowBits | hash.h:9 | masking the low `size` bits of an int64 hash, negative ones included, equals the non-negative remainder modulo 2^size |
| Slots.CapacityBelowSizeMod | hash.h:8 | a capacity 2^size with size below 64 fits in a size_t |
| Slots.SlotDist | hash.h:10 | the probe distance is below the capacity and is 0 exactly when slot and position coincide |
| Slots.SlotDistWraps | hash.h:10 | home slot plus the probe distance, modulo the capacity, is the position |
| Slots.NextIsMaskedIncrement | hash.h:84 | the masked step `(i + 1) & mask` is the cyclic next slot |
| Slots.SlotDistAhead | hash.h:77-79 | walking d steps from a home slot ends at probe distance d |
| Slots.AheadSlotDist | hash.h:77-79 | walking the probe distance from the home slot arrives at the position |
| Slots.SizeInc | hash.h:152 | `++no_items` agrees with +1 modulo 2^64 |
| Slots.SizeDec | hash.h:112 | `--no_items` agrees with -1 modulo 2^64 and wraps below 0 |
| Slots.WrapModPow2 | rh_deq.h:50 | reducing to size_t before `% size` does not change the remainder when size is a power of two |
| StringHash.Extend | hash.h:23 | a char is sign-extended: its low 8 bits are kept, and the upper 56 copy its sign bit |
| StringHash.CString | hash.h:22 | the C string is the prefix before the first NUL |
| StringHash.CStringUnique | hash.h:22 | any NUL-free prefix that ends at a NUL or at the end of the buffer is that string |
| StringHash.FnvStep | hash.h:23-24 | one loop round extends the FNV-1a digest by one char |
| StringHash.Hash | hash.h:18-29 | the result is never 0; it is the FNV-1a digest of the C string, or 1 when that digest is 0 |
| RobinHoodSpec.Home | hash.h:74 | the home slot of a stored bucket is a slot of the table |
| RobinHoodSpec.Dist | hash.h:78 | the probe distance of a stored bucket is below the capacity |
| RobinHoodSpec.Count | hash.h:54 | the number of occupied slots is at most the table length |
| RobinHoodSpec.FindStep | hash.h:77-84 | a slot whose guard holds and whose bucket does not match passes the scan on to the next slot |
| RobinHoodSpec.FindEnd | hash.h:77-87 | the scan stops with None when the guard fails, and with the slot when the bucket matches |
| RobinHoodSpec.FindIndexMatches | hash.h:80-83 | find only reports a bucket whose stored hash and key equal the sought ones |
| RobinHoodSpec.FindFromMatches | hash.h:80-83 | the same from any position of the scan |
| RobinHoodSpec.SetWalk | hash.h:132-151 | the walk of set keeps the table length |
| RobinHoodSpec.SetWalkPass | hash.h:135-146 | passing a slot without a match moves the walk to the next slot and one step closer to an empty slot |
| RobinHoodSpec.SetWalkHit | hash.h:139-144 | a matching bucket is overwritten and its old contents returned |
| RobinHoodSpec.SetWalkSwap | hash.h:148-150 | when the walk stops, the carried bucket is swapped in; an empty slot ends the walk, and otherwise the displaced bucket is carried on from the next slot |
| RobinHoodSpec.SetWalkAnyEmpty | hash.h:133 | set's walk does not depend on which empty slot bounds it |
| RobinHoodSpec.DisplacementUpdate | hash.h:107 | overwriting one slot changes the total displacement of the table by that slot's change |
| RobinHoodSpec.ShiftMeasureDecreases | hash.h:104-110 | each round of the shift loop lowers the total displacement outside the gap by exactly one, so the loop ends on every table, full ones included |
| RobinHoodSpec.ShiftBack | hash.h:104-111 | the backward shift, defined on every table, keeps the table length |
| RobinHoodSpec.ShiftBackStep | hash.h:104-111 | an occupied bucket away from home moves back one slot and the loop's measure drops; otherwise the gap is zeroed |
| RobinHoodLemmas.FitsPath | hash.h:77-79 | where a bucket fits, every slot on the path from its home is occupied by a bucket at least as far from its own home |
| RobinHoodLemmas.OrderedIffPathOrdered | hash.h:77-79 | the local Robin Hood invariant is equivalent to the path form find's guard relies on |
| RobinHoodLemmas.FindFromPresent | hash.h:76-85 | from any slot on the path to a stored key, the scan ends at that key's slot |
| RobinHoodLemmas.FindCorrect | hash.h:68-88 | on a well-ordered table, find reports a key exactly when it is stored, and then its slot |
| RobinHoodLemmas.PresentKeyFindStops | hash.h:76-85 | the scan for a stored key terminates |
| RobinHoodLemmas.HomeZeroScanNeverStops | hash.h:77-85 | when every bucket, empty ones included, is homed at slot 0, the scan for an absent key homed at 0 never stops |
| TableUpdates.CountUpdate | hash.h:112 | overwriting a slot changes the occupied count by the occupancy change |
| TableUpdates.CountAllEmpty | hash.h:63-64 | a table of zeroed buckets holds nothing and counts 0 |
| TableUpdates.CountBelowHasEmpty | hash.h:133 | a table whose count is below its length has an empty slot |
| TableUpdates.CountBelowWithEmpty | hash.h:133 | a table with an empty slot holds fewer buckets than it has slots |
| TableUpdates.EntriesUpdate | hash.h:142 | overwriting a slot removes its pair and adds the new one |
| TableUpdates.WriteNewKey | hash.h:149 | writing a bucket with a new key keeps keys unique and hashes matching |
| TableUpdates.WriteSameKey | hash.h:142 | overwriting with the same key keeps keys unique and hashes matching |
| TableUpdates.WriteEmpty | hash.h:111 | zeroing a slot keeps keys unique and hashes matching |
| TableUpdates.MoveBucket | hash.h:107 | moving a bucket into an empty slot keeps the pairs, the count and the key invariants |
| SetProof.PlaceKeepsOrder | hash.h:148-150 | storing a bucket where it fits keeps the local order |
| SetProof.BackHomeFillsTable | hash.h:135-146 | a walk that comes back to its home has passed a full table |
| SetProof.SetWalkUpdate | hash.h:135-145 | setting a stored key overwrites its slot and returns the old bucket |
| SetProof.SetWalkInsert | hash.h:132-151 | a new key ends the walk in an empty slot: order kept, one pair added, the count up by one |
| SetProof.UpdateInPlace | hash.h:139-144 | an in-place update keeps the invariant |
| SetProof.SetResultCorrect | hash.h:117-155 | set updates a stored key in place and returns the old bucket, or adds the new pair with the count up by one; the invariant is kept |
| RemoveProof.ShiftOrderedAt | hash.h:107 | one backward step keeps the local order away from the gap |
| RemoveProof.ShiftStep | hash.h:104-109 | one backward step keeps the gap invariants |
| RemoveProof.ShiftBackRestores | hash.h:104-111 | the shift, started from a valid gap, leaves a well-ordered table with the same pairs |
| RemoveProof.RemoveStart | hash.h:99-103 | taking out the found bucket sets up the gap invariants |
| RemoveProof.RemovedKeyAbsent | hash.h:111 | once its only bucket is gone, the key is absent |
| RemoveProof.RemoveCorrect | hash.h:90-115 | on every well-ordered table, full ones included, remove finds a key exactly when it is stored, returns its bucket, drops only that pair and keeps the invariant; an absent key changes nothing |
| HashMap.SetPost | hash.h:117-155 | the table set leaves keeps the map invariant, with the pairs and the count as the source promises |
| HashMap.RemovePost | hash.h:90-115 | the table remove leaves, full tables included, keeps the invariant, drops the key, and keeps the count correct |
| HashMap.Map.Zero | hash.h:92 | the `{0}` bucket is empty |
| HashMap.Map.constructor | hash.h:59-66 | 2^size zeroed buckets, no_items 0 and an empty valid map, or a null array when calloc fails |
| HashMap.Map.Find | hash.h:68-88 | a null array gives None; otherwise the result is FindIndex |
| HashMap.Map.Scan | hash.h:73-87 | the loop of find returns FindIndex |
| HashMap.Map.Set | hash.h:117-155 | a null array returns the incoming bucket; hash 0 only counts; otherwise the table becomes SetResult, the returned bucket and no_items follow, and the invariant and the pairs are as promised |
| HashMap.Map.Probe | hash.h:135-147 | the inner loop stops at a match or at the first slot it does not pass, and leaves the walk's outcome unchanged |
| HashMap.Map.ShiftBackFrom | hash.h:101-111 | the shift loop, on any array, ends and leaves the array as ShiftBack |
| HashMap.Map.Remove | hash.h:90-115 | the array becomes RemoveResult, no_items is decremented when found, the key is afterwards absent and the invariant is kept, on full tables too |
| Fixtures.FakeHash | tests.c:4-6 | fake_hash maps the digit keys to 1..9 |
| Fixtures.NewTestMap | tests.c:9 | test_map_new(2) gives four zeroed buckets |
| Fixtures.InsertWalk | tests.c:24-33 | "1" goes into its home slot of the empty map |
| Fixtures.Insert | tests.c:24-33 | the value is found in slot 1 and no_items is 1 |
| Fixtures.InsAfterOtherWalk | tests.c:35-49 | a key homed at a taken slot goes into the next slot |
| Fixtures.InsAfterOther | tests.c:35-49 | the value lands in slot 3; no_items is 1 while two buckets are stored, as the test wrote one itself |
| Fixtures.InsAfterSmallerOtherWalk | tests.c:51-65 | on the literal table that breaks the invariant, the key lands in slot 3 |
| Fixtures.InsAfterSmallerOther | tests.c:51-65 | the test's check succeeds on that table |
| Fixtures.InsOverBoundaryWalk | tests.c:67-81 | the walk wraps from the last slot to slot 0 |
| Fixtures.InsAfterOtherOverBoundary | tests.c:67-81 | the value is found in slot 0 |
| Fixtures.InsAlreadySetWalk | tests.c:83-98 | setting a stored key overwrites it and returns the old bucket |
| Fixtures.InsAlreadySet | tests.c:83-98 | the new value is stored and the old one returned |
| Fixtures.FindHomeScan | tests.c:100-114 | "2" is found in its home slot |
| Fixtures.FindHome | tests.c:100-114 | the test's check succeeds |
| Fixtures.FindAfterOtherScan | tests.c:116-135 | "2" is found past another key with the same hash |
| Fixtures.FindAfterOther | tests.c:116-135 | the test's check succeeds |
| Fixtures.FindAfterSmallerOtherScan | tests.c:137-156 | on the table that breaks the invariant, find still reaches slot 3 |
| Fixtures.FindAfterSmallerOther | tests.c:137-156 | the test's check succeeds |
| Fixtures.FindOverBoundaryScan | tests.c:158-177 | the scan wraps to slot 0 |
| Fixtures.FindOverBoundary | tests.c:158-177 | the test's check succeeds |
| Fixtures.RemoveTestScan | tests.c:179-193 | removing the only bucket empties the table |
| Fixtures.RemoveTest | tests.c:179-193 | the value is returned, the slot emptied and no_items wraps to 2^64 - 1 |
| Fixtures.RemoveAfterOtherScan | tests.c:195-215 | removing the displaced bucket leaves the other as it was |
| Fixtures.RemoveAfterOther | tests.c:195-215 | the test's checks succeed |
| Fixtures.RemoveAfterSmallerOther | tests.c:217-237 | the test's checks succeed on the table that breaks the invariant |
| Fixtures.RemoveOverBoundaryScan | tests.c:239-259 | removing a bucket past the wrap empties slot 0 |
| Fixtures.RemoveOverBoundary | tests.c:239-259 | the test's checks succeed |
| Fixtures.RemoveBacktrackOtherScan | tests.c:261-280 | the next bucket is shifted back into the gap |
| Fixtures.RemoveBacktrackOther | tests.c:261-280 | the test's checks succeed |
| Fixtures.RemoveBacktrackOverBoundaryScan | tests.c:282-301 | the shift wraps from slot 0 back to the last slot |
| Fixtures.RemoveBacktrackOverBoundary | tests.c:282-301 | the test's checks succeed |
| Fixtures.RemoveBacktrackOptimalScan | tests.c:303-323 | a bucket at its home is not shifted |
| Fixtures.RemoveBacktrackOptimal | tests.c:303-323 | the test's checks succeed |
| Fixtures.RemoveBacktrackOverBoundaryOptimalScan | tests.c:325-345 | a bucket at its home past the wrap is not shifted |
| Fixtures.RemoveBacktrackOverBoundaryOptimal | tests.c:325-345 | the test's checks succeed |
| Fixtures.RemoveBacktrack2Scan | tests.c:347-372 | on the table that breaks the invariant, two buckets are shifted back |
| Fixtures.RemoveBacktrack2 | tests.c:347-372 | the test's checks succeed |
| Fixtures.RemoveFromFullTableScan | hash.h:90-115 | on a full, well-ordered 4-slot table, removing "3" moves the wrapped "33" back into slot 3 and empties slot 0 |
| Fixtures.RemoveFromFullTable | hash.h:90-115 | remove on that full table returns the bucket, leaves the shifted array and counts 3 |
| Fixtures.FindOnNewMapNeverStops | hash.h:77-85 | find of "4", homed at 0, on a new test map never ends |
| Heap.Parent | rh_heap.h:75 | the parent slot `(i - 1) >> 1` precedes the child |
| Heap.RootFirst | rh_heap.h:64-66 | in a heap-ordered sequence under a strict weak order, nothing comes before the root |
| Heap.HoleStart | rh_heap.h:74 | a new last slot below a heap is a hole with no children |
| Heap.SiftStep | rh_heap.h:75-77 | moving the parent down moves the hole up and keeps the hole invariant |
| Heap.SiftEnd | rh_heap.h:79 | filling the hole where x does not precede the parent leaves a heap |
| Heap.Sifted | rh_heap.h:74-79 | sifting keeps the length and the multiset of the slots, with x in the hole |
| Heap.SiftedOrdered | rh_heap.h:74-79 | under a strict weak order, sifting from a hole leaves a heap |
| Heap.PeekFirst | rh_heap.h:64-66 | the root of a heap precedes every item |
| Heap.SwapHole | rh_heap.h:76-77 | moving the parent's item into the hole keeps the multiset of the filled slots |
| Heap.GrowTo | rh_heap.h:70 | `(size ?: 1) * 2` doubles, or wraps below size from 2^63 on |
| Heap.MinHeap.New | rh_heap.h:58-62 | an empty heap with `n` slots, or none when realloc fails |
| Heap.MinHeap.Resize | rh_heap.h:42-56 | fails with 0 and no change when the items do not fit or realloc fails; otherwise `to` slots, with the items kept |
| Heap.MinHeap.Peek | rh_heap.h:64-66 | zero item when empty; otherwise a stored item, and under heap order one that no item precedes |
| Heap.MinHeap.Ins | rh_heap.h:68-82 | fails exactly when full and the doubling resize fails, changing nothing; otherwise the items gain exactly x and heap order is kept |
| Heap.MinHeap.SiftUp | rh_heap.h:74-79 | the loop leaves the slots as Sifted |
| Deq.Grown | rh_deq.h:111 | `(size ?: d) * 2` doubles, or wraps below size from 2^63 on |
| Deq.GrownIsPow2 | rh_deq.h:111 | the doubled size is again a power of two, and positive exactly when size < 2^63 |
| Deq.Deque.Count | rh_deq.h:50 | the item count is below the size |
| Deq.Deque.Contents | rh_deq.h:50 | the contents have Count items, and are empty exactly when start == end |
| Deq.Deque.CountIsDistance | rh_deq.h:50 | the source's `(start - end) % size` is Count |
| Deq.Deque.FullTests | rh_deq.h:110 | both full tests hold exactly when one more item would leave no free slot |
| Deq.Deque.Steps | rh_deq.h:116 | `(p + 1) % size` and `(p - 1) % size` on size_t step cyclically |
| Deq.Deque.Forward | rh_deq.h:146 | `(p + 1) % size` is the next slot |
| Deq.Deque.Back | rh_deq.h:125 | `(p - 1) % size` is the previous slot |
| Deq.Deque.New | rh_deq.h:77-82 | an empty valid deque with `n` slots, or none when n is 0 or realloc fails |
| Deq.Deque.Realloc | rh_deq.h:54 | realloc keeps the first min(size, to) items |
| Deq.Deque.Resize | rh_deq.h:49-71 | fails with 0 and no change when `to` is 0, the items do not fit or realloc fails; otherwise `to` slots and, while start fits, the same contents |
| Deq.Deque.Regrow | rh_deq.h:54-65 | the new buffer is Regrown, and the new end is RegrownEnd |
| Deq.Deque.ResizeAsWritten | rh_deq.h:49-71 | the source's resize: the same guards, the buffer becomes RegrownAsWritten and end is set to the count of end-side items |
| Deq.Deque.RegrowAsWritten | rh_deq.h:54-65 | the buffer is RegrownAsWritten: realloc, then the source's memmove from the top of the new buffer onto the end-side slots |
| Deq.RegrownAsWritten | rh_deq.h:59-63 | in a wrapped deque, each end-side slot receives the unfilled slot at the top of the reallocated buffer |
| Deq.Deque.RPeek | rh_deq.h:102-107 | None exactly when empty; otherwise the item pop would return |
| Deq.Deque.Push | rh_deq.h:109-118 | fails exactly when full and the doubling fails, changing nothing; otherwise x is appended at the start side |
| Deq.Deque.Store | rh_deq.h:115-116 | with room, x is appended and start advances |
| Deq.Deque.Pop | rh_deq.h:120-127 | an empty deque gives the zero item; otherwise the last item is returned and removed |
| Deq.Deque.RPush | rh_deq.h:129-138 | fails exactly when full and the doubling fails; otherwise x is prepended at the end side |
| Deq.Deque.RStore | rh_deq.h:135-136 | with room, end steps back and x is prepended |
| Deq.Deque.RPop | rh_deq.h:140-148 | an empty deque gives the zero item; otherwise the first item is returned and removed |
| Deq.Live | rh_deq.h:34-38 | the cyclic range from end to start has the cyclic-distance length |
| Deq.Realloced | rh_deq.h:54 | realloc's buffer has `to` slots |
| Deq.Regrown | rh_deq.h:54-65 | the regrown buffer has `to` slots |
| Deq.RegrownLive | rh_deq.h:54-68 | the corrected resize keeps the contents when start stays inside the buffer |
| Deq.Moved | rh_deq.h:61-63 | memmove keeps the buffer length |
| Deq.Memmove | rh_deq.h:61-63 | the array becomes Moved |
| Deq.WrappedLive | rh_deq.h:59-65 | moving the end-side items to the top of the new buffer keeps the contents |
| Deq.MovedParts | rh_deq.h:59-65 | the moved top holds the end-side items and the bottom is untouched |
| Deq.UnwrappedLive | rh_deq.h:54 | an unwrapped deque keeps its contents through realloc |
| Deq.PushLive | rh_deq.h:115-116 | storing at start and advancing appends x |
| Deq.PopLive | rh_deq.h:125-126 | stepping start back drops the last item, which sits at the new start |
| Deq.RPushLive | rh_deq.h:135-136 | stepping end back and storing there prepends x |
| Deq.RPushLiveInside | rh_deq.h:135-136 | the same, when the items do not wrap |
| Deq.RPushLiveWrapped | rh_deq.h:135-136 | the same, when the items already wrap |
| Deq.RPushLiveWrapping | rh_deq.h:135-136 | the same, when end wraps from slot 0 |
| Deq.RPopLive | rh_deq.h:145-146 | advancing end drops the first item, which sits at the old end |
| Deq.WrappedResizeLosesItems | rh_deq.h:59-65 | the source's resize turns the wrapped deque [1, 2, 3] into [3], writing the unfilled slot 7 over the slot that held 1 |

## Left out

- dereferencing a null map pointer (`!map`): the map object always exists; only a null bucket array is modelled.
- HashMap.Map.Find: requires that the scan stops (FindStops). The source can spin forever, and HomeZeroScanNeverStops shows when it does. The requirement holds for every stored key of a valid map (PresentKeyFindStops).
- HashMap.Map.Set: requires an empty slot when the key hash is non-zero. There is no resize in hash.h, and set of a new key into a full table never ends. Updating a key already stored in a full, well-ordered table does end in the source (the walk meets the key before any swap); that case is not modelled.
- HashMap.Map.Remove: requires a non-zero key hash and a stopping find scan. The scan is what can spin forever; the shift loop ends on every table (ShiftMeasureDecreases). A hash-0 key is never stored, and removing one, which could match an empty slot, is not modelled.
- rh_string_eq: key equality is Dafny's `==` on the key type.
- StringHash.Hash: returns the 64 bits of the int64 result, not its signed value. Signed overflow in `hash *=` is modelled as wrapping mod 2^64.
- free, clone, peek, view and the rh_deq_for macro of rh_deq.h: not modelled. `peek` reads `items[end - 1]`, which lies outside the live range.
- NAME##_rem of rh_heap.h: not modelled.
- Deq.Deque.New: requires a power-of-two size or 0. The cyclic `% size` of push and pop is only right for such sizes, so other sizes are not modelled.
- Deq.Deque.Resize: requires that a wrapped deque only grows. Its contents are stated only while start lies inside the new buffer; shrinking an unwrapped deque below start is not described.
- Deq.Deque.ResizeAsWritten: the buffer after a wrapped resize is stated (RegrownAsWritten), but not which items the deque then holds in general. WrappedResizeLosesItems works them out on one input.
- Deq.Deque.Push: grows a full buffer through the corrected Resize. The source's push calls its own resize, which loses items when the deque is wrapped (start < end, start + 1 == end); there the model appends x to all the items while the source keeps only some of them.
- Deq.Deque.RPush: the same as Push: the corrected Resize is used, and on a full wrapped deque the model prepends x to all the items where the source loses some.
- Deq.Deque.Realloc: realloc's new slots hold the zero item; in C they are indeterminate. The same holds for Heap.MinHeap.Resize.
- Deq.Deque.New: `memset(items, 0, size)` clears only `size` bytes and is not modelled. Neither is its null write when realloc fails for a non-zero size.
- `to * sizeof(TYPE)` overflow in realloc: not modelled; only success or failure is.
- rh_short_al.h, rh_pool.h, rh_vec.h, rh_mat.h, rh_al_tests.c: not part of this model.
- the printing of tests.c (print_h, ERROR_MSG) and the exact FNV digests of particular strings: not modelled.
- Helper methods split out for proof size: Scan, Probe, ShiftBackFrom, SiftUp, Regrow, Store and RStore. Each is one loop or one step of the source function it belongs to.

## Findings

| source | as written | input that shows it | evidently intended | confidence | as-written member | corrected member |
|---|---|---|---|---|---|---|
| rh_deq.h:59-65 | in the wrapped case `memmove(&new[end], &new[to - end_size], ...)` copies from the uninitialised top of the new buffer onto the end-side items, and sets `end = end_size` | new(4), rpush(1), push(2), push(3) leave 3 items with end 3 and start 2; resize(8), which the next push triggers, leaves a deque of 1 item | move the end-side items to the top (`memmove(&new[to - end_size], &new[end], ...)`) and set `end = to - end_size`, keeping the items and their order | not executed | Deq.Deque.ResizeAsWritten, Deq.WrappedResizeLosesItems | Deq.Deque.Resize, Deq.Deque.Push, Deq.Deque.RPush |
