# Models of clib's data structures

Dafny models of the core of clib, a C library of in-place data structures, and proofs of what they are for. Each
`.dfy` file is one component; `dafny verify dfyconfig.toml` checks all of them.

- `SmpLock` is a transition system of n threads. One step is one access to the header word or to a waiting slot, and
  the program counters are those of `clib_smp_lock_inline`, `clib_smp_lock_slow_path`, `clib_smp_unlock_inline` and
  `clib_smp_unlock_slow_path`, for the spin type. `tickets`, `served` and `entered` are history variables: the threads
  in the order of their tail swaps, how many of them have been handed the lock, and those that have entered.
- `Mheap` is the boundary-tag allocator over a sequence of 4-byte words. Memory is zero when fresh.
- `TimingWheel` is the hierarchical timing wheel: levels of bins, an overflow pool for times that do not fit into 32
  bits, and a time base that moves.
- `Fheap` is the Fibonacci heap of index-linked sibling rings. A ghost forest says what the links mean.
- `Phash` is the construction of perfect hashes: the search for an augmenting path, its application with rollback,
  and the final table.
- `ObjHeap` is the object heap: a chain of elements linked by relative indices, free lists by size, recycled indices.
- `Hash` is the chained hash table with direct and indirect buckets, for any key equality compatible with the sum.
- `Qsort`, `Bitops` (compress), `Popcount`, `SparseVec`, `Pool`, `Md5` (streaming) are one algorithm or structure each.
- `Codes`, `Stored`, `PoolCodes`, `Serialize` and `Values` are the serializer: byte codes, what a buffer holds, the
  code of a pool, the operations on a stream, and sequences of values.
- `Words` has the arithmetic of machine words kept as natural numbers, and the marker `Open`. A definition of the form
  "for all k, Open(k) implies ..." says what it seems to say, but is seen only by proofs that mention `Open`.

What was found false of the code is kept as the code has it, with the input and the exact condition:

- the free-list search of `Mheap` misses a place that fits if and only if `Misses` holds (`SearchMisses`; a run that
  ends so is `MissedRun`);
- `timing_wheel_advance` returns if and only if no element of the overflow pool is due in the current bin but before the
  new time base, where an assertion fails, and the result vector has room for the elements found late, or is null; and
  what it returns is right if and only if every other element due in the pool is deleted or, unless the vector is null,
  found late (`Wheel.Advance`). With no room that is: if and only if no undeleted element of the pool is due
  (`WithoutRoom`). None is due if nothing was inserted before the time base and no advance reaches 2^32 clocks past it
  (`Wheel.Play`, `BoundExact`, `EarlyNeverFits`; runs that lose an element are in `LostRuns`);
- `fheap_del` of a root deletes that root if and only if it is the minimum (`Fheap.Del`), and `fheap_del_min` loses track
  of all nodes if and only if some are left and all their keys are ~0 (`Fheap.DelMin`);
- `phash_hash_slow` is sure to be a perfect hash if and only if some bits went to a (`TryPerfectHash`; with one key
  none do, `OneKeyUnsound`);
- the search of `heap.c` reads before the start of a list if and only if the list of the bin of the size is not empty
  and has nothing large enough (`ObjectHeap.SearchFreeList`; a run that does so is `StrayRun`).

## Model

| member | source | states |
|---|---|---|
| SmpLock.MutualExclusion | clib/smp.h:196-285 | in every reachable state of any n >= 2 threads at most one owns the lock, counting a waiter that has been handed it, and the header bit is set exactly when one does |
| SmpLock.NoPanic | clib/smp.c:120-293 | in every reachable state each assertion of the lock and unlock paths holds at the step that evaluates it, and the header fields stay within the number of slots and cpus |
| SmpLock.DistinctSlots | clib/smp.c:130-190 | two waiting threads have different slots, but for one case: all n - 1 slots are taken, the earlier is the owner that has not left its slot yet, and the later still waits for the slot to become empty |
| SmpLock.OneHandOff | clib/smp.c:205-293 | while a thread is waking its successor no other is, and that successor is the owner, waiting at the slot being written |
| SmpLock.FifoOrder | clib/smp.c:130-190 | threads enter in the order of their successful tail swaps: those that have entered are a prefix of those that swapped, and at most one more has been served |
| SmpLock.NoBarging | clib/smp.h:196-235 | whoever enters the critical section is either the next ticket, or no ticket is outstanding and the lock is free |
| SmpLock.NeverStuck | clib/smp.c:95-108 | whenever some thread is inside lock or unlock and none is in its critical section, some thread has a step that is not a spin |
| SmpLock.EffortDecreases | clib/smp.c:120-293 | every step that is not a spin, a failed compare-and-swap included, uses up some of a natural number determined by the state |
| SmpLock.NobodyStarves | clib/smp.c:120-293 | once no new thread comes, every maximal schedule of such steps is bounded and ends with every thread done, in and out of the lock |
| SmpLock.CanFinish | clib/smp.c:120-293 | from every state in which the invariants hold there is a schedule, without new calls and without spinning, after which all threads are done |
| Mheap.BinMono | clib/mheap.c:54-74 | the bin of a size never decreases with the size |
| Mheap.BinMeans | clib/mheap.c:54-74 | below 258 words each size has its own bin; above, a bin holds the sizes between two powers of two of bytes |
| Mheap.PushOk | clib/mheap.c:126-157 | the stores of set_free_elt put a block at the head of its bin's doubly linked list, and leave all lists and the bitmap of non-empty bins right |
| Mheap.RemoveOk | clib/mheap.c:158-185 | the stores of remove_free_elt take exactly that block off its list, and leave all lists and the bitmap right |
| Mheap.SearchMisses | clib/mheap.c:361-387 | for every block, size, alignment and offset: the search finds no place although one fits if and only if the arithmetic condition Misses holds |
| Mheap.AllConsidered | clib/mheap.c:361-387 | with no alignment offset the search considers every position that fits |
| Mheap.NothingFitsMeans | clib/mheap.c:321-400 | a block in which the search finds nothing either has no place that fits or satisfies Misses |
| Mheap.NothingFitsAtAll | clib/mheap.c:361-387 | with no alignment offset a block in which the search finds nothing has no place that fits |
| Mheap.MissedRun | clib/mheap.c:361-400 | from a new heap, two allocations and one put lead to a valid heap in which a request for 2 words fits into the listed free block of 7, and fails |
| Mheap.Heap.Place | clib/mheap.c:367-387 | the highest position considered that fits, if there is any |
| Mheap.Heap.SearchFreeList | clib/mheap.c:464-508 | it fails if and only if no free block anywhere has a place the search considers; otherwise the object is at such a place, aligned, and the invariant is kept |
| Mheap.Heap.ExtendVector | clib/mheap.c:510-583 | the object is appended at the first position that is aligned and leaves room for a free block in front or nothing; it fails only when none has room, and the invariant is kept |
| Mheap.Heap.GetWords | clib/mheap.c:585-663 | the result is a region of at least the size and at most three words more, aligned at its offset, disjoint from every live region, no word of which has changed, and at the highest place considered in some free block if there is one, else at the first at the end; it fails if and only if there is neither |
| Mheap.Heap.GetAligned | clib/mheap.c:585-663 | the same in bytes: the byte at the offset is a multiple of every power of two up to the alignment rounded up to one; it fails if and only if the offset, reduced by that alignment, is not one of whole words, or there is no place for the size rounded up to words, and then nothing changes |
| Mheap.Heap.FreeLast | clib/mheap.c:665-690 | freeing the last block, and the free block before it if there is one, removes exactly that region and keeps the invariant |
| Mheap.Heap.Put | clib/mheap.c:692-782 | exactly that region is given back, no word of another live region changes, and blocks, tags, lists and bitmap stay right, whichever neighbours are merged |
| Mheap.LiveDisjoint | clib/mheap.c:1269-1378 | in a valid heap the live regions are pairwise disjoint and inside the vector |
| Mheap.Conservation | clib/mheap.c:1360-1378 | data words and one overhead for each block and one more add up to the length of the vector |
| TimingWheel.TickIsShift | clib/timing_wheel.c:57-66 | the bin number of a time index on level l is the index shifted by l times the bits of a wheel index |
| TimingWheel.IndexBounds | clib/timing_wheel.c:34-42 | a time index counts bins of 2^clock_bits clocks: the time is in the bin of its index |
| TimingWheel.Reached | clib/timing_wheel.c:34-42 | an advance reaches an entry if and only if it reaches the clock at which the bin of its time begins |
| TimingWheel.GapShrinks | clib/timing_wheel.c:552-580 | times less than a turn of level 1 apart are so on every higher level |
| TimingWheel.LevelMoved | clib/timing_wheel.c:475-533 | once the bins between the old and the new time are empty, everything else on the level is filed correctly by the new time |
| TimingWheel.Wheel.GetLevelAndRelativeTime | clib/timing_wheel.c:34-54 | on a level above 0 an element is due only after its bin has begun to pass, and it is at least a turn away on every level below |
| TimingWheel.Wheel.Insert | clib/timing_wheel.c:259-289 | exactly this entry is added, and those of a user who had been deleted are gone, from the levels and the overflow pool; nothing early is in the pool unless the time is before the base |
| TimingWheel.Wheel.Delete | clib/timing_wheel.c:291-297 | only the set of deleted users changes |
| TimingWheel.Wheel.RefillLevels | clib/timing_wheel.c:552-580 | above level 0 every bin that time passes is empty; of what was in them exactly what is due has been returned, unless deleted, and the rest is pending with its time unchanged |
| TimingWheel.Wheel.ExpireLevels | clib/timing_wheel.c:582-618 | what is taken from the bins passed is due, all of it is, and nothing due is left on the levels |
| TimingWheel.Wheel.AdvanceCpuTimeBase | clib/timing_wheel.c:426-473 | its assertion fails if and only if an element on the levels is due in the current bin but before the new base; otherwise every absolute time is unchanged, and the caller sees an element appended for each one found late that is not deleted, unless the vector was null or has been moved |
| TimingWheel.Wheel.Advance | clib/timing_wheel.c:536-651 | what leaves the levels is exactly what is due; it returns if and only if nothing in the overflow pool is stuck and the late elements need no new vector; then the result is right for all undeleted entries if and only if each one due in the pool is late and the vector not null; and if nothing there is due, the advance returns each due entry that is not deleted and keeps every other with its time |
| TimingWheel.NewBaseMeans | clib/timing_wheel.c:629-631 | after an advance the time base is the old one plus as many whole steps as bring it within a step of the new time, and no more |
| TimingWheel.WhenLost | clib/timing_wheel.c:450-471 | when the vector was null, dropping or keeping a due undeleted entry of the overflow pool can be explained by no list of returned entries |
| TimingWheel.WhenSeen | clib/timing_wheel.c:450-471 | when the caller sees what is appended, a due undeleted entry that is not late can be explained by none |
| TimingWheel.WithoutRoom | clib/timing_wheel.c:450-471 | with a vector that is null or full, an advance returns a right result if and only if nothing is stuck and no undeleted entry of the overflow pool is due |
| TimingWheel.AppendToCopy | clib/vec.h:79-111 | appending by a copy of the pointer to a vector adds to what its owner sees while there is room, moves the vector away when it is full, and adds nothing to a null one |
| TimingWheel.BoundExact | clib/timing_wheel.c:204-219 | an advance stops short of 2^32 clocks past the base if and only if nothing that far away is due by it |
| TimingWheel.EarlyNeverFits | clib/timing_wheel.c:450-471 | an entry inserted before the time base is due at once and does not fit after any later advance |
| TimingWheel.LegalInsert | clib/timing_wheel.c:196-219 | an insertion in a later bin than the current one is never before the base |
| TimingWheel.LegalAdvance | clib/timing_wheel.c:629-631 | an advance of at most 2^(32-c) - 2^(b-c) ticks, for c clock bits and b bits between base updates, does not reach 2^32 clocks past the base |
| TimingWheel.OneRun | clib/timing_wheel.c:196-219 | on a new wheel what is inserted is returned by an advance that reaches it if and only if it fits into 32 bits after the base, or is found late and the vector has room |
| TimingWheel.LostRuns | clib/timing_wheel.c:460-466 | two runs that return nothing although what was inserted is due, one before the base and one 2^32 clocks after it; with room for one the latter does return it |
| TimingWheel.Wheel.Play | clib/timing_wheel.c:259-651 | any run of legal calls on a wheel is a run of exact steps, and each advance answers with the users of what it took who are not deleted |
| TimingWheel.AnsweredOnTime | clib/timing_wheel.c:536-651 | in any such run a user inserted, and not deleted since, is in the answer of the first advance to a clock not before the bin of its time begins, hence of the first one to its time or later, and the entry is gone |
| TimingWheel.NeverEarly | clib/timing_wheel.c:536-651 | in any such run a user is in the answer of an advance only if some earlier call inserted it at a time of which the bin has begun by the clock advanced to |
| TimingWheel.Stays | clib/timing_wheel.c:259-651 | until an advance reaches its time an entry stays, with its time unchanged |
| TimingWheel.NeverTwice | clib/timing_wheel.c:536-651 | over any run no entry leaves more often than it was inserted; and if its user is never deleted, every copy has left or still waits |
| Fheap.RootAbove | clib/fheap.c:12-100 | above every node is a root whose key is no greater |
| Fheap.Fheap.LeastKey | clib/fheap.h:96-98 | the minimum root has the least key of all nodes |
| Fheap.Fheap.Add | clib/fheap.c:133-162 | the map from nodes to keys gains exactly this node and key |
| Fheap.Fheap.DecreaseKey | clib/fheap.c:371-390 | exactly this node's key changes |
| Fheap.Fheap.MarkParent | clib/fheap.c:342-369 | a node that has a parent is marked, or if it was marked already it becomes a root and is unmarked; no other node changes its parent and no ring but its parent's changes |
| Fheap.Fheap.LinkRoot | clib/fheap.c:206-258 | the roots done have different ranks, each filed in the table under its rank, and no node or key is lost |
| Fheap.Fheap.ScanTable | clib/fheap.c:310-326 | all roots have different ranks, one of least key is found, and the table is all ~0 again |
| Fheap.Fheap.DelMin | clib/fheap.c:260-340 | the node returned had the least key of all, exactly it is gone, and the roots left have pairwise different ranks; the heap is valid if and only if no nodes are left or some key is less than ~0, and otherwise no root is known |
| Fheap.Fheap.Del | clib/fheap.c:393-420 | exactly this node is gone if and only if it has a parent or is the minimum root, as the source asserts; any other root stays, and the minimum is gone instead |
| Fheap.Fheap.KidsToRoots | clib/fheap.c:411-416 | the loop that takes children off the ring it walks ends after 2k - 1 rounds for k children, with every child in the root list, in the order stated |
| Phash.InitTabb | clib/phash.c:320-374 | it succeeds exactly when no two keys share (a, b); then each list holds the keys of its b, each once |
| Phash.ConsistentUnique | clib/phash.c:377-440 | the table is determined by the vals of the mapped b's |
| Phash.Tables.Rollback | clib/phash.c:388-420 | a rollback restores the table and every val exactly as they were |
| Phash.Tables.Apply | clib/phash.c:377-440 | either every mapped b and the new one have all their keys at their hashes, or table and vals are as before |
| Phash.Tables.QueueFits | clib/phash.c:464-549 | the queue never needs more than 2^b_bits + 1 entries |
| Phash.Tables.Augment | clib/phash.c:464-549 | the new b is mapped and all others stay so, or nothing has changed; it does not fail if some val sends all keys of the new b to empty places |
| Phash.Tables.Perfect | clib/phash.c:553-578 | when it succeeds, all keys have different hashes below hash_max; when it fails, some b is left that no val sends to empty places only |
| Phash.TryPerfectHash | clib/phash.c:747-898 | when a round yields a table, phash_hash_slow with it sends all keys to different places below hash_max, whatever an undefined shift may give, if and only if some bits went to a or there are no keys; it yields none only if two keys share (a, b) or the search is blocked as for perfect |
| Phash.WildValue | clib/phash.c:870-890 | with no bits for a there is a u32 the undefined shift may give that leads out of range |
| Phash.OneKeyUnsound | clib/phash.c:759-760 | with one key, a_bits is 0 and hash_max 1; on a machine that takes shift counts modulo the word the hash is out of range unless the mixed word is 0 |
| ObjHeap.AtMostOneInBin | clib/heap.c:522-532 | two blocks of one bin do not fit into a block of that bin, so at most one of the merged blocks is in the bin of the result |
| ObjHeap.BinMeans | clib/heap.c:51-71 | up to 32 each size has its own bin; above, a bin holds the sizes between two powers of two |
| ObjHeap.ChainInserted | clib/heap.c:121-167 | linking an element in at any place of the chain, its ends included, gives the chain with it there |
| ObjHeap.ObjectHeap.RemoveFreeBlock | clib/heap.c:234-251 | swapping the last of the list into the gap leaves every other free element's stored position right |
| ObjHeap.ObjectHeap.SearchFreeList | clib/heap.c:253-321 | it reads before the start of a list if and only if the list of the size's bin is not empty and has nothing large enough; when it finds nothing no free element is large enough; else exactly this object is new |
| ObjHeap.ObjectHeap.SmallNeverMissed | clib/heap.c:263-286 | sizes up to 32 never lead it astray |
| ObjHeap.StrayRun | clib/heap.c:270-282 | one free element of 40 and a request for 64 do |
| ObjHeap.RoomTaken | clib/heap.c:362-372 | the room searched for is the size and, with an alignment above 1, one less than the least power of two that is not below it |
| ObjHeap.ObjectHeap.Alloc | clib/heap.c:348-461 | exactly one object of this size is new, its offset a multiple of every power of two up to the alignment rounded up to one, under a handle no live object has, and no live object's memory changes; fragments in front and behind are free again; it fails, or is undefined, if and only if as stated |
| ObjHeap.ObjectHeap.Combine | clib/heap.c:489-560 | two or three adjacent free elements become one with their space, live objects and their memory unchanged, and no two free elements adjacent |
| ObjHeap.ObjectHeap.Dealloc | clib/heap.c:464-485 | exactly this object is freed, no other is touched, and chain, tiling, lists, stored positions and recycled indices stay right |
| ObjHeap.ThreeMerge | clib/heap.c:323-346 | a run of allocations and deallocations in which three neighbours merge into one |
| Hash.KeysDiffer | clib/hash.c:450-531 | equal keys are not in the table twice |
| Hash.HashTable.Lookup | clib/hash.c:450-531 | get, set and unset report the old value of the equal key, if there is one, and change the map at that key only |
| Hash.HashTable.Find | clib/hash.c:533-550 | hash_get finds the value of the equal key if and only if there is one, and the map is unchanged |
| Hash.HashTable.Set3 | clib/hash.c:723-741 | so does hash_set; if the table may grow it has room for one more pair below three quarters afterwards, it keeps its length when it had, and otherwise is at least twice as long, but not longer than needed |
| Hash.HashTable.Remove | clib/hash.c:609-627 | so does hash_unset; the table is halved if it may shrink, more than 32 pairs are left, and less than a quarter would be full |
| Hash.HashTable.Resize | clib/hash.c:697-718 | the map is unchanged, and the length is the least power of two that is at least the size and 64, unless the pairs need more |
| Hash.HashTable.Dup | clib/hash.c:720-722 | a new table with the same map |
| Hash.EachPairOnce | clib/hash.h:296-355 | the pairs of all buckets are exactly those of the map, as many as it has keys |
| Hash.HashTable.Next | clib/hash.c:555-607 | successive calls yield the pairs of all buckets one after the other and then none, and growing and shrinking are suspended meanwhile |
| Qsort.Partition | clib/qsort.c:120-190 | the range is a rearrangement, with nothing greater than the pivot before it and nothing less after it |
| Qsort.Qst | clib/qsort.c:120-216 | a least element of the range is within its first THRESH places, and the depth of recursion is at most d for fewer than 2^d elements |
| Qsort.EnoughDepth | clib/qsort.c:195-214 | d need not exceed the binary logarithm of the length by more than one |
| Qsort.FindPlace | clib/qsort.c:90-92 | the search without a bounds check stops above 0, at the place of the element |
| Qsort.Sort | clib/qsort.c:40-102 | for every array and every total preorder the array ends sorted, and a permutation of what it was |
| Bitops.PositionsDiffer | clib/bitops.h:66-91 | after any round no selected bit is where another bit of its right has moved |
| Bitops.MoveStep | clib/bitops.h:98-106 | one round carries every selected bit from its place to its next |
| Bitops.Compress.Init | clib/bitops.h:66-91 | the mask of each round marks exactly the bits that move in it |
| Bitops.Compress.Bits | clib/bitops.h:93-109 | for every mask and word the selected bits are packed at the low end in order, and above them all is zero |
| Popcount.Masks | clib/bitops.h:33-41 | the masks of the proof are the constants of the source |
| Popcount.CountsSetBits | clib/bitops.h:30-58 | for every 64-bit word the result is the number of set bits |
| Popcount.CountsBelow | clib/sparse_vec.h:104-110 | on a word with the higher bits masked off it is the number of set bits below the position |
| Popcount.SetBits | clib/bitops.h:30-58 | the source's steps, with its constants, return the number of set bits of any 64-bit word |
| Popcount.AtMostOneBit | clib/clib.h:233-234 | is_pow2 holds for exactly the words with at most one set bit |
| Popcount.BitsBelow | clib/sparse_vec.h:104-110 | count_set_bits of w & (2^p - 1) is the number of set bits of w below p |
| SparseVec.SparseVector.CountBelow | clib/sparse_vec.h:84-112 | the count of a word and the bits below in it are the number of smaller members |
| SparseVec.SparseVector.Index | clib/sparse_vec.h:136-141 | one more than the number of smaller members for a member, 0 for others |
| SparseVec.SparseVector.Index2 | clib/sparse_vec.h:144-192 | the two speculative lookups, which test the masked words by x & (x - 1), give what two single ones give |
| SparseVec.SparseVector.CountsFit | clib/sparse_vec.h:36-57 | when indices have at most 16 bits, every count fits into the u16 that holds it |
| SparseVec.SparseVector.Insert | clib/sparse_vec.h:112-132 | the index becomes a member, no other does, and every count is the number of members before its word |
| SparseVec.SparseVector.Validate | clib/sparse_vec.h:199-219 | the index is a member, every other member's element is the same, and a new one's is zero |
| SparseVec.SparseVector.PositionsInOrder | clib/sparse_vec.h:84-132 | members' elements lie in the order of the members, after the invalid one at 0 |
| Pools.RegionsOf | clib/pool.h:246-283 | the regions are the longest runs of clear bits below the length, in ascending order, and every clear bit is in one |
| Pools.Pool.Get | clib/pool.h:141-170 | the element freed last, or one more at the end, joins the live ones, of which none changes |
| Pools.Pool.Put | clib/pool.h:186-197 | exactly this element is free, and is the next to be got |
| Pools.Pool.Regions | clib/pool.h:246-283 | an index is in a region exactly when it is live |
| Codes.NetRoundTrip | clib/serialize.h:151-180 | reading the n bytes of a number gives its n low bytes |
| Codes.NetInverse | clib/serialize.h:151-180 | any n bytes are the n bytes of the number they are read as |
| Codes.NetByteAt | clib/serialize.h:151-180 | byte i of an integer of n bytes is x / 256^(n-1-i) mod 256: the highest comes first |
| Codes.SmallCode | clib/serialize.h:183-216 | numbers below 2^7, 2^7 + 2^14 and 2^7 + 2^14 + 2^29 are coded in 1, 2 and 4 bytes, and all others in 9; byte i is the one of 256^i of the number the source forms |
| Codes.FirstByte | clib/serialize.h:183-253 | the first byte of the 1, 2, 4 or 9 byte code of any u64 tells its length |
| Codes.HalfAt | clib/serialize.c:304-319 | a 64-bit word of a bitmap is two of 32 bits, the low one first |
| Serialize.Stream.PutInteger | clib/serialize.h:151-165 | the n low bytes of the number are stored, the highest first, and no others change; it fails exactly when there is no room |
| Serialize.Stream.TakeSmall | clib/serialize.h:219-253 | whatever u64 was written at the index is read back, and exactly its bytes are used; it fails exactly when the code is cut off, and what it reads is the code of the result, or a number in nine bytes |
| Serialize.Stream.TakeVector | clib/serialize.c:251-275 | whatever vector was written at the index is read back, however it is cut into chunks; and whatever is read is the code of the result |
| Serialize.Stream.PutVector | clib/serialize.c:231-248 | the bytes of the length and of each element are stored, the highest of each first, and no others change; it fails exactly when there is no room |
| Serialize.Stream.PutBitmap | clib/serialize.c:304-319 | the vector of its 32-bit halves is stored, byte by byte as a vector is |
| Serialize.Stream.TakeBitmap | clib/serialize.c:321-352 | whatever bitmap was written at the index is read back |
| Serialize.Stream.PutPool | clib/serialize.c:354-375 | length, vector of free indices and live elements in order are stored, the highest byte of each first; it fails exactly when there is no room |
| PoolCodes.LiveEltAt | clib/serialize.c:354-375 | an element in use stands after those in use before it |
| Serialize.Stream.TakePool | clib/serialize.c:376-404 | the live elements and the free indices, in their order, are those that were written, and the bitmap marks them |
| Values.PutAll | clib/serialize.c:586-617 | any sequence of values is stored as the sequence of their codes |
| Values.TakeAll | clib/serialize.c:586-628 | where the codes of a sequence of values stand, exactly those values are read, and the index is at their end |
| Values.RoundTrip | clib/serialize.c:586-628 | any sequence of numbers, small numbers, vectors, bitmaps and pools written into a buffer with room for it is read back, and the reader stops where the writer did |
| Md5.PaddedInjective | clib/md5.c:273-293 | different messages of less than 2^61 bytes are padded differently |
| Md5.PaddedMeans | clib/md5.c:273-293 | the padded message is the message, the byte 0x80, zeros, and its length in bits modulo 2^64 in eight bytes, the low one first; its length is the least multiple of 64 with room for that |
| Md5.FirstBlock | clib/md5.c:222-271 | the blocks go through the compression function from the first to the last |
| Md5.Context.Add | clib/md5.c:222-271 | the message grows by the data, whether by whole blocks in place or byte by byte |
| Md5.Context.Finish | clib/md5.c:273-293 | the digest is the compression function folded over the message padded so, as in sections 3.1 and 3.2 of RFC 1321 |
| Md5.DigestOf | clib/md5.c:198-293 | however a message is cut up, and at whatever addresses its parts are, the digest is that of the message |

## Left out

- The reader and writer lock types, cpu binding, the yield in spin loops, and weak memory: the steps of the lock are atomic and sequentially consistent.
- SmpLock.NobodyStarves: of the steps that make progress; a scheduler that only ever runs spinning threads is not excluded by the code either.
- Mheap: the cache of small objects, mapping and unmapping of pages, locking, tracing and statistics; vectors of more than 2^31 bytes.
- Mheap.Heap.GetAligned: a request that fails on an empty heap leaves the first overhead in place without an end mark, as the source does; `Valid` allows that state.
- TimingWheel: floating point in `timing_wheel_init`, the time of the next expiring element and its cached minimum, recycled vectors and statistics; time indices are not bounded by 64 bits.
- TimingWheel.Wheel.Advance: for advances that span less than a turn of level 1 only, since the refill of a level is skipped when its masked indices coincide. The room of the result vector once the levels have been swept is a parameter, since it depends on the allocator. After the assertion that no element is before the new base has failed, or the vector has been moved and freed, nothing more is said.
- TimingWheel.Wheel.Play: only for legal calls; what other calls do is stated by `Wheel.Advance` and `OneRun`.
- Fheap: what becomes of a heap that has lost its root. No bound on ranks: the cascade test reads the parent after the node has joined the roots, so no cascade happens. Whether a node is valid is known by the ghost members, since `fheap_add` does not set the flag.
- Phash: the mixing functions, which are a parameter, the guess of the first sizes, the loop over seeds and sizes, of which one round is modelled, and duplicate keys, which are an error. That the search finds a path of several moves whenever there is one is not claimed.
- ObjHeap: the debug bitmap, static memory, and what happens once the search has left a list. The constructor gives the state after the first allocation. Two independent pairs of stores are in another order than in the source, where a comment says so. Lengths stay below 2^31, since offsets have 31 bits.
- Hash: the hash and equality functions of keys, the packing of pairs into bytes and of lengths into 5 bits of a pointer, tables given as null, and formatting.
- Qsort: the swaps of bytes; elements are moved whole.
- Popcount: the variant for 32-bit words. Bitops: rotation and the next word with as many set bits.
- SparseVec: ranges of up to two indices (`maybe_range`) are covered as single indices only.
- Serialize: streams with a data function or an overflow buffer, strings, floats, the heap serializer, the vectors of bytes (`serialize_vec_8`), and the code for signed small numbers, which is not an inverse pair.
- Serialize.Stream.TakePool: an index list that names elements beyond the length, which the source does not check, is refused here.
- Pools.Pool.Get: alignment, and the space in front of the vector.
- Md5: the compression function is a parameter, the host is little-endian, and lengths handed to `md5_add` are not negative.
- `qhash.c`, `graph.c`, `mhash.c`, `smp_fifo.h`, formatting, sockets, files, ELF, and whatever else is not named above.
