# CLHT without overflow buckets, single-threaded

This project models the lock-based, resizable CLHT hash table of
`src/clht_lb_res_no_next.c` together with the definitions it uses from
`include/dht_res.h`, as one thread runs it. It proves what the code does to
the table's contents.

- **Buckets** (module `Buckets`, `buckets.dfy`). A `bucket_t` has a lock word
  and three parallel key and value slots. Key 0 marks an empty slot. A bucket
  array is a `seq<Bucket>` value. Its contents are the set of (key, value)
  pairs of its occupied slots (`Entries`), and `Count` is what `ht_size`
  counts. The table invariant says that every occupied slot sits in the
  bucket its key hashes to (`key & hash`) and that no key occupies two slots.
- **Lock words** (module `BucketLock`, `lock.dfy`). LOCK_FREE, LOCK_UPDATE and
  LOCK_RESIZE form a three-state machine. `lock_acq_chk_resize`,
  `lock_acq_resize` and `LOCK_RLS` are transitions of it.
- **Machine arithmetic** (module `Bits`, `bits.dfy`). C's `&` on unsigned
  operands, `is_power_of_two`, and the 32-bit truncation of a grown bucket
  count.
- **Resize as values** (module `Resize`, `resize.dfy`).
  - `ht_put_seq` and `bucket_cpy` are functions over bucket arrays.
  - `Migrate` is the resizer's copy loop, which goes up through the buckets.
  - `MigrateDown` and `HelpStop` are the helper's copy loop, which goes down
    until it meets a bucket already locked for resizing.
  - The lemmas about them say what a resize keeps. The copy never invents a
    pair. It keeps every pair exactly when no destination bucket overflows,
    and the size exactly then too. That is always so when a power-of-two table grows by a
    power-of-two factor, unless the grown count wraps to 0, and never so when a shrink leaves fewer slots than
    pairs.
- **One put and one remove as values** (module `Operations`,
  `operations.dfy`). These are one pass of `ht_put` over a bucket and one
  `ht_remove`, each with its effect on the contents and the invariant.
- **One table generation** (class `HashTables.HashTable`, `hashtable.dfy`).
  - The fields are those of `hashtable_t`, plus `version` and `table_prev`.
  - The bucket array is an `array<Bucket>` that the methods update in place.
  - The methods are `ht_create`, `ht_get`, `bucket_exists`, `ht_size`, the
    lock routines, `ht_put_seq`, `bucket_cpy` and `ht_resize_help`. Each is
    proved against the functions above. So are the scans and writes of
    `ht_put` and `ht_remove`, and the copy loop of `ht_resize_pes`.
  - The memory counters `ht_size_mem` and `ht_size_mem_garbage` are modelled
    too. They follow the `table_prev` chain of older generations, which a
    ghost sequence records.
- **The handle** (class `Clht.Wrapper`, `wrapper.dfy`). It holds the current
  generation and the resize lock.
  - `clht_wrapper_create` builds it.
  - `ht_put` retries after a resize whenever the key's bucket is full.
  - `ht_remove`.
  - `ht_resize_pes` creates a new generation, copies every bucket into it,
    links the old generation behind it and publishes it.

The resize-policy decision (`ht_status`) is outside the model. The growth
factor it would pass to `ht_resize_pes` is a parameter, `factor`.
`CLHT_READ_ONLY_FAIL` is the parameter `readOnlyFail`. `CLHT_HELP_RESIZE` is
taken as 1.

## Model

| member | source | states |
|---|---|---|
| Bits.IsPowerOfTwo | src/clht_lb_res_no_next.c:21-25 | `x != 0 && !(x & (x - 1))` holds for 1, and above 1 only for an even `x` whose half shares no bit with its own predecessor: an odd number above 1 is never accepted |
| Bits.PowerOfTwoIff | src/clht_lb_res_no_next.c:21-25 | `is_power_of_two(x)`, i.e. `x != 0 && !(x & (x - 1))`, holds for a 32-bit `x` exactly when `x` is `2^i` for some `i < 32` |
| Bits.GrowthStep | src/clht_lb_res_no_next.c:428 | `by * num_buckets`, truncated to the `uint32_t` that `ht_create` takes, is either 0 or a strictly larger power of two whose mask covers the old mask, when both factors are powers of two and `by >= 2` |
| BucketLock.Word | include/dht_res.h:137-139 | the lock word holds 0, 1 or 2, and 0 exactly for LOCK_FREE |
| BucketLock.WordRoundTrip | include/dht_res.h:137-139 | the state and the stored number convert back and forth without loss |
| BucketLock.AcquireResize | include/dht_res.h:186-201 | `lock_acq_resize` succeeds exactly on a free lock and always leaves it in RESIZE |
| BucketLock.AcquireUpdate | include/dht_res.h:153-184 | `lock_acq_chk_resize` succeeds exactly on a free lock and leaves it in UPDATE; a refusal leaves it in RESIZE |
| BucketLock.Release | include/dht_res.h:204-206 | `LOCK_RLS` leaves the word 0 |
| BucketLock.NoDoubleAcquire | include/dht_res.h:153-201 | a second acquire with no release in between never succeeds: after UPDATE it would spin, and after RESIZE both acquires refuse |
| BucketLock.ReleaseEnablesAcquire | include/dht_res.h:153-206 | after `LOCK_RLS` either acquire succeeds |
| Buckets.HtHash | src/clht_lb_res_no_next.c:170-179 | the bin is at most the mask |
| Buckets.HashInRange | src/clht_lb_res_no_next.c:170-179 | with `hash = num_buckets - 1` the bin indexes the bucket array |
| Buckets.HashIsMod | src/clht_lb_res_no_next.c:170-179 | for a power-of-two bucket count, `key & (n - 1)` is `key mod n` |
| Buckets.FindSlot | src/clht_lb_res_no_next.c:328-338 | the result is the first slot holding the key, or -1 exactly when no slot holds it |
| Buckets.LastSlot | src/clht_lb_res_no_next.c:257-272 | the result is the last slot holding the key (for `ht_put`, the last empty slot), or -1 exactly when there is none |
| Buckets.Lookup | src/clht_lb_res_no_next.c:183-211 | when some slot of the bucket holds the key, the value is the one beside the first such slot; when none does, it is 0 |
| Buckets.LookupAgrees | src/clht_lb_res_no_next.c:183-211 | on a valid table and for a nonzero key, `(key, v)` is stored exactly when the key's bucket holds the key and `ht_get`'s value is `v` |
| Buckets.KeyPresent | src/clht_lb_res_no_next.c:213-225 | on a valid table, a nonzero key is stored exactly when the bucket it hashes to holds it |
| Buckets.ZeroNeverStored | include/dht_res.h:71-77 | key 0, the empty-slot marker, is never part of the contents |
| Buckets.NoKeyInTwoSlots | src/clht_lb_res_no_next.c:257-289 | under the table invariant that `ht_put` keeps, a nonzero key occupies at most one slot of the whole table |
| Buckets.InsertIntoEmptySlot | src/clht_lb_res_no_next.c:281-289 | writing an absent key into an empty slot of its own bucket adds exactly that pair, adds one to the size and keeps the invariant |
| Buckets.ClearSlot | src/clht_lb_res_no_next.c:331-334 | zeroing the key of an occupied slot removes exactly that slot's pair, lowers the size by one and keeps the invariant; the value left behind is not part of the contents |
| Buckets.SetLock | include/dht_res.h:71-77 | the lock word takes no part in the contents, the size or the invariant |
| Buckets.CountIsSize | src/clht_lb_res_no_next.c:500-522 | on a valid table the number of nonzero keys equals the number of stored pairs |
| Resize.PutSeq | src/clht_lb_res_no_next.c:344-361 | a bucket with no empty slot is left unchanged |
| Resize.PutSeqEffect | src/clht_lb_res_no_next.c:344-361 | `ht_put_seq` adds its pair and one to the size exactly when the bucket has an empty slot, and otherwise changes nothing although it returns true |
| Resize.CopySlots | src/clht_lb_res_no_next.c:364-383 | the slot copy of `bucket_cpy` keeps the number and shape of the destination buckets; what it adds is stated by `CopySlotsEntries` and `CopySlotsCount` |
| Resize.CopySlotsEntries | src/clht_lb_res_no_next.c:364-383 | `bucket_cpy` adds at most the pairs of the copied bucket, and exactly those when every put finds room |
| Resize.CopySlotsCount | src/clht_lb_res_no_next.c:364-383 | the size grows by at most the copied bucket's live slots, and by exactly that many if and only if every put finds room |
| Resize.Migrate | src/clht_lb_res_no_next.c:446-454 | the resizer's upward copy keeps the number and shape of the destination buckets; its contents and size are stated by `MigrateEntries`, `MigrateCount`, `MigrateInvariant` and `MigrateFree` |
| Resize.MigrateEntries | src/clht_lb_res_no_next.c:446-454 | the resizer's copy adds no pair that the copied buckets did not hold, and when no put overflows the result is exactly the union |
| Resize.MigrateCount | src/clht_lb_res_no_next.c:446-454 | after the copy, the size is the old size plus the copied live slots if and only if no put overflowed, and less otherwise; this is the comparison that the disabled DEBUG check would make |
| Resize.MigrateInvariant | src/clht_lb_res_no_next.c:446-454 | copying into an empty table keeps every pair in the bucket its key hashes to under the new mask, each key once |
| Resize.MigrateFree | src/clht_lb_res_no_next.c:446-454 | the copy leaves every lock word of the new table FREE |
| Resize.HelpStop | src/clht_lb_res_no_next.c:396-405 | the helper stops at `lo`. Every bucket from `lo` up to the top is not yet locked for resizing, and bucket `lo - 1`, if there is one, is |
| Resize.HelpStopUnique | src/clht_lb_res_no_next.c:396-405 | that stopping point is the only index with this property |
| Resize.MigrateDown | src/clht_lb_res_no_next.c:396-405 | the helper's downward copy keeps the number and shape of the destination buckets; its contents and size are stated by `MigrateDownEffect` and `MigrateDownCount` |
| Resize.MigrateDownEffect | src/clht_lb_res_no_next.c:396-405 | the helper's downward copy adds no pair that the copied buckets did not hold, and when no put overflows the result is exactly the union |
| Resize.MigrateDownCount | src/clht_lb_res_no_next.c:396-405 | after the helper's copy, the size is the old size plus the copied live slots if and only if no put overflowed, and less otherwise |
| Resize.EmptyBuckets | src/clht_lb_res_no_next.c:138-147 | a fresh table has `n` zeroed buckets |
| Resize.EmptyHasNothing | src/clht_lb_res_no_next.c:138-147 | a fresh table holds no pair, has no occupied slot or held lock, and satisfies the invariant |
| Resize.CoveringMaskFits | src/clht_lb_res_no_next.c:446-454 | copying a valid table into an empty one whose mask covers the old mask never overflows a bucket |
| Resize.GrowthFits | src/clht_lb_res_no_next.c:428-454 | growing a power-of-two table by a power-of-two factor, without wrap-around, keeps every pair and the size |
| Resize.GrowthFromEmpty | src/clht_lb_res_no_next.c:428-454 | the same, stated for a freshly created generation of the grown count |
| Resize.CountBound | include/dht_res.h:71-77 | a table of `n` buckets has at most `3n` occupied slots |
| Resize.ShrinkLoses | src/clht_lb_res_no_next.c:435-454 | when the new table has fewer slots than there are pairs to copy, some put overflows and the size drops: pairs are lost |
| Resize.ResizeValid | src/clht_lb_res_no_next.c:440-454 | a resize of a valid table into a fresh generation gives a valid generation with no lock held |
| Resize.ResizeKeeps | src/clht_lb_res_no_next.c:440-454 | a resize never invents pairs. It keeps all of them if and only if every copy found room, and it keeps the size if and only if every copy found room |
| Resize.FitsKeepsAll | src/clht_lb_res_no_next.c:440-454 | when every copy found room, the new generation holds exactly the old pairs |
| Operations.PutAttempt | src/clht_lb_res_no_next.c:257-296 | one pass reports the key present exactly when some slot of its bucket holds it, and the bucket full exactly when no slot holds the key or is empty; an insertion writes the last empty slot of the bucket and nothing else |
| Operations.PutAttemptEffect | src/clht_lb_res_no_next.c:257-296 | one pass of `ht_put` on a valid table inserts exactly when the key is nonzero, absent and its bucket has room. It then adds just that pair and one to the size, keeps the invariant and leaves every lock free. It reports the key as present when it is stored, and reports a full bucket only when the key is absent |
| Operations.RemoveAttempt | src/clht_lb_res_no_next.c:301-342 | only the key's bucket changes, and there only a key: the first slot holding the key has its key zeroed and its value, left in place, is returned; without such a slot the table is unchanged and 0 is returned |
| Operations.RemoveAttemptEffect | src/clht_lb_res_no_next.c:301-342 | `ht_remove` on a valid table returns the value of a stored nonzero key and removes exactly that pair. For an absent key it returns 0 and changes nothing, and key 0 never changes the contents. It keeps the invariant and leaves every lock free |
| HashTables.ExpandsThreshold | src/clht_lb_res_no_next.c:157-161 | the threshold is a tenth of the bucket count, rounded down, and at least 1 |
| HashTables.HashTable.constructor | src/clht_lb_res_no_next.c:110-166 | a fresh generation has `n` empty, free buckets, mask `n - 1`, version 0, no linked generations, and an offer of help open |
| HashTables.HashTable.Create | src/clht_lb_res_no_next.c:110-166 | `ht_create` returns NULL exactly for zero buckets, and otherwise an initial, empty generation |
| HashTables.HashTable.Get | src/clht_lb_res_no_next.c:183-211 | `ht_get` returns the value of the first slot of the key's bucket holding the key. On a valid table that is the value stored with a nonzero key, and 0 when the key is absent |
| HashTables.HashTable.Found | src/clht_lb_res_no_next.c:183-211 | the value of `Lookup` is the stored value of a present key and 0 for an absent one |
| HashTables.HashTable.BucketExists | src/clht_lb_res_no_next.c:213-225 | the result is true exactly when some slot of the bucket holds the key. For the bucket a nonzero key hashes to, that means the key is stored |
| HashTables.HashTable.Size | src/clht_lb_res_no_next.c:500-522 | `ht_size` counts the nonzero keys, which on a valid table is the number of stored pairs |
| HashTables.HashTable.LockAcquireResize | include/dht_res.h:186-201 | the bucket is acquired exactly when its lock was free, and its lock word ends in RESIZE |
| HashTables.HashTable.LockAcquireUpdate | include/dht_res.h:153-184 | the bucket is acquired exactly when its lock was free, and its word then becomes UPDATE with nothing else changed. A refusal leaves RESIZE and calls the helper: `is_helper` drops by one, and the first helper copies the buckets from the top down to the stop point into `table_tmp` and sets `helper_done` (`HelpResult`), while a later one changes nothing |
| HashTables.HashTable.LockRelease | include/dht_res.h:204-206 | only the lock word of that bucket changes, and it becomes 0 |
| HashTables.HashTable.ResizeHelp | src/clht_lb_res_no_next.c:386-408 | `is_helper` drops by one. Only the first caller copies, from the top bucket down to the stop point, then sets `helper_done`; later callers change nothing |
| HashTables.HashTable.CopyDown | src/clht_lb_res_no_next.c:396-405 | the loop stops at `HelpStop`. It locks exactly the buckets above that point and copies them top-down into `table_tmp` |
| HashTables.HashTable.CopyDownStep | src/clht_lb_res_no_next.c:398-404 | one step copies bucket `b` and extends the locked range exactly when `b` was not yet locked for resizing |
| HashTables.HashTable.TryPut | src/clht_lb_res_no_next.c:237-296 | a pass of `ht_put`, from the fast-fail check through lock, scan, write and release, does what `PutAttempt` says, ends with the locks as they began, and leaves `table_tmp` and the helper fields unchanged |
| HashTables.HashTable.ScanBucket | src/clht_lb_res_no_next.c:257-272 | the scan finds the key exactly when some slot holds it, and otherwise reports the last empty slot, or -1 |
| HashTables.HashTable.WriteSlot | src/clht_lb_res_no_next.c:281-289 | only slot `j` of bucket `bin` changes, to the new key and value |
| HashTables.HashTable.Remove | src/clht_lb_res_no_next.c:301-342 | the body of `ht_remove` on one generation does what `RemoveAttempt` says, ends with the locks as they began, and leaves `table_tmp` and the helper fields unchanged |
| HashTables.HashTable.FindKey | src/clht_lb_res_no_next.c:328-338 | the result is the first slot holding the key, or -1 |
| HashTables.HashTable.ClearKey | src/clht_lb_res_no_next.c:333-334 | only the key of that slot changes, to 0, and its value stays |
| HashTables.HashTable.CopyAll | src/clht_lb_res_no_next.c:446-454 | with no lock held beforehand, every bucket is copied in index order (`Migrate`) and left locked for resizing |
| HashTables.HashTable.Grow | src/clht_lb_res_no_next.c:440-454 | the new generation has `newN` buckets and is one version on. It is announced as `table_tmp`, holds the `Migrate` of every old bucket, is valid, and has no lock held |
| HashTables.HashTable.Successor | src/clht_lb_res_no_next.c:424-484 | a shrink withdraws the offer of help. The new generation is then built, the old one is linked behind it through `table_prev`, and `table_new` points to the new one |
| HashTables.HashTable.Link | src/clht_lb_res_no_next.c:481 | `table_prev` points to the old generation, and the recorded chain grows by it |
| HashTables.HashTable.ChainExtends | src/clht_lb_res_no_next.c:481 | linking a generation with a recorded chain behind another keeps the chain record exact |
| HashTables.HashTable.PutSeq | src/clht_lb_res_no_next.c:344-361 | the array update is `Resize.PutSeq`, and the result is always true |
| HashTables.HashTable.BucketCopy | src/clht_lb_res_no_next.c:364-383 | the bucket is copied exactly when its lock was free. It ends locked for resizing, and the destination becomes `CopySlots` of it |
| HashTables.ReleaseRestores | src/clht_lb_res_no_next.c:262-280 | acquiring a free bucket for an update and releasing it without a write leaves the table as it was |
| HashTables.ReleaseAfterWrite | src/clht_lb_res_no_next.c:281-291 | acquire, write and release amount to the write on the free bucket |
| HashTables.ReleaseAfterClear | src/clht_lb_res_no_next.c:331-336 | acquire, clear and release amount to the clear on the free bucket |
| HashTables.SizeMem | src/clht_lb_res_no_next.c:587-598 | the result is 0 exactly for NULL, and otherwise at least a pointer plus the bucket array |
| HashTables.ChainMemPrepend | src/clht_lb_res_no_next.c:600-617 | a generation at the head of a list adds its own bytes |
| HashTables.SizeMemGarbage | src/clht_lb_res_no_next.c:600-617 | the result is the bytes of every older generation on the `table_prev` chain, or 0 for NULL |
| Clht.NewCount | src/clht_lb_res_no_next.c:424-440 | the requested count fits the `uint32_t` parameter of `ht_create`, and a shrink never asks for more buckets |
| Clht.Wrapper.Init | src/clht_lb_res_no_next.c:84-107 | the handle holds the generation and the resize lock is free |
| Clht.Wrapper.Create | src/clht_lb_res_no_next.c:84-107 | `clht_wrapper_create` returns NULL exactly for zero buckets, and otherwise a valid handle on an initial, empty generation whose object and bucket array are freshly allocated, so the caller may go on to put into it |
| Clht.Wrapper.Put | src/clht_lb_res_no_next.c:228-297 | true means the key was nonzero and absent, and exactly its pair is added. False means the key was present or 0, and nothing changes; a present nonzero key always gives false. `None` happens only when the grown count wraps to 0 while the key's bucket in the final generation is still full, and then the key was absent and nothing changed. When the key's bucket is not full, the put completes in the current generation and never gives `None`. When it is full and the result is not `None`, the table has moved to a new generation with strictly more buckets. The table stays valid, a power of two and free; the bucket count never shrinks; the generation and its array are the old ones or freshly allocated |
| Clht.Wrapper.Attempt | src/clht_lb_res_no_next.c:233-289 | one pass of `ht_put` over the current generation is `PutAttempt`: an insertion adds exactly the absent pair, and otherwise the table is unchanged; a present nonzero key always gives `Present`, and `Full` only for an absent key |
| Clht.CreateAndPut | src/clht_lb_res_no_next.c:228-297 | a put of a nonzero key into a handle just created on a power-of-two count returns true, and the table then holds exactly that pair |
| Clht.PutTwice | src/clht_lb_res_no_next.c:257-266 | a second put of a key already stored returns false |
| Clht.CollisionFull | src/clht_lb_res_no_next.c:257-276 | three distinct stored nonzero keys (the table may hold others) that share the bin of a fourth key fill its bucket, so a put of the fourth key finds no empty slot |
| Clht.ApartWhenWide | src/clht_lb_res_no_next.c:170-179 | with a power-of-two count above all four keys, each key is its own bin, so the fourth key's bucket has room |
| Clht.NoWrapForLowKeys | src/clht_lb_res_no_next.c:424-441 | growth by 2 wraps the count to 0 only from 2^31 buckets, and there keys below 2^31 never find their bucket full |
| Clht.EightBucketsCollide | src/clht_lb_res_no_next.c:170-179 | 8 is a power of two, and keys 8, 16, 24 and 32 all hash to bucket 0 of an eight-bucket table |
| Clht.CollidingPut | src/clht_lb_res_no_next.c:228-297 | with three keys stored in the bucket a fourth nonzero key hashes to (all below 2^31), putting the fourth key finds the bucket full, grows the table, and then stores exactly that pair and returns true; the bucket count strictly grows |
| Operations.FullBucketStored | src/clht_lb_res_no_next.c:257-276 | when a put pass reports `Full`, every slot of the key's bucket holds a stored pair whose key is nonzero, differs from the key and hashes to the same bin |
| Clht.Wrapper.Expand | src/clht_lb_res_no_next.c:274-280 | the resize that a full bucket triggers gives strictly more buckets, still a power of two, and keeps every pair |
| Clht.Wrapper.Remove | src/clht_lb_res_no_next.c:301-342 | the stored value of a present nonzero key is returned and exactly that pair removed. An absent key returns 0, and key 0 changes nothing |
| Clht.Wrapper.ResizePes | src/clht_lb_res_no_next.c:410-498 | with the resize lock taken, the result is 0 and nothing changes. Otherwise the result is 1. A new valid generation of `NewCount` buckets, one version on, holds the `Migrate` of every old bucket and is published. The old generation is left behind it in the `table_prev` chain, with every bucket locked for resizing and `table_tmp`/`table_new` pointing to the new one |

## Left out

- Concurrency: CAS, fetch-and-decrement, memory fences, volatile reads and the interleaving of threads. Each call is one sequential step.
- Spinning. A lock acquire on a bucket held in UPDATE would spin forever with one thread. The preconditions exclude it (`Spins`).
- The retry loops of `LOCK_ACQ` in `ht_put` and `ht_remove` (src/clht_lb_res_no_next.c:245-252 and 316-323). Between operations every lock of the current generation is FREE, so the first acquire always succeeds.
- The wait of `ht_resize_pes` for the helper (src/clht_lb_res_no_next.c:456-462). No helper can have started during a sequential resize, so the resizer never waits. `ResizeHelp` is modelled on its own, as the sequential walk a helper performs.
- `ht_status` and `CLHT_CHECK_STATUS`, the resize-policy decision. The growth factor is the parameter `factor` of `Put`, `Expand` and `ResizePes`. `Put` uses the same `factor` for every retry. The source's `ht_status` instead recomputes it on each call as `pow2roundup(full_ratio / 20)`, raised to 2 when it is 1 (src/clht_lb_res_no_next.c:562-569). That gives 2, 4 or 8 depending on how full the table is.
- Clht.Wrapper.Put: the caller must keep the bucket count a power of two (`Put` and `Expand` require `IsPowerOfTwo(ht.numBuckets)`), although `clht_wrapper_create` and `ht_create` accept any nonzero count. For other counts the model says nothing about `ht_put`: a resize triggered by a full bucket can then send keys of two old buckets to one new bucket and drop pairs (for 3 buckets grown by 2, keys 1, 9, 17 of bucket 0 and 3, 11, 19 of bucket 2 all land in new bucket 1).
- Clht.Wrapper.Put: the unused `resize` flag at src/clht_lb_res_no_next.c:274 and 292-295 is always 0, so its `ht_status` call is never made and is left out.
- Clht.Wrapper.Put: when the grown bucket count wraps to 0, `ht_create(0)` returns NULL and `ht_resize_pes` dereferences it. The model returns `None` there with the contents unchanged, and `ResizePes` requires a nonzero count.
- Clht.Wrapper.ResizePes: a shrink of a table with fewer than 8 buckets asks `ht_create` for `num_buckets / 8 == 0` buckets. `ht_create(0)` returns NULL, which `ht_resize_pes` then dereferences (src/clht_lb_res_no_next.c:430-441). `ResizePes` requires a nonzero new count, so that case is excluded rather than modelled.
- Garbage collection: `CLHT_GC_HT_VERSION_USED`, `ht_gc_collect`, `ht_gc_release` and the version list. Old generations stay reachable through `table_prev`.
- `printf`, `perror`, `getticks` and the timing of a resize.
- Allocation failure of the two `memalign` calls in `ht_create` (src/clht_lb_res_no_next.c:121 and 129). Creation fails only for zero buckets.
- `create_bucket`, the Jenkins hash and the `next` pointer of `bucket_t`. This variant never follows or allocates overflow buckets.
- The 32-bit loop counters `int32_t b` and `uint32_t j`, and the `size_t` width of the bucket count. Counts are natural numbers below 2^32.
- HashTables.HashTable.Get: the source reads the value, compares the key, and then re-reads the value (src/clht_lb_res_no_next.c:193-199). The re-read of the value after the key matches guards only against concurrent writers, and has no effect with one thread.
- Clht.Wrapper.ResizePes: the model sets `table_new` before the new generation is published, whereas the source sets it just after the swap at src/clht_lb_res_no_next.c:483-484. With one thread the two orders are indistinguishable.
- HashTables.ExpandsThreshold: the source multiplies by the `double` 0.1 (include/dht_res.h:16) and truncates. The model uses `n / 10`, which is the same for every 32-bit count, because the `double` nearest 0.1 is slightly above 0.1 and a product that is exactly an integer rounds to that integer.
- The header `include/dht_res.h` names its constants `HYHT_*`, while src/clht_lb_res_no_next.c uses `CLHT_*`. The values used are those of the header: 3 entries per bucket and a halving ratio of 8.
- The build without `CLHT_HELP_RESIZE`, whose copy loop does not stop at a refused bucket (src/clht_lb_res_no_next.c:466-471). From a table with every lock free no copy is refused, so the two loops agree.
- The size check of the DEBUG build (src/clht_lb_res_no_next.c:474-479) is commented out in the source. `MigrateCount` states the comparison it would make.
