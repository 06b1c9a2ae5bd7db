# Verified models of bucket_map, bloom, bench-tps funding, publish ordering and token amounts

A Dafny 4.11 project. `dafny verify dfyconfig.toml` checks all of it.

**The disk-backed map (`bucket_map`).** A `BucketMap` routes each key by its leading bits to one of a
power of two of buckets. A `Bucket` is an open-addressed index that is probed over a bounded
window, plus a list of data storages; storage `d` has cells for lists of up to `2^d` slots. An
index entry packs the offset of its data cell and the storage's capacity at that time, and is
re-interpreted by a shift after every resize. Growth is computed under a read lock, parked, and
applied at the next write lock. The model keeps these parts as objects that are updated in place
(`BucketStorage`, `Reallocated`, `Bucket`, `BucketApi`, `BucketMap`) and shows that they behave as
a plain map from keys to slot lists and reference counts, over every run and for every hash
function and every random choice.

The proof has two layers. The lower one is about values: `Table` (a storage), `State` (a bucket),
the invariant `StateOk`, the plain map `Stored` that a state stands for and the number `Leaks` of
occupied data cells that no key owns; every kind of update has a lemma in `BucketSteps` that says
it keeps the invariant and what it does to `Stored` and `Leaks`. The upper one is the code with its
loops and mutations: each method proves that the objects now show the value that such a lemma
speaks about.

| file | content |
|---|---|
| `Option`, `Arithmetic`, `Storage`, `Layout` | optional values; powers of two and shifts; tables, resizing, storages in place; byte ranges |
| `IndexEntry`, `IndexOps` | packed entries, the meaning of an index; probing, creating keys, re-indexing |
| `BucketState`, `BucketSteps` | the bucket invariant on values and the steps that keep it |
| `Bucket`, `BucketApi`, `BucketMap`, `BucketRuns` | the objects, the lock discipline, routing, whole runs |
| `KeyBytes` | keys as bytes: the bits that choose a bucket, the keys that a range selects |
| `Bits`, `BitVector`, `Bloom`, `BloomRuns` | 64-bit words, packed bit vectors, both Bloom filters, interleavings of atomic steps |
| `Funding` | the tree along which benchmark accounts are funded |
| `PublishOrder` | the order in which crates are published |
| `TokenAmount` | printing token amounts |

**Two facts about the code that the model makes precise.** Overwriting a one-slot list by an empty
one takes the in-place path and leaves its data cell occupied for good. The accounting law is
therefore stated with the exact number of such overwrites (`BucketRuns.RunBucket`,
`BucketSteps.OccupiedCells`). And an insert whose write fails for lack of data space has already
set the key's reference count; `Buckets.Bucket.TryWrite` says exactly what a failed write leaves
behind.

**When an insert gives up.** Re-indexing picks one random number per capacity, so an index can fail
to grow although it is far from the largest capacity (`BucketSteps.CannotGrow` is such an index),
and where all keys collide an insert grows its bucket to the limit in vain
(`BucketRuns.ThirdInsertFails`). The contracts therefore say in which states an operation may give
up (`Stuck`): the list has to be moved to a data storage that has a full window and is at the largest
capacity, or the key is new, its own window in the index is full, and for every larger capacity there
is a random number under which some of the keys fill the window of another. They also say when it
never gives up: if the list fits in place, or there is a free cell in the key's window and room for
the list or a larger storage for it (`Easy`), however many keys there are; and whatever the hashes
are, with few keys (`Calm` for one operation, `Small` for a run: with the default `max_search` of 32,
no more than 32 keys and leaked cells per bucket). And they say when it always gives up: without a
free cell in the key's window of an index at the largest capacity (`Doomed`).

**Parameters.** The hash that gives a key its uid, the index hash and `max_search` are an
arbitrary `Env`; uids may collide. Random numbers are arbitrary choices. An update function is
called once per update; whatever it has captured, what it does in that call is a function of the
current value. The hash of the Bloom filters is an arbitrary function. A key is a pair of numbers,
its first eight bytes and the rest; `BucketMaps.FromBytes` and `BucketMaps.BytesOrder` tie that to
the 32 bytes.

## Model

| member | source | states |
|---|---|---|
| `Arithmetic.CeilLog2Bounds` | bucket_map/src/index_entry.rs:60-62 | the data storage chosen for n slots is the least whose cells hold n |
| `Storage.Vacant` | bucket_map/src/bucket_storage.rs:99-119 | a new storage has no occupied cell |
| `Storage.ResizedKeeps` | bucket_map/src/bucket_storage.rs:324-346 | old cell i is found, header and contents, at i times the growth factor, which is in range |
| `Storage.ResizedOrigin` | bucket_map/src/bucket_storage.rs:324-346 | every occupied cell of a resized table is the image of an occupied old cell; all others are free |
| `Storage.ResizedUsed` | bucket_map/src/bucket_storage.rs:349-378 | a resize keeps the number of occupied cells, so the shared counter stays right |
| `Storage.GrownKeeps` | bucket_map/src/index_entry.rs:82-84 | offset stability: after any chain of resizes the original cell lies at its offset shifted by the capacity difference, in range, with header and contents |
| `Storage.GrownOrigin` | bucket_map/src/bucket_storage.rs:324-346 | after any chain of resizes every occupied cell is the shifted image of an originally occupied one |
| `Storage.BucketStorage.constructor` | bucket_map/src/bucket_storage.rs:99-119 | a new storage of the requested capacity is vacant |
| `Storage.BucketStorage.Uid` | bucket_map/src/bucket_storage.rs:165-168 | no uid exactly when the cell is free |
| `Storage.BucketStorage.Allocate` | bucket_map/src/bucket_storage.rs:184-201 | succeeds exactly on a free cell; takes that one cell, counts it unless resizing, else changes nothing |
| `Storage.BucketStorage.Free` | bucket_map/src/bucket_storage.rs:203-208 | frees the one cell held under the given uid and counts down; the uid assertion is the precondition |
| `Storage.BucketStorage.CopyContents` | bucket_map/src/bucket_storage.rs:324-346 | the copy loop turns a vacant storage into the resized image of the old one |
| `Storage.NewResized` | bucket_map/src/bucket_storage.rs:349-378 | a vacant storage, or the resized image of the old one sharing its counter |
| `Storage.Overlay` | bucket_map/src/bucket.rs:264-271 | copying slots into a cell makes them its front; longer old contents stay behind them |
| `Layout.CellsDisjoint` | bucket_map/src/bucket_storage.rs:145-163 | the byte ranges of distinct cells are disjoint |
| `Layout.CellInMapping` | bucket_map/src/bucket_storage.rs:230-241 | every cell lies inside the mapping |
| `Layout.SliceInCell` | bucket_map/src/bucket_storage.rs:230-267 | a slice stays in its cell if and only if it is no longer than the cell has room for |
| `Layout.SlotsFit` | bucket_map/src/index_entry.rs:60-66 | n slots in the storage for n lie in the mapping, clear of their own header and of every byte of every other cell |
| `Layout.CopyLandsOnCell` | bucket_map/src/bucket_storage.rs:324-346 | the byte offset the copy computes is the cell with the multiplied index, inside the new mapping |
| `Layout.CellsTile` | bucket_map/src/bucket_storage.rs:99-119 | a cell is its eight-byte header and then room for exactly its elements, and the cells follow one another from the first byte on |
| `IndexEntries.KeyUid` | bucket_map/src/index_entry.rs:102-106 | a uid is never the uid of a free cell |
| `IndexEntries.IndexStart` | bucket_map/src/bucket.rs:429-440 | probing starts inside the index |
| `IndexEntries.IndexEntry.SetOffset` | bucket_map/src/index_entry.rs:54-58 | the offset reads back, the capacity packed beside it and every other field stay, and the packed field fits in 64 bits |
| `IndexEntries.IndexEntry.SetCreatedPow2` | bucket_map/src/index_entry.rs:46-52 | the capacity reads back, the offset packed beside it and every other field stay |
| `IndexEntries.DataLocScales` | bucket_map/src/index_entry.rs:82-84 | a resize moves an entry's location by the factor by which it moves the cells |
| `IndexEntries.EntriesSize` | bucket_map/src/bucket_api.rs:74-76 | an index with unique keys has as many keys as occupied cells |
| `IndexEntries.FullWindow` | bucket_map/src/bucket.rs:187-209 | pigeonhole: a full probe window of a table, index or data, means at least min(max_search, capacity) occupied cells |
| `IndexEntries.FullOfKeys` | bucket_map/src/bucket.rs:187-209 | a full window of an index holds min(max_search, capacity) distinct keys |
| `IndexEntries.FirstFreeOnce` | bucket_map/src/bucket.rs:187-209 | the first free cell of a window is unique, and there is none in a full window |
| `IndexEntries.OneWindow` | bucket_map/src/bucket.rs:429-440 | keys that all hash to one place: no index, however large, holds more than max_search of them |
| `IndexEntries.CrampedMany` | bucket_map/src/bucket.rs:320-366 | re-indexing can fail at all larger capacities only with more keys than a probe of the largest index visits cells |
| `IndexEntries.ExactlyDoubles` | bucket_map/src/bucket.rs:320-366 | with no more keys than a probe of the doubled index visits cells, re-indexing ends at twice the capacity |
| `IndexOps.FindEntry` | bucket_map/src/bucket.rs:149-185 | finds a cell if and only if the key is stored, whatever holes deletions left, and then the key's entry |
| `IndexOps.CreateKey` | bucket_map/src/bucket.rs:187-209 | takes the first free cell of the key's window for a fresh entry, or changes nothing because the whole window is occupied |
| `IndexOps.IndexAdd` | bucket_map/src/bucket.rs:187-209 | a new key keeps the index well-formed and adds exactly one entry |
| `IndexOps.IndexRemove` | bucket_map/src/bucket.rs:304-318 | freeing a key's cell keeps the index well-formed and removes exactly that entry |
| `IndexOps.Reindex` | bucket_map/src/bucket.rs:331-366 | equals copying the occupied cells in order, each to the first free cell of its key's window in a new index, and fails exactly where that meets a key without a free cell; a finished re-indexing holds exactly the old entries under their uids, each once and in its window for the new random, with the counter unchanged |
| `IndexOps.SearchIndex` | bucket_map/src/bucket.rs:320-366 | the retry loop ends; it returns the first capacity, from the next one upwards, at which re-indexing succeeds: at every capacity passed over some random lets some of the keys fill the window of another; the index returned is the re-indexed one, with the same map of entries; or none, and then that is so for every larger capacity |
| `BucketState.Overwrite` | bucket_map/src/bucket.rs:264-271 | overwriting in place keeps the ownership invariant, changes one key's list, and leaks a cell of storage 0 exactly when the new list is empty |
| `BucketState.Move` | bucket_map/src/bucket.rs:273-300 | moving a list to a free cell frees the old one, keeps the ownership invariant and changes one key's list |
| `BucketState.Grow` | bucket_map/src/bucket.rs:393-410 | replacing a data table by its resized image keeps ownership, every stored value and the number of leaked cells |
| `BucketState.Accounting` | bucket_map/src/bucket.rs:264-297 | occupied cells of a data table are as many as the entries whose lists belong there, plus the leaked ones in table 0 |
| `BucketSteps.EntryFacts` | bucket_map/src/index_entry.rs:86-100 | every indexed entry is backed by an in-range cell with its key's uid and reads the stored value, so the uid assertions cannot fire |
| `BucketSteps.Ownership` | bucket_map/src/bucket.rs:259-317 | no two entries own the same data cell, even when uids collide |
| `BucketSteps.Initial` | bucket_map/src/bucket.rs:80-103 | an empty bucket satisfies the invariant and stands for the empty map |
| `BucketSteps.CreateStep` | bucket_map/src/bucket.rs:223-231 | taking a free cell in its window adds the key with an empty list and count 0 |
| `BucketSteps.NoRoom` | bucket_map/src/bucket.rs:187-209 | a full window means that min(max_search, capacity) distinct stored keys lie in this key's window |
| `BucketSteps.CountStep` | bucket_map/src/bucket.rs:211-221 | a new reference count changes nothing but that key's count |
| `BucketSteps.OverwriteStep` | bucket_map/src/bucket.rs:264-271 | the in-place write as a step of the whole bucket, with the leak it causes |
| `BucketSteps.MoveStep` | bucket_map/src/bucket.rs:273-300 | the relocating write as a step of the whole bucket; it leaks nothing |
| `BucketSteps.DeleteStep` | bucket_map/src/bucket.rs:304-318 | a delete removes exactly its key and leaks nothing |
| `BucketSteps.ReindexStep` | bucket_map/src/bucket.rs:384-387 | swapping in any index that spells the same entries changes nothing that is stored |
| `BucketSteps.ResizeStep` | bucket_map/src/bucket.rs:393-410 | swapping in a resized data table changes nothing that is stored |
| `BucketSteps.ResizedRoomy` | bucket_map/src/bucket_storage.rs:324-346 | a table that has at least doubled has a free cell in every window of two |
| `BucketSteps.OccupiedCells` | bucket_map/src/bucket.rs:264-297 | the accounting law in terms of the stored map, for the index and for every data table |
| `BucketSteps.CrowdedTable` | bucket_map/src/bucket.rs:273-300 | a full window in the data table a list is to be moved to takes as many other keys and leaked cells as a probe of the smallest table visits |
| `BucketSteps.OffsetFits` | bucket_map/src/index_entry.rs:54-58 | up to the largest capacity every position fits in the seven bytes of an entry, so the assertion on them cannot fire |
| `BucketSteps.NoThirdKey` | bucket_map/src/bucket.rs:474-486 | where all keys collide and probes visit two cells no bucket stores three keys, whatever the capacity of its index |
| `BucketSteps.CannotGrow` | bucket_map/src/bucket.rs:320-366 | an index of the smallest capacity for whose three keys there is no index of any capacity under any other random |
| `Buckets.FindFree` | bucket_map/src/bucket.rs:273-282 | the first free cell of the window, or none because the window is full |
| `Buckets.FewKeysRoom` | bucket_map/src/bucket.rs:187-209 | with fewer keys than a probe visits cells every key has room in the index |
| `Buckets.NextDoubles` | bucket_map/src/bucket.rs:414-427 | a full data storage doubles; a missing one gets 32 cells |
| `Buckets.Bucket.constructor` | bucket_map/src/bucket.rs:80-103 | a new bucket is valid, empty and has nothing parked |
| `Buckets.Reallocated.AddReallocation` | bucket_map/src/bucket.rs:46-53 | counts a resize if and only if none is pending |
| `Buckets.Bucket.CountersTell` | bucket_map/src/bucket_api.rs:74-76 | the index counter is the number of stored keys; a data counter is the number of lists kept there plus, in storage 0, the leaked cells |
| `Buckets.Bucket.ReadValue` | bucket_map/src/bucket.rs:233-237 | exactly the stored value, or nothing if the key is not stored |
| `Buckets.Bucket.TryWrite` | bucket_map/src/bucket.rs:239-302 | success stores the value; an index error if and only if the data storage exists and a new key finds its window full, and then min(max_search, capacity) distinct stored keys lie in that window; an index error or a missing storage changes nothing; a full data window changes only this key's count; a list that fits in place is never refused; each error names the present capacity; with few keys and leaked cells only a storage can be missing |
| `Buckets.Bucket.DeleteKey` | bucket_map/src/bucket.rs:304-318 | removes exactly the key, and every counter stays right |
| `Buckets.Bucket.AddRef` | bucket_map/src/bucket.rs:211-215 | adds one to a stored key's count modulo 2^64 and returns the count that is then stored; else nothing |
| `Buckets.Bucket.UnRef` | bucket_map/src/bucket.rs:217-221 | takes one from a stored key's count modulo 2^64 and returns the count that is then stored; else nothing |
| `Buckets.Bucket.GrowIndex` | bucket_map/src/bucket.rs:320-382 | parks an equivalent index of the first larger capacity at which re-indexing succeeds, or does nothing if the error is out of date; is exhausted only if re-indexing can fail at every larger capacity; else panics if and only if something else is pending |
| `Buckets.Bucket.GrowData` | bucket_map/src/bucket.rs:414-427 | parks a resized image or a vacant storage of exactly the next capacity, with a free cell in every window; is exhausted if and only if that capacity is too large; else panics if and only if the capacity would shrink or something else is pending |
| `Buckets.Bucket.Grow` | bucket_map/src/bucket.rs:444-455 | under the read lock only the parking place changes, and the counter is 1 exactly when one item is parked; unless there is no larger capacity it panics if and only if it is not safe, and then changes nothing |
| `Buckets.Bucket.ApplyGrowIndex` | bucket_map/src/bucket.rs:384-387 | applying a parked index leaves the stored map and the counter as they were |
| `Buckets.Bucket.ApplyGrowData` | bucket_map/src/bucket.rs:393-410 | replaces one storage or pads with vacant ones up to it; the stored map stays |
| `Buckets.Bucket.HandleDelayedGrows` | bucket_map/src/bucket.rs:458-472 | what is parked is applied and is not stale: the stored map stays and nothing is parked any more |
| `Buckets.Bucket.Applied` | bucket_map/src/bucket.rs:458-472 | applying what is parked gives every storage the capacity, and the free cells, that it was to have, and the index its cells and random |
| `Buckets.Bucket.InsertRound` | bucket_map/src/bucket.rs:474-486 | one round stores the value or performs exactly the growth the error asks for; it fails only if the bucket is stuck, for a list that cannot be put in its storage or for a new key whose window is full; a list that fits in place is stored at once |
| `Buckets.Bucket.Insert` | bucket_map/src/bucket.rs:474-486 | the loop ends with the value stored, or only because the list has to be moved to a data storage with a full window at the largest capacity, or because the window of a new key is full and re-indexing can fail at every larger capacity; for an index of any load: no growth for a list that fits in place, or with a free cell in the key's window and in every window of the data storage, at most one growth if that storage can grow, and never success without a free cell in the window of an index at the largest capacity; at most one growth with few keys and leaked cells |
| `Buckets.Bucket.Update` | bucket_map/src/bucket.rs:488-500 | stores what the function makes of the current value, or deletes the key; fails, succeeds surely and fails surely under the conditions under which an insert does |
| `Buckets.Bucket.ItemsInRange` | bucket_map/src/bucket.rs:117-139 | each stored key in the range exactly once, with its list and count, and nothing else, in the order of the index cells |
| `BucketApis.BucketApi.constructor` | bucket_map/src/bucket_api.rs:29-42 | a bucket that does not exist yet stands for the empty map |
| `BucketApis.BucketApi.GetWriteBucket` | bucket_map/src/bucket_api.rs:85-99 | every writer enters with a bucket in which nothing is parked; contents and leaks are unchanged, every storage has the capacity it was to have, and every key has room in the index exactly if it was to have |
| `BucketApis.BucketApi.ReadValue` | bucket_map/src/bucket_api.rs:66-72 | reads the stored value whether or not something is parked |
| `BucketApis.BucketApi.BucketLen` | bucket_map/src/bucket_api.rs:74-76 | the number of stored keys |
| `BucketApis.BucketApi.ItemsInRange` | bucket_map/src/bucket_api.rs:44-54 | the items in the range in the order of the index cells, none if the bucket does not exist |
| `BucketApis.BucketApi.DeleteKey` | bucket_map/src/bucket_api.rs:78-83 | removes exactly the key |
| `BucketApis.BucketApi.AddRef` | bucket_map/src/bucket_api.rs:101-105 | the count of a stored key goes up by one and is returned |
| `BucketApis.BucketApi.UnRef` | bucket_map/src/bucket_api.rs:107-111 | the count of a stored key goes down by one and is returned |
| `BucketApis.BucketApi.TryWrite` | bucket_map/src/bucket_api.rs:134-141 | the outcome tells what happened to the contents; an index error if and only if the data storage exists and a new key finds its window full in the index that there is once what is parked is applied; a data error means that the storage is missing or has a full window and the list does not fit in place; every error names the present capacity and is safe to grow for; with few keys and leaked cells only a storage can be missing |
| `BucketApis.BucketApi.Insert` | bucket_map/src/bucket_api.rs:113-116 | stores the value; fails only if the bucket is stuck, and then at most the count of this key has changed; succeeds if there is room, or with few keys and leaked cells; fails without room in an index at the largest capacity |
| `BucketApis.BucketApi.Update` | bucket_map/src/bucket_api.rs:126-132 | stores or deletes as the function says; fails only if the bucket is stuck; succeeds if there is room, or with few keys and leaked cells; fails without room in an index at the largest capacity |
| `BucketApis.BucketApi.Grow` | bucket_map/src/bucket_api.rs:118-124 | a read-locked grow touches nothing but the parking place; contents and leaks are unchanged; it gives a data storage the next capacity with a free cell in every window, an index the first larger capacity at which re-indexing succeeds, or is exhausted for the stated reason, or panics, if and only if it is not safe and not exhausted |
| `BucketMaps.BytesOrder` | bucket_map/src/bucket_map.rs:179-182 | distinct byte strings are distinct keys and the key order is the byte order |
| `BucketMaps.Log2Correct` | bucket_map/src/bucket_map.rs:94-104 | the exponent computed for a power-of-two number of buckets is exact |
| `BucketMaps.BucketIxInRange` | bucket_map/src/bucket_map.rs:154-161 | every key has a bucket |
| `BucketMaps.BucketIxMonotone` | bucket_map/src/bucket_map.rs:154-161 | routing is monotone, so each bucket holds one contiguous range of keys |
| `BucketMaps.MergedAt` | bucket_map/src/bucket_map.rs:145-151 | the union of the buckets has for every key what its own bucket has |
| `BucketMaps.PartIs` | bucket_map/src/bucket_map.rs:145-151 | a bucket holds exactly the keys of the map that are routed to it |
| `KeyBytes.RoutedByLeadingBits` | bucket_map/src/bucket_map.rs:154-161 | with 2^p buckets, the bucket of a key is the number that the first p bits of its bytes spell out |
| `KeyBytes.RoutedByRange` | bucket_map/src/bucket_map.rs:154-161 | the keys of bucket ix are those whose first eight bytes, as a number, lie in the ix-th of 2^p equal parts |
| `KeyBytes.EveryBucketReached` | bucket_map/src/bucket_map.rs:154-161 | every bucket is the bucket of some 32 bytes |
| `KeyBytes.BytesOf` | bucket_map/src/bucket_map.rs:179-182 | every pair of a 64-bit and a 192-bit number is the key of some 32 bytes |
| `KeyBytes.SameUid` | bucket_map/src/index_entry.rs:102-106 | two keys share a uid exactly if their hashes are the same, 0 and 1 taken for one |
| `KeyBytes.StartsAtHash` | bucket_map/src/bucket.rs:429-440 | the start of a probe is the hash of the uid and the random, less a multiple of the capacity |
| `KeyBytes.StartDoubles` | bucket_map/src/bucket.rs:429-440 | at twice the capacity, under the same random, a probe starts at the same cell or one old capacity further |
| `KeyBytes.SelectsInclusive` | bucket_map/src/bucket.rs:117-139 | an inclusive range selects exactly the keys between its ends in byte order |
| `KeyBytes.SelectsEnds` | bucket_map/src/bucket.rs:117-139 | both ends of an inclusive range are in it |
| `KeyBytes.SelectsUnbounded` | bucket_map/src/bucket.rs:117-139 | an unbounded side, or no range at all, leaves no key out |
| `KeyBytes.SelectsExcluded` | bucket_map/src/bucket.rs:117-139 | an excluded bound leaves out that one key of the keys that an included one selects |
| `KeyBytes.SelectsBothSides` | bucket_map/src/bucket.rs:117-139 | a range selects what its two sides have in common |
| `KeyBytes.SelectsSplit` | bucket_map/src/bucket.rs:117-139 | a key between the ends splits an inclusive range into the part below it and the part from it on |
| `KeyBytes.ListsInclusive` | bucket_map/src/bucket.rs:117-139 | a listing of an inclusive range has exactly the stored keys between its ends in byte order, each once, with its list and count |
| `BucketMaps.BucketMap.constructor` | bucket_map/src/bucket_map.rs:59-104 | a new map is empty, with a power of two of buckets and nothing leaked |
| `BucketMaps.BucketMap.ReadValue` | bucket_map/src/bucket_map.rs:118-120 | reads the plain map |
| `BucketMaps.BucketMap.DeleteKey` | bucket_map/src/bucket_map.rs:123-125 | removes the key from the plain map |
| `BucketMaps.BucketMap.Insert` | bucket_map/src/bucket_map.rs:128-130 | stores the value in the plain map; fails only if the key's bucket is stuck, and then at most the count of this key has changed; succeeds if there is room in that bucket, or with few keys and leaked cells in it |
| `BucketMaps.BucketMap.TryInsert` | bucket_map/src/bucket_map.rs:133-135 | the outcome tells what happened to the plain map; an index error if and only if the data storage exists and a new key finds its window full; an error names what is missing and is safe to grow for |
| `BucketMaps.BucketMap.Update` | bucket_map/src/bucket_map.rs:138-143 | applies the function to the plain map; fails only if the key's bucket is stuck; succeeds if there is room in that bucket, or with few keys and leaked cells in it |
| `BucketMaps.BucketMap.AddRef` | bucket_map/src/bucket_map.rs:164-168 | the count in the plain map goes up by one and is returned |
| `BucketMaps.BucketMap.UnRef` | bucket_map/src/bucket_map.rs:171-175 | the count in the plain map goes down by one and is returned |
| `BucketMaps.BucketMap.AllItems` | bucket_map/src/bucket_map.rs:402-414 | going through all buckets lists each stored key in the range exactly once, one bucket after another |
| `BucketRuns.RunMap` | bucket_map/src/bucket_map.rs:365-521 | any run of operations, attempts and read-locked grows: contents and every reply are those of a plain map, each bucket has leaked as many cells as operations on it leak, after a refused write the bucket is as the error says, after a grow the storage is to have a larger capacity; a grow for the error of the last write to its bucket, with only reads of that bucket in between, never panics; a run that ends early ends at an operation whose bucket is stuck or at some other grow that panics, and one that is small for every bucket ends early at such a grow only |
| `BucketRuns.RunBucket` | bucket_map/src/bucket_api.rs:78-141 | the same of one bucket: contents, replies and leaked cells of every run, what refused writes and grows leave behind, that a grow which is due never panics, the reason for which a run may end early, and that a small run ends early only at a grow that is not due |
| `BucketRuns.StoreValue` | runtime/src/in_mem_accounts_index.rs:1022-1040 | the loop that attempts a write and grows the bucket after each error: no grow panics, the loop ends, it fails only if the bucket is stuck; if the list fits in place, or the key's window has a free cell and the data storage has room or can grow, the second attempt succeeds at the latest, for every random start and an index of any load; without a free cell in the window of an index at the largest capacity it fails |
| `BucketRuns.StoreRound` | bucket_map/src/bucket_map.rs:202-226 | one attempt and the read-locked growth for its error: progress, a data storage in which the next attempt finds a free cell, and failure only of a bucket that is stuck |
| `BucketRuns.BucketStep` | bucket_map/src/bucket_api.rs:66-141 | each operation does to the contents, replies and leaks what it does to a plain map, or gives up for the stated reason, never if there is room or with few keys and leaked cells; a read keeps a pending error safe to grow for |
| `BucketRuns.MapStep` | bucket_map/src/bucket_map.rs:118-175 | the same of the map: an operation is that of the bucket its key is routed to, and what is due at the other buckets stays safe to grow for |
| `BucketRuns.SmallIsCalm` | bucket_map/src/bucket_map.rs:365-521 | in a run whose keys and possible leaks are no more than a probe of the smallest table visits, no operation meets a full window |
| `BucketRuns.ThirdInsertFails` | bucket_map/src/bucket.rs:474-486 | where all keys collide and probes visit two cells an insert of a third key always fails, with a storage at the largest capacity |
| `Bits.MaskAscends` | bloom/src/bloom.rs:166-175 | the masks of the 64 positions are the powers of two of a word in ascending order, from one on |
| `Bits.OrBit` | bloom/src/bloom.rs:166-175 | or-ing in a mask sets exactly the bit the mask stands for |
| `Bits.SameBits` | bloom/src/bloom.rs:149-163 | two words with the same bits are the same word |
| `BitVectors.OrAtBit` | bloom/src/bloom.rs:179-187 | an atomic fetch-or at a position sets exactly that position of the vector |
| `BitVectors.UnpackPack` | bloom/src/bloom.rs:149-163 | the words of a vector have zeros past its end and unpack to the vector |
| `BitVectors.PackUnpack` | bloom/src/bloom.rs:217-234 | words with zeros past the end are the packing of their bits |
| `BitVectors.OnesAreCount` | bloom/src/bloom.rs:217-234 | the ones counted word by word are the set bits of the truncated vector |
| `Blooms.Bloom.constructor` | bloom/src/bloom.rs:66-74 | a new filter has no bit set and counts none |
| `Blooms.Bloom.Clear` | bloom/src/bloom.rs:106-109 | no bit is set, the length stays |
| `Blooms.Bloom.Add` | bloom/src/bloom.rs:110-118 | sets exactly the item's positions; the counter stays the number of set bits and never saturates |
| `Blooms.Bloom.Contains` | bloom/src/bloom.rs:119-127 | true if and only if all the item's positions are set |
| `Blooms.SetAllHolds` | bloom/src/bloom.rs:110-127 | an added item is contained, and adding a contained item changes nothing |
| `Blooms.AtomicBloom.FromBloom` | bloom/src/bloom.rs:149-163 | the conversion keeps keys, length and every bit, with zeros past the end |
| `Blooms.AtomicBloom.Add` | bloom/src/bloom.rs:179-187 | run alone, sets exactly the item's positions and returns true if and only if the item was not contained |
| `Blooms.AtomicBloom.Contains` | bloom/src/bloom.rs:189-195 | true if and only if all the item's positions are set |
| `Blooms.Bloom.FromAtomic` | bloom/src/bloom.rs:217-234 | the conversion back keeps keys, length and every bit, and its count is the number of set bits |
| `BloomRuns.StepView` | bloom/src/bloom.rs:179-195 | one atomic access: an add sets its bit, a lookup changes nothing, both learn whether the bit was set |
| `BloomRuns.RunFollows` | bloom/src/bloom.rs:179-195 | between any two states of any interleaving the bits that appear are exactly those that adds accessed, and none is cleared |
| `BloomRuns.AddedStays` | bloom/src/bloom.rs:179-187 | a finished add is contained ever after |
| `BloomRuns.LookupBetween` | bloom/src/bloom.rs:189-195 | a lookup finds what was contained when it started, and what it finds is contained when it ends |
| `BloomRuns.AddThenLookup` | bloom/src/bloom.rs:179-195 | no false negatives: a lookup that starts after an add of the same item finished returns true |
| `BloomRuns.Refines` | bloom/src/bloom.rs:179-187 | every interleaving of adds ends in the words of the sequential filter, for every order of the adds, with its count |
| `BloomRuns.RoundTrip` | bloom/src/bloom.rs:217-234 | sequential to atomic, any concurrent adds, and back equals the same adds one by one, in bits, length and count |
| `BloomRuns.SetOnce` | bloom/src/bloom.rs:179-187 | no two steps of a run find the same bit not set |
| `BloomRuns.SetBySome` | bloom/src/bloom.rs:179-187 | a bit is set if and only if it was set at the start or some step found it not set |
| `BloomRuns.ReportsOwn` | bloom/src/bloom.rs:179-187 | an add returns true if and only if one of its own steps found its bit not set |
| `BloomRuns.ReportsNew` | bloom/src/bloom.rs:177-187 | an add that returns true was not contained when the run started |
| `Funding.GenerateKeypairs` | bench-tps/src/bench.rs:804-818 | the smallest full tree with at least the requested keys, and its number of payers |
| `Funding.ShareIsTotal` | bench-tps/src/bench.rs:873-875 | the total is what the root needs if every payer passes on a quarter of the rest: every division by four is exact |
| `Funding.FundRound` | bench-tps/src/bench.rs:711-717 | a round succeeds if and only if every payer finds four keys and can pay; then every payer lost four amounts and a fee, the new keys are the last of those left in groups of four from the end, each gained one amount, and nobody else is touched |
| `Funding.FundKeys` | bench-tps/src/bench.rs:695-735 | with a source that holds the total it succeeds if and only if the keys are a full tree and the total is at least a share and a fee per payer; then the keys of each level hold the same, every payer has kept its share and at most three lamports that could not be divided, and kept amounts and fees add up to the total; with the exact total every key gains exactly its share, the source keeps one, and the transactions are as many as the payers |
| `Funding.FundKeypairs` | bench-tps/src/bench.rs:839-912 | with b the balance of the first or the last key: leaves the ledger as it is if 10 b + 9 is at least 8 shares for both; else fails at the faucet if and only if the funder lacks something of the total and the rent and the faucet does not grant it, succeeds on a full tree if and only if the total covers the payers, and with the right number of payers ends with the exact balances |
| `Funding.FundTwice` | bench-tps/src/bench.rs:855-864 | a second run with the same keys leaves the ledger as it is if the first and the last key have each spent at most a fifth of their share, and funds again if one of them has spent more than that and a lamport, with the exact threshold |
| `Funding.GenerateAndFund` | bench-tps/src/bench.rs:820-837 | gets stuck if and only if no key is requested; does nothing if the amount is below two lamports; else fails at the faucet if and only if the funder lacks something of the total of the smallest full tree and the faucet does not grant it, or ends with exactly the per-account amount on every generated key, the funder short by the total less its own share, and all other balances unchanged |
| `PublishOrder.FindDirectCycle` | ci/order-crates-for-publishing.py:36-46 | an error exit if and only if two crates depend on each other |
| `PublishOrder.Round` | ci/order-crates-for-publishing.py:59-69 | a round takes exactly the crates none of whose dependencies remain |
| `PublishOrder.StuckIsCyclic` | ci/order-crates-for-publishing.py:53-55 | if every remaining crate waits for another one there is a cycle |
| `PublishOrder.OrderPackages` | ci/order-crates-for-publishing.py:35-72 | success if and only if there is no dependency cycle, so the n^2 budget never runs out without one; the result is a permutation in which every dependency comes strictly earlier, layer by layer and within a layer in the given order; on failure the crates that remain are those that no round can take |
| `PublishOrder.StuckRemains` | ci/order-crates-for-publishing.py:48-69 | what remains contains every set of crates that all wait for one another |
| `PublishOrder.EarliestLayer` | ci/order-crates-for-publishing.py:59-69 | no crate comes later than it must: each crate behind the first layer waits for one of the layer before |
| `TokenAmounts.RealNumberString` | account-decoder/src/parse_token.rs:200-211 | padding and inserting the point gives a number without leading zeros with exactly the given decimals behind the point, no point if there are none, which reads back to the amount |
| `TokenAmounts.PrintedExactly` | account-decoder/src/parse_token.rs:200-211 | reading the printed form back and scaling by ten to the decimals gives the amount |
| `TokenAmounts.PrintedUnique` | account-decoder/src/parse_token.rs:200-211 | a string of that form which reads back to the amount is the printed one |
| `TokenAmounts.RealNumberStringTrimmed` | account-decoder/src/parse_token.rs:213-220 | the two trims of the whole string give the integer digits without leading zeros and what is left of the fraction; the result reads back to the amount and ends neither in a point nor in a fractional zero |
| `TokenAmounts.TrimmedExactly` | account-decoder/src/parse_token.rs:213-220 | the trimmed form reads back to the amount and ends neither in a point nor in a fractional zero |
| `TokenAmounts.TrimmedUnique` | account-decoder/src/parse_token.rs:213-220 | a string of that form which reads back to the amount is the trimmed one |
| `TokenAmounts.PrintingInjective` | account-decoder/src/parse_token.rs:200-220 | for fixed decimals different amounts print differently, in both forms |

## Left out

- Memory mapping, files, drives, temporary directories, timing and statistics of `bucket_map`: a storage is an array of cells that starts all free.
- Locks and atomic reference counting as such: an operation under the write lock is one step, and a read-locked grow is one step that may change only the parking place, which is what makes it safe beside readers.
- `Bucket::keys`, `BucketApi::keys`: they list keys by the same scan as the items in a range.
- Concrete hash functions and random generators, false-positive rates, and the choice of the number of bits and keys of a filter: floating point and probability.
- Arithmetic.CeilLog2Bounds: the source rounds up a floating-point logarithm; the model takes the integer it stands for, which agrees for lengths below about 2^48.
- Buckets.Bucket.Insert: past capacity 2^56 an offset no longer fits in seven bytes, and an index no longer in a mapping of 2^63 - 1 bytes (`Layout.IndexLimit`); the source panics there and the model returns failure, which also bounds the retry loop of a re-indexing.
- Buckets.Bucket.Grow: a panic is a result that changes nothing and ends a run of the model; the poisoned lock and the counter of two that it leaves behind are not modelled. A capacity that would shrink counts as a panic, as in a build with overflow checks.
- Buckets.Bucket.UnRef: below zero the count wraps around, as in a build without overflow checks.
- Blooms.Bloom.Add: requires a bit if there is a key, because the source divides by the number of bits.
- BloomRuns.RunFollows: each atomic access is one step in one total order per run; weaker orderings between different words are not modelled.
- Funding.FundKeys: amounts are unbounded; overflow of the 64-bit total is not modelled. Every transaction is executed once and costs exactly the fee; a payment without cover, which the source would retry for ever, counts as a failure.
- Networking, retries, threads and the keypair file of `bench-tps`; building the dependency table from the package metadata and the wording of error messages in the publish script.
- `ui_amount` and all other parsing in `account-decoder`; RPC, command-line and display code; the MEV code is not part of this model.
