# Verification model of the streaming core

A Dafny model of the parts of this repository that keep a large world of objects streamed in and out: the hash
table and the caches everything stands on, the spatial index in the database, the manager's object graph, the
database worker thread, and the codecs and geometry they use.

The modules are layered like the program:

- **Hash table** - `RobinHood` (the ring of buckets and its order invariant), `HashLayout` (sizes, load limit,
  fingerprints), `DenseValues` (the hole-free vector of pairs and the finite map it stands for), `ReplaceOrder` (which
  duplicates the in-place removal keeps), `DenseTable` (the class with the program's operations, for an arbitrary hash
  function), `TableRuns` (whole runs), `Wyhash` (the 64 x 64 to 128-bit product).
- **Caches** - `NodeList`, `LruCachePolicy`, `LfuCachePolicy` (list or multimap plus index), `LruSpec` (the bounded
  recency list and its histories), `FixedSizedCache` (the class over a `Table` and an `LruPolicy`).
- **Geometry and codecs** - `Aabb` (boxes over exact reals), `Chunk` (the power-of-four grid), `Sha1`, `Uuid`, with
  `Powers` and `Bytes`.
- **Object graph and worker** - `Reach`, `StreamManager`, `AsyncDbWorker` (a state machine over the steps of both
  threads).
- **Database** - `StreamTables` (rows and statements as values), `SpatialIndex` (the regions of cells), `StreamDb` (the
  class with its two LRU caches), `StreamRuns` (whole runs of requests), `ObjectFiling` (the cell of an object and the
  walk to the root), `FlushBatch` (one flushed batch), `FlushRuns` (several batches, and the order inside a batch).

Code that updates state in place is a class or a method over an array with loops; each is proved against a function
or predicate on values, and the lemmas are about those.

What the proofs found where the code and the expectation differ:

- `replace` keeps one pair per key, but not always the first of the container; `ReplaceOrder.FirstPairsKeptIff` says
  exactly when (`DenseValues.DedupMayKeepALaterPair` is an input where it does not).
- The cascading delete leaves cached boxes of descendants behind: `StreamDb.Db.RemoveObject` says exactly when,
  `StreamRuns.FreshIff` for whole runs, and `StreamRuns.StaleAnswer` is a run that answers wrongly.
- Setting a box puts the given box in the cache but the truncated one in the table; a box set on a missing row or a
  read-only store is cached and not stored (`StreamTables.BoxKeptIff`, `StreamDb.Db.SetObjectAabb`).
- A batch of upserts in hash order loses rows whose parents come later (`StreamTables.BatchStoredIff`).
- The spatial index has 32-bit columns: a cell that ends at 2^31 is never indexed, and from level 16 on only its tile
  point is (`SpatialIndex.RegionExact`, `SpatialIndex.TopCellIsNeverMet`), so such objects are not found
  (`StreamDb.Db.StoredObjectIsFound`).
- Unloading an object before something above it revives it as an empty root, which is then queued for loading
  (`StreamManager.RevivedEntry`). The set of loaded objects is iterated in hash order; no order revives anything
  exactly when no object to be unloaded is below another one (`StreamManager.NothingRevivedIff`).
- The objects queued for removal are those below the requested ones in the registry, not in the database: a stored
  object that is not registered can be left to the cascade, with its cached box (`FlushBatch.QueueStaysClosedIff`).
- From level 16 on the mask is empty and a negative coordinate is outside its cell (`Chunk.TileHoldsCoordinate`).
- `add_object` on an identifier registered under another parent breaks the children map
  (`StreamManager.RelinkBreaksInverse`, `StreamManager.Manager.AddObject`).
- The intersection of boxes that are apart is an empty box at the origin, which still contains the origin
  (`Aabb.IntersectionExact`).
- SHA-1 writes 32 zero bits before the length (`Sha1.ShortFieldExact`).
- The least-frequently-used policy drops, among keys never touched, the one inserted last, but among keys touched as
  often the one touched first (`LfuCachePolicy.CandidateIsFirst`).

## Model

| member | source | states |
|---|---|---|
| `RobinHood.ProbeNeverAbove` | src/ankerl/unordered_dense.h:1244-1280 | From the home of a stored value up to its own bucket, around the end of the array included, no bucket has a smaller distance and fingerprint than the probe: the early stop of a lookup never skips a stored key. |
| `RobinHood.DistanceBound` | src/ankerl/unordered_dense.h:1025-1031 | Behind an empty bucket a distance is bounded by the number of buckets since that one; every shift loop therefore stops there. |
| `RobinHood.DistanceFits` | src/ankerl/unordered_dense.h:429-435 | The buckets between an entry and its home are all in use, so a stored distance counts at most to the number of values, whatever the number of buckets. |
| `RobinHood.RingFits` | src/ankerl/unordered_dense.h:1012-1031 | In a ring of at most 2^24 - 2 values every word has room for one more distance unit; the loops of the insertions and searches keep their words within 32 bits by it. |
| `RobinHood.ProbeWordsFitIff` | src/ankerl/unordered_dense.h:1012-1023 | That bound is exact: for n values under any hashes the word of a probe that ends at the due place fits 32 bits if and only if n is at most 2^24 - 2. |
| `RobinHood.EmptyBucketExists` | src/ankerl/unordered_dense.h:1020-1031 | As long as there are fewer values than buckets, some bucket is empty. |
| `RobinHood.PlaceAndShiftUp` | src/ankerl/unordered_dense.h:1025-1032 | Robin-hood insertion: from an order with one entry in hand it restores the whole invariant (each occupied bucket at its cyclic distance from home, at most one unit above its predecessor, bijection with the values). |
| `RobinHood.PlaceStep` | src/ankerl/unordered_dense.h:1026-1030 | One turn of that loop: swapping the entry in hand with the occupant leaves the occupant in hand, due one bucket further with one more unit of distance. |
| `RobinHood.EraseAndShiftDown` | src/ankerl/unordered_dense.h:1034-1043 | Backward-shift deletion: the order invariant holds again and every other value still has its bucket, across wrap-around. |
| `RobinHood.HoleStep` | src/ankerl/unordered_dense.h:1036-1041 | One turn of that loop: moving an entry that is not at home one bucket back moves the hole one bucket on. |
| `RobinHood.NextWhileLess` | src/ankerl/unordered_dense.h:1012-1022 | Ends at the place where a new entry is due: all entries before it on the probe path are strictly further from home, the one there is not; it terminates because of an empty bucket. |
| `RobinHood.BucketOfValue` | src/ankerl/unordered_dense.h:1159-1163 | The search for the bucket of a given value index ends at that value's bucket, and is never fooled by an empty bucket whose value index reads 0. |
| `RobinHood.RetargetLast` | src/ankerl/unordered_dense.h:1153-1166 | Swap-with-last: after the bucket of the last value is told its new index, buckets and values are in bijection again. |
| `RobinHood.MoveEntry` | src/ankerl/unordered_dense.h:1775-1791 | Taking one entry out and placing it again under another key's tag keeps the invariant. |
| `HashLayout.Capacity` | src/ankerl/unordered_dense.h:1098-1108 | The load limit of n buckets, exact for the single-precision factor 0.8, is below n. |
| `HashLayout.CapacityIsFourFifths` | src/ankerl/unordered_dense.h:1098-1108 | The load limit is four fifths of the buckets, up to the rounding of the factor. |
| `HashLayout.BucketCountRange` | src/ankerl/unordered_dense.h:1045-1047 | The shifts the table uses stand for at least four and at most 2^32 buckets. |
| `HashLayout.HomeInRange` | src/ankerl/unordered_dense.h:996-1002 | Every 64-bit hash selects a bucket of the array and a one-byte fingerprint. |
| `HashLayout.TagReadsHash` | src/ankerl/unordered_dense.h:996-1002 | The home is the hash without the bits below the shift, the fingerprint its low byte. |
| `HashLayout.DoublingMakesRoom` | src/ankerl/unordered_dense.h:1132-1144 | One shift less doubles the buckets and raises the load limit by at least one value, up to the largest array of 2^32 buckets, whose limit is special. |
| `HashLayout.FullMeansGrowable` | src/ankerl/unordered_dense.h:1132-1138 | A table that is full but holds fewer values than the largest array has buckets has a larger size to grow to. |
| `HashLayout.BucketCountGrows` | src/ankerl/unordered_dense.h:1045-1055 | Smaller shifts never mean fewer buckets. |
| `Wyhash.Mum` | src/ankerl/unordered_dense.h:167-183 | For all 64-bit a and b the portable multiplication writes words with hi * 2^64 + lo = a * b. |
| `Wyhash.WordsAddUp` | src/ankerl/unordered_dense.h:176-182 | Both carries, read off by comparing wrapped sums, are what the schoolbook product needs. |
| `Wyhash.HighWordFits` | src/ankerl/unordered_dense.h:180-182 | The high word needs no 65th bit, so its own additions do not wrap. |
| `DenseValues.ContentsSize` | src/ankerl/unordered_dense.h:1147-1167 | The map a vector of pairs with distinct keys stands for has one entry per position. |
| `DenseValues.ContentsSwapRemove` | src/ankerl/unordered_dense.h:1153-1166 | Overwriting a position by the last pair and dropping the last takes exactly one key out of the map. |
| `DenseValues.ContentsRekey` | src/ankerl/unordered_dense.h:1766-1773 | Changing the key at a position renames one key of the map and keeps its value. |
| `DenseValues.DedupExact` | src/ankerl/unordered_dense.h:1543-1594 | The in-place duplicate removal of replace keeps exactly one of the given pairs per distinct key: none is invented, doubled or lost. |
| `ReplaceOrder.KeepsFirstScanned` | src/ankerl/unordered_dense.h:1562-1593 | What replace keeps of each key is the first pair in the order in which it looks at pairs: from the front, with the last pair looked at next whenever a duplicate made room for it. |
| `ReplaceOrder.ScansEachOnce` | src/ankerl/unordered_dense.h:1562-1593 | In that order every pair comes exactly once. |
| `ReplaceOrder.KeepsSurvivors` | src/ankerl/unordered_dense.h:1584-1592 | The pairs left are the original pairs at the surviving positions, slot by slot. |
| `ReplaceOrder.FirstPairsKeptIff` | src/ankerl/unordered_dense.h:1584-1592 | The first pair of every key of the container is kept if and only if the scan never places a pair taken from the back whose key is still ahead; a predicate on the container decides it. |
| `DenseValues.RangeErasedExact` | src/ankerl/unordered_dense.h:1836-1858 | A range erase removes precisely the pairs at positions first up to last; the pairs in front stay where they are. |
| `DenseTable.Table.constructor` | src/ankerl/unordered_dense.h:1304-1321 | A new table is empty and has room for the requested number of values. |
| `DenseTable.Table.CalcShiftsForSize` | src/ankerl/unordered_dense.h:1049-1055 | The smallest number of buckets, from four on, whose load limit admits the size; above the limit of 2^32 buckets the search ends at 0, for which no bucket count is defined. |
| `DenseTable.Table.ClearAndFillBucketsFromValues` | src/ankerl/unordered_dense.h:1120-1130 | Rebuilding the buckets from the values establishes the whole index invariant. |
| `DenseTable.Table.IncreaseSize` | src/ankerl/unordered_dense.h:1132-1144 | Growth keeps the values, indexes all of them and leaves them within the load limit. |
| `DenseTable.Table.PassBucket` | src/ankerl/unordered_dense.h:1270-1280 | A bucket that is not the key's can be passed without missing the key. |
| `DenseTable.Table.StopBucket` | src/ankerl/unordered_dense.h:1275-1277 | Once the probe is above the entry it meets, the key is not in the table. |
| `DenseTable.Table.RoomAhead` | src/ankerl/unordered_dense.h:1270-1281 | A probe that is not above the entry it meets has not gone round the ring, which is the measure of the lookup loop. |
| `DenseTable.Table.DoFind` | src/ankerl/unordered_dense.h:1243-1282 | Lookup, with its two unrolled probes, returns the value of the key if and only if the map has the key. |
| `DenseTable.Table.Probe` | src/ankerl/unordered_dense.h:1226-1240 | The loop of the insertions stops at the key or at the place where it is due, and then the key is absent; the word it counts up never wraps. |
| `DenseTable.Table.TryEmplace` | src/ankerl/unordered_dense.h:1219-1241 | Inserts the pair at the back if and only if the key is absent; the map changes by exactly that; the returned position holds the key. |
| `DenseTable.Table.Emplace` | src/ankerl/unordered_dense.h:1661-1692 | Appending first and taking the pair off again on a hit amounts to the same map update, also when the table grows. |
| `DenseTable.Table.InsertOrAssign` | src/ankerl/unordered_dense.h:1190-1197 | Afterwards the map has the key with the value, whether it was new or not; other pairs keep value and position. |
| `DenseTable.Table.DoErase` | src/ankerl/unordered_dense.h:1146-1167 | Erasing a bucket removes exactly its pair, moves the last pair into the gap and keeps all invariants. |
| `DenseTable.Table.ExtractKey` | src/ankerl/unordered_dense.h:1169-1188 | Erase or extract by key hands out the stored value and removes the key, or changes nothing when it is absent. |
| `DenseTable.Table.Erase` | src/ankerl/unordered_dense.h:1860-1863 | Returns 1 or 0 according to presence and removes exactly the key. |
| `DenseTable.Table.EraseAt` | src/ankerl/unordered_dense.h:1796-1808 | Erase through an iterator removes the pair at that position by swap-with-last. |
| `DenseTable.Table.ExtractAt` | src/ankerl/unordered_dense.h:1810-1824 | Extract through an iterator hands out the pair it removes. |
| `DenseTable.Table.ReplaceKey` | src/ankerl/unordered_dense.h:1749-1794 | Renames the pair in place if and only if the new key is absent, else points at the pair that has it. |
| `DenseTable.Table.Clear` | src/ankerl/unordered_dense.h:1492-1495 | The table is empty and still valid. |
| `DenseTable.Table.Rehash` | src/ankerl/unordered_dense.h:2028-2038 | Same values in the same order, room for the requested count and for the values, in the smallest number of buckets that has it. |
| `DenseTable.Table.Reserve` | src/ankerl/unordered_dense.h:2040-2053 | Same values in the same order and at least the requested room, in the smallest number of buckets if there were fewer; never shrinks; also on a table without buckets. |
| `DenseTable.Table.Replace` | src/ankerl/unordered_dense.h:1543-1594 | Takes over a container of pairs; the values are its in-place de-duplication and the index is complete. |
| `DenseTable.Table.EraseRange` | src/ankerl/unordered_dense.h:1836-1858 | The two loops of a range erase leave exactly the vector described by RangeErased, with all invariants. |
| `DenseTable.EraseIf` | src/ankerl/unordered_dense.h:2214-2234 | Removes exactly the pairs with the property and returns their number; every original pair is looked at exactly once, from the back to the front. |
| `TableRuns.Apply` | src/ankerl/unordered_dense.h:1170-1287 | One operation changes the map and answers as the same operation on a finite map. |
| `TableRuns.Run` | src/ankerl/unordered_dense.h:1662-1794 | Refinement over every run, however long: on a fresh table any sequence of operations during which the map stays below 2^24 - 2 keys gives the answers and the final contents of a finite map. |
| `LruCachePolicy.LruPolicy.Insert` | src/cpp_caches/lru_cache_policy.hpp:45-49 | The key goes to the front; list and iterator index stay in bijection. |
| `LruCachePolicy.LruPolicy.Touch` | src/cpp_caches/lru_cache_policy.hpp:51-55 | The key moves to the front, the order of the others is kept, the index is still right without being changed. |
| `LruCachePolicy.LruPolicy.Erase` | src/cpp_caches/lru_cache_policy.hpp:57-62 | Exactly this key leaves list and index. |
| `LruCachePolicy.LruPolicy.ReplCandidate` | src/cpp_caches/lru_cache_policy.hpp:64-68 | The candidate is the key at the back. |
| `LruCachePolicy.LinkedSplice` | src/cpp_caches/lru_cache_policy.hpp:51-55 | Splicing a node to the front keeps list and index in bijection. |
| `FixedSizedCache.Cache.constructor` | src/cpp_caches/cache.hpp:43-47 | A new cache is empty; capacity 0 means 1. |
| `FixedSizedCache.Cache.Put` | src/cpp_caches/cache.hpp:58-74 | Refines the recency list: update moves to the front, a new key goes in front. A known key, or room, drops nothing and calls no callback; on a full cache exactly the item at the back goes, with its callback first. |
| `FixedSizedCache.Cache.TryGet` | src/cpp_caches/cache.hpp:82-87 | A hit returns the value and makes the key the most recent, a miss changes nothing. |
| `FixedSizedCache.Cache.Get` | src/cpp_caches/cache.hpp:117-125 | The same with the default value on a miss. |
| `FixedSizedCache.Cache.Pop` | src/cpp_caches/cache.hpp:95-109 | Hands out the value and forgets the key without the callback. |
| `FixedSizedCache.Cache.Remove` | src/cpp_caches/cache.hpp:153-163 | Removes the key with the callback; the result says whether it was there. |
| `FixedSizedCache.Cache.Cached` | src/cpp_caches/cache.hpp:133-136 | Asking whether a key is present is exact and is no use of it. |
| `FixedSizedCache.Cache.Size` | src/cpp_caches/cache.hpp:142-145 | The size is the number of keys and never exceeds the capacity. |
| `FixedSizedCache.Cache.EvictOne` | src/cpp_caches/cache.hpp:64-67 | Eviction removes exactly the policy's candidate. |
| `FixedSizedCache.Cache.EraseAtIndex` | src/cpp_caches/cache.hpp:198-202 | Policy, callback and map agree on the one pair that goes. |
| `FixedSizedCache.Cache.ClearWithCallback` | src/cpp_caches/cache.hpp:169-174 | Empties the cache by a run of Removes; the callback sees every pair exactly once. |
| `FixedSizedCache.Run` | src/cpp_caches/cache.hpp:58-174 | Over every run of Put, Get, Pop and Remove the cache, with its hash table and its list, gives the answers of the recency-list specification and ends in its state. |
| `LruSpec.StepCoherent` | src/cpp_caches/cache.hpp:192-228 | Map keys and policy keys are equal and their number is within the capacity after every operation. |
| `LruSpec.OrderIsRecency` | src/cpp_caches/cache.hpp:58-228 | After every history the list is ordered by the time of the last Put or Get of each key. |
| `LruSpec.VictimIsOldest` | src/cpp_caches/cache.hpp:62-69 | The key evicted by a Put is the live key whose last Put or Get is oldest. |
| `LruSpec.ValuesAreLastPut` | src/cpp_caches/cache.hpp:58-163 | After every history a cached key was put and not dropped since, and has the value of its last Put. |
| `LruSpec.RoomForAll` | src/cpp_caches/cache.hpp:62-69 | As long as the Puts of a history name no more keys than there is room for, the cache holds every key put and not dropped since, and without Removes the callback is never called. |
| `LruSpec.Conservation` | src/cpp_caches/cache.hpp:58-174 | Over every history, insertions of absent keys = current size + erase callbacks + successful pops. |
| `LruSpec.EvictIsRemove` | src/cpp_caches/cache.hpp:64-67 | Evicting is the same as removing the key at the back. |
| `LruSpec.StepsContinue` | src/cpp_caches/cache.hpp:169-174 | Clearing with callback, as a run of Removes, continues any history, so what holds after every history holds after it. |
| `LfuCachePolicy.LfuPolicy.Insert` | src/cpp_caches/lfu_cache_policy.hpp:38-44 | A new key has frequency 1 and goes in front; sorted multimap and index stay in bijection. |
| `LfuCachePolicy.LfuPolicy.Touch` | src/cpp_caches/lfu_cache_policy.hpp:46-55 | Exactly this key's frequency grows by one; its node moves behind every key that is not used more often, the others keep their order, and the multimap stays sorted. |
| `LfuCachePolicy.LfuPolicy.Erase` | src/cpp_caches/lfu_cache_policy.hpp:57-61 | Exactly this key is forgotten. |
| `LfuCachePolicy.LfuPolicy.ReplCandidate` | src/cpp_caches/lfu_cache_policy.hpp:63-68 | The candidate is live and no live key has a smaller frequency. |
| `LfuCachePolicy.SortedInsert` | src/cpp_caches/lfu_cache_policy.hpp:49-54 | Inserting at the upper bound keeps the frequencies sorted. |
| `LfuCachePolicy.Replay` | src/cpp_caches/lfu_cache_policy.hpp:38-61 | After every history, the live keys are those inserted and not erased since, each frequency is 1 plus the touches since its insertion, and the list is ranked by frequency: keys never touched with the one inserted last in front, others with the one touched last behind. |
| `LfuCachePolicy.CandidateIsFirst` | src/cpp_caches/lfu_cache_policy.hpp:63-68 | The candidate is the one live key that comes before all others in that ranking, ties included. |
| `Aabb.MergeIsLeastUpperBound` | godot-cpp/src/variant/aabb.cpp:50-75 | The merged box is the least box that encloses both. |
| `Aabb.MergeLaws` | godot-cpp/src/variant/aabb.cpp:345-349 | Merging is commutative, associative and idempotent. |
| `Aabb.MergeAllLeast` | src/core/stream/stream_manager.cpp:665-668 | Folding merges over a list gives the least box around the start and all of the list. |
| `Aabb.MergeAllOrderIndependent` | src/core/stream/stream_manager.cpp:665-668 | The fold does not depend on the order in which boxes come. |
| `Aabb.IntersectionExact` | godot-cpp/src/variant/aabb.cpp:85-120 | The points of the intersection are the common points if and only if the boxes are not apart; for boxes that are apart the returned box still holds the origin. |
| `Aabb.ClipExact` | godot-cpp/src/variant/aabb.cpp:208-225 | The parameter range computed for one axis is exactly where the segment is between the two planes, without division by zero. |
| `Aabb.IntersectsSegment` | godot-cpp/src/variant/aabb.cpp:190-253 | True if and only if some t in [0, 1] puts the point in the box; the point has the least such t; the normal is zero for t = 0 and otherwise the outward normal of a face the point lies on and the segment runs against. |
| `Chunk.MaskRoundsDown` | src/core/components/chunk.h:36-39 | Masking the low bits of a word rounds it down to a multiple of the power of two. |
| `Chunk.MaskedTile` | src/core/components/chunk.h:36-39 | Below level 16 the tile is aligned to 4^level and holds the coordinate, negative coordinates in two's complement included. |
| `Chunk.TileHoldsCoordinate` | src/core/components/chunk.h:36-39 | The tile holds the coordinate if and only if the level is at most 15 or the coordinate is not negative. |
| `Chunk.LevelLongEnough` | src/core/components/chunk.h:19-32 | The cell edge is at least the floor of the longest side even if the logarithm came out one too low; a sufficient estimate is kept. |
| `Chunk.LevelOfBox` | src/core/components/chunk.h:19-32 | A box with no side longer than 1 gets level 0. Otherwise, with l the least level whose edge is at least every side: estimate l gives l; estimate l - 1 is kept exactly if its edge is at least the whole part of every side, else l comes out; a level above 31 becomes 0. |
| `Chunk.TruncTowardsZero` | src/core/components/chunk.h:37-39 | The conversion to an integer is the whole part with the sign of the number. |
| `Chunk.ChunkHoldsCorner` | src/core/components/chunk.h:18-42 | The cell is on the grid of its level, and holds the truncated corner if and only if the level is at most 15 or no coordinate is negative. |
| `Chunk.CellsEqualOrDisjoint` | src/core/components/chunk.h:34-41 | Two cells of one level are equal or share no point. |
| `Sha1.LeftRotate5` | src/uuid.h:125-128 | Combining the two shifts by exclusive or is the circular left shift of section 3 of RFC 3174. |
| `Sha1.FIsChoiceParityMajority` | src/uuid.h:256-275 | The functions of section 5 of RFC 3174 are the bitwise choice, parity and majority. |
| `Sha1.KIsRoot` | src/uuid.h:256-275 | The round constants are the whole parts of 2^30 times the square roots of 2, 3, 5 and 10. |
| `Sha1.BigEndianReads` | src/uuid.h:238-243 | The first octet of a word is its most significant one. |
| `Sha1.Hasher.ProcessBlock` | src/uuid.h:235-288 | One block changes the five words by the compression of section 6.1 of RFC 3174. |
| `Sha1.Hasher.Schedule` | src/uuid.h:237-246 | The loop computes the recursive message schedule W(0) to W(79). |
| `Sha1.Hasher.ProcessByte` | src/uuid.h:143-152 | After each byte the words are the hash state of all complete blocks fed so far and the buffer holds the rest. |
| `Sha1.Hasher.ProcessBytes` | src/uuid.h:154-169 | Bulk input is the same as byte by byte. |
| `Sha1.Hasher.FeedZeros` | src/uuid.h:175-187 | The padding loops end at position 56 for every residue of the length modulo 64. |
| `Sha1.Hasher.GetDigest` | src/uuid.h:171-199 | The digest is that of the message padded as the code does, and equals the digest of RFC 3174 below 2^29 bytes. |
| `Sha1.ShortFieldExact` | src/uuid.h:172-195 | The length field with 32 zero bits is the one of section 4 of RFC 3174 if and only if the message is shorter than 2^29 bytes. |
| `Sha1.DigestOfPieces` | src/uuid.h:132-199 | However the input is cut into calls, the digest is the RFC 3174 hash of the concatenation. |
| `Uuid.FromString` | src/uuid.h:502-547 | Succeeds if and only if the text without matching outer braces and hyphens is 32 hexadecimal digits, and then gives their octets. |
| `Uuid.DigitValues` | src/uuid.h:80-97 | The digits in either case, and nothing else, are accepted and count from 0 to 15. |
| `Uuid.ParsedNumber` | src/uuid.h:502-547 | The octets read are those of the 128-bit number that the digits denote, the most significant first. |
| `Uuid.IsValidUuid` | src/uuid.h:458-500 | Accepts exactly the strings that from_string accepts. |
| `Uuid.ToString` | src/uuid.h:583-602 | Writes the lower-case digits in the groups of section 3 of RFC 4122. |
| `Uuid.ParsePrinted` | src/uuid.h:502-602 | from_string(to_string(u)) = u for all u. |
| `Uuid.PrintParsed` | src/uuid.h:502-602 | to_string(from_string(s)) is the canonical form: the digits of s in lower case, regrouped. |
| `Uuid.StampsRead` | src/uuid.h:817-824 | Stamped octets read back as the RFC variant and the version stamped, with all other bits kept. |
| `Uuid.VersionIsHighDigit` | src/uuid.h:426-443 | The version is the high digit of its octet if that is 1 to 5. |
| `Uuid.VariantIsRange` | src/uuid.h:414-424 | The variant is told by the range the octet is in. |
| `AsyncDbWorker.StepKeepsInv` | src/core/components/async_db_worker.cpp:90-143 | Every step of either thread keeps: task queue, worker, completed queue and local queue together hold every pushed task once, in push order. |
| `AsyncDbWorker.InvHolds` | src/core/components/async_db_worker.cpp:90-143 | The same in every state of every interleaving. |
| `AsyncDbWorker.OrderAndNoLoss` | src/core/components/async_db_worker.cpp:98-142 | Work runs at most once and in push order; callbacks at most once, in order, each after its work; a callback not called yet is in one of the queues. |
| `AsyncDbWorker.ExitOnlyWhenDrained` | src/core/components/async_db_worker.cpp:127-129 | The worker leaves only after stop, with an empty queue and all work done. |
| `AsyncDbWorker.StoppedByStop` | src/core/components/async_db_worker.cpp:52-62 | The stop flag is set exactly if a Stop has been taken, so without one the worker never leaves. |
| `AsyncDbWorker.NothingAfterExit` | src/core/components/async_db_worker.cpp:90-96 | What is pushed after the worker has left never runs. |
| `AsyncDbWorker.WorkerCanMove` | src/core/components/async_db_worker.cpp:127-132 | A worker step is possible exactly when it has not left and there is a task, a task in hand, or a stop. |
| `AsyncDbWorker.MainCanMove` | src/core/components/async_db_worker.cpp:90-109 | The main thread can always push and stop, swap exactly when it has called everything swapped out before, and call exactly when it has not. |
| `AsyncDbWorker.FlushCalls` | src/core/components/async_db_worker.cpp:98-109 | One flush, a swap and a call for each completed callback, is possible, calls exactly those in order, and leaves none behind. |
| `AsyncDbWorker.SwappedAreCalled` | src/core/components/async_db_worker.cpp:98-143 | Whatever steps interleave with a flush, what was completed at its swap has been called, in order, after as many calls. |
| `AsyncDbWorker.DrainedFlushDeliversAll` | src/core/components/async_db_worker.cpp:98-143 | In a reachable state with nothing left for the worker, one flush brings every callback of every pushed task to its call. |
| `AsyncDbWorker.EverythingCanBeDelivered` | src/core/components/async_db_worker.cpp:98-143 | From every state of every run in which the worker has not left there are steps, none of them a push, after which all work pushed has run and all its callbacks have been called, in push order. |
| `AsyncDbWorker.BoundedWork` | src/core/components/async_db_worker.cpp:122-143 | Without further pushes the worker takes at most three steps per waiting task and one to leave. |
| `Reach.CollectDescendants` | src/core/stream/stream_manager.cpp:283-298 | Returns exactly the set reachable through the parent-to-children map, and terminates on cycles too. |
| `Reach.LeastClosed` | src/core/stream/stream_manager.cpp:283-298 | A set that is closed under children and reachable from the root is the reachable set. |
| `StreamManager.LinkKeepsInverse` | src/core/stream/stream_manager.cpp:207-211 | Entering a child keeps the children map the inverse of the parent relation, unless the object was registered under another parent. |
| `StreamManager.RelinkBreaksInverse` | src/core/stream/stream_manager.cpp:207-211 | Registering an identifier again under another parent breaks the inverse. |
| `StreamManager.UnlinkKeepsInverse` | src/core/stream/stream_manager.cpp:241-251 | Removing an object and its entry under its parent keeps the inverse. |
| `StreamManager.Manager.AddObject` | src/core/stream/stream_manager.cpp:194-215 | The invariants hold afterwards if and only if the identifier is nil, new, was a root, or keeps its parent. |
| `StreamManager.Manager.UpdateObject` | src/core/stream/stream_manager.cpp:258-281 | Moves the object between parents and keeps the inverse; an unknown object changes nothing. |
| `StreamManager.Manager.RemoveNow` | src/core/stream/stream_manager.cpp:224-256 | Removes exactly the reachable set from registry and work sets, queues exactly its registered members for deletion, and leaves no object with a removed parent. |
| `StreamManager.NoOrphans` | src/core/stream/stream_manager.cpp:228-256 | What is left does not hang below what is removed. |
| `StreamManager.Manager.EraseRegistryEntry` | src/core/stream/stream_manager.cpp:580-584 | The work sets go on naming registered objects only; the children map stays the inverse if and only if the object was unknown or a root, so a listed object has to be unlisted first. |
| `StreamManager.Manager.ProcessRemovals` | src/core/stream/stream_manager.cpp:75-79 | Each requested object goes with everything that was below it before, in any order of the requests; what was registered of that is queued, and leaves the registry and the other work sets. |
| `Reach.ReachesOutside` | src/core/stream/stream_manager.cpp:283-298 | Taking out a set closed under children cuts nothing else off. |
| `StreamManager.Manager.ObjectEntered` | src/core/stream/stream_manager.cpp:330-349 | Renewing a node keeps the invariants; an unknown identifier becomes a root. |
| `StreamManager.Manager.AabbChanged` | src/core/stream/stream_manager.cpp:380-389 | Only registered objects become dirty. |
| `StreamManager.Manager.UnloadObject` | src/core/stream/stream_manager.cpp:512-547 | Clears the living nodes of exactly the reachable set and asks for no removal; a listed child that is not registered gets an empty entry. |
| `StreamManager.Manager.OnQueryResult` | src/core/stream/stream_manager.cpp:392-439 | Afterwards children is the exact inverse. Registered objects that are neither loaded nor in the answer stay as they are; loaded ones not in the answer are gone, unless they are below another such object and come back as empty entries; those in the answer have the stored parent and keep their node unless it is alive and below an object that goes. Every root that is not loaded is queued once; the work sets lose exactly what was unloaded. |
| `StreamManager.NothingRevivedIff` | src/core/stream/stream_manager.cpp:400-410 | With a right children map, no order of unloading revives an entry if and only if no object to be unloaded - loaded and not in the answer - is below another one. |
| `StreamManager.OrderRevivesNothingIff` | src/core/stream/stream_manager.cpp:400-410 | In a given order nothing is revived if and only if no object is unloaded after one below it. |
| `StreamManager.RevivedEntry` | src/core/stream/stream_manager.cpp:400-410 | One loaded object stored under another: unloaded first, it is back as an empty entry once the other is unloaded. |
| `StreamManager.Inverse` | src/core/stream/stream_manager.cpp:425-431 | The rebuilt children map is the inverse of the registry. |
| `StreamTables.StoreLoadExact` | src/core/components/stream_sqlite_db.cpp:408-432 | A box survives storing and reading if and only if its corners are whole. |
| `StreamTables.LoadedIsIntegral` | src/core/components/stream_sqlite_db.cpp:408-432 | Reading stored corners and storing the box again gives the same corners. |
| `StreamTables.RemovedKeepsParents` | src/core/components/stream_sqlite_db.cpp:132-145 | The cascading delete leaves no row with a missing parent. |
| `StreamTables.UpsertAllStores` | src/core/stream/stream_manager.cpp:654-656 | A batch whose parents come first is stored completely. |
| `StreamTables.UpsertRejected` | src/core/stream/stream_manager.cpp:654-656 | A row whose parent is not there yet is rejected and stays as it was before the batch. |
| `StreamTables.BatchStoredIff` | src/core/stream/stream_manager.cpp:654-656 | A batch of upserts in hash order is stored completely if and only if every parent is nil, the object itself, stored, or earlier in the batch. |
| `StreamTables.UpsertOrderIff` | src/core/stream/stream_manager.cpp:654-656 | Against an order in which parents come first, another order of the same upserts gives the same tables if and only if parents come first in it too. |
| `StreamTables.BoxKeptIff` | src/core/components/stream_sqlite_db.cpp:329-338 | After storing a box the table holds it if and only if the object has a row and the corners are whole, or there is no row and the box is the default. |
| `StreamTables.UnstoredIsOrigin` | src/core/components/stream_sqlite_db.cpp:343-369 | An object without a stored box has the point at the origin as its box. |
| `StreamDb.Db.QueryChunk` | src/core/components/stream_sqlite_db.cpp:270-296 | Through the cache, find-or-create returns what the table holds, for misses, evictions and read-only stores as well, adds at most the asked cell, and caches the answer. |
| `SpatialIndex.RegionExact` | src/core/components/stream_sqlite_db.cpp:102-109 | With 32-bit columns a cell up to level 15 is met by the queries that overlap it, ends included, if it ends within the range, and by none if it does not; from level 16 on it is met only at its tile point. |
| `SpatialIndex.MeetsIffSharesPoint` | src/core/components/stream_sqlite_db.cpp:193-198 | A query box meets exactly the cells with which it shares an integer point: a point of the closed cell up to level 15, if its ends are in range, and of the tile alone from level 16 on; boxes of negative size are covered as well. |
| `SpatialIndex.FoundIff` | src/core/components/stream_sqlite_db.cpp:147-159 | A box is found through its cell by every query that holds its truncated corner if and only if the cell ends within the range, or, from level 16 on, the corner is the origin. |
| `SpatialIndex.TopCellIsNeverMet` | src/core/components/stream_sqlite_db.cpp:147-159 | A box of edge 2^30 at 2^30 is filed under a cell of level 15 that no query meets. |
| `StreamDb.Db.FindOrCreate` | src/core/components/stream_sqlite_db.cpp:276-292 | Cells and identifiers determine each other; a new cell gets a fresh identifier. |
| `StreamDb.Db.GetObjectAabb` | src/core/components/stream_sqlite_db.cpp:343-369 | Returns the cached box or else the stored one, which is cached afterwards as the one used last; it is the stored one wherever cache and table agree. |
| `StreamDb.Db.SetObjectAabb` | src/core/components/stream_sqlite_db.cpp:329-341 | The given box is cached as the most recent one; cache and table agree on the object afterwards if and only if the table holds the box as given. |
| `StreamDb.Db.RemoveObject` | src/core/components/stream_sqlite_db.cpp:318-327 | Deletes the object with everything stored below it and drops its own cached box; an agreeing cache still agrees if and only if no strict descendant has a cached box other than the default. |
| `StreamDb.Db.UpsertObject` | src/core/components/stream_sqlite_db.cpp:255-268 | Inserts the row or takes over the parent, unless the parent is missing; other rows, boxes, cells and caches stay as they are. |
| `StreamDb.Db.SetObjectChunk` | src/core/components/stream_sqlite_db.cpp:371-378 | Files the object under an existing cell, rejects a missing one, changes nothing else. |
| `StreamDb.Db.QueryChildrenAabb` | src/core/components/stream_sqlite_db.cpp:434-454 | Lists every direct child once with its stored box. |
| `StreamDb.Db.QueryObjects` | src/core/components/stream_sqlite_db.cpp:222-253 | Every object returned is filed under a cell that shares an integer point with the truncated box, and every object so filed is returned, with its parent. |
| `StreamDb.Db.QueryObjectsInAny` | src/core/components/stream_sqlite_db.cpp:177-220 | The many-box query finds exactly the objects whose cells share a point with one of the boxes, the union of the single-box queries; nothing for no boxes. |
| `StreamDb.Db.StoredObjectIsFound` | src/core/components/stream_sqlite_db.cpp:147-159 | A filed object is found by every box that holds its truncated corner if and only if its cell ends within 32 bits on every axis, or, from level 16 on, its corner is the origin. |
| `StreamRuns.Serve` | src/core/components/stream_sqlite_db.cpp:270-378 | One request changes tables and cached boxes, evictions included, as the specification says and gives its answer. |
| `StreamRuns.ServeAll` | src/core/components/stream_sqlite_db.cpp:270-378 | Over every run each answer is the cached box or else that of the tables; it is that of the tables if and only if no other box is cached for the object asked for. |
| `StreamRuns.ServeNew` | src/core/components/stream_sqlite_db.cpp:270-378 | A run on a new store is a run from the empty tables and caches. |
| `StreamRuns.FreshStepIff` | src/core/components/stream_sqlite_db.cpp:318-369 | One request keeps every cached box equal to the stored one if and only if a set box is one the table keeps and a removed object has no descendant with a cached box to lose. |
| `StreamRuns.FreshIff` | src/core/components/stream_sqlite_db.cpp:318-369 | A run that starts with agreeing boxes agrees at every point if and only if each of its requests is of that kind. |
| `StreamRuns.StaleAnswer` | src/core/components/stream_sqlite_db.cpp:318-348 | A run of four requests after which a removed object still answers with its old box. |
| `StreamRuns.IdsStayUnique` | src/core/components/stream_sqlite_db.cpp:270-296 | Over every run cells and identifiers stay in bijection and no identifier changes. |
| `StreamRuns.ChunkIdsStableInjective` | src/core/components/stream_sqlite_db.cpp:270-296 | On a writable store two requests, with anything in between, give the same identifier if and only if they ask for the same cell. |
| `ObjectFiling.AggregateUnique` | src/core/stream/stream_manager.cpp:664-668 | There is at most one least box around an own box and the boxes of the direct children. |
| `ObjectFiling.AggregateOf` | src/core/stream/stream_manager.cpp:664-668 | The merge loop computes that box. |
| `ObjectFiling.FileStored` | src/core/stream/stream_manager.cpp:683-693 | The same for an ancestor, whose own box is the cached or else the stored one. |
| `ObjectFiling.FileUnder` | src/core/stream/stream_manager.cpp:670-672 | The object is filed under the cell of its own box merged with its direct children, which is of the level right for that box and on its grid and holds the corner; no other row and no cached box changes. |
| `ObjectFiling.FiledRightly` | src/core/stream/stream_manager.cpp:670-672 | Whoever is filed, after a walk or a batch, is filed under such a cell. |
| `ObjectFiling.NotVisited` | src/core/stream/stream_manager.cpp:678-696 | On an acyclic parent chain the walk meets no object twice. |
| `ObjectFiling.WalkEndsIff` | src/core/stream/stream_manager.cpp:678-696 | The walk up the parent chain ends if and only if nobody on the chain is above his own parent. |
| `ObjectFiling.FileWithAncestors` | src/core/stream/stream_manager.cpp:663-697 | If the chain has no cycle the walk ends; the object is filed by the box given for it and every object above it by an own box; objects filed before stay filed; nothing else changes. |
| `FlushBatch.SubtreeRemoved` | src/core/stream/stream_manager.cpp:650-652 | A removal set closed under stored descendants contains every cascade. |
| `FlushBatch.QueueStaysClosedIff` | src/core/stream/stream_manager.cpp:650-652 | When registered parents are the stored ones, the removals the manager queues stay closed under stored descendants if and only if no stored object that is not registered is below a queued one. |
| `FlushBatch.RemoveAll` | src/core/stream/stream_manager.cpp:650-652 | Removing a closed set in any order deletes exactly its rows and its cached boxes; if cache and table agreed they agree afterwards, although single steps leave stale boxes. |
| `FlushBatch.UpsertBatch` | src/core/stream/stream_manager.cpp:654-656 | Stores the batch as the fold of its upserts, with no box changed. |
| `FlushBatch.StoreBoxes` | src/core/stream/stream_manager.cpp:658-660 | Exactly the changed boxes are in the table, fractions cut off; every cached box is the stored one, the one given, or, for an object that is not changed, the one cached before. |
| `FlushBatch.WritableMore` | src/core/stream/stream_manager.cpp:658-660 | Boxes can be written for any stored objects, each once, whose corners are on the 32-bit grid. |
| `FlushBatch.FileDirty` | src/core/stream/stream_manager.cpp:662-697 | After the loop every object above a changed one is filed by the final boxes, a changed one below which no later one is by the box given for it, and the others are where they were. |
| `FlushBatch.Flush` | src/core/stream/stream_manager.cpp:647-699 | The whole batch, fractional boxes given now or cached from earlier batches included: parents are those after removals and upserts, the changed boxes are stored, every changed object and every object on its parent chain is filed under the cell of its own box merged with its direct children in the final tables, and a changed object below which no later one is by the very box given. What it asks of the cache it gives back; agreement of cache and table is kept when the corners are whole. |
| `FlushBatch.FlushedExactly` | src/core/stream/stream_manager.cpp:647-699 | When the given boxes have whole corners and the cache agreed with the table, the own box is the stored one, and for a changed object that is the one given. |
| `FlushRuns.FlushAll` | src/core/stream/stream_manager.cpp:647-699 | Over every run of batches, each of which fits the parents and boxes the earlier ones left, every batch has the result of Flush, and parents and boxes at the end are those of the run on the tables alone. |
| `FlushRuns.FitsShape` | src/core/stream/stream_manager.cpp:647-699 | Whether a batch fits, and the parents and boxes it leaves, do not depend on the cells objects are filed under. |
| `FlushRuns.FlushOrderIrrelevant` | src/core/stream/stream_manager.cpp:647-697 | Any two orders of the removals, of the upserts with parents first, and of the changed boxes with whole corners, whatever stored boxes are cached, leave the same parents and boxes, the same cell for every object above a changed one, and the other objects where they were. |

## Left out

- DenseTable.Table.TryEmplace: fewer than 2^24 - 2 values are required, because beyond that the 24-bit distance can wrap under a hash that sends all keys to one bucket (RobinHood.ProbeWordsFitIff); the overflow exceptions, at 2^32 values, are therefore never reached.
- DenseTable.Table.Emplace: the same bound on the number of values.
- DenseTable.Table.InsertOrAssign: the same bound on the number of values.
- DenseTable.Table.constructor: requested sizes up to the load limit of 2^32 buckets; above it the source shifts a 64-bit word by 64, which is undefined (DenseTable.Table.CalcShiftsForSize).
- DenseTable.Table.Rehash: the same bound on the requested count.
- DenseTable.Table.Reserve: the same bound on the requested capacity; the capacity of the vectors (reserve and shrink_to_fit) is not modelled, only the buckets.
- DenseTable.Table.Replace: at most 2^24 - 2 pairs in the container, as for the insertions.
- TableRuns.Run: that bound on the size of the map during the run, not on the length of the run.
- FixedSizedCache.Cache.constructor: that bound on the size of the cache, as its items are such a table.
- DenseTable.Table.Replace: the container is copied as a value; a table left without buckets after a move is covered by Reserve only.
- Changes of the maximal load factor, allocators, move and copy construction, swap, transparent lookup, iterators as objects and the segmented vector; positions stand for iterators.
- extract of the whole container from an expiring table.
- wyhash beyond the multiplication; the table is proved for every hash function.
- FixedSizedCache.Cache.ClearWithCallback: the order of the callbacks is that of the dense vector and is not stated.
- FixedSizedCache.Cache.Put: an exception thrown by the callback, and the mutex around each operation, are not modelled; the erase callback is a recorded history.
- FIFO and no-op policies, and the loading set of the scene cache: easy.
- Aabb.IntersectsSegment: exact over the reals for boxes with non-negative size; rounding, NaN and infinity are not modelled.
- Aabb.MergeLaws: merging is a function on values; that merge_with writes the box in place is not captured.
- find_intersects_ray, planes, edges and the other box helpers.
- Chunk.LevelOfBox: the rounded binary logarithm is a parameter, and the level is stated for the exact one and for one too low; its rounding is not modelled, nor the narrowing of estimates above 255.
- Chunk.ChunkHoldsCorner: coordinates must fit a 32-bit integer, as the conversion in the source is undefined otherwise.
- StreamDb.Db.QueryObjects: corners of query boxes are taken to fit a 32-bit integer, as the conversion in the source is undefined otherwise; the search inside the r-tree is modelled by its meaning.
- StreamTables.StoreLoadExact: both corners are taken to fit a 32-bit integer, for the same reason.
- StreamDb.Db.QueryObject: the parent only, as the batch uses it.
- SQLite: text of statements, prepared statements, transactions, error codes, files. Statements are pure updates; a rejected one changes nothing. Identifiers of new cells count up.
- FlushBatch.Flush: changed objects are stored, each once, and their parent chains have no cycle (ObjectFiling.WalkEndsIff: otherwise the walk does not end); the removal set is closed under stored descendants (FlushBatch.QueueStaysClosedIff); boxes given and boxes cached have corners on the 32-bit grid. The own box of an object is the stored one, the one given or, for an object that is not changed, the one cached when the batch began. It is the given one for a changed object below which no later changed one is; for the other objects the choice depends on evictions and is left open.
- FlushRuns.FlushOrderIrrelevant: fractional boxes are left out for that reason.
- FlushBatch.Flush: an object is refiled only when it or something below it changed, so an old parent keeps its cell after a child moved away or was removed; the batch is not claimed to equal its operations one by one.
- The map of results the batch fills and nobody reads.
- StreamManager.Manager.UnloadObject: scene nodes are identifiers in a set of living ones; saving, caching and detaching nodes are left out, and a node's exit signal is taken to arrive while it is detached.
- StreamManager.Manager.ObjectEntered: giving a new identifier to a node that has none (random) is left out; it then behaves as AddObject.
- StreamManager.Manager.ProcessRemovals: the rest of the frame is left out.
- StreamManager.Manager.RemoveNow: deleting scene files and cached scenes is left out.
- Probes, region requests, loading of scenes, the frame loop and all calls into the engine.
- AsyncDbWorker.WorkerCanMove: progress is stated as possible steps, runs that exist and bounds; fairness of the scheduler and the condition variable itself are not modelled.
- Tasks and callbacks that throw or push further tasks from inside: a push is an independent step.
- Uuid.FromString: on byte strings and wide strings alike a character is taken as a code unit; the platform, random and time-based generators are left out.
- SHA-1 beyond 2^29 bytes, where the digest differs from the standard (see Sha1.ShortFieldExact), and the overflow of the byte counter.
