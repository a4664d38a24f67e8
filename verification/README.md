# Bounded key/value cache engines, modelled in Dafny

This project models the four cache engines of the `cache` library. Each
engine maps keys to values, holds at most `capacity` entries and chooses a
victim when a new key arrives at a full cache. All four implement the
`CachePolicy` interface: `get`, `put`, `contains`, `size`, `capacity`,
`empty`, `clear` and `getPolicyName`.

- **LRU** (`LruCache`): a hash index over a doubly linked list between two
  sentinels. `get` and an updating `put` move the key to the front. A new
  key at a full cache evicts the tail, which is the least recently used key.
- **FIFO** (`FifoCache`): a hash index over a singly linked queue. Reads
  never reorder the queue, and an update keeps the key's position. A new key
  at a full cache evicts the head, which is the oldest key.
- **LFU** (`LfuCache`): a hash index over nodes that carry an access count.
  One `FrequencyBucket` per count lists its nodes, most recently touched
  first, and a running `min_frequency_` is kept. A hit moves the node to the
  next bucket. A new key at a full cache evicts the tail of the
  minimum-count bucket.
- **LRU-K** (`LruKCache`): a key is admitted only on its K-th `put`. Until
  then a history record keeps the times of its last accesses.

Each engine is a Dafny class whose fields are the C++ fields. Its methods
update those fields as the C++ member functions do. Linked nodes live in an
arena: a `seq` of slots indexed by integer handles that stand for pointers.
Ghost fields carry the abstract state:

- LRU: `Contents`, the map the cache answers for, and `Order`, the recency
  order.
- FIFO: `Contents` and `Queue`.
- LFU: `Contents`.
- LRU-K: `Contents()`, the promoted values.

A `Valid()` invariant ties the concrete structure to the abstract state.

The interface's promises are stated once, in module `CachePolicy`, as
predicates over the contents before and after a call:

- `GetSpec`: get returns the stored value, or KeyNotFound, and changes
  nothing.
- `PutSpec`: put is insert-or-update, and an insertion loses at most one
  other key.
- `EvictsOnly`: the victim is the one key that left.

Every engine's `get` and `put` ensure these predicates. Each engine also
states its own policy: which key is the victim, and how the order or the
buckets change.

Modules:

- `Sequences`: helpers over sequences.
- `CachePolicy`: the contract, the errors and the exception messages.
- `LinkedArena`: sentinel-bounded doubly linked lists in an arena.
- `Lru`, `Fifo`, `Lfu`, `LruK`: the four engines.
- `Scenarios`: an LRU-K run whose store grows past its capacity.

Where the code and its comments or documentation disagree, the model
follows the code:

- **Promoted-side victim.** When LRU-K evicts from the promoted store, it
  compares `access_times.back()`, which is the newest access. The
  documentation describes the K-th most recent access, the oldest in a full
  window. `CacheKthAccessTime` and `IsCacheVictim` follow the code, so
  promoted keys are evicted by least recent last access.
- **Store overflow.** When the store is full and the victim is a history
  record, LRU-K erases only that record and still promotes the new key.
  `size() <= capacity()` is therefore not an invariant of LRU-K.
  `LruK.LruKCache.Put` states this, and `Scenarios.StoreOverflows` shows a
  run with capacity 1 that ends with two promoted keys.
- **When LRU-K evicts.** It evicts only when a promotion finds the store
  full. The first access of a new key never evicts anything, although the
  documentation suggests otherwise.

## Model

| member | source | states |
|---|---|---|
| CachePolicy.What | include/CachePolicy.h:157-171 | the message of a CachePolicyException (here InvalidCapacityException) starts with "CachePolicy Error: " |
| CachePolicy.CheckCapacity | src/LruCache.cpp:7-9 | a capacity is accepted exactly when it is positive; otherwise the error is InvalidCapacity with that capacity, which is a CachePolicyException |
| CachePolicy.IntToStringRoundTrip | include/CachePolicy.h:168-170 | the decimal rendering of the capacity (std::to_string) can be read back as the same integer, negative values included |
| CachePolicy.InvalidCapacityMessageQuotesCapacity | include/CachePolicy.h:166-171 | the InvalidCapacityException message embeds exactly the rejected capacity between the fixed lead and tail texts |
| CachePolicy.PutUpdates | include/CachePolicy.h:41-49 | storing a new value under a present key is an insert-or-update that removes nothing |
| CachePolicy.PutInserts | include/CachePolicy.h:41-49 | inserting an absent key without eviction is an insert-or-update |
| CachePolicy.PutEvicts | include/CachePolicy.h:41-49 | inserting an absent key after evicting one present key is an insert-or-update whose only casualty is that victim |
| LinkedArena.RelinkEmpty | src/LruCache.cpp:16-17 | linking the head sentinel to the tail sentinel gives an empty list |
| LinkedArena.UnlinkCuts | src/LruCache.cpp:37-41 | redirecting a listed node's neighbours past it removes exactly that node from the list and keeps every item |
| LinkedArena.LinkFrontPrepends | src/LruCache.cpp:28-34 | splicing a detached node in after the head sentinel makes it the first node, the rest of the list unchanged |
| Lru.TouchReorders | src/LruCache.cpp:44-48 | a hit moves the key to the front, keeps the same keys without duplicates, and keeps the relative order of the others |
| Lru.AdmitBounded | src/LruCache.cpp:91-105 | a new key goes first; below capacity every key stays, at capacity exactly the last (least recently used) key leaves; the order never exceeds the capacity |
| Lru.LruCache.Create | src/LruCache.cpp:6-18 | fails with InvalidCapacity(capacity) exactly when capacity <= 0; otherwise a fresh, valid, empty cache |
| Lru.LruCache.constructor | src/LruCache.cpp:6-18 | the sentinels are linked to each other; nothing is cached; size 0 |
| Lru.LruCache.AddToHead | src/LruCache.cpp:28-34 | the node becomes the first of the list; no item changes |
| Lru.LruCache.RemoveNode | src/LruCache.cpp:37-41 | the node leaves the list, the rest keep their order, and the node itself keeps its links and item |
| Lru.LruCache.MoveToHead | src/LruCache.cpp:44-48 | the list becomes Touch of the old list: the node first, the others in order |
| Lru.LruCache.RemoveTail | src/LruCache.cpp:51-56 | returns the last listed node and drops it from the list |
| Lru.LruCache.Get | src/LruCache.cpp:59-77 | GetSpec with KeyNotFound("LRU"); a hit moves the key to the front of the recency order, a miss leaves the order; the index and size are unchanged |
| Lru.LruCache.Put | src/LruCache.cpp:80-107 | PutSpec; an existing key is updated and moved to the front; a new key is admitted at the front, and at capacity exactly the least recently used key is evicted (EvictsOnly) |
| Lru.LruCache.PutExisting | src/LruCache.cpp:85-89 | the value is replaced and the key moves to the front of the order |
| Lru.LruCache.PutNew | src/LruCache.cpp:90-106 | the order becomes Admit of the old order; the contents gain the key and lose the last key when full |
| Lru.LruCache.EvictLru | src/LruCache.cpp:94-100 | the last key of the order leaves the order, the index and the contents; size drops by one |
| Lru.LruCache.LinkNew | src/LruCache.cpp:102-105 | the new key goes first in the order and into the contents; size grows by one |
| Lru.LruCache.Contains | src/LruCache.cpp:110-113 | true exactly for the keys the cache answers for |
| Lru.LruCache.Size | include/LruCache.h:76-79 | the number of cached keys, never above the capacity |
| Lru.LruCache.Capacity | include/LruCache.h:82-84 | positive, and bounds the number of cached keys |
| Lru.LruCache.Empty | include/LruCache.h:87-90 | true exactly when nothing is cached |
| Lru.LruCache.Clear | src/LruCache.cpp:116-130 | nothing cached, empty order, the cache still valid and reusable |
| Fifo.EnqueueBounded | src/FifoCache.cpp:72-90 | a new key becomes the newest and the queue stays duplicate-free; below capacity every key stays, at capacity exactly the oldest leaves; a key leaves only after every older key; the queue never exceeds the capacity |
| Fifo.FifoCache.Create | src/FifoCache.cpp:6-14 | fails with InvalidCapacity(capacity) exactly when capacity <= 0; otherwise a fresh, valid, empty cache |
| Fifo.FifoCache.constructor | src/FifoCache.cpp:6-14 | head and tail are null, nothing cached, size 0 |
| Fifo.FifoCache.AddToTail | src/FifoCache.cpp:22-32 | the node is appended and becomes the tail; on an empty queue it is also the head |
| Fifo.FifoCache.RemoveHead | src/FifoCache.cpp:35-49 | on an empty queue returns null and changes nothing; otherwise returns the oldest node and dequeues it, and an emptied queue has null head and tail |
| Fifo.FifoCache.Get | src/FifoCache.cpp:52-61 | GetSpec with KeyNotFound("FIFO"); being a function of the state, it changes nothing, so the queue is never reordered |
| Fifo.FifoCache.Put | src/FifoCache.cpp:64-91 | PutSpec; an existing key gets the value and keeps its queue position and the size; a new key joins at the newest end, and at capacity exactly the oldest key is evicted (EvictsOnly) |
| Fifo.FifoCache.PutExisting | src/FifoCache.cpp:69-71 | only the stored value changes |
| Fifo.FifoCache.PutNew | src/FifoCache.cpp:72-90 | the queue becomes Enqueue of the old queue; the contents gain the key and lose the oldest when full |
| Fifo.FifoCache.EvictOldest | src/FifoCache.cpp:76-84 | the oldest key leaves the queue, the index and the contents; size drops by one |
| Fifo.FifoCache.LinkNew | src/FifoCache.cpp:86-89 | the new key joins at the newest end and enters the contents; size grows by one |
| Fifo.FifoCache.Contains | src/FifoCache.cpp:94-97 | true exactly for the keys the cache answers for |
| Fifo.FifoCache.Size | include/FifoCache.h:108-111 | the number of cached keys, never above the capacity |
| Fifo.FifoCache.Capacity | include/FifoCache.h:118-120 | positive, and bounds the number of cached keys |
| Fifo.FifoCache.Empty | include/FifoCache.h:128-131 | true exactly when nothing is cached |
| Fifo.FifoCache.Clear | src/FifoCache.cpp:100-114 | nothing cached, empty queue, head and tail null |
| Lfu.FrequencyBucket.AddToHead | src/LfuCache.cpp:7-13 | the key becomes the head of the bucket's list and size grows by one; a valid bucket stays valid |
| Lfu.FrequencyBucket.RemoveNode | src/LfuCache.cpp:16-20 | the key leaves the list, the others keep their order, and size drops by one; a valid bucket stays valid |
| Lfu.FrequencyBucket.RemoveTail | src/LfuCache.cpp:24-38 | nothing is removed when size is 0 or no node is linked; otherwise the last (least recently touched) key is removed and returned |
| Lfu.FrequencyBucket.Empty | include/LfuCache.h:68 | reads size; on a valid bucket, true exactly when no node is linked |
| Lfu.NewBucket | include/LfuCache.h:50-57 | a new bucket is valid with no nodes between its sentinels |
| Lfu.AddThenRemove | src/LfuCache.cpp:7-20 | unlinking a node just linked at the head gives the bucket back |
| Lfu.BumpFiled | src/LfuCache.cpp:63-85 | after a hit every cached key still sits in exactly the bucket of its count, the hit key now at count f + 1 |
| Lfu.BumpMin | src/LfuCache.cpp:74-76 | after a hit, the updated min_frequency_ is again the least count of a cached key, and its bucket is not empty |
| Lfu.BumpKeepsBooks | src/LfuCache.cpp:63-85 | the two steps of updateFrequency (leave bucket f, join bucket f + 1) compose to Bump and keep the buckets filed and the minimum right |
| Lfu.EvictKeepsFiled | src/LfuCache.cpp:88-100 | on a non-empty cache the minimum bucket has a tail, that key is cached, and removing it keeps the remaining keys filed |
| Lfu.VictimIsLeastFrequent | src/LfuCache.cpp:88-100 | the tail of the minimum bucket has the least count of any cached key, and every key with that count is in that bucket |
| Lfu.InsertKeepsBooks | src/LfuCache.cpp:151-162 | a new key with count 1 at the head of bucket 1, with min_frequency_ reset to 1, keeps the buckets filed and the minimum right |
| Lfu.SetValueKeepsBooks | src/LfuCache.cpp:135-136 | replacing a node's value leaves the buckets and the minimum right |
| Lfu.LfuCache.Create | src/LfuCache.cpp:41-45 | fails with InvalidCapacity(capacity) exactly when capacity <= 0; otherwise a fresh, valid, empty cache with no buckets and min_frequency_ 1 |
| Lfu.LfuCache.constructor | src/LfuCache.cpp:41-45 | nothing cached, no buckets, min_frequency_ 1 |
| Lfu.LfuCache.GetOrCreateBucket | src/LfuCache.cpp:53-60 | the bucket of the count exists afterwards, new and empty if it was missing, and is returned |
| Lfu.LfuCache.UpdateFrequency | src/LfuCache.cpp:63-85 | the key's count rises by exactly one, it moves from bucket f to the head of bucket f + 1, min_frequency_ rises exactly when bucket f was the minimum and is now empty, and the invariant holds again |
| Lfu.LfuCache.LeaveBucket | src/LfuCache.cpp:68-77 | the key is unlinked from the bucket of its old count, and min_frequency_ moves up exactly when that bucket was the minimum and is now empty |
| Lfu.LfuCache.JoinBucket | src/LfuCache.cpp:83-84 | the key is linked at the head of the bucket of its new count, which is created if missing |
| Lfu.LfuCache.EvictLfu | src/LfuCache.cpp:88-100 | on an empty cache nothing; otherwise the tail of the minimum bucket is removed and returned, never null |
| Lfu.LfuCache.Get | src/LfuCache.cpp:103-121 | GetSpec with KeyNotFound("LFU"); a miss leaves the index, the buckets and min_frequency_ unchanged; a hit raises the key's count by exactly one, moves it from bucket f to the head of bucket f + 1 (Bump) and updates min_frequency_ as BumpedMin |
| Lfu.LfuCache.Put | src/LfuCache.cpp:124-164 | PutSpec; an existing key gets the value and one more access (Bump); a new key enters bucket 1 with count 1 and min_frequency_ 1; at capacity the victim is the tail of the minimum bucket, a key of least count, and the only key lost (EvictsOnly) |
| Lfu.LfuCache.PutExisting | src/LfuCache.cpp:133-139 | the value is replaced and the count raised by one, the buckets bumped; the contents are updated |
| Lfu.LfuCache.WriteValue | src/LfuCache.cpp:135-136 | the node's value is replaced, its count kept |
| Lfu.LfuCache.PutNew | src/LfuCache.cpp:140-163 | below capacity the key is inserted; at capacity the least frequent, least recently touched key is evicted first; min_frequency_ becomes 1 |
| Lfu.LfuCache.EvictVictim | src/LfuCache.cpp:143-149 | the tail of the minimum bucket, a key of least count, leaves the index, its bucket and the contents, making room |
| Lfu.LfuCache.Insert | src/LfuCache.cpp:151-162 | the key enters the index with count 1 and the head of bucket 1; min_frequency_ becomes 1 |
| Lfu.LfuCache.Contains | src/LfuCache.cpp:167-170 | true exactly for the keys the cache answers for |
| Lfu.LfuCache.Size | include/LfuCache.h:154-157 | the number of cached keys, never above the capacity |
| Lfu.LfuCache.Capacity | include/LfuCache.h:164-166 | positive, and bounds the number of cached keys |
| Lfu.LfuCache.Empty | include/LfuCache.h:174-177 | true exactly when nothing is cached |
| Lfu.LfuCache.Frequency | src/LfuCache.cpp:195-203 | 0 exactly for an absent key; otherwise the key's access count, never below min_frequency_ |
| Lfu.LfuCache.MinFrequency | include/LfuCache.h:204-207 | at least 1; on a non-empty cache, the least access count of a cached key, attained by some key |
| Lfu.LfuCache.Clear | src/LfuCache.cpp:173-187 | nothing cached, no buckets, min_frequency_ 1 |
| LruK.WindowKeepsRecent | src/LruKCache.cpp:24-42 | a recorded access appends the current time and drops the oldest when more than K; the window keeps the most recent min(n + 1, K) times, ends with now and stays increasing |
| LruK.WindowOkStep | src/LruKCache.cpp:45-55 | sliding a well formed window keeps it between 1 and K increasing times before the advanced clock |
| LruK.CacheKthAccessTime | src/LruKCache.cpp:96-103 | TimeStamp::min for an empty window; otherwise the last element of the window (back()) |
| LruK.ComparedTimeIsNewest | src/LruKCache.cpp:96-103 | on an increasing window the time compared is the newest, no earlier than any access in it; on a full window of K >= 2 times it is strictly later than the K-th most recent access (front()) |
| LruK.LruKCache.Create | src/LruKCache.cpp:9-16 | capacity <= 0 fails with InvalidCapacity first, then K <= 0 with InvalidK; otherwise a fresh, valid cache with no history and nothing promoted |
| LruK.LruKCache.CreateDefault | include/LruKCache.h:114 | without an explicit K, K is 2 and only the capacity can be rejected |
| LruK.LruKCache.constructor | src/LruKCache.cpp:9-16 | no history, nothing promoted |
| LruK.LruKCache.RecordHistoryAccess | src/LruKCache.cpp:24-42 | the key's window gains the current time (a new window for a first access), the clock advances, and a window that reaches K makes the key due for promotion |
| LruK.LruKCache.RecordCacheAccess | src/LruKCache.cpp:45-55 | the promoted key's window slides by the current time; nothing else changes |
| LruK.LruKCache.PromoteToCache | src/LruKCache.cpp:58-75 | a key with no history is a bookkeeping error that changes nothing; otherwise the key moves from the history to the cache with the value and its window |
| LruK.LruKCache.FindVictimKey | src/LruKCache.cpp:106-154 | an error exactly when no history record is short of K and nothing is promoted; otherwise a key satisfying the victim rule (IsVictim) |
| LruK.LruKCache.FindHistoryVictim | src/LruKCache.cpp:115-131 | none exactly when no history record is short of K; otherwise such a record whose first access is the earliest |
| LruK.LruKCache.FindCacheVictim | src/LruKCache.cpp:138-153 | a promoted key whose newest access is the earliest |
| LruK.LruKCache.Get | src/LruKCache.cpp:157-170 | GetSpec with KeyNotFound("LRU-K"); a hit slides the key's window, a miss changes nothing; the history is never touched |
| LruK.LruKCache.Put | src/LruKCache.cpp:173-217 | a promoted key gets the value and an access; any other key gets a history access; the put that brings the window to K promotes the key with this value, evicting a victim (IsVictim) first when the store is full; a history victim leaves only the history, so the store grows |
| LruK.LruKCache.PutCached | src/LruKCache.cpp:181-186 | the promoted key gets the value and a slid window; the contents are updated |
| LruK.LruKCache.PutPromote | src/LruKCache.cpp:193-215 | a victim is chosen exactly when the store is full, never the promoted key; it is erased from the cache or from the history; then the key is promoted |
| LruK.LruKCache.Contains | src/LruKCache.cpp:220-224 | true exactly for promoted keys |
| LruK.LruKCache.Size | include/LruKCache.h:152-155 | the number of promoted keys; history-only keys do not count |
| LruK.LruKCache.Capacity | include/LruKCache.h:162-164 | positive, the constructor's value |
| LruK.LruKCache.Empty | include/LruKCache.h:172-175 | true exactly when nothing is promoted, whatever the history holds |
| LruK.LruKCache.GetK | include/LruKCache.h:194 | positive, the constructor's value |
| LruK.LruKCache.Clear | src/LruKCache.cpp:227-231 | both the history and the promoted store are empty |
| LruK.LruKCache.PolicyName | src/LruKCache.cpp:234-237 | "LRU-" followed by K in decimal, from which K reads back |
| LruK.LruKCache.HistoryAccessCount | src/LruKCache.cpp:240-247 | 0 exactly for a key without history; otherwise exactly the length of the key's history window, always below K |
| LruK.LruKCache.CacheAccessCount | src/LruKCache.cpp:250-257 | 0 exactly for a key that is not promoted; otherwise exactly the length of the key's cache window, at most K |
| Scenarios.HistoryVictimIsTwo | src/LruKCache.cpp:115-131 | when one history record is still short of K and the other is complete, the victim rule must pick the short one |
| Scenarios.OnlyHistoryVictimLeaves | src/LruKCache.cpp:199-214 | when the full store of 1 meets the promotion of 3 and the victim is not promoted, the victim is 2, which leaves only the history, while 3 joins 1 in the store |
| Scenarios.OnePromoted | src/LruKCache.cpp:189-215 | with K = 2, the second put of a key promotes it and leaves no history |
| Scenarios.TwoPending | src/LruKCache.cpp:24-42 | a first put only starts a history window of one access |
| Scenarios.SecondPutOfThree | src/LruKCache.cpp:199-214 | in a full store of capacity 1, promoting 3 drops only the history record of 2, leaving 1 and 3 promoted |
| Scenarios.StoreOverflows | src/LruKCache.cpp:199-214 | capacity 1, K = 2, puts 1, 1, 2, 3, 3: size is 2, above the capacity, with 1 and 3 cached and 2 forgotten |

## Left out

- Locking and atomics (`std::shared_mutex`, `std::atomic` fields) are left out. Each operation is one atomic step. The window in which LRU and LFU `get` release the read lock and take the write lock is not modelled.
- `new`/`delete`, destructors and sentinel allocation are not modelled. The arenas only grow, and a deleted node stays in its slot, unreachable.
- `steady_clock::now()` is replaced by a logical clock that advances by one per recorded access. Only the order of timestamps matters to the engine.
- LFU bucket lists are modelled as sequences of keys, not linked nodes between sentinels. A bucket is owned by its one map entry (`unique_ptr`) and never aliased, so it is a value that the cache's methods replace in the map. The pointer splicing is the same as LRU's, which LinkedArena models and proves.
- Lfu.LfuCache.Put and Lfu.LfuCache.PutExisting state the update of an existing key key by key (`Replaced`) rather than as a map update. `Lfu.ReplacedIsStore` proves the two forms equivalent.
- The `capacity_ == 0` early return in LFU `put` (src/LfuCache.cpp:127-129) is not modelled. The constructor makes it unreachable.
- `getKthAccessTime` (src/LruKCache.cpp:79-92) is never called, so it is not modelled.
- `CachePolicyFactory::createPolicy` is declared but never defined, so it is not modelled.
- The abstract base class `CachePolicy` is not a Dafny type. Its promises are the predicates `GetSpec`, `PutSpec` and `EvictsOnly`, which each engine's methods ensure of their own contents.
- LruK.LruKCache.Put does not ensure `PutSpec`. A put of a key that is not promoted only records history, so the key is not yet answered for, and the LRU-K put is not insert-or-update.
- LruK.LruKCache.FindVictimKey leaves ties on equal timestamps open. It promises some key with a minimal timestamp, because the C++ code takes whichever key `unordered_map` iteration meets first.
- Counters and sizes are unbounded integers, and 32-bit wrap-around is not modelled. In the C++ code an LFU node's `frequency` and `min_frequency_` are `int` and grow by one per hit, so 2^31 - 1 hits on one key overflow them (signed overflow, undefined behaviour). The model therefore holds only for fewer than 2^31 accesses per key and fewer than 2^31 entries.
- The policy names "LRU", "FIFO" and "LFU" are constant functions without contracts.
- The unit tests, the thread tests and the demo or benchmark drivers are not modelled. `Scenarios` is not taken from a test. It is a run built to show the overflow at src/LruKCache.cpp:199-214.
