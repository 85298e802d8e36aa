# KVMemo: verification model

KVMemo is an in-memory key-value store with TTLs, LRU eviction and a line-based TCP protocol. This
project models its storage core (`src/core`, `src/eviction`) and its wire pipeline (`src/protocol`,
the dispatcher and the frame loop of the server) in Dafny, and proves what the redundant data
structures keep, what a shard and the engine promise over whole histories of operations, and what a
client can rely on from the bytes it sends to the bytes it gets back.

`dafny verify dfyconfig.toml` checks the whole project.

## How the model is built

Every stateful component has two descriptions.

- A *value* with a function per operation: `ShardStates`, `Timelines` (the TTL index),
  `EvictionStates`, `EngineStates`, and the functions of `Framing`, `Parser`, `Serializer`,
  `Dispatchers` and `ServerApps`. The theorems about whole runs are about these.
- A *class* in the source's own form: a doubly linked list of heap nodes with a map into it
  (`LRUCache`), ordered buckets with a reverse map (`TTLIndex`), and `Shard`, `ShardManager`,
  `MemoryTracker`, `LRUPolicy`, `EvictionManager`, `KVEngine`, `Buffer`, `Dispatcher`, `Connection`
  and `ServerApp` on top of each other. Each method is proved to perform exactly the step that the
  functions describe, on every state that satisfies the class invariant.

| file | what it holds |
|---|---|
| Common, Sequences, Recency, Entry | integer width, deleting from duplicate-free sequences, recency orders, entries with deadlines |
| LruCache, Timeline, TtlIndex | the recency tracker; the TTL index as a timeline and as buckets |
| ShardState, ShardTheorems, Shard | one shard: steps, run theorems, class |
| EvictionState, EvictionManager | byte counter and eviction loop: steps and arithmetic, classes |
| EngineState, EngineTheorems, ShardManager, KvEngine | the engine: steps, run theorems, classes |
| Buffer, Framing, Parser, Serializer, Listing, Dispatcher, ServerApp | the wire pipeline, stage by stage |
| PlainServer, Pipeline | the reference server on one plain map; the pipeline end to end, from bytes to bytes |

Conventions of the model:

- Clock readings are arguments. Where a property needs a clock that does not run backwards, it says
  so. Deadlines and the byte counter are 64-bit words and wrap.
- The hash function and the iteration order of hash tables are arbitrary constants (`hash`, `scan`).
- A method that runs under a mutex is one step. A C++ exception is a result (`Outcome.Thrown`); a
  constructor that rejects an argument has a precondition instead.
- A byte is a `char`; strings are byte strings.
- Automatic induction is off for every lemma; inductions are written out.

## What the code does differently from what is promised

The model follows the code. Where a promise fails, the exact condition is proved.

- A write with a TTL of 0, or whose deadline wraps to 0, does not clear an earlier record in the
  shard's TTL index. A sweep then removes a live entry. The index stays exact if and only if no such
  write overwrites an indexed key (`IndexExactIffClean`); sweeps are unobservable if and only if
  every due record belongs to an expired entry (`SweepUnobservable`); without this, a smaller shard
  can answer where a larger one does not (`InclusionFailsWithZeroTtl`). Only sweeps can do that:
  inclusion holds throughout a run if and only if each of its sweeps agrees (`CapacityInclusion`);
  from empty shards, if and only if no sweep takes from the larger one a key that the smaller one
  stores without a record (`CapacityInclusionFromEmpty`). No operation of the engine runs these
  sweeps, so larger shards never lose an answer there (`LargerShardsAnswerMore`), memory eviction
  aside.
- The engine computes its own deadline from a second clock reading. Its index covers the shards'
  deadlines if and only if the TTL is positive, the first sum is not exactly 2^64, and either both
  sums wrap or neither does (`ApplyExpirySafe`). Otherwise expiry processing can drop a live key; a
  TTL of 0 always makes it do so (`ZeroTtlIsLost`).
- The engine is a plain map with deadlines if and only if no step of the history loses a live entry:
  by shard overflow, by expiry or by eviction processing (`RefinesPlainMap`). No request of the
  protocol runs expiry or eviction processing, so on the wire only overflow can do it
  (`RequestsNeverSweep`, `WireIsPlainMapWhenFitting`).
- The byte counter moves by 100 per call, whether or not the key was there. It can therefore ask for
  more victims than there are keys; then the policy throws, the keys already taken from it stay in
  the shards, and global and local recency part (`EvictionCanLoseTrack`). Exactly when this happens:
  `CompletesIff`, `CollectableIffEnough`, `ApplyRecent`.
- A KEYS response joins key and value by a colon without escaping. A client that splits the lines at
  the first colon gets the pairs if and only if no key holds a colon (`PairsReadBack`): the stores
  {a -> b:c} and {a:b -> c} have the same listing (`ColonIsAmbiguous`). No key is listed twice, and
  the pairs are the only such reading of the text if and only if every other key that a line can be
  read with is the key of another line that cannot take the first one's key in turn
  (`TextDeterminesListing`): {a:b -> c, a -> d} can be recovered (`OtherLinesSettle`).
- `LRUCache::Touch` reports an overflow on every insertion beyond the capacity but evicts nothing;
  tests/test_kv.cpp:353-355 expects the size to stay at the capacity. Only the shard enforces it.
- docs/PROTOCOL.md:6 and its line 39 describe length-prefixed framing; the code splits requests at
  CR LF. docs/PROTOCOL.md:635 shows a blank after `-ERR`; the code writes none.
- An error message that holds a CR LF would make the response stream ambiguous
  (`UnsendableIsAmbiguous`); no message the dispatcher makes holds one (`ResponsesAreSendable`).

## Model

| member | source | states |
|---|---|---|
| Entries.Lifetime | src/core/entry.h:50-52 | for every TTL and clock reading, when an entry is expired: never for a TTL of 0 or a sum of exactly 2^64, at once for a larger sum, after the TTL otherwise |
| LruCaches.LRUCache.Touch | src/core/lru_cache.h:68-80 | list relinking and map together perform move-to-front on a duplicate-free order, whether or not the key was tracked; overflow is reported exactly for an insertion beyond the capacity |
| LruCaches.LRUCache.Remove | src/core/lru_cache.h:85-93 | the order loses exactly that key, links and map stay consistent |
| LruCaches.LRUCache.PopEvictionCandidate | src/core/lru_cache.h:109-118 | returns and drops the last key of the order; throws, changing nothing, exactly when there is none |
| Recency.MoveToFrontFacts | src/core/lru_cache.h:68-80 | touching keeps the order duplicate-free and adds just that key; the length grows only on insertion |
| TtlIndexes.TTLIndex.Upsert | src/core/ttl_index.h:54-59 | buckets and reverse map stay inverse; the key leaves its old place and joins the timeline behind everything due no later |
| TtlIndexes.TTLIndex.Remove | src/core/ttl_index.h:64-89 | the scan of the bucket finds the key; timeline and map lose exactly it, empty buckets disappear |
| TtlIndexes.TTLIndex.CollectExpired | src/core/ttl_index.h:94-108 | returns the due keys, each once, in timeline order, and leaves exactly the rest |
| TtlIndexes.WithKeyFlatten | src/core/ttl_index.h:57-58 | adding a key to the bucket of its deadline is insertion into the timeline between the due and the not due |
| Timelines.RunInOrder | src/core/ttl_index.h:54-108 | after any history of upserts, removals and collections the timeline lists the indexed keys once, by deadline and then by latest upsert |
| Timelines.CollectReturnsDueInOrder | src/core/ttl_index.h:94-108 | after any history a collection returns exactly the due keys by ascending deadline, ties by latest upsert, as a prefix of the timeline |
| Timelines.IndexIsLastDeadline | src/core/ttl_index.h:54-108 | after any history a key is indexed with the deadline of its last upsert, unless it was removed or collected since |
| ShardStates.PutFacts | src/core/shard.h:84-120 | the key just written survives its own eviction and is in front; the victim, if any, is the former last key and leaves all indexes |
| ShardStates.ApplyKeepsInvariants | src/core/shard.h:84-203 | every public operation keeps store, recency order and TTL index in agreement and within capacity; the TTL index stays exact if and only if the operation leaves no stale record |
| ShardStates.ExactMeansIndexOfStore | src/core/shard.h:44-46 | exactness is: the TTL index is the stored keys with a deadline, mapped to it |
| ShardTheorems.RunKeepsConsistent | src/core/shard.h:84-203 | the agreement holds after any run |
| ShardTheorems.IndexExactIffClean | src/core/shard.h:102-120 | the TTL index is exact throughout a run if and only if no write of the run overwrites an indexed key with an entry that never expires |
| ShardTheorems.RealDeadlinesAreClean | src/core/shard.h:102-120 | runs whose TTL writes all get a nonzero deadline are clean |
| ShardTheorems.SweepRemovesTheExpired | src/core/shard.h:193-203 | a sweep removes every expired entry and keeps the relative order of the others; it removes nothing else if and only if every due record belongs to an expired entry, as in every exact shard |
| ShardTheorems.SweepUnobservable | src/core/shard.h:193-203 | a sweep changes no later answer if and only if every due record belongs to an expired entry; always so in an exact shard |
| ShardTheorems.MissRemoves | src/core/shard.h:129-147 | a read that misses leaves nothing of its key in store, recency order and TTL index, and everything else as it was |
| ShardTheorems.HitMovesToFront | src/core/shard.h:129-147 | a read that hits moves its key to the front and changes nothing else |
| ShardTheorems.ExpiredReadMakesRoom | src/core/shard.h:139-143 | after a read has found an expired entry the next write evicts nothing |
| ShardTheorems.DeleteRemoves | src/core/shard.h:152-156 | a deletion leaves nothing of its key, and everything else as it was |
| ShardTheorems.IncludedAfterStep | src/core/shard.h:84-203 | in any consistent states: writes, reads and deletes always keep inclusion, a sweep if and only if no due record of the large shard hits a key the small one keeps and the large one does not get too far ahead |
| ShardTheorems.CapacityInclusion | src/core/shard.h:84-203 | no Belady anomaly, exactly: on the same run a larger shard includes a smaller one at every moment, in the same order and ahead by at most the difference of capacities, if and only if every sweep of the run agrees |
| ShardTheorems.CapacityInclusionFromEmpty | src/core/shard.h:84-203 | from empty shards the condition needs no sizes: no sweep finds a due record in the large shard for a key that the small one stores without a record |
| ShardTheorems.InclusionSharesHits | src/core/shard.h:129-147 | under inclusion every hit of the small shard is the same hit of the large one |
| ShardTheorems.UnsweptRunsInclude | src/core/shard.h:84-156 | runs without sweeps include whatever their TTLs, deadlines of 0 over indexed keys included |
| ShardTheorems.CleanRunsInclude | src/core/shard.h:84-203 | from exact states, runs that leave no stale record include, with any sweeps |
| ShardTheorems.EmptyShardsIncluded | src/core/shard.h:68-71 | empty shards of any two capacities start out included |
| ShardTheorems.InclusionFailsWithZeroTtl | src/core/shard.h:111-114 | on a concrete run with a TTL of 0, for any two keys, the shard of capacity 1 answers the value and the one of capacity 2 misses |
| ShardTheorems.Retention | src/core/shard.h:84-147 | in any consistent shard a key in front stays, with its answers, through any run that writes or hits fewer than `capacity` distinct other keys and neither deletes it nor sweeps past its record; its position never exceeds their number; read misses do not count |
| ShardTheorems.RecordIsDeadline | src/core/shard.h:193-203 | a sweep reaches the record of a key exactly when its entry has expired, unless the record is a stale one |
| ShardTheorems.RetentionSinceLastUse | src/core/shard.h:84-147 | the same counted from any write or hit of the key in any consistent state |
| ShardTheorems.RetentionIsTight | src/core/shard.h:84-120 | among runs of writes the key stays if and only if fewer than `capacity` distinct other keys end up ahead of it |
| ShardTheorems.AheadIsPosition | src/core/lru_cache.h:145 | the number of keys used more recently is the position in the order |
| ShardTheorems.OrderIsByLastUse | src/core/shard.h:84-147 | after any run the recency order is the order of last writes and hits, latest first |
| ShardTheorems.EvictsOldestUse | src/core/shard.h:55-65 | an overflowing write evicts exactly one key, the stored one whose last use is the oldest |
| Shards.Shard.EvictOne | src/core/shard.h:55-65 | drops the last key of the order from all three parts; nothing on an empty shard |
| Shards.Shard.RemoveInternal | src/core/shard.h:48-53 | drops the key from all three parts |
| Shards.Shard.Set | src/core/shard.h:84-97 | performs the Set step on store, tracker and TTL index and keeps them consistent |
| Shards.Shard.SetWithTTL | src/core/shard.h:102-120 | performs the SetWithTTL step, indexing only entries that have a deadline |
| Shards.Shard.Get | src/core/shard.h:129-147 | answers exactly the stored unexpired value; touches on a hit, removes an expired entry |
| Shards.Shard.Delete | src/core/shard.h:152-156 | performs the Delete step |
| Shards.Shard.GetAllKeys | src/core/shard.h:172-188 | lists in iteration order the entries that are live when visited, each with its own clock reading |
| Shards.Shard.CleanupExpired | src/core/shard.h:193-203 | the loop over collected keys removes the due keys from all three parts |
| EngineStates.RouteIsRemainder | src/core/shard_manager.h:133-136 | the shard of a key is the unique remainder of its hash by the shard count: exactly the hashes that differ by a multiple of it share a shard |
| ShardManagers.ShardManager.constructor | src/core/shard_manager.h:40-49 | the given number of separate, empty shards of the given capacity |
| ShardManagers.ShardManager.Set | src/core/shard_manager.h:62-64 | changes the shard the key is routed to and no other |
| ShardManagers.ShardManager.SetWithTTL | src/core/shard_manager.h:69-71 | changes the shard the key is routed to and no other |
| ShardManagers.ShardManager.Get | src/core/shard_manager.h:76-78 | answers for the shard the key is routed to and changes no other |
| ShardManagers.ShardManager.Delete | src/core/shard_manager.h:83-85 | changes the shard the key is routed to and no other |
| ShardManagers.ShardManager.GetAllKeys | src/core/shard_manager.h:92-111 | the two loops join the live entries of all shards, shard by shard |
| ShardManagers.ShardManager.CleanupExpired | src/core/shard_manager.h:116-120 | sweeps every shard once with the same time |
| EvictionStates.CollectTakesTail | src/eviction/eviction_manager.h:124-141 | the victims are the tail of the recency order, oldest first |
| EvictionStates.CollectReturnsCharges | src/eviction/eviction_manager.h:129-138 | each victim returns one charge modulo 2^64; the loop ends within the limit or with nothing left |
| EvictionStates.CollectWithoutWrap | src/eviction/eviction_manager.h:124-141 | unless the counter wraps, the loop completes if and only if enough keys are tracked; then it takes exactly the excess divided by 100, rounded up, and ends in (max - 100, max] |
| EvictionStates.LimitOfOneChargeNeverWraps | src/eviction/memory_tracker.h:72-95 | with a limit of at least 100 bytes the counter cannot wrap in the loop |
| EvictionStates.CollectWithWrap | src/eviction/memory_tracker.h:72-74 | when the last release takes the counter below zero, the policy is drained and throws |
| EvictionStates.CompletesIff | src/eviction/eviction_manager.h:124-141 | for every usage, limit and number of keys, exactly when eviction returns normally: enough keys are tracked and the counter does not pass zero, or there are so many keys that it comes down from 2^64 again |
| EvictionStates.CollectableIffEnough | src/eviction/eviction_manager.h:124-141 | with a limit of at least 100 bytes, or fewer keys than fit the machine word, the condition is: 100 times the keys needed is at most the usage, and that many are tracked |
| EvictionManagers.MemoryTracker.Reserve | src/eviction/memory_tracker.h:63-66 | adds modulo 2^64 and reports whether the new usage is within the limit |
| EvictionManagers.MemoryTracker.Release | src/eviction/memory_tracker.h:72-74 | subtracts modulo 2^64 |
| EvictionManagers.LRUPolicy.SelectVictim | src/eviction/eviction_manager.h:68-70 | the least recently used key, or an exception, never "no victim" |
| EvictionManagers.EvictionManager.OnRead | src/eviction/eviction_manager.h:93-96 | touches the key, counter unchanged |
| EvictionManagers.EvictionManager.OnWrite | src/eviction/eviction_manager.h:102-109 | charges 100 and touches the key; evicts nothing |
| EvictionManagers.EvictionManager.OnDelete | src/eviction/eviction_manager.h:114-119 | returns 100 and forgets the key, known or not |
| EvictionManagers.EvictionManager.CollectEvictionCandidates | src/eviction/eviction_manager.h:124-141 | the loop terminates with exactly the victims, state and outcome of the recursive description |
| KvEngines.KVEngine.constructor | src/core/kv_engine.h:36-41 | the engine state is that of its three components |
| KvEngines.KVEngine.Set | src/core/kv_engine.h:56-73 | without TTL: shard, engine index and eviction manager together perform the Set step |
| KvEngines.KVEngine.SetWithTTL | src/core/kv_engine.h:59-72 | with TTL: the same with two clock readings |
| KvEngines.KVEngine.Get | src/core/kv_engine.h:78-87 | answers from the home shard and reports a hit, and only a hit, to the policy |
| KvEngines.KVEngine.Delete | src/core/kv_engine.h:92-96 | deletes from the home shard, the engine index and the policy |
| KvEngines.KVEngine.GetAllKeys | src/core/kv_engine.h:103-105 | lists what all shards list |
| KvEngines.KVEngine.ProcessExpired | src/core/kv_engine.h:111-119 | the loop deletes exactly the due keys of the engine index, each from its home shard and the policy |
| KvEngines.KVEngine.ProcessEvictions | src/core/kv_engine.h:121-128 | the loop deletes exactly the victims from their home shards and the engine index; when the policy throws, shards and index are untouched |
| EngineTheorems.RunValid | src/core/shard_manager.h:133-136 | after any history every shard is consistent, every key is stored only in shard hash(k) mod n, and the policy tracks no key twice |
| EngineTheorems.NoStaleAnswers | src/core/kv_engine.h:56-128 | after any history, sweeps, evictions and throwing evictions included, an answer is the value of the last write of the key, not deleted since and not expired |
| EngineTheorems.RunLeavesNothing | src/core/kv_engine.h:56-128 | after any history the policy tracks, and the engine index lists, only keys whose last write was not deleted since, the index only with the deadline of that write |
| EngineTheorems.DropsLeaveNoTrace | src/core/kv_engine.h:92-128 | deletions, expiry processing and completed evictions remove exactly their keys from shards, policy and engine index, and leave what the three know about all other keys |
| EngineTheorems.ApplyTracked | src/core/kv_engine.h:56-128 | an operation keeps the engine index within the keys that the policy tracks, if and only if it is not an eviction that throws while a key is indexed |
| EngineTheorems.TrackedThroughoutIff | src/core/kv_engine.h:56-128 | the same over whole histories |
| EngineTheorems.MissRemoves | src/core/kv_engine.h:78-87 | a read that misses leaves nothing of its key in any shard |
| EngineTheorems.ReadsKeepIndex | src/core/kv_engine.h:78-87 | a read changes neither the engine index nor the byte counter |
| EngineTheorems.ApplyExpirySafe | src/core/kv_engine.h:59-70 | an operation keeps the engine index above all stored deadlines, with no stored key that never expires, if and only if it is not an incoherent TTL write |
| EngineTheorems.CoherentMeansCovers | src/core/kv_engine.h:62-65 | what coherence of a TTL write means for the record it makes |
| EngineTheorems.SafeThroughoutIffCoherent | src/core/kv_engine.h:56-128 | the two indexes agree throughout a history if and only if every TTL write of it is coherent |
| EngineTheorems.ProcessExpiredUnobservable | src/core/kv_engine.h:111-119 | expiry processing then changes no answer from its clock reading on, stale index records notwithstanding |
| EngineTheorems.ProcessExpiredUnobservableIff | src/core/kv_engine.h:111-119 | in any state: it is unobservable if and only if every due key would be answered by a miss anyway |
| EngineTheorems.ApplyAgrees | src/core/kv_engine.h:56-128 | a step keeps every live entry of the plain map stored if and only if it evicts, expires or drops no entry that a Get would still find |
| EngineTheorems.RefinesPlainMap | src/core/kv_engine.h:56-128 | exact refinement: for any shard count, hash and history under a clock that does not run backwards, the engine answers at every moment as one plain map with deadlines if and only if no step loses a live entry |
| EngineTheorems.RefinesPlainMapWhenFitting | src/core/kv_engine.h:56-119 | without memory evictions, and with shards large enough for the keys written: if and only if each expiry processing finds only keys that would miss anyway; always so when there is none, whatever the TTLs |
| EngineTheorems.RefinesPlainMapWithFittingTtls | src/core/kv_engine.h:56-119 | and always so with positive TTLs whose sums fit 64 bits, expiry processing included |
| EngineTheorems.ZeroTtlIsLost | src/core/kv_engine.h:59-70 | from any valid state, a write with a TTL of 0 is answered at every time, and after the next expiry processing at none |
| EngineTheorems.CapacityInclusion | src/core/kv_engine.h:56-128 | engines with the same hash and shard count: on the same history the one with larger shards includes the other, shard by shard, at every moment if and only if what the two drop on expiry and eviction processing agrees |
| EngineTheorems.LargerShardsAnswerMore | src/core/kv_engine.h:56-119 | so without memory evictions, with any expiry processing and any TTLs, every answer of the small engine is the same answer of the large one |
| EngineTheorems.EmptyEnginesIncluded | src/core/shard_manager.h:40-49 | empty engines of any two shard capacities meet these requirements |
| EngineTheorems.EmptyEngineStarts | src/server/server_app.h:29-35 | the empty engine meets the requirements of all run theorems |
| EngineTheorems.ApplyRecent | src/core/kv_engine.h:56-128 | an operation keeps every shard's recency order a subsequence of the policy's, if and only if it is not an eviction that throws while a key is stored |
| EngineTheorems.RecentThroughoutIff | src/core/kv_engine.h:56-128 | global and local recency agree throughout a history if and only if no eviction of it throws while a key is stored |
| EngineTheorems.LocalRecencyIsGlobal | src/eviction/eviction_manager.h:56-66 | shard and policy agree which of two keys of a shard was used more recently |
| EngineTheorems.EvictionTakesShardSuffix | src/core/kv_engine.h:121-128 | memory eviction removes a suffix of every shard's own order: no survivor of a shard was used less recently than a victim of it |
| EngineTheorems.RunIsProjected | src/core/shard_manager.h:62-85 | without sweeps and evictions a shard goes through exactly the operations on its own keys, in order |
| EngineTheorems.RetentionAfterHit | src/core/kv_engine.h:56-96 | after a hit a key keeps its answers through any such history that is about fewer other keys than its shard has room for |
| EngineTheorems.EvictionCanLoseTrack | src/eviction/eviction_manager.h:102-141 | three writes of one key under a limit of 100 bytes: eviction throws, the key is still served, and the policy no longer knows it |
| EngineTheorems.UsageLaw | src/eviction/eviction_manager.h:102-141 | after any history the counter is 100 times writes minus deletes, expired keys and victims, modulo 2^64 |
| EngineTheorems.ListingIsAllAnswers | src/core/shard_manager.h:92-111 | the listing holds every key exactly once, with the value a Get would answer at the moment the entry was visited, and nothing else |
| Buffers.Buffer.Append | src/protocol/buffer.h:44-53 | the readable bytes grow by the data |
| Buffers.Buffer.Consume | src/protocol/buffer.h:72-84 | the readable bytes lose exactly that prefix, reclaiming or not; too large a request throws and changes nothing |
| Buffers.Buffer.Clear | src/protocol/buffer.h:89-92 | nothing is readable |
| Framing.FirstCrlfIsFirst | src/protocol/framing.h:56-66 | the search finds the first CR LF, and none exactly when there is none |
| Framing.NextFrame | src/protocol/framing.h:49-75 | extracts the bytes before the first CR LF and consumes them with it; otherwise leaves the buffer alone |
| Framing.DrainConserves | src/protocol/framing.h:49-75 | frames, each followed by CR LF, and remainder spell the received bytes; neither holds a CR LF |
| Framing.DrainInvertsPrint | src/protocol/framing.h:49-75 | frames and rest come back exactly if and only if none has an inner CR LF; a trailing CR does no harm |
| Framing.DrainConcat | src/protocol/framing.h:49-75 | draining in two steps is draining at once, wherever the stream is cut |
| Parser.Parse | src/protocol/parser.h:43-62 | the loop collects the tokens; throws exactly when there is none |
| Parser.TokensAreTheWords | src/protocol/parser.h:45-52 | the tokens are the only words of which the input is a spacing: the maximal blank-free runs in order |
| Parser.TokensOfJoin | src/protocol/parser.h:45-52 | any spacing of given words is read back as these words |
| Parser.FailsIffBlank | src/protocol/parser.h:54-56 | parsing fails if and only if the input is blank |
| Parser.SpaceIsOneOfSix | src/protocol/parser.h:50 | white space is exactly blank, tab, line feed, vertical tab, form feed and carriage return |
| Parser.SixSeparate | src/protocol/parser.h:45-52 | each of these six separates two words; no other character does |
| Parser.ParseInvertsPrint | src/protocol/parser.h:43-62 | a request is read back from its single-space form if and only if it is made of words |
| Parser.ParsePrintParse | src/protocol/parser.h:43-62 | parsing, printing and parsing again gives the same request |
| Serializer.NumberOfDecimal | src/protocol/serializer.h:71 | decimal lengths are read back |
| Serializer.DecimalIsTheNumeral | src/protocol/serializer.h:71 | the printed length is the only numeral of that number without superfluous zeros |
| Serializer.ResponseBytes | src/protocol/serializer.h:49-87 | the bytes of every response |
| Serializer.DecodeInvertsSerialize | src/protocol/serializer.h:49-87 | a response is read back, whatever follows it, if and only if it is no error message with a CR LF |
| Serializer.StreamDecodes | src/protocol/serializer.h:49-87 | the same for streams, whatever the payloads hold |
| Serializer.StreamsAreUnambiguous | src/protocol/serializer.h:49-87 | two different sequences of such responses never look the same |
| Serializer.UnsendableIsAmbiguous | src/protocol/serializer.h:80-87 | with a CR LF in an error message one response and two are the same bytes |
| Dispatchers.Dispatcher.Dispatch | src/server/dispatcher.h:49-89 | every request, malformed ones included, gets the described response and engine step |
| Dispatchers.Dispatcher.HandleSet | src/server/dispatcher.h:92-105 | stores without TTL, or reports missing arguments and changes nothing |
| Dispatchers.Dispatcher.HandleGet | src/server/dispatcher.h:107-124 | the engine's answer or "Key not found" |
| Dispatchers.Dispatcher.HandleDelete | src/server/dispatcher.h:126-138 | deletes, known key or not |
| Dispatchers.Dispatcher.HandleSetEx | src/server/dispatcher.h:140-173 | stores with a positive 64-bit TTL, or reports which check failed and changes nothing |
| Dispatchers.Dispatcher.HandleKeys | src/server/dispatcher.h:178-200 | the loop prints one line per listed pair, without the last line break; changes nothing |
| Listings.TextIsLines | src/server/dispatcher.h:187-197 | the text is the pairs, key and value joined by a colon, with a line feed between two of them |
| Listings.ListingReadsBack | src/server/dispatcher.h:187-197 | for keys and values that are words, the words of a KEYS response are exactly the lines "k:v" of the listed pairs |
| Listings.PairsReadBack | src/server/dispatcher.h:187-197 | splitting each line at its first colon gives the pairs back if and only if no listed key holds a colon |
| Listings.TextDeterminesListing | src/server/dispatcher.h:187-197 | of the listings of words that list no key twice no other one has the same text, if and only if every other key that a line can be read with is the key of another line, which cannot take the first one's key in turn |
| Listings.OtherLinesSettle | src/server/dispatcher.h:187-197 | for example "a:b:c" together with "a:d", although the first line alone has two readings |
| Listings.TextDeterminesItems | src/server/dispatcher.h:187-197 | of arbitrary listings of words, repeated keys included, no other one has the same text if and only if no line has a second colon with something on both sides |
| Listings.ColonIsAmbiguous | src/server/dispatcher.h:187-197 | two different listings with the text "a:b:c" |
| Dispatchers.TtlOfDecimal | src/server/dispatcher.h:152-168 | of all decimal numbers exactly the positive 64-bit ones are accepted, with their value |
| Dispatchers.TtlOfDigits | src/server/dispatcher.h:152-168 | after white space and a sign the digits are read and the rest is ignored; a minus sign in front, zero, and numbers from 2^64 on are rejected, each with its message; a minus sign behind white space negates modulo 2^64 |
| Dispatchers.LeadingZero | src/server/dispatcher.h:157 | leading zeros do not change the number |
| Dispatchers.TtlOfOthers | src/server/dispatcher.h:152-168 | everything else is rejected: a minus sign in front as not positive, what has no digit behind white space and sign as no integer |
| Dispatchers.ResponsesAreSendable | src/server/dispatcher.h:49-212 | no response of the dispatcher can break the wire format |
| ServerApps.ServerApp.constructor | src/server/server_app.h:29-35 | starts with an empty engine of 64 shards of 10000 keys and a limit of 256 MiB |
| ServerApps.ServerApp.Process | src/server/server_app.h:124-142 | the frame loop performs exactly the Receive step for any chunk, for any behaviour of the socket's writes; a blank frame drops the connection |
| ServerApps.Connection.WriteToSocket | src/net/connection.h:92-105 | however many bytes the kernel takes, bytes written and bytes buffered together stay the same |
| Pipeline.ChunkingIndependence | src/server/server_app.h:124-142 | responses, engine state and point of drop depend only on the bytes received, not on how they were cut into reads: they are those of executing the requests up to the first blank frame in order |
| Pipeline.DroppedStaysDropped | src/server/server_app.h:139-142 | a dropped connection executes nothing any more |
| Pipeline.ServeChunks | src/server/server_app.h:108-147 | the server object and a connection, from start-up and over any reads, end in the state, and have produced the bytes, of executing the requests of the concatenated bytes on an empty engine |
| Pipeline.EndToEnd | src/server/server_app.h:124-142 | any list of requests of words, cut into reads in any way, yields one decodable response per request, in order, those of executing them one after the other |
| Pipeline.SetThenGet | src/server/dispatcher.h:92-124 | from any well-formed engine state a stored word is read back |
| Pipeline.SetThenGetOnTheWire | src/server/server_app.h:124-142 | the same byte for byte, for all keys and values without one of the six white-space characters: "SET k v CRLF GET k CRLF" yields "+OK CRLF $n CRLF v CRLF" with the usual numeral of the length |
| Pipeline.DelThenGet | src/server/dispatcher.h:107-138 | from any well-formed engine state a deleted key is not found |
| Pipeline.DelThenGetOnTheWire | src/server/server_app.h:124-142 | the same byte for byte |
| Pipeline.SetExThenGet | src/server/dispatcher.h:140-173 | with a TTL the value is read back exactly as long as it has not expired |
| Pipeline.ExecuteIsRun | src/server/dispatcher.h:49-89 | behind the wire the engine runs a history of engine operations, so all engine theorems apply |
| PlainServers.ResponseIsLegal | src/server/dispatcher.h:49-212 | the reference: what each request may be answered in a state of one plain map, message by message; an engine that finds only what the map has answers accordingly |
| PlainServers.OperationIsAfter | src/server/dispatcher.h:92-173 | the engine operation of a request does to the last write of a key what the request does to the plain map |
| PlainServers.RejectedChangesNothing | src/server/dispatcher.h:49-212 | a rejected request, a listing and a health check leave the engine exactly as it was, recency and byte counter included |
| Pipeline.WireNeverStale | src/server/dispatcher.h:49-212 | for any list of requests, every response is one the plain map allows, except that keys may be missing |
| Pipeline.WireIsPlainMap | src/server/dispatcher.h:49-212 | when the requests' history loses no live entry, every response, listings included, is that of the plain map |
| Pipeline.RequestsNeverSweep | src/server/dispatcher.h:49-89 | no request runs expiry or eviction processing |
| Pipeline.WireIsPlainMapWhenFitting | src/server/dispatcher.h:49-212 | so with shards large enough for the keys written, for every TTL the server accepts, wrapping sums included |
| Pipeline.ServerIsPlainMap | src/server/server_app.h:29-35 | bytes to bytes: the freshly started server, given any requests of words that name at most 10000 keys to write, cut into reads in any way, produces bytes that decode to exactly one response per request, each that of the plain map, whatever the hash and the TTLs |
| Pipeline.LargerServerFindsMore | src/server/dispatcher.h:107-124 | the same requests to two servers that differ in shard capacity: what the small one finds the large one finds too, whatever the TTLs |
| Pipeline.WireRetention | src/server/dispatcher.h:107-124 | a key that a GET has found is found again, as long as it has not expired, after any requests about fewer other keys than its shard has room for |
| Pipeline.ExecuteKeepsWords | src/server/dispatcher.h:92-173 | parsed requests hold only words (Parser.Plain), and executing such requests stores only words |
| Pipeline.KeysAfterAnyBytes | src/server/dispatcher.h:178-200 | whatever bytes were received before, a KEYS request is answered by the lines "k:v" of exactly the keys a GET would find, each once; the pairs are read back at the first colon if and only if no such key holds a colon, and they are the only reading without a repeated key if and only if the lines settle every second reading |

## Left out

- Sockets, `select`, accepting and reading (src/net, the rest of src/server/server_app.h, src/client): received chunks and the number of bytes a write takes are arbitrary; response bytes still buffered when a connection is dropped count as produced, not as delivered.
- Several connections at once: a session is followed on one connection. Commands of other connections change the engine between reads; the engine theorems hold for any such history.
- Interleaved threads inside one engine operation: the server is single-threaded, and the engine's own TTL index has no lock. Each shard or eviction-manager method is one step.
- The internal structure of the standard containers other than the recency list: `std::map` is a sorted sequence of buckets, hash tables are maps, their iteration order is an arbitrary function of the key set.
- `Entry::Update`, `Entry::RemainingTTL`, `LRUCache::EvictionCandidate`, the `Clear` and `Size` members of the core classes: no caller in the modelled operations; easy single-function facts.
- Other eviction policies: the interface has one implementation, and the model has no interface.
- Memory exhaustion and lengths beyond the machine word.
- `ThreadPool`, `TTLManager`, `CommandRegistry`, `MetricsRegistry`, `Config`, `Status`, `Logger`, latency and snapshot classes: unused by the modelled paths or plumbing.
- The `finance-backend` tree: its logic lives in SQLite, Express and token libraries.
