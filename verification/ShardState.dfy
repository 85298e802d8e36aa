/** What one shard holds, as a value, and what each public operation of src/core/shard.h does
    to it.  The class in Shard.dfy is proved to perform exactly these steps. */
module ShardStates {
  import opened Common
  import opened Sequences
  import opened Entries
  import opened Recency
  import Timelines

  /** `order` lists the tracked keys, most recently used first; `deadlines` is the key-to-deadline
      side of the TTL index. */
  datatype ShardState = ShardState(
    capacity: nat,
    store: map<Key, Entry>,
    order: seq<Key>,
    deadlines: map<Key, uint64>)

  datatype ShardOp =
    | Set(key: Key, value: Value, now: uint64)
    | SetWithTTL(key: Key, value: Value, ttl: uint64, now: uint64)
    | Get(key: Key, now: uint64)
    | Delete(key: Key)
    | CleanupExpired(now: uint64)

  // ----- Operations -----

  function EmptyShard(capacity: nat): ShardState {
    ShardState(capacity, map[], [], map[])
  }

  function RemoveAll(s: ShardState, gone: set<Key>): ShardState {
    s.(store := s.store - gone, order := Except(s.order, gone), deadlines := s.deadlines - gone)
  }

  function EvictOne(s: ShardState): ShardState {
    if s.order == [] then s
    else
      var last := |s.order| - 1;
      var victim := s.order[last];
      s.(store := s.store - {victim}, order := s.order[..last], deadlines := s.deadlines - {victim})
  }

  /** True when touching `k` inserts it and outgrows the capacity. */
  predicate Overflows(s: ShardState, k: Key) {
    k !in s.order && |s.order| + 1 > s.capacity
  }

  function Written(s: ShardState, k: Key, e: Entry, deadlines: map<Key, uint64>): ShardState {
    s.(store := s.store[k := e], order := MoveToFront(s.order, k), deadlines := deadlines)
  }

  /** The common part of both writes: store, touch, index, evict on overflow. */
  function Put(s: ShardState, k: Key, e: Entry, deadlines: map<Key, uint64>): ShardState {
    var written := Written(s, k, e, deadlines);
    if Overflows(s, k) then EvictOne(written) else written
  }

  function ApplySet(s: ShardState, k: Key, v: Value, now: uint64): ShardState {
    Put(s, k, NewEntry(v, now), s.deadlines - {k})
  }

  /** An entry without a deadline leaves an earlier TTL-index record of its key in place. */
  function WithDeadline(deadlines: map<Key, uint64>, k: Key, e: Entry): map<Key, uint64> {
    if e.HasTTL() then deadlines[k := e.expireAt] else deadlines
  }

  function ApplySetWithTTL(s: ShardState, k: Key, v: Value, ttl: uint64, now: uint64): ShardState {
    var e := NewEntryWithTTL(v, ttl, now);
    Put(s, k, e, WithDeadline(s.deadlines, k, e))
  }

  function ApplyGet(s: ShardState, k: Key, now: uint64): ShardState {
    if k !in s.store then s
    else if s.store[k].IsExpired(now) then RemoveAll(s, {k})
    else s.(order := MoveToFront(s.order, k))
  }

  /** The answer of a Get, which depends only on the stored entry and the clock. */
  function Answer(s: ShardState, k: Key, now: uint64): Option<Value> {
    if k in s.store && !s.store[k].IsExpired(now) then Some(s.store[k].value) else None
  }

  /** The live (key, value) pairs of a store, its keys visited in the given order. */
  function LiveItems(store: map<Key, Entry>, keys: seq<Key>, tick: Key -> uint64): seq<(Key, Value)> {
    if keys == [] then []
    else
      var rest := LiveItems(store, keys[..|keys| - 1], tick);
      var k := keys[|keys| - 1];
      if k in store && !store[k].IsExpired(tick(k)) then rest + [(k, store[k].value)] else rest
  }

  /** The iteration order of a hash table: some order of its keys, each once. */
  ghost predicate Enumerates(scan: set<Key> -> seq<Key>) {
    forall keys :: Distinct(scan(keys)) && Elems(scan(keys)) == keys
  }

  function AllItems(s: ShardState, scan: set<Key> -> seq<Key>, tick: Key -> uint64): seq<(Key, Value)> {
    LiveItems(s.store, scan(s.store.Keys), tick)
  }

  /** The items of all shards, shard by shard. */
  function MergedItems(states: seq<ShardState>, scan: set<Key> -> seq<Key>, tick: Key -> uint64): seq<(Key, Value)> {
    if states == [] then []
    else MergedItems(states[..|states| - 1], scan, tick) + AllItems(states[|states| - 1], scan, tick)
  }

  /** No key is listed twice. */
  ghost predicate KeysOnce(items: seq<(Key, Value)>) {
    forall i, j :: 0 <= i < j < |items| ==> items[i].0 != items[j].0
  }

  function Apply(s: ShardState, op: ShardOp): ShardState {
    match op
    case Set(k, v, now) => ApplySet(s, k, v, now)
    case SetWithTTL(k, v, ttl, now) => ApplySetWithTTL(s, k, v, ttl, now)
    case Get(k, now) => ApplyGet(s, k, now)
    case Delete(k) => RemoveAll(s, {k})
    case CleanupExpired(now) => RemoveAll(s, Timelines.Due(s.deadlines, now))
  }

  function Run(s: ShardState, ops: seq<ShardOp>): ShardState
    decreases |ops|
  {
    if ops == [] then s else Run(Apply(s, ops[0]), ops[1..])
  }

  // ----- Invariants -----

  /** Only stored keys have a TTL record, and every stored deadline is on record. */
  ghost predicate Indexed(store: map<Key, Entry>, deadlines: map<Key, uint64>) {
    && (forall k :: k in deadlines ==> k in store)
    && (forall k :: k in store && store[k].HasTTL() ==> k in deadlines && deadlines[k] == store[k].expireAt)
  }

  /** What every operation keeps, whatever TTLs are used. */
  ghost predicate Consistent(s: ShardState) {
    && 1 <= s.capacity
    && Distinct(s.order)
    && |s.order| <= s.capacity
    && Elems(s.order) == s.store.Keys
    && Indexed(s.store, s.deadlines)
  }

  /** No TTL-index record is stale. */
  ghost predicate Exact(s: ShardState) {
    Consistent(s) && forall k :: k in s.deadlines ==> s.store[k].HasTTL()
  }

  /** In an exact shard the TTL index is the stored keys that have a deadline, mapped to it. */
  lemma {:induction false} ExactMeansIndexOfStore(s: ShardState)
    requires Consistent(s)
    ensures Exact(s) <==> s.deadlines == map k | k in s.store && s.store[k].HasTTL() :: s.store[k].expireAt
  {
  }

  /** The guard of the branch that leaves a stale TTL record behind, negated. */
  predicate Clean(s: ShardState, op: ShardOp) {
    op.SetWithTTL? ==> DeadlineAfter(op.now, op.ttl) != 0 || op.key !in s.deadlines
  }

  lemma {:induction false} StoreSize(s: ShardState)
    requires Consistent(s)
    ensures |s.store| == |s.order|
  {
    DistinctCardinality(s.order);
    assert |s.store| == |s.store.Keys|;
  }

  lemma {:induction false} RemoveAllKeepsConsistent(s: ShardState, gone: set<Key>)
    requires Consistent(s)
    ensures Consistent(RemoveAll(s, gone))
    ensures Exact(s) ==> Exact(RemoveAll(s, gone))
  {
    ExceptElems(s.order, gone);
    ExceptDistinct(s.order, gone);
    ExceptLength(s.order, gone);
  }

  /** Store and recency order list the same keys, each once. */
  ghost predicate Aligned(s: ShardState) {
    Distinct(s.order) && Elems(s.order) == s.store.Keys
  }

  lemma {:induction false} WrittenFacts(s: ShardState, k: Key, e: Entry, d: map<Key, uint64>) returns (w: ShardState)
    requires Consistent(s)
    ensures w == Written(s, k, e, d) && Aligned(w)
    ensures w.order != [] && w.order[0] == k
    ensures |w.order| == if k in s.order then |s.order| else |s.order| + 1
    ensures k !in s.order ==> w.order == [k] + s.order
  {
    w := Written(s, k, e, d);
    MoveToFrontFacts(s.order, k);
    if k !in s.order { ExceptDisjoint(s.order, {k}); }
  }

  lemma {:induction false} EvictOneFacts(w: ShardState) returns (r: ShardState)
    requires Aligned(w) && w.order != []
    ensures r == EvictOne(w) && Aligned(r)
    ensures r.order == w.order[..|w.order| - 1]
    ensures r.store == w.store - {w.order[|w.order| - 1]}
    ensures r.deadlines == w.deadlines - {w.order[|w.order| - 1]}
  {
    r := EvictOne(w);
    PopFacts(w.order);
  }

  /** The recency order after a write of `k`. */
  function OrderAfterPut(order: seq<Key>, k: Key, capacity: nat): seq<Key> {
    var touched := MoveToFront(order, k);
    if k !in order && |order| + 1 > capacity then touched[..|touched| - 1] else touched
  }

  /** The key just written survives its own eviction, and the victim is the least recently used. */
  lemma {:induction false} PutFacts(s: ShardState, k: Key, e: Entry, d: map<Key, uint64>) returns (r: ShardState)
    requires Consistent(s)
    ensures r == Put(s, k, e, d) && r.capacity == s.capacity
    ensures Aligned(r) && |r.order| <= s.capacity
    ensures k in r.store && r.store[k] == e
    ensures r.order != [] && r.order[0] == k
    ensures !Overflows(s, k) ==> r == Written(s, k, e, d)
    ensures r.order == OrderAfterPut(s.order, k, s.capacity)
    ensures Overflows(s, k) ==>
              var victim := s.order[|s.order| - 1];
              victim != k && r.store == s.store[k := e] - {victim} && r.deadlines == d - {victim}
  {
    var w := WrittenFacts(s, k, e, d);
    r := w;
    if Overflows(s, k) {
      var n := |s.order|;
      var victim := s.order[n - 1];
      assert w.order[n] == victim && victim != k;
      r := EvictOneFacts(w);
      assert r.order == w.order[..n] && w.order[..n][0] == k;
    }
  }

  /** The keys a write leaves in the store. */
  lemma {:induction false} PutKeys(s: ShardState, k: Key, e: Entry, d: map<Key, uint64>)
    requires Consistent(s)
    ensures !Overflows(s, k) ==> Put(s, k, e, d).store.Keys == s.store.Keys + {k}
    ensures Overflows(s, k) ==>
              var victim := s.order[|s.order| - 1];
              victim in s.store && victim != k && Put(s, k, e, d).store.Keys == s.store.Keys + {k} - {victim}
  {
    var _ := PutFacts(s, k, e, d);
    if Overflows(s, k) { assert s.order[|s.order| - 1] in Elems(s.order); }
  }

  /** `d` is the TTL index after a write of `k`, before any eviction. */
  ghost predicate IndexWrite(before: map<Key, uint64>, k: Key, e: Entry, d: map<Key, uint64>) {
    && (e.HasTTL() ==> k in d && d[k] == e.expireAt)
    && (forall j :: j != k ==> (j in d <==> j in before))
    && (forall j :: j in d && j != k ==> d[j] == before[j])
  }

  lemma {:induction false} IndexedAfterWrite(s: ShardState, k: Key, e: Entry, d: map<Key, uint64>, gone: set<Key>)
    requires Consistent(s) && IndexWrite(s.deadlines, k, e, d) && k !in gone
    ensures Indexed(s.store[k := e] - gone, d - gone)
    ensures Exact(s) ==>
              ((forall j :: j in d - gone ==> (s.store[k := e] - gone)[j].HasTTL()) <==> (k in d ==> e.HasTTL()))
  {
    var store, deadlines := s.store[k := e] - gone, d - gone;
    assert forall j :: j in deadlines && j != k ==> j in s.deadlines && store[j] == s.store[j];
    assert k in deadlines <==> k in d;
  }

  lemma {:induction false} PutKeepsConsistent(s: ShardState, k: Key, e: Entry, d: map<Key, uint64>)
    requires Consistent(s) && IndexWrite(s.deadlines, k, e, d)
    ensures Consistent(Put(s, k, e, d))
    ensures Exact(s) ==> (Exact(Put(s, k, e, d)) <==> (k in d ==> e.HasTTL()))
  {
    var r := PutFacts(s, k, e, d);
    var gone := if Overflows(s, k) then {s.order[|s.order| - 1]} else {};
    IndexedAfterWrite(s, k, e, d, gone);
    assert r.store == s.store[k := e] - gone && r.deadlines == d - gone;
  }

  /** Every operation keeps the cross-index invariant; the TTL index stays exact if and only if
      the operation does not take the branch that leaves a stale record. */
  lemma {:induction false} ApplyKeepsInvariants(s: ShardState, op: ShardOp)
    requires Consistent(s)
    ensures Consistent(Apply(s, op))
    ensures Exact(s) ==> (Exact(Apply(s, op)) <==> Clean(s, op))
    ensures Apply(s, op).capacity == s.capacity
  {
    match op
    case Set(k, v, now) =>
      PutKeepsConsistent(s, k, NewEntry(v, now), s.deadlines - {k});
    case SetWithTTL(k, v, ttl, now) =>
      var e := NewEntryWithTTL(v, ttl, now);
      PutKeepsConsistent(s, k, e, WithDeadline(s.deadlines, k, e));
    case Get(k, now) =>
      RemoveAllKeepsConsistent(s, {k});
      MoveToFrontFacts(s.order, k);
    case Delete(k) => RemoveAllKeepsConsistent(s, {k});
    case CleanupExpired(now) => RemoveAllKeepsConsistent(s, Timelines.Due(s.deadlines, now));
  }
}
