/** What the engine holds, as a value, and what each operation of src/core/kv_engine.h does to it.
    The classes in ShardManager.dfy and KvEngine.dfy are proved to perform exactly these steps. */
module EngineStates {
  import opened Common
  import opened Sequences
  import S = ShardStates
  import E = EvictionStates
  import Timelines

  /** `deadlines` is the engine's own TTL index, besides the one inside every shard. */
  datatype EngineRecord = EngineRecord(
    hash: Key -> nat,
    shards: seq<S.ShardState>,
    deadlines: map<Key, uint64>,
    eviction: E.EvictionState)

  type Engine = e: EngineRecord | e.shards != []
    witness EngineRecord(k => 0, [S.EmptyShard(1)], map[], E.EvictionState(1, 0, []))

  /** Clock readings are arguments.  A write with a TTL reads the clock twice: when the shard makes
      the entry (`now`) and when the engine computes its own deadline (`later`). */
  datatype Op =
    | Set(key: Key, value: Value, now: uint64)
    | SetWithTTL(key: Key, value: Value, ttl: uint64, now: uint64, later: uint64)
    | Get(key: Key, now: uint64)
    | Delete(key: Key)
    | ProcessExpired(now: uint64)
    | ProcessEvictions

  function EmptyEngine(hash: Key -> nat, shardCount: nat, capacity: nat, max: uint64): Engine
    requires shardCount > 0
  {
    EngineRecord(hash, seq(shardCount, i => S.EmptyShard(capacity)), map[], E.EvictionState(max, 0, []))
  }

  /** The shard, of `n`, that a key is routed to. */
  function Route(hash: Key -> nat, k: Key, n: nat): (i: nat)
    requires n > 0
    ensures i < n
  {
    hash(k) % n
  }

  /** Routing is by remainder: hash values that differ by a multiple of the shard count, and no
      others, share a shard. */
  lemma {:induction false} RouteIsRemainder(hash: Key -> nat, k: Key, n: nat, i: nat)
    requires n > 0
    ensures Route(hash, k, n) == i <==> i < n && exists q: nat :: hash(k) == q * n + i
  {
    if Route(hash, k, n) == i {
      assert hash(k) == (hash(k) / n) * n + i;
    }
    if i < n {
      forall q: nat | hash(k) == q * n + i ensures Route(hash, k, n) == i {
        assert hash(k) == (hash(k) / n) * n + hash(k) % n;
        OneRemainder(q, i, hash(k) / n, hash(k) % n, n);
      }
    }
  }

  lemma {:induction false} OneRemainder(q: nat, r: nat, q': nat, r': nat, n: nat)
    requires r < n && r' < n && q * n + r == q' * n + r'
    ensures r == r'
  {
    if q < q' {
      NextMultiple(q, q', n);
    } else if q' < q {
      NextMultiple(q', q, n);
    }
  }

  lemma {:induction false} NextMultiple(p: nat, q: nat, n: nat)
    requires p < q
    ensures p * n + n <= q * n
    decreases q
  {
    if p + 1 == q {
    } else {
      NextMultiple(p, q - 1, n);
    }
  }

  /** The keys among `keys` that are routed to shard `i` of `n`. */
  function Routed(hash: Key -> nat, keys: set<Key>, n: nat, i: nat): set<Key>
    requires n > 0
  {
    set k | k in keys && Route(hash, k, n) == i
  }

  function Home(e: Engine, k: Key): (i: nat)
    ensures i < |e.shards|
  {
    Route(e.hash, k, |e.shards|)
  }

  function At(e: Engine, keys: set<Key>, i: nat): set<Key> {
    Routed(e.hash, keys, |e.shards|, i)
  }

  function Answer(e: Engine, k: Key, now: uint64): Option<Value> {
    S.Answer(e.shards[Home(e, k)], k, now)
  }

  /** The keys that an operation deletes from their shards. */
  function Dropped(e: Engine, op: Op): set<Key> {
    match op
    case Delete(k) => {k}
    case ProcessExpired(now) => Timelines.Due(e.deadlines, now)
    case ProcessEvictions =>
      // a throwing policy leaves the shards alone
      var c := E.Collect(e.eviction);
      if c.completed then Elems(c.victims) else {}
    case _ => {}
  }

  function ShardAfter(e: Engine, op: Op, i: nat): S.ShardState
    requires i < |e.shards|
  {
    var s := e.shards[i];
    match op
    case Set(k, v, now) => if Home(e, k) == i then S.Apply(s, S.Set(k, v, now)) else s
    case SetWithTTL(k, v, ttl, now, _) => if Home(e, k) == i then S.Apply(s, S.SetWithTTL(k, v, ttl, now)) else s
    case Get(k, now) => if Home(e, k) == i then S.Apply(s, S.Get(k, now)) else s
    case _ => S.RemoveAll(s, At(e, Dropped(e, op), i))
  }

  function DeadlinesAfter(e: Engine, op: Op): map<Key, uint64> {
    match op
    case Set(k, _, _) => e.deadlines - {k}
    case SetWithTTL(k, _, ttl, _, later) => e.deadlines[k := (later + ttl) % WORD]
    case Get(_, _) => e.deadlines
    case _ => e.deadlines - Dropped(e, op)
  }

  function EvictionAfter(e: Engine, op: Op): E.EvictionState {
    match op
    case Set(k, _, _) => E.OnWrite(e.eviction, k)
    case SetWithTTL(k, _, _, _, _) => E.OnWrite(e.eviction, k)
    case Get(k, now) => if Answer(e, k, now).Some? then E.OnRead(e.eviction, k) else e.eviction
    case ProcessEvictions => E.Collect(e.eviction).after
    case _ => E.OnDeleteAll(e.eviction, Dropped(e, op))
  }

  function Apply(e: Engine, op: Op): Engine {
    e.(shards := seq(|e.shards|, i requires 0 <= i < |e.shards| => ShardAfter(e, op, i)),
       deadlines := DeadlinesAfter(e, op),
       eviction := EvictionAfter(e, op))
  }

  /** The state after a history of operations. */
  function Run(e: Engine, ops: seq<Op>): Engine {
    if ops == [] then e else Apply(Run(e, ops[..|ops| - 1]), ops[|ops| - 1])
  }
}
