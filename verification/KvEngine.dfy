/** The engine (src/core/kv_engine.h): shards, the engine's TTL index and the eviction manager
    change together, one component after the other. */
module KvEngines {
  import opened Common
  import opened Sequences
  import opened TtlIndexes
  import opened ShardManagers
  import opened EvictionManagers
  import Shards
  import S = ShardStates
  import E = EvictionStates
  import N = EngineStates

  /** The shards after the keys of `gone` have been deleted from their home shards. */
  function ShardsWithout(hash: Key -> nat, shards: seq<S.ShardState>, gone: set<Key>): seq<S.ShardState>
    requires shards != []
  {
    seq(|shards|, i requires 0 <= i < |shards| =>
      S.RemoveAll(shards[i], N.Routed(hash, gone, |shards|, i)))
  }

  lemma {:induction false} ShardsWithoutNone(hash: Key -> nat, shards: seq<S.ShardState>)
    requires shards != []
    ensures ShardsWithout(hash, shards, {}) == shards
  {
    forall i | 0 <= i < |shards| ensures ShardsWithout(hash, shards, {})[i] == shards[i] {
      assert N.Routed(hash, {}, |shards|, i) == {};
      ExceptDisjoint(shards[i].order, {});
    }
  }

  lemma {:induction false} ShardsWithoutOneMore(hash: Key -> nat, shards: seq<S.ShardState>, gone: set<Key>, k: Key)
    requires shards != []
    ensures var i, s := N.Route(hash, k, |shards|), ShardsWithout(hash, shards, gone);
            s[i := S.RemoveAll(s[i], {k})] == ShardsWithout(hash, shards, gone + {k})
  {
    var n := |shards|;
    var s, t := ShardsWithout(hash, shards, gone), ShardsWithout(hash, shards, gone + {k});
    forall i | 0 <= i < n ensures t[i] == if i == N.Route(hash, k, n) then S.RemoveAll(s[i], {k}) else s[i] {
      var here, more := N.Routed(hash, gone, n, i), N.Routed(hash, gone + {k}, n, i);
      if i == N.Route(hash, k, n) {
        assert more == here + {k};
        Shards.RemoveAllTwice(shards[i], here, {k});
      } else {
        assert more == here;
      }
    }
  }

  /** Operations on one key change its home shard only. */
  lemma {:induction false} OneShard(e: N.Engine, op: N.Op)
    requires op.Set? || op.SetWithTTL? || op.Get?
    ensures var i := N.Route(e.hash, op.key, |e.shards|);
            e.shards[i := N.ShardAfter(e, op, i)] == N.Apply(e, op).shards
  {
  }

  /** All other operations delete keys from their home shards. */
  lemma {:induction false} DroppedFromShards(e: N.Engine, op: N.Op)
    requires op.Delete? || op.ProcessExpired? || op.ProcessEvictions?
    ensures ShardsWithout(e.hash, e.shards, N.Dropped(e, op)) == N.Apply(e, op).shards
  {
    var gone := N.Dropped(e, op);
    forall i | 0 <= i < |e.shards| ensures ShardsWithout(e.hash, e.shards, gone)[i] == N.ShardAfter(e, op, i) {
    }
  }

  lemma {:induction false} DeleteOneMore(s: E.EvictionState, gone: set<Key>, k: Key)
    requires k !in gone
    ensures E.OnDeleteAll(E.OnDeleteAll(s, gone), {k}) == E.OnDeleteAll(s, gone + {k})
  {
    ExceptExcept(s.order, gone, {k});
    E.MovedTwice(s.usage, -E.CHARGE * |gone|, -E.CHARGE);
    assert |gone + {k}| == |gone| + 1;
  }

  class KVEngine {
    const shardManager: ShardManager
    const ttlIndex: TTLIndex
    const evictionManager: EvictionManager
    ghost var state: N.Engine
    ghost var Repr: set<object>

    /** The components are well-formed and separate objects. */
    ghost predicate Parts()
      reads this, Repr
      ensures Parts() ==> this in Repr
    {
      && this in Repr && shardManager in Repr && ttlIndex in Repr && evictionManager in Repr
      && shardManager.Repr <= Repr && evictionManager.Repr <= Repr
      && this !in shardManager.Repr && this !in evictionManager.Repr
      && ttlIndex !in shardManager.Repr && ttlIndex !in evictionManager.Repr
      && shardManager.Repr !! evictionManager.Repr
      && shardManager.Valid() && ttlIndex.Valid() && evictionManager.Valid()
    }

    ghost predicate Valid()
      reads this, Repr
      ensures Valid() ==> this in Repr
    {
      && Parts()
      && state == N.EngineRecord(shardManager.hasher, shardManager.states, ttlIndex.keyIndex, evictionManager.state)
    }

    constructor (shardManager: ShardManager, ttlIndex: TTLIndex, evictionManager: EvictionManager)
      requires shardManager.Valid() && ttlIndex.Valid() && evictionManager.Valid()
      requires shardManager.Repr !! evictionManager.Repr
      requires ttlIndex !in shardManager.Repr && ttlIndex !in evictionManager.Repr
      ensures Valid() && fresh(Repr - shardManager.Repr - {ttlIndex} - evictionManager.Repr)
      ensures this.shardManager == shardManager && this.evictionManager == evictionManager
      ensures state ==
              N.EngineRecord(shardManager.hasher, shardManager.states, ttlIndex.keyIndex, evictionManager.state)
    {
      hide EvictionManager.Valid, TTLIndex.Valid;
      this.shardManager, this.ttlIndex, this.evictionManager := shardManager, ttlIndex, evictionManager;
      state := N.EngineRecord(shardManager.hasher, shardManager.states, ttlIndex.keyIndex, evictionManager.state);
      Repr := {this, ttlIndex} + shardManager.Repr + evictionManager.Repr;
    }

    /** Takes note of what the components now hold. */
    ghost method Note()
      requires this in Repr && shardManager in Repr && ttlIndex in Repr && evictionManager in Repr
      requires this !in shardManager.Repr && this !in evictionManager.Repr
      requires ttlIndex !in shardManager.Repr && ttlIndex !in evictionManager.Repr
      requires shardManager.Repr !! evictionManager.Repr
      requires shardManager.Valid() && ttlIndex.Valid() && evictionManager.Valid() && shardManager.states != []
      modifies this`Repr, this`state
      ensures Valid() && Repr == old(Repr) + shardManager.Repr + evictionManager.Repr
      ensures state ==
              N.EngineRecord(shardManager.hasher, shardManager.states, ttlIndex.keyIndex, evictionManager.state)
    {
      hide ShardManager.Valid, EvictionManager.Valid, TTLIndex.Valid, TTLIndex.State;
      Repr := Repr + shardManager.Repr + evictionManager.Repr;
      state := N.EngineRecord(shardManager.hasher, shardManager.states, ttlIndex.keyIndex, evictionManager.state);
    }

    method Set(key: Key, value: Value, now: uint64)
      requires Valid()
      modifies Repr
      ensures Valid() && fresh(Repr - old(Repr))
      ensures state == N.Apply(old(state), N.Set(key, value, now))
    {
      hide ShardManager.Valid, EvictionManager.Valid, TTLIndex.Valid, TTLIndex.State, S.Apply;
      OneShard(state, N.Set(key, value, now));
      shardManager.Set(key, value, now);
      ttlIndex.Remove(key);
      evictionManager.OnWrite(key);
      Note();
    }

    /** A write with a TTL reads the clock twice. */
    method SetWithTTL(key: Key, value: Value, ttl: uint64, now: uint64, later: uint64)
      requires Valid()
      modifies Repr
      ensures Valid() && fresh(Repr - old(Repr))
      ensures state == N.Apply(old(state), N.SetWithTTL(key, value, ttl, now, later))
    {
      hide ShardManager.Valid, EvictionManager.Valid, TTLIndex.Valid, TTLIndex.State, S.Apply;
      OneShard(state, N.SetWithTTL(key, value, ttl, now, later));
      shardManager.SetWithTTL(key, value, ttl, now);
      var expireAt := (later + ttl) % WORD;
      ttlIndex.Upsert(key, expireAt);
      evictionManager.OnWrite(key);
      Note();
    }

    method Get(key: Key, now: uint64) returns (answer: Option<Value>)
      requires Valid()
      modifies Repr
      ensures Valid() && fresh(Repr - old(Repr))
      ensures state == N.Apply(old(state), N.Get(key, now))
      ensures answer == N.Answer(old(state), key, now)
    {
      hide ShardManager.Valid, EvictionManager.Valid, TTLIndex.Valid, TTLIndex.State, S.Apply, S.Answer;
      OneShard(state, N.Get(key, now));
      answer := shardManager.Get(key, now);
      if answer.Some? {
        evictionManager.OnRead(key);
      }
      Note();
    }

    method Delete(key: Key)
      requires Valid()
      modifies Repr
      ensures Valid() && fresh(Repr - old(Repr))
      ensures state == N.Apply(old(state), N.Delete(key))
    {
      hide ShardManager.Valid, EvictionManager.Valid, TTLIndex.Valid, TTLIndex.State;
      ghost var before := state;
      ShardsWithoutNone(before.hash, before.shards);
      ShardsWithoutOneMore(before.hash, before.shards, {}, key);
      shardManager.Delete(key);
      ttlIndex.Remove(key);
      evictionManager.OnDelete(key);
      Note();
      assert {} + {key} == {key};
      DroppedFromShards(before, N.Delete(key));
    }

    method GetAllKeys(tick: Key -> uint64) returns (result: seq<(Key, Value)>)
      requires Valid() && S.Enumerates(shardManager.scan)
      ensures result == S.MergedItems(state.shards, shardManager.scan, tick)
    {
      result := shardManager.GetAllKeys(tick);
    }

    /** Deletes what the engine's TTL index lists as due. */
    method ProcessExpired(now: uint64)
      requires Valid()
      modifies Repr
      ensures Valid() && fresh(Repr - old(Repr))
      ensures state == N.Apply(old(state), N.ProcessExpired(now))
    {
      hide ShardManager.Valid, EvictionManager.Valid, TTLIndex.Valid, TTLIndex.State, S.RemoveAll, E.OnDeleteAll;
      ghost var before := state;
      ghost var s, v := before.shards, before.eviction;
      var expired := ttlIndex.CollectExpired(now);
      ShardsWithoutNone(before.hash, s);
      NothingDeleted(v);
      Note();
      assert expired[..0] == [] && Elems<Key>([]) == {};
      for i := 0 to |expired|
        invariant Valid() && fresh(Repr - old(Repr))
        invariant state == before.(shards := ShardsWithout(before.hash, s, Elems(expired[..i])),
                                   deadlines := before.deadlines - Elems(expired),
                                   eviction := E.OnDeleteAll(v, Elems(expired[..i])))
      {
        Shards.ElemsSnoc(expired, i);
        ShardsWithoutOneMore(before.hash, s, Elems(expired[..i]), expired[i]);
        DeleteOneMore(v, Elems(expired[..i]), expired[i]);
        shardManager.Delete(expired[i]);
        evictionManager.OnDelete(expired[i]);
        Note();
      }
      assert expired[..|expired|] == expired;
      DroppedFromShards(before, N.ProcessExpired(now));
    }

    lemma {:induction false} NothingDeleted(v: E.EvictionState)
      ensures E.OnDeleteAll(v, Elems([])) == v
    {
      assert Elems<Key>([]) == {};
      ExceptDisjoint(v.order, {});
    }

    /** Deletes the victims of the eviction manager; when the policy throws, so does this, before
        any shard has been touched. */
    method ProcessEvictions() returns (r: Outcome<()>)
      requires Valid()
      modifies Repr
      ensures Valid() && fresh(Repr - old(Repr))
      ensures state == N.Apply(old(state), N.ProcessEvictions)
      ensures r.Returned? <==> E.Collect(old(state).eviction).completed
    {
      hide ShardManager.Valid, EvictionManager.Valid, TTLIndex.Valid, TTLIndex.State, S.RemoveAll, E.Collect;
      ghost var before := state;
      ghost var s := before.shards;
      ShardsWithoutNone(before.hash, s);
      DroppedFromShards(before, N.ProcessEvictions);
      var victims := evictionManager.CollectEvictionCandidates();
      Note();
      if victims.Thrown? {
        assert before.deadlines - {} == before.deadlines;
        return Thrown(victims.what);
      }
      var keys := victims.value;
      ghost var after := state.eviction;
      assert before.deadlines - Elems([]) == before.deadlines;
      assert Elems<Key>([]) == {};
      for i := 0 to |keys|
        invariant Valid() && fresh(Repr - old(Repr))
        invariant state == before.(shards := ShardsWithout(before.hash, s, Elems(keys[..i])),
                                   deadlines := before.deadlines - Elems(keys[..i]),
                                   eviction := after)
      {
        Shards.ElemsSnoc(keys, i);
        ShardsWithoutOneMore(before.hash, s, Elems(keys[..i]), keys[i]);
        shardManager.Delete(keys[i]);
        ttlIndex.Remove(keys[i]);
        Note();
      }
      assert keys[..|keys|] == keys;
      return Returned(());
    }
  }
}
