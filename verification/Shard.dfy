/** One shard of the engine (src/core/shard.h): the store, its recency tracker and its TTL index
    change together.  Each public method runs under the shard's mutex, so it is one step. */
module Shards {
  import opened Common
  import opened Sequences
  import opened Entries
  import opened Recency
  import opened LruCaches
  import opened TtlIndexes
  import Timelines
  import S = ShardStates

  lemma {:induction false} RemoveAllTwice(s: S.ShardState, a: set<Key>, b: set<Key>)
    ensures S.RemoveAll(S.RemoveAll(s, a), b) == S.RemoveAll(s, a + b)
  {
    ExceptExcept(s.order, a, b);
    assert s.store - a - b == s.store - (a + b);
    assert s.deadlines - a - b == s.deadlines - (a + b);
  }

  lemma {:induction false} RemoveAllNothing(s: S.ShardState)
    ensures S.RemoveAll(s, Elems([])) == s
  {
    ExceptDisjoint(s.order, {});
    assert Elems<Key>([]) == {};
  }

  lemma {:induction false} ElemsSnoc(keys: seq<Key>, i: nat)
    requires i < |keys|
    ensures Elems(keys[..i + 1]) == Elems(keys[..i]) + {keys[i]}
  {
  }

  class Shard {
    const capacity: nat
    const scan: set<Key> -> seq<Key>
    var store: map<Key, Entry>
    const lru: LRUCache
    const ttlIndex: TTLIndex
    ghost var state: S.ShardState
    ghost var Repr: set<object>

    /** The three parts are well-formed, separate objects, and together hold `state`. */
    ghost predicate Parts()
      reads this, Repr
      ensures Parts() ==> this in Repr
    {
      && this in Repr && lru in Repr && ttlIndex in Repr
      && lru.Repr <= Repr && this !in lru.Repr && ttlIndex !in lru.Repr
      && lru.Valid() && lru.capacity == capacity
      && ttlIndex.Valid()
      && state == S.ShardState(capacity, store, lru.order, ttlIndex.keyIndex)
    }

    ghost predicate Valid()
      reads this, Repr
      ensures Valid() ==> this in Repr
    {
      Parts() && S.Consistent(state)
    }

    constructor (capacity: nat, scan: set<Key> -> seq<Key>)
      requires 1 <= capacity
      ensures Valid() && fresh(Repr)
      ensures state == S.EmptyShard(capacity) && this.scan == scan
    {
      this.capacity, this.scan, store := capacity, scan, map[];
      lru := new LRUCache(capacity);
      ttlIndex := new TTLIndex();
      state := S.EmptyShard(capacity);
      new;
      Repr := {this, lru, ttlIndex} + lru.Repr;
    }

    // ----- One part at a time -----

    /** Stores an entry and marks its key as used; true when that outgrew the capacity. */
    method StoreAndTouch(key: Key, entry: Entry) returns (overflow: bool)
      requires Parts()
      modifies Repr
      ensures Parts() && fresh(Repr - old(Repr))
      ensures state == S.Written(old(state), key, entry, old(state).deadlines)
      ensures overflow <==> S.Overflows(old(state), key)
    {
      hide TTLIndex.State, LRUCache.Valid;
      store := store[key := entry];
      overflow := lru.Touch(key);
      Repr := Repr + lru.Repr;
      state := S.Written(state, key, entry, state.deadlines);
    }

    method IndexUpsert(key: Key, expireAt: uint64)
      requires Parts()
      modifies this`state, ttlIndex
      ensures Parts()
      ensures state == old(state).(deadlines := old(state).deadlines[key := expireAt])
    {
      hide TTLIndex.State, LRUCache.Valid;
      ttlIndex.Upsert(key, expireAt);
      state := state.(deadlines := state.deadlines[key := expireAt]);
    }

    method IndexRemove(key: Key)
      requires Parts()
      modifies this`state, ttlIndex
      ensures Parts()
      ensures state == old(state).(deadlines := old(state).deadlines - {key})
    {
      ttlIndex.Remove(key);
      state := state.(deadlines := state.deadlines - {key});
    }

    method Touch(key: Key)
      requires Parts()
      modifies Repr
      ensures Parts() && fresh(Repr - old(Repr))
      ensures state == old(state).(order := MoveToFront(old(state).order, key))
    {
      hide TTLIndex.State, LRUCache.Valid;
      var _ := lru.Touch(key);
      Repr := Repr + lru.Repr;
      state := state.(order := MoveToFront(state.order, key));
    }

    method RemoveInternal(key: Key)
      requires Parts()
      modifies Repr
      ensures Parts() && fresh(Repr - old(Repr))
      ensures state == S.RemoveAll(old(state), {key})
    {
      store := store - {key};
      lru.Remove(key);
      Repr := Repr + lru.Repr;
      ttlIndex.Remove(key);
      state := S.RemoveAll(state, {key});
    }

    method EvictOne()
      requires Parts() && S.Aligned(state)
      modifies Repr
      ensures Parts() && fresh(Repr - old(Repr))
      ensures state == S.EvictOne(old(state))
    {
      hide TTLIndex.State, LRUCache.Valid;
      if store == map[] {
        return;
      }
      assert lru.order != [];
      var popped := lru.PopEvictionCandidate();
      Repr := Repr + lru.Repr;
      var victim := popped.value;
      store := store - {victim};
      ttlIndex.Remove(victim);
      state := S.EvictOne(state);
    }

    // ----- Public operations -----

    method Set(key: Key, value: Value, now: uint64)
      requires Valid()
      modifies Repr
      ensures Valid() && fresh(Repr - old(Repr))
      ensures state == S.Apply(old(state), S.Set(key, value, now))
    {
      hide TTLIndex.State, LRUCache.Valid;
      ghost var before := state;
      S.ApplyKeepsInvariants(before, S.Set(key, value, now));
      ghost var w := S.WrittenFacts(before, key, NewEntry(value, now), before.deadlines - {key});
      var overflow := StoreAndTouch(key, NewEntry(value, now));
      IndexRemove(key);
      assert state == w;
      if overflow {
        EvictOne();
      }
    }

    method SetWithTTL(key: Key, value: Value, ttl: uint64, now: uint64)
      requires Valid()
      modifies Repr
      ensures Valid() && fresh(Repr - old(Repr))
      ensures state == S.Apply(old(state), S.SetWithTTL(key, value, ttl, now))
    {
      hide TTLIndex.State, LRUCache.Valid;
      ghost var before := state;
      S.ApplyKeepsInvariants(before, S.SetWithTTL(key, value, ttl, now));
      var entry := NewEntryWithTTL(value, ttl, now);
      ghost var d := S.WithDeadline(before.deadlines, key, entry);
      ghost var w := S.WrittenFacts(before, key, entry, d);
      var overflow := StoreAndTouch(key, entry);
      if entry.HasTTL() {
        IndexUpsert(key, entry.expireAt);
      }
      assert state == w;
      if overflow {
        EvictOne();
      }
    }

    method Get(key: Key, now: uint64) returns (answer: Option<Value>)
      requires Valid()
      modifies Repr
      ensures Valid() && fresh(Repr - old(Repr))
      ensures state == S.Apply(old(state), S.Get(key, now))
      ensures answer == S.Answer(old(state), key, now)
    {
      hide TTLIndex.State, LRUCache.Valid;
      S.ApplyKeepsInvariants(state, S.Get(key, now));
      answer := None;
      if key in store {
        var entry := store[key];
        if entry.IsExpired(now) {
          RemoveInternal(key);
        } else {
          Touch(key);
          answer := Some(entry.value);
        }
      }
    }

    method Delete(key: Key)
      requires Valid()
      modifies Repr
      ensures Valid() && fresh(Repr - old(Repr))
      ensures state == S.Apply(old(state), S.Delete(key))
    {
      hide TTLIndex.State, LRUCache.Valid;
      S.ApplyKeepsInvariants(state, S.Delete(key));
      RemoveInternal(key);
    }

    /** The live entries, visited in the hash table's iteration order. */
    method GetAllKeys(tick: Key -> uint64) returns (result: seq<(Key, Value)>)
      requires Valid() && S.Enumerates(scan)
      ensures result == S.AllItems(state, scan, tick)
    {
      hide TTLIndex.State, LRUCache.Valid;
      var keys := scan(store.Keys);
      assert forall k :: k in keys ==> k in Elems(keys);
      result := [];
      for i := 0 to |keys|
        invariant result == S.LiveItems(store, keys[..i], tick)
      {
        assert keys[..i + 1][..i] == keys[..i];
        if !store[keys[i]].IsExpired(tick(keys[i])) {
          result := result + [(keys[i], store[keys[i]].value)];
        }
      }
      assert keys[..|keys|] == keys;
    }

    method CleanupExpired(now: uint64)
      requires Valid()
      modifies Repr
      ensures Valid() && fresh(Repr - old(Repr))
      ensures state == S.Apply(old(state), S.CleanupExpired(now))
    {
      hide TTLIndex.State, TTLIndex.Valid, LRUCache.Valid, Except;
      S.ApplyKeepsInvariants(state, S.CleanupExpired(now));
      var expired := CollectIndex(now);
      ghost var collected := state;
      RemoveAllNothing(collected);
      for i := 0 to |expired|
        invariant Parts() && fresh(Repr - old(Repr))
        invariant state == S.RemoveAll(collected, Elems(expired[..i]))
      {
        RemoveAllTwice(collected, Elems(expired[..i]), {expired[i]});
        ElemsSnoc(expired, i);
        RemoveInternal(expired[i]);
      }
      assert expired[..|expired|] == expired;
    }

    /** Takes the due keys out of the TTL index. */
    method CollectIndex(now: uint64) returns (expired: seq<Key>)
      requires Parts()
      modifies this`state, ttlIndex
      ensures Parts()
      ensures state == old(state).(deadlines := old(state).deadlines - Elems(expired))
      ensures Elems(expired) == Timelines.Due(old(state).deadlines, now)
      ensures S.RemoveAll(state, Elems(expired)) == S.RemoveAll(old(state), Elems(expired))
    {
      hide TTLIndex.State, LRUCache.Valid;
      expired := ttlIndex.CollectExpired(now);
      state := state.(deadlines := state.deadlines - Elems(expired));
      assert state.deadlines - Elems(expired) == state.deadlines;
    }
  }
}
