/** The eviction manager with its byte counter and LRU policy (src/eviction). */
module EvictionManagers {
  import opened Common
  import opened Sequences
  import opened Recency
  import opened LruCaches
  import E = EvictionStates

  class MemoryTracker {
    const max: uint64
    var current: uint64

    /** The source rejects a limit of 0. */
    constructor (max: uint64)
      requires max > 0
      ensures this.max == max && current == 0
    {
      this.max, current := max, 0;
    }

    method Reserve(bytes: uint64) returns (within: bool)
      modifies this
      ensures current == E.Moved(old(current), bytes)
      ensures within <==> current <= max
    {
      current := (current + bytes) % WORD;
      within := !IsOverLimit();
    }

    method Release(bytes: uint64)
      modifies this
      ensures current == E.Moved(old(current), -(bytes as int))
    {
      current := (current - bytes) % WORD;
    }

    predicate IsOverLimit()
      reads this
    {
      current > max
    }
  }

  /** The default policy: all calls go to one recency tracker whose overflow result is ignored. */
  class LRUPolicy {
    const lru: LRUCache
    ghost var Repr: set<object>

    ghost predicate Valid()
      reads this, Repr
      ensures Valid() ==> this in Repr
    {
      this in Repr && lru in Repr && lru.Repr <= Repr && this !in lru.Repr && lru.Valid()
    }

    constructor (lru: LRUCache)
      requires lru.Valid()
      ensures Valid() && this.lru == lru && fresh(Repr - lru.Repr)
    {
      this.lru := lru;
      Repr := {this} + lru.Repr;
    }

    method OnRead(key: Key)
      requires Valid()
      modifies Repr
      ensures Valid() && fresh(Repr - old(Repr))
      ensures lru.order == MoveToFront(old(lru.order), key)
    {
      hide LRUCache.Valid;
      var _ := lru.Touch(key);
      Repr := Repr + lru.Repr;
    }

    method OnWrite(key: Key)
      requires Valid()
      modifies Repr
      ensures Valid() && fresh(Repr - old(Repr))
      ensures lru.order == MoveToFront(old(lru.order), key)
    {
      hide LRUCache.Valid;
      var _ := lru.Touch(key);
      Repr := Repr + lru.Repr;
    }

    method OnDelete(key: Key)
      requires Valid()
      modifies Repr
      ensures Valid() && fresh(Repr - old(Repr))
      ensures lru.order == Except(old(lru.order), {key})
    {
      hide LRUCache.Valid;
      lru.Remove(key);
      Repr := Repr + lru.Repr;
    }

    /** Never returns "no victim": an empty tracker throws instead. */
    method SelectVictim() returns (r: Outcome<Option<Key>>)
      requires Valid()
      modifies Repr
      ensures Valid() && fresh(Repr - old(Repr))
      ensures old(lru.order) == [] ==> r.Thrown? && lru.order == []
      ensures old(lru.order) != [] ==>
                r == Returned(Some(old(lru.order)[|old(lru.order)| - 1])) &&
                lru.order == old(lru.order)[..|old(lru.order)| - 1]
    {
      hide LRUCache.Valid;
      var popped := lru.PopEvictionCandidate();
      Repr := Repr + lru.Repr;
      match popped
      case Returned(key) => r := Returned(Some(key));
      case Thrown(what) => r := Thrown(what);
    }
  }

  class EvictionManager {
    const tracker: MemoryTracker
    const policy: LRUPolicy
    ghost var state: E.EvictionState
    ghost var Repr: set<object>

    ghost predicate Valid()
      reads this, Repr
      ensures Valid() ==> this in Repr
    {
      && this in Repr && tracker in Repr && policy in Repr && policy.lru in Repr
      && policy.Repr <= Repr && this !in policy.Repr && tracker !in policy.Repr
      && policy.Valid()
      && state == E.EvictionState(tracker.max, tracker.current, policy.lru.order)
    }

    constructor (tracker: MemoryTracker, policy: LRUPolicy)
      requires policy.Valid() && tracker !in policy.Repr
      ensures Valid() && fresh(Repr - {tracker} - policy.Repr)
      ensures this.tracker == tracker && this.policy == policy
      ensures state == E.EvictionState(tracker.max, tracker.current, policy.lru.order)
    {
      hide LRUCache.Valid;
      this.tracker, this.policy := tracker, policy;
      state := E.EvictionState(tracker.max, tracker.current, policy.lru.order);
      Repr := {this, tracker} + policy.Repr;
    }

    method OnRead(key: Key)
      requires Valid()
      modifies Repr
      ensures Valid() && fresh(Repr - old(Repr))
      ensures state == E.OnRead(old(state), key)
    {
      hide LRUCache.Valid;
      policy.OnRead(key);
      Repr := Repr + policy.Repr;
      state := E.OnRead(state, key);
    }

    /** Enforcing the limit after a write has no effect in the source. */
    method OnWrite(key: Key)
      requires Valid()
      modifies Repr
      ensures Valid() && fresh(Repr - old(Repr))
      ensures state == E.OnWrite(old(state), key)
    {
      hide LRUCache.Valid;
      var _ := tracker.Reserve(100);
      policy.OnWrite(key);
      Repr := Repr + policy.Repr;
      state := E.OnWrite(state, key);
    }

    method OnDelete(key: Key)
      requires Valid()
      modifies Repr
      ensures Valid() && fresh(Repr - old(Repr))
      ensures state == E.OnDeleteAll(old(state), {key})
    {
      hide LRUCache.Valid;
      tracker.Release(100);
      policy.OnDelete(key);
      Repr := Repr + policy.Repr;
      state := E.OnDeleteAll(state, {key});
    }

    /** One round of the eviction loop. */
    method EvictNext() returns (r: Outcome<Option<Key>>)
      requires Valid() && state.usage > state.max
      modifies Repr
      ensures Valid() && fresh(Repr - old(Repr))
      ensures old(state).order == [] ==> r.Thrown? && state == old(state)
      ensures old(state).order != [] ==>
                var last := |old(state).order| - 1;
                && r == Returned(Some(old(state).order[last]))
                && state == old(state).(usage := E.Moved(old(state).usage, -E.CHARGE),
                                        order := old(state).order[..last])
    {
      hide LRUCache.Valid;
      r := policy.SelectVictim();
      Repr := Repr + policy.Repr;
      state := state.(order := policy.lru.order);
      if r.Returned? && r.value.Some? {
        tracker.Release(100);
        state := state.(usage := tracker.current);
      }
    }

    /** Pops least recently used keys until the usage is within the limit. */
    method CollectEvictionCandidates() returns (r: Outcome<seq<Key>>)
      requires Valid()
      modifies Repr
      ensures Valid() && fresh(Repr - old(Repr))
      ensures state == E.Collect(old(state)).after
      ensures r.Returned? <==> E.Collect(old(state)).completed
      ensures r.Returned? ==> r.value == E.Collect(old(state)).victims
    {
      hide LRUPolicy.Valid, LRUCache.Valid;
      var victims: seq<Key> := [];
      ghost var all := E.Collect(state);
      while tracker.IsOverLimit()
        invariant Valid() && fresh(Repr - old(Repr))
        invariant all.after == E.Collect(state).after && all.completed == E.Collect(state).completed
        invariant all.victims == victims + E.Collect(state).victims
        decreases |state.order|
      {
        ghost var before := E.Collect(state).victims;
        var next := EvictNext();
        if next.Thrown? {
          return Thrown(next.what);
        }
        if next.value.None? {
          break;
        }
        victims := victims + [next.value.value];
        assert before == [next.value.value] + E.Collect(state).victims;
      }
      return Returned(victims);
    }
  }
}
