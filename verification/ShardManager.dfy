/** Routing of keys to shards (src/core/shard_manager.h). */
module ShardManagers {
  import opened Common
  import opened Shards
  import S = ShardStates
  import N = EngineStates

  class ShardManager {
    const hasher: Key -> nat
    const scan: set<Key> -> seq<Key>
    const shards: seq<Shard>
    ghost var states: seq<S.ShardState>
    ghost var Repr: set<object>

    ghost predicate Valid()
      reads this, Repr
      ensures Valid() ==> this in Repr
    {
      && this in Repr && shards != [] && |shards| == |states|
      && (forall i :: 0 <= i < |shards| ==> shards[i] in Repr && shards[i].Repr <= Repr && this !in shards[i].Repr)
      && (forall i, j :: 0 <= i < j < |shards| ==> shards[i].Repr !! shards[j].Repr)
      && (forall i :: 0 <= i < |shards| ==>
            shards[i].Valid() && shards[i].state == states[i] && shards[i].scan == scan)
    }

    /** The source rejects a shard count of 0, and each shard a capacity of 0. */
    constructor (shardCount: nat, shardCapacity: nat, hasher: Key -> nat, scan: set<Key> -> seq<Key>)
      requires shardCount > 0 && shardCapacity > 0
      ensures Valid() && fresh(Repr)
      ensures this.hasher == hasher && this.scan == scan
      ensures states == seq(shardCount, i => S.EmptyShard(shardCapacity))
    {
      hide Shard.Valid;
      var made: seq<Shard> := [];
      ghost var repr: set<object> := {};
      for n := 0 to shardCount
        invariant |made| == n && fresh(repr)
        invariant forall i :: 0 <= i < n ==> made[i] in repr && made[i].Repr <= repr
        invariant forall i, j :: 0 <= i < j < n ==> made[i].Repr !! made[j].Repr
        invariant forall i :: 0 <= i < n ==>
          made[i].Valid() && made[i].state == S.EmptyShard(shardCapacity) && made[i].scan == scan
      {
        var shard := new Shard(shardCapacity, scan);
        made := made + [shard];
        repr := repr + shard.Repr;
      }
      this.hasher, this.scan, shards := hasher, scan, made;
      states := seq(shardCount, i => S.EmptyShard(shardCapacity));
      new;
      Repr := {this} + repr;
    }

    /** Takes note of what an operation on shard `i` did. */
    ghost method Note(i: nat)
      requires this in Repr && i < |shards| == |states|
      requires forall j :: 0 <= j < |shards| && j != i ==> shards[j] in Repr && shards[j].Repr <= Repr
      requires forall j :: 0 <= j < |shards| ==> this !in shards[j].Repr
      requires forall j, k :: 0 <= j < k < |shards| ==> shards[j].Repr !! shards[k].Repr
      requires forall j :: 0 <= j < |shards| ==> shards[j].Valid() && shards[j].scan == scan
      requires forall j :: 0 <= j < |shards| && j != i ==> shards[j].state == states[j]
      modifies this`Repr, this`states
      ensures Valid() && Repr == old(Repr) + shards[i].Repr
      ensures states == old(states)[i := shards[i].state]
    {
      hide Shard.Valid;
      Repr := Repr + shards[i].Repr;
      states := states[i := shards[i].state];
    }

    method Set(key: Key, value: Value, now: uint64)
      requires Valid()
      modifies Repr
      ensures Valid() && fresh(Repr - old(Repr))
      ensures var i := N.Route(hasher, key, |old(states)|);
              states == old(states)[i := S.Apply(old(states)[i], S.Set(key, value, now))]
    {
      hide Shard.Valid;
      var i := N.Route(hasher, key, |shards|);
      shards[i].Set(key, value, now);
      Note(i);
    }

    method SetWithTTL(key: Key, value: Value, ttl: uint64, now: uint64)
      requires Valid()
      modifies Repr
      ensures Valid() && fresh(Repr - old(Repr))
      ensures var i := N.Route(hasher, key, |old(states)|);
              states == old(states)[i := S.Apply(old(states)[i], S.SetWithTTL(key, value, ttl, now))]
    {
      hide Shard.Valid;
      var i := N.Route(hasher, key, |shards|);
      shards[i].SetWithTTL(key, value, ttl, now);
      Note(i);
    }

    method Get(key: Key, now: uint64) returns (answer: Option<Value>)
      requires Valid()
      modifies Repr
      ensures Valid() && fresh(Repr - old(Repr))
      ensures var i := N.Route(hasher, key, |old(states)|);
              states == old(states)[i := S.Apply(old(states)[i], S.Get(key, now))]
      ensures answer == S.Answer(old(states)[N.Route(hasher, key, |old(states)|)], key, now)
    {
      hide Shard.Valid;
      var i := N.Route(hasher, key, |shards|);
      answer := shards[i].Get(key, now);
      Note(i);
    }

    method Delete(key: Key)
      requires Valid()
      modifies Repr
      ensures Valid() && fresh(Repr - old(Repr))
      ensures var i := N.Route(hasher, key, |old(states)|);
              states == old(states)[i := S.RemoveAll(old(states)[i], {key})]
    {
      hide Shard.Valid;
      var i := N.Route(hasher, key, |shards|);
      shards[i].Delete(key);
      Note(i);
    }

    /** All live entries: first each shard is asked, then the results are joined. */
    method GetAllKeys(tick: Key -> uint64) returns (result: seq<(Key, Value)>)
      requires Valid() && S.Enumerates(scan)
      ensures result == S.MergedItems(states, scan, tick)
    {
      hide Shard.Valid, S.AllItems, S.Enumerates;
      var perShard: seq<seq<(Key, Value)>> := [];
      for n := 0 to |shards|
        invariant |perShard| == n
        invariant forall i :: 0 <= i < n ==> perShard[i] == S.AllItems(states[i], scan, tick)
      {
        var items := shards[n].GetAllKeys(tick);
        perShard := perShard + [items];
      }
      result := [];
      for n := 0 to |perShard|
        invariant result == S.MergedItems(states[..n], scan, tick)
      {
        assert states[..n + 1][..n] == states[..n];
        result := result + perShard[n];
      }
      assert states[..|states|] == states;
    }

    /** Sweeps every shard. */
    method CleanupExpired(now: uint64)
      requires Valid()
      modifies Repr
      ensures Valid() && fresh(Repr - old(Repr))
      ensures |states| == |old(states)|
      ensures forall i :: 0 <= i < |states| ==> states[i] == S.Apply(old(states)[i], S.CleanupExpired(now))
    {
      hide Shard.Valid;
      for n := 0 to |shards|
        invariant Valid() && fresh(Repr - old(Repr)) && |states| == |old(states)|
        invariant forall i :: 0 <= i < n ==> states[i] == S.Apply(old(states)[i], S.CleanupExpired(now))
        invariant forall i :: n <= i < |states| ==> states[i] == old(states)[i]
      {
        shards[n].CleanupExpired(now);
        Note(n);
      }
    }
  }
}
