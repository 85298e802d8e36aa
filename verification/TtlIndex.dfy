/** The TTL index of src/core/ttl_index.h: buckets of keys ordered by deadline, and a reverse map
    from each key to its deadline. */
module TtlIndexes {
  import opened Common
  import opened Sequences
  import opened Timelines

  /** One node of the ordered map: the keys that share a deadline, in upsert order. */
  datatype Bucket = Bucket(deadline: uint64, keys: seq<Key>)

  function Flatten(buckets: seq<Bucket>): seq<Key> {
    if buckets == [] then [] else buckets[0].keys + Flatten(buckets[1..])
  }

  lemma {:induction false} FlattenConcat(a: seq<Bucket>, b: seq<Bucket>)
    ensures Flatten(a + b) == Flatten(a) + Flatten(b)
  {
    if a == [] {
      assert a + b == b;
    } else {
      assert (a + b)[1..] == a[1..] + b;
      FlattenConcat(a[1..], b);
    }
  }

  lemma {:induction false} FlattenCut(buckets: seq<Bucket>, n: nat)
    requires n <= |buckets|
    ensures Flatten(buckets) == Flatten(buckets[..n]) + Flatten(buckets[n..])
  {
    assert buckets == buckets[..n] + buckets[n..];
    FlattenConcat(buckets[..n], buckets[n..]);
  }

  /** The timeline of buckets `a`, then `b`, then `c`. */
  lemma {:induction false} FlattenParts(a: seq<Bucket>, b: Bucket, c: seq<Bucket>)
    ensures Flatten(a + [b] + c) == Flatten(a) + b.keys + Flatten(c)
  {
    FlattenConcat(a + [b], c);
    FlattenConcat(a, [b]);
    FlattenOne(b);
  }

  lemma {:induction false} FlattenOne(b: Bucket)
    ensures Flatten([b]) == b.keys
  {
  }

  /** A bucket is nonempty and duplicate-free, and the reverse map sends its keys to its deadline. */
  ghost predicate Agrees(b: Bucket, index: map<Key, uint64>) {
    && b.keys != []
    && Distinct(b.keys)
    && forall k :: k in b.keys ==> k in index && index[k] == b.deadline
  }

  ghost predicate AllAgree(buckets: seq<Bucket>, index: map<Key, uint64>) {
    forall i :: 0 <= i < |buckets| ==> Agrees(buckets[i], index)
  }

  ghost predicate Ascending(buckets: seq<Bucket>) {
    forall i, j :: 0 <= i < j < |buckets| ==> buckets[i].deadline < buckets[j].deadline
  }

  /** Buckets and reverse map are inverse to each other. */
  ghost predicate Sound(buckets: seq<Bucket>, index: map<Key, uint64>) {
    Ascending(buckets) && AllAgree(buckets, index) && Elems(Flatten(buckets)) == index.Keys
  }

  lemma {:induction false} FlattenFind(buckets: seq<Bucket>, k: Key) returns (i: nat)
    requires k in Flatten(buckets)
    ensures i < |buckets| && k in buckets[i].keys
  {
    if k in buckets[0].keys {
      i := 0;
    } else {
      i := FlattenFind(buckets[1..], k);
      i := i + 1;
    }
  }

  /** A key lies in no bucket but the one of its deadline. */
  lemma {:induction false} FlattenLacks(buckets: seq<Bucket>, index: map<Key, uint64>, k: Key)
    requires AllAgree(buckets, index)
    requires k in index ==> forall i :: 0 <= i < |buckets| ==> buckets[i].deadline != index[k]
    ensures k !in Flatten(buckets)
  {
    if buckets == [] {
    } else {
      assert Agrees(buckets[0], index);
      assert AllAgree(buckets[1..], index);
      FlattenLacks(buckets[1..], index, k);
    }
  }

  lemma {:induction false} FlattenDue(buckets: seq<Bucket>, index: map<Key, uint64>, ts: uint64)
    requires AllAgree(buckets, index)
    requires forall i :: 0 <= i < |buckets| ==> buckets[i].deadline <= ts
    ensures forall k :: k in Flatten(buckets) ==> k in index && index[k] <= ts
  {
    if buckets == [] {
    } else {
      assert Agrees(buckets[0], index);
      FlattenDue(buckets[1..], index, ts);
    }
  }

  lemma {:induction false} FlattenNotDue(buckets: seq<Bucket>, index: map<Key, uint64>, ts: uint64)
    requires AllAgree(buckets, index)
    requires forall i :: 0 <= i < |buckets| ==> buckets[i].deadline > ts
    ensures forall k :: k in Flatten(buckets) ==> k in index && index[k] > ts
  {
    if buckets == [] {
    } else {
      assert Agrees(buckets[0], index);
      FlattenNotDue(buckets[1..], index, ts);
    }
  }

  /** Cutting the buckets at a time cuts the timeline into what is due and what is not. */
  lemma {:induction false} FlattenSplit(buckets: seq<Bucket>, index: map<Key, uint64>, n: nat, ts: uint64)
    requires Sound(buckets, index) && n <= |buckets|
    requires forall i :: 0 <= i < n ==> buckets[i].deadline <= ts
    requires forall i :: n <= i < |buckets| ==> buckets[i].deadline > ts
    ensures Except(Flatten(buckets), NotDue(index, ts)) == Flatten(buckets[..n])
    ensures Except(Flatten(buckets), Due(index, ts)) == Flatten(buckets[n..])
    ensures Elems(Flatten(buckets[..n])) == Due(index, ts)
  {
    hide Flatten, Except;
    FlattenCut(buckets, n);
    var a, b := buckets[..n], buckets[n..];
    assert AllAgree(a, index) && AllAgree(b, index);
    FlattenDue(a, index, ts);
    FlattenNotDue(b, index, ts);
    SplitByTime(Flatten(a), Flatten(b), index, ts);
  }

  lemma {:induction false} SplitByTime(a: seq<Key>, b: seq<Key>, index: map<Key, uint64>, ts: uint64)
    requires forall k :: k in a ==> k in index && index[k] <= ts
    requires forall k :: k in b ==> k in index && index[k] > ts
    requires Elems(a + b) == index.Keys
    ensures Except(a + b, NotDue(index, ts)) == a && Except(a + b, Due(index, ts)) == b
    ensures Elems(a) == Due(index, ts)
  {
    ExceptConcat(a, b, NotDue(index, ts));
    ExceptConcat(a, b, Due(index, ts));
    ExceptDisjoint(a, NotDue(index, ts));
    ExceptDisjoint(b, Due(index, ts));
    ExceptAll(a, Due(index, ts));
    ExceptAll(b, NotDue(index, ts));
    forall k | k in Due(index, ts) ensures k in a {
      assert k in Elems(a + b);
    }
  }

  /** The position of the first bucket whose deadline is not before `ts`. */
  function LowerBound(buckets: seq<Bucket>, ts: uint64): (n: nat)
    ensures n <= |buckets|
    ensures forall i :: 0 <= i < n ==> buckets[i].deadline < ts
    ensures n < |buckets| ==> buckets[n].deadline >= ts
  {
    if buckets == [] || buckets[0].deadline >= ts then 0 else 1 + LowerBound(buckets[1..], ts)
  }

  lemma {:induction false} BucketOf(buckets: seq<Bucket>, index: map<Key, uint64>, k: Key) returns (p: nat)
    requires Sound(buckets, index) && k in index
    ensures p == LowerBound(buckets, index[k]) && p < |buckets|
    ensures buckets[p].deadline == index[k] && k in buckets[p].keys
  {
    p := LowerBound(buckets, index[k]);
    assert k in Elems(Flatten(buckets));
    var q := FlattenFind(buckets, k);
    assert Agrees(buckets[q], index);
  }

  lemma {:induction false} UntrackedKey(buckets: seq<Bucket>, index: map<Key, uint64>, k: Key)
    requires Sound(buckets, index) && k !in index
    ensures Except(Flatten(buckets), {k}) == Flatten(buckets)
  {
    assert k !in Elems(Flatten(buckets));
    ExceptDisjoint(Flatten(buckets), {k});
  }

  // ----- Removing one key from its bucket -----

  function WithoutAt(buckets: seq<Bucket>, p: nat, i: nat): seq<Bucket>
    requires p < |buckets| && i < |buckets[p].keys|
  {
    var keys := buckets[p].keys[..i] + buckets[p].keys[i + 1..];
    if keys == [] then buckets[..p] + buckets[p + 1..] else buckets[p := buckets[p].(keys := keys)]
  }

  lemma {:induction false} WithoutAtFlatten(buckets: seq<Bucket>, index: map<Key, uint64>, p: nat, i: nat)
    requires Sound(buckets, index) && p < |buckets| && i < |buckets[p].keys|
    ensures Flatten(WithoutAt(buckets, p, i)) == Except(Flatten(buckets), {buckets[p].keys[i]})
  {
    hide Flatten, Except;
    var a, ks, b := buckets[..p], buckets[p].keys, buckets[p + 1..];
    var k := ks[i];
    assert Agrees(buckets[p], index);
    FlattenLacks(a, index, k);
    FlattenLacks(b, index, k);
    var keys := ks[..i] + ks[i + 1..];
    assert buckets == a + [buckets[p]] + b;
    FlattenParts(a, buckets[p], b);
    ExceptAround(Flatten(a), ks, Flatten(b), i);
    if keys == [] {
      FlattenConcat(a, b);
      assert Flatten(a) + keys == Flatten(a);
    } else {
      FlattenParts(a, buckets[p].(keys := keys), b);
      assert WithoutAt(buckets, p, i) == a + [buckets[p].(keys := keys)] + b;
    }
  }

  lemma {:induction false} ExceptAround(a: seq<Key>, ks: seq<Key>, b: seq<Key>, i: nat)
    requires Distinct(ks) && i < |ks| && ks[i] !in a && ks[i] !in b
    ensures Except(a + ks + b, {ks[i]}) == a + (ks[..i] + ks[i + 1..]) + b
  {
    ExceptConcat(a + ks, b, {ks[i]});
    ExceptConcat(a, ks, {ks[i]});
    ExceptDisjoint(a, {ks[i]});
    ExceptDisjoint(b, {ks[i]});
    SplitAround(ks, i);
  }

  lemma {:induction false} WithoutAtAgree(buckets: seq<Bucket>, index: map<Key, uint64>, p: nat, i: nat)
    requires Sound(buckets, index) && p < |buckets| && i < |buckets[p].keys|
    ensures AllAgree(WithoutAt(buckets, p, i), index - {buckets[p].keys[i]})
  {
    var ks, r := buckets[p].keys, WithoutAt(buckets, p, i);
    var k, keys := ks[i], ks[..i] + ks[i + 1..];
    assert Agrees(buckets[p], index);
    SplitAround(ks, i);
    ExceptElems(ks, {k});
    ExceptDistinct(ks, {k});
    forall j | 0 <= j < |r| ensures Agrees(r[j], index - {k}) {
      if keys != [] && j == p {
        assert r[p].keys == keys;
      } else {
        var q := if keys == [] && j >= p then j + 1 else j;
        assert r[j] == buckets[q] && Agrees(buckets[q], index) && q != p;
      }
    }
  }

  lemma {:induction false} WithoutAtSound(buckets: seq<Bucket>, index: map<Key, uint64>, p: nat, i: nat)
    requires Sound(buckets, index) && p < |buckets| && i < |buckets[p].keys|
    ensures Sound(WithoutAt(buckets, p, i), index - {buckets[p].keys[i]})
  {
    hide Flatten, Except;
    WithoutAtAgree(buckets, index, p, i);
    WithoutAtFlatten(buckets, index, p, i);
    ExceptElems(Flatten(buckets), {buckets[p].keys[i]});
  }

  // ----- Adding one key to the bucket of its deadline -----

  function WithKey(buckets: seq<Bucket>, k: Key, ts: uint64): seq<Bucket> {
    var p := LowerBound(buckets, ts);
    if p < |buckets| && buckets[p].deadline == ts
    then buckets[p := buckets[p].(keys := buckets[p].keys + [k])]
    else buckets[..p] + [Bucket(ts, [k])] + buckets[p..]
  }

  lemma {:induction false} JoinFlatten(buckets: seq<Bucket>, p: nat, k: Key)
    requires p < |buckets|
    ensures Flatten(buckets[p := buckets[p].(keys := buckets[p].keys + [k])]) ==
            Flatten(buckets[..p + 1]) + [k] + Flatten(buckets[p + 1..])
  {
    hide Flatten;
    var a, b, c := buckets[..p], buckets[p], buckets[p + 1..];
    var b' := b.(keys := b.keys + [k]);
    assert buckets[p := b'] == a + [b'] + c;
    FlattenParts(a, b', c);
    assert buckets[..p + 1] == a + [b];
    FlattenConcat(a, [b]);
    FlattenOne(b);
    assert Flatten(a) + (b.keys + [k]) == Flatten(a) + b.keys + [k];
  }

  lemma {:induction false} WithKeyFlatten(buckets: seq<Bucket>, index: map<Key, uint64>, k: Key, ts: uint64)
    requires Sound(buckets, index)
    ensures Flatten(WithKey(buckets, k, ts)) ==
            Except(Flatten(buckets), NotDue(index, ts)) + [k] + Except(Flatten(buckets), Due(index, ts))
  {
    hide Flatten, Except;
    var p := LowerBound(buckets, ts);
    if p < |buckets| && buckets[p].deadline == ts {
      FlattenSplit(buckets, index, p + 1, ts);
      JoinFlatten(buckets, p, k);
    } else {
      FlattenSplit(buckets, index, p, ts);
      FlattenParts(buckets[..p], Bucket(ts, [k]), buckets[p..]);
    }
  }

  lemma {:induction false} WithKeyAgree(buckets: seq<Bucket>, index: map<Key, uint64>, k: Key, ts: uint64)
    requires Sound(buckets, index) && k !in index
    ensures AllAgree(WithKey(buckets, k, ts), index[k := ts])
  {
    var p, r := LowerBound(buckets, ts), WithKey(buckets, k, ts);
    var shared := p < |buckets| && buckets[p].deadline == ts;
    forall j | 0 <= j < |r| ensures Agrees(r[j], index[k := ts]) {
      if j == p {
        if shared { assert Agrees(buckets[p], index); }
      } else {
        var q := if shared || j < p then j else j - 1;
        assert r[j] == buckets[q] && Agrees(buckets[q], index);
      }
    }
  }

  lemma {:induction false} WithKeyAscending(buckets: seq<Bucket>, k: Key, ts: uint64)
    requires Ascending(buckets)
    ensures Ascending(WithKey(buckets, k, ts))
  {
  }

  lemma {:induction false} WithKeySound(buckets: seq<Bucket>, index: map<Key, uint64>, k: Key, ts: uint64)
    requires Sound(buckets, index) && k !in index
    ensures Sound(WithKey(buckets, k, ts), index[k := ts])
  {
    hide Flatten, Except;
    WithKeyAgree(buckets, index, k, ts);
    WithKeyAscending(buckets, k, ts);
    WithKeyFlatten(buckets, index, k, ts);
    ExceptElems(Flatten(buckets), NotDue(index, ts));
    ExceptElems(Flatten(buckets), Due(index, ts));
    var a, b := Except(Flatten(buckets), NotDue(index, ts)), Except(Flatten(buckets), Due(index, ts));
    assert Elems(a + [k] + b) == Elems(a) + {k} + Elems(b);
  }

  // ----- Dropping the first bucket -----

  lemma {:induction false} DropFirstSound(buckets: seq<Bucket>, index: map<Key, uint64>)
    requires Sound(buckets, index) && buckets != []
    ensures Sound(buckets[1..], index - Elems(buckets[0].keys))
  {
    var first, rest := buckets[0], buckets[1..];
    var index' := index - Elems(first.keys);
    assert Agrees(first, index);
    forall j | 0 <= j < |rest| ensures Agrees(rest[j], index') {
      assert rest[j] == buckets[j + 1] && Agrees(buckets[j + 1], index);
    }
    FlattenNotDue(rest, index, first.deadline);
    assert Elems(first.keys + Flatten(rest)) == Elems(first.keys) + Elems(Flatten(rest));
    assert forall k :: k in Flatten(rest) ==> k !in first.keys;
    assert Elems(Flatten(rest)) == index'.Keys;
  }

  lemma {:induction false} SoundDistinct(buckets: seq<Bucket>, index: map<Key, uint64>)
    requires Ascending(buckets) && AllAgree(buckets, index)
    ensures Distinct(Flatten(buckets))
  {
    if buckets == [] {
    } else {
      var first, rest := buckets[0], buckets[1..];
      assert AllAgree(rest, index) && Agrees(first, index);
      SoundDistinct(rest, index);
      FlattenNotDue(rest, index, first.deadline);
      DistinctConcat(first.keys, Flatten(rest));
    }
  }

  class TTLIndex {
    var buckets: seq<Bucket>
    var keyIndex: map<Key, uint64>

    ghost predicate Valid()
      reads this
    {
      Sound(buckets, keyIndex)
    }

    ghost function State(): TtlState
      reads this
    {
      TtlState(Flatten(buckets), keyIndex)
    }

    constructor ()
      ensures Valid() && State() == TtlState([], map[])
    {
      buckets, keyIndex := [], map[];
    }

    method Upsert(key: Key, expireAt: uint64)
      requires Valid()
      modifies this
      ensures Valid() && State() == ApplyUpsert(old(State()), key, expireAt)
      ensures keyIndex == old(keyIndex)[key := expireAt]
    {
      Remove(key);
      WithKeyFlatten(buckets, keyIndex, key, expireAt);
      WithKeySound(buckets, keyIndex, key, expireAt);
      Append(key, expireAt);
      keyIndex := keyIndex[key := expireAt];
    }

    /** Appends to the bucket of a deadline, creating the bucket if there is none. */
    method Append(key: Key, expireAt: uint64)
      modifies this`buckets
      ensures buckets == WithKey(old(buckets), key, expireAt)
    {
      var p := LowerBound(buckets, expireAt);
      if p == |buckets| || buckets[p].deadline != expireAt {
        buckets := buckets[..p] + [Bucket(expireAt, [])] + buckets[p..];
        assert buckets[p].keys + [key] == [key];
      }
      buckets := buckets[p := buckets[p].(keys := buckets[p].keys + [key])];
    }

    method Remove(key: Key)
      requires Valid()
      modifies this
      ensures Valid() && State() == ApplyRemove(old(State()), key)
      ensures keyIndex == old(keyIndex) - {key}
    {
      hide Sound, Flatten;
      if key !in keyIndex {
        UntrackedKey(buckets, keyIndex, key);
        return;
      }
      ghost var _ := BucketOf(buckets, keyIndex, key);
      var p := LowerBound(buckets, keyIndex[key]);
      var keys := buckets[p].keys;
      var i := 0;
      while keys[i] != key
        invariant 0 <= i < |keys| && key in keys[i..]
        decreases |keys| - i
      {
        i := i + 1;
      }
      WithoutAtFlatten(buckets, keyIndex, p, i);
      WithoutAtSound(buckets, keyIndex, p, i);
      keys := keys[..i] + keys[i + 1..];
      if keys == [] {
        buckets := buckets[..p] + buckets[p + 1..];
      } else {
        buckets := buckets[p := buckets[p].(keys := keys)];
      }
      keyIndex := keyIndex - {key};
    }

    method CollectExpired(now: uint64) returns (expired: seq<Key>)
      requires Valid()
      modifies this
      ensures Valid()
      ensures expired == Collected(old(State()), now)
      ensures State() == ApplyCollect(old(State()), now)
      ensures keyIndex == old(keyIndex) - Elems(expired)
      ensures Elems(expired) == Due(old(keyIndex), now) && Distinct(expired)
    {
      hide Except;
      SoundDistinct(buckets, keyIndex);
      ExceptDistinct(Flatten(buckets), NotDue(keyIndex, now));
      ghost var all, index, n := buckets, keyIndex, 0;
      expired := [];
      while buckets != [] && buckets[0].deadline <= now
        invariant 0 <= n <= |all| && buckets == all[n..]
        invariant forall i :: 0 <= i < n ==> all[i].deadline <= now
        invariant expired == Flatten(all[..n])
        invariant keyIndex == index - Elems(expired)
        invariant Sound(buckets, keyIndex)
        decreases |all| - n
      {
        var keys := buckets[0].keys;
        DropFirstSound(buckets, keyIndex);
        assert all[..n + 1] == all[..n] + [buckets[0]];
        FlattenConcat(all[..n], [buckets[0]]);
        FlattenOne(buckets[0]);
        EraseAll(keys);
        expired := expired + keys;
        buckets := buckets[1..];
        n := n + 1;
      }
      forall i | n <= i < |all| ensures all[i].deadline > now {
        assert buckets[0] == all[n];
      }
      FlattenSplit(all, index, n, now);
    }

    /** Erases each of `keys` from the reverse map. */
    method EraseAll(keys: seq<Key>)
      modifies this`keyIndex
      ensures keyIndex == old(keyIndex) - Elems(keys)
    {
      for i := 0 to |keys|
        invariant keyIndex == old(keyIndex) - Elems(keys[..i])
      {
        assert keys[..i + 1] == keys[..i] + [keys[i]];
        assert Elems(keys[..i + 1]) == Elems(keys[..i]) + {keys[i]};
        keyIndex := keyIndex - {keys[i]};
      }
      assert keys[..|keys|] == keys;
    }
  }
}
