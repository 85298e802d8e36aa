/** What a shard promises over whole runs of operations. */
module ShardTheorems {
  import opened Common
  import opened Sequences
  import opened Entries
  import opened Recency
  import opened ShardStates
  import Timelines

  // ----- The cross-index invariant over runs -----

  lemma {:induction false} RunKeepsConsistent(s: ShardState, ops: seq<ShardOp>)
    requires Consistent(s)
    ensures Consistent(Run(s, ops)) && Run(s, ops).capacity == s.capacity
    decreases |ops|
  {
    if ops == [] {
    } else {
      ApplyKeepsInvariants(s, ops[0]);
      RunKeepsConsistent(Apply(s, ops[0]), ops[1..]);
    }
  }

  ghost predicate ExactThroughout(s: ShardState, ops: seq<ShardOp>)
    decreases |ops|
  {
    Exact(s) && (ops != [] ==> ExactThroughout(Apply(s, ops[0]), ops[1..]))
  }

  predicate CleanThroughout(s: ShardState, ops: seq<ShardOp>)
    decreases |ops|
  {
    ops != [] ==> Clean(s, ops[0]) && CleanThroughout(Apply(s, ops[0]), ops[1..])
  }

  /** The TTL index stays exact during a whole run if and only if no write of the run overwrites
      an indexed key with an entry that never expires. */
  lemma {:induction false} IndexExactIffClean(s: ShardState, ops: seq<ShardOp>)
    requires Exact(s)
    ensures ExactThroughout(s, ops) <==> CleanThroughout(s, ops)
    decreases |ops|
  {
    if ops == [] {
    } else {
      ApplyKeepsInvariants(s, ops[0]);
      if Clean(s, ops[0]) {
        IndexExactIffClean(Apply(s, ops[0]), ops[1..]);
      }
    }
  }

  /** In particular when every write with a TTL gets a real deadline: the TTL is not 0 and the sum
      does not wrap to 0. */
  lemma {:induction false} RealDeadlinesAreClean(s: ShardState, ops: seq<ShardOp>)
    requires forall i :: 0 <= i < |ops| && ops[i].SetWithTTL? ==> DeadlineAfter(ops[i].now, ops[i].ttl) != 0
    ensures CleanThroughout(s, ops)
    decreases |ops|
  {
    if ops == [] {
    } else {
      assert forall i :: 0 <= i < |ops[1..]| ==> ops[1..][i] == ops[i + 1];
      RealDeadlinesAreClean(Apply(s, ops[0]), ops[1..]);
    }
  }

  // ----- The sweep cannot be observed -----

  lemma {:induction false} RemoveAllAnswer(s: ShardState, gone: set<Key>, k: Key, now: uint64)
    ensures Answer(RemoveAll(s, gone), k, now) == if k in gone then None else Answer(s, k, now)
  {
  }

  /** Every due TTL record belongs to an expired entry. */
  ghost predicate DueMeansExpired(s: ShardState, now: uint64)
    requires Consistent(s)
  {
    forall k :: k in Timelines.Due(s.deadlines, now) ==> s.store[k].IsExpired(now)
  }

  /** A sweep removes all expired entries and keeps the order of the others; it removes nothing
      else if and only if every due record belongs to an expired entry. */
  lemma {:induction false} SweepRemovesTheExpired(s: ShardState, now: uint64)
    requires Consistent(s)
    ensures var s' := Apply(s, CleanupExpired(now));
            && (forall k :: k in s'.store ==> k in s.store && s'.store[k] == s.store[k] && !s.store[k].IsExpired(now))
            && s'.order == Except(s.order, s.store.Keys - s'.store.Keys)
            && ((forall k :: k in s.store && !s.store[k].IsExpired(now) ==> k in s'.store) <==> DueMeansExpired(s, now))
    ensures Exact(s) ==> DueMeansExpired(s, now) && Exact(Apply(s, CleanupExpired(now)))
  {
    var due := Timelines.Due(s.deadlines, now);
    RemoveAllKeepsConsistent(s, due);
    assert forall k :: k in s.store && s.store[k].IsExpired(now) ==> k in due;
    assert due == s.store.Keys - RemoveAll(s, due).store.Keys;
  }

  /** Sweeping changes no later answer if and only if every TTL record that is due belongs to an
      expired entry. */
  lemma {:induction false} SweepUnobservable(s: ShardState, now: uint64)
    requires Consistent(s)
    ensures (forall k, later: uint64 :: now <= later ==>
               Answer(Apply(s, CleanupExpired(now)), k, later) == Answer(s, k, later))
            <==> DueMeansExpired(s, now)
    ensures Exact(s) ==> DueMeansExpired(s, now)
  {
    var due := Timelines.Due(s.deadlines, now);
    var s' := Apply(s, CleanupExpired(now));
    if DueMeansExpired(s, now) {
      forall k, later: uint64 | now <= later
        ensures Answer(s', k, later) == Answer(s, k, later)
      {
        RemoveAllAnswer(s, due, k, later);
        if k in due { ExpiryIsPermanent(s.store[k], now, later); }
      }
    } else {
      var k :| k in due && !s.store[k].IsExpired(now);
      RemoveAllAnswer(s, due, k, now);
      assert Answer(s', k, now) != Answer(s, k, now);
    }
  }

  // ----- Reads -----

  /** No trace is left of a key, and everything else is as it was. */
  ghost predicate Forgets(s: ShardState, s': ShardState, k: Key) {
    && k !in s'.store && k !in s'.order && k !in s'.deadlines
    && s'.order == Except(s.order, {k}) && s'.capacity == s.capacity
    && (forall j :: j != k ==> (j in s'.store <==> j in s.store) && (j in s'.deadlines <==> j in s.deadlines))
    && (forall j :: j != k && j in s.store ==> s'.store[j] == s.store[j])
    && (forall j :: j != k && j in s.deadlines ==> s'.deadlines[j] == s.deadlines[j])
  }

  lemma {:induction false} DeleteRemoves(s: ShardState, k: Key)
    ensures Forgets(s, Apply(s, Delete(k)), k)
  {
    ExceptElems(s.order, {k});
  }

  /** A read that misses leaves no trace of its key. */
  lemma {:induction false} MissRemoves(s: ShardState, k: Key, now: uint64)
    requires Consistent(s) && Answer(s, k, now) == None
    ensures Forgets(s, Apply(s, Get(k, now)), k)
  {
    ExceptElems(s.order, {k});
    if k !in s.store {
      assert k !in Elems(s.order);
      ExceptDisjoint(s.order, {k});
    }
  }

  /** A read that hits moves its key to the front and changes nothing else. */
  lemma {:induction false} HitMovesToFront(s: ShardState, k: Key, now: uint64)
    requires Consistent(s) && Answer(s, k, now).Some?
    ensures var s' := Apply(s, Get(k, now));
            s'.store == s.store && s'.deadlines == s.deadlines && s'.order == [k] + Except(s.order, {k})
  {
  }

  /** A read that finds an expired entry frees its place: the next write evicts nothing, whatever its
      key is. */
  lemma {:induction false} ExpiredReadMakesRoom(s: ShardState, k: Key, now: uint64, write: ShardOp)
    requires Consistent(s) && k in s.store && Answer(s, k, now) == None && (write.Set? || write.SetWithTTL?)
    ensures var s' := Apply(Apply(s, Get(k, now)), write);
            forall j :: j in s.store && j != k && j != write.key ==> j in s'.store && s'.store[j] == s.store[j]
  {
    var s1 := Apply(s, Get(k, now));
    MissRemoves(s, k, now);
    ApplyKeepsInvariants(s, Get(k, now));
    assert k in Elems(s.order);
    ExceptOne(s.order, k);
    assert !Overflows(s1, write.key);
    hide Consistent, Except;
  }

  // ----- Capacity inclusion -----

  /** The small shard holds part of what the large one holds, in the same order, and is short of
      at most the difference of the capacities. */
  ghost predicate Included(s: ShardState, l: ShardState) {
    && s.capacity <= l.capacity
    && Subsequence(s.order, l.order)
    && (forall k :: k in s.store ==> k in l.store && l.store[k] == s.store[k])
    && |l.order| - |s.order| <= l.capacity - s.capacity
  }

  lemma {:induction false} ExceptCongruence(order: seq<Key>, a: set<Key>, b: set<Key>)
    requires forall k :: k in order ==> (k in a <==> k in b)
    ensures Except(order, a) == Except(order, b)
  {
    if order == [] {
    } else {
      assert order[0] in order && forall k :: k in order[1..] ==> k in order;
      ExceptCongruence(order[1..], a, b);
    }
  }

  lemma {:induction false} RemoveAllCongruence(s: ShardState, a: set<Key>, b: set<Key>)
    requires Consistent(s)
    requires forall k :: k in s.store ==> (k in a <==> k in b)
    ensures RemoveAll(s, a) == RemoveAll(s, b)
  {
    assert forall k :: k in s.order ==> k in Elems(s.order);
    ExceptCongruence(s.order, a, b);
    assert s.store - a == s.store - b;
    assert s.deadlines - a == s.deadlines - b;
  }

  lemma {:induction false} ExceptSize(order: seq<Key>, gone: set<Key>)
    requires Distinct(order)
    ensures |Except(order, gone)| == |order| - |Elems(order) * gone|
  {
    ExceptElems(order, gone);
    ExceptDistinct(order, gone);
    DistinctCardinality(order);
    DistinctCardinality(Except(order, gone));
    CardinalitySubset(Elems(order) * gone, Elems(order));
    assert Elems(order) - Elems(order) * gone == Elems(order) - gone;
  }

  /** The guard of deleting `ds` from the small shard and `dl` from the large one: the large one must
      not lose a key that the small one keeps, nor get too far ahead. */
  ghost predicate DropAgrees(s: ShardState, l: ShardState, ds: set<Key>, dl: set<Key>) {
    && s.store.Keys * dl <= ds
    && |l.order| - |l.store.Keys * dl| - (|s.order| - |s.store.Keys * ds|) <= l.capacity - s.capacity
  }

  lemma {:induction false} SubsequenceAfterDrop(s: ShardState, l: ShardState, ds: set<Key>, dl: set<Key>)
    requires Consistent(s) && Consistent(l) && Included(s, l) && s.store.Keys * dl <= ds
    ensures Subsequence(Except(s.order, ds), Except(l.order, dl))
  {
    SubsequenceExcept(s.order, l.order, dl);
    SubsequenceShrink(Except(s.order, dl), Except(l.order, dl), ds);
    ExceptExcept(s.order, dl, ds);
    assert forall k :: k in s.order ==> k in Elems(s.order);
    ExceptCongruence(s.order, dl + ds, ds);
  }

  lemma {:induction false} DropSize(s: ShardState, gone: set<Key>)
    requires Consistent(s)
    ensures |Except(s.order, gone)| == |s.order| - |s.store.Keys * gone|
  {
    ExceptSize(s.order, gone);
  }

  lemma {:induction false} DropLosesKey(s: ShardState, l: ShardState, ds: set<Key>, dl: set<Key>)
    requires !(s.store.Keys * dl <= ds)
    ensures !Included(RemoveAll(s, ds), RemoveAll(l, dl))
  {
    hide Except, Subsequence;
    var k :| k in s.store && k in dl && k !in ds;
    assert k in RemoveAll(s, ds).store && k !in RemoveAll(l, dl).store;
  }

  lemma {:induction false} IncludedAfterDrop(s: ShardState, l: ShardState, ds: set<Key>, dl: set<Key>)
    requires Consistent(s) && Consistent(l) && Included(s, l)
    ensures Included(RemoveAll(s, ds), RemoveAll(l, dl)) <==> DropAgrees(s, l, ds, dl)
  {
    hide Except, Subsequence, Consistent;
    if s.store.Keys * dl <= ds {
      DropSize(s, ds);
      DropSize(l, dl);
      SubsequenceAfterDrop(s, l, ds, dl);
    } else {
      DropLosesKey(s, l, ds, dl);
    }
  }

  lemma {:induction false} SameDropAgrees(s: ShardState, l: ShardState, gone: set<Key>)
    requires Consistent(s) && Consistent(l) && Included(s, l)
    ensures DropAgrees(s, l, gone, gone)
  {
    SubsequenceElems(s.order, l.order);
    CardinalitySubset(s.store.Keys * gone, l.store.Keys * gone);
  }

  lemma {:induction false} IncludedAfterRemove(s: ShardState, l: ShardState, gone: set<Key>)
    requires Consistent(s) && Consistent(l) && Included(s, l)
    ensures Included(RemoveAll(s, gone), RemoveAll(l, gone))
  {
    IncludedAfterDrop(s, l, gone, gone);
    SameDropAgrees(s, l, gone);
  }

  /** Recency orders after the same key has been written to both shards. */
  lemma {:induction false} OrdersAfterPut(s: seq<Key>, l: seq<Key>, k: Key, c: nat, C: nat)
    requires Subsequence(s, l) && Distinct(l) && 1 <= c <= C && |l| <= C && |s| <= c && |l| - |s| <= C - c
    ensures var s', l' := OrderAfterPut(s, k, c), OrderAfterPut(l, k, C);
            Subsequence(s', l') && |l'| - |s'| <= C - c
  {
    SubsequenceElems(s, l);
    SubsequenceTouch(s, l, k);
    MoveToFrontFacts(s, k);
    MoveToFrontFacts(l, k);
    var ts, tl := MoveToFront(s, k), MoveToFront(l, k);
    if k !in s && |s| + 1 > c {
      if k !in l && |l| + 1 > C {
        SubsequencePop(ts, tl);
      } else {
        SubsequencePrefix(ts, tl, |ts| - 1);
      }
    }
  }

  lemma {:induction false} IncludedAfterPut(
    s: ShardState, l: ShardState, k: Key, e: Entry, ds: map<Key, uint64>, dl: map<Key, uint64>)
    requires Consistent(s) && Consistent(l) && Included(s, l)
    ensures Included(Put(s, k, e, ds), Put(l, k, e, dl))
  {
    OrdersAfterPut(s.order, l.order, k, s.capacity, l.capacity);
    var s' := PutFacts(s, k, e, ds);
    var l' := PutFacts(l, k, e, dl);
    SubsequenceElems(s'.order, l'.order);
    forall j | j in s'.store ensures j in l'.store && l'.store[j] == s'.store[j] {
      assert j in Elems(s'.order);
      assert j in Elems(l'.order);
    }
  }

  lemma {:induction false} IncludedAfterGet(s: ShardState, l: ShardState, k: Key, now: uint64)
    requires Consistent(s) && Consistent(l) && Included(s, l)
    ensures Included(ApplyGet(s, k, now), ApplyGet(l, k, now))
  {
    if k in l.store {
      if l.store[k].IsExpired(now) {
        IncludedAfterRemove(s, l, {k});
        if k !in s.store { RemoveAllCongruence(s, {k}, {}); RemoveNothing(s); }
      } else {
        assert k in Elems(l.order);
        MoveToFrontFacts(l.order, k);
        MoveToFrontFacts(s.order, k);
        if k in s.store {
          assert k in Elems(s.order);
          SubsequenceTouch(s.order, l.order, k);
        } else {
          assert k !in Elems(s.order);
          SubsequenceTouchLarge(s.order, l.order, k);
        }
      }
    }
  }

  lemma {:induction false} RemoveNothing(s: ShardState)
    ensures RemoveAll(s, {}) == s
  {
    ExceptDisjoint(s.order, {});
  }

  /** The guard of the one operation that can break inclusion. */
  ghost predicate SweepAgrees(s: ShardState, l: ShardState, op: ShardOp) {
    op.CleanupExpired? ==>
      DropAgrees(s, l, Timelines.Due(s.deadlines, op.now), Timelines.Due(l.deadlines, op.now))
  }

  /** Writes, reads and deletes always keep inclusion, whatever the TTLs and TTL records; a sweep
      keeps it if and only if it agrees. */
  lemma {:induction false} IncludedAfterStep(s: ShardState, l: ShardState, op: ShardOp)
    requires Consistent(s) && Consistent(l) && Included(s, l)
    ensures Included(Apply(s, op), Apply(l, op)) <==> SweepAgrees(s, l, op)
  {
    match op
    case Set(k, v, now) =>
      IncludedAfterPut(s, l, k, NewEntry(v, now), s.deadlines - {k}, l.deadlines - {k});
    case SetWithTTL(k, v, ttl, now) =>
      var e := NewEntryWithTTL(v, ttl, now);
      IncludedAfterPut(s, l, k, e, WithDeadline(s.deadlines, k, e), WithDeadline(l.deadlines, k, e));
    case Get(k, now) => IncludedAfterGet(s, l, k, now);
    case Delete(k) => IncludedAfterRemove(s, l, {k});
    case CleanupExpired(now) =>
      IncludedAfterDrop(s, l, Timelines.Due(s.deadlines, now), Timelines.Due(l.deadlines, now));
  }

  ghost predicate IncludedThroughout(s: ShardState, l: ShardState, ops: seq<ShardOp>)
    decreases |ops|
  {
    Included(s, l) && (ops != [] ==> IncludedThroughout(Apply(s, ops[0]), Apply(l, ops[0]), ops[1..]))
  }

  ghost predicate SweepsAgreeThroughout(s: ShardState, l: ShardState, ops: seq<ShardOp>)
    decreases |ops|
  {
    ops != [] ==> SweepAgrees(s, l, ops[0]) && SweepsAgreeThroughout(Apply(s, ops[0]), Apply(l, ops[0]), ops[1..])
  }

  /** No Belady anomaly, exactly: on the same run a larger shard includes a smaller one at every
      moment if and only if every sweep of the run agrees. */
  lemma {:induction false} CapacityInclusion(s: ShardState, l: ShardState, ops: seq<ShardOp>)
    requires Consistent(s) && Consistent(l) && Included(s, l)
    ensures IncludedThroughout(s, l, ops) <==> SweepsAgreeThroughout(s, l, ops)
    decreases |ops|
  {
    if ops == [] {
    } else {
      ApplyKeepsInvariants(s, ops[0]);
      ApplyKeepsInvariants(l, ops[0]);
      IncludedAfterStep(s, l, ops[0]);
      if SweepAgrees(s, l, ops[0]) {
        CapacityInclusion(Apply(s, ops[0]), Apply(l, ops[0]), ops[1..]);
      }
    }
  }

  /** What inclusion is for: every hit of the small shard is the same hit of the large one. */
  lemma {:induction false} InclusionSharesHits(s: ShardState, l: ShardState, ops: seq<ShardOp>, k: Key, now: uint64)
    requires IncludedThroughout(s, l, ops)
    ensures Included(Run(s, ops), Run(l, ops))
    ensures Answer(Run(s, ops), k, now).Some? ==> Answer(Run(l, ops), k, now) == Answer(Run(s, ops), k, now)
    decreases |ops|
  {
    if ops == [] {
    } else {
      InclusionSharesHits(Apply(s, ops[0]), Apply(l, ops[0]), ops[1..], k, now);
    }
  }

  /** Runs without sweeps include, whatever their TTLs. */
  lemma {:induction false} UnsweptRunsInclude(s: ShardState, l: ShardState, ops: seq<ShardOp>)
    requires Consistent(s) && Consistent(l) && Included(s, l)
    requires forall i :: 0 <= i < |ops| ==> !ops[i].CleanupExpired?
    ensures IncludedThroughout(s, l, ops)
    decreases |ops|
  {
    if ops == [] {
    } else {
      ApplyKeepsInvariants(s, ops[0]);
      ApplyKeepsInvariants(l, ops[0]);
      IncludedAfterStep(s, l, ops[0]);
      assert forall i :: 0 <= i < |ops[1..]| ==> ops[1..][i] == ops[i + 1];
      UnsweptRunsInclude(Apply(s, ops[0]), Apply(l, ops[0]), ops[1..]);
    }
  }

  lemma {:induction false} RecordedSweepAgrees(s: ShardState, l: ShardState, now: uint64)
    requires Consistent(s) && Consistent(l) && Included(s, l)
    requires s.store.Keys * Timelines.Due(l.deadlines, now) == Timelines.Due(s.deadlines, now)
    ensures SweepAgrees(s, l, CleanupExpired(now))
  {
    var ds, dl := Timelines.Due(s.deadlines, now), Timelines.Due(l.deadlines, now);
    assert s.store.Keys * ds == ds && l.store.Keys * dl == dl;
    CardinalitySubset(ds, dl);
  }

  lemma {:induction false} ExactSweepsAgree(s: ShardState, l: ShardState, op: ShardOp)
    requires Exact(s) && Exact(l) && Included(s, l)
    ensures SweepAgrees(s, l, op)
  {
    if op.CleanupExpired? {
      var ds, dl := Timelines.Due(s.deadlines, op.now), Timelines.Due(l.deadlines, op.now);
      assert s.store.Keys * dl == ds;
      RecordedSweepAgrees(s, l, op.now);
    }
  }

  /** Runs that leave no stale TTL record in either shard include, swept or not. */
  lemma {:induction false} CleanRunsInclude(s: ShardState, l: ShardState, ops: seq<ShardOp>)
    requires Exact(s) && Exact(l) && Included(s, l)
    requires CleanThroughout(s, ops) && CleanThroughout(l, ops)
    ensures IncludedThroughout(s, l, ops)
    decreases |ops|
  {
    if ops == [] {
    } else {
      ApplyKeepsInvariants(s, ops[0]);
      ApplyKeepsInvariants(l, ops[0]);
      ExactSweepsAgree(s, l, ops[0]);
      IncludedAfterStep(s, l, ops[0]);
      CleanRunsInclude(Apply(s, ops[0]), Apply(l, ops[0]), ops[1..]);
    }
  }

  /** In particular two empty shards of any capacities c <= C are related. */
  lemma {:induction false} EmptyShardsIncluded(c: nat, C: nat)
    requires 1 <= c <= C
    ensures Exact(EmptyShard(c)) && Exact(EmptyShard(C)) && Included(EmptyShard(c), EmptyShard(C))
  {
    assert Except<Key>([], {}) == [];
    assert Elems<Key>([]) == {};
  }

  /** Every TTL record of the small shard is a record of the large one with the same deadline. */
  ghost predicate SharesRecords(s: ShardState, l: ShardState) {
    forall k :: k in s.deadlines ==> k in l.deadlines && l.deadlines[k] == s.deadlines[k]
  }

  /** A sweep takes no key from the large shard that the small one stores without a record. */
  ghost predicate SweepsRecorded(s: ShardState, l: ShardState, op: ShardOp) {
    op.CleanupExpired? ==> s.store.Keys * Timelines.Due(l.deadlines, op.now) <= s.deadlines.Keys
  }

  ghost predicate SweepsRecordedThroughout(s: ShardState, l: ShardState, ops: seq<ShardOp>)
    decreases |ops|
  {
    ops != [] ==>
      SweepsRecorded(s, l, ops[0]) && SweepsRecordedThroughout(Apply(s, ops[0]), Apply(l, ops[0]), ops[1..])
  }

  lemma {:induction false} SharedSweepAgrees(s: ShardState, l: ShardState, op: ShardOp)
    requires Consistent(s) && Consistent(l) && Included(s, l) && SharesRecords(s, l)
    ensures SweepAgrees(s, l, op) <==> SweepsRecorded(s, l, op)
  {
    if op.CleanupExpired? {
      var ds, dl := Timelines.Due(s.deadlines, op.now), Timelines.Due(l.deadlines, op.now);
      if s.store.Keys * dl <= s.deadlines.Keys {
        assert s.store.Keys * dl == ds;
        RecordedSweepAgrees(s, l, op.now);
      }
    }
  }

  /** What inclusion keeps between the two TTL indexes. */
  lemma {:induction false} SharesRecordsAfterStep(s: ShardState, l: ShardState, op: ShardOp)
    requires Consistent(s) && Consistent(l) && Included(s, l) && SharesRecords(s, l)
    requires Included(Apply(s, op), Apply(l, op))
    ensures SharesRecords(Apply(s, op), Apply(l, op))
  {
    hide Put, MoveToFront, Subsequence, Except, Distinct;
    ApplyKeepsInvariants(s, op);
    match op
    case Set(k, v, now) => SharesRecordsAfterPut(s, l, k, NewEntry(v, now), s.deadlines - {k}, l.deadlines - {k});
    case SetWithTTL(k, v, ttl, now) =>
      var e := NewEntryWithTTL(v, ttl, now);
      SharesRecordsAfterPut(s, l, k, e, WithDeadline(s.deadlines, k, e), WithDeadline(l.deadlines, k, e));
    case _ =>
  }

  lemma {:induction false} SharesRecordsAfterPut(
    s: ShardState, l: ShardState, k: Key, e: Entry, ds: map<Key, uint64>, dl: map<Key, uint64>)
    requires Consistent(s) && Consistent(l) && Included(Put(s, k, e, ds), Put(l, k, e, dl))
    requires Consistent(Put(s, k, e, ds))
    requires forall j :: j in ds ==> j in dl && dl[j] == ds[j]
    ensures SharesRecords(Put(s, k, e, ds), Put(l, k, e, dl))
  {
    var s' := PutFacts(s, k, e, ds);
    var l' := PutFacts(l, k, e, dl);
    forall j | j in s'.deadlines ensures j in l'.deadlines && l'.deadlines[j] == s'.deadlines[j] {
      assert j in s'.store && j in l'.store && j in ds;
    }
  }

  /** Inclusion from the start, with a guard that needs no sizes: two empty shards include on a run
      if and only if no sweep takes from the large one a key that the small one stores without a
      record. */
  lemma {:induction false} CapacityInclusionFromEmpty(c: nat, C: nat, ops: seq<ShardOp>)
    requires 1 <= c <= C
    ensures IncludedThroughout(EmptyShard(c), EmptyShard(C), ops) <==>
            SweepsRecordedThroughout(EmptyShard(c), EmptyShard(C), ops)
  {
    EmptyShardsIncluded(c, C);
    CapacityInclusionShared(EmptyShard(c), EmptyShard(C), ops);
  }

  lemma {:induction false} CapacityInclusionShared(s: ShardState, l: ShardState, ops: seq<ShardOp>)
    requires Consistent(s) && Consistent(l) && Included(s, l) && SharesRecords(s, l)
    ensures IncludedThroughout(s, l, ops) <==> SweepsRecordedThroughout(s, l, ops)
    decreases |ops|
  {
    if ops == [] {
    } else {
      var s', l' := Apply(s, ops[0]), Apply(l, ops[0]);
      ApplyKeepsInvariants(s, ops[0]);
      ApplyKeepsInvariants(l, ops[0]);
      IncludedAfterStep(s, l, ops[0]);
      SharedSweepAgrees(s, l, ops[0]);
      if SweepAgrees(s, l, ops[0]) {
        SharesRecordsAfterStep(s, l, ops[0]);
        CapacityInclusionShared(s', l', ops[1..]);
      }
    }
  }

  /** The run of the next two lemmas: the second write of `a` has TTL 0. */
  function ZeroTtlRun(a: Key, b: Key, v: Value): seq<ShardOp> {
    [SetWithTTL(a, v, 10, 0), Set(b, v, 1), SetWithTTL(a, v, 0, 2), CleanupExpired(20)]
  }

  lemma {:induction false} RunFour(s: ShardState, o0: ShardOp, o1: ShardOp, o2: ShardOp, o3: ShardOp)
    ensures Run(s, [o0, o1, o2, o3]) == Apply(Apply(Apply(Apply(s, o0), o1), o2), o3)
  {
    RunCons(s, o0, [o1, o2, o3]);
    RunCons(Apply(s, o0), o1, [o2, o3]);
    RunCons(Apply(Apply(s, o0), o1), o2, [o3]);
    RunCons(Apply(Apply(Apply(s, o0), o1), o2), o3, []);
    assert [o0] + [o1, o2, o3] == [o0, o1, o2, o3];
    assert [o1] + [o2, o3] == [o1, o2, o3];
    assert [o2] + [o3] == [o2, o3];
    assert [o3] + [] == [o3];
  }

  lemma {:induction false} RunCons(s: ShardState, op: ShardOp, ops: seq<ShardOp>)
    ensures Run(s, [op] + ops) == Run(Apply(s, op), ops)
  {
  }

  /** With capacity 1 the write of `b` evicts `a` together with its TTL record. */
  lemma {:induction false} ZeroTtlSmall(a: Key, b: Key, v: Value)
    requires a != b
    ensures Answer(Run(EmptyShard(1), ZeroTtlRun(a, b, v)), a, 20) == Some(v)
  {
    var s0 := EmptyShard(1);
    EmptyShardsIncluded(1, 1);
    var s1 := PutFacts(s0, a, Entry(v, 0, 10), map[a := 10]);
    assert s1 == Apply(s0, SetWithTTL(a, v, 10, 0));
    ApplyKeepsInvariants(s0, SetWithTTL(a, v, 10, 0));
    assert b !in s1.order by { assert b !in s1.store; assert b !in Elems(s1.order); }
    var s2 := PutFacts(s1, b, NewEntry(v, 1), s1.deadlines - {b});
    ApplyKeepsInvariants(s1, Set(b, v, 1));
    assert a !in s2.deadlines;
    var s3 := PutFacts(s2, a, Entry(v, 2, 0), s2.deadlines);
    assert s3.store[a] == Entry(v, 2, 0) && a !in s3.deadlines;
    assert a !in Timelines.Due(s3.deadlines, 20);
    RemoveAllAnswer(s3, Timelines.Due(s3.deadlines, 20), a, 20);
    RunFour(s0, SetWithTTL(a, v, 10, 0), Set(b, v, 1), SetWithTTL(a, v, 0, 2), CleanupExpired(20));
  }

  /** With capacity 2 the TTL record of `a` outlives the deadline it was made for. */
  lemma {:induction false} ZeroTtlLarge(a: Key, b: Key, v: Value)
    requires a != b
    ensures Answer(Run(EmptyShard(2), ZeroTtlRun(a, b, v)), a, 20) == None
  {
    var s0 := EmptyShard(2);
    EmptyShardsIncluded(2, 2);
    var s1 := PutFacts(s0, a, Entry(v, 0, 10), map[a := 10]);
    assert s1 == Apply(s0, SetWithTTL(a, v, 10, 0));
    ApplyKeepsInvariants(s0, SetWithTTL(a, v, 10, 0));
    assert |s1.order| == 1 by { MoveToFrontFacts([], a); }
    var s2 := PutFacts(s1, b, NewEntry(v, 1), s1.deadlines - {b});
    ApplyKeepsInvariants(s1, Set(b, v, 1));
    assert a in s2.order by { assert a in s2.store; assert a in Elems(s2.order); }
    var s3 := PutFacts(s2, a, Entry(v, 2, 0), s2.deadlines);
    assert a in Timelines.Due(s3.deadlines, 20);
    RemoveAllAnswer(s3, Timelines.Due(s3.deadlines, 20), a, 20);
    RunFour(s0, SetWithTTL(a, v, 10, 0), Set(b, v, 1), SetWithTTL(a, v, 0, 2), CleanupExpired(20));
  }

  /** Sweeps do break inclusion: on this run the smaller shard answers and the larger does not. */
  lemma {:induction false} InclusionFailsWithZeroTtl(a: Key, b: Key, v: Value)
    requires a != b
    ensures Answer(Run(EmptyShard(1), ZeroTtlRun(a, b, v)), a, 20) == Some(v)
    ensures Answer(Run(EmptyShard(2), ZeroTtlRun(a, b, v)), a, 20) == None
    ensures !Included(Run(EmptyShard(1), ZeroTtlRun(a, b, v)), Run(EmptyShard(2), ZeroTtlRun(a, b, v)))
  {
    ZeroTtlSmall(a, b, v);
    ZeroTtlLarge(a, b, v);
  }

  // ----- Retention -----

  /** The keys used more recently than `k`. */
  function Ahead(order: seq<Key>, k: Key): set<Key> {
    if order == [] || order[0] == k then {} else {order[0]} + Ahead(order[1..], k)
  }

  lemma {:induction false} AheadOfExcept(order: seq<Key>, k: Key, gone: set<Key>)
    requires k !in gone
    ensures Ahead(Except(order, gone), k) == Ahead(order, k) - gone
  {
    if order == [] {
    } else {
      AheadOfExcept(order[1..], k, gone);
      if order[0] !in gone {
        assert Except(order, gone)[1..] == Except(order[1..], gone);
      } else {
        assert order[0] != k;
      }
    }
  }

  lemma {:induction false} AheadAfterMove(order: seq<Key>, k: Key, j: Key)
    requires j != k
    ensures Ahead(MoveToFront(order, j), k) == Ahead(order, k) + {j}
  {
    AheadOfExcept(order, k, {j});
    assert MoveToFront(order, j)[1..] == Except(order, {j});
  }

  lemma {:induction false} AheadIsHead(order: seq<Key>, i: nat)
    requires Distinct(order) && i < |order|
    ensures Ahead(order, order[i]) == Elems(order[..i])
  {
    if i == 0 {
      assert Elems(order[..0]) == {};
    } else {
      var t := order[1..];
      assert t[i - 1] == order[i] != order[0];
      assert Distinct(t);
      AheadIsHead(t, i - 1);
      assert order[..i] == [order[0]] + t[..i - 1];
      assert Elems([order[0]] + t[..i - 1]) == {order[0]} + Elems(t[..i - 1]);
    }
  }

  /** `Ahead` is the part of the order in front of `k`, so its size is the position of `k`. */
  lemma {:induction false} AheadIsPosition(order: seq<Key>, i: nat)
    requires Distinct(order) && i < |order|
    ensures Ahead(order, order[i]) == Elems(order[..i])
    ensures |Ahead(order, order[i])| == i
  {
    AheadIsHead(order, i);
    DistinctSlice(order, 0, i);
    DistinctCardinality(order[..i]);
  }

  lemma {:induction false} AheadInPrefix(order: seq<Key>, k: Key, n: nat)
    requires n <= |order| && k in order[..n]
    ensures Ahead(order[..n], k) == Ahead(order, k)
  {
    if order[0] == k {
    } else {
      assert order[..n] == [order[0]] + order[1..][..n - 1];
      AheadInPrefix(order[1..], k, n - 1);
      assert order[..n][1..] == order[1..][..n - 1];
    }
  }

  lemma {:induction false} PositionBound(order: seq<Key>, k: Key)
    requires Distinct(order) && k in order
    ensures |Ahead(order, k)| < |order|
    ensures order[|order| - 1] == k <==> |Ahead(order, k)| == |order| - 1
  {
    var i :| 0 <= i < |order| && order[i] == k;
    AheadIsPosition(order, i);
  }

  /** A write of another key pushes `k` back by at most one place, and evicts it exactly when
      a capacity's worth of other keys is then ahead of it. */
  lemma {:induction false} OrderAfterPutOther(order: seq<Key>, capacity: nat, k: Key, j: Key)
    requires Distinct(order) && k in order && j != k && |order| <= capacity
    ensures k in OrderAfterPut(order, j, capacity) <==> |Ahead(order, k) + {j}| < capacity
    ensures k in OrderAfterPut(order, j, capacity) ==>
              Ahead(OrderAfterPut(order, j, capacity), k) == Ahead(order, k) + {j}
  {
    var t, a := MoveToFront(order, j), Ahead(order, k) + {j};
    assert Ahead(t, k) == a by { AheadAfterMove(order, k, j); }
    MoveToFrontFacts(order, j);
    assert k in t by { assert k in Elems(t); }
    PositionBound(t, k);
    if j !in order && |order| + 1 > capacity {
      OrderAfterPop(t, k);
      assert OrderAfterPut(order, j, capacity) == t[..|t| - 1];
    } else {
      assert OrderAfterPut(order, j, capacity) == t;
    }
  }

  lemma {:induction false} OrderAfterPop(t: seq<Key>, k: Key)
    requires Distinct(t) && k in t
    ensures k in t[..|t| - 1] <==> |Ahead(t, k)| < |t| - 1
    ensures k in t[..|t| - 1] ==> Ahead(t[..|t| - 1], k) == Ahead(t, k)
  {
    var n := |t| - 1;
    PositionBound(t, k);
    PopFacts(t);
    assert k in t[..n] <==> k in Elems(t[..n]);
    if k in t[..n] { AheadInPrefix(t, k, n); }
  }

  lemma {:induction false} PutOther(s: ShardState, k: Key, j: Key, e: Entry, d: map<Key, uint64>)
    returns (s': ShardState)
    requires Consistent(s) && k in s.store && j != k
    requires k in d <==> k in s.deadlines
    requires k in d ==> d[k] == s.deadlines[k]
    ensures s' == Put(s, j, e, d)
    ensures k in s'.store <==> |Ahead(s.order, k) + {j}| < s.capacity
    ensures k in s'.store ==>
              && s'.store[k] == s.store[k]
              && (k in s'.deadlines <==> k in s.deadlines)
              && (k in s.deadlines ==> s'.deadlines[k] == s.deadlines[k])
              && Ahead(s'.order, k) == Ahead(s.order, k) + {j}
  {
    s' := PutFacts(s, j, e, d);
    assert k in s.order by { assert k in Elems(s.order); }
    OrderAfterPutOther(s.order, s.capacity, k, j);
    assert k in s'.store <==> k in Elems(s'.order);
  }

  /** A write of `k`, or a read of `k` that hits. */
  predicate Uses(s: ShardState, op: ShardOp, k: Key) {
    match op
    case Set(j, _, _) => j == k
    case SetWithTTL(j, _, _, _) => j == k
    case Get(j, now) => j == k && Answer(s, k, now).Some?
    case Delete(_) => false
    case CleanupExpired(_) => false
  }

  /** The key an operation uses, if any: a read miss uses none. */
  function Used(s: ShardState, op: ShardOp): set<Key> {
    if !op.CleanupExpired? && Uses(s, op, op.key) then {op.key} else {}
  }

  /** The keys written or hit during a run. */
  function AllUsed(s: ShardState, ops: seq<ShardOp>): set<Key>
    decreases |ops|
  {
    if ops == [] then {} else Used(s, ops[0]) + AllUsed(Apply(s, ops[0]), ops[1..])
  }

  /** The TTL record of a key. */
  function Record(s: ShardState, k: Key): Option<uint64> {
    if k in s.deadlines then Some(s.deadlines[k]) else None
  }

  /** The operation is not about `k`, and is no sweep that reaches its TTL record. */
  predicate Spares(op: ShardOp, k: Key, record: Option<uint64>) {
    match op
    case CleanupExpired(now) => record.Some? ==> record.value > now
    case _ => op.key != k
  }

  /** A record that belongs to its entry is reached exactly when the entry expires. */
  lemma {:induction false} RecordIsDeadline(s: ShardState, k: Key, now: uint64)
    requires Consistent(s) && k in s.store && (k in s.deadlines ==> s.store[k].HasTTL())
    ensures Spares(CleanupExpired(now), k, Record(s, k)) <==> !s.store[k].IsExpired(now)
  {
  }

  lemma {:induction false} RemoveSpares(s: ShardState, k: Key, gone: set<Key>)
    requires k in s.store && k !in gone
    ensures var s' := RemoveAll(s, gone);
            && k in s'.store && s'.store[k] == s.store[k] && Record(s', k) == Record(s, k)
            && Ahead(s'.order, k) <= Ahead(s.order, k)
  {
    AheadOfExcept(s.order, k, gone);
  }

  lemma {:induction false} ReadSpares(s: ShardState, k: Key, j: Key, now: uint64)
    requires k in s.store && j != k
    ensures var s' := ApplyGet(s, j, now);
            && k in s'.store && s'.store[k] == s.store[k] && Record(s', k) == Record(s, k)
            && Ahead(s'.order, k) <= Ahead(s.order, k) + Used(s, Get(j, now))
  {
    hide Except, Ahead;
    RemoveSpares(s, k, {j});
    AheadAfterMove(s.order, k, j);
  }

  /** What an operation on other keys does to `k`. */
  lemma {:induction false} StepSpares(s: ShardState, op: ShardOp, k: Key) returns (s': ShardState)
    requires Consistent(s) && k in s.store && Spares(op, k, Record(s, k))
    requires |Ahead(s.order, k) + Used(s, op)| < s.capacity
    ensures s' == Apply(s, op)
    ensures k in s'.store && s'.store[k] == s.store[k] && Record(s', k) == Record(s, k)
    ensures Ahead(s'.order, k) <= Ahead(s.order, k) + Used(s, op)
  {
    hide Except, Put, Ahead;
    s' := Apply(s, op);
    match op
    case Set(j, v, now) =>
      var _ := PutOther(s, k, j, NewEntry(v, now), s.deadlines - {j});
    case SetWithTTL(j, v, ttl, now) =>
      var e := NewEntryWithTTL(v, ttl, now);
      var _ := PutOther(s, k, j, e, WithDeadline(s.deadlines, j, e));
    case Get(j, now) => ReadSpares(s, k, j, now);
    case Delete(j) => RemoveSpares(s, k, {j});
    case CleanupExpired(now) => RemoveSpares(s, k, Timelines.Due(s.deadlines, now));
  }

  lemma {:induction false} RetainedFrom(s: ShardState, ops: seq<ShardOp>, k: Key)
    requires Consistent(s) && k in s.store
    requires forall i :: 0 <= i < |ops| ==> Spares(ops[i], k, Record(s, k))
    requires |Ahead(s.order, k) + AllUsed(s, ops)| < s.capacity
    ensures k in Run(s, ops).store && Run(s, ops).store[k] == s.store[k]
    ensures Ahead(Run(s, ops).order, k) <= Ahead(s.order, k) + AllUsed(s, ops)
    decreases |ops|
  {
    if ops == [] {
    } else {
      var a := Ahead(s.order, k);
      assert Spares(ops[0], k, Record(s, k));
      CardinalitySubset(a + Used(s, ops[0]), a + AllUsed(s, ops));
      var s' := StepSpares(s, ops[0], k);
      ApplyKeepsInvariants(s, ops[0]);
      assert forall i :: 0 <= i < |ops[1..]| ==> ops[1..][i] == ops[i + 1];
      CardinalitySubset(Ahead(s'.order, k) + AllUsed(s', ops[1..]), a + AllUsed(s, ops));
      RetainedFrom(s', ops[1..], k);
    }
  }

  /** LRU retention: in any consistent shard, a key in front that is neither deleted nor reached by
      a sweep is still there, with its answers, after any run that writes or hits fewer than
      `capacity` distinct other keys, and its position never exceeds their number. */
  lemma {:induction false} Retention(s: ShardState, ops: seq<ShardOp>, k: Key)
    requires Consistent(s) && k in s.store && s.order[0] == k
    requires forall i :: 0 <= i < |ops| ==> Spares(ops[i], k, Record(s, k))
    requires |AllUsed(s, ops)| < s.capacity
    ensures k in Run(s, ops).store && Run(s, ops).store[k] == s.store[k]
    ensures |Ahead(Run(s, ops).order, k)| <= |AllUsed(s, ops)|
    ensures forall now: uint64 :: Answer(Run(s, ops), k, now) == Answer(s, k, now)
  {
    assert Ahead(s.order, k) + AllUsed(s, ops) == AllUsed(s, ops);
    RetainedFrom(s, ops, k);
    CardinalitySubset(Ahead(Run(s, ops).order, k), AllUsed(s, ops));
  }

  /** A use puts the key in front; a write with a deadline, or without a TTL, leaves it with a record
      of its own. */
  lemma {:induction false} UseMovesToFront(s: ShardState, op: ShardOp, k: Key)
    requires Consistent(s) && Uses(s, op, k)
    ensures var s' := Apply(s, op); k in s'.store && s'.order != [] && s'.order[0] == k
    ensures op.Set? ==> Record(Apply(s, op), k) == None
    ensures op.SetWithTTL? && DeadlineAfter(op.now, op.ttl) != 0 ==>
              Record(Apply(s, op), k) == Some(DeadlineAfter(op.now, op.ttl))
  {
    match op
    case Set(_, v, now) => var _ := PutFacts(s, k, NewEntry(v, now), s.deadlines - {k});
    case SetWithTTL(_, v, ttl, now) =>
      var e := NewEntryWithTTL(v, ttl, now);
      var _ := PutFacts(s, k, e, WithDeadline(s.deadlines, k, e));
    case Get(_, now) =>
    case Delete(_) =>
    case CleanupExpired(_) =>
  }

  /** Retention counted from any use of a key in any consistent state. */
  lemma {:induction false} RetentionSinceLastUse(s: ShardState, use: ShardOp, ops: seq<ShardOp>, k: Key)
    requires Consistent(s) && Uses(s, use, k)
    requires forall i :: 0 <= i < |ops| ==> Spares(ops[i], k, Record(Apply(s, use), k))
    requires |AllUsed(Apply(s, use), ops)| < s.capacity
    ensures k in Run(Apply(s, use), ops).store
    ensures |Ahead(Run(Apply(s, use), ops).order, k)| <= |AllUsed(Apply(s, use), ops)|
    ensures forall now: uint64 :: Answer(Run(Apply(s, use), ops), k, now) == Answer(Apply(s, use), k, now)
  {
    UseMovesToFront(s, use, k);
    ApplyKeepsInvariants(s, use);
    Retention(Apply(s, use), ops, k);
  }

  predicate WritesOther(op: ShardOp, k: Key) {
    (op.Set? || op.SetWithTTL?) && op.key != k
  }

  lemma {:induction false} AbsentStaysAbsent(s: ShardState, ops: seq<ShardOp>, k: Key)
    requires Consistent(s) && k !in s.store
    requires forall i :: 0 <= i < |ops| ==> WritesOther(ops[i], k)
    ensures k !in Run(s, ops).store
    decreases |ops|
  {
    if ops == [] {
    } else {
      assert WritesOther(ops[0], k);
      ApplyKeepsInvariants(s, ops[0]);
      assert forall i :: 0 <= i < |ops[1..]| ==> ops[1..][i] == ops[i + 1];
      AbsentStaysAbsent(Apply(s, ops[0]), ops[1..], k);
    }
  }

  lemma {:induction false} WriteOther(s: ShardState, op: ShardOp, k: Key) returns (s': ShardState)
    requires Consistent(s) && k in s.store && WritesOther(op, k)
    ensures s' == Apply(s, op) && Consistent(s') && s'.capacity == s.capacity
    ensures k in s'.store <==> |Ahead(s.order, k) + {op.key}| < s.capacity
    ensures k in s'.store ==> Ahead(s'.order, k) == Ahead(s.order, k) + {op.key}
  {
    var e := if op.Set? then NewEntry(op.value, op.now) else NewEntryWithTTL(op.value, op.ttl, op.now);
    var d := if op.Set? then s.deadlines - {op.key}
             else WithDeadline(s.deadlines, op.key, e);
    s' := PutOther(s, k, op.key, e, d);
    assert s' == Apply(s, op);
    ApplyKeepsInvariants(s, op);
  }

  /** The retention bound is tight: among runs of writes, a key stays if and only if fewer than
      `capacity` distinct other keys end up ahead of it. */
  lemma {:induction false} RetentionIsTight(s: ShardState, ops: seq<ShardOp>, k: Key)
    requires Consistent(s) && k in s.store
    requires forall i :: 0 <= i < |ops| ==> WritesOther(ops[i], k)
    ensures k in Run(s, ops).store <==> |Ahead(s.order, k) + AllUsed(s, ops)| < s.capacity
    decreases |ops|
  {
    hide Except, Put, Ahead;
    var a := Ahead(s.order, k);
    if ops == [] {
      assert a + AllUsed(s, ops) == a;
      assert k in s.order by { assert k in Elems(s.order); }
      PositionBound(s.order, k);
    } else {
      var j, rest := ops[0].key, ops[1..];
      assert WritesOther(ops[0], k);
      var s' := WriteOther(s, ops[0], k);
      assert forall i :: 0 <= i < |rest| ==> rest[i] == ops[i + 1];
      assert a + {j} + AllUsed(s', rest) == a + AllUsed(s, ops);
      if k in s'.store {
        RetentionIsTight(s', rest, k);
      } else {
        AbsentStaysAbsent(s', rest, k);
        CardinalitySubset(a + {j}, a + AllUsed(s, ops));
      }
    }
  }

  // ----- Recency is time of last use -----

  /** Stamps every use of a key with the time at which it happens, step by step. */
  function Stamped(stamp: map<Key, nat>, s: ShardState, ops: seq<ShardOp>, time: nat): map<Key, nat>
    decreases |ops|
  {
    if ops == [] then stamp
    else Stamped(StampUse(stamp, s, ops[0], time), Apply(s, ops[0]), ops[1..], time + 1)
  }

  function StampUse(stamp: map<Key, nat>, s: ShardState, op: ShardOp, time: nat): map<Key, nat> {
    if Used(s, op) == {} then stamp else stamp[op.key := time]
  }

  /** The order lists keys by strictly decreasing stamp, all of them before `time`. */
  ghost predicate ByLastUse(order: seq<Key>, stamp: map<Key, nat>, time: nat) {
    && (forall i :: 0 <= i < |order| ==> order[i] in stamp && stamp[order[i]] < time)
    && (forall i, j :: 0 <= i < j < |order| ==> stamp[order[i]] > stamp[order[j]])
  }

  lemma {:induction false} ByLastUseExcept(order: seq<Key>, stamp: map<Key, nat>, time: nat, gone: set<Key>)
    requires ByLastUse(order, stamp, time)
    ensures ByLastUse(Except(order, gone), stamp, time)
  {
    var r := Except(order, gone);
    ExceptElems(order, gone);
    forall i | 0 <= i < |r| ensures r[i] in stamp && stamp[r[i]] < time {
      assert r[i] in order;
    }
    forall i, j | 0 <= i < j < |r| ensures stamp[r[i]] > stamp[r[j]] {
      var p, q := ExceptKeepsOrder(order, gone, i, j);
    }
  }

  lemma {:induction false} ByLastUseMove(order: seq<Key>, stamp: map<Key, nat>, time: nat, k: Key)
    requires ByLastUse(order, stamp, time)
    ensures ByLastUse(MoveToFront(order, k), stamp[k := time], time + 1)
  {
    ByLastUseExcept(order, stamp, time, {k});
    ExceptElems(order, {k});
    var r := Except(order, {k});
    var t := MoveToFront(order, k);
    forall i | 0 <= i < |t| ensures t[i] in stamp[k := time] && stamp[k := time][t[i]] < time + 1 {
      if i > 0 { assert t[i] == r[i - 1]; }
    }
    forall i, j | 0 <= i < j < |t| ensures stamp[k := time][t[i]] > stamp[k := time][t[j]] {
      assert t[j] == r[j - 1] && r[j - 1] in r;
      if i > 0 { assert t[i] == r[i - 1] && r[i - 1] in r; }
    }
  }

  lemma {:induction false} PutByLastUse(
    s: ShardState, k: Key, e: Entry, d: map<Key, uint64>, stamp: map<Key, nat>, time: nat)
    requires Consistent(s) && ByLastUse(s.order, stamp, time)
    ensures ByLastUse(Put(s, k, e, d).order, stamp[k := time], time + 1)
  {
    ByLastUseMove(s.order, stamp, time, k);
    var s' := PutFacts(s, k, e, d);
    var t := MoveToFront(s.order, k);
    assert s'.order == t || s'.order == t[..|t| - 1];
  }

  lemma {:induction false} StepByLastUse(s: ShardState, op: ShardOp, stamp: map<Key, nat>, time: nat)
    requires Consistent(s) && ByLastUse(s.order, stamp, time)
    ensures ByLastUse(Apply(s, op).order, StampUse(stamp, s, op, time), time + 1)
  {
    hide Consistent, Put, Except;
    match op
    case Set(k, v, now) =>
      PutByLastUse(s, k, NewEntry(v, now), s.deadlines - {k}, stamp, time);
    case SetWithTTL(k, v, ttl, now) =>
      var e := NewEntryWithTTL(v, ttl, now);
      PutByLastUse(s, k, e, WithDeadline(s.deadlines, k, e), stamp, time);
    case Get(k, now) =>
      ByLastUseMove(s.order, stamp, time, k);
      ByLastUseExcept(s.order, stamp, time, {k});
    case Delete(k) => ByLastUseExcept(s.order, stamp, time, {k});
    case CleanupExpired(now) => ByLastUseExcept(s.order, stamp, time, Timelines.Due(s.deadlines, now));
  }

  /** After every run the recency order lists the stored keys by the time of their last write or
      hit, latest first. */
  lemma {:induction false} OrderIsByLastUse(s: ShardState, ops: seq<ShardOp>, stamp: map<Key, nat>, time: nat)
    requires Consistent(s) && ByLastUse(s.order, stamp, time)
    ensures ByLastUse(Run(s, ops).order, Stamped(stamp, s, ops, time), time + |ops|)
    decreases |ops|
  {
    if ops == [] {
    } else {
      StepByLastUse(s, ops[0], stamp, time);
      ApplyKeepsInvariants(s, ops[0]);
      OrderIsByLastUse(Apply(s, ops[0]), ops[1..], StampUse(stamp, s, ops[0], time), time + 1);
    }
  }

  /** So an overflowing write evicts exactly one key, the stored one whose last use is the oldest. */
  lemma {:induction false} EvictsOldestUse(s: ShardState, op: ShardOp, stamp: map<Key, nat>, time: nat)
    returns (victim: Key)
    requires Consistent(s) && ByLastUse(s.order, stamp, time)
    requires (op.Set? || op.SetWithTTL?) && Overflows(s, op.key)
    ensures victim in s.store && victim != op.key
    ensures Apply(s, op).store.Keys == s.store.Keys + {op.key} - {victim}
    ensures forall k :: k in s.store && k != victim ==> k in stamp && victim in stamp && stamp[k] > stamp[victim]
  {
    var n := |s.order| - 1;
    victim := s.order[n];
    assert victim in Elems(s.order);
    var e := if op.Set? then NewEntry(op.value, op.now) else NewEntryWithTTL(op.value, op.ttl, op.now);
    var d := if op.Set? then s.deadlines - {op.key}
             else WithDeadline(s.deadlines, op.key, e);
    var s' := PutFacts(s, op.key, e, d);
    assert s' == Apply(s, op);
    forall k | k in s.store && k != victim ensures k in stamp && stamp[k] > stamp[victim] {
      assert k in Elems(s.order);
      var i :| 0 <= i < |s.order| && s.order[i] == k;
    }
  }
}
