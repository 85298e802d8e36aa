/** What the engine promises over whole histories of operations. */
module EngineTheorems {
  import opened Common
  import opened Sequences
  import opened Entries
  import opened Recency
  import opened EngineStates
  import S = ShardStates
  import T = ShardTheorems
  import E = EvictionStates
  import Timelines

  // ----- Every reachable state is well-formed -----

  /** Every shard is consistent, every key is stored only in the shard it is routed to, and the
      policy tracks each key once. */
  ghost predicate Valid(e: Engine) {
    && (forall i :: 0 <= i < |e.shards| ==> S.Consistent(e.shards[i]))
    && (forall i, k :: 0 <= i < |e.shards| && k in e.shards[i].store ==> Home(e, k) == i)
    && Distinct(e.eviction.order)
  }

  lemma {:induction false} EmptyEngineValid(hash: Key -> nat, shardCount: nat, capacity: nat, max: uint64)
    requires shardCount > 0 && capacity > 0
    ensures Valid(EmptyEngine(hash, shardCount, capacity, max))
  {
  }

  /** The entry a write stores. */
  function Written(op: Op): Entry
    requires op.Set? || op.SetWithTTL?
  {
    if op.Set? then NewEntry(op.value, op.now) else NewEntryWithTTL(op.value, op.ttl, op.now)
  }

  predicate Writes(op: Op, k: Key) {
    (op.Set? || op.SetWithTTL?) && op.key == k
  }

  /** What a shard holds afterwards is the entry just written or was there before. */
  lemma {:induction false} StoreAfter(e: Engine, op: Op, i: nat, k: Key)
    requires i < |e.shards| && S.Consistent(e.shards[i])
    requires k in ShardAfter(e, op, i).store
    ensures if Writes(op, k) && Home(e, k) == i then ShardAfter(e, op, i).store[k] == Written(op)
            else k in e.shards[i].store && ShardAfter(e, op, i).store[k] == e.shards[i].store[k]
  {
  }

  lemma {:induction false} ShardAfterConsistent(e: Engine, op: Op, i: nat)
    requires i < |e.shards| && S.Consistent(e.shards[i])
    ensures S.Consistent(ShardAfter(e, op, i)) && ShardAfter(e, op, i).capacity == e.shards[i].capacity
  {
    var s := e.shards[i];
    match op
    case Set(k, v, now) => S.ApplyKeepsInvariants(s, S.Set(k, v, now));
    case SetWithTTL(k, v, ttl, now, _) => S.ApplyKeepsInvariants(s, S.SetWithTTL(k, v, ttl, now));
    case Get(k, now) => S.ApplyKeepsInvariants(s, S.Get(k, now));
    case _ => S.RemoveAllKeepsConsistent(s, At(e, Dropped(e, op), i));
  }

  lemma {:induction false} PolicyDistinct(e: Engine, op: Op)
    requires Distinct(e.eviction.order)
    ensures Distinct(EvictionAfter(e, op).order)
  {
    if op.Set? || op.SetWithTTL? || op.Get? {
      MoveToFrontFacts(e.eviction.order, op.key);
    } else if op.ProcessEvictions? {
      var m := E.CollectVictims(e.eviction);
      DistinctSlice(e.eviction.order, 0, m);
      assert e.eviction.order[0..m] == e.eviction.order[..m];
    } else {
      ExceptDistinct(e.eviction.order, Dropped(e, op));
    }
  }

  lemma {:induction false} ApplyValid(e: Engine, op: Op)
    requires Valid(e)
    ensures Valid(Apply(e, op))
  {
    var e' := Apply(e, op);
    forall i | 0 <= i < |e'.shards| ensures S.Consistent(e'.shards[i]) {
      ShardAfterConsistent(e, op, i);
    }
    forall i, k | 0 <= i < |e'.shards| && k in e'.shards[i].store ensures Home(e', k) == i {
      assert e'.shards[i] == ShardAfter(e, op, i);
      StoreAfter(e, op, i, k);
      if !(Writes(op, k) && Home(e, k) == i) {
        assert Home(e, k) == i;
      }
    }
    PolicyDistinct(e, op);
  }

  lemma {:induction false} RunValid(e: Engine, ops: seq<Op>)
    requires Valid(e)
    ensures Valid(Run(e, ops)) && |Run(e, ops).shards| == |e.shards| && Run(e, ops).hash == e.hash
    ensures Run(e, ops).eviction.max == e.eviction.max
    ensures forall i :: 0 <= i < |e.shards| ==> Run(e, ops).shards[i].capacity == e.shards[i].capacity
  {
    if ops == [] {
    } else {
      var before, op := ops[..|ops| - 1], ops[|ops| - 1];
      RunValid(e, before);
      var b := Run(e, before);
      ApplyValid(b, op);
      forall i | 0 <= i < |e.shards| ensures Run(e, ops).shards[i].capacity == e.shards[i].capacity {
        ShardAfterConsistent(b, op, i);
      }
      E.CollectReturnsCharges(b.eviction);
    }
  }

  // ----- No stale answers -----

  /** The reference: the entry of the last write of `k`, unless it was deleted since. */
  function LastWrite(ops: seq<Op>, k: Key): Option<Entry> {
    if ops == [] then None
    else
      var op := ops[|ops| - 1];
      if Writes(op, k) then Some(Written(op))
      else if op == Delete(k) then None
      else LastWrite(ops[..|ops| - 1], k)
  }

  /** What a plain map with deadlines would answer. */
  function PlainAnswer(ops: seq<Op>, k: Key, now: uint64): Option<Value> {
    match LastWrite(ops, k)
    case Some(entry) => if entry.IsExpired(now) then None else Some(entry.value)
    case None => None
  }

  ghost predicate Current(e: Engine, ops: seq<Op>) {
    forall i, k :: 0 <= i < |e.shards| && k in e.shards[i].store ==> LastWrite(ops, k) == Some(e.shards[i].store[k])
  }

  lemma {:induction false} ApplyCurrent(e: Engine, ops: seq<Op>, op: Op)
    requires Valid(e) && Current(e, ops)
    ensures Current(Apply(e, op), ops + [op])
  {
    var e' := Apply(e, op);
    assert (ops + [op])[..|ops|] == ops;
    forall i, k | 0 <= i < |e'.shards| && k in e'.shards[i].store
      ensures LastWrite(ops + [op], k) == Some(e'.shards[i].store[k])
    {
      assert e'.shards[i] == ShardAfter(e, op, i);
      StoreAfter(e, op, i, k);
      if !(Writes(op, k) && Home(e, k) == i) {
        assert Home(e, k) == i;
      }
    }
  }

  lemma {:induction false} RunCurrent(e: Engine, ops: seq<Op>)
    requires Valid(e) && Current(e, [])
    ensures Current(Run(e, ops), ops)
  {
    if ops == [] {
    } else {
      var before, op := ops[..|ops| - 1], ops[|ops| - 1];
      RunValid(e, before);
      RunCurrent(e, before);
      ApplyCurrent(Run(e, before), before, op);
      assert before + [op] == ops;
    }
  }

  /** No stale answers: after any history, evictions, sweeps and throwing evictions included, an
      answer is what the plain map would answer; the engine can only miss instead. */
  lemma {:induction false} NoStaleAnswers(e: Engine, ops: seq<Op>, k: Key, now: uint64)
    requires Valid(e) && Current(e, [])
    ensures Answer(Run(e, ops), k, now).Some? ==> Answer(Run(e, ops), k, now) == PlainAnswer(ops, k, now)
  {
    RunCurrent(e, ops);
  }

  /** The engine-side deadline of the last write of `k`, if it had a TTL and was not deleted since. */
  function LastRecord(ops: seq<Op>, k: Key): Option<uint64> {
    if ops == [] then None
    else
      var op := ops[|ops| - 1];
      if op.SetWithTTL? && op.key == k then Some((op.later + op.ttl) % WORD)
      else if Writes(op, k) || op == Delete(k) then None
      else LastRecord(ops[..|ops| - 1], k)
  }

  /** The policy and the engine index know only keys that were written and not deleted since, the
      index only with the deadline of that write. */
  ghost predicate NoLeftovers(e: Engine, ops: seq<Op>) {
    && (forall k :: k in e.eviction.order ==> LastWrite(ops, k).Some?)
    && (forall k :: k in e.deadlines ==> LastRecord(ops, k) == Some(e.deadlines[k]))
  }

  lemma {:induction false} PolicyAfter(e: Engine, op: Op, k: Key)
    requires k in EvictionAfter(e, op).order
    ensures Writes(op, k)
         || (k in e.eviction.order && op != Delete(k))
         || (exists now :: op == Get(k, now) && Answer(e, k, now).Some?)
  {
    var order := e.eviction.order;
    match op
    case Set(j, _, _) => ExceptElems(order, {j});
    case SetWithTTL(j, _, _, _, _) => ExceptElems(order, {j});
    case Get(j, now) => ExceptElems(order, {j});
    case ProcessEvictions => E.CollectTakesTail(e.eviction);
    case _ => ExceptElems(order, Dropped(e, op));
  }

  lemma {:induction false} ApplyLeavesNothing(e: Engine, ops: seq<Op>, op: Op)
    requires Valid(e) && Current(e, ops) && NoLeftovers(e, ops)
    ensures NoLeftovers(Apply(e, op), ops + [op])
  {
    assert (ops + [op])[..|ops|] == ops;
    forall k | k in EvictionAfter(e, op).order ensures LastWrite(ops + [op], k).Some? {
      PolicyAfter(e, op, k);
    }
    forall k | k in DeadlinesAfter(e, op) ensures LastRecord(ops + [op], k) == Some(DeadlinesAfter(e, op)[k]) {
    }
  }

  /** Deleted keys leave no trace: after any history the policy tracks, and the engine index
      lists, only keys whose last write was not deleted since. */
  lemma {:induction false} RunLeavesNothing(e: Engine, ops: seq<Op>)
    requires Valid(e) && Current(e, []) && NoLeftovers(e, [])
    ensures NoLeftovers(Run(e, ops), ops)
  {
    if ops == [] {
    } else {
      var before, op := ops[..|ops| - 1], ops[|ops| - 1];
      RunValid(e, before);
      RunCurrent(e, before);
      RunLeavesNothing(e, before);
      ApplyLeavesNothing(Run(e, before), before, op);
      assert before + [op] == ops;
    }
  }

  // ----- Nothing is left of what is dropped -----

  /** The keys that a deletion, an expiry processing or a memory eviction is to drop. */
  ghost predicate Drops(e: Engine, op: Op, k: Key) {
    match op
    case Delete(j) => j == k
    case ProcessExpired(now) => k in e.deadlines && e.deadlines[k] <= now
    case ProcessEvictions => E.Collectable(e.eviction) && k in E.Collect(e.eviction).victims
    case _ => false
  }

  /** Such an operation removes its keys from the shards, the policy and the engine's index, and
      leaves all that the three know about other keys; a policy that throws forgets all its keys. */
  lemma {:induction false} DropsLeaveNoTrace(e: Engine, op: Op, k: Key)
    requires Valid(e) && (op.Delete? || op.ProcessExpired? || op.ProcessEvictions?)
    ensures var e' := Apply(e, op);
            var s, s' := e.shards[Home(e, k)], e'.shards[Home(e, k)];
            if Drops(e, op, k) then
              k !in s'.store && k !in s'.order && k !in s'.deadlines && k !in e'.deadlines && k !in e'.eviction.order
            else
              && (k in s'.store <==> k in s.store) && (k in s.store ==> s'.store[k] == s.store[k])
              && (k in s'.order <==> k in s.order)
              && (k in s'.deadlines <==> k in s.deadlines) && (k in s.deadlines ==> s'.deadlines[k] == s.deadlines[k])
              && (k in e'.deadlines <==> k in e.deadlines) && (k in e.deadlines ==> e'.deadlines[k] == e.deadlines[k])
              && (k in e'.eviction.order <==>
                    k in e.eviction.order && (op.ProcessEvictions? ==> E.Collectable(e.eviction)))
  {
    var i, gone := Home(e, k), Dropped(e, op);
    E.CompletesIff(e.eviction);
    assert Drops(e, op, k) <==> k in gone;
    assert Apply(e, op).shards[i] == ShardAfter(e, op, i);
    ExceptElems(e.shards[i].order, At(e, gone, i));
    if op.ProcessEvictions? {
      var m := E.CollectVictims(e.eviction);
      E.CollectReturnsCharges(e.eviction);
      ExceptElems(e.eviction.order, Elems(e.eviction.order[m..]));
    } else {
      ExceptElems(e.eviction.order, gone);
    }
  }

  /** The engine's TTL index lists only keys that the policy tracks. */
  ghost predicate Tracked(e: Engine) {
    forall k :: k in e.deadlines ==> k in e.eviction.order
  }

  /** Every operation keeps that, except exactly an eviction that throws while a key is indexed. */
  lemma {:induction false} ApplyTracked(e: Engine, op: Op)
    requires Valid(e) && Tracked(e)
    ensures Tracked(Apply(e, op)) <==>
            !(op.ProcessEvictions? && !E.Collectable(e.eviction) && e.deadlines != map[])
  {
    var e' := Apply(e, op);
    if op.Delete? || op.ProcessExpired? || op.ProcessEvictions? {
      forall k ensures k in e'.deadlines && k !in e'.eviction.order <==>
                       k in e.deadlines && op.ProcessEvictions? && !E.Collectable(e.eviction)
      {
        DropsLeaveNoTrace(e, op, k);
      }
      if op.ProcessEvictions? && !E.Collectable(e.eviction) && e.deadlines != map[] {
        var k :| k in e.deadlines;
        assert k in e'.deadlines && k !in e'.eviction.order;
      }
    } else {
      ExceptElems(e.eviction.order, {op.key});
    }
  }

  ghost predicate TrackedThroughout(e: Engine, ops: seq<Op>) {
    Tracked(Run(e, ops)) && (ops != [] ==> TrackedThroughout(e, ops[..|ops| - 1]))
  }

  ghost predicate NeverLosesIndexed(e: Engine, ops: seq<Op>) {
    ops != [] ==>
      var b, op := Run(e, ops[..|ops| - 1]), ops[|ops| - 1];
      && NeverLosesIndexed(e, ops[..|ops| - 1])
      && !(op.ProcessEvictions? && !E.Collectable(b.eviction) && b.deadlines != map[])
  }

  /** The index lists only tracked keys throughout a history if and only if no eviction of it throws
      while a key is indexed. */
  lemma {:induction false} TrackedThroughoutIff(e: Engine, ops: seq<Op>)
    requires Valid(e) && Tracked(e)
    ensures TrackedThroughout(e, ops) <==> NeverLosesIndexed(e, ops)
  {
    if ops == [] {
    } else {
      var before := ops[..|ops| - 1];
      TrackedThroughoutIff(e, before);
      RunValid(e, before);
      if TrackedThroughout(e, before) {
        TrackedNow(e, before);
        ApplyTracked(Run(e, before), ops[|ops| - 1]);
      }
    }
  }

  lemma {:induction false} TrackedNow(e: Engine, ops: seq<Op>)
    requires TrackedThroughout(e, ops)
    ensures Tracked(Run(e, ops))
  {
  }

  /** A read changes neither the engine's index nor the byte counter. */
  lemma {:induction false} ReadsKeepIndex(e: Engine, k: Key, now: uint64)
    ensures var e' := Apply(e, Get(k, now));
            e'.deadlines == e.deadlines && e'.eviction.usage == e.eviction.usage && e'.eviction.max == e.eviction.max
  {
  }

  /** A read that misses leaves nothing of its key in the shards. */
  lemma {:induction false} MissRemoves(e: Engine, k: Key, now: uint64)
    requires Valid(e) && Answer(e, k, now) == None
    ensures forall i :: 0 <= i < |e.shards| ==>
              var s := Apply(e, Get(k, now)).shards[i];
              k !in s.store && k !in s.order && k !in s.deadlines
  {
    var e' := Apply(e, Get(k, now));
    T.MissRemoves(e.shards[Home(e, k)], k, now);
    ApplyValid(e, Get(k, now));
    forall i | 0 <= i < |e.shards|
      ensures k !in e'.shards[i].store && k !in e'.shards[i].order && k !in e'.shards[i].deadlines
    {
      assert e'.shards[i] == ShardAfter(e, Get(k, now), i);
      assert S.Consistent(e'.shards[i]);
      assert k in e'.shards[i].order <==> k in Elems(e'.shards[i].order);
    }
  }

  // ----- Two TTL indexes -----

  /** The engine's TTL index covers every stored deadline from above, and lists no stored key
      that never expires.  It may list keys that no shard holds any more. */
  ghost predicate ExpirySafe(e: Engine) {
    forall i, k :: 0 <= i < |e.shards| && k in e.shards[i].store ==> Covers(e.deadlines, k, e.shards[i].store[k])
  }

  predicate Covers(deadlines: map<Key, uint64>, k: Key, entry: Entry) {
    if entry.HasTTL() then k in deadlines && deadlines[k] >= entry.expireAt else k !in deadlines
  }

  /** The TTL is positive, and adding it to the two clock readings wraps for both or for neither. */
  predicate Coherent(op: Op) {
    op.SetWithTTL? ==>
      && op.ttl != 0
      && op.now + op.ttl != WORD
      && (op.now + op.ttl < WORD <==> op.later + op.ttl < WORD)
  }

  /** In particular a positive TTL whose sum fits 64 bits is coherent. */
  lemma {:induction false} FittingTtlIsCoherent(op: Op)
    requires op.SetWithTTL? && op.now <= op.later && 0 < op.ttl && op.later + op.ttl < WORD
    ensures Coherent(op)
  {
  }

  lemma {:induction false} CoherentMeansCovers(op: Op, deadlines: map<Key, uint64>)
    requires op.SetWithTTL? && op.now <= op.later
    ensures Covers(deadlines[op.key := (op.later + op.ttl) % WORD], op.key, Written(op)) <==> Coherent(op)
  {
  }

  /** Every operation keeps the two indexes together, except exactly an incoherent write. */
  lemma {:induction false} ApplyExpirySafe(e: Engine, op: Op)
    requires Valid(e) && ExpirySafe(e)
    requires op.SetWithTTL? ==> op.now <= op.later
    ensures ExpirySafe(Apply(e, op)) <==> Coherent(op)
  {
    var e' := Apply(e, op);
    if op.SetWithTTL? {
      CoherentMeansCovers(op, e.deadlines);
      WrittenIsStored(e, op);
    }
    if Coherent(op) {
      forall i, k | 0 <= i < |e'.shards| && k in e'.shards[i].store
        ensures Covers(e'.deadlines, k, e'.shards[i].store[k])
      {
        assert e'.shards[i] == ShardAfter(e, op, i);
        StoreAfter(e, op, i, k);
        if !(Writes(op, k) && Home(e, k) == i) {
          assert Home(e, k) == i;
          assert Covers(e.deadlines, k, e.shards[i].store[k]);
        }
      }
    }
  }

  lemma {:induction false} WrittenIsStored(e: Engine, op: Op)
    requires Valid(e) && (op.Set? || op.SetWithTTL?)
    ensures var s := Apply(e, op).shards[Home(e, op.key)];
            op.key in s.store && s.store[op.key] == Written(op)
  {
    var i, w := Home(e, op.key), Written(op);
    var s := e.shards[i];
    var d := if op.Set? then s.deadlines - {op.key}
             else S.WithDeadline(s.deadlines, op.key, w);
    var s' := S.PutFacts(s, op.key, w, d);
    assert s' == ShardAfter(e, op, i);
  }

  predicate Timely(op: Op) {
    op.SetWithTTL? ==> op.now <= op.later
  }

  ghost predicate SafeThroughout(e: Engine, ops: seq<Op>) {
    ExpirySafe(Run(e, ops)) && (ops != [] ==> SafeThroughout(e, ops[..|ops| - 1]))
  }

  /** The two indexes agree throughout a history if and only if all its TTL writes are coherent. */
  lemma {:induction false} SafeThroughoutIffCoherent(e: Engine, ops: seq<Op>)
    requires Valid(e) && ExpirySafe(e)
    requires forall i :: 0 <= i < |ops| ==> Timely(ops[i])
    ensures SafeThroughout(e, ops) <==> forall i :: 0 <= i < |ops| ==> Coherent(ops[i])
  {
    if ops == [] {
    } else {
      var n := |ops| - 1;
      var before := ops[..n];
      assert ops == before + [ops[n]];
      RunValid(e, before);
      SafeThroughoutIffCoherent(e, before);
      if SafeThroughout(e, before) {
        SafeNow(e, before);
        assert Timely(ops[n]);
        ApplyExpirySafe(Run(e, before), ops[n]);
      } else {
        var i :| 0 <= i < n && !Coherent(before[i]);
        assert !Coherent(ops[i]);
      }
    }
  }

  lemma {:induction false} SafeNow(e: Engine, ops: seq<Op>)
    requires SafeThroughout(e, ops)
    ensures ExpirySafe(Run(e, ops))
  {
  }

  /** Expiry processing removes only what has expired, so no later answer changes. */
  lemma {:induction false} ProcessExpiredUnobservable(e: Engine, now: uint64, k: Key, later: uint64)
    requires Valid(e) && ExpirySafe(e) && now <= later
    ensures Answer(Apply(e, ProcessExpired(now)), k, later) == Answer(e, k, later)
  {
  }

  /** For any state: expiry processing at `now` is unobservable from `now` on if and only if every
      stored key that the engine's index lists as due has expired. */
  lemma {:induction false} ProcessExpiredUnobservableIff(e: Engine, now: uint64)
    requires Valid(e)
    ensures (forall k, later: uint64 :: now <= later ==>
               Answer(Apply(e, ProcessExpired(now)), k, later) == Answer(e, k, later))
            <==> (forall k :: k in Timelines.Due(e.deadlines, now) ==> Answer(e, k, now) == None)
  {
  }

  // ----- Exact refinement -----

  function Readings(op: Op): (uint64, uint64) {
    match op
    case Set(_, _, now) => (now, now)
    case SetWithTTL(_, _, _, now, later) => (now, later)
    case Get(_, now) => (now, now)
    case ProcessExpired(now) => (now, now)
    case _ => (0, 0)
  }

  predicate ReadsClock(op: Op) {
    !op.Delete? && !op.ProcessEvictions?
  }

  /** The last clock reading of a history. */
  function Clock(ops: seq<Op>): uint64 {
    if ops == [] then 0
    else if ReadsClock(ops[|ops| - 1]) then Readings(ops[|ops| - 1]).1
    else Clock(ops[..|ops| - 1])
  }

  /** The clock never runs backwards. */
  predicate Monotone(ops: seq<Op>) {
    ops != [] ==>
      var before, op := ops[..|ops| - 1], ops[|ops| - 1];
      Monotone(before) && (ReadsClock(op) ==> Clock(before) <= Readings(op).0 <= Readings(op).1)
  }

  function WrittenKeys(ops: seq<Op>): set<Key> {
    if ops == [] then {}
    else
      var op := ops[|ops| - 1];
      WrittenKeys(ops[..|ops| - 1]) + if op.Set? || op.SetWithTTL? then {op.key} else {}
  }

  /** No shard is ever asked to hold more keys than it can. */
  ghost predicate Fits(e: Engine, ops: seq<Op>) {
    forall i :: 0 <= i < |e.shards| ==> |At(e, WrittenKeys(ops), i)| <= e.shards[i].capacity
  }

  /** The engine answers as the plain map from now on, as long as no further operation is made. */
  ghost predicate Agrees(e: Engine, ops: seq<Op>) {
    forall k, now: uint64 :: Clock(ops) <= now ==> Answer(e, k, now) == PlainAnswer(ops, k, now)
  }

  /** Everything the plain map would still answer is stored. */
  ghost predicate StoresLive(e: Engine, ops: seq<Op>) {
    forall k :: LastWrite(ops, k).Some? && !LastWrite(ops, k).value.IsExpired(Clock(ops)) ==>
      k in e.shards[Home(e, k)].store
  }

  lemma {:induction false} AgreesIffStoresLive(e: Engine, ops: seq<Op>)
    requires Valid(e) && Current(e, ops)
    ensures Agrees(e, ops) <==> StoresLive(e, ops)
  {
    var t := Clock(ops);
    if StoresLive(e, ops) {
      forall k, now: uint64 | t <= now ensures Answer(e, k, now) == PlainAnswer(ops, k, now) {
      }
    } else {
      var k :| LastWrite(ops, k).Some? && !LastWrite(ops, k).value.IsExpired(t) && k !in e.shards[Home(e, k)].store;
      assert Answer(e, k, t) != PlainAnswer(ops, k, t);
    }
  }

  /** The guard of the steps that can lose something: an overflowing write evicts an expired entry;
      expiry and eviction processing drop only keys that would be answered by a miss anyway. */
  ghost predicate KeepsLive(e: Engine, op: Op, now: uint64)
    requires Valid(e)
  {
    match op
    case Get(_, _) => true
    case Delete(_) => true
    case ProcessExpired(_) => forall k :: k in Dropped(e, op) ==> Answer(e, k, now) == None
    case ProcessEvictions => forall k :: k in Dropped(e, op) ==> Answer(e, k, now) == None
    case _ => S.Overflows(e.shards[Home(e, op.key)], op.key) ==> Victim(e, op.key).IsExpired(now)
  }

  /** The entry that an overflowing write of `k` evicts. */
  function Victim(e: Engine, k: Key): Entry
    requires Valid(e) && S.Overflows(e.shards[Home(e, k)], k)
  {
    var s := e.shards[Home(e, k)];
    assert s.order[|s.order| - 1] in Elems(s.order);
    s.store[s.order[|s.order| - 1]]
  }

  /** What a write leaves in the home shard of its key. */
  lemma {:induction false} StoreAfterWrite(e: Engine, op: Op)
    requires Valid(e) && (op.Set? || op.SetWithTTL?)
    ensures var s, s' := e.shards[Home(e, op.key)], ShardAfter(e, op, Home(e, op.key));
            s'.store.Keys == s.store.Keys + {op.key} - if S.Overflows(s, op.key) then {s.order[|s.order| - 1]} else {}
    ensures var s := e.shards[Home(e, op.key)];
            S.Overflows(s, op.key) ==> s.order[|s.order| - 1] in s.store && s.order[|s.order| - 1] != op.key
  {
    var s, k, w := e.shards[Home(e, op.key)], op.key, Written(op);
    assert S.Consistent(s);
    hide S.Consistent, S.Put;
    if op.Set? {
      S.PutKeys(s, k, w, s.deadlines - {k});
    } else {
      S.PutKeys(s, k, w, S.WithDeadline(s.deadlines, k, w));
    }
  }

  /** A step that keeps what is live keeps every live key that it is not about. */
  lemma {:induction false} StepKeeps(e: Engine, op: Op, k: Key, now: uint64)
    requires Valid(e) && KeepsLive(e, op, now)
    requires k in e.shards[Home(e, k)].store && !e.shards[Home(e, k)].store[k].IsExpired(now)
    requires op != Delete(k) && (op.Get? ==> op.now == now)
    ensures k in ShardAfter(e, op, Home(e, k)).store
  {
    var i := Home(e, k);
    if op.Set? || op.SetWithTTL? {
      StoreAfterWrite(e, op);
    }
  }

  /** And a step that does not loses a live key. */
  lemma {:induction false} StepLoses(e: Engine, op: Op, now: uint64) returns (k: Key)
    requires Valid(e) && !KeepsLive(e, op, now)
    ensures k in e.shards[Home(e, k)].store && !e.shards[Home(e, k)].store[k].IsExpired(now)
    ensures k !in ShardAfter(e, op, Home(e, k)).store && !Writes(op, k) && op != Delete(k)
  {
    if op.Set? || op.SetWithTTL? {
      StoreAfterWrite(e, op);
      var s := e.shards[Home(e, op.key)];
      k := s.order[|s.order| - 1];
    } else {
      k :| k in Dropped(e, op) && Answer(e, k, now) != None;
    }
  }

  /** A step keeps the agreement if and only if it loses nothing live. */
  lemma {:induction false} ApplyAgrees(e: Engine, ops: seq<Op>, op: Op)
    requires Valid(e) && Current(e, ops) && StoresLive(e, ops) && Monotone(ops + [op])
    ensures StoresLive(Apply(e, op), ops + [op]) <==> KeepsLive(e, op, Clock(ops + [op]))
  {
    var e', all := Apply(e, op), ops + [op];
    var t := Clock(all);
    assert all[..|ops|] == ops;
    assert Clock(ops) <= t;
    if KeepsLive(e, op, t) {
      forall k | LastWrite(all, k).Some? && !LastWrite(all, k).value.IsExpired(t)
        ensures k in e'.shards[Home(e', k)].store
      {
        assert e'.shards[Home(e', k)] == ShardAfter(e, op, Home(e, k));
        if Writes(op, k) {
          WrittenIsStored(e, op);
        } else {
          assert LastWrite(all, k) == LastWrite(ops, k);
          StepKeeps(e, op, k, t);
        }
      }
    } else {
      var k := StepLoses(e, op, t);
      assert LastWrite(all, k) == LastWrite(ops, k) == Some(e.shards[Home(e, k)].store[k]);
      assert e'.shards[Home(e', k)] == ShardAfter(e, op, Home(e, k));
    }
  }

  ghost predicate AgreesThroughout(e: Engine, ops: seq<Op>) {
    Agrees(Run(e, ops), ops) && (ops != [] ==> AgreesThroughout(e, ops[..|ops| - 1]))
  }

  ghost predicate KeepsLiveThroughout(e: Engine, ops: seq<Op>)
    requires Valid(e)
  {
    ops != [] ==>
      var before := ops[..|ops| - 1];
      RunValid(e, before);
      KeepsLiveThroughout(e, before) && KeepsLive(Run(e, before), ops[|ops| - 1], Clock(ops))
  }

  /** Exact refinement: for every number of shards, every hash and every history under a clock that
      does not run backwards, the engine answers at every moment as one plain map with deadlines
      would, if and only if no step of the history loses a live entry. */
  lemma {:induction false} RefinesPlainMap(e: Engine, ops: seq<Op>)
    requires Valid(e) && Current(e, []) && Monotone(ops)
    ensures AgreesThroughout(e, ops) <==> KeepsLiveThroughout(e, ops)
  {
    RunValid(e, ops);
    RunCurrent(e, ops);
    AgreesIffStoresLive(Run(e, ops), ops);
    if ops == [] {
      assert StoresLive(e, []);
    } else {
      var before, op := ops[..|ops| - 1], ops[|ops| - 1];
      assert before + [op] == ops;
      RefinesPlainMap(e, before);
      if AgreesThroughout(e, before) {
        RunValid(e, before);
        RunCurrent(e, before);
        AgreesNow(e, before);
        AgreesIffStoresLive(Run(e, before), before);
        ApplyAgrees(Run(e, before), before, op);
      }
    }
  }

  lemma {:induction false} AgreesNow(e: Engine, ops: seq<Op>)
    requires AgreesThroughout(e, ops)
    ensures Agrees(Run(e, ops), ops)
  {
  }

  // ----- Histories that fit -----

  lemma {:induction false} LastWriteIsWritten(ops: seq<Op>, k: Key)
    requires LastWrite(ops, k).Some?
    ensures k in WrittenKeys(ops)
  {
    if Writes(ops[|ops| - 1], k) {
    } else {
      LastWriteIsWritten(ops[..|ops| - 1], k);
    }
  }

  /** A write into a shard that fits all keys written so far evicts nothing. */
  lemma {:induction false} WriteFits(e: Engine, ops: seq<Op>, op: Op)
    requires Valid(e) && Current(e, ops) && (op.Set? || op.SetWithTTL?)
    requires |At(e, WrittenKeys(ops + [op]), Home(e, op.key))| <= e.shards[Home(e, op.key)].capacity
    ensures !S.Overflows(e.shards[Home(e, op.key)], op.key)
  {
    var i := Home(e, op.key);
    var s := e.shards[i];
    assert (ops + [op])[..|ops|] == ops;
    if op.key !in s.order {
      S.StoreSize(s);
      assert op.key !in s.store by { assert op.key !in Elems(s.order); }
      var held, all := s.store.Keys + {op.key}, At(e, WrittenKeys(ops + [op]), i);
      forall k | k in s.store ensures k in all {
        LastWriteIsWritten(ops, k);
        assert Home(e, k) == i;
      }
      assert op.key in all;
      CardinalitySubset(held, all);
    }
  }

  /** Every expiry processing of a history finds only keys that would be answered by a miss anyway. */
  ghost predicate ExpiryHarmless(e: Engine, ops: seq<Op>) {
    ops != [] ==>
      var before, op := ops[..|ops| - 1], ops[|ops| - 1];
      && ExpiryHarmless(e, before)
      && (op.ProcessExpired? ==>
            var b := Run(e, before);
            forall k :: k in Timelines.Due(b.deadlines, op.now) ==> Answer(b, k, op.now) == None)
  }

  lemma {:induction false} FitsBefore(e: Engine, ops: seq<Op>)
    requires ops != [] && Fits(e, ops)
    ensures Fits(e, ops[..|ops| - 1])
  {
    var before := ops[..|ops| - 1];
    forall i | 0 <= i < |e.shards| ensures |At(e, WrittenKeys(before), i)| <= e.shards[i].capacity {
      CardinalitySubset(At(e, WrittenKeys(before), i), At(e, WrittenKeys(ops), i));
    }
  }

  lemma {:induction false} FittingKeepsLive(e: Engine, ops: seq<Op>)
    requires Valid(e) && Current(e, []) && Fits(e, ops)
    requires forall i :: 0 <= i < |ops| ==> !ops[i].ProcessEvictions?
    ensures KeepsLiveThroughout(e, ops) <==> ExpiryHarmless(e, ops)
  {
    if ops == [] {
    } else {
      var before, op := ops[..|ops| - 1], ops[|ops| - 1];
      assert before + [op] == ops && !op.ProcessEvictions?;
      FitsBefore(e, ops);
      FittingKeepsLive(e, before);
      RunValid(e, before);
      RunCurrent(e, before);
      var b := Run(e, before);
      if op.Set? || op.SetWithTTL? {
        assert At(b, WrittenKeys(ops), Home(b, op.key)) == At(e, WrittenKeys(ops), Home(b, op.key));
        WriteFits(b, before, op);
      }
    }
  }

  /** When the keys written fit the shards and no memory eviction runs, only expiry processing can
      lose anything; without it the engine is the plain map, whatever the TTLs. */
  lemma {:induction false} RefinesPlainMapWhenFitting(e: Engine, ops: seq<Op>)
    requires Valid(e) && Current(e, []) && Monotone(ops) && Fits(e, ops)
    requires forall i :: 0 <= i < |ops| ==> !ops[i].ProcessEvictions?
    ensures AgreesThroughout(e, ops) <==> ExpiryHarmless(e, ops)
    ensures (forall i :: 0 <= i < |ops| ==> !ops[i].ProcessExpired?) ==> AgreesThroughout(e, ops)
  {
    RefinesPlainMap(e, ops);
    FittingKeepsLive(e, ops);
    if forall i :: 0 <= i < |ops| ==> !ops[i].ProcessExpired? { NoExpiryIsHarmless(e, ops); }
  }

  lemma {:induction false} NoExpiryIsHarmless(e: Engine, ops: seq<Op>)
    requires forall i :: 0 <= i < |ops| ==> !ops[i].ProcessExpired?
    ensures ExpiryHarmless(e, ops)
  {
    if ops == [] {
    } else {
      NoExpiryIsHarmless(e, ops[..|ops| - 1]);
      assert !ops[|ops| - 1].ProcessExpired?;
    }
  }

  lemma {:induction false} MonotoneIsTimely(ops: seq<Op>)
    requires Monotone(ops)
    ensures forall i :: 0 <= i < |ops| ==> Timely(ops[i])
  {
    if ops == [] {
    } else {
      var n := |ops| - 1;
      MonotoneIsTimely(ops[..n]);
      forall i | 0 <= i < |ops| ensures Timely(ops[i]) {
        assert i < n ==> ops[i] == ops[..n][i];
      }
    }
  }

  lemma {:induction false} CoherentIsHarmless(e: Engine, ops: seq<Op>)
    requires Valid(e) && SafeThroughout(e, ops)
    ensures ExpiryHarmless(e, ops)
  {
    if ops == [] {
    } else {
      var before, op := ops[..|ops| - 1], ops[|ops| - 1];
      CoherentIsHarmless(e, before);
      SafeNow(e, before);
      RunValid(e, before);
      if op.ProcessExpired? {
        var b := Run(e, before);
        forall k | k in Timelines.Due(b.deadlines, op.now) ensures Answer(b, k, op.now) == None {
          if k in b.shards[Home(b, k)].store { assert Covers(b.deadlines, k, b.shards[Home(b, k)].store[k]); }
        }
      }
    }
  }

  lemma {:induction false} EmptyIsSafe(e: Engine)
    requires Current(e, [])
    ensures ExpirySafe(e)
  {
    forall i, k | 0 <= i < |e.shards| ensures k !in e.shards[i].store {
      assert LastWrite([], k) == None;
    }
  }

  /** With positive TTLs whose sums fit 64 bits it may also run expiry processing at any time. */
  lemma {:induction false} RefinesPlainMapWithFittingTtls(e: Engine, ops: seq<Op>)
    requires Valid(e) && Current(e, []) && Monotone(ops) && Fits(e, ops)
    requires forall i :: 0 <= i < |ops| ==> !ops[i].ProcessEvictions?
    requires forall i :: 0 <= i < |ops| && ops[i].SetWithTTL? ==> 0 < ops[i].ttl && ops[i].later + ops[i].ttl < WORD
    ensures AgreesThroughout(e, ops)
  {
    hide Valid, ExpirySafe, Current, Monotone, Fits, AgreesThroughout, SafeThroughout;
    EmptyIsSafe(e);
    MonotoneIsTimely(ops);
    forall i | 0 <= i < |ops| ensures Coherent(ops[i]) {
      assert Timely(ops[i]);
      if ops[i].SetWithTTL? { FittingTtlIsCoherent(ops[i]); }
    }
    SafeThroughoutIffCoherent(e, ops);
    CoherentIsHarmless(e, ops);
    RefinesPlainMapWhenFitting(e, ops);
  }

  /** A TTL of 0 makes an entry that never expires but is due at once: from any state it is answered
      at every time, and by nothing any more after the next expiry processing. */
  lemma {:induction false} ZeroTtlIsLost(e: Engine, k: Key, v: Value, written: uint64, swept: uint64, now: uint64)
    requires Valid(e) && written <= swept
    ensures var e' := Apply(e, SetWithTTL(k, v, 0, written, written));
            Answer(e', k, now) == Some(v) && Answer(Apply(e', ProcessExpired(swept)), k, now) == None
  {
    var op := SetWithTTL(k, v, 0, written, written);
    WrittenIsStored(e, op);
    var e' := Apply(e, op);
    assert Answer(e', k, now) == Some(v);
    assert k in Dropped(e', ProcessExpired(swept));
    DroppedIsMissed(e', ProcessExpired(swept), k, now);
  }

  lemma {:induction false} DroppedIsMissed(e: Engine, op: Op, k: Key, now: uint64)
    requires (op.ProcessExpired? || op.ProcessEvictions? || op.Delete?) && k in Dropped(e, op)
    ensures Answer(Apply(e, op), k, now) == None
  {
    T.RemoveAllAnswer(e.shards[Home(e, k)], At(e, Dropped(e, op), Home(e, k)), k, now);
  }

  /** The empty engine meets the requirements of the theorems of this module. */
  lemma {:induction false} EmptyEngineStarts(hash: Key -> nat, shardCount: nat, capacity: nat, max: uint64)
    requires shardCount > 0 && capacity > 0
    ensures var e := EmptyEngine(hash, shardCount, capacity, max);
            && Valid(e) && ExpirySafe(e) && Current(e, []) && Recent(e) && Tracked(e) && NoLeftovers(e, [])
            && e.hash == hash && |e.shards| == shardCount
            && (forall i :: 0 <= i < shardCount ==> e.shards[i].capacity == capacity && e.shards[i].store == map[])
            && e.eviction.max == max && e.eviction.usage == 0
  {
    EmptyEngineValid(hash, shardCount, capacity, max);
    assert Except<Key>([], {}) == [];
  }

  // ----- Capacity inclusion -----

  /** Two engines that differ in the capacity of their shards: every shard of the small one is
      included in that of the large one. */
  ghost predicate Included(s: Engine, l: Engine) {
    && s.hash == l.hash && |s.shards| == |l.shards|
    && forall i :: 0 <= i < |s.shards| ==> T.Included(s.shards[i], l.shards[i])
  }

  /** The guard of the operations that can break inclusion: what each engine drops must agree in
      every shard. */
  ghost predicate DropsAgree(s: Engine, l: Engine, op: Op)
    requires |s.shards| == |l.shards|
  {
    op.ProcessExpired? || op.ProcessEvictions? ==>
      forall i :: 0 <= i < |s.shards| ==>
        T.DropAgrees(s.shards[i], l.shards[i], At(s, Dropped(s, op), i), At(l, Dropped(l, op), i))
  }

  lemma {:induction false} ShardIncludedAfterStep(s: Engine, l: Engine, op: Op, i: nat)
    requires Valid(s) && Valid(l) && Included(s, l) && i < |s.shards|
    ensures T.Included(ShardAfter(s, op, i), ShardAfter(l, op, i)) <==>
            (op.ProcessExpired? || op.ProcessEvictions? ==>
               T.DropAgrees(s.shards[i], l.shards[i], At(s, Dropped(s, op), i), At(l, Dropped(l, op), i)))
  {
    hide S.Apply, S.RemoveAll, T.Included, T.DropAgrees;
    var a, b := s.shards[i], l.shards[i];
    assert S.Consistent(a) && S.Consistent(b) && T.Included(a, b);
    hide S.Consistent;
    match op
    case Set(k, v, now) => T.IncludedAfterStep(a, b, S.Set(k, v, now));
    case SetWithTTL(k, v, ttl, now, _) => T.IncludedAfterStep(a, b, S.SetWithTTL(k, v, ttl, now));
    case Get(k, now) => T.IncludedAfterStep(a, b, S.Get(k, now));
    case Delete(k) => T.IncludedAfterRemove(a, b, At(s, {k}, i));
    case _ => T.IncludedAfterDrop(a, b, At(s, Dropped(s, op), i), At(l, Dropped(l, op), i));
  }

  lemma {:induction false} ApplyIncluded(s: Engine, l: Engine, op: Op)
    requires Valid(s) && Valid(l) && Included(s, l)
    ensures Included(Apply(s, op), Apply(l, op)) <==> DropsAgree(s, l, op)
  {
    hide Valid, T.Included, T.DropAgrees, ShardAfter, DeadlinesAfter, EvictionAfter, At, Dropped;
    forall i | 0 <= i < |s.shards|
      ensures T.Included(Apply(s, op).shards[i], Apply(l, op).shards[i]) <==>
              (op.ProcessExpired? || op.ProcessEvictions? ==>
                 T.DropAgrees(s.shards[i], l.shards[i], At(s, Dropped(s, op), i), At(l, Dropped(l, op), i)))
    {
      ShardIncludedAfterStep(s, l, op, i);
    }
  }

  ghost predicate IncludedThroughout(s: Engine, l: Engine, ops: seq<Op>) {
    && Included(Run(s, ops), Run(l, ops))
    && (ops != [] ==> IncludedThroughout(s, l, ops[..|ops| - 1]))
  }

  ghost predicate DropsAgreeThroughout(s: Engine, l: Engine, ops: seq<Op>)
    requires Valid(s) && Valid(l) && |s.shards| == |l.shards|
  {
    ops != [] ==>
      var before := ops[..|ops| - 1];
      RunValid(s, before);
      RunValid(l, before);
      DropsAgreeThroughout(s, l, before) && DropsAgree(Run(s, before), Run(l, before), ops[|ops| - 1])
  }

  /** No Belady anomaly for the engine: on the same history an engine with larger shards includes one
      with smaller shards at every moment if and only if what the two drop on expiry and eviction
      processing agrees. */
  lemma {:induction false} CapacityInclusion(s: Engine, l: Engine, ops: seq<Op>)
    requires Valid(s) && Valid(l) && Included(s, l)
    ensures IncludedThroughout(s, l, ops) <==> DropsAgreeThroughout(s, l, ops)
  {
    if ops == [] {
    } else {
      var before := ops[..|ops| - 1];
      CapacityInclusion(s, l, before);
      RunValid(s, before);
      RunValid(l, before);
      if IncludedThroughout(s, l, before) {
        IncludedNow(s, l, before);
        ApplyIncluded(Run(s, before), Run(l, before), ops[|ops| - 1]);
      }
    }
  }

  lemma {:induction false} IncludedNow(s: Engine, l: Engine, ops: seq<Op>)
    requires IncludedThroughout(s, l, ops)
    ensures Included(Run(s, ops), Run(l, ops))
  {
  }

  /** Without memory evictions the engine's TTL index depends on the history alone. */
  lemma {:induction false} SameDeadlines(s: Engine, l: Engine, ops: seq<Op>)
    requires s.deadlines == l.deadlines && forall i :: 0 <= i < |ops| ==> !ops[i].ProcessEvictions?
    ensures Run(s, ops).deadlines == Run(l, ops).deadlines
  {
    if ops == [] {
    } else {
      SameDeadlines(s, l, ops[..|ops| - 1]);
      assert !ops[|ops| - 1].ProcessEvictions?;
    }
  }

  lemma {:induction false} SameDropsAgree(s: Engine, l: Engine, op: Op)
    requires Valid(s) && Valid(l) && Included(s, l) && s.deadlines == l.deadlines && !op.ProcessEvictions?
    ensures DropsAgree(s, l, op)
  {
    hide T.DropAgrees, T.Included;
    if op.ProcessExpired? {
      var gone := Dropped(s, op);
      forall i | 0 <= i < |s.shards|
        ensures T.DropAgrees(s.shards[i], l.shards[i], At(s, gone, i), At(l, gone, i))
      {
        assert S.Consistent(s.shards[i]) && S.Consistent(l.shards[i]);
        T.SameDropAgrees(s.shards[i], l.shards[i], At(s, gone, i));
      }
    }
  }

  lemma {:induction false} SameDropsAgreeThroughout(s: Engine, l: Engine, ops: seq<Op>)
    requires Valid(s) && Valid(l) && Included(s, l) && s.deadlines == l.deadlines
    requires forall i :: 0 <= i < |ops| ==> !ops[i].ProcessEvictions?
    ensures DropsAgreeThroughout(s, l, ops)
  {
    hide Valid, Included, DropsAgree;
    if ops == [] {
    } else {
      var before := ops[..|ops| - 1];
      SameDropsAgreeThroughout(s, l, before);
      SameDeadlines(s, l, before);
      RunValid(s, before);
      RunValid(l, before);
      CapacityInclusion(s, l, before);
      IncludedNow(s, l, before);
      SameDropsAgree(Run(s, before), Run(l, before), ops[|ops| - 1]);
    }
  }

  /** On any history without memory evictions, expiry processing included and whatever the TTLs,
      every answer of an engine is the same answer of one with larger shards. */
  lemma {:induction false} LargerShardsAnswerMore(s: Engine, l: Engine, ops: seq<Op>, k: Key, now: uint64)
    requires Valid(s) && Valid(l) && Included(s, l) && s.deadlines == l.deadlines
    requires forall i :: 0 <= i < |ops| ==> !ops[i].ProcessEvictions?
    ensures IncludedThroughout(s, l, ops)
    ensures Answer(Run(s, ops), k, now).Some? ==> Answer(Run(l, ops), k, now) == Answer(Run(s, ops), k, now)
  {
    hide Valid, DropsAgreeThroughout, IncludedThroughout;
    CapacityInclusion(s, l, ops);
    SameDropsAgreeThroughout(s, l, ops);
    IncludedNow(s, l, ops);
  }

  /** Two empty engines whose shards have capacities c <= C are related. */
  lemma {:induction false} EmptyEnginesIncluded(
    hash: Key -> nat, n: nat, c: nat, C: nat, max: uint64, max': uint64)
    requires n > 0 && 1 <= c <= C
    ensures var s, l := EmptyEngine(hash, n, c, max), EmptyEngine(hash, n, C, max');
            Valid(s) && Valid(l) && Included(s, l) && s.deadlines == l.deadlines
  {
    EmptyEngineValid(hash, n, c, max);
    EmptyEngineValid(hash, n, C, max');
    T.EmptyShardsIncluded(c, C);
  }

  // ----- Retention -----

  /** What an operation of the engine is to the home shard of its key. */
  function ShardOp(op: Op): S.ShardOp
    requires !op.ProcessExpired? && !op.ProcessEvictions?
  {
    match op
    case Set(k, v, now) => S.Set(k, v, now)
    case SetWithTTL(k, v, ttl, now, _) => S.SetWithTTL(k, v, ttl, now)
    case Get(k, now) => S.Get(k, now)
    case Delete(k) => S.Delete(k)
  }

  predicate NoSweeps(ops: seq<Op>) {
    forall i :: 0 <= i < |ops| ==> !ops[i].ProcessExpired? && !ops[i].ProcessEvictions?
  }

  /** The part of a history that concerns shard `i`. */
  function Project(e: Engine, ops: seq<Op>, i: nat): seq<S.ShardOp>
    requires NoSweeps(ops)
  {
    if ops == [] then []
    else
      var op := ops[|ops| - 1];
      Project(e, ops[..|ops| - 1], i) + if Home(e, op.key) == i then [ShardOp(op)] else []
  }

  lemma {:induction false} ShardRunSnoc(s: S.ShardState, ops: seq<S.ShardOp>, op: S.ShardOp)
    ensures S.Run(s, ops + [op]) == S.Apply(S.Run(s, ops), op)
    decreases |ops|
  {
    if ops == [] {
      assert [] + [op] == [op] && [op][1..] == [];
    } else {
      assert (ops + [op])[1..] == ops[1..] + [op];
      ShardRunSnoc(S.Apply(s, ops[0]), ops[1..], op);
    }
  }

  lemma {:induction false} OneShardStep(e: Engine, op: Op, i: nat)
    requires i < |e.shards| && !op.ProcessExpired? && !op.ProcessEvictions?
    ensures Apply(e, op).shards[i] == if Home(e, op.key) == i then S.Apply(e.shards[i], ShardOp(op)) else e.shards[i]
  {
    if op.Delete? {
      assert At(e, {op.key}, i) == if Home(e, op.key) == i then {op.key} else {};
      T.RemoveNothing(e.shards[i]);
    }
  }

  /** A shard sees only the operations on its own keys. */
  lemma {:induction false} RunIsProjected(e: Engine, ops: seq<Op>, i: nat)
    requires NoSweeps(ops) && i < |e.shards|
    ensures |Run(e, ops).shards| == |e.shards| && Run(e, ops).hash == e.hash
    ensures Run(e, ops).shards[i] == S.Run(e.shards[i], Project(e, ops, i))
  {
    if ops == [] {
    } else {
      hide S.Apply, S.Run;
      var before, op := ops[..|ops| - 1], ops[|ops| - 1];
      RunIsProjected(e, before, i);
      var b := Run(e, before);
      OneShardStep(b, op, i);
      assert Home(b, op.key) == Home(e, op.key);
      var shardOps := Project(e, before, i);
      if Home(e, op.key) == i {
        ShardRunSnoc(e.shards[i], shardOps, ShardOp(op));
      } else {
        assert shardOps + [] == shardOps;
      }
    }
  }

  /** The keys that a history is about. */
  function KeysOf(ops: seq<Op>): set<Key>
    requires NoSweeps(ops)
  {
    set i | 0 <= i < |ops| :: ops[i].key
  }

  lemma {:induction false} ProjectedKeys(e: Engine, ops: seq<Op>, i: nat)
    requires NoSweeps(ops)
    ensures forall j :: 0 <= j < |Project(e, ops, i)| ==>
              !Project(e, ops, i)[j].CleanupExpired? && Project(e, ops, i)[j].key in KeysOf(ops)
  {
    if ops == [] {
    } else {
      var before := ops[..|ops| - 1];
      ProjectedKeys(e, before, i);
      assert KeysOf(ops) == KeysOf(before) + {ops[|ops| - 1].key} by {
        assert ops == before + [ops[|ops| - 1]];
      }
    }
  }

  lemma {:induction false} UsedAreNamed(s: S.ShardState, ops: seq<S.ShardOp>, keys: set<Key>)
    requires forall j :: 0 <= j < |ops| ==> !ops[j].CleanupExpired? && ops[j].key in keys
    ensures T.AllUsed(s, ops) <= keys
    decreases |ops|
  {
    if ops == [] {
    } else {
      assert forall j :: 0 <= j < |ops[1..]| ==> ops[1..][j] == ops[j + 1];
      UsedAreNamed(S.Apply(s, ops[0]), ops[1..], keys);
    }
  }

  /** LRU retention for the engine: after a hit a key keeps its answers through any history that is
      about fewer other keys than its shard has room for. */
  lemma {:induction false} RetentionAfterHit(e: Engine, k: Key, now: uint64, ops: seq<Op>)
    requires Valid(e) && Answer(e, k, now).Some? && NoSweeps(ops) && k !in KeysOf(ops)
    requires |KeysOf(ops)| < e.shards[Home(e, k)].capacity
    ensures forall t: uint64 :: Answer(Run(Apply(e, Get(k, now)), ops), k, t) == Answer(e, k, t)
  {
    hide S.Apply, T.AllUsed;
    var i, e1 := Home(e, k), Apply(e, Get(k, now));
    var s, s1 := e.shards[i], e1.shards[i];
    OneShardStep(e, Get(k, now), i);
    S.ApplyKeepsInvariants(s, S.Get(k, now));
    T.HitMovesToFront(s, k, now);
    var shardOps := Project(e1, ops, i);
    ProjectedKeys(e1, ops, i);
    UsedAreNamed(s1, shardOps, KeysOf(ops));
    CardinalitySubset(T.AllUsed(s1, shardOps), KeysOf(ops));
    T.Retention(s1, shardOps, k);
    RunIsProjected(e1, ops, i);
  }

  // ----- Global and local recency -----

  /** Every shard's recency order is part of the policy's recency order. */
  ghost predicate Recent(e: Engine) {
    forall i :: 0 <= i < |e.shards| ==> Subsequence(e.shards[i].order, e.eviction.order)
  }

  /** Eviction needs more keys than the policy tracks, or takes the counter below zero, while some
      shard still holds a key. */
  ghost predicate LosesTrack(e: Engine, op: Op) {
    && op.ProcessEvictions?
    && !E.Collectable(e.eviction)
    && exists i :: 0 <= i < |e.shards| && e.shards[i].order != []
  }

  lemma {:induction false} NotHomeNotTracked(e: Engine, i: nat, k: Key)
    requires Valid(e) && i < |e.shards| && Home(e, k) != i
    ensures k !in e.shards[i].order
  {
  }

  lemma {:induction false} WriteRecent(e: Engine, op: Op, i: nat)
    requires Valid(e) && i < |e.shards| && (op.Set? || op.SetWithTTL?)
    requires Subsequence(e.shards[i].order, e.eviction.order)
    ensures Subsequence(ShardAfter(e, op, i).order, MoveToFront(e.eviction.order, op.key))
  {
    var s, k := e.shards[i], op.key;
    if Home(e, k) == i {
      var w := Written(op);
      var d := if op.Set? then s.deadlines - {k} else S.WithDeadline(s.deadlines, k, w);
      var s' := S.PutFacts(s, k, w, d);
      assert s' == ShardAfter(e, op, i);
      SubsequenceTouch(s.order, e.eviction.order, k);
      MoveToFrontFacts(s.order, k);
      var touched := MoveToFront(s.order, k);
      SubsequencePrefix(touched, MoveToFront(e.eviction.order, k), |touched| - 1);
    } else {
      NotHomeNotTracked(e, i, k);
      SubsequenceTouchLarge(s.order, e.eviction.order, k);
    }
  }

  lemma {:induction false} ReadRecent(e: Engine, k: Key, now: uint64, i: nat)
    requires Valid(e) && i < |e.shards|
    requires Subsequence(e.shards[i].order, e.eviction.order)
    ensures Subsequence(ShardAfter(e, Get(k, now), i).order, EvictionAfter(e, Get(k, now)).order)
  {
    var s := e.shards[i];
    if Home(e, k) != i {
      NotHomeNotTracked(e, i, k);
      SubsequenceTouchLarge(s.order, e.eviction.order, k);
    } else if k in s.store {
      SubsequenceTouch(s.order, e.eviction.order, k);
      SubsequenceShrink(s.order, e.eviction.order, {k});
    }
  }

  /** Deleting keys from their home shards and from the policy. */
  lemma {:induction false} DropRecent(e: Engine, gone: set<Key>, i: nat)
    requires Valid(e) && i < |e.shards|
    requires Subsequence(e.shards[i].order, e.eviction.order)
    ensures Except(e.shards[i].order, At(e, gone, i)) == Except(e.shards[i].order, gone)
    ensures Subsequence(Except(e.shards[i].order, At(e, gone, i)), Except(e.eviction.order, gone))
  {
    forall k | k in e.shards[i].order ensures k in gone <==> k in At(e, gone, i) {
      if Home(e, k) != i { NotHomeNotTracked(e, i, k); }
    }
    T.ExceptCongruence(e.shards[i].order, At(e, gone, i), gone);
    SubsequenceExcept(e.shards[i].order, e.eviction.order, gone);
  }

  /** Every operation keeps global and local recency together, except exactly an eviction that
      throws while keys are still stored. */
  lemma {:induction false} ApplyRecent(e: Engine, op: Op)
    requires Valid(e) && Recent(e)
    ensures Recent(Apply(e, op)) <==> !LosesTrack(e, op)
  {
    var e' := Apply(e, op);
    E.CompletesIff(e.eviction);
    if op.ProcessEvictions? && !E.Collectable(e.eviction) {
      ThrowRecent(e);
    } else {
      forall i | 0 <= i < |e'.shards| ensures Subsequence(e'.shards[i].order, e'.eviction.order) {
        assert e'.shards[i] == ShardAfter(e, op, i);
        if op.Set? || op.SetWithTTL? {
          WriteRecent(e, op, i);
        } else if op.Get? {
          ReadRecent(e, op.key, op.now, i);
        } else {
          DropRecent(e, Dropped(e, op), i);
          if op.ProcessEvictions? { var _ := E.CollectVictims(e.eviction); }
        }
      }
    }
  }

  lemma {:induction false} ThrowRecent(e: Engine)
    requires Valid(e) && !E.Collect(e.eviction).completed
    ensures Recent(Apply(e, ProcessEvictions)) <==> forall i :: 0 <= i < |e.shards| ==> e.shards[i].order == []
  {
    var e' := Apply(e, ProcessEvictions);
    E.CollectReturnsCharges(e.eviction);
    assert e'.eviction.order == [];
    forall i | 0 <= i < |e.shards|
      ensures e'.shards[i].order == e.shards[i].order
      ensures Subsequence(e'.shards[i].order, []) <==> e.shards[i].order == []
    {
      assert At(e, {}, i) == {};
      ExceptDisjoint(e.shards[i].order, {});
      assert e'.shards[i] == ShardAfter(e, ProcessEvictions, i);
      if Subsequence(e.shards[i].order, []) { SubsequenceElems(e.shards[i].order, []); }
      assert Except<Key>([], {}) == [];
    }
  }

  ghost predicate NeverLosesTrack(e: Engine, ops: seq<Op>) {
    ops != [] ==>
      NeverLosesTrack(e, ops[..|ops| - 1]) && !LosesTrack(Run(e, ops[..|ops| - 1]), ops[|ops| - 1])
  }

  ghost predicate RecentThroughout(e: Engine, ops: seq<Op>) {
    Recent(Run(e, ops)) && (ops != [] ==> RecentThroughout(e, ops[..|ops| - 1]))
  }

  /** Global and local recency agree throughout a history if and only if no eviction of it loses
      track. */
  lemma {:induction false} RecentThroughoutIff(e: Engine, ops: seq<Op>)
    requires Valid(e) && Recent(e)
    ensures RecentThroughout(e, ops) <==> NeverLosesTrack(e, ops)
  {
    if ops == [] {
    } else {
      var before := ops[..|ops| - 1];
      RecentThroughoutIff(e, before);
      RunValid(e, before);
      if RecentThroughout(e, before) {
        RecentNow(e, before);
        ApplyRecent(Run(e, before), ops[|ops| - 1]);
      }
    }
  }

  lemma {:induction false} RecentNow(e: Engine, ops: seq<Op>)
    requires RecentThroughout(e, ops)
    ensures Recent(Run(e, ops))
  {
  }

  /** Of two keys of one shard, the one the shard used more recently is also the one the policy
      saw more recently. */
  lemma {:induction false} LocalRecencyIsGlobal(e: Engine, i: nat, p: nat, q: nat) returns (p': nat, q': nat)
    requires Recent(e) && i < |e.shards| && p < q < |e.shards[i].order|
    ensures p' < q' < |e.eviction.order|
    ensures e.eviction.order[p'] == e.shards[i].order[p] && e.eviction.order[q'] == e.shards[i].order[q]
  {
    p', q' := SubsequenceKeepsOrder(e.shards[i].order, e.eviction.order, p, q);
  }

  /** Memory eviction takes a suffix of every shard's own recency order: no survivor of a shard
      was used less recently than a victim of that shard. */
  lemma {:induction false} EvictionTakesShardSuffix(e: Engine, i: nat) returns (n: nat)
    requires Valid(e) && Recent(e) && i < |e.shards| && E.Collectable(e.eviction)
    ensures n <= |e.shards[i].order|
    ensures Apply(e, ProcessEvictions).shards[i].order == e.shards[i].order[..n]
    ensures Elems(e.shards[i].order[n..]) == Elems(e.shards[i].order) * Elems(E.Collect(e.eviction).victims)
  {
    E.CompletesIff(e.eviction);
    var m := E.CollectVictims(e.eviction);
    n := SubsequenceCut(e.shards[i].order, e.eviction.order, m);
    DropRecent(e, Elems(E.Collect(e.eviction).victims), i);
  }

  // ----- Listing -----

  lemma {:induction false} LiveItemsExact(store: map<Key, Entry>, keys: seq<Key>, tick: Key -> uint64)
    requires Distinct(keys)
    ensures S.KeysOnce(S.LiveItems(store, keys, tick))
    ensures forall k, v :: (k, v) in S.LiveItems(store, keys, tick) <==>
              k in keys && k in store && !store[k].IsExpired(tick(k)) && store[k].value == v
  {
    if keys == [] {
    } else {
      var n := |keys| - 1;
      var rest, k := S.LiveItems(store, keys[..n], tick), keys[n];
      LiveItemsExact(store, keys[..n], tick);
      assert keys == keys[..n] + [k] && k !in keys[..n];
      forall i | 0 <= i < |rest| ensures rest[i].0 != k {
        assert (rest[i].0, rest[i].1) in rest;
      }
    }
  }

  lemma {:induction false} MergedItemsExact(e: Engine, scan: set<Key> -> seq<Key>, tick: Key -> uint64, n: nat)
    requires Valid(e) && S.Enumerates(scan) && n <= |e.shards|
    ensures S.KeysOnce(S.MergedItems(e.shards[..n], scan, tick))
    ensures forall k, v :: (k, v) in S.MergedItems(e.shards[..n], scan, tick) <==>
              Home(e, k) < n && Answer(e, k, tick(k)) == Some(v)
  {
    if n == 0 {
    } else {
      var s := e.shards[n - 1];
      var keys := scan(s.store.Keys);
      assert e.shards[..n][..n - 1] == e.shards[..n - 1];
      MergedItemsExact(e, scan, tick, n - 1);
      LiveItemsExact(s.store, keys, tick);
      var before, items := S.MergedItems(e.shards[..n - 1], scan, tick), S.AllItems(s, scan, tick);
      forall k, v ensures (k, v) in items <==> Home(e, k) == n - 1 && Answer(e, k, tick(k)) == Some(v) {
        assert k in keys <==> k in Elems(keys);
      }
      forall i, j | 0 <= i < |before| && 0 <= j < |items| ensures before[i].0 != items[j].0 {
        assert (before[i].0, before[i].1) in before;
        assert (items[j].0, items[j].1) in items;
      }
      KeysOnceConcat(before, items);
    }
  }

  lemma {:induction false} KeysOnceConcat(a: seq<(Key, Value)>, b: seq<(Key, Value)>)
    requires S.KeysOnce(a) && S.KeysOnce(b)
    requires forall i, j :: 0 <= i < |a| && 0 <= j < |b| ==> a[i].0 != b[j].0
    ensures S.KeysOnce(a + b)
  {
  }

  /** Listing all keys gives every key exactly once with the value that a Get would answer, and
      nothing else, whatever the iteration order of the hash tables. */
  lemma {:induction false} ListingIsAllAnswers(e: Engine, scan: set<Key> -> seq<Key>, tick: Key -> uint64)
    requires Valid(e) && S.Enumerates(scan)
    ensures S.KeysOnce(S.MergedItems(e.shards, scan, tick))
    ensures forall k, v :: (k, v) in S.MergedItems(e.shards, scan, tick) <==> Answer(e, k, tick(k)) == Some(v)
  {
    assert e.shards[..|e.shards|] == e.shards;
    MergedItemsExact(e, scan, tick, |e.shards|);
  }

  // ----- The byte counter -----

  /** Charges taken minus charges returned by one operation. */
  function Balance(e: Engine, op: Op): int {
    match op
    case Set(_, _, _) => 1
    case SetWithTTL(_, _, _, _, _) => 1
    case Get(_, _) => 0
    case Delete(_) => -1
    case ProcessExpired(now) => -|Timelines.Due(e.deadlines, now)|
    case ProcessEvictions => -|E.Collect(e.eviction).victims|
  }

  /** Writes minus deletes, expired keys and victims of a history. */
  function Charges(e: Engine, ops: seq<Op>): int {
    if ops == [] then 0
    else
      var before := ops[..|ops| - 1];
      Charges(e, before) + Balance(Run(e, before), ops[|ops| - 1])
  }

  lemma {:induction false} StepUsage(e: Engine, op: Op)
    ensures EvictionAfter(e, op).usage == E.Moved(e.eviction.usage, E.CHARGE * Balance(e, op))
  {
    E.CollectReturnsCharges(e.eviction);
    if op.Get? { assert E.Moved(e.eviction.usage, 0) == e.eviction.usage; }
  }

  /** The counter counts calls, not keys: it is 100 times the balance of calls, modulo 2^64. */
  lemma {:induction false} UsageLaw(e: Engine, ops: seq<Op>)
    ensures Run(e, ops).eviction.usage == E.Moved(e.eviction.usage, E.CHARGE * Charges(e, ops))
  {
    if ops == [] {
    } else {
      var before, op := ops[..|ops| - 1], ops[|ops| - 1];
      UsageLaw(e, before);
      StepUsage(Run(e, before), op);
      E.MovedTwice(e.eviction.usage, E.CHARGE * Charges(e, before), E.CHARGE * Balance(Run(e, before), op));
    }
  }

  lemma {:induction false} RunThree(e: Engine, op: Op)
    ensures Run(e, [op, op, op]) == Apply(Apply(Apply(e, op), op), op)
  {
    assert [op, op, op][..2] == [op, op] && [op, op][..1] == [op] && [op][..0] == [];
    assert Run(e, [op]) == Apply(e, op);
    assert Run(e, [op, op]) == Apply(Apply(e, op), op);
  }

  lemma {:induction false} ThreeWritesOfOneKey(s: E.EvictionState, k: Key)
    requires s == E.EvictionState(100, 0, [])
    ensures E.OnWrite(E.OnWrite(E.OnWrite(s, k), k), k) == E.EvictionState(100, 300, [k])
  {
  }

  lemma {:induction false} ThrowLosesTrack(e: Engine, k: Key, v: Value, now: uint64)
    requires Valid(e) && e.eviction == E.EvictionState(100, 300, [k]) && Answer(e, k, now) == Some(v)
    ensures LosesTrack(e, ProcessEvictions) && !Recent(Apply(e, ProcessEvictions))
    ensures Answer(Apply(e, ProcessEvictions), k, now) == Some(v)
  {
    var i := Home(e, k);
    E.CompletesIff(e.eviction);
    E.CollectableIffEnough(e.eviction);
    assert k in Elems(e.shards[i].order);
    ThrowRecent(e);
    T.RemoveAllAnswer(e.shards[i], At(e, {}, i), k, now);
  }

  lemma {:induction false} WriteAnswers(e: Engine, k: Key, v: Value, now: uint64)
    requires Valid(e)
    ensures Valid(Apply(e, Set(k, v, now))) && Answer(Apply(e, Set(k, v, now)), k, now) == Some(v)
    ensures Apply(e, Set(k, v, now)).eviction == E.OnWrite(e.eviction, k)
  {
    ApplyValid(e, Set(k, v, now));
    WrittenIsStored(e, Set(k, v, now));
  }

  /** The counter can ask for more victims than there are keys: three writes of one key under a
      limit of 100 bytes make the policy throw, and it loses track of a key that is still served. */
  lemma {:induction false} EvictionCanLoseTrack(hash: Key -> nat, shardCount: nat, capacity: nat, k: Key, v: Value)
    requires shardCount > 0 && capacity > 0
    ensures var e := Run(EmptyEngine(hash, shardCount, capacity, 100), [Set(k, v, 0), Set(k, v, 0), Set(k, v, 0)]);
            && LosesTrack(e, ProcessEvictions)
            && !Recent(Apply(e, ProcessEvictions))
            && Answer(Apply(e, ProcessEvictions), k, 0) == Some(v)
  {
    hide Valid, LosesTrack, Recent, Answer;
    var e0, w := EmptyEngine(hash, shardCount, capacity, 100), Set(k, v, 0);
    var e1 := Apply(e0, w);
    var e2 := Apply(e1, w);
    EmptyEngineValid(hash, shardCount, capacity, 100);
    WriteAnswers(e0, k, v, 0);
    WriteAnswers(e1, k, v, 0);
    WriteAnswers(e2, k, v, 0);
    ThreeWritesOfOneKey(e0.eviction, k);
    ThrowLosesTrack(Apply(e2, w), k, v, 0);
    RunThree(e0, w);
  }
}
