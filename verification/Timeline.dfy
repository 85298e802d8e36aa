/** What a TTL index holds, as a value: the tracked keys in the order in which a sweep returns
    them, and the deadline of each (src/core/ttl_index.h). */
module Timelines {
  import opened Common
  import opened Sequences

  datatype TtlState = TtlState(timeline: seq<Key>, index: map<Key, uint64>)

  datatype TtlOp =
    | Upsert(key: Key, deadline: uint64)
    | Remove(key: Key)
    | Collect(now: uint64)

  function Due(index: map<Key, uint64>, now: uint64): set<Key> {
    set k | k in index && index[k] <= now
  }

  function NotDue(index: map<Key, uint64>, now: uint64): set<Key> {
    set k | k in index && index[k] > now
  }

  function ApplyRemove(s: TtlState, k: Key): TtlState {
    TtlState(Except(s.timeline, {k}), s.index - {k})
  }

  /** A key joins the timeline behind every key that is due no later than itself. */
  function ApplyUpsert(s: TtlState, k: Key, deadline: uint64): TtlState {
    var r := ApplyRemove(s, k);
    TtlState(Except(r.timeline, NotDue(r.index, deadline)) + [k] + Except(r.timeline, Due(r.index, deadline)),
             r.index[k := deadline])
  }

  function Collected(s: TtlState, now: uint64): seq<Key> {
    Except(s.timeline, NotDue(s.index, now))
  }

  function ApplyCollect(s: TtlState, now: uint64): TtlState {
    TtlState(Except(s.timeline, Due(s.index, now)), s.index - Due(s.index, now))
  }

  function Apply(s: TtlState, op: TtlOp): TtlState {
    match op
    case Upsert(k, deadline) => ApplyUpsert(s, k, deadline)
    case Remove(k) => ApplyRemove(s, k)
    case Collect(now) => ApplyCollect(s, now)
  }

  /** The state after a history of operations on an empty index. */
  function Run(ops: seq<TtlOp>): TtlState {
    if ops == [] then TtlState([], map[]) else Apply(Run(ops[..|ops| - 1]), ops[|ops| - 1])
  }

  /** When a key was last upserted, counting operations from 1. */
  function LastUpsert(ops: seq<TtlOp>, k: Key): nat {
    if ops == [] then 0
    else
      var op := ops[|ops| - 1];
      if op.Upsert? && op.key == k then |ops| else LastUpsert(ops[..|ops| - 1], k)
  }

  lemma {:induction false} LastUpsertBound(ops: seq<TtlOp>, k: Key)
    ensures LastUpsert(ops, k) <= |ops|
  {
    if ops == [] {
    } else {
      LastUpsertBound(ops[..|ops| - 1], k);
    }
  }

  /** `a` is due before `b`, or at the same time but upserted earlier. */
  ghost predicate Precedes(index: map<Key, uint64>, ops: seq<TtlOp>, a: Key, b: Key) {
    && a in index && b in index
    && (index[a] < index[b] || (index[a] == index[b] && LastUpsert(ops, a) < LastUpsert(ops, b)))
  }

  ghost predicate Ordered(t: seq<Key>, index: map<Key, uint64>, ops: seq<TtlOp>) {
    forall i, j :: 0 <= i < j < |t| ==> Precedes(index, ops, t[i], t[j])
  }

  /** The timeline lists the indexed keys, each once, by deadline and then by latest upsert. */
  ghost predicate InOrder(s: TtlState, ops: seq<TtlOp>) {
    && Distinct(s.timeline)
    && Elems(s.timeline) == s.index.Keys
    && Ordered(s.timeline, s.index, ops)
  }

  lemma {:induction false} OrderedExcept(t: seq<Key>, index: map<Key, uint64>, ops: seq<TtlOp>, gone: set<Key>)
    requires Ordered(t, index, ops)
    ensures Ordered(Except(t, gone), index, ops)
  {
    var r := Except(t, gone);
    forall i, j | 0 <= i < j < |r| ensures Precedes(index, ops, r[i], r[j]) {
      var p, q := ExceptKeepsOrder(t, gone, i, j);
    }
  }

  /** Operations that do not upsert a key leave its place in the order alone. */
  lemma {:induction false} OrderedCarries(
    t: seq<Key>, index: map<Key, uint64>, ops: seq<TtlOp>, index': map<Key, uint64>, op: TtlOp)
    requires Ordered(t, index, ops)
    requires forall k :: k in t && k in index ==> k in index' && index'[k] == index[k]
    requires op.Upsert? ==> op.key !in t
    ensures Ordered(t, index', ops + [op])
  {
  }

  lemma {:induction false} InOrderAfterDrop(s: TtlState, ops: seq<TtlOp>, op: TtlOp, gone: set<Key>)
    requires InOrder(s, ops)
    requires op.Upsert? ==> op.key in gone
    ensures InOrder(TtlState(Except(s.timeline, gone), s.index - gone), ops + [op])
  {
    ExceptElems(s.timeline, gone);
    ExceptDistinct(s.timeline, gone);
    OrderedExcept(s.timeline, s.index, ops, gone);
    OrderedCarries(Except(s.timeline, gone), s.index, ops, s.index - gone, op);
  }

  lemma {:induction false} InOrderAfterInsert(
    a: seq<Key>, b: seq<Key>, k: Key, index: map<Key, uint64>, ops: seq<TtlOp>, deadline: uint64)
    requires k !in index
    requires Ordered(a, index, ops) && Ordered(b, index, ops)
    requires forall x :: x in a ==> x in index && index[x] <= deadline && LastUpsert(ops, x) < LastUpsert(ops, k)
    requires forall x :: x in b ==> x in index && index[x] > deadline
    ensures Ordered(a + [k] + b, index[k := deadline], ops)
  {
  }

  lemma {:induction false} InsertElems(t: seq<Key>, index: map<Key, uint64>, k: Key, deadline: uint64)
    requires Distinct(t) && Elems(t) == index.Keys && k !in index
    ensures var t' := Except(t, NotDue(index, deadline)) + [k] + Except(t, Due(index, deadline));
            Distinct(t') && Elems(t') == index.Keys + {k}
  {
    var a, b := Except(t, NotDue(index, deadline)), Except(t, Due(index, deadline));
    ExceptElems(t, NotDue(index, deadline));
    ExceptElems(t, Due(index, deadline));
    ExceptDistinct(t, NotDue(index, deadline));
    ExceptDistinct(t, Due(index, deadline));
    assert forall x :: x in t <==> x in index.Keys by { assert forall x :: x in t <==> x in Elems(t); }
    var t' := a + [k] + b;
    forall i, j | 0 <= i < j < |t'| ensures t'[i] != t'[j] {
      if i < |a| { assert t'[i] == a[i] && a[i] in a; }
      if j > |a| { assert t'[j] == b[j - |a| - 1] && b[j - |a| - 1] in b; }
      if i > |a| { assert t'[i] == b[i - |a| - 1]; }
      if j < |a| { assert t'[j] == a[j]; }
    }
    assert forall x :: x in t' <==> x in a || x == k || x in b;
    assert forall x :: x in Elems(t') <==> x in index.Keys + {k};
  }

  lemma {:induction false} InOrderAfterUpsert(s: TtlState, ops: seq<TtlOp>, k: Key, deadline: uint64)
    requires InOrder(s, ops)
    ensures InOrder(ApplyUpsert(s, k, deadline), ops + [Upsert(k, deadline)])
  {
    var op := Upsert(k, deadline);
    var ops' := ops + [op];
    var r := ApplyRemove(s, k);
    InOrderAfterDrop(s, ops, op, {k});
    var late, early := NotDue(r.index, deadline), Due(r.index, deadline);
    ExceptElems(r.timeline, late);
    ExceptElems(r.timeline, early);
    OrderedExcept(r.timeline, r.index, ops', late);
    OrderedExcept(r.timeline, r.index, ops', early);
    InsertElems(r.timeline, r.index, k, deadline);
    assert ops'[..|ops|] == ops;
    forall x | x in Except(r.timeline, late)
      ensures x in r.index && r.index[x] <= deadline && LastUpsert(ops', x) < LastUpsert(ops', k)
    {
      assert x in Elems(r.timeline);
      LastUpsertBound(ops, x);
    }
    forall x | x in Except(r.timeline, early) ensures x in r.index && r.index[x] > deadline {
      assert x in Elems(r.timeline);
    }
    InOrderAfterInsert(Except(r.timeline, late), Except(r.timeline, early), k, r.index, ops', deadline);
  }

  /** The order holds after every history. */
  lemma {:induction false} RunInOrder(ops: seq<TtlOp>)
    ensures InOrder(Run(ops), ops)
  {
    if ops == [] {
      assert Elems<Key>([]) == {};
    } else {
      var before, op := ops[..|ops| - 1], ops[|ops| - 1];
      RunInOrder(before);
      assert ops == before + [op];
      var s := Run(before);
      match op
      case Upsert(k, deadline) => InOrderAfterUpsert(s, before, k, deadline);
      case Remove(k) => InOrderAfterDrop(s, before, op, {k});
      case Collect(now) => InOrderAfterDrop(s, before, op, Due(s.index, now));
    }
  }

  /** After any history a sweep returns exactly the due keys, each once, by ascending deadline
      and within one deadline by latest upsert, and leaves exactly the others. */
  lemma {:induction false} CollectReturnsDueInOrder(ops: seq<TtlOp>, now: uint64)
    ensures var s, c := Run(ops), Collected(Run(ops), now);
            && Distinct(c)
            && Elems(c) == Due(s.index, now)
            && Ordered(c, s.index, ops)
            && Elems(ApplyCollect(s, now).timeline) == NotDue(s.index, now) == ApplyCollect(s, now).index.Keys
            && c + ApplyCollect(s, now).timeline == s.timeline
  {
    var s := Run(ops);
    RunInOrder(ops);
    ExceptElems(s.timeline, NotDue(s.index, now));
    ExceptElems(s.timeline, Due(s.index, now));
    ExceptDistinct(s.timeline, NotDue(s.index, now));
    OrderedExcept(s.timeline, s.index, ops, NotDue(s.index, now));
    SortedSplits(s.timeline, s.index, ops, now);
  }

  lemma {:induction false} SortedSplits(t: seq<Key>, index: map<Key, uint64>, ops: seq<TtlOp>, now: uint64)
    requires Ordered(t, index, ops) && forall k :: k in t ==> k in index
    ensures Except(t, NotDue(index, now)) + Except(t, Due(index, now)) == t
  {
    if t == [] {
    } else {
      assert t[0] in t && forall k :: k in t[1..] ==> k in t;
      forall i, j | 0 <= i < j < |t[1..]| ensures Precedes(index, ops, t[1..][i], t[1..][j]) {
        assert Precedes(index, ops, t[i + 1], t[j + 1]);
      }
      SortedSplits(t[1..], index, ops, now);
      if t[0] in NotDue(index, now) {
        forall k | k in t[1..] ensures k in NotDue(index, now) {
          var j :| 0 <= j < |t[1..]| && t[1..][j] == k;
          assert Precedes(index, ops, t[0], t[j + 1]);
        }
        ExceptAll(t[1..], NotDue(index, now));
      }
    }
  }

  /** The deadline of the last upsert of `k`, unless it was removed or collected since. */
  function LastDeadline(ops: seq<TtlOp>, k: Key): Option<uint64> {
    if ops == [] then None
    else
      var before := LastDeadline(ops[..|ops| - 1], k);
      match ops[|ops| - 1]
      case Upsert(j, deadline) => if j == k then Some(deadline) else before
      case Remove(j) => if j == k then None else before
      case Collect(now) => if before.Some? && before.value <= now then None else before
  }

  /** After any history the index is what these deadlines say. */
  lemma {:induction false} IndexIsLastDeadline(ops: seq<TtlOp>, k: Key)
    ensures k in Run(ops).index <==> LastDeadline(ops, k).Some?
    ensures k in Run(ops).index ==> LastDeadline(ops, k) == Some(Run(ops).index[k])
  {
    if ops == [] {
    } else {
      IndexIsLastDeadline(ops[..|ops| - 1], k);
    }
  }
}
