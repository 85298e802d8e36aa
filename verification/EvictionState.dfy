/** What the eviction manager holds, as a value, and the arithmetic of its eviction loop
    (src/eviction/eviction_manager.h, src/eviction/memory_tracker.h). */
module EvictionStates {
  import opened Common
  import opened Sequences
  import opened Recency

  /** Bytes charged for every write and returned for every delete or victim. */
  const CHARGE: int := 100

  datatype EvictionState = EvictionState(max: uint64, usage: uint64, order: seq<Key>)

  /** The outcome of the eviction loop: when it does not complete, the policy threw because it
      had run out of keys, and the victims are lost to the caller. */
  datatype Collection = Collection(victims: seq<Key>, after: EvictionState, completed: bool)

  /** The counter is a 64-bit word and wraps both ways. */
  function Moved(usage: uint64, delta: int): uint64 {
    (usage + delta) % WORD
  }

  function OnRead(s: EvictionState, k: Key): EvictionState {
    s.(order := MoveToFront(s.order, k))
  }

  function OnWrite(s: EvictionState, k: Key): EvictionState {
    s.(usage := Moved(s.usage, CHARGE), order := MoveToFront(s.order, k))
  }

  /** One OnDelete call for each of `gone`. */
  function OnDeleteAll(s: EvictionState, gone: set<Key>): EvictionState {
    s.(usage := Moved(s.usage, -CHARGE * |gone|), order := Except(s.order, gone))
  }

  function Collect(s: EvictionState): Collection
    decreases |s.order|
  {
    if s.usage <= s.max then Collection([], s, true)
    else if s.order == [] then Collection([], s, false)
    else
      var last := |s.order| - 1;
      var rest := Collect(s.(usage := Moved(s.usage, -CHARGE), order := s.order[..last]));
      rest.(victims := [s.order[last]] + rest.victims)
  }

  lemma {:induction false} MovedTwice(usage: uint64, a: int, b: int)
    ensures Moved(Moved(usage, a), b) == Moved(usage, a + b)
  {
  }

  /** The victims are the tail of the recency order, oldest first. */
  lemma {:induction false} CollectTakesTail(s: EvictionState)
    ensures var c := Collect(s);
            && |c.victims| <= |s.order|
            && c.after.order == s.order[..|s.order| - |c.victims|]
            && (forall i :: 0 <= i < |c.victims| ==> c.victims[i] == s.order[|s.order| - 1 - i])
    decreases |s.order|
  {
    if s.usage <= s.max || s.order == [] {
    } else {
      var last := |s.order| - 1;
      var t := s.(usage := Moved(s.usage, -CHARGE), order := s.order[..last]);
      CollectTakesTail(t);
      var v, v' := Collect(t).victims, Collect(s).victims;
      assert forall i :: 0 < i < |v'| ==> v'[i] == v[i - 1];
    }
  }

  /** Every victim returns its charge, and the loop ends below the limit or with nothing left. */
  lemma {:induction false} CollectReturnsCharges(s: EvictionState)
    ensures var c := Collect(s);
            && c.after.max == s.max
            && c.after.usage == Moved(s.usage, -CHARGE * |c.victims|)
            && (c.completed <==> c.after.usage <= s.max)
            && (!c.completed ==> c.after.order == [])
    decreases |s.order|
  {
    if s.usage <= s.max || s.order == [] {
    } else {
      var t := s.(usage := Moved(s.usage, -CHARGE), order := s.order[..|s.order| - 1]);
      CollectReturnsCharges(t);
      MovedTwice(s.usage, -CHARGE, -CHARGE * |Collect(t).victims|);
    }
  }

  lemma {:induction false} ReverseElems(v: seq<Key>, t: seq<Key>)
    requires |v| == |t| && forall i :: 0 <= i < |v| ==> v[i] == t[|t| - 1 - i]
    ensures Elems(v) == Elems(t)
    ensures Distinct(t) ==> Distinct(v)
  {
    forall k | k in t ensures k in v {
      var j :| 0 <= j < |t| && t[j] == k;
      assert v[|t| - 1 - j] == k;
    }
  }

  /** The same in terms of sets: the victims are what the order loses. */
  lemma {:induction false} CollectVictims(s: EvictionState) returns (m: nat)
    requires Distinct(s.order)
    ensures m == |s.order| - |Collect(s).victims|
    ensures Collect(s).after.order == s.order[..m] == Except(s.order, Elems(s.order[m..]))
    ensures Elems(Collect(s).victims) == Elems(s.order[m..])
    ensures Distinct(Collect(s).victims)
  {
    CollectTakesTail(s);
    m := |s.order| - |Collect(s).victims|;
    DistinctSlice(s.order, m, |s.order|);
    assert s.order[m..] == s.order[m..|s.order|];
    ReverseElems(Collect(s).victims, s.order[m..]);
    ExceptSuffix(s.order, m);
  }

  // ----- How many keys are evicted -----

  /** The number of charges by which the usage exceeds the limit, rounded up. */
  function Needed(s: EvictionState): nat {
    if s.usage <= s.max then 0 else (s.usage - s.max + CHARGE - 1) / CHARGE
  }

  /** As long as the counter does not wrap, the loop completes if and only if the policy holds
      enough keys; then it evicts exactly the needed number and stops right below the limit. */
  lemma {:induction false} CollectWithoutWrap(s: EvictionState)
    requires CHARGE * Needed(s) <= s.usage
    ensures Collect(s).completed <==> Needed(s) <= |s.order|
    ensures Collect(s).completed ==>
              && |Collect(s).victims| == Needed(s)
              && Collect(s).after.usage == s.usage - CHARGE * Needed(s)
              && (s.usage > s.max ==> s.max - CHARGE < Collect(s).after.usage <= s.max)
    decreases |s.order|
  {
    if s.usage <= s.max || s.order == [] {
    } else {
      var t := s.(usage := Moved(s.usage, -CHARGE), order := s.order[..|s.order| - 1]);
      assert t.usage == s.usage - CHARGE;
      assert Needed(t) == Needed(s) - 1;
      CollectWithoutWrap(t);
    }
  }

  lemma {:induction false} LimitOfOneChargeNeverWraps(s: EvictionState)
    requires s.max >= CHARGE
    ensures CHARGE * Needed(s) <= s.usage
  {
  }

  /** Far above the limit the loop uses up the policy's keys and throws. */
  lemma {:induction false} CollectDrains(s: EvictionState)
    requires s.max + CHARGE * |s.order| < s.usage
    ensures !Collect(s).completed && Collect(s).after.order == []
    decreases |s.order|
  {
    if s.order == [] {
    } else {
      CollectDrains(s.(usage := Moved(s.usage, -CHARGE), order := s.order[..|s.order| - 1]));
    }
  }

  /** When the last release takes the counter below zero it wraps to a huge value. */
  lemma {:induction false} CollectWithWrap(s: EvictionState)
    requires CHARGE * Needed(s) > s.usage > s.max
    requires s.max + CHARGE * |s.order| < WORD
    ensures !Collect(s).completed && Collect(s).after.order == []
    decreases |s.order|
  {
    if s.order == [] {
    } else {
      var t := s.(usage := Moved(s.usage, -CHARGE), order := s.order[..|s.order| - 1]);
      if s.usage >= CHARGE {
        assert t.usage == s.usage - CHARGE > t.max;
        assert Needed(t) == Needed(s) - 1;
        CollectWithWrap(t);
      } else {
        assert t.usage == WORD + s.usage - CHARGE;
        CollectDrains(t);
      }
    }
  }

  /** After `m` releases the counter is within the limit. */
  predicate WithinAfter(s: EvictionState, m: nat) {
    Moved(s.usage, -CHARGE * m) <= s.max
  }

  /** Eviction is not needed, or enough keys are tracked and the counter does not pass zero. */
  predicate Enough(s: EvictionState) {
    CHARGE * Needed(s) <= s.usage && Needed(s) <= |s.order|
  }

  /** The counter passes zero and comes down from 2^64 to the limit again; no machine tracks that
      many keys. */
  ghost predicate ComesAround(s: EvictionState) {
    exists m: nat :: m <= |s.order| && CHARGE * m > s.usage && WithinAfter(s, m)
  }

  /** The guard of eviction, in terms of usage, limit and number of keys. */
  ghost predicate Collectable(s: EvictionState) {
    Enough(s) || ComesAround(s)
  }

  lemma {:induction false} WithinAfterOne(s: EvictionState, t: EvictionState, m: nat)
    requires t.max == s.max && t.usage == Moved(s.usage, -CHARGE)
    ensures WithinAfter(t, m) <==> WithinAfter(s, m + 1)
  {
    MovedTwice(s.usage, -CHARGE, -CHARGE * m);
  }

  lemma {:induction false} CompletesIffWithin(s: EvictionState)
    ensures Collect(s).completed <==> exists m: nat :: m <= |s.order| && WithinAfter(s, m)
    decreases |s.order|
  {
    if s.usage <= s.max {
      assert WithinAfter(s, 0);
    } else if s.order == [] {
      assert !WithinAfter(s, 0);
    } else {
      hide WithinAfter;
      var t := s.(usage := Moved(s.usage, -CHARGE), order := s.order[..|s.order| - 1]);
      CompletesIffWithin(t);
      if m: nat :| m <= |t.order| && WithinAfter(t, m) {
        WithinAfterOne(s, t, m);
      }
      if m: nat :| m <= |s.order| && WithinAfter(s, m) {
        NotYetWithin(s);
        WithinAfterOne(s, t, m - 1);
      }
    }
  }

  lemma {:induction false} NotYetWithin(s: EvictionState)
    requires s.usage > s.max
    ensures !WithinAfter(s, 0)
  {
  }

  /** As long as the counter does not pass zero, the needed number is the least that suffices. */
  lemma {:induction false} WithinAfterNeeded(s: EvictionState, m: nat)
    requires CHARGE * m <= s.usage
    ensures WithinAfter(s, m) <==> Needed(s) <= m
  {
    assert Moved(s.usage, -CHARGE * m) == s.usage - CHARGE * m;
  }

  /** For every usage, limit and order: exactly when eviction returns normally. */
  lemma {:induction false} CompletesIff(s: EvictionState)
    ensures Collect(s).completed <==> Collectable(s)
  {
    CompletesIffWithin(s);
    if Enough(s) { WithinAfterNeeded(s, Needed(s)); }
    if m: nat :| m <= |s.order| && WithinAfter(s, m) {
      if CHARGE * m <= s.usage { WithinAfterNeeded(s, m); }
    }
  }

  /** With a limit of at least one charge, or fewer keys than fit the machine word, enough keys is
      the whole condition. */
  lemma {:induction false} CollectableIffEnough(s: EvictionState)
    requires s.max >= CHARGE || s.max + CHARGE * |s.order| < WORD
    ensures Collectable(s) <==> Enough(s)
  {
    if m: nat :| m <= |s.order| && CHARGE * m > s.usage && WithinAfter(s, m) {
      if s.max >= CHARGE {
        LimitOfOneChargeNeverWraps(s);
        assert CHARGE * Needed(s) < CHARGE * m;
      }
    }
  }
}
