/** Recency orders as values: keys without repetition, most recently used first. */
module Recency {
  import opened Common
  import opened Sequences

  function MoveToFront(order: seq<Key>, k: Key): seq<Key> {
    [k] + Except(order, {k})
  }

  lemma {:induction false} MoveToFrontFacts(order: seq<Key>, k: Key)
    requires Distinct(order)
    ensures Distinct(MoveToFront(order, k))
    ensures Elems(MoveToFront(order, k)) == Elems(order) + {k}
    ensures |MoveToFront(order, k)| == if k in order then |order| else |order| + 1
  {
    var r := Except(order, {k});
    ExceptElems(order, {k});
    ExceptDistinct(order, {k});
    ExceptOne(order, k);
    var t := [k] + r;
    forall i, j | 0 <= i < j < |t| ensures t[i] != t[j] {
      assert t[j] == r[j - 1] && r[j - 1] in r;
      if i > 0 { assert t[i] == r[i - 1]; }
    }
    assert forall x :: x in t <==> x == k || x in r;
  }

  /** Dropping the last key of a recency order. */
  lemma {:induction false} PopFacts(order: seq<Key>)
    requires Distinct(order) && order != []
    ensures Distinct(order[..|order| - 1])
    ensures Elems(order[..|order| - 1]) == Elems(order) - {order[|order| - 1]}
  {
  }
}
