/** The recency tracker of src/core/lru_cache.h: a doubly linked list of keys together with a
    map from each key to the node that holds it. */
module LruCaches {
  import opened Common
  import opened Sequences
  import opened Recency

  /** A list cell.  The list is closed off by two sentinel cells whose key is never read. */
  class Node {
    const key: Key
    var prev: Node?
    var next: Node?

    constructor (key: Key)
      ensures this.key == key
    {
      this.key := key;
    }
  }

  /** Forward and backward links of consecutive cells agree. */
  ghost predicate Linked(c: seq<Node>)
    reads c
  {
    && Distinct(c)
    && forall i :: 0 <= i < |c| - 1 ==> c[i].next == c[i + 1] && c[i + 1].prev == c[i]
  }

  /** Takes an inner cell out of the list. */
  method Detach(n: Node, ghost c: seq<Node>, ghost i: nat)
    requires Linked(c) && 0 < i < |c| - 1 && c[i] == n
    modifies c
    ensures Linked(c[..i] + c[i + 1..])
  {
    assert c[i - 1].next == n && n.prev == c[i - 1] && n.next == c[i + 1];
    n.prev.next := n.next;
    n.next.prev := n.prev;
  }

  /** Puts a cell that is not in the list right behind cell `p`. */
  method InsertAfter(p: Node, n: Node, ghost c: seq<Node>, ghost i: nat)
    requires Linked(c) && i < |c| - 1 && c[i] == p && n !in c
    modifies c, n
    ensures Linked(c[..i + 1] + [n] + c[i + 1..])
  {
    assert p.next == c[i + 1];
    n.next := p.next;
    n.prev := p;
    p.next.prev := n;
    p.next := n;
  }

  class LRUCache {
    const capacity: nat
    const front: Node
    const back: Node
    var nodes: map<Key, Node>
    ghost var chain: seq<Node>
    ghost var order: seq<Key>
    ghost var Repr: set<object>

    /** The list holds the keys of `order`, and the map leads from each of them to its cell. */
    ghost predicate Tracks()
      reads this, Repr
    {
      && this in Repr && (forall n :: n in chain ==> n in Repr)
      && 1 <= capacity
      && |chain| == |order| + 2 && chain[0] == front && chain[|order| + 1] == back
      && Linked(chain)
      && Distinct(order)
      && (forall i :: 0 <= i < |order| ==>
            order[i] in nodes && chain[i + 1].key == order[i] && nodes[order[i]] == chain[i + 1])
    }

    ghost predicate Valid()
      reads this, Repr
      ensures Valid() ==> this in Repr
    {
      Tracks() && nodes.Keys == Elems(order)
    }

    /** The source rejects a capacity of 0. */
    constructor (capacity: nat)
      requires 1 <= capacity
      ensures Valid() && fresh(Repr) && order == [] && this.capacity == capacity
    {
      var f := new Node("");
      var b := new Node("");
      this.capacity, front, back := capacity, f, b;
      nodes, order := map[], [];
      new;
      f.next, b.prev := b, f;
      chain := [f, b];
      Repr := {this, f, b};
    }

    /** Takes the cell of a tracked key out of the list. */
    method Unlink(n: Node, ghost i: nat)
      requires Tracks() && i < |order| && chain[i + 1] == n
      modifies Repr
      ensures Tracks() && Repr == old(Repr) && nodes == old(nodes)
      ensures order == Except(old(order), {n.key}) && n !in chain && n in Repr
    {
      SplitAround(order, i);
      ExceptDistinct(order, {n.key});
      Detach(n, chain, i + 1);
      chain := chain[..i + 1] + chain[i + 2..];
      order := order[..i] + order[i + 1..];
    }

    /** Puts a cell at the front of the list. */
    method LinkFront(n: Node)
      requires Tracks() && n !in chain && n in Repr
      requires n.key !in order && n.key in nodes && nodes[n.key] == n
      modifies Repr
      ensures Tracks() && Repr == old(Repr) && nodes == old(nodes)
      ensures order == [n.key] + old(order)
    {
      InsertAfter(front, n, chain, 0);
      chain := chain[..1] + [n] + chain[1..];
      order := [n.key] + order;
    }

    /** Moves the cell of a tracked key to the front. */
    method Splice(key: Key)
      requires Valid() && key in nodes
      modifies Repr
      ensures Valid() && Repr == old(Repr)
      ensures order == MoveToFront(old(order), key)
    {
      MoveToFrontFacts(order, key);
      ExceptElems(order, {key});
      var n := nodes[key];
      ghost var i :| 0 <= i < |order| && order[i] == key;
      Unlink(n, i);
      LinkFront(n);
    }

    /** Adds a cell for a new key at the front. */
    method PushFront(key: Key)
      requires Valid() && key !in nodes
      modifies Repr
      ensures Valid() && fresh(Repr - old(Repr))
      ensures order == [key] + old(order)
    {
      var n := new Node(key);
      Repr := Repr + {n};
      nodes := nodes[key := n];
      LinkFront(n);
      assert Elems(order) == Elems(old(order)) + {key};
    }

    /** Moves `key` to the front, inserting it if needed; true when that outgrew the capacity. */
    method Touch(key: Key) returns (overflow: bool)
      requires Valid()
      modifies Repr
      ensures Valid() && fresh(Repr - old(Repr))
      ensures order == MoveToFront(old(order), key)
      ensures overflow <==> key !in old(order) && |old(order)| + 1 > capacity
    {
      if key in nodes {
        Splice(key);
        return false;
      }
      ExceptDisjoint(order, {key});
      PushFront(key);
      DistinctCardinality(order);
      assert |nodes| == |nodes.Keys|;
      overflow := |nodes| > capacity;
    }

    method Remove(key: Key)
      requires Valid()
      modifies Repr
      ensures Valid() && fresh(Repr - old(Repr))
      ensures order == Except(old(order), {key})
    {
      ExceptElems(order, {key});
      if key !in nodes {
        ExceptDisjoint(order, {key});
        return;
      }
      ghost var i :| 0 <= i < |order| && order[i] == key;
      Unlink(nodes[key], i);
      nodes := nodes - {key};
    }

    /** Drops and returns the least recently used key; throws when there is none. */
    method PopEvictionCandidate() returns (r: Outcome<Key>)
      requires Valid()
      modifies Repr
      ensures Valid() && fresh(Repr - old(Repr))
      ensures old(order) == [] ==> r.Thrown? && order == []
      ensures old(order) != [] ==>
                r == Returned(old(order)[|old(order)| - 1]) && order == old(order)[..|old(order)| - 1]
    {
      if back.prev == front {
        assert |order| == 0 by { assert chain[|order|].next == back && back.prev == chain[|order|]; }
        return Thrown("LRUCache is empty");
      }
      ghost var n := |order|;
      assert back.prev == chain[n];
      var last: Node := back.prev;
      var lruKey := last.key;
      PopFacts(order);
      SplitAround(order, n - 1);
      Unlink(last, n - 1);
      nodes := nodes - {lruKey};
      return Returned(lruKey);
    }
  }
}
