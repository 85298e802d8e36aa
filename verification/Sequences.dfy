/** Recency orders and timelines are duplicate-free sequences; this module holds what is
    needed about deleting elements from them. */
module Sequences {

  ghost predicate Distinct<T>(s: seq<T>) {
    forall i, j :: 0 <= i < j < |s| ==> s[i] != s[j]
  }

  function Elems<T>(s: seq<T>): set<T> {
    set x | x in s
  }

  /** The sequence left after deleting every element of `gone`. */
  function Except<T(==)>(s: seq<T>, gone: set<T>): seq<T> {
    if s == [] then []
    else if s[0] in gone then Except(s[1..], gone)
    else [s[0]] + Except(s[1..], gone)
  }

  /** `a` is what is left of `b` after deleting some elements. */
  ghost predicate Subsequence<T(!new)>(a: seq<T>, b: seq<T>) {
    exists gone: set<T> :: a == Except(b, gone)
  }

  lemma {:induction false} ExceptMembers<T>(s: seq<T>, gone: set<T>)
    ensures forall x :: x in Except(s, gone) <==> x in s && x !in gone
  {
    if s == [] {
    } else {
      ExceptMembers(s[1..], gone);
      assert s == [s[0]] + s[1..];
      assert forall x :: x in s <==> x == s[0] || x in s[1..];
    }
  }

  lemma {:induction false} ExceptElems<T>(s: seq<T>, gone: set<T>)
    ensures Elems(Except(s, gone)) == Elems(s) - gone
    ensures forall x :: x in Except(s, gone) <==> x in s && x !in gone
  {
    ExceptMembers(s, gone);
    ElemsDifference(s, Except(s, gone), gone);
  }

  lemma {:induction false} ElemsDifference<T>(s: seq<T>, r: seq<T>, gone: set<T>)
    requires forall x :: x in r <==> x in s && x !in gone
    ensures Elems(r) == Elems(s) - gone
  {
  }

  lemma {:induction false} ExceptDistinct<T>(s: seq<T>, gone: set<T>)
    requires Distinct(s)
    ensures Distinct(Except(s, gone))
  {
    if s == [] {
    } else {
      assert forall i, j :: 0 <= i < j < |s[1..]| ==> s[1..][i] == s[i + 1] != s[j + 1] == s[1..][j];
      ExceptDistinct(s[1..], gone);
      ExceptElems(s[1..], gone);
      assert forall x :: x in s[1..] ==> x != s[0];
      var r := Except(s[1..], gone);
      if s[0] !in gone {
        var t := [s[0]] + r;
        forall i, j | 0 <= i < j < |t| ensures t[i] != t[j] {
          assert t[j] == r[j - 1] && r[j - 1] in r;
          if i > 0 { assert t[i] == r[i - 1]; }
        }
      }
    }
  }

  lemma {:induction false} ExceptConcat<T>(a: seq<T>, b: seq<T>, gone: set<T>)
    ensures Except(a + b, gone) == Except(a, gone) + Except(b, gone)
  {
    if a == [] {
      assert a + b == b;
    } else {
      assert (a + b)[1..] == a[1..] + b && (a + b)[0] == a[0];
      ExceptConcat(a[1..], b, gone);
    }
  }

  lemma {:induction false} ExceptDisjoint<T>(s: seq<T>, gone: set<T>)
    requires forall x :: x in gone ==> x !in s
    ensures Except(s, gone) == s
  {
    if s == [] {
    } else {
      assert s[0] in s && forall x :: x in s[1..] ==> x in s;
      ExceptDisjoint(s[1..], gone);
    }
  }

  lemma {:induction false} ExceptAll<T>(s: seq<T>, gone: set<T>)
    requires forall x :: x in s ==> x in gone
    ensures Except(s, gone) == []
  {
    if s == [] {
    } else {
      assert s[0] in s && forall x :: x in s[1..] ==> x in s;
      ExceptAll(s[1..], gone);
    }
  }

  lemma {:induction false} ExceptExcept<T>(s: seq<T>, a: set<T>, b: set<T>)
    ensures Except(Except(s, a), b) == Except(s, a + b)
  {
    if s == [] {
    } else {
      ExceptExcept(s[1..], a, b);
      if s[0] !in a {
        assert ([s[0]] + Except(s[1..], a))[1..] == Except(s[1..], a);
      }
    }
  }

  lemma {:induction false} ExceptLength<T>(s: seq<T>, gone: set<T>)
    ensures |Except(s, gone)| <= |s|
  {
    if s == [] {
    } else {
      ExceptLength(s[1..], gone);
    }
  }

  lemma {:induction false} SplitAround<T>(s: seq<T>, i: nat)
    requires Distinct(s) && i < |s|
    ensures Except(s, {s[i]}) == s[..i] + s[i + 1..]
  {
    var x, t := s[i], s[1..];
    assert forall j :: 0 <= j < |t| ==> t[j] == s[j + 1];
    if i == 0 {
      ExceptDisjoint(t, {x});
    } else {
      assert Distinct(t);
      SplitAround(t, i - 1);
      assert s[..i] == [s[0]] + t[..i - 1];
      assert s[i + 1..] == t[i..];
    }
  }

  /** Deleting one element that occurs shortens a duplicate-free sequence by one. */
  lemma {:induction false} ExceptOne<T>(s: seq<T>, x: T)
    requires Distinct(s)
    ensures x !in s ==> Except(s, {x}) == s
    ensures x in s ==> |Except(s, {x})| == |s| - 1
  {
    if x in s {
      var i :| 0 <= i < |s| && s[i] == x;
      SplitAround(s, i);
    } else {
      ExceptDisjoint(s, {x});
    }
  }

  lemma {:induction false} DistinctCardinality<T>(s: seq<T>)
    requires Distinct(s)
    ensures |Elems(s)| == |s|
  {
    if s == [] {
      assert Elems(s) == {};
    } else {
      var n := |s| - 1;
      var t := s[..n];
      DistinctCardinality(t);
      assert Elems(s) == {s[n]} + Elems(t) by { assert s == t + [s[n]]; }
      assert s[n] !in t;
    }
  }

  lemma {:induction false} DistinctSlice<T>(s: seq<T>, i: nat, j: nat)
    requires Distinct(s) && i <= j <= |s|
    ensures Distinct(s[i..j])
  {
  }

  lemma {:induction false} DistinctConcat<T>(a: seq<T>, b: seq<T>)
    requires Distinct(a) && Distinct(b)
    requires forall x :: x in a ==> x !in b
    ensures Distinct(a + b)
  {
    forall i, j | 0 <= i < j < |a + b| ensures (a + b)[i] != (a + b)[j] {
      if i < |a| {
        assert (a + b)[i] in a;
        assert j >= |a| ==> (a + b)[j] in b;
      }
    }
  }

  lemma {:induction false} CardinalitySubset<T>(a: set<T>, b: set<T>)
    requires a <= b
    ensures |a| <= |b|
    ensures |b - a| == |b| - |a|
  {
  }

  // ----- Subsequences -----

  lemma {:induction false} SubsequenceElems<T(!new)>(a: seq<T>, b: seq<T>)
    requires Subsequence(a, b)
    ensures Elems(a) <= Elems(b)
    ensures forall x :: x in a ==> x in b
    ensures |a| <= |b|
    ensures Distinct(b) ==> Distinct(a)
  {
    var gone: set<T> :| a == Except(b, gone);
    ExceptElems(b, gone);
    ExceptLength(b, gone);
    if Distinct(b) { ExceptDistinct(b, gone); }
  }

  /** Deleting the same elements from both sides. */
  lemma {:induction false} SubsequenceExcept<T(!new)>(a: seq<T>, b: seq<T>, x: set<T>)
    requires Subsequence(a, b)
    ensures Subsequence(Except(a, x), Except(b, x))
  {
    var gone: set<T> :| a == Except(b, gone);
    ExceptExcept(b, gone, x);
    ExceptExcept(b, x, gone);
    assert gone + x == x + gone;
    assert Except(a, x) == Except(Except(b, x), gone);
  }

  /** Deleting from the small side only. */
  lemma {:induction false} SubsequenceShrink<T(!new)>(a: seq<T>, b: seq<T>, x: set<T>)
    requires Subsequence(a, b)
    ensures Subsequence(Except(a, x), b)
  {
    var gone: set<T> :| a == Except(b, gone);
    ExceptExcept(b, gone, x);
  }

  /** Moving one element to the front of both sides. */
  lemma {:induction false} SubsequenceTouch<T(!new)>(a: seq<T>, b: seq<T>, k: T)
    requires Subsequence(a, b)
    ensures Subsequence([k] + Except(a, {k}), [k] + Except(b, {k}))
  {
    SubsequenceExcept(a, b, {k});
    var a', b' := Except(a, {k}), Except(b, {k});
    var gone: set<T> :| a' == Except(b', gone);
    ExceptElems(b, {k});
    ExceptDisjoint(b', {k});
    ExceptExcept(b', {k}, gone - {k});
    ExceptExcept(b', {k}, gone);
    assert {k} + (gone - {k}) == {k} + gone;
    assert ([k] + b')[1..] == b';
    assert Except([k] + b', gone - {k}) == [k] + Except(b', gone - {k});
  }

  /** Moving to the front of the large side an element the small side does not have. */
  lemma {:induction false} SubsequenceTouchLarge<T(!new)>(a: seq<T>, b: seq<T>, k: T)
    requires Subsequence(a, b)
    requires k !in a
    ensures Subsequence(a, [k] + Except(b, {k}))
  {
    SubsequenceTouch(a, b, k);
    ExceptDisjoint(a, {k});
    SubsequenceShrink([k] + a, [k] + Except(b, {k}), {k});
    assert ([k] + a)[1..] == a;
  }

  lemma {:induction false} ExceptSuffix<T>(s: seq<T>, m: nat)
    requires Distinct(s) && m <= |s|
    ensures Except(s, Elems(s[m..])) == s[..m]
  {
    var a, b := s[..m], s[m..];
    assert s == a + b;
    ExceptConcat(a, b, Elems(b));
    ExceptDisjoint(a, Elems(b));
    ExceptAll(b, Elems(b));
  }

  lemma {:induction false} SubsequencePrefix<T(!new)>(a: seq<T>, b: seq<T>, i: nat)
    requires Subsequence(a, b) && Distinct(a) && i <= |a|
    ensures Subsequence(a[..i], b)
  {
    ExceptSuffix(a, i);
    SubsequenceShrink(a, b, Elems(a[i..]));
  }

  /** Dropping the last element of both sides. */
  lemma {:induction false} SubsequencePop<T(!new)>(a: seq<T>, b: seq<T>)
    requires Subsequence(a, b) && Distinct(b) && a != []
    ensures b != [] && Subsequence(a[..|a| - 1], b[..|b| - 1])
  {
    SubsequenceElems(a, b);
    var gone: set<T> :| a == Except(b, gone);
    var n := |b| - 1;
    assert b == b[..n] + [b[n]];
    ExceptConcat(b[..n], [b[n]], gone);
    if b[n] in gone {
      assert Except([b[n]], gone) == [];
      SubsequencePrefix(a, b[..n], |a| - 1);
    } else {
      assert Except([b[n]], gone) == [b[n]];
      assert a[..|a| - 1] == Except(b[..n], gone);
    }
  }

  /** A subsequence of a duplicate-free sequence keeps its order. */
  lemma {:induction false} SubsequenceKeepsOrder<T(!new)>(a: seq<T>, b: seq<T>, i: nat, j: nat) returns (p: nat, q: nat)
    requires Subsequence(a, b) && i < j < |a|
    ensures p < q < |b| && b[p] == a[i] && b[q] == a[j]
  {
    var gone: set<T> :| a == Except(b, gone);
    p, q := ExceptKeepsOrder(b, gone, i, j);
  }

  lemma {:induction false} ExceptKeepsOrder<T(!new)>(b: seq<T>, gone: set<T>, i: nat, j: nat) returns (p: nat, q: nat)
    requires i < j < |Except(b, gone)|
    ensures p < q < |b| && b[p] == Except(b, gone)[i] && b[q] == Except(b, gone)[j]
  {
    var t := Except(b[1..], gone);
    if b[0] in gone {
      p, q := ExceptKeepsOrder(b[1..], gone, i, j);
      p, q := p + 1, q + 1;
    } else if i > 0 {
      p, q := ExceptKeepsOrder(b[1..], gone, i - 1, j - 1);
      p, q := p + 1, q + 1;
    } else {
      p := 0;
      ExceptElems(b[1..], gone);
      assert Except(b, gone)[j] == t[j - 1] && t[j - 1] in b[1..];
      q :| 0 <= q < |b[1..]| && b[1..][q] == t[j - 1];
      q := q + 1;
    }
  }

  /** When the large side is cut into a head and a tail, the elements of the small side that
      lie in the tail are exactly a suffix of the small side. */
  lemma {:induction false} SubsequenceCut<T(!new)>(a: seq<T>, b: seq<T>, n: nat) returns (i: nat)
    requires Subsequence(a, b) && Distinct(b) && n <= |b|
    ensures i <= |a|
    ensures Elems(a[i..]) == Elems(a) * Elems(b[n..])
    ensures Except(a, Elems(b[n..])) == a[..i]
  {
    var gone: set<T> :| a == Except(b, gone);
    assert b == b[..n] + b[n..];
    ExceptConcat(b[..n], b[n..], gone);
    var h, t := Except(b[..n], gone), Except(b[n..], gone);
    i := |h|;
    assert a[..i] == h && a[i..] == t;
    ExceptElems(b[..n], gone);
    ExceptElems(b[n..], gone);
    assert forall x :: x in a <==> x in h || x in t;
    ExceptConcat(h, t, Elems(b[n..]));
    ExceptDisjoint(h, Elems(b[n..]));
    ExceptAll(t, Elems(b[n..]));
  }
}
