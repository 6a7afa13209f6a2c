/**
 * Colourings as both algorithms return them: an ordered list of colour
 * classes, each a list of vertex indices.
 */
module Colouring {

  /** The vertices 0 .. n-1 in order. */
  function Range(n: nat): (r: seq<nat>)
    ensures |r| == n && forall i | 0 <= i < n :: r[i] == i
  {
    seq(n, i requires 0 <= i < n => i as nat)
  }

  lemma RangeCount(n: nat, v: nat)
    ensures multiset(Range(n))[v] == if v < n then 1 else 0
  {
    if n > 0 {
      assert Range(n) == Range(n - 1) + [n - 1];
      RangeCount(n - 1, v);
    }
  }

  /** The classes written one after another. */
  function Flatten(r: seq<seq<nat>>): seq<nat> {
    if r == [] then [] else Flatten(r[..|r| - 1]) + r[|r| - 1]
  }

  /** Appending a class appends its vertices. */
  lemma FlattenSnoc(r: seq<seq<nat>>, S: seq<nat>)
    ensures Flatten(r + [S]) == Flatten(r) + S
  {
    assert (r + [S])[..|r|] == r;
  }

  /** Appending a class adds its vertices to the count of every vertex. */
  lemma FlattenSnocCount(r: seq<seq<nat>>, S: seq<nat>, v: nat)
    ensures multiset(Flatten(r + [S]))[v] == multiset(Flatten(r))[v] + multiset(S)[v]
  {
    FlattenSnoc(r, S);
  }

  /**
   * Every class is non-empty and, taken together, the classes hold every
   * vertex 0 .. n-1 exactly once and nothing else.
   */
  ghost predicate IsColourPartition(r: seq<seq<nat>>, n: nat) {
    (forall c | 0 <= c < |r| :: |r[c]| > 0) &&
    multiset(Flatten(r)) == multiset(Range(n))
  }

  lemma {:induction false} FlattenHoldsClasses(r: seq<seq<nat>>, c: nat)
    requires c < |r|
    ensures multiset(r[c]) <= multiset(Flatten(r))
  {
    var last := |r| - 1;
    if c < last {
      FlattenHoldsClasses(r[..last], c);
    }
  }

  lemma {:induction false} FlattenHoldsTwoClasses(r: seq<seq<nat>>, c1: nat, c2: nat)
    requires c1 < c2 < |r|
    ensures multiset(r[c1]) + multiset(r[c2]) <= multiset(Flatten(r))
  {
    var last := |r| - 1;
    if c2 < last {
      FlattenHoldsTwoClasses(r[..last], c1, c2);
    } else {
      FlattenHoldsClasses(r[..last], c1);
    }
  }

  lemma {:induction false} FlattenMembers(r: seq<seq<nat>>, v: nat)
    requires v in Flatten(r)
    ensures exists c :: 0 <= c < |r| && v in r[c]
  {
    var last := |r| - 1;
    if v !in r[last] {
      FlattenMembers(r[..last], v);
    }
  }

  lemma {:induction false} FlattenLength(r: seq<seq<nat>>)
    requires forall c | 0 <= c < |r| :: |r[c]| > 0
    ensures |Flatten(r)| >= |r|
    ensures (forall c | 0 <= c < |r| :: |r[c]| == 1) ==> |Flatten(r)| == |r|
  {
    if r != [] {
      FlattenLength(r[..|r| - 1]);
    }
  }

  /** In a partition no vertex lies in two classes, nor twice in one. */
  lemma PartitionDisjoint(r: seq<seq<nat>>, n: nat)
    requires IsColourPartition(r, n)
    ensures forall c, p, q | 0 <= c < |r| && 0 <= p < q < |r[c]| :: r[c][p] != r[c][q]
    ensures forall c1, c2, v | 0 <= c1 < c2 < |r| :: !(v in r[c1] && v in r[c2])
  {
    forall c, p, q | 0 <= c < |r| && 0 <= p < q < |r[c]|
      ensures r[c][p] != r[c][q]
    {
      if r[c][p] == r[c][q] {
        var v := r[c][p];
        assert r[c] == r[c][..p] + [v] + r[c][p + 1..q] + [v] + r[c][q + 1..];
        assert multiset(r[c])[v] >= 2;
        FlattenHoldsClasses(r, c);
        RangeCount(n, v);
        assert false;
      }
    }
    forall c1, c2, v | 0 <= c1 < c2 < |r|
      ensures !(v in r[c1] && v in r[c2])
    {
      if v in r[c1] && v in r[c2] {
        FlattenHoldsTwoClasses(r, c1, c2);
        RangeCount(n, v);
        assert false;
      }
    }
  }

  ghost predicate InSomeClass(r: seq<seq<nat>>, v: nat) {
    exists c :: 0 <= c < |r| && v in r[c]
  }

  /** In a partition every vertex lies in some class, and only vertices do. */
  lemma PartitionCovers(r: seq<seq<nat>>, n: nat)
    requires IsColourPartition(r, n)
    ensures forall v | 0 <= v < n :: InSomeClass(r, v)
    ensures forall c, p | 0 <= c < |r| && 0 <= p < |r[c]| :: r[c][p] < n
  {
    forall v | 0 <= v < n
      ensures InSomeClass(r, v)
    {
      RangeCount(n, v);
      assert v in multiset(Flatten(r));
      FlattenMembers(r, v);
    }
    forall c, p | 0 <= c < |r| && 0 <= p < |r[c]|
      ensures r[c][p] < n
    {
      FlattenHoldsClasses(r, c);
      assert r[c][p] in multiset(r[c]);
      RangeCount(n, r[c][p]);
    }
  }

  /** A partition of n >= 1 vertices into non-empty classes uses between 1 and n classes. */
  lemma ColourCountBounds(r: seq<seq<nat>>, n: nat)
    requires IsColourPartition(r, n) && n > 0
    ensures 1 <= |r| <= n
  {
    FlattenLength(r);
    assert |Flatten(r)| == |multiset(Flatten(r))| == |multiset(Range(n))| == n;
  }
}
