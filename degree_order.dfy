/**
 * sort_vertices_descending_by_degrees: the hand-written insertion procedure
 * that orders the vertices by non-increasing degree for Largest First.
 */
module DegreeOrder {
  import opened AdjacencyMatrix
  import opened Colouring

  /** The degree of every vertex, indexed by vertex. */
  function Degrees(m: Matrix): (d: seq<int>)
    ensures |d| == |m| && forall v | 0 <= v < |m| :: d[v] == VertexDegree(m, v)
  {
    seq(|m|, v requires 0 <= v < |m| => VertexDegree(m, v))
  }

  ghost predicate VerticesOf(deg: seq<int>, s: seq<nat>) {
    forall t | 0 <= t < |s| :: s[t] < |deg|
  }

  /** Where vertex x goes: before the first j of s with deg(x) >= deg(j), or at the end. */
  function InsertionPoint(deg: seq<int>, s: seq<nat>, x: nat): (p: nat)
    requires x < |deg| && VerticesOf(deg, s)
    ensures p <= |s|
    ensures forall t | 0 <= t < p :: deg[x] < deg[s[t]]
    ensures p < |s| ==> deg[s[p]] <= deg[x]
  {
    if s == [] then 0
    else if deg[x] >= deg[s[0]] then 0
    else 1 + InsertionPoint(deg, s[1..], x)
  }

  function InsertByDegree(deg: seq<int>, s: seq<nat>, x: nat): seq<nat>
    requires x < |deg| && VerticesOf(deg, s)
  {
    var p := InsertionPoint(deg, s, x);
    s[..p] + [x] + s[p..]
  }

  /** The order after vertex 0 is seeded and vertices 1 .. k-1 are inserted in turn. */
  function Order(deg: seq<int>, k: nat): (r: seq<nat>)
    requires 1 <= k <= |deg|
    ensures VerticesOf(deg, r)
  {
    if k == 1 then [0] else InsertByDegree(deg, Order(deg, k - 1), k - 1)
  }

  /**
   * Strictly before in the output: larger degree, or the same degree and a
   * larger index.
   */
  predicate RanksBefore(deg: seq<int>, a: nat, b: nat)
    requires a < |deg| && b < |deg|
  {
    deg[a] > deg[b] || (deg[a] == deg[b] && a > b)
  }

  ghost predicate Ranked(deg: seq<int>, s: seq<nat>)
    requires VerticesOf(deg, s)
  {
    forall a, b | 0 <= a < b < |s| :: RanksBefore(deg, s[a], s[b])
  }

  lemma InsertAddsOne(deg: seq<int>, s: seq<nat>, x: nat)
    requires x < |deg| && VerticesOf(deg, s)
    ensures multiset(InsertByDegree(deg, s, x)) == multiset(s) + multiset{x}
  {
    var p := InsertionPoint(deg, s, x);
    assert s == s[..p] + s[p..];
  }

  /** The order holds each of 0 .. k-1 exactly once, and nothing else. */
  lemma {:induction false} OrderCount(deg: seq<int>, k: nat, v: nat)
    requires 1 <= k <= |deg|
    ensures multiset(Order(deg, k))[v] == if v < k then 1 else 0
  {
    if k > 1 {
      OrderCount(deg, k - 1, v);
      InsertAddsOne(deg, Order(deg, k - 1), k - 1);
    }
  }

  /** The order is a permutation of 0 .. k-1. */
  lemma OrderPermutation(deg: seq<int>, k: nat)
    requires 1 <= k <= |deg|
    ensures multiset(Order(deg, k)) == multiset(Range(k))
  {
    forall v ensures multiset(Order(deg, k))[v] == multiset(Range(k))[v] {
      OrderCount(deg, k, v);
      RangeCount(k, v);
    }
  }

  /** Every vertex of the order after k steps is below k. */
  lemma OrderBelow(deg: seq<int>, k: nat)
    requires 1 <= k <= |deg|
    ensures forall t | 0 <= t < |Order(deg, k)| :: Order(deg, k)[t] < k
  {
    var s := Order(deg, k);
    forall t | 0 <= t < |s| ensures s[t] < k {
      assert s[t] in multiset(s);
      OrderCount(deg, k, s[t]);
    }
  }

  /** Inserting a vertex larger than all others keeps a ranked order ranked. */
  lemma InsertKeepsRanked(deg: seq<int>, s: seq<nat>, x: nat)
    requires x < |deg| && VerticesOf(deg, s) && Ranked(deg, s)
    requires forall t | 0 <= t < |s| :: s[t] < x
    ensures VerticesOf(deg, InsertByDegree(deg, s, x)) && Ranked(deg, InsertByDegree(deg, s, x))
  {
    var p := InsertionPoint(deg, s, x);
    var r := s[..p] + [x] + s[p..];
    assert |r| == |s| + 1;
    assert forall t | 0 <= t < p :: r[t] == s[t];
    assert r[p] == x;
    assert forall t | p < t < |r| :: r[t] == s[t - 1];
    forall a, b | 0 <= a < b < |r|
      ensures RanksBefore(deg, r[a], r[b])
    {
      if a == p {
        assert deg[r[b]] <= deg[s[p]] by {
          if b - 1 > p { assert RanksBefore(deg, s[p], s[b - 1]); }
        }
      } else if b == p {
        assert r[a] == s[a];
      } else if a < p && p < b {
        assert RanksBefore(deg, s[a], s[b - 1]);
      }
    }
  }

  /**
   * The order is sorted by non-increasing degree, and vertices of equal
   * degree come out in descending index order.
   */
  lemma {:induction false} OrderRanked(deg: seq<int>, k: nat)
    requires 1 <= k <= |deg|
    ensures Ranked(deg, Order(deg, k))
  {
    if k > 1 {
      OrderRanked(deg, k - 1);
      OrderBelow(deg, k - 1);
      InsertKeepsRanked(deg, Order(deg, k - 1), k - 1);
    }
  }

  /**
   * One round of sort_vertices_descending_by_degrees: sorted is copied element
   * by element into a new list, with vertex i written in front of the first
   * element j such that degree(i) >= degree(j), or appended when there is none.
   */
  method InsertVertex(m: Matrix, sorted: seq<nat>, i: nat) returns (temp: seq<nat>)
    requires IsSquare(m) && i < |m| && VerticesOf(Degrees(m), sorted)
    ensures temp == InsertByDegree(Degrees(m), sorted, i)
  {
    ghost var deg := Degrees(m);
    var degree := VertexDegree(m, i);
    temp := [];
    var inserted := false;
    ghost var p := InsertionPoint(deg, sorted, i);
    for idx := 0 to |sorted|
      invariant !inserted ==> idx <= p && temp == sorted[..idx]
      invariant inserted ==> p < idx && temp == sorted[..p] + [i] + sorted[p..idx]
    {
      var j := sorted[idx];
      if degree >= VertexDegree(m, j) && !inserted {
        temp := temp + [i];
        inserted := true;
        temp := temp + [j];
        assert sorted[p..idx + 1] == [j];
      } else {
        assert sorted[..idx + 1] == sorted[..idx] + [j];
        assert inserted ==> sorted[p..idx + 1] == sorted[p..idx] + [j];
        temp := temp + [j];
      }
    }
    if !inserted {
      assert sorted[..|sorted|] == sorted;
      temp := temp + [i];
    }
    assert sorted[p..] == sorted[p..|sorted|];
  }

  /**
   * sort_vertices_descending_by_degrees: vertex 0 is seeded and every other
   * vertex is inserted in index order. An empty matrix yields [0], as the
   * source's seed does.
   */
  method SortVerticesDescendingByDegrees(m: Matrix) returns (sorted: seq<nat>)
    requires IsSquare(m)
    ensures |m| == 0 ==> sorted == [0]
    ensures |m| > 0 ==> sorted == Order(Degrees(m), |m|)
    ensures |m| > 0 ==> |sorted| == |m|
    ensures |m| > 0 ==> multiset(sorted) == multiset(Range(|m|))
    ensures |m| > 0 ==> forall t | 0 <= t < |sorted| :: sorted[t] < |m|
    ensures |m| > 0 ==> forall a, b | 0 <= a < b < |sorted| ::
      RanksBefore(Degrees(m), sorted[a], sorted[b])
  {
    sorted := [0];
    var n := |m|;
    if n == 0 {
      return;
    }
    ghost var deg := Degrees(m);
    for i := 1 to n
      invariant sorted == Order(deg, i)
    {
      sorted := InsertVertex(m, sorted, i);
    }
    OrderPermutation(deg, n);
    OrderRanked(deg, n);
    assert |sorted| == |multiset(sorted)| == |multiset(Range(n))|;
  }

  /** The path 0-1-2-3 has degrees 1, 2, 2, 1 and is ordered 2, 1, 3, 0. */
  lemma PathOrderExample()
    ensures Order([1, 2, 2, 1], 4) == [2, 1, 3, 0]
  {
    var deg := [1, 2, 2, 1];
    assert InsertionPoint(deg, [0], 1) == 0;
    assert Order(deg, 2) == [1, 0];
    assert InsertionPoint(deg, [1, 0], 2) == 0;
    assert Order(deg, 3) == [2, 1, 0];
    assert InsertionPoint(deg, [0], 3) == 0;
    assert InsertionPoint(deg, [1, 0], 3) == 1;
    assert InsertionPoint(deg, [2, 1, 0], 3) == 2;
  }
}
