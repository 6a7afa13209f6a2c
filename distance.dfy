/**
 * distance_between_vertex: Dijkstra's algorithm with unit weights over the
 * entries equal to 1, returning the number of edges of a shortest walk from
 * one vertex to another, or infinity when none exists.
 */
module Distance {
  import opened Wrappers
  import opened AdjacencyMatrix

  /** A distance: a number of edges, or infinity (the source's float('inf')). */
  datatype Dist = Finite(n: nat) | Inf

  /** a < b on distances, with infinity above every number. */
  predicate Below(a: Dist, b: Dist) {
    a.Finite? && (b.Inf? || a.n < b.n)
  }

  /** The i-th step of p follows an edge (an entry equal to 1). */
  ghost predicate StepAt(m: Matrix, p: seq<nat>, i: nat)
    requires i + 1 < |p|
  {
    p[i] < |m| && p[i + 1] < |m[p[i]]| && m[p[i]][p[i + 1]] == 1
  }

  /** p lists the vertices of a walk from u to v, one edge per step. */
  ghost predicate IsWalk(m: Matrix, p: seq<nat>, u: nat, v: nat) {
    |p| > 0 && p[0] == u && p[|p| - 1] == v &&
    (forall i | 0 <= i < |p| :: p[i] < |m|) &&
    forall i | 0 <= i < |p| - 1 :: StepAt(m, p, i)
  }

  /** Every walk from u to v has at least k edges. */
  ghost predicate NoShorterWalk(m: Matrix, u: nat, v: nat, k: nat) {
    forall p | IsWalk(m, p, u, v) :: |p| >= k + 1
  }

  /** d is the number of edges of a shortest walk from u to v, or Inf when there is none. */
  ghost predicate IsDistance(m: Matrix, u: nat, v: nat, d: Dist) {
    match d
    case Finite(k) => (exists p :: IsWalk(m, p, u, v) && |p| == k + 1) && NoShorterWalk(m, u, v, k)
    case Inf => forall p :: !IsWalk(m, p, u, v)
  }

  // ---------------------------------------------------------------------
  // Walks

  lemma WalkPrefix(m: Matrix, p: seq<nat>, u: nat, v: nat, k: nat)
    requires IsWalk(m, p, u, v) && k < |p|
    ensures IsWalk(m, p[..k + 1], u, p[k])
  {
    var q := p[..k + 1];
    forall i | 0 <= i < |q| - 1
      ensures StepAt(m, q, i)
    {
      assert StepAt(m, p, i);
    }
  }

  lemma WalkExtend(m: Matrix, p: seq<nat>, u: nat, c: nat, y: nat)
    requires IsSquare(m) && IsWalk(m, p, u, c) && y < |m| && m[c][y] == 1
    ensures IsWalk(m, p + [y], u, y)
  {
    var q := p + [y];
    forall i | 0 <= i < |q| - 1
      ensures StepAt(m, q, i)
    {
      if i < |p| - 1 {
        assert StepAt(m, p, i);
      }
    }
  }

  function Reverse(p: seq<nat>): (r: seq<nat>)
    ensures |r| == |p| && forall i | 0 <= i < |p| :: r[i] == p[|p| - 1 - i]
  {
    seq(|p|, i requires 0 <= i < |p| => p[|p| - 1 - i])
  }

  /** On an undirected graph a walk read backwards is a walk. */
  lemma WalkReverse(m: Matrix, p: seq<nat>, u: nat, v: nat)
    requires Symmetric(m) && IsWalk(m, p, u, v)
    ensures IsWalk(m, Reverse(p), v, u)
  {
    var q := Reverse(p);
    forall i | 0 <= i < |q| - 1
      ensures StepAt(m, q, i)
    {
      var j := |p| - 2 - i;
      assert StepAt(m, p, j);
      assert q[i] == p[j + 1] && q[i + 1] == p[j];
    }
  }

  // ---------------------------------------------------------------------
  // Properties of the distance

  /** The distance is unique. */
  lemma DistanceUnique(m: Matrix, u: nat, v: nat, d1: Dist, d2: Dist)
    requires IsDistance(m, u, v, d1) && IsDistance(m, u, v, d2)
    ensures d1 == d2
  {
    if d1.Finite? {
      var p1 :| IsWalk(m, p1, u, v) && |p1| == d1.n + 1;
    }
    if d2.Finite? {
      var p2 :| IsWalk(m, p2, u, v) && |p2| == d2.n + 1;
    }
  }

  /** A walk from u to v shows that v is reachable, in no fewer edges than the distance. */
  lemma WalkBoundsDistance(m: Matrix, u: nat, v: nat, d: Dist, p: seq<nat>)
    requires IsDistance(m, u, v, d) && IsWalk(m, p, u, v)
    ensures d.Finite? && |p| >= d.n + 1
  {
  }

  /** Every vertex is at distance 0 from itself. */
  lemma DistanceToSelf(m: Matrix, u: nat)
    requires u < |m|
    ensures IsDistance(m, u, u, Finite(0))
  {
    assert IsWalk(m, [u], u, u);
  }

  /** Two distinct vertices are at distance 1 exactly when the entry between them is 1. */
  lemma DistanceOne(m: Matrix, u: nat, v: nat)
    requires IsSquare(m) && u < |m| && v < |m| && u != v
    ensures IsDistance(m, u, v, Finite(1)) <==> m[u][v] == 1
  {
    if m[u][v] == 1 {
      var p := [u, v];
      assert StepAt(m, p, 0);
      assert IsWalk(m, p, u, v);
    }
    if IsDistance(m, u, v, Finite(1)) {
      var p :| IsWalk(m, p, u, v) && |p| == 2;
      assert StepAt(m, p, 0);
    }
  }

  /** On an undirected graph the distance does not depend on the direction. */
  lemma DistanceSymmetric(m: Matrix, u: nat, v: nat, d: Dist)
    requires Symmetric(m)
    ensures IsDistance(m, u, v, d) <==> IsDistance(m, v, u, d)
  {
    if IsDistance(m, u, v, d) {
      DistanceReversed(m, u, v, d);
    }
    if IsDistance(m, v, u, d) {
      DistanceReversed(m, v, u, d);
    }
  }

  lemma DistanceReversed(m: Matrix, u: nat, v: nat, d: Dist)
    requires Symmetric(m) && IsDistance(m, u, v, d)
    ensures IsDistance(m, v, u, d)
  {
    forall q | IsWalk(m, q, v, u)
      ensures IsWalk(m, Reverse(q), u, v)
    {
      WalkReverse(m, q, v, u);
    }
    if d.Finite? {
      var p :| IsWalk(m, p, u, v) && |p| == d.n + 1;
      WalkReverse(m, p, u, v);
    }
  }

  // ---------------------------------------------------------------------
  // Invariants of the main loop

  /** Every finite tentative distance is the length of a walk from first (ghost witnesses in paths). */
  ghost predicate Witnessed(m: Matrix, first: nat, distance: seq<Dist>, paths: seq<seq<nat>>)
    requires |distance| == |paths| == |m|
  {
    forall x | 0 <= x < |m| && distance[x].Finite? ::
      IsWalk(m, paths[x], first, x) && |paths[x]| == distance[x].n + 1
  }

  /** The distance of a visited vertex is final: finite and no walk is shorter. */
  ghost predicate SettledVisited(m: Matrix, first: nat, visited: seq<bool>, distance: seq<Dist>)
    requires |visited| == |distance| == |m|
  {
    forall x | 0 <= x < |m| && visited[x] ::
      distance[x].Finite? && NoShorterWalk(m, first, x, distance[x].n)
  }

  /** Visited vertices are no farther than unvisited ones. */
  ghost predicate VisitedFirst(visited: seq<bool>, distance: seq<Dist>)
    requires |visited| == |distance|
  {
    forall x, y | 0 <= x < |visited| && 0 <= y < |visited| && visited[x] && !visited[y] ::
      distance[x].Finite? && !Below(distance[y], distance[x])
  }

  /** The edges leaving visited vertices have been relaxed. */
  ghost predicate EdgesRelaxed(m: Matrix, visited: seq<bool>, distance: seq<Dist>)
    requires IsSquare(m) && |visited| == |distance| == |m|
  {
    forall x, y | 0 <= x < |m| && 0 <= y < |m| && visited[x] && m[x][y] == 1 ::
      distance[x].Finite? && !Below(Finite(distance[x].n + 1), distance[y])
  }

  ghost predicate DistInvariant(m: Matrix, first: nat, second: nat,
                                visited: seq<bool>, distance: seq<Dist>, paths: seq<seq<nat>>)
  {
    IsSquare(m) && first < |m| && second < |m| &&
    |visited| == |distance| == |paths| == |m| &&
    distance[first] == Finite(0) && !visited[second] &&
    Witnessed(m, first, distance, paths) &&
    SettledVisited(m, first, visited, distance) &&
    VisitedFirst(visited, distance) &&
    EdgesRelaxed(m, visited, distance)
  }

  /**
   * Every walk from first to an unvisited vertex passes through an unvisited
   * vertex whose tentative distance is at most its position on the walk.
   */
  lemma {:induction false} Frontier(m: Matrix, first: nat, visited: seq<bool>, distance: seq<Dist>,
                                    p: seq<nat>, y: nat, k: nat)
    requires IsSquare(m) && |visited| == |distance| == |m| && first < |m| && distance[first] == Finite(0)
    requires SettledVisited(m, first, visited, distance) && EdgesRelaxed(m, visited, distance)
    requires IsWalk(m, p, first, y) && !visited[y]
    requires k < |p| && forall i | 0 <= i < k :: visited[p[i]]
    ensures exists j :: 0 <= j < |p| && !visited[p[j]] && distance[p[j]].Finite? && distance[p[j]].n <= j
    decreases |p| - k
  {
    if !visited[p[k]] {
      if k == 0 {
        assert distance[p[0]] == Finite(0);
      } else {
        var b := k - 1;
        var x := p[b];
        assert visited[x];
        WalkPrefix(m, p, first, y, b);
        assert StepAt(m, p, b);
        assert distance[x].n <= b;
        assert distance[p[k]].Finite? && distance[p[k]].n <= k;
      }
    } else {
      Frontier(m, first, visited, distance, p, y, k + 1);
    }
  }

  /** The closest unvisited vertex has its final distance. */
  lemma ClosestIsSettled(m: Matrix, first: nat, second: nat, visited: seq<bool>,
                         distance: seq<Dist>, paths: seq<seq<nat>>, c: nat)
    requires DistInvariant(m, first, second, visited, distance, paths)
    requires c < |m| && !visited[c] && distance[c].Finite?
    requires forall v | 0 <= v < |m| && !visited[v] :: !Below(distance[v], distance[c])
    ensures NoShorterWalk(m, first, c, distance[c].n)
  {
    forall p | IsWalk(m, p, first, c)
      ensures |p| >= distance[c].n + 1
    {
      Frontier(m, first, visited, distance, p, c, 0);
      var j :| 0 <= j < |p| && !visited[p[j]] && distance[p[j]].Finite? && distance[p[j]].n <= j;
      assert !Below(distance[p[j]], distance[c]);
    }
  }

  /** When every unvisited vertex is at infinity, second cannot be reached. */
  lemma Unreachable(m: Matrix, first: nat, second: nat, visited: seq<bool>,
                    distance: seq<Dist>, paths: seq<seq<nat>>)
    requires DistInvariant(m, first, second, visited, distance, paths)
    requires forall v | 0 <= v < |m| && !visited[v] :: distance[v].Inf?
    ensures IsDistance(m, first, second, Inf)
  {
    forall p
      ensures !IsWalk(m, p, first, second)
    {
      if IsWalk(m, p, first, second) {
        Frontier(m, first, visited, distance, p, second, 0);
      }
    }
  }

  /** The tentative distances after relaxing the edges leaving c. */
  function Relaxed(m: Matrix, distance: seq<Dist>, c: nat): (r: seq<Dist>)
    requires IsSquare(m) && |distance| == |m| && c < |m| && distance[c].Finite?
    ensures |r| == |distance|
    ensures forall v | 0 <= v < |m| ::
      r[v] == if m[c][v] == 1 && Below(Finite(distance[c].n + 1), distance[v])
              then Finite(distance[c].n + 1) else distance[v]
  {
    seq(|m|, v requires 0 <= v < |m| =>
      if m[c][v] == 1 && Below(Finite(distance[c].n + 1), distance[v])
      then Finite(distance[c].n + 1) else distance[v])
  }

  /** Visiting the closest unvisited vertex c and relaxing its edges keeps the invariant. */
  lemma VisitKeepsInvariant(m: Matrix, first: nat, second: nat, visited: seq<bool>,
                            distance: seq<Dist>, paths: seq<seq<nat>>, c: nat)
    requires DistInvariant(m, first, second, visited, distance, paths)
    requires c < |m| && c != second && !visited[c] && distance[c].Finite?
    requires forall v | 0 <= v < |m| && !visited[v] :: !Below(distance[v], distance[c])
    ensures DistInvariant(m, first, second, visited[c := true], Relaxed(m, distance, c),
                          RelaxedPaths(m, distance, paths, c))
  {
    ClosestIsSettled(m, first, second, visited, distance, paths, c);
    RelaxKeepsWitnesses(m, first, second, visited, distance, paths, c);
    RelaxKeepsSettled(m, first, second, visited, distance, paths, c);
    RelaxKeepsOrder(m, first, second, visited, distance, paths, c);
    RelaxKeepsRelaxed(m, first, second, visited, distance, paths, c);
  }

  /** The ghost witnesses after relaxing the edges leaving c. */
  ghost function RelaxedPaths(m: Matrix, distance: seq<Dist>, paths: seq<seq<nat>>, c: nat): (r: seq<seq<nat>>)
    requires IsSquare(m) && |distance| == |paths| == |m| && c < |m| && distance[c].Finite?
    ensures |r| == |m|
  {
    var d' := Relaxed(m, distance, c);
    seq(|m|, y requires 0 <= y < |m| => if d'[y] != distance[y] then paths[c] + [y] else paths[y])
  }

  lemma RelaxKeepsWitnesses(m: Matrix, first: nat, second: nat, visited: seq<bool>,
                            distance: seq<Dist>, paths: seq<seq<nat>>, c: nat)
    requires DistInvariant(m, first, second, visited, distance, paths)
    requires c < |m| && distance[c].Finite?
    ensures Witnessed(m, first, Relaxed(m, distance, c), RelaxedPaths(m, distance, paths, c))
  {
    var d', p' := Relaxed(m, distance, c), RelaxedPaths(m, distance, paths, c);
    forall x | 0 <= x < |m| && d'[x].Finite?
      ensures IsWalk(m, p'[x], first, x) && |p'[x]| == d'[x].n + 1
    {
      if d'[x] != distance[x] {
        WalkExtend(m, paths[c], first, c, x);
      }
    }
  }

  lemma RelaxKeepsSettled(m: Matrix, first: nat, second: nat, visited: seq<bool>,
                          distance: seq<Dist>, paths: seq<seq<nat>>, c: nat)
    requires DistInvariant(m, first, second, visited, distance, paths)
    requires c < |m| && !visited[c] && distance[c].Finite?
    requires NoShorterWalk(m, first, c, distance[c].n)
    ensures SettledVisited(m, first, visited[c := true], Relaxed(m, distance, c))
  {
    var d' := Relaxed(m, distance, c);
    forall x | 0 <= x < |m| && visited[c := true][x]
      ensures d'[x].Finite? && NoShorterWalk(m, first, x, d'[x].n)
    {
      if x != c {
        assert distance[x].Finite? && !Below(distance[c], distance[x]);
        assert d'[x] == distance[x];
      }
    }
  }

  lemma RelaxKeepsOrder(m: Matrix, first: nat, second: nat, visited: seq<bool>,
                        distance: seq<Dist>, paths: seq<seq<nat>>, c: nat)
    requires DistInvariant(m, first, second, visited, distance, paths)
    requires c < |m| && !visited[c] && distance[c].Finite?
    requires forall v | 0 <= v < |m| && !visited[v] :: !Below(distance[v], distance[c])
    ensures VisitedFirst(visited[c := true], Relaxed(m, distance, c))
  {
    var d', V' := Relaxed(m, distance, c), visited[c := true];
    forall x, y | 0 <= x < |m| && 0 <= y < |m| && V'[x] && !V'[y]
      ensures d'[x].Finite? && !Below(d'[y], d'[x])
    {
      assert !visited[y] && y != c;
      assert !Below(distance[y], distance[c]);
      if x != c {
        assert distance[x].Finite? && !Below(distance[c], distance[x]);
        assert d'[x] == distance[x];
      }
    }
  }

  lemma RelaxKeepsRelaxed(m: Matrix, first: nat, second: nat, visited: seq<bool>,
                          distance: seq<Dist>, paths: seq<seq<nat>>, c: nat)
    requires DistInvariant(m, first, second, visited, distance, paths)
    requires c < |m| && !visited[c] && distance[c].Finite?
    ensures EdgesRelaxed(m, visited[c := true], Relaxed(m, distance, c))
  {
    var d', V' := Relaxed(m, distance, c), visited[c := true];
    forall x, y | 0 <= x < |m| && 0 <= y < |m| && V'[x] && m[x][y] == 1
      ensures d'[x].Finite? && !Below(Finite(d'[x].n + 1), d'[y])
    {
      if x != c {
        assert distance[x].Finite? && !Below(distance[c], distance[x]);
        assert d'[x] == distance[x];
      }
    }
  }

  // ---------------------------------------------------------------------
  // The algorithm

  /**
   * The scan of distance_between_vertex for the next vertex: the first
   * unvisited vertex of least finite distance, or None when every unvisited
   * vertex is at infinity.
   */
  method ClosestUnvisited(visited: seq<bool>, distance: seq<Dist>) returns (current: Option<nat>)
    requires |visited| == |distance|
    ensures current.None? <==> forall v | 0 <= v < |visited| && !visited[v] :: distance[v].Inf?
    ensures current.Some? ==>
      current.value < |visited| && !visited[current.value] && distance[current.value].Finite? &&
      (forall v | 0 <= v < |visited| && !visited[v] :: !Below(distance[v], distance[current.value])) &&
      (forall v | 0 <= v < current.value && !visited[v] :: Below(distance[current.value], distance[v]))
  {
    var minDistance := Inf;
    current := None;
    for v := 0 to |visited|
      invariant current.None? ==> minDistance.Inf? && forall u | 0 <= u < v && !visited[u] :: distance[u].Inf?
      invariant current.Some? ==>
        current.value < v && !visited[current.value] && minDistance == distance[current.value] &&
        minDistance.Finite? &&
        (forall u | 0 <= u < v && !visited[u] :: !Below(distance[u], minDistance)) &&
        (forall u | 0 <= u < current.value && !visited[u] :: Below(minDistance, distance[u]))
    {
      if !visited[v] && Below(distance[v], minDistance) {
        minDistance := distance[v];
        current := Some(v);
      }
    }
  }

  /** The inner loop of distance_between_vertex: relax every edge leaving c. */
  method RelaxNeighbours(m: Matrix, distance: seq<Dist>, c: nat) returns (distance': seq<Dist>)
    requires IsSquare(m) && |distance| == |m| && c < |m| && distance[c].Finite?
    ensures distance' == Relaxed(m, distance, c)
  {
    distance' := distance;
    var newDistance := Finite(distance[c].n + 1);
    for v := 0 to |m|
      invariant |distance'| == |m|
      invariant forall u | 0 <= u < |m| :: distance'[u] == if u < v then Relaxed(m, distance, c)[u] else distance[u]
    {
      if m[c][v] == 1 {
        if Below(newDistance, distance'[v]) {
          distance' := distance'[v := newDistance];
        }
      }
    }
  }

  /**
   * distance_between_vertex: the length of a shortest walk from first to
   * second along entries equal to 1, or Inf when second cannot be reached.
   */
  method DistanceBetweenVertex(m: Matrix, first: nat, second: nat) returns (r: Dist)
    requires IsSquare(m) && first < |m| && second < |m|
    ensures IsDistance(m, first, second, r)
  {
    var n := |m|;
    var visited := seq(n, _ => false);
    var distance := seq(n, _ => Inf)[first := Finite(0)];
    ghost var paths: seq<seq<nat>> := seq(n, x => [x]);
    assert IsWalk(m, paths[first], first, first);
    while true
      invariant DistInvariant(m, first, second, visited, distance, paths)
      decreases multiset(visited)[false]
    {
      var current := ClosestUnvisited(visited, distance);
      if current.None? {
        Unreachable(m, first, second, visited, distance, paths);
        return Inf;
      }
      var c := current.value;
      ClosestIsSettled(m, first, second, visited, distance, paths, c);
      if c == second {
        assert IsWalk(m, paths[c], first, c);
        return distance[c];
      }
      VisitKeepsInvariant(m, first, second, visited, distance, paths, c);
      var relaxed := RelaxNeighbours(m, distance, c);
      paths := RelaxedPaths(m, distance, paths, c);
      distance := relaxed;
      visited := visited[c := true];
    }
  }
}
