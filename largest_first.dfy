/**
 * largest_first: greedy colouring over the vertices ordered by descending
 * degree. Each pass over the order builds one colour class: a vertex not yet
 * coloured joins the class when it has no neighbour already in it.
 */
module LargestFirstAlgorithm {
  import opened Wrappers
  import opened AdjacencyMatrix
  import opened Colouring
  import opened DegreeOrder

  /** The entries of the working list still holding a vertex (coloured ones are -1). */
  function Live(V: seq<int>): (r: seq<nat>)
    ensures |r| <= |V|
  {
    if V == [] then []
    else Live(V[..|V| - 1]) + (if V[|V| - 1] >= 0 then [V[|V| - 1] as nat] else [])
  }

  lemma {:induction false} LiveOfVertices(V: seq<int>)
    requires forall i | 0 <= i < |V| :: V[i] >= 0
    ensures Live(V) == V
  {
    if V != [] {
      LiveOfVertices(V[..|V| - 1]);
    }
  }

  lemma {:induction false} LiveHasVertex(V: seq<int>)
    requires Live(V) != []
    ensures exists t :: 0 <= t < |V| && V[t] >= 0
  {
    if V[|V| - 1] < 0 {
      LiveHasVertex(V[..|V| - 1]);
      var t :| 0 <= t < |V| - 1 && V[..|V| - 1][t] >= 0;
      assert V[t] >= 0;
    }
  }

  /** Overwriting a vertex with -1 removes exactly that vertex from the live entries. */
  lemma {:induction false} LiveClear(V: seq<int>, i: nat)
    requires i < |V| && V[i] >= 0
    ensures multiset(Live(V[i := -1])) + multiset{V[i] as nat} == multiset(Live(V))
  {
    var last := |V| - 1;
    var W := V[i := -1];
    var x: nat := V[i];
    if i == last {
      assert W[..last] == V[..last];
      assert Live(W) == Live(V[..last]);
      assert Live(V) == Live(V[..last]) + [x];
    } else {
      assert W[..last] == V[..last][i := -1];
      LiveClear(V[..last], i);
      var tail: seq<nat> := if V[last] >= 0 then [V[last] as nat] else [];
      assert Live(W) == Live(V[..last][i := -1]) + tail;
      assert Live(V) == Live(V[..last]) + tail;
    }
  }

  /**
   * The loop guard sum(V) > -len(V): with every entry a vertex or -1 it holds
   * exactly when some vertex is still uncoloured.
   */
  lemma {:induction false} GuardMeansUncoloured(V: seq<int>)
    requires forall i | 0 <= i < |V| :: V[i] >= -1
    ensures Sum(V) >= -|V|
    ensures Sum(V) > -|V| <==> Live(V) != []
  {
    if V != [] {
      GuardMeansUncoloured(V[..|V| - 1]);
    }
  }

  /** A vertex adjacent to some member of a class stays so when the class is extended. */
  lemma NeighborOfExtension(m: Matrix, x: nat, S: seq<nat>, T: seq<nat>)
    requires x < |m| && IsNeighbor(m, x, S) && S <= T
    ensures IsNeighbor(m, x, T)
  {
    var u :| 0 <= u < |m[x]| && u in S && m[x][u] > 0;
    var k :| 0 <= k < |S| && S[k] == u;
    assert T[k] == u;
  }

  /**
   * Each member of the class is a vertex with no neighbour among the members
   * placed before it (no positive entry from a member towards an earlier one).
   */
  ghost predicate GreedyClass(m: Matrix, c: seq<nat>)
    requires IsSquare(m)
  {
    (forall p | 0 <= p < |c| :: c[p] < |m|) &&
    forall p, q | 0 <= q < p < |c| :: m[c[p]][c[q]] <= 0
  }

  /** A vertex that is_neighbor rejects has no positive entry towards any member of s. */
  lemma NotNeighbor(m: Matrix, x: nat, s: seq<nat>)
    requires IsSquare(m) && x < |m| && !IsNeighbor(m, x, s)
    requires forall q | 0 <= q < |s| :: s[q] < |m|
    ensures forall q | 0 <= q < |s| :: m[x][s[q]] <= 0
  {
    forall q | 0 <= q < |s|
      ensures m[x][s[q]] <= 0
    {
      assert s[q] in s;
    }
  }

  /** A vertex with no positive entry towards the class may be appended to it. */
  lemma GreedyAppend(m: Matrix, S: seq<nat>, x: nat)
    requires IsSquare(m) && GreedyClass(m, S) && x < |m|
    requires !IsNeighbor(m, x, S)
    ensures GreedyClass(m, S + [x])
  {
    NotNeighbor(m, x, S);
    var T := S + [x];
    forall p, q | 0 <= q < p < |T|
      ensures m[T[p]][T[q]] <= 0
    {
      if p < |S| {
        assert T[p] == S[p] && T[q] == S[q];
      }
    }
  }

  /** Each vertex of a class is adjacent to some vertex of every earlier class. */
  ghost predicate FirstFit(m: Matrix, r: seq<seq<nat>>) {
    (forall c, p | 0 <= c < |r| && 0 <= p < |r[c]| :: r[c][p] < |m|) &&
    forall c1, c2, p | 0 <= c1 < c2 < |r| && 0 <= p < |r[c2]| :: IsNeighbor(m, r[c2][p], r[c1])
  }

  /** Every entry of the working list is -1 or a vertex. */
  ghost predicate Entries(m: Matrix, W: seq<int>) {
    forall t | 0 <= t < |W| :: -1 <= W[t] < |m|
  }

  /**
   * The pass of the while loop of largest_first from entry i on, given the
   * class S built from the entries before i: an entry still holding a vertex
   * with no neighbour in the class joins it and is overwritten with -1.
   * Yields the new working list and the finished class.
   */
  function PassFrom(m: Matrix, W: seq<int>, S: seq<nat>, i: nat): (r: (seq<int>, seq<nat>))
    requires IsSquare(m) && Entries(m, W) && i <= |W|
    ensures |r.0| == |W| && Entries(m, r.0)
    ensures forall t | 0 <= t < |W| :: r.0[t] == W[t] || r.0[t] == -1
    ensures forall t | 0 <= t < i :: r.0[t] == W[t]
    ensures S <= r.1
    decreases |W| - i
  {
    if i == |W| then (W, S)
    else if W[i] >= 0 && !IsNeighbor(m, W[i], S) then
      PassFrom(m, W[i := -1], S + [W[i] as nat], i + 1)
    else
      PassFrom(m, W, S, i + 1)
  }

  /** Moving one vertex from the live entries to the class keeps their union. */
  lemma MoveOne(done: multiset<nat>, members: multiset<nat>, left: multiset<nat>, live: multiset<nat>, x: nat)
    requires done == members + multiset{x} + left && left + multiset{x} == live
    ensures done == members + live
  {
  }

  /** The vertices leaving the working list are exactly those joining the class. */
  lemma {:induction false} PassMultiset(m: Matrix, W: seq<int>, S: seq<nat>, i: nat)
    requires IsSquare(m) && Entries(m, W) && i <= |W|
    ensures var r := PassFrom(m, W, S, i);
      multiset(r.1) + multiset(Live(r.0)) == multiset(S) + multiset(Live(W))
    decreases |W| - i
  {
    var r := PassFrom(m, W, S, i);
    if i == |W| {
      assert r == (W, S);
    } else if W[i] >= 0 && !IsNeighbor(m, W[i], S) {
      var x: nat := W[i];
      var W', S' := W[i := -1], S + [x];
      assert r == PassFrom(m, W', S', i + 1);
      LiveClear(W, i);
      PassMultiset(m, W', S', i + 1);
      assert multiset(S') == multiset(S) + multiset{x};
      MoveOne(multiset(r.1) + multiset(Live(r.0)), multiset(S), multiset(Live(W')), multiset(Live(W)), x);
    } else {
      assert r == PassFrom(m, W, S, i + 1);
      PassMultiset(m, W, S, i + 1);
    }
  }

  /** A pass keeps the class greedy. */
  lemma {:induction false} PassGreedy(m: Matrix, W: seq<int>, S: seq<nat>, i: nat)
    requires IsSquare(m) && Entries(m, W) && i <= |W| && GreedyClass(m, S)
    ensures GreedyClass(m, PassFrom(m, W, S, i).1)
    decreases |W| - i
  {
    if i < |W| {
      if W[i] >= 0 && !IsNeighbor(m, W[i], S) {
        GreedyAppend(m, S, W[i]);
        PassGreedy(m, W[i := -1], S + [W[i] as nat], i + 1);
      } else {
        PassGreedy(m, W, S, i + 1);
      }
    }
  }

  /** Every entry scanned by the pass that still holds a vertex has a neighbour in the class. */
  lemma {:induction false} PassNeighbours(m: Matrix, W: seq<int>, S: seq<nat>, i: nat)
    requires IsSquare(m) && Entries(m, W) && i <= |W|
    ensures var r := PassFrom(m, W, S, i);
      forall t | i <= t < |W| && r.0[t] >= 0 :: IsNeighbor(m, r.0[t], r.1)
    decreases |W| - i
  {
    if i < |W| {
      var r := PassFrom(m, W, S, i);
      if W[i] >= 0 && !IsNeighbor(m, W[i], S) {
        assert r == PassFrom(m, W[i := -1], S + [W[i] as nat], i + 1);
        PassNeighbours(m, W[i := -1], S + [W[i] as nat], i + 1);
        assert r.0[i] == W[i := -1][i];
      } else {
        assert r == PassFrom(m, W, S, i + 1);
        PassNeighbours(m, W, S, i + 1);
        if W[i] >= 0 {
          NeighborOfExtension(m, W[i], S, r.1);
          assert r.0[i] == W[i];
        }
      }
    }
  }

  /** A pass that meets a vertex, or starts from a non-empty class, ends with a non-empty class. */
  lemma {:induction false} PassNonEmpty(m: Matrix, W: seq<int>, S: seq<nat>, i: nat)
    requires IsSquare(m) && Entries(m, W) && i <= |W|
    ensures (|S| > 0 || exists t | i <= t < |W| :: W[t] >= 0) ==> |PassFrom(m, W, S, i).1| > 0
    decreases |W| - i
  {
    if i < |W| {
      if W[i] >= 0 && !IsNeighbor(m, W[i], S) {
        PassNonEmpty(m, W[i := -1], S + [W[i] as nat], i + 1);
      } else {
        PassNonEmpty(m, W, S, i + 1);
      }
    }
  }

  /** A live entry is an entry of the working list. */
  lemma {:induction false} LiveMember(V: seq<int>, x: nat)
    requires x in Live(V)
    ensures x as int in V
  {
    var last := |V| - 1;
    if x in Live(V[..last]) {
      LiveMember(V[..last], x);
      assert V[..last] <= V;
    } else {
      assert V[last] == x;
    }
  }

  /** A pass over a list still holding a vertex shortens the list of live entries. */
  lemma PassShrinks(m: Matrix, V: seq<int>)
    requires IsSquare(m) && Entries(m, V) && Live(V) != []
    ensures |Live(PassFrom(m, V, [], 0).0)| < |Live(V)|
  {
    var r := PassFrom(m, V, [], 0);
    PassMultiset(m, V, [], 0);
    LiveHasVertex(V);
    PassNonEmpty(m, V, [], 0);
    var A, B := multiset(r.1), multiset(Live(r.0));
    assert A + B == multiset(Live(V));
    assert |A| == |r.1| > 0;
    assert |A + B| == |A| + |B|;
  }

  /**
   * The whole while loop of largest_first, from the working list V and the
   * classes gc built so far: while some entry still holds a vertex (the guard
   * sum(V) > -len(V)), one pass adds one class.
   */
  ghost function ColourClasses(m: Matrix, V: seq<int>, gc: seq<seq<nat>>): (r: seq<seq<nat>>)
    requires IsSquare(m) && Entries(m, V)
    ensures gc <= r
    decreases |Live(V)|
  {
    GuardMeansUncoloured(V);
    if Sum(V) > -|V| then
      PassShrinks(m, V);
      var pass := PassFrom(m, V, [], 0);
      ColourClasses(m, pass.0, gc + [pass.1])
    else
      gc
  }

  /** The classes built so far: non-empty, greedy, and each adjacent to every earlier one. */
  ghost predicate ClassesSoFar(m: Matrix, gc: seq<seq<nat>>)
    requires IsSquare(m)
  {
    (forall c | 0 <= c < |gc| :: |gc[c]| > 0 && GreedyClass(m, gc[c])) && FirstFit(m, gc)
  }

  /** Every vertex still uncoloured has a neighbour in each class built so far. */
  ghost predicate UncolouredSeeAll(m: Matrix, V: seq<int>, gc: seq<seq<nat>>) {
    forall t, c | 0 <= t < |V| && V[t] >= 0 && 0 <= c < |gc| ::
      V[t] < |m| && IsNeighbor(m, V[t], gc[c])
  }

  /** Appending the class of one pass keeps both predicates. */
  lemma AppendClass(m: Matrix, gc: seq<seq<nat>>, V: seq<int>, V': seq<int>, S: seq<nat>)
    requires IsSquare(m)
    requires ClassesSoFar(m, gc) && UncolouredSeeAll(m, V, gc)
    requires |V'| == |V| && forall t | 0 <= t < |V| :: V'[t] == V[t] || V'[t] == -1
    requires |S| > 0 && GreedyClass(m, S)
    requires forall p | 0 <= p < |S| :: S[p] as int in V
    requires forall t | 0 <= t < |V'| && V'[t] >= 0 :: V'[t] < |m| && IsNeighbor(m, V'[t], S)
    ensures ClassesSoFar(m, gc + [S]) && UncolouredSeeAll(m, V', gc + [S])
  {
    var next := gc + [S];
    forall c1, c2, p | 0 <= c1 < c2 < |next| && 0 <= p < |next[c2]|
      ensures IsNeighbor(m, next[c2][p], next[c1])
    {
      if c2 < |gc| {
        assert next[c2] == gc[c2] && next[c1] == gc[c1];
      } else {
        var t :| 0 <= t < |V| && V[t] == S[p] as int;
        assert next[c1] == gc[c1];
      }
    }
    forall t, c | 0 <= t < |V'| && V'[t] >= 0 && 0 <= c < |next|
      ensures V'[t] < |m| && IsNeighbor(m, V'[t], next[c])
    {
      if c < |gc| {
        assert V'[t] == V[t] && next[c] == gc[c];
      }
    }
  }

  /** The members of the class of a pass over V are live entries of V. */
  lemma PassMembers(m: Matrix, V: seq<int>)
    requires IsSquare(m) && Entries(m, V)
    ensures var r := PassFrom(m, V, [], 0);
      forall p | 0 <= p < |r.1| :: r.1[p] as int in V
  {
    var r := PassFrom(m, V, [], 0);
    PassMultiset(m, V, [], 0);
    forall p | 0 <= p < |r.1|
      ensures r.1[p] as int in V
    {
      assert multiset(r.1) + multiset(Live(r.0)) == multiset(Live(V));
      assert r.1[p] in multiset(Live(V));
      LiveMember(V, r.1[p]);
    }
  }

  /** One pass of the outer loop keeps the loop's invariants. */
  lemma NextClass(m: Matrix, V: seq<int>, gc: seq<seq<nat>>)
    requires IsSquare(m) && Entries(m, V) && Live(V) != []
    requires ClassesSoFar(m, gc) && UncolouredSeeAll(m, V, gc)
    ensures var r := PassFrom(m, V, [], 0);
      ClassesSoFar(m, gc + [r.1]) && UncolouredSeeAll(m, r.0, gc + [r.1])
  {
    var r := PassFrom(m, V, [], 0);
    PassClass(m, V);
    PassNeighbours(m, V, [], 0);
    PassMembers(m, V);
    AppendClass(m, gc, V, r.0, r.1);
  }

  /** One pass moves vertices from the working list into the classes and loses none. */
  lemma NextClassAccounts(m: Matrix, V: seq<int>, gc: seq<seq<nat>>)
    requires IsSquare(m) && Entries(m, V)
    ensures var r := PassFrom(m, V, [], 0);
      multiset(Flatten(gc + [r.1])) + multiset(Live(r.0)) == multiset(Flatten(gc)) + multiset(Live(V))
  {
    var r := PassFrom(m, V, [], 0);
    PassMultiset(m, V, [], 0);
    assert multiset(r.1) + multiset(Live(r.0)) == multiset(Live(V));
    FlattenSnoc(gc, r.1);
    assert multiset(Flatten(gc + [r.1])) == multiset(Flatten(gc)) + multiset(r.1);
  }

  /** The class of a pass over a list still holding a vertex is greedy and non-empty. */
  lemma PassClass(m: Matrix, V: seq<int>)
    requires IsSquare(m) && Entries(m, V) && Live(V) != []
    ensures |PassFrom(m, V, [], 0).1| > 0 && GreedyClass(m, PassFrom(m, V, [], 0).1)
  {
    LiveHasVertex(V);
    PassNonEmpty(m, V, [], 0);
    PassGreedy(m, V, [], 0);
  }


  /** The outer loop from any state satisfying its invariants ends with a colour partition. */
  lemma {:induction false} ColourClassesCorrect(m: Matrix, V: seq<int>, gc: seq<seq<nat>>)
    requires IsSquare(m) && Entries(m, V)
    requires multiset(Flatten(gc)) + multiset(Live(V)) == multiset(Range(|m|))
    requires ClassesSoFar(m, gc) && UncolouredSeeAll(m, V, gc)
    ensures IsColourPartition(ColourClasses(m, V, gc), |m|)
    ensures ClassesSoFar(m, ColourClasses(m, V, gc))
    decreases |Live(V)|
  {
    GuardMeansUncoloured(V);
    if Sum(V) > -|V| {
      PassShrinks(m, V);
      NextClass(m, V, gc);
      NextClassAccounts(m, V, gc);
      var r := PassFrom(m, V, [], 0);
      ColourClassesCorrect(m, r.0, gc + [r.1]);
    }
  }

  /** What largest_first returns on a non-empty matrix. */
  ghost function LargestFirstClasses(m: Matrix): seq<seq<nat>>
    requires IsSquare(m) && |m| > 0
  {
    ColourClasses(m, Order(Degrees(m), |m|), [])
  }

  /**
   * The colouring of largest_first partitions the vertices into classes in
   * which no member has a neighbour placed before it, and every member of a
   * class has a neighbour in each earlier class.
   */
  lemma LargestFirstCorrect(m: Matrix)
    requires IsSquare(m) && |m| > 0
    ensures IsColourPartition(LargestFirstClasses(m), |m|)
    ensures forall c | 0 <= c < |LargestFirstClasses(m)| :: GreedyClass(m, LargestFirstClasses(m)[c])
    ensures FirstFit(m, LargestFirstClasses(m))
  {
    var order := Order(Degrees(m), |m|);
    OrderPermutation(Degrees(m), |m|);
    LiveOfVertices(order);
    assert Flatten([]) == [];
    ColourClassesCorrect(m, order, []);
  }

  /** One pass of the while loop of largest_first, scanning the working list once. */
  method ColourPass(m: Matrix, V: seq<int>) returns (V': seq<int>, S: seq<nat>)
    requires IsSquare(m) && Entries(m, V)
    ensures (V', S) == PassFrom(m, V, [], 0)
  {
    V' := V;
    S := [];
    for i := 0 to |V|
      invariant |V'| == |V| && Entries(m, V')
      invariant PassFrom(m, V', S, i) == PassFrom(m, V, [], 0)
    {
      // The source evaluates is_neighbor before testing V[i] >= 0; the call
      // has no effect, so the order of the two conjuncts does not matter.
      if V'[i] >= 0 && !IsNeighbor(m, V'[i], S) {
        S := S + [V'[i] as nat];
        V' := V'[i := -1];
      }
    }
  }

  /**
   * largest_first. Raises on an empty matrix; otherwise returns the classes of
   * the greedy colouring over the vertices in descending order of degree.
   */
  method LargestFirst(m: Matrix) returns (r: Outcome<seq<seq<nat>>>)
    requires IsSquare(m)
    ensures r.Failure? <==> |m| == 0
    ensures r.Success? ==> r.value == LargestFirstClasses(m)
    ensures r.Success? ==> IsColourPartition(r.value, |m|)
    ensures r.Success? ==> forall c | 0 <= c < |r.value| :: GreedyClass(m, r.value[c])
    ensures r.Success? ==> FirstFit(m, r.value)
  {
    if |m| == 0 {
      return Failure("There is no adjacency matrix.");
    }
    var order := SortVerticesDescendingByDegrees(m);
    var V: seq<int> := order;
    var graphColoured: seq<seq<nat>> := [];
    while Sum(V) > -|V|
      invariant Entries(m, V)
      invariant ColourClasses(m, V, graphColoured) == LargestFirstClasses(m)
      decreases |Live(V)|
    {
      GuardMeansUncoloured(V);
      PassShrinks(m, V);
      var V', S := ColourPass(m, V);
      graphColoured := graphColoured + [S];
      V := V';
    }
    GuardMeansUncoloured(V);
    LargestFirstCorrect(m);
    r := Success(graphColoured);
  }

  /** The second member of a greedy class has no positive entry towards the first. */
  lemma GreedyPair(m: Matrix, c: seq<nat>)
    ensures !(IsSquare(m) && GreedyClass(m, c) && |c| > 1 && m[c[1]][c[0]] > 0)
  {
    if IsSquare(m) && GreedyClass(m, c) && |c| > 1 {
      var p, q := 1, 0;
      assert m[c[p]][c[q]] <= 0;
    }
  }

  /** The first member of the second class has a neighbour in the first class. */
  lemma FirstFitSecondClass(m: Matrix, r: seq<seq<nat>>)
    ensures FirstFit(m, r) && |r| > 1 && |r[1]| > 0 ==> r[1][0] < |m| && IsNeighbor(m, r[1][0], r[0])
  {
    if FirstFit(m, r) && |r| > 1 && |r[1]| > 0 {
      var c1, c2, p := 0, 1, 0;
      assert r[c2][p] < |m|;
      assert IsNeighbor(m, r[c2][p], r[c1]);
    }
  }

  /** On an undirected graph, no class contains two adjacent vertices. */
  lemma GreedyClassProper(m: Matrix, c: seq<nat>)
    requires Symmetric(m) && GreedyClass(m, c)
    ensures forall p, q | 0 <= p < |c| && 0 <= q < |c| && p != q :: m[c[p]][c[q]] <= 0
  {
    forall p, q | 0 <= p < |c| && 0 <= q < |c| && p != q
      ensures m[c[p]][c[q]] <= 0
    {
      if p < q {
        assert m[c[q]][c[p]] <= 0;
      }
    }
  }

  /** The complete graph K_n ends up as n singleton classes. */
  lemma CompleteGraphSingletons(m: Matrix, r: seq<seq<nat>>)
    requires IsSquare(m) && forall i, j | 0 <= i < |m| && 0 <= j < |m| && i != j :: m[i][j] > 0
    requires IsColourPartition(r, |m|)
    requires forall c | 0 <= c < |r| :: GreedyClass(m, r[c])
    ensures |r| == |m|
    ensures forall c | 0 <= c < |r| :: |r[c]| == 1
  {
    PartitionDisjoint(r, |m|);
    PartitionCovers(r, |m|);
    forall c | 0 <= c < |r|
      ensures |r[c]| == 1
    {
      GreedyPair(m, r[c]);
    }
    FlattenLength(r);
    assert |Flatten(r)| == |multiset(Flatten(r))| == |multiset(Range(|m|))|;
  }

  /** A graph without edges ends up as a single class holding every vertex. */
  lemma EdgelessGraphOneClass(m: Matrix, r: seq<seq<nat>>)
    requires IsSquare(m) && |m| > 0 && forall i, j | 0 <= i < |m| && 0 <= j < |m| :: m[i][j] == 0
    requires IsColourPartition(r, |m|)
    requires FirstFit(m, r)
    ensures |r| == 1
  {
    ColourCountBounds(r, |m|);
    FirstFitSecondClass(m, r);
  }
}
