/**
 * d_satur: a DSatur-style colouring with a separation parameter k. Vertices
 * are coloured one at a time (most distinct neighbour colours first, ties by
 * degree), each with the least colour in 1 .. (k-1)(n-1)+1 that differs from
 * the colour of every coloured vertex at distance d by at least k - d.
 */
module DSaturAlgorithm {
  import opened Wrappers
  import opened AdjacencyMatrix
  import opened Colouring
  import opened Distance

  /** A colouring: colour 0 means not yet coloured. */
  type Colours = seq<nat>

  // ---------------------------------------------------------------------
  // vertices_with_max_saturation

  /** The distinct colours of the coloured neighbours (entry equal to 1) of v. */
  function NeighbourColours(m: Matrix, col: Colours, v: nat): set<nat>
    requires IsSquare(m) && |col| == |m| && v < |m|
  {
    set u | 0 <= u < |col| && m[v][u] == 1 && col[u] != 0 :: col[u]
  }

  /** The saturation of v: how many distinct colours its neighbours carry. */
  function Saturation(m: Matrix, col: Colours, v: nat): nat
    requires IsSquare(m) && |col| == |m| && v < |m|
  {
    |NeighbourColours(m, col, v)|
  }

  /** v is uncoloured and no uncoloured vertex has a higher saturation. */
  ghost predicate MaxSaturated(m: Matrix, col: Colours, v: nat)
    requires IsSquare(m) && |col| == |m| && v < |m|
  {
    col[v] == 0 &&
    forall u | 0 <= u < |col| && col[u] == 0 :: Saturation(m, col, u) <= Saturation(m, col, v)
  }

  predicate Increasing(s: seq<nat>) {
    forall p, q | 0 <= p < q < |s| :: s[p] < s[q]
  }

  /** The inner loop of vertices_with_max_saturation: the set of colours around v, counted. */
  method SaturationOf(m: Matrix, col: Colours, v: nat) returns (s: nat)
    requires IsSquare(m) && |col| == |m| && v < |m|
    ensures s == Saturation(m, col, v)
  {
    var vSet: set<nat> := {};
    for u := 0 to |col|
      invariant vSet == set w | 0 <= w < u && m[v][w] == 1 && col[w] != 0 :: col[w]
    {
      ghost var before := vSet;
      if m[v][u] == 1 && col[u] != 0 {
        vSet := vSet + {col[u]};
      }
      assert vSet == set w | 0 <= w < u + 1 && m[v][w] == 1 && col[w] != 0 :: col[w] by {
        forall x | x in set w | 0 <= w < u + 1 && m[v][w] == 1 && col[w] != 0 :: col[w]
          ensures x in vSet
        {
          var w :| 0 <= w < u + 1 && m[v][w] == 1 && col[w] != 0 && col[w] == x;
          if w < u {
            assert x in before;
          }
        }
      }
    }
    s := |vSet|;
  }

  /**
   * vertices_with_max_saturation: None when every vertex is coloured,
   * otherwise the uncoloured vertices of greatest saturation, in ascending
   * order.
   */
  method VerticesWithMaxSaturation(m: Matrix, col: Colours) returns (r: Option<seq<nat>>)
    requires IsSquare(m) && |col| == |m|
    ensures r.None? <==> forall v | 0 <= v < |col| :: col[v] != 0
    ensures r.Some? ==> |r.value| > 0 && Increasing(r.value)
    ensures r.Some? ==> forall p | 0 <= p < |r.value| :: r.value[p] < |col|
    ensures r.Some? ==> forall v | 0 <= v < |col| :: v in r.value <==> MaxSaturated(m, col, v)
  {
    var n := |col|;
    var temp: seq<nat> := [];
    var top := 0;
    for v := 0 to n
      invariant |temp| == v && forall u | 0 <= u < v :: temp[u] == Saturation(m, col, u)
      invariant forall u | 0 <= u < v :: temp[u] <= top
    {
      var s := SaturationOf(m, col, v);
      temp := temp + [s];
      if s > top {
        top := s;
      }
    }
    // The source visits the distinct saturations from the largest down;
    // a level that no vertex has yields nothing, so every level from the
    // largest down to 0 may be visited instead.
    var level: int := top;
    while level >= 0
      invariant level <= top
      invariant forall v | 0 <= v < n && col[v] == 0 :: temp[v] <= level
      decreases level + 1
    {
      var vertex: seq<nat> := [];
      for j := 0 to n
        invariant Increasing(vertex) && forall p | 0 <= p < |vertex| :: vertex[p] < j
        invariant forall x | 0 <= x < n :: x in vertex <==> x < j && temp[x] == level && col[x] == 0
      {
        // set(vertex) - set(list_coloured_vertex): keep the uncoloured ones.
        if temp[j] == level && col[j] == 0 {
          vertex := vertex + [j];
        }
      }
      if |vertex| > 0 {
        var w := vertex[0];
        assert w in vertex && temp[w] == level && col[w] == 0;
        assert forall v | 0 <= v < n :: v in vertex <==> MaxSaturated(m, col, v);
        return Some(vertex);
      }
      level := level - 1;
    }
    return None;
  }

  /**
   * The choice of d_satur among the candidates: the first of greatest degree
   * (a later candidate replaces the choice only with a strictly higher degree).
   */
  method PickByDegree(m: Matrix, V: seq<nat>) returns (choice: nat)
    requires IsSquare(m) && |V| > 0 && forall p | 0 <= p < |V| :: V[p] < |m|
    ensures choice in V
    ensures forall p | 0 <= p < |V| :: VertexDegree(m, V[p]) <= VertexDegree(m, choice)
    ensures exists at | 0 <= at < |V| && V[at] == choice ::
      forall q | 0 <= q < at :: VertexDegree(m, V[q]) < VertexDegree(m, choice)
  {
    choice := V[0];
    ghost var at := 0;
    if |V| > 1 {
      for i := 0 to |V|
        invariant 0 <= at < |V| && V[at] == choice
        invariant forall p | 0 <= p < i :: VertexDegree(m, V[p]) <= VertexDegree(m, choice)
        invariant forall q | 0 <= q < at :: VertexDegree(m, V[q]) < VertexDegree(m, choice)
      {
        if VertexDegree(m, V[i]) > VertexDegree(m, choice) {
          choice := V[i];
          at := i;
        }
      }
    }
  }

  // ---------------------------------------------------------------------
  // The colour of the chosen vertex

  /** A bound of a forbidden interval: an integer, or one of the infinities the source gets from float('inf'). */
  datatype Bound = NegInf | Fin(z: int) | PosInf

  /** The entry of colours_max for a coloured vertex of colour c at distance d: d - k + c. */
  function LowEnd(d: Dist, k: int, c: nat): Bound {
    if d.Inf? then PosInf else Fin(d.n - k + c)
  }

  /** The entry of colours_min for a coloured vertex of colour c at distance d: k - d + c. */
  function HighEnd(d: Dist, k: int, c: nat): Bound {
    if d.Inf? then NegInf else Fin(k - d.n + c)
  }

  /** colour lies strictly between the two bounds. */
  predicate Forbids(colour: int, low: Bound, high: Bound) {
    (low.NegInf? || (low.Fin? && colour > low.z)) &&
    (high.PosInf? || (high.Fin? && colour < high.z))
  }

  /** No pair of bounds forbids the colour. */
  predicate Admissible(colour: int, lows: seq<Bound>, highs: seq<Bound>)
    requires |lows| == |highs|
  {
    forall l | 0 <= l < |lows| :: !Forbids(colour, lows[l], highs[l])
  }

  /**
   * The colour search of d_satur: the least colour in 1 .. top that no pair
   * of bounds forbids, or None when every one of them is forbidden (where
   * the source repeats the search for ever).
   */
  method FirstAdmissibleColour(lows: seq<Bound>, highs: seq<Bound>, top: int) returns (r: Option<nat>)
    requires |lows| == |highs|
    ensures r.Some? ==> 1 <= r.value <= top && Admissible(r.value, lows, highs)
    ensures r.Some? ==> forall c | 1 <= c < r.value :: !Admissible(c, lows, highs)
    ensures r.None? ==> forall c | 1 <= c <= top :: !Admissible(c, lows, highs)
  {
    var colour := 1;
    while colour <= top
      invariant colour >= 1
      invariant forall c | 1 <= c < colour :: !Admissible(c, lows, highs)
    {
      var colourCorrect := true;
      for limit := 0 to |lows|
        invariant colourCorrect <==> forall l | 0 <= l < limit :: !Forbids(colour, lows[l], highs[l])
      {
        if Forbids(colour, lows[limit], highs[limit]) {
          colourCorrect := false;
          break;
        }
      }
      if colourCorrect {
        return Some(colour);
      }
      colour := colour + 1;
    }
    return None;
  }

  /**
   * The bounds gathered for the chosen vertex: one pair per coloured vertex,
   * the coloured vertices taken in ascending order (ghost owners), computed
   * from its distance (ghost dists) and its colour.
   */
  ghost predicate BoundsFor(m: Matrix, col: Colours, choice: nat, k: int,
                            lows: seq<Bound>, highs: seq<Bound>, owners: seq<nat>, dists: seq<Dist>)
  {
    |lows| == |highs| == |owners| == |dists| &&
    (forall l | 0 <= l < |lows| ::
      owners[l] < |col| && col[owners[l]] != 0 && IsDistance(m, choice, owners[l], dists[l]) &&
      lows[l] == LowEnd(dists[l], k, col[owners[l]]) && highs[l] == HighEnd(dists[l], k, col[owners[l]])) &&
    Increasing(owners) &&
    forall v | 0 <= v < |col| && col[v] != 0 :: v in owners
  }

  /** The loop of d_satur filling colours_max and colours_min. */
  method GatherBounds(m: Matrix, col: Colours, choice: nat, k: int)
    returns (lows: seq<Bound>, highs: seq<Bound>, ghost owners: seq<nat>, ghost dists: seq<Dist>)
    requires IsSquare(m) && |col| == |m| && choice < |m|
    ensures BoundsFor(m, col, choice, k, lows, highs, owners, dists)
    ensures |lows| == |highs| && (lows == [] <==> forall v | 0 <= v < |col| :: col[v] == 0)
  {
    lows, highs, owners, dists := [], [], [], [];
    for v := 0 to |col|
      invariant |lows| == |highs| == |owners| == |dists|
      invariant forall l | 0 <= l < |lows| ::
        owners[l] < |col| && col[owners[l]] != 0 && IsDistance(m, choice, owners[l], dists[l]) &&
        lows[l] == LowEnd(dists[l], k, col[owners[l]]) && highs[l] == HighEnd(dists[l], k, col[owners[l]])
      invariant forall u | 0 <= u < v && col[u] != 0 :: u in owners
      invariant Increasing(owners) && forall l | 0 <= l < |owners| :: owners[l] < v
    {
      if col[v] != 0 {
        var d := DistanceBetweenVertex(m, choice, v);
        lows := lows + [LowEnd(d, k, col[v])];
        highs := highs + [HighEnd(d, k, col[v])];
        owners := owners + [v];
        dists := dists + [d];
      }
    }
    if lows != [] {
      assert col[owners[0]] != 0;
    }
  }

  // ---------------------------------------------------------------------
  // The separation d_satur maintains

  function AbsDiff(a: int, b: int): nat {
    if a >= b then a - b else b - a
  }

  /**
   * Any two distinct coloured vertices joined by a walk of e edges have
   * colours at least k - e apart: their colours differ by at least k minus
   * their distance.
   */
  ghost predicate Separated(m: Matrix, col: Colours, k: int) {
    forall a, b, p | 0 <= a < |col| && 0 <= b < |col| && a != b && col[a] != 0 && col[b] != 0 &&
                     IsWalk(m, p, a, b) ::
      AbsDiff(col[a], col[b]) + (|p| - 1) >= k
  }

  /** Separation stated with the distance: colours at distance d differ by at least k - d. */
  lemma SeparationAtDistance(m: Matrix, col: Colours, k: int, a: nat, b: nat, d: nat)
    requires Separated(m, col, k)
    requires a < |col| && b < |col| && a != b && col[a] != 0 && col[b] != 0
    requires IsDistance(m, a, b, Finite(d))
    ensures AbsDiff(col[a], col[b]) >= k - d
  {
    var p :| IsWalk(m, p, a, b) && |p| == d + 1;
  }

  /** An admissible colour keeps every walk from the chosen vertex separated. */
  lemma AdmissibleFromChoice(m: Matrix, col: Colours, k: int, choice: nat, x: nat,
                             lows: seq<Bound>, highs: seq<Bound>, owners: seq<nat>, dists: seq<Dist>,
                             b: nat, p: seq<nat>)
    requires BoundsFor(m, col, choice, k, lows, highs, owners, dists) && Admissible(x, lows, highs)
    requires b < |col| && col[b] != 0 && IsWalk(m, p, choice, b)
    ensures AbsDiff(x, col[b]) + (|p| - 1) >= k
  {
    var l :| 0 <= l < |owners| && owners[l] == b;
    WalkBoundsDistance(m, choice, b, dists[l], p);
    assert !Forbids(x, lows[l], highs[l]);
  }

  /** Giving the chosen uncoloured vertex an admissible colour keeps the colouring separated. */
  lemma ColourKeepsSeparation(m: Matrix, col: Colours, k: int, choice: nat, x: nat,
                              lows: seq<Bound>, highs: seq<Bound>, owners: seq<nat>, dists: seq<Dist>)
    requires Symmetric(m) && |col| == |m| && choice < |m| && col[choice] == 0
    requires Separated(m, col, k)
    requires BoundsFor(m, col, choice, k, lows, highs, owners, dists) && Admissible(x, lows, highs)
    ensures Separated(m, col[choice := x], k)
  {
    var col' := col[choice := x];
    forall a, b, p | 0 <= a < |col'| && 0 <= b < |col'| && a != b && col'[a] != 0 && col'[b] != 0 &&
                     IsWalk(m, p, a, b)
      ensures AbsDiff(col'[a], col'[b]) + (|p| - 1) >= k
    {
      if a == choice {
        AdmissibleFromChoice(m, col, k, choice, x, lows, highs, owners, dists, b, p);
      } else if b == choice {
        WalkReverse(m, p, a, b);
        AdmissibleFromChoice(m, col, k, choice, x, lows, highs, owners, dists, a, Reverse(p));
      } else {
        assert col'[a] == col[a] && col'[b] == col[b];
      }
    }
  }

  /** No vertex coloured yet: [0]*n. */
  function Uncoloured(n: nat): (r: Colours)
    ensures |r| == n && forall v | 0 <= v < n :: r[v] == 0
  {
    seq(n, _ => 0)
  }

  lemma {:induction false} UncolouredCount(n: nat)
    ensures multiset(Uncoloured(n))[0] == n
  {
    if n > 0 {
      assert Uncoloured(n) == Uncoloured(n - 1) + [0];
      UncolouredCount(n - 1);
    }
  }

  /** A colouring with a single coloured vertex is separated. */
  lemma FirstColourSeparated(m: Matrix, n: nat, choice: nat, k: int)
    requires choice < n
    ensures Separated(m, Uncoloured(n)[choice := 1], k)
  {
  }

  // ---------------------------------------------------------------------
  // One round of d_satur, as a relation between colourings

  /**
   * choice is the vertex d_satur colours next: an uncoloured vertex of
   * greatest saturation, and among those the first of greatest degree.
   */
  ghost predicate Chosen(m: Matrix, col: Colours, choice: nat)
    requires IsSquare(m) && |col| == |m|
  {
    choice < |m| && MaxSaturated(m, col, choice) &&
    (forall v | 0 <= v < |m| && MaxSaturated(m, col, v) :: VertexDegree(m, v) <= VertexDegree(m, choice)) &&
    forall v | 0 <= v < choice && MaxSaturated(m, col, v) :: VertexDegree(m, v) < VertexDegree(m, choice)
  }

  /**
   * The coloured vertex v rules colour c out for choice: c lies strictly
   * between d - k + col[v] and k - d + col[v], where d is their distance.
   */
  ghost predicate ForbiddenBy(m: Matrix, col: Colours, k: int, choice: nat, c: int, v: nat) {
    v < |col| && col[v] != 0 &&
    exists d :: IsDistance(m, choice, v, d) && Forbids(c, LowEnd(d, k, col[v]), HighEnd(d, k, col[v]))
  }

  /** No coloured vertex rules colour c out for choice. */
  ghost predicate Permitted(m: Matrix, col: Colours, k: int, choice: nat, c: int) {
    forall v | 0 <= v < |col| :: !ForbiddenBy(m, col, k, choice, c, v)
  }

  /**
   * One round of d_satur colours the chosen vertex with x and changes nothing
   * else: x is 1 while no vertex is coloured, and otherwise the least colour
   * in 1 .. (k-1)(n-1)+1 that no coloured vertex rules out.
   */
  ghost predicate RoundWith(m: Matrix, col: Colours, k: int, choice: nat, x: nat, col': Colours)
    requires IsSquare(m) && |col| == |m|
  {
    Chosen(m, col, choice) && col' == col[choice := x] &&
    (col == Uncoloured(|m|) ==> x == 1) &&
    (col != Uncoloured(|m|) ==>
      1 <= x <= ColourBound(k, |m|) && Permitted(m, col, k, choice, x) &&
      forall c | 1 <= c < x :: !Permitted(m, col, k, choice, c))
  }

  ghost predicate Round(m: Matrix, col: Colours, k: int, col': Colours)
    requires IsSquare(m) && |col| == |m|
  {
    exists choice: nat, x: nat :: RoundWith(m, col, k, choice, x, col')
  }

  /**
   * Where the source searches for a colour for ever: some vertex is coloured,
   * and every colour in 1 .. (k-1)(n-1)+1 is ruled out for the chosen vertex.
   */
  ghost predicate Stuck(m: Matrix, col: Colours, k: int)
    requires IsSquare(m) && |col| == |m|
  {
    col != Uncoloured(|m|) &&
    exists choice: nat :: Chosen(m, col, choice) &&
      forall c | 1 <= c <= ColourBound(k, |m|) :: !Permitted(m, col, k, choice, c)
  }

  /** The colourings d_satur passes through: [0]*n first, then one round at a time. */
  ghost predicate Rounds(m: Matrix, k: int, trace: seq<Colours>)
    requires IsSquare(m)
    decreases |trace|
  {
    if |trace| <= 1 then trace == [Uncoloured(|m|)]
    else
      Rounds(m, k, trace[..|trace| - 1]) && |trace[|trace| - 2]| == |m| &&
      Round(m, trace[|trace| - 2], k, trace[|trace| - 1])
  }

  /** The colouring d_satur ends with: the colouring after n rounds. */
  ghost predicate DSaturResult(m: Matrix, k: int, col: Colours)
    requires IsSquare(m)
  {
    exists trace :: Rounds(m, k, trace) && |trace| == |m| + 1 && trace[|m|] == col
  }

  /** A round has one outcome: the vertex and its colour are determined. */
  lemma RoundDeterministic(m: Matrix, col: Colours, k: int, a: Colours, b: Colours)
    requires IsSquare(m) && |col| == |m|
    requires Round(m, col, k, a) && Round(m, col, k, b)
    ensures a == b
  {
    var c1: nat, x1: nat :| RoundWith(m, col, k, c1, x1, a);
    var c2: nat, x2: nat :| RoundWith(m, col, k, c2, x2, b);
    var d1, d2 := VertexDegree(m, c1), VertexDegree(m, c2);
    assert d1 == d2;
    assert c1 == c2;
    if col != Uncoloured(|m|) {
      assert x1 < x2 ==> !Permitted(m, col, k, c1, x1);
      assert x2 < x1 ==> !Permitted(m, col, k, c1, x2);
    }
  }

  /**
   * A round that colours a vertex and the stuck state exclude each other:
   * with the failure case of ColourNextVertex this makes it fail exactly
   * when the colouring is stuck.
   */
  lemma RoundExcludesStuck(m: Matrix, col: Colours, k: int, col': Colours)
    requires IsSquare(m) && |col| == |m| && Round(m, col, k, col')
    ensures !Stuck(m, col, k)
  {
    if col != Uncoloured(|m|) {
      var c1: nat, x: nat :| RoundWith(m, col, k, c1, x, col');
      forall c2: nat | Chosen(m, col, c2)
        ensures Permitted(m, col, k, c2, x)
      {
        var d1, d2 := VertexDegree(m, c1), VertexDegree(m, c2);
        assert d1 == d2;
        assert c1 == c2;
      }
    }
  }

  /** Every colouring on the way has n entries. */
  lemma {:induction false} RoundsLength(m: Matrix, k: int, trace: seq<Colours>)
    requires IsSquare(m) && Rounds(m, k, trace)
    ensures forall i | 0 <= i < |trace| :: |trace[i]| == |m|
    decreases |trace|
  {
    if |trace| > 1 {
      var init := trace[..|trace| - 1];
      RoundsLength(m, k, init);
      var next := trace[|trace| - 1];
      var c: nat, x: nat :| RoundWith(m, trace[|trace| - 2], k, c, x, next);
      assert forall i | 0 <= i < |trace| - 1 :: trace[i] == init[i];
    }
  }

  /** Two runs of the same number of rounds pass through the same colourings. */
  lemma {:induction false} RoundsUnique(m: Matrix, k: int, s: seq<Colours>, t: seq<Colours>)
    requires IsSquare(m) && Rounds(m, k, s) && Rounds(m, k, t) && |s| == |t|
    ensures s == t
    decreases |s|
  {
    if |s| > 1 {
      var last := |s| - 1;
      RoundsUnique(m, k, s[..last], t[..last]);
      assert s[last - 1] == s[..last][last - 1] && t[last - 1] == t[..last][last - 1];
      RoundDeterministic(m, s[last - 1], k, s[last], t[last]);
      assert s == s[..last] + [s[last]] && t == t[..last] + [t[last]];
    }
  }

  /** d_satur is a function of the matrix and k: it has one resulting colouring. */
  lemma DSaturResultUnique(m: Matrix, k: int, a: Colours, b: Colours)
    requires IsSquare(m) && DSaturResult(m, k, a) && DSaturResult(m, k, b)
    ensures a == b
  {
    var s :| Rounds(m, k, s) && |s| == |m| + 1 && s[|m|] == a;
    var t :| Rounds(m, k, t) && |t| == |m| + 1 && t[|m|] == b;
    RoundsUnique(m, k, s, t);
  }

  /** The gathered bounds admit exactly the colours that no coloured vertex rules out. */
  lemma AdmissiblePermitted(m: Matrix, col: Colours, k: int, choice: nat, x: int,
                            lows: seq<Bound>, highs: seq<Bound>, owners: seq<nat>, dists: seq<Dist>)
    requires BoundsFor(m, col, choice, k, lows, highs, owners, dists)
    ensures Admissible(x, lows, highs) <==> Permitted(m, col, k, choice, x)
  {
    if Admissible(x, lows, highs) {
      forall v | 0 <= v < |col|
        ensures !ForbiddenBy(m, col, k, choice, x, v)
      {
        if col[v] != 0 {
          var l :| 0 <= l < |owners| && owners[l] == v;
          forall d | IsDistance(m, choice, v, d)
            ensures !Forbids(x, LowEnd(d, k, col[v]), HighEnd(d, k, col[v]))
          {
            DistanceUnique(m, choice, v, d, dists[l]);
            assert !Forbids(x, lows[l], highs[l]);
          }
        }
      }
    } else {
      var l :| 0 <= l < |lows| && Forbids(x, lows[l], highs[l]);
      var v := owners[l];
      assert IsDistance(m, choice, v, dists[l]);
      assert ForbiddenBy(m, col, k, choice, x, v);
    }
  }

  /** The choice of d_satur among the vertices of greatest saturation is the chosen vertex. */
  lemma PickIsChosen(m: Matrix, col: Colours, V: seq<nat>, choice: nat)
    requires IsSquare(m) && |col| == |m| && Increasing(V)
    requires forall v | 0 <= v < |col| :: v in V <==> MaxSaturated(m, col, v)
    requires forall p | 0 <= p < |V| :: V[p] < |col|
    requires choice in V
    requires forall p | 0 <= p < |V| :: VertexDegree(m, V[p]) <= VertexDegree(m, choice)
    requires exists at | 0 <= at < |V| && V[at] == choice ::
      forall q | 0 <= q < at :: VertexDegree(m, V[q]) < VertexDegree(m, choice)
    ensures Chosen(m, col, choice)
  {
    forall v | 0 <= v < |m| && MaxSaturated(m, col, v)
      ensures VertexDegree(m, v) <= VertexDegree(m, choice)
    {
      var p :| 0 <= p < |V| && V[p] == v;
    }
    var at :| 0 <= at < |V| && V[at] == choice &&
      forall q | 0 <= q < at :: VertexDegree(m, V[q]) < VertexDegree(m, choice);
    forall v | 0 <= v < choice && MaxSaturated(m, col, v)
      ensures VertexDegree(m, v) < VertexDegree(m, choice)
    {
      var q :| 0 <= q < |V| && V[q] == v;
      assert q < at;
    }
  }

  // ---------------------------------------------------------------------
  // d_satur

  /** The number of colours d_satur may try: (k-1)(n-1)+1. */
  function ColourBound(k: int, n: nat): (r: int)
    ensures k >= 1 && n >= 1 ==> r >= 1
  {
    (k - 1) * (n - 1) + 1
  }

  /**
   * One round of the colouring loop of d_satur: an uncoloured vertex of
   * greatest saturation (the first of greatest degree among them) gets the
   * first admissible colour, or colour 1 while nothing is coloured. Fails
   * exactly where the source would search for a colour for ever.
   */
  method ColourNextVertex(m: Matrix, col: Colours, k: int) returns (r: Outcome<Colours>)
    requires IsSquare(m) && |col| == |m| && k >= 2
    requires multiset(col)[0] > 0
    requires forall v | 0 <= v < |m| && col[v] != 0 :: 1 <= col[v] <= ColourBound(k, |m|)
    ensures r.Success? ==> Round(m, col, k, r.value)
    ensures r.Failure? ==> Stuck(m, col, k)
    ensures r.Success? ==> |r.value| == |m| && multiset(r.value)[0] == multiset(col)[0] - 1
    ensures r.Success? ==> forall v | 0 <= v < |m| && r.value[v] != 0 :: 1 <= r.value[v] <= ColourBound(k, |m|)
    ensures r.Success? && Symmetric(m) && Separated(m, col, k) ==> Separated(m, r.value, k)
  {
    var n := |m|;
    assert 0 in multiset(col);
    var top := ColourBound(k, n);
    var V := VerticesWithMaxSaturation(m, col);
    var choice := PickByDegree(m, V.value);
    PickIsChosen(m, col, V.value, choice);
    assert col[choice] == 0;
    if col == Uncoloured(n) {
      FirstColourSeparated(m, n, choice, k);
      assert RoundWith(m, col, k, choice, 1, col[choice := 1]);
      return Success(col[choice := 1]);
    }
    var lows, highs, owners, dists := GatherBounds(m, col, choice, k);
    var colour := FirstAdmissibleColour(lows, highs, top);
    if colour.None? {
      forall c | 1 <= c <= top
        ensures !Permitted(m, col, k, choice, c)
      {
        AdmissiblePermitted(m, col, k, choice, c, lows, highs, owners, dists);
      }
      return Failure("no admissible colour: the search does not end");
    }
    var x := colour.value;
    AdmissiblePermitted(m, col, k, choice, x, lows, highs, owners, dists);
    forall c | 1 <= c < x
      ensures !Permitted(m, col, k, choice, c)
    {
      AdmissiblePermitted(m, col, k, choice, c, lows, highs, owners, dists);
    }
    assert RoundWith(m, col, k, choice, x, col[choice := x]);
    if Symmetric(m) && Separated(m, col, k) {
      ColourKeepsSeparation(m, col, k, choice, x, lows, highs, owners, dists);
    }
    return Success(col[choice := x]);
  }

  /** The state of the colouring loop of d_satur after t rounds, with the colourings passed through. */
  ghost predicate Progress(m: Matrix, k: int, t: nat, col: Colours, trace: seq<Colours>)
    requires IsSquare(m)
  {
    |col| == |m| && t <= |m| && multiset(col)[0] == |m| - t &&
    (forall v | 0 <= v < |m| && col[v] != 0 :: 1 <= col[v] <= ColourBound(k, |m|)) &&
    (Symmetric(m) ==> Separated(m, col, k)) &&
    Rounds(m, k, trace) && |trace| == t + 1 && trace[t] == col
  }

  /** A successful round advances the loop state by one. */
  lemma ProgressStep(m: Matrix, k: int, t: nat, col: Colours, trace: seq<Colours>, next: Colours)
    requires IsSquare(m) && Progress(m, k, t, col, trace) && t < |m|
    requires Round(m, col, k, next) && |next| == |m| && multiset(next)[0] == multiset(col)[0] - 1
    requires forall v | 0 <= v < |m| && next[v] != 0 :: 1 <= next[v] <= ColourBound(k, |m|)
    requires Symmetric(m) && Separated(m, col, k) ==> Separated(m, next, k)
    ensures Progress(m, k, t + 1, next, trace + [next])
  {
    assert (trace + [next])[..|trace|] == trace;
  }

  /** After n rounds every vertex is coloured: the result of d_satur, within the colour bound. */
  lemma ProgressDone(m: Matrix, k: int, col: Colours, trace: seq<Colours>)
    requires IsSquare(m) && Progress(m, k, |m|, col, trace)
    ensures DSaturResult(m, k, col)
    ensures forall v | 0 <= v < |m| :: 1 <= col[v] <= ColourBound(k, |m|)
  {
    assert !(0 in multiset(col));
    assert forall v | 0 <= v < |m| :: col[v] != 0;
  }

  /**
   * The colouring loop of d_satur, with k raised to at least 2. On success
   * the result is the colouring after n rounds, every vertex has a colour in
   * 1 .. (k-1)(n-1)+1, and on an undirected graph any two vertices at
   * distance d have colours at least k - d apart. Fails exactly when some
   * round gets stuck, where the source would search for a colour for ever.
   */
  method DSaturColouring(m: Matrix, k0: int) returns (r: Outcome<Colours>)
    requires IsSquare(m)
    ensures r.Success? ==> DSaturResult(m, Max2(k0), r.value)
    ensures r.Failure? ==>
      exists trace :: Rounds(m, Max2(k0), trace) && |trace| <= |m| &&
        |trace[|trace| - 1]| == |m| && Stuck(m, trace[|trace| - 1], Max2(k0))
    ensures r.Success? ==> |r.value| == |m|
    ensures r.Success? ==> forall v | 0 <= v < |m| :: 1 <= r.value[v] <= ColourBound(Max2(k0), |m|)
    ensures r.Success? && Symmetric(m) ==> Separated(m, r.value, Max2(k0))
  {
    var k := Max2(k0);
    var n := |m|;
    var col := Uncoloured(n);
    ghost var trace := [col];
    UncolouredCount(n);
    for t := 0 to n
      invariant Progress(m, k, t, col, trace)
    {
      var next := ColourNextVertex(m, col, k);
      if next.Failure? {
        assert trace[|trace| - 1] == col;
        return next;
      }
      ProgressStep(m, k, t, col, trace, next.value);
      trace := trace + [next.value];
      col := next.value;
    }
    ProgressDone(m, k, col, trace);
    return Success(col);
  }

  /** max(k, 2). */
  function Max2(k: int): (r: int)
    ensures r >= 2 && r >= k && (r == k || r == 2)
  {
    if k > 2 then k else 2
  }

  // ---------------------------------------------------------------------
  // From colours to colour classes

  /** The vertices below i of colour c, in ascending order. */
  function ClassOf(col: Colours, c: nat, i: nat): seq<nat>
    requires i <= |col|
  {
    if i == 0 then []
    else ClassOf(col, c, i - 1) + (if col[i - 1] == c then [i - 1] else [])
  }

  /** The class of c below i lists, in ascending order, exactly the vertices below i of colour c. */
  lemma {:induction false} ClassOfMembers(col: Colours, c: nat, i: nat)
    requires i <= |col|
    ensures var r := ClassOf(col, c, i);
      Increasing(r) && (forall p | 0 <= p < |r| :: r[p] < i && col[r[p]] == c) &&
      forall v | 0 <= v < i && col[v] == c :: v in r
  {
    if i > 0 {
      var b := i - 1;
      ClassOfMembers(col, c, b);
      var prev, r := ClassOf(col, c, b), ClassOf(col, c, i);
      if col[b] == c {
        assert r == prev + [b];
        forall p, q | 0 <= p < q < |r|
          ensures r[p] < r[q]
        {
          assert r[p] == prev[p];
        }
      } else {
        assert r == prev;
      }
    }
  }

  /** An ascending sequence holds each of its members exactly once. */
  lemma {:induction false} IncreasingCount(s: seq<nat>, v: nat)
    requires Increasing(s)
    ensures multiset(s)[v] == if v in s then 1 else 0
  {
    if s != [] {
      var t := s[..|s| - 1];
      assert s == t + [s[|s| - 1]];
      IncreasingCount(t, v);
    }
  }

  /** Every vertex of colour c is in its class once, and no other vertex is. */
  lemma ClassOfCount(col: Colours, c: nat, v: nat)
    ensures multiset(ClassOf(col, c, |col|))[v] == if v < |col| && col[v] == c then 1 else 0
  {
    ClassOfMembers(col, c, |col|);
    IncreasingCount(ClassOf(col, c, |col|), v);
  }

  /** The class of c is non-empty exactly when some vertex has colour c. */
  lemma ClassOfInUse(col: Colours, c: nat)
    ensures c in col <==> ClassOf(col, c, |col|) != []
  {
    var r := ClassOf(col, c, |col|);
    if c in col {
      var k :| 0 <= k < |col| && col[k] == c;
      ClassOfMembers(col, c, |col|);
      assert k in r;
    }
    if r != [] {
      ClassOfMembers(col, c, |col|);
      var v := r[0];
      assert col[v] == c;
      assert v < |col|;
      assert col[v] in col;
    }
  }

  /** The largest colour used, 0 for an empty colouring. */
  function MaxColour(col: Colours): (r: nat)
    ensures forall v | 0 <= v < |col| :: col[v] <= r
  {
    if col == [] then 0
    else var rest := MaxColour(col[..|col| - 1]); if col[|col| - 1] > rest then col[|col| - 1] else rest
  }

  /** The classes of the colours below c that are in use, in ascending order of colour. */
  function Grouped(col: Colours, c: nat): seq<seq<nat>> {
    if c == 0 then []
    else Grouped(col, c - 1) + (if c - 1 in col then [ClassOf(col, c - 1, |col|)] else [])
  }

  /** The colours below c that are in use, in ascending order. */
  ghost function ColoursInUse(col: Colours, c: nat): seq<nat> {
    if c == 0 then []
    else ColoursInUse(col, c - 1) + (if c - 1 in col then [c - 1] else [])
  }

  /** The i-th class gathered below c is the class of the i-th colour in use below c. */
  lemma {:induction false} GroupedShape(col: Colours, c: nat)
    ensures var classes, colours := Grouped(col, c), ColoursInUse(col, c);
      |classes| == |colours| &&
      forall i | 0 <= i < |classes| :: colours[i] < c && colours[i] in col && classes[i] == ClassOf(col, colours[i], |col|)
  {
    if c > 0 {
      GroupedShape(col, c - 1);
    }
  }

  /** The colours in use below c come in strictly ascending order. */
  lemma {:induction false} ColoursInUseAscending(col: Colours, c: nat)
    ensures var colours := ColoursInUse(col, c);
      forall i, j | 0 <= i < j < |colours| :: colours[i] < colours[j]
  {
    if c > 0 {
      ColoursInUseAscending(col, c - 1);
      GroupedShape(col, c - 1);
    }
  }

  /** Gathering colour c, when it is in use, adds the vertices of colour c. */
  lemma GroupedCountInUse(col: Colours, c: nat, v: nat)
    requires c in col
    ensures multiset(Flatten(Grouped(col, c + 1)))[v] ==
      multiset(Flatten(Grouped(col, c)))[v] + (if v < |col| && col[v] == c then 1 else 0)
  {
    var G, C := Grouped(col, c), ClassOf(col, c, |col|);
    assert Grouped(col, c + 1) == G + [C];
    FlattenSnocCount(G, C, v);
    ClassOfCount(col, c, v);
  }

  /** A colour c not in use adds nothing, and no vertex has it. */
  lemma GroupedCountUnused(col: Colours, c: nat, v: nat)
    requires c !in col
    ensures Grouped(col, c + 1) == Grouped(col, c) && !(v < |col| && col[v] == c)
  {
  }

  /** Between them the classes gathered below c hold once each exactly the vertices of a colour below c. */
  lemma {:induction false} GroupedCount(col: Colours, c: nat, v: nat)
    ensures multiset(Flatten(Grouped(col, c)))[v] == if v < |col| && col[v] < c then 1 else 0
  {
    if c == 0 {
      assert Flatten(Grouped(col, c)) == [];
    } else {
      var b := c - 1;
      GroupedCount(col, b, v);
      if b in col {
        GroupedCountInUse(col, b, v);
      } else {
        GroupedCountUnused(col, b, v);
      }
    }
  }

  /**
   * classes groups the vertices of col by colour: a partition of the
   * vertices into ascending classes, each of one colour, in ascending
   * order of colour.
   */
  ghost predicate ByColour(col: Colours, classes: seq<seq<nat>>) {
    IsColourPartition(classes, |col|) &&
    (forall c, p | 0 <= c < |classes| && 0 <= p < |classes[c]| :: classes[c][p] < |col|) &&
    (forall c | 0 <= c < |classes| :: Increasing(classes[c])) &&
    (forall c, p, q | 0 <= c < |classes| && 0 <= p < |classes[c]| && 0 <= q < |classes[c]| ::
      classes[c][p] < |col| && classes[c][q] < |col| && col[classes[c][p]] == col[classes[c][q]]) &&
    (forall c1, c2, p, q | 0 <= c1 < c2 < |classes| && 0 <= p < |classes[c1]| && 0 <= q < |classes[c2]| ::
      classes[c1][p] < |col| && classes[c2][q] < |col| && col[classes[c1][p]] < col[classes[c2][q]])
  }

  /** Once every colour in use is looked at, the classes partition the vertices. */
  lemma GroupedPartition(col: Colours, c: nat)
    requires forall v | 0 <= v < |col| :: col[v] < c
    ensures IsColourPartition(Grouped(col, c), |col|)
  {
    var n := |col|;
    var classes := Grouped(col, c);
    GroupedShape(col, c);
    forall v ensures multiset(Flatten(classes))[v] == multiset(Range(n))[v] {
      GroupedCount(col, c, v);
      RangeCount(n, v);
    }
    forall i | 0 <= i < |classes| ensures classes[i] != [] {
      ClassOfInUse(col, ColoursInUse(col, c)[i]);
    }
  }

  /** Each class gathered below c is ascending and holds vertices of its colour only. */
  lemma GroupedClasses(col: Colours, c: nat)
    ensures var classes, colours := Grouped(col, c), ColoursInUse(col, c);
      |classes| == |colours| &&
      forall i | 0 <= i < |classes| :: Increasing(classes[i]) &&
        forall p | 0 <= p < |classes[i]| :: classes[i][p] < |col| && col[classes[i][p]] == colours[i]
  {
    var classes, colours := Grouped(col, c), ColoursInUse(col, c);
    GroupedShape(col, c);
    forall i | 0 <= i < |classes|
      ensures Increasing(classes[i]) &&
        forall p | 0 <= p < |classes[i]| :: classes[i][p] < |col| && col[classes[i][p]] == colours[i]
    {
      ClassOfMembers(col, colours[i], |col|);
    }
  }

  /** What the finished grouping promises, read off the colours the classes were built from. */
  lemma GroupedFacts(col: Colours, c: nat)
    requires forall v | 0 <= v < |col| :: col[v] < c
    ensures ByColour(col, Grouped(col, c))
  {
    GroupedPartition(col, c);
    GroupedClasses(col, c);
    ColoursInUseAscending(col, c);
  }

  /**
   * The last loop of d_satur: one class per colour in use, holding the
   * vertices of that colour in ascending order; classes come in ascending
   * order of colour.
   */
  method GroupByColour(col: Colours) returns (classes: seq<seq<nat>>)
    ensures classes == Grouped(col, MaxColour(col) + 1)
    ensures ByColour(col, classes)
  {
    var n := |col|;
    classes := [];
    var top := MaxColour(col);
    var c := 0;
    while c <= top
      invariant c <= top + 1 && classes == Grouped(col, c)
    {
      // for colors in set(colouring): the colours in use, in ascending order.
      if c in col {
        classes := classes + [ClassOf(col, c, n)];
      }
      c := c + 1;
    }
    GroupedFacts(col, c);
  }

  /** Two adjacent coloured vertices of a separated colouring, with k at least 2, differ in colour. */
  lemma AdjacentColoursDiffer(m: Matrix, col: Colours, k: int, a: nat, b: nat)
    requires Separated(m, col, k) && k >= 2 && IsSquare(m) && |col| == |m|
    requires a < |m| && b < |m| && a != b && col[a] != 0 && col[b] != 0
    ensures m[a][b] == 1 ==> col[a] != col[b]
  {
    if m[a][b] == 1 {
      var p := [a, b];
      assert StepAt(m, p, 0);
      assert IsWalk(m, p, a, b);
    }
  }

  /**
   * Grouping a separated colouring of an undirected graph by colour, with k
   * at least 2, puts no two vertices joined by an entry equal to 1 in a class.
   */
  lemma ClassesProper(m: Matrix, col: Colours, k: int, classes: seq<seq<nat>>)
    requires Symmetric(m) && |col| == |m| && k >= 2
    requires forall v | 0 <= v < |m| :: col[v] != 0
    requires Separated(m, col, k) && ByColour(col, classes)
    ensures forall c, p, q | 0 <= c < |classes| && 0 <= p < |classes[c]| && 0 <= q < |classes[c]| && p != q ::
      m[classes[c][p]][classes[c][q]] != 1
  {
    forall c, p, q | 0 <= c < |classes| && 0 <= p < |classes[c]| && 0 <= q < |classes[c]| && p != q
      ensures m[classes[c][p]][classes[c][q]] != 1
    {
      assert classes[c][p] != classes[c][q] by {
        if p < q {
          assert classes[c][p] < classes[c][q];
        } else {
          assert classes[c][q] < classes[c][p];
        }
      }
      AdjacentColoursDiffer(m, col, k, classes[c][p], classes[c][q]);
    }
  }

  /**
   * classes are what d_satur returns for the colouring col: col is the
   * colouring after its n rounds, with every colour in 1 .. (k-1)(n-1)+1 and,
   * on an undirected graph, k-separated; classes group col by colour.
   */
  ghost predicate ClassesOfRun(m: Matrix, k: int, col: Colours, classes: seq<seq<nat>>)
    requires IsSquare(m)
  {
    DSaturResult(m, k, col) && |col| == |m| &&
    classes == Grouped(col, MaxColour(col) + 1) && ByColour(col, classes) &&
    (forall v | 0 <= v < |m| :: 1 <= col[v] <= ColourBound(k, |m|)) &&
    (Symmetric(m) ==> Separated(m, col, k))
  }

  /**
   * d_satur: the colour classes of the colouring. On an undirected graph no
   * class holds two vertices joined by an entry equal to 1.
   */
  method DSatur(m: Matrix, k: int) returns (r: Outcome<seq<seq<nat>>>)
    requires IsSquare(m)
    ensures r.Success? ==> exists col: Colours :: ClassesOfRun(m, Max2(k), col, r.value)
    ensures r.Failure? ==>
      exists trace :: Rounds(m, Max2(k), trace) && |trace| <= |m| &&
        |trace[|trace| - 1]| == |m| && Stuck(m, trace[|trace| - 1], Max2(k))
    ensures r.Success? ==> IsColourPartition(r.value, |m|)
    ensures r.Success? ==> forall c, p | 0 <= c < |r.value| && 0 <= p < |r.value[c]| :: r.value[c][p] < |m|
    ensures r.Success? && Symmetric(m) ==>
      forall c, p, q | 0 <= c < |r.value| && 0 <= p < |r.value[c]| && 0 <= q < |r.value[c]| && p != q ::
        m[r.value[c][p]][r.value[c][q]] != 1
  {
    var colouring := DSaturColouring(m, k);
    if colouring.Failure? {
      return Failure(colouring.error);
    }
    var col := colouring.value;
    var classes := GroupByColour(col);
    if Symmetric(m) {
      ClassesProper(m, col, Max2(k), classes);
    }
    assert ClassesOfRun(m, Max2(k), col, classes);
    return Success(classes);
  }
}
