/**
 * The dense adjacency matrix of an undirected, unweighted graph and the
 * read-only primitives of the Graph class: the symmetry check, vertex and
 * graph degree, the isolation of a vertex and the neighbour-of-a-set test.
 * Vertices are the indices 0 .. n-1.
 */
module AdjacencyMatrix {
  import opened Wrappers

  type Matrix = seq<seq<int>>

  predicate IsSquare(m: Matrix) {
    forall i | 0 <= i < |m| :: |m[i]| == |m|
  }

  /** Number of columns of a matrix whose rows all have the same length. */
  function Width(m: Matrix): nat {
    if |m| == 0 then 0 else |m[0]|
  }

  predicate IsRectangular(m: Matrix) {
    forall i | 0 <= i < |m| :: |m[i]| == Width(m)
  }

  function Transpose(m: Matrix): (t: Matrix)
    requires IsRectangular(m)
    ensures |t| == Width(m)
    ensures forall j | 0 <= j < |t| :: |t[j]| == |m|
    ensures forall i, j | 0 <= i < |m| && 0 <= j < Width(m) :: t[j][i] == m[i][j]
  {
    seq(Width(m), j requires 0 <= j < Width(m) =>
      seq(|m|, i requires 0 <= i < |m| => m[i][j]))
  }

  /** Square, with A[i][j] == A[j][i] everywhere: the matrix of an undirected graph. */
  ghost predicate Symmetric(m: Matrix) {
    IsSquare(m) && forall i, j | 0 <= i < |m| && 0 <= j < |m| :: m[i][j] == m[j][i]
  }

  /**
   * The matrix equals its transpose, shape included, as numpy's array_equal
   * decides it. A ragged list of rows is not a matrix and is reported as not
   * symmetric.
   */
  function IsAdjacencyMatrixSymmetric(m: Matrix): (b: bool)
    ensures b <==> Symmetric(m)
  {
    SymmetricIffEqualsTranspose(m);
    IsRectangular(m) && m == Transpose(m)
  }

  lemma SymmetricIffEqualsTranspose(m: Matrix)
    ensures (IsRectangular(m) && m == Transpose(m)) <==> Symmetric(m)
  {
    if Symmetric(m) {
      assert IsRectangular(m);
      var t := Transpose(m);
      assert |t| == |m|;
      forall i | 0 <= i < |m|
        ensures t[i] == m[i]
      {
        assert |t[i]| == |m[i]|;
        forall j | 0 <= j < |m| ensures t[i][j] == m[i][j] {
          assert t[i][j] == m[j][i];
        }
      }
    }
    if IsRectangular(m) && m == Transpose(m) {
      assert |m| == Width(m);
      forall i, j | 0 <= i < |m| && 0 <= j < |m|
        ensures m[i][j] == m[j][i]
      {
        assert Transpose(m)[i][j] == m[j][i];
      }
    }
  }

  /** The sum of a list of integers, Python's built-in sum. */
  function Sum(s: seq<int>): int {
    if s == [] then 0 else Sum(s[..|s| - 1]) + s[|s| - 1]
  }

  /** vertex_degree: the sum of row v, which on a 0/1 row counts the neighbours of v. */
  function VertexDegree(m: Matrix, v: nat): (d: int)
    requires v < |m|
    ensures IsZeroOne(m[v]) ==> d == |Neighbours(m[v])|
  {
    if IsZeroOne(m[v]) then DegreeCountsNeighbours(m[v]); Sum(m[v]) else Sum(m[v])
  }

  /** The vertices that row v marks as neighbours of v with an entry 1. */
  function Neighbours(row: seq<int>): set<nat> {
    set u: nat | u < |row| && row[u] == 1
  }

  predicate IsZeroOne(row: seq<int>) {
    forall u | 0 <= u < |row| :: row[u] == 0 || row[u] == 1
  }

  /** On a 0/1 row the degree is the number of neighbours. */
  lemma {:induction false} DegreeCountsNeighbours(row: seq<int>)
    requires IsZeroOne(row)
    ensures Sum(row) == |Neighbours(row)|
  {
    if row != [] {
      var init := row[..|row| - 1];
      DegreeCountsNeighbours(init);
      var last := |row| - 1;
      if row[last] == 1 {
        assert Neighbours(row) == Neighbours(init) + {last};
      } else {
        assert Neighbours(row) == Neighbours(init);
      }
    }
  }

  /** Column j, i.e. the entries A[i][j] for every row i. */
  function Column(m: Matrix, j: nat): (c: seq<int>)
    requires IsSquare(m) && j < |m|
    ensures |c| == |m| && forall i | 0 <= i < |m| :: c[i] == m[i][j]
  {
    seq(|m|, i requires 0 <= i < |m| => m[i][j])
  }

  /** numpy's sum over axis 0: one sum per column. */
  function ColumnSums(m: Matrix): (s: seq<int>)
    requires IsSquare(m)
    ensures |s| == |m| && forall j | 0 <= j < |m| :: s[j] == Sum(Column(m, j))
  {
    seq(|m|, j requires 0 <= j < |m| => Sum(Column(m, j)))
  }

  /** numpy's argmax: the first index of a largest element. */
  function ArgMax(s: seq<int>): (i: nat)
    requires |s| > 0
    ensures i < |s|
    ensures forall j | 0 <= j < |s| :: s[j] <= s[i]
    ensures forall j | 0 <= j < i :: s[j] < s[i]
  {
    if |s| == 1 then 0
    else
      var i := ArgMax(s[..|s| - 1]);
      if s[|s| - 1] > s[i] then |s| - 1 else i
  }

  /**
   * graph_degree: the largest column sum and the first vertex attaining it.
   * On an empty matrix numpy's column sum is the scalar 0.0, argmax of it is
   * 0, and indexing that scalar raises IndexError: modelled as None.
   */
  function GraphDegree(m: Matrix): (r: Option<(int, nat)>)
    requires IsSquare(m)
    ensures r.None? <==> |m| == 0
    ensures r.Some? ==> r.value.1 < |m| && r.value.0 == Sum(Column(m, r.value.1))
    ensures r.Some? ==> forall u | 0 <= u < |m| :: Sum(Column(m, u)) <= r.value.0
    ensures r.Some? ==> forall u | 0 <= u < r.value.1 :: Sum(Column(m, u)) < r.value.0
  {
    if |m| == 0 then None
    else
      var degree := ColumnSums(m);
      var vertex := ArgMax(degree);
      Some((degree[vertex], vertex))
  }

  /** On a symmetric matrix a column sum is the degree of the same vertex. */
  lemma ColumnSumIsDegree(m: Matrix, v: nat)
    requires Symmetric(m) && v < |m|
    ensures Sum(Column(m, v)) == VertexDegree(m, v)
  {
    assert Column(m, v) == m[v];
  }

  /** The matrix after delete_edges_connected_to_vertex(v): row v and column v zeroed. */
  function Isolated(m: Matrix, v: nat): (r: Matrix)
    requires IsSquare(m) && v < |m|
    ensures IsSquare(r) && |r| == |m|
    ensures forall i, j | 0 <= i < |m| && 0 <= j < |m| ::
      r[i][j] == if i == v || j == v then 0 else m[i][j]
  {
    seq(|m|, i requires 0 <= i < |m| =>
      seq(|m|, j requires 0 <= j < |m| => if i == v || j == v then 0 else m[i][j]))
  }

  lemma {:induction false} SumOfZeros(s: seq<int>)
    requires forall i | 0 <= i < |s| :: s[i] == 0
    ensures Sum(s) == 0
  {
    if s != [] {
      SumOfZeros(s[..|s| - 1]);
    }
  }

  /** Zeroing one entry lowers the sum by exactly that entry. */
  lemma {:induction false} SumClearOne(s: seq<int>, t: seq<int>, j: nat)
    requires j < |s| == |t| && t[j] == 0
    requires forall i | 0 <= i < |s| && i != j :: t[i] == s[i]
    ensures Sum(t) == Sum(s) - s[j]
  {
    var last := |s| - 1;
    if j == last {
      assert t[..last] == s[..last];
    } else {
      SumClearOne(s[..last], t[..last], j);
    }
  }

  /** After isolating v, v has degree 0. */
  lemma IsolatedDegreeZero(m: Matrix, v: nat)
    requires IsSquare(m) && v < |m|
    ensures VertexDegree(Isolated(m, v), v) == 0
  {
    SumOfZeros(Isolated(m, v)[v]);
  }

  /** After isolating v, every other vertex loses exactly its entry towards v. */
  lemma IsolatedNeighbourDegree(m: Matrix, v: nat, u: nat)
    requires IsSquare(m) && v < |m| && u < |m| && u != v
    ensures VertexDegree(Isolated(m, v), u) == VertexDegree(m, u) - m[u][v]
  {
    SumClearOne(m[u], Isolated(m, v)[u], v);
  }

  /** Isolating a vertex keeps an undirected graph undirected. */
  lemma IsolatedKeepsSymmetry(m: Matrix, v: nat)
    requires Symmetric(m) && v < |m|
    ensures Symmetric(Isolated(m, v))
  {
  }

  /** Some i in s is a column of row with a positive entry, scanning from column i. */
  function NeighborFrom(row: seq<int>, s: seq<nat>, i: nat): (b: bool)
    requires i <= |row|
    ensures b <==> exists j :: i <= j < |row| && j in s && row[j] > 0
    decreases |row| - i
  {
    if i == |row| then false
    else if i in s && row[i] > 0 then true
    else NeighborFrom(row, s, i + 1)
  }

  /** is_neighbor: vertex is adjacent (positive entry) to some vertex of s. */
  function IsNeighbor(m: Matrix, vertex: nat, s: seq<nat>): (b: bool)
    requires vertex < |m|
    ensures b <==> exists u :: 0 <= u < |m[vertex]| && u in s && m[vertex][u] > 0
  {
    NeighborFrom(m[vertex], s, 0)
  }
}
