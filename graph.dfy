/**
 * The Graph object: it owns the adjacency matrix, which the source mutates
 * in place only to isolate a vertex. Loading a matrix from a text file is
 * outside the model: the constructor is handed the already-parsed result.
 */
module GraphModel {
  import opened Wrappers
  import opened AdjacencyMatrix

  class Graph {
    var matrix: Matrix

    /**
     * A literal matrix is kept when it is non-empty and symmetric; otherwise
     * the matrix read from the file is used when a path was given (loaded is
     * Some), and the empty matrix when not.
     */
    constructor (adjacencyMatrix: Matrix, loaded: Option<Matrix>)
      ensures |adjacencyMatrix| > 0 && IsAdjacencyMatrixSymmetric(adjacencyMatrix) ==>
        matrix == adjacencyMatrix && Symmetric(matrix)
      ensures !(|adjacencyMatrix| > 0 && IsAdjacencyMatrixSymmetric(adjacencyMatrix)) ==>
        matrix == if loaded.Some? then loaded.value else []
    {
      if |adjacencyMatrix| > 0 && IsAdjacencyMatrixSymmetric(adjacencyMatrix) {
        matrix := adjacencyMatrix;
      } else if loaded.Some? {
        matrix := loaded.value;
      } else {
        matrix := [];
      }
    }

    /**
     * delete_edges_connected_to_vertex: zero row and column vertex, cell by
     * cell; every other entry is left as it was.
     */
    method DeleteEdgesConnectedToVertex(vertex: nat)
      requires IsSquare(matrix) && vertex < |matrix|
      modifies this
      ensures matrix == Isolated(old(matrix), vertex)
    {
      var n := |matrix|;
      for i := 0 to n
        invariant |matrix| == n && IsSquare(matrix)
        invariant forall a, b | 0 <= a < n && 0 <= b < n ::
          matrix[a][b] == if (a == vertex && b < i) || (b == vertex && a < i) then 0 else old(matrix)[a][b]
      {
        matrix := matrix[vertex := matrix[vertex][i := 0]];
        matrix := matrix[i := matrix[i][vertex := 0]];
      }
      assert forall a | 0 <= a < n :: matrix[a] == Isolated(old(matrix), vertex)[a];
    }
  }

  /** Isolating a vertex through the object: its degree drops to 0 and symmetry survives. */
  method IsolateThroughObject(g: Graph, v: nat)
    requires Symmetric(g.matrix) && v < |g.matrix|
    modifies g
    ensures |g.matrix| == old(|g.matrix|)
    ensures Symmetric(g.matrix) && VertexDegree(g.matrix, v) == 0
  {
    g.DeleteEdgesConnectedToVertex(v);
    IsolatedDegreeZero(old(g.matrix), v);
    IsolatedKeepsSymmetry(old(g.matrix), v);
  }
}
