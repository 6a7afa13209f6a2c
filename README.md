# Graph colouring on an adjacency matrix — a Dafny model

The modelled program holds an undirected, unweighted graph as an adjacency
matrix inside a `Graph` object. On top of the matrix it offers:

- a symmetry test;
- vertex and graph degrees;
- isolation of a vertex (deleting every edge at it);
- an is-neighbour test;
- two colouring heuristics:
  - **Largest First**: greedy colour classes over the vertices ordered by
    non-increasing degree, with the ordering done by a hand-written insertion
    procedure;
  - **DSatur**, in its distance-k form: an uncoloured vertex of greatest
    saturation, ties broken by degree, gets the least colour that keeps its
    colour at least `k - d` away from every coloured vertex at distance `d`.
    The distances come from a Dijkstra-style search over unit edges.

The model is split into these modules:

- `Wrappers`: `Option` and `Outcome`.
- `AdjacencyMatrix`: the matrix as `seq<seq<int>>`, symmetry, degrees,
  isolation and the neighbour test.
- `GraphModel`: the `Graph` class whose `matrix` field the source mutates in
  place.
- `Colouring`: colour classes as a partition of the vertices `0 .. n-1`.
- `DegreeOrder`: the insertion ordering.
- `LargestFirstAlgorithm`: Largest First.
- `Distance`: the shortest-walk search.
- `DSaturAlgorithm`: the DSatur loop and the grouping of colours into classes.

Each algorithm is written as the source writes it: methods with loops that
carry their invariants. Each method is proved against a specification
function or predicate (for example `Order`, `PassFrom`, `Grouped`,
`IsDistance` or `Separated`), and lemmas state what that specification
promises.

Where the Python code relies on raising an exception, the model returns an
`Outcome` failure or an `Option` `None` instead. Three cases are handled this
way:

- `graph_degree` on an empty matrix: numpy's column sum is then the scalar
  0.0, its argmax is 0, and indexing the scalar raises IndexError;
- the explicit raise of `largest_first`;
- the colour search of `d_satur` when no colour is admissible. The source
  repeats that search for ever.

## Model

| member | source | states |
|---|---|---|
| AdjacencyMatrix.IsAdjacencyMatrixSymmetric | source/Graph.py:60-70 | true exactly when every row is as long as the matrix and entry (i, j) equals entry (j, i) for all i, j |
| GraphModel.Graph.constructor | source/Graph.py:10-22 | a non-empty symmetric literal matrix is kept (and is symmetric); otherwise the matrix loaded from the path is used, or the empty matrix when no path is given |
| AdjacencyMatrix.VertexDegree | source/Graph.py:102-111 | the degree is the row sum, which on a 0/1 row is the number of neighbours of the vertex |
| AdjacencyMatrix.DegreeCountsNeighbours | source/Graph.py:102-111 | on a 0/1 row the degree (row sum) equals the number of neighbours |
| AdjacencyMatrix.GraphDegree | source/Graph.py:113-122 | None exactly on the empty matrix; otherwise the largest column sum together with the first vertex attaining it |
| AdjacencyMatrix.ColumnSumIsDegree | source/Graph.py:113-122 | on a symmetric matrix the column sum reported by graph_degree is the vertex degree of that vertex |
| GraphModel.Graph.DeleteEdgesConnectedToVertex | source/Graph.py:124-135 | the new matrix is the old one with row and column `vertex` zeroed and every other entry unchanged |
| AdjacencyMatrix.IsolatedDegreeZero | source/Graph.py:124-135 | after isolation the vertex has degree 0 |
| AdjacencyMatrix.IsolatedNeighbourDegree | source/Graph.py:124-135 | after isolating v, every other vertex u loses exactly its entry towards v from its degree |
| AdjacencyMatrix.IsolatedKeepsSymmetry | source/Graph.py:124-135 | isolating a vertex keeps a symmetric matrix symmetric |
| GraphModel.IsolateThroughObject | source/Graph.py:124-135 | isolating a vertex of an undirected graph through the object leaves its degree 0 and the matrix symmetric and of the same size |
| AdjacencyMatrix.IsNeighbor | source/Graph.py:162-175 | true exactly when some vertex of the list is a column of the vertex's row with a positive entry |
| DegreeOrder.InsertionPoint | source/Graph.py:148-157 | the new vertex goes before the first listed vertex of degree at most its own; every vertex before that point has a strictly larger degree |
| DegreeOrder.InsertVertex | source/Graph.py:144-159 | one pass of the inner loop yields the old list with the vertex inserted at its insertion point |
| DegreeOrder.SortVerticesDescendingByDegrees | source/Graph.py:137-160 | [0] on an empty matrix; otherwise a permutation of the vertices in which an earlier vertex has a larger degree, or the same degree and a larger index |
| DegreeOrder.OrderCount | source/Graph.py:137-160 | after inserting vertices 0 .. k-1 every vertex below k appears exactly once and no other vertex appears |
| DegreeOrder.OrderPermutation | source/Graph.py:137-160 | the ordering is a permutation of 0 .. k-1 |
| DegreeOrder.OrderRanked | source/Graph.py:137-160 | the ordering is strictly ranked: non-increasing degree, and among equal degrees the larger index first |
| DegreeOrder.PathOrderExample | source/Graph.py:137-160 | the path 0-1-2-3 (degrees 1, 2, 2, 1) is ordered 2, 1, 3, 0 |
| LargestFirstAlgorithm.GuardMeansUncoloured | source/Graph.py:186 | with every entry a vertex or -1, the loop guard sum(V) > -len(V) holds exactly when some vertex is still uncoloured |
| LargestFirstAlgorithm.PassFrom | source/Graph.py:187-191 | a pass only overwrites entries with -1, leaves the already scanned entries alone, and only extends the class |
| LargestFirstAlgorithm.PassMultiset | source/Graph.py:187-191 | the vertices leaving the working list are exactly the vertices joining the class |
| LargestFirstAlgorithm.PassGreedy | source/Graph.py:187-191 | a pass keeps the class free of any positive entry from a member towards an earlier member |
| LargestFirstAlgorithm.PassNeighbours | source/Graph.py:187-191 | every scanned entry still uncoloured after the pass has a neighbour in the class |
| LargestFirstAlgorithm.ColourPass | source/Graph.py:187-191 | the for loop computes exactly the pass of the specification |
| LargestFirstAlgorithm.LargestFirstCorrect | source/Graph.py:177-194 | the classes partition the vertices; no member of a class has a neighbour placed before it in the class; every member of a class is adjacent to some vertex of each earlier class |
| LargestFirstAlgorithm.LargestFirst | source/Graph.py:177-194 | fails exactly on the empty matrix; otherwise returns the greedy classes, which form a proper partition with the first-fit property |
| LargestFirstAlgorithm.GreedyClassProper | source/Graph.py:177-194 | on a symmetric matrix a greedy class (every class Largest First builds is one) holds no two distinct members joined by a positive entry |
| LargestFirstAlgorithm.CompleteGraphSingletons | source/Graph.py:177-194 | on a complete graph every greedy colour partition, and so Largest First's, has single-vertex classes and exactly n of them |
| LargestFirstAlgorithm.EdgelessGraphOneClass | source/Graph.py:177-194 | on a non-empty graph without edges a first-fit colour partition, and so Largest First's, is a single class |
| Colouring.PartitionDisjoint | source/Graph.py:177-194 | in a colour partition no vertex lies twice in a class or in two classes |
| Colouring.PartitionCovers | source/Graph.py:177-194 | in a colour partition every vertex lies in some class, and only vertices do |
| Colouring.ColourCountBounds | source/Graph.py:177-194 | a colour partition of n vertices has at most n classes, and at least one when n > 0 |
| Distance.ClosestUnvisited | source/Graph.py:207-211 | the first unvisited vertex of least finite distance, or None exactly when every unvisited vertex is at infinity |
| Distance.RelaxNeighbours | source/Graph.py:223-228 | the new distances are the old ones lowered to d(c)+1 along every entry of c's row equal to 1 |
| Distance.DistanceBetweenVertex | source/Graph.py:196-228 | the result is the length of a shortest walk along entries equal to 1, or Inf exactly when there is no such walk |
| Distance.DistanceUnique | source/Graph.py:196-228 | the distance between two vertices is unique |
| Distance.DistanceToSelf | source/Graph.py:196-228 | every vertex is at distance 0 from itself |
| Distance.DistanceOne | source/Graph.py:196-228 | two distinct vertices are at distance 1 exactly when the entry between them is 1 |
| Distance.DistanceSymmetric | source/Graph.py:196-228 | on a symmetric matrix the distance from u to v equals the distance from v to u |
| Distance.DistanceReversed | source/Graph.py:196-228 | on a symmetric matrix a distance from u to v is also the distance from v to u |
| DSaturAlgorithm.SaturationOf | source/Graph.py:233-239 | the saturation is the number of distinct non-zero colours on the vertex's neighbours |
| DSaturAlgorithm.VerticesWithMaxSaturation | source/Graph.py:230-244 | None exactly when every vertex is coloured; otherwise the ascending list of exactly the uncoloured vertices of greatest saturation |
| DSaturAlgorithm.PickByDegree | source/Graph.py:253-258 | the choice is a candidate of greatest degree, and the first one of that degree |
| DSaturAlgorithm.GatherBounds | source/Graph.py:263-268 | one pair of bounds d - k + c and k - d + c per coloured vertex, taking the coloured vertices in ascending order, computed from each one's true distance to the chosen vertex and its colour; no pairs exactly when nothing is coloured |
| DSaturAlgorithm.FirstAdmissibleColour | source/Graph.py:271-282 | the least colour in 1 .. (k-1)(n-1)+1 that no pair of bounds forbids, or None exactly when all of them are forbidden |
| DSaturAlgorithm.SeparationAtDistance | source/Graph.py:263-282 | in a separated colouring, two coloured vertices at distance d have colours at least k - d apart |
| DSaturAlgorithm.ColourKeepsSeparation | source/Graph.py:263-282 | on a symmetric matrix, giving the chosen vertex an admissible colour keeps the colouring separated |
| DSaturAlgorithm.AdjacentColoursDiffer | source/Graph.py:248-282 | with k at least 2, two adjacent coloured vertices of a separated colouring have different colours |
| DSaturAlgorithm.PickIsChosen | source/Graph.py:253-258 | the candidate picked among the vertices of greatest saturation is an uncoloured vertex of greatest saturation, of greatest degree among those, and the first such |
| DSaturAlgorithm.AdmissiblePermitted | source/Graph.py:263-282 | a colour passes the test against the gathered bounds exactly when no coloured vertex rules it out at its true distance |
| DSaturAlgorithm.ColourNextVertex | source/Graph.py:252-282 | one round colours only the chosen vertex: with 1 while nothing is coloured, otherwise with the least colour in 1 .. (k-1)(n-1)+1 that no coloured vertex rules out. It fails exactly when every such colour is ruled out. The round colours one more vertex and keeps a separated colouring separated on a symmetric matrix |
| DSaturAlgorithm.RoundExcludesStuck | source/Graph.py:252-282 | a colouring from which a round colours a vertex is never stuck, so a round succeeds exactly when the colouring is not stuck |
| DSaturAlgorithm.RoundDeterministic | source/Graph.py:252-282 | a round has a single outcome: the vertex it colours and the colour it gives are determined |
| DSaturAlgorithm.RoundsUnique | source/Graph.py:251-282 | two runs of the same number of rounds from [0]*n pass through the same colourings |
| DSaturAlgorithm.DSaturResultUnique | source/Graph.py:248-282 | d_satur has a single resulting colouring for a given matrix and k |
| DSaturAlgorithm.ProgressStep | source/Graph.py:251-282 | a successful round advances the loop state: one more vertex coloured, colours in range, separation kept, and the new colouring appended to the run |
| DSaturAlgorithm.ProgressDone | source/Graph.py:251-282 | after n rounds every vertex has a colour in 1 .. (k-1)(n-1)+1 and the colouring is the result of the n rounds |
| DSaturAlgorithm.DSaturColouring | source/Graph.py:248-282 | with k raised to at least 2, on success the result is the colouring after n rounds. Every vertex then has a colour in 1 .. (k-1)(n-1)+1, and on a symmetric matrix any two vertices at distance d have colours at least k - d apart. It fails exactly when a round gets stuck |
| DSaturAlgorithm.Max2 | source/Graph.py:249 | k is raised to 2 when smaller and is otherwise kept |
| DSaturAlgorithm.ClassOfMembers | source/Graph.py:285 | the class of colour c is ascending and holds exactly the vertices of colour c |
| DSaturAlgorithm.GroupedCount | source/Graph.py:283-286 | after grouping the colours below c, each vertex of such a colour appears exactly once and nothing else appears |
| DSaturAlgorithm.GroupedFacts | source/Graph.py:283-286 | grouping every colour in use gives a partition of the vertices into ascending single-colour classes, ordered by colour |
| DSaturAlgorithm.GroupByColour | source/Graph.py:283-286 | the last loop returns one ascending class per colour in use, in ascending order of colour, partitioning the vertices |
| DSaturAlgorithm.ClassesProper | source/Graph.py:283-286 | grouping a separated colouring of an undirected graph by colour, with k at least 2, leaves no two vertices joined by an entry equal to 1 in one class |
| DSaturAlgorithm.DSatur | source/Graph.py:248-286 | on success the classes are the by-colour grouping of the colouring after n rounds. That colouring has every colour in 1 .. (k-1)(n-1)+1 and is k-separated on a symmetric matrix. The classes partition the vertices, and on a symmetric matrix no class holds two vertices joined by an entry equal to 1. On failure some round got stuck |

## Left out

- Reading and writing the matrix file (`load_adjacency_matrix`, `save_adjacency_matrix`) is file I/O. The constructor takes the already-loaded matrix as a parameter.
- `generate_random_graph` depends on randomness and is not modelled.
- Drawing the graph (`create_node_colors`, the networkx/matplotlib calls) and `Main.py` are outside the model.
- Python list aliasing and numpy arrays are not modelled. Matrices are immutable sequences, and the only in-place update is the reassignment of `Graph.matrix`.
- Ragged matrices: `IsAdjacencyMatrixSymmetric` reports them as not symmetric. This is the model's own choice. In the source, `np.transpose` of a ragged list raises ValueError from numpy 1.24 on, and older numpy builds an object array whose comparison with itself depends on the numpy version.
- GraphModel.Graph.DeleteEdgesConnectedToVertex requires a square matrix and 0 <= vertex < n. The source also runs on other inputs, which are not modelled: a negative vertex -n <= v < 0 isolates vertex n+v through Python's negative indexing, rows longer than n leave their extra entries alone, and a row other than row `vertex` that is shorter than n but longer than `vertex` is accepted (`[[0,1,1],[1,0,1],[1,1]]` with vertex 0 gives `[[0,0,0],[0,0,1],[0,1]]`). On the empty matrix the loop never runs, so every vertex is accepted and nothing changes. When n > 0, IndexError is raised by a vertex >= n or < -n, by a row `vertex` shorter than n, and by any row no longer than `vertex`.
- AdjacencyMatrix.DegreeCountsNeighbours: the degree equals the neighbour count only on 0/1 rows. Other entries are summed as they are, exactly as the source sums them.
- LargestFirstAlgorithm.ColourPass tests `V[i] >= 0` before calling `is_neighbor`, whereas the source calls it first. The call has no effect, so the result is the same.
- LargestFirstAlgorithm.LargestFirstCorrect does not prove that the number of classes is bounded by the clique number or by the largest degree plus one. Only the complete and edgeless extremes are proved.
- Distance.DistanceBetweenVertex requires a square matrix and both vertices in 0 .. n-1. The source also runs on other inputs, which are not modelled: a second vertex outside that range is never the current vertex, so the source returns `float('inf')`, and a negative first vertex -n <= v < 0 starts the search from vertex n+v.
- DSaturAlgorithm.ColourNextVertex: when no colour up to (k-1)(n-1)+1 is admissible, the source repeats the search forever. The model returns a Failure there (`Stuck`). The model does not prove when, or whether, that situation arises.
- DSaturAlgorithm.DSaturColouring computes the distance from the chosen vertex once per coloured vertex, whereas the source computes it twice with identical results. The unused `mini`/`maks` (the max and min of the bound lists) are not computed.
- DSaturAlgorithm.DSatur guarantees proper classes only on symmetric matrices. Separation is stated for walks in both directions, and that needs an undirected graph.
- Set iteration order: the model fixes ascending order as its own convention wherever the source iterates a Python set. This covers the candidate list returned by `vertices_with_max_saturation`, on which the degree tie-break depends, and the order of the colour classes in `d_satur`. CPython's own order follows the hash table and is not always ascending, for instance `list({1, 8})` is `[8, 1]`. The candidate list, and with it the first-of-greatest-degree choice, can differ from the model's once there are 9 or more vertices. The class order can differ as soon as a colour of 8 or more is used. For example, on the single edge `[[0,1],[1,0]]` with k = 8 the colouring is `[1, 8]`, and the source returns `[[1], [0]]` where `DSatur` returns `[[0], [1]]`.
- AdjacencyMatrix.GraphDegree, SortVerticesDescendingByDegrees, LargestFirst and DSatur require a square matrix. The source's column sum and argmax in `graph_degree` run on any rectangular matrix with at least one column: `[[1,1,1]]` gives `(1, 0)`. A matrix of empty rows such as `[[]]` has an empty column-sum array, and `np.argmax` of it raises ValueError. The source also runs on some non-square matrices, such as ones whose rows are longer than n; those inputs are not modelled.
- VerticesWithMaxSaturation scans every saturation level from the largest down to 0 instead of the distinct levels that occur. A level no uncoloured vertex has yields nothing, so the result is the same.
