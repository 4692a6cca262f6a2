# CS230 coursework graph and logic routines in Dafny

This project models four small, independent Python modules from a discrete
mathematics course and proves properties of them. All routines are pure or
nearly so. Python's in-place mutation (the DFS `path` and `visited`, the
matrix edited by `findMST`) becomes values that are passed in and returned.

- **hw8.py: cycle-breaking spanning tree.** A graph is a weight matrix
  `seq<seq<Option<int>>>`, where `None` means no edge.
  - `GraphModel` holds the shape predicates, `isSymmetric`, `neighbors` and
    the vocabulary of walks, reachability and cycles.
  - `CycleFinder` models the recursive DFS `findCycleFrom`, and `findCycle`
    and `isConnected` built on it. A ghost search forest (parent and depth
    maps) carries the completeness argument.
  - `MstEngine` models `findMST`: the heaviest-edge scan with its
    minus-ten-to-the-ninetieth starting value and strict `>`, the symmetric
    deletion, and the early stop on the count of Python-truthy cells.
  - `MstExamples` holds the handout graph and the triangle the script runs
    `findMST` on.
- **hw6.py: graph representations.** `GraphConvert` covers the empty,
  complete and example graphs over `V = [0..n-1]` and the three converters
  (adjacency list, 0/1 adjacency matrix, degree list). It proves they agree
  with each other and with the handshake identity.
- **hw3.py: truth tables and DNF.**
  - `TruthTable` enumerates the assignments in `itertools.product([True, False], repeat=n)` order, defined recursively, and builds `generateTable` with `f` as a function parameter.
  - `Dnf` models the string building of `convertToDNF`. It renders `str(i)`, `" ^ "`, `" v "` and Python's `[:-3]` slice explicitly. It proves that the output is the reference rendering of the true rows, and that this DNF is equivalent to `f`.
- **hw4.py: relation properties.** `RelationProps` covers the six checks over a list `A` and a list of pairs `R`. Each is proved equal to its quantifier definition, and the implications between them are proved too.

Python `assert` statements on the inputs (hw8.py:23-24, 105-106) become `requires` clauses; the two on the search state (hw8.py:115, 132) are asserted in the model and proved from the search invariant.

## Model

| member | source | states |
|---|---|---|
| GraphModel.IsSymmetric | hw8.py:42-52 | true exactly when every row has length n and M[i][j] == M[j][i] for all i, j |
| GraphModel.Neighbors | hw8.py:138-146 | returns exactly the columns v with M[u][v] not None, in strictly ascending order |
| CycleFinder.FindCycleFrom | hw8.py:82-135 | requires v off the path and unvisited. The path is restored on exit, v and everything newly visited is reachable from v, and visited only grows. A reported cycle is a cycle of M (length >= 3, distinct, closed) and a tail of a simple walk extending path + [v]. With no cycle reported, every edge out of a finished vertex is a search-tree edge |
| CycleFinder.ScanNeighbor | hw8.py:112-130 | one neighbour step keeps the search invariant. A neighbour on the path other than path[-2] makes a cycle be recorded, and a recorded cycle is never lost |
| CycleFinder.BackEdgeCycle | hw8.py:114-121 | a back edge from the top of the path to an earlier vertex other than the one just below closes the cycle path[path.index(u):] |
| CycleFinder.IndexOf | hw8.py:120 | `path.index(u)`: a position of u in the path with no earlier occurrence of u |
| CycleFinder.ForestWalkRepeats | hw8.py:123-130 | a closed walk of three or more steps along search-tree edges only must repeat a vertex, which is why an empty result means no cycle |
| CycleFinder.FindCycle | hw8.py:6-39 | on a symmetric, connected, loop-free graph, a returned cycle is a genuine cycle of M, and None is returned only when M has no cycle at all |
| CycleFinder.CountDecidesConnected | hw8.py:60-65 | an edge-closed set of vertices reachable from 0 has n members if and only if the graph is connected |
| CycleFinder.IsConnected | hw8.py:55-65 | true if and only if every vertex is reachable from vertex 0 |
| MstEngine.HeaviestEdge | hw8.py:181-187 | the pair stays (-1, -1) exactly when no cycle edge weighs more than -10^90. Otherwise it is the circular-consecutive pair of the first cycle position of maximal weight |
| MstEngine.DeleteEdge | hw8.py:188-189 | cells (a, b) and (b, a) become None and every other cell is unchanged |
| MstEngine.DeleteEdgeEdges | hw8.py:188-189 | after the deletion an edge exists exactly when it existed and is not {a, b} |
| MstEngine.DeleteShrinksEdges | hw8.py:180-197 | deleting an existing edge strictly shrinks the set of weighted cells, which is what makes the loop terminate |
| MstEngine.DeleteCycleEdgeKeepsConnected | hw8.py:180-189 | deleting any edge of a cycle from a connected graph leaves it connected |
| MstEngine.RemoveHeaviest | hw8.py:181-189 | the scan and the two assignments delete exactly the first heaviest edge of the cycle, so the edge set strictly shrinks |
| MstEngine.DeleteKeepsRemovedHeaviest | hw8.py:180-189 | the edge deleted in a round is heaviest on a cycle of the input, so every edge removed so far still is |
| MstEngine.DeleteHeaviest | hw8.py:180-189 | one loop round keeps the graph symmetric, loop-free, connected and a subgraph of the input, keeps every removed edge heaviest on a cycle of the input, and strictly shrinks the edge set |
| MstEngine.CountTruthy | hw8.py:190-194 | counts the cells Python reads as true: a weight that is not None and not 0 |
| MstEngine.CycleNeedsTruthy | hw8.py:190-196 | with nonzero weights, a cycle needs at least three truthy cells |
| MstEngine.FewTruthyNoCycle | hw8.py:195-196 | with nonzero weights, fewer than three truthy cells means no cycle, so the early stop is sound |
| MstEngine.FindMST | hw8.py:151-198 | fewer than three vertices: M is returned. Otherwise the result is a symmetric, loop-free, connected subgraph of M whose removed edges are each heaviest on a cycle of M. It is acyclic unless the truthy-count stop fired, and acyclic outright when no weight is 0 |
| MstExamples.ExampleGraph | hw8.py:68-79 | the handout graph is symmetric, loop-free, connected, above the starting maximum and has no zero weight |
| MstExamples.TriangleKeepsLighter | hw8.py:206-214 | on the script's triangle, the edges {1, 2} and {0, 2} are heaviest on no cycle, so any result obeying FindMST's contract keeps them |
| MstExamples.TriangleDropsHeaviest | hw8.py:206-214 | a cycle-free symmetric subgraph of the triangle that keeps {1, 2} and {0, 2} cannot keep {0, 1} |
| MstExamples.TriangleWithoutHeaviest | hw8.py:206-214 | a symmetric subgraph of the triangle is fixed by its edges: without {0, 1} but with the other two, it is [[None,None,-3],[None,None,-4],[-3,-4,None]] |
| MstExamples.TriangleMST | hw8.py:206-214 | findMST on the triangle [[None,2,-3],[2,None,-4],[-3,-4,None]] removes exactly the edge {0, 1} |
| GraphConvert.CreateEmptyGraph | hw6.py:6-19 | V = [0..n-1] and E is empty, so no two vertices are adjacent |
| GraphConvert.PairsFrom | hw6.py:33-35 | the pairs i <= a < b < n: every such pair, in lexicographic order, (n-i)(n-i-1)/2 of them |
| GraphConvert.CreateCompleteGraph | hw6.py:22-35 | V = [0..n-1] and E lists every two-element subset of V exactly once, n(n-1)/2 edges, in combinations order |
| GraphConvert.CreateExampleGraph | hw6.py:38-59 | the example graph has vertices [0..3] and five distinct two-element edges over them, so the agreement lemmas apply to it |
| GraphConvert.GetAdjacencyList | hw6.py:110-137 | one list per vertex. L[i] collects the other end of each edge at i, in edge order |
| GraphConvert.IncidentMembers | hw6.py:133-137 | x is in vertex i's adjacency list exactly when {i, x} is an edge |
| GraphConvert.GetAdjacencyMatrix | hw6.py:141-167 | an n by n matrix with M[i][j] == 1 if {i, j} is an edge and 0 otherwise |
| GraphConvert.AdjacentSymmetric | hw6.py:163-167 | adjacency, hence the matrix, is symmetric |
| GraphConvert.GetDegreeList | hw6.py:170-189 | D[i] is the number of edges at vertex i |
| GraphConvert.Handshake | hw6.py:185-189 | the degrees of all vertices add up to twice the number of edges |
| GraphConvert.DegreeListSum | hw6.py:170-189 | sum(D) == 2 * len(E) for the degree list |
| GraphConvert.RepresentationsAgree | hw6.py:133-137 | without repeated edges, len(L[i]) == D[i] == sum(M[i]) for every vertex |
| GraphConvert.ExampleConversions | hw6.py:123-180 | on the example graph the converters give [[1,2,3],[0,2],[0,1,3],[0,2]], the documented 0/1 matrix and [3,2,3,2] |
| TruthTable.Assignments | hw3.py:44 | 2^n assignments, each of length n |
| TruthTable.AssignmentsComplete | hw3.py:44 | every assignment of length n is enumerated |
| TruthTable.AssignmentsOrdered | hw3.py:44 | the enumeration is strictly increasing in the True-before-False lexicographic order |
| TruthTable.AssignmentsEnds | hw3.py:44 | the first assignment is all True and the last is all False |
| TruthTable.GenerateTable | hw3.py:11-50 | 2^n rows of length n + 1. The last entry of each row is f of its first n entries, the rows are in enumeration order from all True to all False, and every assignment has a row |
| TruthTable.FTestTable | hw3.py:29-33 | generateTable(2, f_test) is the documented four-row table |
| TruthTable.FTestTableRows | hw3.py:29-33 | the table of f_test has the four documented rows, in product order |
| Dnf.NatStrValue | hw3.py:98 | the decimal numeral written for a variable index reads back as that index |
| Dnf.DropSuffix | hw3.py:99-100 | the [:-3] slice removes exactly a three-character suffix |
| Dnf.AppendConj | hw3.py:93-99 | for n >= 1, one true row appends its parenthesised conjunction followed by " v " |
| Dnf.ConvertToDNF | hw3.py:52-100 | '' when no row is true. For n >= 1 the result is the true rows' conjunctions in table order joined by " v ", each literal xi or nxi in index order joined by " ^ " |
| Dnf.TermsMembers | hw3.py:91-93 | a row is a term of the formula exactly when some table row with a true result starts with it |
| Dnf.DnfMatchesFunction | hw3.py:53-54 | an assignment satisfies the DNF of generateTable(n, f) if and only if f is true on it |
| Dnf.FTestDnf | hw3.py:84-86 | convertToDNF(2, generateTable(2, f_test)) is '(x0 ^ x1) v (x0 ^ nx1) v (nx0 ^ nx1)' |
| RelationProps.IsReflexive | hw4.py:16-21 | true iff (a, a) is in R for every a in A |
| RelationProps.IsIrreflexive | hw4.py:24-29 | true iff (a, a) is in R for no a in A |
| RelationProps.IsTransitive | hw4.py:31-38 | true iff (a, d) is in R whenever (a, b) and (b, d) are |
| RelationProps.IsAntisymmetric | hw4.py:40-47 | true iff no (a, b) in R with a != b has (b, a) in R |
| RelationProps.IsSymmetric | hw4.py:50-55 | true iff (b, a) is in R for every (a, b) in R |
| RelationProps.IsAsymmetric | hw4.py:57-62 | true iff (b, a) is in R for no (a, b) in R |
| RelationProps.AsymmetricIsAntisymmetric | hw4.py:40-47 | an asymmetric relation is antisymmetric |
| RelationProps.AsymmetricIsIrreflexive | hw4.py:24-29 | an asymmetric relation is irreflexive on any A |
| RelationProps.AsymmetricIffAntisymmetricIrreflexive | hw4.py:57-62 | for R on A, asymmetric iff antisymmetric and irreflexive |
| RelationProps.SymmetricAntisymmetricLoopsOnly | hw4.py:40-55 | a symmetric and antisymmetric relation holds loop pairs only |
| RelationProps.EmptyRelation | hw4.py:64-72 | the empty relation has all six properties, except reflexivity, which holds exactly when A is empty |
| RelationProps.EmptyRelationChecks | hw4.py:64-72 | on A = [0, 1, 2] and R = [] the six checks give False, True, True, True, True, True |

## Left out

- Printing: `printGraph`, `convertToList`, `convertToSet` (hw6.py:63-105) and the `__main__` blocks are console output or plain casts. Their scenarios appear only as the example members above.
- `itertools.product` and `itertools.combinations` are not modelled as library code. The enumerations are recursive definitions in the same order (`Assignments`, `PairsFrom`).
- `f` in generateTable is a partial function parameter, defined on all lists of length n.
- The failure of a Python `assert` on the inputs (hw8.py:23-24, 105-106) is not modelled as behaviour: these checks are preconditions. The asserts at hw8.py:115 and 132 cannot fail, which the model proves.
- MstEngine.FindMST: the claim that the result is a minimum spanning tree (the cycle property) is not proved. The contract gives only the spanning-subgraph facts, symmetry, termination, the heaviest-edge rule for every removed edge, and acyclicity under nonzero weights.
- MstEngine.FindMST: the count of edges left (n - 1) is not stated.
- MstEngine.FindMST requires every weight to be above -10^90. For a cycle of such weights the source keeps r = (-1, -1), writes None into M[-1][-1], which changes nothing, and loops forever.
- MstEngine.FindMST does not promise acyclicity when a weight is 0. The truthy-count stop (hw8.py:190-196) can fire while a cycle of zero-weight edges remains.
- CycleFinder.FindCycle and CycleFinder.IsConnected require a loop-free diagonal. With an edge M[v][v] at a search root, the source reads `path[-2]` of a one-element path and raises IndexError. Deeper in the search, it would report a one-vertex "cycle".
- CycleFinder.FindCycle and CycleFinder.IsConnected require at least one vertex. On an empty matrix the source indexes `M[0]` and raises IndexError.
- TruthTable.FTest: `f_test` is the handout's example function. Its one-line body (hw3.py:9) is its whole specification. Its behaviour is pinned down by TruthTable.FTestTable and Dnf.FTestDnf, which prove the documented table and DNF.
- Dnf.ConvertToDNF: for n = 0 the result is not specified beyond the empty case. There the `[:-3]` slices cut into the opening parenthesis and the previous text.
- The hw8 matrix has value semantics: findMST (hw8.py:188-189) writes into the caller's list of lists in place, while the model leaves the caller's matrix unchanged and returns the result as a new matrix. Rows are assumed to be distinct lists. If two rows are the same Python list, one deletion clears a cell in both rows, the matrix becomes asymmetric, and the next `findCycle` assertion (hw8.py:23) fails. The model cannot express that aliasing.
- Python `set` unpacking order in hw6 (`for a, b in E`) is not modelled. An edge is an ordered pair `UEdge(a, b)`, and every converter's result is the same for either order.
- The docstring of hw6 `createExampleGraph` (hw6.py:42) lists four edges, but the code builds five. The model follows the code, whose five edges are the ones that give the documented converter outputs.
