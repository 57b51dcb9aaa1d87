# Eternal domination search: verified model of the core

This project models the core of an exact solver for the eternal domination
number of an undirected graph: the smallest number of guards that can stand on
the vertices so that, whatever sequence of single-vertex attacks comes, the
guards can always move (each along an edge, or staying put) so that one of them
covers the attacked vertex while they still form a dominating set.

The solver works in three parts, and the model follows the three C++ files:

- **Graph** (`Graph.cpp`): a simple undirected graph on vertices `0 .. n-1`
  held as adjacency lists. It has validated `hasEdge` / `insertEdge` /
  `removeEdge`, the domination test `isDominatingSet`, the backtracking
  enumeration of the strictly increasing dominating sets of size `k`
  (`exploreCombinations`, `generateDominatingSets`), the guard-transition test
  `isGuardTransition`, and `generateConfigurationGraph`, which joins two
  configurations when the guards can move from one to the other.
  `isGuardTransition` asks for a perfect matching in a k-by-k bipartite graph.
- **BipartiteGraph** (`BipartiteGraph.cpp`): a two-sided graph whose edges are
  validated to cross the sides. `maxMatching` / `findAugmentingPath` run Kuhn's
  augmenting-path matching in place on a `match` vector, with a `marked` vector
  that is reset for every root.
- **ConfigurationGraph** (`ConfigurationGraph.cpp`): one vertex per
  configuration (dominating set of size `k`), with the same edge operations.
  `findSafeDominatingSets` repeats passes over the `is_safe` flags, clearing the
  flag of any configuration whose coverage test fails, until a pass clears
  nothing.

Each stateful operation is an imperative method: a class with `seq` fields for
the adjacency lists, or arrays for the `match`, `marked`, `is_dominated`,
`order_in_dominating_set_2`, `is_safe` and `defended_vertices_` buffers. Each
method is proved equal to a reference function (`Explore`, `Augment`/`KuhnUpTo`,
`TransitionEdges`/`GuardTransition`, `PassFrom`/`Iterate`/`SafeSets`). The
properties the solver relies on are lemmas about those functions:

- the enumeration is sound, complete and lexicographically sorted;
- Kuhn's result is a valid injective matching whose size counts the matched
  right vertices;
- a successful transition test yields a guard-to-slot assignment;
- the safe flags form the greatest self-defending family and a fixed point.

Modules, in dependency order:

- `Common`: edges, errors, `Result`, `Outcome`.
- `AdjacencyLists`: the list operations shared by the three classes.
- `Marks`: the boolean buffer loops.
- `Domination`: domination and the enumeration.
- `Kuhn`: the matching, as functions.
- `Bipartite`: class `BipartiteGraph`.
- `GuardMoves`: the transition test, as functions.
- `SafeConfigurations`: the fixed point, as functions.
- `Configurations`: class `ConfigurationGraph`.
- `Graphs`: class `Graph`.

Exceptions the C++ code throws are modelled as values:

- `Result.Failure(error)` or `Outcome.Fail(error)`;
- the nested `runtime_error` of an edge operation is `EdgeOperationFailed(op, edge, cause)`.

The constructors that throw on a negative size are static `Create` methods that
return a `Result`.

In three places the code does something other than what eternal domination
would suggest, and the model follows the code:

- **The safe-set test.** For eternal domination, a configuration would be
  defended by the configurations *adjacent* to it in the configuration graph,
  the ones the guards can reach in one move. `findSafeDominatingSets` instead
  uses every other configuration still flagged safe, and never reads the
  adjacency lists (`ConfigurationGraph.cpp:51-61`).
- **`k` larger than `n`.** No dominating set of size `k` exists then, and the
  code raises no error for it. The enumeration simply returns an empty list
  (`Domination.DominatingSetsEdgeCases`).
- **The coverage buffer.** The coverage test is meant to check that every
  vertex of the original graph is covered. The buffer is sized by the number
  of configurations instead (see Findings).

## Model

| member | source | states |
|---|---|---|
| AdjacencyLists.ValidateVertex | Graph.cpp:264-268 | passes exactly for ids in [0, n); otherwise fails with that id |
| AdjacencyLists.ValidateEdge | Graph.cpp:270-273 | passes exactly when both endpoints are vertices; the first endpoint is checked first and its error wins |
| AdjacencyLists.RemoveFirst | Graph.cpp:231-239 | the erase-at-first-match loop on one list; `RemoveFirstCounts` and `RemoveFirstExact` state what it removes |
| AdjacencyLists.InsertAdj | Graph.cpp:205-219 | insertEdge on the lists: a `push_front` at both ends unless the pair is a loop or already stored; `InsertAdjEffect` states its effect |
| AdjacencyLists.RemoveAdj | Graph.cpp:221-252 | removeEdge on the lists: the first occurrence erased at both ends when the pair is stored; `RemoveAdjEffect` states its effect |
| AdjacencyLists.RemoveFirstCounts | Graph.cpp:231-239 | erasing the first occurrence removes exactly one copy of the value if present (length drops by one), and leaves the list as it is otherwise |
| AdjacencyLists.RemoveFirstExact | Graph.cpp:231-249 | in a list holding the value at most once, erasing it leaves exactly the other elements and adds no duplicate |
| AdjacencyLists.RemoveFirstAt | Graph.cpp:231-239 | erasing at the first match found by the iterator is list surgery at that position |
| AdjacencyLists.EmptyAdj | Graph.cpp:19-22 | `resize(n)` gives n empty lists, no adjacency and total degree 0 |
| AdjacencyLists.EmptyAdjSimple | Graph.cpp:19-22 | the empty lists form a simple graph |
| AdjacencyLists.TotalDegreeUpdate | Graph.cpp:213-217 | replacing one list changes the total degree by the change in its length |
| AdjacencyLists.InsertAdjEffect | Graph.cpp:213-218 | inserting a valid pair keeps the graph simple and symmetric and adds exactly that pair (no-op for a loop or an existing edge); total degree rises by 2 exactly for a new edge |
| AdjacencyLists.RemoveAdjEffect | Graph.cpp:229-251 | removing a valid pair keeps the graph simple and deletes exactly that pair in both directions; total degree drops by 2 exactly when the edge was present |
| AdjacencyLists.Contains | Graph.cpp:197-202 | the list search returns true iff the value is in the list |
| AdjacencyLists.EraseFirst | Graph.cpp:231-239 | the erase loop reports whether the value was present and returns the list with its first occurrence erased |
| Marks.MarkAll | Graph.cpp:81-86 | after marking, an entry is set iff it was set before or its id is listed |
| Marks.AllMarked | Graph.cpp:88-93 | the final scan returns true iff every entry is set |
| Domination.DominatedByExtend | Graph.cpp:81-86 | after one more member, a vertex is dominated iff it was before, or it is that member or its neighbour |
| Domination.Explore | Graph.cpp:97-110 | the sets `exploreCombinations(start, k, cur)` appends, in order; `ExploreSound`, `ExploreComplete` and `ExploreSorted` characterise them |
| Domination.ExploreFrom | Graph.cpp:105-109 | the sets the `for` loop from vertex v appends; `ExploreFromSound`, `ExploreFromSorted` and `ExploreFromContains` characterise them |
| Domination.DominatingSets | Graph.cpp:69-77 | the enumeration from vertex 0 with an empty current set; `DominatingSetsExact` and `DominatingSetsEdgeCases` characterise it |
| Domination.ExploreSound | Graph.cpp:97-110 | every set the recursion emits extends the current set, has size k, is strictly increasing, in range and dominating |
| Domination.ExploreFromSound | Graph.cpp:105-109 | every set the `for` loop from v emits extends the current set with a next vertex >= v and is a candidate |
| Domination.ExploreSorted | Graph.cpp:97-110 | the emitted sets are in strictly increasing lexicographic order |
| Domination.ExploreFromSorted | Graph.cpp:105-109 | the loop's emitted sets are in strictly increasing lexicographic order |
| Domination.ExploreBeforeFrom | Graph.cpp:105-109 | every set emitted for vertex v precedes, lexicographically, every set emitted by the later iterations |
| Domination.LexSortedConcat | Graph.cpp:105-109 | two sorted runs whose elements are ordered across the boundary concatenate to a sorted run |
| Domination.LexLessAt | Graph.cpp:105-109 | a common prefix followed by a smaller entry gives lexicographic precedence |
| Domination.LexLessIrreflexive | Graph.cpp:105-109 | no set precedes itself, so sorted output has no duplicates |
| Domination.ExploreFromContains | Graph.cpp:105-109 | what the iteration for vertex w emits is part of what the loop from any v <= w emits |
| Domination.ExploreComplete | Graph.cpp:97-110 | every candidate that extends the current set with next vertex >= start is emitted |
| Domination.IncreasingLength | Graph.cpp:105 | a strictly increasing sequence of ids in [lo, n) has at most n - lo elements |
| Domination.DominatingSetsExact | Graph.cpp:69-77 | generateDominatingSets lists exactly the strictly increasing, in-range dominating sets of size k, lexicographically sorted and each once |
| Domination.DominatingSetsEdgeCases | Graph.cpp:97-110 | for k > n nothing is emitted; for k = 0 the result is `[[]]` iff n = 0, else empty |
| GuardMoves.LastIndex | Graph.cpp:119-124 | the table entry is -1 iff the vertex is not in the set, else the last position holding it |
| GuardMoves.TargetEdge | Graph.cpp:129-131 | the edge pushed for a vertex of the second set, to the slot of its last position; none for other vertices |
| GuardMoves.RowEdges | Graph.cpp:128-132 | the edges of the neighbour loop of one slot, in list order; `RowEdgesExact` characterises them |
| GuardMoves.SlotEdges | Graph.cpp:127-135 | the edges of slot v, neighbours first and then its own vertex; `SlotEdgesExact` characterises them |
| GuardMoves.TransitionEdges | Graph.cpp:126-136 | the edge list after slots 0 .. v-1; `TransitionEdgesExact` characterises it |
| GuardMoves.GuardTransition | Graph.cpp:112-146 | unequal sizes give false; otherwise the move graph is built and must have a matching of size k; `GuardTransitionSound` and `MoveGraphExact` characterise it |
| GuardMoves.RowEdgesExact | Graph.cpp:128-132 | the neighbour loop of slot i emits exactly the edges (i, k+t) with the vertex at t a neighbour, at its last position |
| GuardMoves.SlotEdgesExact | Graph.cpp:127-136 | slot i's edges are exactly the linked edges leaving i (a target slot reachable by staying or moving along an edge) |
| GuardMoves.SlotEdgesAllExact | Graph.cpp:127-136 | the same, for all edges at once |
| GuardMoves.TransitionEdgesExact | Graph.cpp:126-136 | after slots 0 .. v-1 the edge list holds exactly the linked edges leaving those slots |
| GuardMoves.TransitionGraphBuilt | Graph.cpp:126-138 | every edge of the list crosses the k + k sides, so the bipartite constructor accepts it |
| GuardMoves.TransitionEdgesLinked | Graph.cpp:126-136 | every listed edge is a legal guard move |
| GuardMoves.PairsOfLinks | Graph.cpp:138 | a graph whose pairs all come from linked edges only joins legal moves |
| GuardMoves.MoveGraphLinks | Graph.cpp:126-138 | for equal sizes the move graph is always built, has 2k vertices, left-to-right adjacency and only legal moves |
| GuardMoves.MoveGraphExact | Graph.cpp:119-138 | the move graph joins slot i to target slot k + j iff the guard on `s1[i]` may move to `s2[j]` and j is the last position of `s2[j]`; when `s2` is strictly increasing, iff the guard may move there |
| GuardMoves.CoveringMatchingAssigns | Graph.cpp:143-146 | a valid injective matching that leaves no right slot free gives every target slot a distinct guard that may move there |
| GuardMoves.PerfectMatchingAssigns | Graph.cpp:143-146 | a maxMatching of size k on the move graph is such an assignment |
| GuardMoves.GuardTransitionSound | Graph.cpp:112-163 | sets of different sizes are never a transition; a successful test implies an assignment of distinct guards to all target slots |
| Kuhn.Augment | BipartiteGraph.cpp:74-89 | findAugmentingPath keeps the vector lengths and the match range, never raises the number of unmarked vertices, and on failure leaves `match` unchanged (`Kuhn.AugmentEffect` states that marks only grow, pointwise) |
| Kuhn.AugmentLoop | BipartiteGraph.cpp:81-88 | the neighbour loop has the same guarantees |
| Kuhn.KuhnUpTo | BipartiteGraph.cpp:57-72 | the root loop keeps one entry per vertex, each -1 or a left vertex |
| Kuhn.KuhnUpToNext | BipartiteGraph.cpp:63-69 | one more root applies the search from that root with all marks cleared, counting a success |
| Kuhn.MaxMatching | BipartiteGraph.cpp:57-72 | the root loop over all p left vertices; `MaxMatchingValid` states what it returns |
| Kuhn.AugmentEffect | BipartiteGraph.cpp:74-89 | on success one free entry is matched and nothing else is freed (the multiset trades a -1 for v); entries held by v or a marked vertex are untouched, only right entries change, each to an adjacent left vertex; marks only grow |
| Kuhn.AugmentLoopEffect | BipartiteGraph.cpp:81-88 | the loop over the remaining neighbours has that effect |
| Kuhn.FreeStep | BipartiteGraph.cpp:82-84 | matching a free right vertex to v has that effect |
| Kuhn.ChainStep | BipartiteGraph.cpp:82-84 | re-matching a vertex whose partner found another path has that effect |
| Kuhn.UnmatchedCountAll | BipartiteGraph.cpp:58 | the freshly assigned vector has n free entries |
| Kuhn.TradeBounds | BipartiteGraph.cpp:66-68 | a successful root keeps every left vertex matched at most once and lowers the free count by one |
| Kuhn.RootStep | BipartiteGraph.cpp:63-69 | one root with cleared marks keeps the root-loop invariant |
| Kuhn.RootUpdate | BipartiteGraph.cpp:66-68 | counting a success (or not) keeps the invariant: valid, injective, size = matched entries <= roots done |
| Kuhn.KuhnStart | BipartiteGraph.cpp:58-62 | before the first root all entries are free and the size is 0 |
| Kuhn.KuhnStep | BipartiteGraph.cpp:63-69 | the step from root v-1 to v keeps the invariant |
| Kuhn.KuhnInvariant | BipartiteGraph.cpp:62-69 | after roots 0 .. v-1 the state is a valid injective matching whose size is the number of matched entries |
| Kuhn.MaxMatchingValid | BipartiteGraph.cpp:57-89 | `match` has p+q entries, left entries stay -1, each right entry is -1 or an adjacent left vertex, no left vertex is used twice, and size = matched right entries <= min(p, q) |
| Kuhn.MatchedOnce | BipartiteGraph.cpp:83 | multiset counts of at most one mean no left vertex sits in two entries |
| Kuhn.FreeCount | BipartiteGraph.cpp:62-71 | with the left entries free, the free count splits into p plus the free right entries |
| Bipartite.ValidateCrossing | BipartiteGraph.cpp:119-144 | passes exactly for a non-loop whose smaller endpoint is in [0, p) and larger in [p, p+q); a loop, a bad first-set vertex, a bad second-set vertex fail in that order with their errors |
| Bipartite.ValidateFirstSet | BipartiteGraph.cpp:119-123 | fails with the id for a vertex outside [0, p), passes otherwise; `ValidateCrossing` states the combined test |
| Bipartite.ValidateSecondSet | BipartiteGraph.cpp:125-129 | fails with the id for a vertex outside [p, p+q), passes otherwise; `ValidateCrossing` states the combined test |
| Bipartite.BipartitionLeftToRight | BipartiteGraph.cpp:131-144 | in a simple two-sided graph every neighbour of a left vertex is a right vertex |
| Bipartite.BipartitionInsert | BipartiteGraph.cpp:101-117 | inserting a validated edge keeps the graph two-sided |
| Bipartite.InsertAll | BipartiteGraph.cpp:24-26 | the constructor's insertion loop keeps the graph simple and two-sided |
| Bipartite.InsertAllSucceeds | BipartiteGraph.cpp:24-26 | construction succeeds iff every edge crosses the sides |
| Bipartite.InsertAllAdjacent | BipartiteGraph.cpp:24-26 | a successful construction stores exactly the listed pairs |
| Bipartite.InsertAllFails | BipartiteGraph.cpp:24-26 | a failed construction stops at the first invalid edge, with insertEdge's nested validation error |
| Bipartite.ClearMarks | BipartiteGraph.cpp:64 | every mark is cleared |
| Bipartite.BipartiteGraph.Empty | BipartiteGraph.cpp:18-22 | both sides sized, no edges, the invariant holds |
| Bipartite.BipartiteGraph.Create | BipartiteGraph.cpp:9-27 | a negative first side, then a negative second side, is refused; otherwise the result is exactly the insertion loop's outcome |
| Bipartite.BipartiteGraph.HasEdge | BipartiteGraph.cpp:41-55 | fails with the nested validation error on an invalid edge; otherwise returns whether the pair is stored |
| Bipartite.BipartiteGraph.InsertEdge | BipartiteGraph.cpp:101-117 | returns the validation outcome; on success adds exactly the pair, counting it only if new, and keeps the graph simple and two-sided |
| Bipartite.BipartiteGraph.FindAugmentingPath | BipartiteGraph.cpp:74-89 | the in-place search on the two arrays computes exactly `Augment` |
| Bipartite.BipartiteGraph.SearchFromRoot | BipartiteGraph.cpp:63-69 | clearing the marks and searching from v computes `Augment` from no marks |
| Bipartite.BipartiteGraph.MaxMatching | BipartiteGraph.cpp:57-72 | returns exactly Kuhn's size and match vector (whose properties `Kuhn.MaxMatchingValid` states) |
| SafeConfigurations.PassFrom | ConfigurationGraph.cpp:37-77 | a pass only clears flags, leaves earlier indices alone, and reports a change exactly when a flag was cleared |
| SafeConfigurations.Step | ConfigurationGraph.cpp:39-74 | the body of the `for` loop for set i: a safe set that fails the coverage test is cleared; `PassFrom` states the effect of the pass |
| SafeConfigurations.AllSafe | ConfigurationGraph.cpp:27 | `is_safe` starts with every flag set |
| SafeConfigurations.SafeSets | ConfigurationGraph.cpp:23-80 | the loop from all flags set; `SafeSetsGreatest` and `SafeSetsFixedPoint` characterise it |
| SafeConfigurations.CountBelow | ConfigurationGraph.cpp:72-75 | clearing flags lowers the safe count, strictly when any is cleared |
| SafeConfigurations.Iterate | ConfigurationGraph.cpp:33-78 | the `while (any_changes)` loop only clears flags |
| SafeConfigurations.Passes | ConfigurationGraph.cpp:30-78 | the loop makes between 1 and (safe count + 1) passes |
| SafeConfigurations.DefendedMonotone | ConfigurationGraph.cpp:51-61 | the coverage test only gets easier with more sets flagged safe |
| SafeConfigurations.QuietPassDefended | ConfigurationGraph.cpp:37-77 | a pass that changes nothing leaves only defended sets flagged |
| SafeConfigurations.IterateSelfDefending | ConfigurationGraph.cpp:33-79 | on return every set still flagged safe passes the coverage test |
| SafeConfigurations.PassKeeps | ConfigurationGraph.cpp:37-77 | a pass never clears a set belonging to a self-defending family below the flags |
| SafeConfigurations.IterateKeeps | ConfigurationGraph.cpp:33-78 | nor does the whole loop |
| SafeConfigurations.SafeSetsGreatest | ConfigurationGraph.cpp:23-80 | one flag per set; the flagged sets defend themselves and contain every self-defending family |
| SafeConfigurations.PassStable | ConfigurationGraph.cpp:37-77 | a pass over a self-defending family clears nothing |
| SafeConfigurations.SafeSetsFixedPoint | ConfigurationGraph.cpp:23-80 | re-running from the result changes no flag and takes one pass |
| SafeConfigurations.UncoveredIdClearsAll | ConfigurationGraph.cpp:43-75 | an id below the buffer length that no set contains makes every set unsafe |
| SafeConfigurations.K4PairsBufferTooLong | ConfigurationGraph.cpp:43 | with the buffer sized by the six configurations, every pair of K4 comes out unsafe |
| SafeConfigurations.K4PairsAllSafe | ConfigurationGraph.cpp:43 | with the buffer sized by the four vertices, every pair of K4 is safe |
| SafeConfigurations.K4DominatingPairs | Graph.cpp:69-110 | on K4 the enumeration of size-2 dominating sets yields exactly the six pairs, in order, so they are the configurations of the finding |
| Configurations.CoverageTest | ConfigurationGraph.cpp:41-70 | the buffer loops return true iff every id is in set i or in another set flagged safe |
| Configurations.SafetyPass | ConfigurationGraph.cpp:34-77 | the in-place pass computes exactly `PassFrom` |
| Configurations.SafeFixedPoint | ConfigurationGraph.cpp:27-79 | the in-place loop returns exactly `SafeSets` |
| Configurations.ConfigurationGraph.constructor | ConfigurationGraph.cpp:12-20 | stores the counts and configurations; no edges, empty lists |
| Configurations.ConfigurationGraph.Create | ConfigurationGraph.cpp:12-20 | a negative count is refused, and any other count succeeds with an empty graph holding the counts and configurations |
| Configurations.ConfigurationGraph.HasEdge | ConfigurationGraph.cpp:106-120 | fails with the nested validation error on an invalid edge; otherwise returns whether the pair is stored |
| Configurations.ConfigurationGraph.InsertEdge | ConfigurationGraph.cpp:122-136 | fails on an invalid edge with nothing changed; otherwise adds exactly the pair (no-op for loops and duplicates), counting only a new edge, and keeps the graph simple |
| Configurations.ConfigurationGraph.RemoveEdge | ConfigurationGraph.cpp:138-169 | fails on an invalid edge with nothing changed; otherwise deletes exactly the pair, uncounting it only if it was present |
| Configurations.ConfigurationGraph.FindSafeDominatingSets | ConfigurationGraph.cpp:23-80 | as written (buffer of numVertices entries): the greatest self-defending family, with one flag per set |
| Configurations.ConfigurationGraph.SafeDominatingSets | ConfigurationGraph.cpp:23-80 | with the buffer sized by the original vertex count: the greatest self-defending family |
| Graphs.JoinedUpToStart | Graph.cpp:166-167 | the empty configuration graph holds no pair before the loops |
| Graphs.JoinedUpToEnterRow | Graph.cpp:170-171 | the pair (i, i) is skipped and never joined |
| Graphs.JoinedUpToLeaveRow | Graph.cpp:170-177 | at the end of row i every joined pair of row i is in the graph |
| Graphs.JoinedUpToStep | Graph.cpp:171-176 | the inner step adds the pair (i, j) exactly when it is a transition |
| Graphs.Graph.constructor | Graph.cpp:14-23 | n vertices with empty lists and no edges |
| Graphs.Graph.Create | Graph.cpp:14-23 | a negative vertex count is refused, and any other count succeeds with an empty graph on n vertices |
| Graphs.Graph.HasEdge | Graph.cpp:189-203 | fails with the nested validation error on an invalid edge; otherwise returns whether the pair is stored |
| Graphs.Graph.InsertEdge | Graph.cpp:205-219 | fails on an invalid edge with nothing changed; otherwise adds exactly the pair (no-op for loops and duplicates), counting only a new edge, and keeps the graph simple with edges = total degree / 2 |
| Graphs.Graph.RemoveEdge | Graph.cpp:221-252 | fails on an invalid edge with nothing changed; otherwise deletes exactly the pair in both lists, uncounting it only if it was present |
| Graphs.Graph.IsDominatingSet | Graph.cpp:79-94 | true iff every vertex is in the set or adjacent to a member |
| Graphs.Graph.ExploreCombinations | Graph.cpp:97-110 | the current set comes back unchanged, and `found` is extended by exactly the sets of `Explore` |
| Graphs.Graph.GenerateDominatingSets | Graph.cpp:69-77 | exactly the strictly increasing dominating sets of size k, each once, lexicographically sorted |
| Graphs.Graph.PositionTable | Graph.cpp:119-124 | entry u is -1 if u is not in the second set, else its last position |
| Graphs.Graph.NeighbourEdges | Graph.cpp:128-132 | the neighbour loop of slot v emits exactly `RowEdges` |
| Graphs.Graph.GuardSlotEdges | Graph.cpp:127-135 | slot v's edges, neighbours first, then its own vertex |
| Graphs.Graph.MoveEdges | Graph.cpp:126-136 | the edge list is exactly `TransitionEdges` |
| Graphs.Graph.IsGuardTransition | Graph.cpp:112-163 | returns exactly `GuardTransition` (whose soundness `GuardMoves.GuardTransitionSound` states) |
| Graphs.Graph.JoinPair | Graph.cpp:171-176 | the inner step keeps the graph valid and joins (i, j) exactly when the transition holds |
| Graphs.Graph.GenerateConfigurationGraph | Graph.cpp:165-179 | one vertex per dominating set of size k; configurations a and b are adjacent iff a != b and the guards can move from the lower-numbered one to the other |

## Left out

- `Graph(const std::string&)` (Graph.cpp:25-67): it reads a DIMACS-style file through `ifstream`/`sscanf`. Graphs are built by `Graph(int)` and `insertEdge`.
- The `print` methods, `printSafeDominatingSets`, and the `print_transition` branch of `isGuardTransition` (Graph.cpp:147-157): console output only, with no effect on results.
- `numVertices()` / `numEdges()` accessors: they are the classes' `numVertices` / `numEdges` fields.
- Main.cpp, Main2.cpp (argument handling, timing, a watchdog thread) and the Python scripts: I/O, clocks and concurrency.
- `findMinimumGuardSet` is declared in Graph.h but defined in none of the C++ files, so it is not part of this model.
- Exception message strings (`to_string`, `what()`): errors are modelled as `Error` values carrying the same ids and edges, not as text.
- 32-bit `int` and `size_t` widths: ids, counts and sizes are unbounded integers. The graphs this solver handles are far below the limits.
- Kuhn.MaxMatchingValid: proves that the result is a valid injective matching, not that it is maximum (Berge's theorem is not proved).
- GuardMoves.GuardTransitionSound: proves only that a successful test gives a legal assignment. The converse (an assignment exists ⇒ the test succeeds) needs maximality and is not proved.
- Graphs.Graph.IsDominatingSet: requires every id of the set to be a vertex. The source indexes `is_dominated` unchecked, so other ids are undefined behaviour.
- Graphs.Graph.IsGuardTransition: when the sets have equal sizes, requires both sets' ids to be vertices, for the same reason (`order_in_dominating_set_2`, `adjacency_lists_`). Sets of different sizes are accepted with any ids and give false, as in the source.
- Configurations.ConfigurationGraph.FindSafeDominatingSets: requires every id below the configuration count. With fewer configurations than vertices the source indexes past `defended_vertices_`.
- Graphs.Graph.GenerateConfigurationGraph: `insertEdge` cannot fail there, because i < j are valid configuration ids, so its outcome is ignored, as the source does.

## Findings

| source | as written | input that shows it | evidently intended | confidence | as-written member | corrected member |
|---|---|---|---|---|---|---|
| ConfigurationGraph.cpp:43 | `defended_vertices_` gets `num_vertices_` entries, the number of configurations, while the ids written into it are vertices of the original graph | K4 with k = 2: the six pairs are the configurations, so buffer ids 4 and 5 are never covered and every pair is reported unsafe | a buffer of `original_num_vertices_` entries, under which every pair of K4 is safe | high; not executed | Configurations.ConfigurationGraph.FindSafeDominatingSets, SafeConfigurations.K4PairsBufferTooLong | Configurations.ConfigurationGraph.SafeDominatingSets, SafeConfigurations.K4PairsAllSafe |
