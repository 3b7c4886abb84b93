# Bipartite matching by unit-capacity max flow — a Dafny model

This project models the core of a bipartite-matching program that reduces the
matching problem to a maximum flow. Three parts are modelled.

**Residual graph (Graph.cpp).** A square capacity matrix over the real nodes
plus an injected source (index 0) and sink (index `nodes + 1`). Left nodes are
`1..nodes/2` and right nodes are `nodes/2+1..nodes`. It is modelled as the
class `ResidualGraph.Graph`, whose `adj` field its methods update in place.

**Max-flow engine (FordFulkerson.cpp).** The class is named after
Ford-Fulkerson but runs Dinic's algorithm with unit pushes. It is modelled as
the class `MaxFlow.FordFulkerson`, which holds a reference to the graph, the
`depth` labels and the phase snapshot `maxFlow`. Each phase:

- labels nodes by breadth-first search, stopping as soon as the sink is
  labelled;
- copies the live matrix into the snapshot;
- repeats a depth-first path search, which prunes dead ends by zeroing their
  snapshot column, and commits each path it finds to the live matrix one unit
  per edge.

**Input validators (GraphPrepare.cpp).** The node-name cleaner, the node and
edge count checks, and the rejection of a name that cleans to nothing
(module `GraphPrepare`).

Modules:

- `Matrix`: matrices and the relations between two of them (same pairwise
  residual mass, a cleared column, a pruning, live columns).
- `Residual`: one unit pushed over an edge, along a path, or along a sequence
  of augmenting paths (`AugmentedAlong`).
- `Paths`: residual paths, level-graph edges and paths, and the lemmas about
  pruning and the search's walk.
- `Levels`: the breadth-first labelling and one lemma per step of the search.
- `PathSearch`: the invariant of the depth-first path search and how each of
  its steps keeps it.
- `ResidualGraph`, `MaxFlow`, `GraphPrepare`: the source's operations.
- `Failures`: the error kinds and a result type.

Thrown exceptions are modelled as returned `Outcome` or `Result` values. The
BFS queue is a local `array<nat>` with `front` and `back` counters, as in the
source. Its neighbour loop is the method `ExpandNode`, and one turn of that
loop is `VisitNeighbour`. The C++ reference
parameters of `findNextNodeInPath` and `findAugmentingPath` become returned
values.

When `source == sink`, the source is labelled 0 before the search starts, so
`levelGraph` never labels the sink again and reports it unreached. The model
states this as `reached <==> source != sink && Reachable(...)`.

The committed paths are not stored by the source. The model returns them as
a ghost record from `AugmentFlowAlongPath` and `CalculateMaxFlow`, so that
their contracts can say exactly which matrix they leave.

Loop termination is proved:

- The path search decreases the snapshot's set of live columns, then the
  room left for its walk (the node count minus the walk's length).
- The phase loop and the outer loop decrease the positive capacity leaving
  the source. Each committed path starts at the source and never returns to
  it, so each commit lowers that capacity by exactly one.

## Model

| member | source | states |
|---|---|---|
| ResidualGraph.Graph.constructor | Graph.cpp:43-47 | the graph has `nodes + 2` rows of `nodes + 2` entries, all zero |
| ResidualGraph.Graph.InitializeAdjacencyMatrix | Graph.cpp:265-269 | the matrix becomes an all-zero `size` by `size` matrix |
| ResidualGraph.Graph.GetNodes | Graph.cpp:137-140 | the result is `nodes + 2`, the matrix size counting source and sink, not `nodes` |
| ResidualGraph.Graph.CreateEdge | Graph.cpp:71-75 | `adj[node1][node2]` is overwritten with the given capacity; every other entry, including the reverse one, is unchanged |
| ResidualGraph.Graph.CreateSourceNode | Graph.cpp:290-298 | `adj[source][j]` becomes 1 for every left node `j`; nothing else changes |
| ResidualGraph.Graph.CreateSinkNode | Graph.cpp:319-327 | `adj[i][sink]` becomes 1 for every right node `i`; nothing else changes |
| ResidualGraph.Graph.ConnectSourceAndSinkNodes | Graph.cpp:95-100 | the source is wired to every left node and every right node to the sink at capacity 1; all other entries are unchanged |
| ResidualGraph.Graph.FindAdjacentNodes | Graph.cpp:183-201 | the result lists exactly the nodes with positive capacity from `node`, each once, in strictly ascending order |
| ResidualGraph.NeighborsExact | Graph.cpp:188-197 | the positive-entry scan of a row is strictly increasing, sound and complete |
| ResidualGraph.Graph.MatchedPairs | Graph.cpp:220-247 | a pair `(i, n)` is reported iff `i` is left, `n` is right and `adj[n][i] == 1`; pairs come in row-major order; the count equals the number of pairs; the matrix is read only |
| Matrix.Zero | FordFulkerson.cpp:450-470 | the initial snapshot is square of the requested size and all zero |
| MaxFlow.FordFulkerson.constructor | FordFulkerson.cpp:38-57 | the engine starts with an all-zero snapshot and a zero label for every node |
| MaxFlow.FordFulkerson.InitializeMaxFlow | FordFulkerson.cpp:450-470 | starting from the empty snapshot, the snapshot becomes an all-zero matrix over every node |
| MaxFlow.FordFulkerson.InitializeDepth | FordFulkerson.cpp:412-431 | starting from the empty label vector, there is one label per node, each zero |
| MaxFlow.FordFulkerson.LevelGraph | FordFulkerson.cpp:154-213 | the labels label the source 0 and give every other labelled node a parent one level up with positive capacity; no residual path is shorter than a label; the result is true iff the source differs from the sink and the sink is reachable; on true, the sink carries the largest label and every node a residual path of fewer edges than the sink's label reaches is labelled, so labels below the sink's are exact distances; on false, every node reachable from the source is labelled, and with distinct ends the sink stays unlabelled |
| MaxFlow.FordFulkerson.ExpandNode | FordFulkerson.cpp:177-196 | labels already set never change, and every newly labelled node is a listed neighbour of `current` at `current`'s label plus one; on labelling the sink, the same labelling and reachability facts as LevelGraph hold, including that every node closer than the sink is labelled; otherwise every neighbour is labelled, the queue is only appended to, the queue array holds the ghost queue, and the inner BFS invariant holds for `current` over all of its listed neighbours, which `BfsEndExpand` turns into the invariant for the next queue entry |
| MaxFlow.FordFulkerson.VisitNeighbour | FordFulkerson.cpp:181-195 | every label other than the `k`-th neighbour's is kept from the entry labelling, and that neighbour's label changes only from unlabelled to `current`'s label plus one; the labels set before the expansion of `current` are kept and only its listed neighbours gain labels; labelling the sink gives the same facts as LevelGraph on true; otherwise the queue is only appended to and the BFS invariant covers one more neighbour |
| Levels.GrownSkip | FordFulkerson.cpp:181-184 | passing over a neighbour without labelling it keeps every label and labels nothing new |
| Levels.GrownLabel | FordFulkerson.cpp:181-186 | labelling an unlabelled neighbour one deeper than `current` keeps every existing label, and the new label is on a listed neighbour |
| Levels.BfsStart | FordFulkerson.cpp:166-168 | labels of -1 everywhere except the source's 0, with the queue holding only the source, satisfy the BFS invariant |
| Levels.BfsBeginExpand | FordFulkerson.cpp:171-177 | taking the next queue entry starts its expansion with every lower level closed |
| Levels.BfsSkip | FordFulkerson.cpp:183-185 | a neighbour that is already labelled keeps the invariant |
| Levels.BfsDiscover | FordFulkerson.cpp:183-194 | labelling an unlabelled neighbour one deeper and enqueueing it keeps the invariant, and the queue still has room |
| Levels.BfsReachSink | FordFulkerson.cpp:186-192 | labelling the sink yields a labelling whose labels are shortest distances, the sink reachable, no label above the sink's, and every node a residual path of fewer edges than the sink's label reaches already labelled |
| Levels.BfsEndExpand | FordFulkerson.cpp:177-196 | after its last neighbour the expanded node is closed: all its positive-capacity successors are labelled |
| Levels.BfsExhausted | FordFulkerson.cpp:171-200 | once the queue drains, every node reachable from the source is labelled, so an unlabelled sink is unreachable |
| Levels.QueueDistinct | FordFulkerson.cpp:168-194 | no node is enqueued twice, so `back` never exceeds the node count |
| Levels.LowerLevelsClosed | FordFulkerson.cpp:171-177 | when an entry is dequeued, every node on a lower level has been fully expanded |
| Levels.Discover | FordFulkerson.cpp:183-194 | labelling `v` at `d + 1` from a node at `d` keeps the labelling, the shortest-distance property and the ordered, duplicate-free queue |
| Levels.LabellingExtend | FordFulkerson.cpp:186 | giving an unlabelled successor of a labelled node that node's label plus one keeps a labelling |
| Levels.ShortestExtend | FordFulkerson.cpp:186 | a new label one above the deepest closed level is still no longer than any residual path |
| Levels.BoundedReach | FordFulkerson.cpp:171-200 | a residual path from the source no longer than the closed levels ends at a labelled node |
| Levels.ExhaustedReach | FordFulkerson.cpp:171-200 | if every labelled node is closed, every node reachable from the source is labelled |
| Levels.LevelPathTo | FordFulkerson.cpp:186 | parents lead from any labelled node back to the source along a residual path that meets label `i` at position `i` |
| Levels.LabelledIsReachable | FordFulkerson.cpp:186 | a labelled node is reachable from the source |
| Levels.LevelPathAdmissible | FordFulkerson.cpp:103-108 | when the snapshot has just been copied from the live matrix, a labelled sink has a level-graph path, so every phase commits at least one path |
| MaxFlow.FordFulkerson.ClearMaxFlowAtNode | FordFulkerson.cpp:372-394 | column `node` of the snapshot becomes zero and nothing else changes; the live graph is untouched |
| Matrix.ClearingShrinksLiveColumns | FordFulkerson.cpp:377-380 | clearing a column that held a positive entry removes it from the live columns and revives none |
| MaxFlow.FordFulkerson.FirstAdmissible | FordFulkerson.cpp:525-536 | the scan finds a neighbour iff `node` has a level-graph successor, and the one it finds is the lowest-numbered such successor; it changes nothing |
| MaxFlow.FordFulkerson.FindNextNodeInPath | FordFulkerson.cpp:504-583 | an advance leaves the snapshot alone, appends the node when not backtracking, and moves to the lowest-numbered neighbour with positive live and snapshot capacity one level deeper. A failure happens only at the source when no such neighbour exists. A retreat happens only away from the source when no such neighbour exists; it clears that node's snapshot column, pops it and moves to the new last node |
| Paths.ScanStopsAtFirst | FordFulkerson.cpp:525-536 | stopping the ascending neighbour scan at the first level-graph edge finds the lowest-numbered level-graph successor |
| Paths.ScanFindsNone | FordFulkerson.cpp:525-551 | a full scan that meets no level-graph edge proves the node has no level-graph successor |
| MaxFlow.FordFulkerson.FindAugmentingPath | FordFulkerson.cpp:243-289 | the snapshot is only pruned and keeps every level-graph path it had; a path is found iff the ends differ and the starting snapshot had a level-graph path; a found path is a level-graph path from source to sink of distinct nodes |
| PathSearch.SearchStart | FordFulkerson.cpp:251-252 | the search starts at the source on the untouched snapshot |
| PathSearch.SearchAdvance | FordFulkerson.cpp:525-544 | following a level-graph edge to a node other than the sink keeps the search invariant and lengthens the walk, within the node count |
| PathSearch.SearchRetreat | FordFulkerson.cpp:553-569 | pruning a dead end and popping it keeps the search invariant and shrinks the snapshot's live columns |
| PathSearch.SearchArrive | FordFulkerson.cpp:266-271 | stepping into the sink completes a level-graph path of distinct nodes, so the starting snapshot was not blocked |
| PathSearch.SearchStuck | FordFulkerson.cpp:546-551 | a search stuck at the source proves the starting snapshot had no level-graph path |
| Paths.AdmissiblePathLevels | FordFulkerson.cpp:519-536 | on a level-graph path from a node labelled 0, position `i` carries label `i`, so no node repeats |
| Paths.WalkDistinct | FordFulkerson.cpp:519-536 | the nodes of the working walk lie on distinct levels, so they are distinct and at most the node count |
| Paths.WalkAdvance | FordFulkerson.cpp:531-544 | a level-graph step to a node other than the sink extends the working walk |
| Paths.WalkArrive | FordFulkerson.cpp:266-271 | a level-graph step into the sink turns the walk into a level-graph path of distinct nodes |
| Paths.WalkRetreat | FordFulkerson.cpp:553-566 | pruning the walk's dead-end last node drops it from the walk, shrinks the live columns and keeps every level-graph path |
| Paths.DeadEndPruneKeepsPaths | FordFulkerson.cpp:555 | clearing the column of a non-sink node without a level-graph successor removes no source-to-sink level-graph path |
| Paths.PrunedPathWasThere | FordFulkerson.cpp:379 | zeroing snapshot entries can only remove level-graph paths |
| Paths.PrunedLosesNoBlock | FordFulkerson.cpp:615 | a blocked snapshot stays blocked when pruned further |
| Paths.StuckSourceIsBlocked | FordFulkerson.cpp:546-551 | a source without a level-graph successor has no level-graph path to a different sink |
| MaxFlow.AdmissiblePathHasCapacity | FordFulkerson.cpp:525-536 | a found level-graph path of distinct nodes is an augmenting path of the live graph: it has at least two nodes, runs from source to sink and has positive live capacity on every edge |
| MaxFlow.FordFulkerson.UpdateResidualGraph | FordFulkerson.cpp:313-350 | an out-of-range endpoint is an `OutOfRange` failure that changes nothing; otherwise the live matrix is the one-unit push over `src -> dst` |
| Residual.PushEffect | FordFulkerson.cpp:335-336 | a push lowers the forward entry by one and raises the reverse entry by one, changes no other entry, leaves a self-loop as it was, and conserves every pair's `adj[u][v] + adj[v][u]` |
| MaxFlow.FordFulkerson.CommitPath | FordFulkerson.cpp:630-637 | the live matrix becomes the old one with one unit pushed over every consecutive pair of the path, first to last |
| Residual.PushPathConservesMass | FordFulkerson.cpp:630-637 | pushing along a path conserves every pair's residual mass |
| Residual.PushPathKeepsNonNegative | FordFulkerson.cpp:630-637 | pushing along a path of distinct nodes with positive capacity on every edge keeps a non-negative matrix non-negative |
| Residual.PushPathStartRow | FordFulkerson.cpp:630-637 | a path that never returns to its start lowers exactly one entry of the start row, the one towards the second node, by one |
| Residual.PushPathCommit | FordFulkerson.cpp:630-640 | committing a found path conserves mass, keeps capacities non-negative and takes exactly one unit out of the source's row |
| Residual.AugmentedAlongSnoc | FordFulkerson.cpp:615-640 | committing one more augmenting path of the current matrix extends the phase's record of committed paths |
| Residual.AugmentedAlongAppend | FordFulkerson.cpp:103-110 | the paths of one phase, pushed from the matrix the earlier phases left, extend the record of every path committed so far |
| Residual.AugmentedAlongDrainsSource | FordFulkerson.cpp:630-637 | pushing one unit along each of a sequence of augmenting paths conserves every pair's mass, keeps capacities non-negative and lowers the source's positive capacity by exactly the number of paths |
| MaxFlow.FordFulkerson.AugmentFlowAlongPath | FordFulkerson.cpp:608-655 | the live matrix ends as the old one with one unit pushed along each committed path in order, each an augmenting path from source to sink of the matrix before it; the number of paths equals the drop in the source's positive capacity; at least one path is committed when the phase starts with a level-graph path; the final snapshot is a pruning of the starting one (each entry kept or zeroed) and holds no level-graph path; mass is conserved and capacities stay non-negative |
| MaxFlow.FordFulkerson.CalculateMaxFlow | FordFulkerson.cpp:82-123 | an out-of-range source or sink is an `InvalidArgument` failure that changes nothing: the live matrix, the labels and the snapshot keep their values and no path is committed. Otherwise the live matrix ends as the old one with one unit pushed along each path committed over all phases, each an augmenting path of the matrix before it, and the number of paths equals the drop in the source's positive capacity. It ends with the sink unreachable from the source (or equal to it). A sink that starts unreachable leaves the graph as it was. Mass is conserved and capacities stay non-negative |
| GraphPrepare.ValidateName | GraphPrepare.cpp:392-412 | the result is the cleaned name: only letters, digits and spaces; no leading space; no two spaces in a row; the input's letters and digits in order; no longer than the input |
| GraphPrepare.CleanNameWellFormed | GraphPrepare.cpp:397-407 | every cleaned name is well formed |
| GraphPrepare.CleanNameKeepsAlnums | GraphPrepare.cpp:397-407 | cleaning keeps exactly the input's letters and digits in order and never lengthens it |
| GraphPrepare.CleanNameFixesWellFormed | GraphPrepare.cpp:397-407 | a well-formed name is returned unchanged |
| GraphPrepare.CleanNameIdempotent | GraphPrepare.cpp:397-407 | cleaning a cleaned name changes nothing |
| GraphPrepare.CleanNameEmpty | GraphPrepare.cpp:397-407 | the cleaned name is empty iff the input has no letter or digit |
| GraphPrepare.ReadNodeName | GraphPrepare.cpp:345-356 | a name line is accepted iff it holds a letter or digit, giving its non-empty cleaned form; otherwise it is an `InvalidArgument` failure |
| GraphPrepare.ValidateNodes | GraphPrepare.cpp:234-246 | the count passes iff it is at least 2 and even; otherwise it is an `InvalidArgument` failure |
| GraphPrepare.ValidateEdges | GraphPrepare.cpp:299-311 | the count passes iff it is positive; otherwise it is an `InvalidArgument` failure |

## Left out

- File input in GraphPrepare.cpp (`fileRead`, `openFile`, `readNumberOfNodes`, `readNumberOfEdges`, `readEdges`, and the line loop of `readNodeNames`): it depends on streams and `stoi`. Only the per-line name check is modelled, as `ReadNodeName`.
- `parseEdge`: its behaviour is that of C++ stream extraction (whitespace, signs, overflow, ignored trailing text).
- BipartiteMatcher.cpp and Driver.cpp are not part of this model; they wire the parts together and handle the console.
- Printing and logging: `printResults` is modelled only as the pair and count extraction (`MatchedPairs`), and every error message is dropped.
- Exception wrapping: each method's catch-and-rethrow as `runtime_error` is collapsed into the error kind of the original throw.
- The path-flow minimum computed in `augmentFlowAlongPath` and never used: pushes are always one unit.
- `getAdjacencyMatrix` and `adjustAdjacencyMatrix` are plain reads and writes of the `adj` field.
- `std::isalnum` is taken to mean ASCII letters and digits; locales are not modelled.
- Capacities and counters are unbounded integers; C++ `int` overflow is not modelled.
- Optimality: the model proves that the flow loop ends with the sink unreachable, not that the matching is maximum (max-flow/min-cut), and not that the reported pairs form a matching.
- Indices for `createEdge` are in range by precondition, as they are unchecked in the source.
- MaxFlow.FordFulkerson.LevelGraph: labels are built in a local sequence and stored into `depth` when the search returns. The source writes `depth` entry by entry, but nothing reads it in between.
- MaxFlow.FordFulkerson.FindNextNodeInPath: while backtracking, it requires `node` to be the last element of `path`. Its only caller always keeps this, but the source does not check it.
- MaxFlow.FordFulkerson.FindAugmentingPath: the path is returned instead of being appended to the caller's vector. The caller's vector is always empty on entry: it is fresh at each phase and cleared after each commit.
- MaxFlow.FordFulkerson.AugmentFlowAlongPath: the phase's end is stated against the pruned snapshot, which then holds no level-graph path. That the live matrix's level graph is blocked as well (Dinic's blocking-flow property) is not stated.
- MaxFlow.FordFulkerson.InitializeMaxFlow: requires the snapshot to be empty, as it is at the only call, in the constructor. On a non-empty vector `resize` would keep the existing entries; that case is not modelled.
- MaxFlow.FordFulkerson.InitializeDepth: requires the label vector to be empty, as it is at the only call, in the constructor. On a non-empty vector `resize` would keep the existing entries; that case is not modelled.
