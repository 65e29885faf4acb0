# CampusMaps core in Dafny

This project models the back end of CampusMaps, a campus route finder, and proves its properties. The back end has four parts:

- a mutable directed graph whose out-edges carry data (`DirectedGraph`, `DataEdge`);
- Dijkstra's shortest-path search over a graph whose edge data are distances (`WeightedPathfinder.dijkstra`);
- the `ModelConnector`, which loads building and walkway records into name maps and a graph of walkway end points, and answers queries about buildings and routes;
- the `Path` value the search builds. Its class is not part of this model's sources, so it is modelled from how the search and the connector use it.

Files:

- `Wrappers.dfy`: `Option` and `Result`. `None` stands for Java's `null`, and `Failure(IllegalArgument)` for a thrown `IllegalArgumentException`.
- `DataEdge.dfy` (module `Edges`): the immutable edge value, its equality and its hash code.
- `DirectedGraph.dfy` (module `Graphs`): the graph as a class.
  - Its one field `nodeMap` maps each node to its set of out-edges.
  - `Valid()` is the representation invariant: every edge points to a node.
- `Path.dfy` (module `Paths`): a path is a start node plus its segments.
  - A segment is a start, an end and a cost.
  - A path's cost is the sum of its segment costs.
- `WeightedPathfinder.dfy` (module `Pathfinder`):
  - what a path of a graph is, and what reachable and shortest mean;
  - the search invariant and its lemmas;
  - the loop over out-edges (`PushExtensions`);
  - the search itself (`Dijkstra`).
- `ModelConnector.dfy` (module `Campus`):
  - the record types, and what loading the records produces (`Indexed`, `Walkways`), with its lemmas;
  - the `ModelConnector` class, with its loading loops and its queries.
- `Scenarios.dfy`: the unit tests of the graph, the edge and the pathfinder, replayed against the model. Each scenario states the test's expected outcome as a postcondition.

How the search is modelled:

- The priority queue is a multiset of paths.
- The heap's `remove` becomes "take any path of least cost" (`IsMinimal`).
- `known` is a set.
- The method carries two ghost values that the source does not have:
  - the cost at which each known node was settled;
  - `expanded`, the order in which nodes were expanded.
- The loop keeps `LoopInv`. Each branch of the loop body is discharged by one step lemma (`FoundStep`, `ExpandStep`, `DiscardStep`); after the loop, `ExhaustedStep` covers the empty queue.
- The lemma at the centre of the proof is `FrontierCovers`. Every graph path from `start` that ends outside `known` costs at least as much as some queued path.
- Termination: the loop decreases the pair (number of unknown nodes, queue size) in lexicographic order.

## Model

| member | source | states |
|---|---|---|
| Edges.Edge.Equals | src/main/java/graph/DataEdge.java:55-68 | two edges are equal iff destinations and data are both equal, i.e. iff they are the same value |
| Edges.EqualsIsEquivalence | src/main/java/graph/DataEdge.java:62-68 | edge equality is reflexive, symmetric and transitive |
| Edges.EqualEdgesHashEqual | src/main/java/graph/DataEdge.java:70-78 | `Edges.Edge.HashCode` is `hashCode`'s formula `31 * h(destination) ^ h(data)` in 32-bit arithmetic; equal edges have equal hash codes under it, for any node and data hash functions |
| Graphs.DirectedGraph.constructor | src/main/java/graph/DirectedGraph.java:46-50 | a new graph satisfies the representation invariant, has no nodes and is empty |
| Graphs.DirectedGraph.GetNodes | src/main/java/graph/DirectedGraph.java:52-60 | the node set is exactly the keys of the node map, returned as a value |
| Graphs.DirectedGraph.GetOutEdges | src/main/java/graph/DirectedGraph.java:62-78 | absent iff the node is not in the graph; otherwise exactly the node's stored out-edge set, which may be empty |
| Graphs.DirectedGraph.IsEmpty | src/main/java/graph/DirectedGraph.java:113-119 | true iff the graph has no nodes |
| Graphs.DirectedGraph.AddNode | src/main/java/graph/DirectedGraph.java:80-93 | for an absent node: afterwards it is a node with no out-edges, every other node keeps its out-edges, and every edge still points to a node |
| Graphs.DirectedGraph.AddEdge | src/main/java/graph/DirectedGraph.java:95-111 | when both ends are nodes: the origin's out-edges gain the edge; the node set and all other nodes' edges are unchanged; re-adding a present edge changes nothing; every edge still points to a node |
| Paths.Path.Singleton | src/main/java/pathfinder/WeightedPathfinder.java:39 | the start path begins and ends at the node, has no segments and costs 0 |
| Paths.Path.Extend | src/main/java/pathfinder/WeightedPathfinder.java:52 | the extended path keeps the start and the old segments, adds one segment from the old end to the new node with the edge weight, ends at the new node, and costs the old cost plus the weight |
| Paths.CostNonNegative | src/main/java/pathfinder/WeightedPathfinder.java:35-39 | a path whose segments all cost at least 0 costs at least 0 |
| Pathfinder.GraphPathCostsNonNegative | src/main/java/pathfinder/WeightedPathfinder.java:27-28 | in a graph without negative weights, every path has non-negative segments and a non-negative cost |
| Pathfinder.ExtendIsPath | src/main/java/pathfinder/WeightedPathfinder.java:48-53 | extending a graph path over an out-edge of its end gives a graph path |
| Pathfinder.EndIsNode | src/main/java/pathfinder/WeightedPathfinder.java:48 | every graph path from a node ends at a node, so the out-edge lookup of a popped path never comes back absent |
| Pathfinder.PotentialBound | src/main/java/pathfinder/WeightedPathfinder.java:21-30 | a certificate of the optimality the search promises, separate from the search itself: a potential that is 0 at the start and rises along no edge by more than the edge's weight is a lower bound on every path's cost |
| Pathfinder.NoEdgeInto | src/main/java/pathfinder/WeightedPathfinder.java:31 | a node that no edge enters cannot be reached from any other node |
| Pathfinder.FrontierCovers | src/main/java/pathfinder/WeightedPathfinder.java:42-56 | under the search invariant, every graph path from the start to an unknown node costs at least as much as some queued path |
| Pathfinder.MinimalIsLowerBound | src/main/java/pathfinder/WeightedPathfinder.java:35-45 | a cheapest queued path costs no more than any graph path from the start to an unknown node |
| Pathfinder.ExhaustedMeansKnown | src/main/java/pathfinder/WeightedPathfinder.java:41-58 | with an empty queue, every node reachable from the start is known, so the destination is unreachable |
| Pathfinder.DiscardKeepsInv | src/main/java/pathfinder/WeightedPathfinder.java:43-47 | dropping a popped path whose end is already known keeps the search invariant |
| Pathfinder.ExpandKeepsInv | src/main/java/pathfinder/WeightedPathfinder.java:47-56 | expanding a cheapest path to an unknown node keeps the search invariant once its out-edges to unknown nodes are covered |
| Pathfinder.MinimalExists | src/main/java/pathfinder/WeightedPathfinder.java:42-43 | a non-empty queue has a path of least cost to remove |
| Pathfinder.PushExtensions | src/main/java/pathfinder/WeightedPathfinder.java:50-54 | the loop over the out-edges adds to the queue exactly one extension of the popped path per edge whose destination is unknown |
| Pathfinder.ExtensionsCover | src/main/java/pathfinder/WeightedPathfinder.java:50-54 | after that loop every queued path is a graph path from the start, and every out-edge to an unknown node is covered by a queued path |
| Pathfinder.InitStep | src/main/java/pathfinder/WeightedPathfinder.java:35-39 | the queue holding only the start path, with nothing known, satisfies the loop invariant |
| Pathfinder.FoundStep | src/main/java/pathfinder/WeightedPathfinder.java:43-46 | a cheapest queued path that ends at the destination is a shortest path to it, and it is the start path when start and destination coincide |
| Pathfinder.DiscardStep | src/main/java/pathfinder/WeightedPathfinder.java:42-47 | discarding a path to a known node keeps the loop invariant and shrinks the queue |
| Pathfinder.ExpandStep | src/main/java/pathfinder/WeightedPathfinder.java:47-56 | expanding a cheapest path to an unknown node keeps the loop invariant, records the node once in the expansion order, and leaves one unknown node fewer |
| Pathfinder.ExhaustedStep | src/main/java/pathfinder/WeightedPathfinder.java:57-58 | an exhausted queue means the destination is unreachable and differs from the start, and that every node reachable from the start has been expanded |
| Pathfinder.ExpandedNodes | src/main/java/pathfinder/WeightedPathfinder.java:47-55 | each node is expanded at most once, and only nodes of the graph are expanded |
| Pathfinder.Dijkstra | src/main/java/pathfinder/WeightedPathfinder.java:20-59 | the result is present iff the destination is reachable; a present result is a shortest graph path from start to destination; the path with no segments when start equals destination; the graph is only read; no node is expanded twice; when no route is found, every node reachable from the start has been expanded |
| Campus.AddWalkway | src/main/java/pathfinder/ModelConnector.java:102-111 | one walkway record adds its two end points as nodes and gives its start the out-edge to its end with its distance; every other node keeps its out-edges, and a repeated record changes nothing because out-edges are a set |
| Campus.IndexedKeys | src/main/java/pathfinder/ModelConnector.java:84-91 | loading building records adds exactly their short names as keys, for the long-name map and the position map alike |
| Campus.IndexedUntouched | src/main/java/pathfinder/ModelConnector.java:87-90 | a name that no record carries keeps its old value |
| Campus.IndexedLastWins | src/main/java/pathfinder/ModelConnector.java:87-90 | when several records share a short name, the last of them decides its value |
| Campus.IndexedFromRecord | src/main/java/pathfinder/ModelConnector.java:87-90 | every loaded name holds the value of the last record that carries it |
| Campus.WalkwaysNodes | src/main/java/pathfinder/ModelConnector.java:100-113 | after loading, the nodes are the old nodes plus every walkway's two end points |
| Campus.WalkwaysEdges | src/main/java/pathfinder/ModelConnector.java:100-113 | after loading, a node's out-edges are its old ones plus the edge of each walkway record that starts there, and no others |
| Campus.WalkwaysClosed | src/main/java/pathfinder/ModelConnector.java:100-113 | loading walkways keeps every edge pointing to a node |
| Campus.WalkwaysNonNegative | src/main/java/pathfinder/ModelConnector.java:100-113 | walkways of non-negative length keep every edge weight non-negative |
| Campus.ModelConnector.constructor | src/main/java/pathfinder/ModelConnector.java:59-75 | after loading the records, the two maps and the graph are what the records describe, the graph is a new object no caller shares, and the representation invariant holds |
| Campus.ModelConnector.PopulateBuildings | src/main/java/pathfinder/ModelConnector.java:77-92 | the loop leaves both building maps equal to the records put in order |
| Campus.ModelConnector.PopulatePaths | src/main/java/pathfinder/ModelConnector.java:93-113 | the loop adds each end point only when absent and one edge per record, leaving the graph equal to the walkways loaded in order with its invariant intact |
| Campus.ModelConnector.ShortNameExists | src/main/java/pathfinder/ModelConnector.java:115-121 | true iff some building record carries the short name |
| Campus.ModelConnector.LongNameForShort | src/main/java/pathfinder/ModelConnector.java:123-133 | fails with IllegalArgument iff the name is unknown; otherwise the long name of the last record with that short name |
| Campus.ModelConnector.BuildingNames | src/main/java/pathfinder/ModelConnector.java:135-140 | a map, as a value, whose keys are exactly the records' short names and whose entries agree with `LongNameForShort` |
| Campus.ModelConnector.FindShortestPath | src/main/java/pathfinder/ModelConnector.java:142-158 | fails with IllegalArgument iff either name is unknown; otherwise the route is present iff one exists between the two buildings' locations, a present route is a shortest one, and the route from a location to itself has no segments |
| Scenarios.AddSelfEdge | src/test/java/graph/implTest/DirectedGraphTest.java:62-68 | a self-loop is the node's only out-edge |
| Scenarios.AddMultipleEdgesBetweenNodes | src/test/java/graph/implTest/DirectedGraphTest.java:70-80 | two edges between the same nodes with different data are both kept |
| Scenarios.NodeWithoutEdges | src/test/java/graph/implTest/DirectedGraphTest.java:56-101 | a graph with a node is not empty; the node's out-edges are empty; an unknown node's are absent |
| Scenarios.EdgeAccessorsAndEquality | src/test/java/graph/implTest/LabeledEdgeTest.java:33-61 | the accessors return the constructor arguments; edge equality holds for equal fields and fails when either field differs |
| Scenarios.SetUp | src/test/java/pathfinder/implTest/WeightedPathfinderTest.java:27-40 | the fixture graph built by the graph's own operations is exactly the five nodes A to E with the five listed edges |
| Scenarios.FixtureDistancesAreLowerBounds | src/test/java/pathfinder/implTest/WeightedPathfinderTest.java:27-40 | in the fixture, no path from A costs less than 0 to A, 1 to B, 2 to C or 12 to D |
| Scenarios.DijkstraBetweenSame | src/test/java/pathfinder/implTest/WeightedPathfinderTest.java:42-46 | the route from A to A is the path with no segments |
| Scenarios.DijkstraNonExistentPath | src/test/java/pathfinder/implTest/WeightedPathfinderTest.java:48-52 | there is no route from A to E |
| Scenarios.DijkstraMultiplePathsAndCycles | src/test/java/pathfinder/implTest/WeightedPathfinderTest.java:54-61 | the route from A to D, despite the cycle through A, is exactly A -> B -> C -> D, costing 12 |
| Scenarios.OnlyRouteWithinTwelve | src/test/java/pathfinder/implTest/WeightedPathfinderTest.java:54-61 | in the fixture, every path from A to D that costs at most 12 is A -> B -> C -> D |
| Scenarios.ThreeEdgeRouteUnique | src/test/java/pathfinder/implTest/WeightedPathfinderTest.java:54-61 | when each of three nodes can be entered by one edge only and no edge back into the start is free, the path along those three edges is the only one costing at most their total |

## Left out

- Input and output. The parser that reads building and walkway records from data files is not part of this model; the records are constructor parameters. The text interface, the web server, the React front end and the unit-test driver are not modelled either.
- Floating point. Weights, coordinates and costs are mathematical reals. `Double.compare` corner cases (NaN, -0.0) and rounding of summed costs are not modelled.
- Null. Dafny values cannot be null. The null checks on short names in `findShortestPath`, and the non-null parts of the representation invariants, have no counterpart.
- The heap. The `PriorityQueue` is a multiset, and `remove` takes any path of least cost. The model does not fix which of several equally cheap paths comes first.
- Debug checks. The `DEBUG`-gated `checkRep` loops and Java `assert`s become the `Valid()` predicates. The defensive `HashSet`/`HashMap` copies are free, because sets and maps are values.
- Edges.Edge.HashCode: the hash functions of the node and data types are parameters, because their `hashCode` implementations are foreign code.
- Graphs.DirectedGraph.AddEdge: the source's precondition that the edge is not yet present is not required. Out-edges are a set, and the model proves that re-adding a present edge changes nothing.
- Campus.ModelConnector.constructor: requires that every walkway length is non-negative, and that the building kept under each short name (the last record carrying it) stands at a walkway's end point. The source takes both for granted of its data files. The second is the clause of its representation invariant, checked only under `DEBUG`, that every position in the position map is a node of the graph. Earlier records replaced by a later one with the same short name are not constrained. Without the clause, a route query from a building at an off-graph point to a building at a different point would iterate the null out-edge set and fail (two buildings at the same off-graph point get the path with no segments); the model does not capture that failure.
- Path: the `Path` class is not among the modelled sources. It is a start node plus a sequence of segments. Its cost is computed as the sum of the segment costs rather than stored, and its equality is structural.
- The remaining graph tests (empty after construction, several nodes, a single edge) are covered by the contracts of the graph operations, not by scenarios of their own.
