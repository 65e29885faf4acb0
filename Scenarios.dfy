/**
 * The unit-test scenarios of the graph, edge and pathfinder classes, replayed
 * against the model: each method builds the test's fixture through the
 * model's own operations and states the test's expected outcome.
 */
module Scenarios {
  import opened Wrappers
  import opened Edges
  import opened Graphs
  import opened Paths
  import opened Pathfinder

  // ---------------------------------------------------------------------
  // Graph and edge scenarios

  /** A self-loop is stored as the node's only out-edge. */
  method AddSelfEdge() returns (edges: Option<set<Edge<string, string>>>)
    ensures edges == Some({Edge("node1", "edge1")})
  {
    var graph := new DirectedGraph<string, string>();
    graph.AddNode("node1");
    graph.AddEdge("node1", Edge("node1", "edge1"));
    edges := graph.GetOutEdges("node1");
  }

  /** A new graph with the nodes node1 and node2 and no edges. */
  method TwoNodes() returns (graph: DirectedGraph<string, string>)
    ensures fresh(graph) && graph.Valid() && graph.nodeMap == map["node1" := {}, "node2" := {}]
  {
    graph := new DirectedGraph<string, string>();
    graph.AddNode("node1");
    graph.AddNode("node2");
  }

  /** Two edges between the same nodes with different data are both kept. */
  method AddMultipleEdgesBetweenNodes() returns (edges: Option<set<Edge<string, string>>>)
    ensures edges.Some? && |edges.value| == 2
    ensures edges == Some({Edge("node2", "edge1"), Edge("node2", "edge2")})
  {
    var graph := TwoNodes();
    var e1: Edge<string, string> := Edge("node2", "edge1");
    var e2: Edge<string, string> := Edge("node2", "edge2");
    graph.AddEdge("node1", e1);
    graph.AddEdge("node1", e2);
    edges := graph.GetOutEdges("node1");
    assert edges.value == {e1, e2};
    assert "edge1"[4] != "edge2"[4];
  }

  /** A graph with one node is not empty; the node has no out-edges; a stranger has none at all. */
  method NodeWithoutEdges() returns (empty: bool, edges: Option<set<Edge<string, string>>>,
                                     missing: Option<set<Edge<string, string>>>)
    ensures !empty && edges == Some({}) && missing == None
  {
    var graph := new DirectedGraph<string, string>();
    graph.AddNode("node1");
    empty := graph.IsEmpty();
    edges := graph.GetOutEdges("node1");
    missing := graph.GetOutEdges("node2");
  }

  /**
   * An edge gives back the destination and data it was built with, and is
   * equal exactly to the edges with the same destination and data.
   */
  method EdgeAccessorsAndEquality() returns (destination: string, data: string,
                                             same: bool, otherData: bool, otherDestination: bool)
    ensures destination == "node1" && data == "edge1"
    ensures same && !otherData && !otherDestination
  {
    var edge := Edge("node1", "edge1");
    destination := edge.destination;
    data := edge.data;
    same := edge.Equals(Edge("node1", "edge1"));
    otherData := edge.Equals(Edge("node1", "edge2"));
    otherDestination := edge.Equals(Edge("node2", "edge1"));
  }

  // ---------------------------------------------------------------------
  // Pathfinder scenarios

  /**
   * The pathfinder fixture: A -> B -> C -> A at weight 1 each, C -> D at 10,
   * D -> A at 1, and E with no edges at all.
   */
  function Fixture(): WeightedGraph<string>
  {
    map["A" := {Edge("B", 1.0)},
        "B" := {Edge("C", 1.0)},
        "C" := {Edge("A", 1.0), Edge("D", 10.0)},
        "D" := {Edge("A", 1.0)},
        "E" := {}]
  }

  /** Builds the fixture through the graph's own operations. */
  method SetUp() returns (graph: DirectedGraph<string, real>)
    ensures graph.Valid() && graph.nodeMap == Fixture()
  {
    graph := new DirectedGraph<string, real>();
    AddFixtureNodes(graph);
    AddCycleEdges(graph);
    AddOtherEdges(graph);
  }

  /** The fixture's nodes, none with edges yet. */
  function FixtureNodes(): WeightedGraph<string>
  {
    map["A" := {}, "B" := {}, "C" := {}, "D" := {}, "E" := {}]
  }

  /** The fixture's nodes with the cycle A -> B -> C -> A. */
  function FixtureCycle(): WeightedGraph<string>
  {
    FixtureNodes()["A" := {Edge("B", 1.0)}]["B" := {Edge("C", 1.0)}]["C" := {Edge("A", 1.0)}]
  }

  method AddFixtureNodes(graph: DirectedGraph<string, real>)
    requires graph.Valid() && graph.nodeMap == map[]
    modifies graph
    ensures graph.Valid() && graph.nodeMap == FixtureNodes()
  {
    graph.AddNode("A");
    graph.AddNode("B");
    graph.AddNode("C");
    graph.AddNode("D");
    graph.AddNode("E");
  }

  method AddCycleEdges(graph: DirectedGraph<string, real>)
    requires graph.Valid() && graph.nodeMap == FixtureNodes()
    modifies graph
    ensures graph.Valid() && graph.nodeMap == FixtureCycle()
  {
    graph.AddEdge("A", Edge("B", 1.0));
    graph.AddEdge("B", Edge("C", 1.0));
    graph.AddEdge("C", Edge("A", 1.0));
    assert graph.nodeMap["A"] == {Edge("B", 1.0)};
    assert graph.nodeMap["B"] == {Edge("C", 1.0)};
    assert graph.nodeMap["C"] == {Edge("A", 1.0)};
  }

  method AddOtherEdges(graph: DirectedGraph<string, real>)
    requires graph.Valid() && graph.nodeMap == FixtureCycle()
    modifies graph
    ensures graph.Valid() && graph.nodeMap == Fixture()
  {
    graph.AddEdge("C", Edge("D", 10.0));
    graph.AddEdge("D", Edge("A", 1.0));
    assert graph.nodeMap["C"] == {Edge("A", 1.0), Edge("D", 10.0)};
    assert graph.nodeMap["D"] == {Edge("A", 1.0)};
  }

  /**
   * The fixture's weights are non-negative. The only edge into D is C -> D,
   * the only edge into C is B -> C, the only edge into B is A -> B, and every
   * edge into A costs more than 0.
   */
  lemma FixtureFacts()
    ensures NonNegative(Fixture())
    ensures forall n, e :: n in Fixture() && e in Fixture()[n] && e.destination == "D" ==>
              n == "C" && e.data == 10.0
    ensures forall n, e :: n in Fixture() && e in Fixture()[n] && e.destination == "C" ==>
              n == "B" && e.data == 1.0
    ensures forall n, e :: n in Fixture() && e in Fixture()[n] && e.destination == "B" ==>
              n == "A" && e.data == 1.0
    ensures forall n, e :: n in Fixture() && e in Fixture()[n] && e.destination == "A" ==> 0.0 < e.data
  {
    var g := Fixture();
    forall n: string, e: Edge<string, real> | n in g && e in g[n]
      ensures 0.0 < e.data
      ensures e.destination == "D" ==> n == "C" && e.data == 10.0
      ensures e.destination == "C" ==> n == "B" && e.data == 1.0
      ensures e.destination == "B" ==> n == "A" && e.data == 1.0
    {
      if n == "C" {
        assert e == Edge("A", 1.0) || e == Edge("D", 10.0);
      }
    }
  }

  /** The cost of a cheapest path from A to each node of the fixture other than E. */
  function FixtureDistances(): map<string, real>
  {
    map["A" := 0.0, "B" := 1.0, "C" := 2.0, "D" := 12.0]
  }

  /** No path of the fixture from A to a node costs less than that node's listed distance. */
  lemma FixtureDistancesAreLowerBounds()
    ensures forall x :: x in FixtureDistances() ==> LowerBound(Fixture(), "A", x, FixtureDistances()[x])
  {
    var g := Fixture();
    var d := FixtureDistances();
    forall n: string, e: Edge<string, real> | n in g && e in g[n]
      ensures n in d && e.destination in d && d[e.destination] <= d[n] + e.data
    {
      if n == "C" {
        assert e == Edge("A", 1.0) || e == Edge("D", 10.0);
      }
    }
    forall x, q | x in d && IsPathFrom(g, "A", q) && q.End() == x
      ensures d[x] <= q.Cost()
    {
      PotentialBound(g, "A", d, q);
    }
  }

  /** The route from a node to itself is the path with no segments. */
  method DijkstraBetweenSame() returns (r: Option<Path<string>>)
    ensures r == Some(Path.Singleton("A"))
  {
    var graph := SetUp();
    FixtureFacts();
    ghost var expanded;
    r, expanded := Dijkstra(graph, "A", "A");
  }

  /** E has no edges into it, so there is no route from A to it. */
  method DijkstraNonExistentPath() returns (r: Option<Path<string>>)
    ensures r == None
  {
    var graph := SetUp();
    FixtureFacts();
    NoEdgeInto(graph.nodeMap, "A", "E");
    ghost var expanded;
    r, expanded := Dijkstra(graph, "A", "E");
  }

  /** The path A -> B -> C -> D of the fixture. */
  function ExpectedRoute(): Path<string>
  {
    Path.Singleton("A").Extend("B", 1.0).Extend("C", 1.0).Extend("D", 10.0)
  }

  /** Around the cycle A -> B -> C -> A the route to D is A -> B -> C -> D, costing 12. */
  method DijkstraMultiplePathsAndCycles() returns (r: Option<Path<string>>)
    ensures r == Some(ExpectedRoute())
    ensures r.value.Cost() == 12.0
  {
    var graph := SetUp();
    FixtureFacts();
    ghost var expanded;
    ExpectedRouteIsPath();
    r, expanded := Dijkstra(graph, "A", "D");
    OnlyRouteWithinTwelve(r.value);
  }

  /** A -> B -> C -> D is a path of the fixture costing 12. */
  lemma ExpectedRouteIsPath()
    ensures IsPathFrom(Fixture(), "A", ExpectedRoute()) && ExpectedRoute().End() == "D"
    ensures ExpectedRoute().Cost() == 12.0
  {
    var g := Fixture();
    assert Edge("B", 1.0) in g["A"] && Edge("C", 1.0) in g["B"] && Edge("D", 10.0) in g["C"];
    ThreeEdgeRoute(g, "A", "B", "C", "D", 1.0, 1.0, 10.0);
  }

  /** Three consecutive edges of a graph, followed from `a`, form a path costing their total weight. */
  lemma ThreeEdgeRoute<T(!new)>(g: WeightedGraph<T>, a: T, b: T, c: T, d: T, w1: real, w2: real, w3: real)
    requires a in g && b in g && c in g
    requires Edge(b, w1) in g[a] && Edge(c, w2) in g[b] && Edge(d, w3) in g[c]
    ensures var p := Path.Singleton(a).Extend(b, w1).Extend(c, w2).Extend(d, w3);
            IsPathFrom(g, a, p) && p.End() == d && p.Cost() == w1 + w2 + w3
  {
    var p0 := Path.Singleton(a);
    var p1 := p0.Extend(b, w1);
    var p2 := p1.Extend(c, w2);
    ExtendIsPath(g, a, p0, Edge(b, w1));
    ExtendIsPath(g, a, p1, Edge(c, w2));
    ExtendIsPath(g, a, p2, Edge(d, w3));
  }

  /** Every path of the fixture from A to D costing at most 12 is A -> B -> C -> D. */
  lemma OnlyRouteWithinTwelve(q: Path<string>)
    requires IsPathFrom(Fixture(), "A", q) && q.End() == "D" && q.Cost() <= 12.0
    ensures q == ExpectedRoute()
  {
    FixtureFacts();
    ThreeEdgeRouteUnique(Fixture(), "A", "B", "C", "D", 1.0, 1.0, 10.0, q);
  }

  /**
   * When the only way into `d` is from `c` at `w3`, into `c` from `b` at
   * `w2` and into `b` from `a` at `w1`, and no edge into `a` is free, the
   * only path from `a` to `d` costing at most `w1 + w2 + w3` follows those
   * three edges.
   */
  lemma ThreeEdgeRouteUnique<T(!new)>(g: WeightedGraph<T>, a: T, b: T, c: T, d: T,
                                      w1: real, w2: real, w3: real, q: Path<T>)
    requires NonNegative(g) && a != b && a != c && a != d
    requires forall n, e :: n in g && e in g[n] && e.destination == d ==> n == c && e.data == w3
    requires forall n, e :: n in g && e in g[n] && e.destination == c ==> n == b && e.data == w2
    requires forall n, e :: n in g && e in g[n] && e.destination == b ==> n == a && e.data == w1
    requires forall n, e :: n in g && e in g[n] && e.destination == a ==> 0.0 < e.data
    requires IsPathFrom(g, a, q) && q.End() == d && q.Cost() <= w1 + w2 + w3
    ensures q == Path.Singleton(a).Extend(b, w1).Extend(c, w2).Extend(d, w3)
  {
    OnlyWayIn(g, a, c, d, w3, q);
    var q1 := q.DropLast();
    OnlyWayIn(g, a, b, c, w2, q1);
    var q2 := q1.DropLast();
    OnlyWayIn(g, a, a, b, w1, q2);
    var q3 := q2.DropLast();
    ReturnCosts(g, a, q3);
    assert q3.segments == [];
  }

  /**
   * When every edge into `d` comes from `c` and weighs `w`, a graph path from
   * `s != d` to `d` is a path from `s` to `c` extended over that edge.
   */
  lemma OnlyWayIn<T(!new)>(g: WeightedGraph<T>, s: T, c: T, d: T, w: real, q: Path<T>)
    requires forall n, e :: n in g && e in g[n] && e.destination == d ==> n == c && e.data == w
    requires IsPathFrom(g, s, q) && q.End() == d && s != d
    ensures q.segments != []
    ensures IsPathFrom(g, s, q.DropLast()) && q.DropLast().End() == c
    ensures q == q.DropLast().Extend(d, w) && q.Cost() == q.DropLast().Cost() + w
  {
    DropLastIsPath(g, s, q);
    var last := q.segments[|q.segments| - 1];
    assert Edge(last.end, last.cost) in g[last.start];
    DropLastExtend(q);
  }

  /** In a graph without negative weights, a path back to its start over a positive edge costs more than 0. */
  lemma ReturnCosts<T(!new)>(g: WeightedGraph<T>, s: T, q: Path<T>)
    requires NonNegative(g)
    requires forall n, e :: n in g && e in g[n] && e.destination == s ==> 0.0 < e.data
    requires IsPathFrom(g, s, q) && q.End() == s
    ensures q.segments != [] ==> 0.0 < q.Cost()
  {
    if q.segments != [] {
      DropLastIsPath(g, s, q);
      GraphPathCostsNonNegative(g, s, q.DropLast());
      var last := q.segments[|q.segments| - 1];
      assert Edge(last.end, last.cost) in g[last.start];
    }
  }
}
