/**
 * The campus map behind the text and web front ends: buildings known by a
 * short name (with a long name and a location) and walkways between points,
 * held as a weighted directed graph whose nodes are path end points. Route
 * queries are answered by Dijkstra's search between two buildings' locations.
 *
 * The building and walkway records that the parser reads from its data files
 * are parameters here.
 */
module Campus {
  import opened Wrappers
  import opened Edges
  import opened Graphs
  import opened Paths
  import opened Pathfinder

  /** A location on the campus map. */
  datatype Point = Point(x: real, y: real)

  /** One building record: its short name, long name and location. */
  datatype CampusBuilding = CampusBuilding(shortName: string, longName: string, x: real, y: real)

  /** One walkway record: from (x1, y1) to (x2, y2), `distance` long. */
  datatype CampusPath = CampusPath(x1: real, y1: real, x2: real, y2: real, distance: real)

  function LongName(b: CampusBuilding): string { b.longName }

  function Location(b: CampusBuilding): Point { Point(b.x, b.y) }

  function StartOf(p: CampusPath): Point { Point(p.x1, p.y1) }

  function EndOf(p: CampusPath): Point { Point(p.x2, p.y2) }

  /** The short names that occur in `bs`. */
  function ShortNames(bs: seq<CampusBuilding>): set<string>
  {
    set b | b in bs :: b.shortName
  }

  /** The points at which some walkway of `ps` starts or ends. */
  function Endpoints(ps: seq<CampusPath>): set<Point>
  {
    (set p | p in ps :: StartOf(p)) + (set p | p in ps :: EndOf(p))
  }

  /** No walkway of `ps` has a negative length. */
  predicate DistancesNonNegative(ps: seq<CampusPath>)
  {
    forall i :: 0 <= i < |ps| ==> 0.0 <= ps[i].distance
  }

  /** No record after the one at `i` has that record's short name. */
  ghost predicate LastWithName(bs: seq<CampusBuilding>, i: int)
    requires 0 <= i < |bs|
  {
    forall j :: i < j < |bs| ==> bs[j].shortName != bs[i].shortName
  }

  // ---------------------------------------------------------------------
  // Loading buildings

  /**
   * `m` after putting, record by record in order, each building's short
   * name with the value `value` gives for it.
   */
  function Indexed<V>(m: map<string, V>, bs: seq<CampusBuilding>, value: CampusBuilding -> V): map<string, V>
    decreases |bs|
  {
    if bs == [] then m
    else
      var b := bs[|bs| - 1];
      Indexed(m, bs[..|bs| - 1], value)[b.shortName := value(b)]
  }

  /** Loading adds exactly the short names of the records. */
  lemma {:induction false} IndexedKeys<V>(m: map<string, V>, bs: seq<CampusBuilding>, value: CampusBuilding -> V)
    ensures Indexed(m, bs, value).Keys == m.Keys + ShortNames(bs)
    decreases |bs|
  {
    if bs != [] {
      var init := bs[..|bs| - 1];
      IndexedKeys(m, init, value);
      assert bs == init + [bs[|bs| - 1]];
      assert ShortNames(bs) == ShortNames(init) + {bs[|bs| - 1].shortName};
    }
  }

  /** A name no record carries keeps the value it had. */
  lemma {:induction false} IndexedUntouched<V>(m: map<string, V>, bs: seq<CampusBuilding>,
                                              value: CampusBuilding -> V, k: string)
    requires k in m && k !in ShortNames(bs)
    ensures k in Indexed(m, bs, value) && Indexed(m, bs, value)[k] == m[k]
    decreases |bs|
  {
    if bs != [] {
      var init := bs[..|bs| - 1];
      assert bs[|bs| - 1] in bs;
      assert forall b :: b in init ==> b in bs;
      IndexedUntouched(m, init, value, k);
    }
  }

  /** When several records share a short name, the last of them decides its value. */
  lemma {:induction false} IndexedLastWins<V>(m: map<string, V>, bs: seq<CampusBuilding>,
                                             value: CampusBuilding -> V, i: int)
    requires 0 <= i < |bs| && LastWithName(bs, i)
    ensures bs[i].shortName in Indexed(m, bs, value)
    ensures Indexed(m, bs, value)[bs[i].shortName] == value(bs[i])
    decreases |bs|
  {
    if i < |bs| - 1 {
      var init := bs[..|bs| - 1];
      assert LastWithName(init, i) by {
        forall j | i < j < |init| ensures init[j].shortName != init[i].shortName {
          assert init[j] == bs[j];
        }
      }
      IndexedLastWins(m, init, value, i);
      assert init[i] == bs[i];
      assert bs[|bs| - 1].shortName != bs[i].shortName;
    }
  }

  /** Every short name that occurs has a last record carrying it. */
  lemma {:induction false} LastRecordExists(bs: seq<CampusBuilding>, k: string)
    requires k in ShortNames(bs)
    ensures exists i :: 0 <= i < |bs| && bs[i].shortName == k && LastWithName(bs, i)
    decreases |bs|
  {
    var n := |bs| - 1;
    if bs[n].shortName == k {
      assert LastWithName(bs, n);
    } else {
      var init := bs[..n];
      var b :| b in bs && b.shortName == k;
      var i0 :| 0 <= i0 < |bs| && bs[i0] == b;
      assert init[i0] == b;
      LastRecordExists(init, k);
      var i :| 0 <= i < |init| && init[i].shortName == k && LastWithName(init, i);
      assert bs[i] == init[i];
      assert LastWithName(bs, i) by {
        forall j | i < j < |bs| ensures bs[j].shortName != bs[i].shortName {
          if j < n {
            assert init[j] == bs[j];
          }
        }
      }
    }
  }

  /** Every name a record carries has the value of the last record that carries it. */
  lemma IndexedFromRecord<V>(m: map<string, V>, bs: seq<CampusBuilding>,
                             value: CampusBuilding -> V, k: string)
    requires k in ShortNames(bs)
    ensures exists i :: 0 <= i < |bs| && bs[i].shortName == k && LastWithName(bs, i)
                        && k in Indexed(m, bs, value) && Indexed(m, bs, value)[k] == value(bs[i])
  {
    LastRecordExists(bs, k);
    var i :| 0 <= i < |bs| && bs[i].shortName == k && LastWithName(bs, i);
    IndexedLastWins(m, bs, value, i);
  }

  // ---------------------------------------------------------------------
  // Loading walkways

  /**
   * One walkway record added to the graph `g`: each end point becomes a node
   * if it is not one yet, then an edge from the start to the end carrying the
   * distance.
   */
  function AddWalkway(g: WeightedGraph<Point>, p: CampusPath): (r: WeightedGraph<Point>)
    ensures r.Keys == g.Keys + {StartOf(p), EndOf(p)}
    ensures forall n :: n in r ==>
              r[n] == (if n in g then g[n] else {}) + (if n == StartOf(p) then {Edge(EndOf(p), p.distance)} else {})
  {
    var g1 := if StartOf(p) in g then g else g[StartOf(p) := {}];
    var g2 := if EndOf(p) in g1 then g1 else g1[EndOf(p) := {}];
    g2[StartOf(p) := g2[StartOf(p)] + {Edge(EndOf(p), p.distance)}]
  }

  /** `g` after adding the walkway records `ps` in order. */
  function Walkways(g: WeightedGraph<Point>, ps: seq<CampusPath>): WeightedGraph<Point>
    decreases |ps|
  {
    if ps == [] then g else AddWalkway(Walkways(g, ps[..|ps| - 1]), ps[|ps| - 1])
  }

  /** Some record of `ps` is a walkway from `n` over edge `e`. */
  ghost predicate WalkwayEdge(ps: seq<CampusPath>, n: Point, e: Edge<Point, real>)
  {
    exists i :: 0 <= i < |ps| && StartOf(ps[i]) == n && e == Edge(EndOf(ps[i]), ps[i].distance)
  }

  /** The end points of one more walkway. */
  lemma EndpointsSnoc(ps: seq<CampusPath>, p: CampusPath)
    ensures Endpoints(ps + [p]) == Endpoints(ps) + {StartOf(p), EndOf(p)}
  {
    assert forall q :: q in ps + [p] <==> q in ps || q == p;
  }

  /** The walkway edges of one more walkway. */
  lemma WalkwayEdgeSnoc(ps: seq<CampusPath>, p: CampusPath, n: Point, e: Edge<Point, real>)
    ensures WalkwayEdge(ps + [p], n, e) <==>
              WalkwayEdge(ps, n, e) || (StartOf(p) == n && e == Edge(EndOf(p), p.distance))
  {
    var ps' := ps + [p];
    if WalkwayEdge(ps', n, e) && !(StartOf(p) == n && e == Edge(EndOf(p), p.distance)) {
      var i :| 0 <= i < |ps'| && StartOf(ps'[i]) == n && e == Edge(EndOf(ps'[i]), ps'[i].distance);
      assert i < |ps| && ps'[i] == ps[i];
    }
    if WalkwayEdge(ps, n, e) {
      var i :| 0 <= i < |ps| && StartOf(ps[i]) == n && e == Edge(EndOf(ps[i]), ps[i].distance);
      assert ps'[i] == ps[i];
    }
    if StartOf(p) == n && e == Edge(EndOf(p), p.distance) {
      assert ps'[|ps|] == p;
    }
  }

  /** The nodes after loading are the old nodes and the walkways' end points. */
  lemma {:induction false} WalkwaysNodes(g: WeightedGraph<Point>, ps: seq<CampusPath>)
    ensures Walkways(g, ps).Keys == g.Keys + Endpoints(ps)
    decreases |ps|
  {
    if ps != [] {
      var init := ps[..|ps| - 1];
      var p := ps[|ps| - 1];
      WalkwaysNodes(g, init);
      assert ps == init + [p];
      EndpointsSnoc(init, p);
    }
  }

  /**
   * After loading, the out-edges of a node are its old ones plus one edge
   * for each walkway record that starts there, and no others.
   */
  lemma {:induction false} WalkwaysEdges(g: WeightedGraph<Point>, ps: seq<CampusPath>,
                                         n: Point, e: Edge<Point, real>)
    requires n in Walkways(g, ps)
    ensures e in Walkways(g, ps)[n] <==> (n in g && e in g[n]) || WalkwayEdge(ps, n, e)
    decreases |ps|
  {
    if ps != [] {
      var k := |ps| - 1;
      var init := ps[..k];
      var p := ps[k];
      assert ps == init + [p];
      WalkwayEdgeSnoc(init, p, n, e);
      var before := Walkways(g, init);
      if n in before {
        WalkwaysEdges(g, init, n, e);
      } else {
        WalkwaysNodes(g, init);
        assert !WalkwayEdge(init, n, e) by {
          forall i | 0 <= i < k
            ensures StartOf(init[i]) != n
          {
            assert init[i] in init;
            assert StartOf(init[i]) in Endpoints(init);
          }
        }
      }
    }
  }

  /** Loading walkways keeps every edge inside the node set. */
  lemma {:induction false} WalkwaysClosed(g: WeightedGraph<Point>, ps: seq<CampusPath>)
    requires EdgesClosed(g)
    ensures EdgesClosed(Walkways(g, ps))
    decreases |ps|
  {
    if ps != [] {
      var init := ps[..|ps| - 1];
      WalkwaysClosed(g, init);
      var before := Walkways(g, init);
      var p := ps[|ps| - 1];
      forall n, e | n in Walkways(g, ps) && e in Walkways(g, ps)[n]
        ensures e.destination in Walkways(g, ps)
      {
        if e != Edge(EndOf(p), p.distance) {
          assert n in before && e in before[n];
        }
      }
    }
  }

  /** Walkways of non-negative length keep every edge weight non-negative. */
  lemma {:induction false} WalkwaysNonNegative(g: WeightedGraph<Point>, ps: seq<CampusPath>)
    requires NonNegative(g) && DistancesNonNegative(ps)
    ensures NonNegative(Walkways(g, ps))
    decreases |ps|
  {
    if ps != [] {
      var init := ps[..|ps| - 1];
      assert DistancesNonNegative(init) by {
        forall i | 0 <= i < |init| ensures 0.0 <= init[i].distance {
          assert init[i] == ps[i];
        }
      }
      WalkwaysNonNegative(g, init);
      var before := Walkways(g, init);
      var p := ps[|ps| - 1];
      forall n, e | n in Walkways(g, ps) && e in Walkways(g, ps)[n]
        ensures 0.0 <= e.data
      {
        if e != Edge(EndOf(p), p.distance) {
          assert n in before && e in before[n];
        }
      }
    }
  }

  // ---------------------------------------------------------------------
  // The map

  class ModelConnector {
    /** The building records and walkway records this map was loaded from. */
    ghost var buildings: seq<CampusBuilding>
    ghost var paths: seq<CampusPath>

    /** Walkway end points as nodes, each walkway an edge carrying its length. */
    const mapGraph: DirectedGraph<Point, real>
    /** Short name to long name. */
    var buildingName: map<string, string>
    /** Short name to location. */
    var buildingPosition: map<string, Point>

    /**
     * The abstraction: the two building maps are the records loaded in order
     * (a later record with the same short name replacing an earlier one) and
     * the graph holds exactly the walkways. The representation invariant: both
     * maps have the same short names, the graph's edges stay inside its nodes
     * and have non-negative weights, and every building stands on a node.
     */
    ghost predicate Valid()
      reads this, mapGraph
    {
      && buildingName == Indexed(map[], buildings, LongName)
      && buildingPosition == Indexed(map[], buildings, Location)
      && mapGraph.nodeMap == Walkways(map[], paths)
      && buildingName.Keys == buildingPosition.Keys
      && mapGraph.Valid() && NonNegative(mapGraph.nodeMap)
      && forall k :: k in buildingPosition ==> buildingPosition[k] in mapGraph.nodeMap
    }

    /**
     * Loads `buildings` and `paths`. The records must describe walkways of
     * non-negative length, and every building kept in the maps (the last
     * record with its short name) must stand at a walkway's end.
     */
    constructor (buildings: seq<CampusBuilding>, paths: seq<CampusPath>)
      requires DistancesNonNegative(paths)
      requires forall i :: 0 <= i < |buildings| && LastWithName(buildings, i) ==>
                 Location(buildings[i]) in Endpoints(paths)
      ensures Valid()
      ensures this.buildings == buildings && this.paths == paths
      ensures fresh(mapGraph)
    {
      this.buildings := buildings;
      this.paths := paths;
      buildingName := map[];
      buildingPosition := map[];
      mapGraph := new DirectedGraph<Point, real>();
      new;
      PopulateBuildings(buildings);
      PopulatePaths(paths);
      IndexedKeys(map[], buildings, LongName);
      IndexedKeys(map[], buildings, Location);
      WalkwaysNodes(map[], paths);
      WalkwaysClosed(map[], paths);
      WalkwaysNonNegative(map[], paths);
      forall k | k in buildingPosition
        ensures buildingPosition[k] in mapGraph.nodeMap
      {
        IndexedFromRecord(map[], buildings, Location, k);
      }
    }

    /** Records each building's long name and location under its short name, in order. */
    method PopulateBuildings(bs: seq<CampusBuilding>)
      modifies this
      ensures buildingName == Indexed(old(buildingName), bs, LongName)
      ensures buildingPosition == Indexed(old(buildingPosition), bs, Location)
      ensures buildings == old(buildings) && paths == old(paths)
    {
      for i := 0 to |bs|
        invariant buildingName == Indexed(old(buildingName), bs[..i], LongName)
        invariant buildingPosition == Indexed(old(buildingPosition), bs[..i], Location)
        invariant buildings == old(buildings) && paths == old(paths)
      {
        var building := bs[i];
        assert bs[..i + 1][..i] == bs[..i];
        buildingName := buildingName[building.shortName := building.longName];
        buildingPosition := buildingPosition[building.shortName := Point(building.x, building.y)];
      }
      assert bs[..|bs|] == bs;
    }

    /**
     * Adds each walkway to the graph, in order: its end points as nodes when
     * they are not nodes yet, then the edge between them.
     */
    method PopulatePaths(ps: seq<CampusPath>)
      requires mapGraph.Valid()
      modifies mapGraph
      ensures mapGraph.Valid()
      ensures mapGraph.nodeMap == Walkways(old(mapGraph.nodeMap), ps)
    {
      for i := 0 to |ps|
        invariant mapGraph.Valid()
        invariant mapGraph.nodeMap == Walkways(old(mapGraph.nodeMap), ps[..i])
      {
        var path := ps[i];
        assert ps[..i + 1][..i] == ps[..i];
        var currStart := Point(path.x1, path.y1);
        var currEnd := Point(path.x2, path.y2);
        if currStart !in mapGraph.GetNodes() {
          mapGraph.AddNode(currStart);
        }
        if currEnd !in mapGraph.GetNodes() {
          mapGraph.AddNode(currEnd);
        }
        mapGraph.AddEdge(currStart, Edge(currEnd, path.distance));
      }
      assert ps[..|ps|] == ps;
    }

    /** True exactly when some building record carries `shortName`. */
    function ShortNameExists(shortName: string): (r: bool)
      requires Valid()
      reads this, mapGraph
      ensures r <==> shortName in ShortNames(buildings)
    {
      IndexedKeys(map[], buildings, LongName);
      shortName in buildingName
    }

    /**
     * The long name of the building `shortName`, taken from the last record
     * with that short name; IllegalArgument when there is none.
     */
    function LongNameForShort(shortName: string): (r: Result<string>)
      requires Valid()
      reads this, mapGraph
      ensures r.Failure? <==> !ShortNameExists(shortName)
      ensures r.Failure? ==> r.error == IllegalArgument
      ensures r.Success? ==> exists i :: 0 <= i < |buildings| && buildings[i].shortName == shortName
                                         && LastWithName(buildings, i) && buildings[i].longName == r.value
    {
      if !ShortNameExists(shortName) then Failure(IllegalArgument)
      else
        IndexedFromRecord(map[], buildings, LongName, shortName);
        Success(buildingName[shortName])
    }

    /** Every building's short name with its long name, as a fresh value. */
    function BuildingNames(): (r: map<string, string>)
      requires Valid()
      reads this, mapGraph
      ensures r.Keys == ShortNames(buildings)
      ensures forall k :: k in r ==> LongNameForShort(k) == Success(r[k])
    {
      IndexedKeys(map[], buildings, LongName);
      buildingName
    }

    /**
     * The shortest walking route between the buildings `startShortName` and
     * `endShortName`: IllegalArgument when either short name is unknown;
     * otherwise a cheapest path over the walkways between their locations,
     * or None when there is no route.
     */
    method FindShortestPath(startShortName: string, endShortName: string)
      returns (r: Result<Option<Path<Point>>>)
      requires Valid()
      ensures r.Failure? <==> !ShortNameExists(startShortName) || !ShortNameExists(endShortName)
      ensures r.Failure? ==> r.error == IllegalArgument
      ensures r.Success? ==>
                var from := buildingPosition[startShortName];
                var to := buildingPosition[endShortName];
                && (r.value.Some? <==> Reachable(mapGraph.nodeMap, from, to))
                && (r.value.Some? ==> IsShortest(mapGraph.nodeMap, from, to, r.value.value))
                && (from == to ==> r.value == Some(Path.Singleton(from)))
    {
      if startShortName !in buildingPosition || endShortName !in buildingPosition {
        return Failure(IllegalArgument);
      }
      var found: Option<Path<Point>>;
      ghost var expanded: seq<Point>;
      found, expanded := Dijkstra(mapGraph, buildingPosition[startShortName], buildingPosition[endShortName]);
      r := Success(found);
    }
  }
}
