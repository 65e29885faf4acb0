/**
 * A mutable directed multigraph: a map from each node to the set of its
 * outgoing edges. Parallel edges between the same two nodes coexist when
 * their data differ, and self-loops are allowed; two edges with the same
 * origin, destination and data are one edge, because out-edges form a set.
 */
module Graphs {
  import opened Wrappers
  import opened Edges

  /** The representation: each node mapped to its out-edges. */
  type Adjacency<T, D> = map<T, set<Edge<T, D>>>

  /** Every edge points to a node of the graph. */
  ghost predicate EdgesClosed<T, D>(m: Adjacency<T, D>)
  {
    forall n, e :: n in m && e in m[n] ==> e.destination in m
  }

  class DirectedGraph<T(==), D(==)> {
    var nodeMap: Adjacency<T, D>

    /** The representation invariant: no edge leaves the node set. */
    ghost predicate Valid()
      reads this
    {
      EdgesClosed(nodeMap)
    }

    /** A new graph has no nodes and no edges. */
    constructor ()
      ensures Valid()
      ensures nodeMap == map[]
      ensures IsEmpty() && GetNodes() == {}
    {
      nodeMap := map[];
    }

    /** The node set (a value, so callers cannot change the graph through it). */
    function GetNodes(): (r: set<T>)
      reads this
      ensures r == nodeMap.Keys
    {
      nodeMap.Keys
    }

    /**
     * The out-edges of `n`: absent when `n` is not a node, otherwise the
     * node's stored edge set, which is empty for a node without edges.
     */
    function GetOutEdges(n: T): (r: Option<set<Edge<T, D>>>)
      reads this
      ensures r.None? <==> n !in GetNodes()
      ensures r.Some? ==> n in nodeMap && r.value == nodeMap[n]
    {
      if n in nodeMap then Some(nodeMap[n]) else None
    }

    /** True exactly when the graph has no nodes. */
    function IsEmpty(): (r: bool)
      reads this
      ensures r <==> GetNodes() == {}
    {
      |nodeMap| == 0
    }

    /**
     * Adds `n`, which must not be a node yet, with no out-edges. Every other
     * node keeps its out-edges.
     */
    method AddNode(n: T)
      requires Valid()
      requires n !in nodeMap
      modifies this
      ensures Valid()
      ensures nodeMap == old(nodeMap)[n := {}]
      ensures GetNodes() == old(GetNodes()) + {n} && GetOutEdges(n) == Some({})
      ensures forall m :: m in old(nodeMap) ==> GetOutEdges(m) == old(GetOutEdges(m))
    {
      nodeMap := nodeMap[n := {}];
    }

    /**
     * Adds `e` to the out-edges of `origin`; both `origin` and the edge's
     * destination must be nodes. The node set and every other node's
     * out-edges stay as they were, and adding an edge already present
     * changes nothing.
     */
    method AddEdge(origin: T, e: Edge<T, D>)
      requires Valid()
      requires origin in nodeMap && e.destination in nodeMap
      modifies this
      ensures Valid()
      ensures nodeMap == old(nodeMap)[origin := old(nodeMap)[origin] + {e}]
      ensures GetNodes() == old(GetNodes())
      ensures GetOutEdges(origin) == Some(old(nodeMap)[origin] + {e})
      ensures forall m :: m in old(nodeMap) && m != origin ==> GetOutEdges(m) == old(GetOutEdges(m))
      ensures e in old(nodeMap)[origin] ==> nodeMap == old(nodeMap)
    {
      if e in nodeMap[origin] {
        assert nodeMap[origin] + {e} == nodeMap[origin];
      }
      nodeMap := nodeMap[origin := nodeMap[origin] + {e}];
    }
  }
}
