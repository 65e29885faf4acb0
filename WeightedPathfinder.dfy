/**
 * Dijkstra's shortest-path search over a weighted directed graph. The search
 * keeps a priority queue of whole paths ordered by cost and a set of nodes
 * already expanded ("known"); a popped path to a known node is discarded
 * instead of decreasing a key ("lazy deletion").
 */
module Pathfinder {
  import opened Wrappers
  import opened Edges
  import opened Graphs
  import opened Paths

  /** A graph whose edge data are distances. */
  type WeightedGraph<T(==)> = Adjacency<T, real>

  /** No edge of `g` has a negative weight. */
  ghost predicate NonNegative<T(!new)>(g: WeightedGraph<T>)
  {
    forall n, e :: n in g && e in g[n] ==> 0.0 <= e.data
  }

  /**
   * `p` is a path of `g` from `s`: it starts at `s`, is contiguous, and every
   * segment is an edge of `g` carrying that edge's weight.
   */
  ghost predicate IsPathFrom<T(!new)>(g: WeightedGraph<T>, s: T, p: Path<T>)
  {
    && p.start == s
    && p.Contiguous()
    && forall k :: 0 <= k < |p.segments| ==>
         p.segments[k].start in g && Edge(p.segments[k].end, p.segments[k].cost) in g[p.segments[k].start]
  }

  /** Some path of `g` leads from `s` to `d`. */
  ghost predicate Reachable<T(!new)>(g: WeightedGraph<T>, s: T, d: T)
  {
    exists p :: IsPathFrom(g, s, p) && p.End() == d
  }

  /** No path of `g` from `s` to `d` costs less than `c`. */
  ghost predicate LowerBound<T(!new)>(g: WeightedGraph<T>, s: T, d: T, c: real)
  {
    forall q :: IsPathFrom(g, s, q) && q.End() == d ==> c <= q.Cost()
  }

  /** `p` is a cheapest path of `g` from `s` to `d`. */
  ghost predicate IsShortest<T(!new)>(g: WeightedGraph<T>, s: T, d: T, p: Path<T>)
  {
    IsPathFrom(g, s, p) && p.End() == d && LowerBound(g, s, d, p.Cost())
  }

  /** `p` has the least cost in `active`. */
  predicate IsMinimal<T(!new)>(active: multiset<Path<T>>, p: Path<T>)
  {
    p in active && forall x :: x in active ==> p.Cost() <= x.Cost()
  }

  // ---------------------------------------------------------------------
  // Facts about paths of a graph

  /** A path of a graph with non-negative weights has non-negative segment costs. */
  lemma GraphPathCostsNonNegative<T(!new)>(g: WeightedGraph<T>, s: T, p: Path<T>)
    requires NonNegative(g) && IsPathFrom(g, s, p)
    ensures p.NonNegativeCosts() && 0.0 <= p.Cost()
  {
    forall k | 0 <= k < |p.segments| ensures 0.0 <= p.segments[k].cost {
      var sg := p.segments[k];
      assert Edge(sg.end, sg.cost) in g[sg.start];
    }
    CostNonNegative(p);
  }

  /** Following an edge out of the end of a path of `g` gives a path of `g`. */
  lemma ExtendIsPath<T(!new)>(g: WeightedGraph<T>, s: T, p: Path<T>, e: Edge<T, real>)
    requires IsPathFrom(g, s, p) && p.End() in g && e in g[p.End()]
    ensures IsPathFrom(g, s, p.Extend(e.destination, e.data))
  {
    ExtendContiguous(p, e.destination, e.data);
    var q := p.Extend(e.destination, e.data);
    forall k | 0 <= k < |q.segments|
      ensures q.segments[k].start in g && Edge(q.segments[k].end, q.segments[k].cost) in g[q.segments[k].start]
    {
      if k < |p.segments| {
        assert q.segments[k] == p.segments[k];
      }
    }
  }

  /** A path of `g` without its last segment is a path of `g` ending where that segment starts. */
  lemma DropLastIsPath<T(!new)>(g: WeightedGraph<T>, s: T, q: Path<T>)
    requires IsPathFrom(g, s, q) && q.segments != []
    ensures IsPathFrom(g, s, q.DropLast())
    ensures q.DropLast().End() == q.segments[|q.segments| - 1].start
  {
    DropLastContiguous(q);
  }

  /** A path of a graph whose edges stay inside it ends at a node of the graph. */
  lemma EndIsNode<T(!new)>(g: WeightedGraph<T>, s: T, p: Path<T>)
    requires EdgesClosed(g) && s in g && IsPathFrom(g, s, p)
    ensures p.End() in g
  {
    if p.segments != [] {
      var last := p.segments[|p.segments| - 1];
      assert Edge(last.end, last.cost) in g[last.start];
    }
  }

  /**
   * A potential that starts at zero at `s` and rises along no edge by more
   * than the edge's weight bounds from below the cost of every path from `s`.
   * The search computes no potentials: this is a certificate of optimality
   * for a given graph, checked apart from the search.
   */
  lemma {:induction false} PotentialBound<T(!new)>(g: WeightedGraph<T>, s: T, pot: map<T, real>, p: Path<T>)
    requires s in pot && pot[s] <= 0.0
    requires forall n, e :: n in g && e in g[n] ==>
               n in pot && e.destination in pot && pot[e.destination] <= pot[n] + e.data
    requires IsPathFrom(g, s, p)
    ensures p.End() in pot && pot[p.End()] <= p.Cost()
    decreases |p.segments|
  {
    if p.segments != [] {
      var last := p.segments[|p.segments| - 1];
      DropLastIsPath(g, s, p);
      PotentialBound(g, s, pot, p.DropLast());
      assert Edge(last.end, last.cost) in g[last.start];
    }
  }

  /** A node no edge leads into is reachable from no other node. */
  lemma NoEdgeInto<T(!new)>(g: WeightedGraph<T>, s: T, d: T)
    requires s != d
    requires forall n, e :: n in g && e in g[n] ==> e.destination != d
    ensures !Reachable(g, s, d)
  {
    forall p | IsPathFrom(g, s, p)
      ensures p.End() != d
    {
      if p.segments != [] {
        var last := p.segments[|p.segments| - 1];
        assert Edge(last.end, last.cost) in g[last.start];
      }
    }
  }

  // ---------------------------------------------------------------------
  // The search invariant

  /** Some path in `active` ends at `u` and costs at most `c`. */
  ghost predicate Covered<T(!new)>(active: multiset<Path<T>>, u: T, c: real)
  {
    exists p :: p in active && p.End() == u && p.Cost() <= c
  }

  /**
   * The invariant of the search loop. `settled` records, for each known node,
   * the cost of the path with which it was expanded.
   * - every queued path is a path of the graph from `start`;
   * - the cost recorded for a known node is a lower bound on every path to it;
   * - while `start` is unknown, a zero-cost path to it is queued;
   * - for each edge from a known node to an unknown one, a path over that
   *   edge at most as costly as the recorded cost plus the weight is queued.
   */
  ghost predicate SearchInv<T(!new)>(g: WeightedGraph<T>, start: T, dest: T,
                               known: set<T>, settled: map<T, real>, active: multiset<Path<T>>)
  {
    && known <= g.Keys
    && known <= settled.Keys
    && dest !in known
    && (forall p :: p in active ==> IsPathFrom(g, start, p))
    && (start !in known ==> Covered(active, start, 0.0))
    && (forall w :: w in known ==> LowerBound(g, start, w, settled[w]))
    && (forall w, e :: w in known && e in g[w] && e.destination !in known ==>
          Covered(active, e.destination, settled[w] + e.data))
  }

  /**
   * The heart of the correctness argument: every path of the graph from
   * `start` that ends at an unknown node costs at least as much as some
   * queued path.
   */
  lemma {:induction false} FrontierCovers<T(!new)>(g: WeightedGraph<T>, start: T, dest: T,
                                             known: set<T>, settled: map<T, real>,
                                             active: multiset<Path<T>>, q: Path<T>)
    requires NonNegative(g) && SearchInv(g, start, dest, known, settled, active)
    requires IsPathFrom(g, start, q)
    ensures q.End() !in known ==> exists p :: p in active && p.Cost() <= q.Cost()
    decreases |q.segments|
  {
    if q.End() !in known {
      if q.segments == [] {
        var p :| p in active && p.End() == start && p.Cost() <= 0.0;
        assert p.Cost() <= q.Cost();
      } else {
        var pre := q.DropLast();
        var last := q.segments[|q.segments| - 1];
        DropLastIsPath(g, start, q);
        var e := Edge(last.end, last.cost);
        assert e in g[last.start];
        if last.start in known {
          assert settled[last.start] <= pre.Cost();
          var p :| p in active && p.End() == e.destination && p.Cost() <= settled[last.start] + e.data;
          assert p.Cost() <= q.Cost();
        } else {
          FrontierCovers(g, start, dest, known, settled, active, pre);
          var p :| p in active && p.Cost() <= pre.Cost();
          assert p.Cost() <= q.Cost();
        }
      }
    }
  }

  /** A cheapest queued path is no costlier than any graph path from `start` to an unknown node. */
  lemma MinimalIsLowerBound<T(!new)>(g: WeightedGraph<T>, start: T, dest: T,
                               known: set<T>, settled: map<T, real>,
                               active: multiset<Path<T>>, p: Path<T>)
    requires NonNegative(g) && SearchInv(g, start, dest, known, settled, active)
    requires IsMinimal(active, p)
    ensures forall q :: IsPathFrom(g, start, q) && q.End() !in known ==> p.Cost() <= q.Cost()
  {
    forall q | IsPathFrom(g, start, q) && q.End() !in known
      ensures p.Cost() <= q.Cost()
    {
      FrontierCovers(g, start, dest, known, settled, active, q);
    }
  }

  /** When the queue is empty, every graph path from `start` ends at a known node. */
  lemma ExhaustedMeansKnown<T(!new)>(g: WeightedGraph<T>, start: T, dest: T,
                               known: set<T>, settled: map<T, real>)
    requires NonNegative(g) && SearchInv(g, start, dest, known, settled, multiset{})
    ensures forall q :: IsPathFrom(g, start, q) ==> q.End() in known
    ensures !Reachable(g, start, dest)
  {
    forall q | IsPathFrom(g, start, q)
      ensures q.End() in known
    {
      FrontierCovers(g, start, dest, known, settled, multiset{}, q);
    }
  }

  /** A witness of `Covered` that is not the removed path survives into a queue that keeps the rest. */
  lemma CoveredKept<T(!new)>(a: multiset<Path<T>>, b: multiset<Path<T>>, x: Path<T>, u: T, c: real)
    requires Covered(a, u, c) && x.End() != u && a - multiset{x} <= b
    ensures Covered(b, u, c)
  {
    var p :| p in a && p.End() == u && p.Cost() <= c;
    assert p != x;
    assert p in a - multiset{x};
  }

  /** Dropping a popped path that ends at a known node keeps the invariant. */
  lemma DiscardKeepsInv<T(!new)>(g: WeightedGraph<T>, start: T, dest: T,
                           known: set<T>, settled: map<T, real>,
                           active: multiset<Path<T>>, p: Path<T>)
    requires SearchInv(g, start, dest, known, settled, active)
    requires p in active && p.End() in known
    ensures SearchInv(g, start, dest, known, settled, active - multiset{p})
  {
    var rest := active - multiset{p};
    if start !in known {
      CoveredKept(active, rest, p, start, 0.0);
    }
    forall w, e | w in known && e in g[w] && e.destination !in known
      ensures Covered(rest, e.destination, settled[w] + e.data)
    {
      CoveredKept(active, rest, p, e.destination, settled[w] + e.data);
    }
  }

  /**
   * Expanding a cheapest queued path `p` to an unknown node `v`: once every
   * edge out of `v` to an unknown node is covered through `p`, marking `v`
   * known with cost `p.Cost()` keeps the invariant.
   */
  lemma ExpandKeepsInv<T(!new)>(g: WeightedGraph<T>, start: T, dest: T,
                          known: set<T>, settled: map<T, real>,
                          old_active: multiset<Path<T>>, p: Path<T>, active: multiset<Path<T>>)
    requires NonNegative(g) && EdgesClosed(g) && start in g
    requires SearchInv(g, start, dest, known, settled, old_active)
    requires IsMinimal(old_active, p) && p.End() !in known && p.End() != dest
    requires old_active - multiset{p} <= active
    requires forall x :: x in active ==> IsPathFrom(g, start, x)
    requires forall e :: e in g[p.End()] && e.destination !in known ==>
               Covered(active, e.destination, p.Cost() + e.data)
    ensures SearchInv(g, start, dest, known + {p.End()}, settled[p.End() := p.Cost()], active)
  {
    var v := p.End();
    var known' := known + {v};
    var settled' := settled[v := p.Cost()];
    EndIsNode(g, start, p);
    MinimalIsLowerBound(g, start, dest, known, settled, old_active, p);
    if start !in known' {
      CoveredKept(old_active, active, p, start, 0.0);
    }
    forall w | w in known'
      ensures LowerBound(g, start, w, settled'[w])
    {
      if w != v {
        assert settled'[w] == settled[w];
      }
    }
    forall w, e | w in known' && e in g[w] && e.destination !in known'
      ensures Covered(active, e.destination, settled'[w] + e.data)
    {
      if w != v {
        CoveredKept(old_active, active, p, e.destination, settled[w] + e.data);
      }
    }
  }

  /** Every non-empty queue holds a path of least cost. */
  lemma {:induction false} MinimalExists<T(!new)>(active: multiset<Path<T>>)
    requires active != multiset{}
    ensures exists p :: IsMinimal(active, p)
    decreases |active|
  {
    var y :| y in active;
    var rest := active - multiset{y};
    if rest == multiset{} {
      assert forall x :: x in active && x != y ==> x in rest;
      assert IsMinimal(active, y);
    } else {
      MinimalExists(rest);
      var m :| IsMinimal(rest, m);
      if y.Cost() < m.Cost() {
        assert IsMinimal(active, y);
      } else {
        assert IsMinimal(active, m);
      }
    }
  }

  // ---------------------------------------------------------------------
  // Expanding a node

  /** `p` extended over each edge of `edges` whose destination is not known. */
  function Extensions<T(==)>(p: Path<T>, edges: set<Edge<T, real>>, known: set<T>): set<Path<T>>
  {
    set e | e in edges && e.destination !in known :: p.Extend(e.destination, e.data)
  }

  /** Different edges give different extensions of the same path. */
  lemma ExtendInjective<T>(p: Path<T>, e1: Edge<T, real>, e2: Edge<T, real>)
    requires p.Extend(e1.destination, e1.data) == p.Extend(e2.destination, e2.data)
    ensures e1 == e2
  {
    var n := |p.segments|;
    assert p.Extend(e1.destination, e1.data).segments[n] == p.Extend(e2.destination, e2.data).segments[n];
  }

  /** Adding one more edge to those already handled adds at most its own, new, extension. */
  lemma ExtensionsAdd<T>(p: Path<T>, done: set<Edge<T, real>>, e: Edge<T, real>, known: set<T>)
    requires e !in done
    ensures e.destination !in known ==>
              Extensions(p, done + {e}, known) == Extensions(p, done, known) + {p.Extend(e.destination, e.data)}
              && p.Extend(e.destination, e.data) !in Extensions(p, done, known)
    ensures e.destination in known ==> Extensions(p, done + {e}, known) == Extensions(p, done, known)
  {
    var next := p.Extend(e.destination, e.data);
    forall x | x in Extensions(p, done, known) && e.destination !in known
      ensures x != next
    {
      var e' :| e' in done && e'.destination !in known && x == p.Extend(e'.destination, e'.data);
      if x == next {
        ExtendInjective(p, e', e);
      }
    }
  }

  /**
   * The loop over the out-edges of the node being expanded: `p` extended over
   * each of `edges` whose destination is not known is added to the queue.
   */
  method PushExtensions<T(==)>(p: Path<T>, edges: set<Edge<T, real>>, known: set<T>, active: multiset<Path<T>>)
    returns (active': multiset<Path<T>>)
    ensures active' == active + multiset(Extensions(p, edges, known))
  {
    active' := active;
    var remaining := edges;
    ghost var pushed: set<Path<T>> := {};
    while remaining != {}
      invariant remaining <= edges
      invariant pushed == Extensions(p, edges - remaining, known)
      invariant active' == active + multiset(pushed)
      decreases remaining
    {
      var e :| e in remaining;
      ghost var done := edges - remaining;
      ExtensionsAdd(p, done, e, known);
      if e.destination !in known {
        var next := p.Extend(e.destination, e.data);
        active' := active' + multiset{next};
        assert multiset(pushed + {next}) == multiset(pushed) + multiset{next};
        pushed := pushed + {next};
      }
      remaining := remaining - {e};
      assert edges - remaining == done + {e};
    }
    assert edges - remaining == edges;
  }

  /**
   * After the extensions of `p` are queued, every queued path is still a
   * graph path from `start`, and every edge out of the end of `p` to an
   * unknown node is covered through `p`.
   */
  lemma ExtensionsCover<T(!new)>(g: WeightedGraph<T>, start: T, p: Path<T>, known: set<T>,
                                 rest: multiset<Path<T>>, active: multiset<Path<T>>)
    requires NonNegative(g) && IsPathFrom(g, start, p) && p.End() in g
    requires forall x :: x in rest ==> IsPathFrom(g, start, x)
    requires active == rest + multiset(Extensions(p, g[p.End()], known))
    ensures forall x :: x in active ==> IsPathFrom(g, start, x)
    ensures forall e :: e in g[p.End()] && e.destination !in known ==>
              Covered(active, e.destination, p.Cost() + e.data)
  {
    var exts := Extensions(p, g[p.End()], known);
    forall x | x in active
      ensures IsPathFrom(g, start, x)
    {
      if x !in rest {
        assert x in multiset(exts);
        var e :| e in g[p.End()] && e.destination !in known && x == p.Extend(e.destination, e.data);
        ExtendIsPath(g, start, p, e);
      }
    }
    forall e | e in g[p.End()] && e.destination !in known
      ensures Covered(active, e.destination, p.Cost() + e.data)
    {
      var x := p.Extend(e.destination, e.data);
      assert x in exts;
      assert x in active;
    }
  }

  // ---------------------------------------------------------------------
  // The search

  /**
   * The loop invariant of the search: the search invariant, the state while
   * `start == dest` (nothing expanded, only the start path queued), and the
   * nodes expanded so far, in order, each at most once.
   */
  ghost predicate LoopInv<T(!new)>(g: WeightedGraph<T>, start: T, dest: T,
                                   known: set<T>, settled: map<T, real>,
                                   active: multiset<Path<T>>, expanded: seq<T>)
  {
    && SearchInv(g, start, dest, known, settled, active)
    && (start == dest ==> known == {} && active == multiset{Path.Singleton(start)})
    && (forall i, j :: 0 <= i < j < |expanded| ==> expanded[i] != expanded[j])
    && (forall x :: x in expanded <==> x in known)
  }

  /** The state before the first iteration satisfies the loop invariant. */
  lemma InitStep<T(!new)>(g: WeightedGraph<T>, start: T, dest: T)
    requires start in g && dest in g
    ensures LoopInv(g, start, dest, {}, map[], multiset{Path.Singleton(start)}, [])
  {
    assert Path.Singleton(start) in multiset{Path.Singleton(start)};
  }

  /** A cheapest queued path that ends at `dest` is a shortest path to `dest`. */
  lemma FoundStep<T(!new)>(g: WeightedGraph<T>, start: T, dest: T,
                           known: set<T>, settled: map<T, real>,
                           active: multiset<Path<T>>, expanded: seq<T>, p: Path<T>)
    requires NonNegative(g) && LoopInv(g, start, dest, known, settled, active, expanded)
    requires IsMinimal(active, p) && p.End() == dest
    ensures IsShortest(g, start, dest, p) && Reachable(g, start, dest)
    ensures start == dest ==> p == Path.Singleton(start)
  {
    MinimalIsLowerBound(g, start, dest, known, settled, active, p);
  }

  /** Discarding a popped path to a known node keeps the loop invariant and shrinks the queue. */
  lemma DiscardStep<T(!new)>(g: WeightedGraph<T>, start: T, dest: T,
                             known: set<T>, settled: map<T, real>,
                             active: multiset<Path<T>>, expanded: seq<T>, p: Path<T>)
    requires LoopInv(g, start, dest, known, settled, active, expanded)
    requires p in active && p.End() in known
    ensures LoopInv(g, start, dest, known, settled, active - multiset{p}, expanded)
    ensures |active - multiset{p}| < |active|
  {
    DiscardKeepsInv(g, start, dest, known, settled, active, p);
  }

  /**
   * Expanding a cheapest queued path to an unknown node other than `dest`
   * keeps the loop invariant and makes one more node known.
   */
  lemma ExpandStep<T(!new)>(g: WeightedGraph<T>, start: T, dest: T,
                            known: set<T>, settled: map<T, real>,
                            active: multiset<Path<T>>, expanded: seq<T>, p: Path<T>,
                            active': multiset<Path<T>>)
    requires NonNegative(g) && EdgesClosed(g) && start in g
    requires LoopInv(g, start, dest, known, settled, active, expanded)
    requires IsMinimal(active, p) && p.End() !in known && p.End() != dest
    requires p.End() in g
    requires active' == (active - multiset{p}) + multiset(Extensions(p, g[p.End()], known))
    ensures LoopInv(g, start, dest, known + {p.End()}, settled[p.End() := p.Cost()], active',
                    expanded + [p.End()])
    ensures |g.Keys - (known + {p.End()})| < |g.Keys - known|
  {
    ExtensionsCover(g, start, p, known, active - multiset{p}, active');
    ExpandKeepsInv(g, start, dest, known, settled, active, p, active');
    EndIsNode(g, start, p);
    FewerUnknown(g.Keys, known, p.End());
    ExpandedGrows(known, expanded, p.End());
  }

  /** Making a node of `nodes` known leaves fewer unknown nodes. */
  lemma FewerUnknown<T>(nodes: set<T>, known: set<T>, v: T)
    requires v in nodes && v !in known
    ensures |nodes - (known + {v})| < |nodes - known|
  {
    assert nodes - (known + {v}) == (nodes - known) - {v};
  }

  /** Appending a node not yet known keeps `expanded` free of repeats and in step with `known`. */
  lemma ExpandedGrows<T>(known: set<T>, expanded: seq<T>, v: T)
    requires forall i, j :: 0 <= i < j < |expanded| ==> expanded[i] != expanded[j]
    requires forall x :: x in expanded <==> x in known
    requires v !in known
    ensures forall i, j :: 0 <= i < j < |expanded + [v]| ==> (expanded + [v])[i] != (expanded + [v])[j]
    ensures forall x :: x in expanded + [v] <==> x in known + {v}
  {
    var e' := expanded + [v];
    forall i, j | 0 <= i < j < |e'|
      ensures e'[i] != e'[j]
    {
      if j == |expanded| {
        assert e'[i] in expanded;
      }
    }
  }

  /**
   * An exhausted queue means `dest` cannot be reached, and so `start != dest`;
   * every node reachable from `start` has been expanded.
   */
  lemma ExhaustedStep<T(!new)>(g: WeightedGraph<T>, start: T, dest: T,
                               known: set<T>, settled: map<T, real>, expanded: seq<T>)
    requires NonNegative(g) && LoopInv(g, start, dest, known, settled, multiset{}, expanded)
    ensures !Reachable(g, start, dest) && start != dest
    ensures forall x :: Reachable(g, start, x) ==> x in expanded
  {
    ExhaustedMeansKnown(g, start, dest, known, settled);
    assert Path.Singleton(start) in multiset{Path.Singleton(start)};
  }

  /** Every node expanded is a node of the graph, and none twice. */
  lemma ExpandedNodes<T(!new)>(g: WeightedGraph<T>, start: T, dest: T,
                               known: set<T>, settled: map<T, real>,
                               active: multiset<Path<T>>, expanded: seq<T>)
    requires LoopInv(g, start, dest, known, settled, active, expanded)
    ensures forall i, j :: 0 <= i < j < |expanded| ==> expanded[i] != expanded[j]
    ensures forall i :: 0 <= i < |expanded| ==> expanded[i] in g
  {
    forall i | 0 <= i < |expanded|
      ensures expanded[i] in g
    {
      assert expanded[i] in known;
    }
  }

  /**
   * The cheapest path of `graph` from `start` to `dest`, or None when `dest`
   * cannot be reached. When `start == dest` the result is the path with no
   * segments. `graph` is only read. The ghost `expanded` lists the nodes in
   * the order they were expanded: each at most once, all of them nodes, and,
   * when no route is found, every node reachable from `start`.
   */
  method Dijkstra<T(==,!new)>(graph: DirectedGraph<T, real>, start: T, dest: T)
    returns (r: Option<Path<T>>, ghost expanded: seq<T>)
    requires graph.Valid() && NonNegative(graph.nodeMap)
    requires start in graph.nodeMap && dest in graph.nodeMap
    ensures r.Some? ==> IsShortest(graph.nodeMap, start, dest, r.value)
    ensures r.Some? <==> Reachable(graph.nodeMap, start, dest)
    ensures start == dest ==> r == Some(Path.Singleton(start))
    ensures forall i, j :: 0 <= i < j < |expanded| ==> expanded[i] != expanded[j]
    ensures forall i :: 0 <= i < |expanded| ==> expanded[i] in graph.nodeMap
    ensures r.None? ==> forall x :: Reachable(graph.nodeMap, start, x) ==> x in expanded
  {
    ghost var g := graph.nodeMap;
    var active: multiset<Path<T>> := multiset{Path.Singleton(start)};
    var known: set<T> := {};
    ghost var settled: map<T, real> := map[];
    expanded := [];
    InitStep(g, start, dest);
    while active != multiset{}
      invariant LoopInv(g, start, dest, known, settled, active, expanded)
      decreases |g.Keys - known|, |active|
    {
      MinimalExists(active);
      var p :| IsMinimal(active, p);
      if p.End() == dest {
        FoundStep(g, start, dest, known, settled, active, expanded, p);
        ExpandedNodes(g, start, dest, known, settled, active, expanded);
        r := Some(p);
        return;
      } else if p.End() !in known {
        var v := p.End();
        EndIsNode(g, start, p);
        var newEdges := graph.GetOutEdges(v).value;
        ghost var popped := active;
        active := PushExtensions(p, newEdges, known, active - multiset{p});
        ExpandStep(g, start, dest, known, settled, popped, expanded, p, active);
        known := known + {v};
        settled := settled[v := p.Cost()];
        expanded := expanded + [v];
      } else {
        DiscardStep(g, start, dest, known, settled, active, expanded, p);
        active := active - multiset{p};
      }
    }
    ExhaustedStep(g, start, dest, known, settled, expanded);
    ExpandedNodes(g, start, dest, known, settled, active, expanded);
    r := None;
  }
}
