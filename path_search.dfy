/** Shortest path by edge count in an unweighted directed graph given as a
    set of edges, found by breadth-first search one layer at a time. */
module PathSearch {

  datatype SearchError =
    | NodeNotFound  // the source or the target is not a node of the graph
    | NoPath        // both are nodes but the target cannot be reached

  datatype Result<T> = Ok(value: T) | Err(error: SearchError)

  /** A graph only has the nodes its edges mention. */
  function Nodes<N(==)>(graph: set<(N, N)>): set<N> {
    (set e | e in graph :: e.0) + (set e | e in graph :: e.1)
  }

  /** p walks from s to t along edges of the graph. */
  predicate IsPath<N(==)>(graph: set<(N, N)>, p: seq<N>, s: N, t: N) {
    |p| >= 1 && p[0] == s && p[|p| - 1] == t &&
    forall i :: 0 <= i < |p| - 1 ==> (p[i], p[i + 1]) in graph
  }

  ghost predicate Connected<N(!new)>(graph: set<(N, N)>, s: N, t: N) {
    exists p :: IsPath(graph, p, s, t)
  }

  /** No walk from s to t has fewer nodes than p. */
  ghost predicate IsShortestPath<N(!new)>(graph: set<(N, N)>, p: seq<N>, s: N, t: N) {
    IsPath(graph, p, s, t) && forall q :: IsPath(graph, q, s, t) ==> |p| <= |q|
  }

  /** What breadth-first search knows after d layers: dist holds every node
      found, with its number of edges from s, each found node other than s
      has a parent one layer closer, frontier is the last layer, and every
      edge leaving an earlier layer leads to a node already found at most
      one layer further. */
  ghost predicate Layered<N(!new)>(graph: set<(N, N)>, s: N, dist: map<N, nat>, parent: map<N, N>,
                             frontier: set<N>, d: nat)
  {
    && s in dist && dist[s] == 0
    && (forall v :: v in dist && v != s ==>
          v in parent && parent[v] in dist && (parent[v], v) in graph && dist[v] == dist[parent[v]] + 1)
    && (forall v :: v in dist ==> dist[v] <= d)
    && (forall v :: v in frontier <==> v in dist && dist[v] == d)
    && (forall u, w :: (u, w) in graph && u in dist && dist[u] < d ==> w in dist && dist[w] <= dist[u] + 1)
  }

  /** A walk of at most d edges from s ends at a found node, no further than
      its length. */
  lemma {:induction false} WithinLayers<N(!new)>(graph: set<(N, N)>, s: N, dist: map<N, nat>, parent: map<N, N>,
                                           frontier: set<N>, d: nat, p: seq<N>, v: N)
    requires Layered(graph, s, dist, parent, frontier, d)
    requires IsPath(graph, p, s, v) && |p| - 1 <= d
    ensures v in dist && dist[v] <= |p| - 1
    decreases |p|
  {
    if |p| > 1 {
      var prefix := p[..|p| - 1];
      assert IsPath(graph, prefix, s, p[|p| - 2]);
      WithinLayers(graph, s, dist, parent, frontier, d, prefix, p[|p| - 2]);
    }
  }

  /** When the last layer is empty, every node reachable from s was found. */
  lemma {:induction false} ExhaustedLayers<N(!new)>(graph: set<(N, N)>, s: N, dist: map<N, nat>, parent: map<N, N>,
                                              d: nat, p: seq<N>, v: N)
    requires Layered(graph, s, dist, parent, {}, d)
    requires IsPath(graph, p, s, v)
    ensures v in dist
    decreases |p|
  {
    if |p| > 1 {
      var prefix := p[..|p| - 1];
      assert IsPath(graph, prefix, s, p[|p| - 2]);
      ExhaustedLayers(graph, s, dist, parent, d, prefix, p[|p| - 2]);
    }
  }

  /** Once every edge leaving layer d has been followed, the nodes found for
      the first time form layer d + 1. */
  lemma NextLayer<N(!new)>(graph: set<(N, N)>, s: N, dist: map<N, nat>, parent: map<N, N>,
                           frontier: set<N>, d: nat, dist': map<N, nat>, parent': map<N, N>, next: set<N>)
    requires Layered(graph, s, dist, parent, frontier, d)
    requires forall v :: v in dist ==> v in dist' && dist'[v] == dist[v]
    requires forall v :: v in dist' && v !in dist ==> dist'[v] == d + 1
    requires forall v :: v in next <==> v in dist' && v !in dist
    requires forall v :: v in dist' && v != s ==>
               v in parent' && parent'[v] in dist' && (parent'[v], v) in graph &&
               dist'[v] == dist'[parent'[v]] + 1
    requires forall e :: e in graph && e.0 in frontier ==> e.1 in dist'
    ensures Layered(graph, s, dist', parent', next, d + 1)
  {
    forall u, w | (u, w) in graph && u in dist' && dist'[u] < d + 1
      ensures w in dist' && dist'[w] <= dist'[u] + 1
    {
      assert u in dist;
      if dist[u] == d {
        assert u in frontier;
      }
    }
  }

  /** Finds layer d + 1: the targets of the edges leaving layer d that were
      not found before. */
  method ExpandLayer<N(==,!new)>(graph: set<(N, N)>, s: N, dist: map<N, nat>, parent: map<N, N>,
                                frontier: set<N>, d: nat)
    returns (dist': map<N, nat>, parent': map<N, N>, next: set<N>)
    requires Layered(graph, s, dist, parent, frontier, d)
    ensures Layered(graph, s, dist', parent', next, d + 1)
    ensures dist.Keys <= dist'.Keys <= dist.Keys + Nodes(graph)
    ensures next == dist'.Keys - dist.Keys
  {
    var todo := set e | e in graph && e.0 in frontier;
    dist', parent', next := dist, parent, {};
    while todo != {}
      invariant todo <= graph
      invariant forall v :: v in dist ==> v in dist' && dist'[v] == dist[v]
      invariant forall v :: v in dist' && v !in dist ==> v in Nodes(graph) && dist'[v] == d + 1
      invariant forall v :: v in next <==> v in dist' && v !in dist
      invariant forall v :: v in dist' && v != s ==>
                  v in parent' && parent'[v] in dist' && (parent'[v], v) in graph &&
                  dist'[v] == dist'[parent'[v]] + 1
      invariant forall e :: e in graph && e.0 in frontier && e !in todo ==> e.1 in dist'
      decreases todo
    {
      var e :| e in todo;
      todo := todo - {e};
      if e.1 !in dist' {
        assert e.1 in Nodes(graph);
        dist' := dist'[e.1 := d + 1];
        parent' := parent'[e.1 := e.0];
        next := next + {e.1};
      }
    }
    NextLayer(graph, s, dist, parent, frontier, d, dist', parent', next);
  }

  /** Walks the parents back from t to s. */
  method TracePath<N(==,!new)>(graph: set<(N, N)>, s: N, dist: map<N, nat>, parent: map<N, N>,
                         frontier: set<N>, d: nat, t: N)
    returns (p: seq<N>)
    requires Layered(graph, s, dist, parent, frontier, d) && t in dist
    ensures IsPath(graph, p, s, t) && |p| == dist[t] + 1
  {
    var v := t;
    p := [t];
    while v != s
      invariant v in dist
      invariant |p| == dist[t] - dist[v] + 1
      invariant IsPath(graph, p, v, t)
      decreases dist[v]
    {
      v := parent[v];
      p := [v] + p;
    }
  }

  /** A shortest path from s to t, or the reason there is none. */
  method ShortestPath<N(==,!new)>(graph: set<(N, N)>, s: N, t: N) returns (r: Result<seq<N>>)
    ensures r == Err(NodeNotFound) <==> s !in Nodes(graph) || t !in Nodes(graph)
    ensures r == Err(NoPath) <==> s in Nodes(graph) && t in Nodes(graph) && !Connected(graph, s, t)
    ensures r.Ok? ==> IsShortestPath(graph, r.value, s, t)
  {
    var nodes := Nodes(graph);
    if s !in nodes || t !in nodes {
      return Err(NodeNotFound);
    }
    var dist: map<N, nat> := map[s := 0];
    var parent: map<N, N> := map[];
    var frontier: set<N> := {s};
    var d: nat := 0;
    while frontier != {} && t !in dist
      invariant Layered(graph, s, dist, parent, frontier, d)
      invariant dist.Keys <= nodes
      decreases nodes - dist.Keys, |frontier|
    {
      ghost var found := dist.Keys;
      var next;
      dist, parent, next := ExpandLayer(graph, s, dist, parent, frontier, d);
      if next != {} {
        var w :| w in next;
        assert w in nodes - found && w !in nodes - dist.Keys;
      }
      frontier, d := next, d + 1;
    }
    if t in dist {
      var p := TracePath(graph, s, dist, parent, frontier, d, t);
      forall q | IsPath(graph, q, s, t) ensures |p| <= |q| {
        if |q| < |p| {
          WithinLayers(graph, s, dist, parent, frontier, d, q, t);
        }
      }
      return Ok(p);
    }
    assert !Connected(graph, s, t) by {
      if Connected(graph, s, t) {
        var q :| IsPath(graph, q, s, t);
        ExhaustedLayers(graph, s, dist, parent, d, q, t);
      }
    }
    return Err(NoPath);
  }
}
