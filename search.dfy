/**
 * The search itself, in the shape of the planner's dijkstra routine.
 */
module Search {
  import opened Graphs
  import opened Walks
  import opened Frontier
  import opened ShortestPaths
  import opened SearchSteps

  /**
   * dijkstra(g, src): every vertex starts at infinity and src at zero; the
   * least frontier entry is taken off, skipped if its vertex is finalized,
   * and otherwise its vertex is finalized and each out-edge relaxed.
   */
  method Dijkstra(g: Graph, src: Vertex) returns (res: DijkstraResult)
    requires g.Valid()
    ensures res.dist.Keys == g.adj.Keys + {src}
    ensures res.dist[src] == Finite(0.0) && src !in res.parent
    ensures Relaxed(g.adj, res.dist)
    ensures ShortestDistances(g.adj, src, res.dist)
    ensures forall v :: v in res.dist ==> (res.dist[v].Finite? <==> Reachable(g.adj, src, v))
    ensures ParentTree(g.adj, src, res.dist, res.parent)
  {
    ghost var adj := g.adj;
    ghost var nodes := adj.Keys + {src};
    var dist := InitialDistances(g, src);
    var parent: map<Vertex, Vertex> := map[];
    var pq: Queue := multiset{Entry(0.0, src)};
    var visited: set<Vertex> := {};
    // visit order of the finalized vertices, and the list position of each recorded link
    ghost var order: map<Vertex, nat> := map[];
    ghost var step: nat := 0;
    ghost var via: map<Vertex, nat> := map[];
    InitialState(adj, src, dist);

    while |pq| > 0
      invariant SearchInv(adj, src, dist, parent, pq, visited, via, order, step)
      decreases nodes - visited, |pq|
    {
      var top, rest := PopMin(pq);
      var d, u := top.key, top.vertex;
      if u in visited {
        SkipStale(adj, src, dist, parent, pq, visited, via, order, step, top, rest);
        pq := rest;
      } else {
        ghost var pq0, visited0, order0, step0 := pq, visited, order, step;
        pq := rest;
        visited := visited + {u};
        order := order[u := step];
        step := step + 1;
        Finalize(adj, src, dist, parent, pq0, visited0, via, order0, step0, top, g.Neighbors(u), pq, visited, order, step);
        dist, parent, pq, via := RelaxEdges(g, src, u, d, dist, parent, pq, visited, via, order, step);
        FinishVertex(adj, src, dist, parent, pq, visited, via, order, step, u, d, g.Neighbors(u));
      }
    }
    res := DijkstraResult(dist, parent);
    Finished(adj, src, dist, parent, visited, via, order, step);
  }

  /** Every registered vertex at infinity, then src at zero. */
  method InitialDistances(g: Graph, src: Vertex) returns (dist: map<Vertex, Dist>)
    ensures dist.Keys == g.adj.Keys + {src}
    ensures dist[src] == Finite(0.0)
    ensures forall x :: x in dist && x != src ==> dist[x] == Infinite
  {
    var keys := g.Nodes();
    dist := map[];
    for i := 0 to |keys|
      invariant forall x :: x in dist <==> x in keys[..i]
      invariant forall x :: x in dist ==> dist[x] == Infinite
    {
      dist := dist[keys[i] := Infinite];
    }
    assert keys[..|keys|] == keys;
    dist := dist[src := Finite(0.0)];
  }

  /**
   * Relaxes every out-edge of u, just finalized at distance d, in list
   * order: an edge whose target it makes strictly shorter lowers the
   * target's distance, records u as its predecessor and pushes a new entry.
   */
  method RelaxEdges(g: Graph, src: Vertex, u: Vertex, d: Weight,
                    dist: map<Vertex, Dist>, parent: map<Vertex, Vertex>, pq: Queue,
                    ghost visited: set<Vertex>, ghost via: map<Vertex, nat>, ghost order: map<Vertex, nat>, ghost step: nat)
    returns (dist': map<Vertex, Dist>, parent': map<Vertex, Vertex>, pq': Queue, ghost via': map<Vertex, nat>)
    requires RelaxInv(g.adj, src, dist, parent, pq, visited, via, order, step, u, d, g.Neighbors(u), 0)
    ensures RelaxInv(g.adj, src, dist', parent', pq', visited, via', order, step, u, d, g.Neighbors(u), |g.Neighbors(u)|)
    ensures RelaxEffect(dist, parent, pq, u, d, g.Neighbors(u), |g.Neighbors(u)|, dist', parent', pq')
  {
    ghost var adj := g.adj;
    var nbrs := g.Neighbors(u);
    dist', parent', pq', via' := dist, parent, pq, via;
    EffectStart(dist, parent, pq, u, d, nbrs);
    for i := 0 to |nbrs|
      invariant RelaxInv(adj, src, dist', parent', pq', visited, via', order, step, u, d, nbrs, i)
      invariant RelaxEffect(dist, parent, pq, u, d, nbrs, i, dist', parent', pq')
    {
      var e := nbrs[i];
      var nd: Weight := d + e.w;
      if Improves(nd, dist'[e.v]) {
        ghost var dist0, parent0, pq0, via0 := dist', parent', pq', via';
        dist' := dist'[e.v := Finite(nd)];
        parent' := parent'[e.v := u];
        via' := via'[e.v := i];
        pq' := pq' + multiset{Entry(nd, e.v)};
        RelaxImproves(adj, src, dist0, parent0, pq0, visited, via0, order, step, u, d, nbrs, i, e, nd,
                      dist', parent', pq', via');
        EffectImproves(dist, parent, pq, u, d, nbrs, i, dist0, parent0, pq0, e, nd, dist', parent', pq');
      } else {
        RelaxKeeps(adj, src, dist', parent', pq', visited, via', order, step, u, d, nbrs, i);
        EffectKeeps(dist, parent, pq, u, d, nbrs, i, dist', parent', pq');
      }
    }
  }
}
