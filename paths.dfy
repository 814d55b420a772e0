/**
 * What a single-source shortest-path answer must be: distances that are the
 * least walk costs and a predecessor tree of tight edges rooted at the source,
 * and the lemmas that turn the end state of the search into that answer.
 */
module ShortestPaths {
  import opened Graphs
  import opened Walks
  import opened Reconstruction

  /** A tentative or final distance; vertices not yet reached are at infinity. */
  datatype Dist = Finite(value: Weight) | Infinite

  datatype DijkstraResult = DijkstraResult(dist: map<Vertex, Dist>, parent: map<Vertex, Vertex>)

  /** The relaxation test: nd is strictly shorter than the recorded distance. */
  predicate Improves(nd: Weight, cur: Dist)
  {
    cur.Infinite? || nd < cur.value
  }

  /** No edge out of a vertex at finite distance can still shorten its target's distance. */
  ghost predicate Relaxed(adj: AdjList, dist: map<Vertex, Dist>)
  {
    forall u, e :: u in dist && dist[u].Finite? && u in adj && e in adj[u] ==>
      e.v in dist && dist[e.v].Finite? && dist[e.v].value <= dist[u].value + e.w
  }

  /** No walk from src is shorter than the distance recorded for where it ends. */
  ghost predicate LowerBounds(adj: AdjList, src: Vertex, dist: map<Vertex, Dist>)
  {
    forall es :: IsWalk(adj, src, es) ==>
      Dest(src, es) in dist && dist[Dest(src, es)].Finite? && dist[Dest(src, es)].value <= Cost(es)
  }

  /** Every finite distance is the cost of some walk from src. */
  ghost predicate Attained(adj: AdjList, src: Vertex, dist: map<Vertex, Dist>)
  {
    forall v :: v in dist && dist[v].Finite? ==>
      exists es :: IsWalk(adj, src, es) && Dest(src, es) == v && Cost(es) == dist[v].value
  }

  /**
   * dist holds an entry for every registered vertex and for src, and each
   * entry is the least cost of a walk from src, or infinity when no walk exists.
   */
  ghost predicate ShortestDistances(adj: AdjList, src: Vertex, dist: map<Vertex, Dist>)
  {
    && dist.Keys == adj.Keys + {src}
    && LowerBounds(adj, src, dist)
    && Attained(adj, src, dist)
  }

  /** Recorded predecessor u of v: an edge u -> v that accounts for v's whole distance. */
  ghost predicate TightEdge(adj: AdjList, dist: map<Vertex, Dist>, u: Vertex, v: Vertex)
  {
    && u in dist && v in dist && dist[u].Finite? && dist[v].Finite?
    && u in adj
    && exists w: Weight :: Edge(v, w) in adj[u] && dist[v].value == dist[u].value + w
  }

  /**
   * The predecessor map is a shortest-path tree rooted at src: exactly the
   * reached vertices other than src have a predecessor, each link is a tight
   * edge, and following links never cycles.
   */
  ghost predicate ParentTree(adj: AdjList, src: Vertex, dist: map<Vertex, Dist>, parent: map<Vertex, Vertex>)
  {
    && src in dist && dist[src] == Finite(0.0) && src !in parent
    && (forall v {:trigger parent[v]} :: v in parent ==> TightEdge(adj, dist, parent[v], v))
    && (forall v :: v in dist ==> (v in parent <==> v != src && dist[v].Finite?))
    && parent.Keys <= dist.Keys
    && Acyclic(parent, src)
  }

  /** What the loop leaves behind, once every reached vertex is finalized and relaxed, is the answer. */
  lemma FinalState(adj: AdjList, src: Vertex, dist: map<Vertex, Dist>, parent: map<Vertex, Vertex>,
                   via: map<Vertex, nat>)
    requires Closed(adj)
    requires dist.Keys == adj.Keys + {src}
    requires dist[src] == Finite(0.0) && src !in parent
    requires Relaxed(adj, dist)
    requires forall v :: v in parent ==>
               v in dist && v in via && parent[v] in dist && parent[v] in adj &&
               via[v] < |adj[parent[v]]| && adj[parent[v]][via[v]].v == v &&
               dist[parent[v]].Finite? && dist[v].Finite? &&
               dist[v].value == dist[parent[v]].value + adj[parent[v]][via[v]].w
    requires forall v :: v in dist && dist[v].Finite? && v != src ==> v in parent
    requires Acyclic(parent, src)
    ensures ShortestDistances(adj, src, dist)
    ensures forall v :: v in dist ==> (dist[v].Finite? <==> Reachable(adj, src, v))
    ensures ParentTree(adj, src, dist, parent)
  {
    forall v | v in parent ensures TightEdge(adj, dist, parent[v], v) {
      var e := adj[parent[v]][via[v]];
      assert Edge(v, e.w) == e && e in adj[parent[v]];
    }
    assert ParentTree(adj, src, dist, parent);
    forall es | IsWalk(adj, src, es)
      ensures Dest(src, es) in dist && dist[Dest(src, es)].Finite? && dist[Dest(src, es)].value <= Cost(es)
    {
      RelaxedBoundsWalk(adj, src, dist, es);
    }
    forall v | v in dist && dist[v].Finite?
      ensures exists es :: IsWalk(adj, src, es) && Dest(src, es) == v && Cost(es) == dist[v].value
    {
      var p, es := TreeChain(adj, src, dist, parent, v);
    }
    forall v | v in dist ensures dist[v].Finite? <==> Reachable(adj, src, v) {
      if Reachable(adj, src, v) {
        var es :| IsWalk(adj, src, es) && Dest(src, es) == v;
        RelaxedBoundsWalk(adj, src, dist, es);
      }
    }
  }

  /**
   * With src at zero and every edge out of a finite vertex relaxed, the
   * distances are a feasible potential: every walk costs at least the
   * distance recorded for its end, which is therefore finite.
   */
  lemma {:induction false} RelaxedBoundsWalk(adj: AdjList, src: Vertex, dist: map<Vertex, Dist>, es: seq<Edge>)
    requires src in dist && dist[src] == Finite(0.0)
    requires Relaxed(adj, dist)
    requires IsWalk(adj, src, es)
    ensures Dest(src, es) in dist && dist[Dest(src, es)].Finite? && dist[Dest(src, es)].value <= Cost(es)
    decreases |es|
  {
    if es != [] {
      var before := es[..|es| - 1];
      RelaxedBoundsWalk(adj, src, dist, before);
      var u := Dest(src, before);
      assert u in adj && es[|es| - 1] in adj[u];
    }
  }

  /**
   * In a shortest-path tree the predecessor links from any reached vertex
   * lead back to src, and the chain they trace is a walk whose cost is the
   * vertex's distance.
   */
  lemma TreeChain(adj: AdjList, src: Vertex, dist: map<Vertex, Dist>, parent: map<Vertex, Vertex>, v: Vertex)
    returns (p: seq<Vertex>, es: seq<Edge>)
    requires ParentTree(adj, src, dist, parent)
    requires v in dist && dist[v].Finite?
    ensures IsParentChain(parent, src, p) && p[|p| - 1] == v
    ensures IsWalk(adj, src, es) && Vertices(src, es) == p && Cost(es) == dist[v].value
  {
    var rank :| RankedBy(parent, src, rank);
    p, es := RankedTreeChain(adj, src, dist, parent, rank, v);
  }

  lemma {:induction false} RankedTreeChain(adj: AdjList, src: Vertex, dist: map<Vertex, Dist>,
                                           parent: map<Vertex, Vertex>, rank: map<Vertex, nat>, v: Vertex)
    returns (p: seq<Vertex>, es: seq<Edge>)
    requires ParentTree(adj, src, dist, parent) && RankedBy(parent, src, rank)
    requires v in dist && dist[v].Finite?
    ensures IsParentChain(parent, src, p) && p[|p| - 1] == v
    ensures IsWalk(adj, src, es) && Vertices(src, es) == p && Cost(es) == dist[v].value
    decreases if v != src && v in rank then rank[v] + 1 else 0
  {
    if v == src {
      p, es := [src], [];
    } else {
      var u := parent[v];
      assert TightEdge(adj, dist, u, v);
      var w: Weight :| Edge(v, w) in adj[u] && dist[v].value == dist[u].value + w;
      var p', es' := RankedTreeChain(adj, src, dist, parent, rank, u);
      Extend(adj, src, es', Edge(v, w));
      p, es := p' + [v], es' + [Edge(v, w)];
    }
  }

  /** A distance that some walk attains bounds every other exact result's entry. */
  lemma Dominates(adj: AdjList, src: Vertex, d1: map<Vertex, Dist>, d2: map<Vertex, Dist>, v: Vertex)
    requires ShortestDistances(adj, src, d1) && ShortestDistances(adj, src, d2)
    requires v in d2
    ensures d2[v].Finite? ==> d1[v].Finite? && d1[v].value <= d2[v].value
  {
    if d2[v].Finite? {
      var es :| IsWalk(adj, src, es) && Dest(src, es) == v && Cost(es) == d2[v].value;
    }
  }

  /** Two results that both hold the least walk costs hold the same distances, whatever order ties were broken in. */
  lemma DistancesUnique(adj: AdjList, src: Vertex, d1: map<Vertex, Dist>, d2: map<Vertex, Dist>)
    requires ShortestDistances(adj, src, d1) && ShortestDistances(adj, src, d2)
    ensures d1 == d2
  {
    forall v | v in d1 ensures d1[v] == d2[v] {
      Dominates(adj, src, d1, d2, v);
      Dominates(adj, src, d2, d1, v);
    }
  }
}
