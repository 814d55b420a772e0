/**
 * The planner's route query: run the search from src, report that no route
 * exists when tgt is unknown or still at infinity, and otherwise rebuild the
 * route from the predecessor links and report it with its total cost.
 */
module Routes {
  import opened Graphs
  import opened Walks
  import opened Reconstruction
  import opened ShortestPaths
  import opened Search

  /** A route: the stops from source to target, and the total cost. */
  datatype Route = Route(stops: seq<Vertex>, cost: Weight)

  datatype Answer = NoRoute | Found(route: Route)

  /** rt follows an actual walk from src to tgt, stop by stop, and costs what that walk costs. */
  ghost predicate Follows(adj: AdjList, src: Vertex, tgt: Vertex, rt: Route)
  {
    exists es :: IsWalk(adj, src, es) && Dest(src, es) == tgt && Vertices(src, es) == rt.stops && Cost(es) == rt.cost
  }

  /**
   * The decision part of showRoute: NoRoute exactly when no walk leads from
   * src to tgt; otherwise a route along a walk from src to tgt that no other
   * walk undercuts.
   */
  method FastestRoute(g: Graph, src: Vertex, tgt: Vertex) returns (a: Answer)
    requires g.Valid()
    ensures a.NoRoute? <==> !Reachable(g.adj, src, tgt)
    ensures a.Found? ==> Follows(g.adj, src, tgt, a.route)
    ensures a.Found? ==> forall es :: IsWalk(g.adj, src, es) && Dest(src, es) == tgt ==> a.route.cost <= Cost(es)
    ensures a.Found? && tgt == src ==> a.route == Route([src], 0.0)
  {
    var r := Dijkstra(g, src);
    if tgt !in r.dist || r.dist[tgt].Infinite? {
      if tgt !in r.dist {
        UnknownUnreachable(g.adj, src, tgt);
      }
      return NoRoute;
    }
    var path := ReconstructPath(r.parent, src, tgt);
    ghost var p, es := TreeChain(g.adj, src, r.dist, r.parent, tgt);
    ChainsUnique(r.parent, src, path, p);
    a := Found(Route(path, r.dist[tgt].value));
  }

  /** In a closed graph no walk from src ends at a vertex that is neither registered nor src. */
  lemma UnknownUnreachable(adj: AdjList, src: Vertex, v: Vertex)
    requires Closed(adj)
    requires v !in adj && v != src
    ensures !Reachable(adj, src, v)
  {
    forall es | IsWalk(adj, src, es) ensures Dest(src, es) != v {
      WalkEndsRegistered(adj, src, es);
    }
  }
}
