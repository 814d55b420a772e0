/**
 * Directed walks through an adjacency list: the reference notion against
 * which the shortest-path engine is specified.  A walk from src is the
 * sequence of edges it takes; parallel edges are told apart by their weight.
 */
module Walks {
  import opened Graphs

  /** The vertex a walk from src ends at. */
  function Dest(src: Vertex, es: seq<Edge>): Vertex
  {
    if es == [] then src else es[|es| - 1].v
  }

  /** Each edge of es leaves the vertex the previous edges reached. */
  ghost predicate IsWalk(adj: AdjList, src: Vertex, es: seq<Edge>)
    decreases |es|
  {
    es == [] ||
    (var before := es[..|es| - 1];
     IsWalk(adj, src, before) && Dest(src, before) in adj && es[|es| - 1] in adj[Dest(src, before)])
  }

  /** Total weight of a walk. */
  function Cost(es: seq<Edge>): Weight
  {
    if es == [] then 0.0 else Cost(es[..|es| - 1]) + es[|es| - 1].w
  }

  /** The vertices a walk from src passes through, src first. */
  function Vertices(src: Vertex, es: seq<Edge>): (p: seq<Vertex>)
    ensures |p| == |es| + 1 && p[0] == src && p[|es|] == Dest(src, es)
    ensures forall i :: 0 <= i < |es| ==> p[i + 1] == es[i].v
  {
    if es == [] then [src] else Vertices(src, es[..|es| - 1]) + [es[|es| - 1].v]
  }

  ghost predicate Reachable(adj: AdjList, src: Vertex, v: Vertex)
  {
    exists es :: IsWalk(adj, src, es) && Dest(src, es) == v
  }

  /** Extending a walk by an edge out of its end gives a walk one edge longer. */
  lemma Extend(adj: AdjList, src: Vertex, es: seq<Edge>, e: Edge)
    requires IsWalk(adj, src, es)
    requires Dest(src, es) in adj && e in adj[Dest(src, es)]
    ensures IsWalk(adj, src, es + [e])
    ensures Dest(src, es + [e]) == e.v
    ensures Cost(es + [e]) == Cost(es) + e.w
    ensures Vertices(src, es + [e]) == Vertices(src, es) + [e.v]
  {
    assert (es + [e])[..|es|] == es;
  }

  /** In a closed graph a walk from a registered or source vertex stays on registered vertices. */
  lemma {:induction false} WalkEndsRegistered(adj: AdjList, src: Vertex, es: seq<Edge>)
    requires Closed(adj)
    requires IsWalk(adj, src, es)
    ensures Dest(src, es) in adj || Dest(src, es) == src
  {
    if es != [] {
      var before := es[..|es| - 1];
      assert Dest(src, before) in adj && es[|es| - 1] in adj[Dest(src, before)];
    }
  }
}
