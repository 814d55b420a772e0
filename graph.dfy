/**
 * The adjacency-list container of the route planner: every registered vertex
 * maps to the ordered list of its outgoing edges.
 */
module Graphs {

  /** Vertices are opaque text tokens, compared only for equality. */
  type Vertex(==, !new)

  /** Edge costs; the container refuses negative ones, so every stored weight is at least zero. */
  type Weight = w: real | 0.0 <= w

  /** A directed edge, its origin implicit from the list that holds it. */
  datatype Edge = Edge(v: Vertex, w: Weight)

  type AdjList = map<Vertex, seq<Edge>>

  datatype GraphError = InvalidWeight

  /** Outcome of an insertion that may be refused. */
  datatype Outcome = Pass | Fail(error: GraphError)

  /** Every edge leads to a registered vertex. */
  ghost predicate Closed(adj: AdjList)
  {
    forall u, e :: u in adj && e in adj[u] ==> e.v in adj
  }

  class Graph {
    var adj: AdjList

    /** The invariant every public operation keeps: edge targets are registered. */
    ghost predicate Valid()
      reads this
    {
      Closed(adj)
    }

    constructor ()
      ensures Valid() && adj == map[]
    {
      adj := map[];
    }

    /** The outgoing edges of u, in insertion order; an unknown vertex has none. */
    function Neighbors(u: Vertex): (r: seq<Edge>)
      reads this
      ensures u in adj ==> r == adj[u]
      ensures u !in adj ==> r == []
      ensures Valid() ==> forall e :: e in r ==> e.v in adj
    {
      if u in adj then adj[u] else []
    }

    /** Registers u with an empty edge list unless it is already present. */
    method AddNode(u: Vertex)
      requires Valid()
      modifies this
      ensures Valid()
      ensures adj.Keys == old(adj.Keys) + {u}
      ensures forall x :: Neighbors(x) == old(Neighbors(x))
      ensures u in old(adj) ==> adj == old(adj)
    {
      if u !in adj {
        adj := adj[u := []];
      }
    }

    /**
     * Appends the edge u -> v of weight w to u's list, registering both ends
     * first; a negative weight is refused before anything changes.
     */
    method AddEdge(u: Vertex, v: Vertex, w: real) returns (r: Outcome)
      requires Valid()
      modifies this
      ensures Valid()
      ensures r.Fail? <==> w < 0.0
      ensures r.Fail? ==> r.error == InvalidWeight && adj == old(adj)
      ensures r.Pass? ==> adj.Keys == old(adj.Keys) + {u, v}
      ensures r.Pass? ==> Neighbors(u) == old(Neighbors(u)) + [Edge(v, w)]
      ensures r.Pass? ==> forall x :: x != u ==> Neighbors(x) == old(Neighbors(x))
    {
      if w < 0.0 {
        return Fail(InvalidWeight);
      }
      AddNode(u);
      AddNode(v);
      adj := adj[u := adj[u] + [Edge(v, w)]];
      r := Pass;
    }

    /** Every registered vertex, each exactly once, in no particular order. */
    method Nodes() returns (keys: seq<Vertex>)
      ensures forall x :: x in keys <==> x in adj
      ensures forall i, j :: 0 <= i < j < |keys| ==> keys[i] != keys[j]
    {
      keys := [];
      var rest := adj.Keys;
      while rest != {}
        invariant rest <= adj.Keys
        invariant forall x :: x in keys <==> x in adj && x !in rest
        invariant forall i, j :: 0 <= i < j < |keys| ==> keys[i] != keys[j]
        decreases rest
      {
        var k :| k in rest;
        keys := keys + [k];
        rest := rest - {k};
      }
    }
  }
}
