/**
 * Path reconstruction: follow predecessor links back from the target to the
 * source and return the vertices in source-to-target order.
 */
module Reconstruction {
  import opened Graphs

  /**
   * p starts at src and each later vertex is not src and has the vertex
   * before it as its recorded predecessor: the shape of a successful walk
   * back from p's last vertex.
   */
  ghost predicate IsParentChain(parent: map<Vertex, Vertex>, src: Vertex, p: seq<Vertex>)
  {
    |p| >= 1 && p[0] == src &&
    forall i :: 1 <= i < |p| ==> p[i] != src && p[i] in parent && parent[p[i]] == p[i - 1]
  }

  /** Some predecessor chain leads from src to v. */
  ghost predicate ChainReaches(parent: map<Vertex, Vertex>, src: Vertex, v: Vertex)
  {
    exists p :: IsParentChain(parent, src, p) && p[|p| - 1] == v
  }

  /**
   * rank strictly drops along every predecessor link that does not start
   * or end at src, so no walk back that avoids src can go round a cycle.
   */
  ghost predicate RankedBy(parent: map<Vertex, Vertex>, src: Vertex, rank: map<Vertex, nat>)
  {
    forall v {:trigger parent[v]} :: v in parent && v != src ==>
      v in rank &&
      (parent[v] != src && parent[v] in parent ==> parent[v] in rank && rank[parent[v]] < rank[v])
  }

  /** Predecessor links contain no cycle that avoids src. */
  ghost predicate Acyclic(parent: map<Vertex, Vertex>, src: Vertex)
  {
    exists rank :: RankedBy(parent, src, rank)
  }

  /** Because each vertex has at most one predecessor, a chain is fixed by its last vertex. */
  lemma {:induction false} ChainsUnique(parent: map<Vertex, Vertex>, src: Vertex, p: seq<Vertex>, q: seq<Vertex>)
    requires IsParentChain(parent, src, p) && IsParentChain(parent, src, q)
    requires p[|p| - 1] == q[|q| - 1]
    ensures p == q
    decreases |p|
  {
    if |p| == 1 || |q| == 1 {
      assert p[|p| - 1] == src;
    } else {
      var p', q' := p[..|p| - 1], q[..|q| - 1];
      assert IsParentChain(parent, src, p') && IsParentChain(parent, src, q');
      ChainsUnique(parent, src, p', q');
      assert p == p' + [p[|p| - 1]] && q == q' + [q[|q| - 1]];
    }
  }

  /** Every chain from src to tgt has cur at n links back from its end. */
  ghost predicate ChainsPass(parent: map<Vertex, Vertex>, src: Vertex, tgt: Vertex, n: nat, cur: Vertex)
  {
    forall p :: IsParentChain(parent, src, p) && p[|p| - 1] == tgt ==> n < |p| && p[|p| - 1 - n] == cur
  }

  /** Stepping back over a link that is not at src keeps every chain to tgt in step. */
  lemma StepBack(parent: map<Vertex, Vertex>, src: Vertex, tgt: Vertex, n: nat, cur: Vertex)
    requires cur != src && cur in parent
    requires ChainsPass(parent, src, tgt, n, cur)
    ensures ChainsPass(parent, src, tgt, n + 1, parent[cur])
  {
    forall p | IsParentChain(parent, src, p) && p[|p| - 1] == tgt
      ensures n + 1 < |p| && p[|p| - 1 - (n + 1)] == parent[cur]
    {
      var i := |p| - 1 - n;
      assert p[i] == cur;
      assert i != 0;
    }
  }

  /** A walk back that stops at a vertex other than src without a predecessor shows no chain reaches tgt. */
  lemma StuckMeansNoChain(parent: map<Vertex, Vertex>, src: Vertex, tgt: Vertex, n: nat, cur: Vertex)
    requires cur != src && cur !in parent
    requires ChainsPass(parent, src, tgt, n, cur)
    ensures !ChainReaches(parent, src, tgt)
  {
    forall p | IsParentChain(parent, src, p) && n < |p|
      ensures p[|p| - 1 - n] != cur
    {
    }
  }

  /** The vertices met walking back from tgt to src, read in reverse, form a chain. */
  lemma ReversedIsChain(parent: map<Vertex, Vertex>, src: Vertex, tgt: Vertex, back: seq<Vertex>, path: seq<Vertex>)
    requires |back| >= 1 && back[0] == tgt && back[|back| - 1] == src
    requires forall k :: 0 <= k < |back| - 1 ==> back[k] != src && back[k] in parent && parent[back[k]] == back[k + 1]
    requires |path| == |back| && forall k :: 0 <= k < |path| ==> path[k] == back[|back| - 1 - k]
    ensures IsParentChain(parent, src, path) && path[|path| - 1] == tgt
  {
    forall i | 1 <= i < |path|
      ensures path[i] != src && path[i] in parent && parent[path[i]] == path[i - 1]
    {
      var k := |back| - 1 - i;
      assert path[i] == back[k] && path[i - 1] == back[k + 1];
    }
  }

  /**
   * Walks back from tgt while the current vertex is not src and has a
   * predecessor; returns the chain from src to tgt, or [] when the walk
   * stops at a vertex without predecessor.
   */
  method ReconstructPath(parent: map<Vertex, Vertex>, src: Vertex, tgt: Vertex) returns (path: seq<Vertex>)
    requires Acyclic(parent, src)
    ensures tgt == src ==> path == [src]
    ensures path != [] ==> IsParentChain(parent, src, path) && path[|path| - 1] == tgt
    ensures path == [] <==> !ChainReaches(parent, src, tgt)
  {
    ghost var rank :| RankedBy(parent, src, rank);
    // back holds the vertices met so far, tgt first
    var back: seq<Vertex> := [];
    var cur := tgt;
    while cur != src && cur in parent
      invariant back == [] ==> cur == tgt
      invariant back != [] ==> back[0] == tgt
      invariant forall k :: 0 <= k < |back| ==> back[k] != src && back[k] in parent
      invariant forall k :: 0 <= k < |back| - 1 ==> parent[back[k]] == back[k + 1]
      invariant back != [] ==> parent[back[|back| - 1]] == cur
      invariant ChainsPass(parent, src, tgt, |back|, cur)
      decreases if cur != src && cur in parent then rank[cur] + 1 else 0
    {
      StepBack(parent, src, tgt, |back|, cur);
      back := back + [cur];
      cur := parent[cur];
    }
    if cur != src {
      StuckMeansNoChain(parent, src, tgt, |back|, cur);
      return [];
    }
    back := back + [src];
    // reverse back into source-to-target order
    path := [];
    var i := |back|;
    while i > 0
      invariant 0 <= i <= |back|
      invariant |path| == |back| - i
      invariant forall k :: 0 <= k < |path| ==> path[k] == back[|back| - 1 - k]
    {
      i := i - 1;
      path := path + [back[i]];
    }
    ReversedIsChain(parent, src, tgt, back, path);
  }
}
