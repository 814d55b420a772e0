/**
 * The proof of the search loop: the invariants of the outer loop and of the
 * relaxation loop, and one lemma per step of the search showing the step
 * keeps them.
 */
module SearchSteps {
  import opened Graphs
  import opened Walks
  import opened Frontier
  import opened Reconstruction
  import opened ShortestPaths

  /** Every frontier entry is at least the current distance of its vertex. */
  ghost predicate QueueSound(dist: map<Vertex, Dist>, pq: Queue)
  {
    forall e :: e in pq ==> e.vertex in dist && dist[e.vertex].Finite? && dist[e.vertex].value <= e.key
  }

  /** Every reached vertex not yet finalized has an entry carrying its current distance. */
  ghost predicate PendingQueued(dist: map<Vertex, Dist>, visited: set<Vertex>, pq: Queue)
  {
    forall v :: v in dist && dist[v].Finite? && v !in visited ==> Entry(dist[v].value, v) in pq
  }

  /** Every edge out of x is relaxed. */
  ghost predicate RelaxedOut(adj: AdjList, dist: map<Vertex, Dist>, x: Vertex)
  {
    x in dist && dist[x].Finite? &&
    (x in adj ==> forall e :: e in adj[x] ==> e.v in dist && dist[e.v].Finite? && dist[e.v].value <= dist[x].value + e.w)
  }

  /** Each recorded link is a tight edge out of a finalized vertex; via records its position in that vertex's list. */
  ghost predicate LinksTight(adj: AdjList, dist: map<Vertex, Dist>, parent: map<Vertex, Vertex>,
                             visited: set<Vertex>, via: map<Vertex, nat>)
  {
    forall v {:trigger parent[v]} :: v in parent ==>
      v in dist && v in via && parent[v] in visited && parent[v] in dist && parent[v] in adj &&
      via[v] < |adj[parent[v]]| && adj[parent[v]][via[v]].v == v &&
      dist[v].Finite? && dist[parent[v]].Finite? &&
      dist[v].value == dist[parent[v]].value + adj[parent[v]][via[v]].w
  }

  /** A finalized vertex's predecessor was finalized before it. */
  ghost predicate OrderOk(parent: map<Vertex, Vertex>, visited: set<Vertex>, order: map<Vertex, nat>, step: nat)
  {
    && order.Keys == visited
    && (forall x :: x in order ==> order[x] < step)
    && (forall v {:trigger parent[v]} :: v in parent && v in visited ==> parent[v] in order && order[parent[v]] < order[v])
  }

  /** The facts shared by the outer loop and the relaxation loop. */
  ghost predicate Common(adj: AdjList, src: Vertex, dist: map<Vertex, Dist>, parent: map<Vertex, Vertex>,
                         pq: Queue, visited: set<Vertex>, via: map<Vertex, nat>, order: map<Vertex, nat>, step: nat)
  {
    && Closed(adj)
    && dist.Keys == adj.Keys + {src} && visited <= dist.Keys
    && dist[src] == Finite(0.0) && src !in parent
    && (forall x :: x in visited ==> dist[x].Finite?)
    && QueueSound(dist, pq)
    && PendingQueued(dist, visited, pq)
    && LinksTight(adj, dist, parent, visited, via)
    && (forall v :: v in dist && dist[v].Finite? && v != src ==> v in parent)
    && OrderOk(parent, visited, order, step)
  }

  /** Invariant of the outer loop: finalized vertices are relaxed and no larger than any frontier entry. */
  ghost predicate SearchInv(adj: AdjList, src: Vertex, dist: map<Vertex, Dist>, parent: map<Vertex, Vertex>,
                            pq: Queue, visited: set<Vertex>, via: map<Vertex, nat>, order: map<Vertex, nat>, step: nat)
  {
    && Common(adj, src, dist, parent, pq, visited, via, order, step)
    && (forall x, e :: x in visited && e in pq ==> dist[x].value <= e.key)
    && (forall x :: x in visited ==> RelaxedOut(adj, dist, x))
  }

  /**
   * Invariant of the relaxation loop for the vertex u just finalized at
   * distance d, whose edges are nbrs: the first i of them are relaxed.
   */
  ghost predicate RelaxInv(adj: AdjList, src: Vertex, dist: map<Vertex, Dist>, parent: map<Vertex, Vertex>,
                           pq: Queue, visited: set<Vertex>, via: map<Vertex, nat>, order: map<Vertex, nat>, step: nat,
                           u: Vertex, d: Weight, nbrs: seq<Edge>, i: nat)
  {
    && Common(adj, src, dist, parent, pq, visited, via, order, step)
    && u in visited && dist[u] == Finite(d)
    && (forall x :: x in visited ==> dist[x].value <= d)
    && (forall e :: e in pq ==> d <= e.key)
    && (forall x :: x in visited && x != u ==> RelaxedOut(adj, dist, x))
    && i <= |nbrs|
    && (forall j :: 0 <= j < i ==> nbrs[j].v in dist && dist[nbrs[j].v].Finite? && dist[nbrs[j].v].value <= d + nbrs[j].w)
  }

  // ---------- One lemma per step of the search ----------

  /** Before the first pop: nothing finalized, no links, one entry (0, src). */
  lemma InitialState(adj: AdjList, src: Vertex, dist: map<Vertex, Dist>)
    requires Closed(adj)
    requires dist.Keys == adj.Keys + {src} && dist[src] == Finite(0.0)
    requires forall x :: x in dist && x != src ==> dist[x] == Infinite
    ensures SearchInv(adj, src, dist, map[], multiset{Entry(0.0, src)}, {}, map[], map[], 0)
  {
  }

  /** A popped entry whose vertex is already finalized is stale: dropping it keeps the invariant. */
  lemma SkipStale(adj: AdjList, src: Vertex, dist: map<Vertex, Dist>, parent: map<Vertex, Vertex>,
                  pq: Queue, visited: set<Vertex>, via: map<Vertex, nat>, order: map<Vertex, nat>, step: nat,
                  top: Entry, pq': Queue)
    requires SearchInv(adj, src, dist, parent, pq, visited, via, order, step)
    requires top in pq && top.vertex in visited && pq' == pq - multiset{top}
    ensures SearchInv(adj, src, dist, parent, pq', visited, via, order, step)
  {
  }

  /**
   * A least entry whose vertex is not finalized carries that vertex's exact
   * distance (no stale entry is smaller than a fresh one), so finalizing it
   * starts the relaxation loop in a good state.
   */
  lemma Finalize(adj: AdjList, src: Vertex, dist: map<Vertex, Dist>, parent: map<Vertex, Vertex>,
                 pq: Queue, visited: set<Vertex>, via: map<Vertex, nat>, order: map<Vertex, nat>, step: nat,
                 top: Entry, nbrs: seq<Edge>,
                 pq': Queue, visited': set<Vertex>, order': map<Vertex, nat>, step': nat)
    requires SearchInv(adj, src, dist, parent, pq, visited, via, order, step)
    requires top in pq && (forall f :: f in pq ==> top.key <= f.key) && top.vertex !in visited
    requires pq' == pq - multiset{top} && visited' == visited + {top.vertex}
    requires order' == order[top.vertex := step] && step' == step + 1
    ensures top.vertex in adj.Keys + {src} && dist[top.vertex] == Finite(top.key)
    ensures RelaxInv(adj, src, dist, parent, pq', visited', via, order', step', top.vertex, top.key, nbrs, 0)
  {
    FreshTop(dist, visited, pq, top);
    PopFresh(dist, visited, pq, top, pq', visited');
    GrowLinksTight(adj, dist, parent, visited, via, visited');
    FinalizeOrder(adj, dist, parent, visited, via, order, step, top.vertex, visited', order', step');
    FinalizeFrame(adj, dist, pq, visited, top, pq', visited');
  }

  /** Finalizing the least entry's vertex keeps every finalized vertex at or below it and below the frontier. */
  lemma FinalizeFrame(adj: AdjList, dist: map<Vertex, Dist>, pq: Queue, visited: set<Vertex>, top: Entry,
                      pq': Queue, visited': set<Vertex>)
    requires visited <= dist.Keys && forall x :: x in visited ==> dist[x].Finite?
    requires forall x, e :: x in visited && e in pq ==> dist[x].value <= e.key
    requires forall x :: x in visited ==> RelaxedOut(adj, dist, x)
    requires top in pq && (forall f :: f in pq ==> top.key <= f.key)
    requires top.vertex in dist && dist[top.vertex] == Finite(top.key)
    requires pq' == pq - multiset{top} && visited' == visited + {top.vertex}
    ensures visited' <= dist.Keys && forall x :: x in visited' ==> dist[x].Finite?
    ensures top.vertex in visited'
    ensures forall x :: x in visited' ==> dist[x].value <= top.key
    ensures forall f :: f in pq' ==> top.key <= f.key
    ensures forall x :: x in visited' && x != top.vertex ==> RelaxedOut(adj, dist, x)
  {
    assert forall f :: f in pq' ==> f in pq;
  }

  /** The least entry of a vertex not yet finalized carries exactly that vertex's distance. */
  lemma FreshTop(dist: map<Vertex, Dist>, visited: set<Vertex>, pq: Queue, top: Entry)
    requires QueueSound(dist, pq) && PendingQueued(dist, visited, pq)
    requires top in pq && (forall f :: f in pq ==> top.key <= f.key) && top.vertex !in visited
    ensures top.vertex in dist && dist[top.vertex] == Finite(top.key)
  {
    assert Entry(dist[top.vertex].value, top.vertex) in pq;
  }

  /** Removing a fresh least entry and finalizing its vertex leaves every other pending vertex queued. */
  lemma PopFresh(dist: map<Vertex, Dist>, visited: set<Vertex>, pq: Queue, top: Entry, pq': Queue, visited': set<Vertex>)
    requires QueueSound(dist, pq) && PendingQueued(dist, visited, pq)
    requires top in pq && top.vertex in dist && dist[top.vertex] == Finite(top.key)
    requires pq' == pq - multiset{top} && visited' == visited + {top.vertex}
    ensures QueueSound(dist, pq') && PendingQueued(dist, visited', pq')
  {
    forall v | v in dist && dist[v].Finite? && v !in visited'
      ensures Entry(dist[v].value, v) in pq'
    {
      assert Entry(dist[v].value, v) in pq && Entry(dist[v].value, v) != top;
    }
  }

  /** Finalizing more vertices keeps every recorded link tight. */
  lemma GrowLinksTight(adj: AdjList, dist: map<Vertex, Dist>, parent: map<Vertex, Vertex>,
                       visited: set<Vertex>, via: map<Vertex, nat>, visited': set<Vertex>)
    requires LinksTight(adj, dist, parent, visited, via) && visited <= visited'
    ensures LinksTight(adj, dist, parent, visited', via)
  {
  }

  /** The vertex finalized now gets the next visit number, after every predecessor already recorded. */
  lemma FinalizeOrder(adj: AdjList, dist: map<Vertex, Dist>, parent: map<Vertex, Vertex>, visited: set<Vertex>,
                      via: map<Vertex, nat>, order: map<Vertex, nat>, step: nat,
                      u: Vertex, visited': set<Vertex>, order': map<Vertex, nat>, step': nat)
    requires OrderOk(parent, visited, order, step) && LinksTight(adj, dist, parent, visited, via)
    requires u !in visited && visited' == visited + {u} && order' == order[u := step] && step' == step + 1
    ensures OrderOk(parent, visited', order', step')
  {
    forall v | v in parent && v in visited'
      ensures parent[v] in order' && order'[parent[v]] < order'[v]
    {
      assert parent[v] in visited;
    }
  }

  /** Relaxing an edge u -> v that shortens v's distance: v gets the new distance, u as predecessor and a new entry. */
  lemma RelaxImproves(adj: AdjList, src: Vertex, dist: map<Vertex, Dist>, parent: map<Vertex, Vertex>,
                      pq: Queue, visited: set<Vertex>, via: map<Vertex, nat>, order: map<Vertex, nat>, step: nat,
                      u: Vertex, d: Weight, nbrs: seq<Edge>, i: nat, e: Edge, nd: Weight,
                      dist': map<Vertex, Dist>, parent': map<Vertex, Vertex>, pq': Queue, via': map<Vertex, nat>)
    requires RelaxInv(adj, src, dist, parent, pq, visited, via, order, step, u, d, nbrs, i)
    requires i < |nbrs| && nbrs == if u in adj then adj[u] else []
    requires e == nbrs[i] && nd == d + e.w && e.v in dist && Improves(nd, dist[e.v])
    requires dist' == dist[e.v := Finite(nd)] && parent' == parent[e.v := u]
    requires pq' == pq + multiset{Entry(nd, e.v)} && via' == via[e.v := i]
    ensures RelaxInv(adj, src, dist', parent', pq', visited, via', order, step, u, d, nbrs, i + 1)
  {
    var v := e.v;
    assert u in adj && nbrs == adj[u];
    RelaxTarget(src, dist, visited, d, v, e.w, nd);
    LowerQueueSound(dist, pq, v, nd, dist', pq');
    LowerPendingQueued(dist, visited, pq, v, nd, dist', pq');
    LowerLinksTight(adj, dist, parent, visited, via, u, i, nd, dist', parent', via');
    LowerOrderOk(parent, visited, order, step, u, v, parent');
    LowerRelaxedOut(adj, dist, visited, u, v, nd, dist');
    RelaxFrame(adj, src, dist, parent, pq, visited, u, d, v, nd, dist', parent', pq');
    RelaxPrefix(dist, d, nbrs, i, nd, dist');
  }

  /** The target of an improving edge is neither finalized nor src: those sit at or below d. */
  lemma RelaxTarget(src: Vertex, dist: map<Vertex, Dist>, visited: set<Vertex>, d: Weight, v: Vertex, w: Weight, nd: Weight)
    requires src in dist && dist[src] == Finite(0.0) && visited <= dist.Keys
    requires forall x :: x in visited ==> dist[x].Finite?
    requires forall x :: x in visited ==> dist[x].value <= d
    requires nd == d + w && v in dist && Improves(nd, dist[v])
    ensures v !in visited && v != src
  {
  }

  /** Lowering v's distance keeps the domain, src, the finalized vertices' distances and the frontier bound. */
  lemma RelaxFrame(adj: AdjList, src: Vertex, dist: map<Vertex, Dist>, parent: map<Vertex, Vertex>, pq: Queue,
                   visited: set<Vertex>, u: Vertex, d: Weight, v: Vertex, nd: Weight,
                   dist': map<Vertex, Dist>, parent': map<Vertex, Vertex>, pq': Queue)
    requires dist.Keys == adj.Keys + {src} && visited <= dist.Keys
    requires dist[src] == Finite(0.0) && src !in parent
    requires forall x :: x in visited ==> dist[x].Finite?
    requires forall x :: x in dist && dist[x].Finite? && x != src ==> x in parent
    requires u in visited && dist[u] == Finite(d)
    requires forall x :: x in visited ==> dist[x].value <= d
    requires forall f :: f in pq ==> d <= f.key
    requires v in dist && v !in visited && v != src && d <= nd
    requires dist' == dist[v := Finite(nd)] && parent' == parent[v := u] && pq' == pq + multiset{Entry(nd, v)}
    ensures dist'.Keys == adj.Keys + {src} && visited <= dist'.Keys
    ensures dist'[src] == Finite(0.0) && src !in parent'
    ensures forall x :: x in visited ==> dist'[x].Finite?
    ensures forall x :: x in dist' && dist'[x].Finite? && x != src ==> x in parent'
    ensures dist'[u] == Finite(d)
    ensures forall x :: x in visited ==> dist'[x].value <= d
    ensures forall f :: f in pq' ==> d <= f.key
  {
  }

  /** Lowering the target of edge i keeps the first i edges relaxed and relaxes edge i. */
  lemma RelaxPrefix(dist: map<Vertex, Dist>, d: Weight, nbrs: seq<Edge>, i: nat, nd: Weight, dist': map<Vertex, Dist>)
    requires i < |nbrs| && nd == d + nbrs[i].w && nbrs[i].v in dist && Improves(nd, dist[nbrs[i].v])
    requires forall j :: 0 <= j < i ==> nbrs[j].v in dist && dist[nbrs[j].v].Finite? && dist[nbrs[j].v].value <= d + nbrs[j].w
    requires dist' == dist[nbrs[i].v := Finite(nd)]
    ensures forall j :: 0 <= j < i + 1 ==> nbrs[j].v in dist' && dist'[nbrs[j].v].Finite? && dist'[nbrs[j].v].value <= d + nbrs[j].w
  {
    forall j | 0 <= j < i + 1
      ensures nbrs[j].v in dist' && dist'[nbrs[j].v].Finite? && dist'[nbrs[j].v].value <= d + nbrs[j].w
    {
      if j < i && nbrs[j].v != nbrs[i].v {
        assert dist'[nbrs[j].v] == dist[nbrs[j].v];
      }
    }
  }

  /** Lowering v's distance and pushing its new entry keeps every entry at or above its vertex's distance. */
  lemma LowerQueueSound(dist: map<Vertex, Dist>, pq: Queue, v: Vertex, nd: Weight, dist': map<Vertex, Dist>, pq': Queue)
    requires QueueSound(dist, pq) && v in dist && Improves(nd, dist[v])
    requires dist' == dist[v := Finite(nd)] && pq' == pq + multiset{Entry(nd, v)}
    ensures QueueSound(dist', pq')
  {
  }

  /** The pushed entry carries v's new distance, so every pending vertex stays queued. */
  lemma LowerPendingQueued(dist: map<Vertex, Dist>, visited: set<Vertex>, pq: Queue, v: Vertex, nd: Weight,
                           dist': map<Vertex, Dist>, pq': Queue)
    requires PendingQueued(dist, visited, pq) && v in dist
    requires dist' == dist[v := Finite(nd)] && pq' == pq + multiset{Entry(nd, v)}
    ensures PendingQueued(dist', visited, pq')
  {
  }

  /** Recording edge k of u as the link into its target keeps every link tight. */
  lemma LowerLinksTight(adj: AdjList, dist: map<Vertex, Dist>, parent: map<Vertex, Vertex>,
                        visited: set<Vertex>, via: map<Vertex, nat>, u: Vertex, k: nat, nd: Weight,
                        dist': map<Vertex, Dist>, parent': map<Vertex, Vertex>, via': map<Vertex, nat>)
    requires LinksTight(adj, dist, parent, visited, via)
    requires u in visited && u in dist && dist[u].Finite? && u in adj && k < |adj[u]|
    requires adj[u][k].v !in visited && adj[u][k].v in dist && nd == dist[u].value + adj[u][k].w
    requires dist' == dist[adj[u][k].v := Finite(nd)] && parent' == parent[adj[u][k].v := u]
    requires via' == via[adj[u][k].v := k]
    ensures LinksTight(adj, dist', parent', visited, via')
  {
    var v := adj[u][k].v;
    forall x | x in parent'
      ensures x in dist' && x in via' && parent'[x] in visited && parent'[x] in dist' && parent'[x] in adj &&
              via'[x] < |adj[parent'[x]]| && adj[parent'[x]][via'[x]].v == x &&
              dist'[x].Finite? && dist'[parent'[x]].Finite? &&
              dist'[x].value == dist'[parent'[x]].value + adj[parent'[x]][via'[x]].w
    {
      if x != v {
        assert parent'[x] == parent[x] && parent[x] in visited;
      }
    }
  }

  /** The relinked target is not finalized, so the visit order of finalized vertices is untouched. */
  lemma LowerOrderOk(parent: map<Vertex, Vertex>, visited: set<Vertex>, order: map<Vertex, nat>, step: nat,
                     u: Vertex, v: Vertex, parent': map<Vertex, Vertex>)
    requires OrderOk(parent, visited, order, step) && v !in visited && parent' == parent[v := u]
    ensures OrderOk(parent', visited, order, step)
  {
    forall x | x in parent' && x in visited
      ensures parent'[x] in order && order[parent'[x]] < order[x]
    {
      assert parent'[x] == parent[x];
    }
  }

  /** Lowering an unfinalized target's distance keeps the other finalized vertices' edges relaxed. */
  lemma LowerRelaxedOut(adj: AdjList, dist: map<Vertex, Dist>, visited: set<Vertex>, u: Vertex, v: Vertex, nd: Weight,
                        dist': map<Vertex, Dist>)
    requires forall x :: x in visited && x != u ==> RelaxedOut(adj, dist, x)
    requires v !in visited && v in dist && Improves(nd, dist[v]) && dist' == dist[v := Finite(nd)]
    ensures forall x :: x in visited && x != u ==> RelaxedOut(adj, dist', x)
  {
    forall x | x in visited && x != u ensures RelaxedOut(adj, dist', x) {
      assert RelaxedOut(adj, dist, x);
    }
  }

  /** Relaxing an edge that does not shorten its target's distance changes nothing. */
  lemma RelaxKeeps(adj: AdjList, src: Vertex, dist: map<Vertex, Dist>, parent: map<Vertex, Vertex>,
                   pq: Queue, visited: set<Vertex>, via: map<Vertex, nat>, order: map<Vertex, nat>, step: nat,
                   u: Vertex, d: Weight, nbrs: seq<Edge>, i: nat)
    requires RelaxInv(adj, src, dist, parent, pq, visited, via, order, step, u, d, nbrs, i)
    requires i < |nbrs| && nbrs == if u in adj then adj[u] else []
    requires !Improves(d + nbrs[i].w, dist[nbrs[i].v])
    ensures RelaxInv(adj, src, dist, parent, pq, visited, via, order, step, u, d, nbrs, i + 1)
  {
  }

  /** Once all of u's edges are relaxed, the outer invariant holds again. */
  lemma FinishVertex(adj: AdjList, src: Vertex, dist: map<Vertex, Dist>, parent: map<Vertex, Vertex>,
                     pq: Queue, visited: set<Vertex>, via: map<Vertex, nat>, order: map<Vertex, nat>, step: nat,
                     u: Vertex, d: Weight, nbrs: seq<Edge>)
    requires RelaxInv(adj, src, dist, parent, pq, visited, via, order, step, u, d, nbrs, |nbrs|)
    requires nbrs == if u in adj then adj[u] else []
    ensures SearchInv(adj, src, dist, parent, pq, visited, via, order, step)
  {
  }

  /** With the frontier empty, every reached vertex is finalized and relaxed, and the result is exact. */
  lemma Finished(adj: AdjList, src: Vertex, dist: map<Vertex, Dist>, parent: map<Vertex, Vertex>,
                 visited: set<Vertex>, via: map<Vertex, nat>, order: map<Vertex, nat>, step: nat)
    requires SearchInv(adj, src, dist, parent, multiset{}, visited, via, order, step)
    ensures Relaxed(adj, dist)
    ensures ShortestDistances(adj, src, dist)
    ensures forall v :: v in dist ==> (dist[v].Finite? <==> Reachable(adj, src, v))
    ensures ParentTree(adj, src, dist, parent)
  {
    assert forall v :: v in dist && dist[v].Finite? ==> v in visited;
    assert RankedBy(parent, src, order);
    FinalState(adj, src, dist, parent, via);
  }

  // ---------- What relaxing one vertex's edges changes ----------

  /** x keeps its distance and its predecessor entry, or its absence. */
  ghost predicate Kept(dist: map<Vertex, Dist>, parent: map<Vertex, Vertex>,
                       dist': map<Vertex, Dist>, parent': map<Vertex, Vertex>, x: Vertex)
  {
    && x in dist && x in dist' && dist'[x] == dist[x]
    && (x in parent' <==> x in parent)
    && (x in parent ==> parent'[x] == parent[x])
  }

  /**
   * x was lowered through an edge of u: its new distance is d plus the
   * weight of some edge from u to x, strictly below its old distance, and u
   * is its predecessor.
   */
  ghost predicate Lowered(dist: map<Vertex, Dist>, dist': map<Vertex, Dist>, parent': map<Vertex, Vertex>,
                          u: Vertex, d: Weight, nbrs: seq<Edge>, x: Vertex)
  {
    && x in dist && x in dist' && dist'[x].Finite? && Improves(dist'[x].value, dist[x])
    && x in parent' && parent'[x] == u
    && exists f :: f in nbrs && f.v == x && dist'[x].value == d + f.w
  }

  /**
   * The effect of relaxing the first i edges of u (finalized at distance d):
   * every vertex is kept or lowered, and the frontier only gained at most i
   * entries, each the relaxed distance of a lowered target.
   */
  ghost predicate RelaxEffect(dist: map<Vertex, Dist>, parent: map<Vertex, Vertex>, pq: Queue,
                              u: Vertex, d: Weight, nbrs: seq<Edge>, i: nat,
                              dist': map<Vertex, Dist>, parent': map<Vertex, Vertex>, pq': Queue)
  {
    && dist'.Keys == dist.Keys
    && (forall x :: x in dist ==> Kept(dist, parent, dist', parent', x) || Lowered(dist, dist', parent', u, d, nbrs, x))
    && pq <= pq' && |pq'| <= |pq| + i
    && (forall ent :: ent in pq' - pq ==>
          Lowered(dist, dist', parent', u, d, nbrs, ent.vertex) &&
          exists f :: f in nbrs && f.v == ent.vertex && ent.key == d + f.w)
  }

  /** Before any edge is relaxed nothing has changed. */
  lemma EffectStart(dist: map<Vertex, Dist>, parent: map<Vertex, Vertex>, pq: Queue, u: Vertex, d: Weight, nbrs: seq<Edge>)
    ensures RelaxEffect(dist, parent, pq, u, d, nbrs, 0, dist, parent, pq)
  {
    assert pq - pq == multiset{};
  }

  /** An improving edge i lowers its target, which stays lowered relative to the state before u's edges. */
  lemma EffectImproves(dist: map<Vertex, Dist>, parent: map<Vertex, Vertex>, pq: Queue,
                       u: Vertex, d: Weight, nbrs: seq<Edge>, i: nat,
                       dist1: map<Vertex, Dist>, parent1: map<Vertex, Vertex>, pq1: Queue,
                       e: Edge, nd: Weight,
                       dist2: map<Vertex, Dist>, parent2: map<Vertex, Vertex>, pq2: Queue)
    requires RelaxEffect(dist, parent, pq, u, d, nbrs, i, dist1, parent1, pq1)
    requires i < |nbrs| && e == nbrs[i] && nd == d + e.w && e.v in dist1 && Improves(nd, dist1[e.v])
    requires dist2 == dist1[e.v := Finite(nd)] && parent2 == parent1[e.v := u]
    requires pq2 == pq1 + multiset{Entry(nd, e.v)}
    ensures RelaxEffect(dist, parent, pq, u, d, nbrs, i + 1, dist2, parent2, pq2)
  {
    assert e in nbrs;
    assert Lowered(dist, dist2, parent2, u, d, nbrs, e.v) by {
      assert Kept(dist, parent, dist1, parent1, e.v) || Lowered(dist, dist1, parent1, u, d, nbrs, e.v);
    }
    forall x | x in dist && x != e.v
      ensures Kept(dist, parent, dist2, parent2, x) || Lowered(dist, dist2, parent2, u, d, nbrs, x)
    {
      assert Kept(dist, parent, dist1, parent1, x) || Lowered(dist, dist1, parent1, u, d, nbrs, x);
      assert dist2[x] == dist1[x] && (x in parent2 <==> x in parent1) && (x in parent1 ==> parent2[x] == parent1[x]);
    }
    forall ent | ent in pq2 - pq
      ensures Lowered(dist, dist2, parent2, u, d, nbrs, ent.vertex)
      ensures exists f :: f in nbrs && f.v == ent.vertex && ent.key == d + f.w
    {
      if ent != Entry(nd, e.v) {
        assert ent in pq1 - pq;
        if ent.vertex != e.v {
          var x := ent.vertex;
          assert dist2[x] == dist1[x] && parent2[x] == parent1[x];
        }
      }
    }
  }

  /** A non-improving edge changes nothing, and the frontier bound only loosens. */
  lemma EffectKeeps(dist: map<Vertex, Dist>, parent: map<Vertex, Vertex>, pq: Queue,
                    u: Vertex, d: Weight, nbrs: seq<Edge>, i: nat,
                    dist1: map<Vertex, Dist>, parent1: map<Vertex, Vertex>, pq1: Queue)
    requires RelaxEffect(dist, parent, pq, u, d, nbrs, i, dist1, parent1, pq1)
    ensures RelaxEffect(dist, parent, pq, u, d, nbrs, i + 1, dist1, parent1, pq1)
  {
  }
}
