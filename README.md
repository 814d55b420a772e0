# Smart route planner: a verified model of its shortest-path engine

The route planner holds a road network as a directed, weighted graph. Each
place maps to the ordered list of roads leaving it. The planner runs
Dijkstra's single-source search from a source place, then follows the
predecessor links back from the target to rebuild the fastest route.

This project models that engine in Dafny and proves it correct. The modules are:

- `Graphs` (graph.dfy) models the adjacency-list container.
  - It is a class `Graph` whose field `adj` maps each vertex to its edge list.
  - `AddNode`, `AddEdge`, `Neighbors` and `Nodes` are its operations.
  - `Valid()` is the invariant they keep: every edge leads to a registered vertex.
  - A negative weight makes `AddEdge` return `Fail(InvalidWeight)` before anything changes. This models the exception the source throws.
- `Walks` (walks.dfy) is the reference notion: walks through the graph, with their cost and the vertices they pass.
- `Frontier` (frontier.dfy) models the priority queue as a bag of `(distance, vertex)` entries. It has no decrease-key. `PopMin` removes some least entry.
- `ShortestPaths` (paths.dfy) states what a correct answer is:
  - distances equal the least walk costs (`ShortestDistances`);
  - the predecessor map is a tree of tight edges rooted at the source (`ParentTree`).
  - It also proves that the end state of the search is such an answer.
- `SearchSteps` (search_steps.dfy) holds the invariants of the two search loops and one lemma per step of the search.
- `Search` (search.dfy) holds `Dijkstra`, written as the source's loop. It skips stale queue entries through the set of finalized vertices, and relaxes edges with a strict `<`.
- `Reconstruction` (reconstruct.dfy) holds `ReconstructPath`:
  - it walks predecessor links back from the target;
  - it stops at the source or at a vertex with no predecessor;
  - it returns `[]` or the route from source to target.
- `Routes` (route.dfy) holds `FastestRoute`. It is the decision part of the route display: run the search, say "no route" when the target is absent or at infinity, otherwise rebuild the route.

Modelling choices:

- **Vertices** are an abstract type compared only for equality. The source's vertex names are strings that it compares for equality, hashes in its maps and sets, and orders only to break ties between queue entries of equal distance. The model drops the hashing and the tie order (see "## Left out").
- **Weights** are exact non-negative reals.
- **Distances** are `Finite(value)` or `Infinite`. As in the source, every registered vertex and the source have an entry.
- **The source's `dist[e.v]` lookup during relaxation** never adds an entry, because `Valid()` guarantees that every edge target is registered and so already has one.
- **Visit order and edge positions:** the search carries two ghost records: the order in which vertices are finalized, and the position in the predecessor's list of each recorded edge. They prove that the predecessor links are acyclic and tight.

## Model

| member | source | states |
|---|---|---|
| `Graphs.Graph.constructor` | main.cpp:43-45 | A new graph has no vertices and satisfies the invariant. |
| `Graphs.Graph.Neighbors` | main.cpp:64-68 | Gives the stored list of a registered vertex and the empty list for an unknown one. Under the invariant, every neighbour it lists is registered. |
| `Graphs.Graph.AddNode` | main.cpp:49-51 | Adds exactly `u` to the vertex set and leaves every edge list unchanged. When `u` was already present the graph is unchanged (idempotence). The invariant is kept. |
| `Graphs.Graph.AddEdge` | main.cpp:55-61 | Fails exactly when `w < 0`, and then leaves the graph untouched. Otherwise it registers both endpoints and appends exactly `(v, w)` to `u`'s list, even for a parallel edge or a self-loop. Every other list is unchanged and the invariant is kept. |
| `Graphs.Graph.Nodes` | main.cpp:71-75 | Lists exactly the registered vertices, each once. |
| `Walks.Extend` | main.cpp:108-109 | Appending an edge out of a walk's end gives a walk. The new walk ends at the edge's target, costs the old cost plus the weight, and passes one more vertex. |
| `Walks.WalkEndsRegistered` | main.cpp:58-60 | In a graph whose edges lead to registered vertices, every walk from `src` ends at `src` or at a registered vertex. |
| `Frontier.LeastExists` | main.cpp:96 | A non-empty frontier has an entry whose key no other entry undercuts. |
| `Frontier.PopMin` | main.cpp:102-103 | Removes one entry of least key and leaves the frontier minus exactly that entry. |
| `ShortestPaths.RelaxedBoundsWalk` | main.cpp:101-116 | With the source at 0 and every edge out of a finite vertex relaxed, every walk from the source ends at a finite vertex whose distance is at most the walk's cost. |
| `ShortestPaths.TreeChain` | main.cpp:110-113 | In a shortest-path tree, the predecessor links from any reached vertex form a chain back to the source. The chain is a walk that costs exactly that vertex's distance. |
| `ShortestPaths.RankedTreeChain` | main.cpp:110-113 | Builds that chain by induction on a rank that falls along the predecessor links. |
| `ShortestPaths.FinalState` | main.cpp:101-117 | Tight, acyclic links plus relaxation complete imply the answer is exact. Distances are the least walk costs, finite exactly for reachable vertices, and the links form a shortest-path tree. |
| `ShortestPaths.Dominates` | main.cpp:87-118 | One exact distance map never exceeds another exact one at any vertex. |
| `ShortestPaths.DistancesUnique` | main.cpp:87-118 | Any two exact distance maps are equal, however ties in the queue were broken. |
| `SearchSteps.InitialState` | main.cpp:90-98 | The initial state satisfies the loop invariant: every vertex at infinity except the source at 0, the single entry `(0, src)`, nothing visited. |
| `SearchSteps.SkipStale` | main.cpp:104 | Dropping a popped entry whose vertex is already visited keeps the invariant. |
| `SearchSteps.Finalize` | main.cpp:101-105 | The least entry of an unvisited vertex carries that vertex's current recorded distance. Marking it visited starts the relaxation loop in a state satisfying its invariant. |
| `SearchSteps.FinalizeFrame` | main.cpp:101-105 | Visiting the least entry's vertex keeps every visited vertex at or below its key, keeps the key below the rest of the frontier, and keeps the other visited vertices relaxed. |
| `SearchSteps.FreshTop` | main.cpp:102-104 | The least entry of an unvisited vertex holds that vertex's current distance. |
| `SearchSteps.PopFresh` | main.cpp:103-105 | After that pop, every reached and unvisited vertex still has an entry holding its distance. |
| `SearchSteps.GrowLinksTight` | main.cpp:105 | Marking more vertices visited keeps every recorded link tight. |
| `SearchSteps.FinalizeOrder` | main.cpp:105 | The vertex visited now comes after the predecessor of every visited vertex. |
| `SearchSteps.RelaxImproves` | main.cpp:109-113 | An improving edge lowers its target's distance, records `u` as the target's parent and pushes a new entry. The relaxation invariant then holds for one more edge. |
| `SearchSteps.RelaxTarget` | main.cpp:110 | The target of an improving edge is neither visited nor the source. So strict `<` never gives the source a parent. |
| `SearchSteps.RelaxFrame` | main.cpp:110-113 | An improvement keeps the distance map's domain, the source at 0, the visited vertices' distances and the frontier bound. |
| `SearchSteps.RelaxPrefix` | main.cpp:108-113 | After edge `i` is processed, the first `i + 1` edges of `u` are relaxed. |
| `SearchSteps.LowerQueueSound` | main.cpp:111-113 | After an improvement, every frontier entry is still at or above its vertex's distance. |
| `SearchSteps.LowerPendingQueued` | main.cpp:111-113 | After an improvement, every pending vertex still has an entry holding its distance. |
| `SearchSteps.LowerLinksTight` | main.cpp:111-112 | The new link along edge `k` of `u` is tight, and so is every other link. |
| `SearchSteps.LowerOrderOk` | main.cpp:112 | Relinking an unvisited vertex keeps the visit order consistent with the links. |
| `SearchSteps.LowerRelaxedOut` | main.cpp:111 | Lowering an unvisited vertex's distance keeps the other visited vertices relaxed. |
| `SearchSteps.RelaxKeeps` | main.cpp:110 | A non-improving edge changes nothing and is itself relaxed. |
| `SearchSteps.FinishVertex` | main.cpp:108-115 | Once all of `u`'s edges are relaxed, the outer loop invariant holds again. |
| `SearchSteps.Finished` | main.cpp:101-117 | With the frontier empty, every edge is relaxed, the distances are exact and finite exactly for reachable vertices, and the links form a shortest-path tree. |
| `Search.Dijkstra` | main.cpp:87-118 | The result covers exactly the registered vertices and the source. `dist[src] = 0` and the source has no parent. Relaxation is complete. Each distance is the least walk cost, finite exactly when a walk reaches the vertex. The parent links form a shortest-path tree of tight edges rooted at the source. |
| `Search.InitialDistances` | main.cpp:90-93 | Every registered vertex is at infinity and the source is at 0, with no other entries. |
| `Search.RelaxEdges` | main.cpp:107-115 | Relaxes all of `u`'s edges in list order, with the strict-`<` test `ShortestPaths.Improves` (an infinite distance is always improved). It takes the relaxation invariant from no edge to every edge. Its effect is stated outright: the distance keys stay the same; every vertex either keeps its distance and its predecessor entry, or drops strictly to `d` plus the weight of some edge from `u` to it and gets `u` as predecessor; the frontier only gains entries, at most one per edge, each `(d + w, v)` for an edge to a lowered `v`. |
| `SearchSteps.EffectStart` | main.cpp:107 | Before any edge is relaxed, nothing has changed. |
| `SearchSteps.EffectImproves` | main.cpp:110-113 | An improving edge lowers its target below its distance before `u`'s edges were relaxed, makes `u` its predecessor and adds one frontier entry for it. |
| `SearchSteps.EffectKeeps` | main.cpp:110 | A non-improving edge changes no distance, predecessor or frontier entry. |
| `Reconstruction.ChainsUnique` | main.cpp:128-131 | Two predecessor chains from the source ending at the same vertex are equal. |
| `Reconstruction.StepBack` | main.cpp:128-130 | Following one link back keeps the walk in step with every chain to the target. |
| `Reconstruction.StuckMeansNoChain` | main.cpp:134 | Stopping at a vertex other than the source that has no predecessor means no chain reaches the target. |
| `Reconstruction.ReversedIsChain` | main.cpp:137-138 | The vertices met walking back, with the source added and the order reversed, form a chain ending at the target. |
| `Reconstruction.ReconstructPath` | main.cpp:123-140 | Gives `[src]` when the target is the source. Gives `[]` exactly when no predecessor chain leads from the source to the target. Otherwise gives a chain that starts at the source, ends at the target, and has `parent[b] = a` for each consecutive pair. |
| `Routes.FastestRoute` | main.cpp:150-159 | Says "no route" exactly when no walk leads from the source to the target. Otherwise gives the stops of an actual walk to the target and its cost, which no walk undercuts. Source equal to target gives `[src]` at cost 0. |
| `Routes.UnknownUnreachable` | main.cpp:153 | A target that is neither registered nor the source is unreachable. So "absent from the distance map" correctly means "no route". |

## Left out

- Input parsing, the count header and `main` (main.cpp:173-202) are console I/O. The printing in `showRoute` (arrows, `setprecision(2)`) is output formatting. Only its reachability test and route rebuild are modelled, as `Routes.FastestRoute`.
- IEEE `double` arithmetic is not modelled. Weights are exact non-negative reals and infinity is an explicit `Infinite` value. So rounding, overflow to infinity and NaN weights are outside the model: `NaN < 0` is false, so the source accepts a NaN weight.
- Vertex names are not modelled as strings, nor is the integer-to-string conversion of ids. Vertices are an abstract type with equality.
- Heap and hash-table internals are not modelled. The frontier is a multiset and the maps and sets are Dafny maps and sets.
- Frontier.PopMin: may return any least entry. The source's queue breaks ties by comparing vertex names. No property proved here depends on tie order (`ShortestPaths.DistancesUnique`).
- Graphs.Graph.Nodes: promises no order, since iteration order over the hash map is unspecified.
- Reconstruction.ReconstructPath: requires the predecessor map to be acyclic away from the source. On a cyclic map the source's loop never ends. Maps produced by `Search.Dijkstra` always meet this (`ShortestPaths.ParentTree`).
- The in-place `reverse` of the route is modelled as building the reversed sequence, so the model has no aliasing to track.
- The function-local static empty vector returned by `neighbors` and the lifetimes of const references are C++ memory details. `Neighbors` returns an empty sequence instead.
