# Improved Dijkstra, modelled and verified in Dafny

This project models the single-source shortest-path engine of
`ImprovedDijkstra` and the `Graph` store it reads:

- **The graph store.** A directed, weighted graph kept as one adjacency list
  per vertex (`Graph`: constructor, `addEdge`, `getVertices`,
  `getAdjList`, and the edge record `Node`).
- **The engine.** `shortestPath` is Dijkstra with lazy deletion. It owns:
  - a `dist` array and a `finalized` array;
  - a priority queue of `DistanceNode(vertex, distance)` entries, ordered by
    distance;
  - a `relaxSteps` counter.

  It polls a least entry, skips it when the vertex is already finalized, and
  otherwise finalizes the vertex and relaxes its outgoing edges. After every
  k-th finalization, when the queue is not empty, it calls `shrinkFrontier`.
  Here k = max(2, round(log2(V + 1))).
- **The frontier reduction.** `shrinkFrontier`:
  1. finds the least queued distance;
  2. collects the set U of live vertices below that distance plus a window
     of 10;
  3. skips the step when U is empty or larger than k times the queue;
  4. runs up to k Bellman-Ford rounds over U, stopping early after a round
     with no change;
  5. rebuilds the queue from U alone.

The model is in six modules:

| file | module | what it holds |
|---|---|---|
| `graph.dfy` | `GraphStore` | The `Graph` class with its fields `vertices` and `adjList`. The contracts of its methods state what the Java methods do. |
| `paths.dfy` | `Paths` | What a path from the source is, and its weight. This is the meaning the distances are checked against. |
| `search.dfy` | `Search` | A functional model of one run: the state (`dist`, `finalized`, queue, `relaxSteps`), each Java loop as a function over its range, the reduction, one iteration of the main loop, the traces of complete runs, and the safety properties. |
| `dijkstra.dfy` | `ImprovedDijkstra` | The engine as imperative code: `dist` and `finalized` are arrays, the queue is a `MinQueue` object, and each Java loop is a `while` loop. Every method is proved to compute exactly the functions of `Search`. `ShortestPath` returns the trace of its run as a ghost result. |
| `optimality.dfy` | `Optimality` | Exact shortest distances for the corrected reduction (see Findings). |
| `counterexample.dfy` | `Counterexample` | A six-vertex graph on which the code as written returns MAX_VALUE for a reachable vertex. |

`Rebuild` selects the queue rebuild of the reduction:
- `FromU` is the code as written, and the imperative engine uses it.
- `FromLive` is the corrected rebuild of the finding.

What is proved about the code as written:
- The result has one entry per vertex, and `dist[source]` is 0.
- Every entry is at most MAX_VALUE.
- Every finite entry is the weight of a real path from the source.
- Along a run, distances only decrease, finalization is permanent, and the
  distance of a finalized vertex is never written again.
- Every iteration either finalizes one more vertex or shortens the queue,
  so the main loop terminates.
- The reduction never sets a flag. It returns early exactly in the four
  cases the code checks. Its rebuilt queue holds exactly one entry
  `(u, dist[u])` for each live vertex u of U, in the order of U.
- Stopping the rounds at the first unchanged round gives the same distances
  as running all k rounds.

The code does not fulfil the documented promise of exact shortest
distances. With the corrected rebuild it does, for non-negative weights.

## Model

The two record classes of the Java code are datatypes:
- `GraphStore.Node(vertex, weight)` models `Node` at src/dijkstra/improved/Graph.java:31-39.
- `Search.DistanceNode(vertex, distance)` models `DistanceNode` at src/dijkstra/improved/ImprovedDijkstra.java:41-54. Its ordering is `Search.CompareTo`.
- `Search.State(dist, finalized, pq, relaxSteps)` is the working state of `shortestPath` at src/dijkstra/improved/ImprovedDijkstra.java:91-102.

| member | source | states |
|---|---|---|
| GraphStore.Graph.constructor | src/dijkstra/improved/Graph.java:55-61 | the graph keeps the given vertex count and has one empty adjacency list per vertex (none when the count is negative, as the loop then never runs) |
| GraphStore.Graph.AddEdge | src/dijkstra/improved/Graph.java:75-77 | u's list grows by exactly one, with its old entries first and `Node(v, weight)` last; every other list and the vertex count are unchanged; if every edge led to a vertex before and v is a vertex, every edge still does |
| GraphStore.Graph.GetVertices | src/dijkstra/improved/Graph.java:88-90 | returns the count given to the constructor, which for a non-negative count is the number of adjacency lists |
| GraphStore.Graph.GetAdjList | src/dijkstra/improved/Graph.java:102-104 | returns the stored lists themselves, one per vertex, reflecting every edge added |
| Paths.SourcePath | src/dijkstra/improved/ImprovedDijkstra.java:95 | the source reaches itself by the empty path of weight 0, which gives `dist[source] = 0` its meaning |
| Paths.ExtendPath | src/dijkstra/improved/ImprovedDijkstra.java:123 | a path to u of weight w followed by an edge u -> v of weight x is a path to v of weight w + x, which gives `dist[u] + weight` its meaning |
| Search.IsMinAt | src/dijkstra/improved/ImprovedDijkstra.java:105 | entry i may be returned by `poll` exactly when it is in the queue and its distance is at most every entry's distance |
| Search.RemoveAt | src/dijkstra/improved/ImprovedDijkstra.java:105 | the queue without the polled entry: one entry shorter, with the entries before it in place and those after it moved down by one |
| Search.Popped | src/dijkstra/improved/ImprovedDijkstra.java:105 | `poll` leaves `dist`, `finalized` and the counter unchanged and shortens the queue by one; `RemoveAtMultiset` states which entry leaves |
| Search.Initial | src/dijkstra/improved/ImprovedDijkstra.java:91-102 | the state before the loop has one distance and one unset flag per vertex, a zero counter, only `(source, 0)` queued, `dist[source] = 0`, and MAX_VALUE for every other vertex |
| Search.CompareTo | src/dijkstra/improved/ImprovedDijkstra.java:50-53 | the result lies in -1..1, is negative exactly when this distance is smaller and zero exactly when the distances are equal (`Integer.compare`) |
| Search.MinExists | src/dijkstra/improved/ImprovedDijkstra.java:105 | a non-empty queue has an entry no greater than any other, so `poll` always has an entry to return |
| Search.RemoveAtMultiset | src/dijkstra/improved/ImprovedDijkstra.java:105 | polling takes exactly one copy of the polled entry out of the queue and leaves every other entry in it |
| Search.RelaxedOut | src/dijkstra/improved/ImprovedDijkstra.java:116-126 | relaxing u's edges changes no finalized flag and not the counter, never raises a distance, never changes the distance of a finalized vertex, and queues only vertices of the graph |
| Search.RelaxedOutQueues | src/dijkstra/improved/ImprovedDijkstra.java:116-126 | relaxation only appends to the queue, and every vertex whose distance it lowered has an entry at its new distance |
| Search.MinDistance | src/dijkstra/improved/ImprovedDijkstra.java:177-182 | the scanned minimum is at most MAX_VALUE and at most every entry's distance; when finite, some entry has it |
| Search.Candidates | src/dijkstra/improved/ImprovedDijkstra.java:197-202 | U holds only vertex numbers below the vertex count |
| Search.CandidatesExact | src/dijkstra/improved/ImprovedDijkstra.java:196-202 | U is strictly increasing and a vertex is in U exactly when it is not finalized, its distance is finite and below the bound B |
| Search.PassEdges | src/dijkstra/improved/ImprovedDijkstra.java:219-227 | relaxing the first j edges out of u in a Bellman-Ford round keeps one distance per vertex; what it changes is stated by `PassEdgesDescends`, `PassEdgesChanged` and `PassEdgesSound` |
| Search.PassEdgesDescends | src/dijkstra/improved/ImprovedDijkstra.java:219-227 | the Bellman-Ford pass over u's edges never raises a distance and never changes a finalized vertex's distance |
| Search.PassEdgesChanged | src/dijkstra/improved/ImprovedDijkstra.java:219-227 | the pass sets `changed` exactly when some distance changed |
| Search.Round | src/dijkstra/improved/ImprovedDijkstra.java:212-228 | one round over the first x vertices of U, skipping those at MAX_VALUE, keeps one distance per vertex; what it changes is stated by `RoundDescends`, `RoundChanged` and `RoundSound` |
| Search.RoundDescends | src/dijkstra/improved/ImprovedDijkstra.java:214-228 | one round over U never raises a distance and never changes a finalized vertex's distance |
| Search.RoundChanged | src/dijkstra/improved/ImprovedDijkstra.java:212-228 | a round ends with `changed` exactly when it changed some distance |
| Search.Rounds | src/dijkstra/improved/ImprovedDijkstra.java:211-234 | the at most k rounds, stopping after one that changes nothing, keep one distance per vertex; what they change is stated by `RoundsDescends`, `RoundsSound` and `EarlyExitExact` |
| Search.RoundsDescends | src/dijkstra/improved/ImprovedDijkstra.java:211-234 | the at most k rounds together never raise a distance and never change a finalized vertex's distance |
| Search.EarlyExitExact | src/dijkstra/improved/ImprovedDijkstra.java:211-234 | stopping after the first round that changes nothing gives the same distances as running all k rounds |
| Search.Rebuilt | src/dijkstra/improved/ImprovedDijkstra.java:237-242 | the queue rebuilt from the first n vertices of U names only vertices of the graph; which entries it holds is stated by `RebuiltEntries`, `RebuiltCovers` and `RebuiltSorted` |
| Search.RebuiltEntries | src/dijkstra/improved/ImprovedDijkstra.java:237-242 | every entry of the rebuilt queue is a vertex of U that is not finalized, with a finite distance, queued at exactly that distance |
| Search.RebuiltCovers | src/dijkstra/improved/ImprovedDijkstra.java:237-242 | every vertex of U that is not finalized and has a finite distance gets an entry at its distance |
| Search.RebuiltSorted | src/dijkstra/improved/ImprovedDijkstra.java:238-242 | when U is increasing, the rebuilt entries follow it in strictly increasing vertex order |
| Search.ReductionSet | src/dijkstra/improved/ImprovedDijkstra.java:172-208 | the reduction goes ahead only with a non-empty queue and a non-empty U of vertices of the graph with at most k times the queue size elements |
| Search.ReductionSetMembers | src/dijkstra/improved/ImprovedDijkstra.java:176-202 | when it goes ahead, the least queued distance is finite and U holds, in increasing order, exactly the live vertices below that distance plus the window |
| Search.Reduced | src/dijkstra/improved/ImprovedDijkstra.java:165-243 | the reduction sets no finalized flag, leaves the counter, never raises a distance, never changes a finalized vertex's distance, and queues only vertices of the graph |
| Search.ReducedIgnoresSteps | src/dijkstra/improved/ImprovedDijkstra.java:165-170 | the reduction neither reads nor changes `relaxSteps`, which is not one of its arguments |
| Search.Settled | src/dijkstra/improved/ImprovedDijkstra.java:113-128 | settling u sets exactly u's flag, adds one to the counter, and lowers only distances of vertices left unfinalized |
| Search.Iteration | src/dijkstra/improved/ImprovedDijkstra.java:104-134 | one pass sets the polled vertex's flag (already set when stale), adds one to the counter exactly when the vertex was new, and lowers only unfinalized distances |
| Search.CountFinalizedMark | src/dijkstra/improved/ImprovedDijkstra.java:113-128 | finalizing a new vertex adds exactly one to the number of finalized vertices, which `relaxSteps` counts |
| Search.SoundAfterUpdate | src/dijkstra/improved/ImprovedDijkstra.java:123 | `dist[v] := dist[u] + weight` along an edge keeps every finite distance the weight of a real path |
| Search.RelaxedOutSound | src/dijkstra/improved/ImprovedDijkstra.java:116-126 | relaxation in the main loop keeps every finite distance the weight of a real path |
| Search.PassEdgesSound | src/dijkstra/improved/ImprovedDijkstra.java:219-227 | the Bellman-Ford pass over u's edges keeps every finite distance the weight of a real path |
| Search.RoundSound | src/dijkstra/improved/ImprovedDijkstra.java:214-228 | a round keeps every finite distance the weight of a real path |
| Search.RoundsSound | src/dijkstra/improved/ImprovedDijkstra.java:211-234 | all rounds keep every finite distance the weight of a real path |
| Search.ReducedSound | src/dijkstra/improved/ImprovedDijkstra.java:165-243 | the reduction keeps every finite distance the weight of a real path |
| Search.InitialInv | src/dijkstra/improved/ImprovedDijkstra.java:91-102 | the initial state has `dist[source] = 0`, every other distance MAX_VALUE, no flag set, only `(source, 0)` queued and a zero counter, and satisfies the loop invariant |
| Search.IterationSafe | src/dijkstra/improved/ImprovedDijkstra.java:104-134 | one pass keeps the loop invariant, keeps every flag, lowers only unfinalized distances, keeps the counter at most V, and either counts one more finalized vertex or shortens the queue by one |
| Search.SettledSafe | src/dijkstra/improved/ImprovedDijkstra.java:113-128 | settling a new vertex keeps the loop invariant with the counter at most V |
| Search.TraceInv | src/dijkstra/improved/ImprovedDijkstra.java:104-134 | every state along a run satisfies the loop invariant |
| Search.StepDescends | src/dijkstra/improved/ImprovedDijkstra.java:104-134 | a step keeps every flag and changes no finalized vertex's distance |
| Search.TraceDescends | src/dijkstra/improved/ImprovedDijkstra.java:109-133 | between any two states of a run, distances only decrease, finalized flags stay set and a finalized vertex's distance is never written again |
| Search.RunSound | src/dijkstra/improved/ImprovedDijkstra.java:87-137 | the result of a complete run has one entry per vertex, `dist[source] = 0`, every entry at most MAX_VALUE, and every finite entry the weight of a real path |
| Search.CoveredBeforeReduction | src/dijkstra/improved/ImprovedDijkstra.java:104-128 | discarding a stale entry and settling a vertex both keep every live vertex queued at its current distance |
| Search.CorrectedReductionKeepsCovered | src/dijkstra/improved/ImprovedDijkstra.java:236-242 | with the corrected rebuild, the reduction keeps every live vertex queued at its current distance |
| ImprovedDijkstra.MinQueue.constructor | src/dijkstra/improved/ImprovedDijkstra.java:97 | a new queue is empty |
| ImprovedDijkstra.MinQueue.IsEmpty | src/dijkstra/improved/ImprovedDijkstra.java:104 | true exactly when the queue holds no entry |
| ImprovedDijkstra.MinQueue.Size | src/dijkstra/improved/ImprovedDijkstra.java:205 | the number of entries held |
| ImprovedDijkstra.MinQueue.Offer | src/dijkstra/improved/ImprovedDijkstra.java:124 | adds exactly the given entry |
| ImprovedDijkstra.MinQueue.Poll | src/dijkstra/improved/ImprovedDijkstra.java:105 | removes and returns an entry no greater than any other |
| ImprovedDijkstra.MinQueue.Clear | src/dijkstra/improved/ImprovedDijkstra.java:237 | the queue becomes empty |
| ImprovedDijkstra.Log2Floor | src/dijkstra/improved/ImprovedDijkstra.java:101 | 2^l <= n < 2^(l+1) |
| ImprovedDijkstra.RoundLog2 | src/dijkstra/improved/ImprovedDijkstra.java:101 | r is log2 n rounded half up, as `Math.round` does, stated without fractions: 2^(2r) <= 2n^2 and n^2 < 2^(2r+1) |
| ImprovedDijkstra.FrontierK | src/dijkstra/improved/ImprovedDijkstra.java:101 | k is the larger of 2 and round(log2(V + 1)) |
| ImprovedDijkstra.ShrinkFrontier | src/dijkstra/improved/ImprovedDijkstra.java:165-243 | the new `dist` array and queue are exactly those of the as-written reduction on the old ones; `finalized` is not written |
| ImprovedDijkstra.LeastQueued | src/dijkstra/improved/ImprovedDijkstra.java:177-182 | returns exactly the scanned minimum of the queued distances |
| ImprovedDijkstra.CollectCandidates | src/dijkstra/improved/ImprovedDijkstra.java:196-202 | returns exactly the candidate list U for the bound B |
| ImprovedDijkstra.RelaxRounds | src/dijkstra/improved/ImprovedDijkstra.java:211-234 | the `dist` array ends as the at most k rounds with early exit leave it |
| ImprovedDijkstra.RelaxRound | src/dijkstra/improved/ImprovedDijkstra.java:212-228 | the array and the `changed` flag end as one round over U leaves them, skipping vertices at MAX_VALUE |
| ImprovedDijkstra.RelaxEdgesOf | src/dijkstra/improved/ImprovedDijkstra.java:219-227 | the array and the `changed` flag end as the pass over u's edges leaves them |
| ImprovedDijkstra.RebuildQueue | src/dijkstra/improved/ImprovedDijkstra.java:237-242 | the queue ends holding exactly the rebuilt entries for U, in U's order |
| ImprovedDijkstra.RelaxNeighbors | src/dijkstra/improved/ImprovedDijkstra.java:116-126 | the array and queue end as relaxing u's edges in the main loop leaves them |
| ImprovedDijkstra.Iterate | src/dijkstra/improved/ImprovedDijkstra.java:105-133 | one pass of the loop polls a least entry, and the arrays, queue and counter end exactly as one iteration from that entry leaves them |
| ImprovedDijkstra.ShortestPath | src/dijkstra/improved/ImprovedDijkstra.java:87-137 | the method terminates with a complete run of the loop, and its result has one entry per vertex, `dist[source] = 0`, every entry at most MAX_VALUE, and every finite entry the weight of a real path |
| Optimality.FrontierOnPath | src/dijkstra/improved/ImprovedDijkstra.java:104-128 | under the corrected invariant, a path lighter than MAX_VALUE ends at a finalized vertex or passes through an unfinalized vertex whose distance is at most the path's weight |
| Optimality.QueuedOnPath | src/dijkstra/improved/ImprovedDijkstra.java:104-128 | under the corrected invariant, such a path to an unfinalized vertex means some queue entry is at most its weight |
| Optimality.PolledIsShortest | src/dijkstra/improved/ImprovedDijkstra.java:105-113 | the vertex of a least entry, when not finalized, has a distance at most every path's weight |
| Optimality.InitialOpt | src/dijkstra/improved/ImprovedDijkstra.java:91-102 | the initial state satisfies the corrected invariant |
| Optimality.PoppedAbove | src/dijkstra/improved/ImprovedDijkstra.java:105 | polling keeps every remaining entry at or above its vertex's distance |
| Optimality.RelaxedOutAbove | src/dijkstra/improved/ImprovedDijkstra.java:116-126 | relaxation keeps every entry at or above its vertex's distance |
| Optimality.RelaxedOutRelaxes | src/dijkstra/improved/ImprovedDijkstra.java:116-126 | after relaxing a finalized u with finite distance, each edge u -> v with v unfinalized has `dist[v] <= dist[u] + weight` |
| Optimality.LoweredKeepsOptimal | src/dijkstra/improved/ImprovedDijkstra.java:211-234 | lowering only unfinalized distances keeps finalized distances shortest and finalized edges relaxed |
| Optimality.SettledOptimal | src/dijkstra/improved/ImprovedDijkstra.java:113-128 | settling the vertex of a least entry keeps coverage, entries above distances, finalized distances shortest and finalized edges relaxed |
| Optimality.ReducedOptimal | src/dijkstra/improved/ImprovedDijkstra.java:165-243 | the corrected reduction keeps the same four properties |
| Optimality.IterationOptimal | src/dijkstra/improved/ImprovedDijkstra.java:104-134 | one pass with the corrected reduction keeps the corrected invariant |
| Optimality.TraceOptimal | src/dijkstra/improved/ImprovedDijkstra.java:104-134 | every state of a corrected run satisfies the corrected invariant |
| Optimality.CorrectedRunExists | src/dijkstra/improved/ImprovedDijkstra.java:104-134 | for every graph whose edges lead to vertices, every source and every k >= 1, the main loop with the corrected rebuild terminates with a complete run, so the optimality lemma is not vacuous |
| Optimality.CorrectedRunShortest | src/dijkstra/improved/ImprovedDijkstra.java:81-85 | with non-negative weights, a complete corrected run ends with `dist[source] = 0`, every finite entry the weight of a real path, and every entry at most the weight of every path lighter than MAX_VALUE: exact shortest distances |
| Counterexample.FrontierKOfExample | src/dijkstra/improved/ImprovedDijkstra.java:101 | for six vertices k = round(log2 7) = 3 |
| Counterexample.OnlyStep | src/dijkstra/improved/ImprovedDijkstra.java:104-134 | on the example, each of the first four states of the run has exactly one successor, whichever least entry is polled: the next listed state |
| Counterexample.TraceFollowsExpected | src/dijkstra/improved/ImprovedDijkstra.java:104-134 | every partial run on the example from vertex 0 has at most five states, and they are the listed ones |
| Counterexample.ReachableAtSeven | src/dijkstra/improved/ImprovedDijkstra.java:81-85 | the path 0 -> 3 -> 4 -> 5 of the example reaches vertex 5 with weight 7 |
| Counterexample.ExampleReductionSet | src/dijkstra/improved/ImprovedDijkstra.java:176-208 | after the third settlement the reduction goes ahead with U = [3] |
| Counterexample.ExampleRounds | src/dijkstra/improved/ImprovedDijkstra.java:211-234 | the at most three rounds over U = [3] lower dist[4] to 6 through vertex 3 and change nothing else |
| Counterexample.AsWrittenReduction | src/dijkstra/improved/ImprovedDijkstra.java:236-242 | the rebuilt queue holds only (3, 5), although dist[4] = 6 is live |
| Counterexample.AsWrittenReductionDropsVertex | src/dijkstra/improved/ImprovedDijkstra.java:236-242 | every live vertex is queued before that reduction and not after it |
| Counterexample.CorrectedReductionKeepsVertex | src/dijkstra/improved/ImprovedDijkstra.java:236-242 | the corrected reduction on the same state queues vertex 4 at distance 6 |
| Counterexample.EveryRunMissesVertexFive | src/dijkstra/improved/ImprovedDijkstra.java:87-137 | every complete run on the example from vertex 0 ends with `dist[5]` = MAX_VALUE |
| Counterexample.AsWrittenNotShortest | src/dijkstra/improved/ImprovedDijkstra.java:81-85 | the example has non-negative weights and in-range edges, yet the as-written result for vertex 5 exceeds the weight of a real path |
| Counterexample.RunExample | src/dijkstra/improved/ImprovedDijkstra.java:87-137 | building the example with `Graph` and `addEdge` and calling `ShortestPath` from 0 returns MAX_VALUE for vertex 5, which a path of weight 7 reaches |

## Left out

- src/dijkstra/improved/Main.java is not part of this model. It is a demo driver that builds a fixed graph and prints the result.
- The floating-point computation of k is replaced by the exact integer rounding `RoundLog2`. For every V + 1 up to 2^31, log2(V + 1) is at least 1.1e-11 away from the nearest half-integer. The closest case is V + 1 = 759250125. This margin is far larger than the rounding error of `Math.log(V + 1) / Math.log(2)` in double precision, so `Math.round` picks the same integer as the exact rounding.
- The heap layout of `java.util.PriorityQueue` is not modelled. The queue is a sequence of entries.
- ImprovedDijkstra.MinQueue.Poll: returns some least entry. It does not fix which one the heap returns among equal distances, so every run is allowed and every property is proved for all of them.
- Java `int` overflow is not modelled. Integers are unbounded, and MAX_VALUE = 0x7fff_ffff is only the sentinel. This applies to `dist[u] + weight` at lines 121, 123 and 223-224, `minFrontierDist + 10` at line 191, and `k * frontierSize` at line 206.
- Optimality.CorrectedRunShortest: bounds the result only by paths lighter than MAX_VALUE. A heavier path would overflow `int` in the Java code.
- The window 10 of line 191 is a parameter of the reduction. `ShortestPath` passes the constant `WINDOW = 10`.
- ImprovedDijkstra.ShortestPath: requires every edge of the graph to lead to a vertex of the graph. The Java code fails with an index exception only when it reaches such an edge.
- ImprovedDijkstra.ShortestPath: requires the source to be a vertex, because the Java code throws at line 95 otherwise. Exceptions are not modelled.
- ImprovedDijkstra.ShortestPath: does not promise shortest distances, because the code as written does not deliver them (see Findings).
- GraphStore.Graph.AddEdge: requires `weight >= 0` and `0 <= u < vertices`. Lines 67-70 document the weight as non-negative but never check it, and the list lookup fails for any other u.
- Neither `Graph` nor the engine rejects a negative vertex count or a negative weight with an error. The model follows the code: a negative count gives a graph with no lists.
- GraphStore.Graph.GetAdjList: returns the adjacency lists as a value. The Java method returns the live lists, but the engine only reads them, so the aliasing is not modelled.

## Findings

| source | as written | input that shows it | evidently intended | confidence | as-written member | corrected member |
|---|---|---|---|---|---|---|
| src/dijkstra/improved/ImprovedDijkstra.java:236-242 | After the Bellman-Ford rounds the queue is rebuilt from U alone. A vertex outside U that a round lowered, or that was queued before, loses its entry. It is never finalized, so its out-edges are never relaxed and the result is not the documented shortest distance (lines 81-85). | Edges 0->1 (1), 0->2 (2), 0->3 (5), 3->4 (1), 4->5 (1), with V = 6, so k = 3, and source 0. After the third settlement the reduction has U = [3]. It lowers dist[4] to 6 but queues only (3, 5). The result has dist[5] = MAX_VALUE, although 0->3->4->5 weighs 7. | The rebuild queues every live vertex (not finalized, finite distance) at its distance. The result is then exactly the shortest distances for non-negative weights. | high: proved for every run and tie order; not executed | Counterexample.AsWrittenNotShortest | Optimality.CorrectedRunShortest |
