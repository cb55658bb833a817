/**
 * Shortest distances for the corrected run. When the reduction queues
 * every live vertex again (Rebuild.FromLive) and no edge weight is
 * negative, a complete run ends with dist[v] at most the weight of every
 * path from the source to v. Together with soundness (every finite
 * distance is the weight of a real path) this is the exact-distance
 * promise of the doc comment of shortestPath
 * (src/dijkstra/improved/ImprovedDijkstra.java:81-85), which the code as
 * written breaks (module Counterexample).
 */
module Optimality {
  import opened GraphStore
  import opened Paths
  import opened Search

  /** No edge has a negative weight, as Graph.addEdge documents. */
  ghost predicate NonNegative(adj: Adjacency) {
    forall u, i :: 0 <= u < |adj| && 0 <= i < |adj[u]| ==> adj[u][i].weight >= 0
  }

  /** `x` is at most the weight of every path from `source` to `v` lighter than the sentinel. */
  ghost predicate AtMostPaths(adj: Adjacency, source: int, v: int, x: int) {
    forall p :: IsPath(adj, source, v, p) && Weight(adj, p) < INF ==> x <= Weight(adj, p)
  }

  /** No queue entry is below the current distance of its vertex. */
  ghost predicate EntriesAbove(s: State) {
    forall j :: 0 <= j < |s.pq| && 0 <= s.pq[j].vertex < |s.dist| ==>
      s.dist[s.pq[j].vertex] <= s.pq[j].distance
  }

  /** Every finalized vertex already holds a shortest distance. */
  ghost predicate FinalOptimal(adj: Adjacency, source: int, s: State) {
    forall v :: 0 <= v < |s.dist| && v < |s.finalized| && s.finalized[v] ==>
      AtMostPaths(adj, source, v, s.dist[v])
  }

  /**
   * Every edge u -> v out of a finalized vertex with a finite distance has
   * been relaxed, unless v is finalized too: dist[v] <= dist[u] + w.
   */
  ghost predicate EdgesRelaxed(adj: Adjacency, d: seq<int>, fin: seq<bool>) {
    forall u, i :: 0 <= u < |adj| && 0 <= i < |adj[u]| ==> Relaxed(adj, d, fin, u, i)
  }

  ghost predicate Relaxed(adj: Adjacency, d: seq<int>, fin: seq<bool>, u: int, i: int)
    requires 0 <= u < |adj| && 0 <= i < |adj[u]|
  {
    var v := adj[u][i].vertex;
    u < |d| && u < |fin| && fin[u] && d[u] < INF && 0 <= v < |d| && v < |fin| && !fin[v] ==>
      d[v] <= d[u] + adj[u][i].weight
  }

  /** What holds at the top of the corrected main loop, beyond the safety invariant. */
  ghost predicate OptInv(adj: Adjacency, source: int, s: State) {
    && Inv(adj, source, s)
    && Covered(s) && EntriesAbove(s)
    && FinalOptimal(adj, source, s) && EdgesRelaxed(adj, s.dist, s.finalized)
  }

  // ---------------------------------------------------------------------
  // The frontier argument
  // ---------------------------------------------------------------------

  /**
   * A path lighter than the sentinel either ends at a finalized vertex or
   * passes through a vertex that is not finalized and whose distance is at
   * most the path's weight: the first such vertex along the path.
   */
  lemma {:induction false} FrontierOnPath(adj: Adjacency, source: int, s: State, t: int, p: seq<Hop>)
    requires Closed(adj) && NonNegative(adj) && Shaped(adj, s) && 0 <= source < |adj| && s.dist[source] == 0
    requires FinalOptimal(adj, source, s) && EdgesRelaxed(adj, s.dist, s.finalized)
    requires IsPath(adj, source, t, p) && Weight(adj, p) < INF && 0 <= t < |adj|
    ensures s.finalized[t] || exists x :: 0 <= x < |adj| && !s.finalized[x] && s.dist[x] <= Weight(adj, p)
    decreases |p|
  {
    if s.finalized[t] {
    } else if |p| == 0 {
      assert !s.finalized[source] && s.dist[source] <= Weight(adj, p);
    } else {
      var h := p[|p| - 1];
      var q := p[..|p| - 1];
      var w := adj[h.from][h.index].weight;
      assert Weight(adj, p) == Weight(adj, q) + w && w >= 0;
      if s.finalized[h.from] {
        assert AtMostPaths(adj, source, h.from, s.dist[h.from]);
        assert Relaxed(adj, s.dist, s.finalized, h.from, h.index);
        assert !s.finalized[t] && s.dist[t] <= Weight(adj, p);
      } else {
        FrontierOnPath(adj, source, s, h.from, q);
        var x :| 0 <= x < |adj| && !s.finalized[x] && s.dist[x] <= Weight(adj, q);
        assert s.dist[x] <= Weight(adj, p);
      }
    }
  }

  /**
   * Under the invariant, a path lighter than the sentinel to a vertex that
   * is not finalized means some queue entry is at most the path's weight.
   */
  lemma QueuedOnPath(adj: Adjacency, source: int, s: State, t: int, p: seq<Hop>)
    requires NonNegative(adj) && OptInv(adj, source, s)
    requires IsPath(adj, source, t, p) && Weight(adj, p) < INF && 0 <= t < |adj| && !s.finalized[t]
    ensures exists j :: 0 <= j < |s.pq| && s.pq[j].distance <= Weight(adj, p)
  {
    FrontierOnPath(adj, source, s, t, p);
    var x :| 0 <= x < |adj| && !s.finalized[x] && s.dist[x] <= Weight(adj, p);
    assert DistanceNode(x, s.dist[x]) in s.pq;
    var j :| 0 <= j < |s.pq| && s.pq[j] == DistanceNode(x, s.dist[x]);
  }

  /** The vertex of a least entry that is not finalized has a shortest distance. */
  lemma PolledIsShortest(adj: Adjacency, source: int, s: State, i: int)
    requires NonNegative(adj) && OptInv(adj, source, s) && IsMinAt(s.pq, i)
    requires !s.finalized[s.pq[i].vertex]
    ensures AtMostPaths(adj, source, s.pq[i].vertex, s.dist[s.pq[i].vertex])
  {
    var u := s.pq[i].vertex;
    forall p | IsPath(adj, source, u, p) && Weight(adj, p) < INF
      ensures s.dist[u] <= Weight(adj, p)
    {
      QueuedOnPath(adj, source, s, u, p);
      var j :| 0 <= j < |s.pq| && s.pq[j].distance <= Weight(adj, p);
      assert CompareTo(s.pq[i], s.pq[j]) <= 0;
    }
  }

  // ---------------------------------------------------------------------
  // The main loop keeps the invariant
  // ---------------------------------------------------------------------

  lemma InitialOpt(adj: Adjacency, source: int)
    requires Closed(adj) && 0 <= source < |adj|
    ensures OptInv(adj, source, Initial(|adj|, source))
  {
    var s := Initial(|adj|, source);
    InitialInv(adj, source);
    forall v | 0 <= v < |s.dist| && !s.finalized[v] && s.dist[v] < INF
      ensures DistanceNode(v, s.dist[v]) in s.pq
    {
      assert v == source;
    }
  }

  /** Taking an entry out of the queue keeps every other entry above its vertex's distance. */
  lemma PoppedAbove(s: State, i: int)
    requires 0 <= i < |s.pq| && EntriesAbove(s)
    ensures EntriesAbove(Popped(s, i))
  {
  }

  /**
   * Relaxing the edges of u keeps every entry above its vertex's distance:
   * old entries only see distances fall, new ones are queued at the new
   * distance.
   */
  lemma {:induction false} RelaxedOutAbove(adj: Adjacency, u: int, s: State, j: int)
    requires Closed(adj) && Shaped(adj, s) && 0 <= u < |adj| && 0 <= j <= |adj[u]| && EntriesAbove(s)
    ensures EntriesAbove(RelaxedOut(adj, u, s, j))
    decreases j
  {
    if j > 0 {
      RelaxedOutAbove(adj, u, s, j - 1);
      var t := RelaxedOut(adj, u, s, j - 1);
      var r := RelaxedOut(adj, u, s, j);
      var e := adj[u][j - 1];
      if !t.finalized[e.vertex] && t.dist[u] != INF && t.dist[u] + e.weight < t.dist[e.vertex] {
        forall m | 0 <= m < |r.pq|
          ensures r.dist[r.pq[m].vertex] <= r.pq[m].distance
        {
          if m < |t.pq| {
            assert r.pq[m] == t.pq[m];
          }
        }
      }
    }
  }

  /** The first j edges of u are relaxed: each target not finalized is at most dist[u] + w. */
  ghost predicate RelaxedUpTo(adj: Adjacency, d: seq<int>, fin: seq<bool>, u: int, j: int)
    requires 0 <= u < |adj| && 0 <= j <= |adj[u]|
  {
    forall i :: 0 <= i < j ==> Relaxed(adj, d, fin, u, i)
  }

  /** Relaxing the edges of a finalized u leaves every one of them relaxed. */
  lemma {:induction false} RelaxedOutRelaxes(adj: Adjacency, u: int, s: State, j: int)
    requires Closed(adj) && Shaped(adj, s) && 0 <= u < |adj| && 0 <= j <= |adj[u]| && s.finalized[u]
    ensures var r := RelaxedOut(adj, u, s, j);
      RelaxedUpTo(adj, r.dist, r.finalized, u, j)
    decreases j
  {
    if j > 0 {
      RelaxedOutRelaxes(adj, u, s, j - 1);
      var t := RelaxedOut(adj, u, s, j - 1);
      var r := RelaxedOut(adj, u, s, j);
      var e := adj[u][j - 1];
      assert r.dist[u] == t.dist[u];
      forall i | 0 <= i < j
        ensures Relaxed(adj, r.dist, r.finalized, u, i)
      {
        if i < j - 1 {
          assert Relaxed(adj, t.dist, t.finalized, u, i);
        }
      }
    }
  }

  /**
   * Lowering distances of unflagged vertices keeps the finalized bounds and
   * the relaxed edges of a state with the same flags.
   */
  lemma LoweredKeepsOptimal(adj: Adjacency, source: int, s: State, r: State)
    requires Shaped(adj, s) && r.finalized == s.finalized && Descends(s.finalized, s.dist, r.dist)
    requires FinalOptimal(adj, source, s) && EdgesRelaxed(adj, s.dist, s.finalized)
    ensures FinalOptimal(adj, source, r) && EdgesRelaxed(adj, r.dist, r.finalized)
  {
    forall u, i | 0 <= u < |adj| && 0 <= i < |adj[u]|
      ensures Relaxed(adj, r.dist, r.finalized, u, i)
    {
      assert Relaxed(adj, s.dist, s.finalized, u, i);
    }
  }

  /**
   * Settling the vertex of a least entry keeps the invariant's extra parts:
   * that vertex is finalized at a shortest distance, and its edges are
   * relaxed.
   */
  lemma SettledOptimal(adj: Adjacency, source: int, s: State, i: int)
    requires NonNegative(adj) && OptInv(adj, source, s) && IsMinAt(s.pq, i)
    requires !s.finalized[s.pq[i].vertex]
    ensures var r := Settled(adj, Popped(s, i), s.pq[i].vertex);
      && Covered(r) && EntriesAbove(r)
      && FinalOptimal(adj, source, r) && EdgesRelaxed(adj, r.dist, r.finalized)
  {
    var u := s.pq[i].vertex;
    var p := Popped(s, i);
    var f := p.(finalized := p.finalized[u := true]);
    var r := Settled(adj, p, u);
    CoveredBeforeReduction(adj, s, i);
    PolledIsShortest(adj, source, s, i);
    PoppedAbove(s, i);
    RelaxedOutAbove(adj, u, f, |adj[u]|);
    RelaxedOutRelaxes(adj, u, f, |adj[u]|);
    forall v | 0 <= v < |r.dist| && r.finalized[v]
      ensures AtMostPaths(adj, source, v, r.dist[v])
    {
      assert r.dist[v] == s.dist[v];
    }
    forall x, m | 0 <= x < |adj| && 0 <= m < |adj[x]|
      ensures Relaxed(adj, r.dist, r.finalized, x, m)
    {
      if x != u {
        assert Relaxed(adj, s.dist, s.finalized, x, m);
      } else {
        assert RelaxedUpTo(adj, r.dist, r.finalized, u, |adj[u]|);
      }
    }
  }

  /** The reduction with the corrected rebuild keeps the invariant's extra parts. */
  lemma ReducedOptimal(adj: Adjacency, source: int, k: int, window: int, s: State)
    requires Closed(adj) && Shaped(adj, s) && k >= 0
    requires Covered(s) && EntriesAbove(s)
    requires FinalOptimal(adj, source, s) && EdgesRelaxed(adj, s.dist, s.finalized)
    ensures var r := Reduced(adj, k, window, FromLive, s);
      && Covered(r) && EntriesAbove(r)
      && FinalOptimal(adj, source, r) && EdgesRelaxed(adj, r.dist, r.finalized)
  {
    var r := Reduced(adj, k, window, FromLive, s);
    CorrectedReductionKeepsCovered(adj, k, window, s);
    LoweredKeepsOptimal(adj, source, s, r);
    match ReductionSet(adj, k, window, s)
    case None =>
    case Some(U) =>
      var d := Rounds(adj, s.dist, s.finalized, U, k);
      var live := Candidates(d, s.finalized, INF, |adj|);
      RebuiltEntries(live, d, s.finalized, |live|);
  }

  /** One iteration of the corrected loop from a least entry keeps OptInv. */
  lemma IterationOptimal(adj: Adjacency, k: int, window: int, source: int, s: State, i: int)
    requires NonNegative(adj) && OptInv(adj, source, s) && IsMinAt(s.pq, i) && k >= 1
    ensures OptInv(adj, source, Iteration(adj, k, window, FromLive, s, i))
  {
    IterationSafe(adj, k, window, FromLive, source, s, i);
    var u := s.pq[i].vertex;
    var p := Popped(s, i);
    if s.finalized[u] {
      CoveredBeforeReduction(adj, s, i);
      PoppedAbove(s, i);
    } else {
      SettledOptimal(adj, source, s, i);
      var t := Settled(adj, p, u);
      if t.relaxSteps % k == 0 && |t.pq| > 0 {
        ReducedOptimal(adj, source, k, window, t);
      }
    }
  }

  /** Along a corrected trace the invariant holds at every state. */
  lemma {:induction false} TraceOptimal(adj: Adjacency, k: int, window: int, source: int, trace: seq<State>, j: int)
    requires Closed(adj) && NonNegative(adj) && IsTrace(adj, k, window, FromLive, source, trace)
    requires 0 <= j < |trace|
    ensures OptInv(adj, source, trace[j])
    decreases j
  {
    if j == 0 {
      InitialOpt(adj, source);
    } else {
      TraceOptimal(adj, k, window, source, trace, j - 1);
      assert StepTo(adj, k, window, FromLive, trace[j - 1], trace[j]);
      var i :| IsMinAt(trace[j - 1].pq, i) && trace[j] == Iteration(adj, k, window, FromLive, trace[j - 1], i);
      IterationOptimal(adj, k, window, source, trace[j - 1], i);
    }
  }

  /**
   * A complete corrected run returns shortest distances: dist[v] is finite
   * exactly when some path lighter than the sentinel reaches v, it is then
   * the weight of a real path, and no such path is lighter.
   */
  lemma CorrectedRunShortest(adj: Adjacency, k: int, window: int, source: int, trace: seq<State>)
    requires Closed(adj) && NonNegative(adj) && IsRun(adj, k, window, FromLive, source, trace)
    ensures var d := trace[|trace| - 1].dist;
      && |d| == |adj| && d[source] == 0 && Bounded(d)
      && (forall v :: 0 <= v < |adj| && d[v] < INF ==> HasPath(adj, source, v, d[v]))
      && (forall v :: 0 <= v < |adj| ==> AtMostPaths(adj, source, v, d[v]))
  {
    var s := trace[|trace| - 1];
    RunSound(adj, k, window, FromLive, source, trace);
    TraceOptimal(adj, k, window, source, trace, |trace| - 1);
    forall v | 0 <= v < |adj|
      ensures AtMostPaths(adj, source, v, s.dist[v])
    {
      forall p | IsPath(adj, source, v, p) && Weight(adj, p) < INF
        ensures s.dist[v] <= Weight(adj, p)
      {
        FrontierOnPath(adj, source, s, v, p);
        assert s.finalized[v];
      }
    }
  }

  /**
   * Complete corrected runs exist for every graph and source: the main
   * loop with the corrected rebuild terminates, each pass counting one
   * more finalized vertex or shortening the queue.
   */
  ghost method CorrectedRunExists(adj: Adjacency, k: int, window: int, source: int) returns (trace: seq<State>)
    requires Closed(adj) && 0 <= source < |adj| && k >= 1
    ensures IsRun(adj, k, window, FromLive, source, trace)
  {
    InitialInv(adj, source);
    trace := [Initial(|adj|, source)];
    var s := trace[0];
    while |s.pq| > 0
      invariant IsTrace(adj, k, window, FromLive, source, trace) && trace[|trace| - 1] == s
      invariant Inv(adj, source, s) && s.relaxSteps <= |adj|
      decreases |adj| - s.relaxSteps, |s.pq|
    {
      MinExists(s.pq);
      var i :| IsMinAt(s.pq, i);
      IterationSafe(adj, k, window, FromLive, source, s, i);
      TraceExtend(adj, k, window, FromLive, source, trace, s, i);
      s := Iteration(adj, k, window, FromLive, s, i);
      trace := trace + [s];
    }
  }
}
