/**
 * The shortest-path engine (src/dijkstra/improved/ImprovedDijkstra.java):
 * the main loop over `dist`, `finalized` and a priority queue, and the
 * frontier-reduction step, each proved to compute the functions of
 * module Search.
 */
module ImprovedDijkstra {
  import opened GraphStore
  import opened Paths
  import opened Search

  /** The width of the distance window above the least queued distance (line 191). */
  const WINDOW: int := 10

  /**
   * java.util.PriorityQueue<DistanceNode> ordered by CompareTo, seen as the
   * entries it holds; the order of `entries` stands for no heap layout.
   */
  class MinQueue {
    var entries: seq<DistanceNode>

    constructor ()
      ensures entries == []
    {
      entries := [];
    }

    function IsEmpty(): (b: bool)
      reads this
      ensures b <==> |entries| == 0
    {
      |entries| == 0
    }

    function Size(): (n: nat)
      reads this
      ensures n == |entries|
    {
      |entries|
    }

    method Offer(e: DistanceNode)
      modifies this
      ensures entries == old(entries) + [e]
    {
      entries := entries + [e];
    }

    /** Removes and returns a least entry; `i` is the position it was taken from. */
    method Poll() returns (e: DistanceNode, ghost i: int)
      requires |entries| > 0
      modifies this
      ensures IsMinAt(old(entries), i) && e == old(entries)[i]
      ensures entries == RemoveAt(old(entries), i)
    {
      MinExists(entries);
      var j :| 0 <= j < |entries| && IsMinAt(entries, j);
      e, i := entries[j], j;
      entries := RemoveAt(entries, j);
    }

    method Clear()
      modifies this
      ensures entries == []
    {
      entries := [];
    }
  }

  function Pow2(e: nat): nat
  {
    if e == 0 then 1 else 2 * Pow2(e - 1)
  }

  /** The integer part of log2 n. */
  function Log2Floor(n: nat): (l: nat)
    requires n >= 1
    ensures Pow2(l) <= n < Pow2(l + 1)
  {
    if n == 1 then 0 else 1 + Log2Floor(n / 2)
  }

  /**
   * log2 n rounded to the nearest integer, as Math.round does: the `r` with
   * log2 n - 1/2 < r <= log2 n + 1/2, stated without fractions by squaring.
   */
  function RoundLog2(n: nat): (r: nat)
    requires n >= 1
    ensures Pow2(2 * r) <= 2 * (n * n) && n * n < Pow2(2 * r + 1)
  {
    var l := Log2Floor(n * n);
    assert Pow2(l + 1) == 2 * Pow2(l);
    assert Pow2(l + 2) == 2 * Pow2(l + 1);
    (l + 1) / 2
  }

  /** The number of Bellman-Ford rounds and of settlements between reductions (line 101). */
  function FrontierK(vertices: nat): (k: int)
    ensures k >= 2 && k >= RoundLog2(vertices + 1)
    ensures k == 2 || k == RoundLog2(vertices + 1)
  {
    if RoundLog2(vertices + 1) < 2 then 2 else RoundLog2(vertices + 1)
  }

  /**
   * The frontier reduction: computes exactly Reduced on the arrays and the
   * queue; it reads `finalized` and never sets a flag. Its four phases
   * are the helper methods below, in the order of the Java code.
   */
  method ShrinkFrontier(g: Graph, dist: array<int>, finalized: array<bool>, pq: MinQueue, k: int, window: int)
    requires g.Valid() && Closed(g.adjList)
    requires dist.Length == |g.adjList| && finalized.Length == |g.adjList|
    requires forall j :: 0 <= j < |pq.entries| ==> 0 <= pq.entries[j].vertex < |g.adjList|
    requires k >= 0
    modifies dist, pq
    ensures var r := Reduced(g.adjList, k, window, FromU, State(old(dist[..]), finalized[..], old(pq.entries), 0));
      dist[..] == r.dist && pq.entries == r.pq
  {
    ghost var s := State(dist[..], finalized[..], pq.entries, 0);
    ghost var adj0 := g.adjList;
    if pq.IsEmpty() {
      assert ReductionSet(adj0, k, window, s).None?;
      return;
    }
    var minFrontierDist := LeastQueued(pq);
    if minFrontierDist == INF {
      assert ReductionSet(adj0, k, window, s).None?;
      return;
    }
    var B := minFrontierDist + window;
    var V := g.GetVertices();
    var adj := g.GetAdjList();
    var U := CollectCandidates(dist, finalized, B, V);
    var frontierSize := pq.Size();
    if |U| == 0 || |U| > k * frontierSize {
      assert ReductionSet(adj, k, window, s).None?;
      return;
    }
    assert ReductionSet(adj, k, window, s) == Some(U);
    RelaxRounds(adj, dist, finalized, U, k);
    RebuildQueue(pq, U, dist, finalized);
    assert finalized[..] == s.finalized;
  }

  /** The least distance anywhere in the queue, stale entries included (lines 177-182). */
  method LeastQueued(pq: MinQueue) returns (minFrontierDist: int)
    ensures minFrontierDist == MinDistance(pq.entries, |pq.entries|)
  {
    minFrontierDist := INF;
    var n := 0;
    while n < pq.Size()
      invariant 0 <= n <= |pq.entries|
      invariant minFrontierDist == MinDistance(pq.entries, n)
    {
      if pq.entries[n].distance < minFrontierDist {
        minFrontierDist := pq.entries[n].distance;
      }
      n := n + 1;
    }
  }

  /** The candidate list U: live vertices below the bound B (lines 197-202). */
  method CollectCandidates(dist: array<int>, finalized: array<bool>, B: int, V: int) returns (U: seq<int>)
    requires 0 <= V <= dist.Length && V <= finalized.Length
    ensures U == Candidates(dist[..], finalized[..], B, V)
  {
    U := [];
    var u := 0;
    while u < V
      invariant 0 <= u <= V
      invariant U == Candidates(dist[..], finalized[..], B, u)
    {
      if !finalized[u] && dist[u] != INF && dist[u] < B {
        U := U + [u];
      }
      u := u + 1;
    }
  }

  /** At most k Bellman-Ford rounds over U, stopping after a round with no change (lines 211-234). */
  method RelaxRounds(adj: Adjacency, dist: array<int>, finalized: array<bool>, U: seq<int>, k: int)
    requires Closed(adj) && dist.Length == |adj| && finalized.Length == |adj| && InRange(U, |adj|) && k >= 0
    modifies dist
    ensures dist[..] == Rounds(adj, old(dist[..]), finalized[..], U, k)
  {
    var iter := 0;
    while iter < k
      invariant 0 <= iter <= k
      invariant Rounds(adj, dist[..], finalized[..], U, k - iter) == Rounds(adj, old(dist[..]), finalized[..], U, k)
    {
      var changed := RelaxRound(adj, dist, finalized, U);
      if !changed {
        break;
      }
      iter := iter + 1;
    }
  }

  /** One Bellman-Ford round over U; `changed` tells whether a distance went down (lines 212-228). */
  method RelaxRound(adj: Adjacency, dist: array<int>, finalized: array<bool>, U: seq<int>) returns (changed: bool)
    requires Closed(adj) && dist.Length == |adj| && finalized.Length == |adj| && InRange(U, |adj|)
    modifies dist
    ensures Pass(dist[..], changed) == Round(adj, old(dist[..]), finalized[..], U, |U|)
  {
    changed := false;
    ghost var d0, fin := dist[..], finalized[..];
    var x := 0;
    while x < |U|
      invariant 0 <= x <= |U| && finalized[..] == fin
      invariant Round(adj, d0, fin, U, x) == Pass(dist[..], changed)
    {
      var u := U[x];
      ghost var p := Pass(dist[..], changed);
      if dist[u] == INF {
        assert Round(adj, d0, fin, U, x + 1) == p;
        x := x + 1;
        continue;
      }
      var lowered := RelaxEdgesOf(adj, dist, finalized, u);
      changed := changed || lowered;
      assert Round(adj, d0, fin, U, x + 1) == Pass(PassEdges(adj, u, p.dist, fin, |adj[u]|).dist, p.changed || lowered);
      x := x + 1;
    }
  }

  /** The Bellman-Ford relaxation of the edges out of u (lines 219-227). */
  method RelaxEdgesOf(adj: Adjacency, dist: array<int>, finalized: array<bool>, u: int) returns (changed: bool)
    requires Closed(adj) && dist.Length == |adj| && finalized.Length == |adj| && 0 <= u < |adj|
    modifies dist
    ensures Pass(dist[..], changed) == PassEdges(adj, u, old(dist[..]), finalized[..], |adj[u]|)
  {
    changed := false;
    var j := 0;
    while j < |adj[u]|
      invariant 0 <= j <= |adj[u]|
      invariant Pass(dist[..], changed) == PassEdges(adj, u, old(dist[..]), finalized[..], j)
    {
      var neighbor := adj[u][j];
      var v := neighbor.vertex;
      var weight := neighbor.weight;
      if !finalized[v] && dist[u] + weight < dist[v] {
        dist[v] := dist[u] + weight;
        changed := true;
      }
      j := j + 1;
    }
  }

  /** The queue cleared and refilled from U alone (lines 237-242). */
  method RebuildQueue(pq: MinQueue, U: seq<int>, dist: array<int>, finalized: array<bool>)
    requires finalized.Length == dist.Length && InRange(U, dist.Length)
    modifies pq
    ensures pq.entries == Rebuilt(U, dist[..], finalized[..], |U|)
  {
    pq.Clear();
    var y := 0;
    while y < |U|
      invariant 0 <= y <= |U|
      invariant pq.entries == Rebuilt(U, dist[..], finalized[..], y)
    {
      var u := U[y];
      if !finalized[u] && dist[u] != INF {
        pq.Offer(DistanceNode(u, dist[u]));
      }
      y := y + 1;
    }
  }

  /**
   * The main loop's relaxation of the edges out of the just-finalized u:
   * computes exactly RelaxedOut (lines 116-126).
   */
  method RelaxNeighbors(adj: Adjacency, dist: array<int>, finalized: array<bool>, pq: MinQueue, u: int, ghost steps: nat)
    requires Closed(adj) && dist.Length == |adj| && finalized.Length == |adj| && 0 <= u < |adj|
    requires forall j :: 0 <= j < |pq.entries| ==> 0 <= pq.entries[j].vertex < |adj|
    modifies dist, pq
    ensures State(dist[..], finalized[..], pq.entries, steps)
      == RelaxedOut(adj, u, State(old(dist[..]), finalized[..], old(pq.entries), steps), |adj[u]|)
  {
    ghost var s := State(dist[..], finalized[..], pq.entries, steps);
    var j := 0;
    while j < |adj[u]|
      invariant 0 <= j <= |adj[u]|
      invariant State(dist[..], finalized[..], pq.entries, steps) == RelaxedOut(adj, u, s, j)
    {
      ghost var t := RelaxedOut(adj, u, s, j);
      var neighbor := adj[u][j];
      var v := neighbor.vertex;
      var weight := neighbor.weight;
      if !finalized[v] && dist[u] != INF && dist[u] + weight < dist[v] {
        var nd := dist[u] + weight;
        dist[v] := nd;
        pq.Offer(DistanceNode(v, nd));
        assert dist[..] == t.dist[v := nd];
      }
      j := j + 1;
    }
  }

  /**
   * shortestPath: the distances of a complete run of the main loop, with
   * k = FrontierK(V) and the window 10; dist[source] is 0, every entry is
   * at most the sentinel, and every finite entry is the weight of a path
   * from the source.
   */
  method ShortestPath(g: Graph, source: int) returns (result: seq<int>, ghost trace: seq<State>)
    requires g.Valid() && Closed(g.adjList) && 0 <= source < g.vertices
    ensures IsRun(g.adjList, FrontierK(g.vertices), WINDOW, FromU, source, trace)
    ensures result == trace[|trace| - 1].dist
    ensures |result| == g.vertices && result[source] == 0
    ensures forall v :: 0 <= v < |result| ==> result[v] <= INF
    ensures Sound(g.adjList, source, result)
  {
    var V := g.GetVertices();
    var adj := g.GetAdjList();
    var dist := new int[V](_ => INF);
    var finalized := new bool[V](_ => false);
    dist[source] := 0;
    var pq := new MinQueue();
    pq.Offer(DistanceNode(source, 0));
    var k := FrontierK(V);
    var relaxSteps: nat := 0;

    trace := [Initial(V, source)];
    assert dist[..] == Initial(V, source).dist;
    assert finalized[..] == Initial(V, source).finalized;

    while !pq.IsEmpty()
      invariant dist.Length == V && finalized.Length == V
      invariant IsTrace(adj, k, WINDOW, FromU, source, trace)
      invariant trace[|trace| - 1] == State(dist[..], finalized[..], pq.entries, relaxSteps)
      invariant relaxSteps <= V
      decreases V - relaxSteps, |pq.entries|
    {
      ghost var s := State(dist[..], finalized[..], pq.entries, relaxSteps);
      TraceInv(adj, k, WINDOW, FromU, source, trace, |trace| - 1);
      ghost var i;
      relaxSteps, i := Iterate(g, dist, finalized, pq, k, relaxSteps);
      IterationSafe(adj, k, WINDOW, FromU, source, s, i);
      TraceExtend(adj, k, WINDOW, FromU, source, trace, s, i);
      trace := trace + [Iteration(adj, k, WINDOW, FromU, s, i)];
    }
    RunSound(adj, k, WINDOW, FromU, source, trace);
    result := dist[..];
  }

  /**
   * One pass of the main loop (lines 104-134): poll a least entry, skip it
   * if its vertex is already finalized, otherwise finalize the vertex,
   * relax its edges, count the step, and every k-th step reduce the
   * frontier when the queue is not empty.
   */
  method Iterate(g: Graph, dist: array<int>, finalized: array<bool>, pq: MinQueue, k: int, relaxSteps: nat)
    returns (steps: nat, ghost i: int)
    requires g.Valid() && Closed(g.adjList) && k >= 1 && |pq.entries| > 0
    requires Shaped(g.adjList, State(dist[..], finalized[..], pq.entries, relaxSteps))
    requires dist.Length == |g.adjList| && finalized.Length == |g.adjList|
    modifies dist, finalized, pq
    ensures IsMinAt(old(pq.entries), i)
    ensures State(dist[..], finalized[..], pq.entries, steps)
      == Iteration(g.adjList, k, WINDOW, FromU, State(old(dist[..]), old(finalized[..]), old(pq.entries), relaxSteps), i)
  {
    ghost var s := State(dist[..], finalized[..], pq.entries, relaxSteps);
    var adj := g.GetAdjList();
    var current;
    current, i := pq.Poll();
    ghost var next := Iteration(adj, k, WINDOW, FromU, s, i);
    var u := current.vertex;
    steps := relaxSteps;
    if finalized[u] {
      assert next == Popped(s, i);
      return;
    }

    finalized[u] := true;
    RelaxNeighbors(adj, dist, finalized, pq, u, steps);
    steps := steps + 1;
    ghost var t := State(dist[..], finalized[..], pq.entries, steps);
    assert t == Settled(adj, Popped(s, i), u);
    if steps % k == 0 && !pq.IsEmpty() {
      assert next == Reduced(adj, k, WINDOW, FromU, t);
      ghost var r0 := Reduced(adj, k, WINDOW, FromU, State(t.dist, t.finalized, t.pq, 0));
      ShrinkFrontier(g, dist, finalized, pq, k, WINDOW);
      assert finalized[..] == t.finalized == r0.finalized;
      ReducedIgnoresSteps(adj, k, WINDOW, FromU, t);
      assert t.(relaxSteps := 0) == State(t.dist, t.finalized, t.pq, 0);
      assert next == r0.(relaxSteps := steps);
    } else {
      assert !(t.relaxSteps % k == 0 && |t.pq| > 0);
      assert next == t;
    }
  }
}
