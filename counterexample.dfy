/**
 * A graph on which shortestPath, as written, reports a reachable vertex
 * as unreachable: the frontier reduction lowers dist[4] through a vertex
 * of U, but rebuilds the queue from U alone, so vertex 4 is never polled
 * and the edge 4 -> 5 is never relaxed.
 */
module Counterexample {
  import opened GraphStore
  import opened Paths
  import opened Search
  import opened ImprovedDijkstra
  import opened Optimality

  /** 0 -> 1 (1), 0 -> 2 (2), 0 -> 3 (5), 3 -> 4 (1), 4 -> 5 (1). */
  function Example(): Adjacency {
    [[Node(1, 1), Node(2, 2), Node(3, 5)], [], [], [Node(4, 1)], [Node(5, 1)], []]
  }

  /** The frontier parameter for six vertices: round(log2 7) = 3. */
  const K: int := 3

  /** The states of the only run on Example from vertex 0, in order. */
  function Expected(j: int): State
    requires 0 <= j < 5
  {
    var F, T := false, true;
    if j == 0 then
      State([0, INF, INF, INF, INF, INF], [F, F, F, F, F, F], [DistanceNode(0, 0)], 0)
    else if j == 1 then
      State([0, 1, 2, 5, INF, INF], [T, F, F, F, F, F],
        [DistanceNode(1, 1), DistanceNode(2, 2), DistanceNode(3, 5)], 1)
    else if j == 2 then
      State([0, 1, 2, 5, INF, INF], [T, T, F, F, F, F], [DistanceNode(2, 2), DistanceNode(3, 5)], 2)
    else if j == 3 then
      State([0, 1, 2, 5, 6, INF], [T, T, T, F, F, F], [DistanceNode(3, 5)], 3)
    else
      State([0, 1, 2, 5, 6, INF], [T, T, T, T, F, F], [], 4)
  }

  /** The edges of Example, stated entry by entry. */
  ghost predicate IsExample(adj: Adjacency) {
    && |adj| == 6
    && adj[0] == [Node(1, 1), Node(2, 2), Node(3, 5)]
    && adj[1] == [] && adj[2] == []
    && adj[3] == [Node(4, 1)] && adj[4] == [Node(5, 1)] && adj[5] == []
  }

  lemma ExampleIsExample()
    ensures IsExample(Example()) && Closed(Example())
  {
  }

  lemma ExampleClosed(adj: Adjacency)
    requires IsExample(adj)
    ensures Closed(adj)
  {
  }

  lemma FrontierKOfExample()
    ensures FrontierK(6) == K
  {
    assert Log2Floor(49) == 5;
    assert RoundLog2(7) == 3;
  }

  /** Vertex 5 is reachable from 0 at weight 7, along 0 -> 3 -> 4 -> 5. */
  lemma ReachableAtSeven()
    ensures HasPath(Example(), 0, 5, 7)
  {
    var adj := Example();
    SourcePath(adj, 0);
    ExtendPath(adj, 0, 0, 0, 2);
    ExtendPath(adj, 0, 3, 5, 0);
    ExtendPath(adj, 0, 4, 6, 0);
  }

  lemma InitialIsExpected()
    ensures Initial(6, 0) == Expected(0)
  {
    var s := Initial(6, 0);
    assert s.dist == Expected(0).dist;
    assert s.finalized == Expected(0).finalized;
  }

  /** From each expected state but the last, the only step leads to the next one. */
  lemma OnlyStep(adj: Adjacency, j: int, t: State)
    requires IsExample(adj) && 0 <= j < 4 && StepTo(adj, K, WINDOW, FromU, Expected(j), t)
    ensures t == Expected(j + 1)
  {
    var s := Expected(j);
    var i :| IsMinAt(s.pq, i) && t == Iteration(adj, K, WINDOW, FromU, s, i);
    HeadIsLeast(j, i);
    if j == 0 {
      ZeroToOne(adj, s);
    } else if j == 1 {
      OneToTwo(adj, s);
    } else if j == 2 {
      TwoToThree(adj, s);
    } else {
      ThreeToFour(adj, s);
    }
  }

  /** Every expected queue is strictly increasing in distance, so only its head is least. */
  lemma HeadIsLeast(j: int, i: int)
    requires 0 <= j < 4 && IsMinAt(Expected(j).pq, i)
    ensures i == 0
  {
    var pq := Expected(j).pq;
    assert CompareTo(pq[i], pq[0]) <= 0;
    assert forall m :: 0 < m < |pq| ==> pq[0].distance < pq[m].distance;
  }

  /** Settling 0 sets the distances of 1, 2 and 3 and queues them in edge order. */
  lemma ZeroToOne(adj: Adjacency, s: State)
    requires IsExample(adj) && s == Expected(0)
    ensures Iteration(adj, K, WINDOW, FromU, s, 0) == Expected(1)
  {
    var p := Popped(s, 0);
    assert p.pq == [];
    var f := p.(finalized := p.finalized[0 := true]);
    RelaxZero(adj, f);
    var t := Settled(adj, p, 0);
    assert t.relaxSteps == 1;
    assert t.finalized == Expected(1).finalized;
  }

  /** The three edges of 0 each lower a distance and append an entry. */
  lemma RelaxZero(adj: Adjacency, f: State)
    requires IsExample(adj)
    requires f == State([0, INF, INF, INF, INF, INF], [true, false, false, false, false, false], [], 0)
    ensures RelaxedOut(adj, 0, f, 3) == f.(dist := Expected(1).dist, pq := Expected(1).pq)
  {
    var d1 := f.dist[1 := 1];
    var d2 := d1[2 := 2];
    var d3 := d2[3 := 5];
    assert RelaxedOut(adj, 0, f, 0) == f;
    assert RelaxedOut(adj, 0, f, 1) == f.(dist := d1, pq := [DistanceNode(1, 1)]);
    assert RelaxedOut(adj, 0, f, 2) == f.(dist := d2, pq := [DistanceNode(1, 1), DistanceNode(2, 2)]);
    assert d3 == Expected(1).dist;
  }

  /** Settling 1, which has no edges, only counts the step. */
  lemma OneToTwo(adj: Adjacency, s: State)
    requires IsExample(adj) && s == Expected(1)
    ensures Iteration(adj, K, WINDOW, FromU, s, 0) == Expected(2)
  {
    assert RemoveAt(s.pq, 0) == [DistanceNode(2, 2), DistanceNode(3, 5)];
    var p := s.(pq := [DistanceNode(2, 2), DistanceNode(3, 5)]);
    assert p == Popped(s, 0);
    var f := p.(finalized := p.finalized[1 := true]);
    assert RelaxedOut(adj, 1, f, 0) == f;
    var t := f.(relaxSteps := 2);
    assert Settled(adj, p, 1) == t;
    assert t == Expected(2);
  }

  /** Settling 2 is the third step, so the reduction runs on BeforeReduction. */
  lemma TwoToThree(adj: Adjacency, s: State)
    requires IsExample(adj) && s == Expected(2)
    ensures Iteration(adj, K, WINDOW, FromU, s, 0) == Expected(3)
  {
    assert RemoveAt(s.pq, 0) == [DistanceNode(3, 5)];
    var p := s.(pq := [DistanceNode(3, 5)]);
    assert p == Popped(s, 0);
    var f := p.(finalized := p.finalized[2 := true]);
    assert RelaxedOut(adj, 2, f, 0) == f;
    var t := Settled(adj, p, 2);
    assert t.finalized == BeforeReduction().finalized;
    assert t == BeforeReduction();
    AsWrittenReduction(adj, t);
  }

  /** Settling 3 finds dist[4] = 6 already at 5 + 1 and leaves the queue empty. */
  lemma ThreeToFour(adj: Adjacency, s: State)
    requires IsExample(adj) && s == Expected(3)
    ensures Iteration(adj, K, WINDOW, FromU, s, 0) == Expected(4)
  {
    var p := Popped(s, 0);
    assert p.pq == [];
    var f := p.(finalized := p.finalized[3 := true]);
    assert RelaxedOut(adj, 3, f, 0) == f;
    assert RelaxedOut(adj, 3, f, 1) == f;
    var t := Settled(adj, p, 3);
    assert t.relaxSteps == 4;
    assert t.finalized == Expected(4).finalized;
  }

  /** The state just before the reduction that loses vertex 4. */
  function BeforeReduction(): State {
    State([0, 1, 2, 5, INF, INF], [true, true, true, false, false, false], [DistanceNode(3, 5)], 3)
  }

  /** The distances after the Bellman-Ford rounds of that reduction. */
  function AfterRounds(): seq<int> {
    [0, 1, 2, 5, 6, INF]
  }

  /** The guard lets the reduction through with U = [3]: the least queued distance is 5, so B = 15. */
  lemma ExampleReductionSet(adj: Adjacency, s: State)
    requires IsExample(adj) && s == BeforeReduction()
    ensures ReductionSet(adj, K, WINDOW, s) == Some([3])
  {
    assert MinDistance(s.pq, 0) == INF;
    assert MinDistance(s.pq, 1) == 5;
    var d, fin := s.dist, s.finalized;
    assert Candidates(d, fin, 15, 3) == [] by {
      assert Candidates(d, fin, 15, 0) == [];
      assert Candidates(d, fin, 15, 1) == [];
      assert Candidates(d, fin, 15, 2) == [];
    }
    assert Candidates(d, fin, 15, 4) == [3];
    assert Candidates(d, fin, 15, 5) == [3];
    assert Candidates(d, fin, 15, 6) == [3];
  }

  /** One round over U = [3] lowers dist[4] to 6; the next round changes nothing. */
  lemma ExampleRounds(adj: Adjacency, d: seq<int>, fin: seq<bool>)
    requires IsExample(adj) && d == BeforeReduction().dist && fin == BeforeReduction().finalized
    ensures Rounds(adj, d, fin, [3], K) == AfterRounds()
  {
    var d' := AfterRounds();
    assert d' == d[4 := 6];
    assert PassEdges(adj, 3, d, fin, 0) == Pass(d, false);
    assert PassEdges(adj, 3, d, fin, 1) == Pass(d', true);
    assert Round(adj, d, fin, [3], 0) == Pass(d, false);
    assert Round(adj, d, fin, [3], 1) == Pass(d', true);
    assert PassEdges(adj, 3, d', fin, 0) == Pass(d', false);
    assert PassEdges(adj, 3, d', fin, 1) == Pass(d', false);
    assert Round(adj, d', fin, [3], 0) == Pass(d', false);
    assert Round(adj, d', fin, [3], 1) == Pass(d', false);
    assert Rounds(adj, d', fin, [3], 2) == d';
  }

  /** The reduction as written: U = [3], one round lowers dist[4] to 6, the queue keeps only (3, 5). */
  lemma AsWrittenReduction(adj: Adjacency, s: State)
    requires IsExample(adj) && s == BeforeReduction()
    ensures Reduced(adj, K, WINDOW, FromU, s) == Expected(3)
  {
    ExampleReductionSet(adj, s);
    ExampleRounds(adj, s.dist, s.finalized);
    var d := AfterRounds();
    assert Rebuilt([3], d, s.finalized, 0) == [];
    assert Rebuilt([3], d, s.finalized, 1) == [DistanceNode(3, 5)];
  }

  /** Before the reduction every live vertex is queued: only vertex 3 is live. */
  lemma BeforeReductionCovered(s: State)
    requires s == BeforeReduction()
    ensures Covered(s)
  {
    forall v | 0 <= v < |s.dist| && v < |s.finalized| && !s.finalized[v] && s.dist[v] < INF
      ensures DistanceNode(v, s.dist[v]) in s.pq
    {
      assert v == 3;
    }
  }

  /**
   * Coverage holds before the reduction and fails after it: vertex 4 is
   * live at distance 6 but has no queue entry.
   */
  lemma AsWrittenReductionDropsVertex(adj: Adjacency, s: State)
    requires IsExample(adj) && s == BeforeReduction()
    ensures Covered(s)
    ensures !Covered(Reduced(adj, K, WINDOW, FromU, s))
  {
    BeforeReductionCovered(s);
    AsWrittenReduction(adj, s);
    var r := Expected(3);
    assert !r.finalized[4] && r.dist[4] < INF && DistanceNode(4, r.dist[4]) !in r.pq;
  }

  /** The corrected reduction on the same state keeps vertex 4 queued at distance 6. */
  lemma CorrectedReductionKeepsVertex(adj: Adjacency, s: State)
    requires IsExample(adj) && s == BeforeReduction()
    ensures var r := Reduced(adj, K, WINDOW, FromLive, s);
      r.dist[4] == 6 && DistanceNode(4, 6) in r.pq
  {
    ExampleClosed(adj);
    ExampleReductionSet(adj, s);
    ExampleRounds(adj, s.dist, s.finalized);
    BeforeReductionCovered(s);
    CorrectedReductionKeepsCovered(adj, K, WINDOW, s);
    var r := Reduced(adj, K, WINDOW, FromLive, s);
    assert r.dist == AfterRounds();
    assert !r.finalized[4];
  }

  /** Every complete run on Example from vertex 0 ends with dist[5] = INF. */
  lemma EveryRunMissesVertexFive(trace: seq<State>)
    requires IsRun(Example(), K, WINDOW, FromU, 0, trace)
    ensures trace[|trace| - 1] == Expected(4)
    ensures trace[|trace| - 1].dist[5] == INF
  {
    ExampleIsExample();
    RunFollowsExpected(Example(), trace);
  }

  /**
   * Example satisfies the assumptions of CorrectedRunShortest, yet the run
   * as written does not return a shortest distance for vertex 5.
   */
  lemma AsWrittenNotShortest(trace: seq<State>)
    requires IsRun(Example(), K, WINDOW, FromU, 0, trace)
    ensures Closed(Example()) && NonNegative(Example())
    ensures var d := trace[|trace| - 1].dist;
      |d| == 6 && !AtMostPaths(Example(), 0, 5, d[5])
  {
    EveryRunMissesVertexFive(trace);
    ReachableAtSeven();
    var p :| IsPath(Example(), 0, 5, p) && Weight(Example(), p) == 7;
    assert Weight(Example(), p) < INF;
  }

  lemma RunFollowsExpected(adj: Adjacency, trace: seq<State>)
    requires IsExample(adj) && IsRun(adj, K, WINDOW, FromU, 0, trace)
    ensures trace[|trace| - 1] == Expected(4)
  {
    TraceFollowsExpected(adj, trace, |trace| - 1);
    var j := |trace| - 1;
    assert trace[j].pq == [];
  }

  lemma {:induction false} TraceFollowsExpected(adj: Adjacency, trace: seq<State>, j: int)
    requires IsExample(adj) && IsTrace(adj, K, WINDOW, FromU, 0, trace) && 0 <= j < |trace|
    ensures j < 5 && trace[j] == Expected(j)
    decreases j
  {
    if j == 0 {
      InitialIsExpected();
    } else {
      TraceFollowsExpected(adj, trace, j - 1);
      assert StepTo(adj, K, WINDOW, FromU, trace[j - 1], trace[j]);
      assert j - 1 < 4;
      OnlyStep(adj, j - 1, trace[j]);
    }
  }

  /**
   * shortestPath on Example: builds the graph edge by edge and runs the
   * search from 0. Vertex 5 comes back unreachable although a path
   * of weight 7 leads to it.
   */
  method RunExample() returns (result: seq<int>)
    ensures |result| == 6 && result[5] == INF
    ensures HasPath(Example(), 0, 5, 7)
  {
    var g := new Graph(6);
    assert Closed(g.adjList);
    g.AddEdge(0, 1, 1);
    assert g.adjList[0] == [Node(1, 1)];
    g.AddEdge(0, 2, 2);
    assert g.adjList[0] == [Node(1, 1), Node(2, 2)];
    g.AddEdge(0, 3, 5);
    assert g.adjList[0] == [Node(1, 1), Node(2, 2), Node(3, 5)];
    g.AddEdge(3, 4, 1);
    assert g.adjList[3] == [Node(4, 1)];
    g.AddEdge(4, 5, 1);
    assert g.adjList[4] == [Node(5, 1)];
    assert IsExample(g.adjList);
    ghost var trace;
    result, trace := ShortestPath(g, 0);
    FrontierKOfExample();
    RunFollowsExpected(g.adjList, trace);
    ReachableAtSeven();
  }
}
