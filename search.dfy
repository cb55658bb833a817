/**
 * A functional model of one run of `shortestPath`
 * (src/dijkstra/improved/ImprovedDijkstra.java): the state of the search,
 * each loop of the Java code as a function folding over its range, the
 * frontier reduction, one iteration of the main loop, and the safety
 * properties of all of them. The methods in module ImprovedDijkstra are
 * proved to compute exactly these functions.
 */
module Search {
  import opened GraphStore
  import opened Paths

  /** Integer.MAX_VALUE: the distance of a vertex that has not been reached. */
  const INF: int := 0x7fff_ffff

  datatype Option<T> = None | Some(value: T)

  // ---------------------------------------------------------------------
  // Queue entries and their order
  // ---------------------------------------------------------------------

  /** A queue entry: a vertex and the tentative distance it was queued with. */
  datatype DistanceNode = DistanceNode(vertex: int, distance: int)

  /** Integer.compare on the distances: entries are ordered by distance alone. */
  function CompareTo(a: DistanceNode, b: DistanceNode): (r: int)
    ensures -1 <= r <= 1
    ensures r < 0 <==> a.distance < b.distance
    ensures r == 0 <==> a.distance == b.distance
  {
    if a.distance < b.distance then -1 else if a.distance == b.distance then 0 else 1
  }

  /** Entry `i` is a least entry of `pq`: one that `poll` may return. */
  predicate IsMinAt(pq: seq<DistanceNode>, i: int): (b: bool)
    ensures b <==> 0 <= i < |pq| && forall j :: 0 <= j < |pq| ==> pq[i].distance <= pq[j].distance
  {
    0 <= i < |pq| && forall j :: 0 <= j < |pq| ==> CompareTo(pq[i], pq[j]) <= 0
  }

  /** A non-empty queue has a least entry. */
  lemma {:induction false} MinExists(pq: seq<DistanceNode>)
    requires |pq| > 0
    ensures exists i :: IsMinAt(pq, i)
    decreases |pq|
  {
    if |pq| == 1 {
      assert IsMinAt(pq, 0);
    } else {
      var init := pq[..|pq| - 1];
      MinExists(init);
      var i :| IsMinAt(init, i);
      assert forall j :: 0 <= j < |init| ==> init[j] == pq[j];
      if pq[i].distance <= pq[|pq| - 1].distance {
        assert IsMinAt(pq, i);
      } else {
        assert IsMinAt(pq, |pq| - 1);
      }
    }
  }

  /** The queue without its `i`-th entry. */
  function RemoveAt(pq: seq<DistanceNode>, i: int): (r: seq<DistanceNode>)
    requires 0 <= i < |pq|
    ensures |r| == |pq| - 1
    ensures forall j :: 0 <= j < |r| ==> r[j] == if j < i then pq[j] else pq[j + 1]
  {
    pq[..i] + pq[i + 1..]
  }

  /** Removing entry i takes exactly one copy of it out of the queue. */
  lemma RemoveAtMultiset(pq: seq<DistanceNode>, i: int)
    requires 0 <= i < |pq|
    ensures multiset(RemoveAt(pq, i)) == multiset(pq) - multiset{pq[i]}
  {
    assert pq == pq[..i] + [pq[i]] + pq[i + 1..];
  }

  // ---------------------------------------------------------------------
  // The state of a search
  // ---------------------------------------------------------------------

  /**
   * The working state of `shortestPath`: the `dist` and `finalized` arrays,
   * the priority queue (its order here is not a heap layout: only which
   * entries it holds matters) and the `relaxSteps` counter.
   */
  datatype State = State(dist: seq<int>, finalized: seq<bool>, pq: seq<DistanceNode>, relaxSteps: nat)

  /** One distance and one flag per vertex, and only vertices in the queue. */
  ghost predicate Shaped(adj: Adjacency, s: State) {
    && |s.dist| == |adj| && |s.finalized| == |adj|
    && forall j :: 0 <= j < |s.pq| ==> 0 <= s.pq[j].vertex < |adj|
  }

  /**
   * `d'` is `d` after relaxation: no distance went up, and the distance of
   * a vertex flagged in `fin` did not change at all.
   */
  ghost predicate Descends(fin: seq<bool>, d: seq<int>, d': seq<int>) {
    && |d'| == |d|
    && forall v :: 0 <= v < |d| ==> d'[v] <= d[v] && (v < |fin| && fin[v] ==> d'[v] == d[v])
  }

  /** `g` has the length of `f` and keeps every flag `f` sets. */
  ghost predicate Keeps(f: seq<bool>, g: seq<bool>) {
    |g| == |f| && forall v :: 0 <= v < |f| && f[v] ==> g[v]
  }

  /** Every distance is a real distance or the sentinel. */
  ghost predicate Bounded(d: seq<int>) {
    forall v :: 0 <= v < |d| ==> d[v] <= INF
  }

  /** Every finite distance is the weight of a path from the source. */
  ghost predicate Sound(adj: Adjacency, source: int, d: seq<int>) {
    forall v :: 0 <= v < |d| && d[v] < INF ==> HasPath(adj, source, v, d[v])
  }

  /** The state before the main loop (lines 91-98 and 102). */
  function Initial(n: nat, source: int): (r: State)
    requires 0 <= source < n
    ensures |r.dist| == n && |r.finalized| == n && r.relaxSteps == 0
    ensures r.pq == [DistanceNode(source, r.dist[source])] && r.dist[source] == 0
    ensures forall v :: 0 <= v < n ==> !r.finalized[v] && r.dist[v] <= INF && (r.dist[v] < INF <==> v == source)
  {
    State(seq(n, v => if v == source then 0 else INF), seq(n, _ => false), [DistanceNode(source, 0)], 0)
  }

  // ---------------------------------------------------------------------
  // The main loop: relaxing the edges out of a finalized vertex
  // ---------------------------------------------------------------------

  /**
   * The state after the main loop has relaxed the first `j` edges out of
   * `u`: an edge u -> v of weight w lowers dist[v] to dist[u] + w and queues
   * that entry when v is not finalized, dist[u] is finite and the new
   * distance is strictly smaller.
   */
  function RelaxedOut(adj: Adjacency, u: int, s: State, j: int): (r: State)
    requires Closed(adj) && Shaped(adj, s) && 0 <= u < |adj| && 0 <= j <= |adj[u]|
    ensures Shaped(adj, r) && r.finalized == s.finalized && r.relaxSteps == s.relaxSteps
    ensures Descends(s.finalized, s.dist, r.dist)
    decreases j
  {
    if j == 0 then s
    else
      var t := RelaxedOut(adj, u, s, j - 1);
      var e := adj[u][j - 1];
      if !t.finalized[e.vertex] && t.dist[u] != INF && t.dist[u] + e.weight < t.dist[e.vertex] then
        var nd := t.dist[u] + e.weight;
        t.(dist := t.dist[e.vertex := nd], pq := t.pq + [DistanceNode(e.vertex, nd)])
      else t
  }

  /**
   * Relaxation only appends to the queue, and every vertex whose distance
   * it lowered gets an entry at its new distance.
   */
  lemma {:induction false} RelaxedOutQueues(adj: Adjacency, u: int, s: State, j: int)
    requires Closed(adj) && Shaped(adj, s) && 0 <= u < |adj| && 0 <= j <= |adj[u]|
    ensures Queues(adj, s, RelaxedOut(adj, u, s, j))
    decreases j
  {
    if j > 0 {
      RelaxedOutQueues(adj, u, s, j - 1);
      RelaxedOutQueuesStep(adj, u, s, j);
    }
  }

  /** `r` extends the queue of `s` and queues every vertex it lowered below `s`. */
  ghost predicate Queues(adj: Adjacency, s: State, r: State) {
    && |s.dist| == |adj| && |r.dist| == |adj|
    && |s.pq| <= |r.pq| && r.pq[..|s.pq|] == s.pq
    && forall v :: 0 <= v < |adj| && r.dist[v] < s.dist[v] ==> DistanceNode(v, r.dist[v]) in r.pq
  }

  /** The last relaxation step of RelaxedOut keeps the queue facts. */
  lemma RelaxedOutQueuesStep(adj: Adjacency, u: int, s: State, j: int)
    requires Closed(adj) && Shaped(adj, s) && 0 <= u < |adj| && 0 < j <= |adj[u]|
    requires Queues(adj, s, RelaxedOut(adj, u, s, j - 1))
    ensures Queues(adj, s, RelaxedOut(adj, u, s, j))
  {
    var t := RelaxedOut(adj, u, s, j - 1);
    var e := adj[u][j - 1];
    if !t.finalized[e.vertex] && t.dist[u] != INF && t.dist[u] + e.weight < t.dist[e.vertex] {
      var r := RelaxedOut(adj, u, s, j);
      assert r.pq == t.pq + [DistanceNode(e.vertex, r.dist[e.vertex])];
      assert r.pq[..|t.pq|] == t.pq;
      assert r.pq[..|s.pq|] == t.pq[..|s.pq|];
      forall v | 0 <= v < |adj| && r.dist[v] < s.dist[v]
        ensures DistanceNode(v, r.dist[v]) in r.pq
      {
        if v != e.vertex {
          assert DistanceNode(v, t.dist[v]) in t.pq;
        }
      }
    }
  }

  // ---------------------------------------------------------------------
  // Frontier reduction (shrinkFrontier)
  // ---------------------------------------------------------------------

  /**
   * The scan for the least distance in the first `n` queue entries,
   * starting from the sentinel (lines 177-182).
   */
  function MinDistance(pq: seq<DistanceNode>, n: int): (m: int)
    requires 0 <= n <= |pq|
    ensures m <= INF
    ensures forall j :: 0 <= j < n ==> m <= pq[j].distance
    ensures m < INF ==> exists j :: 0 <= j < n && pq[j].distance == m
    decreases n
  {
    if n == 0 then INF
    else
      var m := MinDistance(pq, n - 1);
      if pq[n - 1].distance < m then pq[n - 1].distance else m
  }

  /**
   * The candidate list U over vertices 0 .. n-1, in increasing order: the
   * vertices that are not finalized and have a finite distance below
   * `bound` (lines 197-202).
   */
  function Candidates(d: seq<int>, fin: seq<bool>, bound: int, n: int): (U: seq<int>)
    requires 0 <= n <= |d| && n <= |fin|
    ensures forall j :: 0 <= j < |U| ==> 0 <= U[j] < n
    decreases n
  {
    if n == 0 then []
    else
      var U := Candidates(d, fin, bound, n - 1);
      var v := n - 1;
      if !fin[v] && d[v] != INF && d[v] < bound then U + [v] else U
  }

  /**
   * U is strictly increasing and holds exactly the vertices below n that
   * are not finalized and have a finite distance below the bound.
   */
  lemma {:induction false} CandidatesExact(d: seq<int>, fin: seq<bool>, bound: int, n: int)
    requires 0 <= n <= |d| && n <= |fin|
    ensures var U := Candidates(d, fin, bound, n);
      && (forall a, b :: 0 <= a < b < |U| ==> U[a] < U[b])
      && (forall v :: 0 <= v < n ==> (v in U <==> !fin[v] && d[v] != INF && d[v] < bound))
    decreases n
  {
    if n > 0 {
      CandidatesExact(d, fin, bound, n - 1);
    }
  }

  /** Distances after some relaxations, and whether any of them lowered a distance. */
  datatype Pass = Pass(dist: seq<int>, changed: bool)

  /**
   * The Bellman-Ford relaxation of the first `j` edges out of `u`: an edge
   * u -> v of weight w lowers dist[v] to dist[u] + w when v is not finalized
   * and that is strictly smaller (lines 219-227).
   */
  function PassEdges(adj: Adjacency, u: int, d: seq<int>, fin: seq<bool>, j: int): (r: Pass)
    requires Closed(adj) && |d| == |adj| && |fin| == |adj| && 0 <= u < |adj| && 0 <= j <= |adj[u]|
    ensures |r.dist| == |d|
    decreases j
  {
    if j == 0 then Pass(d, false)
    else
      var p := PassEdges(adj, u, d, fin, j - 1);
      var e := adj[u][j - 1];
      if !fin[e.vertex] && p.dist[u] + e.weight < p.dist[e.vertex] then
        Pass(p.dist[e.vertex := p.dist[u] + e.weight], true)
      else p
  }

  /** A pass over the edges of `u` lowers only distances of unfinalized vertices. */
  lemma {:induction false} PassEdgesDescends(adj: Adjacency, u: int, d: seq<int>, fin: seq<bool>, j: int)
    requires Closed(adj) && |d| == |adj| && |fin| == |adj| && 0 <= u < |adj| && 0 <= j <= |adj[u]|
    ensures Descends(fin, d, PassEdges(adj, u, d, fin, j).dist)
    decreases j
  {
    if j > 0 {
      PassEdgesDescends(adj, u, d, fin, j - 1);
    }
  }

  /** The pass reports a change exactly when some distance went down. */
  lemma {:induction false} PassEdgesChanged(adj: Adjacency, u: int, d: seq<int>, fin: seq<bool>, j: int)
    requires Closed(adj) && |d| == |adj| && |fin| == |adj| && 0 <= u < |adj| && 0 <= j <= |adj[u]|
    ensures var r := PassEdges(adj, u, d, fin, j); r.changed <==> r.dist != d
    decreases j
  {
    if j > 0 {
      PassEdgesChanged(adj, u, d, fin, j - 1);
      PassEdgesDescends(adj, u, d, fin, j - 1);
      var p := PassEdges(adj, u, d, fin, j - 1);
      var r := PassEdges(adj, u, d, fin, j);
      var e := adj[u][j - 1];
      if r != p {
        assert r.dist[e.vertex] < p.dist[e.vertex] <= d[e.vertex];
      }
    }
  }

  /** Every entry of U names a vertex. */
  ghost predicate InRange(U: seq<int>, n: int) {
    forall j :: 0 <= j < |U| ==> 0 <= U[j] < n
  }

  /**
   * One Bellman-Ford round over the first `x` vertices of U, skipping a
   * vertex whose distance is the sentinel (lines 212-228).
   */
  function Round(adj: Adjacency, d: seq<int>, fin: seq<bool>, U: seq<int>, x: int): (r: Pass)
    requires Closed(adj) && |d| == |adj| && |fin| == |adj| && InRange(U, |adj|) && 0 <= x <= |U|
    ensures |r.dist| == |d|
    decreases x
  {
    if x == 0 then Pass(d, false)
    else
      var p := Round(adj, d, fin, U, x - 1);
      var u := U[x - 1];
      if p.dist[u] == INF then p
      else
        var q := PassEdges(adj, u, p.dist, fin, |adj[u]|);
        Pass(q.dist, p.changed || q.changed)
  }

  /** A round lowers only distances of unfinalized vertices. */
  lemma {:induction false} RoundDescends(adj: Adjacency, d: seq<int>, fin: seq<bool>, U: seq<int>, x: int)
    requires Closed(adj) && |d| == |adj| && |fin| == |adj| && InRange(U, |adj|) && 0 <= x <= |U|
    ensures Descends(fin, d, Round(adj, d, fin, U, x).dist)
    decreases x
  {
    if x > 0 {
      RoundDescends(adj, d, fin, U, x - 1);
      var p := Round(adj, d, fin, U, x - 1);
      PassEdgesDescends(adj, U[x - 1], p.dist, fin, |adj[U[x - 1]]|);
    }
  }

  /** The round reports a change exactly when some distance went down. */
  lemma {:induction false} RoundChanged(adj: Adjacency, d: seq<int>, fin: seq<bool>, U: seq<int>, x: int)
    requires Closed(adj) && |d| == |adj| && |fin| == |adj| && InRange(U, |adj|) && 0 <= x <= |U|
    ensures var r := Round(adj, d, fin, U, x); r.changed <==> r.dist != d
    decreases x
  {
    if x > 0 {
      RoundChanged(adj, d, fin, U, x - 1);
      RoundDescends(adj, d, fin, U, x - 1);
      var p := Round(adj, d, fin, U, x - 1);
      var u := U[x - 1];
      if p.dist[u] != INF {
        var q := PassEdges(adj, u, p.dist, fin, |adj[u]|);
        PassEdgesChanged(adj, u, p.dist, fin, |adj[u]|);
        PassEdgesDescends(adj, u, p.dist, fin, |adj[u]|);
        if q.changed && !p.changed {
          var v :| 0 <= v < |d| && q.dist[v] != p.dist[v];
          assert q.dist[v] < d[v];
        }
        if p.changed {
          var v :| 0 <= v < |d| && p.dist[v] != d[v];
          assert q.dist[v] < d[v];
        }
      }
    }
  }

  /**
   * At most `n` Bellman-Ford rounds over U, stopping after the first round
   * that changes nothing (lines 211-234).
   */
  function Rounds(adj: Adjacency, d: seq<int>, fin: seq<bool>, U: seq<int>, n: nat): (r: seq<int>)
    requires Closed(adj) && |d| == |adj| && |fin| == |adj| && InRange(U, |adj|)
    ensures |r| == |adj|
    decreases n
  {
    if n == 0 then d
    else
      var p := Round(adj, d, fin, U, |U|);
      if !p.changed then p.dist else Rounds(adj, p.dist, fin, U, n - 1)
  }

  /** The rounds together lower only distances of unfinalized vertices. */
  lemma {:induction false} RoundsDescends(adj: Adjacency, d: seq<int>, fin: seq<bool>, U: seq<int>, n: nat)
    requires Closed(adj) && |d| == |adj| && |fin| == |adj| && InRange(U, |adj|)
    ensures Descends(fin, d, Rounds(adj, d, fin, U, n))
    decreases n
  {
    if n > 0 {
      var p := Round(adj, d, fin, U, |U|);
      RoundDescends(adj, d, fin, U, |U|);
      if p.changed {
        RoundsDescends(adj, p.dist, fin, U, n - 1);
      }
    }
  }

  /** Exactly `n` Bellman-Ford rounds over U, with no early exit. */
  function AllRounds(adj: Adjacency, d: seq<int>, fin: seq<bool>, U: seq<int>, n: nat): (r: seq<int>)
    requires Closed(adj) && |d| == |adj| && |fin| == |adj| && InRange(U, |adj|)
    ensures |r| == |adj|
    decreases n
  {
    if n == 0 then d else AllRounds(adj, Round(adj, d, fin, U, |U|).dist, fin, U, n - 1)
  }

  /** Rounds from a fixed point of one round change nothing. */
  lemma {:induction false} AllRoundsFixed(adj: Adjacency, d: seq<int>, fin: seq<bool>, U: seq<int>, n: nat)
    requires Closed(adj) && |d| == |adj| && |fin| == |adj| && InRange(U, |adj|)
    requires Round(adj, d, fin, U, |U|).dist == d
    ensures AllRounds(adj, d, fin, U, n) == d
    decreases n
  {
    if n > 0 {
      AllRoundsFixed(adj, d, fin, U, n - 1);
    }
  }

  /**
   * The early exit is exact: stopping after the first round that changes
   * nothing gives the distances all n rounds would give.
   */
  lemma {:induction false} EarlyExitExact(adj: Adjacency, d: seq<int>, fin: seq<bool>, U: seq<int>, n: nat)
    requires Closed(adj) && |d| == |adj| && |fin| == |adj| && InRange(U, |adj|)
    ensures Rounds(adj, d, fin, U, n) == AllRounds(adj, d, fin, U, n)
    decreases n
  {
    if n > 0 {
      var p := Round(adj, d, fin, U, |U|);
      RoundChanged(adj, d, fin, U, |U|);
      if p.changed {
        EarlyExitExact(adj, p.dist, fin, U, n - 1);
      } else {
        AllRoundsFixed(adj, d, fin, U, n - 1);
      }
    }
  }

  /**
   * The queue rebuilt from the first `n` vertices of U: one entry
   * (u, d[u]) for each that is not finalized and has a finite distance
   * (lines 237-242).
   */
  function Rebuilt(U: seq<int>, d: seq<int>, fin: seq<bool>, n: int): (q: seq<DistanceNode>)
    requires InRange(U, |d|) && |fin| == |d| && 0 <= n <= |U|
    ensures forall j :: 0 <= j < |q| ==> 0 <= q[j].vertex < |d|
    decreases n
  {
    if n == 0 then []
    else
      var q := Rebuilt(U, d, fin, n - 1);
      var u := U[n - 1];
      if !fin[u] && d[u] != INF then q + [DistanceNode(u, d[u])] else q
  }

  /** Every entry of q is a vertex of V, not finalized, queued at its finite distance. */
  ghost predicate LiveEntries(q: seq<DistanceNode>, V: seq<int>, d: seq<int>, fin: seq<bool>) {
    forall j :: 0 <= j < |q| ==>
      && q[j].vertex in V && 0 <= q[j].vertex < |d| && q[j].vertex < |fin|
      && !fin[q[j].vertex] && d[q[j].vertex] != INF && q[j].distance == d[q[j].vertex]
  }

  /** Every entry of the rebuilt queue is a live vertex of U[..n] at its current distance. */
  lemma {:induction false} RebuiltEntries(U: seq<int>, d: seq<int>, fin: seq<bool>, n: int)
    requires InRange(U, |d|) && |fin| == |d| && 0 <= n <= |U|
    ensures LiveEntries(Rebuilt(U, d, fin, n), U[..n], d, fin)
    decreases n
  {
    if n > 0 {
      RebuiltEntries(U, d, fin, n - 1);
      var q := Rebuilt(U, d, fin, n - 1);
      assert U[..n] == U[..n - 1] + [U[n - 1]];
      forall j | 0 <= j < |q|
        ensures q[j].vertex in U[..n]
      {
        assert q[j].vertex in U[..n - 1];
      }
    }
  }

  /** Every live vertex of U[..n] has an entry at its current distance. */
  lemma {:induction false} RebuiltCovers(U: seq<int>, d: seq<int>, fin: seq<bool>, n: int)
    requires InRange(U, |d|) && |fin| == |d| && 0 <= n <= |U|
    ensures var q := Rebuilt(U, d, fin, n);
      forall j :: 0 <= j < n && !fin[U[j]] && d[U[j]] != INF ==> DistanceNode(U[j], d[U[j]]) in q
    decreases n
  {
    if n > 0 {
      RebuiltCovers(U, d, fin, n - 1);
    }
  }

  /** The entries of q are in strictly increasing vertex order. */
  ghost predicate VertexOrdered(q: seq<DistanceNode>) {
    forall a, b :: 0 <= a < b < |q| ==> q[a].vertex < q[b].vertex
  }

  /** When U is increasing, the rebuilt queue is in increasing vertex order. */
  lemma {:induction false} RebuiltSorted(U: seq<int>, d: seq<int>, fin: seq<bool>, n: int)
    requires InRange(U, |d|) && |fin| == |d| && 0 <= n <= |U|
    requires forall a, b :: 0 <= a < b < |U| ==> U[a] < U[b]
    ensures VertexOrdered(Rebuilt(U, d, fin, n))
    decreases n
  {
    if n > 0 {
      RebuiltSorted(U, d, fin, n - 1);
      RebuiltEntries(U, d, fin, n - 1);
      var q := Rebuilt(U, d, fin, n - 1);
      forall j | 0 <= j < |q|
        ensures q[j].vertex < U[n - 1]
      {
        assert q[j].vertex in U[..n - 1];
        var a :| 0 <= a < n - 1 && U[a] == q[j].vertex;
      }
      var r := Rebuilt(U, d, fin, n);
      forall a, b | 0 <= a < b < |r|
        ensures r[a].vertex < r[b].vertex
      {
        if b == |q| {
          assert r[a] == q[a] && r[b].vertex == U[n - 1];
        } else {
          assert r[a] == q[a] && r[b] == q[b];
        }
      }
    }
  }

  /**
   * The guard of the reduction (lines 172-208): the candidate list U, or
   * None when the reduction is skipped because the queue is empty, its
   * least distance is the sentinel, U is empty, or U has more than
   * k * |queue| vertices.
   */
  function ReductionSet(adj: Adjacency, k: int, window: int, s: State): (o: Option<seq<int>>)
    requires Shaped(adj, s)
    ensures o.Some? ==> |o.value| > 0 && InRange(o.value, |adj|)
    ensures o.Some? ==> |s.pq| > 0 && |o.value| <= k * |s.pq|
  {
    if |s.pq| == 0 then None
    else
      var least := MinDistance(s.pq, |s.pq|);
      if least == INF then None
      else
        var U := Candidates(s.dist, s.finalized, least + window, |adj|);
        if |U| == 0 || |U| > k * |s.pq| then None else Some(U)
  }

  /**
   * When the guard lets the reduction through, U is increasing and holds
   * exactly the live vertices below B = least queued distance + window,
   * where the least queued distance is finite.
   */
  lemma ReductionSetMembers(adj: Adjacency, k: int, window: int, s: State)
    requires Shaped(adj, s)
    ensures var o := ReductionSet(adj, k, window, s);
      o.Some? ==>
        var least := MinDistance(s.pq, |s.pq|);
        && least < INF
        && (forall a, b :: 0 <= a < b < |o.value| ==> o.value[a] < o.value[b])
        && (forall v :: 0 <= v < |adj| ==>
          (v in o.value <==> !s.finalized[v] && s.dist[v] != INF && s.dist[v] < least + window))
  {
    if |s.pq| > 0 {
      var least := MinDistance(s.pq, |s.pq|);
      CandidatesExact(s.dist, s.finalized, least + window, |adj|);
    }
  }

  /**
   * Which vertices the reduction queues again after its Bellman-Ford
   * rounds: FromU is the code as written (lines 237-242), which queues only
   * the vertices of U; FromLive is the corrected rebuild, which queues
   * every live vertex.
   */
  datatype Rebuild = FromU | FromLive

  /**
   * shrinkFrontier: when the guard lets it through, at most k Bellman-Ford
   * rounds over U, then the queue is replaced by one entry per live vertex
   * of the rebuild pool (lines 172-242).
   */
  function Reduced(adj: Adjacency, k: int, window: int, rebuild: Rebuild, s: State): (r: State)
    requires Closed(adj) && Shaped(adj, s) && k >= 0
    ensures Shaped(adj, r) && r.finalized == s.finalized && r.relaxSteps == s.relaxSteps
    ensures Descends(s.finalized, s.dist, r.dist)
  {
    match ReductionSet(adj, k, window, s)
    case None => s
    case Some(U) =>
      RoundsDescends(adj, s.dist, s.finalized, U, k);
      var d := Rounds(adj, s.dist, s.finalized, U, k);
      var pool := if rebuild == FromU then U else Candidates(d, s.finalized, INF, |adj|);
      s.(dist := d, pq := Rebuilt(pool, d, s.finalized, |pool|))
  }

  /** The reduction reads neither the step counter nor changes it. */
  lemma ReducedIgnoresSteps(adj: Adjacency, k: int, window: int, rebuild: Rebuild, s: State)
    requires Closed(adj) && Shaped(adj, s) && k >= 0
    ensures var r := Reduced(adj, k, window, rebuild, s.(relaxSteps := 0));
      Reduced(adj, k, window, rebuild, s) == r.(relaxSteps := s.relaxSteps)
  {
    assert ReductionSet(adj, k, window, s.(relaxSteps := 0)) == ReductionSet(adj, k, window, s);
  }

  // ---------------------------------------------------------------------
  // One iteration of the main loop
  // ---------------------------------------------------------------------

  /** The state after `poll` has returned entry `i` (line 105). */
  function Popped(s: State, i: int): (r: State)
    requires 0 <= i < |s.pq|
    ensures r.dist == s.dist && r.finalized == s.finalized && r.relaxSteps == s.relaxSteps
    ensures |r.pq| == |s.pq| - 1
  {
    s.(pq := RemoveAt(s.pq, i))
  }

  /** Finalizing `u`, relaxing its edges and counting the step (lines 113-128). */
  function Settled(adj: Adjacency, s: State, u: int): (r: State)
    requires Closed(adj) && Shaped(adj, s) && 0 <= u < |adj|
    ensures Shaped(adj, r) && r.finalized == s.finalized[u := true] && r.relaxSteps == s.relaxSteps + 1
    ensures Descends(r.finalized, s.dist, r.dist)
  {
    var t := RelaxedOut(adj, u, s.(finalized := s.finalized[u := true]), |adj[u]|);
    t.(relaxSteps := t.relaxSteps + 1)
  }

  /**
   * One pass of the main loop, `poll` having returned entry `i`: a stale
   * entry is discarded; otherwise its vertex is settled, and every k-th
   * settlement with a non-empty queue runs the reduction (lines 104-134).
   */
  function Iteration(adj: Adjacency, k: int, window: int, rebuild: Rebuild, s: State, i: int): (r: State)
    requires Closed(adj) && Shaped(adj, s) && 0 <= i < |s.pq| && k >= 1
    ensures Shaped(adj, r)
    ensures r.finalized == s.finalized[s.pq[i].vertex := true]
    ensures r.relaxSteps == s.relaxSteps + if s.finalized[s.pq[i].vertex] then 0 else 1
    ensures Descends(r.finalized, s.dist, r.dist)
  {
    var u := s.pq[i].vertex;
    var p := Popped(s, i);
    if p.finalized[u] then
      assert p.finalized[u := true] == p.finalized;
      p
    else
      var t := Settled(adj, p, u);
      if t.relaxSteps % k == 0 && |t.pq| > 0 then Reduced(adj, k, window, rebuild, t) else t
  }

  /** `t` follows `s` by one iteration that polled a least entry. */
  ghost predicate StepTo(adj: Adjacency, k: int, window: int, rebuild: Rebuild, s: State, t: State) {
    && Closed(adj) && Shaped(adj, s) && k >= 1
    && exists i :: IsMinAt(s.pq, i) && t == Iteration(adj, k, window, rebuild, s, i)
  }

  /** The states of the main loop so far, starting from the initial state. */
  ghost predicate IsTrace(adj: Adjacency, k: int, window: int, rebuild: Rebuild, source: int, trace: seq<State>) {
    && 0 <= source < |adj| && |trace| >= 1 && trace[0] == Initial(|adj|, source)
    && forall j :: 0 <= j < |trace| - 1 ==> StepTo(adj, k, window, rebuild, trace[j], trace[j + 1])
  }

  /** A complete run: a trace that ends with an empty queue. */
  ghost predicate IsRun(adj: Adjacency, k: int, window: int, rebuild: Rebuild, source: int, trace: seq<State>) {
    IsTrace(adj, k, window, rebuild, source, trace) && trace[|trace| - 1].pq == []
  }

  // ---------------------------------------------------------------------
  // Counting finalized vertices
  // ---------------------------------------------------------------------

  function CountFinalized(fin: seq<bool>): (c: nat)
    ensures c <= |fin|
    decreases |fin|
  {
    if |fin| == 0 then 0
    else CountFinalized(fin[..|fin| - 1]) + if fin[|fin| - 1] then 1 else 0
  }

  /** Finalizing one more vertex adds one to the count. */
  lemma {:induction false} CountFinalizedMark(fin: seq<bool>, u: int)
    requires 0 <= u < |fin| && !fin[u]
    ensures CountFinalized(fin[u := true]) == CountFinalized(fin) + 1
    decreases |fin|
  {
    var n := |fin| - 1;
    if u == n {
      assert fin[u := true][..n] == fin[..n];
    } else {
      CountFinalizedMark(fin[..n], u);
      assert fin[u := true][..n] == fin[..n][u := true];
    }
  }

  // ---------------------------------------------------------------------
  // Soundness: every finite distance is the weight of a real path
  // ---------------------------------------------------------------------

  /** Setting dist[v] := dist[u] + w along an edge u -> v keeps the distances sound. */
  lemma SoundAfterUpdate(adj: Adjacency, source: int, d: seq<int>, u: int, i: int)
    requires Sound(adj, source, d) && 0 <= u < |d| && u < |adj| && d[u] < INF
    requires 0 <= i < |adj[u]| && 0 <= adj[u][i].vertex < |d|
    ensures Sound(adj, source, d[adj[u][i].vertex := d[u] + adj[u][i].weight])
  {
    var v := adj[u][i].vertex;
    var d' := d[v := d[u] + adj[u][i].weight];
    forall x | 0 <= x < |d'| && d'[x] < INF
      ensures HasPath(adj, source, x, d'[x])
    {
      if x == v {
        ExtendPath(adj, source, u, d[u], i);
      }
    }
  }

  lemma {:induction false} RelaxedOutSound(adj: Adjacency, source: int, u: int, s: State, j: int)
    requires Closed(adj) && Shaped(adj, s) && 0 <= u < |adj| && 0 <= j <= |adj[u]|
    requires Bounded(s.dist) && Sound(adj, source, s.dist)
    ensures Sound(adj, source, RelaxedOut(adj, u, s, j).dist)
    decreases j
  {
    if j > 0 {
      RelaxedOutSound(adj, source, u, s, j - 1);
      RelaxedOutStepSound(adj, source, u, s, j);
    }
  }

  /** The last relaxation step of RelaxedOut keeps soundness. */
  lemma RelaxedOutStepSound(adj: Adjacency, source: int, u: int, s: State, j: int)
    requires Closed(adj) && Shaped(adj, s) && 0 <= u < |adj| && 0 < j <= |adj[u]| && Bounded(s.dist)
    requires Sound(adj, source, RelaxedOut(adj, u, s, j - 1).dist)
    ensures Sound(adj, source, RelaxedOut(adj, u, s, j).dist)
  {
    var t := RelaxedOut(adj, u, s, j - 1);
    var e := adj[u][j - 1];
    if !t.finalized[e.vertex] && t.dist[u] != INF && t.dist[u] + e.weight < t.dist[e.vertex] {
      assert t.dist[u] <= s.dist[u];
      SoundAfterUpdate(adj, source, t.dist, u, j - 1);
    }
  }

  lemma {:induction false} PassEdgesSound(adj: Adjacency, source: int, u: int, d: seq<int>, fin: seq<bool>, j: int)
    requires Closed(adj) && |d| == |adj| && |fin| == |adj| && 0 <= u < |adj| && 0 <= j <= |adj[u]|
    requires d[u] < INF && Sound(adj, source, d)
    ensures Sound(adj, source, PassEdges(adj, u, d, fin, j).dist)
    decreases j
  {
    if j > 0 {
      PassEdgesSound(adj, source, u, d, fin, j - 1);
      PassEdgesDescends(adj, u, d, fin, j - 1);
      var p := PassEdges(adj, u, d, fin, j - 1);
      var e := adj[u][j - 1];
      if !fin[e.vertex] && p.dist[u] + e.weight < p.dist[e.vertex] {
        SoundAfterUpdate(adj, source, p.dist, u, j - 1);
      }
    }
  }

  lemma {:induction false} RoundSound(adj: Adjacency, source: int, d: seq<int>, fin: seq<bool>, U: seq<int>, x: int)
    requires Closed(adj) && |d| == |adj| && |fin| == |adj| && InRange(U, |adj|) && 0 <= x <= |U|
    requires Bounded(d) && Sound(adj, source, d)
    ensures Sound(adj, source, Round(adj, d, fin, U, x).dist)
    decreases x
  {
    if x > 0 {
      RoundSound(adj, source, d, fin, U, x - 1);
      RoundDescends(adj, d, fin, U, x - 1);
      var p := Round(adj, d, fin, U, x - 1);
      var u := U[x - 1];
      if p.dist[u] != INF {
        PassEdgesSound(adj, source, u, p.dist, fin, |adj[u]|);
      }
    }
  }

  lemma {:induction false} RoundsSound(adj: Adjacency, source: int, d: seq<int>, fin: seq<bool>, U: seq<int>, n: nat)
    requires Closed(adj) && |d| == |adj| && |fin| == |adj| && InRange(U, |adj|)
    requires Bounded(d) && Sound(adj, source, d)
    ensures Sound(adj, source, Rounds(adj, d, fin, U, n))
    decreases n
  {
    if n > 0 {
      RoundSound(adj, source, d, fin, U, |U|);
      RoundDescends(adj, d, fin, U, |U|);
      var p := Round(adj, d, fin, U, |U|);
      if p.changed {
        RoundsSound(adj, source, p.dist, fin, U, n - 1);
      }
    }
  }

  /** The reduction keeps every finite distance the weight of a real path. */
  lemma ReducedSound(adj: Adjacency, source: int, k: int, window: int, rebuild: Rebuild, s: State)
    requires Closed(adj) && Shaped(adj, s) && k >= 0
    requires Bounded(s.dist) && Sound(adj, source, s.dist)
    ensures Sound(adj, source, Reduced(adj, k, window, rebuild, s).dist)
  {
    match ReductionSet(adj, k, window, s)
    case None =>
    case Some(U) => RoundsSound(adj, source, s.dist, s.finalized, U, k);
  }

  // ---------------------------------------------------------------------
  // The invariant of the main loop
  // ---------------------------------------------------------------------

  /**
   * What holds of the state at the top of the main loop: sizes, distances
   * bounded and sound, dist[source] = 0, the source is polled first, and
   * relaxSteps counts the finalized vertices.
   */
  ghost predicate Inv(adj: Adjacency, source: int, s: State) {
    && Closed(adj) && Shaped(adj, s) && 0 <= source < |adj|
    && Bounded(s.dist) && Sound(adj, source, s.dist)
    && s.dist[source] == 0
    && (!s.finalized[source] ==> s.pq == [DistanceNode(source, 0)])
    && s.relaxSteps == CountFinalized(s.finalized)
  }

  /** The state before the main loop satisfies the invariant. */
  lemma InitialInv(adj: Adjacency, source: int)
    requires Closed(adj) && 0 <= source < |adj|
    ensures Inv(adj, source, Initial(|adj|, source))
  {
    var s := Initial(|adj|, source);
    SourcePath(adj, source);
    assert forall v :: 0 <= v < |adj| && s.dist[v] < INF ==> v == source;
    NoneFinalized(|adj|);
  }

  lemma {:induction false} NoneFinalized(n: nat)
    ensures CountFinalized(seq(n, _ => false)) == 0
    decreases n
  {
    if n > 0 {
      assert seq(n, _ => false)[..n - 1] == seq(n - 1, _ => false);
      NoneFinalized(n - 1);
    }
  }

  /**
   * One iteration keeps the invariant, never clears a finalized flag,
   * never raises a distance, never changes the distance of a finalized
   * vertex, and either finalizes one more vertex or shortens the queue.
   */
  lemma IterationSafe(adj: Adjacency, k: int, window: int, rebuild: Rebuild, source: int, s: State, i: int)
    requires Inv(adj, source, s) && 0 <= i < |s.pq| && k >= 1
    ensures var r := Iteration(adj, k, window, rebuild, s, i);
      && Inv(adj, source, r)
      && (forall v :: 0 <= v < |adj| && s.finalized[v] ==> r.finalized[v])
      && Descends(r.finalized, s.dist, r.dist)
      && r.relaxSteps <= |adj|
      && (r.relaxSteps == s.relaxSteps + 1 || (r.relaxSteps == s.relaxSteps && |r.pq| == |s.pq| - 1))
  {
    var u := s.pq[i].vertex;
    var p := Popped(s, i);
    if !p.finalized[u] {
      SettledSafe(adj, source, s, i);
      var t := Settled(adj, p, u);
      if t.relaxSteps % k == 0 && |t.pq| > 0 {
        ReducedSound(adj, source, k, window, rebuild, t);
      }
    }
  }

  /** Settling the vertex of a polled entry keeps the invariant and counts one more finalized vertex. */
  lemma SettledSafe(adj: Adjacency, source: int, s: State, i: int)
    requires Inv(adj, source, s) && 0 <= i < |s.pq| && !s.finalized[s.pq[i].vertex]
    ensures var t := Settled(adj, Popped(s, i), s.pq[i].vertex);
      && Inv(adj, source, t) && t.relaxSteps <= |adj|
  {
    var u := s.pq[i].vertex;
    var p := Popped(s, i);
    CountFinalizedMark(s.finalized, u);
    var f := p.(finalized := p.finalized[u := true]);
    RelaxedOutSound(adj, source, u, f, |adj[u]|);
  }

  /** A trace followed by one more iteration from its last state is a trace. */
  lemma TraceExtend(adj: Adjacency, k: int, window: int, rebuild: Rebuild, source: int, trace: seq<State>, s: State, i: int)
    requires IsTrace(adj, k, window, rebuild, source, trace) && trace[|trace| - 1] == s
    requires Closed(adj) && Shaped(adj, s) && k >= 1 && IsMinAt(s.pq, i)
    ensures IsTrace(adj, k, window, rebuild, source, trace + [Iteration(adj, k, window, rebuild, s, i)])
  {
    var t := trace + [Iteration(adj, k, window, rebuild, s, i)];
    assert StepTo(adj, k, window, rebuild, s, Iteration(adj, k, window, rebuild, s, i));
    forall j | 0 <= j < |t| - 1
      ensures StepTo(adj, k, window, rebuild, t[j], t[j + 1])
    {
      if j < |trace| - 1 {
        assert t[j] == trace[j] && t[j + 1] == trace[j + 1];
      }
    }
  }

  /** Along a trace the invariant holds at every state. */
  lemma {:induction false} TraceInv(adj: Adjacency, k: int, window: int, rebuild: Rebuild, source: int, trace: seq<State>, j: int)
    requires IsTrace(adj, k, window, rebuild, source, trace) && Closed(adj) && 0 <= j < |trace|
    ensures Inv(adj, source, trace[j])
    decreases j
  {
    if j == 0 {
      InitialInv(adj, source);
    } else {
      TraceInv(adj, k, window, rebuild, source, trace, j - 1);
      assert StepTo(adj, k, window, rebuild, trace[j - 1], trace[j]);
      var i :| IsMinAt(trace[j - 1].pq, i) && trace[j] == Iteration(adj, k, window, rebuild, trace[j - 1], i);
      IterationSafe(adj, k, window, rebuild, source, trace[j - 1], i);
    }
  }

  /**
   * Across a trace distances only decrease, finalization is permanent
   * and the distance of a finalized vertex is never overwritten.
   */
  lemma TraceDescends(adj: Adjacency, k: int, window: int, rebuild: Rebuild, source: int, trace: seq<State>, a: int, b: int)
    requires IsTrace(adj, k, window, rebuild, source, trace) && 0 <= a <= b < |trace|
    ensures Keeps(trace[a].finalized, trace[b].finalized)
    ensures Descends(trace[a].finalized, trace[a].dist, trace[b].dist)
  {
    forall j | 0 <= j < |trace| - 1
      ensures Lowers(trace[j], trace[j + 1])
    {
      StepDescends(adj, k, window, rebuild, trace[j], trace[j + 1]);
    }
    LowersAlong(trace, a, b);
  }

  /** `t` keeps every flag of `s` and lowers only distances `t` leaves unflagged. */
  ghost predicate Lowers(s: State, t: State) {
    Keeps(s.finalized, t.finalized) && Descends(t.finalized, s.dist, t.dist)
  }

  /** Lowering at every step composes into lowering from state a to state b. */
  lemma {:induction false} LowersAlong(trace: seq<State>, a: int, b: int)
    requires forall j :: 0 <= j < |trace| - 1 ==> Lowers(trace[j], trace[j + 1])
    requires 0 <= a <= b < |trace|
    ensures Keeps(trace[a].finalized, trace[b].finalized)
    ensures Descends(trace[a].finalized, trace[a].dist, trace[b].dist)
    decreases b - a
  {
    if a < b {
      LowersAlong(trace, a, b - 1);
      var x, y, z := trace[a], trace[b - 1], trace[b];
      assert Lowers(y, z);
      DescendsTrans(x.finalized, y.finalized, z.finalized, x.dist, y.dist, z.dist);
    }
  }

  lemma StepDescends(adj: Adjacency, k: int, window: int, rebuild: Rebuild, s: State, t: State)
    requires StepTo(adj, k, window, rebuild, s, t)
    ensures Shaped(adj, t) && Keeps(s.finalized, t.finalized)
    ensures Descends(t.finalized, s.dist, t.dist)
  {
    var i :| IsMinAt(s.pq, i) && t == Iteration(adj, k, window, rebuild, s, i);
  }

  lemma DescendsTrans(f: seq<bool>, g: seq<bool>, h: seq<bool>, d0: seq<int>, d1: seq<int>, d2: seq<int>)
    requires Keeps(f, g) && Keeps(g, h)
    requires Descends(f, d0, d1) && Descends(h, d1, d2)
    ensures Keeps(f, h) && Descends(f, d0, d2)
  {
  }

  /**
   * The result of a complete run has dist[source] = 0, every entry at
   * most the sentinel, and every finite entry the weight of a real path.
   */
  lemma RunSound(adj: Adjacency, k: int, window: int, rebuild: Rebuild, source: int, trace: seq<State>)
    requires Closed(adj) && IsRun(adj, k, window, rebuild, source, trace)
    ensures var d := trace[|trace| - 1].dist;
      |d| == |adj| && d[source] == 0 && Bounded(d) && Sound(adj, source, d)
  {
    TraceInv(adj, k, window, rebuild, source, trace, |trace| - 1);
  }

  // ---------------------------------------------------------------------
  // Queue coverage, and the corrected rebuild
  // ---------------------------------------------------------------------

  /** Every live vertex (not finalized, finite distance) has a queue entry at its distance. */
  ghost predicate Covered(s: State) {
    forall v :: 0 <= v < |s.dist| && v < |s.finalized| && !s.finalized[v] && s.dist[v] < INF ==>
      DistanceNode(v, s.dist[v]) in s.pq
  }

  /**
   * The main loop itself keeps every live vertex queued: discarding a
   * stale entry, and settling a vertex, both preserve coverage.
   */
  lemma CoveredBeforeReduction(adj: Adjacency, s: State, i: int)
    requires Closed(adj) && Shaped(adj, s) && 0 <= i < |s.pq| && Bounded(s.dist) && Covered(s)
    ensures var u := s.pq[i].vertex;
      if s.finalized[u] then Covered(Popped(s, i)) else Covered(Settled(adj, Popped(s, i), u))
  {
    var u := s.pq[i].vertex;
    var p := Popped(s, i);
    forall v | 0 <= v < |p.dist| && !p.finalized[v] && p.dist[v] < INF && v != u
      ensures DistanceNode(v, p.dist[v]) in p.pq
    {
      RemoveAtMultiset(s.pq, i);
      assert DistanceNode(v, p.dist[v]) in multiset(s.pq);
    }
    if !s.finalized[u] {
      var f := p.(finalized := p.finalized[u := true]);
      var r := Settled(adj, p, u);
      forall v | 0 <= v < |r.dist| && !r.finalized[v] && r.dist[v] < INF
        ensures DistanceNode(v, r.dist[v]) in r.pq
      {
        var t := RelaxedOut(adj, u, f, |adj[u]|);
        RelaxedOutQueues(adj, u, f, |adj[u]|);
        if r.dist[v] == f.dist[v] {
          assert DistanceNode(v, f.dist[v]) in f.pq;
          assert t.pq[..|f.pq|] == f.pq;
        }
      }
    }
  }

  /** The corrected reduction keeps every live vertex queued at its current distance. */
  lemma CorrectedReductionKeepsCovered(adj: Adjacency, k: int, window: int, s: State)
    requires Closed(adj) && Shaped(adj, s) && k >= 0 && Covered(s)
    ensures Covered(Reduced(adj, k, window, FromLive, s))
  {
    match ReductionSet(adj, k, window, s)
    case None =>
    case Some(U) =>
      var d := Rounds(adj, s.dist, s.finalized, U, k);
      var live := Candidates(d, s.finalized, INF, |adj|);
      var r := Reduced(adj, k, window, FromLive, s);
      CandidatesExact(d, s.finalized, INF, |adj|);
      RebuiltCovers(live, d, s.finalized, |live|);
      forall v | 0 <= v < |r.dist| && !r.finalized[v] && r.dist[v] < INF
        ensures DistanceNode(v, r.dist[v]) in r.pq
      {
        assert v in live;
        var j :| 0 <= j < |live| && live[j] == v;
      }
  }
}
