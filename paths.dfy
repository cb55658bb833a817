/**
 * Paths through an adjacency-list graph and their total weights: the
 * meaning against which the distances of the search are checked.
 */
module Paths {
  import opened GraphStore

  /** A step along the `index`-th edge in the adjacency list of `from`. */
  datatype Hop = Hop(from: int, index: int)

  ghost predicate IsEdge(adj: Adjacency, h: Hop) {
    0 <= h.from < |adj| && 0 <= h.index < |adj[h.from]|
  }

  /** `p` is a chain of edges leading from `source` to `target`. */
  ghost predicate IsPath(adj: Adjacency, source: int, target: int, p: seq<Hop>)
    decreases |p|
  {
    if |p| == 0 then target == source
    else
      var h := p[|p| - 1];
      IsEdge(adj, h) && adj[h.from][h.index].vertex == target
      && IsPath(adj, source, h.from, p[..|p| - 1])
  }

  /** The sum of the weights of the edges along `p`. */
  ghost function Weight(adj: Adjacency, p: seq<Hop>): int
    decreases |p|
  {
    if |p| == 0 then 0
    else
      var h := p[|p| - 1];
      Weight(adj, p[..|p| - 1]) + (if IsEdge(adj, h) then adj[h.from][h.index].weight else 0)
  }

  /** Some path from `source` to `target` has total weight `w`. */
  ghost predicate HasPath(adj: Adjacency, source: int, target: int, w: int) {
    exists p :: IsPath(adj, source, target, p) && Weight(adj, p) == w
  }

  /** The empty path: the source reaches itself at weight 0. */
  lemma SourcePath(adj: Adjacency, source: int)
    ensures HasPath(adj, source, source, 0)
  {
    assert IsPath(adj, source, source, []) && Weight(adj, []) == 0;
  }

  /** A path to `u` followed by an edge out of `u` is a path to that edge's destination. */
  lemma {:induction false} ExtendPath(adj: Adjacency, source: int, u: int, w: int, i: int)
    requires HasPath(adj, source, u, w)
    requires 0 <= u < |adj| && 0 <= i < |adj[u]|
    ensures HasPath(adj, source, adj[u][i].vertex, w + adj[u][i].weight)
  {
    var p :| IsPath(adj, source, u, p) && Weight(adj, p) == w;
    var q := p + [Hop(u, i)];
    assert q[..|q| - 1] == p;
    assert IsPath(adj, source, adj[u][i].vertex, q);
  }
}
