/**
 * The graph store: a directed, weighted graph kept as one adjacency list
 * per vertex (src/dijkstra/improved/Graph.java).
 */
module GraphStore {

  /** One outgoing edge: its destination vertex and its weight. */
  datatype Node = Node(vertex: int, weight: int)

  /** Adjacency lists, indexed by source vertex, each in insertion order. */
  type Adjacency = seq<seq<Node>>

  /** Every edge of `adj` leads to a vertex of the graph. */
  ghost predicate Closed(adj: Adjacency) {
    forall u, i :: 0 <= u < |adj| && 0 <= i < |adj[u]| ==> 0 <= adj[u][i].vertex < |adj|
  }

  class Graph {
    var vertices: int
    var adjList: Adjacency

    /** There is one adjacency list per vertex (none for a negative count). */
    ghost predicate Valid()
      reads this
    {
      |adjList| == if vertices < 0 then 0 else vertices
    }

    /** A graph with `vertices` vertices and no edges. */
    constructor (vertices: int)
      ensures Valid() && this.vertices == vertices
      ensures forall u :: 0 <= u < |adjList| ==> adjList[u] == []
    {
      this.vertices := vertices;
      var lists: Adjacency := [];
      var i := 0;
      while i < vertices
        invariant i == 0 || i <= vertices
        invariant 0 <= i
        invariant |lists| == i
        invariant forall u :: 0 <= u < i ==> lists[u] == []
      {
        lists := lists + [[]];
        i := i + 1;
      }
      adjList := lists;
    }

    /**
     * Appends the edge u -> v of the given weight at the end of u's list.
     * The weight is documented as non-negative; the index u must name a
     * vertex, since the list lookup fails otherwise.
     */
    method AddEdge(u: int, v: int, weight: int)
      requires Valid() && 0 <= u < vertices && weight >= 0
      modifies this
      ensures Valid() && vertices == old(vertices)
      ensures |adjList[u]| == |old(adjList)[u]| + 1
      ensures adjList[u][..|adjList[u]| - 1] == old(adjList)[u]
      ensures adjList[u][|adjList[u]| - 1] == Node(v, weight)
      ensures forall w :: 0 <= w < |adjList| && w != u ==> adjList[w] == old(adjList)[w]
      ensures old(Closed(adjList)) && 0 <= v < vertices ==> Closed(adjList)
    {
      adjList := adjList[u := adjList[u] + [Node(v, weight)]];
    }

    /** The vertex count given to the constructor. */
    function GetVertices(): (n: int)
      reads this
      requires Valid()
      ensures n == vertices && (n >= 0 ==> n == |adjList|)
    {
      vertices
    }

    /** The stored adjacency lists, reflecting every edge added so far. */
    function GetAdjList(): (adj: Adjacency)
      reads this
      requires Valid()
      ensures adj == adjList && |adj| == if vertices < 0 then 0 else vertices
    {
      adjList
    }
  }
}
