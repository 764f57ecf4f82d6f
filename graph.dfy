/**
 * The graph store of src/graph.c: a fixed number of vertices, one outgoing
 * edge list per vertex and an optional name per vertex.
 *
 * A C linked edge list becomes a sequence whose index 0 is the list head, so
 * inserting at the head is prepending.  Vertex names are C strings; a NULL
 * name is `None`.
 */
module Graphs {
  import opened Wrappers

  /** The range of C's 32-bit `int`. */
  const INT_MIN: int := -0x8000_0000
  const INT_MAX: int := 0x7fff_ffff

  type Int32 = x: int | INT_MIN <= x <= INT_MAX

  /** An edge as stored in the source vertex's list: destination and weight. */
  datatype Edge = Edge(to: int, weight: Int32)

  /** The edge lists as a value: adj[u] holds u's outgoing edges, newest first. */
  type AdjLists = seq<seq<Edge>>

  /** Every edge leads to a vertex of the graph. */
  ghost predicate EdgesInRange(adj: AdjLists)
  {
    forall u, k :: 0 <= u < |adj| && 0 <= k < |adj[u]| ==> 0 <= adj[u][k].to < |adj|
  }

  /**
   * The lists after `addWeightedEdge(source, destination, weight, undirected)`
   * with both endpoints in range: the forward edge is prepended to the
   * source's list and, for an undirected insert, the reverse edge is then
   * prepended to the destination's list.
   */
  function WithEdge(adj: AdjLists, source: int, destination: int, weight: Int32, undirected: bool): (r: AdjLists)
    requires 0 <= source < |adj| && 0 <= destination < |adj|
    ensures |r| == |adj|
    ensures EdgesInRange(adj) ==> EdgesInRange(r)
    ensures |r[source]| == |adj[source]| + (if undirected && source == destination then 2 else 1)
    ensures undirected ==> |r[destination]| == |adj[destination]| + (if source == destination then 2 else 1)
    ensures r[source][0] == Edge(destination, weight) || (undirected && source == destination)
    ensures !undirected || source != destination ==> r[source][1..] == adj[source]
    ensures undirected ==> r[destination][0] == Edge(source, weight)
    ensures undirected && source != destination ==> r[destination][1..] == adj[destination]
    ensures undirected && source == destination ==>
              r[source] == [Edge(source, weight), Edge(source, weight)] + adj[source]
    ensures forall i :: 0 <= i < |adj| && i != source && (!undirected || i != destination) ==> r[i] == adj[i]
  {
    var forward := adj[source := [Edge(destination, weight)] + adj[source]];
    if undirected then forward[destination := [Edge(source, weight)] + forward[destination]] else forward
  }

  class Graph {
    const numVertices: int
    var adj: AdjLists
    var names: seq<Option<string>>

    ghost predicate Valid()
      reads this
    {
      0 < numVertices <= INT_MAX &&
      |adj| == numVertices && |names| == numVertices &&
      EdgesInRange(adj)
    }

    /** A graph with `vertices` vertices, no edges and no names. */
    constructor (vertices: int)
      requires 0 < vertices <= INT_MAX
      ensures Valid() && numVertices == vertices
      ensures forall i :: 0 <= i < vertices ==> adj[i] == [] && names[i] == None
    {
      numVertices := vertices;
      adj := seq(vertices, _ => []);
      names := seq(vertices, _ => None);
    }
  }

  /** createGraph: NULL for a non-positive vertex count, otherwise an empty graph. */
  method CreateGraph(vertices: Int32) returns (g: Graph?)
    ensures vertices <= 0 ==> g == null
    ensures vertices > 0 ==> g != null && fresh(g) && g.Valid() && g.numVertices == vertices
    ensures vertices > 0 ==> forall i :: 0 <= i < vertices ==> g.adj[i] == [] && g.names[i] == None
  {
    if vertices <= 0 {
      return null;
    }
    g := new Graph(vertices);
  }

  /**
   * addWeightedEdge: a NULL graph or an endpoint outside [0, numVertices)
   * leaves everything as it was; otherwise the edge lists become WithEdge.
   * Names never change.
   */
  method AddWeightedEdge(g: Graph?, source: int, destination: int, weight: Int32, undirected: bool)
    requires g != null ==> g.Valid()
    modifies g
    ensures g != null ==> g.Valid() && g.names == old(g.names)
    ensures g != null && !(0 <= source < g.numVertices && 0 <= destination < g.numVertices) ==>
              g.adj == old(g.adj)
    ensures g != null && 0 <= source < g.numVertices && 0 <= destination < g.numVertices ==>
              g.adj == WithEdge(old(g.adj), source, destination, weight, undirected)
  {
    if g == null {
      return;
    }
    if source < 0 || destination < 0 || source >= g.numVertices || destination >= g.numVertices {
      return;
    }
    g.adj := g.adj[source := [Edge(destination, weight)] + g.adj[source]];
    if undirected {
      g.adj := g.adj[destination := [Edge(source, weight)] + g.adj[destination]];
    }
  }

  /** addEdge: addWeightedEdge with weight 1. */
  method AddEdge(g: Graph?, source: int, destination: int, undirected: bool)
    requires g != null ==> g.Valid()
    modifies g
    ensures g != null ==> g.Valid() && g.names == old(g.names)
    ensures g != null && !(0 <= source < g.numVertices && 0 <= destination < g.numVertices) ==>
              g.adj == old(g.adj)
    ensures g != null && 0 <= source < g.numVertices && 0 <= destination < g.numVertices ==>
              g.adj == WithEdge(old(g.adj), source, destination, 1, undirected)
  {
    AddWeightedEdge(g, source, destination, 1, undirected);
  }

  /**
   * graphSetName: overwrites the name of vertex `id`.  A NULL graph, a NULL
   * name or an id outside [0, numVertices) changes nothing; in particular a
   * NULL name does not clear a name already set.
   */
  method GraphSetName(g: Graph?, id: int, name: Option<string>)
    requires g != null ==> g.Valid()
    modifies g
    ensures g != null ==> g.Valid() && g.adj == old(g.adj)
    ensures g != null && (name == None || !(0 <= id < g.numVertices)) ==> g.names == old(g.names)
    ensures g != null && name != None && 0 <= id < g.numVertices ==> g.names == old(g.names)[id := name]
  {
    if g == null || name == None || id < 0 || id >= g.numVertices {
      return;
    }
    g.names := g.names[id := name];
  }

  /** graphGetName: NULL for a NULL graph or an id out of range, otherwise the stored name. */
  function GraphGetName(g: Graph?, id: int): (r: Option<string>)
    requires g != null ==> g.Valid()
    reads g
    ensures g == null || !(0 <= id < g.numVertices) ==> r == None
    ensures g != null && 0 <= id < g.numVertices ==> r == g.names[id]
  {
    if g == null || id < 0 || id >= g.numVertices then None else g.names[id]
  }

  /**
   * graph_find_vertex_by_name: the smallest vertex whose name equals `name`
   * exactly (case-sensitively), or -1 when the graph or the name is NULL or
   * no vertex has that name.
   */
  method FindVertexByName(g: Graph?, name: Option<string>) returns (r: int)
    requires g != null ==> g.Valid()
    ensures g == null || name == None ==> r == -1
    ensures g != null && name != None ==> -1 <= r < g.numVertices
    ensures g != null && name != None && r == -1 ==> forall i :: 0 <= i < g.numVertices ==> g.names[i] != name
    ensures g != null && name != None && r >= 0 ==>
              g.names[r] == name && forall i :: 0 <= i < r ==> g.names[i] != name
  {
    if g == null || name == None {
      return -1;
    }
    var i := 0;
    while i < g.numVertices
      invariant 0 <= i <= g.numVertices
      invariant forall j :: 0 <= j < i ==> g.names[j] != name
    {
      if g.names[i] != None && g.names[i] == name {
        return i;
      }
      i := i + 1;
    }
    return -1;
  }
}
