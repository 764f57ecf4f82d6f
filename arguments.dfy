/**
 * The argument screening every search of src/algorithms.c does before any
 * work.  NULL output pointers are not modelled: the output buffers are
 * always present.
 */
module Arguments {
  import opened Graphs

  /** An endpoint outside [0, numVertices), or a NULL graph. */
  predicate BadEndpoints(g: Graph?, start: int, goal: int)
    reads g
  {
    g == null || start < 0 || goal < 0 || start >= g.numVertices || goal >= g.numVertices
  }

  /** The screen of BFS, DFS, Dijkstra and A*: bad endpoints, or room for fewer than 2 vertices. */
  predicate BadArguments(g: Graph?, start: int, goal: int, maxPathLen: int)
    reads g
  {
    BadEndpoints(g, start, goal) || maxPathLen < 2
  }
}
