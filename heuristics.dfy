/**
 * The integer grid heuristic of src/algorithms.c and the property of a
 * heuristic that makes A* optimal.  Vertex ids are read as cells of a grid
 * GRID_WIDTH wide, row by row: id a is column a % GRID_WIDTH of row
 * a / GRID_WIDTH, with C's division, which truncates toward zero.
 */
module Heuristics {
  import opened Wrappers
  import opened Graphs

  const GRID_WIDTH: int := 5

  /** C's `/` by GRID_WIDTH: the quotient truncated toward zero. */
  function Row(a: int): int
  {
    if a >= 0 then a / GRID_WIDTH else -((-a) / GRID_WIDTH)
  }

  /** C's `%` by GRID_WIDTH: what is left once Row(a) rows are taken away, with the sign of a. */
  function Column(a: int): (c: int)
    ensures a == Row(a) * GRID_WIDTH + c
    ensures -GRID_WIDTH < c < GRID_WIDTH
    ensures a >= 0 ==> 0 <= c
  {
    a - Row(a) * GRID_WIDTH
  }

  function Abs(x: int): int
  {
    if x < 0 then -x else x
  }

  /**
   * simple_manhattan_heuristic: the number of steps between two cells of
   * the grid moving along rows and columns.  It is never negative, and it
   * is zero exactly when the two ids are the same.  For ids of 32-bit ints
   * the row difference is below 2^32 / 5, so the C sum does not overflow.
   */
  function SimpleManhattanHeuristic(a: int, b: int): (r: int)
    ensures r >= 0
    ensures r == 0 <==> a == b
  {
    var aCol, aRow := Column(a), Row(a);
    var bCol, bRow := Column(b), Row(b);
    Abs(aCol - bCol) + Abs(aRow - bRow)
  }

  /** The heuristic does not depend on the order of its arguments. */
  lemma ManhattanSymmetric(a: int, b: int)
    ensures SimpleManhattanHeuristic(a, b) == SimpleManhattanHeuristic(b, a)
  {
  }

  /** Going through a third cell is never shorter. */
  lemma ManhattanTriangle(a: int, b: int, c: int)
    ensures SimpleManhattanHeuristic(a, c) <= SimpleManhattanHeuristic(a, b) + SimpleManhattanHeuristic(b, c)
  {
  }

  /** Neighbouring cells of one row, or of one column, are one step apart. */
  lemma ManhattanNeighbours(a: int)
    requires a >= 0
    ensures Column(a) < GRID_WIDTH - 1 ==> SimpleManhattanHeuristic(a, a + 1) == 1
    ensures SimpleManhattanHeuristic(a, a + GRID_WIDTH) == 1
  {
    assert Row(a + GRID_WIDTH) == Row(a) + 1;
    if Column(a) < GRID_WIDTH - 1 {
      assert Row(a + 1) == Row(a);
    }
  }

  /**
   * The heuristic A* uses for vertex x: heuristic(x, goal), or 0 for a NULL
   * heuristic.
   */
  function GoalHeuristic(heuristic: Option<(int, int) -> int>, goal: int): int -> int
  {
    match heuristic
    case None => (_ => 0)
    case Some(f) => (x => f(x, goal))
  }

  /**
   * A heuristic is consistent on a graph when crossing any non-negative
   * edge lowers it by no more than the edge's weight.  (A* does not take
   * negative edges.)
   */
  ghost predicate Consistent(adj: AdjLists, h: int -> int)
  {
    forall u, k :: 0 <= u < |adj| && 0 <= k < |adj[u]| && adj[u][k].weight >= 0 ==>
      h(u) <= adj[u][k].weight + h(adj[u][k].to)
  }

  /** The NULL heuristic is consistent on every graph. */
  lemma NullConsistent(adj: AdjLists, goal: int)
    ensures Consistent(adj, GoalHeuristic(None, goal))
  {
  }

  /**
   * The grid heuristic towards `goal` is consistent on a graph where every
   * non-negative edge weighs at least the grid distance between its ends,
   * as on a grid of width GRID_WIDTH linking neighbouring cells with
   * positive integer weights.
   */
  lemma ManhattanConsistent(adj: AdjLists, goal: int)
    requires forall u, k :: 0 <= u < |adj| && 0 <= k < |adj[u]| && adj[u][k].weight >= 0 ==>
               SimpleManhattanHeuristic(u, adj[u][k].to) <= adj[u][k].weight
    ensures Consistent(adj, GoalHeuristic(Some(SimpleManhattanHeuristic), goal))
  {
    var h := GoalHeuristic(Some(SimpleManhattanHeuristic), goal);
    forall u, k | 0 <= u < |adj| && 0 <= k < |adj[u]| && adj[u][k].weight >= 0
      ensures h(u) <= adj[u][k].weight + h(adj[u][k].to)
    {
      ManhattanTriangle(u, adj[u][k].to, goal);
    }
  }
}
