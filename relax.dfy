/**
 * What Dijkstra and A* of src/algorithms.c share: the saturating store of a
 * relaxed distance, and the reading of their parent tables, where each
 * vertex hangs from its parent through a non-negative edge that costs no
 * more than the difference of their distances.
 */
module Relaxation {
  import opened Graphs
  import opened Paths

  /**
   * `(new_dist > INT_MAX) ? INT_MAX : (int)new_dist` on the 64-bit sum of a
   * distance and a weight: the result fits an int, and it is the sum
   * whenever the sum fits.
   */
  function Saturate(x: int): (r: int)
    ensures r <= INT_MAX
    ensures x <= INT_MAX ==> r == x
    ensures x > INT_MAX ==> r == INT_MAX
  {
    if x > INT_MAX then INT_MAX else x
  }

  /**
   * An improving relaxation never saturates: when the sum is below a stored
   * distance, which is at most INT_MAX, the stored value is the sum itself.
   */
  lemma SaturateDead(sum: int, old_dist: int)
    requires old_dist <= INT_MAX && sum < old_dist
    ensures Saturate(sum) == sum && sum < INT_MAX
  {
  }

  /** No walk without negative edges reaches `x` for less than dist[x]. */
  ghost predicate LowerBound(adj: AdjLists, start: int, dist: seq<int>, x: int)
    requires 0 <= x < |dist|
  {
    forall vs, ws :: NonNegWalk(adj, vs, ws, start, x) ==> Sum(ws) >= dist[x]
  }

  /**
   * `x`'s parent lies in the table and an edge of some non-negative weight
   * `w` leads from it to `x` with dist[parent[x]] + w <= dist[x].
   */
  ghost predicate TreeEdge(adj: AdjLists, parent: seq<int>, dist: seq<int>, x: int)
    requires 0 <= x < |parent| && |dist| == |parent|
  {
    0 <= parent[x] < |parent| &&
    exists w :: w >= 0 && HasWeightedEdge(adj, parent[x], x, w) && dist[parent[x]] + w <= dist[x]
  }

  /**
   * A parent chain from `start` made of such edges is a walk that takes no
   * negative edge and costs at most the difference of the distances at its
   * ends.
   */
  lemma {:induction false} ChainWalk(adj: AdjLists, parent: seq<int>, dist: seq<int>, start: int, p: seq<int>)
    returns (ws: seq<int>)
    requires |dist| == |parent| && 0 <= start < |adj| && |p| >= 1 && p[0] == start
    requires forall i :: 0 <= i < |p| ==> 0 <= p[i] < |parent|
    requires forall i :: 0 < i < |p| ==> TreeEdge(adj, parent, dist, p[i])
    requires forall i {:trigger parent[p[i + 1]]} :: 0 <= i < |p| - 1 ==> p[i] == parent[p[i + 1]]
    ensures NonNegWalk(adj, p, ws, start, p[|p| - 1])
    ensures Sum(ws) <= dist[p[|p| - 1]] - dist[start]
    decreases |p|
  {
    if |p| == 1 {
      ws := [];
    } else {
      var q := p[..|p| - 1];
      var x := p[|p| - 1];
      assert forall i {:trigger parent[q[i + 1]]} :: 0 <= i < |q| - 1 ==> q[i] == parent[q[i + 1]] by {
        forall i | 0 <= i < |q| - 1 ensures q[i] == parent[q[i + 1]] {
          assert p[i] == parent[p[i + 1]];
        }
      }
      var qs := ChainWalk(adj, parent, dist, start, q);
      assert parent[x] == q[|q| - 1] by {
        var k := |p| - 2;
        assert p[k] == parent[p[k + 1]];
      }
      assert TreeEdge(adj, parent, dist, x);
      var w :| w >= 0 && HasWeightedEdge(adj, parent[x], x, w) && dist[parent[x]] + w <= dist[x];
      WalkExtend(adj, q, qs, x, w);
      assert p == q + [x];
      ws := qs + [w];
      assert forall i :: 0 <= i < |ws| ==> ws[i] >= 0 by {
        forall i | 0 <= i < |ws| ensures ws[i] >= 0 {
          if i < |qs| {
            assert ws[i] == qs[i];
          }
        }
      }
    }
  }

  /**
   * `d` is what Dijkstra, and A* with a consistent heuristic, return as the
   * distance: the cost of some walk from start to goal over non-negative
   * edges, and no such walk costs less.
   */
  ghost predicate LeastCost(adj: AdjLists, start: int, goal: int, d: int)
  {
    (exists vs, ws :: NonNegWalk(adj, vs, ws, start, goal) && Sum(ws) == d) &&
    forall vs, ws :: NonNegWalk(adj, vs, ws, start, goal) ==> Sum(ws) >= d
  }

  /**
   * There is only one such cost, so Dijkstra and A* with the NULL
   * heuristic return the same distance whenever both find a path.
   */
  lemma LeastCostUnique(adj: AdjLists, start: int, goal: int, d1: int, d2: int)
    requires LeastCost(adj, start, goal, d1) && LeastCost(adj, start, goal, d2)
    ensures d1 == d2
  {
    var vs1, ws1 :| NonNegWalk(adj, vs1, ws1, start, goal) && Sum(ws1) == d1;
    var vs2, ws2 :| NonNegWalk(adj, vs2, ws2, start, goal) && Sum(ws2) == d2;
    assert Sum(ws1) >= d2 && Sum(ws2) >= d1;
  }
}
