/**
 * dijkstra_shortest_path of src/algorithms.c: the O(V^2) form that, n
 * times, settles the unsettled vertex with the smallest finite distance
 * (the lowest index among equals) and relaxes its non-negative edges,
 * stopping early when nothing finite is left or the goal is settled.
 * INT_MAX stands for "no distance yet".
 *
 * The proof stamps every settled vertex with the round in which it was
 * settled (a ghost table) and keeps the textbook invariants: settled
 * distances are optimal, every edge out of a settled vertex is relaxed, and
 * settled distances are at most unsettled ones.
 */
module Dijkstra {
  import opened Wrappers
  import opened Graphs
  import opened Paths
  import opened Reconstruct
  import opened Relaxation
  import opened Arguments

  /** Sizes, ranges, dist[start] == 0, and finite distances for settled vertices. */
  ghost predicate Basics(adj: AdjLists, start: int, dist: seq<int>, parent: seq<int>, vis: seq<bool>, ord: seq<nat>)
  {
    EdgesInRange(adj) && 0 <= start < |adj| &&
    |dist| == |adj| && |parent| == |adj| && |vis| == |adj| && |ord| == |adj| &&
    ParentsInRange(parent) && dist[start] == 0 &&
    (forall x :: 0 <= x < |adj| ==> 0 <= dist[x] <= INT_MAX) &&
    (forall x :: 0 <= x < |adj| && vis[x] ==> dist[x] < INT_MAX)
  }

  /**
   * Every vertex other than start with a finite distance hangs from a
   * settled vertex through an edge whose weight is the difference of their
   * distances; a settled vertex was settled after its parent.
   */
  ghost predicate Tree(adj: AdjLists, start: int, dist: seq<int>, parent: seq<int>, vis: seq<bool>, ord: seq<nat>)
    requires Basics(adj, start, dist, parent, vis, ord)
  {
    forall x {:trigger parent[x]} :: 0 <= x < |adj| && x != start && dist[x] < INT_MAX ==>
      0 <= parent[x] < |adj| && vis[parent[x]] && dist[parent[x]] <= dist[x] &&
      HasWeightedEdge(adj, parent[x], x, dist[x] - dist[parent[x]]) &&
      (vis[x] ==> ord[parent[x]] < ord[x])
  }

  /** Settled vertices carry stamps below `count`. */
  ghost predicate Stamped(vis: seq<bool>, ord: seq<nat>, count: int)
    requires |vis| == |ord|
  {
    forall x :: 0 <= x < |vis| && vis[x] ==> ord[x] < count
  }

  /** Settled distances are optimal. */
  ghost predicate Settled(adj: AdjLists, start: int, dist: seq<int>, vis: seq<bool>)
    requires |vis| == |dist|
  {
    forall x :: 0 <= x < |dist| && vis[x] ==> LowerBound(adj, start, dist, x)
  }

  /**
   * Every non-negative edge from a settled vertex other than `cur` to an
   * unsettled one is relaxed.
   */
  ghost predicate Relaxed(adj: AdjLists, dist: seq<int>, vis: seq<bool>, cur: int)
    requires EdgesInRange(adj) && |dist| == |adj| && |vis| == |adj|
  {
    forall u, k :: 0 <= u < |adj| && vis[u] && u != cur && 0 <= k < |adj[u]| &&
                   adj[u][k].weight >= 0 && !vis[adj[u][k].to] ==>
      dist[adj[u][k].to] <= dist[u] + adj[u][k].weight
  }

  /** Settled distances are at most unsettled ones. */
  ghost predicate Ordered(dist: seq<int>, vis: seq<bool>)
    requires |vis| == |dist|
  {
    forall u, x :: 0 <= u < |dist| && 0 <= x < |dist| && vis[u] && !vis[x] ==> dist[u] <= dist[x]
  }

  /**
   * The state of the search; `cur` is the vertex whose edges are being
   * relaxed (-1 between rounds), which has the largest settled distance.
   */
  ghost predicate Inv(adj: AdjLists, start: int, dist: seq<int>, parent: seq<int>, vis: seq<bool>, ord: seq<nat>,
                      count: int, cur: int)
  {
    Basics(adj, start, dist, parent, vis, ord) && Tree(adj, start, dist, parent, vis, ord) &&
    Stamped(vis, ord, count) && Settled(adj, start, dist, vis) && Relaxed(adj, dist, vis, cur) &&
    Ordered(dist, vis) &&
    (cur != -1 ==> 0 <= cur < |adj| && vis[cur] && forall y :: 0 <= y < |adj| && vis[y] ==> dist[y] <= dist[cur])
  }

  /** Edges 0..e-1 of `u` are relaxed. */
  ghost predicate EdgesDone(adj: AdjLists, dist: seq<int>, vis: seq<bool>, u: int, e: int)
    requires EdgesInRange(adj) && |dist| == |adj| && |vis| == |adj| && 0 <= u < |adj| && e <= |adj[u]|
  {
    forall j :: 0 <= j < e && adj[u][j].weight >= 0 && !vis[adj[u][j].to] ==>
      dist[adj[u][j].to] <= dist[u] + adj[u][j].weight
  }

  /**
   * A walk without negative edges that ends at an unsettled vertex passes
   * an unsettled vertex `y` whose distance is at most the walk's cost.
   */
  lemma {:induction false} FirstUnsettled(adj: AdjLists, start: int, dist: seq<int>, parent: seq<int>, vis: seq<bool>,
                                          ord: seq<nat>, count: int, vs: seq<int>, ws: seq<int>)
    returns (y: int)
    requires Inv(adj, start, dist, parent, vis, ord, count, -1)
    requires |vs| >= 1 && 0 <= vs[|vs| - 1] < |adj| && !vis[vs[|vs| - 1]]
    requires NonNegWalk(adj, vs, ws, start, vs[|vs| - 1])
    ensures 0 <= y < |adj| && !vis[y] && dist[y] <= Sum(ws)
    decreases |vs|
  {
    if |ws| == 0 {
      y := start;
    } else {
      WalkPrefix(adj, vs, ws);
      var pv, pw := vs[..|vs| - 1], ws[..|ws| - 1];
      var z, x, w := vs[|vs| - 2], vs[|vs| - 1], ws[|ws| - 1];
      assert w >= 0;
      assert forall i :: 0 <= i < |pw| ==> pw[i] >= 0 by {
        forall i | 0 <= i < |pw| ensures pw[i] >= 0 {
          assert pw[i] == ws[i];
        }
      }
      assert NonNegWalk(adj, pv, pw, start, z);
      PathInRange(adj, pv) by {
        WalkIsPath(adj, pv, pw);
      }
      assert 0 <= pv[|pv| - 1] < |adj|;
      if vis[z] {
        assert LowerBound(adj, start, dist, z);
        var k :| 0 <= k < |adj[z]| && adj[z][k].to == x && adj[z][k].weight == w;
        y := x;
      } else {
        y := FirstUnsettled(adj, start, dist, parent, vis, ord, count, pv, pw);
      }
    }
  }

  /** The vertex a round selects has an optimal distance. */
  lemma MinIsOptimal(adj: AdjLists, start: int, dist: seq<int>, parent: seq<int>, vis: seq<bool>, ord: seq<nat>,
                     count: int, u: int)
    requires Inv(adj, start, dist, parent, vis, ord, count, -1)
    requires 0 <= u < |adj| && !vis[u] && forall x :: 0 <= x < |adj| && !vis[x] ==> dist[u] <= dist[x]
    ensures LowerBound(adj, start, dist, u)
  {
    forall vs, ws | NonNegWalk(adj, vs, ws, start, u) ensures Sum(ws) >= dist[u] {
      var y := FirstUnsettled(adj, start, dist, parent, vis, ord, count, vs, ws);
    }
  }

  /** When no unsettled vertex has a finite distance, every distance is a lower bound. */
  lemma Exhausted(adj: AdjLists, start: int, dist: seq<int>, parent: seq<int>, vis: seq<bool>, ord: seq<nat>,
                  count: int, goal: int)
    requires Inv(adj, start, dist, parent, vis, ord, count, -1) && 0 <= goal < |adj|
    requires forall x :: 0 <= x < |adj| && !vis[x] ==> dist[x] >= INT_MAX
    ensures LowerBound(adj, start, dist, goal)
  {
    if !vis[goal] {
      forall vs, ws | NonNegWalk(adj, vs, ws, start, goal) ensures Sum(ws) >= dist[goal] {
        var y := FirstUnsettled(adj, start, dist, parent, vis, ord, count, vs, ws);
      }
    }
  }

  /** The state before the first round: only start has a distance, nothing is settled. */
  lemma Start(adj: AdjLists, start: int, dist: seq<int>, parent: seq<int>, vis: seq<bool>, ord: seq<nat>)
    requires EdgesInRange(adj) && 0 <= start < |adj|
    requires |dist| == |adj| && |parent| == |adj| && |vis| == |adj| && |ord| == |adj|
    requires forall x :: 0 <= x < |adj| ==> dist[x] == (if x == start then 0 else INT_MAX)
    requires forall x :: 0 <= x < |adj| ==> parent[x] == -1 && !vis[x]
    ensures Inv(adj, start, dist, parent, vis, ord, 0, -1)
  {
  }

  /** Settling the selected vertex starts the relaxation of its edges. */
  lemma Settle(adj: AdjLists, start: int, dist: seq<int>, parent: seq<int>, vis: seq<bool>, ord: seq<nat>,
               count: int, u: int)
    requires Inv(adj, start, dist, parent, vis, ord, count, -1) && 0 <= count
    requires 0 <= u < |adj| && !vis[u] && dist[u] < INT_MAX
    requires forall x :: 0 <= x < |adj| && !vis[x] ==> dist[u] <= dist[x]
    ensures Inv(adj, start, dist, parent, vis[u := true], ord[u := count], count + 1, u)
    ensures EdgesDone(adj, dist, vis[u := true], u, 0)
  {
    MinIsOptimal(adj, start, dist, parent, vis, ord, count, u);
    var vis', ord' := vis[u := true], ord[u := count];
    assert Basics(adj, start, dist, parent, vis', ord');
    assert Tree(adj, start, dist, parent, vis', ord') by {
      forall x | 0 <= x < |adj| && x != start && dist[x] < INT_MAX
        ensures 0 <= parent[x] < |adj| && vis'[parent[x]] && (vis'[x] ==> ord'[parent[x]] < ord'[x])
      {
      }
    }
    assert Relaxed(adj, dist, vis', u) by {
      forall v, k | 0 <= v < |adj| && vis'[v] && v != u && 0 <= k < |adj[v]| &&
                    adj[v][k].weight >= 0 && !vis'[adj[v][k].to]
        ensures dist[adj[v][k].to] <= dist[v] + adj[v][k].weight
      {
        assert vis[v] && !vis[adj[v][k].to];
      }
    }
  }

  /**
   * C's relaxation of edge `e` of `u`: the distance and parent tables after
   * it.  An improving sum is stored saturated, as the C code does.
   */
  function RelaxEdge(adj: AdjLists, dist: seq<int>, parent: seq<int>, vis: seq<bool>, u: int, e: int)
    : (seq<int>, seq<int>)
    requires EdgesInRange(adj) && |dist| == |adj| && |parent| == |adj| && |vis| == |adj|
    requires 0 <= u < |adj| && 0 <= e < |adj[u]|
  {
    var v, w := adj[u][e].to, adj[u][e].weight;
    if w >= 0 && !vis[v] && dist[u] != INT_MAX && dist[u] + w < dist[v]
    then (dist[v := Saturate(dist[u] + w)], parent[v := u])
    else (dist, parent)
  }

  /** Relaxing one more edge of the vertex being settled keeps the state. */
  lemma RelaxStep(adj: AdjLists, start: int, dist: seq<int>, parent: seq<int>, vis: seq<bool>, ord: seq<nat>,
                  count: int, u: int, e: int)
    requires Inv(adj, start, dist, parent, vis, ord, count, u) && u != -1
    requires 0 <= e < |adj[u]| && EdgesDone(adj, dist, vis, u, e)
    ensures Inv(adj, start, RelaxEdge(adj, dist, parent, vis, u, e).0, RelaxEdge(adj, dist, parent, vis, u, e).1,
                vis, ord, count, u)
    ensures EdgesDone(adj, RelaxEdge(adj, dist, parent, vis, u, e).0, vis, u, e + 1)
  {
    var v, w := adj[u][e].to, adj[u][e].weight;
    if w >= 0 && !vis[v] && dist[u] != INT_MAX && dist[u] + w < dist[v] {
      SaturateDead(dist[u] + w, dist[v]);
      Improve(adj, start, dist, parent, vis, ord, count, u, e);
    }
  }

  /** Lowering the distance of an unsettled successor of `u` through edge `e` keeps the state. */
  lemma Improve(adj: AdjLists, start: int, dist: seq<int>, parent: seq<int>, vis: seq<bool>, ord: seq<nat>,
                count: int, u: int, e: int)
    requires Inv(adj, start, dist, parent, vis, ord, count, u) && u != -1
    requires 0 <= e < |adj[u]| && EdgesDone(adj, dist, vis, u, e)
    requires adj[u][e].weight >= 0 && !vis[adj[u][e].to] && dist[u] + adj[u][e].weight < dist[adj[u][e].to]
    ensures var v, d := adj[u][e].to, dist[u] + adj[u][e].weight;
            Inv(adj, start, dist[v := d], parent[v := u], vis, ord, count, u) &&
            EdgesDone(adj, dist[v := d], vis, u, e + 1)
  {
    var v, w := adj[u][e].to, adj[u][e].weight;
    var d := dist[u] + w;
    var dist', parent' := dist[v := d], parent[v := u];
    assert v != start;
    EdgeAt(adj, u, e);
    assert Basics(adj, start, dist', parent', vis, ord);
    assert Tree(adj, start, dist', parent', vis, ord) by {
      forall x | 0 <= x < |adj| && x != start && dist'[x] < INT_MAX
        ensures 0 <= parent'[x] < |adj| && vis[parent'[x]] && dist'[parent'[x]] <= dist'[x] &&
                HasWeightedEdge(adj, parent'[x], x, dist'[x] - dist'[parent'[x]]) &&
                (vis[x] ==> ord[parent'[x]] < ord[x])
      {
        if x != v {
          assert parent'[x] == parent[x] != v;
        }
      }
    }
    assert Settled(adj, start, dist', vis) by {
      forall x | 0 <= x < |adj| && vis[x] ensures LowerBound(adj, start, dist', x) {
        assert dist'[x] == dist[x];
      }
    }
    assert EdgesDone(adj, dist', vis, u, e + 1) by {
      forall j | 0 <= j < e + 1 && adj[u][j].weight >= 0 && !vis[adj[u][j].to]
        ensures dist'[adj[u][j].to] <= dist'[u] + adj[u][j].weight
      {
        assert dist'[u] == dist[u];
      }
    }
  }

  /** After the last edge of `u` the round is over. */
  lemma Finish(adj: AdjLists, start: int, dist: seq<int>, parent: seq<int>, vis: seq<bool>, ord: seq<nat>,
               count: int, u: int)
    requires Inv(adj, start, dist, parent, vis, ord, count, u) && u != -1
    requires EdgesDone(adj, dist, vis, u, |adj[u]|)
    ensures Inv(adj, start, dist, parent, vis, ord, count, -1)
  {
    forall v, k | 0 <= v < |adj| && vis[v] && 0 <= k < |adj[v]| && adj[v][k].weight >= 0 && !vis[adj[v][k].to]
      ensures dist[adj[v][k].to] <= dist[v] + adj[v][k].weight
    {
      if v == u {
        assert 0 <= k < |adj[u]|;
      }
    }
  }

  /**
   * The selection loop: the unsettled vertex with the smallest distance
   * below INT_MAX, the lowest index among equals, or -1 when there is none.
   */
  method SelectMin(dist: array<int>, visited: array<bool>) returns (u: int)
    requires dist.Length == visited.Length
    ensures u == -1 ==> forall x :: 0 <= x < dist.Length && !visited[x] ==> dist[x] >= INT_MAX
    ensures u != -1 ==>
              0 <= u < dist.Length && !visited[u] && dist[u] < INT_MAX &&
              (forall x :: 0 <= x < dist.Length && !visited[x] ==> dist[u] <= dist[x]) &&
              (forall x :: 0 <= x < u && !visited[x] ==> dist[u] < dist[x])
  {
    u := -1;
    var minDist := INT_MAX;
    for v := 0 to dist.Length
      invariant u == -1 ==> minDist == INT_MAX && forall x :: 0 <= x < v && !visited[x] ==> dist[x] >= INT_MAX
      invariant u != -1 ==>
                  0 <= u < v && !visited[u] && minDist == dist[u] < INT_MAX &&
                  (forall x :: 0 <= x < v && !visited[x] ==> dist[u] <= dist[x]) &&
                  (forall x :: 0 <= x < u && !visited[x] ==> dist[u] < dist[x])
    {
      if !visited[v] && dist[v] < minDist {
        minDist := dist[v];
        u := v;
      }
    }
  }

  /**
   * The main loop of dijkstra_shortest_path.  On return the parent table is
   * a tree of finite distances and dist[goal] is a lower bound on the cost
   * of every walk to the goal that takes no negative edge.
   */
  method Search(adj: AdjLists, start: int, goal: int)
    returns (dist: array<int>, parent: array<int>, ghost D: seq<int>, ghost P: seq<int>, ghost vis: seq<bool>,
             ghost ord: seq<nat>, ghost count: nat)
    requires EdgesInRange(adj) && 0 <= start < |adj| && 0 <= goal < |adj|
    ensures fresh(dist) && fresh(parent) && dist.Length == |adj| && parent.Length == |adj|
    ensures dist[..] == D && parent[..] == P
    ensures Basics(adj, start, D, P, vis, ord) && Tree(adj, start, D, P, vis, ord)
    ensures Stamped(vis, ord, count)
    ensures LowerBound(adj, start, D, goal)
  {
    var n := |adj|;
    dist := new int[n](x => if x == start then 0 else INT_MAX);
    parent := new int[n](_ => -1);
    var visited := new bool[n](_ => false);
    ord := seq(n, _ => 0);
    D, P := dist[..], parent[..];
    ghost var V := visited[..];
    NoneMarked(V);
    Start(adj, start, D, P, V, ord);
    var round := 0;
    while round < n
      invariant dist.Length == n && parent.Length == n && visited.Length == n
      invariant D == dist[..] && P == parent[..] && V == visited[..]
      invariant 0 <= round <= n && Unvisited(V) == n - round
      invariant Inv(adj, start, D, P, V, ord, round, -1)
      decreases n - round
    {
      var u;
      u, D, P, V, ord := Round(adj, start, goal, dist, parent, visited, D, P, V, ord, round);
      if u == -1 {
        Exhausted(adj, start, D, P, V, ord, round, goal);
        vis, count := V, round;
        return;
      }
      if u == goal {
        vis, count := V, round + 1;
        return;
      }
      round := round + 1;
    }
    vis, count := V, round;
    NoneUnvisited(vis, goal);
  }

  /**
   * One round of the main loop: select, settle, and relax unless the
   * selected vertex is the goal.  Returns -1, changing nothing, when no
   * unsettled vertex has a finite distance.
   */
  method Round(adj: AdjLists, start: int, goal: int, dist: array<int>, parent: array<int>, visited: array<bool>,
               ghost D0: seq<int>, ghost P0: seq<int>, ghost V0: seq<bool>, ghost ord0: seq<nat>, ghost count: nat)
    returns (u: int, ghost D: seq<int>, ghost P: seq<int>, ghost V: seq<bool>, ghost ord: seq<nat>)
    requires dist != parent && dist.Length == |adj| && parent.Length == |adj| && visited.Length == |adj|
    requires dist[..] == D0 && parent[..] == P0 && visited[..] == V0
    requires Inv(adj, start, D0, P0, V0, ord0, count, -1)
    modifies dist, parent, visited
    ensures dist[..] == D && parent[..] == P && visited[..] == V
    ensures u == -1 ==>
              D == D0 && P == P0 && V == V0 && ord == ord0 &&
              forall x :: 0 <= x < |adj| && !V0[x] ==> D0[x] >= INT_MAX
    ensures u != -1 ==> 0 <= u < |adj| && !V0[u] && V == V0[u := true] && Unvisited(V) == Unvisited(V0) - 1
    ensures u == goal ==> Inv(adj, start, D, P, V, ord, count + 1, u)
    ensures u != -1 && u != goal ==> Inv(adj, start, D, P, V, ord, count + 1, -1)
  {
    D, P, V, ord := D0, P0, V0, ord0;
    u := SelectMin(dist, visited);
    if u == -1 {
      return;
    }
    Settle(adj, start, D, P, V, ord, count, u);
    UnvisitedMark(V, u);
    MarkSettled(visited, u, dist, parent);
    V, ord := V[u := true], ord[u := count];
    if u != goal {
      D, P := RelaxEdges(adj, start, u, dist, parent, visited, D, P, V, ord, count + 1);
    }
  }

  /** The edge loop of one round: relax every non-negative edge of `u` to an unsettled vertex. */
  method RelaxEdges(adj: AdjLists, start: int, u: int, dist: array<int>, parent: array<int>, visited: array<bool>,
                    ghost D0: seq<int>, ghost P0: seq<int>, ghost V: seq<bool>, ghost ord: seq<nat>, ghost count: int)
    returns (ghost D: seq<int>, ghost P: seq<int>)
    requires dist != parent && dist.Length == |adj| && parent.Length == |adj| && visited.Length == |adj|
    requires dist[..] == D0 && parent[..] == P0 && visited[..] == V
    requires Inv(adj, start, D0, P0, V, ord, count, u) && u != -1
    modifies dist, parent
    ensures dist[..] == D && parent[..] == P && visited[..] == V
    ensures Inv(adj, start, D, P, V, ord, count, -1)
  {
    D, P := D0, P0;
    var e := 0;
    while e < |adj[u]|
      invariant 0 <= e <= |adj[u]| && visited[..] == V && dist[..] == D && parent[..] == P
      invariant Inv(adj, start, D, P, V, ord, count, u) && EdgesDone(adj, D, V, u, e)
    {
      RelaxStep(adj, start, D, P, V, ord, count, u, e);
      TryRelax(adj, u, e, dist, parent, visited);
      D, P := RelaxEdge(adj, D, P, V, u, e).0, RelaxEdge(adj, D, P, V, u, e).1;
      e := e + 1;
    }
    Finish(adj, start, D, P, V, ord, count, u);
  }

  /** visited[u] := true, leaving the distance and parent tables as they are. */
  method MarkSettled(visited: array<bool>, u: int, dist: array<int>, parent: array<int>)
    requires 0 <= u < visited.Length
    modifies visited
    ensures visited[..] == old(visited[..])[u := true]
    ensures dist[..] == old(dist[..]) && parent[..] == old(parent[..])
  {
    visited[u] := true;
  }

  /** The body of the edge loop for edge `e` of `u`. */
  method TryRelax(adj: AdjLists, u: int, e: int, dist: array<int>, parent: array<int>, visited: array<bool>)
    requires EdgesInRange(adj) && dist != parent
    requires dist.Length == |adj| && parent.Length == |adj| && visited.Length == |adj|
    requires 0 <= u < |adj| && 0 <= e < |adj[u]|
    modifies dist, parent
    ensures (dist[..], parent[..]) == RelaxEdge(adj, old(dist[..]), old(parent[..]), visited[..], u, e)
  {
    var v, w := adj[u][e].to, adj[u][e].weight;
    if w >= 0 && !visited[v] && dist[u] != INT_MAX {
      var newDist := dist[u] + w;
      if newDist < dist[v] {
        dist[v] := Saturate(newDist);
        parent[v] := u;
      }
    }
  }

  /**
   * With a finite distance for the goal, the tree path to it is a walk
   * without negative edges costing at most that distance, and
   * reconstruct_path returns it exactly when it fits.
   */
  lemma FoundPath(adj: AdjLists, start: int, goal: int, dist: seq<int>, parent: seq<int>, vis: seq<bool>,
                  ord: seq<nat>, count: nat, maxLen: int)
    returns (p: seq<int>, ws: seq<int>)
    requires Basics(adj, start, dist, parent, vis, ord) && Tree(adj, start, dist, parent, vis, ord)
    requires Stamped(vis, ord, count) && 0 <= goal < |adj| && dist[goal] < INT_MAX
    ensures NonNegWalk(adj, p, ws, start, goal) && Sum(ws) <= dist[goal] && |p| <= |adj|
    ensures maxLen >= 2 && |p| <= maxLen ==> ReconstructedPath(start, goal, parent, maxLen) == Some(p)
    ensures !(maxLen >= 2 && |p| <= maxLen) ==> ReconstructedPath(start, goal, parent, maxLen) == None
  {
    var stamp: seq<nat> := seq(|adj|, x requires 0 <= x < |adj| => if vis[x] then ord[x] else count);
    var forest := set x | 0 <= x < |adj| && dist[x] < INT_MAX;
    assert RootedForest(parent, stamp, stamp, forest, start);
    p := ForestReconstruct(parent, stamp, stamp, forest, start, goal, maxLen);
    forall i | 0 < i < |p| ensures TreeEdge(adj, parent, dist, p[i]) {
      var x := p[i];
      assert x != p[0];
      assert HasWeightedEdge(adj, parent[x], x, dist[x] - dist[parent[x]]);
    }
    ws := ChainWalk(adj, parent, dist, start, p);
  }

  /**
   * dijkstra_shortest_path.  On rejected arguments, when no walk from start
   * to goal that avoids negative edges costs less than INT_MAX, or when the
   * tree path does not fit maxPathLen, it returns 0 with distance -1 and
   * leaves outPath as it was.  Otherwise outPath[..len] is a walk from start
   * to goal over non-negative edges costing exactly `distance`, and no such
   * walk costs less.  A cheap enough walk always gives a result when
   * maxPathLen is at least the number of vertices.
   */
  method DijkstraShortestPath(g: Graph?, start: int, goal: int, outPath: array<int>, maxPathLen: int)
    returns (len: int, distance: int)
    requires g != null ==> g.Valid()
    requires maxPathLen <= outPath.Length
    modifies outPath
    ensures BadArguments(g, start, goal, maxPathLen) ==> len == 0
    ensures len == 0 ==> distance == -1 && outPath[..] == old(outPath[..])
    ensures g != null && !BadArguments(g, start, goal, maxPathLen) &&
            (forall vs, ws :: NonNegWalk(g.adj, vs, ws, start, goal) ==> Sum(ws) >= INT_MAX) ==>
              len == 0
    ensures g != null && !BadArguments(g, start, goal, maxPathLen) && maxPathLen >= g.numVertices &&
            (exists vs, ws :: NonNegWalk(g.adj, vs, ws, start, goal) && Sum(ws) < INT_MAX) ==>
              len > 0
    ensures len > 0 ==>
              g != null && len <= maxPathLen && len <= g.numVertices && 0 <= distance < INT_MAX &&
              (exists ws :: NonNegWalk(g.adj, outPath[..len], ws, start, goal) && Sum(ws) == distance) &&
              (forall vs, ws :: NonNegWalk(g.adj, vs, ws, start, goal) ==> Sum(ws) >= distance) &&
              outPath[len..] == old(outPath[len..])
  {
    if g == null || start < 0 || goal < 0 || start >= g.numVertices || goal >= g.numVertices || maxPathLen < 2 {
      return 0, -1;
    }
    var n := g.numVertices;
    var adj := g.adj;
    var dist, parent, D, P, vis, ord, count := Search(adj, start, goal);
    if dist[goal] == INT_MAX {
      return 0, -1;
    }
    ghost var p, ws := FoundPath(adj, start, goal, D, P, vis, ord, count, maxPathLen);
    len := ReconstructPath(start, goal, parent, outPath, maxPathLen, n);
    if len == 0 {
      return 0, -1;
    }
    distance := dist[goal];
  }
}
