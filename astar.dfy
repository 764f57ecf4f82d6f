/**
 * astar_shortest_path of src/algorithms.c: the open vertices sit in the
 * indexed heap keyed by f = dist + h; the loop pops the vertex of smallest
 * f, stops when it is the goal, and otherwise relaxes its non-negative
 * edges, inserting an improved vertex into the heap or lowering its key.
 * There is no closed set: a vertex whose distance improves after it was
 * popped goes back into the heap.  INT_MAX stands for "no distance yet".
 *
 * The proof keeps, besides the C state, the weight of the edge each vertex
 * hangs from (W) and the time its distance was last lowered (T, with a
 * clock), which order the parent table into a forest rooted at start.
 * The returned path is never dearer than the returned distance; with a
 * consistent heuristic (the NULL one among them) the distance is optimal.
 */
module AStar {
  import opened Wrappers
  import opened Graphs
  import opened Paths
  import opened Reconstruct
  import opened Relaxation
  import opened Arguments
  import opened Heap
  import opened Heuristics

  /** Sizes, ranges, dist[start] == 0, distances in [0, INT_MAX] and times before `clock`. */
  ghost predicate Basics(adj: AdjLists, start: int, goal: int, D: seq<int>, P: seq<int>, W: seq<int>, T: seq<nat>,
                         clock: nat)
  {
    EdgesInRange(adj) && 0 <= start < |adj| && 0 <= goal < |adj| &&
    |D| == |adj| && |P| == |adj| && |W| == |adj| && |T| == |adj| &&
    ParentsInRange(P) && D[start] == 0 &&
    (forall x :: 0 <= x < |adj| ==> 0 <= D[x] <= INT_MAX) &&
    (forall x :: 0 <= x < |adj| ==> T[x] < clock)
  }

  /**
   * Every vertex other than start with a finite distance hangs from its
   * parent through an edge of weight W[x] >= 0 with D[parent] + W[x] <=
   * D[x]; the parent's distance is smaller, or it is equal and was lowered
   * earlier.
   */
  ghost predicate Tree(adj: AdjLists, start: int, D: seq<int>, P: seq<int>, W: seq<int>, T: seq<nat>)
    requires |D| == |adj| && |P| == |adj| && |W| == |adj| && |T| == |adj|
  {
    forall x {:trigger P[x]} :: 0 <= x < |adj| && x != start && D[x] < INT_MAX ==>
      0 <= P[x] < |adj| && W[x] >= 0 && HasWeightedEdge(adj, P[x], x, W[x]) && D[P[x]] + W[x] <= D[x] &&
      (D[P[x]] < D[x] || T[P[x]] < T[x])
  }

  /** The heap holds vertices with finite distances, each keyed by D[x] + h(x). */
  ghost predicate Open(adj: AdjLists, h: int -> int, D: seq<int>, Q: map<int, int>)
    requires |D| == |adj|
  {
    forall x :: x in Q ==> 0 <= x < |adj| && D[x] < INT_MAX && Q[x] == D[x] + h(x)
  }

  /**
   * Every non-negative edge out of a vertex with a finite distance that is
   * neither in the heap nor `cur` is relaxed.
   */
  ghost predicate Relaxed(adj: AdjLists, D: seq<int>, Q: map<int, int>, cur: int)
    requires EdgesInRange(adj) && |D| == |adj|
  {
    forall x, k :: 0 <= x < |adj| && D[x] < INT_MAX && x !in Q && x != cur && 0 <= k < |adj[x]| &&
                   adj[x][k].weight >= 0 ==>
      D[adj[x][k].to] <= D[x] + adj[x][k].weight
  }

  /**
   * The state of the search; `cur` is the popped vertex whose edges are
   * being relaxed (-1 between rounds).  A goal with a finite distance is
   * in the heap, since popping it ends the search.
   */
  ghost predicate Inv(adj: AdjLists, h: int -> int, start: int, goal: int, D: seq<int>, P: seq<int>, W: seq<int>,
                      T: seq<nat>, clock: nat, Q: map<int, int>, cur: int)
  {
    Basics(adj, start, goal, D, P, W, T, clock) && Tree(adj, start, D, P, W, T) && Open(adj, h, D, Q) &&
    Relaxed(adj, D, Q, cur) && (D[goal] < INT_MAX ==> goal in Q) &&
    (cur != -1 ==> 0 <= cur < |adj| && cur != goal && D[cur] < INT_MAX && cur !in Q)
  }

  /** Edges 0..e-1 of `u` are relaxed. */
  ghost predicate EdgesDone(adj: AdjLists, D: seq<int>, u: int, e: int)
    requires EdgesInRange(adj) && |D| == |adj| && 0 <= u < |adj| && e <= |adj[u]|
  {
    forall j :: 0 <= j < e && adj[u][j].weight >= 0 ==> D[adj[u][j].to] <= D[u] + adj[u][j].weight
  }

  /** The state after the initialisation: only start has a distance, and it is in the heap. */
  lemma Start(adj: AdjLists, h: int -> int, start: int, goal: int, D: seq<int>, P: seq<int>, W: seq<int>, T: seq<nat>)
    requires EdgesInRange(adj) && 0 <= start < |adj| && 0 <= goal < |adj|
    requires |D| == |adj| && |P| == |adj| && |W| == |adj| && |T| == |adj|
    requires forall x :: 0 <= x < |adj| ==> D[x] == (if x == start then 0 else INT_MAX)
    requires forall x :: 0 <= x < |adj| ==> P[x] == -1 && T[x] == 0
    ensures Inv(adj, h, start, goal, D, P, W, T, 1, map[start := h(start)], -1)
  {
  }

  /**
   * Along a walk from start without negative edges that costs less than
   * INT_MAX, either the last vertex has a distance within the walk's cost
   * (y == -1), or the walk passes a vertex y of the heap whose key, when
   * the heuristic is consistent, is at most the walk's cost plus the
   * heuristic at the walk's end.
   */
  lemma {:induction false} Frontier(adj: AdjLists, h: int -> int, start: int, goal: int, D: seq<int>, P: seq<int>,
                                    W: seq<int>, T: seq<nat>, clock: nat, Q: map<int, int>,
                                    vs: seq<int>, ws: seq<int>, t: int)
    returns (y: int)
    requires Inv(adj, h, start, goal, D, P, W, T, clock, Q, -1)
    requires NonNegWalk(adj, vs, ws, start, t) && 0 <= t < |adj| && Sum(ws) < INT_MAX
    ensures y == -1 ==> D[t] <= Sum(ws)
    ensures y != -1 ==> y in Q && (Consistent(adj, h) ==> Q[y] <= Sum(ws) + h(t))
    decreases |vs|
  {
    if |ws| == 0 {
      y := -1;
    } else {
      WalkPrefix(adj, vs, ws);
      var pv, pw := vs[..|vs| - 1], ws[..|ws| - 1];
      var z, w := vs[|vs| - 2], ws[|ws| - 1];
      assert w >= 0;
      assert forall i :: 0 <= i < |pw| ==> pw[i] >= 0 by {
        forall i | 0 <= i < |pw| ensures pw[i] >= 0 {
          assert pw[i] == ws[i];
        }
      }
      assert NonNegWalk(adj, pv, pw, start, z);
      PathInRange(adj, pv) by {
        WalkIsPath(adj, pv, pw);
      }
      assert 0 <= pv[|pv| - 1] < |adj|;
      var k :| 0 <= k < |adj[z]| && adj[z][k].to == t && adj[z][k].weight == w;
      var y' := Frontier(adj, h, start, goal, D, P, W, T, clock, Q, pv, pw, z);
      if y' != -1 {
        y := y';
      } else if z in Q {
        y := z;
      } else {
        y := -1;
      }
    }
  }

  /**
   * With a consistent heuristic, the goal popped as a minimum of the heap
   * has an optimal distance.
   */
  lemma GoalOptimal(adj: AdjLists, h: int -> int, start: int, goal: int, D: seq<int>, P: seq<int>, W: seq<int>,
                    T: seq<nat>, clock: nat, Q: map<int, int>)
    requires Inv(adj, h, start, goal, D, P, W, T, clock, Q, -1) && Consistent(adj, h)
    requires goal in Q && forall x :: x in Q ==> Q[goal] <= Q[x]
    ensures LowerBound(adj, start, D, goal)
  {
    forall vs, ws | NonNegWalk(adj, vs, ws, start, goal) ensures Sum(ws) >= D[goal] {
      if Sum(ws) < INT_MAX {
        var y := Frontier(adj, h, start, goal, D, P, W, T, clock, Q, vs, ws, goal);
      }
    }
  }

  /** An empty heap means that no walk to the goal avoiding negative edges costs less than INT_MAX. */
  lemma Exhausted(adj: AdjLists, h: int -> int, start: int, goal: int, D: seq<int>, P: seq<int>, W: seq<int>,
                  T: seq<nat>, clock: nat)
    requires Inv(adj, h, start, goal, D, P, W, T, clock, map[], -1)
    ensures forall vs, ws :: NonNegWalk(adj, vs, ws, start, goal) ==> Sum(ws) >= INT_MAX
  {
    forall vs, ws | NonNegWalk(adj, vs, ws, start, goal) ensures Sum(ws) >= INT_MAX {
      if Sum(ws) < INT_MAX {
        var y := Frontier(adj, h, start, goal, D, P, W, T, clock, map[], vs, ws, goal);
      }
    }
  }

  /** Popping a vertex other than the goal starts the relaxation of its edges. */
  lemma PopStep(adj: AdjLists, h: int -> int, start: int, goal: int, D: seq<int>, P: seq<int>, W: seq<int>,
                T: seq<nat>, clock: nat, Q: map<int, int>, x: int)
    requires Inv(adj, h, start, goal, D, P, W, T, clock, Q, -1) && x in Q && x != goal
    ensures Inv(adj, h, start, goal, D, P, W, T, clock, Q - {x}, x) && EdgesDone(adj, D, x, 0)
  {
  }

  /** Whether edge `e` of `u` improves its target: the test of the C edge loop. */
  predicate Improves(adj: AdjLists, D: seq<int>, u: int, e: int)
    requires EdgesInRange(adj) && |D| == |adj| && 0 <= u < |adj| && 0 <= e < |adj[u]|
  {
    adj[u][e].weight >= 0 && D[u] != INT_MAX && D[u] + adj[u][e].weight < D[adj[u][e].to]
  }

  /**
   * The edge loop's work for edge `e` of `u` on the distance, parent and
   * f_score tables and the heap's contents: an improved target gets the
   * saturated sum, parent u, and key dist + h in the heap.
   */
  function Relax(adj: AdjLists, h: int -> int, D: seq<int>, P: seq<int>, F: seq<int>, Q: map<int, int>, u: int,
                 e: int): (seq<int>, seq<int>, seq<int>, map<int, int>)
    requires EdgesInRange(adj) && |D| == |adj| && |P| == |adj| && |F| == |adj|
    requires 0 <= u < |adj| && 0 <= e < |adj[u]|
  {
    if Improves(adj, D, u, e) then
      var v, d := adj[u][e].to, Saturate(D[u] + adj[u][e].weight);
      (D[v := d], P[v := u], F[v := d + h(v)], Q[v := d + h(v)])
    else
      (D, P, F, Q)
  }

  /** Lowering v's distance through the edge u -> v of weight w keeps the tree. */
  lemma ImproveTree(adj: AdjLists, start: int, D: seq<int>, P: seq<int>, W: seq<int>, T: seq<nat>, clock: nat,
                    u: int, v: int, w: int)
    requires |D| == |adj| && |P| == |adj| && |W| == |adj| && |T| == |adj| && Tree(adj, start, D, P, W, T)
    requires 0 <= u < |adj| && 0 <= v < |adj| && v != start && T[u] < clock
    requires HasWeightedEdge(adj, u, v, w) && w >= 0 && D[u] + w < D[v]
    ensures Tree(adj, start, D[v := D[u] + w], P[v := u], W[v := w], T[v := clock])
  {
    var D', P', W', T' := D[v := D[u] + w], P[v := u], W[v := w], T[v := clock];
    forall x | 0 <= x < |adj| && x != start && D'[x] < INT_MAX
      ensures 0 <= P'[x] < |adj| && W'[x] >= 0 && HasWeightedEdge(adj, P'[x], x, W'[x]) &&
              D'[P'[x]] + W'[x] <= D'[x] && (D'[P'[x]] < D'[x] || T'[P'[x]] < T'[x])
    {
      if x != v {
        assert P'[x] == P[x] && W'[x] == W[x] && T'[x] == T[x];
      }
    }
  }

  /** Lowering the distance of the target of edge `e` of `u` keeps the state. */
  lemma Improve(adj: AdjLists, h: int -> int, start: int, goal: int, D: seq<int>, P: seq<int>, W: seq<int>,
                T: seq<nat>, clock: nat, Q: map<int, int>, u: int, e: int)
    requires Inv(adj, h, start, goal, D, P, W, T, clock, Q, u) && u != -1
    requires 0 <= e < |adj[u]| && EdgesDone(adj, D, u, e) && Improves(adj, D, u, e)
    ensures var v, d := adj[u][e].to, D[u] + adj[u][e].weight;
            Inv(adj, h, start, goal, D[v := d], P[v := u], W[v := adj[u][e].weight], T[v := clock], clock + 1,
                Q[v := d + h(v)], u) &&
            EdgesDone(adj, D[v := d], u, e + 1)
  {
    var v, w := adj[u][e].to, adj[u][e].weight;
    var d := D[u] + w;
    var D', P', W', T', Q' := D[v := d], P[v := u], W[v := w], T[v := clock], Q[v := d + h(v)];
    assert v != start && v != u;
    EdgeAt(adj, u, e);
    assert Basics(adj, start, goal, D', P', W', T', clock + 1);
    ImproveTree(adj, start, D, P, W, T, clock, u, v, w);
    assert Relaxed(adj, D', Q', u) by {
      forall x, k | 0 <= x < |adj| && D'[x] < INT_MAX && x !in Q' && x != u && 0 <= k < |adj[x]| &&
                    adj[x][k].weight >= 0
        ensures D'[adj[x][k].to] <= D'[x] + adj[x][k].weight
      {
        assert x != v && D'[x] == D[x];
      }
    }
    assert EdgesDone(adj, D', u, e + 1) by {
      forall j | 0 <= j < e + 1 && adj[u][j].weight >= 0 ensures D'[adj[u][j].to] <= D'[u] + adj[u][j].weight {
        assert D'[u] == D[u];
      }
    }
  }

  /**
   * Relaxing one more edge of the popped vertex keeps the state, and an
   * improvement lowers the sum of the distances.
   */
  lemma RelaxStep(adj: AdjLists, h: int -> int, start: int, goal: int, D: seq<int>, P: seq<int>, W: seq<int>,
                  T: seq<nat>, clock: nat, Q: map<int, int>, F: seq<int>, u: int, e: int)
    returns (D': seq<int>, P': seq<int>, Q': map<int, int>, W': seq<int>, T': seq<nat>, clock': nat)
    requires Inv(adj, h, start, goal, D, P, W, T, clock, Q, u) && u != -1 && |F| == |adj|
    requires 0 <= e < |adj[u]| && EdgesDone(adj, D, u, e)
    ensures D' == Relax(adj, h, D, P, F, Q, u, e).0 && P' == Relax(adj, h, D, P, F, Q, u, e).1
    ensures Q' == Relax(adj, h, D, P, F, Q, u, e).3
    ensures Inv(adj, h, start, goal, D', P', W', T', clock', Q', u) && EdgesDone(adj, D', u, e + 1)
    ensures Improves(adj, D, u, e) ==> Sum(D') < Sum(D)
    ensures !Improves(adj, D, u, e) ==> D' == D
  {
    if Improves(adj, D, u, e) {
      var v, d := adj[u][e].to, D[u] + adj[u][e].weight;
      SaturateDead(d, D[v]);
      Improve(adj, h, start, goal, D, P, W, T, clock, Q, u, e);
      D', P', Q' := D[v := d], P[v := u], Q[v := d + h(v)];
      W', T', clock' := W[v := adj[u][e].weight], T[v := clock], clock + 1;
      SumUpdate(D, v, d);
    } else {
      D', P', Q', W', T', clock' := D, P, Q, W, T, clock;
    }
  }

  /** After the last edge of the popped vertex the round is over. */
  lemma Finish(adj: AdjLists, h: int -> int, start: int, goal: int, D: seq<int>, P: seq<int>, W: seq<int>,
               T: seq<nat>, clock: nat, Q: map<int, int>, u: int)
    requires Inv(adj, h, start, goal, D, P, W, T, clock, Q, u) && u != -1
    requires EdgesDone(adj, D, u, |adj[u]|)
    ensures Inv(adj, h, start, goal, D, P, W, T, clock, Q, -1)
  {
    forall x, k | 0 <= x < |adj| && D[x] < INT_MAX && x !in Q && 0 <= k < |adj[x]| && adj[x][k].weight >= 0
      ensures D[adj[x][k].to] <= D[x] + adj[x][k].weight
    {
      if x == u {
        assert 0 <= k < |adj[u]|;
      }
    }
  }

  /**
   * With a finite distance for the goal, the tree path to it is a walk
   * without negative edges costing at most that distance, and
   * reconstruct_path returns it exactly when it fits.
   */
  lemma FoundPath(adj: AdjLists, start: int, goal: int, D: seq<int>, P: seq<int>, W: seq<int>, T: seq<nat>,
                  clock: nat, maxLen: int)
    returns (p: seq<int>, ws: seq<int>)
    requires Basics(adj, start, goal, D, P, W, T, clock) && Tree(adj, start, D, P, W, T) && D[goal] < INT_MAX
    ensures NonNegWalk(adj, p, ws, start, goal) && Sum(ws) <= D[goal] && |p| <= |adj|
    ensures maxLen >= 2 && |p| <= maxLen ==> ReconstructedPath(start, goal, P, maxLen) == Some(p)
    ensures !(maxLen >= 2 && |p| <= maxLen) ==> ReconstructedPath(start, goal, P, maxLen) == None
  {
    var rank: seq<nat> := seq(|adj|, x requires 0 <= x < |adj| => D[x]);
    var forest := set x | 0 <= x < |adj| && D[x] < INT_MAX;
    assert RootedForest(P, rank, T, forest, start);
    p := ForestReconstruct(P, rank, T, forest, start, goal, maxLen);
    forall i | 0 < i < |p| ensures TreeEdge(adj, P, D, p[i]) {
      var x := p[i];
      assert x != p[0];
      assert HasWeightedEdge(adj, P[x], x, W[x]);
    }
    ws := ChainWalk(adj, P, D, start, p);
  }

  /**
   * The heap update of the edge loop: lower the key of a vertex already in
   * the heap (pq_contains, then pq_decrease_key), insert it otherwise.  An
   * absent vertex always finds room, as the heap has a slot per vertex.
   */
  method Push(pq: PriorityQueue, v: int, f: int)
    requires pq.Valid() && 0 <= v < pq.capacity
    requires v in pq.Contents() ==> f < pq.Contents()[v]
    modifies pq, pq.nodes, pq.heapIndex
    ensures pq.Valid() && pq.Contents() == old(pq.Contents())[v := f]
    ensures pq.size == old(pq.size) + (if v in old(pq.Contents()) then 0 else 1)
  {
    if pq.Contains(v) {
      var r := pq.DecreaseKey(v, f);
    } else {
      Room(pq.nodes[..], pq.heapIndex[..], pq.size, v);
      var r := pq.Insert(v, f);
    }
  }

  /** The body of the edge loop for edge `e` of `u`. */
  method TryRelax(adj: AdjLists, h: int -> int, u: int, e: int, dist: array<int>, parent: array<int>,
                  fScore: array<int>, pq: PriorityQueue)
    requires EdgesInRange(adj) && 0 <= u < |adj| && 0 <= e < |adj[u]|
    requires dist.Length == |adj| && parent.Length == |adj| && fScore.Length == |adj|
    requires dist != parent && dist != fScore && parent != fScore
    requires dist != pq.heapIndex && parent != pq.heapIndex && fScore != pq.heapIndex
    requires pq.Valid() && pq.capacity == |adj|
    requires adj[u][e].to in pq.Contents() ==> pq.Contents()[adj[u][e].to] == dist[adj[u][e].to] + h(adj[u][e].to)
    modifies dist, parent, fScore, pq, pq.nodes, pq.heapIndex
    ensures pq.Valid()
    ensures (dist[..], parent[..], fScore[..], pq.Contents()) ==
            Relax(adj, h, old(dist[..]), old(parent[..]), old(fScore[..]), old(pq.Contents()), u, e)
    ensures pq.size == old(pq.size) +
                       (if Improves(adj, old(dist[..]), u, e) && adj[u][e].to !in old(pq.Contents()) then 1 else 0)
  {
    var v, w := adj[u][e].to, adj[u][e].weight;
    if w < 0 {
      return;
    }
    if dist[u] == INT_MAX {
      return;
    }
    var tentative := dist[u] + w;
    if tentative < dist[v] {
      var d := Saturate(tentative);
      var hv := h(v);
      Lower(dist, parent, fScore, pq, v, d, u, d + hv);
    }
  }

  /**
   * An improved vertex v: dist[v], parent[v] and f_score[v] are written,
   * then v goes into the heap with key f or has its key lowered to f.
   */
  method Lower(dist: array<int>, parent: array<int>, fScore: array<int>, pq: PriorityQueue, v: int, d: int, u: int,
               f: int)
    requires dist.Length == parent.Length == fScore.Length && 0 <= v < dist.Length
    requires dist != parent && dist != fScore && parent != fScore
    requires dist != pq.heapIndex && parent != pq.heapIndex && fScore != pq.heapIndex
    requires pq.Valid() && 0 <= v < pq.capacity && (v in pq.Contents() ==> f < pq.Contents()[v])
    modifies dist, parent, fScore, pq, pq.nodes, pq.heapIndex
    ensures dist[..] == old(dist[..])[v := d] && parent[..] == old(parent[..])[v := u]
    ensures fScore[..] == old(fScore[..])[v := f]
    ensures pq.Valid() && pq.Contents() == old(pq.Contents())[v := f]
    ensures pq.size == old(pq.size) + (if v in old(pq.Contents()) then 0 else 1)
  {
    dist[v] := d;
    parent[v] := u;
    fScore[v] := f;
    Push(pq, v, f);
  }

  /** The edge loop for the popped vertex `u`. */
  method Expand(adj: AdjLists, h: int -> int, start: int, goal: int, u: int, dist: array<int>, parent: array<int>,
                fScore: array<int>, pq: PriorityQueue, ghost D0: seq<int>, ghost P0: seq<int>, ghost W0: seq<int>,
                ghost T0: seq<nat>, ghost clock0: nat, ghost Q0: map<int, int>)
    returns (ghost D: seq<int>, ghost P: seq<int>, ghost W: seq<int>, ghost T: seq<nat>, ghost clock: nat,
             ghost Q: map<int, int>)
    requires dist.Length == |adj| && parent.Length == |adj| && fScore.Length == |adj|
    requires dist != parent && dist != fScore && parent != fScore
    requires dist != pq.heapIndex && parent != pq.heapIndex && fScore != pq.heapIndex
    requires pq.Valid() && pq.capacity == |adj|
    requires dist[..] == D0 && parent[..] == P0 && pq.Contents() == Q0
    requires Inv(adj, h, start, goal, D0, P0, W0, T0, clock0, Q0, u) && u != -1 && EdgesDone(adj, D0, u, 0)
    modifies dist, parent, fScore, pq, pq.nodes, pq.heapIndex
    ensures dist[..] == D && parent[..] == P && pq.Valid() && pq.Contents() == Q
    ensures Inv(adj, h, start, goal, D, P, W, T, clock, Q, -1)
    ensures Sum(D) <= Sum(D0) && Sum(D) + pq.size <= Sum(D0) + old(pq.size)
  {
    D, P, W, T, clock, Q := D0, P0, W0, T0, clock0, Q0;
    var e := 0;
    while e < |adj[u]|
      invariant 0 <= e <= |adj[u]| && dist[..] == D && parent[..] == P && pq.Valid() && pq.Contents() == Q
      invariant Inv(adj, h, start, goal, D, P, W, T, clock, Q, u) && EdgesDone(adj, D, u, e)
      invariant Sum(D) <= Sum(D0) && Sum(D) + pq.size <= Sum(D0) + old(pq.size)
    {
      ghost var F := fScore[..];
      ghost var D', P', Q', W', T', clock' := RelaxStep(adj, h, start, goal, D, P, W, T, clock, Q, F, u, e);
      TryRelax(adj, h, u, e, dist, parent, fScore, pq);
      D, P, Q, W, T, clock := D', P', Q', W', T', clock';
      e := e + 1;
    }
    Finish(adj, h, start, goal, D, P, W, T, clock, Q, u);
  }

  /**
   * The main loop of astar_shortest_path, from the heap holding start.  It
   * returns whether the goal was popped.  If it was, the goal has a finite
   * distance, optimal when the heuristic is consistent; if not, no walk to
   * the goal avoiding negative edges costs less than INT_MAX.
   */
  method Search(adj: AdjLists, h: int -> int, start: int, goal: int)
    returns (found: bool, dist: array<int>, parent: array<int>, ghost D: seq<int>, ghost P: seq<int>,
             ghost W: seq<int>, ghost T: seq<nat>, ghost clock: nat)
    requires EdgesInRange(adj) && 0 <= start < |adj| && 0 <= goal < |adj|
    ensures fresh(dist) && fresh(parent) && dist.Length == |adj| && parent.Length == |adj|
    ensures dist[..] == D && parent[..] == P
    ensures Basics(adj, start, goal, D, P, W, T, clock) && Tree(adj, start, D, P, W, T)
    ensures found ==> D[goal] < INT_MAX && (Consistent(adj, h) ==> LowerBound(adj, start, D, goal))
    ensures !found ==> forall vs, ws :: NonNegWalk(adj, vs, ws, start, goal) ==> Sum(ws) >= INT_MAX
  {
    var fScore, pq;
    ghost var Q;
    dist, parent, fScore, pq, W, T, clock, Q := Init(adj, h, start, goal);
    D, P := dist[..], parent[..];
    SumPrefixNonNeg(D, 0);
    while pq.size > 0
      invariant dist.Length == |adj| && parent.Length == |adj| && fScore.Length == |adj|
      invariant dist != parent && dist != fScore && parent != fScore
      invariant dist != pq.heapIndex && parent != pq.heapIndex && fScore != pq.heapIndex
      invariant pq.capacity == |adj| && fresh(pq) && fresh(pq.nodes) && fresh(pq.heapIndex)
      invariant dist[..] == D && parent[..] == P && pq.Valid() && pq.Contents() == Q
      invariant Inv(adj, h, start, goal, D, P, W, T, clock, Q, -1) && Sum(D) >= 0
      decreases Sum(D), pq.size
    {
      var current;
      current, D, P, W, T, clock, Q := Round(adj, h, start, goal, dist, parent, fScore, pq, D, P, W, T, clock, Q);
      if current == goal {
        return true, dist, parent, D, P, W, T, clock;
      }
    }
    EmptyHeap(pq);
    Exhausted(adj, h, start, goal, D, P, W, T, clock);
    found := false;
  }

  /**
   * One pass of the main loop: pop the vertex of smallest key; if it is
   * not the goal, relax its edges.  Popping the goal changes nothing else
   * and shows its distance finite, and optimal with a consistent
   * heuristic.  Otherwise the sum of the distances falls, or it stays and
   * the heap shrinks.
   */
  method Round(adj: AdjLists, h: int -> int, start: int, goal: int, dist: array<int>, parent: array<int>,
               fScore: array<int>, pq: PriorityQueue, ghost D0: seq<int>, ghost P0: seq<int>, ghost W0: seq<int>,
               ghost T0: seq<nat>, ghost clock0: nat, ghost Q0: map<int, int>)
    returns (current: int, ghost D: seq<int>, ghost P: seq<int>, ghost W: seq<int>, ghost T: seq<nat>,
             ghost clock: nat, ghost Q: map<int, int>)
    requires dist.Length == |adj| && parent.Length == |adj| && fScore.Length == |adj|
    requires dist != parent && dist != fScore && parent != fScore
    requires dist != pq.heapIndex && parent != pq.heapIndex && fScore != pq.heapIndex
    requires pq.Valid() && pq.capacity == |adj| && pq.size > 0
    requires dist[..] == D0 && parent[..] == P0 && pq.Contents() == Q0
    requires Inv(adj, h, start, goal, D0, P0, W0, T0, clock0, Q0, -1)
    modifies dist, parent, fScore, pq, pq.nodes, pq.heapIndex
    ensures dist[..] == D && parent[..] == P && pq.Valid() && pq.Contents() == Q
    ensures current == goal ==>
              D == D0 && P == P0 && W == W0 && T == T0 && clock == clock0 && D0[goal] < INT_MAX &&
              (Consistent(adj, h) ==> LowerBound(adj, start, D0, goal))
    ensures current != goal ==>
              Inv(adj, h, start, goal, D, P, W, T, clock, Q, -1) && Sum(D) >= 0 &&
              (Sum(D) < Sum(D0) || (Sum(D) == Sum(D0) && pq.size < old(pq.size)))
  {
    D, P, W, T, clock := D0, P0, W0, T0, clock0;
    var r, currentF;
    r, current, currentF := pq.PopMin();
    if current == goal {
      if Consistent(adj, h) {
        GoalOptimal(adj, h, start, goal, D, P, W, T, clock, Q0);
      }
      Q := pq.Contents();
      return;
    }
    PopStep(adj, h, start, goal, D, P, W, T, clock, Q0, current);
    Q := Q0 - {current};
    D, P, W, T, clock, Q := Expand(adj, h, start, goal, current, dist, parent, fScore, pq, D, P, W, T, clock, Q);
    SumPrefixNonNeg(D, 0);
  }

  /**
   * The start of astar_shortest_path: no distance but dist[start] == 0,
   * no parents, and a heap holding start keyed by h(start).
   */
  method Init(adj: AdjLists, h: int -> int, start: int, goal: int)
    returns (dist: array<int>, parent: array<int>, fScore: array<int>, pq: PriorityQueue,
             ghost W: seq<int>, ghost T: seq<nat>, ghost clock: nat, ghost Q: map<int, int>)
    requires EdgesInRange(adj) && 0 <= start < |adj| && 0 <= goal < |adj|
    ensures fresh(dist) && fresh(parent) && fresh(fScore) && fresh(pq) && fresh(pq.nodes) && fresh(pq.heapIndex)
    ensures dist.Length == |adj| && parent.Length == |adj| && fScore.Length == |adj|
    ensures dist != parent && dist != fScore && parent != fScore
    ensures dist != pq.heapIndex && parent != pq.heapIndex && fScore != pq.heapIndex
    ensures pq.Valid() && pq.capacity == |adj| && pq.Contents() == Q && Q == map[start := h(start)]
    ensures Inv(adj, h, start, goal, dist[..], parent[..], W, T, clock, Q, -1)
  {
    var n := |adj|;
    dist := new int[n](_ => INT_MAX);
    fScore := new int[n](_ => INT_MAX);
    parent := new int[n](_ => -1);
    pq := new PriorityQueue(n);
    dist[start] := 0;
    fScore[start] := h(start);
    var r := pq.Insert(start, fScore[start]);
    W, T, clock, Q := seq(n, _ => 0), seq(n, _ => 0), 1, pq.Contents();
    Start(adj, h, start, goal, dist[..], parent[..], W, T);
  }

  /** A heap of size 0 holds nothing. */
  lemma EmptyHeap(pq: PriorityQueue)
    requires pq.Valid() && pq.size == 0
    ensures pq.Contents() == map[]
  {
    NoEntries(pq.nodes[..], pq.heapIndex[..]);
  }

  /**
   * astar_shortest_path.  On rejected arguments, when no walk from start to
   * goal that avoids negative edges costs less than INT_MAX, or when the
   * tree path does not fit maxPathLen, it returns 0 with distance -1 and
   * leaves outPath as it was.  Otherwise outPath[..len] is a walk from
   * start to goal over non-negative edges costing at most `distance`; when
   * the heuristic is consistent, as the NULL heuristic always is, it costs
   * exactly `distance` and no such walk costs less.  A cheap enough walk
   * always gives a result when maxPathLen is at least the number of
   * vertices.
   */
  method AStarShortestPath(g: Graph?, start: int, goal: int, outPath: array<int>, maxPathLen: int,
                           heuristic: Option<(int, int) -> int>)
    returns (len: int, distance: int)
    requires g != null ==> g.Valid()
    requires maxPathLen <= outPath.Length
    modifies outPath
    ensures BadArguments(g, start, goal, maxPathLen) ==> len == 0
    ensures len == 0 ==> distance == -1 && outPath[..] == old(outPath[..])
    ensures g != null && !BadArguments(g, start, goal, maxPathLen) &&
            (forall vs, ws :: NonNegWalk(g.adj, vs, ws, start, goal) ==> Sum(ws) >= INT_MAX) ==>
              len == 0
    ensures g != null && !BadArguments(g, start, goal, maxPathLen) && maxPathLen >= g.numVertices &&
            (exists vs, ws :: NonNegWalk(g.adj, vs, ws, start, goal) && Sum(ws) < INT_MAX) ==>
              len > 0
    ensures len > 0 ==>
              g != null && len <= maxPathLen && len <= g.numVertices && 0 <= distance < INT_MAX &&
              (exists ws :: NonNegWalk(g.adj, outPath[..len], ws, start, goal) && Sum(ws) <= distance) &&
              outPath[len..] == old(outPath[len..])
    ensures len > 0 && Consistent(g.adj, GoalHeuristic(heuristic, goal)) ==>
              (exists ws :: NonNegWalk(g.adj, outPath[..len], ws, start, goal) && Sum(ws) == distance) &&
              (forall vs, ws :: NonNegWalk(g.adj, vs, ws, start, goal) ==> Sum(ws) >= distance)
  {
    if g == null || start < 0 || goal < 0 || start >= g.numVertices || goal >= g.numVertices || maxPathLen < 2 {
      return 0, -1;
    }
    var n := g.numVertices;
    var adj := g.adj;
    var h := GoalHeuristic(heuristic, goal);
    var found, dist, parent, D, P, W, T, clock := Search(adj, h, start, goal);
    if !found {
      return 0, -1;
    }
    ghost var p, ws := FoundPath(adj, start, goal, D, P, W, T, clock, maxPathLen);
    len := ReconstructPath(start, goal, parent, outPath, maxPathLen, n);
    if len == 0 {
      return 0, -1;
    }
    distance := dist[goal];
  }
}
