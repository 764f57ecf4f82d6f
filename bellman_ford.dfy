/**
 * bellman_ford_shortest_path of src/algorithms.c: shortest paths with
 * negative weights.  Distances are C ints, INT_MAX meaning "not reached";
 * a relaxed distance is the exact 64-bit sum of a distance and a weight,
 * clamped into the int range when it is stored.  After at most n - 1
 * rounds of relaxation every vertex whose edge could still be relaxed is
 * marked, the marks are spread along the edges, and a marked goal fails
 * the search.
 *
 * A walk all of whose partial sums stay below INT_MAX is one the relaxation
 * can follow without a partial distance reading as "not reached"; the
 * guarantees below are stated for such walks.
 */
module BellmanFord {
  import opened Wrappers
  import opened Graphs
  import opened Paths
  import opened Reconstruct
  import opened Arguments

  /**
   * Storing a 64-bit sum into a C int: INT_MIN below the range, INT_MAX
   * above it, the sum itself inside.  The result is never below the sum
   * unless the sum exceeds INT_MAX.
   */
  function Clamp(x: int): (r: int)
    ensures INT_MIN <= r <= INT_MAX
    ensures INT_MIN <= x <= INT_MAX ==> r == x
    ensures x <= INT_MAX ==> x <= r
  {
    if x < INT_MIN then INT_MIN else if x > INT_MAX then INT_MAX else x
  }

  /**
   * The test both the relaxation rounds and the mark phase apply to an edge
   * u -> v of weight w: u is reached and going through it is cheaper.
   */
  predicate Improves(D: seq<int>, u: int, v: int, w: int)
  {
    0 <= u < |D| && 0 <= v < |D| && D[u] != INT_MAX && D[u] + w < D[v]
  }

  /** Some edge into v passes the test: the mark phase marks v. */
  ghost predicate Relaxable(adj: AdjLists, D: seq<int>, v: int)
  {
    exists u, k :: 0 <= u < |adj| && 0 <= k < |adj[u]| && adj[u][k].to == v && Improves(D, u, v, adj[u][k].weight)
  }

  /** No edge out of u passes the test. */
  ghost predicate VertexQuiet(adj: AdjLists, D: seq<int>, u: int)
    requires 0 <= u < |adj|
  {
    forall k :: 0 <= k < |adj[u]| ==> !Improves(D, u, adj[u][k].to, adj[u][k].weight)
  }

  /** Every distance is at most the one before. */
  ghost predicate Below(D: seq<int>, D0: seq<int>)
  {
    |D| == |D0| && forall x :: 0 <= x < |D| ==> D[x] <= D0[x]
  }

  lemma BelowTrans(D2: seq<int>, D1: seq<int>, D0: seq<int>)
    requires Below(D2, D1) && Below(D1, D0)
    ensures Below(D2, D0)
  {
  }

  /** Every partial sum of a walk, the empty one included, is below INT_MAX. */
  ghost predicate PrefixesFinite(ws: seq<int>)
  {
    forall k :: 0 <= k <= |ws| ==> Sum(ws[..k]) < INT_MAX
  }

  /**
   * The parent table: each vertex with a parent is reached, hangs from a
   * reached vertex through an edge of weight W[x], and its distance is at
   * least its parent's plus that weight (a clamped store only raises it).
   */
  ghost predicate Tree(adj: AdjLists, D: seq<int>, P: seq<int>, W: seq<int>)
    requires |P| == |D| && |W| == |D| && ParentsInRange(P)
  {
    forall x {:trigger P[x]} :: 0 <= x < |P| && P[x] != -1 ==>
      D[P[x]] < INT_MAX && D[x] < INT_MAX && HasWeightedEdge(adj, P[x], x, W[x]) && D[P[x]] + W[x] <= D[x]
  }

  /**
   * Every reached vertex x has a walk (V[x], U[x]) from start costing at
   * most D[x], none of whose partial sums reads as "not reached".
   */
  ghost predicate Witnessed(adj: AdjLists, start: int, D: seq<int>, V: seq<seq<int>>, U: seq<seq<int>>)
    requires |V| == |D| && |U| == |D|
  {
    forall x :: 0 <= x < |D| && D[x] < INT_MAX ==>
      WalkFromTo(adj, V[x], U[x], start, x) && PrefixesFinite(U[x]) && Sum(U[x]) <= D[x]
  }

  /** What the relaxation phase keeps: D, P as the C arrays; W, V, U are ghost records. */
  ghost predicate Inv(adj: AdjLists, start: int, D: seq<int>, P: seq<int>, W: seq<int>, V: seq<seq<int>>,
                      U: seq<seq<int>>)
  {
    |D| == |adj| && |P| == |adj| && |W| == |adj| && |V| == |adj| && |U| == |adj| &&
    0 <= start < |adj| && ParentsInRange(P) &&
    (forall x :: 0 <= x < |D| ==> INT_MIN <= D[x] <= INT_MAX) &&
    D[start] <= 0 &&
    Tree(adj, D, P, W) && Witnessed(adj, start, D, V, U)
  }

  /**
   * Ghost time stamps of the relaxation, all below `clock`: T[x] is when
   * x's distance was last lowered.  A vertex whose parent was lowered no
   * earlier than itself lies strictly above the parent's distance plus the
   * edge, and every reached vertex other than start has a parent.
   */
  ghost predicate Stamped(start: int, D: seq<int>, P: seq<int>, W: seq<int>, T: seq<int>, clock: int)
    requires |P| == |D| && |W| == |D| && ParentsInRange(P)
  {
    |T| == |D| && (forall x :: 0 <= x < |T| ==> T[x] < clock) &&
    (forall x {:trigger P[x]} :: 0 <= x < |D| && x != start && D[x] < INT_MAX ==> P[x] != -1) &&
    forall x {:trigger P[x]} :: 0 <= x < |P| && P[x] != -1 && T[P[x]] >= T[x] ==> D[P[x]] + W[x] < D[x]
  }

  /**
   * Edge `ed`, taken from a vertex at distance d, leaves its destination no
   * higher than d plus the weight, or at INT_MIN.
   */
  ghost predicate Settles(D: seq<int>, d: int, ed: Edge)
  {
    0 <= ed.to < |D| && (D[ed.to] <= d + ed.weight || D[ed.to] == INT_MIN)
  }

  /** Every edge out of u settles, taken from distance d. */
  ghost predicate VertexSettled(adj: AdjLists, D: seq<int>, d: int, u: int)
    requires 0 <= u < |adj|
  {
    forall k :: 0 <= k < |adj[u]| ==> Settles(D, d, adj[u][k])
  }

  /** Every partial sum of a walk, the empty one included, is an int other than INT_MAX. */
  ghost predicate PrefixesInRange(ws: seq<int>)
  {
    forall k :: 0 <= k <= |ws| ==> INT_MIN <= Sum(ws[..k]) < INT_MAX
  }

  /**
   * What k rounds achieve: every walk from start of at most k edges whose
   * partial sums are ints other than INT_MAX ends at a vertex whose
   * distance is at most its cost.
   */
  ghost predicate Bounded(adj: AdjLists, start: int, D: seq<int>, k: int)
  {
    forall vs, ws, t {:trigger WalkFromTo(adj, vs, ws, start, t)} ::
      WalkFromTo(adj, vs, ws, start, t) && |ws| <= k && PrefixesInRange(ws) && 0 <= t < |D| ==> D[t] <= Sum(ws)
  }

  /** No walk from start holds a closed stretch of negative weight: no negative cycle is reachable from start. */
  ghost predicate NoNegativeCycleFrom(adj: AdjLists, start: int)
  {
    forall vs, ws, t, i, j {:trigger WalkFromTo(adj, vs, ws, start, t), Sum(ws[i..j])} ::
      WalkFromTo(adj, vs, ws, start, t) && 0 <= i < j <= |ws| && vs[i] == vs[j] ==> Sum(ws[i..j]) >= 0
  }

  /** Every walk from start of fewer than n edges costs an int other than INT_MAX. */
  ghost predicate ShortWalksInRange(adj: AdjLists, start: int)
  {
    forall vs, ws, t {:trigger WalkFromTo(adj, vs, ws, start, t)} ::
      WalkFromTo(adj, vs, ws, start, t) && |ws| < |adj| ==> INT_MIN <= Sum(ws) < INT_MAX
  }

  /**
   * One step of the edge loop on edge e of u: when the test passes, v gets
   * the clamped sum and parent u; otherwise nothing changes.
   */
  function Relax(adj: AdjLists, D: seq<int>, P: seq<int>, u: int, e: int): (seq<int>, seq<int>)
    requires 0 <= u < |adj| && 0 <= e < |adj[u]| && |P| == |D|
  {
    var v, w := adj[u][e].to, adj[u][e].weight;
    if Improves(D, u, v, w) then (D[v := Clamp(D[u] + w)], P[v := u]) else (D, P)
  }

  /** A walk within budget stays within budget after one more step that keeps the total below INT_MAX. */
  lemma PrefixesExtend(ws: seq<int>, w: int)
    requires PrefixesFinite(ws) && Sum(ws) + w < INT_MAX
    ensures PrefixesFinite(ws + [w])
  {
    var ext := ws + [w];
    forall k | 0 <= k <= |ext|
      ensures Sum(ext[..k]) < INT_MAX
    {
      if k <= |ws| {
        assert ext[..k] == ws[..k];
      } else {
        assert ext[..k] == ws + [w];
        SumAppend(ws, w);
        assert ws[..|ws|] == ws;
      }
    }
  }

  /**
   * Giving v the clamped sum through edge e of u, and parent u, keeps the
   * parent table's property.
   */
  lemma TreeStep(adj: AdjLists, D: seq<int>, P: seq<int>, W: seq<int>, u: int, e: int)
    requires |P| == |D| && |W| == |D| && ParentsInRange(P) && Tree(adj, D, P, W)
    requires forall x :: 0 <= x < |D| ==> INT_MIN <= D[x] <= INT_MAX
    requires 0 <= u < |adj| && 0 <= e < |adj[u]| && Improves(D, u, adj[u][e].to, adj[u][e].weight)
    ensures var v, w := adj[u][e].to, adj[u][e].weight;
            Tree(adj, D[v := Clamp(D[u] + w)], P[v := u], W[v := w])
  {
    var v, w := adj[u][e].to, adj[u][e].weight;
    var D', P', W' := D[v := Clamp(D[u] + w)], P[v := u], W[v := w];
    EdgeAt(adj, u, e);
    forall x {:trigger P'[x]} | 0 <= x < |P'| && P'[x] != -1
      ensures D'[P'[x]] < INT_MAX && D'[x] < INT_MAX && HasWeightedEdge(adj, P'[x], x, W'[x]) &&
              D'[P'[x]] + W'[x] <= D'[x]
    {
      if x != v {
        assert P'[x] == P[x];
      }
    }
  }

  /** The same store gives v u's witness walk extended by the edge. */
  lemma WitnessStep(adj: AdjLists, start: int, D: seq<int>, V: seq<seq<int>>, U: seq<seq<int>>, u: int, e: int)
    requires |V| == |D| && |U| == |D| && Witnessed(adj, start, D, V, U)
    requires 0 <= u < |adj| && 0 <= e < |adj[u]| && Improves(D, u, adj[u][e].to, adj[u][e].weight)
    requires forall x :: 0 <= x < |D| ==> D[x] <= INT_MAX
    ensures var v, w := adj[u][e].to, adj[u][e].weight;
            Witnessed(adj, start, D[v := Clamp(D[u] + w)], V[v := V[u] + [v]], U[v := U[u] + [w]])
  {
    var v, w := adj[u][e].to, adj[u][e].weight;
    EdgeAt(adj, u, e);
    WalkExtend(adj, V[u], U[u], v, w);
    PrefixesExtend(U[u], w);
  }

  /**
   * The same store stamps v with the clock when it lowers v's distance; a
   * store that leaves v at INT_MIN keeps v's stamp, v then lying strictly
   * above its new parent plus the edge.
   */
  lemma StampStep(adj: AdjLists, start: int, D: seq<int>, P: seq<int>, W: seq<int>, T: seq<int>, clock: int,
                  u: int, e: int, D': seq<int>, P': seq<int>, W': seq<int>)
    returns (T': seq<int>, clock': int)
    requires |P| == |D| && |W| == |D| && ParentsInRange(P) && Tree(adj, D, P, W) && Stamped(start, D, P, W, T, clock)
    requires forall x :: 0 <= x < |D| ==> INT_MIN <= D[x] <= INT_MAX
    requires 0 <= u < |adj| && 0 <= e < |adj[u]| && Improves(D, u, adj[u][e].to, adj[u][e].weight)
    requires D' == D[adj[u][e].to := Clamp(D[u] + adj[u][e].weight)] && P' == P[adj[u][e].to := u]
    requires W' == W[adj[u][e].to := adj[u][e].weight]
    ensures ParentsInRange(P') && Stamped(start, D', P', W', T', clock')
  {
    var v, w := adj[u][e].to, adj[u][e].weight;
    var lowered := Clamp(D[u] + w) < D[v];
    if lowered {
      T', clock' := T[v := clock], clock + 1;
    } else {
      T', clock' := T, clock;
    }
    forall x {:trigger P'[x]} | 0 <= x < |P'| && P'[x] != -1 && T'[P'[x]] >= T'[x]
      ensures D'[P'[x]] + W'[x] < D'[x]
    {
      if x != v {
        assert P'[x] == P[x];
        if P[x] == v {
          assert D[v] + W[x] <= D[x];
        }
      }
    }
  }

  /**
   * One step of the edge loop: the C code, with its clamp.  The result is
   * Relax on the arrays, and the flag says whether the test passed.
   */
  method TryRelax(adj: AdjLists, u: int, e: int, dist: array<int>, parent: array<int>) returns (changed: bool)
    requires EdgesInRange(adj) && 0 <= u < |adj| && 0 <= e < |adj[u]|
    requires dist.Length == |adj| && parent.Length == |adj| && dist != parent
    requires dist[u] != INT_MAX
    modifies dist, parent
    ensures (dist[..], parent[..]) == Relax(adj, old(dist[..]), old(parent[..]), u, e)
    ensures changed <==> Improves(old(dist[..]), u, adj[u][e].to, adj[u][e].weight)
  {
    var v := adj[u][e].to;
    var weight := adj[u][e].weight;
    var newDistance := dist[u] + weight;
    if newDistance < dist[v] {
      if newDistance < INT_MIN {
        dist[v] := INT_MIN;
      } else if newDistance > INT_MAX {
        dist[v] := INT_MAX;
      } else {
        dist[v] := newDistance;
      }
      parent[v] := u;
      changed := true;
    } else {
      changed := false;
    }
  }

  /**
   * The edge loop of u after its first e edges, from distances D0 and
   * parents P0: the invariant and the stamps hold, no distance has risen,
   * u is still reached, those edges are settled from D0[u], and while no
   * change is reported nothing has changed and none of them passed the test.
   */
  ghost predicate EdgeLoop(adj: AdjLists, start: int, u: int, D0: seq<int>, P0: seq<int>, e: int, D: seq<int>,
                           P: seq<int>, W: seq<int>, V: seq<seq<int>>, U: seq<seq<int>>, T: seq<int>, clock: int,
                           changed: bool)
  {
    EdgesInRange(adj) && 0 <= u < |adj| && 0 <= e <= |adj[u]| && |D0| == |adj| &&
    Inv(adj, start, D, P, W, V, U) && Stamped(start, D, P, W, T, clock) && D[u] != INT_MAX && Below(D, D0) &&
    (forall k :: 0 <= k < e ==> Settles(D, D0[u], adj[u][k])) &&
    (!changed ==> D == D0 && P == P0 && forall k :: 0 <= k < e ==> !Improves(D0, u, adj[u][k].to, adj[u][k].weight))
  }

  /** The edges settled so far stay settled, and edge e joins them. */
  lemma SettledStep(adj: AdjLists, D0: seq<int>, D: seq<int>, D': seq<int>, u: int, e: int)
    requires EdgesInRange(adj) && 0 <= u < |adj| && 0 <= e < |adj[u]| && |D0| == |adj| && |D| == |adj|
    requires forall k :: 0 <= k < e ==> Settles(D, D0[u], adj[u][k])
    requires Settles(D', D[u], adj[u][e]) && Below(D', D) && D[u] <= D0[u]
    requires forall x :: 0 <= x < |D'| ==> INT_MIN <= D'[x]
    ensures forall k :: 0 <= k <= e ==> Settles(D', D0[u], adj[u][k])
  {
    forall k | 0 <= k <= e ensures Settles(D', D0[u], adj[u][k]) {
      if k < e {
        SettlesKept(D', D, D0[u], D0[u], adj[u][k]);
      } else {
        SettlesKept(D', D', D[u], D0[u], adj[u][k]);
      }
    }
  }

  /**
   * One step of the edge loop on edge e of u, from a reached u: the tables
   * become Relax's, and the loop state moves on to e + 1, the change flag
   * set when the test passed.  The ghost records follow: v's witness walk
   * becomes u's extended by the edge, and v is stamped.
   */
  lemma EdgeStep(adj: AdjLists, start: int, u: int, D0: seq<int>, P0: seq<int>, e: int, D: seq<int>, P: seq<int>,
                 W: seq<int>, V: seq<seq<int>>, U: seq<seq<int>>, T: seq<int>, clock: int, changed: bool)
    returns (D': seq<int>, P': seq<int>, W': seq<int>, V': seq<seq<int>>, U': seq<seq<int>>, T': seq<int>,
             clock': int)
    requires EdgeLoop(adj, start, u, D0, P0, e, D, P, W, V, U, T, clock, changed) && e < |adj[u]|
    ensures (D', P') == Relax(adj, D, P, u, e)
    ensures EdgeLoop(adj, start, u, D0, P0, e + 1, D', P', W', V', U', T', clock',
                     changed || Improves(D, u, adj[u][e].to, adj[u][e].weight))
  {
    if !Improves(D, u, adj[u][e].to, adj[u][e].weight) {
      D', P', W', V', U', T', clock' := D, P, W, V, U, T, clock;
      SettledStep(adj, D0, D, D, u, e);
    } else {
      D', P', W', V', U', T', clock' := EdgeLower(adj, start, u, D0, P0, e, D, P, W, V, U, T, clock, changed);
    }
  }

  /** EdgeStep when the test passes: v is lowered, re-parented, given u's walk plus the edge, and stamped. */
  lemma EdgeLower(adj: AdjLists, start: int, u: int, D0: seq<int>, P0: seq<int>, e: int, D: seq<int>, P: seq<int>,
                  W: seq<int>, V: seq<seq<int>>, U: seq<seq<int>>, T: seq<int>, clock: int, changed: bool)
    returns (D': seq<int>, P': seq<int>, W': seq<int>, V': seq<seq<int>>, U': seq<seq<int>>, T': seq<int>,
             clock': int)
    requires EdgeLoop(adj, start, u, D0, P0, e, D, P, W, V, U, T, clock, changed) && e < |adj[u]|
    requires Improves(D, u, adj[u][e].to, adj[u][e].weight)
    ensures (D', P') == Relax(adj, D, P, u, e)
    ensures EdgeLoop(adj, start, u, D0, P0, e + 1, D', P', W', V', U', T', clock', true)
  {
    var v, w := adj[u][e].to, adj[u][e].weight;
    D', P' := D[v := Clamp(D[u] + w)], P[v := u];
    W', V', U' := W[v := w], V[v := V[u] + [v]], U[v := U[u] + [w]];
    InvLower(adj, start, u, D0, e, D, P, W, V, U, D', P', W', V', U');
    T', clock' := StampStep(adj, start, D, P, W, T, clock, u, e, D', P', W');
    SettledStep(adj, D0, D, D', u, e);
  }

  /** The store of EdgeLower keeps the invariant. */
  lemma InvLower(adj: AdjLists, start: int, u: int, D0: seq<int>, e: int, D: seq<int>, P: seq<int>, W: seq<int>,
                 V: seq<seq<int>>, U: seq<seq<int>>, D': seq<int>, P': seq<int>, W': seq<int>, V': seq<seq<int>>,
                 U': seq<seq<int>>)
    requires EdgesInRange(adj) && 0 <= u < |adj| && 0 <= e < |adj[u]| && Inv(adj, start, D, P, W, V, U)
    requires D[u] != INT_MAX && Below(D, D0) && Improves(D, u, adj[u][e].to, adj[u][e].weight)
    requires D' == D[adj[u][e].to := Clamp(D[u] + adj[u][e].weight)] && P' == P[adj[u][e].to := u]
    requires W' == W[adj[u][e].to := adj[u][e].weight]
    requires V' == V[adj[u][e].to := V[u] + [adj[u][e].to]] && U' == U[adj[u][e].to := U[u] + [adj[u][e].weight]]
    ensures Inv(adj, start, D', P', W', V', U') && D'[u] != INT_MAX && Below(D', D) && Below(D', D0)
    ensures Settles(D', D[u], adj[u][e])
  {
    LowerBounds(adj, start, u, D0, e, D, D');
    TreeStep(adj, D, P, W, u, e);
    WitnessStep(adj, start, D, V, U, u, e);
  }

  /** The store of EdgeLower keeps every distance an int, start at most 0, u reached, and lowers only v. */
  lemma LowerBounds(adj: AdjLists, start: int, u: int, D0: seq<int>, e: int, D: seq<int>, D': seq<int>)
    requires EdgesInRange(adj) && 0 <= u < |adj| && 0 <= e < |adj[u]| && |D| == |adj| && 0 <= start < |adj|
    requires (forall x :: 0 <= x < |D| ==> INT_MIN <= D[x] <= INT_MAX) && D[start] <= 0 && D[u] != INT_MAX
    requires Below(D, D0) && Improves(D, u, adj[u][e].to, adj[u][e].weight)
    requires D' == D[adj[u][e].to := Clamp(D[u] + adj[u][e].weight)]
    ensures (forall x :: 0 <= x < |D'| ==> INT_MIN <= D'[x] <= INT_MAX) && D'[start] <= 0 && D'[u] != INT_MAX &&
            Below(D', D) && Below(D', D0)
  {
  }

  /** A settled edge stays settled as distances fall and as the distance it is taken from is allowed to rise. */
  lemma SettlesKept(D': seq<int>, D: seq<int>, d: int, d': int, ed: Edge)
    requires Settles(D, d, ed) && Below(D', D) && d <= d'
    requires forall x :: 0 <= x < |D'| ==> INT_MIN <= D'[x]
    ensures Settles(D', d', ed)
  {
  }

  /** The same for all edges out of u. */
  lemma VertexSettledKept(adj: AdjLists, D': seq<int>, D: seq<int>, d: int, d': int, u: int)
    requires 0 <= u < |adj| && VertexSettled(adj, D, d, u) && Below(D', D) && d <= d'
    requires forall x :: 0 <= x < |D'| ==> INT_MIN <= D'[x]
    ensures VertexSettled(adj, D', d', u)
  {
    forall k | 0 <= k < |adj[u]| ensures Settles(D', d', adj[u][k]) {
      SettlesKept(D', D, d, d', adj[u][k]);
    }
  }

  /**
   * The edge loop of one reached vertex u, in list order, re-reading
   * dist[u] at every edge: the loop state after all of u's edges.  It keeps
   * the invariant and the stamps and leaves every edge out of u settled from
   * u's distance before the loop; when it changed nothing, no edge out of u
   * could be relaxed.
   */
  method RelaxVertex(adj: AdjLists, start: int, u: int, dist: array<int>, parent: array<int>, ghost D0: seq<int>,
                     ghost P0: seq<int>, ghost W0: seq<int>, ghost V0: seq<seq<int>>, ghost U0: seq<seq<int>>,
                     ghost T0: seq<int>, ghost clock0: int)
    returns (changed: bool, ghost W: seq<int>, ghost V: seq<seq<int>>, ghost U: seq<seq<int>>, ghost T: seq<int>,
             ghost clock: int)
    requires EdgesInRange(adj) && 0 <= u < |adj|
    requires dist.Length == |adj| && parent.Length == |adj| && dist != parent
    requires dist[..] == D0 && parent[..] == P0 && Inv(adj, start, D0, P0, W0, V0, U0) && D0[u] != INT_MAX
    requires Stamped(start, D0, P0, W0, T0, clock0)
    modifies dist, parent
    ensures EdgeLoop(adj, start, u, D0, P0, |adj[u]|, dist[..], parent[..], W, V, U, T, clock, changed)
  {
    changed := false;
    W, V, U, T, clock := W0, V0, U0, T0, clock0;
    ghost var D, P := D0, P0;
    for e := 0 to |adj[u]|
      invariant dist[..] == D && parent[..] == P && EdgeLoop(adj, start, u, D0, P0, e, D, P, W, V, U, T, clock, changed)
    {
      D, P, W, V, U, T, clock := EdgeStep(adj, start, u, D0, P0, e, D, P, W, V, U, T, clock, changed);
      var c := TryRelax(adj, u, e, dist, parent);
      if c {
        changed := true;
      }
    }
  }

  /**
   * The vertex loop of a round after its first u vertices, from distances
   * D0 and parents P0: no distance has risen, every edge out of those
   * vertices that were reached before the round is settled from that
   * earlier distance, and while no change is reported nothing has changed
   * and no edge out of them passes the test.
   */
  ghost predicate VertexLoop(adj: AdjLists, D0: seq<int>, P0: seq<int>, u: int, D: seq<int>, P: seq<int>,
                             changed: bool)
  {
    EdgesInRange(adj) && 0 <= u <= |adj| && |D0| == |adj| && Below(D, D0) &&
    (forall x {:trigger VertexSettled(adj, D, D0[x], x)} :: 0 <= x < u && D0[x] < INT_MAX ==> VertexSettled(adj, D, D0[x], x)) &&
    (!changed ==> D == D0 && P == P0 && forall x :: 0 <= x < u ==> VertexQuiet(adj, D0, x))
  }

  /** Vertex u of the round, reached, after its edge loop. */
  lemma VertexStep(adj: AdjLists, start: int, D0: seq<int>, P0: seq<int>, u: int, Dp: seq<int>, Pp: seq<int>,
                   changed: bool, D: seq<int>, P: seq<int>, W: seq<int>, V: seq<seq<int>>, U: seq<seq<int>>,
                   T: seq<int>, clock: int, c: bool)
    requires u < |adj| && VertexLoop(adj, D0, P0, u, Dp, Pp, changed)
    requires EdgeLoop(adj, start, u, Dp, Pp, |adj[u]|, D, P, W, V, U, T, clock, c)
    ensures VertexLoop(adj, D0, P0, u + 1, D, P, changed || c)
  {
    StepSettled(adj, start, D0, P0, u, Dp, Pp, changed, D, P, W, V, U, T, clock, c);
    StepQuiet(adj, start, D0, P0, u, Dp, Pp, changed, D, P, W, V, U, T, clock, c);
    BelowTrans(D, Dp, D0);
  }

  /** One more vertex of the round has its edges settled. */
  lemma RoundSettled(adj: AdjLists, D0: seq<int>, Dp: seq<int>, D: seq<int>, u: int)
    requires 0 <= u < |adj| && |D0| == |adj| && Below(D, Dp) && Below(Dp, D0)
    requires forall x :: 0 <= x < |D| ==> INT_MIN <= D[x]
    requires forall x {:trigger VertexSettled(adj, Dp, D0[x], x)} :: 0 <= x < u && D0[x] < INT_MAX ==>
               VertexSettled(adj, Dp, D0[x], x)
    requires VertexSettled(adj, D, Dp[u], u)
    ensures forall x {:trigger VertexSettled(adj, D, D0[x], x)} :: 0 <= x < u + 1 && D0[x] < INT_MAX ==>
              VertexSettled(adj, D, D0[x], x)
  {
    forall x | 0 <= x <= u && D0[x] < INT_MAX ensures VertexSettled(adj, D, D0[x], x) {
      if x < u {
        VertexSettledKept(adj, D, Dp, D0[x], D0[x], x);
      } else {
        VertexSettledKept(adj, D, D, Dp[u], D0[u], u);
      }
    }
  }

  /** The settled part of VertexStep. */
  lemma StepSettled(adj: AdjLists, start: int, D0: seq<int>, P0: seq<int>, u: int, Dp: seq<int>, Pp: seq<int>,
                    changed: bool, D: seq<int>, P: seq<int>, W: seq<int>, V: seq<seq<int>>, U: seq<seq<int>>,
                    T: seq<int>, clock: int, c: bool)
    requires u < |adj| && VertexLoop(adj, D0, P0, u, Dp, Pp, changed)
    requires EdgeLoop(adj, start, u, Dp, Pp, |adj[u]|, D, P, W, V, U, T, clock, c)
    ensures forall x {:trigger VertexSettled(adj, D, D0[x], x)} :: 0 <= x < u + 1 && D0[x] < INT_MAX ==>
              VertexSettled(adj, D, D0[x], x)
  {
    BelowTrans(D, Dp, D0);
    RoundSettled(adj, D0, Dp, D, u);
  }

  /** The unchanged part of VertexStep. */
  lemma StepQuiet(adj: AdjLists, start: int, D0: seq<int>, P0: seq<int>, u: int, Dp: seq<int>, Pp: seq<int>,
                  changed: bool, D: seq<int>, P: seq<int>, W: seq<int>, V: seq<seq<int>>, U: seq<seq<int>>,
                  T: seq<int>, clock: int, c: bool)
    requires u < |adj| && VertexLoop(adj, D0, P0, u, Dp, Pp, changed)
    requires EdgeLoop(adj, start, u, Dp, Pp, |adj[u]|, D, P, W, V, U, T, clock, c)
    ensures !(changed || c) ==> D == D0 && P == P0 && forall x :: 0 <= x < u + 1 ==> VertexQuiet(adj, D0, x)
  {
  }

  /** Vertex u of the round, unreached, skipped. */
  lemma VertexSkip(adj: AdjLists, D0: seq<int>, P0: seq<int>, u: int, D: seq<int>, P: seq<int>, changed: bool)
    requires u < |adj| && VertexLoop(adj, D0, P0, u, D, P, changed) && D[u] == INT_MAX
    ensures VertexLoop(adj, D0, P0, u + 1, D, P, changed)
  {
    assert D[u] <= D0[u];
    if !changed {
      forall k | 0 <= k < |adj[u]| ensures !Improves(D0, u, adj[u][k].to, adj[u][k].weight) {}
    }
  }

  /**
   * One iteration of the relaxation rounds: every vertex in index order, a
   * vertex at INT_MAX skipped.  Afterwards the invariant and the stamps
   * hold, and every edge out of a vertex that was reached before the round
   * is settled from that earlier distance.  When it changed nothing, no edge
   * of the graph can be relaxed.
   */
  method Round(adj: AdjLists, start: int, dist: array<int>, parent: array<int>, ghost D0: seq<int>,
               ghost P0: seq<int>, ghost W0: seq<int>, ghost V0: seq<seq<int>>, ghost U0: seq<seq<int>>,
               ghost T0: seq<int>, ghost clock0: int)
    returns (changed: bool, ghost W: seq<int>, ghost V: seq<seq<int>>, ghost U: seq<seq<int>>, ghost T: seq<int>,
             ghost clock: int)
    requires EdgesInRange(adj)
    requires dist.Length == |adj| && parent.Length == |adj| && dist != parent
    requires dist[..] == D0 && parent[..] == P0 && Inv(adj, start, D0, P0, W0, V0, U0)
    requires Stamped(start, D0, P0, W0, T0, clock0)
    modifies dist, parent
    ensures Inv(adj, start, dist[..], parent[..], W, V, U) && Stamped(start, dist[..], parent[..], W, T, clock)
    ensures VertexLoop(adj, D0, P0, |adj|, dist[..], parent[..], changed)
  {
    changed := false;
    W, V, U, T, clock := W0, V0, U0, T0, clock0;
    for u := 0 to |adj|
      invariant Inv(adj, start, dist[..], parent[..], W, V, U) && Stamped(start, dist[..], parent[..], W, T, clock)
      invariant VertexLoop(adj, D0, P0, u, dist[..], parent[..], changed)
    {
      changed, W, V, U, T, clock := VisitVertex(adj, start, u, dist, parent, D0, P0, W, V, U, T, clock, changed);
    }
  }

  /** Vertex u of a round: its edge loop when it is reached, nothing otherwise. */
  method VisitVertex(adj: AdjLists, start: int, u: int, dist: array<int>, parent: array<int>, ghost D0: seq<int>,
                     ghost P0: seq<int>, ghost W0: seq<int>, ghost V0: seq<seq<int>>, ghost U0: seq<seq<int>>,
                     ghost T0: seq<int>, ghost clock0: int, changed0: bool)
    returns (changed: bool, ghost W: seq<int>, ghost V: seq<seq<int>>, ghost U: seq<seq<int>>, ghost T: seq<int>,
             ghost clock: int)
    requires 0 <= u < |adj| && dist.Length == |adj| && parent.Length == |adj| && dist != parent
    requires Inv(adj, start, dist[..], parent[..], W0, V0, U0) && Stamped(start, dist[..], parent[..], W0, T0, clock0)
    requires VertexLoop(adj, D0, P0, u, dist[..], parent[..], changed0)
    modifies dist, parent
    ensures Inv(adj, start, dist[..], parent[..], W, V, U) && Stamped(start, dist[..], parent[..], W, T, clock)
    ensures VertexLoop(adj, D0, P0, u + 1, dist[..], parent[..], changed)
  {
    ghost var D, P := dist[..], parent[..];
    if dist[u] != INT_MAX {
      var c;
      c, W, V, U, T, clock := RelaxVertex(adj, start, u, dist, parent, D, P, W0, V0, U0, T0, clock0);
      VertexStep(adj, start, D0, P0, u, D, P, changed0, dist[..], parent[..], W, V, U, T, clock, c);
      changed := changed0 || c;
    } else {
      changed, W, V, U, T, clock := changed0, W0, V0, U0, T0, clock0;
      VertexSkip(adj, D0, P0, u, D, P, changed);
    }
  }

  /**
   * The initialisation: every distance INT_MAX and every parent -1, then
   * dist[start] = 0.
   */
  method Init(adj: AdjLists, start: int)
    returns (dist: array<int>, parent: array<int>, ghost W: seq<int>, ghost V: seq<seq<int>>, ghost U: seq<seq<int>>,
             ghost T: seq<int>, ghost clock: int)
    requires 0 <= start < |adj|
    ensures fresh(dist) && fresh(parent) && dist != parent
    ensures dist.Length == |adj| && parent.Length == |adj|
    ensures dist[..] == seq(|adj|, x => if x == start then 0 else INT_MAX)
    ensures parent[..] == seq(|adj|, _ => -1)
    ensures Inv(adj, start, dist[..], parent[..], W, V, U) && Stamped(start, dist[..], parent[..], W, T, clock)
  {
    var n := |adj|;
    dist := new int[n];
    parent := new int[n];
    for i := 0 to n
      invariant forall j :: 0 <= j < i ==> dist[j] == INT_MAX && parent[j] == -1
    {
      dist[i] := INT_MAX;
      parent[i] := -1;
    }
    dist[start] := 0;
    W, V, U := seq(n, _ => 0), seq(n, x => [x]), seq(n, _ => []);
    T, clock := seq(n, _ => 0), 1;
    assert Sum(U[start][..0]) == 0;
  }

  /** Before any round: the only walk without an edge is start alone, at distance at most 0. */
  lemma BoundedNone(adj: AdjLists, start: int, D: seq<int>)
    requires 0 <= start < |D| && D[start] <= 0
    ensures Bounded(adj, start, D, 0)
  {
  }

  /**
   * A round after k rounds: a walk of k + 1 edges is one of k edges, cheap
   * enough at its end before the round, and a last edge the round settled.
   */
  lemma RoundBounded(adj: AdjLists, start: int, D0: seq<int>, D: seq<int>, k: nat)
    requires EdgesInRange(adj) && |D0| == |adj| && Bounded(adj, start, D0, k) && Below(D, D0)
    requires forall x :: 0 <= x < |D| ==> INT_MIN <= D[x]
    requires forall x {:trigger VertexSettled(adj, D, D0[x], x)} :: 0 <= x < |adj| && D0[x] < INT_MAX ==>
               VertexSettled(adj, D, D0[x], x)
    ensures Bounded(adj, start, D, k + 1)
  {
    forall vs, ws, t | WalkFromTo(adj, vs, ws, start, t) && |ws| <= k + 1 && PrefixesInRange(ws) && 0 <= t < |D|
      ensures D[t] <= Sum(ws)
    {
      if |ws| <= k {
        assert D[t] <= D0[t];
      } else {
        LastEdgeBounded(adj, start, D0, D, k, vs, ws);
      }
    }
  }

  /** The walk of k + 1 edges in RoundBounded. */
  lemma LastEdgeBounded(adj: AdjLists, start: int, D0: seq<int>, D: seq<int>, k: nat, vs: seq<int>, ws: seq<int>)
    requires EdgesInRange(adj) && |D0| == |adj| && Bounded(adj, start, D0, k) && |D| == |adj|
    requires forall x :: 0 <= x < |D| ==> INT_MIN <= D[x]
    requires forall x {:trigger VertexSettled(adj, D, D0[x], x)} :: 0 <= x < |adj| && D0[x] < INT_MAX ==>
               VertexSettled(adj, D, D0[x], x)
    requires |vs| >= 1 && WalkFromTo(adj, vs, ws, start, vs[|vs| - 1]) && |ws| == k + 1 && PrefixesInRange(ws)
    ensures 0 <= vs[|vs| - 1] < |D| && D[vs[|vs| - 1]] <= Sum(ws)
  {
    var pv, pw := vs[..|vs| - 1], ws[..|ws| - 1];
    var x, t, w := vs[|vs| - 2], vs[|vs| - 1], ws[|ws| - 1];
    WalkPrefix(adj, vs, ws);
    assert WalkFromTo(adj, pv, pw, start, x);
    assert PrefixesInRange(pw) by {
      forall m | 0 <= m <= |pw| ensures INT_MIN <= Sum(pw[..m]) < INT_MAX {
        assert pw[..m] == ws[..m];
      }
    }
    assert D0[x] <= Sum(pw);
    assert Sum(pw) < INT_MAX by {
      assert ws[..|ws| - 1] == pw;
    }
    var e :| 0 <= e < |adj[x]| && adj[x][e].to == t && adj[x][e].weight == w;
    assert VertexSettled(adj, D, D0[x], x);
    assert Settles(D, D0[x], adj[x][e]);
    assert INT_MIN <= Sum(ws) by {
      assert ws[..|ws|] == ws;
    }
  }

  /**
   * Once no edge can be relaxed, every walk from start whose partial sums
   * stay below INT_MAX ends no higher than its cost: the distances descend
   * along it from start's, at most 0.
   */
  lemma QuietBounded(adj: AdjLists, start: int, D: seq<int>, k: int)
    requires EdgesInRange(adj) && |D| == |adj| && 0 <= start < |adj| && D[start] <= 0
    requires forall u :: 0 <= u < |adj| ==> VertexQuiet(adj, D, u)
    ensures Bounded(adj, start, D, k)
  {
    forall vs, ws, t | WalkFromTo(adj, vs, ws, start, t) && |ws| <= k && PrefixesInRange(ws) && 0 <= t < |D|
      ensures D[t] <= Sum(ws)
    {
      WalkIsPath(adj, vs, ws);
      PathInRange(adj, vs);
      forall m | 0 <= m < |ws| ensures !Improves(D, vs[m], vs[m + 1], ws[m]) {
        assert HasWeightedEdge(adj, vs[m], vs[m + 1], ws[m]);
        var e :| 0 <= e < |adj[vs[m]]| && adj[vs[m]][e].to == vs[m + 1] && adj[vs[m]][e].weight == ws[m];
        assert VertexQuiet(adj, D, vs[m]);
      }
      forall m | 0 <= m < |ws| ensures D[vs[0]] + Sum(ws[0..m]) < INT_MAX {
        assert ws[0..m] == ws[..m];
      }
      Descent(adj, D, vs, ws, 0, |ws|);
      assert ws[0..|ws|] == ws;
    }
  }

  /**
   * Initialisation and up to n - 1 rounds, stopping after a round that
   * changed nothing.  Afterwards every walk from start of at most n - 1
   * edges whose partial sums are ints other than INT_MAX ends at a vertex
   * whose distance is at most its cost.
   */
  method Distances(adj: AdjLists, start: int)
    returns (dist: array<int>, parent: array<int>, ghost W: seq<int>, ghost V: seq<seq<int>>, ghost U: seq<seq<int>>,
             ghost T: seq<int>, ghost clock: int)
    requires EdgesInRange(adj) && 0 <= start < |adj|
    ensures fresh(dist) && fresh(parent) && dist != parent
    ensures dist.Length == |adj| && parent.Length == |adj|
    ensures Inv(adj, start, dist[..], parent[..], W, V, U) && Stamped(start, dist[..], parent[..], W, T, clock)
    ensures Bounded(adj, start, dist[..], |adj| - 1)
  {
    dist, parent, W, V, U, T, clock := Init(adj, start);
    BoundedNone(adj, start, dist[..]);
    for iteration := 0 to |adj| - 1
      invariant Inv(adj, start, dist[..], parent[..], W, V, U) && Stamped(start, dist[..], parent[..], W, T, clock)
      invariant Bounded(adj, start, dist[..], iteration)
    {
      ghost var D0 := dist[..];
      var changed;
      changed, W, V, U, T, clock := Round(adj, start, dist, parent, dist[..], parent[..], W, V, U, T, clock);
      if !changed {
        QuietBounded(adj, start, dist[..], |adj| - 1);
        break;
      }
      RoundBounded(adj, start, D0, dist[..], iteration);
    }
  }

  /**
   * The edge loop of the mark phase for a reached vertex u: marks the
   * destination of every edge of u that passes the test.
   */
  method MarkFrom(adj: AdjLists, u: int, dist: array<int>, affected: array<bool>)
    requires EdgesInRange(adj) && 0 <= u < |adj| && dist.Length == |adj| && affected.Length == |adj|
    modifies affected
    ensures forall v :: 0 <= v < |adj| ==>
              (affected[v] <==>
                 old(affected[v]) ||
                 exists k :: 0 <= k < |adj[u]| && adj[u][k].to == v && Improves(dist[..], u, v, adj[u][k].weight))
  {
    for e := 0 to |adj[u]|
      invariant forall v :: 0 <= v < |adj| ==>
                  (affected[v] <==>
                     old(affected[v]) ||
                     exists k :: 0 <= k < e && adj[u][k].to == v && Improves(dist[..], u, v, adj[u][k].weight))
    {
      var v := adj[u][e].to;
      var weight := adj[u][e].weight;
      var newDistance := dist[u] + weight;
      if dist[u] != INT_MAX && newDistance < dist[v] {
        affected[v] := true;
      }
    }
  }

  /** A0 marks exactly the vertices with an edge in that can still be relaxed. */
  ghost predicate MarksRelaxable(adj: AdjLists, D: seq<int>, A0: seq<bool>)
  {
    |A0| == |adj| && forall v :: 0 <= v < |adj| ==> (A0[v] <==> Relaxable(adj, D, v))
  }

  /** The mark phase: affected[v] holds exactly when some edge into v can still be relaxed. */
  method MarkRelaxable(adj: AdjLists, dist: array<int>) returns (affected: array<bool>)
    requires EdgesInRange(adj) && dist.Length == |adj|
    ensures fresh(affected) && affected.Length == |adj|
    ensures forall v :: 0 <= v < |adj| ==> (affected[v] <==> Relaxable(adj, dist[..], v))
  {
    affected := new bool[|adj|](_ => false);
    for u := 0 to |adj|
      invariant forall v :: 0 <= v < |adj| ==>
                  (affected[v] <==>
                     exists x, k :: 0 <= x < u && 0 <= k < |adj[x]| && adj[x][k].to == v &&
                                    Improves(dist[..], x, v, adj[x][k].weight))
    {
      if dist[u] != INT_MAX {
        MarkFrom(adj, u, dist, affected);
      }
    }
  }

  /** Every successor of a marked vertex is marked. */
  ghost predicate Closed(adj: AdjLists, A: seq<bool>)
    requires |A| == |adj| && EdgesInRange(adj)
  {
    forall u, k :: 0 <= u < |adj| && A[u] && 0 <= k < |adj[u]| ==> A[adj[u][k].to]
  }

  /** Every marked vertex is reachable from one marked in A0. */
  ghost predicate Origin(adj: AdjLists, A0: seq<bool>, A: seq<bool>)
    requires |A0| == |adj| && |A| == |adj|
  {
    forall x :: 0 <= x < |adj| && A[x] ==> exists s :: 0 <= s < |adj| && A0[s] && Reachable(adj, s, x)
  }

  /** Marks stay marked. */
  ghost predicate Grows(A: seq<bool>, B: seq<bool>)
  {
    |A| == |B| && forall x :: 0 <= x < |A| && A[x] ==> B[x]
  }

  /** A path to u followed by an edge u -> x. */
  lemma ReachableStep(adj: AdjLists, s: int, u: int, x: int)
    requires Reachable(adj, s, u) && HasEdge(adj, u, x)
    ensures Reachable(adj, s, x)
  {
    var vs :| PathFromTo(adj, vs, s, u);
    PathExtend(adj, vs, x);
    assert PathFromTo(adj, vs + [x], s, x);
  }

  /** The inner loop of the spreading phase: marks every successor of u. */
  method MarkSuccessors(adj: AdjLists, u: int, affected: array<bool>)
    requires EdgesInRange(adj) && 0 <= u < |adj| && affected.Length == |adj|
    modifies affected
    ensures forall x :: 0 <= x < |adj| ==> (affected[x] <==> old(affected[x]) || HasEdge(adj, u, x))
  {
    for e := 0 to |adj[u]|
      invariant forall x :: 0 <= x < |adj| ==>
                  (affected[x] <==> old(affected[x]) || exists k :: 0 <= k < e && adj[u][k].to == x)
    {
      affected[adj[u][e].to] := true;
    }
  }

  /**
   * One pass of the spreading phase.  It keeps every mark reachable from
   * A0 and drops none; a pass that changes nothing leaves a closed set, and
   * a closed set is left as it is.
   */
  method SpreadPass(adj: AdjLists, affected: array<bool>, ghost A0: seq<bool>)
    requires EdgesInRange(adj) && affected.Length == |adj| && |A0| == |adj|
    requires Origin(adj, A0, affected[..])
    modifies affected
    ensures Origin(adj, A0, affected[..]) && Grows(old(affected[..]), affected[..])
    ensures affected[..] == old(affected[..]) ==> Closed(adj, affected[..])
    ensures Closed(adj, old(affected[..])) ==> affected[..] == old(affected[..])
  {
    ghost var B := affected[..];
    for u := 0 to |adj|
      invariant Origin(adj, A0, affected[..]) && Grows(B, affected[..])
      invariant forall x, k :: 0 <= x < u && B[x] && 0 <= k < |adj[x]| ==> affected[adj[x][k].to]
      invariant Closed(adj, B) ==> affected[..] == B
    {
      if affected[u] {
        ghost var before := affected[..];
        MarkSuccessors(adj, u, affected);
        forall x | 0 <= x < |adj| && affected[x]
          ensures exists s :: 0 <= s < |adj| && A0[s] && Reachable(adj, s, x)
        {
          if !before[x] {
            var s :| 0 <= s < |adj| && A0[s] && Reachable(adj, s, u);
            ReachableStep(adj, s, u, x);
          }
        }
        forall k | 0 <= k < |adj[u]| ensures affected[adj[u][k].to] {
          EdgeAt(adj, u, k);
        }
      }
    }
  }

  /** A marks exactly the vertices reachable from one marked in A0. */
  ghost predicate Spreads(adj: AdjLists, A0: seq<bool>, A: seq<bool>)
    requires |A0| == |adj| && |A| == |adj|
  {
    forall x :: 0 <= x < |adj| ==> (A[x] <==> exists s :: 0 <= s < |adj| && A0[s] && Reachable(adj, s, x))
  }

  /** Each vertex is reachable from itself, so every initial mark has an origin. */
  lemma OriginStart(adj: AdjLists, A0: seq<bool>)
    requires |A0| == |adj|
    ensures Origin(adj, A0, A0)
  {
    forall x | 0 <= x < |adj| && A0[x] ensures Reachable(adj, x, x) {
      assert PathFromTo(adj, [x], x, x);
    }
  }

  /** Marks that grew and changed gained a vertex. */
  lemma NewMark(A: seq<bool>, B: seq<bool>) returns (i: int)
    requires Grows(A, B) && A != B
    ensures 0 <= i < |A| && !A[i] && B[i]
  {
    i :| 0 <= i < |A| && A[i] != B[i];
  }

  /** With every vertex marked, the marks are closed. */
  lemma AllMarkedClosed(adj: AdjLists, A: seq<bool>)
    requires EdgesInRange(adj) && |A| == |adj| && Unvisited(A) == 0
    ensures Closed(adj, A)
  {
    forall x | 0 <= x < |adj| ensures A[x] {
      NoneUnvisited(A, x);
    }
  }

  /**
   * Closed marks that hold A0 and have their origins in A0 are exactly the
   * vertices reachable from A0.
   */
  lemma ClosedMarks(adj: AdjLists, A0: seq<bool>, A: seq<bool>)
    requires EdgesInRange(adj) && |A0| == |adj| && |A| == |adj|
    requires Grows(A0, A) && Origin(adj, A0, A) && Closed(adj, A)
    ensures Spreads(adj, A0, A)
  {
    forall x | 0 <= x < |adj| ensures A[x] <==> exists s :: 0 <= s < |adj| && A0[s] && Reachable(adj, s, x) {
      if exists s :: 0 <= s < |adj| && A0[s] && Reachable(adj, s, x) {
        var s :| 0 <= s < |adj| && A0[s] && Reachable(adj, s, x);
        ClosedHoldsReachable(adj, A, s, x);
      }
    }
  }

  /** Closed marks hold every vertex reachable from a marked one. */
  lemma ClosedHoldsReachable(adj: AdjLists, A: seq<bool>, s: int, x: int)
    requires EdgesInRange(adj) && |A| == |adj| && Closed(adj, A)
    requires 0 <= s < |adj| && 0 <= x < |adj| && A[s] && Reachable(adj, s, x)
    ensures A[x]
  {
    var S := set y | 0 <= y < |adj| && A[y];
    forall a, b | a in S && HasEdge(adj, a, b) ensures b in S {
      var k :| 0 <= k < |adj[a]| && adj[a][k].to == b;
    }
    var vs :| PathFromTo(adj, vs, s, x);
    ClosedSetHoldsReachable(adj, S, s, vs);
  }

  /**
   * The n passes of the spreading phase: each either closes the marks or
   * adds one, so after n of them the marks are closed.
   */
  method SpreadPasses(adj: AdjLists, affected: array<bool>, ghost A0: seq<bool>)
    requires EdgesInRange(adj) && affected.Length == |adj| && |A0| == |adj|
    requires Origin(adj, A0, affected[..]) && Grows(A0, affected[..])
    modifies affected
    ensures Origin(adj, A0, affected[..]) && Grows(A0, affected[..]) && Closed(adj, affected[..])
  {
    for iter := 0 to |adj|
      invariant Origin(adj, A0, affected[..]) && Grows(A0, affected[..])
      invariant Closed(adj, affected[..]) || Unvisited(affected[..]) + iter <= |adj|
    {
      ghost var before := affected[..];
      SpreadPass(adj, affected, A0);
      ghost var after := affected[..];
      if after != before {
        var i := NewMark(before, after);
        UnvisitedDrops(before, after, i);
      }
    }
    if !Closed(adj, affected[..]) {
      AllMarkedClosed(adj, affected[..]);
    }
  }

  /**
   * The spreading phase.  Afterwards exactly the vertices reachable from an
   * initially marked one are marked.
   */
  method Spread(adj: AdjLists, affected: array<bool>)
    requires EdgesInRange(adj) && affected.Length == |adj|
    modifies affected
    ensures Spreads(adj, old(affected[..]), affected[..])
  {
    ghost var A0 := affected[..];
    OriginStart(adj, A0);
    SpreadPasses(adj, affected, A0);
    ClosedMarks(adj, A0, affected[..]);
  }

  /**
   * Vertices none of which is `start` and each of whose parents is among
   * them: the backward walk from one of them never leaves them.
   */
  lemma {:induction false} CycleAvoidsStart(parent: seq<int>, start: int, S: set<int>, at: int, budget: nat)
    requires ParentsInRange(parent) && at in S
    requires forall x :: x in S ==> 0 <= x < |parent| && x != start && parent[x] in S
    ensures forall y :: y in BackWalk(parent, start, at, budget) ==> y in S
    decreases budget
  {
    if budget > 0 {
      CycleAvoidsStart(parent, start, S, parent[at], budget - 1);
    }
  }

  /**
   * What the backward walk has collected on its way to `at`: vertices of
   * the table other than `start`, each the parent of the one before, the
   * last one's parent being `at`.
   */
  ghost predicate Collected(parent: seq<int>, start: int, pre: seq<int>, at: int)
  {
    (forall i :: 0 <= i < |pre| ==> 0 <= pre[i] < |parent| && pre[i] != start) &&
    (forall i :: 0 <= i < |pre| - 1 ==> parent[pre[i]] == pre[i + 1]) &&
    (|pre| > 0 ==> parent[pre[|pre| - 1]] == at)
  }

  /** Collecting `at`, which is not `start`, and moving on to its parent. */
  lemma CollectStep(parent: seq<int>, start: int, pre: seq<int>, at: int)
    requires Collected(parent, start, pre, at) && 0 <= at < |parent| && at != start
    ensures Collected(parent, start, pre + [at], parent[at])
  {
    var ext := pre + [at];
    forall i | 0 <= i < |ext| - 1 ensures parent[ext[i]] == ext[i + 1] {
      if i < |pre| - 1 {
        assert ext[i] == pre[i] && ext[i + 1] == pre[i + 1];
      }
    }
  }

  /**
   * Meeting a visited vertex: `at` already lies in the collected prefix,
   * so the whole backward walk misses `start`.
   */
  lemma CycleFails(parent: seq<int>, start: int, pre: seq<int>, at: int, budget: nat, walk: seq<int>)
    requires ParentsInRange(parent) && 0 <= at < |parent| && at in pre
    requires Collected(parent, start, pre, at)
    requires pre + BackWalk(parent, start, at, budget) == walk
    ensures walk != [] && walk[|walk| - 1] != start
  {
    var S := set i | 0 <= i < |pre| :: pre[i];
    forall x | x in S ensures 0 <= x < |parent| && x != start && parent[x] in S {
      var i :| 0 <= i < |pre| && pre[i] == x;
      if i < |pre| - 1 {
        assert parent[x] == pre[i + 1];
      }
    }
    var rest := BackWalk(parent, start, at, budget);
    CycleAvoidsStart(parent, start, S, at, budget);
    if rest == [] {
      assert walk[|walk| - 1] == pre[|pre| - 1];
    } else {
      assert walk[|walk| - 1] == rest[|rest| - 1];
      assert rest[|rest| - 1] in rest;
    }
  }

  /** Every vertex marked in the visited table has been collected. */
  ghost predicate VisitedIn(visited: seq<bool>, pre: seq<int>)
  {
    forall x :: 0 <= x < |visited| && visited[x] ==> x in pre
  }

  /**
   * visited[x] = true and temp_path[length] = x, as x joins the collected
   * vertices.
   */
  method Visit(visited: array<bool>, temp: array<int>, length: int, x: int)
    requires 0 <= x < visited.Length && 0 <= length < temp.Length
    modifies visited, temp
    ensures visited[..] == old(visited[..])[x := true]
    ensures temp[..length + 1] == old(temp[..length]) + [x]
  {
    visited[x] := true;
    temp[length] := x;
    assert temp[..length + 1] == temp[..length] + [x];
  }

  /**
   * The state of the trace loop: `pre` collected so far and marked in the
   * visited table `vis`, standing at `at`, with the rest of the walk still
   * ahead on the remaining budget.
   */
  ghost predicate Tracing(parent: seq<int>, start: int, walk: seq<int>, pre: seq<int>, vis: seq<bool>, at: int)
  {
    ParentsInRange(parent) && -1 <= at < |parent| && |pre| <= |parent| && |vis| == |parent| &&
    pre + BackWalk(parent, start, at, |parent| - |pre|) == walk && Collected(parent, start, pre, at) &&
    VisitedIn(vis, pre)
  }

  /** One step of the trace loop: collect `at`; stop at start, else go on to its parent. */
  lemma TraceStep(parent: seq<int>, start: int, walk: seq<int>, pre: seq<int>, vis: seq<bool>, at: int)
    requires Tracing(parent, start, walk, pre, vis, at) && 0 <= at < |parent| && |pre| < |parent|
    ensures at == start ==> pre + [at] == walk
    ensures at != start ==> Tracing(parent, start, walk, pre + [at], vis[at := true], parent[at])
  {
    BackWalkStep(parent, start, pre, at, |parent| - |pre|, walk);
    if at != start {
      CollectStep(parent, start, pre, at);
      forall x | 0 <= x < |vis| && vis[at := true][x] ensures x in pre + [at] {
        if x != at {
          assert x in pre;
        }
      }
    }
  }

  /** Meeting a visited vertex: the walk does not reach start. */
  lemma TraceCycle(parent: seq<int>, start: int, walk: seq<int>, pre: seq<int>, vis: seq<bool>, at: int)
    requires Tracing(parent, start, walk, pre, vis, at) && 0 <= at < |parent| && vis[at]
    ensures walk != [] && walk[|walk| - 1] != start
  {
    CycleFails(parent, start, pre, at, |parent| - |pre|, walk);
  }

  /**
   * The backward walk of bellman_ford_shortest_path, with its visited
   * table.  Without a repeat it collects BackWalk; meeting a visited vertex,
   * reported as `cycle`, happens only when BackWalk would not end at
   * `start` either.
   */
  method TraceBack(start: int, goal: int, parent: array<int>, numVertices: int)
    returns (temp: array<int>, length: int, cycle: bool)
    requires parent.Length == numVertices && ParentsInRange(parent[..]) && 0 <= goal < numVertices
    ensures fresh(temp) && 0 <= length <= temp.Length
    ensures !cycle ==> temp[..length] == BackWalk(parent[..], start, goal, numVertices)
    ensures cycle ==> var w := BackWalk(parent[..], start, goal, numVertices); w != [] && w[|w| - 1] != start
  {
    ghost var ps := parent[..];
    ghost var walk := BackWalk(ps, start, goal, numVertices);
    temp := new int[numVertices];
    var visited := new bool[numVertices](_ => false);
    length := 0;
    var current := goal;
    cycle := false;
    ghost var pre: seq<int> := [];
    while current != -1 && length < numVertices
      invariant 0 <= length <= numVertices && -1 <= current < numVertices
      invariant temp.Length == numVertices && visited.Length == numVertices
      invariant temp[..length] == pre && Tracing(ps, start, walk, pre, visited[..], current)
      decreases numVertices - length
    {
      if visited[current] {
        TraceCycle(ps, start, walk, pre, visited[..], current);
        cycle := true;
        return;
      }
      TraceStep(ps, start, walk, pre, visited[..], current);
      Visit(visited, temp, length, current);
      length := length + 1;
      if current == start {
        pre := walk;
        break;
      }
      pre := pre + [current];
      current := parent[current];
    }
  }

  /**
   * The path-building end of bellman_ford_shortest_path, for start != goal
   * and a positive bound.  The visited table and the earlier bound test do
   * not change the outcome: it is reconstruct_path's, ReconstructedPath.
   */
  method TracePath(start: int, goal: int, parent: array<int>, outPath: array<int>, maxLen: int, numVertices: int)
    returns (len: int)
    requires parent.Length == numVertices && ParentsInRange(parent[..]) && 0 <= goal < numVertices
    requires start != goal && 1 <= maxLen <= outPath.Length && parent != outPath
    modifies outPath
    ensures var r := ReconstructedPath(start, goal, parent[..], maxLen);
            (r.None? ==> len == 0 && outPath[..] == old(outPath[..])) &&
            (r.Some? ==> len == |r.value| && outPath[..len] == r.value && outPath[len..] == old(outPath[len..]))
  {
    var temp, length, cycle := TraceBack(start, goal, parent, numVertices);
    if cycle {
      return 0;
    }
    if length == 0 || temp[length - 1] != start {
      return 0;
    }
    if length > maxLen {
      return 0;
    }
    assert temp[0] == goal;
    CopyReversed(temp, length, outPath);
    len := length;
  }

  /** Sums over adjoining slices add up. */
  lemma {:induction false} SumSplit(ws: seq<int>, i: int, k: int)
    requires 0 <= i <= k <= |ws|
    ensures Sum(ws[..k]) == Sum(ws[..i]) + Sum(ws[i..k])
    decreases k
  {
    if k > i {
      SumSplit(ws, i, k - 1);
      assert ws[..k][..k - 1] == ws[..k - 1];
      assert ws[i..k][..k - 1 - i] == ws[i..k - 1];
    } else {
      assert ws[i..k] == [];
    }
  }

  /** No step of the walk passes the relaxation test. */
  ghost predicate WalkQuiet(D: seq<int>, vs: seq<int>, ws: seq<int>)
    requires |vs| == |ws| + 1
  {
    forall m :: 0 <= m < |ws| ==> !Improves(D, vs[m], vs[m + 1], ws[m])
  }

  /**
   * Along a walk where no step passes the test, and whose partial sums from
   * position i keep the distance at vs[i] plus them below INT_MAX, the
   * distance at position k is at most the distance at i plus the weights in
   * between.
   */
  lemma {:induction false} Descent(adj: AdjLists, D: seq<int>, vs: seq<int>, ws: seq<int>, i: int, k: int)
    requires EdgesInRange(adj) && |D| == |adj| && IsWalk(adj, vs, ws)
    requires forall m :: 0 <= m < |vs| ==> 0 <= vs[m] < |D|
    requires WalkQuiet(D, vs, ws) && 0 <= i <= k <= |ws|
    requires forall m :: i <= m < k ==> D[vs[i]] + Sum(ws[i..m]) < INT_MAX
    ensures D[vs[k]] <= D[vs[i]] + Sum(ws[i..k])
    decreases k
  {
    if k > i {
      Descent(adj, D, vs, ws, i, k - 1);
      assert ws[i..k][..k - 1 - i] == ws[i..k - 1];
      assert !Improves(D, vs[k - 1], vs[k], ws[k - 1]);
    } else {
      assert ws[i..k] == [];
    }
  }

  /** A path from vs[m] along the rest of vs, then on to goal. */
  lemma ReachableAlong(adj: AdjLists, vs: seq<int>, m: int, goal: int)
    requires IsPath(adj, vs) && 0 <= m < |vs| && Reachable(adj, vs[|vs| - 1], goal)
    ensures Reachable(adj, vs[m], goal)
  {
    var q :| PathFromTo(adj, q, vs[|vs| - 1], goal);
    var r := vs[m..] + q[1..];
    if m < |vs| - 1 {
      assert HasEdge(adj, vs[m], vs[m + 1]);
    }
    forall i | 0 <= i < |r| - 1 ensures HasEdge(adj, r[i], r[i + 1]) {
      if i < |vs| - m - 1 {
        assert r[i] == vs[m + i] && r[i + 1] == vs[m + i + 1];
      } else {
        assert r[i] == q[i - (|vs| - m - 1)] && r[i + 1] == q[i - (|vs| - m - 1) + 1];
      }
    }
    assert PathFromTo(adj, r, vs[m], goal);
  }

  /**
   * After the mark and spreading phases with the goal unmarked: on every
   * walk from which the goal is reachable, no step passes the test (its
   * destination would have been marked, and the goal with it).
   */
  lemma Quiet(adj: AdjLists, D: seq<int>, A0: seq<bool>, A: seq<bool>, goal: int, vs: seq<int>, ws: seq<int>)
    requires EdgesInRange(adj) && |D| == |adj| && |A0| == |adj| && |A| == |adj|
    requires MarksRelaxable(adj, D, A0)
    requires Spreads(adj, A0, A) && 0 <= goal < |adj| && !A[goal]
    requires IsWalk(adj, vs, ws) && Reachable(adj, vs[|vs| - 1], goal)
    ensures forall m :: 0 <= m < |vs| ==> 0 <= vs[m] < |adj|
    ensures WalkQuiet(D, vs, ws)
  {
    WalkIsPath(adj, vs, ws);
    PathInRange(adj, vs);
    forall m | 0 <= m < |ws| ensures !Improves(D, vs[m], vs[m + 1], ws[m]) {
      if Improves(D, vs[m], vs[m + 1], ws[m]) {
        assert HasWeightedEdge(adj, vs[m], vs[m + 1], ws[m]);
        var k :| 0 <= k < |adj[vs[m]]| && adj[vs[m]][k].to == vs[m + 1] && adj[vs[m]][k].weight == ws[m];
        assert Relaxable(adj, D, vs[m + 1]);
        ReachableAlong(adj, vs, m + 1, goal);
        assert false;
      }
    }
  }

  /**
   * A walk from start to goal that the relaxation can follow and that
   * holds a closed sub-walk of negative weight: a negative cycle on the
   * way to the goal.
   */
  ghost predicate NegativeCycleOnWay(adj: AdjLists, start: int, goal: int)
  {
    exists vs, ws, i, j :: WalkFromTo(adj, vs, ws, start, goal) && PrefixesFinite(ws) &&
      0 <= i < j <= |ws| && vs[i] == vs[j] && Sum(ws[i..j]) < 0
  }

  /**
   * Each vertex of `p` after the first is reached from the one before
   * through an edge of weight W[p[i]], at distance at least the one before
   * plus the weight, as along a parent chain.
   */
  ghost predicate TreeSteps(adj: AdjLists, D: seq<int>, W: seq<int>, p: seq<int>)
  {
    (forall i :: 0 <= i < |p| ==> 0 <= p[i] < |D| && p[i] < |W|) &&
    forall i :: 0 <= i < |p| - 1 ==>
      D[p[i]] < INT_MAX && HasWeightedEdge(adj, p[i], p[i + 1], W[p[i + 1]]) && D[p[i]] + W[p[i + 1]] <= D[p[i + 1]]
  }

  /** A parent chain from start takes tree steps. */
  lemma ChainSteps(adj: AdjLists, D: seq<int>, P: seq<int>, W: seq<int>, p: seq<int>)
    requires |P| == |D| && |W| == |D| && ParentsInRange(P) && Tree(adj, D, P, W)
    requires forall i :: 0 <= i < |p| ==> 0 <= p[i] < |P|
    requires forall i {:trigger P[p[i + 1]]} :: 0 <= i < |p| - 1 ==> p[i] == P[p[i + 1]]
    ensures TreeSteps(adj, D, W, p)
  {
    forall i | 0 <= i < |p| - 1
      ensures D[p[i]] < INT_MAX && HasWeightedEdge(adj, p[i], p[i + 1], W[p[i + 1]]) && D[p[i]] + W[p[i + 1]] <= D[p[i + 1]]
    {
      assert p[i] == P[p[i + 1]];
    }
  }

  /**
   * Tree steps from start make a walk through the recorded weights, each
   * of whose partial sums is at most the distance reached minus the
   * distance of start.
   */
  lemma {:induction false} TreeStepsWalk(adj: AdjLists, D: seq<int>, W: seq<int>, start: int, p: seq<int>)
    returns (ws: seq<int>)
    requires |p| >= 1 && p[0] == start && 0 <= start < |adj| && TreeSteps(adj, D, W, p)
    ensures WalkFromTo(adj, p, ws, start, p[|p| - 1])
    ensures forall m :: 0 <= m <= |ws| ==> Sum(ws[..m]) <= D[p[m]] - D[start]
    decreases |p|
  {
    if |p| == 1 {
      ws := [];
      return;
    }
    var q := p[..|p| - 1];
    TreeStepsPrefix(adj, D, W, p);
    var qs := TreeStepsWalk(adj, D, W, start, q);
    ws := TreeStepsExtend(adj, D, W, start, p, qs);
  }

  /** Dropping the last vertex keeps the tree steps. */
  lemma TreeStepsPrefix(adj: AdjLists, D: seq<int>, W: seq<int>, p: seq<int>)
    requires |p| >= 1 && TreeSteps(adj, D, W, p)
    ensures TreeSteps(adj, D, W, p[..|p| - 1])
  {
    var q := p[..|p| - 1];
    forall i | 0 <= i < |q| - 1
      ensures D[q[i]] < INT_MAX && HasWeightedEdge(adj, q[i], q[i + 1], W[q[i + 1]]) &&
              D[q[i]] + W[q[i + 1]] <= D[q[i + 1]]
    {
      assert q[i] == p[i] && q[i + 1] == p[i + 1];
    }
  }

  /** A walk along all but the last tree step extends by the last one. */
  lemma TreeStepsExtend(adj: AdjLists, D: seq<int>, W: seq<int>, start: int, p: seq<int>, qs: seq<int>)
    returns (ws: seq<int>)
    requires |p| >= 2 && p[0] == start && TreeSteps(adj, D, W, p)
    requires WalkFromTo(adj, p[..|p| - 1], qs, start, p[|p| - 2])
    requires forall m :: 0 <= m <= |qs| ==> Sum(qs[..m]) <= D[p[..|p| - 1][m]] - D[start]
    ensures WalkFromTo(adj, p, ws, start, p[|p| - 1])
    ensures forall m :: 0 <= m <= |ws| ==> Sum(ws[..m]) <= D[p[m]] - D[start]
  {
    var q := p[..|p| - 1];
    var x := p[|p| - 1];
    var k := |p| - 2;
    assert p[k] == q[|q| - 1] && p[k + 1] == x;
    WalkExtend(adj, q, qs, x, W[x]);
    assert p == q + [x];
    ws := qs + [W[x]];
    var c := seq(|p|, i requires 0 <= i < |p| => D[p[i]] - D[start]);
    forall m | 0 <= m <= |qs| ensures Sum(qs[..m]) <= c[m] {
      assert p[m] == q[m];
    }
    PrefixBoundsExtend(qs, W[x], c);
  }

  /** Partial sums bounded term by term stay bounded one weight further. */
  lemma PrefixBoundsExtend(qs: seq<int>, w: int, c: seq<int>)
    requires |c| == |qs| + 2
    requires forall m :: 0 <= m <= |qs| ==> Sum(qs[..m]) <= c[m]
    requires c[|qs|] + w <= c[|qs| + 1]
    ensures forall m :: 0 <= m <= |qs| + 1 ==> Sum((qs + [w])[..m]) <= c[m]
  {
    var ws := qs + [w];
    forall m | 0 <= m <= |ws| ensures Sum(ws[..m]) <= c[m] {
      if m <= |qs| {
        assert ws[..m] == qs[..m];
      } else {
        assert ws[..m] == ws && qs[..|qs|] == qs;
        SumAppend(qs, w);
      }
    }
  }

  /**
   * What the mark and spreading phases leave when the goal is not marked:
   * A0 marks the vertices with a relaxable edge in, A what is reachable
   * from them.
   */
  ghost predicate Unflagged(adj: AdjLists, D: seq<int>, A0: seq<bool>, A: seq<bool>, goal: int)
  {
    |D| == |adj| && |A0| == |adj| && |A| == |adj| && 0 <= goal < |adj| &&
    MarksRelaxable(adj, D, A0) &&
    Spreads(adj, A0, A) && !A[goal]
  }

  /**
   * With the goal unflagged, no walk to it the relaxation can follow costs
   * less than its distance.
   */
  lemma Optimal(adj: AdjLists, start: int, goal: int, D: seq<int>, A0: seq<bool>, A: seq<bool>,
                vs: seq<int>, ws: seq<int>)
    requires EdgesInRange(adj) && Unflagged(adj, D, A0, A, goal) && 0 <= start < |adj| && D[start] <= 0
    requires WalkFromTo(adj, vs, ws, start, goal) && PrefixesFinite(ws)
    ensures Sum(ws) >= D[goal]
  {
    assert PathFromTo(adj, [goal], goal, goal);
    Quiet(adj, D, A0, A, goal, vs, ws);
    forall m | 0 <= m < |ws| ensures D[vs[0]] + Sum(ws[0..m]) < INT_MAX {
      assert ws[0..m] == ws[..m];
    }
    Descent(adj, D, vs, ws, 0, |ws|);
    assert ws[0..|ws|] == ws;
  }

  /** With the goal unflagged, no negative cycle lies on a walk to it the relaxation can follow. */
  lemma NoNegativeCycle(adj: AdjLists, start: int, goal: int, D: seq<int>, A0: seq<bool>, A: seq<bool>)
    requires EdgesInRange(adj) && Unflagged(adj, D, A0, A, goal) && 0 <= start < |adj| && D[start] <= 0
    ensures !NegativeCycleOnWay(adj, start, goal)
  {
    if NegativeCycleOnWay(adj, start, goal) {
      var vs, ws, i, j :| WalkFromTo(adj, vs, ws, start, goal) && PrefixesFinite(ws) &&
                          0 <= i < j <= |ws| && vs[i] == vs[j] && Sum(ws[i..j]) < 0;
      assert PathFromTo(adj, [goal], goal, goal);
      Quiet(adj, D, A0, A, goal, vs, ws);
      forall m | 0 <= m < i ensures D[vs[0]] + Sum(ws[0..m]) < INT_MAX {
        assert ws[0..m] == ws[..m];
      }
      Descent(adj, D, vs, ws, 0, i);
      assert ws[0..i] == ws[..i];
      forall m | i <= m < j ensures D[vs[i]] + Sum(ws[i..m]) < INT_MAX {
        SumSplit(ws, i, m);
      }
      Descent(adj, D, vs, ws, i, j);
      assert false;
    }
  }

  /**
   * With the goal unflagged and reachable, start keeps distance 0: its
   * witness walk is a closed walk costing at most D[start], and no step of
   * it passes the test.
   */
  lemma StartZero(adj: AdjLists, start: int, goal: int, D: seq<int>, P: seq<int>, W: seq<int>, V: seq<seq<int>>,
                  U: seq<seq<int>>, A0: seq<bool>, A: seq<bool>)
    requires EdgesInRange(adj) && Inv(adj, start, D, P, W, V, U) && Unflagged(adj, D, A0, A, goal)
    requires Reachable(adj, start, goal)
    ensures D[start] == 0
  {
    var vs, ws := V[start], U[start];
    Quiet(adj, D, A0, A, goal, vs, ws);
    forall m | 0 <= m < |ws| ensures D[vs[0]] + Sum(ws[0..m]) < INT_MAX {
      assert ws[0..m] == ws[..m];
    }
    Descent(adj, D, vs, ws, 0, |ws|);
    assert ws[0..|ws|] == ws;
  }

  /**
   * With the goal unflagged, a walk ending at the goal whose running
   * distances stay finite costs at least the distance it climbs.
   */
  lemma ChainDescent(adj: AdjLists, D: seq<int>, A0: seq<bool>, A: seq<bool>, goal: int, vs: seq<int>, ws: seq<int>)
    requires EdgesInRange(adj) && Unflagged(adj, D, A0, A, goal)
    requires IsWalk(adj, vs, ws) && vs[|vs| - 1] == goal
    requires forall m :: 0 <= m < |ws| ==> D[vs[0]] + Sum(ws[..m]) < INT_MAX
    ensures D[goal] <= D[vs[0]] + Sum(ws)
  {
    assert PathFromTo(adj, [goal], goal, goal);
    Quiet(adj, D, A0, A, goal, vs, ws);
    forall m | 0 <= m < |ws| ensures D[vs[0]] + Sum(ws[0..m]) < INT_MAX {
      assert ws[0..m] == ws[..m];
    }
    Descent(adj, D, vs, ws, 0, |ws|);
    assert ws[0..|ws|] == ws;
  }

  /**
   * With the goal unflagged, the parent chain from start to it is a walk
   * costing exactly D[goal]: every tree edge on it is tight, and start is
   * at 0.
   */
  lemma ChainCost(adj: AdjLists, start: int, goal: int, D: seq<int>, P: seq<int>, W: seq<int>, V: seq<seq<int>>,
                  U: seq<seq<int>>, A0: seq<bool>, A: seq<bool>, p: seq<int>)
    returns (ws: seq<int>)
    requires EdgesInRange(adj) && Inv(adj, start, D, P, W, V, U) && Unflagged(adj, D, A0, A, goal)
    requires |p| >= 1 && p[0] == start && p[|p| - 1] == goal
    requires forall i :: 0 <= i < |p| ==> 0 <= p[i] < |P|
    requires forall i {:trigger P[p[i + 1]]} :: 0 <= i < |p| - 1 ==> p[i] == P[p[i + 1]]
    requires D[goal] < INT_MAX
    ensures WalkFromTo(adj, p, ws, start, goal) && PrefixesFinite(ws) && Sum(ws) == D[goal]
  {
    ChainSteps(adj, D, P, W, p);
    ws := TreeStepsWalk(adj, D, W, start, p);
    forall m | 0 <= m < |ws| ensures D[p[0]] + Sum(ws[..m]) < INT_MAX {
      assert D[p[m]] < INT_MAX;
    }
    ChainDescent(adj, D, A0, A, goal, p, ws);
    assert ws[..|ws|] == ws;
    WalkIsPath(adj, p, ws);
    assert PathFromTo(adj, p, start, goal);
    StartZero(adj, start, goal, D, P, W, V, U, A0, A);
    forall m | 0 <= m <= |ws| ensures Sum(ws[..m]) < INT_MAX {
      assert m < |ws| ==> D[p[m]] < INT_MAX;
    }
  }

  /**
   * With the goal unflagged, the parent chain from start to it is a walk of
   * cost D[goal], no walk to goal whose partial sums stay finite costs less,
   * and no negative cycle lies on one.
   */
  lemma Settled(adj: AdjLists, start: int, goal: int, D: seq<int>, P: seq<int>, W: seq<int>, V: seq<seq<int>>,
                U: seq<seq<int>>, A0: seq<bool>, A: seq<bool>, p: seq<int>)
    requires EdgesInRange(adj) && Inv(adj, start, D, P, W, V, U) && Unflagged(adj, D, A0, A, goal)
    requires |p| >= 1 && p[0] == start && p[|p| - 1] == goal
    requires forall i :: 0 <= i < |p| ==> 0 <= p[i] < |P|
    requires forall i {:trigger P[p[i + 1]]} :: 0 <= i < |p| - 1 ==> p[i] == P[p[i + 1]]
    requires D[goal] < INT_MAX
    ensures exists ws :: WalkFromTo(adj, p, ws, start, goal) && PrefixesFinite(ws) && Sum(ws) == D[goal]
    ensures forall vs, ws :: WalkFromTo(adj, vs, ws, start, goal) && PrefixesFinite(ws) ==> Sum(ws) >= D[goal]
    ensures !NegativeCycleOnWay(adj, start, goal)
  {
    var ws := ChainCost(adj, start, goal, D, P, W, V, U, A0, A, p);
    NoNegativeCycle(adj, start, goal, D, A0, A);
    forall vs, ws' | WalkFromTo(adj, vs, ws', start, goal) && PrefixesFinite(ws') ensures Sum(ws') >= D[goal] {
      Optimal(adj, start, goal, D, A0, A, vs, ws');
    }
  }

  /**
   * With no negative cycle reachable from start, a walk from start that
   * repeats a vertex loses the closed stretch between the two visits
   * without getting dearer: some walk of fewer than n edges to the same
   * vertex costs no more.
   */
  lemma {:induction false} Shorten(adj: AdjLists, start: int, t: int, vs: seq<int>, ws: seq<int>)
    returns (vs': seq<int>, ws': seq<int>)
    requires EdgesInRange(adj) && NoNegativeCycleFrom(adj, start) && WalkFromTo(adj, vs, ws, start, t)
    ensures WalkFromTo(adj, vs', ws', start, t) && |ws'| < |adj| && Sum(ws') <= Sum(ws)
    decreases |ws|
  {
    WalkIsPath(adj, vs, ws);
    PathInRange(adj, vs);
    if Distinct(vs) {
      DistinctBound(vs, |adj|);
      return vs, ws;
    }
    var i, j :| 0 <= i < j < |vs| && vs[i] == vs[j];
    CutWalk(adj, vs, ws, i, j);
    assert Sum(ws[i..j]) >= 0;
    var cv, cw := vs[..i] + vs[j..], ws[..i] + ws[j..];
    if i == 0 {
      assert cv[0] == vs[j];
    }
    assert cv[0] == start && cv[|cv| - 1] == t;
    vs', ws' := Shorten(adj, start, t, cv, cw);
  }

  /** Under ShortWalksInRange, every partial sum of a walk from start of fewer than n edges is in range too. */
  lemma ShortInRange(adj: AdjLists, start: int, t: int, vs: seq<int>, ws: seq<int>)
    requires ShortWalksInRange(adj, start) && WalkFromTo(adj, vs, ws, start, t) && |ws| < |adj|
    ensures PrefixesInRange(ws)
  {
    forall k | 0 <= k <= |ws| ensures INT_MIN <= Sum(ws[..k]) < INT_MAX {
      WalkSlice(adj, vs, ws, 0, k);
      assert ws[0..k] == ws[..k];
      assert WalkFromTo(adj, vs[0..k + 1], ws[..k], start, vs[k]);
    }
  }

  /**
   * After n - 1 rounds, with no negative cycle reachable from start and
   * every short walk from start in range: every walk from start ends at a
   * reached vertex whose distance is at most the walk's cost.
   */
  lemma BoundedWalk(adj: AdjLists, start: int, D: seq<int>, t: int, vs: seq<int>, ws: seq<int>)
    requires EdgesInRange(adj) && |D| == |adj| && Bounded(adj, start, D, |adj| - 1)
    requires NoNegativeCycleFrom(adj, start) && ShortWalksInRange(adj, start)
    requires WalkFromTo(adj, vs, ws, start, t)
    ensures 0 <= t < |adj| && D[t] <= Sum(ws) && D[t] < INT_MAX
  {
    var vs', ws' := Shorten(adj, start, t, vs, ws);
    ShortInRange(adj, start, t, vs', ws');
    WalkIsPath(adj, vs', ws');
    PathInRange(adj, vs');
    assert INT_MIN <= Sum(ws') < INT_MAX;
    assert D[t] <= Sum(ws');
  }

  /** Then no edge can be relaxed any more, so the mark phase marks nothing. */
  lemma Converged(adj: AdjLists, start: int, D: seq<int>, P: seq<int>, W: seq<int>, V: seq<seq<int>>,
                  U: seq<seq<int>>, A0: seq<bool>)
    requires EdgesInRange(adj) && Inv(adj, start, D, P, W, V, U) && Bounded(adj, start, D, |adj| - 1)
    requires NoNegativeCycleFrom(adj, start) && ShortWalksInRange(adj, start) && MarksRelaxable(adj, D, A0)
    ensures forall v :: 0 <= v < |adj| ==> !A0[v]
  {
    forall v | 0 <= v < |adj| ensures !A0[v] {
      if Relaxable(adj, D, v) {
        var u, k :| 0 <= u < |adj| && 0 <= k < |adj[u]| && adj[u][k].to == v && Improves(D, u, v, adj[u][k].weight);
        var w := adj[u][k].weight;
        assert WalkFromTo(adj, V[u], U[u], start, u) && Sum(U[u]) <= D[u];
        EdgeAt(adj, u, k);
        WalkExtend(adj, V[u], U[u], v, w);
        BoundedWalk(adj, start, D, v, V[u] + [v], U[u] + [w]);
      }
    }
  }

  /** And a goal reachable from start is reached. */
  lemma GoalReached(adj: AdjLists, start: int, goal: int, D: seq<int>)
    requires EdgesInRange(adj) && |D| == |adj| && Bounded(adj, start, D, |adj| - 1)
    requires NoNegativeCycleFrom(adj, start) && ShortWalksInRange(adj, start) && Reachable(adj, start, goal)
    ensures 0 <= goal < |adj| && D[goal] < INT_MAX
  {
    var vs :| PathFromTo(adj, vs, start, goal);
    var ws := PathWalk(adj, vs);
    BoundedWalk(adj, start, D, goal, vs, ws);
  }

  /** Steps each rising by at least their weight add up to at most the total rise. */
  lemma {:induction false} TelescopeLe(d: seq<int>, ws: seq<int>)
    requires |d| == |ws| + 1 && forall i :: 0 <= i < |ws| ==> d[i] + ws[i] <= d[i + 1]
    ensures Sum(ws) <= d[|ws|] - d[0]
    decreases |ws|
  {
    if ws != [] {
      TelescopeLe(d[..|d| - 1], ws[..|ws| - 1]);
    }
  }

  /** With one of the steps rising by more than its weight, strictly less. */
  lemma {:induction false} Telescope(d: seq<int>, ws: seq<int>, s: int)
    requires |d| == |ws| + 1 && forall i :: 0 <= i < |ws| ==> d[i] + ws[i] <= d[i + 1]
    requires 0 <= s < |ws| && d[s] + ws[s] < d[s + 1]
    ensures Sum(ws) < d[|ws|] - d[0]
    decreases |ws|
  {
    if s == |ws| - 1 {
      TelescopeLe(d[..|d| - 1], ws[..|ws| - 1]);
    } else {
      Telescope(d[..|d| - 1], ws[..|ws| - 1], s);
    }
  }

  /** Stamps strictly rising along a sequence rise from its first element to its last. */
  lemma {:induction false} Rising(T: seq<int>, q: seq<int>)
    requires |q| >= 2 && forall i :: 0 <= i < |q| ==> 0 <= q[i] < |T|
    requires forall i :: 0 <= i < |q| - 1 ==> T[q[i]] < T[q[i + 1]]
    ensures T[q[0]] < T[q[|q| - 1]]
    decreases |q|
  {
    if |q| > 2 {
      Rising(T, q[..|q| - 1]);
    }
  }

  /** Around a closed sequence the stamps cannot rise at every step. */
  lemma StampDrop(T: seq<int>, q: seq<int>) returns (s: int)
    requires |q| >= 2 && q[0] == q[|q| - 1] && forall i :: 0 <= i < |q| ==> 0 <= q[i] < |T|
    ensures 0 <= s < |q| - 1 && T[q[s]] >= T[q[s + 1]]
  {
    if forall i :: 0 <= i < |q| - 1 ==> T[q[i]] < T[q[i + 1]] {
      Rising(T, q);
      assert false;
    }
    s :| 0 <= s < |q| - 1 && T[q[s]] >= T[q[s + 1]];
  }

  /**
   * A cycle of the parent table, read forwards along the tree edges, is a
   * closed walk of negative weight: each step rises in distance by at least
   * its weight, and the step into the vertex whose parent was lowered no
   * earlier than itself rises by more.
   */
  lemma CycleWeight(adj: AdjLists, start: int, D: seq<int>, P: seq<int>, W: seq<int>, T: seq<int>, clock: int,
                    q: seq<int>)
    returns (ws: seq<int>)
    requires |D| == |adj| && |P| == |D| && |W| == |D| && ParentsInRange(P) && Tree(adj, D, P, W)
    requires Stamped(start, D, P, W, T, clock)
    requires |q| >= 2 && q[0] == q[|q| - 1] && forall i :: 0 <= i < |q| ==> 0 <= q[i] < |P|
    requires forall i {:trigger P[q[i + 1]]} :: 0 <= i < |q| - 1 ==> q[i] == P[q[i + 1]]
    ensures IsWalk(adj, q, ws) && Sum(ws) < 0
  {
    var d;
    ws, d := CycleSteps(adj, D, P, W, q);
    var s := StampDrop(T, q);
    assert P[q[s + 1]] == q[s];
    assert d[s] + ws[s] < d[s + 1];
    Telescope(d, ws, s);
  }

  /**
   * A parent chain read forwards along the tree edges: a walk through the
   * recorded weights, each step rising in distance by at least its weight.
   */
  lemma CycleSteps(adj: AdjLists, D: seq<int>, P: seq<int>, W: seq<int>, q: seq<int>)
    returns (ws: seq<int>, d: seq<int>)
    requires |D| == |adj| && |P| == |D| && |W| == |D| && ParentsInRange(P) && Tree(adj, D, P, W)
    requires |q| >= 1 && forall i :: 0 <= i < |q| ==> 0 <= q[i] < |P|
    requires forall i {:trigger P[q[i + 1]]} :: 0 <= i < |q| - 1 ==> q[i] == P[q[i + 1]]
    ensures IsWalk(adj, q, ws) && |d| == |q|
    ensures forall i :: 0 <= i < |q| ==> d[i] == D[q[i]]
    ensures forall i :: 0 <= i < |ws| ==> ws[i] == W[q[i + 1]] && d[i] + ws[i] <= d[i + 1]
  {
    ChainSteps(adj, D, P, W, q);
    d := seq(|q|, i requires 0 <= i < |q| => D[q[i]]);
    ws := seq(|q| - 1, i requires 0 <= i < |q| - 1 => W[q[i + 1]]);
    forall i | 0 <= i < |ws| ensures HasWeightedEdge(adj, q[i], q[i + 1], ws[i]) && d[i] + ws[i] <= d[i + 1] {
    }
  }

  /**
   * So with no negative cycle reachable from start, the parent table has no
   * cycle: a parent chain never comes back to the vertex it left.
   */
  lemma NoParentCycle(adj: AdjLists, start: int, D: seq<int>, P: seq<int>, W: seq<int>, V: seq<seq<int>>,
                      U: seq<seq<int>>, T: seq<int>, clock: int, q: seq<int>)
    requires EdgesInRange(adj) && Inv(adj, start, D, P, W, V, U) && Stamped(start, D, P, W, T, clock)
    requires NoNegativeCycleFrom(adj, start)
    requires |q| >= 2 && forall i :: 0 <= i < |q| ==> 0 <= q[i] < |P|
    requires forall i {:trigger P[q[i + 1]]} :: 0 <= i < |q| - 1 ==> q[i] == P[q[i + 1]]
    ensures q[0] != q[|q| - 1]
  {
    if q[0] == q[|q| - 1] {
      var ws := CycleWeight(adj, start, D, P, W, T, clock, q);
      var x, z := q[0], 0;
      assert x == P[q[z + 1]];
      assert D[x] < INT_MAX;
      var vs, all, i, j := CycleAfterWalk(adj, start, V[x], U[x], q, ws);
      assert false;
    }
  }

  /**
   * A closed walk (q, ws) at the end of a walk from start gives a walk from
   * start on which it is the stretch between the visits i and j of q[0].
   */
  lemma CycleAfterWalk(adj: AdjLists, start: int, vs0: seq<int>, ws0: seq<int>, q: seq<int>, ws: seq<int>)
    returns (vs: seq<int>, all: seq<int>, i: int, j: int)
    requires IsWalk(adj, q, ws) && |ws| > 0 && q[|q| - 1] == q[0] && WalkFromTo(adj, vs0, ws0, start, q[0])
    ensures WalkFromTo(adj, vs, all, start, q[0]) && 0 <= i < j <= |all| && vs[i] == vs[j] && all[i..j] == ws
  {
    WalkConcat(adj, vs0, ws0, q, ws);
    vs, all := vs0 + q[1..], ws0 + ws;
    i, j := |ws0|, |all|;
    assert all[i..j] == ws;
  }

  /**
   * A backward parent chain through reached vertices never repeats a
   * vertex: the stretch between two visits, read forwards, would be a
   * parent cycle.
   */
  lemma ChainSimple(adj: AdjLists, start: int, D: seq<int>, P: seq<int>, W: seq<int>, V: seq<seq<int>>,
                    U: seq<seq<int>>, T: seq<int>, clock: int, c: seq<int>, i: int, j: int)
    requires EdgesInRange(adj) && Inv(adj, start, D, P, W, V, U) && Stamped(start, D, P, W, T, clock)
    requires NoNegativeCycleFrom(adj, start)
    requires forall k :: 0 <= k < |c| ==> 0 <= c[k] < |P|
    requires forall k {:trigger P[c[k]]} :: 0 <= k < |c| - 1 ==> P[c[k]] == c[k + 1]
    requires 0 <= i < j < |c|
    ensures c[i] != c[j]
  {
    var q := seq(j - i + 1, m requires 0 <= m <= j - i => c[j - m]);
    forall m | 0 <= m < |q| - 1 ensures q[m] == P[q[m + 1]] {
      assert q[m + 1] == c[j - m - 1] && q[m] == c[j - m];
    }
    NoParentCycle(adj, start, D, P, W, V, U, T, clock, q);
  }

  /**
   * Following parents back from a reached vertex `at`, after a chain `pre`
   * of vertices other than start that led to it, with as many slots left as
   * vertices not yet on the chain, ends at start: it cannot meet -1 (a
   * reached vertex other than start has a parent), and it cannot run out of
   * slots (n vertices other than start would repeat one).
   */
  lemma {:induction false} ReachesStart(start: int, D: seq<int>, P: seq<int>, pre: seq<int>, at: int, budget: nat)
    requires ParentsReached(start, D, P) && ChainsShort(start, P)
    requires 0 <= at < |P| && D[at] < INT_MAX && |pre| + budget == |P| && budget >= 1
    requires BackChain(start, P, pre)
    requires pre != [] ==> P[pre[|pre| - 1]] == at
    ensures var w := BackWalk(P, start, at, budget); w != [] && w[|w| - 1] == start
    decreases budget
  {
    if at == start {
      return;
    }
    var c := pre + [at];
    forall k | 0 <= k < |c| - 1 ensures P[c[k]] == c[k + 1] {
      if k < |pre| - 1 {
        assert c[k] == pre[k] && c[k + 1] == pre[k + 1];
      }
    }
    assert BackChain(start, P, c);
    ReachesStart(start, D, P, c, P[at], budget - 1);
  }

  /** Each reached vertex other than start has a parent, itself reached. */
  ghost predicate ParentsReached(start: int, D: seq<int>, P: seq<int>)
  {
    |D| == |P| && ParentsInRange(P) &&
    forall x {:trigger P[x]} :: 0 <= x < |P| && x != start && D[x] < INT_MAX ==> 0 <= P[x] && D[P[x]] < INT_MAX
  }

  /** `c` follows parents backwards through vertices other than start. */
  ghost predicate BackChain(start: int, P: seq<int>, c: seq<int>)
  {
    (forall k :: 0 <= k < |c| ==> 0 <= c[k] < |P| && c[k] != start) &&
    forall k {:trigger P[c[k]]} :: 0 <= k < |c| - 1 ==> P[c[k]] == c[k + 1]
  }

  /** Every backward parent chain avoiding start has fewer than n vertices. */
  ghost predicate ChainsShort(start: int, P: seq<int>)
  {
    forall c {:trigger BackChain(start, P, c)} :: BackChain(start, P, c) ==> |c| < |P|
  }

  /** The tree and the stamps give every reached vertex other than start a reached parent. */
  lemma Parented(adj: AdjLists, start: int, D: seq<int>, P: seq<int>, W: seq<int>, V: seq<seq<int>>,
                 U: seq<seq<int>>, T: seq<int>, clock: int)
    requires Inv(adj, start, D, P, W, V, U) && Stamped(start, D, P, W, T, clock)
    ensures ParentsReached(start, D, P)
  {
    forall x | 0 <= x < |P| && x != start && D[x] < INT_MAX ensures 0 <= P[x] && D[P[x]] < INT_MAX {
      assert P[x] != -1;
    }
  }

  /** With no negative cycle reachable from start, every backward parent chain avoiding start is short. */
  lemma ShortChains(adj: AdjLists, start: int, D: seq<int>, P: seq<int>, W: seq<int>, V: seq<seq<int>>,
                    U: seq<seq<int>>, T: seq<int>, clock: int)
    requires EdgesInRange(adj) && Inv(adj, start, D, P, W, V, U) && Stamped(start, D, P, W, T, clock)
    requires NoNegativeCycleFrom(adj, start)
    ensures ChainsShort(start, P)
  {
    forall c | BackChain(start, P, c) ensures |c| < |P| {
      ChainFits(adj, start, D, P, W, V, U, T, clock, c);
    }
  }

  /** A backward parent chain that avoids start has fewer than n vertices, since n of them would repeat one. */
  lemma ChainFits(adj: AdjLists, start: int, D: seq<int>, P: seq<int>, W: seq<int>, V: seq<seq<int>>,
                  U: seq<seq<int>>, T: seq<int>, clock: int, c: seq<int>)
    requires EdgesInRange(adj) && Inv(adj, start, D, P, W, V, U) && Stamped(start, D, P, W, T, clock)
    requires NoNegativeCycleFrom(adj, start)
    requires forall k :: 0 <= k < |c| ==> 0 <= c[k] < |P| && c[k] != start
    requires forall k {:trigger P[c[k]]} :: 0 <= k < |c| - 1 ==> P[c[k]] == c[k + 1]
    ensures |c| < |P|
  {
    if |c| >= |P| {
      var d := c[..|P|];
      forall k | 0 <= k < |d| - 1 ensures P[d[k]] == d[k + 1] {
        assert d[k] == c[k] && d[k + 1] == c[k + 1];
      }
      var i, j := Repeats(d, |P|, start);
      ChainSimple(adj, start, D, P, W, V, U, T, clock, d, i, j);
      assert false;
    }
  }

  /**
   * Completeness: with no negative cycle reachable from start, every walk
   * from start of fewer than n edges costing an int other than INT_MAX, and
   * the goal reachable from start, the goal is not flagged, it is reached,
   * and its parent chain back to start fits any bound of at least n.
   */
  lemma Complete(adj: AdjLists, start: int, goal: int, D: seq<int>, P: seq<int>, W: seq<int>, V: seq<seq<int>>,
                 U: seq<seq<int>>, T: seq<int>, clock: int, A0: seq<bool>, A: seq<bool>, maxLen: int)
    requires EdgesInRange(adj) && Inv(adj, start, D, P, W, V, U) && Stamped(start, D, P, W, T, clock)
    requires Bounded(adj, start, D, |adj| - 1)
    requires |A0| == |adj| && |A| == |adj| && MarksRelaxable(adj, D, A0) && Spreads(adj, A0, A)
    requires 0 <= goal < |adj| && start != goal && maxLen >= |adj|
    requires NoNegativeCycleFrom(adj, start) && ShortWalksInRange(adj, start) && Reachable(adj, start, goal)
    ensures !A[goal] && D[goal] < INT_MAX && ReconstructedPath(start, goal, P, maxLen).Some?
  {
    Converged(adj, start, D, P, W, V, U, A0);
    GoalReached(adj, start, goal, D);
    Parented(adj, start, D, P, W, V, U, T, clock);
    ShortChains(adj, start, D, P, W, V, U, T, clock);
    ReachesStart(start, D, P, [], goal, |P|);
  }

  /**
   * The relaxation rounds, the mark phase and the spreading phase: Inv
   * holds of the distances and parents, A0 marks the vertices with an edge
   * the relaxation could still take, and `affected` what is reachable from
   * them.
   */
  method Analyse(adj: AdjLists, start: int)
    returns (dist: array<int>, parent: array<int>, affected: array<bool>,
             ghost W: seq<int>, ghost V: seq<seq<int>>, ghost U: seq<seq<int>>, ghost T: seq<int>, ghost clock: int,
             ghost A0: seq<bool>)
    requires EdgesInRange(adj) && 0 <= start < |adj|
    ensures fresh(dist) && fresh(parent) && fresh(affected) && dist != parent
    ensures dist.Length == |adj| && parent.Length == |adj| && affected.Length == |adj| && |A0| == |adj|
    ensures Inv(adj, start, dist[..], parent[..], W, V, U) && Stamped(start, dist[..], parent[..], W, T, clock)
    ensures Bounded(adj, start, dist[..], |adj| - 1)
    ensures MarksRelaxable(adj, dist[..], A0)
    ensures Spreads(adj, A0, affected[..])
  {
    dist, parent, W, V, U, T, clock := Distances(adj, start);
    ghost var D, P := dist[..], parent[..];
    affected := MarkRelaxable(adj, dist);
    A0 := affected[..];
    assert MarksRelaxable(adj, D, A0);
    Spread(adj, affected);
    assert dist[..] == D && parent[..] == P;
  }

  /**
   * bellman_ford_shortest_path.  Bad endpoints or a non-positive bound
   * fail; start == goal gives the one-vertex path at distance 0 at once.
   * Otherwise a path is returned only when the goal is not flagged, is
   * reached, and its parent chain fits the bound; it then costs exactly the
   * returned distance, and no walk to the goal the relaxation can follow
   * costs less.  A negative cycle on such a walk always fails the search.
   */
  method BellmanFordShortestPath(g: Graph?, start: int, goal: int, outPath: array<int>, maxPathLen: int)
    returns (len: int, distance: int)
    requires g != null ==> g.Valid()
    requires maxPathLen <= outPath.Length
    modifies outPath
    ensures BadEndpoints(g, start, goal) || maxPathLen <= 0 ==> len == 0
    ensures len == 0 ==> distance == -1 && outPath[..] == old(outPath[..])
    ensures !BadEndpoints(g, start, goal) && maxPathLen > 0 && start == goal ==>
              len == 1 && distance == 0 && outPath[0] == start && outPath[1..] == old(outPath[1..])
    ensures !BadEndpoints(g, start, goal) && start != goal && NegativeCycleOnWay(g.adj, start, goal) ==> len == 0
    ensures (!BadEndpoints(g, start, goal) && maxPathLen >= g.numVertices && NoNegativeCycleFrom(g.adj, start) &&
             ShortWalksInRange(g.adj, start) && Reachable(g.adj, start, goal)) ==> len > 0
    ensures len > 0 && start != goal ==>
              g != null && len <= maxPathLen && len <= g.numVertices && INT_MIN <= distance < INT_MAX &&
              (exists ws :: WalkFromTo(g.adj, outPath[..len], ws, start, goal) && PrefixesFinite(ws) && Sum(ws) == distance) &&
              (forall vs, ws :: WalkFromTo(g.adj, vs, ws, start, goal) && PrefixesFinite(ws) ==> Sum(ws) >= distance) &&
              outPath[len..] == old(outPath[len..])
  {
    if g == null || start < 0 || goal < 0 || start >= g.numVertices || goal >= g.numVertices || maxPathLen <= 0 {
      return 0, -1;
    }
    if start == goal {
      outPath[0] := start;
      return 1, 0;
    }
    var n := g.numVertices;
    var adj := g.adj;
    var dist, parent, affected, W, V, U, T, clock, A0 := Analyse(adj, start);
    len, distance := ReportPath(adj, start, goal, dist, parent, affected, outPath, maxPathLen, W, V, U, T, clock, A0);
  }

  /**
   * The end of bellman_ford_shortest_path once the three phases ran: a
   * flagged or unreached goal fails, and so does a parent chain that does
   * not fit the bound; otherwise the path is written and the goal's
   * distance returned.
   */
  method ReportPath(adj: AdjLists, start: int, goal: int, dist: array<int>, parent: array<int>,
                    affected: array<bool>, outPath: array<int>, maxPathLen: int, ghost W: seq<int>,
                    ghost V: seq<seq<int>>, ghost U: seq<seq<int>>, ghost T: seq<int>, ghost clock: int,
                    ghost A0: seq<bool>)
    returns (len: int, distance: int)
    requires EdgesInRange(adj) && 0 <= start < |adj| && 0 <= goal < |adj| && start != goal
    requires 1 <= maxPathLen <= outPath.Length
    requires dist.Length == |adj| && parent.Length == |adj| && affected.Length == |adj| && |A0| == |adj|
    requires parent != outPath && dist != outPath
    requires Inv(adj, start, dist[..], parent[..], W, V, U) && Stamped(start, dist[..], parent[..], W, T, clock)
    requires Bounded(adj, start, dist[..], |adj| - 1)
    requires MarksRelaxable(adj, dist[..], A0) && Spreads(adj, A0, affected[..])
    modifies outPath
    ensures len == 0 ==> distance == -1 && outPath[..] == old(outPath[..])
    ensures NegativeCycleOnWay(adj, start, goal) ==> len == 0
    ensures (maxPathLen >= |adj| && NoNegativeCycleFrom(adj, start) && ShortWalksInRange(adj, start) &&
             Reachable(adj, start, goal)) ==> len > 0
    ensures len > 0 ==>
              len <= maxPathLen && len <= |adj| && INT_MIN <= distance < INT_MAX &&
              (exists ws :: WalkFromTo(adj, outPath[..len], ws, start, goal) && PrefixesFinite(ws) && Sum(ws) == distance) &&
              (forall vs, ws :: WalkFromTo(adj, vs, ws, start, goal) && PrefixesFinite(ws) ==> Sum(ws) >= distance) &&
              outPath[len..] == old(outPath[len..])
  {
    if maxPathLen >= |adj| && NoNegativeCycleFrom(adj, start) && ShortWalksInRange(adj, start) && Reachable(adj, start, goal) {
      Complete(adj, start, goal, dist[..], parent[..], W, V, U, T, clock, A0, affected[..], maxPathLen);
    }
    if affected[goal] {
      return 0, -1;
    }
    if dist[goal] == INT_MAX {
      return 0, -1;
    }
    ghost var D, P, A := dist[..], parent[..], affected[..];
    assert Unflagged(adj, D, A0, A, goal);
    len := TracePath(start, goal, parent, outPath, maxPathLen, |adj|);
    if len == 0 {
      return 0, -1;
    }
    Settled(adj, start, goal, D, P, W, V, U, A0, A, outPath[..len]);
    distance := dist[goal];
  }
}
