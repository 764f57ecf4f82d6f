/**
 * Paths and walks through the edge lists, the vocabulary in which the
 * searches are specified.  A path is a vertex sequence whose consecutive
 * vertices are joined by an edge; a walk also records the weight of the
 * edge taken at each step (the graph is a multigraph, so the vertices alone
 * do not fix the weights).
 */
module Paths {
  import opened Graphs

  /** Some edge leads from u to v. */
  ghost predicate HasEdge(adj: AdjLists, u: int, v: int)
  {
    0 <= u < |adj| && exists k :: 0 <= k < |adj[u]| && adj[u][k].to == v
  }

  /** Some edge of weight w leads from u to v. */
  ghost predicate HasWeightedEdge(adj: AdjLists, u: int, v: int, w: int)
  {
    0 <= u < |adj| && exists k :: 0 <= k < |adj[u]| && adj[u][k].to == v && adj[u][k].weight == w
  }

  ghost predicate IsPath(adj: AdjLists, vs: seq<int>)
  {
    |vs| >= 1 && 0 <= vs[0] < |adj| &&
    forall i :: 0 <= i < |vs| - 1 ==> HasEdge(adj, vs[i], vs[i + 1])
  }

  ghost predicate PathFromTo(adj: AdjLists, vs: seq<int>, s: int, t: int)
  {
    IsPath(adj, vs) && vs[0] == s && vs[|vs| - 1] == t
  }

  ghost predicate Reachable(adj: AdjLists, s: int, t: int)
  {
    exists vs :: PathFromTo(adj, vs, s, t)
  }

  /** ws[i] is the weight of an edge from vs[i] to vs[i + 1]. */
  ghost predicate IsWalk(adj: AdjLists, vs: seq<int>, ws: seq<int>)
  {
    |vs| == |ws| + 1 && 0 <= vs[0] < |adj| &&
    forall i :: 0 <= i < |ws| ==> HasWeightedEdge(adj, vs[i], vs[i + 1], ws[i])
  }

  ghost predicate WalkFromTo(adj: AdjLists, vs: seq<int>, ws: seq<int>, s: int, t: int)
  {
    IsWalk(adj, vs, ws) && vs[0] == s && vs[|vs| - 1] == t
  }

  /** A walk that takes no negative-weight edge: the walks Dijkstra and A* consider. */
  ghost predicate NonNegWalk(adj: AdjLists, vs: seq<int>, ws: seq<int>, s: int, t: int)
  {
    WalkFromTo(adj, vs, ws, s, t) && forall i :: 0 <= i < |ws| ==> ws[i] >= 0
  }

  /** The total weight of a walk. */
  function Sum(ws: seq<int>): int
  {
    if ws == [] then 0 else Sum(ws[..|ws| - 1]) + ws[|ws| - 1]
  }

  /** The edges addWeightedEdge puts in front of vertex a's list. */
  function Inserted(source: int, destination: int, weight: Int32, undirected: bool, a: int): seq<Edge>
  {
    (if undirected && a == destination then [Edge(source, weight)] else []) +
    (if a == source then [Edge(destination, weight)] else [])
  }

  /** After addWeightedEdge each list is the inserted edges followed by the old list. */
  lemma WithEdgeList(adj: AdjLists, source: int, destination: int, weight: Int32, undirected: bool, a: int)
    requires 0 <= source < |adj| && 0 <= destination < |adj| && 0 <= a < |adj|
    ensures WithEdge(adj, source, destination, weight, undirected)[a] ==
              Inserted(source, destination, weight, undirected, a) + adj[a]
  {
  }

  /** Putting edges in front of vertex a's list adds exactly those edges from a. */
  lemma PrependedEdges(adj: AdjLists, r: AdjLists, front: seq<Edge>, a: int, b: int, x: int)
    requires |r| == |adj| && 0 <= a < |adj| && r[a] == front + adj[a]
    ensures HasWeightedEdge(r, a, b, x) <==>
              HasWeightedEdge(adj, a, b, x) || exists k :: 0 <= k < |front| && front[k].to == b && front[k].weight == x
  {
    if HasWeightedEdge(r, a, b, x) {
      var k :| 0 <= k < |r[a]| && r[a][k].to == b && r[a][k].weight == x;
      if k >= |front| {
        assert adj[a][k - |front|] == r[a][k];
      } else {
        assert front[k].to == b && front[k].weight == x;
      }
    }
    if HasWeightedEdge(adj, a, b, x) {
      var k :| 0 <= k < |adj[a]| && adj[a][k].to == b && adj[a][k].weight == x;
      assert r[a][k + |front|] == adj[a][k];
    }
    if k :| 0 <= k < |front| && front[k].to == b && front[k].weight == x {
      assert r[a][k] == front[k];
    }
  }

  /**
   * The edges after addWeightedEdge are the edges before, the inserted one
   * and, for an undirected insert, its reverse: nothing is lost and nothing
   * else appears.
   */
  lemma WithEdgeEdges(adj: AdjLists, source: int, destination: int, weight: Int32, undirected: bool,
                      a: int, b: int, x: int)
    requires 0 <= source < |adj| && 0 <= destination < |adj|
    ensures HasWeightedEdge(WithEdge(adj, source, destination, weight, undirected), a, b, x) <==>
              HasWeightedEdge(adj, a, b, x) ||
              (a == source && b == destination && x == weight) ||
              (undirected && a == destination && b == source && x == weight)
  {
    if 0 <= a < |adj| {
      var front := Inserted(source, destination, weight, undirected, a);
      WithEdgeList(adj, source, destination, weight, undirected, a);
      PrependedEdges(adj, WithEdge(adj, source, destination, weight, undirected), front, a, b, x);
      if a == source && b == destination && x == weight {
        assert front[|front| - 1] == Edge(destination, weight);
      }
      if undirected && a == destination && b == source && x == weight {
        assert front[0] == Edge(source, weight);
      }
    }
  }

  /** Every vertex of a path lies in the graph. */
  lemma PathInRange(adj: AdjLists, vs: seq<int>)
    requires EdgesInRange(adj) && IsPath(adj, vs)
    ensures forall i :: 0 <= i < |vs| ==> 0 <= vs[i] < |adj|
  {
    forall i | 0 < i < |vs|
      ensures 0 <= vs[i] < |adj|
    {
      assert HasEdge(adj, vs[i - 1], vs[i]);
    }
  }

  /** A weighted walk is in particular a path. */
  lemma WalkIsPath(adj: AdjLists, vs: seq<int>, ws: seq<int>)
    requires IsWalk(adj, vs, ws)
    ensures IsPath(adj, vs)
  {
    forall i | 0 <= i < |vs| - 1
      ensures HasEdge(adj, vs[i], vs[i + 1])
    {
      assert HasWeightedEdge(adj, vs[i], vs[i + 1], ws[i]);
    }
  }

  lemma SumAppend(ws: seq<int>, w: int)
    ensures Sum(ws + [w]) == Sum(ws) + w
  {
    assert (ws + [w])[..|ws|] == ws;
  }

  /** Changing one weight changes the total by the difference. */
  lemma {:induction false} SumUpdate(ws: seq<int>, i: int, x: int)
    requires 0 <= i < |ws|
    ensures Sum(ws[i := x]) == Sum(ws) - ws[i] + x
    decreases |ws|
  {
    if i < |ws| - 1 {
      assert ws[i := x][..|ws| - 1] == ws[..|ws| - 1][i := x];
      SumUpdate(ws[..|ws| - 1], i, x);
    } else {
      assert ws[i := x][..|ws| - 1] == ws[..|ws| - 1];
    }
  }

  /** A walk whose weights are all non-negative costs at least as much as any of its prefixes. */
  lemma {:induction false} SumPrefixNonNeg(ws: seq<int>, i: nat)
    requires i <= |ws|
    requires forall j :: 0 <= j < |ws| ==> ws[j] >= 0
    ensures Sum(ws[..i]) <= Sum(ws)
    decreases |ws|
  {
    if i < |ws| {
      assert ws[..|ws| - 1][..i] == ws[..i];
      SumPrefixNonNeg(ws[..|ws| - 1], i);
    } else {
      assert ws[..i] == ws;
    }
  }

  /** Extending a path by an edge from its last vertex. */
  lemma PathExtend(adj: AdjLists, vs: seq<int>, v: int)
    requires IsPath(adj, vs) && HasEdge(adj, vs[|vs| - 1], v)
    ensures IsPath(adj, vs + [v])
  {
    var ext := vs + [v];
    forall i | 0 <= i < |ext| - 1
      ensures HasEdge(adj, ext[i], ext[i + 1])
    {
      if i < |vs| - 1 {
        assert ext[i] == vs[i] && ext[i + 1] == vs[i + 1];
      }
    }
  }

  /** Extending a walk by an edge from its last vertex. */
  lemma WalkExtend(adj: AdjLists, vs: seq<int>, ws: seq<int>, v: int, w: int)
    requires IsWalk(adj, vs, ws) && HasWeightedEdge(adj, vs[|vs| - 1], v, w)
    ensures IsWalk(adj, vs + [v], ws + [w])
    ensures Sum(ws + [w]) == Sum(ws) + w
  {
    var ext, wext := vs + [v], ws + [w];
    forall i | 0 <= i < |wext|
      ensures HasWeightedEdge(adj, ext[i], ext[i + 1], wext[i])
    {
      if i < |ws| {
        assert ext[i] == vs[i] && ext[i + 1] == vs[i + 1] && wext[i] == ws[i];
      }
    }
    SumAppend(ws, w);
  }

  /** Dropping the last step of a walk leaves a walk to the previous vertex. */
  lemma WalkPrefix(adj: AdjLists, vs: seq<int>, ws: seq<int>)
    requires IsWalk(adj, vs, ws) && |ws| > 0
    ensures IsWalk(adj, vs[..|vs| - 1], ws[..|ws| - 1])
    ensures HasWeightedEdge(adj, vs[|vs| - 2], vs[|vs| - 1], ws[|ws| - 1])
    ensures Sum(ws) == Sum(ws[..|ws| - 1]) + ws[|ws| - 1]
  {
    var pv, pw := vs[..|vs| - 1], ws[..|ws| - 1];
    forall i | 0 <= i < |pw|
      ensures HasWeightedEdge(adj, pv[i], pv[i + 1], pw[i])
    {
      assert pv[i] == vs[i] && pv[i + 1] == vs[i + 1] && pw[i] == ws[i];
    }
  }

  /** Dropping the last vertex of a path leaves a path to the previous vertex. */
  lemma PathPrefix(adj: AdjLists, vs: seq<int>)
    requires IsPath(adj, vs) && |vs| > 1
    ensures IsPath(adj, vs[..|vs| - 1])
    ensures HasEdge(adj, vs[|vs| - 2], vs[|vs| - 1])
  {
    var pv := vs[..|vs| - 1];
    forall i | 0 <= i < |pv| - 1
      ensures HasEdge(adj, pv[i], pv[i + 1])
    {
      assert pv[i] == vs[i] && pv[i + 1] == vs[i + 1];
    }
  }

  /** The edge stored at position k of u's list. */
  lemma EdgeAt(adj: AdjLists, u: int, k: int)
    requires 0 <= u < |adj| && 0 <= k < |adj[u]|
    ensures HasEdge(adj, u, adj[u][k].to)
    ensures HasWeightedEdge(adj, u, adj[u][k].to, adj[u][k].weight)
  {
  }

  /** The total of two weight sequences laid end to end. */
  lemma {:induction false} SumConcat(a: seq<int>, b: seq<int>)
    ensures Sum(a + b) == Sum(a) + Sum(b)
    decreases |b|
  {
    if b == [] {
      assert a + b == a;
    } else {
      SumConcat(a, b[..|b| - 1]);
      assert (a + b)[..|a + b| - 1] == a + b[..|b| - 1];
    }
  }

  /** A walk followed by a walk from its last vertex. */
  lemma WalkConcat(adj: AdjLists, vs1: seq<int>, ws1: seq<int>, vs2: seq<int>, ws2: seq<int>)
    requires IsWalk(adj, vs1, ws1) && IsWalk(adj, vs2, ws2) && vs2[0] == vs1[|vs1| - 1]
    ensures IsWalk(adj, vs1 + vs2[1..], ws1 + ws2)
  {
    var vs, ws := vs1 + vs2[1..], ws1 + ws2;
    forall i | 0 <= i < |ws| ensures HasWeightedEdge(adj, vs[i], vs[i + 1], ws[i]) {
      if i < |ws1| {
        assert vs[i] == vs1[i] && vs[i + 1] == vs1[i + 1] && ws[i] == ws1[i];
      } else {
        var j := i - |ws1|;
        assert vs[i] == vs2[j] && vs[i + 1] == vs2[j + 1] && ws[i] == ws2[j];
      }
    }
  }

  /** The stretch of a walk from position a to position b, itself a walk. */
  lemma WalkSlice(adj: AdjLists, vs: seq<int>, ws: seq<int>, a: int, b: int)
    requires IsWalk(adj, vs, ws) && 0 <= a <= b <= |ws| && 0 <= vs[a] < |adj|
    ensures IsWalk(adj, vs[a..b + 1], ws[a..b])
  {
    var sv, sw := vs[a..b + 1], ws[a..b];
    forall i | 0 <= i < |sw| ensures HasWeightedEdge(adj, sv[i], sv[i + 1], sw[i]) {
      assert sv[i] == vs[a + i] && sv[i + 1] == vs[a + i + 1] && sw[i] == ws[a + i];
    }
  }

  /**
   * Cutting out the closed stretch between two visits of one vertex leaves
   * a walk with the same ends, cheaper by the weight of the stretch.
   */
  lemma CutWalk(adj: AdjLists, vs: seq<int>, ws: seq<int>, i: int, j: int)
    requires IsWalk(adj, vs, ws) && 0 <= i < j <= |ws| && vs[i] == vs[j]
    ensures IsWalk(adj, vs[..i] + vs[j..], ws[..i] + ws[j..])
    ensures Sum(ws) == Sum(ws[..i] + ws[j..]) + Sum(ws[i..j])
  {
    var cv, cw := vs[..i] + vs[j..], ws[..i] + ws[j..];
    assert |cv| == |cw| + 1;
    forall m | 0 <= m < |cw| ensures HasWeightedEdge(adj, cv[m], cv[m + 1], cw[m]) {
      if m < i {
        assert cv[m] == vs[m] && cw[m] == ws[m];
        assert cv[m + 1] == vs[m + 1];
      } else {
        var d := j - i;
        assert cv[m] == vs[m + d] && cv[m + 1] == vs[m + d + 1] && cw[m] == ws[m + d];
      }
    }
    if i == 0 {
      assert cv[0] == vs[j] && HasWeightedEdge(adj, vs[0], vs[1], ws[0]);
    }
    SumCut(ws, i, j);
  }

  /** Weights split at i and j add up to the whole. */
  lemma SumCut(ws: seq<int>, i: int, j: int)
    requires 0 <= i <= j <= |ws|
    ensures Sum(ws) == Sum(ws[..i] + ws[j..]) + Sum(ws[i..j])
  {
    assert ws == ws[..i] + ws[i..j] + ws[j..];
    SumConcat(ws[..i] + ws[i..j], ws[j..]);
    SumConcat(ws[..i], ws[i..j]);
    SumConcat(ws[..i], ws[j..]);
  }

  /** Every path is the vertex sequence of a walk. */
  lemma {:induction false} PathWalk(adj: AdjLists, vs: seq<int>) returns (ws: seq<int>)
    requires IsPath(adj, vs)
    ensures IsWalk(adj, vs, ws)
    decreases |vs|
  {
    if |vs| == 1 {
      return [];
    }
    var init, x := vs[..|vs| - 1], vs[|vs| - 1];
    PathPrefix(adj, vs);
    var qs := PathWalk(adj, init);
    var u := vs[|vs| - 2];
    var k :| 0 <= k < |adj[u]| && adj[u][k].to == x;
    WalkExtend(adj, init, qs, x, adj[u][k].weight);
    assert init + [x] == vs;
    ws := qs + [adj[u][k].weight];
  }

  /**
   * A set of vertices that holds `s` and every successor of each of its
   * members holds every vertex reachable from `s`.
   */
  lemma {:induction false} ClosedSetHoldsReachable(adj: AdjLists, closed: set<int>, s: int, vs: seq<int>)
    requires s in closed
    requires forall u, v :: u in closed && HasEdge(adj, u, v) ==> v in closed
    requires IsPath(adj, vs) && vs[0] == s
    ensures vs[|vs| - 1] in closed
    decreases |vs|
  {
    if |vs| > 1 {
      PathPrefix(adj, vs);
      ClosedSetHoldsReachable(adj, closed, s, vs[..|vs| - 1]);
    }
  }

  /** A set of vertices of an n-vertex graph has at most n members. */
  lemma {:induction false} BoundedSetSize(a: set<int>, n: nat)
    requires forall x :: x in a ==> 0 <= x < n
    ensures |a| <= n
  {
    if n > 0 {
      var rest := a - {n - 1};
      BoundedSetSize(rest, n - 1);
      assert a <= rest + {n - 1};
      assert |rest + {n - 1}| <= |rest| + 1;
      SubsetSize(a, rest + {n - 1});
    } else {
      assert forall x :: x !in a;
      assert a == {};
    }
  }

  lemma SubsetSize(a: set<int>, b: set<int>)
    requires a <= b
    ensures |a| <= |b|
  {
    assert b == a + (b - a);
  }

  /** A set of vertices that misses one vertex of the graph has fewer than n members. */
  lemma SubsetOfRangeSize(a: set<int>, n: nat, missing: int)
    requires forall x :: x in a ==> 0 <= x < n
    requires 0 <= missing < n && missing !in a
    ensures |a| < n
  {
    BoundedSetSize(a + {missing}, n);
  }

  ghost predicate Distinct(s: seq<int>)
  {
    forall i, j :: 0 <= i < j < |s| ==> s[i] != s[j]
  }

  lemma {:induction false} DistinctElemsSize(s: seq<int>)
    requires Distinct(s)
    ensures |set x | x in s| == |s|
    decreases |s|
  {
    if s != [] {
      var init := s[..|s| - 1];
      assert (set x | x in s) == (set x | x in init) + {s[|s| - 1]};
      assert s[|s| - 1] !in init;
      DistinctElemsSize(init);
    }
  }

  /** Pigeonhole: a sequence of distinct vertices of an n-vertex graph has at most n elements. */
  lemma DistinctBound(s: seq<int>, n: nat)
    requires Distinct(s)
    requires forall i :: 0 <= i < |s| ==> 0 <= s[i] < n
    ensures |s| <= n
  {
    DistinctElemsSize(s);
    BoundedSetSize((set x | x in s), n);
  }

  /** Pigeonhole: n vertices of an n-vertex graph that all avoid one vertex repeat one. */
  lemma Repeats(s: seq<int>, n: nat, missing: int) returns (i: int, j: int)
    requires |s| == n && 0 <= missing < n
    requires forall k :: 0 <= k < |s| ==> 0 <= s[k] < n && s[k] != missing
    ensures 0 <= i < j < |s| && s[i] == s[j]
  {
    if Distinct(s) {
      DistinctElemsSize(s);
      SubsetOfRangeSize((set x | x in s), n, missing);
      assert false;
    }
    i, j :| 0 <= i < j < |s| && s[i] == s[j];
  }

  /** The number of vertices not yet marked in a visited table. */
  function Unvisited(vis: seq<bool>): (r: nat)
    ensures r <= |vis|
  {
    if vis == [] then 0 else Unvisited(vis[..|vis| - 1]) + (if vis[|vis| - 1] then 0 else 1)
  }

  /** Marking vertices never increases the count of unmarked ones. */
  lemma {:induction false} UnvisitedMonotone(a: seq<bool>, b: seq<bool>)
    requires |a| == |b| && forall k :: 0 <= k < |a| && a[k] ==> b[k]
    ensures Unvisited(b) <= Unvisited(a)
    decreases |a|
  {
    if a != [] {
      UnvisitedMonotone(a[..|a| - 1], b[..|b| - 1]);
    }
  }

  /** Marking vertex `i` makes the count drop. */
  lemma {:induction false} UnvisitedDrops(a: seq<bool>, b: seq<bool>, i: int)
    requires |a| == |b| && forall k :: 0 <= k < |a| && a[k] ==> b[k]
    requires 0 <= i < |a| && !a[i] && b[i]
    ensures Unvisited(b) < Unvisited(a)
    decreases |a|
  {
    var a', b' := a[..|a| - 1], b[..|b| - 1];
    if i == |a| - 1 {
      UnvisitedMonotone(a', b');
    } else {
      UnvisitedDrops(a', b', i);
    }
  }

  /** Marking one unmarked vertex lowers the count by exactly one. */
  lemma {:induction false} UnvisitedMark(a: seq<bool>, i: int)
    requires 0 <= i < |a| && !a[i]
    ensures Unvisited(a[i := true]) == Unvisited(a) - 1
    decreases |a|
  {
    var b := a[i := true];
    assert b[..|b| - 1] == if i == |a| - 1 then a[..|a| - 1] else a[..|a| - 1][i := true];
    if i < |a| - 1 {
      UnvisitedMark(a[..|a| - 1], i);
    }
  }

  /** With no vertex unmarked, every vertex is marked. */
  lemma {:induction false} NoneUnvisited(a: seq<bool>, i: int)
    requires Unvisited(a) == 0 && 0 <= i < |a|
    ensures a[i]
    decreases |a|
  {
    if i < |a| - 1 {
      NoneUnvisited(a[..|a| - 1], i);
    }
  }

  /** With no vertex marked, every vertex is counted. */
  lemma {:induction false} NoneMarked(a: seq<bool>)
    requires forall i :: 0 <= i < |a| ==> !a[i]
    ensures Unvisited(a) == |a|
    decreases |a|
  {
    if a != [] {
      NoneMarked(a[..|a| - 1]);
    }
  }
}
