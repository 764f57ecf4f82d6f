/**
 * dfs_recursive and dfs_path of src/algorithms.c: recursive depth-first
 * search from `start` that records a parent for each vertex it enters and
 * stops as soon as it enters the goal, then the shared path reconstruction.
 *
 * The proof gives each entered vertex a ghost rank, the time at which it is
 * entered; parents are entered before their children, so the parent table
 * is a forest rooted at `start`.
 */
module Dfs {
  import opened Wrappers
  import opened Graphs
  import opened Paths
  import opened Reconstruct
  import opened Arguments

  /**
   * Every entered vertex other than `start` hangs from an entered vertex of
   * smaller rank through an edge, and all ranks are below `clock`.
   */
  ghost predicate DfsTree(adj: AdjLists, start: int, vis: seq<bool>, parent: seq<int>, rank: seq<nat>, clock: nat)
  {
    |vis| == |adj| && |parent| == |adj| && |rank| == |adj| && 0 <= start < |adj| &&
    ParentsInRange(parent) &&
    (forall x :: 0 <= x < |adj| && vis[x] ==> rank[x] < clock) &&
    (forall x {:trigger parent[x]} :: 0 <= x < |adj| && vis[x] && x != start ==>
       0 <= parent[x] < |adj| && vis[parent[x]] && HasEdge(adj, parent[x], x) && rank[parent[x]] < rank[x])
  }

  /** Every successor of `x` has been entered. */
  ghost predicate Closed(adj: AdjLists, vis: seq<bool>, x: int)
    requires EdgesInRange(adj) && |vis| == |adj| && 0 <= x < |adj|
  {
    forall k :: 0 <= k < |adj[x]| ==> vis[adj[x][k].to]
  }

  /**
   * After the recursion into the successor along edge `e` of `v` returns
   * false, the loop's facts about the vertices entered since `v`'s call
   * began hold for one more edge.
   */
  lemma ChildDone(adj: AdjLists, entry: seq<bool>, before: seq<bool>, after: seq<bool>, v: int, goal: int, e: int)
    requires EdgesInRange(adj) && |entry| == |adj| && |before| == |adj| && |after| == |adj|
    requires 0 <= v < |adj| && 0 <= e < |adj[v]| && 0 <= goal < |adj|
    requires before[v] && forall x :: 0 <= x < |adj| && entry[x] ==> before[x]
    requires forall j :: 0 <= j < e ==> before[adj[v][j].to]
    requires forall x :: 0 <= x < |adj| && before[x] && !entry[x] && x != v ==> Closed(adj, before, x)
    requires forall x :: 0 <= x < |adj| && before[x] ==> after[x]
    requires after[adj[v][e].to] && !after[goal]
    requires forall x :: 0 <= x < |adj| && after[x] && !before[x] ==> Closed(adj, after, x)
    ensures after[v] && !after[goal] && forall x :: 0 <= x < |adj| && entry[x] ==> after[x]
    ensures forall j :: 0 <= j < e + 1 ==> after[adj[v][j].to]
    ensures forall x :: 0 <= x < |adj| && after[x] && !entry[x] && x != v ==> Closed(adj, after, x)
  {
    forall x | 0 <= x < |adj| && after[x] && !entry[x] && x != v ensures Closed(adj, after, x) {
      if before[x] {
        assert Closed(adj, before, x);
      }
    }
  }

  /** Entering `v` with the next rank keeps the tree. */
  lemma EnterKeepsTree(adj: AdjLists, start: int, vis: seq<bool>, parent: seq<int>, rank: seq<nat>, clock: nat, v: int)
    requires DfsTree(adj, start, vis, parent, rank, clock) && 0 <= v < |adj| && !vis[v]
    requires v != start ==>
               0 <= parent[v] < |adj| && vis[parent[v]] && HasEdge(adj, parent[v], v) && rank[parent[v]] < clock
    ensures DfsTree(adj, start, vis[v := true], parent, rank[v := clock], clock + 1)
  {
  }

  /** Making entered vertex `v` the parent of the successor `u` it is about to enter keeps the tree. */
  lemma AdoptKeepsTree(adj: AdjLists, start: int, vis: seq<bool>, parent: seq<int>, rank: seq<nat>, clock: nat,
                       v: int, u: int)
    requires DfsTree(adj, start, vis, parent, rank, clock) && 0 <= v < |adj| && vis[v]
    requires 0 <= u < |adj| && !vis[u] && HasEdge(adj, v, u)
    ensures DfsTree(adj, start, vis, parent[u := v], rank, clock)
  {
    var p := parent[u := v];
    forall x | 0 <= x < |adj| && vis[x] && x != start
      ensures 0 <= p[x] < |adj| && vis[p[x]] && HasEdge(adj, p[x], x) && rank[p[x]] < rank[x]
    {
      assert p[x] == parent[x];
    }
  }

  /**
   * dfs_recursive: enters `v`; returns true at once when `v` is the goal,
   * otherwise recurses into each successor not yet entered, in edge-list
   * order, after making `v` its parent, and returns true as soon as one
   * recursion does.  On true the goal has been entered; on false it has not,
   * and every vertex entered during the call has all its successors entered.
   */
  method DfsRecursive(adj: AdjLists, start: int, v: int, goal: int, visited: array<bool>, parent: array<int>,
                      ghost rank0: seq<nat>, ghost clock0: nat)
    returns (found: bool, ghost rank: seq<nat>, ghost clock: nat)
    requires EdgesInRange(adj) && visited.Length == |adj| && parent.Length == |adj|
    requires 0 <= v < |adj| && 0 <= goal < |adj| && !visited[v] && !visited[goal]
    requires DfsTree(adj, start, visited[..], parent[..], rank0, clock0)
    requires v != start ==>
               0 <= parent[v] < |adj| && visited[parent[v]] && HasEdge(adj, parent[v], v) && rank0[parent[v]] < clock0
    modifies visited, parent
    decreases Unvisited(visited[..])
    ensures DfsTree(adj, start, visited[..], parent[..], rank, clock)
    ensures visited[v] && forall x :: 0 <= x < |adj| && old(visited[x]) ==> visited[x]
    ensures found <==> visited[goal]
    ensures !found ==> forall x :: 0 <= x < |adj| && visited[x] && !old(visited[x]) ==> Closed(adj, visited[..], x)
  {
    ghost var entry := visited[..];
    EnterKeepsTree(adj, start, entry, parent[..], rank0, clock0, v);
    Mark(visited, v, parent);
    rank, clock := rank0[v := clock0], clock0 + 1;
    if v == goal {
      return true, rank, clock;
    }
    ghost var V, P := visited[..], parent[..];
    var e := 0;
    while e < |adj[v]|
      invariant 0 <= e <= |adj[v]| && visited[..] == V && parent[..] == P
      invariant DfsTree(adj, start, V, P, rank, clock)
      invariant V[v] && !V[goal]
      invariant forall x :: 0 <= x < |adj| && entry[x] ==> V[x]
      invariant forall j :: 0 <= j < e ==> V[adj[v][j].to]
      invariant forall x :: 0 <= x < |adj| && V[x] && !entry[x] && x != v ==> Closed(adj, V, x)
    {
      var u := adj[v][e].to;
      if !visited[u] {
        EdgeAt(adj, v, e);
        AdoptKeepsTree(adj, start, V, P, rank, clock, v, u);
        SetParent(parent, u, v, visited);
        UnvisitedDrops(entry, V, v);
        found, rank, clock := DfsRecursive(adj, start, u, goal, visited, parent, rank, clock);
        if found {
          return;
        }
        ChildDone(adj, entry, V, visited[..], v, goal, e);
        V, P := visited[..], parent[..];
      }
      e := e + 1;
    }
    found := false;
  }

  /** visited[v] := true, leaving the parent table as it is. */
  method Mark(visited: array<bool>, v: int, parent: array<int>)
    requires 0 <= v < visited.Length
    modifies visited
    ensures visited[..] == old(visited[..])[v := true] && parent[..] == old(parent[..])
  {
    visited[v] := true;
  }

  /** parent[u] := v, leaving the visited flags as they are. */
  method SetParent(parent: array<int>, u: int, v: int, visited: array<bool>)
    requires 0 <= u < parent.Length
    modifies parent
    ensures parent[..] == old(parent[..])[u := v] && visited[..] == old(visited[..])
  {
    parent[u] := v;
  }

  /**
   * dfs_path.  On rejected arguments it returns 0.  Otherwise it returns 0,
   * leaving outPath as it was, when the goal is unreachable or the path the
   * search found does not fit maxPathLen; any goal that is reachable is
   * found, and its path fits whenever maxPathLen is at least the number of
   * vertices.  A positive result is the length of a path from start to goal
   * stored in outPath[..len].
   */
  method DfsPath(g: Graph?, start: int, goal: int, outPath: array<int>, maxPathLen: int) returns (len: int)
    requires g != null ==> g.Valid()
    requires maxPathLen <= outPath.Length
    modifies outPath
    ensures BadArguments(g, start, goal, maxPathLen) ==> len == 0
    ensures len == 0 ==> outPath[..] == old(outPath[..])
    ensures g != null && !BadArguments(g, start, goal, maxPathLen) && !Reachable(g.adj, start, goal) ==> len == 0
    ensures g != null && !BadArguments(g, start, goal, maxPathLen) && Reachable(g.adj, start, goal) &&
            maxPathLen >= g.numVertices ==>
              len > 0
    ensures len > 0 ==>
              g != null && len <= maxPathLen && len <= g.numVertices &&
              PathFromTo(g.adj, outPath[..len], start, goal) &&
              outPath[len..] == old(outPath[len..])
  {
    if g == null || start < 0 || goal < 0 || start >= g.numVertices || goal >= g.numVertices || maxPathLen < 2 {
      return 0;
    }
    var n := g.numVertices;
    var adj := g.adj;
    var visited := new bool[n](_ => false);
    var parent := new int[n](_ => -1);
    ghost var rank, clock;
    var found;
    found, rank, clock := DfsRecursive(adj, start, start, goal, visited, parent, seq(n, _ => 0), 0);
    len := 0;
    if found {
      ghost var p := FoundPath(adj, start, goal, visited[..], parent[..], rank, clock, maxPathLen);
      len := ReconstructPath(start, goal, parent, outPath, maxPathLen, n);
    } else {
      NotFound(adj, start, goal, visited[..]);
    }
  }

  /** After a successful search the tree path to the goal is a path, reconstructed exactly when it fits. */
  lemma FoundPath(adj: AdjLists, start: int, goal: int, vis: seq<bool>, parent: seq<int>, rank: seq<nat>,
                  clock: nat, maxLen: int)
    returns (p: seq<int>)
    requires DfsTree(adj, start, vis, parent, rank, clock) && 0 <= goal < |adj| && vis[goal] && vis[start]
    ensures PathFromTo(adj, p, start, goal) && |p| <= |adj|
    ensures maxLen >= 2 && |p| <= maxLen ==> ReconstructedPath(start, goal, parent, maxLen) == Some(p)
    ensures !(maxLen >= 2 && |p| <= maxLen) ==> ReconstructedPath(start, goal, parent, maxLen) == None
  {
    var forest := set x | 0 <= x < |adj| && vis[x];
    assert RootedForest(parent, rank, rank, forest, start);
    p := ForestReconstruct(parent, rank, rank, forest, start, goal, maxLen);
    forall i | 0 < i < |p| ensures 0 <= p[i] < |parent| && HasEdge(adj, parent[p[i]], p[i]) {
      assert p[i] != p[0];
    }
    ChainIsPath(adj, parent, start, p);
  }

  /** After an unsuccessful search from start the goal is unreachable. */
  lemma NotFound(adj: AdjLists, start: int, goal: int, vis: seq<bool>)
    requires EdgesInRange(adj) && |vis| == |adj| && 0 <= start < |adj| && vis[start]
    requires 0 <= goal < |adj| && !vis[goal]
    requires forall x :: 0 <= x < |adj| && vis[x] ==> Closed(adj, vis, x)
    ensures !Reachable(adj, start, goal)
  {
    var closed := set x | 0 <= x < |adj| && vis[x];
    forall u, w | u in closed && HasEdge(adj, u, w) ensures w in closed {
      var k :| 0 <= k < |adj[u]| && adj[u][k].to == w;
      assert Closed(adj, vis, u);
    }
    if vs :| PathFromTo(adj, vs, start, goal) {
      ClosedSetHoldsReachable(adj, closed, start, vs);
    }
  }
}
