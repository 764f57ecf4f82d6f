/**
 * bfs_shortest_hops of src/algorithms.c: breadth-first search from `start`
 * with an array queue, stopping when the goal is dequeued, then the shared
 * path reconstruction.
 *
 * The proof follows the search through a ghost snapshot of its arrays
 * together with two ghost tables: the level (hop count) of every visited
 * vertex and its index in the queue.
 */
module Bfs {
  import opened Wrappers
  import opened Graphs
  import opened Paths
  import opened Reconstruct
  import opened Arguments

  /** The search state: visited, parent and queue arrays, the queue's end, and the ghost tables. */
  datatype BfsState = BfsState(vis: seq<bool>, parent: seq<int>, queue: seq<int>, rear: int, lvl: seq<nat>, pos: seq<int>)

  /** Sizes, and the queue holding each visited vertex exactly once. */
  ghost predicate Shape(n: nat, s: BfsState)
  {
    |s.vis| == n && |s.parent| == n && |s.queue| == n && |s.lvl| == n && |s.pos| == n &&
    0 <= s.rear <= n &&
    (forall i :: 0 <= i < s.rear ==> 0 <= s.queue[i] < n && s.vis[s.queue[i]] && s.pos[s.queue[i]] == i) &&
    (forall x :: 0 <= x < n && s.vis[x] ==> 0 <= s.pos[x] < s.rear && s.queue[s.pos[x]] == x)
  }

  /**
   * The parent table is a tree rooted at `start`: each other visited vertex
   * hangs from a visited vertex one level up through an edge, and unvisited
   * vertices have no parent.
   */
  ghost predicate Tree(adj: AdjLists, start: int, s: BfsState)
    requires Shape(|adj|, s)
  {
    0 <= start < |adj| && s.vis[start] && s.parent[start] == -1 && s.lvl[start] == 0 &&
    (forall x {:trigger s.parent[x]} :: 0 <= x < |adj| && s.vis[x] && x != start ==>
       0 <= s.parent[x] < |adj| && s.vis[s.parent[x]] &&
       HasEdge(adj, s.parent[x], x) && s.lvl[x] == s.lvl[s.parent[x]] + 1) &&
    (forall x :: 0 <= x < |adj| && !s.vis[x] ==> s.parent[x] == -1)
  }

  /** Levels along the queue never decrease. */
  ghost predicate Sorted(s: BfsState)
    requires |s.queue| == |s.lvl| && 0 <= s.rear <= |s.queue|
    requires forall i :: 0 <= i < s.rear ==> 0 <= s.queue[i] < |s.lvl|
  {
    forall i, j :: 0 <= i <= j < s.rear ==> s.lvl[s.queue[i]] <= s.lvl[s.queue[j]]
  }

  /** No path reaches a visited vertex with fewer edges than its level. */
  ghost predicate LowerBound(adj: AdjLists, start: int, s: BfsState)
    requires |s.vis| == |adj| && |s.lvl| == |adj|
  {
    forall x, vs :: 0 <= x < |adj| && s.vis[x] && PathFromTo(adj, vs, start, x) ==> |vs| - 1 >= s.lvl[x]
  }

  ghost predicate Common(adj: AdjLists, start: int, s: BfsState)
  {
    EdgesInRange(adj) && Shape(|adj|, s) && Tree(adj, start, s) && Sorted(s) && LowerBound(adj, start, s)
  }

  /** Every successor of the first `upto` queue entries has been visited. */
  ghost predicate Processed(adj: AdjLists, s: BfsState, upto: int)
    requires EdgesInRange(adj) && Shape(|adj|, s) && 0 <= upto <= s.rear
  {
    forall i, k :: 0 <= i < upto && 0 <= k < |adj[s.queue[i]]| ==> s.vis[adj[s.queue[i]][k].to]
  }

  /** Every vertex with a path of fewer than `level` edges is among the first `upto` queue entries. */
  ghost predicate Frontier(adj: AdjLists, start: int, s: BfsState, upto: int, level: int)
    requires Shape(|adj|, s)
  {
    forall x, vs :: PathFromTo(adj, vs, start, x) && |vs| - 1 < level ==>
      0 <= x < |adj| && s.vis[x] && s.pos[x] < upto
  }

  /** The state at the head of the outer loop, with `front` entries dequeued. */
  ghost predicate Outer(adj: AdjLists, start: int, s: BfsState, front: int)
  {
    Common(adj, start, s) && 0 <= front <= s.rear && Processed(adj, s, front) &&
    (front < s.rear ==>
       s.lvl[s.queue[s.rear - 1]] <= s.lvl[s.queue[front]] + 1 &&
       Frontier(adj, start, s, front, s.lvl[s.queue[front]]))
  }

  /** The state inside the edge loop of queue entry `f`, before its edge `k`. */
  ghost predicate Inner(adj: AdjLists, start: int, s: BfsState, f: int, k: int)
  {
    Common(adj, start, s) && 0 <= f < s.rear &&
    0 <= k <= |adj[s.queue[f]]| &&
    Processed(adj, s, f) &&
    (forall j :: 0 <= j < k ==> s.vis[adj[s.queue[f]][j].to]) &&
    Frontier(adj, start, s, f, s.lvl[s.queue[f]]) &&
    (forall i :: 0 <= i < s.rear ==> s.lvl[s.queue[i]] <= s.lvl[s.queue[f]] + 1)
  }

  /** The state after vertex `u` is discovered from `v`. */
  function Discover(s: BfsState, v: int, u: int): (r: BfsState)
    requires 0 <= v < |s.lvl| && 0 <= u < |s.vis| && |s.vis| == |s.parent| == |s.lvl| == |s.pos|
    requires 0 <= s.rear < |s.queue|
    ensures |r.vis| == |s.vis| && |r.parent| == |s.parent| && |r.queue| == |s.queue|
    ensures |r.lvl| == |s.lvl| && |r.pos| == |s.pos|
    ensures r.rear == s.rear + 1 && r.queue[s.rear] == u && r.vis[u] && r.parent[u] == v
    ensures r.lvl[u] == s.lvl[v] + 1 && r.pos[u] == s.rear
  {
    BfsState(s.vis[u := true], s.parent[u := v], s.queue[s.rear := u], s.rear + 1,
             s.lvl[u := s.lvl[v] + 1], s.pos[u := s.rear])
  }

  /** The state after start is enqueued. */
  lemma InitOuter(adj: AdjLists, start: int, s: BfsState)
    requires EdgesInRange(adj) && 0 <= start < |adj|
    requires |s.vis| == |s.parent| == |s.queue| == |s.lvl| == |s.pos| == |adj|
    requires forall x :: 0 <= x < |adj| ==> s.vis[x] == (x == start) && s.parent[x] == -1
    requires forall x :: 0 <= x < |adj| && x != start ==> s.pos[x] == -1
    requires s.rear == 1 && s.queue[0] == start && s.lvl[start] == 0 && s.pos[start] == 0
    ensures Outer(adj, start, s, 0)
  {
  }

  /** Dequeuing entry `f` (not the goal) starts its edge loop. */
  lemma Enter(adj: AdjLists, start: int, s: BfsState, f: int)
    requires Outer(adj, start, s, f) && f < s.rear
    ensures Inner(adj, start, s, f, 0)
  {
  }

  /** An edge to a visited vertex changes nothing. */
  lemma Skip(adj: AdjLists, start: int, s: BfsState, f: int, k: int)
    requires Inner(adj, start, s, f, k) && k < |adj[s.queue[f]]|
    requires s.vis[adj[s.queue[f]][k].to]
    ensures Inner(adj, start, s, f, k + 1)
  {
  }

  /** A sequence that has each vertex at most once, missing one vertex, is shorter than n. */
  lemma Room(q: seq<int>, n: nat, u: int)
    requires Distinct(q) && forall i :: 0 <= i < |q| ==> 0 <= q[i] < n
    requires 0 <= u < n && forall i :: 0 <= i < |q| ==> q[i] != u
    ensures |q| < n
  {
    var q' := q + [u];
    assert Distinct(q') by {
      forall i, j | 0 <= i < j < |q'| ensures q'[i] != q'[j] {
        if j < |q| {
          assert q'[i] == q[i] && q'[j] == q[j];
        }
      }
    }
    DistinctBound(q', n);
  }

  /** The queue has room for a vertex not yet visited. */
  lemma QueueRoom(adj: AdjLists, s: BfsState, u: int)
    requires Shape(|adj|, s) && 0 <= u < |adj| && !s.vis[u]
    ensures s.rear < |adj|
  {
    var q := s.queue[..s.rear];
    assert Distinct(q) by {
      forall i, j | 0 <= i < j < |q| ensures q[i] != q[j] {
        assert s.pos[q[i]] == i && s.pos[q[j]] == j;
      }
    }
    Room(q, |adj|, u);
  }

  /**
   * A vertex that is still unvisited when its predecessor on some path is
   * dequeued at level L has no path of at most L edges.
   */
  lemma NoShortPathToUnvisited(adj: AdjLists, start: int, s: BfsState, f: int, u: int, vs: seq<int>)
    requires Inner(adj, start, s, f, 0) && 0 <= u < |adj| && !s.vis[u]
    requires PathFromTo(adj, vs, start, u)
    ensures |vs| - 1 >= s.lvl[s.queue[f]] + 1
  {
    if |vs| - 1 <= s.lvl[s.queue[f]] {
      assert |vs| > 1;
      PathPrefix(adj, vs);
      var y := vs[|vs| - 2];
      assert PathFromTo(adj, vs[..|vs| - 1], start, y);
      assert false;
    }
  }

  /** Discovering an unvisited vertex keeps the queue's shape. */
  lemma AddShape(n: nat, s: BfsState, v: int, u: int)
    requires Shape(n, s) && 0 <= v < n && 0 <= u < n && !s.vis[u] && s.rear < n
    ensures Shape(n, Discover(s, v, u))
  {
    var r := Discover(s, v, u);
    forall i | 0 <= i < r.rear
      ensures 0 <= r.queue[i] < n && r.vis[r.queue[i]] && r.pos[r.queue[i]] == i
    {
      if i < s.rear {
        assert r.queue[i] == s.queue[i] && s.queue[i] != u;
      }
    }
  }

  /** Hanging an unvisited successor of a visited vertex below it keeps the tree. */
  lemma AddTree(adj: AdjLists, start: int, s: BfsState, v: int, u: int)
    requires Shape(|adj|, s) && Tree(adj, start, s) && s.rear < |adj|
    requires 0 <= v < |adj| && s.vis[v] && 0 <= u < |adj| && !s.vis[u] && HasEdge(adj, v, u)
    ensures Shape(|adj|, Discover(s, v, u)) && Tree(adj, start, Discover(s, v, u))
  {
    AddShape(|adj|, s, v, u);
  }

  /** Appending a vertex one level below the current one keeps the queue sorted. */
  lemma AddSorted(n: nat, s: BfsState, v: int, u: int)
    requires Shape(n, s) && Sorted(s) && 0 <= v < n && 0 <= u < n && !s.vis[u] && s.rear < n
    requires forall i :: 0 <= i < s.rear ==> s.lvl[s.queue[i]] <= s.lvl[v] + 1
    ensures Shape(n, Discover(s, v, u)) && Sorted(Discover(s, v, u))
    ensures forall i :: 0 <= i < s.rear + 1 ==> Discover(s, v, u).lvl[Discover(s, v, u).queue[i]] <= s.lvl[v] + 1
  {
    AddShape(n, s, v, u);
    var r := Discover(s, v, u);
    forall i | 0 <= i < r.rear ensures r.lvl[r.queue[i]] == if i < s.rear then s.lvl[s.queue[i]] else s.lvl[v] + 1 {
      if i < s.rear {
        assert r.queue[i] == s.queue[i] != u;
      }
    }
  }

  /** Discovering a vertex with no shorter path keeps the lower bound. */
  lemma AddLowerBound(adj: AdjLists, start: int, s: BfsState, v: int, u: int)
    requires Shape(|adj|, s) && LowerBound(adj, start, s)
    requires 0 <= v < |adj| && 0 <= u < |adj| && s.rear < |adj|
    requires forall vs :: PathFromTo(adj, vs, start, u) ==> |vs| - 1 >= s.lvl[v] + 1
    ensures LowerBound(adj, start, Discover(s, v, u))
  {
  }

  /** Discovering a vertex keeps the processed entries processed and the frontier in place. */
  lemma AddKeeps(adj: AdjLists, start: int, s: BfsState, v: int, u: int, f: int, level: int)
    requires EdgesInRange(adj) && Shape(|adj|, s) && 0 <= f < s.rear
    requires 0 <= v < |adj| && 0 <= u < |adj| && !s.vis[u] && s.rear < |adj|
    requires Processed(adj, s, f) && Frontier(adj, start, s, f, level)
    ensures Shape(|adj|, Discover(s, v, u))
    ensures Processed(adj, Discover(s, v, u), f) && Frontier(adj, start, Discover(s, v, u), f, level)
    ensures Discover(s, v, u).queue[f] == s.queue[f]
  {
    AddShape(|adj|, s, v, u);
    var r := Discover(s, v, u);
    forall i, j | 0 <= i < f && 0 <= j < |adj[r.queue[i]]| ensures r.vis[adj[r.queue[i]][j].to] {
      assert r.queue[i] == s.queue[i];
      assert s.vis[adj[s.queue[i]][j].to];
    }
  }

  /** Discovering an unvisited successor of the current entry keeps the edge-loop state. */
  lemma Add(adj: AdjLists, start: int, s: BfsState, f: int, k: int)
    requires Inner(adj, start, s, f, k) && k < |adj[s.queue[f]]|
    requires !s.vis[adj[s.queue[f]][k].to]
    ensures s.rear < |adj|
    ensures Inner(adj, start, Discover(s, s.queue[f], adj[s.queue[f]][k].to), f, k + 1)
  {
    var v := s.queue[f];
    var u := adj[v][k].to;
    QueueRoom(adj, s, u);
    EdgeAt(adj, v, k);
    AddTree(adj, start, s, v, u);
    AddSorted(|adj|, s, v, u);
    forall vs | PathFromTo(adj, vs, start, u) ensures |vs| - 1 >= s.lvl[v] + 1 {
      NoShortPathToUnvisited(adj, start, s, f, u, vs);
    }
    AddLowerBound(adj, start, s, v, u);
    AddKeeps(adj, start, s, v, u, f, s.lvl[v]);
  }

  /**
   * One edge of the current entry: a visited successor changes nothing, an
   * unvisited one is discovered.  Returns the state after the edge.
   */
  lemma Step(adj: AdjLists, start: int, s: BfsState, f: int, k: int) returns (r: BfsState)
    requires Inner(adj, start, s, f, k) && k < |adj[s.queue[f]]|
    ensures s.vis[adj[s.queue[f]][k].to] ==> r == s
    ensures !s.vis[adj[s.queue[f]][k].to] ==>
              s.rear < |adj| && r == Discover(s, s.queue[f], adj[s.queue[f]][k].to)
    ensures r.queue[f] == s.queue[f] && Inner(adj, start, r, f, k + 1)
  {
    var u := adj[s.queue[f]][k].to;
    if s.vis[u] {
      Skip(adj, start, s, f, k);
      r := s;
    } else {
      Add(adj, start, s, f, k);
      r := Discover(s, s.queue[f], u);
      assert r.queue[f] == s.queue[f];
    }
  }

  /** Finishing the edge loop of entry `f` is the outer state with f + 1 entries dequeued. */
  lemma Leave(adj: AdjLists, start: int, s: BfsState, f: int, k: int)
    requires Inner(adj, start, s, f, k) && k == |adj[s.queue[f]]|
    ensures Outer(adj, start, s, f + 1)
  {
    LeaveProcessed(adj, s, f);
    if f + 1 < s.rear {
      LeaveFrontier(adj, start, s, f);
    }
  }

  /** Entry `f` joins the processed entries once all its edges are handled. */
  lemma LeaveProcessed(adj: AdjLists, s: BfsState, f: int)
    requires EdgesInRange(adj) && Shape(|adj|, s) && 0 <= f < s.rear && Processed(adj, s, f)
    requires forall j :: 0 <= j < |adj[s.queue[f]]| ==> s.vis[adj[s.queue[f]][j].to]
    ensures Processed(adj, s, f + 1)
  {
    forall i, k | 0 <= i < f + 1 && 0 <= k < |adj[s.queue[i]]| ensures s.vis[adj[s.queue[i]][k].to] {
      if i == f {
        assert s.vis[adj[s.queue[f]][k].to];
      }
    }
  }

  /**
   * When the next entry is dequeued, every vertex with fewer edges than its
   * level is among the entries dequeued so far.
   */
  lemma LeaveFrontier(adj: AdjLists, start: int, s: BfsState, f: int)
    requires Common(adj, start, s) && 0 <= f && f + 1 < s.rear
    requires Processed(adj, s, f + 1)
    requires Frontier(adj, start, s, f, s.lvl[s.queue[f]])
    requires forall i :: 0 <= i < s.rear ==> s.lvl[s.queue[i]] <= s.lvl[s.queue[f]] + 1
    ensures s.lvl[s.queue[s.rear - 1]] <= s.lvl[s.queue[f + 1]] + 1
    ensures Frontier(adj, start, s, f + 1, s.lvl[s.queue[f + 1]])
  {
    var level := s.lvl[s.queue[f]];
    var next := s.lvl[s.queue[f + 1]];
    assert level <= next;
    forall x, vs | PathFromTo(adj, vs, start, x) && |vs| - 1 < next
      ensures 0 <= x < |adj| && s.vis[x] && s.pos[x] < f + 1
    {
      if |vs| - 1 >= level {
        if |vs| == 1 {
          assert x == start;
          assert s.lvl[s.queue[s.pos[start]]] == 0;
        } else {
          PathPrefix(adj, vs);
          var y := vs[|vs| - 2];
          assert PathFromTo(adj, vs[..|vs| - 1], start, y);
          assert s.vis[y] && s.pos[y] < f;
          var k :| 0 <= k < |adj[y]| && adj[y][k].to == x;
          assert s.queue[s.pos[y]] == y;
          assert s.vis[adj[s.queue[s.pos[y]]][k].to];
          assert s.lvl[x] <= |vs| - 1;
        }
      }
    }
  }

  /** Once the queue runs empty, every vertex reachable from start has been visited. */
  lemma Exhausted(adj: AdjLists, start: int, s: BfsState, goal: int)
    requires Outer(adj, start, s, s.rear) && 0 <= goal < |adj| && !s.vis[goal]
    ensures !Reachable(adj, start, goal)
  {
    var closed := set x | 0 <= x < |adj| && s.vis[x];
    forall u, v | u in closed && HasEdge(adj, u, v) ensures v in closed {
      var k :| 0 <= k < |adj[u]| && adj[u][k].to == v;
      assert s.queue[s.pos[u]] == u;
      assert s.vis[adj[s.queue[s.pos[u]]][k].to];
    }
    if vs :| PathFromTo(adj, vs, start, goal) {
      ClosedSetHoldsReachable(adj, closed, start, vs);
    }
  }

  /**
   * Along a parent chain from start in which every vertex but start sits one
   * level below its parent, each vertex's level is its position.
   */
  lemma {:induction false} LevelsAlongChain(parent: seq<int>, lvl: seq<nat>, start: int, p: seq<int>)
    requires |lvl| == |parent| && 0 <= start < |parent| && lvl[start] == 0
    requires |p| >= 1 && p[0] == start
    requires forall i :: 0 <= i < |p| ==> 0 <= p[i] < |parent|
    requires forall i :: 0 < i < |p| ==> 0 <= parent[p[i]] < |parent| && lvl[p[i]] == lvl[parent[p[i]]] + 1
    requires forall i {:trigger parent[p[i + 1]]} :: 0 <= i < |p| - 1 ==> p[i] == parent[p[i + 1]]
    ensures lvl[p[|p| - 1]] == |p| - 1
    decreases |p|
  {
    if |p| > 1 {
      var q := p[..|p| - 1];
      assert forall i {:trigger parent[q[i + 1]]} :: 0 <= i < |q| - 1 ==> q[i] == parent[q[i + 1]] by {
        forall i | 0 <= i < |q| - 1 ensures q[i] == parent[q[i + 1]] {
          assert p[i] == parent[p[i + 1]];
        }
      }
      LevelsAlongChain(parent, lvl, start, q);
      assert parent[p[|p| - 1]] == q[|q| - 1] by {
        var k := |p| - 2;
        assert p[k] == parent[p[k + 1]];
      }
    }
  }

  /**
   * For a visited goal the tree path is a shortest path, and reconstruct_path
   * returns it exactly when it fits the bound.
   */
  lemma VisitedGoal(adj: AdjLists, start: int, s: BfsState, goal: int, maxLen: int) returns (p: seq<int>)
    requires Common(adj, start, s) && 0 <= goal < |adj| && s.vis[goal]
    ensures ParentsInRange(s.parent)
    ensures PathFromTo(adj, p, start, goal)
    ensures forall vs :: PathFromTo(adj, vs, start, goal) ==> |vs| >= |p|
    ensures maxLen >= 2 && |p| <= maxLen ==> ReconstructedPath(start, goal, s.parent, maxLen) == Some(p)
    ensures !(maxLen >= 2 && |p| <= maxLen) ==> ReconstructedPath(start, goal, s.parent, maxLen) == None
  {
    var forest := set x | 0 <= x < |adj| && s.vis[x];
    assert RootedForest(s.parent, s.lvl, s.lvl, forest, start);
    p := ForestReconstruct(s.parent, s.lvl, s.lvl, forest, start, goal, maxLen);
    forall i | 0 < i < |p|
      ensures 0 <= s.parent[p[i]] < |adj| && HasEdge(adj, s.parent[p[i]], p[i]) && s.lvl[p[i]] == s.lvl[s.parent[p[i]]] + 1
    {
      assert p[i] != p[0];
    }
    LevelsAlongChain(s.parent, s.lvl, start, p);
    ChainIsPath(adj, s.parent, start, p);
  }

  /** An unvisited goal (other than start) has no parent, so nothing is reconstructed. */
  lemma UnvisitedGoal(adj: AdjLists, start: int, s: BfsState, goal: int, maxLen: int)
    requires Common(adj, start, s) && 0 <= goal < |adj| && !s.vis[goal]
    ensures ParentsInRange(s.parent)
    ensures ReconstructedPath(start, goal, s.parent, maxLen) == None
  {
    OrphanNotReconstructed(s.parent, start, goal, maxLen);
  }

  /**
   * The search loop of bfs_shortest_hops: dequeue entries until the goal is
   * dequeued or the queue runs empty.  The result is a level tree, and a goal
   * left unvisited is unreachable.
   */
  method Search(adj: AdjLists, start: int, goal: int) returns (visited: array<bool>, parent: array<int>, ghost s: BfsState)
    requires EdgesInRange(adj) && 0 <= start < |adj| && 0 <= goal < |adj|
    ensures fresh(visited) && fresh(parent) && visited.Length == |adj| && parent.Length == |adj|
    ensures s.vis == visited[..] && s.parent == parent[..] && Common(adj, start, s)
    ensures !s.vis[goal] ==> !Reachable(adj, start, goal)
  {
    var queue, rear;
    visited, parent, queue, rear, s := Init(adj, start);
    var front := 0;
    while front < rear
      invariant s == BfsState(visited[..], parent[..], queue[..], rear, s.lvl, s.pos)
      invariant Outer(adj, start, s, front)
      decreases |adj| - front
    {
      var v := queue[front];
      if v == goal {
        return;
      }
      Enter(adj, start, s, front);
      rear, s := Expand(adj, start, visited, parent, queue, rear, front, s);
      Leave(adj, start, s, front, |adj[v]|);
      front := front + 1;
    }
    if !visited[goal] {
      Exhausted(adj, start, s, goal);
    }
  }

  /** The set-up of bfs_shortest_hops: only start is visited, no vertex has a parent, start is queued. */
  method Init(adj: AdjLists, start: int)
    returns (visited: array<bool>, parent: array<int>, queue: array<int>, rear: int, ghost s: BfsState)
    requires EdgesInRange(adj) && 0 <= start < |adj|
    ensures fresh(visited) && fresh(parent) && fresh(queue) && parent != queue
    ensures visited.Length == |adj| && parent.Length == |adj| && queue.Length == |adj|
    ensures s == BfsState(visited[..], parent[..], queue[..], rear, s.lvl, s.pos)
    ensures Outer(adj, start, s, 0)
  {
    var n := |adj|;
    visited := new bool[n](x => x == start);
    parent := new int[n](_ => -1);
    queue := new int[n];
    ghost var lvl: seq<nat> := seq(n, _ => 0);
    ghost var pos := seq(n, x => if x == start then 0 else -1);
    queue[0] := start;
    rear := 1;
    s := BfsState(visited[..], parent[..], queue[..], rear, lvl, pos);
    InitOuter(adj, start, s);
  }

  /** The edge loop of bfs_shortest_hops for queue entry `f`, which is dequeued. */
  method Expand(adj: AdjLists, start: int, visited: array<bool>, parent: array<int>, queue: array<int>,
                rear0: int, f: int, ghost s0: BfsState)
    returns (rear: int, ghost s: BfsState)
    requires visited.Length == |adj| && parent.Length == |adj| && queue.Length == |adj| && parent != queue
    requires s0 == BfsState(visited[..], parent[..], queue[..], rear0, s0.lvl, s0.pos)
    requires Inner(adj, start, s0, f, 0)
    modifies visited, parent, queue
    ensures s == BfsState(visited[..], parent[..], queue[..], rear, s.lvl, s.pos)
    ensures s.queue[f] == s0.queue[f] && Inner(adj, start, s, f, |adj[s0.queue[f]]|)
  {
    var v := queue[f];
    rear, s := rear0, s0;
    var e := 0;
    while e < |adj[v]|
      invariant visited[..] == s.vis && parent[..] == s.parent && queue[..] == s.queue && rear == s.rear
      invariant s.queue[f] == v && Inner(adj, start, s, f, e)
    {
      var u := adj[v][e].to;
      ghost var next := Step(adj, start, s, f, e);
      if !visited[u] {
        Enqueue(visited, parent, queue, rear, v, u);
        rear := rear + 1;
      }
      s := next;
      e := e + 1;
    }
  }

  /** The discovery step: mark `u` visited with parent `v` and append it to the queue. */
  method Enqueue(visited: array<bool>, parent: array<int>, queue: array<int>, rear: int, v: int, u: int)
    requires 0 <= u < visited.Length && u < parent.Length && 0 <= rear < queue.Length && parent != queue
    modifies visited, parent, queue
    ensures visited[..] == old(visited[..])[u := true]
    ensures parent[..] == old(parent[..])[u := v]
    ensures queue[..] == old(queue[..])[rear := u]
  {
    visited[u] := true;
    parent[u] := v;
    queue[rear] := u;
  }

  /**
   * bfs_shortest_hops.  On rejected arguments, and when every path from
   * start to goal has more than maxPathLen vertices (in particular when
   * there is none), it returns 0 with distance -1 and leaves outPath as it
   * was.  Otherwise outPath[..len] is a path from start to goal with the
   * fewest edges and distance is its hop count.
   */
  method BfsShortestHops(g: Graph?, start: int, goal: int, outPath: array<int>, maxPathLen: int)
    returns (len: int, distance: int)
    requires g != null ==> g.Valid()
    requires maxPathLen <= outPath.Length
    modifies outPath
    ensures BadArguments(g, start, goal, maxPathLen) ==> len == 0
    ensures len == 0 ==> distance == -1 && outPath[..] == old(outPath[..])
    ensures g != null && !BadArguments(g, start, goal, maxPathLen) ==>
              (len == 0 <==> forall vs :: PathFromTo(g.adj, vs, start, goal) ==> |vs| > maxPathLen)
    ensures len > 0 ==>
              g != null && distance == len - 1 && len <= maxPathLen &&
              PathFromTo(g.adj, outPath[..len], start, goal) &&
              (forall vs :: PathFromTo(g.adj, vs, start, goal) ==> |vs| >= len) &&
              outPath[len..] == old(outPath[len..])
  {
    if g == null || start < 0 || goal < 0 || start >= g.numVertices || goal >= g.numVertices || maxPathLen < 2 {
      return 0, -1;
    }
    var n := g.numVertices;
    var adj := g.adj;
    var visited, parent, s := Search(adj, start, goal);
    ghost var p: seq<int> := [];
    if visited[goal] {
      p := VisitedGoal(adj, start, s, goal, maxPathLen);
    } else {
      UnvisitedGoal(adj, start, s, goal, maxPathLen);
    }
    var pathLen := ReconstructPath(start, goal, parent, outPath, maxPathLen, n);
    if pathLen == 0 {
      return 0, -1;
    }
    return pathLen, pathLen - 1;
  }
}
