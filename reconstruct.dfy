/**
 * reconstruct_path of src/algorithms.c: the walk backwards from the goal
 * through a parent table (-1 meaning "no parent"), shared by BFS, DFS,
 * Dijkstra and A*.
 */
module Reconstruct {
  import opened Wrappers
  import opened Graphs
  import opened Paths

  /** Every parent entry is -1 or a vertex. */
  ghost predicate ParentsInRange(parent: seq<int>)
  {
    forall v :: 0 <= v < |parent| ==> -1 <= parent[v] < |parent|
  }

  /**
   * The vertices the backward walk collects from `at` with `budget` slots
   * left: it stops after a -1, after `start`, or when the slots run out.
   */
  function BackWalk(parent: seq<int>, start: int, at: int, budget: nat): (w: seq<int>)
    requires ParentsInRange(parent) && -1 <= at < |parent|
    ensures |w| <= budget
    ensures w != [] ==> w[0] == at
    decreases budget
  {
    if at == -1 || budget == 0 then []
    else if at == start then [at]
    else [at] + BackWalk(parent, start, parent[at], budget - 1)
  }

  /**
   * `w` follows parent links through vertices, and only its last vertex can
   * be `start`.
   */
  ghost predicate ParentChain(parent: seq<int>, start: int, w: seq<int>)
  {
    (forall i :: 0 <= i < |w| ==> 0 <= w[i] < |parent|) &&
    (forall i {:trigger parent[w[i]]} :: 0 <= i < |w| - 1 ==> 0 <= w[i] < |parent| && w[i + 1] == parent[w[i]]) &&
    (forall i :: 0 <= i < |w| - 1 ==> w[i] != start)
  }

  /** The backward walk is such a chain. */
  lemma {:induction false} BackWalkChain(parent: seq<int>, start: int, at: int, budget: nat)
    requires ParentsInRange(parent) && -1 <= at < |parent|
    ensures ParentChain(parent, start, BackWalk(parent, start, at, budget))
    decreases budget
  {
    var w := BackWalk(parent, start, at, budget);
    if at != -1 && budget > 0 && at != start {
      BackWalkChain(parent, start, parent[at], budget - 1);
      var t := BackWalk(parent, start, parent[at], budget - 1);
      assert w == [at] + t;
      forall i | 1 <= i < |w| ensures w[i] == t[i - 1] {}
      forall i | 0 <= i < |w| - 1 ensures 0 <= w[i] < |parent| && w[i + 1] == parent[w[i]] {
        if i > 0 { assert w[i] == t[i - 1]; assert w[i + 1] == t[i]; }
      }
    }
  }

  function Reverse(s: seq<int>): (r: seq<int>)
    ensures |r| == |s|
    ensures forall i :: 0 <= i < |s| ==> r[i] == s[|s| - 1 - i]
  {
    if s == [] then [] else Reverse(s[1..]) + [s[0]]
  }

  /**
   * What reconstruct_path produces: nothing when the buffer bound is below
   * 2, when the backward walk from the goal does not end at `start`, or when
   * it is longer than the bound; otherwise the walk in start-to-goal order.
   */
  function ReconstructedPath(start: int, goal: int, parent: seq<int>, maxLen: int): (r: Option<seq<int>>)
    requires ParentsInRange(parent) && 0 <= goal < |parent|
    ensures r.Some? ==> maxLen >= 2 && 1 <= |r.value| <= maxLen && |r.value| <= |parent|
    ensures r.Some? ==> r.value[0] == start && r.value[|r.value| - 1] == goal
    ensures r.Some? ==> forall i :: 0 <= i < |r.value| ==> 0 <= r.value[i] < |parent|
    ensures r.Some? ==> forall i {:trigger parent[r.value[i + 1]]} :: 0 <= i < |r.value| - 1 ==> r.value[i] == parent[r.value[i + 1]]
    ensures r.Some? ==> forall i :: 0 < i < |r.value| ==> r.value[i] != start
    ensures var w := BackWalk(parent, start, goal, |parent|);
            r.None? <==> maxLen < 2 || w == [] || w[|w| - 1] != start || |w| > maxLen
    ensures r.Some? ==> r.value == Reverse(BackWalk(parent, start, goal, |parent|))
  {
    var w := BackWalk(parent, start, goal, |parent|);
    BackWalkChain(parent, start, goal, |parent|);
    if maxLen < 2 || w == [] || w[|w| - 1] != start || |w| > maxLen then None
    else
      var p := Reverse(w);
      assert forall i :: 0 < i < |p| ==> p[i] == w[|w| - 1 - i];
      Some(p)
  }

  /**
   * reconstruct_path: writes ReconstructedPath into out_path and returns its
   * length, or returns 0 and writes nothing when there is none.
   */
  method ReconstructPath(start: int, goal: int, parent: array<int>, outPath: array<int>, maxLen: int, numVertices: int)
    returns (len: int)
    requires parent.Length == numVertices && ParentsInRange(parent[..]) && 0 <= goal < numVertices
    requires maxLen <= outPath.Length && parent != outPath
    modifies outPath
    ensures var r := ReconstructedPath(start, goal, parent[..], maxLen);
            (r.None? ==> len == 0 && outPath[..] == old(outPath[..])) &&
            (r.Some? ==> len == |r.value| && outPath[..len] == r.value && outPath[len..] == old(outPath[len..]))
  {
    if maxLen < 2 {
      return 0;
    }
    var temp, length := WalkBack(start, goal, parent, numVertices);
    if length == 0 || temp[length - 1] != start {
      return 0;
    }
    if length > maxLen {
      return 0;
    }
    CopyReversed(temp, length, outPath);
    len := length;
  }

  /** The backward walk of reconstruct_path, collected into a fresh buffer. */
  method WalkBack(start: int, goal: int, parent: array<int>, numVertices: int) returns (temp: array<int>, length: int)
    requires parent.Length == numVertices && ParentsInRange(parent[..]) && 0 <= goal < numVertices
    ensures fresh(temp) && 0 <= length <= temp.Length
    ensures temp[..length] == BackWalk(parent[..], start, goal, numVertices)
  {
    ghost var ps := parent[..];
    ghost var walk := BackWalk(ps, start, goal, numVertices);
    temp := new int[numVertices];
    length := 0;
    var at := goal;
    while at != -1 && length < numVertices
      invariant 0 <= length <= numVertices && -1 <= at < numVertices
      invariant temp.Length == numVertices
      invariant temp[..length] + BackWalk(ps, start, at, numVertices - length) == walk
      decreases numVertices - length
    {
      BackWalkStep(ps, start, temp[..length], at, numVertices - length, walk);
      Append(temp, length, at);
      length := length + 1;
      if at == start {
        break;
      }
      at := parent[at];
    }
  }

  /** One step of the backward walk moves `at` from the walk's rest to the collected prefix. */
  lemma BackWalkStep(parent: seq<int>, start: int, before: seq<int>, at: int, budget: nat, walk: seq<int>)
    requires ParentsInRange(parent) && 0 <= at < |parent| && budget > 0
    requires before + BackWalk(parent, start, at, budget) == walk
    ensures at == start ==> before + [at] == walk
    ensures at != start ==> (before + [at]) + BackWalk(parent, start, parent[at], budget - 1) == walk
  {
    if at != start {
      var tail := BackWalk(parent, start, parent[at], budget - 1);
      assert (before + [at]) + tail == before + ([at] + tail);
    }
  }

  /** temp[length] := x, seen as appending to the filled prefix. */
  method Append(temp: array<int>, length: int, x: int)
    requires 0 <= length < temp.Length
    modifies temp
    ensures temp[..length + 1] == old(temp[..length]) + [x]
  {
    temp[length] := x;
    assert temp[..length + 1] == temp[..length] + [x];
  }

  /** The copy loop of reconstruct_path: out_path gets temp[0..length) in reverse order. */
  method CopyReversed(temp: array<int>, length: int, outPath: array<int>)
    requires 0 <= length <= temp.Length && length <= outPath.Length && temp != outPath
    modifies outPath
    ensures outPath[..length] == Reverse(temp[..length])
    ensures outPath[length..] == old(outPath[length..])
  {
    for i := 0 to length
      invariant forall j :: 0 <= j < i ==> outPath[j] == temp[length - 1 - j]
      invariant forall j :: i <= j < outPath.Length ==> outPath[j] == old(outPath[j])
    {
      outPath[i] := temp[length - 1 - i];
    }
  }

  /** Vertex `a` comes before vertex `b` in the lexicographic order of (rank, tie). */
  ghost predicate Before(rank: seq<nat>, tie: seq<nat>, a: int, b: int)
    requires 0 <= a < |rank| && 0 <= b < |rank| && |tie| == |rank|
  {
    rank[a] < rank[b] || (rank[a] == rank[b] && tie[a] < tie[b])
  }

  /**
   * A parent forest in which every member other than `start` has its parent
   * in the forest, before it in the order of (rank, tie).
   */
  ghost predicate RootedForest(parent: seq<int>, rank: seq<nat>, tie: seq<nat>, forest: set<int>, start: int)
  {
    |rank| == |parent| && |tie| == |parent| && ParentsInRange(parent) &&
    start in forest &&
    (forall x :: x in forest ==> 0 <= x < |parent|) &&
    (forall x :: x in forest && x != start ==> parent[x] in forest && Before(rank, tie, parent[x], x))
  }

  /** In such a forest the parent chain of every member reaches `start`. */
  lemma {:induction false} ForestChain(parent: seq<int>, rank: seq<nat>, tie: seq<nat>, forest: set<int>, start: int, x: int)
    returns (p: seq<int>)
    requires RootedForest(parent, rank, tie, forest, start) && x in forest
    ensures |p| >= 1 && p[0] == start && p[|p| - 1] == x
    ensures forall i :: 0 <= i < |p| ==> p[i] in forest
    ensures forall i :: 0 <= i < |p| - 1 ==> Before(rank, tie, p[i], x)
    ensures forall i {:trigger parent[p[i + 1]]} :: 0 <= i < |p| - 1 ==> p[i] == parent[p[i + 1]]
    ensures Distinct(p) && |p| <= |parent|
    decreases rank[x], tie[x]
  {
    if x == start {
      p := [start];
    } else {
      var q := ForestChain(parent, rank, tie, forest, start, parent[x]);
      p := q + [x];
      forall i | 0 <= i < |p| - 1 ensures Before(rank, tie, p[i], x) {
        assert p[i] == q[i];
      }
    }
    DistinctBound(p, |parent|);
  }

  /**
   * A parent chain from `start` without a repeated vertex is what the
   * backward walk from its last vertex collects, given enough slots.
   */
  lemma {:induction false} BackWalkOfChain(parent: seq<int>, start: int, p: seq<int>, b: nat)
    requires ParentsInRange(parent) && |p| >= 1 && p[0] == start && Distinct(p)
    requires forall i :: 0 <= i < |p| ==> 0 <= p[i] < |parent|
    requires forall i {:trigger parent[p[i + 1]]} :: 0 <= i < |p| - 1 ==> p[i] == parent[p[i + 1]]
    requires b >= |p|
    ensures BackWalk(parent, start, p[|p| - 1], b) == Reverse(p)
    decreases |p|
  {
    var x := p[|p| - 1];
    if |p| == 1 {
      assert Reverse(p) == [start];
    } else {
      var q := p[..|p| - 1];
      assert x != start by { assert p[0] != p[|p| - 1]; }
      assert parent[x] == q[|q| - 1] by {
        var k := |p| - 2;
        assert p[k] == parent[p[k + 1]];
      }
      assert forall i {:trigger parent[q[i + 1]]} :: 0 <= i < |q| - 1 ==> q[i] == parent[q[i + 1]] by {
        forall i | 0 <= i < |q| - 1 ensures q[i] == parent[q[i + 1]] {
          assert p[i] == parent[p[i + 1]];
        }
      }
      BackWalkOfChain(parent, start, q, b - 1);
      assert p == q + [x];
      assert Reverse(p) == [x] + Reverse(q);
    }
  }

  /**
   * When the chain of `goal` fits the bound, reconstruct_path returns it;
   * otherwise it returns nothing.
   */
  lemma ForestReconstruct(parent: seq<int>, rank: seq<nat>, tie: seq<nat>, forest: set<int>, start: int, goal: int,
                           maxLen: int)
    returns (p: seq<int>)
    requires RootedForest(parent, rank, tie, forest, start) && goal in forest
    ensures |p| >= 1 && p[0] == start && p[|p| - 1] == goal
    ensures forall i :: 0 <= i < |p| ==> p[i] in forest
    ensures forall i {:trigger parent[p[i + 1]]} :: 0 <= i < |p| - 1 ==> p[i] == parent[p[i + 1]]
    ensures Distinct(p) && |p| <= |parent|
    ensures maxLen >= 2 && |p| <= maxLen ==> ReconstructedPath(start, goal, parent, maxLen) == Some(p)
    ensures !(maxLen >= 2 && |p| <= maxLen) ==> ReconstructedPath(start, goal, parent, maxLen) == None
  {
    p := ForestChain(parent, rank, tie, forest, start, goal);
    BackWalkOfChain(parent, start, p, |parent|);
    var w := BackWalk(parent, start, goal, |parent|);
    assert w == Reverse(p);
    assert w[|w| - 1] == start;
    if maxLen >= 2 && |p| <= maxLen {
      assert Reverse(Reverse(p)) == p by {
        forall i | 0 <= i < |p| ensures Reverse(Reverse(p))[i] == p[i] {}
      }
    }
  }

  /**
   * A parent chain from `start` in which every later vertex is joined to its
   * parent by an edge is a path from `start`.
   */
  lemma {:induction false} ChainIsPath(adj: AdjLists, parent: seq<int>, start: int, p: seq<int>)
    requires |p| >= 1 && p[0] == start && 0 <= start < |adj|
    requires forall i :: 0 < i < |p| ==> 0 <= p[i] < |parent| && HasEdge(adj, parent[p[i]], p[i])
    requires forall i {:trigger parent[p[i + 1]]} :: 0 <= i < |p| - 1 ==> p[i] == parent[p[i + 1]]
    ensures PathFromTo(adj, p, start, p[|p| - 1])
    decreases |p|
  {
    if |p| > 1 {
      var q := p[..|p| - 1];
      var x := p[|p| - 1];
      assert forall i {:trigger parent[q[i + 1]]} :: 0 <= i < |q| - 1 ==> q[i] == parent[q[i + 1]] by {
        forall i | 0 <= i < |q| - 1 ensures q[i] == parent[q[i + 1]] {
          assert p[i] == parent[p[i + 1]];
        }
      }
      ChainIsPath(adj, parent, start, q);
      assert parent[x] == q[|q| - 1] by {
        var k := |p| - 2;
        assert p[k] == parent[p[k + 1]];
      }
      PathExtend(adj, q, x);
      assert p == q + [x];
    }
  }

  /** A goal without a parent that is not the start is never reconstructed. */
  lemma OrphanNotReconstructed(parent: seq<int>, start: int, goal: int, maxLen: int)
    requires ParentsInRange(parent) && 0 <= goal < |parent|
    requires goal != start && parent[goal] == -1
    ensures ReconstructedPath(start, goal, parent, maxLen) == None
  {
    assert BackWalk(parent, start, goal, |parent|) == [goal];
  }
}
