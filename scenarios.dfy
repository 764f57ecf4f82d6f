/**
 * Consequences of the search contracts on whole inputs: Bellman-Ford agrees
 * with Dijkstra where both apply, and the two Bellman-Ford graphs of
 * tests/test_algorithms.c, built edge by edge as the tests build them, get
 * the outcome the tests expect.
 */
module Scenarios {
  import opened Graphs
  import opened Paths
  import opened Wrappers
  import Relaxation
  import BellmanFord
  import Dijkstra
  import AStar
  import Heuristics

  /**
   * What a successful bellman_ford_shortest_path reports with start != goal:
   * `p` is a walk of cost `d` whose partial sums stay below INT_MAX, and no
   * such walk from start to goal costs less.
   */
  ghost predicate CheapestFinite(adj: AdjLists, start: int, goal: int, p: seq<int>, d: int)
  {
    (exists ws :: WalkFromTo(adj, p, ws, start, goal) && BellmanFord.PrefixesFinite(ws) && Sum(ws) == d) &&
    forall vs, ws :: WalkFromTo(adj, vs, ws, start, goal) && BellmanFord.PrefixesFinite(ws) ==> Sum(ws) >= d
  }

  /** Every edge of the graph has a non-negative weight. */
  ghost predicate NonNegative(adj: AdjLists)
  {
    forall u, k :: 0 <= u < |adj| && 0 <= k < |adj[u]| ==> adj[u][k].weight >= 0
  }

  /** On a graph without negative edges every walk takes only non-negative edges. */
  lemma NonNegativeWalk(adj: AdjLists, vs: seq<int>, ws: seq<int>, s: int, t: int)
    requires NonNegative(adj) && WalkFromTo(adj, vs, ws, s, t)
    ensures NonNegWalk(adj, vs, ws, s, t)
  {
    forall i | 0 <= i < |ws| ensures ws[i] >= 0 {
      assert HasWeightedEdge(adj, vs[i], vs[i + 1], ws[i]);
    }
  }

  /**
   * When no weight is negative, the cost Bellman-Ford reports equals the
   * one Dijkstra reports (Dijkstra's is below INT_MAX).
   */
  lemma BellmanFordMatchesDijkstra(adj: AdjLists, start: int, goal: int, p: seq<int>, dB: int, dD: int)
    requires NonNegative(adj)
    requires CheapestFinite(adj, start, goal, p, dB)
    requires Relaxation.LeastCost(adj, start, goal, dD) && dD < INT_MAX
    ensures dB == dD
  {
    var ws :| WalkFromTo(adj, p, ws, start, goal) && BellmanFord.PrefixesFinite(ws) && Sum(ws) == dB;
    NonNegativeWalk(adj, p, ws, start, goal);
    var vs2, ws2 :| NonNegWalk(adj, vs2, ws2, start, goal) && Sum(ws2) == dD;
    forall k | 0 <= k <= |ws2| ensures Sum(ws2[..k]) < INT_MAX {
      SumPrefixNonNeg(ws2, k);
    }
    assert BellmanFord.PrefixesFinite(ws2);
  }

  /** The edge lists of an n-vertex graph fresh from createGraph. */
  function Empty(n: nat): AdjLists
  {
    seq(n, _ => [])
  }

  /**
   * test_bellman_ford_negative_cycle: 0 -> 1 (1), 1 -> 2 (1) and
   * 2 -> 1 (-3), inserted in that order.
   */
  function CycleGraph(): AdjLists
  {
    WithEdge(WithEdge(WithEdge(Empty(3), 0, 1, 1, false), 1, 2, 1, false), 2, 1, -3, false)
  }

  lemma CycleGraphValue()
    ensures CycleGraph() == [[Edge(1, 1)], [Edge(2, 1)], [Edge(1, -3)]]
  {
    var a0: AdjLists := [[], [], []];
    assert Empty(3) == a0;
    var a1: AdjLists := [[Edge(1, 1)], [], []];
    Step(a0, 0, 1, 1, a1);
    var a2: AdjLists := [[Edge(1, 1)], [Edge(2, 1)], []];
    Step(a1, 1, 2, 1, a2);
    Step(a2, 2, 1, -3, [[Edge(1, 1)], [Edge(2, 1)], [Edge(1, -3)]]);
  }

  /** 0 -> 1 -> 2 -> 1 -> 2 is a walk of CycleGraph through its three edges. */
  lemma CycleWalk()
    ensures EdgesInRange(CycleGraph())
    ensures WalkFromTo(CycleGraph(), [0, 1, 2, 1, 2], [1, 1, -3, 1], 0, 2)
  {
    var adj := CycleGraph();
    CycleGraphValue();
    assert HasWeightedEdge(adj, 0, 1, 1) && HasWeightedEdge(adj, 1, 2, 1) && HasWeightedEdge(adj, 2, 1, -3) by {
      assert adj[0][0] == Edge(1, 1) && adj[1][0] == Edge(2, 1) && adj[2][0] == Edge(1, -3);
    }
    var vs, ws := [0, 1, 2, 1, 2], [1, 1, -3, 1];
    forall i | 0 <= i < |ws| ensures HasWeightedEdge(adj, vs[i], vs[i + 1], ws[i]) {
      if i == 0 {} else if i == 1 {} else if i == 2 {} else {}
    }
  }

  /** The graph after one more directed edge, given list by list. */
  lemma Step(adj: AdjLists, source: int, destination: int, weight: Int32, r: AdjLists)
    requires 0 <= source < |adj| && 0 <= destination < |adj| && |r| == |adj|
    requires r[source] == [Edge(destination, weight)] + adj[source]
    requires forall i :: 0 <= i < |adj| && i != source ==> r[i] == adj[i]
    ensures WithEdge(adj, source, destination, weight, false) == r
  {
    Directed(adj, source, destination, weight);
  }

  /**
   * The cycle 1 -> 2 -> 1 costs -1 and lies on a walk from 0 to 2, so
   * bellman_ford_shortest_path(0, 2) fails there.
   */
  lemma NegativeCycleScenario()
    ensures EdgesInRange(CycleGraph())
    ensures BellmanFord.NegativeCycleOnWay(CycleGraph(), 0, 2)
  {
    var vs, ws := [0, 1, 2, 1, 2], [1, 1, -3, 1];
    CycleWalk();
    PrefixSums4(1, 1, -3, 1);
    assert Sum(ws[1..3]) < 0 by {
      assert ws[1..3] == [1, -3] && [1, -3][..1] == [1] && [1][..0] == [];
    }
    assert vs[1] == vs[3];
  }

  /** The partial sums of a walk of four weights are its running totals. */
  lemma PrefixSums4(a: int, b: int, c: int, e: int)
    requires a < INT_MAX && a + b < INT_MAX && a + b + c < INT_MAX && a + b + c + e < INT_MAX
    ensures BellmanFord.PrefixesFinite([a, b, c, e])
  {
    var ws := [a, b, c, e];
    assert Sum([a]) == a by { assert [a][..0] == []; }
    assert Sum([a, b]) == a + b by { assert [a, b][..1] == [a]; }
    assert Sum([a, b, c]) == a + b + c by { assert [a, b, c][..2] == [a, b]; }
    assert Sum(ws) == a + b + c + e by { assert ws[..3] == [a, b, c]; }
    forall k | 0 <= k <= 4 ensures Sum(ws[..k]) < INT_MAX {
      if k == 0 { assert ws[..k] == []; }
      else if k == 1 { assert ws[..k] == [a]; }
      else if k == 2 { assert ws[..k] == [a, b]; }
      else if k == 3 { assert ws[..k] == [a, b, c]; }
      else { assert ws[..k] == ws; }
    }
  }

  /** The partial sums of a walk of three weights are its running totals. */
  lemma PrefixSums3(a: int, b: int, c: int)
    requires a < INT_MAX && a + b < INT_MAX && a + b + c < INT_MAX
    ensures BellmanFord.PrefixesFinite([a, b, c])
    ensures Sum([a, b, c]) == a + b + c
  {
    var ws := [a, b, c];
    assert Sum([a]) == a by { assert [a][..0] == []; }
    assert Sum([a, b]) == a + b by { assert [a, b][..1] == [a]; }
    assert Sum(ws) == a + b + c by { assert ws[..2] == [a, b]; }
    forall k | 0 <= k <= 3 ensures Sum(ws[..k]) < INT_MAX {
      if k == 0 { assert ws[..k] == []; }
      else if k == 1 { assert ws[..k] == [a]; }
      else if k == 2 { assert ws[..k] == [a, b]; }
      else { assert ws[..k] == ws; }
    }
  }

  /** A directed edge goes in front of its source's list and nowhere else. */
  lemma Directed(adj: AdjLists, source: int, destination: int, weight: Int32)
    requires 0 <= source < |adj| && 0 <= destination < |adj|
    ensures WithEdge(adj, source, destination, weight, false) == adj[source := [Edge(destination, weight)] + adj[source]]
  {
    var r := WithEdge(adj, source, destination, weight, false);
    forall a | 0 <= a < |adj| ensures r[a] == adj[source := [Edge(destination, weight)] + adj[source]][a] {
      WithEdgeList(adj, source, destination, weight, false, a);
    }
  }

  /**
   * test_bellman_ford_negative_weight: 0 -> 1 (6), 1 -> 2 (5), 2 -> 3 (-4)
   * and 0 -> 3 (8), inserted in that order.
   */
  function WeightGraph(): AdjLists
  {
    WithEdge(WithEdge(WithEdge(WithEdge(Empty(4), 0, 1, 6, false), 1, 2, 5, false), 2, 3, -4, false), 0, 3, 8, false)
  }

  lemma WeightGraphValue()
    ensures WeightGraph() == [[Edge(3, 8), Edge(1, 6)], [Edge(2, 5)], [Edge(3, -4)], []]
  {
    var a0: AdjLists := [[], [], [], []];
    assert Empty(4) == a0;
    var a1: AdjLists := [[Edge(1, 6)], [], [], []];
    Step(a0, 0, 1, 6, a1);
    var a2: AdjLists := [[Edge(1, 6)], [Edge(2, 5)], [], []];
    Step(a1, 1, 2, 5, a2);
    var a3: AdjLists := [[Edge(1, 6)], [Edge(2, 5)], [Edge(3, -4)], []];
    Step(a2, 2, 3, -4, a3);
    Step(a3, 0, 3, 8, [[Edge(3, 8), Edge(1, 6)], [Edge(2, 5)], [Edge(3, -4)], []]);
  }

  /** The only distances the relaxation settles on for WeightGraph from 0 admit no further step. */
  lemma WeightGraphQuiet(vs: seq<int>, ws: seq<int>)
    requires IsWalk(WeightGraph(), vs, ws)
    ensures forall m :: 0 <= m < |ws| ==> !BellmanFord.Improves([0, 6, 11, 7], vs[m], vs[m + 1], ws[m])
  {
    var adj := WeightGraph();
    WeightGraphValue();
    forall m | 0 <= m < |ws| ensures !BellmanFord.Improves([0, 6, 11, 7], vs[m], vs[m + 1], ws[m]) {
      assert HasWeightedEdge(adj, vs[m], vs[m + 1], ws[m]);
    }
  }

  /** 0 -> 1 -> 2 -> 3 is a walk of WeightGraph of cost 7. */
  lemma WeightWalk()
    ensures WalkFromTo(WeightGraph(), [0, 1, 2, 3], [6, 5, -4], 0, 3)
  {
    var adj := WeightGraph();
    WeightGraphValue();
    assert HasWeightedEdge(adj, 0, 1, 6) && HasWeightedEdge(adj, 1, 2, 5) && HasWeightedEdge(adj, 2, 3, -4) by {
      assert adj[0][1] == Edge(1, 6) && adj[1][0] == Edge(2, 5) && adj[2][0] == Edge(3, -4);
    }
    var vs, ws := [0, 1, 2, 3], [6, 5, -4];
    forall i | 0 <= i < |ws| ensures HasWeightedEdge(adj, vs[i], vs[i + 1], ws[i]) {
      if i == 0 {} else if i == 1 {} else {}
    }
  }

  /** No walk of WeightGraph from 0 to 3 whose partial sums stay finite costs less than 7. */
  lemma WeightLowerBound(p: seq<int>, ws: seq<int>)
    requires WalkFromTo(WeightGraph(), p, ws, 0, 3) && BellmanFord.PrefixesFinite(ws)
    ensures Sum(ws) >= 7
  {
    var adj := WeightGraph();
    var D := [0, 6, 11, 7];
    WalkIsPath(adj, p, ws);
    PathInRange(adj, p);
    WeightGraphQuiet(p, ws);
    forall m | 0 <= m < |ws| ensures D[p[0]] + Sum(ws[0..m]) < INT_MAX {
      assert ws[0..m] == ws[..m];
    }
    BellmanFord.Descent(adj, D, p, ws, 0, |ws|);
    assert ws[0..|ws|] == ws;
  }

  /** Every edge leads to a vertex of higher index, so no walk comes back. */
  ghost predicate Forward(adj: AdjLists)
  {
    forall u, k :: 0 <= u < |adj| && 0 <= k < |adj[u]| ==> u < adj[u][k].to
  }

  /** Every edge weight lies in [lo, hi]. */
  ghost predicate WeightsWithin(adj: AdjLists, lo: int, hi: int)
  {
    forall u, k :: 0 <= u < |adj| && 0 <= k < |adj[u]| ==> lo <= adj[u][k].weight <= hi
  }

  /** A sequence that rises at every step rises between any two positions. */
  lemma {:induction false} Increasing(vs: seq<int>)
    requires forall i :: 0 <= i < |vs| - 1 ==> vs[i] < vs[i + 1]
    ensures forall i, j :: 0 <= i < j < |vs| ==> vs[i] < vs[j]
    decreases |vs|
  {
    if |vs| > 1 {
      var front := vs[..|vs| - 1];
      Increasing(front);
      assert forall i :: 0 <= i < |front| ==> front[i] == vs[i];
      forall i | 0 <= i < |vs| - 1 ensures vs[i] < vs[|vs| - 1] {
        if i < |vs| - 2 {
          assert front[i] < front[|vs| - 2];
        }
      }
    }
  }

  /** On a Forward graph the vertices of a walk strictly increase. */
  lemma ForwardWalk(adj: AdjLists, vs: seq<int>, ws: seq<int>)
    requires Forward(adj) && IsWalk(adj, vs, ws)
    ensures forall i, j :: 0 <= i < j < |vs| ==> vs[i] < vs[j]
  {
    forall i | 0 <= i < |vs| - 1 ensures vs[i] < vs[i + 1] {
      assert HasWeightedEdge(adj, vs[i], vs[i + 1], ws[i]);
    }
    Increasing(vs);
  }

  /** A Forward graph has no cycle at all, so none of negative weight. */
  lemma ForwardNoCycle(adj: AdjLists, start: int)
    requires Forward(adj)
    ensures BellmanFord.NoNegativeCycleFrom(adj, start)
  {
    forall vs, ws, t, i, j | WalkFromTo(adj, vs, ws, start, t) && 0 <= i < j <= |ws|
      ensures vs[i] < vs[j]
    {
      ForwardWalk(adj, vs, ws);
    }
  }

  /** A sum of k terms in [lo, hi] lies in [k * lo, k * hi]. */
  lemma {:induction false} SumWithin(ws: seq<int>, lo: int, hi: int)
    requires forall i :: 0 <= i < |ws| ==> lo <= ws[i] <= hi
    ensures |ws| * lo <= Sum(ws) <= |ws| * hi
    decreases |ws|
  {
    if ws != [] {
      var front := ws[..|ws| - 1];
      SumWithin(front, lo, hi);
      assert (|ws| - 1) * lo + lo == |ws| * lo && (|ws| - 1) * hi + hi == |ws| * hi;
    }
  }

  /** The weights of a walk come from edges, so they share the edges' bounds. */
  lemma WalkWithin(adj: AdjLists, vs: seq<int>, ws: seq<int>, lo: int, hi: int)
    requires WeightsWithin(adj, lo, hi) && IsWalk(adj, vs, ws)
    ensures |ws| * lo <= Sum(ws) <= |ws| * hi
  {
    forall i | 0 <= i < |ws| ensures lo <= ws[i] <= hi {
      assert HasWeightedEdge(adj, vs[i], vs[i + 1], ws[i]);
    }
    SumWithin(ws, lo, hi);
  }

  /**
   * WeightGraph meets every hypothesis of the Bellman-Ford success clause
   * for start 0 and goal 3: no cycle, walks of at most three edges cost
   * between -12 and 24, and 3 is reachable from 0.
   */
  lemma WeightGraphComplete()
    ensures |WeightGraph()| == 4 && EdgesInRange(WeightGraph())
    ensures BellmanFord.NoNegativeCycleFrom(WeightGraph(), 0)
    ensures BellmanFord.ShortWalksInRange(WeightGraph(), 0)
    ensures Reachable(WeightGraph(), 0, 3)
  {
    var adj := WeightGraph();
    WeightGraphValue();
    assert Forward(adj) && WeightsWithin(adj, -4, 8) by {
      forall u, k | 0 <= u < |adj| && 0 <= k < |adj[u]|
        ensures u < adj[u][k].to && -4 <= adj[u][k].weight <= 8
      {
        if u == 0 { assert k == 0 || k == 1; }
      }
    }
    ForwardNoCycle(adj, 0);
    forall vs, ws, t | WalkFromTo(adj, vs, ws, 0, t) && |ws| < |adj|
      ensures INT_MIN <= Sum(ws) < INT_MAX
    {
      WalkWithin(adj, vs, ws, -4, 8);
    }
    WeightWalk();
    WalkIsPath(adj, [0, 1, 2, 3], [6, 5, -4]);
    assert PathFromTo(adj, [0, 1, 2, 3], 0, 3);
  }

  /**
   * On WeightGraph a successful bellman_ford_shortest_path(0, 3) reports
   * 6 + 5 - 4 = 7, the value the test expects.
   */
  lemma NegativeWeightScenario(p: seq<int>, d: int)
    requires CheapestFinite(WeightGraph(), 0, 3, p, d)
    ensures d == 7
  {
    WeightWalk();
    PrefixSums3(6, 5, -4);
    var ws :| WalkFromTo(WeightGraph(), p, ws, 0, 3) && BellmanFord.PrefixesFinite(ws) && Sum(ws) == d;
    WeightLowerBound(p, ws);
  }

  /** The graph of test_bellman_ford_negative_weight, built as the test builds it. */
  method BuildWeightGraph() returns (g: Graph)
    ensures fresh(g) && g.Valid() && g.numVertices == 4 && g.adj == WeightGraph()
  {
    var h := CreateGraph(4);
    assert h.adj == Empty(4);
    AddWeightedEdge(h, 0, 1, 6, false);
    AddWeightedEdge(h, 1, 2, 5, false);
    AddWeightedEdge(h, 2, 3, -4, false);
    AddWeightedEdge(h, 0, 3, 8, false);
    g := h;
  }

  /** The graph of test_bellman_ford_negative_cycle, built as the test builds it. */
  method BuildCycleGraph() returns (g: Graph)
    ensures fresh(g) && g.Valid() && g.numVertices == 3 && g.adj == CycleGraph()
  {
    var h := CreateGraph(3);
    assert h.adj == Empty(3);
    AddWeightedEdge(h, 0, 1, 1, false);
    AddWeightedEdge(h, 1, 2, 1, false);
    AddWeightedEdge(h, 2, 1, -3, false);
    g := h;
  }

  /**
   * test_bellman_ford_negative_weight as the test runs it: the graph built
   * by createGraph and four addWeightedEdge calls, a 10-slot path buffer,
   * and bellman_ford_shortest_path(0, 3) finding a path of cost 7 that
   * ends at 3.
   */
  method NegativeWeightTest() returns (len: int, dist: int, last: int)
    ensures len > 0 && dist == 7 && last == 3
  {
    var g := BuildWeightGraph();
    var path := new int[10];
    WeightGraphComplete();
    len, dist := BellmanFord.BellmanFordShortestPath(g, 0, 3, path, 10);
    NegativeWeightScenario(path[..len], dist);
    last := path[len - 1];
    assert last == path[..len][len - 1];
  }

  /**
   * test_bellman_ford_negative_cycle as the test runs it: the graph with
   * the cycle 1 -> 2 -> 1 of weight -1, and bellman_ford_shortest_path(0, 2)
   * failing with distance -1.
   */
  method NegativeCycleTest() returns (len: int, dist: int)
    ensures len == 0 && dist == -1
  {
    var g := BuildCycleGraph();
    var path := new int[10];
    NegativeCycleScenario();
    len, dist := BellmanFord.BellmanFordShortestPath(g, 0, 2, path, 10);
  }

  /**
   * astar_shortest_path with a NULL heuristic next to dijkstra_shortest_path
   * on the same graph and endpoints: when both succeed they report the same
   * cost, and with room for every vertex one succeeds exactly when the
   * other does.  (The paths themselves may differ when two paths tie.)
   */
  method AStarNullMatchesDijkstra(g: Graph, start: int, goal: int, maxPathLen: nat)
    returns (lenD: int, costD: int, lenA: int, costA: int)
    requires g.Valid()
    ensures lenD > 0 && lenA > 0 ==> costD == costA
    ensures maxPathLen >= g.numVertices ==> (lenD > 0 <==> lenA > 0)
  {
    var pathD := new int[maxPathLen];
    var pathA := new int[maxPathLen];
    lenD, costD := Dijkstra.DijkstraShortestPath(g, start, goal, pathD, maxPathLen);
    lenA, costA := AStar.AStarShortestPath(g, start, goal, pathA, maxPathLen, None);
    if lenD > 0 && lenA > 0 {
      Heuristics.NullConsistent(g.adj, goal);
      Relaxation.LeastCostUnique(g.adj, start, goal, costD, costA);
    }
  }
}
