# Route planner core in Dafny

This project models the core of a small C route planner and proves properties of the model. The core is:

- the graph store of `src/graph.c`. A graph has a fixed number of vertices. Each vertex has a singly linked list of weighted outgoing edges and an optional name.
- the five path searches of `src/algorithms.c`:
  - breadth-first search for the fewest hops;
  - depth-first search for any path;
  - Dijkstra's algorithm over non-negative edges;
  - A* with an optional heuristic, over an indexed binary min-heap with decrease-key;
  - Bellman-Ford, with marking of the vertices a negative cycle can reach.
- the shared backward walk over the parent table that turns a search result into a start-to-goal path.

Each C function becomes a Dafny member of the same shape:

- **Graph:** a `class` whose `adj` field is a sequence of edge lists, with index 0 being the list head. Its `names` field is a sequence of optional strings.
- **Heap:** a `class` over two arrays, `nodes` and `heapIndex`, as in the C struct.
- **Searches:** methods over arrays (`dist`, `parent`, `visited`, `queue`, `f_score`, the affected table) with the same loops as the C code. They are proved through ghost snapshots of those arrays and loop-invariant predicates.
- **Manhattan heuristic:** the only pure C function, so it becomes a Dafny function.

These C details are written out explicitly:

- 32-bit `int`;
- the saturating store `(x > INT_MAX) ? INT_MAX : x`;
- Bellman-Ford's clamp into `[INT_MIN, INT_MAX]`;
- C's truncating `/` and `%`.

Modules and files:

| file | module | models |
|---|---|---|
| wrappers.dfy | Wrappers | `Option` |
| graph.dfy | Graphs | `src/graph.c` |
| paths.dfy | Paths | paths, walks, reachability and cost sums (logic shared by all searches) |
| arguments.dfy | Arguments | the argument screening at the top of every search |
| reconstruct.dfy | Reconstruct | `reconstruct_path` |
| relax.dfy | Relaxation | saturation and parent-tree facts shared by Dijkstra and A* |
| heap.dfy | Heap | `pq_*` |
| heuristics.dfy | Heuristics | `simple_manhattan_heuristic` and heuristic consistency |
| bfs.dfy, dfs.dfy, dijkstra.dfy, astar.dfy, bellman_ford.dfy | Bfs, Dfs, Dijkstra, AStar, BellmanFord | the searches |
| scenarios.dfy | Scenarios | the Bellman-Ford vs Dijkstra and A*-with-NULL vs Dijkstra cross-checks, and the two Bellman-Ford tests of `tests/test_algorithms.c` run through the method contracts |

How the search contracts are phrased:

- **Paths.** A "path" is a sequence of vertices joined by edges. A "walk" also carries the weight of each step that is taken.
- **Dijkstra and A*.** Both ignore negative edges. Their costs are therefore stated over `NonNegWalk`, a walk that uses only non-negative edges.
- **Bellman-Ford.** Its costs are stated over walks whose partial sums all stay below `INT_MAX`. No other walk could ever be seen by the code: a partial sum of `INT_MAX` reads as "not reached".

Where the header comments and the code disagree, the model follows the code:

- `include/graph.h:71` says a NULL name removes a vertex's name. `graphSetName` (`src/graph.c:77-84`) returns without changing anything when the name is NULL, and `Graphs.GraphSetName` does the same.
- `include/graph.h:53` documents a return value for `addWeightedEdge`, which is `void`. `Graphs.AddWeightedEdge` returns nothing.
- `reconstruct_path` (`src/algorithms.c:28-34`) has no test for a revisited vertex. Its backward walk takes at most `num_vertices` steps, so a walk caught in a parent cycle stops when the steps run out and then fails because it does not end at `start`. `Reconstruct.BackWalk` models exactly this step budget. Only Bellman-Ford's own backward walk keeps a visited table (`src/algorithms.c:639-655`).
- `include/algorithms.h:49` says A* with a NULL heuristic behaves like Dijkstra. `Scenarios.AStarNullMatchesDijkstra` proves the part about the outcome and the cost: on the same graph, endpoints and bound, both report the same distance when both succeed, and with a bound of at least n one succeeds exactly when the other does. The proof: both contracts make the reported distance the least cost of a non-negative walk (`Heuristics.NullConsistent` makes the NULL heuristic consistent), and such a least cost is unique (`Relaxation.LeastCostUnique`). The returned path itself is not fixed by either contract, and following the code by hand shows it can differ under ties. An example is the graph 0→1 (1), 0→3 (1), 1→2 (0), 2→4 (1), 3→4 (1) with goal 4:
  - Dijkstra settles vertices in index order and so reaches 4 from 2, giving 0,1,2,4;
  - A*'s heap pops 3 before 2 and reaches 4 from 3, giving 0,3,4.

## Model

| member | source | states |
|---|---|---|
| Graphs.WithEdge | src/graph.c:50-70 | Adding an edge prepends (destination, weight) to the source's list and keeps the older edges behind it in order, duplicates included. When undirected, it also prepends (source, weight) to the destination's list; a self-loop gets both copies. No other list changes, and edges stay in range. |
| Graphs.Graph.constructor | src/graph.c:16-18 | A new graph has the requested number of vertices, every edge list empty and every name absent. |
| Graphs.CreateGraph | src/graph.c:6-27 | NULL for a non-positive vertex count; otherwise a fresh valid graph with that many vertices, no edges and no names. |
| Graphs.AddWeightedEdge | src/graph.c:41-71 | An endpoint outside [0, n) leaves the edge lists unchanged; otherwise the edge lists become those with the edge (and its reverse when undirected) inserted at the head. Names never change. |
| Graphs.AddEdge | src/graph.c:73-75 | The same as adding the weighted edge with weight 1. |
| Graphs.GraphSetName | src/graph.c:77-84 | A NULL name or an out-of-range id changes nothing; otherwise exactly that vertex's name is replaced. Edges never change. |
| Graphs.GraphGetName | src/graph.c:86-92 | NULL for a NULL graph or an out-of-range id, otherwise the stored name. |
| Graphs.FindVertexByName | src/graph.c:94-107 | -1 for a NULL graph or name, and -1 exactly when no vertex has that name; otherwise the smallest index whose name is equal. |
| Reconstruct.BackWalk | src/algorithms.c:25-34 | The backward walk from the goal starts at the goal and never collects more than its step budget. |
| Reconstruct.BackWalkChain | src/algorithms.c:28-34 | Each vertex of the backward walk is the parent of the vertex collected before it, and only its last vertex can be `start`. |
| Reconstruct.Reverse | src/algorithms.c:46-48 | The copy loop writes the collected walk in reverse order: element i is element length-1-i of the walk. |
| Reconstruct.ReconstructedPath | src/algorithms.c:15-52 | No path exactly when the bound is below 2, or the walk from the goal does not end at `start`, or the walk is longer than the bound. A path, when there is one, runs from start to goal, has between 1 and min(bound, n) vertices, follows parent links, and does not revisit start. |
| Reconstruct.ReconstructPath | src/algorithms.c:15-52 | On failure the result is 0 and the output buffer is untouched; on success it holds exactly the reconstructed path (length returned), and the buffer past it is untouched. |
| Reconstruct.WalkBack | src/algorithms.c:25-34 | The walk loop fills `temp[0..length)` with exactly the backward walk. |
| Reconstruct.BackWalkStep | src/algorithms.c:28-34 | One iteration of the walk loop: it stops at `start`, or else continues from the parent with one step less. |
| Reconstruct.Append | src/algorithms.c:29 | `temp[length++] = at` extends the collected prefix by `at`. |
| Reconstruct.CopyReversed | src/algorithms.c:46-48 | The output buffer's first `length` entries become the reverse of `temp`, and the rest is untouched. |
| Reconstruct.ForestChain | src/algorithms.c:28-34 | In a parent forest rooted at start, every member has a distinct parent chain from start of at most n vertices. |
| Reconstruct.BackWalkOfChain | src/algorithms.c:28-34 | The backward walk along a distinct parent chain from start returns exactly that chain, reversed. |
| Reconstruct.ForestReconstruct | src/algorithms.c:15-52 | For a goal in a rooted parent forest, reconstruction returns the goal's parent chain when it fits the bound, and fails otherwise. |
| Reconstruct.ChainIsPath | src/algorithms.c:15-52 | A parent chain whose every link is an edge of the graph is a path from start to its last vertex. |
| Reconstruct.OrphanNotReconstructed | src/algorithms.c:33-39 | A goal other than start without a parent yields no path. |
| Relaxation.Saturate | src/algorithms.c:217-219 | The stored distance fits an int, equals the sum when the sum fits, and is INT_MAX when the sum exceeds it. |
| Relaxation.SaturateDead | src/algorithms.c:217-219 | Under the improvement test the sum is below the old distance, so it fits and the saturation never applies. |
| Relaxation.ChainWalk | src/algorithms.c:216-220 | Along a chain of tree edges from start, the edges form a non-negative walk whose cost is at most the difference of the end distances. |
| Relaxation.LeastCostUnique | src/algorithms.c:243 | The least cost of a non-negative walk is unique, so two searches that both report it report the same distance. |
| Heap.Parent | src/algorithms.c:330 | `(idx - 1) / 2` is a smaller slot of which idx is the left or right child. |
| Heap.SwapKeeps | src/algorithms.c:319-326 | Swapping two slots and re-indexing both keeps the index table consistent and the set of entries with their priorities unchanged. |
| Heap.UpStep | src/algorithms.c:328-334 | One swap of heapify_up moves the only possible order violation up to the parent. |
| Heap.UpDone | src/algorithms.c:331 | heapify_up may stop at the root, or when the parent is no larger: the heap is then ordered. |
| Heap.DownStep | src/algorithms.c:337-355 | One swap of heapify_down with the smaller child moves the only possible violation down to that child. |
| Heap.DownStepParents | src/algorithms.c:353-354 | After that swap every slot whose parent is not the new position is ordered with its parent. |
| Heap.DownStepAt | src/algorithms.c:353 | The same for one such slot. |
| Heap.DownStepBelow | src/algorithms.c:353 | After that swap, the moved-up child is no larger than the children of its new child slot. |
| Heap.DownDone | src/algorithms.c:352 | heapify_down may stop when no child is smaller: the heap is then ordered. |
| Heap.RootIsMin | src/algorithms.c:380-381 | In an ordered heap no slot has a smaller priority than the root. |
| Heap.RootIsMinEntry | src/algorithms.c:380-381 | The root holds an entry of minimum priority among all entries. |
| Heap.Room | src/algorithms.c:359 | If a vertex is absent from a consistent heap, the heap is below capacity. |
| Heap.Placed | src/algorithms.c:360-362 | Writing a new entry into slot `size` and indexing it adds exactly that entry. The only possible order violation is at the new slot. |
| Heap.Lowered | src/algorithms.c:372 | Lowering an entry's priority in place changes only that entry. The only possible order violation is at its slot. |
| Heap.Unrooted | src/algorithms.c:383-388 | Removing the root and moving the last entry to slot 0 removes exactly the root's vertex. The only possible order violation is at slot 0. |
| Heap.NoEntries | src/algorithms.c:295 | A heap of size 0 has no entries. |
| Heap.Emptied | src/algorithms.c:383-386 | Popping the only entry leaves a consistent empty heap. |
| Heap.PriorityQueue.constructor | src/algorithms.c:288-309 | pq_create: an empty, ordered, consistently indexed heap of the given capacity with every index -1. |
| Heap.PriorityQueue.Swap | src/algorithms.c:319-326 | The heap and index arrays become exactly the swapped and re-indexed tables. |
| Heap.PriorityQueue.HeapifyUp | src/algorithms.c:328-335 | From a heap whose only violation is at idx, produces an ordered heap with the same entries. |
| Heap.PriorityQueue.HeapifyDown | src/algorithms.c:337-356 | From a heap whose only violation is below idx, produces an ordered heap with the same entries. |
| Heap.PriorityQueue.Insert | src/algorithms.c:358-366 | A full heap returns -1 and is unchanged, whether or not the vertex is in it. Otherwise it returns 0, the size grows by one, and the vertex is added with its priority; order and index stay valid. |
| Heap.PriorityQueue.DecreaseKey | src/algorithms.c:368-375 | Returns -1 and changes nothing for an absent vertex. A priority that is not lower returns 0 and changes nothing. Otherwise that vertex's priority is lowered, and order and index stay valid. |
| Heap.PriorityQueue.PopMin | src/algorithms.c:377-393 | An empty heap returns -1. Otherwise it returns an entry of minimum priority, removes exactly that vertex, and decrements the size; order and index stay valid. |
| Heap.PriorityQueue.Contains | src/algorithms.c:395-398 | True exactly when the vertex is in the heap. |
| Heuristics.Column | src/algorithms.c:259-262 | C's `%` by 5: the remainder after the truncated quotient, of magnitude below 5, non-negative for non-negative ids. |
| Heuristics.SimpleManhattanHeuristic | src/algorithms.c:258-264 | The Manhattan distance on a width-5 grid is non-negative, and zero exactly when the two ids are equal. |
| Heuristics.ManhattanSymmetric | src/algorithms.c:258-264 | The heuristic is symmetric. |
| Heuristics.ManhattanTriangle | src/algorithms.c:258-264 | The heuristic obeys the triangle inequality. |
| Heuristics.ManhattanNeighbours | src/algorithms.c:258-264 | Horizontal and vertical grid neighbours are at distance 1. |
| Heuristics.NullConsistent | src/algorithms.c:469 | The zero estimate used for a NULL heuristic is consistent on every graph. |
| Heuristics.ManhattanConsistent | src/algorithms.c:258-264 | If no non-negative edge is cheaper than the grid distance of its ends, the Manhattan heuristic towards the goal is consistent. |
| AStar.Start | src/algorithms.c:426-434 | The initial tables and the heap holding only start, keyed by h(start), satisfy the search invariant. |
| AStar.Frontier | src/algorithms.c:436-479 | Every non-negative walk to t either costs at least t's distance, or passes a heap vertex whose key is at most its cost plus h(t), when h is consistent. |
| AStar.GoalOptimal | src/algorithms.c:442-449 | When the goal is popped as a minimum key and h is consistent, no non-negative walk reaches the goal for less than its distance. |
| AStar.Exhausted | src/algorithms.c:436-481 | An empty heap means no non-negative walk reaches the goal at a cost below INT_MAX. |
| AStar.PopStep | src/algorithms.c:438-440 | Popping a non-goal vertex keeps the invariant, with that vertex's edges to be relaxed. |
| AStar.ImproveTree | src/algorithms.c:466-468 | Lowering v's distance through a non-negative edge from u keeps the parent tree, with its distance and lowering-time order. |
| AStar.Improve | src/algorithms.c:466-476 | An improving edge: storing the sum, the parent and the key dist+h(v) keeps the invariant and one more relaxed edge. |
| AStar.RelaxStep | src/algorithms.c:457-477 | One pass of the edge loop keeps the invariant. It strictly lowers the distance total when the edge improves, and changes nothing otherwise. |
| AStar.Finish | src/algorithms.c:457-478 | When all edges of the popped vertex are relaxed, the invariant holds between rounds. |
| AStar.FoundPath | src/algorithms.c:443-449 | A goal with a finite distance has a non-negative walk from start of cost at most that distance. Reconstruction returns it when it fits the bound, and fails otherwise. |
| AStar.Push | src/algorithms.c:472-476 | decrease_key for a vertex in the heap, insert otherwise: either way the vertex ends with the new key, and the size grows only for a new vertex. |
| AStar.TryRelax | src/algorithms.c:458-477 | One edge of the loop leaves the dist, parent and f_score tables and the heap contents as the relaxation step defines. The heap grows only when a new vertex is improved. |
| AStar.Lower | src/algorithms.c:467-476 | The stores of an improving edge update exactly v's distance, parent and f_score, and give v the new key in the heap. |
| AStar.Expand | src/algorithms.c:457-478 | Relaxing all edges of the popped vertex keeps the invariant and never raises the distance total. |
| AStar.Search | src/algorithms.c:426-479 | When the goal is found, its distance is finite and, under a consistent heuristic, minimal. When it is not found, no non-negative walk costs below INT_MAX. The parent table is a tree over the distances in both cases. |
| AStar.Round | src/algorithms.c:436-479 | One pop: either the goal, with the tables unchanged, or a relaxed vertex with the invariant kept and the (distance total, heap size) measure lowered. |
| AStar.Init | src/algorithms.c:426-434 | Fresh distinct arrays and a heap holding only start, satisfying the invariant. |
| AStar.EmptyHeap | src/algorithms.c:436 | A heap of size 0 has no entries. |
| AStar.AStarShortestPath | src/algorithms.c:404-487 | Bad arguments give 0. A result of 0 reports -1 and leaves the buffer untouched. With no finite non-negative walk the result is 0; with one, and a buffer of at least n, it is positive. A positive result is a path of at most min(bound, n) vertices over non-negative edges costing at most the reported distance. Under a consistent heuristic (the NULL one included), that cost is exactly the distance and it is minimal. |
| Dijkstra.FirstUnsettled | src/algorithms.c:194-224 | Every non-negative walk to an unsettled vertex passes a first unsettled vertex whose distance is at most the walk's cost. |
| Dijkstra.MinIsOptimal | src/algorithms.c:198-206 | The unsettled vertex of minimum distance has an optimal distance. |
| Dijkstra.Exhausted | src/algorithms.c:205 | When no unsettled vertex has a finite distance, every vertex's distance is a lower bound on non-negative walks to it. |
| Dijkstra.Start | src/algorithms.c:187-192 | The initial tables satisfy the invariant. |
| Dijkstra.Settle | src/algorithms.c:206 | Settling the minimum vertex keeps the invariant, with its edge loop about to start. |
| Dijkstra.RelaxStep | src/algorithms.c:209-223 | One pass of the edge loop keeps the invariant, with one more edge relaxed. |
| Dijkstra.Improve | src/algorithms.c:216-221 | An improving non-negative edge to an unsettled vertex keeps the invariant when its sum and parent are stored. |
| Dijkstra.Finish | src/algorithms.c:209-223 | When all edges of the settled vertex are relaxed, the invariant holds between rounds. |
| Dijkstra.SelectMin | src/algorithms.c:195-203 | The scan returns -1 exactly when no unvisited vertex has a finite distance. Otherwise it returns the first unvisited vertex of minimum distance. |
| Dijkstra.Search | src/algorithms.c:187-224 | After the rounds, the parent table is a tree over finite distances, and the goal's distance is a lower bound on every non-negative walk to it. |
| Dijkstra.Round | src/algorithms.c:195-223 | One round: nothing changes when nothing is left to settle; otherwise one more vertex is settled and the invariant is kept. |
| Dijkstra.RelaxEdges | src/algorithms.c:209-223 | The edge loop of the settled vertex keeps the invariant. |
| Dijkstra.MarkSettled | src/algorithms.c:206 | Only the visited flag of u is set. |
| Dijkstra.TryRelax | src/algorithms.c:210-221 | One edge leaves dist and parent as the relaxation step defines: negative edges, visited targets and unreached sources change nothing. |
| Dijkstra.FoundPath | src/algorithms.c:234-243 | A goal with a finite distance has a non-negative walk from start of cost at most that distance. Reconstruction returns it when it fits the bound, and fails otherwise. |
| Dijkstra.DijkstraShortestPath | src/algorithms.c:168-248 | Bad arguments give 0. A result of 0 reports -1 and leaves the buffer untouched. With no finite non-negative walk the result is 0; with one, and a buffer of at least n, it is positive. A positive result is a path over non-negative edges whose cost is exactly the reported distance, and no non-negative walk costs less. |
| Bfs.Discover | src/algorithms.c:93-95 | Discovering u from v marks u, gives it parent v and appends it to the queue at the next level. |
| Bfs.InitOuter | src/algorithms.c:77-81 | The queue holding only start satisfies the loop invariant. |
| Bfs.Enter | src/algorithms.c:83-84 | Dequeuing the front vertex starts its edge loop with the invariant. |
| Bfs.Skip | src/algorithms.c:92 | An already visited neighbour keeps the edge-loop invariant. |
| Bfs.Room | src/algorithms.c:95 | A queue of distinct vertices that misses some vertex is shorter than n. |
| Bfs.QueueRoom | src/algorithms.c:95 | Appending an unvisited vertex stays within the queue's n slots. |
| Bfs.NoShortPathToUnvisited | src/algorithms.c:90-96 | An unvisited vertex has no path from start shorter than the current level plus one. |
| Bfs.AddShape | src/algorithms.c:92-96 | Discovery keeps the queue holding each visited vertex once. |
| Bfs.AddTree | src/algorithms.c:92-96 | Discovery keeps the parent tree with levels one apart. |
| Bfs.AddSorted | src/algorithms.c:92-96 | Discovery keeps the queue sorted by level. |
| Bfs.AddLowerBound | src/algorithms.c:92-96 | Discovery keeps every level a lower bound on path lengths. |
| Bfs.AddKeeps | src/algorithms.c:92-96 | Discovery keeps the processed prefix and the frontier property. |
| Bfs.Add | src/algorithms.c:92-96 | Discovering an unvisited neighbour keeps the edge-loop invariant. |
| Bfs.Step | src/algorithms.c:90-97 | One pass of the edge loop, either skipped or discovering, keeps the invariant. |
| Bfs.Leave | src/algorithms.c:83-98 | Finishing a vertex's edges restores the outer invariant with one more vertex dequeued. |
| Bfs.LeaveProcessed | src/algorithms.c:90-97 | After its edge loop, every successor of the dequeued vertex is visited. |
| Bfs.LeaveFrontier | src/algorithms.c:83-98 | After the edge loop, the queue still spans at most two levels, and every vertex closer than the next level is dequeued. |
| Bfs.Exhausted | src/algorithms.c:83-98 | When the queue empties, an unvisited goal is unreachable. |
| Bfs.LevelsAlongChain | src/algorithms.c:100 | Along a parent chain from start, the level of the last vertex is the chain's edge count. |
| Bfs.VisitedGoal | src/algorithms.c:100-111 | A visited goal has a shortest path from start, and reconstruction returns it when it fits the bound. |
| Bfs.UnvisitedGoal | src/algorithms.c:100-109 | An unvisited goal yields no path. |
| Bfs.Search | src/algorithms.c:77-98 | After the loop, visited and parent satisfy the invariant, and an unvisited goal is unreachable. |
| Bfs.Init | src/algorithms.c:77-81 | Fresh arrays with only start visited and queued, satisfying the invariant. |
| Bfs.Expand | src/algorithms.c:90-97 | The edge loop of the dequeued vertex keeps the invariant and processes all its edges. |
| Bfs.Enqueue | src/algorithms.c:93-95 | Only u's visited flag, u's parent and queue slot `rear` are written. |
| Bfs.BfsShortestHops | src/algorithms.c:58-113 | Bad arguments give 0. A result of 0 reports -1 and leaves the buffer untouched. Otherwise the result is 0 exactly when no path fits the bound. A positive result is a path from start to goal of minimum vertex count, with distance equal to its hop count. |
| Dfs.ChildDone | src/algorithms.c:123-131 | A recursive call on a child that did not find the goal keeps the "no missed successors" property for the next edge. |
| Dfs.EnterKeepsTree | src/algorithms.c:120 | Marking a vertex entered keeps the DFS parent tree. |
| Dfs.AdoptKeepsTree | src/algorithms.c:126 | Setting an unvisited neighbour's parent keeps the DFS parent tree. |
| Dfs.DfsRecursive | src/algorithms.c:119-133 | The call marks v and never unmarks a vertex, and keeps the parent tree. It returns true exactly when the goal got marked. On false, every vertex this call marked has all its successors marked. |
| Dfs.Mark | src/algorithms.c:120 | Only v's visited flag is set. |
| Dfs.SetParent | src/algorithms.c:126 | Only u's parent is written. |
| Dfs.DfsPath | src/algorithms.c:135-162 | Bad arguments give 0. A result of 0 leaves the buffer untouched. An unreachable goal gives 0, and a reachable one with a buffer of at least n gives a positive result. A positive result is a path from start to goal of at most min(bound, n) vertices. |
| Dfs.FoundPath | src/algorithms.c:155-157 | A marked goal has a path from start through the DFS tree, and reconstruction returns it when it fits the bound. |
| Dfs.NotFound | src/algorithms.c:152-157 | When every marked vertex has all its successors marked, an unmarked goal is unreachable. |
| BellmanFord.Clamp | src/algorithms.c:545-551 | The stored value lies in [INT_MIN, INT_MAX], equals the sum when it fits, and is never below the sum unless the sum exceeds INT_MAX. |
| BellmanFord.TreeStep | src/algorithms.c:544-553 | An improving relaxation keeps the parent tree's "at least parent plus weight" shape. |
| BellmanFord.WitnessStep | src/algorithms.c:544-553 | An improving relaxation keeps a witness walk of cost at most the distance for every reached vertex. |
| BellmanFord.StampStep | src/algorithms.c:544-553 | An improving relaxation, stamped with a fresh time, keeps the stamps: a vertex lowered no later than its parent lies strictly above the parent's distance plus the edge, and every reached vertex other than start has a parent. |
| BellmanFord.TryRelax | src/algorithms.c:538-554 | One edge leaves dist and parent as the clamped relaxation defines, and reports a change exactly when the edge passed the test. |
| BellmanFord.SettledStep | src/algorithms.c:537-557 | The edges of u already settled from u's distance at the start of its loop stay settled, and the current edge joins them. |
| BellmanFord.LowerBounds | src/algorithms.c:544-553 | Lowering v keeps every distance in [INT_MIN, INT_MAX], start at or below 0, u reached, and no distance above its value before the edge or before the round. |
| BellmanFord.InvLower | src/algorithms.c:544-553 | An improving edge keeps the invariant (tree and witness walks), keeps u reached, raises no distance, and settles the edge. |
| BellmanFord.EdgeLower | src/algorithms.c:544-554 | An improving edge moves the edge-loop invariant on by one edge, with a change reported. |
| BellmanFord.EdgeStep | src/algorithms.c:537-557 | One pass of the edge loop gives the relaxed tables and moves the edge-loop invariant on by one edge; the change flag records whether the edge passed the test. |
| BellmanFord.RelaxVertex | src/algorithms.c:536-557 | The edge loop of a reached vertex ends with the invariant and the stamps kept, no distance raised, and every edge of u settled from u's distance before the loop. With no change reported, the tables are unchanged and no edge of u passes the test. |
| BellmanFord.VertexStep | src/algorithms.c:533-558 | Finishing a reached vertex's edge loop moves the vertex-loop invariant on by one vertex. |
| BellmanFord.StepSettled | src/algorithms.c:533-558 | After that loop, every vertex visited so far that was reached before the round has all its edges settled from that earlier distance. |
| BellmanFord.StepQuiet | src/algorithms.c:533-558 | While no change is reported over the round so far, the tables are those before the round and no edge of a visited vertex passes the test. |
| BellmanFord.VertexSkip | src/algorithms.c:534 | Skipping an unreached vertex keeps the vertex-loop invariant. |
| BellmanFord.VisitVertex | src/algorithms.c:533-558 | One vertex of a round, skipped when unreached and relaxed otherwise, keeps the invariant and the stamps and moves the vertex-loop invariant on by one. |
| BellmanFord.Round | src/algorithms.c:531-558 | One round keeps the invariant and the stamps. No distance rises, every edge of a vertex reached before the round is settled from its earlier distance, and with no change the tables are unchanged and no edge at all passes the test. |
| BellmanFord.Init | src/algorithms.c:524-528 | dist is 0 at start and INT_MAX elsewhere, every parent is -1, and the invariant and stamps hold. |
| BellmanFord.BoundedNone | src/algorithms.c:528 | Before any round, the empty walk bounds start's distance: no walk of 0 edges is cheaper than its end's distance. |
| BellmanFord.LastEdgeBounded | src/algorithms.c:530-558 | After a round that settles every edge from its earlier distance, a walk of k+1 edges with in-range partial sums ends at a distance no higher than its cost, given that k-edge walks did before the round. |
| BellmanFord.RoundBounded | src/algorithms.c:530-558 | A full round turns the bound for walks of k edges into the bound for walks of k+1 edges. |
| BellmanFord.QuietBounded | src/algorithms.c:560-562 | When no edge passes the test (the early exit), every walk with in-range partial sums, of any length, ends at a distance at most its cost. |
| BellmanFord.Distances | src/algorithms.c:524-563 | The relaxation phase ends with tables satisfying the invariant and the stamps, and every walk from start of at most n-1 edges with in-range partial sums ends at a distance at most its cost. |
| BellmanFord.MarkFrom | src/algorithms.c:575-588 | After u's edges, a vertex is marked exactly when it was marked before or some edge of u into it still passes the test. |
| BellmanFord.MarkRelaxable | src/algorithms.c:573-589 | The extra pass marks exactly the vertices with an incoming edge that still passes the test. |
| BellmanFord.MarkSuccessors | src/algorithms.c:594-598 | A vertex is marked after the loop exactly when it was marked before or is a successor of u. |
| BellmanFord.SpreadPass | src/algorithms.c:592-599 | One pass marks only vertices reachable from the initial marks and unmarks none. A pass that changes nothing finds the marks closed; on closed marks a pass changes nothing. |
| BellmanFord.AllMarkedClosed | src/algorithms.c:591-600 | A table with every vertex marked is closed under edges. |
| BellmanFord.ClosedMarks | src/algorithms.c:591-600 | Closed marks that grow from A0 and stay reachable from it are exactly the vertices reachable from A0. |
| BellmanFord.ClosedHoldsReachable | src/algorithms.c:591-600 | A closed mark table holds every vertex reachable from a marked vertex. |
| BellmanFord.SpreadPasses | src/algorithms.c:591-600 | The n passes end with closed marks that grow from the initial ones and stay reachable from them. |
| BellmanFord.Spread | src/algorithms.c:591-600 | After propagation a vertex is marked exactly when it is reachable from an initially marked vertex. |
| BellmanFord.CycleAvoidsStart | src/algorithms.c:639-655 | A backward walk from a vertex of a parent-closed set that avoids start stays inside that set, so it cannot end at start. |
| BellmanFord.CollectStep | src/algorithms.c:648-654 | Collecting a vertex other than start and moving to its parent keeps the collected prefix a parent chain. |
| BellmanFord.CycleFails | src/algorithms.c:640-647 | Returning to a collected vertex means the full backward walk does not end at start. |
| BellmanFord.Visit | src/algorithms.c:648-650 | Only x's visited flag and temp slot `length` are written. |
| BellmanFord.TraceStep | src/algorithms.c:648-654 | One iteration of the trace loop: it stops with the whole walk at start, or continues from the parent with the loop invariant. |
| BellmanFord.TraceCycle | src/algorithms.c:640-647 | The visited test firing means the backward walk does not end at start. |
| BellmanFord.TraceBack | src/algorithms.c:636-659 | The trace loop either collects exactly the backward walk from the goal, or stops on a revisit of a walk that does not end at start. |
| BellmanFord.TracePath | src/algorithms.c:636-677 | Bellman-Ford's own trace-and-copy has the outcome of the shared reconstruction: 0 with the buffer untouched when that fails, otherwise that path and the buffer past it untouched. |
| BellmanFord.Descent | src/algorithms.c:573-607 | Along a walk no step of which passes the test, distances drop by at most the walk's cost while partial sums stay finite. |
| BellmanFord.Quiet | src/algorithms.c:573-607 | When the goal is not flagged, no step of any walk that can reach the goal passes the test. |
| BellmanFord.ChainSteps | src/algorithms.c:552 | A parent chain follows tree steps: each vertex is reached from the one before through its recorded edge weight. |
| BellmanFord.TreeStepsWalk | src/algorithms.c:544-553 | Tree steps from start form a walk whose partial sums are bounded by the distance differences. |
| BellmanFord.Optimal | src/algorithms.c:602-617 | With an unflagged goal, no walk to the goal with finite partial sums costs less than its distance. |
| BellmanFord.NoNegativeCycle | src/algorithms.c:573-607 | With an unflagged goal, no walk from start to goal with finite partial sums holds a negative cycle. |
| BellmanFord.StartZero | src/algorithms.c:528 | With an unflagged, reachable goal, start's distance is still 0. |
| BellmanFord.ChainDescent | src/algorithms.c:602-679 | With an unflagged goal, the goal's distance is at most any walk's cost added to its first vertex's distance. |
| BellmanFord.ChainCost | src/algorithms.c:636-679 | With an unflagged goal at a finite distance, the parent chain is a walk with finite partial sums whose cost is exactly the goal's distance. |
| BellmanFord.Settled | src/algorithms.c:602-679 | With an unflagged goal at a finite distance, the parent chain from start costs exactly that distance. No walk with finite partial sums costs less, and none holds a negative cycle. |
| BellmanFord.Shorten | src/algorithms.c:530 | With no negative cycle reachable from start, every walk from start has a walk to the same vertex of fewer than n edges that costs no more: n-1 rounds are enough. |
| BellmanFord.ShortInRange | src/algorithms.c:541-551 | When every walk from start of fewer than n edges costs an int other than INT_MAX, so does each of its partial sums. |
| BellmanFord.BoundedWalk | src/algorithms.c:530-563 | Under those two hypotheses, every walk from start ends at a vertex whose final distance is below INT_MAX and at most the walk's cost. |
| BellmanFord.Converged | src/algorithms.c:573-589 | Under the same hypotheses no edge passes the test after the rounds, so the extra pass marks no vertex. |
| BellmanFord.GoalReached | src/algorithms.c:612-617 | Under the same hypotheses a goal reachable from start ends at a distance below INT_MAX. |
| BellmanFord.CycleWeight | src/algorithms.c:544-553 | A cycle in the parent table is a closed walk of negative weight: the lowering times cannot rise all the way round, and at the step where they do not, the distance lies strictly above the parent's plus the edge. |
| BellmanFord.NoParentCycle | src/algorithms.c:639-655 | With no negative cycle reachable from start, a parent chain through reached vertices never closes on itself. |
| BellmanFord.ChainSimple | src/algorithms.c:639-655 | So a backward parent chain through reached vertices never repeats a vertex. |
| BellmanFord.ChainFits | src/algorithms.c:639 | A backward parent chain that avoids start has fewer than n vertices. |
| BellmanFord.Parented | src/algorithms.c:552 | Every reached vertex other than start has a parent, and that parent is reached. |
| BellmanFord.ShortChains | src/algorithms.c:639 | With no negative cycle reachable from start, every backward parent chain avoiding start has fewer than n vertices. |
| BellmanFord.ReachesStart | src/algorithms.c:639-655 | From a reached vertex, the backward walk with as many slots as vertices not yet on the chain ends at start: it meets no -1 and does not run out of slots. |
| BellmanFord.Complete | src/algorithms.c:573-677 | With no negative cycle reachable from start, every walk from start of fewer than n edges costing an int other than INT_MAX, and the goal reachable, the goal is not flagged, it is reached, and its path back to start fits any bound of at least n. |
| BellmanFord.Analyse | src/algorithms.c:524-600 | After relaxation, marking and propagation: the tables satisfy the invariant and the stamps, walks of at most n-1 edges bound the distances, the initial marks are exactly the relaxable vertices, and the final marks are exactly what they reach. |
| BellmanFord.ReportPath | src/algorithms.c:602-685 | A flagged goal, an unreached goal, or a backward walk that fails gives 0 with distance -1 and the buffer untouched; a negative cycle on a walk to the goal always gives 0. Under the completeness hypotheses and a bound of at least n the result is positive. A positive result is a path whose cost is exactly the reported distance, and no walk with finite partial sums costs less. |
| BellmanFord.BellmanFordShortestPath | src/algorithms.c:494-686 | Bad endpoints or a non-positive bound give 0. A result of 0 reports -1 and leaves the buffer untouched. start == goal gives [start] at cost 0, and a negative cycle on a walk to the goal gives 0. With no negative cycle reachable from start, every walk of fewer than n edges costing an int other than INT_MAX, a reachable goal and a bound of at least n, the result is positive. A positive result is a path whose cost is exactly the reported distance, and no walk with finite partial sums costs less. |
| Scenarios.BellmanFordMatchesDijkstra | src/algorithms.c:679 | On a graph with no negative edges, Bellman-Ford's reported cost equals the least non-negative walk cost that Dijkstra reports. |
| Scenarios.CycleGraphValue | tests/test_algorithms.c:284-289 | The three addWeightedEdge calls of the negative-cycle test build the lists 0:[1(1)], 1:[2(1)], 2:[1(-3)]. |
| Scenarios.CycleWalk | tests/test_algorithms.c:287-289 | That graph has the walk 0,1,2,1,2 with weights 1,1,-3,1. |
| Scenarios.Step | src/graph.c:64-65 | A directed insert changes a single list by one prepended edge. |
| Scenarios.NegativeCycleScenario | tests/test_algorithms.c:283-301 | In the negative-cycle test graph a negative cycle lies on a walk from 0 to 2: the case in which BellmanFord.BellmanFordShortestPath returns 0 with distance -1. |
| Scenarios.Directed | src/graph.c:64-65 | A directed insert is a single-list update of the edge-list table. |
| Scenarios.WeightGraphValue | tests/test_algorithms.c:263-269 | The four addWeightedEdge calls of the negative-weight test build the lists 0:[3(8), 1(6)], 1:[2(5)], 2:[3(-4)], 3:[]. |
| Scenarios.WeightGraphQuiet | tests/test_algorithms.c:266-269 | In that graph, with the distances 0, 6, 11, 7, no step of any walk improves a distance. |
| Scenarios.WeightWalk | tests/test_algorithms.c:266-269 | That graph has the walk 0,1,2,3 with weights 6,5,-4. |
| Scenarios.WeightLowerBound | tests/test_algorithms.c:273-277 | No walk from 0 to 3 with finite partial sums costs less than 7. |
| Scenarios.NegativeWeightScenario | tests/test_algorithms.c:273-277 | Any distance that a successful Bellman-Ford(0, 3) reports on that graph is 7. |
| Scenarios.ForwardNoCycle | tests/test_algorithms.c:266-269 | A graph whose every edge leads to a higher index, as every edge of the negative-weight test does, has no negative cycle reachable from any start. |
| Scenarios.WeightGraphComplete | tests/test_algorithms.c:263-273 | The negative-weight test graph has 4 vertices, edges in range, no cycle, walks of fewer than 4 edges costing between -12 and 24, and 3 reachable from 0: every hypothesis of Bellman-Ford's success clause. |
| Scenarios.BuildWeightGraph | tests/test_algorithms.c:263-269 | createGraph(4) and the four addWeightedEdge calls of the test give a fresh valid graph with exactly those lists. |
| Scenarios.BuildCycleGraph | tests/test_algorithms.c:284-289 | createGraph(3) and the three addWeightedEdge calls of the test give a fresh valid graph with exactly those lists. |
| Scenarios.NegativeWeightTest | tests/test_algorithms.c:262-281 | Running bellman_ford_shortest_path(0, 3) with a 10-slot buffer on that graph returns a positive length, distance 7, and a path whose last vertex is 3 — the three checks of the test. |
| Scenarios.NegativeCycleTest | tests/test_algorithms.c:283-301 | Running bellman_ford_shortest_path(0, 2) with a 10-slot buffer on the negative-cycle graph returns 0 and distance -1 — the two checks of the test. |
| Scenarios.AStarNullMatchesDijkstra | include/algorithms.h:49 | On any graph and endpoints, when A* with a NULL heuristic and Dijkstra both succeed they report the same distance; with a buffer of at least n, one succeeds exactly when the other does. |

## Left out

- `src/io.c`, `src/cli.c` and `src/main.c`: file reading, console prompts and printing are not part of this model.
- `printGraph`, `graph_free` and `pq_destroy`: printing and deallocation only.
- `simple_euclidean_heuristic`: it is floating point (`sqrt` and rounding).
- Allocation failures: allocation is taken to succeed, so the C branches that return 0 with distance -1 after a failed `malloc` or `calloc` are not modelled.
- NULL `out_path`, NULL `out_distance` and NULL `parent` arguments are not modelled. The buffers always exist; only a NULL graph is modelled.
- `long` and `long long` are taken to be at least 64 bits. The sums in the relaxations are exact in the model.
- Recursion depth of `dfs_recursive`: no stack limit is modelled.
- Graphs.GraphSetName: `strdup` copying and the freeing of the old name are not modelled. The name is stored as a value.
- A* takes the heuristic as a pure Dafny function. A heuristic with side effects, or one whose `+` with a distance overflows `int`, is not modelled.
- AStar.TryRelax: the f_score sum `dist + h` is exact in the model. In C it can overflow for a heuristic near INT_MAX, which the model does not represent.
- AStar.AStarShortestPath: the result is exact and optimal only for a consistent heuristic. For any other heuristic the contract promises only a valid path of cost at most the reported distance. Equal path length with Dijkstra under a NULL heuristic is not claimed, since ties can be broken differently (the example above).
- Heap.PriorityQueue.Insert: it requires the vertex to be absent unless the heap is full, which A* guarantees by testing `pq_contains` first. Inserting a present vertex into a heap with room, which would leave a stale entry, is not modelled.
- Heap.PriorityQueue.HeapifyDown: `2 * idx + 1` and `2 * idx + 2` are exact. The C expressions can overflow only for heaps of more than 2^30 entries.
- BellmanFord.BellmanFordShortestPath: its claims cover walks whose partial sums stay below INT_MAX. Success is promised only when no negative cycle is reachable from start, every walk from start of fewer than n edges costs an int other than INT_MAX, the goal is reachable and the bound is at least n. Outside those hypotheses a -1 result is not promised to mean a negative cycle or an unreachable goal, since the code can also fail when a clamped distance hides a path (0→1 of weight INT_MIN then 1→2 of weight -1: the clamp stores INT_MIN at 2, the extra pass flags 2, and goal 2 fails with no cycle at all). With start == goal the result is [start] at cost 0 even when a negative cycle passes through start, since the code returns before any relaxation.
- BellmanFord.Distances: the distances after the relaxation rounds are bounded from both sides (a witness walk at or below every distance, and no walk of at most n-1 edges with in-range partial sums cheaper than its end's distance), not stated as the exact values of the n-1 rounds, which depend on the order of the edge lists.
- The searches do not change the graph. Repeated searches are not stated to give identical paths: the contracts fix the outcome and the cost, not which of several equally good paths is returned.
- Among the worked examples, only the two Bellman-Ford tests are modelled. The other graphs of `tests/test_algorithms.c` are covered by the general contracts only.
