/**
 * The binary min-heap of src/algorithms.c that A* keeps its open vertices
 * in: slots 0..size-1 of `nodes` hold (vertex, priority) pairs in heap
 * order, and heap_index maps every vertex to its slot, or to -1 when the
 * vertex is not in the heap.
 *
 * The proofs are stated on sequences (the slots, the index and a slot
 * count), and the class methods are tied to them.
 */
module Heap {
  import opened Paths

  datatype PQNode = PQNode(node: int, priority: int)

  /** The parent of slot i > 0; (i - 1) / 2 is the same in C and in Dafny for such i. */
  function Parent(i: int): (p: int)
    requires i > 0
    ensures 0 <= p < i && (i == 2 * p + 1 || i == 2 * p + 2)
  {
    (i - 1) / 2
  }

  /**
   * Slots 0..n-1 hold vertices of 0..|hi|-1, hi gives each of them its
   * slot, and every other entry of hi is -1.
   */
  ghost predicate Indexed(ns: seq<PQNode>, hi: seq<int>, n: int)
  {
    0 <= n <= |ns| &&
    (forall i :: 0 <= i < n ==> 0 <= ns[i].node < |hi| && hi[ns[i].node] == i) &&
    (forall x :: 0 <= x < |hi| ==> hi[x] == -1 || (0 <= hi[x] < n && ns[hi[x]].node == x))
  }

  /** No slot of 0..n-1 has a smaller priority than its parent. */
  ghost predicate HeapOrdered(ns: seq<PQNode>, n: int)
    requires 0 <= n <= |ns|
  {
    forall i :: 0 < i < n ==> ns[Parent(i)].priority <= ns[i].priority
  }

  /**
   * Heap order, except that slot k may be smaller than its parent; k's
   * parent is no larger than k's children.  What heapify_up repairs.
   */
  ghost predicate OrderedAbove(ns: seq<PQNode>, n: int, k: int)
    requires 0 <= k < n <= |ns|
  {
    (forall i :: 0 < i < n && i != k ==> ns[Parent(i)].priority <= ns[i].priority) &&
    (k > 0 ==> forall c :: 0 < c < n && Parent(c) == k ==> ns[Parent(k)].priority <= ns[c].priority)
  }

  /**
   * Heap order, except that slot k may be larger than its children; k's
   * parent is no larger than k's children.  What heapify_down repairs.
   */
  ghost predicate OrderedBelow(ns: seq<PQNode>, n: int, k: int)
    requires 0 <= k < n <= |ns|
  {
    (forall i :: 0 < i < n && Parent(i) != k ==> ns[Parent(i)].priority <= ns[i].priority) &&
    (k > 0 ==> forall c :: 0 < c < n && Parent(c) == k ==> ns[Parent(k)].priority <= ns[c].priority)
  }

  /** The heap as a finite map: each vertex in slots 0..n-1 to its priority. */
  ghost function Entries(ns: seq<PQNode>, hi: seq<int>, n: int): map<int, int>
    requires 0 <= n <= |ns|
  {
    map x | 0 <= x < |hi| && 0 <= hi[x] < n :: ns[hi[x]].priority
  }

  /** pq_swap on the slots and the index: exchange slots i and j, then re-index both. */
  function Swapped(ns: seq<PQNode>, hi: seq<int>, i: int, j: int): (seq<PQNode>, seq<int>)
    requires 0 <= i < |ns| && 0 <= j < |ns| && 0 <= ns[i].node < |hi| && 0 <= ns[j].node < |hi|
  {
    var ns' := ns[i := ns[j]][j := ns[i]];
    (ns', hi[ns'[i].node := i][ns'[j].node := j])
  }

  /** Swapping two slots of the heap keeps the index right and the entries as they are. */
  lemma SwapKeeps(ns: seq<PQNode>, hi: seq<int>, n: int, i: int, j: int)
    requires Indexed(ns, hi, n) && 0 <= i < n && 0 <= j < n
    ensures var (ns', hi') := Swapped(ns, hi, i, j);
            Indexed(ns', hi', n) && Entries(ns', hi', n) == Entries(ns, hi, n)
  {
    var (ns', hi') := Swapped(ns, hi, i, j);
    forall x | 0 <= x < |hi| ensures hi'[x] == -1 || (0 <= hi'[x] < n && ns'[hi'[x]].node == x) {
      if x != ns[i].node && x != ns[j].node && hi[x] != -1 {
        assert hi[x] != i && hi[x] != j;
      }
    }
    assert Indexed(ns', hi', n);
    forall x | 0 <= x < |hi| ensures (0 <= hi'[x] < n) == (0 <= hi[x] < n)
      ensures 0 <= hi[x] < n ==> ns'[hi'[x]].priority == ns[hi[x]].priority
    {
      if x != ns[i].node && x != ns[j].node && hi[x] != -1 {
        assert hi[x] != i && hi[x] != j;
      }
    }
  }

  /** One step of heapify_up: swapping slot k with its larger parent moves the defect to the parent. */
  lemma UpStep(ns: seq<PQNode>, n: int, k: int)
    requires 0 < k < n <= |ns| && OrderedAbove(ns, n, k) && ns[Parent(k)].priority > ns[k].priority
    ensures OrderedAbove(ns[Parent(k) := ns[k]][k := ns[Parent(k)]], n, Parent(k))
  {
    var p := Parent(k);
    var ns' := ns[p := ns[k]][k := ns[p]];
    forall i | 0 < i < n && i != p ensures ns'[Parent(i)].priority <= ns'[i].priority {
      if i == k {
      } else if Parent(i) == k {
        assert ns[p].priority <= ns[i].priority;
      } else if Parent(i) == p {
        assert ns[p].priority <= ns[i].priority;
      }
    }
    if p > 0 {
      forall c | 0 < c < n && Parent(c) == p ensures ns'[Parent(p)].priority <= ns'[c].priority {
        assert ns[Parent(p)].priority <= ns[p].priority;
        if c != k {
          assert ns[p].priority <= ns[c].priority;
        }
      }
    }
  }

  /** heapify_up stops at the root or at a parent no larger than slot k: the slots are in heap order. */
  lemma UpDone(ns: seq<PQNode>, n: int, k: int)
    requires 0 <= k < n <= |ns| && OrderedAbove(ns, n, k)
    requires k == 0 || ns[Parent(k)].priority <= ns[k].priority
    ensures HeapOrdered(ns, n)
  {
  }

  /**
   * One step of heapify_down: swapping slot k with its smallest child m,
   * when that child is smaller, moves the defect to m.
   */
  lemma DownStep(ns: seq<PQNode>, n: int, k: int, m: int)
    requires 0 <= k < m < n <= |ns| && OrderedBelow(ns, n, k)
    requires m == 2 * k + 1 || m == 2 * k + 2
    requires ns[m].priority < ns[k].priority
    requires 2 * k + 1 < n ==> ns[m].priority <= ns[2 * k + 1].priority
    requires 2 * k + 2 < n ==> ns[m].priority <= ns[2 * k + 2].priority
    ensures OrderedBelow(ns[k := ns[m]][m := ns[k]], n, m)
  {
    DownStepParents(ns, n, k, m);
    DownStepBelow(ns, n, k, m);
  }

  /** After that swap, every slot whose parent is not m is in order with its parent. */
  lemma DownStepParents(ns: seq<PQNode>, n: int, k: int, m: int)
    requires 0 <= k < m < n <= |ns| && OrderedBelow(ns, n, k)
    requires m == 2 * k + 1 || m == 2 * k + 2
    requires ns[m].priority < ns[k].priority
    requires 2 * k + 1 < n ==> ns[m].priority <= ns[2 * k + 1].priority
    requires 2 * k + 2 < n ==> ns[m].priority <= ns[2 * k + 2].priority
    ensures var ns' := ns[k := ns[m]][m := ns[k]];
            forall i :: 0 < i < n && Parent(i) != m ==> ns'[Parent(i)].priority <= ns'[i].priority
  {
    forall i | 0 < i < n && Parent(i) != m
      ensures ns[k := ns[m]][m := ns[k]][Parent(i)].priority <= ns[k := ns[m]][m := ns[k]][i].priority
    {
      DownStepAt(ns, n, k, m, i);
    }
  }

  /** The same for one slot i. */
  lemma DownStepAt(ns: seq<PQNode>, n: int, k: int, m: int, i: int)
    requires 0 <= k < m < n <= |ns| && OrderedBelow(ns, n, k)
    requires m == 2 * k + 1 || m == 2 * k + 2
    requires ns[m].priority < ns[k].priority
    requires 2 * k + 1 < n ==> ns[m].priority <= ns[2 * k + 1].priority
    requires 2 * k + 2 < n ==> ns[m].priority <= ns[2 * k + 2].priority
    requires 0 < i < n && Parent(i) != m
    ensures ns[k := ns[m]][m := ns[k]][Parent(i)].priority <= ns[k := ns[m]][m := ns[k]][i].priority
  {
    var ns' := ns[k := ns[m]][m := ns[k]];
    var p := Parent(i);
    if i == m {
      assert ns'[p] == ns[m] && ns'[i] == ns[k];
    } else if p == k {
      assert i == 2 * k + 1 || i == 2 * k + 2;
      assert ns'[p] == ns[m] && ns'[i] == ns[i];
    } else if i == k {
      assert p != m && ns'[p] == ns[p] && ns'[i] == ns[m];
      assert ns[p].priority <= ns[m].priority;
    } else {
      assert p != m && ns'[p] == ns[p] && ns'[i] == ns[i];
    }
  }

  /** After that swap, m's new entry is no larger than m's children. */
  lemma DownStepBelow(ns: seq<PQNode>, n: int, k: int, m: int)
    requires 0 <= k < m < n <= |ns| && OrderedBelow(ns, n, k)
    requires m == 2 * k + 1 || m == 2 * k + 2
    ensures var ns' := ns[k := ns[m]][m := ns[k]];
            forall c :: 0 < c < n && Parent(c) == m ==> ns'[Parent(m)].priority <= ns'[c].priority
  {
    var ns' := ns[k := ns[m]][m := ns[k]];
    assert Parent(m) == k;
    forall c | 0 < c < n && Parent(c) == m ensures ns'[Parent(m)].priority <= ns'[c].priority {
      assert c != k && c != m && ns'[c] == ns[c] && ns'[k] == ns[m];
      assert ns[m].priority <= ns[c].priority;
    }
  }

  /** heapify_down stops when no child of slot k is smaller: the slots are in heap order. */
  lemma DownDone(ns: seq<PQNode>, n: int, k: int)
    requires 0 <= k < n <= |ns| && OrderedBelow(ns, n, k)
    requires 2 * k + 1 < n ==> ns[k].priority <= ns[2 * k + 1].priority
    requires 2 * k + 2 < n ==> ns[k].priority <= ns[2 * k + 2].priority
    ensures HeapOrdered(ns, n)
  {
    forall i | 0 < i < n ensures ns[Parent(i)].priority <= ns[i].priority {
      if Parent(i) == k {
        assert i == 2 * k + 1 || i == 2 * k + 2;
      }
    }
  }

  /** In heap order the root has the smallest priority of all slots. */
  lemma {:induction false} RootIsMin(ns: seq<PQNode>, n: int, i: int)
    requires 0 <= i < n <= |ns| && HeapOrdered(ns, n)
    ensures ns[0].priority <= ns[i].priority
    decreases i
  {
    if i > 0 {
      RootIsMin(ns, n, Parent(i));
    }
  }

  /** The root's vertex is an entry of the heap, with the smallest priority of all entries. */
  lemma RootIsMinEntry(ns: seq<PQNode>, hi: seq<int>, n: int)
    requires Indexed(ns, hi, n) && HeapOrdered(ns, n) && n > 0
    ensures ns[0].node in Entries(ns, hi, n) && Entries(ns, hi, n)[ns[0].node] == ns[0].priority
    ensures forall x :: x in Entries(ns, hi, n) ==> ns[0].priority <= Entries(ns, hi, n)[x]
  {
    forall x | x in Entries(ns, hi, n) ensures ns[0].priority <= Entries(ns, hi, n)[x] {
      RootIsMin(ns, n, hi[x]);
    }
  }

  /** A vertex not in the heap leaves a free slot: at most |hi| - 1 vertices are in it. */
  lemma Room(ns: seq<PQNode>, hi: seq<int>, n: int, x: int)
    requires Indexed(ns, hi, n) && 0 <= x < |hi| && x !in Entries(ns, hi, n)
    ensures n < |hi|
  {
    var s := seq(n, i requires 0 <= i < n => ns[i].node);
    assert Distinct(s) by {
      forall i, j | 0 <= i < j < |s| ensures s[i] != s[j] {
        assert hi[s[i]] == i && hi[s[j]] == j;
      }
    }
    DistinctElemsSize(s);
    var present := set y | y in s;
    assert x !in present by {
      forall i | 0 <= i < |s| ensures s[i] != x {
        assert hi[s[i]] == i;
      }
    }
    SubsetOfRangeSize(present, |hi|, x);
  }

  /**
   * pq_insert's writes before heapify_up: the new vertex in the first free
   * slot, indexed there.  It becomes an entry with its priority and the
   * slots are in heap order except at the new one.
   */
  lemma Placed(ns: seq<PQNode>, hi: seq<int>, n: int, x: int, p: int)
    requires Indexed(ns, hi, n) && HeapOrdered(ns, n) && n < |ns|
    requires 0 <= x < |hi| && x !in Entries(ns, hi, n)
    ensures Indexed(ns[n := PQNode(x, p)], hi[x := n], n + 1)
    ensures Entries(ns[n := PQNode(x, p)], hi[x := n], n + 1) == Entries(ns, hi, n)[x := p]
    ensures OrderedAbove(ns[n := PQNode(x, p)], n + 1, n)
  {
    var ns', hi' := ns[n := PQNode(x, p)], hi[x := n];
    forall y | 0 <= y < |hi| ensures hi'[y] == -1 || (0 <= hi'[y] < n + 1 && ns'[hi'[y]].node == y) {
    }
    assert Indexed(ns', hi', n + 1);
    assert Entries(ns', hi', n + 1) == Entries(ns, hi, n)[x := p];
  }

  /**
   * pq_decrease_key's write before heapify_up: a lower priority for the
   * vertex in slot k.  The entries change at that vertex only, and the
   * slots are in heap order except at slot k.
   */
  lemma Lowered(ns: seq<PQNode>, hi: seq<int>, n: int, k: int, p: int)
    requires Indexed(ns, hi, n) && HeapOrdered(ns, n) && 0 <= k < n && p < ns[k].priority
    ensures Indexed(ns[k := ns[k].(priority := p)], hi, n)
    ensures Entries(ns[k := ns[k].(priority := p)], hi, n) == Entries(ns, hi, n)[ns[k].node := p]
    ensures OrderedAbove(ns[k := ns[k].(priority := p)], n, k)
  {
    var ns' := ns[k := ns[k].(priority := p)];
    assert Indexed(ns', hi, n);
    if k > 0 {
      forall c | 0 < c < n && Parent(c) == k ensures ns'[Parent(k)].priority <= ns'[c].priority {
        assert ns[Parent(k)].priority <= ns[k].priority;
      }
    }
    assert Entries(ns', hi, n) == Entries(ns, hi, n)[ns[k].node := p];
  }

  /**
   * pq_pop_min's writes before heapify_down: the root's vertex unindexed,
   * the last slot moved to the root and indexed there.  The root's vertex
   * is no longer an entry, and the slots are in heap order except at the
   * root.
   */
  lemma Unrooted(ns: seq<PQNode>, hi: seq<int>, n: int)
    requires Indexed(ns, hi, n) && HeapOrdered(ns, n) && n > 1
    ensures var hi' := hi[ns[0].node := -1][ns[n - 1].node := 0];
            Indexed(ns[0 := ns[n - 1]], hi', n - 1) &&
            Entries(ns[0 := ns[n - 1]], hi', n - 1) == Entries(ns, hi, n) - {ns[0].node} &&
            OrderedBelow(ns[0 := ns[n - 1]], n - 1, 0)
  {
    var ns' := ns[0 := ns[n - 1]];
    var hi' := hi[ns[0].node := -1][ns[n - 1].node := 0];
    assert ns[0].node != ns[n - 1].node by {
      assert hi[ns[0].node] == 0 && hi[ns[n - 1].node] == n - 1;
    }
    forall y | 0 <= y < |hi| ensures hi'[y] == -1 || (0 <= hi'[y] < n - 1 && ns'[hi'[y]].node == y) {
      if y != ns[0].node && y != ns[n - 1].node && hi[y] != -1 {
        assert hi[y] != 0 && hi[y] != n - 1;
      }
    }
    assert Indexed(ns', hi', n - 1);
    forall y | 0 <= y < |hi|
      ensures (y in Entries(ns', hi', n - 1)) == (y in Entries(ns, hi, n) && y != ns[0].node)
      ensures y in Entries(ns', hi', n - 1) ==> Entries(ns', hi', n - 1)[y] == Entries(ns, hi, n)[y]
    {
      if y != ns[0].node && y != ns[n - 1].node && hi[y] != -1 {
        assert hi[y] != 0 && hi[y] != n - 1;
      }
    }
    assert Entries(ns', hi', n - 1) == Entries(ns, hi, n) - {ns[0].node};
  }

  /** No slot in use, no entry. */
  lemma NoEntries(ns: seq<PQNode>, hi: seq<int>)
    ensures Entries(ns, hi, 0) == map[]
  {
    assert forall x :: x !in Entries(ns, hi, 0);
  }

  /** pq_pop_min on a heap of one: unindexing its vertex leaves no entries. */
  lemma Emptied(ns: seq<PQNode>, hi: seq<int>)
    requires Indexed(ns, hi, 1)
    ensures Entries(ns, hi, 1) == map[ns[0].node := ns[0].priority]
    ensures Indexed(ns, hi[ns[0].node := -1], 0) && Entries(ns, hi[ns[0].node := -1], 0) == map[]
  {
    var hi' := hi[ns[0].node := -1];
    forall y | 0 <= y < |hi| ensures hi'[y] == -1 {
    }
    assert Entries(ns, hi, 1) == map[ns[0].node := ns[0].priority];
  }

  /**
   * The PriorityQueue of src/algorithms.c: `nodes` and `heapIndex` are its
   * two buffers of `capacity` entries, `size` the number of slots in use.
   */
  class PriorityQueue {
    const capacity: int
    const nodes: array<PQNode>
    const heapIndex: array<int>
    var size: int

    /** Both buffers have `capacity` entries. */
    ghost predicate Shaped()
    {
      nodes.Length == capacity && heapIndex.Length == capacity
    }

    ghost predicate Valid()
      reads this, nodes, heapIndex
    {
      Shaped() && 0 <= size <= capacity &&
      Indexed(nodes[..], heapIndex[..], size) && HeapOrdered(nodes[..], size)
    }

    /** The vertices in the heap, each with its priority. */
    ghost function Contents(): map<int, int>
      reads this, nodes, heapIndex
      requires Valid()
    {
      Entries(nodes[..], heapIndex[..], size)
    }

    /** pq_create: an empty heap for the vertices 0..capacity-1. */
    constructor (capacity: int)
      requires capacity >= 0
      ensures Valid() && this.capacity == capacity && size == 0 && Contents() == map[]
      ensures fresh(nodes) && fresh(heapIndex)
    {
      this.capacity := capacity;
      nodes := new PQNode[capacity];
      heapIndex := new int[capacity](_ => -1);
      size := 0;
    }

    /** pq_swap. */
    method Swap(i: int, j: int)
      requires Shaped() && 0 <= i < capacity && 0 <= j < capacity
      requires 0 <= nodes[i].node < capacity && 0 <= nodes[j].node < capacity
      modifies nodes, heapIndex
      ensures (nodes[..], heapIndex[..]) == Swapped(old(nodes[..]), old(heapIndex[..]), i, j)
    {
      var temp := nodes[i];
      nodes[i] := nodes[j];
      nodes[j] := temp;
      heapIndex[nodes[i].node] := i;
      heapIndex[nodes[j].node] := j;
    }

    /**
     * pq_heapify_up on the first n slots (pq_insert calls it before it
     * counts the new slot): restores heap order, keeping the entries.
     */
    method HeapifyUp(idx: int, ghost n: int, ghost ns0: seq<PQNode>, ghost hi0: seq<int>)
      requires Shaped() && 0 <= idx < n <= capacity && nodes[..] == ns0 && heapIndex[..] == hi0
      requires Indexed(ns0, hi0, n) && OrderedAbove(ns0, n, idx)
      modifies nodes, heapIndex
      ensures Indexed(nodes[..], heapIndex[..], n) && HeapOrdered(nodes[..], n)
      ensures Entries(nodes[..], heapIndex[..], n) == Entries(ns0, hi0, n)
    {
      ghost var ns, hi := ns0, hi0;
      var k := idx;
      while k > 0
        invariant 0 <= k < n && nodes[..] == ns && heapIndex[..] == hi
        invariant Indexed(ns, hi, n) && OrderedAbove(ns, n, k)
        invariant Entries(ns, hi, n) == Entries(ns0, hi0, n)
      {
        var parent := (k - 1) / 2;
        if nodes[parent].priority <= nodes[k].priority {
          UpDone(ns, n, k);
          return;
        }
        UpStep(ns, n, k);
        SwapKeeps(ns, hi, n, parent, k);
        Swap(parent, k);
        ns, hi := Swapped(ns, hi, parent, k).0, Swapped(ns, hi, parent, k).1;
        k := parent;
      }
      UpDone(ns, n, k);
    }

    /** pq_heapify_down on the slots in use: restores heap order, keeping the entries. */
    method HeapifyDown(idx: int, ghost ns0: seq<PQNode>, ghost hi0: seq<int>)
      requires Shaped() && 0 <= idx < size <= capacity && nodes[..] == ns0 && heapIndex[..] == hi0
      requires Indexed(ns0, hi0, size) && OrderedBelow(ns0, size, idx)
      modifies nodes, heapIndex
      ensures Indexed(nodes[..], heapIndex[..], size) && HeapOrdered(nodes[..], size)
      ensures Entries(nodes[..], heapIndex[..], size) == Entries(ns0, hi0, size)
    {
      ghost var ns, hi := ns0, hi0;
      var k := idx;
      while true
        invariant 0 <= k < size && nodes[..] == ns && heapIndex[..] == hi
        invariant Indexed(ns, hi, size) && OrderedBelow(ns, size, k)
        invariant Entries(ns, hi, size) == Entries(ns0, hi0, size)
        decreases size - k
      {
        var minIdx := k;
        var left := 2 * k + 1;
        var right := 2 * k + 2;
        if left < size && nodes[left].priority < nodes[minIdx].priority {
          minIdx := left;
        }
        if right < size && nodes[right].priority < nodes[minIdx].priority {
          minIdx := right;
        }
        if minIdx == k {
          DownDone(ns, size, k);
          return;
        }
        DownStep(ns, size, k, minIdx);
        SwapKeeps(ns, hi, size, k, minIdx);
        Swap(k, minIdx);
        ns, hi := Swapped(ns, hi, k, minIdx).0, Swapped(ns, hi, k, minIdx).1;
        k := minIdx;
      }
    }

    /**
     * pq_insert.  Returns -1, changing nothing, when the heap is full (every
     * vertex is then in it); otherwise adds a vertex not yet in the heap with
     * its priority (the C code would corrupt the index for one already in
     * it; A* checks pq_contains first).
     */
    method Insert(node: int, priority: int) returns (r: int)
      requires Valid() && 0 <= node < capacity && (node !in Contents() || size >= capacity)
      modifies this, nodes, heapIndex
      ensures Valid()
      ensures old(size) >= capacity ==> r == -1 && size == old(size) && Contents() == old(Contents())
      ensures old(size) < capacity ==>
                r == 0 && size == old(size) + 1 && Contents() == old(Contents())[node := priority]
    {
      if size >= capacity {
        return -1;
      }
      ghost var ns, hi := nodes[..], heapIndex[..];
      Placed(ns, hi, size, node, priority);
      nodes[size] := PQNode(node, priority);
      heapIndex[node] := size;
      HeapifyUp(size, size + 1, ns[size := PQNode(node, priority)], hi[node := size]);
      size := size + 1;
      return 0;
    }

    /**
     * pq_decrease_key.  Returns -1 when the vertex is not in the heap; when
     * it is, returns 0 and lowers its priority if the new one is smaller,
     * and otherwise changes nothing.
     */
    method DecreaseKey(node: int, newPriority: int) returns (r: int)
      requires Valid() && 0 <= node < capacity
      modifies nodes, heapIndex
      ensures Valid()
      ensures node !in old(Contents()) ==> r == -1 && Contents() == old(Contents())
      ensures node in old(Contents()) && newPriority >= old(Contents())[node] ==>
                r == 0 && Contents() == old(Contents())
      ensures node in old(Contents()) && newPriority < old(Contents())[node] ==>
                r == 0 && Contents() == old(Contents())[node := newPriority]
    {
      var idx := heapIndex[node];
      if idx < 0 || idx >= size {
        return -1;
      }
      if newPriority >= nodes[idx].priority {
        return 0;
      }
      ghost var ns, hi := nodes[..], heapIndex[..];
      Lowered(ns, hi, size, idx, newPriority);
      nodes[idx] := nodes[idx].(priority := newPriority);
      HeapifyUp(idx, size, ns[idx := ns[idx].(priority := newPriority)], hi);
      return 0;
    }

    /**
     * pq_pop_min.  Returns -1 on an empty heap; otherwise returns 0 with the
     * vertex of smallest priority and that priority, and removes it.
     */
    method PopMin() returns (r: int, node: int, priority: int)
      requires Valid()
      modifies this, nodes, heapIndex
      ensures Valid()
      ensures old(size) == 0 ==> r == -1 && size == 0 && Contents() == old(Contents())
      ensures old(size) > 0 ==>
                r == 0 && size == old(size) - 1 &&
                node in old(Contents()) && priority == old(Contents())[node] &&
                (forall x :: x in old(Contents()) ==> priority <= old(Contents())[x]) &&
                Contents() == old(Contents()) - {node}
    {
      if size == 0 {
        return -1, -1, -1;
      }
      ghost var ns, hi, n := nodes[..], heapIndex[..], size;
      ghost var before := Entries(ns, hi, n);
      RootIsMinEntry(ns, hi, n);
      node, priority := nodes[0].node, nodes[0].priority;
      heapIndex[node] := -1;
      size := size - 1;
      if size > 0 {
        nodes[0] := nodes[size];
        heapIndex[nodes[0].node] := 0;
        ghost var ns', hi' := ns[0 := ns[n - 1]], hi[ns[0].node := -1][ns[n - 1].node := 0];
        Unrooted(ns, hi, n);
        HeapifyDown(0, ns', hi');
      } else {
        Emptied(ns, hi);
        assert heapIndex[..] == hi[node := -1];
      }
      return 0, node, priority;
    }

    /** pq_contains: whether the vertex is in the heap. */
    predicate Contains(node: int)
      reads this, nodes, heapIndex
      requires Shaped() && 0 <= node < capacity
      ensures Valid() ==> (Contains(node) <==> node in Contents())
    {
      var idx := heapIndex[node];
      idx >= 0 && idx < size
    }
  }
}
