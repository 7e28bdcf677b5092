/**
 * `MinHeap`: a binary min-heap of `{ item, priority }` entries kept in one
 * array, the parent of position `i > 0` being position `(i - 1) / 2`.
 * `push` appends and sifts up, `pop` takes the root, moves the last entry
 * to the root and sifts it down.
 */
module PriorityQueue {
  import opened Wrappers

  datatype Entry<T> = Entry(item: T, priority: int)

  /** `Math.floor((i - 1) / 2)`: the parent of position `i > 0`. */
  function Parent(i: int): int
  {
    (i - 1) / 2
  }

  /** Every position `i > 0` is the left or the right child of its parent, which comes earlier. */
  lemma ParentIndex(i: int)
    requires i > 0
    ensures 0 <= Parent(i) < i && (i == 2 * Parent(i) + 1 || i == 2 * Parent(i) + 2)
  {
  }

  /** Heap order: no entry has a smaller priority than its parent. */
  ghost predicate IsHeap<T>(h: seq<Entry<T>>)
  {
    forall c {:trigger h[Parent(c)], h[c]} :: 0 < c < |h| ==> h[Parent(c)].priority <= h[c].priority
  }

  /** `x` is no greater than the priority of any child of position `k`. */
  ghost predicate AtMostChildren<T>(h: seq<Entry<T>>, x: int, k: nat)
  {
    (2 * k + 1 < |h| ==> x <= h[2 * k + 1].priority) &&
    (2 * k + 2 < |h| ==> x <= h[2 * k + 2].priority)
  }

  /**
   * Heap order holds except possibly between `k` and its parent, and `k`'s
   * parent is no greater than `k`'s children: what sifting up keeps.
   */
  ghost predicate HeapExceptAbove<T>(h: seq<Entry<T>>, k: nat)
  {
    k < |h| &&
    (forall c {:trigger h[Parent(c)], h[c]} :: 0 < c < |h| && c != k ==> h[Parent(c)].priority <= h[c].priority) &&
    (0 < k ==> AtMostChildren(h, h[Parent(k)].priority, k))
  }

  /**
   * Heap order holds except possibly between `k` and its children, and `k`'s
   * parent is no greater than `k`'s children: what sifting down keeps.
   */
  ghost predicate HeapExceptBelow<T>(h: seq<Entry<T>>, k: nat)
  {
    k < |h| &&
    (forall c {:trigger h[Parent(c)], h[c]} :: 0 < c < |h| && Parent(c) != k ==> h[Parent(c)].priority <= h[c].priority) &&
    (0 < k ==> AtMostChildren(h, h[Parent(k)].priority, k))
  }

  /** In a heap the root's priority is no greater than any entry's. */
  lemma {:induction false} RootIsMin<T>(h: seq<Entry<T>>, j: nat)
    requires IsHeap(h) && j < |h|
    ensures h[0].priority <= h[j].priority
    decreases j
  {
    if j > 0 {
      var p := Parent(j);
      RootIsMin(h, p);
      assert h[p].priority <= h[j].priority;
    }
  }

  /** In a heap the root's priority is no greater than that of any stored entry. */
  lemma RootIsLeast<T>(h: seq<Entry<T>>)
    requires IsHeap(h) && |h| > 0
    ensures forall e :: e in multiset(h) ==> h[0].priority <= e.priority
  {
    forall e | e in multiset(h) ensures h[0].priority <= e.priority {
      var j :| 0 <= j < |h| && h[j] == e;
      RootIsMin(h, j);
    }
  }

  /**
   * Dropping the last entry of a heap and, if any remain, putting it at the
   * root leaves the other entries and heap order below the root.
   */
  lemma LastToRoot<T>(h: seq<Entry<T>>)
    requires IsHeap(h) && |h| > 0
    ensures var init := h[..|h| - 1];
      multiset(init) == multiset(h) - multiset{h[|h| - 1]} &&
      (|init| > 0 ==>
         HeapExceptBelow(init[0 := h[|h| - 1]], 0) &&
         multiset(init[0 := h[|h| - 1]]) == multiset(h) - multiset{h[0]})
  {
    var last := h[|h| - 1];
    var init := h[..|h| - 1];
    assert h == init + [last];
    if |init| > 0 {
      var g := init[0 := last];
      forall c | 0 < c < |g| && Parent(c) != 0
        ensures g[Parent(c)].priority <= g[c].priority
      {
        assert g[Parent(c)] == h[Parent(c)] && g[c] == h[c];
      }
      LastToRootElements(h);
    }
  }

  /** The entries after moving the last one to the root: all but the old root. */
  lemma LastToRootElements<T>(h: seq<Entry<T>>)
    requires |h| > 1
    ensures multiset(h[..|h| - 1][0 := h[|h| - 1]]) == multiset(h) - multiset{h[0]}
  {
    var init := h[..|h| - 1];
    assert h == [h[0]] + init[1..] + [h[|h| - 1]];
    assert init[0 := h[|h| - 1]] == [h[|h| - 1]] + init[1..];
  }

  /**
   * Exchanging `k` with its smaller child `m`, when that child is smaller
   * than `k`, moves the possible disorder down to `m`.
   */
  lemma SiftDownStep<T>(h: seq<Entry<T>>, k: nat, m: nat)
    requires HeapExceptBelow(h, k)
    requires (m == 2 * k + 1 || m == 2 * k + 2) && m < |h|
    requires h[m].priority < h[k].priority && AtMostChildren(h, h[m].priority, k)
    ensures HeapExceptBelow(Swap(h, k, m), m)
  {
    var g := Swap(h, k, m);
    assert Parent(m) == k;
    forall c | 0 < c < |g| && Parent(c) != m
      ensures g[Parent(c)].priority <= g[c].priority
    {
      var p := Parent(c);
      if c == m {
        assert g[p] == h[m] && g[c] == h[k];
      } else if p == k {
        assert c == 2 * k + 1 || c == 2 * k + 2;
        assert g[p] == h[m] && g[c] == h[c];
      } else if c == k {
        assert g[c] == h[m] && g[p] == h[p];
      } else {
        assert g[p] == h[p] && g[c] == h[c] && h[p].priority <= h[c].priority;
      }
    }
    assert g[k] == h[m];
    if 2 * m + 1 < |h| {
      assert Parent(2 * m + 1) == m && h[m].priority <= h[2 * m + 1].priority;
    }
    if 2 * m + 2 < |h| {
      assert Parent(2 * m + 2) == m && h[m].priority <= h[2 * m + 2].priority;
    }
  }

  /** When `k` is no greater than its children, the only possible disorder is gone. */
  lemma SiftDownDone<T>(h: seq<Entry<T>>, k: nat)
    requires HeapExceptBelow(h, k) && AtMostChildren(h, h[k].priority, k)
    ensures IsHeap(h)
  {
    forall c | 0 < c < |h| ensures h[Parent(c)].priority <= h[c].priority {
      if Parent(c) == k {
        assert c == 2 * k + 1 || c == 2 * k + 2;
      }
    }
  }

  /**
   * Exchanging `k` with its parent, when the parent is greater, moves the
   * possible disorder up to the parent.
   */
  lemma SiftUpStep<T>(h: seq<Entry<T>>, k: nat)
    requires HeapExceptAbove(h, k) && 0 < k && h[k].priority < h[Parent(k)].priority
    ensures HeapExceptAbove(Swap(h, Parent(k), k), Parent(k))
  {
    var q := Parent(k);
    var g := Swap(h, q, k);
    forall c | 0 < c < |g| && c != q
      ensures g[Parent(c)].priority <= g[c].priority
    {
      var p := Parent(c);
      if c == k {
        assert g[p] == h[k] && g[c] == h[q];
      } else if p == k {
        assert c == 2 * k + 1 || c == 2 * k + 2;
        assert g[p] == h[q] && g[c] == h[c];
      } else if p == q {
        assert g[p] == h[k] && g[c] == h[c] && h[q].priority <= h[c].priority;
      } else {
        assert g[p] == h[p] && g[c] == h[c] && h[p].priority <= h[c].priority;
      }
    }
    if 0 < q {
      var pq := Parent(q);
      assert g[pq] == h[pq] && h[pq].priority <= h[q].priority;
      assert Parent(2 * q + 1) == q && Parent(2 * q + 2) == q;
      assert 2 * q + 1 < |h| && 2 * q + 1 != k ==> h[q].priority <= h[2 * q + 1].priority;
      assert 2 * q + 2 < |h| && 2 * q + 2 != k ==> h[q].priority <= h[2 * q + 2].priority;
    }
  }

  /** When `k` is the root or no smaller than its parent, the only possible disorder is gone. */
  lemma SiftUpDone<T>(h: seq<Entry<T>>, k: nat)
    requires HeapExceptAbove(h, k) && (k == 0 || h[Parent(k)].priority <= h[k].priority)
    ensures IsHeap(h)
  {
  }

  /** The entries `h[i]` and `h[j]` exchanged. */
  function Swap<T>(h: seq<Entry<T>>, i: nat, j: nat): (g: seq<Entry<T>>)
    requires i < |h| && j < |h|
    ensures |g| == |h| && multiset(g) == multiset(h)
    ensures g[i] == h[j] && g[j] == h[i]
    ensures forall k :: 0 <= k < |h| && k != i && k != j ==> g[k] == h[k]
  {
    h[i := h[j]][j := h[i]]
  }

  class MinHeap<T> {
    var heap: seq<Entry<T>>

    ghost predicate Valid()
      reads this
    {
      IsHeap(heap)
    }

    /** The entries stored, as a multiset. */
    ghost function Elements(): multiset<Entry<T>>
      reads this
    {
      multiset(heap)
    }

    constructor ()
      ensures Valid() && heap == []
    {
      heap := [];
    }

    /** `size()`: the number of stored entries. */
    function Size(): (n: nat)
      reads this
      ensures n == |Elements()|
    {
      |heap|
    }

    /** `push(item, priority)`: adds exactly the one entry. */
    method Push(item: T, priority: int)
      requires Valid()
      modifies this
      ensures Valid()
      ensures Elements() == old(Elements()) + multiset{Entry(item, priority)}
      ensures Size() == old(Size()) + 1
    {
      heap := heap + [Entry(item, priority)];
      SiftUp(|heap| - 1);
    }

    /**
     * `pop()`: None (the source's `null`) on an empty heap, which stays
     * empty; otherwise the root's item, whose priority is no greater than
     * any stored priority, and exactly the root entry leaves the heap.
     */
    method Pop() returns (top: Option<T>)
      requires Valid()
      modifies this
      ensures Valid()
      ensures old(heap) == [] ==> top == None && heap == []
      ensures old(heap) != [] ==>
                top == Some(old(heap)[0].item) &&
                (forall e :: e in old(Elements()) ==> old(heap)[0].priority <= e.priority) &&
                Elements() == old(Elements()) - multiset{old(heap)[0]} &&
                Size() == old(Size()) - 1
    {
      if |heap| == 0 {
        return None;
      }
      RootIsLeast(heap);
      var root := heap[0];
      var last := heap[|heap| - 1];
      LastToRoot(heap);
      heap := heap[..|heap| - 1];
      if |heap| > 0 {
        heap := heap[0 := last];
        SiftDown(0);
      }
      top := Some(root.item);
    }

    /** `_siftUp(i)`: swaps the entry at `i` with its parent while the parent is greater. */
    method SiftUp(i0: nat)
      requires HeapExceptAbove(heap, i0)
      modifies this
      ensures Valid()
      ensures multiset(heap) == old(multiset(heap)) && |heap| == old(|heap|)
    {
      var i: nat := i0;
      while i > 0
        invariant HeapExceptAbove(heap, i)
        invariant multiset(heap) == old(multiset(heap)) && |heap| == old(|heap|)
        decreases i
      {
        var parent := Parent(i);
        if heap[parent].priority <= heap[i].priority {
          SiftUpDone(heap, i);
          break;
        }
        SiftUpStep(heap, i);
        heap := Swap(heap, parent, i);
        i := parent;
      }
    }

    /** `_siftDown(i)`: swaps the entry at `i` with its smaller child while that child is smaller. */
    method SiftDown(i0: nat)
      requires HeapExceptBelow(heap, i0)
      modifies this
      ensures Valid()
      ensures multiset(heap) == old(multiset(heap)) && |heap| == old(|heap|)
    {
      var n := |heap|;
      var i: nat := i0;
      while true
        invariant HeapExceptBelow(heap, i)
        invariant multiset(heap) == old(multiset(heap)) && |heap| == n
        decreases n - i
      {
        var left := 2 * i + 1;
        var right := 2 * i + 2;
        var smallest := i;
        if left < n && heap[left].priority < heap[smallest].priority {
          smallest := left;
        }
        if right < n && heap[right].priority < heap[smallest].priority {
          smallest := right;
        }
        if smallest == i {
          SiftDownDone(heap, i);
          break;
        }
        SiftDownStep(heap, i, smallest);
        heap := Swap(heap, i, smallest);
        i := smallest;
      }
    }
  }
}
