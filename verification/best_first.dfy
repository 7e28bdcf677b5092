/**
 * `runBestFS`: greedy best-first search.  The frontier is the binary
 * min-heap, keyed by the Manhattan distance from a state's cell to the
 * caller's goal cell.  As in `runBFS`, a discovered state enters the heap,
 * and gets its parent, only when it is neither expanded nor already a key
 * of the parent map, so the heap never holds a state twice.
 */
module BestFirst {
  import opened Wrappers
  import opened StateSpace
  import opened PathReconstruction
  import opened Search
  import opened PriorityQueue

  /** The heap entry `runBestFS` pushes for `t`: the state with its distance to `goal`. */
  function Keyed(t: State, goal: Pos): (e: Entry<State>)
    ensures e.item == t && e.priority >= 0 && (e.priority == 0 <==> PosOf(t) == goal)
  {
    Entry(t, Manhattan(PosOf(t), goal))
  }

  /** The entries pushed for `ts`, in order. */
  function KeyedAll(ts: seq<State>, goal: Pos): (es: seq<Entry<State>>)
    ensures |es| == |ts|
    decreases |ts|
  {
    if ts == [] then [] else KeyedAll(ts[..|ts| - 1], goal) + [Keyed(ts[|ts| - 1], goal)]
  }

  lemma KeyedAllSnoc(ts: seq<State>, t: State, goal: Pos)
    ensures KeyedAll(ts + [t], goal) == KeyedAll(ts, goal) + [Keyed(t, goal)]
  {
    assert (ts + [t])[..|ts|] == ts;
  }

  /** Pushing the entry for one more state adds it to the heap's entries. */
  lemma PushKeyed(elems: multiset<Entry<State>>, base: multiset<Entry<State>>, ts: seq<State>, t: State, goal: Pos)
    requires elems == base + multiset(KeyedAll(ts, goal))
    ensures elems + multiset{Keyed(t, goal)} == base + multiset(KeyedAll(ts + [t], goal))
  {
    KeyedAllSnoc(ts, t, goal);
    assert multiset(KeyedAll(ts + [t], goal)) == multiset(KeyedAll(ts, goal)) + multiset{Keyed(t, goal)};
  }

  /**
   * The entries pushed for `ts` are exactly the keyed states of `ts`, and
   * when `ts` is duplicate-free each of them is pushed once.
   */
  lemma {:induction false} KeyedAllMembers(ts: seq<State>, goal: Pos)
    ensures forall e :: e in multiset(KeyedAll(ts, goal)) <==> e.item in ts && e == Keyed(e.item, goal)
    ensures Distinct(ts) ==> forall e :: multiset(KeyedAll(ts, goal))[e] <= 1
    decreases |ts|
  {
    if ts != [] {
      var init, t := ts[..|ts| - 1], ts[|ts| - 1];
      assert ts == init + [t];
      KeyedAllMembers(init, goal);
      var m := multiset(KeyedAll(init, goal));
      assert multiset(KeyedAll(ts, goal)) == m + multiset{Keyed(t, goal)};
      forall e ensures e in multiset(KeyedAll(ts, goal)) <==> e.item in ts && e == Keyed(e.item, goal) {
        assert e.item in ts <==> e.item in init || e.item == t;
      }
      if Distinct(ts) {
        assert Distinct(init);
        assert t !in init by {
          forall j | 0 <= j < |init| ensures init[j] != t {
            assert init[j] == ts[j];
          }
        }
      }
    }
  }

  /**
   * `runBestFS`'s first choice: when the run got past the start state, the
   * next state expanded is a successor of the start whose cell is no
   * farther from `goal` than that of any other successor.
   */
  ghost predicate GreedyFirstStep(grid: Grid, goal: Pos, order: seq<State>)
    requires |grid| > 0
  {
    |order| > 1 ==>
      order[1] in Successors(grid, order[0]) &&
      forall t :: t in Successors(grid, order[0]) ==>
        Manhattan(PosOf(order[1]), goal) <= Manhattan(PosOf(t), goal)
  }

  /**
   * The heap's entries: each is a keyed, unexpanded key of the parent map,
   * stored once; and every unexpanded key is in the heap.
   */
  ghost predicate HeapMirrorsFrontier(goal: Pos, visited: set<State>, elems: multiset<Entry<State>>,
                                      parent: map<State, Option<State>>)
  {
    (forall e :: e in elems ==> e == Keyed(e.item, goal) && e.item in parent && e.item !in visited && elems[e] == 1) &&
    (forall k :: k in parent && k !in visited ==> Keyed(k, goal) in elems)
  }

  /**
   * Between turns of `runBestFS`'s loop: the shared bookkeeping; no
   * expanded state is a goal; the heap mirrors the unexpanded keys; every
   * successor of an expanded state is a key; before the first turn the heap
   * holds the start state alone, after it exactly the start's successors
   * that are keys, and from then on the greedy first step holds.
   */
  ghost predicate BestInv(grid: Grid, s0: State, goal: Pos, order: seq<State>, visited: set<State>,
                          elems: multiset<Entry<State>>, parent: map<State, Option<State>>)
    requires |grid| > 0
  {
    Explored(grid, s0, order, visited, parent) && NoGoal(grid, order) &&
    HeapMirrorsFrontier(goal, visited, elems, parent) &&
    (forall v, t :: v in visited && t in Successors(grid, v) ==> t in parent) &&
    (order == [] ==> elems == multiset{Keyed(s0, goal)}) &&
    (|order| == 1 ==> forall e :: e in elems ==> e.item in Successors(grid, s0)) &&
    GreedyFirstStep(grid, goal, order)
  }

  /**
   * Popping the least entry `root` and expanding its state keeps the greedy
   * first step: on the second turn the heap holds exactly the start's
   * successors, so the root is the nearest of them.
   */
  lemma BestGreedy(grid: Grid, s0: State, goal: Pos, order: seq<State>, visited: set<State>,
                   elems: multiset<Entry<State>>, parent: map<State, Option<State>>, root: Entry<State>)
    requires |grid| > 0 && BestInv(grid, s0, goal, order, visited, elems, parent)
    requires root in elems && forall e :: e in elems ==> root.priority <= e.priority
    ensures GreedyFirstStep(grid, goal, order + [root.item])
  {
    var o' := order + [root.item];
    if |order| == 1 {
      assert o'[0] == s0 && o'[1] == root.item;
      forall t | t in Successors(grid, s0)
        ensures Manhattan(PosOf(root.item), goal) <= Manhattan(PosOf(t), goal)
      {
        SuccessorIff(grid, s0, t);
        assert s0 in visited && t !in visited;
        assert Keyed(t, goal) in elems;
      }
    } else if |order| > 1 {
      assert o'[0] == order[0] && o'[1] == order[1];
    }
  }

  /** The heap after popping `root` and pushing the keyed `pushed` still mirrors the unexpanded keys. */
  lemma BestHeapAfterPush(goal: Pos, visited: set<State>, elems: multiset<Entry<State>>,
                          parent: map<State, Option<State>>, root: Entry<State>, pushed: seq<State>)
    requires HeapMirrorsFrontier(goal, visited, elems, parent) && root in elems
    requires Distinct(pushed)
    requires forall t :: t in pushed ==> t !in parent && t !in visited + {root.item}
    ensures HeapMirrorsFrontier(goal, visited + {root.item}, (elems - multiset{root}) + multiset(KeyedAll(pushed, goal)),
                                Adopt(parent, pushed, root.item))
  {
    var node := root.item;
    var rest, added := elems - multiset{root}, multiset(KeyedAll(pushed, goal));
    var e', v', p' := rest + added, visited + {node}, Adopt(parent, pushed, node);
    KeyedAllMembers(pushed, goal);
    AdoptLookup(parent, pushed, node);
    forall e: Entry<State> | e in e' ensures e == Keyed(e.item, goal) && e.item in p' && e.item !in v' && e'[e] == 1 {
      if e in rest {
        assert e in elems && added[e] == 0;
        assert rest[root] == 0 && root == Keyed(node, goal);
      } else {
        assert e in added && rest[e] == 0;
      }
    }
    forall k | k in p' && k !in v' ensures Keyed(k, goal) in e' {
      if k in parent {
        assert Keyed(k, goal) in elems && Keyed(k, goal) != root;
      } else {
        assert Keyed(k, goal) in added;
      }
    }
  }

  /** Every successor of an expanded state stays a key of the parent map. */
  lemma BestClosedAfterPush(grid: Grid, s0: State, order: seq<State>, visited: set<State>,
                            parent: map<State, Option<State>>, node: State, pushed: seq<State>)
    requires |grid| > 0 && Explored(grid, s0, order, visited, parent) && node in parent
    requires forall v, t :: v in visited && t in Successors(grid, v) ==> t in parent
    requires forall t :: t in Successors(grid, node) && t !in visited + {node} && t !in parent ==> t in pushed
    ensures forall v, t :: v in visited + {node} && t in Successors(grid, v) ==> t in Adopt(parent, pushed, node)
  {
    AdoptLookup(parent, pushed, node);
  }

  /** After the first turn the heap holds only the start's successors. */
  lemma BestOpeningAfterPush(grid: Grid, s0: State, goal: Pos, elems: multiset<Entry<State>>,
                             root: Entry<State>, pushed: seq<State>)
    requires |grid| > 0 && elems == multiset{Keyed(s0, goal)} && root in elems
    requires forall t :: t in pushed ==> t in Successors(grid, s0)
    ensures forall e :: e in (elems - multiset{root}) + multiset(KeyedAll(pushed, goal)) ==> e.item in Successors(grid, s0)
  {
    KeyedAllMembers(pushed, goal);
    assert elems - multiset{root} == multiset{};
  }

  /**
   * Popping the least entry, whose state is not a goal, expanding its state
   * and pushing the keyed successors that are neither expanded nor
   * discovered keeps the invariant.
   */
  lemma BestExpand(grid: Grid, s0: State, goal: Pos, order: seq<State>, visited: set<State>,
                   elems: multiset<Entry<State>>, parent: map<State, Option<State>>, root: Entry<State>,
                   pushed: seq<State>)
    requires |grid| > 0 && BestInv(grid, s0, goal, order, visited, elems, parent)
    requires root in elems && (forall e :: e in elems ==> root.priority <= e.priority)
    requires !IsGoal(grid, root.item.r, root.item.c)
    requires Distinct(pushed)
    requires forall t :: t in pushed <==>
               t in Successors(grid, root.item) && t !in visited + {root.item} && t !in parent
    ensures BestInv(grid, s0, goal, order + [root.item], visited + {root.item},
                    (elems - multiset{root}) + multiset(KeyedAll(pushed, goal)), Adopt(parent, pushed, root.item))
  {
    var node := root.item;
    assert order == [] ==> node == s0;
    ExpandKeeps(grid, s0, order, visited, parent, node, pushed);
    BestHeapAfterPush(goal, visited, elems, parent, root, pushed);
    BestClosedAfterPush(grid, s0, order, visited, parent, node, pushed);
    if order == [] {
      BestOpeningAfterPush(grid, s0, goal, elems, root, pushed);
    }
    BestGreedy(grid, s0, goal, order, visited, elems, parent, root);
    NoGoalSnoc(grid, order, node);
  }

  /**
   * One turn of `runBestFS`: what the neighbour loop pushes for the popped
   * state keeps the invariant, and one more state of the universe is
   * expanded.
   */
  lemma BestStep(grid: Grid, s0: State, goal: Pos, order: seq<State>, visited: set<State>,
                 elems: multiset<Entry<State>>, parent: map<State, Option<State>>, root: Entry<State>)
    requires |grid| > 0 && BestInv(grid, s0, goal, order, visited, elems, parent)
    requires root in elems && (forall e :: e in elems ==> root.priority <= e.priority)
    requires !IsGoal(grid, root.item.r, root.item.c)
    ensures var node := root.item;
      var pushed := FreshUpTo(grid, node, visited + {node} + parent.Keys, Neighbors(node.r, node.c), 4);
      BestInv(grid, s0, goal, order + [node], visited + {node},
              (elems - multiset{root}) + multiset(KeyedAll(pushed, goal)), Adopt(parent, pushed, node))
    ensures Unexpanded(grid, s0, visited + {root.item}) < Unexpanded(grid, s0, visited)
  {
    var node := root.item;
    var pushed := FreshUpTo(grid, node, visited + {node} + parent.Keys, Neighbors(node.r, node.c), 4);
    NeighbourPushes(grid, visited, parent, node);
    VisitShrinks(grid, s0, visited, parent, node);
    BestExpand(grid, s0, goal, order, visited, elems, parent, root, pushed);
  }

  /**
   * The neighbour loop of `runBestFS`: walks the four neighbours in order
   * and pushes each feasible state that is neither expanded nor a key of
   * the parent map, with its distance to `goal` as priority, recording
   * `node` as its parent.
   */
  method PushSuccessorsBest(grid: Grid, node: State, goal: Pos, visited: set<State>, heap: MinHeap<State>,
                            parent: map<State, Option<State>>)
    returns (parent': map<State, Option<State>>)
    requires |grid| > 0 && heap.Valid()
    modifies heap
    ensures heap.Valid()
    ensures var pushed := FreshUpTo(grid, node, visited + parent.Keys, Neighbors(node.r, node.c), 4);
      heap.Elements() == old(heap.Elements()) + multiset(KeyedAll(pushed, goal)) &&
      parent' == Adopt(parent, pushed, node)
  {
    var neighs := Neighbors(node.r, node.c);
    ghost var excl := visited + parent.Keys;
    ghost var pushed: seq<State> := [];
    parent' := parent;
    for i := 0 to |neighs|
      invariant heap.Valid()
      invariant pushed == FreshUpTo(grid, node, excl, neighs, i)
      invariant heap.Elements() == old(heap.Elements()) + multiset(KeyedAll(pushed, goal))
      invariant parent' == Adopt(parent, pushed, node)
    {
      var found := Discover(grid, node, neighs[i], visited, parent');
      SameGuard(grid, node, visited, parent, neighs, i);
      if found.Some? {
        var nk := found.value;
        AdoptSnoc(parent, pushed, nk, node);
        PushKeyed(heap.Elements(), old(heap.Elements()), pushed, nk, goal);
        parent' := parent'[nk := Some(node)];
        heap.Push(nk, Manhattan(Pos(nk.r, nk.c), goal));
        pushed := pushed + [nk];
      }
    }
  }

  /** An empty heap ends `runBestFS` with a sound, exhaustive result. */
  lemma BestExhausted(grid: Grid, start: Pos, battery: int, goal: Pos, order: seq<State>, visited: set<State>,
                      parent: map<State, Option<State>>, res: SearchResult)
    requires |grid| > 0 && BestInv(grid, StartState(start, battery), goal, order, visited, multiset{}, parent)
    requires res == SearchResult(order, [], |order|, None)
    ensures Sound(grid, start, battery, res) && GreedyFirstStep(grid, goal, res.visitedOrder)
  {
    var first := Keyed(StartState(start, battery), goal);
    assert multiset{first}[first] == 1;
    assert Closed(grid, visited);
    ExhaustedSound(grid, start, battery, order, visited, parent, res);
  }

  /** Before the first turn the invariant holds. */
  lemma BestInit(grid: Grid, s0: State, goal: Pos)
    requires |grid| > 0
    ensures BestInv(grid, s0, goal, [], {}, multiset{Keyed(s0, goal)}, map[s0 := None])
  {
  }

  /**
   * `runBestFS`: a sound search, whose second expanded state (when there is
   * one) is a successor of the start nearest to `goal`.  The heap never
   * holds an expanded state, so the `continue` for expanded states is never
   * taken.
   */
  method RunBestFS(grid: Grid, start: Pos, goal: Pos, battery: int) returns (res: SearchResult)
    requires |grid| > 0 && 0 <= start.r < |grid|
    ensures Sound(grid, start, battery, res)
    ensures GreedyFirstStep(grid, goal, res.visitedOrder)
  {
    var heap := new MinHeap<State>();
    var visited: set<State> := {};
    var parent: map<State, Option<State>> := map[];
    var visitedOrder: seq<State> := [];
    var s0 := State(start.r, start.c, battery);
    heap.Push(s0, Manhattan(start, goal));
    parent := parent[s0 := None];
    BestInit(grid, s0, goal);
    ghost var elems := heap.Elements();
    while heap.Size() > 0
      invariant heap.Valid() && elems == heap.Elements()
      invariant BestInv(grid, s0, goal, visitedOrder, visited, elems, parent)
      decreases Unexpanded(grid, s0, visited)
    {
      ghost var before := elems;
      ghost var root := heap.heap[0];
      var top := heap.Pop();
      var node := top.value;
      if node in visited {
        assert false;
        continue;
      }
      if IsGoal(grid, node.r, node.c) {
        var path := ReconstructPath(grid, parent, s0, node);
        res := SearchResult(visitedOrder + [node], path, |visitedOrder| + 1, Some(node.b));
        GoalFound(grid, start, battery, visitedOrder, visited, parent, node, res);
        BestGreedy(grid, s0, goal, visitedOrder, visited, before, parent, root);
        return;
      }
      BestStep(grid, s0, goal, visitedOrder, visited, before, parent, root);
      visited := visited + {node};
      visitedOrder := visitedOrder + [node];
      parent := PushSuccessorsBest(grid, node, goal, visited, heap, parent);
      elems := heap.Elements();
    }
    res := SearchResult(visitedOrder, [], |visitedOrder|, None);
    BestExhausted(grid, start, battery, goal, visitedOrder, visited, parent, res);
  }
}
