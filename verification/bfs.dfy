/**
 * `runBFS`: breadth-first search with an array used as a FIFO queue.  A
 * discovered state is queued, and given its parent, only when it is
 * neither expanded nor already a key of the parent map, so no state is
 * queued twice and the queue never holds an expanded state.
 */
module BreadthFirst {
  import opened Wrappers
  import opened StateSpace
  import opened PathReconstruction
  import opened Search

  /**
   * `runBFS`'s order of expansion: right after the start state come its
   * successors in the order up, down, left, right, as far as the run got.
   */
  ghost predicate StartSuccessorsFirst(grid: Grid, order: seq<State>)
    requires |grid| > 0
  {
    |order| > 0 ==> Successors(grid, order[0]) <= order[1..] || order[1..] <= Successors(grid, order[0])
  }

  /**
   * Between turns of `runBFS`'s loop: the shared bookkeeping; no expanded
   * state is a goal; the queue holds distinct unexpanded keys of the parent
   * map, and every key is expanded or queued; every successor of an
   * expanded state is expanded or queued; and the queue holds the start
   * state before the first turn, and from then on the expanded states after
   * the start followed by the queue begin with the start's successors.
   */
  ghost predicate BfsInv(grid: Grid, s0: State, order: seq<State>, visited: set<State>,
                         queue: seq<State>, parent: map<State, Option<State>>)
    requires |grid| > 0
  {
    Explored(grid, s0, order, visited, parent) && NoGoal(grid, order) &&
    Distinct(queue) &&
    (forall s :: s in queue ==> s in parent && s !in visited) &&
    (forall k :: k in parent ==> k in visited || k in queue) &&
    FrontierClosed(grid, visited, queue) &&
    (order == [] ==> queue == [s0]) &&
    (order != [] ==> Successors(grid, s0) <= order[1..] + queue)
  }

  /** The queue after the turn holds distinct unexpanded keys, and every key is expanded or queued. */
  lemma BfsQueueKeys(grid: Grid, visited: set<State>, queue: seq<State>, parent: map<State, Option<State>>,
                     pushed: seq<State>)
    requires |queue| > 0 && Distinct(queue) && Distinct(pushed)
    requires forall s :: s in queue ==> s in parent && s !in visited
    requires forall k :: k in parent ==> k in visited || k in queue
    requires forall t :: t in pushed ==> t !in parent && t !in visited + {queue[0]}
    ensures var node, q' := queue[0], queue[1..] + pushed;
      var p' := Adopt(parent, pushed, node);
      Distinct(q') &&
      (forall s :: s in q' ==> s in p' && s !in visited + {node}) &&
      (forall k :: k in p' ==> k in visited + {node} || k in q')
  {
    var node, rest := queue[0], queue[1..];
    assert queue == [node] + rest;
    assert Distinct(rest);
    forall j | 0 <= j < |rest| ensures rest[j] != node {
      assert rest[j] == queue[j + 1];
    }
    DistinctAppend(rest, pushed);
    AdoptLookup(parent, pushed, node);
  }

  /** Every successor of an expanded state stays expanded or queued. */
  lemma BfsClosedAfterPush(grid: Grid, visited: set<State>, queue: seq<State>,
                           parent: map<State, Option<State>>, pushed: seq<State>)
    requires |grid| > 0 && |queue| > 0 && FrontierClosed(grid, visited, queue)
    requires forall k :: k in parent ==> k in visited || k in queue
    requires forall t :: t in Successors(grid, queue[0]) && t !in visited + {queue[0]} && t !in parent ==> t in pushed
    ensures FrontierClosed(grid, visited + {queue[0]}, queue[1..] + pushed)
  {
    var node, rest := queue[0], queue[1..];
    var v', q' := visited + {node}, rest + pushed;
    assert queue == [node] + rest;
    forall v, t | v in v' && t in Successors(grid, v) ensures t in v' || t in q' {
      if t !in v' {
        if v == node {
          if t in parent {
            assert t in queue;
          }
        } else {
          assert t in queue;
        }
      }
    }
  }

  /** The start's successors stay in front of the expanded states and the queue. */
  lemma BfsOpeningAfterPush(grid: Grid, s0: State, order: seq<State>, queue: seq<State>, pushed: seq<State>)
    requires |grid| > 0 && |queue| > 0
    requires order == [] ==> queue == [s0] && pushed == Successors(grid, s0)
    requires order != [] ==> Successors(grid, s0) <= order[1..] + queue
    ensures Successors(grid, s0) <= (order + [queue[0]])[1..] + (queue[1..] + pushed)
  {
    var o' := order + [queue[0]];
    if order == [] {
      assert o'[1..] == [];
    } else {
      assert o'[1..] + (queue[1..] + pushed) == (order[1..] + queue) + pushed;
    }
  }

  /** Before the first turn the invariant holds. */
  lemma BfsInit(grid: Grid, s0: State)
    requires |grid| > 0
    ensures BfsInv(grid, s0, [], {}, [s0], map[s0 := None])
  {
  }

  /**
   * Shifting off an unexpanded state that is not a goal, expanding it and
   * queueing exactly its successors that are neither expanded nor
   * discovered (the start's successors when it is the start) keeps the
   * invariant.
   */
  lemma BfsExpand(grid: Grid, s0: State, order: seq<State>, visited: set<State>,
                  queue: seq<State>, parent: map<State, Option<State>>, pushed: seq<State>)
    requires |grid| > 0 && BfsInv(grid, s0, order, visited, queue, parent)
    requires |queue| > 0 && !IsGoal(grid, queue[0].r, queue[0].c)
    requires Distinct(pushed)
    requires forall t :: t in pushed <==>
               t in Successors(grid, queue[0]) && t !in visited + {queue[0]} && t !in parent
    requires order == [] ==> pushed == Successors(grid, s0)
    ensures BfsInv(grid, s0, order + [queue[0]], visited + {queue[0]}, queue[1..] + pushed,
                   Adopt(parent, pushed, queue[0]))
  {
    ExpandKeeps(grid, s0, order, visited, parent, queue[0], pushed);
    BfsQueueKeys(grid, visited, queue, parent, pushed);
    BfsClosedAfterPush(grid, visited, queue, parent, pushed);
    BfsOpeningAfterPush(grid, s0, order, queue, pushed);
    assert NoGoal(grid, order + [queue[0]]);
  }

  /**
   * One turn of `runBFS`: what the neighbour loop queues for the state
   * shifted off the front keeps the invariant, and one more state of the
   * universe is expanded.
   */
  lemma BfsStep(grid: Grid, s0: State, order: seq<State>, visited: set<State>,
                queue: seq<State>, parent: map<State, Option<State>>)
    requires |grid| > 0 && BfsInv(grid, s0, order, visited, queue, parent)
    requires |queue| > 0 && !IsGoal(grid, queue[0].r, queue[0].c)
    ensures var node := queue[0];
      var pushed := FreshUpTo(grid, node, visited + {node} + parent.Keys, Neighbors(node.r, node.c), 4);
      BfsInv(grid, s0, order + [node], visited + {node}, queue[1..] + pushed, Adopt(parent, pushed, node))
    ensures Unexpanded(grid, s0, visited + {queue[0]}) < Unexpanded(grid, s0, visited)
  {
    var node := queue[0];
    var pushed := FreshUpTo(grid, node, visited + {node} + parent.Keys, Neighbors(node.r, node.c), 4);
    NeighbourPushes(grid, visited, parent, node);
    VisitShrinks(grid, s0, visited, parent, node);
    if order == [] {
      StartPushes(grid, s0, visited, parent);
    }
    BfsExpand(grid, s0, order, visited, queue, parent, pushed);
  }

  /**
   * The neighbour loop of `runBFS`: walks the four
   * neighbours in order and queues each feasible state that is neither
   * expanded nor a key of the parent map, recording `node` as its parent.
   */
  method EnqueueSuccessors(grid: Grid, node: State, visited: set<State>, queue: seq<State>,
                           parent: map<State, Option<State>>)
    returns (queue': seq<State>, parent': map<State, Option<State>>)
    requires |grid| > 0
    ensures var pushed := FreshUpTo(grid, node, visited + parent.Keys, Neighbors(node.r, node.c), 4);
      queue' == queue + pushed && parent' == Adopt(parent, pushed, node)
  {
    var neighs := Neighbors(node.r, node.c);
    ghost var excl := visited + parent.Keys;
    ghost var pushed: seq<State> := [];
    queue', parent' := queue, parent;
    for i := 0 to |neighs|
      invariant pushed == FreshUpTo(grid, node, excl, neighs, i)
      invariant queue' == queue + pushed && parent' == Adopt(parent, pushed, node)
    {
      var found := Discover(grid, node, neighs[i], visited, parent');
      SameGuard(grid, node, visited, parent, neighs, i);
      if found.Some? {
        var nk := found.value;
        AdoptSnoc(parent, pushed, nk, node);
        queue' := queue' + [nk];
        parent' := parent'[nk := Some(node)];
        pushed := pushed + [nk];
      }
    }
  }

  /** Whatever prefix of the expanded states the run got to agrees with the start's successors. */
  lemma BfsFirstLayer(grid: Grid, s0: State, order: seq<State>, rest: seq<State>)
    requires |grid| > 0 && order != [] && order[0] == s0
    requires Successors(grid, s0) <= order[1..] + rest
    ensures StartSuccessorsFirst(grid, order)
  {
    var s, o := Successors(grid, s0), order[1..];
    if |o| < |s| {
      assert o == (o + rest)[..|o|];
    } else {
      assert s == (o + rest)[..|s|] == o[..|s|];
    }
  }

  /** Shifting off an unexpanded goal state, expanding it and returning the rebuilt path is sound. */
  lemma BfsFound(grid: Grid, start: Pos, battery: int, order: seq<State>, visited: set<State>,
                 queue: seq<State>, parent: map<State, Option<State>>, res: SearchResult)
    requires |grid| > 0 && BfsInv(grid, StartState(start, battery), order, visited, queue, parent)
    requires |queue| > 0 && IsGoal(grid, queue[0].r, queue[0].c)
    requires var node, path := queue[0], res.path;
      res.visitedOrder == order + [node] && res.nodesExpanded == |order| + 1 &&
      res.finalBattery == Some(node.b) &&
      |path| > 0 && path[0] == start && path[|path| - 1] == PosOf(node) && Route(grid, battery, path, node.b)
    ensures Sound(grid, start, battery, res)
  {
    GoalFound(grid, start, battery, order, visited, parent, queue[0], res);
  }

  /** The same run's order of expansion. */
  lemma BfsFoundFirstLayer(grid: Grid, s0: State, order: seq<State>, queue: seq<State>)
    requires |grid| > 0 && |queue| > 0
    requires order == [] ==> queue == [s0]
    requires order != [] ==> order[0] == s0 && Successors(grid, s0) <= order[1..] + queue
    ensures StartSuccessorsFirst(grid, order + [queue[0]])
  {
    var o' := order + [queue[0]];
    if order == [] {
      assert o'[1..] == [];
    } else {
      assert o'[1..] + queue[1..] == order[1..] + queue;
      BfsFirstLayer(grid, s0, o', queue[1..]);
    }
  }

  /** An empty queue ends `runBFS` with a sound, exhaustive result. */
  lemma BfsExhausted(grid: Grid, start: Pos, battery: int, order: seq<State>, visited: set<State>,
                     parent: map<State, Option<State>>, res: SearchResult)
    requires |grid| > 0 && BfsInv(grid, StartState(start, battery), order, visited, [], parent)
    requires res == SearchResult(order, [], |order|, None)
    ensures Sound(grid, start, battery, res) && StartSuccessorsFirst(grid, res.visitedOrder)
  {
    var s0 := StartState(start, battery);
    assert order != [] && Closed(grid, visited);
    ExhaustedSound(grid, start, battery, order, visited, parent, res);
    assert order[1..] + [] == order[1..];
    BfsFirstLayer(grid, s0, order, []);
  }

  /**
   * `runBFS`: a sound search, and the states expanded right after the
   * start are its successors in the order up, down, left, right.  A state
   * shifted off the queue is never an expanded one, so the `continue` for
   * expanded states is never taken.
   */
  method RunBFS(grid: Grid, start: Pos, goal: Pos, battery: int) returns (res: SearchResult)
    requires |grid| > 0 && 0 <= start.r < |grid|
    ensures Sound(grid, start, battery, res)
    ensures StartSuccessorsFirst(grid, res.visitedOrder)
  {
    var queue: seq<State> := [];
    var visited: set<State> := {};
    var parent: map<State, Option<State>> := map[];
    var visitedOrder: seq<State> := [];
    var s0 := State(start.r, start.c, battery);
    queue := queue + [s0];
    parent := parent[s0 := None];
    BfsInit(grid, s0);
    while |queue| > 0
      invariant BfsInv(grid, s0, visitedOrder, visited, queue, parent)
      decreases Unexpanded(grid, s0, visited)
    {
      ghost var before := queue;
      var node := queue[0];
      queue := queue[1..];
      if node in visited {
        assert false;
        continue;
      }
      if IsGoal(grid, node.r, node.c) {
        var path := ReconstructPath(grid, parent, s0, node);
        res := SearchResult(visitedOrder + [node], path, |visitedOrder| + 1, Some(node.b));
        BfsFound(grid, start, battery, visitedOrder, visited, before, parent, res);
        BfsFoundFirstLayer(grid, s0, visitedOrder, before);
        return;
      }
      BfsStep(grid, s0, visitedOrder, visited, before, parent);
      visited := visited + {node};
      visitedOrder := visitedOrder + [node];
      queue, parent := EnqueueSuccessors(grid, node, visited, queue, parent);
    }
    res := SearchResult(visitedOrder, [], |visitedOrder|, None);
    BfsExhausted(grid, start, battery, visitedOrder, visited, parent, res);
  }
}
