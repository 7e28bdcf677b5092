/**
 * `runDFS`: depth-first search with an explicit stack.  Neighbours are
 * pushed from the last to the first, so the first one (up) is expanded
 * first; every push records the expanded state as the parent, even for a
 * state that already had one.
 */
module DepthFirst {
  import opened Wrappers
  import opened StateSpace
  import opened PathReconstruction
  import opened Search

  /** The stack right after the start state is expanded. */
  ghost function FirstPush(grid: Grid, s0: State): seq<State>
    requires |grid| > 0
  {
    Fresh(grid, s0, {s0}, Reverse(Neighbors(s0.r, s0.c)))
  }

  /**
   * The first push holds the start's successors in reverse, so its top,
   * the next state expanded, is the first successor: the upper neighbour
   * when it is feasible.
   */
  lemma FirstPushReversed(grid: Grid, s0: State)
    requires |grid| > 0
    ensures FirstPush(grid, s0) == Reverse(Successors(grid, s0))
  {
    var ns := Neighbors(s0.r, s0.c);
    FreshIgnoresSelf(grid, s0, Reverse(ns));
    FreshReverse(grid, s0, {}, ns);
  }

  /**
   * How `runDFS`'s stack begins: the start state before the first turn, the
   * first push after it, and from then on the second expanded state is the
   * top of the first push.
   */
  ghost predicate DfsOpening(grid: Grid, s0: State, order: seq<State>, stack: seq<State>)
    requires |grid| > 0
  {
    (order == [] ==> stack == [s0]) &&
    (|order| == 1 ==> stack == FirstPush(grid, s0)) &&
    (|order| > 1 ==> |FirstPush(grid, s0)| > 0 && order[1] == FirstPush(grid, s0)[|FirstPush(grid, s0)| - 1])
  }

  /**
   * Between turns of `runDFS`'s loop: the shared bookkeeping; no expanded
   * state is a goal; every stacked state has a parent; every successor of
   * an expanded state is expanded or on the stack; and the stack's opening.
   */
  ghost predicate DfsInv(grid: Grid, s0: State, order: seq<State>, visited: set<State>,
                         stack: seq<State>, parent: map<State, Option<State>>)
    requires |grid| > 0
  {
    Explored(grid, s0, order, visited, parent) && NoGoal(grid, order) &&
    (forall s :: s in stack ==> s in parent) &&
    FrontierClosed(grid, visited, stack) && DfsOpening(grid, s0, order, stack)
  }

  /** Popping an expanded state off the stack keeps the invariant. */
  lemma DfsSkip(grid: Grid, s0: State, order: seq<State>, visited: set<State>,
                stack: seq<State>, parent: map<State, Option<State>>)
    requires |grid| > 0 && DfsInv(grid, s0, order, visited, stack, parent)
    requires |stack| > 0 && stack[|stack| - 1] in visited
    ensures DfsInv(grid, s0, order, visited, stack[..|stack| - 1], parent)
  {
    DropLast(stack);
    forall v, t | v in visited && t in Successors(grid, v) ensures t in visited || t in stack[..|stack| - 1] {
      assert t in visited || t in stack;
    }
    if |order| == 1 {
      FreshMembers(grid, s0, {s0}, Reverse(Neighbors(s0.r, s0.c)));
      assert false;
    }
  }

  /**
   * Popping the top state, expanding it and pushing every successor of it
   * that is not expanded keeps every successor of an expanded state in reach.
   */
  lemma ClosedAfterPush(grid: Grid, visited: set<State>, stack: seq<State>, pushed: seq<State>)
    requires |grid| > 0 && |stack| > 0 && FrontierClosed(grid, visited, stack)
    requires var node := stack[|stack| - 1];
      forall t :: t in Successors(grid, node) && t !in visited + {node} ==> t in pushed
    ensures FrontierClosed(grid, visited + {stack[|stack| - 1]}, stack[..|stack| - 1] + pushed)
  {
    var node := stack[|stack| - 1];
    var v' := visited + {node};
    var st' := stack[..|stack| - 1] + pushed;
    DropLast(stack);
    forall v, t | v in v' && t in Successors(grid, v) ensures t in v' || t in st' {
      if v != node && t !in v' {
        assert t in stack;
      }
    }
  }

  /** Expanding the top state keeps the stack's opening. */
  lemma OpeningAfterPush(grid: Grid, s0: State, order: seq<State>, stack: seq<State>, pushed: seq<State>)
    requires |grid| > 0 && |stack| > 0 && DfsOpening(grid, s0, order, stack)
    requires order == [] ==> pushed == FirstPush(grid, s0)
    ensures DfsOpening(grid, s0, order + [stack[|stack| - 1]], stack[..|stack| - 1] + pushed)
  {
    if order == [] {
      assert stack[..|stack| - 1] + pushed == pushed;
    }
  }

  /** The states `runDFS` pushes after expanding `node`: its successors not yet expanded, last first. */
  ghost function DfsPushed(grid: Grid, node: State, visited: set<State>): seq<State>
    requires |grid| > 0
  {
    Fresh(grid, node, visited + {node}, Reverse(Neighbors(node.r, node.c)))
  }

  /** The states `runDFS` pushes are exactly the successors of `node` not yet expanded. */
  lemma DfsPushedMembers(grid: Grid, node: State, visited: set<State>)
    requires |grid| > 0
    ensures forall t :: t in DfsPushed(grid, node, visited) <==>
              t in Successors(grid, node) && t !in visited + {node}
  {
    var ns := Neighbors(node.r, node.c);
    ReverseMembers(ns);
    FreshOfNeighbors(grid, node, visited + {node}, Reverse(ns));
  }

  /**
   * Expanding the top state and recording it as the parent of its
   * unexpanded successors `pushed` keeps the shared bookkeeping, and every
   * stacked state keeps a parent.
   */
  lemma DfsExpandExplored(grid: Grid, s0: State, order: seq<State>, visited: set<State>,
                          stack: seq<State>, parent: map<State, Option<State>>, pushed: seq<State>)
    requires |grid| > 0 && Explored(grid, s0, order, visited, parent)
    requires |stack| > 0 && (forall s :: s in stack ==> s in parent)
    requires var node := stack[|stack| - 1]; node in parent && node !in visited && (order == [] ==> node == s0)
    requires var node := stack[|stack| - 1];
      forall t :: t in pushed ==> t in Successors(grid, node) && t !in visited + {node}
    ensures var node := stack[|stack| - 1];
      Explored(grid, s0, order + [node], visited + {node}, Adopt(parent, pushed, node)) &&
      forall s :: s in stack[..|stack| - 1] + pushed ==> s in Adopt(parent, pushed, node)
  {
    var node := stack[|stack| - 1];
    ExpandKeeps(grid, s0, order, visited, parent, node, pushed);
    AdoptLookup(parent, pushed, node);
    DropLast(stack);
  }

  /** When the stack runs empty, the start state was expanded and the expanded states are closed. */
  lemma DfsDone(grid: Grid, s0: State, order: seq<State>, visited: set<State>,
                stack: seq<State>, parent: map<State, Option<State>>)
    requires |grid| > 0 && DfsInv(grid, s0, order, visited, stack, parent) && stack == []
    ensures order != [] && Closed(grid, visited)
  {
  }

  /**
   * Popping an unexpanded state that is not a goal, expanding it and
   * pushing exactly its unexpanded successors (the first push when it is
   * the start state) keeps the invariant.
   */
  lemma DfsExpand(grid: Grid, s0: State, order: seq<State>, visited: set<State>,
                  stack: seq<State>, parent: map<State, Option<State>>, pushed: seq<State>)
    requires |grid| > 0 && DfsInv(grid, s0, order, visited, stack, parent)
    requires |stack| > 0
    requires var node := stack[|stack| - 1]; node !in visited && !IsGoal(grid, node.r, node.c)
    requires var node := stack[|stack| - 1];
      forall t :: t in pushed <==> t in Successors(grid, node) && t !in visited + {node}
    requires order == [] ==> pushed == FirstPush(grid, s0)
    ensures var node := stack[|stack| - 1];
      DfsInv(grid, s0, order + [node], visited + {node}, stack[..|stack| - 1] + pushed,
             Adopt(parent, pushed, node))
  {
    DfsExpandExplored(grid, s0, order, visited, stack, parent, pushed);
    ClosedAfterPush(grid, visited, stack, pushed);
    OpeningAfterPush(grid, s0, order, stack, pushed);
    assert NoGoal(grid, order + [stack[|stack| - 1]]);
  }

  /**
   * `runDFS`'s order of expansion: once two states are expanded, the second
   * is the first successor of the start state (the upper neighbour when it
   * is feasible).
   */
  ghost predicate SecondIsFirstSuccessor(grid: Grid, order: seq<State>)
    requires |grid| > 0
  {
    |order| > 1 ==> |Successors(grid, order[0])| > 0 && order[1] == Successors(grid, order[0])[0]
  }

  /**
   * The second expanded state is the top of the first push, which holds
   * the start's successors in reverse.
   */
  lemma DfsFirstChild(grid: Grid, s0: State, order: seq<State>, stack: seq<State>)
    requires |grid| > 0 && DfsOpening(grid, s0, order, stack) && (order != [] ==> order[0] == s0)
    ensures SecondIsFirstSuccessor(grid, order)
  {
    FirstPushReversed(grid, s0);
  }

  /**
   * Popping an unexpanded state on a goal cell, expanding it and returning
   * the path rebuilt for it is sound.
   */
  lemma DfsFound(grid: Grid, start: Pos, battery: int, order: seq<State>, visited: set<State>,
                 stack: seq<State>, parent: map<State, Option<State>>, res: SearchResult)
    requires |grid| > 0 && DfsInv(grid, StartState(start, battery), order, visited, stack, parent)
    requires |stack| > 0
    requires var node := stack[|stack| - 1]; node !in visited && IsGoal(grid, node.r, node.c)
    requires var node, path := stack[|stack| - 1], res.path;
      res.visitedOrder == order + [node] && res.nodesExpanded == |order| + 1 &&
      res.finalBattery == Some(node.b) &&
      |path| > 0 && path[0] == start && path[|path| - 1] == PosOf(node) && Route(grid, battery, path, node.b)
    ensures Sound(grid, start, battery, res)
  {
    GoalFound(grid, start, battery, order, visited, parent, stack[|stack| - 1], res);
  }

  /** Expanding the state popped off the stack keeps the second expanded state the first successor. */
  lemma DfsPopFirstChild(grid: Grid, s0: State, order: seq<State>, stack: seq<State>)
    requires |grid| > 0 && |stack| > 0 && DfsOpening(grid, s0, order, stack) && (order != [] ==> order[0] == s0)
    ensures SecondIsFirstSuccessor(grid, order + [stack[|stack| - 1]])
  {
    if order != [] {
      OpeningAfterPush(grid, s0, order, stack, []);
      DfsFirstChild(grid, s0, order + [stack[|stack| - 1]], stack[..|stack| - 1] + []);
    }
  }

  /** An empty stack ends `runDFS` with a sound, exhaustive result. */
  lemma DfsExhausted(grid: Grid, start: Pos, battery: int, order: seq<State>, visited: set<State>,
                     parent: map<State, Option<State>>, res: SearchResult)
    requires |grid| > 0 && DfsInv(grid, StartState(start, battery), order, visited, [], parent)
    requires res == SearchResult(order, [], |order|, None)
    ensures Sound(grid, start, battery, res) && SecondIsFirstSuccessor(grid, res.visitedOrder)
  {
    var s0 := StartState(start, battery);
    DfsDone(grid, s0, order, visited, [], parent);
    ExhaustedSound(grid, start, battery, order, visited, parent, res);
    DfsFirstChild(grid, s0, order, []);
  }

  /**
   * What `runDFS`'s neighbour loop has pushed once it has walked the cells
   * of `ps` from the last down to index `i`.
   */
  function FreshDown(grid: Grid, s: State, excl: set<State>, ps: seq<Pos>, i: nat): seq<State>
    requires |grid| > 0
    decreases |ps| - i
  {
    if i >= |ps| then [] else FreshDown(grid, s, excl, ps, i + 1) + Pushed(grid, s, excl, ps[i])
  }

  /** Walking down from the last cell is walking the reversed cells. */
  lemma {:induction false} FreshDownReverse(grid: Grid, s: State, excl: set<State>, ps: seq<Pos>, i: nat)
    requires |grid| > 0 && i <= |ps|
    ensures FreshDown(grid, s, excl, ps, i) == Fresh(grid, s, excl, Reverse(ps[i..]))
    decreases |ps| - i
  {
    if i < |ps| {
      FreshDownReverse(grid, s, excl, ps, i + 1);
      ReverseFrom(ps, i);
      FreshSnoc(grid, s, excl, Reverse(ps[i + 1..]), ps[i]);
    }
  }

  /**
   * One expanding turn of `runDFS`: what the neighbour loop pushes for the
   * popped state keeps the invariant.
   */
  lemma DfsStep(grid: Grid, s0: State, order: seq<State>, visited: set<State>,
                stack: seq<State>, parent: map<State, Option<State>>)
    requires |grid| > 0 && DfsInv(grid, s0, order, visited, stack, parent)
    requires |stack| > 0
    requires var node := stack[|stack| - 1]; node !in visited && !IsGoal(grid, node.r, node.c)
    ensures var node := stack[|stack| - 1];
      var pushed := FreshDown(grid, node, visited + {node}, Neighbors(node.r, node.c), 0);
      DfsInv(grid, s0, order + [node], visited + {node}, stack[..|stack| - 1] + pushed,
             Adopt(parent, pushed, node))
    ensures Unexpanded(grid, s0, visited + {stack[|stack| - 1]}) < Unexpanded(grid, s0, visited)
  {
    var node := stack[|stack| - 1];
    VisitShrinks(grid, s0, visited, parent, node);
    var ns := Neighbors(node.r, node.c);
    var pushed := FreshDown(grid, node, visited + {node}, ns, 0);
    FreshDownReverse(grid, node, visited + {node}, ns, 0);
    assert ns[0..] == ns;
    DfsPushedMembers(grid, node, visited);
    if order == [] {
      assert visited + {node} == {s0};
    }
    DfsExpand(grid, s0, order, visited, stack, parent, pushed);
  }

  /**
   * The guard chain of `runDFS`'s neighbour loop for cell `n`: skip it when
   * out of bounds, when its terrain has no cost, when the battery would go
   * negative, or when the state reached is expanded; otherwise that state.
   */
  method DiscoverUnexpanded(grid: Grid, node: State, n: Pos, visited: set<State>) returns (found: Option<State>)
    requires |grid| > 0
    ensures (if found.Some? then [found.value] else []) == Pushed(grid, node, visited, n)
  {
    if !InBounds(n.r, n.c, |grid|, |grid[0]|) {
      return None;
    }
    var cost := EnterCost(grid, n);
    if cost.None? {
      return None;
    }
    var nb := node.b - cost.value;
    if nb < 0 {
      return None;
    }
    var nk := State(n.r, n.c, nb);
    if nk !in visited {
      return Some(nk);
    }
    return None;
  }

  /**
   * The neighbour loop of `runDFS`: walks the four neighbours from last to
   * first, and pushes each feasible state not yet expanded, recording `node`
   * as its parent even when it already had one.
   */
  method PushSuccessorsDfs(grid: Grid, node: State, neighs: seq<Pos>, visited: set<State>, stack: seq<State>,
                           parent: map<State, Option<State>>)
    returns (stack': seq<State>, parent': map<State, Option<State>>)
    requires |grid| > 0
    ensures stack' == stack + FreshDown(grid, node, visited, neighs, 0)
    ensures parent' == Adopt(parent, FreshDown(grid, node, visited, neighs, 0), node)
  {
    stack', parent' := stack, parent;
    ghost var pushed: seq<State> := [];
    var i := |neighs| - 1;
    while i >= 0
      invariant -1 <= i < |neighs|
      invariant pushed == FreshDown(grid, node, visited, neighs, i + 1)
      invariant stack' == stack + pushed && parent' == Adopt(parent, pushed, node)
      decreases i + 1
    {
      var found := DiscoverUnexpanded(grid, node, neighs[i], visited);
      if found.Some? {
        var nk := found.value;
        AdoptSnoc(parent, pushed, nk, node);
        stack' := stack' + [nk];
        parent' := parent'[nk := Some(node)];
        pushed := pushed + [nk];
      }
      i := i - 1;
    }
  }

  /**
   * `runDFS`: the stack discipline expands the start state first and then,
   * when the start has successors, its first successor in the order up,
   * down, left, right (pushing in reverse leaves it on top).
   */
  method RunDFS(grid: Grid, start: Pos, goal: Pos, battery: int) returns (res: SearchResult)
    requires |grid| > 0 && 0 <= start.r < |grid|
    ensures Sound(grid, start, battery, res)
    ensures SecondIsFirstSuccessor(grid, res.visitedOrder)
  {
    var stack: seq<State> := [];
    var visited: set<State> := {};
    var parent: map<State, Option<State>> := map[];
    var visitedOrder: seq<State> := [];
    var s0 := State(start.r, start.c, battery);
    stack := stack + [s0];
    parent := parent[s0 := None];
    while |stack| > 0
      invariant DfsInv(grid, s0, visitedOrder, visited, stack, parent)
      decreases Unexpanded(grid, s0, visited), |stack|
    {
      ghost var before := stack;
      var node := stack[|stack| - 1];
      stack := stack[..|stack| - 1];
      if node in visited {
        DfsSkip(grid, s0, visitedOrder, visited, before, parent);
        continue;
      }
      if IsGoal(grid, node.r, node.c) {
        var path := ReconstructPath(grid, parent, s0, node);
        res := SearchResult(visitedOrder + [node], path, |visitedOrder| + 1, Some(node.b));
        DfsFound(grid, start, battery, visitedOrder, visited, before, parent, res);
        DfsPopFirstChild(grid, s0, visitedOrder, before);
        return;
      }
      DfsStep(grid, s0, visitedOrder, visited, before, parent);
      visited := visited + {node};
      visitedOrder := visitedOrder + [node];
      var neighs := Neighbors(node.r, node.c);
      stack, parent := PushSuccessorsDfs(grid, node, neighs, visited, stack, parent);
    }
    res := SearchResult(visitedOrder, [], |visitedOrder|, None);
    DfsExhausted(grid, start, battery, visitedOrder, visited, parent, res);
  }
}
