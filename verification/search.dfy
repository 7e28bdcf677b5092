/**
 * What the three drivers `runDFS`, `runBFS` and `runBestFS` share.  Each
 * starts from the state (start cell, full battery), records the parent of
 * every state it discovers, expands states one at a time (skipping a state
 * already expanded), stops at the first expanded state standing on a goal
 * cell and rebuilds the path from the parent map, and otherwise runs until
 * its frontier (a stack, a FIFO queue, a min-heap keyed by the Manhattan
 * distance to the caller's goal) is empty.  This module holds the result
 * record, what a sound result is, and the bookkeeping the loops keep.
 */
module Search {
  import opened Wrappers
  import opened StateSpace
  import opened PathReconstruction

  /** `{ visitedOrder, path, nodesExpanded, finalBattery }`; a `null` battery is None. */
  datatype SearchResult = SearchResult(
    visitedOrder: seq<State>,
    path: seq<Pos>,
    nodesExpanded: int,
    finalBattery: Option<int>)

  /** The state a run starts in: the start cell with the full battery. */
  function StartState(start: Pos, battery: int): State
  {
    State(start.r, start.c, battery)
  }

  /**
   * A visit order as the drivers produce it: it begins with the start
   * state, never repeats a state, and every later state is a successor of
   * an earlier one.
   */
  ghost predicate Trace(grid: Grid, s0: State, order: seq<State>)
    requires |grid| > 0
  {
    |order| > 0 && order[0] == s0 && Distinct(order) &&
    forall i :: 0 < i < |order| ==> exists j :: 0 <= j < i && order[i] in Successors(grid, order[j])
  }

  /** No state of `order` stands on a goal cell. */
  predicate NoGoal(grid: Grid, order: seq<State>)
  {
    forall i :: 0 <= i < |order| ==> !IsGoal(grid, order[i].r, order[i].c)
  }

  /** Expanding one more state that is not a goal keeps every expanded state a non-goal. */
  lemma NoGoalSnoc(grid: Grid, order: seq<State>, node: State)
    requires NoGoal(grid, order) && !IsGoal(grid, node.r, node.c)
    ensures NoGoal(grid, order + [node])
  {
    assert forall i :: 0 <= i < |order| ==> (order + [node])[i] == order[i];
  }

  /**
   * What every driver returns, for a run from `start` with `battery`:
   * `nodesExpanded` counts the visit order, which is a trace from the start
   * state in which only the last state may stand on a goal cell.  A run
   * that reports a final battery reached a goal along `path`; one that
   * reports `null` returns an empty path after an exhaustive search.
   */
  ghost predicate Sound(grid: Grid, start: Pos, battery: int, res: SearchResult)
    requires |grid| > 0
  {
    var s0, vo := StartState(start, battery), res.visitedOrder;
    res.nodesExpanded == |vo| && Trace(grid, s0, vo) &&
    NoGoal(grid, vo[..|vo| - 1]) &&
    (res.finalBattery.None? || ReachedGoal(grid, start, battery, vo, res.path, res.finalBattery.value)) &&
    (res.finalBattery.Some? || (res.path == [] && Exhaustive(grid, s0, vo)))
  }

  /**
   * A run that reports `finalBattery`: its last state is on a goal cell
   * with that battery, and `path` runs from the start cell to that cell
   * along adjacent passable cells whose costs, paid from the full battery,
   * never drive it negative and leave exactly the final battery.
   */
  ghost predicate ReachedGoal(grid: Grid, start: Pos, battery: int, vo: seq<State>, path: seq<Pos>,
                              finalBattery: int)
    requires |grid| > 0 && |vo| > 0
  {
    var last := vo[|vo| - 1];
    IsGoal(grid, last.r, last.c) && finalBattery == last.b &&
    |path| > 0 && path[0] == start && path[|path| - 1] == PosOf(last) &&
    Route(grid, battery, path, last.b)
  }

  /** Every state reachable from `s0` was expanded, and none is on a goal cell. */
  ghost predicate Exhaustive(grid: Grid, s0: State, vo: seq<State>)
    requires |grid| > 0
  {
    forall t :: Reachable(grid, s0, t) ==> t in vo && !IsGoal(grid, t.r, t.c)
  }

  /**
   * Every state a run can hold: an in-bounds cell with a battery between 0
   * and the start's, or the start state itself.  It is finite, which is
   * why every driver stops.
   */
  ghost function Universe(grid: Grid, s0: State): set<State>
    requires |grid| > 0
  {
    (set r, c, b | 0 <= r < |grid| && 0 <= c < |grid[0]| && 0 <= b <= s0.b :: State(r, c, b)) + {s0}
  }

  /** `parent.set(t, p)` for every `t` of `ts`, in order. */
  function Adopt(parent: map<State, Option<State>>, ts: seq<State>, p: State): map<State, Option<State>>
    decreases |ts|
  {
    if ts == [] then parent else Adopt(parent, ts[..|ts| - 1], p)[ts[|ts| - 1] := Some(p)]
  }

  /** After adopting `ts`, exactly they and the old keys are keys; they map to `p`, the rest as before. */
  lemma {:induction false} AdoptLookup(parent: map<State, Option<State>>, ts: seq<State>, p: State)
    ensures forall k :: k in Adopt(parent, ts, p) <==> k in parent || k in ts
    ensures forall k :: k in Adopt(parent, ts, p) ==> Adopt(parent, ts, p)[k] == if k in ts then Some(p) else parent[k]
    decreases |ts|
  {
    if ts != [] {
      var init := ts[..|ts| - 1];
      AdoptLookup(parent, init, p);
      assert ts == init + [ts[|ts| - 1]];
      assert forall k :: k in ts <==> k in init || k == ts[|ts| - 1];
    }
  }

  /** Adopting one more state is one more `parent.set`. */
  lemma AdoptSnoc(parent: map<State, Option<State>>, ts: seq<State>, t: State, p: State)
    ensures Adopt(parent, ts + [t], p) == Adopt(parent, ts, p)[t := Some(p)]
  {
    assert (ts + [t])[..|ts|] == ts;
  }

  /**
   * The bookkeeping the three loops share: the parent map is a tree rooted
   * at the start state; `visited` holds exactly the states of `order`, which
   * are distinct, begin with the start state and are all keys of the map;
   * every recorded parent has been expanded; and each expanded state's
   * parent was expanded before it.
   */
  ghost predicate Explored(grid: Grid, s0: State, order: seq<State>, visited: set<State>,
                           parent: map<State, Option<State>>)
    requires |grid| > 0
  {
    ParentTree(grid, parent, s0) &&
    (forall s :: s in visited <==> s in order) &&
    Distinct(order) && (order != [] ==> order[0] == s0) &&
    (forall s :: s in visited ==> s in parent) &&
    (forall k {:trigger parent[k]} :: k in parent && k != s0 ==> parent[k].value in visited) &&
    (forall i :: 0 < i < |order| ==> parent[order[i]].Some? && parent[order[i]].value in order[..i])
  }

  /** How many states of the universe are still unexpanded. */
  ghost function Unexpanded(grid: Grid, s0: State, visited: set<State>): nat
    requires |grid| > 0
  {
    |Universe(grid, s0) - visited|
  }

  /** Every key of a parent tree lies in the universe of the run. */
  lemma InUniverse(grid: Grid, s0: State, parent: map<State, Option<State>>)
    requires |grid| > 0 && ParentTree(grid, parent, s0)
    ensures forall k :: k in parent ==> k in Universe(grid, s0)
  {
    forall k | k in parent ensures k in Universe(grid, s0) {
      if k != s0 {
        SuccessorIff(grid, parent[k].value, k);
        assert InBounds(k.r, k.c, |grid|, |grid[0]|) && 0 <= k.b <= s0.b;
      }
    }
  }

  /** Expanding a recorded, unexpanded state keeps the bookkeeping. */
  lemma VisitKeeps(grid: Grid, s0: State, order: seq<State>, visited: set<State>,
                   parent: map<State, Option<State>>, node: State)
    requires |grid| > 0 && Explored(grid, s0, order, visited, parent)
    requires node in parent && node !in visited && (order == [] ==> node == s0)
    ensures Explored(grid, s0, order + [node], visited + {node}, parent)
  {
  }

  /** Expanding a recorded, unexpanded state leaves fewer unexpanded states in the universe. */
  lemma VisitShrinks(grid: Grid, s0: State, visited: set<State>, parent: map<State, Option<State>>, node: State)
    requires |grid| > 0 && ParentTree(grid, parent, s0)
    requires node in parent && node !in visited
    ensures Unexpanded(grid, s0, visited + {node}) < Unexpanded(grid, s0, visited)
  {
    InUniverse(grid, s0, parent);
    var u := Universe(grid, s0);
    assert u - (visited + {node}) == (u - visited) - {node};
  }

  /**
   * Recording the expanded state `node` as the parent of some of its
   * unexpanded successors keeps the bookkeeping.
   */
  lemma AdoptKeeps(grid: Grid, s0: State, order: seq<State>, visited: set<State>,
                   parent: map<State, Option<State>>, node: State, ts: seq<State>)
    requires |grid| > 0 && Explored(grid, s0, order, visited, parent)
    requires node in visited
    requires forall t :: t in ts ==> t in Successors(grid, node) && t !in visited
    ensures Explored(grid, s0, order, visited, Adopt(parent, ts, node))
  {
    var p := Adopt(parent, ts, node);
    AdoptLookup(parent, ts, node);
    assert node.b <= s0.b;
    forall t | t in ts ensures t.b < s0.b {
      SuccessorIff(grid, node, t);
    }
    assert ParentTree(grid, p, s0);
  }

  /** The bookkeeping makes `order` a trace. */
  lemma TraceOf(grid: Grid, s0: State, order: seq<State>, visited: set<State>,
                parent: map<State, Option<State>>)
    requires |grid| > 0 && Explored(grid, s0, order, visited, parent) && order != []
    ensures Trace(grid, s0, order)
  {
    forall i | 0 < i < |order| ensures exists j :: 0 <= j < i && order[i] in Successors(grid, order[j]) {
      var p := parent[order[i]].value;
      var j :| 0 <= j < i && order[..i][j] == p;
      assert order[j] == p && order[i] != order[0];
    }
  }

  /**
   * When every successor of an expanded state was expanded, the expanded
   * states hold everything reachable from the start, and none of it is on
   * a goal cell.
   */
  lemma Exhausted(grid: Grid, s0: State, order: seq<State>, visited: set<State>,
                  parent: map<State, Option<State>>)
    requires |grid| > 0 && Explored(grid, s0, order, visited, parent) && order != []
    requires NoGoal(grid, order) && Closed(grid, visited)
    ensures Exhaustive(grid, s0, order)
  {
    assert order[0] in visited;
    ClosedHoldsReachable(grid, visited, s0);
  }

  /** What a search that finds a goal at `order`'s last state returns is sound. */
  lemma FoundSound(grid: Grid, start: Pos, battery: int, order: seq<State>, visited: set<State>,
                   parent: map<State, Option<State>>, res: SearchResult)
    requires |grid| > 0 && order != []
    requires Explored(grid, StartState(start, battery), order, visited, parent)
    requires NoGoal(grid, order[..|order| - 1])
    requires res.visitedOrder == order && res.nodesExpanded == |order|
    requires var last, path := order[|order| - 1], res.path;
      IsGoal(grid, last.r, last.c) && res.finalBattery == Some(last.b) &&
      |path| > 0 && path[0] == PosOf(StartState(start, battery)) &&
      path[|path| - 1] == PosOf(last) && Route(grid, battery, path, last.b)
    ensures Sound(grid, start, battery, res)
  {
    TraceOf(grid, StartState(start, battery), order, visited, parent);
  }

  /** What a search that runs out of frontier returns is sound. */
  lemma ExhaustedSound(grid: Grid, start: Pos, battery: int, order: seq<State>, visited: set<State>,
                       parent: map<State, Option<State>>, res: SearchResult)
    requires |grid| > 0 && order != []
    requires Explored(grid, StartState(start, battery), order, visited, parent)
    requires NoGoal(grid, order) && Closed(grid, visited)
    requires res.visitedOrder == order && res.nodesExpanded == |order|
    requires res.path == [] && res.finalBattery == None
    ensures Sound(grid, start, battery, res)
  {
    TraceOf(grid, StartState(start, battery), order, visited, parent);
    Exhausted(grid, StartState(start, battery), order, visited, parent);
    assert NoGoal(grid, order[..|order| - 1]);
  }

  /** Every successor of an expanded state is expanded or waiting in `frontier`. */
  ghost predicate FrontierClosed(grid: Grid, visited: set<State>, frontier: seq<State>)
    requires |grid| > 0
  {
    forall v, t :: v in visited && t in Successors(grid, v) ==> t in visited || t in frontier
  }

  /**
   * What the `runBFS` and `runBestFS` neighbour loops have pushed once they
   * have walked the first `i` cells of `ps`.
   */
  function FreshUpTo(grid: Grid, s: State, excl: set<State>, ps: seq<Pos>, i: nat): seq<State>
    requires |grid| > 0 && i <= |ps|
  {
    if i == 0 then [] else FreshUpTo(grid, s, excl, ps, i - 1) + Pushed(grid, s, excl, ps[i - 1])
  }

  /** Walking the first `i` cells is walking the prefix of length `i`. */
  lemma {:induction false} FreshUpToPrefix(grid: Grid, s: State, excl: set<State>, ps: seq<Pos>, i: nat)
    requires |grid| > 0 && i <= |ps|
    ensures FreshUpTo(grid, s, excl, ps, i) == Fresh(grid, s, excl, ps[..i])
  {
    if i > 0 {
      FreshUpToPrefix(grid, s, excl, ps, i - 1);
      assert ps[..i] == ps[..i - 1] + [ps[i - 1]];
      FreshSnoc(grid, s, excl, ps[..i - 1], ps[i - 1]);
    }
  }

  /**
   * The guard `!visited.has(nk) && !parent.has(nk)` of the `runBFS` and
   * `runBestFS` neighbour loops, tested against the parent map as the loop
   * has grown it so far, reads the same as testing the map the loop started
   * from: the cells are distinct, so no state on cell `ps[i]` was pushed
   * for an earlier cell.
   */
  lemma NotYetDiscovered(grid: Grid, node: State, visited: set<State>, parent: map<State, Option<State>>,
                         ps: seq<Pos>, i: nat, nk: State)
    requires |grid| > 0 && Distinct(ps) && i < |ps| && PosOf(nk) == ps[i]
    ensures var pushed := FreshUpTo(grid, node, visited + parent.Keys, ps, i);
      (nk !in visited && nk !in Adopt(parent, pushed, node)) <==> nk !in visited + parent.Keys
  {
    var excl := visited + parent.Keys;
    var init := ps[..i];
    var pushed := Fresh(grid, node, excl, init);
    FreshUpToPrefix(grid, node, excl, ps, i);
    FreshDistinct(grid, node, excl, init);
    AdoptLookup(parent, pushed, node);
    forall j | 0 <= j < |pushed| ensures pushed[j] != nk {
      var l :| 0 <= l < |init| && init[l] == PosOf(pushed[j]);
      assert ps[l] != ps[i];
    }
  }

  /**
   * Expanding an unexpanded key `node` (the start state on the first turn)
   * and recording it as the parent of `pushed`, successors of it that are
   * not expanded, keeps the shared bookkeeping.
   */
  lemma ExpandKeeps(grid: Grid, s0: State, order: seq<State>, visited: set<State>,
                    parent: map<State, Option<State>>, node: State, pushed: seq<State>)
    requires |grid| > 0 && Explored(grid, s0, order, visited, parent)
    requires node in parent && node !in visited && (order == [] ==> node == s0)
    requires forall t :: t in pushed ==> t in Successors(grid, node) && t !in visited + {node}
    ensures Explored(grid, s0, order + [node], visited + {node}, Adopt(parent, pushed, node))
  {
    VisitKeeps(grid, s0, order, visited, parent, node);
    AdoptKeeps(grid, s0, order + [node], visited + {node}, parent, node, pushed);
  }

  /**
   * Expanding an unexpanded goal key `node` after states that are not goals,
   * and returning the path rebuilt for it, gives a sound result.
   */
  lemma GoalFound(grid: Grid, start: Pos, battery: int, order: seq<State>, visited: set<State>,
                  parent: map<State, Option<State>>, node: State, res: SearchResult)
    requires |grid| > 0 && Explored(grid, StartState(start, battery), order, visited, parent)
    requires NoGoal(grid, order) && IsGoal(grid, node.r, node.c)
    requires node in parent && node !in visited && (order == [] ==> node == StartState(start, battery))
    requires var path := res.path;
      res.visitedOrder == order + [node] && res.nodesExpanded == |order| + 1 &&
      res.finalBattery == Some(node.b) &&
      |path| > 0 && path[0] == start && path[|path| - 1] == PosOf(node) && Route(grid, battery, path, node.b)
    ensures Sound(grid, start, battery, res)
  {
    VisitKeeps(grid, StartState(start, battery), order, visited, parent, node);
    assert (order + [node])[..|order|] == order;
    FoundSound(grid, start, battery, order + [node], visited + {node}, parent, res);
  }

  /**
   * What the `runBFS` and `runBestFS` neighbour loops push for `node`, once
   * it is expanded: its successors that are neither expanded nor keys of
   * the parent map, each once.
   */
  lemma NeighbourPushes(grid: Grid, visited: set<State>, parent: map<State, Option<State>>, node: State)
    requires |grid| > 0
    ensures var pushed := FreshUpTo(grid, node, visited + {node} + parent.Keys, Neighbors(node.r, node.c), 4);
      Distinct(pushed) &&
      forall t :: t in pushed <==> t in Successors(grid, node) && t !in visited + {node} && t !in parent
  {
    var ns := Neighbors(node.r, node.c);
    var excl := visited + {node} + parent.Keys;
    FreshUpToPrefix(grid, node, excl, ns, 4);
    assert ns[..4] == ns;
    FreshOfNeighbors(grid, node, excl, ns);
    FreshDistinct(grid, node, excl, ns);
  }

  /** On the first turn, with the start state the only key, the loops push exactly its successors. */
  lemma StartPushes(grid: Grid, s0: State, visited: set<State>, parent: map<State, Option<State>>)
    requires |grid| > 0 && visited == {} && parent.Keys == {s0}
    ensures FreshUpTo(grid, s0, visited + {s0} + parent.Keys, Neighbors(s0.r, s0.c), 4) == Successors(grid, s0)
  {
    var ns := Neighbors(s0.r, s0.c);
    assert visited + {s0} + parent.Keys == {s0};
    FreshUpToPrefix(grid, s0, {s0}, ns, 4);
    assert ns[..4] == ns;
    FreshIgnoresSelf(grid, s0, ns);
  }

  /**
   * The same guards read against the parent map as the neighbour loop has
   * grown it: a cell pushes what it would have pushed against the map the
   * loop started from.
   */
  lemma SameGuard(grid: Grid, node: State, visited: set<State>, parent: map<State, Option<State>>,
                  ps: seq<Pos>, i: nat)
    requires |grid| > 0 && Distinct(ps) && i < |ps|
    ensures var grown := Adopt(parent, FreshUpTo(grid, node, visited + parent.Keys, ps, i), node);
      Pushed(grid, node, visited + grown.Keys, ps[i]) == Pushed(grid, node, visited + parent.Keys, ps[i])
  {
    match Step(grid, node, ps[i])
    case None =>
    case Some(nk) =>
      NotYetDiscovered(grid, node, visited, parent, ps, i, nk);
  }

  /**
   * The guard chain of the `runBFS` and `runBestFS` neighbour loops for
   * cell `n`: skip it when out of bounds, when its terrain has no cost,
   * when the battery would go negative, or when the state reached is
   * expanded or already a key of the parent map; otherwise that state.
   */
  method Discover(grid: Grid, node: State, n: Pos, visited: set<State>, parent: map<State, Option<State>>)
    returns (found: Option<State>)
    requires |grid| > 0
    ensures (if found.Some? then [found.value] else []) == Pushed(grid, node, visited + parent.Keys, n)
  {
    if !InBounds(n.r, n.c, |grid|, |grid[0]|) {
      return None;
    }
    var cost := EnterCost(grid, n);
    if cost.None? {
      return None;
    }
    var nb := node.b - cost.value;
    if nb < 0 {
      return None;
    }
    var nk := State(n.r, n.c, nb);
    if nk !in visited && nk !in parent {
      return Some(nk);
    }
    return None;
  }
}
