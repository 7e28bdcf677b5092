/**
 * The expanded-state graph the three search drivers walk: grid lookup,
 * terrain costs, the four neighbours of a cell, the feasibility test that
 * turns a neighbour into a successor state, the goal test, and the
 * Manhattan heuristic.  Also the notions the drivers are proved against:
 * walks through the state graph, reachability, and replaying a route of
 * cells against the battery.
 */
module StateSpace {
  import opened Wrappers

  /** A cell of the grid, `[r, c]` in the source. */
  datatype Pos = Pos(r: int, c: int)

  /** An expanded state `{ r, c, b }`: a cell and the battery left on arriving there. */
  datatype State = State(r: int, c: int, b: int)

  /** Rows of terrain symbols; the symbols are strings such as "F", "H", "D", "G". */
  type Grid = seq<seq<string>>

  function PosOf(s: State): Pos
  {
    Pos(s.r, s.c)
  }

  function Abs(x: int): nat
  {
    if x < 0 then -x else x
  }

  /**
   * The lookup `TERRAIN_COSTS[t]`: flat and goal cells cost 2, hills 4.
   * A ditch is listed with cost null, and any other symbol the grid can hold
   * is missing from the table; the drivers test `cost == null`, so both are
   * impassable.
   */
  function TerrainCost(t: string): (cost: Option<int>)
    ensures cost.Some? ==> cost.value == 2 || cost.value == 4
    ensures t == "D" ==> cost == None
    ensures cost.None? <==> t != "F" && t != "H" && t != "G"
  {
    if t == "F" || t == "G" then Some(2)
    else if t == "H" then Some(4)
    else None
  }

  predicate InBounds(r: int, c: int, rows: int, cols: int)
  {
    r >= 0 && c >= 0 && r < rows && c < cols
  }

  /**
   * `grid[r][c]` for a row the grid has.  None stands for the `undefined`
   * that JavaScript reads past the end of a short row or at a negative column.
   */
  function Cell(grid: Grid, r: int, c: int): Option<string>
  {
    if 0 <= r < |grid| && 0 <= c < |grid[r]| then Some(grid[r][c]) else None
  }

  /** The battery it costs to enter cell `p`, or None when `p` cannot be entered. */
  function EnterCost(grid: Grid, p: Pos): Option<int>
  {
    match Cell(grid, p.r, p.c)
    case None => None
    case Some(t) => TerrainCost(t)
  }

  /** Cells `a` and `b` share a side. */
  predicate Adjacent(a: Pos, b: Pos)
  {
    Abs(a.r - b.r) + Abs(a.c - b.c) == 1
  }

  /** Manhattan distance, the best-first heuristic. */
  function Manhattan(a: Pos, b: Pos): (d: nat)
    ensures d == 0 <==> a == b
  {
    Abs(a.r - b.r) + Abs(a.c - b.c)
  }

  /** The four neighbours of `(r, c)`, in the source's order: up, down, left, right. */
  function Neighbors(r: int, c: int): (ns: seq<Pos>)
    ensures |ns| == 4
    ensures forall i :: 0 <= i < 4 ==> Adjacent(Pos(r, c), ns[i])
    ensures forall i, j :: 0 <= i < j < 4 ==> ns[i] != ns[j]
    ensures ns[0].r < r && ns[1].r > r && ns[2].c < c && ns[3].c > c
  {
    [Pos(r - 1, c), Pos(r + 1, c), Pos(r, c - 1), Pos(r, c + 1)]
  }

  /** `grid[r][c] === "G"`: any goal-marked cell accepts, not only the caller's goal. */
  predicate IsGoal(grid: Grid, r: int, c: int)
  {
    Cell(grid, r, c) == Some("G")
  }

  /**
   * The guard chain of the neighbour loop for one neighbour `n` of state `s`:
   * skip it when out of bounds, when its terrain has no cost, or when the
   * battery left would be negative; otherwise the new state.
   */
  function Step(grid: Grid, s: State, n: Pos): Option<State>
    requires |grid| > 0
  {
    if !InBounds(n.r, n.c, |grid|, |grid[0]|) then None
    else match EnterCost(grid, n)
      case None => None
      case Some(cost) => if s.b - cost < 0 then None else Some(State(n.r, n.c, s.b - cost))
  }

  /**
   * The states the neighbour loop pushes when it walks the cells `ps` in
   * order from state `s`, skipping infeasible cells and states in `excl`.
   */
  function Fresh(grid: Grid, s: State, excl: set<State>, ps: seq<Pos>): (ts: seq<State>)
    requires |grid| > 0
    ensures |ts| <= |ps|
    decreases |ps|
  {
    if ps == [] then []
    else Fresh(grid, s, excl, ps[..|ps| - 1]) + Pushed(grid, s, excl, ps[|ps| - 1])
  }

  /**
   * The neighbour loop pushes exactly the states outside `excl` that some
   * cell of `ps` leads to.
   */
  lemma {:induction false} FreshMembers(grid: Grid, s: State, excl: set<State>, ps: seq<Pos>)
    requires |grid| > 0
    ensures forall t :: t in Fresh(grid, s, excl, ps) <==>
              t !in excl && exists i :: 0 <= i < |ps| && Step(grid, s, ps[i]) == Some(t)
    decreases |ps|
  {
    if ps != [] {
      var init := ps[..|ps| - 1];
      FreshMembers(grid, s, excl, init);
      assert forall i :: 0 <= i < |init| ==> init[i] == ps[i];
    }
  }

  /** What the neighbour loop pushes for the one cell `n`: nothing or one state. */
  function Pushed(grid: Grid, s: State, excl: set<State>, n: Pos): (ts: seq<State>)
    requires |grid| > 0
    ensures |ts| <= 1
  {
    match Step(grid, s, n)
    case None => []
    case Some(t) => if t in excl then [] else [t]
  }

  /** Walking one more cell pushes what that cell pushes, after the rest. */
  lemma FreshSnoc(grid: Grid, s: State, excl: set<State>, ps: seq<Pos>, n: Pos)
    requires |grid| > 0
    ensures Fresh(grid, s, excl, ps + [n]) == Fresh(grid, s, excl, ps) + Pushed(grid, s, excl, n)
  {
    var q := ps + [n];
    assert q[..|q| - 1] == ps;
  }

  /** Walking two lists of cells one after the other pushes what each pushes, in turn. */
  lemma {:induction false} FreshAppend(grid: Grid, s: State, excl: set<State>, a: seq<Pos>, b: seq<Pos>)
    requires |grid| > 0
    ensures Fresh(grid, s, excl, a + b) == Fresh(grid, s, excl, a) + Fresh(grid, s, excl, b)
    decreases |b|
  {
    if b == [] {
      assert a + b == a;
    } else {
      var b', n := b[..|b| - 1], b[|b| - 1];
      assert b == b' + [n];
      assert a + b == (a + b') + [n];
      FreshSnoc(grid, s, excl, a + b', n);
      FreshSnoc(grid, s, excl, b', n);
      FreshAppend(grid, s, excl, a, b');
      var fa, fb', p := Fresh(grid, s, excl, a), Fresh(grid, s, excl, b'), Pushed(grid, s, excl, n);
      calc {
        Fresh(grid, s, excl, a + b);
        Fresh(grid, s, excl, a + b') + p;
        (fa + fb') + p;
        { assert (fa + fb') + p == fa + (fb' + p); }
        fa + (fb' + p);
        fa + Fresh(grid, s, excl, b);
      }
    }
  }

  /** Walking the cells in reverse order pushes the same states in reverse order. */
  lemma {:induction false} FreshReverse(grid: Grid, s: State, excl: set<State>, ps: seq<Pos>)
    requires |grid| > 0
    ensures Fresh(grid, s, excl, Reverse(ps)) == Reverse(Fresh(grid, s, excl, ps))
    decreases |ps|
  {
    if ps != [] {
      var head, tail := [ps[0]], ps[1..];
      assert ps == head + tail;
      FreshReverse(grid, s, excl, tail);
      FreshAppend(grid, s, excl, Reverse(tail), head);
      FreshAppend(grid, s, excl, head, tail);
      var one := Fresh(grid, s, excl, head);
      assert head[..0] == [];
      assert one == Pushed(grid, s, excl, ps[0]);
      ReverseAppend(one, Fresh(grid, s, excl, tail));
      assert Reverse(one) == one;
    }
  }

  /** No move leads back to the state it starts from, so excluding that state changes nothing. */
  lemma {:induction false} FreshIgnoresSelf(grid: Grid, s: State, ps: seq<Pos>)
    requires |grid| > 0
    ensures Fresh(grid, s, {s}, ps) == Fresh(grid, s, {}, ps)
    decreases |ps|
  {
    if ps != [] {
      FreshIgnoresSelf(grid, s, ps[..|ps| - 1]);
    }
  }

  /** All successor states of `s`, in the order up, down, left, right. */
  function Successors(grid: Grid, s: State): seq<State>
    requires |grid| > 0
  {
    Fresh(grid, s, {}, Neighbors(s.r, s.c))
  }

  /**
   * Walking the four neighbours in any order, skipping `excl`, pushes
   * exactly the successors not in `excl`.
   */
  lemma FreshOfNeighbors(grid: Grid, s: State, excl: set<State>, ps: seq<Pos>)
    requires |grid| > 0
    requires forall n :: n in ps <==> n in Neighbors(s.r, s.c)
    ensures forall t :: t in Fresh(grid, s, excl, ps) <==> t in Successors(grid, s) && t !in excl
  {
    var ns := Neighbors(s.r, s.c);
    FreshMembers(grid, s, {}, ns);
    FreshMembers(grid, s, excl, ps);
    forall t | t in Successors(grid, s) && t !in excl ensures t in Fresh(grid, s, excl, ps) {
      var i :| 0 <= i < |ns| && Step(grid, s, ns[i]) == Some(t);
      assert ns[i] in ns;
      var j :| 0 <= j < |ps| && ps[j] == ns[i];
    }
    forall t | t in Fresh(grid, s, excl, ps) ensures t in Successors(grid, s) {
      var j :| 0 <= j < |ps| && Step(grid, s, ps[j]) == Some(t);
      assert ps[j] in ps;
      var i :| 0 <= i < |ns| && ns[i] == ps[j];
    }
  }

  /** Distinct cells give distinct states: every pushed state sits on its own cell. */
  lemma {:induction false} FreshDistinct(grid: Grid, s: State, excl: set<State>, ps: seq<Pos>)
    requires |grid| > 0 && Distinct(ps)
    ensures Distinct(Fresh(grid, s, excl, ps))
    ensures forall i :: 0 <= i < |Fresh(grid, s, excl, ps)| ==> PosOf(Fresh(grid, s, excl, ps)[i]) in ps
    decreases |ps|
  {
    if ps != [] {
      var init, n := ps[..|ps| - 1], ps[|ps| - 1];
      assert ps == init + [n];
      FreshDistinct(grid, s, excl, init);
      FreshSnoc(grid, s, excl, init, n);
      var a, b := Fresh(grid, s, excl, init), Pushed(grid, s, excl, n);
      forall i | 0 <= i < |a| ensures PosOf(a[i]) != n && PosOf(a[i]) in ps {
        var j :| 0 <= j < |init| && init[j] == PosOf(a[i]);
        assert ps[j] == init[j];
      }
      forall t | t in b ensures PosOf(t) == n {
      }
    }
  }

  /**
   * A state `t` is a successor of `s` exactly when its cell is an in-bounds
   * neighbour of `s`'s cell whose terrain has a cost, and the battery at `t`
   * is `s`'s battery less that cost and not negative.  Entering a cell costs
   * 2 or 4, so the battery strictly drops on every move.
   */
  lemma SuccessorIff(grid: Grid, s: State, t: State)
    requires |grid| > 0
    ensures t in Successors(grid, s) <==>
              Adjacent(PosOf(s), PosOf(t)) && InBounds(t.r, t.c, |grid|, |grid[0]|) &&
              EnterCost(grid, PosOf(t)) == Some(s.b - t.b) && t.b >= 0
    ensures t in Successors(grid, s) ==> s.b - t.b == 2 || s.b - t.b == 4
  {
    var ns := Neighbors(s.r, s.c);
    FreshMembers(grid, s, {}, ns);
    if Adjacent(PosOf(s), PosOf(t)) && InBounds(t.r, t.c, |grid|, |grid[0]|) &&
       EnterCost(grid, PosOf(t)) == Some(s.b - t.b) && t.b >= 0 {
      var i := if t.r < s.r then 0 else if t.r > s.r then 1 else if t.c < s.c then 2 else 3;
      assert ns[i] == PosOf(t);
      assert Step(grid, s, ns[i]) == Some(t);
    }
  }

  /** Consecutive states of `w` are successor and predecessor: a run of moves. */
  ghost predicate IsWalk(grid: Grid, w: seq<State>)
    requires |grid| > 0
  {
    |w| > 0 && forall i, j :: 0 <= i < j < |w| && j == i + 1 ==> w[j] in Successors(grid, w[i])
  }

  ghost predicate Reachable(grid: Grid, from: State, to: State)
    requires |grid| > 0
  {
    exists w :: IsWalk(grid, w) && w[0] == from && w[|w| - 1] == to
  }

  /** Every successor of a state in `v` is in `v`. */
  ghost predicate Closed(grid: Grid, v: set<State>)
    requires |grid| > 0
  {
    forall s, t :: s in v && t in Successors(grid, s) ==> t in v
  }

  /**
   * Replaying the cells of `path` from battery `b`: each step enters an
   * adjacent cell that has a terrain cost, the battery stays non-negative
   * after paying it, and what is left at the last cell is `bEnd`.
   */
  ghost predicate Route(grid: Grid, b: int, path: seq<Pos>, bEnd: int)
    decreases |path|
  {
    |path| > 0 &&
    if |path| == 1 then b == bEnd
    else
      Adjacent(path[0], path[1]) &&
      match EnterCost(grid, path[1])
      case None => false
      case Some(cost) => b - cost >= 0 && Route(grid, b - cost, path[1..], bEnd)
  }

  /** The cells a run of states passes through. */
  function Cells(w: seq<State>): (p: seq<Pos>)
    ensures |p| == |w|
    ensures forall i :: 0 <= i < |w| ==> p[i] == PosOf(w[i])
  {
    if w == [] then [] else [PosOf(w[0])] + Cells(w[1..])
  }

  /** A move to a successor, prepended to a route from that successor, is a route. */
  lemma RouteCons(grid: Grid, s: State, t: State, rest: seq<Pos>, bEnd: int)
    requires |grid| > 0 && t in Successors(grid, s)
    requires |rest| > 0 && rest[0] == PosOf(t) && Route(grid, t.b, rest, bEnd)
    ensures Route(grid, s.b, [PosOf(s)] + rest, bEnd)
  {
    SuccessorIff(grid, s, t);
    assert ([PosOf(s)] + rest)[1..] == rest;
  }

  /** The suffix of a walk is a walk. */
  lemma WalkTail(grid: Grid, w: seq<State>)
    requires |grid| > 0 && IsWalk(grid, w) && |w| > 1
    ensures IsWalk(grid, w[1..])
  {
    var rest := w[1..];
    forall i, j | 0 <= i < j < |rest| && j == i + 1 ensures rest[j] in Successors(grid, rest[i]) {
      assert rest[i] == w[i + 1] && rest[j] == w[j + 1];
    }
  }

  /** The cells of a walk form a route that replays exactly the walk's batteries. */
  lemma {:induction false} WalkRoute(grid: Grid, w: seq<State>)
    requires |grid| > 0 && IsWalk(grid, w)
    ensures Route(grid, w[0].b, Cells(w), w[|w| - 1].b)
    decreases |w|
  {
    if |w| > 1 {
      var rest := w[1..];
      WalkTail(grid, w);
      WalkRoute(grid, rest);
      assert w[0] == w[0] && w[1] in Successors(grid, w[0]);
      RouteCons(grid, w[0], w[1], Cells(rest), w[|w| - 1].b);
    }
  }

  /** A set that holds the first state of a walk and is closed under successors holds the whole walk. */
  lemma {:induction false} ClosedHoldsWalk(grid: Grid, v: set<State>, w: seq<State>)
    requires |grid| > 0 && Closed(grid, v) && IsWalk(grid, w) && w[0] in v
    ensures forall i :: 0 <= i < |w| ==> w[i] in v
    decreases |w|
  {
    if |w| > 1 {
      var init := w[..|w| - 1];
      assert IsWalk(grid, init) by {
        forall i, j | 0 <= i < j < |init| && j == i + 1 ensures init[j] in Successors(grid, init[i]) {
          assert init[i] == w[i] && init[j] == w[j];
        }
      }
      ClosedHoldsWalk(grid, v, init);
      assert w[|w| - 2] == init[|init| - 1];
    }
  }

  /** Exhaustive search: a closed set holding `from` holds every state reachable from it. */
  lemma ClosedHoldsReachable(grid: Grid, v: set<State>, from: State)
    requires |grid| > 0 && Closed(grid, v) && from in v
    ensures forall t :: Reachable(grid, from, t) ==> t in v
  {
    forall t | Reachable(grid, from, t) ensures t in v {
      var w :| IsWalk(grid, w) && w[0] == from && w[|w| - 1] == t;
      ClosedHoldsWalk(grid, v, w);
    }
  }

  /** Sequence reversal, as `Array.prototype.reverse` leaves an array. */
  function Reverse<T>(s: seq<T>): (r: seq<T>)
    ensures |r| == |s|
    ensures forall i :: 0 <= i < |s| ==> r[i] == s[|s| - 1 - i]
  {
    if s == [] then [] else Reverse(s[1..]) + [s[0]]
  }

  /** Reversing a suffix from `i` puts `s[i]` after the reversed suffix from `i + 1`. */
  lemma ReverseFrom<T>(s: seq<T>, i: nat)
    requires i < |s|
    ensures Reverse(s[i..]) == Reverse(s[i + 1..]) + [s[i]]
  {
    assert s[i..][1..] == s[i + 1..];
  }

  lemma ReverseSnoc<T>(s: seq<T>, x: T)
    ensures Reverse(s + [x]) == [x] + Reverse(s)
  {
    var a, b := Reverse(s + [x]), [x] + Reverse(s);
    forall i | 0 <= i < |a| ensures a[i] == b[i] {
      if i > 0 {
        assert a[i] == (s + [x])[|s| - i] == s[|s| - i];
      }
    }
  }

  lemma ReverseAppend<T>(a: seq<T>, b: seq<T>)
    ensures Reverse(a + b) == Reverse(b) + Reverse(a)
  {
    var l, r := Reverse(a + b), Reverse(b) + Reverse(a);
    forall i | 0 <= i < |l| ensures l[i] == r[i] {
      if i < |b| {
        assert l[i] == (a + b)[|a| + |b| - 1 - i];
      } else {
        assert l[i] == (a + b)[|a| + |b| - 1 - i];
      }
    }
  }

  lemma ReverseMembers<T>(s: seq<T>)
    ensures forall x :: x in Reverse(s) <==> x in s
  {
    var r := Reverse(s);
    forall x | x in s ensures x in r {
      var i :| 0 <= i < |s| && s[i] == x;
      assert r[|s| - 1 - i] == x;
    }
  }

  /** An element of a non-empty sequence is its last element or an element of the rest. */
  lemma DropLast<T>(s: seq<T>)
    requires |s| > 0
    ensures forall x :: x in s ==> x == s[|s| - 1] || x in s[..|s| - 1]
  {
    forall x | x in s && x != s[|s| - 1] ensures x in s[..|s| - 1] {
      var j :| 0 <= j < |s| && s[j] == x;
      assert s[..|s| - 1][j] == x;
    }
  }

  /** No element occurs twice. */
  predicate Distinct<T(==)>(s: seq<T>)
  {
    forall i, j :: 0 <= i < j < |s| ==> s[i] != s[j]
  }

  lemma DistinctAppend<T>(a: seq<T>, b: seq<T>)
    requires Distinct(a) && Distinct(b)
    requires forall x :: x in b ==> x !in a
    ensures Distinct(a + b)
  {
    var ab := a + b;
    forall i, j | 0 <= i < j < |ab| ensures ab[i] != ab[j] {
      if j < |a| {
        assert ab[i] == a[i] && ab[j] == a[j];
      } else if i < |a| {
        assert ab[i] == a[i] && ab[j] == b[j - |a|];
        assert b[j - |a|] in b && a[i] in a;
      } else {
        assert ab[i] == b[i - |a|] && ab[j] == b[j - |a|];
      }
    }
  }
}
