/**
 * `reconstructPath`: follow the parent map from the goal's key back to the
 * key whose parent is null, collecting each key's cell, then reverse.
 */
module PathReconstruction {
  import opened Wrappers
  import opened StateSpace
  import Keys

  /**
   * The parent map as every driver keeps it: the start state maps to null,
   * and every other key maps to a key of the map of which it is a successor
   * (so it holds less battery than the start).
   */
  ghost predicate ParentTree(grid: Grid, parent: map<State, Option<State>>, root: State)
    requires |grid| > 0
  {
    root in parent && parent[root] == None &&
    forall k {:trigger parent[k]} :: k in parent && k != root ==>
      parent[k].Some? && parent[k].value in parent &&
      k in Successors(grid, parent[k].value) && k.b < root.b
  }

  /**
   * The chain of parents from the start state down to `k`.  It is finite
   * because the battery strictly rises from a key to its parent and never
   * exceeds the start's.
   */
  ghost function Chain(grid: Grid, parent: map<State, Option<State>>, root: State, k: State): (w: seq<State>)
    requires |grid| > 0 && ParentTree(grid, parent, root) && k in parent
    ensures |w| > 0 && w[0] == root && w[|w| - 1] == k
    decreases root.b - k.b
  {
    match parent[k]
    case None => [k]
    case Some(p) =>
      SuccessorIff(grid, p, k);
      Chain(grid, parent, root, p) + [k]
  }

  /** The chain is a walk through the state graph, made of keys of the map. */
  lemma {:induction false} ChainIsWalk(grid: Grid, parent: map<State, Option<State>>, root: State, k: State)
    requires |grid| > 0 && ParentTree(grid, parent, root) && k in parent
    ensures IsWalk(grid, Chain(grid, parent, root, k))
    ensures forall i :: 0 <= i < |Chain(grid, parent, root, k)| ==> Chain(grid, parent, root, k)[i] in parent
    decreases root.b - k.b
  {
    match parent[k]
    case None =>
    case Some(p) =>
      SuccessorIff(grid, p, k);
      ChainIsWalk(grid, parent, root, p);
      var init := Chain(grid, parent, root, p);
      var w := init + [k];
      assert w == Chain(grid, parent, root, k);
      forall i, j | 0 <= i < j < |w| && j == i + 1 ensures w[j] in Successors(grid, w[i]) {
        if j < |init| {
          assert w[i] == init[i] && w[j] == init[j];
        } else {
          assert w[i] == p && w[j] == k;
        }
      }
  }

  /**
   * The cells of the chain start at the start cell, end at `k`'s cell, and
   * replaying them from the start's battery ends at `k`'s battery.
   */
  lemma ChainRoute(grid: Grid, parent: map<State, Option<State>>, root: State, k: State)
    requires |grid| > 0 && ParentTree(grid, parent, root) && k in parent
    ensures var cells := Cells(Chain(grid, parent, root, k));
      cells[0] == PosOf(root) && cells[|cells| - 1] == PosOf(k) && Route(grid, root.b, cells, k.b)
  {
    ChainIsWalk(grid, parent, root, k);
    WalkRoute(grid, Chain(grid, parent, root, k));
  }

  /**
   * One turn of the reconstruction loop: moving from `k` to its parent while
   * pushing `k`'s cell keeps "parent chain, then the reversed cells pushed so far"
   * unchanged, and the battery rises from `k` to its parent.
   */
  lemma ChainLink(grid: Grid, parent: map<State, Option<State>>, root: State, k: State, rev: seq<Pos>)
    requires |grid| > 0 && ParentTree(grid, parent, root) && k in parent
    ensures k.b <= root.b
    ensures parent[k].Some? ==> parent[k].value in parent && k.b < parent[k].value.b
    ensures Cells(Chain(grid, parent, root, k)) + Reverse(rev) ==
              (if parent[k].Some? then Cells(Chain(grid, parent, root, parent[k].value)) else []) +
              Reverse(rev + [PosOf(k)])
  {
    ReverseSnoc(rev, PosOf(k));
    match parent[k]
    case None =>
    case Some(p) =>
      SuccessorIff(grid, p, k);
      var a := Chain(grid, parent, root, p);
      assert Cells(a + [k]) == Cells(a) + Cells([k]);
  }

  /**
   * `reconstructPath(parent, finalKey)`: the cells of the parent chain from
   * the start to `finalKey`.  Each key's cell is read back from its string
   * form with `split(",").map(Number)`, which gives back the row and column.
   * The result starts at the start cell, ends at `finalKey`'s cell, moves
   * between adjacent cells, and replaying its terrain costs from the start's
   * battery never goes negative and ends at `finalKey`'s battery.
   */
  method ReconstructPath(ghost grid: Grid, parent: map<State, Option<State>>, ghost root: State, finalKey: State)
    returns (path: seq<Pos>)
    requires |grid| > 0 && ParentTree(grid, parent, root) && finalKey in parent
    ensures path == Cells(Chain(grid, parent, root, finalKey))
    ensures |path| > 0 && path[0] == PosOf(root) && path[|path| - 1] == PosOf(finalKey)
    ensures Route(grid, root.b, path, finalKey.b)
  {
    ghost var w := Chain(grid, parent, root, finalKey);
    var rev: seq<Pos> := [];
    var cur: Option<State> := Some(finalKey);
    while cur.Some?
      invariant cur.Some? ==> cur.value in parent
      invariant Cells(w) == (if cur.Some? then Cells(Chain(grid, parent, root, cur.value)) else []) + Reverse(rev)
      decreases if cur.Some? then root.b - cur.value.b + 1 else 0
    {
      var s := cur.value;
      var cell := Keys.KeyCell(s);
      ChainLink(grid, parent, root, s, rev);
      rev := rev + [cell];
      cur := if s in parent then parent[s] else None;
    }
    path := Reverse(rev);
    ChainRoute(grid, parent, root, finalKey);
  }
}
