# Rover state-space search, modelled in Dafny

A rover crosses a grid of terrain cells. Each move to an adjacent cell costs
battery: flat and goal cells cost 2, hills cost 4, and ditches cannot be
entered. The search engine explores *expanded states*. An expanded state is a
cell together with the battery left on arriving there. The engine has three
drivers:

- `runDFS`: depth-first, with an explicit stack;
- `runBFS`: breadth-first, with a FIFO queue;
- `runBestFS`: greedy best-first, with a binary `MinHeap` keyed by the
  Manhattan distance to the caller's goal.

Each driver returns its visit order, the path of cells to the first goal it
expands, the node count and the battery left at that goal.

The model has these modules:

- `StateSpace` (`state_space.dfy`): the terrain table, bounds, neighbours,
  the goal test and Manhattan distance. `Step` is the guard chain that turns
  a neighbour into a successor state, and `Fresh` is what one pass of the
  neighbour loop pushes. The module also defines walks, reachability and
  battery-respecting routes, which the drivers are proved against.
- `Keys` (`keys.dfy`): the `"r,c,b"` key format. It proves that
  `split(",").map(Number)` reads a key back exactly and that keys are
  collision-free.
- `PathReconstruction` (`reconstruct.dfy`): `reconstructPath`, proved to
  return the chain of parents from the start to the goal as a route that
  respects the battery.
- `PriorityQueue` (`min_heap.dfy`): the `MinHeap` class. Its `heap` field is
  a sequence that `Push`, `Pop`, `SiftUp` and `SiftDown` reassign. All four
  keep the heap order. `Push` adds exactly one entry, `Pop` removes exactly
  the least one, and the two sift methods keep the multiset of entries.
- `Search` (`search.dfy`): what the drivers share. It defines the result
  record and what a *sound* result is: the visit order is a trace from the
  start, and either the last state is a goal reached along a valid route, or
  every reachable state was expanded and none is a goal. It also holds the
  bookkeeping invariants and the neighbour-loop guard (`Discover`).
- `DepthFirst`, `BreadthFirst`, `BestFirst` (`dfs.dfy`, `bfs.dfy`,
  `best_first.dfy`): the three drivers. Each is a `while` loop over its
  frontier and is proved sound. Each driver also has a property specific to
  its expansion order.

Keys are modelled as `State` values. Sets and maps over states stand for the
source's `Set` and `Map` of key strings, which is justified by `Keys.KeyInjective`.

## Model

| member | source | states |
|---|---|---|
| StateSpace.TerrainCost | src/utils/algorithms.js:4 | flat and goal cost 2 and hills 4; a ditch and any other symbol the grid can hold have no cost, so the drivers treat them as impassable |
| StateSpace.InBounds | src/utils/algorithms.js:6-8 | the cell lies in rows 0 to rows - 1 and columns 0 to cols - 1; partner `SuccessorIff`: every successor is in bounds |
| StateSpace.Manhattan | src/utils/algorithms.js:30-32 | the distance is a natural number, and it is zero exactly when the two cells coincide |
| StateSpace.Neighbors | src/utils/algorithms.js:10-17 | four distinct cells, each adjacent to (r, c), in the order up, down, left, right |
| StateSpace.IsGoal | src/utils/algorithms.js:19-21 | a cell is a goal exactly when it holds "G", whichever goal the caller passed; partner `Search.Sound`: only the last expanded state of a run may be a goal, and a run that ends without one expanded every reachable state |
| StateSpace.Step | src/utils/algorithms.js:118-123 | the guard chain for one neighbour: out of bounds, no terrain cost or a negative battery skip it, otherwise the state on that cell with the cost paid; partner `SuccessorIff`, which states the same test without the chain |
| StateSpace.Successors | src/utils/algorithms.js:117-123 | the feasible states one move away, in neighbour order; partner `SuccessorIff`: t is a successor exactly when its cell is adjacent and in bounds, it pays that cell's cost and its battery is not negative |
| StateSpace.FreshMembers | src/utils/algorithms.js:117-129 | the neighbour loop pushes exactly the non-excluded states that some cell of the loop leads to |
| StateSpace.FreshAppend | src/utils/algorithms.js:117-129 | walking two runs of cells one after the other pushes the concatenation of what each run pushes |
| StateSpace.FreshReverse | src/utils/algorithms.js:74-88 | walking the neighbours backwards, as runDFS does, pushes the forward result reversed |
| StateSpace.FreshIgnoresSelf | src/utils/algorithms.js:84 | excluding the expanding state itself changes nothing, because a move always changes the cell |
| StateSpace.FreshOfNeighbors | src/utils/algorithms.js:117-129 | walking any arrangement of the four neighbours pushes exactly the successors that are not excluded |
| StateSpace.FreshDistinct | src/utils/algorithms.js:117-129 | over distinct cells, the loop pushes distinct states, each on one of those cells |
| StateSpace.SuccessorIff | src/utils/algorithms.js:117-124 | t is a successor of s if and only if its cell is adjacent and in bounds, its terrain costs s.b - t.b, and t.b is not negative; that cost is 2 or 4 |
| StateSpace.Cells | src/utils/algorithms.js:42 | the path keeps one cell per state, in order |
| StateSpace.RouteCons | src/utils/algorithms.js:117-128 | a successor step in front of a valid route is a valid route |
| StateSpace.WalkRoute | src/utils/algorithms.js:117-128 | the cells of a walk of successor states form a route that spends exactly the battery difference |
| StateSpace.ClosedHoldsReachable | src/utils/algorithms.js:117-129 | a set of states closed under successors contains every state reachable from its members |
| StateSpace.Reverse | src/utils/algorithms.js:45 | `path.reverse()`: the same length, with element i taken from the other end |
| StateSpace.ReverseAppend | src/utils/algorithms.js:45 | reversing a concatenation reverses and swaps the two parts |
| StateSpace.ReverseMembers | src/utils/algorithms.js:45 | reversing keeps the same members |
| StateSpace.DistinctAppend | src/utils/algorithms.js:125-128 | appending states not yet present to a duplicate-free queue keeps it duplicate-free |
| Keys.IntToString | src/utils/algorithms.js:24 | the decimal rendering of an integer never contains a comma |
| Keys.Key | src/utils/algorithms.js:23-25 | the key template `${r},${c},${b}`; partners `KeyRoundTrip` (the key reads back as r, c and b) and `KeyInjective` (distinct states have distinct keys) |
| Keys.Number | src/utils/algorithms.js:41 | `Number` on a decimal integer, none for anything else; partner `NumberRoundTrip`: it reads back every integer the template writes |
| Keys.Split | src/utils/algorithms.js:41 | `split(",")`: the pieces between commas, at least one; partner `SplitThree`: three comma-free fields joined by commas split back into those fields |
| Keys.KeyFields | src/utils/algorithms.js:41 | `split(",").map(Number)` of a key; partner `KeyRoundTrip`: on a key it gives r, c and b |
| Keys.NumberRoundTrip | src/utils/algorithms.js:24 | `Number` reads back every integer that the key template writes |
| Keys.SplitThree | src/utils/algorithms.js:41 | `split(",")` of three comma-free fields joined by commas gives back the three fields |
| Keys.KeyRoundTrip | src/utils/algorithms.js:23-25 | splitting a key and mapping `Number` gives back r, c and b |
| Keys.KeyCell | src/utils/algorithms.js:41-42 | the cell reconstructPath reads out of a key is the state's cell |
| Keys.KeyInjective | src/utils/algorithms.js:23-25 | distinct states have distinct keys |
| PathReconstruction.Chain | src/utils/algorithms.js:37-44 | the parent chain starts at the start state and ends at the key |
| PathReconstruction.ChainIsWalk | src/utils/algorithms.js:37-44 | the parent chain is a walk through successor states, all of them keys of the map |
| PathReconstruction.ChainRoute | src/utils/algorithms.js:35-47 | the chain's cells run from the start cell to the key's cell and form a valid route |
| PathReconstruction.ChainLink | src/utils/algorithms.js:38-44 | one turn of the loop moves the current key to its parent, whose battery is strictly greater, so the loop ends |
| PathReconstruction.ReconstructPath | src/utils/algorithms.js:35-47 | the path is the reversed parent chain: it runs from the start cell to the final key's cell and is a route that the battery can pay |
| PriorityQueue.Parent | src/utils/priorityQueue.js:22 | `Math.floor((i - 1) / 2)`; partner `ParentIndex`: for i > 0 it is an earlier position of which i is the left or right child |
| PriorityQueue.ParentIndex | src/utils/priorityQueue.js:22 | for every position i > 0, the parent index is at least 0 and below i, and i is its left child (2p + 1) or right child (2p + 2) |
| PriorityQueue.RootIsMin | src/utils/priorityQueue.js:20-27 | under the heap order, the root's priority is at most that of every entry |
| PriorityQueue.RootIsLeast | src/utils/priorityQueue.js:10-12 | the entry pop returns has the least priority of all entries |
| PriorityQueue.LastToRoot | src/utils/priorityQueue.js:13-16 | moving the last entry to the root removes exactly the old root and leaves the heap broken only below the root |
| PriorityQueue.LastToRootElements | src/utils/priorityQueue.js:13-15 | moving the last entry to the root removes exactly one copy of the root from the multiset |
| PriorityQueue.SiftDownStep | src/utils/priorityQueue.js:31-38 | swapping a node with its smaller child, when that child is smaller, moves the only defect one level down |
| PriorityQueue.SiftDownDone | src/utils/priorityQueue.js:36 | when no child is smaller, the heap order holds everywhere |
| PriorityQueue.SiftUpStep | src/utils/priorityQueue.js:22-25 | swapping a node with a strictly greater parent moves the only defect one level up |
| PriorityQueue.SiftUpDone | src/utils/priorityQueue.js:21-23 | at the root, or when the parent is not greater, the heap order holds everywhere |
| PriorityQueue.Swap | src/utils/priorityQueue.js:24 | the destructuring swap exchanges two entries, leaves the rest alone and keeps the multiset |
| PriorityQueue.MinHeap.constructor | src/utils/priorityQueue.js:2-4 | a new heap is empty and valid |
| PriorityQueue.MinHeap.Size | src/utils/priorityQueue.js:5 | the number of entries held |
| PriorityQueue.MinHeap.Push | src/utils/priorityQueue.js:6-9 | keeps the heap order, adds exactly the entry (item, priority), and grows the size by one |
| PriorityQueue.MinHeap.Pop | src/utils/priorityQueue.js:10-19 | an empty heap yields none; otherwise it returns the root's item, whose priority is least, removes exactly that entry and keeps the heap order |
| PriorityQueue.MinHeap.SiftUp | src/utils/priorityQueue.js:20-27 | from a heap broken only above index i, restores the heap order by swaps alone (same entries, same size) |
| PriorityQueue.MinHeap.SiftDown | src/utils/priorityQueue.js:28-40 | from a heap broken only below index i, restores the heap order by swaps alone (same entries, same size) |
| Search.NoGoalSnoc | src/utils/algorithms.js:68-71 | expanding a non-goal keeps every expanded state a non-goal |
| Search.AdoptLookup | src/utils/algorithms.js:127 | after recording p as the parent of each pushed state, the keys are the old keys plus the pushed states, and the pushed states map to p |
| Search.InUniverse | src/utils/algorithms.js:122-127 | every recorded key is an in-bounds cell with a battery between 0 and the start's, so the set of keys is finite |
| Search.VisitKeeps | src/utils/algorithms.js:108-110 | marking a recorded, unexpanded state as visited and appending it to the visit order keeps the bookkeeping |
| Search.VisitShrinks | src/utils/algorithms.js:105-110 | each expansion shrinks the finite set of unexpanded states, so every driver stops |
| Search.AdoptKeeps | src/utils/algorithms.js:125-128 | recording an expanded state as the parent of unexpanded successors keeps the parent map a tree rooted at the start |
| Search.ExpandKeeps | src/utils/algorithms.js:107-128 | one expansion (mark visited, append, record the successors' parent) keeps the bookkeeping |
| Search.TraceOf | src/utils/algorithms.js:105-110 | the visit order starts at the start state, never repeats a state, and each later state is a successor of an earlier one |
| Search.Exhausted | src/utils/algorithms.js:130-131 | once the expanded set is closed under successors, every reachable state was expanded and none is a goal |
| Search.FoundSound | src/utils/algorithms.js:112-114 | a result that reports the last expanded state as a goal, with its battery and a valid route, is sound |
| Search.ExhaustedSound | src/utils/algorithms.js:131 | the empty-path, null-battery result after an exhaustive search is sound |
| Search.FreshUpToPrefix | src/utils/algorithms.js:117-129 | after i turns of the forward neighbour loop, the pushed states are what the first i cells yield |
| Search.NotYetDiscovered | src/utils/algorithms.js:125 | the test "not visited and not yet a key", checked against the growing parent map, agrees with the test against the map before the loop, because distinct cells give distinct states |
| Search.SameGuard | src/utils/algorithms.js:125 | the guard for neighbour i gives the same answer whether it sees the parent map as grown so far in the loop or as it was before the loop |
| Search.NeighbourPushes | src/utils/algorithms.js:117-129 | a full neighbour loop pushes distinct states: exactly the successors that are neither expanded nor already keys |
| Search.StartPushes | src/utils/algorithms.js:101-103 | on the first turn, the loop pushes every successor of the start, in neighbour order |
| Search.GoalFound | src/utils/algorithms.js:112-115 | a goal state popped and expanded yields a sound result |
| Search.Discover | src/utils/algorithms.js:118-125 | the continue-chain yields the new state exactly when it is in bounds, has a terrain cost, leaves a non-negative battery and is neither visited nor a key |
| DepthFirst.FirstPushReversed | src/utils/algorithms.js:74-88 | on the first turn the stack receives the start's successors in reverse, so the first successor ends up on top |
| DepthFirst.DfsSkip | src/utils/algorithms.js:62-64 | discarding a stale, already-visited entry keeps the loop invariant |
| DepthFirst.ClosedAfterPush | src/utils/algorithms.js:61-88 | every successor of an expanded state is expanded or on the stack |
| DepthFirst.OpeningAfterPush | src/utils/algorithms.js:58-88 | the stack begins with the start state and then holds its first push |
| DepthFirst.DfsPushedMembers | src/utils/algorithms.js:74-88 | runDFS pushes exactly the successors not yet visited |
| DepthFirst.DfsExpandExplored | src/utils/algorithms.js:62-88 | one expansion keeps the shared bookkeeping, and every stacked state stays a key |
| DepthFirst.DfsDone | src/utils/algorithms.js:89-90 | an empty stack means the start was expanded and the expanded set is closed under successors |
| DepthFirst.DfsExpand | src/utils/algorithms.js:62-88 | expanding the popped state keeps the loop invariant |
| DepthFirst.DfsFirstChild | src/utils/algorithms.js:61-66 | runDFS expands, second, the first successor of the start state |
| DepthFirst.DfsFound | src/utils/algorithms.js:68-71 | the goal result of runDFS is sound |
| DepthFirst.DfsPopFirstChild | src/utils/algorithms.js:62-66 | popping keeps the property that the second expanded state is the start's first successor |
| DepthFirst.DfsExhausted | src/utils/algorithms.js:90 | the failure result of runDFS is sound |
| DepthFirst.FreshDownReverse | src/utils/algorithms.js:75 | the downward loop from index i pushes what the reversed tail of the neighbours yields |
| DepthFirst.DfsStep | src/utils/algorithms.js:62-88 | one full non-goal turn keeps the loop invariant and shrinks the unexpanded set |
| DepthFirst.DiscoverUnexpanded | src/utils/algorithms.js:76-84 | runDFS's guard yields the new state exactly when it is feasible and not yet visited; the parent map plays no part |
| DepthFirst.PushSuccessorsDfs | src/utils/algorithms.js:74-88 | the loop pushes the feasible unvisited neighbours in reverse order and records each one's parent, overwriting an earlier parent |
| DepthFirst.RunDFS | src/utils/algorithms.js:50-91 | the result is sound, and the second expanded state is the start's first feasible successor |
| BreadthFirst.BfsQueueKeys | src/utils/algorithms.js:106-128 | after a turn the queue holds distinct unexpanded keys, and every key is expanded or queued |
| BreadthFirst.BfsClosedAfterPush | src/utils/algorithms.js:106-128 | every successor of an expanded state is expanded or queued |
| BreadthFirst.BfsOpeningAfterPush | src/utils/algorithms.js:106-128 | the start's successors lead the states behind the start, whether expanded or still queued |
| BreadthFirst.BfsInit | src/utils/algorithms.js:96-103 | the initial queue and parent map satisfy the loop invariant |
| BreadthFirst.BfsExpand | src/utils/algorithms.js:106-128 | expanding the dequeued state keeps the loop invariant |
| BreadthFirst.BfsStep | src/utils/algorithms.js:106-129 | one full non-goal turn keeps the loop invariant and shrinks the unexpanded set |
| BreadthFirst.EnqueueSuccessors | src/utils/algorithms.js:117-129 | the queue grows by exactly the feasible states that are neither visited nor keys, in neighbour order, and each is recorded with the expanded state as parent |
| BreadthFirst.BfsFirstLayer | src/utils/algorithms.js:105-110 | when the start's successors lead the rest of the run, they lead the visit order |
| BreadthFirst.BfsFound | src/utils/algorithms.js:112-115 | the goal result of runBFS is sound |
| BreadthFirst.BfsFoundFirstLayer | src/utils/algorithms.js:105-114 | at a goal, the visit order still begins with the start's successors, or is a prefix of them |
| BreadthFirst.BfsExhausted | src/utils/algorithms.js:131 | the failure result of runBFS is sound and begins with the start's successors |
| BreadthFirst.RunBFS | src/utils/algorithms.js:94-132 | the result is sound, and right after the start it expands the start's successors in neighbour order |
| BestFirst.Keyed | src/utils/algorithms.js:168 | the heap entry for a state carries it with a non-negative priority, which is zero exactly on the caller's goal cell |
| BestFirst.PushKeyed | src/utils/algorithms.js:166-169 | pushing one more keyed state extends the heap's multiset by that entry |
| BestFirst.KeyedAllMembers | src/utils/algorithms.js:158-170 | the loop's entries are exactly the keyed pushed states, each once when the states are distinct |
| BestFirst.BestGreedy | src/utils/algorithms.js:146-151 | popping the least entry keeps the greedy first step: the second expanded state is a successor of the start that is nearest the goal |
| BestFirst.BestHeapAfterPush | src/utils/algorithms.js:147-170 | after a turn the heap holds, once each, exactly the unexpanded keys, each with its heuristic priority |
| BestFirst.BestClosedAfterPush | src/utils/algorithms.js:158-170 | every successor of an expanded state is a key |
| BestFirst.BestOpeningAfterPush | src/utils/algorithms.js:143-170 | after the first turn the heap holds only successors of the start |
| BestFirst.BestExpand | src/utils/algorithms.js:147-170 | expanding the popped state keeps the loop invariant |
| BestFirst.BestStep | src/utils/algorithms.js:147-170 | one full non-goal turn keeps the loop invariant and shrinks the unexpanded set |
| BestFirst.PushSuccessorsBest | src/utils/algorithms.js:158-170 | records the parent and heap-pushes each feasible state that is neither visited nor a key, with the Manhattan distance to the goal as priority; the heap stays valid |
| BestFirst.BestExhausted | src/utils/algorithms.js:173 | the failure result of runBestFS is sound |
| BestFirst.BestInit | src/utils/algorithms.js:137-144 | the heap holding the start alone, with an empty visited set, satisfies the loop invariant |
| BestFirst.RunBestFS | src/utils/algorithms.js:135-174 | the result is sound, and the second expanded state is a successor of the start nearest the caller's goal |

## Left out

- The React UI, grid editing and the animation of the visit order are outside the engine. The grid is a parameter, and nothing is read or printed.
- `posKey` (src/utils/algorithms.js:26-28) is never called by the engine.
- The `goal` parameter of runDFS and runBFS is unused by those drivers. It stays in their signatures and plays no part.
- reconstructPath's first destructuring (src/utils/algorithms.js:39) computes values it never uses, so the model reads the key only once.
- StateSpace.TerrainCost: `TERRAIN_COSTS` is a plain object, so a symbol naming an `Object.prototype` member ("constructor", "toString", "valueOf", "__proto__") reads an inherited non-null value. The battery then becomes `NaN`, and such a state would be pushed. The model gives these symbols no cost. The grid editor writes only F, H, D and G (src/App.jsx:158-165), so no grid the system builds holds such a symbol.
- Keys.Number: models JavaScript's `Number` only on optionally signed decimal integers, the only strings the key template produces. Other numeric syntax (exponents, hexadecimal, whitespace) is not modelled.
- StateSpace.Reverse: `path.reverse()` reverses an array in place. The model reverses a sequence, because the array is local to reconstructPath and never aliased.
- PriorityQueue.MinHeap.Pop: among entries of equal least priority, which one is returned depends on the heap layout. The contract promises only some least entry, and the drivers' proofs rely on nothing more.
- Search.Discover, DepthFirst.DiscoverUnexpanded: the `continue` chain of each neighbour loop is a helper method, which the loops call once per neighbour. It has the same branches, in the same order.
- DepthFirst.RunDFS, BreadthFirst.RunBFS, BestFirst.RunBestFS: the visited-skip at the top of each loop is modelled. runBFS and runBestFS never enqueue a key twice, so their skip branch is dead and is proved so. A runDFS stack can hold stale entries, and it skips them.
- BreadthFirst.RunBFS: the claim that breadth-first search finds the goal in the fewest transitions is not proved. The order property proved is weaker: the start's successors are expanded right after the start, in neighbour order.
- BestFirst.RunBestFS: greedy order is proved for the first choice only (GreedyFirstStep). Later turns pop some least entry, by `Pop`'s contract, but no run-long greedy property is stated.
- JavaScript's number range is not modelled: coordinates and batteries are unbounded integers, where the source would lose precision above 2^53.
- A ragged grid is allowed. A row shorter than `cols` reads `undefined`, which the guard treats as impassable. Row 0 must exist and the start row must be in range, because the source reads `grid[0].length` and `grid[start][...]` unguarded.

## Behaviour of the code worth knowing

- A symbol that `TERRAIN_COSTS` does not list reads `undefined`, and `cost == null` holds for it (src/utils/algorithms.js:79-80), so such a cell is impassable, like a ditch.
- The best-first heuristic measures only the distance to the caller's `goal` (src/utils/algorithms.js:143 and 168). Any `"G"` cell still ends every run (`isGoal`, src/utils/algorithms.js:19-21).
- runDFS sets `parent` again when it re-discovers an unvisited state (src/utils/algorithms.js:84-87), overwriting the earlier parent. The parent map stays a tree rooted at the start, because the battery strictly falls along every recorded edge.
- The neighbour order is up, down, left, right (src/utils/algorithms.js:10-17). runDFS walks it backwards (src/utils/algorithms.js:75), so the upper neighbour is expanded first.
