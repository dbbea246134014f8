# Search algorithms of the Pacman search project, in Dafny

This project models the generic search algorithms of `P1.search/search.py`
and proves what each one finds. The file defines the `Node` class of the
search tree, a recursive depth-first search, breadth-first search,
uniform-cost search and A* search with the trivial `nullHeuristic`.

A search problem is a value `Problem(start, isGoal, successors)`. It stands
for the `getStartState`, `isGoalState` and `getSuccessors` methods of the
`SearchProblem` interface. A successor triple is `Successor(state, action,
cost)`. A walk is a sequence of successor triples, each taken from the
state the previous one reached. Its actions are the path a search returns,
and its cost is the sum of the step costs (`SearchProblem`).

Each search gets a ghost finite set `U` that holds the start state and is
closed under successors (`Closed`). The searches terminate on that set.

The `Node` class is the class `NodeArena` (`Nodes`):

- `nodes` holds every `Node` object created so far. A node is a record of
  its state, its action, its parent's index and its accumulated cost.
- `prv` is the class-level list `Node.PRV`. It is a field that the
  constructor `NewNode` appends to and `Clear` empties.
- The parent walk that every search uses to rebuild its path is
  `NodeArena.PathTo`.
- The `heapq` list of uniform-cost search and A* is a sequence of
  `(priority, node)` entries (`PriorityQueue`). `heappop` removes any entry
  of least priority, because the model does not fix the order of equal
  keys.

What is proved, per search:

- **Depth-first search** (a function, as the source is a recursive
  function). The result is `[]` when the start is a goal. Otherwise it is
  `[]` only when no goal is reachable. A non-empty result is the action
  list of a walk from the start to a goal that repeats no state. It is
  never longer than any solution.
- **Breadth-first search.** A returned path solves the problem with the
  fewest steps among the solutions that end at a state other than the
  start. `[]` is returned only when no goal other than the start is
  reachable. No state gets two nodes. `Node.PRV` is left empty.
- **Uniform-cost search.** A returned path solves the problem and no
  solution costs less. A start that is a goal gives `[]`. `[]` on
  exhaustion means that no goal is reachable. `Node.PRV` is left empty.
- **A\* search.** A returned path solves the problem, and no state gets
  two nodes. A start that is a goal gives `[]`. `[]` on exhaustion means
  that no goal is reachable. `Node.PRV` is left empty. `nullHeuristic`
  never overestimates, and with it every key is the node's accumulated
  cost.

Three places where the code does something other than what one would
expect of these algorithms. The model follows the code in each:

- Breadth-first search never goal-tests the start state. The goal test is
  made on each new child, and the root gets no test. So when the start is
  a goal, the search still returns the shortest path to some other goal
  (or `[]` if there is none), not `[]` outright. `BreadthFirstSearch`
  states exactly this.
- A\* adds a child only when its state is not yet in `Node.PRV`. So a
  state keeps the first node generated for it, even when a cheaper path
  to it is found later. That makes A\* not cost-optimal, even with
  `nullHeuristic`, and even though uniform-cost search is. Example:
  - the start `A` has successors `(G, "X", 5)` and `(C, "Y", 1)`, and
    `C` has the one successor `(G, "Z", 1)`; `G` is the goal;
  - A\* pops `A`, then `C`, whose child `G` is already in `Node.PRV`;
  - it then pops `G` and returns `["X"]` at cost 5;
  - uniform-cost search returns `["Y", "Z"]` at cost 2.

  `AStarSearch` therefore promises a solution, not a cheapest one.
- Uniform-cost search skips a popped entry only when its state was
  recorded at a strictly smaller cost. A reachable cycle of steps that cost
  nothing can therefore make it pop and push forever. The model requires every step
  inside `U` to cost something (`PositiveCosts`).

## Model

| member | source | states |
|---|---|---|
| Nodes.NodeArena.constructor | P1.search/search.py:66-67 | the class starts with `PRV` empty and no node |
| Nodes.NodeArena.NewNode | P1.search/search.py:69-75 | `Node(state, direction, parent, cost)` records a node with exactly those fields, appends its state to `PRV`, and changes no existing node's parent walk |
| Nodes.NodeArena.AddChild | P1.search/search.py:77-80 | `add_child` creates the node whose parent is the receiver, whose action is the triple's action and whose cost is the parent's cost plus the step cost; its parent walk is the parent's followed by the triple |
| Nodes.NodeArena.Clear | P1.search/search.py:82-84 | `clear` empties `PRV` and leaves every node as it was |
| Nodes.NodeArena.PathTo | P1.search/search.py:130-136 | following `parent` links up to the root and reversing gives the actions of the node's parent walk, in root-to-node order |
| Nodes.Reversed | P1.search/search.py:136 | `path[::-1]` has the same length and position `i` holds element `len - 1 - i` |
| Nodes.RootWalkStable | P1.search/search.py:69-75 | creating a node leaves every existing node's parent walk unchanged |
| Nodes.RootWalkPrefix | P1.search/search.py:69-75 | creating any number of nodes leaves every existing node's parent walk unchanged |
| PriorityQueue.LeastExists | P1.search/search.py:148 | a non-empty heap list has an entry of least priority |
| PriorityQueue.PopMin | P1.search/search.py:148 | `heappop` returns an entry of least priority and leaves exactly the other entries |
| SearchTree.RootTree | P1.search/search.py:121 | a run that holds only the root node for the start state is a search tree |
| SearchTree.GrowTree | P1.search/search.py:77-80 | adding a child for a successor of a node of the run keeps every node's parent walk a walk from the start to its state at its cost |
| SearchTree.NodeWalk | P1.search/search.py:130-136 | the parent walk of any node of a run leads from the start to the node's state and costs the node's accumulated cost |
| SearchTree.DepthWalk | P1.search/search.py:122-137 | a node's layer number is the length of its parent walk |
| SearchTree.GrowIndex | P1.search/search.py:127-128 | a new state joins `PRV`, the node list and the state-to-node index together |
| SearchTree.MirrorIndex | P1.search/search.py:127 | a state is in `PRV` exactly when it has a node in the run |
| SearchTree.IndexedDistinct | P1.search/search.py:127-128 | when only states missing from `PRV` get nodes, no two nodes of the run share a state |
| SearchTree.GrowRun | P1.search/search.py:127-128 | `r.add_child(child)` for a state not in `PRV` keeps the tree, `PRV` and the index in step, inside `U` |
| DepthFirst.NonEmpty | P1.search/search.py:111 | `filter(len, all_paths)` keeps exactly the non-empty paths |
| DepthFirst.FirstShortest | P1.search/search.py:113 | `min(paths, key=len)` picks a shortest path, the first among equals |
| DepthFirst.Choose | P1.search/search.py:111-114 | the end of `helper` returns `[]` or one of the child results |
| DepthFirst.ChooseEmpty | P1.search/search.py:111-114 | the end of `helper` returns `[]` exactly when every child result is empty |
| DepthFirst.ChooseSpec | P1.search/search.py:111-113 | a non-empty choice is the first of the shortest non-empty child results |
| DepthFirst.ChooseSnoc | P1.search/search.py:111-113 | one more child result replaces the choice only when it is non-empty and strictly shorter |
| DepthFirst.Helper | P1.search/search.py:101-114 | a non-empty result of `helper` extends the accumulated path |
| DepthFirst.AllPaths | P1.search/search.py:108-110 | the loop collects one result per successor, each `[]` or a strict extension of the path |
| DepthFirst.AllPathsAt | P1.search/search.py:109-110 | position `j` of the loop's results is `helper` run on successor `j` with that successor's action appended |
| DepthFirst.HelperSound | P1.search/search.py:101-114 | a non-empty `helper` result is the path so far plus the actions of a walk to a goal that repeats no state and avoids `visited` |
| DepthFirst.HelperShortest | P1.search/search.py:101-114 | `helper` finds a goal whenever a walk that repeats no state and avoids `visited` reaches one, and returns no more actions than the path so far plus that walk |
| DepthFirst.DepthFirstSearch | P1.search/search.py:116 | `helper(problem.getStartState(), [], [])`: a start that is a goal gives `[]` |
| DepthFirst.DepthFirstSearchCorrect | P1.search/search.py:98-116 | a non-empty result solves the problem with no repeated state; it is never longer than a solution; it is `[]` when the start is a goal, and otherwise only when no goal is reachable |
| BreadthFirst.LayersCover | P1.search/search.py:122-137 | once the layers above depth `d` are expanded, every walk of at most `d` steps ends at a state with a node no deeper than the walk's length |
| BreadthFirst.GoalsCovered | P1.search/search.py:122-137 | with no goal among the non-root nodes, every solution of at most `d` steps ends at the start |
| BreadthFirst.FoundShortest | P1.search/search.py:129-136 | the first goal child created in layer `d + 1` has a parent walk that is a solution ending elsewhere than at the start, with the fewest steps among such solutions |
| BreadthFirst.VisitChild | P1.search/search.py:126-136 | one successor triple: a state already in `PRV` changes nothing and is no hit; otherwise exactly one child of `r` with the triple's action and the parent's cost plus the step cost is created, its state is appended to `PRV`, its index to `temp`, and it is a hit exactly when its state is a goal |
| BreadthFirst.ExpandNode | P1.search/search.py:126-136 | unless a goal child stops the search, every successor state of node `r` ends up with a node, an earlier one or a new child of `r` |
| BreadthFirst.ExpandLayer | P1.search/search.py:124-137 | expanding a layer builds the next layer, which is exactly the new nodes, all one deeper, and expands every node of the layer unless a goal child stops it |
| BreadthFirst.BreadthFirstSearch | P1.search/search.py:119-139 | a returned path solves the problem with the fewest steps among solutions that end away from the start; `[]` only when every solution ends at the start; no state gets two nodes; `PRV` is left empty |
| UniformCost.Cheaper | P1.search/search.py:147-160 | every walk from the start to a state not yet in `COSTS` costs at least some key in the heap |
| UniformCost.SkipStep | P1.search/search.py:149-150 | discarding an entry whose state is already in `COSTS` keeps the search invariant |
| UniformCost.RecordStep | P1.search/search.py:148-151 | the least key popped for a state is the cheapest cost of any walk from the start to it, and recording it keeps every recorded cost at most every key |
| UniformCost.FoundCheapest | P1.search/search.py:152-158 | the first goal popped has a parent walk that solves the problem and costs no more than any solution |
| UniformCost.PushStep | P1.search/search.py:159-160 | pushing every child of the recorded node restores the search invariant and adds no key at the current level |
| UniformCost.Exhausted | P1.search/search.py:147-162 | when the heap runs empty, no walk from the start reaches a goal |
| UniformCost.PushChildren | P1.search/search.py:159-160 | every successor triple, in order, gets a child node and a heap entry keyed by the popped cost plus the step cost, and its state is appended to `PRV` |
| UniformCost.UniformCostSearch | P1.search/search.py:142-162 | a returned path solves the problem and no solution costs less; a start that is a goal gives `[]`, as the root is popped first; `[]` after the loop only when no goal is reachable; `PRV` is left empty |
| AStar.NullHeuristic | P1.search/search.py:165-170 | `nullHeuristic(state, problem)` never overestimates: it is at most the cost of every walk from `state` to a goal |
| AStar.NullHeuristicKeys | P1.search/search.py:165-170 | with `nullHeuristic`, a heap entry's key is exactly its node's accumulated cost |
| AStar.PopStep | P1.search/search.py:179 | `heappop` leaves every other node of the run still waiting in the heap or already expanded |
| AStar.CoverStep | P1.search/search.py:187-189 | pushing new nodes keeps every node waiting in the heap or expanded |
| AStar.Exhausted | P1.search/search.py:178-191 | when the heap runs empty, the states with a node are closed under successors and none is a goal, so no walk from the start reaches a goal |
| AStar.PushChild | P1.search/search.py:188-189 | a successor whose state is in `PRV` changes nothing; otherwise it gets a child node, its state joins `PRV`, and a heap entry keyed by `node.cost + child[2] + heuristic(child[0])` is pushed |
| AStar.Expand | P1.search/search.py:187-189 | every node the loop creates is a child of node `n`, and afterwards every successor state of `n` has a node |
| AStar.AStarSearch | P1.search/search.py:173-191 | a returned path solves the problem; a start that is a goal gives `[]`, as the root is popped first; `[]` after the loop only when no goal is reachable; no state gets two nodes; `PRV` is left empty |

## Left out

- The `SearchProblem` interface (`P1.search/search.py:23-63`) is the `Problem` value. `getCostOfActions` is left out because no search calls it.
- `tinyMazeSearch` (`P1.search/search.py:87-95`) returns a fixed action list for one maze and is left out.
- The aliases `bfs`, `dfs`, `astar` and `ucs` (`P1.search/search.py:195-198`) are left out.
- The `children` list of a node (`P1.search/search.py:73`, `79`) is left out because no search reads it.
- Python object identity and references are left out. Nodes are records in the arena, and a node refers to its parent by index.
- The order in which `heapq` returns entries of equal priority is left out. In the source it compares the `Node` objects themselves. The model lets `heappop` take any entry of least priority, so every proof holds for every tie order.
- Step costs and heuristic values are natural numbers. Floating-point costs and heuristic values are left out.
- State spaces are finite: every search gets a ghost set `U` that contains the start and is closed under successors. Infinite state spaces, on which the source can run forever, are left out.
- Each search requires `Node.PRV` to be empty when it starts. That is how the previous search leaves it and how the program starts. A search that starts with states left in `Node.PRV` is not modelled.
- Every search requires the state and action types to be plain values (Dafny's `!new`).
- The heuristic that A\* is given is a function of the state alone. `nullHeuristic` takes the problem too, but no other heuristic of the repository is modelled.
- `DepthFirst.DepthFirstSearch`: `filter` is modelled as returning a list, so `if paths:` tests for emptiness. Python's recursion limit is left out.
- `UniformCost.UniformCostSearch`: requires every step cost inside `U` to be positive. With a reachable zero-cost cycle the source can loop forever, and the model does not capture that non-termination. The requirement also excludes inputs on which the source does terminate: a zero-cost step on no cycle, or a zero-cost cycle dearer than a goal that is popped first.
- `AStar.AStarSearch`: the result is not promised to be a cheapest solution. The source does not give one, as the example above shows.
