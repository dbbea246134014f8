/** `aStarSearch` and `nullHeuristic`.  The frontier is a `heapq` list of
    nodes keyed by accumulated cost plus the heuristic's estimate; a
    successor gets a node, and a heap entry, only when its state is not yet
    in `Node.PRV`, and the goal test is made on each node as it is popped. */
module AStar {
  import opened SearchProblem
  import opened Nodes
  import opened SearchTree
  import opened PriorityQueue

  /** `nullHeuristic(state, problem)`: the trivial estimate, which never
      overestimates the cost of reaching a goal from `s`. */
  function NullHeuristic<S(!new), A(!new)>(s: S, p: Problem<S, A>): (r: nat)
    ensures forall w :: IsWalk(p, s, w) && p.isGoal(End(s, w)) ==> r <= CostOf(w)
  {
    0
  }

  /** `heuristic(state, problem)`, for the heuristic the search is given. */
  function Estimate<S>(h: S -> nat, s: S): (r: nat)
  {
    h(s)
  }

  /** Every heap entry holds a node of the run and is keyed by the node's
      accumulated cost plus the estimate for its state. */
  ghost predicate Keyed<S, A>(h: S -> nat, nodes: seq<Node<S, A>>, heap: seq<Entry>, base: nat)
  {
    forall x :: x in heap ==> base <= x.node < |nodes| && x.priority == nodes[x.node].cost + Estimate(h, nodes[x.node].state)
  }

  /** With `nullHeuristic` an entry's key is its node's accumulated cost. */
  lemma NullHeuristicKeys<S(!new), A(!new)>(p: Problem<S, A>, nodes: seq<Node<S, A>>, heap: seq<Entry>, base: nat)
    ensures Keyed(s => NullHeuristic(s, p), nodes, heap, base) <==>
      forall x :: x in heap ==> base <= x.node < |nodes| && x.priority == nodes[x.node].cost
  {
  }

  /** Node `k` has an entry in the heap. */
  ghost predicate InHeap(heap: seq<Entry>, k: nat)
  {
    exists x :: x in heap && x.node == k
  }

  /** Node `k` was popped: it failed the goal test and each of its successor
      states has a node. */
  ghost predicate Done<S, A>(p: Problem<S, A>, nodes: seq<Node<S, A>>, index: map<S, nat>, k: nat)
    requires k < |nodes|
  {
    !IsGoal(p, nodes[k].state) && forall e :: e in Successors(p, nodes[k].state) ==> e.state in index
  }

  /** Every node of the run other than `n` is waiting in the heap or done. */
  ghost predicate CoveredBut<S, A>(p: Problem<S, A>, nodes: seq<Node<S, A>>, index: map<S, nat>, heap: seq<Entry>,
                                   base: nat, n: int)
  {
    forall k :: base <= k < |nodes| && k != n ==> InHeap(heap, k) || Done(p, nodes, index, k)
  }

  /** Every node of the run is waiting in the heap or done. */
  ghost predicate Covered<S, A>(p: Problem<S, A>, nodes: seq<Node<S, A>>, index: map<S, nat>, heap: seq<Entry>,
                                base: nat)
  {
    CoveredBut(p, nodes, index, heap, base, -1)
  }

  /** What holds of the search at the top of its `while heap` loop. */
  ghost predicate Frontier<S, A>(p: Problem<S, A>, h: S -> nat, U: set<S>, prv: seq<S>, nodes: seq<Node<S, A>>,
                                 index: map<S, nat>, heap: seq<Entry>, base: nat)
  {
    Run(p, U, prv, nodes, index, base) && Keyed(h, nodes, heap, base) && Covered(p, nodes, index, heap, base)
  }

  /** `heappop` takes node `n` out of the heap: every other node stays
      covered. */
  lemma PopStep<S, A>(p: Problem<S, A>, nodes: seq<Node<S, A>>, index: map<S, nat>, heap: seq<Entry>,
                      rest: seq<Entry>, base: nat, e: Entry)
    requires Covered(p, nodes, index, heap, base)
    requires forall x :: x in heap && x != e ==> x in rest
    ensures CoveredBut(p, nodes, index, rest, base, e.node)
  {
    forall k | base <= k < |nodes| && k != e.node && InHeap(heap, k)
      ensures InHeap(rest, k)
    {
      var x :| x in heap && x.node == k;
      assert x in rest;
    }
  }

  /** New nodes, new heap entries and new index entries keep every node
      that was covered covered. */
  lemma CoverStep<S, A>(p: Problem<S, A>, nodes: seq<Node<S, A>>, index: map<S, nat>, heap: seq<Entry>,
                        nodes': seq<Node<S, A>>, index': map<S, nat>, heap': seq<Entry>, base: nat, n: int)
    requires CoveredBut(p, nodes, index, heap, base, n)
    requires nodes <= nodes' && heap <= heap' && Extends(index', index)
    requires forall k :: |nodes| <= k < |nodes'| ==> InHeap(heap', k)
    ensures CoveredBut(p, nodes', index', heap', base, n)
  {
    forall k | base <= k < |nodes'| && k != n
      ensures InHeap(heap', k) || Done(p, nodes', index', k)
    {
      if k < |nodes| {
        assert nodes'[k] == nodes[k];
        if InHeap(heap, k) {
          var x :| x in heap && x.node == k;
          assert x in heap';
        }
      }
    }
  }

  /** Once the popped node `n` is done, every node is covered. */
  lemma CoverDone<S, A>(p: Problem<S, A>, nodes: seq<Node<S, A>>, index: map<S, nat>, heap: seq<Entry>,
                        base: nat, n: nat)
    requires CoveredBut(p, nodes, index, heap, base, n) && n < |nodes| && Done(p, nodes, index, n)
    ensures Covered(p, nodes, index, heap, base)
  {
  }

  /** With the heap empty, every node is done, so the states with a node
      are closed under successors and none of them is a goal: no walk from
      the start reaches a goal state. */
  lemma Exhausted<S, A>(p: Problem<S, A>, nodes: seq<Node<S, A>>, index: map<S, nat>, base: nat,
                        w: seq<Successor<S, A>>)
    requires RunTree(p, nodes, base) && Indexed(index, nodes, base) && Covered(p, nodes, index, [], base)
    requires IsWalk(p, p.start, w)
    ensures !IsGoal(p, End(p.start, w))
  {
    assert index[nodes[base].state] == base;
    forall s, e | s in index.Keys && e in p.successors(s)
      ensures e.state in index.Keys
    {
      assert Done(p, nodes, index, index[s]);
    }
    StaysWithin(p, index.Keys, p.start, w);
    assert Done(p, nodes, index, index[End(p.start, w)]);
  }

  /** The body of `for child in problem.getSuccessors(node.state)`: a
      successor whose state is not in `PRV` gets a child node of `n` and a
      heap entry keyed by `node.cost + child[2] + heuristic(child[0])`. */
  method PushChild<S(==,!new), A(!new)>(p: Problem<S, A>, h: S -> nat, ghost U: set<S>, arena: NodeArena<S, A>,
                                        n: nat, child: Successor<S, A>, heap: seq<Entry>,
                                        ghost index: map<S, nat>, ghost base: nat)
    returns (heap': seq<Entry>, ghost index': map<S, nat>)
    requires Run(p, U, arena.prv, arena.nodes, index, base) && Keyed(h, arena.nodes, heap, base)
    requires base <= n < |arena.nodes| && child in Successors(p, arena.nodes[n].state) && child.state in U
    modifies arena
    ensures Run(p, U, arena.prv, arena.nodes, index', base) && Keyed(h, arena.nodes, heap', base)
    ensures old(arena.nodes) <= arena.nodes && heap <= heap' && Extends(index', index)
    ensures Progress(U, index', index, |arena.nodes| > old(|arena.nodes|))
    ensures forall k :: old(|arena.nodes|) <= k < |arena.nodes| ==> InHeap(heap', k)
    ensures |arena.nodes| - old(|arena.nodes|) == |heap'| - |heap|
    ensures child.state in old(arena.prv) ==> arena.nodes == old(arena.nodes) && arena.prv == old(arena.prv) && heap' == heap
    ensures child.state !in old(arena.prv) ==>
      && arena.nodes == old(arena.nodes) + [Node(child.state, Some(child.action), Some(n), old(arena.nodes[n].cost) + child.cost)]
      && arena.prv == old(arena.prv) + [child.state]
      && heap' == heap + [Entry(old(arena.nodes[n].cost) + child.cost + Estimate(h, child.state), old(|arena.nodes|))]
    ensures child.state in index'
  {
    heap', index' := heap, index;
    if child.state !in arena.prv {
      ghost var prv0, nodes0 := arena.prv, arena.nodes;
      ghost var x := Node(child.state, Some(child.action), Some(n), nodes0[n].cost + child.cost);
      GrowRun(p, U, prv0, nodes0, index, base, n, child);
      var priority := arena.nodes[n].cost + child.cost + Estimate(h, child.state);
      var id := arena.AddChild(n, child);
      assert arena.nodes == nodes0 + [x] && arena.prv == prv0 + [child.state] && id == |nodes0|;
      index' := index[child.state := id];
      heap' := heap + [Entry(priority, id)];
      assert heap'[|heap|].node == id;
    } else {
      MirrorIndex(arena.prv, arena.nodes, index, base, child.state);
    }
  }

  /** `for child in problem.getSuccessors(node.state)`: pushes a child of
      node `n` for every successor state that has no node yet, after which
      every successor state of `n` has a node. */
  method Expand<S(==,!new), A(!new)>(p: Problem<S, A>, h: S -> nat, ghost U: set<S>, arena: NodeArena<S, A>,
                                     n: nat, heap: seq<Entry>, ghost index: map<S, nat>, ghost base: nat)
    returns (heap': seq<Entry>, ghost index': map<S, nat>)
    requires Run(p, U, arena.prv, arena.nodes, index, base) && Keyed(h, arena.nodes, heap, base)
    requires base <= n < |arena.nodes| && forall e :: e in Successors(p, arena.nodes[n].state) ==> e.state in U
    modifies arena
    ensures Run(p, U, arena.prv, arena.nodes, index', base) && Keyed(h, arena.nodes, heap', base)
    ensures old(arena.nodes) <= arena.nodes && heap <= heap' && Extends(index', index)
    ensures Progress(U, index', index, |arena.nodes| > old(|arena.nodes|))
    ensures forall k :: old(|arena.nodes|) <= k < |arena.nodes| ==> InHeap(heap', k)
    ensures |arena.nodes| - old(|arena.nodes|) == |heap'| - |heap|
    ensures forall e :: e in Successors(p, arena.nodes[n].state) ==> e.state in index'
    ensures forall k :: old(|arena.nodes|) <= k < |arena.nodes| ==> arena.nodes[k].parent == Some(n)
  {
    var succs := Successors(p, arena.nodes[n].state);
    heap', index' := heap, index;
    var j := 0;
    while j < |succs|
      invariant 0 <= j <= |succs| && n < |arena.nodes| && succs == Successors(p, arena.nodes[n].state)
      invariant Run(p, U, arena.prv, arena.nodes, index', base) && Keyed(h, arena.nodes, heap', base)
      invariant old(arena.nodes) <= arena.nodes && heap <= heap' && Extends(index', index)
      invariant Progress(U, index', index, |arena.nodes| > old(|arena.nodes|))
      invariant forall k :: old(|arena.nodes|) <= k < |arena.nodes| ==> InHeap(heap', k)
      invariant |arena.nodes| - old(|arena.nodes|) == |heap'| - |heap|
      invariant forall jj :: 0 <= jj < j ==> succs[jj].state in index'
      invariant forall k :: old(|arena.nodes|) <= k < |arena.nodes| ==> arena.nodes[k].parent == Some(n)
    {
      ghost var before, heapBefore, indexBefore := arena.nodes, heap', index';
      heap', index' := PushChild(p, h, U, arena, n, succs[j], heap', index', base);
      ExpandStep(U, old(arena.nodes), index, heap, before, indexBefore, heapBefore, arena.nodes, index', heap', succs, j);
      j := j + 1;
    }
  }

  /** What the loop over the successors of a node knows after one more
      successor, given what it knew before. */
  lemma ExpandStep<S, A>(U: set<S>, nodes0: seq<Node<S, A>>, index0: map<S, nat>, heap0: seq<Entry>,
                         before: seq<Node<S, A>>, indexBefore: map<S, nat>, heapBefore: seq<Entry>,
                         nodes: seq<Node<S, A>>, index: map<S, nat>, heap: seq<Entry>,
                         succs: seq<Successor<S, A>>, j: nat)
    requires j < |succs| && nodes0 <= before <= nodes && heap0 <= heapBefore <= heap
    requires Extends(indexBefore, index0) && Extends(index, indexBefore)
    requires Progress(U, indexBefore, index0, |before| > |nodes0|) && Progress(U, index, indexBefore, |nodes| > |before|)
    requires forall k :: |nodes0| <= k < |before| ==> InHeap(heapBefore, k)
    requires forall k :: |before| <= k < |nodes| ==> InHeap(heap, k)
    requires |before| - |nodes0| == |heapBefore| - |heap0| && |nodes| - |before| == |heap| - |heapBefore|
    requires forall jj :: 0 <= jj < j ==> succs[jj].state in indexBefore
    requires succs[j].state in index
    ensures nodes0 <= nodes && heap0 <= heap && Extends(index, index0)
    ensures Progress(U, index, index0, |nodes| > |nodes0|)
    ensures forall k :: |nodes0| <= k < |nodes| ==> InHeap(heap, k)
    ensures |nodes| - |nodes0| == |heap| - |heap0|
    ensures forall jj :: 0 <= jj < j + 1 ==> succs[jj].state in index
  {
    forall k | |nodes0| <= k < |before|
      ensures InHeap(heap, k)
    {
      assert InHeap(heapBefore, k);
      var x :| x in heapBefore && x.node == k;
      assert x in heap;
    }
  }

  /** `aStarSearch(problem, heuristic)` on the arena of `Node` objects, with
      `PRV` empty as every search leaves it.  `U` bounds the reachable
      states.  A path found leads from the start to a goal, no state gets
      two nodes, and the search gives up only when no goal is reachable. */
  method AStarSearch<S(==,!new), A(!new)>(p: Problem<S, A>, h: S -> nat, ghost U: set<S>, arena: NodeArena<S, A>)
    returns (actions: seq<A>, ghost found: bool)
    requires Closed(p, U) && arena.Valid() && arena.prv == []
    modifies arena
    ensures arena.Valid() && arena.prv == []
    ensures |old(arena.nodes)| < |arena.nodes| && old(arena.nodes) <= arena.nodes
    ensures DistinctStates(arena.nodes, |old(arena.nodes)|)
    ensures found ==> exists w :: Solves(p, w) && ActionsOf(w) == actions
    ensures !found ==> actions == [] && forall w :: IsWalk(p, p.start, w) ==> !IsGoal(p, End(p.start, w))
    ensures IsGoal(p, p.start) ==> actions == []
  {
    ghost var base := |arena.nodes|;
    var root := arena.NewNode(p.start, None, None, 0);
    ghost var index: map<S, nat> := map[p.start := root];
    RootTree(p, arena.nodes, base);
    var heap := [Entry(Estimate(h, p.start), root)];
    assert heap[0].node == root;
    while heap != []
      invariant Frontier(p, h, U, arena.prv, arena.nodes, index, heap, base)
      invariant base == |old(arena.nodes)| < |arena.nodes| && old(arena.nodes) <= arena.nodes
      invariant IsGoal(p, p.start) ==> heap == [Entry(Estimate(h, p.start), base)]
      decreases U - index.Keys, |heap|
    {
      var e, rest, i := PopMin(heap);
      var node := e.node;
      PopStep(p, arena.nodes, index, heap, rest, base, e);
      if IsGoal(p, arena.nodes[node].state) {
        NodeWalk(p, arena.nodes, base, node);
        IndexedDistinct(index, arena.nodes, base);
        ghost var w := RootWalk(arena.nodes, node);
        actions := arena.PathTo(node);
        arena.Clear();
        found := true;
        assert Solves(p, w) && ActionsOf(w) == actions;
        return;
      }
      ghost var before, indexBefore := arena.nodes, index;
      forall e' | e' in Successors(p, arena.nodes[node].state)
        ensures e'.state in U
      {
        NodeWalk(p, arena.nodes, base, node);
        StaysWithin(p, U, p.start, RootWalk(arena.nodes, node) + [e']);
        WalkAppend(p, p.start, RootWalk(arena.nodes, node), [e']);
      }
      heap, index := Expand(p, h, U, arena, node, rest, index, base);
      CoverStep(p, before, indexBefore, rest, arena.nodes, index, heap, base, node);
      assert arena.nodes[node] == before[node];
      CoverDone(p, arena.nodes, index, heap, base, node);
    }
    IndexedDistinct(index, arena.nodes, base);
    forall w | IsWalk(p, p.start, w)
      ensures !IsGoal(p, End(p.start, w))
    {
      Exhausted(p, arena.nodes, index, base, w);
    }
    arena.Clear();
    actions, found := [], false;
  }
}
