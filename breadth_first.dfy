/** `breadthFirstSearch`: expands the search tree one layer at a time.  A
    successor gets a node only when its state is not yet in `Node.PRV`, and
    the goal test is made on each new node as it is created, so the start
    state itself is never tested. */
module BreadthFirst {
  import opened SearchProblem
  import opened Nodes
  import opened SearchTree

  /** No node after the root and before position `hi` holds a goal state:
      each was goal tested when it was created, and the search stops at the
      first goal. */
  ghost predicate NoGoalBetween<S, A>(p: Problem<S, A>, nodes: seq<Node<S, A>>, base: nat, hi: nat)
  {
    forall k :: base < k < hi && k < |nodes| ==> !IsGoal(p, nodes[k].state)
  }

  /** `q` lists the positions `lo` to `hi - 1` in order: how `laye` and
      `temp` hold the nodes of a layer, which are created one after the
      other. */
  predicate Consecutive(q: seq<nat>, lo: nat, hi: nat)
  {
    lo + |q| == hi && forall k :: 0 <= k < |q| ==> q[k] == lo + k
  }

  /** The nodes from position `from` on are children of node `r`. */
  ghost predicate ChildrenOf<S, A>(nodes: seq<Node<S, A>>, from: nat, r: nat)
  {
    forall k :: from <= k < |nodes| ==> nodes[k].parent == Some(r)
  }

  /** The nodes at positions `from` to `to - 1` are at depth `d`. */
  ghost predicate AtDepth<S, A>(nodes: seq<Node<S, A>>, from: nat, to: nat, d: nat)
  {
    WellFormed(nodes) && to <= |nodes| && forall k :: from <= k < to ==> Depth(nodes, k) == d
  }

  /** The nodes at positions `from` to `to - 1` are above depth `d`. */
  ghost predicate Shallower<S, A>(nodes: seq<Node<S, A>>, from: nat, to: nat, d: nat)
  {
    WellFormed(nodes) && to <= |nodes| && forall k :: from <= k < to ==> Depth(nodes, k) < d
  }

  /** The nodes of `nodes0` are at the same depths in `nodes`. */
  ghost predicate DepthsKept<S, A>(nodes: seq<Node<S, A>>, nodes0: seq<Node<S, A>>)
  {
    WellFormed(nodes) && WellFormed(nodes0) && |nodes0| <= |nodes| &&
    forall k :: 0 <= k < |nodes0| ==> Depth(nodes, k) == Depth(nodes0, k)
  }

  /** Node `k` has been expanded: each of its successor states has a node
      at most one level below it. */
  ghost predicate ExpandedAt<S, A>(p: Problem<S, A>, nodes: seq<Node<S, A>>, index: map<S, nat>, base: nat, k: nat)
    requires WellFormed(nodes) && Indexed(index, nodes, base) && k < |nodes|
  {
    var succs := Successors(p, nodes[k].state);
    forall j :: 0 <= j < |succs| ==>
      succs[j].state in index && Depth(nodes, index[succs[j].state]) <= Depth(nodes, k) + 1
  }

  /** Nodes `base` to `upto - 1` have been expanded. */
  ghost predicate Expanded<S, A>(p: Problem<S, A>, nodes: seq<Node<S, A>>, index: map<S, nat>, base: nat, upto: nat)
  {
    && WellFormed(nodes) && Indexed(index, nodes, base)
    && forall k :: base <= k < upto && k < |nodes| ==> ExpandedAt(p, nodes, index, base, k)
  }

  /** Every walk of at most `d` steps from the start ends at a state with a
      node of depth at most its length, once all nodes above depth `d` are
      expanded. */
  lemma {:induction false} LayersCover<S, A>(p: Problem<S, A>, nodes: seq<Node<S, A>>, index: map<S, nat>,
                                             base: nat, lo: nat, d: nat, w: seq<Successor<S, A>>)
    requires RunTree(p, nodes, base) && Expanded(p, nodes, index, base, lo) && base <= lo
    requires AtDepth(nodes, lo, |nodes|, d)
    requires IsWalk(p, p.start, w) && |w| <= d
    ensures End(p.start, w) in index && Depth(nodes, index[End(p.start, w)]) <= |w|
    decreases |w|
  {
    if w == [] {
      assert nodes[base].state == p.start;
    } else {
      var w' := w[..|w| - 1];
      LayersCover(p, nodes, index, base, lo, d, w');
      var m := index[End(p.start, w')];
      assert nodes[m].state == End(p.start, w');
      assert m < lo && ExpandedAt(p, nodes, index, base, m);
      var succs := Successors(p, nodes[m].state);
      var j :| 0 <= j < |succs| && succs[j] == w[|w| - 1];
    }
  }

  /** Hence a goal within `d` steps of the start is the start itself. */
  lemma GoalsCovered<S, A>(p: Problem<S, A>, nodes: seq<Node<S, A>>, index: map<S, nat>,
                           base: nat, lo: nat, d: nat, w: seq<Successor<S, A>>)
    requires RunTree(p, nodes, base) && Expanded(p, nodes, index, base, lo) && base <= lo
    requires NoGoalBetween(p, nodes, base, |nodes|)
    requires AtDepth(nodes, lo, |nodes|, d)
    requires Solves(p, w) && |w| <= d
    ensures End(p.start, w) == p.start
  {
    LayersCover(p, nodes, index, base, lo, d, w);
    var m := index[End(p.start, w)];
    assert !IsGoal(p, nodes[m].state) || m == base;
  }

  /** Every solution of at most `d` steps ends at the start state. */
  ghost predicate NoGoalWithin<S(!new), A(!new)>(p: Problem<S, A>, d: nat)
  {
    forall w :: Solves(p, w) && |w| <= d ==> End(p.start, w) == p.start
  }

  /** A goal node of depth `d + 1`, found when no walk of at most `d` steps
      reaches a goal other than the start, gives a shortest solution that
      ends elsewhere than at the start. */
  lemma FoundShortest<S(!new), A(!new)>(p: Problem<S, A>, nodes: seq<Node<S, A>>, index: map<S, nat>,
                                        base: nat, lo: nat, node: nat, d: nat)
    requires RunTree(p, nodes, base) && Indexed(index, nodes, base) && base < lo <= node < |nodes|
    requires AtDepth(nodes, lo, |nodes|, d + 1) && IsGoal(p, nodes[node].state)
    requires NoGoalWithin(p, d)
    ensures Solves(p, RootWalk(nodes, node)) && End(p.start, RootWalk(nodes, node)) != p.start
    ensures forall w :: Solves(p, w) && End(p.start, w) != p.start ==> |RootWalk(nodes, node)| <= |w|
  {
    NodeWalk(p, nodes, base, node);
    DepthWalk(nodes, node);
    assert index[nodes[base].state] == base;
  }

  /** New nodes and index entries leave expanded nodes expanded, so one
      more expanded node extends the expanded range. */
  lemma ExpandedExtend<S, A>(p: Problem<S, A>, nodes: seq<Node<S, A>>, index: map<S, nat>,
                             nodes': seq<Node<S, A>>, index': map<S, nat>, base: nat, upto: nat)
    requires Expanded(p, nodes, index, base, upto) && base <= upto < |nodes|
    requires WellFormed(nodes') && nodes <= nodes'
    requires Indexed(index', nodes', base) && Extends(index', index)
    requires ExpandedAt(p, nodes', index', base, upto)
    ensures Expanded(p, nodes', index', base, upto + 1)
  {
    DepthPrefix(nodes, nodes');
    forall k | base <= k < upto
      ensures ExpandedAt(p, nodes', index', base, k)
    {
      assert nodes'[k] == nodes[k] && ExpandedAt(p, nodes, index, base, k);
    }
  }

  /** State `s` has a node, one created before position `hi` or a child of
      node `r`. */
  ghost predicate Placed<S, A>(nodes: seq<Node<S, A>>, index: map<S, nat>, s: S, hi: nat, r: nat)
  {
    s in index && (index[s] < hi || (index[s] < |nodes| && nodes[index[s]].parent == Some(r)))
  }

  /** Every successor state of node `r` is placed. */
  ghost predicate ChildrenPlaced<S, A>(p: Problem<S, A>, nodes: seq<Node<S, A>>, index: map<S, nat>, r: nat, hi: nat)
    requires r < |nodes|
  {
    var succs := Successors(p, nodes[r].state);
    forall j :: 0 <= j < |succs| ==> Placed(nodes, index, succs[j].state, hi, r)
  }

  /** One visited successor more: what the loop over the successors of node
      `r` knows after visiting successor `j`, given what it knew before. */
  lemma VisitStep<S, A>(nodes0: seq<Node<S, A>>, index0: map<S, nat>, before: seq<Node<S, A>>,
                        indexBefore: map<S, nat>, nodes: seq<Node<S, A>>, index: map<S, nat>,
                        succs: seq<Successor<S, A>>, j: nat, r: nat)
    requires nodes0 <= before <= nodes && j < |succs|
    requires Extends(indexBefore, index0) && Extends(index, indexBefore)
    requires ChildrenOf(before, |nodes0|, r) && ChildrenOf(nodes, |before|, r)
    requires forall jj :: 0 <= jj < j ==> Placed(before, indexBefore, succs[jj].state, |nodes0|, r)
    requires Placed(nodes, index, succs[j].state, |before|, r)
    ensures nodes0 <= nodes && Extends(index, index0) && ChildrenOf(nodes, |nodes0|, r)
    ensures forall jj :: 0 <= jj < j + 1 ==> Placed(nodes, index, succs[jj].state, |nodes0|, r)
  {
    forall jj | 0 <= jj < j + 1
      ensures Placed(nodes, index, succs[jj].state, |nodes0|, r)
    {
      var m := index[succs[jj].state];
      if jj < j && m >= |nodes0| {
        assert nodes[m] == before[m];
      } else if jj == j && |nodes0| <= m < |before| {
        assert nodes[m] == before[m];
      }
    }
  }

  /** One expanded node more: the depths and the index of the layer being
      expanded, after node `r` of it, at depth `d`, got its children. */
  lemma LayerStep<S, A>(U: set<S>, nodes0: seq<Node<S, A>>, index0: map<S, nat>, before: seq<Node<S, A>>,
                        indexBefore: map<S, nat>, nodes: seq<Node<S, A>>, index: map<S, nat>,
                        base: nat, lo: nat, r: nat, d: nat)
    requires lo <= r < |nodes0| && nodes0 <= before <= nodes
    requires Indexed(indexBefore, before, base) && Indexed(index, nodes, base) && base <= |before|
    requires Extends(indexBefore, index0) && Extends(index, indexBefore) && forall s :: s in index ==> s in U
    requires Progress(U, indexBefore, index0, |before| > |nodes0|)
    requires AtDepth(nodes0, lo, |nodes0|, d) && WellFormed(nodes)
    requires DepthsKept(before, nodes0) && AtDepth(before, |nodes0|, |before|, d + 1)
    requires ChildrenOf(nodes, |before|, r)
    ensures Extends(index, index0) && Progress(U, index, index0, |nodes| > |nodes0|)
    ensures DepthsKept(nodes, nodes0) && AtDepth(nodes, |nodes0|, |nodes|, d + 1)
  {
    DepthPrefix(before, nodes);
    forall k | |nodes0| <= k < |nodes|
      ensures Depth(nodes, k) == d + 1
    {
      if k >= |before| {
        assert Depth(nodes, k) == Depth(nodes, r) + 1;
      }
    }
    if |nodes| > |before| {
      var s := nodes[|before|].state;
      assert s in index && s !in indexBefore;
    } else {
      assert nodes == before;
      assert index.Keys == indexBefore.Keys;
    }
  }

  /** Node `r` of the layer at depth `d` is expanded once each of its
      successor states has an older node or a child of `r`. */
  lemma LayerExpanded<S, A>(p: Problem<S, A>, nodes0: seq<Node<S, A>>, before: seq<Node<S, A>>,
                            indexBefore: map<S, nat>, nodes: seq<Node<S, A>>, index: map<S, nat>,
                            base: nat, lo: nat, r: nat, d: nat)
    requires base <= lo <= r < |nodes0| <= |before| && before <= nodes
    requires Indexed(index, nodes, base) && Extends(index, indexBefore)
    requires Shallower(nodes0, base, lo, d) && AtDepth(nodes0, lo, |nodes0|, d)
    requires DepthsKept(nodes, nodes0) && AtDepth(nodes, |nodes0|, |nodes|, d + 1)
    requires Expanded(p, before, indexBefore, base, r)
    requires ChildrenPlaced(p, nodes, index, r, |before|)
    ensures Expanded(p, nodes, index, base, r + 1)
  {
    var succs := Successors(p, nodes[r].state);
    forall j | 0 <= j < |succs|
      ensures Depth(nodes, index[succs[j].state]) <= Depth(nodes, r) + 1
    {
      assert Placed(nodes, index, succs[j].state, |before|, r);
      var m := index[succs[j].state];
      if m < |nodes0| {
        assert Depth(nodes, m) == Depth(nodes0, m);
      }
    }
    assert ExpandedAt(p, nodes, index, base, r);
    ExpandedExtend(p, before, indexBefore, nodes, index, base, r);
  }

  /** The depths once a layer at depth `d` is expanded: every older node is
      above depth `d + 1`. */
  lemma LayerDone<S, A>(nodes0: seq<Node<S, A>>, nodes: seq<Node<S, A>>, base: nat, lo: nat, d: nat)
    requires Shallower(nodes0, base, lo, d) && AtDepth(nodes0, lo, |nodes0|, d) && DepthsKept(nodes, nodes0)
    ensures Shallower(nodes, base, |nodes0|, d + 1)
  {
  }

  /** A successor state not in `PRV` gets a child node of `r`: what the
      loop over `r`'s successors knows afterwards. */
  lemma VisitNew<S, A>(p: Problem<S, A>, U: set<S>, prv: seq<S>, nodes: seq<Node<S, A>>, index: map<S, nat>,
                       base: nat, r: nat, child: Successor<S, A>, temp: seq<nat>, hi: nat)
    requires Run(p, U, prv, nodes, index, base) && NoGoalBetween(p, nodes, base, |nodes|)
    requires base <= r < |nodes| && child in Successors(p, nodes[r].state) && child.state in U
    requires child.state !in prv && Consecutive(temp, hi, |nodes|)
    ensures var nodes' := nodes + [Node(child.state, Some(child.action), Some(r), nodes[r].cost + child.cost)];
      var index' := index[child.state := |nodes|];
      && Run(p, U, prv + [child.state], nodes', index', base)
      && nodes <= nodes' && Consecutive(temp + [|nodes|], hi, |nodes'|)
      && ChildrenOf(nodes', |nodes|, r) && Extends(index', index)
      && Placed(nodes', index', child.state, |nodes|, r)
      && NoGoalBetween(p, nodes', base, |nodes'| - 1)
      && (!IsGoal(p, child.state) ==> NoGoalBetween(p, nodes', base, |nodes'|))
  {
    GrowRun(p, U, prv, nodes, index, base, r, child);
  }

  /** A successor state already in `PRV` has a node created before. */
  lemma VisitOld<S, A>(p: Problem<S, A>, U: set<S>, prv: seq<S>, nodes: seq<Node<S, A>>, index: map<S, nat>,
                       base: nat, r: nat, child: Successor<S, A>)
    requires Run(p, U, prv, nodes, index, base) && child.state in prv
    ensures ChildrenOf(nodes, |nodes|, r) && Extends(index, index)
    ensures Placed(nodes, index, child.state, |nodes|, r)
  {
    MirrorIndex(prv, nodes, index, base, child.state);
  }

  /** The body of `for child in problem.getSuccessors(r.state)`: a successor
      whose state is not in `PRV` gets a child node of `r`, which is appended
      to `temp` and goal tested; `hit` reports that it holds a goal state. */
  method VisitChild<S(==,!new), A(!new)>(p: Problem<S, A>, ghost U: set<S>, arena: NodeArena<S, A>, r: nat,
                                         child: Successor<S, A>, temp: seq<nat>,
                                         ghost index: map<S, nat>, ghost base: nat, ghost hi: nat)
    returns (temp': seq<nat>, ghost index': map<S, nat>, hit: bool)
    requires Run(p, U, arena.prv, arena.nodes, index, base) && NoGoalBetween(p, arena.nodes, base, |arena.nodes|)
    requires base <= r < |arena.nodes| && child in Successors(p, arena.nodes[r].state) && child.state in U
    requires Consecutive(temp, hi, |arena.nodes|)
    modifies arena
    ensures Run(p, U, arena.prv, arena.nodes, index', base)
    ensures old(arena.nodes) <= arena.nodes && Consecutive(temp', hi, |arena.nodes|)
    ensures ChildrenOf(arena.nodes, old(|arena.nodes|), r) && Extends(index', index)
    ensures Placed(arena.nodes, index', child.state, old(|arena.nodes|), r)
    ensures hit ==> |arena.nodes| > old(|arena.nodes|) && IsGoal(p, arena.nodes[|arena.nodes| - 1].state)
    ensures hit ==> NoGoalBetween(p, arena.nodes, base, |arena.nodes| - 1)
    ensures !hit ==> NoGoalBetween(p, arena.nodes, base, |arena.nodes|)
    ensures child.state in old(arena.prv) ==>
      arena.nodes == old(arena.nodes) && arena.prv == old(arena.prv) && temp' == temp && !hit
    ensures child.state !in old(arena.prv) ==>
      && arena.nodes == old(arena.nodes) + [Node(child.state, Some(child.action), Some(r), old(arena.nodes[r].cost) + child.cost)]
      && arena.prv == old(arena.prv) + [child.state]
      && temp' == temp + [old(|arena.nodes|)] && hit == IsGoal(p, child.state)
  {
    temp', index', hit := temp, index, false;
    if child.state !in arena.prv {
      ghost var prv0, nodes0 := arena.prv, arena.nodes;
      ghost var x := Node(child.state, Some(child.action), Some(r), nodes0[r].cost + child.cost);
      VisitNew(p, U, prv0, nodes0, index, base, r, child, temp, hi);
      var id := arena.AddChild(r, child);
      assert arena.nodes == nodes0 + [x] && arena.prv == prv0 + [child.state] && id == |nodes0|;
      index' := index[child.state := id];
      temp' := temp + [id];
      hit := IsGoal(p, child.state);
    } else {
      VisitOld(p, U, arena.prv, arena.nodes, index, base, r, child);
    }
  }

  /** `for child in problem.getSuccessors(r.state)`: visits the successor
      triples of node `r` in order until one of them gives a goal node.
      Unless that happens, each successor state ends up with a node, an
      older one or a new child of `r`. */
  method ExpandNode<S(==,!new), A(!new)>(p: Problem<S, A>, ghost U: set<S>, arena: NodeArena<S, A>, r: nat,
                                         temp: seq<nat>, ghost index: map<S, nat>, ghost base: nat, ghost hi: nat)
    returns (temp': seq<nat>, ghost index': map<S, nat>, hit: bool)
    requires Run(p, U, arena.prv, arena.nodes, index, base) && NoGoalBetween(p, arena.nodes, base, |arena.nodes|)
    requires base <= r < |arena.nodes| && forall e :: e in Successors(p, arena.nodes[r].state) ==> e.state in U
    requires Consecutive(temp, hi, |arena.nodes|)
    modifies arena
    ensures Run(p, U, arena.prv, arena.nodes, index', base)
    ensures old(arena.nodes) <= arena.nodes && Consecutive(temp', hi, |arena.nodes|)
    ensures ChildrenOf(arena.nodes, old(|arena.nodes|), r) && Extends(index', index)
    ensures hit ==> |arena.nodes| > old(|arena.nodes|) && IsGoal(p, arena.nodes[|arena.nodes| - 1].state)
    ensures hit ==> NoGoalBetween(p, arena.nodes, base, |arena.nodes| - 1)
    ensures !hit ==> NoGoalBetween(p, arena.nodes, base, |arena.nodes|)
    ensures !hit ==> ChildrenPlaced(p, arena.nodes, index', r, old(|arena.nodes|))
  {
    var succs := Successors(p, arena.nodes[r].state);
    temp', index', hit := temp, index, false;
    var j := 0;
    while j < |succs|
      invariant 0 <= j <= |succs| && r < |arena.nodes| && succs == Successors(p, arena.nodes[r].state)
      invariant Run(p, U, arena.prv, arena.nodes, index', base) && NoGoalBetween(p, arena.nodes, base, |arena.nodes|)
      invariant old(arena.nodes) <= arena.nodes && Consecutive(temp', hi, |arena.nodes|)
      invariant ChildrenOf(arena.nodes, old(|arena.nodes|), r) && Extends(index', index)
      invariant forall jj :: 0 <= jj < j ==> Placed(arena.nodes, index', succs[jj].state, old(|arena.nodes|), r)
    {
      ghost var before, indexBefore := arena.nodes, index';
      temp', index', hit := VisitChild(p, U, arena, r, succs[j], temp', index', base, hi);
      VisitStep(old(arena.nodes), index, before, indexBefore, arena.nodes, index', succs, j, r);
      if hit {
        return;
      }
      j := j + 1;
    }
  }

  /** `for r in laye`: expands the nodes of one layer, all at depth `d`, in
      order; `temp` collects the nodes of the next layer.  Unless a goal node
      turns up, every node created before the layer ends up expanded. */
  method ExpandLayer<S(==,!new), A(!new)>(p: Problem<S, A>, ghost U: set<S>, arena: NodeArena<S, A>, laye: seq<nat>,
                                          ghost index: map<S, nat>, ghost base: nat, ghost lo: nat, ghost d: nat)
    returns (temp: seq<nat>, ghost index': map<S, nat>, hit: bool)
    requires Closed(p, U) && Run(p, U, arena.prv, arena.nodes, index, base)
    requires NoGoalBetween(p, arena.nodes, base, |arena.nodes|)
    requires base <= lo && Consecutive(laye, lo, |arena.nodes|)
    requires Shallower(arena.nodes, base, lo, d) && AtDepth(arena.nodes, lo, |arena.nodes|, d)
    requires Expanded(p, arena.nodes, index, base, lo)
    modifies arena
    ensures Run(p, U, arena.prv, arena.nodes, index', base)
    ensures old(arena.nodes) <= arena.nodes && Consecutive(temp, old(|arena.nodes|), |arena.nodes|)
    ensures DepthsKept(arena.nodes, old(arena.nodes)) && AtDepth(arena.nodes, old(|arena.nodes|), |arena.nodes|, d + 1)
    ensures Extends(index', index) && Progress(U, index', index, |arena.nodes| > old(|arena.nodes|))
    ensures hit ==> |arena.nodes| > old(|arena.nodes|) && IsGoal(p, arena.nodes[|arena.nodes| - 1].state)
    ensures hit ==> NoGoalBetween(p, arena.nodes, base, |arena.nodes| - 1)
    ensures !hit ==> NoGoalBetween(p, arena.nodes, base, |arena.nodes|)
    ensures !hit ==> Expanded(p, arena.nodes, index', base, old(|arena.nodes|))
  {
    ghost var nodes0 := arena.nodes;
    temp, index', hit := [], index, false;
    var i := 0;
    while i < |laye|
      invariant 0 <= i <= |laye| && nodes0 == old(arena.nodes)
      invariant Run(p, U, arena.prv, arena.nodes, index', base) && NoGoalBetween(p, arena.nodes, base, |arena.nodes|)
      invariant nodes0 <= arena.nodes && Consecutive(temp, |nodes0|, |arena.nodes|)
      invariant DepthsKept(arena.nodes, nodes0) && AtDepth(arena.nodes, |nodes0|, |arena.nodes|, d + 1)
      invariant Expanded(p, arena.nodes, index', base, lo + i)
      invariant Extends(index', index) && Progress(U, index', index, |arena.nodes| > |nodes0|)
    {
      var r := laye[i];
      ghost var before, indexBefore := arena.nodes, index';
      assert r == lo + i && arena.nodes[r].state in index';
      temp, index', hit := ExpandNode(p, U, arena, r, temp, index', base, |nodes0|);
      LayerStep(U, nodes0, index, before, indexBefore, arena.nodes, index', base, lo, r, d);
      if hit {
        return;
      }
      LayerExpanded(p, nodes0, before, indexBefore, arena.nodes, index', base, lo, r, d);
      i := i + 1;
    }
  }

  /** `breadthFirstSearch(problem)` on the arena of `Node` objects, with `PRV`
      empty as every search leaves it.  `U` bounds the reachable states. */
  method BreadthFirstSearch<S(==,!new), A(!new)>(p: Problem<S, A>, ghost U: set<S>, arena: NodeArena<S, A>)
    returns (actions: seq<A>, ghost found: bool)
    requires Closed(p, U) && arena.Valid() && arena.prv == []
    modifies arena
    ensures arena.Valid() && arena.prv == []
    ensures |old(arena.nodes)| < |arena.nodes| && old(arena.nodes) <= arena.nodes
    ensures DistinctStates(arena.nodes, |old(arena.nodes)|)
    ensures found ==> exists w :: Solves(p, w) && End(p.start, w) != p.start && ActionsOf(w) == actions
    ensures found ==> forall w :: Solves(p, w) && End(p.start, w) != p.start ==> |actions| <= |w|
    ensures !found ==> actions == [] && forall w :: Solves(p, w) ==> End(p.start, w) == p.start
  {
    ghost var base := |arena.nodes|;
    var root := arena.NewNode(p.start, None, None, 0);
    ghost var index: map<S, nat> := map[p.start := root];
    RootTree(p, arena.nodes, base);
    var laye := [root];
    ghost var lo, d := base, 0;
    while laye != []
      invariant Run(p, U, arena.prv, arena.nodes, index, base) && NoGoalBetween(p, arena.nodes, base, |arena.nodes|)
      invariant base == |old(arena.nodes)| <= lo && old(arena.nodes) <= arena.nodes
      invariant Consecutive(laye, lo, |arena.nodes|)
      invariant Shallower(arena.nodes, base, lo, d) && AtDepth(arena.nodes, lo, |arena.nodes|, d)
      invariant Expanded(p, arena.nodes, index, base, lo)
      decreases U - index.Keys, |laye|
    {
      assert NoGoalWithin(p, d) by {
        forall w | Solves(p, w) && |w| <= d
          ensures End(p.start, w) == p.start
        {
          GoalsCovered(p, arena.nodes, index, base, lo, d, w);
        }
      }
      ghost var before, index0 := arena.nodes, index;
      var temp, hit;
      temp, index, hit := ExpandLayer(p, U, arena, laye, index, base, lo, d);
      if hit {
        var node := temp[|temp| - 1];
        FoundShortest(p, arena.nodes, index, base, |before|, node, d);
        IndexedDistinct(index, arena.nodes, base);
        ghost var w := RootWalk(arena.nodes, node);
        actions := arena.PathTo(node);
        arena.Clear();
        found := true;
        assert Solves(p, w) && End(p.start, w) != p.start && ActionsOf(w) == actions;
        return;
      }
      LayerDone(before, arena.nodes, base, lo, d);
      laye := temp;
      lo, d := |before|, d + 1;
    }
    arena.Clear();
    actions, found := [], false;
    IndexedDistinct(index, arena.nodes, base);
    forall w | Solves(p, w)
      ensures End(p.start, w) == p.start
    {
      GoalsCovered(p, arena.nodes, index, base, lo, |w|, w);
    }
  }
}
