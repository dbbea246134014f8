/** What the breadth-first, uniform-cost and A* searches know about the
    nodes one run creates: the run's nodes form a tree rooted at a node for
    the start state, every node's parent walk leads from the start state to
    the node's state and costs the node's cost, and `Node.PRV` lists the
    run's states in creation order. */
module SearchTree {
  import opened SearchProblem
  import opened Nodes

  /** The number of tree edges from node `k` up to its root. */
  ghost function Depth<S, A>(nodes: seq<Node<S, A>>, k: nat): (d: nat)
    requires WellFormed(nodes) && k < |nodes|
    decreases k
  {
    match nodes[k].parent
    case None => 0
    case Some(j) => Depth(nodes, j) + 1
  }

  /** A node's depth is the length of its root walk. */
  lemma {:induction false} DepthWalk<S, A>(nodes: seq<Node<S, A>>, k: nat)
    requires WellFormed(nodes) && k < |nodes|
    ensures Depth(nodes, k) == |RootWalk(nodes, k)|
    decreases k
  {
    if nodes[k].parent.Some? {
      DepthWalk(nodes, nodes[k].parent.value);
    }
  }

  /** Node `k`'s root walk is a walk from the start state that ends at the
      node's state and costs the node's accumulated cost. */
  ghost predicate Reaches<S, A>(p: Problem<S, A>, nodes: seq<Node<S, A>>, k: nat)
    requires WellFormed(nodes) && k < |nodes|
  {
    var w := RootWalk(nodes, k);
    IsWalk(p, p.start, w) && End(p.start, w) == nodes[k].state && CostOf(w) == nodes[k].cost
  }

  /** The nodes from `base` on are those of one run: `base` is the root,
      `Node(problem.getStartState())`, and every node reaches its state. */
  ghost predicate RunTree<S, A>(p: Problem<S, A>, nodes: seq<Node<S, A>>, base: nat)
  {
    && WellFormed(nodes) && base < |nodes|
    && nodes[base] == Node(p.start, None, None, 0)
    && forall k :: base <= k < |nodes| ==> Reaches(p, nodes, k)
  }

  /** `Node.PRV` holds the states of the run's nodes, in creation order. */
  ghost predicate Mirror<S, A>(prv: seq<S>, nodes: seq<Node<S, A>>, base: nat)
  {
    base <= |nodes| && |prv| == |nodes| - base && forall k :: 0 <= k < |prv| ==> prv[k] == nodes[base + k].state
  }

  /** `index` maps each state of the run to its one node. */
  ghost predicate Indexed<S, A>(index: map<S, nat>, nodes: seq<Node<S, A>>, base: nat)
  {
    && (forall s :: s in index ==> base <= index[s] < |nodes| && nodes[index[s]].state == s)
    && (forall k :: base <= k < |nodes| ==> nodes[k].state in index && index[nodes[k].state] == k)
  }

  /** The state of node `k`. */
  ghost function StateAt<S, A>(nodes: seq<Node<S, A>>, k: nat): S
    requires k < |nodes|
  {
    nodes[k].state
  }

  /** No two nodes of the run share a state. */
  ghost predicate DistinctStates<S, A>(nodes: seq<Node<S, A>>, base: nat)
  {
    forall a, b :: base <= a < b < |nodes| ==> StateAt(nodes, a) != StateAt(nodes, b)
  }

  /** The root of a run, created on an arena that is well formed. */
  lemma RootTree<S, A>(p: Problem<S, A>, nodes: seq<Node<S, A>>, base: nat)
    requires WellFormed(nodes) && base == |nodes| - 1 && nodes[base] == Node(p.start, None, None, 0)
    ensures RunTree(p, nodes, base)
  {
  }

  /** Appending a child of node `r` keeps parent links well formed. */
  lemma WellFormedSnoc<S, A>(nodes: seq<Node<S, A>>, r: nat, x: Node<S, A>)
    requires WellFormed(nodes) && r < |nodes|
    requires x.parent == Some(r) && x.direction.Some? && nodes[r].cost <= x.cost
    ensures WellFormed(nodes + [x])
  {
    var nodes' := nodes + [x];
    forall i | 0 <= i < |nodes'| && nodes'[i].parent.Some?
      ensures nodes'[i].parent.value < i && nodes'[i].direction.Some?
      ensures nodes'[nodes'[i].parent.value].cost <= nodes'[i].cost
    {
      if i < |nodes| {
        assert nodes'[i] == nodes[i];
      }
    }
  }

  /** An existing node reaches its state after a node is appended. */
  lemma ReachesStable<S, A>(p: Problem<S, A>, nodes: seq<Node<S, A>>, x: Node<S, A>, k: nat)
    requires WellFormed(nodes) && WellFormed(nodes + [x]) && k < |nodes| && Reaches(p, nodes, k)
    ensures Reaches(p, nodes + [x], k)
  {
    RootWalkStable(nodes, x, k);
  }

  /** The child node created for a successor triple of node `r` reaches the
      triple's state, at the parent's cost plus the step cost. */
  lemma ReachesChild<S, A>(p: Problem<S, A>, nodes: seq<Node<S, A>>, r: nat, child: Successor<S, A>)
    requires WellFormed(nodes) && r < |nodes| && Reaches(p, nodes, r)
    requires child in p.successors(nodes[r].state)
    ensures var x := Node(child.state, Some(child.action), Some(r), nodes[r].cost + child.cost);
      WellFormed(nodes + [x]) && Reaches(p, nodes + [x], |nodes|)
  {
    var x := Node(child.state, Some(child.action), Some(r), nodes[r].cost + child.cost);
    WellFormedSnoc(nodes, r, x);
    RootWalkStable(nodes, x, r);
    var w := RootWalk(nodes, r);
    assert RootWalk(nodes + [x], |nodes|) == w + [child];
    assert (w + [child])[..|w|] == w;
  }

  /** `add_child` on a node of the run for one of its successor triples keeps
      the run a tree of walks from the start state. */
  lemma GrowTree<S, A>(p: Problem<S, A>, nodes: seq<Node<S, A>>, base: nat, r: nat, child: Successor<S, A>,
                       nodes': seq<Node<S, A>>)
    requires RunTree(p, nodes, base) && base <= r < |nodes| && child in p.successors(nodes[r].state)
    requires nodes' == nodes + [Node(child.state, Some(child.action), Some(r), nodes[r].cost + child.cost)]
    ensures RunTree(p, nodes', base)
  {
    var x := nodes'[|nodes|];
    ReachesChild(p, nodes, r, child);
    forall k | base <= k < |nodes|
      ensures Reaches(p, nodes', k)
    {
      ReachesStable(p, nodes, x, k);
    }
  }

  /** A node of a run gives a walk from the start state to its state whose
      actions are what the parent walk of `PathTo` collects. */
  lemma NodeWalk<S, A>(p: Problem<S, A>, nodes: seq<Node<S, A>>, base: nat, k: nat)
    requires RunTree(p, nodes, base) && base <= k < |nodes|
    ensures IsWalk(p, p.start, RootWalk(nodes, k)) && End(p.start, RootWalk(nodes, k)) == nodes[k].state
    ensures CostOf(RootWalk(nodes, k)) == nodes[k].cost
  {
    assert Reaches(p, nodes, k);
  }

  /** A run's new state joins `PRV`, the node list and the index together. */
  lemma GrowIndex<S, A>(prv: seq<S>, nodes: seq<Node<S, A>>, index: map<S, nat>, base: nat, x: Node<S, A>)
    requires Mirror(prv, nodes, base) && Indexed(index, nodes, base) && x.state !in index
    ensures Mirror(prv + [x.state], nodes + [x], base)
    ensures Indexed(index[x.state := |nodes|], nodes + [x], base)
  {
  }

  /** With an index, membership in `PRV` is membership in the index. */
  lemma MirrorIndex<S, A>(prv: seq<S>, nodes: seq<Node<S, A>>, index: map<S, nat>, base: nat, s: S)
    requires Mirror(prv, nodes, base) && Indexed(index, nodes, base)
    ensures s in prv <==> s in index
  {
    if s in index {
      assert prv[index[s] - base] == s;
    }
  }

  /** An index makes the run's states pairwise distinct. */
  lemma IndexedDistinct<S, A>(index: map<S, nat>, nodes: seq<Node<S, A>>, base: nat)
    requires Indexed(index, nodes, base)
    ensures DistinctStates(nodes, base)
  {
  }

  /** Creating any number of nodes moves no existing node up or down its
      tree. */
  lemma DepthPrefix<S, A>(nodes: seq<Node<S, A>>, nodes': seq<Node<S, A>>)
    requires WellFormed(nodes) && WellFormed(nodes') && nodes <= nodes'
    ensures forall k :: 0 <= k < |nodes| ==> Depth(nodes', k) == Depth(nodes, k)
  {
    forall k | 0 <= k < |nodes|
      ensures Depth(nodes', k) == Depth(nodes, k)
    {
      assert nodes' == nodes + nodes'[|nodes|..];
      DepthWalk(nodes, k);
      DepthWalk(nodes', k);
      RootWalkPrefix(nodes, nodes'[|nodes|..], k);
    }
  }

  /** The nodes of the run form a tree of walks from the start, `PRV` lists
      their states, each state of `U` has at most one node. */
  ghost predicate Run<S, A>(p: Problem<S, A>, U: set<S>, prv: seq<S>, nodes: seq<Node<S, A>>,
                            index: map<S, nat>, base: nat)
  {
    RunTree(p, nodes, base) && Mirror(prv, nodes, base) && Indexed(index, nodes, base) && forall s :: s in index ==> s in U
  }

  /** `index'` keeps every entry of `index`. */
  ghost predicate Extends<S>(index': map<S, nat>, index: map<S, nat>)
  {
    forall s :: s in index ==> s in index' && index'[s] == index[s]
  }

  /** The index is unchanged, or, when nodes were created, it covers more of
      `U`: the measure by which the search terminates. */
  ghost predicate Progress<S>(U: set<S>, index': map<S, nat>, index: map<S, nat>, grown: bool)
  {
    (!grown ==> index' == index) && (grown ==> U - index'.Keys < U - index.Keys)
  }

  /** `r.add_child(child)` for a successor whose state is not in `PRV`. */
  lemma GrowRun<S, A>(p: Problem<S, A>, U: set<S>, prv: seq<S>, nodes: seq<Node<S, A>>, index: map<S, nat>,
                      base: nat, r: nat, child: Successor<S, A>)
    requires Run(p, U, prv, nodes, index, base) && child.state in U
    requires base <= r < |nodes| && child in Successors(p, nodes[r].state) && child.state !in prv
    ensures child.state !in index
    ensures var x := Node(child.state, Some(child.action), Some(r), nodes[r].cost + child.cost);
      Run(p, U, prv + [child.state], nodes + [x], index[child.state := |nodes|], base)
  {
    var x := Node(child.state, Some(child.action), Some(r), nodes[r].cost + child.cost);
    MirrorIndex(prv, nodes, index, base, child.state);
    GrowTree(p, nodes, base, r, child, nodes + [x]);
    GrowIndex(prv, nodes, index, base, x);
  }
}
