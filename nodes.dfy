/** The `Node` class of the searches.  Every `Node` object ever created is a
    record in an arena, `NodeArena.nodes`, and refers to its parent by its
    index there; the class-level list `Node.PRV`, which every constructor
    call appends to and `Node.clear` empties, is the field `NodeArena.prv`. */
module Nodes {
  import opened SearchProblem

  datatype Option<T> = None | Some(value: T)

  /** A `Node` object: its state, the action that reached it (`None` stands
      for the default empty label of a root), its parent and the cost
      accumulated from the root. */
  datatype Node<S, A> = Node(state: S, direction: Option<A>, parent: Option<nat>, cost: nat)

  /** Parent links point backwards, a node with a parent carries an action,
      and costs never fall along a parent link. */
  ghost predicate WellFormed<S, A>(nodes: seq<Node<S, A>>)
  {
    forall i {:trigger nodes[i].parent} :: 0 <= i < |nodes| && nodes[i].parent.Some? ==>
      nodes[i].parent.value < i && nodes[i].direction.Some? &&
      nodes[nodes[i].parent.value].cost <= nodes[i].cost
  }

  /** The tree edges from the root of node `i` down to node `i`: one
      successor triple per parent link, labelled with the child's action and
      costing the difference of the two accumulated costs. */
  function RootWalk<S, A>(nodes: seq<Node<S, A>>, i: nat): (w: seq<Successor<S, A>>)
    requires WellFormed(nodes) && i < |nodes|
    decreases i
  {
    match nodes[i].parent
    case None => []
    case Some(j) =>
      RootWalk(nodes, j) + [Successor(nodes[i].state, nodes[i].direction.value, nodes[i].cost - nodes[j].cost)]
  }

  /** Creating a node changes no existing node's root walk. */
  lemma {:induction false} RootWalkStable<S, A>(nodes: seq<Node<S, A>>, x: Node<S, A>, i: nat)
    requires WellFormed(nodes) && WellFormed(nodes + [x]) && i < |nodes|
    ensures RootWalk(nodes + [x], i) == RootWalk(nodes, i)
    decreases i
  {
    if nodes[i].parent.Some? {
      RootWalkStable(nodes, x, nodes[i].parent.value);
    }
  }

  /** Creating any number of nodes changes no existing node's root walk. */
  lemma {:induction false} RootWalkPrefix<S, A>(nodes: seq<Node<S, A>>, more: seq<Node<S, A>>, i: nat)
    requires WellFormed(nodes) && WellFormed(nodes + more) && i < |nodes|
    ensures RootWalk(nodes + more, i) == RootWalk(nodes, i)
    decreases i
  {
    if nodes[i].parent.Some? {
      RootWalkPrefix(nodes, more, nodes[i].parent.value);
    }
  }

  /** Every node of `nodes0` has the same root walk in `nodes`. */
  ghost predicate RootWalksKept<S, A>(nodes: seq<Node<S, A>>, nodes0: seq<Node<S, A>>)
  {
    WellFormed(nodes) && WellFormed(nodes0) && |nodes0| <= |nodes| &&
    forall i :: 0 <= i < |nodes0| ==> RootWalk(nodes, i) == RootWalk(nodes0, i)
  }

  /** `path[::-1]`: the elements of `s` in the opposite order. */
  function Reversed<T>(s: seq<T>): (r: seq<T>)
    ensures |r| == |s|
    ensures forall i :: 0 <= i < |s| ==> r[i] == s[|s| - 1 - i]
    decreases |s|
  {
    if s == [] then [] else [s[|s| - 1]] + Reversed(s[..|s| - 1])
  }

  /** The class object `Node`, with all of its instances. */
  class NodeArena<S(==), A> {
    /** `Node.PRV`: the state of every node created since the last `clear`. */
    var prv: seq<S>
    /** Every `Node` object created so far, by creation order. */
    var nodes: seq<Node<S, A>>

    ghost predicate Valid()
      reads this
    {
      WellFormed(nodes)
    }

    /** The class as it is when the program starts: `PRV = []`, no node. */
    constructor ()
      ensures Valid() && prv == [] && nodes == []
    {
      prv := [];
      nodes := [];
    }

    /** `Node.__init__`: records the new node and appends its state to `PRV`. */
    method NewNode(state: S, direction: Option<A>, parent: Option<nat>, cost: nat) returns (id: nat)
      requires Valid()
      requires parent.Some? ==> parent.value < |nodes| && direction.Some? && nodes[parent.value].cost <= cost
      modifies this
      ensures Valid()
      ensures id == old(|nodes|) && nodes == old(nodes) + [Node(state, direction, parent, cost)]
      ensures prv == old(prv) + [state]
      ensures RootWalksKept(nodes, old(nodes))
    {
      ghost var before := nodes;
      id := |nodes|;
      nodes := nodes + [Node(state, direction, parent, cost)];
      prv := prv + [state];
      forall i | 0 <= i < id
        ensures RootWalk(nodes, i) == RootWalk(before, i)
      {
        RootWalkStable(before, Node(state, direction, parent, cost), i);
      }
    }

    /** `Node.add_child`: a new node for the successor triple `child`, whose
        parent is node `parent` and whose cost is the parent's cost plus the
        step cost; its root walk is the parent's followed by `child`. */
    method AddChild(parent: nat, child: Successor<S, A>) returns (id: nat)
      requires Valid() && parent < |nodes|
      modifies this
      ensures Valid()
      ensures id == old(|nodes|)
      ensures nodes == old(nodes) + [Node(child.state, Some(child.action), Some(parent), old(nodes[parent].cost) + child.cost)]
      ensures prv == old(prv) + [child.state]
      ensures RootWalksKept(nodes, old(nodes))
      ensures RootWalk(nodes, id) == RootWalk(old(nodes), parent) + [child]
    {
      id := NewNode(child.state, Some(child.action), Some(parent), nodes[parent].cost + child.cost);
    }

    /** `Node.clear`: empties `PRV`; the nodes themselves are left alone. */
    method Clear()
      modifies this
      ensures prv == [] && nodes == old(nodes)
    {
      prv := [];
    }

    /** The parent walk shared by the searches: collect the actions from node
        `id` up to its root, then reverse them.  The result is the action
        sequence of the node's root walk. */
    method PathTo(id: nat) returns (path: seq<A>)
      requires Valid() && id < |nodes|
      ensures path == ActionsOf(RootWalk(nodes, id))
    {
      var upward: seq<A> := [];
      var n: nat := id;
      while nodes[n].parent.Some?
        invariant n < |nodes|
        invariant ActionsOf(RootWalk(nodes, id)) == ActionsOf(RootWalk(nodes, n)) + Reversed(upward)
        decreases n
      {
        var j := nodes[n].parent.value;
        var step := Successor(nodes[n].state, nodes[n].direction.value, nodes[n].cost - nodes[j].cost);
        assert ActionsOf(RootWalk(nodes, j) + [step]) == ActionsOf(RootWalk(nodes, j)) + [step.action];
        assert Reversed(upward + [step.action]) == [step.action] + Reversed(upward);
        upward := upward + [step.action];
        n := j;
      }
      path := Reversed(upward);
    }
  }
}
