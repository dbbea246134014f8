/** `uniformCostSearch`: pops nodes from a `heapq` list keyed by accumulated
    cost, records in `COSTS` the cost at which each state is first popped,
    skips an entry whose state was recorded at a strictly smaller cost, and
    goal tests each node as it is popped.  Successors are pushed without
    any visited check, so a state can have many nodes. */
module UniformCost {
  import opened SearchProblem
  import opened Nodes
  import opened SearchTree
  import opened PriorityQueue

  /** Every step inside `U` costs something.  With a cycle of steps that
      cost nothing the search can pop and push forever. */
  ghost predicate PositiveCosts<S, A>(p: Problem<S, A>, U: set<S>)
  {
    forall s, e :: s in U && e in p.successors(s) ==> e.cost > 0
  }

  /** `w` costs no more than any solution. */
  ghost predicate Cheapest<S(!new), A(!new)>(p: Problem<S, A>, w: seq<Successor<S, A>>)
  {
    forall v :: Solves(p, v) ==> CostOf(w) <= CostOf(v)
  }

  /** Every heap entry holds a node of the run and is keyed by the node's
      accumulated cost. */
  ghost predicate Keyed<S, A>(nodes: seq<Node<S, A>>, heap: seq<Entry>, base: nat)
  {
    forall x :: x in heap ==> base <= x.node < |nodes| && x.priority == nodes[x.node].cost
  }

  /** The heap holds a node for state `t` keyed at most `bound`. */
  ghost predicate Queued<S, A>(nodes: seq<Node<S, A>>, heap: seq<Entry>, t: S, bound: nat)
  {
    exists x :: x in heap && x.node < |nodes| && nodes[x.node].state == t && x.priority <= bound
  }

  /** Each successor state of the recorded state `u` is recorded, or queued
      at no more than `COSTS[u]` plus the step cost. */
  ghost predicate Relaxed<S, A>(p: Problem<S, A>, nodes: seq<Node<S, A>>, heap: seq<Entry>, costs: map<S, nat>, u: S)
    requires u in costs
  {
    forall e :: e in Successors(p, u) ==> e.state in costs || Queued(nodes, heap, e.state, costs[u] + e.cost)
  }

  /** The start state is recorded or queued at 0, and every recorded state
      other than `s` is relaxed. */
  ghost predicate FrontierBut<S, A>(p: Problem<S, A>, nodes: seq<Node<S, A>>, heap: seq<Entry>, costs: map<S, nat>,
                                    s: Option<S>)
  {
    && (p.start in costs || Queued(nodes, heap, p.start, 0))
    && forall u :: u in costs && Some(u) != s ==> Relaxed(p, nodes, heap, costs, u)
  }

  /** No recorded cost is more than the cost of a walk from the start to
      the state. */
  ghost predicate Optimal<S(!new), A(!new)>(p: Problem<S, A>, costs: map<S, nat>)
  {
    forall w :: IsWalk(p, p.start, w) && End(p.start, w) in costs ==> costs[End(p.start, w)] <= CostOf(w)
  }

  /** No recorded cost is more than a key in the heap. */
  ghost predicate Below<S>(costs: map<S, nat>, heap: seq<Entry>)
  {
    forall u, x :: u in costs && x in heap ==> costs[u] <= x.priority
  }

  /** No recorded state is a goal: the search stops at the first one. */
  ghost predicate NoGoalRecorded<S, A>(p: Problem<S, A>, costs: map<S, nat>)
  {
    forall u :: u in costs ==> !IsGoal(p, u)
  }

  /** What holds of the search at the top of its `while heap` loop. */
  ghost predicate Search<S(!new), A(!new)>(p: Problem<S, A>, nodes: seq<Node<S, A>>, heap: seq<Entry>,
                                           costs: map<S, nat>, base: nat)
  {
    && RunTree(p, nodes, base) && Keyed(nodes, heap, base)
    && FrontierBut(p, nodes, heap, costs, None) && Optimal(p, costs)
    && Below(costs, heap) && NoGoalRecorded(p, costs)
  }

  /** Every key in the heap lies between `lo` and `hi`. */
  ghost predicate Bounded(heap: seq<Entry>, lo: nat, hi: nat)
  {
    forall x :: x in heap ==> lo <= x.priority <= hi
  }

  /** The number of heap entries keyed `c`. */
  function AtLevel(heap: seq<Entry>, c: nat): (r: nat)
    ensures r <= |heap|
    ensures r == 0 <== forall x :: x in heap ==> x.priority != c
    decreases |heap|
  {
    if heap == [] then 0 else (if heap[0].priority == c then 1 else 0) + AtLevel(heap[1..], c)
  }

  lemma {:induction false} AtLevelAppend(a: seq<Entry>, b: seq<Entry>, c: nat)
    ensures AtLevel(a + b, c) == AtLevel(a, c) + AtLevel(b, c)
    decreases |a|
  {
    if a != [] {
      assert (a + b)[0] == a[0] && (a + b)[1..] == a[1..] + b;
      AtLevelAppend(a[1..], b, c);
    } else {
      assert a + b == b;
    }
  }

  /** Popping an entry keyed `c` leaves one entry keyed `c` fewer. */
  lemma AtLevelPop(heap: seq<Entry>, i: nat, c: nat)
    requires i < |heap| && heap[i].priority == c
    ensures AtLevel(heap[..i] + heap[i + 1..], c) + 1 == AtLevel(heap, c)
  {
    assert heap == heap[..i] + ([heap[i]] + heap[i + 1..]);
    AtLevelAppend(heap[..i], [heap[i]] + heap[i + 1..], c);
    AtLevelAppend([heap[i]], heap[i + 1..], c);
    AtLevelAppend(heap[..i], heap[i + 1..], c);
  }

  /** The largest step cost of a successor list. */
  function MaxStep<S, A>(succs: seq<Successor<S, A>>): (r: nat)
    ensures forall e :: e in succs ==> e.cost <= r
    ensures succs != [] ==> exists e :: e in succs && e.cost == r
    decreases |succs|
  {
    if succs == [] then 0
    else
      var m := MaxStep(succs[1..]);
      assert forall e :: e in succs ==> e == succs[0] || e in succs[1..];
      if succs[0].cost < m then m else succs[0].cost
  }

  /** A finite set of states has a bound on the cost of their steps. */
  lemma {:induction false} StepBound<S, A>(p: Problem<S, A>, V: set<S>) returns (C: nat)
    ensures forall s, e :: s in V && e in p.successors(s) ==> e.cost <= C
    decreases |V|
  {
    if V == {} {
      C := 0;
    } else {
      var s :| s in V;
      var C' := StepBound(p, V - {s});
      var m := MaxStep(p.successors(s));
      C := if C' < m then m else C';
    }
  }

  /** A sequence of distinct elements of `V` is no longer than `V`. */
  lemma {:induction false} DistinctWithin<T>(q: seq<T>, V: set<T>)
    requires Distinct(q) && forall x :: x in q ==> x in V
    ensures |q| <= |V|
    decreases |q|
  {
    if q != [] {
      assert q == [q[0]] + q[1..];
      DistinctCons(q[0], q[1..]);
      DistinctWithin(q[1..], V - {q[0]});
    }
  }

  /** A walk inside `U` costs at most its length times the step bound. */
  lemma {:induction false} CostWithin<S, A>(p: Problem<S, A>, U: set<S>, C: nat, s: S, w: seq<Successor<S, A>>)
    requires ClosedUnder(p, U) && s in U && IsWalk(p, s, w)
    requires forall t, e :: t in U && e in p.successors(t) ==> e.cost <= C
    ensures CostOf(w) <= |w| * C
    decreases |w|
  {
    if w != [] {
      var w' := w[..|w| - 1];
      CostWithin(p, U, C, s, w');
      StaysWithin(p, U, s, w');
    }
  }

  /** Every state a walk inside a closed `U` passes through is in `U`. */
  lemma StatesWithin<S, A>(p: Problem<S, A>, U: set<S>, s: S, v: seq<Successor<S, A>>)
    requires ClosedUnder(p, U) && s in U && IsWalk(p, s, v)
    ensures forall x :: x in StatesOf(s, v) ==> x in U
  {
    var q := StatesOf(s, v);
    forall i | 0 <= i < |q|
      ensures q[i] in U
    {
      WalkPrefix(p, s, v, i);
      StaysWithin(p, U, s, v[..i]);
    }
  }

  /** A state reachable from the start in a finite closed `U` can be reached
      at a cost of at most `(|U| - 1) * C`. */
  lemma CheapWalk<S, A>(p: Problem<S, A>, U: set<S>, C: nat, w: seq<Successor<S, A>>)
    returns (v: seq<Successor<S, A>>)
    requires Closed(p, U) && IsWalk(p, p.start, w)
    requires forall t, e :: t in U && e in p.successors(t) ==> e.cost <= C
    ensures IsWalk(p, p.start, v) && End(p.start, v) == End(p.start, w)
    ensures |v| < |U| && CostOf(v) <= (|U| - 1) * C
  {
    v := Shortcut(p, p.start, w);
    StatesWithin(p, U, p.start, v);
    DistinctWithin(StatesOf(p.start, v), U);
    CostWithin(p, U, C, p.start, v);
    assert |v| * C <= (|U| - 1) * C;
  }

  /** A walk from the start that ends at an unrecorded state has a heap
      entry keyed at most its cost: follow it to the first unrecorded state
      on it, which a relaxed predecessor (or the start) queued. */
  lemma {:induction false} Cheaper<S(!new), A(!new)>(p: Problem<S, A>, nodes: seq<Node<S, A>>, heap: seq<Entry>,
                                                      costs: map<S, nat>, w: seq<Successor<S, A>>)
    requires FrontierBut(p, nodes, heap, costs, None) && Optimal(p, costs)
    requires IsWalk(p, p.start, w) && End(p.start, w) !in costs
    ensures exists x :: x in heap && x.priority <= CostOf(w)
    decreases |w|
  {
    if w == [] {
      assert Queued(nodes, heap, p.start, 0);
    } else {
      var w' := w[..|w| - 1];
      var u := End(p.start, w');
      if u in costs {
        assert Relaxed(p, nodes, heap, costs, u);
        assert Queued(nodes, heap, w[|w| - 1].state, costs[u] + w[|w| - 1].cost);
      } else {
        Cheaper(p, nodes, heap, costs, w');
      }
    }
  }

  /** An entry taken out of the heap was the only witness of `Queued` only
      if its state is recorded in `costs'`. */
  lemma QueuedPop<S, A>(nodes: seq<Node<S, A>>, heap: seq<Entry>, rest: seq<Entry>, e: Entry,
                        costs': map<S, nat>, t: S, bound: nat)
    requires Queued(nodes, heap, t, bound) && forall x :: x in heap && x != e ==> x in rest
    requires e.node < |nodes| && nodes[e.node].state in costs'
    ensures t in costs' || Queued(nodes, rest, t, bound)
  {
    var x :| x in heap && x.node < |nodes| && nodes[x.node].state == t && x.priority <= bound;
    if x != e {
      assert x in rest;
    }
  }

  /** `heappop` took out entry `e` for a state recorded at a strictly
      smaller cost: the search goes on with the rest of the heap. */
  lemma SkipStep<S(!new), A(!new)>(p: Problem<S, A>, nodes: seq<Node<S, A>>, heap: seq<Entry>, rest: seq<Entry>,
                                   costs: map<S, nat>, base: nat, e: Entry)
    requires Search(p, nodes, heap, costs, base) && e in heap
    requires forall x :: x in heap && x != e ==> x in rest
    requires forall x :: x in rest ==> x in heap
    requires nodes[e.node].state in costs
    ensures Search(p, nodes, rest, costs, base)
  {
    if p.start !in costs {
      QueuedPop(nodes, heap, rest, e, costs, p.start, 0);
    }
    forall u | u in costs
      ensures Relaxed(p, nodes, rest, costs, u)
    {
      assert Relaxed(p, nodes, heap, costs, u);
      forall e' | e' in Successors(p, u) && e'.state !in costs
        ensures Queued(nodes, rest, e'.state, costs[u] + e'.cost)
      {
        QueuedPop(nodes, heap, rest, e, costs, e'.state, costs[u] + e'.cost);
      }
    }
  }

  /** `COSTS[node.state] = cost` for the popped entry `e` of least key:
      the key is the cheapest cost of the state, and every recorded state
      other than it stays relaxed. */
  lemma RecordStep<S(!new), A(!new)>(p: Problem<S, A>, nodes: seq<Node<S, A>>, heap: seq<Entry>, rest: seq<Entry>,
                                     costs: map<S, nat>, base: nat, e: Entry)
    requires Search(p, nodes, heap, costs, base) && e in heap
    requires forall x :: x in heap ==> e.priority <= x.priority
    requires forall x :: x in heap && x != e ==> x in rest
    requires forall x :: x in rest ==> x in heap
    requires var s := nodes[e.node].state; !(s in costs && costs[s] < e.priority)
    ensures var costs' := costs[nodes[e.node].state := e.priority];
      && FrontierBut(p, nodes, rest, costs', Some(nodes[e.node].state)) && Optimal(p, costs')
      && Below(costs', rest) && (forall u :: u in costs' ==> costs'[u] <= e.priority)
      && Keyed(nodes, rest, base)
  {
    var s := nodes[e.node].state;
    var costs' := costs[s := e.priority];
    if s in costs {
      assert costs' == costs;
    }
    if p.start !in costs {
      QueuedPop(nodes, heap, rest, e, costs', p.start, 0);
    }
    forall u | u in costs' && u != s
      ensures Relaxed(p, nodes, rest, costs', u)
    {
      assert Relaxed(p, nodes, heap, costs, u);
      forall e' | e' in Successors(p, u) && e'.state !in costs'
        ensures Queued(nodes, rest, e'.state, costs'[u] + e'.cost)
      {
        QueuedPop(nodes, heap, rest, e, costs', e'.state, costs[u] + e'.cost);
      }
    }
    forall w | IsWalk(p, p.start, w) && End(p.start, w) == s && s !in costs
      ensures e.priority <= CostOf(w)
    {
      Cheaper(p, nodes, heap, costs, w);
    }
  }

  /** The goal state popped first is reached by the popped node's parent
      walk, and no solution costs less: every cheaper one would end at an
      unrecorded goal, queued below the least key. */
  lemma FoundCheapest<S(!new), A(!new)>(p: Problem<S, A>, nodes: seq<Node<S, A>>, heap: seq<Entry>,
                                        costs: map<S, nat>, base: nat, e: Entry)
    requires Search(p, nodes, heap, costs, base) && e in heap
    requires forall x :: x in heap ==> e.priority <= x.priority
    requires IsGoal(p, nodes[e.node].state)
    ensures Solves(p, RootWalk(nodes, e.node)) && Cheapest(p, RootWalk(nodes, e.node))
  {
    NodeWalk(p, nodes, base, e.node);
    forall v | Solves(p, v)
      ensures e.priority <= CostOf(v)
    {
      Cheaper(p, nodes, heap, costs, v);
    }
  }

  /** The children pushed for a node recorded at `cost` are keyed within
      `|U| * C`. */
  lemma BoundStep<S(!new), A(!new)>(p: Problem<S, A>, U: set<S>, C: nat, nodes: seq<Node<S, A>>,
                                    costs: map<S, nat>, base: nat, n: nat)
    requires Closed(p, U) && forall t, e :: t in U && e in p.successors(t) ==> e.cost <= C
    requires RunTree(p, nodes, base) && base <= n < |nodes|
    requires Optimal(p, costs) && nodes[n].state in costs
    ensures forall e :: e in Successors(p, nodes[n].state) ==> costs[nodes[n].state] + e.cost <= |U| * C
  {
    NodeWalk(p, nodes, base, n);
    var v := CheapWalk(p, U, C, RootWalk(nodes, n));
    StaysWithin(p, U, p.start, v);
  }

  /** `nodes'` and `heap'` are `nodes` and `heap` with one child node of
      node `n` and one heap entry keyed `cost` plus the step cost for each
      successor triple of `n`'s state, in order. */
  ghost predicate Pushed<S, A>(p: Problem<S, A>, nodes: seq<Node<S, A>>, nodes': seq<Node<S, A>>,
                               heap: seq<Entry>, heap': seq<Entry>, n: nat, cost: nat)
  {
    && n < |nodes| && nodes <= nodes' && heap <= heap'
    && var succs := Successors(p, nodes[n].state);
    && |nodes'| == |nodes| + |succs| && |heap'| == |heap| + |succs|
    && (forall j :: 0 <= j < |succs| ==>
          nodes'[|nodes| + j] == Node(succs[j].state, Some(succs[j].action), Some(n), nodes[n].cost + succs[j].cost))
    && (forall j :: 0 <= j < |succs| ==> heap'[|heap| + j] == Entry(cost + succs[j].cost, |nodes| + j))
  }

  /** The entries pushed for node `n`, recorded at `cost`, are keyed by
      their nodes' costs, above `cost` and within `hi`. */
  lemma PushKeys<S, A>(p: Problem<S, A>, U: set<S>, nodes: seq<Node<S, A>>, rest: seq<Entry>, base: nat,
                       n: nat, cost: nat, nodes': seq<Node<S, A>>, heap': seq<Entry>, hi: nat)
    requires Pushed(p, nodes, nodes', rest, heap', n, cost) && base <= n && nodes[n].cost == cost
    requires Keyed(nodes, rest, base) && Bounded(rest, cost, hi)
    requires PositiveCosts(p, U) && nodes[n].state in U
    requires forall e :: e in Successors(p, nodes[n].state) ==> cost + e.cost <= hi
    ensures Keyed(nodes', heap', base) && Bounded(heap', cost, hi) && AtLevel(heap', cost) == AtLevel(rest, cost)
  {
    var succs := Successors(p, nodes[n].state);
    var pushed := heap'[|rest|..];
    assert heap' == rest + pushed;
    forall j | 0 <= j < |pushed|
      ensures base <= pushed[j].node < |nodes'| && pushed[j].priority == nodes'[pushed[j].node].cost
      ensures cost < pushed[j].priority <= hi
    {
      assert pushed[j] == heap'[|rest| + j] && succs[j] in Successors(p, nodes[n].state);
      assert nodes'[|nodes| + j].cost == cost + succs[j].cost;
    }
    AtLevelAppend(rest, pushed, cost);
    forall x | x in heap'
      ensures base <= x.node < |nodes'| && x.priority == nodes'[x.node].cost
      ensures cost <= x.priority <= hi
    {
      if x in rest {
        assert nodes'[x.node] == nodes[x.node];
      } else {
        var j :| 0 <= j < |pushed| && pushed[j] == x;
      }
    }
  }

  /** New nodes and entries keep every queued state queued. */
  lemma QueuedGrow<S, A>(nodes: seq<Node<S, A>>, heap: seq<Entry>, nodes': seq<Node<S, A>>, heap': seq<Entry>,
                         t: S, bound: nat)
    requires Queued(nodes, heap, t, bound) && nodes <= nodes' && heap <= heap'
    ensures Queued(nodes', heap', t, bound)
  {
    var x :| x in heap && x.node < |nodes| && nodes[x.node].state == t && x.priority <= bound;
    assert x in heap' && nodes'[x.node] == nodes[x.node];
  }

  /** After the children of the popped node `n`, recorded at `cost`, are
      pushed, its state is relaxed too. */
  lemma PushRelaxed<S, A>(p: Problem<S, A>, nodes: seq<Node<S, A>>, rest: seq<Entry>, costs: map<S, nat>,
                          n: nat, cost: nat, nodes': seq<Node<S, A>>, heap': seq<Entry>)
    requires Pushed(p, nodes, nodes', rest, heap', n, cost)
    requires nodes[n].state in costs && costs[nodes[n].state] == cost
    requires FrontierBut(p, nodes, rest, costs, Some(nodes[n].state))
    ensures FrontierBut(p, nodes', heap', costs, None)
  {
    var s := nodes[n].state;
    var succs := Successors(p, s);
    if p.start !in costs {
      QueuedGrow(nodes, rest, nodes', heap', p.start, 0);
    }
    forall u | u in costs
      ensures Relaxed(p, nodes', heap', costs, u)
    {
      if u == s {
        forall e | e in succs
          ensures Queued(nodes', heap', e.state, costs[u] + e.cost)
        {
          var j :| 0 <= j < |succs| && succs[j] == e;
          assert heap'[|rest| + j] in heap' && nodes'[|nodes| + j].state == e.state;
        }
      } else {
        assert Relaxed(p, nodes, rest, costs, u);
        forall e | e in Successors(p, u) && e.state !in costs
          ensures Queued(nodes', heap', e.state, costs[u] + e.cost)
        {
          QueuedGrow(nodes, rest, nodes', heap', e.state, costs[u] + e.cost);
        }
      }
    }
  }

  /** After the children of the popped node `n`, recorded at `cost`, are
      pushed, the search's invariant holds again. */
  lemma PushStep<S(!new), A(!new)>(p: Problem<S, A>, U: set<S>, nodes: seq<Node<S, A>>, rest: seq<Entry>,
                                   costs: map<S, nat>, base: nat, n: nat, cost: nat,
                                   nodes': seq<Node<S, A>>, heap': seq<Entry>, hi: nat)
    requires Pushed(p, nodes, nodes', rest, heap', n, cost) && base <= n && nodes[n].cost == cost
    requires nodes[n].state in costs && costs[nodes[n].state] == cost
    requires FrontierBut(p, nodes, rest, costs, Some(nodes[n].state)) && Optimal(p, costs)
    requires Below(costs, rest) && (forall u :: u in costs ==> costs[u] <= cost) && Keyed(nodes, rest, base)
    requires NoGoalRecorded(p, costs) && RunTree(p, nodes', base)
    requires PositiveCosts(p, U) && nodes[n].state in U
    requires Bounded(rest, cost, hi) && forall e :: e in Successors(p, nodes[n].state) ==> cost + e.cost <= hi
    ensures Search(p, nodes', heap', costs, base)
    ensures Bounded(heap', cost, hi) && AtLevel(heap', cost) == AtLevel(rest, cost)
  {
    PushKeys(p, U, nodes, rest, base, n, cost, nodes', heap', hi);
    PushRelaxed(p, nodes, rest, costs, n, cost, nodes', heap');
  }

  /** With the heap empty, every state reachable from the start is
      recorded, and no recorded state is a goal. */
  lemma Exhausted<S(!new), A(!new)>(p: Problem<S, A>, nodes: seq<Node<S, A>>, costs: map<S, nat>, base: nat,
                                    w: seq<Successor<S, A>>)
    requires Search(p, nodes, [], costs, base) && IsWalk(p, p.start, w)
    ensures !IsGoal(p, End(p.start, w))
  {
    if End(p.start, w) !in costs {
      Cheaper(p, nodes, [], costs, w);
    }
  }

  /** `for child in problem.getSuccessors(node.state)`: every successor
      triple gets a child node of `n` and a heap entry keyed by `cost` plus
      the step cost. */
  method PushChildren<S(==), A>(p: Problem<S, A>, arena: NodeArena<S, A>, n: nat, cost: nat, heap: seq<Entry>,
                                ghost base: nat)
    returns (heap': seq<Entry>)
    requires RunTree(p, arena.nodes, base) && base <= n < |arena.nodes|
    modifies arena
    ensures RunTree(p, arena.nodes, base) && old(arena.nodes) <= arena.nodes && heap <= heap'
    ensures Pushed(p, old(arena.nodes), arena.nodes, heap, heap', n, cost)
    ensures var succs := Successors(p, old(arena.nodes[n].state));
      && old(arena.prv) <= arena.prv && |arena.prv| == old(|arena.prv|) + |succs|
      && (forall j :: 0 <= j < |succs| ==> arena.prv[old(|arena.prv|) + j] == succs[j].state)
  {
    var succs := Successors(p, arena.nodes[n].state);
    heap' := heap;
    var j := 0;
    while j < |succs|
      invariant 0 <= j <= |succs| && n < |arena.nodes| && succs == Successors(p, old(arena.nodes[n].state))
      invariant RunTree(p, arena.nodes, base) && old(arena.nodes) <= arena.nodes && heap <= heap'
      invariant |arena.nodes| == old(|arena.nodes|) + j && |heap'| == |heap| + j
      invariant forall jj :: 0 <= jj < j ==>
        arena.nodes[old(|arena.nodes|) + jj] == Node(succs[jj].state, Some(succs[jj].action), Some(n), old(arena.nodes[n].cost) + succs[jj].cost)
      invariant forall jj :: 0 <= jj < j ==> heap'[|heap| + jj] == Entry(cost + succs[jj].cost, old(|arena.nodes|) + jj)
      invariant old(arena.prv) <= arena.prv && |arena.prv| == old(|arena.prv|) + j
      invariant forall jj :: 0 <= jj < j ==> arena.prv[old(|arena.prv|) + jj] == succs[jj].state
    {
      ghost var prv0, nodes0 := arena.prv, arena.nodes;
      ghost var x := Node(succs[j].state, Some(succs[j].action), Some(n), nodes0[n].cost + succs[j].cost);
      assert nodes0[n] == old(arena.nodes[n]);
      GrowTree(p, nodes0, base, n, succs[j], nodes0 + [x]);
      var id := arena.AddChild(n, succs[j]);
      assert arena.nodes == nodes0 + [x] && arena.prv == prv0 + [succs[j].state] && id == |nodes0|;
      heap' := heap' + [Entry(cost + succs[j].cost, id)];
      j := j + 1;
    }
  }

  /** `uniformCostSearch(problem)` on the arena of `Node` objects, with
      `PRV` empty as every search leaves it.  `U` bounds the reachable
      states, whose steps all cost something.  A path found is a cheapest
      solution, and the search gives up only when no goal is reachable. */
  method UniformCostSearch<S(==,!new), A(!new)>(p: Problem<S, A>, ghost U: set<S>, arena: NodeArena<S, A>)
    returns (actions: seq<A>, ghost found: bool)
    requires Closed(p, U) && PositiveCosts(p, U) && arena.Valid() && arena.prv == []
    modifies arena
    ensures arena.Valid() && arena.prv == []
    ensures |old(arena.nodes)| < |arena.nodes| && old(arena.nodes) <= arena.nodes
    ensures found ==> exists w :: Solves(p, w) && ActionsOf(w) == actions && Cheapest(p, w)
    ensures !found ==> actions == [] && forall w :: IsWalk(p, p.start, w) ==> !IsGoal(p, End(p.start, w))
    ensures IsGoal(p, p.start) ==> actions == []
  {
    ghost var base := |arena.nodes|;
    var costs: map<S, nat> := map[];
    var root := arena.NewNode(p.start, None, None, 0);
    RootTree(p, arena.nodes, base);
    var heap := [Entry(0, root)];
    assert heap[0] in heap;
    ghost var C := StepBound(p, U);
    ghost var level: nat := 0;
    while heap != []
      invariant Search(p, arena.nodes, heap, costs, base) && Bounded(heap, level, |U| * C) && level <= |U| * C
      invariant base == |old(arena.nodes)| < |arena.nodes| && old(arena.nodes) <= arena.nodes
      invariant IsGoal(p, p.start) ==> heap == [Entry(0, base)] && costs == map[]
      decreases |U| * C - level, AtLevel(heap, level)
    {
      var e, rest, i := PopMin(heap);
      var cost, node := e.priority, e.node;
      if cost == level {
        AtLevelPop(heap, i, level);
      }
      var s := arena.nodes[node].state;
      if s in costs && costs[s] < cost {
        SkipStep(p, arena.nodes, heap, rest, costs, base, e);
        heap, level := rest, cost;
        continue;
      }
      if IsGoal(p, s) {
        FoundCheapest(p, arena.nodes, heap, costs, base, e);
        ghost var w := RootWalk(arena.nodes, node);
        costs := costs[s := cost];
        actions := arena.PathTo(node);
        arena.Clear();
        found := true;
        assert Solves(p, w) && ActionsOf(w) == actions && Cheapest(p, w);
        return;
      }
      RecordStep(p, arena.nodes, heap, rest, costs, base, e);
      costs := costs[s := cost];
      BoundStep(p, U, C, arena.nodes, costs, base, node);
      NodeWalk(p, arena.nodes, base, node);
      StaysWithin(p, U, p.start, RootWalk(arena.nodes, node));
      ghost var before := arena.nodes;
      heap := PushChildren(p, arena, node, cost, rest, base);
      PushStep(p, U, before, rest, costs, base, node, cost, arena.nodes, heap, |U| * C);
      level := cost;
    }
    forall w | IsWalk(p, p.start, w)
      ensures !IsGoal(p, End(p.start, w))
    {
      Exhausted(p, arena.nodes, costs, base, w);
    }
    arena.Clear();
    actions, found := [], false;
  }
}
