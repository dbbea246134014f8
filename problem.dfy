/** A search problem as the search procedures see it: a start state, a goal
    test and a successor function.  Walks through the state space are
    sequences of successor triples; the facts proved here about walks are
    the vocabulary of every search's contract. */
module SearchProblem {

  /** One triple of a successor list: the next state, the action that
      reaches it and the cost of that step. */
  datatype Successor<S, A> = Successor(state: S, action: A, cost: nat)

  /** `getStartState`, `isGoalState` and `getSuccessors` of a problem. */
  datatype Problem<!S, A> = Problem(start: S, isGoal: S -> bool, successors: S -> seq<Successor<S, A>>)

  /** `problem.isGoalState(s)`. */
  function IsGoal<S, A>(p: Problem<S, A>, s: S): bool
  {
    p.isGoal(s)
  }

  /** `problem.getSuccessors(s)`. */
  function Successors<S, A>(p: Problem<S, A>, s: S): seq<Successor<S, A>>
  {
    p.successors(s)
  }

  /** The state reached from `s` by the walk `w`. */
  function End<S, A>(s: S, w: seq<Successor<S, A>>): (t: S)
  {
    if w == [] then s else w[|w| - 1].state
  }

  /** `w` can be followed from `s`: every triple of `w` is one of the
      successors of the state the walk has reached before it. */
  ghost predicate IsWalk<S, A>(p: Problem<S, A>, s: S, w: seq<Successor<S, A>>)
    decreases |w|
  {
    w == [] || (IsWalk(p, s, w[..|w| - 1]) && w[|w| - 1] in p.successors(End(s, w[..|w| - 1])))
  }

  /** The action labels of a walk, in order. */
  function ActionsOf<S, A>(w: seq<Successor<S, A>>): (r: seq<A>)
    ensures |r| == |w|
  {
    seq(|w|, i requires 0 <= i < |w| => w[i].action)
  }

  /** The total step cost of a walk (what `getCostOfActions` reports for it). */
  function CostOf<S, A>(w: seq<Successor<S, A>>): (c: nat)
    decreases |w|
  {
    if w == [] then 0 else CostOf(w[..|w| - 1]) + w[|w| - 1].cost
  }

  /** The states a walk passes through, the first one included. */
  function StatesOf<S, A>(s: S, w: seq<Successor<S, A>>): (r: seq<S>)
    ensures |r| == |w| + 1 && r[0] == s && r[|w|] == End(s, w)
  {
    seq(|w| + 1, i requires 0 <= i <= |w| => End(s, w[..i]))
  }

  ghost predicate Distinct<T>(q: seq<T>)
  {
    forall i, j :: 0 <= i < j < |q| ==> q[i] != q[j]
  }

  lemma DistinctCons<T>(x: T, q: seq<T>)
    ensures Distinct([x] + q) <==> x !in q && Distinct(q)
  {
    var xq := [x] + q;
    if x !in q && Distinct(q) {
      forall i, j | 0 <= i < j < |xq| ensures xq[i] != xq[j] {
        if i > 0 {
          assert xq[i] == q[i - 1];
        } else {
          assert xq[j] in q;
        }
      }
    }
    if Distinct(xq) {
      forall i, j | 0 <= i < j < |q| ensures q[i] != q[j] {
        assert q[i] == xq[i + 1] && q[j] == xq[j + 1];
      }
      forall k | 0 <= k < |q| ensures q[k] != x {
        assert xq[0] == x && xq[k + 1] == q[k];
      }
    }
  }

  /** `w`, followed from `s`, repeats no state and never enters `visited`. */
  ghost predicate SimpleAvoiding<S, A>(s: S, w: seq<Successor<S, A>>, visited: seq<S>)
  {
    Distinct(StatesOf(s, w)) && forall x :: x in StatesOf(s, w) ==> x !in visited
  }

  lemma SimpleAvoidingCons<S, A>(p: Problem<S, A>, s: S, e: Successor<S, A>, w: seq<Successor<S, A>>, visited: seq<S>)
    ensures SimpleAvoiding(s, [e] + w, visited) <==> s !in visited && SimpleAvoiding(e.state, w, visited + [s])
  {
    WalkCons(p, s, e, w);
    DistinctCons(s, StatesOf(e.state, w));
    assert s in visited + [s];
  }

  /** Every successor of a state of `V` is in `V`. */
  ghost predicate ClosedUnder<S, A>(p: Problem<S, A>, V: set<S>)
  {
    forall s, e :: s in V && e in p.successors(s) ==> e.state in V
  }

  /** `U` is a finite set of states that holds the start state and every
      state reachable from it: the problem is a finite transition system. */
  ghost predicate Closed<S, A>(p: Problem<S, A>, U: set<S>)
  {
    p.start in U && ClosedUnder(p, U)
  }

  /** `w` is a solution: a walk from the start state to a goal state. */
  ghost predicate Solves<S, A>(p: Problem<S, A>, w: seq<Successor<S, A>>)
  {
    IsWalk(p, p.start, w) && p.isGoal(End(p.start, w))
  }

  /** Splitting a walk in two: each half is a walk, the second one from
      where the first one ends, and costs and actions add up. */
  lemma {:induction false} WalkAppend<S, A>(p: Problem<S, A>, s: S, u: seq<Successor<S, A>>, v: seq<Successor<S, A>>)
    ensures IsWalk(p, s, u + v) <==> IsWalk(p, s, u) && IsWalk(p, End(s, u), v)
    ensures End(s, u + v) == End(End(s, u), v)
    ensures CostOf(u + v) == CostOf(u) + CostOf(v)
    ensures ActionsOf(u + v) == ActionsOf(u) + ActionsOf(v)
    decreases |v|
  {
    if v == [] {
      assert u + v == u;
    } else {
      var v' := v[..|v| - 1];
      assert (u + v)[..|u + v| - 1] == u + v';
      WalkAppend(p, s, u, v');
    }
  }

  /** A walk seen from its first step: a successor of the start followed by
      a walk from that successor. */
  lemma WalkCons<S, A>(p: Problem<S, A>, s: S, e: Successor<S, A>, w: seq<Successor<S, A>>)
    ensures IsWalk(p, s, [e] + w) <==> e in p.successors(s) && IsWalk(p, e.state, w)
    ensures End(s, [e] + w) == End(e.state, w)
    ensures CostOf([e] + w) == e.cost + CostOf(w)
    ensures ActionsOf([e] + w) == [e.action] + ActionsOf(w)
    ensures StatesOf(s, [e] + w) == [s] + StatesOf(e.state, w)
  {
    WalkAppend(p, s, [e], w);
    assert [e][..0] == [];
    forall i | 1 <= i <= |w| + 1
      ensures StatesOf(s, [e] + w)[i] == StatesOf(e.state, w)[i - 1]
    {
      assert ([e] + w)[..i] == [e] + w[..i - 1];
      WalkAppend(p, s, [e], w[..i - 1]);
    }
  }

  /** The prefix of a walk is a walk, and costs no more than the walk. */
  lemma WalkPrefix<S, A>(p: Problem<S, A>, s: S, w: seq<Successor<S, A>>, k: nat)
    requires IsWalk(p, s, w) && k <= |w|
    ensures IsWalk(p, s, w[..k]) && IsWalk(p, End(s, w[..k]), w[k..])
    ensures CostOf(w[..k]) <= CostOf(w)
  {
    assert w == w[..k] + w[k..];
    WalkAppend(p, s, w[..k], w[k..]);
  }

  /** A set that holds `s` and is closed under successors holds the end of
      every walk from `s`. */
  lemma {:induction false} StaysWithin<S, A>(p: Problem<S, A>, V: set<S>, s: S, w: seq<Successor<S, A>>)
    requires s in V && ClosedUnder(p, V) && IsWalk(p, s, w)
    ensures End(s, w) in V
    decreases |w|
  {
    if w != [] {
      StaysWithin(p, V, s, w[..|w| - 1]);
    }
  }

  /** Cutting the cycles out of a walk: for every walk there is one with no
      repeated state, the same end, and no more steps. */
  lemma {:induction false} Shortcut<S, A>(p: Problem<S, A>, s: S, w: seq<Successor<S, A>>)
    returns (v: seq<Successor<S, A>>)
    requires IsWalk(p, s, w)
    ensures IsWalk(p, s, v) && End(s, v) == End(s, w) && |v| <= |w|
    ensures Distinct(StatesOf(s, v))
    decreases |w|
  {
    var q := StatesOf(s, w);
    if Distinct(q) {
      v := w;
    } else {
      var i, j :| 0 <= i < j < |q| && q[i] == q[j];
      WalkPrefix(p, s, w, i);
      WalkPrefix(p, s, w, j);
      var u := w[..i] + w[j..];
      WalkAppend(p, s, w[..i], w[j..]);
      WalkAppend(p, s, w[..j], w[j..]);
      assert w[..j] + w[j..] == w;
      v := Shortcut(p, s, u);
    }
  }
}
