/** `depthFirstSearch` (search.py lines 98-116): a recursive search that
    keeps, per branch, its own copy of the states already on that branch,
    returns the accumulated actions on reaching a goal, and otherwise returns
    the shortest non-empty result among its successors, the first one on
    ties, or `[]` when every successor failed.  The list semantics of
    `filter` (a list, not an iterator) is the one modelled. */
module DepthFirst {
  import opened SearchProblem

  /** The states of a visited list, as a set. */
  ghost function Elems<S>(q: seq<S>): set<S>
  {
    set x | x in q
  }

  /** `filter(len, paths)`: the non-empty paths. */
  function NonEmpty<A>(paths: seq<seq<A>>): (r: seq<seq<A>>)
    ensures forall q :: q in r ==> q != [] && q in paths
    ensures forall q :: q in paths && q != [] ==> q in r
    decreases |paths|
  {
    if paths == [] then []
    else
      var last := paths[|paths| - 1];
      NonEmpty(paths[..|paths| - 1]) + (if last != [] then [last] else [])
  }

  /** `min(paths, key=len)`: the position of the first of the shortest paths,
      as a left-to-right scan that replaces its candidate only by a strictly
      shorter path finds it. */
  function FirstShortest<A>(paths: seq<seq<A>>): (i: nat)
    requires paths != []
    ensures i < |paths|
    ensures forall k :: 0 <= k < |paths| ==> |paths[i]| <= |paths[k]|
    ensures forall k :: 0 <= k < i ==> |paths[i]| < |paths[k]|
    decreases |paths|
  {
    if |paths| == 1 then 0
    else
      var i := FirstShortest(paths[..|paths| - 1]);
      if |paths[|paths| - 1]| < |paths[i]| then |paths| - 1 else i
  }

  /** The end of `helper`: the shortest non-empty child result, or `[]`. */
  function Choose<A>(all: seq<seq<A>>): (r: seq<A>)
    ensures r == [] || r in all
  {
    var paths := NonEmpty(all);
    if paths != [] then paths[FirstShortest(paths)] else []
  }

  /** `helper(state, path, visited)`.  The visited list is a value here, so
      each successor gets its own copy, as `visited[:]` gives it.  A result
      that is not `[]` extends the accumulated path. */
  function Helper<S(==), A>(p: Problem<S, A>, ghost U: set<S>, state: S, path: seq<A>, visited: seq<S>): (r: seq<A>)
    requires Closed(p, U) && state in U
    ensures r == [] || (|path| <= |r| && r[..|path|] == path)
    decreases U - Elems(visited), 0, 0
  {
    if state in visited then []
    else if p.isGoal(state) then path
    else
      assert state in U - Elems(visited);
      Choose(AllPaths(p, U, state, path, visited + [state], 0))
  }

  /** The `for suc in problem.getSuccessors(state)` loop of `helper`: the
      results for successors `k` onwards, in successor order. */
  function AllPaths<S(==), A>(p: Problem<S, A>, ghost U: set<S>, state: S, path: seq<A>, visited: seq<S>, k: nat)
    : (r: seq<seq<A>>)
    requires Closed(p, U) && state in U && k <= |p.successors(state)|
    ensures |r| == |p.successors(state)| - k
    ensures forall q :: q in r ==> q == [] || (|path| < |q| && q[..|path|] == path)
    decreases U - Elems(visited), 1, |p.successors(state)| - k
  {
    var succs := p.successors(state);
    if k == |succs| then []
    else
      var q := Helper(p, U, succs[k].state, path + [succs[k].action], visited);
      assert q == [] || q[..|path|] == (path + [succs[k].action])[..|path|];
      [q] + AllPaths(p, U, state, path, visited, k + 1)
  }

  /** `depthFirstSearch(problem)`: `helper` from the start state with an
      empty path and nothing visited, so a start that is a goal gives `[]`. */
  function DepthFirstSearch<S(==), A>(p: Problem<S, A>, ghost U: set<S>): (r: seq<A>)
    requires Closed(p, U)
    ensures p.isGoal(p.start) ==> r == []
  {
    Helper(p, U, p.start, [], [])
  }

  /** The loop of `helper` keeps one result per successor, in order. */
  lemma {:induction false} AllPathsAt<S, A>(p: Problem<S, A>, U: set<S>, state: S, path: seq<A>, visited: seq<S>, k: nat, j: nat)
    requires Closed(p, U) && state in U && k + j < |p.successors(state)|
    ensures AllPaths(p, U, state, path, visited, k)[j] ==
      Helper(p, U, p.successors(state)[k + j].state, path + [p.successors(state)[k + j].action], visited)
    decreases j
  {
    if j > 0 {
      AllPathsAt(p, U, state, path, visited, k + 1, j - 1);
    }
  }

  /** Position `i` holds `r`, which is no longer than any non-empty result
      and strictly shorter than every non-empty result before position `i`. */
  ghost predicate FirstShortestAt<A>(all: seq<seq<A>>, i: nat, r: seq<A>)
  {
    && i < |all| && all[i] == r
    && (forall k :: 0 <= k < |all| && all[k] != [] ==> |r| <= |all[k]|)
    && (forall k :: 0 <= k < i ==> all[k] == [] || |r| < |all[k]|)
  }

  /** `filter` followed by `min(..., key=len)` gives `[]` exactly when every
      result is empty. */
  lemma {:induction false} ChooseEmpty<A>(all: seq<seq<A>>)
    ensures Choose(all) == [] <==> forall k :: 0 <= k < |all| ==> all[k] == []
    decreases |all|
  {
    if all == [] {
      assert NonEmpty(all) == [];
    } else {
      var init, last := all[..|all| - 1], all[|all| - 1];
      assert all == init + [last];
      ChooseEmpty(init);
      ChooseSnoc(init, last);
      assert forall k :: 0 <= k < |init| ==> all[k] == init[k];
    }
  }

  lemma FirstShortestKeep<A>(init: seq<seq<A>>, last: seq<A>, i: nat, c: seq<A>)
    requires FirstShortestAt(init, i, c) && (last == [] || |c| <= |last|)
    ensures FirstShortestAt(init + [last], i, c)
  {
    assert forall k :: 0 <= k < |init| ==> (init + [last])[k] == init[k];
  }

  lemma FirstShortestNew<A>(init: seq<seq<A>>, last: seq<A>)
    requires forall k :: 0 <= k < |init| ==> init[k] == [] || |last| < |init[k]|
    ensures FirstShortestAt(init + [last], |init|, last)
  {
    assert forall k :: 0 <= k < |init| ==> (init + [last])[k] == init[k];
  }

  /** What `filter` followed by `min(..., key=len)` picks when some result is
      not empty: the first of the shortest non-empty results. */
  lemma {:induction false} ChooseSpec<A>(all: seq<seq<A>>) returns (i: nat)
    ensures Choose(all) != [] ==> FirstShortestAt(all, i, Choose(all))
    decreases |all|
  {
    if all == [] {
      assert NonEmpty(all) == [];
      return 0;
    }
    var init, last := all[..|all| - 1], all[|all| - 1];
    assert all == init + [last];
    var j := ChooseSpec(init);
    ChooseEmpty(init);
    ChooseSnoc(init, last);
    var c := Choose(init);
    i := j;
    if c != [] && (last == [] || |c| <= |last|) {
      FirstShortestKeep(init, last, j, c);
    } else if last != [] {
      i := |init|;
      FirstShortestNew(init, last);
    }
  }

  /** One more child result for `filter` and `min` to look at. */
  lemma ChooseSnoc<A>(init: seq<seq<A>>, last: seq<A>)
    ensures Choose(init + [last]) ==
      if last == [] then Choose(init)
      else if Choose(init) == [] || |last| < |Choose(init)| then last
      else Choose(init)
  {
    var all := init + [last];
    assert all[..|all| - 1] == init;
    var F := NonEmpty(init);
    assert NonEmpty(all) == F + (if last != [] then [last] else []);
    if F != [] {
      assert F[FirstShortest(F)] in F;
      var G := F + [last];
      assert G[..|G| - 1] == F;
    }
  }

  /** `r` is the path `path` followed by the actions of `w`, a walk from
      `state` to a goal that repeats no state and avoids `visited`. */
  ghost predicate FoundBy<S, A>(p: Problem<S, A>, state: S, path: seq<A>, visited: seq<S>, r: seq<A>, w: seq<Successor<S, A>>)
  {
    && IsWalk(p, state, w) && p.isGoal(End(state, w))
    && r == path + ActionsOf(w)
    && SimpleAvoiding(state, w, visited)
  }

  /** A result found below successor `e` is found from `state` by the walk
      that first takes `e`. */
  lemma FoundByCons<S, A>(p: Problem<S, A>, state: S, e: Successor<S, A>, path: seq<A>, visited: seq<S>,
                          r: seq<A>, w: seq<Successor<S, A>>)
    requires e in p.successors(state) && state !in visited
    requires FoundBy(p, e.state, path + [e.action], visited + [state], r, w)
    ensures FoundBy(p, state, path, visited, r, [e] + w)
  {
    WalkCons(p, state, e, w);
    SimpleAvoidingCons(p, state, e, w, visited);
  }

  /** A non-empty result of `helper` is the accumulated path followed by the
      actions of a walk from `state` to a goal that repeats no state and
      avoids every state of `visited`. */
  lemma {:induction false} HelperSound<S, A>(p: Problem<S, A>, U: set<S>, state: S, path: seq<A>, visited: seq<S>)
    returns (w: seq<Successor<S, A>>)
    requires Closed(p, U) && state in U
    ensures Helper(p, U, state, path, visited) != [] ==> FoundBy(p, state, path, visited, Helper(p, U, state, path, visited), w)
    decreases U - Elems(visited)
  {
    var r := Helper(p, U, state, path, visited);
    if state in visited || r == [] {
      return [];
    }
    if p.isGoal(state) {
      w := [];
      assert StatesOf(state, w) == [state];
      return;
    }
    var visited' := visited + [state];
    var all := AllPaths(p, U, state, path, visited', 0);
    assert r == Choose(all);
    var i := ChooseSpec(all);
    var e := p.successors(state)[i];
    AllPathsAt(p, U, state, path, visited', 0, i);
    assert state in U - Elems(visited);
    var wc := HelperSound(p, U, e.state, path + [e.action], visited');
    FoundByCons(p, state, e, path, visited, r, wc);
    w := [e] + wc;
  }

  /** `helper` finds a goal whenever one lies at the end of a walk from
      `state` that repeats no state and avoids `visited`, and what it returns
      is no longer than the accumulated path plus that walk.  It is `[]` only
      when the accumulated path is empty and `state` is itself a goal. */
  lemma {:induction false} HelperShortest<S, A>(p: Problem<S, A>, U: set<S>, state: S, path: seq<A>, visited: seq<S>,
                                              w: seq<Successor<S, A>>)
    requires Closed(p, U) && state in U
    requires IsWalk(p, state, w) && p.isGoal(End(state, w)) && SimpleAvoiding(state, w, visited)
    ensures |Helper(p, U, state, path, visited)| <= |path| + |w|
    ensures Helper(p, U, state, path, visited) != [] || (path == [] && p.isGoal(state))
    decreases U - Elems(visited)
  {
    assert state !in visited by {
      assert StatesOf(state, w)[0] == state;
    }
    if p.isGoal(state) {
      return;
    }
    var visited' := visited + [state];
    var e, w' := w[0], w[1..];
    assert w == [e] + w';
    WalkCons(p, state, e, w');
    SimpleAvoidingCons(p, state, e, w', visited);
    var i :| 0 <= i < |p.successors(state)| && p.successors(state)[i] == e;
    assert state in U - Elems(visited);
    HelperShortest(p, U, e.state, path + [e.action], visited', w');
    var all := AllPaths(p, U, state, path, visited', 0);
    assert Helper(p, U, state, path, visited) == Choose(all);
    AllPathsAt(p, U, state, path, visited', 0, i);
    var c := ChooseSpec(all);
    ChooseEmpty(all);
  }

  /** The result of `depthFirstSearch`: when not `[]`, the actions of a walk
      from the start state to a goal that repeats no state; never longer
      than any walk from the start to a goal; `[]` when the start is a goal,
      and otherwise only when no goal can be reached. */
  lemma DepthFirstSearchCorrect<S, A>(p: Problem<S, A>, U: set<S>)
    requires Closed(p, U)
    ensures DepthFirstSearch(p, U) != [] ==>
      exists w :: Solves(p, w) && ActionsOf(w) == DepthFirstSearch(p, U) && Distinct(StatesOf(p.start, w))
    ensures forall w :: Solves(p, w) ==> |DepthFirstSearch(p, U)| <= |w|
    ensures p.isGoal(p.start) ==> DepthFirstSearch(p, U) == []
    ensures DepthFirstSearch(p, U) == [] && !p.isGoal(p.start) ==> forall w :: IsWalk(p, p.start, w) ==> !p.isGoal(End(p.start, w))
  {
    var r := DepthFirstSearch(p, U);
    var found := HelperSound(p, U, p.start, [], []);
    assert r != [] ==> r == ActionsOf(found) by {
      assert [] + ActionsOf(found) == ActionsOf(found);
    }
    forall w | Solves(p, w)
      ensures |r| <= |w| && (r != [] || p.isGoal(p.start))
    {
      var v := Shortcut(p, p.start, w);
      HelperShortest(p, U, p.start, [], [], v);
    }
  }
}
