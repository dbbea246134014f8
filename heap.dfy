/** The `heapq` list that uniform-cost search and A* use as their frontier:
    a list of `(priority, node)` pairs.  `heappush` adds a pair; `heappop`
    takes out a pair of least priority.  Pairs of equal priority make Python
    compare the nodes themselves, an order this model does not fix: the pair
    taken out is any one of least priority. */
module PriorityQueue {

  /** A heap entry: a priority and the arena index of a node. */
  datatype Entry = Entry(priority: nat, node: nat)

  predicate IsLeast(heap: seq<Entry>, i: nat)
  {
    i < |heap| && forall k :: 0 <= k < |heap| ==> heap[i].priority <= heap[k].priority
  }

  /** Every non-empty heap has an entry of least priority. */
  lemma {:induction false} LeastExists(heap: seq<Entry>)
    requires heap != []
    ensures exists i :: 0 <= i < |heap| && IsLeast(heap, i)
    decreases |heap|
  {
    if |heap| > 1 {
      var init := heap[..|heap| - 1];
      LeastExists(init);
      var i :| 0 <= i < |init| && IsLeast(init, i);
      if heap[|heap| - 1].priority < heap[i].priority {
        assert IsLeast(heap, |heap| - 1);
      } else {
        assert IsLeast(heap, i);
      }
    } else {
      assert IsLeast(heap, 0);
    }
  }

  /** `heapq.heappop`: removes one entry of least priority and returns it.
      `i` is where that entry stood in the list. */
  method PopMin(heap: seq<Entry>) returns (e: Entry, rest: seq<Entry>, ghost i: nat)
    requires heap != []
    ensures i < |heap| && e == heap[i] && rest == heap[..i] + heap[i + 1..]
    ensures forall k :: 0 <= k < |heap| ==> e.priority <= heap[k].priority
    ensures forall x :: x in heap ==> e.priority <= x.priority
    ensures forall x :: x in heap && x != e ==> x in rest
    ensures forall x :: x in rest ==> x in heap
    ensures |rest| == |heap| - 1
  {
    LeastExists(heap);
    var j :| 0 <= j < |heap| && IsLeast(heap, j);
    i := j;
    e := heap[j];
    rest := heap[..j] + heap[j + 1..];
    forall x | x in heap && x != e
      ensures x in rest
    {
      var k :| 0 <= k < |heap| && heap[k] == x;
      if k < j {
        assert rest[k] == x;
      } else {
        assert rest[k - 1] == x;
      }
    }
  }
}
