/** Whole runs of heap operations against a bounded multiset priority queue. */
module HeapRuns {
  import opened Status
  import opened HeapModel
  import Heap

  /** Build(xs): the caller writes xs to the backing array, sets the length, heapifies. */
  datatype Op<T> = Insert(x: T) | Pop | Build(xs: seq<T>)

  datatype Reply<T> = Reply(status: Status, popped: Option<T>)

  /** What the class's methods do to the occupied prefix; see their postconditions. */
  function Next<T>(s: seq<T>, capacity: nat, op: Op<T>, cmp: (T, T) -> bool): (seq<T>, Reply<T>) {
    match op
    case Insert(x) =>
      if |s| >= capacity then (s, Reply(Err, None)) else (Inserted(s, x, cmp), Reply(Success, None))
    case Pop =>
      if s == [] then (s, Reply(Err, None))
      else (Popped(s, cmp), Reply(Heap.PopStatus(s, capacity, cmp), Some(s[0])))
    case Build(xs) =>
      if xs == [] then ([], Reply(Err, None))
      else (Heapified(xs, cmp), Reply(Heap.RestStatus(Heap.LastStop(xs, cmp), capacity), None))
  }

  /** One step of the bounded priority queue. The status of a pop that hands out an
      element is left open: only the element counts. */
  ghost predicate QueueStep<T(!new)>(
    m: multiset<T>, capacity: nat, op: Op<T>, reply: Reply<T>, m': multiset<T>, cmp: (T, T) -> bool)
  {
    match op
    case Insert(x) =>
      if |m| >= capacity then m' == m && reply == Reply(Err, None)
      else m' == m + multiset{x} && reply == Reply(Success, None)
    case Pop =>
      if |m| == 0 then m' == m && reply == Reply(Err, None)
      else
        && reply.popped.Some?
        && reply.popped.value in m
        && (forall y :: y in m ==> cmp(reply.popped.value, y))
        && m' == m - multiset{reply.popped.value}
        && (2 * (|m| - 1) <= capacity ==> reply.status == Success)
    case Build(xs) =>
      m' == multiset(xs) && reply.popped == None
  }

  ghost predicate RefinesQueue<T(!new)>(s: seq<T>, capacity: nat, ops: seq<Op<T>>, cmp: (T, T) -> bool)
    decreases |ops|
  {
    && IsHeap(s, cmp) && |s| <= capacity
    && (ops != [] ==>
          var (t, reply) := Next(s, capacity, ops[0], cmp);
          && QueueStep(multiset(s), capacity, ops[0], reply, multiset(t), cmp)
          && RefinesQueue(t, capacity, ops[1..], cmp))
  }

  ghost predicate Legal<T>(ops: seq<Op<T>>, capacity: nat) {
    forall i :: 0 <= i < |ops| && ops[i].Build? ==> |ops[i].xs| <= capacity
  }

  lemma NextRefines<T(!new)>(s: seq<T>, capacity: nat, op: Op<T>, cmp: (T, T) -> bool)
    requires TotalPreorder(cmp) && IsHeap(s, cmp) && |s| <= capacity
    requires op.Build? ==> |op.xs| <= capacity
    ensures var (t, reply) := Next(s, capacity, op, cmp);
            && IsHeap(t, cmp) && |t| <= capacity
            && QueueStep(multiset(s), capacity, op, reply, multiset(t), cmp)
  {
    match op
    case Insert(x) =>
      InsertedIsHeap(s, x, cmp);
    case Pop =>
      if s != [] {
        PoppedIsHeap(s, cmp);
      }
    case Build(xs) =>
      if xs != [] {
        HeapifiedIsHeap(xs, cmp);
      }
  }

  /** Every run from every heap is a run of the bounded priority queue, and every state it
      passes through is a heap within capacity. */
  lemma {:induction false} RunRefinesQueue<T(!new)>(s: seq<T>, capacity: nat, ops: seq<Op<T>>, cmp: (T, T) -> bool)
    requires TotalPreorder(cmp) && IsHeap(s, cmp) && |s| <= capacity && Legal(ops, capacity)
    ensures RefinesQueue(s, capacity, ops, cmp)
    decreases |ops|
  {
    if ops != [] {
      NextRefines(s, capacity, ops[0], cmp);
      RunRefinesQueue(Next(s, capacity, ops[0], cmp).0, capacity, ops[1..], cmp);
    }
  }

  // ---------- draining ----------

  function Drained<T>(s: seq<T>, cmp: (T, T) -> bool): seq<T>
    decreases |s|
  {
    if s == [] then [] else [s[0]] + Drained(Popped(s, cmp), cmp)
  }

  ghost predicate InOrder<T>(d: seq<T>, cmp: (T, T) -> bool) {
    forall i, j :: 0 <= i < j < |d| ==> cmp(d[i], d[j])
  }

  lemma ExtremeFirst<T>(x: T, d: seq<T>, cmp: (T, T) -> bool)
    requires InOrder(d, cmp) && forall y :: y in multiset(d) ==> cmp(x, y)
    ensures InOrder([x] + d, cmp)
  {
    forall j | 0 <= j < |d| ensures cmp(x, d[j]) {
      assert d[j] in multiset(d);
    }
  }

  /** Popping a heap empty yields exactly its elements, in Compare order. */
  lemma {:induction false} DrainSorts<T(!new)>(s: seq<T>, cmp: (T, T) -> bool)
    requires TotalPreorder(cmp) && IsHeap(s, cmp)
    ensures multiset(Drained(s, cmp)) == multiset(s)
    ensures InOrder(Drained(s, cmp), cmp)
    decreases |s|
  {
    if s != [] {
      var t := Popped(s, cmp);
      PoppedExtracts(s, cmp);
      DrainSorts(t, cmp);
      ExtremeFirst(s[0], Drained(t, cmp), cmp);
    }
  }

  // ---------- when the reported status can be trusted ----------

  predicate AtMost(x: int, y: int) {
    x <= y
  }

  /** 2 at position r, 0 on the rest of the path from the root to the last position, 1
      elsewhere: under <= the 2 sinks along the path to the very end. */
  function Sinker(n: nat, r: nat): (s: seq<int>)
    requires r < n
    ensures |s| == n
  {
    seq(n, i requires 0 <= i < n => if i == r then 2 else if OnPath(i, n - 1) then 0 else 1)
  }

  lemma {:induction false} RootIsOnPath(target: nat)
    ensures OnPath(0, target)
  {
    if target > 0 {
      RootIsOnPath(Parent(target));
    }
  }

  lemma {:induction false} SinksToTheEnd(n: nat, r: nat)
    requires r < n && OnPath(r, n - 1)
    ensures SiftStop(Sinker(n, r), r, AtMost) == n - 1
    decreases n - r
  {
    var s := Sinker(n, r);
    if r < n - 1 {
      PathGoesDown(r, n - 1);
      var c := if OnPath(2 * r + 1, n - 1) then 2 * r + 1 else 2 * r + 2;
      assert Preferred(s, r, AtMost) == c;
      assert Swap(s, r, c) == Sinker(n, c);
      SinksToTheEnd(n, c);
    }
  }

  ghost predicate PopMayReportOutOfBounds(n: nat, capacity: nat)
    requires n > 0
  {
    exists s: seq<int> :: |s| == n && IsHeap(s, AtMost) && Heap.PopStatus(s, capacity, AtMost) == OutOfBounds
  }

  /** A pop that has removed its element may still report OOB_ERROR; contents on which it
      does exist exactly when more than half the capacity stays occupied. */
  lemma PopStatusIsReliable(n: nat, capacity: nat)
    requires 0 < n <= capacity
    ensures PopMayReportOutOfBounds(n, capacity) <==> n > 1 && 2 * (n - 1) > capacity
  {
    if n > 1 && 2 * (n - 1) > capacity {
      var m := n - 1;
      var s := Sinker(m, 0)[0 := 0] + [2];
      RootIsOnPath(m - 1);
      forall c | 0 < c < |s| ensures AtMost(s[Parent(c)], s[c]) {
        if c < m && OnPath(c, m - 1) {
          PathIsClosed(c, m - 1);
        }
      }
      assert s[..m][0 := s[m]] == Sinker(m, 0);
      SinksToTheEnd(m, 0);
      assert IsHeap(s, AtMost) && Heap.PopStatus(s, capacity, AtMost) == OutOfBounds;
    }
  }

  ghost predicate HeapifyMayReportOutOfBounds(n: nat, capacity: nat)
    requires n > 0
  {
    exists s: seq<int> :: |s| == n && Heap.RestStatus(Heap.LastStop(s, AtMost), capacity) == OutOfBounds
  }

  lemma {:induction false} OrderedBelowRootSiftsOnce<T>(s: seq<T>, k: nat, cmp: (T, T) -> bool)
    requires k < |s| && HeapFrom(s, 1, cmp)
    ensures SiftedBelowRoot(s, k, cmp) == s
    decreases k
  {
    if k > 0 {
      assert 2 * k + 1 < |s| ==> Parent(2 * k + 1) == k;
      assert 2 * k + 2 < |s| ==> Parent(2 * k + 2) == k;
      assert Preferred(s, k, cmp) == k;
      OrderedBelowRootSiftsOnce(s, k - 1, cmp);
    }
  }

  /** Heapify always builds the heap, yet contents exist on which it reports OOB_ERROR
      exactly when more than half the capacity is occupied. */
  lemma HeapifyStatusIsReliable(n: nat, capacity: nat)
    requires 0 < n <= capacity
    ensures HeapifyMayReportOutOfBounds(n, capacity) <==> 2 * n > capacity
  {
    if 2 * n > capacity {
      SinkerHeapifies(n);
      assert Heap.RestStatus(Heap.LastStop(Sinker(n, 0), AtMost), capacity) == OutOfBounds;
    }
  }

  lemma SinkerHeapifies(n: nat)
    requires n > 0
    ensures Heap.LastStop(Sinker(n, 0), AtMost) == n - 1
  {
    var s := Sinker(n, 0);
    RootIsOnPath(n - 1);
    forall c | 0 < c < |s| && Parent(c) >= 1 ensures AtMost(s[Parent(c)], s[c]) {
      if OnPath(c, n - 1) {
        PathIsClosed(c, n - 1);
      }
    }
    OrderedBelowRootSiftsOnce(s, Parent(n), AtMost);
    SinksToTheEnd(n, 0);
  }
}
