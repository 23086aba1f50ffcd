/** The broker on values: the registry lists pipes by identity, in order, and what every run of
    register, publish and dequeue delivers. A pipe registered twice is listed twice. */
module BrokerModel {
  import opened Status

  datatype Pipe<T> = Pipe(mid: nat, capacity: nat, contents: seq<T>) {
    predicate Full() {
      |contents| >= capacity
    }
  }

  /** How often p is listed. */
  function Copies<P(==)>(entries: seq<P>, p: P): nat {
    multiset(entries)[p]
  }

  function Repeat<T>(msg: T, n: nat): (s: seq<T>)
    ensures |s| == n
  {
    seq(n, _ => msg)
  }

  /** The pipe at entry i is a subscriber of mid and has no room left for the copy this entry
      asks for, the entries before it having had theirs. */
  predicate Blocks<P(==), T>(registry: seq<P>, pipes: map<P, Pipe<T>>, mid: nat, i: nat)
    requires i < |registry| && registry[i] in pipes
  {
    var p := registry[i];
    pipes[p].mid == mid && |pipes[p].contents| + Copies(registry[..i], p) >= pipes[p].capacity
  }

  /** How many registry entries a publication gets past: the index of the first that blocks,
      or all. */
  function Reach<P(==), T>(registry: seq<P>, pipes: map<P, Pipe<T>>, mid: nat): (k: nat)
    requires forall p :: p in registry ==> p in pipes
    ensures k <= |registry|
    ensures k < |registry| ==> Blocks(registry, pipes, mid, k)
    ensures forall i :: 0 <= i < k ==> !Blocks(registry, pipes, mid, i)
  {
    ReachFrom(registry, pipes, mid, 0)
  }

  function ReachFrom<P(==), T>(registry: seq<P>, pipes: map<P, Pipe<T>>, mid: nat, i: nat): (k: nat)
    requires i <= |registry| && forall p :: p in registry ==> p in pipes
    ensures i <= k <= |registry|
    ensures k < |registry| ==> Blocks(registry, pipes, mid, k)
    ensures forall j :: i <= j < k ==> !Blocks(registry, pipes, mid, j)
    decreases |registry| - i
  {
    if i == |registry| || Blocks(registry, pipes, mid, i) then i else ReachFrom(registry, pipes, mid, i + 1)
  }

  function Enqueued<T>(pipe: Pipe<T>, msg: T, n: nat): Pipe<T> {
    pipe.(contents := pipe.contents + Repeat(msg, n))
  }

  /** The pipes after the message has gone to the subscribers among the first k entries. */
  function Delivered<P(==), T>(registry: seq<P>, pipes: map<P, Pipe<T>>, mid: nat, msg: T, k: nat):
    (r: map<P, Pipe<T>>)
    requires k <= |registry|
    ensures r.Keys == pipes.Keys
  {
    map p | p in pipes ::
      if pipes[p].mid == mid then Enqueued(pipes[p], msg, Copies(registry[..k], p)) else pipes[p]
  }

  lemma NothingDelivered<P, T>(registry: seq<P>, pipes: map<P, Pipe<T>>, mid: nat, msg: T)
    ensures Delivered(registry, pipes, mid, msg, 0) == pipes
  {
    forall p | p in pipes ensures Enqueued(pipes[p], msg, 0) == pipes[p] {
      assert pipes[p].contents + [] == pipes[p].contents;
    }
  }

  lemma OneCopyMore<P>(registry: seq<P>, i: nat, p: P)
    requires i < |registry|
    ensures Copies(registry[..i + 1], p) == Copies(registry[..i], p) + (if p == registry[i] then 1 else 0)
  {
    assert registry[..i + 1] == registry[..i] + [registry[i]];
  }

  /** What one registry entry, listing p, does with a message. */
  function Offer<P(==), T>(pipes: map<P, Pipe<T>>, p: P, mid: nat, msg: T): (r: (Status, map<P, Pipe<T>>))
    requires p in pipes
    ensures r.1.Keys == pipes.Keys
  {
    if pipes[p].mid != mid then (Success, pipes)
    else if pipes[p].Full() then (OutOfBounds, pipes)
    else (Success, pipes[p := pipes[p].(contents := pipes[p].contents + [msg])])
  }

  /** One more entry in the fan-out. */
  lemma DeliverNext<P, T>(registry: seq<P>, pipes: map<P, Pipe<T>>, mid: nat, msg: T, i: nat)
    requires forall p :: p in registry ==> p in pipes
    requires i < |registry| && i <= Reach(registry, pipes, mid)
    ensures Offer(Delivered(registry, pipes, mid, msg, i), registry[i], mid, msg) ==
            if Reach(registry, pipes, mid) == i then (OutOfBounds, Delivered(registry, pipes, mid, msg, i))
            else (Success, Delivered(registry, pipes, mid, msg, i + 1))
  {
    var p := registry[i];
    var now, next := Delivered(registry, pipes, mid, msg, i), Delivered(registry, pipes, mid, msg, i + 1);
    OneCopyMore(registry, i, p);
    var n := Copies(registry[..i], p);
    assert Repeat(msg, n + 1) == Repeat(msg, n) + [msg];
    assert pipes[p].contents + (Repeat(msg, n) + [msg]) == (pipes[p].contents + Repeat(msg, n)) + [msg];
    forall q | q in pipes && q != p ensures next[q] == now[q] {
      OneCopyMore(registry, i, q);
    }
    assert Blocks(registry, pipes, mid, i) <==> pipes[p].mid == mid && now[p].Full();
    if pipes[p].mid == mid {
      assert next == now[p := now[p].(contents := now[p].contents + [msg])];
    } else {
      assert next == now;
    }
  }

  /** A publication from registry entry i on: entries in order, ending at the first failure. */
  function FanOutFrom<P(==), T>(registry: seq<P>, pipes: map<P, Pipe<T>>, mid: nat, msg: T, i: nat):
    (r: (Status, map<P, Pipe<T>>))
    requires i <= |registry| && forall p :: p in registry ==> p in pipes
    ensures r.1.Keys == pipes.Keys
    decreases |registry| - i
  {
    if i == |registry| then (Success, pipes)
    else
      var (status, next) := Offer(pipes, registry[i], mid, msg);
      if status != Success then (status, next) else FanOutFrom(registry, next, mid, msg, i + 1)
  }

  function FanOut<P(==), T>(registry: seq<P>, pipes: map<P, Pipe<T>>, mid: nat, msg: T):
    (r: (Status, map<P, Pipe<T>>))
    requires forall p :: p in registry ==> p in pipes
    ensures r.1.Keys == pipes.Keys
  {
    FanOutFrom(registry, pipes, mid, msg, 0)
  }

  lemma {:induction false} FanOutFromDelivers<P, T>(registry: seq<P>, pipes: map<P, Pipe<T>>, mid: nat, msg: T, i: nat)
    requires forall p :: p in registry ==> p in pipes
    requires i <= Reach(registry, pipes, mid)
    ensures var k := Reach(registry, pipes, mid);
            FanOutFrom(registry, Delivered(registry, pipes, mid, msg, i), mid, msg, i) ==
            (if k < |registry| then OutOfBounds else Success, Delivered(registry, pipes, mid, msg, k))
    decreases |registry| - i
  {
    if i < |registry| {
      DeliverNext(registry, pipes, mid, msg, i);
      if i < Reach(registry, pipes, mid) {
        FanOutFromDelivers(registry, pipes, mid, msg, i + 1);
      }
    }
  }

  /** A publication fails exactly when some entry blocks, and has then delivered one copy for
      every subscribed entry before the first that does. */
  lemma FanOutDelivers<P, T>(registry: seq<P>, pipes: map<P, Pipe<T>>, mid: nat, msg: T)
    requires forall p :: p in registry ==> p in pipes
    ensures var k := Reach(registry, pipes, mid);
            FanOut(registry, pipes, mid, msg) ==
            (if k < |registry| then OutOfBounds else Success, Delivered(registry, pipes, mid, msg, k))
  {
    NothingDelivered(registry, pipes, mid, msg);
    FanOutFromDelivers(registry, pipes, mid, msg, 0);
  }

  // ---------- runs ----------

  /** `pipe` is the state in which a pipe not seen before is registered. */
  datatype Op<P, T> = Register(p: P, pipe: Pipe<T>) | Publish(mid: nat, msg: T) | Dequeue(p: P)

  /** `reached` lists the registry entries a publication got past. */
  datatype Event<P, T> = Published(mid: nat, msg: T, reached: seq<P>) | Taken(p: P, msg: T)

  /** The registry, the pipes now and as they were first registered, and the history. */
  datatype World<P, T> =
    World(registry: seq<P>, pipes: map<P, Pipe<T>>, first: map<P, Pipe<T>>, log: seq<Event<P, T>>)

  function Start<P(==), T>(): World<P, T> {
    World([], map[], map[], [])
  }

  ghost predicate Known<P, T>(w: World<P, T>) {
    && (forall i :: 0 <= i < |w.registry| ==> w.registry[i] in w.pipes)
    && w.first.Keys == w.pipes.Keys
  }

  function Step<P(==), T>(w: World<P, T>, registryCapacity: nat, op: Op<P, T>): (u: World<P, T>)
    requires Known(w)
    ensures Known(u)
  {
    match op
    case Register(p, pipe) =>
      if |w.registry| >= registryCapacity then w
      else if p in w.pipes then w.(registry := w.registry + [p])
      else World(w.registry + [p], w.pipes[p := pipe], w.first[p := pipe], w.log)
    case Publish(mid, msg) =>
      var k := Reach(w.registry, w.pipes, mid);
      w.(pipes := FanOut(w.registry, w.pipes, mid, msg).1,
         log := w.log + [Published(mid, msg, w.registry[..k])])
    case Dequeue(p) =>
      if p !in w.pipes || w.pipes[p].contents == [] then w
      else
        var c := w.pipes[p].contents;
        w.(pipes := w.pipes[p := w.pipes[p].(contents := c[1..])], log := w.log + [Taken(p, c[0])])
  }

  function Run<P(==), T>(w: World<P, T>, registryCapacity: nat, ops: seq<Op<P, T>>): World<P, T>
    requires Known(w)
    decreases |ops|
  {
    if ops == [] then w else Run(Step(w, registryCapacity, ops[0]), registryCapacity, ops[1..])
  }

  /** The messages of one MID whose publication reached pipe p, in publish order, once for each
      of its registrations reached. */
  function Accepted<P(==), T>(log: seq<Event<P, T>>, p: P, mid: nat): seq<T> {
    if log == [] then []
    else
      var e := log[|log| - 1];
      var before := Accepted(log[..|log| - 1], p, mid);
      if e.Published? && e.mid == mid then before + Repeat(e.msg, Copies(e.reached, p)) else before
  }

  /** The messages taken out of pipe p so far. */
  function TakenFrom<P(==), T>(log: seq<Event<P, T>>, p: P): seq<T> {
    if log == [] then []
    else
      var e := log[|log| - 1];
      var before := TakenFrom(log[..|log| - 1], p);
      if e.Taken? && e.p == p then before + [e.msg] else before
  }

  /** Pipe p holds what it held when first registered and what it has accepted since, minus
      what has been taken. */
  ghost predicate InOrder<P, T>(w: World<P, T>, p: P)
    requires Known(w) && p in w.pipes
  {
    && w.pipes[p].mid == w.first[p].mid && w.pipes[p].capacity == w.first[p].capacity
    && TakenFrom(w.log, p) + w.pipes[p].contents == w.first[p].contents + Accepted(w.log, p, w.pipes[p].mid)
    && (|w.first[p].contents| <= w.first[p].capacity ==> |w.pipes[p].contents| <= w.pipes[p].capacity)
  }

  /** Only entries of the registry have been reached, and only pipes dequeued from. */
  ghost predicate LogKnown<P, T>(w: World<P, T>) {
    && (forall j :: 0 <= j < |w.log| && w.log[j].Published? ==> w.log[j].reached <= w.registry)
    && (forall j :: 0 <= j < |w.log| && w.log[j].Taken? ==> w.log[j].p in w.pipes)
  }

  ghost predicate Fifo<P(!new), T>(w: World<P, T>) {
    Known(w) && LogKnown(w) && forall p :: p in w.pipes ==> InOrder(w, p)
  }

  lemma {:induction false} NothingBeforeRegistration<P, T>(log: seq<Event<P, T>>, p: P, mid: nat)
    requires forall j :: 0 <= j < |log| && log[j].Published? ==> p !in log[j].reached
    requires forall j :: 0 <= j < |log| && log[j].Taken? ==> log[j].p != p
    ensures Accepted(log, p, mid) == [] && TakenFrom(log, p) == []
  {
    if log != [] {
      NothingBeforeRegistration(log[..|log| - 1], p, mid);
    }
  }

  lemma LogExtends<P, T>(log: seq<Event<P, T>>, e: Event<P, T>, p: P, mid: nat)
    ensures Accepted(log + [e], p, mid) ==
            Accepted(log, p, mid) +
            if e.Published? && e.mid == mid then Repeat(e.msg, Copies(e.reached, p)) else []
    ensures TakenFrom(log + [e], p) ==
            TakenFrom(log, p) + if e.Taken? && e.p == p then [e.msg] else []
  {
    assert (log + [e])[..|log|] == log;
  }

  lemma RegisterKeepsFifo<P(!new), T>(w: World<P, T>, registryCapacity: nat, p: P, pipe: Pipe<T>)
    requires Fifo(w)
    ensures Fifo(Step(w, registryCapacity, Register(p, pipe)))
  {
    var u := Step(w, registryCapacity, Register(p, pipe));
    if p !in w.pipes {
      forall j | 0 <= j < |w.log| && w.log[j].Published? ensures p !in w.log[j].reached {
        assert w.log[j].reached <= w.registry;
      }
      NothingBeforeRegistration(w.log, p, pipe.mid);
    }
    forall q | q in u.pipes ensures InOrder(u, q) {
      assert q in w.pipes ==> InOrder(w, q);
    }
  }

  /** The copies a publication delivers never take a pipe past its capacity. */
  lemma {:induction false} ReachedFits<P, T>(registry: seq<P>, pipes: map<P, Pipe<T>>, mid: nat, k: nat, p: P)
    requires forall q :: q in registry ==> q in pipes
    requires k <= Reach(registry, pipes, mid) && p in pipes && pipes[p].mid == mid
    requires |pipes[p].contents| <= pipes[p].capacity
    ensures |pipes[p].contents| + Copies(registry[..k], p) <= pipes[p].capacity
  {
    if k > 0 {
      ReachedFits(registry, pipes, mid, k - 1, p);
      OneCopyMore(registry, k - 1, p);
      assert !Blocks(registry, pipes, mid, k - 1);
    }
  }

  lemma PublishKeepsOrder<P(!new), T>(w: World<P, T>, registryCapacity: nat, mid: nat, msg: T, p: P)
    requires Known(w) && p in w.pipes && InOrder(w, p)
    ensures InOrder(Step(w, registryCapacity, Publish(mid, msg)), p)
  {
    var k := Reach(w.registry, w.pipes, mid);
    var copies := Repeat(msg, Copies(w.registry[..k], p));
    FanOutDelivers(w.registry, w.pipes, mid, msg);
    var taken, first, accepted := TakenFrom(w.log, p), w.first[p].contents, Accepted(w.log, p, w.pipes[p].mid);
    LogExtends(w.log, Published(mid, msg, w.registry[..k]), p, w.pipes[p].mid);
    if w.pipes[p].mid == mid {
      assert taken + (w.pipes[p].contents + copies) == (taken + w.pipes[p].contents) + copies;
      assert first + (accepted + copies) == (first + accepted) + copies;
      if |w.pipes[p].contents| <= w.pipes[p].capacity {
        ReachedFits(w.registry, w.pipes, mid, k, p);
      }
    } else {
      assert taken + [] == taken && accepted + [] == accepted;
    }
  }

  lemma PublishKeepsFifo<P(!new), T>(w: World<P, T>, registryCapacity: nat, mid: nat, msg: T)
    requires Fifo(w)
    ensures Fifo(Step(w, registryCapacity, Publish(mid, msg)))
  {
    forall p | p in w.pipes ensures InOrder(Step(w, registryCapacity, Publish(mid, msg)), p) {
      PublishKeepsOrder(w, registryCapacity, mid, msg, p);
    }
  }

  lemma DequeueKeepsOrder<P(!new), T>(w: World<P, T>, registryCapacity: nat, p: P, q: P)
    requires Known(w) && q in w.pipes && InOrder(w, q)
    ensures InOrder(Step(w, registryCapacity, Dequeue(p)), q)
  {
    if p in w.pipes && w.pipes[p].contents != [] {
      var c := w.pipes[p].contents;
      LogExtends(w.log, Taken(p, c[0]), q, w.pipes[q].mid);
      assert TakenFrom(w.log, p) + c == TakenFrom(w.log, p) + [c[0]] + c[1..];
    }
  }

  lemma DequeueKeepsFifo<P(!new), T>(w: World<P, T>, registryCapacity: nat, p: P)
    requires Fifo(w)
    ensures Fifo(Step(w, registryCapacity, Dequeue(p)))
  {
    forall q | q in w.pipes ensures InOrder(Step(w, registryCapacity, Dequeue(p)), q) {
      DequeueKeepsOrder(w, registryCapacity, p, q);
    }
  }

  lemma {:induction false} RunKeepsFifo<P(!new), T>(w: World<P, T>, registryCapacity: nat, ops: seq<Op<P, T>>)
    requires Fifo(w)
    ensures Fifo(Run(w, registryCapacity, ops))
    decreases |ops|
  {
    if ops != [] {
      match ops[0] {
        case Register(p, pipe) => RegisterKeepsFifo(w, registryCapacity, p, pipe);
        case Publish(mid, msg) => PublishKeepsFifo(w, registryCapacity, mid, msg);
        case Dequeue(p) => DequeueKeepsFifo(w, registryCapacity, p);
      }
      RunKeepsFifo(Step(w, registryCapacity, ops[0]), registryCapacity, ops[1..]);
    }
  }

  /** In every run each pipe's first contents followed by the messages accepted for its MID
      since, in publish order, are those taken from it followed by those it holds. */
  lemma PipesAreFifo<P(!new), T>(registryCapacity: nat, ops: seq<Op<P, T>>, p: P)
    requires p in Run(Start<P, T>(), registryCapacity, ops).pipes
    ensures var w := Run(Start<P, T>(), registryCapacity, ops);
            && p in w.first && w.pipes[p].mid == w.first[p].mid
            && TakenFrom(w.log, p) + w.pipes[p].contents ==
                 w.first[p].contents + Accepted(w.log, p, w.pipes[p].mid)
            && (|w.first[p].contents| <= w.first[p].capacity ==> |w.pipes[p].contents| <= w.first[p].capacity)
  {
    RunKeepsFifo(Start<P, T>(), registryCapacity, ops);
    assert InOrder(Run(Start<P, T>(), registryCapacity, ops), p);
  }
}
