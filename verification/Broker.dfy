/** The broker object of juno_broker.c over queue-backed pipes. */
module Broker {
  import opened Status
  import Queue
  import BrokerModel

  class Pipe<T> {
    const mid: nat
    const queue: Queue.Queue<T>

    constructor (mid: nat, queue: Queue.Queue<T>)
      ensures this.mid == mid && this.queue == queue
    {
      this.mid, this.queue := mid, queue;
    }

    ghost function Model(): BrokerModel.Pipe<T>
      requires queue.Valid()
      reads queue, queue.buffer
    {
      BrokerModel.Pipe(mid, queue.buffer.Length, queue.Contents())
    }
  }

  class Broker<T> {
    const registry: array<Pipe?<T>>
    var registryLength: nat

    constructor (registry: array<Pipe?<T>>)
      requires registry.Length > 0
      ensures this.registry == registry && registryLength == 0 && Valid() && Registered() == [] && Pipes() == map[]
    {
      this.registry := registry;
      registryLength := 0;
    }

    ghost predicate Filled()
      reads this, registry
    {
      registryLength <= registry.Length && forall i :: 0 <= i < registryLength ==> registry[i] != null
    }

    ghost function Registered(): (s: seq<Pipe<T>>)
      requires Filled()
      reads this, registry
      ensures |s| == registryLength && forall i :: 0 <= i < registryLength ==> s[i] == registry[i]
    {
      seq(registryLength, i requires 0 <= i < registryLength && Filled() reads this, registry => registry[i])
    }

    /** The queues and buffers a publication may write. */
    ghost function Footprint(): set<object>
      reads this, registry
    {
      if Filled() then
        (set p | p in Registered() :: p.queue) + (set p | p in Registered() :: p.queue.buffer)
      else {}
    }

    /** No two registered pipes share a queue or a backing array; a pipe may be registered more
        than once. */
    ghost predicate Valid()
      reads this, registry, Footprint()
    {
      && registry.Length > 0
      && Filled()
      && (forall p :: p in Registered() ==> p.queue.Valid() && p.queue.buffer as object != registry)
      && (forall p, q :: p in Registered() && q in Registered() && p != q ==> Apart(p, q))
    }

    ghost predicate Apart(p: Pipe<T>, q: Pipe<T>) {
      p.queue != q.queue && p.queue.buffer != q.queue.buffer
    }

    ghost function Pipes(): (m: map<Pipe<T>, BrokerModel.Pipe<T>>)
      requires Valid()
      reads this, registry, Footprint()
      ensures m.Keys == (set p | p in Registered())
    {
      map p | p in Registered() :: p.Model()
    }

    method RegisterSubscriber(pipe: Pipe<T>) returns (status: Status)
      requires Valid() && pipe.queue.Valid() && pipe.queue.buffer as object != registry
      requires forall p :: p in Registered() && p != pipe ==> Apart(p, pipe)
      modifies this`registryLength, registry
      ensures Valid()
      ensures if old(registryLength) < registry.Length then
                && status == Success
                && Registered() == old(Registered()) + [pipe]
                && Pipes() == old(Pipes())[pipe := pipe.Model()]
              else
                status == Err && Registered() == old(Registered()) && Pipes() == old(Pipes())
    {
      if registryLength >= registry.Length {
        return Err;
      }
      registry[registryLength] := pipe;
      registryLength := registryLength + 1;
      assert Registered() == old(Registered()) + [pipe];
      return Success;
    }

    /** One registry entry's turn in a publication. */
    method Offer(i: nat, mid: nat, msg: T) returns (status: Status)
      requires Valid() && i < registryLength
      modifies Footprint()
      ensures Valid() && Registered() == old(Registered())
      ensures var p := Registered()[i];
              var was := old(Pipes())[p];
              if was.mid == mid && was.Full() then status == OutOfBounds && Pipes() == old(Pipes())
              else if was.mid == mid then
                status == Success && Pipes() == old(Pipes())[p := was.(contents := was.contents + [msg])]
              else
                status == Success && Pipes() == old(Pipes())
    {
      ghost var before, ps := Pipes(), Registered();
      InFootprint(ps[i]);
      status := Success;
      if registry[i].mid == mid {
        status := registry[i].queue.Push(msg);
        assert Registered() == ps;
        assert forall p :: p in ps && p != ps[i] ==> Apart(p, ps[i]);
        forall p | p in ps && p != ps[i]
          ensures p.Model() == before[p]
        {
        }
      }
    }

    lemma InFootprint(p: Pipe<T>)
      requires Valid() && p in Registered()
      ensures p.queue in Footprint() && p.queue.buffer in Footprint()
      ensures p in Pipes() && Pipes()[p] == p.Model()
    {
    }

    /** Enqueues on every subscriber of mid in registration order, up to the first full one. */
    method Publish(mid: nat, msg: T) returns (status: Status)
      requires Valid()
      modifies Footprint()
      ensures Valid() && Registered() == old(Registered())
      ensures (status, Pipes()) == BrokerModel.FanOut(old(Registered()), old(Pipes()), mid, msg)
    {
      ghost var ps := Registered();
      ghost var outcome := BrokerModel.FanOut(ps, Pipes(), mid, msg);
      status := Success;
      var i := 0;
      while i < registryLength
        invariant 0 <= i <= registryLength
        invariant Valid() && Registered() == ps
        invariant status == Success
        invariant BrokerModel.FanOutFrom(ps, Pipes(), mid, msg, i) == outcome
        modifies Footprint()
      {
        status := Offer(i, mid, msg);
        if status != Success {
          return;
        }
        i := i + 1;
      }
    }
  }
}
