/** A thread of the udp-threads example: its broker, its one subscribed pipe, and the
    table-driven scheduler of main.cpp. */
module Pipeline {
  import opened Status
  import opened PipelineModel
  import Queue
  import Broker
  import BrokerModel

  const MID: nat := 1

  class ThreadObject {
    const broker: Broker.Broker<nat>
    const pipe: Broker.Pipe<nat>
    var seqNum: nat
    var output: seq<nat>
    var sent: seq<nat>

    /** Wires the pipe to the broker, as the drain app's OnStart does. */
    constructor (registry: array<Broker.Pipe?<nat>>, buffer: array<nat>)
      requires registry.Length == 2 && buffer.Length == 8
      modifies registry
      ensures Valid() && Model() == Thread(0, [], [], [])
      ensures fresh(pipe.queue) && pipe.queue.buffer == buffer
    {
      var q := new Queue.Queue<nat>(buffer, 0);
      var b := new Broker.Broker<nat>(registry);
      var p := new Broker.Pipe<nat>(MID, q);
      broker, pipe := b, p;
      seqNum, output, sent := 0, [], [];
      new;
      var status := b.RegisterSubscriber(p);
    }

    ghost predicate Wired()
      reads broker, broker.registry
    {
      broker.Filled() && broker.Registered() == [pipe] && pipe.mid == MID && pipe.queue.buffer.Length == 8
    }

    ghost predicate Valid()
      reads this, broker, broker.registry, pipe.queue, pipe.queue.buffer
    {
      && Wired()
      && pipe.queue.Valid()
      && seqNum <= 0xffff_ffff  // uint32_t
      && pipe.queue.buffer as object != broker.registry
    }

    lemma BrokerIsValid()
      requires Valid()
      ensures broker.Valid()
      ensures broker.Footprint() == {pipe.queue, pipe.queue.buffer}
      ensures broker.Pipes() == map[pipe := BrokerModel.Pipe(MID, 8, pipe.queue.Contents())]
    {
      assert pipe in broker.Registered();
      assert broker.registryLength == |broker.Registered()| == 1;
      assert broker.Registered()[0] == pipe;
    }

    ghost function Model(): Thread
      requires Valid()
      reads this, broker, broker.registry, pipe.queue, pipe.queue.buffer
    {
      Thread(seqNum, pipe.queue.Contents(), output, sent)
    }

    method Publish(n: nat) returns (status: Status)
      requires Valid()
      modifies pipe.queue, pipe.queue.buffer
      ensures Valid()
      ensures (status, Model()) == PipelineModel.Publish(old(Model()), n)
    {
      BrokerIsValid();
      FanOutToOne(pipe, pipe.queue.Contents(), n);
      status := broker.Publish(MID, n);
      BrokerIsValid();
    }

    method Process(app: App, net: Network) returns (status: Status)
      requires Valid()
      modifies this, pipe.queue, pipe.queue.buffer
      ensures Valid()
      ensures (status, Model()) == PipelineModel.Process(old(Model()), app, net)
    {
      match app
      case Absent => status := Success;
      case Sender => status := SenderOnProcess(net);
      case Bridge => status := BridgeOnProcess(net);
      case Drain => status := DrainOnProcess();
    }

    method SenderOnProcess(net: Network) returns (status: Status)
      requires Valid()
      modifies this, pipe.queue, pipe.queue.buffer
      ensures Valid()
      ensures (status, Model()) == PipelineModel.Process(old(Model()), Sender, net)
      ensures seqNum == if old(seqNum) < 0xffff_ffff then old(seqNum) + 1 else 0
      ensures output == old(output)
      ensures if |old(pipe.queue.Contents())| >= 8 then
                && status == OutOfBounds
                && pipe.queue.Contents() == old(pipe.queue.Contents()) && sent == old(sent)
              else
                && status == net.send
                && pipe.queue.Contents() == old(pipe.queue.Contents()) + [seqNum]
                && sent == if net.send == Success then old(sent) + [seqNum] else old(sent)
    {
      seqNum := (seqNum + 1) % TWO32;
      status := Publish(seqNum);
      if status != Success {
        return;
      }
      status := net.send;
      if status != Success {
        return;
      }
      sent := sent + [seqNum];
    }

    method BridgeOnProcess(net: Network) returns (status: Status)
      requires Valid()
      modifies this, pipe.queue, pipe.queue.buffer
      ensures Valid()
      ensures (status, Model()) == PipelineModel.Process(old(Model()), Bridge, net)
      ensures seqNum == old(seqNum) && output == old(output) && sent == old(sent)
      ensures net.receive.Message? && |old(pipe.queue.Contents())| < 8 ==>
                status == Success && pipe.queue.Contents() == old(pipe.queue.Contents()) + [net.receive.n]
      ensures net.receive.Message? && |old(pipe.queue.Contents())| >= 8 ==>
                status == OutOfBounds && pipe.queue.Contents() == old(pipe.queue.Contents())
      ensures net.receive.ReceiveFailed? ==>
                && status == (if net.receive.status == Timeout then Success else net.receive.status)
                && pipe.queue.Contents() == old(pipe.queue.Contents())
    {
      match net.receive
      case Message(n) => status := Publish(n);
      case ReceiveFailed(error) => status := if error == Timeout then Success else error;
    }

    /** Monitor and processor alike: dequeue until the queue reports it is empty. */
    method DrainOnProcess() returns (status: Status)
      requires Valid()
      modifies this, pipe.queue, pipe.queue.buffer
      ensures Valid()
      ensures (status, Model()) ==
              PipelineModel.Process(old(Model()), Drain, Network(Success, ReceiveFailed(Timeout)))
      ensures status == Success && seqNum == old(seqNum) && sent == old(sent)
      ensures output == old(output) + old(pipe.queue.Contents()) && pipe.queue.Contents() == []
    {
      while true
        invariant Valid()
        invariant seqNum == old(seqNum) && sent == old(sent)
        invariant output + pipe.queue.Contents() == old(output + pipe.queue.Contents())
        decreases |pipe.queue.Contents()|
        modifies this, pipe.queue, pipe.queue.buffer
      {
        ghost var out, queued := output, pipe.queue.Contents();
        var item;
        status, item := pipe.queue.Pop();
        if status == OutOfBounds {
          break;
        }
        output := output + [item.value];
        assert out + queued == output + pipe.queue.Contents();
      }
      assert pipe.queue.Contents() == [];
      assert output == output + pipe.queue.Contents();
      return Success;
    }

    /** One pass over the schedule: minor frames in turn, the apps of each in turn, and back
        to the caller at the first failure. Entry k of the table meets the answers nets[k]. */
    method Execute(table: array<App>, frames: nat, apps: nat, nets: seq<Network>) returns (status: Status)
      requires Valid() && |nets| == table.Length == frames * apps
      modifies this, pipe.queue, pipe.queue.buffer
      ensures Valid()
      ensures (status, Model()) == Pass(old(Model()), old(table[..]), nets)
    {
      ghost var t0, entries := Model(), table[..];
      status := Success;
      var frame := 0;
      while frame < frames
        invariant 0 <= frame <= frames && 0 <= frame * apps <= |entries|
        invariant Valid() && status == Success
        invariant Pass(t0, entries, nets) == PassFrom(Model(), entries, frame * apps, nets)
        modifies this, pipe.queue, pipe.queue.buffer
      {
        IndexInTable(frame, 0, frames, apps);
        var app := 0;
        while app < apps
          invariant 0 <= app <= apps && 0 <= frame * apps + app <= |entries|
          invariant Valid() && status == Success
          invariant Pass(t0, entries, nets) == PassFrom(Model(), entries, frame * apps + app, nets)
          modifies this, pipe.queue, pipe.queue.buffer
        {
          IndexInTable(frame, app, frames, apps);
          var index := frame * apps + app;
          status := Process(table[index], nets[index]);
          if status != Success {
            return;
          }
          app := app + 1;
        }
        frame := frame + 1;
      }
    }
  }

  lemma FanOutToOne<P>(p: P, queued: seq<nat>, n: nat)
    ensures var one := BrokerModel.Pipe(MID, 8, queued);
            BrokerModel.FanOut([p], map[p := one], MID, n) ==
            if |queued| >= 8 then (OutOfBounds, map[p := one])
            else (Success, map[p := one.(contents := queued + [n])])
  {
    var pipes := map[p := BrokerModel.Pipe(MID, 8, queued)];
    assert [p][0] == p;
    if |queued| < 8 {
      var next := pipes[p := pipes[p].(contents := queued + [n])];
      assert next == map[p := pipes[p].(contents := queued + [n])];
      assert BrokerModel.Offer(pipes, p, MID, n) == (Success, next);
      assert BrokerModel.FanOutFrom([p], next, MID, n, 1) == (Success, next);
    } else {
      assert BrokerModel.Offer(pipes, p, MID, n) == (OutOfBounds, pipes);
    }
  }

  lemma IndexInTable(frame: nat, app: nat, frames: nat, apps: nat)
    requires frame < frames && app <= apps
    ensures frame * apps + app <= frames * apps
    ensures app < apps ==> frame * apps + app < frames * apps
    ensures (frame + 1) * apps == frame * apps + apps
  {
    assert (frames - frame - 1) * apps >= 0;
    assert frames * apps == (frames - frame - 1) * apps + frame * apps + apps;
  }
}
