/** The two threads of the udp-threads example as state machines: one scheduler pass is one
    step, and Send and Receive have whatever outcome the network gives them. */
module PipelineModel {
  import opened Status

  const CAPACITY: nat := 8
  const TWO32: nat := 0x1_0000_0000

  datatype App = Absent | Sender | Bridge | Drain

  type Failure = status: Status | status != Success witness Err

  /** A receive that brings no datagram fails with TIMEOUT. */
  datatype Received = Message(n: nat) | ReceiveFailed(status: Failure)

  /** The network's answers to the calls an app may make while it runs. */
  datatype Network = Network(send: Status, receive: Received)

  /** A thread: its sequence counter, the one subscribed pipe's queue, the numbers its drain
      app has printed, and the numbers successfully sent. */
  datatype Thread = Thread(seqNum: nat, queue: seq<nat>, output: seq<nat>, sent: seq<nat>)

  const FRESH := Thread(0, [], [], [])

  function Publish(t: Thread, n: nat): (Status, Thread) {
    if |t.queue| >= CAPACITY then (OutOfBounds, t) else (Success, t.(queue := t.queue + [n]))
  }

  /** One app's OnProcess. Monitor and processor are the same drain loop. */
  function Process(t: Thread, app: App, net: Network): (Status, Thread) {
    match app
    case Absent => (Success, t)
    case Sender =>
      var n := (t.seqNum + 1) % TWO32;
      var (status, u) := Publish(t.(seqNum := n), n);
      if status != Success then (status, u)
      else if net.send != Success then (net.send, u)
      else (Success, u.(sent := u.sent + [n]))
    case Bridge =>
      (match net.receive
       case Message(n) => Publish(t, n)
       case ReceiveFailed(status) => (if status == Timeout then Success else status, t))
    case Drain => (Success, t.(queue := [], output := t.output + t.queue))
  }

  /** A scheduler pass from table entry i on: entries in order, ending at the first failure.
      Each entry meets network answers of its own. */
  function PassFrom(t: Thread, table: seq<App>, i: nat, nets: seq<Network>): (Status, Thread)
    requires i <= |table| == |nets|
    decreases |table| - i
  {
    if i == |table| then (Success, t)
    else
      var (status, u) := Process(t, table[i], nets[i]);
      if status != Success then (status, u) else PassFrom(u, table, i + 1, nets)
  }

  function Pass(t: Thread, table: seq<App>, nets: seq<Network>): (Status, Thread)
    requires |table| == |nets|
  {
    PassFrom(t, table, 0, nets)
  }

  /** A pass over one entry is that app's turn. */
  lemma PassOfOne(t: Thread, app: App, net: Network)
    ensures Pass(t, [app], [net]) == Process(t, app, net)
  {
    assert PassFrom(t, [app], 0, [net]) == Process(t, app, net);
  }

  lemma {:induction false} PassFromAppend(
    t: Thread, a: seq<App>, i: nat, b: seq<App>, an: seq<Network>, bn: seq<Network>)
    requires i <= |a| == |an| && |b| == |bn|
    ensures var (status, u) := PassFrom(t, a, i, an);
            PassFrom(t, a + b, i, an + bn) == if status != Success then (status, u) else Pass(u, b, bn)
    decreases |a| - i
  {
    if i == |a| {
      PassSuffix(t, a, b, 0, an, bn);
    } else {
      var (status, u) := Process(t, a[i], an[i]);
      if status == Success {
        PassFromAppend(u, a, i + 1, b, an, bn);
      }
    }
  }

  lemma {:induction false} PassSuffix(
    t: Thread, a: seq<App>, b: seq<App>, j: nat, an: seq<Network>, bn: seq<Network>)
    requires |a| == |an| && j <= |b| == |bn|
    ensures PassFrom(t, a + b, |a| + j, an + bn) == PassFrom(t, b, j, bn)
    decreases |b| - j
  {
    if j < |b| {
      var (status, u) := Process(t, b[j], bn[j]);
      if status == Success {
        PassSuffix(u, a, b, j + 1, an, bn);
      }
    }
  }

  /** A pass over two tables in turn is the second pass from where the first leaves the thread,
      unless the first fails; then it ends there. */
  lemma PassAppend(t: Thread, a: seq<App>, b: seq<App>, an: seq<Network>, bn: seq<Network>)
    requires |a| == |an| && |b| == |bn|
    ensures var (status, u) := Pass(t, a, an);
            Pass(t, a + b, an + bn) == if status != Success then (status, u) else Pass(u, b, bn)
  {
    PassFromAppend(t, a, 0, b, an, bn);
  }

  function Present(table: seq<App>): seq<App> {
    if table == [] then []
    else
      var before := Present(table[..|table| - 1]);
      if table[|table| - 1].Absent? then before else before + [table[|table| - 1]]
  }

  function PresentNets(table: seq<App>, nets: seq<Network>): (r: seq<Network>)
    requires |table| == |nets|
    ensures |r| == |Present(table)|
  {
    if table == [] then []
    else
      var k := |table| - 1;
      var before := PresentNets(table[..k], nets[..k]);
      if table[k].Absent? then before else before + [nets[k]]
  }

  /** Absent entries might as well not be in the table. */
  lemma {:induction false} AbsentEntriesAreSkipped(t: Thread, table: seq<App>, nets: seq<Network>)
    requires |table| == |nets|
    ensures Pass(t, table, nets) == Pass(t, Present(table), PresentNets(table, nets))
    decreases |table|
  {
    if table != [] {
      var k := |table| - 1;
      var a, an := table[..k], nets[..k];
      AbsentEntriesAreSkipped(t, a, an);
      assert table == a + [table[k]] && nets == an + [nets[k]];
      PassAppend(t, a, [table[k]], an, [nets[k]]);
      PassAppend(t, Present(a), [table[k]], PresentNets(a, an), [nets[k]]);
      PassOfOne(Pass(t, a, an).1, table[k], nets[k]);
    }
  }

  const TABLE1 := [Sender, Drain]
  const TABLE2 := [Bridge, Drain]

  // ---------- thread 1 ----------

  /** Drain apps do not use the network, so only the first entry's answers matter. */
  function Sending(send: Status): (nets: seq<Network>)
    ensures |nets| == |TABLE1|
  {
    [Network(send, ReceiveFailed(Timeout)), Network(Success, ReceiveFailed(Timeout))]
  }

  /** Thread 1 after one pass per outcome. */
  function Run1(sends: seq<Status>): Thread {
    if sends == [] then FRESH
    else Pass(Run1(sends[..|sends| - 1]), TABLE1, Sending(sends[|sends| - 1])).1
  }

  lemma Pass1(t: Thread, send: Status)
    ensures var n := (t.seqNum + 1) % 0x1_0000_0000;
            Pass(t, TABLE1, Sending(send)) ==
            if |t.queue| >= 8 then (OutOfBounds, t.(seqNum := n))
            else if send != Success then (send, t.(seqNum := n, queue := t.queue + [n]))
            else (Success, Thread(n, [], t.output + (t.queue + [n]), t.sent + [n]))
  {
    var nets := Sending(send);
    var (status, u) := Process(t, Sender, nets[0]);
    if status == Success {
      assert PassFrom(u, TABLE1, 1, nets) == PassFrom(Process(u, Drain, nets[1]).1, TABLE1, 2, nets);
    }
  }

  /** The first k sequence numbers, counter wrap included. */
  function Numbers(k: nat): (s: seq<nat>)
    ensures |s| == k
  {
    seq(k, i requires 0 <= i < k => (i + 1) % 0x1_0000_0000)
  }

  lemma NumbersGrow(k: nat, i: nat)
    requires i <= k
    ensures Numbers(k + 1) == Numbers(k) + [(k + 1) % 0x1_0000_0000]
    ensures Numbers(k + 1)[..i] == Numbers(k)[..i]
    ensures Numbers(k + 1)[i..] == Numbers(k)[i..] + [(k + 1) % 0x1_0000_0000]
  {
  }

  /** Passes from i to i + 7 all failed to send. */
  ghost predicate EightFailures(sends: seq<Status>, i: nat) {
    i + 8 <= |sends| && forall j :: i <= j < i + 8 ==> sends[j] != Success
  }

  /** How many passes at the end of the run failed to send. */
  function FailedTail(sends: seq<Status>): (n: nat)
    ensures n <= |sends|
    ensures forall j :: |sends| - n <= j < |sends| ==> sends[j] != Success
    ensures n < |sends| ==> sends[|sends| - n - 1] == Success
  {
    if sends == [] || sends[|sends| - 1] == Success then 0 else FailedTail(sends[..|sends| - 1]) + 1
  }

  function SentOf(sends: seq<Status>): seq<nat> {
    if sends == [] then []
    else
      var n := |sends| - 1;
      if sends[n] == Success then SentOf(sends[..n]) + [(n + 1) % 0x1_0000_0000] else SentOf(sends[..n])
  }

  ghost predicate Stuck(sends: seq<Status>) {
    exists i: nat :: EightFailures(sends, i)
  }

  lemma StuckStays(sends: seq<Status>)
    requires sends != []
    ensures Stuck(sends[..|sends| - 1]) ==> Stuck(sends)
  {
    var before := sends[..|sends| - 1];
    if Stuck(before) {
      var i: nat :| EightFailures(before, i);
      assert EightFailures(sends, i);
    }
  }

  /** While no eight sends in a row have failed, nothing is lost or reordered: what was
      monitored followed by what is queued is the full sequence, the queue holds exactly the
      numbers of the trailing failures, and every successful send's number was sent. */
  lemma {:induction false} NothingLostWhileAlive(sends: seq<Status>)
    requires !Stuck(sends)
    ensures var t, k := Run1(sends), |sends|;
            && t.seqNum == k % 0x1_0000_0000
            && t.output + t.queue == Numbers(k)
            && |t.queue| == FailedTail(sends) < 8
            && t.sent == SentOf(sends)
  {
    if sends != [] {
      var k := |sends| - 1;
      var before := sends[..k];
      StuckStays(sends);
      NothingLostWhileAlive(before);
      var t, n := Run1(before), (k + 1) % 0x1_0000_0000;
      Pass1(t, sends[k]);
      NextNumber(k);
      NumbersGrow(k, 0);
      assert t.output + (t.queue + [n]) == (t.output + t.queue) + [n];
      if FailedTail(sends) >= 8 {
        assert EightFailures(sends, |sends| - 8);
      }
    }
  }

  /** In plain numbers, before the counter wraps: monitored and queued together are 1, 2, ...,
      k without a gap, and fewer than eight are queued. */
  lemma NothingLostBeforeWrap(sends: seq<Status>)
    requires |sends| < 4_294_967_296 && !Stuck(sends)
    ensures var t := Run1(sends);
            && |t.output| + |t.queue| == |sends|
            && (forall i :: 0 <= i < |sends| ==> (t.output + t.queue)[i] == i + 1)
            && |t.queue| < 8
            && t.seqNum == |sends|
  {
    NothingLostWhileAlive(sends);
    var all := Run1(sends).output + Run1(sends).queue;
    assert all == Numbers(|sends|);
    forall i | 0 <= i < |sends| ensures all[i] == i + 1 {
    }
  }

  lemma NextNumber(k: nat)
    ensures (k % 0x1_0000_0000 + 1) % 0x1_0000_0000 == (k + 1) % 0x1_0000_0000
  {
  }

  ghost predicate StoppedAt(t: Thread, sends: seq<Status>, i: nat)
    requires i + 8 <= |sends|
  {
    var all := Numbers(i + 8);
    && t.output == all[..i] && t.queue == all[i..]
    && t.sent == SentOf(sends[..i])
    && t.seqNum == |sends| % 0x1_0000_0000
  }

  lemma BeforeEighthFailure(sends: seq<Status>, i: nat)
    requires EightFailures(sends, i) && |sends| == i + 8 && !Stuck(sends[..|sends| - 1])
    ensures var k := |sends| - 1;
            Run1(sends[..k]) == Thread(k % 0x1_0000_0000, Numbers(k)[i..], Numbers(k)[..i], SentOf(sends[..i]))
  {
    var k := |sends| - 1;
    var before := sends[..k];
    var t := Run1(before);
    NothingLostWhileAlive(before);
    TailOfSeven(sends, i);
    assert t.output == Numbers(k)[..i] && t.queue == Numbers(k)[i..];
    SentStops(before, i);
    assert before[..i] == sends[..i];
  }

  /** The pass of a failed send with room in the queue. */
  lemma FailedSendQueues(t: Thread, send: Status)
    requires |t.queue| < 8 && send != Success
    ensures var n := (t.seqNum + 1) % 0x1_0000_0000;
            Pass(t, TABLE1, Sending(send)).1 == Thread(n, t.queue + [n], t.output, t.sent)
  {
    Pass1(t, send);
  }

  lemma EighthFailure(sends: seq<Status>, i: nat)
    requires EightFailures(sends, i) && |sends| == i + 8 && !Stuck(sends[..|sends| - 1])
    ensures StoppedAt(Run1(sends), sends, i)
  {
    var k := |sends| - 1;
    var t, n := Run1(sends[..k]), (k + 1) % 0x1_0000_0000;
    BeforeEighthFailure(sends, i);
    FailedSendQueues(t, sends[k]);
    NextNumber(k);
    NumbersGrow(k, i);
    assert Run1(sends) == Thread(n, t.queue + [n], t.output, t.sent);
  }

  /** Once eight sends in a row have failed the queue is full for good: whatever the later
      outcomes, every pass fails in Publish, and nothing more is sent or monitored. */
  lemma {:induction false} EightFailuresStopTheThread(sends: seq<Status>, i: nat)
    requires EightFailures(sends, i) && !Stuck(sends[..i + 7])
    ensures StoppedAt(Run1(sends), sends, i)
    ensures forall send: Status :: Pass(Run1(sends), TABLE1, Sending(send)).0 == OutOfBounds
    decreases |sends|
  {
    var k := |sends| - 1;
    var before := sends[..k];
    if k + 1 == i + 8 {
      EighthFailure(sends, i);
    } else {
      assert EightFailures(before, i);
      assert before[..i + 7] == sends[..i + 7];
      assert before[..i] == sends[..i];
      EightFailuresStopTheThread(before, i);
      Pass1(Run1(before), sends[k]);
      NextNumber(k);
    }
    forall send: Status ensures Pass(Run1(sends), TABLE1, Sending(send)).0 == OutOfBounds {
      Pass1(Run1(sends), send);
    }
  }

  lemma {:induction false} FirstEightFailures(sends: seq<Status>)
    requires Stuck(sends)
    ensures exists i: nat :: EightFailures(sends, i) && !Stuck(sends[..i + 7])
    decreases |sends|
  {
    var before := sends[..|sends| - 1];
    if Stuck(before) {
      FirstEightFailures(before);
      var i: nat :| EightFailures(before, i) && !Stuck(before[..i + 7]);
      assert before[..i + 7] == sends[..i + 7];
      assert EightFailures(sends, i);
    } else {
      var i: nat :| EightFailures(sends, i);
      if i + 8 < |sends| {
        assert EightFailures(before, i);
      }
      assert sends[..i + 7] == before;
    }
  }

  /** The thread fills its queue, and so stops for good, exactly when some eight sends in a
      row fail. */
  lemma StopsIffEightFailures(sends: seq<Status>)
    ensures |Run1(sends).queue| >= 8 <==> Stuck(sends)
  {
    if Stuck(sends) {
      FirstEightFailures(sends);
      var i: nat :| EightFailures(sends, i) && !Stuck(sends[..i + 7]);
      EightFailuresStopTheThread(sends, i);
    } else {
      NothingLostWhileAlive(sends);
    }
  }

  /** Just before the eighth failure in a row the tail is exactly seven. */
  lemma TailOfSeven(sends: seq<Status>, i: nat)
    requires EightFailures(sends, i) && |sends| == i + 8 && !Stuck(sends[..|sends| - 1])
    ensures FailedTail(sends[..|sends| - 1]) == 7
  {
    var before := sends[..|sends| - 1];
    if FailedTail(before) >= 8 {
      assert EightFailures(before, |before| - 8);
    }
  }

  lemma {:induction false} SentStops(sends: seq<Status>, i: nat)
    requires i <= |sends| && forall j :: i <= j < |sends| ==> sends[j] != Success
    ensures SentOf(sends) == SentOf(sends[..i])
  {
    if i < |sends| {
      SentStops(sends[..|sends| - 1], i);
      assert sends[..|sends| - 1][..i] == sends[..i];
    } else {
      assert sends[..i] == sends;
    }
  }

  // ---------- both threads and the network between them ----------

  datatype System = System(thread1: Thread, thread2: Thread)

  datatype Action = Step1(send: Status) | Step2(receive: Received)

  /** The network may lose, repeat and reorder, but delivers only numbers that were sent. */
  ghost predicate Allowed(s: System, a: Action) {
    a.Step2? && a.receive.Message? ==> a.receive.n in s.thread1.sent
  }

  function Receiving(receive: Received): (nets: seq<Network>)
    ensures |nets| == |TABLE2|
  {
    [Network(Success, receive), Network(Success, ReceiveFailed(Timeout))]
  }

  function Act(s: System, a: Action): System {
    match a
    case Step1(send) => s.(thread1 := Pass(s.thread1, TABLE1, Sending(send)).1)
    case Step2(receive) => s.(thread2 := Pass(s.thread2, TABLE2, Receiving(receive)).1)
  }

  /** The states of an interleaving, each action allowed where it is taken. */
  ghost predicate IsRun(states: seq<System>, actions: seq<Action>) {
    && |states| == |actions| + 1
    && states[0] == System(FRESH, FRESH)
    && forall i :: 0 <= i < |actions| ==>
         Allowed(states[i], actions[i]) && states[i + 1] == Act(states[i], actions[i])
  }

  lemma RunBefore(states: seq<System>, actions: seq<Action>)
    requires IsRun(states, actions) && actions != []
    ensures var k := |actions|;
            && IsRun(states[..k], actions[..k - 1])
            && states[..k][k - 1] == states[k - 1]
            && Allowed(states[k - 1], actions[k - 1])
            && states[k] == Act(states[k - 1], actions[k - 1])
  {
    var k := |actions|;
    assert states[k - 1 + 1] == Act(states[k - 1], actions[k - 1]);
  }

  lemma Pass2(t: Thread, receive: Received)
    requires t.queue == []
    ensures Pass(t, TABLE2, Receiving(receive)) ==
            match receive
            case Message(n) => (Success, t.(output := t.output + [n]))
            case ReceiveFailed(status) => (if status == Timeout then Success else status, t)
  {
    var nets := Receiving(receive);
    var (status, u) := Process(t, Bridge, nets[0]);
    assert t.output + t.queue == t.output;
    assert receive.Message? ==> t.queue + [receive.n] == [receive.n];
    if status == Success {
      assert PassFrom(u, TABLE2, 1, nets) == PassFrom(Process(u, Drain, nets[1]).1, TABLE2, 2, nets);
    }
  }

  /** In every interleaving thread 2's queue is empty between passes, so its Publish never
      meets a full queue, and it has processed only numbers that thread 1 sent; each of
      those thread 1 has monitored as well. */
  lemma {:induction false} OnlySentIsProcessed(states: seq<System>, actions: seq<Action>)
    requires IsRun(states, actions)
    ensures var s := states[|actions|];
            && s.thread2.queue == []
            && (forall n :: n in s.thread2.output ==> n in s.thread1.sent)
            && (forall n :: n in s.thread1.sent ==> n in s.thread1.output)
            && (forall receive: Received ::
                  Pass(s.thread2, TABLE2, Receiving(receive)).0 == Success || receive.ReceiveFailed?)
    decreases |actions|
  {
    var k := |actions|;
    if k > 0 {
      RunBefore(states, actions);
      OnlySentIsProcessed(states[..k], actions[..k - 1]);
      var s, a := states[k - 1], actions[k - 1];
      match a
      case Step1(send) => Pass1(s.thread1, send);
      case Step2(receive) => Pass2(s.thread2, receive);
    }
    forall receive: Received
      ensures Pass(states[k].thread2, TABLE2, Receiving(receive)).0 == Success || receive.ReceiveFailed?
    {
      Pass2(states[k].thread2, receive);
    }
  }

  /** The outcomes thread 1 met in an interleaving. */
  function Outcomes(actions: seq<Action>): seq<Status> {
    if actions == [] then []
    else
      var a := actions[|actions| - 1];
      var before := Outcomes(actions[..|actions| - 1]);
      if a.Step1? then before + [a.send] else before
  }

  lemma OneMorePass(sends: seq<Status>, send: Status)
    ensures Run1(sends + [send]) == Pass(Run1(sends), TABLE1, Sending(send)).1
  {
    assert (sends + [send])[..|sends|] == sends;
  }

  /** Thread 2 never disturbs thread 1: in every interleaving it is where its own passes
      alone would have taken it. */
  lemma {:induction false} ThreadsAreIndependent(states: seq<System>, actions: seq<Action>)
    requires IsRun(states, actions)
    ensures states[|actions|].thread1 == Run1(Outcomes(actions))
    decreases |actions|
  {
    var k := |actions|;
    if k > 0 {
      RunBefore(states, actions);
      ThreadsAreIndependent(states[..k], actions[..k - 1]);
      if actions[k - 1].Step1? {
        OneMorePass(Outcomes(actions[..k - 1]), actions[k - 1].send);
      }
    }
  }

  /** Across the threads: once eight sends in a row have failed, thread 2 never processes
      anything but numbers sent before them, however the passes interleave. */
  lemma NothingProcessedAfterStop(states: seq<System>, actions: seq<Action>, i: nat)
    requires IsRun(states, actions)
    requires EightFailures(Outcomes(actions), i) && !Stuck(Outcomes(actions)[..i + 7])
    ensures forall n :: n in states[|actions|].thread2.output ==> n in SentOf(Outcomes(actions)[..i])
  {
    OnlySentIsProcessed(states, actions);
    ThreadsAreIndependent(states, actions);
    EightFailuresStopTheThread(Outcomes(actions), i);
  }
}
