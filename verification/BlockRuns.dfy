/** Whole runs of Get, Put and Update by callers that return what they were given. */
module BlockRuns {
  import opened Status
  import BlockModel

  /** The allocator together with the descriptors its callers currently hold. */
  datatype World = World(state: BlockModel.State, held: seq<BlockModel.Pointer>)

  datatype Op =
    | Get(size: nat, reset: Status)
    | Put(i: nat, reset: Status)
    | Update(i: nat, newSize: nat)

  function Remove<T>(s: seq<T>, i: nat): seq<T>
    requires i < |s|
  {
    s[..i] + s[i + 1..]
  }

  function Step(c: BlockModel.Config, w: World, op: Op): World
    requires c.Ok()
  {
    match op
    case Get(size, reset) =>
      var r := BlockModel.Get(c, w.state, size, reset);
      World(r.state, if r.status == Success then w.held + [r.ptr] else w.held)
    case Put(i, reset) =>
      if i >= |w.held| then w
      else
        var r := BlockModel.Put(c, w.state, w.held[i], reset);
        World(r.state, if r.status == Success then Remove(w.held, i) else w.held[i := r.ptr])
    case Update(i, newSize) =>
      if i >= |w.held| then w
      else w.(held := w.held[i := BlockModel.Update(c, w.held[i], newSize).1])
  }

  function Run(c: BlockModel.Config, w: World, ops: seq<Op>): World
    requires c.Ok()
    decreases |ops|
  {
    if ops == [] then w else Run(c, Step(c, w, ops[0]), ops[1..])
  }

  const INITIAL := World(BlockModel.State(0, []), [])

  /** The blocks below the bump counter are split, without overlap, between the free stack
      and the callers. */
  ghost predicate Invariant(c: BlockModel.Config, w: World) {
    && w.state.used <= c.length
    && |w.held| + |w.state.free| == w.state.used
    && (forall a :: a in w.state.free ==> c.IsBlockBelow(a, w.state.used))
    && (forall i :: 0 <= i < |w.held| ==> c.IsBlockBelow(w.held[i].addr, w.state.used))
    && (forall i, j :: 0 <= i < j < |w.state.free| ==> w.state.free[i] != w.state.free[j])
    && (forall i, j :: 0 <= i < j < |w.held| ==> w.held[i].addr != w.held[j].addr)
    && (forall i :: 0 <= i < |w.held| ==> w.held[i].addr !in w.state.free)
    && (forall k: nat :: k < w.state.used ==> c.Addr(k) in w.state.free || Holds(w.held, c.Addr(k)))
  }

  ghost predicate Holds(held: seq<BlockModel.Pointer>, a: nat) {
    exists i :: 0 <= i < |held| && held[i].addr == a
  }

  /** The free stack a Get draws from: one fresh block when it was empty. */
  ghost function Stocked(c: BlockModel.Config, s: BlockModel.State): BlockModel.State {
    if s.free == [] then BlockModel.State(s.used + 1, [c.Addr(s.used)]) else s
  }

  /** In a reachable state Get either refuses and changes nothing, or draws the top of the
      stocked stack; neither the counter check nor the descriptor check ever fails. */
  lemma GetOutcome(c: BlockModel.Config, w: World, size: nat, reset: Status)
    requires c.Ok() && Invariant(c, w)
    ensures var s := w.state;
            var r := BlockModel.Get(c, s, size, reset);
            if size == 0 || size > c.typeSize || |w.held| == c.length then
              r.state == s && r.status == if size == 0 then InvalidSize else MemAlloc
            else
              var t := Stocked(c, s);
              var top := |t.free| - 1;
              && t.used <= c.length
              && r.status == reset
              && r.state == (if reset == Success then BlockModel.State(t.used, t.free[..top]) else t)
              && (reset == Success ==> r.ptr == BlockModel.Pointer(t.free[top], c.typeSize, c.alignment))
  {
    var s := w.state;
    if s.used < c.length {
      BlockModel.BlockInsidePool(c, s.used);
    }
    if s.free != [] {
      var a := s.free[|s.free| - 1];
      assert a in s.free;
      var k: nat :| k < s.used && a == c.Addr(k);
      BlockModel.BlockInsidePool(c, k);
    }
  }

  /** Carving a fresh block onto the empty stack. */
  lemma StockKeepsInvariant(c: BlockModel.Config, w: World)
    requires c.Ok() && Invariant(c, w) && |w.held| < c.length
    ensures Invariant(c, World(Stocked(c, w.state), w.held)) && Stocked(c, w.state).free != []
  {
    var s, t := w.state, Stocked(c, w.state);
    if s.free == [] {
      forall k: nat | k < s.used ensures c.Addr(k) != c.Addr(s.used) {
        BlockModel.BlocksApart(c, k, s.used);
      }
      assert c.IsBlockBelow(c.Addr(s.used), t.used);
      forall x | c.IsBlockBelow(x, s.used) ensures c.IsBlockBelow(x, t.used) {
      }
    }
  }

  /** Handing out the top of the stack. */
  lemma DrawKeepsInvariant(c: BlockModel.Config, w: World, p: BlockModel.Pointer)
    requires c.Ok() && Invariant(c, w) && w.state.free != []
    requires p.addr == w.state.free[|w.state.free| - 1]
    ensures Invariant(c, World(BlockModel.State(w.state.used, w.state.free[..|w.state.free| - 1]), w.held + [p]))
  {
    var free, held := w.state.free[..|w.state.free| - 1], w.held + [p];
    assert held[|w.held|].addr == p.addr && p.addr in w.state.free;
    forall a | Holds(w.held, a) ensures Holds(held, a) {
      var i :| 0 <= i < |w.held| && w.held[i].addr == a;
      assert held[i].addr == a;
    }
    forall a | a in w.state.free ensures a in free || Holds(held, a) {
    }
  }

  lemma GetKeepsInvariant(c: BlockModel.Config, w: World, size: nat, reset: Status)
    requires c.Ok() && Invariant(c, w)
    ensures Invariant(c, Step(c, w, Op.Get(size, reset)))
  {
    GetOutcome(c, w, size, reset);
    var r := BlockModel.Get(c, w.state, size, reset);
    if r.state != w.state || r.status == Success {
      StockKeepsInvariant(c, w);
      if reset == Success {
        DrawKeepsInvariant(c, World(Stocked(c, w.state), w.held), r.ptr);
      }
    }
  }

  lemma RemoveFromHeld(held: seq<BlockModel.Pointer>, i: nat)
    requires i < |held| && forall j, k :: 0 <= j < k < |held| ==> held[j].addr != held[k].addr
    ensures var rest := Remove(held, i);
            && |rest| == |held| - 1
            && (forall j :: 0 <= j < |rest| ==> rest[j] in held && rest[j].addr != held[i].addr)
            && (forall j, k :: 0 <= j < k < |rest| ==> rest[j].addr != rest[k].addr)
            && (forall a :: Holds(held, a) && a != held[i].addr ==> Holds(rest, a))
  {
    var rest := Remove(held, i);
    assert forall j :: 0 <= j < |rest| ==> rest[j] == held[if j < i then j else j + 1];
    forall a | Holds(held, a) && a != held[i].addr
      ensures Holds(rest, a)
    {
      var j :| 0 <= j < |held| && held[j].addr == a;
      assert rest[if j < i then j else j - 1].addr == a;
    }
  }

  /** Returning the top block lowers the bump counter. */
  lemma PutTop(c: BlockModel.Config, w: World, i: nat)
    requires c.Ok() && Invariant(c, w) && i < |w.held| && w.held[i].addr == c.Addr(w.state.used - 1)
    ensures Invariant(c, World(BlockModel.State(w.state.used - 1, w.state.free), Remove(w.held, i)))
  {
    RemoveFromHeld(w.held, i);
    var top := w.state.used - 1;
    forall a | c.IsBlockBelow(a, w.state.used) && a != c.Addr(top)
      ensures c.IsBlockBelow(a, top)
    {
      var k: nat :| k < w.state.used && a == c.Addr(k);
      assert k < top;
    }
    forall k: nat | k < top
      ensures c.Addr(k) in w.state.free || Holds(Remove(w.held, i), c.Addr(k))
    {
      BlockModel.BlocksApart(c, k, top);
    }
  }

  /** Returning any other block pushes it. */
  lemma PutBelowTop(c: BlockModel.Config, w: World, i: nat)
    requires c.Ok() && Invariant(c, w) && i < |w.held|
    ensures Invariant(c, World(BlockModel.State(w.state.used, w.state.free + [w.held[i].addr]), Remove(w.held, i)))
  {
    RemoveFromHeld(w.held, i);
    var free := w.state.free + [w.held[i].addr];
    assert free[|w.state.free|] == w.held[i].addr;
    forall a | a in w.state.free ensures a in free {
    }
  }

  lemma PutEffect(c: BlockModel.Config, w: World, i: nat, reset: Status)
    requires c.Ok() && Invariant(c, w) && i < |w.held|
    ensures var s := w.state;
            var r := BlockModel.Put(c, s, w.held[i], reset);
            if r.status != Success then r.state == s && r.ptr == w.held[i]
            else if w.held[i].addr == c.Addr(s.used - 1) then r.state == BlockModel.State(s.used - 1, s.free)
            else r.state == BlockModel.State(s.used, s.free + [w.held[i].addr])
  {
    BlockModel.BlockInsidePool(c, w.state.used - 1);
  }

  lemma PutKeepsInvariant(c: BlockModel.Config, w: World, i: nat, reset: Status)
    requires c.Ok() && Invariant(c, w) && i < |w.held|
    ensures Invariant(c, Step(c, w, Op.Put(i, reset)))
  {
    PutEffect(c, w, i, reset);
    var r := BlockModel.Put(c, w.state, w.held[i], reset);
    if r.status != Success {
      assert w.held[i := r.ptr] == w.held;
    } else if w.held[i].addr == c.Addr(w.state.used - 1) {
      PutTop(c, w, i);
    } else {
      PutBelowTop(c, w, i);
    }
  }

  lemma UpdateKeepsInvariant(c: BlockModel.Config, w: World, i: nat, newSize: nat)
    requires c.Ok() && Invariant(c, w) && i < |w.held|
    ensures Invariant(c, Step(c, w, Op.Update(i, newSize)))
  {
    var w' := Step(c, w, Op.Update(i, newSize));
    assert forall j :: 0 <= j < |w.held| ==> w'.held[j].addr == w.held[j].addr;
    forall a | Holds(w.held, a) ensures Holds(w'.held, a) {
      var j :| 0 <= j < |w.held| && w.held[j].addr == a;
      assert w'.held[j].addr == a;
    }
  }

  lemma {:induction false} RunKeepsInvariant(c: BlockModel.Config, w: World, ops: seq<Op>)
    requires c.Ok() && Invariant(c, w)
    ensures Invariant(c, Run(c, w, ops))
    decreases |ops|
  {
    if ops != [] {
      match ops[0] {
        case Get(size, reset) => GetKeepsInvariant(c, w, size, reset);
        case Put(i, reset) => if i < |w.held| { PutKeepsInvariant(c, w, i, reset); }
        case Update(i, newSize) => if i < |w.held| { UpdateKeepsInvariant(c, w, i, newSize); }
      }
      RunKeepsInvariant(c, Step(c, w, ops[0]), ops[1..]);
    }
  }

  // ---------- what every reachable state promises ----------

  lemma HeldApart(c: BlockModel.Config, w: World, i: nat, j: nat)
    requires c.Ok() && Invariant(c, w) && i < j < |w.held|
    ensures w.held[i].addr + c.typeSize <= w.held[j].addr || w.held[j].addr + c.typeSize <= w.held[i].addr
  {
    var k: nat :| k < w.state.used && w.held[i].addr == c.Addr(k);
    var l: nat :| l < w.state.used && w.held[j].addr == c.Addr(l);
    if k < l {
      BlockModel.BlocksApart(c, k, l);
    } else if l < k {
      BlockModel.BlocksApart(c, l, k);
    }
  }

  lemma HeldInPool(c: BlockModel.Config, w: World, i: nat)
    requires c.Ok() && Invariant(c, w) && i < |w.held|
    ensures c.base <= w.held[i].addr && w.held[i].addr + c.typeSize <= c.End()
  {
    var k: nat :| k < w.state.used && w.held[i].addr == c.Addr(k);
    BlockModel.BlockInsidePool(c, k);
  }

  /** After any run every held block lies in the pool and off the free stack, and no two
      held blocks share a byte. */
  lemma RunsNeverAlias(c: BlockModel.Config, ops: seq<Op>)
    requires c.Ok()
    ensures var w := Run(c, INITIAL, ops);
            && (forall i :: 0 <= i < |w.held| ==>
                  && c.base <= w.held[i].addr && w.held[i].addr + c.typeSize <= c.End()
                  && w.held[i].addr !in w.state.free)
            && (forall i, j :: 0 <= i < j < |w.held| ==>
                  || w.held[i].addr + c.typeSize <= w.held[j].addr
                  || w.held[j].addr + c.typeSize <= w.held[i].addr)
  {
    var w := Run(c, INITIAL, ops);
    RunKeepsInvariant(c, INITIAL, ops);
    forall i | 0 <= i < |w.held|
      ensures c.base <= w.held[i].addr && w.held[i].addr + c.typeSize <= c.End()
    {
      HeldInPool(c, w, i);
    }
    forall i, j | 0 <= i < j < |w.held|
      ensures w.held[i].addr + c.typeSize <= w.held[j].addr || w.held[j].addr + c.typeSize <= w.held[i].addr
    {
      HeldApart(c, w, i, j);
    }
  }

  /** Conservation, and a Get of legal size succeeds exactly when some block is not held. */
  lemma GetSucceedsIffBlockFree(c: BlockModel.Config, ops: seq<Op>, size: nat)
    requires c.Ok() && 0 < size <= c.typeSize
    ensures var w := Run(c, INITIAL, ops);
            && |w.held| + |w.state.free| == w.state.used <= c.length
            && (BlockModel.Get(c, w.state, size, Success).status == Success <==> |w.held| < c.length)
  {
    RunKeepsInvariant(c, INITIAL, ops);
    GetOutcome(c, Run(c, INITIAL, ops), size, Success);
  }

  /** A held block can be returned unless its descriptor was shrunk to size 0, it is
      misaligned, or the Reset callback fails; Put's other refusals, a full free list
      among them, never strike a holder. */
  lemma PutOfHeldBlock(c: BlockModel.Config, ops: seq<Op>, i: nat, reset: Status)
    requires c.Ok() && i < |Run(c, INITIAL, ops).held|
    ensures var w := Run(c, INITIAL, ops);
            var p := w.held[i];
            var r := BlockModel.Put(c, w.state, p, reset);
            && r.status == (if p.size == 0 then NullPtr else if p.addr % c.alignment != 0 then MemFree else reset)
            && (r.status == Success ==> r.ptr == BlockModel.NULL)
            && (r.status != Success ==> r.ptr == p && r.state == w.state)
  {
    RunKeepsInvariant(c, INITIAL, ops);
    var w := Run(c, INITIAL, ops);
    var k: nat :| k < w.state.used && w.held[i].addr == c.Addr(k);
    BlockModel.BlockInsidePool(c, k);
    BlockModel.BlockInsidePool(c, w.state.used - 1);
  }

  /** A failed Get leaves every descriptor as it was and loses no block: at most it moves the
      next unused block to the free stack, and only when Reset fails. Later Gets succeed
      just as if it had not been made. The counters are never found corrupt. */
  lemma FailedGetIsHarmless(c: BlockModel.Config, ops: seq<Op>, size: nat, reset: Status)
    requires c.Ok()
    ensures var w := Run(c, INITIAL, ops);
            var r := BlockModel.Get(c, w.state, size, reset);
            var u := Run(c, INITIAL, ops + [Op.Get(size, reset)]);
            && (r.status in {Success, InvalidSize, MemAlloc} || r.status == reset)
            && (r.status != Success ==>
                  && u.held == w.held
                  && (u.state == w.state || (r.status == reset && u.state == Stocked(c, w.state)))
                  && (forall later: nat ::
                        BlockModel.Get(c, u.state, later, Success).status ==
                        BlockModel.Get(c, w.state, later, Success).status))
  {
    var w := Run(c, INITIAL, ops);
    var op := Op.Get(size, reset);
    RunKeepsInvariant(c, INITIAL, ops);
    RunAppend(c, INITIAL, ops, op);
    GetOutcome(c, w, size, reset);
    GetKeepsInvariant(c, w, size, reset);
    var u := Step(c, w, op);
    forall later: nat
      ensures u.held == w.held ==>
                BlockModel.Get(c, u.state, later, Success).status ==
                BlockModel.Get(c, w.state, later, Success).status
    {
      GetOutcome(c, w, later, Success);
      GetOutcome(c, u, later, Success);
    }
  }

  lemma {:induction false} RunAppend(c: BlockModel.Config, w: World, ops: seq<Op>, op: Op)
    requires c.Ok()
    ensures Run(c, w, ops + [op]) == Step(c, Run(c, w, ops), op)
    decreases |ops|
  {
    if ops == [] {
      assert ([op])[1..] == [];
      assert ops + [op] == [op];
    } else {
      assert (ops + [op])[1..] == ops[1..] + [op];
      RunAppend(c, Step(c, w, ops[0]), ops[1..], op);
    }
  }

  // ---------- descriptors that are not held ----------

  /** Returning a block that nobody holds is refused exactly when its index is still below
      the bump counter, or the counter is zero: once the counter has dropped past the
      block, a second Put of it goes through. */
  lemma DoublePutRefusedIff(c: BlockModel.Config, ops: seq<Op>, k: nat, size: nat)
    requires c.Ok() && k < c.length && size > 0 && BlockModel.Aligned(c, k)
    requires !Holds(Run(c, INITIAL, ops).held, c.Addr(k))
    ensures var s := Run(c, INITIAL, ops).state;
            var r := BlockModel.Put(c, s, BlockModel.Pointer(c.Addr(k), size, c.alignment), Success);
            r.status != Success <==> k < s.used || s.used == 0
  {
    RunKeepsInvariant(c, INITIAL, ops);
    var s := Run(c, INITIAL, ops).state;
    BlockModel.BlockInsidePool(c, k);
    if s.used > 0 {
      BlockModel.BlockInsidePool(c, s.used - 1);
    }
    if k >= s.used > 0 {
      BlockModel.BlocksApart(c, s.used - 1, k);
      if c.Addr(k) in s.free {
        var j: nat :| j < s.used && c.Addr(k) == c.Addr(j);
        BlockModel.AddrInjective(c, j, k);
      }
    }
  }

  /** The refusal is therefore not complete: with two blocks out, returning the second one
      twice is accepted, and the next two Gets hand out the same block. */
  lemma SecondPutCanBeAccepted(c: BlockModel.Config, size: nat)
    requires c.Ok() && c.length >= 2 && BlockModel.Aligned(c, 1) && 0 < size <= c.typeSize
    ensures var s0 := Run(c, INITIAL, [Op.Get(size, Success), Op.Get(size, Success)]).state;
            var p := BlockModel.Pointer(c.Addr(1), c.typeSize, c.alignment);
            var put1 := BlockModel.Put(c, s0, p, Success);
            var put2 := BlockModel.Put(c, put1.state, p, Success);
            var get1 := BlockModel.Get(c, put2.state, size, Success);
            var get2 := BlockModel.Get(c, get1.state, size, Success);
            && put1.status == put2.status == get1.status == get2.status == Success
            && get1.ptr == get2.ptr == p
  {
    BlockModel.BlockInsidePool(c, 0);
    BlockModel.BlockInsidePool(c, 1);
    var ops := [Op.Get(size, Success), Op.Get(size, Success)];
    var w1 := Step(c, INITIAL, ops[0]);
    var w2 := Step(c, w1, ops[1]);
    assert ops[1..] == [ops[1]];
    assert Run(c, w1, [ops[1]]) == Run(c, w2, [ops[1]][1..]) == w2;
    assert w2.state == BlockModel.State(2, []);
    BlockModel.BlocksApart(c, 0, 1);
  }
}
