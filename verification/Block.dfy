/** The block allocator object of juno_memory_block.c, its free stack kept in place in the
    caller's metadata array, and size_t products reduced modulo sizeMax + 1. */
module Block {
  import opened Status
  import opened BlockModel

  /** A caller's descriptor, which Put and Update write through. */
  class Descriptor {
    var ptr: Pointer

    constructor (ptr: Pointer)
      ensures this.ptr == ptr
    {
      this.ptr := ptr;
    }
  }

  class Allocator {
    const sizeMax: nat
    var memory: nat
    var metadata: array<nat>
    var typeSize: nat
    var alignment: nat
    var length: nat
    var used: nat
    var freed: nat

    constructor (sizeMax: nat, metadata: array<nat>)
      ensures this.sizeMax == sizeMax && this.metadata == metadata && length == 0 && Valid()
    {
      this.sizeMax, this.metadata := sizeMax, metadata;
      memory, typeSize, alignment, length, used, freed := 0, 0, 0, 0, 0, 0;
    }

    /** The metadata array has an entry per block and the counters fit it. */
    ghost predicate Valid()
      reads this
    {
      length <= metadata.Length && freed <= length
    }

    function Conf(): Config
      reads this
    {
      Config(memory, typeSize, alignment, length, sizeMax)
    }

    ghost function Model(): State
      requires Valid()
      reads this, metadata
    {
      State(used, metadata[..freed])
    }

    method Verify() returns (status: Status)
      ensures status == Conf().VerifyStatus()
      ensures status == NullPtr <==> memory == 0 || typeSize == 0 || alignment == 0 || length == 0
      ensures status == Success <==>
                && memory != 0 && typeSize != 0 && alignment != 0 && length != 0
                && length * typeSize <= sizeMax && memory % alignment == 0
      ensures status in {Success, NullPtr, Err}
    {
      Conf().GoodConfigurations();
      if memory == 0 || length == 0 || typeSize == 0 || alignment == 0 {
        return NullPtr;
      }
      if length > sizeMax / typeSize {
        return Err;
      }
      if memory % alignment != 0 {
        return Err;
      }
      return Success;
    }

    method Init(memory: nat, typeSize: nat, alignment: nat, length: nat) returns (status: Status)
      requires length <= metadata.Length
      modifies this
      ensures metadata == old(metadata)
      ensures Valid() && Conf() == Config(memory, typeSize, alignment, length, sizeMax)
      ensures Model() == State(0, [])
      ensures status == Conf().InitStatus()
      ensures status == Success <==>
                && memory != 0 && typeSize != 0 && alignment != 0 && length != 0
                && length * typeSize <= sizeMax && memory % alignment == 0
      ensures status == Success || status == Err
    {
      Config(memory, typeSize, alignment, length, sizeMax).GoodConfigurations();
      this.memory, this.typeSize, this.alignment, this.length := memory, typeSize, alignment, length;
      used := 0;
      freed := 0;
      if memory == 0 || typeSize == 0 || length == 0 || alignment == 0 {
        return Err;
      }
      if length > sizeMax / typeSize {
        return Err;
      }
      if memory % alignment != 0 {
        return Err;
      }
      status := Verify();
    }

    /** Puts the next never-used block on the empty free stack. */
    method Carve()
      requires Valid() && freed == 0 && length > 0
      modifies this`used, this`freed, metadata
      ensures Valid()
      ensures Model() == State(old(used) + 1, [Conf().SizeAddr(old(used))])
    {
      metadata[freed] := Conf().SizeAddr(used);
      freed := freed + 1;
      used := used + 1;
    }

    /** Pops the top of the free stack, and pushes it back when Reset refuses it. */
    method Take(reset: Status) returns (status: Status, ptr: Pointer)
      requires Valid() && freed > 0
      modifies this`freed, metadata
      ensures Valid()
      ensures var free := old(Model()).free;
              status == if free[|free| - 1] == 0 then NullPtr else reset
      ensures var free := old(Model()).free;
              if free[|free| - 1] == 0 || reset == Success then
                Model() == State(used, free[..|free| - 1]) && ptr == Pointer(free[|free| - 1], typeSize, alignment)
              else
                Model() == old(Model()) && ptr == Pointer(0, typeSize, alignment)
    {
      ghost var free := metadata[..freed];
      ptr := Pointer(metadata[freed - 1], typeSize, alignment);
      freed := freed - 1;
      metadata[freed] := 0;
      assert metadata[..freed] == free[..freed];
      if ptr.addr == 0 {
        return NullPtr, ptr;
      }
      status := reset;
      if status != Success {
        freed := freed + 1;
        metadata[freed - 1] := ptr.addr;
        ptr := ptr.(addr := 0);
        assert metadata[..freed] == free;
      }
    }

    method Get(size: nat, reset: Status) returns (status: Status, ptr: Pointer)
      requires Valid()
      modifies this`used, this`freed, metadata
      ensures Valid()
      ensures Conf().VerifyStatus() != Success ==>
                status == Conf().VerifyStatus() && ptr == NULL && Model() == old(Model())
      ensures Conf().VerifyStatus() == Success ==>
                GetReply(Model(), status, ptr) == BlockModel.Get(Conf(), old(Model()), size, reset)
      ensures status != Success ==> ptr.addr == 0
    {
      status := Verify();
      if status != Success {
        return status, NULL;
      }
      if size == 0 {
        return InvalidSize, NULL;
      }
      if size > typeSize {
        return MemAlloc, NULL;
      }
      if !(used < length || freed > 0) {
        return MemAlloc, NULL;
      }
      if used > length || freed > length {
        return Err, NULL;
      }
      if freed == 0 {
        Carve();
      }
      status, ptr := Take(reset);
    }

    method Update(d: Descriptor, newSize: nat) returns (status: Status)
      modifies d
      ensures Conf().VerifyStatus() != Success ==> status == Conf().VerifyStatus() && d.ptr == old(d.ptr)
      ensures Conf().VerifyStatus() == Success ==>
                (status, d.ptr) == BlockModel.Update(Conf(), old(d.ptr), newSize)
      ensures Conf().VerifyStatus() == Success && newSize <= typeSize ==>
                status == Success && d.ptr == old(d.ptr).(size := newSize)
      ensures Conf().VerifyStatus() == Success && newSize > typeSize ==>
                status == MemAlloc && d.ptr == old(d.ptr)
    {
      status := Verify();
      if status != Success {
        return;
      }
      if newSize > typeSize {
        return MemAlloc;
      }
      d.ptr := d.ptr.(size := newSize);
    }

    /** The scan for a block that has been freed already. */
    method OnFreeStack(addr: nat) returns (found: bool)
      requires Valid()
      ensures found <==> addr in Model().free
    {
      var i := 0;
      while i < freed
        invariant 0 <= i <= freed
        invariant forall j :: 0 <= j < i ==> metadata[j] != addr
      {
        if metadata[i] == addr {
          assert metadata[..freed][i] == addr;
          return true;
        }
        i := i + 1;
      }
      return false;
    }

    method Put(d: Descriptor, reset: Status) returns (status: Status)
      requires Valid()
      modifies this`used, this`freed, metadata, d
      ensures Valid()
      ensures Conf().VerifyStatus() != Success ==>
                status == Conf().VerifyStatus() && d.ptr == old(d.ptr) && Model() == old(Model())
      ensures Conf().VerifyStatus() == Success ==>
                PutReply(Model(), status, d.ptr) == BlockModel.Put(Conf(), old(Model()), old(d.ptr), reset)
      ensures status == Success ==>
                && old(d.ptr).addr % alignment == 0
                && memory <= old(d.ptr).addr < memory + length * typeSize
                && old(d.ptr).addr !in old(Model()).free
                && d.ptr == Pointer(0, 0, 0)
      ensures status != Success ==> d.ptr == old(d.ptr) && Model() == old(Model())
    {
      ghost var before := Model();
      if Conf().VerifyStatus() == Success {
        PutAcceptsIff(Conf(), before, d.ptr, reset);
      }
      status := Verify();
      if status != Success {
        return;
      }
      if d.ptr.addr == 0 || d.ptr.size == 0 {
        return NullPtr;
      }
      if d.ptr.addr % alignment != 0 {
        return MemFree;
      }
      var saved := d.ptr;
      d.ptr := NULL;
      var end := memory + Conf().Product(typeSize, length);
      if saved.addr < memory || end <= saved.addr || used == 0 {
        d.ptr := saved;
        return MemFree;
      }
      var found := OnFreeStack(saved.addr);
      if found {
        d.ptr := saved;
        return MemFree;
      }
      status := reset;
      if status != Success {
        d.ptr := saved;
        return;
      }
      var endOfBlock := Conf().SizeAddr(used - 1);
      if endOfBlock == saved.addr {
        used := used - 1;
      } else {
        if freed >= length {
          d.ptr := saved;
          return MemFree;
        }
        metadata[freed] := saved.addr;
        freed := freed + 1;
      }
    }
  }
}
