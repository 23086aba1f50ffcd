/** The fixed-block allocator on values: a bump counter and a stack of freed addresses,
    and where its blocks lie. */
module BlockModel {
  import opened Arithmetic
  import opened Status

  /** Address 0 is NULL; size_t ranges over 0..sizeMax. */
  datatype Config = Config(base: nat, typeSize: nat, alignment: nat, length: nat, sizeMax: nat) {

    /** Verify's verdict on the configuration. */
    function VerifyStatus(): Status {
      if base == 0 || length == 0 || typeSize == 0 || alignment == 0 then NullPtr
      else if length > sizeMax / typeSize then Err
      else if base % alignment != 0 then Err
      else Success
    }

    /** The same verdict from the initialiser, which reports missing parameters as ERR. */
    function InitStatus(): Status {
      if VerifyStatus() == Success then Success else Err
    }

    /** Verify accepts exactly the configurations that are complete, whose total size fits
        size_t and whose base is aligned; whether blocks are is not asked. */
    lemma GoodConfigurations()
      ensures VerifyStatus() == Success <==>
                && base != 0 && typeSize != 0 && alignment != 0 && length != 0
                && length * typeSize <= sizeMax && base % alignment == 0
      ensures VerifyStatus() == NullPtr <==> base == 0 || typeSize == 0 || alignment == 0 || length == 0
      ensures VerifyStatus() in {Success, NullPtr, Err}
      ensures InitStatus() == Success <==> VerifyStatus() == Success
      ensures InitStatus() == Success || InitStatus() == Err
    {
      if typeSize != 0 {
        FitsIff(length, typeSize, sizeMax);
      }
    }

    ghost predicate Ok() {
      VerifyStatus() == Success
    }

    /** Where block k lies. */
    function Addr(k: nat): nat {
      base + k * typeSize
    }

    function End(): nat {
      base + typeSize * length
    }

    /** A product as size_t computes it. */
    function Product(x: nat, y: nat): nat {
      (x * y) % (sizeMax + 1)
    }

    /** Where the code computes block k to lie. */
    function SizeAddr(k: nat): nat {
      base + Product(k, typeSize)
    }

    ghost predicate IsBlockBelow(a: nat, bound: nat) {
      exists k: nat :: k < bound && a == Addr(k)
    }
  }

  datatype Pointer = Pointer(addr: nat, size: nat, alignment: nat)

  const NULL := Pointer(0, 0, 0)

  datatype State = State(used: nat, free: seq<nat>)

  datatype GetReply = GetReply(state: State, status: Status, ptr: Pointer)

  datatype PutReply = PutReply(state: State, status: Status, ptr: Pointer)

  /** `reset` is what the pointer API's Reset callback returns. */
  function Get(c: Config, s: State, size: nat, reset: Status): GetReply {
    if size == 0 then GetReply(s, InvalidSize, NULL)
    else if size > c.typeSize then GetReply(s, MemAlloc, NULL)
    else if !(s.used < c.length || s.free != []) then GetReply(s, MemAlloc, NULL)
    else if s.used > c.length || |s.free| > c.length then GetReply(s, Err, NULL)
    else
      var t := if s.free == [] then State(s.used + 1, [c.SizeAddr(s.used)]) else s;
      var top := |t.free| - 1;
      if t.free[top] == 0 then  // the descriptor check on the new pointer
        GetReply(State(t.used, t.free[..top]), NullPtr, Pointer(0, c.typeSize, c.alignment))
      else if reset == Success then
        GetReply(State(t.used, t.free[..top]), Success, Pointer(t.free[top], c.typeSize, c.alignment))
      else
        GetReply(t, reset, Pointer(0, c.typeSize, c.alignment))
  }

  function Put(c: Config, s: State, p: Pointer, reset: Status): PutReply
    requires c.alignment > 0
  {
    if p.addr == 0 || p.size == 0 then PutReply(s, NullPtr, p)
    else if p.addr % c.alignment != 0 then PutReply(s, MemFree, p)
    else if p.addr < c.base || c.base + c.Product(c.typeSize, c.length) <= p.addr || s.used == 0 then
      PutReply(s, MemFree, p)
    else if p.addr in s.free then PutReply(s, MemFree, p)
    else if reset != Success then PutReply(s, reset, p)
    else if p.addr == c.SizeAddr(s.used - 1) then PutReply(State(s.used - 1, s.free), Success, NULL)
    else if |s.free| >= c.length then PutReply(s, MemFree, p)
    else PutReply(State(s.used, s.free + [p.addr]), Success, NULL)
  }

  function Update(c: Config, p: Pointer, newSize: nat): (Status, Pointer) {
    if newSize > c.typeSize then (MemAlloc, p) else (Success, p.(size := newSize))
  }

  // ---------- block geometry ----------

  lemma {:induction false} BlocksApart(c: Config, j: nat, k: nat)
    requires j < k
    ensures c.Addr(j) + c.typeSize <= c.Addr(k)
    decreases k
  {
    assert k * c.typeSize == (k - 1) * c.typeSize + c.typeSize;
    if j < k - 1 {
      BlocksApart(c, j, k - 1);
    }
  }

  /** A block lies inside the pool, and no size_t product used to place it wraps. */
  lemma BlockInsidePool(c: Config, k: nat)
    requires c.Ok() && k < c.length
    ensures c.base <= c.Addr(k) && c.Addr(k) + c.typeSize <= c.End()
    ensures c.SizeAddr(k) == c.Addr(k)
    ensures c.base + c.Product(c.typeSize, c.length) == c.End()
  {
    BlocksApart(c, k, c.length);
    ProductFits(c.length, c.typeSize, c.sizeMax);
    assert k * c.typeSize <= c.sizeMax;
    SmallModulo(k * c.typeSize, c.sizeMax + 1);
    SmallModulo(c.typeSize * c.length, c.sizeMax + 1);
  }

  lemma SmallModulo(x: nat, m: nat)
    requires x < m
    ensures x % m == x
  {
  }

  /** The overflow guard says what the product would. */
  lemma FitsIff(n: nat, size: nat, max: nat)
    requires size > 0
    ensures n <= max / size <==> n * size <= max
  {
    assert max == (max / size) * size + max % size;
    if n > max / size {
      assert n * size >= (max / size + 1) * size;
    } else {
      ProductFits(n, size, max);
    }
  }

  lemma ProductFits(n: nat, size: nat, max: nat)
    requires size > 0 && n <= max / size
    ensures n * size <= max
  {
    assert n * size <= (max / size) * size;
  }

  lemma AddrInjective(c: Config, j: nat, k: nat)
    requires c.typeSize > 0 && c.Addr(j) == c.Addr(k)
    ensures j == k
  {
    if j < k {
      BlocksApart(c, j, k);
    } else if k < j {
      BlocksApart(c, k, j);
    }
  }

  // ---------- exactly when the operations accept, in any state ----------

  /** Get hands out a block exactly when the size is legal, some block is unused or freed, the
      counters are sane, the freed address is not NULL and Reset agrees; the pointer is the
      stack's top, or a fresh block, with the pool's block size and alignment. */
  lemma GetAcceptsIff(c: Config, s: State, size: nat, reset: Status)
    requires c.Ok() && |s.free| <= c.length
    ensures var r := Get(c, s, size, reset);
            var top := if s.free == [] then c.base + s.used * c.typeSize else s.free[|s.free| - 1];
            && (r.status == Success <==>
                  && 0 < size <= c.typeSize && s.used <= c.length && (s.used < c.length || s.free != [])
                  && top != 0 && reset == Success)
            && (r.status == Success ==>
                  && r.ptr == Pointer(top, c.typeSize, c.alignment)
                  && r.state == if s.free == [] then State(s.used + 1, []) else State(s.used, s.free[..|s.free| - 1]))
            && (r.status != Success ==> r.ptr.addr == 0)
  {
    if s.used < c.length {
      BlockInsidePool(c, s.used);
    }
  }

  /** The status of a refused Get, and what it leaves: everything as it was, but for the fresh
      block on the stack when Reset is what failed. */
  lemma GetRefusals(c: Config, s: State, size: nat, reset: Status)
    requires c.Ok() && |s.free| <= c.length
    ensures var r := Get(c, s, size, reset);
            var top := if s.free == [] then c.base + s.used * c.typeSize else s.free[|s.free| - 1];
            if size == 0 then r.status == InvalidSize && r.state == s
            else if size > c.typeSize then r.status == MemAlloc && r.state == s
            else if s.used >= c.length && s.free == [] then r.status == MemAlloc && r.state == s
            else if s.used > c.length then r.status == Err && r.state == s
            else if top == 0 then
              r.status == NullPtr && s.free != [] && r.state == State(s.used, s.free[..|s.free| - 1])
            else
              && r.status == reset
              && (reset != Success ==> r.state == if s.free == [] then State(s.used + 1, [top]) else s)
  {
    if s.used < c.length {
      BlockInsidePool(c, s.used);
    }
  }

  /** Put takes back an address exactly when the descriptor is non-null and nonempty, the
      address is aligned, inside the pool and not on the free stack, some block is out, Reset
      agrees, and the address is the top block's or the stack has room. Otherwise nothing
      changes, the descriptor included. */
  lemma PutAcceptsIff(c: Config, s: State, p: Pointer, reset: Status)
    requires c.Ok()
    ensures var r := Put(c, s, p, reset);
            && (r.status == Success ==>
                  && p.addr != 0 && p.size != 0 && p.addr % c.alignment == 0
                  && c.base <= p.addr < c.base + c.length * c.typeSize
                  && p.addr !in s.free && s.used > 0 && reset == Success
                  && r.ptr == Pointer(0, 0, 0))
            && (s.used <= c.length ==>
                  (r.status == Success <==>
                     && p.addr != 0 && p.size != 0 && p.addr % c.alignment == 0
                     && c.base <= p.addr < c.base + c.length * c.typeSize
                     && p.addr !in s.free && s.used > 0 && reset == Success
                     && (p.addr == c.base + (s.used - 1) * c.typeSize || |s.free| < c.length)))
            && (r.status == Success && s.used <= c.length ==>
                  r.state == if p.addr == c.base + (s.used - 1) * c.typeSize then State(s.used - 1, s.free)
                             else State(s.used, s.free + [p.addr]))
            && (r.status != Success ==> r.state == s && r.ptr == p)
  {
    BlockInsidePool(c, 0);
    if 0 < s.used <= c.length {
      BlockInsidePool(c, s.used - 1);
    }
  }

  /** The status of every Put: an address outside the pool is never taken, and Reset is asked
      only about an address that could be. */
  lemma PutRefusals(c: Config, s: State, p: Pointer, reset: Status)
    requires c.Ok()
    ensures var status := Put(c, s, p, reset).status;
            if p.addr == 0 || p.size == 0 then status == NullPtr
            else if p.addr % c.alignment != 0 || p.addr < c.base || p.addr >= c.base + c.length * c.typeSize
                    || s.used == 0 || p.addr in s.free then status == MemFree
            else if reset != Success then status == reset
            else if |s.free| < c.length then status == Success
            else s.used <= c.length ==>
                   status == if p.addr == c.base + (s.used - 1) * c.typeSize then Success else MemFree
  {
    BlockInsidePool(c, 0);
    if 0 < s.used <= c.length {
      BlockInsidePool(c, s.used - 1);
    }
  }

  ghost predicate Aligned(c: Config, k: nat)
    requires c.alignment > 0
  {
    c.Addr(k) % c.alignment == 0
  }

  /** Put refuses misaligned addresses, so this is when every block of the pool can be
      returned: the block size must be a multiple of the alignment, unless there is only
      one block. Verify does not ask for it. */
  lemma EveryBlockAlignedIff(c: Config)
    requires c.Ok()
    ensures (forall k: nat :: k < c.length ==> Aligned(c, k)) <==> c.length == 1 || c.typeSize % c.alignment == 0
  {
    if c.typeSize % c.alignment == 0 {
      forall k: nat | k < c.length ensures Aligned(c, k) {
        MultiplesAligned(c, k);
      }
    } else if c.length > 1 {
      assert c.Addr(1) == c.base + c.typeSize;
      SumModulo(c.base, c.typeSize, c.alignment);
      assert !Aligned(c, 1);
    } else {
      assert Aligned(c, 0);
    }
  }

  lemma {:induction false} MultiplesAligned(c: Config, k: nat)
    requires c.Ok() && c.typeSize % c.alignment == 0
    ensures Aligned(c, k)
  {
    if k > 0 {
      MultiplesAligned(c, k - 1);
      assert c.Addr(k) == c.Addr(k - 1) + c.typeSize;
      SumModulo(c.Addr(k - 1), c.typeSize, c.alignment);
    }
  }
}
