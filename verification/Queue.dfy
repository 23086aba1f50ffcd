/** The ring-buffer queue of juno_buff_queue.c. */
module Queue {
  import opened Arithmetic
  import opened Status

  /** The i-th place after `start` on a ring of `cap` slots. */
  function Place(start: nat, i: nat, cap: nat): (p: nat)
    requires start < cap && i <= cap
    ensures i < cap ==> p < cap
  {
    if start + i < cap then start + i else start + i - cap
  }

  /** What the code's remainder computes. */
  lemma PlaceIsRemainder(start: nat, i: nat, cap: nat)
    requires start < cap && i < cap
    ensures (start + i) % cap == Place(start, i, cap)
  {
    QuotientUnique(start, cap, 0, start);
    RingMove(start, i, cap);
  }

  /** The `length` items from `start` on round the ring. */
  function Ring<T>(slots: seq<T>, start: nat, length: nat): (s: seq<T>)
    requires start < |slots| && length <= |slots|
    ensures |s| == length
  {
    seq(length, i requires 0 <= i < length => slots[Place(start, i, |slots|)])
  }

  lemma RingPush<T>(slots: seq<T>, start: nat, length: nat, item: T)
    requires start < |slots| && length < |slots|
    ensures Ring(slots[Place(start, length, |slots|) := item], start, length + 1) ==
            Ring(slots, start, length) + [item]
  {
  }

  lemma RingPop<T>(slots: seq<T>, start: nat, length: nat, cleared: T)
    requires start < |slots| && 0 < length <= |slots|
    ensures Ring(slots, start, length)[0] == slots[start]
    ensures var next := if |slots| == 1 then 0 else Place(start, 1, |slots|);
            Ring(slots[start := cleared], next, length - 1) == Ring(slots, start, length)[1..]
  {
  }

  class Queue<T> {
    const buffer: array<T>
    /** What RemoveAt leaves in a slot. */
    const cleared: T
    var start: nat
    var length: nat

    constructor (buffer: array<T>, cleared: T)
      requires buffer.Length > 0
      ensures this.buffer == buffer && this.cleared == cleared
      ensures Valid() && Contents() == []
    {
      this.buffer, this.cleared := buffer, cleared;
      start, length := 0, 0;
    }

    ghost predicate Valid()
      reads this
    {
      0 < buffer.Length && start < buffer.Length && length <= buffer.Length
    }

    /** The queued items, oldest first. */
    ghost function Contents(): (s: seq<T>)
      requires Valid()
      reads this, buffer
      ensures |s| == length
    {
      Ring(buffer[..], start, length)
    }

    method Push(item: T) returns (status: Status)
      requires Valid()
      modifies this`length, buffer
      ensures Valid()
      ensures |old(Contents())| < buffer.Length ==> status == Success && Contents() == old(Contents()) + [item]
      ensures |old(Contents())| == buffer.Length ==> status == OutOfBounds && Contents() == old(Contents())
    {
      if length < buffer.Length {
        PlaceIsRemainder(start, length, buffer.Length);
        RingPush(buffer[..], start, length, item);
        var index := (start + length) % buffer.Length;
        ghost var before := buffer[..];
        buffer[index] := item;
        assert buffer[..] == before[index := item];
        length := length + 1;
        return Success;
      } else {
        return OutOfBounds;
      }
    }

    method Pop() returns (status: Status, item: Option<T>)
      requires Valid()
      modifies this`start, this`length, buffer
      ensures Valid()
      ensures old(Contents()) != [] ==>
                status == Success && item == Some(old(Contents())[0]) && Contents() == old(Contents())[1..]
      ensures old(Contents()) == [] ==> status == OutOfBounds && item == None && Contents() == []
    {
      if length > 0 {
        item := Some(buffer[start]);
        RingPop(buffer[..], start, length, cleared);
        if buffer.Length > 1 {
          PlaceIsRemainder(start, 1, buffer.Length);
        }
        ghost var before := buffer[..];
        buffer[start] := cleared;
        assert buffer[..] == before[start := cleared];
        start := (start + 1) % buffer.Length;
        length := length - 1;
        return Success, item;
      }
      return OutOfBounds, None;
    }

    method Peek() returns (status: Status, item: Option<T>)
      requires Valid()
      ensures Contents() != [] ==> status == Success && item == Some(Contents()[0])
      ensures Contents() == [] ==> status == OutOfBounds && item == None
    {
      if length == 0 {
        return OutOfBounds, None;
      }
      return Success, Some(buffer[start]);
    }
  }
}
