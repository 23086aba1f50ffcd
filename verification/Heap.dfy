/** The heap over its fixed-capacity backing array: loops bounded by a fuel counter and
    child indices checked against the capacity, as in juno_heap.c. */
module Heap {
  import opened Status
  import opened HeapModel

  class Heap<T(!new)> {
    const cmp: (T, T) -> bool
    /** What RemoveAt leaves in a slot. */
    const cleared: T
    const slots: array<T>
    var zLength: nat

    constructor (slots: array<T>, cmp: (T, T) -> bool, cleared: T)
      requires slots.Length > 0
      ensures this.slots == slots && this.cmp == cmp && this.cleared == cleared
      ensures Valid() && zLength == 0
    {
      this.slots, this.cmp, this.cleared := slots, cmp, cleared;
      zLength := 0;
    }

    ghost predicate Valid()
      reads this
    {
      0 < slots.Length && zLength <= slots.Length
    }

    ghost function Items(): (s: seq<T>)
      reads this, slots
      requires Valid()
      ensures |s| == zLength
    {
      slots[..zLength]
    }

    ghost function Spare(): seq<T>
      reads this, slots
      requires Valid()
    {
      slots[zLength..]
    }

    /** None stands for the helper's OOB_ERROR status. */
    function ChildGetLeft(i: nat): (r: Option<nat>)
      reads this
    {
      if 2 * i + 1 > slots.Length || zLength > slots.Length then None else Some(2 * i + 1)
    }

    function ChildGetRight(i: nat): (r: Option<nat>)
      reads this
    {
      if 2 * i + 2 > slots.Length || zLength > slots.Length then None else Some(2 * i + 2)
    }

    function ChildGetParent(i: nat): (r: Option<nat>)
      requires i > 0
      reads this
    {
      if (i - 1) / 2 > slots.Length || zLength > slots.Length then None else Some((i - 1) / 2)
    }

    /** The injected Swap callback on two occupied slots. */
    method SwapSlots(i: nat, j: nat)
      requires Valid() && i < zLength && j < zLength
      modifies slots
      ensures Items() == Swap(old(Items()), i, j)
      ensures Spare() == old(Spare())
    {
      slots[i], slots[j] := slots[j], slots[i];
    }

    method Update() returns (status: Status)
      requires Valid()
      modifies slots
      ensures zLength == 0 ==> status == Err && slots[..] == old(slots[..])
      ensures zLength > 0 ==> status == Success && Items() == SiftUp(old(Items()), zLength - 1, cmp)
      ensures Spare() == old(Spare())
    {
      if zLength == 0 {
        return Err;
      }
      var iCurrent := zLength - 1;
      status := Success;
      if iCurrent == 0 {
        return;
      }
      ghost var target := SiftUp(Items(), iCurrent, cmp);
      var i := 0;
      while i < zLength
        invariant 0 < iCurrent < zLength - i && i < zLength
        invariant status == Success
        invariant SiftUp(Items(), iCurrent, cmp) == target
        invariant Spare() == old(Spare())
      {
        var parent := ChildGetParent(iCurrent);
        assert parent.Some? && parent.value < zLength;  // neither early return is ever taken
        var iParent := parent.value;
        ghost var before := Items();
        if !cmp(slots[iParent], slots[iCurrent]) {
          SwapSlots(iCurrent, iParent);
        }
        assert SiftUp(Items(), iParent, cmp) == target;
        if iParent == 0 {
          assert Items() == target;
          break;
        }
        iCurrent := iParent;
        i := i + 1;
      }
    }

    /** The root of a sift or the child that is to take its place. */
    method PreferChild(iRoot: nat, iLeft: nat, iRight: nat) returns (iCurrent: nat)
      requires Valid() && iLeft == 2 * iRoot + 1 && iRight == 2 * iRoot + 2
      ensures iCurrent == Preferred(Items(), iRoot, cmp)
    {
      iCurrent := iRoot;
      if iLeft < zLength && !cmp(slots[iCurrent], slots[iLeft]) {
        iCurrent := iLeft;
      }
      if iRight < zLength && !cmp(slots[iCurrent], slots[iRight]) {
        iCurrent := iRight;
      }
    }

    /** Sifts the element at iStart down. OutOfBounds says only that the element came to
        rest too near the end of the array for both child indices to be formed; by then it
        is at a leaf and the sift is complete. */
    method SiftDown(iStart: nat) returns (status: Status)
      requires Valid()
      modifies slots
      ensures zLength == 0 ==> status == Err && slots[..] == old(slots[..])
      ensures zLength > 0 ==>
                && Items() == HeapModel.SiftDown(old(Items()), iStart, cmp)
                && var stop := SiftStop(old(Items()), iStart, cmp);
                   && status == (if 2 * stop + 2 > slots.Length then OutOfBounds else Success)
                   && (status == OutOfBounds ==> 2 * stop + 1 >= zLength)
      ensures Spare() == old(Spare())
    {
      if zLength <= 0 {
        return Err;
      }
      status := Success;
      var iRoot := iStart;
      ghost var target := HeapModel.SiftDown(Items(), iStart, cmp);
      ghost var stop := SiftStop(Items(), iStart, cmp);
      var i := 0;
      while i < zLength
        invariant iStart + i <= iRoot && (i > 0 ==> iRoot < zLength)
        invariant status == Success
        invariant HeapModel.SiftDown(Items(), iRoot, cmp) == target
        invariant SiftStop(Items(), iRoot, cmp) == stop
        invariant Spare() == old(Spare())
      {
        var iCurrent := iRoot;
        var left := ChildGetLeft(iCurrent);
        if left.None? {
          return OutOfBounds;
        }
        var right := ChildGetRight(iCurrent);
        if right.None? {
          return OutOfBounds;
        }
        iCurrent := PreferChild(iRoot, left.value, right.value);
        if iCurrent != iRoot {
          SwapSlots(iRoot, iCurrent);
          iRoot := iCurrent;
        } else {
          break;
        }
        i := i + 1;
      }
    }

    method Insert(x: T) returns (status: Status)
      requires Valid()
      modifies this`zLength, slots
      ensures Valid()
      ensures old(zLength) == slots.Length ==>
                status == Err && zLength == old(zLength) && slots[..] == old(slots[..])
      ensures old(zLength) < slots.Length ==>
                && status == Success
                && Items() == Inserted(old(Items()), x, cmp)
                && Spare() == old(Spare())[1..]
      ensures old(zLength) < slots.Length ==> Admits(old(Items()), x, Items(), cmp)
    {
      if zLength >= slots.Length {
        return Err;
      }
      slots[zLength] := x;
      zLength := zLength + 1;
      assert Items() == old(Items()) + [x];
      status := Update();
      InsertedAdmits(old(Items()), x, cmp);
    }

    /** Builds a heap in place from whatever the first zLength slots hold. The status is
        that of the last sift alone: failures of the earlier ones are skipped. */
    method Heapify() returns (status: Status)
      requires Valid()
      modifies slots
      ensures zLength == 0 ==> status == Err && slots[..] == old(slots[..])
      ensures zLength > 0 ==>
                && var t := BeforeRoot(old(Items()), cmp);
                   && Items() == HeapModel.SiftDown(t, 0, cmp) == Heapified(old(Items()), cmp)
                   && status == (if 2 * SiftStop(t, 0, cmp) + 2 > slots.Length then OutOfBounds else Success)
                   && (TotalPreorder(cmp) ==> HeapFrom(t, 1, cmp) && multiset(t) == multiset(old(Items())))
      ensures zLength > 0 && TotalPreorder(cmp) ==> IsHeap(Items(), cmp)
      ensures zLength > 0 && TotalPreorder(cmp) ==> multiset(Items()) == multiset(old(Items()))
      ensures Spare() == old(Spare())
    {
      if zLength == 0 {
        return Err;
      }
      var parent := ChildGetParent(zLength);
      assert parent.Some? && parent.value < zLength;  // neither early return is ever taken
      var iIndex := parent.value;
      status := Success;
      ghost var before := BeforeRoot(Items(), cmp);
      var i := 0;
      while i <= iIndex
        invariant 0 <= i <= iIndex + 1
        invariant i <= iIndex ==> SiftedBelowRoot(Items(), iIndex - i, cmp) == before
        invariant i == iIndex + 1 ==>
                    && Items() == HeapModel.SiftDown(before, 0, cmp)
                    && status == (if 2 * SiftStop(before, 0, cmp) + 2 > slots.Length then OutOfBounds else Success)
        invariant Spare() == old(Spare())
      {
        var iCurrent := iIndex - i;
        status := SiftDown(iCurrent);
        i := i + 1;
      }
      if TotalPreorder(cmp) {
        BeforeRootIsOrdered(old(Items()), cmp);
        HeapifiedIsHeap(old(Items()), cmp);
      }
    }

    /** Moves the root out. Once the element is out the status is that of the sift. */
    method Pop() returns (status: Status, popped: Option<T>)
      requires Valid()
      modifies this`zLength, slots
      ensures Valid()
      ensures old(zLength) == 0 ==>
                status == Err && popped == None && zLength == 0 && slots[..] == old(slots[..])
      ensures old(zLength) > 0 ==>
                && popped == Some(old(Items())[0])
                && Items() == Popped(old(Items()), cmp)
                && Spare() == [cleared] + old(Spare())
                && status == PopStatus(old(Items()), slots.Length, cmp)
      ensures old(zLength) == 1 ==> status == Success
      ensures old(zLength) > 1 ==>
                var moved := old(Items())[..zLength][0 := old(Items())[zLength]];
                status == if 2 * SiftStop(moved, 0, cmp) + 2 > slots.Length then OutOfBounds else Success
      ensures old(zLength) > 0 ==> Extracts(old(Items()), popped.value, Items(), cmp)
    {
      if zLength <= 0 {
        return Err, None;
      }
      ghost var before := Items();
      slots[zLength - 1], slots[0] := slots[0], slots[zLength - 1];
      popped := Some(slots[zLength - 1]);
      slots[zLength - 1] := cleared;
      status := Success;
      zLength := zLength - 1;
      if zLength > 0 {
        assert Items() == before[..zLength][0 := before[zLength]];
        status := SiftDown(0);
      }
      PoppedExtracts(before, cmp);
    }
  }

  /** What a sift reports when its element comes to rest at `stop`. */
  function RestStatus(stop: nat, capacity: nat): (status: Status)
    ensures status == Success || status == OutOfBounds
  {
    if 2 * stop + 2 > capacity then OutOfBounds else Success
  }

  /** Where the last sift of a heapify, the one from the root, ends. */
  function LastStop<T>(s: seq<T>, cmp: (T, T) -> bool): (j: nat)
    requires s != []
    ensures j < |s|
  {
    SiftStop(BeforeRoot(s, cmp), 0, cmp)
  }

  function PopStatus<T>(s: seq<T>, capacity: nat, cmp: (T, T) -> bool): Status
    requires s != []
  {
    var n := |s| - 1;
    if n == 0 then Success else RestStatus(SiftStop(s[..n][0 := s[n]], 0, cmp), capacity)
  }
}
