/** The linear-probing table on values: the slots as a sequence, and the map they stand for. */
module MapModel {
  import opened Arithmetic
  import opened Status

  datatype Item<K, V> = Item(key: K, value: V)

  /** size_t arithmetic is modulo `modulus`; Equals compares keys, so equal items have equal
      hashes. An empty slot is one IsValueNull accepts. */
  datatype Table<!K(!new, ==), V> = Table(hash: K -> nat, modulus: nat, slots: seq<Option<Item<K, V>>>) {

    ghost predicate Sized() {
      0 < |slots| <= modulus
    }

    function Probe(k: K, i: nat): (p: nat)
      requires Sized()
      ensures p < |slots|
    {
      ((hash(k) + i) % modulus) % |slots|
    }

    /** Whether the probe for k stops at slot p. */
    predicate Stops(k: K, p: nat)
      requires p < |slots|
    {
      slots[p].None? || slots[p].value.key == k
    }

    /** The first probe position from i on where the search for k stops; |slots| if none. */
    function Find(k: K, i: nat): (j: nat)
      requires Sized() && i <= |slots|
      ensures i <= j <= |slots|
      ensures j < |slots| ==> Stops(k, Probe(k, j))
      ensures forall n :: i <= n < j ==> !Stops(k, Probe(k, n))
      decreases |slots| - i
    {
      if i == |slots| || Stops(k, Probe(k, i)) then i else Find(k, i + 1)
    }

    function Get(k: K): (Status, Option<Item<K, V>>)
      requires Sized()
    {
      var j := Find(k, 0);
      if j == |slots| then (TableFull, None)
      else if slots[Probe(k, j)].None? then (DoesNotExist, None)
      else (Success, slots[Probe(k, j)])
    }

    function Set(item: Item<K, V>): (Status, Table<K, V>)
      requires Sized()
    {
      var j := Find(item.key, 0);
      if j == |slots| then (TableFull, this)
      else (Success, this.(slots := slots[Probe(item.key, j) := Some(item)]))
    }

    /** Clears the slot and nothing else: no tombstone, no shifting. */
    function Remove(k: K): (Status, Table<K, V>)
      requires Sized()
    {
      var j := Find(k, 0);
      if j == |slots| then (TableFull, this)
      else if slots[Probe(k, j)].None? then (Success, this)
      else (Success, this.(slots := slots[Probe(k, j) := None]))
    }
  }

  // ---------- the abstract map ----------

  ghost predicate StoredAt<K(!new), V>(t: Table<K, V>, k: K, p: nat) {
    p < |t.slots| && t.slots[p].Some? && t.slots[p].value.key == k
  }

  ghost predicate UniqueKeys<K(!new), V>(t: Table<K, V>) {
    forall k, p: nat, q: nat :: StoredAt(t, k, p) && StoredAt(t, k, q) ==> p == q
  }

  /** The probe for every stored key ends at the slot that holds it, so the probe path up to
      there is fully occupied. */
  ghost predicate Reachable<K(!new), V>(t: Table<K, V>)
    requires t.Sized()
  {
    forall k, p: nat :: StoredAt(t, k, p) ==> t.Find(k, 0) < |t.slots| && t.Probe(k, t.Find(k, 0)) == p
  }

  ghost predicate Invariant<K(!new), V>(t: Table<K, V>) {
    t.Sized() && UniqueKeys(t) && Reachable(t)
  }

  /** m holds exactly the stored items. */
  ghost predicate Represents<K(!new), V>(t: Table<K, V>, m: map<K, V>) {
    && (forall k, p: nat :: StoredAt(t, k, p) ==> k in m && m[k] == t.slots[p].value.value)
    && (forall k :: k in m ==> exists p: nat :: StoredAt(t, k, p))
  }

  /** Some slot on k's probe sequence is empty. */
  ghost predicate HasRoom<K(!new), V>(t: Table<K, V>, k: K)
    requires t.Sized()
  {
    exists i :: 0 <= i < |t.slots| && t.slots[t.Probe(k, i)].None?
  }

  lemma FindStopsEarlier<K(!new), V>(t: Table<K, V>, k: K, i: nat)
    requires t.Sized() && i < |t.slots| && t.Stops(k, t.Probe(k, i))
    ensures t.Find(k, 0) <= i
  {
  }

  /** Get agrees with the abstract map, and tells absence from a full probe sequence by
      occupancy alone. */
  lemma GetRefines<K(!new), V>(t: Table<K, V>, m: map<K, V>, k: K)
    requires Invariant(t) && Represents(t, m)
    ensures var (status, item) := t.Get(k);
            if k in m then status == Success && item == Some(Item(k, m[k]))
            else item == None && status == if HasRoom(t, k) then DoesNotExist else TableFull
  {
    var j := t.Find(k, 0);
    if k in m {
      var p :| StoredAt(t, k, p);
    } else {
      if j < |t.slots| && t.slots[t.Probe(k, j)].Some? {
        assert StoredAt(t, k, t.Probe(k, j));
      }
      if HasRoom(t, k) {
        var i :| 0 <= i < |t.slots| && t.slots[t.Probe(k, i)].None?;
        FindStopsEarlier(t, k, i);
      }
    }
  }

  /** The table with one slot changed. */
  function Put<K(!new, ==), V>(t: Table<K, V>, p: nat, slot: Option<Item<K, V>>): (u: Table<K, V>)
    requires p < |t.slots|
    ensures |u.slots| == |t.slots|
  {
    t.(slots := t.slots[p := slot])
  }

  /** A search is decided by the slots it visits, up to the one it stops at. */
  lemma FindUnchanged<K(!new), V>(t: Table<K, V>, u: Table<K, V>, k: K)
    requires t.Sized() && |u.slots| == |t.slots| && u.hash == t.hash && u.modulus == t.modulus
    requires forall i: nat :: i < |t.slots| && i <= t.Find(k, 0) ==>
               (u.Stops(k, t.Probe(k, i)) <==> t.Stops(k, t.Probe(k, i)))
    ensures u.Find(k, 0) == t.Find(k, 0)
  {
    var f, g := t.Find(k, 0), u.Find(k, 0);
    assert forall i: nat :: u.Probe(k, i) == t.Probe(k, i);
    if f < |t.slots| {
      FindStopsEarlier(u, k, f);
    }
    if g < |t.slots| && g <= f {
      FindStopsEarlier(t, k, g);
    }
  }

  /** Storing an item where the search for its key stops puts that key there, and moves no
      other. */
  lemma StoredAfterSet<K(!new), V>(t: Table<K, V>, item: Item<K, V>)
    requires Invariant(t) && t.Find(item.key, 0) < |t.slots|
    ensures var p := t.Probe(item.key, t.Find(item.key, 0));
            forall k, q: nat :: StoredAt(Put(t, p, Some(item)), k, q) <==>
              if q == p then k == item.key else k != item.key && StoredAt(t, k, q)
  {
    var p := t.Probe(item.key, t.Find(item.key, 0));
    var u := Put(t, p, Some(item));
    forall k, q: nat
      ensures StoredAt(u, k, q) <==> if q == p then k == item.key else k != item.key && StoredAt(t, k, q)
    {
      if q != p && q < |t.slots| {
        assert u.slots[q] == t.slots[q];
        assert StoredAt(t, item.key, q) ==> q == p;
      }
    }
  }

  lemma FindAfterSet<K(!new), V>(t: Table<K, V>, item: Item<K, V>, k: K, q: nat)
    requires Invariant(t) && t.Find(item.key, 0) < |t.slots|
    requires StoredAt(Put(t, t.Probe(item.key, t.Find(item.key, 0)), Some(item)), k, q)
    ensures var u := Put(t, t.Probe(item.key, t.Find(item.key, 0)), Some(item));
            u.Find(k, 0) == t.Find(k, 0) < |t.slots| && u.Probe(k, u.Find(k, 0)) == q
  {
    var p := t.Probe(item.key, t.Find(item.key, 0));
    var u := Put(t, p, Some(item));
    StoredAfterSet(t, item);
    forall i: nat | i < |t.slots| && i <= t.Find(k, 0)
      ensures u.Stops(k, t.Probe(k, i)) <==> t.Stops(k, t.Probe(k, i))
    {
      if k != item.key && t.Probe(k, i) == p && t.slots[p].None? {
        FindStopsEarlier(t, k, i);
      }
    }
    FindUnchanged(t, u, k);
  }

  lemma SetKeepsInvariant<K(!new), V>(t: Table<K, V>, item: Item<K, V>)
    requires Invariant(t)
    ensures Invariant(t.Set(item).1)
  {
    if t.Find(item.key, 0) < |t.slots| {
      var u := Put(t, t.Probe(item.key, t.Find(item.key, 0)), Some(item));
      StoredAfterSet(t, item);
      forall k, q: nat | StoredAt(u, k, q)
        ensures u.Find(k, 0) < |u.slots| && u.Probe(k, u.Find(k, 0)) == q
      {
        FindAfterSet(t, item, k, q);
      }
    }
  }

  /** Set stores the item for a present key or a key with room, and otherwise fails with the
      table untouched. */
  lemma SetRefines<K(!new), V>(t: Table<K, V>, m: map<K, V>, item: Item<K, V>)
    requires Invariant(t) && Represents(t, m)
    ensures var (status, u) := t.Set(item);
            if item.key in m || HasRoom(t, item.key) then
              status == Success && Invariant(u) && Represents(u, m[item.key := item.value])
            else
              status == TableFull && u == t
  {
    GetRefines(t, m, item.key);
    if t.Find(item.key, 0) < |t.slots| {
      var p := t.Probe(item.key, t.Find(item.key, 0));
      SetKeepsInvariant(t, item);
      StoredAfterSet(t, item);
      SetRepresents(t, m, item, p);
    }
  }

  lemma SetRepresents<K(!new), V>(t: Table<K, V>, m: map<K, V>, item: Item<K, V>, p: nat)
    requires Represents(t, m) && p < |t.slots|
    requires t.slots[p].Some? ==> t.slots[p].value.key == item.key
    requires forall k, q: nat :: StoredAt(Put(t, p, Some(item)), k, q) <==>
               if q == p then k == item.key else k != item.key && StoredAt(t, k, q)
    ensures Represents(Put(t, p, Some(item)), m[item.key := item.value])
  {
    var u := Put(t, p, Some(item));
    assert StoredAt(u, item.key, p);
    forall k | k in m && k != item.key ensures exists q: nat :: StoredAt(u, k, q) {
      var q: nat :| StoredAt(t, k, q);
      assert StoredAt(u, k, q);
    }
  }

  // ---------- removal ----------

  /** The search for k visits slot p before it stops. */
  ghost predicate PassesThrough<K(!new), V>(t: Table<K, V>, k: K, p: nat)
    requires t.Sized()
  {
    exists i: nat :: i < t.Find(k, 0) && t.Probe(k, i) == p
  }

  /** No other stored item is found by way of slot p. */
  ghost predicate SafeToClear<K(!new), V>(t: Table<K, V>, p: nat)
    requires t.Sized()
  {
    forall k, q: nat :: StoredAt(t, k, q) && q != p ==> !PassesThrough(t, k, p)
  }

  /** Every Get answers as the abstract map does. */
  ghost predicate Faithful<K(!new), V>(t: Table<K, V>, m: map<K, V>)
    requires t.Sized()
  {
    forall k :: FaithfulAt(t, m, k)
  }

  ghost predicate FaithfulAt<K(!new), V>(t: Table<K, V>, m: map<K, V>, k: K)
    requires t.Sized()
  {
    var (status, item) := t.Get(k);
    if k in m then status == Success && item == Some(Item(k, m[k])) else status != Success && item == None
  }

  lemma StoredAfterClear<K(!new), V>(t: Table<K, V>, p: nat)
    requires p < |t.slots|
    ensures forall k, q: nat :: StoredAt(Put(t, p, None), k, q) <==> q != p && StoredAt(t, k, q)
  {
    var u := Put(t, p, None);
    forall k, q: nat ensures StoredAt(u, k, q) <==> q != p && StoredAt(t, k, q) {
      if q != p && q < |t.slots| {
        assert u.slots[q] == t.slots[q];
      }
    }
  }

  /** A search that does not pass through the cleared slot, nor end there, is unchanged. */
  lemma FindAfterClear<K(!new), V>(t: Table<K, V>, p: nat, k: K, q: nat)
    requires Invariant(t) && p < |t.slots| && StoredAt(t, k, q) && q != p && !PassesThrough(t, k, p)
    ensures var u := Put(t, p, None);
            u.Find(k, 0) == t.Find(k, 0) < |t.slots| && u.Probe(k, u.Find(k, 0)) == q
  {
    FindUnchanged(t, Put(t, p, None), k);
  }

  /** A search that passed through the cleared slot now stops there. */
  lemma FindAfterBadClear<K(!new), V>(t: Table<K, V>, p: nat, k: K)
    requires t.Sized() && p < |t.slots| && PassesThrough(t, k, p)
    ensures var u := Put(t, p, None);
            u.Find(k, 0) < |u.slots| && u.Probe(k, u.Find(k, 0)) == p
  {
    var u := Put(t, p, None);
    var i: nat :| i < t.Find(k, 0) && t.Probe(k, i) == p;
    assert forall j: nat :: u.Probe(k, j) == t.Probe(k, j);
    FindStopsEarlier(u, k, i);
    var j := u.Find(k, 0);
    if u.Probe(k, j) != p {
      FindStopsEarlier(t, k, j);
    }
  }

  lemma ClearRepresents<K(!new), V>(t: Table<K, V>, m: map<K, V>, k: K, p: nat)
    requires UniqueKeys(t) && Represents(t, m) && StoredAt(t, k, p)
    ensures Represents(Put(t, p, None), m - {k})
  {
    var u := Put(t, p, None);
    StoredAfterClear(t, p);
    forall l | l in m - {k} ensures exists q: nat :: StoredAt(u, l, q) {
      var q: nat :| StoredAt(t, l, q);
      assert StoredAt(u, l, q);
    }
  }

  lemma SafeClearKeepsInvariant<K(!new), V>(t: Table<K, V>, p: nat)
    requires Invariant(t) && p < |t.slots| && SafeToClear(t, p)
    ensures Invariant(Put(t, p, None))
  {
    var u := Put(t, p, None);
    StoredAfterClear(t, p);
    forall k, q: nat | StoredAt(u, k, q)
      ensures u.Find(k, 0) < |u.slots| && u.Probe(k, u.Find(k, 0)) == q
    {
      FindAfterClear(t, p, k, q);
    }
  }

  /** Removing a stored key always takes exactly its item out of the slots, but the table
      answers like the abstract map with the key deleted if and only if no other item was
      found by way of the cleared slot; then the invariant survives too. */
  lemma RemoveRefinesIff<K(!new), V>(t: Table<K, V>, m: map<K, V>, k: K)
    requires Invariant(t) && Represents(t, m) && k in m
    ensures var (status, u) := t.Remove(k);
            var p := t.Probe(k, t.Find(k, 0));
            && status == Success
            && u.Sized() && Represents(u, m - {k})
            && (Faithful(u, m - {k}) <==> SafeToClear(t, p))
            && (SafeToClear(t, p) ==> Invariant(u))
  {
    GetRefines(t, m, k);
    var p := t.Probe(k, t.Find(k, 0));
    var u := Put(t, p, None);
    assert StoredAt(t, k, p);
    ClearRepresents(t, m, k, p);
    if SafeToClear(t, p) {
      SafeClearKeepsInvariant(t, p);
      forall l ensures FaithfulAt(u, m - {k}, l) {
        GetRefines(u, m - {k}, l);
      }
    } else {
      var l, q: nat :| StoredAt(t, l, q) && q != p && PassesThrough(t, l, p);
      FindAfterBadClear(t, p, l);
      assert u.Get(l).0 == DoesNotExist;
      assert !FaithfulAt(u, m - {k}, l);
    }
  }

  /** Removing an absent key changes nothing. */
  lemma RemoveOfAbsentKey<K(!new), V>(t: Table<K, V>, m: map<K, V>, k: K)
    requires Invariant(t) && Represents(t, m) && k !in m
    ensures t.Remove(k) == (if HasRoom(t, k) then Success else TableFull, t)
  {
    GetRefines(t, m, k);
  }

  /** What an unsafe removal leaves behind: a key that is stored but reported missing, and
      that the next Set stores a second time. */
  lemma UnsafeRemoveDuplicates<K(!new), V>(t: Table<K, V>, p: nat, k: K, q: nat, v: V)
    requires Invariant(t) && p < |t.slots| && StoredAt(t, k, q) && q != p && PassesThrough(t, k, p)
    ensures var u := Put(t, p, None);
            && u.Get(k).0 == DoesNotExist
            && StoredAt(u.Set(Item(k, v)).1, k, p) && StoredAt(u.Set(Item(k, v)).1, k, q)
  {
    FindAfterBadClear(t, p, k);
  }

  function Collide(k: int): nat {
    0
  }

  /** Two colliding keys are enough: after removing the first, the second is gone. */
  lemma RemoveCanLoseAKey()
    ensures var t: Table<int, int> := Table(Collide, 0x1_0000_0000, [None, None]);
            var t1 := t.Set(Item(7, 70)).1;
            var t2 := t1.Set(Item(8, 80)).1;
            t2.Get(8) == (Success, Some(Item(8, 80))) && t2.Remove(7).1.Get(8) == (DoesNotExist, None)
  {
    var t: Table<int, int> := Table(Collide, 0x1_0000_0000, [None, None]);
    assert t.Find(7, 0) == 0;
    var t1 := t.Set(Item(7, 70)).1;
    assert t1.slots == [Some(Item(7, 70)), None];
    assert t1.Find(8, 0) == 1;
    var t2 := t1.Set(Item(8, 80)).1;
    assert t2.slots == [Some(Item(7, 70)), Some(Item(8, 80))];
    assert t2.Find(7, 0) == 0 && t2.Find(8, 0) == 1;
    assert t2.Remove(7).1.slots == [None, Some(Item(8, 80))];
    assert t2.Remove(7).1.Find(8, 0) == 0;
  }

  // ---------- the probe sequence ----------

  function Slot(h: nat, i: nat, cap: nat, modulus: nat): nat
    requires 0 < cap <= modulus
  {
    ((h + i) % modulus) % cap
  }

  ghost predicate Visits(h: nat, cap: nat, modulus: nat, s: nat)
    requires 0 < cap <= modulus
  {
    exists i: nat :: i < cap && Slot(h, i, cap, modulus) == s
  }

  /** The probes from hash h visit every slot exactly once. */
  ghost predicate VisitsAllOnce(h: nat, cap: nat, modulus: nat)
    requires 0 < cap <= modulus
  {
    && (forall s: nat :: s < cap ==> Visits(h, cap, modulus, s))
    && (forall i: nat, j: nat :: i < j < cap ==> Slot(h, i, cap, modulus) != Slot(h, j, cap, modulus))
  }

  /** Before the sum h + i wraps the probe is i places on from h; after the wrap it starts
      over from slot 0. */
  lemma SlotCases(h: nat, i: nat, cap: nat, modulus: nat)
    requires 0 < cap <= modulus && h < modulus && i < cap
    ensures Slot(h, i, cap, modulus) ==
            if h + i >= modulus then h + i - modulus
            else if h % cap + i < cap then h % cap + i
            else h % cap + i - cap
  {
    if h + i < modulus {
      QuotientUnique(h + i, modulus, 0, h + i);
      RingMove(h, i, cap);
    } else {
      QuotientUnique(h + i, modulus, 1, h + i - modulus);
      QuotientUnique(h + i - modulus, cap, 0, h + i - modulus);
    }
  }

  /** Where a table looks for a key: at its hash modulo the capacity and the slots after it in
      ring order, or at slot 0 and on once hash + i has wrapped. */
  lemma ProbeCases<K(!new), V>(t: Table<K, V>, k: K, i: nat)
    requires t.Sized() && t.hash(k) < t.modulus && i < |t.slots|
    ensures t.Probe(k, i) == Slot(t.hash(k), i, |t.slots|, t.modulus)
    ensures var h, cap := t.hash(k), |t.slots|;
            t.Probe(k, i) ==
            if h + i >= t.modulus then h + i - t.modulus
            else if h % cap + i < cap then h % cap + i
            else h % cap + i - cap
  {
    SlotCases(t.hash(k), i, |t.slots|, t.modulus);
  }

  lemma NoWrapVisitsAll(h: nat, cap: nat, modulus: nat)
    requires 0 < cap <= modulus && h + cap - 1 < modulus
    ensures VisitsAllOnce(h, cap, modulus)
  {
    var c := h % cap;
    forall s: nat | s < cap ensures Visits(h, cap, modulus, s) {
      var i := if s >= c then s - c else s + cap - c;
      SlotCases(h, i, cap, modulus);
      assert Slot(h, i, cap, modulus) == s;
    }
    forall i: nat, j: nat | i < j < cap ensures Slot(h, i, cap, modulus) != Slot(h, j, cap, modulus) {
      SlotCases(h, i, cap, modulus);
      SlotCases(h, j, cap, modulus);
    }
  }

  /** `rest` is how many probes precede the wrap; the last of them falls on slot
      modulus % cap - 1. */
  lemma WrapPoint(h: nat, cap: nat, modulus: nat)
    requires 0 < cap <= modulus && h < modulus <= h + cap - 1
    ensures var rest, c := modulus - h, h % cap;
            0 < rest < cap && modulus % cap == if c + rest < cap then c + rest else c + rest - cap
  {
    RingMove(h, modulus - h, cap);
  }

  lemma DividingWrapVisitsAll(h: nat, cap: nat, modulus: nat)
    requires 0 < cap <= modulus && h < modulus <= h + cap - 1 && modulus % cap == 0
    ensures VisitsAllOnce(h, cap, modulus)
  {
    var c, rest := h % cap, modulus - h;
    WrapPoint(h, cap, modulus);
    forall s: nat | s < cap ensures Visits(h, cap, modulus, s) {
      var i := if s >= c then s - c else s + rest;
      SlotCases(h, i, cap, modulus);
      assert Slot(h, i, cap, modulus) == s;
    }
    forall i: nat, j: nat | i < j < cap ensures Slot(h, i, cap, modulus) != Slot(h, j, cap, modulus) {
      SlotCases(h, i, cap, modulus);
      SlotCases(h, j, cap, modulus);
    }
  }

  /** A slot that no probe reaches. Before the wrap the probes cover the `rest` slots that end
      at modulus % cap, after it the first cap - rest slots. */
  function MissedSlot(h: nat, cap: nat, modulus: nat): (s: nat)
    requires 0 < cap <= modulus && h < modulus <= h + cap - 1
    ensures s < cap
  {
    var rest, r := modulus - h, modulus % cap;
    if rest <= r then cap - 1 else if r >= cap - rest then r else cap - rest
  }

  lemma OtherWrapMisses(h: nat, cap: nat, modulus: nat)
    requires 0 < cap <= modulus && h < modulus <= h + cap - 1 && modulus % cap != 0
    ensures !Visits(h, cap, modulus, MissedSlot(h, cap, modulus))
  {
    var s := MissedSlot(h, cap, modulus);
    WrapPoint(h, cap, modulus);
    forall i: nat | i < cap ensures Slot(h, i, cap, modulus) != s {
      SlotCases(h, i, cap, modulus);
    }
  }

  /** The sequence covers the table exactly when it does not wrap size_t or the capacity
      divides 2^w. */
  lemma VisitsAllOnceIff(h: nat, cap: nat, modulus: nat)
    requires 0 < cap <= modulus && h < modulus
    ensures VisitsAllOnce(h, cap, modulus) <==> h + cap - 1 < modulus || modulus % cap == 0
  {
    if h + cap - 1 < modulus {
      NoWrapVisitsAll(h, cap, modulus);
    } else if modulus % cap == 0 {
      DividingWrapVisitsAll(h, cap, modulus);
    } else {
      OtherWrapMisses(h, cap, modulus);
    }
  }

  /** Where the sequence covers the table, room on it means an empty slot anywhere; so
      TABLE_FULL then means that the table is full. */
  lemma RoomIffNotFull<K(!new), V>(t: Table<K, V>, k: K)
    requires t.Sized() && t.hash(k) < t.modulus && VisitsAllOnce(t.hash(k), |t.slots|, t.modulus)
    ensures HasRoom(t, k) <==> None in t.slots
  {
    if None in t.slots {
      var s: nat :| s < |t.slots| && t.slots[s] == None;
      assert Visits(t.hash(k), |t.slots|, t.modulus, s);
      var i: nat :| i < |t.slots| && Slot(t.hash(k), i, |t.slots|, t.modulus) == s;
      assert t.Probe(k, i) == s;
    }
  }

  // ---------- TABLE_FULL with room left ----------

  /** The table after a run of Sets. */
  function SetAll<K(!new, ==), V>(t: Table<K, V>, items: seq<Item<K, V>>): (u: Table<K, V>)
    requires t.Sized()
    ensures u.Sized() && u.hash == t.hash && u.modulus == t.modulus && |u.slots| == |t.slots|
    decreases |items|
  {
    if items == [] then t else SetAll(t.Set(items[0]).1, items[1..])
  }

  function Cleared<K(!new, ==), V>(t: Table<K, V>): (u: Table<K, V>)
    ensures u.hash == t.hash && u.modulus == t.modulus && |u.slots| == |t.slots|
  {
    t.(slots := seq(|t.slots|, _ => None))
  }

  lemma {:induction false} SetsKeepInvariant<K(!new), V>(t: Table<K, V>, items: seq<Item<K, V>>)
    requires Invariant(t)
    ensures Invariant(SetAll(t, items))
    decreases |items|
  {
    if items != [] {
      SetKeepsInvariant(t, items[0]);
      SetsKeepInvariant(t.Set(items[0]).1, items[1..]);
    }
  }

  /** A table that Sets alone have filled, on which a search for k meets TABLE_FULL although
      some slot is empty. */
  ghost predicate FullWithRoom<K(!new), V(!new)>(t: Table<K, V>, k: K) {
    && t.Sized()
    && (exists items :: t == SetAll(Cleared(t), items))
    && t.Get(k) == (TableFull, None)
    && (forall v :: t.Set(Item(k, v)) == (TableFull, t))
    && None in t.slots
  }

  /** All keys hash to h and the stored ones lie below `next`. */
  ghost predicate Filling(t: Table<int, int>, h: nat, next: int) {
    && Invariant(t)
    && (forall k :: t.hash(k) == h)
    && (forall k, p: nat :: StoredAt(t, k, p) ==> k < next)
  }

  ghost function Vacant(t: Table<int, int>): set<nat> {
    set p: nat | p < |t.slots| && t.slots[p] == None
  }

  lemma FillOne(t: Table<int, int>, h: nat, next: int)
    requires Filling(t, h, next) && HasRoom(t, next)
    ensures var u := t.Set(Item(next, 0)).1;
            && Filling(u, h, next + 1)
            && Vacant(u) < Vacant(t)
            && (forall s: nat :: s in Vacant(t) && !Visits(h, |t.slots|, t.modulus, s) ==> s in Vacant(u))
  {
    var item := Item(next, 0);
    var i :| 0 <= i < |t.slots| && t.slots[t.Probe(next, i)].None?;
    FindStopsEarlier(t, next, i);
    var j := t.Find(next, 0);
    var p := t.Probe(next, j);
    if t.slots[p].Some? {
      assert StoredAt(t, next, p);
    }
    SetKeepsInvariant(t, item);
    StoredAfterSet(t, item);
    assert p in Vacant(t) && p !in Vacant(Put(t, p, Some(item)));
    assert Slot(h, j, |t.slots|, t.modulus) == p;
    assert Visits(h, |t.slots|, t.modulus, p);
  }

  /** Setting fresh keys until one is refused uses up every slot the probes reach, and only
      those. */
  lemma {:induction false} FillUp(t: Table<int, int>, h: nat, next: int, s: nat)
    returns (items: seq<Item<int, int>>, k: int)
    requires Filling(t, h, next) && s in Vacant(t) && !Visits(h, |t.slots|, t.modulus, s)
    ensures var u := SetAll(t, items);
            Filling(u, h, k) && s in Vacant(u) && !HasRoom(u, k)
    decreases Vacant(t)
  {
    if HasRoom(t, next) {
      FillOne(t, h, next);
      var rest;
      rest, k := FillUp(t.Set(Item(next, 0)).1, h, next + 1, s);
      items := [Item(next, 0)] + rest;
      assert items[1..] == rest;
    } else {
      items, k := [], next;
    }
  }

  /** For a key that is not stored TABLE_FULL means that its probes meet no empty slot. */
  lemma FullIffNoRoom<K(!new), V>(t: Table<K, V>, k: K)
    requires t.Sized() && forall p: nat :: !StoredAt(t, k, p)
    ensures t.Find(k, 0) == |t.slots| <==> !HasRoom(t, k)
  {
    if HasRoom(t, k) {
      var i :| 0 <= i < |t.slots| && t.slots[t.Probe(k, i)].None?;
      FindStopsEarlier(t, k, i);
    } else {
      forall i: nat | i < |t.slots| ensures !t.Stops(k, t.Probe(k, i)) {
        assert !StoredAt(t, k, t.Probe(k, i));
      }
    }
  }

  lemma NeverFullWithRoom<K(!new), V(!new)>(t: Table<K, V>, k: K)
    requires t.Sized() && t.hash(k) < t.modulus && VisitsAllOnce(t.hash(k), |t.slots|, t.modulus)
    ensures !FullWithRoom(t, k)
  {
    RoomIffNotFull(t, k);
    if None in t.slots {
      var i :| 0 <= i < |t.slots| && t.slots[t.Probe(k, i)].None?;
      FindStopsEarlier(t, k, i);
    }
  }

  lemma WrapReportsFull(h: nat, cap: nat, modulus: nat) returns (t: Table<int, int>, k: int)
    requires 0 < cap <= modulus && h < modulus <= h + cap - 1 && modulus % cap != 0
    ensures t.modulus == modulus && |t.slots| == cap && t.hash(k) == h && FullWithRoom(t, k)
  {
    var start: Table<int, int> := Table((_: int) => h, modulus, seq(cap, _ => None));
    var s := MissedSlot(h, cap, modulus);
    OtherWrapMisses(h, cap, modulus);
    assert s in Vacant(start);
    var items;
    items, k := FillUp(start, h, 0, s);
    t := SetAll(start, items);
    assert Cleared(t) == start;
    FullIffNoRoom(t, k);
  }

  /** With a table filled by Sets alone, TABLE_FULL can be reported while a slot is empty
      exactly when the probe sequence wraps size_t and the capacity does not divide 2^w. */
  lemma FullWithRoomIff(h: nat, cap: nat, modulus: nat)
    requires 0 < cap <= modulus && h < modulus
    ensures (exists t: Table<int, int>, k: int ::
               FullWithRoom(t, k) && t.modulus == modulus && |t.slots| == cap && t.hash(k) == h)
            <==> h + cap - 1 >= modulus && modulus % cap != 0
  {
    if h + cap - 1 >= modulus && modulus % cap != 0 {
      var t, k := WrapReportsFull(h, cap, modulus);
    } else {
      VisitsAllOnceIff(h, cap, modulus);
      forall t: Table<int, int>, k: int | t.modulus == modulus && |t.slots| == cap && t.hash(k) == h
        ensures !FullWithRoom(t, k)
      {
        NeverFullWithRoom(t, k);
      }
    }
  }

  /** Tables filled by Sets alone satisfy the invariant. */
  lemma BuiltTablesAreValid<K(!new), V(!new)>(t: Table<K, V>, k: K)
    requires FullWithRoom(t, k)
    ensures Invariant(t) && forall p: nat :: !StoredAt(t, k, p)
  {
    var items :| t == SetAll(Cleared(t), items);
    SetsKeepInvariant(Cleared(t), items);
  }

  function LastHash(k: int): nat {
    0xffff_ffff_ffff_ffff
  }

  lemma TopProbes(t: Table<int, int>, k: int)
    requires t.hash == LastHash && t.modulus == 0x1_0000_0000_0000_0000 && |t.slots| == 3
    ensures t.Probe(k, 0) == 0 && t.Probe(k, 1) == 0 && t.Probe(k, 2) == 1
  {
  }

  /** With a 64-bit size_t and three slots, a key hashing to the top never reaches slot 2: the
      third Set reports a full table that has an empty slot. */
  lemma FullReportedWithRoom()
    ensures var t: Table<int, int> := Table(LastHash, 0x1_0000_0000_0000_0000, [None, None, None]);
            var u := SetAll(t, [Item(1, 1), Item(2, 2)]);
            && Invariant(u)
            && u.slots == [Some(Item(1, 1)), Some(Item(2, 2)), None]
            && u.Set(Item(3, 3)) == (TableFull, u)
  {
    var t: Table<int, int> := Table(LastHash, 0x1_0000_0000_0000_0000, [None, None, None]);
    var items := [Item(1, 1), Item(2, 2)];
    SetsKeepInvariant(t, items);
    TopProbes(t, 1);
    TopProbes(t, 2);
    assert t.Find(1, 0) == 0;
    var t1 := t.Set(items[0]).1;
    assert t1.slots == [Some(Item(1, 1)), None, None];
    assert t1.Find(2, 2) == 2 && t1.Find(2, 0) == 2;
    var u := t1.Set(items[1]).1;
    assert u.slots == [Some(Item(1, 1)), Some(Item(2, 2)), None];
    assert items[1..] == [items[1]] && [items[1]][1..] == [];
    assert SetAll(t1, [items[1]]) == SetAll(u, []) == u;
    TopProbes(u, 3);
    assert u.Find(3, 2) == 3 && u.Find(3, 0) == 3;
  }
}
