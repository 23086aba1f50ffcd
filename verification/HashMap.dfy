/** The map object of juno_map.c: probing loops over the caller's backing array. */
module HashMap {
  import opened Status
  import opened MapModel

  class HashMap<K(!new, ==), V> {
    const hash: K -> nat
    /** 2^w for a w-bit size_t. */
    const modulus: nat
    const slots: array<Option<Item<K, V>>>

    constructor (hash: K -> nat, modulus: nat, slots: array<Option<Item<K, V>>>)
      requires 0 < slots.Length <= modulus
      ensures this.hash == hash && this.modulus == modulus && this.slots == slots && Valid()
    {
      this.hash, this.modulus, this.slots := hash, modulus, slots;
    }

    ghost predicate Valid() {
      0 < slots.Length <= modulus
    }

    ghost function Model(): (t: Table<K, V>)
      requires Valid()
      reads slots
      ensures t.Sized() && |t.slots| == slots.Length
    {
      Table(hash, modulus, slots[..])
    }

    /** Finds the slot where the search for key stops: one that is empty or holds the key. */
    method GetWithKey(key: K) returns (status: Status, index: nat)
      requires Valid()
      ensures var t := Model();
              var j := t.Find(key, 0);
              if j == slots.Length then status == TableFull && index == 0
              else status == Success && index == t.Probe(key, j)
    {
      var h := hash(key);
      status, index := TableFull, 0;
      var i := 0;
      while i < slots.Length
        invariant 0 <= i <= slots.Length
        invariant Model().Find(key, 0) == Model().Find(key, i)
        invariant status == TableFull && index == 0
      {
        var zIndex := ((h + i) % modulus) % slots.Length;
        if slots[zIndex].None? {
          status, index := Success, zIndex;
          break;
        }
        if slots[zIndex].value.key == key {
          status, index := Success, zIndex;
          break;
        }
        i := i + 1;
      }
    }

    method Get(key: K) returns (status: Status, item: Option<Item<K, V>>)
      requires Valid()
      ensures (status, item) == Model().Get(key)
      ensures var t := Model();
              var j := t.Find(key, 0);
              if j == slots.Length then status == TableFull && item == None
              else if slots[t.Probe(key, j)].None? then status == DoesNotExist && item == None
              else status == Success && item == slots[t.Probe(key, j)] && item.value.key == key
    {
      var found, index := GetWithKey(key);
      if found != Success {
        return found, None;
      }
      if slots[index].None? {
        return DoesNotExist, None;
      }
      return Success, slots[index];
    }

    method Set(item: Item<K, V>) returns (status: Status)
      requires Valid()
      modifies slots
      ensures (status, Model()) == old(Model()).Set(item)
      ensures var t := old(Model());
              var j := t.Find(item.key, 0);
              if j == slots.Length then status == TableFull && slots[..] == old(slots[..])
              else status == Success && slots[..] == old(slots[..])[t.Probe(item.key, j) := Some(item)]
    {
      var found, index := GetWithKey(item.key);
      if found != Success {
        return found;
      }
      slots[index] := Some(item);
      return Success;
    }

    method Remove(key: K) returns (status: Status)
      requires Valid()
      modifies slots
      ensures (status, Model()) == old(Model()).Remove(key)
      ensures var t := old(Model());
              var j := t.Find(key, 0);
              if j == slots.Length then status == TableFull && slots[..] == old(slots[..])
              else status == Success && slots[..] == old(slots[..])[t.Probe(key, j) := None]
    {
      var h := hash(key);
      status := TableFull;
      var i := 0;
      while i < slots.Length
        invariant 0 <= i <= slots.Length
        invariant Model() == old(Model())
        invariant Model().Find(key, 0) == Model().Find(key, i)
        invariant status == TableFull
      {
        var zIndex := ((h + i) % modulus) % slots.Length;
        if slots[zIndex].None? {
          status := Success;
          break;
        }
        if slots[zIndex].value.key == key {
          slots[zIndex] := None;
          status := Success;
          break;
        }
        i := i + 1;
      }
    }
  }
}
