/** Whole runs of map operations against an abstract map. */
module MapRuns {
  import opened Status
  import opened MapModel

  datatype Op<K, V> = Set(item: Item<K, V>) | Get(key: K) | Remove(key: K) {
    function Key(): K {
      match this
      case Set(item) => item.key
      case Get(k) => k
      case Remove(k) => k
    }
  }

  datatype Reply<K, V> = Reply(status: Status, item: Option<Item<K, V>>)

  function Concrete<K(!new, ==), V>(t: Table<K, V>, op: Op<K, V>): (Reply<K, V>, Table<K, V>)
    requires t.Sized()
  {
    match op
    case Set(item) => (Reply(t.Set(item).0, None), t.Set(item).1)
    case Get(k) => (Reply(t.Get(k).0, t.Get(k).1), t)
    case Remove(k) => (Reply(t.Remove(k).0, None), t.Remove(k).1)
  }

  /** `room` says whether an absent key's probe sequence holds an empty slot. */
  function Abstract<K(==), V>(m: map<K, V>, op: Op<K, V>, room: bool): (Reply<K, V>, map<K, V>) {
    match op
    case Set(item) =>
      if item.key in m || room then (Reply(Success, None), m[item.key := item.value])
      else (Reply(TableFull, None), m)
    case Get(k) =>
      if k in m then (Reply(Success, Some(Item(k, m[k]))), m)
      else (Reply(if room then DoesNotExist else TableFull, None), m)
    case Remove(k) =>
      if k in m then (Reply(Success, None), m - {k})
      else (Reply(if room then Success else TableFull, None), m)
  }

  /** A removal that clears a slot some other item is found by way of. */
  ghost predicate Unsafe<K(!new), V>(t: Table<K, V>, op: Op<K, V>)
    requires t.Sized()
  {
    op.Remove? && StoredSomewhere(t, op.key) && !SafeToClear(t, t.Probe(op.key, t.Find(op.key, 0)))
  }

  ghost predicate StoredSomewhere<K(!new), V>(t: Table<K, V>, k: K) {
    exists p: nat :: StoredAt(t, k, p)
  }

  /** The table runs in step with the abstract map, reply for reply, until a removal is
      unsafe. */
  ghost predicate RunsInStep<K(!new), V>(t: Table<K, V>, m: map<K, V>, ops: seq<Op<K, V>>)
    decreases |ops|
  {
    && Invariant(t)
    && Represents(t, m)
    && (ops != [] && !Unsafe(t, ops[0]) ==>
          var (reply, u) := Concrete(t, ops[0]);
          var (expected, n) := Abstract(m, ops[0], HasRoom(t, ops[0].Key()));
          reply == expected && RunsInStep(u, n, ops[1..]))
  }

  lemma StepInStep<K(!new), V>(t: Table<K, V>, m: map<K, V>, op: Op<K, V>)
    requires Invariant(t) && Represents(t, m) && !Unsafe(t, op)
    ensures var (reply, u) := Concrete(t, op);
            var (expected, n) := Abstract(m, op, HasRoom(t, op.Key()));
            reply == expected && Invariant(u) && Represents(u, n)
  {
    match op
    case Set(item) => SetRefines(t, m, item);
    case Get(k) => GetRefines(t, m, k);
    case Remove(k) =>
      if k in m {
        assert StoredSomewhere(t, k);
        RemoveRefinesIff(t, m, k);
      } else {
        RemoveOfAbsentKey(t, m, k);
      }
  }

  lemma {:induction false} RunRefinesMap<K(!new), V>(t: Table<K, V>, m: map<K, V>, ops: seq<Op<K, V>>)
    requires Invariant(t) && Represents(t, m)
    ensures RunsInStep(t, m, ops)
    decreases |ops|
  {
    if ops != [] && !Unsafe(t, ops[0]) {
      StepInStep(t, m, ops[0]);
      RunRefinesMap(Concrete(t, ops[0]).1, Abstract(m, ops[0], HasRoom(t, ops[0].Key())).1, ops[1..]);
    }
  }

  /** In particular from the empty table. */
  lemma RunsFromEmpty<K(!new), V>(t: Table<K, V>, ops: seq<Op<K, V>>)
    requires t.Sized() && forall p: nat :: p < |t.slots| ==> t.slots[p].None?
    ensures RunsInStep(t, map[], ops)
  {
    RunRefinesMap(t, map[], ops);
  }
}
