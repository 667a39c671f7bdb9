/** Three calls that edit nothing and destroy items: a move in place by no slots constructs each item over itself and
    then destroys it. */
module EmptyEdits {
  import opened Options
  import opened CopyOnWrite

  /** Three items, the last two of which have been destroyed though all are counted. */
  ghost predicate TwoDestroyed<T(0)>(v: VectorImpl<T>)
    reads v, v.storage, if v.storage == null then {} else {v.storage.slots}
  {
    && v.count == 3 && v.storage != null && v.storage.slots.Length >= 3
    && v.storage.slots[0].Live? && v.storage.slots[1] == Raw && v.storage.slots[2] == Raw
  }

  method InsertNoneAt<T(0)>(v: VectorImpl<T>, item: T) returns (r: Status)
    requires v.Valid() && v.count == 3 && !v.heap.flags.trivialDtor && !v.heap.flags.trivialMove
    modifies v, v.heap`live, v.heap`failures, v.storage, v.OwnSlots()
    ensures r == Ok(1) && TwoDestroyed(v) && !v.Valid()
  {
    ghost var fill;
    r, fill := v.InsertAt(Some(item), 1, 0);
    v.BrokenIsNotValid(1);
  }

  method InsertEmptyAt<T(0)>(v: VectorImpl<T>, empty: VectorImpl<T>) returns (r: Status)
    requires v.Valid() && v.count == 3 && !v.heap.flags.trivialDtor && !v.heap.flags.trivialMove
    requires empty.Valid() && empty.count == 0 && v != empty && v.Apart(empty)
    modifies v, v.heap`live, v.heap`failures, v.storage, v.OwnSlots()
    ensures r == Ok(1) && TwoDestroyed(v) && !v.Valid()
  {
    v.CountsContents();
    r := v.InsertVectorAt(empty, 1);
    v.BrokenIsNotValid(1);
  }

  /** Not so with room for eight, when the items are copied to smaller storage. */
  method RemoveNoneAt<T(0)>(v: VectorImpl<T>) returns (r: Status)
    requires v.Valid() && v.count == 3 && !v.heap.flags.trivialDtor && !v.heap.flags.trivialMove
    modifies v, v.heap`live, v.heap`failures, v.storage, v.OwnSlots()
    ensures r == Ok(1)
    ensures if old(v.Capacity()) < 8 then TwoDestroyed(v) && !v.Valid() else v.Valid()
  {
    v.CountsContents();
    ghost var room := v.Capacity();
    r := v.RemoveItemsAt(1, 0);
    if room < 8 {
      v.BrokenIsNotValid(1);
    }
  }
}
