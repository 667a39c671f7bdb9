/** The cost of growing a vector one item at a time, and what its shrinking does to its capacity. */
module VectorGrowth {
  import opened Options
  import opened CopyOnWrite

  /** A push onto full storage copies every item it held; what was copied so far is paid for by the new capacity. */
  lemma GrowthPays(count: nat, copied: nat)
    requires copied <= 2 * count
    ensures copied + count <= 3 * count
    ensures copied + count <= 2 * GrownCapacity(count + 1)
  {
  }

  /** A capacity within half as much again as what so many items need, or the least one. */
  predicate Fitting(capacity: nat, size: nat)
  {
    capacity <= MIN_VECTOR_CAPACITY || 2 * capacity <= 3 * size + 2
  }

  /** Room is never made for much more than was asked: growing leaves at most half as much again, shrinking at most as
      much again, and neither changes room that will do. */
  lemma RoomIsBounded(size: nat, room: nat)
    ensures size <= RoomToGrow(size, room) && (size <= room ==> RoomToGrow(size, room) == room)
    ensures room < size ==> Fitting(RoomToGrow(size, room), size)
    ensures size <= room ==> size <= RoomToShrink(size, room)
    ensures RoomToShrink(size, room) <= MIN_VECTOR_CAPACITY || RoomToShrink(size, room) <= 2 * size + 1
    ensures room <= 2 * size ==> RoomToShrink(size, room) == room
  {
  }

  /** One push onto a vector nobody shares, and how many items it copied: those of the storage it left. */
  method Push<T(0)>(v: VectorImpl<T>, item: T) returns (ok: bool, ghost copied: nat)
    requires v.Valid() && (v.storage == null || v.Sole())
    modifies v, v.heap`live, v.heap`failures, v.storage, v.OwnSlots()
    ensures v.Valid() && (v.storage == null || v.Sole())
    ensures v.storage == old(v.storage) || (v.storage != null && fresh(v.storage) && fresh(v.storage.slots))
    ensures copied == if v.storage == old(v.storage) then 0 else old(v.count)
    ensures v.Contents() == old(v.Contents()) + if ok then [item] else []
    ensures v.storage == old(v.storage) ==> v.Capacity() == old(v.Capacity())
    ensures v.storage != old(v.storage) ==>
      ok && old(v.count) == old(v.Capacity()) && v.Capacity() == GrownCapacity(v.count)
    ensures ok <==> v.heap.failures == old(v.heap.failures)
    ensures v.heap.failures >= old(v.heap.failures)
  {
    ghost var storage, items := v.storage, v.Contents();
    var r, fill := v.InsertAt(Some(item), v.count, 1);
    ok := r.Ok?;
    copied := if v.storage == storage then 0 else |items|;
    assert Spliced(items, |items|, Splat(item, 1)) == items + [item];
  }

  /** Pushing any number of items onto an empty vector copies at most three times as many, however often
      its storage is outgrown, and leaves little room unused; a push that cannot get storage copies nothing and leaves
      the rest in place. */
  method PushAll<T(0)>(v: VectorImpl<T>, items: seq<T>) returns (done: nat, ghost copied: nat)
    requires v.Valid() && v.storage == null
    modifies v, v.heap`live, v.heap`failures
    ensures v.Valid() && done <= |items| && v.Contents() == items[..done]
    ensures copied <= 3 * done
    ensures if done == 0 then v.Capacity() == 0 else Fitting(v.Capacity(), done)
    ensures done == |items| <==> v.heap.failures == old(v.heap.failures)
  {
    done, copied := 0, 0;
    while done < |items|
      invariant done <= |items| && v.Valid() && v.Contents() == items[..done]
      invariant v.storage != null ==> v.Sole() && fresh(v.storage) && fresh(v.storage.slots)
      invariant if done == 0 then v.Capacity() == 0 else Fitting(v.Capacity(), done)
      invariant copied <= 2 * v.Capacity() && copied <= 3 * done
      invariant v.heap.failures == old(v.heap.failures)
    {
      if copied <= 2 * done {
        GrowthPays(done, copied);
      }
      var ok, moved := Push(v, items[done]);
      copied := copied + moved;
      if !ok {
        return;
      }
      assert items[..done + 1] == items[..done] + [items[done]];
      done := done + 1;
    }
    assert items[..done] == items;
  }

  /** The buffer `_shrink` moves to holds the items that are left, and is smaller than the one it replaces
      exactly if that one had more than the least capacity. */
  lemma ShrinkingIsStrict(size: nat, capacity: nat)
    requires size < capacity / 2
    ensures size < ShrunkCapacity(size)
    ensures ShrunkCapacity(size) < capacity <==> capacity > MIN_VECTOR_CAPACITY
  {
  }

  /** An empty vector given room for two items and then emptied again ends with room for four, if storage is never
      refused. */
  method ShrinkingCanGrow<T(0)>(v: VectorImpl<T>) returns (room: nat)
    requires v.Valid() && v.count == 0
    modifies v, v.heap`live, v.heap`failures, v.storage, v.OwnSlots()
    ensures v.Valid()
    ensures v.heap.failures == old(v.heap.failures) ==> v.Contents() == [] && room == 2 && v.Capacity() == 4
  {
    var r := v.SetCapacity(2);
    room := v.Capacity();
    v.Clear();
  }
}
