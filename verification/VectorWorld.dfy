/** Any number of vectors over one heap, and any run of operations on them: each vector always
    equals its own independent sequence, until an action that edits nothing destroys items of one. */
module VectorWorld {
  import opened CopyOnWrite

  /** A vector that leaves one buffer, if any, and perhaps takes hold of another. */
  datatype Transfer<T(0)> = Transfer(v: VectorImpl<T>, left: SharedBuffer?<T>, taken: SharedBuffer?<T>)

  /** One action on the vectors of a world, and how it came out: with these items put in, not at all, or with items
      destroyed that are still counted. */
  datatype Action<!T> =
    | New
    | CopyOf(k: nat)
    | Assign(k: nat, src: nat)
    | InsertFrom(k: nat, src: nat, index: nat)
    | Apply(k: nat, op: Op<T>)

  datatype Outcome<+T> = Done(fill: seq<T>) | Failed | Spoiled

  /** What a vector shows: its items, and how many it has room for. */
  datatype Shown<+T> = Shown(items: seq<T>, room: nat)

  /** What an action does to independent sequences, one for each vector. */
  function Acted<T>(view: seq<Shown<T>>, a: Action<T>, o: Outcome<T>): seq<Shown<T>>
  {
    match a
    case New => view + [Shown([], 0)]
    case CopyOf(k) => if k < |view| then view + [view[k]] else view
    case Assign(k, src) => if k < |view| && src < |view| && k != src then view[k := Assigned(view[src])] else view
    case InsertFrom(k, src, index) =>
      if k < |view| && src < |view| && o.Done? && index <= |view[k].items|
        then view[k := WithInserted(view[k], index, view[src].items)] else view
    case Apply(k, op) => if k < |view| && o.Done? then view[k := Operated(view[k], op, o.fill)] else view
  }

  /** An assigned vector shares the other's storage, unless there is nothing in it. */
  function Assigned<T>(v: Shown<T>): Shown<T>
  {
    if |v.items| == 0 then Shown([], 0) else v
  }

  function WithInserted<T>(v: Shown<T>, index: nat, more: seq<T>): Shown<T>
    requires index <= |v.items|
  {
    Shown(Spliced(v.items, index, more), RoomToGrow(|v.items| + |more|, v.room))
  }

  function Operated<T>(v: Shown<T>, op: Op<T>, fill: seq<T>): Shown<T>
  {
    Shown(Effect(v.items, op, fill), RoomAfter(|v.items|, v.room, op))
  }

  function Played<T>(view: seq<Shown<T>>, actions: seq<Action<T>>, outcomes: seq<Outcome<T>>): seq<Shown<T>>
    requires |outcomes| == |actions|
  {
    if actions == [] then view
    else Acted(Played(view, actions[..|actions| - 1], outcomes[..|actions| - 1]), actions[|actions| - 1],
      outcomes[|actions| - 1])
  }

  /** Where an action edits its vector. */
  function IndexOf<T>(a: Action<T>): nat
  {
    match a
    case InsertFrom(_, _, index) => index
    case Apply(_, Insert(_, index, _)) => index
    case Apply(_, Remove(index, _)) => index
    case _ => 0
  }

  /** The action inserts nothing before the end of its vector, or removes nothing there without copying the items to
      smaller storage; it then destroys items that have destructors and are not moved as bytes. */
  predicate Endangers<T>(view: seq<Shown<T>>, a: Action<T>, flags: Flags)
  {
    !flags.trivialDtor && !flags.trivialMove &&
    match a
    case InsertFrom(k, src, index) =>
      k < |view| && src < |view| && index < |view[k].items| && |view[src].items| == 0
    case Apply(k, Insert(_, index, n)) => k < |view| && index < |view[k].items| && n == 0
    case Apply(k, Remove(index, n)) =>
      k < |view| && index < |view[k].items| && n == 0 && |view[k].items| >= view[k].room / 2
    case _ => false
  }

  /** An outcome an action may have: it puts in what it was asked for; it destroys exactly if it endangers. */
  ghost predicate Possible<T>(view: seq<Shown<T>>, a: Action<T>, o: Outcome<T>, flags: Flags, initial: T)
  {
    && (o.Done? && a.Apply? && a.k < |view| ==> Fills(view[a.k].items, a.op, o.fill, flags, initial))
    && (o.Spoiled? <==> Endangers(view, a, flags))
  }

  /** Each action came out as it may, given how those before it came out. */
  ghost predicate AllPossible<T>(view: seq<Shown<T>>, actions: seq<Action<T>>, outcomes: seq<Outcome<T>>, flags: Flags,
    initial: T)
    requires |outcomes| <= |actions|
  {
    forall i | 0 <= i < |outcomes| ::
      Possible(Played(view, actions[..i], outcomes[..i]), actions[i], outcomes[i], flags, initial)
  }

  predicate NoneFailed<T>(outcomes: seq<Outcome<T>>)
  {
    forall i | 0 <= i < |outcomes| :: !outcomes[i].Failed?
  }

  /** No action endangers anything, given how those before it came out. */
  predicate AllSafe<T>(view: seq<Shown<T>>, actions: seq<Action<T>>, outcomes: seq<Outcome<T>>, flags: Flags)
    requires |outcomes| <= |actions|
  {
    forall i | 0 <= i < |outcomes| :: !Endangers(Played(view, actions[..i], outcomes[..i]), actions[i], flags)
  }

  lemma SafeIsNotSpoiled<T>(view: seq<Shown<T>>, actions: seq<Action<T>>, outcomes: seq<Outcome<T>>, flags: Flags,
    initial: T, i: nat)
    requires i < |outcomes| <= |actions|
    requires AllPossible(view, actions, outcomes, flags, initial) && AllSafe(view, actions, outcomes, flags)
    ensures !outcomes[i].Spoiled?
  {
    hide Endangers;
    assert Possible(Played(view, actions[..i], outcomes[..i]), actions[i], outcomes[i], flags, initial);
  }

  lemma PlayBegins<T>(view: seq<Shown<T>>, actions: seq<Action<T>>, flags: Flags, initial: T)
    ensures Played(view, actions[..0], []) == view && NoneFailed<T>([])
    ensures AllPossible(view, actions, [], flags, initial)
  {
  }

  lemma OneLonger<A>(s: seq<A>, n: nat)
    requires n < |s|
    ensures |s[..n + 1]| == n + 1 && s[..n + 1][..n] == s[..n] && s[..n + 1][n] == s[n]
  {
  }

  lemma OneAdded<A>(s: seq<A>, a: A)
    ensures |s + [a]| == |s| + 1 && (s + [a])[..|s|] == s && (s + [a])[|s|] == a
  {
  }

  lemma NoneFailedSnoc<T>(outcomes: seq<Outcome<T>>, o: Outcome<T>)
    ensures NoneFailed(outcomes + [o]) <==> NoneFailed(outcomes) && !o.Failed?
  {
    var t := outcomes + [o];
    assert (forall j | 0 <= j < |outcomes| :: t[j] == outcomes[j]) && t[|outcomes|] == o;
  }

  lemma PlayedOne<T>(view: seq<Shown<T>>, actions: seq<Action<T>>, outcomes: seq<Outcome<T>>, o: Outcome<T>)
    requires |outcomes| < |actions|
    ensures Played(view, actions[..|outcomes| + 1], outcomes + [o]) ==
            Acted(Played(view, actions[..|outcomes|], outcomes), actions[|outcomes|], o)
  {
    hide Acted;
    OneLonger(actions, |outcomes|);
    OneAdded(outcomes, o);
  }

  lemma PlayedOn<T>(view: seq<Shown<T>>, actions: seq<Action<T>>, outcomes: seq<Outcome<T>>, o: Outcome<T>,
    flags: Flags, initial: T)
    requires |outcomes| < |actions| && AllPossible(view, actions, outcomes, flags, initial)
    requires Possible(Played(view, actions[..|outcomes|], outcomes), actions[|outcomes|], o, flags, initial)
    ensures AllPossible(view, actions, outcomes + [o], flags, initial)
  {
    hide Possible, Played;
    var n, t := |outcomes|, outcomes + [o];
    OneAdded(outcomes, o);
    assert forall j | 0 <= j < n :: t[..j] == outcomes[..j] && t[j] == outcomes[j];
  }

  lemma InsertMeans<T>(view: seq<Shown<T>>, k: nat, src: nat, index: nat, ok: bool, o: Outcome<T>, v: Shown<T>)
    requires k < |view| && src < |view| && |view[k].items| <= view[k].room
    requires if ok then !o.Failed? && index <= |view[k].items| && v == WithInserted(view[k], index, view[src].items)
             else v == view[k] && (!o.Done? || index > |view[k].items| || view[src].items == [])
    requires o.Spoiled? ==> view[src].items == []
    ensures Acted(view, InsertFrom(k, src, index), o) == view[k := v]
  {
    assert index <= |view[k].items| ==> Spliced(view[k].items, index, []) == view[k].items;
  }

  lemma AddsNothing<V>(s: set<V>, v: V)
    ensures v in s ==> s + {v} == s
  {
  }

  class World<T(0)> {
    const heap: Heap<T>
    var vectors: seq<VectorImpl<T>>
    ghost var members: set<VectorImpl<T>>
    /** A vector's buffer is live and counts the vector's items. */
    ghost predicate Held()
      reads this, heap, heap.live, members
    {
      forall v | v in members ::
        && v.heap == heap
        && if v.storage == null then v.count == 0
           else v.storage in heap.live && v in v.storage.owners && v.count == |v.storage.items|
    }

    /** A live buffer's count is how many vectors own it, and each of them holds it. */
    ghost predicate Counted()
      reads this, heap, heap.live, members
    {
      forall b | b in heap.live :: b.owners <= members && CountedOne(b)
    }

    ghost predicate CountedOne(b: SharedBuffer<T>)
      reads b, b.owners
    {
      0 < b.refs == |b.owners| && forall v | v in b.owners :: v.storage == b
    }

    ghost predicate Filled()
      reads heap, heap.live, set b | b in heap.live :: b.slots
    {
      forall b | b in heap.live :: heap.Packed(b.slots, b.items)
    }

    ghost predicate FilledBut(broken: SharedBuffer?<T>)
      reads heap, heap.live, set b | b in heap.live :: b.slots
    {
      forall b | b in heap.live && b != broken :: heap.Packed(b.slots, b.items)
    }

    ghost predicate Disjoint()
      reads heap
    {
      forall b, c {:trigger b.slots, c.slots} | b in heap.live && c in heap.live && b != c :: b.slots != c.slots
    }

    ghost predicate Listed()
      reads this
    {
      && (forall i | 0 <= i < |vectors| :: vectors[i] in members)
      && (forall i, j {:trigger vectors[i], vectors[j]} | 0 <= i < j < |vectors| :: vectors[i] != vectors[j])
    }

    ghost predicate Valid()
      reads this, heap, heap.live, members, set b | b in heap.live :: b.slots
    {
      Held() && Counted() && Filled() && Disjoint() && Listed()
    }

    /** All is well but for one vector, which still counts items that have been destroyed. */
    ghost predicate Ruined(k: nat, from: nat)
      reads this, heap, heap.live, members, set b | b in heap.live :: b.slots
    {
      && Held() && Counted() && Disjoint() && Listed()
      && k < |vectors| && FilledBut(vectors[k].storage) && vectors[k].Broken(from)
    }

    /** Every other vector is as it should be. */
    lemma OthersStand(k: nat, from: nat, v: VectorImpl<T>)
      requires Ruined(k, from) && v in members && v != vectors[k]
      ensures v.Valid()
    {
    }

    lemma EachValid(v: VectorImpl<T>)
      requires Valid() && v in members
      ensures v.Valid()
    {
    }

    /** Vectors that share a buffer have the same items and the same count. */
    lemma SharersAgree(u: VectorImpl<T>, v: VectorImpl<T>)
      requires Valid() && u in members && v in members && u.storage != null && u.storage == v.storage
      ensures u.count == v.count && u.Contents() == v.Contents()
    {
      EachValid(u);
      EachValid(v);
    }

    /** A buffer is allocated exactly while some vector holds it, and its count is how many do. */
    lemma CountIsHolders(b: SharedBuffer<T>)
      requires Valid()
      ensures b in heap.live ==> b.refs == |set v | v in members && v.storage == b| > 0
      ensures b in heap.live <==> exists v :: v in members && v.storage == b
    {
      if b in heap.live {
        assert CountedOne(b);
        assert (set v | v in members && v.storage == b) == b.owners;
        if b.owners == {} {
          assert false;
        }
      }
    }

    /** For items with destructors, the constructed slots of a buffer are exactly the first `count`. */
    lemma ConstructedIsCounted(v: VectorImpl<T>, i: nat)
      requires Valid() && v in members && v.storage != null && i < v.storage.slots.Length
      ensures v.count <= v.Capacity() && (i < v.count ==> v.storage.slots[i] == Live(v.Contents()[i]))
      ensures !heap.flags.trivialDtor ==> (v.storage.slots[i].Live? <==> i < v.count)
    {
      EachValid(v);
    }

    constructor (heap: Heap<T>)
      requires heap.live == {}
      ensures this.heap == heap && Valid() && vectors == []
    {
      this.heap := heap;
      vectors, members := [], {};
    }

    ghost predicate Displays(v: VectorImpl<T>, shown: Shown<T>)
      reads v, v.storage
    {
      v.Contents() == shown.items && v.Capacity() == shown.room
    }

    /** The vectors hold these sequences. */
    ghost predicate Shows(view: seq<Shown<T>>)
      requires Listed()
      reads this, members, set v | v in members :: v.storage
    {
      |view| == |vectors| && forall i | 0 <= i < |vectors| :: Displays(vectors[i], view[i])
    }

    /** Every vector, buffer and array the world has gained is freshly allocated. */
    twostate predicate Younger()
      reads this, heap
    {
      && (forall v | v in members :: v in old(members) || fresh(v))
      && (forall b | b in heap.live :: b in old(heap.live) || (fresh(b) && fresh(b.slots)))
    }

    /** Between two states only `v`, its buffer if it had one, and that buffer's slots if `v` held it
        alone, changed; and no other vector held that buffer then. */
    twostate predicate OnlyOne(v: VectorImpl<T>)
      reads this, members, heap, set b | b in heap.live :: b, set b | b in heap.live :: b.slots, v, v.storage
    {
      && v in members && members == old(members)
      && (forall u | u in members && u != v :: unchanged(u))
      && (forall b | b in old(heap.live) && b in heap.live && b != old(v.storage) :: unchanged(b) && unchanged(b.slots))
      && (old(v.storage != null && v.storage.refs > 1) && old(v.storage) in heap.live ==>
            unchanged(old(v.storage).slots))
      && (old(v.Sole()) ==> forall u | u in members && u != v :: old(u.storage) != old(v.storage))
    }

    twostate lemma StepKeepsHeld(v: VectorImpl<T>)
      requires old(Held() && Counted()) && OnlyOne(v) && v.Linked() && v.Step(old(v.storage))
      ensures Held()
      ensures forall u | u in members && u != v && u.storage != null :: u.storage.items == old(u.storage.items)
    {
    }

    twostate lemma StepKeepsCounted(v: VectorImpl<T>)
      requires old(Held() && Counted()) && OnlyOne(v) && v.Linked() && v.Step(old(v.storage))
      ensures Counted()
    {
      hide Swapped;
      SwappedFrom(old(heap.live), old(v.Sole()), old(v.storage), v.storage);
      forall b | b in heap.live ensures b.owners <= members && CountedOne(b) {
        if b == v.storage {
          assert b != old(v.storage) ==> b.owners == {v};
          assert b == old(v.storage) ==> b.owners == old(b.owners) && old(b.owners <= members);
        } else {
          assert b in old(heap.live) && old(CountedOne(b)) && old(b.owners <= members);
          if b == old(v.storage) {
            assert old(b.refs) > 1 && b.owners == old(b.owners) - {v} && v in old(b.owners) &&
              |b.owners| == |old(b.owners)| - 1;
          } else {
            assert b.owners == old(b.owners) && v !in b.owners;
          }
        }
      }
    }

    twostate lemma StepKeepsFilled(v: VectorImpl<T>)
      requires old(Held() && Counted() && Filled()) && OnlyOne(v) && v.Linked() && v.Step(old(v.storage))
      ensures FilledBut(v.storage) && (v.Valid() ==> Filled())
    {
      forall b | b in heap.live && b != v.storage ensures heap.Packed(b.slots, b.items) {
        assert b in old(heap.live) && old(heap.Packed(b.slots, b.items)) && b.items == old(b.items);
      }
    }

    twostate lemma StepKeepsDisjoint(v: VectorImpl<T>)
      requires old(Held() && Disjoint()) && OnlyOne(v) && v.Linked() && v.Step(old(v.storage))
      ensures Disjoint()
    {
      assert forall b | b in heap.live && b != v.storage :: b in old(heap.live);
    }

    /** An operation on vector `k` keeps the world sound, but for what it does to that vector, and changes no other
        vector's items. */
    twostate lemma StepKeepsRest(k: nat)
      requires vectors == old(vectors) && k < |vectors| && old(Valid()) && OnlyOne(vectors[k])
      requires vectors[k].Linked() && vectors[k].Step(old(vectors[k].storage))
      ensures Held() && Counted() && Disjoint() && Listed() && FilledBut(vectors[k].storage) && Younger()
      ensures vectors[k].Valid() ==> Filled()
      ensures forall i | 0 <= i < |vectors| && i != k ::
        vectors[i].Contents() == old(vectors[i].Contents()) && vectors[i].Capacity() == old(vectors[i].Capacity())
    {
      StepKeepsHeld(vectors[k]);
      StepKeepsCounted(vectors[k]);
      StepKeepsFilled(vectors[k]);
      StepKeepsDisjoint(vectors[k]);
    }

    /** The vector, perhaps a new one, left a buffer, which was freed if nobody holds it any more, and may
        have taken hold of another. */
    twostate predicate Moved(new p: Transfer<T>)
      reads this, members, heap, heap.live, set b | b in heap.live :: b.slots, p.v, p.v.storage, p.left, p.taken
    {
      && members == old(members) + {p.v} && p.v.heap == heap
      && (forall u | u in old(members) && u != p.v :: unchanged(u))
      && heap.live <= old(heap.live)
      && (forall b | b in old(heap.live) && b !in heap.live :: b == p.left && old(b.owners) <= {p.v})
      && (forall b | b in heap.live && b != p.left && b != p.taken :: unchanged(b) && p.v !in b.owners)
      && (forall b | b in heap.live :: unchanged(b.slots))
      && (forall b | b in old(heap.live) && b in heap.live && b == p.left :: Left(b, p.v))
      && (forall b | b in old(heap.live) && b in heap.live && b == p.taken && b != p.left :: Taken(b, p.v))
      && (p.v.storage == null || p.v.storage == p.left || p.v.storage == p.taken)
      && if p.v.storage == null then p.v.count == 0 else p.v.storage in heap.live && p.v.count == |p.v.storage.items|
    }

    twostate predicate Left(b: SharedBuffer<T>, new v: VectorImpl<T>)
      reads v, b
    {
      v in old(b.owners) && if v.storage == b then Same(b) else old(b.refs) > 1 && Lost(b, v)
    }

    twostate predicate Taken(b: SharedBuffer<T>, new v: VectorImpl<T>)
      reads v, b
    {
      v !in old(b.owners) && if v.storage == b then Gained(b, v) else Same(b)
    }

    twostate lemma MoveKeepsHeld(new p: Transfer<T>)
      requires old(Held() && Counted()) && Moved(p)
      ensures Held()
      ensures forall u | u in old(members) && u != p.v && u.storage != null :: u.storage.items == old(u.storage.items)
    {
    }

    twostate lemma MoveKeepsCounted(new p: Transfer<T>)
      requires old(Held() && Counted()) && Moved(p)
      ensures Counted()
    {
      forall b | b in heap.live ensures b.owners <= members && CountedOne(b) {
        assert b in old(heap.live) && old(CountedOne(b)) && old(b.owners <= members);
        if b == p.left {
          assert Left(b, p.v) && |old(b.owners) - {p.v}| == |old(b.owners)| - 1;
        } else if b == p.taken {
          assert Taken(b, p.v) && |old(b.owners) + {p.v}| == |old(b.owners)| + 1;
        } else {
          assert b.owners == old(b.owners) && b.refs == old(b.refs) && p.v !in b.owners;
        }
      }
    }

    twostate lemma MoveKeepsFilled(new p: Transfer<T>)
      requires old(Filled() && Disjoint()) && Moved(p)
      ensures Filled() && Disjoint()
    {
      forall b | b in heap.live ensures heap.Packed(b.slots, b.items) {
        assert old(heap.Packed(b.slots, b.items));
      }
    }

    twostate lemma MoveKeepsValid(new p: Transfer<T>)
      requires old(Valid()) && Moved(p) && Listed()
      ensures Valid()
      ensures forall u | u in old(members) && u != p.v && u.storage != null :: u.storage.items == old(u.storage.items)
    {
      MoveKeepsHeld(p);
      MoveKeepsCounted(p);
      MoveKeepsFilled(p);
    }

    lemma Enter(k: nat)
      requires Valid() && k < |vectors|
      ensures vectors[k] in members && vectors[k].Valid() && vectors[k].heap == heap
      ensures vectors[k].storage != null ==> vectors[k].storage in heap.live
      ensures vectors[k].Sole() ==> forall u | u in members && u != vectors[k] :: u.storage != vectors[k].storage
    {
      EachValid(vectors[k]);
      if vectors[k].Sole() {
        vectors[k].storage.SoleOwner(vectors[k]);
      }
    }

    lemma OwnsNoOther(k: nat)
      requires Valid() && k < |vectors|
      ensures forall b | b in heap.live && b != vectors[k].storage :: vectors[k] !in b.owners
      ensures vectors[k].Sole() ==> vectors[k].storage.owners == {vectors[k]}
    {
      if vectors[k].Sole() {
        EachValid(vectors[k]);
        vectors[k].storage.SoleOwner(vectors[k]);
      }
    }

    lemma OwnersAreMembers()
      requires Valid()
      ensures forall b | b in heap.live :: b.owners <= members
    {
    }

    lemma KeepApart(k: nat, l: nat)
      requires Valid() && k < |vectors| && l < |vectors|
      ensures vectors[k].Apart(vectors[l])
      ensures vectors[k].storage != null ==>
        forall b | b in heap.live && b != vectors[k].storage :: b.slots != vectors[k].storage.slots
    {
      hide Counted, Filled;
    }

    /** An operation on one vector, before the world takes note of it. */
    method Operate(k: nat, op: Op<T>) returns (ghost fill: seq<T>)
      requires Valid() && k < |vectors|
      modifies heap`live, heap`failures, vectors[k], vectors[k].storage, vectors[k].OwnSlots()
      ensures OnlyOne(vectors[k]) && vectors[k].Step(old(vectors[k].storage)) && heap.failures >= old(heap.failures)
      ensures if old(vectors[k].Breaks(op)) then vectors[k].Broken(op.index) else vectors[k].Valid()
      ensures vectors[k].Contents() == if heap.failures > old(heap.failures) then old(vectors[k].Contents())
        else Effect(old(vectors[k].Contents()), op, fill)
      ensures heap.failures == old(heap.failures) ==> Fills(old(vectors[k].Contents()), op, fill, heap.flags,
        heap.initial)
      ensures old(vectors[k].Breaks(op)) ==>
        && heap.failures == old(heap.failures) && vectors[k].Contents() == old(vectors[k].Contents())
        && vectors[k].Capacity() == old(vectors[k].Capacity())
      ensures vectors[k].Capacity() == if heap.failures > old(heap.failures) then old(vectors[k].Capacity())
        else RoomAfter(|old(vectors[k].Contents())|, old(vectors[k].Capacity()), op)
    {
      hide Counted, Filled, VectorImpl.Valid, VectorImpl.Broken, VectorImpl.Breaks, Effect, Fills;
      Enter(k);
      fill := vectors[k].Apply(op);
    }

    /** An operation on one vector takes its effect on that vector's sequence and on no other. */
    method Apply(k: nat, op: Op<T>) returns (ghost fill: seq<T>)
      requires Valid() && k < |vectors|
      modifies heap`live, heap`failures, vectors[k], vectors[k].storage, vectors[k].OwnSlots()
      ensures Listed() && Younger() && heap.failures >= old(heap.failures)
      ensures if old(vectors[k].Breaks(op)) then Ruined(k, op.index) else Valid()
      ensures forall i | 0 <= i < |vectors| && i != k ::
        vectors[i].Contents() == old(vectors[i].Contents()) && vectors[i].Capacity() == old(vectors[i].Capacity())
      ensures vectors[k].Contents() == if heap.failures > old(heap.failures) then old(vectors[k].Contents())
        else Effect(old(vectors[k].Contents()), op, fill)
      ensures heap.failures == old(heap.failures) ==> Fills(old(vectors[k].Contents()), op, fill, heap.flags,
        heap.initial)
      ensures old(vectors[k].Breaks(op)) ==>
        && heap.failures == old(heap.failures) && vectors[k].Contents() == old(vectors[k].Contents())
        && vectors[k].Capacity() == old(vectors[k].Capacity())
      ensures vectors[k].Capacity() == if heap.failures > old(heap.failures) then old(vectors[k].Capacity())
        else RoomAfter(|old(vectors[k].Contents())|, old(vectors[k].Capacity()), op)
    {
      fill := Operate(k, op);
      StepKeepsRest(k);
    }

    method OperateInsert(k: nat, src: nat, index: nat) returns (r: Status)
      requires Valid() && k < |vectors| && src < |vectors| && src != k
      modifies heap`live, heap`failures, vectors[k], vectors[k].storage, vectors[k].OwnSlots()
      ensures OnlyOne(vectors[k]) && vectors[k].Step(old(vectors[k].storage)) && heap.failures >= old(heap.failures)
      ensures if old(vectors[k].Loses(index, vectors[src].count)) then vectors[k].Broken(index) && r.Ok?
        else vectors[k].Valid()
      ensures !r.Ok? ==> vectors[k].Contents() == old(vectors[k].Contents())
      ensures r.Ok? ==> index <= |old(vectors[k].Contents())| && heap.failures == old(heap.failures)
      ensures r.Ok? ==> vectors[k].Contents() == Spliced(old(vectors[k].Contents()), index,
        old(vectors[src].Contents()))
      ensures r.Ok? || heap.failures > old(heap.failures) ||
              index > |old(vectors[k].Contents())| || old(vectors[src].Contents()) == []
      ensures vectors[k].Capacity() == if !r.Ok? then old(vectors[k].Capacity())
        else RoomToGrow(|old(vectors[k].Contents())| + |old(vectors[src].Contents())|, old(vectors[k].Capacity()))
    {
      hide Counted, Filled, VectorImpl.Valid, VectorImpl.Broken, VectorImpl.Loses, Spliced;
      Enter(k);
      Enter(src);
      r := vectors[k].InsertVectorAt(vectors[src], index);
    }

    /** Inserting one vector into another copies its items and leaves it as it is, shared buffer or not. */
    method InsertVector(k: nat, src: nat, index: nat) returns (r: Status)
      requires Valid() && k < |vectors| && src < |vectors| && src != k
      modifies heap`live, heap`failures, vectors[k], vectors[k].storage, vectors[k].OwnSlots()
      ensures Listed() && Younger() && heap.failures >= old(heap.failures)
      ensures if old(vectors[k].Loses(index, vectors[src].count)) then Ruined(k, index) && r.Ok? else Valid()
      ensures forall i | 0 <= i < |vectors| && i != k ::
        vectors[i].Contents() == old(vectors[i].Contents()) && vectors[i].Capacity() == old(vectors[i].Capacity())
      ensures !r.Ok? ==> vectors[k].Contents() == old(vectors[k].Contents())
      ensures r.Ok? ==> index <= |old(vectors[k].Contents())| && heap.failures == old(heap.failures)
      ensures r.Ok? ==> vectors[k].Contents() == Spliced(old(vectors[k].Contents()), index,
        old(vectors[src].Contents()))
      ensures r.Ok? || heap.failures > old(heap.failures) ||
              index > |old(vectors[k].Contents())| || old(vectors[src].Contents()) == []
      ensures vectors[k].Capacity() == if !r.Ok? then old(vectors[k].Capacity())
        else RoomToGrow(|old(vectors[k].Contents())| + |old(vectors[src].Contents())|, old(vectors[k].Capacity()))
    {
      r := OperateInsert(k, src, index);
      StepKeepsRest(k);
    }

    method NewVector(ghost view: seq<Shown<T>>)
      requires Valid() && Shows(view)
      modifies this
      ensures Valid() && Younger() && Shows(view + [Shown([], 0)])
    {
      hide Filled, Disjoint;
      var v := new VectorImpl(heap);
      vectors, members := vectors + [v], members + {v};
    }

    /** A new vector made as a copy, before the world takes note of it. */
    method MakeCopy(k: nat) returns (v: VectorImpl<T>)
      requires Valid() && k < |vectors|
      modifies this, vectors[k].storage
      ensures vectors == old(vectors) + [v] && Listed() && fresh(v) && v !in old(members)
      ensures Moved(Transfer(v, null, vectors[k].storage)) && v.Contents() == old(vectors[k].Contents())
      ensures v.Capacity() == old(vectors[k].Capacity())
    {
      hide Held, Counted, Filled, Disjoint;
      Enter(k);
      OwnersAreMembers();
      v := new VectorImpl.Copy(vectors[k]);
      assert v !in members;
      vectors, members := vectors + [v], members + {v};
      assert forall b | b in heap.live && b != v.storage :: unchanged(b) && v !in b.owners;
      assert v.storage != null ==> Taken(v.storage, v);
    }

    /** A copy is equal to the vector it was made from, and leaves every vector as it is. */
    method CopyOf(k: nat, ghost view: seq<Shown<T>>)
      requires Valid() && k < |vectors| && Shows(view)
      modifies this, vectors[k].storage
      ensures Valid() && Younger() && Shows(view + [view[k]])
    {
      var v := MakeCopy(k);
      MoveKeepsValid(Transfer(v, null, vectors[k].storage));
    }

    /** Assignment between two vectors, before the world takes note of it. */
    method Reassign(k: nat, src: nat)
      requires Valid() && k < |vectors| && src < |vectors| && k != src
      modifies heap`live, vectors[k], vectors[k].storage, vectors[k].OwnSlots(), vectors[src].storage
      ensures Moved(Transfer(vectors[k], old(vectors[k].storage), vectors[src].storage)) &&
        vectors[k].Contents() == old(vectors[src].Contents())
      ensures vectors[k].Capacity() == if old(vectors[src].count) == 0 then 0 else old(vectors[src].Capacity())
    {
      hide Held, Counted, Filled, Disjoint, Same, Lost, Gained;
      Enter(k);
      Enter(src);
      OwnsNoOther(k);
      KeepApart(k, src);
      AddsNothing(members, vectors[k]);
      vectors[k].Assign(vectors[src]);
    }

    /** Assignment makes one vector equal to another, and leaves every other as it is. */
    method Assign(k: nat, src: nat, ghost view: seq<Shown<T>>)
      requires Valid() && k < |vectors| && src < |vectors| && Shows(view)
      modifies heap`live, vectors[k], vectors[k].storage, vectors[k].OwnSlots(), vectors[src].storage
      ensures Valid() && Younger() && Shows(if k == src then view else view[k := Assigned(view[src])])
    {
      if k != src {
        CountsItems(src);
        Reassign(k, src);
        MoveKeepsValid(Transfer(vectors[k], old(vectors[k].storage), vectors[src].storage));
      }
    }

    /** The action destroys items of the vector it edits. */
    predicate Breaks(a: Action<T>)
      reads this, vectors
    {
      match a
      case InsertFrom(k, src, index) =>
        k < |vectors| && src < |vectors| && vectors[k].Loses(index, vectors[src].count)
      case Apply(k, op) => k < |vectors| && vectors[k].Breaks(op)
      case _ => false
    }

    method ActInsert(k: nat, src: nat, index: nat, ghost view: seq<Shown<T>>) returns (ghost o: Outcome<T>)
      requires Valid() && Shows(view) && k < |vectors| && src < |vectors| && src != k
      modifies heap`live, heap`failures, vectors[k], vectors[k].storage, vectors[k].OwnSlots()
      ensures Listed() && Younger() && Shows(Acted(view, InsertFrom(k, src, index), o))
      ensures o.Spoiled? <==> old(vectors[k].Loses(index, vectors[src].count))
      ensures if o.Spoiled? then Ruined(k, index) else Valid()
      ensures heap.failures >= old(heap.failures) && (o.Failed? <==> heap.failures > old(heap.failures))
    {
      hide Held, Counted, Filled, FilledBut, Disjoint, Younger, Acted, Spliced;
      ghost var spoiled := vectors[k].Loses(index, vectors[src].count);
      CountsItems(src);
      CountsItems(k);
      var r := InsertVector(k, src, index);
      o := if spoiled then Spoiled else if heap.failures > old(heap.failures) then Failed else Done([]);
      InsertMeans(view, k, src, index, r.Ok?, o, Shown(vectors[k].Contents(), vectors[k].Capacity()));
    }

    lemma CountsItems(k: nat)
      requires Valid() && k < |vectors|
      ensures vectors[k].count == |vectors[k].Contents()| <= vectors[k].Capacity()
    {
      EachValid(vectors[k]);
      vectors[k].CountsContents();
    }

    method ActApply(k: nat, op: Op<T>, ghost view: seq<Shown<T>>) returns (ghost o: Outcome<T>)
      requires Valid() && Shows(view) && k < |vectors|
      modifies heap`live, heap`failures, vectors[k], vectors[k].storage, vectors[k].OwnSlots()
      ensures Listed() && Younger() && Shows(Acted(view, Action.Apply(k, op), o))
      ensures o.Done? ==> Fills(view[k].items, op, o.fill, heap.flags, heap.initial)
      ensures o.Spoiled? <==> old(vectors[k].Breaks(op))
      ensures if o.Spoiled? then Ruined(k, op.index) else Valid()
      ensures heap.failures >= old(heap.failures) && (o.Failed? <==> heap.failures > old(heap.failures))
    {
      hide Held, Counted, Filled, FilledBut, Disjoint, Younger, Effect, Fills;
      ghost var spoiled := vectors[k].Breaks(op);
      ghost var fill := Apply(k, op);
      o := if spoiled then Spoiled else if heap.failures > old(heap.failures) then Failed else Done(fill);
    }

    /** What destroys items shows in the view. */
    lemma BreaksAsEndangered(a: Action<T>, view: seq<Shown<T>>)
      requires Valid() && Shows(view)
      ensures Breaks(a) <==> Endangers(view, a, heap.flags)
    {
      hide Counted, Filled, Disjoint;
      forall k | 0 <= k < |vectors| ensures vectors[k].count == |view[k].items| && vectors[k].heap == heap {
        CountsItems(k);
      }
    }

    /** One action: it comes out with items lost exactly if it breaks its vector, and then no other is affected. */
    method Act(a: Action<T>, ghost view: seq<Shown<T>>) returns (ghost o: Outcome<T>)
      requires Valid() && Shows(view) && (a.InsertFrom? ==> a.k != a.src)
      modifies this, heap, members, heap.live, set b | b in heap.live :: b.slots
      ensures Listed() && Younger() && Shows(Acted(view, a, o)) && Possible(view, a, o, heap.flags, heap.initial)
      ensures o.Spoiled? <==> old(Breaks(a))
      ensures if o.Spoiled? then (a.InsertFrom? || a.Apply?) && Ruined(a.k, IndexOf(a)) else Valid()
      ensures heap.failures >= old(heap.failures) && (o.Failed? <==> heap.failures > old(heap.failures))
    {
      BreaksAsEndangered(a, view);
      o := Done([]);
      match a
      case New => NewVector(view);
      case CopyOf(k) => if k < |vectors| { CopyOf(k, view); }
      case Assign(k, src) => if k < |vectors| && src < |vectors| { Assign(k, src, view); }
      case InsertFrom(k, src, index) => if k < |vectors| && src < |vectors| { o := ActInsert(k, src, index, view); }
      case Apply(k, op) => if k < |vectors| { o := ActApply(k, op, view); }
    }

    /** Over any run of actions every vector equals its own sequence, however the buffers came to be shared, up to the
        first action that endangers items, which destroys them, and which no other vector notices. */
    method Play(actions: seq<Action<T>>, ghost view: seq<Shown<T>>) returns (ghost outcomes: seq<Outcome<T>>)
      requires Valid() && Shows(view)
      requires forall a | a in actions && a.InsertFrom? :: a.k != a.src
      modifies this, heap, members, heap.live, set b | b in heap.live :: b.slots
      ensures |outcomes| <= |actions| && Listed() && Shows(Played(view, actions[..|outcomes|], outcomes))
      ensures AllPossible(view, actions, outcomes, heap.flags, heap.initial)
      ensures forall i | 0 <= i < |outcomes| - 1 :: !outcomes[i].Spoiled?
      ensures if |outcomes| > 0 && outcomes[|outcomes| - 1].Spoiled? then
          var a := actions[|outcomes| - 1];
          (a.InsertFrom? || a.Apply?) && Ruined(a.k, IndexOf(a))
        else Valid() && |outcomes| == |actions|
      ensures AllSafe(view, actions, outcomes, heap.flags) ==> Valid() && |outcomes| == |actions|
      ensures heap.failures == old(heap.failures) <==> NoneFailed(outcomes)
    {
      hide Held, Counted, Filled, Disjoint, Listed, Shows, Ruined;
      hide Played, Acted, Possible, AllPossible, AllSafe, NoneFailed;
      outcomes := [];
      PlayBegins(view, actions, heap.flags, heap.initial);
      for i := 0 to |actions|
        invariant Valid() && Younger() && |outcomes| == i && Shows(Played(view, actions[..i], outcomes))
        invariant AllPossible(view, actions, outcomes, heap.flags, heap.initial)
        invariant forall j | 0 <= j < i :: !outcomes[j].Spoiled?
        invariant heap.failures >= old(heap.failures)
        invariant heap.failures == old(heap.failures) <==> NoneFailed(outcomes)
      {
        var broken := Breaks(actions[i]);
        ghost var o := Act(actions[i], Played(view, actions[..i], outcomes));
        PlayedOne(view, actions, outcomes, o);
        NoneFailedSnoc(outcomes, o);
        PlayedOn(view, actions, outcomes, o, heap.flags, heap.initial);
        outcomes := outcomes + [o];
        if broken {
          if AllSafe(view, actions, outcomes, heap.flags) {
            SafeIsNotSpoiled(view, actions, outcomes, heap.flags, heap.initial, i);
          }
          return;
        }
      }
      assert actions[..|actions|] == actions;
    }
  }
}
