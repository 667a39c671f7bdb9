/** The heap of copy-on-write vectors: reference-counted buffers of raw or constructed item slots,
    the vectors that hold them, and the item operations a vector applies to a range of slots. */
module CopyOnWrite {
  import opened Options
  import opened StableSort

  /** One item-sized piece of storage: raw memory, or a constructed item. */
  datatype Slot<+T> = Raw | Live(item: T)

  /** The item type's HAS_TRIVIAL_* flags, and whether its items may be moved as bytes whatever their destructor. */
  datatype Flags = Flags(trivialCtor: bool, trivialDtor: bool, trivialCopy: bool, trivialMove: bool)

  /** The items constructed in slots `lo` to `hi`. */
  function Items<T>(s: seq<Slot<T>>, lo: nat, hi: nat): (r: seq<T>)
    requires lo <= hi <= |s|
    requires forall i | lo <= i < hi :: s[i].Live?
    ensures |r| == hi - lo
    ensures forall i | 0 <= i < |r| :: s[lo + i] == Live(r[i])
  {
    seq(hi - lo, i requires 0 <= i < hi - lo => s[lo + i].item)
  }

  /** Reference-counted storage. `owners` and `items` say who holds it and what it holds. */
  class SharedBuffer<T(0)> {
    const slots: array<Slot<T>>
    var refs: nat
    ghost var owners: set<VectorImpl<T>>
    ghost var items: seq<T>

    constructor (capacity: nat)
      ensures refs == 1 && fresh(slots) && slots.Length == capacity
      ensures forall i | 0 <= i < capacity :: slots[i] == Raw
    {
      slots := new Slot<T>[capacity](_ => Raw);
      refs := 1;
    }

    /** The count is exact, and every owner sees these items. */
    ghost predicate Shared()
      reads this, owners
    {
      && 0 < refs == |owners|
      && forall v | v in owners :: v.storage == this && v.count == |items|
    }

    /** The only owner of a buffer counted once. */
    lemma SoleOwner(v: VectorImpl<T>)
      requires Shared() && refs == 1 && v in owners
      ensures owners == {v}
    {
      assert |owners - {v}| == 0;
    }
  }

  /** The item type, and the buffers of such items that are allocated and not yet freed. */
  class Heap<T(0)> {
    const flags: Flags
    /** What the item type's default constructor builds. */
    const initial: T
    ghost var live: set<SharedBuffer<T>>
    /** How many allocations have returned NULL so far. */
    ghost var failures: nat

    constructor (flags: Flags, initial: T)
      ensures live == {} && failures == 0
      ensures this.flags == flags && this.initial == initial
    {
      this.flags, this.initial := flags, initial;
      live, failures := {}, 0;
    }

    /** The constructed slots are exactly the first `|items|`; items with no destructor may leave
        their bytes behind. */
    ghost predicate Packed(a: array<Slot<T>>, items: seq<T>)
      reads a
    {
      && |items| <= a.Length
      && (forall i | 0 <= i < |items| :: a[i] == Live(items[i]))
      && Writable(a, |items|, a.Length)
    }

    /** What `SharedBuffer::alloc` may do: give a buffer nobody else has, or fail. */
    method Alloc(capacity: nat) returns (b: SharedBuffer?<T>)
      modifies this`live, this`failures
      ensures b == null ==> live == old(live) && failures == old(failures) + 1
      ensures b != null ==> live == old(live) + {b} && failures == old(failures)
      ensures b != null ==> fresh(b) && fresh(b.slots) && b.refs == 1 && b.slots.Length == capacity
      ensures b != null ==> forall i | 0 <= i < capacity :: b.slots[i] == Raw
    {
      if * {
        b := null;
        failures := failures + 1;
      } else {
        b := new SharedBuffer(capacity);
        live := live + {b};
      }
    }

    /** An allocation whose failure aborts the process. */
    method AllocOrAbort(capacity: nat) returns (b: SharedBuffer<T>)
      modifies this`live
      ensures live == old(live) + {b}
      ensures fresh(b) && fresh(b.slots) && b.refs == 1 && b.slots.Length == capacity
      ensures forall i | 0 <= i < capacity :: b.slots[i] == Raw
    {
      b := new SharedBuffer(capacity);
      live := live + {b};
    }

    /** Storage may be given back only when every constructed item in it has been destroyed. */
    method Dealloc(b: SharedBuffer<T>)
      requires b in live && b.refs == 0
      requires Writable(b.slots, 0, b.slots.Length)
      modifies this`live
      ensures live == old(live) - {b}
    {
      live := live - {b};
    }

    // ---- item operations on ranges of slots; each states when it is legal ----

    /** A slot may be constructed into only if that overwrites no item with a destructor. */
    ghost predicate Writable(a: array<Slot<T>>, lo: nat, hi: nat)
      requires hi <= a.Length
      reads a
    {
      !flags.trivialDtor ==> forall i | lo <= i < hi :: a[i] == Raw
    }

    /** The array holds `items` with a gap of `amount` free slots at `where`, and nothing after them. */
    ghost predicate Room(a: array<Slot<T>>, where: nat, amount: nat, items: seq<T>)
      requires where <= |items|
      reads a
    {
      && |items| + amount <= a.Length
      && (forall i | 0 <= i < where :: a[i] == Live(items[i]))
      && (forall i | where + amount <= i < |items| + amount :: a[i] == Live(items[i - amount]))
      && Writable(a, where, where + amount)
      && Writable(a, |items| + amount, a.Length)
    }

    method DoConstruct(a: array<Slot<T>>, lo: nat, n: nat)
      requires lo + n <= a.Length && Writable(a, lo, lo + n)
      modifies a
      ensures forall i | 0 <= i < a.Length && !(lo <= i < lo + n) :: a[i] == old(a[i])
      ensures forall i | lo <= i < lo + n :: a[i].Live? && (!flags.trivialCtor ==> a[i].item == initial)
    {
      for k := 0 to n
        invariant forall i | 0 <= i < a.Length && !(lo <= i < lo + k) :: a[i] == old(a[i])
        invariant forall i | lo <= i < lo + k :: a[i].Live? && (!flags.trivialCtor ==> a[i].item == initial)
      {
        // a trivially constructed item holds whatever the memory held
        var garbage: T := *;
        a[lo + k] := Live(if flags.trivialCtor then garbage else initial);
      }
    }

    method DoDestroy(a: array<Slot<T>>, lo: nat, n: nat)
      requires lo + n <= a.Length
      requires !flags.trivialDtor ==> forall i | lo <= i < lo + n :: a[i].Live?
      modifies a
      ensures forall i | 0 <= i < a.Length :: a[i] == if !flags.trivialDtor && lo <= i < lo + n then Raw else old(a[i])
    {
      if !flags.trivialDtor {
        for k := 0 to n
          invariant forall i | 0 <= i < a.Length :: a[i] == if lo <= i < lo + k then Raw else old(a[i])
        {
          a[lo + k] := Raw;
        }
      }
    }

    method DoCopy(dest: array<Slot<T>>, to: nat, src: array<Slot<T>>, from: nat, n: nat)
      requires dest != src || n == 0 || to + n <= from || from + n <= to
      requires to + n <= dest.Length && Writable(dest, to, to + n)
      requires from + n <= src.Length && forall i | from <= i < from + n :: src[i].Live?
      modifies dest
      ensures forall i | 0 <= i < dest.Length ::
        dest[i] == if to <= i < to + n then old(src[from + i - to]) else old(dest[i])
    {
      for k := 0 to n
        invariant forall i | 0 <= i < dest.Length ::
          dest[i] == if to <= i < to + k then old(src[from + i - to]) else old(dest[i])
      {
        dest[to + k] := src[from + k];
      }
    }

    /** Destroy one item and copy another over it. */
    method Overwrite(dest: array<Slot<T>>, to: nat, src: array<Slot<T>>, from: nat)
      requires to < dest.Length && from < src.Length && (dest == src ==> to != from)
      requires dest[to].Live? && src[from].Live?
      modifies dest
      ensures forall i | 0 <= i < dest.Length :: dest[i] == if i == to then old(src[from]) else old(dest[i])
    {
      DoDestroy(dest, to, 1);
      DoCopy(dest, to, src, from, 1);
    }

    /** `realloc`'s move of the bytes, constructed or not. */
    method MoveBytes(dest: array<Slot<T>>, src: array<Slot<T>>, n: nat)
      requires dest != src && n <= dest.Length && n <= src.Length
      modifies dest
      ensures forall i | 0 <= i < dest.Length :: dest[i] == if i < n then src[i] else old(dest[i])
    {
      for k := 0 to n
        invariant forall i | 0 <= i < dest.Length :: dest[i] == if i < k then src[i] else old(dest[i])
      {
        dest[k] := src[k];
      }
    }

    method DoSplat(a: array<Slot<T>>, lo: nat, item: T, n: nat)
      requires lo + n <= a.Length && Writable(a, lo, lo + n)
      modifies a
      ensures forall i | 0 <= i < a.Length :: a[i] == if lo <= i < lo + n then Live(item) else old(a[i])
    {
      for k := 0 to n
        invariant forall i | 0 <= i < a.Length :: a[i] == if lo <= i < lo + k then Live(item) else old(a[i])
      {
        a[lo + k] := Live(item);
      }
    }

    /** A move by no slots constructs each item over itself and then destroys it, unless items are moved as bytes or
        have no destructor. */
    predicate Wipes(gap: nat)
    {
      gap == 0 && !flags.trivialDtor && !flags.trivialMove
    }

    /** memmove: the bytes of `n` items go to another place or stay, and no item is left where they were. */
    method MoveItems(a: array<Slot<T>>, from: nat, to: nat, n: nat, ghost s: seq<T>)
      requires from + n <= a.Length && to + n <= a.Length && n == |s|
      requires forall i | from <= i < from + n :: a[i] == Live(s[i - from])
      modifies a
      ensures forall i | 0 <= i < a.Length && !(from <= i < from + n) && !(to <= i < to + n) :: a[i] == old(a[i])
      ensures forall i | to <= i < to + n :: a[i] == Live(s[i - to])
      ensures !flags.trivialDtor ==> forall i | from <= i < from + n && !(to <= i < to + n) :: a[i] == Raw
    {
      var bytes := a[from..from + n];
      if !flags.trivialDtor {
        for k := 0 to n
          invariant forall i | 0 <= i < a.Length :: a[i] == if from <= i < from + k then Raw else old(a[i])
        {
          a[from + k] := Raw;
        }
      }
      label Lifted:
      for k := 0 to n
        invariant forall i | 0 <= i < a.Length && !(to <= i < to + k) :: a[i] == old@Lifted(a[i])
        invariant forall i | to <= i < to + k :: a[i] == Live(s[i - to])
      {
        a[to + k] := bytes[k];
      }
    }

    /** Move `n` items up by `gap` slots: as bytes, or last item first, each copied to where it goes and then destroyed
        where it was. */
    method DoMoveForward(a: array<Slot<T>>, from: nat, gap: nat, n: nat, ghost s: seq<T>)
      requires from + gap + n <= a.Length && n == |s|
      requires forall i | from <= i < from + n :: a[i] == Live(s[i - from])
      requires Writable(a, from + n, from + gap + n)
      modifies a
      ensures forall i | 0 <= i < a.Length && !(from <= i < from + gap + n) :: a[i] == old(a[i])
      ensures forall i | from + gap <= i < from + gap + n ::
        a[i] == if Wipes(gap) then Raw else Live(s[i - from - gap])
      ensures Writable(a, from, from + gap)
    {
      if flags.trivialMove || (flags.trivialDtor && flags.trivialCopy) {
        MoveItems(a, from, from + gap, n, s);
        return;
      }
      var k := n;
      while k > 0
        invariant 0 <= k <= n
        invariant forall i | 0 <= i < a.Length && !(from <= i < from + gap + n) :: a[i] == old(a[i])
        invariant forall i | from <= i < from + k :: a[i] == Live(s[i - from])
        invariant forall i | from + gap + k <= i < from + gap + n ::
          a[i] == if Wipes(gap) then Raw else Live(s[i - from - gap])
        invariant Writable(a, from + k, from + gap + k)
      {
        k := k - 1;
        a[from + gap + k] := a[from + k];
        if !flags.trivialDtor {
          a[from + k] := Raw;
        }
      }
    }

    /** Move `n` items down by `gap` slots: as bytes, or first item first. */
    method DoMoveBackward(a: array<Slot<T>>, to: nat, gap: nat, n: nat, ghost s: seq<T>)
      requires to + gap + n <= a.Length && n == |s|
      requires forall i | to + gap <= i < to + gap + n :: a[i] == Live(s[i - to - gap])
      requires Writable(a, to, to + gap)
      modifies a
      ensures forall i | 0 <= i < a.Length && !(to <= i < to + gap + n) :: a[i] == old(a[i])
      ensures forall i | to <= i < to + n :: a[i] == if Wipes(gap) then Raw else Live(s[i - to])
      ensures Writable(a, to + n, to + gap + n)
    {
      if flags.trivialMove || (flags.trivialDtor && flags.trivialCopy) {
        MoveItems(a, to + gap, to, n, s);
        return;
      }
      for k := 0 to n
        invariant forall i | 0 <= i < a.Length && !(to <= i < to + gap + n) :: a[i] == old(a[i])
        invariant forall i | to + gap + k <= i < to + gap + n :: a[i] == Live(s[i - to - gap])
        invariant forall i | to <= i < to + k :: a[i] == if Wipes(gap) then Raw else Live(s[i - to])
        invariant Writable(a, to + k, to + gap + k)
      {
        a[to + k] := a[to + gap + k];
        if !flags.trivialDtor {
          a[to + gap + k] := Raw;
        }
      }
    }

    /** The items from `from` on have been destroyed where they were. */
    ghost predicate Wiped(a: array<Slot<T>>, from: nat, items: seq<T>)
      reads a
    {
      && from < |items| <= a.Length
      && (forall i | 0 <= i < from :: a[i] == Live(items[i]))
      && (forall i | from <= i < a.Length :: a[i] == Raw)
    }

    /** Copy `items` into free storage. */
    method CopyAll(dest: array<Slot<T>>, src: array<Slot<T>>, n: nat, ghost items: seq<T>)
      requires dest != src && n == |items| && Packed(src, items) && n <= dest.Length
      requires Writable(dest, 0, dest.Length)
      modifies dest
      ensures Packed(dest, items)
    {
      DoCopy(dest, 0, src, 0, n);
    }

    /** Copy `items` into free storage, leaving a gap. */
    method CopyAround(dest: array<Slot<T>>, src: array<Slot<T>>, where: nat, amount: nat, n: nat, ghost items: seq<T>)
      requires dest != src && n == |items| && Packed(src, items) && where <= n && n + amount <= dest.Length
      requires Writable(dest, 0, dest.Length)
      modifies dest
      ensures Room(dest, where, amount, items)
    {
      if where != 0 {
        DoCopy(dest, 0, src, 0, where);
      }
      forall i | 0 <= i < where ensures dest[i] == Live(items[i]) {
        assert src[i] == Live(items[i]);
      }
      if where != n {
        DoCopy(dest, where + amount, src, where, n - where);
      }
      forall i | where + amount <= i < n + amount ensures dest[i] == Live(items[i - amount]) {
        assert src[i - amount] == Live(items[i - amount]);
      }
    }

    /** Copy `items` into free storage, leaving out some. */
    method CopyWithout(dest: array<Slot<T>>, src: array<Slot<T>>, where: nat, amount: nat, n: nat, ghost items: seq<T>)
      requires dest != src && n == |items| && Packed(src, items) && where + amount <= n && n - amount <= dest.Length
      requires Writable(dest, 0, dest.Length)
      modifies dest
      ensures Packed(dest, Cut(items, where, amount))
    {
      if where != 0 {
        DoCopy(dest, 0, src, 0, where);
      }
      if where != n - amount {
        DoCopy(dest, where, src, where + amount, n - amount - where);
      }
    }

    /** Open a gap in place. */
    method OpenUp(a: array<Slot<T>>, where: nat, amount: nat, n: nat, ghost items: seq<T>)
      requires n == |items| && Packed(a, items) && where <= n && n + amount <= a.Length
      modifies a
      ensures if where < n && Wipes(amount) then Wiped(a, where, items) else Room(a, where, amount, items)
    {
      if where != n {
        DoMoveForward(a, where, amount, n - where, items[where..]);
      }
    }

    /** Destroy some items and move the later ones down. */
    method CloseUp(a: array<Slot<T>>, where: nat, amount: nat, n: nat, ghost items: seq<T>)
      requires n == |items| && Packed(a, items) && where + amount <= n
      modifies a
      ensures if where < n && Wipes(amount) then Wiped(a, where, items) else Packed(a, Cut(items, where, amount))
    {
      DoDestroy(a, where, amount);
      if where != n - amount {
        DoMoveBackward(a, where, amount, n - amount - where, items[where + amount..]);
      }
    }

    /** Fill free slots with copies of `item`, or with default-constructed items if there is none. */
    method Place(a: array<Slot<T>>, item: Option<T>, index: nat, n: nat) returns (ghost fill: seq<T>)
      requires index + n <= a.Length && Writable(a, index, index + n)
      modifies a
      ensures forall i | 0 <= i < a.Length && !(index <= i < index + n) :: a[i] == old(a[i])
      ensures |fill| == n && forall i | index <= i < index + n :: a[i] == Live(fill[i - index])
      ensures item.Some? ==> fill == Splat(item.value, n)
      ensures item.None? && !flags.trivialCtor ==> fill == Splat(initial, n)
    {
      if item.Some? {
        DoSplat(a, index, item.value, n);
      } else {
        DoConstruct(a, index, n);
      }
      fill := Items(a[..], index, index + n);
      forall i | index <= i < index + n ensures a[i] == Live(fill[i - index]) {
        var k := i - index;
        assert a[index + k] == Live(fill[k]);
      }
    }

    /** Copy items from an array into the room: `items` with them spliced in. */
    method FillByCopy(a: array<Slot<T>>, where: nat, src: array<Slot<T>>, n: nat, ghost items: seq<T>)
      requires where <= |items| && a != src && (Room(a, where, n, items) || (n == 0 && Wiped(a, where, items)))
      requires n <= src.Length && forall i | 0 <= i < n :: src[i].Live?
      modifies a
      ensures old(Room(a, where, n, items)) ==> Packed(a, Spliced(items, where, Items(src[..], 0, n)))
      ensures n == 0 && old(Wiped(a, where, items)) ==> Wiped(a, where, items)
    {
      DoCopy(a, where, src, 0, n);
      ghost var fill := Items(src[..], 0, n);
      assert forall i | where <= i < where + n :: a[i] == Live(fill[i - where]);
    }

    /** Fill the room with copies of `item`, or with default-constructed items if there is none. */
    method FillByItem(a: array<Slot<T>>, where: nat, item: Option<T>, n: nat, ghost items: seq<T>)
      returns (ghost fill: seq<T>)
      requires where <= |items| && (Room(a, where, n, items) || (n == 0 && Wiped(a, where, items)))
      modifies a
      ensures |fill| == n && (old(Room(a, where, n, items)) ==> Packed(a, Spliced(items, where, fill)))
      ensures n == 0 && old(Wiped(a, where, items)) ==> Wiped(a, where, items)
      ensures item.Some? ==> fill == Splat(item.value, n)
      ensures item.None? && !flags.trivialCtor ==> fill == Splat(initial, n)
    {
      fill := Place(a, item, where, n);
    }

    /** Shift right by one the items before item `i` that belong strictly after the one in `temp`, over item `i`. */
    method ShiftRight(a: array<Slot<T>>, i: nat, temp: array<Slot<T>>, cmp: Comparator<T>, ghost s: seq<T>)
      returns (p: nat)
      requires 0 < i < |s| <= a.Length && a != temp && temp.Length == 1 && temp[0] == Live(s[i])
      requires (forall k | 0 <= k <= i :: a[k] == Live(s[k])) && cmp(s[i - 1], s[i]) > 0
      modifies a
      ensures p < i && (p == 0 || cmp(s[p - 1], s[i]) <= 0)
      ensures forall k | p <= k < i :: cmp(s[k], s[i]) > 0
      ensures forall k | 0 <= k <= p :: a[k] == Live(s[k])
      ensures forall k | p < k <= i :: a[k] == Live(s[k - 1])
      ensures forall k | i < k < a.Length :: a[k] == old(a[k])
    {
      var j: int := i - 1;
      Overwrite(a, i, a, j);
      j := j - 1;
      while j >= 0 && cmp(a[j].item, temp[0].item) > 0
        invariant -1 <= j < i - 1
        invariant forall k | 0 <= k <= j + 1 :: a[k] == Live(s[k])
        invariant forall k | j + 1 < k <= i :: a[k] == Live(s[k - 1])
        invariant forall k | i < k < a.Length :: a[k] == old(a[k])
        invariant forall k | j + 1 <= k < i :: cmp(s[k], s[i]) > 0
      {
        Overwrite(a, j + 1, a, j);
        j := j - 1;
      }
      p := j + 1;
    }

    /** Move item `i` left past the items before it that belong strictly after it, to place `p`. */
    method InsertionStep(a: array<Slot<T>>, i: nat, temp: array<Slot<T>>, cmp: Comparator<T>,
      ghost s: seq<T>) returns (ghost p: nat)
      requires 0 < i < |s| && a != temp && temp.Length == 1 && Writable(temp, 0, 1)
      requires Packed(a, s) && cmp(s[i - 1], s[i]) > 0
      modifies a, temp
      ensures temp[0].Live? && p < i
      ensures Packed(a, Moved(s, i, p))
      ensures p == 0 || cmp(s[p - 1], s[i]) <= 0
      ensures forall k | p <= k < i :: cmp(s[k], s[i]) > 0
    {
      DoCopy(temp, 0, a, i, 1);
      var place := ShiftRight(a, i, temp, cmp, s);
      Overwrite(a, place, temp, 0);
      p := place;
    }
  }

  /** What an operation reports: the index it worked at, or why it did nothing. */
  datatype Status = Ok(index: nat) | BadIndex | BadValue | NoMemory

  function Spliced<T>(s: seq<T>, index: nat, fill: seq<T>): seq<T>
    requires index <= |s|
  {
    s[..index] + fill + s[index..]
  }

  function Cut<T>(s: seq<T>, index: nat, n: nat): seq<T>
    requires index + n <= |s|
  {
    s[..index] + s[index + n..]
  }

  function Splat<T>(item: T, n: nat): seq<T>
  {
    seq(n, _ => item)
  }

  /** An operation on one vector. */
  datatype Op<!T> =
    | Insert(item: Option<T>, index: nat, n: nat)
    | Remove(index: nat, n: nat)
    | Replace(item: Option<T>, index: nat)
    | Resize(size: nat)
    | SetCapacity(capacity: nat)
    | Clear
    | Finish
    | Sort(cmp: Comparator<T>)

  /** What an operation makes of a sequence when storage can be had; `fill` are the items it put in. */
  function Effect<T>(s: seq<T>, op: Op<T>, fill: seq<T>): seq<T>
  {
    match op
    case Insert(_, index, _) => if index <= |s| then Spliced(s, index, fill) else s
    case Remove(index, n) => if index + n <= |s| then Cut(s, index, n) else s
    case Replace(_, index) => if index < |s| && |fill| == 1 then s[index := fill[0]] else s
    case Resize(size) => (if size < |s| then s[..size] else s) + fill
    case SetCapacity(_) => s
    case Clear => []
    case Finish => []
    case Sort(cmp) => InsertionSorted(s, cmp)
  }

  /** The items an operation may put in: as many as it was asked for, copies of the item given, or
      what the default constructor builds if it does anything. */
  ghost predicate Fills<T>(s: seq<T>, op: Op<T>, fill: seq<T>, flags: Flags, initial: T)
  {
    match op
    case Insert(item, index, n) =>
      index <= |s| ==>
        |fill| == n && (item.Some? ==> fill == Splat(item.value, n))
        && (item.None? && !flags.trivialCtor ==> fill == Splat(initial, n))
    case Replace(item, index) =>
      index < |s| ==>
        |fill| == 1 && (item.Some? ==> fill == [item.value]) && (item.None? && !flags.trivialCtor ==> fill == [initial])
    case Resize(size) =>
      |fill| == (if size > |s| then size - |s| else 0) && (!flags.trivialCtor ==> fill == Splat(initial, |fill|))
    case _ => true
  }

  const MIN_VECTOR_CAPACITY: nat := 4

  /** The capacity `_grow` allocates for `size` items. */
  function GrownCapacity(size: nat): (c: nat)
    ensures size < c
  {
    var c := size + size / 2 + 1;
    if c > MIN_VECTOR_CAPACITY then c else MIN_VECTOR_CAPACITY
  }

  /** The capacity `_shrink` allocates for `size` items. */
  function ShrunkCapacity(size: nat): (c: nat)
    ensures size < c
  {
    if size * 2 > MIN_VECTOR_CAPACITY then size * 2 else MIN_VECTOR_CAPACITY
  }

  /** The capacity once there is room for `size` items, and once it is cut back to them. */
  function RoomToGrow(size: nat, room: nat): nat
  {
    if room < size then GrownCapacity(size) else room
  }

  function RoomToShrink(size: nat, room: nat): nat
  {
    if size < room / 2 then ShrunkCapacity(size) else room
  }

  /** The capacity of a vector of `n` items after an operation, when storage can be had. */
  function RoomAfter<T>(n: nat, room: nat, op: Op<T>): nat
  {
    match op
    case Insert(_, index, k) => if index <= n then RoomToGrow(n + k, room) else room
    case Remove(index, k) => if index + k <= n then RoomToShrink(n - k, room) else room
    case Replace(_, _) => room
    case Resize(size) =>
      if size > n then RoomToGrow(size, room) else if size < n then RoomToShrink(size, room) else room
    case SetCapacity(capacity) => if capacity <= n then room else capacity
    case Clear => RoomToShrink(0, room)
    case Finish => 0
    case Sort(_) => room
  }

  /** The live buffers when one is left, and freed if it was held alone, and another is taken. */
  ghost function Swapped<T(0)>(live: set<SharedBuffer<T>>, sole: bool, b: SharedBuffer?<T>, taken: SharedBuffer?<T>):
    set<SharedBuffer?<T>>
  {
    live - (if sole then {b} else {}) + (if taken == null then {} else {taken})
  }

  lemma SwappedFor<T(0)>(live: set<SharedBuffer<T>>, sole: bool, b: SharedBuffer?<T>, taken: SharedBuffer<T>)
    requires b != taken && (sole ==> b != null)
    ensures Swapped(live, sole, b, taken) == if sole then live + {taken} - {b} else live + {taken}
  {
  }

  lemma SwappedFrom<T(0)>(live: set<SharedBuffer<T>>, sole: bool, b: SharedBuffer?<T>, taken: SharedBuffer?<T>)
    ensures forall c | c in Swapped(live, sole, b, taken) && c != taken :: c in live && (sole ==> c != b)
  {
  }

  /** A buffer taken in between, and held alone, leaves no trace. */
  lemma SwappedTwice<T(0)>(live: set<SharedBuffer<T>>, sole: bool, b: SharedBuffer?<T>, sole': bool,
    b': SharedBuffer?<T>, taken: SharedBuffer?<T>)
    requires sole ==> b != null
    requires if b' == b then sole' == sole && (b == null || b in live) else b' != null && sole' && b' !in live
    ensures forall l | l == Swapped(live, sole, b, b') ::
      Swapped(l, sole', b', taken) == Swapped(live, sole, b, taken)
  {
  }

  lemma Rejoins<V>(owners: set<V>, v: V)
    ensures v in owners ==> owners - {v} + {v} == owners
  {
  }

  twostate predicate Same<T(0)>(b: SharedBuffer<T>)
    reads b
  {
    b.refs == old(b.refs) && b.owners == old(b.owners) && b.items == old(b.items)
  }

  /** The buffer lost this owner and nothing else. */
  twostate predicate Lost<T(0)>(b: SharedBuffer<T>, new v: VectorImpl<T>)
    reads b
  {
    b.refs == old(b.refs) - 1 && b.owners == old(b.owners) - {v} && b.items == old(b.items)
  }

  /** The buffer gained this owner and nothing else. */
  twostate predicate Gained<T(0)>(b: SharedBuffer<T>, new v: VectorImpl<T>)
    reads b
  {
    b.refs == old(b.refs) + 1 && b.owners == old(b.owners) + {v} && b.items == old(b.items)
  }

  class VectorImpl<T(0)> {
    const heap: Heap<T>
    var storage: SharedBuffer?<T>
    var count: nat

    ghost function Contents(): seq<T>
      reads this, storage
    {
      if storage == null then [] else storage.items
    }

    function Capacity(): nat
      reads this
    {
      if storage == null then 0 else storage.slots.Length
    }

    /** The buffer is live and counts this vector among its owners, who all see the same count. */
    ghost predicate Linked()
      reads this, heap, storage, if storage == null then {} else storage.owners
    {
      if storage == null then count == 0
      else storage in heap.live && this in storage.owners && storage.Shared()
    }

    ghost predicate Valid()
      reads this, heap, storage, if storage == null then {} else storage.owners + {storage.slots}
    {
      Linked() && (storage != null ==> heap.Packed(storage.slots, storage.items))
    }

    /** Moving the items at `where` in place to open or close a gap of `amount` slots destroys them. */
    predicate Loses(where: nat, amount: nat)
      reads this
    {
      where < count && heap.Wipes(amount)
    }

    /** Removing `amount` items at `where` does so, unless the others are copied to smaller storage. */
    predicate LosesByRemoval(where: nat, amount: nat)
      reads this
    {
      Loses(where, amount) && count >= Capacity() / 2
    }

    /** The vector still counts all its items, but those from `from` on have been destroyed. */
    ghost predicate Broken(from: nat)
      reads this, heap, storage, if storage == null then {} else storage.owners + {storage.slots}
    {
      Linked() && Sole() && storage.owners == {this} && heap.Wiped(storage.slots, from, storage.items)
    }

    lemma BrokenIsNotValid(from: nat)
      requires Broken(from)
      ensures !Valid()
    {
      assert storage.slots[from] == Raw && from < |storage.items|;
    }

    ghost predicate Sole()
      reads this, storage
    {
      storage != null && storage.refs == 1
    }

    /** The slots this vector may write: those of a buffer it holds alone. */
    ghost function OwnSlots(): set<object>
      reads this, storage
    {
      if Sole() then {storage.slots} else {}
    }

    /** All that an operation on this vector may do to the rest of the heap: it keeps its buffer
        `b`, or leaves it for none or for a fresh one, freeing `b` exactly if nobody else held it.
        A buffer that others hold at most loses this owner. */
    twostate predicate Step(b: SharedBuffer?<T>)
      reads this, heap, b, storage
    {
      && (storage != b && storage != null ==> fresh(storage) && fresh(storage.slots) && storage.owners == {this})
      && heap.live == Swapped(old(heap.live), old(Sole()), b, storage)
      && (b != null && storage == b ==> b.refs == old(b.refs) && b.owners == old(b.owners))
      && (b != null && old(b.refs) > 1 ==> if storage == b then b.items == old(b.items) else Lost(b, this))
    }

    constructor (heap: Heap<T>)
      ensures this.heap == heap && Valid() && Contents() == []
    {
      this.heap := heap;
      storage, count := null, 0;
    }

    constructor Copy(rhs: VectorImpl<T>)
      requires rhs.Valid()
      modifies rhs.storage
      ensures heap == rhs.heap && Valid() && Contents() == old(rhs.Contents())
      ensures storage == rhs.storage
      ensures storage != null ==> storage.owners == old(rhs.storage.owners) + {this}
    {
      heap := rhs.heap;
      storage, count := rhs.storage, rhs.count;
      new;
      if storage != null {
        storage.refs := storage.refs + 1;
        storage.owners := storage.owners + {this};
      }
    }

    /** A buffer that is kept stays live. */
    lemma Stays()
      requires Valid()
      ensures Swapped(heap.live, Sole(), storage, storage) == heap.live
      ensures Swapped(heap.live, Sole(), storage, null) == if Sole() then heap.live - {storage} else heap.live
    {
    }

    lemma CountsContents()
      requires Valid()
      ensures count == |Contents()| <= Capacity()
    {
    }

    /** Drop this vector's reference; the last holder destroys the items and frees the buffer. */
    method ReleaseStorage()
      requires Valid()
      modifies this`storage, heap`live, storage, OwnSlots()
      ensures storage == null
      ensures heap.live == if old(Sole()) then old(heap.live) - {old(storage)} else old(heap.live)
      ensures old(storage != null && storage.refs > 1) ==> Lost(old(storage), this)
    {
      if storage != null {
        var sb := storage;
        sb.refs, sb.owners := sb.refs - 1, sb.owners - {this};
        if sb.refs == 0 {
          heap.DoDestroy(sb.slots, 0, count);
          heap.Dealloc(sb);
        }
        storage := null;
      }
    }

    /** Leave the present buffer for a fresh one that already holds the new items. */
    method Install(sb: SharedBuffer<T>, size: nat)
      requires size == |sb.items| && Valid() && sb != storage && sb in heap.live && sb.refs == 1 &&
        heap.Packed(sb.slots, sb.items)
      requires storage != null ==> storage.slots != sb.slots
      modifies this, heap`live, storage, OwnSlots(), sb`owners
      ensures Valid() && storage == sb && Sole() && sb.owners == {this} && Contents() == old(sb.items)
      ensures heap.live == if old(Sole()) then old(heap.live) - {old(storage)} else old(heap.live)
      ensures old(storage != null && storage.refs > 1) ==> Lost(old(storage), this)
    {
      ReleaseStorage();
      storage := sb;
      sb.owners := {this};
      count := size;
    }

    /** Make the buffer this vector's own, copying it if it is shared. */
    method EditArrayImpl()
      requires Valid()
      modifies this, heap`live, storage, OwnSlots()
      ensures Valid() && Step(old(storage)) && Contents() == old(Contents()) && Capacity() == old(Capacity())
      ensures storage == null <==> old(storage) == null
      ensures storage != null ==> Sole() && storage.owners == {this}
      ensures old(Sole()) ==> storage == old(storage)
    {
      hide Swapped;
      Stays();
      if storage != null && storage.refs == 1 {
        storage.SoleOwner(this);
      } else if storage != null {
        ghost var live := heap.live;
        var editable := heap.AllocOrAbort(storage.slots.Length);
        SwappedFor(live, false, storage, editable);
        heap.DoCopy(editable.slots, 0, storage.slots, 0, count);
        editable.items := storage.items;
        Install(editable, count);
      }
    }

    /** `SharedBuffer::editResize`, installed: the bytes move to storage of the new size that
        this vector holds alone. Only for items whose bytes may be moved. */
    method EditResize(capacity: nat) returns (ok: bool)
      requires Valid() && storage != null && heap.flags.trivialDtor
      modifies this`storage, heap`live, heap`failures, storage, OwnSlots()
      ensures !ok ==>
        && Valid() && heap.failures > old(heap.failures) && heap.live == old(heap.live)
        && storage == old(storage) && unchanged(storage)
      ensures ok ==>
        && Step(old(storage)) && Sole() && storage in heap.live && storage.owners == {this}
        && heap.failures == old(heap.failures)
      ensures ok ==> Capacity() == capacity
      ensures ok ==> forall i | 0 <= i < capacity && i < old(Capacity()) :: storage.slots[i] == old(storage.slots[i])
    {
      hide Swapped;
      Stays();
      if storage.refs == 1 && storage.slots.Length == capacity {
        storage.SoleOwner(this);
        return true;
      }
      ghost var live, sole, left := heap.live, Sole(), storage;
      var sb := heap.Alloc(capacity);
      if sb == null {
        return false;
      }
      SwappedFor(live, sole, left, sb);
      var n := if capacity < storage.slots.Length then capacity else storage.slots.Length;
      heap.MoveBytes(sb.slots, storage.slots, n);
      sb.owners := {this};
      ReleaseStorage();
      storage := sb;
      ok := true;
    }

    /** `items` with room for `amount` more at `where`: this vector's own storage, with nothing
        constructed in the room or after the last item. */
    ghost predicate HasRoom(where: nat, amount: nat, items: seq<T>)
      requires where <= |items|
      reads this, heap, storage, OwnSlots()
    {
      && Sole() && storage in heap.live && storage.owners == {this}
      && count == |items| + amount && heap.Room(storage.slots, where, amount, items)
    }

    /** The reallocating half of `_grow`: the items on either side of the room are copied across. */
    method GrowByCopy(where: nat, amount: nat, capacity: nat) returns (ok: bool)
      requires Valid() && where <= count && count + amount <= capacity
      modifies this, heap`live, heap`failures, storage, OwnSlots()
      ensures Step(old(storage)) && heap.failures == old(heap.failures) + if ok then 0 else 1
      ensures !ok ==> Valid() && Contents() == old(Contents()) && storage == old(storage) && Sole() == old(Sole())
      ensures ok ==> HasRoom(where, amount, old(Contents())) && Capacity() == capacity
    {
      hide Swapped;
      Stays();
      ghost var live, sole, left := heap.live, Sole(), storage;
      var sb := heap.Alloc(capacity);
      if sb == null {
        return false;
      }
      SwappedFor(live, sole, left, sb);
      if storage != null {
        heap.CopyAround(sb.slots, storage.slots, where, amount, count, storage.items);
      }
      sb.owners := {this};
      ReleaseStorage();
      storage, count := sb, count + amount;
      ok := true;
    }

    /** The half of `_grow` that needs no new storage, only its own. */
    method GrowInPlace(where: nat, amount: nat)
      requires Valid() && where <= count && count + amount <= Capacity()
      modifies this, heap`live, storage, OwnSlots()
      ensures Step(old(storage)) && Capacity() == old(Capacity()) && Contents() == old(Contents())
      ensures if old(Loses(where, amount)) then Broken(where)
        else old(storage) != null ==> HasRoom(where, amount, old(Contents()))
      ensures old(Sole()) || old(storage) == null ==> storage == old(storage)
      ensures amount == 0 && where == old(count) ==> Valid()
    {
      hide Swapped;
      Stays();
      EditArrayImpl();
      if storage != null {
        heap.OpenUp(storage.slots, where, amount, count, storage.items);
      }
      count := count + amount;
    }

    /** Make room for `amount` items at `where`. Fails if storage cannot be had, and also when no
        room is asked for at the very end of full storage; it then changes no contents. */
    method Grow(where: nat, amount: nat) returns (ok: bool)
      requires Valid() && where <= count
      modifies this, heap`live, heap`failures, storage, OwnSlots()
      ensures Step(old(storage)) && heap.failures >= old(heap.failures)
      ensures !ok ==> Valid() && Contents() == old(Contents()) && Capacity() == old(Capacity())
      ensures !ok <==> heap.failures > old(heap.failures) || (amount == 0 && where == old(Capacity()))
      ensures old(Loses(where, amount)) ==> ok
      ensures ok ==> if old(Loses(where, amount)) then Broken(where) && Contents() == old(Contents())
        else HasRoom(where, amount, old(Contents()))
      ensures ok ==> Capacity() == RoomToGrow(old(count) + amount, old(Capacity()))
      ensures old(storage == null || Sole()) && (!ok || Capacity() == old(Capacity())) ==>
        storage == old(storage) && Sole() == old(Sole())
    {
      hide Swapped;
      Stays();
      var newSize := count + amount;
      if Capacity() < newSize {
        var newCapacity := GrownCapacity(newSize);
        if storage != null && count == where && heap.flags.trivialCopy && heap.flags.trivialDtor {
          ok := EditResize(newCapacity);
          if ok {
            count := newSize;
          }
        } else {
          ok := GrowByCopy(where, amount, newCapacity);
        }
      } else {
        GrowInPlace(where, amount);
        ok := where < Capacity();
      }
    }

    /** Insert `numItems` copies of `item`, or as many default-constructed items if there is none. */
    method InsertAt(item: Option<T>, index: nat, numItems: nat) returns (r: Status, ghost fill: seq<T>)
      requires Valid()
      modifies this, heap`live, heap`failures, storage, OwnSlots()
      ensures Step(old(storage)) && if old(Loses(index, numItems)) then Broken(index) && r.Ok? else Valid()
      ensures heap.failures >= old(heap.failures) && (index > old(count) ==> heap.failures == old(heap.failures))
      ensures index > old(count) <==> r == BadIndex
      ensures index <= old(count) ==>
        (r == NoMemory <==> heap.failures > old(heap.failures) || (numItems == 0 && index == old(Capacity())))
      ensures r == BadIndex || r == NoMemory || r == Ok(index)
      ensures r.Ok? ==> Contents() == Spliced(old(Contents()), index, fill) && |fill| == numItems
      ensures r.Ok? && item.Some? ==> fill == Splat(item.value, numItems)
      ensures r.Ok? && item.None? && !heap.flags.trivialCtor ==> fill == Splat(heap.initial, numItems)
      ensures !r.Ok? ==> fill == [] && Contents() == old(Contents()) && Capacity() == old(Capacity())
      ensures r.Ok? ==> Capacity() == RoomToGrow(old(count) + numItems, old(Capacity()))
      ensures old(storage == null || Sole()) && Capacity() == old(Capacity()) ==> storage == old(storage)
      ensures old(storage == null || Sole()) || r.Ok? ==> storage == null || Sole()
    {
      hide RoomToGrow, Swapped;
      Stays();
      fill := [];
      if index > count {
        return BadIndex, [];
      }
      ghost var items := Contents();
      var ok := Grow(index, numItems);
      if !ok {
        return NoMemory, [];
      }
      fill := heap.FillByItem(storage.slots, index, item, numItems, items);
      storage.items := Spliced(items, index, fill);
      r := Ok(index);
    }

    /** Insert a copy of `length` items from an array, which must not be storage only this vector holds. */
    method InsertArrayAt(src: array<Slot<T>>, index: nat, length: nat) returns (r: Status)
      requires Valid() && length <= src.Length && forall i | 0 <= i < length :: src[i].Live?
      requires storage != null && storage.slots == src ==> storage.refs > 1
      modifies this, heap`live, heap`failures, storage, OwnSlots()
      ensures Step(old(storage)) && if old(Loses(index, length)) then Broken(index) && r.Ok? else Valid()
      ensures heap.failures >= old(heap.failures) && (index > old(count) ==> heap.failures == old(heap.failures))
      ensures index > old(count) <==> r == BadIndex
      ensures index <= old(count) ==>
        (r == NoMemory <==> heap.failures > old(heap.failures) || (length == 0 && index == old(Capacity())))
      ensures r == BadIndex || r == NoMemory || r == Ok(index)
      ensures r.Ok? ==> Contents() == Spliced(old(Contents()), index, Items(src[..], 0, length))
      ensures !r.Ok? ==> Contents() == old(Contents())
      ensures Capacity() == if r.Ok? then RoomToGrow(old(count) + length, old(Capacity())) else old(Capacity())
    {
      hide RoomToGrow, Swapped;
      Stays();
      if index > count {
        return BadIndex;
      }
      ghost var items := Contents();
      var ok := Grow(index, length);
      if !ok {
        return NoMemory;
      }
      heap.FillByCopy(storage.slots, index, src, length, items);
      storage.items := Spliced(items, index, Items(src[..], 0, length));
      r := Ok(index);
    }

    /** Insert a copy of another vector's items; this vector may share that vector's buffer. */
    method InsertVectorAt(v: VectorImpl<T>, index: nat) returns (r: Status)
      requires Valid() && v.Valid() && v != this
      requires Apart(v)
      modifies this, heap`live, heap`failures, storage, OwnSlots()
      ensures Step(old(storage)) && if old(Loses(index, v.count)) then Broken(index) && r.Ok? else Valid()
      ensures heap.failures >= old(heap.failures) && (index > old(count) ==> heap.failures == old(heap.failures))
      ensures index > old(count) <==> r == BadIndex
      ensures index <= old(count) ==>
        (r == NoMemory <==> heap.failures > old(heap.failures) || (old(v.count) == 0 && index == old(Capacity())))
      ensures r == BadIndex || r == NoMemory || r == Ok(index)
      ensures r.Ok? ==> Contents() == Spliced(old(Contents()), index, old(v.Contents()))
      ensures !r.Ok? ==> Contents() == old(Contents())
      ensures Capacity() == if r.Ok? then RoomToGrow(old(count + v.count), old(Capacity())) else old(Capacity())
    {
      hide RoomToGrow, Step, Swapped, Spliced;
      if storage != null && storage.refs == 1 {
        NotSole(v);
      }
      if v.storage == null {
        r := InsertNothingAt(index);
      } else {
        ghost var items := v.storage.items;
        assert Items(v.storage.slots[..], 0, v.count) == items;
        r := InsertArrayAt(v.storage.slots, index, v.count);
      }
    }

    /** Insert no items, from an array of none. */
    method InsertNothingAt(index: nat) returns (r: Status)
      requires Valid()
      modifies this, heap`live, heap`failures, storage, OwnSlots()
      ensures Step(old(storage)) && if old(Loses(index, 0)) then Broken(index) && r.Ok? else Valid()
      ensures heap.failures >= old(heap.failures) && (index > old(count) ==> heap.failures == old(heap.failures))
      ensures index > old(count) <==> r == BadIndex
      ensures index <= old(count) ==>
        (r == NoMemory <==> heap.failures > old(heap.failures) || index == old(Capacity()))
      ensures r == BadIndex || r == NoMemory || r == Ok(index)
      ensures r.Ok? ==> Contents() == Spliced(old(Contents()), index, [])
      ensures !r.Ok? ==> Contents() == old(Contents())
      ensures Capacity() == if r.Ok? then RoomToGrow(old(count), old(Capacity())) else old(Capacity())
    {
      hide RoomToGrow, Swapped, Spliced;
      var nothing := new Slot<T>[0];
      r := InsertArrayAt(nothing, index, 0);
    }

    method ShrinkByCopy(where: nat, amount: nat, capacity: nat)
      requires Valid() && storage != null && where + amount <= count && count - amount <= capacity
      modifies this, heap`live, heap`failures, storage, OwnSlots()
      ensures Valid() && Step(old(storage)) && heap.failures >= old(heap.failures)
      ensures heap.failures > old(heap.failures) ==> Contents() == old(Contents()) && Capacity() == old(Capacity())
      ensures heap.failures == old(heap.failures) ==>
        Contents() == Cut(old(Contents()), where, amount) && Capacity() == capacity
    {
      hide Swapped;
      Stays();
      ghost var live, sole, left := heap.live, Sole(), storage;
      var sb := heap.Alloc(capacity);
      if sb != null {
        SwappedFor(live, sole, left, sb);
        heap.CopyWithout(sb.slots, storage.slots, where, amount, count, storage.items);
        sb.items := Cut(storage.items, where, amount);
        Install(sb, count - amount);
      }
    }

    /** Destroy the removed items and move the later ones down. */
    method ShrinkInPlace(where: nat, amount: nat)
      requires Valid() && storage != null && where + amount <= count
      modifies this, heap`live, storage, OwnSlots()
      ensures Step(old(storage)) && if old(Loses(where, amount)) then Broken(where) else Valid()
      ensures Contents() == Cut(old(Contents()), where, amount) && Capacity() == old(Capacity())
    {
      hide Swapped;
      Stays();
      EditArrayImpl();
      heap.CloseUp(storage.slots, where, amount, count, storage.items);
      storage.items := Cut(storage.items, where, amount);
      count := count - amount;
    }

    /** Give the storage back from its end. */
    method ShrinkByResize(size: nat, capacity: nat)
      requires Valid() && storage != null && size <= count && size <= capacity && heap.flags.trivialDtor
      modifies this, heap`live, heap`failures, storage, OwnSlots()
      ensures Valid() && Step(old(storage)) && heap.failures >= old(heap.failures)
      ensures heap.failures > old(heap.failures) ==> Contents() == old(Contents()) && Capacity() == old(Capacity())
      ensures heap.failures == old(heap.failures) ==> Contents() == old(Contents())[..size] && Capacity() == capacity
    {
      hide Swapped;
      Stays();
      ghost var items := storage.items;
      var ok := EditResize(capacity);
      if ok {
        storage.items := items[..size];
        count := size;
      }
    }

    /** Remove `amount` items at `where`. If smaller storage is wanted and cannot be had, remove nothing. */
    method Shrink(where: nat, amount: nat)
      requires Valid() && where + amount <= count
      modifies this, heap`live, heap`failures, storage, OwnSlots()
      ensures Step(old(storage)) && heap.failures >= old(heap.failures)
      ensures if old(LosesByRemoval(where, amount)) then Broken(where) && heap.failures == old(heap.failures)
        else Valid()
      ensures heap.failures > old(heap.failures) ==> Contents() == old(Contents()) && Capacity() == old(Capacity())
      ensures heap.failures == old(heap.failures) ==>
        && Contents() == Cut(old(Contents()), where, amount)
        && Capacity() == if old(storage) != null && count < old(Capacity()) / 2 then ShrunkCapacity(count)
          else old(Capacity())
    {
      hide Swapped;
      Stays();
      if storage != null {
        var newSize := count - amount;
        if newSize < Capacity() / 2 {
          var newCapacity := ShrunkCapacity(newSize);
          if where == newSize && heap.flags.trivialCopy && heap.flags.trivialDtor {
            ShrinkByResize(newSize, newCapacity);
          } else {
            ShrinkByCopy(where, amount, newCapacity);
          }
        } else {
          ShrinkInPlace(where, amount);
        }
      }
    }

    /** Reports success even when storage ran out and nothing was removed. */
    method RemoveItemsAt(index: nat, n: nat) returns (r: Status)
      requires Valid()
      modifies this, heap`live, heap`failures, storage, OwnSlots()
      ensures Step(old(storage)) && heap.failures >= old(heap.failures)
      ensures if old(LosesByRemoval(index, n)) then Broken(index) && heap.failures == old(heap.failures) else Valid()
      ensures r == if index + n > old(count) then BadValue else Ok(index)
      ensures r.Ok? && heap.failures == old(heap.failures) ==> Contents() == Cut(old(Contents()), index, n)
      ensures !r.Ok? || heap.failures > old(heap.failures) ==> Contents() == old(Contents())
      ensures Capacity() == if !r.Ok? || heap.failures > old(heap.failures) then old(Capacity())
        else RoomToShrink(old(count) - n, old(Capacity()))
    {
      hide Swapped;
      Stays();
      if index + n > count {
        return BadValue;
      }
      Shrink(index, n);
      r := Ok(index);
    }

    method Clear()
      requires Valid()
      modifies this, heap`live, heap`failures, storage, OwnSlots()
      ensures Valid() && Step(old(storage)) && heap.failures >= old(heap.failures)
      ensures Contents() == if heap.failures == old(heap.failures) then [] else old(Contents())
      ensures Capacity() == if heap.failures > old(heap.failures) then old(Capacity())
        else RoomToShrink(0, old(Capacity()))
    {
      hide Swapped;
      Stays();
      Shrink(0, count);
    }

    method ReplaceAt(prototype: Option<T>, index: nat) returns (r: Status, ghost fill: seq<T>)
      requires Valid()
      modifies this, heap`live, storage, OwnSlots()
      ensures Valid() && Step(old(storage))
      ensures r == if index < old(count) then Ok(index) else BadIndex
      ensures r.Ok? ==> |fill| == 1 && Contents() == old(Contents())[index := fill[0]] && Capacity() == old(Capacity())
      ensures r.Ok? && prototype.Some? ==> fill == [prototype.value]
      ensures r.Ok? && prototype.None? && !heap.flags.trivialCtor ==> fill == [heap.initial]
      ensures !r.Ok? ==> Contents() == old(Contents()) && Capacity() == old(Capacity())
    {
      hide Swapped;
      Stays();
      if index >= count {
        return BadIndex, [];
      }
      EditArrayImpl();
      heap.DoDestroy(storage.slots, index, 1);
      fill := heap.Place(storage.slots, prototype, index, 1);
      storage.items := storage.items[index := fill[0]];
      r := Ok(index);
    }

    /** A copy of every item in fresh storage of the given capacity. */
    method CopyOut(capacity: nat) returns (sb: SharedBuffer?<T>)
      requires Valid() && count <= capacity
      modifies heap`live, heap`failures
      ensures sb == null ==> heap.failures == old(heap.failures) + 1 && heap.live == old(heap.live)
      ensures sb != null ==>
        && heap.failures == old(heap.failures) && heap.live == old(heap.live) + {sb}
        && fresh(sb) && fresh(sb.slots) && sb.refs == 1 && sb.slots.Length == capacity
        && sb.items == Contents() && heap.Packed(sb.slots, sb.items)
    {
      sb := heap.Alloc(capacity);
      if sb != null {
        assert heap.Writable(sb.slots, 0, capacity);
        if storage == null {
          sb.items := [];
        } else {
          heap.CopyAll(sb.slots, storage.slots, count, storage.items);
          sb.items := storage.items;
        }
      }
    }

    /** Move every item to fresh storage of the given capacity. */
    method Reallocate(capacity: nat) returns (ok: bool)
      requires Valid() && count <= capacity
      modifies this, heap`live, heap`failures, storage, OwnSlots()
      ensures Valid() && Step(old(storage)) && Contents() == old(Contents())
      ensures heap.failures == old(heap.failures) + if ok then 0 else 1
      ensures Capacity() == if ok then capacity else old(Capacity())
    {
      hide Swapped;
      Stays();
      ghost var live, sole, left := heap.live, Sole(), storage;
      var sb := CopyOut(capacity);
      ok := sb != null;
      if ok {
        SwappedFor(live, sole, left, sb);
        Install(sb, count);
      }
    }

    method SetCapacity(newCapacity: nat) returns (r: Status)
      requires Valid()
      modifies this, heap`live, heap`failures, storage, OwnSlots()
      ensures Valid() && Step(old(storage)) && Contents() == old(Contents())
      ensures heap.failures >= old(heap.failures) && (r == NoMemory <==> heap.failures > old(heap.failures))
      ensures r == NoMemory ==> Capacity() == old(Capacity())
      ensures r == NoMemory || (r == Ok(Capacity()) && |Contents()| <= r.index)
      ensures r.Ok? ==> r.index == if newCapacity <= old(count) then old(Capacity()) else newCapacity
    {
      hide Swapped;
      Stays();
      if newCapacity <= count {
        r := Ok(Capacity());
      } else {
        var ok := Reallocate(newCapacity);
        r := if ok then Ok(newCapacity) else NoMemory;
      }
    }

    method Resize(size: nat) returns (r: Status, ghost fill: seq<T>)
      requires Valid()
      modifies this, heap`live, heap`failures, storage, OwnSlots()
      ensures Valid() && Step(old(storage)) && heap.failures >= old(heap.failures)
      ensures r == NoMemory || r == Ok(size)
      ensures r == NoMemory ==> heap.failures > old(heap.failures)
      ensures heap.failures > old(heap.failures) ==> Contents() == old(Contents())
      ensures heap.failures == old(heap.failures) ==>
        && |fill| == (if size > old(count) then size - old(count) else 0)
        && (!heap.flags.trivialCtor ==> fill == Splat(heap.initial, |fill|))
        && Contents() == (if size > old(count) then old(Contents()) else old(Contents())[..size]) + fill
      ensures Capacity() == if heap.failures > old(heap.failures) then old(Capacity())
        else if size > old(count) then RoomToGrow(size, old(Capacity()))
        else if size < old(count) then RoomToShrink(size, old(Capacity()))
        else old(Capacity())
    {
      hide Swapped;
      Stays();
      fill, r := [], Ok(size);
      if size > count {
        r, fill := InsertAt(None, count, size - count);
      } else if size < count {
        r := RemoveItemsAt(size, count - size);
      }
      if r.Ok? {
        r := Ok(size);
      }
    }

    method FinishVector()
      requires Valid()
      modifies this, heap`live, storage, OwnSlots()
      ensures Valid() && Step(old(storage)) && storage == null && Contents() == []
    {
      hide Swapped;
      Stays();
      ReleaseStorage();
      storage, count := null, 0;
    }

    /** A buffer another vector holds too is not held alone. */
    lemma NotSole(other: VectorImpl<T>)
      requires Valid() && other.Valid() && this != other && Sole()
      ensures other.storage != storage
    {
      storage.SoleOwner(this);
    }

    /** Hold the other vector's buffer too. */
    method Acquire(rhs: VectorImpl<T>)
      requires rhs != this && rhs.Valid() && rhs.heap == heap && rhs.storage != null
      requires storage == null && this !in rhs.storage.owners
      modifies this, rhs.storage
      ensures Valid() && storage == rhs.storage && Gained(storage, this)
    {
      storage, count := rhs.storage, rhs.count;
      storage.refs := storage.refs + 1;
      storage.owners := storage.owners + {this};
    }

    /** Storage of this vector and of another are the same or do not overlap. */
    ghost predicate Apart(other: VectorImpl<T>)
      reads this, other
    {
      storage != null && other.storage != null && storage != other.storage ==> storage.slots != other.storage.slots
    }

    /** `operator=` between two vectors: drop the present buffer, and share the other's if it has any items. */
    method AssignOther(rhs: VectorImpl<T>)
      requires this != rhs && Valid() && rhs.Valid() && rhs.heap == heap && Apart(rhs)
      modifies this, heap`live, storage, OwnSlots(), rhs.storage
      ensures Valid() && Contents() == old(rhs.Contents())
      ensures storage == if rhs.count == 0 then null else rhs.storage
      ensures heap.live == if old(Sole()) then old(heap.live) - {old(storage)} else old(heap.live)
      ensures old(storage != null && storage.refs > 1) ==>
        if storage == old(storage) then Same(storage) else Lost(old(storage), this)
      ensures rhs.storage != null && rhs.storage != old(storage) ==>
        if storage == rhs.storage then Gained(storage, this) else Same(rhs.storage)
    {
      if storage != null && storage.refs == 1 {
        NotSole(rhs);
      }
      ghost var items := rhs.Contents();
      Rejoins(if storage == null then {} else storage.owners, this);
      ReleaseStorage();
      assert rhs.Valid() && rhs.Contents() == items;
      if rhs.count != 0 {
        Acquire(rhs);
      } else {
        count := 0;
      }
    }

    method Assign(rhs: VectorImpl<T>)
      requires Valid() && rhs.Valid() && rhs.heap == heap && Apart(rhs)
      modifies this, heap`live, storage, OwnSlots(), rhs.storage
      ensures Valid() && Contents() == old(rhs.Contents())
      ensures this != rhs ==> storage == if rhs.count == 0 then null else rhs.storage
      ensures this == rhs ==> storage == old(storage)
      ensures heap.live == if this != rhs && old(Sole()) then old(heap.live) - {old(storage)} else old(heap.live)
      ensures old(storage != null && storage.refs > 1) ==>
        if storage == old(storage) then Same(storage) else Lost(old(storage), this)
      ensures rhs.storage != null && rhs.storage != old(storage) ==>
        if storage == rhs.storage then Gained(storage, this) else Same(rhs.storage)
    {
      if this != rhs {
        AssignOther(rhs);
      }
    }

    /** `malloc` of one item's temporary storage. */
    method AllocTemp() returns (temp: array?<Slot<T>>)
      modifies heap`failures
      ensures temp == null ==> heap.failures == old(heap.failures) + 1
      ensures temp != null ==> heap.failures == old(heap.failures) && fresh(temp) && temp.Length == 1 && temp[0] == Raw
    {
      if * {
        temp := null;
        heap.failures := heap.failures + 1;
      } else {
        temp := new Slot<T>[1](_ => Raw);
      }
    }

    /** `free` of one item's temporary storage: whatever was in it must have been destroyed. */
    method FreeTemp(temp: array<Slot<T>>)
      requires heap.Writable(temp, 0, temp.Length)
    {
    }

    /** Move item `i` of this vector's own storage to its place among the items before it. */
    method ShiftItem(i: nat, temp: array<Slot<T>>, cmp: Comparator<T>)
      requires Valid() && Sole() && storage.owners == {this} && 0 < i < count &&
        cmp(Contents()[i - 1], Contents()[i]) > 0
      requires temp.Length == 1 && temp != storage.slots && heap.Writable(temp, 0, 1)
      modifies storage.slots, storage`items, temp
      ensures Valid() && Contents() == Turn(old(Contents()), i, cmp)
      ensures temp[0].Live?
    {
      ghost var s, t := storage.items, Turn(storage.items, i, cmp);
      ghost var p := heap.InsertionStep(storage.slots, i, temp, cmp, s);
      TurnMoves(s, i, p, cmp);
      storage.items := t;
    }

    /** The turns of the sorting loop from the first item that has to move, at `i`, on. */
    method SortFrom(i: nat, temp: array<Slot<T>>, cmp: Comparator<T>, ghost run: seq<seq<T>>)
      requires Valid() && Sole() && storage.owners == {this} && 0 < i < count
      requires temp.Length == 1 && temp != storage.slots && heap.Writable(temp, 0, 1)
      requires |run| == count && IsRun(run, count, cmp)
      requires Contents() == run[i - 1] && cmp(run[i - 1][i - 1], run[i - 1][i]) > 0
      modifies storage.slots, storage`items, temp
      ensures Valid() && Contents() == run[count - 1] && heap.Writable(temp, 0, 1)
    {
      var next := i;
      while next < count
        invariant Valid() && i <= next <= count && Contents() == run[next - 1]
        invariant if next > i then temp[0].Live? else heap.Writable(temp, 0, 1)
      {
        ghost var now := storage.items;
        assert storage.slots[next - 1] == Live(now[next - 1]) && storage.slots[next] == Live(now[next]);
        if cmp(storage.slots[next - 1].item, storage.slots[next].item) > 0 {
          if next != i {
            heap.DoDestroy(temp, 0, 1);
          }
          ShiftItem(next, temp, cmp);
        }
        next := next + 1;
      }
      heap.DoDestroy(temp, 0, 1);
    }

    /** The first item that has to move is at `i`: make the storage this vector's own, and go on. */
    method Rearrange(i: nat, cmp: Comparator<T>, ghost run: seq<seq<T>>) returns (ok: bool)
      requires Valid() && 0 < i < count
      requires |run| == count && IsRun(run, count, cmp)
      requires Contents() == run[i - 1] && cmp(run[i - 1][i - 1], run[i - 1][i]) > 0
      modifies this, heap`live, heap`failures, storage, OwnSlots()
      ensures Valid() && Step(old(storage)) && Capacity() == old(Capacity())
      ensures heap.failures == old(heap.failures) + if ok then 0 else 1
      ensures Contents() == if ok then run[|run| - 1] else old(Contents())
    {
      hide Swapped;
      Stays();
      EditArrayImpl();
      var temp := AllocTemp();
      ok := temp != null;
      if ok {
        SortFrom(i, temp, cmp, run);
        FreeTemp(temp);
      }
    }

    /** The sorting loop while nothing has to move. */
    method FirstMisplaced(cmp: Comparator<T>) returns (i: nat)
      requires Valid() && count > 0
      ensures FirstOut(Contents(), i, cmp)
    {
      ghost var s := Contents();
      i := 1;
      while i < count
        invariant 1 <= i <= count && InOrder(s[..i], cmp)
      {
        assert storage.slots[i - 1] == Live(s[i - 1]) && storage.slots[i] == Live(s[i]);
        if cmp(storage.slots[i - 1].item, storage.slots[i].item) > 0 {
          return;
        }
        i := i + 1;
      }
    }

    /** Stable insertion sort. While the items are in order nothing is written; at the first item that has to
        move the storage is made this vector's own, copying it if it is shared, and the loop goes on from there. */
    method Sort(cmp: Comparator<T>) returns (ok: bool)
      requires Valid()
      modifies this, heap`live, heap`failures, storage, OwnSlots()
      ensures Valid() && Step(old(storage)) && Capacity() == old(Capacity())
      ensures heap.failures == old(heap.failures) + if ok then 0 else 1
      ensures Contents() == if ok then InsertionSorted(old(Contents()), cmp) else old(Contents())
      ensures InOrder(old(Contents()), cmp) ==> ok && storage == old(storage)
    {
      hide Swapped;
      Stays();
      ok := true;
      if count != 0 {
        var i := FirstMisplaced(cmp);
        ghost var run := SortPlan(Contents(), i, cmp);
        if i < count {
          ok := Rearrange(i, cmp, run);
        }
      }
    }

    /** The operation destroys the items from its index on: it inserts or removes nothing before the end, in place,
        and items that have destructors are not moved as bytes. */
    predicate Breaks(op: Op<T>)
      reads this
    {
      match op
      case Insert(_, index, n) => Loses(index, n)
      case Remove(index, n) => LosesByRemoval(index, n)
      case _ => false
    }

    /** An insertion that reports failure though no storage was refused would have had no effect. */
    method ApplyInsert(op: Op<T>) returns (ghost fill: seq<T>)
      requires Valid() && op.Insert?
      modifies this, heap`live, heap`failures, storage, OwnSlots()
      ensures Step(old(storage)) && heap.failures >= old(heap.failures)
      ensures if old(Breaks(op)) then Broken(op.index) else Valid()
      ensures old(Breaks(op)) ==>
        heap.failures == old(heap.failures) && Contents() == old(Contents()) && Capacity() == old(Capacity())
      ensures Capacity() == if heap.failures > old(heap.failures) then old(Capacity())
        else RoomAfter(old(count), old(Capacity()), op)
      ensures Contents() ==
        if heap.failures > old(heap.failures) then old(Contents()) else Effect(old(Contents()), op, fill)
      ensures heap.failures == old(heap.failures) ==> Fills(old(Contents()), op, fill, heap.flags, heap.initial)
    {
      hide Valid, Step, Sole, OwnSlots, Broken;
      CountsContents();
      ghost var s := Contents();
      var r;
      r, fill := InsertAt(op.item, op.index, op.n);
      assert op.index <= |s| ==> Spliced(s, op.index, []) == s;
    }

    /** Any operation either takes its effect on this vector's own sequence, or, if storage
        could not be had, has none; and the items it counts are all there, exactly if it does not break it. */
    method Apply(op: Op<T>) returns (ghost fill: seq<T>)
      requires Valid()
      modifies this, heap`live, heap`failures, storage, OwnSlots()
      ensures Step(old(storage)) && heap.failures >= old(heap.failures)
      ensures if old(Breaks(op)) then Broken(op.index) else Valid()
      ensures old(Breaks(op)) ==>
        heap.failures == old(heap.failures) && Contents() == old(Contents()) && Capacity() == old(Capacity())
      ensures Capacity() == if heap.failures > old(heap.failures) then old(Capacity())
        else RoomAfter(old(count), old(Capacity()), op)
      ensures Contents() ==
        if heap.failures > old(heap.failures) then old(Contents()) else Effect(old(Contents()), op, fill)
      ensures heap.failures == old(heap.failures) ==> Fills(old(Contents()), op, fill, heap.flags, heap.initial)
    {
      hide Swapped;
      Stays();
      hide Valid, Step, Sole, OwnSlots, Loses, LosesByRemoval, Broken;
      hide InsertionSorted, InOrder, RoomToGrow, RoomToShrink, Splat, Cut;
      CountsContents();
      ghost var s := Contents();
      fill := [];
      match op
      case Insert(item, index, n) => fill := ApplyInsert(op);
      case Remove(index, n) => var r := RemoveItemsAt(index, n);
      case Replace(item, index) =>
        var r;
        r, fill := ReplaceAt(item, index);
      case Resize(size) =>
        var r;
        r, fill := Resize(size);
      case SetCapacity(capacity) => var r := SetCapacity(capacity);
      case Clear => Clear();
      case Finish => FinishVector();
      case Sort(cmp) => var ok := Sort(cmp);
    }
  }
}
