/** The binary-searched vector: an ordered map whose keys are classes of items that compare equal. */
module SortedVector {
  import opened Options
  import opened StableSort
  import opened CopyOnWrite

  /** `do_compare` orders items consistently in both directions. */
  ghost predicate Ordering<T(!new)>(cmp: Comparator<T>)
  {
    Mirrored(cmp) && forall a, b, c :: Chains(a, b, c, cmp)
  }

  predicate Chains<T>(a: T, b: T, c: T, cmp: Comparator<T>)
  {
    cmp(a, b) <= 0 && cmp(b, c) <= 0 ==> cmp(a, c) <= 0
  }

  ghost predicate Mirrored<T(!new)>(cmp: Comparator<T>)
  {
    forall a, b :: cmp(a, b) < 0 <==> cmp(b, a) > 0
  }

  ghost predicate Increasing<T>(s: seq<T>, cmp: Comparator<T>)
  {
    forall i, j | 0 <= i < j < |s| :: cmp(s[i], s[j]) < 0
  }

  /** Everything before `order` is below `x`, everything from there on above it, except a match at `order` itself. */
  ghost predicate Orders<T>(s: seq<T>, x: T, cmp: Comparator<T>, order: nat, found: bool)
  {
    && order <= |s|
    && (forall i | 0 <= i < order :: cmp(s[i], x) < 0)
    && (found ==> order < |s| && cmp(s[order], x) == 0)
    && (forall i | (if found then order + 1 else order) <= i < |s| :: cmp(s[i], x) > 0)
  }

  /** How many leading items are below `x`. */
  function Order<T>(s: seq<T>, x: T, cmp: Comparator<T>): (n: nat)
    ensures n <= |s|
    ensures forall i | 0 <= i < n :: cmp(s[i], x) < 0
    ensures n < |s| ==> cmp(s[n], x) >= 0
  {
    if s == [] || cmp(s[0], x) >= 0 then 0 else 1 + Order(s[1..], x, cmp)
  }

  predicate Found<T>(s: seq<T>, x: T, cmp: Comparator<T>)
  {
    var n := Order(s, x, cmp);
    n < |s| && cmp(s[n], x) == 0
  }

  function Added<T>(s: seq<T>, x: T, cmp: Comparator<T>): seq<T>
  {
    var n := Order(s, x, cmp);
    if Found(s, x, cmp) then s[n := x] else Spliced(s, n, [x])
  }

  function Removed<T>(s: seq<T>, x: T, cmp: Comparator<T>): seq<T>
  {
    if Found(s, x, cmp) then Cut(s, Order(s, x, cmp), 1) else s
  }

  function Merged<T>(s: seq<T>, r: seq<T>, cmp: Comparator<T>): seq<T>
  {
    if r == [] then s else Added(Merged(s, r[..|r| - 1], cmp), r[|r| - 1], cmp)
  }

  lemma AddedMeans<T>(s: seq<T>, x: T, cmp: Comparator<T>)
    ensures Order(s, x, cmp) <= |s| && (Found(s, x, cmp) ==> Order(s, x, cmp) < |s|)
    ensures Added(s, x, cmp) ==
      if Found(s, x, cmp) then s[Order(s, x, cmp) := x] else Spliced(s, Order(s, x, cmp), [x])
  {
  }

  lemma AddedSomething<T>(s: seq<T>, x: T, cmp: Comparator<T>)
    ensures Added(s, x, cmp) != []
  {
  }

  /** What the merge of a sorted vector does: all of it goes first, or last, or item by item. */
  function MergedSorted<T>(s: seq<T>, r: seq<T>, cmp: Comparator<T>): seq<T>
    requires s != [] || r == []
  {
    if r == [] then s
    else if cmp(r[|r| - 1], s[0]) <= 0 then r + s
    else if cmp(r[0], s[|s| - 1]) >= 0 then s + r
    else Merged(s, r, cmp)
  }

  lemma Below<T(!new)>(a: T, b: T, c: T, cmp: Comparator<T>)
    requires Ordering(cmp) && cmp(a, b) <= 0 && cmp(b, c) <= 0
    ensures cmp(a, c) <= 0 && (cmp(a, b) < 0 || cmp(b, c) < 0 ==> cmp(a, c) < 0)
  {
    assert Chains(a, b, c, cmp) && Chains(b, c, a, cmp) && Chains(c, a, b, cmp);
  }

  lemma OrderOrders<T(!new)>(s: seq<T>, x: T, cmp: Comparator<T>)
    requires Ordering(cmp) && Increasing(s, cmp)
    ensures Orders(s, x, cmp, Order(s, x, cmp), Found(s, x, cmp))
  {
    var n := Order(s, x, cmp);
    forall i | n < i < |s| ensures cmp(s[i], x) > 0 {
      Below(x, s[n], s[i], cmp);
    }
  }

  /** An insertion point is unique: binary search cannot return any other. */
  lemma OrderIsUnique<T(!new)>(s: seq<T>, x: T, cmp: Comparator<T>, order: nat, found: bool)
    requires Orders(s, x, cmp, order, found)
    ensures order == Order(s, x, cmp) && found == Found(s, x, cmp)
  {
    var n := Order(s, x, cmp);
    assert n < |s| ==> cmp(s[n], x) >= 0;
    assert order < |s| ==> cmp(s[order], x) >= 0;
  }

  lemma PutIn<T(!new)>(s: seq<T>, x: T, cmp: Comparator<T>, n: nat)
    requires Mirrored(cmp) && Increasing(s, cmp) && Orders(s, x, cmp, n, true)
    ensures Increasing(s[n := x], cmp)
    ensures forall y :: y in s[n := x] <==> y == x || (y in s && cmp(y, x) != 0)
  {
    forall y | y in s && cmp(y, x) != 0 ensures y in s[n := x] {
      var i :| 0 <= i < |s| && s[i] == y;
      assert s[n := x][i] == y;
    }
    assert s[n := x][n] == x;
    assert forall i | 0 <= i < |s| && i != n :: s[n := x][i] == s[i] && cmp(s[i], x) != 0;
  }

  lemma SplicedIn<T(!new)>(s: seq<T>, x: T, cmp: Comparator<T>, n: nat)
    requires Mirrored(cmp) && Increasing(s, cmp) && Orders(s, x, cmp, n, false)
    ensures Increasing(Spliced(s, n, [x]), cmp)
    ensures forall y :: y in Spliced(s, n, [x]) <==> y == x || (y in s && cmp(y, x) != 0)
  {
    var t := Spliced(s, n, [x]);
    assert t[n] == x;
    assert forall i | 0 <= i < n :: t[i] == s[i];
    assert forall i | n < i < |t| :: t[i] == s[i - 1];
    SplicedItems(s, n, x);
    forall y | y in s ensures cmp(y, x) != 0 {
      var i :| 0 <= i < |s| && s[i] == y;
    }
  }

  lemma SplicedItems<T(!new)>(s: seq<T>, n: nat, x: T)
    requires n <= |s|
    ensures forall y :: y in Spliced(s, n, [x]) <==> y == x || y in s
  {
    assert s == s[..n] + s[n..];
    assert x in [x];
  }

  /** `add` is map update: the item equal to `x` goes, if there was one, `x` comes, all else stays, in order. */
  lemma AddIsUpdate<T(!new)>(s: seq<T>, x: T, cmp: Comparator<T>)
    requires Ordering(cmp) && Increasing(s, cmp)
    ensures Increasing(Added(s, x, cmp), cmp)
    ensures forall y :: y in Added(s, x, cmp) <==> y == x || (y in s && cmp(y, x) != 0)
  {
    OrderOrders(s, x, cmp);
    if Found(s, x, cmp) {
      PutIn(s, x, cmp, Order(s, x, cmp));
    } else {
      SplicedIn(s, x, cmp, Order(s, x, cmp));
    }
  }

  lemma CutOut<T>(s: seq<T>, x: T, cmp: Comparator<T>, n: nat)
    requires Increasing(s, cmp) && Orders(s, x, cmp, n, true)
    ensures Increasing(Cut(s, n, 1), cmp)
    ensures forall y :: y in Cut(s, n, 1) <==> y in s && cmp(y, x) != 0
  {
    forall y | y in s && cmp(y, x) != 0 ensures y in Cut(s, n, 1) {
      var i :| 0 <= i < |s| && s[i] == y;
      assert Cut(s, n, 1)[if i < n then i else i - 1] == y;
    }
  }

  /** `remove` is map delete. */
  lemma RemoveIsDelete<T(!new)>(s: seq<T>, x: T, cmp: Comparator<T>)
    requires Ordering(cmp) && Increasing(s, cmp)
    ensures Increasing(Removed(s, x, cmp), cmp)
    ensures forall y :: y in Removed(s, x, cmp) <==> y in s && cmp(y, x) != 0
  {
    OrderOrders(s, x, cmp);
    if Found(s, x, cmp) {
      CutOut(s, x, cmp, Order(s, x, cmp));
    }
  }

  /** `y` is in `r`, and no later item of `r` replaces it. */
  ghost predicate Survives<T>(r: seq<T>, y: T, cmp: Comparator<T>)
  {
    exists i | 0 <= i < |r| :: r[i] == y && forall j | i < j < |r| :: cmp(y, r[j]) != 0
  }

  lemma SurvivesSnoc<T>(r: seq<T>, x: T, y: T, cmp: Comparator<T>)
    ensures Survives(r + [x], y, cmp) <==> y == x || (Survives(r, y, cmp) && cmp(y, x) != 0)
  {
    var t := r + [x];
    if y == x {
      assert t[|r|] == y;
    }
    if Survives(r, y, cmp) && cmp(y, x) != 0 {
      var i :| 0 <= i < |r| && r[i] == y && forall j | i < j < |r| :: cmp(y, r[j]) != 0;
      assert t[i] == y;
    }
    if Survives(t, y, cmp) && y != x {
      var i :| 0 <= i < |t| && t[i] == y && forall j | i < j < |t| :: cmp(y, t[j]) != 0;
      assert r[i] == y && cmp(y, t[|r|]) != 0;
      assert forall j | i < j < |r| :: t[j] == r[j];
    }
  }

  /** Whether an item is in the union of `s` and `r`, later items winning. */
  ghost predicate InUnion<T>(s: seq<T>, r: seq<T>, y: T, cmp: Comparator<T>)
  {
    Survives(r, y, cmp) || (y in s && forall z | z in r :: cmp(y, z) != 0)
  }

  lemma UnionSnoc<T(!new)>(s: seq<T>, r: seq<T>, x: T, before: seq<T>, after: seq<T>, cmp: Comparator<T>)
    requires cmp(x, x) == 0
    requires forall y :: y in before <==> InUnion(s, r, y, cmp)
    requires forall y :: y in after <==> y == x || (y in before && cmp(y, x) != 0)
    ensures forall y :: y in after <==> InUnion(s, r + [x], y, cmp)
  {
    assert x in r + [x];
    forall y ensures y in after <==> InUnion(s, r + [x], y, cmp) {
      SurvivesSnoc(r, x, y, cmp);
    }
  }

  /** Merging item by item is map union, later items winning, whether or not what is merged is sorted. */
  lemma {:induction false} MergeIsUnion<T(!new)>(s: seq<T>, r: seq<T>, cmp: Comparator<T>)
    requires Ordering(cmp) && Increasing(s, cmp)
    ensures Increasing(Merged(s, r, cmp), cmp)
    ensures forall y :: y in Merged(s, r, cmp) <==> InUnion(s, r, y, cmp)
  {
    if r != [] {
      var r', x := r[..|r| - 1], r[|r| - 1];
      MergeIsUnion(s, r', cmp);
      AddIsUpdate(Merged(s, r', cmp), x, cmp);
      assert r == r' + [x];
      UnionSnoc(s, r', x, Merged(s, r', cmp), Merged(s, r, cmp), cmp);
    }
  }

  lemma Contains<T>(s: seq<T>, x: T)
    requires s != [] && s[0] == x
    ensures x in s
  {
  }

  /** Adding an item that is there changes nothing. */
  lemma ItselfIsAdded<T(!new)>(s: seq<T>, i: nat, cmp: Comparator<T>)
    requires Ordering(cmp) && Increasing(s, cmp) && i < |s|
    ensures Found(s, s[i], cmp) && Added(s, s[i], cmp) == s
  {
    OrderOrders(s, s[i], cmp);
  }

  lemma NoItems<T(!new)>(s: seq<T>, t: seq<T>)
    requires s == [] || t == []
    requires forall y :: y in s <==> y in t
    ensures s == t
  {
    if s + t != [] {
      Contains(s + t, (s + t)[0]);
    }
  }

  /** A strictly increasing sequence is determined by its items. */
  lemma {:induction false} Canonical<T(!new)>(s: seq<T>, t: seq<T>, cmp: Comparator<T>)
    requires Mirrored(cmp) && Increasing(s, cmp) && Increasing(t, cmp)
    requires forall y :: y in s <==> y in t
    ensures s == t
  {
    if s == [] || t == [] {
      NoItems(s, t);
    } else {
      assert s[0] in t && t[0] in s;
      assert s[0] == t[0];
      forall y ensures y in s[1..] <==> y in t[1..] {
        assert y in s[1..] <==> y in s && y != s[0];
        assert y in t[1..] <==> y in t && y != t[0];
      }
      Canonical(s[1..], t[1..], cmp);
    }
  }

  /** The end items that the sorted merge compares are equal, in the branch it then takes. */
  predicate EndsTie<T>(s: seq<T>, r: seq<T>, cmp: Comparator<T>)
    requires s != []
  {
    r != [] && (cmp(r[|r| - 1], s[0]) == 0 || (cmp(r[|r| - 1], s[0]) > 0 && cmp(r[0], s[|s| - 1]) == 0))
  }

  /** Every item of one sequence lies below every item of another, if the ends meet so. */
  lemma Stacked<T(!new)>(a: seq<T>, b: seq<T>, cmp: Comparator<T>)
    requires Ordering(cmp) && Increasing(a, cmp) && Increasing(b, cmp)
    requires a != [] && b != [] && cmp(a[|a| - 1], b[0]) < 0
    ensures Increasing(a + b, cmp)
    ensures forall x, y | x in a && y in b :: cmp(x, y) < 0 && cmp(y, x) > 0
  {
    var last := |a| - 1;
    forall i, j | 0 <= i < |a| && 0 <= j < |b| ensures cmp(a[i], b[j]) < 0 {
      if i < last {
        Below(a[i], a[last], b[0], cmp);
      }
      if j > 0 {
        Below(a[i], b[0], b[j], cmp);
      }
    }
  }

  /** The vector after each step of merging item by item. */
  lemma MergePlan<T(!new)>(s: seq<T>, r: seq<T>, cmp: Comparator<T>) returns (run: seq<seq<T>>)
    requires Ordering(cmp) && Increasing(s, cmp)
    ensures |run| == |r| + 1 && run[0] == s
    ensures forall i | 0 <= i <= |r| :: Increasing(run[i], cmp) && run[i] == Merged(s, r[..i], cmp)
    ensures forall i | 0 <= i < |r| :: run[i + 1] == Added(run[i], r[i], cmp)
  {
    run := seq(|r| + 1, i requires 0 <= i <= |r| => Merged(s, r[..i], cmp));
    assert r[..0] == [];
    forall i | 0 <= i <= |r| ensures Increasing(run[i], cmp) && (i < |r| ==> run[i + 1] == Added(run[i], r[i], cmp)) {
      MergeIsUnion(s, r[..i], cmp);
      assert i < |r| ==> r[..i + 1][..i] == r[..i];
    }
  }

  /** A strictly increasing sequence survives whole. */
  lemma AllSurvive<T(!new)>(r: seq<T>, y: T, cmp: Comparator<T>)
    requires Increasing(r, cmp)
    ensures Survives(r, y, cmp) <==> y in r
  {
    if y in r {
      var i :| 0 <= i < |r| && r[i] == y;
    }
  }

  lemma StackedIsMerged<T(!new)>(s: seq<T>, r: seq<T>, t: seq<T>, cmp: Comparator<T>)
    requires Ordering(cmp) && Increasing(s, cmp) && Increasing(r, cmp) && Increasing(t, cmp)
    requires t == s + r || t == r + s
    requires forall x, z | x in s && z in r :: cmp(x, z) != 0
    ensures t == Merged(s, r, cmp)
  {
    MergeIsUnion(s, r, cmp);
    forall y ensures y in t <==> y in Merged(s, r, cmp) {
      AllSurvive(r, y, cmp);
    }
    Canonical(t, Merged(s, r, cmp), cmp);
  }

  lemma NotIncreasing<T>(a: seq<T>, b: seq<T>, cmp: Comparator<T>)
    requires a != [] && b != [] && cmp(a[|a| - 1], b[0]) == 0
    ensures !Increasing(a + b, cmp)
  {
    assert (a + b)[|a| - 1] == a[|a| - 1] && (a + b)[|a|] == b[0];
  }

  /** Merging a sorted vector the fast way gives what merging it item by item gives, exactly if the end items
      it compares do not tie; on a tie it keeps both. */
  lemma FastMergeIsMerge<T(!new)>(s: seq<T>, r: seq<T>, cmp: Comparator<T>)
    requires Ordering(cmp) && Increasing(s, cmp) && Increasing(r, cmp) && s != []
    ensures MergedSorted(s, r, cmp) == Merged(s, r, cmp) <==> !EndsTie(s, r, cmp)
  {
    if r != [] {
      MergeIsUnion(s, r, cmp);
      var below, above := cmp(r[|r| - 1], s[0]), cmp(r[0], s[|s| - 1]);
      if below == 0 {
        NotIncreasing(r, s, cmp);
      } else if below < 0 {
        Stacked(r, s, cmp);
        StackedIsMerged(s, r, r + s, cmp);
      } else if above == 0 {
        assert cmp(s[|s| - 1], r[0]) == 0;
        NotIncreasing(s, r, cmp);
      } else if above > 0 {
        assert cmp(s[|s| - 1], r[0]) < 0;
        Stacked(s, r, cmp);
        StackedIsMerged(s, r, s + r, cmp);
      }
    }
  }

  /** On a tie the fast merge keeps two equal items where the plain one keeps the later. */
  lemma TieKeepsBoth()
    ensures var cmp: Comparator<int> := (a, b) => a - b;
      Ordering(cmp) && EndsTie([1], [0, 1], cmp) &&
        MergedSorted([1], [0, 1], cmp) == [0, 1, 1] && Merged([1], [0, 1], cmp) == [0, 1]
  {
  }

  class SortedVectorImpl<T(0, !new)> {
    const base: VectorImpl<T>
    const cmp: Comparator<T>

    constructor (base: VectorImpl<T>, cmp: Comparator<T>)
      ensures this.base == base && this.cmp == cmp
    {
      this.base, this.cmp := base, cmp;
    }

    /** `_indexOrderOf`: binary search. */
    method IndexOrderOf(item: T) returns (found: bool, order: nat)
      requires base.Valid() && Sorted()
      ensures Orders(base.Contents(), item, cmp, order, found)
      ensures order == Order(base.Contents(), item, cmp) && found == Found(base.Contents(), item, cmp)
    {
      ghost var s := base.Contents();
      var l, h := 0, base.count - 1;
      found := false;
      while l <= h && !found
        invariant 0 <= l <= h + 1 <= |s|
        invariant forall i | 0 <= i < l :: cmp(s[i], item) < 0
        invariant found ==> l < |s| && cmp(s[l], item) == 0
        invariant forall i | (if found then l else h) < i < |s| :: cmp(s[i], item) > 0
        decreases if found then 0 else 1, h - l
      {
        var mid := l + (h - l) / 2;
        var c := cmp(base.storage.slots[mid].item, item);
        Sides(s, mid, item, cmp);
        if c == 0 {
          l, found := mid, true;
        } else if c < 0 {
          l := mid + 1;
        } else {
          h := mid - 1;
        }
      }
      order := l;
      OrderIsUnique(s, item, cmp, order, found);
    }

    ghost predicate Sorted()
      reads base, base.storage
    {
      Ordering(cmp) && Increasing(base.Contents(), cmp)
    }

    /** Put the item in its place, over the item equal to it if there is one. */
    method Add(item: T) returns (r: Status)
      requires base.Valid() && Sorted()
      modifies base, base.heap`live, base.heap`failures, base.storage, base.OwnSlots()
      ensures base.Valid() && base.Step(old(base.storage)) && base.heap.failures >= old(base.heap.failures)
      ensures r ==
        if base.heap.failures > old(base.heap.failures) then NoMemory else Ok(Order(old(base.Contents()), item, cmp))
      ensures base.Contents() == if r.Ok? then Added(old(base.Contents()), item, cmp) else old(base.Contents())
      ensures Found(old(base.Contents()), item, cmp) ==> r.Ok?
    {
      hide Swapped, Increasing, Ordering, Order, Found, Added;
      AddedMeans(base.Contents(), item, cmp);
      var found, order := IndexOrderOf(item);
      ghost var fill;
      if found {
        r, fill := base.ReplaceAt(Some(item), order);
      } else {
        assert Splat(item, 1) == [item];
        r, fill := base.InsertAt(Some(item), order, 1);
      }
    }

    /** Take out the item equal to the one given. Its index is returned even if smaller storage could not be had and
        it stayed. */
    method Remove(item: T) returns (index: Option<nat>)
      requires base.Valid() && Sorted()
      modifies base, base.heap`live, base.heap`failures, base.storage, base.OwnSlots()
      ensures base.Valid() && base.Step(old(base.storage)) && base.heap.failures >= old(base.heap.failures)
      ensures index ==
        if Found(old(base.Contents()), item, cmp) then Some(Order(old(base.Contents()), item, cmp)) else None
      ensures base.Contents() == if base.heap.failures > old(base.heap.failures) then old(base.Contents())
        else Removed(old(base.Contents()), item, cmp)
    {
      hide Swapped, Increasing, Ordering;
      base.Stays();
      var found, order := IndexOrderOf(item);
      index := None;
      if found {
        var r := base.RemoveItemsAt(order, 1);
        index := Some(order);
      }
    }

    /** Another vector's items, in storage this vector shares or keeps off. */
    ghost predicate Keeps(v: VectorImpl<T>, items: seq<T>)
      reads base, base.storage, v, v.storage, if v.storage == null then {} else {v.storage.slots}, base.heap
    {
      && v.count == |items|
      && if v.storage == null then items == []
         else v in v.storage.owners && base.heap.Packed(v.storage.slots, items) && base.Apart(v)
    }

    /** The storage is what it was, or new. */
    twostate predicate Renewed()
      reads base, base.storage
    {
      || base.storage == null
      || (base.storage == old(base.storage) && base.Sole() == old(base.Sole()))
      || (fresh(base.storage) && fresh(base.storage.slots) && base.Sole())
    }

    method AddKeeping(item: T, v: VectorImpl<T>, ghost items: seq<T>, ghost next: seq<T>) returns (ok: bool)
      requires base.Valid() && Sorted() && v != base && Keeps(v, items) && next == Added(base.Contents(), item, cmp)
      modifies base, base.heap`live, base.heap`failures, base.storage, base.OwnSlots()
      ensures base.Valid() && Renewed() && Keeps(v, items) && base.Step(old(base.storage))
      ensures base.heap.failures >= old(base.heap.failures) && (ok <==> base.heap.failures == old(base.heap.failures))
      ensures base.Contents() == (if ok then next else old(base.Contents())) && (ok ==> base.storage != null)
    {
      hide Swapped, Increasing, Ordering, Added;
      AddedSomething(base.Contents(), item, cmp);
      if base.storage != null && base.storage.refs == 1 {
        base.storage.SoleOwner(base);
      }
      var r := Add(item);
      ok := r.Ok?;
    }

    /** Merge another vector's items one at a time. If storage runs out the first of them are merged. */
    method Merge(v: VectorImpl<T>) returns (ok: bool, ghost merged: nat)
      requires base.Valid() && Sorted() && v.Valid() && v != base && v.heap == base.heap && base.Apart(v)
      modifies base, base.heap`live, base.heap`failures, base.storage, base.OwnSlots()
      ensures base.Valid() && base.Step(old(base.storage)) && base.heap.failures >= old(base.heap.failures)
      ensures ok <==> base.heap.failures == old(base.heap.failures)
      ensures merged <= |old(v.Contents())| && (ok ==> merged == |old(v.Contents())|)
      ensures base.Contents() == Merged(old(base.Contents()), old(v.Contents())[..merged], cmp)
    {
      hide Merged, Added, Increasing, Ordering, VectorImpl.Apart, Swapped;
      base.Stays();
      ghost var live, sole, left := base.heap.live, base.Sole(), base.storage;
      ghost var items := v.Contents();
      ghost var run := MergePlan(base.Contents(), items, cmp);
      ok, merged := true, 0;
      var i := 0;
      while ok && i < v.count
        invariant base.Valid() && Keeps(v, items) && Renewed() && base.Step(old(base.storage))
        invariant merged <= i <= |items| && (ok ==> merged == i) && base.Contents() == run[merged]
        invariant base.heap.failures >= old(base.heap.failures) && (ok && base.storage == null ==> left == null)
        invariant ok <==> base.heap.failures == old(base.heap.failures)
      {
        ghost var sole', left' := base.Sole(), base.storage;
        ok := AddKeeping(v.storage.slots[i].item, v, items, run[i + 1]);
        SwappedTwice(live, sole, left, sole', left', base.storage);
        i := i + 1;
        merged := if ok then i else merged;
      }
    }

    /** Merge this vector into itself, one item at a time: each is found where it is and stays. */
    method MergeItself()
      requires base.Valid() && Sorted()
      modifies base, base.heap`live, base.heap`failures, base.storage, base.OwnSlots()
      ensures base.Valid() && base.Step(old(base.storage))
      ensures base.heap.failures == old(base.heap.failures) && base.Contents() == old(base.Contents())
    {
      hide Increasing, Ordering, Added, Found, Order, Swapped;
      base.Stays();
      ghost var live, sole, left := base.heap.live, base.Sole(), base.storage;
      ghost var s := base.Contents();
      for i := 0 to base.count
        invariant base.Valid() && Sorted() && base.Contents() == s && Renewed() && base.Step(old(base.storage))
        invariant base.heap.failures == old(base.heap.failures)
      {
        ghost var sole', left' := base.Sole(), base.storage;
        ItselfIsAdded(s, i, cmp);
        AddOwn(base.storage.slots[i].item);
        SwappedTwice(live, sole, left, sole', left', base.storage);
      }
    }

    /** Add an item that is there. */
    method AddOwn(item: T)
      requires base.Valid() && Sorted() && Found(base.Contents(), item, cmp)
      requires Added(base.Contents(), item, cmp) == base.Contents()
      modifies base, base.heap`live, base.heap`failures, base.storage, base.OwnSlots()
      ensures base.Valid() && Renewed() && base.Step(old(base.storage)) && base.Contents() == old(base.Contents())
      ensures base.heap.failures == old(base.heap.failures)
    {
      hide Swapped, Increasing, Ordering, Added, Found, Order;
      if base.storage != null && base.storage.refs == 1 {
        base.storage.SoleOwner(base);
      }
      var r := Add(item);
    }

    /** The merge of a sorted vector with itself ends there, unless it holds one item. */
    method MergeSortedItself()
      requires base.Valid() && Sorted() && base.count != 1
      modifies base, base.heap`live, base.heap`failures, base.storage, base.OwnSlots()
      ensures base.Valid() && base.Step(old(base.storage))
      ensures base.heap.failures == old(base.heap.failures) && base.Contents() == old(base.Contents())
    {
      if base.count != 0 {
        var first, last := CompareEnds(base);
        ghost var s := base.Contents();
        assert cmp(s[0], s[|s| - 1]) < 0 && cmp(s[|s| - 1], s[0]) > 0;
        if !first && !last {
          MergeItself();
        }
      }
    }

    method InsertAll(v: VectorImpl<T>, index: nat, ghost result: seq<T>) returns (ok: bool)
      requires base.Valid() && v.Valid() && v != base && base.Apart(v) && index <= base.count && v.count > 0
      requires result == Spliced(base.Contents(), index, v.Contents())
      modifies base, base.heap`live, base.heap`failures, base.storage, base.OwnSlots()
      ensures base.Valid() && base.Step(old(base.storage)) && base.heap.failures >= old(base.heap.failures)
      ensures ok <==> base.heap.failures == old(base.heap.failures)
      ensures base.Contents() == if ok then result else old(base.Contents())
    {
      var r := base.InsertVectorAt(v, index);
      ok := r.Ok?;
    }

    /** Compare the ends of two vectors: is all of the other one to go first, or last? */
    method CompareEnds(v: VectorImpl<T>) returns (first: bool, last: bool)
      requires base.Valid() && v.Valid() && v.heap == base.heap && base.count > 0 && v.count > 0
      ensures var s, items := base.Contents(), v.Contents();
        |s| > 0 && |items| > 0 && first == (cmp(items[|items| - 1], s[0]) <= 0) &&
          last == (cmp(items[0], s[|s| - 1]) >= 0)
    {
      first := cmp(v.storage.slots[v.count - 1].item, base.storage.slots[0].item) <= 0;
      last := cmp(v.storage.slots[0].item, base.storage.slots[base.count - 1].item) >= 0;
    }

    /** Merge a sorted vector: all of it first or last if it lies below or above this one, whose ends are compared, so
        that it must hold something unless there is nothing to merge. If storage runs out, all of this goes undone, or
        else the first items are merged. */
    method MergeSorted(v: VectorImpl<T>) returns (ok: bool, ghost merged: nat)
      requires base.Valid() && Sorted() && v.Valid() && v != base && v.heap == base.heap && base.Apart(v)
      requires Increasing(v.Contents(), cmp) && (base.count > 0 || v.count == 0)
      modifies base, base.heap`live, base.heap`failures, base.storage, base.OwnSlots()
      ensures base.Valid() && base.Step(old(base.storage)) && base.heap.failures >= old(base.heap.failures)
      ensures ok <==> base.heap.failures == old(base.heap.failures)
      ensures ok ==> base.Contents() == MergedSorted(old(base.Contents()), old(v.Contents()), cmp)
      ensures var s, items := old(base.Contents()), old(v.Contents());
        !ok ==>
          && |s| > 0 && |items| > 0 && merged <= |items|
          && base.Contents() == if cmp(items[|items| - 1], s[0]) <= 0 || cmp(items[0], s[|s| - 1]) >= 0 then s
                                else Merged(s, items[..merged], cmp)
    {
      hide Merged, Increasing, Ordering;
      ghost var s, items := base.Contents(), v.Contents();
      ghost var t := MergedSorted(s, items, cmp);
      ok, merged := true, 0;
      if v.count != 0 {
        var first, last := CompareEnds(v);
        assert Spliced(s, 0, items) == items + s && Spliced(s, |s|, items) == s + items && items[..|items|] == items;
        if first {
          assert t == items + s;
          ok := InsertAll(v, 0, t);
        } else if last {
          assert t == s + items;
          ok := InsertAll(v, base.count, t);
        } else {
          assert t == Merged(s, items, cmp);
          ok, merged := Merge(v);
        }
      }
    }
  }

  /** What comparing with one item of an increasing sequence says of the items on either side of it. */
  lemma Sides<T(!new)>(s: seq<T>, mid: nat, x: T, cmp: Comparator<T>)
    requires Ordering(cmp) && Increasing(s, cmp) && mid < |s|
    ensures cmp(s[mid], x) <= 0 ==> forall i | 0 <= i < mid :: cmp(s[i], x) < 0
    ensures cmp(s[mid], x) >= 0 ==> forall i | mid < i < |s| :: cmp(s[i], x) > 0
  {
    forall i | 0 <= i < mid && cmp(s[mid], x) <= 0 ensures cmp(s[i], x) < 0 {
      Below(s[i], s[mid], x, cmp);
    }
    forall i | mid < i < |s| && cmp(s[mid], x) >= 0 ensures cmp(s[i], x) > 0 {
      Below(x, s[mid], s[i], cmp);
    }
  }
}
