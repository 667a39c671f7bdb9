/** What sorting means: the order a comparator gives, insertion of one item after its equals, and
    the facts that make insertion sort a stable sort. */
module StableSort {

  /** Negative, zero or positive, as the first item belongs before, with or after the second. */
  type Comparator<!T> = (T, T) -> int

  ghost predicate TotalPreorder<T(!new)>(cmp: Comparator<T>)
  {
    && (forall a, b :: cmp(a, b) <= 0 || cmp(b, a) <= 0)
    && (forall a, b, c :: cmp(a, b) <= 0 && cmp(b, c) <= 0 ==> cmp(a, c) <= 0)
  }

  ghost predicate Sorted<T>(s: seq<T>, cmp: Comparator<T>)
  {
    forall i, j | 0 <= i < j < |s| :: cmp(s[i], s[j]) <= 0
  }

  /** The items that compare equal to `x`, in order. */
  function Class<T>(s: seq<T>, x: T, cmp: Comparator<T>): seq<T>
  {
    if s == [] then []
    else
      var last := s[|s| - 1];
      Class(s[..|s| - 1], x, cmp) + if cmp(last, x) <= 0 && cmp(x, last) <= 0 then [last] else []
  }

  /** `x` moved left past the items at the end that belong strictly after it. */
  function Insert<T>(s: seq<T>, x: T, cmp: Comparator<T>): (r: seq<T>)
    ensures |r| == |s| + 1
  {
    if s == [] || cmp(s[|s| - 1], x) <= 0 then s + [x]
    else Insert(s[..|s| - 1], x, cmp) + [s[|s| - 1]]
  }

  function InsertionSorted<T>(s: seq<T>, cmp: Comparator<T>): (r: seq<T>)
    ensures |r| == |s|
  {
    if s == [] then [] else Insert(InsertionSorted(s[..|s| - 1], cmp), s[|s| - 1], cmp)
  }

  /** Where insertion puts `x`: before every item at or past `p`, after the one before. */
  lemma {:induction false} InsertPosition<T>(s: seq<T>, x: T, p: nat, cmp: Comparator<T>)
    requires p <= |s| && (p == 0 || cmp(s[p - 1], x) <= 0)
    requires forall k | p <= k < |s| :: cmp(s[k], x) > 0
    ensures Insert(s, x, cmp) == s[..p] + [x] + s[p..]
  {
    if p == |s| {
      assert s[..p] == s && s[p..] == [];
    } else {
      var t := s[..|s| - 1];
      InsertPosition(t, x, p, cmp);
      assert t[..p] == s[..p] && t[p..] + [s[|s| - 1]] == s[p..];
    }
  }

  /** Item `i` moved left to place `p`. */
  function Moved<T>(s: seq<T>, i: nat, p: nat): (r: seq<T>)
    requires p <= i < |s|
    ensures |r| == |s|
  {
    seq(|s|, k requires 0 <= k < |s| => if k == p then s[i] else if p < k <= i then s[k - 1] else s[k])
  }

  lemma {:induction false} InsertMultiset<T>(s: seq<T>, x: T, cmp: Comparator<T>)
    ensures multiset(Insert(s, x, cmp)) == multiset(s) + multiset{x}
  {
    if s != [] && cmp(s[|s| - 1], x) > 0 {
      InsertMultiset(s[..|s| - 1], x, cmp);
      assert s == s[..|s| - 1] + [s[|s| - 1]];
    }
  }

  lemma {:induction false} InsertKeepsSorted<T(!new)>(s: seq<T>, x: T, cmp: Comparator<T>)
    requires TotalPreorder(cmp) && Sorted(s, cmp)
    ensures Sorted(Insert(s, x, cmp), cmp)
  {
    if s != [] && cmp(s[|s| - 1], x) > 0 {
      var t, last := s[..|s| - 1], s[|s| - 1];
      InsertKeepsSorted(t, x, cmp);
      InsertMultiset(t, x, cmp);
      var r := Insert(t, x, cmp);
      forall i | 0 <= i < |r| ensures cmp(r[i], last) <= 0 {
        assert r[i] in multiset(r);
        assert r[i] in t || r[i] == x;
      }
    } else {
      forall i | 0 <= i < |s| ensures cmp(s[i], x) <= 0 {
        assert i < |s| - 1 ==> cmp(s[i], s[|s| - 1]) <= 0;
      }
    }
  }

  lemma ClassSnoc<T>(s: seq<T>, y: T, x: T, cmp: Comparator<T>)
    ensures Class(s + [y], x, cmp) == Class(s, x, cmp) + if cmp(y, x) <= 0 && cmp(x, y) <= 0 then [y] else []
  {
    assert (s + [y])[..|s|] == s;
  }

  /** An item never passes one that compares equal to it. */
  lemma {:induction false} InsertKeepsClasses<T(!new)>(s: seq<T>, y: T, x: T, cmp: Comparator<T>)
    requires TotalPreorder(cmp)
    ensures Class(Insert(s, y, cmp), x, cmp) == Class(s + [y], x, cmp)
  {
    if s != [] && cmp(s[|s| - 1], y) > 0 {
      var t, last := s[..|s| - 1], s[|s| - 1];
      InsertKeepsClasses(t, y, x, cmp);
      ClassSnoc(Insert(t, y, cmp), last, x, cmp);
      ClassSnoc(t, y, x, cmp);
      ClassSnoc(s, y, x, cmp);
    }
  }

  /** Insertion sort sorts, permutes, and keeps equal items in their order. */
  lemma {:induction false} InsertionSortIsStable<T(!new)>(s: seq<T>, cmp: Comparator<T>)
    requires TotalPreorder(cmp)
    ensures Sorted(InsertionSorted(s, cmp), cmp)
    ensures multiset(InsertionSorted(s, cmp)) == multiset(s)
    ensures forall x :: Class(InsertionSorted(s, cmp), x, cmp) == Class(s, x, cmp)
  {
    if s != [] {
      var t, last := s[..|s| - 1], s[|s| - 1];
      InsertionSortIsStable(t, cmp);
      var r := InsertionSorted(t, cmp);
      InsertKeepsSorted(r, last, cmp);
      InsertMultiset(r, last, cmp);
      assert s == t + [last];
      forall x ensures Class(Insert(r, last, cmp), x, cmp) == Class(s, x, cmp) {
        InsertKeepsClasses(r, last, x, cmp);
        ClassSnoc(r, last, x, cmp);
        ClassSnoc(t, last, x, cmp);
      }
    }
  }

  ghost predicate InOrder<T>(s: seq<T>, cmp: Comparator<T>)
  {
    forall i, j | 0 <= i < |s| && j == i + 1 && j < |s| :: cmp(s[i], s[j]) <= 0
  }

  /** One turn of insertion sort: item `i` moves to its place among the items before it, if it
      belongs before the item on its left. */
  function Turn<T>(s: seq<T>, i: nat, cmp: Comparator<T>): (r: seq<T>)
    requires 0 < i < |s|
    ensures |r| == |s|
  {
    if cmp(s[i - 1], s[i]) <= 0 then s else Insert(s[..i], s[i], cmp) + s[i + 1..]
  }

  /** What a turn does, said by where the item goes. */
  lemma TurnMoves<T>(s: seq<T>, i: nat, p: nat, cmp: Comparator<T>)
    requires p < i < |s| && cmp(s[i - 1], s[i]) > 0 && (p == 0 || cmp(s[p - 1], s[i]) <= 0)
    requires forall k | p <= k < i :: cmp(s[k], s[i]) > 0
    ensures Turn(s, i, cmp) == Moved(s, i, p)
  {
    InsertPosition(s[..i], s[i], p, cmp);
    assert s[..i][..p] == s[..p] && s[..i][p..] == s[p..i];
  }

  /** `run[k]` is what turn `k` makes of `run[k - 1]`, all of them `n` items long. */
  ghost predicate IsRun<T>(run: seq<seq<T>>, n: nat, cmp: Comparator<T>)
  {
    && |run| <= n && (forall k | 0 <= k < |run| :: |run[k]| == n)
    && forall j, k | 0 <= j < |run| && k == j + 1 && k < |run| :: run[k] == Turn(run[j], k, cmp)
  }

  /** After turns `1` to `i` the first `i + 1` items are sorted and the others are as they were. */
  lemma {:induction false} Turns<T>(s: seq<T>, i: nat, cmp: Comparator<T>) returns (run: seq<seq<T>>)
    requires i < |s|
    ensures |run| == i + 1 && run[0] == s && IsRun(run, |s|, cmp)
    ensures run[i] == InsertionSorted(s[..i + 1], cmp) + s[i + 1..]
    ensures i + 1 == |s| ==> run[i] == InsertionSorted(s, cmp)
  {
    assert i + 1 == |s| ==> s[..i + 1] == s;
    assert s[..i + 1][..i] == s[..i];
    if i == 0 {
      run := [s];
      assert InsertionSorted(s[..1], cmp) == Insert([], s[0], cmp) == [s[0]];
    } else {
      run := Turns(s, i - 1, cmp);
      var now, r := run[i - 1], InsertionSorted(s[..i], cmp);
      var rest := s[i + 1..];
      assert now == r + [s[i]] + rest;
      assert now[..i] == r && now[i + 1..] == rest;
      run := run + [Turn(now, i, cmp)];
    }
  }

  /** Turns change nothing as long as the items are in order. */
  lemma {:induction false} NoTurns<T>(s: seq<T>, i: nat, run: seq<seq<T>>, cmp: Comparator<T>)
    requires 0 < i <= |s| && InOrder(s[..i], cmp) && i <= |run| <= |s| && run[0] == s && IsRun(run, |s|, cmp)
    ensures run[i - 1] == s
  {
    if i > 1 {
      var t := s[..i];
      assert s[..i - 1] == t[..i - 1] && cmp(t[i - 2], t[i - 1]) <= 0;
      NoTurns(s, i - 1, run, cmp);
    }
  }

  /** Item `i`, if there is one, is the first that belongs before the item on its left. */
  ghost predicate FirstOut<T>(s: seq<T>, i: nat, cmp: Comparator<T>)
  {
    0 < i <= |s| && InOrder(s[..i], cmp) && (i < |s| ==> cmp(s[i - 1], s[i]) > 0)
  }

  /** Sorting is a run of turns that does nothing before the first item out of place. */
  lemma SortPlan<T>(s: seq<T>, i: nat, cmp: Comparator<T>) returns (run: seq<seq<T>>)
    requires FirstOut(s, i, cmp)
    ensures |run| == |s| && IsRun(run, |s|, cmp) && run[i - 1] == s && run[|s| - 1] == InsertionSorted(s, cmp)
    ensures i < |s| <==> !InOrder(s, cmp)
  {
    run := Turns(s, |s| - 1, cmp);
    NoTurns(s, i, run, cmp);
    assert i == |s| ==> s[..i] == s;
  }

  /** Input already in order comes back as it is. */
  lemma {:induction false} InOrderIsFixed<T>(s: seq<T>, cmp: Comparator<T>)
    requires InOrder(s, cmp)
    ensures InsertionSorted(s, cmp) == s
  {
    if s != [] {
      var t, last := s[..|s| - 1], s[|s| - 1];
      InOrderIsFixed(t, cmp);
      assert s == t + [last];
    }
  }
}
