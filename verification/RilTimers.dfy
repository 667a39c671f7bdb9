/** The RIL event loop's timers as values: what was added, what waits, what has expired and what has fired. */
module RilTimers {
  /** A timer's deadline in microseconds, and which of the timers added, counted from 0, it is. */
  datatype Timer = Timer(due: int, serial: nat)

  /** A timer that was found expired at some time, when so many had been added. */
  datatype Expiry = Expiry(timer: Timer, now: int, addedBefore: nat)

  /** Due earlier, or added later when due at the same time. */
  predicate Sooner(a: Timer, b: Timer)
  {
    a.due < b.due || (a.due == b.due && a.serial > b.serial)
  }

  ghost predicate Sorted(q: seq<Timer>)
  {
    forall i, j | 0 <= i < j < |q| :: Sooner(q[i], q[j])
  }

  function TimersOf(x: seq<Expiry>): (q: seq<Timer>)
    ensures |q| == |x| && forall i | 0 <= i < |x| :: q[i] == x[i].timer
  {
    seq(|x|, i requires 0 <= i < |x| => x[i].timer)
  }

  /** The expiries of the first timers of a queue. */
  function Expiries(q: seq<Timer>, now: int, addedBefore: nat): (x: seq<Expiry>)
    ensures |x| == |q| && forall i | 0 <= i < |q| :: x[i] == Expiry(q[i], now, addedBefore)
  {
    seq(|q|, i requires 0 <= i < |q| => Expiry(q[i], now, addedBefore))
  }

  /** Every timer added waits, or has expired, or has fired, exactly once. */
  ghost predicate Conserved(added: seq<Timer>, waiting: seq<Timer>, expired: seq<Expiry>, fired: seq<Expiry>)
  {
    && (forall i | 0 <= i < |added| :: added[i].serial == i)
    && multiset(added) == multiset(waiting) + multiset(TimersOf(expired)) + multiset(TimersOf(fired))
  }

  /** None of these expired before its deadline had passed, nor before one that goes before it and had been added,
      be that among them or waiting still. */
  ghost predicate InTurn(added: seq<Timer>, waiting: seq<Timer>, expiries: seq<Expiry>)
  {
    && (forall x | x in expiries :: x.timer.due < x.now && x.addedBefore <= |added|)
    && (forall i, j | 0 <= i < j < |expiries| && expiries[j].timer.serial < expiries[i].addedBefore ::
      Sooner(expiries[i].timer, expiries[j].timer))
    && (forall x, t | x in expiries && t in waiting && t.serial < x.addedBefore :: Sooner(x.timer, t))
  }

  /** Nothing is lost, everything expires in turn, and what waits and what has expired is in order. */
  ghost predicate Sound(added: seq<Timer>, waiting: seq<Timer>, expired: seq<Expiry>, fired: seq<Expiry>)
  {
    && Conserved(added, waiting, expired, fired) && InTurn(added, waiting, fired + expired)
    && (forall t | t in waiting :: t.serial < |added|)
    && Sorted(waiting) && Sorted(TimersOf(expired))
  }

  function Inserted(q: seq<Timer>, i: nat, t: Timer): seq<Timer>
    requires i <= |q|
  {
    q[..i] + [t] + q[i..]
  }

  /** The newest timer goes before those due at the same time. */
  lemma InsertKeepsSorted(q: seq<Timer>, i: nat, t: Timer)
    requires Sorted(q) && i <= |q| && forall x | x in q :: x.serial < t.serial
    requires i > 0 ==> q[i - 1].due < t.due
    requires i < |q| ==> t.due <= q[i].due
    ensures Sorted(Inserted(q, i, t))
  {
    var r := Inserted(q, i, t);
    forall a, b | 0 <= a < b < |r| ensures Sooner(r[a], r[b]) {
      if b == i {
        assert r[a] == q[a] && (a < i - 1 ==> Sooner(q[a], q[i - 1]));
      } else if a == i {
        assert r[b] == q[b - 1] && q[b - 1] in q && (b - 1 > i ==> Sooner(q[i], q[b - 1]));
      } else {
        assert Sooner(q[if a < i then a else a - 1], q[if b < i then b else b - 1]);
      }
    }
  }

  lemma InsertedItems(q: seq<Timer>, i: nat, t: Timer)
    requires i <= |q|
    ensures multiset(Inserted(q, i, t)) == multiset(q) + multiset{t}
    ensures forall x :: x in Inserted(q, i, t) <==> x == t || x in q
  {
    assert q == q[..i] + q[i..];
  }

  lemma AddKeepsSound(added: seq<Timer>, waiting: seq<Timer>, expired: seq<Expiry>, fired: seq<Expiry>, i: nat,
    t: Timer)
    requires Sound(added, waiting, expired, fired) && t.serial == |added| && i <= |waiting|
    requires i > 0 ==> waiting[i - 1].due < t.due
    requires i < |waiting| ==> t.due <= waiting[i].due
    ensures Sound(added + [t], Inserted(waiting, i, t), expired, fired)
  {
    hide Inserted, Sorted, TimersOf;
    assert forall x | x in waiting :: x.serial < t.serial;
    InsertKeepsSorted(waiting, i, t);
    InsertedItems(waiting, i, t);
  }

  /** The first timers of a sorted queue expire before those left, in order. */
  lemma ExpireInTurn(added: seq<Timer>, waiting: seq<Timer>, fired: seq<Expiry>, n: nat, now: int)
    requires InTurn(added, waiting, fired) && Sorted(waiting) && n <= |waiting|
    requires forall i | 0 <= i < n :: waiting[i].due < now
    ensures InTurn(added, waiting[n..], fired + Expiries(waiting[..n], now, |added|))
  {
    var x := Expiries(waiting[..n], now, |added|);
    var all := fired + x;
    forall i, j | 0 <= i < j < |all| && all[j].timer.serial < all[i].addedBefore
      ensures Sooner(all[i].timer, all[j].timer)
    {
      assert j >= |fired| ==> all[j].timer == waiting[j - |fired|] && all[j].timer in waiting;
    }
    forall y, t | y in all && t in waiting[n..] && t.serial < y.addedBefore ensures Sooner(y.timer, t) {
      assert t in waiting;
      if y in x {
        var i :| 0 <= i < n && y == x[i];
        var j :| 0 <= j < |waiting| - n && t == waiting[n..][j];
        assert Sooner(waiting[i], waiting[n + j]);
      }
    }
  }

  lemma Halves<T>(q: seq<T>, n: nat)
    requires n <= |q|
    ensures multiset(q) == multiset(q[n..]) + multiset(q[..n])
  {
    assert q == q[..n] + q[n..];
  }

  lemma ExpiriesTimers(q: seq<Timer>, now: int, addedBefore: nat)
    ensures TimersOf(Expiries(q, now, addedBefore)) == q && TimersOf([]) == []
  {
  }

  lemma HalvesSorted(q: seq<Timer>, n: nat)
    requires Sorted(q) && n <= |q|
    ensures Sorted(q[n..]) && Sorted(q[..n])
  {
    assert forall i | 0 <= i < |q| - n :: q[n..][i] == q[n + i];
  }

  /** The first `n` timers expire together. */
  lemma ExpireKeepsSound(added: seq<Timer>, waiting: seq<Timer>, fired: seq<Expiry>, n: nat, now: int)
    requires Sound(added, waiting, [], fired) && n <= |waiting| && forall i | 0 <= i < n :: waiting[i].due < now
    ensures Sound(added, waiting[n..], Expiries(waiting[..n], now, |added|), fired)
  {
    hide InTurn, Sorted, TimersOf, Expiries;
    assert fired + [] == fired;
    ExpireInTurn(added, waiting, fired, n, now);
    Halves(waiting, n);
    HalvesSorted(waiting, n);
    ExpiriesTimers(waiting[..n], now, |added|);
  }

  lemma TimersMove(expired: seq<Expiry>, fired: seq<Expiry>)
    requires expired != []
    ensures TimersOf(expired[1..]) == TimersOf(expired)[1..]
    ensures TimersOf(fired + [expired[0]]) == TimersOf(fired) + [expired[0].timer]
  {
  }

  lemma FirstMoves<T>(q: seq<T>, r: seq<T>)
    requires q != []
    ensures multiset(q[1..]) + multiset(r + [q[0]]) == multiset(q) + multiset(r)
  {
    Halves(q, 1);
    assert q[..1] == [q[0]];
  }

  /** The first expired timer fires. */
  lemma FireKeepsSound(added: seq<Timer>, waiting: seq<Timer>, expired: seq<Expiry>, fired: seq<Expiry>)
    requires Sound(added, waiting, expired, fired) && expired != []
    ensures Sound(added, waiting, expired[1..], fired + [expired[0]])
  {
    hide InTurn, Sorted, TimersOf;
    TimersMove(expired, fired);
    FirstMoves(TimersOf(expired), TimersOf(fired));
    HalvesSorted(TimersOf(expired), 1);
    assert (fired + [expired[0]]) + expired[1..] == fired + expired;
    var w, e, f := multiset(waiting), multiset(TimersOf(expired)), multiset(TimersOf(fired));
    assert w + e + f == w + (e + f);
  }

  lemma {:induction false} AddedOnce(added: seq<Timer>, t: Timer)
    requires forall i | 0 <= i < |added| :: added[i].serial == i
    ensures multiset(added)[t] == (if t in added then 1 else 0)
    ensures t.serial >= |added| ==> t !in added
  {
    if added != [] {
      var n := |added| - 1;
      AddedOnce(added[..n], t);
      assert added == added[..n] + [added[n]];
    }
  }

  /** Each timer added is waiting, expired or fired, and only one of them, and once. */
  lemma EachOnce(added: seq<Timer>, waiting: seq<Timer>, expired: seq<Expiry>, fired: seq<Expiry>, t: Timer)
    requires Sound(added, waiting, expired, fired)
    ensures multiset(waiting)[t] + multiset(TimersOf(expired))[t] + multiset(TimersOf(fired))[t] ==
            (if t in added then 1 else 0)
  {
    hide TimersOf, Sorted, InTurn;
    AddedOnce(added, t);
  }

  /** How long the loop may sleep from `since` when the next timer is due at `due`: until then, or not at all. */
  predicate InTime(since: int, wait: int, due: int)
  {
    since + wait <= if due > since then due else since
  }
}
