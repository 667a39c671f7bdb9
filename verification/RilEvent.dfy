/** The RIL event loop: rings of events, timers sorted by deadline, and the table of watched descriptors. */
module RilEvents {
  import opened RilTimers

  // ---- struct timeval and its macros ----

  const MILLION: int := 1_000_000

  datatype Timeval = Timeval(sec: int, usec: int)

  predicate Normal(t: Timeval)
  {
    0 <= t.usec < MILLION
  }

  function Micros(t: Timeval): int
  {
    t.sec * MILLION + t.usec
  }

  function Plus(a: Timeval, b: Timeval): (t: Timeval)
    requires Normal(a) && Normal(b)
    ensures Normal(t) && Micros(t) == Micros(a) + Micros(b)
  {
    if a.usec + b.usec >= MILLION then Timeval(a.sec + b.sec + 1, a.usec + b.usec - MILLION)
    else Timeval(a.sec + b.sec, a.usec + b.usec)
  }

  function Minus(a: Timeval, b: Timeval): (t: Timeval)
    requires Normal(a) && Normal(b)
    ensures Normal(t) && Micros(t) == Micros(a) - Micros(b)
  {
    if a.usec - b.usec < 0 then Timeval(a.sec - b.sec - 1, a.usec - b.usec + MILLION)
    else Timeval(a.sec - b.sec, a.usec - b.usec)
  }

  predicate Less(a: Timeval, b: Timeval)
    requires Normal(a) && Normal(b)
    ensures Less(a, b) <==> Micros(a) < Micros(b)
  {
    if a.sec == b.sec then a.usec < b.usec else a.sec < b.sec
  }

  // ---- rings ----

  class RilEvent {
    var next: RilEvent?
    var prev: RilEvent?
    var fd: int
    var index: int
    var persist: bool
    var timeout: Timeval
    /** Which of the timers added, counted from 0, this is. */
    ghost var serial: nat

    constructor (fd: int, persist: bool)
      ensures this.fd == fd && index == -1 && this.persist == persist && next == null && prev == null
      ensures Normal(timeout)
    {
      next, prev, index, timeout := null, null, -1, Timeval(0, 0);
      this.fd, this.persist := fd, persist;
    }
  }

  /** A doubly linked cycle through these distinct events, the list head first. */
  ghost predicate Ring(s: seq<RilEvent>)
    reads s`next, s`prev
  {
    && s != []
    && (forall i, j | 0 <= i < j < |s| :: s[i] != s[j])
    && (forall i {:trigger s[i].next} | 0 <= i < |s| - 1 :: s[i].next == s[i + 1])
    && (forall i {:trigger s[i].prev} | 0 < i < |s| :: s[i].prev == s[i - 1])
    && s[|s| - 1].next == s[0] && s[0].prev == s[|s| - 1]
  }

  /** The first members of a ring, reached from its head. */
  lemma Start(s: seq<RilEvent>)
    requires Ring(s)
    ensures |s| > 0 && s[0].next == if |s| > 1 then s[1] else s[0]
    ensures |s| > 1 ==> s[1] != s[0] && s[1].next == if |s| > 2 then s[2] else s[0]
  {
  }

  /** Moving the first of the remaining members of `all` from one ring to the end of another. */
  lemma Advance(all: seq<RilEvent>, h: RilEvent, p: RilEvent, n: nat)
    requires n + 1 < |all|
    ensures var t := [h] + all[n + 1..]; t[1] == all[n + 1] && [t[0]] + t[2..] == [h] + all[n + 2..]
    ensures [p] + all[1..n + 1] + [all[n + 1]] == [p] + all[1..n + 2]
    ensures var t := [h] + all[n + 2..]; (if |t| > 1 then t[1] else t[0]) == if n + 2 < |all| then all[n + 2] else h
  {
  }

  /** A member taken out is gone, and the head stays. */
  lemma TakenOut(s: seq<RilEvent>, i: nat)
    requires Ring(s) && 0 < i < |s|
    ensures s[i] !in s[..i] + s[i + 1..]
  {
  }

  /** Where the members of the two rings come from once the first `n` timers have moved. */
  lemma Parts(all: seq<RilEvent>, n: nat, h: RilEvent, p: RilEvent)
    requires n < |all| && all[0] !in all[1..]
    ensures |[p] + all[1..n + 1]| == n + 1
    ensures h == all[0] ==> forall e | e in [h] + all[n + 1..] :: e in all
    ensures forall e | e in [p] + all[1..n + 1] :: e == p || (e in all && e != all[0])
  {
    assert forall e | e in all[1..n + 1] :: e in all[1..] && e in all;
    assert forall e | e in all[n + 1..] :: e in all;
  }

  lemma NotHead(s: seq<RilEvent>)
    requires Ring(s)
    ensures |s| > 0 && s[0] !in s[1..]
  {
  }

  function Put(s: seq<RilEvent>, i: nat, ev: RilEvent): seq<RilEvent>
    requires i <= |s|
  {
    s[..i] + [ev] + s[i..]
  }

  /** addToList: put an event before a member of the ring; before the head is at the end. */
  method AddToList(ev: RilEvent, list: RilEvent, ghost s: seq<RilEvent>, ghost i: nat)
    requires Ring(s) && ev !in s && 0 < i <= |s| && list == (if i == |s| then s[0] else s[i])
    modifies ev`next, ev`prev, s`next, s`prev
    ensures Ring(Put(s, i, ev))
  {
    assert list.prev == s[i - 1];
    ev.next := list;
    ev.prev := list.prev;
    ev.prev.next := ev;
    list.prev := ev;
  }

  /** removeFromList: unlink a member other than the head. */
  method RemoveFromList(ev: RilEvent, ghost s: seq<RilEvent>, ghost i: nat)
    requires Ring(s) && 0 < i < |s| && ev == s[i]
    modifies s`next, s`prev
    ensures Ring(s[..i] + s[i + 1..]) && ev.next == null && ev.prev == null
  {
    assert ev.next == (if i + 1 < |s| then s[i + 1] else s[0]) && ev.prev == s[i - 1];
    ev.next.prev := ev.prev;
    ev.prev.next := ev.next;
    ev.next := null;
    ev.prev := null;
  }

  // ---- the timer ring and the ring of events about to fire ----

  /** The first events after the head stand for these timers. */
  ghost predicate Carry(s: seq<RilEvent>, q: seq<Timer>)
    reads s`timeout, s`serial
  {
    |q| < |s| && forall i | 0 <= i < |q| :: Carries(s[i + 1], q[i])
  }

  ghost predicate Carries(e: RilEvent, t: Timer)
    reads e`timeout, e`serial
  {
    Normal(e.timeout) && t == Timer(Micros(e.timeout), e.serial)
  }

  lemma AtCarries(s: seq<RilEvent>, q: seq<Timer>)
    requires Carry(s, q)
    ensures |q| < |s| && forall i | 0 <= i < |q| :: Carries(s[i + 1], q[i])
  {
  }

  lemma NthCarries(s: seq<RilEvent>, q: seq<Timer>, n: nat)
    requires Carry(s, q)
    ensures |q| < |s|
    ensures n < |q| ==> Normal(s[n + 1].timeout) && Micros(s[n + 1].timeout) == q[n].due
  {
    assert n < |q| ==> Carries(s[n + 1], q[n]);
  }

  lemma SplitCarries(s: seq<RilEvent>, q: seq<Timer>, n: nat, h: RilEvent)
    requires Carry(s, q) && n <= |q|
    ensures Carry([h] + s[n + 1..], q[n..]) && Carry([h] + s[1..n + 1], q[..n])
  {
  }

  lemma PutCarries(s: seq<RilEvent>, q: seq<Timer>, i: nat, ev: RilEvent, t: Timer)
    requires Carry(s, q) && i <= |q| && Carries(ev, t)
    ensures Carry(Put(s, i + 1, ev), Inserted(q, i, t))
    ensures |Put(s, i + 1, ev)| == |s| + 1 && |Inserted(q, i, t)| == |q| + 1
  {
    var s', q' := Put(s, i + 1, ev), Inserted(q, i, t);
    forall k | 0 <= k < |q'| ensures Carries(s'[k + 1], q'[k]) {
      if k < i {
        assert s'[k + 1] == s[k + 1] && q'[k] == q[k];
      } else if k > i {
        assert s'[k + 1] == s[k] && q'[k] == q[k - 1];
      }
    }
  }

  class Rings {
    const timerList: RilEvent
    const pendingList: RilEvent
    /** The rings, each with its head first. */
    ghost var timers: seq<RilEvent>
    ghost var pending: seq<RilEvent>
    /** The timers ever added; the values of those that wait, those pending, and those fired. */
    ghost var added: seq<Timer>
    ghost var waiting: seq<Timer>
    ghost var expired: seq<Expiry>
    ghost var fired: seq<Expiry>

    ghost predicate Linked()
      reads `timers, `pending, timers`next, timers`prev, pending`next, pending`prev
    {
      && Ring(timers) && timers[0] == timerList
      && Ring(pending) && pending[0] == pendingList
    }

    ghost predicate Apart()
      reads `timers, `pending
    {
      forall e | e in timers :: e !in pending
    }

    /** The timer ring carries the values of those that wait, the start of the other those that have expired. */
    ghost predicate Mirrors()
      reads `timers, `pending, `waiting, `expired, timers`timeout, timers`serial, pending`timeout, pending`serial
    {
      |waiting| + 1 == |timers| && Carry(timers, waiting) && Carry(pending, TimersOf(expired))
    }

    ghost predicate Valid()
      reads this, timers`next, timers`prev, timers`timeout, timers`serial, pending`next, pending`prev,
        pending`timeout, pending`serial
    {
      Linked() && Apart() && Mirrors() && Sound(added, waiting, expired, fired)
    }

    /** init_list, for both rings. */
    constructor ()
      ensures Valid() && fresh(timerList) && fresh(pendingList) && timers == [timerList] && pending == [pendingList]
      ensures added == [] && fired == [] && expired == []
    {
      var t := new RilEvent(-1, false);
      var p := new RilEvent(-1, false);
      timerList, pendingList, timers, pending := t, p, [t], [p];
      added, waiting, expired, fired := [], [], [], [];
      new;
      timerList.next, timerList.prev := timerList, timerList;
      pendingList.next, pendingList.prev := pendingList, pendingList;
    }

    /** The first timer due no earlier, or the head if there is none. */
    method FindPlace(timeout: Timeval) returns (list: RilEvent, ghost i: nat)
      requires Linked() && Mirrors() && Normal(timeout)
      ensures i <= |waiting| && list == if i < |waiting| then timers[i + 1] else timers[0]
      ensures i > 0 ==> waiting[i - 1].due < Micros(timeout)
      ensures i < |waiting| ==> Micros(timeout) <= waiting[i].due
    {
      assert |timers| > 1 ==> timers[0].next == timers[1];
      list, i := timerList.next, 0;
      while list != timerList && Less(list.timeout, timeout)
        invariant i <= |waiting| && list == if i < |waiting| then timers[i + 1] else timers[0]
        invariant i > 0 ==> waiting[i - 1].due < Micros(timeout)
        invariant i < |waiting| ==> Carries(timers[i + 1], waiting[i])
        decreases |waiting| - i
      {
        assert i + 2 < |timers| ==> timers[i + 1].next == timers[i + 2];
        list := list.next;
        i := i + 1;
      }
      assert i < |waiting| ==> timers[i + 1] != timers[0] && Carries(timers[i + 1], waiting[i]);
    }

    /** Put an event into the timer ring before its member after the first `i`. */
    method Link(ev: RilEvent, list: RilEvent, ghost i: nat)
      requires Linked() && Apart() && ev !in timers && ev !in pending
      requires i < |timers| && list == if i + 1 < |timers| then timers[i + 1] else timers[0]
      modifies `timers, ev`next, ev`prev, timers`next, timers`prev
      ensures Linked() && Apart() && timers == Put(old(timers), i + 1, ev)
      ensures forall e :: e in timers <==> e in old(timers) || e == ev
    {
      hide Ring;
      assert forall k | 0 <= k < |pending| :: pending[k] !in timers;
      AddToList(ev, list, timers, i + 1);
      assert timers == timers[..i + 1] + timers[i + 1..];
      timers := Put(timers, i + 1, ev);
    }

    /** Put a timer and its value into the ring at the place found for it. */
    method Insert(ev: RilEvent, list: RilEvent, ghost i: nat, ghost t: Timer)
      requires Linked() && Apart() && Mirrors() && ev !in timers && ev !in pending && Carries(ev, t)
      requires i <= |waiting| && list == if i < |waiting| then timers[i + 1] else timers[0]
      modifies `timers, `waiting, ev`next, ev`prev, timers`next, timers`prev
      ensures Linked() && Apart() && Mirrors() && waiting == Inserted(old(waiting), i, t)
      ensures forall e :: e in timers <==> e in old(timers) || e == ev
    {
      hide Linked, Apart, Carry, Carries, Inserted;
      PutCarries(timers, waiting, i, ev, t);
      ghost var next := Put(timers, i + 1, ev);
      Link(ev, list, i);
      waiting := Inserted(waiting, i, t);
      assert timers == next;
    }

    /** ril_timer_add: before the first timer due no earlier. */
    method TimerAdd(ev: RilEvent, tv: Timeval, now: Timeval)
      requires Valid() && ev !in timers && ev !in pending && Normal(tv) && Normal(now)
      modifies `timers, `added, `waiting, ev, timers`next, timers`prev
      ensures Valid()
      ensures added == old(added) + [Timer(Micros(now) + Micros(tv), |old(added)|)]
      ensures forall e :: e in timers <==> e in old(timers) || e == ev
      ensures ev.fd == -1 && ev.index == old(ev.index)
    {
      hide Sound, Linked, Apart, Mirrors, Inserted;
      var timeout := Plus(now, tv);
      var list;
      ghost var i;
      list, i := FindPlace(timeout);
      ghost var t := Timer(Micros(timeout), |added|);
      AddKeepsSound(added, waiting, expired, fired, i, t);
      ev.fd, ev.timeout, ev.serial := -1, timeout, |added|;
      Insert(ev, list, i, t);
      added := added + [t];
    }

    /** Move the first timer to the end of the other ring. */
    method MoveFirst(tev: RilEvent)
      requires Linked() && Apart() && |timers| > 1 && tev == timers[1]
      modifies `timers, `pending, timers`next, timers`prev, pending`next, pending`prev
      ensures Linked() && Apart()
      ensures timers == [old(timers)[0]] + old(timers)[2..] && pending == old(pending) + [tev]
    {
      hide Ring;
      assert forall k | 0 <= k < |pending| :: pending[k] !in timers;
      TakenOut(timers, 1);
      Start(pending);
      RemoveFromList(tev, timers, 1);
      timers := timers[..1] + timers[2..];
      assert Ring(pending) && tev !in pending;
      label L:
      AddToList(tev, pendingList, pending, |pending|);
      assert forall k | 0 <= k < |timers| :: unchanged@L(timers[k]);
      pending := Put(pending, |pending|, tev);
    }

    /** The first `n` timers of `all` are on the other ring, the rest still on their own. */
    ghost predicate Walked(all: seq<RilEvent>, n: nat)
      reads `timers, `pending, timers`next, timers`prev, pending`next, pending`prev
    {
      && Linked() && Apart() && n < |all|
      && timers == [timerList] + all[n + 1..] && pending == [pendingList] + all[1..n + 1]
    }

    ghost predicate Within(both: set<RilEvent>)
      reads `timers, `pending
    {
      (forall e | e in timers :: e in both) && forall e | e in pending :: e in both
    }

    lemma WalkedSoFar(all: seq<RilEvent>, n: nat)
      requires Walked(all, n)
      ensures Linked() && Apart() && n < |all|
      ensures timers == [timerList] + all[n + 1..] && pending == [pendingList] + all[1..n + 1]
    {
    }

    lemma WalkBegins()
      requires Linked() && Apart() && Mirrors() && |pending| == 1
      ensures Walked(timers, 0) && |timers| == |waiting| + 1 && Carry(timers, waiting)
      ensures timerList.next == if |waiting| > 0 then timers[1] else timerList
      ensures waiting != [] ==>
        timers[1] != timerList && Normal(timers[1].timeout) && Micros(timers[1].timeout) == waiting[0].due
    {
      Start(timers);
      NthCarries(timers, waiting, 0);
    }

    /** One turn of processTimeouts: a timer moves, and the next one is looked at. */
    method MoveNext(tev: RilEvent, ghost all: seq<RilEvent>, ghost n: nat, ghost both: set<RilEvent>)
      returns (next: RilEvent)
      requires Walked(all, n) && n + 1 < |all| && tev == all[n + 1] && Within(both)
      modifies `timers, `pending, both`next, both`prev
      ensures Walked(all, n + 1) && next == timers[0].next == if n + 2 < |all| then all[n + 2] else timerList
      ensures n + 2 < |all| ==> next != timerList
      ensures Within(both)
    {
      hide Ring;
      Start(timers);
      Advance(all, timerList, pendingList, n);
      next := tev.next;
      MoveFirst(tev);
      Start(timers);
    }

    /** The walk of processTimeouts over the rings. */
    method MoveExpired(now: Timeval, ghost both: set<RilEvent>) returns (ghost n: nat)
      requires Linked() && Apart() && Mirrors() && Normal(now) && |pending| == 1 && Within(both)
      modifies `timers, `pending, both`next, both`prev
      ensures Linked() && Apart() && n <= |waiting|
      ensures timers == [timerList] + old(timers)[n + 1..] && pending == [pendingList] + old(timers)[1..n + 1]
      ensures forall i | 0 <= i < n :: waiting[i].due < Micros(now)
      ensures n < |waiting| ==> Micros(now) <= waiting[n].due
    {
      hide Ring, Walked, Linked, Apart, Mirrors, Carry, Carries, Within;
      ghost var all := timers;
      WalkBegins();
      var tev := timerList.next;
      n := 0;
      while tev != timerList && Less(tev.timeout, now)
        invariant n <= |waiting| == |all| - 1 && Carry(all, waiting) && Walked(all, n) && Within(both)
        invariant tev == if n < |waiting| then all[n + 1] else timerList
        invariant n < |waiting| ==>
          tev != timerList && Normal(tev.timeout) && Micros(tev.timeout) == waiting[n].due
        invariant forall i | 0 <= i < n :: waiting[i].due < Micros(now)
        decreases |waiting| - n
      {
        tev := MoveNext(tev, all, n, both);
        n := n + 1;
        NthCarries(all, waiting, n);
      }
      WalkedSoFar(all, n);
    }

    /** processTimeouts: every timer whose deadline has passed moves to the pending ring, in order. */
    method ProcessTimeouts(now: Timeval)
      requires Valid() && Normal(now) && expired == [] && |pending| == 1
      modifies `timers, `pending, `waiting, `expired, timers`next, timers`prev, pending`next, pending`prev
      ensures Valid()
      ensures var n := |expired|;
        n <= |old(waiting)| && waiting == old(waiting)[n..] &&
          expired == Expiries(old(waiting)[..n], Micros(now), |added|)
      ensures waiting != [] ==> Micros(now) <= waiting[0].due
      ensures timers == [timerList] + old(timers)[|expired| + 1..] &&
        pending == [pendingList] + old(timers)[1..|expired| + 1]
      ensures |pending| == |expired| + 1 && forall e | e in timers :: e in old(timers)
      ensures forall e | e in pending :: e == pendingList || (e in old(timers) && e != timerList)
      ensures forall x | x in expired :: x.timer.due < Micros(now) == x.now
    {
      hide Ring, Apart, Sound, Carry;
      NotHead(timers);
      ghost var all := timers;
      ghost var n := MoveExpired(now, set e | e in timers || e in pending);
      Parts(all, n, timerList, pendingList);
      ExpireKeepsSound(added, waiting, fired, n, Micros(now));
      SplitCarries(old(timers), waiting, n, timerList);
      SplitCarries(old(timers), waiting, n, pendingList);
      expired := Expiries(waiting[..n], Micros(now), |added|);
      waiting := waiting[n..];
      assert TimersOf(expired) == old(waiting)[..n];
    }

    /** Put a ready event at the end of the pending ring. */
    method AddReady(ev: RilEvent)
      requires Valid() && ev !in timers && ev !in pending
      modifies `pending, ev`next, ev`prev, pending`next, pending`prev
      ensures Valid() && pending == old(pending) + [ev]
    {
      hide Sound, Ring;
      assert forall k | 0 <= k < |timers| :: timers[k] !in pending;
      label L:
      AddToList(ev, pendingList, pending, |pending|);
      assert forall k | 0 <= k < |timers| :: unchanged@L(timers[k]);
      pending := Put(pending, |pending|, ev);
    }

    /** Take the first event off the pending ring, as firePending does before calling it. */
    method UnlinkFirst() returns (ev: RilEvent)
      requires Linked() && Apart() && |pending| > 1
      modifies `pending, pending`next, pending`prev
      ensures Linked() && Apart() && ev == old(pending)[1] && pending == [pendingList] + old(pending)[2..]
      ensures ev !in pending && ev !in timers && ev.next == null && ev.prev == null
    {
      Start(pending);
      ev := pendingList.next;
      assert forall k | 0 <= k < |timers| :: timers[k] !in pending;
      label L:
      RemoveFromList(ev, pending, 1);
      assert forall k | 0 <= k < |timers| :: unchanged@L(timers[k]);
      pending := pending[..1] + pending[2..];
    }

    /** One turn of firePending, up to the call: the first pending event comes off, timers first, in their order. */
    method FireNext() returns (ev: RilEvent)
      requires Valid() && |pending| > 1
      modifies `pending, `expired, `fired, pending`next, pending`prev
      ensures Valid() && ev == old(pending)[1] && pending == [pendingList] + old(pending)[2..]
      ensures ev !in pending && ev !in timers && ev.next == null && ev.prev == null
      ensures if old(expired) == [] then expired == [] && fired == old(fired)
              else expired == old(expired)[1..] && fired == old(fired) + [old(expired)[0]]
    {
      hide Linked, Apart, Sound;
      ev := UnlinkFirst();
      if expired != [] {
        FireKeepsSound(added, waiting, expired, fired);
        ghost var q := TimersOf(expired);
        fired, expired := fired + [expired[0]], expired[1..];
        assert TimersOf(expired) == q[1..];
      }
    }

    lemma NonePending()
      requires Valid()
      ensures |expired| < |pending| && pending[0] == pendingList &&
        (pendingList.next == pendingList <==> |pending| == 1)
    {
      Start(pending);
    }

    /** A timer pending to fire was found expired, and the pending timers are in order, the newest first of those
        due at the same time. */
    lemma PendingInOrder(i: nat, j: nat)
      requires Valid() && i < j < |expired|
      ensures Carries(pending[i + 1], expired[i].timer) && Carries(pending[j + 1], expired[j].timer)
      ensures var first, second := expired[i].timer, expired[j].timer;
        first.due < second.due || (first.due == second.due && first.serial > second.serial)
      ensures expired[j].timer.due < expired[j].now
    {
      assert TimersOf(expired)[i] == expired[i].timer && TimersOf(expired)[j] == expired[j].timer;
      assert expired[j] in expired;
    }
  }
}
