/** The RIL's partial wake lock: counted grabs and releases, and a timer that lets go of it, cancelled by marking
    its record since it cannot be taken back. */
module WakeLock {
  import opened Options

  /** How long a grab keeps the lock, in microseconds. */
  const WAKE_TIMEOUT: int := 200_000

  /** The lock as a client sees it: how many grabs are open, and when it will let go by itself. */
  datatype Lock = Lock(count: nat, until: Option<int>)

  function Grabbed(l: Lock, now: int): Lock
  {
    Lock(l.count + 1, Some(now + WAKE_TIMEOUT))
  }

  function Released(l: Lock): Lock
  {
    if l.count > 1 then l.(count := l.count - 1) else Lock(0, None)
  }

  datatype Event = Grab(now: int) | Release | Expire

  function After(l: Lock, events: seq<Event>): Lock
  {
    if events == [] then l else
      var before := After(l, events[..|events| - 1]);
      match events[|events| - 1]
      case Grab(now) => Grabbed(before, now)
      case Release => Released(before)
      case Expire => Lock(0, None)
  }

  /** The grabs and releases among events, and those that steps ask for. */
  function Asked(events: seq<Event>): seq<Event>
  {
    if events == [] then [] else
      Asked(events[..|events| - 1]) + if events[|events| - 1].Expire? then [] else [events[|events| - 1]]
  }

  function Requested(steps: seq<Step>): seq<Event>
  {
    if steps == [] then [] else
      Requested(steps[..|steps| - 1]) +
      match steps[|steps| - 1]
      case GrabAt(now) => [Grab(now)]
      case LetGo => [Release]
      case _ => []
  }

  lemma AfterOneMore(l: Lock, events: seq<Event>, e: seq<Event>)
    requires |e| <= 1
    ensures After(l, events + e) == After(After(l, events), e)
    ensures Asked(events + e) == Asked(events) + Asked(e)
  {
    if e == [] {
      assert events + e == events;
    } else {
      assert (events + e)[..|events|] == events && e[..0] == [];
    }
  }

  /** How many of the events are grabs, or releases. */
  function Grabs(events: seq<Event>): nat
  {
    if events == [] then 0 else Grabs(events[..|events| - 1]) + if events[|events| - 1].Grab? then 1 else 0
  }

  function Releases(events: seq<Event>): nat
  {
    if events == [] then 0 else Releases(events[..|events| - 1]) + if events[|events| - 1].Release? then 1 else 0
  }

  /** At no moment have more grabs been released than made. */
  ghost predicate Paired(events: seq<Event>)
  {
    forall n | 0 <= n <= |events| :: Releases(events[..n]) <= Grabs(events[..n])
  }

  /** As long as the timer does not fire and clients release only what they grabbed, the lock counts exactly the
      grabs that are still open. */
  lemma {:induction false} CountsOpenGrabs(events: seq<Event>)
    requires Paired(events) && Expire !in events
    ensures After(Lock(0, None), events).count == Grabs(events) - Releases(events)
  {
    if events != [] {
      var before := events[..|events| - 1];
      assert forall n | 0 <= n <= |before| :: before[..n] == events[..n];
      CountsOpenGrabs(before);
      assert events[..|events|] == events;
      assert Releases(events) <= Grabs(events);
    }
  }

  /** A record of a timed callback: the wake lock's own, or one the vendor asked for. */
  class UserCallbackInfo {
    const wake: bool
    const deadline: int
    /** Whether `userParam` is set, which cancels the wake lock's callback. */
    var cancelled: bool

    constructor (wake: bool, deadline: int)
      ensures this.wake == wake && this.deadline == deadline && !cancelled
    {
      this.wake, this.deadline, cancelled := wake, deadline, false;
    }
  }

  class PartialWakeLock {
    /** The vendor's RIL version; from 13 on grabs are counted. */
    const version: int
    var held: bool
    var count: nat
    var last: UserCallbackInfo?
    /** The records that are allocated: those whose timers have not fired. */
    var timers: set<UserCallbackInfo>
    ghost var latestGrab: int

    /** An uncancelled timer of the wake lock's own. */
    ghost predicate Live(p: UserCallbackInfo)
      reads p
    {
      p.wake && !p.cancelled
    }

    /** The lock is held exactly while the count is positive, exactly while there is one live timer; that is the
        last one, due a timeout after the latest grab; and the pointer to it never dangles. */
    ghost predicate Valid()
      reads this, timers
    {
      && version >= 13
      && (held <==> count > 0)
      && (last != null ==> last in timers && last.wake)
      && (count > 0 ==> last != null && Live(last) && last.deadline == latestGrab + WAKE_TIMEOUT)
      && (forall p | p in timers :: Live(p) ==> count > 0 && p == last)
    }

    ghost function View(): Lock
      requires Valid()
      reads this, timers
    {
      Lock(count, if count > 0 then Some(last.deadline) else None)
    }

    constructor (version: int)
      requires version >= 13
      ensures Valid() && View() == Lock(0, None) && fresh(timers)
    {
      this.version := version;
      held, count, last, timers, latestGrab := false, 0, null, {}, 0;
    }

    /** internalRequestTimedCallback. */
    method RequestTimedCallback(wake: bool, deadline: int) returns (p: UserCallbackInfo)
      modifies `timers
      ensures fresh(p) && p.wake == wake && p.deadline == deadline && !p.cancelled && timers == old(timers) + {p}
    {
      p := new UserCallbackInfo(wake, deadline);
      timers := timers + {p};
    }

    /** The vendor asks for a timed callback of its own, which is nothing to the wake lock. */
    method VendorCallback(deadline: int)
      requires Valid()
      modifies `timers
      ensures Valid() && View() == old(View()) && fresh(timers - old(timers))
    {
      var p := RequestTimedCallback(false, deadline);
    }

    /** grabPartialWakeLock. */
    method GrabPartialWakeLock(now: int)
      requires Valid()
      modifies this, last
      ensures Valid() && View() == Grabbed(old(View()), now) && fresh(timers - old(timers)) && latestGrab == now
    {
      held := true;
      var p := RequestTimedCallback(true, now + WAKE_TIMEOUT);
      count := count + 1;
      if last != null {
        last.cancelled := true;
      }
      last := p;
      latestGrab := now;
    }

    /** releaseWakeLock. */
    method ReleaseWakeLock()
      requires Valid()
      modifies `held, `count, last
      ensures Valid() && View() == Released(old(View()))
    {
      if count > 1 {
        count := count - 1;
      } else {
        count := 0;
        held := false;
        if last != null {
          last.cancelled := true;
        }
      }
    }

    /** wakeTimeoutCallback. */
    method WakeTimeoutCallback(cancelled: bool)
      modifies `count, `held
      ensures if cancelled then count == old(count) && held == old(held) else count == 0 && !held
    {
      if !cancelled {
        count := 0;
        held := false;
      }
    }

    /** userTimerCallback: a timer fires, and its record is freed. */
    method UserTimerCallback(p: UserCallbackInfo)
      requires Valid() && p in timers
      modifies this
      ensures Valid() && timers == old(timers) - {p}
      ensures View() == if Live(p) then Lock(0, None) else old(View())
    {
      if p.wake {
        WakeTimeoutCallback(p.cancelled);
      }
      if last != null && last == p {
        last := null;
      }
      timers := timers - {p};
    }

    /** The lock is held exactly while exactly one live timer exists. */
    lemma OneLiveTimer()
      requires Valid()
      ensures held <==> exists p :: p in timers && Live(p)
      ensures forall p, q | p in timers && q in timers && Live(p) && Live(q) :: p == q
    {
      if held {
        assert last in timers && Live(last);
      }
    }

    /** If every timer due before `now` has fired, the lock is not held a timeout after the latest grab. */
    lemma LetsGoInTime(now: int)
      requires Valid() && forall p | p in timers :: now <= p.deadline
      ensures held ==> now <= latestGrab + WAKE_TIMEOUT
    {
      assert held ==> last in timers;
    }

    /** Any run of grabs, releases, vendor timers and firings, in any order, does to the lock what the grabs and
        releases asked for, with its own timer going off at times in between, do to the client's view of it. */
    method Run(steps: seq<Step>) returns (ghost events: seq<Event>)
      requires Valid()
      modifies this, timers
      ensures Valid() && View() == After(old(View()), events) && Asked(events) == Requested(steps)
    {
      events := [];
      for i := 0 to |steps|
        invariant Valid() && View() == After(old(View()), events) && Asked(events) == Requested(steps[..i])
        invariant forall p | p in timers :: p in old(timers) || fresh(p)
      {
        assert steps[..i + 1][..i] == steps[..i];
        ghost var happened: seq<Event> := [];
        match steps[i] {
          case GrabAt(now) =>
            GrabPartialWakeLock(now);
            happened := [Grab(now)];
          case LetGo =>
            ReleaseWakeLock();
            happened := [Release];
          case Vendor(deadline) => VendorCallback(deadline);
          case FireOne =>
            if timers != {} {
              var p :| p in timers;
              happened := if Live(p) then [Expire] else [];
              UserTimerCallback(p);
            }
        }
        AfterOneMore(old(View()), events, happened);
        events := events + happened;
      }
      assert steps[..|steps|] == steps;
    }
  }

  datatype Step = GrabAt(now: int) | LetGo | Vendor(deadline: int) | FireOne
}
