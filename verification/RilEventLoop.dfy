/** The RIL event loop: what its thread does, step by step, and what other threads may do in between. */
module RilEventLoop {
  import opened Options
  import opened RilTimers
  import opened RilEvents
  import opened RilWatch

  /** Where the loop is: at its top; having copied the descriptors to watch; in select, since it worked out how
      long to sleep; back with the ready descriptors, before and after the timers are processed; firing. */
  datatype Phase =
    | Top
    | Copied(rfds: set<int>)
    | Blocked(rfds: set<int>, nfds: int, since: int, wait: Option<int>)
    | Returned(ready: set<int>)
    | Expired(ready: set<int>)
    | Firing

  type Time = t: Timeval | Normal(t) witness Timeval(0, 0)

  /** A step of the loop's thread or of another. */
  datatype Step =
    | AddTimer(tv: Time, at: Time, onLoop: bool)
    | WriteWakeup
    | AddWatch(fd: int, persist: bool, onLoop: bool)
    | DeleteWatch(slot: nat)
    | CopyFds
    | Sleep(now: Time)
    | Awake(ready: Option<set<int>>)
    | ProcessTimeouts(now: Time)
    | ProcessReadReadies
    | Fire

  class EventLoop {
    const rings: Rings
    const table: WatchTable
    /** The persistent event on the read end of the wake pipe. */
    const wakeEvent: RilEvent
    const wakeFd: int
    /** Bytes in the wake pipe; threads between adding an event and writing to it. */
    var pipe: nat
    var writers: nat
    var phase: Phase
    /** Every event there ever was, and those that were timers. */
    ghost var events: set<RilEvent>
    ghost var timerEvents: set<RilEvent>

    /** No event is both a timer and watched; only while firing is a watched event pending. */
    ghost predicate Separate()
      reads `phase, `events, `timerEvents, rings`timers, rings`pending, table`members
    {
      && rings.timerList in events && rings.pendingList in events && wakeEvent in events && timerEvents <= events
      && rings.timerList !in timerEvents && rings.pendingList !in timerEvents
      && (forall e | e in rings.timers :: e in timerEvents || e == rings.timerList)
      && (forall e | e in rings.pending :: e in events && (phase.Firing? || e in timerEvents || e == rings.pendingList))
      && table.members <= events && table.members !! timerEvents && rings.timerList !in table.members &&
        rings.pendingList !in table.members
    }

    /** The wake pipe is watched, for good. */
    ghost predicate Listening()
      reads `phase, table`slotOf, table.slots, wakeEvent`persist, wakeEvent`fd
    {
      && wakeEvent.persist && wakeEvent.fd == wakeFd && wakeFd in table.slotOf
      && table.slotOf[wakeFd] < table.slots.Length && table.slots[table.slotOf[wakeFd]] == wakeEvent
      && (phase.Copied? || phase.Blocked? ==> wakeFd in phase.rfds)
      && (phase.Blocked? ==> wakeFd < phase.nfds)
    }

    predicate Waking()
      reads `pipe, `writers
    {
      pipe > 0 || writers > 0
    }

    /** About to sleep or asleep, the loop watches every descriptor and will wake for the next timer, or else
        something is about to wake it. */
    ghost predicate Alert()
      reads `phase, `pipe, `writers, table`readFds, rings`waiting
    {
      && (phase.Copied? ==> table.readFds <= phase.rfds || Waking())
      && (phase.Blocked? ==>
            (table.readFds <= phase.rfds && forall fd | fd in table.readFds :: fd < phase.nfds) || Waking())
      && (phase.Blocked? && rings.waiting != [] ==>
            (phase.wait.Some? && InTime(phase.since, phase.wait.value, rings.waiting[0].due)) || Waking())
    }

    /** Outside firing nothing but expired timers is pending, and those only until it starts. */
    ghost predicate Paced()
      reads `phase, rings`expired, rings`pending
    {
      && (phase.Firing? || |rings.expired| + 1 == |rings.pending|)
      && (phase.Firing? || phase.Expired? || rings.expired == [])
    }

    ghost predicate Valid()
      reads this, rings, table, table.slots, wakeEvent, rings.timers, rings.pending, table.members
    {
      rings.Valid() && table.Valid() && Separate() && Listening() && Alert() && Paced()
    }

    /** calcNextTimeout: no time at all if the first timer has expired, none to give if there is none. */
    method CalcNextTimeout(now: Timeval) returns (tv: Option<Timeval>)
      requires rings.Valid() && Normal(now)
      ensures rings.waiting == [] <==> tv.None?
      ensures tv.Some? ==>
        Normal(tv.value) && 0 <= Micros(tv.value) && InTime(Micros(now), Micros(tv.value), rings.waiting[0].due)
      ensures tv.Some? && rings.waiting[0].due <= Micros(now) ==> Micros(tv.value) == 0
      ensures tv.Some? && rings.waiting[0].due > Micros(now) ==> Micros(now) + Micros(tv.value) == rings.waiting[0].due
    {
      Start(rings.timers);
      AtCarries(rings.timers, rings.waiting);
      var tev := rings.timerList.next;
      if tev == rings.timerList {
        return None;
      }
      assert tev == rings.timers[0 + 1] && Carries(rings.timers[0 + 1], rings.waiting[0]);
      if Less(now, tev.timeout) {
        tv := Some(Minus(tev.timeout, now));
      } else {
        tv := Some(Timeval(0, 0));
      }
    }

    constructor (wakeFd: int)
      requires 0 <= wakeFd
      ensures Valid() && phase == Top && fresh(rings) && fresh(table) && fresh(table.slots) && fresh(events)
      ensures rings.added == [] && rings.fired == []
    {
      hide Rings.Valid, WatchTable.Valid;
      var r := new Rings();
      var e := new RilEvent(wakeFd, true);
      var t := EventLoop.Listen(e);
      rings, table, wakeEvent, this.wakeFd := r, t, e, wakeFd;
      pipe, writers, phase := 0, 0, Top;
      events, timerEvents := {r.timerList, r.pendingList, e}, {};
    }

    /** A table that watches one event. */
    static method Listen(ev: RilEvent) returns (table: WatchTable)
      requires 0 <= ev.fd
      modifies ev`index
      ensures table.Valid() && fresh(table) && fresh(table.slots) && table.members <= {ev}
      ensures ev.fd in table.slotOf && table.slotOf[ev.fd] < table.slots.Length &&
        table.slots[table.slotOf[ev.fd]] == ev
    {
      table := new WatchTable();
      assert table.slots[0] == null;
      table.EventAdd(ev);
    }

    // ---- steps of any thread ----

    /** A thread other than the loop's own will write to the wake pipe for what it adds. */
    method WillWake(onLoop: bool)
      requires Valid() && (onLoop ==> phase.Firing?)
      modifies `writers
      ensures Valid() && writers == old(writers) + (if onLoop then 0 else 1) && (phase.Firing? || Waking())
    {
      hide Rings.Valid, WatchTable.Valid, Separate, Listening, Paced;
      if !onLoop {
        writers := writers + 1;
      }
    }

    /** A new timer goes into the ring. */
    method InsertTimer(ev: RilEvent, tv: Timeval, now: Timeval)
      requires Valid() && Normal(tv) && Normal(now) && ev !in events && (phase.Firing? || Waking())
      modifies `events, `timerEvents, rings`timers, rings`added, rings`waiting, ev, rings.timers`next,
        rings.timers`prev
      ensures Valid() && events == old(events) + {ev}
      ensures rings.added == old(rings.added) + [Timer(Micros(now) + Micros(tv), |old(rings.added)|)]
    {
      hide Rings.Valid, WatchTable.Valid, Listening, Paced;
      rings.TimerAdd(ev, tv, now);
      events, timerEvents := events + {ev}, timerEvents + {ev};
    }

    /** A timed callback is requested: its timer goes into the ring; a thread other than the loop's own will write
        to the wake pipe. */
    method AddTimer(tv: Timeval, now: Timeval, onLoop: bool)
      requires Valid() && Normal(tv) && Normal(now) && (onLoop ==> phase.Firing?)
      modifies `writers, `events, `timerEvents, rings`timers, rings`added, rings`waiting, rings.timers`next,
        rings.timers`prev
      ensures Valid() && events >= old(events) && fresh(events - old(events))
      ensures rings.added == old(rings.added) + [Timer(Micros(now) + Micros(tv), |old(rings.added)|)]
      ensures writers == old(writers) + if onLoop then 0 else 1
    {
      hide Valid;
      WillWake(onLoop);
      var ev := new RilEvent(-1, false);
      InsertTimer(ev, tv, now);
    }

    /** The thread that added an event writes a byte to the wake pipe. */
    method WriteWakeup()
      requires Valid() && writers > 0
      modifies `pipe, `writers
      ensures Valid() && pipe == old(pipe) + 1 && writers == old(writers) - 1
    {
      hide Rings.Valid, WatchTable.Valid, Separate, Listening, Paced;
      pipe, writers := pipe + 1, writers - 1;
    }

    /** A new event goes into the table, if there is room. */
    method InsertWatch(ev: RilEvent)
      requires Valid() && 0 <= ev.fd && ev.fd !in table.readFds && ev !in events && (phase.Firing? || Waking())
      modifies `events, table`readFds, table`nfds, table`slotOf, table`members, table.slots, ev`index
      ensures Valid() && events == old(events) + {ev}
      ensures table.readFds ==
        if forall i | 0 <= i < table.slots.Length :: old(table.slots[i]) != null then old(table.readFds)
        else old(table.readFds) + {ev.fd}
    {
      hide Rings.Valid, WatchTable.Valid, Paced;
      table.WatchedHaveSlots();
      table.EventAdd(ev);
      events := events + {ev};
    }

    /** rilEventAddWakeup, of an event for a descriptor not yet watched. */
    method AddWatch(fd: int, persist: bool, onLoop: bool)
      requires Valid() && 0 <= fd && fd !in table.readFds && (onLoop ==> phase.Firing?)
      modifies `writers, `events, table`readFds, table`nfds, table`slotOf, table`members, table.slots
      ensures Valid() && events >= old(events) && fresh(events - old(events))
      ensures table.readFds ==
        if forall i | 0 <= i < table.slots.Length :: old(table.slots[i]) != null then old(table.readFds)
        else old(table.readFds) + {fd}
      ensures writers == old(writers) + if onLoop then 0 else 1
    {
      hide Valid;
      WillWake(onLoop);
      var ev := new RilEvent(fd, persist);
      InsertWatch(ev);
    }

    /** ril_event_del, of an event other than the wake pipe's own. */
    method DeleteWatch(i: nat)
      requires Valid() && i < table.slots.Length && table.slots[i] != null && table.slots[i] != wakeEvent
      modifies table`readFds, table`nfds, table`slotOf, table.slots, table.members`index
      ensures Valid() && table.slots[..] == old(table.slots[..])[i := null]
      ensures table.readFds == old(table.readFds) - {old(table.slots[i].fd)}
    {
      hide Rings.Valid;
      table.EventDel(table.slots[i]);
    }

    // ---- steps of the loop's own thread ----

    /** The loop copies the descriptors to watch. */
    method CopyFds()
      requires Valid() && phase.Top?
      modifies `phase
      ensures Valid() && phase == Copied(table.readFds)
    {
      hide Rings.Valid;
      phase := Copied(table.readFds);
    }

    /** It works out how long it may sleep, without the lock, and goes to sleep. */
    method Sleep(now: Timeval)
      requires Valid() && phase.Copied? && Normal(now)
      modifies `phase
      ensures Valid() && phase.Blocked? && phase.rfds == old(phase.rfds) && phase.nfds == table.nfds &&
        phase.since == Micros(now)
      ensures phase.wait ==
        if rings.waiting == [] then None
        else Some(if rings.waiting[0].due > Micros(now) then rings.waiting[0].due - Micros(now) else 0)
    {
      hide Rings.Valid;
      var tv := CalcNextTimeout(now);
      phase := Blocked(phase.rfds, table.nfds, Micros(now), if tv.None? then None else Some(Micros(tv.value)));
    }

    /** select returns the ready descriptors, none after a timeout; or it was interrupted and the loop starts over. */
    method Awake(ready: Option<set<int>>)
      requires Valid() && phase.Blocked? && (ready.Some? ==> ready.value <= phase.rfds)
      modifies `phase
      ensures Valid() && phase == if ready.None? then Top else Returned(ready.value)
    {
      hide Rings.Valid, WatchTable.Valid;
      phase := if ready.None? then Top else Returned(ready.value);
    }

    /** processTimeouts, as long as it holds the lock. */
    method ProcessTimeouts(now: Timeval)
      requires Valid() && phase.Returned? && Normal(now)
      modifies `phase, rings`timers, rings`pending, rings`waiting, rings`expired
      modifies rings.timers`next, rings.timers`prev, rings.pending`next, rings.pending`prev
      ensures Valid() && phase == Expired(old(phase.ready))
      ensures rings.waiting != [] ==> Micros(now) <= rings.waiting[0].due
      ensures |rings.expired| <= |old(rings.waiting)| && rings.waiting == old(rings.waiting)[|rings.expired|..]
      ensures rings.expired == Expiries(old(rings.waiting)[..|rings.expired|], Micros(now), |rings.added|)
      ensures forall x | x in rings.expired :: x.now == Micros(now) && x.timer.due < Micros(now)
    {
      hide WatchTable.Valid, Rings.Valid;
      rings.ProcessTimeouts(now);
      phase := Expired(phase.ready);
    }

    /** firePending takes the next event off its ring and calls it; the wake pipe's own callback empties the pipe.
        When none is left the loop is back at its top. */
    method Fire() returns (ev: RilEvent?)
      requires Valid() && phase.Firing?
      modifies `phase, `pipe, rings`pending, rings`expired, rings`fired, rings.pending`next, rings.pending`prev
      ensures Valid() && |old(rings.pending)| >= 1
      ensures |old(rings.pending)| == 1 ==> ev == null && phase.Top? && rings.fired == old(rings.fired)
      ensures |old(rings.pending)| > 1 ==>
        ev == old(rings.pending)[1] && phase.Firing? && |rings.pending| == |old(rings.pending)| - 1
      ensures |old(rings.pending)| > 1 ==>
        rings.fired == old(rings.fired) + if old(rings.expired) == [] then [] else [old(rings.expired)[0]]
      ensures pipe == if ev == wakeEvent then 0 else old(pipe)
      ensures old(rings.fired) <= rings.fired
    {
      hide WatchTable.Valid, Rings.Valid;
      rings.NonePending();
      if rings.pendingList.next == rings.pendingList {
        ev := null;
        phase := Top;
      } else {
        ev := rings.FireNext();
        if ev == wakeEvent {
          EmptyPipe();
        }
      }
    }

    /** processWakeupCallback: read sixteen bytes at a time until there is nothing left. */
    method EmptyPipe()
      modifies `pipe
      ensures pipe == 0
    {
      var ret := 1;
      while ret > 0
        invariant 0 <= ret && (ret == 0 ==> pipe == 0)
        decreases pipe, ret
      {
        ret := if pipe < 16 then pipe else 16;
        pipe := pipe - ret;
      }
    }

    /** One ready event is queued, and leaves the table if it is not persistent. */
    method QueueReady(i: nat, rev: RilEvent)
      requires Valid() && phase.Firing? && i < table.slots.Length && table.slots[i] == rev && rev !in rings.pending
      modifies rings`pending, rings.pending`next, rings.pending`prev, rev`next, rev`prev, rev`index, table`readFds,
        table`nfds, table`slotOf, table.slots
      ensures Valid() && rings.pending == old(rings.pending) + [rev]
      ensures table.slots[..] == old(table.slots[..])[i := if rev.persist then rev else null]
    {
      hide Rings.Valid;
      rings.AddReady(rev);
      if !rev.persist {
        table.RemoveWatch(rev, i);
      }
    }

    /** What processReadReadies has done when it has looked at the first `i` slots, given which are ready and
        which hold persistent events. */
    ghost predicate Queued(i: nat, before: seq<RilEvent>, was: seq<RilEvent?>, ready: seq<bool>, persist: seq<bool>)
      requires i <= |was| == |ready| == |persist| == table.slots.Length
      requires forall k | 0 <= k < |was| && ready[k] :: was[k] != null
      reads rings, table, table.slots
    {
      && rings.pending == before + ReadyOnes(was[..i], ready[..i])
      && table.slots[..] == Remaining(was, ready, persist, i)
    }

    /** Which slots hold an event whose descriptor is ready, and which a persistent event. */
    ghost method Survey(rfds: set<int>) returns (ready: seq<bool>, persist: seq<bool>)
      requires table.Valid()
      ensures |ready| == |persist| == table.slots.Length
      ensures forall k | 0 <= k < |ready| :: ready[k] <==> table.slots[k] != null && table.slots[k].fd in rfds
      ensures forall k | 0 <= k < |ready| :: persist[k] <==> table.slots[k] != null && table.slots[k].persist
    {
      ready, persist := [], [];
      for i := 0 to table.slots.Length
        invariant |ready| == |persist| == i
        invariant forall k | 0 <= k < i :: ready[k] <==> table.slots[k] != null && table.slots[k].fd in rfds
        invariant forall k | 0 <= k < i :: persist[k] <==> table.slots[k] != null && table.slots[k].persist
      {
        ready := ready + [table.slots[i] != null && table.slots[i].fd in rfds];
        persist := persist + [table.slots[i] != null && table.slots[i].persist];
      }
    }

    lemma QueuedFirst(was: seq<RilEvent?>, ready: seq<bool>, persist: seq<bool>)
      requires |was| == |ready| == |persist| == table.slots.Length && was == table.slots[..]
      requires forall k | 0 <= k < |was| && ready[k] :: was[k] != null
      ensures Queued(0, rings.pending, was, ready, persist)
    {
      NoneReady(was, ready, persist, 0);
    }

    /** If none of the slots left is ready, it is as if they had been looked at. */
    lemma QueuedLast(i: nat, before: seq<RilEvent>, was: seq<RilEvent?>, ready: seq<bool>, persist: seq<bool>)
      requires i <= |was| == |ready| == |persist| == table.slots.Length
      requires forall k | 0 <= k < |was| && ready[k] :: was[k] != null
      requires Queued(i, before, was, ready, persist) && forall k | i <= k < |was| :: !ready[k]
      ensures Queued(|was|, before, was, ready, persist)
    {
      NoneReady(was, ready, persist, i);
    }

    /** One turn of the loop of processReadReadies. */
    method QueueSlot(i: nat, rfds: set<int>, ghost before: seq<RilEvent>, ghost was: seq<RilEvent?>,
      ghost ready: seq<bool>, ghost persist: seq<bool>) returns (queued: bool)
      requires Valid() && phase.Firing? && i < |was| == |ready| == |persist| == table.slots.Length
      requires forall k | 0 <= k < |was| && ready[k] :: was[k] != null
      requires Queued(i, before, was, ready, persist) && (was[i] != null ==> was[i] !in rings.pending)
      requires ready[i] <==> was[i] != null && was[i].fd in rfds
      requires persist[i] <==> was[i] != null && was[i].persist
      requires was[i] != null ==> was[i] in table.members
      modifies rings`pending, rings.pending`next, rings.pending`prev
      modifies table`readFds, table`nfds, table`slotOf, table.slots, table.members`next, table.members`prev,
        table.members`index
      ensures Valid() && queued == ready[i] && Queued(i + 1, before, was, ready, persist)
      ensures rings.pending == old(rings.pending) + if queued then [was[i]] else []
    {
      hide Rings.Valid, ReadyOnes, Remaining, Listening, Alert, Paced, Separate, WatchTable.Valid;
      var rev := table.slots[i];
      OneMore(was, ready, persist, i);
      queued := rev != null && rev.fd in rfds;
      if queued {
        QueueReady(i, rev);
      }
    }

    /** The loop of processReadReadies: it may stop once it has queued as many events as there are ready descriptors. */
    method QueueAll(rfds: set<int>, count: int, ghost ready: seq<bool>, ghost persist: seq<bool>)
      requires Valid() && phase.Firing? && count == |rfds| && forall e | e in rings.pending :: e !in table.members
      requires |ready| == |persist| == table.slots.Length
      requires forall k | 0 <= k < |ready| :: ready[k] <==> table.slots[k] != null && table.slots[k].fd in rfds
      requires forall k | 0 <= k < |ready| :: persist[k] <==> table.slots[k] != null && table.slots[k].persist
      modifies rings`pending, rings.pending`next, rings.pending`prev
      modifies table`readFds, table`nfds, table`slotOf, table.slots, table.members`next, table.members`prev,
        table.members`index
      ensures Valid() && Queued(table.slots.Length, old(rings.pending), old(table.slots[..]), ready, persist)
    {
      hide Rings.Valid, ReadyOnes, Remaining, Listening, Alert, Paced, Separate, Queued;
      ghost var was, slotOf, before := table.slots[..], table.slotOf, rings.pending;
      ghost var done: set<int> := {};
      var n, i := count, 0;
      QueuedFirst(was, ready, persist);
      while i < MAX_FD_EVENTS && n > 0
        invariant 0 <= i <= MAX_FD_EVENTS && Valid() && phase.Firing? && Queued(i, before, was, ready, persist)
        invariant done <= rfds && |done| + n == |rfds|
        invariant forall fd | fd in done :: fd in slotOf && slotOf[fd] < i
        invariant forall k | 0 <= k < |was| && was[k] != null ::
          was[k].fd in slotOf && slotOf[was[k].fd] == k && was[k] in table.members
        invariant forall e | e in rings.pending ::
          e in before || (e in table.members && e.fd in slotOf && slotOf[e.fd] < i)
      {
        if was[i] != null {
          var fd := was[i].fd;
          assert slotOf[fd] == i && fd !in done;
        }
        var queued := QueueSlot(i, rfds, before, was, ready, persist);
        if queued {
          done := done + {was[i].fd};
          n := n - 1;
        }
        i := i + 1;
      }
      SameSize(done, rfds);
      forall k | i <= k < |was| ensures !ready[k] {
        if was[k] != null {
          var fd := was[k].fd;
          assert slotOf[fd] == k && fd !in done;
        }
      }
      QueuedLast(i, before, was, ready, persist);
    }

    method StartFiring()
      requires Valid() && phase.Expired?
      modifies `phase
      ensures Valid() && phase.Firing? && forall e | e in rings.pending :: e !in table.members
    {
      hide Rings.Valid, WatchTable.Valid;
      phase := Firing;
    }

    /** processReadReadies, with the descriptors that select returned and their number: the ready watched events are
        queued, each once, in the order of their slots, and leave the table if they are not persistent. */
    method ProcessReadReadies(rfds: set<int>, count: int) returns (ghost ready: seq<bool>, ghost persist: seq<bool>)
      requires Valid() && phase.Expired? && rfds == phase.ready && count == |rfds|
      modifies `phase, rings`pending, rings.pending`next, rings.pending`prev
      modifies table`readFds, table`nfds, table`slotOf, table.slots, table.members`next, table.members`prev,
        table.members`index
      ensures Valid() && phase.Firing?
      ensures |ready| == |persist| == table.slots.Length
      ensures forall k | 0 <= k < |ready| :: ready[k] <==> old(table.slots[k] != null && table.slots[k].fd in rfds)
      ensures forall k | 0 <= k < |ready| :: persist[k] <==> old(table.slots[k] != null && table.slots[k].persist)
      ensures Queued(table.slots.Length, old(rings.pending), old(table.slots[..]), ready, persist)
      ensures old(rings.pending) <= rings.pending
      ensures forall k | 0 <= k < table.slots.Length ::
        (ready[k] ==> old(table.slots[k]) in rings.pending) &&
        table.slots[k] == if ready[k] && !persist[k] then null else old(table.slots[k])
    {
      hide Rings.Valid, WatchTable.Valid, Listening, Alert, Paced, Separate, ReadyOnes;
      ghost var was := table.slots[..];
      ready, persist := Survey(rfds);
      StartFiring();
      QueueAll(rfds, count, ready, persist);
      assert was[..|was|] == was && ready[..|was|] == ready;
      forall k | 0 <= k < |was| && ready[k] ensures was[k] in ReadyOnes(was, ready) {
        ReadyAt(was, ready, k);
      }
    }

    // ---- whole runs ----

    /** What a step does, if there is a thread to take it. */
    twostate predicate Did(step: Step)
      reads this, rings, table, table.slots
    {
      match step
      case AddTimer(tv, at, onLoop) => (onLoop ==> old(phase.Firing?)) ==>
        && rings.added == old(rings.added) + [Timer(Micros(at) + Micros(tv), |old(rings.added)|)]
        && writers == old(writers) + if onLoop then 0 else 1
      case WriteWakeup => old(writers) > 0 ==> pipe == old(pipe) + 1 && writers == old(writers) - 1
      case AddWatch(fd, _, onLoop) => 0 <= fd && fd !in old(table.readFds) && (onLoop ==> old(phase.Firing?)) ==>
        && writers == old(writers) + (if onLoop then 0 else 1)
        && table.readFds ==
          if forall i | 0 <= i < table.slots.Length :: old(table.slots[i]) != null then old(table.readFds)
          else old(table.readFds) + {fd}
      case DeleteWatch(slot) => slot < table.slots.Length && old(table.slots[slot]) !in {null, wakeEvent} ==>
        table.slots[slot] == null && table.readFds == old(table.readFds) - {old(table.slots[slot].fd)}
      case CopyFds => old(phase.Top?) ==> phase == Copied(old(table.readFds))
      case Sleep(now) => old(phase.Copied?) ==>
        phase.Blocked? && phase.rfds == old(phase.rfds) && phase.nfds == old(table.nfds) && phase.since == Micros(now)
      case Awake(ready) => old(phase.Blocked?) && (ready.Some? ==> ready.value <= old(phase.rfds)) ==>
        phase == if ready.None? then Top else Returned(ready.value)
      case ProcessTimeouts(now) => old(phase.Returned?) ==>
        && phase == Expired(old(phase.ready)) && |rings.expired| <= |old(rings.waiting)|
        && rings.expired == Expiries(old(rings.waiting)[..|rings.expired|], Micros(now), |rings.added|)
        && rings.waiting == old(rings.waiting)[|rings.expired|..]
        && (rings.waiting != [] ==> Micros(now) <= rings.waiting[0].due)
      case ProcessReadReadies => old(phase.Expired?) ==>
        phase.Firing? && old(rings.pending) <= rings.pending && forall k | 0 <= k < table.slots.Length ::
          old(table.slots[k] != null && table.slots[k].fd in phase.ready) ==> old(table.slots[k]) in rings.pending
      case Fire => old(phase.Firing?) ==>
        if |old(rings.pending)| <= 1 then phase.Top?
        else
          && phase.Firing? && |rings.pending| == |old(rings.pending)| - 1
          && rings.fired == old(rings.fired) + if old(rings.expired) == [] then [] else [old(rings.expired)[0]]
    }

    /** One step of any thread; a step of the loop's thread only where that thread is. */
    method Take(step: Step)
      requires Valid()
      modifies this, rings, table, table.slots, events
      ensures Valid() && events >= old(events) && fresh(events - old(events)) && Did(step)
      ensures old(rings.added) <= rings.added && old(rings.fired) <= rings.fired
    {
      hide Rings.Valid, WatchTable.Valid, Listening, Alert, Paced;
      match step
      case AddTimer(tv, at, onLoop) => if onLoop ==> phase.Firing? { AddTimer(tv, at, onLoop); }
      case WriteWakeup => if writers > 0 { WriteWakeup(); }
      case AddWatch(fd, persist, onLoop) =>
        if 0 <= fd && fd !in table.readFds && (onLoop ==> phase.Firing?) { AddWatch(fd, persist, onLoop); }
      case DeleteWatch(slot) =>
        if slot < table.slots.Length && table.slots[slot] != null && table.slots[slot] != wakeEvent {
          DeleteWatch(slot);
        }
      case CopyFds => if phase.Top? { CopyFds(); }
      case Sleep(now) => if phase.Copied? { Sleep(now); }
      case Awake(ready) => if phase.Blocked? && (ready.Some? ==> ready.value <= phase.rfds) { Awake(ready); }
      case ProcessTimeouts(now) => if phase.Returned? { ProcessTimeouts(now); }
      case ProcessReadReadies =>
        if phase.Expired? {
          ghost var ready, persist := ProcessReadReadies(phase.ready, |phase.ready|);
        }
      case Fire => if phase.Firing? { var ev := Fire(); }
    }

    /** Any interleaving of timers added, events added and deleted, and the loop's own steps keeps all of it. */
    method Run(steps: seq<Step>)
      requires Valid()
      modifies this, rings, table, table.slots, events
      ensures Valid() && old(rings.added) <= rings.added && old(rings.fired) <= rings.fired
    {
      hide Rings.Valid, WatchTable.Valid, Separate, Listening, Alert, Paced;
      for i := 0 to |steps|
        invariant Valid() && events >= old(events) && fresh(events - old(events))
        invariant old(rings.added) <= rings.added && old(rings.fired) <= rings.fired
      {
        Take(steps[i]);
      }
    }

    /** The loop never sleeps past a timer: while it is in select with nothing in its pipe and nobody about to write
        to it, its sleep ends by the first deadline, or at once if that has passed; and select watches the pipe. */
    lemma NeverSleepsPast()
      requires Valid() && phase.Blocked?
      ensures pipe == 0 && writers == 0 && rings.waiting != [] ==>
        phase.wait.Some? && InTime(phase.since, phase.wait.value, rings.waiting[0].due)
      ensures wakeFd in phase.rfds && wakeFd < phase.nfds
      ensures pipe == 0 && writers == 0 ==> forall fd | fd in table.readFds :: fd in phase.rfds && fd < phase.nfds
    {
    }

    /** No timer is due before the first one: the first deadline bounds the sleep for them all. */
    lemma FirstIsSoonest(i: nat)
      requires Valid() && i < |rings.waiting|
      ensures rings.waiting[0].due <= rings.waiting[i].due
    {
      assert i > 0 ==> Sooner(rings.waiting[0], rings.waiting[i]);
    }

    /** Each timer added waits, is pending, or has fired: one of them, and once. */
    lemma TimerOnce(t: Timer)
      requires Valid()
      ensures multiset(rings.waiting)[t] + multiset(TimersOf(rings.expired))[t] + multiset(TimersOf(rings.fired))[t] ==
              (if t in rings.added then 1 else 0)
    {
      EachOnce(rings.added, rings.waiting, rings.expired, rings.fired, t);
    }

    /** No timer fires unless its deadline had passed. */
    lemma NeverEarly(x: Expiry)
      requires Valid() && x in rings.fired
      ensures x.timer.due < x.now
    {
      assert x in rings.fired + rings.expired;
    }

    /** A timer that has fired was due before every one that had been added by when it expired and fired after it, is
        pending or still waits, or is newer than that and was due at the same time. */
    lemma FiredInTurn(i: nat, t: Timer)
      requires Valid() && i < |rings.fired| && t.serial < rings.fired[i].addedBefore
      requires t in rings.waiting || t in TimersOf(rings.expired + rings.fired[i + 1..])
      ensures var first := rings.fired[i].timer;
        first.due < t.due || (first.due == t.due && first.serial > t.serial)
    {
      hide Rings.Linked, Rings.Apart, Rings.Mirrors, WatchTable.Valid, Separate, Listening, Alert, Paced;
      var all, later := rings.fired + rings.expired, rings.expired + rings.fired[i + 1..];
      assert all[i] == rings.fired[i] && all[i] in all;
      if t in TimersOf(later) {
        var k :| 0 <= k < |later| && later[k].timer == t;
        var n := |rings.expired|;
        assert later[k] == all[if k < n then |rings.fired| + k else i + 1 + k - n];
      }
    }
  }

  lemma OneMore(slots: seq<RilEvent?>, ready: seq<bool>, persist: seq<bool>, i: nat)
    requires i < |slots| == |ready| == |persist| && forall k | 0 <= k < |slots| && ready[k] :: slots[k] != null
    ensures ReadyOnes(slots[..i + 1], ready[..i + 1]) ==
            ReadyOnes(slots[..i], ready[..i]) + if ready[i] then [slots[i]] else []
    ensures Remaining(slots, ready, persist, i)[i] == slots[i]
    ensures Remaining(slots, ready, persist, i + 1) ==
            Remaining(slots, ready, persist, i)[i := if ready[i] && !persist[i] then null else slots[i]]
  {
    assert slots[..i + 1][..i] == slots[..i] && ready[..i + 1][..i] == ready[..i];
  }

  lemma NoneReady(slots: seq<RilEvent?>, ready: seq<bool>, persist: seq<bool>, i: nat)
    requires i <= |slots| == |ready| == |persist| && forall k | 0 <= k < |slots| && ready[k] :: slots[k] != null
    ensures ReadyOnes(slots[..0], ready[..0]) == [] && Remaining(slots, ready, persist, 0) == slots
    ensures (forall k | i <= k < |slots| :: !ready[k]) ==>
      ReadyOnes(slots[..i], ready[..i]) == ReadyOnes(slots[..|slots|], ready[..|slots|]) &&
        Remaining(slots, ready, persist, i) == Remaining(slots, ready, persist, |slots|)
    decreases |slots| - i
  {
    if i < |slots| && forall k | i <= k < |slots| :: !ready[k] {
      OneMore(slots, ready, persist, i);
      NoneReady(slots, ready, persist, i + 1);
    }
  }

  /** The slots when the ready ones among the first `i` that are not persistent have been emptied. */
  function Remaining(slots: seq<RilEvent?>, ready: seq<bool>, persist: seq<bool>, i: nat): (s: seq<RilEvent?>)
    requires i <= |slots| == |ready| == |persist|
    ensures |s| == |slots|
  {
    seq(|slots|, k requires 0 <= k < |slots| => if k < i && ready[k] && !persist[k] then null else slots[k])
  }

  /** The events whose flag is set, in order. */
  function ReadyOnes(slots: seq<RilEvent?>, ready: seq<bool>): seq<RilEvent>
    requires |ready| == |slots| && forall k | 0 <= k < |slots| && ready[k] :: slots[k] != null
  {
    if slots == [] then [] else
      var n := |slots| - 1;
      ReadyOnes(slots[..n], ready[..n]) + if ready[n] then [slots[n]] else []
  }

  /** Each event whose flag is set comes once, after those whose flag is set before it. */
  lemma {:induction false} ReadyAt(slots: seq<RilEvent?>, ready: seq<bool>, k: nat)
    requires |ready| == |slots| && forall i | 0 <= i < |slots| && ready[i] :: slots[i] != null
    requires k < |slots| && ready[k]
    ensures var n := |ReadyOnes(slots[..k], ready[..k])|;
      n < |ReadyOnes(slots, ready)| && ReadyOnes(slots, ready)[n] == slots[k]
  {
    var m := |slots| - 1;
    if k < m {
      ReadyAt(slots[..m], ready[..m], k);
      assert slots[..m][..k] == slots[..k] && ready[..m][..k] == ready[..k];
    }
  }

  /** No other event comes. */
  lemma {:induction false} OnlyReadyOnes(slots: seq<RilEvent?>, ready: seq<bool>, n: nat) returns (k: nat)
    requires |ready| == |slots| && forall i | 0 <= i < |slots| && ready[i] :: slots[i] != null
    requires n < |ReadyOnes(slots, ready)|
    ensures k < |slots| && ready[k] && ReadyOnes(slots, ready)[n] == slots[k]
    ensures n == |ReadyOnes(slots[..k], ready[..k])|
  {
    var m := |slots| - 1;
    if n < |ReadyOnes(slots[..m], ready[..m])| {
      k := OnlyReadyOnes(slots[..m], ready[..m], n);
      assert slots[..m][..k] == slots[..k] && ready[..m][..k] == ready[..k];
    } else {
      k := m;
    }
  }

  lemma SameSize(s: set<int>, t: set<int>)
    requires s <= t
    ensures |s| <= |t| && (|s| == |t| ==> s == t)
  {
    assert t == s + (t - s);
  }
}
