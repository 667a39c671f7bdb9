/** The RIL event loop's table of watched descriptors, and the set and bound it keeps for select. */
module RilWatch {
  import opened RilEvents

  const MAX_FD_EVENTS: nat := 8

  class WatchTable {
    const slots: array<RilEvent?>
    var readFds: set<int>
    var nfds: int
    /** Which slot watches a descriptor. */
    ghost var slotOf: map<int, nat>
    /** Every event that was ever in the table. */
    ghost var members: set<RilEvent>

    /** Events and slots agree, one slot to a descriptor; `readFds` are the watched ones; `nfds` is above
        them all, and no higher than it must be, or 1. */
    ghost predicate Valid()
      reads this, slots, members`fd, members`index
    {
      && (forall i | 0 <= i < slots.Length && slots[i] != null :: slots[i] in members)
      && slots.Length == MAX_FD_EVENTS && readFds == slotOf.Keys && 0 <= nfds && (nfds <= 1 || nfds - 1 in slotOf)
      && (forall fd | fd in slotOf :: 0 <= fd < nfds && slotOf[fd] < MAX_FD_EVENTS && Holds(slotOf[fd], fd))
      && (forall i | 0 <= i < MAX_FD_EVENTS && slots[i] != null ::
        slots[i].index == i && slots[i].fd in slotOf && slotOf[slots[i].fd] == i)
    }

    ghost predicate Holds(i: nat, fd: int)
      requires i < slots.Length
      reads slots, `members, members`fd
    {
      slots[i] != null && slots[i] in members && slots[i].fd == fd
    }

    constructor ()
      ensures Valid() && fresh(slots) && readFds == {} && members == {} &&
        forall i | 0 <= i < slots.Length :: slots[i] == null
    {
      slots := new RilEvent?[MAX_FD_EVENTS](_ => null);
      readFds, nfds, slotOf, members := {}, 0, map[], {};
    }

    /** The event takes a free slot. */
    method Occupy(ev: RilEvent, i: nat)
      requires Valid() && 0 <= ev.fd && ev.fd !in readFds && i < slots.Length && slots[i] == null
      requires forall k | 0 <= k < slots.Length :: slots[k] != ev
      modifies `readFds, `nfds, `slotOf, `members, slots, ev`index
      ensures Valid() && members == old(members) + {ev} && readFds == old(readFds) + {ev.fd} && ev.index == i
      ensures slots[..] == old(slots[..])[i := ev] && slotOf == old(slotOf)[ev.fd := i]
    {
      slots[i], members := ev, members + {ev};
      ev.index := i;
      readFds := readFds + {ev.fd};
      slotOf := slotOf[ev.fd := i];
      if ev.fd >= nfds {
        nfds := ev.fd + 1;
      }
    }

    /** ril_event_add: into the first free slot; dropped if there is none. */
    method EventAdd(ev: RilEvent)
      requires Valid() && 0 <= ev.fd && ev.fd !in readFds && forall i | 0 <= i < slots.Length :: slots[i] != ev
      modifies `readFds, `nfds, `slotOf, `members, slots, ev`index
      ensures Valid() && ev.fd == old(ev.fd) && old(members) <= members <= old(members) + {ev}
      ensures readFds ==
        if forall i | 0 <= i < slots.Length :: old(slots[i]) != null then old(readFds) else old(readFds) + {ev.fd}
      ensures if forall i | 0 <= i < slots.Length :: old(slots[i]) != null
        then slots[..] == old(slots[..]) && slotOf == old(slotOf)
        else var i := ev.index;
          0 <= i < slots.Length && old(slots[..])[i] == null && slots[..] == old(slots[..])[i := ev] &&
            slotOf == old(slotOf)[ev.fd := i]
    {
      for i := 0 to MAX_FD_EVENTS
        invariant forall k | 0 <= k < i :: slots[k] != null
        invariant unchanged(this) && unchanged(slots) && unchanged(ev)
      {
        if slots[i] == null {
          Occupy(ev, i);
          return;
        }
      }
    }

    /** The watched descriptors are those that have slots, and what is in the slots are members. */
    lemma WatchedHaveSlots()
      requires Valid()
      ensures readFds == slotOf.Keys && forall i | 0 <= i < slots.Length && slots[i] != null :: slots[i] in members
    {
    }

    /** The highest watched descriptor, or 0. */
    method HighestFd() returns (n: int)
      requires slots.Length == MAX_FD_EVENTS
      requires forall i | 0 <= i < slots.Length && slots[i] != null :: slots[i] in members
      ensures 0 <= n && forall i | 0 <= i < slots.Length && slots[i] != null :: slots[i].fd <= n
      ensures n == 0 || exists i | 0 <= i < slots.Length :: Holds(i, n)
    {
      n := 0;
      for i := 0 to MAX_FD_EVENTS
        invariant 0 <= n && forall k | 0 <= k < i && slots[k] != null :: slots[k].fd <= n
        invariant n == 0 || exists k | 0 <= k < i :: Holds(k, n)
      {
        var rev := slots[i];
        if rev != null && rev.fd > n {
          n := rev.fd;
          assert Holds(i, n);
        }
      }
    }

    /** removeWatch. */
    method RemoveWatch(ev: RilEvent, index: nat)
      requires Valid() && index < slots.Length && slots[index] == ev
      modifies `readFds, `nfds, `slotOf, slots, ev`index
      ensures Valid() && ev.index == -1
      ensures slots[..] == old(slots[..])[index := null] && slotOf == old(slotOf) - {ev.fd}
    {
      slots[index] := null;
      ev.index := -1;
      readFds := readFds - {ev.fd};
      slotOf := slotOf - {ev.fd};
      assert forall fd | fd in slotOf :: slotOf[fd] != index && old(Holds(slotOf[fd], fd)) && Holds(slotOf[fd], fd);
      if ev.fd + 1 == nfds {
        var n := HighestFd();
        nfds := n + 1;
      }
    }

    /** ril_event_del, of an event that was set up and perhaps added. */
    method EventDel(ev: RilEvent)
      requires Valid() && (ev.index == -1 || (0 <= ev.index < slots.Length && slots[ev.index] == ev))
      modifies `readFds, `nfds, `slotOf, slots, ev`index
      ensures Valid() && ev.index == -1
      ensures if old(ev.index) == -1 then slots[..] == old(slots[..]) && slotOf == old(slotOf)
              else slots[..] == old(slots[..])[old(ev.index) := null] && slotOf == old(slotOf) - {ev.fd}
    {
      if ev.index < 0 || ev.index >= MAX_FD_EVENTS {
        return;
      }
      RemoveWatch(ev, ev.index);
    }
  }
}
