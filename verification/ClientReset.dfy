/** The reset of a dead client's callbacks: a call that fails, made under the lock in either mode, gives the lock up,
    takes it for writing and clears the callbacks unless somebody changed them meanwhile, and goes on under the lock
    for reading; as steps of any number of threads. */
module ClientReset {
  import opened Options

  datatype Kind = Radio | OemHook

  /** One slot's radio or OEM hook service. */
  datatype Service = Service(slot: nat, kind: Kind)

  /** A service's callbacks, named by the registration they came from; its counter; and the callbacks it had at
      each value of the counter so far. */
  datatype Cell = Cell(callbacks: Option<nat>, counter: int, past: seq<Option<nat>>)

  /** A lock is held with other readers or alone, which a call that reports network time asks for. */
  datatype Mode = Shared | Alone

  /** Where a thread is, and what it remembers. */
  datatype Pc =
    | Idle
    | Holding(lock: nat, mode: Mode)
    | Called(service: Service, used: nat, mode: Mode)
    | Noted(service: Service, used: nat, counter: int, mode: Mode)
    | Unlocked(service: Service, used: nat, counter: int)
    | Writing(service: Service, used: nat, counter: int)
    | Checked(service: Service)
    | Relocking(service: Service)
    | Registering(service: Service)
    | Setting(service: Service)
    | Set(service: Service, registration: nat)

  /** A reset that cleared something: by whose failed call, what, and at which value of the counter. */
  datatype Clearing = Clearing(service: Service, used: nat, cleared: Option<nat>, counter: int)

  /** `origins` says which change of which service each registration was. */
  datatype State = State(cells: map<Service, Cell>, pcs: map<nat, Pc>, origins: seq<(Service, nat)>,
    clearings: seq<Clearing>)

  datatype Action =
    | TakeLock(slot: nat, mode: Mode)
    | Call(kind: Kind, slot: nat)
    | CallSucceeds
    | CallFails
    | Unlock
    | WriteLock
    | Check
    | WriteUnlock
    | ReadLockAgain
    | Release
    | Register(service: Service)

  /** radio::getRadioServiceRwlock. */
  function LockOf(slot: nat): nat
  {
    if slot == 2 then 1 else if slot == 3 then 2 else if slot == 4 then 3 else 0
  }

  /** Each of the slots 2 to 4 has a lock of its own, and any other slot the first one. */
  lemma LocksOfSlots(slot: nat, other: nat)
    ensures LockOf(slot) == LockOf(other) <==> slot == other || (slot !in {2, 3, 4} && other !in {2, 3, 4})
  {
  }

  function PcOf(s: State, t: nat): Pc
  {
    if t in s.pcs then s.pcs[t] else Idle
  }

  predicate Reads(pc: Pc)
  {
    (pc.Holding? || pc.Called? || pc.Noted?) && pc.mode == Shared
  }

  predicate Writes(pc: Pc)
  {
    if pc.Holding? || pc.Called? || pc.Noted? then pc.mode == Alone
    else pc.Writing? || pc.Checked? || pc.Setting? || pc.Set?
  }

  /** The lock a thread has, or the one it is after. */
  function Held(pc: Pc): nat
  {
    match pc
    case Idle => 0
    case Holding(lock, _) => lock
    case _ => LockOf(pc.service.slot)
  }

  predicate HoldsRead(pc: Pc, lock: nat)
  {
    Reads(pc) && Held(pc) == lock
  }

  predicate HoldsWrite(pc: Pc, lock: nat)
  {
    Writes(pc) && Held(pc) == lock
  }

  /** A lock is given to a reader while nobody writes, and to a writer while nobody else has it. */
  predicate CanRead(s: State, lock: nat)
  {
    forall u | u in s.pcs :: !HoldsWrite(s.pcs[u], lock)
  }

  predicate CanWrite(s: State, lock: nat)
  {
    forall u | u in s.pcs :: !HoldsWrite(s.pcs[u], lock) && !HoldsRead(s.pcs[u], lock)
  }

  predicate CanTake(s: State, lock: nat, mode: Mode)
  {
    match mode
    case Shared => CanRead(s, lock)
    case Alone => CanWrite(s, lock)
  }

  function At(s: State, t: nat, pc: Pc): State
  {
    s.(pcs := s.pcs[t := pc])
  }

  /** The service's callbacks change, and its counter with them. */
  function Changed(s: State, service: Service, callbacks: Option<nat>): State
    requires service in s.cells
  {
    var c := s.cells[service];
    s.(cells := s.cells[service := Cell(callbacks, c.counter + 1, c.past + [callbacks])])
  }

  /** One step of a thread, if it is where it can take it. */
  function Next(s: State, t: nat, a: Action): State
  {
    var pc := PcOf(s, t);
    match a
    case TakeLock(slot, mode) =>
      if pc.Idle? && CanTake(s, LockOf(slot), mode) then At(s, t, Holding(LockOf(slot), mode)) else s
    case Call(kind, slot) =>
      var service := Service(slot, kind);
      if pc.Holding? && pc.lock == LockOf(slot) && service in s.cells && s.cells[service].callbacks.Some?
      then At(s, t, Called(service, s.cells[service].callbacks.value, pc.mode)) else s
    case CallSucceeds => if pc.Called? then At(s, t, Holding(LockOf(pc.service.slot), pc.mode)) else s
    case CallFails =>
      if pc.Called? && pc.service in s.cells
      then At(s, t, Noted(pc.service, pc.used, s.cells[pc.service].counter, pc.mode)) else s
    case Unlock => if pc.Noted? then At(s, t, Unlocked(pc.service, pc.used, pc.counter)) else s
    case WriteLock =>
      if pc.Unlocked? && CanWrite(s, LockOf(pc.service.slot)) then At(s, t, Writing(pc.service, pc.used, pc.counter))
      else if pc.Registering? && CanWrite(s, LockOf(pc.service.slot)) then At(s, t, Setting(pc.service))
      else s
    case Check =>
      if pc.Writing? && pc.service in s.cells then
        if pc.counter == s.cells[pc.service].counter then
          var clearing := Clearing(pc.service, pc.used, s.cells[pc.service].callbacks, pc.counter);
          At(Changed(s, pc.service, None), t, Checked(pc.service)).(clearings := s.clearings + [clearing])
        else At(s, t, Checked(pc.service))
      else if pc.Setting? && pc.service in s.cells then
        var origin := (pc.service, |s.cells[pc.service].past|);
        At(Changed(s, pc.service, Some(|s.origins|)), t, Set(pc.service, |s.origins|)).(origins := s.origins + [origin])
      else s
    case WriteUnlock =>
      if pc.Checked? then At(s, t, Relocking(pc.service)) else if pc.Set? then At(s, t, Idle) else s
    case ReadLockAgain =>
      if pc.Relocking? && CanRead(s, LockOf(pc.service.slot)) then At(s, t, Holding(LockOf(pc.service.slot), Shared))
      else s
    case Release => if pc.Holding? then At(s, t, Idle) else s
    case Register(service) => if pc.Idle? then At(s, t, Registering(service)) else s
  }

  function Run(s: State, steps: seq<(nat, Action)>): State
  {
    if steps == [] then s
    else Next(Run(s, steps[..|steps| - 1]), steps[|steps| - 1].0, steps[|steps| - 1].1)
  }

  /** Whoever writes has the lock alone. */
  ghost predicate Exclusive(s: State)
  {
    forall t, u | t in s.pcs && u in s.pcs && t != u :: Compatible(s.pcs[t], s.pcs[u])
  }

  predicate Compatible(p: Pc, q: Pc)
  {
    Writes(p) && (Writes(q) || Reads(q)) ==> Held(p) != Held(q)
  }

  /** The counter says how often the callbacks have changed; no registration comes twice. */
  ghost predicate Recorded(s: State)
  {
    forall v | v in s.cells :: RecordedAt(s, v, s.cells[v])
  }

  ghost predicate RecordedAt(s: State, v: Service, c: Cell)
  {
    && c.counter + 1 == |c.past| && |c.past| > 0 && c.callbacks == c.past[c.counter]
    && forall i | 0 <= i < |c.past| && c.past[i].Some? ::
      c.past[i].value < |s.origins| && s.origins[c.past[i].value] == (v, i)
  }

  function Registrations(origins: seq<(Service, nat)>, v: Service): nat
  {
    if origins == [] then 0
    else
      Registrations(origins[..|origins| - 1], v) + if origins[|origins| - 1].0 == v then 1 else 0
  }

  function Clearings(clearings: seq<Clearing>, v: Service): nat
  {
    if clearings == [] then 0
    else
      Clearings(clearings[..|clearings| - 1], v) + if clearings[|clearings| - 1].service == v then 1 else 0
  }

  /** A service's counter counts its registrations and its clearings. */
  ghost predicate Tallied(s: State)
  {
    forall v | v in s.cells :: TalliedAt(s, v)
  }

  ghost predicate TalliedAt(s: State, v: Service)
    requires v in s.cells
  {
    s.cells[v].counter == Registrations(s.origins, v) + Clearings(s.clearings, v)
  }

  /** A thread remembers the counter at which its call's registration was current; under the lock it still is. One that
      has just registered callbacks finds them installed. */
  ghost predicate Remembers(s: State)
  {
    forall t | t in s.pcs :: RemembersAt(s, s.pcs[t])
  }

  ghost predicate RemembersAt(s: State, pc: Pc)
  {
    && (pc.Called? || pc.Noted? ==> pc.service in s.cells && s.cells[pc.service].callbacks == Some(pc.used))
    && (pc.Noted? ==> pc.counter == s.cells[pc.service].counter)
    && (pc.Unlocked? || pc.Writing? ==>
          pc.service in s.cells && 0 <= pc.counter < |s.cells[pc.service].past| &&
            s.cells[pc.service].past[pc.counter] == Some(pc.used))
    && (pc.Set? ==> pc.service in s.cells && s.cells[pc.service].callbacks == Some(pc.registration))
  }

  /** Every reset cleared what its own call had failed on, and the counter has moved past it. */
  ghost predicate Justified(s: State)
  {
    && (forall i | 0 <= i < |s.clearings| :: JustifiedAt(s, s.clearings[i]))
    && (forall i, j | 0 <= i < j < |s.clearings| && s.clearings[i].service == s.clearings[j].service ::
      s.clearings[i].counter < s.clearings[j].counter)
  }

  ghost predicate JustifiedAt(s: State, c: Clearing)
  {
    && c.cleared == Some(c.used) && c.service in s.cells && 0 <= c.counter < |s.cells[c.service].past| - 1
    && s.cells[c.service].past[c.counter] == Some(c.used)
  }

  ghost predicate Valid(s: State)
  {
    Exclusive(s) && Recorded(s) && Tallied(s) && Remembers(s) && Justified(s)
  }

  /** A lock is taken only in a mode that others allow, and what is held keeps its mode or becomes shared. */
  lemma StepsCompatibly(s: State, t: nat, a: Action)
    requires Exclusive(s)
    ensures var pc := PcOf(Next(s, t, a), t);
      forall u | u in s.pcs && u != t :: Compatible(pc, s.pcs[u]) && Compatible(s.pcs[u], pc)
  {
    var pc := PcOf(Next(s, t, a), t);
    forall u | u in s.pcs && u != t ensures Compatible(pc, s.pcs[u]) && Compatible(s.pcs[u], pc) {
      if t in s.pcs {
        assert Compatible(s.pcs[t], s.pcs[u]) && Compatible(s.pcs[u], s.pcs[t]);
      }
    }
  }

  lemma NextKeepsExclusive(s: State, t: nat, a: Action)
    requires Exclusive(s)
    ensures Exclusive(Next(s, t, a))
  {
    var n := Next(s, t, a);
    assert n.pcs == s.pcs || n.pcs == s.pcs[t := PcOf(n, t)];
    StepsCompatibly(s, t, a);
    hide Next, Compatible;
    forall u, v | u in n.pcs && v in n.pcs && u != v ensures Compatible(n.pcs[u], n.pcs[v]) {
      if u != t && v != t {
        assert Compatible(s.pcs[u], s.pcs[v]);
      }
    }
  }

  /** Only a check under the write lock changes callbacks, of one service. */
  lemma OnlyCheckChanges(s: State, t: nat, a: Action)
    ensures !a.Check? ==> Next(s, t, a).cells == s.cells && Next(s, t, a).origins == s.origins
  {
    hide CanRead, CanWrite;
  }

  lemma ChangedIsRecorded(s: State, v: Service, c: Cell, n: State, callbacks: Option<nat>)
    requires RecordedAt(s, v, c) && s.origins <= n.origins
    requires callbacks.Some? ==> callbacks.value < |n.origins| && n.origins[callbacks.value] == (v, |c.past|)
    ensures RecordedAt(n, v, c) && RecordedAt(n, v, Cell(callbacks, c.counter + 1, c.past + [callbacks]))
  {
  }

  lemma NextKeepsRecorded(s: State, t: nat, a: Action)
    requires Recorded(s)
    ensures Recorded(Next(s, t, a))
  {
    hide CanRead, CanWrite, RecordedAt;
    var n, pc := Next(s, t, a), PcOf(s, t);
    OnlyCheckChanges(s, t, a);
    forall v | v in n.cells ensures RecordedAt(n, v, n.cells[v]) {
      assert RecordedAt(s, v, s.cells[v]);
      var callbacks := if pc.Setting? && pc.service == v && a.Check? then Some(|s.origins|) else None;
      ChangedIsRecorded(s, v, s.cells[v], n, callbacks);
    }
  }

  lemma OneMore(origins: seq<(Service, nat)>, origin: (Service, nat), clearings: seq<Clearing>, clearing: Clearing,
    v: Service)
    ensures Registrations(origins + [origin], v) == Registrations(origins, v) + if origin.0 == v then 1 else 0
    ensures Clearings(clearings + [clearing], v) == Clearings(clearings, v) + if clearing.service == v then 1 else 0
  {
    assert (origins + [origin])[..|origins|] == origins && (clearings + [clearing])[..|clearings|] == clearings;
  }

  lemma NextKeepsTallied(s: State, t: nat, a: Action)
    requires Tallied(s)
    ensures Tallied(Next(s, t, a))
  {
    hide CanRead, CanWrite, Registrations, Clearings;
    var n, pc := Next(s, t, a), PcOf(s, t);
    forall v | v in n.cells ensures TalliedAt(n, v) {
      assert TalliedAt(s, v);
      if a.Check? && (pc.Setting? || pc.Writing?) && pc.service in s.cells {
        var c := s.cells[pc.service];
        OneMore(s.origins, (pc.service, |c.past|), s.clearings,
          Clearing(pc.service, if pc.Writing? then pc.used else 0, c.callbacks, c.counter), v);
      }
    }
  }

  /** What a thread remembers stays right when another takes a step. */
  lemma OtherRemembers(s: State, t: nat, a: Action, u: nat)
    requires Exclusive(s) && Recorded(s) && Remembers(s) && u != t && u in s.pcs
    ensures RemembersAt(Next(s, t, a), s.pcs[u])
  {
    hide CanRead, CanWrite;
    var pc := s.pcs[u];
    assert RemembersAt(s, pc);
    if pc.Called? || pc.Noted? || pc.Unlocked? || pc.Writing? || pc.Set? {
      assert RecordedAt(s, pc.service, s.cells[pc.service]);
      assert t in s.pcs ==> Compatible(s.pcs[t], pc);
    }
  }

  lemma SelfRemembers(s: State, t: nat, a: Action)
    requires Recorded(s) && Remembers(s)
    ensures RemembersAt(Next(s, t, a), PcOf(Next(s, t, a), t))
  {
    hide CanRead, CanWrite;
    var pc := PcOf(s, t);
    assert RemembersAt(s, pc);
    if pc.Called? || pc.Noted? || pc.Unlocked? || pc.Writing? {
      assert RecordedAt(s, pc.service, s.cells[pc.service]);
    }
  }

  lemma NextKeepsRemembers(s: State, t: nat, a: Action)
    requires Exclusive(s) && Recorded(s) && Remembers(s)
    ensures Remembers(Next(s, t, a))
  {
    var n := Next(s, t, a);
    assert forall u | u in n.pcs && u != t :: u in s.pcs && n.pcs[u] == s.pcs[u];
    hide Next, Exclusive, Recorded, RemembersAt;
    forall u | u in n.pcs ensures RemembersAt(n, n.pcs[u]) {
      if u == t {
        SelfRemembers(s, t, a);
      } else {
        OtherRemembers(s, t, a, u);
      }
    }
  }

  lemma NextKeepsJustified(s: State, t: nat, a: Action)
    requires Recorded(s) && Remembers(s) && Justified(s)
    ensures Justified(Next(s, t, a))
  {
    hide CanRead, CanWrite;
    var n, pc := Next(s, t, a), PcOf(s, t);
    if a.Check? && pc.Writing? {
      assert RemembersAt(s, pc) && RecordedAt(s, pc.service, s.cells[pc.service]);
    }
    forall i | 0 <= i < |n.clearings| ensures JustifiedAt(n, n.clearings[i]) {
      if i < |s.clearings| {
        assert JustifiedAt(s, s.clearings[i]);
      }
    }
  }

  /** Nothing registered, no thread anywhere. */
  function Start(services: set<Service>): State
  {
    State(map v | v in services :: Cell(None, 0, [None]), map[], [], [])
  }

  lemma NextKeepsValid(s: State, t: nat, a: Action)
    requires Valid(s)
    ensures Valid(Next(s, t, a))
  {
    NextKeepsExclusive(s, t, a);
    NextKeepsRecorded(s, t, a);
    NextKeepsTallied(s, t, a);
    NextKeepsRemembers(s, t, a);
    NextKeepsJustified(s, t, a);
  }

  /** Every state that threads can reach, in any interleaving, is valid. */
  lemma {:induction false} RunIsValid(services: set<Service>, steps: seq<(nat, Action)>)
    ensures Valid(Run(Start(services), steps))
  {
    hide Next, Valid;
    if steps == [] {
      StartIsValid(services);
    } else {
      RunIsValid(services, steps[..|steps| - 1]);
      NextKeepsValid(Run(Start(services), steps[..|steps| - 1]), steps[|steps| - 1].0, steps[|steps| - 1].1);
    }
  }

  lemma StartIsValid(services: set<Service>)
    ensures Valid(Start(services))
  {
  }

  /** After a failed call, the callbacks are cleared if they are still those it failed on, and are left alone if
      they are any others, newer ones or none. */
  lemma ClearsOnlyItsOwn(services: set<Service>, steps: seq<(nat, Action)>, t: nat)
    requires PcOf(Run(Start(services), steps), t).Writing?
    ensures var s := Run(Start(services), steps);
      var pc := PcOf(s, t);
      pc.service in s.cells && Next(s, t, Check).cells ==
        if s.cells[pc.service].callbacks == Some(pc.used) then Changed(s, pc.service, None).cells else s.cells
  {
    hide Run;
    var s := Run(Start(services), steps);
    var pc := PcOf(s, t);
    RunIsValid(services, steps);
    assert RemembersAt(s, pc) && RecordedAt(s, pc.service, s.cells[pc.service]);
  }

  /** No registration is cleared twice, however many calls fail on it, nor by a call that used another. */
  lemma ClearedOnce(services: set<Service>, steps: seq<(nat, Action)>, i: nat, j: nat)
    requires i < j < |Run(Start(services), steps).clearings|
    ensures var c := Run(Start(services), steps).clearings;
      c[i].cleared != c[j].cleared && c[i].cleared == Some(c[i].used)
  {
    hide Run;
    var s := Run(Start(services), steps);
    RunIsValid(services, steps);
    var c, d := s.clearings[i], s.clearings[j];
    assert JustifiedAt(s, c) && JustifiedAt(s, d);
    assert RecordedAt(s, c.service, s.cells[c.service]) && RecordedAt(s, d.service, s.cells[d.service]);
  }

  /** A thread that has registered callbacks, and not yet given the lock up, finds them and no others in the service,
      with a counter that has moved with every registration and every clearing. */
  lemma InstallsItsOwn(services: set<Service>, steps: seq<(nat, Action)>, t: nat)
    requires PcOf(Run(Start(services), steps), t).Set?
    ensures var s := Run(Start(services), steps);
      var pc := PcOf(s, t);
      && pc.service in s.cells && s.cells[pc.service].callbacks == Some(pc.registration)
      && pc.registration < |s.origins| && s.origins[pc.registration].0 == pc.service
      && s.cells[pc.service].counter == Registrations(s.origins, pc.service) + Clearings(s.clearings, pc.service)
  {
    hide Run;
    var s := Run(Start(services), steps);
    var pc := PcOf(s, t);
    RunIsValid(services, steps);
    assert RemembersAt(s, pc) && RecordedAt(s, pc.service, s.cells[pc.service]) && TalliedAt(s, pc.service);
  }

  /** Wherever nobody else has the lock, a registration goes through: the service has the new callbacks, its counter has
      moved by one, every other service is as it was, and the lock is given up. */
  lemma RegistrationInstalls(s: State, t: nat, service: Service)
    requires PcOf(s, t).Idle? && service in s.cells && CanWrite(s, LockOf(service.slot))
    ensures var n := Next(Next(Next(Next(s, t, Register(service)), t, WriteLock), t, Check), t, WriteUnlock);
      && n.cells.Keys == s.cells.Keys && PcOf(n, t).Idle?
      && n.cells[service].callbacks == Some(|s.origins|) && n.cells[service].counter == s.cells[service].counter + 1
      && forall v | v in s.cells && v != service :: n.cells[v] == s.cells[v]
  {
  }

  /** Nobody but the thread has the lock. */
  predicate FreeOfOthers(s: State, t: nat, lock: nat)
  {
    forall u | u in s.pcs && u != t :: !HoldsWrite(s.pcs[u], lock) && !HoldsRead(s.pcs[u], lock)
  }

  lemma GetsToWrite(s: State, t: nat)
    requires PcOf(s, t).Called? && s.pcs[t].service in s.cells && FreeOfOthers(s, t, LockOf(s.pcs[t].service.slot))
    ensures var pc := s.pcs[t];
      var n := Next(Next(Next(s, t, CallFails), t, Unlock), t, WriteLock);
      && n.pcs == s.pcs[t := Writing(pc.service, pc.used, s.cells[pc.service].counter)] && n.cells == s.cells
      && FreeOfOthers(n, t, LockOf(pc.service.slot))
  {
    var pc := s.pcs[t];
    var unlocked := Next(Next(s, t, CallFails), t, Unlock);
    assert unlocked == At(s, t, Unlocked(pc.service, pc.used, s.cells[pc.service].counter));
    assert CanWrite(unlocked, LockOf(pc.service.slot));
  }

  lemma WriterClears(s: State, t: nat)
    requires PcOf(s, t).Writing? && s.pcs[t].service in s.cells && FreeOfOthers(s, t, LockOf(s.pcs[t].service.slot))
    requires s.pcs[t].counter == s.cells[s.pcs[t].service].counter
    ensures var service := s.pcs[t].service;
      var n := Next(Next(Next(s, t, Check), t, WriteUnlock), t, ReadLockAgain);
      && PcOf(n, t) == Holding(LockOf(service.slot), Shared)
      && n.cells == s.cells[service := n.cells[service]]
      && n.cells[service].callbacks.None? && n.cells[service].counter == s.cells[service].counter + 1
  {
    var relocking := Next(Next(s, t, Check), t, WriteUnlock);
    assert CanRead(relocking, LockOf(s.pcs[t].service.slot));
  }

  /** Wherever nobody else has the lock, the callbacks a call failed on are cleared, its counter has moved by one, every
      other service is as it was, and the thread has the lock for reading. */
  lemma FailureClears(s: State, t: nat)
    requires Valid(s) && PcOf(s, t).Called?
    requires FreeOfOthers(s, t, LockOf(s.pcs[t].service.slot))
    ensures var service := PcOf(s, t).service;
      var n := Next(Next(Next(Next(Next(Next(s, t, CallFails), t, Unlock), t, WriteLock), t, Check), t, WriteUnlock),
        t, ReadLockAgain);
      && n.cells.Keys == s.cells.Keys && PcOf(n, t) == Holding(LockOf(service.slot), Shared)
      && n.cells[service].callbacks.None? && n.cells[service].counter == s.cells[service].counter + 1
      && forall v | v in s.cells && v != service :: n.cells[v] == s.cells[v]
  {
    assert RemembersAt(s, s.pcs[t]);
    hide Next, Valid, HoldsRead, HoldsWrite;
    GetsToWrite(s, t);
    WriterClears(Next(Next(Next(s, t, CallFails), t, Unlock), t, WriteLock), t);
  }

  /** Wherever the lock may be taken, a call is made with the callbacks there are, and gives the lock up as it was. */
  lemma CallGetsThrough(s: State, t: nat, service: Service, mode: Mode)
    requires PcOf(s, t).Idle? && CanTake(s, LockOf(service.slot), mode)
    requires service in s.cells && s.cells[service].callbacks.Some?
    ensures var call := Next(Next(s, t, TakeLock(service.slot, mode)), t, Call(service.kind, service.slot));
      var n := Next(Next(call, t, CallSucceeds), t, Release);
      && PcOf(call, t) == Called(service, s.cells[service].callbacks.value, mode)
      && PcOf(n, t).Idle? && n.cells == s.cells
  {
  }

  /** Between making a call and having dealt with its failure. */
  predicate InCall(pc: Pc)
  {
    pc.Called? || Failed(pc)
  }

  predicate Failed(pc: Pc)
  {
    pc.Noted? || pc.Unlocked? || pc.Writing? || pc.Checked? || pc.Relocking?
  }

  /** A call goes on, with the same service and until it fails under the same mode; or it fails; or it succeeds and the
      thread has the lock as before; or its failure is dealt with and the thread has the lock for reading. */
  predicate Advances(from: Pc, to: Pc)
    requires InCall(from)
  {
    || to == from
    || (Failed(to) && to.service == from.service)
    || to == Holding(LockOf(from.service.slot), if from.Called? then from.mode else Shared)
  }

  lemma StaysInCall(s: State, t: nat, u: nat, a: Action)
    requires InCall(PcOf(s, t))
    ensures Advances(PcOf(s, t), PcOf(Next(s, u, a), t))
  {
    hide CanRead, CanWrite;
  }

  /** Whatever other threads do meanwhile, a thread whose call succeeds comes out of it with the lock it made the call
      under, in the mode it had; one whose call failed comes out, once that is dealt with, with the same lock for
      reading, in whichever mode it made the call and though it gave the lock up in between. */
  lemma {:induction false} ComesOutLocked(s: State, steps: seq<(nat, Action)>, t: nat)
    requires steps != [] && PcOf(s, t).Called?
    requires forall n | 0 <= n < |steps| :: InCall(PcOf(Run(s, steps[..n]), t))
    requires !InCall(PcOf(Run(s, steps), t))
    ensures var call, last := PcOf(s, t), PcOf(Run(s, steps[..|steps| - 1]), t);
      PcOf(Run(s, steps), t) ==
        Holding(LockOf(call.service.slot), if Failed(last) then Shared else call.mode)
  {
    hide Next;
    var before := steps[..|steps| - 1];
    assert forall n | 0 <= n <= |before| :: before[..n] == steps[..n];
    RemembersItsCall(s, before, t);
    StaysInCall(Run(s, before), t, steps[|steps| - 1].0, steps[|steps| - 1].1);
  }

  /** Until its failure is dealt with a call is about the service it was made for. */
  lemma {:induction false} RemembersItsCall(s: State, steps: seq<(nat, Action)>, t: nat)
    requires PcOf(s, t).Called?
    requires forall n | 0 <= n <= |steps| :: InCall(PcOf(Run(s, steps[..n]), t))
    ensures var pc := PcOf(Run(s, steps), t);
      pc == PcOf(s, t) || (Failed(pc) && pc.service == PcOf(s, t).service)
  {
    hide Next;
    if steps == [] {
      assert steps[..0] == steps;
    } else {
      var before := steps[..|steps| - 1];
      assert forall n | 0 <= n <= |before| :: before[..n] == steps[..n];
      assert steps[..|steps|] == steps && InCall(PcOf(Run(s, steps[..|steps|]), t));
      RemembersItsCall(s, before, t);
      StaysInCall(Run(s, before), t, steps[|steps| - 1].0, steps[|steps| - 1].1);
    }
  }
}
