/** The looper: its message queue, wake pipe, registered descriptors and buffered poll responses, as steps
    of the looper's own thread and of any others, each as long as one holding of the lock. */
module LooperThread {
  import opened Options
  import opened MessageQueue

  datatype Flag = In | Out | Err | Hup | Other

  datatype Condition = Input | Output | Error | Hangup

  datatype Request = Request(fd: int, ident: int, callback: Option<int>, data: int)

  datatype Response = Response(events: set<Condition>, request: Request)

  /** What epoll_wait reports of one descriptor, and what it returns. */
  datatype Event = Event(fd: int, flags: set<Flag>)

  datatype Polled = Interrupted | Failed | TimedOut | Ready(events: seq<Event>)

  const POLL_WAKE := -1
  const POLL_CALLBACK := -2
  const POLL_TIMEOUT := -3
  const POLL_ERROR := -4

  /** Where the looper's thread is: outside pollOnce; waiting, since it worked out its timeout; in a message
      handler; or going through the responses of this poll. */
  datatype Phase =
    | Idle
    | Waiting(since: int, caller: int, millis: int)
    | Delivering(message: Envelope)
    | Responding(index: nat, result: int)

  /** A finished poll: the responses it heard, those whose identifier was returned, and those whose callback ran. */
  datatype Round = Round(heard: seq<Response>, returned: seq<Response>, invoked: seq<Response>)

  /** A step of some thread. */
  datatype Step =
    | Send(uptime: int, handler: int, what: int)
    | WakeAfterSend
    | Wake
    | Remove(handler: int, only: Option<int>)
    | Add(fd: int, ident: int, callback: Option<int>, data: int)
    | RemoveFd(fd: int)
    | StartPoll(caller: int, now: int)
    | PollReturn(polled: Polled, now: int)
    | HandlerReturned(now: int)
    | Respond(keep: bool)

  /** What a poll comes to if nothing is called back. */
  function ResultOf(polled: Polled): int
  {
    match polled
    case Failed => POLL_ERROR
    case TimedOut => POLL_TIMEOUT
    case _ => POLL_WAKE
  }

  /** Each condition stands for one flag; any others are dropped. */
  function Conditions(flags: set<Flag>): (c: set<Condition>)
    ensures (Input in c <==> In in flags) && (Output in c <==> Out in flags)
    ensures (Error in c <==> Err in flags) && (Hangup in c <==> Hup in flags)
  {
    (if In in flags then {Input} else {}) + (if Out in flags then {Output} else {}) +
    (if Err in flags then {Error} else {}) + (if Hup in flags then {Hangup} else {})
  }

  /** The responses to a batch of events: one for each event on a registered descriptor, in order. */
  function Heard(events: seq<Event>, requests: map<int, Request>, wakeFd: int): seq<Response>
  {
    if events == [] then [] else
      var n := |events| - 1;
      Heard(events[..n], requests, wakeFd) +
      if events[n].fd != wakeFd && events[n].fd in requests
      then [Response(Conditions(events[n].flags), requests[events[n].fd])] else []
  }

  function Idents(s: seq<Response>): seq<Response>
  {
    if s == [] then [] else Idents(s[..|s| - 1]) + if s[|s| - 1].request.ident >= 0 then [s[|s| - 1]] else []
  }

  function Callbacks(s: seq<Response>): seq<Response>
  {
    if s == [] then [] else Callbacks(s[..|s| - 1]) + if s[|s| - 1].request.ident == POLL_CALLBACK
      then [s[|s| - 1]] else []
  }

  /** A request has either a callback or an identifier to return. */
  predicate Proper(r: Request)
  {
    if r.callback.Some? then r.ident == POLL_CALLBACK else r.ident >= 0
  }

  /** The poll's identifiers were all returned, and its callbacks all invoked, in order. */
  ghost predicate Complete(r: Round)
  {
    r.returned == Idents(r.heard) && r.invoked == Callbacks(r.heard) && forall h | h in r.heard :: Proper(h.request)
  }

  /** Each response to proper requests is either invoked or returned, never both and never neither. */
  lemma {:induction false} EachAnsweredOnce(s: seq<Response>)
    requires forall r | r in s :: Proper(r.request)
    ensures multiset(Idents(s)) + multiset(Callbacks(s)) == multiset(s)
    ensures |Idents(s)| + |Callbacks(s)| == |s|
  {
    if s != [] {
      EachAnsweredOnce(s[..|s| - 1]);
      assert s == s[..|s| - 1] + [s[|s| - 1]];
      assert s[|s| - 1] in s;
    }
  }

  lemma {:induction false} HeardProper(events: seq<Event>, requests: map<int, Request>, wakeFd: int)
    requires forall fd | fd in requests :: Proper(requests[fd])
    ensures forall r | r in Heard(events, requests, wakeFd) :: Proper(r.request)
  {
    if events != [] {
      HeardProper(events[..|events| - 1], requests, wakeFd);
    }
  }

  /** The responses on one descriptor, and the events on one. */
  function Of(s: seq<Response>, fd: int): seq<Response>
  {
    if s == [] then [] else Of(s[..|s| - 1], fd) + if s[|s| - 1].request.fd == fd then [s[|s| - 1]] else []
  }

  function EventsOn(events: seq<Event>, fd: int): nat
  {
    if events == [] then 0 else EventsOn(events[..|events| - 1], fd) + if events[|events| - 1].fd == fd then 1 else 0
  }

  /** Every event on a registered descriptor yields one response, to the request registered for it. */
  lemma {:induction false} OneResponseEach(events: seq<Event>, requests: map<int, Request>, wakeFd: int, fd: int)
    requires forall k | k in requests :: requests[k].fd == k
    ensures |Of(Heard(events, requests, wakeFd), fd)| ==
            if fd != wakeFd && fd in requests then EventsOn(events, fd) else 0
    ensures forall r | r in Of(Heard(events, requests, wakeFd), fd) :: fd in requests && r.request == requests[fd]
  {
    if events != [] {
      var e, before := events[|events| - 1], Heard(events[..|events| - 1], requests, wakeFd);
      OneResponseEach(events[..|events| - 1], requests, wakeFd, fd);
      if e.fd != wakeFd && e.fd in requests {
        assert (before + [Response(Conditions(e.flags), requests[e.fd])])[..|before|] == before;
      } else {
        assert Heard(events, requests, wakeFd) == before;
      }
    }
  }

  class Looper {
    const allowNonCallbacks: bool
    const wakeFd: int

    var messages: seq<Envelope>
    var sending: bool
    var next: int
    /** How many messages were ever sent; the wake pipe's bytes; senders between unlocking and writing to it. */
    var sends: nat
    var pipe: nat
    var wakers: nat
    /** The descriptor requests, and the kernel's interest set. */
    var requests: map<int, Request>
    var interest: set<int>
    var responses: seq<Response>
    var responseIndex: nat
    var phase: Phase

    /** How often the kernel has refused to change what it watches. */
    ghost var refusals: nat
    ghost var sent: seq<Envelope>
    ghost var delivered: seq<Delivery>
    ghost var removed: multiset<Envelope>
    ghost var heard: seq<Response>
    ghost var returned: seq<Response>
    ghost var invoked: seq<Response>
    ghost var rounds: seq<Round>

    // ---- what every step keeps ----

    /** The queue is in order, nothing is lost, and nothing was delivered early or out of turn. */
    ghost predicate Delivers()
      reads `messages, `sends, `sent, `delivered, `removed
    {
      sends == |sent| && Sound(messages, sent, delivered, removed)
    }

    /** If the next message is due before the looper thinks, it is about to look, or will be woken. */
    ghost predicate Wakeful()
      reads `messages, `sending, `next, `pipe, `wakers, `phase
    {
      && (sending <==> phase.Delivering?) && (sending ==> next == NEVER)
      && (!sending && messages != [] && messages[0].uptime < next ==> pipe > 0 || wakers > 0)
      && (phase.Waiting? ==> phase.millis == WaitMillis(phase.caller, next, phase.since))
    }

    /** The kernel watches the wake pipe and the registered descriptors, no more and no less. */
    ghost predicate Registered()
      reads this`requests, `interest
    {
      && wakeFd !in requests && interest == requests.Keys + {wakeFd}
      && forall fd | fd in requests :: requests[fd].fd == fd && Proper(requests[fd])
    }

    /** Responses are answered in order: callbacks while responding, identifiers one to a call after that. */
    ghost predicate Answered()
      reads `responses, `responseIndex, `phase, `heard, `returned, `invoked, `rounds
    {
      && responseIndex <= |responses| == |heard|
      && (forall r | r in heard :: Proper(r.request))
      && returned == Idents(heard[..responseIndex])
      && (phase.Responding? ==> phase.index <= |heard| && responseIndex == 0)
      && (phase.Delivering? ==> responseIndex == 0)
      && (phase.Waiting? ==> heard == [])
      && invoked == Callbacks(heard[..Invoked()])
      && (forall i | 0 <= i < |heard| ::
            responses[i] == if i < Invoked() && heard[i].request.callback.Some? then Spent(heard[i]) else heard[i])
      && (forall r | r in rounds :: Complete(r))
    }

    /** How many responses have been looked at for a callback. */
    ghost function Invoked(): nat
      reads `phase, `heard
    {
      if phase.Responding? then if phase.index <= |heard| then phase.index else |heard|
      else if phase.Idle? then |heard|
      else 0
    }

    static function Spent(r: Response): Response
    {
      r.(request := r.request.(callback := None))
    }

    ghost predicate Valid()
      reads this
    {
      Delivers() && Wakeful() && Registered() && Answered()
    }

    constructor (allowNonCallbacks: bool, wakeFd: int)
      ensures Valid() && this.allowNonCallbacks == allowNonCallbacks && this.wakeFd == wakeFd
      ensures sent == [] && delivered == [] && rounds == [] && requests == map[]
    {
      this.allowNonCallbacks, this.wakeFd := allowNonCallbacks, wakeFd;
      messages, sending, next, sends, pipe, wakers := [], false, NEVER, 0, 0, 0;
      requests, interest, responses, responseIndex, phase := map[], {wakeFd}, [], 0, Idle;
      sent, delivered, removed, heard, returned, invoked, rounds := [], [], multiset{}, [], [], [], [];
      refusals := 0;
    }

    // ---- steps of any thread ----

    /** sendMessageAtTime, as long as it holds the lock: the message goes after every one due no later. */
    method Send(uptime: int, handler: int, what: int)
      requires Valid()
      modifies `messages, `sends, `wakers, `sent
      ensures Valid()
      ensures sent == old(sent) + [Envelope(uptime, handler, what, |old(sent)|)]
      ensures multiset(messages) == multiset(old(messages)) + multiset{sent[|old(sent)|]}
      ensures wakers == old(wakers) + if !sending && messages[0] == sent[|old(sent)|] then 1 else 0
    {
      hide Sound, Registered, Answered;
      var e := Envelope(uptime, handler, what, sends);
      var i := 0;
      while i < |messages| && uptime >= messages[i].uptime
        invariant 0 <= i <= |messages|
        invariant i > 0 ==> messages[i - 1].uptime <= uptime
      {
        i := i + 1;
      }
      SendKeepsSound(messages, sent, delivered, removed, i, e);
      EnqueuedItems(messages, i, e);
      messages := Enqueued(messages, i, e);
      sends, sent := sends + 1, sent + [e];
      if !sending && i == 0 {
        wakers := wakers + 1;
      }
    }

    /** The end of a send that put its message first: it writes to the wake pipe. */
    method WakeAfterSend()
      requires Valid() && wakers > 0
      modifies `wakers, `pipe
      ensures Valid() && pipe > 0 && pipe >= old(pipe) && wakers == old(wakers) - 1
    {
      hide Delivers, Registered, Answered;
      Wake();
      wakers := wakers - 1;
    }

    /** A byte goes into the wake pipe, unless it is full. */
    method Wake()
      requires Valid()
      modifies `pipe
      ensures Valid() && pipe > 0 && pipe >= old(pipe)
    {
      hide Delivers, Registered, Answered;
      if pipe == 0 {
        pipe := 1;
      } else if * {
        pipe := pipe + 1;
      }
    }

    /** The loop of removeMessages, last message to first. */
    method RemoveBackwards(handler: int, what: Option<int>)
      modifies `messages
      ensures messages == Kept(old(messages), handler, what)
    {
      hide Kept, Matches;
      ghost var was := messages;
      var i := |messages|;
      NoneToKeep(handler, what);
      assert was[|was|..] == [] && was[0..] == was;
      while i != 0
        invariant 0 <= i <= |was| && messages == was[..i] + Kept(was[i..], handler, what)
      {
        i := i - 1;
        KeptFrom(was, i, handler, what);
        assert messages[..i] == was[..i] && messages[i] == was[i];
        assert messages[i + 1..] == Kept(was[i + 1..], handler, what);
        if Matches(messages[i], handler, what) {
          messages := messages[..i] + messages[i + 1..];
        }
      }
    }

    /** removeMessages, for all of a handler's messages or those with one `what`. */
    method RemoveMessages(handler: int, what: Option<int>)
      requires Valid()
      modifies `messages, `removed
      ensures Valid() && messages == Kept(old(messages), handler, what)
      ensures removed == old(removed) + multiset(Dropped(old(messages), handler, what))
    {
      hide Sound, Registered, Answered, WaitMillis, Kept, Dropped;
      RemoveKeepsSound(messages, sent, delivered, removed, handler, what);
      HeadKept(messages, sent, delivered, removed, handler, what);
      removed := removed + multiset(Dropped(messages, handler, what));
      RemoveBackwards(handler, what);
    }

    /** epoll_ctl with EPOLL_CTL_ADD: refused for a descriptor watched already, and perhaps for other reasons. */
    method EpollAdd(fd: int) returns (ok: bool)
      modifies `interest, `refusals
      ensures ok ==> fd !in old(interest)
      ensures interest == if ok then old(interest) + {fd} else old(interest)
      ensures refusals == old(refusals) + if ok then 0 else 1
    {
      ok := false;
      if fd !in interest {
        if * {
          interest, ok := interest + {fd}, true;
        }
      }
      if !ok {
        refusals := refusals + 1;
      }
    }

    /** With EPOLL_CTL_MOD, which changes neither the descriptors watched nor anything else modelled here. */
    method EpollModify(fd: int) returns (ok: bool)
      modifies `refusals
      ensures refusals == old(refusals) + if ok then 0 else 1
    {
      ok := false;
      if fd in interest {
        if * {
          ok := true;
        }
      }
      if !ok {
        refusals := refusals + 1;
      }
    }

    /** With EPOLL_CTL_DEL. */
    method EpollDelete(fd: int) returns (ok: bool)
      modifies `interest, `refusals
      ensures interest == if ok then old(interest) - {fd} else old(interest)
      ensures refusals == old(refusals) + if ok then 0 else 1
    {
      ok := false;
      if fd in interest {
        if * {
          interest, ok := interest - {fd}, true;
        }
      }
      if !ok {
        refusals := refusals + 1;
      }
    }

    /** addFd. A callback goes before the identifier; without one the identifier must be nonnegative. Fails for
        arguments that are not proper, and otherwise exactly if the kernel refuses. */
    method AddFd(fd: int, ident: int, callback: Option<int>, data: int) returns (r: int)
      requires Valid()
      modifies `requests, `interest, `refusals
      ensures Valid() && (r == 1 || r == -1)
      ensures r == -1 <==>
        (callback.None? && (!allowNonCallbacks || ident < 0)) || refusals > old(refusals)
      ensures refusals == old(refusals) ||
        (refusals == old(refusals) + 1 && (callback.Some? || (allowNonCallbacks && ident >= 0)))
      ensures var request := Request(fd, if callback.Some? then POLL_CALLBACK else ident, callback, data);
        requests == if r == 1 then old(requests)[fd := request] else old(requests)
    {
      hide Delivers, Wakeful, Answered;
      if callback.None? && (!allowNonCallbacks || ident < 0) {
        return -1;
      }
      var request := Request(fd, if callback.Some? then POLL_CALLBACK else ident, callback, data);
      var ok;
      if fd !in requests {
        ok := EpollAdd(fd);
      } else {
        ok := EpollModify(fd);
      }
      if !ok {
        return -1;
      }
      requests := requests[fd := request];
      r := 1;
    }

    /** removeFd. Fails exactly if the kernel refuses. */
    method RemoveFd(fd: int) returns (r: int)
      requires Valid()
      modifies `requests, `interest, `refusals
      ensures Valid() && -1 <= r <= 1 && (r == 0 <==> fd !in old(requests))
      ensures refusals >= old(refusals) && (r == -1 <==> refusals > old(refusals))
      ensures requests == if r == 1 then old(requests) - {fd} else old(requests)
    {
      hide Delivers, Wakeful, Answered;
      if fd !in requests {
        return 0;
      }
      var ok := EpollDelete(fd);
      if !ok {
        return -1;
      }
      requests := requests - {fd};
      r := 1;
    }

    // ---- steps of the looper's own thread ----

    /** The scan of pollOnce: the next response with an identifier, if any is left. */
    method TakeIdent() returns (r: Option<Response>)
      requires Valid() && phase.Idle?
      modifies `responseIndex, `returned
      ensures Valid() && old(responseIndex) <= responseIndex
      ensures r.None? ==> responseIndex == |responses| && returned == old(returned)
      ensures r.Some? ==> returned == old(returned) + [r.value] && r.value in heard && r.value.request.ident >= 0
    {
      hide Delivers, Registered, Wakeful;
      while responseIndex < |responses|
        invariant Valid() && old(responseIndex) <= responseIndex && returned == old(returned)
        decreases |responses| - responseIndex
      {
        var response := responses[responseIndex];
        responseIndex := responseIndex + 1;
        assert heard[..responseIndex][..responseIndex - 1] == heard[..responseIndex - 1];
        if response.request.ident >= 0 {
          returned := returned + [response];
          return Some(response);
        }
      }
      r := None;
    }

    /** The top of pollInner: work out how long to wait, and start a new buffer of responses. */
    method BeginWait(caller: int, now: int)
      requires Valid() && phase.Idle? && responseIndex == |responses|
      modifies `responseIndex, `returned, `responses, `phase, `heard, `invoked, `rounds
      ensures Valid() && phase == Waiting(now, caller, WaitMillis(caller, next, now))
      ensures rounds == old(rounds) + [Round(old(heard), old(returned), old(invoked))]
    {
      hide Delivers, Registered, WaitMillis;
      assert heard[..|heard|] == heard;
      rounds := rounds + [Round(heard, returned, invoked)];
      phase := Waiting(now, caller, WaitMillis(caller, next, now));
      responses, responseIndex, heard, returned, invoked := [], 0, [], [], [];
    }

    /** pollOnce up to where it waits: it returns a response's identifier, or else works out how long to wait. */
    method StartPoll(caller: int, now: int) returns (r: Option<Response>)
      requires Valid() && phase.Idle?
      modifies `responseIndex, `returned, `responses, `phase, `heard, `invoked, `rounds
      ensures Valid()
      ensures r.Some? ==>
        phase.Idle? && heard == old(heard) && rounds == old(rounds) && returned == old(returned) + [r.value]
      ensures r.None? ==> phase == Waiting(now, caller, WaitMillis(caller, next, now))
      ensures r.None? ==> phase.millis == caller || (phase.millis >= 0 && now + phase.millis * MILLI >= next)
      ensures r.None? && next != NEVER && next - now <= (INT_MAX - 1) * MILLI ==> InTime(now, phase.millis, next)
      ensures r.None? && caller >= 0 ==> 0 <= phase.millis <= caller
      ensures r.None? ==> rounds == old(rounds) + [Round(old(heard), old(returned), old(invoked))]
    {
      hide Delivers, Registered, Wakeful, Answered, WaitMillis, InTime;
      r := TakeIdent();
      if r.None? {
        BeginWait(caller, now);
        WaitsLongEnough(caller, next, now);
        if next != NEVER {
          WaitIsInTime(caller, next, now);
        }
      }
    }

    /** awoken: read sixteen bytes at a time until a read comes up short. */
    method Awoken()
      modifies `pipe
      ensures pipe == 0
    {
      var nRead := 16;
      while nRead == 16
        invariant nRead != 16 ==> pipe == 0
        decreases pipe, nRead
      {
        nRead := if pipe < 16 then pipe else 16;
        pipe := pipe - nRead;
      }
    }

    ghost predicate WakeReadable(events: seq<Event>)
    {
      exists e | e in events :: e.fd == wakeFd && In in e.flags
    }

    /** Push a response for each event on a registered descriptor, and drain the wake pipe if it is readable. */
    method HandleEvents(events: seq<Event>)
      requires responses == []
      modifies `responses, `pipe
      ensures responses == Heard(events, requests, wakeFd)
      ensures pipe == if WakeReadable(events) then 0 else old(pipe)
      ensures (exists e | e in events :: e.fd == wakeFd && In in e.flags) ==> pipe == 0
    {
      for i := 0 to |events|
        invariant responses == Heard(events[..i], requests, wakeFd)
        invariant pipe == if WakeReadable(events[..i]) then 0 else old(pipe)
      {
        var event := events[i];
        assert events[..i + 1][..i] == events[..i];
        assert forall e | e in events[..i + 1] :: e in events[..i] || e == event;
        assert forall e | e in events[..i] :: e in events[..i + 1];
        assert event in events[..i + 1];
        if event.fd == wakeFd {
          if In in event.flags {
            Awoken();
          }
        } else if event.fd in requests {
          responses := responses + [Response(Conditions(event.flags), requests[event.fd])];
        }
      }
      assert events[..|events|] == events;
    }

    /** One turn of the message loop: the next message is delivered if it is due, and else decides the next wait. */
    twostate predicate Turn(now: int, result: int)
      reads `messages, `next, `phase, `delivered, `sent
    {
      if old(messages) != [] && old(messages)[0].uptime <= now then
        && phase == Delivering(old(messages)[0]) && next == NEVER && messages == old(messages)[1..]
        && delivered == old(delivered) + [Delivery(old(messages)[0], now, |sent|)]
      else
        && phase == Responding(0, result) && messages == old(messages) && delivered == old(delivered)
        && next == if messages == [] then NEVER else messages[0].uptime
    }

    /** The message loop, as long as it holds the lock: take the next message if it is due, or note when it will be. */
    method Drain(now: int, result: int)
      requires Delivers() && Registered() && Answered() && !sending && next == NEVER && phase == Responding(0, result)
      modifies `messages, `sending, `next, `phase, `delivered
      ensures Valid() && Turn(now, result)
    {
      hide Sound, Registered;
      if messages != [] {
        var message := messages[0];
        if message.uptime <= now {
          DeliverKeepsSound(messages, sent, delivered, removed, now);
          delivered := delivered + [Delivery(message, now, |sent|)];
          messages := messages[1..];
          sending, phase := true, Delivering(message);
        } else {
          next := message.uptime;
        }
      }
    }

    /** epoll_wait has returned, and the lock is taken: responses to all events, if there are any. */
    method HandlePoll(polled: Polled) returns (result: int)
      requires Valid() && phase.Waiting?
      modifies `next, `pipe, `responses, `phase, `heard
      ensures Delivers() && Registered() && Answered() && !sending && next == NEVER
      ensures result == ResultOf(polled) && phase == Responding(0, result)
      ensures (result == POLL_ERROR <==> polled.Failed?) && (result == POLL_TIMEOUT <==> polled.TimedOut?)
      ensures result == POLL_WAKE <==> polled.Interrupted? || polled.Ready?
      ensures heard == if polled.Ready? then Heard(polled.events, requests, wakeFd) else []
      ensures pipe == if polled.Ready? && WakeReadable(polled.events) then 0 else old(pipe)
    {
      hide Sound, WaitMillis;
      result := POLL_WAKE;
      match polled {
        case Interrupted =>
        case Failed => result := POLL_ERROR;
        case TimedOut => result := POLL_TIMEOUT;
        case Ready(events) =>
          HandleEvents(events);
          HeardProper(events, requests, wakeFd);
      }
      heard := responses;
      next := NEVER;
      phase := Responding(0, result);
    }

    /** The rest of pollInner up to where it unlocks: all events, then the first turn of the message loop. */
    method PollReturn(polled: Polled, now: int)
      requires Valid() && phase.Waiting?
      modifies `messages, `sending, `next, `pipe, `responses, `phase, `delivered, `heard
      ensures Valid() && Turn(now, ResultOf(polled))
      ensures phase.Responding? ==> (phase.result == POLL_ERROR <==> polled.Failed?)
      ensures phase.Responding? ==> (phase.result == POLL_TIMEOUT <==> polled.TimedOut?)
      ensures heard == if polled.Ready? then Heard(polled.events, requests, wakeFd) else []
      ensures pipe == if polled.Ready? && WakeReadable(polled.events) then 0 else old(pipe)
      ensures polled.Ready? && (exists e | e in polled.events :: e.fd == wakeFd && In in e.flags) ==> pipe == 0
    {
      hide Delivers, Registered, Answered;
      var result := HandlePoll(polled);
      Drain(now, result);
    }

    /** The handler returns, and the message loop takes its next turn. */
    method HandlerReturned(now: int)
      requires Valid() && phase.Delivering?
      modifies `messages, `sending, `next, `phase, `delivered
      ensures Valid() && Turn(now, POLL_CALLBACK)
    {
      sending := false;
      phase := Responding(0, POLL_CALLBACK);
      Drain(now, POLL_CALLBACK);
    }

    /** The descriptor goes, if its callback says so and the kernel does not refuse. */
    method LetGo(fd: int)
      requires Valid()
      modifies `requests, `interest, `refusals
      ensures Valid() && refusals >= old(refusals)
      ensures if refusals > old(refusals) then requests == old(requests)
        else fd !in requests && requests == old(requests) - {fd} && (fd in interest ==> fd == wakeFd)
    {
      hide Delivers, Wakeful, Answered;
      var r := RemoveFd(fd);
      assert r == 0 ==> requests - {fd} == requests;
    }

    /** One turn of the loop over the responses: a callback, if there is one, is called, and forgotten; the descriptor
        goes if the callback says so. */
    method CallBack(keep: bool)
      requires Valid() && phase.Responding? && phase.index < |responses|
      modifies `requests, `interest, `refusals, `responses, `phase, `invoked
      ensures Valid() && old(phase.index) < |heard|
      ensures var callback := heard[old(phase.index)].request.callback.Some?;
        && phase == Responding(old(phase.index) + 1, if callback then POLL_CALLBACK else old(phase.result))
        && (keep || !callback ==> requests == old(requests))
      ensures !keep && heard[old(phase.index)].request.callback.Some? ==>
        var fd := heard[old(phase.index)].request.fd;
        if refusals > old(refusals) then requests == old(requests)
        else fd !in requests && requests == old(requests) - {fd} && (fd in interest ==> fd == wakeFd)
    {
      hide Delivers, WaitMillis, Registered;
      var index, result := phase.index, phase.result;
      var response := responses[index];
      assert heard[..index + 1][..index] == heard[..index];
      if response.request.ident == POLL_CALLBACK {
        assert response.request.callback.Some?;
        invoked := invoked + [response];
        responses := responses[index := Spent(response)];
        result := POLL_CALLBACK;
      }
      phase := Responding(index + 1, result);
      if response.request.ident == POLL_CALLBACK && !keep {
        LetGo(response.request.fd);
      }
    }

    /** The next response; after the last one pollOnce returns an identifier, or what the poll came to. */
    method Respond(keep: bool) returns (r: Option<int>)
      requires Valid() && phase.Responding?
      modifies `requests, `interest, `refusals, `responses, `responseIndex, `phase, `returned, `invoked
      ensures Valid()
      ensures old(phase.index) < |heard| ==>
        var callback := heard[old(phase.index)].request.callback.Some?;
        r.None? && phase == Responding(old(phase.index) + 1, if callback then POLL_CALLBACK else old(phase.result))
        && (keep || !callback ==> requests == old(requests))
      ensures old(phase.index) < |heard| && !keep && heard[old(phase.index)].request.callback.Some? ==>
        var fd := heard[old(phase.index)].request.fd;
        if refusals > old(refusals) then requests == old(requests)
        else fd !in requests && requests == old(requests) - {fd} && (fd in interest ==> fd == wakeFd)
      ensures old(phase.index) == |heard| ==> r.Some? && phase.Idle? && requests == old(requests)
      ensures r.Some? ==> if returned == old(returned) then r.value == old(phase.result) && responseIndex == |responses|
                          else |returned| > 0 && r.value == returned[|returned| - 1].request.ident
    {
      hide Delivers, WaitMillis, Registered;
      if phase.index < |responses| {
        CallBack(keep);
        r := None;
      } else {
        var result := phase.result;
        assert heard[..|heard|] == heard;
        phase := Idle;
        var ident := TakeIdent();
        r := Some(if ident.Some? then ident.value.request.ident else result);
      }
    }

    // ---- whole runs ----

    /** What a step of any thread does, and what one of the looper's own does if that is where it is. */
    twostate predicate Did(step: Step)
      reads this
    {
      match step
      case Send(uptime, handler, what) => sent == old(sent) + [Envelope(uptime, handler, what, |old(sent)|)]
      case WakeAfterSend => old(wakers) > 0 ==> pipe > 0 && wakers == old(wakers) - 1
      case Wake => pipe > 0
      case Remove(handler, only) => messages == Kept(old(messages), handler, only)
      case Add(fd, ident, callback, data) =>
        refusals == old(refusals) && (callback.Some? || (allowNonCallbacks && ident >= 0)) ==>
          requests == old(requests)[fd := Request(fd, if callback.Some? then POLL_CALLBACK else ident, callback, data)]
      case RemoveFd(fd) => refusals == old(refusals) ==>
        if fd in old(requests) then requests == old(requests) - {fd} else requests == old(requests)
      case _ => DidOwn(step)
    }

    twostate predicate DidOwn(step: Step)
      reads this
    {
      match step
      case StartPoll(caller, now) => old(phase.Idle?) ==>
        if phase.Idle? then heard == old(heard) && |returned| == |old(returned)| + 1
        else
          && phase == Waiting(now, caller, WaitMillis(caller, next, now))
          && rounds == old(rounds) + [Round(old(heard), old(returned), old(invoked))]
      case PollReturn(polled, now) => old(phase.Waiting?) ==>
        && Turn(now, ResultOf(polled))
        && heard == if polled.Ready? then Heard(polled.events, requests, wakeFd) else []
      case HandlerReturned(now) => old(phase.Delivering?) ==> Turn(now, POLL_CALLBACK)
      case Respond(keep) => old(phase.Responding?) ==>
        && (old(phase.index) < |heard| ==> phase.Responding? && phase.index == old(phase.index) + 1)
        && (old(phase.index) == |heard| ==> phase.Idle?)
      case _ => true
    }

    /** One step of any thread; a step of the looper's thread only where that thread is. */
    method Take(step: Step)
      requires Valid()
      modifies this
      ensures Valid() && Grown() && Did(step)
    {
      hide Valid, Delivers, Wakeful, Registered, Answered, Kept, Dropped;
      match step
      case Send(uptime, handler, what) => Send(uptime, handler, what);
      case WakeAfterSend => if wakers > 0 { WakeAfterSend(); }
      case Wake => Wake();
      case Remove(handler, only) => RemoveMessages(handler, only);
      case Add(fd, ident, callback, data) => var r := AddFd(fd, ident, callback, data);
      case RemoveFd(fd) => var r := RemoveFd(fd);
      case _ => TakeOwn(step);
    }

    /** A step of the looper's own thread. */
    method TakeOwn(step: Step)
      requires Valid()
      modifies this
      ensures Valid() && Grown() && DidOwn(step)
    {
      hide Valid, Delivers, Wakeful, Registered, Answered, Kept, Dropped;
      match step
      case StartPoll(caller, now) => if phase.Idle? { var r := StartPoll(caller, now); }
      case PollReturn(polled, now) => if phase.Waiting? { PollReturn(polled, now); }
      case HandlerReturned(now) => if phase.Delivering? { HandlerReturned(now); }
      case Respond(keep) => if phase.Responding? { var r := Respond(keep); }
      case _ =>
    }

    /** History is never rewritten. */
    twostate predicate Grown()
      reads this
    {
      old(sent) <= sent && old(delivered) <= delivered && old(removed) <= removed && old(rounds) <= rounds
    }

    /** Any interleaving of senders, removers, registrations and the looper's own thread keeps all of it. */
    method Run(steps: seq<Step>)
      requires Valid()
      modifies this
      ensures Valid() && Grown()
    {
      hide Valid, Delivers, Wakeful, Registered, Answered, Kept, Dropped;
      for i := 0 to |steps|
        invariant Valid() && Grown()
      {
        Take(steps[i]);
      }
    }

    /** No lost wake-up: while the looper waits with nothing in its pipe and nobody about to write to it, its wait
        ends less than a millisecond after any message that is queued is due, or at once if that has passed, unless it
        is over 2^31 - 2 milliseconds off. */
    lemma NeverOversleeps(i: nat)
      requires Valid() && phase.Waiting? && pipe == 0 && wakers == 0
      requires i < |messages| && messages[i].uptime < NEVER
      ensures var due := if messages[i].uptime > phase.since then messages[i].uptime else phase.since;
        (phase.millis >= 0 && phase.since + phase.millis * MILLI < due + MILLI) ||
        messages[i].uptime - phase.since > (INT_MAX - 1) * MILLI
    {
      hide WaitMillis;
      assert i > 0 ==> Before(messages[0], messages[i]);
      WaitIsInTime(phase.caller, next, phase.since);
    }

    /** Nor does it wake early: unless the wait is its caller's own, it lasts until the time that the looper last saw
        the next message to be due, which is never later than the next message now. */
    lemma NeverUndersleeps()
      requires Valid() && phase.Waiting?
      ensures phase.millis == phase.caller || (phase.millis >= 0 && phase.since + phase.millis * MILLI >= next)
      ensures messages != [] && pipe == 0 && wakers == 0 ==> next <= messages[0].uptime
    {
      WaitsLongEnough(phase.caller, next, phase.since);
    }

    /** Every message sent is delivered, removed or queued, once. */
    lemma AccountedOnce(e: Envelope)
      requires Valid()
      ensures multiset(Messages(delivered))[e] + removed[e] + multiset(messages)[e] == (if e in sent then 1 else 0)
    {
      DeliveredOnce(messages, sent, delivered, removed, e);
    }

    /** Of two deliveries, the first was due earlier, or was sent earlier and due at the same time, if both messages had
        been sent by then; none was early. */
    lemma EarlierFirst(i: nat, j: nat)
      requires Valid() && i < j < |delivered| && delivered[j].message.id < delivered[i].sentBefore
      ensures var first, second := delivered[i].message, delivered[j].message;
        first.uptime < second.uptime || (first.uptime == second.uptime && first.id < second.id)
      ensures delivered[i].message.uptime <= delivered[i].now
    {
      assert delivered[i] in delivered;
    }

    /** In a finished poll every response was either returned, once, in order, or had its callback invoked, once. */
    lemma RoundAnswered(i: nat)
      requires Valid() && i < |rounds|
      ensures rounds[i].returned == Idents(rounds[i].heard) && rounds[i].invoked == Callbacks(rounds[i].heard)
      ensures multiset(rounds[i].returned) + multiset(rounds[i].invoked) == multiset(rounds[i].heard)
    {
      assert rounds[i] in rounds && Complete(rounds[i]);
      EachAnsweredOnce(rounds[i].heard);
    }
  }
}
