/** The looper's queue of messages: the order it keeps, and how long the looper may sleep for it. */
module MessageQueue {
  import opened Options

  /** A message for a handler at a time; `id` says which of the sends, counted from 0, it came from. */
  datatype Envelope = Envelope(uptime: int, handler: int, what: int, id: nat)

  /** A delivery: when it was made, and how many messages had been sent by then. */
  datatype Delivery = Delivery(message: Envelope, now: int, sentBefore: nat)

  /** Earlier due, or sent earlier when due at the same time. */
  predicate Before(a: Envelope, b: Envelope)
  {
    a.uptime < b.uptime || (a.uptime == b.uptime && a.id < b.id)
  }

  ghost predicate InOrder(s: seq<Envelope>)
  {
    forall i, j | 0 <= i < j < |s| :: Before(s[i], s[j])
  }

  predicate Matches(e: Envelope, handler: int, what: Option<int>)
  {
    e.handler == handler && (what.None? || e.what == what.value)
  }

  /** The messages that stay when those for a handler are removed. */
  function Kept(s: seq<Envelope>, handler: int, what: Option<int>): seq<Envelope>
  {
    if s == [] then [] else (if Matches(s[0], handler, what) then [] else [s[0]]) + Kept(s[1..], handler, what)
  }

  /** The messages that go. */
  function Dropped(s: seq<Envelope>, handler: int, what: Option<int>): seq<Envelope>
  {
    if s == [] then [] else (if Matches(s[0], handler, what) then [s[0]] else []) + Dropped(s[1..], handler, what)
  }

  lemma NoneToKeep(handler: int, what: Option<int>)
    ensures Kept([], handler, what) == []
  {
  }

  lemma KeptFrom(s: seq<Envelope>, i: nat, handler: int, what: Option<int>)
    requires i < |s|
    ensures Kept(s[i..], handler, what) ==
            (if Matches(s[i], handler, what) then [] else [s[i]]) + Kept(s[i + 1..], handler, what)
  {
    assert s[i..][1..] == s[i + 1..];
  }

  /** Exactly the messages of that handler go, or those with one `what` if one is given. */
  lemma {:induction false} RemovalTargets(s: seq<Envelope>, handler: int, what: Option<int>)
    ensures forall e :: e in Kept(s, handler, what) <==>
      e in s && (e.handler != handler || (what.Some? && what.value != e.what))
  {
    if s != [] {
      RemovalTargets(s[1..], handler, what);
      assert s == [s[0]] + s[1..];
    }
  }

  /** Removal splits the queue: what goes matches, what stays does not, and nothing is lost. */
  lemma {:induction false} RemovalSplits(s: seq<Envelope>, handler: int, what: Option<int>)
    ensures multiset(Kept(s, handler, what)) + multiset(Dropped(s, handler, what)) == multiset(s)
    ensures forall e | e in Kept(s, handler, what) :: !Matches(e, handler, what)
    ensures forall e | e in Dropped(s, handler, what) :: Matches(e, handler, what)
  {
    if s != [] {
      RemovalSplits(s[1..], handler, what);
      assert s == [s[0]] + s[1..];
    }
  }

  /** Removal changes no order among the messages that stay. */
  lemma {:induction false} RemovalKeepsOrder(s: seq<Envelope>, handler: int, what: Option<int>)
    requires InOrder(s)
    ensures InOrder(Kept(s, handler, what))
    ensures forall e | e in Kept(s, handler, what) :: e in s
  {
    if s != [] {
      var t := s[1..];
      assert forall i | 0 <= i < |t| :: t[i] == s[i + 1];
      RemovalKeepsOrder(t, handler, what);
      assert forall e | e in Kept(t, handler, what) :: e in t && Before(s[0], e);
    }
  }

  /** The queue with a message put in at an index. */
  function Enqueued(s: seq<Envelope>, i: nat, e: Envelope): seq<Envelope>
    requires i <= |s|
  {
    s[..i] + [e] + s[i..]
  }

  /** A message sent last goes after those due no later than it, and before the rest. */
  lemma EnqueueKeepsOrder(s: seq<Envelope>, i: nat, e: Envelope)
    requires InOrder(s) && i <= |s| && forall x | x in s :: x.id < e.id
    requires i > 0 ==> s[i - 1].uptime <= e.uptime
    requires i < |s| ==> e.uptime < s[i].uptime
    ensures InOrder(Enqueued(s, i, e))
  {
    var t := Enqueued(s, i, e);
    forall p, q | 0 <= p < q < |t| ensures Before(t[p], t[q]) {
      if q == i {
        assert t[p] == s[p] && (p < i - 1 ==> Before(s[p], s[i - 1]));
      } else if p == i {
        assert t[q] == s[q - 1] && (q - 1 > i ==> Before(s[i], s[q - 1]));
      } else {
        assert Before(s[if p < i then p else p - 1], s[if q < i then q else q - 1]);
      }
    }
  }

  lemma EnqueuedItems(s: seq<Envelope>, i: nat, e: Envelope)
    requires i <= |s|
    ensures multiset(Enqueued(s, i, e)) == multiset(s) + multiset{e}
    ensures forall x :: x in Enqueued(s, i, e) <==> x == e || x in s
  {
    assert s == s[..i] + s[i..];
  }

  const NEVER: int := 0x7fff_ffff_ffff_ffff
  const INT_MAX: int := 0x7fff_ffff
  const MILLI: int := 1_000_000

  /** Whole milliseconds from `now` until `due`, rounded up; -1 if that is more than an int can say. */
  function MillisUntil(now: int, due: int): int
  {
    if due <= now then 0
    else if due - now > (INT_MAX - 1) * MILLI then -1
    else (due - now + (MILLI - 1)) / MILLI
  }

  /** The timeout given to epoll_wait when the next message is due at `next`. */
  function WaitMillis(caller: int, next: int, now: int): int
  {
    var m := MillisUntil(now, next);
    if caller != 0 && next != NEVER && m >= 0 && (caller < 0 || m < caller) then m else caller
  }

  /** Waiting from `since` ends less than a millisecond after `due`, or at once if `due` has passed. */
  predicate InTime(since: int, millis: int, due: int)
  {
    millis >= 0 && since + millis * MILLI < (if due > since then due else since) + MILLI
  }

  /** The wait is in time for the next message exactly if that is at most 2^31 - 2 milliseconds off, or the
      caller's own timeout is in time for it. */
  lemma WaitIsInTime(caller: int, next: int, now: int)
    requires next != NEVER
    ensures InTime(now, WaitMillis(caller, next, now), next) <==>
            next - now <= (INT_MAX - 1) * MILLI || InTime(now, caller, next)
  {
    var m := MillisUntil(now, next);
    if 0 < next - now <= (INT_MAX - 1) * MILLI {
      assert m * MILLI < next - now + MILLI;
      if 0 <= caller <= m {
        assert caller * MILLI <= m * MILLI;
      }
    }
  }

  /** The wait does not end before the next message is due, unless it is the caller's own; it never exceeds that; and
      it is that if there is no next message. */
  lemma WaitsLongEnough(caller: int, next: int, now: int)
    ensures var w := WaitMillis(caller, next, now);
      && (w == caller || (w >= 0 && now + w * MILLI >= next))
      && (caller >= 0 ==> 0 <= w <= caller)
      && (next == NEVER ==> w == caller)
  {
    var m := MillisUntil(now, next);
    if 0 < next - now <= (INT_MAX - 1) * MILLI {
      assert m * MILLI >= next - now;
    }
  }

  function Messages(d: seq<Delivery>): (s: seq<Envelope>)
    ensures |s| == |d| && forall i | 0 <= i < |d| :: s[i] == d[i].message
  {
    seq(|d|, i requires 0 <= i < |d| => d[i].message)
  }

  // ---- what holds of the queue, the messages ever sent, the deliveries and the removals, at every moment ----

  /** The queue is sorted by time, equal times in the order they were sent. */
  ghost predicate Queued(messages: seq<Envelope>, sent: seq<Envelope>)
  {
    && InOrder(messages)
    && (forall i | 0 <= i < |sent| :: sent[i].id == i)
    && (forall e | e in messages :: e.id < |sent|)
  }

  /** No message is lost or made up. */
  ghost predicate Conserved(messages: seq<Envelope>, sent: seq<Envelope>, delivered: seq<Delivery>,
    removed: multiset<Envelope>)
  {
    multiset(sent) == multiset(Messages(delivered)) + removed + multiset(messages)
  }

  /** No message was delivered early, or while one that goes before it was in the queue. */
  ghost predicate Punctual(messages: seq<Envelope>, sent: seq<Envelope>, delivered: seq<Delivery>)
  {
    && (forall d | d in delivered :: d.message.uptime <= d.now && d.sentBefore <= |sent|)
    && (forall i, j | 0 <= i < j < |delivered| && delivered[j].message.id < delivered[i].sentBefore ::
          Before(delivered[i].message, delivered[j].message))
    && (forall d, e | d in delivered && e in messages && e.id < d.sentBefore :: Before(d.message, e))
  }

  ghost predicate Sound(messages: seq<Envelope>, sent: seq<Envelope>, delivered: seq<Delivery>,
    removed: multiset<Envelope>)
  {
    Queued(messages, sent) && Conserved(messages, sent, delivered, removed) && Punctual(messages, sent, delivered)
  }

  lemma SendKeepsSound(messages: seq<Envelope>, sent: seq<Envelope>, delivered: seq<Delivery>,
    removed: multiset<Envelope>, i: nat, e: Envelope)
    requires Sound(messages, sent, delivered, removed) && e.id == |sent| && i <= |messages|
    requires i > 0 ==> messages[i - 1].uptime <= e.uptime
    requires i < |messages| ==> e.uptime < messages[i].uptime
    ensures Sound(Enqueued(messages, i, e), sent + [e], delivered, removed)
    ensures Enqueued(messages, i, e)[0] == e <==> i == 0
  {
    EnqueueKeepsOrder(messages, i, e);
    EnqueuedItems(messages, i, e);
    assert i > 0 ==> messages[0] in messages;
  }

  lemma RemoveKeepsSound(messages: seq<Envelope>, sent: seq<Envelope>, delivered: seq<Delivery>,
    removed: multiset<Envelope>, handler: int, what: Option<int>)
    requires Sound(messages, sent, delivered, removed)
    ensures Sound(Kept(messages, handler, what), sent, delivered, removed + multiset(Dropped(messages, handler, what)))
  {
    RemovalSplits(messages, handler, what);
    RemovalKeepsOrder(messages, handler, what);
  }

  /** Removing messages never makes the next one due earlier. */
  lemma HeadKept(messages: seq<Envelope>, sent: seq<Envelope>, delivered: seq<Delivery>, removed: multiset<Envelope>,
    handler: int, what: Option<int>)
    requires Sound(messages, sent, delivered, removed)
    ensures Kept(messages, handler, what) != [] ==>
      messages != [] && messages[0].uptime <= Kept(messages, handler, what)[0].uptime
  {
    RemovalKeepsOrder(messages, handler, what);
    if Kept(messages, handler, what) != [] {
      assert Kept(messages, handler, what)[0] in messages;
    }
  }

  lemma FirstGoes(messages: seq<Envelope>, sent: seq<Envelope>)
    requires Queued(messages, sent) && messages != []
    ensures Queued(messages[1..], sent) && forall e | e in messages[1..] :: Before(messages[0], e)
    ensures multiset(messages) == multiset{messages[0]} + multiset(messages[1..])
  {
    var e, rest := messages[0], messages[1..];
    assert messages == [e] + rest;
    assert forall i | 0 <= i < |rest| :: rest[i] == messages[i + 1] && Before(e, rest[i]);
  }

  lemma OneMore(delivered: seq<Delivery>, d: Delivery)
    ensures multiset(Messages(delivered + [d])) == multiset(Messages(delivered)) + multiset{d.message}
  {
    assert Messages(delivered + [d]) == Messages(delivered) + [d.message];
  }

  lemma DeliverKeepsPunctual(messages: seq<Envelope>, sent: seq<Envelope>, delivered: seq<Delivery>, now: int)
    requires Punctual(messages, sent, delivered) && messages != [] && messages[0].uptime <= now
    requires forall e | e in messages[1..] :: Before(messages[0], e)
    ensures Punctual(messages[1..], sent, delivered + [Delivery(messages[0], now, |sent|)])
  {
    assert messages[0] in messages;
  }

  lemma DeliverKeepsSound(messages: seq<Envelope>, sent: seq<Envelope>, delivered: seq<Delivery>,
    removed: multiset<Envelope>, now: int)
    requires Sound(messages, sent, delivered, removed) && messages != [] && messages[0].uptime <= now
    ensures Sound(messages[1..], sent, delivered + [Delivery(messages[0], now, |sent|)], removed)
  {
    hide Queued, Punctual, Messages;
    FirstGoes(messages, sent);
    OneMore(delivered, Delivery(messages[0], now, |sent|));
    DeliverKeepsPunctual(messages, sent, delivered, now);
  }

  lemma {:induction false} SentOnce(sent: seq<Envelope>, e: Envelope)
    requires forall i | 0 <= i < |sent| :: sent[i].id == i
    ensures multiset(sent)[e] <= 1 && (e.id >= |sent| ==> multiset(sent)[e] == 0)
  {
    if sent != [] {
      var n := |sent| - 1;
      SentOnce(sent[..n], e);
      assert sent == sent[..n] + [sent[n]];
    }
  }

  /** No message is delivered twice, nor removed or still queued once delivered. */
  lemma DeliveredOnce(messages: seq<Envelope>, sent: seq<Envelope>, delivered: seq<Delivery>,
    removed: multiset<Envelope>, e: Envelope)
    requires Sound(messages, sent, delivered, removed)
    ensures multiset(Messages(delivered))[e] + removed[e] + multiset(messages)[e] == (if e in sent then 1 else 0)
  {
    SentOnce(sent, e);
    assert multiset(sent)[e] > 0 <==> e in sent;
  }
}
