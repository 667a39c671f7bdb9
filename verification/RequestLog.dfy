/** What the RIL's calls about its requests do, step by step: an ack is looked up and then sent, a completion takes
    its request off and then responds, and the steps of different calls interleave. */
module RequestLog {
  datatype Errno = Success | NoMemory | Vendor(code: int)

  /** A step of a call about a request, named by when it was issued: an ack finds it pending; a completion takes it
      off; the ack or the response goes to the client, `call` saying which entry its call began with. Last, the error
      response to a request that was never handed to the vendor. */
  datatype Entry =
    | Found(id: nat)
    | Taken(id: nat, error: Errno, acked: bool)
    | Ack(id: nat, call: nat)
    | Response(id: nat, error: Errno, ackExpected: bool, call: nat)
    | Refused(id: nat)

  /** The pending requests, and whether an ack has found each; all steps so far; how many requests were issued;
      those never handed to the vendor; and the calls that have yet to send something. */
  datatype View = View(pending: map<nat, bool>, trace: seq<Entry>, issued: nat, stranded: set<nat>, open: set<nat>)

  function Issued(v: View): View
  {
    v.(pending := v.pending[v.issued := false], issued := v.issued + 1)
  }

  /** An ack looks its request up; nothing comes of it unless that is pending. */
  function LookedUp(v: View, id: nat): View
  {
    if id in v.pending
    then v.(pending := v.pending[id := true], trace := v.trace + [Found(id)], open := v.open + {|v.trace|})
    else v
  }

  /** A completion takes its request off; nothing comes of it unless that is pending. */
  function Dequeued(v: View, id: nat, e: Errno): View
  {
    if id in v.pending
    then v.(pending := v.pending - {id}, trace := v.trace + [Taken(id, e, v.pending[id])],
      open := v.open + {|v.trace|})
    else v
  }

  /** What the call that began with this entry sends. */
  function Sending(start: Entry, call: nat, version: int): Entry
  {
    match start
    case Found(id) => Ack(id, call)
    case Taken(id, error, acked) => Response(id, error, version >= 13 && acked, call)
    case _ => start
  }

  function Sent(v: View, call: nat, version: int): View
    requires call < |v.trace|
  {
    v.(trace := v.trace + [Sending(v.trace[call], call, version)], open := v.open - {call})
  }

  /** The request could not be put together: it stays on its list, but the vendor never hears of it. */
  function Stranded(v: View, id: nat, answered: bool): View
  {
    v.(stranded := v.stranded + {id}, trace := v.trace + if answered then [Refused(id)] else [])
  }

  predicate Starts(e: Entry)
  {
    e.Found? || e.Taken?
  }

  /** Some completion has taken the request off. */
  ghost predicate WasTaken(t: seq<Entry>, id: nat)
  {
    exists i | 0 <= i < |t| :: t[i].Taken? && t[i].id == id
  }

  /** The call has sent its ack or response. */
  ghost predicate HasSent(t: seq<Entry>, call: nat)
  {
    exists i | 0 <= i < |t| :: (t[i].Ack? || t[i].Response?) && t[i].call == call
  }

  /** The request's response function has run, and its record has been freed. */
  ghost predicate Responded(t: seq<Entry>, id: nat)
  {
    exists i | 0 <= i < |t| :: t[i].Response? && t[i].id == id
  }

  /** What may come next: only pending requests are found or taken off, and each call sends once, for its request. */
  ghost predicate Allowed(t: seq<Entry>, e: Entry, version: int)
  {
    match e
    case Found(id) => !WasTaken(t, id) && Refused(id) !in t
    case Taken(id, _, acked) => !WasTaken(t, id) && Refused(id) !in t && (acked <==> Found(id) in t)
    case Refused(id) => !WasTaken(t, id) && Found(id) !in t && Refused(id) !in t
    case _ => e.call < |t| && Starts(t[e.call]) && e == Sending(t[e.call], e.call, version) && !HasSent(t, e.call)
  }

  ghost predicate Legal(t: seq<Entry>, version: int)
  {
    t != [] ==> Legal(t[..|t| - 1], version) && Allowed(t[..|t| - 1], t[|t| - 1], version)
  }

  /** The rest of the view is what the steps so far make it. */
  ghost predicate Fits(v: View)
  {
    && (forall id: nat :: id in v.pending <==> id < v.issued && !WasTaken(v.trace, id))
    && (forall id | id in v.pending :: v.pending[id] <==> Found(id) in v.trace)
    && (forall c: nat :: c in v.open <==> c < |v.trace| && Starts(v.trace[c]) && !HasSent(v.trace, c))
    && (forall e | e in v.trace :: e.id < v.issued && (e.Refused? ==> e.id in v.stranded))
    && (forall id | id in v.stranded :: id in v.pending && !v.pending[id])
  }

  ghost predicate Sound(v: View, version: int)
  {
    Legal(v.trace, version) && Fits(v)
  }

  /** One entry more. */
  lemma Appended(t: seq<Entry>, e: Entry, version: int)
    ensures forall id :: WasTaken(t + [e], id) <==> WasTaken(t, id) || (e.Taken? && e.id == id)
    ensures forall c :: HasSent(t + [e], c) <==> HasSent(t, c) || ((e.Ack? || e.Response?) && e.call == c)
    ensures forall id :: Responded(t + [e], id) <==> Responded(t, id) || (e.Response? && e.id == id)
    ensures Legal(t, version) && Allowed(t, e, version) ==> Legal(t + [e], version)
  {
    var u := t + [e];
    assert u[..|t|] == t && u[|t|] == e;
    assert forall i | 0 <= i < |t| :: u[i] == t[i];
  }

  lemma IssueKeepsSound(v: View, version: int)
    requires Sound(v, version)
    ensures Sound(Issued(v), version) && v.issued !in v.stranded && v.issued !in v.pending
  {
    hide Legal;
    assert forall i | 0 <= i < |v.trace| :: v.trace[i] in v.trace && v.trace[i].id < v.issued;
  }

  lemma LookUpKeepsSound(v: View, id: nat, version: int)
    requires Sound(v, version) && id !in v.stranded
    ensures Sound(LookedUp(v, id), version)
  {
    hide Legal, WasTaken, HasSent;
    Appended(v.trace, Found(id), version);
    NeverSentBefore(v, version);
  }

  lemma DequeueKeepsSound(v: View, id: nat, e: Errno, version: int)
    requires Sound(v, version) && id !in v.stranded
    ensures Sound(Dequeued(v, id, e), version)
  {
    hide Legal, WasTaken, HasSent;
    if id in v.pending {
      Appended(v.trace, Taken(id, e, v.pending[id]), version);
      NeverSentBefore(v, version);
    }
  }

  lemma SendKeepsSound(v: View, call: nat, version: int)
    requires Sound(v, version) && call in v.open
    ensures call < |v.trace| && Sound(Sent(v, call, version), version)
  {
    hide Legal, WasTaken, HasSent;
    var e := Sending(v.trace[call], call, version);
    assert v.trace[call] in v.trace;
    Appended(v.trace, e, version);
  }

  lemma StrandKeepsSound(v: View, id: nat, answered: bool, version: int)
    requires Sound(v, version) && id in v.pending && !v.pending[id] && id !in v.stranded
    ensures Sound(Stranded(v, id, answered), version)
  {
    hide Legal, WasTaken, HasSent;
    if answered {
      Appended(v.trace, Refused(id), version);
    } else {
      assert Stranded(v, id, answered).trace == v.trace;
    }
  }

  /** Every entry was allowed when it came. */
  lemma {:induction false} LegalAt(t: seq<Entry>, n: nat, version: int)
    requires Legal(t, version) && n < |t|
    ensures Legal(t[..n], version) && Allowed(t[..n], t[n], version)
  {
    if n < |t| - 1 {
      var s := t[..|t| - 1];
      LegalAt(s, n, version);
      assert s[..n] == t[..n];
    }
  }

  /** No call has sent before it began. */
  lemma NeverSentBefore(v: View, version: int)
    requires Sound(v, version)
    ensures !HasSent(v.trace, |v.trace|)
  {
    if HasSent(v.trace, |v.trace|) {
      var i :| 0 <= i < |v.trace| && (v.trace[i].Ack? || v.trace[i].Response?) && v.trace[i].call == |v.trace|;
      LegalAt(v.trace, i, version);
    }
  }

  lemma NoneTakenBefore(t: seq<Entry>, j: nat, version: int)
    requires Legal(t, version) && j < |t| && Starts(t[j])
    ensures forall i | 0 <= i < j && t[i].Taken? :: t[i].id != t[j].id
  {
    LegalAt(t, j, version);
    assert forall i | 0 <= i < j :: t[..j][i] == t[i];
  }

  /** No request is taken off twice, and none is found once it is taken off. */
  lemma NothingAfterTaken(t: seq<Entry>, i: nat, j: nat, version: int)
    requires Legal(t, version) && i < |t| && j < |t| && i != j
    requires t[i].Taken? && Starts(t[j]) && t[j].id == t[i].id
    ensures t[j].Found? && j < i
  {
    NoneTakenBefore(t, i, version);
    NoneTakenBefore(t, j, version);
  }

  /** What an ack or a response belongs to. */
  lemma BeganWith(t: seq<Entry>, j: nat, version: int)
    requires Legal(t, version) && j < |t| && (t[j].Ack? || t[j].Response?)
    ensures t[j].call < j && Starts(t[t[j].call]) && t[j] == Sending(t[t[j].call], t[j].call, version)
    ensures forall i | 0 <= i < j && (t[i].Ack? || t[i].Response?) :: t[i].call != t[j].call
  {
    LegalAt(t, j, version);
    assert forall i | 0 <= i < j :: t[..j][i] == t[i];
  }

  predicate Answers(e: Entry, id: nat)
  {
    (e.Response? || e.Refused?) && e.id == id
  }

  function Responses(t: seq<Entry>, id: nat): nat
  {
    if t == [] then 0 else Responses(t[..|t| - 1], id) + if Answers(t[|t| - 1], id) then 1 else 0
  }

  ghost predicate Answered(t: seq<Entry>, id: nat)
  {
    exists i | 0 <= i < |t| :: Answers(t[i], id)
  }

  /** A response is the first answer to its request. */
  lemma RespondsFirst(t: seq<Entry>, i: nat, j: nat, version: int)
    requires Legal(t, version) && i < j < |t| && t[j].Response?
    ensures !Answers(t[i], t[j].id)
  {
    BeganWith(t, j, version);
    var d := t[j].call;
    if t[i].Response? {
      BeganWith(t, i, version);
      NoneTakenBefore(t, d, version);
      NoneTakenBefore(t, t[i].call, version);
    } else if i < d {
      LegalAt(t, d, version);
      assert t[..d][i] == t[i];
    } else if d < i {
      LegalAt(t, i, version);
      assert t[..i][d] == t[d];
    }
  }

  /** And so is the error response to a request that was never handed over. */
  lemma RefusesFirst(t: seq<Entry>, i: nat, j: nat, version: int)
    requires Legal(t, version) && i < j < |t| && t[j].Refused?
    ensures !Answers(t[i], t[j].id)
  {
    LegalAt(t, j, version);
    assert t[..j][i] == t[i];
    if t[i].Response? {
      BeganWith(t, i, version);
      assert t[..j][t[i].call] == t[t[i].call];
    }
  }

  lemma {:induction false} CountedOnce(t: seq<Entry>, id: nat, version: int)
    requires Legal(t, version)
    ensures Responses(t, id) == if Answered(t, id) then 1 else 0
  {
    if t != [] {
      var n := |t| - 1;
      CountedOnce(t[..n], id, version);
      forall i | 0 <= i < n ensures Answers(t[n], id) ==> !Answers(t[..n][i], id) {
        if t[n].Response? {
          RespondsFirst(t, i, n, version);
        } else if t[n].Refused? {
          RefusesFirst(t, i, n, version);
        }
      }
      assert forall i | 0 <= i < n :: t[..n][i] == t[i];
    }
  }

  /** Some completion has taken the request off and has yet to respond. */
  ghost predicate Responding(v: View, id: nat)
  {
    exists c | c in v.open :: c < |v.trace| && v.trace[c].Taken? && v.trace[c].id == id
  }

  /** However calls interleave, a request never has two responses; one the vendor was handed has its one as soon as it
      is no longer pending and no completion that took it off has yet to respond, and none before. */
  lemma OneResponse(v: View, id: nat, version: int)
    requires Sound(v, version) && id < v.issued
    ensures Responses(v.trace, id) <= 1
    ensures id !in v.stranded ==>
      Responses(v.trace, id) == if id in v.pending || Responding(v, id) then 0 else 1
  {
    CountedOnce(v.trace, id, version);
    if id !in v.stranded {
      if Answered(v.trace, id) {
        AnsweredIsDone(v, id, version);
      } else if id !in v.pending {
        var d :| 0 <= d < |v.trace| && v.trace[d].Taken? && v.trace[d].id == id;
        forall i | 0 <= i < |v.trace| && (v.trace[i].Ack? || v.trace[i].Response?) ensures v.trace[i].call != d {
          BeganWith(v.trace, i, version);
          assert !Answers(v.trace[i], id);
        }
        assert d in v.open;
      }
    }
  }

  /** A request that could not be put together gets one error response if memory was short, and none otherwise; no other
      request is answered by it. */
  lemma StrandedAnswers(v: View, answered: bool, other: nat, version: int)
    requires Sound(v, version) && other != v.issued
    ensures var t := Stranded(Issued(v), v.issued, answered).trace;
      Responses(t, v.issued) == (if answered then 1 else 0) && Responses(t, other) == Responses(v.trace, other)
  {
    IssueKeepsSound(v, version);
    OneResponse(Issued(v), v.issued, version);
    assert (v.trace + [Refused(v.issued)])[..|v.trace|] == v.trace == v.trace + [];
  }

  /** A request that has its response was taken off, by a call that is over. */
  lemma AnsweredIsDone(v: View, id: nat, version: int)
    requires Sound(v, version) && id !in v.stranded && Answered(v.trace, id)
    ensures id !in v.pending && !Responding(v, id)
  {
    var i :| 0 <= i < |v.trace| && Answers(v.trace[i], id);
    assert v.trace[i] in v.trace;
    BeganWith(v.trace, i, version);
    forall c | c in v.open && v.trace[c].Taken? ensures v.trace[c].id != id {
      NoneTakenBefore(v.trace, c, version);
      NoneTakenBefore(v.trace, v.trace[i].call, version);
    }
  }

  /** An ack that was looked up before the request was taken off, by the call that responds at `i`, and goes out
      after that response. */
  ghost predicate Overtaken(t: seq<Entry>, i: nat, j: nat)
    requires i < |t| && t[i].Response?
  {
    i < j < |t| && t[j].Ack? && t[j].call < t[i].call < i && t[t[j].call] == Found(t[i].id)
  }

  /** The ack at `j` is overtaken by its request's response. */
  ghost predicate Belated(t: seq<Entry>, j: nat)
  {
    exists i | 0 <= i < j && i < |t| && t[i].Response? :: Overtaken(t, i, j)
  }

  /** An ack follows its request's response exactly if its lookup succeeded before the request was taken off and it is
      sent after the response. */
  lemma LateExactly(t: seq<Entry>, i: nat, version: int)
    requires Legal(t, version) && i < |t| && t[i].Response?
    ensures (exists j :: i < j < |t| && t[j].Ack? && t[j].id == t[i].id) <==> (exists j :: Overtaken(t, i, j))
  {
    BeganWith(t, i, version);
    forall j | i < j < |t| && t[j].Ack? ensures t[j].id == t[i].id <==> Overtaken(t, i, j) {
      BeganWith(t, j, version);
      if t[j].id == t[i].id {
        NothingAfterTaken(t, t[i].call, t[j].call, version);
      }
    }
  }

  /** An ack goes out after its request's response, if at all, as one that is overtaken. */
  lemma BelatedIsOvertaken(v: View, call: nat, version: int)
    requires Sound(v, version) && call in v.open && v.trace[call].Found?
    ensures Responded(v.trace, v.trace[call].id) <==> Belated(Sent(v, call, version).trace, |v.trace|)
  {
    SendKeepsSound(v, call, version);
    var t, n := Sent(v, call, version).trace, |v.trace|;
    BeganWith(t, n, version);
    forall i | 0 <= i < n && t[i].Response? ensures t[i].id == t[n].id <==> Overtaken(t, i, n) {
      BeganWith(t, i, version);
      if t[i].id == t[n].id {
        NothingAfterTaken(t, t[i].call, call, version);
      }
    }
    assert forall i | 0 <= i < n :: t[i] == v.trace[i];
  }

  /** A completion that has yet to respond is the first to. */
  lemma NotYetAnswered(v: View, call: nat, version: int)
    requires Sound(v, version) && call in v.open && v.trace[call].Taken?
    ensures !Responded(v.trace, v.trace[call].id)
  {
    forall i | 0 <= i < |v.trace| && v.trace[i].Response? ensures v.trace[i].id != v.trace[call].id {
      BeganWith(v.trace, i, version);
      NoneTakenBefore(v.trace, call, version);
      NoneTakenBefore(v.trace, v.trace[i].call, version);
    }
  }

  /** An ack that is sent straight after its lookup comes before its request's response. */
  lemma PromptAcksComeFirst(t: seq<Entry>, i: nat, j: nat, version: int)
    requires Legal(t, version) && i < |t| && j < |t| && t[i].Response? && t[j].Ack? && t[j].id == t[i].id
    requires t[j].call == j - 1
    ensures j < i
  {
    BeganWith(t, i, version);
    BeganWith(t, j, version);
    NothingAfterTaken(t, t[i].call, t[j].call, version);
  }

  /** The call that begins at `a` has found the request by the time of entry `i` and has yet to send its ack. */
  ghost predicate AwaitsSending(t: seq<Entry>, i: nat, a: nat)
    requires i < |t|
  {
    a < i && t[a] == Found(t[i].id) && !HasSent(t[..i], a)
  }

  /** If no call that found the request has yet to send its ack when the response goes, no ack follows it. */
  lemma LateWasUnderWay(t: seq<Entry>, i: nat, j: nat, version: int)
    requires Legal(t, version) && i < j < |t| && t[i].Response? && t[j].Ack? && t[j].id == t[i].id
    ensures exists a :: AwaitsSending(t, i, a)
  {
    BeganWith(t, i, version);
    BeganWith(t, j, version);
    NothingAfterTaken(t, t[i].call, t[j].call, version);
    assert forall k | 0 <= k < i :: t[..i][k] == t[k];
    assert AwaitsSending(t, i, t[j].call);
  }

  /** Once every ack that found the request has been sent, one follows the response exactly if the call of one was
      under way when the response went. */
  lemma LateIsForeseen(v: View, i: nat, version: int)
    requires Sound(v, version) && i < |v.trace| && v.trace[i].Response?
    requires forall c | c in v.open :: v.trace[c] != Found(v.trace[i].id)
    ensures (exists j :: i < j < |v.trace| && v.trace[j].Ack? && v.trace[j].id == v.trace[i].id) <==>
            (exists a :: AwaitsSending(v.trace, i, a))
  {
    var t := v.trace;
    forall j | i < j < |t| && t[j].Ack? && t[j].id == t[i].id ensures exists a :: AwaitsSending(t, i, a) {
      LateWasUnderWay(t, i, j, version);
    }
    assert forall k | 0 <= k < i :: t[..i][k] == t[k];
    forall a | AwaitsSending(t, i, a) ensures exists j :: i < j < |t| && t[j].Ack? && t[j].id == t[i].id {
      assert a !in v.open && HasSent(t, a);
      var j :| 0 <= j < |t| && (t[j].Ack? || t[j].Response?) && t[j].call == a;
      BeganWith(t, j, version);
      assert i < j < |t| && t[j].Ack? && t[j].id == t[i].id;
    }
  }

  /** A response expects an ack exactly from version 13 on and if some ack found its request pending. */
  lemma ExpectsAck(t: seq<Entry>, i: nat, version: int)
    requires Legal(t, version) && i < |t| && t[i].Response?
    ensures t[i].ackExpected <==> version >= 13 && Found(t[i].id) in t
  {
    BeganWith(t, i, version);
    var d := t[i].call;
    LegalAt(t, d, version);
    assert forall a | 0 <= a < d :: t[..d][a] == t[a];
    forall a | 0 <= a < |t| && t[a] == Found(t[i].id) ensures a < d {
      NothingAfterTaken(t, d, a, version);
    }
  }

  lemma StartIsSound(version: int)
    ensures Sound(View(map[], [], 0, {}, {}), version)
  {
  }

  /** It can happen: the ack's lookup, the whole completion, and then the ack. */
  lemma AckCanBeLate(e: Errno, version: int)
    ensures var v := Issued(View(map[], [], 0, {}, {}));
      var w := Sent(Sent(Dequeued(LookedUp(v, 0), 0, e), 1, version), 0, version);
      w.trace == [Found(0), Taken(0, e, true), Response(0, e, version >= 13, 1), Ack(0, 0)] && Sound(w, version)
  {
    hide Sound;
    var start := View(map[], [], 0, {}, {});
    StartIsSound(version);
    IssueKeepsSound(start, version);
    LookUpKeepsSound(Issued(start), 0, version);
    var u := LookedUp(Issued(start), 0);
    assert u.trace == [Found(0)] && u.open == {0} && u.pending[0];
    DequeueKeepsSound(u, 0, e, version);
    var w := Dequeued(u, 0, e);
    assert w.trace == [Found(0), Taken(0, e, true)] && w.open == {0, 1};
    SendKeepsSound(w, 1, version);
    SendKeepsSound(Sent(w, 1, version), 0, version);
  }
}
