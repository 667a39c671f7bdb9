/** The RIL's lists of pending requests, one for each socket, and the calls that add to them and take from them. */
module Requests {
  import opened RequestLog

  class RequestInfo {
    const serial: int
    const number: int
    const socket: nat
    /** Which of the requests issued, counted from 0, this is: a token is never reused. */
    ghost const id: nat
    var next: RequestInfo?
    var wasAckSent: bool

    constructor (serial: int, number: int, socket: nat, ghost id: nat)
      ensures this.serial == serial && this.number == number && this.socket == socket && this.id == id
      ensures next == null && !wasAckSent
    {
      this.serial, this.number, this.socket, this.id := serial, number, socket, id;
      next, wasAckSent := null, false;
    }
  }

  /** One socket's list, newest request first. */
  class PendingList {
    var head: RequestInfo?
    ghost var nodes: seq<RequestInfo>
    /** Records among which the list's are. */
    ghost var records: set<RequestInfo>

    ghost predicate Valid()
      reads this, records`next
    {
      && (forall n | n in nodes :: n in records)
      && head == (if nodes == [] then null else nodes[0])
      && (forall i {:trigger nodes[i].next} | 0 <= i < |nodes| ::
        nodes[i].next == if i + 1 < |nodes| then nodes[i + 1] else null)
      && (forall i, j | 0 <= i < j < |nodes| :: nodes[i] != nodes[j])
    }

    constructor ()
      ensures Valid() && nodes == [] && records == {}
    {
      head, nodes, records := null, [], {};
    }

    method Add(r: RequestInfo)
      requires Valid() && r !in nodes
      modifies this, r`next
      ensures Valid() && nodes == [r] + old(nodes) && records == old(records) + {r}
    {
      r.next := head;
      head := r;
      nodes, records := [r] + nodes, records + {r};
    }

    /** Find a request by the address of its record, walking the links, and take it out unless it is only acked. */
    method CheckAndDequeueIfAck(r: RequestInfo, isAck: bool) returns (found: bool)
      requires Valid()
      modifies `head, `nodes, records`next, r`wasAckSent
      ensures Valid() && (found <==> r in old(nodes))
      ensures r.wasAckSent == if found && isAck then true else old(r.wasAckSent)
      ensures isAck || !found ==> nodes == old(nodes)
      ensures !isAck && found ==> exists k | 0 <= k < |old(nodes)| ::
        old(nodes)[k] == r && nodes == old(nodes)[..k] + old(nodes)[k + 1..]
      ensures !isAck ==> forall n :: n in nodes <==> n in old(nodes) && n != r
    {
      found := false;
      var prev: RequestInfo? := null;
      var cur := head;
      ghost var k := 0;
      while cur != null && !found
        invariant Valid() && nodes == old(nodes) && r.wasAckSent == old(r.wasAckSent)
        invariant 0 <= k <= |nodes| && cur == (if k < |nodes| then nodes[k] else null)
        invariant prev == if k == 0 then null else nodes[k - 1]
        invariant r !in nodes[..k] && !found
        decreases |nodes| - k
      {
        if cur == r {
          found := true;
          if isAck {
            if !r.wasAckSent {
              r.wasAckSent := true;
            }
          } else {
            Unlink(prev, cur, k);
          }
          return;
        }
        assert nodes[..k + 1] == nodes[..k] + [nodes[k]];
        prev, cur := cur, cur.next;
        k := k + 1;
      }
      assert nodes[..k] == nodes;
    }

    /** `*ppCur = (*ppCur)->p_next`, through the list's head or the link of the record before. */
    method Unlink(prev: RequestInfo?, cur: RequestInfo, ghost k: nat)
      requires Valid() && k < |nodes| && nodes[k] == cur && prev == if k == 0 then null else nodes[k - 1]
      modifies `head, `nodes, records`next
      ensures Valid() && nodes == old(nodes)[..k] + old(nodes)[k + 1..]
      ensures forall n :: n in nodes <==> n in old(nodes) && n != cur
    {
      if prev == null {
        head := cur.next;
      } else {
        prev.next := cur.next;
      }
      assert nodes == nodes[..k] + [nodes[k]] + nodes[k + 1..];
      nodes := nodes[..k] + nodes[k + 1..];
    }
  }

  /** How putting a request's strings together went. */
  datatype Copies = Copied | OutOfMemory | Truncated

  /** A vendor's call that has done its part under the mutex: an ack that found its request, or a completion that took
      it off; what it sends is still to come. */
  datatype Flight = Acking(r: RequestInfo) | Completing(r: RequestInfo, error: Errno)

  /** A step of a thread that dispatches requests, or of one in which the vendor makes calls about the `k`th request
      that it was handed. */
  datatype Step =
    | Dispatch(serial: int, slot: nat, number: int, copies: Copies)
    | FinishDispatch(i: nat)
    | StartAck(k: nat)
    | StartComplete(k: nat, error: Errno)
    | Send(i: nat)

  const RIL_REQUEST_SET_NETWORK_SELECTION_MANUAL: int := 47

  class Ril {
    const version: int
    /** How many commands the table has. */
    const commands: int
    const lists: seq<PendingList>
    /** The tokens the vendor was handed, in order. */
    var handed: seq<RequestInfo>
    /** The vendor's calls between their two steps, and the entries they began with. */
    var flights: seq<Flight>
    ghost var calls: seq<nat>
    /** Network selections that the vendor was handed and that are yet to be completed for it. */
    var handing: seq<RequestInfo>
    ghost var view: View
    ghost var issued: seq<RequestInfo>
    ghost var records: set<RequestInfo>
    /** The records that have been freed, and may be read no more. */
    ghost var freed: set<RequestInfo>
    /** The network selections whose dispatch is over. */
    ghost var selections: set<nat>
    /** How often there was no memory for a record. */
    ghost var failures: nat

    /** The list a socket's requests go to: the first unless there is one of its own. */
    function ListOf(socket: nat): nat
    {
      if socket < |lists| then socket else 0
    }

    /** Two sockets share a list only if they are the same, or each is the first or has none of its own. */
    lemma OwnLists(socket: nat, other: nat)
      requires |lists| > 0
      ensures ListOf(socket) < |lists|
      ensures ListOf(socket) == ListOf(other) <==>
        socket == other || (!(0 < socket < |lists|) && !(0 < other < |lists|))
    {
    }

    ghost predicate Lists()
      reads `records, lists, records`next
    {
      && |lists| > 0
      && (forall k, l | 0 <= k < l < |lists| :: lists[k] != lists[l] && lists[k].records !! lists[l].records)
      && (forall k | 0 <= k < |lists| :: lists[k].records <= records && lists[k].Valid())
    }

    ghost predicate Numbered()
      reads `issued, `records
    {
      && (forall i | 0 <= i < |issued| :: issued[i].id == i && issued[i] in records)
      && (forall n | n in records :: n in issued)
    }

    /** The lists hold exactly the pending requests, each on its socket's. */
    ghost predicate Holds(pending: map<nat, bool>)
      reads `issued, `records, lists, records`wasAckSent
    {
      && |lists| > 0
      && (forall k | 0 <= k < |lists| :: OnList(k, pending))
      && (forall id | id in pending :: Listed(id, pending[id]))
    }

    ghost predicate OnList(k: nat, pending: map<nat, bool>)
      requires k < |lists|
      reads `issued, lists
    {
      forall n | n in lists[k].nodes :: n in issued && n.id < |issued| && issued[n.id] == n &&
        n.id in pending && ListOf(n.socket) == k
    }

    ghost predicate Listed(id: nat, acked: bool)
      requires |lists| > 0
      reads `issued, `records, lists, records`wasAckSent
    {
      id < |issued| && issued[id] in records && issued[id] in lists[ListOf(issued[id].socket)].nodes &&
        (issued[id].wasAckSent <==> acked)
    }

    /** Each call between its steps stands for an open entry. */
    ghost predicate UnderWay()
      reads `flights, `calls, `view, `records, records`wasAckSent
    {
      InSteps(flights, calls, view.trace, view.open)
    }

    ghost predicate InSteps(flights: seq<Flight>, calls: seq<nat>, trace: seq<Entry>, open: set<nat>)
      reads `records, records`wasAckSent
    {
      && |calls| == |flights| && (forall c | c in open :: c in calls)
      && (forall i, j | 0 <= i < j < |calls| :: calls[i] != calls[j])
      && (forall i | 0 <= i < |calls| ::
        calls[i] in open && flights[i].r in records && Stands(flights[i], calls[i], trace))
    }

    /** A call that has sent is over, and the others go on. */
    lemma OneOver(i: nat, e: Entry)
      requires UnderWay() && i < |flights|
      ensures |calls| == |flights| && Stands(flights[i], calls[i], view.trace)
      ensures InSteps(flights[..i] + flights[i + 1..], calls[..i] + calls[i + 1..], view.trace + [e],
        view.open - {calls[i]})
    {
      var rest := calls[..i] + calls[i + 1..];
      forall c | c in view.open && c != calls[i] ensures c in rest {
        var k :| 0 <= k < |calls| && calls[k] == c;
        assert rest[if k < i then k else k - 1] == c;
      }
    }

    static ghost predicate Stands(f: Flight, call: nat, trace: seq<Entry>)
      reads f.r`wasAckSent
    {
      call < |trace| && match f
        case Acking(r) => trace[call] == Found(r.id)
        case Completing(r, error) => trace[call] == Taken(r.id, error, r.wasAckSent)
    }

    /** Exactly the records whose response functions have run are freed. */
    ghost predicate Freed()
      reads `freed, `issued, `view
    {
      forall r | r in issued :: r in freed <==> Responded(view.trace, r.id)
    }

    /** The vendor has no token of a stranded request; a network selection whose dispatch is over is not pending. */
    ghost predicate Settled(pending: map<nat, bool>, next: nat, stranded: set<nat>)
      reads `handed, `handing, `issued, `selections
    {
      && (forall r | r in handed :: r in issued && r.id !in stranded)
      && (forall r | r in handing :: r in handed)
      && (forall id | id in selections :: id < next && id !in pending && id !in stranded)
    }

    ghost predicate Valid()
      reads this, lists, records
    {
      Lists() && Numbered() && |issued| == view.issued && Holds(view.pending) && UnderWay() &&
      Settled(view.pending, view.issued, view.stranded) && Freed() && Sound(view, version)
    }

    constructor (version: int, commands: int, lists: seq<PendingList>)
      requires |lists| > 0 && forall k | 0 <= k < |lists| ::
        lists[k].Valid() && lists[k].nodes == [] && lists[k].records == {}
      requires forall k, l | 0 <= k < l < |lists| :: lists[k] != lists[l]
      ensures Valid() && view == View(map[], [], 0, {}, {}) && this.lists == lists && this.version == version
    {
      this.version, this.commands, this.lists := version, commands, lists;
      view, issued, records := View(map[], [], 0, {}, {}), [], {};
      handed, handing, flights, calls, selections, freed := [], [], [], [], {}, {};
      failures := 0;
      StartIsSound(version);
    }

    /** A new record goes to the front of its list. */
    method PutOnList(r: RequestInfo)
      requires Lists() && r !in records
      modifies lists[ListOf(r.socket)], r`next, `issued, `records
      ensures Lists() && issued == old(issued) + [r] && records == old(records) + {r}
      ensures forall k | 0 <= k < |lists| ::
        lists[k].nodes == if k == ListOf(r.socket) then [r] + old(lists[k].nodes) else old(lists[k].nodes)
    {
      lists[ListOf(r.socket)].Add(r);
      issued, records := issued + [r], records + {r};
    }

    /** A new record, numbered and on its list. */
    method Enlist(r: RequestInfo, ghost pending: map<nat, bool>)
      requires Lists() && Numbered() && Holds(pending) && r !in records && r.id == |issued| && !r.wasAckSent
      requires r.id !in pending
      modifies lists, r`next, `issued, `records
      ensures Lists() && Numbered() && Holds(pending[r.id := false])
      ensures issued == old(issued) + [r] && records == old(records) + {r}
    {
      hide Lists;
      PutOnList(r);
      ghost var after := pending[r.id := false];
      forall k | 0 <= k < |lists| ensures OnList(k, after) {
        assert old(OnList(k, pending));
      }
      forall id | id in after ensures Listed(id, after[id]) {
        assert id in pending ==> old(Listed(id, pending[id]));
      }
    }

    /** Nothing has been sent for the request that comes next. */
    lemma NotYetResponded()
      requires Sound(view, version)
      ensures !Responded(view.trace, view.issued)
    {
      hide Legal;
      assert forall i | 0 <= i < |view.trace| :: view.trace[i] in view.trace;
    }

    /** addRequestToList: nothing for a command that is not in the table, or without memory. */
    method AddRequestToList(serial: int, slot: nat, number: int) returns (r: RequestInfo?)
      requires Valid()
      modifies `view, `issued, `records, `failures, lists
      ensures Valid() && (r == null ==> view == old(view) && issued == old(issued))
      ensures r == null <==> number >= commands || failures > old(failures)
      ensures failures == old(failures) || (failures == old(failures) + 1 && number < commands)
      ensures records == if r == null then old(records) else old(records) + {r}
      ensures r != null ==>
        && fresh(r) && r.id == old(view.issued) && r.number == number && r in issued
        && view == Issued(old(view)) && issued == old(issued) + [r]
      ensures r != null ==> r.id !in view.stranded && r !in handed && r.id !in selections
    {
      hide Sound, Lists, Numbered, Holds, Stands;
      if number >= commands {
        return null;
      }
      if * {
        failures := failures + 1;
        return null;
      }
      r := new RequestInfo(serial, number, slot, view.issued);
      IssueKeepsSound(view, version);
      NotYetResponded();
      Enlist(r, view.pending);
      view := Issued(view);
    }

    /** checkAndDequeueRequestInfoIfAck on the record's own list. */
    method Find(r: RequestInfo, isAck: bool) returns (found: bool)
      requires Lists()
      modifies lists`head, lists`nodes, records`next, r`wasAckSent
      ensures Lists() && (found <==> r in old(lists[ListOf(r.socket)].nodes))
      ensures forall k | 0 <= k < |lists| && (k != ListOf(r.socket) || isAck || !found) ::
        lists[k].nodes == old(lists[k].nodes)
      ensures found && !isAck ==>
        forall n :: n in lists[ListOf(r.socket)].nodes <==> n in old(lists[ListOf(r.socket)].nodes) && n != r
      ensures r.wasAckSent == if found && isAck then true else old(r.wasAckSent)
    {
      found := lists[ListOf(r.socket)].CheckAndDequeueIfAck(r, isAck);
    }

    /** An ack looks for the request: it is marked as acked if it is pending. */
    method FindToAck(r: RequestInfo, ghost pending: map<nat, bool>) returns (found: bool)
      requires Lists() && Holds(pending) && r in records && r.id < |issued| && issued[r.id] == r
      requires forall id | 0 <= id < |issued| && id != r.id :: issued[id] != r
      modifies lists`head, lists`nodes, records`next, r`wasAckSent
      ensures Lists() && (found <==> r.id in pending) && Holds(if found then pending[r.id := true] else pending)
      ensures r.wasAckSent == (found || old(r.wasAckSent))
    {
      hide Lists;
      assert OnList(ListOf(r.socket), pending);
      assert r.id in pending ==> Listed(r.id, pending[r.id]);
      found := Find(r, true);
      ghost var after := if found then pending[r.id := true] else pending;
      forall k | 0 <= k < |lists| ensures OnList(k, after) {
        assert old(OnList(k, pending));
      }
      forall id | id in after ensures Listed(id, after[id]) {
        assert old(Listed(id, pending[id]));
      }
    }

    /** A completion looks for the request: it is taken off if it is pending. */
    method FindToTake(r: RequestInfo, ghost pending: map<nat, bool>) returns (found: bool)
      requires Lists() && Holds(pending) && r in records && r.id < |issued| && issued[r.id] == r
      requires forall id | 0 <= id < |issued| && id != r.id :: issued[id] != r
      modifies lists`head, lists`nodes, records`next, r`wasAckSent
      ensures Lists() && (found <==> r.id in pending) && Holds(pending - {r.id})
      ensures r.wasAckSent == old(r.wasAckSent)
    {
      hide Lists;
      assert OnList(ListOf(r.socket), pending);
      assert r.id in pending ==> Listed(r.id, pending[r.id]);
      found := Find(r, false);
      ghost var after := pending - {r.id};
      forall k | 0 <= k < |lists| ensures OnList(k, after) {
        assert old(OnList(k, pending));
      }
      forall id | id in after ensures Listed(id, after[id]) {
        assert old(Listed(id, pending[id]));
      }
    }

    /** Looking for a request again does not disturb the calls that have yet to send: once taken off it is not found. */
    lemma TakenIsGone(i: nat)
      requires UnderWay() && Sound(view, version) && i < |flights| && flights[i].Completing?
      ensures flights[i].r.id !in view.pending
    {
      hide Legal;
      assert Stands(flights[i], calls[i], view.trace);
      assert WasTaken(view.trace, flights[i].r.id);
    }

    /** The first step of RIL_onRequestAck, for a token the vendor was handed: the request is looked up, on the list
        that its record names if there is more than one. The record has been freed exactly if the request has its
        response. */
    method StartAck(r: RequestInfo) returns (ghost stale: bool)
      requires Valid() && r in issued && r.id !in view.stranded
      modifies `view, `flights, `calls, lists`head, lists`nodes, records`next, records`wasAckSent
      ensures Valid() && view == LookedUp(old(view), r.id)
      ensures stale <==> |lists| > 1 && Responded(old(view.trace), r.id)
      ensures if r.id in old(view.pending)
        then flights == old(flights) + [Acking(r)] && calls == old(calls) + [|old(view.trace)|]
        else flights == old(flights) && calls == old(calls)
    {
      hide Sound, Lists, Numbered, Holds, Responded;
      LookUpKeepsSound(view, r.id, version);
      FreesNothing(Found(r.id));
      OnItsList(r);
      stale := |lists| > 1 && r in freed;
      forall i | 0 <= i < |flights| && flights[i].Completing? ensures flights[i].r.id !in view.pending {
        TakenIsGone(i);
      }
      var found := FindToAck(r, view.pending);
      if found {
        flights, calls := flights + [Acking(r)], calls + [|view.trace|];
      }
      view := LookedUp(view, r.id);
    }

    /** The first step of RIL_onRequestComplete, for a token the vendor was handed: the request is taken off, if it is
        found as for an ack. */
    method StartComplete(r: RequestInfo, e: Errno) returns (ghost stale: bool)
      requires Valid() && r in issued && r.id !in view.stranded
      modifies `view, `flights, `calls, lists`head, lists`nodes, records`next, records`wasAckSent
      ensures Valid() && view == Dequeued(old(view), r.id, e)
      ensures stale <==> |lists| > 1 && Responded(old(view.trace), r.id)
      ensures if r.id in old(view.pending)
        then flights == old(flights) + [Completing(r, e)] && calls == old(calls) + [|old(view.trace)|]
        else flights == old(flights) && calls == old(calls)
    {
      hide Sound, Lists, Numbered, Holds, Responded;
      DequeueKeepsSound(view, r.id, e, version);
      FreesNothing(Taken(r.id, e, r.wasAckSent));
      OnItsList(r);
      stale := |lists| > 1 && r in freed;
      var found := FindToTake(r, view.pending);
      if found {
        flights, calls := flights + [Completing(r, e)], calls + [|view.trace|];
      }
      assert !found ==> view.pending - {r.id} == view.pending;
      view := Dequeued(view, r.id, e);
    }

    /** The second step of either: the ack goes out, or the response function runs with what the record says, which is
        then freed. What the step reads has been freed before exactly if it is an ack that the response overtook. */
    method SendNext(i: nat) returns (ghost stale: bool)
      requires Valid() && i < |flights|
      modifies `view, `flights, `calls, `freed
      ensures Valid() && old(calls[i]) < |old(view.trace)| && view == Sent(old(view), old(calls[i]), version)
      ensures flights == old(flights)[..i] + old(flights)[i + 1..] && calls == old(calls)[..i] + old(calls)[i + 1..]
      ensures view.trace == old(view.trace) +
        match old(flights[i])
        case Acking(r) => [Ack(r.id, old(calls[i]))]
        case Completing(r, error) =>
          [Response(r.id, error, version >= 13 && old(flights[i].r.wasAckSent), old(calls[i]))]
      ensures stale == (old(flights[i]).r in old(freed))
      ensures stale <==> old(flights[i]).Acking? && Belated(view.trace, |old(view.trace)|)
      ensures freed == old(freed) + if old(flights[i]).Completing? then {old(flights[i]).r} else {}
    {
      hide Sound, Lists, Holds, Numbered, Settled, InSteps, Responded, Belated;
      ReadsFreed(i);
      ghost var call := calls[i];
      var f := flights[i];
      ghost var e := Sending(view.trace[call], call, version);
      OneOver(i, e);
      SendKeepsSound(view, call, version);
      FreesNext(f.r, e);
      stale := f.r in freed;
      view := Sent(view, call, version);
      flights, calls := flights[..i] + flights[i + 1..], calls[..i] + calls[i + 1..];
      if f.Completing? {
        freed := freed + {f.r};
      }
    }

    lemma FreesNothing(e: Entry)
      requires Freed() && !e.Response?
      ensures forall q | q in issued :: q in freed <==> Responded(view.trace + [e], q.id)
    {
      Appended(view.trace, e, version);
    }

    /** A response frees its record and an ack none. */
    lemma FreesNext(r: RequestInfo, e: Entry)
      requires Numbered() && Freed() && r in issued && e.id == r.id
      ensures forall q | q in issued ::
        (q in freed || (e.Response? && q == r)) <==> Responded(view.trace + [e], q.id)
    {
      Appended(view.trace, e, version);
    }

    /** Which of the calls between their steps will read a freed record. */
    lemma ReadsFreed(i: nat)
      requires Valid() && i < |flights|
      ensures |calls| == |flights| && flights[i].r in issued && calls[i] in view.open && calls[i] < |view.trace|
      ensures flights[i].Acking? ==>
        (flights[i].r in freed <==> Belated(Sent(view, calls[i], version).trace, |view.trace|))
      ensures flights[i].Completing? ==> flights[i].r !in freed
    {
      hide Lists, Holds;
      assert Stands(flights[i], calls[i], view.trace);
      if flights[i].Acking? {
        BelatedIsOvertaken(view, calls[i], version);
      } else {
        NotYetAnswered(view, calls[i], version);
      }
    }

    /** A request is on its socket's list exactly while it is pending. */
    lemma OnItsList(r: RequestInfo)
      requires Valid() && r in issued
      ensures r.id < |issued| && issued[r.id] == r && r in records
      ensures forall id | 0 <= id < |issued| && id != r.id :: issued[id] != r
      ensures r in lists[ListOf(r.socket)].nodes <==> r.id in view.pending
      ensures r.id in view.pending ==> (r.wasAckSent <==> view.pending[r.id])
    {
      hide Legal, Fits;
      assert OnList(ListOf(r.socket), view.pending);
      assert r.id in view.pending ==> Listed(r.id, view.pending[r.id]);
    }

    /** The request cannot be put together: it stays on its list, and if memory was short an error is sent. */
    method Strand(r: RequestInfo, answered: bool)
      requires Valid() && r in issued && r.id in view.pending && !view.pending[r.id] && r.id !in view.stranded
      requires r !in handed && r.id !in selections
      modifies `view
      ensures Valid() && view == Stranded(old(view), r.id, answered)
    {
      hide Sound, Lists, Holds;
      StrandKeepsSound(view, r.id, answered, version);
      Appended(view.trace, Refused(r.id), version);
      assert view.trace + [] == view.trace;
      OnItsList(r);
      forall h | h in handed ensures h.id != r.id {
        OnItsList(h);
      }
      view := Stranded(view, r.id, answered);
    }

    /** dispatchStrings, until the vendor has the request or it is given up; the vendor may make calls about it from
        then on. */
    method DispatchStrings(serial: int, slot: nat, number: int, copies: Copies) returns (ok: bool)
      requires Valid()
      modifies `view, `issued, `records, `handed, `handing, `failures, lists
      ensures Valid() && fresh(records - old(records)) && old(records) <= records
      ensures if ok then handed != [] && handed[..|handed| - 1] == old(handed) &&
          handed[|handed| - 1].id == old(view.issued) && handed[|handed| - 1].number == number
        else handed == old(handed)
      ensures handing == if ok && number == RIL_REQUEST_SET_NETWORK_SELECTION_MANUAL
        then old(handing) + [handed[|handed| - 1]] else old(handing)
      ensures failures == old(failures) || (failures == old(failures) + 1 && number < commands)
      ensures ok <==> number < commands && failures == old(failures) && copies.Copied?
      ensures view ==
        if number >= commands || failures > old(failures) then old(view)
        else if copies.Copied? then Issued(old(view))
        else Stranded(Issued(old(view)), old(view.issued), copies.OutOfMemory?)
      ensures !ok && number < commands && failures == old(failures) ==>
        Responses(view.trace, old(view.issued)) == if copies.OutOfMemory? then 1 else 0
      ensures ok ==> old(view.issued) !in view.stranded
    {
      hide Sound, Lists, Holds, Numbered, UnderWay;
      var r := AddRequestToList(serial, slot, number);
      if r == null {
        return false;
      }
      if !copies.Copied? {
        StrandedAnswers(old(view), copies.OutOfMemory?, old(view.issued) + 1, version);
        Strand(r, copies.OutOfMemory?);
        return false;
      }
      handed := handed + [r];
      if number == RIL_REQUEST_SET_NETWORK_SELECTION_MANUAL {
        handing := handing + [r];
      }
      ok := true;
    }

    /** The vendor has returned from the call that handed it a manual network selection, which is now completed for
        it, in case it never does so itself; if it has and has its response, the record has been freed. */
    method FinishDispatch(i: nat) returns (ghost stale: bool)
      requires Valid() && i < |handing|
      modifies `view, `flights, `calls, `handing, `selections, lists`head, lists`nodes, records`next, records`wasAckSent
      ensures Valid() && view == Dequeued(old(view), old(handing[i].id), Success)
      ensures stale <==> |lists| > 1 && Responded(old(view.trace), old(handing[i].id))
      ensures handing == old(handing)[..i] + old(handing)[i + 1..]
      ensures selections == old(selections) + {old(handing[i].id)}
    {
      hide Sound, Lists, Holds, Numbered, UnderWay;
      var r := handing[i];
      OnItsList(r);
      stale := StartComplete(r, Success);
      handing := handing[..i] + handing[i + 1..];
      selections := selections + {r.id};
    }

    /** What a step does, if there is a thread to take it. */
    twostate predicate Did(step: Step)
      reads this
    {
      match step
      case Dispatch(_, _, number, copies) =>
        number < commands && failures == old(failures) ==>
          if copies.Copied? then |handed| == |old(handed)| + 1 && view == Issued(old(view))
          else view == Stranded(Issued(old(view)), old(view.issued), copies.OutOfMemory?)
      case FinishDispatch(i) => i < |old(handing)| ==>
        view == Dequeued(old(view), old(handing[i].id), Success) && old(handing[i].id) in selections
      case StartAck(k) => k < |old(handed)| ==> view == LookedUp(old(view), old(handed[k].id))
      case StartComplete(k, error) => k < |old(handed)| ==> view == Dequeued(old(view), old(handed[k].id), error)
      case Send(i) => i < |old(flights)| ==>
        |view.trace| == |old(view.trace)| + 1 && flights == old(flights)[..i] + old(flights)[i + 1..]
    }

    /** One step of any thread, if there is one to take it. */
    method Take(step: Step)
      requires Valid()
      modifies this, lists, records
      ensures Valid() && fresh(records - old(records)) && old(records) <= records
      ensures old(view.trace) <= view.trace && old(selections) <= selections && Did(step)
    {
      hide Sound, Lists, Holds, Numbered, UnderWay;
      match step
      case Dispatch(serial, slot, number, copies) => var ok := DispatchStrings(serial, slot, number, copies);
      case FinishDispatch(i) => if i < |handing| { ghost var stale := FinishDispatch(i); }
      case StartAck(k) => if k < |handed| { ghost var stale := StartAck(handed[k]); }
      case StartComplete(k, error) => if k < |handed| { ghost var stale := StartComplete(handed[k], error); }
      case Send(i) => if i < |flights| { ghost var stale := SendNext(i); }
    }

    /** Any interleaving of dispatches and of the steps of vendor calls, duplicate and stale ones too, keeps all of
        it. */
    method Run(steps: seq<Step>)
      requires Valid()
      modifies this, lists, records
      ensures Valid() && old(view.trace) <= view.trace && old(selections) <= selections
    {
      hide Sound, Lists, Holds, Numbered, Settled, UnderWay;
      for i := 0 to |steps|
        invariant Valid() && fresh(records - old(records)) && old(records) <= records
        invariant old(view.trace) <= view.trace && old(selections) <= selections
      {
        Take(steps[i]);
      }
    }

    /** A completion of the request has taken it off and has yet to run its response function. */
    ghost predicate Completes(id: nat)
      reads `flights
    {
      exists i | 0 <= i < |flights| :: flights[i].Completing? && flights[i].r.id == id
    }

    /** However the calls interleave, no request has two responses. One the vendor was handed has none while it is
        pending and its one once no completion of it is between its steps; and a manual network selection is pending
        no more when its dispatch is over. */
    lemma AnsweredOnce(id: nat)
      requires Valid() && id < view.issued
      ensures Responses(view.trace, id) <= 1
      ensures id !in view.stranded ==> Responses(view.trace, id) == if id in view.pending || Completes(id) then 0 else 1
      ensures id in selections && !Completes(id) ==> Responses(view.trace, id) == 1
    {
      OneResponse(view, id, version);
      if Responding(view, id) {
        var c :| c in view.open && c < |view.trace| && view.trace[c].Taken? && view.trace[c].id == id;
        var i :| 0 <= i < |calls| && calls[i] == c;
        assert Stands(flights[i], c, view.trace);
      }
      if Completes(id) {
        var i :| 0 <= i < |flights| && flights[i].Completing? && flights[i].r.id == id;
        assert Stands(flights[i], calls[i], view.trace) && calls[i] in view.open;
      }
    }

    lemma NoneUnderWay()
      requires UnderWay()
      ensures flights == [] ==> calls == []
    {
    }

    /** It does happen: while one vendor thread is between an ack's lookup and its sending, another completes the
        request, and the ack is sent from its freed record. */
    method AckOvertaken(r: RequestInfo, e: Errno) returns (ghost stale: bool)
      requires Valid() && r in issued && r.id in view.pending && r.id !in view.stranded && flights == []
      modifies `view, `flights, `calls, `freed, lists`head, lists`nodes, records`next, records`wasAckSent
      ensures Valid() && flights == [] && stale && r in freed
      ensures var n := |old(view.trace)|;
        view.trace == old(view.trace) +
          [Found(r.id), Taken(r.id, e, true), Response(r.id, e, version >= 13, n + 1), Ack(r.id, n)]
    {
      hide Sound, Lists, Holds, Numbered, UnderWay, Settled, Freed;
      NoneUnderWay();
      ghost var n, t := |view.trace|, view.trace + [Found(r.id), Taken(r.id, e, true)];
      stale := StartAck(r);
      stale := StartComplete(r, e);
      assert view.trace == t && calls == [n, n + 1];
      stale := SendNext(1);
      assert view.trace == t + [Response(r.id, e, version >= 13, n + 1)] && calls == [n];
      stale := SendNext(0);
    }

    /** An ack goes out after its request's response exactly if its lookup succeeded before the request was taken off
        and it is sent after the response; once no ack of the request is between its steps, exactly if one was when
        the response went. */
    lemma LateAcks(i: nat)
      requires Valid() && i < |view.trace| && view.trace[i].Response?
      ensures var late :=
          exists j :: i < j < |view.trace| && view.trace[j].Ack? && view.trace[j].id == view.trace[i].id;
        && (late <==> exists j :: Overtaken(view.trace, i, j))
        && ((forall k | 0 <= k < |flights| && flights[k].Acking? :: flights[k].r.id != view.trace[i].id) ==>
          (late <==> exists a :: AwaitsSending(view.trace, i, a)))
    {
      LateExactly(view.trace, i, version);
      if forall k | 0 <= k < |flights| && flights[k].Acking? :: flights[k].r.id != view.trace[i].id {
        forall c | c in view.open ensures view.trace[c] != Found(view.trace[i].id) {
          var k :| 0 <= k < |calls| && calls[k] == c;
          assert Stands(flights[k], c, view.trace);
        }
        LateIsForeseen(view, i, version);
      }
    }

    /** A response expects an ack exactly from version 13 on and if an ack found its request. */
    lemma ExpectsAcks(i: nat)
      requires Valid() && i < |view.trace| && view.trace[i].Response?
      ensures view.trace[i].ackExpected <==> version >= 13 && Found(view.trace[i].id) in view.trace
    {
      ExpectsAck(view.trace, i, version);
    }
  }
}
