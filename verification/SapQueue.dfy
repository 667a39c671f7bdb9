/** The SIM access socket's queue of requests the vendor has not completed, found again by message id and token. */
module SapQueue {
  /** What a request is found by. */
  datatype Key = Key(id: int, token: int)

  /** The index of the first request with a key, or the length if there is none. */
  function FirstWith(keys: seq<Key>, key: Key): (k: nat)
    ensures k <= |keys| && (k < |keys| ==> keys[k] == key)
    ensures forall i | 0 <= i < k :: keys[i] != key
  {
    if keys == [] || keys[0] == key then 0 else 1 + FirstWith(keys[1..], key)
  }

  function Without<T>(s: seq<T>, k: nat): seq<T>
  {
    if k < |s| then s[..k] + s[k + 1..] else s
  }

  ghost predicate Distinct(keys: seq<Key>)
  {
    forall i, j | 0 <= i < j < |keys| :: keys[i] != keys[j]
  }

  /** Looking a request up by its own key finds it exactly if no newer request has the same key. */
  lemma FindsItself(keys: seq<Key>, k: nat)
    requires k < |keys|
    ensures FirstWith(keys, keys[k]) == k <==> forall j | 0 <= j < k :: keys[j] != keys[k]
  {
  }

  /** With two requests of one key, completing the older one takes the newer one off. */
  lemma FindsTheNewer(key: Key, other: Key)
    requires key != other
    ensures FirstWith([key, other, key], key) == 0 != 2
  {
  }

  class MsgHeader {
    const id: int
    const token: int

    constructor (id: int, token: int)
      ensures this.id == id && this.token == token
    {
      this.id, this.token := id, token;
    }
  }

  class SapSocketRequest {
    const token: int
    const curr: MsgHeader
    var next: SapSocketRequest?

    constructor (curr: MsgHeader)
      ensures this.curr == curr && token == curr.token && next == null
    {
      this.curr, token, next := curr, curr.token, null;
    }
  }

  function KeyOf(r: SapSocketRequest): Key
  {
    Key(r.curr.id, r.token)
  }

  function Keys(s: seq<SapSocketRequest>): (keys: seq<Key>)
    ensures |keys| == |s| && forall i | 0 <= i < |s| :: keys[i] == KeyOf(s[i])
  {
    seq(|s|, i requires 0 <= i < |s| => KeyOf(s[i]))
  }

  class RilQueue {
    var front: SapSocketRequest?
    ghost var nodes: seq<SapSocketRequest>
    ghost var records: set<SapSocketRequest>

    ghost predicate Valid()
      reads this, records`next
    {
      && (forall n | n in nodes :: n in records)
      && front == (if nodes == [] then null else nodes[0])
      && (forall i {:trigger nodes[i].next} | 0 <= i < |nodes| ::
        nodes[i].next == if i + 1 < |nodes| then nodes[i + 1] else null)
      && (forall i, j | 0 <= i < j < |nodes| :: nodes[i] != nodes[j])
    }

    constructor ()
      ensures Valid() && nodes == [] && records == {}
    {
      front, nodes, records := null, [], {};
    }

    method Enqueue(request: SapSocketRequest)
      requires Valid() && request !in nodes
      modifies this, request`next
      ensures Valid() && nodes == [request] + old(nodes) && records == old(records) + {request}
    {
      if front == null {
        front := request;
        request.next := null;
      } else {
        request.next := front;
        front := request;
      }
      nodes, records := [request] + nodes, records + {request};
    }

    /** dequeue, of a queue that is not empty: the newest request. */
    method Dequeue() returns (r: SapSocketRequest)
      requires Valid() && nodes != []
      modifies `front, `nodes
      ensures Valid() && r == old(nodes)[0] && nodes == old(nodes)[1..]
    {
      r := front;
      assert |nodes| > 1 ==> nodes[0].next == nodes[1];
      if front.next != null {
        front := front.next;
      } else {
        front := null;
      }
      nodes := nodes[1..];
    }

    /** `*ppCur = (*ppCur)->p_next`, through the front or the link of the request before. */
    method Unlink(prev: SapSocketRequest?, cur: SapSocketRequest, ghost k: nat)
      requires Valid() && k < |nodes| && nodes[k] == cur && prev == if k == 0 then null else nodes[k - 1]
      modifies `front, `nodes, records`next
      ensures Valid() && nodes == Without(old(nodes), k)
    {
      if prev == null {
        front := cur.next;
      } else {
        prev.next := cur.next;
      }
      assert nodes == nodes[..k] + [nodes[k]] + nodes[k + 1..];
      nodes := nodes[..k] + nodes[k + 1..];
    }

    /** Unlink the newest request with this id and token, which is then freed. */
    method CheckAndDequeue(id: int, token: int) returns (freed: SapSocketRequest?)
      requires Valid()
      modifies `front, `nodes, records`next
      ensures Valid()
      ensures var k := FirstWith(Keys(old(nodes)), Key(id, token));
        freed == (if k < |old(nodes)| then old(nodes)[k] else null) && nodes == Without(old(nodes), k)
    {
      ghost var keys, key := Keys(nodes), Key(id, token);
      freed := null;
      var prev: SapSocketRequest? := null;
      var cur := front;
      ghost var k := 0;
      while cur != null
        invariant Valid() && nodes == old(nodes)
        invariant 0 <= k <= |nodes| && cur == (if k < |nodes| then nodes[k] else null)
        invariant prev == if k == 0 then null else nodes[k - 1]
        invariant forall i | 0 <= i < k :: keys[i] != key
        decreases |nodes| - k
      {
        if token == cur.token && id == cur.curr.id {
          assert keys[k] == key;
          freed := cur;
          Unlink(prev, cur, k);
          return;
        }
        assert keys[k] != key;
        prev, cur := cur, cur.next;
        k := k + 1;
      }
    }
  }

  /** A request comes from the client, and the vendor completes so many requests before it returns; or the vendor
      completes a request later. */
  datatype Step =
    | Dispatch(id: int, token: int, completions: nat)
    | Complete

  class RilSapSocket {
    const queue: RilQueue
    /** Whether the vendor's functions are known. */
    const connected: bool
    /** The requests dispatched and not completed, newest first, and those of them the vendor has a token of. */
    var outstanding: seq<SapSocketRequest>
    var handed: set<SapSocketRequest>
    /** The request records and message headers that are allocated. */
    ghost var live: set<SapSocketRequest>
    ghost var headers: set<MsgHeader>
    /** Every request ever dispatched, newest first, and those completed. */
    ghost var dispatched: seq<SapSocketRequest>
    ghost var completed: set<SapSocketRequest>
    /** How often there was no memory for a request. */
    ghost var failures: nat

    /** The queue is exactly the requests outstanding, which own all that is allocated. */
    ghost predicate Valid()
      reads this, queue, queue.records`next
    {
      && queue.Valid() && queue.nodes == outstanding && Owned(outstanding, live, headers, handed)
      && outstanding == Uncompleted(dispatched, completed) && forall r | r in completed :: r in dispatched
    }

    constructor (connected: bool)
      ensures Valid() && outstanding == [] && fresh(queue) && queue.records == {}
    {
      queue := new RilQueue();
      this.connected, outstanding, handed, live, headers := connected, [], {}, {}, {};
      dispatched, completed, failures := [], {}, 0;
    }

    /** onRequestComplete, for a token the vendor has: the record taken off the queue and freed is that very one. */
    method OnRequestComplete(t: SapSocketRequest)
      requires Valid() && t in handed
      modifies `outstanding, `handed, `live, `headers, `completed, queue`front, queue`nodes, queue.records`next
      ensures Valid() && live == old(live) - {t} && headers == old(headers) - {t.curr}
      ensures completed == old(completed) + {t} && handed == old(handed) - {t}
      ensures exists k | 0 <= k < |old(outstanding)| ::
        old(outstanding)[k] == t && outstanding == Without(old(outstanding), k)
    {
      hide Owned, Keys, Uncompleted, Others, Distinct;
      var hdr := t.curr;
      ghost var k := OwnsLess(outstanding, live, headers, handed, t);
      var freed := queue.CheckAndDequeue(hdr.id, hdr.token);
      live, headers, handed := live - {freed}, headers - {hdr}, handed - {t};
      UncompletedLess(dispatched, completed, t);
      outstanding, completed := Others(outstanding, t), completed + {t};
    }

    /** The vendor completes so many of the requests it has tokens of, or all. */
    method VendorCompletes(completions: nat)
      requires Valid()
      modifies `outstanding, `handed, `live, `headers, `completed, queue`front, queue`nodes, queue.records`next
      ensures Valid() && old(completed) <= completed && (completions == 0 ==> completed == old(completed))
      ensures completions == 0 ==> handed == old(handed)
      ensures completions > 0 && old(handed) != {} ==> exists t | t in old(handed) :: t !in handed && t in completed
    {
      for i := 0 to completions
        invariant Valid() && old(completed) <= completed && (i == 0 ==> completed == old(completed))
        invariant i == 0 ==> handed == old(handed)
        invariant handed <= old(handed)
        invariant i > 0 && old(handed) != {} ==> exists t | t in old(handed) :: t !in handed && t in completed
      {
        if handed != {} {
          var t :| t in handed;
          OnRequestComplete(t);
        }
      }
    }

    /** dispatchRequest, of a message whose id and token no pending request has: it is queued before the vendor is
        called, which may complete it, or others, before it returns. Without memory nothing happens. */
    method DispatchRequest(req: MsgHeader, completions: nat) returns (ok: bool)
      requires Valid() && req !in headers && Key(req.id, req.token) !in Keys(outstanding)
      modifies this, queue, queue.records`next
      ensures Valid() && fresh(queue.records - old(queue.records)) && old(queue.records) <= queue.records
      ensures failures == old(failures) + if ok then 0 else 1
      ensures !ok ==> dispatched == old(dispatched) && completed == old(completed) && handed == old(handed)
      ensures !ok ==> live == old(live) && headers == old(headers)
      ensures ok ==> |dispatched| > 0 && dispatched[0].curr == req && dispatched[1..] == old(dispatched)
      ensures ok ==> KeyOf(dispatched[0]) == Key(req.id, req.token)
      ensures old(completed) <= completed && (!connected || completions == 0 ==> completed == old(completed))
      ensures ok && !connected ==> handed == old(handed)
      ensures ok && connected && completions == 0 ==> handed == old(handed) + {dispatched[0]}
      ensures ok && connected && completions > 0 ==>
        exists t | t in old(handed) + {dispatched[0]} :: t !in handed && t in completed
    {
      if * {
        failures := failures + 1;
        return false;
      }
      hide Owned, Keys, Distinct, Uncompleted;
      var currRequest := new SapSocketRequest(req);
      Admit(currRequest);
      if connected {
        VendorCompletes(completions);
      }
      ok := true;
    }

    /** A new request joins the queue, and the vendor gets its token if its functions are known. */
    method Admit(r: SapSocketRequest)
      requires Valid() && r !in live && r !in queue.nodes && r.curr !in headers && r.token == r.curr.token
      requires KeyOf(r) !in Keys(outstanding) && r !in completed
      modifies `outstanding, `handed, `live, `headers, `dispatched, queue, r`next
      ensures Valid() && queue.records == old(queue.records) + {r}
      ensures live == old(live) + {r} && headers == old(headers) + {r.curr}
      ensures dispatched == [r] + old(dispatched)
      ensures connected ==> handed == old(handed) + {r}
      ensures !connected ==> handed == old(handed)
    {
      hide Owned, Keys, Distinct, Uncompleted;
      UncompletedMore(dispatched, completed, r);
      OwnsMore(outstanding, live, headers, handed, r);
      queue.Enqueue(r);
      outstanding, live, headers := [r] + outstanding, live + {r}, headers + {r.curr};
      dispatched := [r] + dispatched;
      if connected {
        handed := handed + {r};
      }
    }

    /** A dispatch, of a request with an id and token of its own, or a completion, of some request the vendor has a
        token of. */
    method Take(step: Step)
      requires Valid()
      modifies this, queue, queue.records`next
      ensures Valid() && fresh(queue.records - old(queue.records)) && old(queue.records) <= queue.records
      ensures old(completed) <= completed
      ensures step.Dispatch? && Key(step.id, step.token) !in old(Keys(outstanding)) && failures == old(failures) ==>
        && |dispatched| == |old(dispatched)| + 1 && dispatched[1..] == old(dispatched)
        && KeyOf(dispatched[0]) == Key(step.id, step.token)
      ensures step.Complete? ==> dispatched == old(dispatched)
      ensures step.Complete? && old(handed) != {} ==> |outstanding| == |old(outstanding)| - 1
      ensures |old(dispatched)| <= |dispatched|
    {
      hide Owned, Keys, Distinct, Uncompleted;
      match step
      case Dispatch(id, token, completions) =>
        if Key(id, token) !in Keys(outstanding) {
          var req := new MsgHeader(id, token);
          var ok := DispatchRequest(req, completions);
        }
      case Complete =>
        if handed != {} {
          var t :| t in handed;
          OnRequestComplete(t);
        }
    }

    /** Over any run of requests with distinct ids and tokens and of completions, the queue is exactly the requests
        dispatched and not completed, newest first. */
    method Run(steps: seq<Step>)
      requires Valid()
      modifies this, queue, queue.records`next
      ensures Valid() && old(completed) <= completed && |old(dispatched)| <= |dispatched|
    {
      hide Owned, Keys, Distinct, Uncompleted;
      for i := 0 to |steps|
        invariant old(completed) <= completed && |old(dispatched)| <= |dispatched|
        invariant Valid() && fresh(queue.records - old(queue.records)) && old(queue.records) <= queue.records
      {
        Take(steps[i]);
      }
    }
  }

  /** The requests have distinct keys and headers, they and those headers are all that is allocated, and the vendor
      has tokens of none but these. */
  ghost predicate Owned(s: seq<SapSocketRequest>, live: set<SapSocketRequest>, headers: set<MsgHeader>,
    handed: set<SapSocketRequest>)
  {
    && Distinct(Keys(s)) && Different(s) && live == (set r | r in s) && headers == (set r | r in s :: r.curr)
    && handed <= live
  }

  ghost predicate Different(s: seq<SapSocketRequest>)
  {
    && (forall i, j | 0 <= i < j < |s| :: s[i] != s[j] && s[i].curr != s[j].curr)
    && (forall r | r in s :: r.token == r.curr.token)
  }

  lemma DifferentWithout(s: seq<SapSocketRequest>, k: nat)
    requires Different(s) && k < |s|
    ensures Different(Without(s, k)) && (Distinct(Keys(s)) ==> Distinct(Keys(Without(s, k))))
    ensures forall r | r in s && r != s[k] :: r in Without(s, k) && r.curr != s[k].curr
    ensures forall r | r in Without(s, k) :: r in s && r != s[k]
  {
    hide Keys, Distinct;
    var w := Without(s, k);
    Removed(s, k);
    forall i, j | 0 <= i < j < |w| ensures w[i] != w[j] && w[i].curr != w[j].curr {
      assert w[i] == s[if i < k then i else i + 1] && w[j] == s[if j < k then j else j + 1];
    }
  }

  lemma RecordsWithout(s: seq<SapSocketRequest>, w: seq<SapSocketRequest>, t: SapSocketRequest)
    requires t in s && forall r | r in s && r != t :: r in w && r.curr != t.curr
    requires forall r | r in w :: r in s && r != t
    ensures (set r | r in w) == (set r | r in s) - {t}
    ensures (set r | r in w :: r.curr) == (set r | r in s :: r.curr) - {t.curr}
  {
  }

  /** A new request with a key of its own joins at the front. */
  lemma OwnsMore(s: seq<SapSocketRequest>, live: set<SapSocketRequest>, headers: set<MsgHeader>,
    handed: set<SapSocketRequest>, r: SapSocketRequest)
    requires Owned(s, live, headers, handed) && r !in live && r.curr !in headers && r.token == r.curr.token &&
      KeyOf(r) !in Keys(s)
    ensures Owned([r] + s, live + {r}, headers + {r.curr}, handed)
    ensures Owned([r] + s, live + {r}, headers + {r.curr}, handed + {r})
  {
    var t := [r] + s;
    assert forall q | q in s :: q in live && q.curr in headers;
    forall i, j | 0 <= i < j < |t| ensures t[i] != t[j] && t[i].curr != t[j].curr && KeyOf(t[i]) != KeyOf(t[j]) {
      assert t[j] == s[j - 1] && Keys(s)[j - 1] == KeyOf(s[j - 1]);
      if i > 0 {
        assert t[i] == s[i - 1] && Keys(s)[i - 1] == KeyOf(s[i - 1]);
      }
    }
    assert forall q :: q in t <==> q == r || q in s;
  }

  /** A request is found by its own key, and leaves with its header. */
  lemma OwnsLess(s: seq<SapSocketRequest>, live: set<SapSocketRequest>, headers: set<MsgHeader>,
    handed: set<SapSocketRequest>, t: SapSocketRequest)
    returns (k: nat)
    requires Owned(s, live, headers, handed) && t in handed
    ensures k < |s| && s[k] == t && k == FirstWith(Keys(s), Key(t.curr.id, t.curr.token)) &&
      Others(s, t) == Without(s, k)
    ensures Owned(Others(s, t), live - {t}, headers - {t.curr}, handed - {t})
  {
    hide Keys, Others, Without, FirstWith, Different, Distinct;
    k :| 0 <= k < |s| && s[k] == t;
    FoundByItsPair(s, k);
    DifferentWithout(s, k);
    RecordsWithout(s, Without(s, k), t);
  }

  lemma FoundByItsPair(s: seq<SapSocketRequest>, k: nat)
    requires Distinct(Keys(s)) && Different(s) && k < |s|
    ensures k == FirstWith(Keys(s), Key(s[k].curr.id, s[k].curr.token)) && Others(s, s[k]) == Without(s, k)
  {
    hide Keys, Others, Without;
    assert s[k] in s && Keys(s)[k] == KeyOf(s[k]);
    FindsItself(Keys(s), k);
    OthersIsWithout(s, k);
  }

  function Uncompleted(dispatched: seq<SapSocketRequest>, completed: set<SapSocketRequest>): seq<SapSocketRequest>
  {
    if dispatched == [] then []
    else (if dispatched[0] in completed then [] else [dispatched[0]]) + Uncompleted(dispatched[1..], completed)
  }

  lemma {:induction false} UncompletedLess(dispatched: seq<SapSocketRequest>, completed: set<SapSocketRequest>,
    t: SapSocketRequest)
    ensures Uncompleted(dispatched, completed + {t}) == Others(Uncompleted(dispatched, completed), t)
    ensures t in Uncompleted(dispatched, completed) ==> t in dispatched
  {
    if dispatched != [] {
      UncompletedLess(dispatched[1..], completed, t);
      var rest := Uncompleted(dispatched[1..], completed);
      if dispatched[0] in completed {
        assert Uncompleted(dispatched, completed) == rest;
        assert Uncompleted(dispatched, completed + {t}) == Uncompleted(dispatched[1..], completed + {t});
      } else {
        var s := [dispatched[0]] + rest;
        assert s[1..] == rest && Uncompleted(dispatched, completed) == s;
      }
    }
  }

  lemma UncompletedMore(dispatched: seq<SapSocketRequest>, completed: set<SapSocketRequest>, r: SapSocketRequest)
    requires r !in completed
    ensures Uncompleted([r] + dispatched, completed) == [r] + Uncompleted(dispatched, completed)
  {
    assert ([r] + dispatched)[1..] == dispatched;
  }

  function Others(s: seq<SapSocketRequest>, t: SapSocketRequest): seq<SapSocketRequest>
  {
    if s == [] then [] else (if s[0] == t then [] else [s[0]]) + Others(s[1..], t)
  }

  lemma {:induction false} OthersIsWithout(s: seq<SapSocketRequest>, k: nat)
    requires k < |s| && forall i, j | 0 <= i < j < |s| :: s[i] != s[j]
    ensures Others(s, s[k]) == Without(s, k)
  {
    hide Without;
    var t := s[1..];
    assert forall i | 0 <= i < |t| :: t[i] == s[i + 1] && t[i] != s[0];
    WithoutRest(s, k);
    if k > 0 {
      OthersIsWithout(t, k - 1);
      assert s[0] != s[k] && t[k - 1] == s[k];
    } else {
      NoneToDrop(t, s[0]);
    }
  }

  lemma WithoutRest(s: seq<SapSocketRequest>, k: nat)
    requires k < |s|
    ensures Without(s, k) == if k == 0 then s[1..] else [s[0]] + Without(s[1..], k - 1)
  {
    if k > 0 {
      var t := s[1..];
      assert t[..k - 1] == s[1..k] && t[k..] == s[k + 1..] && [s[0]] + s[1..k] == s[..k];
    }
  }

  lemma {:induction false} NoneToDrop(s: seq<SapSocketRequest>, t: SapSocketRequest)
    requires t !in s
    ensures Others(s, t) == s
  {
    if s != [] {
      NoneToDrop(s[1..], t);
    }
  }

  /** Taking one of some distinct requests out leaves the others, in order. */
  lemma Removed(s: seq<SapSocketRequest>, k: nat)
    requires k < |s| && forall i, j | 0 <= i < j < |s| :: s[i] != s[j]
    ensures forall r :: r in Without(s, k) <==> r in s && r != s[k]
    ensures forall i | 0 <= i < |s| - 1 :: Without(s, k)[i] == s[if i < k then i else i + 1]
    ensures Distinct(Keys(s)) ==> Distinct(Keys(Without(s, k)))
  {
    forall r | r in s && r != s[k] ensures r in Without(s, k) {
      var i :| 0 <= i < |s| && s[i] == r;
      assert Without(s, k)[if i < k then i else i - 1] == r;
    }
  }
}
