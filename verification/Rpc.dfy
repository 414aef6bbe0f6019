/** The life of an asynchronous RPC request, from broadcast to completion or cancellation. */
module Rpc {
  import opened IntrusiveList
  import opened RpcHistory

  type RpcRequest = Node<Request>

  /** What starting a connection meets: a resolved address, a buffer event, a timer, a socket. */
  datatype Link = Link(resolved: bool, bufferevent: bool, timer: bool, started: bool)

  /** What a broadcast meets before it connects. */
  datatype Setup = Setup(base: bool, client: bool, params: bool, body: bool, request: bool)

  datatype Reply =
    | Empty
    | Http(status: int, hasBody: bool, isError: bool, code: int)

  datatype Flags = Flags(connected: bool, eof: bool, timeout: bool, error: bool)

  /** What can happen to one request. */
  datatype Step =
    | Socket(flags: Flags, memory: bool, reply: Reply, cookie: bool, refreshed: bool, link: Link)
    | Read(memory: bool)
    | Expired
    | Withdrawn

  datatype Event =
    | Broadcast(callback: bool, setup: Setup, link: Link)
    | OnRequest(at: nat, step: Step)
    | EndAll

  /* ---------- what every event does ---------- */

  /** There is a request at a position, and its broadcast is pending. */
  ghost predicate WasPending(s: State, at: nat) {
    && at < |s.active| && s.active[at].id < |s.records|
    && s.records[s.active[at].id].phase == Pending
  }

  /** The request at a position ends with a status: its callback, if there is one, has been called with it, once. */
  ghost predicate Ends(before: State, at: nat, s: Status, connects: nat, after: State) {
    && WasPending(before, at)
    && var q := before.active[at];
       && after.active == RemoveAt(before.active, at)
       && after.records
          == before.records[q.id := Record(q.callback, Completed, if q.callback then [s] else [], connects)]
  }

  /** The request at a position stays, as `q`. */
  ghost predicate Stays(before: State, at: nat, q: Request, connects: nat, after: State) {
    && WasPending(before, at) && q.id == before.active[at].id
    && after.active == before.active[at := q]
    && after.records == before.records[q.id := Record(q.callback, Pending, [], connects)]
  }

  /** A status reports a reply. */
  ghost predicate Reports(s: Status, reply: Reply) {
    && (s == Success <==> reply.Http? && reply.status !in {401, 403} && reply.hasBody && !reply.isError)
    && (forall c :: s == NodeError(c) <==>
          reply.Http? && reply.status !in {401, 403} && reply.hasBody && reply.isError && reply.code == c)
    && (s == Malformed <==> reply.Http? && reply.status !in {401, 403} && !reply.hasBody)
    && (s == AuthFailed <==> reply.Http? && reply.status in {401, 403})
    && (s == ConnectFailed <==> reply == Empty)
  }

  /** The node has closed the connection. A refused cookie is refreshed and the connection made again, once; anything
      else ends the request with the status of the reply. */
  ghost predicate Replied(before: State, at: nat, reply: Reply, cookie: bool, refreshed: bool, link: Link, after: State)
  {
    && WasPending(before, at)
    && var q := before.active[at];
       var connects := before.records[q.id].connects;
       var again := reply.Http? && reply.status in {401, 403} && !q.authRetried && cookie && refreshed;
       if again && link.resolved && link.bufferevent && link.started then
         Stays(before, at, q.(authRetried := true, bufferevent := true, timer := link.timer), connects + 1, after)
       else exists s :: Reports(s, reply) && Ends(before, at, s, if again then connects + 1 else connects, after)
  }

  /** What a step does to the request at a position; of the flags of the socket the first one set decides. */
  ghost predicate Steps(before: State, at: nat, step: Step, after: State) {
    && WasPending(before, at)
    && var q := before.active[at];
       var connects := before.records[q.id].connects;
       match step
       case Socket(flags, memory, reply, cookie, refreshed, link) =>
         if flags.connected then if memory then after == before else Ends(before, at, OutOfMemory, connects, after)
         else if flags.eof then Replied(before, at, reply, cookie, refreshed, link, after)
         else if flags.timeout then Ends(before, at, TimedOut, connects, after)
         else if flags.error then Ends(before, at, ConnectFailed, connects, after)
         else after == before
       case Read(memory) => if memory then after == before else Ends(before, at, OutOfMemory, connects, after)
       case Expired => Ends(before, at, TimedOut, connects, after)
       case Withdrawn =>
         && after.active == RemoveAt(before.active, at)
         && after.records == before.records[q.id := Record(q.callback, Cancelled, [], connects)]
  }

  /** A broadcast is pending, or has failed at once and said so. */
  ghost predicate Broadcasts(before: State, callback: bool, setup: Setup, link: Link, after: State) {
    var ready := setup.base && setup.client && setup.params && setup.body && setup.request;
    var fired := if callback then [if setup.base && setup.client && !ready then OutOfMemory else ConnectFailed] else [];
    if ready && link.resolved && link.bufferevent && link.started then
      && after.records == before.records + [Record(callback, Pending, [], 1)]
      && after.active == [Request(|before.records|, callback, false, true, link.timer)] + before.active
    else
      && after.records == before.records + [Record(callback, Completed, fired, if ready then 1 else 0)]
      && after.active == before.active
  }

  /** Every pending request is cancelled and none is left. */
  ghost predicate CancelsAll(before: State, after: State) {
    && after.active == [] && |after.records| == |before.records|
    && forall id :: 0 <= id < |before.records| ==>
         after.records[id] == if before.records[id].phase == Pending then before.records[id].(phase := Cancelled)
                              else before.records[id]
  }

  /** What an event does; a request that is gone gets none. */
  ghost predicate Follows(before: State, e: Event, after: State) {
    match e
    case Broadcast(callback, setup, link) => Broadcasts(before, callback, setup, link, after)
    case OnRequest(at, step) => if at < |before.active| then Steps(before, at, step, after) else after == before
    case EndAll => CancelsAll(before, after)
  }

  /** `issued` numbers the broadcasts; the number stands for the data the caller hands over with its callback. */
  class RpcManager {
    const active: List<Request>
    var issued: nat
    ghost var history: seq<Record>

    ghost predicate Valid()
      reads this, active, active.nodes
    {
      active.Valid() && issued == |history| && Sound(history, active.Contents())
    }

    ghost function Now(): State
      reads this, active, active.nodes
    {
      State(history, active.Contents())
    }

    constructor ()
      ensures Valid() && Now() == State([], []) && fresh(active)
    {
      active := new List<Request>();
      issued, history := 0, [];
    }

    ghost function Linked(): set<RpcRequest>
      reads active
    {
      set n | n in active.nodes
    }

    /** `req` is the request at position `at`. */
    ghost predicate IsAt(req: RpcRequest, at: nat)
      reads active
    {
      at < |active.nodes| && active.nodes[at] == req
    }

    /** What is known of a request in the list. */
    lemma Known(req: RpcRequest, at: nat)
      requires Valid() && IsAt(req, at)
      ensures req in Linked() && at < |Now().active| && Now().active[at] == req.data
      ensures RequestOk(history, req.data) && RecordOk(history[req.data.id])
      ensures history[req.data.id]
              == Record(req.data.callback, Pending, [], history[req.data.id].connects)
    {
      hide Distinct, Ids;
    }

    /** Take a request out of the list and clear its links. */
    method Remove(req: RpcRequest, ghost at: nat)
      requires active.Valid() && IsAt(req, at)
      modifies active, active.nodes`next, active.nodes`prev
      ensures active.Valid() && active.nodes == RemoveAt(old(active.nodes), at) && req !in active.nodes
      ensures active.Contents() == RemoveAt(old(active.Contents()), at)
      ensures req.next == null && req.prev == null
    {
      ghost var k := active.Remove(req);
      assert k == at;
      hide Distinct;
      req.next := null;
      req.prev := null;
    }

    /** The caller's callback runs. */
    method Fire(id: nat, status: Status)
      requires id < |history|
      modifies `history
      ensures history == old(history)[id := old(history)[id].(fired := old(history)[id].fired + [status])]
    {
      history := history[id := history[id].(fired := history[id].fired + [status])];
    }

    /** Fire the callback if there is one; the request is gone afterwards. */
    method Complete(req: RpcRequest, status: Status, ghost at: nat)
      requires Valid() && IsAt(req, at)
      modifies this, active, Linked()`next, Linked()`prev
      ensures Valid() && Linked() == old(Linked()) - {req} && req.data.id < |old(history)|
      ensures Ends(old(Now()), at, status, old(history)[req.data.id].connects, Now())
    {
      hide Sound, List.Valid, List.Contents;
      Known(req, at);
      ghost var h, qs, id := history, active.Contents(), req.data.id;
      Remove(req, at);
      if req.data.callback {
        Fire(req.data.id, status);
      }
      history := history[id := history[id].(phase := Completed)];
      assert history[id] == Record(req.data.callback, Completed, if req.data.callback then [status] else [],
                                   h[id].connects);
      SoundFinish(h, qs, at, history[id]);
      assert history == h[id := history[id]];
    }

    /** Forget the callback and the request; nothing fires. */
    method Cancel(req: RpcRequest, ghost at: nat)
      requires Valid() && IsAt(req, at)
      modifies this, active, Linked()`next, Linked()`prev, req`data
      ensures Valid() && Linked() == old(Linked()) - {req} && |active.nodes| == |old(active.nodes)| - 1
      ensures Steps(old(Now()), at, Withdrawn, Now())
      ensures req.data == old(req.data).(callback := false)
    {
      hide Sound, List.Valid, List.Contents;
      Known(req, at);
      ghost var h, qs, id := history, active.Contents(), req.data.id;
      Remove(req, at);
      req.data := req.data.(callback := false);
      history := history[id := history[id].(phase := Cancelled)];
      SoundFinish(h, qs, at, history[id]);
    }

    /** Cancel from the head until nothing is left. */
    method CancelAll()
      requires Valid()
      modifies this, active, Linked()
      ensures Valid() && active.head == null && CancelsAll(old(Now()), Now()) && Linked() <= old(Linked())
    {
      hide Sound, List.Contents;
      while active.head != null
        invariant Valid() && |history| == |old(history)| && Linked() <= old(Linked())
        invariant forall id :: 0 <= id < |history| ==>
                    (history[id] == old(history)[id]
                    || (old(history)[id].phase == Pending && history[id] == old(history)[id].(phase := Cancelled)))
        decreases |active.nodes|
      {
        Known(active.head, 0);
        Cancel(active.head, 0);
      }
      NothingPending(history, active.Contents());
    }

    /** Change a request that stays active, and its record with it. */
    method Amend(req: RpcRequest, q: Request, ghost connects: nat, ghost at: nat)
      requires Valid() && IsAt(req, at) && q.id == req.data.id && q.callback == req.data.callback
      requires connects <= if q.authRetried then 2 else 1
      modifies `history, req`data
      ensures Valid() && req.data == q && Stays(old(Now()), at, q, connects, Now())
    {
      hide Sound;
      Known(req, at);
      ghost var qs := active.Contents();
      ghost var k := active.Update(req, q);
      assert k == at;
      hide List.Valid, List.Contents;
      ghost var r := Record(q.callback, Pending, [], connects);
      SoundUpdate(history, qs, at, q, r);
      history := history[q.id := r];
    }

    /** Start a connection for a request that has none. */
    method Connect(req: RpcRequest, link: Link, ghost at: nat) returns (ok: bool)
      requires Valid() && IsAt(req, at) && req.data.id < |history|
      requires history[req.data.id].connects + 1 <= if req.data.authRetried then 2 else 1
      requires !req.data.bufferevent && !req.data.timer
      modifies `history, req`data
      ensures Valid() && (ok <==> link.resolved && link.bufferevent && link.started)
      ensures req.data == old(req.data).(bufferevent := ok, timer := ok && link.timer)
      ensures Stays(old(Now()), at, req.data, old(history)[req.data.id].connects + 1, Now())
    {
      hide Sound, List.Valid, List.Contents;
      Known(req, at);
      ghost var connects := history[req.data.id].connects + 1;
      if !link.resolved {
        Amend(req, req.data, connects, at);
        return false;
      }
      if !link.bufferevent {
        Amend(req, req.data, connects, at);
        return false;
      }
      Amend(req, req.data.(bufferevent := true, timer := link.timer), connects, at);
      if !link.started {
        Amend(req, req.data.(bufferevent := false, timer := false), connects, at);
        return false;
      }
      return true;
    }

    /** The cookie was refused for the first time: refresh it and connect again. */
    method RetryAuth(req: RpcRequest, cookie: bool, refreshed: bool, link: Link, ghost at: nat)
      returns (retrying: bool)
      requires Valid() && IsAt(req, at) && !req.data.authRetried
      modifies `history, req`data
      ensures Valid() && (retrying <==> cookie && refreshed && link.resolved && link.bufferevent && link.started)
      ensures retrying ==> req.data == old(req.data).(authRetried := true, bufferevent := true, timer := link.timer)
      ensures req.data.callback == old(req.data).callback && req.data.id == old(req.data).id < |old(history)|
      ensures var connects := old(history)[req.data.id].connects;
              Stays(old(Now()), at, req.data, if cookie && refreshed then connects + 1 else connects, Now())
    {
      hide Sound, List.Valid, List.Contents;
      Known(req, at);
      ghost var was, connects := Now(), history[req.data.id].connects;
      StaysSame(was, at, connects);
      if cookie {
        Amend(req, req.data.(authRetried := true), connects, at);
        if refreshed {
          Amend(req, req.data.(bufferevent := false, timer := false), connects, at);
          retrying := Connect(req, link, at);
          return;
        }
      }
      retrying := false;
    }

    /** The node closed its side: read what it said, and try once more if it refused the cookie. */
    method ProcessResponse(req: RpcRequest, reply: Reply, cookie: bool, refreshed: bool, link: Link, ghost at: nat)
      requires Valid() && IsAt(req, at)
      modifies this, active, Linked()`next, Linked()`prev, req`data
      ensures Valid() && Linked() <= old(Linked()) && req.data.id < |history|
      ensures Replied(old(Now()), at, reply, cookie, refreshed, link, Now())
      ensures old(req.data).callback && history[req.data.id].phase == Completed ==>
                (history[req.data.id].fired == [Success] <==>
                 reply.Http? && reply.status != 401 && reply.status != 403 && reply.hasBody && !reply.isError)
      ensures old(req.data).callback && history[req.data.id].phase == Completed ==>
                forall c :: history[req.data.id].fired == [NodeError(c)] <==>
                  reply.Http? && reply.status != 401 && reply.status != 403 && reply.hasBody && reply.isError
                  && reply.code == c
    {
      hide Sound, List.Valid, List.Contents, Ends, Stays, Replied;
      Known(req, at);
      ghost var was, connects := Now(), history[req.data.id].connects;
      if reply == Empty {
        Complete(req, ConnectFailed, at);
        EndedIs(was, at, reply, cookie, refreshed, link, ConnectFailed, Now());
        return;
      }
      if (reply.status == 401 || reply.status == 403) && !req.data.authRetried {
        var retrying := RetryAuth(req, cookie, refreshed, link, at);
        if retrying {
          RetriedIs(was, at, reply, link, Now());
          return;
        }
        ghost var again := Now();
        Known(req, at);
        Complete(req, AuthFailed, at);
        StaysThenEnds(was, at, again, ConnectsAfter(was, at, reply, cookie, refreshed), AuthFailed, Now());
        EndedIs(was, at, reply, cookie, refreshed, link, AuthFailed, Now());
        return;
      }
      Conclude(req, reply, at);
      ghost var status :| Reports(status, reply) && Ends(was, at, status, connects, Now());
      EndedIs(was, at, reply, cookie, refreshed, link, status, Now());
    }

    /** A reply that is not retried ends its request. */
    method Conclude(req: RpcRequest, reply: Reply, ghost at: nat)
      requires Valid() && IsAt(req, at) && reply != Empty
      modifies this, active, Linked()`next, Linked()`prev
      ensures Valid() && Linked() <= old(Linked()) && req.data.id < |old(history)|
      ensures exists s :: Reports(s, reply) && Ends(old(Now()), at, s, old(history)[req.data.id].connects, Now())
    {
      hide Sound, List.Valid, List.Contents, Ends;
      Known(req, at);
      ghost var was, connects := Now(), history[req.data.id].connects;
      if reply.status == 401 || reply.status == 403 {
        Complete(req, AuthFailed, at);
        assert Reports(AuthFailed, reply) && Ends(was, at, AuthFailed, connects, Now());
        return;
      }
      if !reply.hasBody {
        Complete(req, Malformed, at);
        assert Reports(Malformed, reply) && Ends(was, at, Malformed, connects, Now());
        return;
      }
      var status := if reply.isError then NodeError(reply.code) else Success;
      Complete(req, status, at);
      assert Reports(status, reply) && Ends(was, at, status, connects, Now());
    }

    /** Ask the node to relay a transaction. Without a request to return, the callback has fired already. */
    method BroadcastAsync(callback: bool, setup: Setup, link: Link) returns (req: Node?<Request>)
      requires Valid()
      modifies this, active, Linked()`next, Linked()`prev
      ensures Valid() && Broadcasts(old(Now()), callback, setup, link, Now())
      ensures req == null ==> Linked() == old(Linked())
      ensures req != null ==> fresh(req) && IsAt(req, 0) && Linked() == old(Linked()) + {req}
      ensures req != null <==> setup.base && setup.client && setup.params && setup.body && setup.request
                               && link.resolved && link.bufferevent && link.started
    {
      hide Sound, List.Valid, List.Contents;
      if !setup.base {
        Refuse(callback, ConnectFailed);
        return null;
      }
      if !setup.client {
        Refuse(callback, ConnectFailed);
        return null;
      }
      if !setup.params || !setup.body || !setup.request {
        Refuse(callback, OutOfMemory);
        return null;
      }
      req := Start(callback, link);
    }

    /** Make the request and start its connection. */
    method Start(callback: bool, link: Link) returns (req: Node?<Request>)
      requires Valid()
      modifies this, active, Linked()`next, Linked()`prev
      ensures Valid() && Broadcasts(old(Now()), callback, Setup(true, true, true, true, true), link, Now())
      ensures req == null ==> Linked() == old(Linked())
      ensures req != null ==> fresh(req) && IsAt(req, 0) && Linked() == old(Linked()) + {req}
      ensures req != null <==> link.resolved && link.bufferevent && link.started
    {
      hide Sound, List.Valid, List.Contents;
      ghost var was := Now();
      var r := Add(callback);
      var ok := Connect(r, link, 0);
      ghost var connected := Now();
      AddedStays(was, callback, r.data, connected);
      if !ok {
        Complete(r, ConnectFailed, 0);
        AddedEnds(was, connected, Now());
        return null;
      }
      return r;
    }

    /** Fail a broadcast that has no request yet. */
    method Refuse(callback: bool, status: Status)
      requires Valid()
      modifies `history, `issued
      ensures Valid() && active.Contents() == old(active.Contents())
      ensures history == old(history) + [Record(callback, Completed, if callback then [status] else [], 0)]
    {
      hide List.Valid, List.Contents, Sound;
      ghost var h := history;
      ghost var r := Record(callback, Pending, [], 0);
      history := h + [r];
      if callback {
        Fire(issued, status);
      }
      history := history[issued := history[issued].(phase := Completed)];
      ghost var done := Record(callback, Completed, if callback then [status] else [], 0);
      assert history[|h|] == done;
      assert history == h + [done];
      SoundRefused(h, active.Contents(), done);
      issued := issued + 1;
    }

    /** A new request at the head of the list. */
    method Add(callback: bool) returns (req: RpcRequest)
      requires Valid()
      modifies this, active, Linked()`next, Linked()`prev
      ensures Valid() && fresh(req) && IsAt(req, 0) && Linked() == old(Linked()) + {req}
      ensures Now() == Added(old(Now()), callback, req.data)
      ensures req.data == Request(|old(history)|, callback, false, false, false)
    {
      hide Sound;
      SoundAdd(history, active.Contents(), callback);
      req := new Node(Request(issued, callback, false, false, false));
      active.PushFront(req);
      history := history + [Record(callback, Pending, [], 0)];
      issued := issued + 1;
    }

    /** The connection came up, ended, timed out or failed; the first flag set decides. */
    method EventCb(req: RpcRequest, flags: Flags, memory: bool, reply: Reply, cookie: bool, refreshed: bool, link: Link,
                   ghost at: nat)
      requires Valid() && IsAt(req, at)
      modifies this, active, Linked()`next, Linked()`prev, req`data
      ensures Valid() && Linked() <= old(Linked()) && req.data.id < |history|
      ensures Steps(old(Now()), at, Socket(flags, memory, reply, cookie, refreshed, link), Now())
      ensures flags.eof && !flags.connected && old(req.data).callback && history[req.data.id].phase == Completed ==>
                (history[req.data.id].fired == [Success] <==>
                 reply.Http? && reply.status != 401 && reply.status != 403 && reply.hasBody && !reply.isError)
      ensures flags.eof && !flags.connected && old(req.data).callback && history[req.data.id].phase == Completed ==>
                forall c :: history[req.data.id].fired == [NodeError(c)] <==>
                  reply.Http? && reply.status != 401 && reply.status != 403 && reply.hasBody && reply.isError
                  && reply.code == c
    {
      hide Sound, List.Valid, List.Contents, Replied;
      Known(req, at);
      if flags.connected {
        if !memory {
          Complete(req, OutOfMemory, at);
        }
        return;
      }
      if flags.eof {
        ProcessResponse(req, reply, cookie, refreshed, link, at);
        return;
      }
      if flags.timeout {
        Complete(req, TimedOut, at);
        return;
      }
      if flags.error {
        Complete(req, ConnectFailed, at);
        return;
      }
    }

    /** Bytes arrive; only running out of memory for them ends the request. */
    method ReadCb(req: RpcRequest, memory: bool, ghost at: nat)
      requires Valid() && IsAt(req, at)
      modifies this, active, Linked()`next, Linked()`prev
      ensures Valid() && Linked() <= old(Linked()) && Steps(old(Now()), at, Read(memory), Now())
    {
      hide Sound, List.Valid, List.Contents, Ends;
      Known(req, at);
      if !memory {
        Complete(req, OutOfMemory, at);
      }
    }

    method TimeoutCb(req: RpcRequest, ghost at: nat)
      requires Valid() && IsAt(req, at)
      modifies this, active, Linked()`next, Linked()`prev
      ensures Valid() && Linked() <= old(Linked()) && Steps(old(Now()), at, Step.Expired, Now())
      ensures req.data.id < |history| && (req.data.callback ==> history[req.data.id].fired == [TimedOut])
    {
      hide Sound, List.Valid, List.Contents;
      Known(req, at);
      Complete(req, TimedOut, at);
    }

    /** One event; a request that is gone gets none. */
    method Handle(e: Event)
      requires Valid()
      modifies this, active, Linked()
      ensures Valid() && Follows(old(Now()), e, Now()) && fresh(Linked() - old(Linked()))
      ensures Extends(old(history), history)
    {
      hide Sound, List.Contents, Broadcasts, Steps, CancelsAll;
      match e {
        case Broadcast(callback, setup, link) =>
          var _ := BroadcastAsync(callback, setup, link);
        case EndAll =>
          CancelAll();
        case OnRequest(at, step) =>
          var req := active.At(at);
          if req != null {
            HandleOn(req, step, at);
          }
      }
      FollowsExtends(old(Now()), e, Now());
    }

    method HandleOn(req: RpcRequest, step: Step, ghost at: nat)
      requires Valid() && IsAt(req, at)
      modifies this, active, Linked()
      ensures Valid() && Steps(old(Now()), at, step, Now()) && Linked() <= old(Linked())
      ensures step == Step.Expired ==>
                req.data.id < |history| && (req.data.callback ==> history[req.data.id].fired == [TimedOut])
    {
      hide Sound, List.Valid, List.Contents, Steps;
      Known(req, at);
      match step {
        case Socket(flags, memory, reply, cookie, refreshed, link) =>
          EventCb(req, flags, memory, reply, cookie, refreshed, link, at);
        case Read(memory) =>
          ReadCb(req, memory, at);
        case Expired =>
          TimeoutCb(req, at);
        case Withdrawn =>
          Cancel(req, at);
      }
    }

    /** Any run of events, in any order, with what there was before and after each of them. What is finished never
        changes again. */
    method Run(events: seq<Event>) returns (ghost trace: seq<State>)
      requires Valid()
      modifies this, active, Linked()
      ensures Valid() && Extends(old(history), history)
      ensures |trace| == |events| + 1 && trace[0] == old(Now()) && trace[|events|] == Now()
      ensures forall i :: 0 <= i < |events| ==> Follows(trace[i], events[i], trace[i + 1])
    {
      hide Sound, List.Valid, List.Contents, Linked, Follows;
      ghost var arrived: set<RpcRequest> := {};
      trace := [Now()];
      for i := 0 to |events|
        invariant Valid() && Extends(old(history), history)
        invariant |trace| == i + 1 && trace[0] == old(Now()) && trace[i] == Now()
        invariant forall j :: 0 <= j < i ==> Follows(trace[j], events[j], trace[j + 1])
        invariant fresh(arrived) && Linked() <= old(Linked()) + arrived
      {
        ghost var was := Linked();
        label L:
        Handle(events[i]);
        ghost var more := Linked() - was;
        assert forall n :: n in more ==> fresh@L(n);
        assert forall n :: n in more ==> fresh(n);
        arrived := arrived + more;
        trace := trace + [Now()];
      }
    }
  }

  /* ---------- putting steps together ---------- */

  /** A new request joins the others. */
  ghost function Added(before: State, callback: bool, q: Request): State {
    State(before.records + [Record(callback, Pending, [], 0)], [q] + before.active)
  }

  lemma AddedStays(before: State, callback: bool, q: Request, after: State)
    requires q.id == |before.records| && q.callback == callback
    requires exists p: Request :: p.id == q.id && Stays(Added(before, callback, p), 0, q, 1, after)
    ensures after == State(before.records + [Record(callback, Pending, [], 1)], [q] + before.active)
  {
    var p: Request :| p.id == q.id && Stays(Added(before, callback, p), 0, q, 1, after);
    assert ([p] + before.active)[0 := q] == [q] + before.active;
  }

  lemma StaysSame(s: State, at: nat, connects: nat)
    requires WasPending(s, at)
    requires s.records[s.active[at].id] == Record(s.active[at].callback, Pending, [], connects)
    ensures Stays(s, at, s.active[at], connects, s)
  {
    assert s.active[at := s.active[at]] == s.active;
    assert s.records[s.active[at].id := s.records[s.active[at].id]] == s.records;
  }

  lemma StaysThenEnds(s: State, at: nat, again: State, connects: nat, status: Status, after: State)
    requires at < |s.active| && at < |again.active| && again.active[at].id < |again.records|
    requires Stays(s, at, again.active[at], connects, again) && again.active[at].callback == s.active[at].callback
    requires Ends(again, at, status, again.records[again.active[at].id].connects, after)
    ensures Ends(s, at, status, connects, after)
  {
    assert RemoveAt(again.active, at) == RemoveAt(s.active, at);
  }

  /** The connects after a reply. */
  ghost function ConnectsAfter(s: State, at: nat, reply: Reply, cookie: bool, refreshed: bool): nat
    requires at < |s.active| && s.active[at].id < |s.records|
  {
    var again := reply.Http? && reply.status in {401, 403} && !s.active[at].authRetried && cookie && refreshed;
    s.records[s.active[at].id].connects + if again then 1 else 0
  }

  lemma EndedIs(s: State, at: nat, reply: Reply, cookie: bool, refreshed: bool, link: Link, status: Status,
                after: State)
    requires at < |s.active| && s.active[at].id < |s.records| && Reports(status, reply)
    requires Ends(s, at, status, ConnectsAfter(s, at, reply, cookie, refreshed), after)
    requires reply.Http? && reply.status in {401, 403} && !s.active[at].authRetried ==>
               !(cookie && refreshed && link.resolved && link.bufferevent && link.started)
    ensures Replied(s, at, reply, cookie, refreshed, link, after) && |after.records| == |s.records|
    ensures s.active[at].callback ==> after.records[s.active[at].id].fired == [status]
  {
  }

  lemma RetriedIs(s: State, at: nat, reply: Reply, link: Link, after: State)
    requires at < |s.active| && s.active[at].id < |s.records| && !s.active[at].authRetried
    requires reply.Http? && reply.status in {401, 403} && link.resolved && link.bufferevent && link.started
    requires Stays(s, at, s.active[at].(authRetried := true, bufferevent := true, timer := link.timer),
                   s.records[s.active[at].id].connects + 1, after)
    ensures Replied(s, at, reply, true, true, link, after)
    ensures |after.records| == |s.records| && after.records[s.active[at].id].phase == Pending
  {
  }

  lemma AddedEnds(before: State, connected: State, after: State)
    requires connected.active != [] && connected.active[0].id == |before.records| == |connected.records| - 1
    requires connected.records[..|before.records|] == before.records && connected.active[1..] == before.active
    requires Ends(connected, 0, ConnectFailed, 1, after)
    ensures var callback := connected.active[0].callback;
            after == State(before.records + [Record(callback, Completed, if callback then [ConnectFailed] else [], 1)],
                           before.active)
  {
  }

  lemma FollowsExtends(before: State, e: Event, after: State)
    requires Follows(before, e, after)
    ensures Extends(before.records, after.records)
  {
  }

  /* ---------- success over a run ---------- */

  /** The event is the end of a reply by which the node accepts the transaction of a broadcast. */
  ghost predicate Accepts(before: State, e: Event, id: nat) {
    && e.OnRequest? && e.at < |before.active| && before.active[e.at].id == id
    && e.step.Socket? && !e.step.flags.connected && e.step.flags.eof
    && var reply := e.step.reply;
       reply.Http? && reply.status != 401 && reply.status != 403 && reply.hasBody && !reply.isError
  }

  ghost predicate ToldSuccess(s: State, id: nat) {
    id < |s.records| && s.records[id].fired == [Success]
  }

  lemma ToldByReply(before: State, e: Event, after: State, id: nat)
    requires Follows(before, e, after) && ToldSuccess(after, id) && !ToldSuccess(before, id)
    ensures Accepts(before, e, id)
  {
  }

  /** Over every run, a caller is told of success only after a reply that accepts its own transaction. */
  lemma {:induction false} SuccessIsAccepted(trace: seq<State>, events: seq<Event>, id: nat)
    requires |trace| == |events| + 1 && trace[0] == State([], [])
    requires forall i :: 0 <= i < |events| ==> Follows(trace[i], events[i], trace[i + 1])
    requires ToldSuccess(trace[|events|], id)
    ensures exists i :: 0 <= i < |events| && Accepts(trace[i], events[i], id)
    decreases |events|
  {
    hide Follows, Accepts;
    var n := |events| - 1;
    assert n >= 0;
    if ToldSuccess(trace[n], id) {
      SuccessIsAccepted(trace[..n + 1], events[..n], id);
      var i :| 0 <= i < n && Accepts(trace[..n + 1][i], events[..n][i], id);
      assert Accepts(trace[i], events[i], id);
    } else {
      ToldByReply(trace[n], events[n], trace[n + 1], id);
    }
  }

  /** A manager from its start through any run of events. */
  method Lifetime(events: seq<Event>) returns (manager: RpcManager, ghost trace: seq<State>)
    ensures manager.active.Valid() && Distinct(Ids(manager.active.Contents()))
    ensures forall id :: 0 <= id < |manager.history| ==>
              (manager.history[id].phase == Pending <==> id in Ids(manager.active.Contents()))
    ensures forall r :: r in manager.history ==>
              (|r.fired| == if r.phase == Completed && r.wanted then 1 else 0) && r.connects <= 2
    ensures |trace| == |events| + 1 && trace[0] == State([], []) && trace[|events|] == manager.Now()
    ensures forall i :: 0 <= i < |events| ==> Follows(trace[i], events[i], trace[i + 1])
    ensures forall id :: 0 <= id < |manager.history| && manager.history[id].fired == [Success] ==>
              exists i :: 0 <= i < |events| && Accepts(trace[i], events[i], id)
  {
    hide Ids, Distinct, Follows, Accepts;
    manager := new RpcManager();
    trace := manager.Run(events);
    forall id | 0 <= id < |manager.history| && manager.history[id].fired == [Success]
      ensures exists i :: 0 <= i < |events| && Accepts(trace[i], events[i], id)
    {
      SuccessIsAccepted(trace, events, id);
    }
  }
}
