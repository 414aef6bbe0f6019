/** A worker between two callbacks: its connections, their HTTP/2 streams, the slots they hold, and the drain. */
module Worker {
  import opened Wrappers
  import opened IntrusiveList
  import opened Slots

  type Connection = Node<Conn>

  datatype Verdict = Blocked | Allowlisted | RateLimited | WithinRate

  datatype ConnState = Reading | WritingResponse | Closing

  /** What can happen on one connection. */
  datatype Step =
    | Grows(size: nat)
    | Received
    | Written(drained: bool, state: ConnState, keepAlive: bool)
    | Failed
    | Opens(id: int, memory: bool)
    | Path(id: int, hexOk: bool, size: nat)
    | StreamReceived(id: int)
    | Closes(id: int)

  datatype Event =
    | Accept(verdict: Verdict, created: bool)
    | TlsAccept(verdict: Verdict, ssl: bool, bufferevent: bool, created: bool)
    | Signal
    | OnConnection(at: nat, step: Step)

  /* ---------- what every callback does ---------- */

  /** What there is between two callbacks: the connections, newest first, the slots in use, and the drain. */
  datatype Snapshot = Snapshot(conns: seq<Conn>, counts: Counts, draining: bool, exiting: bool)

  /** A holder of a slot of one tier needs one for a size: it moves up if there is room, and stays otherwise. */
  ghost predicate MovesUp(size: nat, limits: Thresholds, counts: Counts, max: Counts, tier: Tier, after: Tier) {
    if size >= limits.huge then after == if counts.huge < max.huge then Huge else tier
    else if size >= limits.large && tier == Normal then after == if counts.large < max.large then Large else Normal
    else after == tier
  }

  /** A slot of a tier is enough for a size. */
  ghost predicate Suffices(tier: Tier, size: nat, limits: Thresholds) {
    && (size >= limits.huge ==> tier == Huge)
    && (size >= limits.large ==> tier != Normal)
  }

  /** A holder gives up a slot it needs no longer for a normal one, if there is room. */
  ghost predicate MovesDown(counts: Counts, max: Counts, tier: Tier, after: Tier) {
    after == if counts.normal < max.normal then Normal else tier
  }

  /** What a step does to its connection: what it is afterwards, or nothing if it is gone. */
  ghost predicate StepOk(limits: Thresholds, counts: Counts, max: Counts, c: Conn, step: Step, after: Option<Conn>) {
    match step
    case Grows(size) =>
      && after.Some? && after.value == c.(tier := after.value.tier)
      && MovesUp(size, limits, counts, max, c.tier, after.value.tier)
    case Received =>
      && after.Some? && after.value == c.(tier := after.value.tier)
      && MovesDown(counts, max, c.tier, after.value.tier)
    case Written(drained, state, keepAlive) =>
      if !drained || state == Reading || (state == WritingResponse && !keepAlive) then after == Some(c)
      else if state == Closing || (c.tier != Normal && counts.normal >= max.normal) then after == None
      else after == Some(c.(tier := Normal))
    case Failed => after == None
    case Opens(id, memory) =>
      after == Some(if memory && counts.normal < max.normal
                    then c.(streams := [Stream(id, Normal, true)] + c.streams) else c)
    case Path(id, hexOk, size) =>
      var j := FirstStream(c.streams, id);
      && after.Some?
      && if j == |c.streams| || !hexOk then after.value == c
         else
           && OnlyTierOf(c, j, after.value)
           && MovesUp(size, limits, counts, max, c.streams[j].tier, after.value.streams[j].tier)
    case StreamReceived(id) =>
      var j := FirstStream(c.streams, id);
      && after.Some?
      && if j == |c.streams| then after.value == c
         else OnlyTierOf(c, j, after.value) && MovesDown(counts, max, c.streams[j].tier, after.value.streams[j].tier)
    case Closes(id) =>
      var j := FirstStream(c.streams, id);
      after == Some(if j == |c.streams| then c else c.(streams := c.streams[..j] + c.streams[j + 1..]))
  }

  /** Of a connection at most the tier of one stream has changed. */
  ghost predicate OnlyTierOf(c: Conn, j: nat, after: Conn) {
    && j < |c.streams| == |after.streams|
    && after == c.(streams := c.streams[j := c.streams[j].(tier := after.streams[j].tier)])
  }

  /** What an event does; a connection already freed gets no callback. */
  ghost predicate Follows(limits: Thresholds, max: Counts, before: Snapshot, e: Event, after: Snapshot) {
    && after.draining == (before.draining || e == Signal)
    && after.exiting == (after.draining && after.conns == [])
    && match e
       case Accept(verdict, created) =>
         after.conns == if created && Admits(before, max, verdict) then [Conn(Normal, true, [])] + before.conns
                        else before.conns
       case TlsAccept(verdict, ssl, bufferevent, created) =>
         after.conns == if ssl && bufferevent && created && Admits(before, max, verdict)
                        then [Conn(Normal, true, [])] + before.conns
                        else before.conns
       case Signal => after.conns == before.conns
       case OnConnection(at, step) =>
         if at >= |before.conns| then after.conns == before.conns
         else exists c :: StepOk(limits, before.counts, max, before.conns[at], step, c)
                          && after.conns == Replaced(before.conns, at, c)
  }

  /** A connection is let in: no drain, no verdict against it, and a normal slot left. */
  ghost predicate Admits(s: Snapshot, max: Counts, verdict: Verdict) {
    !s.draining && verdict != Blocked && verdict != RateLimited && s.counts.normal < max.normal
  }

  ghost function Replaced(cs: seq<Conn>, at: nat, c: Option<Conn>): seq<Conn>
    requires at < |cs|
  {
    if c.Some? then cs[at := c.value] else cs[..at] + cs[at + 1..]
  }

  class WorkerProcess {
    const slots: SlotManager
    const connections: List<Conn>
    const limits: Thresholds
    const hasListener: bool
    const hasTlsListener: bool
    var activeConnections: int
    var draining: bool
    var listenerDisabled: bool
    var tlsListenerDisabled: bool
    var exitRequested: bool

    ghost function Linked(): set<Connection>
      reads connections
    {
      set n | n in connections.nodes
    }

    ghost function Conns(): (cs: seq<Conn>)
      reads connections, Linked()
      ensures |cs| == |connections.nodes|
    {
      connections.Contents()
    }

    /** The counters are what the listed connections hold and one more that is on its way out. */
    ghost predicate Accounts(leaving: seq<Conn>)
      reads slots, connections, Linked()
    {
      connections.Valid() && slots.underflows == 0 && Balanced(slots.Current(), slots.Max(), leaving + Conns())
    }

    /** Every connection, but for the one given, holds a slot. */
    ghost predicate AllHeld(but: Node?<Conn>)
      reads connections, Linked()
    {
      forall n :: n in connections.nodes && n != but ==> n.data.held
    }

    ghost predicate DrainFollows()
      reads this, connections
    {
      && activeConnections == |connections.nodes|
      && (exitRequested <==> draining && connections.nodes == [])
      && listenerDisabled == (draining && hasListener) && tlsListenerDisabled == (draining && hasTlsListener)
    }

    /** What holds between any two callbacks. */
    ghost predicate Valid()
      reads this, slots, connections, Linked()
    {
      Accounts([]) && AllHeld(null) && DrainFollows()
    }

    ghost function Now(): Snapshot
      reads this, slots, connections, Linked()
    {
      Snapshot(Conns(), slots.Current(), draining, exitRequested)
    }

    /** `conn` is the connection at position `at`. */
    ghost predicate IsAt(conn: Connection, at: nat)
      reads connections
    {
      at < |connections.nodes| && connections.nodes[at] == conn
    }

    constructor (limits: Thresholds, normalMax: int, largeMax: int, hugeMax: int, listener: bool, tlsListener: bool)
      ensures Valid() && connections.nodes == [] && !draining
      ensures Now() == Snapshot([], Counts(0, 0, 0), false, false)
      ensures this.limits == limits && hasListener == listener && hasTlsListener == tlsListener
      ensures slots.Max() == Counts(normalMax, largeMax, hugeMax) && fresh(slots) && fresh(connections)
    {
      slots := new SlotManager(normalMax, largeMax, hugeMax);
      connections := new List<Conn>();
      this.limits := limits;
      hasListener, hasTlsListener := listener, tlsListener;
      activeConnections := 0;
      draining, listenerDisabled, tlsListenerDisabled, exitRequested := false, false, false, false;
    }

    method CheckDrain()
      modifies `listenerDisabled, `tlsListenerDisabled, `exitRequested
      ensures !draining ==> unchanged(this)
      ensures draining ==> listenerDisabled == (old(listenerDisabled) || hasListener)
      ensures draining ==> tlsListenerDisabled == (old(tlsListenerDisabled) || hasTlsListener)
      ensures draining ==> exitRequested == (old(exitRequested) || activeConnections == 0)
    {
      if !draining {
        return;
      }
      if !listenerDisabled && hasListener {
        listenerDisabled := true;
      }
      if !tlsListenerDisabled && hasTlsListener {
        tlsListenerDisabled := true;
      }
      if activeConnections == 0 {
        exitRequested := true;
      }
    }

    method SignalCb()
      requires Valid()
      modifies this
      ensures Valid() && draining && Conns() == old(Conns())
    {
      hide Balanced;
      draining := true;
      CheckDrain();
    }

    /** Link a new connection whose slot has been acquired. */
    method Attach()
      requires Accounts([Conn(Normal, true, [])]) && AllHeld(null)
      modifies connections, Linked()`prev
      ensures Accounts([]) && AllHeld(null) && Conns() == [Conn(Normal, true, [])] + old(Conns())
      ensures |connections.nodes| == |old(connections.nodes)| + 1
      ensures fresh(Linked() - old(Linked()))
    {
      hide Balanced;
      var conn := new Node(Conn(Normal, true, []));
      connections.PushFront(conn);
      hide List.Valid, List.Contents;
      assert [] + Conns() == Conns();
    }

    /** Take a normal slot for a new connection; give it back when the connection cannot be made. */
    method AcceptCb(verdict: Verdict, created: bool) returns (accepted: bool)
      requires Valid()
      modifies `activeConnections, slots, connections, Linked()
      ensures Valid()
      ensures accepted <==> (!draining && created && verdict != Blocked && verdict != RateLimited
                             && old(slots.Current()).normal < slots.Max().normal)
      ensures Conns() == (if accepted then [Conn(Normal, true, [])] else []) + old(Conns())
      ensures fresh(Linked() - old(Linked()))
    {
      hide Accounts, List.Contents, List.Valid;
      ghost var cs := Conns();
      assert [] + cs == cs;
      accepted := false;
      if draining || verdict == Blocked || verdict == RateLimited {
        return;
      }
      var ok := AcquireNormal();
      if !ok {
        return;
      }
      activeConnections := activeConnections + 1;
      if !created {
        activeConnections := activeConnections - 1;
        ReleaseNormal();
        return;
      }
      Attach();
      accepted := true;
    }

    /** The TLS listener: the same, with more that can fail before there is a connection. */
    method TlsAcceptCb(verdict: Verdict, ssl: bool, bufferevent: bool, created: bool) returns (accepted: bool)
      requires Valid()
      modifies `activeConnections, slots, connections, Linked()
      ensures Valid()
      ensures accepted <==> (!draining && ssl && bufferevent && created && verdict != Blocked
                             && verdict != RateLimited && old(slots.Current()).normal < slots.Max().normal)
      ensures Conns() == (if accepted then [Conn(Normal, true, [])] else []) + old(Conns())
      ensures fresh(Linked() - old(Linked()))
    {
      hide Accounts, List.Contents, List.Valid;
      ghost var cs := Conns();
      assert [] + cs == cs;
      accepted := false;
      if draining || verdict == Blocked || verdict == RateLimited {
        return;
      }
      var ok := AcquireNormal();
      if !ok {
        return;
      }
      activeConnections := activeConnections + 1;
      if !ssl {
        activeConnections := activeConnections - 1;
        ReleaseNormal();
        return;
      }
      if !bufferevent {
        activeConnections := activeConnections - 1;
        ReleaseNormal();
        return;
      }
      if !created {
        activeConnections := activeConnections - 1;
        ReleaseNormal();
        return;
      }
      Attach();
      accepted := true;
    }

    method AcquireNormal() returns (ok: bool)
      requires Accounts([])
      modifies slots
      ensures ok <==> old(slots.Current()).normal < slots.Max().normal
      ensures Accounts(if ok then [Conn(Normal, true, [])] else [])
    {
      hide Balanced, List.Valid, List.Contents;
      ghost var was := slots.Current();
      assert [] + Conns() == Conns();
      ok := slots.Acquire(Normal);
      if ok {
        BalancedPush(was, slots.Max(), Conns());
      } else {
        assert slots.Current() == was;
      }
    }

    method ReleaseNormal()
      requires Accounts([Conn(Normal, true, [])])
      modifies slots
      ensures Accounts([])
    {
      hide Balanced, List.Valid, List.Contents;
      BalancedPop(slots.Current(), slots.Max(), Conn(Normal, true, []), Conns());
      slots.Release(Normal);
      assert [] + Conns() == Conns();
    }

    /** Let go of every stream of a connection that has left the list. */
    method FreeStreams(conn: Connection)
      requires conn !in connections.nodes && Accounts([conn.data])
      modifies slots, conn`data
      ensures conn.data == old(conn.data).(streams := []) && Accounts([conn.data])
    {
      hide Balanced;
      while conn.data.streams != []
        invariant conn.data == old(conn.data).(streams := conn.data.streams)
        invariant Accounts([conn.data])
        decreases |conn.data.streams|
      {
        ghost var all := [conn.data] + Conns();
        var stream := conn.data.streams[0];
        assert RemoveAt(conn.data.streams, 0) == conn.data.streams[1..];
        BalancedHeld(slots.Current(), slots.Max(), all, 0);
        BalancedClose(slots.Current(), slots.Max(), all, 0, 0);
        if stream.held {
          slots.Release(stream.tier);
        }
        conn.data := conn.data.(streams := conn.data.streams[1..]);
        assert [conn.data] + Conns() == all[0 := Closed(all[0], 0)];
      }
    }

    /** Take a connection out of the list; it still holds its slots. */
    method Detach(conn: Connection, ghost at: nat)
      requires Accounts([]) && AllHeld(conn) && IsAt(conn, at)
      modifies connections, Linked()`next, Linked()`prev
      ensures Accounts([conn.data]) && AllHeld(null) && conn !in connections.nodes
      ensures connections.nodes == RemoveAt(old(connections.nodes), at) && Conns() == RemoveAt(old(Conns()), at)
    {
      hide Balanced;
      ghost var cs := Conns();
      assert [] + cs == cs;
      ghost var k := connections.Remove(conn);
      assert k == at;
      hide List.Valid;
      assert conn.data == cs[at];
      BalancedFront(slots.Current(), slots.Max(), cs, at);
    }

    /** Let go of the slot of a connection that has left the list and has no streams. */
    method ReleaseOwn(conn: Connection)
      requires conn !in connections.nodes && conn.data.streams == [] && Accounts([conn.data])
      modifies slots, conn`data
      ensures Accounts([]) && conn.data == old(conn.data).(held := false)
    {
      hide Balanced;
      BalancedHeld(slots.Current(), slots.Max(), [conn.data] + Conns(), 0);
      BalancedPop(slots.Current(), slots.Max(), conn.data, Conns());
      if conn.data.held {
        slots.Release(conn.data.tier);
        conn.data := conn.data.(held := false);
      }
      assert [] + Conns() == Conns();
    }

    /** Take a connection out of the list with all its slots. */
    method Depart(conn: Connection, ghost at: nat)
      requires Accounts([]) && AllHeld(conn) && IsAt(conn, at)
      modifies slots, connections, Linked()`next, Linked()`prev, conn`data
      ensures Accounts([]) && AllHeld(null)
      ensures connections.nodes == RemoveAt(old(connections.nodes), at) && Conns() == RemoveAt(old(Conns()), at)
    {
      hide Balanced, List.Valid, List.Contents;
      Detach(conn, at);
      FreeStreams(conn);
      ReleaseOwn(conn);
    }

    method ConnectionFree(conn: Connection, ghost at: nat)
      requires Accounts([]) && AllHeld(conn) && DrainFollows() && IsAt(conn, at)
      modifies `activeConnections, `listenerDisabled, `tlsListenerDisabled, `exitRequested
      modifies slots, connections, Linked()`next, Linked()`prev, conn`data
      ensures Valid()
      ensures connections.nodes == RemoveAt(old(connections.nodes), at) && Conns() == RemoveAt(old(Conns()), at)
    {
      hide Balanced, List.Valid, List.Contents;
      Depart(conn, at);
      activeConnections := activeConnections - 1;
      CheckDrain();
    }

    /** Record in a connection what the slots have already been moved for. */
    method Record(conn: Connection, c: Conn, ghost at: nat)
      requires connections.Valid() && slots.underflows == 0 && DrainFollows() && AllHeld(conn) && IsAt(conn, at)
      requires Balanced(slots.Current(), slots.Max(), Conns()[at := c])
      modifies conn`data
      ensures conn.data == c && Accounts([]) && AllHeld(conn) && Conns() == old(Conns())[at := c]
      ensures c.held ==> Valid()
    {
      hide Balanced;
      ghost var cs := Conns();
      ghost var k := connections.Update(conn, c);
      assert k == at;
      assert [] + Conns() == cs[at := c];
    }

    /** What is known of a connection in the list. */
    lemma Known(conn: Connection, at: nat)
      requires Valid() && IsAt(conn, at)
      ensures conn in Linked() && Conns()[at] == conn.data && Conns()[at := conn.data] == Conns()
      ensures Balanced(slots.Current(), slots.Max(), Conns()) && slots.underflows == 0 && conn.data.held
    {
      hide Balanced;
      assert [] + Conns() == Conns();
    }

    /** Move a connection to the tier its size asks for; when there is no room it keeps the slot it has. */
    method TryPromote(conn: Connection, size: nat, ghost at: nat) returns (ok: bool)
      requires Valid() && IsAt(conn, at)
      modifies slots, conn`data
      ensures Valid() && Conns() == old(Conns())[at := conn.data]
      ensures conn.data == old(conn.data).(tier := conn.data.tier)
      ensures MovesUp(size, limits, old(slots.Current()), slots.Max(), old(conn.data).tier, conn.data.tier)
      ensures ok <==> Suffices(conn.data.tier, size, limits)
    {
      hide Balanced, List.Valid, List.Contents;
      Known(conn, at);
      var required := SizeToTier(size, limits);
      if conn.data.tier.Rank() >= required.Rank() {
        return true;
      }
      ghost var cs, was := Conns(), slots.Current();
      ok := slots.Promote(conn.data.tier, required);
      if !ok {
        return;
      }
      BalancedRetier(was, slots.Max(), cs, at, required);
      Record(conn, conn.data.(tier := required), at);
    }

    /** Trade an expensive slot for a normal one if there is one; either way the connection keeps a slot. */
    method Downgrade(conn: Connection, ghost at: nat)
      requires Valid() && IsAt(conn, at)
      modifies slots, conn`data
      ensures Valid() && Conns() == old(Conns())[at := conn.data]
      ensures conn.data == old(conn.data).(tier := conn.data.tier)
      ensures MovesDown(old(slots.Current()), slots.Max(), old(conn.data).tier, conn.data.tier)
    {
      hide Balanced, List.Valid, List.Contents;
      Known(conn, at);
      if !conn.data.held || conn.data.tier == Normal {
        return;
      }
      ghost var cs, was := Conns(), slots.Current();
      BalancedRoom(was, slots.Max(), cs, at, cs[at].tier);
      if was.normal < slots.Max().normal {
        BalancedRetier(was, slots.Max(), cs, at, Normal);
      }
      var tier, held := slots.TradeDown(conn.data.tier);
      assert tier != Normal ==> cs[at := cs[at].(tier := tier)] == cs;
      Record(conn, conn.data.(tier := tier, held := held), at);
    }

    /** Go back to a normal slot for the next request, or to none when there is no room. */
    method ResetForKeepalive(conn: Connection, ghost at: nat)
      requires Valid() && IsAt(conn, at)
      modifies slots, conn`data
      ensures Accounts([]) && AllHeld(conn) && Conns() == old(Conns())[at := conn.data]
      ensures conn.data == old(conn.data).(tier := Normal,
                held := old(conn.data).tier == Normal || old(slots.Current()).normal < slots.Max().normal)
    {
      hide Balanced, List.Valid, List.Contents;
      Known(conn, at);
      if conn.data.held && conn.data.tier != Normal {
        ghost var cs, was := Conns(), slots.Current();
        BalancedRoom(was, slots.Max(), cs, at, cs[at].tier);
        slots.Release(conn.data.tier);
        var ok := slots.Acquire(Normal);
        if ok {
          BalancedRetier(was, slots.Max(), cs, at, Normal);
        } else {
          BalancedLose(was, slots.Max(), cs, at);
          assert slots.Current() == was.Minus(One(cs[at].tier));
        }
        Record(conn, conn.data.(tier := Normal, held := ok), at);
      }
    }

    /** The output is drained: close, or go on with the next request if its slot can be had. */
    method WriteCb(conn: Connection, drained: bool, state: ConnState, keepAlive: bool, ghost at: nat)
      returns (freed: bool)
      requires Valid() && IsAt(conn, at)
      modifies `activeConnections, `listenerDisabled, `tlsListenerDisabled, `exitRequested
      modifies slots, connections, Linked()`next, Linked()`prev, conn`data
      ensures Valid()
      ensures freed <==> (drained && (state == Closing || (state == WritingResponse && keepAlive
                && old(conn.data).tier != Normal && old(slots.Current()).normal >= slots.Max().normal)))
      ensures !freed ==> connections.nodes == old(connections.nodes) && Conns() == old(Conns())[at := conn.data]
      ensures !freed ==> conn.data == if drained && state == WritingResponse && keepAlive
                                      then old(conn.data).(tier := Normal) else old(conn.data)
      ensures freed ==> connections.nodes == RemoveAt(old(connections.nodes), at)
      ensures freed ==> Conns() == RemoveAt(old(Conns()), at)
    {
      hide Balanced, List.Valid, List.Contents;
      Known(conn, at);
      freed := false;
      if !drained {
        return;
      }
      if state == Closing {
        ConnectionFree(conn, at);
        return true;
      }
      if state == WritingResponse && keepAlive {
        ghost var cs := Conns();
        ResetForKeepalive(conn, at);
        if !conn.data.held {
          assert RemoveAt(Conns(), at) == RemoveAt(cs, at);
          ConnectionFree(conn, at);
          return true;
        }
      }
    }

    /** A request opens a stream: it takes a normal slot, or is refused. */
    method BeginHeaders(conn: Connection, id: int, memory: bool, ghost at: nat) returns (started: bool)
      requires Valid() && IsAt(conn, at)
      modifies slots, conn`data
      ensures Valid() && Conns() == old(Conns())[at := conn.data]
      ensures started <==> memory && old(slots.Current()).normal < slots.Max().normal
      ensures var c := old(conn.data);
              conn.data == if started then c.(streams := [Stream(id, Normal, true)] + c.streams) else c
    {
      hide Balanced, List.Valid, List.Contents;
      ghost var cs, was := Conns(), slots.Current();
      Known(conn, at);
      started := slots.Acquire(Normal);
      if !started {
        assert slots.Current() == was;
        return;
      }
      BalancedOpen(was, slots.Max(), cs, at, id);
      if !memory {
        NormalPositive(was, slots.Max(), cs);
        slots.Release(Normal);
        assert slots.Current() == was;
        return false;
      }
      Record(conn, conn.data.(streams := [Stream(id, Normal, true)] + conn.data.streams), at);
    }

    method FindStream(conn: Connection, id: int) returns (j: nat)
      ensures j == FirstStream(conn.data.streams, id)
    {
      j := 0;
      while j < |conn.data.streams| && conn.data.streams[j].id != id
        invariant j <= FirstStream(conn.data.streams, id)
      {
        j := j + 1;
      }
    }

    /** The path of a stream asks for a tier; when there is no room the stream keeps the slot it has. */
    method PathHeader(conn: Connection, id: int, hexOk: bool, size: nat, ghost at: nat) returns (refused: bool)
      requires Valid() && IsAt(conn, at)
      modifies slots, conn`data
      ensures Valid() && Conns() == old(Conns())[at := conn.data]
      ensures var c, j := old(conn.data), FirstStream(old(conn.data).streams, id);
              if j == |c.streams| then conn.data == c && !refused
              else if !hexOk then conn.data == c && refused
              else
                && OnlyTierOf(c, j, conn.data)
                && MovesUp(size, limits, old(slots.Current()), slots.Max(), c.streams[j].tier,
                           conn.data.streams[j].tier)
                && (refused <==> !Suffices(conn.data.streams[j].tier, size, limits))
    {
      hide Balanced, List.Valid, List.Contents;
      ghost var cs, was := Conns(), slots.Current();
      Known(conn, at);
      var j := FindStream(conn, id);
      if j == |conn.data.streams| {
        return false;
      }
      if !hexOk {
        return true;
      }
      var required := SizeToTier(size, limits);
      if required.Rank() > conn.data.streams[j].tier.Rank() {
        var ok := slots.Promote(conn.data.streams[j].tier, required);
        if !ok {
          return true;
        }
        BalancedStreamRetier(was, slots.Max(), cs, at, j, required);
        Record(conn, Retiered(conn.data, j, required), at);
      }
      refused := false;
    }

    /** The request of a stream is complete: trade its slot down; either way the stream keeps one. */
    method DowngradeStream(conn: Connection, j: nat, ghost at: nat)
      requires Valid() && IsAt(conn, at) && j < |conn.data.streams|
      modifies slots, conn`data
      ensures Valid() && Conns() == old(Conns())[at := conn.data]
      ensures OnlyTierOf(old(conn.data), j, conn.data)
      ensures MovesDown(old(slots.Current()), slots.Max(), old(conn.data).streams[j].tier, conn.data.streams[j].tier)
    {
      hide Balanced, List.Valid, List.Contents;
      var stream := conn.data.streams[j];
      ghost var cs, was := Conns(), slots.Current();
      Known(conn, at);
      BalancedHeld(was, slots.Max(), cs, at);
      if !stream.held || stream.tier == Normal {
        return;
      }
      BalancedRoom(was, slots.Max(), cs, at, stream.tier);
      if was.normal < slots.Max().normal {
        BalancedStreamRetier(was, slots.Max(), cs, at, j, Normal);
      }
      var tier, held := slots.TradeDown(stream.tier);
      ghost var same := cs[at].streams[j := stream.(tier := tier)];
      assert tier != Normal ==> same == cs[at].streams && cs[at := cs[at].(streams := same)] == cs;
      Record(conn, conn.data.(streams := conn.data.streams[j := stream.(tier := tier, held := held)]), at);
    }

    /** A stream closes and gives its slot back. */
    method StreamClose(conn: Connection, id: int, ghost at: nat)
      requires Valid() && IsAt(conn, at)
      modifies slots, conn`data
      ensures Valid() && Conns() == old(Conns())[at := conn.data]
      ensures var c, j := old(conn.data), FirstStream(old(conn.data).streams, id);
              conn.data == if j < |c.streams| then c.(streams := c.streams[..j] + c.streams[j + 1..]) else c
    {
      hide Balanced, List.Valid, List.Contents;
      Known(conn, at);
      var j := FindStream(conn, id);
      if j == |conn.data.streams| {
        return;
      }
      ghost var cs, was := Conns(), slots.Current();
      BalancedHeld(was, slots.Max(), cs, at);
      BalancedClose(was, slots.Max(), cs, at, j);
      if conn.data.streams[j].held {
        slots.Release(conn.data.streams[j].tier);
      }
      Record(conn, Closed(conn.data, j), at);
    }

    /** One callback on whichever connection it concerns; a connection already freed gets no callback. */
    method Handle(e: Event)
      requires Valid()
      modifies this, slots, connections, Linked()
      ensures Valid() && Follows(limits, slots.Max(), old(Now()), e, Now())
      ensures draining ==> |connections.nodes| <= |old(connections.nodes)|
      ensures old(exitRequested) ==> exitRequested
      ensures fresh(Linked() - old(Linked()))
    {
      hide Balanced, AllHeld, List.Contents, StepOk;
      match e {
        case Accept(verdict, created) =>
          var _ := AcceptCb(verdict, created);
        case TlsAccept(verdict, ssl, bufferevent, created) =>
          var _ := TlsAcceptCb(verdict, ssl, bufferevent, created);
        case Signal =>
          SignalCb();
        case OnConnection(at, step) =>
          var conn := connections.At(at);
          if conn != null {
            Known(conn, at);
            ghost var before := Now();
            ghost var c := HandleOn(conn, step, at);
            assert StepOk(limits, before.counts, slots.Max(), before.conns[at], step, c);
          }
      }
    }

    /** A callback on a connection itself, or on one of its streams. */
    method HandleOn(conn: Connection, step: Step, ghost at: nat) returns (ghost c: Option<Conn>)
      requires Valid() && IsAt(conn, at)
      modifies this, slots, connections, Linked()
      ensures Valid() && draining == old(draining) && |connections.nodes| <= |old(connections.nodes)|
      ensures Linked() <= old(Linked())
      ensures StepOk(limits, old(slots.Current()), slots.Max(), old(conn.data), step, c)
      ensures Conns() == Replaced(old(Conns()), at, c)
      ensures step == Failed ==> c == None && |connections.nodes| == |old(connections.nodes)| - 1
    {
      hide Accounts, List.Contents, List.Valid, MovesUp, MovesDown, OnlyTierOf, FirstStream, Suffices;
      Known(conn, at);
      match step {
        case Grows(size) =>
          var _ := TryPromote(conn, size, at);
          c := Some(conn.data);
        case Received =>
          Downgrade(conn, at);
          c := Some(conn.data);
        case Written(drained, state, keepAlive) =>
          var freed := WriteCb(conn, drained, state, keepAlive, at);
          c := if freed then None else Some(conn.data);
        case Failed =>
          ConnectionFree(conn, at);
          c := None;
        case _ =>
          HandleStream(conn, step, at);
          c := Some(conn.data);
      }
    }

    method HandleStream(conn: Connection, step: Step, ghost at: nat)
      requires Valid() && IsAt(conn, at) && (step.Opens? || step.Path? || step.StreamReceived? || step.Closes?)
      modifies slots, conn`data
      ensures Valid() && Conns() == old(Conns())[at := conn.data]
      ensures StepOk(limits, old(slots.Current()), slots.Max(), old(conn.data), step, Some(conn.data))
    {
      hide Accounts, List.Contents, List.Valid, MovesUp, MovesDown, OnlyTierOf, FirstStream, Suffices, AllHeld,
           DrainFollows;
      Known(conn, at);
      match step {
        case Opens(id, memory) =>
          var _ := BeginHeaders(conn, id, memory, at);
        case Path(id, hexOk, size) =>
          var _ := PathHeader(conn, id, hexOk, size, at);
        case StreamReceived(id) =>
          var j := FindStream(conn, id);
          if j < |conn.data.streams| {
            DowngradeStream(conn, j, at);
          }
        case Closes(id) =>
          StreamClose(conn, id, at);
      }
    }

    /** Any run of callbacks, in any order, with what there was before and after each of them. */
    method Run(events: seq<Event>) returns (ghost trace: seq<Snapshot>)
      requires Valid()
      modifies this, slots, connections, Linked()
      ensures Valid() && draining == (old(draining) || Signal in events)
      ensures old(draining) ==> |connections.nodes| <= |old(connections.nodes)|
      ensures old(exitRequested) ==> exitRequested
      ensures |trace| == |events| + 1 && trace[0] == old(Now()) && trace[|events|] == Now()
      ensures forall i :: 0 <= i < |events| ==> Follows(limits, slots.Max(), trace[i], events[i], trace[i + 1])
    {
      hide Accounts, AllHeld, DrainFollows, Linked, Conns, Follows;
      ghost var arrived: set<Connection> := {};
      trace := [Now()];
      for i := 0 to |events|
        invariant Valid() && draining == (old(draining) || Signal in events[..i])
        invariant old(draining) ==> |connections.nodes| <= |old(connections.nodes)|
        invariant old(exitRequested) ==> exitRequested
        invariant |trace| == i + 1 && trace[0] == old(Now()) && trace[i] == Now()
        invariant forall j :: 0 <= j < i ==> Follows(limits, slots.Max(), trace[j], events[j], trace[j + 1])
        invariant fresh(arrived) && Linked() <= old(Linked()) + arrived
      {
        ghost var was := Linked();
        label L:
        Handle(events[i]);
        FollowsDrains(limits, slots.Max(), trace[i], events[i], Now());
        ghost var more := Linked() - was;
        assert forall n :: n in more ==> fresh@L(n);
        assert forall n :: n in more ==> fresh(n);
        arrived := arrived + more;
        trace := trace + [Now()];
        assert events[..i + 1] == events[..i] + [events[i]];
      }
      assert events[..|events|] == events;
    }
  }

  lemma FollowsDrains(limits: Thresholds, max: Counts, before: Snapshot, e: Event, after: Snapshot)
    requires Follows(limits, max, before, e, after)
    ensures after.draining == (before.draining || e == Signal)
  {
  }

  /** A worker from its start through any run of callbacks. */
  method Lifetime(limits: Thresholds, max: Counts, listener: bool, tlsListener: bool, events: seq<Event>)
    returns (worker: WorkerProcess, ghost trace: seq<Snapshot>)
    ensures worker.connections.Valid() && worker.slots.Max() == max && worker.slots.underflows == 0
    ensures forall t: Tier ::
              worker.slots.Current().At(t) == multiset(Holders(worker.Conns()))[t]
                <= if max.At(t) < 0 then 0 else max.At(t)
    ensures |worker.Conns()| + StreamTotal(worker.Conns()) == Sum(worker.slots.Current()) <= Capacity(max)
    ensures worker.activeConnections == |worker.connections.nodes|
    ensures worker.draining <==> Signal in events
    ensures worker.exitRequested <==> worker.draining && worker.connections.nodes == []
    ensures worker.listenerDisabled == (worker.draining && listener)
    ensures worker.tlsListenerDisabled == (worker.draining && tlsListener)
    ensures |trace| == |events| + 1 && trace[0] == Snapshot([], Counts(0, 0, 0), false, false)
    ensures trace[|events|] == worker.Now()
    ensures forall i :: 0 <= i < |events| ==> Follows(limits, max, trace[i], events[i], trace[i + 1])
  {
    hide Balanced, Follows, Load, Holders, StreamTotal, List.Valid, Capacity;
    worker := new WorkerProcess(limits, max.normal, max.large, max.huge, listener, tlsListener);
    trace := worker.Run(events);
    ghost var cs := worker.Conns();
    assert [] + cs == cs;
    forall t: Tier
      ensures worker.slots.Current().At(t) == multiset(Holders(cs))[t] <= if max.At(t) < 0 then 0 else max.At(t)
    {
      Conservation(worker.slots.Current(), max, cs, t);
    }
    forall i | 0 <= i < |cs|
      ensures cs[i].held
    {
      assert cs[i] == worker.connections.nodes[i].data;
    }
    Conservation(worker.slots.Current(), max, cs, Normal);
  }
}
