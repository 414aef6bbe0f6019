/** The tiered slot pool that connections and HTTP/2 streams share. */
module Slots {
  import opened IntrusiveList

  datatype Tier = Normal | Large | Huge {
    function Rank(): (r: nat) {
      match this
      case Normal => 0
      case Large => 1
      case Huge => 2
    }
  }

  datatype Thresholds = Thresholds(large: nat, huge: nat)

  function SizeToTier(size: nat, limits: Thresholds): Tier {
    if size >= limits.huge then Huge else if size >= limits.large then Large else Normal
  }

  /** One number for each tier. */
  datatype Counts = Counts(normal: int, large: int, huge: int) {
    function At(t: Tier): int {
      match t
      case Normal => normal
      case Large => large
      case Huge => huge
    }

    function Plus(other: Counts): Counts {
      Counts(normal + other.normal, large + other.large, huge + other.huge)
    }

    function Minus(other: Counts): Counts {
      Counts(normal - other.normal, large - other.large, huge - other.huge)
    }
  }

  const NONE := Counts(0, 0, 0)

  function One(t: Tier): Counts {
    match t
    case Normal => Counts(1, 0, 0)
    case Large => Counts(0, 1, 0)
    case Huge => Counts(0, 0, 1)
  }

  function OneIf(b: bool, t: Tier): Counts {
    if b then One(t) else NONE
  }

  /** `underflows` counts the releases that found their counter at zero. */
  class SlotManager {
    var normal: int
    var large: int
    var huge: int
    const normalMax: int
    const largeMax: int
    const hugeMax: int
    ghost var underflows: nat

    constructor (normalMax: int, largeMax: int, hugeMax: int)
      ensures Current() == NONE && Max() == Counts(normalMax, largeMax, hugeMax) && underflows == 0
    {
      normal, large, huge := 0, 0, 0;
      this.normalMax, this.largeMax, this.hugeMax := normalMax, largeMax, hugeMax;
      underflows := 0;
    }

    function Current(): Counts
      reads this
    {
      Counts(normal, large, huge)
    }

    function Max(): Counts {
      Counts(normalMax, largeMax, hugeMax)
    }

    method Acquire(t: Tier) returns (ok: bool)
      modifies `normal, `large, `huge
      ensures ok <==> old(Current()).At(t) < Max().At(t)
      ensures Current() == old(Current()).Plus(OneIf(ok, t))
    {
      match t
      case Normal =>
        if normal >= normalMax {
          return false;
        }
        normal := normal + 1;
        return true;
      case Large =>
        if large >= largeMax {
          return false;
        }
        large := large + 1;
        return true;
      case Huge =>
        if huge >= hugeMax {
          return false;
        }
        huge := huge + 1;
        return true;
    }

    method Release(t: Tier)
      modifies this
      ensures Current() == old(Current()).Minus(OneIf(old(Current()).At(t) > 0, t))
      ensures underflows == old(underflows) + if old(Current()).At(t) > 0 then 0 else 1
    {
      underflows := underflows + if Current().At(t) > 0 then 0 else 1;
      match t
      case Normal =>
        if normal > 0 {
          normal := normal - 1;
        }
      case Large =>
        if large > 0 {
          large := large - 1;
        }
      case Huge =>
        if huge > 0 {
          huge := huge - 1;
        }
    }

    /** Swap a slot for one of a higher tier; on failure nothing changes. */
    method Promote(from: Tier, to: Tier) returns (ok: bool)
      modifies this
      ensures ok <==> from == to || (from.Rank() < to.Rank() && old(Current()).At(to) < Max().At(to))
      ensures !ok || from == to ==> Current() == old(Current()) && underflows == old(underflows)
      ensures ok && from != to ==>
                && Current() == old(Current()).Plus(One(to)).Minus(OneIf(old(Current()).At(from) > 0, from))
                && underflows == old(underflows) + if old(Current()).At(from) > 0 then 0 else 1
    {
      if from == to {
        return true;
      }
      if to.Rank() < from.Rank() {
        return false;
      }
      ok := Acquire(to);
      if !ok {
        return;
      }
      Release(from);
    }

    /** Give an expensive slot back and take a normal one, or the same again when there is none. `held` is
        false exactly when both tiers are full after the release, which cannot happen to a slot that was held. */
    method TradeDown(from: Tier) returns (to: Tier, held: bool)
      requires from != Normal
      modifies this
      ensures to == AfterDowngrade(from, old(Current()), Max())
      ensures 0 < old(Current()).At(from) <= Max().At(from) ==> held && underflows == old(underflows)
      ensures 0 < old(Current()).At(from) <= Max().At(from) ==>
                Current() == if to == Normal then old(Current()).Plus(One(Normal)).Minus(One(from)) else old(Current())
      ensures var released := old(Current()).Minus(OneIf(old(Current()).At(from) > 0, from));
              && (held <==> to == Normal || released.At(from) < Max().At(from))
              && Current() == released.Plus(OneIf(held, to))
      ensures underflows == old(underflows) + if old(Current()).At(from) > 0 then 0 else 1
    {
      Release(from);
      held := Acquire(Normal);
      if held {
        return Normal, true;
      }
      held := Acquire(from);
      to := from;
    }
  }

  /** The tier a downgrade leaves: normal when it is that already or there is room for it. */
  function AfterDowngrade(tier: Tier, counts: Counts, max: Counts): Tier {
    if counts.normal < max.normal then Normal else tier
  }

  datatype Stream = Stream(id: int, tier: Tier, held: bool)

  datatype Conn = Conn(tier: Tier, held: bool, streams: seq<Stream>)

  /** Where the first stream with an identifier is; the length when there is none. */
  function FirstStream(ss: seq<Stream>, id: int): (j: nat)
    ensures j <= |ss| && (j < |ss| ==> ss[j].id == id)
    ensures forall i :: 0 <= i < j ==> ss[i].id != id
  {
    if ss == [] || ss[0].id == id then 0 else 1 + FirstStream(ss[1..], id)
  }

  function StreamLoad(ss: seq<Stream>): Counts {
    if ss == [] then NONE else OneIf(ss[0].held, ss[0].tier).Plus(StreamLoad(ss[1..]))
  }

  /** The slots a connection and its streams hold. */
  function ConnLoad(c: Conn): Counts {
    OneIf(c.held, c.tier).Plus(StreamLoad(c.streams))
  }

  function Load(cs: seq<Conn>): Counts {
    if cs == [] then NONE else ConnLoad(cs[0]).Plus(Load(cs[1..]))
  }

  /** No counter is above its maximum; one whose maximum is not positive stays at zero. */
  predicate WithinMax(counts: Counts, max: Counts) {
    Fits(counts.normal, max.normal) && Fits(counts.large, max.large) && Fits(counts.huge, max.huge)
  }

  predicate Fits(count: int, max: int) {
    count == 0 || 0 < count <= max
  }

  predicate StreamsHeld(c: Conn) {
    forall i :: 0 <= i < |c.streams| ==> c.streams[i].held
  }

  /** The counters are exactly what the connections and streams hold, and within the maxima; every stream
      holds its slot. */
  predicate Balanced(counts: Counts, max: Counts, cs: seq<Conn>) {
    && counts == Load(cs) && WithinMax(counts, max)
    && (forall i :: 0 <= i < |cs| ==> StreamsHeld(cs[i]))
  }

  lemma PlusSwap(a: Counts, b: Counts, c: Counts)
    ensures a.Plus(b.Plus(c)) == b.Plus(a.Plus(c))
  {
  }

  lemma {:induction false} StreamLoadAt(ss: seq<Stream>, j: nat)
    requires j < |ss|
    ensures StreamLoad(ss) == OneIf(ss[j].held, ss[j].tier).Plus(StreamLoad(RemoveAt(ss, j)))
  {
    hide Counts.Plus, OneIf, One;
    if j == 0 {
      assert RemoveAt(ss, 0) == ss[1..];
    } else {
      StreamLoadAt(ss[1..], j - 1);
      var rest := RemoveAt(ss, j);
      assert rest[1..] == RemoveAt(ss[1..], j - 1);
      PlusSwap(OneIf(ss[0].held, ss[0].tier), OneIf(ss[j].held, ss[j].tier), StreamLoad(rest[1..]));
    }
  }

  lemma {:induction false} LoadAt(cs: seq<Conn>, k: nat)
    requires k < |cs|
    ensures Load(cs) == ConnLoad(cs[k]).Plus(Load(RemoveAt(cs, k)))
  {
    hide Counts.Plus, ConnLoad;
    if k == 0 {
      assert RemoveAt(cs, 0) == cs[1..];
    } else {
      LoadAt(cs[1..], k - 1);
      var rest := RemoveAt(cs, k);
      assert rest[1..] == RemoveAt(cs[1..], k - 1);
      PlusSwap(ConnLoad(cs[0]), ConnLoad(cs[k]), Load(rest[1..]));
    }
  }

  lemma {:induction false} StreamLoadPositive(ss: seq<Stream>, t: Tier)
    ensures StreamLoad(ss).At(t) >= 0
  {
    if ss != [] {
      StreamLoadPositive(ss[1..], t);
    }
  }

  lemma {:induction false} LoadPositive(cs: seq<Conn>, t: Tier)
    ensures Load(cs).At(t) >= 0
  {
    if cs != [] {
      StreamLoadPositive(cs[0].streams, t);
      LoadPositive(cs[1..], t);
    }
  }

  lemma PlusCancels(a: Counts, b: Counts, c: Counts)
    requires a.Plus(b) == a.Plus(c)
    ensures b == c
  {
  }

  lemma PlusMinus(a: Counts, b: Counts)
    ensures a.Plus(b).Minus(a) == b
  {
  }

  lemma MinusNone(a: Counts)
    ensures a.Minus(NONE) == a
  {
  }

  /** Taking and giving back a slot within the maxima. */
  lemma OneMore(counts: Counts, max: Counts, t: Tier)
    requires WithinMax(counts, max) && counts.At(t) < max.At(t)
    ensures WithinMax(counts.Plus(One(t)), max)
  {
  }

  lemma OneLess(counts: Counts, max: Counts, t: Tier)
    requires WithinMax(counts, max) && counts.At(t) > 0
    ensures WithinMax(counts.Minus(One(t)), max)
    ensures counts.Minus(One(t)).At(t) < max.At(t)
  {
  }

  /** Any change of one connection that the counters follow keeps the balance. */
  lemma BalancedUpdate(counts: Counts, after: Counts, max: Counts, cs: seq<Conn>, k: nat, c: Conn)
    requires Balanced(counts, max, cs) && k < |cs| && StreamsHeld(c) && WithinMax(after, max)
    requires ConnLoad(c).Plus(counts) == ConnLoad(cs[k]).Plus(after)
    ensures Balanced(after, max, cs[k := c])
  {
    hide Counts.Plus, ConnLoad, WithinMax, StreamsHeld, Load;
    LoadAt(cs, k);
    LoadAt(cs[k := c], k);
    var rest := RemoveAt(cs, k);
    assert RemoveAt(cs[k := c], k) == rest;
    PlusSwap(ConnLoad(c), ConnLoad(cs[k]), Load(rest));
    PlusCancels(ConnLoad(cs[k]), after, ConnLoad(c).Plus(Load(rest)));
  }

  lemma StreamHolds(c: Conn, j: nat)
    requires StreamsHeld(c) && j < |c.streams|
    ensures ConnLoad(c).At(c.streams[j].tier) > 0
  {
    hide StreamLoad;
    StreamLoadAt(c.streams, j);
    StreamLoadPositive(RemoveAt(c.streams, j), c.streams[j].tier);
  }

  lemma ConnHolds(c: Conn)
    requires c.held
    ensures ConnLoad(c).At(c.tier) > 0
  {
    hide StreamLoad;
    StreamLoadPositive(c.streams, c.tier);
  }

  /** A counter is positive for every slot held. */
  lemma HeldPositive(counts: Counts, max: Counts, cs: seq<Conn>, k: nat, t: Tier)
    requires Balanced(counts, max, cs) && k < |cs| && ConnLoad(cs[k]).At(t) > 0
    ensures counts.At(t) > 0
  {
    hide ConnLoad, StreamsHeld, Load;
    LoadAt(cs, k);
    LoadPositive(RemoveAt(cs, k), t);
  }

  lemma BalancedHeld(counts: Counts, max: Counts, cs: seq<Conn>, k: nat)
    requires Balanced(counts, max, cs) && k < |cs|
    ensures StreamsHeld(cs[k])
  {
  }

  /** Moving a connection to the front keeps the balance. */
  lemma BalancedFront(counts: Counts, max: Counts, cs: seq<Conn>, k: nat)
    requires Balanced(counts, max, cs) && k < |cs|
    ensures Balanced(counts, max, [cs[k]] + RemoveAt(cs, k))
  {
    hide Load, ConnLoad, WithinMax, StreamsHeld, Counts.Plus;
    LoadAt(cs, k);
    PushLoad(cs[k], RemoveAt(cs, k));
  }

  lemma PushLoad(c: Conn, cs: seq<Conn>)
    ensures Load([c] + cs) == ConnLoad(c).Plus(Load(cs))
    ensures c.streams == [] ==> ConnLoad(c) == OneIf(c.held, c.tier)
  {
  }

  lemma PlusNone(a: Counts)
    ensures a.Plus(NONE) == a == NONE.Plus(a)
  {
  }

  /** A new connection takes the normal slot acquired for it. */
  lemma BalancedPush(counts: Counts, max: Counts, cs: seq<Conn>)
    requires Balanced(counts, max, cs) && counts.normal < max.normal
    ensures Balanced(counts.Plus(One(Normal)), max, [Conn(Normal, true, [])] + cs)
  {
    hide Load, ConnLoad, StreamLoad;
    var c := Conn(Normal, true, []);
    OneMore(counts, max, Normal);
    PushLoad(c, cs);
    assert One(Normal).Plus(counts) == counts.Plus(One(Normal));
  }

  /** The slot of a connection without streams is all it gives back. */
  lemma BalancedPop(counts: Counts, max: Counts, c: Conn, cs: seq<Conn>)
    requires Balanced(counts, max, [c] + cs) && c.streams == []
    ensures c.held ==> counts.At(c.tier) > 0
    ensures Balanced(counts.Minus(OneIf(c.held, c.tier)), max, cs)
  {
    hide Load, ConnLoad, StreamLoad;
    var more := [c] + cs;
    assert more[0] == c;
    assert forall i :: 0 <= i < |cs| ==> cs[i] == more[i + 1];
    PushLoad(c, cs);
    if c.held {
      ConnHolds(c);
      HeldPositive(counts, max, more, 0, c.tier);
      OneLess(counts, max, c.tier);
    }
    PlusMinus(OneIf(c.held, c.tier), Load(cs));
    MinusNone(counts);
  }

  /** A connection that loses its slot. */
  lemma BalancedLose(counts: Counts, max: Counts, cs: seq<Conn>, k: nat)
    requires Balanced(counts, max, cs) && k < |cs| && cs[k].held
    ensures counts.At(cs[k].tier) > 0
    ensures Balanced(counts.Minus(One(cs[k].tier)), max, cs[k := cs[k].(tier := Normal, held := false)])
  {
    var c, d := cs[k], cs[k].(tier := Normal, held := false);
    ConnHolds(c);
    HeldPositive(counts, max, cs, k, c.tier);
    OneLess(counts, max, c.tier);
    hide StreamLoad, Load;
    ShiftLoad(NONE, StreamLoad(c.streams), counts, c.tier);
    PlusNone(StreamLoad(c.streams));
    PlusNone(One(c.tier).Plus(StreamLoad(c.streams)));
    hide WithinMax, Balanced, Counts.Minus, One;
    BalancedUpdate(counts, counts.Minus(One(c.tier)), max, cs, k, d);
  }

  /** Swapping a connection's slot for one of another tier. */
  lemma BalancedRetier(counts: Counts, max: Counts, cs: seq<Conn>, k: nat, to: Tier)
    requires Balanced(counts, max, cs) && k < |cs| && cs[k].held && cs[k].tier != to && counts.At(to) < max.At(to)
    ensures counts.At(cs[k].tier) > 0
    ensures Balanced(counts.Plus(One(to)).Minus(One(cs[k].tier)), max, cs[k := cs[k].(tier := to)])
  {
    var c, d := cs[k], cs[k].(tier := to);
    ConnHolds(c);
    HeldPositive(counts, max, cs, k, c.tier);
    SwapFits(counts, max, c.tier, to);
    SwapLoad(StreamLoad(c.streams), counts, c.tier, to);
    hide WithinMax, Balanced, Counts.Plus, Counts.Minus, One;
    BalancedUpdate(counts, counts.Plus(One(to)).Minus(One(c.tier)), max, cs, k, d);
  }

  /** Swapping the slot of a stream for one of another tier. */
  lemma BalancedStreamRetier(counts: Counts, max: Counts, cs: seq<Conn>, k: nat, j: nat, to: Tier)
    requires Balanced(counts, max, cs) && k < |cs| && j < |cs[k].streams|
    requires cs[k].streams[j].tier != to && counts.At(to) < max.At(to)
    ensures counts.At(cs[k].streams[j].tier) > 0
    ensures Balanced(counts.Plus(One(to)).Minus(One(cs[k].streams[j].tier)), max, cs[k := Retiered(cs[k], j, to)])
  {
    var c, d, from := cs[k], Retiered(cs[k], j, to), cs[k].streams[j].tier;
    assert StreamsHeld(c) && StreamsHeld(d);
    StreamHolds(c, j);
    HeldPositive(counts, max, cs, k, from);
    SwapFits(counts, max, from, to);
    RetieredLoad(c, j, to, counts);
    hide WithinMax, Balanced, Counts.Plus, Counts.Minus, One, Retiered, StreamsHeld, ConnLoad;
    BalancedUpdate(counts, counts.Plus(One(to)).Minus(One(from)), max, cs, k, d);
  }

  function Retiered(c: Conn, j: nat, to: Tier): Conn
    requires j < |c.streams|
  {
    c.(streams := c.streams[j := c.streams[j].(tier := to)])
  }

  lemma RetieredLoad(c: Conn, j: nat, to: Tier, counts: Counts)
    requires j < |c.streams| && StreamsHeld(c)
    ensures ConnLoad(Retiered(c, j, to)).Plus(counts)
            == ConnLoad(c).Plus(counts.Plus(One(to)).Minus(One(c.streams[j].tier)))
  {
    var ss, rest := Retiered(c, j, to).streams, RemoveAt(c.streams, j);
    hide StreamLoad;
    StreamLoadAt(c.streams, j);
    StreamLoadAt(ss, j);
    assert RemoveAt(ss, j) == rest;
    SwapStreamLoad(OneIf(c.held, c.tier), StreamLoad(rest), counts, c.streams[j].tier, to);
  }

  lemma SwapStreamLoad(own: Counts, rest: Counts, counts: Counts, from: Tier, to: Tier)
    ensures own.Plus(One(to).Plus(rest)).Plus(counts)
            == own.Plus(One(from).Plus(rest)).Plus(counts.Plus(One(to)).Minus(One(from)))
  {
  }

  /** A new stream takes the normal slot acquired for it. */
  lemma BalancedOpen(counts: Counts, max: Counts, cs: seq<Conn>, k: nat, id: int)
    requires Balanced(counts, max, cs) && k < |cs| && counts.normal < max.normal
    ensures Balanced(counts.Plus(One(Normal)), max, cs[k := Opened(cs[k], id)])
  {
    hide StreamLoad, Load, ConnLoad;
    var c, d := cs[k], Opened(cs[k], id);
    assert StreamsHeld(c) && StreamsHeld(d);
    OneMore(counts, max, Normal);
    OpenedLoad(c, id, counts);
    hide WithinMax, Balanced, Counts.Plus, One, Opened, StreamsHeld;
    BalancedUpdate(counts, counts.Plus(One(Normal)), max, cs, k, d);
  }

  lemma OpenedLoad(c: Conn, id: int, counts: Counts)
    ensures ConnLoad(Opened(c, id)).Plus(counts) == ConnLoad(c).Plus(counts.Plus(One(Normal)))
  {
    hide StreamLoad;
    var ss := Opened(c, id).streams;
    assert RemoveAt(ss, 0) == c.streams;
    StreamLoadAt(ss, 0);
    ShiftLoad(OneIf(c.held, c.tier), StreamLoad(c.streams), counts, Normal);
  }

  lemma ShiftLoad(own: Counts, rest: Counts, counts: Counts, t: Tier)
    ensures own.Plus(One(t).Plus(rest)).Plus(counts) == own.Plus(rest).Plus(counts.Plus(One(t)))
    ensures own.Plus(rest).Plus(counts) == own.Plus(One(t).Plus(rest)).Plus(counts.Minus(One(t)))
  {
  }

  function Opened(c: Conn, id: int): Conn {
    c.(streams := [Stream(id, Normal, true)] + c.streams)
  }

  /** The slot of a stream goes back when it closes. */
  lemma BalancedClose(counts: Counts, max: Counts, cs: seq<Conn>, k: nat, j: nat)
    requires Balanced(counts, max, cs) && k < |cs| && j < |cs[k].streams|
    ensures counts.At(cs[k].streams[j].tier) > 0
    ensures Balanced(counts.Minus(One(cs[k].streams[j].tier)), max, cs[k := Closed(cs[k], j)])
  {
    hide StreamLoad, Load, ConnLoad;
    var c, d, t := cs[k], Closed(cs[k], j), cs[k].streams[j].tier;
    assert StreamsHeld(c) && StreamsHeld(d);
    StreamHolds(c, j);
    HeldPositive(counts, max, cs, k, t);
    OneLess(counts, max, t);
    ClosedLoad(c, j, counts);
    hide WithinMax, Balanced, Counts.Plus, One, Closed, StreamsHeld;
    BalancedUpdate(counts, counts.Minus(One(t)), max, cs, k, d);
  }

  lemma ClosedLoad(c: Conn, j: nat, counts: Counts)
    requires j < |c.streams| && StreamsHeld(c)
    ensures ConnLoad(Closed(c, j)).Plus(counts) == ConnLoad(c).Plus(counts.Minus(One(c.streams[j].tier)))
  {
    hide StreamLoad;
    StreamLoadAt(c.streams, j);
    ShiftLoad(OneIf(c.held, c.tier), StreamLoad(RemoveAt(c.streams, j)), counts, c.streams[j].tier);
  }

  function Closed(c: Conn, j: nat): Conn
    requires j < |c.streams|
  {
    c.(streams := RemoveAt(c.streams, j))
  }

  /** A held slot can be released without underflow, and taken again. */
  lemma BalancedRoom(counts: Counts, max: Counts, cs: seq<Conn>, k: nat, t: Tier)
    requires Balanced(counts, max, cs) && k < |cs|
    requires (cs[k].held && t == cs[k].tier) || exists j :: 0 <= j < |cs[k].streams| && cs[k].streams[j].tier == t
    ensures 0 < counts.At(t) <= max.At(t)
  {
    hide Load, ConnLoad;
    if cs[k].held && t == cs[k].tier {
      ConnHolds(cs[k]);
    } else {
      var j :| 0 <= j < |cs[k].streams| && cs[k].streams[j].tier == t;
      StreamHolds(cs[k], j);
    }
    HeldPositive(counts, max, cs, k, t);
  }

  lemma NormalPositive(counts: Counts, max: Counts, cs: seq<Conn>)
    requires Balanced(counts, max, cs)
    ensures counts.normal >= 0
  {
  }

  lemma SwapFits(counts: Counts, max: Counts, from: Tier, to: Tier)
    requires WithinMax(counts, max) && from != to && counts.At(from) > 0 && counts.At(to) < max.At(to)
    ensures WithinMax(counts.Plus(One(to)).Minus(One(from)), max)
  {
  }

  lemma SwapLoad(rest: Counts, counts: Counts, from: Tier, to: Tier)
    ensures One(to).Plus(rest).Plus(counts) == One(from).Plus(rest).Plus(counts.Plus(One(to)).Minus(One(from)))
  {
  }

  function StreamHolders(ss: seq<Stream>): seq<Tier> {
    if ss == [] then [] else (if ss[0].held then [ss[0].tier] else []) + StreamHolders(ss[1..])
  }

  /** The tier of every slot held, connection by connection. */
  function Holders(cs: seq<Conn>): seq<Tier> {
    if cs == [] then []
    else (if cs[0].held then [cs[0].tier] else []) + StreamHolders(cs[0].streams) + Holders(cs[1..])
  }

  lemma {:induction false} StreamLoadCounts(ss: seq<Stream>, t: Tier)
    ensures StreamLoad(ss).At(t) == multiset(StreamHolders(ss))[t]
  {
    if ss != [] {
      StreamLoadCounts(ss[1..], t);
    }
  }

  /** The load of a tier is how many hold a slot of it. */
  lemma {:induction false} LoadCounts(cs: seq<Conn>, t: Tier)
    ensures Load(cs).At(t) == multiset(Holders(cs))[t]
  {
    if cs != [] {
      StreamLoadCounts(cs[0].streams, t);
      LoadCounts(cs[1..], t);
      hide StreamLoad, StreamHolders, Holders;
      assert multiset(Holders(cs))[t] == (if cs[0].held && cs[0].tier == t then 1 else 0)
              + multiset(StreamHolders(cs[0].streams))[t] + multiset(Holders(cs[1..]))[t];
    }
  }

  function StreamTotal(cs: seq<Conn>): nat {
    if cs == [] then 0 else |cs[0].streams| + StreamTotal(cs[1..])
  }

  lemma {:induction false} StreamLoadTotal(ss: seq<Stream>)
    requires forall i :: 0 <= i < |ss| ==> ss[i].held
    ensures Sum(StreamLoad(ss)) == |ss|
  {
    if ss != [] {
      StreamLoadTotal(ss[1..]);
    }
  }

  function Sum(counts: Counts): int {
    counts.normal + counts.large + counts.huge
  }

  lemma {:induction false} LoadTotal(cs: seq<Conn>)
    requires forall i :: 0 <= i < |cs| ==> cs[i].held && StreamsHeld(cs[i])
    ensures Sum(Load(cs)) == |cs| + StreamTotal(cs)
  {
    if cs != [] {
      StreamLoadTotal(cs[0].streams);
      LoadTotal(cs[1..]);
    }
  }

  function Capacity(max: Counts): nat {
    NonNegative(max.normal) + NonNegative(max.large) + NonNegative(max.huge)
  }

  function NonNegative(x: int): nat {
    if x < 0 then 0 else x
  }

  /** What the balance means: each counter is the number of holders of its tier, and when every connection
      holds its slot the connections and streams together never outnumber the slots there are. */
  lemma Conservation(counts: Counts, max: Counts, cs: seq<Conn>, t: Tier)
    requires Balanced(counts, max, cs)
    ensures counts.At(t) == multiset(Holders(cs))[t] <= if max.At(t) < 0 then 0 else max.At(t)
    ensures (forall i :: 0 <= i < |cs| ==> cs[i].held) ==> |cs| + StreamTotal(cs) == Sum(counts) <= Capacity(max)
  {
    hide Load, Holders, StreamTotal, Sum, Capacity, StreamsHeld;
    LoadCounts(cs, t);
    BoundAt(counts, max, t);
    BoundAll(counts, max);
    if forall i :: 0 <= i < |cs| ==> cs[i].held {
      LoadTotal(cs);
    }
  }

  lemma BoundAt(counts: Counts, max: Counts, t: Tier)
    requires WithinMax(counts, max)
    ensures counts.At(t) <= NonNegative(max.At(t))
  {
  }

  lemma BoundAll(counts: Counts, max: Counts)
    requires WithinMax(counts, max)
    ensures Sum(counts) <= Capacity(max)
  {
  }
}
