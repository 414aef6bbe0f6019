/** The rate limiter's table as a map from address to bucket: what a sequence of arrivals and
    periodic sweeps does to it, and what evicting an entry can change.

    Entries are stamped from the monotonic clock but expire against the wall clock, so an event
    carries both readings and nothing relates them. */
module RateTable {
  import opened TokenBucket

  const MAX_ENTRIES := 10000
  const ENTRY_TTL := 60

  type Table<!K> = map<K, Entry>

  predicate Expired(e: Entry, wall: int) {
    e.lastRequest < wall - ENTRY_TTL
  }

  /** The table without its expired entries. */
  function Sweep<K>(m: Table<K>, wall: int): Table<K> {
    map k | k in m && !Expired(m[k], wall) :: m[k]
  }

  /** A request from an address, with both clock readings and whether memory for a new entry is
      available; or the periodic sweep. */
  datatype Event<K> = Arrive(key: K, mono: real, wall: int, memory: bool) | Tick(wall: int)

  /** The table searched for `key`: swept first if the key is new and the table full. */
  function MakeRoom<K>(m: Table<K>, key: K, wall: int): Table<K> {
    if key in m || |m| < MAX_ENTRIES then m else Sweep(m, wall)
  }

  /** One arrival: the new table and whether the request is admitted. A new address that still finds
      the table full, or no memory, is refused. */
  function ArriveStep<K>(l: Limits, m0: Table<K>, key: K, mono: real, wall: int, memory: bool): (Table<K>, bool) {
    var m := MakeRoom(m0, key, wall);
    if key !in m && (|m| >= MAX_ENTRIES || !memory) then (m, false)
    else
      var (e, admitted) := Request(l, if key in m then m[key] else Fresh(l, mono), mono);
      (m[key := e], admitted)
  }

  function Step<K>(l: Limits, m: Table<K>, ev: Event<K>): (Table<K>, bool) {
    match ev
    case Arrive(key, mono, wall, memory) => ArriveStep(l, m, key, mono, wall, memory)
    case Tick(wall) => (Sweep(m, wall), false)
  }

  /** The table after a run of events. */
  function After<K>(l: Limits, m: Table<K>, evs: seq<Event<K>>): Table<K> {
    if evs == [] then m else Step(l, After(l, m, evs[..|evs| - 1]), evs[|evs| - 1]).0
  }

  /** The decision on event `i` of a run. */
  predicate Decision<K>(l: Limits, m: Table<K>, evs: seq<Event<K>>, i: nat)
    requires i < |evs|
  {
    Step(l, After(l, m, evs[..i]), evs[i]).1
  }

  lemma DecisionPrefix<K>(l: Limits, m: Table<K>, evs: seq<Event<K>>, n: nat)
    requires n <= |evs|
    ensures forall i :: 0 <= i < n ==> Decision(l, m, evs[..n], i) == Decision(l, m, evs, i)
  {
    hide Step, After;
    assert forall i :: 0 <= i < n ==> evs[..n][..i] == evs[..i];
  }

  /* ---------- the table stays within its bounds ---------- */

  ghost predicate AllInBounds<K>(l: Limits, m: Table<K>) {
    |m| <= 10000 && forall k :: k in m ==> InBounds(l, m[k])
  }

  lemma SweepSmaller<K>(m: Table<K>, wall: int)
    ensures |Sweep(m, wall)| <= |m|
  {
    assert Sweep(m, wall).Keys <= m.Keys;
    SubsetSize(Sweep(m, wall).Keys, m.Keys);
  }

  lemma {:induction false} SubsetSize<T>(a: set<T>, b: set<T>)
    requires a <= b
    ensures |a| <= |b|
  {
    if a != {} {
      var x :| x in a;
      SubsetSize(a - {x}, b - {x});
    }
  }

  lemma StepInBounds<K>(l: Limits, m: Table<K>, ev: Event<K>)
    requires ValidLimits(l) && AllInBounds(l, m)
    ensures AllInBounds(l, Step(l, m, ev).0)
  {
    hide Request, Expired;
    match ev
    case Tick(wall) => SweepSmaller(m, wall);
    case Arrive(key, mono, wall, memory) =>
      SweepSmaller(m, wall);
      var room := MakeRoom(m, key, wall);
      var e := if key in room then room[key] else Fresh(l, mono);
      RequestBounds(l, e, mono);
      assert room[key := Request(l, e, mono).0].Keys == room.Keys + {key};
  }

  /** Every run keeps every bucket within its size and the table within ten thousand entries. */
  lemma {:induction false} RunInBounds<K>(l: Limits, m: Table<K>, evs: seq<Event<K>>)
    requires ValidLimits(l) && AllInBounds(l, m)
    ensures AllInBounds(l, After(l, m, evs))
  {
    hide Step, AllInBounds;
    if evs != [] {
      RunInBounds(l, m, evs[..|evs| - 1]);
      StepInBounds(l, After(l, m, evs[..|evs| - 1]), evs[|evs| - 1]);
    }
  }

  /* ---------- which entries are thrown out ---------- */

  /** The event throws out what is older than sixty seconds: a periodic sweep, or the request of a new address that
      finds ten thousand entries. */
  predicate Sweeps<K>(m: Table<K>, ev: Event<K>) {
    ev.Tick? || (ev.key !in m && |m| >= 10000)
  }

  /** One event, for an address that it is not a request of: its entry stays as it is, unless the event sweeps and the
      last request is more than sixty seconds old. */
  lemma OthersEntry<K>(l: Limits, m: Table<K>, k: K, ev: Event<K>)
    requires ev.Arrive? ==> ev.key != k
    ensures var m' := Step(l, m, ev).0;
            && (k in m' <==> k in m && (Sweeps(m, ev) ==> ev.wall - m[k].lastRequest <= 60))
            && (k in m' ==> m'[k] == m[k])
  {
    hide Request;
  }

  /** The clocks agree on a request: the wall clock shows the whole seconds of the other. */
  predicate ClocksAgree<K>(ev: Event<K>)
    requires ev.Arrive?
  {
    0 <= ev.wall && ev.wall as real <= ev.mono < (ev.wall + 1) as real
  }

  lemma OwnStamp<K>(l: Limits, m: Table<K>, ev: Event<K>)
    requires ev.Arrive? && ClocksAgree(ev)
    ensures var m' := Step(l, m, ev).0; ev.key in m' ==> m'[ev.key].lastRequest == ev.wall
  {
    WholeSecondsAre(ev.mono, ev.wall);
  }

  lemma WholeSecondsAre(t: real, n: int)
    requires 0 <= n && n as real <= t < (n + 1) as real
    ensures WholeSeconds(t) == n
  {
  }

  /** Every sweep after event `i` comes at most sixty seconds after it. */
  ghost predicate SweepsSoon<K>(l: Limits, m: Table<K>, evs: seq<Event<K>>, i: nat)
    requires i < |evs|
  {
    forall j :: i < j < |evs| && Sweeps(After(l, m, evs[..j]), evs[j]) ==> evs[j].wall - evs[i].wall <= 60
  }

  lemma SweepsSoonNext<K>(l: Limits, m: Table<K>, evs: seq<Event<K>>, i: nat)
    requires i < |evs| - 1
    ensures var n := |evs| - 1;
            SweepsSoon(l, m, evs, i) <==>
            && SweepsSoon(l, m, evs[..n], i)
            && (Sweeps(After(l, m, evs[..n]), evs[n]) ==> evs[n].wall - evs[i].wall <= 60)
  {
    hide After, Sweeps;
    var n := |evs| - 1;
    assert forall j :: 0 <= j < n ==> evs[..n][..j] == evs[..j] && evs[..n][j] == evs[j];
  }

  /** Whether the entry of an address survives what comes after its last request, `i`: it does if and only if every
      later sweep finds that request at most sixty seconds old. */
  lemma {:induction false} SurvivesIff<K>(l: Limits, m: Table<K>, k: K, evs: seq<Event<K>>, i: nat)
    requires i < |evs| && evs[i].Arrive? && evs[i].key == k && ClocksAgree(evs[i]) && k in After(l, m, evs[..i + 1])
    requires forall j :: i < j < |evs| && evs[j].Arrive? ==> evs[j].key != k
    ensures k in After(l, m, evs) <==> SweepsSoon(l, m, evs, i)
    ensures k in After(l, m, evs) ==> After(l, m, evs)[k].lastRequest == evs[i].wall
    decreases |evs|
  {
    hide Step, Sweeps, ClocksAgree, SweepsSoon, After;
    var n := |evs| - 1;
    var before := After(l, m, evs[..n]);
    AfterLast(l, m, evs);
    if i == n {
      assert evs[..i + 1] == evs;
      OwnStamp(l, before, evs[n]);
      NothingLater(l, m, evs);
    } else {
      assert evs[..n][..i + 1] == evs[..i + 1] && evs[..n][i] == evs[i];
      SurvivesIff(l, m, k, evs[..n], i);
      SweepsSoonNext(l, m, evs, i);
      OthersEntry(l, before, k, evs[n]);
    }
  }

  lemma AfterLast<K>(l: Limits, m: Table<K>, evs: seq<Event<K>>)
    requires evs != []
    ensures After(l, m, evs) == Step(l, After(l, m, evs[..|evs| - 1]), evs[|evs| - 1]).0
  {
    hide Step;
  }

  lemma NothingLater<K>(l: Limits, m: Table<K>, evs: seq<Event<K>>)
    requires evs != []
    ensures SweepsSoon(l, m, evs, |evs| - 1)
  {
    hide After, Sweeps;
  }

  /** An address whose last request is at most sixty seconds old is never thrown out. */
  lemma RecentStays<K>(l: Limits, m: Table<K>, k: K, evs: seq<Event<K>>, i: nat)
    requires i < |evs| && evs[i].Arrive? && evs[i].key == k && ClocksAgree(evs[i]) && k in After(l, m, evs[..i + 1])
    requires forall j :: i < j < |evs| ==> evs[j].wall - evs[i].wall <= 60 && (evs[j].Arrive? ==> evs[j].key != k)
    ensures k in After(l, m, evs)
  {
    hide After, Sweeps, ClocksAgree;
    SurvivesIff(l, m, k, evs, i);
  }

  /* ---------- one address over a run ---------- */

  /** The time of the last arrival, or `t0` if there was none. */
  function Clock<K>(evs: seq<Event<K>>, t0: real): real {
    if evs == [] then t0
    else if evs[|evs| - 1].Arrive? then evs[|evs| - 1].mono
    else Clock(evs[..|evs| - 1], t0)
  }

  /** Arrivals read a monotonic clock that starts at `t0`. */
  predicate ClockOk<K>(evs: seq<Event<K>>, t0: real) {
    evs == [] || (
      && ClockOk(evs[..|evs| - 1], t0)
      && (evs[|evs| - 1].Arrive? ==> Clock(evs[..|evs| - 1], t0) <= evs[|evs| - 1].mono))
  }

  /** How often `k` is admitted in a run. */
  function Admissions<K>(l: Limits, m: Table<K>, k: K, evs: seq<Event<K>>): real {
    if evs == [] then 0.0
    else
      var n := |evs| - 1;
      Admissions(l, m, k, evs[..n])
      + if evs[n].Arrive? && evs[n].key == k && Decision(l, m, evs, n) then 1.0 else 0.0
  }

  /** How often the entry of `k` is thrown out in a run. */
  function Evictions<K>(l: Limits, m: Table<K>, k: K, evs: seq<Event<K>>): real {
    if evs == [] then 0.0
    else
      var n := |evs| - 1;
      Evictions(l, m, k, evs[..n])
      + if k in After(l, m, evs[..n]) && k !in After(l, m, evs) then 1.0 else 0.0
  }

  /** The bursts handed out for a number of entries. */
  function Bursts(l: Limits, entries: real): real {
    entries * l.burst
  }

  lemma BurstsStep(l: Limits, n: real)
    ensures Bursts(l, n + 1.0) == Bursts(l, n) + l.burst
  {
  }

  /** The account kept for `k`: what it has been admitted, plus what its bucket holds, is paid for by
      one burst per entry it has had and by the time that has passed. */
  ghost predicate Balanced<K>(l: Limits, m: Table<K>, k: K, admissions: real, evictions: real, t0: real, clock: real) {
    && t0 <= clock
    && if k in m then
         && 0.0 <= m[k].tokens && m[k].lastUpdate <= clock
         && admissions + m[k].tokens <= Bursts(l, evictions) + l.burst + Gain(l, t0, m[k].lastUpdate)
       else admissions <= Bursts(l, evictions) + Gain(l, t0, clock)
  }

  lemma RequestAccount(l: Limits, e: Entry, now: real)
    requires ValidLimits(l) && e.tokens >= 0.0
    ensures var (e', admitted) := Request(l, e, now);
            && e.lastUpdate <= e'.lastUpdate && 0.0 <= e'.tokens
            && (e'.lastUpdate == now || e'.lastUpdate == e.lastUpdate)
            && e'.tokens + (if admitted then 1.0 else 0.0) <= e.tokens + Gain(l, e.lastUpdate, e'.lastUpdate)
  {
  }

  /** Losing the entry of `k` costs one eviction; keeping it costs nothing. */
  lemma BalancedSweep<K>(l: Limits, m: Table<K>, k: K, a: real, e: real, t0: real, clock: real, wall: int)
    requires ValidLimits(l) && Balanced(l, m, k, a, e, t0, clock)
    ensures var m' := Sweep(m, wall);
            Balanced(l, m', k, a, e + (if k in m && k !in m' then 1.0 else 0.0), t0, clock)
  {
  }

  lemma BalancedArrive<K>(l: Limits, m0: Table<K>, k: K, a: real, e: real, t0: real, clock: real, key: K, mono: real,
                          wall: int, memory: bool)
    requires ValidLimits(l) && Balanced(l, m0, k, a, e, t0, clock) && clock <= mono
    ensures var (m', admitted) := ArriveStep(l, m0, key, mono, wall, memory);
            Balanced(l, m', k, a + (if key == k && admitted then 1.0 else 0.0),
                     e + (if k in m0 && k !in m' then 1.0 else 0.0), t0, mono)
  {
    hide Gain, Bursts, Request, Expired;
    var m := MakeRoom(m0, key, wall);
    var lost := if k in m0 && k !in m then 1.0 else 0.0;
    assert Balanced(l, m, k, a, e + lost, t0, clock) by {
      if m != m0 { BalancedSweep(l, m0, k, a, e, t0, clock, wall); }
    }
    GainLaws(l, t0, clock, mono);
    GainLaws(l, clock, mono, mono);
    if key == k {
      var entry := if key in m then m[key] else Fresh(l, mono);
      RequestAccount(l, entry, mono);
      var e' := Request(l, entry, mono).0;
      GainLaws(l, t0, entry.lastUpdate, e'.lastUpdate);
    }
  }

  lemma BalancedStep<K>(l: Limits, m: Table<K>, k: K, a: real, e: real, t0: real, clock: real, ev: Event<K>)
    requires ValidLimits(l) && Balanced(l, m, k, a, e, t0, clock) && (ev.Arrive? ==> clock <= ev.mono)
    ensures var (m', admitted) := Step(l, m, ev);
            Balanced(l, m', k, a + (if ev.Arrive? && ev.key == k && admitted then 1.0 else 0.0),
                     e + (if k in m && k !in m' then 1.0 else 0.0), t0, if ev.Arrive? then ev.mono else clock)
  {
    hide ArriveStep, Balanced, Sweep;
    match ev
    case Tick(wall) => BalancedSweep(l, m, k, a, e, t0, clock, wall);
    case Arrive(key, mono, wall, memory) => BalancedArrive(l, m, k, a, e, t0, clock, key, mono, wall, memory);
  }

  lemma {:induction false} RunBalanced<K>(l: Limits, m: Table<K>, k: K, evs: seq<Event<K>>, t0: real)
    requires ValidLimits(l) && k !in m && ClockOk(evs, t0)
    ensures Balanced(l, After(l, m, evs), k, Admissions(l, m, k, evs), Evictions(l, m, k, evs), t0, Clock(evs, t0))
  {
    if evs == [] {
      GainLaws(l, t0, t0, t0);
    } else {
      hide Balanced, Step;
      var n := |evs| - 1;
      RunBalanced(l, m, k, evs[..n], t0);
      BalancedStep(l, After(l, m, evs[..n]), k, Admissions(l, m, k, evs[..n]), Evictions(l, m, k, evs[..n]), t0,
                   Clock(evs[..n], t0), evs[n]);
    }
  }

  /** Over any run, an address whose entry was thrown out `e` times has been admitted at most
      (e + 1) * burst + rate * elapsed times. */
  lemma AdmissionBound<K>(l: Limits, m: Table<K>, k: K, evs: seq<Event<K>>, t0: real)
    requires ValidLimits(l) && k !in m && ClockOk(evs, t0)
    ensures Admissions(l, m, k, evs) <= (Evictions(l, m, k, evs) + 1.0) * l.burst + (Clock(evs, t0) - t0) * l.rate
  {
    hide After, Admissions, Evictions, Clock;
    RunBalanced(l, m, k, evs, t0);
    var e, clock := Evictions(l, m, k, evs), Clock(evs, t0);
    BurstsStep(l, e);
    var m' := After(l, m, evs);
    if k in m' { GainLaws(l, t0, m'[k].lastUpdate, clock); GainLaws(l, m'[k].lastUpdate, clock, clock); }
  }

  /* ---------- evicting an idle entry ---------- */

  /** A bucket untouched since it would have filled up by `t`. */
  predicate IdleUntil(l: Limits, e: Entry, t: real) {
    0.0 <= e.tokens && l.burst <= Gain(l, e.lastUpdate, t)
  }

  /** For a request at `t` or later, an idle bucket and a fresh one are the same. */
  lemma IdleIsFresh(l: Limits, e: Entry, t: real, now: real)
    requires ValidLimits(l) && IdleUntil(l, e, t) && t <= now
    ensures Request(l, e, now) == Request(l, Fresh(l, now), now)
  {
    hide Gain;
    GainLaws(l, e.lastUpdate, t, now);
    GainLaws(l, t, now, now);
    GainLaws(l, e.lastUpdate, now, e.lastUpdate);
    GainLaws(l, now, e.lastUpdate, now);
  }

  /** Two tables that agree except that the second may lack the entry `e` of `k`. */
  ghost predicate SameBut<K>(m: Table<K>, m': Table<K>, k: K, e: Entry) {
    m' == m || (k in m && m[k] == e && m' == m - {k})
  }

  lemma SameButStep<K>(l: Limits, m: Table<K>, m': Table<K>, k: K, e: Entry, t: real, ev: Event<K>)
    requires ValidLimits(l) && IdleUntil(l, e, t) && SameBut(m, m', k, e) && |m| < MAX_ENTRIES
    requires ev.Arrive? ==> t <= ev.mono && (ev.key == k ==> ev.memory)
    ensures SameBut(Step(l, m, ev).0, Step(l, m', ev).0, k, e)
    ensures Step(l, m, ev).1 == Step(l, m', ev).1
  {
    hide ArriveStep, Sweep, IdleUntil;
    if m' != m {
      assert |m'| < MAX_ENTRIES by { SubsetSize(m'.Keys, m.Keys); }
      match ev
      case Tick(wall) => SweepBut(m, k, wall);
      case Arrive(key, mono, wall, memory) =>
        if key == k {
          OwnArrival(l, m, k, t, mono, wall, memory);
        } else {
          OtherArrival(l, m, k, key, mono, wall, memory);
        }
    }
  }

  lemma SweepBut<K>(m: Table<K>, k: K, wall: int)
    ensures Sweep(m - {k}, wall) == Sweep(m, wall) - {k}
    ensures k in Sweep(m, wall) ==> k in m && Sweep(m, wall)[k] == m[k]
    ensures k !in Sweep(m, wall) ==> Sweep(m, wall) - {k} == Sweep(m, wall)
  {
    hide Expired;
  }

  lemma OwnArrival<K>(l: Limits, m: Table<K>, k: K, t: real, mono: real, wall: int, memory: bool)
    requires ValidLimits(l) && k in m && IdleUntil(l, m[k], t) && |m| < MAX_ENTRIES && |m - {k}| < MAX_ENTRIES
    requires t <= mono && memory
    ensures ArriveStep(l, m, k, mono, wall, memory) == ArriveStep(l, m - {k}, k, mono, wall, memory)
  {
    hide Request, IdleUntil, Sweep;
    IdleIsFresh(l, m[k], t, mono);
    var e := Request(l, m[k], mono).0;
    assert (m - {k})[k := e] == m[k := e];
  }

  lemma OtherArrival<K>(l: Limits, m: Table<K>, k: K, key: K, mono: real, wall: int, memory: bool)
    requires k in m && key != k && |m| < MAX_ENTRIES && |m - {k}| < MAX_ENTRIES
    ensures var (a, x) := ArriveStep(l, m, key, mono, wall, memory);
            var (b, y) := ArriveStep(l, m - {k}, key, mono, wall, memory);
            x == y && b == a - {k} && k in a && a[k] == m[k]
  {
    hide Request, Sweep;
    if key in m || memory {
      var e := Request(l, if key in m then m[key] else Fresh(l, mono), mono).0;
      assert (m - {k})[key := e] == m[key := e] - {k};
    }
  }

  /** While the table never fills up, throwing out an entry that has been idle for at least
      burst / rate seconds changes no later decision, for its own address or any other. */
  lemma {:induction false} EvictionInvisible<K>(l: Limits, m: Table<K>, k: K, t: real, evs: seq<Event<K>>)
    requires ValidLimits(l) && k in m && IdleUntil(l, m[k], t)
    requires forall i :: 0 <= i <= |evs| ==> |After(l, m, evs[..i])| < MAX_ENTRIES
    requires forall i :: 0 <= i < |evs| && evs[i].Arrive? ==> t <= evs[i].mono && (evs[i].key == k ==> evs[i].memory)
    ensures SameBut(After(l, m, evs), After(l, m - {k}, evs), k, m[k])
    ensures forall i :: 0 <= i < |evs| ==> Decision(l, m, evs, i) == Decision(l, m - {k}, evs, i)
  {
    if evs != [] {
      hide Step, IdleUntil, SameBut;
      var n := |evs| - 1;
      var prefix := evs[..n];
      assert forall i :: 0 <= i <= n ==> prefix[..i] == evs[..i];
      EvictionInvisible(l, m, k, t, prefix);
      assert forall i :: 0 <= i < n ==> prefix[i] == evs[i];
      DecisionPrefix(l, m, evs, n);
      DecisionPrefix(l, m - {k}, evs, n);
      assert evs[..n] == prefix && |After(l, m, prefix)| < MAX_ENTRIES;
      SameButStep(l, After(l, m, prefix), After(l, m - {k}, prefix), k, m[k], t, evs[n]);
    }
  }
}
