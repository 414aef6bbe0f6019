/** The token bucket seen through the table: what the table decides for an address is the arrival-curve rule over the
    requests of that address since its entry was made. */
module TableCurve {
  import opened TokenBucket
  import opened RateTable

  /** The requests an entry has seen since it was made, and the decisions on them. */
  datatype Life = Life(times: seq<real>, decisions: seq<bool>)

  const UNBORN := Life([], [])

  /** The life of the entry of `k` after a run; an address without an entry has none. */
  function LifeOf<K>(l: Limits, m: Table<K>, k: K, evs: seq<Event<K>>): (life: Life)
    ensures |life.times| == |life.decisions|
  {
    if evs == [] || k !in After(l, m, evs) then UNBORN
    else
      var n := |evs| - 1;
      var life := LifeOf(l, m, k, evs[..n]);
      if evs[n].Arrive? && evs[n].key == k then
        Life(life.times + [evs[n].mono], life.decisions + [Decision(l, m, evs, n)])
      else life
  }

  /** An address that is not in the table gets an entry if there is room, after a sweep if need be, and memory. */
  predicate HasPlace<K>(m: Table<K>, ev: Event<K>)
    requires ev.Arrive?
  {
    ev.key in m || (|MakeRoom(m, ev.key, ev.wall)| < 10000 && ev.memory)
  }

  /** What the entry of `k` is, and what was decided on it, is what its life makes of it. */
  ghost predicate LivesBy<K>(l: Limits, m: Table<K>, k: K, life: Life) {
    && life.decisions == Decisions(l, life.times)
    && if k in m then life.times != [] && m[k] == Before(l, life.times, 0.0) else life == UNBORN
  }

  lemma BeforeAny(l: Limits, times: seq<real>, a: real, b: real)
    requires times != []
    ensures Before(l, times, a) == Before(l, times, b)
  {
  }

  /** A request of `k` itself. */
  lemma OwnRequest<K>(l: Limits, m: Table<K>, k: K, life: Life, ev: Event<K>)
    requires ev.Arrive? && ev.key == k && LivesBy(l, m, k, life)
    ensures var (m', admitted) := Step(l, m, ev);
            && (admitted <==> HasPlace(m, ev) && Admits(l, life.times, ev.mono))
            && (k in m' <==> HasPlace(m, ev))
            && (k in m' ==> LivesBy(l, m', k, Life(life.times + [ev.mono], life.decisions + [admitted])))
  {
    hide Request, Decisions, Before, Sweep;
    var room := MakeRoom(m, k, ev.wall);
    assert k in room <==> k in m by { KeyStays(m, k, ev.wall); }
    if HasPlace(m, ev) {
      var e := if k in room then room[k] else Fresh(l, ev.mono);
      if k in m {
        BeforeAny(l, life.times, 0.0, ev.mono);
      } else {
        BeforeNone(l, ev.mono);
      }
      assert e == Before(l, life.times, ev.mono);
      BeforeSnoc(l, life.times, ev.mono, 0.0);
      DecisionsSnoc(l, life.times, ev.mono);
    }
  }

  lemma BeforeNone(l: Limits, now: real)
    ensures Before(l, [], now) == Fresh(l, now)
  {
  }

  lemma KeyStays<K>(m: Table<K>, k: K, wall: int)
    ensures k in MakeRoom(m, k, wall) <==> k in m
    ensures k in m ==> MakeRoom(m, k, wall) == m
  {
  }

  /** Anything else leaves the entry of `k` as it is, or takes it away. */
  lemma OtherEvent<K>(l: Limits, m: Table<K>, k: K, ev: Event<K>)
    requires ev.Arrive? ==> ev.key != k
    ensures var m' := Step(l, m, ev).0; k in m' ==> k in m && m'[k] == m[k]
  {
  }

  lemma {:induction false} RunLives<K>(l: Limits, m: Table<K>, k: K, evs: seq<Event<K>>)
    requires k !in m
    ensures LivesBy(l, After(l, m, evs), k, LifeOf(l, m, k, evs))
  {
    if evs != [] {
      hide Step, LivesBy;
      var n := |evs| - 1;
      var before := After(l, m, evs[..n]);
      RunLives(l, m, k, evs[..n]);
      NoLife(l, before, k);
      if evs[n].Arrive? && evs[n].key == k {
        OwnRequest(l, before, k, LifeOf(l, m, k, evs[..n]), evs[n]);
      } else {
        OtherEvent(l, before, k, evs[n]);
        Kept(l, before, After(l, m, evs), k, LifeOf(l, m, k, evs[..n]));
      }
      NoLife(l, After(l, m, evs), k);
    } else {
      NoLife(l, m, k);
    }
  }

  lemma NoLife<K>(l: Limits, m: Table<K>, k: K)
    ensures k !in m ==> LivesBy(l, m, k, UNBORN)
  {
  }

  lemma Kept<K>(l: Limits, m: Table<K>, m': Table<K>, k: K, life: Life)
    requires LivesBy(l, m, k, life) && (k in m' ==> k in m && m'[k] == m[k])
    ensures k in m' ==> LivesBy(l, m', k, life)
  {
  }

  /** The requests of a life are in order, and none is later than the clock. */
  lemma {:induction false} LifeInOrder<K>(l: Limits, m: Table<K>, k: K, evs: seq<Event<K>>, t0: real, now: real)
    requires ClockOk(evs, t0) && Clock(evs, t0) <= now
    ensures NonDecreasing(LifeOf(l, m, k, evs).times + [now])
  {
    if evs != [] {
      hide After, Decision;
      var n := |evs| - 1;
      var life := LifeOf(l, m, k, evs[..n]);
      if evs[n].Arrive? {
        LifeInOrder(l, m, k, evs[..n], t0, evs[n].mono);
        OneLater(life.times, evs[n].mono, now);
      } else {
        LifeInOrder(l, m, k, evs[..n], t0, now);
      }
    }
  }

  lemma OneLater(times: seq<real>, t: real, now: real)
    requires NonDecreasing(times + [t]) && t <= now
    ensures NonDecreasing(times + [t] + [now]) && NonDecreasing(times + [now])
  {
    var a, b, c := times + [t], times + [t] + [now], times + [now];
    assert forall i :: 0 <= i < |times| ==> a[i] == b[i] == c[i] == times[i];
    assert forall i :: 0 <= i < |times| ==> a[i] <= a[|times|] == t;
  }

  /** For every request so far, the admissions since then and one more are at most burst + rate * (time since then). */
  ghost predicate WithinCurve(l: Limits, life: Life, now: real)
    requires |life.times| == |life.decisions|
  {
    && 1.0 <= l.burst
    && forall j :: 0 <= j < |life.times| ==>
         Admitted(life.decisions[j..]) + 1.0 <= l.burst + (now - life.times[j]) * l.rate
  }

  lemma CurveOfLife(l: Limits, life: Life, now: real)
    requires ValidLimits(l) && life.decisions == Decisions(l, life.times) && NonDecreasing(life.times + [now])
    ensures Admits(l, life.times, now) <==> WithinCurve(l, life, now)
  {
    hide Admits, Admitted, Decisions;
    ArrivalCurve(l, life.times, now);
  }

  /** Over every run, the table admits a request if and only if its address has a place and it
      is within the arrival curve through every request the entry has seen. */
  lemma TableArrivalCurve<K>(l: Limits, m: Table<K>, evs: seq<Event<K>>, i: nat, t0: real)
    requires ValidLimits(l) && i < |evs| && evs[i].Arrive? && evs[i].key !in m
    requires ClockOk(evs[..i], t0) && Clock(evs[..i], t0) <= evs[i].mono
    ensures var life := LifeOf(l, m, evs[i].key, evs[..i]);
            Decision(l, m, evs, i) <==> HasPlace(After(l, m, evs[..i]), evs[i]) && WithinCurve(l, life, evs[i].mono)
  {
    hide Step, After, Admits, Decisions, HasPlace, WithinCurve, NonDecreasing, LifeOf;
    var k, life := evs[i].key, LifeOf(l, m, evs[i].key, evs[..i]);
    RunLives(l, m, k, evs[..i]);
    OwnRequest(l, After(l, m, evs[..i]), k, life, evs[i]);
    LifeInOrder(l, m, k, evs[..i], t0, evs[i].mono);
    CurveOfLife(l, life, evs[i].mono);
  }

  /* ---------- what a run grants ---------- */

  /** How often `k` is admitted, counted from the decisions of a run. */
  function Granted<K(==)>(evs: seq<Event<K>>, decisions: seq<bool>, k: K): real
    requires |decisions| == |evs|
  {
    if evs == [] then 0.0
    else
      var n := |evs| - 1;
      Granted(evs[..n], decisions[..n], k) + if evs[n].Arrive? && evs[n].key == k && decisions[n] then 1.0 else 0.0
  }

  lemma {:induction false} GrantedAre<K>(l: Limits, m: Table<K>, evs: seq<Event<K>>, decisions: seq<bool>, k: K)
    requires |decisions| == |evs| && forall i :: 0 <= i < |evs| ==> decisions[i] == Decision(l, m, evs, i)
    ensures Granted(evs, decisions, k) == Admissions(l, m, k, evs)
  {
    if evs != [] {
      hide Decision;
      var n := |evs| - 1;
      DecisionPrefix(l, m, evs, n);
      GrantedAre(l, m, evs[..n], decisions[..n], k);
    }
  }

  /** Every decision of a run from the empty table is the arrival-curve rule over the life of the entry. */
  ghost predicate FollowsCurve<K>(l: Limits, evs: seq<Event<K>>, decisions: seq<bool>) {
    && |decisions| == |evs|
    && forall i :: 0 <= i < |evs| && evs[i].Arrive? ==>
         (decisions[i] <==> HasPlace(After(l, map[], evs[..i]), evs[i])
                            && WithinCurve(l, LifeOf(l, map[], evs[i].key, evs[..i]), evs[i].mono))
  }

  /** With e evictions an address is granted at most (e + 1) * burst + rate * elapsed requests. */
  ghost predicate GrantsWithin<K>(l: Limits, evs: seq<Event<K>>, decisions: seq<bool>, k: K, t0: real) {
    && |decisions| == |evs|
    && Granted(evs, decisions, k)
       <= (Evictions(l, map[], k, evs) + 1.0) * l.burst + (Clock(evs, t0) - t0) * l.rate
  }

  lemma RunFollowsCurve<K>(l: Limits, evs: seq<Event<K>>, decisions: seq<bool>, t0: real)
    requires ValidLimits(l) && ClockOk(evs, t0)
    requires |decisions| == |evs| && forall i :: 0 <= i < |evs| ==> decisions[i] == Decision(l, map[], evs, i)
    ensures FollowsCurve(l, evs, decisions)
  {
    hide HasPlace, WithinCurve, LifeOf, After, Decision;
    forall i | 0 <= i < |evs| && evs[i].Arrive?
      ensures decisions[i] <==> HasPlace(After(l, map[], evs[..i]), evs[i])
                                && WithinCurve(l, LifeOf(l, map[], evs[i].key, evs[..i]), evs[i].mono)
    {
      ClockPrefix(evs, t0, i);
      TableArrivalCurve(l, map[], evs, i, t0);
    }
  }

  lemma {:induction false} ClockPrefix<K>(evs: seq<Event<K>>, t0: real, i: nat)
    requires ClockOk(evs, t0) && i < |evs| && evs[i].Arrive?
    ensures ClockOk(evs[..i], t0) && Clock(evs[..i], t0) <= evs[i].mono
  {
    var n := |evs| - 1;
    if i < n {
      assert evs[..n][..i] == evs[..i];
      ClockPrefix(evs[..n], t0, i);
    }
  }

  lemma RunGrantsWithin<K>(l: Limits, evs: seq<Event<K>>, decisions: seq<bool>, k: K, t0: real)
    requires ValidLimits(l) && ClockOk(evs, t0)
    requires |decisions| == |evs| && forall i :: 0 <= i < |evs| ==> decisions[i] == Decision(l, map[], evs, i)
    ensures GrantsWithin(l, evs, decisions, k, t0)
  {
    hide Granted, Admissions, Evictions, Clock, ClockOk, Decision;
    GrantedAre(l, map[], evs, decisions, k);
    AdmissionBound(l, map[], k, evs, t0);
  }
}
