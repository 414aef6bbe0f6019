/** The per-address token bucket of the rate limiter, with the clock read as a real number. */
module TokenBucket {

  /** A rate in tokens per second and a bucket size. */
  datatype Limits = Limits(rate: real, burst: real)

  ghost predicate ValidLimits(l: Limits) {
    l.rate > 0.0 && l.burst > 0.0
  }

  /** `lastUpdate` is the last replenishment on the monotonic clock; `lastRequest` is the time of the
      last request in whole seconds of the same clock. */
  datatype Entry = Entry(tokens: real, lastUpdate: real, lastRequest: int)

  /** Conversion of a clock reading to whole seconds: truncation toward zero. */
  function WholeSeconds(t: real): int {
    if t >= 0.0 then t.Floor else -((-t).Floor)
  }

  function Fresh(l: Limits, now: real): Entry {
    Entry(l.burst, now, WholeSeconds(now))
  }

  /** The tokens that accrue between two clock readings. */
  function Gain(l: Limits, from: real, to: real): real {
    (to - from) * l.rate
  }

  function Replenish(l: Limits, e: Entry, now: real): Entry {
    if now <= e.lastUpdate then e
    else
      var refilled := e.tokens + Gain(l, e.lastUpdate, now);
      e.(tokens := if refilled > l.burst then l.burst else refilled, lastUpdate := now)
  }

  /** One request against an existing entry: the new entry and whether it is admitted. */
  function Request(l: Limits, e: Entry, now: real): (Entry, bool) {
    var r := Replenish(l, e.(lastRequest := WholeSeconds(now)), now);
    if r.tokens >= 1.0 then (r.(tokens := r.tokens - 1.0), true) else (r, false)
  }

  /** A bucket never holds less than nothing or more than its size. */
  predicate InBounds(l: Limits, e: Entry) {
    0.0 <= e.tokens <= l.burst
  }

  lemma GainLaws(l: Limits, a: real, b: real, c: real)
    ensures Gain(l, a, c) == Gain(l, a, b) + Gain(l, b, c) && Gain(l, a, a) == 0.0
    ensures l.rate >= 0.0 && a <= b ==> Gain(l, a, b) >= 0.0
  {
  }

  lemma RequestBounds(l: Limits, e: Entry, now: real)
    requires ValidLimits(l) && InBounds(l, e)
    ensures InBounds(l, Request(l, e, now).0)
  {
    GainLaws(l, e.lastUpdate, now, now);
  }

  /* ---------- the life of one entry ---------- */

  ghost predicate NonDecreasing(times: seq<real>) {
    forall i, j :: 0 <= i <= j < |times| ==> times[i] <= times[j]
  }

  /** The entry a request at `now` works on after requests at `times`: a fresh one if there were none. */
  function Before(l: Limits, times: seq<real>, now: real): Entry {
    if times == [] then Fresh(l, now)
    else
      var n := |times| - 1;
      Request(l, Before(l, times[..n], times[n]), times[n]).0
  }

  /** Whether a request at `now` after requests at `times` is admitted. */
  predicate Admits(l: Limits, times: seq<real>, now: real) {
    Request(l, Before(l, times, now), now).1
  }

  /** The decisions on all requests of one entry's life. */
  function Decisions(l: Limits, times: seq<real>): (ds: seq<bool>)
    ensures |ds| == |times|
  {
    seq(|times|, i requires 0 <= i < |times| => Admits(l, times[..i], times[i]))
  }

  /** The number of admissions among some decisions. */
  function Admitted(decisions: seq<bool>): (n: real)
    ensures n >= 0.0
  {
    if decisions == [] then 0.0
    else Admitted(decisions[..|decisions| - 1]) + if decisions[|decisions| - 1] then 1.0 else 0.0
  }

  lemma AdmittedSnoc(decisions: seq<bool>, last: bool)
    ensures Admitted(decisions + [last]) == Admitted(decisions) + if last then 1.0 else 0.0
  {
  }

  /** What the arrival curve through request `i` leaves for the request that follows `times`. */
  function Headroom(l: Limits, times: seq<real>, decisions: seq<bool>, i: nat, now: real): real
    requires i <= |decisions| == |times|
  {
    l.burst + Gain(l, if i < |times| then times[i] else now, now) - Admitted(decisions[i..])
  }

  /** The tokens a request finds: the least headroom over all earlier requests and itself. */
  ghost predicate IsLeastHeadroom(l: Limits, times: seq<real>, decisions: seq<bool>, now: real, tokens: real)
    requires |decisions| == |times|
  {
    && (forall i :: 0 <= i <= |times| ==> tokens <= Headroom(l, times, decisions, i, now))
    && (exists i :: 0 <= i <= |times| && tokens == Headroom(l, times, decisions, i, now))
  }

  lemma HeadroomStep(l: Limits, times: seq<real>, ds: seq<bool>, last: bool, i: nat, t: real, now: real)
    requires i <= |ds| == |times|
    ensures Headroom(l, times + [t], ds + [last], i, now)
         == Headroom(l, times, ds, i, t) + Gain(l, t, now) - (if last then 1.0 else 0.0)
  {
    hide Gain, Admitted;
    GainLaws(l, if i < |times| then times[i] else t, t, now);
    assert (ds + [last])[i..] == ds[i..] + [last];
    AdmittedSnoc(ds[i..], last);
  }

  lemma HeadroomNow(l: Limits, times: seq<real>, ds: seq<bool>, now: real)
    requires |ds| == |times|
    ensures Headroom(l, times, ds, |times|, now) == l.burst
  {
  }

  lemma DecisionsSnoc(l: Limits, times: seq<real>, t: real)
    ensures Decisions(l, times + [t]) == Decisions(l, times) + [Admits(l, times, t)]
  {
    hide Admits;
    forall i | 0 <= i < |times| ensures (times + [t])[..i] == times[..i] {
    }
    assert (times + [t])[..|times|] == times;
  }

  /** The tokens a request finds. */
  function Found(l: Limits, times: seq<real>, now: real): real {
    Replenish(l, Before(l, times, now), now).tokens
  }

  lemma {:induction false} UpdatedLast(l: Limits, times: seq<real>, now: real)
    requires NonDecreasing(times + [now])
    ensures Before(l, times, now).lastUpdate == if times == [] then now else times[|times| - 1]
  {
    if times != [] {
      var n := |times| - 1;
      assert forall i :: 0 <= i <= n ==> times[i] == (times + [now])[i];
      assert times[..n] + [times[n]] == times;
      UpdatedLast(l, times[..n], times[n]);
    }
  }

  lemma FoundStep(l: Limits, times: seq<real>, t: real, now: real)
    requires ValidLimits(l) && NonDecreasing(times + [t]) && t <= now
    requires Found(l, times, t) <= l.burst
    ensures var left := Found(l, times, t) - (if Admits(l, times, t) then 1.0 else 0.0) + Gain(l, t, now);
            Found(l, times + [t], now) == if left > l.burst then l.burst else left
  {
    hide Gain, Before;
    UpdatedLast(l, times, t);
    var e := Before(l, times, t);
    assert e.lastUpdate <= t by { if times != [] { assert (times + [t])[|times| - 1] <= (times + [t])[|times|]; } }
    assert Replenish(l, e, t).lastUpdate == t;
    GainLaws(l, t, now, now);
    BeforeSnoc(l, times, t, now);
  }

  lemma BeforeSnoc(l: Limits, times: seq<real>, t: real, now: real)
    ensures Before(l, times + [t], now) == Request(l, Before(l, times, t), t).0
  {
  }

  /** The tokens a request finds are the least headroom over its entry's life. */
  lemma {:induction false} FoundIsLeast(l: Limits, times: seq<real>, now: real)
    requires ValidLimits(l) && NonDecreasing(times + [now])
    ensures IsLeastHeadroom(l, times, Decisions(l, times), now, Found(l, times, now))
  {
    hide Gain, Admitted, Headroom, Found, Decisions, Admits;
    HeadroomNow(l, times, Decisions(l, times), now);
    if times == [] {
      FoundFirst(l, now);
    } else {
      var n := |times| - 1;
      var prev, t := times[..n], times[n];
      assert times == prev + [t];
      assert NonDecreasing(times) && t <= now by { NonDecreasingPrefix(times, now); }
      FoundIsLeast(l, prev, t);
      HeadroomNow(l, prev, Decisions(l, prev), t);
      FoundStep(l, prev, t, now);
      DecisionsSnoc(l, prev, t);
      LeastStep(l, prev, Decisions(l, prev), Admits(l, prev, t), t, now, Found(l, prev, t), Found(l, times, now));
    }
  }

  lemma NonDecreasingPrefix(times: seq<real>, now: real)
    requires NonDecreasing(times + [now]) && times != []
    ensures NonDecreasing(times) && times[|times| - 1] <= now
  {
    assert forall i :: 0 <= i < |times| ==> times[i] == (times + [now])[i];
    assert (times + [now])[|times|] == now;
  }

  lemma LeastStep(l: Limits, times: seq<real>, ds: seq<bool>, last: bool, t: real, now: real, f: real, g: real)
    requires |ds| == |times| && IsLeastHeadroom(l, times, ds, t, f)
    requires var left := f - (if last then 1.0 else 0.0) + Gain(l, t, now);
             g == if left > l.burst then l.burst else left
    ensures IsLeastHeadroom(l, times + [t], ds + [last], now, g)
  {
    hide Gain, Headroom;
    HeadroomNow(l, times + [t], ds + [last], now);
    forall i | 0 <= i <= |times|
      ensures Headroom(l, times + [t], ds + [last], i, now)
           == Headroom(l, times, ds, i, t) + Gain(l, t, now) - (if last then 1.0 else 0.0)
    {
      HeadroomStep(l, times, ds, last, i, t, now);
    }
    var k :| 0 <= k <= |times| && f == Headroom(l, times, ds, k, t);
    assert g == Headroom(l, times + [t], ds + [last], k, now)
        || g == Headroom(l, times + [t], ds + [last], |times| + 1, now);
  }

  lemma FoundFirst(l: Limits, now: real)
    ensures Found(l, [], now) == l.burst
  {
  }

  /** The token bucket is exactly the arrival-curve rule: on a clock that does not run backwards, a
      request is admitted if and only if, for every request of the same entry up to itself, the
      admissions since that request plus this one stay within burst + rate * (time since then). */
  lemma ArrivalCurve(l: Limits, times: seq<real>, now: real)
    requires ValidLimits(l) && NonDecreasing(times + [now])
    ensures Admits(l, times, now) <==>
            && 1.0 <= l.burst
            && forall i :: 0 <= i < |times| ==>
                 Admitted(Decisions(l, times)[i..]) + 1.0 <= l.burst + (now - times[i]) * l.rate
  {
    hide Admitted, Before, Decisions;
    var ds := Decisions(l, times);
    FoundIsLeast(l, times, now);
    HeadroomNow(l, times, ds, now);
    assert forall i :: 0 <= i < |times| ==>
             Headroom(l, times, ds, i, now) == l.burst + (now - times[i]) * l.rate - Admitted(ds[i..]);
    assert Admits(l, times, now) <==> Found(l, times, now) >= 1.0;
  }
}
