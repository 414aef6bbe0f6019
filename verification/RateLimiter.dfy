/** The rate limiter as it is stored: a chained hash table edited in place. It holds the table of
    `RateTable` whatever the hash function is. */
module RateLimiter {
  import opened Wrappers
  import opened TokenBucket
  import opened RateTable
  import opened TableCurve
  import opened HashChains

  const HASH_SIZE := 4099

  class Limiter<K(==, !new)> {
    const hash: K -> nat
    const limits: Limits
    const enabled: bool
    const buckets: array<Chain<K, Entry>>
    var numEntries: nat
    ghost var table: Table<K>

    ghost predicate Valid()
      reads this, buckets
    {
      && buckets.Length == HASH_SIZE
      && (enabled ==> ValidLimits(limits))
      && Holds(hash, buckets[..], table, numEntries)
      && AllInBounds(limits, table)
    }

    /** A rate of zero or less disables the limiter; a burst of zero or less means one second's worth. */
    constructor (hash: K -> nat, rate: real, burst: real)
      ensures Valid() && fresh(buckets) && table == map[]
      ensures this.hash == hash && limits == Limits(rate, if burst > 0.0 then burst else rate)
      ensures enabled <==> rate > 0.0
    {
      this.hash := hash;
      limits := Limits(rate, if burst > 0.0 then burst else rate);
      enabled := rate > 0.0;
      buckets := new Chain<K, Entry>[HASH_SIZE](i => []);
      numEntries := 0;
      table := map[];
      new;
      TotalEmpty(buckets[..]);
    }

    /** The place of a key in its chain, or the chain's length. */
    method Find(i: nat, key: K) returns (j: nat)
      requires i < buckets.Length
      ensures j <= |buckets[i]|
      ensures j < |buckets[i]| ==> buckets[i][j].key == key
      ensures j == |buckets[i]| ==> !HasKey(buckets[i], key)
    {
      j := 0;
      while j < |buckets[i]| && buckets[i][j].key != key
        invariant j <= |buckets[i]|
        invariant forall x :: 0 <= x < j ==> buckets[i][x].key != key
      {
        j := j + 1;
      }
    }

    /** Unlink slot `j` of chain `i`. */
    method Unlink(i: nat, j: nat)
      requires buckets.Length == HASH_SIZE && i < HASH_SIZE && j < |buckets[i]|
      requires Holds(hash, buckets[..], table, numEntries)
      modifies this, buckets
      ensures buckets[..] == old(buckets[..])[i := old(buckets[i][..j] + buckets[i][j + 1..])]
      ensures table == old(table) - {old(buckets[i][j].key)}
      ensures Holds(hash, buckets[..], table, numEntries)
    {
      hide ChainOk, Total;
      ghost var chains := buckets[..];
      var chain := buckets[i];
      var chain' := chain[..j] + chain[j + 1..];
      ghost var key := chain[j].key;
      SlotFacts(hash, HASH_SIZE, i, chain, table, j);
      TotalAtLeast(chains, i);
      ChainRemove(hash, HASH_SIZE, i, chain, table, j);
      MapDrop(table, key);
      HoldsUpdate(hash, chains, table, numEntries, key, chain', table - {key}, numEntries - 1);
      buckets[i] := chain';
      numEntries := numEntries - 1;
      table := table - {key};
      assert buckets[..] == chains[i := chain'];
    }

    /** One chain of the sweep: follow it, unlinking the expired slots. */
    method SweepChain(i: nat, wall: int, ghost m0: Table<K>)
      requires buckets.Length == HASH_SIZE && i < HASH_SIZE
      requires Holds(hash, buckets[..], table, numEntries) && PartlySwept(m0, table, wall)
      modifies this, buckets
      ensures Holds(hash, buckets[..], table, numEntries) && PartlySwept(m0, table, wall)
      ensures forall x :: 0 <= x < HASH_SIZE && x != i ==> buckets[x] == old(buckets[x])
      ensures AllLive(buckets[i], wall)
    {
      hide Holds;
      var j := 0;
      while j < |buckets[i]|
        invariant j <= |buckets[i]| && Holds(hash, buckets[..], table, numEntries) && PartlySwept(m0, table, wall)
        invariant forall x :: 0 <= x < HASH_SIZE && x != i ==> buckets[x] == old(buckets[x])
        invariant AllLive(buckets[i][..j], wall)
        decreases |buckets[i]| - j
      {
        ghost var chains := buckets[..];
        HoldsSlot(hash, chains, table, numEntries, i, j);
        if Expired(buckets[i][j].entry, wall) {
          ghost var chain := buckets[i];
          Unlink(i, j);
          assert buckets[..][i] == chain[..j] + chain[j + 1..];
          assert buckets[i][..j] == chain[..j];
          assert forall x :: 0 <= x < HASH_SIZE && x != i ==> buckets[..][x] == chains[x];
        } else {
          j := j + 1;
        }
      }
      assert buckets[i][..j] == buckets[i];
    }

    /** The sweep removes the expired entries and nothing else. */
    method Cleanup(wall: int)
      requires Valid()
      modifies this, buckets
      ensures Valid() && table == Sweep(old(table), wall)
      ensures forall k :: k in table <==> k in old(table) && wall - old(table)[k].lastRequest <= 60
      ensures forall k :: k in table ==> table[k] == old(table)[k]
    {
      hide Holds, AllLive;
      for i := 0 to HASH_SIZE
        invariant Holds(hash, buckets[..], table, numEntries) && PartlySwept(old(table), table, wall)
        invariant forall x :: 0 <= x < i ==> AllLive(buckets[x], wall)
      {
        SweepChain(i, wall, old(table));
      }
      assert forall x :: 0 <= x < HASH_SIZE ==> AllLive(buckets[..][x], wall);
      AllSwept(hash, buckets[..], old(table), table, numEntries, wall);
      SweepSmaller(old(table), wall);
      SweepLeaves(old(table), wall);
    }

    /** Find the entry of a key, or create it at the head of its chain if there is room. */
    method GetEntry(key: K, mono: real, wall: int, memory: bool) returns (found: bool, i: nat, j: nat)
      requires Valid() && enabled
      modifies this, buckets
      ensures Valid()
      ensures i == Bucket(hash, HASH_SIZE, key)
      ensures var m := MakeRoom(old(table), key, wall);
              && found == (key in m || (|m| < 10000 && memory))
              && table == (if key in m || !found then m else m[key := Fresh(limits, mono)])
      ensures found ==> j < |buckets[i]| && buckets[i][j].key == key
    {
      hide Holds, ChainOk, Sweep;
      i := Bucket(hash, buckets.Length, key);
      j := Find(i, key);
      HoldsFind(hash, buckets[..], table, numEntries, key);
      HoldsCount(hash, buckets[..], table, numEntries);
      if j < |buckets[i]| {
        HoldsSlot(hash, buckets[..], table, numEntries, i, j);
        return true, i, j;
      }
      if numEntries >= MAX_ENTRIES {
        Cleanup(wall);
        SweepKeys(old(table), wall, key);
      }
      HoldsCount(hash, buckets[..], table, numEntries);
      if numEntries >= MAX_ENTRIES || !memory {
        return false, i, 0;
      }
      Insert(i, key, Fresh(limits, mono));
      return true, i, 0;
    }

    method Insert(i: nat, key: K, e: Entry)
      requires Valid() && i == Bucket(hash, HASH_SIZE, key) && key !in table && |table| < MAX_ENTRIES
      requires InBounds(limits, e)
      modifies this, buckets
      ensures Valid() && table == old(table)[key := e]
      ensures |buckets[i]| > 0 && buckets[i][0] == Slot(key, e)
    {
      hide ChainOk, Total;
      ghost var chains := buckets[..];
      var chain' := [Slot(key, e)] + buckets[i];
      ChainPush(hash, HASH_SIZE, i, buckets[i], table, key, e);
      MapPut(table, key, e);
      HoldsUpdate(hash, chains, table, numEntries, key, chain', table[key := e], numEntries + 1);
      buckets[i] := chain';
      numEntries := numEntries + 1;
      table := table[key := e];
      assert buckets[..] == chains[i := chain'];
    }

    /** Store an entry back into its slot. */
    method Store(i: nat, j: nat, e: Entry)
      requires Valid() && i < HASH_SIZE && j < |buckets[i]| && InBounds(limits, e)
      modifies this, buckets
      ensures Valid() && table == old(table)[old(buckets[i][j].key) := e]
    {
      hide ChainOk, Total;
      ghost var chains := buckets[..];
      var chain := buckets[i];
      var key := chain[j].key;
      HoldsSlot(hash, chains, table, numEntries, i, j);
      ChainReplace(hash, HASH_SIZE, i, chain, table, j, e);
      MapPut(table, key, e);
      HoldsUpdate(hash, chains, table, numEntries, key, chain[j := Slot(key, e)], table[key := e], numEntries);
      buckets[i] := chain[j := Slot(key, e)];
      table := table[key := e];
      assert buckets[..] == chains[i := chain[j := Slot(key, e)]];
    }

    /** Replenish an entry and take a token from it if there is one. */
    method Charge(i: nat, j: nat, mono: real) returns (admitted: bool)
      requires Valid() && enabled && i < HASH_SIZE && j < |buckets[i]|
      modifies this, buckets
      ensures Valid()
      ensures var key := old(buckets[i][j].key);
              && key in old(table) && key in table
              && (table[key], admitted) == Request(limits, old(table)[key], mono)
              && table == old(table)[key := table[key]]
    {
      hide Holds;
      HoldsSlot(hash, buckets[..], table, numEntries, i, j);
      var entry := buckets[i][j].entry;
      RequestBounds(limits, entry, mono);
      entry := entry.(lastRequest := WholeSeconds(mono));
      entry := Replenish(limits, entry, mono);
      admitted := entry.tokens >= 1.0;
      if admitted {
        entry := entry.(tokens := entry.tokens - 1.0);
      }
      Store(i, j, entry);
    }

    /** A request: admitted if the limiter is off or the address cannot be parsed, and otherwise
        exactly as the map model says. */
    method Allow(ip: Option<K>, mono: real, wall: int, memory: bool) returns (admitted: bool)
      requires Valid()
      modifies this, buckets
      ensures Valid()
      ensures !enabled || ip.None? ==> admitted && table == old(table)
      ensures enabled && ip.Some? ==>
                (table, admitted) == ArriveStep(limits, old(table), ip.value, mono, wall, memory)
      ensures enabled && ip.Some? && (ip.value in old(table) || |old(table)| < 10000) ==>
                && (ip.value in table <==> ip.value in old(table) || memory)
                && forall k :: k != ip.value ==>
                     (k in table <==> k in old(table)) && (k in table ==> table[k] == old(table)[k])
      ensures enabled && ip.Some? && ip.value !in old(table) && |old(table)| >= 10000 ==>
                forall k :: k != ip.value ==>
                  && (k in table <==> k in old(table) && wall - old(table)[k].lastRequest <= 60)
                  && (k in table ==> table[k] == old(table)[k])
    {
      hide Holds, Sweep, Expired, Request;
      if !enabled || ip.None? { return true; }
      ArriveLeaves(limits, table, ip.value, mono, wall, memory);
      var found, i, j := GetEntry(ip.value, mono, wall, memory);
      if !found { return false; }
      ghost var m := MakeRoom(old(table), ip.value, wall);
      admitted := Charge(i, j, mono);
      assert m[ip.value := Fresh(limits, mono)][ip.value := table[ip.value]] == m[ip.value := table[ip.value]];
    }

    /** Any run of requests and periodic sweeps: the table is what the map model makes of the run, and so is every
        decision. */
    method Run(events: seq<Event<K>>) returns (decisions: seq<bool>)
      requires Valid() && enabled
      modifies this, buckets
      ensures Valid() && table == After(limits, old(table), events)
      ensures |decisions| == |events|
      ensures forall i :: 0 <= i < |events| ==> decisions[i] == Decision(limits, old(table), events, i)
    {
      hide Step, Valid;
      decisions := [];
      for i := 0 to |events|
        invariant Valid() && table == After(limits, old(table), events[..i])
        invariant |decisions| == i && forall j :: 0 <= j < i ==> decisions[j] == Decision(limits, old(table), events, j)
      {
        ghost var before := table;
        assert events[..i + 1][..i] == events[..i];
        var admitted := HandleEvent(events[i]);
        decisions := decisions + [admitted];
      }
      assert events[..|events|] == events;
    }

    method HandleEvent(ev: Event<K>) returns (admitted: bool)
      requires Valid() && enabled
      modifies this, buckets
      ensures Valid() && (table, admitted) == Step(limits, old(table), ev)
    {
      hide ArriveStep, Sweep;
      match ev
      case Arrive(key, mono, wall, memory) =>
        admitted := Allow(Some(key), mono, wall, memory);
      case Tick(wall) =>
        Cleanup(wall);
        admitted := false;
    }
  }

  /** A limiter from its start through any run: every decision is the arrival-curve rule over the life of the entry,
      and what an address is granted is within the bound. */
  method Lifetime<K(==, !new)>(hash: K -> nat, rate: real, burst: real, events: seq<Event<K>>, ghost t0: real)
    returns (decisions: seq<bool>)
    requires rate > 0.0 && ClockOk(events, t0)
    ensures var limits := Limits(rate, if burst > 0.0 then burst else rate);
            && FollowsCurve(limits, events, decisions)
            && forall k :: GrantsWithin(limits, events, decisions, k, t0)
  {
    hide ClockOk, FollowsCurve, GrantsWithin;
    var limiter := new Limiter(hash, rate, burst);
    decisions := limiter.Run(events);
    RunFollowsCurve(limiter.limits, events, decisions, t0);
    forall k
      ensures GrantsWithin(limiter.limits, events, decisions, k, t0)
    {
      RunGrantsWithin(limiter.limits, events, decisions, k, t0);
    }
  }

  /** What a sweep leaves: the entries whose last request is at most sixty seconds old, unchanged. */
  lemma SweepLeaves<K(!new)>(m: Table<K>, wall: int)
    ensures forall k :: k in Sweep(m, wall) <==> k in m && wall - m[k].lastRequest <= 60
    ensures forall k :: k in Sweep(m, wall) ==> Sweep(m, wall)[k] == m[k]
  {
  }

  /** What one request does to the entries of the table, its own and the others. */
  lemma ArriveLeaves<K(!new)>(l: Limits, m: Table<K>, key: K, mono: real, wall: int, memory: bool)
    ensures var m' := ArriveStep(l, m, key, mono, wall, memory).0;
            && (key in m || |m| < 10000 ==>
                  && (key in m' <==> key in m || memory)
                  && forall k :: k != key ==> (k in m' <==> k in m) && (k in m' ==> m'[k] == m[k]))
            && (key !in m && |m| >= 10000 ==>
                  forall k :: k != key ==>
                    (k in m' <==> k in m && wall - m[k].lastRequest <= 60) && (k in m' ==> m'[k] == m[k]))
  {
    hide Request, Sweep;
    SweepLeaves(m, wall);
  }

  lemma SweepKeys<K>(m: Table<K>, wall: int, key: K)
    ensures key !in m ==> key !in Sweep(m, wall)
  {
  }

  ghost predicate AllLive<K>(chain: Chain<K, Entry>, wall: int) {
    forall j :: 0 <= j < |chain| ==> wall - chain[j].entry.lastRequest <= 60
  }

  /** Some expired entries of `m0` are gone, nothing else has changed. */
  ghost predicate PartlySwept<K(!new)>(m0: Table<K>, m: Table<K>, wall: int) {
    && (forall k :: k in m ==> k in m0 && m0[k] == m[k])
    && (forall k :: k in m0 && wall - m0[k].lastRequest <= 60 ==> k in m)
  }

  lemma AllSwept<K(!new)>(hash: K -> nat, chains: seq<Chain<K, Entry>>, m0: Table<K>, m: Table<K>, count: nat,
                          wall: int)
    requires Holds(hash, chains, m, count) && PartlySwept(m0, m, wall)
    requires forall i :: 0 <= i < |chains| ==> AllLive(chains[i], wall)
    ensures m == Sweep(m0, wall)
  {
    forall k | k in m ensures wall - m[k].lastRequest <= 60 {
      var i := Bucket(hash, |chains|, k);
      assert ChainOk(hash, |chains|, i, chains[i], m) && HasKey(chains[i], k) && AllLive(chains[i], wall);
    }
  }

}
