/** Chained hash tables: a sequence of chains that holds a finite map, for any hash function. */
module HashChains {

  datatype Slot<K, V> = Slot(key: K, entry: V)

  type Chain<!K, V> = seq<Slot<K, V>>

  function Bucket<K>(hash: K -> nat, n: nat, key: K): nat
    requires n > 0
  {
    hash(key) % n
  }

  /* ---------- chains and the map they hold ---------- */

  ghost predicate HasKey<K, V>(chain: Chain<K, V>, key: K) {
    exists j :: 0 <= j < |chain| && chain[j].key == key
  }

  /** Chain `i` of `n` holds exactly the part of the map whose keys hash to it, each key once. */
  ghost predicate ChainOk<K(!new), V>(hash: K -> nat, n: nat, i: nat, chain: Chain<K, V>, m: map<K, V>)
    requires n > 0
  {
    && (forall j :: 0 <= j < |chain| ==>
          chain[j].key in m && m[chain[j].key] == chain[j].entry && Bucket(hash, n, chain[j].key) == i)
    && (forall j, j' :: 0 <= j < j' < |chain| ==> chain[j].key != chain[j'].key)
    && (forall k :: k in m && Bucket(hash, n, k) == i ==> HasKey(chain, k))
  }

  function Total<K, V>(chains: seq<Chain<K, V>>): nat {
    if chains == [] then 0 else |chains[0]| + Total(chains[1..])
  }

  /** The chains hold exactly the map, and `count` is the number of slots. */
  ghost predicate Holds<K(!new), V>(hash: K -> nat, chains: seq<Chain<K, V>>, m: map<K, V>, count: nat) {
    && |chains| > 0 && count == Total(chains) == |m|
    && forall i :: 0 <= i < |chains| ==> ChainOk(hash, |chains|, i, chains[i], m)
  }

  lemma {:induction false} TotalUpdate<K, V>(chains: seq<Chain<K, V>>, i: nat, c: Chain<K, V>)
    requires i < |chains|
    ensures Total(chains[i := c]) == Total(chains) - |chains[i]| + |c|
  {
    if i > 0 {
      TotalUpdate(chains[1..], i - 1, c);
      assert chains[i := c][1..] == chains[1..][i - 1 := c];
    }
  }

  /** A change to the map outside a chain's keys does not concern the chain. */
  lemma ChainUntouched<K(!new), V>(hash: K -> nat, n: nat, i: nat, chain: Chain<K, V>, m: map<K, V>, m': map<K, V>,
                                   key: K)
    requires n > 0 && ChainOk(hash, n, i, chain, m) && Bucket(hash, n, key) != i
    requires m' - {key} == m - {key}
    ensures ChainOk(hash, n, i, chain, m')
  {
    assert forall k :: k != key ==> (k in m <==> k in m - {key}) && (k in m' <==> k in m' - {key});
    assert forall k :: k != key && k in m ==> m[k] == (m - {key})[k];
    assert forall k :: k != key && k in m' ==> m'[k] == (m' - {key})[k];
  }

  lemma ChainReplace<K(!new), V>(hash: K -> nat, n: nat, i: nat, chain: Chain<K, V>, m: map<K, V>, j: nat, e: V)
    requires n > 0 && ChainOk(hash, n, i, chain, m) && j < |chain|
    ensures ChainOk(hash, n, i, chain[j := Slot(chain[j].key, e)], m[chain[j].key := e])
  {
    var chain' := chain[j := Slot(chain[j].key, e)];
    forall k | HasKey(chain, k) ensures HasKey(chain', k) {
      var y :| 0 <= y < |chain| && chain[y].key == k;
      assert chain'[y].key == k;
    }
  }

  lemma ChainPush<K(!new), V>(hash: K -> nat, n: nat, i: nat, chain: Chain<K, V>, m: map<K, V>, key: K, e: V)
    requires n > 0 && ChainOk(hash, n, i, chain, m) && key !in m && Bucket(hash, n, key) == i
    ensures ChainOk(hash, n, i, [Slot(key, e)] + chain, m[key := e])
  {
    var chain' := [Slot(key, e)] + chain;
    assert chain'[0].key == key;
    forall k | HasKey(chain, k) ensures HasKey(chain', k) {
      var y :| 0 <= y < |chain| && chain[y].key == k;
      assert chain'[y + 1].key == k;
    }
  }

  lemma ChainRemove<K(!new), V>(hash: K -> nat, n: nat, i: nat, chain: Chain<K, V>, m: map<K, V>, j: nat)
    requires n > 0 && ChainOk(hash, n, i, chain, m) && j < |chain|
    ensures ChainOk(hash, n, i, chain[..j] + chain[j + 1..], m - {chain[j].key})
  {
    var chain' := chain[..j] + chain[j + 1..];
    forall k | HasKey(chain, k) && k != chain[j].key ensures HasKey(chain', k) {
      var y :| 0 <= y < |chain| && chain[y].key == k;
      assert chain'[if y < j then y else y - 1].key == k;
    }
  }

  /** Exchanging one chain, together with the map entry of a key of that chain. */
  lemma HoldsUpdate<K(!new), V>(hash: K -> nat, chains: seq<Chain<K, V>>, m: map<K, V>, count: nat, key: K,
                             chain': Chain<K, V>, m': map<K, V>, count': nat)
    requires Holds(hash, chains, m, count) && m' - {key} == m - {key}
    requires var i := Bucket(hash, |chains|, key);
             && ChainOk(hash, |chains|, i, chain', m')
             && count' == count - |chains[i]| + |chain'| == |m'|
    ensures Holds(hash, chains[Bucket(hash, |chains|, key) := chain'], m', count')
  {
    hide ChainOk;
    var i := Bucket(hash, |chains|, key);
    TotalUpdate(chains, i, chain');
    var chains' := chains[i := chain'];
    forall x | 0 <= x < |chains| ensures ChainOk(hash, |chains|, x, chains'[x], m') {
      if x != i { ChainUntouched(hash, |chains|, x, chains[x], m, m', key); }
    }
  }

  lemma MapPut<K, V>(m: map<K, V>, key: K, e: V)
    ensures |m[key := e]| == |m| + (if key in m then 0 else 1)
    ensures m[key := e] - {key} == m - {key}
  {
  }

  lemma MapDrop<K, V>(m: map<K, V>, key: K)
    requires key in m
    ensures |m - {key}| == |m| - 1 && (m - {key}) - {key} == m - {key}
  {
  }

  lemma HoldsFind<K(!new), V>(hash: K -> nat, chains: seq<Chain<K, V>>, m: map<K, V>, count: nat, key: K)
    requires Holds(hash, chains, m, count)
    ensures key in m <==> HasKey(chains[Bucket(hash, |chains|, key)], key)
  {
  }

  lemma HoldsCount<K(!new), V>(hash: K -> nat, chains: seq<Chain<K, V>>, m: map<K, V>, count: nat)
    requires Holds(hash, chains, m, count)
    ensures count == |m|
  {
  }

  lemma HoldsSlot<K(!new), V>(hash: K -> nat, chains: seq<Chain<K, V>>, m: map<K, V>, count: nat, i: nat, j: nat)
    requires Holds(hash, chains, m, count) && i < |chains| && j < |chains[i]|
    ensures var s := chains[i][j]; s.key in m && m[s.key] == s.entry && Bucket(hash, |chains|, s.key) == i
  {
  }

  lemma SlotFacts<K(!new), V>(hash: K -> nat, n: nat, i: nat, chain: Chain<K, V>, m: map<K, V>, j: nat)
    requires n > 0 && ChainOk(hash, n, i, chain, m) && j < |chain|
    ensures chain[j].key in m && m[chain[j].key] == chain[j].entry && Bucket(hash, n, chain[j].key) == i
  {
  }

  lemma {:induction false} TotalAtLeast<K, V>(chains: seq<Chain<K, V>>, i: nat)
    requires i < |chains|
    ensures Total(chains) >= |chains[i]|
  {
    if i > 0 { TotalAtLeast(chains[1..], i - 1); }
  }

  lemma {:induction false} TotalEmpty<K, V>(chains: seq<Chain<K, V>>)
    requires forall i :: 0 <= i < |chains| ==> chains[i] == []
    ensures Total(chains) == 0
  {
    if chains != [] { TotalEmpty(chains[1..]); }
  }
}
