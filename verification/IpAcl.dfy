/** The IP access list: a hash table of exact addresses and a list of address ranges, filled by
    insertions and searched by membership. */
module IpAcl {
  import opened Wrappers
  import opened HashChains
  import opened IpAddress

  const HASH_SIZE := 1024

  /** A range of addresses: a network and the number of its bits that matter. */
  datatype Range = Range(network: Addr, prefix: nat)

  predicate ValidRange(r: Range) {
    r.prefix <= 128
  }

  /** One insertion: a single address, or a range. */
  datatype Insertion = Exact(addr: Addr) | Cidr(range: Range)

  /** What parsing lets through: any address, and a range with at most 128 bits that matter. */
  predicate Storable(i: Insertion) {
    i.Cidr? ==> i.range.prefix <= 128
  }

  function Denoted(i: Insertion): (r: Range)
    ensures Storable(i) ==> ValidRange(r)
  {
    match i
    case Exact(addr) => Range(addr, 128)
    case Cidr(range) => range
  }

  predicate Covers(r: Range, addr: Addr)
    requires ValidRange(r)
  {
    InRange(addr, r.network, r.prefix)
  }

  /** A single address covers itself and nothing else. */
  lemma ExactCovers(a: Addr, addr: Addr)
    ensures Covers(Range(a, 128), addr) <==> addr == a
  {
    hide Num;
    RangeWhole(addr, a, 16);
    assert addr[..16] == addr && a[..16] == a;
  }

  ghost function RangesOf(exact: map<Addr, nat>, cidrs: seq<Range>): set<Range> {
    (set a | a in exact :: Range(a, 128)) + (set r | r in cidrs)
  }

  lemma RangesPut(exact: map<Addr, nat>, cidrs: seq<Range>, addr: Addr)
    ensures RangesOf(exact[addr := 128], cidrs) == RangesOf(exact, cidrs) + {Range(addr, 128)}
    ensures addr in exact ==> Range(addr, 128) in RangesOf(exact, cidrs)
  {
  }

  /** What the first `n` insertions denote, without those there was no memory for. */
  ghost function Stored(insertions: seq<Insertion>, memory: seq<bool>, n: nat): set<Range>
    requires n <= |insertions| == |memory|
  {
    set i | 0 <= i < n && memory[i] :: Denoted(insertions[i])
  }

  lemma StoredNone(insertions: seq<Insertion>, memory: seq<bool>, before: set<Range>)
    requires |insertions| == |memory|
    ensures before + Stored(insertions, memory, 0) == before
  {
  }

  lemma StoredNext(insertions: seq<Insertion>, memory: seq<bool>, k: nat)
    requires k < |insertions| == |memory|
    ensures Stored(insertions, memory, k + 1)
            == Stored(insertions, memory, k) + if memory[k] then {Denoted(insertions[k])} else {}
  {
  }

  class Acl {
    const hash: Addr -> nat
    const buckets: array<Chain<Addr, nat>>
    var numExact: nat
    var cidrs: seq<Range>
    var numCidr: nat
    ghost var exact: map<Addr, nat>

    ghost predicate Valid()
      reads this, buckets
    {
      && buckets.Length == HASH_SIZE
      && Holds(hash, buckets[..], exact, numExact)
      && numCidr == |cidrs|
      && (forall i :: 0 <= i < |cidrs| ==> ValidRange(cidrs[i]))
      && (forall i, j :: 0 <= i < j < |cidrs| ==> cidrs[i] != cidrs[j])
    }

    /** The ranges that have been inserted. */
    ghost function Ranges(): set<Range>
      reads this
    {
      RangesOf(exact, cidrs)
    }

    constructor (hash: Addr -> nat)
      ensures Valid() && fresh(buckets) && Ranges() == {} && this.hash == hash
    {
      this.hash := hash;
      buckets := new Chain<Addr, nat>[HASH_SIZE](i => []);
      numExact, numCidr := 0, 0;
      cidrs := [];
      exact := map[];
      new;
      TotalEmpty(buckets[..]);
    }

    /** A new entry at the head of its chain. */
    method Link(i: nat, addr: Addr)
      requires Valid() && i == Bucket(hash, HASH_SIZE, addr) && addr !in exact
      modifies this, buckets
      ensures Valid() && exact == old(exact)[addr := 128] && cidrs == old(cidrs)
    {
      hide ChainOk, Total;
      ghost var chains := buckets[..];
      var chain' := [Slot(addr, 128)] + buckets[i];
      ChainPush(hash, HASH_SIZE, i, buckets[i], exact, addr, 128);
      MapPut(exact, addr, 128);
      HoldsUpdate(hash, chains, exact, numExact, addr, chain', exact[addr := 128], numExact + 1);
      buckets[i] := chain';
      numExact := numExact + 1;
      exact := exact[addr := 128];
      assert buckets[..] == chains[i := chain'];
    }

    /** An address already present is not added again; without memory nothing changes. */
    method AddExact(addr: Addr, memory: bool) returns (ok: bool)
      requires Valid()
      modifies this, buckets
      ensures Valid()
      ensures ok == (memory || addr in old(exact))
      ensures Ranges() == old(Ranges()) + if ok then {Range(addr, 128)} else {}
      ensures cidrs == old(cidrs)
    {
      hide Holds, RangesOf;
      var i := Bucket(hash, buckets.Length, addr);
      HoldsFind(hash, buckets[..], exact, numExact, addr);
      RangesPut(exact, cidrs, addr);
      var j := 0;
      while j < |buckets[i]|
        invariant 0 <= j <= |buckets[i]|
        invariant forall x :: 0 <= x < j ==> buckets[i][x].key != addr
      {
        if buckets[i][j].key == addr {
          return true;
        }
        j := j + 1;
      }
      if !memory { return false; }
      Link(i, addr);
      return true;
    }

    method AddCidr(range: Range, memory: bool) returns (ok: bool)
      requires Valid() && ValidRange(range)
      modifies this`cidrs, this`numCidr
      ensures Valid()
      ensures ok == (memory || range in old(cidrs))
      ensures Ranges() == old(Ranges()) + if ok then {range} else {}
    {
      for j := 0 to |cidrs|
        invariant forall x :: 0 <= x < j ==> cidrs[x] != range
      {
        if cidrs[j] == range { return true; }
      }
      if !memory { return false; }
      cidrs := [range] + cidrs;
      numCidr := numCidr + 1;
      return true;
    }

    /** Membership: some inserted range covers the address; text that is no address is in no list. */
    method Contains(ip: Option<Addr>) returns (found: bool)
      requires Valid()
      ensures found <==> ip.Some? && exists r :: r in Ranges() && ValidRange(r) && Covers(r, ip.value)
    {
      hide Holds, Num, CidrMatch, InRange;
      if ip.None? { return false; }
      var addr := ip.value;
      var i := Bucket(hash, buckets.Length, addr);
      HoldsFind(hash, buckets[..], exact, numExact, addr);
      for j := 0 to |buckets[i]|
        invariant forall x :: 0 <= x < j ==> buckets[i][x].key != addr
      {
        if buckets[i][j].key == addr {
          ExactCovers(addr, addr);
          assert Range(addr, 128) in Ranges();
          return true;
        }
      }
      for j := 0 to |cidrs|
        invariant forall x :: 0 <= x < j ==> !Covers(cidrs[x], addr)
      {
        CidrMatchIsRange(addr, cidrs[j].network, cidrs[j].prefix);
        if CidrMatch(addr, cidrs[j].network, cidrs[j].prefix) {
          assert cidrs[j] in Ranges();
          return true;
        }
      }
      forall r | r in Ranges() && ValidRange(r) ensures !Covers(r, addr) {
        if r in cidrs {
        } else {
          ExactCovers(r.network, addr);
        }
      }
      return false;
    }

    /** The insertions of one list, in order; one without memory is skipped. */
    method Load(insertions: seq<Insertion>, memory: seq<bool>)
      requires Valid() && forall i :: 0 <= i < |insertions| ==> Storable(insertions[i])
      requires |memory| == |insertions|
      modifies this, buckets
      ensures Valid()
      ensures Ranges() == old(Ranges()) + Stored(insertions, memory, |insertions|)
    {
      hide Holds, RangesOf, Stored;
      StoredNone(insertions, memory, Ranges());
      for k := 0 to |insertions|
        invariant Valid() && Ranges() == old(Ranges()) + Stored(insertions, memory, k)
      {
        StoredNext(insertions, memory, k);
        match insertions[k] {
          case Exact(addr) => LoadExact(addr, memory[k]);
          case Cidr(range) => LoadCidr(range, memory[k]);
        }
      }
    }

    /** Without memory an entry changes nothing: it is a duplicate or is skipped. */
    method LoadExact(addr: Addr, memory: bool)
      requires Valid()
      modifies this, buckets
      ensures Valid() && Ranges() == old(Ranges()) + if memory then {Range(addr, 128)} else {}
    {
      hide Holds;
      RangesPut(exact, cidrs, addr);
      var ok := AddExact(addr, memory);
    }

    method LoadCidr(range: Range, memory: bool)
      requires Valid() && ValidRange(range)
      modifies this`cidrs, this`numCidr
      ensures Valid() && Ranges() == old(Ranges()) + if memory then {range} else {}
    {
      hide Holds;
      var ok := AddCidr(range, memory);
    }
  }

  /** What an insertion stands for: one address, or all that agree with the network in the first bits. */
  ghost predicate Matches(i: Insertion, addr: Addr)
    requires Storable(i)
  {
    match i
    case Exact(a) => addr == a
    case Cidr(range) => Agree(addr, range.network, range.prefix)
  }

  lemma MatchesCovers(i: Insertion, addr: Addr)
    requires Storable(i)
    ensures Covers(Denoted(i), addr) <==> Matches(i, addr)
  {
    hide InRange, Agree;
    match i
    case Exact(a) => ExactCovers(a, addr);
    case Cidr(range) => RangeIsBits(addr, range.network, range.prefix);
  }

  /** After any insertions, in any order and with duplicates, an address is found exactly when one of
      those there was memory for covers it. */
  method Lookup(hash: Addr -> nat, insertions: seq<Insertion>, memory: seq<bool>, addr: Addr) returns (found: bool)
    requires |memory| == |insertions| && forall i :: 0 <= i < |insertions| ==> Storable(insertions[i])
    ensures found <==> exists i :: 0 <= i < |insertions| && memory[i] && Matches(insertions[i], addr)
  {
    hide Holds, Covers, Matches;
    forall i | 0 <= i < |insertions| ensures Covers(Denoted(insertions[i]), addr) <==> Matches(insertions[i], addr) {
      MatchesCovers(insertions[i], addr);
    }
    var acl := new Acl(hash);
    acl.Load(insertions, memory);
    found := acl.Contains(Some(addr));
  }

  /** An IPv4 network and its prefix length, as written in a list. */
  datatype Net4 = Net4(net: Bytes, bits: nat)

  predicate ValidNet4(r: Net4) {
    |r.net| == 4 && r.bits <= 32
  }

  /** What an IPv4 line is stored as: the mapped network, 96 bits longer. */
  function Stored4(r: Net4): Insertion
    requires ValidNet4(r)
  {
    Cidr(Range(Mapped(r.net), 96 + r.bits))
  }

  /** The IPv4 addresses of a network are those that agree with it in its first bits. */
  ghost predicate Contains4(r: Net4, v4: Bytes)
    requires ValidNet4(r) && |v4| == 4
  {
    Agree(v4, r.net, r.bits)
  }

  lemma Stored4Covers(r: Net4, addr: Addr)
    requires ValidNet4(r)
    ensures Covers(Denoted(Stored4(r)), addr) <==> IsMapped(addr) && Contains4(r, addr[12..])
  {
    hide InRange, IsMapped, Agree;
    RangeIsBits(addr, Mapped(r.net), 96 + r.bits);
    MappedAgree(addr, r.net, r.bits);
  }

  /** A list of IPv4 networks finds exactly the IPv4 addresses in them, by 32-bit prefixes, and no other address. */
  method Lookup4(hash: Addr -> nat, nets: seq<Net4>, addr: Addr) returns (found: bool)
    requires forall i :: 0 <= i < |nets| ==> ValidNet4(nets[i])
    ensures found <==> IsMapped(addr) && exists i :: 0 <= i < |nets| && Contains4(nets[i], addr[12..])
  {
    hide Covers, Contains4, IsMapped, Matches;
    var insertions := seq(|nets|, i requires 0 <= i < |nets| => Stored4(nets[i]));
    forall i | 0 <= i < |nets|
      ensures Matches(insertions[i], addr) <==> IsMapped(addr) && Contains4(nets[i], addr[12..])
    {
      Stored4Covers(nets[i], addr);
      MatchesCovers(insertions[i], addr);
    }
    found := Lookup(hash, insertions, seq(|nets|, i => true), addr);
  }

  datatype Verdict = Block | Allow | Neutral

  /** The blocklist takes precedence over the allowlist. */
  method Check(blocklist: Acl, allowlist: Acl, ip: Option<Addr>) returns (verdict: Verdict)
    requires blocklist.Valid() && allowlist.Valid()
    ensures var blocked := ip.Some? && exists r :: r in blocklist.Ranges() && ValidRange(r) && Covers(r, ip.value);
            var allowed := ip.Some? && exists r :: r in allowlist.Ranges() && ValidRange(r) && Covers(r, ip.value);
            verdict == if blocked then Block else if allowed then Allow else Neutral
  {
    var blocked := blocklist.Contains(ip);
    if blocked { return Block; }
    var allowed := allowlist.Contains(ip);
    return if allowed then Allow else Neutral;
  }
}
