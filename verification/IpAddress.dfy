/** 128-bit addresses, prefix comparison and IPv4-mapped addresses (section 3.1 of RFC 4632,
    section 2.5.5.2 of RFC 4291). */
module IpAddress {
  import opened Arithmetic

  type Bytes = seq<bv8>

  type Addr = a: Bytes | |a| == 16 witness [0, 0, 0, 0, 0, 0, 0, 0, 0, 0, 0, 0, 0, 0, 0, 0]

  function Val(x: bv8): (v: int)
    ensures 0 <= v < 256
  {
    x as int
  }

  /** The number a byte string denotes, most significant byte first. */
  function Num(a: Bytes): nat {
    if a == [] then 0 else Num(a[..|a| - 1]) * 256 + Val(a[|a| - 1])
  }

  /** `(0xff << (8 - bits)) & 0xff` for a number of bits from one to seven. */
  function Mask(bits: nat): bv8
    requires 0 < bits < 8
  {
    match bits
    case 1 => 0x80
    case 2 => 0xc0
    case 3 => 0xe0
    case 4 => 0xf0
    case 5 => 0xf8
    case 6 => 0xfc
    case 7 => 0xfe
  }

  predicate SameTopBits(x: bv8, y: bv8, bits: nat)
    requires 0 < bits < 8
  {
    x & Mask(bits) == y & Mask(bits)
  }

  /** The comparison of the source: whole bytes first, then the masked rest. */
  predicate CidrMatch(addr: Addr, network: Addr, prefix: nat)
    requires prefix <= 128
  {
    var full, rest := prefix / 8, prefix % 8;
    if full > 0 && addr[..full] != network[..full] then false
    else if rest > 0 && full < 16 then SameTopBits(addr[full], network[full], rest)
    else true
  }

  /** What is left of a byte string's number after its last `drop` bits. */
  function TopBits(a: Bytes, drop: nat): int {
    Num(a) / Pow2(drop)
  }

  /** The addresses whose top `prefix` bits are those of the network. */
  predicate InRange(addr: Addr, network: Addr, prefix: nat)
    requires prefix <= 128
  {
    TopBits(addr, 128 - prefix) == TopBits(network, 128 - prefix)
  }

  /* ---------- masked bytes are top bits ---------- */

  lemma ShiftBy1(x: bv8)
    ensures (x >> 1) as int == x as int / 2
  {
  }

  lemma ShiftBy2(x: bv8)
    ensures (x >> 2) as int == x as int / 4
  {
  }

  lemma ShiftBy3(x: bv8)
    ensures (x >> 3) as int == x as int / 8
  {
  }

  lemma ShiftBy4(x: bv8)
    ensures (x >> 4) as int == x as int / 16
  {
  }

  lemma ShiftBy5(x: bv8)
    ensures (x >> 5) as int == x as int / 32
  {
  }

  lemma ShiftBy6(x: bv8)
    ensures (x >> 6) as int == x as int / 64
  {
  }

  lemma ShiftBy7(x: bv8)
    ensures (x >> 7) as int == x as int / 128
  {
  }

  lemma ByteInjective(x: bv8, y: bv8)
    ensures x as int == y as int <==> x == y
  {
  }

  /** The number of a byte shifted right, as the divisor 2^k of its value. */
  function Shifted(x: bv8, k: nat): bv8
    requires 0 < k < 8
  {
    match k
    case 1 => x >> 1
    case 2 => x >> 2
    case 3 => x >> 3
    case 4 => x >> 4
    case 5 => x >> 5
    case 6 => x >> 6
    case 7 => x >> 7
  }

  lemma ShiftedNumber(x: bv8, k: nat)
    requires 0 < k < 8
    ensures Shifted(x, k) as int == x as int / Pow2(k)
  {
    assert Pow2(2) == 4 && Pow2(4) == 16 && Pow2(6) == 64;
    match k
    case 1 => ShiftBy1(x);
    case 2 => ShiftBy2(x);
    case 3 => ShiftBy3(x);
    case 4 => ShiftBy4(x);
    case 5 => ShiftBy5(x);
    case 6 => ShiftBy6(x);
    case 7 => ShiftBy7(x);
  }

  lemma MaskIsShifted(x: bv8, y: bv8, bits: nat)
    requires 0 < bits < 8
    ensures x & Mask(bits) == y & Mask(bits) <==> Shifted(x, 8 - bits) == Shifted(y, 8 - bits)
  {
  }

  /** The top bits of one byte. */
  function ByteTop(x: bv8, bits: nat): int
    requires 0 < bits < 8
  {
    Val(x) / Pow2(8 - bits)
  }

  lemma MaskedByte(x: bv8, y: bv8, bits: nat)
    requires 0 < bits < 8
    ensures SameTopBits(x, y, bits) <==> ByteTop(x, bits) == ByteTop(y, bits)
  {
    hide Mask, Shifted, Pow2;
    MaskIsShifted(x, y, bits);
    ShiftedNumber(x, 8 - bits);
    ShiftedNumber(y, 8 - bits);
    ByteInjective(Shifted(x, 8 - bits), Shifted(y, 8 - bits));
  }

  /* ---------- numbers of byte strings ---------- */

  lemma Pow8()
    ensures Pow2(8) == 256
  {
  }

  lemma NumSnoc(a: Bytes, k: nat)
    requires k < |a|
    ensures Num(a[..k + 1]) == Num(a[..k]) * 256 + Val(a[k])
  {
    hide Val;
    assert a[..k + 1][..k] == a[..k];
  }

  lemma {:induction false} NumInjective(a: Bytes, b: Bytes)
    requires |a| == |b|
    ensures Num(a) == Num(b) <==> a == b
  {
    if a != [] {
      var n := |a| - 1;
      NumInjective(a[..n], b[..n]);
      ByteInjective(a[n], b[n]);
      assert a == a[..n] + [a[n]] && b == b[..n] + [b[n]];
    }
  }

  /** Dropping whole bytes from the end divides by 256 for each. */
  lemma {:induction false} NumPrefix(a: Bytes, k: nat)
    requires k <= |a|
    ensures Num(a) / Pow2(8 * (|a| - k)) == Num(a[..k])
    decreases |a|
  {
    hide Num, Val, Pow2;
    if k == |a| {
      assert a[..k] == a;
      PowZero();
    } else {
      var n := |a| - 1;
      NumPrefix(a[..n], k);
      assert a[..n][..k] == a[..k] && a[..n + 1] == a;
      NumSnoc(a, n);
      Pow2Add(8, 8 * (n - k));
      Pow8();
      ByteDiv(Num(a[..n]), Val(a[n]));
      DivDiv(Num(a), 256, Pow2(8 * (n - k)));
    }
  }

  lemma PowZero()
    ensures Pow2(0) == 1
  {
  }

  lemma ByteDiv(x: nat, b: int)
    requires 0 <= b < 256
    ensures (x * 256 + b) / 256 == x
  {
  }

  lemma MulMonotone(a: int, b: int, p: nat)
    requires a <= b
    ensures a * p <= b * p
  {
  }

  /** The top bits of a byte string that end inside byte `k`: those of the bytes before it and the
      top bits of the byte. */
  lemma NumPartial(a: Bytes, k: nat, bits: nat)
    requires k < |a| && 0 < bits < 8
    ensures TopBits(a, 8 * (|a| - k) - bits) == Num(a[..k]) * Pow2(bits) + ByteTop(a[k], bits)
    ensures 0 <= ByteTop(a[k], bits) < Pow2(bits)
  {
    hide Pow2, Num, Val;
    var m := 8 * (|a| - k - 1);
    Pow2Add(m, 8 - bits);
    DivDiv(Num(a), Pow2(m), Pow2(8 - bits));
    NumPrefix(a, k + 1);
    NumSnoc(a, k);
    Pow2Add(bits, 8 - bits);
    Pow8();
    SplitQuotient(Num(a[..k]), Pow2(bits), Pow2(8 - bits), Val(a[k]));
  }

  lemma PairsEqual(q: nat, x: int, r: int, y: int, t: int)
    requires 0 <= r < q && 0 <= t < q
    ensures x * q + r == y * q + t <==> x == y && r == t
  {
    if x * q + r == y * q + t { QuotientUnique(q, x, r, y, t); }
  }

  lemma RangeWhole(x: Addr, y: Addr, k: nat)
    requires k <= 16
    ensures TopBits(x, 8 * (16 - k)) == TopBits(y, 8 * (16 - k)) <==> x[..k] == y[..k]
  {
    hide Pow2, Num;
    NumPrefix(x, k);
    NumPrefix(y, k);
    NumInjective(x[..k], y[..k]);
  }

  lemma RangePartial(x: Addr, y: Addr, k: nat, bits: nat)
    requires k < 16 && 0 < bits < 8
    ensures TopBits(x, 8 * (16 - k) - bits) == TopBits(y, 8 * (16 - k) - bits)
            <==> x[..k] == y[..k] && SameTopBits(x[k], y[k], bits)
  {
    hide Pow2, Num, SameTopBits, ByteTop, TopBits;
    NumPartial(x, k, bits);
    NumPartial(y, k, bits);
    NumInjective(x[..k], y[..k]);
    MaskedByte(x[k], y[k], bits);
    PairsEqual(Pow2(bits), Num(x[..k]), ByteTop(x[k], bits), Num(y[..k]), ByteTop(y[k], bits));
  }

  /** The comparison of the source accepts exactly the addresses that share the top prefix bits. */
  lemma CidrMatchIsRange(addr: Addr, network: Addr, prefix: nat)
    requires prefix <= 128
    ensures CidrMatch(addr, network, prefix) <==> InRange(addr, network, prefix)
  {
    hide TopBits, SameTopBits;
    var k, bits := prefix / 8, prefix % 8;
    assert addr[..0] == network[..0];
    if bits == 0 {
      RangeWhole(addr, network, k);
      assert 128 - prefix == 8 * (16 - k);
    } else {
      RangePartial(addr, network, k, bits);
      assert 128 - prefix == 8 * (16 - k) - bits;
    }
  }

  /* ---------- bit by bit ---------- */

  function OneBit(i: nat): bv8
    requires i < 8
  {
    match i
    case 0 => 0x80
    case 1 => 0x40
    case 2 => 0x20
    case 3 => 0x10
    case 4 => 0x08
    case 5 => 0x04
    case 6 => 0x02
    case 7 => 0x01
  }

  /** Bit `i` of a byte, counted from the most significant one. */
  predicate BitAt(x: bv8, i: nat)
    requires i < 8
  {
    x & OneBit(i) == OneBit(i)
  }

  predicate SameBit(x: bv8, y: bv8, i: nat)
    requires i < 8
  {
    BitAt(x, i) == BitAt(y, i)
  }

  /** The first `n` bits of two byte strings are the same. */
  ghost predicate Agree(a: Bytes, b: Bytes, n: nat)
    requires |a| == |b| && n <= 8 * |a|
  {
    forall i :: 0 <= i < n ==> SameBit(a[i / 8], b[i / 8], i % 8)
  }

  lemma NextBitHigh(x: bv8, y: bv8, n: nat)
    requires 1 <= n <= 2
    ensures SameTopBits(x, y, n + 1) <==> SameTopBits(x, y, n) && SameBit(x, y, n)
  {
  }

  lemma NextBitMiddle(x: bv8, y: bv8, n: nat)
    requires 3 <= n <= 4
    ensures SameTopBits(x, y, n + 1) <==> SameTopBits(x, y, n) && SameBit(x, y, n)
  {
  }

  lemma NextBitLow(x: bv8, y: bv8, n: nat)
    requires 5 <= n <= 6
    ensures SameTopBits(x, y, n + 1) <==> SameTopBits(x, y, n) && SameBit(x, y, n)
  {
  }

  lemma OuterBits(x: bv8, y: bv8)
    ensures SameTopBits(x, y, 1) <==> SameBit(x, y, 0)
    ensures x == y <==> SameTopBits(x, y, 7) && SameBit(x, y, 7)
  {
  }

  lemma {:induction false} TopBitsOfByte(x: bv8, y: bv8, n: nat)
    requires n <= 8
    ensures (forall i :: 0 <= i < n ==> SameBit(x, y, i)) <==>
            if n == 0 then true else if n == 8 then x == y else SameTopBits(x, y, n)
  {
    hide SameBit, SameTopBits;
    OuterBits(x, y);
    if n > 1 {
      TopBitsOfByte(x, y, n - 1);
      if n <= 3 { NextBitHigh(x, y, n - 1); } else if n <= 5 { NextBitMiddle(x, y, n - 1); }
      else if n <= 7 { NextBitLow(x, y, n - 1); }
    }
  }

  /** A range is what it is by its bits: the addresses that agree with the network in the first `prefix` of them. */
  lemma RangeIsBits(addr: Addr, network: Addr, prefix: nat)
    requires prefix <= 128
    ensures InRange(addr, network, prefix) <==> Agree(addr, network, prefix)
  {
    hide InRange, SameTopBits, SameBit;
    CidrMatchIsRange(addr, network, prefix);
    var full, rest := prefix / 8, prefix % 8;
    forall k | 0 <= k < 16
      ensures addr[k] == network[k] <==> forall i :: 0 <= i < 8 ==> SameBit(addr[k], network[k], i)
    {
      TopBitsOfByte(addr[k], network[k], 8);
    }
    assert addr[..full] == network[..full] <==> forall k :: 0 <= k < full ==> addr[k] == network[k];
    if rest > 0 { TopBitsOfByte(addr[full], network[full], rest); }
    AgreeByBytes(addr, network, prefix);
  }

  lemma AgreeByBytes(a: Bytes, b: Bytes, n: nat)
    requires |a| == |b| && n <= 8 * |a|
    ensures Agree(a, b, n) <==>
            && (forall k :: 0 <= k < n / 8 ==> forall i :: 0 <= i < 8 ==> SameBit(a[k], b[k], i))
            && (n % 8 > 0 ==> forall i :: 0 <= i < n % 8 ==> SameBit(a[n / 8], b[n / 8], i))
  {
    hide SameBit;
    if Agree(a, b, n) {
      forall k, i | 0 <= k < n / 8 && 0 <= i < 8 ensures SameBit(a[k], b[k], i) {
        assert (8 * k + i) / 8 == k && (8 * k + i) % 8 == i;
      }
      forall i | 0 <= i < n % 8 ensures SameBit(a[n / 8], b[n / 8], i) {
        var m := 8 * (n / 8) + i;
        assert m / 8 == n / 8 && m % 8 == i && m < n;
      }
    }
  }

  /* ---------- IPv4 addresses ---------- */

  const MAPPED_PREFIX: Bytes := [0, 0, 0, 0, 0, 0, 0, 0, 0, 0, 0xff, 0xff]

  /** The address is ::ffff:a.b.c.d for some IPv4 address. */
  ghost predicate IsMapped(addr: Addr) {
    (forall i :: 0 <= i < 10 ==> addr[i] == 0) && addr[10] == 0xff && addr[11] == 0xff
  }

  lemma MappedIs(addr: Addr)
    ensures addr == Mapped(addr[12..]) <==> IsMapped(addr)
  {
    if IsMapped(addr) {
      assert addr[..12] == MAPPED_PREFIX;
      assert addr == addr[..12] + addr[12..];
    }
  }

  /** ::ffff:a.b.c.d */
  function Mapped(v4: Bytes): Addr
    requires |v4| == 4
  {
    MAPPED_PREFIX + v4
  }

  lemma ConcatStep(x: nat, p: nat, y: nat, b: nat)
    requires y < p && b < 256
    ensures (x * p + y) * 256 + b == x * (p * 256) + (y * 256 + b)
    ensures y * 256 + b < p * 256
  {
  }

  /** Cutting a byte string in two and comparing top bits beyond the cut. */
  lemma {:induction false} NumConcat(a: Bytes, b: Bytes)
    ensures Num(a + b) == Num(a) * Pow2(8 * |b|) + Num(b)
    ensures Num(b) < Pow2(8 * |b|)
  {
    hide Val, Num, Pow2;
    if b == [] {
      assert a + b == a;
      PowZero();
      NumNil();
    } else {
      var n := |b| - 1;
      var c := b[..n];
      NumConcat(a, c);
      assert (a + b)[..|a| + n] == a + c;
      NumLast(a + b);
      NumLast(b);
      Pow2Add(8 * n, 8);
      Pow8();
      ConcatStep(Num(a), Pow2(8 * n), Num(c), Val(b[n]));
    }
  }

  lemma NumNil()
    ensures Num([]) == 0
  {
  }

  lemma NumLast(a: Bytes)
    requires a != []
    ensures Num(a) == Num(a[..|a| - 1]) * 256 + Val(a[|a| - 1])
  {
  }

  /** The IPv4 range `net`/N, stored as the mapped address with prefix 96 + N, holds no address that
      is not mapped and holds a mapped one exactly when its top N of 32 bits are those of `net`. */
  lemma MappedRange(addr: Addr, net: Bytes, n: nat)
    requires |net| == 4 && n <= 32
    ensures InRange(addr, Mapped(net), 96 + n) <==>
            IsMapped(addr) && TopBits(addr[12..], 32 - n) == TopBits(net, 32 - n)
  {
    hide Num, Pow2, IsMapped;
    MappedIs(addr);
    var p, q := Pow2(32 - n), Pow2(n);
    var x, y := Num(addr[..12]), Num(MAPPED_PREFIX);
    var r, t := Num(addr[12..]), Num(net);
    assert addr == addr[..12] + addr[12..];
    NumConcat(addr[..12], addr[12..]);
    NumConcat(MAPPED_PREFIX, net);
    Pow2Add(n, 32 - n);
    SplitQuotient(x, q, p, r);
    SplitQuotient(y, q, p, t);
    PairsEqual(q, x, r / p, y, t / p);
    NumInjective(addr[..12], MAPPED_PREFIX);
  }

  /** The same by bits: the first 96 say that the address is mapped, the rest belong to the IPv4 address. */
  lemma MappedAgree(addr: Addr, net: Bytes, n: nat)
    requires |net| == 4 && n <= 32
    ensures Agree(addr, Mapped(net), 96 + n) <==> IsMapped(addr) && Agree(addr[12..], net, n)
  {
    hide SameBit;
    var m := Mapped(net);
    forall k | 0 <= k < 12 ensures addr[k] == m[k] <==> forall i :: 0 <= i < 8 ==> SameBit(addr[k], m[k], i) {
      TopBitsOfByte(addr[k], m[k], 8);
    }
    assert IsMapped(addr) <==> forall k :: 0 <= k < 12 ==> addr[k] == m[k];
    AgreeByBytes(addr, m, 96 + n);
    AgreeByBytes(addr[12..], net, n);
    TailAgrees(addr, m, net, n);
  }

  lemma TailAgrees(addr: Addr, m: Addr, net: Bytes, n: nat)
    requires |net| == 4 && n <= 32 && m[12..] == net
    ensures (forall k :: 12 <= k < (96 + n) / 8 ==> forall i :: 0 <= i < 8 ==> SameBit(addr[k], m[k], i)) <==>
            (forall k :: 0 <= k < n / 8 ==> forall i :: 0 <= i < 8 ==> SameBit(addr[12..][k], net[k], i))
    ensures n % 8 > 0 ==> addr[(96 + n) / 8] == addr[12..][n / 8] && m[(96 + n) / 8] == net[n / 8]
  {
    hide SameBit;
    assert (96 + n) / 8 == 12 + n / 8;
    assert forall k :: 12 <= k < 16 ==> addr[k] == addr[12..][k - 12] && m[k] == net[k - 12];
    if forall k :: 12 <= k < (96 + n) / 8 ==> forall i :: 0 <= i < 8 ==> SameBit(addr[k], m[k], i) {
      forall k, i | 0 <= k < n / 8 && 0 <= i < 8 ensures SameBit(addr[12..][k], net[k], i) {
        assert SameBit(addr[k + 12], m[k + 12], i);
      }
    }
  }

  lemma SplitQuotient(x: nat, q: nat, p: nat, r: nat)
    requires p >= 1 && r < q * p
    ensures (x * (q * p) + r) / p == x * q + r / p && 0 <= r / p < q
  {
    var a, b := r / p, r % p;
    DivMod(r, p);
    Regrouped(x, q, p, a, b);
    DivModUnique(x * (q * p) + r, p, x * q + a, b);
    if a >= q { MulMonotone(q, a, p); }
  }

  lemma Regrouped(x: nat, q: nat, p: nat, a: nat, b: nat)
    ensures x * (q * p) + (b + a * p) == p * (x * q + a) + b
  {
    assert x * (q * p) == p * (x * q);
    assert p * (x * q + a) == p * (x * q) + p * a;
  }
}
