/** Regrouping of bit strings between 8-bit bytes and 5-bit symbols (BIP 173).

    The accumulator of the source is a JavaScript number passed through 32-bit bit operators and
    never masked, so it is modelled as a signed 32-bit integer that wraps: `<<` multiplies and
    wraps, `>>` is the floor of a division and `& (2^n - 1)` is the remainder by 2^n. */
module ConvertBits {
  import opened Wrappers
  import opened Arithmetic

  /* ---------- bit strings ---------- */

  /** The low `n` bits of `v`, most significant first. */
  function Bits(v: int, n: nat): (b: seq<bool>)
    ensures |b| == n
    decreases n
  {
    if n == 0 then [] else Bits(v / 2, n - 1) + [v % 2 == 1]
  }

  /** The bit string of a list of `n`-bit groups. */
  function AllBits(values: seq<int>, n: nat): (b: seq<bool>)
    ensures |b| == n * |values|
  {
    if values == [] then [] else AllBits(values[..|values| - 1], n) + Bits(values[|values| - 1], n)
  }

  function ZeroBits(n: nat): (b: seq<bool>)
    ensures |b| == n
  {
    seq(n, i => false)
  }

  ghost predicate InRange(values: seq<int>, n: nat) {
    forall i :: 0 <= i < |values| ==> 0 <= values[i] < Pow2(n)
  }

  lemma AllBitsSnoc(values: seq<int>, v: int, n: nat)
    ensures AllBits(values + [v], n) == AllBits(values, n) + Bits(v, n)
  {
  }

  /* ---------- how the arithmetic acts on bit strings ---------- */

  /** Multiples of 2^n do not show in the low n bits. */
  lemma {:induction false} BitsMod(x: int, k: int, n: nat)
    ensures Bits(x + k * Pow2(n), n) == Bits(x, n)
    decreases n
  {
    if n > 0 {
      var p := Pow2(n - 1);
      assert k * Pow2(n) == 2 * (k * p);
      BitsMod(x / 2, k, n - 1);
      assert (x + 2 * (k * p)) / 2 == x / 2 + k * p;
    }
  }

  lemma BitsRemainder(x: int, n: nat)
    ensures Bits(x % Pow2(n), n) == Bits(x, n)
  {
    hide Pow2, Bits;
    var p := Pow2(n);
    DivMod(x, p);
    BitsMod(x % p, x / p, n);
  }

  /** Wrapping to 32 bits keeps the low 32 bits. */
  lemma BitsWrap(x: int, v: int, n: nat)
    requires n <= 32
    ensures Bits(ToInt32(x) + v, n) == Bits(x + v, n)
  {
    hide Pow2, Bits;
    var k := (x + 0x8000_0000) / 0x1_0000_0000;
    var c, p := Pow2(32 - n), Pow2(n);
    Pow2Add(32 - n, n);
    Pow32();
    assert k * (c * p) == (k * c) * p;
    BitsMod(ToInt32(x) + v, k * c, n);
  }

  /** Shifting left and filling in `v` appends the bits of `v`. */
  lemma {:induction false} BitsAppend(a: int, m: nat, v: int, n: nat)
    requires 0 <= v < Pow2(n)
    ensures Bits(a * Pow2(n) + v, m + n) == Bits(a, m) + Bits(v, n)
    decreases n
  {
    if n == 0 {
      assert a * Pow2(0) + v == a;
    } else {
      var p := Pow2(n - 1);
      assert a * Pow2(n) + v == 2 * (a * p) + v;
      assert (2 * (a * p) + v) / 2 == a * p + v / 2;
      BitsAppend(a, m, v / 2, n - 1);
      assert Bits(a * Pow2(n) + v, m + n) == Bits(a * p + v / 2, m + n - 1) + [v % 2 == 1];
    }
  }

  /** The top `m` of `m + n` bits are those of the number shifted right by `n`. */
  lemma BitsSplit(a: int, m: nat, n: nat)
    ensures Bits(a, m + n) == Bits(a / Pow2(n), m) + Bits(a, n)
  {
    hide Pow2, Bits;
    BitsAppend(a / Pow2(n), m, a % Pow2(n), n);
    BitsRemainder(a, n);
    DivMod(a, Pow2(n));
  }

  lemma {:induction false} BitsInjective(x: int, y: int, n: nat)
    requires 0 <= x < Pow2(n) && 0 <= y < Pow2(n)
    requires Bits(x, n) == Bits(y, n)
    ensures x == y
    decreases n
  {
    if n > 0 {
      assert Bits(x, n)[..n - 1] == Bits(x / 2, n - 1) && Bits(y, n)[..n - 1] == Bits(y / 2, n - 1);
      assert Bits(x, n)[n - 1] == (x % 2 == 1) && Bits(y, n)[n - 1] == (y % 2 == 1);
      BitsInjective(x / 2, y / 2, n - 1);
    }
  }

  lemma {:induction false} BitsOfZero(n: nat)
    ensures Bits(0, n) == ZeroBits(n)
  {
    if n > 0 { BitsOfZero(n - 1); }
  }

  lemma {:induction false} AllBitsInjective(xs: seq<int>, ys: seq<int>, n: nat)
    requires |xs| == |ys| && InRange(xs, n) && InRange(ys, n)
    requires AllBits(xs, n) == AllBits(ys, n)
    ensures xs == ys
  {
    if xs != [] {
      var k := |xs| - 1;
      var p, q := AllBits(xs[..k], n), AllBits(ys[..k], n);
      assert |p| == |q|;
      assert AllBits(xs, n)[..|p|] == p && AllBits(ys, n)[..|q|] == q;
      assert AllBits(xs, n)[|p|..] == Bits(xs[k], n) && AllBits(ys, n)[|q|..] == Bits(ys[k], n);
      AllBitsInjective(xs[..k], ys[..k], n);
      BitsInjective(xs[k], ys[k], n);
    }
  }

  /* ---------- the conversion ---------- */

  /** The bits of `total` that make whole groups of `to`. */
  function Whole(total: nat, to: nat): (n: nat)
    requires to > 0
    ensures n <= total && n + total % to == total
  {
    DivMod(total, to);
    total - total % to
  }

  /** What a conversion of `data` from groups of `from` bits to groups of `to` bits yields.
      The values must be `from`-bit groups. With padding, the output spells the input bits followed
      by fewer than `to` zeros. Without, the bits left over after the last whole group must be
      fewer than `from` and all zero, and the output spells the bits before them. */
  ghost predicate Converted(data: seq<int>, from: nat, to: nat, pad: bool, r: Option<seq<int>>)
    requires to > 0
  {
    var total := from * |data|;
    var left := total % to;
    if !InRange(data, from) then r == None
    else if pad then
      && r.Some? && InRange(r.value, to)
      && AllBits(r.value, to) == AllBits(data, from) + ZeroBits(if left == 0 then 0 else to - left)
    else if left >= from || AllBits(data, from)[Whole(total, to)..] != ZeroBits(left) then r == None
    else
      && r.Some? && InRange(r.value, to)
      && AllBits(r.value, to) == AllBits(data, from)[..Whole(total, to)]
  }

  /** `to` bits of the accumulator, above the lowest `b`: `>>` repeats the sign bit beyond the 32nd. */
  function Slice(acc: int, b: int, to: nat): int {
    if b < 0 then 0 else acc / Pow2(b) % Pow2(to)
  }

  /** The groups added are slices of the accumulator; group `j` ends `to * (j + 1)` bits into the input. */
  ghost predicate Cut(acc: int, total: nat, to: nat, before: seq<int>, groups: seq<int>) {
    && |before| <= |groups| && groups[..|before|] == before
    && forall j :: |before| <= j < |groups| ==> groups[j] == Slice(acc, total - to * (j + 1), to)
  }

  lemma CutOneMore(acc: int, total: nat, to: nat, before: seq<int>, groups: seq<int>, bits: nat)
    requires Cut(acc, total, to, before, groups) && total == to * (|groups| + 1) + bits
    ensures Cut(acc, total, to, before, groups + [acc / Pow2(bits) % Pow2(to)])
  {
    hide Pow2, Slice;
    var longer := groups + [acc / Pow2(bits) % Pow2(to)];
    SliceAt(acc, bits, to);
    forall j | |before| <= j < |longer| ensures longer[j] == Slice(acc, total - to * (j + 1), to) {
      if j < |groups| { assert longer[j] == groups[j]; }
    }
    assert longer[..|before|] == groups[..|before|];
  }

  lemma SliceAt(acc: int, b: nat, to: nat)
    ensures Slice(acc, b, to) == acc / Pow2(b) % Pow2(to)
  {
  }

  lemma CutNothing(acc: int, total: nat, to: nat, groups: seq<int>)
    ensures Cut(acc, total, to, groups, groups)
  {
  }

  lemma OneGroup(acc: int, bits: nat, to: nat, groups: seq<int>)
    requires InRange(groups, to)
    ensures 0 <= acc / Pow2(bits) % Pow2(to) < Pow2(to)
    ensures AllBits(groups + [acc / Pow2(bits) % Pow2(to)], to) + Bits(acc, bits)
            == AllBits(groups, to) + Bits(acc, bits + to)
  {
    hide Pow2, Bits, AllBits;
    BitsSplit(acc, to, bits);
    BitsRemainder(acc / Pow2(bits), to);
    AllBitsSnoc(groups, acc / Pow2(bits) % Pow2(to), to);
  }

  /** The inner loop: push whole groups while enough bits are pending. */
  method Flush(acc: int, bits0: nat, to: nat, result0: seq<int>) returns (bits: nat, result: seq<int>)
    requires to > 0 && InRange(result0, to)
    ensures bits < to && InRange(result, to) && to * |result| + bits == to * |result0| + bits0
    ensures Cut(acc, to * |result0| + bits0, to, result0, result)
    ensures AllBits(result, to) + Bits(acc, bits) == AllBits(result0, to) + Bits(acc, bits0)
  {
    hide Pow2, Bits, AllBits, Cut;
    bits, result := bits0, result0;
    CutNothing(acc, to * |result0| + bits0, to, result0);
    while bits >= to
      invariant InRange(result, to) && to * |result| + bits == to * |result0| + bits0
      invariant Cut(acc, to * |result0| + bits0, to, result0, result)
      invariant AllBits(result, to) + Bits(acc, bits) == AllBits(result0, to) + Bits(acc, bits0)
    {
      MulNext(to, |result|);
      bits := bits - to;
      CutOneMore(acc, to * |result0| + bits0, to, result0, result, bits);
      OneGroup(acc, bits, to, result);
      result := result + [acc / Pow2(bits) % Pow2(to)];
    }
  }

  lemma Accumulate(acc: int, bits: nat, value: int, from: nat)
    requires 0 <= value < Pow2(from) && bits + from <= 32
    ensures Bits(ToInt32(acc * Pow2(from)) + value, bits + from) == Bits(acc, bits) + Bits(value, from)
  {
    hide Pow2, Bits, ToInt32;
    BitsWrap(acc * Pow2(from), value, bits + from);
    BitsAppend(acc, bits, value, from);
  }

  /** The pending bits, moved up to fill a group. */
  function PadGroup(acc: int, bits: nat, to: nat): int
    requires bits <= to
  {
    ToInt32(acc * Pow2(to - bits)) % Pow2(to)
  }

  lemma PadGroupBits(acc: int, bits: nat, to: nat)
    requires bits <= to <= 32
    ensures 0 <= PadGroup(acc, bits, to) < Pow2(to)
    ensures Bits(PadGroup(acc, bits, to), to) == Bits(acc, bits) + ZeroBits(to - bits)
    ensures PadGroup(acc, bits, to) == 0 <==> Bits(acc, bits) == ZeroBits(bits)
  {
    hide Pow2, Bits, ToInt32;
    var g := PadGroup(acc, bits, to);
    BitsRemainder(ToInt32(acc * Pow2(to - bits)), to);
    Accumulate(acc, bits, 0, to - bits);
    BitsOfZero(to - bits);
    assert Bits(g, to)[..bits] == Bits(acc, bits);
    BitsOfZero(to);
    assert ZeroBits(to)[..bits] == ZeroBits(bits);
    assert ZeroBits(bits) + ZeroBits(to - bits) == ZeroBits(to);
    if Bits(acc, bits) == ZeroBits(bits) { BitsInjective(g, 0, to); }
  }

  /** The bits left after the last whole group: padded out, refused, or dropped. */
  method Close(ghost data: seq<int>, from: nat, to: nat, pad: bool, acc: int, bits: nat, groups: seq<int>)
    returns (r: Option<seq<int>>)
    requires bits < to <= 32 && InRange(groups, to)
    ensures InRange(data, from) && AllBits(data, from) == AllBits(groups, to) + Bits(acc, bits) ==>
              Converted(data, from, to, pad, r)
    ensures r == if !pad && (bits >= from || PadGroup(acc, bits, to) != 0) then None
                 else Some(groups + if pad && bits > 0 then [PadGroup(acc, bits, to)] else [])
  {
    hide Pow2, Bits, ToInt32, AllBits, PadGroup;
    var result := groups;
    if AllBits(data, from) == AllBits(groups, to) + Bits(acc, bits) {
      DivModUnique(from * |data|, to, |result|, bits);
    }
    PadGroupBits(acc, bits, to);
    assert groups + [] == groups;
    if pad {
      if bits > 0 {
        AllBitsSnoc(result, PadGroup(acc, bits, to), to);
        result := result + [PadGroup(acc, bits, to)];
      }
    } else if bits >= from || PadGroup(acc, bits, to) != 0 {
      return None;
    }
    return Some(result);
  }

  /* ---------- what comes out for every pair of widths ---------- */

  /** The number that groups of `from` bits spell. */
  function Value(words: seq<int>, from: nat): int {
    if words == [] then 0 else Value(words[..|words| - 1], from) * Pow2(from) + words[|words| - 1]
  }

  lemma ToInt32Is(x: int, y: int, k: int)
    requires x == y + k * 0x1_0000_0000 && -0x8000_0000 <= y < 0x8000_0000
    ensures ToInt32(x) == y
  {
  }

  lemma ToInt32Form(x: int)
    ensures exists k :: x == ToInt32(x) + k * 0x1_0000_0000
    ensures -0x8000_0000 <= ToInt32(x) < 0x8000_0000
  {
    var k := (x + 0x8000_0000) / 0x1_0000_0000;
    assert x == ToInt32(x) + k * 0x1_0000_0000;
  }

  /** Shifting a wrapped number and adding a group is wrapping the number with the group appended. */
  lemma WrapStep(n: int, from: nat, word: int)
    requires from <= 31 && 0 <= word < Pow2(from)
    ensures ToInt32(ToInt32(n) * Pow2(from)) + word == ToInt32(n * Pow2(from) + word)
  {
    hide Pow2, ToInt32;
    var p, c := Pow2(from), Pow2(31 - from);
    Pow2Add(31 - from, from);
    Pow31();
    ToInt32Form(n);
    var k :| n == ToInt32(n) + k * 0x1_0000_0000;
    var x := ToInt32(n) * p;
    ToInt32Form(x);
    var m :| x == ToInt32(x) + m * 0x1_0000_0000;
    Shifted(n, ToInt32(n), k, p, x, ToInt32(x), m, c);
    ToInt32Is(n * p + word, ToInt32(x) + word, m + k * p);
  }

  lemma Shifted(n: int, w: int, k: int, p: int, x: int, y: int, m: int, c: int)
    requires n == w + k * 0x1_0000_0000 && x == w * p && x == y + m * 0x1_0000_0000
    requires p >= 1 && c * p == 0x8000_0000 && y < 0x8000_0000
    ensures n * p == y + (m + k * p) * 0x1_0000_0000
    ensures y + p <= 0x8000_0000
  {
    assert n * p == w * p + (k * p) * 0x1_0000_0000;
    var q := w - 2 * c * m;
    assert y == q * p by { assert (2 * c * m) * p == 2 * m * (c * p); }
    FactorLess(q, c, p);
    MulAtLeast(c - q, p);
    MulDistributes(c, q, p);
  }

  lemma FactorLess(q: int, c: int, p: int)
    requires p >= 1 && q * p < c * p
    ensures q < c
  {
    MulDistributes(q, c, p);
    if q > c {
      MulAtLeast(q - c, p);
      assert false;
    }
  }

  lemma Pow31()
    ensures Pow2(31) == 0x8000_0000
  {
    Pow32();
    assert Pow2(32) == 2 * Pow2(31);
  }

  /** Output group `j` is complete with input group `k`. */
  predicate Crosses(from: nat, to: nat, k: nat, j: nat) {
    k > 0 && from * (k - 1) < to * (j + 1) <= from * k
  }

  /** Every output group is a slice of the 32-bit word that the input up to it wraps to. */
  ghost predicate Emitted(words: seq<int>, from: nat, to: nat, i: nat, groups: seq<int>)
    requires i <= |words|
  {
    forall k, j :: 0 <= k <= i && 0 <= j < |groups| && Crosses(from, to, k, j) ==>
      groups[j] == Slice(ToInt32(Value(words[..k], from)), from * k - to * (j + 1), to)
  }

  lemma EmittedStep(words: seq<int>, from: nat, to: nat, i: nat, before: seq<int>, groups: seq<int>, bits: nat)
    requires i < |words| && Emitted(words, from, to, i, before) && to * |before| + bits == from * i && bits < to
    requires Cut(ToInt32(Value(words[..i + 1], from)), from * (i + 1), to, before, groups)
    ensures Emitted(words, from, to, i + 1, groups)
  {
    hide Value, Slice, ToInt32;
    forall k, j | 0 <= k <= i + 1 && 0 <= j < |groups| && Crosses(from, to, k, j)
      ensures groups[j] == Slice(ToInt32(Value(words[..k], from)), from * k - to * (j + 1), to)
    {
      if j < |before| {
        MulOrder(to, j + 1, |before|);
        assert k <= i;
        assert groups[j] == before[j];
      } else {
        MulOrder(to, |before| + 1, j + 1);
        MulNext(to, |before|);
        if k <= i { MulOrder(from, k, i); }
        assert k == i + 1;
      }
    }
  }

  /** What the conversion yields, for every pair of widths: the slices, and at the end the padded rest or a refusal. */
  ghost predicate Yields(words: seq<int>, from: nat, to: nat, pad: bool, r: Option<seq<int>>)
    requires to > 0
  {
    DivMod(from * |words|, to);
    Ends(words, from, to, pad, from * |words| / to, from * |words| % to, r)
  }

  /** The same with the number of whole groups and of bits left over. */
  ghost predicate Ends(words: seq<int>, from: nat, to: nat, pad: bool, count: nat, left: nat, r: Option<seq<int>>)
    requires left < to
  {
    var last := PadGroup(ToInt32(Value(words, from)), left, to);
    if !pad && (left >= from || last != 0) then r == None
    else
      && r.Some? && count <= |r.value| && Emitted(words, from, to, |words|, r.value[..count])
      && r.value[count..] == if pad && left > 0 then [last] else []
  }

  /** What JavaScript's `>>` and `|` make of the values: 32-bit words. */
  function Words(data: seq<int>): (words: seq<int>)
    ensures |words| == |data| && forall i :: 0 <= i < |data| ==> words[i] == ToInt32(data[i])
  {
    seq(|data|, i requires 0 <= i < |data| => ToInt32(data[i]))
  }

  /** The values the source lets through: not negative, and a group of `from` bits once wrapped to 32 bits. */
  ghost predicate Accepted(data: seq<int>, from: nat) {
    forall i :: 0 <= i < |data| ==> data[i] >= 0 && 0 <= ToInt32(data[i]) < Pow2(from)
  }

  /** The bits pending before group `i` and those of the group fit the accumulator. */
  predicate Holds32(from: nat, to: nat, i: nat)
    requires to > 0
  {
    from * i % to + from <= 32
  }

  ghost predicate NeverTooLong(from: nat, to: nat, n: nat)
    requires to > 0
  {
    forall i :: 0 <= i < n ==> Holds32(from, to, i)
  }

  /** Which values are let through, and that those which are groups are not changed by wrapping. */
  lemma Refusals(data: seq<int>, from: nat)
    requires from <= 31
    ensures InRange(data, from) ==> Accepted(data, from) && Words(data) == data
    ensures (exists i :: 0 <= i < |data| && (data[i] < 0 || Pow2(from) <= data[i] < 0x1_0000_0000)) ==>
              !Accepted(data, from)
  {
    hide Pow2, ToInt32;
    if InRange(data, from) { GroupsAccepted(data, from); }
    if i :| 0 <= i < |data| && Pow2(from) <= data[i] < 0x1_0000_0000 { WrapLarge(data[i]); }
  }

  lemma WrapLarge(x: int)
    requires 0 <= x < 0x1_0000_0000
    ensures ToInt32(x) == x || ToInt32(x) < 0
  {
  }

  /** Widths that sum to 33 or less never fill the accumulator. */
  lemma NarrowNeverTooLong(from: nat, to: nat, n: nat)
    requires to > 0 && from + to <= 33
    ensures NeverTooLong(from, to, n)
  {
  }

  /** One accepted value: its bits join the pending ones, and whole groups leave. */
  method PushGroup(word: int, acc0: int, bits0: nat, from: nat, to: nat, result0: seq<int>)
    returns (acc: int, bits: nat, result: seq<int>)
    requires bits0 < to && InRange(result0, to) && 0 <= word < Pow2(from)
    ensures bits < to && InRange(result, to) && to * |result| + bits == to * |result0| + bits0 + from
    ensures acc == ToInt32(acc0 * Pow2(from)) + word && Cut(acc, to * |result0| + bits0 + from, to, result0, result)
    ensures bits0 + from <= 32 ==>
              AllBits(result, to) + Bits(acc, bits) == AllBits(result0, to) + Bits(acc0, bits0) + Bits(word, from)
  {
    hide Pow2, Bits, ToInt32, AllBits, Cut;
    if bits0 + from <= 32 {
      Accumulate(acc0, bits0, word, from);
    }
    acc := ToInt32(acc0 * Pow2(from)) + word;
    bits, result := Flush(acc, bits0 + from, to, result0);
    assert AllBits(result0, to) + (Bits(acc0, bits0) + Bits(word, from))
        == AllBits(result0, to) + Bits(acc0, bits0) + Bits(word, from);
  }

  /** The conversion for every pair of widths that JavaScript can shift by. A value that is not a group once wrapped
      to 32 bits is refused. Otherwise the groups are slices of what the input wraps to; and they spell the bits of
      the input as long as the accumulator can hold what is pending. */
  method Convert(data: seq<int>, from: nat, to: nat, pad: bool) returns (r: Option<seq<int>>)
    requires from <= 31 && 0 < to <= 31
    ensures !Accepted(data, from) ==> r == None
    ensures (exists i :: 0 <= i < |data| && (data[i] < 0 || Pow2(from) <= data[i] < 0x1_0000_0000)) ==> r == None
    ensures InRange(data, from) && NeverTooLong(from, to, |data|) ==> Converted(data, from, to, pad, r)
    ensures Accepted(data, from) ==> Yields(Words(data), from, to, pad, r)
    ensures Accepted(data, from) && NeverTooLong(from, to, |data|) ==> Converted(Words(data), from, to, pad, r)
  {
    hide Pow2, Bits, ToInt32, AllBits, Converted, Holds32, Value, Cut, Emitted, PadGroup, Yields;
    var acc, bits: nat, result := 0, 0, [];
    ghost var words := Words(data);
    Refusals(data, from);
    NoBits(words, from, to);
    NoValue(words, from, to);
    for i := 0 to |data|
      invariant Accepted(data[..i], from) && InRange(result, to)
      invariant bits < to && to * |result| + bits == from * i
      invariant acc == ToInt32(Value(words[..i], from)) && Emitted(words, from, to, i, result)
      invariant NeverTooLong(from, to, i) ==> AllBits(words[..i], from) == AllBits(result, to) + Bits(acc, bits)
    {
      var value := data[i];
      if value < 0 || ToInt32(value) < 0 || ToInt32(value) >= Pow2(from) {
        return None;
      }
      PendingIs(from, to, i, |result|, bits);
      MulNext(from, i);
      ghost var before, pending := result, bits;
      OneMore(words, from, i);
      acc, bits, result := PushGroup(ToInt32(value), acc, bits, from, to, result);
      EmittedStep(words, from, to, i, before, result, pending);
    }
    assert data[..|data|] == data && words[..|data|] == words;
    r := Close(words, from, to, pad, acc, bits, result);
    Closed(words, from, to, pad, result, bits, r);
  }

  lemma Closed(words: seq<int>, from: nat, to: nat, pad: bool, groups: seq<int>, bits: nat, r: Option<seq<int>>)
    requires bits < to && to * |groups| + bits == from * |words| && Emitted(words, from, to, |words|, groups)
    requires var last := PadGroup(ToInt32(Value(words, from)), bits, to);
             r == if !pad && (bits >= from || last != 0) then None
                  else Some(groups + if pad && bits > 0 then [last] else [])
    ensures Yields(words, from, to, pad, r)
  {
    hide Emitted, PadGroup, Value, ToInt32;
    DivModUnique(from * |words|, to, |groups|, bits);
    if r.Some? { assert r.value[..|groups|] == groups; }
  }

  lemma NoValue(words: seq<int>, from: nat, to: nat)
    ensures ToInt32(Value(words[..0], from)) == 0 && Emitted(words, from, to, 0, [])
  {
  }

  lemma ValueNext(words: seq<int>, from: nat, i: nat)
    requires i < |words|
    ensures Value(words[..i + 1], from) == Value(words[..i], from) * Pow2(from) + words[i]
  {
    assert words[..i + 1][..i] == words[..i];
  }

  lemma OneMore(words: seq<int>, from: nat, i: nat)
    requires i < |words| && from <= 31 && 0 <= words[i] < Pow2(from)
    ensures ToInt32(ToInt32(Value(words[..i], from)) * Pow2(from)) + words[i] == ToInt32(Value(words[..i + 1], from))
    ensures AllBits(words[..i + 1], from) == AllBits(words[..i], from) + Bits(words[i], from)
  {
    hide Pow2, Bits, ToInt32, AllBits, Value;
    ValueNext(words, from, i);
    WrapStep(Value(words[..i], from), from, words[i]);
    assert words[..i + 1] == words[..i] + [words[i]];
    AllBitsSnoc(words[..i], words[i], from);
  }

  lemma PendingIs(from: nat, to: nat, i: nat, groups: nat, bits: nat)
    requires bits < to && to * groups + bits == from * i
    ensures Holds32(from, to, i) <==> bits + from <= 32
  {
    DivModUnique(from * i, to, groups, bits);
  }

  lemma MulNext(from: nat, i: nat)
    ensures from * (i + 1) == from * i + from
  {
  }

  lemma NoBits(data: seq<int>, from: nat, to: nat)
    ensures AllBits(data[..0], from) == AllBits([], to) + Bits(0, 0)
  {
  }

  /* ---------- the round trip ---------- */

  /** Regrouping into groups no wider than the original ones, with padding, and back, without,
      never fails and restores the data. */
  lemma RoundTrip(data: seq<int>, from: nat, to: nat, there: Option<seq<int>>, back: Option<seq<int>>)
    requires 0 < to <= from && InRange(data, from)
    requires Converted(data, from, to, true, there)
    requires there.Some? ==> Converted(there.value, to, from, false, back)
    ensures back == Some(data)
  {
    hide Pow2, Bits, AllBits;
    var left := from * |data| % to;
    var fill := if left == 0 then 0 else to - left;
    Refilled(data, from, to, there.value, fill);
    SameCount(from, |back.value|, |data|);
    AllBitsInjective(back.value, data, from);
  }

  lemma SameCount(from: nat, m: nat, n: nat)
    requires from > 0 && from * m == from * n
    ensures m == n
  {
    DivModUnique(from * m, from, m, 0);
    DivModUnique(from * n, from, n, 0);
  }

  lemma Refilled(data: seq<int>, from: nat, to: nat, s: seq<int>, fill: nat)
    requires fill < from && AllBits(s, to) == AllBits(data, from) + ZeroBits(fill)
    ensures to * |s| % from == fill && Whole(to * |s|, from) == from * |data|
    ensures AllBits(s, to)[from * |data|..] == ZeroBits(fill)
    ensures AllBits(s, to)[..from * |data|] == AllBits(data, from)
  {
    hide Pow2, Bits, AllBits;
    assert to * |s| == from * |data| + fill;
    DivModUnique(to * |s|, from, |data|, fill);
  }

  /** Groups of at most 31 bits are words already. */
  lemma GroupsAccepted(data: seq<int>, n: nat)
    requires n <= 31 && InRange(data, n)
    ensures Accepted(data, n) && Words(data) == data
  {
    assert Pow2(32) == 2 * Pow2(31);
    hide Pow2;
    Pow2Grows(n, 31);
    Pow32();
  }

  lemma {:induction false} Pow2Grows(m: nat, n: nat)
    requires m <= n
    ensures Pow2(m) <= Pow2(n)
    decreases n
  {
    if m < n {
      Pow2Grows(m, n - 1);
    }
  }

  /** The address encoder's use: bytes to five-bit symbols and back. */
  method BytesThroughSymbols(data: seq<int>) returns (symbols: Option<seq<int>>, bytes: Option<seq<int>>)
    requires InRange(data, 8)
    ensures symbols.Some? && InRange(symbols.value, 5)
    ensures bytes == Some(data)
  {
    NarrowNeverTooLong(8, 5, |data|);
    GroupsAccepted(data, 8);
    symbols := Convert(data, 8, 5, true);
    NarrowNeverTooLong(5, 8, |symbols.value|);
    GroupsAccepted(symbols.value, 5);
    bytes := Convert(symbols.value, 5, 8, false);
    RoundTrip(data, 8, 5, symbols, bytes);
  }
}
