/** Hex strings as the page's decoder reads and prints them: little-endian integers, variable-length
    integers and the rounding of 64-bit integers to JavaScript numbers.

    A hex string is a sequence of hex digits, so an odd length is possible, as in the source. */
module HexBytes {
  import opened Arithmetic

  type Nibble = x: int | 0 <= x < 16

  type Hex = seq<Nibble>

  /* ---------- bytes and little-endian integers ---------- */

  function PutByte(b: int): (h: Hex)
    requires 0 <= b < 256
    ensures |h| == 2
  {
    [b / 16, b % 16]
  }

  function Byte(h: Hex): (b: int)
    requires |h| >= 2
    ensures 0 <= b < 256
  {
    var high: int := h[0];
    high * 16 + h[1]
  }

  /** The little-endian number spelled by a hex string; a trailing odd digit counts for nothing. */
  function Little(h: Hex): nat {
    if |h| < 2 then 0 else Byte(h) + 256 * Little(h[2..])
  }

  /** The low `n` bytes of `v`, least significant first. */
  function PutLittle(v: nat, n: nat): (h: Hex)
    ensures |h| == 2 * n
    decreases n
  {
    if n == 0 then [] else PutByte(v % 256) + PutLittle(v / 256, n - 1)
  }

  /** `(v >> 8 * k) & 0xff` on JavaScript numbers: the operand is first wrapped to 32 bits. */
  function ShiftMask(v: int, k: nat): (b: int)
    ensures 0 <= b < 256
  {
    ToInt32(v) / Pow2(8 * k) % 256
  }

  /** Four bytes printed one by one with `&` and `>>`. */
  function PutWord(v: int): Hex {
    PutByte(ShiftMask(v, 0)) + PutByte(ShiftMask(v, 1)) + PutByte(ShiftMask(v, 2)) + PutByte(ShiftMask(v, 3))
  }

  function Pow256(n: nat): (p: nat)
    ensures p >= 1
  {
    if n == 0 then 1 else 256 * Pow256(n - 1)
  }

  /** Printing and reading a little-endian integer keeps the number modulo its width. */
  lemma {:induction false} LittleOfPut(v: nat, n: nat)
    ensures Little(PutLittle(v, n)) == v % Pow256(n)
    decreases n
  {
    if n > 0 {
      LittleOfPut(v / 256, n - 1);
      var h := PutLittle(v, n);
      assert h[2..] == PutLittle(v / 256, n - 1);
      assert Byte(h) == v % 256;
      ModPow(v, Pow256(n - 1));
    }
  }

  lemma ModPow(v: nat, p: nat)
    requires p >= 1
    ensures v % (256 * p) == v % 256 + 256 * (v / 256 % p)
  {
    var r := v % 256 + 256 * (v / 256 % p);
    DivMod(v, 256);
    DivMod(v / 256, p);
    assert v == (256 * p) * (v / 256 / p) + r;
    assert r < 256 * p by { assert v / 256 % p <= p - 1; }
    DivModUnique(v, 256 * p, v / 256 / p, r);
  }

  /** Reading and printing restores the digits of a whole number of bytes. */
  lemma {:induction false} PutOfLittle(h: Hex)
    requires |h| % 2 == 0
    ensures PutLittle(Little(h), |h| / 2) == h
    ensures Little(h) < Pow256(|h| / 2)
  {
    hide Byte, PutByte;
    if h != [] {
      PutOfLittle(h[2..]);
      ByteFirst(Byte(h), Little(h[2..]));
      ByteDigits(h);
    }
  }

  lemma ByteFirst(b: int, n: nat)
    requires 0 <= b < 256
    ensures (b + 256 * n) % 256 == b && (b + 256 * n) / 256 == n
  {
  }

  lemma ByteDigits(h: Hex)
    requires |h| >= 2
    ensures h == PutByte(Byte(h)) + h[2..]
  {
    var high, low: int := h[0], h[1];
    assert (high * 16 + low) / 16 == high && (high * 16 + low) % 16 == low;
  }

  /** The masked shifts of the source pick the little-endian bytes of a 32-bit number. */
  lemma PutWordIsLittle(v: nat)
    requires v < 0x1_0000_0000
    ensures PutWord(v) == PutLittle(v, 4)
    ensures ShiftMask(v, 0) == v % 256 && ShiftMask(v, 1) == v / 256 % 256
  {
    hide ToInt32;
    assert Pow2(0) == 1 && Pow2(8) == 256;
    Pow2Add(8, 8);
    Pow2Add(16, 8);
    WordByte(v, 1);
    WordByte(v, 256);
    WordByte(v, 0x1_0000);
    WordByte(v, 0x100_0000);
    assert v / 256 / 256 == v / 0x1_0000 && v / 256 / 256 / 256 == v / 0x100_0000;
    assert PutLittle(v / 256 / 256 / 256, 1) == PutByte(v / 256 / 256 / 256 % 256);
    assert PutLittle(v / 256 / 256, 2) == PutByte(v / 256 / 256 % 256) + PutLittle(v / 256 / 256 / 256, 1);
    assert PutLittle(v / 256, 3) == PutByte(v / 256 % 256) + PutLittle(v / 256 / 256, 2);
  }

  lemma ByteMinus(q: int, m: int)
    ensures (q - 256 * m) % 256 == q % 256
  {
  }

  lemma WordByte(v: nat, p: nat)
    requires v < 0x1_0000_0000
    requires p == 1 || p == 256 || p == 0x1_0000 || p == 0x100_0000
    ensures ToInt32(v) / p % 256 == v / p % 256
  {
    var m := if p == 1 then 0x100_0000 else if p == 256 then 0x1_0000 else if p == 0x1_0000 then 256 else 1;
    var w := ToInt32(v);
    assert 256 * m * p == 0x1_0000_0000;
    assert w == v || w == v - 256 * m * p;
    if w != v {
      hide ToInt32;
      DivMinus(v, 256 * m, p);
      ByteMinus(v / p, m);
    }
  }

  /* ---------- 64-bit integers as JavaScript numbers ---------- */

  const MAX_EXACT: nat := 0x20_0000_0000_0000  // 2^53

  /** The spacing of JavaScript numbers at `n`: one below 2^53, then doubling with the number. */
  function Spacing(n: nat): (u: nat)
    ensures u >= 1
  {
    if n < MAX_EXACT then 1 else 2 * Spacing(n / 2)
  }

  /** The conversion of an integer to a JavaScript number: round to nearest, ties to even. */
  function Number(n: nat): nat {
    var u := Spacing(n);
    var q, r := n / u, n % u;
    if 2 * r > u || (2 * r == u && q % 2 == 1) then (q + 1) * u else q * u
  }

  lemma {:induction false} SpacingBounds(n: nat)
    requires n >= MAX_EXACT / 2
    ensures MAX_EXACT / 2 <= n / Spacing(n) < MAX_EXACT
  {
    if n >= MAX_EXACT {
      SpacingBounds(n / 2);
      DivDiv(n, 2, Spacing(n / 2));
    }
  }

  lemma {:induction false} SpacingScales(q: nat, n: nat)
    requires MAX_EXACT / 2 <= q < MAX_EXACT
    ensures Spacing(q * Spacing(n)) == Spacing(n)
    decreases n
  {
    if n >= MAX_EXACT {
      var u := Spacing(n / 2);
      SpacingScales(q, n / 2);
      assert q * (2 * u) == 2 * (q * u) && 2 * (q * u) / 2 == q * u;
      assert q * u >= q;
    }
  }

  lemma MultipleMod(q: nat, u: nat)
    requires u >= 1
    ensures (q * u) % u == 0 && q * u / u == q
  {
    DivModUnique(q * u, u, q, 0);
  }

  lemma NumberOfMultiple(q: nat, m: nat)
    requires m == q * Spacing(m)
    ensures Number(m) == m
  {
    MultipleMod(q, Spacing(m));
  }

  /** Converting a JavaScript number again changes nothing. */
  lemma NumberIdempotent(n: nat)
    ensures Number(Number(n)) == Number(n)
  {
    if n >= MAX_EXACT {
      hide Number, Spacing;
      var u, q := Spacing(n), n / Spacing(n);
      NumberIs(n);
      SpacingBounds(n);
      SpacingScales(q, n);
      NumberOfMultiple(q, q * u);
      if q + 1 < MAX_EXACT {
        SpacingScales(q + 1, n);
        NumberOfMultiple(q + 1, (q + 1) * u);
      } else {
        NumberOfTop(n);
      }
    }
  }

  /** The multiple of the spacing where the spacing doubles. */
  lemma NumberOfTop(n: nat)
    ensures Number(MAX_EXACT * Spacing(n)) == MAX_EXACT * Spacing(n)
  {
    hide Number, Spacing;
    var h, u := MAX_EXACT / 2, Spacing(n);
    SpacingScales(h, n);
    SpacingDoubles(h * u);
    NumberOfMultiple(h, 2 * (h * u));
  }

  lemma SpacingDoubles(n: nat)
    requires n >= MAX_EXACT / 2
    ensures Spacing(2 * n) == 2 * Spacing(n)
  {
  }

  lemma NumberIs(n: nat)
    ensures Number(n) == n / Spacing(n) * Spacing(n) || Number(n) == (n / Spacing(n) + 1) * Spacing(n)
  {
  }

  /** The spacing is the same between two neighbouring multiples of it. */
  lemma {:induction false} SpacingSame(n: nat, m: nat)
    requires n >= MAX_EXACT / 2 && m / Spacing(n) == n / Spacing(n)
    ensures Spacing(m) == Spacing(n)
    decreases n
  {
    SpacingBounds(n);
    if n >= MAX_EXACT {
      var u := Spacing(n / 2);
      DivDiv(n, 2, u);
      DivDiv(m, 2, u);
      SpacingSame(n / 2, m / 2);
      assert m >= MAX_EXACT by { AtLeastMultiple(m, 2 * u); }
    }
  }

  lemma AtLeastMultiple(m: nat, u: nat)
    requires u >= 2 && m / u >= MAX_EXACT / 2
    ensures m >= MAX_EXACT
  {
    DivMod(m, u);
    assert m / u * u >= m / u * 2;
  }

  function Distance(a: nat, b: nat): nat {
    if a < b then b - a else a - b
  }

  /** Which of the two neighbouring multiples is taken. */
  lemma NumberRounds(n: nat)
    ensures var u, q, r := Spacing(n), n / Spacing(n), n % Spacing(n);
            || (Number(n) == q * u && 2 * r <= u && (2 * r == u ==> q % 2 == 0))
            || (Number(n) == (q + 1) * u && 2 * r >= u && (2 * r == u ==> (q + 1) % 2 == 0))
  {
  }

  /** The multiple of the spacing at or below a number. */
  function Below(n: nat): nat {
    n / Spacing(n) * Spacing(n)
  }

  /** Between two neighbouring multiples of the spacing there is no number. */
  lemma NoneBetween(n: nat, m: nat)
    requires Number(m) == m
    ensures m <= Below(n) || m >= Below(n) + Spacing(n)
  {
    hide Spacing, Number;
    var u, q := Spacing(n), n / Spacing(n);
    NextMultiple(q, u);
    if n < MAX_EXACT {
      SpacingOne(n);
    } else if q * u < m < (q + 1) * u {
      DivModUnique(m, u, q, m - q * u);
      SpacingSame(n, m);
      NumberIs(m);
      assert false;
    }
  }

  lemma SpacingOne(n: nat)
    requires n < MAX_EXACT
    ensures Spacing(n) == 1 && n / 1 == n
  {
  }

  /** The conversion is to a nearest number. */
  lemma NumberNearest(n: nat, m: nat)
    requires Number(m) == m
    ensures Distance(n, Number(n)) <= Distance(n, m)
  {
    hide Number, Distance, Below, Spacing;
    Neighbours(n);
    NoneBetween(n, m);
    NearerOf(n, m, Number(n), Below(n), Spacing(n));
  }

  ghost predicate EvenMultiple(v: nat, u: nat) {
    exists k :: v == k * u && k % 2 == 0
  }

  lemma TieIsEven(n: nat)
    requires 2 * (n % Spacing(n)) == Spacing(n)
    ensures EvenMultiple(Number(n), Spacing(n))
  {
    hide Spacing;
    var u, q := Spacing(n), n / Spacing(n);
    if q % 2 == 0 {
      assert Number(n) == q * u;
    } else {
      assert Number(n) == (q + 1) * u;
    }
  }

  lemma RemainderIs(n: nat)
    ensures n % Spacing(n) == n - Below(n)
  {
    hide Spacing;
    DivMod(n, Spacing(n));
  }

  /** If two numbers are equally near, it is to the even multiple of the spacing. */
  lemma NumberTies(n: nat)
    requires 2 * Distance(n, Number(n)) == Spacing(n)
    ensures EvenMultiple(Number(n), Spacing(n))
  {
    hide Number, Spacing, Below, EvenMultiple;
    Neighbours(n);
    RemainderIs(n);
    TieIsEven(n);
  }

  /** A number lies between two neighbouring multiples of the spacing, and becomes the nearer one. */
  lemma Neighbours(n: nat)
    ensures Below(n) <= n < Below(n) + Spacing(n)
    ensures || (Number(n) == Below(n) && 2 * (n - Below(n)) <= Spacing(n))
            || (Number(n) == Below(n) + Spacing(n) && 2 * (n - Below(n)) >= Spacing(n))
  {
    hide Number, Spacing;
    DivMod(n, Spacing(n));
    NextMultiple(n / Spacing(n), Spacing(n));
    NumberRounds(n);
  }

  lemma NearerOf(n: nat, m: nat, v: nat, low: nat, u: nat)
    requires low <= n < low + u && (m <= low || m >= low + u)
    requires (v == low && 2 * (n - low) <= u) || (v == low + u && 2 * (n - low) >= u)
    ensures Distance(n, v) <= Distance(n, m)
  {
  }

  lemma NextMultiple(q: nat, u: nat)
    requires u >= 1
    ensures (q + 1) * u == q * u + u && q * u / u == q && (q + 1) * u / u == q + 1
  {
    MultipleMod(q, u);
    MultipleMod(q + 1, u);
  }

  lemma {:induction false} SpacingAtMost(n: nat, k: nat)
    requires n < MAX_EXACT * Pow2(k)
    ensures Spacing(n) <= Pow2(k)
  {
    if n >= MAX_EXACT {
      assert k > 0;
      SpacingAtMost(n / 2, k - 1);
    }
  }

  lemma {:induction false} SpacingAtLeast(n: nat, k: nat)
    requires n >= MAX_EXACT * Pow2(k)
    ensures Spacing(n) >= Pow2(k + 1)
  {
    if k > 0 {
      SpacingAtLeast(n / 2, k - 1);
    }
  }

  const TWO64: nat := 0x1_0000_0000_0000_0000

  /** A 64-bit integer converts to at most 2^64, and reaches it exactly within 1024 of it. */
  lemma NumberOf64(n: nat)
    requires n < TWO64
    ensures Number(n) <= TWO64
    ensures Number(n) == TWO64 <==> n >= TWO64 - 1024
  {
    assert Pow2(11) == 2048 && Pow2(10) == 1024;
    var u, q := Spacing(n), n / Spacing(n);
    SpacingAtMost(n, 11);
    DivMod(n, u);
    if n >= TWO64 / 2 {
      SpacingAtLeast(n, 10);
    } else {
      SpacingAtMost(n, 10);
      assert (q + 1) * u == q * u + u;
    }
  }
}
