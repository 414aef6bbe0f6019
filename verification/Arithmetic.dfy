/** Integer arithmetic shared by the codecs: JavaScript's 32-bit conversion and facts about
    division and remainder. */
module Arithmetic {

  function Pow2(n: nat): (p: int)
    ensures p >= 1
  {
    if n == 0 then 1 else 2 * Pow2(n - 1)
  }

  /** A number reduced to the range of a signed 32-bit integer. */
  function ToInt32(x: int): int {
    (x + 0x8000_0000) % 0x1_0000_0000 - 0x8000_0000
  }

  lemma DivMod(x: int, p: int)
    requires p >= 1
    ensures x == x % p + (x / p) * p
  {
  }

  lemma MulAtLeast(d: int, to: int)
    requires d >= 1 && to >= 0
    ensures d * to >= to
  {
  }

  lemma MulDistributes(a: int, b: int, c: int)
    ensures (a - b) * c == a * c - b * c
  {
  }

  lemma QuotientUnique(to: nat, q: int, r: int, whole: int, left: int)
    requires 0 <= left < to && 0 <= r < to
    requires q * to + r == whole * to + left
    ensures q == whole
  {
    if q > whole {
      MulAtLeast(q - whole, to);
      MulDistributes(q, whole, to);
      assert false;
    } else if q < whole {
      MulAtLeast(whole - q, to);
      MulDistributes(whole, q, to);
      assert false;
    }
  }

  lemma DivModUnique(total: nat, to: nat, whole: nat, left: nat)
    requires left < to && total == to * whole + left
    ensures total / to == whole && total % to == left
  {
    DivMod(total, to);
    QuotientUnique(to, total / to, total % to, whole, left);
  }

  lemma {:induction false} Pow2Add(m: nat, n: nat)
    ensures Pow2(m + n) == Pow2(m) * Pow2(n)
  {
    if m > 0 {
      Pow2Add(m - 1, n);
      assert Pow2(m + n) == 2 * (Pow2(m - 1) * Pow2(n)) == 2 * Pow2(m - 1) * Pow2(n);
    }
  }

  lemma Pow32()
    ensures Pow2(32) == 0x1_0000_0000
  {
    assert Pow2(8) == 256;
    Pow2Add(8, 8);
    Pow2Add(16, 16);
  }

  lemma DivMinus(v: int, k: int, p: nat)
    requires p >= 1
    ensures (v - k * p) / p == v / p - k
  {
    var w := v - k * p;
    DivMod(w, p);
    DivMod(v, p);
    MulDistributes(v / p, k, p);
    QuotientUnique(p, w / p, w % p, v / p - k, v % p);
  }

  lemma DivDiv(n: nat, a: nat, b: nat)
    requires a >= 1 && b >= 1
    ensures n / (a * b) == n / a / b
  {
    DivMod(n, a);
    DivMod(n / a, b);
    Regroup(a, b, n / a / b, n / a % b, n % a);
    DivModUnique(n, a * b, n / a / b, n % a + a * (n / a % b));
  }

  lemma Regroup(a: nat, b: nat, q: nat, m: nat, x: nat)
    requires x < a && m < b
    ensures (m + q * b) * a + x == (a * b) * q + (x + a * m)
    ensures x + a * m < a * b
  {
    assert a * (m + 1) <= a * b by { MulOrder(a, m + 1, b); }
  }

  lemma MulOrder(a: nat, x: nat, y: nat)
    requires x <= y
    ensures a * x <= a * y
  {
  }
}
