/** The field with 32 elements and the generator polynomial of the Bech32 code (BIP 173). An element is a polynomial in
    x of degree four or less, given by its bits, and x^5 = x^3 + 1. Lists of elements are polynomials over the field,
    highest coefficient first. */
module Gf32 {

  type Element = bv5

  /* ---------- the field ---------- */

  function Plus(a: Element, b: Element): Element {
    a ^ b
  }

  /** Multiplication by x. */
  function Double(a: Element): Element {
    Plus(a << 1, if a & 16 == 16 then 9 else 0)
  }

  /** Multiplication by x^n. */
  function Power(a: Element, n: nat): Element {
    if n == 0 then a else Double(Power(a, n - 1))
  }

  predicate BitOf(b: Element, i: nat)
    requires i < 5
  {
    match i
    case 0 => b & 1 == 1
    case 1 => b & 2 == 2
    case 2 => b & 4 == 4
    case 3 => b & 8 == 8
    case 4 => b & 16 == 16
  }

  function Pick(bit: bool, a: Element): Element {
    if bit then a else 0
  }

  /** The first `n` terms of a product. */
  function Terms(a: Element, b: Element, n: nat): Element
    requires n <= 5
  {
    if n == 0 then 0 else Plus(Terms(a, b, n - 1), Pick(BitOf(b, n - 1), Power(a, n - 1)))
  }

  function Times(a: Element, b: Element): Element {
    Terms(a, b, 5)
  }

  lemma PlusLaws(a: Element, b: Element)
    ensures Plus(a, a) == 0 && Plus(a, 0) == a && Plus(0, a) == a
    ensures Plus(Plus(a, b), b) == a && Plus(a, Plus(a, b)) == b
    ensures Plus(a, b) == 0 <==> a == b
  {
  }

  lemma PlusExchange(a: Element, b: Element, c: Element, d: Element)
    ensures Plus(Plus(a, b), Plus(c, d)) == Plus(Plus(a, c), Plus(b, d))
  {
  }

  lemma DoublePlus(a: Element, b: Element)
    ensures Double(Plus(a, b)) == Plus(Double(a), Double(b))
  {
  }

  lemma {:induction false} PowerPlus(a: Element, b: Element, n: nat)
    ensures Power(Plus(a, b), n) == Plus(Power(a, n), Power(b, n))
  {
    hide Double, Plus;
    if n > 0 {
      PowerPlus(a, b, n - 1);
      DoublePlus(Power(a, n - 1), Power(b, n - 1));
    }
  }

  lemma PickPlus(p: bool, q: bool, a: Element, b: Element)
    ensures Pick(p, Plus(a, b)) == Plus(Pick(p, a), Pick(p, b))
    ensures Pick(p != q, a) == Plus(Pick(p, a), Pick(q, a))
  {
  }

  lemma BitOfPlus(a: Element, b: Element, i: nat)
    requires i < 5
    ensures BitOf(Plus(a, b), i) == (BitOf(a, i) != BitOf(b, i))
  {
  }

  lemma {:induction false} TermsLeft(a: Element, b: Element, c: Element, n: nat)
    requires n <= 5
    ensures Terms(Plus(a, b), c, n) == Plus(Terms(a, c, n), Terms(b, c, n))
  {
    hide Power, Pick, BitOf, Plus;
    if n == 0 {
      PlusLaws(0, 0);
    } else {
      var k := n - 1;
      TermsLeft(a, b, c, k);
      PowerPlus(a, b, k);
      PickPlus(BitOf(c, k), false, Power(a, k), Power(b, k));
      PlusExchange(Terms(a, c, k), Terms(b, c, k), Pick(BitOf(c, k), Power(a, k)), Pick(BitOf(c, k), Power(b, k)));
    }
  }

  lemma {:induction false} TermsRight(a: Element, b: Element, c: Element, n: nat)
    requires n <= 5
    ensures Terms(a, Plus(b, c), n) == Plus(Terms(a, b, n), Terms(a, c, n))
  {
    hide Power, Pick, BitOf, Plus;
    if n == 0 {
      PlusLaws(0, 0);
    } else {
      var k := n - 1;
      TermsRight(a, b, c, k);
      BitOfPlus(b, c, k);
      PickPlus(BitOf(b, k), BitOf(c, k), Power(a, k), 0);
      PlusExchange(Terms(a, b, k), Terms(a, c, k), Pick(BitOf(b, k), Power(a, k)), Pick(BitOf(c, k), Power(a, k)));
    }
  }

  lemma {:induction false} PowerDouble(a: Element, n: nat)
    ensures Power(Double(a), n) == Double(Power(a, n))
  {
    hide Double;
    if n > 0 { PowerDouble(a, n - 1); }
  }

  lemma PickDouble(p: bool, a: Element)
    ensures Pick(p, Double(a)) == Double(Pick(p, a)) && Double(0) == 0
  {
  }

  lemma {:induction false} TermsDouble(a: Element, b: Element, n: nat)
    requires n <= 5
    ensures Terms(Double(a), b, n) == Double(Terms(a, b, n))
  {
    hide Double, Power, Pick, BitOf, Plus;
    PickDouble(false, 0);
    if n > 0 {
      TermsDouble(a, b, n - 1);
      PowerDouble(a, n - 1);
      PickDouble(BitOf(b, n - 1), Power(a, n - 1));
      DoublePlus(Terms(a, b, n - 1), Pick(BitOf(b, n - 1), Power(a, n - 1)));
    }
  }

  lemma OneTimes(b: Element)
    ensures Times(1, b) == b
  {
    assert Power(1, 0) == 1 && Power(1, 1) == 2;
    assert Power(1, 2) == 4 && Power(1, 3) == 8 && Power(1, 4) == 16;
    assert Terms(1, b, 1) == Plus(0, Pick(BitOf(b, 0), 1));
    assert Terms(1, b, 2) == Plus(Terms(1, b, 1), Pick(BitOf(b, 1), 2));
    assert Terms(1, b, 3) == Plus(Terms(1, b, 2), Pick(BitOf(b, 2), 4));
    assert Terms(1, b, 4) == Plus(Terms(1, b, 3), Pick(BitOf(b, 3), 8));
  }

  /** The laws that determine multiplication: it is linear on both sides, one is neutral, a factor x can be taken out,
      and x times x^4 is x^3 + 1. */
  lemma TimesLaws(a: Element, b: Element, c: Element)
    ensures Times(Plus(a, b), c) == Plus(Times(a, c), Times(b, c))
    ensures Times(c, Plus(a, b)) == Plus(Times(c, a), Times(c, b))
    ensures Times(1, b) == b && Times(Double(a), b) == Double(Times(a, b))
    ensures Double(1) == 2 && Double(2) == 4 && Double(4) == 8 && Double(8) == 16 && Double(16) == 9
  {
    hide Terms, Plus;
    TermsLeft(a, b, c, 5);
    TermsRight(c, a, b, 5);
    OneTimes(b);
    TermsDouble(a, b, 5);
    Doubles();
  }

  lemma Doubles()
    ensures Double(1) == 2 && Double(2) == 4 && Double(4) == 8 && Double(8) == 16 && Double(16) == 9
  {
  }

  /* ---------- division by the generator polynomial ---------- */

  /** x^6 + 29 x^5 + 22 x^4 + 20 x^3 + 21 x^2 + 29 x + 18, without its leading one. */
  const GENERATOR: seq<Element> := [29, 22, 20, 21, 29, 18]

  type Poly = seq<Element>

  function Zeros(n: nat): Poly {
    seq(n, i => 0)
  }

  function Sum(p: Poly, q: Poly): Poly
    requires |p| == |q|
  {
    seq(|p|, i requires 0 <= i < |p| => Plus(p[i], q[i]))
  }

  /** `c` times the generator, without the leading coefficient. */
  function Scaled(c: Element): (p: Poly)
    ensures |p| == 6
  {
    seq(6, i requires 0 <= i < 6 => Times(GENERATOR[i], c))
  }

  /** `c` times the generator, followed by `n` zeros. */
  function Taken(c: Element, n: nat): (p: Poly)
    ensures |p| == n + 7
  {
    [c] + Scaled(c) + Zeros(n)
  }

  /** The product of `q` and the generator. */
  function Multiple(q: Poly): (p: Poly)
    ensures |p| == |q| + 6
  {
    if q == [] then Zeros(6) else Sum(Taken(q[0], |q| - 1), [0] + Multiple(q[1..]))
  }

  /** `p` and a multiple of the generator differ by `r`. */
  predicate Leaves(p: Poly, q: Poly, r: Poly) {
    |r| == 6 && |p| == |q| + 6 && p == Sum(Multiple(q), Zeros(|q|) + r)
  }

  ghost predicate IsRemainder(p: Poly, r: Poly) {
    exists q :: Leaves(p, q, r)
  }

  lemma ShortRemainder(p: Poly)
    requires |p| == 6
    ensures IsRemainder(p, p)
  {
    hide Plus;
    forall i | 0 <= i < 6 ensures Plus(0, p[i]) == p[i] { PlusLaws(p[i], 0); }
    assert Leaves(p, [], p);
  }

  /** One step of long division: the leading coefficient times the generator is taken away. */
  function Divided(p: Poly): (d: Poly)
    requires |p| > 6
    ensures |d| == |p| - 1
  {
    Sum(p[1..7], Scaled(p[0])) + p[7..]
  }

  lemma MultipleAt(q: Poly, i: nat)
    requires q != [] && i < |q| + 6
    ensures Multiple(q)[i] == Plus(Taken(q[0], |q| - 1)[i], ([0] + Multiple(q[1..]))[i])
  {
    hide Plus, Taken;
  }

  lemma DividedAt(p: Poly, i: nat)
    requires |p| > 6 && i < |p| - 1
    ensures Divided(p)[i] == Plus(p[i + 1], Taken(p[0], |p| - 7)[i + 1])
  {
    hide Plus, Times;
    PlusLaws(p[i + 1], 0);
  }

  /** The coefficients of what a multiple and a remainder add up to. */
  lemma LeavesIff(p: Poly, q: Poly, r: Poly)
    requires |r| == 6 && |p| == |q| + 6
    ensures Leaves(p, q, r) <==> forall i :: 0 <= i < |p| ==> p[i] == Plus(Multiple(q)[i], (Zeros(|q|) + r)[i])
  {
    hide Plus, Multiple;
    var s := Sum(Multiple(q), Zeros(|q|) + r);
    assert p == s <==> forall i :: 0 <= i < |p| ==> p[i] == s[i];
  }

  lemma Balance(p: Element, f: Element, b: Element, z: Element)
    ensures Plus(p, f) == Plus(b, z) ==> p == Plus(Plus(f, b), z)
    ensures p == Plus(Plus(f, b), z) ==> Plus(p, f) == Plus(b, z)
  {
  }

  /** A step of long division drops the leading coefficient from the quotient and keeps the remainder. */
  lemma DividedLeaves(p: Poly, q: Poly, r: Poly)
    requires q != [] && |r| == 6 && |p| == |q| + 6 && p[0] == q[0]
    ensures Leaves(p, q, r) <==> Leaves(Divided(p), q[1..], r)
  {
    hide Plus, Times, Multiple, Divided, Taken, Leaves;
    var m, z := Multiple(q), Zeros(|q|) + r;
    var n, y := Multiple(q[1..]), Zeros(|q| - 1) + r;
    LeavesIff(p, q, r);
    LeavesIff(Divided(p), q[1..], r);
    MultipleAt(q, 0);
    First(q[0], |q| - 1);
    forall i | 0 < i < |p| ensures p[i] == Plus(m[i], z[i]) <==> Divided(p)[i - 1] == Plus(n[i - 1], y[i - 1]) {
      MultipleAt(q, i);
      DividedAt(p, i - 1);
      Balance(p[i], Taken(p[0], |p| - 7)[i], n[i - 1], y[i - 1]);
    }
    if Leaves(p, q, r) {
      forall j | 0 <= j < |p| - 1 ensures Divided(p)[j] == Plus(n[j], y[j]) {
        assert p[j + 1] == Plus(m[j + 1], z[j + 1]);
      }
    }
  }

  lemma First(c: Element, n: nat)
    ensures Taken(c, n)[0] == c && Plus(Plus(c, 0), 0) == c
  {
  }

  /** The leading coefficient of the quotient is that of the polynomial. */
  lemma LeavesFirst(p: Poly, q: Poly, r: Poly)
    requires Leaves(p, q, r) && q != []
    ensures p[0] == q[0]
  {
    hide Plus, Times, Multiple, Taken;
    MultipleAt(q, 0);
    First(q[0], |q| - 1);
  }

  lemma DivideStep(p: Poly, r: Poly)
    requires |p| > 6 && IsRemainder(Divided(p), r)
    ensures IsRemainder(p, r)
  {
    hide Divided, Leaves;
    var q :| Leaves(Divided(p), q, r);
    Lengths(Divided(p), q, r);
    var longer := [p[0]] + q;
    assert longer[1..] == q;
    DividedLeaves(p, longer, r);
  }

  lemma Lengths(p: Poly, q: Poly, r: Poly)
    requires Leaves(p, q, r)
    ensures |r| == 6 && |p| == |q| + 6
  {
  }

  /** Quotient and remainder are unique: the generator has the leading coefficient one. */
  lemma {:induction false} DivisionUnique(p: Poly, q: Poly, r: Poly, q': Poly, r': Poly)
    requires Leaves(p, q, r) && Leaves(p, q', r')
    ensures q == q' && r == r'
    decreases |q|
  {
    hide Leaves, Divided;
    Lengths(p, q, r);
    Lengths(p, q', r');
    if q == [] {
      NoQuotient(p, r);
      NoQuotient(p, r');
    } else {
      LeavesFirst(p, q, r);
      LeavesFirst(p, q', r');
      DividedLeaves(p, q, r);
      DividedLeaves(p, q', r');
      DivisionUnique(Divided(p), q[1..], r, q'[1..], r');
      assert q == [q[0]] + q[1..] && q' == [q'[0]] + q'[1..];
    }
  }

  lemma NoQuotient(p: Poly, r: Poly)
    requires Leaves(p, [], r)
    ensures p == r
  {
    hide Plus;
    forall i | 0 <= i < 6 ensures p[i] == r[i] { PlusLaws(r[i], 0); }
  }

  /** There is one remainder. */
  lemma RemainderUnique(p: Poly, r: Poly, r': Poly)
    requires IsRemainder(p, r) && IsRemainder(p, r')
    ensures r == r'
  {
    hide Leaves;
    var q, q' :| Leaves(p, q, r) && Leaves(p, q', r');
    DivisionUnique(p, q, r, q', r');
  }
}
