/** Bech32 and Bech32m checksums (BIP 173, BIP 350) as computed by the page's decoder.

    The checksum register of the source is a JavaScript number that only ever holds 30 bits, so
    a 32-bit word models it exactly: `RegisterFits` shows that the sign bit is never reached and
    the source's arithmetic shift is the logical one used here. */
module Bech32 {
  import opened Words
  import Gf32

  const GENERATOR: seq<Word> :=
    [Word(0x3b6a57b2), Word(0x26508e6d), Word(0x1ea119fa), Word(0x3d4233dd), Word(0x2a1462b3)]

  /** The constant a valid checksum leaves in the register. */
  function Target(isBech32m: bool): Word {
    if isBech32m then Word(0x2bc830a3) else Word(1)
  }

  /** The first `n` generator words, each added when its bit of `top` is set. */
  function Feedback(top: Word, n: nat): Word
    requires n <= 5
  {
    if n == 0 then ZERO
    else Xor(Feedback(top, n - 1), Gated(Bit(top, n - 1), GENERATOR[n - 1]))
  }

  /** One round of the register: multiply by x, reduce by the generator, add the symbol. */
  function Step(chk: Word, v: Word): Word {
    Xor(Xor(ShiftIn(chk), v), Feedback(Top(chk), 5))
  }

  /** The register after feeding `values` into `chk`. */
  function Run(chk: Word, values: seq<Word>): Word {
    if values == [] then chk
    else Step(Run(chk, values[..|values| - 1]), values[|values| - 1])
  }

  /** The checksum register after a list of values: the two nested loops of the source. */
  method Polymod(values: seq<Word>) returns (chk: Word)
    ensures chk == Run(Word(1), values)
    ensures AllSmall(values) ==> Gf32.IsRemainder([0, 0, 0, 0, 0, 1] + Elements(values), Symbols(chk))
  {
    hide Xor, ShiftIn, Top, Bit;
    chk := Word(1);
    for k := 0 to |values|
      invariant chk == Run(Word(1), values[..k])
    {
      assert values[..k + 1][..k] == values[..k];
      var top := Top(chk);
      var shifted := Xor(ShiftIn(chk), values[k]);
      chk := shifted;
      XorLaws(chk);
      for i := 0 to 5
        invariant chk == Xor(shifted, Feedback(top, i))
      {
        XorAssoc(shifted, Feedback(top, i), GENERATOR[i]);
        XorLaws(Feedback(top, i));
        if Bit(top, i) {
          chk := Xor(chk, GENERATOR[i]);
        }
      }
    }
    assert values[..|values|] == values;
    if AllSmall(values) {
      RemainderFromOne(values);
    }
  }

  /* ---------- the register stays within 30 bits ---------- */

  lemma {:induction false} FeedbackFits(top: Word, n: nat)
    requires n <= 5
    ensures Fits(Feedback(top, n))
  {
    hide Xor, Bit;
    if n > 0 {
      FeedbackFits(top, n - 1);
      XorFits(Feedback(top, n - 1), Gated(Bit(top, n - 1), GENERATOR[n - 1]));
    }
  }

  lemma StepFits(chk: Word, v: Word)
    requires Fits(v)
    ensures Fits(Step(chk, v))
  {
    hide Xor, Fits, ShiftIn, Top, Feedback;
    ShiftInFits(chk);
    XorFits(ShiftIn(chk), v);
    FeedbackFits(Top(chk), 5);
    XorFits(Xor(ShiftIn(chk), v), Feedback(Top(chk), 5));
  }

  ghost predicate AllFit(values: seq<Word>) {
    forall i :: 0 <= i < |values| ==> Fits(values[i])
  }

  /** No run of the register leaves 30 bits, whatever 30-bit values are fed to it. */
  lemma {:induction false} RegisterFits(chk: Word, values: seq<Word>)
    requires Fits(chk) && AllFit(values)
    ensures Fits(Run(chk, values))
  {
    hide Step, Fits;
    if values != [] {
      RegisterFits(chk, values[..|values| - 1]);
      StepFits(Run(chk, values[..|values| - 1]), values[|values| - 1]);
    }
  }

  /* ---------- the step is linear over GF(2) ---------- */

  lemma GatedXor(p: bool, q: bool, g: Word)
    ensures Gated(p != q, g) == Xor(Gated(p, g), Gated(q, g))
  {
  }

  lemma {:induction false} FeedbackXor(a: Word, b: Word, n: nat)
    requires n <= 5
    ensures Feedback(Xor(a, b), n) == Xor(Feedback(a, n), Feedback(b, n))
  {
    hide Xor, Bit, Gated;
    XorLaws(ZERO);
    if n > 0 {
      var g := GENERATOR[n - 1];
      FeedbackXor(a, b, n - 1);
      BitXor(a, b, n - 1);
      GatedXor(Bit(a, n - 1), Bit(b, n - 1), g);
      XorExchange(Feedback(a, n - 1), Feedback(b, n - 1), Gated(Bit(a, n - 1), g), Gated(Bit(b, n - 1), g));
    }
  }

  /** The step is linear over GF(2) in the register and the symbol together. */
  lemma StepXor(a: Word, u: Word, b: Word, v: Word)
    ensures Step(Xor(a, b), Xor(u, v)) == Xor(Step(a, u), Step(b, v))
  {
    hide Xor, ShiftIn, Top, Feedback;
    TopXor(a, b);
    ShiftInXor(a, b);
    FeedbackXor(Top(a), Top(b), 5);
    XorExchange(ShiftIn(a), ShiftIn(b), u, v);
    XorExchange(Xor(ShiftIn(a), u), Xor(ShiftIn(b), v), Feedback(Top(a), 5), Feedback(Top(b), 5));
  }

  /** Pointwise sum of two lists of symbols of the same length. */
  function XorAll(xs: seq<Word>, ys: seq<Word>): (r: seq<Word>)
    requires |xs| == |ys|
  {
    seq(|xs|, i requires 0 <= i < |xs| => Xor(xs[i], ys[i]))
  }

  /** Whole runs are linear: the register of a sum is the sum of the registers. */
  lemma {:induction false} RunXor(a: Word, xs: seq<Word>, b: Word, ys: seq<Word>)
    requires |xs| == |ys|
    ensures Run(Xor(a, b), XorAll(xs, ys)) == Xor(Run(a, xs), Run(b, ys))
  {
    hide Xor, Step;
    if xs != [] {
      var n := |xs| - 1;
      RunXor(a, xs[..n], b, ys[..n]);
      assert XorAll(xs, ys)[..n] == XorAll(xs[..n], ys[..n]);
      StepXor(Run(a, xs[..n]), xs[n], Run(b, ys[..n]), ys[n]);
    }
  }

  lemma {:induction false} RunConcat(chk: Word, xs: seq<Word>, ys: seq<Word>)
    ensures Run(chk, xs + ys) == Run(Run(chk, xs), ys)
  {
    hide Step;
    if ys == [] {
      assert xs + ys == xs;
    } else {
      var n := |ys| - 1;
      RunConcat(chk, xs, ys[..n]);
      assert (xs + ys)[..|xs + ys| - 1] == xs + ys[..n];
    }
  }

  /* ---------- the register is a remainder ---------- */

  ghost predicate AllSmall(values: seq<Word>) {
    forall i :: 0 <= i < |values| ==> Small(values[i])
  }

  /** A list of symbols as a polynomial. */
  function Elements(values: seq<Word>): Gf32.Poly {
    seq(|values|, i requires 0 <= i < |values| => Element(values[i]))
  }

  /** The six symbols of a register as a polynomial. */
  function Symbols(w: Word): Gf32.Poly {
    seq(6, i requires 0 <= i < 6 => Element(Symbol(w, i)))
  }

  /** The first generator word packs the coefficients of the generator polynomial, and each further word the previous
      ones multiplied by x. */
  lemma GeneratorSymbols(k: nat, i: nat)
    requires k < 5 && i < 6
    ensures Element(Symbol(GENERATOR[k], i)) == Gf32.Power(Gf32.GENERATOR[i], k)
  {
    hide Element, Symbol, Gf32.Double;
    GeneratorPacks(i);
    DoublesFirst(i);
    DoublesSecond(i);
    DoublesThird(i);
    DoublesFourth(i);
    var g := Gf32.GENERATOR[i];
    assert Gf32.Power(g, 1) == Gf32.Double(g) && Gf32.Power(g, 2) == Gf32.Double(Gf32.Power(g, 1));
    assert Gf32.Power(g, 3) == Gf32.Double(Gf32.Power(g, 2)) && Gf32.Power(g, 4) == Gf32.Double(Gf32.Power(g, 3));
  }

  lemma GeneratorPacks(i: nat)
    requires i < 6
    ensures Element(Symbol(GENERATOR[0], i)) == Gf32.GENERATOR[i]
  {
  }

  lemma DoublesFirst(i: nat)
    requires i < 6
    ensures Element(Symbol(GENERATOR[1], i)) == Gf32.Double(Element(Symbol(GENERATOR[0], i)))
  {
  }

  lemma DoublesSecond(i: nat)
    requires i < 6
    ensures Element(Symbol(GENERATOR[2], i)) == Gf32.Double(Element(Symbol(GENERATOR[1], i)))
  {
  }

  lemma DoublesThird(i: nat)
    requires i < 6
    ensures Element(Symbol(GENERATOR[3], i)) == Gf32.Double(Element(Symbol(GENERATOR[2], i)))
  {
  }

  lemma DoublesFourth(i: nat)
    requires i < 6
    ensures Element(Symbol(GENERATOR[4], i)) == Gf32.Double(Element(Symbol(GENERATOR[3], i)))
  {
  }

  lemma BitIs(top: Word, k: nat)
    requires k < 5
    ensures Bit(top, k) == Gf32.BitOf(Element(top), k)
  {
  }

  lemma GatedSymbol(bit: bool, g: Word, i: nat)
    requires i < 6
    ensures Element(Symbol(Gated(bit, g), i)) == Gf32.Pick(bit, Element(Symbol(g, i)))
  {
  }

  /** The feedback is the top symbol times the generator polynomial. */
  lemma {:induction false} FeedbackSymbols(top: Word, n: nat, i: nat)
    requires n <= 5 && i < 6
    ensures Element(Symbol(Feedback(top, n), i)) == Gf32.Terms(Gf32.GENERATOR[i], Element(top), n)
  {
    hide Xor, Bit, Gated, Symbol, Element, Gf32.Pick, Gf32.Power, Gf32.BitOf, Gf32.Plus;
    if n == 0 {
      SymbolOfZero(i);
    } else {
      var f, g := Feedback(top, n - 1), Gated(Bit(top, n - 1), GENERATOR[n - 1]);
      FeedbackSymbols(top, n - 1, i);
      SymbolSum(f, g, i);
      GatedSymbol(Bit(top, n - 1), GENERATOR[n - 1], i);
      BitIs(top, n - 1);
      GeneratorSymbols(n - 1, i);
    }
  }

  lemma SymbolOfZero(i: nat)
    requires i < 6
    ensures Element(Symbol(ZERO, i)) == 0
  {
  }

  lemma SymbolSum(a: Word, b: Word, i: nat)
    requires i < 6
    ensures Element(Symbol(Xor(a, b), i)) == Gf32.Plus(Element(Symbol(a, i)), Element(Symbol(b, i)))
  {
    hide Xor, Symbol, Element;
    SymbolXor(a, b, i);
    ElementXor(Symbol(a, i), Symbol(b, i));
  }

  /** One round of the register is one step of long division. */
  lemma StepDivides(chk: Word, v: Word)
    requires Fits(chk) && Small(v)
    ensures Symbols(Step(chk, v)) == Gf32.Divided(Symbols(chk) + [Element(v)])
  {
    hide Xor, ShiftIn, Top, Symbol, Element, Feedback, Gf32.Times, Gf32.Plus, Gf32.Divided;
    var p := Symbols(chk) + [Element(v)];
    forall i | 0 <= i < 6 ensures Symbols(Step(chk, v))[i] == Gf32.Divided(p)[i] {
      SymbolSum(Xor(ShiftIn(chk), v), Feedback(Top(chk), 5), i);
      SymbolSum(ShiftIn(chk), v, i);
      ShiftInSymbol(chk, i);
      SmallSymbol(v, i);
      SymbolOfZero(i);
      ElementXor(ZERO, ZERO);
      Gf32.PlusLaws(p[i + 1], 0);
      TopSymbol(chk);
      FeedbackSymbols(Top(chk), 5, i);
      DividedShort(p, i);
    }
  }

  lemma DividedShort(p: Gf32.Poly, i: nat)
    requires |p| == 7 && i < 6
    ensures Gf32.Divided(p)[i] == Gf32.Plus(p[i + 1], Gf32.Terms(Gf32.GENERATOR[i], p[0], 5))
  {
    hide Gf32.Plus, Gf32.Terms;
  }

  lemma DividedConcat(p: Gf32.Poly, rest: Gf32.Poly)
    requires |p| == 7
    ensures Gf32.Divided(p + rest) == Gf32.Divided(p) + rest
  {
    hide Gf32.Sum, Gf32.Scaled;
    assert (p + rest)[1..7] == p[1..7] && (p + rest)[7..] == rest && p[7..] == [];
  }

  /** Feeding symbols into a register divides by the generator polynomial: what the register holds in the end is the
      remainder of its first contents followed by the symbols. */
  lemma {:induction false} RunIsRemainder(chk: Word, values: seq<Word>)
    requires Fits(chk) && AllSmall(values)
    ensures Gf32.IsRemainder(Symbols(chk) + Elements(values), Symbols(Run(chk, values)))
    decreases |values|
  {
    hide Run, Step, Symbol, Element, Fits, Small, Gf32.IsRemainder, Gf32.Divided;
    if values == [] {
      RunNothing(chk);
      assert Symbols(chk) + Elements([]) == Symbols(chk);
      Gf32.ShortRemainder(Symbols(chk));
    } else {
      var v, rest := values[0], values[1..];
      SmallFits(v);
      StepFits(chk, v);
      RunIsRemainder(Step(chk, v), rest);
      StepDivides(chk, v);
      RunFirst(chk, values);
      var p := Symbols(chk) + [Element(v)];
      assert Symbols(chk) + Elements(values) == p + Elements(rest);
      DividedConcat(p, Elements(rest));
      Gf32.DivideStep(p + Elements(rest), Symbols(Run(chk, values)));
    }
  }

  lemma RemainderFromOne(values: seq<Word>)
    requires AllSmall(values)
    ensures Gf32.IsRemainder([0, 0, 0, 0, 0, 1] + Elements(values), Symbols(Run(Word(1), values)))
  {
    hide Run, Elements, Gf32.IsRemainder;
    OneFits();
    assert Symbols(Word(1)) == [0, 0, 0, 0, 0, 1];
    RunIsRemainder(Word(1), values);
  }

  lemma RunNothing(chk: Word)
    ensures Run(chk, []) == chk
  {
  }

  lemma RunFirst(chk: Word, values: seq<Word>)
    requires values != []
    ensures Run(chk, values) == Run(Step(chk, values[0]), values[1..])
  {
    hide Step;
    RunConcat(chk, [values[0]], values[1..]);
    assert values == [values[0]] + values[1..];
    assert Run(chk, [values[0]]) == Step(chk, values[0]);
  }

  /* ---------- a created checksum verifies ---------- */

  /** The human-readable part, given by its UTF-16 code units, as register values. */
  function HrpExpand(hrp: seq<bv16>): seq<Word> {
    seq(|hrp|, i requires 0 <= i < |hrp| => HighPart(hrp[i]))
    + [ZERO]
    + seq(|hrp|, i requires 0 <= i < |hrp| => LowPart(hrp[i]))
  }

  function Zeros(n: nat): (r: seq<Word>) {
    seq(n, i => ZERO)
  }

  /** Six five-bit symbols. */
  ghost predicate IsChecksum(s: seq<Word>) {
    |s| == 6 && forall i :: 0 <= i < 6 ==> Small(s[i])
  }

  function CutSymbols(w: Word): seq<Word> {
    [Symbol(w, 0), Symbol(w, 1), Symbol(w, 2), Symbol(w, 3), Symbol(w, 4), Symbol(w, 5)]
  }

  /** The six checksum symbols for an expanded prefix followed by the data: they verify, and no
      other six symbols do. */
  method CreateChecksum(hrp: seq<bv16>, data: seq<Word>, isBech32m: bool) returns (checksum: seq<Word>)
    requires AllFit(data)
    ensures IsChecksum(checksum)
    ensures Run(Word(1), HrpExpand(hrp) + data + checksum) == Target(isBech32m)
    ensures forall other :: IsChecksum(other) && Run(Word(1), HrpExpand(hrp) + data + other) == Target(isBech32m)
                            ==> other == checksum
    ensures AllSmall(HrpExpand(hrp) + data) ==>
              Gf32.IsRemainder([0, 0, 0, 0, 0, 1] + Elements(HrpExpand(hrp) + data + checksum),
                               if isBech32m then [21, 28, 16, 12, 5, 3] else [0, 0, 0, 0, 0, 1])
  {
    hide Run, Step, Xor, Symbol, Small, HrpExpand;
    var values := HrpExpand(hrp) + data;
    var register := Polymod(values + Zeros(6));
    var polymod := Xor(register, Target(isBech32m));
    checksum := [];
    for i := 0 to 6
      invariant checksum == CutSymbols(polymod)[..i]
    {
      checksum := checksum + [Symbol(polymod, i)];
    }
    assert checksum == CutSymbols(polymod);
    HrpFits(hrp);
    CutIsChecksum(polymod);
    forall other | IsChecksum(other)
      ensures Run(Word(1), values + other) == Target(isBech32m) <==> other == checksum
    {
      ChecksumVerifies(values, Target(isBech32m), other);
    }
    if AllSmall(values) {
      RemainderFromOne(values + checksum);
      TargetSymbols();
    }
  }

  lemma TargetSymbols()
    ensures Symbols(Target(false)) == [0, 0, 0, 0, 0, 1] && Symbols(Target(true)) == [21, 28, 16, 12, 5, 3]
  {
  }

  /** The expansion spells the upper bits of every code unit, a zero, and the lower five bits of every code unit. */
  lemma HrpSymbols(hrp: seq<bv16>, i: nat)
    requires i < |hrp|
    ensures |HrpExpand(hrp)| == 2 * |hrp| + 1 && HrpExpand(hrp)[|hrp|] == Word(0)
    ensures var high, low := HrpExpand(hrp)[i].bits, HrpExpand(hrp)[|hrp| + 1 + i].bits;
            low < 32 && high * 32 + low == hrp[i] as bv32
  {
    var high, low := HrpExpand(hrp)[i], HrpExpand(hrp)[|hrp| + 1 + i];
    assert high == HighPart(hrp[i]) && low == LowPart(hrp[i]);
    UnitParts(hrp[i]);
  }

  lemma UnitParts(c: bv16)
    ensures LowPart(c).bits < 32 && HighPart(c).bits * 32 + LowPart(c).bits == c as bv32
  {
  }

  lemma HrpFits(hrp: seq<bv16>)
    ensures AllFit(HrpExpand(hrp))
  {
  }

  lemma FeedbackZero(n: nat)
    requires n <= 5
    ensures Feedback(ZERO, n) == ZERO
  {
  }

  lemma StepLow(chk: Word, v: Word)
    requires Top(chk) == ZERO
    ensures Step(chk, v) == Xor(ShiftIn(chk), v)
  {
    hide Xor, Top, ShiftIn, Feedback;
    FeedbackZero(5);
    XorLaws(Xor(ShiftIn(chk), v));
  }

  lemma RunPrefix(chk: Word, values: seq<Word>, k: nat)
    requires k < |values|
    ensures Run(chk, values[..k + 1]) == Step(Run(chk, values[..k]), values[k])
    ensures Run(chk, values[..0]) == chk
  {
    hide Step;
    assert values[..k + 1][..k] == values[..k];
  }

  /** Feeding six symbols into an empty register packs them. */
  lemma RunSymbols(s: seq<Word>)
    requires IsChecksum(s)
    ensures Run(ZERO, s) == Pack(s)
  {
    hide Run, Step, Xor, Top, ShiftIn, Small;
    PackSmall(s);
    var r1 := Xor(ShiftIn(s[0]), s[1]);
    var r2 := Xor(ShiftIn(r1), s[2]);
    var r3 := Xor(ShiftIn(r2), s[3]);
    var r4 := Xor(ShiftIn(r3), s[4]);
    ShiftZero();
    XorLaws(s[0]);
    StepLow(ZERO, s[0]);
    StepLow(s[0], s[1]);
    StepLow(r1, s[2]);
    StepLow(r2, s[3]);
    StepLow(r3, s[4]);
    StepLow(r4, s[5]);
    RunPrefix(ZERO, s, 0);
    RunPrefix(ZERO, s, 1);
    RunPrefix(ZERO, s, 2);
    RunPrefix(ZERO, s, 3);
    RunPrefix(ZERO, s, 4);
    RunPrefix(ZERO, s, 5);
    assert s[..6] == s;
  }

  lemma CutIsChecksum(w: Word)
    ensures IsChecksum(CutSymbols(w))
  {
  }

  /** Packing and cutting are inverse on 30-bit words and checksums. */
  lemma PackIffCut(s: seq<Word>, w: Word)
    requires IsChecksum(s) && Fits(w)
    ensures Pack(s) == w <==> s == CutSymbols(w)
  {
    hide Symbol, Small, Pack, Fits;
    PackSymbols(w, CutSymbols(w));
    if Pack(s) == w {
      forall i | 0 <= i < 6 ensures s[i] == CutSymbols(w)[i] { CutPacked(s, i); }
    }
  }

  /** Six symbols appended to a list leave the register at the target if and only if they are cut
      from (register of the zero-padded list) + target. */
  lemma ChecksumVerifies(values: seq<Word>, target: Word, s: seq<Word>)
    requires AllFit(values) && Fits(target) && IsChecksum(s)
    ensures Run(Word(1), values + s) == target <==>
            s == CutSymbols(Xor(Run(Word(1), values + Zeros(6)), target))
  {
    hide Run, Step, Xor, Symbol, Small, Pack, CutSymbols, Fits;
    var p := Run(Word(1), values);
    var z := Run(Word(1), values + Zeros(6));
    var w := Xor(z, target);
    assert Fits(w) by {
      ShiftInFits(ZERO);
      OneFits();
      RegisterFits(Word(1), values + Zeros(6));
      XorFits(z, target);
    }
    RunConcat(Word(1), values, Zeros(6));
    RunConcat(Word(1), values, s);
    forall i | 0 <= i < 6 ensures Xor(Zeros(6)[i], s[i]) == s[i] { XorLaws(s[i]); }
    assert XorAll(Zeros(6), s) == s;
    XorLaws(p);
    RunXor(p, Zeros(6), ZERO, s);
    RunSymbols(s);
    PackIffCut(s, w);
    XorCancel(z, target);
    XorCancel(z, Pack(s));
  }

  /* ---------- every single substitution is detected ---------- */

  lemma FeedbackTaps(top: Word)
    ensures Feedback(top, 5) == Taps(top)
  {
    hide Xor, Bit, Gated;
    assert Feedback(top, 2) == Xor(Feedback(top, 1), Gated(Bit(top, 1), GENERATOR[1]));
    assert Feedback(top, 4) == Xor(Feedback(top, 3), Gated(Bit(top, 3), GENERATOR[3]));
  }

  /** A step with no symbol never empties a register that was not empty. */
  lemma StepInjective(chk: Word)
    requires Fits(chk)
    requires Step(chk, ZERO) == ZERO
    ensures chk == ZERO
  {
    hide Xor, Feedback, Taps, ShiftIn, Top, Fits;
    FeedbackTaps(Top(chk));
    XorLaws(ShiftIn(chk));
    TapsInjective(chk);
  }

  lemma {:induction false} RunZeros(chk: Word, n: nat)
    requires Fits(chk)
    ensures Fits(Run(chk, Zeros(n)))
    ensures Run(chk, Zeros(n)) == ZERO <==> chk == ZERO
  {
    hide Step, Fits;
    if n > 0 {
      RunZeros(chk, n - 1);
      assert Zeros(n)[..n - 1] == Zeros(n - 1);
      var r := Run(chk, Zeros(n - 1));
      ShiftInFits(ZERO);
      StepFits(r, ZERO);
      if Step(r, ZERO) == ZERO { StepInjective(r); }
      ShiftZero();
      StepLow(ZERO, ZERO);
      XorLaws(ZERO);
    }
  }

  /** Lists that differ by `d`, surrounded by nothing, have different registers if `d` alone leaves something. */
  lemma DifferenceShows(xs: seq<Word>, ys: seq<Word>, i: nat, d: seq<Word>, n: nat)
    requires |xs| == |ys| && XorAll(xs, ys) == Zeros(i) + d + Zeros(n)
    requires Fits(Run(ZERO, d)) && Run(ZERO, d) != ZERO
    ensures Run(Word(1), xs) != Run(Word(1), ys)
  {
    hide Run, Step, Xor, Fits, XorAll;
    RunXor(Word(1), xs, Word(1), ys);
    XorLaws(Word(1));
    ShiftInFits(ZERO);
    RunZeros(ZERO, i);
    RunConcat(ZERO, Zeros(i), d);
    RunConcat(ZERO, Zeros(i) + d, Zeros(n));
    RunZeros(Run(ZERO, d), n);
    XorZeroIffEqual(Run(Word(1), xs), Run(Word(1), ys));
  }

  /** Changing one symbol, anywhere in a list of any length, changes the register: no list and a
      copy of it with one symbol replaced can both verify. */
  lemma SubstitutionDetected(values: seq<Word>, i: nat, v: Word)
    requires AllFit(values) && Fits(v)
    requires i < |values| && v != values[i]
    ensures Run(Word(1), values[i := v]) != Run(Word(1), values)
  {
    hide Run, Step, Xor, Fits;
    var changed, n := values[i := v], |values| - i - 1;
    var d := Xor(values[i], v);
    XorZeroIffEqual(values[i], v);
    XorFits(values[i], v);
    var diff := Zeros(i) + [d] + Zeros(n);
    forall k | 0 <= k < |values| ensures XorAll(values, changed)[k] == diff[k] { XorLaws(values[k]); }
    RunOne(d);
    DifferenceShows(values, changed, i, [d], n);
  }

  lemma RunOne(d: Word)
    ensures Run(ZERO, [d]) == d
  {
    hide Run, Step, Xor;
    RunPrefix(ZERO, [d], 0);
    assert [d][..1] == [d];
    ShiftZero();
    StepLow(ZERO, d);
    XorLaws(d);
  }

  /* ---------- every burst of up to six symbols is detected ---------- */

  /** Six symbols or fewer empty the register only if they are all zero. */
  lemma BurstLeavesSomething(d: seq<Word>)
    requires |d| <= 6 && AllSmall(d)
    ensures Fits(Run(ZERO, d))
    ensures Run(ZERO, d) == ZERO ==> d == Zeros(|d|)
  {
    hide Run, Step, Xor, Fits, Small, Pack, Symbol;
    var k := 6 - |d|;
    var s := Zeros(k) + d;
    SmallWords();
    ShiftInFits(ZERO);
    RunZeros(ZERO, k);
    RunConcat(ZERO, Zeros(k), d);
    assert AllFit(s) by {
      forall i | 0 <= i < |s| ensures Fits(s[i]) { SmallFits(s[i]); }
    }
    RegisterFits(ZERO, s);
    RunSymbols(s);
    PackIffCut(s, ZERO);
    CutNothing();
    if s == Zeros(6) {
      assert forall i :: 0 <= i < |d| ==> d[i] == s[k + i];
    }
  }

  lemma CutNothing()
    ensures CutSymbols(ZERO) == Zeros(6)
  {
  }

  /** Any change confined to six neighbouring symbols, anywhere in a list of any length, changes the register. */
  lemma BurstDetected(before: seq<Word>, xs: seq<Word>, ys: seq<Word>, after: seq<Word>)
    requires |xs| == |ys| <= 6 && AllSmall(xs) && AllSmall(ys) && xs != ys
    ensures Run(Word(1), before + xs + after) != Run(Word(1), before + ys + after)
  {
    hide Run, Step, Xor, Fits, Small;
    var d := XorAll(xs, ys);
    forall i | 0 <= i < |d| ensures Small(d[i]) { XorSmall(xs[i], ys[i]); }
    BurstLeavesSomething(d);
    BurstDiffers(xs, ys);
    BurstAlone(before, xs, ys, after);
    DifferenceShows(before + xs + after, before + ys + after, |before|, d, |after|);
  }

  lemma BurstDiffers(xs: seq<Word>, ys: seq<Word>)
    requires |xs| == |ys| && xs != ys
    ensures XorAll(xs, ys) != Zeros(|xs|)
  {
    hide Xor;
    var i :| 0 <= i < |xs| && xs[i] != ys[i];
    XorZeroIffEqual(xs[i], ys[i]);
    assert XorAll(xs, ys)[i] != ZERO;
  }

  lemma BurstAlone(before: seq<Word>, xs: seq<Word>, ys: seq<Word>, after: seq<Word>)
    requires |xs| == |ys|
    ensures XorAll(before + xs + after, before + ys + after) == Zeros(|before|) + XorAll(xs, ys) + Zeros(|after|)
  {
    hide Xor;
    var a, b := before + xs + after, before + ys + after;
    var all, diff := XorAll(a, b), Zeros(|before|) + XorAll(xs, ys) + Zeros(|after|);
    forall k | 0 <= k < |a| ensures all[k] == diff[k] {
      XorLaws(a[k]);
    }
  }

  /* ---------- the published examples ---------- */

  /** One round of the register, on bits. */
  function Next(chk: bv32, v: bv32): bv32 {
    XorBits(XorBits(ShiftBits(chk), v), TapBits(chk))
  }

  function XorBits(a: bv32, b: bv32): bv32 {
    a ^ b
  }

  function ShiftBits(chk: bv32): bv32 {
    (chk & 0x1ff_ffff) << 5
  }

  function TapBits(chk: bv32): bv32 {
    var a := if chk & 0x200_0000 == 0 then 0 else 0x3b6a57b2;
    var b := XorBits(a, if chk & 0x400_0000 == 0 then 0 else 0x26508e6d);
    var c := XorBits(b, if chk & 0x800_0000 == 0 then 0 else 0x1ea119fa);
    var d := XorBits(c, if chk & 0x1000_0000 == 0 then 0 else 0x3d4233dd);
    XorBits(d, if chk & 0x2000_0000 == 0 then 0 else 0x2a1462b3)
  }

  lemma TopBitsAre(chk: bv32)
    ensures Bit(Top(Word(chk)), 0) <==> chk & 0x200_0000 != 0
    ensures Bit(Top(Word(chk)), 1) <==> chk & 0x400_0000 != 0
    ensures Bit(Top(Word(chk)), 2) <==> chk & 0x800_0000 != 0
    ensures Bit(Top(Word(chk)), 3) <==> chk & 0x1000_0000 != 0
    ensures Bit(Top(Word(chk)), 4) <==> chk & 0x2000_0000 != 0
  {
  }

  lemma TapBitsAre(chk: bv32)
    ensures Taps(Top(Word(chk))) == Word(TapBits(chk))
  {
    hide Bit, Top, Xor, XorBits;
    TopBitsAre(chk);
    var a := if chk & 0x200_0000 == 0 then 0 else 0x3b6a57b2;
    var b := if chk & 0x400_0000 == 0 then 0 else 0x26508e6d;
    var c := if chk & 0x800_0000 == 0 then 0 else 0x1ea119fa;
    var d := if chk & 0x1000_0000 == 0 then 0 else 0x3d4233dd;
    XorLaws(Word(a));
    XorIs(a, b);
    XorIs(XorBits(a, b), c);
    XorIs(XorBits(XorBits(a, b), c), d);
    XorIs(XorBits(XorBits(XorBits(a, b), c), d), if chk & 0x2000_0000 == 0 then 0 else 0x2a1462b3);
  }

  lemma NextIs(chk: bv32, v: bv32)
    ensures Step(Word(chk), Word(v)) == Word(Next(chk, v))
  {
    hide Feedback, Taps, Top, TapBits, Xor, ShiftIn, XorBits, ShiftBits;
    FeedbackTaps(Top(Word(chk)));
    TapBitsAre(chk);
    ShiftInIs(chk);
    XorIs(ShiftBits(chk), v);
    XorIs(XorBits(ShiftBits(chk), v), TapBits(chk));
  }

  lemma ShiftInIs(chk: bv32)
    ensures ShiftIn(Word(chk)) == Word(ShiftBits(chk))
  {
  }

  lemma XorIs(a: bv32, b: bv32)
    ensures Xor(Word(a), Word(b)) == Word(XorBits(a, b))
  {
  }

  /** The register after the expanded prefix "a". */
  lemma AfterA(checksum: seq<Word>)
    ensures Run(Word(1), HrpExpand([0x61]) + [] + checksum) == Run(Word(0x8c01), checksum)
  {
    hide Run;
    var start := [Word(3), Word(0), Word(1)];
    assert HrpExpand([0x61]) == start;
    assert start + [] == start;
    RunConcat(Word(1), start, checksum);
    NextIs(0x1, 3);
    NextIs(0x23, 0);
    NextIs(0x460, 1);
    RunPrefix(Word(1), start, 0);
    RunPrefix(Word(1), start, 1);
    RunPrefix(Word(1), start, 2);
    assert start[..3] == start;
  }

  /** Six more rounds through the given registers. */
  lemma SixMore(checksum: seq<Word>, chks: seq<bv32>)
    requires |checksum| == 6 && |chks| == 7
    requires forall k :: 0 <= k < 6 ==> chks[k + 1] == Next(chks[k], checksum[k].bits)
    ensures Run(Word(chks[0]), checksum) == Word(chks[6])
  {
    hide Run, Step, Next;
    RunPrefix(Word(chks[0]), checksum, 0);
    for k := 0 to 6
      invariant Run(Word(chks[0]), checksum[..k]) == Word(chks[k])
    {
      RunPrefix(Word(chks[0]), checksum, k);
      NextIs(chks[k], checksum[k].bits);
    }
    assert checksum[..6] == checksum;
  }

  /** The address a12uel5l of BIP 173. */
  lemma Bip173Example()
    ensures var checksum := [Word(10), Word(28), Word(25), Word(31), Word(20), Word(31)];
            Run(Word(1), HrpExpand([0x61]) + [] + checksum) == Word(1) == Target(false)
  {
    hide Run, Next;
    var checksum := [Word(10), Word(28), Word(25), Word(31), Word(20), Word(31)];
    AfterA(checksum);
    Bip173Steps();
    SixMore(checksum, [0x8c01, 0x11802a, 0x230055c, 0x3d6afc2b, 0x2f84386, 0x24622766, 0x1]);
  }

  lemma Bip173Steps()
    ensures Next(0x8c01, 10) == 0x11802a && Next(0x11802a, 28) == 0x230055c
    ensures Next(0x230055c, 25) == 0x3d6afc2b && Next(0x3d6afc2b, 31) == 0x2f84386
    ensures Next(0x2f84386, 20) == 0x24622766 && Next(0x24622766, 31) == 0x1
  {
  }

  /** The address a1lqfn3a of BIP 350. */
  lemma Bip350Example()
    ensures var checksum := [Word(31), Word(0), Word(9), Word(19), Word(17), Word(29)];
            Run(Word(1), HrpExpand([0x61]) + [] + checksum) == Word(0x2bc830a3) == Target(true)
  {
    hide Run, Next;
    var checksum := [Word(31), Word(0), Word(9), Word(19), Word(17), Word(29)];
    AfterA(checksum);
    Bip350Steps();
    SixMore(checksum, [0x8c01, 0x11803f, 0x23007e0, 0x3d6aabbb, 0x2f2b18a, 0x253c66e3, 0x2bc830a3]);
  }

  lemma Bip350Steps()
    ensures Next(0x8c01, 31) == 0x11803f && Next(0x11803f, 0) == 0x23007e0
    ensures Next(0x23007e0, 9) == 0x3d6aabbb && Next(0x3d6aabbb, 19) == 0x2f2b18a
    ensures Next(0x2f2b18a, 17) == 0x253c66e3 && Next(0x253c66e3, 29) == 0x2bc830a3
  {
  }
}
