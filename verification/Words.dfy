/** 32-bit words and the few bit operations the Bech32 register needs.

    The word is wrapped in a datatype so that proofs elsewhere can reason from the laws below
    instead of from bits. */
module Words {

  datatype Word = Word(bits: bv32)

  const ZERO := Word(0)

  function Xor(a: Word, b: Word): Word {
    Word(a.bits ^ b.bits)
  }

  /** The five bits above bit 25: `w >> 25`. */
  function Top(w: Word): Word {
    Word(w.bits >> 25)
  }

  /** The low 25 bits moved up by five: `(w & 0x1ffffff) << 5`. */
  function ShiftIn(w: Word): Word {
    Word((w.bits & 0x1ffffff) << 5)
  }

  /** Bit `i` of the five bits shifted out of the register: `(top >> i) & 1`. */
  predicate Bit(top: Word, i: nat)
    requires i < 5
  {
    match i
    case 0 => top.bits & 1 == 1
    case 1 => (top.bits >> 1) & 1 == 1
    case 2 => (top.bits >> 2) & 1 == 1
    case 3 => (top.bits >> 3) & 1 == 1
    case 4 => (top.bits >> 4) & 1 == 1
  }

  /** Symbol `i` of the six symbols packed in 30 bits: `(w >> (5 * (5 - i))) & 31`. */
  function Symbol(w: Word, i: nat): Word
    requires i < 6
  {
    match i
    case 0 => Cut(w, 25)
    case 1 => Cut(w, 20)
    case 2 => Cut(w, 15)
    case 3 => Cut(w, 10)
    case 4 => Cut(w, 5)
    case 5 => Cut(w, 0)
  }

  function Cut(w: Word, k: bv6): Word
    requires k <= 32
  {
    Word((w.bits >> k) & 31)
  }

  /** The two register values of one code unit of a prefix: `c >> 5` and `c & 31`. */
  function HighPart(c: bv16): Word {
    Word((c >> 5) as bv32)
  }

  function LowPart(c: bv16): Word {
    Word((c & 31) as bv32)
  }

  /** The word fits in 30 bits. */
  predicate Fits(w: Word) {
    w.bits < 0x4000_0000
  }

  /* The laws used by the checksum proofs. */

  lemma XorLaws(a: Word)
    ensures Xor(a, ZERO) == a && Xor(ZERO, a) == a && Xor(a, a) == ZERO
  {
  }

  lemma XorComm(a: Word, b: Word)
    ensures Xor(a, b) == Xor(b, a)
  {
  }

  lemma XorAssoc(a: Word, b: Word, c: Word)
    ensures Xor(Xor(a, b), c) == Xor(a, Xor(b, c))
  {
  }

  lemma XorExchange(a: Word, b: Word, c: Word, d: Word)
    ensures Xor(Xor(a, b), Xor(c, d)) == Xor(Xor(a, c), Xor(b, d))
  {
    hide *;
    XorAssoc(a, b, Xor(c, d));
    XorAssoc(b, c, d);
    XorComm(b, c);
    XorAssoc(c, b, d);
    XorAssoc(a, c, Xor(b, d));
  }

  lemma XorCancel(a: Word, b: Word)
    ensures Xor(a, Xor(a, b)) == b
  {
  }

  lemma XorZeroIffEqual(a: Word, b: Word)
    ensures Xor(a, b) == ZERO <==> a == b
  {
  }

  lemma XorFits(a: Word, b: Word)
    requires Fits(a) && Fits(b)
    ensures Fits(Xor(a, b))
  {
  }

  lemma TopXor(a: Word, b: Word)
    ensures Top(Xor(a, b)) == Xor(Top(a), Top(b))
  {
  }

  lemma ShiftInXor(a: Word, b: Word)
    ensures ShiftIn(Xor(a, b)) == Xor(ShiftIn(a), ShiftIn(b))
  {
  }

  lemma OneFits()
    ensures Fits(Word(1))
  {
  }

  lemma ShiftZero()
    ensures Top(ZERO) == ZERO && ShiftIn(ZERO) == ZERO
  {
  }

  lemma ShiftInFits(w: Word)
    ensures Fits(ShiftIn(w)) && Fits(ZERO)
  {
  }

  lemma BitXor(a: Word, b: Word, i: nat)
    requires i < 5
    ensures Bit(Xor(a, b), i) == (Bit(a, i) != Bit(b, i))
  {
    match i
    case 0 => assert Bit(Xor(a, b), 0) == (Bit(a, 0) != Bit(b, 0));
    case 1 => assert Bit(Xor(a, b), 1) == (Bit(a, 1) != Bit(b, 1));
    case 2 => assert Bit(Xor(a, b), 2) == (Bit(a, 2) != Bit(b, 2));
    case 3 => assert Bit(Xor(a, b), 3) == (Bit(a, 3) != Bit(b, 3));
    case 4 => assert Bit(Xor(a, b), 4) == (Bit(a, 4) != Bit(b, 4));
  }

  /** The word is a five-bit symbol. */
  predicate Small(w: Word) {
    w.bits < 32
  }

  lemma SmallWords()
    ensures Small(ZERO)
  {
  }

  lemma SmallFits(w: Word)
    requires Small(w)
    ensures Fits(w)
  {
  }

  lemma XorSmall(a: Word, b: Word)
    requires Small(a) && Small(b)
    ensures Small(Xor(a, b))
  {
  }

  /** The register after six symbols have been shifted in, one after the other. */
  function Pack(s: seq<Word>): Word
    requires |s| == 6
  {
    Xor(ShiftIn(Xor(ShiftIn(Xor(ShiftIn(Xor(ShiftIn(Xor(ShiftIn(s[0]), s[1])), s[2])), s[3])), s[4])), s[5])
  }

  lemma PackSymbols(w: Word, s: seq<Word>)
    requires Fits(w)
    requires s == [Symbol(w, 0), Symbol(w, 1), Symbol(w, 2), Symbol(w, 3), Symbol(w, 4), Symbol(w, 5)]
    ensures Pack(s) == w
  {
  }

  /** Nothing is shifted out while six symbols are packed, and each can be cut out again. */
  lemma PackSmall(s: seq<Word>)
    requires |s| == 6 && forall i :: 0 <= i < 6 ==> Small(s[i])
    ensures
      var r1 := Xor(ShiftIn(s[0]), s[1]);
      var r2 := Xor(ShiftIn(r1), s[2]);
      var r3 := Xor(ShiftIn(r2), s[3]);
      var r4 := Xor(ShiftIn(r3), s[4]);
      Top(s[0]) == ZERO && Top(r1) == ZERO && Top(r2) == ZERO && Top(r3) == ZERO && Top(r4) == ZERO
  {
  }

  lemma CutPacked(s: seq<Word>, i: nat)
    requires |s| == 6 && (forall k :: 0 <= k < 6 ==> Small(s[k])) && i < 6
    ensures Symbol(Pack(s), i) == s[i]
  {
    assert Small(s[0]) && Small(s[1]) && Small(s[2]) && Small(s[3]) && Small(s[4]) && Small(s[5]);
  }

  function Gated(bit: bool, g: Word): Word {
    if bit then g else ZERO
  }

  /** The five generator words of Bech32, each added when its bit of `top` is set. */
  function Taps(top: Word): Word {
    var t1 := Xor(ZERO, Gated(Bit(top, 0), Word(0x3b6a57b2)));
    var t2 := Xor(t1, Gated(Bit(top, 1), Word(0x26508e6d)));
    var t3 := Xor(t2, Gated(Bit(top, 2), Word(0x1ea119fa)));
    var t4 := Xor(t3, Gated(Bit(top, 3), Word(0x3d4233dd)));
    Xor(t4, Gated(Bit(top, 4), Word(0x2a1462b3)))
  }

  /** The low five bits of the generator words are linearly independent, so a register cannot be
      emptied by a step. */
  lemma TapsInjective(w: Word)
    requires Fits(w)
    requires Xor(ShiftIn(w), Taps(Top(w))) == ZERO
    ensures w == ZERO
  {
    hide Xor, ShiftIn, Taps, Top, Low;
    XorZeroIffEqual(ShiftIn(w), Taps(Top(w)));
    ShiftInLow(w);
    TopSmall(w);
    TapsLow(Top(w));
    TapsZero();
    ShiftedOut(w);
  }

  /** The low five bits. */
  function Low(w: Word): bv32 {
    w.bits & 0x1f
  }

  lemma ShiftInLow(w: Word)
    ensures Low(ShiftIn(w)) == 0
  {
  }

  lemma TopSmall(w: Word)
    requires Fits(w)
    ensures Small(Top(w))
  {
  }

  lemma TapsLow(top: Word)
    requires Small(top) && Low(Taps(top)) == 0
    ensures top == ZERO
  {
  }

  lemma TapsZero()
    ensures Taps(ZERO) == ZERO
  {
  }

  lemma ShiftedOut(w: Word)
    requires Fits(w) && Top(w) == ZERO && ShiftIn(w) == ZERO
    ensures w == ZERO
  {
  }

  /* ---------- the symbols of a word ---------- */

  function Element(w: Word): bv5 {
    (w.bits & 31) as bv5
  }

  lemma ElementXor(a: Word, b: Word)
    ensures Element(Xor(a, b)) == Element(a) ^ Element(b) && Element(ZERO) == 0
  {
  }

  lemma SymbolXor(a: Word, b: Word, i: nat)
    requires i < 6
    ensures Symbol(Xor(a, b), i) == Xor(Symbol(a, i), Symbol(b, i))
  {
    hide Cut, Xor;
    CutXor(a, b, 25);
    CutXor(a, b, 20);
    CutXor(a, b, 15);
    CutXor(a, b, 10);
    CutXor(a, b, 5);
    CutXor(a, b, 0);
  }

  lemma CutXor(a: Word, b: Word, k: bv6)
    requires k <= 32
    ensures Cut(Xor(a, b), k) == Xor(Cut(a, k), Cut(b, k))
  {
  }

  /** Shifting in moves every symbol up by one place. */
  lemma ShiftInSymbol(w: Word, i: nat)
    requires i < 6
    ensures Symbol(ShiftIn(w), i) == if i < 5 then Symbol(w, i + 1) else ZERO
  {
    hide Cut, ShiftIn;
    ShiftInUpper(w);
    ShiftInLower(w);
  }

  lemma ShiftInUpper(w: Word)
    ensures Cut(ShiftIn(w), 25) == Cut(w, 20) && Cut(ShiftIn(w), 20) == Cut(w, 15) && Cut(ShiftIn(w), 15) == Cut(w, 10)
  {
  }

  lemma ShiftInLower(w: Word)
    ensures Cut(ShiftIn(w), 10) == Cut(w, 5) && Cut(ShiftIn(w), 5) == Cut(w, 0) && Cut(ShiftIn(w), 0) == ZERO
  {
  }

  lemma SmallSymbol(v: Word, i: nat)
    requires Small(v) && i < 6
    ensures Symbol(v, i) == if i < 5 then ZERO else v
  {
  }

  lemma TopSymbol(w: Word)
    requires Fits(w)
    ensures Top(w) == Symbol(w, 0) && Small(Top(w))
  {
  }
}
