/** The digits the page hashes for a transaction id, and the weight it reports.

    The decoder strips the SegWit parts by reading the transaction a second time and printing it
    again. It prints counts and lengths of 253 and more most significant byte first, so the digits
    are the legacy form of BIP 144 exactly when no count or length is affected. */
module TxId {
  import opened Wrappers
  import opened HexBytes
  import opened TxFormat
  import opened TxDecoder

  /* ---------- how lengths are printed again ---------- */

  /** `n.toString(16)`. */
  function Digits(n: nat): (h: Hex)
    ensures |h| >= 1
  {
    if n < 16 then [n] else Digits(n / 16) + [n % 16]
  }

  /** `h.padStart(width, '0')`. */
  function PadStart(h: Hex, width: nat): Hex {
    if |h| >= width then h else seq(width - |h|, i => 0) + h
  }

  function PutLength(n: nat): Hex {
    if n < 0xfd then PadStart(Digits(n), 2) else PutByte(0xfd) + PadStart(Digits(n), 4)
  }

  /** The lengths whose second printing is the wire format: one byte, or two equal bytes. */
  predicate Safe(n: nat) {
    n < 0xfd || (n <= 0xffff && n / 256 == n % 256)
  }

  /** The number hex digits spell, most significant first. */
  function HexNumber(h: Hex): nat {
    if h == [] then 0 else HexNumber(h[..|h| - 1]) * 16 + h[|h| - 1]
  }

  /** The digits spell the number, and none is wasted. */
  lemma {:induction false} DigitsSpell(n: nat)
    ensures HexNumber(Digits(n)) == n && (n > 0 ==> Digits(n)[0] != 0)
  {
    if n >= 16 {
      DigitsSpell(n / 16);
      assert Digits(n)[..|Digits(n)| - 1] == Digits(n / 16);
    } else {
      assert [n][..0] == [];
    }
  }

  /** A length above ffff is printed as fd followed by its digits, however many they are. */
  lemma LongLength(n: nat)
    requires n > 0xffff
    ensures PutLength(n)[..2] == [15, 13] && HexNumber(PutLength(n)[2..]) == n && PutLength(n)[2] != 0
  {
    DigitsSpell(n);
    assert |Digits(n)| > 4 by { FourDigits(n); }
    assert PutLength(n)[2..] == Digits(n);
  }

  lemma FourDigits(n: nat)
    requires n > 0xffff
    ensures |Digits(n)| > 4
  {
    var a, b, c, d := n / 16, n / 16 / 16, n / 16 / 16 / 16, n / 16 / 16 / 16 / 16;
    assert d > 0;
    assert |Digits(c)| == |Digits(d)| + 1;
    assert |Digits(b)| == |Digits(c)| + 1;
    assert |Digits(a)| == |Digits(b)| + 1;
  }

  lemma PadByte(n: nat)
    requires n < 256
    ensures PadStart(Digits(n), 2) == PutByte(n)
  {
  }

  lemma PadWord(n: nat)
    requires 256 <= n <= 0xffff
    ensures PadStart(Digits(n), 4) == PutByte(n / 256) + PutByte(n % 256)
  {
    assert n / 16 / 16 == n / 256 && n / 16 % 16 == n % 256 / 16 && n % 16 == n % 256 % 16;
    PadByte(n / 256);
    var d := Digits(n / 256);
    assert Digits(n) == d + [n / 16 % 16] + [n % 16];
    assert PutByte(n % 256) == [n / 16 % 16, n % 16];
    if n / 256 < 16 {
      assert PadStart(Digits(n), 4) == [0] + Digits(n);
    } else {
      assert |d| == 2;
    }
  }

  lemma PadShort(n: nat)
    requires 0xfd <= n < 256
    ensures PadStart(Digits(n), 4) == PutByte(0) + PutByte(n)
  {
  }

  /** Two-byte lengths are printed high byte first the second time, low byte first on the wire. */
  lemma TwoByteForms(n: nat)
    requires 0xfd <= n <= 0xffff
    ensures PutLength(n) == PutByte(0xfd) + PutByte(n / 256) + PutByte(n % 256)
    ensures PutVarInt(n) == PutByte(0xfd) + PutByte(n % 256) + PutByte(n / 256)
  {
    hide ShiftMask, Digits, PadStart;
    if n < 256 { PadShort(n); } else { PadWord(n); }
    PutVarIntForm(n);
    assert PutLittle(n / 256, 1) == PutByte(n / 256 % 256) + PutLittle(n / 256 / 256, 0) == PutByte(n / 256);
  }

  lemma TwoBytesAgree(hi: nat, lo: nat, x: Hex, y: Hex)
    requires hi < 256 && lo < 256
    ensures PutByte(0xfd) + PutByte(hi) + PutByte(lo) + x == PutByte(0xfd) + PutByte(lo) + PutByte(hi) + y
            <==> hi == lo && x == y
  {
    var a := PutByte(0xfd) + PutByte(hi) + PutByte(lo);
    var b := PutByte(0xfd) + PutByte(lo) + PutByte(hi);
    if hi == lo {
      CancelPrefix(a, x, y);
    } else {
      assert (a + x)[2] == hi / 16 && (a + x)[3] == hi % 16;
      assert (b + y)[2] == lo / 16 && (b + y)[3] == lo % 16;
    }
  }

  /** The two printings agree, whatever follows them, only on safe lengths. */
  lemma LengthsAgree(n: nat, x: Hex, y: Hex)
    requires n <= 0xffff_ffff
    ensures PutLength(n) + x == PutVarInt(n) + y <==> Safe(n) && x == y
  {
    hide ShiftMask, Digits, PadStart, PutWord;
    if n < 0xfd {
      PadByte(n);
      CancelPrefix(PutByte(n), x, y);
    } else if n <= 0xffff {
      hide PutLength, PutVarInt, PutByte;
      TwoByteForms(n);
      TwoBytesAgree(n / 256, n % 256, x, y);
    } else {
      assert (PutLength(n) + x)[1] == 13 && (PutVarInt(n) + y)[1] == 14;
    }
  }

  lemma CancelPrefix(p: Hex, x: Hex, y: Hex)
    ensures p + x == p + y <==> x == y
  {
    assert (p + x)[|p|..] == x && (p + y)[|p|..] == y;
  }

  /* ---------- the stripped transaction ---------- */

  function PutInAgain(i: TxIn): Hex {
    i.prev + (PutLittle(i.vout, 4) + (PutLength(|i.scriptSig| / 2) + i.scriptSig + PutLittle(i.sequence, 4)))
  }

  function PutOutAgain(o: TxOut): Hex {
    PutLittle(o.value, 8) + (PutLength(|o.script| / 2) + o.script)
  }

  function PutInsAgain(ins: seq<TxIn>): Hex {
    PutLength(|ins|) + PutAll(PutInAgain, ins)
  }

  function PutOutsAgain(outs: seq<TxOut>): Hex {
    PutLength(|outs|) + PutAll(PutOutAgain, outs)
  }

  /** The digits built for hashing. */
  function PutStripped(tx: Tx): Hex {
    PutLittle(tx.version, 4) + (PutInsAgain(tx.ins) + (PutOutsAgain(tx.outs) + PutLittle(tx.locktime, 4)))
  }

  /** Every count and length of the legacy form is safe. */
  ghost predicate SafeTx(tx: Tx) {
    && Safe(|tx.ins|) && Safe(|tx.outs|)
    && (forall i :: 0 <= i < |tx.ins| ==> Safe(|tx.ins[i].scriptSig| / 2))
    && (forall i :: 0 <= i < |tx.outs| ==> Safe(|tx.outs[i].script| / 2))
  }

  lemma InAgrees(i: TxIn, x: Hex, y: Hex)
    requires ValidIn(i)
    ensures PutInAgain(i) + x == PutIn(i) + y <==> Safe(|i.scriptSig| / 2) && x == y
  {
    hide PutLength, PutVarInt, PutLittle, Safe;
    var n := |i.scriptSig| / 2;
    var front := i.prev + PutLittle(i.vout, 4);
    var tail := i.scriptSig + PutLittle(i.sequence, 4);
    assert PutInAgain(i) + x == front + (PutLength(n) + (tail + x));
    assert PutIn(i) + y == front + (PutVarInt(n) + (tail + y));
    CancelPrefix(front, PutLength(n) + (tail + x), PutVarInt(n) + (tail + y));
    LengthsAgree(n, tail + x, tail + y);
    CancelPrefix(tail, x, y);
  }

  lemma OutAgrees(o: TxOut, x: Hex, y: Hex)
    requires ValidOut(o)
    ensures PutOutAgain(o) + x == PutOut(o) + y <==> Safe(|o.script| / 2) && x == y
  {
    hide PutLength, PutVarInt, PutLittle, Safe;
    var n := |o.script| / 2;
    var front := PutLittle(o.value, 8);
    assert PutOutAgain(o) + x == front + (PutLength(n) + (o.script + x));
    assert PutOut(o) + y == front + (PutVarInt(n) + (o.script + y));
    CancelPrefix(front, PutLength(n) + (o.script + x), PutVarInt(n) + (o.script + y));
    LengthsAgree(n, o.script + x, o.script + y);
    CancelPrefix(o.script, x, y);
  }

  lemma PutFirst<T>(put: T -> Hex, xs: seq<T>, rest: Hex)
    requires xs != []
    ensures PutAll(put, xs) + rest == put(xs[0]) + (PutAll(put, xs[1..]) + rest)
  {
  }

  lemma {:induction false} InsAgree(ins: seq<TxIn>, x: Hex, y: Hex)
    requires forall i :: 0 <= i < |ins| ==> ValidIn(ins[i])
    ensures PutAll(PutInAgain, ins) + x == PutAll(PutIn, ins) + y
            <==> (forall i :: 0 <= i < |ins| ==> Safe(|ins[i].scriptSig| / 2)) && x == y
  {
    hide PutInAgain, PutIn, ValidIn, Safe;
    if ins == [] {
      assert PutAll(PutInAgain, ins) + x == x && PutAll(PutIn, ins) + y == y;
    } else {
      var a, b := PutAll(PutInAgain, ins[1..]) + x, PutAll(PutIn, ins[1..]) + y;
      PutFirst(PutInAgain, ins, x);
      PutFirst(PutIn, ins, y);
      InAgrees(ins[0], a, b);
      InsAgree(ins[1..], x, y);
      assert ins == [ins[0]] + ins[1..];
    }
  }

  lemma {:induction false} OutsAgree(outs: seq<TxOut>, x: Hex, y: Hex)
    requires forall i :: 0 <= i < |outs| ==> ValidOut(outs[i])
    ensures PutAll(PutOutAgain, outs) + x == PutAll(PutOut, outs) + y
            <==> (forall i :: 0 <= i < |outs| ==> Safe(|outs[i].script| / 2)) && x == y
  {
    hide PutOutAgain, PutOut, ValidOut, Safe;
    if outs == [] {
      assert PutAll(PutOutAgain, outs) + x == x && PutAll(PutOut, outs) + y == y;
    } else {
      var a, b := PutAll(PutOutAgain, outs[1..]) + x, PutAll(PutOut, outs[1..]) + y;
      PutFirst(PutOutAgain, outs, x);
      PutFirst(PutOut, outs, y);
      OutAgrees(outs[0], a, b);
      OutsAgree(outs[1..], x, y);
      assert outs == [outs[0]] + outs[1..];
    }
  }

  /** The digits hashed for the id are the legacy form if and only if every count and length is
      below 253 or has two equal bytes. */
  lemma StrippedIsLegacy(tx: Tx)
    requires ValidTx(tx)
    ensures PutStripped(tx) == PutLegacy(tx) <==> SafeTx(tx)
  {
    hide PutLength, PutVarInt, PutLittle, PutAll, ValidIn, ValidOut, ValidWitness, Safe;
    var t := PutLittle(tx.locktime, 4);
    var version := PutLittle(tx.version, 4);
    var a3, b3 := PutAll(PutOutAgain, tx.outs) + t, PutAll(PutOut, tx.outs) + t;
    var a2, b2 := PutLength(|tx.outs|) + a3, PutVarInt(|tx.outs|) + b3;
    var a1, b1 := PutAll(PutInAgain, tx.ins) + a2, PutAll(PutIn, tx.ins) + b2;
    var a0, b0 := PutLength(|tx.ins|) + a1, PutVarInt(|tx.ins|) + b1;
    assert PutLegacy(tx) == version + b0 && PutStripped(tx) == version + a0;
    CancelPrefix(version, a0, b0);
    LengthsAgree(|tx.ins|, a1, b1);
    InsAgree(tx.ins, a2, b2);
    LengthsAgree(|tx.outs|, a3, b3);
    OutsAgree(tx.outs, t, t);
  }

  /* ---------- the method that strips ---------- */

  lemma RawWord(h: Hex, n: nat)
    requires TakeBytes(h, n).Success?
    ensures PutLittle(Little(TakeBytes(h, n).value.0), n) == TakeBytes(h, n).value.0
  {
    PutOfLittle(TakeBytes(h, n).value.0);
  }

  lemma {:induction false} PutAllSnoc<T>(put: T -> Hex, xs: seq<T>, x: T)
    ensures PutAll(put, xs + [x]) == PutAll(put, xs) + put(x)
  {
    if xs == [] {
      assert xs + [x] == [x];
      assert PutAll(put, [x]) == put(x) + PutAll(put, []) == put(x);
    } else {
      PutAllSnoc(put, xs[1..], x);
      assert (xs + [x])[1..] == xs[1..] + [x];
    }
  }

  lemma ManyCons<T>(take: Hex -> Parsed<T>, n: nat, h: Hex)
    requires n > 0 && Many(take, n, h).Success?
    ensures take(h).Success? && Many(take, n - 1, take(h).value.1).Success?
    ensures Many(take, n, h).value.0 == [take(h).value.0] + Many(take, n - 1, take(h).value.1).value.0
    ensures Many(take, n, h).value.1 == Many(take, n - 1, take(h).value.1).value.1
  {
  }

  /** One input, read again and printed again. */
  method StripInput(reader: ByteReader) returns (r: Result<Hex>)
    requires reader.Valid()
    modifies reader
    ensures reader.Valid()
    ensures match TakeIn(old(reader.Rest()))
            case Failure => r.Failure?
            case Success((i, rest)) => r == Success(PutInAgain(i)) && reader.Rest() == rest
  {
    hide TakeBytes, TakeVarInt, PutLittle, Little, PutLength;
    ghost var h0 := reader.Rest();
    var prev :- reader.ReadBytes(32);
    ghost var h1 := reader.Rest();
    var vout :- reader.ReadBytes(4);
    RawWord(h1, 4);
    var n :- reader.ReadVarInt();
    ghost var h2 := reader.Rest();
    var script :- reader.ReadBytes(n);
    BytesLength(h2, n);
    ghost var h3 := reader.Rest();
    var sequence :- reader.ReadBytes(4);
    RawWord(h3, 4);
    r := Success(prev + (vout + (PutLength(n) + script + sequence)));
  }

  lemma BytesLength(h: Hex, n: nat)
    requires TakeBytes(h, n).Success?
    ensures |TakeBytes(h, n).value.0| / 2 == n
  {
  }

  method StripOutput(reader: ByteReader) returns (r: Result<Hex>)
    requires reader.Valid()
    modifies reader
    ensures reader.Valid()
    ensures match TakeOut(old(reader.Rest()))
            case Failure => r.Failure?
            case Success((o, rest)) => r == Success(PutOutAgain(o)) && reader.Rest() == rest
  {
    hide TakeBytes, TakeVarInt, PutLittle, Little, PutLength;
    ghost var h0 := reader.Rest();
    var value :- reader.ReadBytes(8);
    RawWord(h0, 8);
    var n :- reader.ReadVarInt();
    ghost var h2 := reader.Rest();
    var script :- reader.ReadBytes(n);
    BytesLength(h2, n);
    r := Success(value + (PutLength(n) + script));
  }

  /** The input count and the inputs, read again and printed again. */
  method StripInputs(reader: ByteReader) returns (count: nat, text: Hex)
    requires reader.Valid()
    requires TakeIns(reader.Rest(), true).Success?
    modifies reader
    ensures reader.Valid()
    ensures var (ins, rest) := TakeIns(old(reader.Rest()), true).value;
            count == |ins| && text == PutInsAgain(ins) && reader.Rest() == rest
  {
    hide TakeVarInt, TakeIn, PutLength, PutInAgain, Many;
    var (ins, rest) := TakeIns(reader.Rest(), true).value;
    var readCount := reader.ReadVarInt();
    count, text := readCount.value, [];
    ManyLength(TakeIn, count, reader.Rest());
    for i := 0 to count
      invariant reader.Valid() && |ins| == count
      invariant Many(TakeIn, count - i, reader.Rest()) == Success((ins[i..], rest))
      invariant text == PutAll(PutInAgain, ins[..i])
    {
      ManyCons(TakeIn, count - i, reader.Rest());
      var one := StripInput(reader);
      PutAllSnoc(PutInAgain, ins[..i], ins[i]);
      assert ins[..i + 1] == ins[..i] + [ins[i]] && ins[i..][1..] == ins[i + 1..];
      text := text + one.value;
    }
    ManyZero(TakeIn, reader.Rest());
    assert ins[..count] == ins;
    text := PutLength(count) + text;
  }

  lemma ManyZero<T>(take: Hex -> Parsed<T>, h: Hex)
    ensures Many(take, 0, h) == Success(([], h))
  {
  }

  method StripOutputs(reader: ByteReader) returns (text: Hex)
    requires reader.Valid()
    requires TakeOuts(reader.Rest()).Success?
    modifies reader
    ensures reader.Valid()
    ensures var (outs, rest) := TakeOuts(old(reader.Rest())).value;
            text == PutOutsAgain(outs) && reader.Rest() == rest
  {
    hide TakeVarInt, TakeOut, PutLength, PutOutAgain, Many;
    var (outs, rest) := TakeOuts(reader.Rest()).value;
    var readCount := reader.ReadVarInt();
    var count := readCount.value;
    ManyLength(TakeOut, count, reader.Rest());
    text := [];
    for i := 0 to count
      invariant reader.Valid() && |outs| == count
      invariant Many(TakeOut, count - i, reader.Rest()) == Success((outs[i..], rest))
      invariant text == PutAll(PutOutAgain, outs[..i])
    {
      ManyCons(TakeOut, count - i, reader.Rest());
      var one := StripOutput(reader);
      PutAllSnoc(PutOutAgain, outs[..i], outs[i]);
      assert outs[..i + 1] == outs[..i] + [outs[i]] && outs[i..][1..] == outs[i + 1..];
      text := text + one.value;
    }
    ManyZero(TakeOut, reader.Rest());
    assert outs[..count] == outs;
    text := PutLength(count) + text;
  }

  method SkipWitnesses(reader: ByteReader, count: nat)
    requires reader.Valid()
    requires Many(TakeWitness, count, reader.Rest()).Success?
    modifies reader
    ensures reader.Valid()
    ensures reader.Rest() == Many(TakeWitness, count, old(reader.Rest())).value.1
  {
    hide TakeWitness, Many;
    ghost var rest := Many(TakeWitness, count, reader.Rest()).value.1;
    for i := 0 to count
      invariant reader.Valid()
      invariant Many(TakeWitness, count - i, reader.Rest()).Success?
      invariant Many(TakeWitness, count - i, reader.Rest()).value.1 == rest
    {
      ManyCons(TakeWitness, count - i, reader.Rest());
      var items := ReadWitness(reader);
    }
    ManyZero(TakeWitness, reader.Rest());
  }

  function Hashed(hex: Hex): Hex
    requires TakeTx(hex).Success?
  {
    var tx := TakeTx(hex).value.0;
    if tx.segwit then PutStripped(tx) else hex
  }

  /** What is hashed for a printed transaction is its legacy form if and only if it is in that form already or
      every count and length is safe. */
  lemma HashedIsLegacy(tx: Tx)
    requires ValidTx(tx)
    ensures TakeTx(PutTx(tx)).Success?
    ensures Hashed(PutTx(tx)) == PutLegacy(tx) <==> !tx.segwit || SafeTx(tx)
  {
    hide TakeTx, PutStripped, PutLegacy, ValidTx, SafeTx;
    TakeTxPut(tx, []);
    assert PutTx(tx) + [] == PutTx(tx);
    StrippedIsLegacy(tx);
  }

  /** A SegWit transaction with one input, whose script has 253 bytes. */
  function LongScript(): Tx {
    Tx(1, true, [TxIn(seq(64, i => 0), 0, seq(506, i => 0), 0)], [], [[]], 0)
  }

  lemma LongScriptValid()
    ensures ValidTx(LongScript()) && LongScript().segwit && !SafeTx(LongScript())
  {
    var tx := LongScript();
    assert |tx.ins[0].scriptSig| / 2 == 253 && !Safe(253);
  }

  /** Its id is computed from the wrong digits: the length is printed as fd00fd instead of fdfd00. */
  lemma LongScriptMisprinted()
    ensures ValidTx(LongScript()) && LongScript().segwit
    ensures TakeTx(PutTx(LongScript())).Success? && Hashed(PutTx(LongScript())) != PutLegacy(LongScript())
    ensures PutLength(253) == [15, 13, 0, 0, 15, 13] && PutVarInt(253) == [15, 13, 15, 13, 0, 0]
  {
    hide LongScript, PutTx, PutLegacy, TakeTx, Hashed, ValidTx, SafeTx, PutLength, PutVarInt;
    LongScriptValid();
    HashedIsLegacy(LongScript());
    TwoByteForms(253);
    assert PutByte(0xfd) == [15, 13] && PutByte(0) == [0, 0];
  }

  /** The digits to hash, for a transaction the decoder has already parsed: the input itself for the
      legacy form, the stripped printing for the SegWit form. The second reading never fails. */
  method DigitsToHash(hex: Hex, isSegwit: bool) returns (digits: Hex)
    requires TakeTx(hex).Success? && isSegwit == TakeTx(hex).value.0.segwit
    ensures digits == Hashed(hex)
  {
    if !isSegwit { return hex; }
    hide TakeHeader, TakeIns, TakeOuts, TakeWitness, TakeBytes, TakeLittle, Many, PutLittle, Little,
         PutInsAgain, PutOutsAgain;
    HeaderDigits(hex);
    RawWord(hex, 4);
    var reader := new ByteReader(hex);
    var version := reader.ReadBytes(4);
    var markerFlag := reader.ReadBytes(2);
    var count, inputs := StripInputs(reader);
    var outputs := StripOutputs(reader);
    SkipWitnesses(reader, count);
    LittleBytes(reader.Rest(), 4);
    RawWord(reader.Rest(), 4);
    var locktime := reader.ReadBytes(4);
    digits := version.value + (inputs + (outputs + locktime.value));
  }

  lemma LittleBytes(h: Hex, n: nat)
    ensures TakeLittle(h, n).Success? == TakeBytes(h, n).Success?
    ensures TakeLittle(h, n).Success? ==>
              && TakeLittle(h, n).value.0 == Little(TakeBytes(h, n).value.0)
              && TakeLittle(h, n).value.1 == TakeBytes(h, n).value.1
  {
  }

  /** A SegWit header is four bytes of version followed by two bytes that can be skipped. */
  lemma HeaderDigits(hex: Hex)
    requires TakeHeader(hex).Success? && TakeHeader(hex).value.0.1
    ensures TakeBytes(hex, 4).Success?
    ensures var (version, rest) := TakeBytes(hex, 4).value;
            && Little(version) == TakeHeader(hex).value.0.0
            && TakeBytes(rest, 2).Success? && TakeBytes(rest, 2).value.1 == TakeHeader(hex).value.1
  {
  }

  /* ---------- the weight ---------- */

  lemma PutEven(n: nat, s: Hex)
    ensures |PutVarInt(n)| % 2 == 0
    ensures |s| % 2 == 0 ==> |PutScript(s)| % 2 == 0
  {
    hide ShiftMask;
  }

  lemma {:induction false} PutAllEven<T>(put: T -> Hex, xs: seq<T>)
    requires forall i :: 0 <= i < |xs| ==> |put(xs[i])| % 2 == 0
    ensures |PutAll(put, xs)| % 2 == 0
  {
    if xs != [] {
      assert xs[0] == xs[0];
      forall i | 0 <= i < |xs[1..]| ensures |put(xs[1..][i])| % 2 == 0 { assert xs[1..][i] == xs[i + 1]; }
      PutAllEven(put, xs[1..]);
    }
  }

  lemma BackEven(tx: Tx)
    requires ValidTx(tx)
    ensures |PutAll(PutWitness, tx.witnesses)| % 2 == 0
  {
    hide PutVarInt, PutScript;
    forall i | 0 <= i < |tx.witnesses| ensures |PutWitness(tx.witnesses[i])| % 2 == 0 {
      var w := tx.witnesses[i];
      assert ValidWitness(w);
      PutEven(|w|, []);
      forall j | 0 <= j < |w| ensures |PutScript(w[j])| % 2 == 0 { PutEven(0, w[j]); }
      PutAllEven(PutScript, w);
    }
    PutAllEven(PutWitness, tx.witnesses);
  }

  /** What should be reported for a transaction, with the weight of BIP 141: three times the size
      without witness data plus the total size, in bytes. */
  function Shown(tx: Tx): Transaction
    requires tx.segwit ==> |tx.witnesses| == |tx.ins|
  {
    Transaction(
      tx.version, tx.segwit, ShowIns(tx.ins, tx.segwit, tx.witnesses), ShowOuts(tx.outs), tx.locktime,
      (3 * |PutLegacy(tx)| + |PutTx(tx)|) / 2)
  }

  /** The printed form of a transaction decodes to its fields and its weight. */
  lemma PrintedDecodes(tx: Tx)
    requires ValidTx(tx)
    ensures Decoded(PutTx(tx)) == Success(Shown(tx))
  {
    hide TakeFront, TakeWitnesses, TakeLittle, PutIns, PutOuts, PutLittle, ShowIns, ShowOuts, ValidIn, ValidOut,
         ValidWitness, IsWord, Many;
    var hex := PutTx(tx);
    assert hex + [] == hex;
    TakeFrontPut(tx, []);
    TakeWitnessesBack(tx, []);
    TakeWordPut(tx.locktime, []);
    BackEven(tx);
    var w := PutAll(PutWitness, tx.witnesses);
    assert |PutBack(tx) + []| - |PutLittle(tx.locktime, 4) + []| == |w|;
    if !tx.segwit { assert w == []; }
  }
}
