/** How the extractor prints script signatures: it computes a length as half the number of digits, and that number
    is odd when a push of 256 bytes or more was given a length of three digits. */
module HalfLengths {
  import opened Wrappers
  import opened HexBytes
  import opened TxFormat
  import opened TxDecoder

  const MAX_DIGITS := 0x1_ffff_fffe

  /** The variable-length integer for half of `digits`. Comparisons see the half, `&` and `>>` drop it. An odd number
      below 506 would be printed as a fraction; no script signature has one. */
  function PutHalf(digits: nat): Hex {
    if digits < 2 * 0xfd then PutByte(digits / 2)
    else if digits <= 2 * 0xffff then
      PutByte(0xfd) + PutByte(ShiftMask(digits / 2, 0)) + PutByte(ShiftMask(digits / 2, 1))
    else PutByte(0xfe) + PutWord(digits / 2)
  }

  function EncodeHalf(digits: nat): Result<Hex> {
    if digits <= MAX_DIGITS then Success(PutHalf(digits)) else Failure
  }

  function PutInHalf(i: TxIn): Hex {
    i.prev + (PutLittle(i.vout, 4) + ((PutHalf(|i.scriptSig|) + i.scriptSig) + PutLittle(i.sequence, 4)))
  }

  /** What the extractor prints for a transaction. */
  function PutPrinted(tx: Tx): Hex {
    var ins, outs := PutVarInt(|tx.ins|) + PutAll(PutInHalf, tx.ins), PutOuts(tx.outs);
    if tx.segwit then
      PutLittle(tx.version, 4) + (MARKER_FLAG + (ins + (outs
      + (PutAll(PutWitness, tx.witnesses) + PutLittle(tx.locktime, 4)))))
    else PutLittle(tx.version, 4) + (ins + (outs + PutLittle(tx.locktime, 4)))
  }

  predicate Whole(i: TxIn) {
    |i.scriptSig| % 2 == 0
  }

  lemma WholePrints(i: TxIn)
    requires Whole(i)
    ensures PutInHalf(i) == PutIn(i)
  {
    hide PutWord, ShiftMask, PutLittle;
  }

  lemma {:induction false} AllWholePrint(ins: seq<TxIn>)
    requires forall i :: 0 <= i < |ins| ==> Whole(ins[i])
    ensures PutAll(PutInHalf, ins) == PutAll(PutIn, ins)
  {
    hide PutInHalf, PutIn, Whole;
    if ins != [] {
      WholePrints(ins[0]);
      AllWholePrint(ins[1..]);
    }
  }

  /** With whole bytes only, what is printed is the wire format. */
  lemma WholeTxPrints(tx: Tx)
    requires forall i :: 0 <= i < |tx.ins| ==> Whole(tx.ins[i])
    ensures PutPrinted(tx) == PutTx(tx)
  {
    hide PutAll, PutVarInt, PutLittle, PutOuts;
    AllWholePrint(tx.ins);
  }

  /* ---------- an odd script signature ---------- */

  lemma TakeHalf(digits: nat, rest: Hex)
    requires 506 <= digits <= MAX_DIGITS + 1
    ensures TakeVarInt(PutHalf(digits) + rest) == Success((digits / 2, rest))
  {
    hide TakeVarInt, PutHalf;
    if digits == 2 * 0xffff + 1 {
      TakeEdge(rest);
    } else {
      HalfIsVarInt(digits);
      TakeVarIntPut(digits / 2, rest);
    }
  }

  lemma HalfIsVarInt(digits: nat)
    requires digits != 2 * 0xffff + 1
    ensures PutHalf(digits) == PutVarInt(digits / 2)
  {
    hide PutByte, ShiftMask, PutWord;
  }

  /** The half above 0xffff, which is printed in four bytes where two would do. */
  lemma TakeEdge(rest: Hex)
    ensures TakeVarInt(PutHalf(2 * 0xffff + 1) + rest) == Success((0xffff, rest))
  {
    hide TakeLittle, Number, PutByte, PutLittle, PutWord, ShiftMask, Pow256;
    PutWordIsLittle(0xffff);
    Widths();
    assert PutHalf(2 * 0xffff + 1) + rest == PutByte(0xfe) + (PutLittle(0xffff, 4) + rest);
    TakeBytePut(0xfe, PutLittle(0xffff, 4) + rest);
    TakeLittlePut(0xffff, 4, rest);
  }

  /** A long script signature, whole or not, does not read back as an empty one. */
  lemma LongReadsLong(i: TxIn, rest: Hex)
    requires |i.prev| == 64 && IsWord(i.vout) && 506 <= |i.scriptSig| <= MAX_DIGITS
    ensures TakeIn(PutInHalf(i) + rest).Success? ==> TakeIn(PutInHalf(i) + rest).value.0.scriptSig != []
  {
    hide TakeBytes, TakeLittle, TakeVarInt, PutLittle, PutHalf, IsWord;
    var d := |i.scriptSig|;
    var r3 := i.scriptSig + (PutLittle(i.sequence, 4) + rest);
    var r2 := PutHalf(d) + r3;
    var r1 := PutLittle(i.vout, 4) + r2;
    assert PutInHalf(i) + rest == i.prev + r1;
    TakeBytesPut(i.prev, r1);
    TakeWordPut(i.vout, r2);
    TakeHalf(d, r3);
    SomeBytes(r3, d / 2);
  }

  lemma SomeBytes(h: Hex, n: nat)
    requires n > 0
    ensures TakeBytes(h, n).Success? ==> TakeBytes(h, n).value.0 != []
  {
  }

  ghost predicate PrintsWell(i: TxIn) {
    |i.prev| == 64 && IsWord(i.vout) && IsWord(i.sequence) && |i.scriptSig| <= MAX_DIGITS
    && (!Whole(i) ==> |i.scriptSig| >= 506)
  }

  /** If some script signature is odd, one of the odd ones reads back as something. */
  lemma {:induction false} OddReadsBack(ins: seq<TxIn>, rest: Hex)
    requires forall i :: 0 <= i < |ins| ==> PrintsWell(ins[i])
    requires exists i :: 0 <= i < |ins| && !Whole(ins[i])
    ensures var r := Many(TakeIn, |ins|, PutAll(PutInHalf, ins) + rest);
            r.Success? ==>
              (|r.value.0| == |ins| && exists k :: 0 <= k < |ins| && !Whole(ins[k]) && r.value.0[k].scriptSig != [])
  {
    hide TakeIn, PutInHalf, PutIn;
    var more := PutAll(PutInHalf, ins[1..]) + rest;
    var h := PutAll(PutInHalf, ins) + rest;
    var r := Many(TakeIn, |ins|, h);
    assert h == PutInHalf(ins[0]) + more;
    ManyLength(TakeIn, |ins|, h);
    assert PrintsWell(ins[0]);
    if r.Success? {
      if Whole(ins[0]) {
        WholePrints(ins[0]);
        TakeInPut(ins[0], more);
        OddReadsBack(ins[1..], rest);
        var k :| 0 <= k < |ins[1..]| && !Whole(ins[1..][k]) && r.value.0[1..][k].scriptSig != [];
        assert r.value.0[k + 1].scriptSig != [] && !Whole(ins[k + 1]);
      } else {
        LongReadsLong(ins[0], more);
        assert r.value.0[0].scriptSig != [];
      }
    }
  }
}
