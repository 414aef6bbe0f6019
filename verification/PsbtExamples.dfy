/** Inputs on which an extracted transaction is not the one with its final fields. */
module PsbtExamples {
  import opened Wrappers
  import opened HexBytes
  import opened TxFormat
  import opened TxDecoder
  import opened TxId
  import opened HalfLengths
  import opened PsbtExtractor

  /** 01000000 0001 00 00 00000000: a SegWit transaction without inputs and outputs. */
  const NO_INPUTS: Hex := [0, 1, 0, 0, 0, 0, 0, 0] + [0, 0, 0, 1] + [0, 0] + [0, 0] + [0, 0, 0, 0, 0, 0, 0, 0]

  function Nothing(): Tx {
    Tx(1, true, [], [], [], 0)
  }

  lemma NothingPrints()
    ensures PutTx(Nothing()) == NO_INPUTS && ValidTx(Nothing())
    ensures PutPrinted(Nothing().(segwit := false))
            == [0, 1, 0, 0, 0, 0, 0, 0] + [0, 0] + [0, 0] + [0, 0, 0, 0, 0, 0, 0, 0]
  {
    WordDigits();
    hide PutLittle;
    assert PutIns([]) == [0, 0] && PutOuts([]) == [0, 0];
  }

  lemma WordDigits()
    ensures PutLittle(1, 4) == [0, 1, 0, 0, 0, 0, 0, 0] && PutLittle(0, 4) == [0, 0, 0, 0, 0, 0, 0, 0]
  {
    assert PutLittle(0, 2) == PutByte(0) + PutByte(0);
    assert PutLittle(0, 3) == PutByte(0) + PutLittle(0, 2);
    assert PutLittle(0, 4) == PutByte(0) + PutLittle(0, 3);
    assert PutLittle(1, 4) == PutByte(1) + PutLittle(0, 3);
  }

  /** The decoder reads it; the extractor prints it without marker, and that the decoder refuses. */
  lemma NoInputsFails()
    ensures Decoded(NO_INPUTS) == Success(Shown(Nothing()))
    ensures var p := Psbt(Shown(Nothing()), []);
            var tx := Extracted(p.unsignedTx, [], NeedsWitness(p));
            PsbtOk(p) && CanFinalize(p) && LengthsFit(tx) && Decoded(PutPrinted(tx)) == Failure
  {
    hide Decoded, PutTx, PutPrinted;
    var p := Psbt(Shown(Nothing()), []);
    NothingPrints();
    PrintedDecodes(Nothing());
    assert Extracted(p.unsignedTx, [], false) == Nothing().(segwit := false);
    NotAMarker();
  }

  lemma NotAMarker()
    ensures Decoded([0, 1, 0, 0, 0, 0, 0, 0] + [0, 0] + [0, 0] + [0, 0, 0, 0, 0, 0, 0, 0]) == Failure
  {
    var word: Hex := [0, 0, 0, 0, 0, 0, 0, 0];
    var h: Hex := [0, 0] + [0, 0] + word;
    WordDigits();
    hide PutLittle, TakeLittle;
    TakeWordPut(1, h);
    assert [0, 1, 0, 0, 0, 0, 0, 0] + [0, 0] + [0, 0] + word == PutLittle(1, 4) + h;
    assert h == PutByte(0) + (PutByte(0) + word);
    TakeBytePut(0, PutByte(0) + word);
    TakeBytePut(0, word);
  }

  /** A transaction with one input and one output of the given value. */
  function Paying(value: nat): Tx {
    Tx(1, false, [TxIn(seq(64, i => 0), 0, [], 0)], [TxOut(value, [])], [], 0)
  }

  function Signature(): PsbtInput {
    PsbtInput(Some([5, 1]), None, [], false)
  }

  lemma PayingValid(value: nat)
    requires value < TWO64
    ensures ValidTx(Paying(value))
  {
  }

  /** A value from 2^64 - 1024 on is shown as 2^64 and extracted as zero. */
  lemma ValuePrintedAsZero(value: nat)
    requires TWO64 - 1024 <= value < TWO64
    ensures var p := Psbt(Shown(Paying(value)), [Signature()]);
            var tx := Extracted(p.unsignedTx, p.inputs, NeedsWitness(p));
            && Decoded(PutTx(Paying(value))) == Success(p.unsignedTx) && p.unsignedTx.outputs[0].value == TWO64
            && RecordsOk(p) && CanFinalize(p) && LengthsFit(tx)
            && Decoded(PutPrinted(tx)) == Success(Signed(p, tx)) && Signed(p, tx).outputs[0].value == 0
  {
    hide Decoded, PutTx, PutPrinted, PutLegacy, Number;
    var p := Psbt(Shown(Paying(value)), [Signature()]);
    PayingValid(value);
    PrintedDecodes(Paying(value));
    NumberOf64(value);
    ExtractionDecodes(PutTx(Paying(value)), p, Extracted(p.unsignedTx, p.inputs, NeedsWitness(p)));
  }

  /** A signature 30 for the key 02, and nothing final. */
  function Partial(): PsbtInput {
    PsbtInput(None, None, [PartialSig([0, 2], [3, 0])], false)
  }

  lemma PartialPushes()
    ensures ScriptSigOf(Partial(), false) == [0, 1, 3, 0, 0, 1, 0, 2]
  {
    PadByte(1);
  }

  /** A partial signature in place of final fields: pushes of signature and key are extracted and read back. */
  lemma PartialUsed(value: nat)
    requires value < TWO64
    ensures var p := Psbt(Shown(Paying(value)), [Partial()]);
            var tx := Extracted(p.unsignedTx, p.inputs, NeedsWitness(p));
            && Decoded(PutTx(Paying(value))) == Success(p.unsignedTx)
            && PsbtOk(p) && CanFinalize(p) && LengthsFit(tx) && !Finalized(p)
            && Decoded(PutPrinted(tx)).Success? && Decoded(PutPrinted(tx)) != Success(Signed(p, tx))
            && |Decoded(PutPrinted(tx)).value.inputs| == 1
            && Decoded(PutPrinted(tx)).value.inputs[0].scriptSig == [0, 1, 3, 0, 0, 1, 0, 2]
  {
    hide Decoded, PutTx, PutPrinted, PutLegacy, Number, ScriptSigOf, Digits;
    var p := Psbt(Shown(Paying(value)), [Partial()]);
    var tx := Extracted(p.unsignedTx, p.inputs, NeedsWitness(p));
    PayingValid(value);
    PrintedDecodes(Paying(value));
    DecodedRanges(PutTx(Paying(value)));
    PartialPushes();
    ExtractionShown(p, tx);
    assert !TakenFromFinal(p.inputs[0], NeedsWitness(p));
    ExtractionDecodes(PutTx(Paying(value)), p, tx);
  }
}
