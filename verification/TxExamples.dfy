/** The wire format spelled out on one transaction with every kind of field (BIP 144). */
module TxExamples {
  import opened Wrappers
  import opened HexBytes
  import opened TxFormat
  import opened TxDecoder
  import opened TxId

  /** One input with a script and two witness items, and one output; all numbers are different. */
  function Example(prev: Hex): Tx {
    Tx(0x04030201, true, [TxIn(prev, 5, [10, 11, 12, 13], 0xffff_fffd)], [TxOut(1_000_000_000, [6, 10])],
       [[[3, 0], [0, 2]]], 7)
  }

  /** 01020304. */
  const VERSION: Hex := [0, 1, 0, 2, 0, 3, 0, 4]

  /** 05000000 02 abcd fdffffff: index, script with its length, sequence. */
  const AFTER_PREV: Hex := [0, 5, 0, 0, 0, 0, 0, 0] + [0, 2, 10, 11, 12, 13] + [15, 13, 15, 15, 15, 15, 15, 15]

  /** 01 00ca9a3b00000000 01 6a: output count, value, script with its length. */
  const OUTPUTS: Hex := [0, 1] + [0, 0, 12, 10, 9, 10, 3, 11, 0, 0, 0, 0, 0, 0, 0, 0] + [0, 1, 6, 10]

  /** 02 01 30 01 02: item count, and each item with its length. */
  const WITNESS: Hex := [0, 2] + [0, 1, 3, 0] + [0, 1, 0, 2]

  /** 07000000. */
  const LOCKTIME: Hex := [0, 7, 0, 0, 0, 0, 0, 0]

  lemma Shifted(b: nat, v: nat, n: nat)
    requires b < 256 && n > 0
    ensures PutLittle(b + 256 * v, n) == PutByte(b) + PutLittle(v, n - 1)
  {
    assert (b + 256 * v) % 256 == b && (b + 256 * v) / 256 == v;
  }

  lemma Nothing(v: nat)
    ensures PutLittle(v, 0) == []
  {
  }

  lemma TwoBytes(a: nat, b: nat)
    requires a < 256 && b < 256
    ensures PutLittle(a + 256 * b, 2) == PutByte(a) + PutByte(b)
  {
    hide PutLittle, PutByte;
    Shifted(a, b, 2);
    Shifted(b, 0, 1);
    Nothing(0);
  }

  lemma VersionPrints()
    ensures PutLittle(0x04030201, 4) == VERSION
  {
    hide PutLittle;
    Shifted(0x01, 0x040302, 4);
    Shifted(0x02, 0x0403, 3);
    TwoBytes(0x03, 0x04);
  }

  lemma SequencePrints()
    ensures PutLittle(0xffff_fffd, 4) == [15, 13, 15, 15, 15, 15, 15, 15]
  {
    hide PutLittle;
    Shifted(0xfd, 0xff_ffff, 4);
    Shifted(0xff, 0xffff, 3);
    TwoBytes(0xff, 0xff);
  }

  lemma SmallNumber(v: nat)
    requires v < 16
    ensures PutLittle(v, 4) == [0, v, 0, 0, 0, 0, 0, 0]
  {
    hide PutLittle;
    Shifted(v, 0, 4);
    Shifted(0, 0, 3);
    TwoBytes(0, 0);
  }

  lemma Value()
    ensures PutLittle(1_000_000_000, 8) == [0, 0, 12, 10, 9, 10, 3, 11, 0, 0, 0, 0, 0, 0, 0, 0]
  {
    hide PutLittle;
    Shifted(0x00, 3906250, 8);
    Shifted(0xca, 15258, 7);
    Shifted(0x9a, 59, 6);
    Shifted(0x3b, 0, 5);
    SmallNumber(0);
  }

  lemma InputPrints(prev: Hex)
    ensures PutIns(Example(prev).ins) == [0, 1] + prev + AFTER_PREV
  {
    hide PutLittle;
    SequencePrints();
    SmallNumber(5);
    var i := Example(prev).ins[0];
    assert PutIn(i) == prev + AFTER_PREV by {
      assert PutScript([10, 11, 12, 13]) == [0, 2] + [10, 11, 12, 13];
    }
    hide PutIn;
    assert PutAll(PutIn, [i]) == PutIn(i) + PutAll(PutIn, []);
  }

  lemma OutputPrints(prev: Hex)
    ensures PutOuts(Example(prev).outs) == OUTPUTS
  {
    hide PutLittle;
    Value();
    var o := Example(prev).outs[0];
    assert PutScript([6, 10]) == [0, 1] + [6, 10];
    assert PutAll(PutOut, [o]) == PutOut(o) + PutAll(PutOut, []);
  }

  lemma WitnessPrints(prev: Hex)
    ensures PutAll(PutWitness, Example(prev).witnesses) == WITNESS
  {
    var w: seq<Hex> := [[3, 0], [0, 2]];
    assert PutScript([3, 0]) == [0, 1, 3, 0] && PutScript([0, 2]) == [0, 1, 0, 2];
    hide PutScript;
    assert w[1..] == [[0, 2]];
    assert PutAll(PutScript, w[1..]) == PutScript([0, 2]) + PutAll(PutScript, []);
    assert PutAll(PutScript, w) == PutScript([3, 0]) + PutAll(PutScript, w[1..]);
    assert PutWitness(w) == WITNESS;
    assert PutAll(PutWitness, [w]) == PutWitness(w) + PutAll(PutWitness, []);
  }

  /** The digits of the transaction, with the marker and flag 0001, and without them and the witness. */
  lemma ExamplePrints(prev: Hex)
    ensures PutTx(Example(prev)) == VERSION + [0, 0, 0, 1] + [0, 1] + prev + AFTER_PREV + OUTPUTS + WITNESS + LOCKTIME
    ensures PutLegacy(Example(prev)) == VERSION + [0, 1] + prev + AFTER_PREV + OUTPUTS + LOCKTIME
  {
    hide PutLittle, PutIns, PutOuts, PutAll;
    VersionPrints();
    SmallNumber(7);
    InputPrints(prev);
    OutputPrints(prev);
    WitnessPrints(prev);
    Flattened(VERSION, [0, 0, 0, 1], [0, 1], prev, AFTER_PREV, OUTPUTS, WITNESS, LOCKTIME);
  }

  lemma Flattened(a: Hex, b: Hex, c: Hex, d: Hex, e: Hex, f: Hex, g: Hex, h: Hex)
    ensures a + (b + ((c + d + e) + (f + (g + h)))) == a + b + c + d + e + f + g + h
    ensures a + ((c + d + e) + (f + h)) == a + c + d + e + f + h
  {
  }

  /** What the decoder reads from these digits, and what it hashes for the id. The weight is 3 * 63 + 70. */
  lemma ExampleDecodes(prev: Hex)
    requires |prev| == 64
    ensures var hex := VERSION + [0, 0, 0, 1] + [0, 1] + prev + AFTER_PREV + OUTPUTS + WITNESS + LOCKTIME;
            && Decoded(hex) == Success(Transaction(
                 0x04030201, true,
                 [Input(Reversed(prev), 5, [10, 11, 12, 13], 0xffff_fffd, Some([[3, 0], [0, 2]]))],
                 [Output(1_000_000_000, [6, 10])], 7, 259))
            && TakeTx(hex).Success?
            && Hashed(hex) == VERSION + [0, 1] + prev + AFTER_PREV + OUTPUTS + LOCKTIME
  {
    hide PutTx, PutLegacy, Decoded, TakeTx, Reversed, Hashed;
    var tx := Example(prev);
    ExamplePrints(prev);
    PrintedDecodes(tx);
    HashedIsLegacy(tx);
    ExactNumber(1_000_000_000);
    hide Number;
    assert Shown(tx).inputs == [Input(Reversed(prev), 5, [10, 11, 12, 13], 0xffff_fffd, Some([[3, 0], [0, 2]]))];
    assert Shown(tx).outputs == [Output(1_000_000_000, [6, 10])];
  }

  lemma ExactNumber(n: nat)
    requires n < MAX_EXACT
    ensures Number(n) == n
  {
  }
}
