/** The page's transaction extractor for finalized PSBTs (BIP 174) and the proof that the decoder
    reads back what it prints. */
module PsbtExtractor {
  import opened Wrappers
  import opened Arithmetic
  import opened HexBytes
  import opened TxFormat
  import opened TxDecoder
  import opened TxId
  import opened HalfLengths

  datatype PartialSig = PartialSig(pubkey: Hex, signature: Hex)

  /** What the extractor looks at in one input record. `segwitUtxo` says that the record holds a
      witness UTXO of type p2wpkh, p2wsh or p2tr. */
  datatype PsbtInput = PsbtInput(
    finalScriptSig: Option<Hex>, finalScriptWitness: Option<seq<Hex>>, partialSigs: seq<PartialSig>,
    segwitUtxo: bool)

  datatype Psbt = Psbt(unsignedTx: Transaction, inputs: seq<PsbtInput>)

  /* ---------- the choices the extractor makes ---------- */

  /** A final script counts only when it is not the empty string, as JavaScript has it. */
  predicate HasScriptSig(i: PsbtInput) {
    i.finalScriptSig.Some? && i.finalScriptSig.value != []
  }

  predicate HasWitness(i: PsbtInput) {
    i.finalScriptWitness.Some? && i.finalScriptWitness.value != []
  }

  predicate CanFinalizeInput(i: PsbtInput) {
    HasScriptSig(i) || i.finalScriptWitness.Some? || i.partialSigs != []
  }

  ghost predicate CanFinalize(p: Psbt) {
    forall i :: 0 <= i < |p.inputs| ==> CanFinalizeInput(p.inputs[i])
  }

  ghost predicate NeedsWitness(p: Psbt) {
    exists i :: 0 <= i < |p.inputs| && (HasWitness(p.inputs[i]) || p.inputs[i].segwitUtxo)
  }

  /** The script signature printed for an input: the final one, or signature and key pushes. */
  function ScriptSigOf(i: PsbtInput, needsWitness: bool): Hex {
    if HasScriptSig(i) then i.finalScriptSig.value
    else if !needsWitness && i.partialSigs != [] then
      var s := i.partialSigs[0];
      PadStart(Digits(|s.signature| / 2), 2) + s.signature + PadStart(Digits(|s.pubkey| / 2), 2) + s.pubkey
    else []
  }

  /** The witness printed for an input: the final one, or signature and key. */
  function WitnessOf(i: PsbtInput): seq<Hex> {
    if HasWitness(i) then i.finalScriptWitness.value
    else if i.partialSigs != [] then [i.partialSigs[0].signature, i.partialSigs[0].pubkey]
    else []
  }

  /** The transaction the extractor sets out to print. */
  function Extracted(t: Transaction, inputs: seq<PsbtInput>, needsWitness: bool): Tx
    requires |inputs| == |t.inputs|
  {
    Tx(t.version, needsWitness,
       seq(|inputs|, i requires 0 <= i < |inputs| =>
         TxIn(Reversed(t.inputs[i].txid), t.inputs[i].vout, ScriptSigOf(inputs[i], needsWitness),
              t.inputs[i].sequence)),
       seq(|t.outputs|, i requires 0 <= i < |t.outputs| => TxOut(t.outputs[i].value, t.outputs[i].scriptPubKey)),
       if needsWitness then seq(|inputs|, i requires 0 <= i < |inputs| => WitnessOf(inputs[i])) else [],
       t.locktime)
  }

  /* ---------- the values the decoder hands over ---------- */

  /** The ranges every decoded transaction keeps. */
  ghost predicate FromDecoder(t: Transaction) {
    && IsWord(t.version) && IsWord(t.locktime)
    && (forall i :: 0 <= i < |t.inputs| ==> InputOk(t.inputs[i]))
    && (forall i :: 0 <= i < |t.outputs| ==> OutputOk(t.outputs[i]))
  }

  predicate InputOk(i: Input) {
    |i.txid| == 64 && IsWord(i.vout) && IsWord(i.sequence)
  }

  predicate OutputOk(o: Output) {
    o.value <= TWO64 && Number(o.value) == o.value && |o.scriptPubKey| % 2 == 0
  }

  /** Hex fields of a record hold whole bytes. */
  ghost predicate RecordOk(i: PsbtInput) {
    && (i.finalScriptSig.Some? ==> |i.finalScriptSig.value| % 2 == 0)
    && (i.finalScriptWitness.Some? ==>
          forall j :: 0 <= j < |i.finalScriptWitness.value| ==> |i.finalScriptWitness.value[j]| % 2 == 0)
    && (forall j :: 0 <= j < |i.partialSigs| ==>
          |i.partialSigs[j].signature| % 2 == 0 && |i.partialSigs[j].pubkey| % 2 == 0)
  }

  /** One record for every input of the unsigned transaction. */
  ghost predicate RecordsOk(p: Psbt) {
    |p.inputs| == |p.unsignedTx.inputs| && forall i :: 0 <= i < |p.inputs| ==> RecordOk(p.inputs[i])
  }

  ghost predicate PsbtOk(p: Psbt) {
    FromDecoder(p.unsignedTx) && RecordsOk(p)
  }

  lemma LittleRange(h: Hex, n: nat)
    requires TakeLittle(h, n).Success?
    ensures TakeLittle(h, n).value.0 < Pow256(n)
  {
    PutOfLittle(TakeBytes(h, n).value.0);
  }

  lemma {:induction false} ManyAll<T(!new)>(take: Hex -> Parsed<T>, good: T -> bool, n: nat, h: Hex)
    requires forall g: Hex :: take(g).Success? ==> good(take(g).value.0)
    requires Many(take, n, h).Success?
    ensures forall i :: 0 <= i < |Many(take, n, h).value.0| ==> good(Many(take, n, h).value.0[i])
  {
    if n > 0 {
      ManyCons(take, n, h);
      ManyAll(take, good, n - 1, take(h).value.1);
    }
  }

  predicate GoodIn(i: TxIn) {
    |i.prev| == 64 && IsWord(i.vout) && IsWord(i.sequence)
  }

  predicate GoodOut(o: TxOut) {
    o.value < TWO64 && |o.script| % 2 == 0
  }

  lemma ScriptWhole(h: Hex)
    requires TakeScript(h).Success?
    ensures |TakeScript(h).value.0| % 2 == 0
  {
  }

  lemma TakeInGood(h: Hex)
    ensures TakeIn(h).Success? ==> GoodIn(TakeIn(h).value.0)
  {
    hide TakeScript, TakeLittle, Pow256;
    Widths();
    if TakeIn(h).Success? {
      var h1 := h[64..];
      LittleRange(h1, 4);
      var h2 := TakeLittle(h1, 4).value.1;
      var h3 := TakeScript(h2).value.1;
      LittleRange(h3, 4);
    }
  }

  lemma TakeOutGood(h: Hex)
    ensures TakeOut(h).Success? ==> GoodOut(TakeOut(h).value.0)
  {
    hide TakeVarInt, TakeLittle, Pow256;
    Widths();
    if TakeOut(h).Success? {
      LittleRange(h, 8);
      ScriptWhole(TakeLittle(h, 8).value.1);
    }
  }

  lemma {:induction false} ReversedTwice(h: Hex)
    requires |h| % 2 == 0
    ensures |Reversed(h)| == |h| && Reversed(Reversed(h)) == h
  {
    if h != [] {
      ReversedTwice(h[2..]);
      ReversedSnoc(Reversed(h[2..]), h[..2]);
      assert h == h[..2] + h[2..];
    }
  }

  lemma {:induction false} ReversedSnoc(h: Hex, b: Hex)
    requires |h| % 2 == 0 && |b| == 2
    ensures Reversed(h + b) == b + Reversed(h)
  {
    if h == [] {
      assert h + b == b && b[2..] == [] && b[..2] == b;
    } else {
      ReversedSnoc(h[2..], b);
      var all := h + b;
      assert all[2..] == h[2..] + b && all[..2] == h[..2];
      ReversedFront(all);
      ReversedFront(h);
      hide Reversed;
      assert b + (Reversed(h[2..]) + h[..2]) == b + Reversed(h[2..]) + h[..2];
    }
  }

  lemma ReversedFront(h: Hex)
    requires |h| >= 2
    ensures Reversed(h) == Reversed(h[2..]) + h[..2]
  {
  }

  lemma FrontRanges(hex: Hex)
    requires TakeFront(hex).Success?
    ensures var front := TakeFront(hex).value.0;
            && IsWord(front.version)
            && (forall i :: 0 <= i < |front.ins| ==> GoodIn(front.ins[i]))
            && (forall i :: 0 <= i < |front.outs| ==> GoodOut(front.outs[i]))
  {
    hide TakeIn, TakeOut, TakeVarInt, TakeLittle, Pow256, Many, GoodIn, GoodOut;
    Widths();
    LittleRange(hex, 4);
    forall g: Hex ensures TakeIn(g).Success? ==> GoodIn(TakeIn(g).value.0) { TakeInGood(g); }
    forall g: Hex ensures TakeOut(g).Success? ==> GoodOut(TakeOut(g).value.0) { TakeOutGood(g); }
    var ((version, segwit), h1) := TakeHeader(hex).value;
    var (n, g1) := TakeVarInt(h1).value;
    ManyAll(TakeIn, GoodIn, n, g1);
    var h2 := TakeIns(h1, segwit).value.1;
    var (m, g2) := TakeVarInt(h2).value;
    ManyAll(TakeOut, GoodOut, m, g2);
  }

  /** The decoder only reports values in those ranges. */
  lemma DecodedRanges(hex: Hex)
    requires Decoded(hex).Success?
    ensures FromDecoder(Decoded(hex).value)
  {
    hide TakeFront, TakeWitnesses, TakeLittle, Pow256, Number, Reversed, Weight;
    Widths();
    FrontRanges(hex);
    var (front, back) := TakeFront(hex).value;
    LittleRange(TakeWitnesses(back, front.segwit, |front.ins|).value.1, 4);
    var t := Decoded(hex).value;
    forall i | 0 <= i < |t.inputs| ensures InputOk(t.inputs[i]) { ReversedTwice(front.ins[i].prev); }
    forall i | 0 <= i < |t.outputs| ensures OutputOk(t.outputs[i]) {
      NumberOf64(front.outs[i].value);
      NumberIdempotent(front.outs[i].value);
    }
  }

  /* ---------- the extractor ---------- */

  /** Every count and length fits the variable-length integers the extractor can print. */
  ghost predicate LengthsFit(tx: Tx) {
    && IsWord(|tx.ins|) && IsWord(|tx.outs|)
    && (forall i :: 0 <= i < |tx.ins| ==> |tx.ins[i].scriptSig| <= MAX_DIGITS)
    && (forall i :: 0 <= i < |tx.outs| ==> IsWord(|tx.outs[i].script| / 2))
    && (forall i :: 0 <= i < |tx.witnesses| ==> WitnessFits(tx.witnesses[i]))
  }

  ghost predicate WitnessFits(w: seq<Hex>) {
    IsWord(|w|) && forall j :: 0 <= j < |w| ==> IsWord(|w[j]| / 2)
  }

  /** One input: the id back in the order of the wire, index, script signature with its length, sequence. */
  method PrintInput(input: Input, f: PsbtInput, needsWitness: bool) returns (r: Result<Hex>)
    requires InputOk(input)
    ensures var i := TxIn(Reversed(input.txid), input.vout, ScriptSigOf(f, needsWitness), input.sequence);
            r == if |i.scriptSig| <= MAX_DIGITS then Success(PutInHalf(i)) else Failure
  {
    hide PutLittle, PutWord, PutHalf, Reversed, ScriptSigOf;
    PutWordIsLittle(input.vout);
    PutWordIsLittle(input.sequence);
    var scriptSig := ScriptSigOf(f, needsWitness);
    var length :- EncodeHalf(|scriptSig|);
    r := Success(Reversed(input.txid)
                 + (PutWord(input.vout) + (length + scriptSig + PutWord(input.sequence))));
  }

  method PrintInputs(t: Transaction, inputs: seq<PsbtInput>, needsWitness: bool) returns (r: Result<Hex>)
    requires FromDecoder(t) && |inputs| == |t.inputs|
    ensures var ins := Extracted(t, inputs, needsWitness).ins;
            r == if forall i :: 0 <= i < |ins| ==> |ins[i].scriptSig| <= MAX_DIGITS
                 then Success(PutAll(PutInHalf, ins)) else Failure
  {
    hide PutInHalf, Reversed, ScriptSigOf, PutAll, InputOk;
    ghost var ins := Extracted(t, inputs, needsWitness).ins;
    var text: Hex := [];
    PutAllNil(PutInHalf);
    for i := 0 to |inputs|
      invariant forall j :: 0 <= j < i ==> |ins[j].scriptSig| <= MAX_DIGITS
      invariant text == PutAll(PutInHalf, ins[..i])
    {
      assert InputOk(t.inputs[i]) && ScriptSigOf(inputs[i], needsWitness) == ins[i].scriptSig;
      var one :- PrintInput(t.inputs[i], inputs[i], needsWitness);
      text := text + one;
      PutAllSnoc(PutInHalf, ins[..i], ins[i]);
      assert ins[..i + 1] == ins[..i] + [ins[i]];
    }
    assert ins[..|inputs|] == ins;
    r := Success(text);
  }

  lemma PutAllNil<T>(put: T -> Hex)
    ensures PutAll(put, []) == []
  {
  }

  lemma LowByte(v: int)
    ensures ToInt32(v) % 256 == v % 256
  {
    var k := (v + 0x8000_0000) / 0x1_0000_0000;
    ByteMinus(v, k * 0x100_0000);
  }

  lemma PutLittleStep(v: nat, n: nat)
    requires n > 0
    ensures PutLittle(v, n) == PutByte(v % 256) + PutLittle(v / 256, n - 1)
  {
  }

  /** Eight bytes, peeling the low byte off a JavaScript number. */
  method PrintValue(value0: nat) returns (text: Hex)
    ensures text == PutLittle(value0, 8)
  {
    hide PutLittle, PutByte, ToInt32;
    text := [];
    var value: nat := value0;
    for j := 0 to 8
      invariant PutLittle(value0, 8) == text + PutLittle(value, 8 - j)
    {
      LowByte(value);
      PutLittleStep(value, 8 - j);
      text := text + PutByte(ToInt32(value) % 256);
      value := value / 256;
    }
  }

  method PrintOutputs(outputs: seq<Output>, ghost t: Transaction, ghost inputs: seq<PsbtInput>, ghost nw: bool)
      returns (r: Result<Hex>)
    requires outputs == t.outputs && |inputs| == |t.inputs|
    ensures var outs := Extracted(t, inputs, nw).outs;
            r == if forall i :: 0 <= i < |outs| ==> IsWord(|outs[i].script| / 2)
                 then Success(PutAll(PutOut, outs)) else Failure
  {
    hide PutLittle, PutVarInt, PutAll;
    ghost var outs := Extracted(t, inputs, nw).outs;
    var text: Hex := [];
    PutAllNil(PutOut);
    for i := 0 to |outputs|
      invariant forall j :: 0 <= j < i ==> IsWord(|outs[j].script| / 2)
      invariant text == PutAll(PutOut, outs[..i])
    {
      var value := PrintValue(outputs[i].value);
      assert outs[i].script == outputs[i].scriptPubKey;
      var length :- EncodeVarInt(|outputs[i].scriptPubKey| / 2);
      text := text + (value + (length + outputs[i].scriptPubKey));
      PutAllSnoc(PutOut, outs[..i], outs[i]);
      assert outs[..i + 1] == outs[..i] + [outs[i]];
    }
    assert outs[..|outputs|] == outs;
    r := Success(text);
  }

  method PrintWitness(w: seq<Hex>) returns (r: Result<Hex>)
    ensures r == if WitnessFits(w) then Success(PutWitness(w)) else Failure
  {
    hide PutVarInt, PutAll;
    var count :- EncodeVarInt(|w|);
    var text: Hex := [];
    PutAllNil(PutScript);
    for i := 0 to |w|
      invariant forall j :: 0 <= j < i ==> IsWord(|w[j]| / 2)
      invariant text == PutAll(PutScript, w[..i])
    {
      assert IsWord(|w[i]| / 2) || !WitnessFits(w);
      var length :- EncodeVarInt(|w[i]| / 2);
      PutAllSnoc(PutScript, w[..i], w[i]);
      assert w[..i + 1] == w[..i] + [w[i]];
      text := text + (length + w[i]);
    }
    assert w[..|w|] == w;
    r := Success(count + text);
  }

  method PrintWitnesses(inputs: seq<PsbtInput>, ghost t: Transaction) returns (r: Result<Hex>)
    requires |inputs| == |t.inputs|
    ensures var ws := Extracted(t, inputs, true).witnesses;
            r == if forall i :: 0 <= i < |ws| ==> WitnessFits(ws[i])
                 then Success(PutAll(PutWitness, ws)) else Failure
  {
    hide PutWitness, WitnessFits, WitnessOf, PutAll;
    ghost var ws := Extracted(t, inputs, true).witnesses;
    var text: Hex := [];
    PutAllNil(PutWitness);
    for i := 0 to |inputs|
      invariant forall j :: 0 <= j < i ==> WitnessFits(ws[j])
      invariant text == PutAll(PutWitness, ws[..i])
    {
      assert ws[i] == WitnessOf(inputs[i]);
      var one :- PrintWitness(WitnessOf(inputs[i]));
      PutAllSnoc(PutWitness, ws[..i], ws[i]);
      assert ws[..i + 1] == ws[..i] + [ws[i]];
      text := text + one;
    }
    assert ws[..|inputs|] == ws;
    r := Success(text);
  }

  /** Neither a script signature, nor a witness, nor a partial signature. */
  ghost predicate NothingFinal(i: PsbtInput) {
    && (i.finalScriptSig == None || i.finalScriptSig == Some([]))
    && i.finalScriptWitness == None && i.partialSigs == []
  }

  method CheckFinalize(inputs: seq<PsbtInput>) returns (ok: bool)
    ensures ok <==> forall i :: 0 <= i < |inputs| ==> !NothingFinal(inputs[i])
  {
    for i := 0 to |inputs|
      invariant forall j :: 0 <= j < i ==> CanFinalizeInput(inputs[j])
    {
      if !CanFinalizeInput(inputs[i]) { return false; }
    }
    return true;
  }

  method CheckWitness(inputs: seq<PsbtInput>) returns (needs: bool)
    ensures needs <==> exists i :: 0 <= i < |inputs| && (HasWitness(inputs[i]) || inputs[i].segwitUtxo)
  {
    for i := 0 to |inputs|
      invariant forall j :: 0 <= j < i ==> !HasWitness(inputs[j]) && !inputs[j].segwitUtxo
    {
      if HasWitness(inputs[i]) || inputs[i].segwitUtxo { return true; }
    }
    return false;
  }

  /** The printing, once every input can be finalized; it fails on a length that needs more than 32 bits. */
  method PrintExtracted(p: Psbt) returns (r: Result<Hex>)
    requires PsbtOk(p)
    ensures var tx := Extracted(p.unsignedTx, p.inputs, NeedsWitness(p));
            r == if LengthsFit(tx) then Success(PutPrinted(tx)) else Failure
  {
    hide PutLittle, PutWord, PutVarInt, PutAll, WitnessFits, WitnessOf, ScriptSigOf, Reversed;
    var t := p.unsignedTx;
    var needsWitness := CheckWitness(p.inputs);
    ghost var tx := Extracted(t, p.inputs, needsWitness);
    PutWordIsLittle(t.version);
    PutWordIsLittle(t.locktime);
    var inputCount :- EncodeVarInt(|t.inputs|);
    var inputs :- PrintInputs(t, p.inputs, needsWitness);
    var outputCount :- EncodeVarInt(|t.outputs|);
    var outputs :- PrintOutputs(t.outputs, t, p.inputs, needsWitness);
    var text := PutWord(t.version);
    if needsWitness {
      var witnesses :- PrintWitnesses(p.inputs, t);
      text := text + (MARKER_FLAG + (inputCount + inputs
              + (outputCount + outputs + (witnesses + PutWord(t.locktime)))));
    } else {
      text := text + (inputCount + inputs + (outputCount + outputs + PutWord(t.locktime)));
    }
    r := Success(text);
  }

  /* ---------- extracting and decoding ---------- */

  /** What the extractor prints of an input comes from the final fields: a partial signature is used neither for the
      script signature nor for the witness. */
  predicate TakenFromFinal(i: PsbtInput, needsWitness: bool) {
    && (HasScriptSig(i) || needsWitness || i.partialSigs == [])
    && (HasWitness(i) || !needsWitness || i.partialSigs == [])
  }

  ghost predicate Finalized(p: Psbt) {
    forall i :: 0 <= i < |p.inputs| ==> TakenFromFinal(p.inputs[i], NeedsWitness(p))
  }

  function Final<T>(x: Option<seq<T>>): seq<T> {
    if x.Some? then x.value else []
  }

  /** The transaction a reader of the extracted hex should see: the unsigned one with each script
      signature and witness taken from the final fields. An output value is printed in eight bytes. */
  function Signed(p: Psbt, tx: Tx): Transaction
    requires |p.inputs| == |p.unsignedTx.inputs|
  {
    var t, needsWitness := p.unsignedTx, tx.segwit;
    Transaction(
      t.version, needsWitness,
      seq(|p.inputs|, i requires 0 <= i < |p.inputs| =>
        var (u, f) := (t.inputs[i], p.inputs[i]);
        Input(u.txid, u.vout, Final(f.finalScriptSig), u.sequence,
              if needsWitness then Some(Final(f.finalScriptWitness)) else None)),
      seq(|t.outputs|, i requires 0 <= i < |t.outputs| =>
        Output(if t.outputs[i].value < TWO64 then t.outputs[i].value else 0, t.outputs[i].scriptPubKey)),
      t.locktime, (3 * |PutLegacy(tx)| + |PutTx(tx)|) / 2)
  }

  function WrapOut(o: TxOut): TxOut {
    o.(value := o.value % TWO64)
  }

  function WrapOuts(outs: seq<TxOut>): seq<TxOut> {
    seq(|outs|, i requires 0 <= i < |outs| => WrapOut(outs[i]))
  }

  lemma PutLittleWraps(v: nat)
    ensures PutLittle(v % TWO64, 8) == PutLittle(v, 8)
  {
    hide PutLittle, Little, Pow256;
    Widths();
    LittleOfPut(v, 8);
    PutOfLittle(PutLittle(v, 8));
  }

  lemma {:induction false} PutOutsWrap(outs: seq<TxOut>)
    ensures PutAll(PutOut, WrapOuts(outs)) == PutAll(PutOut, outs)
  {
    hide PutLittle, PutScript;
    if outs != [] {
      PutLittleWraps(outs[0].value);
      PutOutsWrap(outs[1..]);
      assert WrapOuts(outs)[1..] == WrapOuts(outs[1..]);
    }
  }

  /** A script signature made of pushes is not empty, and odd only if a push is long. */
  lemma PushLengths(i: PsbtInput, needsWitness: bool)
    requires RecordOk(i)
    ensures !TakenFromFinal(i, false) ==> ScriptSigOf(i, false) != []
    ensures |ScriptSigOf(i, needsWitness)| % 2 == 1 ==>
              !needsWitness && !TakenFromFinal(i, false) && |ScriptSigOf(i, false)| >= 506
  {
    hide Digits;
    if !needsWitness && !HasScriptSig(i) && i.partialSigs != [] {
      var a, b := |i.partialSigs[0].signature| / 2, |i.partialSigs[0].pubkey| / 2;
      if a < 256 { PadByte(a); }
      if b < 256 { PadByte(b); }
    }
  }

  lemma ExtractedValid(p: Psbt, tx: Tx)
    requires PsbtOk(p) && p.inputs != []
    requires tx == Extracted(p.unsignedTx, p.inputs, NeedsWitness(p)) && LengthsFit(tx)
    requires forall i :: 0 <= i < |tx.ins| ==> Whole(tx.ins[i])
    ensures ValidTx(tx.(outs := WrapOuts(tx.outs)))
  {
    hide Reversed, Number, ScriptSigOf;
    var t := p.unsignedTx;
    forall i | 0 <= i < |tx.ins| ensures ValidIn(tx.ins[i]) {
      assert InputOk(t.inputs[i]) && Whole(tx.ins[i]);
      ReversedTwice(t.inputs[i].txid);
    }
    forall i | 0 <= i < |tx.witnesses| ensures ValidWitness(tx.witnesses[i]) {
      assert RecordOk(p.inputs[i]) && WitnessFits(tx.witnesses[i]);
    }
    forall i | 0 <= i < |tx.outs| ensures ValidOut(WrapOut(tx.outs[i])) {
      assert OutputOk(t.outputs[i]);
    }
  }

  lemma WrappedPrints(tx: Tx)
    ensures PutTx(tx.(outs := WrapOuts(tx.outs))) == PutTx(tx)
    ensures PutLegacy(tx.(outs := WrapOuts(tx.outs))) == PutLegacy(tx)
  {
    hide PutLittle, PutVarInt, PutAll;
    PutOutsWrap(tx.outs);
  }

  lemma FinalShown(i: PsbtInput, needsWitness: bool)
    ensures TakenFromFinal(i, needsWitness) <==>
            && ScriptSigOf(i, needsWitness) == Final(i.finalScriptSig)
            && (needsWitness ==> WitnessOf(i) == Final(i.finalScriptWitness))
  {
    hide Digits;
  }

  /** What is shown for the extracted transaction is the signed one if and only if the final fields are all it uses. */
  lemma SignedShown(p: Psbt, tx: Tx)
    requires PsbtOk(p)
    requires tx == Extracted(p.unsignedTx, p.inputs, NeedsWitness(p))
    ensures Shown(tx.(outs := WrapOuts(tx.outs))) == Signed(p, tx) <==> Finalized(p)
  {
    hide PutTx, PutLegacy, Reversed, Number, ScriptSigOf, WitnessOf, TakenFromFinal, Final;
    var t, nw := p.unsignedTx, tx.segwit;
    var wrapped := tx.(outs := WrapOuts(tx.outs));
    WrappedPrints(tx);
    var shown, signed := Shown(wrapped), Signed(p, tx);
    forall i | 0 <= i < |p.inputs| ensures shown.inputs[i] == signed.inputs[i] <==> TakenFromFinal(p.inputs[i], nw) {
      assert InputOk(t.inputs[i]);
      ReversedTwice(t.inputs[i].txid);
      FinalShown(p.inputs[i], nw);
    }
    forall i | 0 <= i < |t.outputs| ensures shown.outputs[i] == signed.outputs[i] {
      assert OutputOk(t.outputs[i]);
      NumberZeroIsZero();
    }
    assert shown.outputs == signed.outputs && |shown.inputs| == |signed.inputs|;
    assert Finalized(p) ==> shown.inputs == signed.inputs;
  }

  lemma NumberZeroIsZero()
    ensures Number(0) == 0
  {
  }

  /** A legacy transaction without inputs never decodes. */
  lemma LegacyHasInputs(hex: Hex)
    requires Decoded(hex).Success?
    ensures Decoded(hex).value.isSegwit || Decoded(hex).value.inputs != []
  {
    hide TakeHeader, TakeVarInt, TakeIn, TakeOuts, TakeWitnesses, TakeLittle, Many, ShowOuts, Weight;
    var ((version, segwit), h) := TakeHeader(hex).value;
    var (n, g) := TakeVarInt(h).value;
    ManyLength(TakeIn, n, g);
  }

  lemma InputsPrintWell(p: Psbt, tx: Tx)
    requires PsbtOk(p) && tx == Extracted(p.unsignedTx, p.inputs, NeedsWitness(p)) && LengthsFit(tx)
    ensures forall i :: 0 <= i < |tx.ins| ==> PrintsWell(tx.ins[i])
    ensures forall k :: 0 <= k < |tx.ins| && !Whole(tx.ins[k]) ==>
              !tx.segwit && !TakenFromFinal(p.inputs[k], false) && Final(p.inputs[k].finalScriptSig) == []
  {
    hide ScriptSigOf, Reversed, TakenFromFinal;
    forall i | 0 <= i < |tx.ins|
      ensures PrintsWell(tx.ins[i])
      ensures !Whole(tx.ins[i]) ==>
                !tx.segwit && !TakenFromFinal(p.inputs[i], false) && Final(p.inputs[i].finalScriptSig) == []
    {
      assert InputOk(p.unsignedTx.inputs[i]) && RecordOk(p.inputs[i]);
      PushLengths(p.inputs[i], tx.segwit);
      ReversedTwice(p.unsignedTx.inputs[i].txid);
      if !Whole(tx.ins[i]) { OddUsesPartial(p.inputs[i]); }
    }
  }

  /** An odd script signature is never read back as the empty one of the final fields. */
  lemma OddNotSigned(p: Psbt, tx: Tx)
    requires PsbtOk(p) && tx == Extracted(p.unsignedTx, p.inputs, NeedsWitness(p)) && LengthsFit(tx)
    requires exists i :: 0 <= i < |tx.ins| && !Whole(tx.ins[i])
    ensures !Finalized(p) && Decoded(PutPrinted(tx)) != Success(Signed(p, tx))
  {
    hide PutPrinted, Decoded, PutLegacy, PutTx, ScriptSigOf, Reversed, TakenFromFinal, PrintsWell, Whole, RecordOk,
         Final;
    InputsPrintWell(p, tx);
    var k :| 0 <= k < |tx.ins| && !Whole(tx.ins[k]);
    assert !TakenFromFinal(p.inputs[k], NeedsWitness(p));
    OddDecodes(tx);
  }

  lemma OddUsesPartial(i: PsbtInput)
    requires !TakenFromFinal(i, false)
    ensures Final(i.finalScriptSig) == []
  {
  }

  lemma OddDecodes(tx: Tx)
    requires !tx.segwit && IsWord(tx.version) && IsWord(|tx.ins|)
    requires forall i :: 0 <= i < |tx.ins| ==> PrintsWell(tx.ins[i])
    requires exists i :: 0 <= i < |tx.ins| && !Whole(tx.ins[i])
    ensures var r := Decoded(PutPrinted(tx));
            r.Success? ==>
              (|r.value.inputs| == |tx.ins|
              && exists k :: 0 <= k < |tx.ins| && !Whole(tx.ins[k]) && r.value.inputs[k].scriptSig != [])
  {
    hide TakeIn, TakeOuts, TakeVarInt, TakeLittle, Many, PutLittle, PutVarInt, PutAll, PutOuts, PrintsWell, Whole;
    var rest := PutOuts(tx.outs) + PutLittle(tx.locktime, 4);
    var body := PutAll(PutInHalf, tx.ins) + rest;
    var h := PutVarInt(|tx.ins|) + body;
    CountNoMarker(|tx.ins|, body);
    assert PutPrinted(tx) == PutLittle(tx.version, 4) + ([] + h);
    TakeHeaderPut(tx.version, false, h);
    TakeVarIntPut(|tx.ins|, body);
    OddReadsBack(tx.ins, rest);
  }

  lemma CountNoMarker(n: nat, rest: Hex)
    requires IsWord(n) && n > 0
    ensures !HasMarker(PutVarInt(n) + rest)
  {
  }

  /** What is read back in every case, pushes and witnesses made of partial signatures included: the extracted
      transaction, with values modulo 2^64. */
  lemma ExtractionShown(p: Psbt, tx: Tx)
    requires PsbtOk(p) && p.inputs != []
    requires tx == Extracted(p.unsignedTx, p.inputs, NeedsWitness(p)) && LengthsFit(tx)
    requires forall i :: 0 <= i < |tx.ins| ==> Whole(tx.ins[i])
    ensures Decoded(PutPrinted(tx)) == Success(Shown(tx.(outs := WrapOuts(tx.outs))))
  {
    hide Decoded, PutTx, PutPrinted, PutLegacy, Shown, ValidTx, PsbtOk, LengthsFit, Whole;
    ExtractedValid(p, tx);
    WholeTxPrints(tx);
    WrappedPrints(tx);
    PrintedDecodes(tx.(outs := WrapOuts(tx.outs)));
  }

  /* ---------- what is read back, field by field ---------- */

  /** Without a witness, every signature and key that is pushed has fewer than 256 bytes. */
  ghost predicate ShortPushes(p: Psbt) {
    NeedsWitness(p) || forall i :: 0 <= i < |p.inputs| && p.inputs[i].partialSigs != [] ==>
      |p.inputs[i].partialSigs[0].signature| < 512 && |p.inputs[i].partialSigs[0].pubkey| < 512
  }

  /** The length of a byte string in one byte, and the bytes. */
  function Push(h: Hex): Hex
    requires |h| < 512
  {
    [|h| / 2 / 16, |h| / 2 % 16] + h
  }

  /** An input of the extracted transaction against its record: the final fields come first, then the signature and
      the key of the first partial signature, in that order, pushed by the legacy form and stacked by the other. */
  ghost predicate InputReadsBack(u: Input, f: PsbtInput, segwit: bool, t: Input) {
    && t.txid == u.txid && t.vout == u.vout && t.sequence == u.sequence
    && (f.finalScriptSig.Some? && f.finalScriptSig.value != [] ==> t.scriptSig == f.finalScriptSig.value)
    && (f.finalScriptSig.None? || f.finalScriptSig.value == [] ==>
          if segwit || f.partialSigs == [] then t.scriptSig == []
          else
            var s := f.partialSigs[0];
            |s.signature| < 512 && |s.pubkey| < 512 && t.scriptSig == Push(s.signature) + Push(s.pubkey))
    && (!segwit ==> t.stack == None)
    && (segwit && f.finalScriptWitness.Some? && f.finalScriptWitness.value != [] ==>
          t.stack == f.finalScriptWitness)
    && (segwit && (f.finalScriptWitness.None? || f.finalScriptWitness.value == []) ==>
          t.stack == if f.partialSigs == [] then Some([])
                     else Some([f.partialSigs[0].signature, f.partialSigs[0].pubkey]))
  }

  ghost predicate AsksForWitness(f: PsbtInput) {
    f.segwitUtxo || (f.finalScriptWitness != None && f.finalScriptWitness != Some([]))
  }

  /** A transaction read back from what was extracted against the records. */
  ghost predicate ReadsBack(p: Psbt, t: Transaction) {
    && t.version == p.unsignedTx.version && t.locktime == p.unsignedTx.locktime
    && (t.isSegwit <==> exists i :: 0 <= i < |p.inputs| && AsksForWitness(p.inputs[i]))
    && |t.inputs| == |p.inputs| == |p.unsignedTx.inputs| && |t.outputs| == |p.unsignedTx.outputs|
    && (forall i :: 0 <= i < |t.inputs| ==>
          InputReadsBack(p.unsignedTx.inputs[i], p.inputs[i], t.isSegwit, t.inputs[i]))
    && (forall i :: 0 <= i < |t.outputs| ==>
          && t.outputs[i].scriptPubKey == p.unsignedTx.outputs[i].scriptPubKey
          && t.outputs[i].value == p.unsignedTx.outputs[i].value % TWO64)
  }

  lemma PushIs(h: Hex)
    requires |h| < 512
    ensures PadStart(Digits(|h| / 2), 2) + h == Push(h)
  {
    hide Digits, PadStart;
    PadByte(|h| / 2);
  }

  lemma ShortIsWhole(p: Psbt, tx: Tx, i: nat)
    requires PsbtOk(p) && tx == Extracted(p.unsignedTx, p.inputs, NeedsWitness(p)) && ShortPushes(p) && i < |p.inputs|
    ensures Whole(tx.ins[i])
    ensures var f := p.inputs[i];
            !HasScriptSig(f) && !NeedsWitness(p) && f.partialSigs != [] ==>
              tx.ins[i].scriptSig == Push(f.partialSigs[0].signature) + Push(f.partialSigs[0].pubkey)
  {
    hide Digits, PadStart, Reversed;
    var f := p.inputs[i];
    assert RecordOk(f);
    if !HasScriptSig(f) && !NeedsWitness(p) && f.partialSigs != [] {
      var s := f.partialSigs[0];
      PushIs(s.signature);
      PushIs(s.pubkey);
      assert tx.ins[i].scriptSig == (PadStart(Digits(|s.signature| / 2), 2) + s.signature)
                                    + (PadStart(Digits(|s.pubkey| / 2), 2) + s.pubkey);
    }
  }

  /** What the decoder reads from an extracted transaction, for every choice of final fields and partial signatures. */
  lemma ExtractionReadsBack(p: Psbt, tx: Tx)
    requires PsbtOk(p) && p.inputs != [] && ShortPushes(p)
    requires tx == Extracted(p.unsignedTx, p.inputs, NeedsWitness(p)) && LengthsFit(tx)
    ensures Decoded(PutPrinted(tx)).Success? && ReadsBack(p, Decoded(PutPrinted(tx)).value)
  {
    hide Decoded, PutTx, PutPrinted, PutLegacy, Whole, Reversed, Number, ScriptSigOf, LengthsFit, RecordOk, Push,
         ShortPushes, InputReadsBack;
    var t := Shown(tx.(outs := WrapOuts(tx.outs)));
    forall i | 0 <= i < |tx.ins| ensures Whole(tx.ins[i]) { ShortIsWhole(p, tx, i); }
    ExtractionShown(p, tx);
    forall i | 0 <= i < |t.inputs|
      ensures InputReadsBack(p.unsignedTx.inputs[i], p.inputs[i], t.isSegwit, t.inputs[i])
    {
      OneReadsBack(p, tx, i);
    }
    forall i | 0 <= i < |t.outputs| ensures t.outputs[i].value == p.unsignedTx.outputs[i].value % TWO64 {
      assert OutputOk(p.unsignedTx.outputs[i]);
      NumberZeroIsZero();
    }
  }

  lemma OneReadsBack(p: Psbt, tx: Tx, i: nat)
    requires PsbtOk(p) && ShortPushes(p) && i < |p.inputs|
    requires tx == Extracted(p.unsignedTx, p.inputs, NeedsWitness(p))
    ensures InputReadsBack(p.unsignedTx.inputs[i], p.inputs[i], tx.segwit,
                           ShowIn(tx.ins[i], if tx.segwit then Some(tx.witnesses[i]) else None))
  {
    hide Reversed, RecordOk, Digits, PadStart, Push;
    assert InputOk(p.unsignedTx.inputs[i]);
    ReversedTwice(p.unsignedTx.inputs[i].txid);
    ShortIsWhole(p, tx, i);
  }

  /** The extractor refuses exactly when an input has neither a script signature, nor a witness, nor a partial
      signature, or a length needs more than 32 bits. What it prints otherwise reads back as the records say. */
  method ExtractTransaction(p: Psbt) returns (r: Result<Hex>)
    requires PsbtOk(p)
    ensures var tx := Extracted(p.unsignedTx, p.inputs, NeedsWitness(p));
            && (r.Failure? <==> !LengthsFit(tx) || exists i :: 0 <= i < |p.inputs| && NothingFinal(p.inputs[i]))
            && (r.Success? ==> r.value == PutPrinted(tx))
    ensures r.Success? && p.inputs != [] && ShortPushes(p) ==>
              Decoded(r.value).Success? && ReadsBack(p, Decoded(r.value).value)
  {
    hide PutPrinted, LengthsFit, ShortPushes, ReadsBack, Decoded, ScriptSigOf, WitnessOf, Reversed;
    var canFinalize := CheckFinalize(p.inputs);
    if !canFinalize { return Failure; }
    r := PrintExtracted(p);
    if r.Success? && p.inputs != [] && ShortPushes(p) {
      ExtractionReadsBack(p, Extracted(p.unsignedTx, p.inputs, NeedsWitness(p)));
    }
  }

  /** Decoding what the extractor prints gives the unsigned transaction with its final scripts and witnesses if and
      only if there is an input and no partial signature was used; and the outputs come back unchanged if and only if
      every value is below 2^64. */
  lemma ExtractionDecodes(hex: Hex, p: Psbt, tx: Tx)
    requires Decoded(hex) == Success(p.unsignedTx) && RecordsOk(p)
    requires tx == Extracted(p.unsignedTx, p.inputs, NeedsWitness(p)) && LengthsFit(tx)
    ensures Decoded(PutPrinted(tx)) == Success(Signed(p, tx)) <==> p.inputs != [] && Finalized(p)
    ensures Signed(p, tx).outputs == p.unsignedTx.outputs
            <==> forall i :: 0 <= i < |p.unsignedTx.outputs| ==> p.unsignedTx.outputs[i].value < TWO64
  {
    hide Decoded, PutTx, PutPrinted, PutLegacy, Shown, Finalized, RecordOk, Whole;
    var t := p.unsignedTx;
    DecodedRanges(hex);
    if exists i :: 0 <= i < |tx.ins| && !Whole(tx.ins[i]) {
      OddNotSigned(p, tx);
    } else {
      WholeTxPrints(tx);
      if p.inputs == [] {
        if Decoded(PutTx(tx)).Success? { LegacyHasInputs(PutTx(tx)); }
      } else {
        ExtractionShown(p, tx);
        SignedShown(p, tx);
      }
    }
    forall i | 0 <= i < |t.outputs|
      ensures Signed(p, tx).outputs[i] == t.outputs[i] <==> t.outputs[i].value < TWO64
    {
    }
  }
}
