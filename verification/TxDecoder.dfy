/** The page's transaction decoder: a reader over a hex string whose position every read advances,
    and the loops that decode a transaction with it. */
module TxDecoder {
  import opened Wrappers
  import opened HexBytes
  import opened TxFormat

  /* ---------- what the decoder reports ---------- */

  datatype Input = Input(txid: Hex, vout: nat, scriptSig: Hex, sequence: nat, stack: Option<seq<Hex>>)

  datatype Output = Output(value: nat, scriptPubKey: Hex)

  datatype Transaction = Transaction(
    version: nat, isSegwit: bool, inputs: seq<Input>, outputs: seq<Output>, locktime: nat, weight: int)

  /** The bytes in opposite order; an odd last digit is dropped. */
  function Reversed(h: Hex): Hex {
    if |h| < 2 then [] else Reversed(h[2..]) + h[..2]
  }

  lemma ReversedFirst(h: Hex)
    requires |h| >= 2
    ensures Reversed(h) == Reversed(h[2..]) + h[..2]
  {
  }

  lemma {:induction false} ReversedLength(h: Hex)
    requires |h| % 2 == 0
    ensures |Reversed(h)| == |h|
  {
    if h != [] { ReversedLength(h[2..]); }
  }

  /** Byte `i` of the one is byte `i` of the other counted from the end. */
  lemma {:induction false} ReversedAt(h: Hex, i: nat)
    requires |h| % 2 == 0 && i < |h| / 2
    ensures |Reversed(h)| == |h| && Reversed(h)[2 * i..2 * i + 2] == h[|h| - 2 * i - 2..|h| - 2 * i]
  {
    hide Reversed;
    ReversedLength(h);
    ReversedLength(h[2..]);
    ReversedFirst(h);
    var tail := Reversed(h[2..]);
    if 2 * i + 2 <= |tail| {
      ReversedAt(h[2..], i);
      assert (tail + h[..2])[2 * i..2 * i + 2] == tail[2 * i..2 * i + 2];
      TailSlice(h, |h| - 2 * i - 4);
    } else {
      assert (tail + h[..2])[2 * i..2 * i + 2] == h[..2];
    }
  }

  lemma TailSlice(h: Hex, k: nat)
    requires k + 4 <= |h|
    ensures h[2..][k..k + 2] == h[k + 2..k + 4]
  {
  }

  function ShowIn(i: TxIn, stack: Option<seq<Hex>>): Input {
    Input(Reversed(i.prev), i.vout, i.scriptSig, i.sequence, stack)
  }

  /** The value of an output becomes a JavaScript number. */
  function ShowOut(o: TxOut): Output {
    Output(Number(o.value), o.script)
  }

  function ShowIns(ins: seq<TxIn>, segwit: bool, witnesses: seq<seq<Hex>>): seq<Input>
    requires segwit ==> |witnesses| == |ins|
  {
    seq(|ins|, i requires 0 <= i < |ins| => ShowIn(ins[i], if segwit then Some(witnesses[i]) else None))
  }

  function ShowOuts(outs: seq<TxOut>): seq<Output> {
    seq(|outs|, i requires 0 <= i < |outs| => ShowOut(outs[i]))
  }

  /** The weight for a hex string of `digits` digits of which `witnessDigits` spell the witnesses:
      with size = digits / 2 and total = 2 + witnessDigits / 2, it is 4 * (size - total) + total. */
  function Weight(digits: nat, segwit: bool, witnessDigits: int): int {
    if segwit then 2 * digits - 3 * (2 + witnessDigits / 2) else 2 * digits
  }

  lemma {:induction false} ManyLength<T>(take: Hex -> Parsed<T>, n: nat, h: Hex)
    ensures Many(take, n, h).Success? ==> |Many(take, n, h).value.0| == n
  {
    if n > 0 && take(h).Success? { ManyLength(take, n - 1, take(h).value.1); }
  }

  function Decoded(hex: Hex): Result<Transaction> {
    var (front, back) :- TakeFront(hex);
    var (witnesses, tail) :- TakeWitnesses(back, front.segwit, |front.ins|);
    var (locktime, rest) :- TakeLittle(tail, 4);
    ManyLength(TakeWitness, |front.ins|, back);
    Success(Transaction(
              front.version, front.segwit, ShowIns(front.ins, front.segwit, witnesses), ShowOuts(front.outs),
              locktime, Weight(|hex|, front.segwit, |back| - |tail|)))
  }

  /* ---------- the reader ---------- */

  /** The outcome of a read agrees with a parser of the digits that were left. */
  ghost predicate Agrees<T>(spec: Parsed<T>, r: Result<T>, rest: Hex) {
    match spec
    case Failure => r.Failure?
    case Success((x, after)) => r == Success(x) && rest == after
  }

  class ByteReader {
    const hex: Hex
    var pos: nat

    constructor (hex: Hex)
      ensures this.hex == hex && pos == 0 && Valid() && Rest() == hex
    {
      this.hex := hex;
      pos := 0;
    }

    ghost predicate Valid()
      reads this
    {
      pos <= |hex|
    }

    function Rest(): Hex
      requires Valid()
      reads this
    {
      hex[pos..]
    }

    method ReadBytes(n: nat) returns (r: Result<Hex>)
      requires Valid()
      modifies this
      ensures Valid() && Agrees(TakeBytes(old(Rest()), n), r, Rest())
    {
      if pos + n * 2 > |hex| {
        return Failure;
      }
      assert Rest()[..2 * n] == hex[pos..pos + n * 2] && Rest()[2 * n..] == hex[pos + n * 2..];
      r := Success(hex[pos..pos + n * 2]);
      pos := pos + n * 2;
    }

    /** `readUInt8`, `readUInt16LE`, `readUInt32LE` and `readUInt64LE` differ only in the width. */
    method ReadLittle(n: nat) returns (r: Result<nat>)
      requires Valid()
      modifies this
      ensures Valid() && Agrees(TakeLittle(old(Rest()), n), r, Rest())
    {
      var bytes :- ReadBytes(n);
      var value: nat, i := 0, n;
      while i > 0
        invariant 0 <= i <= n
        invariant value == Little(bytes[2 * i..])
      {
        i := i - 1;
        assert bytes[2 * i..][2..] == bytes[2 * (i + 1)..];
        value := value * 256 + Byte(bytes[2 * i..2 * i + 2]);
      }
      assert bytes[0..] == bytes;
      return Success(value);
    }

    method ReadVarInt() returns (r: Result<nat>)
      requires Valid()
      modifies this
      ensures Valid() && Agrees(TakeVarInt(old(Rest())), r, Rest())
    {
      hide TakeLittle, Number;
      var first :- ReadLittle(1);
      if first < 0xfd { return Success(first); }
      if first == 0xfd { r := ReadLittle(2); return; }
      if first == 0xfe { r := ReadLittle(4); return; }
      var n :- ReadLittle(8);
      return Success(Number(n));
    }

    /** A length and that many bytes. */
    method ReadScript() returns (r: Result<Hex>)
      requires Valid()
      modifies this
      ensures Valid() && Agrees(TakeScript(old(Rest())), r, Rest())
    {
      hide TakeVarInt, TakeBytes;
      var n :- ReadVarInt();
      r := ReadBytes(n);
    }
  }

  /* ---------- the decoder ---------- */

  /** One input; the transaction id is reversed for display. */
  method ReadInput(reader: ByteReader) returns (r: Result<Input>, ghost raw: TxIn)
    requires reader.Valid()
    modifies reader
    ensures reader.Valid()
    ensures Agrees(TakeIn(old(reader.Rest())), if r.Success? then Success(raw) else Failure, reader.Rest())
    ensures r.Success? ==> r.value == ShowIn(raw, None)
  {
    hide TakeBytes, TakeLittle, TakeScript, Reversed;
    raw := TxIn([], 0, [], 0);
    var txid :- reader.ReadBytes(32);
    var vout :- reader.ReadLittle(4);
    var scriptSig :- reader.ReadScript();
    var sequence :- reader.ReadLittle(4);
    raw := TxIn(txid, vout, scriptSig, sequence);
    r := Success(Input(Reversed(txid), vout, scriptSig, sequence, None));
  }

  method ReadInputs(reader: ByteReader, segwit: bool) returns (r: Result<seq<Input>>, ghost raw: seq<TxIn>)
    requires reader.Valid()
    modifies reader
    ensures reader.Valid()
    ensures Agrees(TakeIns(old(reader.Rest()), segwit), if r.Success? then Success(raw) else Failure, reader.Rest())
    ensures r.Success? ==> r.value == ShowIns(raw, false, [])
  {
    hide TakeVarInt, TakeIn, Many, Reversed;
    raw := [];
    var count :- reader.ReadVarInt();
    if count == 0 && !segwit { return Failure, []; }
    var inputs := [];
    ghost var start := reader.Rest();
    ManyStart(TakeIn, count, start);
    for i := 0 to count
      invariant reader.Valid() && |raw| == |inputs| == i
      invariant forall j :: 0 <= j < i ==> inputs[j] == ShowIn(raw[j], None)
      invariant Many(TakeIn, count, start) == Resume(raw, Many(TakeIn, count - i, reader.Rest()))
    {
      ManyStep(TakeIn, count - i, raw, reader.Rest());
      var input, rawInput := ReadInput(reader);
      if input.Failure? { return Failure, []; }
      inputs, raw := inputs + [input.value], raw + [rawInput];
    }
    ManyNone(TakeIn, raw, reader.Rest());
    r := Success(inputs);
  }

  lemma ManyNone<T>(take: Hex -> Parsed<T>, done: seq<T>, h: Hex)
    ensures Resume(done, Many(take, 0, h)) == Success((done, h))
  {
    assert done + [] == done;
  }

  method ReadOutput(reader: ByteReader) returns (r: Result<Output>, ghost raw: TxOut)
    requires reader.Valid()
    modifies reader
    ensures reader.Valid()
    ensures Agrees(TakeOut(old(reader.Rest())), if r.Success? then Success(raw) else Failure, reader.Rest())
    ensures r.Success? ==> r.value == ShowOut(raw)
  {
    hide TakeLittle, TakeScript, Number;
    raw := TxOut(0, []);
    var value :- reader.ReadLittle(8);
    var script :- reader.ReadScript();
    raw := TxOut(value, script);
    r := Success(Output(Number(value), script));
  }

  method ReadOutputs(reader: ByteReader) returns (r: Result<seq<Output>>, ghost raw: seq<TxOut>)
    requires reader.Valid()
    modifies reader
    ensures reader.Valid()
    ensures Agrees(TakeOuts(old(reader.Rest())), if r.Success? then Success(raw) else Failure, reader.Rest())
    ensures r.Success? ==> r.value == ShowOuts(raw)
  {
    hide TakeVarInt, TakeOut, Many, ShowOut;
    raw := [];
    var count :- reader.ReadVarInt();
    var outputs := [];
    ghost var start := reader.Rest();
    ManyStart(TakeOut, count, start);
    for i := 0 to count
      invariant reader.Valid() && |raw| == |outputs| == i
      invariant forall j :: 0 <= j < i ==> outputs[j] == ShowOut(raw[j])
      invariant Many(TakeOut, count, start) == Resume(raw, Many(TakeOut, count - i, reader.Rest()))
    {
      ManyStep(TakeOut, count - i, raw, reader.Rest());
      var output, rawOutput := ReadOutput(reader);
      if output.Failure? { return Failure, []; }
      outputs, raw := outputs + [output.value], raw + [rawOutput];
    }
    ManyNone(TakeOut, raw, reader.Rest());
    r := Success(outputs);
  }

  method ReadWitness(reader: ByteReader) returns (r: Result<seq<Hex>>)
    requires reader.Valid()
    modifies reader
    ensures reader.Valid() && Agrees(TakeWitness(old(reader.Rest())), r, reader.Rest())
  {
    hide TakeVarInt, TakeScript, Many;
    var count :- reader.ReadVarInt();
    var items := [];
    ghost var start := reader.Rest();
    ManyStart(TakeScript, count, start);
    for i := 0 to count
      invariant reader.Valid() && |items| == i
      invariant Many(TakeScript, count, start) == Resume(items, Many(TakeScript, count - i, reader.Rest()))
    {
      ManyStep(TakeScript, count - i, items, reader.Rest());
      var item :- reader.ReadScript();
      items := items + [item];
    }
    ManyNone(TakeScript, items, reader.Rest());
    r := Success(items);
  }

  /** The witnesses are stored into the inputs read before. */
  method ReadWitnesses(reader: ByteReader, inputs0: seq<Input>, ghost raw: seq<TxIn>)
      returns (r: Result<seq<Input>>, ghost witnesses: seq<seq<Hex>>)
    requires reader.Valid() && inputs0 == ShowIns(raw, false, [])
    modifies reader
    ensures reader.Valid()
    ensures Agrees(TakeWitnesses(old(reader.Rest()), true, |raw|),
                   if r.Success? then Success(witnesses) else Failure, reader.Rest())
    ensures r.Success? ==> |witnesses| == |raw| && r.value == ShowIns(raw, true, witnesses)
  {
    hide TakeWitness, Many, Reversed;
    var inputs, count := inputs0, |inputs0|;
    witnesses := [];
    ghost var start := reader.Rest();
    ManyStart(TakeWitness, count, start);
    for i := 0 to count
      invariant reader.Valid() && |witnesses| == i && |inputs| == count
      invariant forall j :: 0 <= j < count ==>
                  inputs[j] == ShowIn(raw[j], if j < i then Some(witnesses[j]) else None)
      invariant Many(TakeWitness, count, start) == Resume(witnesses, Many(TakeWitness, count - i, reader.Rest()))
    {
      ManyStep(TakeWitness, count - i, witnesses, reader.Rest());
      var items := ReadWitness(reader);
      if items.Failure? { return Failure, []; }
      inputs := inputs[i := inputs[i].(stack := Some(items.value))];
      witnesses := witnesses + [items.value];
    }
    ManyNone(TakeWitness, witnesses, reader.Rest());
    r := Success(inputs);
  }

  /** Version, marker and flag. */
  method ReadHeader(reader: ByteReader) returns (r: Result<(nat, bool)>)
    requires reader.Valid()
    modifies reader
    ensures reader.Valid() && Agrees(TakeHeader(old(reader.Rest())), r, reader.Rest())
  {
    hide TakeLittle;
    var version :- reader.ReadLittle(4);
    if HasMarker(reader.Rest()) {
      var marker :- reader.ReadLittle(1);
      var flag :- reader.ReadLittle(1);
      if flag != 1 { return Failure; }
      return Success((version, true));
    }
    return Success((version, false));
  }

  /** Header, inputs and outputs. */
  method ReadFront(reader: ByteReader)
      returns (r: Result<(nat, bool, seq<Input>, seq<Output>)>, ghost raw: Front)
    requires reader.Valid()
    modifies reader
    ensures reader.Valid()
    ensures Agrees(TakeFront(old(reader.Rest())), if r.Success? then Success(raw) else Failure, reader.Rest())
    ensures r.Success? ==>
              r.value == (raw.version, raw.segwit, ShowIns(raw.ins, false, []), ShowOuts(raw.outs))
  {
    hide TakeHeader, TakeIns, TakeOuts, ShowIns, ShowOuts;
    raw := Front(0, false, [], []);
    var header := ReadHeader(reader);
    if header.Failure? { return Failure, raw; }
    var (version, isSegwit) := header.value;
    var inputs, rawIns := ReadInputs(reader, isSegwit);
    if inputs.Failure? { return Failure, raw; }
    var outputs, rawOuts := ReadOutputs(reader);
    if outputs.Failure? { return Failure, raw; }
    raw := Front(version, isSegwit, rawIns, rawOuts);
    r := Success((version, isSegwit, inputs.value, outputs.value));
  }

  /** In the legacy form witnesses do not matter. */
  lemma WithoutStacks(ins: seq<TxIn>, witnesses: seq<seq<Hex>>)
    ensures ShowIns(ins, false, witnesses) == ShowIns(ins, false, [])
  {
  }

  /** The decoder reports what the wire format says, for every hex string, including the ones that
      do not parse. */
  method DecodeTransaction(hex: Hex) returns (r: Result<Transaction>)
    ensures r == Decoded(hex)
  {
    hide TakeFront, TakeLittle, Many, ShowIns, ShowOuts, Weight;
    var reader := new ByteReader(hex);
    var front, raw := ReadFront(reader);
    if front.Failure? { return Failure; }
    var (version, isSegwit, shownIns, outputs) := front.value;
    var inputs := shownIns;
    var witnessStart := reader.pos;
    ghost var witnesses: seq<seq<Hex>> := [];
    if isSegwit {
      var withStacks;
      withStacks, witnesses := ReadWitnesses(reader, inputs, raw.ins);
      if withStacks.Failure? { return Failure; }
      inputs := withStacks.value;
    }
    WithoutStacks(raw.ins, witnesses);
    var witnessDigits := reader.pos - witnessStart;
    var locktime :- reader.ReadLittle(4);
    var weight := Weight(|hex|, isSegwit, witnessDigits);
    r := Success(Transaction(version, isSegwit, inputs, outputs, locktime, weight));
  }
}
