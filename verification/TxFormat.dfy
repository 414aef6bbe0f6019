/** The wire format of Bitcoin transactions (BIP 144) as the page's decoder reads it: parsers over
    the rest of a hex string, printers, and the proof that parsing undoes printing. */
module TxFormat {
  import opened Wrappers
  import opened HexBytes

  /** A parsed value together with the unread rest of the input. */
  type Parsed<T> = Result<(T, Hex)>

  /* ---------- primitives ---------- */

  function TakeBytes(h: Hex, n: nat): Parsed<Hex> {
    if 2 * n > |h| then Failure else Success((h[..2 * n], h[2 * n..]))
  }

  function TakeLittle(h: Hex, n: nat): Parsed<nat> {
    var (bytes, rest) :- TakeBytes(h, n);
    Success((Little(bytes), rest))
  }

  /** A variable-length integer; the eight-byte form passes through a JavaScript number. */
  function TakeVarInt(h: Hex): Parsed<nat> {
    var (first, rest) :- TakeLittle(h, 1);
    if first < 0xfd then Success((first, rest))
    else if first == 0xfd then TakeLittle(rest, 2)
    else if first == 0xfe then TakeLittle(rest, 4)
    else
      var (n, rest) :- TakeLittle(rest, 8);
      Success((Number(n), rest))
  }

  /** A byte string preceded by its length. */
  function TakeScript(h: Hex): Parsed<Hex> {
    var (n, rest) :- TakeVarInt(h);
    TakeBytes(rest, n)
  }

  /** Exactly `n` values, one after the other. */
  function Many<T>(take: Hex -> Parsed<T>, n: nat, h: Hex): Parsed<seq<T>>
    decreases n
  {
    if n == 0 then Success(([], h))
    else
      var (x, rest) :- take(h);
      var (xs, rest) :- Many(take, n - 1, rest);
      Success(([x] + xs, rest))
  }

  /** The printed form of a variable-length integer of at most 32 bits. */
  function PutVarInt(n: nat): Hex {
    if n < 0xfd then PutByte(n)
    else if n <= 0xffff then PutByte(0xfd) + PutByte(ShiftMask(n, 0)) + PutByte(ShiftMask(n, 1))
    else PutByte(0xfe) + PutWord(n)
  }

  /** The source's encoder refuses numbers that need more than 32 bits. */
  function EncodeVarInt(n: nat): Result<Hex> {
    if n <= 0xffff_ffff then Success(PutVarInt(n)) else Failure
  }

  function PutScript(s: Hex): Hex {
    PutVarInt(|s| / 2) + s
  }

  function PutAll<T>(put: T -> Hex, xs: seq<T>): Hex {
    if xs == [] then [] else put(xs[0]) + PutAll(put, xs[1..])
  }

  /** A whole number of bytes whose count fits a 32-bit variable-length integer. */
  predicate IsScript(s: Hex) {
    |s| % 2 == 0 && |s| / 2 <= 0xffff_ffff
  }

  lemma TakeBytesPut(s: Hex, rest: Hex)
    requires |s| % 2 == 0
    ensures TakeBytes(s + rest, |s| / 2) == Success((s, rest))
  {
  }

  lemma TakeLittlePut(v: nat, n: nat, rest: Hex)
    ensures TakeLittle(PutLittle(v, n) + rest, n) == Success((v % Pow256(n), rest))
  {
    hide Little, PutLittle, Pow256;
    TakeBytesPut(PutLittle(v, n), rest);
    LittleOfPut(v, n);
  }

  lemma Widths()
    ensures Pow256(1) == 0x100 && Pow256(2) == 0x1_0000 && Pow256(4) == 0x1_0000_0000 && Pow256(8) == TWO64
  {
  }

  lemma TakeBytePut(b: nat, rest: Hex)
    requires b < 256
    ensures TakeLittle(PutByte(b) + rest, 1) == Success((b, rest))
  {
    assert PutLittle(b, 1) == PutByte(b) + PutLittle(b / 256, 0) == PutByte(b);
    TakeLittlePut(b, 1, rest);
    Widths();
  }

  /** The masked shifts spell the little-endian forms of the protocol. */
  lemma PutVarIntForm(n: nat)
    requires 0xfd <= n <= 0xffff_ffff
    ensures PutVarInt(n) == if n <= 0xffff then PutByte(0xfd) + PutLittle(n, 2) else PutByte(0xfe) + PutLittle(n, 4)
  {
    PutWordIsLittle(n);
    if n <= 0xffff {
      hide ShiftMask, PutWord;
      assert PutLittle(n / 256, 1) == PutByte(n / 256 % 256) + PutLittle(n / 256 / 256, 0) == PutByte(n / 256 % 256);
      assert PutLittle(n, 2) == PutByte(n % 256) + PutLittle(n / 256, 1);
    }
  }

  lemma TakeVarIntPut(n: nat, rest: Hex)
    requires n <= 0xffff_ffff
    ensures TakeVarInt(PutVarInt(n) + rest) == Success((n, rest))
  {
    hide TakeLittle, Number, PutByte, PutLittle, ShiftMask, Pow256;
    Widths();
    if n < 0xfd {
      TakeBytePut(n, rest);
    } else {
      PutVarIntForm(n);
      var w := if n <= 0xffff then 2 else 4;
      var tag := if n <= 0xffff then 0xfd else 0xfe;
      assert PutVarInt(n) + rest == PutByte(tag) + (PutLittle(n, w) + rest);
      TakeBytePut(tag, PutLittle(n, w) + rest);
      TakeLittlePut(n, w, rest);
    }
  }

  /** The value of byte `i` of a hex string. */
  function ByteAt(h: Hex, i: nat): int
    requires 2 * i + 1 < |h|
  {
    var high: int, low: int := h[2 * i], h[2 * i + 1];
    16 * high + low
  }

  /** The four forms of a variable-length integer on the wire: one byte below fd; or fd, fe or ff followed by two, four
      or eight bytes, least significant first. */
  lemma VarIntForms(h: Hex)
    requires |h| >= 18
    ensures ByteAt(h, 0) < 253 ==> TakeVarInt(h) == Success((ByteAt(h, 0), h[2..]))
    ensures ByteAt(h, 0) == 253 ==> TakeVarInt(h) == Success((ByteAt(h, 1) + 256 * ByteAt(h, 2), h[6..]))
    ensures ByteAt(h, 0) == 254 ==>
              TakeVarInt(h) == Success((ByteAt(h, 1) + 256 * ByteAt(h, 2) + 0x1_0000 * ByteAt(h, 3)
                                        + 0x100_0000 * ByteAt(h, 4), h[10..]))
    ensures ByteAt(h, 0) == 255 ==> TakeVarInt(h) == Success((Number(Little(h[2..18])), h[18..]))
  {
    hide Number, Little;
    assert h[2..][..4] == h[2..6] && h[2..][..8] == h[2..10] && h[2..][..16] == h[2..18];
    assert h[2..][4..] == h[6..] && h[2..][8..] == h[10..] && h[2..][16..] == h[18..];
    LittleOne(h[..2]);
    assert h[..2][2..] == [] && ByteAt(h[..2], 0) == ByteAt(h, 0);
    TwoLittle(h[2..6]);
    assert ByteAt(h[2..6], 0) == ByteAt(h, 1) && ByteAt(h[2..6], 1) == ByteAt(h, 2);
    FourLittle(h[2..10]);
    assert ByteAt(h[2..10], 0) == ByteAt(h, 1) && ByteAt(h[2..10], 1) == ByteAt(h, 2);
    assert ByteAt(h[2..10], 2) == ByteAt(h, 3) && ByteAt(h[2..10], 3) == ByteAt(h, 4);
  }

  lemma LittleOne(h: Hex)
    requires |h| >= 2
    ensures Little(h) == ByteAt(h, 0) + 256 * Little(h[2..]) && Little([]) == 0
  {
  }

  lemma TwoLittle(h: Hex)
    requires |h| == 4
    ensures Little(h) == ByteAt(h, 0) + 256 * ByteAt(h, 1)
  {
    hide Little;
    LittleOne(h);
    LittleOne(h[2..]);
    assert h[2..][2..] == [];
  }

  lemma FourLittle(h: Hex)
    requires |h| == 8
    ensures Little(h)
            == ByteAt(h, 0) + 256 * ByteAt(h, 1) + 0x1_0000 * ByteAt(h, 2) + 0x100_0000 * ByteAt(h, 3)
  {
    hide Little;
    LittleOne(h);
    LittleOne(h[2..]);
    TwoLittle(h[4..]);
    assert h[2..][2..] == h[4..];
  }

  lemma TakeScriptPut(s: Hex, rest: Hex)
    requires IsScript(s)
    ensures TakeScript(PutScript(s) + rest) == Success((s, rest))
  {
    hide TakeVarInt, PutVarInt, TakeBytes;
    assert PutScript(s) + rest == PutVarInt(|s| / 2) + (s + rest);
    TakeVarIntPut(|s| / 2, s + rest);
    TakeBytesPut(s, rest);
  }

  /** If one value parses back from its printed form, so does a list of them. */
  lemma {:induction false} ManyPut<T>(take: Hex -> Parsed<T>, put: T -> Hex, xs: seq<T>, rest: Hex)
    requires forall i, r: Hex :: 0 <= i < |xs| ==> take(put(xs[i]) + r) == Success((xs[i], r))
    ensures Many(take, |xs|, PutAll(put, xs) + rest) == Success((xs, rest))
  {
    if xs == [] {
      assert PutAll(put, xs) + rest == rest;
    } else {
      assert xs[0] == xs[0];
      var r := PutAll(put, xs[1..]) + rest;
      assert PutAll(put, xs) + rest == put(xs[0]) + r;
      forall i, q: Hex | 0 <= i < |xs[1..]| ensures take(put(xs[1..][i]) + q) == Success((xs[1..][i], q)) {
        assert xs[1..][i] == xs[i + 1];
      }
      ManyPut(take, put, xs[1..], rest);
      assert xs == [xs[0]] + xs[1..];
    }
  }

  /* ---------- transactions ---------- */

  /** An input as it stands on the wire: the previous transaction id in raw byte order. */
  datatype TxIn = TxIn(prev: Hex, vout: nat, scriptSig: Hex, sequence: nat)

  datatype TxOut = TxOut(value: nat, script: Hex)

  datatype Tx = Tx(
    version: nat, segwit: bool, ins: seq<TxIn>, outs: seq<TxOut>, witnesses: seq<seq<Hex>>, locktime: nat)

  function TakeIn(h: Hex): Parsed<TxIn> {
    var (prev, h) :- TakeBytes(h, 32);
    var (vout, h) :- TakeLittle(h, 4);
    var (script, h) :- TakeScript(h);
    var (sequence, h) :- TakeLittle(h, 4);
    Success((TxIn(prev, vout, script, sequence), h))
  }

  function TakeOut(h: Hex): Parsed<TxOut> {
    var (value, h) :- TakeLittle(h, 8);
    var (script, h) :- TakeScript(h);
    Success((TxOut(value, script), h))
  }

  function TakeWitness(h: Hex): Parsed<seq<Hex>> {
    var (n, h) :- TakeVarInt(h);
    Many(TakeScript, n, h)
  }

  /** The marker byte of the SegWit form, looked at without reading it. */
  predicate HasMarker(h: Hex) {
    |h| >= 2 && h[0] == 0 && h[1] == 0
  }

  /** The version and, in the SegWit form, the marker and the flag, which must be one. */
  function TakeHeader(h: Hex): Parsed<(nat, bool)> {
    var (version, h) :- TakeLittle(h, 4);
    if HasMarker(h) then
      var (marker, h) :- TakeLittle(h, 1);
      var (flag, h) :- TakeLittle(h, 1);
      if flag == 1 then Success(((version, true), h)) else Failure
    else Success(((version, false), h))
  }

  /** The inputs; the legacy form must have some. */
  function TakeIns(h: Hex, segwit: bool): Parsed<seq<TxIn>> {
    var (n, h) :- TakeVarInt(h);
    if n == 0 && !segwit then Failure else Many(TakeIn, n, h)
  }

  function TakeOuts(h: Hex): Parsed<seq<TxOut>> {
    var (n, h) :- TakeVarInt(h);
    Many(TakeOut, n, h)
  }

  /** One witness per input in the SegWit form, none otherwise. */
  function TakeWitnesses(h: Hex, segwit: bool, n: nat): Parsed<seq<seq<Hex>>> {
    if segwit then Many(TakeWitness, n, h) else Success(([], h))
  }

  /** Everything before the witnesses. */
  datatype Front = Front(version: nat, segwit: bool, ins: seq<TxIn>, outs: seq<TxOut>)

  function TakeFront(h: Hex): Parsed<Front> {
    var ((version, segwit), h) :- TakeHeader(h);
    var (ins, h) :- TakeIns(h, segwit);
    var (outs, h) :- TakeOuts(h);
    Success((Front(version, segwit, ins, outs), h))
  }

  function TakeTx(h: Hex): Parsed<Tx> {
    var (front, h) :- TakeFront(h);
    var (witnesses, h) :- TakeWitnesses(h, front.segwit, |front.ins|);
    var (locktime, h) :- TakeLittle(h, 4);
    Success((Tx(front.version, front.segwit, front.ins, front.outs, witnesses, locktime), h))
  }

  function PutIn(i: TxIn): Hex {
    i.prev + (PutLittle(i.vout, 4) + (PutScript(i.scriptSig) + PutLittle(i.sequence, 4)))
  }

  function PutOut(o: TxOut): Hex {
    PutLittle(o.value, 8) + PutScript(o.script)
  }

  function PutWitness(w: seq<Hex>): Hex {
    PutVarInt(|w|) + PutAll(PutScript, w)
  }

  function PutIns(ins: seq<TxIn>): Hex {
    PutVarInt(|ins|) + PutAll(PutIn, ins)
  }

  function PutOuts(outs: seq<TxOut>): Hex {
    PutVarInt(|outs|) + PutAll(PutOut, outs)
  }

  const MARKER_FLAG: Hex := [0, 0, 0, 1]

  /** The form that is hashed for the transaction id: no marker, flag or witness. */
  function PutLegacy(tx: Tx): Hex {
    PutLittle(tx.version, 4) + (PutIns(tx.ins) + (PutOuts(tx.outs) + PutLittle(tx.locktime, 4)))
  }

  /** The complete form. */
  function PutTx(tx: Tx): Hex {
    if tx.segwit then
      PutLittle(tx.version, 4) + (MARKER_FLAG + (PutIns(tx.ins) + (PutOuts(tx.outs)
      + (PutAll(PutWitness, tx.witnesses) + PutLittle(tx.locktime, 4)))))
    else PutLegacy(tx)
  }

  predicate IsWord(v: nat) {
    v < 0x1_0000_0000
  }

  ghost predicate ValidIn(i: TxIn) {
    |i.prev| == 64 && IsWord(i.vout) && IsScript(i.scriptSig) && IsWord(i.sequence)
  }

  ghost predicate ValidOut(o: TxOut) {
    o.value < TWO64 && IsScript(o.script)
  }

  ghost predicate ValidWitness(w: seq<Hex>) {
    IsWord(|w|) && forall i :: 0 <= i < |w| ==> IsScript(w[i])
  }

  /** The transactions that have a printed form. */
  ghost predicate ValidTx(tx: Tx) {
    && IsWord(tx.version) && IsWord(tx.locktime)
    && IsWord(|tx.ins|) && (forall i :: 0 <= i < |tx.ins| ==> ValidIn(tx.ins[i]))
    && IsWord(|tx.outs|) && (forall i :: 0 <= i < |tx.outs| ==> ValidOut(tx.outs[i]))
    && (forall i :: 0 <= i < |tx.witnesses| ==> ValidWitness(tx.witnesses[i]))
    && if tx.segwit then |tx.witnesses| == |tx.ins| else tx.witnesses == [] && tx.ins != []
  }

  /* ---------- parsing undoes printing ---------- */

  lemma TakeWordPut(v: nat, rest: Hex)
    requires IsWord(v)
    ensures TakeLittle(PutLittle(v, 4) + rest, 4) == Success((v, rest))
  {
    hide TakeLittle, PutLittle, Pow256;
    TakeLittlePut(v, 4, rest);
    Widths();
  }

  lemma TakeInPut(i: TxIn, rest: Hex)
    requires ValidIn(i)
    ensures TakeIn(PutIn(i) + rest) == Success((i, rest))
  {
    hide TakeBytes, TakeLittle, TakeScript, PutLittle, PutScript, IsScript, IsWord;
    var r3 := PutLittle(i.sequence, 4) + rest;
    var r2 := PutScript(i.scriptSig) + r3;
    var r1 := PutLittle(i.vout, 4) + r2;
    assert PutIn(i) + rest == i.prev + r1;
    TakeBytesPut(i.prev, r1);
    TakeWordPut(i.vout, r2);
    TakeScriptPut(i.scriptSig, r3);
    TakeWordPut(i.sequence, rest);
  }

  lemma TakeOutPut(o: TxOut, rest: Hex)
    requires ValidOut(o)
    ensures TakeOut(PutOut(o) + rest) == Success((o, rest))
  {
    hide TakeLittle, TakeScript, PutLittle, PutScript, IsScript, Pow256;
    assert PutOut(o) + rest == PutLittle(o.value, 8) + (PutScript(o.script) + rest);
    TakeLittlePut(o.value, 8, PutScript(o.script) + rest);
    Widths();
    TakeScriptPut(o.script, rest);
  }

  lemma TakeWitnessPut(w: seq<Hex>, rest: Hex)
    requires ValidWitness(w)
    ensures TakeWitness(PutWitness(w) + rest) == Success((w, rest))
  {
    hide TakeVarInt, TakeScript, PutVarInt, PutScript, IsScript, Many;
    assert PutWitness(w) + rest == PutVarInt(|w|) + (PutAll(PutScript, w) + rest);
    TakeVarIntPut(|w|, PutAll(PutScript, w) + rest);
    forall i, r: Hex | 0 <= i < |w| ensures TakeScript(PutScript(w[i]) + r) == Success((w[i], r)) {
      TakeScriptPut(w[i], r);
    }
    ManyPut(TakeScript, PutScript, w, rest);
  }

  lemma TakeInsPut(ins: seq<TxIn>, segwit: bool, rest: Hex)
    requires IsWord(|ins|) && (ins != [] || segwit) && forall i :: 0 <= i < |ins| ==> ValidIn(ins[i])
    ensures TakeIns(PutIns(ins) + rest, segwit) == Success((ins, rest))
  {
    hide TakeVarInt, TakeIn, PutVarInt, PutIn, ValidIn, Many;
    assert PutIns(ins) + rest == PutVarInt(|ins|) + (PutAll(PutIn, ins) + rest);
    TakeVarIntPut(|ins|, PutAll(PutIn, ins) + rest);
    forall i, r: Hex | 0 <= i < |ins| ensures TakeIn(PutIn(ins[i]) + r) == Success((ins[i], r)) {
      TakeInPut(ins[i], r);
    }
    ManyPut(TakeIn, PutIn, ins, rest);
  }

  lemma TakeOutsPut(outs: seq<TxOut>, rest: Hex)
    requires IsWord(|outs|) && forall i :: 0 <= i < |outs| ==> ValidOut(outs[i])
    ensures TakeOuts(PutOuts(outs) + rest) == Success((outs, rest))
  {
    hide TakeVarInt, TakeOut, PutVarInt, PutOut, ValidOut, Many;
    assert PutOuts(outs) + rest == PutVarInt(|outs|) + (PutAll(PutOut, outs) + rest);
    TakeVarIntPut(|outs|, PutAll(PutOut, outs) + rest);
    forall i, r: Hex | 0 <= i < |outs| ensures TakeOut(PutOut(outs[i]) + r) == Success((outs[i], r)) {
      TakeOutPut(outs[i], r);
    }
    ManyPut(TakeOut, PutOut, outs, rest);
  }

  lemma TakeWitnessesPut(witnesses: seq<seq<Hex>>, rest: Hex)
    requires forall i :: 0 <= i < |witnesses| ==> ValidWitness(witnesses[i])
    ensures Many(TakeWitness, |witnesses|, PutAll(PutWitness, witnesses) + rest) == Success((witnesses, rest))
  {
    hide TakeWitness, PutWitness, ValidWitness, Many;
    forall i, r: Hex | 0 <= i < |witnesses|
      ensures TakeWitness(PutWitness(witnesses[i]) + r) == Success((witnesses[i], r))
    {
      TakeWitnessPut(witnesses[i], r);
    }
    ManyPut(TakeWitness, PutWitness, witnesses, rest);
  }

  /** A printed input count of at least one does not look like the SegWit marker. */
  lemma NoMarker(ins: seq<TxIn>, rest: Hex)
    requires IsWord(|ins|) && ins != []
    ensures !HasMarker(PutIns(ins) + rest)
  {
  }

  lemma TakeHeaderPut(version: nat, segwit: bool, h: Hex)
    requires IsWord(version) && (segwit || !HasMarker(h))
    ensures TakeHeader(PutLittle(version, 4) + ((if segwit then MARKER_FLAG else []) + h))
         == Success(((version, segwit), h))
  {
    hide TakeLittle, PutLittle;
    var body := (if segwit then MARKER_FLAG else []) + h;
    TakeWordPut(version, body);
    if segwit {
      assert PutByte(0) == [0, 0] && PutByte(1) == [0, 1];
      assert body == PutByte(0) + (PutByte(1) + h);
      TakeBytePut(0, PutByte(1) + h);
      TakeBytePut(1, h);
    } else {
      assert body == h;
    }
  }

  /** The digits after the outputs. */
  function PutBack(tx: Tx): Hex {
    PutAll(PutWitness, tx.witnesses) + PutLittle(tx.locktime, 4)
  }

  lemma TakeFrontPut(tx: Tx, rest: Hex)
    requires ValidTx(tx)
    ensures PutTx(tx) + rest
         == PutLittle(tx.version, 4) + ((if tx.segwit then MARKER_FLAG else [])
            + (PutIns(tx.ins) + (PutOuts(tx.outs) + (PutBack(tx) + rest))))
    ensures TakeFront(PutTx(tx) + rest)
         == Success((Front(tx.version, tx.segwit, tx.ins, tx.outs), PutBack(tx) + rest))
  {
    hide TakeHeader, TakeIns, TakeOuts, PutLittle, PutIns, PutOuts, HasMarker, ValidIn, ValidOut, ValidWitness,
         PutWitness, IsWord;
    var r3 := PutBack(tx) + rest;
    var r2 := PutOuts(tx.outs) + r3;
    var r1 := PutIns(tx.ins) + r2;
    var r0 := (if tx.segwit then MARKER_FLAG else []) + r1;
    assert PutTx(tx) + rest == PutLittle(tx.version, 4) + r0;
    if !tx.segwit { NoMarker(tx.ins, r2); }
    TakeHeaderPut(tx.version, tx.segwit, r1);
    TakeInsPut(tx.ins, tx.segwit, r2);
    TakeOutsPut(tx.outs, r3);
  }

  lemma TakeWitnessesBack(tx: Tx, rest: Hex)
    requires ValidTx(tx)
    ensures TakeWitnesses(PutBack(tx) + rest, tx.segwit, |tx.ins|)
         == Success((tx.witnesses, PutLittle(tx.locktime, 4) + rest))
  {
    hide PutLittle, ValidIn, ValidOut, ValidWitness, Many, TakeWitness, PutWitness, IsWord;
    var r4 := PutLittle(tx.locktime, 4) + rest;
    assert PutBack(tx) + rest == PutAll(PutWitness, tx.witnesses) + r4;
    if tx.segwit {
      TakeWitnessesPut(tx.witnesses, r4);
    } else {
      assert PutBack(tx) == PutLittle(tx.locktime, 4);
    }
  }

  /** Every printable transaction parses back from its printed form, whatever follows it. */
  lemma TakeTxPut(tx: Tx, rest: Hex)
    requires ValidTx(tx)
    ensures TakeTx(PutTx(tx) + rest) == Success((tx, rest))
  {
    hide TakeFront, TakeWitnesses, TakeLittle, PutTx, PutBack, PutLittle, ValidIn, ValidOut, ValidWitness, IsWord;
    TakeFrontPut(tx, rest);
    TakeWitnessesBack(tx, rest);
    TakeWordPut(tx.locktime, rest);
  }

  /* ---------- parsing in a loop ---------- */

  /** The values read so far, put before the ones still to be read. */
  function Resume<T>(done: seq<T>, more: Parsed<seq<T>>): Parsed<seq<T>> {
    var (xs, rest) :- more;
    Success((done + xs, rest))
  }

  /** Reading one more value moves it from the ones to be read to the ones read. */
  lemma ManyStep<T>(take: Hex -> Parsed<T>, n: nat, done: seq<T>, h: Hex)
    requires n > 0
    ensures Resume(done, Many(take, n, h))
         == match take(h)
            case Failure => Failure
            case Success((x, rest)) => Resume(done + [x], Many(take, n - 1, rest))
  {
    if take(h).Success? {
      var (x, rest) := take(h).value;
      var more := Many(take, n - 1, rest);
      if more.Success? {
        assert done + ([x] + more.value.0) == done + [x] + more.value.0;
      }
    }
  }

  lemma ManyStart<T>(take: Hex -> Parsed<T>, n: nat, h: Hex)
    ensures Resume([], Many(take, n, h)) == Many(take, n, h)
  {
    var more := Many(take, n, h);
    if more.Success? { assert [] + more.value.0 == more.value.0; }
  }
}
