/** Base58 encoding of byte strings, with an independent decoder to measure it against. */
module Base58 {
  import opened Wrappers

  const ALPHABET := "123456789" + "ABCDEFGH" + "JKLMN" + "PQRSTUVWXYZ" + "abcdefghijk" + "mnopqrstuvwxyz"

  type Byte = x: int | 0 <= x < 256

  /* ---------- numbers ---------- */

  /** The number a byte string denotes, most significant byte first. */
  function Number(bytes: seq<Byte>): nat {
    if bytes == [] then 0 else Number(bytes[..|bytes| - 1]) * 256 + bytes[|bytes| - 1]
  }

  /** The number a list of base-58 digits denotes, least significant digit first. */
  function DigitsNumber(digits: seq<nat>): nat {
    if digits == [] then 0 else digits[0] + 58 * DigitsNumber(digits[1..])
  }

  ghost predicate IsDigits(digits: seq<nat>) {
    forall i :: 0 <= i < |digits| ==> digits[i] < 58
  }

  /** No leading zero digit. */
  predicate Minimal(digits: seq<nat>) {
    digits != [] && digits[|digits| - 1] != 0
  }

  function LeadingZeros(bytes: seq<Byte>): (n: nat)
    ensures n <= |bytes|
    ensures forall i :: 0 <= i < n ==> bytes[i] == 0
    ensures n < |bytes| ==> bytes[n] != 0
  {
    if bytes == [] || bytes[0] != 0 then 0 else 1 + LeadingZeros(bytes[1..])
  }

  /* ---------- multiply by 256 and add a byte ---------- */

  /** The digits pushed for a carry. */
  function Carry(c: nat): seq<nat> {
    if c == 0 then [] else [c % 58] + Carry(c / 58)
  }

  /** The digits of `256 * digits + c`, by schoolbook multiplication. */
  function MulAdd(digits: seq<nat>, c: nat): seq<nat> {
    if digits == [] then Carry(c)
    else var x := c + digits[0] * 256; [x % 58] + MulAdd(digits[1..], x / 58)
  }

  lemma {:induction false} CarryNumber(c: nat)
    ensures DigitsNumber(Carry(c)) == c && IsDigits(Carry(c))
    ensures c > 0 ==> Minimal(Carry(c))
  {
    if c > 0 {
      CarryNumber(c / 58);
      assert Carry(c)[1..] == Carry(c / 58);
      if c / 58 > 0 { assert Carry(c)[|Carry(c)| - 1] == Carry(c / 58)[|Carry(c / 58)| - 1]; }
    }
  }

  lemma MulAddFirst(digits: seq<nat>, c: nat)
    requires digits != []
    ensures var x := c + digits[0] * 256;
            MulAdd(digits, c) == [x % 58] + MulAdd(digits[1..], x / 58)
    ensures DigitsNumber(digits) == digits[0] + 58 * DigitsNumber(digits[1..])
  {
  }

  lemma MulAddNil(c: nat)
    ensures MulAdd([], c) == Carry(c) && DigitsNumber([]) == 0
  {
  }

  lemma DigitsNumberPush(d: nat, digits: seq<nat>)
    ensures DigitsNumber([d] + digits) == d + 58 * DigitsNumber(digits)
  {
  }

  /** Schoolbook multiplication computes the number. */
  lemma {:induction false} MulAddNumber(digits: seq<nat>, c: nat)
    requires IsDigits(digits)
    ensures DigitsNumber(MulAdd(digits, c)) == 256 * DigitsNumber(digits) + c
    ensures IsDigits(MulAdd(digits, c)) && |MulAdd(digits, c)| >= |digits|
    ensures Minimal(digits) ==> Minimal(MulAdd(digits, c))
  {
    hide MulAdd, DigitsNumber, Carry;
    if digits == [] {
      MulAddNil(c);
      CarryNumber(c);
    } else {
      var x := c + digits[0] * 256;
      var r := MulAdd(digits[1..], x / 58);
      MulAddFirst(digits, c);
      MulAddNumber(digits[1..], x / 58);
      DigitsNumberPush(x % 58, r);
      if Minimal(digits) { StaysMinimal(digits, c); }
    }
  }

  lemma Leads(d: nat, digits: seq<nat>)
    requires Minimal(digits)
    ensures Minimal([d] + digits)
  {
    assert ([d] + digits)[|digits|] == digits[|digits| - 1];
  }

  lemma CarryLeft(d: nat, c: nat)
    requires d != 0
    ensures (c + d * 256) / 58 > 0
  {
  }

  /** It leaves no leading zero. */
  lemma StaysMinimal(digits: seq<nat>, c: nat)
    requires Minimal(digits) && (|digits| > 1 ==> Minimal(MulAdd(digits[1..], (c + digits[0] * 256) / 58)))
    ensures Minimal(MulAdd(digits, c))
  {
    hide MulAdd, Carry, Minimal, DigitsNumber;
    assert digits != [] && digits[|digits| - 1] != 0 by { LastDigit(digits); }
    var x := c + digits[0] * 256;
    MulAddFirst(digits, c);
    if |digits| == 1 {
      CarryLeft(digits[0], c);
      assert digits[1..] == [];
      MulAddNil(x / 58);
      CarryNumber(x / 58);
    }
    Leads(x % 58, MulAdd(digits[1..], x / 58));
  }

  lemma LastDigit(digits: seq<nat>)
    requires Minimal(digits)
    ensures digits != [] && digits[|digits| - 1] != 0
  {
  }

  /* ---------- the encoder ---------- */

  /** The digits the encoder holds after a byte string; it starts from the single digit zero. */
  function Digits(bytes: seq<Byte>): seq<nat> {
    if bytes == [] then [0] else MulAdd(Digits(bytes[..|bytes| - 1]), bytes[|bytes| - 1])
  }

  /** From the single digit zero the first byte that is not zero leaves no leading zero. */
  lemma FirstByte(b: Byte)
    ensures if b == 0 then MulAdd([0], b) == [0] else Minimal(MulAdd([0], b))
  {
    hide MulAdd, Carry;
    assert [0][1..] == [];
    MulAddFirst([0], b);
    MulAddNil(b / 58);
    CarryNumber(b / 58);
    assert Carry(0) == [] by { CarryNone(); }
    if b / 58 > 0 { Leads(b % 58, Carry(b / 58)); }
  }

  lemma CarryNone()
    ensures Carry(0) == []
  {
  }

  lemma DigitsPush(prefix: seq<Byte>, b: Byte)
    ensures Digits(prefix + [b]) == MulAdd(Digits(prefix), b)
    ensures Number(prefix + [b]) == 256 * Number(prefix) + b
  {
    assert (prefix + [b])[..|prefix|] == prefix;
  }

  /** The digits denote the number of the bytes, and lead with zero only for the number zero. */
  lemma {:induction false} DigitsCorrect(bytes: seq<Byte>)
    ensures IsDigits(Digits(bytes)) && DigitsNumber(Digits(bytes)) == Number(bytes)
    ensures if Number(bytes) == 0 then Digits(bytes) == [0] else Minimal(Digits(bytes))
  {
    if bytes != [] {
      hide Digits, Number, MulAdd, DigitsNumber, Minimal;
      var prefix, b := bytes[..|bytes| - 1], bytes[|bytes| - 1];
      assert bytes == prefix + [b];
      DigitsCorrect(prefix);
      DigitsPush(prefix, b);
      MulAddNumber(Digits(prefix), b);
      FirstByte(b);
    }
  }

  function Ones(n: nat): string {
    seq(n, i => '1')
  }

  /** Digits, least significant first, spelled most significant first. */
  function Spell(digits: seq<nat>): (s: string)
    requires IsDigits(digits)
    ensures |s| == |digits|
  {
    if digits == [] then "" else Spell(digits[1..]) + [ALPHABET[digits[0]]]
  }

  function Encoded(bytes: seq<Byte>): string {
    DigitsCorrect(bytes);
    Ones(LeadingZeros(bytes)) + Spell(Digits(bytes))
  }

  lemma MulAddStep(digits: seq<nat>, i: nat, carry: nat)
    requires i < |digits|
    ensures MulAdd(digits[i..], carry)
         == [(carry + digits[i] * 256) % 58] + MulAdd(digits[i + 1..], (carry + digits[i] * 256) / 58)
  {
  }

  /** The first inner loop: multiply the digits in place, carrying. */
  method Multiply(digits0: seq<nat>, b: Byte) returns (digits: seq<nat>, carry: nat)
    ensures MulAdd(digits0, b) == digits + Carry(carry)
  {
    hide MulAdd, Carry;
    digits, carry := digits0, b;
    assert digits0[0..] == digits0;
    for i := 0 to |digits0|
      invariant |digits| == |digits0| && digits[i..] == digits0[i..]
      invariant MulAdd(digits0, b) == digits[..i] + MulAdd(digits0[i..], carry)
    {
      assert digits[i] == digits[i..][0] == digits0[i];
      MulAddStep(digits0, i, carry);
      ghost var before := digits;
      carry := carry + digits[i] * 256;
      digits := digits[i := carry % 58];
      carry := carry / 58;
      assert digits[..i + 1] == before[..i] + [digits[i]];
      assert digits[i + 1..] == before[i..][1..];
    }
    MulAddNil(carry);
  }

  /** One byte: multiply, then push what is left of the carry. */
  method PushByte(digits0: seq<nat>, b: Byte) returns (digits: seq<nat>)
    ensures digits == MulAdd(digits0, b)
  {
    hide MulAdd;
    var carry;
    digits, carry := Multiply(digits0, b);
    while carry > 0
      invariant MulAdd(digits0, b) == digits + Carry(carry)
    {
      assert digits + Carry(carry) == digits + [carry % 58] + Carry(carry / 58);
      digits := digits + [carry % 58];
      carry := carry / 58;
    }
  }

  method CountZeros(bytes: seq<Byte>) returns (zeros: nat)
    ensures zeros == LeadingZeros(bytes)
  {
    zeros := 0;
    while zeros < |bytes| && bytes[zeros] == 0
      invariant 0 <= zeros <= |bytes|
      invariant forall i :: 0 <= i < zeros ==> bytes[i] == 0
    {
      zeros := zeros + 1;
    }
  }

  method ToDigits(bytes: seq<Byte>) returns (digits: seq<nat>)
    ensures digits == Digits(bytes)
  {
    hide MulAdd;
    digits := [0];
    for k := 0 to |bytes|
      invariant digits == Digits(bytes[..k])
    {
      assert bytes[..k + 1][..k] == bytes[..k];
      digits := PushByte(digits, bytes[k]);
    }
    assert bytes[..|bytes|] == bytes;
  }

  method Encode(bytes: seq<Byte>) returns (result: string)
    ensures result == Encoded(bytes)
  {
    hide Digits, LeadingZeros;
    var zeros := CountZeros(bytes);
    var digits := ToDigits(bytes);
    DigitsCorrect(bytes);
    result := "";
    for i := 0 to zeros
      invariant result == Ones(i)
    {
      result := result + "1";
    }
    var i := |digits|;
    while i > 0
      invariant 0 <= i <= |digits|
      invariant result == Ones(zeros) + Spell(digits[i..])
    {
      i := i - 1;
      assert digits[i..][1..] == digits[i + 1..];
      result := result + [ALPHABET[digits[i]]];
    }
    assert digits[0..] == digits;
  }

  /* ---------- an independent decoder ---------- */

  /** The position of `c` in the alphabet from `i` on, or 58. */
  function Find(c: char, i: nat): (d: nat)
    requires i <= 58
    ensures d <= 58
    decreases 58 - i
  {
    if i == 58 then 58 else if ALPHABET[i] == c then i else Find(c, i + 1)
  }

  function TextNumber(s: string): nat {
    if s == "" then 0 else TextNumber(s[..|s| - 1]) * 58 + Find(s[|s| - 1], 0)
  }

  function LeadingOnes(s: string): nat {
    if s == "" || s[0] != '1' then 0 else 1 + LeadingOnes(s[1..])
  }

  /** The shortest byte string denoting `n`. */
  function BytesOf(n: nat): seq<Byte> {
    if n == 0 then [] else BytesOf(n / 256) + [n % 256]
  }

  function ZeroBytes(n: nat): seq<Byte> {
    seq(n, i => 0)
  }

  /** Base58 decoding as commonly defined: one zero byte for every leading '1', then the number
      the text denotes; text outside the alphabet does not decode. */
  function Decoded(s: string): Option<seq<Byte>> {
    if exists i :: 0 <= i < |s| && Find(s[i], 0) == 58 then None
    else Some(ZeroBytes(LeadingOnes(s)) + BytesOf(TextNumber(s)))
  }

  /** The alphabet is five runs of consecutive characters. */
  function Letter(d: nat): char
    requires d < 58
  {
    (if d < 9 then d + 49 else if d < 17 then d + 56 else if d < 22 then d + 57
     else if d < 33 then d + 58 else if d < 44 then d + 64 else d + 65) as char
  }

  lemma AlphabetLetter(d: nat)
    requires d < 58
    ensures ALPHABET[d] == Letter(d)
  {
  }

  lemma AlphabetIncreasing(i: nat, j: nat)
    requires i < j < 58
    ensures ALPHABET[i] < ALPHABET[j]
  {
    AlphabetLetter(i);
    AlphabetLetter(j);
  }

  lemma FindDigit(d: nat, i: nat)
    requires i <= d < 58
    ensures Find(ALPHABET[d], i) == d
    decreases d - i
  {
    if i < d {
      AlphabetIncreasing(i, d);
      FindDigit(d, i + 1);
    }
  }

  lemma {:induction false} OnesNumber(z: nat)
    ensures TextNumber(Ones(z)) == 0
  {
    if z > 0 {
      OnesNumber(z - 1);
      FindDigit(0, 0);
      assert Ones(z)[..z - 1] == Ones(z - 1);
    }
  }

  lemma {:induction false} SpellNumber(z: nat, digits: seq<nat>)
    requires IsDigits(digits)
    ensures TextNumber(Ones(z) + Spell(digits)) == DigitsNumber(digits)
  {
    hide Ones, Find;
    if digits == [] {
      OnesNumber(z);
      assert Ones(z) + "" == Ones(z);
    } else {
      var t := Ones(z) + Spell(digits);
      SpellNumber(z, digits[1..]);
      FindDigit(digits[0], 0);
      assert t[..|t| - 1] == Ones(z) + Spell(digits[1..]);
    }
  }

  /** Spelling puts digit `i` counted from the most significant end at position `i`. */
  lemma {:induction false} SpellAt(digits: seq<nat>, i: nat)
    requires IsDigits(digits) && i < |digits|
    ensures Spell(digits)[i] == ALPHABET[digits[|digits| - 1 - i]]
  {
    if i < |digits| - 1 { SpellAt(digits[1..], i); }
  }

  lemma {:induction false} LeadingOnesOf(z: nat, s: string)
    requires s == "" || s[0] != '1'
    ensures LeadingOnes(Ones(z) + s) == z
  {
    if z > 0 {
      LeadingOnesOf(z - 1, s);
      assert (Ones(z) + s)[1..] == Ones(z - 1) + s;
    } else {
      assert Ones(0) + s == s;
    }
  }

  lemma {:induction false} NumberZero(bytes: seq<Byte>)
    ensures Number(bytes) == 0 <==> LeadingZeros(bytes) == |bytes|
  {
    if bytes != [] { NumberZero(bytes[..|bytes| - 1]); }
  }

  lemma {:induction false} BytesOfNumber(bytes: seq<Byte>)
    ensures BytesOf(Number(bytes)) == bytes[LeadingZeros(bytes)..]
  {
    hide LeadingZeros, BytesOf;
    NumberZero(bytes);
    if Number(bytes) > 0 {
      var prefix, b := bytes[..|bytes| - 1], bytes[|bytes| - 1];
      BytesOfNumber(prefix);
      NumberZero(prefix);
      var z := LeadingZeros(bytes);
      assert LeadingZeros(prefix) == z;
      assert bytes[z..] == prefix[z..] + [b];
      BytesOfStep(Number(prefix), b);
    } else {
      BytesOfZero();
    }
  }

  lemma BytesOfZero()
    ensures BytesOf(0) == []
  {
  }

  lemma BytesOfStep(n: nat, b: Byte)
    requires n * 256 + b > 0
    ensures BytesOf(n * 256 + b) == BytesOf(n) + [b]
  {
  }

  /* ---------- the round trip ---------- */

  lemma EncodedDecodes(bytes: seq<Byte>)
    ensures Decoded(Encoded(bytes))
         == Some(ZeroBytes(LeadingOnes(Encoded(bytes))) + bytes[LeadingZeros(bytes)..])
  {
    hide LeadingOnes, Digits, LeadingZeros;
    var z, ds, s := LeadingZeros(bytes), Digits(bytes), Encoded(bytes);
    DigitsCorrect(bytes);
    SpellNumber(z, ds);
    BytesOfNumber(bytes);
    OnlyDigits(z, ds);
  }

  lemma OnlyDigits(z: nat, ds: seq<nat>)
    requires IsDigits(ds)
    ensures var s := Ones(z) + Spell(ds); forall i :: 0 <= i < |s| ==> Find(s[i], 0) < 58
  {
    hide Find, Spell;
    var s := Ones(z) + Spell(ds);
    forall i | 0 <= i < |s| ensures Find(s[i], 0) < 58 {
      FindDigit(0, 0);
      if i >= z {
        SpellAt(ds, i - z);
        FindDigit(ds[|ds| - 1 - (i - z)], 0);
      }
    }
  }

  /** The encoding decodes back to the bytes exactly when some byte is not zero; a run of `n` zero
      bytes, the empty string included, comes out as `n + 1` ones and decodes to one zero too many. */
  lemma RoundTrip(bytes: seq<Byte>)
    ensures Decoded(Encoded(bytes)) == Some(bytes) <==> exists i :: 0 <= i < |bytes| && bytes[i] != 0
    ensures (forall i :: 0 <= i < |bytes| ==> bytes[i] == 0) ==> Encoded(bytes) == Ones(|bytes| + 1)
  {
    hide Digits, Decoded, Number, LeadingOnes, Find;
    var z, ds, s := LeadingZeros(bytes), Digits(bytes), Encoded(bytes);
    DigitsCorrect(bytes);
    NumberZero(bytes);
    EncodedDecodes(bytes);
    if Number(bytes) == 0 {
      assert Spell([0]) == "1";
      LeadingOnesOf(|bytes| + 1, "");
      assert s == Ones(|bytes| + 1) == Ones(|bytes| + 1) + "";
    } else {
      SpellAt(ds, 0);
      AlphabetIncreasing(0, ds[|ds| - 1]);
      LeadingOnesOf(z, Spell(ds));
      assert bytes == ZeroBytes(z) + bytes[z..];
      assert bytes[z] != 0;
    }
  }

  /* ---------- the alphabet and a published example ---------- */

  /** The alphabet: the digits and letters without 0, I, O and l, in ascending order. */
  lemma AlphabetIs(c: char, i: nat, j: nat)
    requires i < j < 58
    ensures |ALPHABET| == 58 && ALPHABET[i] < ALPHABET[j]
    ensures c in ALPHABET <==>
            || '1' <= c <= '9'
            || ('A' <= c <= 'Z' && c != 'I' && c != 'O')
            || ('a' <= c <= 'z' && c != 'l')
  {
    AlphabetIncreasing(i, j);
    hide Letter;
    if c in ALPHABET {
      var d :| 0 <= d < 58 && ALPHABET[d] == c;
      AlphabetLetter(d);
      LetterIs(d);
    } else if '1' <= c <= '9' || 'A' <= c <= 'Z' || 'a' <= c <= 'z' {
      var d := Rank(c);
      if d < 58 { AlphabetLetter(d); RankLetter(c); }
    }
  }

  /** Where a character stands in the alphabet, if it is in it. */
  function Rank(c: char): (d: nat)
    requires '1' <= c <= '9' || 'A' <= c <= 'Z' || 'a' <= c <= 'z'
  {
    if c <= '9' then c as int - 49
    else if c < 'I' then c as int - 56 else if c == 'I' then 58
    else if c < 'O' then c as int - 57 else if c == 'O' then 58
    else if c <= 'Z' then c as int - 58
    else if c < 'l' then c as int - 64 else if c == 'l' then 58
    else c as int - 65
  }

  lemma RankLetter(c: char)
    requires ('1' <= c <= '9' || 'A' <= c <= 'Z' || 'a' <= c <= 'z') && Rank(c) < 58
    ensures Letter(Rank(c)) == c
  {
  }

  lemma LetterIs(d: nat)
    requires d < 58
    ensures var c := Letter(d);
            '1' <= c <= '9' || ('A' <= c <= 'Z' && c != 'I' && c != 'O') || ('a' <= c <= 'z' && c != 'l')
  {
  }

  /** A number has one list of digits without a leading zero. */
  lemma {:induction false} DigitsUnique(a: seq<nat>, b: seq<nat>)
    requires IsDigits(a) && IsDigits(b) && (a == [] || Minimal(a)) && (b == [] || Minimal(b))
    requires DigitsNumber(a) == DigitsNumber(b)
    ensures a == b
  {
    if a == [] {
      DigitsPositive(b);
    } else if b == [] {
      DigitsPositive(a);
    } else {
      assert a[0] == b[0] && DigitsNumber(a[1..]) == DigitsNumber(b[1..]);
      DigitsUnique(a[1..], b[1..]);
      assert a == [a[0]] + a[1..] && b == [b[0]] + b[1..];
    }
  }

  lemma {:induction false} DigitsPositive(a: seq<nat>)
    ensures a != [] && Minimal(a) ==> DigitsNumber(a) > 0
  {
    if |a| > 1 { DigitsPositive(a[1..]); }
  }

  lemma ExampleNumbers()
    ensures Number([0x57, 0x2e, 0x47, 0x94]) == 1462650772 == DigitsNumber([44, 6, 27, 14, 13, 2])
  {
    var bytes: seq<Byte> := [0x57, 0x2e, 0x47, 0x94];
    assert bytes[..3] == [0x57, 0x2e, 0x47] && bytes[..3][..2] == [0x57, 0x2e] && bytes[..3][..2][..1] == [0x57];
    assert Number([0x57]) == 0x57;
    assert Number([0x57, 0x2e]) == 0x572e;
    var digits: seq<nat> := [44, 6, 27, 14, 13, 2];
    assert digits[1..] == [6, 27, 14, 13, 2] && digits[1..][1..] == [27, 14, 13, 2];
    assert DigitsNumber([13, 2]) == 129;
    assert DigitsNumber([14, 13, 2]) == 7496;
    assert DigitsNumber([27, 14, 13, 2]) == 434795;
  }

  lemma SpellFirst(digits: seq<nat>)
    requires digits != [] && IsDigits(digits)
    ensures IsDigits(digits[1..]) && Spell(digits) == Spell(digits[1..]) + [Letter(digits[0])]
  {
    AlphabetLetter(digits[0]);
  }

  lemma ExampleStart()
    ensures Spell([14, 13, 2]) == "3EF"
  {
    SpellFirst([14, 13, 2]);
    SpellFirst([13, 2]);
    SpellFirst([2]);
  }

  lemma ExampleText()
    ensures Spell([44, 6, 27, 14, 13, 2]) == "3EFU7m"
  {
    hide Spell;
    var ds: seq<nat> := [44, 6, 27, 14, 13, 2];
    ExampleStart();
    assert ds[1..] == [6, 27, 14, 13, 2] && ds[1..][1..] == [27, 14, 13, 2] && ds[1..][1..][1..] == [14, 13, 2];
    SpellFirst(ds);
    SpellFirst(ds[1..]);
    SpellFirst(ds[1..][1..]);
  }

  /** 572e4794 is encoded as 3EFU7m. */
  lemma EncodedExample()
    ensures Encoded([0x57, 0x2e, 0x47, 0x94]) == "3EFU7m"
  {
    hide Digits, Number, DigitsNumber, Spell;
    var bytes: seq<Byte> := [0x57, 0x2e, 0x47, 0x94];
    ExampleNumbers();
    ExampleText();
    DigitsCorrect(bytes);
    DigitsUnique(Digits(bytes), [44, 6, 27, 14, 13, 2]);
    assert LeadingZeros(bytes) == 0;
    assert Ones(0) + "3EFU7m" == "3EFU7m";
  }
}
