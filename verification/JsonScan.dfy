/** The bracket scan measured against the JSON grammar (sections 2, 4, 5 and 7 of RFC 8259). */
module JsonScan {
  import opened BracketScan

  /* ---------- JSON values ---------- */

  /** A value with the white space around it. */
  datatype Json = Json(lead: string, body: Body, trail: string)

  /** A number or literal name, a string, an array or an object; `gap` is the white space of an empty
      array or object. */
  datatype Body =
    | Scalar(text: string)
    | Str(units: seq<Unit>)
    | Array(items: seq<Json>, gap: string)
    | Object(members: seq<Member>, gap: string)

  /** A name with the white space around it, and its value. */
  datatype Member = Member(lead: string, name: seq<Unit>, trail: string, value: Json)

  function Print(v: Json): string
    decreases v
  {
    v.lead + PrintBody(v.body) + v.trail
  }

  function PrintBody(b: Body): string
    decreases b
  {
    match b
    case Scalar(text) => text
    case Str(units) => "\"" + Spell(units) + "\""
    case Array(items, gap) => "[" + (if items == [] then gap else PrintItems(items)) + "]"
    case Object(members, gap) => "{" + (if members == [] then gap else PrintMembers(members)) + "}"
  }

  function PrintItems(items: seq<Json>): string
    requires items != []
    decreases items
  {
    if |items| == 1 then Print(items[0]) else Print(items[0]) + "," + PrintItems(items[1..])
  }

  function PrintMember(m: Member): string
    decreases m
  {
    m.lead + "\"" + Spell(m.name) + "\"" + m.trail + ":" + Print(m.value)
  }

  function PrintMembers(members: seq<Member>): string
    requires members != []
    decreases members
  {
    if |members| == 1 then PrintMember(members[0])
    else PrintMember(members[0]) + "," + PrintMembers(members[1..])
  }

  predicate IsSpace(ws: string) {
    forall i :: 0 <= i < |ws| ==> ws[i] in {' ', '\t', '\n', '\r'}
  }

  predicate IsScalar(text: string) {
    forall i :: 0 <= i < |text| ==> PlainChar(text[i])
  }

  /** White space where JSON has it, and no bracket or quote in a scalar. */
  predicate ValidJson(v: Json)
    decreases v
  {
    IsSpace(v.lead) && ValidBody(v.body) && IsSpace(v.trail)
  }

  predicate ValidBody(b: Body)
    decreases b
  {
    match b
    case Scalar(text) => IsScalar(text)
    case Str(units) => ValidUnits(units)
    case Array(items, gap) => IsSpace(gap) && forall i :: 0 <= i < |items| ==> ValidJson(items[i])
    case Object(members, gap) => IsSpace(gap) && forall i :: 0 <= i < |members| ==> ValidMember(members[i])
  }

  predicate ValidMember(m: Member)
    decreases m
  {
    IsSpace(m.lead) && ValidUnits(m.name) && IsSpace(m.trail) && ValidJson(m.value)
  }

  /* ---------- strings that mislead the scan ---------- */

  /** How many strings and names of a value end in an escaped backslash. */
  function Misleading(v: Json): nat
    decreases v
  {
    MisleadingBody(v.body)
  }

  function MisleadingBody(b: Body): nat
    decreases b
  {
    match b
    case Scalar(_) => 0
    case Str(units) => if Misleads(units) then 1 else 0
    case Array(items, _) => MisleadingItems(items)
    case Object(members, _) => MisleadingMembers(members)
  }

  function MisleadingItems(items: seq<Json>): nat
    decreases items
  {
    if items == [] then 0 else Misleading(items[0]) + MisleadingItems(items[1..])
  }

  function MisleadingMember(m: Member): nat
    decreases m
  {
    (if Misleads(m.name) then 1 else 0) + Misleading(m.value)
  }

  function MisleadingMembers(members: seq<Member>): nat
    decreases members
  {
    if members == [] then 0 else MisleadingMember(members[0]) + MisleadingMembers(members[1..])
  }

  /* ---------- JSON is bracketed text ---------- */

  function Plains(t: string): (r: seq<Piece>) {
    seq(|t|, i requires 0 <= i < |t| => Plain(t[i]))
  }

  function Pieces(v: Json): seq<Piece>
    decreases v
  {
    Plains(v.lead) + BodyPieces(v.body) + Plains(v.trail)
  }

  function BodyPieces(b: Body): seq<Piece>
    decreases b
  {
    match b
    case Scalar(text) => Plains(text)
    case Str(units) => [Quoted(units)]
    case Array(items, gap) => [Nested('[', if items == [] then Plains(gap) else ItemPieces(items))]
    case Object(members, gap) => [Nested('{', if members == [] then Plains(gap) else MemberPieces(members))]
  }

  function ItemPieces(items: seq<Json>): seq<Piece>
    requires items != []
    decreases items
  {
    if |items| == 1 then Pieces(items[0]) else Pieces(items[0]) + [Plain(',')] + ItemPieces(items[1..])
  }

  function OneMember(m: Member): seq<Piece>
    decreases m
  {
    Plains(m.lead) + [Quoted(m.name)] + Plains(m.trail) + [Plain(':')] + Pieces(m.value)
  }

  function MemberPieces(members: seq<Member>): seq<Piece>
    requires members != []
    decreases members
  {
    if |members| == 1 then OneMember(members[0])
    else OneMember(members[0]) + [Plain(',')] + MemberPieces(members[1..])
  }

  lemma {:induction false} Joined(a: seq<Piece>, b: seq<Piece>)
    ensures Text(a + b) == Text(a) + Text(b) && Misled(a + b) == Misled(a) + Misled(b)
  {
    hide *;
    if a == [] {
      assert a + b == b;
      NoPieces();
      assert "" + Text(b) == Text(b);
    } else {
      Joined(a[1..], b);
      var all := a + b;
      assert all[1..] == a[1..] + b && all[0] == a[0];
      HeadAndTail(all, false);
      HeadAndTail(a, false);
      assert TextOf(a[0]) + (Text(a[1..]) + Text(b)) == TextOf(a[0]) + Text(a[1..]) + Text(b);
    }
  }

  lemma NoPieces()
    ensures Text([]) == "" && Misled([]) == 0
  {
  }

  lemma OnePiece(p: Piece)
    ensures Text([p]) == TextOf(p) && Misled([p]) == MisledBy(p)
  {
    hide TextOf, MisledBy;
    HeadAndTail([p], false);
  }

  lemma {:induction false} PlainPieces(t: string)
    ensures Text(Plains(t)) == t && Misled(Plains(t)) == 0
  {
    if t != "" {
      PlainPieces(t[1..]);
      assert Plains(t)[1..] == Plains(t[1..]);
      assert t == [t[0]] + t[1..];
    }
  }

  lemma PlainsGood(t: string)
    requires IsScalar(t)
    ensures Good(Plains(t))
  {
  }

  lemma SpaceIsScalar(ws: string)
    requires IsSpace(ws)
    ensures IsScalar(ws)
  {
  }

  /** The pieces of a value spell the value, hold its misleading strings, and are good if the value is valid. */
  lemma {:induction false} PiecesPrint(v: Json)
    requires ValidJson(v)
    ensures Text(Pieces(v)) == Print(v) && Good(Pieces(v)) && Misled(Pieces(v)) == Misleading(v)
    decreases v
  {
    hide Text, Misled, GoodPiece;
    var b := BodyPieces(v.body);
    BodyPrints(v.body);
    SpaceIsScalar(v.lead);
    SpaceIsScalar(v.trail);
    PlainsGood(v.lead);
    PlainsGood(v.trail);
    PlainPieces(v.lead);
    PlainPieces(v.trail);
    Joined(Plains(v.lead), b);
    Joined(Plains(v.lead) + b, Plains(v.trail));
  }

  lemma {:induction false} BodyPrints(b: Body)
    requires ValidBody(b)
    ensures Text(BodyPieces(b)) == PrintBody(b) && Good(BodyPieces(b)) && Misled(BodyPieces(b)) == MisleadingBody(b)
    decreases b
  {
    match b
    case Scalar(text) =>
      PlainPieces(text);
      PlainsGood(text);
    case Str(units) =>
      OnePiece(Quoted(units));
    case Array(items, gap) =>
      SpaceIsScalar(gap);
      PlainsGood(gap);
      PlainPieces(gap);
      if items != [] { ItemsPrint(items); }
      OnePiece(BodyPieces(b)[0]);
    case Object(members, gap) =>
      SpaceIsScalar(gap);
      PlainsGood(gap);
      PlainPieces(gap);
      if members != [] { MembersPrint(members); }
      OnePiece(BodyPieces(b)[0]);
  }

  lemma {:induction false} ItemsPrint(items: seq<Json>)
    requires items != [] && forall i :: 0 <= i < |items| ==> ValidJson(items[i])
    ensures Text(ItemPieces(items)) == PrintItems(items) && Good(ItemPieces(items))
    ensures Misled(ItemPieces(items)) == MisleadingItems(items)
    decreases items
  {
    hide Text, Misled, ValidJson;
    PiecesPrint(items[0]);
    if |items| > 1 {
      ItemsPrint(items[1..]);
      var a, c := Pieces(items[0]), ItemPieces(items[1..]);
      OnePiece(Plain(','));
      Joined(a, [Plain(',')]);
      Joined(a + [Plain(',')], c);
    }
  }

  lemma {:induction false} OneMemberPrints(m: Member)
    requires ValidMember(m)
    ensures Text(OneMember(m)) == PrintMember(m) && Good(OneMember(m)) && Misled(OneMember(m)) == MisleadingMember(m)
    decreases m
  {
    hide Text, Misled;
    PiecesPrint(m.value);
    SpaceIsScalar(m.lead);
    SpaceIsScalar(m.trail);
    PlainsGood(m.lead);
    PlainsGood(m.trail);
    PlainPieces(m.lead);
    PlainPieces(m.trail);
    OnePiece(Quoted(m.name));
    OnePiece(Plain(':'));
    var a := Plains(m.lead) + [Quoted(m.name)];
    var b := a + Plains(m.trail);
    var c := b + [Plain(':')];
    Joined(Plains(m.lead), [Quoted(m.name)]);
    Joined(a, Plains(m.trail));
    Joined(b, [Plain(':')]);
    Joined(c, Pieces(m.value));
  }

  lemma {:induction false} MembersPrint(members: seq<Member>)
    requires members != [] && forall i :: 0 <= i < |members| ==> ValidMember(members[i])
    ensures Text(MemberPieces(members)) == PrintMembers(members) && Good(MemberPieces(members))
    ensures Misled(MemberPieces(members)) == MisleadingMembers(members)
    decreases members
  {
    hide Text, Misled, ValidMember;
    OneMemberPrints(members[0]);
    if |members| > 1 {
      MembersPrint(members[1..]);
      var a, c := OneMember(members[0]), MemberPieces(members[1..]);
      OnePiece(Plain(','));
      Joined(a, [Plain(',')]);
      Joined(a + [Plain(',')], c);
    }
  }

  /* ---------- when the scan is exact ---------- */

  /** What stands between the brackets of an array or object. */
  function Inside(b: Body): seq<Piece>
    requires b.Array? || b.Object?
  {
    BodyPieces(b)[0].inner
  }

  /** What the scan of an array or object takes to be outside its strings. */
  function Seen(b: Body): string
    requires b.Array? || b.Object?
  {
    View(Inside(b), false)
  }

  /** What decides the scan: counting what it sees never gets to zero and, unless nothing follows anyway, ends
      where it began after an even number of misleading strings. */
  predicate SeenRight(b: Body, rest: string)
    requires b.Array? || b.Object?
  {
    var open := PrintBody(b)[0];
    && Survives(open, 1, Seen(b))
    && (NothingFollows(rest) || (MisleadingBody(b) % 2 == 0 && Net(open, Seen(b)) == 0))
  }

  lemma Opens(b: Body)
    requires (b.Array? || b.Object?) && ValidBody(b)
    ensures var p := BodyPieces(b)[0];
            && p == Nested(PrintBody(b)[0], Inside(b)) && IsOpen(PrintBody(b)[0]) && Good(Inside(b))
            && TextOf(p) == PrintBody(b) && Misled(Inside(b)) == MisleadingBody(b)
  {
    hide Text, Misled;
    BodyPrints(b);
    OnePiece(BodyPieces(b)[0]);
  }

  /** For every object or array, followed by any text: the scan stops at the end of the value if and only if what
      it sees of the value is right. */
  lemma BracketScanIff(b: Body, rest: string)
    requires (b.Array? || b.Object?) && ValidBody(b)
    ensures var s := PrintBody(b) + rest; IsOpen(s[0]) && (ScanEnd(s) == |PrintBody(b)| <==> SeenRight(b, rest))
  {
    Opens(b);
    hide *;
    ScanExactIff(PrintBody(b)[0], Inside(b), rest);
  }

  /** When no string ends in an escaped backslash, the scan is exact whatever follows. */
  lemma BracketScanExact(b: Body, rest: string)
    requires (b.Array? || b.Object?) && ValidBody(b) && MisleadingBody(b) == 0
    ensures var s := PrintBody(b) + rest; IsOpen(s[0]) && ScanEnd(s) == |PrintBody(b)|
  {
    hide Survives, Net, View, MisleadingBody, PrintBody, BodyPieces, ScanEnd;
    Opens(b);
    BracketScanIff(b, rest);
    StructureBalances(PrintBody(b)[0], 1, Inside(b));
  }

  /** After an odd number of misleading strings and names the scan is wrong on every text that goes on. When the
      text ends with the value, or has a terminator there, the scan cannot go on and the number does not matter. */
  lemma OddMisleads(b: Body, rest: string)
    requires (b.Array? || b.Object?) && ValidBody(b) && MisleadingBody(b) % 2 == 1 && !NothingFollows(rest)
    ensures var s := PrintBody(b) + rest; IsOpen(s[0]) && ScanEnd(s) != |PrintBody(b)|
  {
    hide Survives, Net, MisleadingBody;
    BracketScanIff(b, rest);
  }

  /** For a value without a bracket of its own kind inside, be it in a string or a nested value, an even number of
      misleading strings and names is all it takes. */
  lemma EvenIffExact(b: Body, rest: string)
    requires (b.Array? || b.Object?) && ValidBody(b)
    requires FreeOf(PrintBody(b)[0], PrintBody(b)[1..|PrintBody(b)| - 1])
    ensures var s := PrintBody(b) + rest;
            && IsOpen(s[0])
            && (ScanEnd(s) == |PrintBody(b)| <==> NothingFollows(rest) || MisleadingBody(b) % 2 == 0)
  {
    hide Survives, Net, MisleadingBody, View;
    var t, v := PrintBody(b), Seen(b);
    Opens(b);
    assert t[1..|t| - 1] == Text(Inside(b));
    forall c | c in v
      ensures c in t[1..|t| - 1]
    {
      ViewInText(Inside(b), false, c);
    }
    NothingCounts(t[0], 1, v);
    BracketScanIff(b, rest);
  }

  /** The source's loop cuts the value out of a reply, when the buffer has room for it, if the scan sees it right; so
      it does for every value without misleading strings. With room for more than the value it does so only then. */
  method ExtractValue(b: Body, rest: string, resultSize: nat) returns (result: string)
    requires (b.Array? || b.Object?) && ValidBody(b) && resultSize > |PrintBody(b)|
    ensures SeenRight(b, rest) || MisleadingBody(b) == 0 ==> result == PrintBody(b)
    ensures resultSize > |PrintBody(b)| + 1 ==> (result == PrintBody(b) <==> SeenRight(b, rest))
  {
    hide *;
    var s, t := PrintBody(b) + rest, PrintBody(b);
    BracketScanIff(b, rest);
    if MisleadingBody(b) == 0 {
      BracketScanExact(b, rest);
    }
    result := ExtractBracketed(s, resultSize);
    assert s[..|t|] == t;
    assert result == t ==> |result| == |t|;
  }

  /* ---------- examples ---------- */

  /** A lone misleading string, followed by any text without a quote, is scanned to the end of all the text. */
  lemma LoneEscapeMisleads(units: seq<Unit>, rest: string)
    requires Misleads(units) && ValidUnits(units)
    requires forall i :: 0 <= i < |rest| ==> rest[i] != '"' && rest[i] != '\0'
    ensures var s := PrintBody(Array([Json("", Str(units), "")], "")) + rest; IsOpen(s[0]) && ScanEnd(s) == |s|
  {
    var t, s := TextOf(Quoted(units)), PrintBody(Array([Json("", Str(units), "")], "")) + rest;
    LonePrints(units);
    hide PrintBody, Spell, TextOf, ScanFrom, Survives, Net, MisledBy, ViewOf;
    assert s == "[" + t + "]" + rest;
    var e := 1 + |t|;
    assert s[1..e] == t && s[e] == ']';
    assert forall i :: e < i < |s| ==> s[i] == rest[i - e - 1];
    WalkQuoted('[', s, 1, units, 1, false);
    LoneView(units);
    WalkRun('[', s, e, |s|, 1, true);
    CountNil('[', 1);
    ScanStopped('[', s, |s|, State(1, true));
  }

  lemma LonePrints(units: seq<Unit>)
    ensures PrintBody(Array([Json("", Str(units), "")], "")) == "[" + TextOf(Quoted(units)) + "]"
  {
    hide Spell;
    assert Print(Json("", Str(units), "")) == TextOf(Quoted(units));
  }

  lemma LoneView(units: seq<Unit>)
    requires Misleads(units)
    ensures ViewOf(Quoted(units), false) == "" && Flip(false, MisledBy(Quoted(units)))
  {
  }

  const ESCAPED := Json("", Str([Escape('\\')]), "")

  lemma EscapedPrints()
    ensures Print(ESCAPED) == "\"\\\\\""
  {
    var units := [Escape('\\')];
    assert units[..0] == [];
  }

  /** The shortest failure: the scan of ["\\"] runs on into the text that follows. */
  lemma EscapedBackslashMisleads()
    ensures PrintBody(Array([ESCAPED], "")) == "[\"\\\\\"]"
    ensures var t := PrintBody(Array([ESCAPED], "")); ScanEnd(t + "}") == |t| + 1
  {
    EscapedPrints();
    LoneEscapeMisleads([Escape('\\')], "}");
  }

  /** An even number is not only zero: the scan of ["\\","\\"] stops at its end. */
  lemma EscapesCancel(rest: string)
    ensures PrintBody(Array([ESCAPED, ESCAPED], "")) == "[\"\\\\\",\"\\\\\"]"
    ensures var t := PrintBody(Array([ESCAPED, ESCAPED], "")); ScanEnd(t + rest) == |t|
  {
    var items := [ESCAPED, ESCAPED];
    TwoPrint(items);
    TwoMislead(items);
    hide *;
    EvenIffExact(Array(items, ""), rest);
  }

  lemma TwoPrint(items: seq<Json>)
    requires items == [ESCAPED, ESCAPED]
    ensures PrintBody(Array(items, "")) == "[\"\\\\\",\"\\\\\"]" && ValidBody(Array(items, ""))
    ensures FreeOf('[', "\"\\\\\",\"\\\\\"")
  {
    EscapedPrints();
    hide Print, Spell;
    assert items[1..] == [ESCAPED];
    assert PrintItems(items) == "\"\\\\\",\"\\\\\"";
  }

  lemma TwoMislead(items: seq<Json>)
    requires items == [ESCAPED, ESCAPED]
    ensures MisleadingBody(Array(items, "")) == 2
  {
    assert items[1..] == [ESCAPED] && items[1..][1..] == [];
    assert MisleadingItems(items[1..]) == 1;
  }
}
