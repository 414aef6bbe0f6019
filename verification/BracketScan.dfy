/** The bracket scan that cuts an object or array out of a JSON-RPC reply, and what it makes of bracketed text
    with string literals in it. */
module BracketScan {

  /* ---------- the scan ---------- */

  /** The two variables of the scan. */
  datatype State = State(depth: int, inString: bool)

  predicate IsOpen(c: char) {
    c == '{' || c == '['
  }

  function Closer(open: char): char {
    if open == '{' then '}' else ']'
  }

  /** One character: only brackets of the kind that opened the value are counted, and a quote after a
      backslash does not toggle the string flag. */
  function Step(open: char, st: State, prev: char, c: char): State {
    if c == '"' && prev != '\\' then st.(inString := !st.inString)
    else if st.inString then st
    else if c == open then st.(depth := st.depth + 1)
    else if c == Closer(open) then st.(depth := st.depth - 1)
    else st
  }

  /** Where the scan stops from position `p` on: depth zero, a terminator, or the end of the text. */
  function ScanFrom(open: char, s: string, p: nat, st: State): (e: nat)
    requires 1 <= p <= |s|
    ensures p <= e <= |s|
    decreases |s| - p
  {
    if p == |s| || s[p] == '\0' || st.depth <= 0 then p
    else ScanFrom(open, s, p + 1, Step(open, st, s[p - 1], s[p]))
  }

  function ScanEnd(s: string): (e: nat)
    requires s != "" && IsOpen(s[0])
    ensures 1 <= e <= |s|
  {
    ScanFrom(s[0], s, 1, State(1, false))
  }

  /** The loop of the source, with the copy into a result buffer of the given size. */
  method ExtractBracketed(s: string, resultSize: nat) returns (result: string)
    requires s != "" && IsOpen(s[0]) && resultSize > 0
    ensures result == s[..if ScanEnd(s) < resultSize then ScanEnd(s) else resultSize - 1]
  {
    var open, close := s[0], Closer(s[0]);
    var depth, inString, p := 1, false, 1;
    while p < |s| && s[p] != '\0' && depth > 0
      invariant 1 <= p <= |s|
      invariant ScanEnd(s) == ScanFrom(open, s, p, State(depth, inString))
    {
      if s[p] == '"' && s[p - 1] != '\\' {
        inString := !inString;
      } else if !inString {
        if s[p] == open { depth := depth + 1; }
        else if s[p] == close { depth := depth - 1; }
      }
      p := p + 1;
    }
    var length := if p >= resultSize then resultSize - 1 else p;
    result := s[..length];
  }

  /* ---------- bracketed text ---------- */

  /** A character of a string literal, or a backslash and the character it escapes. */
  datatype Unit = Char(c: char) | Escape(c: char)

  predicate ValidUnit(u: Unit) {
    match u
    case Char(c) => c != '"' && c != '\\' && c != '\0'
    case Escape(c) => c != '\0'
  }

  function Spell(units: seq<Unit>): string {
    if units == [] then ""
    else Spell(units[..|units| - 1]) + SpellUnit(units[|units| - 1])
  }

  function SpellUnit(u: Unit): string {
    match u
    case Char(c) => [c]
    case Escape(c) => ['\\', c]
  }

  /** The contents that mislead the scan: the closing quote follows the backslash of an escaped one. */
  predicate Misleads(units: seq<Unit>) {
    units != [] && units[|units| - 1] == Escape('\\')
  }

  predicate ValidUnits(units: seq<Unit>) {
    forall i :: 0 <= i < |units| ==> ValidUnit(units[i])
  }

  /** Text made of plain characters, string literals and nested brackets of both kinds. */
  datatype Piece = Plain(c: char) | Quoted(units: seq<Unit>) | Nested(open: char, inner: seq<Piece>)

  predicate PlainChar(c: char) {
    c !in {'"', '\\', '\0', '{', '}', '[', ']'}
  }

  ghost predicate Good(pieces: seq<Piece>) {
    forall i :: 0 <= i < |pieces| ==> GoodPiece(pieces[i])
  }

  ghost predicate GoodPiece(p: Piece) {
    match p
    case Plain(c) => PlainChar(c)
    case Quoted(units) => ValidUnits(units)
    case Nested(open, inner) => IsOpen(open) && forall i :: 0 <= i < |inner| ==> GoodPiece(inner[i])
  }

  function Text(pieces: seq<Piece>): string
    decreases pieces
  {
    if pieces == [] then "" else TextOf(pieces[0]) + Text(pieces[1..])
  }

  function TextOf(p: Piece): (t: string)
    ensures t != ""
    decreases p
  {
    match p
    case Plain(c) => [c]
    case Quoted(units) => "\"" + Spell(units) + "\""
    case Nested(open, inner) => [open] + Text(inner) + [Closer(open)]
  }

  /* ---------- what the scan sees ---------- */

  function Delta(open: char, c: char): int {
    if c == open then 1 else if c == Closer(open) then -1 else 0
  }

  /** Opening brackets of the kind less closing ones. */
  function Net(open: char, v: string): int {
    if v == "" then 0 else Delta(open, v[0]) + Net(open, v[1..])
  }

  /** Counting the brackets of `v` from depth `d` never reaches zero. */
  predicate Survives(open: char, d: int, v: string)
    decreases v
  {
    v == "" || (d + Delta(open, v[0]) >= 1 && Survives(open, d + Delta(open, v[0]), v[1..]))
  }

  /** How many string literals mislead the scan. */
  function MisledBy(p: Piece): nat
    decreases p
  {
    match p
    case Plain(c) => 0
    case Quoted(units) => if Misleads(units) then 1 else 0
    case Nested(open, inner) => Misled(inner)
  }

  function Misled(pieces: seq<Piece>): nat
    decreases pieces
  {
    if pieces == [] then 0 else MisledBy(pieces[0]) + Misled(pieces[1..])
  }

  /** Every misleading literal swaps inside and outside. */
  predicate Flip(flipped: bool, n: nat) {
    flipped != (n % 2 == 1)
  }

  /** The text the scan takes to be outside string literals: what is outside while inside and outside are not
      swapped, and the contents of the literals while they are. */
  function View(pieces: seq<Piece>, flipped: bool): string
    decreases pieces
  {
    if pieces == [] then "" else ViewOf(pieces[0], flipped) + View(pieces[1..], Flip(flipped, MisledBy(pieces[0])))
  }

  function ViewOf(p: Piece, flipped: bool): string
    decreases p
  {
    match p
    case Plain(c) => OutsideOnly([c], flipped)
    case Quoted(units) => OutsideOnly(Spell(units), !flipped)
    case Nested(open, inner) =>
      OutsideOnly([open], flipped) + View(inner, flipped) + OutsideOnly([Closer(open)], Flip(flipped, Misled(inner)))
  }

  function OutsideOnly(t: string, inside: bool): string {
    if inside then "" else t
  }

  /* ---------- counting ---------- */

  lemma {:induction false} CountConcat(open: char, d: int, a: string, b: string)
    ensures Net(open, a + b) == Net(open, a) + Net(open, b)
    ensures Survives(open, d, a + b) <==> Survives(open, d, a) && Survives(open, d + Net(open, a), b)
    decreases a
  {
    if a == "" {
      assert a + b == b;
    } else {
      assert (a + b)[1..] == a[1..] + b;
      CountConcat(open, d + Delta(open, a[0]), a[1..], b);
    }
  }

  lemma {:induction false} SurvivesPositive(open: char, d: int, v: string)
    requires d >= 1 && Survives(open, d, v)
    ensures d + Net(open, v) >= 1
    decreases v
  {
    if v != "" {
      SurvivesPositive(open, d + Delta(open, v[0]), v[1..]);
    }
  }

  /* ---------- the scan walks the view ---------- */

  /** `t` stands at position `p` of `s`. */
  predicate At(s: string, p: nat, t: string) {
    p + |t| <= |s| && s[p..p + |t|] == t
  }

  lemma AtSplit(s: string, p: nat, a: string, b: string)
    requires At(s, p, a + b)
    ensures At(s, p, a) && At(s, p + |a|, b)
  {
    assert s[p..p + |a|] == (a + b)[..|a|] == a;
    assert s[p + |a|..p + |a + b|] == (a + b)[|a|..] == b;
  }

  /** From `p` to `e` the scan counts the brackets of `v`: it gets to `e`, unless counting ends it before. */
  ghost predicate Walks(open: char, s: string, p: nat, e: nat, st: State, v: string, after: bool) {
    && 1 <= p <= e <= |s|
    && if Survives(open, st.depth, v)
       then ScanFrom(open, s, p, st) == ScanFrom(open, s, e, State(st.depth + Net(open, v), after))
       else ScanFrom(open, s, p, st) <= e
  }

  lemma WalkOn(open: char, s: string, p: nat, q: nat, e: nat, st: State, v: string, f: bool, w: string, g: bool)
    requires Walks(open, s, p, q, st, v, f) && q <= e <= |s|
    requires Survives(open, st.depth, v) ==> Walks(open, s, q, e, State(st.depth + Net(open, v), f), w, g)
    ensures Walks(open, s, p, e, st, v + w, g)
  {
    hide ScanFrom, Survives, Net;
    CountConcat(open, st.depth, v, w);
  }

  predicate Toggles(s: string, p: nat)
    requires 1 <= p < |s|
  {
    s[p] == '"' && s[p - 1] != '\\'
  }

  /** One character. */
  lemma WalkChar(open: char, s: string, p: nat, d: int, inside: bool)
    requires 1 <= p < |s| && s[p] != '\0' && d >= 1
    ensures Toggles(s, p) ==> Walks(open, s, p, p + 1, State(d, inside), "", !inside)
    ensures !Toggles(s, p) ==> Walks(open, s, p, p + 1, State(d, inside), OutsideOnly([s[p]], inside), inside)
  {
    ScanStep(open, s, p, State(d, inside));
    CountOne(open, d, s[p]);
    if d + Delta(open, s[p]) < 1 {
      ScanStopped(open, s, p + 1, State(d - 1, inside));
    }
    hide ScanFrom, Survives, Net;
    CountNil(open, d);
  }

  lemma ScanStep(open: char, s: string, p: nat, st: State)
    requires 1 <= p < |s| && s[p] != '\0' && st.depth >= 1
    ensures ScanFrom(open, s, p, st) == ScanFrom(open, s, p + 1, Step(open, st, s[p - 1], s[p]))
  {
  }

  lemma ScanStopped(open: char, s: string, p: nat, st: State)
    requires 1 <= p <= |s| && (p == |s| || s[p] == '\0' || st.depth <= 0)
    ensures ScanFrom(open, s, p, st) == p
  {
  }

  lemma CountNil(open: char, d: int)
    ensures Survives(open, d, "") && Net(open, "") == 0
  {
  }

  lemma CountOne(open: char, d: int, c: char)
    ensures Survives(open, d, [c]) <==> d + Delta(open, c) >= 1
    ensures Net(open, [c]) == Delta(open, c)
  {
  }

  lemma {:induction false} WalkRun(open: char, s: string, p: nat, q: nat, d: int, inside: bool)
    requires 1 <= p <= q <= |s| && d >= 1
    requires forall i :: p <= i < q ==> s[i] != '\0' && !Toggles(s, i)
    ensures Walks(open, s, p, q, State(d, inside), OutsideOnly(s[p..q], inside), inside)
    decreases q - p
  {
    if p < q {
      hide ScanFrom;
      var v := OutsideOnly([s[p]], inside);
      WalkChar(open, s, p, d, inside);
      if Survives(open, d, v) {
        SurvivesPositive(open, d, v);
        WalkRun(open, s, p + 1, q, d + Net(open, v), inside);
      }
      WalkOn(open, s, p, p + 1, q, State(d, inside), v, inside, OutsideOnly(s[p + 1..q], inside), inside);
      SliceFirst(s, p, q);
    }
  }

  lemma SliceFirst(s: string, p: nat, q: nat)
    requires p < q <= |s|
    ensures [s[p]] + s[p + 1..q] == s[p..q]
  {
  }

  /** The character is not NUL, and a quote only after a backslash. */
  predicate CleanAt(t: string, i: nat)
    requires i < |t|
  {
    t[i] != '\0' && (t[i] == '"' ==> i > 0 && t[i - 1] == '\\')
  }

  predicate Clean(t: string) {
    forall i :: 0 <= i < |t| ==> CleanAt(t, i)
  }

  lemma CleanConcat(a: string, b: string)
    requires Clean(a) && Clean(b)
    ensures Clean(a + b)
  {
    forall i | 0 <= i < |a + b|
      ensures CleanAt(a + b, i)
    {
      assert if i < |a| then CleanAt(a, i) else CleanAt(b, i - |a|);
    }
  }

  /** Inside a literal every quote follows a backslash; only a misleading one ends in a backslash. */
  lemma {:induction false} SpellClean(units: seq<Unit>)
    requires ValidUnits(units)
    ensures var t := Spell(units);
            && Clean(t) && (units == [] <==> t == "") && (t != "" ==> (t[|t| - 1] == '\\' <==> Misleads(units)))
  {
    if units != [] {
      var n := |units| - 1;
      SpellClean(units[..n]);
      var front, last, t := Spell(units[..n]), SpellUnit(units[n]), Spell(units);
      assert ValidUnit(units[n]) && t == front + last;
      hide Spell;
      CleanConcat(front, last);
    }
  }

  lemma WalkQuoted(open: char, s: string, p: nat, units: seq<Unit>, d: int, f: bool)
    requires 1 <= p && At(s, p, TextOf(Quoted(units))) && s[p - 1] != '\\' && d >= 1 && IsOpen(open)
    requires ValidUnits(units)
    ensures Walks(open, s, p, p + |TextOf(Quoted(units))|, State(d, f), ViewOf(Quoted(units), f),
                  Flip(f, MisledBy(Quoted(units))))
  {
    hide Spell, Walks, Clean;
    SpellClean(units);
    QuotedAt(s, p, Spell(units));
    WalkLiteral(open, s, p, p + 1 + |Spell(units)|, d, f);
  }

  lemma WalkLiteral(open: char, s: string, p: nat, q: nat, d: int, f: bool)
    requires 1 <= p < q < |s| && d >= 1 && IsOpen(open) && s[p] == '"' == s[q] && s[p - 1] != '\\'
    requires forall i :: p + 1 <= i < q ==> s[i] != '\0' && !Toggles(s, i)
    ensures Walks(open, s, p, q + 1, State(d, f), OutsideOnly(s[p + 1..q], !f), if s[q - 1] == '\\' then !f else f)
  {
    hide ScanFrom, Survives, Net;
    var v := OutsideOnly(s[p + 1..q], !f);
    WalkChar(open, s, p, d, f);
    CountNil(open, d);
    WalkRun(open, s, p + 1, q, d, !f);
    if Survives(open, d, v) {
      SurvivesPositive(open, d, v);
      WalkClosing(open, s, q, d + Net(open, v), f);
      CountNil(open, d + Net(open, v));
    }
  }

  /** The closing quote of a literal: it toggles unless a backslash is before it, and counts for nothing. */
  lemma WalkClosing(open: char, s: string, q: nat, d: int, f: bool)
    requires 1 <= q < |s| && s[q] == '"' && d >= 1 && IsOpen(open)
    ensures Walks(open, s, q, q + 1, State(d, !f), "", if s[q - 1] == '\\' then !f else f)
  {
    hide ScanFrom, Survives, Net;
    WalkChar(open, s, q, d, !f);
    QuoteCountsNot(open, d);
    CountNil(open, d);
  }

  lemma QuoteCountsNot(open: char, d: int)
    requires IsOpen(open) && d >= 1
    ensures Survives(open, d, "\"") && Net(open, "\"") == 0
  {
  }

  lemma QuotedAt(s: string, p: nat, body: string)
    requires 1 <= p && At(s, p, "\"" + body + "\"") && Clean(body)
    ensures p + 2 + |body| <= |s| && s[p] == '"' && s[p + 1 + |body|] == '"'
    ensures s[p + 1..p + 1 + |body|] == body
    ensures forall i :: p + 1 <= i < p + 1 + |body| ==> s[i] != '\0' && !Toggles(s, i)
    ensures s[p + |body|] == if body == "" then '"' else body[|body| - 1]
  {
    var q := p + 1 + |body|;
    AtSplit(s, p, "\"" + body, "\"");
    AtSplit(s, p, "\"", body);
    assert s[p] == s[p..p + 1][0] && s[q] == s[q..q + 1][0];
    assert forall i :: p + 1 <= i < q ==> s[i] == s[p + 1..q][i - p - 1];
    forall i | p + 1 <= i < q
      ensures s[i] != '\0' && !Toggles(s, i)
    {
      assert CleanAt(body, i - p - 1);
    }
  }

  lemma {:induction false} WalkPiece(open: char, s: string, p: nat, piece: Piece, d: int, f: bool)
    requires 1 <= p && At(s, p, TextOf(piece)) && s[p - 1] != '\\' && d >= 1 && IsOpen(open) && GoodPiece(piece)
    ensures Walks(open, s, p, p + |TextOf(piece)|, State(d, f), ViewOf(piece, f), Flip(f, MisledBy(piece)))
    decreases piece
  {
    match piece
    case Plain(c) =>
      hide ScanFrom, Survives, Net;
      assert s[p] == s[p..p + 1][0];
      WalkChar(open, s, p, d, f);
    case Quoted(units) =>
      hide *;
      WalkQuoted(open, s, p, units, d, f);
    case Nested(o, inner) =>
      hide ScanFrom, Survives, Net, Walks, Text, View, Misled;
      var body, v := Text(inner), OutsideOnly([o], f);
      NestedAt(s, p, o, body);
      hide At;
      WalkChar(open, s, p, d, f);
      if Survives(open, d, v) {
        SurvivesPositive(open, d, v);
        WalkPieces(open, s, p + 1, inner, d + Net(open, v), f);
      }
      WalkInner(open, s, p, o, body, d, f, View(inner, f), Flip(f, Misled(inner)));
  }

  lemma NestedAt(s: string, p: nat, o: char, body: string)
    requires At(s, p, [o] + body + [Closer(o)])
    ensures At(s, p + 1, body) && p + 2 + |body| <= |s| && s[p] == o && s[p + 1 + |body|] == Closer(o)
  {
    var q := p + 1 + |body|;
    AtSplit(s, p, [o] + body, [Closer(o)]);
    AtSplit(s, p, [o], body);
    assert s[p] == s[p..p + 1][0] && s[q] == s[q..q + 1][0];
  }

  /** From an opening bracket over the text inside to the closing one. */
  lemma WalkInner(open: char, s: string, p: nat, o: char, body: string, d: int, f: bool, w: string, g: bool)
    requires 1 <= p && p + 2 + |body| <= |s| && s[p] == o && s[p + 1 + |body|] == Closer(o) && IsOpen(o) && d >= 1
    requires Walks(open, s, p, p + 1, State(d, f), OutsideOnly([o], f), f)
    requires Survives(open, d, OutsideOnly([o], f)) ==>
               Walks(open, s, p + 1, p + 1 + |body|, State(d + Net(open, OutsideOnly([o], f)), f), w, g)
    ensures Walks(open, s, p, p + 2 + |body|, State(d, f), OutsideOnly([o], f) + w + OutsideOnly([Closer(o)], g), g)
  {
    hide ScanFrom, Survives, Net, Walks;
    var q, v, c := p + 1 + |body|, OutsideOnly([o], f) + w, OutsideOnly([Closer(o)], g);
    WalkOn(open, s, p, p + 1, q, State(d, f), OutsideOnly([o], f), f, w, g);
    if Survives(open, d, v) {
      SurvivesPositive(open, d, v);
      WalkChar(open, s, q, d + Net(open, v), g);
    }
    WalkOn(open, s, p, q, q + 1, State(d, f), v, g, c, g);
  }

  lemma LastPlain(s: string, p: nat, piece: Piece)
    requires At(s, p, TextOf(piece)) && GoodPiece(piece)
    ensures s[p + |TextOf(piece)| - 1] != '\\'
  {
    var t := TextOf(piece);
    assert s[p + |t| - 1] == s[p..p + |t|][|t| - 1];
  }

  /** Over bracketed text the scan counts the brackets of what it sees. */
  lemma {:induction false} WalkPieces(open: char, s: string, p: nat, pieces: seq<Piece>, d: int, f: bool)
    requires 1 <= p && At(s, p, Text(pieces)) && s[p - 1] != '\\' && d >= 1 && IsOpen(open) && Good(pieces)
    ensures Walks(open, s, p, p + |Text(pieces)|, State(d, f), View(pieces, f), Flip(f, Misled(pieces)))
    decreases pieces
  {
    hide *;
    AtEnd(s, p, Text(pieces));
    if pieces == [] {
      WalkNothing(open, s, p, State(d, f));
    } else {
      var head, tail, v := TextOf(pieces[0]), Text(pieces[1..]), ViewOf(pieces[0], f);
      var g := Flip(f, MisledBy(pieces[0]));
      HeadAndTail(pieces, f);
      GoodParts(pieces);
      AtSplit(s, p, head, tail);
      LastPlain(s, p, pieces[0]);
      WalkPiece(open, s, p, pieces[0], d, f);
      if Survives(open, d, v) {
        SurvivesPositive(open, d, v);
        WalkPieces(open, s, p + |head|, pieces[1..], d + Net(open, v), g);
      }
      WalkOn(open, s, p, p + |head|, p + |Text(pieces)|, State(d, f), v, g,
             View(pieces[1..], g), Flip(f, Misled(pieces)));
    }
  }

  lemma WalkNothing(open: char, s: string, p: nat, st: State)
    requires 1 <= p <= |s|
    ensures Text([]) == "" && Walks(open, s, p, p, st, View([], st.inString), Flip(st.inString, Misled([])))
  {
  }

  lemma GoodParts(pieces: seq<Piece>)
    requires Good(pieces) && pieces != []
    ensures GoodPiece(pieces[0]) && Good(pieces[1..])
  {
  }

  lemma FlipTwice(f: bool, a: nat, b: nat)
    ensures Flip(f, a + b) == Flip(Flip(f, a), b)
  {
  }

  lemma AtEnd(s: string, p: nat, t: string)
    requires At(s, p, t)
    ensures p + |t| <= |s|
  {
  }

  lemma HeadAndTail(pieces: seq<Piece>, f: bool)
    requires pieces != []
    ensures Text(pieces) == TextOf(pieces[0]) + Text(pieces[1..])
    ensures View(pieces, f) == ViewOf(pieces[0], f) + View(pieces[1..], Flip(f, MisledBy(pieces[0])))
    ensures Misled(pieces) == MisledBy(pieces[0]) + Misled(pieces[1..])
    ensures Flip(f, Misled(pieces)) == Flip(Flip(f, MisledBy(pieces[0])), Misled(pieces[1..]))
  {
    hide TextOf, ViewOf, MisledBy, Flip, Text, View;
    TextAndView(pieces, f);
    FlipTwice(f, MisledBy(pieces[0]), Misled(pieces[1..]));
  }

  lemma TextAndView(pieces: seq<Piece>, f: bool)
    requires pieces != []
    ensures Text(pieces) == TextOf(pieces[0]) + Text(pieces[1..])
    ensures View(pieces, f) == ViewOf(pieces[0], f) + View(pieces[1..], Flip(f, MisledBy(pieces[0])))
  {
    hide TextOf, ViewOf, MisledBy, Flip;
  }

  /* ---------- when the scan is exact ---------- */

  /** Nothing follows that the scan could go on to. */
  predicate NothingFollows(rest: string) {
    rest == "" || rest[0] == '\0'
  }

  /** The scan of bracketed text stops exactly at its closing bracket if and only if counting what it sees inside
      never gets to zero and, unless nothing follows anyway, ends where it began with inside and outside not swapped. */
  lemma ScanExactIff(open: char, inner: seq<Piece>, rest: string)
    requires IsOpen(open) && Good(inner)
    ensures var t, v := TextOf(Nested(open, inner)), View(inner, false);
            ScanEnd(t + rest) == |t| <==>
            Survives(open, 1, v) && (NothingFollows(rest) || (Misled(inner) % 2 == 0 && Net(open, v) == 0))
  {
    hide ScanFrom, Survives, Net, View, Misled, Good;
    var body, v, g := Text(inner), View(inner, false), Flip(false, Misled(inner));
    var t := TextOf(Nested(open, inner));
    var s, q := t + rest, 1 + |body|;
    assert s == [open] + body + [Closer(open)] + rest;
    assert s[1..q] == body && s[q] == Closer(open);
    WalkPieces(open, s, 1, inner, 1, false);
    if Survives(open, 1, v) {
      SurvivesPositive(open, 1, v);
      ScanStep(open, s, q, State(1 + Net(open, v), g));
      ScanGoesOn(open, s, q + 1, if g then State(1 + Net(open, v), true) else State(Net(open, v), false));
    }
  }

  lemma ScanGoesOn(open: char, s: string, p: nat, st: State)
    requires 1 <= p <= |s|
    ensures ScanFrom(open, s, p, st) == p <==> p == |s| || s[p] == '\0' || st.depth <= 0
  {
  }

  /** Without misleading literals the scan sees exactly the brackets of the structure, which balance. */
  lemma {:induction false} StructureBalances(open: char, d: int, pieces: seq<Piece>)
    requires Good(pieces) && Misled(pieces) == 0 && d >= 1 && IsOpen(open)
    ensures Survives(open, d, View(pieces, false)) && Net(open, View(pieces, false)) == 0
    decreases pieces
  {
    if pieces != [] {
      hide *;
      var v := ViewOf(pieces[0], false);
      HeadAndTail(pieces, false);
      GoodParts(pieces);
      NoFlip(false);
      PieceBalances(open, d, pieces[0]);
      StructureBalances(open, d, pieces[1..]);
      CountConcat(open, d, v, View(pieces[1..], false));
    }
  }

  lemma {:induction false} PieceBalances(open: char, d: int, piece: Piece)
    requires GoodPiece(piece) && MisledBy(piece) == 0 && d >= 1 && IsOpen(open)
    ensures Survives(open, d, ViewOf(piece, false)) && Net(open, ViewOf(piece, false)) == 0
    decreases piece
  {
    match piece
    case Plain(c) =>
      CountOne(open, d, c);
    case Quoted(units) =>
      CountNil(open, d);
    case Nested(o, inner) =>
      hide Survives, Net, View, Misled;
      var v, e := View(inner, false), d + Delta(open, o);
      CountOne(open, d, o);
      CountOne(open, e, Closer(o));
      StructureBalances(open, e, inner);
      CountConcat(open, d, [o], v);
      CountConcat(open, d, [o] + v, [Closer(o)]);
      NoFlip(false);
  }

  lemma NoFlip(f: bool)
    ensures Flip(f, 0) == f
  {
  }

  /** The scan sees nothing that is not there. */
  lemma {:induction false} ViewInText(pieces: seq<Piece>, f: bool, c: char)
    requires c in View(pieces, f)
    ensures c in Text(pieces)
    decreases pieces
  {
    if pieces != [] {
      hide TextOf, ViewOf, Flip, MisledBy;
      HeadAndTail(pieces, f);
      if c in ViewOf(pieces[0], f) {
        ViewOfInText(pieces[0], f, c);
      } else {
        ViewInText(pieces[1..], Flip(f, MisledBy(pieces[0])), c);
      }
    }
  }

  lemma {:induction false} ViewOfInText(piece: Piece, f: bool, c: char)
    requires c in ViewOf(piece, f)
    ensures c in TextOf(piece)
    decreases piece
  {
    match piece
    case Plain(_) =>
    case Quoted(_) =>
    case Nested(o, inner) =>
      if c in View(inner, f) {
        ViewInText(inner, f, c);
      }
  }

  predicate FreeOf(open: char, t: string) {
    open !in t && Closer(open) !in t
  }

  lemma {:induction false} NothingCounts(open: char, d: int, v: string)
    requires d >= 1 && FreeOf(open, v)
    ensures Survives(open, d, v) && Net(open, v) == 0
  {
    if v != "" {
      assert v[0] in v && forall c :: c in v[1..] ==> c in v;
      NothingCounts(open, d, v[1..]);
    }
  }
}
