/** The incremental header reader of an HTTP/1.1 connection: it searches for the blank line from
    three bytes before the end of what it had seen, and validates the path early. What it decides
    does not depend on how the bytes arrive (sections 2.1 and 2.2 of RFC 9112). */
module HeaderReader {
  import opened Wrappers
  import opened Chunks
  import opened Paths

  /* ---------- the blank line ---------- */

  predicate BlankAt(s: string, i: nat) {
    i + 4 <= |s| && s[i] == '\r' && s[i + 1] == '\n' && s[i + 2] == '\r' && s[i + 3] == '\n'
  }

  /** The first blank line at or after position `i`. */
  function FindBlank(s: string, i: nat): (r: Option<nat>)
    ensures r.Some? ==> i <= r.value && BlankAt(s, r.value) && forall j :: i <= j < r.value ==> !BlankAt(s, j)
    ensures r.None? ==> forall j :: i <= j ==> !BlankAt(s, j)
    decreases |s| - i
  {
    if i + 4 > |s| then None
    else if BlankAt(s, i) then Some(i)
    else FindBlank(s, i + 1)
  }

  method Search(s: string, from: nat) returns (r: Option<nat>)
    ensures r == FindBlank(s, from)
  {
    var i := from;
    while i + 4 <= |s|
      invariant from <= i && FindBlank(s, from) == FindBlank(s, i)
      decreases |s| - i
    {
      if BlankAt(s, i) { return Some(i); }
      i := i + 1;
    }
    return None;
  }

  function Resume(length: nat): nat {
    if length > 3 then length - 3 else 0
  }

  /** If the data so far holds no blank line, searching the longer data from three bytes back finds
      what a search from the start finds. */
  lemma ResumeFinds(seen: string, more: string)
    requires FindBlank(seen, 0).None?
    ensures FindBlank(seen + more, Resume(|seen|)) == FindBlank(seen + more, 0)
  {
    var s := seen + more;
    forall j | 0 <= j < Resume(|seen|) ensures !BlankAt(s, j) {
      assert !BlankAt(seen, j);
    }
    var a, b := FindBlank(s, Resume(|seen|)), FindBlank(s, 0);
    if a.Some? {
      assert BlankAt(s, a.value);
      assert b.Some? && b.value <= a.value;
    }
  }

  /** A blank line found in some data is the first one of all longer data. */
  lemma BlankStays(seen: string, more: string)
    requires FindBlank(seen, 0).Some?
    ensures FindBlank(seen + more, 0) == FindBlank(seen, 0)
  {
    var s, p := seen + more, FindBlank(seen, 0).value;
    assert BlankAt(s, p);
    forall j | 0 <= j < p ensures !BlankAt(s, j) {
      assert BlankAt(s, j) ==> BlankAt(seen, j);
    }
    var q := FindBlank(s, 0);
    assert q.Some? && q.value <= p;
  }

  /* ---------- early validation ---------- */

  lemma ContentExtends(p: string, q: string)
    requires !ContentOk(p)
    ensures !ContentOk(p + q)
  {
  }

  lemma SpaceStays(p: string, q: string, i: nat)
    requires i <= |p| && FirstSpace(p, i) < |p|
    ensures FirstSpace(p + q, i) == FirstSpace(p, i)
  {
    var e := FirstSpace(p, i);
    assert (p + q)[e] == ' ' && forall j :: i <= j < e ==> (p + q)[j] != ' ';
  }

  lemma EndStays(p: string, q: string, i: nat)
    requires i <= |p|
    ensures var e := PathEnd(p, i); if e < |p| then PathEnd(p + q, i) == e else PathEnd(p + q, i) >= e
  {
    var e, f := PathEnd(p, i), PathEnd(p + q, i);
    assert forall j :: i <= j < e ==> (p + q)[j] == p[j];
    if e < |p| { assert (p + q)[e] == p[e]; }
  }

  lemma SliceExtends(p: string, q: string, i: nat, e: nat, f: nat)
    requires i <= e <= |p| && e <= f <= |p + q|
    ensures (p + q)[i..f] == p[i..e] + (p + q)[e..f]
  {
  }

  /** Data that is refused is refused for good: every longer data is refused too. */
  lemma RefusalStays(p: string, q: string)
    requires !EarlyOk(p)
    ensures !EarlyOk(p + q)
  {
    hide ContentOk;
    EmptyOk();
    var s := p + q;
    var start := ContentStart(p);
    assert start == |p| ==> VisibleContent(p) == "";
    if start < |p| {
      SpaceStays(p, q, 0);
      assert ContentStart(s) == start;
      EndStays(p, q, start);
      var e, f := PathEnd(p, start), PathEnd(s, start);
      SliceExtends(p, q, start, e, f);
      ContentExtends(VisibleContent(p), s[e..f]);
    }
  }

  /* ---------- the reader ---------- */

  /** Headers still incomplete, the request refused, or headers of the given length accepted. */
  datatype Outcome = Waiting | Refused | Complete(length: nat)

  /** The decision on data that is all there. */
  function OneShot(s: string): Outcome {
    match FindBlank(s, 0)
    case None => if EarlyOk(s) then Waiting else Refused
    case Some(p) => if EarlyOk(s[..p + 4]) then Complete(p + 4) else Refused
  }

  ghost predicate IsBlankLine(s: string, i: nat) {
    i + 4 <= |s| && s[i..i + 4] == "\r\n\r\n"
  }

  /** The first blank line of the data ends at `n`. */
  ghost predicate BlankLineEnds(s: string, n: nat) {
    n >= 4 && IsBlankLine(s, n - 4) && forall i :: 0 <= i < n - 4 ==> !IsBlankLine(s, i)
  }

  lemma BlankIs(s: string, i: nat)
    ensures BlankAt(s, i) <==> IsBlankLine(s, i)
  {
    if i + 4 <= |s| { assert s[i..i + 4] == [s[i], s[i + 1], s[i + 2], s[i + 3]]; }
  }

  lemma FoundIs(s: string, n: nat)
    requires 4 <= n
    ensures FindBlank(s, 0) == Some(n - 4) <==> BlankLineEnds(s, n)
  {
    hide FindBlank, BlankAt, IsBlankLine;
    forall i: nat ensures BlankAt(s, i) <==> IsBlankLine(s, i) { BlankIs(s, i); }
    if BlankLineEnds(s, n) {
      assert BlankAt(s, n - 4);
    }
  }

  /** What is decided on data: complete exactly at the end of its first blank line, if the path passes; refused if the
      path that is visible up to there, or up to the end without one, does not; and otherwise more is needed. */
  lemma DecisionIs(s: string)
    ensures forall n: nat :: OneShot(s) == Complete(n) <==> BlankLineEnds(s, n) && EarlyOk(s[..n])
    ensures OneShot(s) == Waiting <==> EarlyOk(s) && forall i: nat :: !IsBlankLine(s, i)
  {
    hide FindBlank, EarlyOk, IsBlankLine;
    forall n | 4 <= n ensures FindBlank(s, 0) == Some(n - 4) <==> BlankLineEnds(s, n) { FoundIs(s, n); }
    forall i: nat ensures BlankAt(s, i) <==> IsBlankLine(s, i) { BlankIs(s, i); }
    if FindBlank(s, 0).Some? {
      assert IsBlankLine(s, FindBlank(s, 0).value);
      assert BlankLineEnds(s, FindBlank(s, 0).value + 4);
    }
  }

  /** Once data is decided, longer data is decided the same way. */
  lemma DecisionStays(p: string, q: string)
    requires !OneShot(p).Waiting?
    ensures OneShot(p + q) == OneShot(p)
  {
    hide EarlyOk, FindBlank;
    if FindBlank(p, 0).Some? {
      BlankStays(p, q);
      var n := FindBlank(p, 0).value + 4;
      assert (p + q)[..n] == p[..n];
    } else {
      RefusalStays(p, q);
      var r := FindBlank(p + q, 0);
      if r.Some? {
        var n := r.value + 4;
        assert !BlankAt(p, r.value);
        assert (p + q)[..n] == p + q[..n - |p|];
        RefusalStays(p, q[..n - |p|]);
      }
    }
  }

  class Reader {
    var buffer: string
    var scanned: nat
    var outcome: Outcome

    ghost predicate Valid()
      reads this
    {
      && outcome == OneShot(buffer)
      && (outcome.Waiting? ==> scanned == Resume(|buffer|))
    }

    constructor ()
      ensures Valid() && buffer == "" && outcome.Waiting?
    {
      buffer, scanned, outcome := "", 0, Waiting;
    }

    /** The read callback in the header state. */
    method OnRead(chunk: string)
      requires Valid() && outcome.Waiting?
      modifies this
      ensures Valid() && buffer == old(buffer) + chunk
    {
      hide EarlyOk, FindBlank;
      ResumeFinds(buffer, chunk);
      buffer := buffer + chunk;
      var found := Search(buffer, scanned);
      if found.None? {
        scanned := if |buffer| > 3 then |buffer| - 3 else 0;
        var ok := true;
        if |buffer| > 0 {
          ok := ValidatePathEarly(buffer);
        } else {
          EmptyEarlyOk(buffer);
        }
        outcome := if ok then Waiting else Refused;
      } else {
        var length := found.value + 4;
        var ok := ValidatePathEarly(buffer[..length]);
        outcome := if ok then Complete(length) else Refused;
      }
    }
  }

  lemma EmptyEarlyOk(s: string)
    requires |s| == 0
    ensures EarlyOk(s)
  {
  }

  /** For every way the bytes are cut into chunks, the outcome is the one of the bytes in one piece. */
  method ReadAll(chunks: seq<string>) returns (outcome: Outcome)
    ensures outcome == OneShot(Flatten(chunks))
    ensures var s := Flatten(chunks);
            && (forall n: nat :: outcome == Complete(n) <==> BlankLineEnds(s, n) && EarlyOk(s[..n]))
            && (outcome == Waiting <==> EarlyOk(s) && forall i: nat :: !IsBlankLine(s, i))
  {
    hide OneShot, BlankLineEnds, IsBlankLine;
    DecisionIs(Flatten(chunks));
    var reader := new Reader();
    for k := 0 to |chunks|
      invariant reader.Valid()
      invariant if reader.outcome.Waiting? then reader.buffer == Flatten(chunks[..k])
                else reader.outcome == OneShot(Flatten(chunks[..k]))
    {
      FlattenSnoc(chunks, k);
      if reader.outcome.Waiting? {
        reader.OnRead(chunks[k]);
      } else {
        DecisionStays(Flatten(chunks[..k]), chunks[k]);
      }
    }
    assert chunks[..|chunks|] == chunks;
    outcome := reader.outcome;
  }
}
