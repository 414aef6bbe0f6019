/** Request paths: the hex table, the router and the two validators that look at a path before it
    is routed. Text is a sequence of byte-sized characters. */
module Paths {

  /* ---------- the hex table ---------- */

  /** The lookup table, in rows of sixteen; all rows from 0x70 on are zero. */
  function HexRow(row: nat): (r: seq<int>)
    ensures |r| == 16
  {
    match row
    case 3 => [1, 1, 1, 1, 1, 1, 1, 1, 1, 1, 0, 0, 0, 0, 0, 0]
    case 4 => [0, 1, 1, 1, 1, 1, 1, 0, 0, 0, 0, 0, 0, 0, 0, 0]
    case 6 => [0, 1, 1, 1, 1, 1, 1, 0, 0, 0, 0, 0, 0, 0, 0, 0]
    case _ => [0, 0, 0, 0, 0, 0, 0, 0, 0, 0, 0, 0, 0, 0, 0, 0]
  }

  predicate IsHexChar(c: char) {
    HexRow(c as int / 16)[c as int % 16] == 1
  }

  /** The table marks the digits and the letters A to F of both cases, and nothing else. */
  lemma HexTable(c: char)
    ensures IsHexChar(c) <==> '0' <= c <= '9' || 'A' <= c <= 'F' || 'a' <= c <= 'f'
  {
    var row, col := c as int / 16, c as int % 16;
    assert c as int == 16 * row + col;
    if row == 3 || row == 4 || row == 6 {
      assert col == 0 || col == 1 || col == 2 || col == 3 || col == 4 || col == 5 || col == 6 || col == 7
          || col == 8 || col == 9 || col == 10 || col == 11 || col == 12 || col == 13 || col == 14 || col == 15;
    }
  }

  predicate AllHex(s: string) {
    forall i :: 0 <= i < |s| ==> IsHexChar(s[i])
  }

  method IsAllHex(s: string) returns (ok: bool)
    ensures ok <==> AllHex(s)
  {
    hide IsHexChar;
    for i := 0 to |s|
      invariant forall j :: 0 <= j < i ==> IsHexChar(s[j])
    {
      if !IsHexChar(s[i]) { return false; }
    }
    return true;
  }

  /* ---------- the router ---------- */

  datatype Route =
    | Home | Health | Ready | Version | Alive | Metrics | Docs | Status | Logos | AcmeChallenge
    | TxResult | Broadcast | NotFound

  const ACME_PREFIX := ".well-known/acme-challenge/"

  const TXID_HEX_LENGTH := 64
  const MIN_TX_HEX_LENGTH := 164

  predicate StartsWith(s: string, prefix: string) {
    |prefix| <= |s| && s[..|prefix|] == prefix
  }

  function RouteContent(content: string): Route {
    if content == "" then Home
    else if content == "health" then Health
    else if content == "ready" then Ready
    else if content == "version" then Version
    else if content == "alive" then Alive
    else if content == "metrics" then Metrics
    else if content == "docs" then Docs
    else if content == "status" then Status
    else if content == "logos" then Logos
    else if |content| > 27 && StartsWith(content, ACME_PREFIX) then AcmeChallenge
    else if |content| > 3 && StartsWith(content, "tx/") then
      if |content| - 3 == TXID_HEX_LENGTH && AllHex(content[3..]) then TxResult else NotFound
    else if !AllHex(content) then NotFound
    else if |content| % 2 != 0 then NotFound
    else if |content| == TXID_HEX_LENGTH then TxResult
    else if |content| >= MIN_TX_HEX_LENGTH then Broadcast
    else NotFound
  }

  function RouteOf(path: string): Route {
    if path == "" || path[0] != '/' then NotFound else RouteContent(path[1..])
  }

  /** Text of the digits and the letters A to F of both cases. */
  ghost predicate HexText(s: string) {
    forall i :: 0 <= i < |s| ==> '0' <= s[i] <= '9' || 'A' <= s[i] <= 'F' || 'a' <= s[i] <= 'f'
  }

  lemma AllHexIs(s: string)
    ensures AllHex(s) <==> HexText(s)
  {
    hide IsHexChar;
    forall i | 0 <= i < |s| { HexTable(s[i]); }
  }

  lemma NamedContent(content: string)
    ensures RouteContent(content) == Home <==> content == ""
    ensures RouteContent(content) == Health <==> content == "health"
    ensures RouteContent(content) == Ready <==> content == "ready"
    ensures RouteContent(content) == Version <==> content == "version"
    ensures RouteContent(content) == Alive <==> content == "alive"
    ensures RouteContent(content) == Metrics <==> content == "metrics"
    ensures RouteContent(content) == Docs <==> content == "docs"
    ensures RouteContent(content) == Status <==> content == "status"
    ensures RouteContent(content) == Logos <==> content == "logos"
  {
    hide AllHex, StartsWith;
  }

  lemma AfterSlash(path: string, name: string)
    requires path != "" && path[0] == '/'
    ensures path == "/" + name <==> path[1..] == name
  {
    assert path == "/" + path[1..];
    if path == "/" + name { assert path[1..] == name; }
  }

  /** The fixed names. */
  lemma NamedRoutes(path: string)
    ensures RouteOf(path) == Home <==> path == "/"
    ensures RouteOf(path) == Health <==> path == "/" + "health"
    ensures RouteOf(path) == Ready <==> path == "/" + "ready"
    ensures RouteOf(path) == Version <==> path == "/" + "version"
    ensures RouteOf(path) == Alive <==> path == "/" + "alive"
    ensures RouteOf(path) == Metrics <==> path == "/" + "metrics"
    ensures RouteOf(path) == Docs <==> path == "/" + "docs"
    ensures RouteOf(path) == Status <==> path == "/" + "status"
    ensures RouteOf(path) == Logos <==> path == "/" + "logos"
  {
    hide RouteContent;
    if path != "" && path[0] == '/' {
      NamedContent(path[1..]);
      AfterSlash(path, "");
      AfterSlash(path, "health");
      AfterSlash(path, "ready");
      AfterSlash(path, "version");
      AfterSlash(path, "alive");
      AfterSlash(path, "metrics");
      AfterSlash(path, "docs");
      AfterSlash(path, "status");
      AfterSlash(path, "logos");
    }
  }

  /** No fixed name is as long as the rest. */
  lemma LongContent(content: string)
    requires |content| > 7
    ensures RouteContent(content) == AcmeChallenge <==> |content| > 27 && content[..27] == ACME_PREFIX
    ensures RouteContent(content) == TxResult <==>
            || (|content| == 64 && AllHex(content))
            || (|content| == 67 && content[..3] == "tx/" && AllHex(content[3..]))
    ensures RouteContent(content) == Broadcast <==> |content| >= 164 && |content| % 2 == 0 && AllHex(content)
  {
    hide AllHex;
    NotHex(content);
    assert |content| > 27 && content[..27] == ACME_PREFIX ==> content[0] == '.' && content[..3][0] == '.';
  }

  lemma ShortContent(content: string)
    requires |content| <= 7
    ensures RouteContent(content) !in {AcmeChallenge, TxResult, Broadcast}
  {
    hide AllHex;
  }

  /** Where a path leads that is no fixed name: a challenge, 64 hex characters with or without "tx/", an even number
      of at least 164 of them; everything else is not found. */
  lemma Routes(path: string)
    ensures RouteOf(path) == AcmeChallenge <==> |path| > 28 && path[..28] == "/.well-known/acme-challenge/"
    ensures RouteOf(path) == TxResult <==>
            || (|path| == 65 && path[0] == '/' && HexText(path[1..]))
            || (|path| == 68 && path[..4] == "/tx/" && HexText(path[4..]))
    ensures RouteOf(path) == Broadcast <==>
            |path| >= 165 && |path| % 2 == 1 && path[0] == '/' && HexText(path[1..])
  {
    hide HexText, AllHex, RouteContent;
    if path != "" && path[0] == '/' {
      var content := path[1..];
      if |content| > 7 {
        LongContent(content);
        AllHexIs(content);
        AllHexIs(content[3..]);
        PathOfContent(path);
      } else {
        ShortContent(content);
      }
    } else {
      if |path| >= 4 { assert path[..4][0] == path[0]; }
      if |path| >= 28 { assert path[..28][0] == path[0]; }
    }
  }

  lemma PathOfContent(path: string)
    requires |path| > 8 && path[0] == '/'
    ensures path[1..][3..] == path[4..]
    ensures path[1..][..3] == "tx/" <==> path[..4] == "/tx/"
    ensures |path| > 28 ==> (path[1..][..27] == ACME_PREFIX <==> path[..28] == "/.well-known/acme-challenge/")
  {
    assert path[..4] == "/" + path[1..][..3];
    assert "/tx/"[1..] == "tx/" && "/.well-known/acme-challenge/"[1..] == ACME_PREFIX;
    if |path| > 28 {
      assert path[..28] == "/" + path[1..][..27];
    }
  }

  lemma NotHex(content: string)
    ensures |content| >= 3 && content[..3] == "tx/" ==> !AllHex(content)
    ensures |content| >= 27 && content[..27] == ACME_PREFIX ==> !AllHex(content)
  {
    hide IsHexChar;
    HexTable('t');
    HexTable('.');
    if |content| >= 3 { assert content[0] == content[..3][0]; }
    if |content| >= 27 { assert content[0] == content[..27][0]; }
  }

  /* ---------- the validators ---------- */

  /** What both validators mean to accept: short content, or hex after an optional "tx/". */
  predicate ContentOk(content: string) {
    |content| < 64 || AllHex(if StartsWith(content, "tx/") then content[3..] else content)
  }

  /** The HTTP/2 validator, on the path without its first character. */
  method ValidateHexPath(content: string) returns (ok: bool)
    ensures ok <==> ContentOk(content)
  {
    hide IsHexChar;
    if |content| < 64 { return true; }
    var start := 0;
    if content[0] == 't' && content[1] == 'x' && content[2] == '/' {
      start := 3;
    }
    assert StartsWith(content, "tx/") <==> start == 3;
    ghost var checked := content[start..];
    var p := start;
    while p < |content|
      invariant start <= p <= |content|
      invariant forall j :: 0 <= j < p - start ==> IsHexChar(checked[j])
    {
      if !IsHexChar(content[p]) {
        assert checked[p - start] == content[p];
        return false;
      }
      p := p + 1;
    }
    return true;
  }

  /** The verdict of the HTTP/2 side on a path: a path of one character is not looked at. */
  predicate Http2Ok(path: string) {
    |path| > 1 ==> ContentOk(path[1..])
  }

  /** What passes: fewer than 64 characters after the slash, or only hex characters, not counting a leading "tx/". */
  lemma PassesIff(path: string)
    requires |path| >= 1
    ensures Http2Ok(path) <==>
            |path| <= 64 || HexText(if path[1..4] == "tx/" then path[4..] else path[1..])
  {
    hide AllHex, HexText;
    var content := path[1..];
    if |content| >= 64 {
      AllHexIs(content);
      AllHexIs(content[3..]);
      assert content[..3] == path[1..4];
      assert content[3..] == path[4..];
      assert StartsWith(content, "tx/") <==> path[1..4] == "tx/";
    }
  }

  predicate EndsPath(c: char) {
    c == ' ' || c == '\r' || c == '\n'
  }

  /** The first position from `i` on that ends a path, or the end of the data. */
  function PathEnd(data: string, i: nat): (e: nat)
    requires i <= |data|
    ensures i <= e <= |data|
    ensures forall j :: i <= j < e ==> !EndsPath(data[j])
    ensures e < |data| ==> EndsPath(data[e])
    decreases |data| - i
  {
    if i == |data| || EndsPath(data[i]) then i else PathEnd(data, i + 1)
  }

  /** The first space, or the end of the data. */
  function FirstSpace(data: string, i: nat): (e: nat)
    requires i <= |data|
    ensures i <= e <= |data|
    ensures forall j :: i <= j < e ==> data[j] != ' '
    ensures e < |data| ==> data[e] == ' '
    decreases |data| - i
  {
    if i == |data| || data[i] == ' ' then i else FirstSpace(data, i + 1)
  }

  /** Where the path content starts in request data: after the first space and one slash. */
  function ContentStart(data: string): (s: nat)
    ensures s <= |data|
  {
    var space := FirstSpace(data, 0);
    if space == |data| then |data|
    else if space + 1 < |data| && data[space + 1] == '/' then space + 2
    else space + 1
  }

  /** The path content visible in request data that may still be incomplete. */
  function VisibleContent(data: string): string {
    data[ContentStart(data)..PathEnd(data, ContentStart(data))]
  }

  /** The HTTP/1.1 validator accepts request data unless the visible content is refused. */
  predicate EarlyOk(data: string) {
    ContentOk(VisibleContent(data))
  }

  method ValidatePathEarly(data: string) returns (ok: bool)
    ensures ok <==> EarlyOk(data)
  {
    hide ContentOk;
    EmptyOk();
    var start := SkipToSpace(data);
    if start == |data| {
      assert VisibleContent(data) == "";
      return true;
    }
    start := start + 1;
    if start >= |data| {
      assert VisibleContent(data) == "";
      return true;
    }
    if data[start] == '/' {
      start := start + 1;
      if start >= |data| {
        assert VisibleContent(data) == "";
        return true;
      }
    }
    var end := SkipPath(data, start);
    ok := CheckContent(data[start..end]);
  }

  method SkipToSpace(data: string) returns (start: nat)
    ensures start == FirstSpace(data, 0)
  {
    start := 0;
    while start < |data| && data[start] != ' '
      invariant 0 <= start <= |data| && forall j :: 0 <= j < start ==> data[j] != ' '
    {
      start := start + 1;
    }
  }

  method SkipPath(data: string, start: nat) returns (end: nat)
    requires start <= |data|
    ensures end == PathEnd(data, start)
  {
    end := start;
    while end < |data| && !EndsPath(data[end])
      invariant start <= end <= |data| && forall j :: start <= j < end ==> !EndsPath(data[j])
    {
      end := end + 1;
    }
  }

  /** The character loop of the HTTP/1.1 validator: at the first position it jumps over "tx/". */
  method CheckContent(content: string) returns (ok: bool)
    ensures ok <==> ContentOk(content)
  {
    hide IsHexChar;
    if |content| < 64 { return true; }
    ghost var start := if StartsWith(content, "tx/") then 3 else 0;
    ghost var checked := content[start..];
    var p := 0;
    while p < |content|
      invariant p == 0 || start <= p <= |content|
      invariant forall j :: 0 <= j < p - start ==> IsHexChar(checked[j])
      decreases |content| - p
    {
      if p == 0 && content[0] == 't' && content[1] == 'x' && content[2] == '/' {
        assert StartsWith(content, "tx/");
        p := p + 2;
      } else if !IsHexChar(content[p]) {
        assert p >= start && checked[p - start] == content[p];
        return false;
      }
      p := p + 1;
    }
    return true;
  }

  /* ---------- the validators and the router agree ---------- */

  /** On a request line for a path that starts with a slash and contains no space or line end, with
      or without what follows the path, the two validators give the same verdict. */
  lemma ValidatorsAgree(verb: string, path: string, rest: string)
    requires forall i :: 0 <= i < |verb| ==> verb[i] != ' '
    requires path != "" && path[0] == '/' && forall i :: 0 <= i < |path| ==> path[i] !in {' ', '\r', '\n'}
    requires rest == "" || rest[0] in {' ', '\r', '\n'}
    ensures EarlyOk(verb + " " + path + rest) <==> Http2Ok(path)
  {
    hide ContentOk;
    var data := verb + " " + path + rest;
    assert FirstSpace(data, 0) == |verb| by { assert data[|verb|] == ' '; }
    assert data[|verb| + 1] == '/';
    var start := |verb| + 2;
    assert PathEnd(data, start) == |verb| + 1 + |path| by {
      assert rest != "" ==> data[|verb| + 1 + |path|] == rest[0];
    }
    SliceOfRequest(verb, path, rest);
    EmptyOk();
  }

  lemma SliceOfRequest(verb: string, path: string, rest: string)
    requires path != ""
    ensures (verb + " " + path + rest)[|verb| + 2..|verb| + 1 + |path|] == path[1..]
  {
  }

  lemma EmptyOk()
    ensures ContentOk("")
  {
  }

  /** Every path that is routed anywhere but to the error page or an ACME challenge passes. */
  lemma RoutedPasses(path: string)
    requires RouteOf(path) != NotFound && RouteOf(path) != AcmeChallenge
    ensures Http2Ok(path)
  {
  }

  lemma AcmeNotHex(content: string)
    requires |content| > 27 && StartsWith(content, ACME_PREFIX)
    ensures !AllHex(content) && !StartsWith(content, "tx/")
  {
    hide IsHexChar;
    assert content[0] == content[..27][0] == '.';
    HexTable('.');
    assert content[..3][0] == '.';
  }

  /** A passing path of 64 characters or more after the slash can only be a result, a broadcast or an
      error. */
  lemma PassingRoutes(path: string)
    requires path != "" && path[0] == '/' && Http2Ok(path) && |path| - 1 >= 64
    ensures RouteOf(path) in {TxResult, Broadcast, NotFound}
  {
    hide IsHexChar;
    if RouteOf(path) == AcmeChallenge { AcmeNotHex(path[1..]); }
  }

  /** An ACME path passes exactly when it is shorter than that. */
  lemma AcmePasses(path: string)
    requires RouteOf(path) == AcmeChallenge
    ensures Http2Ok(path) <==> |path| - 1 < 64
  {
    hide IsHexChar;
    AcmeNotHex(path[1..]);
  }

  function AcmePath(token: string): string {
    "/" + (ACME_PREFIX + token)
  }

  lemma AcmeRoutes(token: string)
    requires token != ""
    ensures RouteOf(AcmePath(token)) == AcmeChallenge
  {
    var content := ACME_PREFIX + token;
    assert AcmePath(token)[1..] == content && content[..27] == ACME_PREFIX;
  }

  /** Every ACME challenge with a token of 37 characters or more is routed, and refused by both validators. */
  lemma LongAcmeRefused(token: string)
    requires |token| >= 37 && forall i :: 0 <= i < |token| ==> !EndsPath(token[i])
    ensures var path := AcmePath(token);
            RouteOf(path) == AcmeChallenge && !Http2Ok(path) && !EarlyOk("GET" + " " + path + "")
  {
    hide RouteOf, Http2Ok, EarlyOk;
    AcmeRoutes(token);
    AcmePasses(AcmePath(token));
    AcmeStays(token);
    ValidatorsAgree("GET", AcmePath(token), "");
  }

  lemma AcmeStays(token: string)
    requires forall i :: 0 <= i < |token| ==> !EndsPath(token[i])
    ensures forall i :: 0 <= i < |AcmePath(token)| ==> !EndsPath(AcmePath(token)[i])
  {
    assert forall i :: 0 <= i < 27 ==> ACME_PREFIX[i] != ' ' && ACME_PREFIX[i] != '\r' && ACME_PREFIX[i] != '\n';
  }

  lemma LongAcmeExample()
    ensures var path := AcmePath(seq(37, i => 'a'));
            |path| - 1 == 64 && RouteOf(path) == AcmeChallenge && !Http2Ok(path)
  {
    hide RouteOf, Http2Ok;
    LongAcmeRefused(seq(37, i => 'a'));
  }
}
