/** What the server reads out of the bytes of a request, the length of the body and keep-alive included. */
module HttpRequest {
  import opened Wrappers
  import opened Bytes
  import opened Sequences
  import opened HttpFraming

  const SP: byte := 32
  const COLON: byte := 58
  const SLASH: byte := 47
  const MINUS: byte := 45
  const PLUS: byte := 43
  const ZERO: byte := 48
  const LINE_ENDS: seq<byte> := [CR, LF]
  const SPACES: seq<byte> := [SP, 9, LF, 11, 12, CR]

  /** The bytes of an ASCII string. */
  function Ascii(s: string): (r: seq<byte>)
    requires forall i :: 0 <= i < |s| ==> s[i] < 128 as char
    ensures |r| == |s| && forall i :: 0 <= i < |r| ==> r[i] == s[i] as int
  {
    seq(|s|, i requires 0 <= i < |s| => s[i] as int)
  }

  datatype Header = Header(name: seq<byte>, value: seq<byte>)
  datatype Request = Request(verb: seq<byte>, uri: seq<byte>, version: seq<byte>, headers: seq<Header>)

  // ---------- words ----------

  /** strcspn: the bytes in front of the first one that is in stop. */
  function CSpn(s: seq<byte>, stop: seq<byte>): (n: nat)
    ensures n <= |s| && (forall i :: 0 <= i < n ==> s[i] !in stop) && (n < |s| ==> s[n] in stop)
  {
    if s == [] || s[0] in stop then 0 else 1 + CSpn(s[1..], stop)
  }

  /** strspn: the bytes in front of the first one that is not in all. */
  function Spn(s: seq<byte>, all: seq<byte>): (n: nat)
    ensures n <= |s| && (forall i :: 0 <= i < n ==> s[i] in all) && (n < |s| ==> s[n] !in all)
  {
    if s == [] || s[0] !in all then 0 else 1 + Spn(s[1..], all)
  }

  /** skip_quoted without a quote character: a word, and what is behind the delimiter and white space after it. */
  function Skip(s: seq<byte>, delims: seq<byte>, white: seq<byte>): (r: (seq<byte>, seq<byte>))
    ensures |r.1| <= |s| && (s != [] ==> |r.1| < |s|)
  {
    var n := CSpn(s, delims);
    if n == |s| then (s, []) else (s[..n], s[n + 1 + Spn(s[n + 1..], white)..])
  }

  // ---------- parse_http_message ----------

  const MAX_HEADERS: nat := 64

  function ParseHeaders(s: seq<byte>, room: nat): (headers: seq<Header>)
    ensures |headers| <= room
    decreases room
  {
    if room == 0 then []
    else
      var (name, afterName) := Skip(s, [COLON], [SP]);
      var (value, rest) := Skip(afterName, LINE_ENDS, LINE_ENDS);
      if name == [] then [] else [Header(name, value)] + ParseHeaders(rest, room - 1)
  }

  /** The last byte of the request has become the final NUL. */
  function Parse(request: seq<byte>): Request
    requires request != []
  {
    var text := request[..|request| - 1];
    var (verb, afterVerb) := Skip(text[Spn(text, SPACES)..], [SP], [SP]);
    var (uri, afterUri) := Skip(afterVerb, [SP], [SP]);
    var (version, afterVersion) := Skip(afterUri, LINE_ENDS, LINE_ENDS);
    Request(verb, uri, version, ParseHeaders(afterVersion, MAX_HEADERS))
  }

  predicate IsVerb(verb: seq<byte>) {
    verb in [Ascii("GET"), Ascii("POST"), Ascii("HEAD"), Ascii("CONNECT"), Ascii("PUT"), Ascii("DELETE"),
             Ascii("OPTIONS"), Ascii("PROPFIND")]
  }

  /** A URI is an asterisk or starts with a slash. */
  predicate IsUri(uri: seq<byte>) {
    uri != [] && (uri[0] == SLASH || uri == Ascii("*"))
  }

  datatype Verdict = BadRequest | BadVersion | Handled

  /** What process_new_connection makes of a request: 400, 505, or a call of the handler. */
  function Judge(r: Request): (v: Verdict)
    ensures v != BadRequest ==> |r.version| >= 5
  {
    if !IsVerb(r.verb) || !(Ascii("HTTP/") <= r.version) || !IsUri(r.uri) then BadRequest
    else if r.version[5..] != Ascii("1.0") && r.version[5..] != Ascii("1.1") then BadVersion
    else Handled
  }

  // ---------- headers ----------

  function Lower(c: byte): byte {
    if 65 <= c <= 90 then c + 32 else c
  }

  /** mg_strcasecmp */
  predicate SameIgnoringCase(a: seq<byte>, b: seq<byte>) {
    |a| == |b| && forall i :: 0 <= i < |a| ==> Lower(a[i]) == Lower(b[i])
  }

  /** get_header: the value of the first header of that name. */
  function HeaderValue(headers: seq<Header>, name: seq<byte>): Option<seq<byte>> {
    if headers == [] then None
    else if SameIgnoringCase(name, headers[0].name) then Some(headers[0].value)
    else HeaderValue(headers[1..], name)
  }

  predicate IsDigit(c: byte) {
    ZERO <= c <= ZERO + 9
  }

  function DigitsValue(s: seq<byte>, sum: nat): nat {
    if s == [] || !IsDigit(s[0]) then sum else DigitsValue(s[1..], 10 * sum + (s[0] - ZERO))
  }

  /** strtoll in base 10, which stops at the ends of its 64-bit range. */
  function StrToLL(s: seq<byte>): int {
    var t := s[Spn(s, SPACES)..];
    var negative := t != [] && t[0] == MINUS;
    var n: int := DigitsValue(if t != [] && (t[0] == MINUS || t[0] == PLUS) then t[1..] else t, 0);
    if negative then Max(-n, -0x8000_0000_0000_0000) else Min(n, 0x7FFF_FFFF_FFFF_FFFF)
  }

  /** The length of the body: from its header, or unknown for a request that has a body without it. */
  function ContentLength(r: Request): int {
    match HeaderValue(r.headers, Ascii("Content-Length"))
    case Some(value) => StrToLL(value)
    case None => if SameIgnoringCase(r.verb, Ascii("POST")) || SameIgnoringCase(r.verb, Ascii("PUT")) then -1 else 0
  }

  /** should_keep_alive, as far as the request decides it. */
  predicate AsksToKeepAlive(r: Request)
    requires |r.version| >= 5
  {
    match HeaderValue(r.headers, Ascii("Connection"))
    case Some(value) => SameIgnoringCase(value, Ascii("keep-alive"))
    case None => r.version[5..] == Ascii("1.1")
  }

  // ---------- the loops ----------

  /** The loop of parse_http_headers. */
  method ParseHttpHeaders(s: seq<byte>) returns (headers: seq<Header>)
    ensures headers == ParseHeaders(s, MAX_HEADERS)
  {
    hide Skip, ParseHeaders;
    headers := [];
    var rest := s;
    for i := 0 to MAX_HEADERS
      invariant |headers| == i && ParseHeaders(s, MAX_HEADERS) == headers + ParseHeaders(rest, MAX_HEADERS - i)
    {
      HeadersUnfold(headers, rest, MAX_HEADERS - i);
      var (name, afterName) := Skip(rest, [COLON], [SP]);
      var (value, afterValue) := Skip(afterName, LINE_ENDS, LINE_ENDS);
      if name == [] {
        return;
      }
      headers := headers + [Header(name, value)];
      rest := afterValue;
    }
    HeadersUnfold(headers, rest, 0);
  }

  lemma HeadersUnfold(done: seq<Header>, s: seq<byte>, room: nat)
    ensures done + ParseHeaders(s, room) ==
            if room == 0 then done
            else
              var (name, afterName) := Skip(s, [COLON], [SP]);
              var (value, rest) := Skip(afterName, LINE_ENDS, LINE_ENDS);
              if name == [] then done else done + [Header(name, value)] + ParseHeaders(rest, room - 1)
  {
    hide Skip;
  }

  /** The loop of get_header. */
  method GetHeader(headers: seq<Header>, name: seq<byte>) returns (value: Option<seq<byte>>)
    ensures value == HeaderValue(headers, name)
    ensures value == None <==> forall i :: 0 <= i < |headers| ==> !SameIgnoringCase(name, headers[i].name)
    ensures value.Some? ==>
      exists i :: 0 <= i < |headers| && SameIgnoringCase(name, headers[i].name) && headers[i].value == value.value &&
                  forall j :: 0 <= j < i ==> !SameIgnoringCase(name, headers[j].name)
  {
    hide SameIgnoringCase;
    assert headers[0..] == headers;
    for i := 0 to |headers|
      invariant HeaderValue(headers, name) == HeaderValue(headers[i..], name)
      invariant forall j :: 0 <= j < i ==> !SameIgnoringCase(name, headers[j].name)
    {
      if SameIgnoringCase(name, headers[i].name) {
        return Some(headers[i].value);
      }
    }
    return None;
  }

  // ---------- what the headers mean ----------

  /** Equal but for the case of letters. */
  lemma SameMeans(a: seq<byte>, b: seq<byte>)
    ensures SameIgnoringCase(a, b) <==>
      |a| == |b| && forall i :: 0 <= i < |a| ==>
        a[i] == b[i] || (65 <= a[i] <= 90 && b[i] == a[i] + 32) || (65 <= b[i] <= 90 && a[i] == b[i] + 32)
  {
  }

  /** The first header of that name, wherever it stands. */
  lemma {:induction false} HeaderAt(headers: seq<Header>, name: seq<byte>, k: nat)
    requires k < |headers| && SameIgnoringCase(name, headers[k].name)
    requires forall i :: 0 <= i < k ==> !SameIgnoringCase(name, headers[i].name)
    ensures HeaderValue(headers, name) == Some(headers[k].value)
  {
    hide SameIgnoringCase;
    if k > 0 {
      HeaderAt(headers[1..], name, k - 1);
    }
  }

  lemma {:induction false} NoHeader(headers: seq<Header>, name: seq<byte>)
    requires forall i :: 0 <= i < |headers| ==> !SameIgnoringCase(name, headers[i].name)
    ensures HeaderValue(headers, name) == None
  {
    hide SameIgnoringCase;
    if headers != [] {
      NoHeader(headers[1..], name);
    }
  }

  /** The requests that are handled, and those of an unknown version. */
  lemma JudgeMeans(r: Request)
    ensures Judge(r) == Handled <==>
      IsVerb(r.verb) && (r.uri == Ascii("*") || (r.uri != [] && r.uri[0] == SLASH)) &&
      (r.version == Ascii("HTTP/1.0") || r.version == Ascii("HTTP/1.1"))
    ensures Judge(r) == BadVersion ==>
      Ascii("HTTP/") <= r.version && r.version != Ascii("HTTP/1.0") && r.version != Ascii("HTTP/1.1")
  {
    hide IsVerb;
    VersionMeans(r.version, "1.0", "HTTP/1.0");
    VersionMeans(r.version, "1.1", "HTTP/1.1");
  }

  lemma VerbMeans(verb: seq<byte>)
    ensures IsVerb(verb) <==>
      verb == Ascii("GET") || verb == Ascii("POST") || verb == Ascii("HEAD") || verb == Ascii("CONNECT") ||
      verb == Ascii("PUT") || verb == Ascii("DELETE") || verb == Ascii("OPTIONS") || verb == Ascii("PROPFIND")
  {
  }

  lemma VersionMeans(version: seq<byte>, number: string, whole: string)
    requires number in ["1.0", "1.1"] && whole == "HTTP/" + number
    ensures Ascii("HTTP/") <= version && version[5..] == Ascii(number) <==> version == Ascii(whole)
  {
    if Ascii("HTTP/") <= version && version[5..] == Ascii(number) {
      assert version == version[..5] + version[5..];
    }
    if version == Ascii(whole) {
      assert version[5..] == Ascii(number) && version[..5] == Ascii("HTTP/");
    }
  }

  /** The connection is kept for the word keep-alive alone, and without the header for version 1.1. */
  lemma KeepAliveMeans(r: Request)
    requires Judge(r) == Handled
    ensures (forall i :: 0 <= i < |r.headers| ==> !SameIgnoringCase(Ascii("Connection"), r.headers[i].name)) ==>
      (AsksToKeepAlive(r) <==> r.version == Ascii("HTTP/1.1"))
    ensures forall k |
        0 <= k < |r.headers| && SameIgnoringCase(Ascii("Connection"), r.headers[k].name) &&
        forall i :: 0 <= i < k ==> !SameIgnoringCase(Ascii("Connection"), r.headers[i].name) ::
      AsksToKeepAlive(r) <==> SameIgnoringCase(r.headers[k].value, Ascii("keep-alive"))
  {
    hide SameIgnoringCase, IsVerb;
    VersionMeans(r.version, "1.1", "HTTP/1.1");
    var name := Ascii("Connection");
    if forall i :: 0 <= i < |r.headers| ==> !SameIgnoringCase(name, r.headers[i].name) {
      NoHeader(r.headers, name);
    }
    forall k | 0 <= k < |r.headers| && SameIgnoringCase(name, r.headers[k].name) &&
        (forall i :: 0 <= i < k ==> !SameIgnoringCase(name, r.headers[i].name))
      ensures HeaderValue(r.headers, name) == Some(r.headers[k].value)
    {
      HeaderAt(r.headers, name, k);
    }
  }

  /** So "Connection: close" closes. */
  lemma CloseCloses(r: Request)
    requires Judge(r) == Handled && r.headers != [] && r.headers[0] == Header(Ascii("Connection"), Ascii("close"))
    ensures !AsksToKeepAlive(r)
  {
    assert |Ascii("close")| != |Ascii("keep-alive")|;
  }

  /** Without the header, POST and PUT have a body of unknown length and other requests have none. */
  lemma NoLength(r: Request)
    requires Judge(r) == Handled
    requires forall i :: 0 <= i < |r.headers| ==> !SameIgnoringCase(Ascii("Content-Length"), r.headers[i].name)
    ensures ContentLength(r) == if r.verb == Ascii("POST") || r.verb == Ascii("PUT") then -1 else 0
  {
    NoHeader(r.headers, Ascii("Content-Length"));
    hide HeaderValue;
    UpperCaseVerbs(r.verb);
  }

  lemma UpperCaseVerbs(verb: seq<byte>)
    requires IsVerb(verb)
    ensures SameIgnoringCase(verb, Ascii("POST")) <==> verb == Ascii("POST")
    ensures SameIgnoringCase(verb, Ascii("PUT")) <==> verb == Ascii("PUT")
  {
    assert forall i :: 0 <= i < |verb| ==> 65 <= verb[i] <= 90;
    if SameIgnoringCase(verb, Ascii("POST")) {
      assert forall i :: 0 <= i < 4 ==> Lower(verb[i]) == Lower(Ascii("POST")[i]);
    }
    if SameIgnoringCase(verb, Ascii("PUT")) {
      assert forall i :: 0 <= i < 3 ==> Lower(verb[i]) == Lower(Ascii("PUT")[i]);
    }
  }

  // ---------- requests in the standard form ----------

  /** Bytes that may stand in a line. */
  predicate InLine(s: seq<byte>) {
    forall i :: 0 <= i < |s| ==> !Malformed(s[i]) && s[i] != CR && s[i] != LF
  }

  predicate StandardHeader(h: Header) {
    InLine(h.name) && h.name != [] && COLON !in h.name && InLine(h.value) && (h.value == [] || h.value[0] != SP)
  }

  /** A request as section 5 of RFC 2616 has it, with one blank between words. */
  predicate Standard(r: Request) {
    Judge(r) == Handled && SP !in r.uri && InLine(r.uri) && |r.headers| <= 64 &&
    forall i :: 0 <= i < |r.headers| ==> StandardHeader(r.headers[i])
  }

  /**
   How a request is laid out: white space in front of it, more blanks behind the verb, the URI and each
   colon, and how lines end.
   */
  datatype Layout = Layout(lead: seq<byte>, first: seq<byte>, second: seq<byte>, gap: seq<byte>, end: seq<byte>)

  const STANDARD := Layout([], [], [], [SP], LINE_ENDS)

  predicate Blanks(s: seq<byte>) {
    forall i :: 0 <= i < |s| ==> s[i] == SP
  }

  predicate IsLayout(y: Layout) {
    (forall i :: 0 <= i < |y.lead| ==> y.lead[i] in SPACES) && Blanks(y.first) && Blanks(y.second) && Blanks(y.gap) &&
    (y.end == [LF] || y.end == LINE_ENDS)
  }

  function PrintHeader(h: Header, gap: seq<byte>): seq<byte> {
    h.name + [COLON] + gap + h.value
  }

  function Lines(headers: seq<Header>, gap: seq<byte>, end: seq<byte>): seq<byte> {
    if headers == [] then [] else PrintHeader(headers[0], gap) + end + Lines(headers[1..], gap, end)
  }

  function FirstLine(r: Request, y: Layout): seq<byte> {
    y.lead + r.verb + [SP] + y.first + r.uri + [SP] + y.second + r.version
  }

  function PrintAs(r: Request, y: Layout): seq<byte> {
    FirstLine(r, y) + (y.end + (Lines(r.headers, y.gap, y.end) + y.end))
  }

  function Print(r: Request): seq<byte> {
    PrintAs(r, STANDARD)
  }

  // ---------- a printed request is parsed back ----------

  lemma {:induction false} CSpnIs(s: seq<byte>, stop: seq<byte>, n: nat)
    requires n <= |s| && (forall i :: 0 <= i < n ==> s[i] !in stop) && (n < |s| ==> s[n] in stop)
    ensures CSpn(s, stop) == n
  {
    if n > 0 {
      CSpnIs(s[1..], stop, n - 1);
    }
  }

  lemma {:induction false} SpnIs(s: seq<byte>, all: seq<byte>, n: nat)
    requires n <= |s| && (forall i :: 0 <= i < n ==> s[i] in all) && (n < |s| ==> s[n] !in all)
    ensures Spn(s, all) == n
  {
    if n > 0 {
      SpnIs(s[1..], all, n - 1);
    }
  }

  /** A word, its delimiter, white space and more. */
  lemma SkipsWord(word: seq<byte>, delim: byte, blanks: seq<byte>, more: seq<byte>, delims: seq<byte>, white: seq<byte>)
    requires forall i :: 0 <= i < |word| ==> word[i] !in delims
    requires delim in delims && (forall i :: 0 <= i < |blanks| ==> blanks[i] in white)
    requires more != [] ==> more[0] !in white
    ensures Skip(word + [delim] + blanks + more, delims, white) == (word, more)
  {
    var s := word + [delim] + blanks + more;
    hide CSpn, Spn;
    CSpnIs(s, delims, |word|);
    assert s[..|word|] == word && s[|word| + 1..] == blanks + more;
    SpnIs(blanks + more, white, |blanks|);
    assert s[|word| + 1 + Spn(s[|word| + 1..], white)..] == more;
  }

  /** The end of the last line, without the LF whose place the final NUL has taken. */
  function LastEnd(end: seq<byte>): seq<byte> {
    if end == [LF] then [] else [CR]
  }

  /** What the parser has in front of it behind a line. */
  function AfterLine(headers: seq<Header>, gap: seq<byte>, end: seq<byte>): seq<byte> {
    if headers == [] then [] else Lines(headers, gap, end) + LastEnd(end)
  }

  /** Skipping the end of a line skips the blank line that ends the request, too. */
  lemma LineSkipped(line: seq<byte>, headers: seq<Header>, gap: seq<byte>, end: seq<byte>)
    requires InLine(line) && Blanks(gap) && (end == [LF] || end == LINE_ENDS)
    requires forall i :: 0 <= i < |headers| ==> StandardHeader(headers[i])
    ensures Skip(line + (end + (Lines(headers, gap, end) + LastEnd(end))), LINE_ENDS, LINE_ENDS) ==
            (line, AfterLine(headers, gap, end))
  {
    hide *;
    NoLineEnd(line);
    EndsOfLines(end, headers == []);
    var blanks := end[1..] + if headers == [] then LastEnd(end) else [];
    LineEnds(line, headers, gap, end);
    if headers == [] {
      NothingAfter(gap, end);
    } else {
      HeaderFirst(headers, gap, end);
    }
    SkipsWord(line, end[0], blanks, AfterLine(headers, gap, end), LINE_ENDS, LINE_ENDS);
  }

  lemma NoLineEnd(line: seq<byte>)
    ensures InLine(line) ==> forall i :: 0 <= i < |line| ==> line[i] !in LINE_ENDS
  {
    hide Malformed;
  }

  lemma EndsOfLines(end: seq<byte>, last: bool)
    requires end == [LF] || end == LINE_ENDS
    ensures end != [] && end[0] in LINE_ENDS
    ensures var blanks := end[1..] + if last then LastEnd(end) else [];
            forall i :: 0 <= i < |blanks| ==> blanks[i] in LINE_ENDS
  {
  }

  lemma NothingAfter(gap: seq<byte>, end: seq<byte>)
    ensures AfterLine([], gap, end) == []
  {
  }

  lemma LineEnds(line: seq<byte>, headers: seq<Header>, gap: seq<byte>, end: seq<byte>)
    requires end != []
    ensures line + (end + (Lines(headers, gap, end) + LastEnd(end))) ==
            line + [end[0]] + (end[1..] + if headers == [] then LastEnd(end) else []) + AfterLine(headers, gap, end)
  {
    hide PrintHeader, LastEnd;
    assert end == [end[0]] + end[1..];
  }

  lemma HeaderFirst(headers: seq<Header>, gap: seq<byte>, end: seq<byte>)
    requires headers != [] && StandardHeader(headers[0])
    ensures AfterLine(headers, gap, end) != [] && AfterLine(headers, gap, end)[0] == headers[0].name[0]
    ensures headers[0].name[0] !in LINE_ENDS
    ensures AfterLine(headers, gap, end) ==
            headers[0].name + [COLON] + gap +
            (headers[0].value + (end + (Lines(headers[1..], gap, end) + LastEnd(end))))
  {
    hide Malformed, PrintHeader, LastEnd;
    HeaderAndMore(headers[0], gap, end, Lines(headers[1..], gap, end), LastEnd(end));
  }

  lemma HeaderAndMore(h: Header, gap: seq<byte>, end: seq<byte>, more: seq<byte>, last: seq<byte>)
    ensures PrintHeader(h, gap) + end + more + last == h.name + [COLON] + gap + (h.value + (end + (more + last)))
  {
  }

  lemma {:induction false} HeadersRead(headers: seq<Header>, room: nat, gap: seq<byte>, end: seq<byte>)
    requires Blanks(gap) && (end == [LF] || end == LINE_ENDS)
    requires |headers| <= room && forall i :: 0 <= i < |headers| ==> StandardHeader(headers[i])
    ensures ParseHeaders(AfterLine(headers, gap, end), room) == headers
  {
    hide Skip, Lines, LastEnd;
    if headers == [] {
      NothingToSkip();
    } else {
      var h := headers[0];
      var afterName := h.value + (end + (Lines(headers[1..], gap, end) + LastEnd(end)));
      HeaderFirst(headers, gap, end);
      SkipsWord(h.name, COLON, gap, afterName, [COLON], [SP]);
      LineSkipped(h.value, headers[1..], gap, end);
      HeadersRead(headers[1..], room - 1, gap, end);
    }
  }

  lemma NothingToSkip()
    ensures Skip([], [COLON], [SP]) == ([], []) && Skip([], LINE_ENDS, LINE_ENDS) == ([], [])
  {
  }

  lemma VerbIsWord(verb: seq<byte>)
    requires IsVerb(verb)
    ensures verb != [] && SP !in verb && verb[0] !in SPACES && InLine(verb)
  {
  }

  lemma HandledParts(r: Request)
    requires Judge(r) == Handled
    ensures IsVerb(r.verb)
    ensures |r.version| == 8 && r.version[0] == 72 && InLine(r.version) && r.uri != []
  {
  }

  /** Parsing undoes printing, in any layout. */
  lemma ParseAs(r: Request, y: Layout)
    requires Standard(r) && IsLayout(y)
    ensures PrintAs(r, y) != [] && Parse(PrintAs(r, y)) == r
  {
    hide Skip, IsVerb, Judge, Lines, ParseHeaders, AfterLine;
    HandledParts(r);
    VerbIsWord(r.verb);
    var text := PrintAs(r, y)[..|PrintAs(r, y)| - 1];
    var afterUri := r.version + (y.end + (Lines(r.headers, y.gap, y.end) + LastEnd(y.end)));
    var afterVerb := r.uri + [SP] + y.second + afterUri;
    var words := r.verb + [SP] + y.first + afterVerb;
    TextParts(r, y, afterUri);
    SpnIs(text, SPACES, |y.lead|);
    assert text[|y.lead|..] == words;
    SkipsWord(r.verb, SP, y.first, afterVerb, [SP], [SP]);
    SkipsWord(r.uri, SP, y.second, afterUri, [SP], [SP]);
    LineSkipped(r.version, r.headers, y.gap, y.end);
    HeadersRead(r.headers, MAX_HEADERS, y.gap, y.end);
  }

  lemma TextParts(r: Request, y: Layout, afterUri: seq<byte>)
    requires y.end == [LF] || y.end == LINE_ENDS
    requires afterUri == r.version + (y.end + (Lines(r.headers, y.gap, y.end) + LastEnd(y.end)))
    ensures PrintAs(r, y) != []
    ensures PrintAs(r, y)[..|PrintAs(r, y)| - 1] == y.lead + (r.verb + [SP] + y.first + (r.uri + [SP] + y.second + afterUri))
  {
    hide Lines;
    assert y.end == LastEnd(y.end) + [LF];
    var text := y.lead + (r.verb + [SP] + y.first + (r.uri + [SP] + y.second + afterUri));
    assert PrintAs(r, y) == text + [LF];
  }

  lemma ParsePrint(r: Request)
    requires Standard(r)
    ensures Parse(Print(r)) == r
  {
    hide Standard, PrintAs;
    ParseAs(r, STANDARD);
  }

  // ---------- a printed request ends at its first blank line ----------

  /** A text without malformed bytes whose first blank line is at its end. */
  ghost predicate Framed(s: seq<byte>) {
    EndsWithBlankLine(s, |s|) && (forall n :: n < |s| ==> !EndsWithBlankLine(s, n)) &&
    forall i :: 0 <= i < |s| ==> !Malformed(s[i])
  }

  lemma FramedLen(s: seq<byte>)
    requires Framed(s)
    ensures RequestLen(s) == |s| && |s| > 0
  {
    hide RequestLen, EndsWithBlankLine, Malformed;
    ZeroLenMeans(s);
    MalformedMeans(s);
    if RequestLen(s) > 0 {
      PositiveLenMeans(s);
    }
    EndIsPositive(s, |s|);
  }

  lemma EndIsPositive(s: seq<byte>, n: int)
    requires EndsWithBlankLine(s, n)
    ensures n > 0
  {
  }

  lemma LastLine(line: seq<byte>, end: seq<byte>)
    requires InLine(line) && line != [] && (end == [LF] || end == LINE_ENDS)
    ensures Framed(line + (end + end))
  {
    var s := line + (end + end);
    forall i | 0 <= i < |s|
      ensures !Malformed(s[i])
    {
      assert i < |line| ==> s[i] == line[i];
    }
  }

  lemma LineBefore(line: seq<byte>, end: seq<byte>, more: seq<byte>)
    requires InLine(line) && line != [] && (end == [LF] || end == LINE_ENDS)
    requires Framed(more) && more[0] !in LINE_ENDS
    ensures Framed(line + (end + more))
  {
    hide Malformed;
    var s, k := line + (end + more), |line| + |end|;
    LineEndsFine();
    forall i | 0 <= i < |s|
      ensures !Malformed(s[i])
    {
      assert s[i] == if i < |line| then line[i] else if i < k then end[i - |line|] else more[i - k];
    }
    forall n | 0 <= n <= |s|
      ensures EndsWithBlankLine(s, n) <==> EndsWithBlankLine(more, n - k)
    {
      BlankLineBehind(line, end, more, n);
    }
  }

  lemma LineEndsFine()
    ensures !Malformed(CR) && !Malformed(LF)
  {
  }

  lemma BlankLineBehind(line: seq<byte>, end: seq<byte>, more: seq<byte>, n: nat)
    requires InLine(line) && line != [] && (end == [LF] || end == LINE_ENDS) && more != [] && more[0] !in LINE_ENDS
    requires n <= |line| + |end| + |more|
    ensures EndsWithBlankLine(line + (end + more), n) <==> EndsWithBlankLine(more, n - (|line| + |end|))
  {
    hide Malformed;
    var s, k := line + (end + more), |line| + |end|;
    assert forall i :: 0 <= i < |line| ==> s[i] == line[i];
    assert s[k - 1] == LF && (|end| == 2 ==> s[k - 2] == CR);
    assert s[k..] == more;
    BlankLineShift(s, k, n);
  }

  lemma BlankLineShift(s: seq<byte>, k: nat, n: nat)
    requires 2 <= k < |s| && n <= |s| && s[k - 1] == LF && s[k] !in LINE_ENDS
    requires forall i :: 0 <= i < k - 1 ==> s[i] != LF
    ensures EndsWithBlankLine(s, n) <==> EndsWithBlankLine(s[k..], n - k)
  {
    assert forall i :: 0 <= i < |s| - k ==> s[k..][i] == s[k + i];
  }

  lemma {:induction false} LinesFramed(line: seq<byte>, headers: seq<Header>, gap: seq<byte>, end: seq<byte>)
    requires InLine(line) && line != [] && Blanks(gap) && (end == [LF] || end == LINE_ENDS)
    requires forall i :: 0 <= i < |headers| ==> StandardHeader(headers[i])
    ensures Framed(line + (end + (Lines(headers, gap, end) + end)))
    decreases |headers|
  {
    hide Framed, InLine, Lines, StandardHeader, PrintHeader, Blanks;
    if headers == [] {
      NoLines(gap, end);
      LastLine(line, end);
    } else {
      HeaderIsLine(headers[0], gap);
      LinesSplit(headers, gap, end);
      LinesFramed(PrintHeader(headers[0], gap), headers[1..], gap, end);
      LineBefore(line, end, Lines(headers, gap, end) + end);
    }
  }

  lemma NoLines(gap: seq<byte>, end: seq<byte>)
    ensures Lines([], gap, end) + end == end
  {
  }

  lemma HeaderIsLine(h: Header, gap: seq<byte>)
    requires StandardHeader(h) && Blanks(gap)
    ensures InLine(PrintHeader(h, gap)) && PrintHeader(h, gap) != [] && PrintHeader(h, gap)[0] !in LINE_ENDS
  {
    var s := PrintHeader(h, gap);
    forall i | 0 <= i < |s|
      ensures !Malformed(s[i]) && s[i] != CR && s[i] != LF
    {
      var k := |h.name| + 1;
      assert s[i] == if i < |h.name| then h.name[i] else if i < k then COLON
                     else if i < k + |gap| then gap[i - k] else h.value[i - k - |gap|];
    }
  }

  lemma LinesSplit(headers: seq<Header>, gap: seq<byte>, end: seq<byte>)
    requires headers != [] && PrintHeader(headers[0], gap) != []
    ensures Lines(headers, gap, end) + end == PrintHeader(headers[0], gap) + (end + (Lines(headers[1..], gap, end) + end))
    ensures (Lines(headers, gap, end) + end)[0] == PrintHeader(headers[0], gap)[0]
  {
    hide PrintHeader;
  }

  /** The end of a request is found right behind it, in any layout without line ends in front. */
  lemma FramedAs(r: Request, y: Layout)
    requires Standard(r) && IsLayout(y) && Blanks(y.lead)
    ensures Framed(PrintAs(r, y)) && RequestLen(PrintAs(r, y)) == |PrintAs(r, y)| && |PrintAs(r, y)| > 0
  {
    hide Framed, RequestLen, Lines, IsVerb, Judge, Malformed;
    HandledParts(r);
    VerbIsWord(r.verb);
    WordsInLine(r, y);
    LinesFramed(FirstLine(r, y), r.headers, y.gap, y.end);
    FramedLen(PrintAs(r, y));
  }

  lemma WordsInLine(r: Request, y: Layout)
    requires InLine(r.verb) && InLine(r.uri) && InLine(r.version)
    requires Blanks(y.lead) && Blanks(y.first) && Blanks(y.second)
    ensures InLine(FirstLine(r, y)) && FirstLine(r, y) != []
  {
    BlanksInLine(y.lead);
    BlanksInLine(y.first);
    BlanksInLine(y.second);
    BlanksInLine([SP]);
    hide Malformed;
    var a := y.lead + r.verb + [SP];
    var b := a + y.first + r.uri + [SP];
    assert InLine(a) && InLine(b) && FirstLine(r, y) == b + y.second + r.version;
  }

  lemma BlanksInLine(s: seq<byte>)
    ensures Blanks(s) ==> InLine(s)
  {
  }

  lemma PrintFramed(r: Request)
    requires Standard(r)
    ensures RequestLen(Print(r)) == |Print(r)| && |Print(r)| > 0
  {
    hide Standard, PrintAs, RequestLen;
    FramedAs(r, STANDARD);
  }

  // ---------- the length of the body ----------

  function Decimal(n: nat): (s: seq<byte>)
    ensures s != []
  {
    if n < 10 then [ZERO + n] else Decimal(n / 10) + [ZERO + n % 10]
  }

  lemma {:induction false} DigitsAppended(s: seq<byte>, d: byte, sum: nat)
    requires (forall i :: 0 <= i < |s| ==> IsDigit(s[i])) && IsDigit(d)
    ensures DigitsValue(s + [d], sum) == 10 * DigitsValue(s, sum) + (d - ZERO)
  {
    if s == [] {
      assert [d][1..] == [];
    } else {
      DigitsAppended(s[1..], d, 10 * sum + (s[0] - ZERO));
      assert (s + [d])[1..] == s[1..] + [d];
    }
  }

  lemma {:induction false} DecimalRead(n: nat)
    ensures (forall i :: 0 <= i < |Decimal(n)| ==> IsDigit(Decimal(n)[i])) && DigitsValue(Decimal(n), 0) == n
  {
    if n < 10 {
      assert [ZERO + n][1..] == [];
    } else {
      DecimalRead(n / 10);
      DigitsAppended(Decimal(n / 10), ZERO + n % 10, 0);
    }
  }

  /** strtoll reads a printed number below 2^63 back. */
  lemma LengthRead(n: nat)
    requires n < 0x8000_0000_0000_0000
    ensures StrToLL(Decimal(n)) == n
  {
    hide Decimal, DigitsValue;
    DecimalRead(n);
    var s := Decimal(n);
    assert IsDigit(s[0]);
    SpnIs(s, SPACES, 0);
    assert s[0..] == s;
  }

  /** The number with the given decimal digits. */
  function Number(digits: seq<nat>): nat {
    if digits == [] then 0 else 10 * Number(digits[..|digits| - 1]) + digits[|digits| - 1]
  }

  lemma {:induction false} NumberRead(digits: seq<nat>, s: seq<byte>, rest: seq<byte>)
    requires |s| == |digits| && forall i :: 0 <= i < |s| ==> digits[i] < 10 && s[i] == ZERO + digits[i]
    requires rest == [] || !IsDigit(rest[0])
    ensures DigitsValue(s + rest, 0) == Number(digits)
  {
    var n := |s|;
    if n == 0 {
      assert s + rest == rest;
    } else {
      NumberRead(digits[..n - 1], s[..n - 1], []);
      assert s[..n - 1] + [] == s[..n - 1];
      DigitsAppended(s[..n - 1], s[n - 1], 0);
      assert s == s[..n - 1] + [s[n - 1]];
      DigitsEnd(s, rest, 0);
    }
  }

  lemma {:induction false} DigitsEnd(s: seq<byte>, rest: seq<byte>, sum: nat)
    requires (forall i :: 0 <= i < |s| ==> IsDigit(s[i])) && (rest == [] || !IsDigit(rest[0]))
    ensures DigitsValue(s + rest, sum) == DigitsValue(s, sum)
  {
    if s == [] {
      assert s + rest == rest;
    } else {
      DigitsEnd(s[1..], rest, 10 * sum + (s[0] - ZERO));
      assert (s + rest)[1..] == s[1..] + rest;
    }
  }

  /** strtoll: white space, a sign, digits, and whatever else; the ends of the range stop it. */
  lemma StrToLLMeans(white: seq<byte>, sign: seq<byte>, digits: seq<nat>, s: seq<byte>, rest: seq<byte>)
    requires (forall i :: 0 <= i < |white| ==> white[i] in SPACES) && sign in [[], [PLUS], [MINUS]]
    requires |s| == |digits| > 0 && forall i :: 0 <= i < |s| ==> digits[i] < 10 && s[i] == ZERO + digits[i]
    requires rest == [] || !IsDigit(rest[0])
    ensures var n: int := Number(digits);
            StrToLL(white + (sign + (s + rest))) ==
            if sign == [MINUS] then (if n > 0x8000_0000_0000_0000 then -0x8000_0000_0000_0000 else -n)
            else if n > 0x7FFF_FFFF_FFFF_FFFF then 0x7FFF_FFFF_FFFF_FFFF else n
  {
    hide DigitsValue, Number;
    var t := sign + (s + rest);
    assert IsDigit(s[0]) && t[0] == if sign == [] then s[0] else sign[0];
    SpnIs(white + t, SPACES, |white|);
    assert (white + t)[|white|..] == t;
    assert sign != [] ==> t[1..] == s + rest;
    assert sign == [] ==> t == s + rest;
    NumberRead(digits, s, rest);
  }

  /** A request that says how long its body is, behind the first k of its other headers. */
  function WithLength(r: Request, k: nat, n: nat): Request
    requires k <= |r.headers|
  {
    r.(headers := r.headers[..k] + [Header(Ascii("Content-Length"), Decimal(n))] + r.headers[k..])
  }

  lemma WithLengthMeans(r: Request, k: nat, n: nat)
    requires Standard(r) && k <= |r.headers| < MAX_HEADERS && n < 0x8000_0000_0000_0000
    requires forall i :: 0 <= i < k ==> !SameIgnoringCase(Ascii("Content-Length"), r.headers[i].name)
    ensures Standard(WithLength(r, k, n)) && ContentLength(WithLength(r, k, n)) == n
  {
    hide Judge, Decimal, StrToLL, SameIgnoringCase, HeaderValue;
    LengthRead(n);
    DecimalInLine(n);
    var t := WithLength(r, k, n);
    LengthHeader(Decimal(n));
    assert forall i :: 0 <= i < k ==> t.headers[i] == r.headers[i];
    assert forall i :: k < i < |t.headers| ==> t.headers[i] == r.headers[i - 1];
    assert t.headers[k] == Header(Ascii("Content-Length"), Decimal(n));
    SameAsItself(Ascii("Content-Length"));
    HeaderAt(t.headers, Ascii("Content-Length"), k);
    JudgeByWords(r, t);
  }

  lemma SameAsItself(a: seq<byte>)
    ensures SameIgnoringCase(a, a)
  {
  }

  lemma JudgeByWords(r: Request, t: Request)
    requires r.verb == t.verb && r.uri == t.uri && r.version == t.version
    ensures Judge(r) == Judge(t)
  {
  }

  lemma LengthHeader(value: seq<byte>)
    requires InLine(value) && value != [] && value[0] != SP
    ensures StandardHeader(Header(Ascii("Content-Length"), value))
  {
  }

  lemma DecimalInLine(n: nat)
    ensures InLine(Decimal(n)) && Decimal(n)[0] != SP
  {
    hide Decimal;
    DecimalRead(n);
    var s := Decimal(n);
    forall i | 0 <= i < |s|
      ensures !Malformed(s[i]) && s[i] != CR && s[i] != LF && s[i] != SP
    {
      assert IsDigit(s[i]);
    }
  }
}
