/** The incremental HTTP request parser. A context remembers how far it got
    (request line, headers, body, done) and consumes whatever the connection
    buffer holds each time it is called.

    The parse loop is modelled twice from one step function: as written, a
    call that finds the header block incomplete, or that is made after the
    request is complete, never leaves its loop; corrected, those two cases
    end the call with the result computed so far. The class uses the
    corrected loop. */
module HttpContexts {
  import opened Common
  import OrderedMap
  import Buffers
  import opened HttpRequests
  import Timestamps

  datatype ParseState = ExpectRequestLine | ExpectHeaders | ExpectBody | GotAll
  datatype ParseResult = Error | NeedMore | HeadersComplete | GotRequest

  /** The numeric values the parse results carry. */
  function ResultCode(r: ParseResult): int
  {
    match r
    case Error => -1
    case NeedMore => 0
    case HeadersComplete => 1
    case GotRequest => 2
  }

  function Rank(s: ParseState): nat
  {
    match s
    case ExpectRequestLine => 0
    case ExpectHeaders => 1
    case ExpectBody => 2
    case GotAll => 3
  }

  // ---------------------------------------------------------------------
  // Request line: METHOD SP TARGET SP HTTP/1.x

  /** "HTTP/1.0" and "HTTP/1.1" are the only versions understood. */
  function VersionOf(v: string): Option<Version>
  {
    if |v| == 8 && v[..7] == "HTTP/1." && (v[7] == '1' || v[7] == '0') then
      Some(if v[7] == '1' then Http11 else Http10)
    else None
  }

  /** The target is split at its first '?': the path before it, the query
      from it on. Without a '?' only the path is stored. */
  function WithTarget(req: RequestValue, target: string): RequestValue
  {
    match IndexOf(target, '?')
    case Some(q) => req.(path := target[..q], query := target[q..])
    case None => req.(path := target)
  }

  /** The path is the target up to its first '?', and the query the rest
      of the target; a target without '?' leaves the old query in place. */
  lemma WithTargetSplits(req: RequestValue, target: string)
    ensures var r := WithTarget(req, target);
      && '?' !in r.path
      && ('?' in target ==> r.path + r.query == target && r.query[0] == '?')
      && ('?' !in target ==> r.path == target && r.query == req.query)
      && r.(path := req.path, query := req.query) == req
  {
    match IndexOf(target, '?')
    case Some(q) =>
      assert target == target[..q] + target[q..];
    case None =>
  }

  /** The request line after the method and its space. */
  function AfterMethod(req: RequestValue, rest: string): (RequestValue, bool)
  {
    match IndexOf(rest, ' ')
    case None => (req, false)
    case Some(sp) =>
      var req2 := WithTarget(req, rest[..sp]);
      match VersionOf(rest[sp + 1..])
      case Some(v) => (req2.(version := v), true)
      case None => (req2, false)
  }

  /** Effect of `processRequestLine` on the request, and its verdict. The
      method, then the path and query, are stored as soon as they are
      recognised, so a line rejected late still leaves them set. */
  function RequestLineEffect(req: RequestValue, line: string): (r: (RequestValue, bool))
    // only the method, path, query and version can change
    ensures r.0 == req.(httpMethod := r.0.httpMethod, path := r.0.path, query := r.0.query, version := r.0.version)
  {
    match IndexOf(line, ' ')
    case None => (req, false)
    case Some(sp) =>
      var m := MethodOfToken(line[..sp]);
      if m == Invalid then (req.(httpMethod := m), false)
      else AfterMethod(req.(httpMethod := m), line[sp + 1..])
  }

  /** The request target of a line: the text between its first two spaces. */
  function RequestTarget(line: string): string
  {
    match IndexOf(line, ' ')
    case None => []
    case Some(sp) =>
      match IndexOf(line[sp + 1..], ' ')
      case None => []
      case Some(sp2) => line[sp + 1..][..sp2]
  }

  /** The text of a request line. */
  function RequestLineText(token: string, target: string, minor: char): string
  {
    token + " " + target + " HTTP/1." + [minor]
  }

  lemma RequestLineTextNested(token: string, target: string, minor: char)
    ensures RequestLineText(token, target, minor) == token + ([' '] + (target + ([' '] + ("HTTP/1." + [minor]))))
  {
  }

  /** Every well-formed request line is accepted, and sets the method, the
      version, and the path and query the target splits into. */
  lemma RequestLineAccepted(req: RequestValue, token: string, target: string, minor: char)
    requires MethodOfToken(token) != Invalid && ' ' !in target && (minor == '0' || minor == '1')
    ensures RequestLineEffect(req, RequestLineText(token, target, minor))
         == (WithTarget(req, target).(httpMethod := MethodOfToken(token),
                                      version := if minor == '1' then Http11 else Http10), true)
  {
    var rest := target + ([' '] + ("HTTP/1." + [minor]));
    RequestLineTextNested(token, target, minor);
    RequestLineSplitsAtMethod(req, token, rest);
    AfterMethodAccepts(req.(httpMethod := MethodOfToken(token)), target, minor);
  }

  lemma RequestLineSplitsAtMethod(req: RequestValue, token: string, rest: string)
    requires MethodOfToken(token) != Invalid
    ensures RequestLineEffect(req, token + ([' '] + rest)) == AfterMethod(req.(httpMethod := MethodOfToken(token)), rest)
  {
    var line := token + ([' '] + rest);
    MethodTokenHasNoSpace(token);
    IndexOfAt(line, ' ', |token|);
    assert line[..|token|] == token;
    assert line[|token| + 1..] == rest;
  }

  lemma AfterMethodAccepts(req: RequestValue, target: string, minor: char)
    requires ' ' !in target && (minor == '0' || minor == '1')
    ensures AfterMethod(req, target + ([' '] + ("HTTP/1." + [minor])))
         == (WithTarget(req, target).(version := if minor == '1' then Http11 else Http10), true)
  {
    var tail := "HTTP/1." + [minor];
    var rest := target + ([' '] + tail);
    IndexOfAt(rest, ' ', |target|);
    assert rest[..|target|] == target;
    assert rest[|target| + 1..] == tail;
    assert tail[..7] == "HTTP/1.";
  }

  lemma MethodTokenHasNoSpace(token: string)
    requires MethodOfToken(token) != Invalid
    ensures ' ' !in token
  {
  }

  /** Only well-formed request lines are accepted: a line that passes is a
      known method, a space, a target without spaces, a space and
      "HTTP/1.0" or "HTTP/1.1". */
  lemma RequestLineShape(req: RequestValue, line: string)
    requires RequestLineEffect(req, line).1
    ensures var r := RequestLineEffect(req, line).0;
      && ' ' !in RequestTarget(line)
      && (line[|line| - 1] == '0' || line[|line| - 1] == '1')
      && line == RequestLineText(MethodName(r.httpMethod), RequestTarget(line), line[|line| - 1])
  {
    var token, target, minor := AcceptedLineParts(req, line);
    MethodNameOfToken(token);
    RequestLineTextNested(token, target, minor);
  }

  lemma AcceptedLineParts(req: RequestValue, line: string) returns (token: string, target: string, minor: char)
    requires RequestLineEffect(req, line).1
    ensures line == token + ([' '] + (target + ([' '] + ("HTTP/1." + [minor]))))
    ensures MethodOfToken(token) != Invalid && ' ' !in target && (minor == '0' || minor == '1')
    ensures RequestLineEffect(req, line).0.httpMethod == MethodOfToken(token)
    ensures RequestTarget(line) == target
  {
    var sp := IndexOf(line, ' ').value;
    token := line[..sp];
    var rest := line[sp + 1..];
    assert AfterMethod(req.(httpMethod := MethodOfToken(token)), rest).1;
    var sp2 := IndexOf(rest, ' ').value;
    target := rest[..sp2];
    var v := rest[sp2 + 1..];
    assert VersionOf(v).Some?;
    minor := v[7];
    VersionText(v);
    SplitAround(rest, sp2);
    SplitAround(line, sp);
  }

  lemma VersionText(v: string)
    requires VersionOf(v).Some?
    ensures v == "HTTP/1." + [v[7]]
  {
    assert v == v[..7] + [v[7]];
  }

  /** A string is its part before index `k`, the separator at `k`, and its part after. */
  lemma SplitAround(s: string, k: nat)
    requires k < |s|
    ensures s == s[..k] + ([s[k]] + s[k + 1..])
  {
  }

  // ---------------------------------------------------------------------
  // Header lines.

  /** The parts of the context that header lines change. */
  datatype HeaderState = HeaderState(headers: OrderedMap.Entries, contentLength: nat, isChunked: bool)

  const LongMax: int := 0x7FFF_FFFF_FFFF_FFFF
  const LongMin: int := -0x8000_0000_0000_0000
  /** `size_t` arithmetic is modulo two to the 64th. */
  const SizeModulus: int := 0x1_0000_0000_0000_0000

  /** glibc `atoi`: `(int) strtol(s, NULL, 10)`. Leading white space is
      skipped, one sign is accepted, the digits saturate at the `long`
      range and the result keeps the low 32 bits as a signed `int`. */
  function Atoi(s: string): (v: int)
    ensures -0x8000_0000 <= v < 0x8000_0000
  {
    var t := s[LeadingSpaces(s)..];
    var negative := t != [] && t[0] == '-';
    var u := if t != [] && (t[0] == '-' || t[0] == '+') then t[1..] else t;
    var magnitude: int := DecimalValue(u[..DigitRun(u)]);
    var l := if negative then (if -magnitude < LongMin then LongMin else -magnitude)
             else (if magnitude > LongMax then LongMax else magnitude);
    var w := l % 0x1_0000_0000;
    if w >= 0x8000_0000 then w - 0x1_0000_0000 else w
  }

  /** `static_cast<size_t>` of an `int`. */
  function SizeOf(i: int): (n: nat)
    ensures n < SizeModulus
  {
    i % SizeModulus
  }

  /** A decimal length followed by the end of the line reads back as itself. */
  lemma AtoiReadsDecimal(n: nat, rest: string)
    requires n < 0x8000_0000
    requires rest == [] || !IsDigit(rest[0])
    ensures SizeOf(Atoi(NatToString(n) + rest)) == n
  {
    var s := NatToString(n) + rest;
    assert !IsSpace(s[0]);
    assert LeadingSpaces(s) == 0;
    assert s[0..] == s;
    assert DigitRun(s) == |NatToString(n)| by {
      DigitRunOfDigits(NatToString(n), rest);
    }
    assert s[..|NatToString(n)|] == NatToString(n);
    NatToStringRoundTrip(n);
  }

  lemma {:induction false} DigitRunOfDigits(d: string, rest: string)
    requires AllDigits(d)
    requires rest == [] || !IsDigit(rest[0])
    ensures DigitRun(d + rest) == |d|
    decreases |d|
  {
    if d != [] {
      assert (d + rest)[1..] == d[1..] + rest;
      DigitRunOfDigits(d[1..], rest);
    }
  }

  /** One header line `s[..crlf]` with its first colon at `colon`, applied
      to the header state: the field is stored with its trimmed value; a
      Content-Length field sets the length from the value, and a
      Transfer-Encoding field whose value is "chunked" (in any case) marks
      the body chunked. Both are recognised in any case. `s` runs on past
      the line to the end of the readable bytes, because `atoi` reads on
      until the first character that is not white space or a digit. */
  function ApplyHeaderLine(h: HeaderState, s: string, colon: nat, crlf: nat): (r: HeaderState)
    requires colon < crlf <= |s|
    ensures r.headers == OrderedMap.Put(h.headers, s[..colon], TrimSpaces(s[colon + 1..crlf]))
    ensures !EqualsIgnoreCase(s[..colon], "Content-Length") ==> r.contentLength == h.contentLength
    ensures h.isChunked ==> r.isChunked
    ensures r.isChunked && !h.isChunked ==> EqualsIgnoreCase(s[..colon], "Transfer-Encoding")
  {
    var field := s[..colon];
    var value := s[colon + 1..crlf];
    var headers := OrderedMap.Put(h.headers, field, TrimSpaces(value));
    var at := colon + 1 + LeadingSpaces(value);
    if EqualsIgnoreCase(field, "Content-Length") then
      h.(headers := headers, contentLength := SizeOf(Atoi(s[at..])))
    else if EqualsIgnoreCase(field, "Transfer-Encoding") then
      h.(headers := headers, isChunked := h.isChunked || EqualsIgnoreCase(s[at..crlf], "chunked"))
    else
      h.(headers := headers)
  }

  /** "Content-Length: n" followed by the line end sets the length to `n`. */
  lemma ContentLengthRead(h: HeaderState, field: string, n: nat, rest: string)
    requires EqualsIgnoreCase(field, "Content-Length") && n < 0x8000_0000
    requires rest == [] || !IsDigit(rest[0])
    ensures var s := field + ": " + NatToString(n) + rest;
      ApplyHeaderLine(h, s, |field|, |field| + 2 + |NatToString(n)|).contentLength == n
  {
    var d := NatToString(n);
    var s := field + ": " + d + rest;
    var crlf := |field| + 2 + |d|;
    LineParts(field, d, rest);
    ContentLengthValue(h, s, |field|, crlf);
    ValueReadsDecimal(field, n, rest);
  }

  /** The pieces of "field: d" + rest, where `d` is the decimal value. */
  lemma LineParts(field: string, d: string, rest: string)
    ensures var s := field + ": " + d + rest;
      s[..|field|] == field && s[|field| + 1..|field| + 2 + |d|] == [' '] + d &&
      s[|field| + 2..] == d + rest
  {
  }

  /** The value of "field: n" starts after one space and reads back as `n`. */
  lemma ValueReadsDecimal(field: string, n: nat, rest: string)
    requires n < 0x8000_0000
    requires rest == [] || !IsDigit(rest[0])
    ensures var d := NatToString(n); var s := field + ": " + d + rest;
      var at := |field| + 1 + LeadingSpaces(s[|field| + 1..|field| + 2 + |d|]);
      at <= |s| && SizeOf(Atoi(s[at..])) == n
  {
    var d := NatToString(n);
    LineParts(field, d, rest);
    LeadingSpaceThenDigits(d);
    AtoiReadsDecimal(n, rest);
  }

  lemma LeadingSpaceThenDigits(d: string)
    requires d != [] && IsDigit(d[0])
    ensures LeadingSpaces([' '] + d) == 1
  {
    assert ([' '] + d)[1..] == d;
  }

  /** A Content-Length line reads its length from the first character of
      the value that is not white space. */
  lemma ContentLengthValue(h: HeaderState, s: string, colon: nat, crlf: nat)
    requires colon < crlf <= |s| && EqualsIgnoreCase(s[..colon], "Content-Length")
    ensures ApplyHeaderLine(h, s, colon, crlf).contentLength
         == SizeOf(Atoi(s[colon + 1 + LeadingSpaces(s[colon + 1..crlf])..]))
  {
  }

  /** A header line as `processHeaders` meets it: `text` is the input from
      the start of the line on, `colon` the offset of its first colon and
      `crlf` the offset of its line end. */
  datatype HeaderLine = HeaderLine(text: string, colon: nat, crlf: nat)

  predicate ValidLine(l: HeaderLine)
  {
    l.colon < l.crlf <= |l.text|
  }

  /** What `processHeaders` finds in the input: the header lines it takes,
      how many bytes it consumes, and whether it met the line that ends the
      headers. */
  datatype LineScan = LineScan(lines: seq<HeaderLine>, consumed: nat, ended: bool)

  /** Lines are taken while a CRLF is in the buffer. A line with a colon is
      a header; the first line without one (normally the empty line) ends
      the headers. Without a CRLF the scan stops and waits. */
  function ScanLines(s: string): (r: LineScan)
    ensures r.consumed <= |s|
    ensures forall k :: 0 <= k < |r.lines| ==> ValidLine(r.lines[k])
    decreases |s|
  {
    match Buffers.FirstCrlf(s)
    case None => LineScan([], 0, false)
    case Some(i) =>
      match IndexOf(s[..i], ':')
      case Some(c) =>
        var r := ScanLines(s[i + 2..]);
        LineScan([HeaderLine(s, c, i)] + r.lines, r.consumed + i + 2, r.ended)
      case None => LineScan([], i + 2, true)
  }

  /** The header lines applied in order. */
  function ApplyLines(h: HeaderState, lines: seq<HeaderLine>): HeaderState
    requires forall k :: 0 <= k < |lines| ==> ValidLine(lines[k])
    decreases |lines|
  {
    if lines == [] then h
    else
      assert ValidLine(lines[0]);
      ApplyLines(ApplyHeaderLine(h, lines[0].text, lines[0].colon, lines[0].crlf), lines[1..])
  }

  lemma {:induction false} ApplyLinesAppend(h: HeaderState, a: seq<HeaderLine>, b: seq<HeaderLine>)
    requires forall k :: 0 <= k < |a| ==> ValidLine(a[k])
    requires forall k :: 0 <= k < |b| ==> ValidLine(b[k])
    ensures ApplyLines(h, a + b) == ApplyLines(ApplyLines(h, a), b)
    decreases |a|
  {
    if a == [] {
      assert a + b == b;
    } else {
      assert (a + b)[0] == a[0] && (a + b)[1..] == a[1..] + b;
      assert ValidLine(a[0]);
      ApplyLinesAppend(ApplyHeaderLine(h, a[0].text, a[0].colon, a[0].crlf), a[1..], b);
    }
  }

  /** Every header line taken is a complete line: it ends in a CRLF inside
      the consumed bytes. When the headers end, the consumed bytes end with
      a CRLF, so the scan never reaches into the body. */
  lemma {:induction false} ScanEndsOnLineBoundary(s: string)
    ensures var r := ScanLines(s);
      r.ended ==> r.consumed >= 2 && Buffers.CrlfAt(s, r.consumed - 2)
    decreases |s|
  {
    match Buffers.FirstCrlf(s)
    case None =>
    case Some(i) =>
      match IndexOf(s[..i], ':')
      case Some(c) =>
        var t := s[i + 2..];
        ScanEndsOnLineBoundary(t);
        var r := ScanLines(t);
        if r.ended {
          assert Buffers.CrlfAt(t, r.consumed - 2);
          assert t[r.consumed - 2] == s[i + 2 + r.consumed - 2];
          assert t[r.consumed - 1] == s[i + 2 + r.consumed - 1];
        }
      case None =>
  }

  /** After a scan that does not end the headers, no CRLF is left. */
  lemma {:induction false} ScanLeavesNoLineEnd(s: string)
    requires !ScanLines(s).ended
    ensures Buffers.FirstCrlf(s[ScanLines(s).consumed..]).None?
    decreases |s|
  {
    match Buffers.FirstCrlf(s)
    case None =>
      assert s[0..] == s;
    case Some(i) =>
      match IndexOf(s[..i], ':')
      case Some(c) =>
        var t := s[i + 2..];
        ScanTakesLine(s, i, c);
        ScanLeavesNoLineEnd(t);
        assert s[ScanLines(t).consumed + i + 2..] == t[ScanLines(t).consumed..];
      case None =>
  }

  /** Without a CRLF in the buffer, nothing is consumed. */
  lemma ScanWaitsForLineEnd(s: string)
    requires Buffers.FirstCrlf(s).None?
    ensures ScanLines(s) == LineScan([], 0, false)
  {
  }

  /** What one call of `processHeaders` does: the header state after the
      lines it takes, how many bytes it consumes, and whether the headers
      ended. */
  datatype HeadersOutcome = HeadersOutcome(h: HeaderState, consumed: nat, ended: bool)

  function HeadersEffect(h: HeaderState, s: string): (r: HeadersOutcome)
    ensures r.consumed <= |s|
  {
    var scan := ScanLines(s);
    HeadersOutcome(ApplyLines(h, scan.lines), scan.consumed, scan.ended)
  }

  function Later(o: HeadersOutcome, n: nat): HeadersOutcome
  {
    o.(consumed := o.consumed + n)
  }

  /** A header line is applied, then the rest of the input is processed. */
  lemma HeadersEffectTakesLine(h: HeaderState, s: string, i: nat, c: nat)
    requires Buffers.FirstCrlf(s) == Some(i) && IndexOf(s[..i], ':') == Some(c)
    ensures c < i && i + 2 <= |s|
    ensures HeadersEffect(h, s) == Later(HeadersEffect(ApplyHeaderLine(h, s, c, i), s[i + 2..]), i + 2)
  {
    var r := ScanLines(s[i + 2..]);
    var l := HeaderLine(s, c, i);
    ScanTakesLine(s, i, c);
    ApplyFirstLine(h, l, r.lines);
    var h2 := ApplyHeaderLine(h, s, c, i);
    assert HeadersEffect(h2, s[i + 2..]) == HeadersOutcome(ApplyLines(h2, r.lines), r.consumed, r.ended);
    assert HeadersEffect(h, s) == HeadersOutcome(ApplyLines(h, [l] + r.lines), r.consumed + i + 2, r.ended);
  }

  lemma ScanTakesLine(s: string, i: nat, c: nat)
    requires Buffers.FirstCrlf(s) == Some(i) && IndexOf(s[..i], ':') == Some(c)
    ensures c < i && i + 2 <= |s|
    ensures var r := ScanLines(s[i + 2..]);
      ScanLines(s) == LineScan([HeaderLine(s, c, i)] + r.lines, r.consumed + i + 2, r.ended)
  {
  }

  lemma ApplyFirstLine(h: HeaderState, l: HeaderLine, rest: seq<HeaderLine>)
    requires ValidLine(l) && forall k :: 0 <= k < |rest| ==> ValidLine(rest[k])
    ensures forall k :: 0 <= k < |[l] + rest| ==> ValidLine(([l] + rest)[k])
    ensures ApplyLines(h, [l] + rest) == ApplyLines(ApplyHeaderLine(h, l.text, l.colon, l.crlf), rest)
  {
    assert ([l] + rest)[0] == l && ([l] + rest)[1..] == rest;
  }

  /** A line without a colon ends the headers and nothing more is read. */
  lemma HeadersEffectEnds(h: HeaderState, s: string, i: nat)
    requires Buffers.FirstCrlf(s) == Some(i) && IndexOf(s[..i], ':').None?
    ensures HeadersEffect(h, s) == HeadersOutcome(h, i + 2, true)
  {
  }

  /** Without a CRLF nothing is read. */
  lemma HeadersEffectWaits(h: HeaderState, s: string)
    requires Buffers.FirstCrlf(s).None?
    ensures HeadersEffect(h, s) == HeadersOutcome(h, 0, false)
  {
  }

  // ---------------------------------------------------------------------
  // One turn of the parse loop.

  /** Everything the parse loop reads and writes in the context. */
  datatype ContextValue = ContextValue(
    state: ParseState,
    request: RequestValue,
    contentLength: nat,
    bodyReceived: nat,
    isChunked: bool)

  /** The header part of a context. */
  function HeadersOf(c: ContextValue): HeaderState
  {
    HeaderState(c.request.headers, c.contentLength, c.isChunked)
  }

  /** A context with its header part replaced. */
  function WithHeaders(c: ContextValue, h: HeaderState): (r: ContextValue)
    ensures HeadersOf(r) == h
  {
    c.(request := c.request.(headers := h.headers), contentLength := h.contentLength, isChunked := h.isChunked)
  }

  /** What a context keeps true between calls: no body byte is counted
      before the headers are done, and never more body bytes than the
      announced length. */
  predicate WellFormed(c: ContextValue)
  {
    && c.bodyReceived <= c.contentLength
    && (Rank(c.state) <= 1 ==> c.bodyReceived == 0)
  }

  /** The loop's variables: context, unread input, result so far and the
      `hasMore` flag. */
  datatype Progress = Progress(ctx: ContextValue, input: string, result: ParseResult, hasMore: bool)

  /** `processBody`: with a chunked body nothing is read; otherwise as many
      bytes as are available and still expected are moved into the body.
      The flag says whether the whole body is in. */
  function BodyEffect(c: ContextValue, input: string): (r: (ContextValue, string, bool))
    requires WellFormed(c) && c.state == ExpectBody
    ensures WellFormed(r.0) && r.0.state == ExpectBody
  {
    if c.isChunked then (c, input, false)
    else
      var remaining := c.contentLength - c.bodyReceived;
      var toRead := if |input| < remaining then |input| else remaining;
      var c' := c.(request := c.request.(body := c.request.body + input[..toRead]),
                   bodyReceived := c.bodyReceived + toRead);
      (c', input[toRead..], c'.bodyReceived >= c'.contentLength)
  }

  lemma BodyEffectConsumesPrefix(c: ContextValue, input: string)
    requires WellFormed(c) && c.state == ExpectBody
    ensures SuffixOf(BodyEffect(c, input).1, input)
  {
    if !c.isChunked {
      var remaining := c.contentLength - c.bodyReceived;
      DropIsSuffix(input, if |input| < remaining then |input| else remaining);
    }
  }

  /** The request-line branch of the loop: wait for a CRLF, then accept
      the line and move on to the headers, or report an error. */
  function RequestLineStep(p: Progress, receiveTime: Timestamps.Timestamp): (q: Progress)
    requires WellFormed(p.ctx) && p.ctx.state == ExpectRequestLine
    ensures WellFormed(q.ctx)
    ensures q.ctx.state == ExpectRequestLine || (q.ctx.state == ExpectHeaders && q.result == p.result)
    ensures q.ctx.state == ExpectRequestLine ==> !q.hasMore
    ensures q.result == Error ==> p.result == Error || !q.hasMore
    ensures q.result != Error ==> q.result == p.result
  {
    var c := p.ctx;
    match Buffers.FirstCrlf(p.input)
    case None => p.(hasMore := false)
    case Some(i) =>
      var (req, ok) := RequestLineEffect(c.request, p.input[..i]);
      if ok then
        p.(ctx := c.(request := req.(receiveTime := receiveTime), state := ExpectHeaders),
           input := p.input[i + 2..])
      else
        p.(ctx := c.(request := req), result := Error, hasMore := false)
  }

  /** The three outcomes of the request-line branch, one lemma each. */
  lemma RequestLineWaits(p: Progress, receiveTime: Timestamps.Timestamp)
    requires WellFormed(p.ctx) && p.ctx.state == ExpectRequestLine
    requires Buffers.FirstCrlf(p.input).None?
    ensures RequestLineStep(p, receiveTime) == p.(hasMore := false)
  {
  }

  lemma RequestLineTaken(p: Progress, receiveTime: Timestamps.Timestamp, i: nat, req: RequestValue, ok: bool)
    requires WellFormed(p.ctx) && p.ctx.state == ExpectRequestLine
    requires Buffers.FirstCrlf(p.input) == Some(i)
    requires RequestLineEffect(p.ctx.request, p.input[..i]) == (req, ok)
    ensures i + 2 <= |p.input|
    ensures ok ==> (RequestLineStep(p, receiveTime) ==
      p.(ctx := p.ctx.(request := req.(receiveTime := receiveTime), state := ExpectHeaders), input := p.input[i + 2..]))
    ensures !ok ==> (RequestLineStep(p, receiveTime) ==
      p.(ctx := p.ctx.(request := req), result := Error, hasMore := false))
  {
  }

  /** The headers are done: finish at once when no body is announced,
      otherwise go on to the body while input remains. */
  function AfterHeaders(c: ContextValue, rest: string): (q: Progress)
    requires WellFormed(c) && c.bodyReceived == 0
    ensures WellFormed(q.ctx) && q.input == rest
    ensures q.ctx.state == GotAll ==> q.result == GotRequest && !q.hasMore
    ensures q.ctx.state != GotAll ==> q.ctx.state == ExpectBody && q.result == HeadersComplete
  {
    if c.contentLength == 0 && !c.isChunked then
      Progress(c.(state := GotAll), rest, GotRequest, false)
    else
      Progress(c.(state := ExpectBody), rest, HeadersComplete, |rest| > 0)
  }

  /** The headers branch: scan the complete header lines, then go on as
      `AfterHeaders` says once the headers end. With `corrected` false this
      is the loop as written, which keeps `hasMore` set when the header
      block is still incomplete. */
  function HeadersStep(p: Progress, corrected: bool): (q: Progress)
    requires WellFormed(p.ctx) && p.ctx.state == ExpectHeaders
    ensures WellFormed(q.ctx)
    ensures q.ctx.state != ExpectRequestLine
    ensures q.ctx.state == ExpectHeaders ==> q.hasMore == !corrected && q.result == p.result
    ensures q.ctx.state == ExpectBody ==> q.result == HeadersComplete
    ensures q.ctx.state == GotAll ==> q.result == GotRequest && !q.hasMore
  {
    var c := p.ctx;
    var o := HeadersEffect(HeadersOf(c), p.input);
    var c1 := WithHeaders(c, o.h);
    var rest := p.input[o.consumed..];
    if !o.ended then
      Progress(c1, rest, p.result, !corrected)
    else
      AfterHeaders(c1, rest)
  }

  /** The body branch: read what is available of the body, then end the
      call, reporting a complete request or that more body is awaited. */
  function BodyStep(p: Progress): (q: Progress)
    requires WellFormed(p.ctx) && p.ctx.state == ExpectBody
    ensures WellFormed(q.ctx) && !q.hasMore
    ensures q.ctx.state == ExpectBody || q.ctx.state == GotAll
    ensures q.ctx.state == ExpectBody ==> q.result == HeadersComplete || q.result == p.result
    ensures q.ctx.state == GotAll ==> q.result == GotRequest
  {
    var (c1, rest, done) := BodyEffect(p.ctx, p.input);
    if done then Progress(c1.(state := GotAll), rest, GotRequest, false)
    else if c1.bodyReceived < c1.contentLength then Progress(c1, rest, HeadersComplete, false)
    else Progress(c1, rest, p.result, false)
  }

  /** One iteration of `parseRequest`'s loop, taken while `hasMore` holds.
      The loop as written has no branch for the done state, so there an
      iteration changes nothing; corrected, it ends the call. */
  function Step(p: Progress, receiveTime: Timestamps.Timestamp, corrected: bool): (q: Progress)
    requires WellFormed(p.ctx)
    ensures WellFormed(q.ctx)
    ensures Rank(p.ctx.state) <= Rank(q.ctx.state)
    // the corrected step moves to a later state or ends the call
    ensures corrected && q.hasMore ==> Rank(p.ctx.state) < Rank(q.ctx.state)
    // only a rejected request line reports an error, and it ends the call
    ensures q.result == Error ==>
      p.result == Error || (p.ctx.state == q.ctx.state == ExpectRequestLine && !q.hasMore)
    // a complete request is reported exactly when the done state is reached
    ensures q.result == GotRequest ==> p.result == GotRequest || (p.ctx.state != GotAll && q.ctx.state == GotAll)
    ensures p.ctx.state != GotAll && q.ctx.state == GotAll ==> q.result == GotRequest && !q.hasMore
    ensures p.ctx.state == GotAll ==> q == p.(hasMore := !corrected)
  {
    match p.ctx.state
    case ExpectRequestLine => RequestLineStep(p, receiveTime)
    case ExpectHeaders => HeadersStep(p, corrected)
    case ExpectBody => BodyStep(p)
    case GotAll => p.(hasMore := !corrected)
  }

  /** The corrected parse loop, run until `hasMore` is cleared. */
  function Run(p: Progress, receiveTime: Timestamps.Timestamp): (q: Progress)
    requires WellFormed(p.ctx)
    ensures WellFormed(q.ctx) && !q.hasMore
    decreases if p.hasMore then 4 - Rank(p.ctx.state) else 0
  {
    if !p.hasMore then p
    else
      Run(Step(p, receiveTime, true), receiveTime)
  }

  /** The loop as written, for at most `fuel` iterations. */
  function RunAsWritten(p: Progress, receiveTime: Timestamps.Timestamp, fuel: nat): (q: Progress)
    requires WellFormed(p.ctx)
    ensures WellFormed(q.ctx)
    decreases fuel
  {
    if !p.hasMore || fuel == 0 then p
    else RunAsWritten(Step(p, receiveTime, false), receiveTime, fuel - 1)
  }

  /** `a` is what is left of `b` after consuming some bytes from its front. */
  predicate SuffixOf(a: string, b: string)
  {
    |a| <= |b| && a == b[|b| - |a|..]
  }

  /** One step only consumes input from the front. */
  lemma StepConsumesPrefix(p: Progress, receiveTime: Timestamps.Timestamp, corrected: bool)
    requires WellFormed(p.ctx)
    ensures SuffixOf(Step(p, receiveTime, corrected).input, p.input)
  {
    match p.ctx.state
    case ExpectRequestLine => RequestLineStepConsumesPrefix(p, receiveTime);
    case ExpectHeaders => HeadersStepConsumesPrefix(p, corrected);
    case ExpectBody => BodyEffectConsumesPrefix(p.ctx, p.input);
    case GotAll =>
  }

  lemma RequestLineStepConsumesPrefix(p: Progress, receiveTime: Timestamps.Timestamp)
    requires WellFormed(p.ctx) && p.ctx.state == ExpectRequestLine
    ensures SuffixOf(RequestLineStep(p, receiveTime).input, p.input)
  {
    match Buffers.FirstCrlf(p.input)
    case None =>
    case Some(i) =>
      DropIsSuffix(p.input, i + 2);
  }

  lemma HeadersStepConsumesPrefix(p: Progress, corrected: bool)
    requires WellFormed(p.ctx) && p.ctx.state == ExpectHeaders
    ensures SuffixOf(HeadersStep(p, corrected).input, p.input)
  {
    DropIsSuffix(p.input, HeadersEffect(HeadersOf(p.ctx), p.input).consumed);
  }

  lemma DropIsSuffix(s: string, n: nat)
    requires n <= |s|
    ensures SuffixOf(s[n..], s)
  {
  }

  lemma SuffixOfTransitive(a: string, b: string, c: string)
    requires SuffixOf(a, b) && SuffixOf(b, c)
    ensures SuffixOf(a, c)
  {
    assert c[|c| - |b|..][|b| - |a|..] == c[|c| - |a|..];
  }

  function Start(c: ContextValue, input: string): Progress
  {
    Progress(c, input, NeedMore, true)
  }

  // ---------------------------------------------------------------------
  // Properties of a whole call.

  /** The input is only ever consumed from the front. */
  lemma {:induction false} RunConsumesPrefix(p: Progress, receiveTime: Timestamps.Timestamp)
    requires WellFormed(p.ctx)
    ensures SuffixOf(Run(p, receiveTime).input, p.input)
    decreases if p.hasMore then 4 - Rank(p.ctx.state) else 0
  {
    if p.hasMore {
      var q := Step(p, receiveTime, true);
      RunUnfold(p, receiveTime);
      RunConsumesPrefix(q, receiveTime);
      StepConsumesPrefix(p, receiveTime, true);
      SuffixOfTransitive(Run(q, receiveTime).input, q.input, p.input);
    }
  }

  /** A call reports a complete request exactly when it takes the context
      from an unfinished state to the done state. */
  lemma {:induction false} RunGotRequest(p: Progress, receiveTime: Timestamps.Timestamp)
    requires WellFormed(p.ctx) && p.hasMore && p.result == NeedMore
    ensures var q := Run(p, receiveTime);
      q.result == GotRequest <==> (q.ctx.state == GotAll && p.ctx.state != GotAll)
  {
    RunGotRequestFrom(p, receiveTime);
  }

  lemma {:induction false} RunGotRequestFrom(p: Progress, receiveTime: Timestamps.Timestamp)
    requires WellFormed(p.ctx) && p.result != GotRequest
    requires p.ctx.state == GotAll ==> p.hasMore
    ensures var q := Run(p, receiveTime);
      q.result == GotRequest <==> (q.ctx.state == GotAll && p.ctx.state != GotAll)
    decreases if p.hasMore then 4 - Rank(p.ctx.state) else 0
  {
    if p.hasMore {
      var q := Step(p, receiveTime, true);
      if q.hasMore {
        RunGotRequestFrom(q, receiveTime);
      }
    }
  }

  /** An error is reported only for a bad request line, and leaves the
      context expecting a request line. */
  lemma {:induction false} RunErrorOnlyOnRequestLine(p: Progress, receiveTime: Timestamps.Timestamp)
    requires WellFormed(p.ctx) && p.result != Error
    ensures var q := Run(p, receiveTime);
      q.result == Error ==> q.ctx.state == ExpectRequestLine && p.ctx.state == ExpectRequestLine
    decreases if p.hasMore then 4 - Rank(p.ctx.state) else 0
  {
    if p.hasMore {
      var q := Step(p, receiveTime, true);
      if q.hasMore {
        RunErrorOnlyOnRequestLine(q, receiveTime);
      }
    }
  }

  // ---------------------------------------------------------------------
  // The loop as written.

  /** As written, a call in the headers state whose buffer holds no CRLF
      performs an iteration that changes nothing and keeps `hasMore` set. */
  lemma HeadersWithoutLineEndSpin(p: Progress, receiveTime: Timestamps.Timestamp)
    requires WellFormed(p.ctx) && p.hasMore
    requires p.ctx.state == ExpectHeaders && Buffers.FirstCrlf(p.input).None?
    ensures Step(p, receiveTime, false) == p
  {
    var c := p.ctx;
    assert HeaderState(c.request.headers, c.contentLength, c.isChunked).headers == c.request.headers;
    assert p.input[0..] == p.input;
  }

  /** As written, a call made after the request is complete never ends. */
  lemma DoneStateSpins(p: Progress, receiveTime: Timestamps.Timestamp)
    requires WellFormed(p.ctx) && p.hasMore && p.ctx.state == GotAll
    ensures Step(p, receiveTime, false) == p
  {
  }

  /** Once the loop as written reaches a fixed point it never stops. */
  lemma {:induction false} FixedPointNeverStops(p: Progress, receiveTime: Timestamps.Timestamp, fuel: nat)
    requires WellFormed(p.ctx) && p.hasMore && Step(p, receiveTime, false) == p
    ensures RunAsWritten(p, receiveTime, fuel) == p
    decreases fuel
  {
    if fuel > 0 {
      FixedPointNeverStops(p, receiveTime, fuel - 1);
    }
  }

  /** Concretely: a GET request whose header block has not fully arrived
      ("Host: a" with no line end yet) is never returned from. */
  lemma PartialHeadersHang(c: ContextValue, receiveTime: Timestamps.Timestamp, fuel: nat)
    requires WellFormed(c) && c.state == ExpectHeaders
    ensures RunAsWritten(Start(c, "Host: a"), receiveTime, fuel).hasMore
  {
    var p := Start(c, "Host: a");
    assert Buffers.FirstCrlf(p.input).None? by {
      forall j ensures !Buffers.CrlfAt(p.input, j) {
      }
    }
    HeadersWithoutLineEndSpin(p, receiveTime);
    FixedPointNeverStops(p, receiveTime, fuel);
  }

  /** Whenever the loop as written does stop, it stops with exactly what
      the corrected loop computes: the correction changes only the calls
      that never returned. */
  lemma {:induction false} AsWrittenAgreesWhenItStops(p: Progress, receiveTime: Timestamps.Timestamp, fuel: nat)
    requires WellFormed(p.ctx)
    requires !RunAsWritten(p, receiveTime, fuel).hasMore
    ensures RunAsWritten(p, receiveTime, fuel) == Run(p, receiveTime)
    decreases fuel
  {
    if p.hasMore {
      StoppingStepIsCorrected(p, receiveTime, fuel);
      RunAsWrittenUnfold(p, receiveTime, fuel);
      var q := Step(p, receiveTime, false);
      AsWrittenAgreesWhenItStops(q, receiveTime, fuel - 1);
    }
  }

  lemma RunAsWrittenUnfold(p: Progress, receiveTime: Timestamps.Timestamp, fuel: nat)
    requires WellFormed(p.ctx) && p.hasMore && fuel > 0
    ensures RunAsWritten(p, receiveTime, fuel) == RunAsWritten(Step(p, receiveTime, false), receiveTime, fuel - 1)
  {
  }

  /** A call as written that stops takes, at each step, the corrected step. */
  lemma StoppingStepIsCorrected(p: Progress, receiveTime: Timestamps.Timestamp, fuel: nat)
    requires WellFormed(p.ctx) && p.hasMore
    requires !RunAsWritten(p, receiveTime, fuel).hasMore
    ensures fuel > 0 && Run(p, receiveTime) == Run(Step(p, receiveTime, false), receiveTime)
  {
    OnlySpinsNeverStop(p, receiveTime, fuel);
    StepsAgree(p, receiveTime);
  }

  /** A call as written that stops is in neither spinning case. */
  lemma OnlySpinsNeverStop(p: Progress, receiveTime: Timestamps.Timestamp, fuel: nat)
    requires WellFormed(p.ctx) && p.hasMore
    requires !RunAsWritten(p, receiveTime, fuel).hasMore
    ensures fuel > 0 && p.ctx.state != GotAll
    ensures p.ctx.state == ExpectHeaders ==> ScanLines(p.input).ended
  {
    if p.ctx.state == GotAll {
      DoneRunsOn(p, receiveTime, fuel);
    } else if p.ctx.state == ExpectHeaders && !ScanLines(p.input).ended {
      StuckHeadersRunOn(p, receiveTime, fuel);
    }
  }

  lemma DoneRunsOn(p: Progress, receiveTime: Timestamps.Timestamp, fuel: nat)
    requires WellFormed(p.ctx) && p.hasMore && p.ctx.state == GotAll
    ensures RunAsWritten(p, receiveTime, fuel).hasMore
  {
    DoneStateSpins(p, receiveTime);
    FixedPointNeverStops(p, receiveTime, fuel);
  }

  lemma StuckHeadersRunOn(p: Progress, receiveTime: Timestamps.Timestamp, fuel: nat)
    requires WellFormed(p.ctx) && p.hasMore && p.ctx.state == ExpectHeaders
    requires !ScanLines(p.input).ended
    ensures RunAsWritten(p, receiveTime, fuel).hasMore
  {
    if fuel > 0 {
      var q := Step(p, receiveTime, false);
      HeadersStuckAfterOneStep(p, receiveTime);
      RunAsWrittenUnfold(p, receiveTime, fuel);
      NoLineEndRunsOn(q, receiveTime, fuel - 1);
      assert RunAsWritten(p, receiveTime, fuel) == q;
    }
  }

  /** Outside the two spinning cases the loop as written takes the same
      step as the corrected one. */
  lemma StepsAgree(p: Progress, receiveTime: Timestamps.Timestamp)
    requires WellFormed(p.ctx) && p.ctx.state != GotAll
    requires p.ctx.state == ExpectHeaders ==> ScanLines(p.input).ended
    ensures Step(p, receiveTime, false) == Step(p, receiveTime, true)
  {
  }

  lemma HeadersStuckAfterOneStep(p: Progress, receiveTime: Timestamps.Timestamp)
    requires WellFormed(p.ctx) && p.hasMore && p.ctx.state == ExpectHeaders
    requires !ScanLines(p.input).ended
    ensures var q := Step(p, receiveTime, false);
      q.hasMore && q.ctx.state == ExpectHeaders && Buffers.FirstCrlf(q.input).None?
  {
    ScanLeavesNoLineEnd(p.input);
  }

  /** A call in the headers state with no CRLF in its input runs on as written. */
  lemma NoLineEndRunsOn(p: Progress, receiveTime: Timestamps.Timestamp, fuel: nat)
    requires WellFormed(p.ctx) && p.hasMore
    requires p.ctx.state == ExpectHeaders && Buffers.FirstCrlf(p.input).None?
    ensures RunAsWritten(p, receiveTime, fuel) == p
  {
    HeadersWithoutLineEndSpin(p, receiveTime);
    FixedPointNeverStops(p, receiveTime, fuel);
  }

  // ---------------------------------------------------------------------
  // Helpers for the context object.

  lemma RunUnfold(p: Progress, receiveTime: Timestamps.Timestamp)
    requires WellFormed(p.ctx) && p.hasMore
    ensures Run(p, receiveTime) == Run(Step(p, receiveTime, true), receiveTime)
  {
  }

  /** The white-space skipping loop of `processHeaders`: the first position
      at or after `from` that is not white space, or `to`. */
  method SkipSpaces(s: string, from: nat, to: nat) returns (i: nat)
    requires from <= to <= |s|
    ensures i == from + LeadingSpaces(s[from..to])
  {
    i := from;
    while i < to && IsSpace(s[i])
      invariant from <= i <= to
      invariant LeadingSpaces(s[from..to]) == (i - from) + LeadingSpaces(s[i..to])
    {
      assert s[i..to][1..] == s[i + 1..to];
      i := i + 1;
    }
  }

  /** The part of one `processHeaders` iteration that reads the value:
      `Content-Length` is converted with `atoi` from the first non-space
      byte after the colon, `Transfer-Encoding: chunked` is noted. */
  method ReadHeaderValue(ghost headers: OrderedMap.Entries, length0: nat, chunked0: bool, s: string, c: nat, i: nat)
    returns (length: nat, chunked: bool)
    requires c < i <= |s|
    ensures ApplyHeaderLine(HeaderState(headers, length0, chunked0), s, c, i)
         == HeaderState(OrderedMap.Put(headers, s[..c], TrimSpaces(s[c + 1..i])), length, chunked)
  {
    ghost var h := HeaderState(headers, length0, chunked0);
    ghost var stored := OrderedMap.Put(headers, s[..c], TrimSpaces(s[c + 1..i]));
    length, chunked := length0, chunked0;
    var field := s[..c];
    if EqualsIgnoreCase(field, "Content-Length") {
      var at := SkipSpaces(s, c + 1, i);
      length := SizeOf(Atoi(s[at..]));
      assert ApplyHeaderLine(h, s, c, i) == HeaderState(stored, length, chunked);
    } else if EqualsIgnoreCase(field, "Transfer-Encoding") {
      var at := SkipSpaces(s, c + 1, i);
      if EqualsIgnoreCase(s[at..i], "chunked") {
        chunked := true;
      }
      assert ApplyHeaderLine(h, s, c, i) == HeaderState(stored, length, chunked);
    } else {
      assert ApplyHeaderLine(h, s, c, i) == HeaderState(stored, length, chunked);
    }
  }

  // ---------------------------------------------------------------------
  // The context object.

  /** A context as freshly constructed. */
  function InitialContext(): ContextValue
  {
    ContextValue(ExpectRequestLine, EmptyRequest(), 0, 0, false)
  }

  class HttpContext {
    var state: ParseState
    var request: HttpRequest
    var contentLength: nat
    var bodyReceived: nat
    var isChunked: bool
    /** The type-erased custom context: no object, or some object. */
    var customContext: object?

    /** The request's headers are sorted, the counters are well formed and
        the announced length is a `size_t`. */
    ghost predicate Valid()
      reads this, request
    {
      request.Valid() && WellFormed(Value()) && contentLength < SizeModulus
    }

    function Value(): ContextValue
      reads this, request
    {
      ContextValue(state, request.Value(), contentLength, bodyReceived, isChunked)
    }

    constructor ()
      ensures Valid() && fresh(request)
      ensures Value() == InitialContext() && customContext == null
    {
      state := ExpectRequestLine;
      request := new HttpRequest();
      contentLength := 0;
      bodyReceived := 0;
      isChunked := false;
      customContext := null;
    }

    /** `gotAll`: the whole request has been parsed. */
    predicate AllReceived()
      reads this
      ensures AllReceived() <==> Rank(state) == 3
    {
      state == GotAll
    }

    /** `expectBody`: the headers are done and the body is awaited. */
    predicate ExpectsBody()
      reads this
      ensures ExpectsBody() <==> Rank(state) == 2
    {
      state == ExpectBody
    }

    /** `headersComplete`: the parse has got past the headers. */
    predicate HeadersDone()
      reads this
      ensures HeadersDone() <==> Rank(state) >= 2
      ensures HeadersDone() <==> ExpectsBody() || AllReceived()
    {
      state == ExpectBody || state == GotAll
    }

    /** `remainingLength`: a `size_t` difference, which wraps around when
        more was received than announced. */
    function RemainingLength(): (n: nat)
      reads this
      ensures n < SizeModulus
      ensures bodyReceived <= contentLength < SizeModulus ==> bodyReceived + n == contentLength
      ensures contentLength < bodyReceived <= SizeModulus ==> n == SizeModulus - (bodyReceived - contentLength)
    {
      (contentLength - bodyReceived) % SizeModulus
    }

    /** `reset`: back to the initial state by swapping the request with a
        fresh one. The swap leaves the path parameters behind, so they
        survive a reset. */
    method Reset()
      requires Valid()
      modifies this, request
      ensures Valid() && request == old(request)
      ensures Value() == InitialContext().(request := EmptyRequest().(pathParams := old(request.pathParams)))
      ensures customContext == null
    {
      state := ExpectRequestLine;
      var dummy := new HttpRequest();
      request.Swap(dummy);
      contentLength := 0;
      bodyReceived := 0;
      isChunked := false;
      customContext := null;
    }

    method SetContext(context: object?)
      modifies this
      ensures GetContext() == context
      ensures Value() == old(Value()) && request == old(request)
    {
      customContext := context;
    }

    function GetContext(): object?
      reads this
    {
      customContext
    }

    /** `processRequestLine` on the line without its CRLF. The method must
        not have been set yet. */
    method ProcessRequestLine(line: string) returns (ok: bool)
      requires request.httpMethod == Invalid
      modifies request
      ensures (request.Value(), ok) == RequestLineEffect(old(request.Value()), line)
    {
      ok := false;
      match IndexOf(line, ' ') {
        case None =>
        case Some(sp) =>
          var known := request.SetMethod(line[..sp]);
          if known {
            var rest := line[sp + 1..];
            match IndexOf(rest, ' ') {
              case None =>
              case Some(sp2) =>
                var target := rest[..sp2];
                match IndexOf(target, '?') {
                  case Some(q) =>
                    request.SetPath(target[..q]);
                    request.SetQuery(target[q..]);
                  case None =>
                    request.SetPath(target);
                }
                var v := rest[sp2 + 1..];
                ok := |v| == 8 && v[..7] == "HTTP/1.";
                if ok {
                  if v[7] == '1' {
                    request.SetVersion(Http11);
                  } else if v[7] == '0' {
                    request.SetVersion(Http10);
                  } else {
                    ok := false;
                  }
                }
            }
          }
      }
    }

    /** The header part of the context. */
    function Headers(): HeaderState
      reads this, request
    {
      HeaderState(request.headers, contentLength, isChunked)
    }

    /** `processHeaders`: take complete header lines from the buffer until
        a line without a colon ends the headers or no CRLF is left. */
    method ProcessHeaders(buf: Buffers.Buffer, ghost s: string, ghost c: ContextValue)
      requires Valid() && buf.Valid() && state == ExpectHeaders
      requires buf.Readable() == s && Value() == c
      modifies this, request, buf
      ensures Valid() && buf.Valid() && request == old(request) && buf.data == old(buf.data)
      ensures var o := HeadersEffect(HeadersOf(c), s);
        && buf.Readable() == s[o.consumed..]
        && Value() == WithHeaders(c, o.h).(state := if o.ended then ExpectBody else ExpectHeaders)
    {
      ghost var target := HeadersEffect(HeadersOf(c), s);
      ghost var taken: nat := 0;
      ghost var rest := s;
      ghost var cur := HeadersOf(c);
      var hasMore := true;
      assert s[0..] == s;
      while hasMore
        invariant Valid() && buf.Valid() && request == old(request) && buf.data == old(buf.data)
        invariant taken <= |s| && rest == s[taken..] && buf.Readable() == rest
        invariant Value() == WithHeaders(c, cur).(state := state)
        invariant hasMore ==> state == ExpectHeaders && target == Later(HeadersEffect(cur, rest), taken)
        invariant !hasMore ==> target == HeadersOutcome(cur, taken, state == ExpectBody)
        invariant !hasMore ==> state == ExpectBody || state == ExpectHeaders
        decreases |rest| + (if hasMore then 1 else 0)
      {
        ghost var n;
        hasMore, n := ProcessHeaderLine(buf, rest, c, cur);
        assert s[taken..][n..] == s[taken + n..];
        taken := taken + n;
        rest := s[taken..];
        cur := Headers();
      }
    }

    /** One turn of the `processHeaders` loop: take the next complete line.
        A header line is stored and the loop goes on; a line without a
        colon ends the headers; without a CRLF nothing is taken. `n` is
        the number of bytes taken. */
    method ProcessHeaderLine(buf: Buffers.Buffer, ghost s: string, ghost c: ContextValue, ghost h: HeaderState)
      returns (hasMore: bool, ghost n: nat)
      requires Valid() && buf.Valid() && state == ExpectHeaders
      requires buf.Readable() == s && Value() == WithHeaders(c, h).(state := state)
      modifies this, request, buf
      ensures Valid() && buf.Valid() && request == old(request) && buf.data == old(buf.data)
      ensures n <= |s| && buf.Readable() == s[n..]
      ensures Value() == WithHeaders(c, Headers()).(state := state)
      ensures hasMore ==> n > 0 && state == ExpectHeaders
      ensures hasMore ==> HeadersEffect(h, s) == Later(HeadersEffect(Headers(), s[n..]), n)
      ensures !hasMore ==> HeadersEffect(h, s) == HeadersOutcome(Headers(), n, state == ExpectBody)
      ensures !hasMore ==> state == ExpectBody || state == ExpectHeaders
    {
      var text := buf.Readable();
      var crlf := buf.FindCrlf();
      match crlf {
        case None =>
          HeadersEffectWaits(h, s);
          assert s[0..] == s;
          return false, 0;
        case Some(end) =>
          hasMore := TakeLine(buf, text, end - buf.readerIndex, h);
          n := end - old(buf.readerIndex) + 2;
      }
    }

    /** The line `text[..i]` is complete: a header is stored and the loop
        goes on, a line without a colon ends the headers. */
    method TakeLine(buf: Buffers.Buffer, text: string, i: nat, ghost h: HeaderState) returns (hasMore: bool)
      requires Valid() && buf.Valid() && state == ExpectHeaders
      requires buf.Readable() == text && Headers() == h && Buffers.FirstCrlf(text) == Some(i)
      modifies this, request, buf
      ensures Valid() && buf.Valid() && request == old(request) && buf.data == old(buf.data)
      ensures i + 2 <= |text| && buf.Readable() == text[i + 2..]
      ensures request.Value() == old(request.Value()).(headers := request.headers)
      ensures bodyReceived == old(bodyReceived)
      ensures hasMore ==> state == ExpectHeaders
      ensures hasMore ==> HeadersEffect(h, text) == Later(HeadersEffect(Headers(), text[i + 2..]), i + 2)
      ensures !hasMore ==> HeadersEffect(h, text) == HeadersOutcome(Headers(), i + 2, state == ExpectBody)
      ensures !hasMore ==> state == ExpectBody
    {
      match IndexOf(text[..i], ':') {
        case Some(c) =>
          HeadersEffectTakesLine(h, text, i, c);
          TakeHeader(buf, text, i, c);
          return true;
        case None =>
          HeadersEffectEnds(h, text, i);
          EndHeaders(buf, text, i);
          return false;
      }
    }

    /** A header line `text[..i]` with its colon at `c`: the line and its
        CRLF leave the buffer and the header is stored. */
    method TakeHeader(buf: Buffers.Buffer, text: string, i: nat, c: nat)
      requires Valid() && buf.Valid() && state == ExpectHeaders
      requires buf.Readable() == text && c < i && i + 2 <= |text|
      modifies this, request, buf
      ensures Valid() && buf.Valid() && request == old(request) && buf.data == old(buf.data)
      ensures buf.Readable() == text[i + 2..]
      ensures request.Value() == old(request.Value()).(headers := request.headers)
      ensures Headers() == ApplyHeaderLine(old(Headers()), text, c, i)
      ensures state == ExpectHeaders && bodyReceived == old(bodyReceived)
    {
      buf.RetrieveUntil(buf.readerIndex + i + 2);
      ghost var rest := buf.Readable();
      assert rest == text[i + 2..];
      TakeHeaderLine(text, i, c);
      assert buf.Valid() && buf.Readable() == rest;
    }

    /** The line without a colon that ends the headers leaves the buffer,
        with its CRLF, and the body is expected next. */
    method EndHeaders(buf: Buffers.Buffer, text: string, i: nat)
      requires Valid() && buf.Valid() && state == ExpectHeaders
      requires buf.Readable() == text && i + 2 <= |text|
      modifies this, buf
      ensures Valid() && buf.Valid() && request == old(request) && buf.data == old(buf.data)
      ensures buf.Readable() == text[i + 2..]
      ensures Value() == old(Value()).(state := ExpectBody)
    {
      buf.RetrieveUntil(buf.readerIndex + i + 2);
      state := ExpectBody;
    }

    /** One header line of `processHeaders`: `s` is the readable input and
        `s[..i]` the line, with its first colon at `c`. The field is stored
        and the length or the chunked coding noted. */
    method TakeHeaderLine(s: string, i: nat, c: nat)
      requires Valid() && state == ExpectHeaders && c < i <= |s|
      modifies this, request
      ensures Valid() && request == old(request)
      ensures Headers() == ApplyHeaderLine(old(Headers()), s, c, i)
      ensures request.Value() == old(request.Value()).(headers := request.headers)
      ensures state == ExpectHeaders && bodyReceived == old(bodyReceived)
    {
      ghost var headers := request.headers;
      ghost var stored := OrderedMap.Put(headers, s[..c], TrimSpaces(s[c + 1..i]));
      request.AddHeader(s[..i], c);
      assert s[..i][..c] == s[..c] && s[..i][c + 1..] == s[c + 1..i];
      assert request.headers == stored;
      contentLength, isChunked := ReadHeaderValue(headers, contentLength, isChunked, s, c, i);
      assert Headers() == HeaderState(stored, contentLength, isChunked);
    }

    /** `processBody`: move as many body bytes as are available and still
        expected from the buffer into the request; answer whether the
        body is complete. A chunked body is never read. */
    method ProcessBody(buf: Buffers.Buffer) returns (done: bool)
      requires Valid() && buf.Valid() && state == ExpectBody
      modifies this, request, buf
      ensures Valid() && buf.Valid() && request == old(request) && buf.data == old(buf.data)
      ensures (Value(), buf.Readable(), done) == BodyEffect(old(Value()), old(buf.Readable()))
    {
      if isChunked {
        return false;
      }
      var readable := buf.ReadableBytes();
      var remaining := RemainingLength();
      var toRead := if readable < remaining then readable else remaining;
      assert remaining == contentLength - bodyReceived;
      ghost var input := buf.Readable();
      if toRead > 0 {
        var chunk := buf.data[buf.readerIndex..buf.readerIndex + toRead];
        assert chunk == input[..toRead];
        request.AppendToBody(chunk);
        bodyReceived := bodyReceived + toRead;
        buf.Retrieve(toRead);
      } else {
        assert request.body + input[..0] == request.body;
        assert input[0..] == input;
      }
      done := bodyReceived >= contentLength;
    }

    /** `parseRequest`, corrected so that every call returns: the loop also
        ends when the header block is still incomplete and when the
        request was already complete. Each call does what the corrected
        parse loop `Run` computes. */
    method ParseRequest(buf: Buffers.Buffer, receiveTime: Timestamps.Timestamp) returns (result: ParseResult)
      requires Valid() && buf.Valid()
      requires state == ExpectRequestLine ==> request.httpMethod == Invalid
      modifies this, request, buf
      ensures Valid() && buf.Valid() && request == old(request) && buf.data == old(buf.data)
      ensures var q := Run(Start(old(Value()), old(buf.Readable())), receiveTime);
        Value() == q.ctx && buf.Readable() == q.input && result == q.result
      ensures result != Error && state == ExpectRequestLine ==> request.httpMethod == Invalid
    {
      result := NeedMore;
      var hasMore := true;
      ghost var cur := Start(Value(), buf.Readable());
      ghost var target := Run(cur, receiveTime);
      while hasMore
        invariant Valid() && buf.Valid() && request == old(request) && buf.data == old(buf.data)
        invariant cur == Progress(Value(), buf.Readable(), result, hasMore)
        invariant WellFormed(cur.ctx) && Run(cur, receiveTime) == target
        invariant hasMore ==> result != Error
        invariant result != Error && state == ExpectRequestLine ==> request.httpMethod == Invalid
        decreases if hasMore then 5 - Rank(state) else 0
      {
        RunUnfold(cur, receiveTime);
        if state == ExpectRequestLine {
          result, hasMore := RequestLineTurn(buf, receiveTime, result, cur);
        } else if state == ExpectHeaders {
          result, hasMore := HeadersTurn(buf, result, cur);
        } else if state == ExpectBody {
          result, hasMore := BodyTurn(buf, result, cur);
        } else {
          hasMore := false;
        }
        cur := Step(cur, receiveTime, true);
      }
    }

    /** The request-line branch of one turn of the loop. */
    method RequestLineTurn(buf: Buffers.Buffer, receiveTime: Timestamps.Timestamp, result0: ParseResult, ghost p: Progress)
      returns (result: ParseResult, hasMore: bool)
      requires Valid() && buf.Valid() && state == ExpectRequestLine && request.httpMethod == Invalid
      requires p == Progress(Value(), buf.Readable(), result0, true)
      modifies this, request, buf
      ensures Valid() && buf.Valid() && request == old(request) && buf.data == old(buf.data)
      ensures Progress(Value(), buf.Readable(), result, hasMore) == RequestLineStep(p, receiveTime)
      ensures result != Error && state == ExpectRequestLine ==> request.httpMethod == Invalid
    {
      result, hasMore := result0, true;
      var crlf := buf.FindCrlf();
      match crlf {
        case None =>
          RequestLineWaits(p, receiveTime);
          hasMore := false;
        case Some(end) =>
          var i := end - buf.readerIndex;
          var text := buf.Readable();
          ghost var after := RequestLineEffect(p.ctx.request, text[..i]);
          var ok := TakeRequestLine(buf, receiveTime, text, i);
          RequestLineTaken(p, receiveTime, i, after.0, after.1);
          if !ok {
            result := Error;
            hasMore := false;
          }
      }
    }

    /** The line `text[..i]` goes to `processRequestLine`. When it is
        accepted the receive time is stamped, the line and its CRLF leave
        the buffer and the headers are expected next. */
    method TakeRequestLine(buf: Buffers.Buffer, receiveTime: Timestamps.Timestamp, text: string, i: nat)
      returns (ok: bool)
      requires Valid() && buf.Valid() && state == ExpectRequestLine && request.httpMethod == Invalid
      requires buf.Readable() == text && i + 2 <= |text|
      modifies this, request, buf
      ensures Valid() && buf.Valid() && request == old(request) && buf.data == old(buf.data)
      ensures var after := RequestLineEffect(old(request.Value()), text[..i]);
        && ok == after.1
        && (ok ==> Value() == old(Value()).(request := after.0.(receiveTime := receiveTime), state := ExpectHeaders))
        && (ok ==> buf.Readable() == text[i + 2..])
        && (!ok ==> Value() == old(Value()).(request := after.0) && buf.Readable() == text)
    {
      ok := ProcessRequestLine(text[..i]);
      assert Valid() && buf.Valid() && buf.Readable() == text;
      if ok {
        AcceptRequestLine(buf, receiveTime, i);
      }
    }

    method AcceptRequestLine(buf: Buffers.Buffer, receiveTime: Timestamps.Timestamp, i: nat)
      requires Valid() && buf.Valid() && state == ExpectRequestLine
      requires i + 2 <= |buf.Readable()|
      modifies this, request, buf
      ensures Valid() && buf.Valid() && request == old(request) && buf.data == old(buf.data)
      ensures Value() == old(Value()).(request := old(request.Value()).(receiveTime := receiveTime), state := ExpectHeaders)
      ensures buf.Readable() == old(buf.Readable())[i + 2..]
    {
      request.SetReceiveTime(receiveTime);
      buf.RetrieveUntil(buf.readerIndex + i + 2);
      state := ExpectHeaders;
    }

    /** The headers branch of one turn of the loop. */
    method HeadersTurn(buf: Buffers.Buffer, result0: ParseResult, ghost p: Progress)
      returns (result: ParseResult, hasMore: bool)
      requires Valid() && buf.Valid() && state == ExpectHeaders
      requires p == Progress(Value(), buf.Readable(), result0, true)
      modifies this, request, buf
      ensures Valid() && buf.Valid() && request == old(request) && buf.data == old(buf.data)
      ensures Progress(Value(), buf.Readable(), result, hasMore) == HeadersStep(p, true)
    {
      result, hasMore := result0, true;
      ghost var o := HeadersEffect(HeadersOf(p.ctx), p.input);
      ghost var c1 := WithHeaders(p.ctx, o.h);
      ProcessHeaders(buf, p.input, p.ctx);
      assert buf.Readable() == p.input[o.consumed..];
      if state == ExpectBody {
        assert o.ended && Value() == c1.(state := ExpectBody);
        result, hasMore := EndOfHeaders(buf);
        assert AfterHeaders(c1.(state := ExpectBody), buf.Readable()) == AfterHeaders(c1, buf.Readable());
      } else {
        assert !o.ended && Value() == c1;
        hasMore := false;
      }
    }

    /** The headers have just ended: finish the request when no body is
        announced, otherwise report the headers complete. */
    method EndOfHeaders(buf: Buffers.Buffer) returns (result: ParseResult, hasMore: bool)
      requires Valid() && buf.Valid() && state == ExpectBody && bodyReceived == 0
      modifies this
      ensures Valid() && request == old(request)
      ensures Progress(Value(), buf.Readable(), result, hasMore) == AfterHeaders(old(Value()), buf.Readable())
    {
      if contentLength == 0 && !isChunked {
        state := GotAll;
        result := GotRequest;
        hasMore := false;
      } else {
        result := HeadersComplete;
        // the loop goes on to the body while bytes remain
        hasMore := buf.ReadableBytes() > 0;
      }
    }

    /** The body branch of one turn of the loop. */
    method BodyTurn(buf: Buffers.Buffer, result0: ParseResult, ghost p: Progress)
      returns (result: ParseResult, hasMore: bool)
      requires Valid() && buf.Valid() && state == ExpectBody
      requires p == Progress(Value(), buf.Readable(), result0, true)
      modifies this, request, buf
      ensures Valid() && buf.Valid() && request == old(request) && buf.data == old(buf.data)
      ensures Progress(Value(), buf.Readable(), result, hasMore) == BodyStep(p)
    {
      result := result0;
      ghost var e := BodyEffect(p.ctx, p.input);
      var done := ProcessBody(buf);
      assert Value() == e.0 && buf.Readable() == e.1 && done == e.2;
      if done {
        state := GotAll;
        result := GotRequest;
      } else if bodyReceived < contentLength {
        result := HeadersComplete;
      }
      hasMore := false;
    }
  }
}
