/** The response object and its wire form: a status line, a Connection
    line, one line per header in key order, a blank line and the body.
    The serialised text is also read back line by line, which is what a
    client of this server does with it. */
module HttpResponses {
  import opened Common
  import opened Buffers
  import OrderedMap
  import HttpRequests

  datatype StatusCode =
    | Unknown
    | Ok200
    | PartialContent206
    | MovedPermanently301
    | BadRequest400
    | Unauthorized401
    | Forbidden403
    | NotFound404
    | RangeNotSatisfiable416
    | InternalServerError500

  /** The number each enumerator stands for. */
  function Code(s: StatusCode): (n: nat)
    ensures n == 0 <==> s == Unknown
    ensures s != Unknown ==> 200 <= n < 600
  {
    match s
    case Unknown => 0
    case Ok200 => 200
    case PartialContent206 => 206
    case MovedPermanently301 => 301
    case BadRequest400 => 400
    case Unauthorized401 => 401
    case Forbidden403 => 403
    case NotFound404 => 404
    case RangeNotSatisfiable416 => 416
    case InternalServerError500 => 500
  }

  /** Distinct enumerators stand for distinct numbers. */
  lemma CodeInjective(a: StatusCode, b: StatusCode)
    requires Code(a) == Code(b)
    ensures a == b
  {
  }

  /** Every field of a response, as one value. */
  datatype ResponseValue = ResponseValue(
    headers: OrderedMap.Entries,
    statusCode: StatusCode,
    statusMessage: string,
    closeConnection: bool,
    body: string,
    async: bool)

  /** `HttpResponse(close)`: unknown status, no message, headers or body,
      not asynchronous. */
  function FreshResponse(close: bool): ResponseValue
  {
    ResponseValue([], Unknown, [], close, [], false)
  }

  // ---------------------------------------------------------------------
  // The wire form.

  const Crlf: string := "\r\n"
  const Version: string := "HTTP/1.1 "

  /** "HTTP/1.1 <code> <message>"; the code is printed with `%d`. A
      32-byte scratch buffer holds the first part, which is never more
      than 13 characters for these codes, so nothing is cut off. */
  function StatusLine(r: ResponseValue): string
  {
    Version + NatToString(Code(r.statusCode)) + " " + r.statusMessage
  }

  function ConnectionLine(r: ResponseValue): string
  {
    if r.closeConnection then "Connection: close" else "Connection: Keep-Alive"
  }

  function HeaderLine(e: (string, string)): string
  {
    e.0 + ": " + e.1
  }

  /** One "key: value\r\n" per entry, in the map's (sorted) order. Built
      from the back, the way the serialising loop extends its output. */
  function HeaderBlock(h: OrderedMap.Entries): string
  {
    if h == [] then [] else HeaderBlock(h[..|h| - 1]) + HeaderLine(h[|h| - 1]) + Crlf
  }

  /** The status line and the Connection line, each with its CRLF. */
  function Head(r: ResponseValue): string
  {
    StatusLine(r) + Crlf + ConnectionLine(r) + Crlf
  }

  /** The text `appendToBuffer` adds to the output buffer. */
  function Serialized(r: ResponseValue): string
  {
    Head(r) + HeaderBlock(r.headers) + Crlf + r.body
  }

  /** Read from the front, the header block is its first line followed by
      the block of the remaining entries. */
  lemma {:induction false} HeaderBlockCons(h: OrderedMap.Entries)
    requires h != []
    ensures HeaderBlock(h) == HeaderLine(h[0]) + Crlf + HeaderBlock(h[1..])
    decreases |h|
  {
    if |h| > 1 {
      var init := h[..|h| - 1];
      HeaderBlockCons(init);
      assert init[1..] == h[1..][..|h[1..]| - 1];
      assert init[0] == h[0];
    }
  }

  /** The loop's step: one more entry adds one more line at the end. */
  lemma HeaderBlockSnoc(h: OrderedMap.Entries, i: nat)
    requires i < |h|
    ensures HeaderBlock(h[..i + 1]) == HeaderBlock(h[..i]) + (HeaderLine(h[i]) + Crlf)
  {
    assert h[..i + 1][..i] == h[..i];
  }

  /** The buffer's contents after the stages of the status and Connection lines. */
  lemma HeadPieces(s: string, code: string, message: string, connection: string)
    ensures s + (code + message + Crlf + connection + Crlf) == s + code + message + Crlf + (connection + Crlf)
  {
  }

  /** The buffer's contents after the four stages of `appendToBuffer`. */
  lemma SerializedPieces(before: string, head: string, block: string, body: string)
    ensures before + (head + block + Crlf + body) == before + head + block + Crlf + body
  {
  }

  // ---------------------------------------------------------------------
  // Reading the wire form back.

  /** No line end inside `s`. */
  predicate NoCrlf(s: string)
  {
    forall i :: 0 <= i < |s| ==> !CrlfAt(s, i)
  }

  /** The first line of `s` and what follows its CRLF, if `s` holds one. */
  function TakeLine(s: string): Option<(string, string)>
  {
    match FirstCrlf(s)
    case None => None
    case Some(i) => Some((s[..i], s[i + 2..]))
  }

  /** `n` lines read one after another, with what is left after them. */
  function TakeLines(s: string, n: nat): Option<(seq<string>, string)>
  {
    if n == 0 then Some(([], s))
    else
      var first := TakeLine(s);
      if first.None? then None
      else
        var more := TakeLines(first.value.1, n - 1);
        if more.None? then None
        else Some(([first.value.0] + more.value.0, more.value.1))
  }

  /** A line without a CRLF of its own is taken back exactly. */
  lemma TakeLineOf(line: string, rest: string)
    requires NoCrlf(line)
    ensures TakeLine(line + Crlf + rest) == Some((line, rest))
  {
    var s := line + Crlf + rest;
    assert CrlfAt(s, |line|);
    forall j | 0 <= j < |line|
      ensures !CrlfAt(s, j)
    {
      if j + 1 < |line| {
        assert !CrlfAt(line, j);
      }
    }
    assert s[..|line|] == line && s[|line| + 2..] == rest;
  }

  /** What each line of a serialised response may not contain. */
  predicate WireSafe(r: ResponseValue)
  {
    && NoCrlf(r.statusMessage)
    && forall i :: 0 <= i < |r.headers| ==> NoCrlf(r.headers[i].0) && NoCrlf(r.headers[i].1)
  }

  function HeaderLines(h: OrderedMap.Entries): (lines: seq<string>)
    ensures |lines| == |h|
    ensures forall i :: 0 <= i < |h| ==> lines[i] == HeaderLine(h[i])
  {
    if h == [] then [] else [HeaderLine(h[0])] + HeaderLines(h[1..])
  }

  /** Two strings without a line end, joined by ": ", hold none either. */
  lemma HeaderLineNoCrlf(k: string, v: string)
    requires NoCrlf(k) && NoCrlf(v)
    ensures NoCrlf(HeaderLine((k, v)))
  {
    var s := HeaderLine((k, v));
    forall i | 0 <= i < |s|
      ensures !CrlfAt(s, i)
    {
      if i + 1 < |k| {
        assert !CrlfAt(k, i);
      } else if i >= |k| + 2 && i + 1 < |s| {
        assert !CrlfAt(v, i - |k| - 2);
      }
    }
  }

  lemma StatusLineNoCrlf(r: ResponseValue)
    requires NoCrlf(r.statusMessage)
    ensures NoCrlf(StatusLine(r))
  {
    var d := NatToString(Code(r.statusCode));
    var s := StatusLine(r);
    var p := Version + d + " ";
    assert s == p + r.statusMessage;
    forall i | 0 <= i < |s|
      ensures !CrlfAt(s, i)
    {
      if i + 1 < |p| {
        assert s[i] == p[i];
        assert i < |Version| || IsDigit(d[i - |Version|]);
      } else if i >= |p| && i + 1 < |s| {
        assert !CrlfAt(r.statusMessage, i - |p|);
      }
    }
  }

  /** The header block reads back as one line per entry. */
  lemma {:induction false} HeaderBlockReadsBack(h: OrderedMap.Entries, rest: string)
    requires forall i :: 0 <= i < |h| ==> NoCrlf(h[i].0) && NoCrlf(h[i].1)
    ensures TakeLines(HeaderBlock(h) + rest, |h|) == Some((HeaderLines(h), rest))
    decreases |h|
  {
    if h != [] {
      var line := HeaderLine(h[0]);
      var tail := HeaderBlock(h[1..]) + rest;
      HeaderBlockCons(h);
      HeaderLineNoCrlf(h[0].0, h[0].1);
      assert HeaderBlock(h) + rest == line + Crlf + tail;
      HeaderBlockReadsBack(h[1..], rest);
      TakeLinesThen(line, tail, |h| - 1, HeaderLines(h[1..]), rest);
      assert HeaderLines(h) == [line] + HeaderLines(h[1..]);
    } else {
      assert HeaderBlock(h) + rest == rest;
    }
  }

  /** A line without a CRLF of its own, then `n` more lines. */
  lemma TakeLinesThen(line: string, s: string, n: nat, lines: seq<string>, tail: string)
    requires NoCrlf(line)
    requires TakeLines(s, n) == Some((lines, tail))
    ensures TakeLines(line + Crlf + s, n + 1) == Some(([line] + lines, tail))
  {
    TakeLineOf(line, s);
  }

  /** The serialised response reads back, line by line, as its status line,
      its Connection line, one line per header in key order and an empty
      line; everything after that empty line is exactly the body. */
  lemma SerializedReadsBack(r: ResponseValue)
    requires WireSafe(r)
    ensures TakeLines(Serialized(r), |r.headers| + 3) ==
      Some(([StatusLine(r), ConnectionLine(r)] + HeaderLines(r.headers) + [[]], r.body))
  {
    SerializedNested(r);
    TailReadsBack(r);
    StatusLineNoCrlf(r);
    ConnectionLineNoCrlf(r);
    TwoLinesThen(StatusLine(r), ConnectionLine(r), HeaderBlock(r.headers) + (Crlf + r.body),
                 |r.headers| + 1, HeaderLines(r.headers) + [[]], r.body);
    Reassociate([StatusLine(r), ConnectionLine(r)], HeaderLines(r.headers), [[]]);
  }

  lemma TwoLinesThen(first: string, second: string, s: string, n: nat, lines: seq<string>, tail: string)
    requires NoCrlf(first) && NoCrlf(second)
    requires TakeLines(s, n) == Some((lines, tail))
    ensures TakeLines(first + Crlf + (second + Crlf + s), n + 2) == Some(([first, second] + lines, tail))
  {
    TakeLinesThen(second, s, n, lines, tail);
    TakeLinesThen(first, second + Crlf + s, n + 1, [second] + lines, tail);
    assert [first] + ([second] + lines) == [first, second] + lines;
  }

  lemma ConnectionLineNoCrlf(r: ResponseValue)
    ensures NoCrlf(ConnectionLine(r))
  {
    var s := ConnectionLine(r);
    forall i | 0 <= i < |s|
      ensures !CrlfAt(s, i)
    {
      assert s[i] != '\r';
    }
  }

  /** The serialised text regrouped from the right, as it is read. */
  lemma SerializedNested(r: ResponseValue)
    ensures Serialized(r) ==
      StatusLine(r) + Crlf + (ConnectionLine(r) + Crlf + (HeaderBlock(r.headers) + (Crlf + r.body)))
  {
    Regroup(StatusLine(r), ConnectionLine(r), HeaderBlock(r.headers), r.body);
  }

  lemma Regroup(s: string, c: string, h: string, b: string)
    ensures s + Crlf + c + Crlf + h + Crlf + b == s + Crlf + (c + Crlf + (h + (Crlf + b)))
  {
  }

  /** After the Connection line: the header lines, the empty line, the body. */
  lemma TailReadsBack(r: ResponseValue)
    requires WireSafe(r)
    ensures TakeLines(HeaderBlock(r.headers) + (Crlf + r.body), |r.headers| + 1) ==
      Some((HeaderLines(r.headers) + [[]], r.body))
  {
    var h := r.headers;
    HeaderBlockReadsBack(h, Crlf + r.body);
    EmptyLineReadsBack(r.body);
    TakeLinesAppend(HeaderBlock(h) + (Crlf + r.body), Crlf + r.body, |h|, 1, HeaderLines(h), [[]], r.body);
  }

  lemma EmptyLineReadsBack(body: string)
    ensures TakeLines(Crlf + body, 1) == Some(([[]], body))
  {
    TakeLinesThen([], body, 0, [], body);
    assert [] + Crlf + body == Crlf + body;
    var none: seq<string> := [];
    assert [[]] + none == [[]];
  }

  /** Reading `m` lines and then `n` more is reading `m + n` lines. */
  lemma {:induction false} TakeLinesAppend(s: string, y: string, m: nat, n: nat,
                                           xs: seq<string>, ys: seq<string>, tail: string)
    requires TakeLines(s, m) == Some((xs, y))
    requires TakeLines(y, n) == Some((ys, tail))
    ensures TakeLines(s, m + n) == Some((xs + ys, tail))
    decreases m
  {
    if m > 0 {
      assert TakeLine(s).Some?;
      var (line, rest) := TakeLine(s).value;
      assert TakeLines(rest, m - 1).Some?;
      var (more, t) := TakeLines(rest, m - 1).value;
      assert xs == [line] + more && t == y;
      TakeLinesAppend(rest, y, m - 1, n, more, ys, tail);
      assert [line] + (more + ys) == ([line] + more) + ys;
    } else {
      assert xs + ys == ys;
    }
  }

  /** `sscanf`-free reading of a status line: "HTTP/1.1 ", a run of
      digits, a space, and the message. */
  function ParseStatusLine(line: string): Option<(nat, string)>
  {
    if |line| < |Version| || line[..|Version|] != Version then None
    else
      var t := line[|Version|..];
      var n := DigitRun(t);
      if n == 0 || n == |t| || t[n] != ' ' then None
      else Some((DecimalValue(t[..n]), t[n + 1..]))
  }

  lemma {:induction false} DigitRunStops(d: string, rest: string)
    requires AllDigits(d)
    requires rest != [] && !IsDigit(rest[0])
    ensures DigitRun(d + rest) == |d|
    decreases |d|
  {
    if d != [] {
      assert (d + rest)[1..] == d[1..] + rest;
      DigitRunStops(d[1..], rest);
    }
  }

  /** The status line gives back the code and the message it was made of. */
  lemma StatusLineReadsBack(r: ResponseValue)
    ensures ParseStatusLine(StatusLine(r)) == Some((Code(r.statusCode), r.statusMessage))
  {
    var d := NatToString(Code(r.statusCode));
    var line := StatusLine(r);
    var t := line[|Version|..];
    assert line[..|Version|] == Version;
    assert t == d + (" " + r.statusMessage);
    DigitRunStops(d, " " + r.statusMessage);
    assert t[..|d|] == d;
    assert t[|d| + 1..] == r.statusMessage;
    NatToStringRoundTrip(Code(r.statusCode));
  }

  /** A header line splits at its first ':' back into key and value, as the
      request parser splits it, provided the key holds no ':'. */
  lemma HeaderLineSplits(k: string, v: string)
    requires ':' !in k
    ensures HttpRequests.IndexOf(HeaderLine((k, v)), ':') == Some(|k|)
    ensures HeaderLine((k, v))[..|k|] == k
    ensures HeaderLine((k, v))[|k| + 1..] == " " + v
  {
    var s := HeaderLine((k, v));
    assert s[|k|] == ':';
    assert forall j :: 0 <= j < |k| ==> s[j] == k[j];
    HttpRequests.IndexOfAt(s, ':', |k|);
  }

  // ---------------------------------------------------------------------
  // The response object.

  class HttpResponse {
    var headers: OrderedMap.Entries
    var statusCode: StatusCode
    var statusMessage: string
    var closeConnection: bool
    var body: string
    var async: bool

    ghost predicate Valid()
      reads this
    {
      OrderedMap.Sorted(headers)
    }

    function Value(): ResponseValue
      reads this
    {
      ResponseValue(headers, statusCode, statusMessage, closeConnection, body, async)
    }

    constructor (close: bool)
      ensures Valid()
      ensures Value() == FreshResponse(close)
    {
      headers := [];
      statusCode := Unknown;
      statusMessage := [];
      closeConnection := close;
      body := [];
      async := false;
    }

    method SetStatusCode(code: StatusCode)
      modifies this
      ensures Value() == old(Value()).(statusCode := code)
    {
      statusCode := code;
    }

    method SetStatusMessage(message: string)
      modifies this
      ensures Value() == old(Value()).(statusMessage := message)
    {
      statusMessage := message;
    }

    method SetCloseConnection(on: bool)
      modifies this
      ensures Value() == old(Value()).(closeConnection := on)
    {
      closeConnection := on;
    }

    method SetBody(b: string)
      modifies this
      ensures Value() == old(Value()).(body := b)
    {
      body := b;
    }

    method SetAsync(on: bool)
      modifies this
      ensures Value() == old(Value()).(async := on)
    {
      async := on;
    }

    /** `headers_[key] = value`: the key now maps to `value`, every other
        key keeps its value, and the keys stay sorted. */
    method AddHeader(key: string, value: string)
      requires Valid()
      modifies this
      ensures Valid()
      ensures Value() == old(Value()).(headers := OrderedMap.Put(old(headers), key, value))
      ensures forall k :: OrderedMap.Get(headers, k) == if k == key then Some(value) else OrderedMap.Get(old(headers), k)
      ensures OrderedMap.KeySet(headers) == OrderedMap.KeySet(old(headers)) + {key}
    {
      OrderedMap.PutKeepsSorted(headers, key, value);
      forall k
        ensures OrderedMap.Get(OrderedMap.Put(headers, key, value), k) ==
                if k == key then Some(value) else OrderedMap.Get(headers, k)
      {
        OrderedMap.PutGet(headers, key, value, k);
      }
      OrderedMap.PutKeySet(headers, key, value);
      headers := OrderedMap.Put(headers, key, value);
    }

    /** `setContentType` is the header "Content-Type", replacing any earlier one. */
    method SetContentType(contentType: string)
      requires Valid()
      modifies this
      ensures Valid()
      ensures Value() == old(Value()).(headers := OrderedMap.Put(old(headers), "Content-Type", contentType))
      ensures OrderedMap.Get(headers, "Content-Type") == Some(contentType)
    {
      AddHeader("Content-Type", contentType);
    }

    /** `appendToBuffer`: the serialised response goes after whatever the
        output buffer already held. */
    method AppendToBuffer(output: Buffer)
      requires output.Valid()
      modifies output, output.data
      ensures output.Valid()
      ensures output.Readable() == old(output.Readable()) + Serialized(Value())
    {
      ghost var before := output.Readable();
      AppendHead(output, Value(), before);
      AppendHeaders(output, headers);
      output.Append(Crlf);
      output.Append(body);
      SerializedPieces(before, Head(Value()), HeaderBlock(headers), body);
    }

    /** The status line ("HTTP/1.1 <code> " from a 32-byte scratch buffer,
        then the message) and the Connection line. */
    static method AppendHead(output: Buffer, r: ResponseValue, ghost s: string)
      requires output.Valid() && output.Readable() == s
      modifies output, output.data
      ensures output.Valid()
      ensures fresh(output.data) || output.data == old(output.data)
      ensures output.Readable() == s + Head(r)
    {
      var code := Version + NatToString(Code(r.statusCode)) + " ";
      output.Append(code);
      output.Append(r.statusMessage);
      output.Append(Crlf);
      output.Append(ConnectionLine(r) + Crlf);
      HeadPieces(s, code, r.statusMessage, ConnectionLine(r));
    }

    /** The header loop: one "key: value\r\n" per entry, in key order. */
    static method AppendHeaders(output: Buffer, h: OrderedMap.Entries)
      requires output.Valid()
      modifies output, output.data
      ensures output.Valid()
      ensures fresh(output.data) || output.data == old(output.data)
      ensures output.Readable() == old(output.Readable()) + HeaderBlock(h)
    {
      ghost var start := output.Readable();
      var i := 0;
      while i < |h|
        invariant i <= |h| && output.Valid()
        invariant fresh(output.data) || output.data == old(output.data)
        invariant output.Readable() == start + HeaderBlock(h[..i])
      {
        AppendHeader(output, h[i], output.Readable());
        HeaderBlockSnoc(h, i);
        Reassociate(start, HeaderBlock(h[..i]), HeaderLine(h[i]) + Crlf);
        i := i + 1;
      }
      assert h[..i] == h;
    }

    /** One iteration of the header loop. */
    static method AppendHeader(output: Buffer, e: (string, string), ghost s: string)
      requires output.Valid() && output.Readable() == s
      modifies output, output.data
      ensures output.Valid()
      ensures fresh(output.data) || output.data == old(output.data)
      ensures output.Readable() == s + (HeaderLine(e) + Crlf)
    {
      output.Append(HeaderLine(e) + Crlf);
    }
  }
}
