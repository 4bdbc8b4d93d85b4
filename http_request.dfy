/** One parsed HTTP request: httpMethod, version, target split into path and
    query, headers kept in a sorted map, body, and the path parameters a
    router binds. Also the two string utilities the request offers to its
    handlers: query-parameter lookup and URL decoding. */
module HttpRequests {
  import opened Common
  import OrderedMap
  import Timestamps

  datatype Method = Invalid | Get | Post | Head | Put | Delete
  datatype Version = Unknown | Http10 | Http11

  /** The method a request-line token names; anything else is `Invalid`. */
  function MethodOfToken(m: string): Method
  {
    if m == "GET" then Get
    else if m == "POST" then Post
    else if m == "HEAD" then Head
    else if m == "PUT" then Put
    else if m == "DELETE" then Delete
    else Invalid
  }

  /** `methodString`: the token of a method, "UNKNOWN" for `Invalid`. */
  function MethodName(m: Method): (s: string)
    ensures m != Invalid ==> MethodOfToken(s) == m
    ensures m == Invalid ==> s == "UNKNOWN" && MethodOfToken(s) == Invalid
  {
    match m
    case Get => "GET"
    case Post => "POST"
    case Head => "HEAD"
    case Put => "PUT"
    case Delete => "DELETE"
    case Invalid => "UNKNOWN"
  }

  /** Printing the method of an accepted token gives the token back. */
  lemma MethodNameOfToken(m: string)
    requires MethodOfToken(m) != Invalid
    ensures MethodName(MethodOfToken(m)) == m
  {
  }

  // ---------------------------------------------------------------------
  // Header values are stored with surrounding white space removed.

  predicate AllSpace(s: string)
  {
    forall i :: 0 <= i < |s| ==> IsSpace(s[i])
  }

  /** Number of white-space characters at the front of `s`. */
  function LeadingSpaces(s: string): (n: nat)
    ensures n <= |s|
    ensures AllSpace(s[..n])
    ensures n < |s| ==> !IsSpace(s[n])
  {
    if s == [] || !IsSpace(s[0]) then 0
    else
      var k := LeadingSpaces(s[1..]);
      assert s[..k + 1] == [s[0]] + s[1..][..k];
      k + 1
  }

  /** Length of `s` once its trailing white space is dropped. */
  function TrimEndLength(s: string): (n: nat)
    ensures n <= |s|
    ensures AllSpace(s[n..])
    ensures n > 0 ==> !IsSpace(s[n - 1])
  {
    if s == [] then 0
    else if !IsSpace(s[|s| - 1]) then |s|
    else
      var n := TrimEndLength(s[..|s| - 1]);
      assert s[n..] == s[..|s| - 1][n..] + [s[|s| - 1]];
      n
  }

  /** `s` without its leading and trailing white space. */
  function TrimSpaces(s: string): string
  {
    var a := LeadingSpaces(s);
    s[a..][..TrimEndLength(s[a..])]
  }

  /** The trimmed value neither starts nor ends with white space, and the
      original is that value with only white space around it. */
  lemma TrimSpacesStrips(s: string)
    ensures var r := TrimSpaces(s);
      && (r == [] || (!IsSpace(r[0]) && !IsSpace(r[|r| - 1])))
      && LeadingSpaces(s) + |r| <= |s|
      && s == s[..LeadingSpaces(s)] + r + s[LeadingSpaces(s) + |r|..]
      && AllSpace(s[..LeadingSpaces(s)]) && AllSpace(s[LeadingSpaces(s) + |r|..])
  {
    var a := LeadingSpaces(s);
    var t := s[a..];
    var n := TrimEndLength(t);
    var r := t[..n];
    assert r == TrimSpaces(s);
    assert t[n..] == s[a + n..];
    assert r == s[a..a + n];
    Reassemble(s, a, a + n);
    if r != [] {
      assert r[0] == s[a] && r[|r| - 1] == t[n - 1];
    }
  }

  /** A string is its three consecutive slices put back together. */
  lemma Reassemble(s: string, a: nat, b: nat)
    requires a <= b <= |s|
    ensures s[..a] + s[a..b] + s[b..] == s
  {
  }

  /** Trimming twice trims nothing more. */
  lemma TrimSpacesIdempotent(s: string)
    ensures TrimSpaces(TrimSpaces(s)) == TrimSpaces(s)
  {
    var r := TrimSpaces(s);
    TrimSpacesStrips(s);
    if r != [] {
      assert LeadingSpaces(r) == 0;
      assert TrimEndLength(r) == |r|;
      assert r[0..][..|r|] == r;
    }
  }

  // ---------------------------------------------------------------------
  // URL decoding.

  /** `sscanf(two, "%x", &value)` on the two characters after a '%': white
      space is skipped, a sign is accepted, and as many hex digits as are
      present are read. When nothing converts, `value` keeps whatever the
      uninitialised variable held; that unknown value is `unset`. */
  function ScanHexPair(a: char, b: char, unset: int): int
  {
    if IsSpace(a) || a == '+' then (if IsHexDigit(b) then HexValue(b) else unset)
    else if a == '-' then (if IsHexDigit(b) then -(HexValue(b) as int) else unset)
    else if IsHexDigit(a) then (if IsHexDigit(b) then 16 * HexValue(a) + HexValue(b) else HexValue(a))
    else unset
  }

  /** `static_cast<char>` keeps the low eight bits. */
  function ByteChar(v: int): (c: char)
    ensures (c as int) < 256
  {
    (v % 256) as char
  }

  /** What `HttpRequest::urlDecode` produces: '+' becomes a space, '%'
      followed by at least two characters becomes the byte they scan to,
      and a '%' with fewer than two characters after it is dropped. */
  function UrlDecoded(s: string, unset: int): string
  {
    if s == [] then []
    else if s[0] != '%' then [if s[0] == '+' then ' ' else s[0]] + UrlDecoded(s[1..], unset)
    else if |s| >= 3 then [ByteChar(ScanHexPair(s[1], s[2], unset))] + UrlDecoded(s[3..], unset)
    else UrlDecoded(s[1..], unset)
  }

  /** Decoding never makes text longer. */
  lemma {:induction false} UrlDecodeNeverLonger(s: string, unset: int)
    ensures |UrlDecoded(s, unset)| <= |s|
  {
    if s != [] {
      if s[0] == '%' && |s| >= 3 {
        UrlDecodeNeverLonger(s[3..], unset);
      } else {
        UrlDecodeNeverLonger(s[1..], unset);
      }
    }
  }

  /** Upper-case hexadecimal digit for 0..15. */
  function HexDigitChar(v: nat): (c: char)
    requires v < 16
    ensures IsHexDigit(c) && HexValue(c) == v
  {
    if v < 10 then ('0' as int + v) as char else ('A' as int + v - 10) as char
  }

  /** Percent-encodes every character of a byte string. */
  function PercentEncoded(s: string): (r: string)
    requires forall i :: 0 <= i < |s| ==> (s[i] as int) < 256
    ensures |r| == 3 * |s|
  {
    if s == [] then []
    else ['%', HexDigitChar((s[0] as int) / 16), HexDigitChar((s[0] as int) % 16)] + PercentEncoded(s[1..])
  }

  /** Decoding undoes percent-encoding for every byte string, whatever the
      uninitialised scan result would have been. */
  lemma {:induction false} UrlDecodeInvertsPercentEncode(s: string, unset: int)
    requires forall i :: 0 <= i < |s| ==> (s[i] as int) < 256
    ensures UrlDecoded(PercentEncoded(s), unset) == s
  {
    if s != [] {
      var e := PercentEncoded(s);
      assert e[3..] == PercentEncoded(s[1..]);
      EncodedByteDecodes(s[0], unset);
      assert UrlDecoded(e, unset) == [s[0]] + UrlDecoded(e[3..], unset);
      UrlDecodeInvertsPercentEncode(s[1..], unset);
      assert s == [s[0]] + s[1..];
    }
  }

  /** The two hexadecimal digits of a byte scan back to that byte. */
  lemma EncodedByteDecodes(c: char, unset: int)
    requires (c as int) < 256
    ensures ByteChar(ScanHexPair(HexDigitChar((c as int) / 16), HexDigitChar((c as int) % 16), unset)) == c
  {
    var v := c as int;
    assert 16 * (v / 16) + v % 16 == v;
  }

  /** Text with no '%' and no '+' decodes to itself. */
  lemma {:induction false} UrlDecodePlainText(s: string, unset: int)
    requires forall i :: 0 <= i < |s| ==> s[i] != '%' && s[i] != '+'
    ensures UrlDecoded(s, unset) == s
  {
    if s != [] {
      UrlDecodePlainText(s[1..], unset);
    }
  }

  // ---------------------------------------------------------------------
  // Query strings.

  /** Index of the first `c` in `s`, as `std::string::find`. */
  function IndexOf(s: string, c: char): (r: Option<nat>)
    ensures r.Some? ==> r.value < |s| && s[r.value] == c
    ensures r.Some? ==> forall j :: 0 <= j < r.value ==> s[j] != c
    ensures r.None? ==> forall j :: 0 <= j < |s| ==> s[j] != c
  {
    if s == [] then None
    else if s[0] == c then Some(0)
    else match IndexOf(s[1..], c)
      case None => None
      case Some(i) =>
        Some(i + 1)
  }

  /** The first occurrence is the one with no earlier occurrence. */
  lemma {:induction false} IndexOfAt(s: string, c: char, k: nat)
    requires k < |s| && s[k] == c
    requires forall j :: 0 <= j < k ==> s[j] != c
    ensures IndexOf(s, c) == Some(k)
  {
    if k > 0 {
      IndexOfAt(s[1..], c, k - 1);
    }
  }

  /** The pieces of `s` between occurrences of `sep`; empty pieces kept. */
  function Split(s: string, sep: char): (r: seq<string>)
    ensures |r| >= 1
    decreases |s|
  {
    match IndexOf(s, sep)
    case None => [s]
    case Some(i) => [s[..i]] + Split(s[i + 1..], sep)
  }

  /** No piece contains the separator. */
  lemma {:induction false} SplitPiecesFree(s: string, sep: char)
    ensures forall i :: 0 <= i < |Split(s, sep)| ==> sep !in Split(s, sep)[i]
    decreases |s|
  {
    match IndexOf(s, sep)
    case None =>
    case Some(i) =>
      SplitPiecesFree(s[i + 1..], sep);
      var rest := Split(s[i + 1..], sep);
      assert Split(s, sep) == [s[..i]] + rest;
      forall k | 0 <= k < |Split(s, sep)|
        ensures sep !in Split(s, sep)[k]
      {
        if k > 0 {
          assert Split(s, sep)[k] == rest[k - 1];
        }
      }
  }

  /** Joining the pieces with the separator gives back the original text. */
  lemma {:induction false} JoinSplit(s: string, sep: char)
    ensures Join(Split(s, sep), [sep]) == s
    decreases |s|
  {
    match IndexOf(s, sep)
    case None =>
    case Some(i) =>
      var rest := Split(s[i + 1..], sep);
      JoinSplit(s[i + 1..], sep);
      calc {
        Join(Split(s, sep), [sep]);
        Join([s[..i]] + rest, [sep]);
        { assert ([s[..i]] + rest)[1..] == rest; }
        s[..i] + [sep] + Join(rest, [sep]);
        s[..i] + [sep] + s[i + 1..];
        { assert s[i] == sep; }
        s;
      }
  }

  /** Splitting a joined list of separator-free pieces gives the pieces back. */
  lemma {:induction false} SplitJoin(pieces: seq<string>, sep: char)
    requires |pieces| >= 1
    requires forall i :: 0 <= i < |pieces| ==> sep !in pieces[i]
    ensures Split(Join(pieces, [sep]), sep) == pieces
  {
    if |pieces| > 1 {
      var rest := Join(pieces[1..], [sep]);
      assert Join(pieces, [sep]) == pieces[0] + [sep] + rest;
      SplitAtFirst(pieces[0], sep, rest);
      SplitJoin(pieces[1..], sep);
    } else {
      assert IndexOf(pieces[0], sep).None?;
    }
  }

  /** A separator-free piece, the separator, then the rest: one split step. */
  lemma SplitAtFirst(piece: string, sep: char, rest: string)
    requires sep !in piece
    ensures Split(piece + [sep] + rest, sep) == [piece] + Split(rest, sep)
  {
    var j := piece + [sep] + rest;
    IndexOfAt(j, sep, |piece|);
    assert j[..|piece|] == piece;
    assert j[|piece| + 1..] == rest;
  }

  /** The key part of a parameter: up to the first '=', or all of it. */
  function ParamKey(param: string): string
  {
    match IndexOf(param, '=')
    case Some(p) => param[..p]
    case None => param
  }

  /** First parameter whose key is `key`: "k=v" yields the decoded `v`, a
      bare "k" yields "true". */
  function LookupParam(params: seq<string>, key: string, unset: int): (r: Option<string>)
    ensures r.None? <==> forall i :: 0 <= i < |params| ==> ParamKey(params[i]) != key
  {
    if params == [] then None
    else match IndexOf(params[0], '=')
      case Some(p) =>
        if params[0][..p] == key then Some(UrlDecoded(params[0][p + 1..], unset))
        else LookupParam(params[1..], key, unset)
      case None =>
        if params[0] == key then Some("true") else LookupParam(params[1..], key, unset)
  }

  /** `getQuery(key, default)` on a stored query string (which keeps its '?'). */
  function QueryValue(query: string, key: string, default: string, unset: int): (r: string)
    ensures query == [] || query[0] != '?' ==> r == default
    ensures (query != [] && query[0] == '?' &&
             forall i :: 0 <= i < |Split(query[1..], '&')| ==> ParamKey(Split(query[1..], '&')[i]) != key) ==>
            r == default
  {
    if query == [] || query[0] != '?' then default
    else match LookupParam(Split(query[1..], '&'), key, unset)
      case Some(v) => v
      case None => default
  }

  /** When the first parameter with key `key` is "key=v", the lookup answers
      the decoded `v`; earlier parameters with other keys do not interfere. */
  lemma {:induction false} LookupFindsFirst(params: seq<string>, i: nat, key: string, v: string, unset: int)
    requires i < |params| && '=' !in key && params[i] == key + "=" + v
    requires forall j :: 0 <= j < i ==> ParamKey(params[j]) != key
    ensures LookupParam(params, key, unset) == Some(UrlDecoded(v, unset))
  {
    if i == 0 {
      assert params[0][..|key|] == key;
      IndexOfAt(params[0], '=', |key|);
      assert params[0][|key| + 1..] == v;
    } else {
      assert ParamKey(params[0]) != key;
      LookupFindsFirst(params[1..], i - 1, key, v, unset);
    }
  }

  /** When the first parameter with key `key` is the bare "key", the
      lookup answers "true". */
  lemma {:induction false} LookupFindsBareKey(params: seq<string>, i: nat, key: string, unset: int)
    requires i < |params| && '=' !in key && params[i] == key
    requires forall j :: 0 <= j < i ==> ParamKey(params[j]) != key
    ensures LookupParam(params, key, unset) == Some("true")
  {
    if i > 0 {
      assert ParamKey(params[0]) != key;
      LookupFindsBareKey(params[1..], i - 1, key, unset);
    }
  }

  // ---------------------------------------------------------------------
  // The request object.

  /** Every field of a request, as one value. */
  datatype RequestValue = RequestValue(
    httpMethod: Method,
    version: Version,
    path: string,
    query: string,
    body: string,
    receiveTime: Timestamps.Timestamp,
    headers: OrderedMap.Entries,
    pathParams: map<string, string>)

  /** A request as freshly constructed: no method, no version, every
      string and table empty and the invalid receive time. */
  function EmptyRequest(): RequestValue
  {
    RequestValue(Invalid, Unknown, [], [], [], Timestamps.Invalid(), [], map[])
  }

  class HttpRequest {
    var httpMethod: Method
    var version: Version
    var path: string
    var query: string
    var body: string
    var receiveTime: Timestamps.Timestamp
    var headers: OrderedMap.Entries
    var pathParams: map<string, string>

    ghost predicate Valid()
      reads this
    {
      OrderedMap.Sorted(headers)
    }

    function Value(): RequestValue
      reads this
    {
      RequestValue(httpMethod, version, path, query, body, receiveTime, headers, pathParams)
    }

    constructor ()
      ensures Valid()
      ensures Value() == EmptyRequest()
    {
      httpMethod := Invalid;
      version := Unknown;
      path := [];
      query := [];
      body := [];
      receiveTime := Timestamps.Invalid();
      headers := [];
      pathParams := map[];
    }

    method SetVersion(v: Version)
      modifies this
      ensures Value() == old(Value()).(version := v)
    {
      version := v;
    }

    /** `setMethod`: only a request whose method is not yet set may be given
        one; the answer says whether the token named a known method. */
    method SetMethod(token: string) returns (ok: bool)
      requires httpMethod == Invalid
      modifies this
      ensures Value() == old(Value()).(httpMethod := MethodOfToken(token))
      ensures ok <==> token in {"GET", "POST", "HEAD", "PUT", "DELETE"}
      ensures ok ==> MethodName(httpMethod) == token
    {
      httpMethod := MethodOfToken(token);
      ok := httpMethod != Invalid;
    }

    method SetPath(p: string)
      modifies this
      ensures Value() == old(Value()).(path := p)
    {
      path := p;
    }

    method SetQuery(q: string)
      modifies this
      ensures Value() == old(Value()).(query := q)
    {
      query := q;
    }

    method SetBody(b: string)
      modifies this
      ensures Value() == old(Value()).(body := b)
    {
      body := b;
    }

    method AppendToBody(data: string)
      modifies this
      ensures Value() == old(Value()).(body := old(body) + data)
    {
      body := body + data;
    }

    method SetReceiveTime(t: Timestamps.Timestamp)
      modifies this
      ensures Value() == old(Value()).(receiveTime := t)
    {
      receiveTime := t;
    }

    /** `addHeader(start, colon, end)` on the header line `line`, with
        `line[colon]` the separator: the field is everything before it and
        the value everything after it, trimmed of white space; an existing
        value for the same field is replaced. */
    method AddHeader(line: string, colon: nat)
      requires Valid() && colon < |line|
      modifies this
      ensures Valid()
      ensures Value() == old(Value()).(headers := OrderedMap.Put(old(headers), line[..colon], TrimSpaces(line[colon + 1..])))
      ensures GetHeader(line[..colon]) == TrimSpaces(line[colon + 1..])
    {
      var field := line[..colon];
      var start := SkipLeadingSpaces(line, colon + 1);
      var value := DropTrailingSpaces(line[start..]);
      assert value == TrimSpaces(line[colon + 1..]) by {
        assert line[start..] == line[colon + 1..][LeadingSpaces(line[colon + 1..])..];
      }
      OrderedMap.PutKeepsSorted(headers, field, value);
      headers := OrderedMap.Put(headers, field, value);
      OrderedMap.PutGet(old(headers), field, value, field);
    }

    /** The loop of `addHeader` that skips the white space after the colon. */
    static method SkipLeadingSpaces(s: string, from: nat) returns (start: nat)
      requires from <= |s|
      ensures start == from + LeadingSpaces(s[from..])
    {
      start := from;
      while start < |s| && IsSpace(s[start])
        invariant from <= start <= |s|
        invariant LeadingSpaces(s[from..]) == LeadingSpaces(s[start..]) + (start - from)
      {
        assert s[start..][1..] == s[start + 1..];
        start := start + 1;
      }
    }

    /** The loop of `addHeader` that drops white space from the end of the value. */
    static method DropTrailingSpaces(s: string) returns (value: string)
      ensures value == s[..TrimEndLength(s)]
    {
      value := s;
      while value != [] && IsSpace(value[|value| - 1])
        invariant |value| <= |s| && value == s[..|value|]
        invariant TrimEndLength(s) == TrimEndLength(value)
      {
        assert value[..|value| - 1] == s[..|value| - 1];
        value := value[..|value| - 1];
      }
      assert value[..TrimEndLength(value)] == value;
    }

    /** `getHeader`: the stored value, or the empty string when absent. */
    function GetHeader(field: string): (r: string)
      requires Valid()
      reads this
      ensures OrderedMap.Get(headers, field).Some? ==> OrderedMap.Get(headers, field) == Some(r)
      ensures field !in OrderedMap.KeySet(headers) ==> r == []
    {
      match OrderedMap.Get(headers, field)
      case Some(v) => v
      case None => []
    }

    /** `swap`: every field but the path parameters changes places. */
    method Swap(that: HttpRequest)
      requires that != this
      modifies this, that
      ensures Value() == old(that.Value()).(pathParams := old(pathParams))
      ensures that.Value() == old(Value()).(pathParams := old(that.pathParams))
    {
      httpMethod, that.httpMethod := that.httpMethod, httpMethod;
      version, that.version := that.version, version;
      path, that.path := that.path, path;
      query, that.query := that.query, query;
      body, that.body := that.body, body;
      receiveTime, that.receiveTime := that.receiveTime, receiveTime;
      headers, that.headers := that.headers, headers;
    }

    method SetPathParams(params: map<string, string>)
      modifies this
      ensures Value() == old(Value()).(pathParams := params)
    {
      pathParams := params;
    }

    /** `getPathParam`: the bound value, or the empty string. */
    function GetPathParam(name: string): (r: string)
      reads this
      ensures name in pathParams ==> r == pathParams[name]
      ensures name !in pathParams ==> r == []
    {
      if name in pathParams then pathParams[name] else []
    }

    /** `urlDecode`, one character at a time. */
    method UrlDecode(encoded: string, unset: int) returns (result: string)
      ensures result == UrlDecoded(encoded, unset)
    {
      result := [];
      var i := 0;
      assert encoded[0..] == encoded;
      while i < |encoded|
        invariant 0 <= i <= |encoded|
        invariant result + UrlDecoded(encoded[i..], unset) == UrlDecoded(encoded, unset)
      {
        ghost var rest := encoded[i..];
        if encoded[i] != '%' {
          var c := if encoded[i] == '+' then ' ' else encoded[i];
          assert rest[1..] == encoded[i + 1..];
          Reassociate(result, [c], UrlDecoded(encoded[i + 1..], unset));
          result := result + [c];
          i := i + 1;
        } else if i + 2 < |encoded| {
          var c := ByteChar(ScanHexPair(encoded[i + 1], encoded[i + 2], unset));
          assert rest[3..] == encoded[i + 3..];
          Reassociate(result, [c], UrlDecoded(encoded[i + 3..], unset));
          result := result + [c];
          i := i + 3;
        } else {
          assert rest[1..] == encoded[i + 1..];
          i := i + 1;
        }
      }
    }

    /** `getQuery(key, default)`: split the query after its '?' at every '&'
        and answer for the first parameter whose key matches. */
    method GetQuery(key: string, default: string, unset: int) returns (r: string)
      ensures r == QueryValue(query, key, default, unset)
    {
      var q := query;
      if q == [] || q[0] != '?' {
        return default;
      }
      q := q[1..];
      var params := SplitParams(q);
      var k := 0;
      while k < |params|
        invariant k <= |params|
        invariant LookupParam(params, key, unset) == LookupParam(params[k..], key, unset)
      {
        var param := params[k];
        assert params[k..][1..] == params[k + 1..];
        match IndexOf(param, '=') {
          case Some(pos) =>
            if param[..pos] == key {
              r := UrlDecode(param[pos + 1..], unset);
              return;
            }
          case None =>
            if param == key {
              return "true";
            }
        }
        k := k + 1;
      }
      r := default;
    }

    /** The `find('&')` loop of `getQuery`. */
    static method SplitParams(q: string) returns (params: seq<string>)
      ensures params == Split(q, '&')
    {
      params := [];
      var start := 0;
      var end := IndexOf(q, '&');
      assert q[0..] == q;
      while end.Some?
        invariant start <= |q|
        invariant end == Shift(IndexOf(q[start..], '&'), start)
        invariant params + Split(q[start..], '&') == Split(q, '&')
        decreases |q| - start
      {
        var e := end.value;
        SplitFrom(q, start, e, params);
        params := params + [q[start..e]];
        start := e + 1;
        end := Shift(IndexOf(q[start..], '&'), start);
      }
      params := params + [q[start..]];
    }
  }

  /** One round of the `find('&')` loop: the piece from `start` to the
      separator at `e`, then the pieces after it. */
  lemma SplitFrom(q: string, start: nat, e: nat, done: seq<string>)
    requires start <= e < |q| && IndexOf(q[start..], '&') == Some(e - start)
    requires done + Split(q[start..], '&') == Split(q, '&')
    ensures (done + [q[start..e]]) + Split(q[e + 1..], '&') == Split(q, '&')
  {
    assert q[start..][..e - start] == q[start..e];
    assert q[start..][e - start + 1..] == q[e + 1..];
    Reassociate(done, [q[start..e]], Split(q[e + 1..], '&'));
  }
}
