/** The self-contained helpers of the file-sharing server
    (application/http_upload.cc): file-type classification, regex
    escaping, its own URL decoder, the `Range` header decision, the chunked
    download cursor `FileDownContext`, the access decisions for downloads
    and shared files, and the share/extract codes. */
module UploadHelpers {
  import opened Common
  import HttpRequests

  // ---------------------------------------------------------------------
  // File types.

  /** Index of the last `c` in `s`, as `std::string::find_last_of`. */
  function LastIndexOf(s: string, c: char): (r: Option<nat>)
    ensures r.Some? ==> r.value < |s| && s[r.value] == c
    ensures r.Some? ==> forall j :: r.value < j < |s| ==> s[j] != c
    ensures r.None? <==> c !in s
  {
    if s == [] then None
    else if s[|s| - 1] == c then Some(|s| - 1)
    else
      var r := LastIndexOf(s[..|s| - 1], c);
      assert s == s[..|s| - 1] + [s[|s| - 1]];
      r
  }

  /** The string with every character passed through `tolower`. */
  function Lower(s: string): (r: string)
    ensures |r| == |s|
  {
    seq(|s|, i requires 0 <= i < |s| => ToLower(s[i]))
  }

  /** The category of a lower-case extension. */
  function Category(ext: string): string
  {
    if ext == "jpg" || ext == "jpeg" || ext == "png" || ext == "gif" then "image"
    else if ext == "mp4" || ext == "avi" || ext == "mov" || ext == "wmv" then "video"
    else if ext == "pdf" then "pdf"
    else if ext == "doc" || ext == "docx" then "word"
    else if ext == "xls" || ext == "xlsx" then "excel"
    else if ext == "ppt" || ext == "pptx" then "powerpoint"
    else if ext == "txt" || ext == "csv" then "text"
    else "other"
  }

  /** `getFileType`: the category of the text after the last '.', lower-cased;
      "unknown" when there is no '.' or nothing follows the last one. */
  function FileType(filename: string): string
  {
    match LastIndexOf(filename, '.')
    case None => "unknown"
    case Some(dot) => if dot < |filename| - 1 then Category(Lower(filename[dot + 1..])) else "unknown"
  }

  /** "unknown" exactly when the name has no '.' or ends in one. */
  lemma FileTypeUnknown(filename: string)
    ensures FileType(filename) == "unknown" <==> '.' !in filename || filename[|filename| - 1] == '.'
  {
    var r := LastIndexOf(filename, '.');
    if r.Some? && filename[|filename| - 1] == '.' {
      assert !(r.value < |filename| - 1);
    }
  }

  /** A name `stem.ext` whose extension holds no '.' is classified by its
      extension alone, whatever the stem. */
  lemma FileTypeOfExtension(stem: string, ext: string)
    requires ext != [] && '.' !in ext
    ensures FileType(stem + "." + ext) == Category(Lower(ext))
  {
    var f := stem + "." + ext;
    var dot := |stem|;
    assert f[dot] == '.';
    assert forall j :: dot < j < |f| ==> f[j] == ext[j - dot - 1];
    assert f[dot + 1..] == ext;
  }

  /** Lower-casing the whole name does not change its category. */
  lemma FileTypeIgnoresCase(filename: string)
    ensures FileType(Lower(filename)) == FileType(filename)
  {
    LastDotUnderLower(filename);
    var r := LastIndexOf(filename, '.');
    if r.Some? && r.value < |filename| - 1 {
      var l := Lower(filename);
      var ext := filename[r.value + 1..];
      assert l[r.value + 1..] == Lower(ext);
      assert Lower(Lower(ext)) == Lower(ext);
    }
  }

  /** `tolower` keeps the position of the last '.'. */
  lemma {:induction false} LastDotUnderLower(s: string)
    ensures LastIndexOf(Lower(s), '.') == LastIndexOf(s, '.')
  {
    if s != [] {
      var init := s[..|s| - 1];
      assert Lower(s)[..|s| - 1] == Lower(init);
      LastDotUnderLower(init);
    }
  }

  // ---------------------------------------------------------------------
  // Regex escaping.

  /** The characters `escapeRegex` protects with a backslash. */
  predicate IsRegexSpecial(c: char)
  {
    c == '.' || c == '+' || c == '*' || c == '?' || c == '^' ||
    c == '$' || c == '(' || c == ')' || c == '[' || c == ']' ||
    c == '{' || c == '}' || c == '|' || c == '\\'
  }

  /** How many characters of `s` are special. */
  function SpecialCount(s: string): nat
  {
    if s == [] then 0 else (if IsRegexSpecial(s[0]) then 1 else 0) + SpecialCount(s[1..])
  }

  /** What `escapeRegex` emits for one character. */
  function EscapedChar(c: char): string
  {
    if IsRegexSpecial(c) then ['\\', c] else [c]
  }

  /** The escaped form of `s`, character by character. */
  function Escaped(s: string): (r: string)
    ensures |r| == |s| + SpecialCount(s)
  {
    if s == [] then [] else EscapedChar(s[0]) + Escaped(s[1..])
  }

  /** Escaping distributes over a character added at the end. */
  lemma {:induction false} EscapedSnoc(s: string, c: char)
    ensures Escaped(s + [c]) == Escaped(s) + EscapedChar(c)
  {
    if s == [] {
      assert [] + [c] == [c];
    } else {
      assert (s + [c])[1..] == s[1..] + [c];
      EscapedSnoc(s[1..], c);
    }
  }

  /** Text in which every special character is preceded by a backslash
      that escapes it: read as a regular expression, it denotes itself. */
  predicate LiteralPattern(r: string)
  {
    if r == [] then true
    else if r[0] == '\\' then |r| >= 2 && LiteralPattern(r[2..])
    else !IsRegexSpecial(r[0]) && LiteralPattern(r[1..])
  }

  /** Removes the escaping backslashes. */
  function Unescaped(r: string): string
  {
    if r == [] then []
    else if r[0] == '\\' && |r| >= 2 then [r[1]] + Unescaped(r[2..])
    else [r[0]] + Unescaped(r[1..])
  }

  /** The escaped text has no unprotected special character, and dropping
      the inserted backslashes gives back the input. */
  lemma {:induction false} EscapedRoundTrip(s: string)
    ensures LiteralPattern(Escaped(s))
    ensures Unescaped(Escaped(s)) == s
  {
    if s != [] {
      EscapedRoundTrip(s[1..]);
      var e := Escaped(s);
      if IsRegexSpecial(s[0]) {
        assert e[2..] == Escaped(s[1..]);
      } else {
        assert e[1..] == Escaped(s[1..]);
      }
      assert s == [s[0]] + s[1..];
    }
  }

  /** `escapeRegex`, one character at a time. */
  method EscapeRegex(str: string) returns (result: string)
    ensures result == Escaped(str)
  {
    result := [];
    var i := 0;
    while i < |str|
      invariant i <= |str|
      invariant result == Escaped(str[..i])
    {
      var c := str[i];
      assert str[..i + 1] == str[..i] + [c];
      EscapedSnoc(str[..i], c);
      if IsRegexSpecial(c) {
        result := result + ['\\'];
      }
      result := result + [c];
      i := i + 1;
    }
    assert str[..i] == str;
  }

  // ---------------------------------------------------------------------
  // URL decoding (the server's own copy).

  /** `sscanf(window, "%x", &ii)` on the up to two characters after a '%';
      when nothing converts, `ii` keeps the value of the previous scan
      (`prev`; the first time, whatever the uninitialised variable held). */
  function ScanWindow(window: string, prev: int): int
    requires |window| <= 2
  {
    if |window| == 2 then HttpRequests.ScanHexPair(window[0], window[1], prev)
    else if |window| == 1 && IsHexDigit(window[0]) then HexValue(window[0])
    else prev
  }

  /** What the server's `urlDecode` produces from `s` when the last scan
      left `ii`: '+' becomes a space, a '%' consumes the two characters
      after it (as many as there are) and emits the byte they scan to.
      Unlike the request decoder, a '%' near the end is not dropped. */
  function UploadDecoded(s: string, ii: int): string
  {
    if s == [] then []
    else if s[0] != '%' then [if s[0] == '+' then ' ' else s[0]] + UploadDecoded(s[1..], ii)
    else
      var w := if |s| >= 3 then s[1..3] else s[1..];
      var v := ScanWindow(w, ii);
      [HttpRequests.ByteChar(v)] + UploadDecoded(s[1 + |w|..], v)
  }

  /** Decoding never makes text longer. */
  lemma {:induction false} UploadDecodedNeverLonger(s: string, ii: int)
    ensures |UploadDecoded(s, ii)| <= |s|
  {
    if s != [] {
      if s[0] != '%' {
        UploadDecodedNeverLonger(s[1..], ii);
      } else {
        var w := if |s| >= 3 then s[1..3] else s[1..];
        UploadDecodedNeverLonger(s[1 + |w|..], ScanWindow(w, ii));
      }
    }
  }

  /** Every '%' is followed by two hexadecimal digits. */
  predicate WellFormedEscapes(s: string)
  {
    forall i :: 0 <= i < |s| && s[i] == '%' ==> i + 2 < |s| && IsHexDigit(s[i + 1]) && IsHexDigit(s[i + 2])
  }

  /** On well-formed input the server's decoder and the request decoder
      agree, and neither depends on an earlier scan. */
  lemma {:induction false} UploadDecoderAgrees(s: string, ii: int, unset: int)
    requires WellFormedEscapes(s)
    ensures UploadDecoded(s, ii) == HttpRequests.UrlDecoded(s, unset)
  {
    if s != [] {
      assert WellFormedEscapes(s[1..]) by {
        forall i | 0 <= i < |s[1..]| && s[1..][i] == '%'
          ensures i + 2 < |s[1..]| && IsHexDigit(s[1..][i + 1]) && IsHexDigit(s[1..][i + 2])
        {
          assert s[i + 1] == '%';
        }
      }
      if s[0] != '%' {
        UploadDecoderAgrees(s[1..], ii, unset);
      } else {
        assert WellFormedEscapes(s[3..]) by {
          forall i | 0 <= i < |s[3..]| && s[3..][i] == '%'
            ensures i + 2 < |s[3..]| && IsHexDigit(s[3..][i + 1]) && IsHexDigit(s[3..][i + 2])
          {
            assert s[i + 3] == '%';
          }
        }
        var v := ScanWindow(s[1..3], ii);
        assert v == HttpRequests.ScanHexPair(s[1], s[2], unset);
        UploadDecoderAgrees(s[3..], v, unset);
      }
    }
  }

  /** Percent-encoding every byte is undone by the server's decoder. */
  lemma {:induction false} UploadDecodeInvertsPercentEncode(s: string, ii: int)
    requires forall i :: 0 <= i < |s| ==> (s[i] as int) < 256
    ensures UploadDecoded(HttpRequests.PercentEncoded(s), ii) == s
  {
    var e := HttpRequests.PercentEncoded(s);
    PercentEncodedWellFormed(s);
    UploadDecoderAgrees(e, ii, 0);
    HttpRequests.UrlDecodeInvertsPercentEncode(s, 0);
  }

  /** Percent-encoded text is well formed. */
  lemma {:induction false} PercentEncodedWellFormed(s: string)
    requires forall i :: 0 <= i < |s| ==> (s[i] as int) < 256
    ensures WellFormedEscapes(HttpRequests.PercentEncoded(s))
  {
    if s != [] {
      PercentEncodedWellFormed(s[1..]);
      var e := HttpRequests.PercentEncoded(s);
      var rest := HttpRequests.PercentEncoded(s[1..]);
      assert e[3..] == rest;
      forall i | 0 <= i < |e| && e[i] == '%'
        ensures i + 2 < |e| && IsHexDigit(e[i + 1]) && IsHexDigit(e[i + 2])
      {
        if i >= 3 {
          assert rest[i - 3] == '%';
        }
      }
    }
  }

  /** A lone '%' at the end still emits a character: the byte of whatever
      the previous scan left, where the request decoder emits nothing. */
  lemma LonePercentEmitsStaleByte(ii: int, unset: int)
    ensures UploadDecoded("%", ii) == [HttpRequests.ByteChar(ii)]
    ensures HttpRequests.UrlDecoded("%", unset) == []
  {
    assert "%"[1..] == [];
    assert "%"[1 + 0..] == [];
  }

  /** The server's `urlDecode`, one step of its `for` loop at a time. The
      index can step past the end by two when a '%' is among the last two
      characters; the loop then stops. */
  method UrlDecode(encoded: string, unset: int) returns (result: string)
    ensures result == UploadDecoded(encoded, unset)
  {
    result := [];
    var ii := unset;
    var i := 0;
    assert encoded[0..] == encoded;
    while i < |encoded|
      invariant i <= |encoded|
      invariant result + UploadDecoded(encoded[i..], ii) == UploadDecoded(encoded, unset)
      decreases |encoded| - i
    {
      var c;
      c, ii, i := DecodeStep(encoded, i, ii);
      result := result + [c];
    }
  }

  /** One pass of the loop body: the character emitted at `i`, the scan
      value after it, and where the next pass starts (capped at the end,
      where the loop stops either way). */
  method DecodeStep(encoded: string, i: nat, ii: int) returns (c: char, ii': int, next: nat)
    requires i < |encoded|
    ensures i < next <= |encoded|
    ensures UploadDecoded(encoded[i..], ii) == [c] + UploadDecoded(encoded[next..], ii')
  {
    ghost var rest := encoded[i..];
    if encoded[i] != '%' {
      c := if encoded[i] == '+' then ' ' else encoded[i];
      ii' := ii;
      next := i + 1;
      assert rest[1..] == encoded[next..];
    } else {
      var window := if i + 3 <= |encoded| then encoded[i + 1..i + 3] else encoded[i + 1..];
      assert window == (if |rest| >= 3 then rest[1..3] else rest[1..]);
      ii' := ScanWindow(window, ii);
      c := HttpRequests.ByteChar(ii');
      next := i + 1 + |window|;
      assert rest[1 + |window|..] == encoded[next..];
    }
  }

  // ---------------------------------------------------------------------
  // The Range header.

  /** One more than the largest `uintmax_t`. */
  const UintMaxBound: nat := 0x1_0000_0000_0000_0000

  /** The two captures of `bytes=(\d+)-(\d*)`. */
  datatype RangeSpec = RangeSpec(first: string, last: string)

  /** The match of `bytes=(\d+)-(\d*)` starting at `i`, if any. Digit runs
      are greedy; a shorter first run cannot be followed by '-', so the
      match at `i` is unique. */
  function MatchAt(h: string, i: nat): (r: Option<RangeSpec>)
    requires i <= |h|
    ensures r.Some? ==> r.value.first != [] && AllDigits(r.value.first) && AllDigits(r.value.last)
  {
    if |h| - i >= 6 && h[i..i + 6] == "bytes=" then
      var rest := h[i + 6..];
      var n := DigitRun(rest);
      if 1 <= n < |rest| && rest[n] == '-' then
        var tail := rest[n + 1..];
        Some(RangeSpec(rest[..n], tail[..DigitRun(tail)]))
      else None
    else None
  }

  /** `std::regex_search`: the leftmost match at or after `i`. */
  function SearchRange(h: string, i: nat): (r: Option<RangeSpec>)
    requires i <= |h|
    ensures r.Some? ==> r.value.first != [] && AllDigits(r.value.first) && AllDigits(r.value.last)
    decreases |h| - i
  {
    if MatchAt(h, i).Some? then MatchAt(h, i)
    else if i == |h| then None
    else SearchRange(h, i + 1)
  }

  /** How the download handler answers a `Range` header. */
  datatype RangeDecision =
    | WholeFile                          // no usable header: 200 and the whole file
    | Partial(start: nat, end: nat)      // 206 with Content-Range "bytes start-end/size"
    | NotSatisfiable                     // 416
    | ConversionFailed                   // `stoull` out of range: the handler's catch sends 500

  /** The Range handling of the download handler. */
  function DecideRange(header: string, fileSize: nat): (r: RangeDecision)
    ensures r.WholeFile? <==> SearchRange(header, 0).None?
    ensures r.Partial? ==> r.start < fileSize && r.end < fileSize
  {
    match SearchRange(header, 0)
    case None => WholeFile
    case Some(spec) =>
      var start := DecimalValue(spec.first);
      if start >= UintMaxBound then ConversionFailed
      else if spec.last != [] && DecimalValue(spec.last) >= UintMaxBound then ConversionFailed
      else if start >= fileSize then NotSatisfiable
      else
        var end := if spec.last == [] then fileSize - 1 else DecimalValue(spec.last);
        Partial(start, if end >= fileSize then fileSize - 1 else end)
  }

  /** The digits of a number followed by a non-digit: the run stops there. */
  lemma {:induction false} DigitRunOfNumber(d: string, rest: string)
    requires AllDigits(d)
    requires rest == [] || !IsDigit(rest[0])
    ensures DigitRun(d + rest) == |d|
    ensures (d + rest)[..|d|] == d
  {
    if d != [] {
      assert (d + rest)[1..] == d[1..] + rest;
      DigitRunOfNumber(d[1..], rest);
    } else {
      assert [] + rest == rest;
    }
  }

  /** The header a client sends for bytes `s` to `e`. */
  function RangeHeader(s: nat, e: nat): string
  {
    "bytes=" + NatToString(s) + "-" + NatToString(e)
  }

  /** The header is recognised with both numbers. */
  lemma RangeHeaderMatches(s: nat, e: nat)
    ensures SearchRange(RangeHeader(s, e), 0) == Some(RangeSpec(NatToString(s), NatToString(e)))
  {
    var h := RangeHeader(s, e);
    var ds := NatToString(s);
    var de := NatToString(e);
    assert h[0..6] == "bytes=";
    var rest := h[6..];
    assert rest == ds + ("-" + de);
    DigitRunOfNumber(ds, "-" + de);
    assert rest[|ds| + 1..] == de;
    DigitRunOfNumber(de, []);
    assert de + [] == de;
  }

  /** The answer to `bytes=s-e`: 416 from the file size on, otherwise the
      range with its end clamped to the last byte. */
  lemma ExplicitRange(s: nat, e: nat, fileSize: nat)
    requires s < UintMaxBound && e < UintMaxBound
    ensures DecideRange(RangeHeader(s, e), fileSize) ==
      if s >= fileSize then NotSatisfiable
      else Partial(s, if e >= fileSize then fileSize - 1 else e)
  {
    RangeHeaderMatches(s, e);
    NatToStringRoundTrip(s);
    NatToStringRoundTrip(e);
  }

  /** An open-ended `bytes=s-` runs to the last byte. */
  lemma OpenEndedRange(s: nat, fileSize: nat)
    requires s < fileSize < UintMaxBound
    ensures DecideRange("bytes=" + NatToString(s) + "-", fileSize) == Partial(s, fileSize - 1)
  {
    var h := "bytes=" + NatToString(s) + "-";
    var ds := NatToString(s);
    assert h[0..6] == "bytes=";
    assert h[6..] == ds + "-";
    DigitRunOfNumber(ds, "-");
    assert h[6..][|ds| + 1..] == [];
    NatToStringRoundTrip(s);
  }

  /** A suffix range `bytes=-n` is not recognised: the whole file is sent. */
  lemma SuffixRangeIgnored(n: nat, fileSize: nat)
    ensures DecideRange("bytes=-" + NatToString(n), fileSize) == WholeFile
  {
    var h := "bytes=-" + NatToString(n);
    assert MatchAt(h, 0).None? by {
      assert h[0..6] == "bytes=" && h[6] == '-';
    }
    assert forall j :: 6 <= j < |h| ==> h[j] != '=' by {
      assert h[7..] == NatToString(n);
    }
    NoBytesAfter(h, 1);
  }

  /** No match starts where "bytes=" does not. */
  lemma {:induction false} NoBytesAfter(h: string, i: nat)
    requires 1 <= i <= |h|
    requires forall j :: 6 <= j < |h| ==> h[j] != '='
    ensures SearchRange(h, i).None?
    decreases |h| - i
  {
    if |h| - i >= 6 {
      assert h[i + 5] != '=';
    }
    if i < |h| {
      NoBytesAfter(h, i + 1);
    }
  }

  // ---------------------------------------------------------------------
  // The chunked download cursor.

  /** `readNextChunk` reads at most one MiB at a time. */
  const ChunkSize: nat := 1024 * 1024

  /** The chunks handed out from `pos` until `stop`, in order. */
  function Chunks(content: string, pos: nat, stop: nat): (r: seq<string>)
    requires pos <= stop <= |content|
    ensures forall k :: 0 <= k < |r| ==> 0 < |r[k]| <= ChunkSize
    decreases stop - pos
  {
    if pos == stop then []
    else
      var n := if stop - pos < ChunkSize then stop - pos else ChunkSize;
      [content[pos..pos + n]] + Chunks(content, pos + n, stop)
  }

  /** The chunks written one after another. */
  function Concat(chunks: seq<string>): string
  {
    if chunks == [] then [] else chunks[0] + Concat(chunks[1..])
  }

  /** The chunks are contiguous and together are exactly the bytes from
      `pos` to `stop`: no gap, no overlap. */
  lemma {:induction false} ChunksCover(content: string, pos: nat, stop: nat)
    requires pos <= stop <= |content|
    ensures Concat(Chunks(content, pos, stop)) == content[pos..stop]
    decreases stop - pos
  {
    if pos < stop {
      var n := if stop - pos < ChunkSize then stop - pos else ChunkSize;
      ChunksCover(content, pos + n, stop);
      var r := Chunks(content, pos, stop);
      assert r[1..] == Chunks(content, pos + n, stop);
      assert content[pos..stop] == content[pos..pos + n] + content[pos + n..stop];
    }
  }

  /** `FileDownContext`: an open file of fixed content, the read position
      and the completion flag. */
  class FileDownContext {
    /** The bytes of the file; `fileSize_` is their number. */
    const content: string
    var currentPosition: nat
    var isComplete: bool

    predicate Valid()
      reads this
    {
      currentPosition <= |content|
    }

    /** The constructor: the file is opened at its start. */
    constructor (content: string)
      ensures Valid()
      ensures this.content == content && currentPosition == 0 && !isComplete
    {
      this.content := content;
      currentPosition := 0;
      isComplete := false;
    }

    /** The chunks still to come. */
    function Remaining(): seq<string>
      reads this
      requires Valid()
    {
      if isComplete then [] else Chunks(content, currentPosition, |content|)
    }

    /** `seekTo`: move to `position` and start reading again. */
    method SeekTo(position: nat)
      requires position <= |content|
      modifies this
      ensures Valid()
      ensures currentPosition == position && !isComplete
      ensures Remaining() == Chunks(content, position, |content|)
    {
      currentPosition := position;
      isComplete := false;
    }

    /** `readNextChunk`: the next at most one MiB, or false (and complete)
        when nothing remains. The chunk returned is the first of the
        remaining chunks, and the rest remain. */
    method ReadNextChunk() returns (ok: bool, chunk: string)
      requires Valid()
      modifies this
      ensures Valid()
      ensures ok <==> old(Remaining()) != []
      ensures ok ==> old(Remaining()) == [chunk] + Remaining()
      ensures ok ==> old(currentPosition) < currentPosition
      ensures ok ==> chunk == content[old(currentPosition)..currentPosition] && !isComplete
      ensures !ok ==> chunk == [] && isComplete && currentPosition == old(currentPosition)
    {
      if isComplete {
        return false, [];
      }
      var remainingBytes := |content| - currentPosition;
      var bytesToRead := if ChunkSize < remainingBytes then ChunkSize else remainingBytes;
      if bytesToRead == 0 {
        isComplete := true;
        return false, [];
      }
      chunk := content[currentPosition..currentPosition + bytesToRead];
      currentPosition := currentPosition + bytesToRead;
      ok := true;
    }
  }

  /** As written: after a `Range` request the handler seeks to the start
      and the write-complete callback reads until the end of the file, so
      the body runs past the end the Content-Range header announces. For a
      two-byte file and `bytes=0-0` the header says one byte, the body has
      two. */
  lemma RangeEndIgnored(content: string)
    requires |content| == 2
    ensures DecideRange(RangeHeader(0, 0), |content|) == Partial(0, 0)
    ensures |Concat(Chunks(content, 0, |content|))| == 2
  {
    ExplicitRange(0, 0, 2);
    ChunksCover(content, 0, 2);
  }

  /** The body a 206 reply should carry: the chunks from the start up to
      and including the end of the decided range. */
  function RangeBody(content: string, header: string): (r: seq<string>)
    requires DecideRange(header, |content|).Partial?
  {
    var d := DecideRange(header, |content|);
    Chunks(content, d.start, if d.end + 1 < d.start then d.start else d.end + 1)
  }

  /** With the end honoured, the body is exactly the announced bytes,
      `end - start + 1` of them whenever the range is not inverted. */
  lemma RangeBodyMatchesHeader(content: string, header: string)
    requires DecideRange(header, |content|).Partial?
    requires DecideRange(header, |content|).start <= DecideRange(header, |content|).end
    ensures var d := DecideRange(header, |content|);
      Concat(RangeBody(content, header)) == content[d.start..d.end + 1] &&
      |Concat(RangeBody(content, header))| == d.end - d.start + 1
  {
    var d := DecideRange(header, |content|);
    ChunksCover(content, d.start, d.end + 1);
  }

  // ---------------------------------------------------------------------
  // Access decisions.

  /** Who asks: the session check's verdict and the user it names. */
  datatype Requester = Requester(authenticated: bool, userId: int)

  /** The file's owner and its share record as stored: the share type
      ("" when absent), the user it is shared with (0 when absent) and the
      extract code ("" when absent). */
  datatype ShareRecord = ShareRecord(ownerId: int, shareType: string, sharedWithId: int, storedCode: string)

  predicate IsOwner(who: Requester, rec: ShareRecord)
  {
    who.authenticated && who.userId == rec.ownerId
  }

  /** The share-type rule common to both handlers. */
  predicate ShareAllows(who: Requester, rec: ShareRecord, extractCode: string)
  {
    if rec.shareType == "public" then true
    else if rec.shareType == "protected" then extractCode != [] && extractCode == rec.storedCode
    else if rec.shareType == "user" then who.authenticated && who.userId == rec.sharedWithId
    else false
  }

  /** The permission check of the download handler. */
  predicate DownloadPermitted(who: Requester, rec: ShareRecord, shareCode: string, extractCode: string)
  {
    if IsOwner(who, rec) then true
    else if shareCode != [] then ShareAllows(who, rec, extractCode)
    else if who.authenticated then who.userId == rec.ownerId
    else false
  }

  /** The permission check of the shared-file download handler. */
  predicate SharedDownloadPermitted(who: Requester, rec: ShareRecord, extractCode: string)
  {
    IsOwner(who, rec) || ShareAllows(who, rec, extractCode)
  }

  /** Why a request was refused: the extract code, or anything else. */
  datatype Refusal = WrongExtractCode | NoPermission

  /** The 403 message chosen after a refusal, in both handlers. */
  function RefusalOf(rec: ShareRecord, extractCode: string): Refusal
  {
    if rec.shareType == "protected" && (extractCode == [] || extractCode != rec.storedCode) then WrongExtractCode
    else NoPermission
  }

  /** The owner, signed in, is always let through. */
  lemma OwnerAlwaysPermitted(who: Requester, rec: ShareRecord, shareCode: string, extractCode: string)
    requires IsOwner(who, rec)
    ensures DownloadPermitted(who, rec, shareCode, extractCode)
    ensures SharedDownloadPermitted(who, rec, extractCode)
  {
  }

  /** Without a share code only the signed-in owner gets the file. */
  lemma DirectAccessOwnerOnly(who: Requester, rec: ShareRecord, extractCode: string)
    ensures DownloadPermitted(who, rec, [], extractCode) <==> IsOwner(who, rec)
  {
  }

  /** With a share code, the download handler decides as the shared-file
      handler does. */
  lemma SharedPathsAgree(who: Requester, rec: ShareRecord, shareCode: string, extractCode: string)
    requires shareCode != []
    ensures DownloadPermitted(who, rec, shareCode, extractCode) <==> SharedDownloadPermitted(who, rec, extractCode)
  {
  }

  /** A protected share opens to a non-owner exactly with the stored,
      non-empty extract code; a record with an empty stored code opens to
      nobody but the owner. */
  lemma ProtectedShareNeedsCode(who: Requester, rec: ShareRecord, extractCode: string)
    requires rec.shareType == "protected" && !IsOwner(who, rec)
    ensures SharedDownloadPermitted(who, rec, extractCode) <==> extractCode != [] && extractCode == rec.storedCode
    ensures rec.storedCode == [] ==> !SharedDownloadPermitted(who, rec, extractCode)
    ensures !SharedDownloadPermitted(who, rec, extractCode) ==> RefusalOf(rec, extractCode) == WrongExtractCode
  {
  }

  /** A share of unknown type opens to nobody but the owner. */
  lemma UnknownShareTypeDenied(who: Requester, rec: ShareRecord, shareCode: string, extractCode: string)
    requires rec.shareType != "public" && rec.shareType != "protected" && rec.shareType != "user"
    ensures DownloadPermitted(who, rec, shareCode, extractCode) <==> IsOwner(who, rec)
    ensures SharedDownloadPermitted(who, rec, extractCode) <==> IsOwner(who, rec)
  {
  }

  // ---------------------------------------------------------------------
  // Share and extract codes.

  /** The alphabet of share codes. */
  const ShareAlphabet := "abcdefghijklmnopqrstuvwxyz0123456789"

  /** The alphabet of extract codes. */
  const ExtractAlphabet := "0123456789ABCDEFGHIJKLMNOPQRSTUVWXYZ"

  /** Outcome of the share-code format check. */
  datatype CodeCheck = CodeAccepted | BadLength | IllegalCharacter

  /** The format check of the shared-file handler: 32 characters, each a
      lower-case letter or a digit. */
  function CheckShareCode(code: string): CodeCheck
  {
    if code == [] || |code| != 32 then BadLength
    else if !(forall i :: 0 <= i < |code| ==> IsLowerAlnum(code[i])) then IllegalCharacter
    else CodeAccepted
  }

  /** The characters an alphabet gives for a sequence of random indices. */
  function Pick(alphabet: string, draws: seq<nat>): (r: string)
    requires forall i :: 0 <= i < |draws| ==> draws[i] < |alphabet|
    ensures |r| == |draws|
    ensures forall i :: 0 <= i < |r| ==> r[i] in alphabet
  {
    seq(|draws|, i requires 0 <= i < |draws| => alphabet[draws[i]])
  }

  /** Every character of the share alphabet is a lower-case letter or a digit, and back. */
  lemma ShareAlphabetIsLowerAlnum(c: char)
    ensures c in ShareAlphabet <==> IsLowerAlnum(c)
  {
    if IsLowerAlnum(c) {
      assert ShareAlphabet[ShareIndex(c)] == c;
    }
  }

  /** Where a lower-case letter or digit sits in the share alphabet. */
  function ShareIndex(c: char): (k: nat)
    requires IsLowerAlnum(c)
    ensures k < |ShareAlphabet| && ShareAlphabet[k] == c
  {
    if 'a' <= c <= 'z' then (c as int) - ('a' as int) else 26 + DigitValue(c)
  }

  /** A code passes the check exactly when some 32 draws from [0, 35]
      generate it. */
  lemma ShareCodeCheckMeansGenerable(code: string)
    ensures CheckShareCode(code) == CodeAccepted <==>
      exists draws: seq<nat> :: |draws| == 32 && (forall i :: 0 <= i < 32 ==> draws[i] < 36) && Pick(ShareAlphabet, draws) == code
  {
    if CheckShareCode(code) == CodeAccepted {
      var draws := seq(32, i requires 0 <= i < 32 => ShareIndex(code[i]));
      assert Pick(ShareAlphabet, draws) == code;
    }
    if exists draws: seq<nat> :: |draws| == 32 && (forall i :: 0 <= i < 32 ==> draws[i] < 36) && Pick(ShareAlphabet, draws) == code {
      var draws: seq<nat> :| |draws| == 32 && (forall i :: 0 <= i < 32 ==> draws[i] < 36) && Pick(ShareAlphabet, draws) == code;
      forall i | 0 <= i < |code|
        ensures IsLowerAlnum(code[i])
      {
        ShareAlphabetIsLowerAlnum(code[i]);
      }
    }
  }

  /** `generateShareCode`: 32 characters, the i-th chosen by the i-th draw
      of the uniform distribution over [0, 35]. The code it returns always
      passes the format check. */
  method GenerateShareCode(draws: seq<nat>) returns (shareCode: string)
    requires |draws| == 32 && forall i :: 0 <= i < 32 ==> draws[i] < 36
    ensures shareCode == Pick(ShareAlphabet, draws)
    ensures CheckShareCode(shareCode) == CodeAccepted
  {
    shareCode := [];
    var i := 0;
    while i < 32
      invariant i <= 32
      invariant shareCode == Pick(ShareAlphabet, draws[..i])
    {
      shareCode := shareCode + [ShareAlphabet[draws[i]]];
      i := i + 1;
    }
    assert draws[..32] == draws;
    ShareCodeCheckMeansGenerable(shareCode);
  }

  /** `generateExtractCode`: six characters from digits and upper-case
      letters. It is never empty, so a protected share made with it opens
      to whoever presents it. */
  method GenerateExtractCode(draws: seq<nat>) returns (extractCode: string)
    requires |draws| == 6 && forall i :: 0 <= i < 6 ==> draws[i] < 36
    ensures extractCode == Pick(ExtractAlphabet, draws)
    ensures forall who: Requester, owner: int, sharedWith: int ::
      SharedDownloadPermitted(who, ShareRecord(owner, "protected", sharedWith, extractCode), extractCode)
  {
    extractCode := [];
    var i := 0;
    while i < 6
      invariant i <= 6
      invariant extractCode == Pick(ExtractAlphabet, draws[..i])
    {
      extractCode := extractCode + [ExtractAlphabet[draws[i]]];
      i := i + 1;
    }
    assert draws[..6] == draws;
  }
}
