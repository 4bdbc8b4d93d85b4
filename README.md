# mymuduo core, modelled in Dafny

This project models the verifiable core of mymuduo, a muduo-style C++
network library. It also covers the file-sharing HTTP server built on the
library and the browser-side segment loader that streams video from that
server. Every module is one source file or one class of the original. Each
operation is a Dafny function or method with a contract. The properties
the code promises are proved as lemmas or postconditions.

- `common.dfy` (`Common`) holds the shared vocabulary:
  - an `Option` type;
  - the "C" locale character classes (`isspace`, `isdigit`, `tolower`);
  - decimal text;
  - C's truncating integer division.
- `buffer.dfy` (`Buffers`): `net/Buffer.h`. It is a class over a Dafny
  `array<char>` with a reader index and a writer index. A resize allocates
  a fresh array, as the vector does.
- `http_request.dfy` (`HttpRequests`), `http_context.dfy` (`HttpContexts`)
  and `http_response.dfy` (`HttpResponses`) model the HTTP/1.x layer.
  - The incremental parser is a class whose methods consume a `Buffer`.
  - Each branch of its loop is specified by a pure step function, which
    the lemmas reason about.
- `ordered_map.dfy` (`OrderedMap`) is the `std::map<string, string>` of the
  header tables. It is a key-sorted association list, because the
  iteration order reaches the wire.
- `route_trie.dfy` (`RouteTries`) covers `net/RouteTrie.cc`.
  - The segment trie is a value with `map`-valued children.
  - The backtracking `findMatches` is a recursive function.
- `route_greedy.dfy` (`RouteGreedy`) is the greedy trie of
  `application/route_test.cc`.
- `upload_helpers.dfy` (`UploadHelpers`) covers the pure parts of the upload
  server and its `FileDownContext` download cursor. The pure parts are file
  types, regex escaping, URL decoding, the `Range` header, the access
  decision and share codes.
- `player.dfy` (`Player`) is the `SegmentVideoPlayer` of
  `application/player.js`.
  - Each `await` is split into an issue method, which returns the range to
    fetch, and a completion method, which receives the network outcome.
- `date.dfy` (`Dates`), `timezone.dfy` (`TimeZones`) and `timestamp.dfy`
  (`Timestamps`) model the calendar, time-zone and timestamp arithmetic.
- `string_piece.dfy` (`StringPieces`) models `StringPiece`, a window over a
  byte sequence.
- `thread_pool.dfy` (`EventLoopThreadPools`) models the round-robin loop
  selector.

## Model

| member | source | states |
|---|---|---|
| `Buffers.FirstCrlf` | net/Buffer.h:63-66 | the position found holds "\r\n" and no earlier position does; none means no CRLF anywhere |
| `Buffers.FirstEol` | net/Buffer.h:77-80 | the position found holds '\n' and no earlier one does; none means no '\n' at all |
| `Buffers.Buffer.constructor` | net/Buffer.h:32-40 | a new buffer has 0 readable bytes, `initialSize` writable bytes and 8 prependable bytes |
| `Buffers.Buffer.ReadableBytes` | net/Buffer.h:51 | the count equals the length of the readable byte sequence |
| `Buffers.Buffer.WritableBytes` | net/Buffer.h:54 | reader index plus readable plus writable bytes is the array length |
| `Buffers.Buffer.PrependableBytes` | net/Buffer.h:57 | prependable, readable and writable bytes partition the array |
| `Buffers.Buffer.Swap` | net/Buffer.h:44-48 | the two buffers exchange storage and both indices, so each now holds the other's readable bytes, and both stay well formed |
| `Buffers.Buffer.FindCrlf` | net/Buffer.h:63-66 | returns the first CRLF of the readable bytes, as an array index inside the readable region |
| `Buffers.Buffer.FindCrlfFrom` | net/Buffer.h:69-74 | the same search, started at `start` |
| `Buffers.Buffer.FindEol` | net/Buffer.h:77-80 | returns the first '\n' of the readable bytes |
| `Buffers.Buffer.FindEolFrom` | net/Buffer.h:83-88 | the same search, started at `start` |
| `Buffers.Buffer.Retrieve` | net/Buffer.h:91-98 | drops exactly the first `len` readable bytes; taking them all resets both indices to 8 |
| `Buffers.Buffer.RetrieveUntil` | net/Buffer.h:101-105 | the readable bytes become those from `end` on |
| `Buffers.Buffer.RetrieveAll` | net/Buffer.h:108-111 | empties the buffer and resets both indices to 8 |
| `Buffers.Buffer.RetrieveAllAsString` | net/Buffer.h:114-116 | returns all readable bytes and leaves none |
| `Buffers.Buffer.RetrieveAsString` | net/Buffer.h:119-124 | returns the first `len` readable bytes; they followed by the rest are the old readable bytes |
| `Buffers.Buffer.EnsureWritableBytes` | net/Buffer.h:127-132 | readable bytes unchanged and at least `len` writable afterwards; nothing moves when there was room already |
| `Buffers.Buffer.MakeSpace` | net/Buffer.h:188-201 | readable bytes unchanged and at least `len` writable, by moving the data to the front or by growing |
| `Buffers.Buffer.Append` | net/Buffer.h:135-144 | the readable bytes become the old ones followed by `s` |
| `Buffers.Buffer.HasWritten` | net/Buffer.h:151-154 | the writer index advances by `len` over bytes already in the array |
| `Buffers.Buffer.Unwrite` | net/Buffer.h:157-160 | removes the last `len` readable bytes |
| `Buffers.Buffer.Prepend` | net/Buffer.h:163-168 | the readable bytes become `s` followed by the old ones, in the prependable room |
| `Buffers.Buffer.Shrink` | net/Buffer.h:171-176 | fresh storage with the same readable bytes and at least `reserve` writable |
| `OrderedMap.Get` | net/HttpRequest.h:143-152 | a key is absent exactly when it is not among the keys |
| `OrderedMap.PutGet` | net/HttpResponse.h:45 | after `m[k] = v`, `k` maps to `v` and every other key keeps its value |
| `OrderedMap.PutKeySet` | net/HttpResponse.h:45 | the keys after `m[k] = v` are the old keys plus `k` |
| `OrderedMap.PutKeepsSorted` | net/HttpResponse.h:81 | insertion keeps the keys in ascending order, as the ordered map iterates them |
| `OrderedMap.SortedKeysDistinct` | net/HttpResponse.h:81 | in a sorted table no key appears twice |
| `HttpRequests.MethodName` | net/HttpRequest.h:72-96 | the name of every method maps back to it; `kInvalid` is "UNKNOWN" |
| `HttpRequests.MethodNameOfToken` | net/HttpRequest.h:38-96 | round trip: `methodString` gives back any token `setMethod` accepts |
| `HttpRequests.HttpRequest.constructor` | net/HttpRequest.h:24-28 | a new request has no method, no version, empty strings and tables, and the invalid receive time |
| `HttpRequests.HttpRequest.SetMethod` | net/HttpRequest.h:38-67 | succeeds exactly on GET, POST, HEAD, PUT and DELETE; requires the method to be still invalid |
| `HttpRequests.HttpRequest.SetVersion` | net/HttpRequest.h:30-33 | changes only the version |
| `HttpRequests.HttpRequest.SetPath` | net/HttpRequest.h:98-101 | changes only the path |
| `HttpRequests.HttpRequest.SetQuery` | net/HttpRequest.h:106-109 | changes only the query |
| `HttpRequests.HttpRequest.SetBody` | net/HttpRequest.h:114 | changes only the body |
| `HttpRequests.HttpRequest.AppendToBody` | net/HttpRequest.h:115-118 | the body grows by exactly the given bytes |
| `HttpRequests.HttpRequest.SetReceiveTime` | net/HttpRequest.h:121-122 | changes only the receive time |
| `HttpRequests.TrimSpacesStrips` | net/HttpRequest.h:127-141 | the trimmed value has no white space at either end and sits between two all-white-space pieces of the input |
| `HttpRequests.TrimSpacesIdempotent` | net/HttpRequest.h:127-141 | trimming twice is trimming once |
| `HttpRequests.HttpRequest.AddHeader` | net/HttpRequest.h:127-141 | the field name before ':' is kept verbatim and maps to the trimmed value, replacing an earlier one |
| `HttpRequests.HttpRequest.GetHeader` | net/HttpRequest.h:143-152 | the stored value, or "" for an absent field |
| `HttpRequests.HttpRequest.Swap` | net/HttpRequest.h:157-166 | exchanges every field except the path parameters, which the source does not swap |
| `HttpRequests.HttpRequest.SetPathParams` | net/HttpRequest.h:211-213 | changes only the path parameters |
| `HttpRequests.HttpRequest.GetPathParam` | net/HttpRequest.h:202-208 | the stored parameter, or "" if absent |
| `HttpRequests.UrlDecodeNeverLonger` | net/HttpRequest.h:216-239 | decoding never makes the text longer |
| `HttpRequests.UrlDecodeInvertsPercentEncode` | net/HttpRequest.h:216-239 | round trip: decoding `%HH`-encoded bytes gives the bytes back |
| `HttpRequests.UrlDecodePlainText` | net/HttpRequest.h:216-239 | text without '%' and '+' decodes to itself |
| `HttpRequests.HttpRequest.UrlDecode` | net/HttpRequest.h:216-239 | the loop computes the decoding function |
| `HttpRequests.IndexOf` | net/HttpRequest.h:176-185 | the first occurrence of the character, or none exactly when it is absent |
| `HttpRequests.Split` | net/HttpRequest.h:176-185 | the '&'-separated pieces, empty ones kept; there is always at least one |
| `HttpRequests.SplitPiecesFree` | net/HttpRequest.h:176-185 | no piece contains the separator |
| `HttpRequests.JoinSplit` | net/HttpRequest.h:176-185 | joining the '&'-pieces with '&' gives the query back |
| `HttpRequests.SplitJoin` | net/HttpRequest.h:176-185 | splitting joined '&'-free pieces gives the pieces back |
| `HttpRequests.LookupParam` | net/HttpRequest.h:187-198 | no answer exactly when no parameter has the key |
| `HttpRequests.LookupFindsFirst` | net/HttpRequest.h:187-198 | the first parameter with the key wins and its value is URL-decoded |
| `HttpRequests.LookupFindsBareKey` | net/HttpRequest.h:187-198 | a first parameter that is the bare key answers "true" |
| `HttpRequests.QueryValue` | net/HttpRequest.h:169-199 | the default unless the query starts with '?' and some parameter has the key |
| `HttpRequests.HttpRequest.GetQuery` | net/HttpRequest.h:169-199 | the splitting and scanning loops compute the query lookup |
| `HttpContexts.WithTargetSplits` | net/HttpContext.cc:19-28 | the path is the target before its first '?' and the query is the rest, '?' included |
| `HttpContexts.RequestLineAccepted` | net/HttpContext.cc:8-49 | every line `M SP T SP HTTP/1.d` with a known method and d in {0,1} is accepted and sets method, path, query and version |
| `HttpContexts.AcceptedLineParts` | net/HttpContext.cc:8-49 | conversely, an accepted line has exactly that shape |
| `HttpContexts.HttpContext.ProcessRequestLine` | net/HttpContext.cc:8-49 | the method's effect on the request and its verdict are those of the request-line function |
| `HttpContexts.AtoiReadsDecimal` | net/HttpContext.cc:62-70 | a decimal Content-Length value followed by the line end is read back as itself |
| `HttpContexts.Atoi` | net/HttpContext.cc:62-70 | glibc `atoi`: the result always lies in the 32-bit `int` range |
| `HttpContexts.ApplyHeaderLine` | net/HttpContext.cc:57-81 | one header line stores the trimmed value; only Content-Length sets the length, only Transfer-Encoding can set chunked |
| `HttpContexts.ContentLengthRead` | net/HttpContext.cc:62-70 | "Content-Length: n" sets the length to n |
| `HttpContexts.ScanEndsOnLineBoundary` | net/HttpContext.cc:54-91 | only complete CRLF-terminated lines are consumed |
| `HttpContexts.ScanLines` | net/HttpContext.cc:54-91 | every line taken is a complete header line and never more than the input is consumed |
| `HttpContexts.ScanWaitsForLineEnd` | net/HttpContext.cc:88-90 | without a CRLF in the buffer nothing is consumed |
| `HttpContexts.ScanLeavesNoLineEnd` | net/HttpContext.cc:54-91 | a scan that does not end the headers leaves no CRLF behind |
| `HttpContexts.HeadersEffectEnds` | net/HttpContext.cc:82-87 | a line without ':' ends the headers and nothing after it is read |
| `HttpContexts.HeadersEffectWaits` | net/HttpContext.cc:88-90 | without a CRLF nothing is read |
| `HttpContexts.HttpContext.ProcessHeaders` | net/HttpContext.cc:51-93 | the loop's effect is the header-scanning function's |
| `HttpContexts.BodyEffect` | net/HttpContext.cc:95-111 | the body grows by exactly the bytes consumed, and never past the announced length |
| `HttpContexts.HttpContext.ProcessBody` | net/HttpContext.cc:95-111 | the method's effect is the body function's |
| `HttpContexts.Step` | net/HttpContext.cc:122-172 | one turn of the loop never moves the state back and keeps the context well formed |
| `HttpContexts.RequestLineStep` | net/HttpContext.cc:123-137 | waits without a CRLF; otherwise moves to the headers state on a good line, or stops with an error |
| `HttpContexts.HeadersStep` | net/HttpContext.cc:138-160 | never returns to the request line; reaching the body state reports headers complete; only as written does a stuck headers state keep looping |
| `HttpContexts.BodyStep` | net/HttpContext.cc:161-171 | always ends the call; `kGotAll` reports a complete request |
| `HttpContexts.Run` | net/HttpContext.cc:114-175 | the corrected loop terminates with a well-formed context |
| `HttpContexts.RunAsWritten` | net/HttpContext.cc:114-175 | the loop as written, up to a bound on its turns, keeps the context well formed |
| `HttpContexts.RunConsumesPrefix` | net/HttpContext.cc:114-175 | the input is only ever consumed from the front |
| `HttpContexts.RunGotRequest` | net/HttpContext.cc:141-171 | a complete request is reported exactly when the context reaches `kGotAll` |
| `HttpContexts.RunErrorOnlyOnRequestLine` | net/HttpContext.cc:123-137 | an error comes only from a bad request line, which consumes nothing |
| `HttpContexts.HttpContext.ParseRequest` | net/HttpContext.cc:114-175 | the corrected loop always returns, with the effect of the terminating run function |
| `HttpContexts.HeadersWithoutLineEndSpin` | net/HttpContext.cc:138-160 | as written, a turn in the headers state with no CRLF changes nothing and keeps looping |
| `HttpContexts.DoneStateSpins` | net/HttpContext.cc:122-172 | as written, a call in state `kGotAll` takes no branch and keeps looping |
| `HttpContexts.FixedPointNeverStops` | net/HttpContext.cc:122-172 | once the loop as written reaches such a state it never stops |
| `HttpContexts.PartialHeadersHang` | net/HttpContext.cc:138-160 | a GET whose header block has not fully arrived loops for any number of turns |
| `HttpContexts.AsWrittenAgreesWhenItStops` | net/HttpContext.cc:114-175 | whenever the loop as written stops, it stops with what the corrected loop computes |
| `HttpContexts.StepsAgree` | net/HttpContext.cc:122-172 | outside the two spinning cases the loop as written takes the corrected step |
| `HttpContexts.OnlySpinsNeverStop` | net/HttpContext.cc:122-172 | a run as written that stops never met either spinning case |
| `HttpContexts.StoppingStepIsCorrected` | net/HttpContext.cc:122-172 | each turn of a stopping run as written is a turn of the corrected loop |
| `HttpContexts.NoLineEndRunsOn` | net/HttpContext.cc:138-160 | in the headers state with no CRLF, any number of turns as written leaves everything as it was |
| `HttpContexts.HttpContext.constructor` | net/HttpContext.h:33-39 | a new context awaits the request line, with length 0, nothing received and no chunking |
| `HttpContexts.HttpContext.AllReceived` | net/HttpContext.h:51-52 | holds exactly in the last state |
| `HttpContexts.HttpContext.ExpectsBody` | net/HttpContext.h:54-55 | holds exactly in the body state |
| `HttpContexts.HttpContext.HeadersDone` | net/HttpContext.h:58-59 | holds exactly when the body is awaited or the request is complete |
| `HttpContexts.HttpContext.RemainingLength` | net/HttpContext.h:61-62 | the unsigned difference, which wraps around when more was received than announced |
| `HttpContexts.HttpContext.Reset` | net/HttpContext.h:67-76 | back to the initial state with an empty request, except the path parameters that the swap leaves in place |
| `HttpContexts.HttpContext.SetContext` | net/HttpContext.h:86-93 | `getContext` returns what was stored, and nothing else changes |
| `HttpResponses.Code` | net/HttpResponse.h:16-27 | only `kUnknown` is 0 and every other code is in [200, 600) |
| `HttpResponses.CodeInjective` | net/HttpResponse.h:16-27 | distinct status enumerators have distinct numbers |
| `HttpResponses.HttpResponse.constructor` | net/HttpResponse.h:29-34 | unknown status, the given close flag, not async, no headers and no body |
| `HttpResponses.HttpResponse.SetStatusCode` | net/HttpResponse.h:39 | changes only the status code |
| `HttpResponses.HttpResponse.SetStatusMessage` | net/HttpResponse.h:40 | changes only the message |
| `HttpResponses.HttpResponse.SetCloseConnection` | net/HttpResponse.h:41 | changes only the close flag |
| `HttpResponses.HttpResponse.SetContentType` | net/HttpResponse.h:44 | is `addHeader("Content-Type", v)` |
| `HttpResponses.HttpResponse.AddHeader` | net/HttpResponse.h:45 | the key now maps to the value, replacing an earlier one; other keys are untouched |
| `HttpResponses.HttpResponse.SetBody` | net/HttpResponse.h:46 | changes only the body |
| `HttpResponses.HttpResponse.SetAsync` | net/HttpResponse.h:49 | changes only the async flag |
| `HttpResponses.HttpResponse.AppendToBuffer` | net/HttpResponse.h:56-78 | the serialised response is appended after the bytes already readable |
| `HttpResponses.StatusLineReadsBack` | net/HttpResponse.h:57-61 | the status line gives back the code and the message |
| `HttpResponses.HeaderBlockReadsBack` | net/HttpResponse.h:69-74 | the header block reads back as one `key: value` line per entry, in key order |
| `HttpResponses.HeaderLineSplits` | net/HttpResponse.h:70-73 | a header line splits at its first ':' into the key and " " plus the value |
| `HttpResponses.SerializedReadsBack` | net/HttpResponse.h:56-78 | the output reads back as status line, Connection line, header lines and an empty line, then the body |
| `RouteTries.SegmentsWellFormed` | net/RouteTrie.cc:9-20 | every piece is non-empty and free of '/' |
| `RouteTries.SegmentsOfJoin` | net/RouteTrie.cc:9-20 | segments joined by '/' split back into the same segments |
| `RouteTries.SplitPath` | net/RouteTrie.cc:9-20 | the `getline` loop computes the segments |
| `RouteTries.InsertAsWritten` | net/RouteTrie.cc:22-47 | as written, the child for the first segment exists after insertion |
| `RouteTries.Insert` | net/RouteTrie.cc:22-47 | the corrected insertion creates the same child |
| `RouteTries.InsertStaticAgrees` | net/RouteTrie.cc:22-47 | on routes without parameters both insertions build the same trie |
| `RouteTries.InsertThenFollow` | net/RouteTrie.cc:36-46 | after insertion the path leads by exact children to a leaf holding the handler for the method |
| `RouteTries.Matches` | net/RouteTrie.cc:81-129 | every collected match is a leaf |
| `RouteTries.ExactPathFirst` | net/RouteTrie.cc:96-100 | when the exact path ends on a leaf, it is the first match collected |
| `RouteTries.WildcardValueJoins` | net/RouteTrie.cc:112-128 | the wildcard value is the captured segments joined by '/', and is empty only for no segments |
| `RouteTries.WildcardTakesRest` | net/RouteTrie.cc:112-128 | a childless wildcard leaf catches the whole rest of the path under "*" |
| `RouteTries.FirstHandled` | net/RouteTrie.cc:67-78 | the first collected match with the method wins; if none has it, the empty match |
| `RouteTries.LookupIgnoresQuery` | net/RouteTrie.cc:53-54 | a query string after the path does not change the answer |
| `RouteTries.AddThenFind` | net/RouteTrie.cc:22-78 | after adding a static route, looking it up with the same method gives its handler and no parameters |
| `RouteTries.LastWriteWins` | net/RouteTrie.cc:45 | adding the same path and method twice keeps the last handler |
| `RouteTries.EmptyFindsNothing` | net/RouteTrie.h:44 | an empty trie answers nothing |
| `RouteTries.ParamRouteUnreachableAsWritten` | net/RouteTrie.cc:30-32 | as written, "/s/:name" is never found for "/s/v" |
| `RouteTries.ParamRouteFound` | net/RouteTrie.cc:102-110 | with the name on the '*' child, "/s/v" is found and binds `name` to `v` |
| `RouteTries.RouteTrie.constructor` | net/RouteTrie.h:34 | a new trie has an empty root |
| `RouteTries.RouteTrie.Clear` | net/RouteTrie.h:44 | an empty root, after which every lookup fails |
| `RouteTries.RouteTrie.AddRoute` | net/RouteTrie.cc:22-47 | the root becomes the insertion as written, with a parameter's name on the parent; on a route without parameters this is the corrected insertion |
| `RouteTries.RouteTrie.AddRouteCorrected` | net/RouteTrie.cc:22-47 | corrected: the root becomes the insertion with the name on the '*' child; on a route without parameters it agrees with the insertion as written |
| `RouteTries.RouteTrie.FindRoute` | net/RouteTrie.cc:49-79 | the answer is the lookup function's |
| `RouteGreedy.WalkFollows` | application/route_test.cc:91-106 | on exact children the walk is the exact descent |
| `RouteGreedy.GreedyAddThenFind` | application/route_test.cc:60-115 | after adding a static route, the greedy lookup gives its handler and no parameters |
| `RouteGreedy.WalkIsFirstMatch` | application/route_test.cc:96-106 | the greedy walk is the first path the backtracking search explores |
| `RouteGreedy.GreedyAgreesWhenFound` | application/route_test.cc:91-115 | when the greedy lookup finds a handler, the backtracking lookup finds the same |
| `RouteGreedy.NoBacktracking` | application/route_test.cc:96-106 | a dead end below an exact child fails although a parameter branch would match |
| `RouteGreedy.TrailingParamUnrecordedAsWritten` | application/route_test.cc:68-103 | as written, a trailing parameter matches but its value is not recorded |
| `RouteGreedy.TrailingParamRecorded` | application/route_test.cc:101-103 | with the name on the '*' child, the value is recorded |
| `RouteGreedy.GreedyRouter.constructor` | application/route_test.cc:31-40 | a new router has an empty root |
| `RouteGreedy.GreedyRouter.AddRoute` | application/route_test.cc:60-84 | the root becomes the insertion as written, with a parameter's name on the parent; on a route without parameters this is the corrected insertion |
| `RouteGreedy.GreedyRouter.AddRouteCorrected` | application/route_test.cc:60-84 | corrected: the root becomes the insertion with the name on the '*' child; on a route without parameters it agrees with the insertion as written |
| `RouteGreedy.GreedyRouter.FindRoute` | application/route_test.cc:91-115 | the walking loop computes the greedy lookup |
| `UploadHelpers.LastIndexOf` | application/http_upload.cc:1495 | the last occurrence, or none exactly when the character is absent |
| `UploadHelpers.FileTypeUnknown` | application/http_upload.cc:1494-1520 | "unknown" exactly when there is no '.' or the name ends in one |
| `UploadHelpers.FileTypeOfExtension` | application/http_upload.cc:1494-1520 | otherwise the category of the lower-cased extension |
| `UploadHelpers.FileTypeIgnoresCase` | application/http_upload.cc:1494-1520 | the classification is case-insensitive |
| `UploadHelpers.Escaped` | application/http_upload.cc:1559-1570 | the output length is the input length plus the number of special characters |
| `UploadHelpers.EscapedRoundTrip` | application/http_upload.cc:1559-1570 | no special character is left unprotected, and removing the backslashes gives the input back |
| `UploadHelpers.EscapeRegex` | application/http_upload.cc:1559-1570 | the loop computes the escaped text |
| `UploadHelpers.UploadDecodedNeverLonger` | application/http_upload.cc:1179-1200 | the output is never longer than the input |
| `UploadHelpers.UploadDecoderAgrees` | application/http_upload.cc:1179-1200 | on well-formed input the server's decoder agrees with the request decoder |
| `UploadHelpers.UploadDecodeInvertsPercentEncode` | application/http_upload.cc:1179-1200 | round trip: percent-encoded bytes decode back to themselves |
| `UploadHelpers.LonePercentEmitsStaleByte` | application/http_upload.cc:1179-1200 | a lone trailing '%' still emits a character, the byte left in the uninitialised variable |
| `UploadHelpers.UrlDecode` | application/http_upload.cc:1179-1200 | the loop computes the decoding function |
| `UploadHelpers.DecideRange` | application/http_upload.cc:942-970 | the whole file exactly when no `bytes=S-E` matches; otherwise start and end lie inside the file |
| `UploadHelpers.RangeHeaderMatches` | application/http_upload.cc:942-950 | `bytes=s-e` is recognised with both numbers |
| `UploadHelpers.ExplicitRange` | application/http_upload.cc:942-970 | for `bytes=s-e`: 416 from the file size on, otherwise `e` clamped to the last byte |
| `UploadHelpers.OpenEndedRange` | application/http_upload.cc:942-970 | `bytes=s-` runs to the last byte |
| `UploadHelpers.SuffixRangeIgnored` | application/http_upload.cc:942-970 | a suffix range `bytes=-n` is not recognised and the whole file is sent |
| `UploadHelpers.ChunksCover` | application/http_upload.cc:141-163 | the chunks handed out are contiguous and together exactly the bytes from the position to the end |
| `UploadHelpers.Chunks` | application/http_upload.cc:141-163 | every chunk handed out is non-empty and at most 1 MiB |
| `UploadHelpers.FileDownContext.constructor` | application/http_upload.cc:107-124 | the file is open at position 0 and not complete |
| `UploadHelpers.FileDownContext.SeekTo` | application/http_upload.cc:132-139 | the position is set, completion is cleared, and the chunks still to come cover the rest of the file |
| `UploadHelpers.FileDownContext.ReadNextChunk` | application/http_upload.cc:141-163 | returns the next chunk of at most 1 MiB and advances by its length; false and complete exactly when nothing remains |
| `UploadHelpers.RangeEndIgnored` | application/http_upload.cc:1010-1027 | as written, a request for `bytes=0-0` of a two-byte file streams both bytes |
| `UploadHelpers.RangeBodyMatchesHeader` | application/http_upload.cc:942-1027 | with the end honoured, the body is exactly the announced bytes |
| `UploadHelpers.OwnerAlwaysPermitted` | application/http_upload.cc:875-879 | the signed-in owner is always let through |
| `UploadHelpers.DirectAccessOwnerOnly` | application/http_upload.cc:875-902 | without a share code only the signed-in owner is allowed |
| `UploadHelpers.SharedPathsAgree` | application/http_upload.cc:2067-2085 | with a share code, the download handler decides as the shared-file handler does |
| `UploadHelpers.ProtectedShareNeedsCode` | application/http_upload.cc:880-902 | a protected share opens to a non-owner exactly with the stored, non-empty extract code |
| `UploadHelpers.UnknownShareTypeDenied` | application/http_upload.cc:880-902 | a share of unknown type opens to nobody but the owner |
| `UploadHelpers.ShareCodeCheckMeansGenerable` | application/http_upload.cc:1893-1904 | a code passes the check exactly when 32 draws from the alphabet can produce it |
| `UploadHelpers.GenerateShareCode` | application/http_upload.cc:1690-1704 | the code is the draws' characters and always passes the share-code check |
| `UploadHelpers.Pick` | application/http_upload.cc:1690-1721 | one character per draw, each from the alphabet |
| `UploadHelpers.GenerateExtractCode` | application/http_upload.cc:1707-1721 | six characters chosen by the draws from digits and upper-case letters |
| `Player.NextRange` | application/player.js:131-137 | none exactly when everything is loaded; otherwise it starts at the loaded count and ends before the total, with at most 2 MiB |
| `Player.ScheduleTiles` | application/player.js:131-151 | successive ranges tile `[loaded, total)` with no gap and no overlap |
| `Player.ScheduleLength` | application/player.js:131-151 | the range lengths add up to what remains |
| `Player.SegmentVideoPlayer.GetSessionId` | application/player.js:20-28 | the stored id if there is one, else a new `session_` id that is stored, so the next call returns the same |
| `Player.SegmentVideoPlayer.constructor` | application/player.js:2-18 | a stored session id, nothing loaded, nothing in flight |
| `Player.SegmentVideoPlayer.LoadNextSegment` | application/player.js:125-146 | nothing while buffering, before the metadata, while updating or when done; otherwise the next range, with `isBuffering` set |
| `Player.SegmentVideoPlayer.CompleteSegment` | application/player.js:148-161 | a 206 moves the loaded count to the end plus one; anything else clears `isBuffering` and keeps the count |
| `Player.SegmentVideoPlayer.CompleteMetadata` | application/player.js:64-91 | corrected: a 206 reply whose total parses sets the total, marks the metadata loaded, sets the count to 65536 and issues the next range; any other outcome, including a total that does not parse, changes nothing |
| `Player.SegmentVideoPlayer.OnUpdateEnd` | application/player.js:107-118 | clears `isBuffering`; if idle and open, fetches the next range while bytes remain, else ends the stream |
| `Player.SegmentVideoPlayer.CheckBuffer` | application/player.js:165-177 | fetches only with a buffered range, under 10 seconds ahead and not buffering |
| `Player.ReadsServerTotal` | application/player.js:72-73 | the total read from a server's `Content-Range` is the size it announced |
| `Player.SmallFileEndsAfterMetadata` | application/player.js:79-83 | a file no longer than the probe needs no segment |
| `Player.UnknownLengthAsWritten` | application/player.js:71-79 | as written, a "*" total is accepted as NaN and the metadata is marked loaded |
| `Dates.YearMonthDayRoundTrip` | base/Date.cc:13-36 | `getYearMonthDay` undoes `getJulianDayNumber` on every valid date from 4800 BC on |
| `Dates.DayNumberRoundTrip` | base/Date.cc:13-36 | every day number from 4713 BC on gives a month in [1,12] and a day in [1,31] and comes back from that date |
| `Dates.NextDayNumber` | base/Date.cc:13-19 | the day after a valid date has a day number one larger |
| `Dates.JulianDayNumberIncreasing` | base/Date.cc:13-19 | the day number is strictly increasing in calendar order |
| `Dates.DefaultDateIsDayZero` | base/Date.h:24 | the default date is day 0, 24 November 4714 BC |
| `Dates.DateFieldsRoundTrip` | base/Date.h:41-43 | a date from a valid year, month and day reads them back |
| `Dates.FromTmReadsFields` | base/Date.cc:45-51 | the `struct tm` constructor is the calendar constructor on `tm_year + 1900`, `tm_mon + 1` and `tm_mday` |
| `Dates.LessIsStrictTotalOrder` | base/Date.h:58-66 | `operator<` is a strict total order and `operator==` is equality |
| `Dates.LessIsCalendarOrder` | base/Date.h:58-66 | on valid dates `<` is calendar order |
| `Dates.WeekDayAdvances` | base/Date.cc:66-70 | `weekDay()` is in [0,6] and advances by one mod 7 per day |
| `Dates.EpochWeekDayAsWritten` | base/Date.cc:66-70 | as written, 1970-01-01 is put on day 0 |
| `Dates.CorrectedWeekDayOfEpoch` | base/Date.cc:66-70 | with offset 1, 1970-01-01 is day 4, a Thursday |
| `Dates.CorrectedWeekDayAdvances` | base/Date.cc:66-70 | the corrected day is in [0,6] and advances by one mod 7 per day |
| `TimeZones.UpperBound` | base/TimeZone.cc:72-74 | the binary search lands inside the searched range |
| `TimeZones.UpperBoundSplits` | base/TimeZone.cc:72-74 | on sorted transitions the result splits them into those at or before the query and those after it |
| `TimeZones.UpperBoundPastFirst` | base/TimeZone.cc:64-80 | a query at or after the first local time lands past the first element, so the step back is always valid |
| `TimeZones.ZoneData.constructor` | base/TimeZone.cc:23-57 | new zone data is empty and valid |
| `TimeZones.ZoneData.AddLocalTime` | base/TimeZone.cc:35-38 | appends one local-time kind and keeps the data valid |
| `TimeZones.ZoneData.AddTransition` | base/TimeZone.cc:40-44 | appends a transition whose local time is `when` plus the kind's offset |
| `TimeZones.ZoneData.LocalTimeOf` | base/TimeZone.cc:46-49 | the kind of a recorded transition, whose offset is its local minus its UTC time |
| `TimeZones.ZoneData.FindLocalTime` | base/TimeZone.cc:59-87 | the first kind with no transitions or before the first; past the first transition, the corrected answer for local time 0, or on sorted transitions all after local time 0, the first transition's kind |
| `TimeZones.ZoneData.FindLocalTimeCorrected` | base/TimeZone.cc:59-87 | corrected: the first kind with no transitions or before the first; otherwise the kind of the last transition at or before the query |
| `TimeZones.ZoneData.FindLocalTimeIgnoresQuery` | base/TimeZone.cc:71-77 | all queries at or after the first transition get the same answer |
| `TimeZones.SentryKeyAsWritten` | base/TimeZone.cc:71-77 | on sorted transitions into standard and then daylight time, local time 250 is daylight time, but the search as written answers standard time |
| `TimeZones.ZoneOffset` | base/TimeZone.cc:92-119 | found exactly when some zone has the name, and then the first such zone's offset |
| `TimeZones.KnownZones` | base/TimeZone.cc:92-119 | exactly the five listed names are known, with their listed offsets |
| `TimeZones.TimeZone.constructor` | base/TimeZone.h:20 | the default zone is invalid |
| `TimeZones.TimeZone.Named` | base/TimeZone.cc:92-119 | valid exactly for a known name, with one kind of that offset and no transitions |
| `TimeZones.TimeZone.WithOffset` | base/TimeZone.cc:121-126 | always valid, with one kind of the given offset and no transitions |
| `Timestamps.SecondsSinceEpoch` | base/Timestamp.h:43-46 | the whole seconds, truncated toward zero |
| `Timestamps.FromUnixTime` | base/Timestamp.h:61-64 | `t` seconds and `microseconds` make `t * 1000000 + microseconds` |
| `Timestamps.FromUnixTimeSeconds` | base/Timestamp.h:55-58 | whole seconds, which `secondsSinceEpoch` gives back on either side of the epoch |
| `Timestamps.SecondsRoundTrip` | base/Timestamp.h:43-64 | for `t >= 0` and a proper fraction of a second, `secondsSinceEpoch(fromUnixTime(t, us)) == t` |
| `Timestamps.NegativeSecondsTruncate` | base/Timestamp.h:43-46 | half a second before the epoch still reports second 0 |
| `Timestamps.LessIsStrictTotalOrder` | base/Timestamp.h:73-82 | `operator<` is a strict total order and `operator==` is equality |
| `StringPieces.CStrLen` | base/StringPiece.h:19-20 | the first NUL: none before it |
| `StringPieces.MemEqual` | base/StringPiece.h:82 | `memcmp(...) == 0` exactly when the two runs of bytes are equal |
| `StringPieces.StringPiece.AsString` | base/StringPiece.h:90-93 | the bytes the piece covers, of its length |
| `StringPieces.StringPiece.constructor` | base/StringPiece.h:16-17 | the null piece with no bytes |
| `StringPieces.StringPiece.FromCString` | base/StringPiece.h:19-24 | the bytes before the terminating NUL |
| `StringPieces.StringPiece.FromString` | base/StringPiece.h:26-27 | round trip: `as_string()` gives the string back |
| `StringPieces.StringPiece.Window` | base/StringPiece.h:29-30 | exactly `len` bytes from `offset` |
| `StringPieces.StringPiece.Size` | base/StringPiece.h:39 | the length of the covered bytes |
| `StringPieces.StringPiece.IsEmpty` | base/StringPiece.h:40 | holds exactly when no bytes are covered |
| `StringPieces.StringPiece.At` | base/StringPiece.h:66 | the `i`-th covered byte |
| `StringPieces.StringPiece.Clear` | base/StringPiece.h:42-46 | the piece becomes empty |
| `StringPieces.StringPiece.Set` | base/StringPiece.h:48-52 | exactly `len` bytes from `offset` |
| `StringPieces.StringPiece.SetCString` | base/StringPiece.h:54-58 | the bytes before the terminating NUL |
| `StringPieces.StringPiece.RemovePrefix` | base/StringPiece.h:68-72 | drops the first `n` bytes |
| `StringPieces.StringPiece.RemoveSuffix` | base/StringPiece.h:74-77 | drops the last `n` bytes |
| `StringPieces.StringPiece.Equals` | base/StringPiece.h:79-83 | holds exactly when both pieces cover the same bytes |
| `StringPieces.StringPiece.NotEquals` | base/StringPiece.h:85-88 | the negation of equality |
| `StringPieces.StringPiece.StartsWith` | base/StringPiece.h:100-104 | holds exactly when the piece is `x` followed by some rest |
| `EventLoopThreadPools.NextIndex` | net/EventLoopThreadPool.cc:75-78 | the rotation moves to `(next + 1) mod n` and stays below `n` |
| `EventLoopThreadPools.Schedule` | net/EventLoopThreadPool.cc:67-81 | `k` calls hand out `k` loops |
| `EventLoopThreadPools.ScheduleInOrder` | net/EventLoopThreadPool.cc:72-79 | without wrapping, consecutive calls walk the list in order |
| `EventLoopThreadPools.ScheduleWraps` | net/EventLoopThreadPool.cc:72-79 | past the end of the list the calls start over at its head |
| `EventLoopThreadPools.FullRound` | net/EventLoopThreadPool.cc:72-79 | any `n` consecutive calls over `n` loops return each loop once, in list order from the rotation |
| `EventLoopThreadPools.EventLoopThreadPool.constructor` | net/EventLoopThreadPool.cc:11-19 | not started, no threads, rotation at 0 |
| `EventLoopThreadPools.EventLoopThreadPool.SetThreadNum` | net/EventLoopThreadPool.h:55 | changes only the thread count |
| `EventLoopThreadPools.EventLoopThreadPool.Start` | net/EventLoopThreadPool.cc:28-47 | needs only a stopped pool; started, with one loop per thread in creation order and the rotation kept, and the invariant holds exactly when that rotation indexes inside the new list |
| `EventLoopThreadPools.EventLoopThreadPool.Stop` | net/EventLoopThreadPool.cc:49-65 | needs only a started pool; stopped with no loops; the rotation keeps its value, so the invariant holds again only if it was 0 |
| `EventLoopThreadPools.EventLoopThreadPool.StopCorrected` | net/EventLoopThreadPool.cc:49-65 | corrected: stopped with no loops and the rotation rewound to 0, so the invariant holds |
| `EventLoopThreadPools.EventLoopThreadPool.GetAllLoops` | net/EventLoopThreadPool.cc:83-90 | the base loop alone with no workers, else the workers |
| `EventLoopThreadPools.EventLoopThreadPool.GetNextLoop` | net/EventLoopThreadPool.cc:67-81 | the base loop with no workers; otherwise the loop at the rotation, which then advances; always one of `getAllLoops()` |
| `EventLoopThreadPools.StaleRotationAfterStop` | net/EventLoopThreadPool.cc:28-79 | two workers, one call, the as-written stop, one worker and a restart leave the rotation at 1 of a one-loop list, outside the invariant, so the next `getNextLoop` would read past the end |
| `EventLoopThreadPools.RotationRewoundAfterStop` | net/EventLoopThreadPool.cc:28-81 | the same sequence with the corrected stop, then a restart with one worker: the pool is valid and the next call returns that worker |

## Left out

- Sockets, `epoll`, event loops, timers, threads, locks, logging, MySQL,
  files on disk, JSON persistence, HTML serving and the browser's
  MediaSource, DOM and `fetch`. They are system or library calls. Where a
  modelled operation depends on them, the value they supply is a
  parameter:
  - the network outcome in the player;
  - the random draws of the code generators;
  - the file contents in `FileDownContext`;
  - the loops that the worker threads report to `start`.
- Fixed-width integers are unbounded. The exceptions are the `size_t` of
  `remainingLength` and of the Content-Length, and glibc `atoi`'s `int`
  result, which are written out. `Date` overflow outside the documented
  years and `time_t` or `int64_t` overflow in `Timestamp` are not modelled.
- Floating point is left out: `Timestamp::addTime`, `timeDifference`, the
  player's `formatBytes` and the percentage it shows. `checkBuffer`
  compares its times as Dafny reals.
- `Buffer::readFd`, `peek` and the raw pointers `begin`/`beginWrite` are
  left out. Positions are array indices.
- `TimeZone::toLocalTime`, `fromLocalTime`, `utcTime` and `fromUtcTime` call
  `gmtime_r`, `timegm` and `mktime`, and are left out. The zone
  abbreviation table is kept but no modelled operation reads it.
- `Date::toString`, `Timestamp::toString` and `toFormattedString` are
  formatting, and are left out.
- `StringPiece`'s `data()`, `CopyToString` and `operator std::string_view`
  are left out. They expose the same bytes as `as_string()`. A piece holds
  a snapshot of the bytes it views, so later writes to the viewed memory
  are not seen.
- `RouteTrie::addRoute` grows shared nodes in place. The model rebuilds the
  trie as a value. Within one trie no node is reachable twice. A
  `RouteTrie` is copyable and holds its root through a `shared_ptr`, so
  copies of a `RouteTrie` share their nodes in the source: a route added
  through one copy is seen through the other, while `clear()` detaches only
  the copy it is called on. The model does not capture this sharing; no
  code in the repository copies a `RouteTrie`. The `paramNames` argument of
  `addRoute` is accepted and ignored, as in the source.
- `EventLoopThreadPools.EventLoopThreadPool.GetNextLoop` requires the
  rotation to index inside the loop list. After the as-written `stop` and a
  restart with fewer threads the source reads past the end of `loops_`,
  which is undefined behaviour; `StaleRotationAfterStop` shows the state
  that reaches it.
- The `std::regex` matching of request paths in the upload server and the
  multipart upload path, which is interleaved with file writes, are left
  out. So are the `sha256` stand-in and `RouteBenchmark`.
- `EventLoopThreadPool::start` creates threads and runs the init callback.
  Only its effect on the loop list is modelled.
- `RouteTries.InsertAsWritten`: its contract states only that the first
  child exists. What the as-written trie does is stated by
  `RouteTries.ParamRouteUnreachableAsWritten`.
- `TimeZones.ZoneData.FindLocalTimeCorrected`: the last-transition
  characterisation is proved only for transitions sorted by local time, which
  `upper_bound` presumes.
- `Dates.YearMonthDayRoundTrip`: proved for years from -4799 on, and
  `Dates.DayNumberRoundTrip` for day numbers from -32044 on. Below these
  bounds the day count goes negative and C's truncating division breaks
  the formulas.
- `HttpContexts.HttpContext.ParseRequest` models the corrected loop.
  `HttpContexts.RunAsWritten` runs the loop as written for at most a given
  number of turns, because the loop as written need not terminate.
- `Player.SegmentVideoPlayer.CompleteMetadata` is the corrected
  completion: it refuses a `Content-Range` whose total does not parse. As
  written, `loadInitialMetadata` stores the NaN that `parseInt` returns
  and marks the metadata loaded. The player keeps an integer total, so
  that NaN path is stated only on values, by `Player.TotalAsWritten`,
  `Player.NextRangeAsWritten` and `Player.UnknownLengthAsWritten`.
- `Timestamp::swap` only exchanges two values and is left out; the model's
  timestamps are immutable values.
- `HttpRequests.UrlDecoded`: one `unset` value stands for the
  indeterminate `int value` of every `%` whose two characters `sscanf`
  cannot read. In the source each such scan reads its own indeterminate
  value.
- `processHeaders` lets `atoi` read past the end of the header line into
  later buffered bytes. The model reads the readable bytes only.

## Findings

| source | as written | input that shows it | evidently intended | confidence | as-written member | corrected member |
|---|---|---|---|---|---|---|
| net/HttpContext.cc:122-172 | `parseRequest` loops while `hasMore`. In the headers state with no CRLF left, and in state `kGotAll`, no branch clears it | "GET / HTTP/1.1\r\nHost: a" (headers not yet complete), or any call after the request is complete | return `kNeedMore` and wait for more bytes | not executed | `HttpContexts.PartialHeadersHang` | `HttpContexts.HttpContext.ParseRequest` |
| base/Date.cc:66-70 | `weekDay()` is `(jdn + 4) % 7` | 1970-01-01, day number 2440588, gives 0 (Sunday); the comment says Thursday (4) | `(jdn + 1) % 7`, Sunday = 0 | not executed | `Dates.EpochWeekDayAsWritten` | `Dates.CorrectedWeekDayOfEpoch` |
| net/RouteTrie.cc:30-32 | the ':name' is stored on the parent, but `findMatches` reads the names of the '*' child | route "/s/:id", request "/s/7": not found | store the name on the '*' child | not executed | `RouteTries.ParamRouteUnreachableAsWritten` | `RouteTries.ParamRouteFound` |
| application/route_test.cc:68-103 | the ':name' is stored on the parent and read from the '*' child | route "/s/:id", request "/s/7": found with no `id` parameter | record `id = 7` | not executed | `RouteGreedy.TrailingParamUnrecordedAsWritten` | `RouteGreedy.TrailingParamRecorded` |
| application/http_upload.cc:1010-1027 | after a Range request the download seeks to the start and streams to end of file, ignoring the parsed end | `Range: bytes=0-0` on a two-byte file: two bytes sent after the header announced one | stop after the end byte | not executed | `UploadHelpers.RangeEndIgnored` | `UploadHelpers.RangeBodyMatchesHeader` |
| application/player.js:71-79 | any 206 reply with a `Content-Range` is accepted, and `parseInt` of the text after '/' is taken as the total | `Content-Range: bytes 0-65535/*` (unknown length): total NaN, metadata marked loaded, next request `bytes=65536-NaN` | refuse a total that does not parse | not executed | `Player.UnknownLengthAsWritten` | `Player.SegmentVideoPlayer.CompleteMetadata` |
| net/EventLoopThreadPool.cc:49-79 | `stop()` clears `loops_` but keeps `next_` | 2 threads, one `getNextLoop`, `stop`, `setThreadNum(1)`, `start`, `getNextLoop`: reads `loops_[1]` of a one-element list | rewind `next_` to 0 in `stop` | not executed | `EventLoopThreadPools.StaleRotationAfterStop` | `EventLoopThreadPools.EventLoopThreadPool.StopCorrected` |
| base/TimeZone.cc:71 | the search key is `Transition(localtime, 0, 0)`, which puts the query in `gmttime` and 0 in `localtime`, the field the comparison reads | transitions into standard time at local 100 and into daylight time at local 200, query 250: standard time, the first transition's kind | `Transition(0, localtime, 0)`, searching for the query's local time | not executed; no zone in the repository has transitions | `TimeZones.SentryKeyAsWritten` | `TimeZones.ZoneData.FindLocalTimeCorrected` |
