/** The progressive segment loader of the web player
    (application/player.js, class `SegmentVideoPlayer`). It probes the first
    64 KiB of a media file with a `Range` request, reads the total length
    from the `Content-Range` reply, then fetches the rest in ranges of at
    most 2 MiB, one at a time, appending each to a MediaSource buffer.

    Each `async` method is split at its `await`: an issuing method returns
    the range it asks for and records it as in flight, and a completing
    method takes the network outcome as an argument. The MediaSource
    `updating` flag, the `readyState === 'open'` test and the video's
    buffered ranges and playback time are inputs. */
module Player {
  import opened Common
  import HttpRequests

  /** `this.chunkSize`: 2 MiB. */
  const ChunkSize: int := 1024 * 1024 * 2

  /** The metadata probe asks for `bytes=0-65535`. */
  const MetadataBytes: int := 65536

  /** An inclusive byte range `start-end`. */
  datatype SegmentRange = SegmentRange(start: int, end: int)

  /** What a fetch ends with: a reply with a status code and the
      `Content-Range` header (absent: `None`), or a thrown error (network
      failure, or a failure reading or appending the body). */
  datatype FetchOutcome = Reply(status: int, contentRange: Option<string>) | Thrown

  /** What `onUpdateEnd` does after clearing `isBuffering`. */
  datatype UpdateEndAction = NoAction | FetchNext(range: SegmentRange) | EndOfStream

  // ---------------------------------------------------------------------
  // The range schedule.

  /** The range `loadNextSegment` asks for next, or nothing once the
      loaded count has reached the total. */
  function NextRange(loaded: int, total: int): (r: Option<SegmentRange>)
    ensures r.None? <==> loaded >= total
    ensures r.Some? ==> r.value.start == loaded && r.value.start <= r.value.end < total
    ensures r.Some? ==> r.value.end - r.value.start + 1 <= ChunkSize
    ensures r.Some? ==> (r.value.end == total - 1 || r.value.end - r.value.start + 1 == ChunkSize)
  {
    if loaded >= total then None
    else Some(SegmentRange(loaded, if loaded + ChunkSize - 1 < total - 1 then loaded + ChunkSize - 1 else total - 1))
  }

  /** The ranges fetched from `loaded` on when every fetch succeeds. */
  function Schedule(loaded: int, total: int): seq<SegmentRange>
    decreases total - loaded
  {
    match NextRange(loaded, total)
    case None => []
    case Some(r) => [r] + Schedule(r.end + 1, total)
  }

  /** The successive ranges tile `[loaded, total)`: the first starts at
      `loaded`, each starts right after the previous one ends, the last
      ends at `total - 1`, and each is non-empty and at most 2 MiB. */
  lemma {:induction false} ScheduleTiles(loaded: int, total: int)
    ensures var rs := Schedule(loaded, total);
      && (rs == [] <==> loaded >= total)
      && (rs != [] ==> rs[0].start == loaded && rs[|rs| - 1].end == total - 1)
      && (forall k :: 0 <= k < |rs| ==> rs[k].start <= rs[k].end && rs[k].end - rs[k].start + 1 <= ChunkSize)
      && (forall k :: 0 <= k < |rs| - 1 ==> rs[k + 1].start == rs[k].end + 1)
    decreases total - loaded
  {
    var rs := Schedule(loaded, total);
    if loaded < total {
      var r := NextRange(loaded, total).value;
      ScheduleTiles(r.end + 1, total);
      var rest := Schedule(r.end + 1, total);
      assert rs == [r] + rest;
      if rest != [] {
        assert rs[|rs| - 1] == rest[|rest| - 1];
      }
      forall k | 0 <= k < |rs| - 1
        ensures rs[k + 1].start == rs[k].end + 1
      {
        if k > 0 {
          assert rs[k] == rest[k - 1] && rs[k + 1] == rest[k];
        }
      }
    }
  }

  /** The bytes of a schedule add up to what remains. */
  lemma {:induction false} ScheduleLength(loaded: int, total: int)
    requires loaded <= total
    ensures SumLengths(Schedule(loaded, total)) == total - loaded
    decreases total - loaded
  {
    if loaded < total {
      var r := NextRange(loaded, total).value;
      ScheduleLength(r.end + 1, total);
      assert Schedule(loaded, total)[1..] == Schedule(r.end + 1, total);
    }
  }

  function SumLengths(rs: seq<SegmentRange>): int
  {
    if rs == [] then 0 else (rs[0].end - rs[0].start + 1) + SumLengths(rs[1..])
  }

  // ---------------------------------------------------------------------
  // Reading the total length from Content-Range.

  /** White space as ECMAScript's `parseInt` skips it: the ASCII spaces,
      no-break space, the byte-order mark, the line and paragraph
      separators and the other space separators. */
  predicate IsJsSpace(c: char)
  {
    IsSpace(c) || c == '\U{A0}' || c == '\U{FEFF}' || c == '\U{1680}' ||
    ('\U{2000}' <= c <= '\U{200A}') || c == '\U{2028}' || c == '\U{2029}' ||
    c == '\U{202F}' || c == '\U{205F}' || c == '\U{3000}'
  }

  /** Number of leading white-space characters. */
  function LeadingJsSpaces(s: string): (n: nat)
    ensures n <= |s|
    ensures forall i :: 0 <= i < n ==> IsJsSpace(s[i])
    ensures n < |s| ==> !IsJsSpace(s[n])
  {
    if s == [] || !IsJsSpace(s[0]) then 0 else 1 + LeadingJsSpaces(s[1..])
  }

  /** Length of the longest prefix of hexadecimal digits. */
  function HexRun(s: string): (n: nat)
    ensures n <= |s|
    ensures forall i :: 0 <= i < n ==> IsHexDigit(s[i])
  {
    if s == [] || !IsHexDigit(s[0]) then 0 else 1 + HexRun(s[1..])
  }

  /** The value of a string of hexadecimal digits. */
  function HexNumber(s: string): nat
    requires forall i :: 0 <= i < |s| ==> IsHexDigit(s[i])
  {
    if s == [] then 0 else HexNumber(s[..|s| - 1]) * 16 + HexValue(s[|s| - 1])
  }

  /** `parseInt(s)` without a radix: skip white space, take a sign, read
      hexadecimal after "0x"/"0X" and decimal otherwise; `None` is NaN. */
  function JsParseInt(s: string): Option<int>
  {
    var t := s[LeadingJsSpaces(s)..];
    var negative := t != [] && t[0] == '-';
    var u := if t != [] && (t[0] == '-' || t[0] == '+') then t[1..] else t;
    var magnitude :=
      if |u| >= 2 && u[0] == '0' && (u[1] == 'x' || u[1] == 'X') then
        var n := HexRun(u[2..]);
        if n == 0 then None else Some(HexNumber(u[2..][..n]) as int)
      else
        var n := DigitRun(u);
        if n == 0 then None else Some(DecimalValue(u[..n]) as int);
    match magnitude
    case None => None
    case Some(m) => Some(if negative then -m else m)
  }

  /** `contentRange.split('/')[1]`: the text between the first '/' and the
      next one, or `undefined` (`None`) when there is no '/'. */
  function AfterFirstSlash(s: string): (r: Option<string>)
    ensures r.Some? ==> '/' !in r.value
  {
    match HttpRequests.IndexOf(s, '/')
    case None => None
    case Some(i) =>
      var rest := s[i + 1..];
      match HttpRequests.IndexOf(rest, '/')
      case None => Some(rest)
      case Some(j) => Some(rest[..j])
  }

  /** The total length the player reads from a Content-Range value;
      `parseInt(undefined)` is NaN. */
  function ParseTotal(contentRange: string): Option<int>
  {
    match AfterFirstSlash(contentRange)
    case None => None
    case Some(piece) => JsParseInt(piece)
  }

  /** The Content-Range value the download handler sends for a 206 reply. */
  function ServerContentRange(start: nat, end: nat, size: nat): string
  {
    "bytes " + NatToString(start) + "-" + NatToString(end) + "/" + NatToString(size)
  }

  /** The player reads back the file size the server announces. */
  lemma ReadsServerTotal(start: nat, end: nat, size: nat)
    ensures ParseTotal(ServerContentRange(start, end, size)) == Some(size)
  {
    var ds := NatToString(size);
    assert ServerContentRange(start, end, size) == RangePrefix(start, end) + "/" + ds;
    assert '/' !in ds by {
      assert forall j :: 0 <= j < |ds| ==> IsDigit(ds[j]);
    }
    SlashPiece(RangePrefix(start, end), ds);
    DecimalPrefix(ds);
    NatToStringRoundTrip(size);
  }

  /** `bytes first-last`, the part of a Content-Range value before the '/'. */
  function RangePrefix(start: nat, end: nat): (r: string)
    ensures '/' !in r
  {
    var r := "bytes " + NatToString(start) + "-" + NatToString(end);
    assert r[6..] == NatToString(start) + "-" + NatToString(end);
    r
  }

  /** The piece after the only '/'. */
  lemma SlashPiece(prefix: string, rest: string)
    requires '/' !in prefix && '/' !in rest
    ensures AfterFirstSlash(prefix + "/" + rest) == Some(rest)
  {
    var h := prefix + "/" + rest;
    assert HttpRequests.IndexOf(h, '/') == Some(|prefix|) by {
      assert h[|prefix|] == '/';
      assert forall j :: 0 <= j < |prefix| ==> h[j] == prefix[j];
    }
    assert h[|prefix| + 1..] == rest;
  }

  /** A digit string is read whole. */
  lemma DecimalPrefix(ds: string)
    requires ds != [] && AllDigits(ds)
    ensures LeadingJsSpaces(ds) == 0 && DigitRun(ds) == |ds| && ds[..|ds|] == ds
  {
    DigitRunAll(ds);
  }

  lemma {:induction false} DigitRunAll(ds: string)
    requires AllDigits(ds)
    ensures DigitRun(ds) == |ds|
  {
    if ds != [] {
      DigitRunAll(ds[1..]);
    }
  }

  // ---------------------------------------------------------------------
  // Session id.

  /** The browser's `localStorage`. */
  class LocalStorage {
    var items: map<string, string>

    constructor (items: map<string, string>)
      ensures this.items == items
    {
      this.items := items;
    }
  }

  const SessionKey := "sessionId"

  /** The stored session id, if there is a non-empty one (JavaScript treats
      `null` and "" alike as missing). */
  function StoredSession(items: map<string, string>): (r: Option<string>)
    ensures r.Some? ==> r.value != []
  {
    if SessionKey in items && items[SessionKey] != [] then Some(items[SessionKey]) else None
  }

  /** A probe reply the player accepts: 206 with a Content-Range whose
      total parses. */
  predicate ProbeAccepted(outcome: FetchOutcome)
  {
    outcome.Reply? && outcome.status == 206 && outcome.contentRange.Some? &&
    ParseTotal(outcome.contentRange.value).Some?
  }

  // ---------------------------------------------------------------------
  // The player.

  class SegmentVideoPlayer {
    var sessionId: string
    var totalBytes: int
    var loadedBytes: int
    var metadataLoaded: bool
    var isBuffering: bool
    /** The range of the segment fetch being awaited, if any. */
    var inFlight: Option<SegmentRange>

    /** A segment fetch is in flight only while buffering and after the
        metadata, and it asks for the next range from the loaded count. */
    predicate Valid()
      reads this
    {
      inFlight.Some? ==>
        isBuffering && metadataLoaded && inFlight == NextRange(loadedBytes, totalBytes)
    }

    /** `getSessionId`: the stored id, or a new one made from the random
        suffix, stored for next time. Either way the store then holds the
        id returned, so a second call returns the same id. */
    static method GetSessionId(store: LocalStorage, suffix: string) returns (id: string)
      modifies store
      ensures StoredSession(old(store.items)).Some? ==> id == StoredSession(old(store.items)).value && store.items == old(store.items)
      ensures StoredSession(old(store.items)).None? ==> id == "session_" + suffix && store.items == old(store.items)[SessionKey := id]
      ensures StoredSession(store.items) == Some(id)
    {
      if SessionKey in store.items && store.items[SessionKey] != [] {
        id := store.items[SessionKey];
      } else {
        id := "session_" + suffix;
        store.items := store.items[SessionKey := id];
      }
    }

    /** The constructor: a session id, nothing loaded, nothing in flight. */
    constructor (store: LocalStorage, suffix: string)
      modifies store
      ensures Valid()
      ensures StoredSession(store.items) == Some(sessionId)
      ensures totalBytes == 0 && loadedBytes == 0 && !metadataLoaded && !isBuffering && inFlight.None?
    {
      var id := GetSessionId(store, suffix);
      sessionId := id;
      totalBytes := 0;
      loadedBytes := 0;
      metadataLoaded := false;
      isBuffering := false;
      inFlight := None;
    }

    /** The first half of `loadNextSegment`: nothing while buffering,
        before the metadata, while the buffer is updating, or once
        everything is loaded; otherwise the next range is issued and
        `isBuffering` set before the fetch. */
    method LoadNextSegment(updating: bool) returns (r: Option<SegmentRange>)
      requires Valid()
      modifies this
      ensures Valid()
      ensures r.None? ==> unchanged(this)
      ensures r.None? <==> old(isBuffering) || !metadataLoaded || updating || loadedBytes >= totalBytes
      ensures r.Some? ==> r == NextRange(loadedBytes, totalBytes) && isBuffering && inFlight == r
      ensures r.Some? ==> old(inFlight).None?
      ensures totalBytes == old(totalBytes) && loadedBytes == old(loadedBytes)
      ensures metadataLoaded == old(metadataLoaded) && sessionId == old(sessionId)
    {
      if isBuffering || !metadataLoaded || updating {
        return None;
      }
      var segmentStart := loadedBytes;
      var segmentEnd := if loadedBytes + ChunkSize - 1 < totalBytes - 1 then loadedBytes + ChunkSize - 1 else totalBytes - 1;
      if segmentStart >= totalBytes {
        return None;
      }
      isBuffering := true;
      r := Some(SegmentRange(segmentStart, segmentEnd));
      inFlight := r;
    }

    /** The second half of `loadNextSegment`: a 206 reply moves the loaded
        count past the range (buffering stays set until the append ends);
        anything else clears `isBuffering` and leaves the count, so the
        next call asks for the same range again. */
    method CompleteSegment(outcome: FetchOutcome)
      requires Valid() && inFlight.Some?
      modifies this
      ensures Valid() && inFlight.None?
      ensures outcome.Reply? && outcome.status == 206 ==>
        loadedBytes == old(inFlight.value.end) + 1 && isBuffering &&
        old(loadedBytes) < loadedBytes <= totalBytes
      ensures !(outcome.Reply? && outcome.status == 206) ==>
        loadedBytes == old(loadedBytes) && !isBuffering && NextRange(loadedBytes, totalBytes) == old(inFlight)
      ensures totalBytes == old(totalBytes) && metadataLoaded == old(metadataLoaded) && sessionId == old(sessionId)
    {
      var segmentEnd := inFlight.value.end;
      if outcome.Reply? && outcome.status == 206 {
        loadedBytes := segmentEnd + 1;
      } else {
        isBuffering := false;
      }
      inFlight := None;
    }

    /** The completion of `loadInitialMetadata`: a 206 reply with a
        readable total sets the total, marks the metadata loaded, counts
        the first 64 KiB as loaded whatever the total, and calls
        `loadNextSegment`. Any other outcome changes nothing, so no
        segment is ever fetched. */
    method CompleteMetadata(outcome: FetchOutcome, updating: bool) returns (r: Option<SegmentRange>)
      requires Valid() && inFlight.None?
      modifies this
      ensures Valid()
      ensures ProbeAccepted(outcome) ==>
        totalBytes == ParseTotal(outcome.contentRange.value).value && metadataLoaded &&
        loadedBytes == MetadataBytes &&
        r == (if old(isBuffering) || updating then None else NextRange(MetadataBytes, totalBytes))
      ensures !ProbeAccepted(outcome) ==> unchanged(this) && r.None?
    {
      r := None;
      if outcome.Reply? && outcome.status == 206 && outcome.contentRange.Some? {
        var total := ParseTotal(outcome.contentRange.value);
        if total.Some? {
          totalBytes := total.value;
          metadataLoaded := true;
          loadedBytes := MetadataBytes;
          r := LoadNextSegment(updating);
        }
      }
    }

    /** `onUpdateEnd`: always clears `isBuffering`; then, if the buffer is
        idle and the source open, fetches the next segment while bytes
        remain and ends the stream otherwise. The event follows an append,
        and appends happen only after a fetch completes, so no segment
        fetch is in flight when it fires. */
    method OnUpdateEnd(updating: bool, open: bool) returns (action: UpdateEndAction)
      requires Valid() && inFlight.None?
      modifies this
      ensures Valid()
      ensures totalBytes == old(totalBytes) && loadedBytes == old(loadedBytes) && metadataLoaded == old(metadataLoaded)
      ensures action.FetchNext? ==> isBuffering && Some(action.range) == NextRange(loadedBytes, totalBytes)
      ensures !action.FetchNext? ==> !isBuffering
      ensures action == (
        if updating || !open then NoAction
        else if loadedBytes < totalBytes then
          (if metadataLoaded then FetchNext(NextRange(loadedBytes, totalBytes).value) else NoAction)
        else EndOfStream)
    {
      isBuffering := false;
      action := NoAction;
      if !updating && open {
        if loadedBytes < totalBytes {
          var r := LoadNextSegment(updating);
          if r.Some? {
            action := FetchNext(r.value);
          }
        } else {
          action := EndOfStream;
        }
      }
    }

    /** `checkBuffer`: with at least one buffered range, less than ten
        seconds buffered ahead and no fetch under way, load the next
        segment. `bufferedEnds` are the ends of the buffered ranges. */
    method CheckBuffer(bufferedEnds: seq<real>, currentTime: real, updating: bool) returns (r: Option<SegmentRange>)
      requires Valid()
      modifies this
      ensures Valid()
      ensures r.Some? ==> |bufferedEnds| > 0 && bufferedEnds[|bufferedEnds| - 1] - currentTime < 10.0 && !old(isBuffering)
      ensures r.Some? ==> r == NextRange(loadedBytes, totalBytes) && isBuffering
      ensures r.None? ==> unchanged(this)
      ensures (|bufferedEnds| > 0 && bufferedEnds[|bufferedEnds| - 1] - currentTime < 10.0 && !old(isBuffering) &&
               metadataLoaded && !updating && loadedBytes < totalBytes) ==> r.Some?
    {
      r := None;
      if |bufferedEnds| == 0 {
        return;
      }
      var bufferedEnd := bufferedEnds[|bufferedEnds| - 1];
      if bufferedEnd - currentTime < 10.0 && !isBuffering {
        r := LoadNextSegment(updating);
      }
    }
  }

  /** A file no longer than the probe is finished after the metadata: no
      segment is asked for, and the next idle update ends the stream. */
  lemma SmallFileEndsAfterMetadata(total: int)
    requires total <= MetadataBytes
    ensures NextRange(MetadataBytes, total).None?
    ensures Schedule(MetadataBytes, total) == []
  {
  }

  // ---------------------------------------------------------------------
  // The metadata probe as written: a total that does not parse.

  /** A JavaScript number as far as the probe needs it: an integer or NaN. */
  datatype JsNumber = Finite(n: int) | NaN

  /** `parseInt(contentRange.split('/')[1])`, NaN included. */
  function TotalAsWritten(contentRange: string): JsNumber
  {
    match ParseTotal(contentRange)
    case None => NaN
    case Some(n) => Finite(n)
  }

  /** The as-written range computation with NaN arithmetic: every
      comparison with NaN is false and `Math.min` of NaN is NaN. The
      result is the start and the end (possibly NaN) of the request, or
      nothing when `segmentStart >= totalBytes`. */
  function NextRangeAsWritten(loaded: int, total: JsNumber): Option<(int, JsNumber)>
  {
    match total
    case NaN => Some((loaded, NaN))
    case Finite(t) =>
      if loaded >= t then None
      else Some((loaded, Finite(if loaded + ChunkSize - 1 < t - 1 then loaded + ChunkSize - 1 else t - 1)))
  }

  /** The probe as written accepts any 206 reply that has a Content-Range
      header, whether or not its total parses. */
  predicate ProbeAcceptedAsWritten(outcome: FetchOutcome)
  {
    outcome.Reply? && outcome.status == 206 && outcome.contentRange.Some?
  }

  /** With the unknown-length form (a "*" after the slash) of section 4.2 of
      RFC 7233, the probe as written accepts the reply with a NaN total and
      marks the metadata loaded; the next request then has the end "NaN",
      and `loadedBytes = NaN + 1` makes the loop stop with `loadedBytes <
      totalBytes` false. The corrected player refuses the reply. */
  lemma UnknownLengthAsWritten(start: nat, end: nat)
    ensures var reply := Reply(206, Some(RangePrefix(start, end) + "/*"));
      && ProbeAcceptedAsWritten(reply)
      && TotalAsWritten(reply.contentRange.value) == NaN
      && NextRangeAsWritten(MetadataBytes, NaN) == Some((MetadataBytes, NaN))
      && !ProbeAccepted(reply)
  {
    SlashPiece(RangePrefix(start, end), "*");
    assert JsParseInt("*").None? by {
      assert LeadingJsSpaces("*") == 0;
      assert "*"[0..] == "*";
    }
  }
}
