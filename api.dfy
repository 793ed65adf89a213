/** The request shaping of the two HTTP endpoints (backend/main.py): the
    download file name, the URL whitelist and the `merge:` routing, the
    header maps, the mapping of upstream outcomes to replies, and the
    keyword classification of extraction errors. The network, yt-dlp and
    the ffmpeg pipeline are outside: their results arrive as parameters. */
module Api {
  import opened Text
  import opened Models
  import opened Downloader

  /* ---------------------------------------------------------------------
     Replies
     --------------------------------------------------------------------- */

  /** `ErrorResponse(error=…, error_type=…)`; its `success` field is always false. */
  datatype ErrorBody = ErrorBody(error: string, errorType: string)

  datatype Reply =
    /** The query parameters failed FastAPI's validation: 422 before the handler runs. */
    | Rejected
    | JsonError(status: int, body: ErrorBody)
    /** The bare `{"error": …}` body `stream_ffmpeg_merge` answers with. */
    | BareError(status: int, error: string)
    | Stream(status: int, headers: map<string, string>, mediaType: string)
    /** Handed to the ffmpeg merge pipeline, which is not part of this model. */
    | MergeStream(page: string, videoId: string, audioId: string, filename: string)

  const InvalidUrlReply := JsonError(400, ErrorBody("Invalid download URL.", "invalid_url"))
  const InvalidMergeReply := JsonError(400, ErrorBody("Invalid merge URL format.", "invalid_url"))
  const InvalidIdsReply := BareError(400, "Invalid format IDs")
  const ExpiredReply :=
    JsonError(502, ErrorBody("Failed to fetch file from source. The link may have expired.", "upstream_error"))
  const TimeoutReply :=
    JsonError(504, ErrorBody("Download timed out. The source server is not responding.", "timeout"))
  const ConnectReply := JsonError(502, ErrorBody("Failed to connect to the download source.", "upstream_error"))
  const ServerErrorReply :=
    JsonError(500, ErrorBody("An unexpected error occurred during download.", "server_error"))

  /* ---------------------------------------------------------------------
     Download file name
     --------------------------------------------------------------------- */

  /** The characters of the class `[<>:"/\\|?*\x00-\x1f]`. */
  predicate UnsafeChar(c: char) {
    c == '<' || c == '>' || c == ':' || c == '"' || c == '/' || c == '\\'
    || c == '|' || c == '?' || c == '*' || c <= '\U{1F}'
  }

  /** `re.sub(<that class>, "_", s)` */
  function ReplaceUnsafe(s: string): (r: string)
    ensures |r| == |s|
    ensures forall k :: 0 <= k < |s| ==> r[k] == (if UnsafeChar(s[k]) then '_' else s[k])
  {
    seq(|s|, k requires 0 <= k < |s| => if UnsafeChar(s[k]) then '_' else s[k])
  }

  /** The characters `strip(". ")` removes. */
  predicate DotOrSpace(c: char) { c == '.' || c == ' ' }

  const MaxFilenameLength := 200
  const FallbackFilename := "download"

  function SanitizeFilename(name: string): string {
    var stripped := StripBy(ReplaceUnsafe(name), DotOrSpace);
    var named := if stripped == "" then FallbackFilename else stripped;
    if |named| > MaxFilenameLength then named[..MaxFilenameLength] else named
  }

  lemma SliceIsSafe(s: string, t: string)
    requires Contains(s, t) && forall k :: 0 <= k < |s| ==> !UnsafeChar(s[k])
    ensures forall k :: 0 <= k < |t| ==> !UnsafeChar(t[k])
  {
    var i :| 0 <= i <= |s| - |t| && StartsWith(s[i..], t);
    forall k | 0 <= k < |t| ensures !UnsafeChar(t[k]) {
      assert t[k] == s[i..][..|t|][k] == s[i + k];
    }
  }

  /** Whatever the input, the name is usable: no unsafe character, between
      1 and 200 characters, and neither a dot nor a space in front. */
  lemma SanitizedIsSafe(name: string)
    ensures var r := SanitizeFilename(name);
      1 <= |r| <= MaxFilenameLength
      && (forall k :: 0 <= k < |r| ==> !UnsafeChar(r[k]))
      && !DotOrSpace(r[0])
  {
    var replaced := ReplaceUnsafe(name);
    var stripped := StripBy(replaced, DotOrSpace);
    SliceIsSafe(replaced, stripped);
    var named := if stripped == "" then FallbackFilename else stripped;
    assert forall k :: 0 <= k < |named| ==> !UnsafeChar(named[k]);
    assert !DotOrSpace(named[0]);
    var r := if |named| > MaxFilenameLength then named[..MaxFilenameLength] else named;
    assert r == SanitizeFilename(name);
    assert r[0] == named[0];
    assert forall k :: 0 <= k < |r| ==> r[k] == named[k];
  }

  /** A name that is short enough and has neither dots nor spaces at its
      ends is kept character for character, except that each unsafe
      character becomes `_`. */
  lemma SanitizeReplacesEachUnsafe(name: string)
    requires 1 <= |name| <= MaxFilenameLength
    requires !DotOrSpace(name[0]) && !DotOrSpace(name[|name| - 1])
    ensures var r := SanitizeFilename(name);
      |r| == |name| && forall k :: 0 <= k < |name| ==> r[k] == (if UnsafeChar(name[k]) then '_' else name[k])
  {
    var replaced := ReplaceUnsafe(name);
    assert !DotOrSpace(replaced[0]) && !DotOrSpace(replaced[|replaced| - 1]);
    StripByUntouched(replaced, DotOrSpace);
  }

  /** A sanitised name shorter than the limit was not cut, so it ends as
      the stripped name or the fallback does. */
  lemma UncutNameEnd(name: string)
    requires |SanitizeFilename(name)| < MaxFilenameLength
    ensures var r := SanitizeFilename(name); r != [] && !DotOrSpace(r[|r| - 1])
  {
    var stripped := StripBy(ReplaceUnsafe(name), DotOrSpace);
    assert SanitizeFilename(name) == FallbackFilename || SanitizeFilename(name) == stripped;
  }

  /** Sanitising a sanitised name changes nothing, unless the cut at 200
      characters left a dot or a space at its end. */
  lemma SanitizeIdempotent(name: string)
    requires var r := SanitizeFilename(name); |r| < MaxFilenameLength || !DotOrSpace(r[|r| - 1])
    ensures SanitizeFilename(SanitizeFilename(name)) == SanitizeFilename(name)
  {
    var r := SanitizeFilename(name);
    SanitizedIsSafe(name);
    if |r| < MaxFilenameLength {
      UncutNameEnd(name);
    }
    SanitizeReplacesEachUnsafe(r);
    var rr := SanitizeFilename(r);
    assert forall k :: 0 <= k < |r| ==> rr[k] == r[k];
  }

  const LongName := seq(199, _ => 'a') + ".b"
  const LongNameCut := seq(199, _ => 'a') + "."

  lemma LongNameIsCut()
    ensures |LongName| <= MaxFilenameParamLength
    ensures SanitizeFilename(LongName) == LongNameCut
  {
    var name := LongName;
    assert ReplaceUnsafe(name) == name;
    StripByUntouched(name, DotOrSpace);
    assert name[..MaxFilenameLength] == LongNameCut;
  }

  /** The cut at 200 characters happens after stripping, so it can leave a
      trailing dot, which a second pass would then strip. */
  lemma TruncationLeavesTrailingDot()
    ensures |LongName| <= MaxFilenameParamLength
    ensures SanitizeFilename(LongName) == LongNameCut
    ensures LongNameCut[|LongNameCut| - 1] == '.'
    ensures SanitizeFilename(SanitizeFilename(LongName)) != SanitizeFilename(LongName)
  {
    LongNameIsCut();
    var cut := LongNameCut;
    assert ReplaceUnsafe(cut) == cut;
    assert TrailingCount(cut, DotOrSpace) >= 1;
    assert |StripBy(cut, DotOrSpace)| < |cut|;
  }

  /** `f"{safe_filename}.{ext}"`, the extension taken verbatim. */
  function DownloadFilename(filename: string, ext: string): string {
    SanitizeFilename(filename) + "." + ext
  }

  /** With an extension free of unsafe characters, the whole download name
      is free of them and does not start with a dot or a space. */
  lemma DownloadFilenameIsSafe(filename: string, ext: string)
    requires forall k :: 0 <= k < |ext| ==> !UnsafeChar(ext[k])
    ensures var full := DownloadFilename(filename, ext);
      StartsWith(full, SanitizeFilename(filename) + ".")
      && (forall k :: 0 <= k < |full| ==> !UnsafeChar(full[k]))
      && !DotOrSpace(full[0])
  {
    SanitizedIsSafe(filename);
    var safe := SanitizeFilename(filename);
    var full := DownloadFilename(filename, ext);
    forall k | 0 <= k < |full| ensures !UnsafeChar(full[k]) {
      if k < |safe| {
        assert full[k] == safe[k];
      } else if k > |safe| {
        assert full[k] == ext[k - |safe| - 1];
      }
    }
  }

  /* ---------------------------------------------------------------------
     Percent-encoding (section 2.1 of RFC 3986) and UTF-8
     --------------------------------------------------------------------- */

  type Byte = b: int | 0 <= b < 256

  /** The UTF-8 encoding of one scalar value (section 3 of RFC 3629). */
  function Utf8(c: char): (r: seq<Byte>)
    ensures 1 <= |r| <= 4
    ensures (|r| == 1) <==> c as int < 0x80
    ensures |r| > 1 ==> forall k :: 0 <= k < |r| ==> r[k] >= 0x80
  {
    var n := c as int;
    if n < 0x80 then [n]
    else if n < 0x800 then [0xC0 + n / 64, 0x80 + n % 64]
    else if n < 0x10000 then [0xE0 + n / 4096, 0x80 + (n / 64) % 64, 0x80 + n % 64]
    else [0xF0 + n / 262144, 0x80 + (n / 4096) % 64, 0x80 + (n / 64) % 64, 0x80 + n % 64]
  }

  function Utf8Encode(s: string): seq<Byte> {
    if s == "" then [] else Utf8(s[0]) + Utf8Encode(s[1..])
  }

  predicate IsHexDigit(c: char) { IsDigit(c) || ('A' <= c <= 'F') || ('a' <= c <= 'f') }

  /** Upper-case hexadecimal digit, as `quote` writes them. */
  function HexDigit(d: int): (c: char)
    requires 0 <= d < 16
    ensures IsHexDigit(c) && c != '%'
  {
    if d < 10 then ('0' as int + d) as char else ('A' as int + d - 10) as char
  }

  function HexValue(c: char): int {
    if IsDigit(c) then c as int - '0' as int
    else if 'A' <= c <= 'F' then c as int - 'A' as int + 10
    else if 'a' <= c <= 'f' then c as int - 'a' as int + 10
    else 0
  }

  /** `%XX` for each byte. */
  function PercentEncode(bytes: seq<Byte>): string {
    if bytes == [] then "" else ['%', HexDigit(bytes[0] / 16), HexDigit(bytes[0] % 16)] + PercentEncode(bytes[1..])
  }

  /** The characters `urllib.parse.quote` leaves alone with its default
      `safe='/'`. */
  predicate QuoteSafe(c: char) {
    IsAsciiLower(c) || IsAsciiUpper(c) || IsDigit(c) || c == '_' || c == '.' || c == '-' || c == '~' || c == '/'
  }

  /** `urllib.parse.quote(s)`: every character outside the safe set is
      replaced by the percent-escapes of its UTF-8 bytes. */
  function Quote(s: string): string {
    if s == "" then ""
    else (if QuoteSafe(s[0]) then [s[0]] else PercentEncode(Utf8(s[0]))) + Quote(s[1..])
  }

  /** Percent-decoding to bytes: an escape stands for its byte, any other
      character for its UTF-8 bytes. */
  function PercentDecode(t: string): seq<Byte>
    decreases |t|
  {
    if t == "" then []
    else if |t| >= 3 && t[0] == '%' && IsHexDigit(t[1]) && IsHexDigit(t[2]) then
      [HexValue(t[1]) * 16 + HexValue(t[2])] + PercentDecode(t[3..])
    else Utf8(t[0]) + PercentDecode(t[1..])
  }

  lemma HexRoundTrip(b: Byte)
    ensures HexValue(HexDigit(b / 16)) * 16 + HexValue(HexDigit(b % 16)) == b
  {
  }

  /** One escape decodes to its byte. */
  lemma DecodeOneEscape(b: Byte, tail: string)
    ensures PercentDecode(['%', HexDigit(b / 16), HexDigit(b % 16)] + tail) == [b] + PercentDecode(tail)
  {
    var t := ['%', HexDigit(b / 16), HexDigit(b % 16)] + tail;
    assert t[0] == '%' && t[1] == HexDigit(b / 16) && t[2] == HexDigit(b % 16);
    assert t[3..] == tail;
    HexRoundTrip(b);
  }

  lemma {:induction false} DecodeEscapes(bytes: seq<Byte>, rest: string)
    ensures PercentDecode(PercentEncode(bytes) + rest) == bytes + PercentDecode(rest)
    decreases |bytes|
  {
    if bytes != [] {
      var head := ['%', HexDigit(bytes[0] / 16), HexDigit(bytes[0] % 16)];
      var tail := PercentEncode(bytes[1..]) + rest;
      assert PercentEncode(bytes) + rest == head + tail;
      DecodeOneEscape(bytes[0], tail);
      DecodeEscapes(bytes[1..], rest);
      assert bytes == [bytes[0]] + bytes[1..];
    } else {
      assert PercentEncode(bytes) + rest == rest;
    }
  }

  /** Decoding what `quote` produced gives back the UTF-8 bytes of the
      original text. */
  lemma {:induction false} QuoteRoundTrip(s: string)
    ensures PercentDecode(Quote(s)) == Utf8Encode(s)
    decreases |s|
  {
    if s != "" {
      QuoteRoundTrip(s[1..]);
      if QuoteSafe(s[0]) {
        var t := [s[0]] + Quote(s[1..]);
        assert t[1..] == Quote(s[1..]);
      } else {
        DecodeEscapes(Utf8(s[0]), Quote(s[1..]));
      }
    }
  }

  /** An `attr-char` of section 3.2.1 of RFC 5987. */
  predicate AttrChar(c: char) {
    IsAsciiLower(c) || IsAsciiUpper(c) || IsDigit(c)
    || c == '!' || c == '#' || c == '$' || c == '&' || c == '+' || c == '-' || c == '.'
    || c == '^' || c == '_' || c == '`' || c == '|' || c == '~'
  }

  /** The `value-chars` production of section 3.2.1 of RFC 5987: attribute
      characters and `%` escapes. */
  predicate ValueChars(t: string)
    decreases |t|
  {
    t == ""
    || (AttrChar(t[0]) && ValueChars(t[1..]))
    || (|t| >= 3 && t[0] == '%' && IsHexDigit(t[1]) && IsHexDigit(t[2]) && ValueChars(t[3..]))
  }

  lemma {:induction false} ValueCharsConcat(a: string, b: string)
    requires ValueChars(a) && ValueChars(b)
    ensures ValueChars(a + b)
    decreases |a|
  {
    if a == "" {
      assert a + b == b;
    } else if AttrChar(a[0]) && ValueChars(a[1..]) {
      ValueCharsConcat(a[1..], b);
      assert (a + b)[1..] == a[1..] + b;
    } else {
      ValueCharsConcat(a[3..], b);
      assert (a + b)[3..] == a[3..] + b;
    }
  }

  lemma {:induction false} EscapesAreValueChars(bytes: seq<Byte>)
    ensures ValueChars(PercentEncode(bytes))
    decreases |bytes|
  {
    if bytes != [] {
      EscapesAreValueChars(bytes[1..]);
      var t := PercentEncode(bytes);
      assert t[3..] == PercentEncode(bytes[1..]);
    }
  }

  /** Without a `/` (which `quote` keeps but RFC 5987 does not allow), the
      quoted text is a valid `value-chars` string. */
  lemma {:induction false} QuoteIsValueChars(s: string)
    requires '/' !in s
    ensures ValueChars(Quote(s))
    decreases |s|
  {
    if s != "" {
      assert '/' !in s[1..];
      QuoteIsValueChars(s[1..]);
      if QuoteSafe(s[0]) {
        assert ValueChars([s[0]]) by { assert [s[0]][1..] == ""; }
        ValueCharsConcat([s[0]], Quote(s[1..]));
      } else {
        EscapesAreValueChars(Utf8(s[0]));
        ValueCharsConcat(PercentEncode(Utf8(s[0])), Quote(s[1..]));
      }
    }
  }

  /* ---------------------------------------------------------------------
     The download query and the URL whitelist
     --------------------------------------------------------------------- */

  const MinDownloadUrlLength := 5
  const MaxDownloadUrlLength := 4096
  const MaxFilenameParamLength := 250
  const MaxExtParamLength := 10

  /** The query string of `GET /api/download`; an absent parameter takes its default. */
  datatype DownloadQuery = DownloadQuery(url: string, filename: Option<string>, ext: Option<string>)

  function FilenameParam(q: DownloadQuery): string {
    if q.filename.Some? then q.filename.value else "video"
  }

  function ExtParam(q: DownloadQuery): string {
    if q.ext.Some? then q.ext.value else "mp4"
  }

  /** The `Query(min_length=…, max_length=…)` constraints. */
  predicate QueryValid(q: DownloadQuery) {
    MinDownloadUrlLength <= |q.url| <= MaxDownloadUrlLength
    && |FilenameParam(q)| <= MaxFilenameParamLength
    && |ExtParam(q)| <= MaxExtParamLength
  }

  const MergePrefix := "merge:"

  /** `re.match(r"^(https?://|merge:)", decoded, re.IGNORECASE)` */
  predicate AllowedScheme(decoded: string) {
    StartsWithIgnoreCase(decoded, "http://") || StartsWithIgnoreCase(decoded, "https://")
    || StartsWithIgnoreCase(decoded, MergePrefix)
  }

  lemma CaseSensitivePrefixMatches(s: string, p: string)
    requires StartsWith(s, p)
    ensures StartsWithIgnoreCase(s, p)
  {
    forall k | 0 <= k < |p| ensures IgnoreCaseEq(s[k], p[k]) {
      assert s[..|p|][k] == p[k];
    }
  }

  /* ---------------------------------------------------------------------
     Header maps
     --------------------------------------------------------------------- */

  /** Python truthiness of a header value: present and non-empty. */
  predicate Supplied(v: Option<string>) { v.Some? && v.value != "" }

  const BrowserUserAgent :=
    "Mozilla/5.0 (Windows NT 10.0; Win64; x64) AppleWebKit/537.36 (KHTML, like Gecko) Chrome/125.0.0.0 Safari/537.36"

  /** The headers of the upstream request, given the client's `Range` header. */
  function UpstreamHeaderMap(range: Option<string>): map<string, string> {
    var fixed := map["User-Agent" := BrowserUserAgent, "Accept" := "*/*", "Accept-Encoding" := "identity"];
    if Supplied(range) then fixed["Range" := range.value] else fixed
  }

  /** `Range` is forwarded byte for byte exactly when the client sent a
      non-empty one; the other three headers are always the same. */
  lemma RangeForwarded(range: Option<string>)
    ensures var h := UpstreamHeaderMap(range);
      ("Range" in h <==> Supplied(range))
      && (Supplied(range) ==> h["Range"] == range.value)
      && h.Keys == {"User-Agent", "Accept", "Accept-Encoding"} + (if Supplied(range) then {"Range"} else {})
      && h["User-Agent"] == BrowserUserAgent && h["Accept"] == "*/*" && h["Accept-Encoding"] == "identity"
  {
  }

  /** The dictionary literal followed by the conditional insertion. */
  method BuildUpstreamHeaders(range: Option<string>) returns (headers: map<string, string>)
    ensures headers == UpstreamHeaderMap(range)
  {
    headers := map[];
    headers := headers["User-Agent" := BrowserUserAgent];
    headers := headers["Accept" := "*/*"];
    headers := headers["Accept-Encoding" := "identity"];
    if range.Some? && range.value != "" {
      headers := headers["Range" := range.value];
    }
  }

  const DispositionPrefix := "attachment; filename*=utf-8''"
  const ExposedHeaders := "Content-Disposition, Content-Length, Content-Range, Accept-Ranges"

  /** `Content-Disposition` per section 4.3 of RFC 6266, the name written
      as an RFC 5987 extended value. */
  function ContentDisposition(filename: string): string {
    DispositionPrefix + Quote(filename)
  }

  /** The headers of the streamed reply, given the upstream's
      `content-length` and `content-range`. */
  function ResponseHeaderMap(filename: string, contentLength: Option<string>, contentRange: Option<string>)
    : map<string, string>
  {
    var fixed := map["Content-Disposition" := ContentDisposition(filename), "Accept-Ranges" := "bytes",
                     "Access-Control-Expose-Headers" := ExposedHeaders];
    var withLength := if Supplied(contentLength) then fixed["Content-Length" := contentLength.value] else fixed;
    if Supplied(contentRange) then withLength["Content-Range" := contentRange.value] else withLength
  }

  /** `Content-Length` and `Content-Range` are copied exactly when the
      upstream supplied them; nothing else is taken from the upstream. */
  lemma ContentHeadersCopied(filename: string, contentLength: Option<string>, contentRange: Option<string>)
    ensures var h := ResponseHeaderMap(filename, contentLength, contentRange);
      ("Content-Length" in h <==> Supplied(contentLength))
      && (Supplied(contentLength) ==> h["Content-Length"] == contentLength.value)
      && ("Content-Range" in h <==> Supplied(contentRange))
      && (Supplied(contentRange) ==> h["Content-Range"] == contentRange.value)
      && h.Keys - {"Content-Length", "Content-Range"}
         == {"Content-Disposition", "Accept-Ranges", "Access-Control-Expose-Headers"}
      && h["Content-Disposition"] == ContentDisposition(filename)
      && h["Accept-Ranges"] == "bytes" && h["Access-Control-Expose-Headers"] == ExposedHeaders
  {
  }

  /** The dictionary literal followed by the two conditional insertions. */
  method BuildResponseHeaders(filename: string, contentLength: Option<string>, contentRange: Option<string>)
    returns (headers: map<string, string>)
    ensures headers == ResponseHeaderMap(filename, contentLength, contentRange)
  {
    headers := map[];
    headers := headers["Content-Disposition" := DispositionPrefix + Quote(filename)];
    headers := headers["Accept-Ranges" := "bytes"];
    headers := headers["Access-Control-Expose-Headers" := ExposedHeaders];
    if contentLength.Some? && contentLength.value != "" {
      headers := headers["Content-Length" := contentLength.value];
    }
    if contentRange.Some? && contentRange.value != "" {
      headers := headers["Content-Range" := contentRange.value];
    }
  }

  /** The `Content-Disposition` of a download is a well-formed extended
      value that decodes to exactly the UTF-8 bytes of the download name,
      provided the extension holds no `/`. */
  lemma DispositionNamesFile(filename: string, ext: string)
    requires '/' !in ext
    ensures var full := DownloadFilename(filename, ext);
      var v := ContentDisposition(full);
      StartsWith(v, DispositionPrefix)
      && ValueChars(v[|DispositionPrefix|..])
      && PercentDecode(v[|DispositionPrefix|..]) == Utf8Encode(full)
  {
    var full := DownloadFilename(filename, ext);
    var v := ContentDisposition(full);
    SanitizedIsSafe(filename);
    var safe := SanitizeFilename(filename);
    forall k | 0 <= k < |full| ensures full[k] != '/' {
      if k < |safe| {
        assert full[k] == safe[k];
      } else if k > |safe| {
        assert full[k] == ext[k - |safe| - 1];
      }
    }
    assert v[|DispositionPrefix|..] == Quote(full);
    QuoteIsValueChars(full);
    QuoteRoundTrip(full);
  }

  /* ---------------------------------------------------------------------
     Upstream outcomes
     --------------------------------------------------------------------- */

  /** How the upstream fetch ended. `httpx.TimeoutException` is a kind of
      `httpx.HTTPError` caught before it, so `HttpFailure` is any other
      HTTP error; `OtherFailure` is any other exception. */
  datatype Upstream =
    | Responded(status: int, contentLength: Option<string>, contentRange: Option<string>,
                contentType: Option<string>)
    | TimedOut
    | HttpFailure
    | OtherFailure

  const DefaultMediaType := "application/octet-stream"

  function UpstreamReply(upstream: Upstream, filename: string): Reply {
    match upstream
    case Responded(status, contentLength, contentRange, contentType) =>
      if status >= 400 then ExpiredReply
      else Stream(status, ResponseHeaderMap(filename, contentLength, contentRange),
                  if contentType.Some? then contentType.value else DefaultMediaType)
    case TimedOut => TimeoutReply
    case HttpFailure => ConnectReply
    case OtherFailure => ServerErrorReply
  }

  /** Each upstream outcome lands on its own status: a stream with the
      upstream's status below 400, 502 `upstream_error` for an error status
      or an HTTP failure, 504 `timeout`, and 500 `server_error`. */
  lemma UpstreamStatusMapping(upstream: Upstream, filename: string)
    ensures var r := UpstreamReply(upstream, filename);
      (r.Stream? <==> upstream.Responded? && upstream.status < 400)
      && (r.Stream? ==> r.status == upstream.status
                        && r.headers == ResponseHeaderMap(filename, upstream.contentLength, upstream.contentRange)
                        && (upstream.contentType.Some? ==> r.mediaType == upstream.contentType.value)
                        && (upstream.contentType.None? ==> r.mediaType == DefaultMediaType))
      && (r.JsonError? <==> !r.Stream?)
      && (r.JsonError? && r.status == 502 <==> upstream.HttpFailure? || (upstream.Responded? && upstream.status >= 400))
      && (r.JsonError? && r.status == 504 <==> upstream.TimedOut?)
      && (r.JsonError? && r.status == 500 <==> upstream.OtherFailure?)
      && (r.JsonError? ==> (r.body.errorType == "upstream_error" <==> r.status == 502)
                           && (r.body.errorType == "timeout" <==> r.status == 504)
                           && (r.body.errorType == "server_error" <==> r.status == 500))
  {
  }

  /* ---------------------------------------------------------------------
     Merge URLs: "merge:" VIDEO_ID "+" AUDIO_ID ":" PAGE_URL
     --------------------------------------------------------------------- */

  /** `vid_id, aud_id = format_ids.split("+")`: exactly two parts or 400. */
  function SplitMergeIds(ids: string, page: string, filename: string): Reply {
    var parts := Split(ids, '+');
    if |parts| != 2 then InvalidIdsReply else MergeStream(page, parts[0], parts[1], filename)
  }

  /** `decoded_url[6:].split(":", 1)`: the IDs before the first colon, the
      page URL (colons and all) after it. */
  function RouteMerge(rest: string, filename: string): Reply {
    match IndexOf(rest, ':')
    case None => InvalidMergeReply
    case Some(i) => SplitMergeIds(rest[..i], rest[i + 1..], filename)
  }

  /** An ID usable inside a merge URL. */
  predicate PlainId(id: string) { ':' !in id && '+' !in id }

  lemma FirstColon(ids: string, page: string)
    requires ':' !in ids
    ensures var rest := ids + [':'] + page;
      IndexOf(rest, ':') == Some(|ids|) && rest[..|ids|] == ids && rest[|ids| + 1..] == page
  {
    var rest := ids + [':'] + page;
    assert rest[..|ids|] == ids;
    assert rest[|ids| + 1..] == page;
    assert rest[|ids|] == ':';
    assert forall k :: 0 <= k < |ids| ==> rest[k] == ids[k] != ':';
    assert forall j :: |ids| < j <= |rest| ==> rest[..j][|ids|] == ':';
  }

  lemma SplitIds(videoId: string, audioId: string)
    requires '+' !in videoId && '+' !in audioId
    ensures Split(videoId + "+" + audioId, '+') == [videoId, audioId]
  {
    SplitCons(videoId, audioId, '+');
    SplitNone(audioId, '+');
  }

  /** Parsing what the downloader wrote gives back its two IDs and its page
      URL, even when the page URL contains colons. */
  lemma MergeRoundTrip(videoId: string, audioId: string, page: string, filename: string)
    requires PlainId(videoId) && PlainId(audioId)
    ensures StartsWith(MergeUrl(videoId, audioId, page), MergePrefix)
    ensures RouteMerge(MergeUrl(videoId, audioId, page)[|MergePrefix|..], filename)
            == MergeStream(page, videoId, audioId, filename)
  {
    var ids := videoId + "+" + audioId;
    var rest := ids + [':'] + page;
    var url := MergeUrl(videoId, audioId, page);
    assert url == MergePrefix + rest;
    assert url[|MergePrefix|..] == rest;
    assert ':' !in ids;
    FirstColon(ids, page);
    SplitIds(videoId, audioId);
    assert RouteMerge(rest, filename) == SplitMergeIds(ids, page, filename);
  }

  /** Two `+`-separated parts: the text is the two joined by `+`. */
  lemma SplitInTwo(ids: string)
    requires |Split(ids, '+')| == 2
    ensures var parts := Split(ids, '+');
      ids == parts[0] + "+" + parts[1] && '+' !in parts[0] && '+' !in parts[1]
  {
    var parts := Split(ids, '+');
    JoinSplit(ids, '+');
    assert parts[1..] == [parts[1]];
    assert Join(parts, '+') == parts[0] + ['+'] + parts[1];
  }

  lemma CharsOfJoin(a: string, b: string, c: char)
    requires c !in a + "+" + b
    ensures c !in a && c !in b
  {
    var s := a + "+" + b;
    forall k | 0 <= k < |a| ensures a[k] != c { assert s[k] == a[k]; }
    forall k | 0 <= k < |b| ensures b[k] != c { assert s[|a| + 1 + k] == b[k]; }
  }

  /** The merge route fails with "Invalid merge URL format." exactly when
      there is no colon, and with "Invalid format IDs" exactly when the text
      before the first colon does not hold exactly one `+`; otherwise it
      merges. */
  lemma RouteMergeOutcomes(rest: string, filename: string)
    ensures var r := RouteMerge(rest, filename);
      (r == InvalidMergeReply <==> ':' !in rest)
      && (r == InvalidIdsReply <==> ':' in rest && Count(rest[..IndexOf(rest, ':').value], '+') != 1)
      && (r == InvalidMergeReply || r == InvalidIdsReply || r.MergeStream?)
  {
    if ':' in rest {
      var i := IndexOf(rest, ':').value;
      SplitCount(rest[..i], '+');
    }
  }

  /** A merge reply names exactly the parts of a well-formed merge URL. */
  lemma RouteMergeShape(rest: string, filename: string)
    ensures var r := RouteMerge(rest, filename);
      r.MergeStream? ==>
        PlainId(r.videoId) && PlainId(r.audioId) && r.filename == filename
        && rest == r.videoId + "+" + r.audioId + ":" + r.page
  {
    if ':' in rest {
      var i := IndexOf(rest, ':').value;
      var ids := rest[..i];
      var parts := Split(ids, '+');
      if |parts| == 2 {
        SplitInTwo(ids);
        CharsOfJoin(parts[0], parts[1], ':');
        assert rest == ids + ":" + rest[i + 1..];
      }
    }
  }

  /* ---------------------------------------------------------------------
     GET /api/download
     --------------------------------------------------------------------- */

  /** The request sent upstream. */
  datatype Fetch = Fetch(url: string, headers: map<string, string>)

  datatype Handled = Handled(reply: Reply, fetch: Option<Fetch>)

  /** The part of the handler before any fetch: validation, the whitelist,
      the file name and the merge routing. */
  datatype Route = Answered(reply: Reply) | Proxied(url: string, filename: string)

  /** `unquote` stands for `urllib.parse.unquote`. */
  function RouteDownload(q: DownloadQuery, unquote: string -> string): Route {
    if !QueryValid(q) then Answered(Rejected)
    else
      var decoded := unquote(q.url);
      if !AllowedScheme(decoded) then Answered(InvalidUrlReply)
      else
        var filename := DownloadFilename(FilenameParam(q), ExtParam(q));
        if StartsWith(decoded, MergePrefix) then Answered(RouteMerge(decoded[|MergePrefix|..], filename))
        else Proxied(decoded, filename)
  }

  /** The handler as written: on the proxy path `client.is_closed` reads a
      local variable before its assignment, the `UnboundLocalError` falls
      into the generic handler, and nothing is fetched. */
  function DownloadProxyAsWritten(q: DownloadQuery, range: Option<string>, unquote: string -> string,
                                  upstream: Upstream): Handled
  {
    match RouteDownload(q, unquote)
    case Answered(reply) => Handled(reply, None)
    case Proxied(_, _) => Handled(ServerErrorReply, None)
  }

  /** The handler as intended: the proxy path fetches the decoded URL with
      the upstream headers, and the upstream outcome decides the reply. */
  function DownloadProxy(q: DownloadQuery, range: Option<string>, unquote: string -> string,
                         upstream: Upstream): Handled
  {
    match RouteDownload(q, unquote)
    case Answered(reply) => Handled(reply, None)
    case Proxied(url, filename) => Handled(UpstreamReply(upstream, filename), Some(Fetch(url, UpstreamHeaderMap(range))))
  }

  /** As written, no download is ever proxied: every request the
      whitelist admits that is not a merge answers 500. */
  lemma ProxyAsWrittenNeverFetches(q: DownloadQuery, range: Option<string>, unquote: string -> string,
                                   upstream: Upstream)
    ensures var h := DownloadProxyAsWritten(q, range, unquote, upstream);
      h.fetch.None? && !h.reply.Stream?
      && (QueryValid(q) && AllowedScheme(unquote(q.url)) && !StartsWith(unquote(q.url), MergePrefix)
          ==> h.reply == ServerErrorReply)
  {
    if StartsWith(unquote(q.url), MergePrefix) {
      RouteMergeOutcomes(unquote(q.url)[|MergePrefix|..], DownloadFilename(FilenameParam(q), ExtParam(q)));
    }
  }

  /** A query outside the parameter limits is refused before anything else. */
  lemma DownloadRejectsBadQuery(q: DownloadQuery, range: Option<string>, unquote: string -> string,
                                upstream: Upstream)
    ensures DownloadProxy(q, range, unquote, upstream).reply == Rejected <==> !QueryValid(q)
  {
    if QueryValid(q) && StartsWith(unquote(q.url), MergePrefix) {
      RouteMergeOutcomes(unquote(q.url)[|MergePrefix|..], DownloadFilename(FilenameParam(q), ExtParam(q)));
    }
  }

  /** A valid query is answered 400 `invalid_url` exactly when its decoded
      URL fails the whitelist, and then nothing is fetched. */
  lemma DownloadWhitelist(q: DownloadQuery, range: Option<string>, unquote: string -> string,
                          upstream: Upstream)
    ensures var h := DownloadProxy(q, range, unquote, upstream);
      (h.reply == InvalidUrlReply <==> QueryValid(q) && !AllowedScheme(unquote(q.url)))
      && (h.reply == InvalidUrlReply ==> h.fetch.None?)
  {
    if QueryValid(q) && StartsWith(unquote(q.url), MergePrefix) {
      RouteMergeOutcomes(unquote(q.url)[|MergePrefix|..], DownloadFilename(FilenameParam(q), ExtParam(q)));
    }
  }

  /** Something is fetched exactly for a valid, whitelisted, non-merge URL,
      and then it is the decoded URL with the upstream headers. */
  lemma DownloadFetches(q: DownloadQuery, range: Option<string>, unquote: string -> string,
                        upstream: Upstream)
    ensures var h := DownloadProxy(q, range, unquote, upstream);
      var decoded := unquote(q.url);
      (h.fetch.Some? <==> QueryValid(q) && AllowedScheme(decoded) && !StartsWith(decoded, MergePrefix))
      && (h.fetch.Some? ==>
            h.fetch.value == Fetch(decoded, UpstreamHeaderMap(range))
            && h.reply == UpstreamReply(upstream, DownloadFilename(FilenameParam(q), ExtParam(q))))
  {
  }

  /** Routing to the merge pipeline is case-sensitive, although the
      whitelist is not: "MERGE:" is whitelisted and then fetched like any
      other URL. */
  lemma MergeRoutingIsCaseSensitive(range: Option<string>, unquote: string -> string, upstream: Upstream)
    requires unquote("MERGE:1+2:x") == "MERGE:1+2:x"
    ensures DownloadProxy(DownloadQuery("MERGE:1+2:x", None, None), range, unquote, upstream).fetch
            == Some(Fetch("MERGE:1+2:x", UpstreamHeaderMap(range)))
  {
    var d := "MERGE:1+2:x";
    assert IgnoreCaseEq(d[0], 'm') && IgnoreCaseEq(d[1], 'e') && IgnoreCaseEq(d[2], 'r');
    assert IgnoreCaseEq(d[3], 'g') && IgnoreCaseEq(d[4], 'e') && IgnoreCaseEq(d[5], ':');
    assert StartsWithIgnoreCase(d, MergePrefix);
    assert d[..6] != MergePrefix by { assert d[0] != 'm'; }
  }

  /** The merged entry the downloader offers downloads as the merge of its
      two formats of its page, without any fetch. */
  lemma MergeEntryDownloads(q: DownloadQuery, range: Option<string>, unquote: string -> string,
                            upstream: Upstream, videoId: string, audioId: string, page: string)
    requires QueryValid(q) && unquote(q.url) == MergeUrl(videoId, audioId, page)
    requires PlainId(videoId) && PlainId(audioId)
    ensures DownloadProxy(q, range, unquote, upstream)
            == Handled(MergeStream(page, videoId, audioId, DownloadFilename(FilenameParam(q), ExtParam(q))), None)
  {
    var filename := DownloadFilename(FilenameParam(q), ExtParam(q));
    MergeRoundTrip(videoId, audioId, page, filename);
    CaseSensitivePrefixMatches(MergeUrl(videoId, audioId, page), MergePrefix);
  }

  /* ---------------------------------------------------------------------
     POST /api/info: error classification
     --------------------------------------------------------------------- */

  predicate IsAsciiLetter(c: char) { IsAsciiLower(c) || IsAsciiUpper(c) }

  /** `w` occurs at `i` with no letter right before or right after it. */
  predicate WordAt(s: string, w: string, i: int) {
    0 <= i <= |s| - |w| && StartsWith(s[i..], w)
    && (i == 0 || !IsAsciiLetter(s[i - 1]))
    && (i + |w| == |s| || !IsAsciiLetter(s[i + |w|]))
  }

  predicate ContainsWord(s: string, w: string) {
    exists i :: 0 <= i <= |s| - |w| && WordAt(s, w, i)
  }

  const DefaultErrorType := "extraction_error"

  /** The `if`/`elif` chain, given the outcome of each group of keyword
      tests in priority order. */
  function KeywordChain(privateVideo: bool, ageRestricted: bool, unsupportedSite: bool, unavailable: bool,
                        copyright: bool, timeout: bool, geoRestricted: bool): string
  {
    if privateVideo then "private_video"
    else if ageRestricted then "age_restricted"
    else if unsupportedSite then "unsupported_site"
    else if unavailable then "unavailable"
    else if copyright then "copyright"
    else if timeout then "timeout"
    else if geoRestricted then "geo_restricted"
    else DefaultErrorType
  }

  /** The keyword tests after the age group, shared by both chains. */
  function LaterGroups(m: string): (bool, bool, bool, bool, bool) {
    (Contains(m, "not supported") || Contains(m, "unsupported"),
     Contains(m, "unavailable") || Contains(m, "removed"),
     Contains(m, "copyright"),
     Contains(m, "timed out") || Contains(m, "timeout"),
     Contains(m, "geo") || Contains(m, "country"))
  }

  /** The classification as written: every keyword is a plain substring test
      on the lower-cased message. */
  function ClassifyErrorAsWritten(message: string): string {
    var m := LowerStr(message);
    var later := LaterGroups(m);
    KeywordChain(Contains(m, "private"), Contains(m, "age") || Contains(m, "sign in") || Contains(m, "login"),
                 later.0, later.1, later.2, later.3, later.4)
  }

  /** The classification as intended: "age" must be a word of its own, so
      that "webpage", "message" or "image" do not make an error an age
      restriction. */
  function ClassifyError(message: string): string {
    var m := LowerStr(message);
    var later := LaterGroups(m);
    KeywordChain(Contains(m, "private"), ContainsWord(m, "age") || Contains(m, "sign in") || Contains(m, "login"),
                 later.0, later.1, later.2, later.3, later.4)
  }

  /** A keyword of the rule table. */
  datatype Keyword = Substring(text: string) | Word(text: string)

  predicate Mentions(m: string, k: Keyword) {
    match k
    case Substring(t) => Contains(m, t)
    case Word(t) => ContainsWord(m, t)
  }

  datatype Rule = Rule(keywords: seq<Keyword>, errorType: string)

  predicate RuleMatches(m: string, rule: Rule) {
    exists k :: k in rule.keywords && Mentions(m, k)
  }

  /** The classification as a table, in priority order; `age` is the
      keyword that stands for "age". */
  function RulesWithAge(age: Keyword): seq<Rule> {
    [Rule([Substring("private")], "private_video"),
     Rule([age, Substring("sign in"), Substring("login")], "age_restricted"),
     Rule([Substring("not supported"), Substring("unsupported")], "unsupported_site"),
     Rule([Substring("unavailable"), Substring("removed")], "unavailable"),
     Rule([Substring("copyright")], "copyright"),
     Rule([Substring("timed out"), Substring("timeout")], "timeout"),
     Rule([Substring("geo"), Substring("country")], "geo_restricted")]
  }

  /** The table as written: "age" is a substring test like the others. */
  const AsWrittenRules := RulesWithAge(Substring("age"))

  /** The table as intended: "age" must be a word. */
  const ErrorRules := RulesWithAge(Word("age"))

  /** The error type of the first rule that matches, else the default. */
  function FirstMatch(rules: seq<Rule>, m: string): string {
    if rules == [] then DefaultErrorType
    else if RuleMatches(m, rules[0]) then rules[0].errorType
    else FirstMatch(rules[1..], m)
  }

  /** First-match semantics: the default exactly when no rule matches, and
      otherwise the type of a matching rule all of whose predecessors fail. */
  lemma {:induction false} FirstMatchIsFirst(rules: seq<Rule>, m: string)
    requires forall i :: 0 <= i < |rules| ==> rules[i].errorType != DefaultErrorType
    ensures var r := FirstMatch(rules, m);
      (r == DefaultErrorType <==> forall i :: 0 <= i < |rules| ==> !RuleMatches(m, rules[i]))
      && (r != DefaultErrorType ==>
            exists i :: 0 <= i < |rules| && RuleMatches(m, rules[i]) && r == rules[i].errorType
                        && forall j :: 0 <= j < i ==> !RuleMatches(m, rules[j]))
  {
    if rules != [] && !RuleMatches(m, rules[0]) {
      var tail := rules[1..];
      FirstMatchIsFirst(tail, m);
      assert forall i :: 1 <= i < |rules| ==> rules[i] == tail[i - 1];
      var r := FirstMatch(rules, m);
      if r != DefaultErrorType {
        var i :| 0 <= i < |tail| && RuleMatches(m, tail[i]) && r == tail[i].errorType
                 && forall j :: 0 <= j < i ==> !RuleMatches(m, tail[j]);
        assert RuleMatches(m, rules[i + 1]) && forall j :: 0 <= j < i + 1 ==> !RuleMatches(m, rules[j]);
      }
    }
  }

  /** Going down a table whose error types are the chain's is the chain. */
  lemma FirstMatchIsChain(rules: seq<Rule>, m: string)
    requires |rules| == 7
    requires rules[0].errorType == "private_video" && rules[1].errorType == "age_restricted"
    requires rules[2].errorType == "unsupported_site" && rules[3].errorType == "unavailable"
    requires rules[4].errorType == "copyright" && rules[5].errorType == "timeout"
    requires rules[6].errorType == "geo_restricted"
    ensures FirstMatch(rules, m)
            == KeywordChain(RuleMatches(m, rules[0]), RuleMatches(m, rules[1]), RuleMatches(m, rules[2]),
                            RuleMatches(m, rules[3]), RuleMatches(m, rules[4]), RuleMatches(m, rules[5]),
                            RuleMatches(m, rules[6]))
  {
    assert rules[6..][1..] == [];
    assert FirstMatch(rules[6..], m) == if RuleMatches(m, rules[6]) then "geo_restricted" else DefaultErrorType;
    assert rules[5..][1..] == rules[6..];
    assert rules[4..][1..] == rules[5..];
    assert rules[3..][1..] == rules[4..];
    assert rules[2..][1..] == rules[3..];
    assert rules[1..][1..] == rules[2..];
    assert FirstMatch(rules[5..], m) == if RuleMatches(m, rules[5]) then "timeout" else FirstMatch(rules[6..], m);
    assert FirstMatch(rules[4..], m) == if RuleMatches(m, rules[4]) then "copyright" else FirstMatch(rules[5..], m);
    assert FirstMatch(rules[3..], m) == if RuleMatches(m, rules[3]) then "unavailable" else FirstMatch(rules[4..], m);
    assert FirstMatch(rules[2..], m)
           == if RuleMatches(m, rules[2]) then "unsupported_site" else FirstMatch(rules[3..], m);
    assert FirstMatch(rules[1..], m)
           == if RuleMatches(m, rules[1]) then "age_restricted" else FirstMatch(rules[2..], m);
  }

  lemma MatchesOfOne(m: string, a: Keyword, t: string)
    ensures RuleMatches(m, Rule([a], t)) <==> Mentions(m, a)
  {
    assert a in [a];
  }

  lemma MatchesOfTwo(m: string, a: Keyword, b: Keyword, t: string)
    ensures RuleMatches(m, Rule([a, b], t)) <==> Mentions(m, a) || Mentions(m, b)
  {
    assert a in [a, b] && b in [a, b];
  }

  lemma MatchesOfThree(m: string, a: Keyword, b: Keyword, c: Keyword, t: string)
    ensures RuleMatches(m, Rule([a, b, c], t)) <==> Mentions(m, a) || Mentions(m, b) || Mentions(m, c)
  {
    assert a in [a, b, c] && b in [a, b, c] && c in [a, b, c];
  }

  /** Going down the table is the `if`/`elif` chain, whichever test
      stands for "age". */
  lemma ChainByRules(m: string, age: Keyword)
    ensures var later := LaterGroups(m);
      FirstMatch(RulesWithAge(age), m)
      == KeywordChain(Contains(m, "private"), Mentions(m, age) || Contains(m, "sign in") || Contains(m, "login"),
                      later.0, later.1, later.2, later.3, later.4)
  {
    FirstMatchIsChain(RulesWithAge(age), m);
    MatchesOfOne(m, Substring("private"), "private_video");
    MatchesOfThree(m, age, Substring("sign in"), Substring("login"), "age_restricted");
    MatchesOfTwo(m, Substring("not supported"), Substring("unsupported"), "unsupported_site");
    MatchesOfTwo(m, Substring("unavailable"), Substring("removed"), "unavailable");
    MatchesOfOne(m, Substring("copyright"), "copyright");
    MatchesOfTwo(m, Substring("timed out"), Substring("timeout"), "timeout");
    MatchesOfTwo(m, Substring("geo"), Substring("country"), "geo_restricted");
  }

  /** The classifier as written is the substring table's first match. */
  lemma AsWrittenByRules(message: string)
    ensures ClassifyErrorAsWritten(message) == FirstMatch(AsWrittenRules, LowerStr(message))
  {
    ChainByRules(LowerStr(message), Substring("age"));
  }

  /** The intended classifier is the word table's first match. */
  lemma ClassifyByRules(message: string)
    ensures ClassifyError(message) == FirstMatch(ErrorRules, LowerStr(message))
  {
    ChainByRules(LowerStr(message), Word("age"));
  }

  /** As written, the error type is that of the first rule of the table
      with a keyword in the lower-cased message (any "age" counts), and the
      default exactly when there is none. */
  lemma AsWrittenIsFirstMatch(message: string)
    ensures var r := ClassifyErrorAsWritten(message);
      var m := LowerStr(message);
      (r == DefaultErrorType <==> forall i :: 0 <= i < |AsWrittenRules| ==> !RuleMatches(m, AsWrittenRules[i]))
      && (r != DefaultErrorType ==>
            exists i :: 0 <= i < |AsWrittenRules| && RuleMatches(m, AsWrittenRules[i])
                        && r == AsWrittenRules[i].errorType
                        && forall j :: 0 <= j < i ==> !RuleMatches(m, AsWrittenRules[j]))
  {
    AsWrittenByRules(message);
    FirstMatchIsFirst(AsWrittenRules, LowerStr(message));
  }

  /** As intended, the error type is that of the first rule of the table
      with a keyword in the lower-cased message, where "age" must be a word,
      and the default exactly when there is none. */
  lemma ClassifyErrorIsFirstMatch(message: string)
    ensures var r := ClassifyError(message);
      var m := LowerStr(message);
      (r == DefaultErrorType <==> forall i :: 0 <= i < |ErrorRules| ==> !RuleMatches(m, ErrorRules[i]))
      && (r != DefaultErrorType ==>
            exists i :: 0 <= i < |ErrorRules| && RuleMatches(m, ErrorRules[i]) && r == ErrorRules[i].errorType
                        && forall j :: 0 <= j < i ==> !RuleMatches(m, ErrorRules[j]))
  {
    ClassifyByRules(message);
    FirstMatchIsFirst(ErrorRules, LowerStr(message));
  }

  lemma WordIsSubstring(s: string, w: string)
    ensures ContainsWord(s, w) ==> Contains(s, w)
  {
  }

  /** The two chains differ only on messages where "age" appears inside
      another word and nowhere on its own. */
  lemma ClassifyAgreesOnWords(message: string)
    requires var m := LowerStr(message); Contains(m, "age") ==> ContainsWord(m, "age")
    ensures ClassifyError(message) == ClassifyErrorAsWritten(message)
  {
    WordIsSubstring(LowerStr(message), "age");
  }

  lemma MissingCharNotContained(s: string, w: string, c: char)
    requires c in w && c !in s
    ensures !Contains(s, w)
  {
    forall i | 0 <= i <= |s| - |w| ensures !StartsWith(s[i..], w) {
      var k :| 0 <= k < |w| && w[k] == c;
      assert s[i..][..|w|][k] == s[i + k];
    }
  }

  /** `w` is not in `x + y` when one of its characters is missing from `x`,
      another is missing from `y`, and no split of `w` ends `x` and starts `y`. */
  lemma NotInConcat(x: string, y: string, w: string, cx: char, cy: char)
    requires cx in w && cx !in x
    requires cy in w && cy !in y
    requires forall j :: 0 < j < |w| ==> !(EndsWith(x, w[..j]) && StartsWith(y, w[j..]))
    ensures !Contains(x + y, w)
  {
    var s := x + y;
    forall i | 0 <= i <= |s| - |w| ensures !StartsWith(s[i..], w) {
      var window := s[i..][..|w|];
      if i + |w| <= |x| {
        var k :| 0 <= k < |w| && w[k] == cx;
        assert window[k] == x[i + k];
      } else if i >= |x| {
        var k :| 0 <= k < |w| && w[k] == cy;
        assert window[k] == y[i - |x| + k];
      } else {
        var j := |x| - i;
        assert 0 < j < |w| && |w| - j <= |y|;
        if x[|x| - j..] != w[..j] {
          assert |x[|x| - j..]| == |w[..j]| == j;
          var k :| 0 <= k < j && x[|x| - j..][k] != w[..j][k];
          assert window[k] == s[i + k] == x[|x| - j..][k];
          assert w[..j][k] == w[k];
        } else {
          assert !StartsWith(y, w[j..]);
          assert |y[..|w| - j]| == |w[j..]| == |w| - j;
          var k :| 0 <= k < |w| - j && y[..|w| - j][k] != w[j..][k];
          assert s[|x| + k] == y[k] == y[..|w| - j][k];
          assert window[j + k] == s[|x| + k];
          assert w[j..][k] == w[j + k];
        }
      }
    }
  }

  const WebpageError := "Unable to download webpage"

  lemma WebpageErrorLower()
    ensures LowerStr(WebpageError) == WebpageErrorLowered
  {
  }

  const WebpageErrorLowered := "unable to download webpage"

  /** The distinct characters of the lowered message. */
  const WebpageErrorLetters := "unablet owdpg"

  lemma WebpageErrorAlphabet()
    ensures forall c :: c in WebpageErrorLowered ==> c in WebpageErrorLetters
  {
    var m := WebpageErrorLowered;
    forall c | c in m ensures c in WebpageErrorLetters {
      var k :| 0 <= k < |m| && m[k] == c;
    }
  }

  lemma WebpageErrorEarlyKeywords()
    ensures var m := WebpageErrorLowered;
      !Contains(m, "private") && Contains(m, "age") && !Contains(m, "sign in") && !Contains(m, "login")
  {
    var m := WebpageErrorLowered;
    WebpageErrorAlphabet();
    assert 'i' !in m;
    MissingCharNotContained(m, "private", 'i');
    assert StartsWith(m[23..], "age");
    MissingCharNotContained(m, "sign in", 'i');
    MissingCharNotContained(m, "login", 'i');
  }

  lemma WebpageErrorMiddleKeywords()
    ensures var m := WebpageErrorLowered;
      !Contains(m, "not supported") && !Contains(m, "unsupported")
      && !Contains(m, "unavailable") && !Contains(m, "removed") && !Contains(m, "copyright")
  {
    var m := WebpageErrorLowered;
    WebpageErrorAlphabet();
    assert 's' !in m && 'v' !in m && 'c' !in m;
    MissingCharNotContained(m, "not supported", 's');
    MissingCharNotContained(m, "unsupported", 's');
    MissingCharNotContained(m, "unavailable", 'v');
    MissingCharNotContained(m, "removed", 'v');
    MissingCharNotContained(m, "copyright", 'c');
  }

  lemma WebpageErrorLateKeywords()
    ensures var m := WebpageErrorLowered;
      !Contains(m, "timed out") && !Contains(m, "timeout") && !Contains(m, "geo") && !Contains(m, "country")
  {
    var m := WebpageErrorLowered;
    WebpageErrorAlphabet();
    assert 'i' !in m && 'c' !in m;
    MissingCharNotContained(m, "timed out", 'i');
    MissingCharNotContained(m, "timeout", 'i');
    MissingCharNotContained(m, "country", 'c');
    var x, y := "unable to download ", "webpage";
    assert x + y == m;
    forall j | 0 < j < 3 ensures !(EndsWith(x, "geo"[..j]) && StartsWith(y, "geo"[j..])) {
      assert x[|x| - 1] == ' ';
    }
    NotInConcat(x, y, "geo", 'g', 'o');
  }

  /** "age" is not a word of the lower-cased message. */
  lemma WebpageErrorHasNoAgeWord()
    ensures !ContainsWord(WebpageErrorLowered, "age")
  {
    var m := WebpageErrorLowered;
    var front := "unable to download webpa";
    assert 'g' !in front && m[..24] == front;
    forall i | 0 <= i <= |m| - 3 ensures !WordAt(m, "age", i) {
      if i + 1 < 24 {
        assert m[i + 1] == front[i + 1];
        assert m[i..][..3][1] != 'g';
      } else {
        assert m[i - 1] == 'p';
      }
    }
  }

  /** yt-dlp's "Unable to download webpage" is an age restriction as
      written, because "webpage" contains "age"; the intended chain leaves
      it an extraction error. */
  lemma WebpageErrorMisclassified()
    ensures ClassifyErrorAsWritten(WebpageError) == "age_restricted"
    ensures ClassifyError(WebpageError) == DefaultErrorType
  {
    WebpageErrorLower();
    WebpageErrorEarlyKeywords();
    WebpageErrorMiddleKeywords();
    WebpageErrorLateKeywords();
    WebpageErrorHasNoAgeWord();
  }

  /* ---------------------------------------------------------------------
     POST /api/info
     --------------------------------------------------------------------- */

  /** How `extract_video_info` ended: a summary, a `ValueError` with its
      message, or any other exception. */
  datatype Extraction = Extracted(summary: Summary) | ExtractionFailed(message: string) | Crashed

  datatype InfoReply =
    /** `InfoRequest` failed validation: 422 before the handler runs. */
    | InfoRejected
    | InfoOk(summary: Summary)
    | InfoError(status: int, body: ErrorBody)

  const InfoServerError := ErrorBody("An unexpected error occurred. Please try again.", "server_error")

  /** The handler with the keyword classification `classify`; `extract`
      stands for `extract_video_info`, yt-dlp included. */
  function InfoHandler(rawUrl: string, extract: string -> Extraction, classify: string -> string): InfoReply {
    match ValidateUrl(rawUrl)
    case Err(_) => InfoRejected
    case Ok(url) =>
      match extract(url)
      case Extracted(summary) => InfoOk(summary)
      case ExtractionFailed(message) => InfoError(400, ErrorBody(message, classify(message)))
      case Crashed => InfoError(500, InfoServerError)
  }

  /** `get_video_info` as written. */
  function GetVideoInfo(rawUrl: string, extract: string -> Extraction): InfoReply {
    InfoHandler(rawUrl, extract, ClassifyErrorAsWritten)
  }

  /** `get_video_info` with "age" matched as a word. */
  function GetVideoInfoCorrected(rawUrl: string, extract: string -> Extraction): InfoReply {
    InfoHandler(rawUrl, extract, ClassifyError)
  }

  /** The extractor only ever sees the validated, stripped URL; a
      `ValueError` answers 400 with its message verbatim and its keyword
      class, anything else 500 `server_error`. */
  lemma InfoOutcomes(rawUrl: string, extract: string -> Extraction)
    ensures var r := GetVideoInfo(rawUrl, extract);
      var url := Strip(rawUrl);
      (r == InfoRejected <==> ValidateUrl(rawUrl).Err?)
      && (r.InfoOk? <==> ValidateUrl(rawUrl).Ok? && extract(url).Extracted?)
      && (r.InfoOk? ==> r.summary == extract(url).summary)
      && (r.InfoError? && r.status == 400 <==> ValidateUrl(rawUrl).Ok? && extract(url).ExtractionFailed?)
      && (r.InfoError? && r.status == 400 ==>
            r.body == ErrorBody(extract(url).message, ClassifyErrorAsWritten(extract(url).message)))
      && (r.InfoError? && r.status == 500 <==> ValidateUrl(rawUrl).Ok? && extract(url).Crashed?)
  {
  }

  /** The corrected handler answers as the handler as written does, except
      that a 400 carries the intended class of its message; the two agree
      whenever every "age" in the message is a word. */
  lemma InfoCorrectedOutcomes(rawUrl: string, extract: string -> Extraction)
    ensures var r := GetVideoInfo(rawUrl, extract);
      var c := GetVideoInfoCorrected(rawUrl, extract);
      (r.InfoError? && r.status == 400 ==> c == InfoError(400, ErrorBody(r.body.error, ClassifyError(r.body.error))))
      && (!(r.InfoError? && r.status == 400) ==> c == r)
    ensures var url := Strip(rawUrl);
      ValidateUrl(rawUrl).Ok? && extract(url).ExtractionFailed?
      && (var m := LowerStr(extract(url).message); Contains(m, "age") ==> ContainsWord(m, "age"))
      ==> GetVideoInfoCorrected(rawUrl, extract) == GetVideoInfo(rawUrl, extract)
  {
    var url := Strip(rawUrl);
    if ValidateUrl(rawUrl).Ok? && extract(url).ExtractionFailed? {
      var m := LowerStr(extract(url).message);
      if Contains(m, "age") ==> ContainsWord(m, "age") {
        ClassifyAgreesOnWords(extract(url).message);
      }
    }
  }

  /** yt-dlp's "Unable to download webpage" reaches the client as an age
      restriction; the corrected handler reports an extraction error. */
  lemma InfoWebpageError(rawUrl: string, extract: string -> Extraction)
    requires ValidateUrl(rawUrl).Ok? && extract(Strip(rawUrl)) == ExtractionFailed(WebpageError)
    ensures GetVideoInfo(rawUrl, extract) == InfoError(400, ErrorBody(WebpageError, "age_restricted"))
    ensures GetVideoInfoCorrected(rawUrl, extract) == InfoError(400, ErrorBody(WebpageError, DefaultErrorType))
  {
    WebpageErrorMisclassified();
  }
}
