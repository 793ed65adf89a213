# Video downloader backend — a Dafny model

This project models the server core of a video-download web service. The
service has four parts:

- a per-IP sliding-window rate limiter, applied to `/api/...` paths;
- the request models, with URL validation and file-size display;
- the post-processing of a video extractor's metadata into a sorted,
  deduplicated list of downloadable formats, plus two synthetic entries: a
  "best merged" entry and an MP3 entry;
- two HTTP endpoints:
  - `/api/info` turns extractor errors into typed error replies;
  - `/api/download` validates its query, sanitises the filename, builds the
    upstream and response headers, maps upstream outcomes to replies, and
    routes `merge:` URLs to the merge pipeline.

Modules:

| module | file | what it holds |
|---|---|---|
| `Text` | `text.dfy` | the Python string operations the code relies on, stated as functions: `str.strip`, `split`, `lower`/`upper`, `str(int)` and parsing back, `int()` truncation |
| `RateLimit` | `rate_limit.dfy` | request logs as functions, and the middleware as the class `RateLimiter`, whose `requests` map and `lastCleanup` clock are updated in place |
| `Models` | `models.dfy` | `FormatInfo`, `validate_url`, `display_size` |
| `Downloader` | `downloader.dfy` | labels, format filtering, deduplication, the stable sort, the best merged entry, the MP3 entry and playlist handling |
| `Api` | `api.dfy` | the two endpoints of `main.py`, with the extractor, URL decoding and the network as parameters |

The step-by-step parts of the source are Dafny methods with loops, proved
against the functions that specify them:

- the timestamp pruning loop;
- the stale-entry sweep;
- the format extraction loop;
- the MP3 bitrate loop.

The header-building code is made of straight-line `Api` methods that insert
one dictionary entry after another. Each method is proved equal to the
header map it specifies.

## Model

| member | source | states |
|---|---|---|
| `RateLimit.RateLimiter.constructor` | `backend/middleware/rate_limit.py:15-21` | A new limiter has the configured limit, an empty request map, and its last cleanup set to the construction time. |
| `RateLimit.PrunedShape` | `backend/middleware/rate_limit.py:52-54` | Pruning removes a prefix of the log. Every removed timestamp is older than the cutoff, and the first kept one is not. |
| `RateLimit.PrunedIsRecent` | `backend/middleware/rate_limit.py:49-54` | On a sorted log, pruning keeps exactly the timestamps at or after the cutoff. |
| `RateLimit.RecentAllKept` | `backend/middleware/rate_limit.py:49-54` | A log with nothing older than the cutoff is kept whole. |
| `RateLimit.NothingPruned` | `backend/middleware/rate_limit.py:53-54` | Pruning leaves a log with nothing older than the cutoff unchanged. |
| `RateLimit.RetryAfter` | `backend/middleware/rate_limit.py:57-58` | The retry delay is at least one second. |
| `RateLimit.Decide` | `backend/middleware/rate_limit.py:56-62` | A request is admitted iff the pruned log holds fewer than `rpm` requests. When admitted, the remaining allowance is `rpm` minus the new log length. A limit of zero or less with an empty log is a fault, because the source then indexes an empty list. A limited request gets a delay of at least one second. |
| `RateLimit.RetryAfterBounds` | `backend/middleware/rate_limit.py:56-58` | A limited client is told to wait between 1 and 61 seconds. |
| `RateLimit.RetryAfterIsLeast` | `backend/middleware/rate_limit.py:57` | The delay is the least whole number of seconds after which the oldest logged request leaves the window. |
| `RateLimit.IdleClientAdmitted` | `backend/middleware/rate_limit.py:49-62` | A client whose last request fell out of the window is admitted with `rpm - 1` remaining, and its log becomes just the current request. |
| `RateLimit.PrunedEmptyWhenStale` | `backend/middleware/rate_limit.py:40` | A log that the cleanup calls stale is pruned to nothing. |
| `RateLimit.Run` | `backend/middleware/rate_limit.py:45-62` | Running a series of requests gives one verdict per request. |
| `RateLimit.RunInOneWindow` | `backend/middleware/rate_limit.py:45-62` | Within one window, the k-th further request is admitted iff the log length plus k is below `rpm`, and limited otherwise. |
| `RateLimit.BurstLimit` | `backend/middleware/rate_limit.py:56-62` | Of `rpm + 1` requests within one window, the first `rpm` are admitted and the last is limited. |
| `RateLimit.SweptIsSubmap` | `backend/middleware/rate_limit.py:38-43` | The stale sweep keeps only entries of the old map, with their logs unchanged. |
| `RateLimit.CleanedKeepsBounded` | `backend/middleware/rate_limit.py:34-43` | Cleanup preserves the invariant that every log is sorted, in the past, and at most `rpm` long. |
| `RateLimit.PrunedKeepsBounds` | `backend/middleware/rate_limit.py:53-54` | Pruning keeps a log sorted and in the past. |
| `RateLimit.AppendKeepsOrder` | `backend/middleware/rate_limit.py:60` | Appending the current time keeps a log sorted and in the past. |
| `RateLimit.LogStepKeepsOk` | `backend/middleware/rate_limit.py:49-62` | One request keeps that client's log sorted, in the past, and within `rpm`. |
| `RateLimit.UpdateKeepsBounded` | `backend/middleware/rate_limit.py:50-60` | Replacing one client's log with a bounded log keeps the whole map bounded. |
| `RateLimit.StepKeepsBounded` | `backend/middleware/rate_limit.py:45-62` | Cleanup followed by one request preserves the map invariant. |
| `RateLimit.CleanupKeepsVerdict` | `backend/middleware/rate_limit.py:34-54` | Whether the cleanup ran or not, the client's pruned log is the same. So the cleanup never changes a verdict. |
| `RateLimit.OtherClientsUntouched` | `backend/middleware/rate_limit.py:45-62` | A request changes no other client's log. Other clients are only removed when the cleanup finds them stale. |
| `RateLimit.FirstHop` | `backend/middleware/rate_limit.py:25-26` | The first hop is a comma-free piece of the header with no whitespace at its ends. |
| `RateLimit.ClientIp` | `backend/middleware/rate_limit.py:23-32` | The first forwarded hop wins, then X-Real-IP, then the peer address, then `"unknown"`. A forwarded hop is stripped and contains no comma. An X-Real-IP address is that header stripped, commas included. |
| `RateLimit.ClientIpIsFirstHop` | `backend/middleware/rate_limit.py:24-26` | For an `X-Forwarded-For` list of hops, the client address is the first hop, stripped. |
| `RateLimit.SplitJoin` | `backend/middleware/rate_limit.py:26` | Splitting a joined list of comma-free parts gives the parts back. |
| `RateLimit.Bypassed` | `backend/middleware/rate_limit.py:67-74` | A request bypasses the limiter iff its path does not start with `/api/`. |
| `RateLimit.GateFor` | `backend/middleware/rate_limit.py:79-93` | A limited request gets a 429 `rate_limit` reply carrying exactly `Retry-After` (the delay), `X-RateLimit-Limit` (rpm) and `X-RateLimit-Remaining: 0`. An admitted one is forwarded, and its response gets exactly `X-RateLimit-Limit` (rpm) and `X-RateLimit-Remaining` (the remaining quota). A limiter fault is an internal error. |
| `RateLimit.RetryAfterHeader` | `backend/middleware/rate_limit.py:85` | The `Retry-After` header parses back to the computed delay. |
| `RateLimit.QuotaHeadersReadBack` | `backend/middleware/rate_limit.py:84-93` | The quota headers parse back as the limit, and as the remaining quota on an admitted request or zero on a 429. |
| `RateLimit.RateLimiter.CleanupStale` | `backend/middleware/rate_limit.py:34-43` | At most every 300 s, the map loses exactly its stale entries and the cleanup time moves to now. Otherwise nothing changes. |
| `RateLimit.RateLimiter.IsRateLimited` | `backend/middleware/rate_limit.py:45-62` | The new map and the verdict are those of the functional step. The bounded-logs invariant is preserved. |
| `RateLimit.RateLimiter.PruneAndDecide` | `backend/middleware/rate_limit.py:49-62` | The loop that pops expired timestamps, then the admit or limit decision, agree with the pruning and decision functions. |
| `RateLimit.RateLimiter.Dispatch` | `backend/middleware/rate_limit.py:64-94` | A bypassed path passes through with the state unchanged. Any other path is gated on the verdict for its client address. |
| `Models.ValidateUrl` | `backend/models.py:6-20` | A URL is accepted iff its raw length is within 5..2048, its stripped form starts with `http://` or `https://` in any case, and it has no newline, CR or NUL. The accepted value is the stripped string. Each error is returned exactly when its own check is the first to fail: too short, too long, bad scheme, then bad characters. |
| `Models.ValidateUrlIdempotent` | `backend/models.py:11-20` | Validating an accepted URL again accepts it unchanged. |
| `Models.NewlineInsideRejected` | `backend/models.py:18-19` | An embedded newline that stripping cannot remove is rejected. |
| `Models.ChosenSize` | `backend/models.py:51` | The exact size is used unless it is missing or zero. Then the approximate size is used. |
| `Models.DisplaySize` | `backend/models.py:50-61` | No size is shown iff the chosen size is missing. Otherwise the unit is the largest one of B, KB, MB or GB not exceeding the size. |
| `Models.DisplayUnitUnique` | `backend/models.py:54-61` | Exactly one unit satisfies those bounds. |
| `Downloader.FormatDuration` | `backend/services/downloader.py:44-52` | The result is empty iff the duration is missing or negative. |
| `Downloader.ClockArithmetic` | `backend/services/downloader.py:47-49` | Hours, minutes and seconds recompose the duration, with minutes and seconds below 60. |
| `Downloader.DurationParts` | `backend/services/downloader.py:47-52` | The text has the form `h:mm:ss` from one hour up and `m:ss` below. |
| `Downloader.DurationPartsLong` | `backend/services/downloader.py:44-52` | From one hour up, the text splits at `:` into the hours, the two-digit minutes and the two-digit seconds. |
| `Downloader.DurationPartsShort` | `backend/services/downloader.py:44-52` | Below one hour, the text splits at `:` into the minutes and the two-digit seconds. |
| `Downloader.DurationFields` | `backend/services/downloader.py:44-52` | The fields of the text parse back to numbers that recompose the duration, with the 3-field form iff the duration is at least an hour. |
| `Downloader.OrElse` | `backend/services/downloader.py:152` | Python's `a or b` for an optional string: `a` when it is present and non-empty, else `b`. |
| `Downloader.FirstAtMost` | `backend/services/downloader.py:69-86` | The first threshold at or below the height, if any. It is none iff every threshold is above the height. |
| `Downloader.FirstAtMostIsGreatest` | `backend/services/downloader.py:69-86` | On descending thresholds, the first one at or below the height is the greatest such one. |
| `Downloader.UpperHeightNames` | `backend/services/downloader.py:71-76` | The numbers 1440, 1080 and 720, rendered and followed by `p`, are the literal labels of the source. |
| `Downloader.LowerHeightNames` | `backend/services/downloader.py:77-84` | The numbers 480, 360, 240 and 144, rendered and followed by `p`, are the literal labels of the source. |
| `Downloader.HeightLabelOfTable` | `backend/services/downloader.py:71-84` | From 144 up to below 2160, some standard height applies. The label is that nominal height followed by `p`. |
| `Downloader.HeightLabelIsNominal` | `backend/services/downloader.py:67-86` | The label names the greatest standard height not above the frame height (4K for 2160). Below 144 it is the raw height followed by `p`. |
| `Downloader.StandardHeightsDescending` | `backend/services/downloader.py:69-84` | The thresholds are strictly descending. |
| `Downloader.StandardTable` | `backend/services/downloader.py:69-86` | Looking up the first standard height at most `h` gives the height the `elif` chain picks, and nothing below 144. |
| `Downloader.FpsSuffixReadsBack` | `backend/services/downloader.py:90-91` | Appending the frame-rate suffix keeps the label as a prefix. The suffix is empty iff fps is absent or at most 30. Otherwise it ends in `fps`, and its number parses back to the truncated fps. |
| `Downloader.VideoQuality` | `backend/services/downloader.py:64-93` | A video label is the height label, with ` <n>fps` appended iff fps exceeds 30. The number parses back to the truncated fps. |
| `Downloader.AudioQuality` | `backend/services/downloader.py:94-99` | An audio label is `Audio` iff neither abr nor tbr is truthy. Otherwise it is `<n>kbps`, with `n` the truncated abr, else tbr. |
| `Downloader.UnknownQuality` | `backend/services/downloader.py:100-101` | A format with neither codec is labelled `Unknown`. |
| `Downloader.UpperHasNoLower` | `backend/services/downloader.py:115-121` | An upper-cased extension has no lower-case ASCII letter. |
| `Downloader.LabelDeterminesKind` | `backend/services/downloader.py:104-121` | The label's shape tells whether a format is merged, video-only, audio-only or neither. |
| `Downloader.MergedLabelKind` | `backend/services/downloader.py:115` | A label ending in ` (Video + Audio)` reads back as merged, whatever the quality and extension. |
| `Downloader.VideoOnlyLabelKind` | `backend/services/downloader.py:116-117` | A label ending in ` (Video Only)` reads back as video-only. |
| `Downloader.AudioLabelKind` | `backend/services/downloader.py:118-119` | `Audio <EXT> (<quality>)` reads back as audio-only when the quality is `Audio` or ends in `s`, as the audio quality labels do. |
| `Downloader.NeitherLabelKind` | `backend/services/downloader.py:120-121` | `Unknown <EXT>` with an upper-cased extension reads back as neither. |
| `Downloader.AudioFormatLabelKind` | `backend/services/downloader.py:104-121` | The label built for an audio-only format reads back as audio-only. |
| `Downloader.NeitherFormatLabelKind` | `backend/services/downloader.py:104-121` | The label built for a format with neither stream reads back as neither. |
| `Downloader.ToFormatInfoShape` | `backend/services/downloader.py:163-205` | A converted format has consistent flags. Codec fields are present iff the stream is present. Its key and kind are those of the raw format, and it keeps the URL. |
| `Downloader.KeptKeysSnoc` | `backend/services/downloader.py:180-184` | Processing one more format adds its key to the seen set iff it passes the filters. |
| `Downloader.DedupFromPrefix` | `backend/services/downloader.py:150-206` | The loop's state after a prefix, continued on the rest, gives the first-of-each-key list of the whole input. |
| `Downloader.DedupIsFirstOfEach` | `backend/services/downloader.py:180-184` | Dedup keeps exactly the first admissible format of each `label_ext` key. |
| `Downloader.DedupDistinct` | `backend/services/downloader.py:180-184` | Kept keys are pairwise distinct and none was already seen. |
| `Downloader.DedupOrigin` | `backend/services/downloader.py:150-206` | Every kept entry is the conversion of an admissible input format. |
| `Downloader.DedupCovers` | `backend/services/downloader.py:180-184` | Every admissible key that was not yet seen is represented in the output. |
| `Downloader.ConversionKeepsKey` | `backend/services/downloader.py:181-190` | The key of a converted entry is the raw format's dedup key. |
| `Downloader.SelectedIsFirstOfEach` | `backend/services/downloader.py:150-206` | The selected formats are the first admissible format of each key. |
| `Downloader.SelectedDistinct` | `backend/services/downloader.py:180-184` | No two selected formats share a key. |
| `Downloader.SelectedOrigin` | `backend/services/downloader.py:150-175` | Every selected format has a URL, an allowed protocol, an allowed extension and no storyboard codec. |
| `Downloader.SelectedCovers` | `backend/services/downloader.py:150-184` | Every admissible input format's key appears among the selected ones. |
| `Downloader.Category` | `backend/services/downloader.py:131-136` | Category 0 is merged, 1 is video-only and 2 has no video. |
| `Downloader.InsertPermutes` | `backend/services/downloader.py:208` | Insertion adds exactly the inserted element. |
| `Downloader.InsertSorted` | `backend/services/downloader.py:208` | Insertion keeps a list sorted by the sort key. |
| `Downloader.SortFormatsCorrect` | `backend/services/downloader.py:124-208` | The sorted list is ordered by (category, −height, −tbr, −abr) and is a permutation of the input. |
| `Downloader.InsertWithKey` | `backend/services/downloader.py:208` | Insertion keeps the order of equal-key elements. |
| `Downloader.SortFormatsStable` | `backend/services/downloader.py:208` | The sort is stable: elements with equal keys keep their input order. |
| `Downloader.ProtocolTest` | `backend/services/downloader.py:157-161` | The nested protocol test drops exactly m3u8, f4m, f4f and ism. |
| `Downloader.ExtractFormats` | `backend/services/downloader.py:145-209` | The loop returns the stably sorted first-of-each-key list of admissible formats: sorted, a permutation of the selection, and stable. |
| `Downloader.BestVideoAt` | `backend/services/downloader.py:230-240` | The chosen video is a video-only entry with an id that has the greatest height, then tbr, and comes first among equals. There is none iff no candidate exists. |
| `Downloader.BestAudioAt` | `backend/services/downloader.py:231-242` | The chosen audio is an audio-only entry with an id that has the greatest abr, and comes first among equals. There is none iff no candidate exists. |
| `Downloader.BestMergedShape` | `backend/services/downloader.py:212-282` | The best entry is prepended iff a page URL, a video candidate and an audio candidate exist. It is a merged mp4 with id `best`, the best video's height, and the URL `merge:<video>+<audio>:<page>`. |
| `Downloader.Mp3SourceAt` | `backend/services/downloader.py:329-333` | The MP3 source is the first audio entry of greatest positive bitrate. There is none iff no bitrate is positive. |
| `Downloader.PickMp3Source` | `backend/services/downloader.py:327-333` | The loop returns that entry's bitrate and URL, else 0 and the empty string. These agree with the functions the MP3 entry is specified by. |
| `Downloader.AudioEntries` | `backend/services/downloader.py:318` | Only audio entries of the list are kept. The result is empty iff there are none. |
| `Downloader.AudioEntriesKeepsAll` | `backend/services/downloader.py:318` | An entry is kept iff it is in the list and is audio. |
| `Downloader.AudioEntriesAppend` | `backend/services/downloader.py:318` | The audio entries of two lists in a row are those of the first, then those of the second, so the list's order is kept. |
| `Downloader.VideoEntries` | `backend/services/downloader.py:319` | Only entries of the list with video are kept. The result is empty iff there are none. |
| `Downloader.VideoEntriesKeepsAll` | `backend/services/downloader.py:319` | An entry is kept iff it is in the list and has video. |
| `Downloader.VideoEntriesAppend` | `backend/services/downloader.py:319` | The entries with video of two lists in a row are those of the first, then those of the second, so the list's order is kept. |
| `Downloader.ChooseEntry` | `backend/services/downloader.py:303-312` | A playlist fails iff it is empty or its first entry is missing. Otherwise the first entry is used. A non-playlist is used as is. |
| `Downloader.ProcessInfo` | `backend/services/downloader.py:303-381` | The post-processing method returns the summary function's result: the playlist choice, the final formats, the truncated duration, the thumbnail fallback and the shortened description. |
| `Downloader.SummarizeEntry` | `backend/services/downloader.py:354-381` | The summary of the chosen entry equals the summary function: the title and uploader fallbacks, the truncated duration and its text, the thumbnail fallback and the shortened description. |
| `Downloader.BuildFormats` | `backend/services/downloader.py:314-352` | The format-list code equals the extracted list completed with the best and MP3 entries. |
| `Downloader.DescriptionBound` | `backend/services/downloader.py:363-378` | A shown description is at most 303 characters and starts with the first 300 characters. It is absent iff the original is empty. |
| `Downloader.ExtractedEntries` | `backend/services/downloader.py:150-206` | Every extracted entry has a URL and consistent flags. |
| `Downloader.WithBestShape` | `backend/services/downloader.py:322-323` | At most the best entry is prepended, and it has category 0. |
| `Downloader.CompletedShape` | `backend/services/downloader.py:326-352` | The MP3 entry is appended iff there is an audio or a video entry. Its URL is the chosen source, else the first entry's URL. |
| `Downloader.Mp3UrlPresent` | `backend/services/downloader.py:335-339` | When there is an audio or a video entry, the MP3 entry always gets a URL. |
| `Downloader.Mp3EntryFlags` | `backend/services/downloader.py:340-351` | The MP3 entry is audio and its flags are consistent with its streams. |
| `Downloader.WithBestFlagsConsistent` | `backend/services/downloader.py:269-282` | Prepending the merged entry keeps every entry's flags consistent. |
| `Downloader.CompletedFlagsConsistent` | `backend/services/downloader.py:269-352` | If every extracted entry has consistent flags, so do the merged and MP3 entries added to them. |
| `Downloader.FinalFlagsConsistent` | `backend/services/downloader.py:314-352` | Every format in the final list has `is_audio` and `is_video_only` consistent with its streams. |
| `Text.Strip` | `backend/models.py:14` | `str.strip`: the result is a slice of the input with only whitespace before and after it, and no whitespace at its own ends. |
| `Text.StripByUnique` | `backend/models.py:14` | Any slice with only stripped characters around it and none at its ends is what stripping returns, so the stripping contract determines the result. |
| `Text.StripByIdempotent` | `backend/main.py:141` | Stripping twice strips the same as once. |
| `Text.IndexOf` | `backend/main.py:193` | The first occurrence of a character, if any. |
| `Text.Split` | `backend/main.py:359` | The parts of `str.split` contain no separator and there is at least one. |
| `Text.SplitCount` | `backend/main.py:359` | Splitting gives one more part than there are separators. |
| `Text.JoinSplit` | `backend/middleware/rate_limit.py:26` | Joining the split parts gives back the input. |
| `Text.Trunc` | `backend/services/downloader.py:354-356` | Python's `int()` on a float truncates toward zero. |
| `Text.ParseNatToString` | `backend/middleware/rate_limit.py:85-87` | `str()` of a natural number parses back to it. |
| `Api.ReplaceUnsafe` | `backend/main.py:140` | Each of `<>:"/\|?*` and each control character below 0x20 becomes `_`. All other characters are kept. |
| `Api.SanitizedIsSafe` | `backend/main.py:138-146` | A sanitised name is 1..200 characters, has no unsafe character, and starts with neither a dot nor a space. |
| `Api.SanitizeReplacesEachUnsafe` | `backend/main.py:140-141` | A name of at most 200 characters without edge dots or spaces is only character-replaced. |
| `Api.SanitizeIdempotent` | `backend/main.py:138-146` | Sanitising is idempotent unless truncation exposed a trailing dot or space. |
| `Api.LongNameIsCut` | `backend/main.py:144-145` | A 201-character name is cut to 200 characters. |
| `Api.TruncationLeavesTrailingDot` | `backend/main.py:141-145` | Truncating after stripping can leave a trailing dot, so sanitising again changes the name. |
| `Api.DownloadFilenameIsSafe` | `backend/main.py:174-175` | The full filename is the sanitised name, a dot and the extension, and it has no unsafe character. |
| `Api.Utf8` | `backend/main.py:233` | A character encodes to 1..4 UTF-8 bytes: one iff it is ASCII, otherwise all bytes at least 0x80. |
| `Api.HexRoundTrip` | `backend/main.py:233` | The two hex digits of a byte decode back to it. |
| `Api.DecodeEscapes` | `backend/main.py:233` | Percent-decoding reads encoded bytes back. |
| `Api.QuoteRoundTrip` | `backend/main.py:233` | `quote` percent-decodes back to the UTF-8 bytes of the name. |
| `Api.QuoteIsValueChars` | `backend/main.py:233-235` | For a name without `/`, the quoted text uses only RFC 5987 `attr-char`s and `%XX` escapes. |
| `Api.CaseSensitivePrefixMatches` | `backend/main.py:165-190` | A `merge:` prefix that the case-sensitive test accepts is also accepted case-insensitively. |
| `Api.RangeForwarded` | `backend/main.py:178-186` | The upstream headers are the three fixed headers, plus `Range` iff the client sent a non-empty one, with the client's value. |
| `Api.BuildUpstreamHeaders` | `backend/main.py:178-186` | The header-building code produces that map. |
| `Api.ContentHeadersCopied` | `backend/main.py:233-247` | Content-Length and Content-Range are copied iff upstream sent them non-empty. The three fixed headers are always present. |
| `Api.BuildResponseHeaders` | `backend/main.py:233-247` | The header-building code produces that map. |
| `Api.DispositionNamesFile` | `backend/main.py:174-235` | Content-Disposition carries the full filename as an RFC 5987 value that decodes to its UTF-8 bytes. |
| `Api.UpstreamStatusMapping` | `backend/main.py:216-297` | An upstream status below 400 streams with that status, the copied headers, and the upstream content type (default `application/octet-stream`). A status of 400 or more, or an HTTP error, gives 502. A timeout gives 504. Any other failure gives 500. |
| `Api.FirstColon` | `backend/main.py:193-195` | `split(":", 1)` on ids without a colon separates exactly the ids from the page URL. |
| `Api.SplitIds` | `backend/main.py:359` | Two ids without `+`, joined by `+`, split back into those ids. |
| `Api.MergeRoundTrip` | `backend/main.py:190-359` | A merge URL built by the downloader routes to the merge pipeline with the same video id, audio id and page. |
| `Api.RouteMergeOutcomes` | `backend/main.py:192-361` | A merge URL without a colon is an invalid merge URL. One whose ids do not hold exactly one `+` gives "Invalid format IDs". Otherwise the merge pipeline starts. |
| `Api.RouteMergeShape` | `backend/main.py:193-359` | A started merge has `+`-free ids and reassembles the URL it was parsed from. |
| `Api.ProxyAsWrittenNeverFetches` | `backend/main.py:188-297` | As written, no non-merge download reaches the network: every valid `http(s)` URL answers 500. |
| `Api.DownloadRejectsBadQuery` | `backend/main.py:152-156` | The query is rejected iff its parameter lengths are out of bounds. |
| `Api.DownloadWhitelist` | `backend/main.py:162-172` | "Invalid download URL." is returned iff the decoded URL starts with neither `http(s)://` nor `merge:` in any case. Nothing is then fetched. |
| `Api.DownloadFetches` | `backend/main.py:162-270` | Corrected: exactly the valid, whitelisted, non-merge requests are fetched, with the decoded URL and the upstream headers. The reply follows the upstream outcome. |
| `Api.MergeRoutingIsCaseSensitive` | `backend/main.py:165-190` | Corrected: `MERGE:1+2:x` passes the whitelist but is proxied as an ordinary URL. |
| `Api.MergeEntryDownloads` | `backend/main.py:190-196` | Downloading the URL of a best merged entry starts the merge of its two ids, with the sanitised filename. |
| `Api.FirstMatchIsFirst` | `backend/main.py:102-118` | A first-match rule list yields the default iff no rule matches. Otherwise it yields the first matching rule's type. |
| `Api.FirstMatchIsChain` | `backend/main.py:105-118` | The seven-rule list computes the source's `elif` chain. |
| `Api.MatchesOfOne` | `backend/main.py:113` | A one-keyword rule matches iff its keyword is mentioned. |
| `Api.MatchesOfTwo` | `backend/main.py:109-117` | A two-keyword rule matches iff one of its keywords is mentioned. |
| `Api.MatchesOfThree` | `backend/main.py:107` | A three-keyword rule matches iff one of its keywords is mentioned. |
| `Api.ChainByRules` | `backend/main.py:104-118` | Going down the rule table, whichever test stands for "age", computes the `if`/`elif` chain on the lower-cased message. |
| `Api.AsWrittenByRules` | `backend/main.py:104-118` | The classifier as written equals the first match of the table in which "age" is a substring test, as the source has it. |
| `Api.AsWrittenIsFirstMatch` | `backend/main.py:102-118` | As written, the error type is the default iff no rule matches. Otherwise it is the type of the first matching rule, with "age" matched as a substring. |
| `Api.ClassifyByRules` | `backend/main.py:104-118` | Corrected: the intended classifier equals the first match of the table in which "age" must be a word. |
| `Api.ClassifyErrorIsFirstMatch` | `backend/main.py:102-118` | Corrected: the error type is the default iff no rule matches. Otherwise it is the first matching rule's type, with "age" matched as a word. |
| `Api.WordIsSubstring` | `backend/main.py:107` | A whole-word occurrence is also a substring occurrence. |
| `Api.ClassifyAgreesOnWords` | `backend/main.py:104-118` | The corrected and the as-written classifiers agree unless "age" occurs only inside a word. |
| `Api.WebpageErrorMisclassified` | `backend/main.py:107` | As written, "Unable to download webpage" is classified `age_restricted`. The corrected classifier gives `extraction_error`. |
| `Api.InfoOutcomes` | `backend/main.py:95-135` | The endpoint as written: an invalid URL is rejected, an extraction gives the summary, a `ValueError` gives 400 with the message and its substring-chain type, and anything else gives 500 `server_error`. |
| `Api.InfoCorrectedOutcomes` | `backend/main.py:100-126` | Corrected: the handler with the word classifier differs from the one as written only in the type of a 400 reply, and not at all when every "age" in the message is a word. |
| `Api.InfoWebpageError` | `backend/main.py:100-126` | As written, "Unable to download webpage" reaches the client as 400 `age_restricted`. The corrected handler answers 400 `extraction_error`. |

## Left out

- The extractor (yt-dlp), the HTTP client (httpx), streaming, the logger and the clock are not modelled as code. What they return is a parameter: an `Extraction`, an `Upstream` outcome, or the `now` reading.
- `Api.RouteDownload`: `urllib.parse.unquote` is a function parameter, not a model of percent-decoding. `quote` itself is modelled.
- The merge pipeline after the id split, at `backend/main.py:363` onward: named pipes, yt-dlp and ffmpeg subprocesses, and stream resolution at `backend/main.py:301-346`. These are I/O. The model ends with the `MergeStream` reply.
- Exceptions raised inside `stream_ffmpeg_merge` after the id split, which the `except` at `backend/main.py:197` turns into a 400 reply, are not modelled. They come from subprocess and file-system I/O.
- The cookies endpoint, settings loading, CORS and the static frontend are outside the modelled core.
- The `InfoResponse` fields copied from the extractor with `or` fallbacks are not modelled: title, uploader, uploader_url, webpage_url, view_count, upload_date and extractor. Only the derived fields are.
- The executor timeout at `backend/services/downloader.py:390-401` and the extraction error wrapping at 285-301 and 382-387 are left out. They surface as the message of an `ExtractionFailed` outcome.
- `Models.DisplaySize`: the number is not rendered with one or two decimals, because that is floating-point formatting. The unit choice and the size it divides are modelled.
- `Text.Lower` and `Text.Upper` are ASCII only. They give the same keyword tests as Python's `str.lower()` on every message. Only two characters outside ASCII lower-case into ASCII letters. U+0130 becomes `i` followed by the combining dot U+0307, and no keyword ends in `i`, so the dot always breaks the match. U+212A becomes `k`, and no keyword contains `k`. For extensions, `upper()` of non-ASCII letters is not modelled.
- Python's `dict.get(k, default)` is modelled as a missing key giving the default. A key that is present but holds `None` is treated as missing. Where the source would then crash on `None.upper()`, the model uses the default.
- Floats (fps, tbr, abr, duration, timestamps) are Dafny `real`s. Rounding is not modelled.
- `RateLimit.RateLimiter.Dispatch`: `call_next` and the response body are not modelled. The gate records what is returned or added as headers.
- `Api.DownloadFilenameIsSafe` requires an extension without unsafe characters. The `ext` parameter is not sanitised by the source.
- `Api.DispositionNamesFile` requires an extension without `/`. `quote` leaves `/` unescaped, and `/` is not an RFC 5987 `attr-char`.
- A few behaviours of the code may differ from what a reader expects. The model follows the code:
  - Formats with neither codec are kept and labelled `Unknown EXT`; one might expect them to be dropped.
  - Dedup keeps the first format with a given label; one might expect it to keep the one with the larger size.
  - Audio quality is `<n>kbps`; one might expect a tier name such as High, Medium or Low.
  - The retry delay is `int(oldest - cutoff) + 1`; one might expect exactly the time left until the oldest entry leaves the window.
  - Content-Disposition uses `filename*=utf-8''`; one might expect a quoted `filename="..."`.

## Findings

| source | as written | input that shows it | evidently intended | confidence | as-written member | corrected member |
|---|---|---|---|---|---|---|
| `backend/main.py:209-216` | `client` is assigned at line 210, so it is local to `download_proxy`. Reading it at line 209 raises `UnboundLocalError`, which `except Exception` turns into a 500 reply. | `GET /api/download?url=https://example.com/v.mp4` answers 500 `server_error`, and nothing is fetched. | Use the shared client, or a fresh one, and stream the upstream response. | not executed | `Api.ProxyAsWrittenNeverFetches` (about `Api.DownloadProxyAsWritten`) | `Api.DownloadProxy`, with `Api.DownloadFetches` |
| `backend/main.py:107` | `"age" in lower_msg` matches any word that contains "age", such as "webpage", "page" or "usage". | The message `Unable to download webpage` is classified `age_restricted`. | Match "age" as a whole word, so the message falls through to `extraction_error`. | not executed | `Api.WebpageErrorMisclassified` (about `Api.ClassifyErrorAsWritten`), and `Api.InfoWebpageError` (about `Api.GetVideoInfo`) | `Api.ClassifyError`, with `Api.ClassifyErrorIsFirstMatch` and `Api.ClassifyAgreesOnWords`; `Api.GetVideoInfoCorrected`, with `Api.InfoCorrectedOutcomes` |
