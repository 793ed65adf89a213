/** The request and response records of the API: URL validation of an info
    request, and the size shown for a format. */
module Models {
  import opened Text

  /** One downloadable format as the API returns it. */
  datatype FormatInfo = FormatInfo(
    formatId: string,
    formatLabel: string,
    quality: string,
    extension: string,
    filesize: Option<int>,
    filesizeApprox: Option<int>,
    isAudio: bool,
    isVideoOnly: bool,
    hasVideo: bool,
    hasAudio: bool,
    height: Option<int>,
    width: Option<int>,
    fps: Option<real>,
    vcodec: Option<string>,
    acodec: Option<string>,
    tbr: Option<real>,
    abr: Option<real>,
    url: string)

  /** The derived class flags agree with the presence flags. */
  predicate FlagsConsistent(f: FormatInfo) {
    f.isAudio == (f.hasAudio && !f.hasVideo) && f.isVideoOnly == (f.hasVideo && !f.hasAudio)
  }

  /* ---------------------------------------------------------------------
     InfoRequest.url
     --------------------------------------------------------------------- */

  const MinUrlLength := 5
  const MaxUrlLength := 2048

  datatype UrlError = TooShort | TooLong | BadScheme | BadCharacters

  /** `^https?://` matched case-insensitively. */
  predicate HasHttpScheme(v: string) {
    StartsWithIgnoreCase(v, "http://") || StartsWithIgnoreCase(v, "https://")
  }

  predicate HasForbiddenChar(v: string) {
    '\n' in v || '\r' in v || '\0' in v
  }

  /** The field constraints (length of the raw value), then `validate_url`. */
  function ValidateUrl(raw: string): (r: Result<string, UrlError>)
    ensures r.Ok? <==> MinUrlLength <= |raw| <= MaxUrlLength
                       && HasHttpScheme(Strip(raw)) && !HasForbiddenChar(Strip(raw))
    ensures r.Ok? ==> r.value == Strip(raw)
    ensures r.Ok? ==> !HasForbiddenChar(r.value) && |r.value| >= 7
    ensures r.Ok? ==> r.value == [] || (!IsPySpace(r.value[0]) && !IsPySpace(r.value[|r.value| - 1]))
    ensures r == Err(TooShort) <==> |raw| < MinUrlLength
    ensures r == Err(TooLong) <==> |raw| > MaxUrlLength
    ensures r == Err(BadScheme) <==> MinUrlLength <= |raw| <= MaxUrlLength && !HasHttpScheme(Strip(raw))
    ensures r == Err(BadCharacters) <==> MinUrlLength <= |raw| <= MaxUrlLength
                                         && HasHttpScheme(Strip(raw)) && HasForbiddenChar(Strip(raw))
  {
    if |raw| < MinUrlLength then Err(TooShort)
    else if |raw| > MaxUrlLength then Err(TooLong)
    else
      var v := Strip(raw);
      if !HasHttpScheme(v) then Err(BadScheme)
      else if HasForbiddenChar(v) then Err(BadCharacters)
      else Ok(v)
  }

  /** A validated URL validates again to itself. */
  lemma ValidateUrlIdempotent(raw: string)
    requires ValidateUrl(raw).Ok?
    ensures ValidateUrl(ValidateUrl(raw).value) == ValidateUrl(raw)
  {
    StripByIdempotent(raw, IsPySpace);
  }

  /** Inner whitespace is never stripped: a line break inside the URL is
      rejected even though the edges are trimmed. */
  lemma NewlineInsideRejected(a: string, b: string)
    requires a != [] && b != [] && !IsPySpace(a[0]) && !IsPySpace(b[|b| - 1])
    ensures ValidateUrl(a + "\n" + b).Err?
  {
    var s := a + "\n" + b;
    assert LeadingCount(s, IsPySpace) == 0;
    assert TrailingCount(s[0..], IsPySpace) == 0;
    assert s[0..] == s;
    assert s[|a|] == '\n';
  }

  /* ---------------------------------------------------------------------
     FormatInfo.display_size (the unit choice; the rendering of the number
     with one or two decimals is not modelled)
     --------------------------------------------------------------------- */

  datatype SizeUnit = B | KB | MB | GB

  function Scale(u: SizeUnit): int {
    match u
    case B => 1
    case KB => 1024
    case MB => 1024 * 1024
    case GB => 1024 * 1024 * 1024
  }

  datatype SizeDisplay = NoSize | Shown(size: int, unit: SizeUnit)

  /** `self.filesize or self.filesize_approx`: a zero exact size counts as
      missing. */
  function ChosenSize(f: FormatInfo): (s: Option<int>)
    ensures f.filesize.Some? && f.filesize.value != 0 ==> s == f.filesize
    ensures f.filesize.None? || f.filesize.value == 0 ==> s == f.filesizeApprox
  {
    if f.filesize.Some? && f.filesize.value != 0 then f.filesize else f.filesizeApprox
  }

  /** The size shown is the chosen size, in the largest unit whose scale does
      not exceed it (bytes for anything below one KiB, gigabytes at most). */
  function DisplaySize(f: FormatInfo): (d: SizeDisplay)
    ensures d.NoSize? <==> ChosenSize(f).None?
    ensures d.Shown? ==> d.size == ChosenSize(f).value
    ensures d.Shown? && d.unit != B ==> Scale(d.unit) <= d.size
    ensures d.Shown? && d.unit != GB ==> d.size < 1024 * Scale(d.unit)
  {
    match ChosenSize(f)
    case None => NoSize
    case Some(size) =>
      if size < 1024 then Shown(size, B)
      else if size < 1024 * 1024 then Shown(size, KB)
      else if size < 1024 * 1024 * 1024 then Shown(size, MB)
      else Shown(size, GB)
  }

  /** The unit is determined by the two bounds alone. */
  lemma DisplayUnitUnique(f: FormatInfo, u: SizeUnit)
    requires DisplaySize(f).Shown?
    requires var n := DisplaySize(f).size;
             (u != B ==> Scale(u) <= n) && (u != GB ==> n < 1024 * Scale(u))
    ensures DisplaySize(f).unit == u
  {
  }
}
