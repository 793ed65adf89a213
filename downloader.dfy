/** Normalisation and ranking of the formats an extractor reports for one
    video: labels, filtering, de-duplication, ordering, the synthetic
    "best" and MP3 entries, and the duration string. */
module Downloader {
  import opened Text
  import opened Models

  /* ---------------------------------------------------------------------
     _format_duration
     --------------------------------------------------------------------- */

  /** Seconds as `H:MM:SS`, or `M:SS` below one hour; empty when unknown or
      negative. */
  function FormatDuration(seconds: Option<int>): (r: string)
    ensures r == "" <==> seconds.None? || seconds.value < 0
  {
    if seconds.None? || seconds.value < 0 then ""
    else
      var n := seconds.value;
      var hours := n / 3600;
      var minutes := (n % 3600) / 60;
      var secs := n % 60;
      if hours > 0 then NatToString(hours) + ":" + TwoDigits(minutes) + ":" + TwoDigits(secs)
      else NatToString(minutes) + ":" + TwoDigits(secs)
  }

  lemma ClockArithmetic(n: nat)
    ensures n % 3600 / 60 < 60 && n % 60 < 60
    ensures 3600 * (n / 3600) + 60 * (n % 3600 / 60) + n % 60 == n
  {
    var q := n / 3600;
    var r := n % 3600;
    var a := r / 60;
    var b := r % 60;
    assert n == 3600 * q + r;
    assert r == 60 * a + b;
    assert n == 60 * (60 * q + a) + b;
    assert n % 60 == b;
  }

  /** How a rendered duration of an hour or more splits at its colons. */
  lemma DurationPartsLong(n: nat)
    requires n >= 3600
    ensures Split(FormatDuration(Some(n)), ':')
            == [NatToString(n / 3600), TwoDigits(n % 3600 / 60), TwoDigits(n % 60)]
  {
    var h := NatToString(n / 3600);
    var m := TwoDigits(n % 3600 / 60);
    var s := TwoDigits(n % 60);
    DigitsOnly(h, ':');
    DigitsOnly(m, ':');
    DigitsOnly(s, ':');
    assert n / 3600 > 0;
    assert FormatDuration(Some(n)) == h + ":" + m + ":" + s;
    assert h + ":" + m + ":" + s == h + [':'] + (m + [':'] + s);
    SplitNone(s, ':');
    SplitCons(m, s, ':');
    SplitCons(h, m + [':'] + s, ':');
  }

  /** How a rendered duration below an hour splits at its colon. */
  lemma DurationPartsShort(n: nat)
    requires n < 3600
    ensures Split(FormatDuration(Some(n)), ':') == [NatToString(n % 3600 / 60), TwoDigits(n % 60)]
  {
    var m := NatToString(n % 3600 / 60);
    var s := TwoDigits(n % 60);
    DigitsOnly(m, ':');
    DigitsOnly(s, ':');
    assert n / 3600 == 0;
    assert FormatDuration(Some(n)) == m + ":" + s;
    SplitNone(s, ':');
    SplitCons(m, s, ':');
  }

  /** How a rendered duration splits at its colons. */
  lemma DurationParts(n: nat)
    ensures n >= 3600 ==>
              Split(FormatDuration(Some(n)), ':')
              == [NatToString(n / 3600), TwoDigits(n % 3600 / 60), TwoDigits(n % 60)]
    ensures n < 3600 ==>
              Split(FormatDuration(Some(n)), ':') == [NatToString(n % 3600 / 60), TwoDigits(n % 60)]
  {
    if n >= 3600 {
      DurationPartsLong(n);
    } else {
      DurationPartsShort(n);
    }
  }

  /** The fields of a rendered duration, read back: minutes and seconds are
      below 60, an hours field appears exactly from one hour on and is then
      positive, and the fields add up to the input. */
  lemma DurationFields(n: nat)
    ensures var parts := Split(FormatDuration(Some(n)), ':');
      (|parts| == 3 <==> n >= 3600) && (|parts| == 2 <==> n < 3600)
      && (|parts| == 3 ==>
            ParseNat(parts[0]).Some? && ParseNat(parts[1]).Some? && ParseNat(parts[2]).Some?
            && ParseNat(parts[0]).value > 0
            && ParseNat(parts[1]).value < 60 && ParseNat(parts[2]).value < 60
            && 3600 * ParseNat(parts[0]).value + 60 * ParseNat(parts[1]).value
               + ParseNat(parts[2]).value == n)
      && (|parts| == 2 ==>
            ParseNat(parts[0]).Some? && ParseNat(parts[1]).Some?
            && ParseNat(parts[0]).value < 60 && ParseNat(parts[1]).value < 60
            && 60 * ParseNat(parts[0]).value + ParseNat(parts[1]).value == n)
  {
    ClockArithmetic(n);
    DurationParts(n);
    ParseTwoDigits(n % 60);
    if n >= 3600 {
      ParseNatToString(n / 3600);
      ParseTwoDigits(n % 3600 / 60);
    } else {
      ParseNatToString(n % 3600 / 60);
      assert n / 3600 == 0;
    }
  }

  /* ---------------------------------------------------------------------
     Raw extractor entries
     --------------------------------------------------------------------- */

  /** One entry of the extractor's `formats` list; `None` is a missing key. */
  datatype RawFormat = RawFormat(
    formatId: Option<string>,
    url: Option<string>,
    manifestUrl: Option<string>,
    protocol: Option<string>,
    ext: Option<string>,
    vcodec: Option<string>,
    acodec: Option<string>,
    height: Option<int>,
    width: Option<int>,
    fps: Option<real>,
    tbr: Option<real>,
    abr: Option<real>,
    filesize: Option<int>,
    filesizeApprox: Option<int>)

  /** `a or b` for an optional string: a missing or empty value falls back. */
  function OrElse(a: Option<string>, b: string): (r: string)
    ensures a.Some? && a.value != "" ==> r == a.value
    ensures a.None? || a.value == "" ==> r == b
  {
    if a.Some? && a.value != "" then a.value else b
  }

  /** A number is truthy when present and non-zero. */
  predicate Truthy(x: Option<real>) {
    x.Some? && x.value != 0.0
  }

  function Codec(c: Option<string>): string {
    OrElse(c, "none")
  }

  function Ext(f: RawFormat): string {
    if f.ext.Some? then f.ext.value else "mp4"
  }

  function Protocol(f: RawFormat): string {
    if f.protocol.Some? then f.protocol.value else ""
  }

  function FormatUrl(f: RawFormat): string {
    OrElse(f.url, OrElse(f.manifestUrl, ""))
  }

  predicate HasVideo(f: RawFormat) {
    Codec(f.vcodec) != "none"
  }

  predicate HasAudio(f: RawFormat) {
    Codec(f.acodec) != "none"
  }

  /** Video whose height is known: the quality label names a resolution. */
  predicate VideoKnown(f: RawFormat) {
    HasVideo(f) && f.height.Some?
  }

  /* ---------------------------------------------------------------------
     _get_quality_label
     --------------------------------------------------------------------- */

  /** The resolution breakpoints, highest first. */
  const StandardHeights: seq<int> := [2160, 1440, 1080, 720, 480, 360, 240, 144]

  /** The first entry of `hs` not above `h`. */
  function FirstAtMost(hs: seq<int>, h: int): (r: Option<int>)
    ensures r.Some? ==> r.value in hs && r.value <= h
    ensures r.None? <==> forall k :: 0 <= k < |hs| ==> hs[k] > h
  {
    if hs == [] then None else if hs[0] <= h then Some(hs[0]) else FirstAtMost(hs[1..], h)
  }

  predicate Descending(hs: seq<int>) {
    forall i, j :: 0 <= i < j < |hs| ==> hs[i] > hs[j]
  }

  /** In a descending table the first entry not above `h` is the greatest such. */
  lemma {:induction false} FirstAtMostIsGreatest(hs: seq<int>, h: int)
    requires Descending(hs)
    ensures FirstAtMost(hs, h).Some? ==>
              forall k :: 0 <= k < |hs| && hs[k] <= h ==> hs[k] <= FirstAtMost(hs, h).value
  {
    if hs != [] && hs[0] > h {
      FirstAtMostIsGreatest(hs[1..], h);
      assert forall k :: 1 <= k < |hs| ==> hs[k] == hs[1..][k - 1];
    }
  }

  /** The resolution part of a video quality label. */
  function HeightLabel(h: int): string {
    if h >= 2160 then "4K"
    else if h >= 1440 then "1440p"
    else if h >= 1080 then "1080p"
    else if h >= 720 then "720p"
    else if h >= 480 then "480p"
    else if h >= 360 then "360p"
    else if h >= 240 then "240p"
    else if h >= 144 then "144p"
    else IntToString(h) + "p"
  }

  /** The breakpoint at or below `h`, as the `elif` chain picks it. */
  function NominalHeight(h: int): Option<int> {
    if h >= 2160 then Some(2160) else if h >= 1440 then Some(1440)
    else if h >= 1080 then Some(1080) else if h >= 720 then Some(720)
    else if h >= 480 then Some(480) else if h >= 360 then Some(360)
    else if h >= 240 then Some(240) else if h >= 144 then Some(144) else None
  }

  lemma UpperHeightNames()
    ensures IntToString(1440) + "p" == "1440p" && IntToString(1080) + "p" == "1080p"
    ensures IntToString(720) + "p" == "720p"
  {
    NatToStringFour(1440);
    NatToStringFour(1080);
    NatToStringThree(720);
  }

  lemma LowerHeightNames()
    ensures IntToString(480) + "p" == "480p" && IntToString(360) + "p" == "360p"
    ensures IntToString(240) + "p" == "240p" && IntToString(144) + "p" == "144p"
  {
    NatToStringThree(480);
    NatToStringThree(360);
    NatToStringThree(240);
    NatToStringThree(144);
  }

  /** Between the lowest and the highest breakpoint the label is the
      breakpoint's number followed by `p`. */
  lemma HeightLabelOfTable(h: int)
    requires 144 <= h < 2160
    ensures NominalHeight(h).Some?
    ensures HeightLabel(h) == IntToString(NominalHeight(h).value) + "p"
  {
    if h >= 720 {
      UpperHeightNames();
    } else {
      LowerHeightNames();
    }
  }

  /** A known height is shown as the greatest standard height not above it
      ("4K" for 2160), and one below every breakpoint as itself. */
  lemma HeightLabelIsNominal(h: int)
    ensures FirstAtMost(StandardHeights, h) == Some(2160) ==> HeightLabel(h) == "4K"
    ensures FirstAtMost(StandardHeights, h).Some? && FirstAtMost(StandardHeights, h) != Some(2160) ==>
              HeightLabel(h) == IntToString(FirstAtMost(StandardHeights, h).value) + "p"
    ensures FirstAtMost(StandardHeights, h).Some? ==>
              forall k :: 0 <= k < |StandardHeights| && StandardHeights[k] <= h ==>
                StandardHeights[k] <= FirstAtMost(StandardHeights, h).value
    ensures FirstAtMost(StandardHeights, h).None? ==> h < 144 && HeightLabel(h) == IntToString(h) + "p"
  {
    StandardHeightsDescending();
    FirstAtMostIsGreatest(StandardHeights, h);
    StandardTable(h);
    if 144 <= h < 2160 {
      HeightLabelOfTable(h);
    }
  }

  lemma StandardHeightsDescending()
    ensures Descending(StandardHeights)
  {
  }

  lemma StandardTable(h: int)
    ensures FirstAtMost(StandardHeights, h) == NominalHeight(h)
  {
    var t8: seq<int> := [];
    var t7 := [144] + t8;
    var t6 := [240] + t7;
    var t5 := [360] + t6;
    var t4 := [480] + t5;
    var t3 := [720] + t4;
    var t2 := [1080] + t3;
    var t1 := [1440] + t2;
    var t0 := [2160] + t1;
    assert t0 == StandardHeights;
    assert FirstAtMost(t7, h) == if h >= 144 then Some(144) else FirstAtMost(t8, h);
    assert FirstAtMost(t6, h) == if h >= 240 then Some(240) else FirstAtMost(t7, h);
    assert FirstAtMost(t5, h) == if h >= 360 then Some(360) else FirstAtMost(t6, h);
    assert FirstAtMost(t4, h) == if h >= 480 then Some(480) else FirstAtMost(t5, h);
    assert FirstAtMost(t3, h) == if h >= 720 then Some(720) else FirstAtMost(t4, h);
    assert FirstAtMost(t2, h) == if h >= 1080 then Some(1080) else FirstAtMost(t3, h);
    assert FirstAtMost(t1, h) == if h >= 1440 then Some(1440) else FirstAtMost(t2, h);
    assert FirstAtMost(t0, h) == if h >= 2160 then Some(2160) else FirstAtMost(t1, h);
  }

  /** The frame-rate suffix, present only above 30 fps. */
  function FpsSuffix(fps: Option<real>): string {
    if fps.Some? && fps.value > 30.0 then " " + IntToString(Trunc(fps.value)) + "fps" else ""
  }

  /** `abr or tbr`, the bitrate an audio quality label shows. */
  function LabelBitrate(f: RawFormat): Option<real> {
    if Truthy(f.abr) then f.abr else if Truthy(f.tbr) then f.tbr else None
  }

  function QualityLabel(f: RawFormat): string {
    if VideoKnown(f) then HeightLabel(f.height.value) + FpsSuffix(f.fps)
    else if HasAudio(f) then
      if Truthy(f.abr) then IntToString(Trunc(f.abr.value)) + "kbps"
      else if Truthy(f.tbr) then IntToString(Trunc(f.tbr.value)) + "kbps"
      else "Audio"
    else "Unknown"
  }

  /** Where the parts of `prefix + " " + digits + "fps"` lie. */
  lemma FpsTextParts(prefix: string, digits: string)
    ensures var q := prefix + " " + digits + "fps";
      |q| == |prefix| + |digits| + 4 && q[..|prefix|] == prefix
      && q[|q| - 3..] == "fps" && q[|prefix| + 1..|q| - 3] == digits
  {
  }

  /** A label followed by the frame-rate suffix starts with the label, gains
      the suffix exactly when the rate exceeds 30, and the suffix's number
      reads back as `int(fps)`. */
  lemma FpsSuffixReadsBack(prefix: string, fps: Option<real>)
    ensures var q := prefix + FpsSuffix(fps);
      StartsWith(q, prefix)
      && (q == prefix <==> !(fps.Some? && fps.value > 30.0))
      && (q != prefix ==>
            |q| >= |prefix| + 4 && EndsWith(q, "fps")
            && ParseNat(q[|prefix| + 1..|q| - 3]) == Some(Trunc(fps.value)))
  {
    if fps.Some? && fps.value > 30.0 {
      var t := Trunc(fps.value);
      var digits := NatToString(t);
      assert FpsSuffix(fps) == " " + digits + "fps";
      assert prefix + FpsSuffix(fps) == prefix + " " + digits + "fps";
      FpsTextParts(prefix, digits);
      ParseNatToString(t);
    } else {
      assert prefix + FpsSuffix(fps) == prefix;
    }
  }

  /** A video quality label is the resolution, followed by the frame rate
      exactly when it exceeds 30, whose number reads back as `int(fps)`. */
  lemma VideoQuality(f: RawFormat)
    requires VideoKnown(f)
    ensures var q := QualityLabel(f); var hl := HeightLabel(f.height.value);
      StartsWith(q, hl)
      && (q == hl <==> !(f.fps.Some? && f.fps.value > 30.0))
      && (q != hl ==> |q| >= |hl| + 4 && EndsWith(q, "fps")
                      && ParseNat(q[|hl| + 1..|q| - 3]) == Some(Trunc(f.fps.value)))
  {
    assert QualityLabel(f) == HeightLabel(f.height.value) + FpsSuffix(f.fps);
    FpsSuffixReadsBack(HeightLabel(f.height.value), f.fps);
  }

  /** An audio quality label is "Audio" exactly when no bitrate is known,
      and otherwise reads back as `int(abr)`, else `int(tbr)`, in kbps. */
  lemma AudioQuality(f: RawFormat)
    requires !VideoKnown(f) && HasAudio(f)
    ensures var q := QualityLabel(f);
      (q == "Audio" <==> LabelBitrate(f).None?)
      && (LabelBitrate(f).Some? ==> EndsWith(q, "kbps"))
      && (LabelBitrate(f).Some? && LabelBitrate(f).value >= 0.0 ==>
            ParseNat(q[..|q| - 4]) == Some(Trunc(LabelBitrate(f).value)))
  {
    var q := QualityLabel(f);
    if LabelBitrate(f).Some? {
      var b := LabelBitrate(f).value;
      assert q == IntToString(Trunc(b)) + "kbps";
      assert q[..|q| - 4] == IntToString(Trunc(b));
      if b >= 0.0 {
        ParseNatToString(Trunc(b));
      }
      assert q[|q| - 2] == 'p';
    }
  }

  /** With neither stream the quality is "Unknown". */
  lemma UnknownQuality(f: RawFormat)
    requires !HasVideo(f) && !HasAudio(f)
    ensures QualityLabel(f) == "Unknown"
  {
  }

  /* ---------------------------------------------------------------------
     _build_format_label
     --------------------------------------------------------------------- */

  datatype Kind = Merged | VideoOnly | AudioOnly | Neither

  function KindOf(f: RawFormat): Kind {
    if HasVideo(f) && HasAudio(f) then Merged
    else if HasVideo(f) then VideoOnly
    else if HasAudio(f) then AudioOnly
    else Neither
  }

  const MergedSuffix := " (Video + Audio)"
  const VideoOnlySuffix := " (Video Only)"

  function FormatLabel(f: RawFormat): string {
    var quality := QualityLabel(f);
    var ext := UpperStr(Ext(f));
    match KindOf(f)
    case Merged => quality + " " + ext + MergedSuffix
    case VideoOnly => quality + " " + ext + VideoOnlySuffix
    case AudioOnly => "Audio " + ext + " (" + quality + ")"
    case Neither => quality + " " + ext
  }

  /** Reads the kind back from a text. */
  function LabelKind(text: string): Kind {
    if EndsWith(text, MergedSuffix) then Merged
    else if EndsWith(text, VideoOnlySuffix) then VideoOnly
    else if StartsWith(text, "Audio ") && EndsWith(text, ")") then AudioOnly
    else Neither
  }

  lemma UpperHasNoLower(s: string)
    ensures forall k :: 0 <= k < |UpperStr(s)| ==> !IsAsciiLower(UpperStr(s)[k])
  {
  }

  lemma MergedLabelKind(quality: string, ext: string)
    ensures LabelKind(quality + " " + ext + MergedSuffix) == Merged
  {
    var text := quality + " " + ext + MergedSuffix;
    assert text[|text| - |MergedSuffix|..] == MergedSuffix;
  }

  lemma VideoOnlyLabelKind(quality: string, ext: string)
    ensures LabelKind(quality + " " + ext + VideoOnlySuffix) == VideoOnly
  {
    var text := quality + " " + ext + VideoOnlySuffix;
    var n := |text|;
    assert text[n - |VideoOnlySuffix|..] == VideoOnlySuffix;
    assert text[n - 2] == 'y' != MergedSuffix[|MergedSuffix| - 2];
  }

  /** An audio label ends in `(Audio)` or in an `s` before the parenthesis,
      which neither video suffix does. */
  lemma AudioLabelKind(ext: string, quality: string)
    requires quality == "Audio" || (quality != "" && quality[|quality| - 1] == 's')
    ensures LabelKind("Audio " + ext + " (" + quality + ")") == AudioOnly
  {
    var text := "Audio " + ext + " (" + quality + ")";
    var n := |text|;
    assert text[..6] == "Audio ";
    assert text[n - 1..] == ")";
    assert text[n - 2] == quality[|quality| - 1];
    assert text[n - 2] != VideoOnlySuffix[|VideoOnlySuffix| - 2];
    if quality == "Audio" {
      assert text[n - 7] == '(' != MergedSuffix[|MergedSuffix| - 7];
    } else {
      assert text[n - 2] != MergedSuffix[|MergedSuffix| - 2];
    }
  }

  /** With neither stream the label is `Unknown <EXT>`; an upper-cased
      extension cannot end in either video suffix. */
  lemma NeitherLabelKind(ext: string)
    requires forall k :: 0 <= k < |ext| ==> !IsAsciiLower(ext[k])
    ensures LabelKind("Unknown " + ext) == Neither
  {
    var text := "Unknown " + ext;
    var n := |text|;
    assert text[0] == 'U';
    if |ext| >= 2 {
      assert text[n - 2] == ext[|ext| - 2];
    } else {
      assert text[n - 2] == ' ' || text[n - 2] == 'n';
    }
    assert text[n - 2] != MergedSuffix[|MergedSuffix| - 2];
    assert text[n - 2] != VideoOnlySuffix[|VideoOnlySuffix| - 2];
  }

  /** The label of a format with an audio stream and no video stream has the
      audio shape. */
  lemma AudioFormatLabelKind(f: RawFormat)
    requires KindOf(f) == AudioOnly
    ensures LabelKind(FormatLabel(f)) == AudioOnly
  {
    var quality := QualityLabel(f);
    AudioQuality(f);
    if quality != "Audio" {
      assert quality[|quality| - 4..] == "kbps";
    }
    assert FormatLabel(f) == "Audio " + UpperStr(Ext(f)) + " (" + quality + ")";
    AudioLabelKind(UpperStr(Ext(f)), quality);
  }

  /** The label of a format with neither stream has the `Unknown` shape. */
  lemma NeitherFormatLabelKind(f: RawFormat)
    requires KindOf(f) == Neither
    ensures LabelKind(FormatLabel(f)) == Neither
  {
    UnknownQuality(f);
    UpperHasNoLower(Ext(f));
    assert FormatLabel(f) == "Unknown" + " " + UpperStr(Ext(f));
    assert "Unknown" + " " + UpperStr(Ext(f)) == "Unknown " + UpperStr(Ext(f));
    NeitherLabelKind(UpperStr(Ext(f)));
  }

  /** The label tells the stream kind apart: different kinds never share a
      text, so de-duplication never merges entries of different kinds. */
  lemma LabelDeterminesKind(f: RawFormat)
    ensures LabelKind(FormatLabel(f)) == KindOf(f)
  {
    match KindOf(f)
    case Merged =>
      MergedLabelKind(QualityLabel(f), UpperStr(Ext(f)));
    case VideoOnly =>
      VideoOnlyLabelKind(QualityLabel(f), UpperStr(Ext(f)));
    case AudioOnly =>
      AudioFormatLabelKind(f);
    case Neither =>
      NeitherFormatLabelKind(f);
  }

  /* ---------------------------------------------------------------------
     _extract_formats: filter, de-duplicate, convert
     --------------------------------------------------------------------- */

  /** Manifest protocols that are skipped (`m3u8_native` is kept). */
  predicate DroppedProtocol(p: string) {
    p == "m3u8" || p == "f4m" || p == "f4f" || p == "ism"
  }

  /** The entries that survive the filters: a direct or manifest URL, no
      skipped protocol, not an `mhtml`/`json` container, no storyboard
      codec. */
  predicate Admissible(f: RawFormat) {
    FormatUrl(f) != ""
    && !DroppedProtocol(Protocol(f))
    && Ext(f) != "mhtml" && Ext(f) != "json"
    && !Contains(LowerStr(Codec(f.vcodec)), "storyboard")
  }

  function DedupKey(f: RawFormat): string {
    FormatLabel(f) + "_" + Ext(f)
  }

  /** The key of an output entry, read from its own fields. */
  function InfoKey(x: FormatInfo): string {
    x.formatLabel + "_" + x.extension
  }

  /** The kind of an output entry, read from its presence flags. */
  function InfoKind(x: FormatInfo): Kind {
    if x.hasVideo && x.hasAudio then Merged
    else if x.hasVideo then VideoOnly
    else if x.hasAudio then AudioOnly
    else Neither
  }

  /** The output entry built from a raw one. */
  function ToFormatInfo(f: RawFormat): FormatInfo {
    var vcodec := Codec(f.vcodec);
    var acodec := Codec(f.acodec);
    var hasVideo := vcodec != "none";
    var hasAudio := acodec != "none";
    FormatInfo(
      formatId := if f.formatId.Some? then f.formatId.value else "",
      formatLabel := FormatLabel(f),
      quality := QualityLabel(f),
      extension := Ext(f),
      filesize := f.filesize,
      filesizeApprox := f.filesizeApprox,
      isAudio := hasAudio && !hasVideo,
      isVideoOnly := hasVideo && !hasAudio,
      hasVideo := hasVideo,
      hasAudio := hasAudio,
      height := f.height,
      width := f.width,
      fps := f.fps,
      vcodec := if vcodec != "none" then Some(vcodec) else None,
      acodec := if acodec != "none" then Some(acodec) else None,
      tbr := f.tbr,
      abr := f.abr,
      url := FormatUrl(f))
  }

  /** The output entry carries consistent flags, keeps the URL, and its own
      label and extension reproduce the de-duplication key. */
  lemma ToFormatInfoShape(f: RawFormat)
    ensures var x := ToFormatInfo(f);
      FlagsConsistent(x) && !(x.isAudio && x.isVideoOnly)
      && (x.hasVideo <==> x.vcodec.Some?) && (x.hasAudio <==> x.acodec.Some?)
      && InfoKey(x) == DedupKey(f) && InfoKind(x) == KindOf(f)
      && x.url == FormatUrl(f)
  {
  }

  /** The loop of `_extract_formats` before sorting, for any filter, key and
      conversion: entries that pass `keep` and whose key is not in `seen` are
      converted, in input order, and their key becomes seen. */
  function Dedup(raw: seq<RawFormat>, seen: set<string>, keep: RawFormat -> bool,
                 key: RawFormat -> string, conv: RawFormat -> FormatInfo): seq<FormatInfo>
    decreases |raw|
  {
    if raw == [] then []
    else if !keep(raw[0]) || key(raw[0]) in seen then Dedup(raw[1..], seen, keep, key, conv)
    else [conv(raw[0])] + Dedup(raw[1..], seen + {key(raw[0])}, keep, key, conv)
  }

  /** Keys of the entries of `p` that pass `keep`. */
  function KeptKeys(p: seq<RawFormat>, keep: RawFormat -> bool, key: RawFormat -> string): set<string> {
    set k | 0 <= k < |p| && keep(p[k]) :: key(p[k])
  }

  /** Entry `i` is the first entry passing `keep` with its key. */
  predicate FirstOfKey(raw: seq<RawFormat>, i: nat, keep: RawFormat -> bool, key: RawFormat -> string)
    requires i < |raw|
  {
    keep(raw[i]) && key(raw[i]) !in KeptKeys(raw[..i], keep, key)
  }

  /** Reference definition: in input order, the conversion of every entry
      that is the first one passing `keep` with its key. */
  function FirstOfEach(raw: seq<RawFormat>, keep: RawFormat -> bool, key: RawFormat -> string,
                       conv: RawFormat -> FormatInfo): seq<FormatInfo>
  {
    if raw == [] then []
    else FirstOfEach(raw[..|raw| - 1], keep, key, conv)
         + (if FirstOfKey(raw, |raw| - 1, keep, key) then [conv(raw[|raw| - 1])] else [])
  }

  lemma KeptKeysSnoc(p: seq<RawFormat>, f: RawFormat, keep: RawFormat -> bool, key: RawFormat -> string)
    ensures KeptKeys(p + [f], keep, key) == KeptKeys(p, keep, key) + (if keep(f) then {key(f)} else {})
  {
    var q := p + [f];
    assert forall k :: 0 <= k < |p| ==> q[k] == p[k];
    assert q[|p|] == f;
  }

  lemma {:induction false} DedupFromPrefix(p: seq<RawFormat>, s: seq<RawFormat>, keep: RawFormat -> bool,
                                           key: RawFormat -> string, conv: RawFormat -> FormatInfo)
    ensures FirstOfEach(p + s, keep, key, conv)
            == FirstOfEach(p, keep, key, conv) + Dedup(s, KeptKeys(p, keep, key), keep, key, conv)
    decreases |s|
  {
    if s == [] {
      assert p + s == p;
    } else {
      var f := s[0];
      var p' := p + [f];
      assert p + s == p' + s[1..];
      DedupFromPrefix(p', s[1..], keep, key, conv);
      KeptKeysSnoc(p, f, keep, key);
      assert p'[..|p'| - 1] == p && p'[..|p|] == p;
      var e := if FirstOfKey(p', |p|, keep, key) then [conv(f)] else [];
      var rest := Dedup(s[1..], KeptKeys(p', keep, key), keep, key, conv);
      assert FirstOfEach(p', keep, key, conv) == FirstOfEach(p, keep, key, conv) + e;
      assert Dedup(s, KeptKeys(p, keep, key), keep, key, conv) == e + rest by {
        if keep(f) && key(f) !in KeptKeys(p, keep, key) {
          assert KeptKeys(p', keep, key) == KeptKeys(p, keep, key) + {key(f)};
        } else {
          assert KeptKeys(p', keep, key) == KeptKeys(p, keep, key);
        }
      }
      ConcatAssoc(FirstOfEach(p, keep, key, conv), e, rest);
    }
  }

  /** The loop keeps, in input order, the first entry of each key. */
  lemma DedupIsFirstOfEach(raw: seq<RawFormat>, keep: RawFormat -> bool, key: RawFormat -> string,
                           conv: RawFormat -> FormatInfo)
    ensures Dedup(raw, {}, keep, key, conv) == FirstOfEach(raw, keep, key, conv)
  {
    DedupFromPrefix([], raw, keep, key, conv);
    assert [] + raw == raw;
    assert KeptKeys([], keep, key) == {};
  }

  /** Kept keys are new and pairwise distinct, when the conversion keeps the key. */
  lemma {:induction false} DedupDistinct(raw: seq<RawFormat>, seen: set<string>, keep: RawFormat -> bool,
                                         key: RawFormat -> string, conv: RawFormat -> FormatInfo)
    requires forall f :: InfoKey(conv(f)) == key(f)
    ensures forall j :: 0 <= j < |Dedup(raw, seen, keep, key, conv)| ==>
              InfoKey(Dedup(raw, seen, keep, key, conv)[j]) !in seen
    ensures forall i, j :: 0 <= i < j < |Dedup(raw, seen, keep, key, conv)| ==>
              InfoKey(Dedup(raw, seen, keep, key, conv)[i]) != InfoKey(Dedup(raw, seen, keep, key, conv)[j])
    decreases |raw|
  {
    if raw != [] {
      var f := raw[0];
      if !keep(f) || key(f) in seen {
        DedupDistinct(raw[1..], seen, keep, key, conv);
        var rest := Dedup(raw[1..], seen, keep, key, conv);
        var out := Dedup(raw, seen, keep, key, conv);
        assert out == rest;
        forall j | 0 <= j < |out| ensures InfoKey(out[j]) !in seen {
          assert out[j] == rest[j];
        }
      } else {
        var seen' := seen + {key(f)};
        DedupDistinct(raw[1..], seen', keep, key, conv);
        var rest := Dedup(raw[1..], seen', keep, key, conv);
        var out := Dedup(raw, seen, keep, key, conv);
        assert out == [conv(f)] + rest;
        assert InfoKey(out[0]) == key(f);
        forall j | 0 <= j < |out| ensures InfoKey(out[j]) !in seen {
          if j > 0 {
            assert out[j] == rest[j - 1];
          }
        }
        assert forall j :: 1 <= j < |out| ==> out[j] == rest[j - 1];
      }
    }
  }

  /** `x` is the conversion of an entry of `raw` that passes `keep`. */
  predicate FromInput(x: FormatInfo, raw: seq<RawFormat>, keep: RawFormat -> bool, conv: RawFormat -> FormatInfo) {
    exists i :: 0 <= i < |raw| && keep(raw[i]) && x == conv(raw[i])
  }

  /** Every kept entry is the conversion of an input entry passing `keep`. */
  lemma {:induction false} DedupOrigin(raw: seq<RawFormat>, seen: set<string>, keep: RawFormat -> bool,
                                       key: RawFormat -> string, conv: RawFormat -> FormatInfo)
    ensures forall j :: 0 <= j < |Dedup(raw, seen, keep, key, conv)| ==>
              FromInput(Dedup(raw, seen, keep, key, conv)[j], raw, keep, conv)
    decreases |raw|
  {
    if raw != [] {
      var f := raw[0];
      var skip := !keep(f) || key(f) in seen;
      var seen' := if skip then seen else seen + {key(f)};
      DedupOrigin(raw[1..], seen', keep, key, conv);
      var tail := raw[1..];
      var rest := Dedup(tail, seen', keep, key, conv);
      var out := Dedup(raw, seen, keep, key, conv);
      assert out == (if skip then [] else [conv(f)]) + rest;
      forall j | 0 <= j < |out|
        ensures FromInput(out[j], raw, keep, conv)
      {
        if skip || j > 0 {
          var j' := if skip then j else j - 1;
          assert out[j] == rest[j'];
          assert FromInput(rest[j'], tail, keep, conv);
          var i :| 0 <= i < |tail| && keep(tail[i]) && rest[j'] == conv(tail[i]);
          assert tail[i] == raw[i + 1];
        } else {
          assert out[0] == conv(raw[0]);
        }
      }
    }
  }

  /** Every entry passing `keep` has its key among the kept keys. */
  lemma {:induction false} DedupCovers(raw: seq<RawFormat>, seen: set<string>, keep: RawFormat -> bool,
                                       key: RawFormat -> string, conv: RawFormat -> FormatInfo, i: nat)
    requires forall f :: InfoKey(conv(f)) == key(f)
    requires i < |raw| && keep(raw[i]) && key(raw[i]) !in seen
    ensures exists j :: 0 <= j < |Dedup(raw, seen, keep, key, conv)|
                        && InfoKey(Dedup(raw, seen, keep, key, conv)[j]) == key(raw[i])
    decreases |raw|
  {
    var g := raw[0];
    var tail := raw[1..];
    if keep(g) && key(g) !in seen {
      var seen' := seen + {key(g)};
      var rest := Dedup(tail, seen', keep, key, conv);
      var out := Dedup(raw, seen, keep, key, conv);
      assert out == [conv(g)] + rest;
      assert InfoKey(out[0]) == key(g);
      if key(g) != key(raw[i]) {
        assert i > 0 && tail[i - 1] == raw[i];
        DedupCovers(tail, seen', keep, key, conv, i - 1);
        var j :| 0 <= j < |rest| && InfoKey(rest[j]) == key(raw[i]);
        assert out[j + 1] == rest[j];
      }
    } else {
      assert Dedup(raw, seen, keep, key, conv) == Dedup(tail, seen, keep, key, conv);
      assert i > 0 && tail[i - 1] == raw[i];
      DedupCovers(tail, seen, keep, key, conv, i - 1);
    }
  }

  /** `_extract_formats`' selection, before sorting. */
  function Selected(raw: seq<RawFormat>): seq<FormatInfo> {
    Dedup(raw, {}, Admissible, DedupKey, ToFormatInfo)
  }

  lemma ConversionKeepsKey()
    ensures forall f :: InfoKey(ToFormatInfo(f)) == DedupKey(f)
  {
    forall f ensures InfoKey(ToFormatInfo(f)) == DedupKey(f) {
      ToFormatInfoShape(f);
    }
  }

  /** The selection keeps the first admissible entry of every key, in input order. */
  lemma SelectedIsFirstOfEach(raw: seq<RawFormat>)
    ensures Selected(raw) == FirstOfEach(raw, Admissible, DedupKey, ToFormatInfo)
  {
    DedupIsFirstOfEach(raw, Admissible, DedupKey, ToFormatInfo);
  }

  /** Selected keys are pairwise distinct. */
  lemma SelectedDistinct(raw: seq<RawFormat>)
    ensures forall i, j :: 0 <= i < j < |Selected(raw)| ==> InfoKey(Selected(raw)[i]) != InfoKey(Selected(raw)[j])
  {
    ConversionKeepsKey();
    DedupDistinct(raw, {}, Admissible, DedupKey, ToFormatInfo);
  }

  /** Every selected entry is an admissible input entry, converted. */
  lemma SelectedOrigin(raw: seq<RawFormat>)
    ensures forall j :: 0 <= j < |Selected(raw)| ==> FromInput(Selected(raw)[j], raw, Admissible, ToFormatInfo)
  {
    DedupOrigin(raw, {}, Admissible, DedupKey, ToFormatInfo);
  }

  /** Every admissible input entry's key is among the selected keys. */
  lemma SelectedCovers(raw: seq<RawFormat>, i: nat)
    requires i < |raw| && Admissible(raw[i])
    ensures exists j :: 0 <= j < |Selected(raw)| && InfoKey(Selected(raw)[j]) == DedupKey(raw[i])
  {
    ConversionKeepsKey();
    DedupCovers(raw, {}, Admissible, DedupKey, ToFormatInfo, i);
    var sel := Selected(raw);
    var j :| 0 <= j < |sel| && InfoKey(sel[j]) == DedupKey(raw[i]);
  }

  /* ---------------------------------------------------------------------
     _sort_key and the stable sort
     --------------------------------------------------------------------- */

  function OrZero(x: Option<int>): int {
    if x.Some? then x.value else 0
  }

  function OrZeroReal(x: Option<real>): real {
    if x.Some? then x.value else 0.0
  }

  /** Merged entries first, then video-only, then the rest. */
  function Category(x: FormatInfo): (c: int)
    ensures c == 0 <==> x.hasVideo && x.hasAudio
    ensures c == 1 <==> x.hasVideo && !x.hasAudio
    ensures c == 2 <==> !x.hasVideo
  {
    if x.hasVideo && x.hasAudio then 0 else if x.hasVideo && !x.hasAudio then 1 else 2
  }

  /** `(category, -height, -tbr, -abr)`, missing values read as 0. */
  datatype SortKey = SortKey(category: int, height: int, tbr: real, abr: real)

  function KeyOf(x: FormatInfo): SortKey {
    SortKey(Category(x), -OrZero(x.height), -OrZeroReal(x.tbr), -OrZeroReal(x.abr))
  }

  /** Lexicographic tuple order. */
  predicate KeyLt(a: SortKey, b: SortKey) {
    a.category < b.category
    || (a.category == b.category
        && (a.height < b.height
            || (a.height == b.height && (a.tbr < b.tbr || (a.tbr == b.tbr && a.abr < b.abr)))))
  }

  /** No entry is followed by one with a smaller key. */
  predicate SortedByKey(s: seq<FormatInfo>) {
    forall i, j :: 0 <= i < j < |s| ==> !KeyLt(KeyOf(s[j]), KeyOf(s[i]))
  }

  /** Places `x` before the first entry whose key is not smaller. */
  function Insert(x: FormatInfo, s: seq<FormatInfo>): seq<FormatInfo> {
    if s == [] then [x]
    else if KeyLt(KeyOf(s[0]), KeyOf(x)) then [s[0]] + Insert(x, s[1..])
    else [x] + s
  }

  /** A stable sort by `KeyOf`. */
  function SortFormats(s: seq<FormatInfo>): seq<FormatInfo> {
    if s == [] then [] else Insert(s[0], SortFormats(s[1..]))
  }

  lemma {:induction false} InsertPermutes(x: FormatInfo, s: seq<FormatInfo>)
    ensures multiset(Insert(x, s)) == multiset(s) + multiset{x}
    ensures |Insert(x, s)| == |s| + 1
  {
    if s != [] && KeyLt(KeyOf(s[0]), KeyOf(x)) {
      InsertPermutes(x, s[1..]);
      assert s == [s[0]] + s[1..];
    }
  }

  lemma {:induction false} InsertSorted(x: FormatInfo, s: seq<FormatInfo>)
    requires SortedByKey(s)
    ensures SortedByKey(Insert(x, s))
  {
    if s != [] && KeyLt(KeyOf(s[0]), KeyOf(x)) {
      InsertSorted(x, s[1..]);
      InsertPermutes(x, s[1..]);
      var r := Insert(x, s);
      var t := Insert(x, s[1..]);
      assert r == [s[0]] + t;
      forall j | 1 <= j < |r| ensures !KeyLt(KeyOf(r[j]), KeyOf(s[0])) {
        assert r[j] == t[j - 1];
        assert r[j] in multiset(t);
        assert r[j] in multiset(s[1..]) + multiset{x};
        if r[j] != x {
          assert r[j] in s[1..];
        }
      }
    }
  }

  lemma {:induction false} SortFormatsCorrect(s: seq<FormatInfo>)
    ensures SortedByKey(SortFormats(s))
    ensures multiset(SortFormats(s)) == multiset(s)
    ensures |SortFormats(s)| == |s|
  {
    if s != [] {
      var rest := SortFormats(s[1..]);
      SortFormatsCorrect(s[1..]);
      assert SortFormats(s) == Insert(s[0], rest);
      InsertSorted(s[0], rest);
      InsertPermutes(s[0], rest);
      calc {
        multiset(SortFormats(s));
        multiset(rest) + multiset{s[0]};
        multiset(s[1..]) + multiset{s[0]};
        { assert s == [s[0]] + s[1..]; }
        multiset(s);
      }
    }
  }

  /** The entries of `s` with key `k`, in order. */
  function WithKey(s: seq<FormatInfo>, k: SortKey): seq<FormatInfo> {
    if s == [] then [] else (if KeyOf(s[0]) == k then [s[0]] else []) + WithKey(s[1..], k)
  }

  lemma {:induction false} InsertWithKey(x: FormatInfo, s: seq<FormatInfo>, k: SortKey)
    ensures WithKey(Insert(x, s), k) == (if KeyOf(x) == k then [x] else []) + WithKey(s, k)
  {
    if s == [] {
      assert Insert(x, s) == [x];
      assert [x][1..] == [];
    } else if KeyLt(KeyOf(s[0]), KeyOf(x)) {
      InsertWithKey(x, s[1..], k);
      var t := Insert(x, s[1..]);
      assert Insert(x, s) == [s[0]] + t;
      assert ([s[0]] + t)[1..] == t;
      assert KeyOf(s[0]) != KeyOf(x);
    } else {
      assert ([x] + s)[1..] == s;
    }
  }

  /** Stability: entries with equal keys keep their relative order. */
  lemma {:induction false} SortFormatsStable(s: seq<FormatInfo>, k: SortKey)
    ensures WithKey(SortFormats(s), k) == WithKey(s, k)
  {
    if s != [] {
      SortFormatsStable(s[1..], k);
      InsertWithKey(s[0], SortFormats(s[1..]), k);
    }
  }

  /* ---------------------------------------------------------------------
     _extract_formats
     --------------------------------------------------------------------- */

  /** The skipped-protocol test as written: in the manifest list, but not
      `m3u8_native`. */
  lemma ProtocolTest(p: string)
    ensures (p in {"m3u8", "m3u8_native", "f4m", "f4f", "ism"} && p != "m3u8_native") <==> DroppedProtocol(p)
  {
  }

  method ExtractFormats(raw: seq<RawFormat>) returns (formats: seq<FormatInfo>)
    ensures formats == SortFormats(Selected(raw))
    ensures SortedByKey(formats) && multiset(formats) == multiset(Selected(raw))
    ensures forall k :: WithKey(formats, k) == WithKey(Selected(raw), k)
  {
    formats := [];
    var seen: set<string> := {};
    var i := 0;
    while i < |raw|
      invariant 0 <= i <= |raw|
      invariant formats + Dedup(raw[i..], seen, Admissible, DedupKey, ToFormatInfo) == Selected(raw)
    {
      var f := raw[i];
      assert raw[i..][0] == f && raw[i..][1..] == raw[i + 1..];
      var url := FormatUrl(f);
      if url == "" {
        i := i + 1;
        continue;
      }
      var protocol := Protocol(f);
      ProtocolTest(protocol);
      if protocol in {"m3u8", "m3u8_native", "f4m", "f4f", "ism"} {
        if protocol != "m3u8_native" {
          i := i + 1;
          continue;
        }
      }
      var vcodec := Codec(f.vcodec);
      var ext := Ext(f);
      if ext == "mhtml" || ext == "json" {
        i := i + 1;
        continue;
      }
      if Contains(LowerStr(vcodec), "storyboard") {
        i := i + 1;
        continue;
      }
      var dedupKey := FormatLabel(f) + "_" + ext;
      if dedupKey in seen {
        i := i + 1;
        continue;
      }
      seen := seen + {dedupKey};
      ConcatAssoc(formats, [ToFormatInfo(f)], Dedup(raw[i + 1..], seen, Admissible, DedupKey, ToFormatInfo));
      formats := formats + [ToFormatInfo(f)];
      i := i + 1;
    }
    assert raw[i..] == [];
    assert formats == Selected(raw);
    SortFormatsCorrect(formats);
    forall k ensures WithKey(SortFormats(formats), k) == WithKey(formats, k) {
      SortFormatsStable(formats, k);
    }
    formats := SortFormats(formats);
  }

  /* ---------------------------------------------------------------------
     _add_best_merged_format
     --------------------------------------------------------------------- */

  predicate VideoCandidate(x: FormatInfo) {
    x.isVideoOnly && x.formatId != ""
  }

  predicate AudioCandidate(x: FormatInfo) {
    x.isAudio && x.formatId != ""
  }

  /** `(height or 0, tbr or 0)` of `a` is below that of `b`. */
  predicate VideoBelow(a: FormatInfo, b: FormatInfo) {
    OrZero(a.height) < OrZero(b.height)
    || (OrZero(a.height) == OrZero(b.height) && OrZeroReal(a.tbr) < OrZeroReal(b.tbr))
  }

  /** `abr or 0` of `a` is below that of `b`. */
  predicate AudioBelow(a: FormatInfo, b: FormatInfo) {
    OrZeroReal(a.abr) < OrZeroReal(b.abr)
  }

  /** Position of the video-only entry a descending stable sort puts first:
      the first candidate whose key no other candidate exceeds. */
  function BestVideoAt(s: seq<FormatInfo>): (r: Option<nat>)
    ensures r.None? <==> forall k :: 0 <= k < |s| ==> !VideoCandidate(s[k])
    ensures r.Some? ==> r.value < |s| && VideoCandidate(s[r.value])
    ensures r.Some? ==> forall k :: 0 <= k < |s| && VideoCandidate(s[k]) ==> !VideoBelow(s[r.value], s[k])
    ensures r.Some? ==> forall k :: 0 <= k < r.value && VideoCandidate(s[k]) ==> VideoBelow(s[k], s[r.value])
    decreases |s|
  {
    if s == [] then None
    else
      var p := BestVideoAt(s[..|s| - 1]);
      if VideoCandidate(s[|s| - 1]) && (p.None? || VideoBelow(s[p.value], s[|s| - 1])) then Some(|s| - 1)
      else p
  }

  /** Position of the audio-only entry a descending stable sort by `abr`
      puts first. */
  function BestAudioAt(s: seq<FormatInfo>): (r: Option<nat>)
    ensures r.None? <==> forall k :: 0 <= k < |s| ==> !AudioCandidate(s[k])
    ensures r.Some? ==> r.value < |s| && AudioCandidate(s[r.value])
    ensures r.Some? ==> forall k :: 0 <= k < |s| && AudioCandidate(s[k]) ==> !AudioBelow(s[r.value], s[k])
    ensures r.Some? ==> forall k :: 0 <= k < r.value && AudioCandidate(s[k]) ==> AudioBelow(s[k], s[r.value])
    decreases |s|
  {
    if s == [] then None
    else
      var p := BestAudioAt(s[..|s| - 1]);
      if AudioCandidate(s[|s| - 1]) && (p.None? || AudioBelow(s[p.value], s[|s| - 1])) then Some(|s| - 1)
      else p
  }

  /** The quality shown on the merged entry: only the top four resolutions
      are named. */
  function BestQuality(height: Option<int>): string {
    if height.Some? && height.value != 0 then
      if height.value >= 2160 then "4K"
      else if height.value >= 1440 then "1440p"
      else if height.value >= 1080 then "1080p"
      else if height.value >= 720 then "720p"
      else "Best"
    else "Best"
  }

  function MergeUrl(videoId: string, audioId: string, page: string): string {
    "merge:" + videoId + "+" + audioId + ":" + page
  }

  /** The synthetic entry asking the download endpoint to merge two streams. */
  function BestEntry(video: FormatInfo, audio: FormatInfo, page: string): FormatInfo {
    FormatInfo(
      formatId := "best",
      formatLabel := "Best Quality (Merged) " + UpperStr("mp4"),
      quality := BestQuality(video.height),
      extension := "mp4",
      filesize := None,
      filesizeApprox := None,
      isAudio := false,
      isVideoOnly := false,
      hasVideo := true,
      hasAudio := true,
      height := video.height,
      width := None,
      fps := None,
      vcodec := None,
      acodec := None,
      tbr := None,
      abr := None,
      url := MergeUrl(video.formatId, audio.formatId, page))
  }

  /** `info.get("webpage_url") or info.get("url")`, empty when neither. */
  function PageUrl(webpageUrl: Option<string>, url: Option<string>): string {
    OrElse(webpageUrl, OrElse(url, ""))
  }

  function AddBestMerged(page: string, formats: seq<FormatInfo>): seq<FormatInfo> {
    var v := BestVideoAt(formats);
    var a := BestAudioAt(formats);
    if page == "" || v.None? || a.None? then formats
    else [BestEntry(formats[v.value], formats[a.value], page)] + formats
  }

  /** The list is returned unchanged unless there is a page URL, a video-only
      and an audio-only entry with identifiers; then exactly one merged
      entry "best" is prepended, pointing at the best video and best audio. */
  lemma BestMergedShape(page: string, formats: seq<FormatInfo>)
    ensures var r := AddBestMerged(page, formats);
      ((|r| == |formats| + 1) <==>
         (page != ""
          && (exists k :: 0 <= k < |formats| && VideoCandidate(formats[k]))
          && (exists k :: 0 <= k < |formats| && AudioCandidate(formats[k]))))
      && (|r| == |formats| || |r| == |formats| + 1)
      && r[|r| - |formats|..] == formats
      && (|r| == |formats| + 1 ==>
            r[0].formatId == "best" && Category(r[0]) == 0 && FlagsConsistent(r[0])
            && r[0].extension == "mp4"
            && r[0].height == formats[BestVideoAt(formats).value].height
            && r[0].url == MergeUrl(formats[BestVideoAt(formats).value].formatId,
                                    formats[BestAudioAt(formats).value].formatId, page))
  {
    var r := AddBestMerged(page, formats);
    assert r[|r| - |formats|..] == formats;
  }

  /* ---------------------------------------------------------------------
     The MP3 entry of _sync_extract_info
     --------------------------------------------------------------------- */

  /** `af.abr or af.tbr or 0` */
  function AudioBitrate(x: FormatInfo): real {
    if Truthy(x.abr) then x.abr.value else if Truthy(x.tbr) then x.tbr.value else 0.0
  }

  /** Position of the first entry of greatest positive bitrate, if any entry
      has a positive bitrate. */
  function Mp3SourceAt(s: seq<FormatInfo>): (r: Option<nat>)
    ensures r.None? <==> forall k :: 0 <= k < |s| ==> AudioBitrate(s[k]) <= 0.0
    ensures r.Some? ==> r.value < |s| && AudioBitrate(s[r.value]) > 0.0
    ensures r.Some? ==> forall k :: 0 <= k < |s| ==> AudioBitrate(s[k]) <= AudioBitrate(s[r.value])
    ensures r.Some? ==> forall k :: 0 <= k < r.value ==> AudioBitrate(s[k]) < AudioBitrate(s[r.value])
    decreases |s|
  {
    if s == [] then None
    else
      var p := Mp3SourceAt(s[..|s| - 1]);
      var best := if p.None? then 0.0 else AudioBitrate(s[p.value]);
      if AudioBitrate(s[|s| - 1]) > best then Some(|s| - 1) else p
  }

  /** The selection loop: strictly greater bitrates replace the current one. */
  method PickMp3Source(audio: seq<FormatInfo>) returns (bestAbr: real, bestUrl: string)
    ensures Mp3SourceAt(audio).None? ==> bestAbr == 0.0 && bestUrl == ""
    ensures Mp3SourceAt(audio).Some? ==>
              bestAbr == AudioBitrate(audio[Mp3SourceAt(audio).value])
              && bestUrl == audio[Mp3SourceAt(audio).value].url
    ensures bestAbr == Mp3Abr(audio) && bestUrl == Mp3SourceUrl(audio)
  {
    bestUrl := "";
    bestAbr := 0.0;
    var i := 0;
    while i < |audio|
      invariant 0 <= i <= |audio|
      invariant Mp3SourceAt(audio[..i]).None? ==> bestAbr == 0.0 && bestUrl == ""
      invariant Mp3SourceAt(audio[..i]).Some? ==>
                  bestAbr == AudioBitrate(audio[Mp3SourceAt(audio[..i]).value])
                  && bestUrl == audio[Mp3SourceAt(audio[..i]).value].url
    {
      assert audio[..i + 1][..i] == audio[..i];
      var afbr := AudioBitrate(audio[i]);
      if afbr > bestAbr {
        bestAbr := afbr;
        bestUrl := audio[i].url;
      }
      i := i + 1;
    }
    assert audio[..i] == audio;
  }

  function Mp3Entry(bestAbr: real, url: string): FormatInfo {
    FormatInfo(
      formatId := "bestaudio_mp3",
      formatLabel := if bestAbr != 0.0 then "Audio MP3 (" + IntToString(Trunc(bestAbr)) + "kbps)" else "Audio MP3",
      quality := if bestAbr != 0.0 then IntToString(Trunc(bestAbr)) + "kbps" else "Audio",
      extension := "mp3",
      filesize := None,
      filesizeApprox := None,
      isAudio := true,
      isVideoOnly := false,
      hasVideo := false,
      hasAudio := true,
      height := None,
      width := None,
      fps := None,
      vcodec := None,
      acodec := None,
      tbr := None,
      abr := if bestAbr != 0.0 then Some(bestAbr) else None,
      url := url)
  }

  /** `[f for f in formats if f.is_audio]` */
  function AudioEntries(s: seq<FormatInfo>): (r: seq<FormatInfo>)
    ensures forall k :: 0 <= k < |r| ==> r[k].isAudio && r[k] in s
    ensures (r == []) <==> forall k :: 0 <= k < |s| ==> !s[k].isAudio
  {
    if s == [] then []
    else (if s[0].isAudio then [s[0]] else []) + AudioEntries(s[1..])
  }

  /** Every audio entry of the list is kept, and nothing else is. */
  lemma {:induction false} AudioEntriesKeepsAll(s: seq<FormatInfo>)
    ensures forall x :: x in AudioEntries(s) <==> x in s && x.isAudio
  {
    if s != [] {
      AudioEntriesKeepsAll(s[1..]);
      assert s == [s[0]] + s[1..];
    }
  }

  /** The audio entries of two lists in a row are those of the first, then
      those of the second: the comprehension keeps the list's order. */
  lemma {:induction false} AudioEntriesAppend(a: seq<FormatInfo>, b: seq<FormatInfo>)
    ensures AudioEntries(a + b) == AudioEntries(a) + AudioEntries(b)
  {
    if a != [] {
      var head := if a[0].isAudio then [a[0]] else [];
      assert (a + b)[0] == a[0] && (a + b)[1..] == a[1..] + b;
      assert AudioEntries(a + b) == head + AudioEntries(a[1..] + b);
      assert AudioEntries(a) == head + AudioEntries(a[1..]);
      AudioEntriesAppend(a[1..], b);
    } else {
      assert a + b == b;
    }
  }

  /** `[f for f in formats if f.has_video]` */
  function VideoEntries(s: seq<FormatInfo>): (r: seq<FormatInfo>)
    ensures forall k :: 0 <= k < |r| ==> r[k].hasVideo && r[k] in s
    ensures (r == []) <==> forall k :: 0 <= k < |s| ==> !s[k].hasVideo
  {
    if s == [] then []
    else (if s[0].hasVideo then [s[0]] else []) + VideoEntries(s[1..])
  }

  /** Every entry with video of the list is kept, and nothing else is. */
  lemma {:induction false} VideoEntriesKeepsAll(s: seq<FormatInfo>)
    ensures forall x :: x in VideoEntries(s) <==> x in s && x.hasVideo
  {
    if s != [] {
      VideoEntriesKeepsAll(s[1..]);
      assert s == [s[0]] + s[1..];
    }
  }

  /** The entries with video of two lists in a row are those of the first,
      then those of the second. */
  lemma {:induction false} VideoEntriesAppend(a: seq<FormatInfo>, b: seq<FormatInfo>)
    ensures VideoEntries(a + b) == VideoEntries(a) + VideoEntries(b)
  {
    if a != [] {
      var head := if a[0].hasVideo then [a[0]] else [];
      assert (a + b)[0] == a[0] && (a + b)[1..] == a[1..] + b;
      assert VideoEntries(a + b) == head + VideoEntries(a[1..] + b);
      assert VideoEntries(a) == head + VideoEntries(a[1..]);
      VideoEntriesAppend(a[1..], b);
    } else {
      assert a + b == b;
    }
  }

  /* ---------------------------------------------------------------------
     Post-processing of the extracted info in _sync_extract_info
     --------------------------------------------------------------------- */

  /** A JSON number. */
  datatype Number = IntValue(i: int) | FloatValue(x: real)

  /** The fields of the extractor's info dictionary that are read here; a
      missing list is empty. */
  datatype Info = Info(
    kind: Option<string>,
    entries: seq<Option<Info>>,
    formats: seq<RawFormat>,
    webpageUrl: Option<string>,
    url: Option<string>,
    duration: Option<Number>,
    thumbnail: Option<string>,
    thumbnailUrls: seq<Option<string>>,
    description: Option<string>)

  datatype Summary = Summary(
    formats: seq<FormatInfo>,
    duration: Option<int>,
    durationString: string,
    thumbnail: Option<string>,
    description: Option<string>)

  const MaxDescription := 300

  /** A playlist stands for its first entry. */
  function ChooseEntry(info: Info): (r: Result<Info, string>)
    ensures r.Err? <==> info.kind == Some("playlist") && (info.entries == [] || info.entries[0].None?)
    ensures r.Ok? ==> r.value == if info.kind == Some("playlist") then info.entries[0].value else info
  {
    if info.kind == Some("playlist") then
      if info.entries == [] then Err("Playlist is empty")
      else if info.entries[0].None? then Err("Playlist is empty or entries are unavailable")
      else Ok(info.entries[0].value)
    else Ok(info)
  }

  /** `int(duration)` for a float. */
  function WholeDuration(d: Option<Number>): Option<int> {
    match d
    case None => None
    case Some(IntValue(i)) => Some(i)
    case Some(FloatValue(x)) => Some(Trunc(x))
  }

  /** The thumbnail, else the URL of the last listed thumbnail. */
  function Thumbnail(info: Info): Option<string> {
    if (info.thumbnail.None? || info.thumbnail.value == "") && info.thumbnailUrls != [] then
      info.thumbnailUrls[|info.thumbnailUrls| - 1]
    else info.thumbnail
  }

  /** The description, cut to 300 characters plus an ellipsis; none when empty. */
  function Description(info: Info): Option<string> {
    var d := OrElse(info.description, "");
    var d' := if |d| > MaxDescription then d[..MaxDescription] + "..." else d;
    if d' != "" then Some(d') else None
  }

  /** The URL the MP3 entry converts from: the best-bitrate audio entry, else
      the first entry of the list. */
  function Mp3Url(audio: seq<FormatInfo>, formats: seq<FormatInfo>): string {
    var url := Mp3SourceUrl(audio);
    if url == "" && formats != [] then formats[0].url else url
  }

  /** The URL of the best-bitrate audio entry, empty when there is none. */
  function Mp3SourceUrl(audio: seq<FormatInfo>): string {
    var pick := Mp3SourceAt(audio);
    if pick.Some? then audio[pick.value].url else ""
  }

  function Mp3Abr(audio: seq<FormatInfo>): real {
    var pick := Mp3SourceAt(audio);
    if pick.Some? then AudioBitrate(audio[pick.value]) else 0.0
  }

  /** The final format list: the sorted selection, the merged entry in front
      when there is a video stream, the MP3 entry at the end when there is an
      audio-only or a video stream. */
  function FinalFormats(info: Info): seq<FormatInfo> {
    Completed(SortFormats(Selected(info.formats)), PageUrl(info.webpageUrl, info.url))
  }

  /** The extracted list with the merged entry in front when there is a
      video stream. */
  function WithBest(extracted: seq<FormatInfo>, page: string): seq<FormatInfo> {
    if VideoEntries(extracted) != [] then AddBestMerged(page, extracted) else extracted
  }

  /** The extracted list completed with the merged and MP3 entries. */
  function Completed(extracted: seq<FormatInfo>, page: string): seq<FormatInfo> {
    var audio := AudioEntries(extracted);
    var video := VideoEntries(extracted);
    var withBest := WithBest(extracted, page);
    if audio != [] || video != [] then
      var url := Mp3Url(audio, withBest);
      if url != "" then withBest + [Mp3Entry(Mp3Abr(audio), url)] else withBest
    else withBest
  }

  function Summarize(info: Info): Result<Summary, string> {
    match ChooseEntry(info)
    case Err(e) => Err(e)
    case Ok(entry) => Ok(EntrySummary(entry))
  }

  /** The response fields derived from the chosen entry. */
  function EntrySummary(entry: Info): Summary {
    var duration := WholeDuration(entry.duration);
    Summary(FinalFormats(entry), duration, FormatDuration(duration), Thumbnail(entry), Description(entry))
  }

  method ProcessInfo(info0: Info) returns (r: Result<Summary, string>)
    ensures r == Summarize(info0)
  {
    var info := info0;
    if info.kind == Some("playlist") {
      var entries := info.entries;
      if entries != [] {
        var entry := entries[0];
        if entry.None? {
          return Err("Playlist is empty or entries are unavailable");
        }
        info := entry.value;
      } else {
        return Err("Playlist is empty");
      }
    }
    assert ChooseEntry(info0) == Ok(info);
    var summary := SummarizeEntry(info);
    r := Ok(summary);
  }

  /** The fields of the response computed from the chosen entry. */
  method SummarizeEntry(info: Info) returns (summary: Summary)
    ensures summary == EntrySummary(info)
  {
    var formats := BuildFormats(info);
    var duration := WholeDuration(info.duration);
    var thumbnail := info.thumbnail;
    if (thumbnail.None? || thumbnail.value == "") && info.thumbnailUrls != [] {
      thumbnail := info.thumbnailUrls[|info.thumbnailUrls| - 1];
    }
    var description := OrElse(info.description, "");
    if |description| > MaxDescription {
      description := description[..MaxDescription] + "...";
    }
    var shown := if description != "" then Some(description) else None;
    summary := Summary(formats, duration, FormatDuration(duration), thumbnail, shown);
  }

  /** The format list part of the post-processing. */
  method BuildFormats(info: Info) returns (formats: seq<FormatInfo>)
    ensures formats == FinalFormats(info)
  {
    formats := ExtractFormats(info.formats);
    ghost var extracted := formats;
    ghost var page := PageUrl(info.webpageUrl, info.url);
    var audioFormats := AudioEntries(formats);
    var videoFormats := VideoEntries(formats);
    if videoFormats != [] {
      formats := AddBestMerged(PageUrl(info.webpageUrl, info.url), formats);
    }
    assert formats == WithBest(extracted, page);
    if audioFormats != [] || videoFormats != [] {
      var bestAbr, bestAudioUrl := PickMp3Source(audioFormats);
      if bestAudioUrl == "" && formats != [] {
        bestAudioUrl := formats[0].url;
      }
      assert bestAudioUrl == Mp3Url(audioFormats, formats);
      if bestAudioUrl != "" {
        formats := formats + [Mp3Entry(bestAbr, bestAudioUrl)];
      }
    }
    assert formats == Completed(extracted, page);
  }

  /** A shown description never exceeds 303 characters and starts with the
      first 300 characters of the original. */
  lemma DescriptionBound(info: Info)
    ensures Description(info).Some? ==> |Description(info).value| <= MaxDescription + 3
    ensures Description(info).Some? ==>
              var d := OrElse(info.description, "");
              StartsWith(Description(info).value, if |d| > MaxDescription then d[..MaxDescription] else d)
    ensures Description(info).None? <==> OrElse(info.description, "") == ""
  {
  }

  /** Every extracted entry has a URL and consistent flags. */
  lemma ExtractedEntries(raw: seq<RawFormat>)
    ensures forall x :: x in SortFormats(Selected(raw)) ==> x.url != "" && FlagsConsistent(x)
  {
    SelectedOrigin(raw);
    SortFormatsCorrect(Selected(raw));
    forall x | x in SortFormats(Selected(raw)) ensures x.url != "" && FlagsConsistent(x) {
      assert x in multiset(SortFormats(Selected(raw)));
      assert x in Selected(raw);
      var j :| 0 <= j < |Selected(raw)| && Selected(raw)[j] == x;
      assert FromInput(x, raw, Admissible, ToFormatInfo);
      var i :| 0 <= i < |raw| && Admissible(raw[i]) && x == ToFormatInfo(raw[i]);
      ToFormatInfoShape(raw[i]);
    }
  }

  /** The merged entry, when added, is the only entry in front of the
      extracted list. */
  lemma WithBestShape(e: seq<FormatInfo>, page: string)
    ensures |WithBest(e, page)| - |e| <= 1 && WithBest(e, page)[|WithBest(e, page)| - |e|..] == e
    ensures |WithBest(e, page)| == |e| + 1 ==>
              WithBest(e, page)[0].formatId == "best" && Category(WithBest(e, page)[0]) == 0
  {
    BestMergedShape(page, e);
  }

  /** The MP3 entry is added behind the rest exactly when an audio-only or a
      video entry was extracted; it converts the first entry of greatest
      positive bitrate, else the first entry of the list. */
  lemma CompletedShape(e: seq<FormatInfo>, page: string)
    requires forall x :: x in e ==> x.url != ""
    ensures Completed(e, page)[..|WithBest(e, page)|] == WithBest(e, page)
    ensures |Completed(e, page)| == |WithBest(e, page)| + 1 <==> AudioEntries(e) != [] || VideoEntries(e) != []
    ensures |Completed(e, page)| == |WithBest(e, page)| || |Completed(e, page)| == |WithBest(e, page)| + 1
    ensures |Completed(e, page)| == |WithBest(e, page)| + 1 ==>
              var m := Completed(e, page)[|Completed(e, page)| - 1];
              m.formatId == "bestaudio_mp3" && m.isAudio && m.url == Mp3Url(AudioEntries(e), WithBest(e, page))
  {
    var withBest := WithBest(e, page);
    var audio := AudioEntries(e);
    if audio != [] || VideoEntries(e) != [] {
      assert Mp3Url(audio, withBest) != "" by {
        Mp3UrlPresent(e, page);
      }
    }
    var f := Completed(e, page);
    assert f[..|withBest|] == withBest;
  }

  lemma Mp3UrlPresent(e: seq<FormatInfo>, page: string)
    requires forall x :: x in e ==> x.url != ""
    requires AudioEntries(e) != [] || VideoEntries(e) != []
    ensures Mp3Url(AudioEntries(e), WithBest(e, page)) != ""
  {
    var withBest := WithBest(e, page);
    var audio := AudioEntries(e);
    var pick := Mp3SourceAt(audio);
    WithBestShape(e, page);
    if pick.Some? {
      assert audio[pick.value] in e;
      assert Mp3Url(audio, withBest) == audio[pick.value].url;
    } else {
      assert e != [];
      assert withBest != [];
      assert Mp3Url(audio, withBest) == withBest[0].url;
      if |withBest| == |e| + 1 {
        assert withBest == AddBestMerged(page, e);
        assert withBest[0].url == MergeUrl(e[BestVideoAt(e).value].formatId, e[BestAudioAt(e).value].formatId, page);
        assert withBest[0].url[0] == 'm';
      } else {
        assert withBest == e;
        assert e[0] in e;
      }
    }
  }

  /** The MP3 entry is audio only. */
  lemma Mp3EntryFlags(bestAbr: real, url: string)
    ensures FlagsConsistent(Mp3Entry(bestAbr, url)) && Mp3Entry(bestAbr, url).isAudio
  {
  }

  /** The merged entry and the extracted entries behind it have consistent
      kind flags. */
  lemma WithBestFlagsConsistent(e: seq<FormatInfo>, page: string)
    requires forall x :: x in e ==> FlagsConsistent(x)
    ensures forall k :: 0 <= k < |WithBest(e, page)| ==> FlagsConsistent(WithBest(e, page)[k])
  {
    var withBest := WithBest(e, page);
    WithBestShape(e, page);
    forall k | 0 <= k < |withBest| ensures FlagsConsistent(withBest[k]) {
      if k < |withBest| - |e| {
        assert k == 0 && |withBest| == |e| + 1;
        assert withBest == AddBestMerged(page, e);
        assert withBest[0] == BestEntry(e[BestVideoAt(e).value], e[BestAudioAt(e).value], page);
      } else {
        var i := k - (|withBest| - |e|);
        assert withBest[k] == withBest[|withBest| - |e|..][i] == e[i];
        assert e[i] in e;
      }
    }
  }

  /** Every entry of the completed list has consistent kind flags. */
  lemma CompletedFlagsConsistent(e: seq<FormatInfo>, page: string)
    requires forall x :: x in e ==> FlagsConsistent(x)
    ensures forall k :: 0 <= k < |Completed(e, page)| ==> FlagsConsistent(Completed(e, page)[k])
  {
    var withBest := WithBest(e, page);
    WithBestFlagsConsistent(e, page);
    var f := Completed(e, page);
    if f != withBest {
      var audio := AudioEntries(e);
      var mp3 := Mp3Entry(Mp3Abr(audio), Mp3Url(audio, withBest));
      assert f == withBest + [mp3];
      Mp3EntryFlags(Mp3Abr(audio), Mp3Url(audio, withBest));
      forall k | 0 <= k < |f| ensures FlagsConsistent(f[k]) {
        if k < |withBest| {
          assert f[k] == withBest[k];
        } else {
          assert f[k] == mp3;
        }
      }
    }
  }

  /** Every entry of the final list has consistent kind flags. */
  lemma FinalFlagsConsistent(info: Info)
    ensures forall k :: 0 <= k < |FinalFormats(info)| ==> FlagsConsistent(FinalFormats(info)[k])
  {
    ExtractedEntries(info.formats);
    CompletedFlagsConsistent(SortFormats(Selected(info.formats)), PageUrl(info.webpageUrl, info.url));
  }
}
