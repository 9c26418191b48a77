/**
  The derived values of the upload page (web/src/app/dashboard/upload/page.tsx):
  the output-size estimate shown next to the selection, the download file
  name, and the maximum GIF length handed to the timeline selector.

  Numbers are exact reals; the estimate is the pair `(minBytes, maxBytes)`
  before it is formatted as KB/MB text.
 */
module UploadPage {
  import opened Results
  import opened Text
  import opened JsNumber
  import GifEncoder
  import Timeline

  /** What the timeline reports through `onMetadata`: a sanitised duration and the frame size. */
  datatype VideoMeta = VideoMeta(duration: real, width: nat, height: nat)

  /** The inputs the estimate and the download name depend on. */
  datatype Page = Page(
    fileName: Option<string>,
    start: real,
    end: real,
    quality: GifEncoder.Quality,
    fps: GifEncoder.FrameRate,
    scale: GifEncoder.Scale,
    meta: Option<VideoMeta>)

  // ---------------------------------------------------------------------------
  // The size estimate
  // ---------------------------------------------------------------------------

  /**
    The frame size the estimate assumes: a downscaling preset narrows only a
    frame wider than its cap, and rounds the height to keep the aspect ratio.
   */
  function ScaledDimensions(scale: GifEncoder.Scale, width: nat, height: nat): (d: (nat, nat))
    ensures scale == GifEncoder.Original ==> d == (width, height)
    ensures scale != GifEncoder.Original && width <= GifEncoder.MaxWidth(scale) ==> d == (width, height)
    ensures scale != GifEncoder.Original && width > GifEncoder.MaxWidth(scale) ==>
      d.0 == GifEncoder.MaxWidth(scale) && d.1 == Round((height as real * d.0 as real) / width as real)
  {
    if scale != GifEncoder.Original && width > GifEncoder.MaxWidth(scale) then
      var w := GifEncoder.MaxWidth(scale);
      var h := Round((height as real * w as real) / width as real);
      assert h >= 0 by {
        assert (height as real * w as real) / width as real >= 0.0;
      }
      (w, h)
    else
      (width, height)
  }

  /**
    The estimate assumes the frame width the encoder produces: its filter
    `scale='min(W,iw)':-2` narrows to `min(W, w)`, and so does the estimate.
   */
  lemma ScaledWidthMatchesFilter(scale: GifEncoder.Scale, width: nat, height: nat)
    requires scale != GifEncoder.Original
    ensures ScaledDimensions(scale, width, height).0 as real == Min(width as real, GifEncoder.MaxWidth(scale) as real)
  {
    var d := ScaledDimensions(scale, width, height);
    if width <= GifEncoder.MaxWidth(scale) {
      assert d.0 == width;
    } else {
      assert d.0 == GifEncoder.MaxWidth(scale);
    }
  }

  /**
    Bytes per pixel per frame: higher quality (fewer colours) is assumed to
    compress worse, and larger frames better, in brackets above 200,000 and
    500,000 pixels.
   */
  function BytesPerPixel(q: GifEncoder.Quality, pixels: int): real {
    match q
    case High => if pixels > 500000 then 0.15 else if pixels > 200000 then 0.25 else 0.4
    case Medium => if pixels > 500000 then 0.12 else if pixels > 200000 then 0.2 else 0.3
    case Low => if pixels > 500000 then 0.08 else if pixels > 200000 then 0.15 else 0.25
  }

  /** The rate never rises with frame size, and ranks high over medium over low at every size. */
  lemma BytesPerPixelOrdering(q: GifEncoder.Quality, p1: int, p2: int)
    ensures p1 <= p2 ==> BytesPerPixel(q, p1) >= BytesPerPixel(q, p2)
    ensures BytesPerPixel(GifEncoder.High, p1) > BytesPerPixel(GifEncoder.Medium, p1) > BytesPerPixel(GifEncoder.Low, p1) > 0.0
  {
  }

  /** Longer clips compress less well. */
  function DurationPenalty(duration: real): real {
    if duration > 10.0 then 1.3 else if duration > 5.0 then 1.1 else 1.0
  }

  /** Higher frame rates compress less well. */
  function FpsPenalty(fps: GifEncoder.FrameRate): real {
    match fps
    case Fps24 => 1.2
    case Fps15 => 1.05
    case Fps10 => 1.0
  }

  /** The estimate from its factors: content bytes with both penalties, plus the header and per-frame overhead. */
  function Estimate(frames: real, bytesPerFrame: real, durationPenalty: real, fpsPenalty: real): real {
    frames * bytesPerFrame * durationPenalty * fpsPenalty + 1024.0 + frames * 20.0
  }

  /** The point estimate in bytes for a selection of `duration` seconds and frames of `pixels` pixels. */
  function EstimatedBytes(duration: real, fps: GifEncoder.FrameRate, q: GifEncoder.Quality, pixels: nat): real {
    var frames := duration * GifEncoder.FramesPerSecond(fps) as real;
    Estimate(frames, pixels as real * BytesPerPixel(q, pixels), DurationPenalty(duration), FpsPenalty(fps))
  }

  /** The pixel count of the frame the estimate assumes: the scaled width times the scaled height. */
  function FramePixels(page: Page): nat
    requires page.meta.Some?
  {
    var d := ScaledDimensions(page.scale, page.meta.value.width, page.meta.value.height);
    d.0 * d.1
  }

  /**
    `estimatedSize`: absent without a file, with an empty or inverted range, or
    before the metadata arrives; otherwise the band 30% either side of the
    point estimate for the selection's length and the scaled frame.
   */
  function EstimatedSize(page: Page): (r: Option<(real, real)>)
    ensures r.None? <==> page.fileName.None? || page.end <= page.start || page.meta.None?
    ensures r.Some? ==> 0.0 < r.value.0 < r.value.1
    ensures r.Some? ==> var e := EstimatedBytes(page.end - page.start, page.fps, page.quality, FramePixels(page));
      r.value.0 == e * 0.7 && r.value.1 == e * 1.3
  {
    if page.fileName.None? || page.end <= page.start || page.meta.None? then None
    else
      var est := EstimatedBytes(page.end - page.start, page.fps, page.quality, FramePixels(page));
      EstimateAtLeastOverhead(page.end - page.start, page.fps, page.quality, FramePixels(page));
      Some((est * 0.7, est * 1.3))
  }

  /** Widening the selection never shrinks either end of the band. */
  lemma EstimatedSizeGrowsWithSelection(page: Page, end2: real)
    requires EstimatedSize(page).Some? && page.end <= end2
    ensures var wider := EstimatedSize(page.(end := end2));
      wider.Some? && wider.value.0 >= EstimatedSize(page).value.0 && wider.value.1 >= EstimatedSize(page).value.1
  {
    var p2 := page.(end := end2);
    assert FramePixels(p2) == FramePixels(page);
    EstimateMonotoneInDuration(page.end - page.start, end2 - page.start, page.fps, page.quality, FramePixels(page));
  }

  /** A higher frame rate never shrinks either end of the band. */
  lemma EstimatedSizeGrowsWithFps(page: Page, fps2: GifEncoder.FrameRate)
    requires EstimatedSize(page).Some?
    requires GifEncoder.FramesPerSecond(page.fps) <= GifEncoder.FramesPerSecond(fps2)
    ensures var faster := EstimatedSize(page.(fps := fps2));
      faster.Some? && faster.value.0 >= EstimatedSize(page).value.0 && faster.value.1 >= EstimatedSize(page).value.1
  {
    var p2 := page.(fps := fps2);
    assert FramePixels(p2) == FramePixels(page);
    EstimateMonotoneInFps(page.end - page.start, page.fps, fps2, page.quality, FramePixels(page));
  }

  /** `a1 * b1 <= a2 * b2` for non-negative, ordered factors. */
  lemma MulMonotone(a1: real, a2: real, b1: real, b2: real)
    requires 0.0 <= a1 <= a2 && 0.0 <= b1 <= b2
    ensures a1 * b1 <= a2 * b2
  {
    assert a1 * b1 <= a2 * b1;
    assert a2 * b1 <= a2 * b2;
  }

  /** The estimate grows with each of its factors, the penalties being at least 1. */
  lemma EstimateMonotone(f1: real, f2: real, rate: real, dp1: real, dp2: real, fp1: real, fp2: real)
    requires 0.0 <= f1 <= f2 && 0.0 <= rate && 1.0 <= dp1 <= dp2 && 1.0 <= fp1 <= fp2
    ensures Estimate(f1, rate, dp1, fp1) <= Estimate(f2, rate, dp2, fp2)
  {
    MulMonotone(f1, f2, rate, rate);
    MulMonotone(f1 * rate, f2 * rate, dp1, dp2);
    MulMonotone(f1 * rate * dp1, f2 * rate * dp2, fp1, fp2);
  }

  /** The estimate never falls below the header and per-frame overhead alone. */
  lemma EstimateAtLeastOverhead(duration: real, fps: GifEncoder.FrameRate, q: GifEncoder.Quality, pixels: nat)
    requires duration >= 0.0
    ensures EstimatedBytes(duration, fps, q, pixels) >= 1024.0 + duration * GifEncoder.FramesPerSecond(fps) as real * 20.0
  {
    var frames := duration * GifEncoder.FramesPerSecond(fps) as real;
    var rate := pixels as real * BytesPerPixel(q, pixels);
    MulMonotone(0.0, frames, 0.0, rate);
    MulMonotone(0.0, frames * rate, 0.0, DurationPenalty(duration));
    MulMonotone(0.0, frames * rate * DurationPenalty(duration), 0.0, FpsPenalty(fps));
  }

  /** A longer selection never gets a smaller estimate. */
  lemma EstimateMonotoneInDuration(d1: real, d2: real, fps: GifEncoder.FrameRate, q: GifEncoder.Quality, pixels: nat)
    requires 0.0 <= d1 <= d2
    ensures EstimatedBytes(d1, fps, q, pixels) <= EstimatedBytes(d2, fps, q, pixels)
  {
    var f := GifEncoder.FramesPerSecond(fps) as real;
    MulMonotone(d1, d2, f, f);
    EstimateMonotone(d1 * f, d2 * f, pixels as real * BytesPerPixel(q, pixels),
      DurationPenalty(d1), DurationPenalty(d2), FpsPenalty(fps), FpsPenalty(fps));
  }

  /** A higher frame rate never gets a smaller estimate. */
  lemma EstimateMonotoneInFps(duration: real, f1: GifEncoder.FrameRate, f2: GifEncoder.FrameRate, q: GifEncoder.Quality, pixels: nat)
    requires duration >= 0.0
    requires GifEncoder.FramesPerSecond(f1) <= GifEncoder.FramesPerSecond(f2)
    ensures EstimatedBytes(duration, f1, q, pixels) <= EstimatedBytes(duration, f2, q, pixels)
  {
    var n1 := GifEncoder.FramesPerSecond(f1) as real;
    var n2 := GifEncoder.FramesPerSecond(f2) as real;
    MulMonotone(duration, duration, n1, n2);
    EstimateMonotone(duration * n1, duration * n2, pixels as real * BytesPerPixel(q, pixels),
      DurationPenalty(duration), DurationPenalty(duration), FpsPenalty(f1), FpsPenalty(f2));
  }

  // ---------------------------------------------------------------------------
  // The download name
  // ---------------------------------------------------------------------------

  /**
    `i` is where `/\.[^.]+$/` matches `s`: a dot followed by at least one
    character, none of them a dot, up to the end of the string.
   */
  ghost predicate ExtensionAt(s: string, i: int) {
    0 <= i && i + 1 < |s| && s[i] == '.' && forall j :: i < j < |s| ==> s[j] != '.'
  }

  /** The length of the longest dot-free suffix of `s`. */
  function DotFreeSuffix(s: string): (k: nat)
    ensures k <= |s|
    ensures forall j :: |s| - k <= j < |s| ==> s[j] != '.'
    ensures k < |s| ==> s[|s| - k - 1] == '.'
  {
    if s == [] || s[|s| - 1] == '.' then 0
    else 1 + DotFreeSuffix(s[..|s| - 1])
  }

  /** `name.replace(/\.[^.]+$/, '')`: drops a trailing extension, if there is one. */
  function StripExtension(s: string): (r: string)
    ensures r <= s
  {
    var k := DotFreeSuffix(s);
    if 0 < k < |s| then s[..|s| - k - 1] else s
  }

  /**
    `StripExtension` removes exactly the regular expression's match: the text
    from the matching dot on when there is one, and nothing otherwise.
   */
  lemma StripExtensionIsRegexMatch(s: string)
    ensures forall i :: ExtensionAt(s, i) ==> StripExtension(s) == s[..i]
    ensures (forall i :: !ExtensionAt(s, i)) ==> StripExtension(s) == s
  {
    var k := DotFreeSuffix(s);
    forall i | ExtensionAt(s, i)
      ensures StripExtension(s) == s[..i]
    {
      assert s[|s| - 1] != '.';
      assert i == |s| - k - 1;
    }
    if 0 < k < |s| {
      assert ExtensionAt(s, |s| - k - 1);
    }
  }

  /** A name built from a stem and a dot-free extension loses exactly the extension. */
  lemma StripExtensionOfStemAndExtension(stem: string, ext: string)
    requires ext != [] && forall j :: 0 <= j < |ext| ==> ext[j] != '.'
    ensures StripExtension(stem + "." + ext) == stem
  {
    var s := stem + "." + ext;
    StripExtensionIsRegexMatch(s);
    assert ExtensionAt(s, |stem|) by {
      forall j | |stem| < j < |s|
        ensures s[j] != '.'
      {
        assert s[j] == ext[j - |stem| - 1];
      }
    }
    assert s[..|stem|] == stem;
  }

  /** `Math.round((end - start) * 1000)`: the selection length in whole milliseconds. */
  function SelectionMillis(start: real, end: real): int {
    Round((end - start) * 1000.0)
  }

  /** `downloadName`: `output.gif` without a file, else the stem, the length in milliseconds and `ms.gif`. */
  function DownloadName(fileName: Option<string>, start: real, end: real): (r: string)
    ensures fileName.None? ==> r == "output.gif"
    ensures fileName.Some? ==> StartsWith(r, StripExtension(fileName.value) + "-")
  {
    match fileName
    case None => "output.gif"
    case Some(name) => StripExtension(name) + "-" + IntToString(SelectionMillis(start, end)) + "ms.gif"
  }

  /**
    Any download name built from a file name can be read back: the file name
    without its extension, a dash, the rounded length in milliseconds in
    decimal (with a `-` of its own when the selection is inverted) and `ms.gif`.
   */
  lemma DownloadNameParts(name: string, start: real, end: real)
    ensures var r := DownloadName(Some(name), start, end);
      var stem := StripExtension(name);
      var ms := SelectionMillis(start, end);
      && |r| > |stem| + 7
      && r[..|stem| + 1] == stem + "-"
      && r[|r| - 6..] == "ms.gif"
      && var digits := r[|stem| + 1 .. |r| - 6];
      && (ms >= 0 ==> AllDigits(digits) && ParseNat(digits) == ms)
      && (ms < 0 ==> digits[0] == '-' && AllDigits(digits[1..]) && ParseNat(digits[1..]) == -ms)
  {
    var stem := StripExtension(name);
    var ms := SelectionMillis(start, end);
    var text := IntToString(ms);
    var r := DownloadName(Some(name), start, end);
    assert r == stem + "-" + text + "ms.gif";
    assert r[|stem| + 1 .. |r| - 6] == text;
    if ms >= 0 {
      ParseNatToString(ms);
    } else {
      assert text[1..] == NatToString(-ms);
      ParseNatToString(-ms);
    }
  }

  /**
    For a file `stem.ext` and a selection that is not inverted, the name is the
    stem, a dash, the decimal digits of the rounded length in milliseconds,
    and `ms.gif`, and those digits lie within half a millisecond of the length.
   */
  lemma DownloadNameReadsBack(stem: string, ext: string, start: real, end: real)
    requires ext != [] && forall j :: 0 <= j < |ext| ==> ext[j] != '.'
    requires start <= end
    ensures var name := DownloadName(Some(stem + "." + ext), start, end);
      && |name| > |stem| + 7
      && name[..|stem| + 1] == stem + "-"
      && name[|name| - 6..] == "ms.gif"
      && var digits := name[|stem| + 1 .. |name| - 6];
      && AllDigits(digits)
      && ParseNat(digits) == SelectionMillis(start, end)
      && (end - start) * 1000.0 - 0.5 < ParseNat(digits) as real <= (end - start) * 1000.0 + 0.5
  {
    StripExtensionOfStemAndExtension(stem, ext);
    DownloadNameParts(stem + "." + ext, start, end);
    assert SelectionMillis(start, end) >= 0;
  }

  // ---------------------------------------------------------------------------
  // The cap handed to the timeline
  // ---------------------------------------------------------------------------

  /** The `maxGifDuration` prop: 60 s for videos longer than five minutes, 30 s otherwise. */
  function MaxGifDuration(meta: Option<VideoMeta>): (r: real)
    ensures r == 60.0 <==> meta.Some? && meta.value.duration > 300.0
    ensures r == 30.0 <==> !(meta.Some? && meta.value.duration > 300.0)
  {
    if meta.Some? && meta.value.duration > 300.0 then 60.0 else 30.0
  }

  /**
    Either cap is longer than the selector's three-second default, so a freshly
    loaded video starts with the first three seconds, or all of it when shorter.
   */
  lemma PageCapKeepsDefaultSelection(meta: Option<VideoMeta>, videoDuration: Num)
    ensures var s := Timeline.LoadMetadata(Timeline.Init(Some(MaxGifDuration(meta))), videoDuration);
      s.start == 0.0 && s.end == Min(Timeline.DefaultSpan, s.duration)
  {
  }
}
