/**
  GIF generation (web/src/lib/ffmpeg.ts): a time-range check, the lazily
  loaded ffmpeg.wasm instance, the two `exec` argument vectors (palette
  generation, then palette use with Bayer dithering) and the copy of the
  output file into an `image/gif` blob.

  ffmpeg itself is opaque. Its effects are recorded as a trace, the bytes it
  writes to `out.gif` are a parameter, and `String(n)` on a non-integer
  number is the parameter `show`.
 */
module GifEncoder {
  import opened Results
  import opened Text
  import opened Bytes
  import JsNumber

  datatype Quality = Low | Medium | High
  datatype FrameRate = Fps10 | Fps15 | Fps24
  datatype Scale = Original | Scale720 | Scale480 | Scale360

  const InputName: string := "input.mp4"
  const PaletteName: string := "palette.png"
  const OutputName: string := "out.gif"
  const GifMimeType: string := "image/gif"
  const InvalidRange: string := "Invalid time range"

  function FramesPerSecond(f: FrameRate): nat {
    match f
    case Fps10 => 10
    case Fps15 => 15
    case Fps24 => 24
  }

  /** `colorCount`: the palette size for a quality setting. */
  function ColorCount(q: Quality): (n: nat)
    ensures n in {64, 128, 256}
  {
    match q
    case Low => 256
    case Medium => 128
    case High => 64
  }

  /** The width cap of a downscaling preset. */
  function MaxWidth(s: Scale): (w: nat)
    requires s != Original
  {
    match s
    case Scale720 => 1280
    case Scale480 => 854
    case Scale360 => 640
  }

  /** `scaleFilter`: the ffmpeg scale filter for a preset. */
  function ScaleFilter(s: Scale): string {
    match s
    case Original => "scale=iw:ih"
    case Scale720 => "scale='min(1280,iw)':-2"
    case Scale480 => "scale='min(854,iw)':-2"
    case Scale360 => "scale='min(640,iw)':-2"
  }

  /**
    The quality names run against the palette size: a higher setting gets
    fewer colours, and every palette fits GIF's 256-entry limit.
   */
  lemma ColorCountAntitone()
    ensures ColorCount(Low) > ColorCount(Medium) > ColorCount(High)
    ensures forall q :: ColorCount(q) <= 256 && 256 % ColorCount(q) == 0
  {
  }

  /**
    The downscaling filters keep the source width when it is already small
    (`min(W,iw)`), cap it at the preset's width otherwise, and let ffmpeg pick
    an even height (`-2`); the original preset leaves the frame alone.
   */
  lemma ScaleFilterNamesWidth(s: Scale)
    ensures s == Original ==> ScaleFilter(s) == "scale=iw:ih"
    ensures s != Original ==> ScaleFilter(s) == "scale='min(" + NatToString(MaxWidth(s)) + ",iw)':-2"
  {
    match s
    case Original =>
    case Scale720 => Decimal1280();
    case Scale480 => Decimal854();
    case Scale360 => Decimal640();
  }

  lemma Decimal1280()
    ensures NatToString(1280) == "1280"
  {
    assert NatToString(1) == "1";
    assert NatToString(12) == "12";
    assert NatToString(128) == "128";
  }

  lemma Decimal854()
    ensures NatToString(854) == "854"
  {
    assert NatToString(8) == "8";
    assert NatToString(85) == "85";
  }

  lemma Decimal640()
    ensures NatToString(640) == "640"
  {
    assert NatToString(6) == "6";
    assert NatToString(64) == "64";
  }

  /** `fps=F,<scale>`: the filter chain both passes start with. */
  function FilterPrefix(fps: FrameRate, scale: Scale): string {
    "fps=" + NatToString(FramesPerSecond(fps)) + "," + ScaleFilter(scale)
  }

  /** The `-vf` value of the palette pass. */
  function PaletteFilter(fps: FrameRate, scale: Scale, q: Quality): string {
    FilterPrefix(fps, scale) + ",palettegen=max_colors=" + NatToString(ColorCount(q))
  }

  /** The `-lavfi` value of the encode pass: the same frames, mapped through the palette. */
  function EncodeFilter(fps: FrameRate, scale: Scale): string {
    FilterPrefix(fps, scale) + " [x]; [x][1:v] paletteuse=dither=bayer"
  }

  /** First `exec`: sample the window and compute the palette into `palette.png`. */
  function PaletteArgs(start: string, length: string, fps: FrameRate, scale: Scale, q: Quality): (a: seq<string>)
    ensures |a| == 10
  {
    ["-ss", start, "-t", length, "-i", InputName, "-vf", PaletteFilter(fps, scale, q), "-y", PaletteName]
  }

  /** Second `exec`: re-sample the same window and write `out.gif` using the palette. */
  function EncodeArgs(start: string, length: string, fps: FrameRate, scale: Scale): (a: seq<string>)
    ensures |a| == 12
  {
    ["-ss", start, "-t", length, "-i", InputName, "-i", PaletteName, "-lavfi", EncodeFilter(fps, scale), "-y", OutputName]
  }

  // ---------------------------------------------------------------------------
  // Reading an argument vector back, as ffmpeg's command line does
  // ---------------------------------------------------------------------------

  /** One element of an ffmpeg command line: an option with its value, a bare flag, or an output file. */
  datatype Arg = Opt(name: string, value: string) | Flag(name: string) | Output(path: string)

  /**
    ffmpeg's reading of an argument vector: `-y` stands alone, any other word
    starting with `-` takes the next word as its value, and a plain word names
    an output file.
   */
  function ParseArgs(args: seq<string>): seq<Arg>
    decreases |args|
  {
    if args == [] then []
    else if args[0] == "-y" then [Flag("-y")] + ParseArgs(args[1..])
    else if |args| >= 2 && StartsWith(args[0], "-") then [Opt(args[0], args[1])] + ParseArgs(args[2..])
    else [Output(args[0])] + ParseArgs(args[1..])
  }

  lemma ParseOption(name: string, value: string, rest: seq<string>)
    requires StartsWith(name, "-") && name != "-y"
    ensures ParseArgs([name, value] + rest) == [Opt(name, value)] + ParseArgs(rest)
  {
    assert ([name, value] + rest)[2..] == rest;
  }

  lemma ParseOverwrite(path: string)
    requires !StartsWith(path, "-")
    ensures ParseArgs(["-y", path]) == [Flag("-y"), Output(path)]
  {
    assert path != "-y" by {
      assert StartsWith("-y", "-");
    }
    assert ["-y", path][1..] == [path];
    assert [path][1..] == [];
    assert ParseArgs([path]) == [Output(path)] + ParseArgs([]);
  }

  /** The palette pass's vector shape read back, for any filter value. */
  lemma PaletteVectorParse(start: string, length: string, vf: string)
    ensures ParseArgs(["-ss", start, "-t", length, "-i", InputName, "-vf", vf, "-y", PaletteName]) ==
      [Opt("-ss", start), Opt("-t", length), Opt("-i", InputName), Opt("-vf", vf), Flag("-y"), Output(PaletteName)]
  {
    var tail := ["-y", PaletteName];
    assert PaletteName[0] != '-';
    ParseOverwrite(PaletteName);
    ParseOption("-vf", vf, tail);
    ParseOption("-i", InputName, ["-vf", vf] + tail);
    ParseOption("-t", length, ["-i", InputName] + (["-vf", vf] + tail));
    ParseOption("-ss", start, ["-t", length] + (["-i", InputName] + (["-vf", vf] + tail)));
    assert ["-ss", start, "-t", length, "-i", InputName, "-vf", vf, "-y", PaletteName]
      == ["-ss", start] + (["-t", length] + (["-i", InputName] + (["-vf", vf] + tail)));
  }

  /**
    The palette pass reads as exactly: seek to `start`, take `length` seconds
    of `input.mp4`, run `fps=F,<scale>,palettegen=max_colors=C`, and write
    `palette.png`, overwriting it; whatever the two time strings say.
   */
  lemma PaletteArgsParse(start: string, length: string, fps: FrameRate, scale: Scale, q: Quality)
    ensures ParseArgs(PaletteArgs(start, length, fps, scale, q)) ==
      [Opt("-ss", start), Opt("-t", length), Opt("-i", InputName),
       Opt("-vf", PaletteFilter(fps, scale, q)), Flag("-y"), Output(PaletteName)]
  {
    PaletteVectorParse(start, length, PaletteFilter(fps, scale, q));
  }

  /** The encode pass's vector shape read back, for any filter graph. */
  lemma EncodeVectorParse(start: string, length: string, lavfi: string)
    ensures ParseArgs(["-ss", start, "-t", length, "-i", InputName, "-i", PaletteName, "-lavfi", lavfi, "-y", OutputName]) ==
      [Opt("-ss", start), Opt("-t", length), Opt("-i", InputName), Opt("-i", PaletteName),
       Opt("-lavfi", lavfi), Flag("-y"), Output(OutputName)]
  {
    var tail := ["-y", OutputName];
    assert OutputName[0] != '-';
    ParseOverwrite(OutputName);
    ParseOption("-lavfi", lavfi, tail);
    ParseOption("-i", PaletteName, ["-lavfi", lavfi] + tail);
    ParseOption("-i", InputName, ["-i", PaletteName] + (["-lavfi", lavfi] + tail));
    ParseOption("-t", length, ["-i", InputName] + (["-i", PaletteName] + (["-lavfi", lavfi] + tail)));
    ParseOption("-ss", start, ["-t", length] + (["-i", InputName] + (["-i", PaletteName] + (["-lavfi", lavfi] + tail))));
    assert ["-ss", start, "-t", length, "-i", InputName, "-i", PaletteName, "-lavfi", lavfi, "-y", OutputName]
      == ["-ss", start] + (["-t", length] + (["-i", InputName] + (["-i", PaletteName] + (["-lavfi", lavfi] + tail))));
  }

  /**
    The encode pass reads as exactly: the same seek and length on
    `input.mp4`, `palette.png` as a second input, the filter graph
    `fps=F,<scale> [x]; [x][1:v] paletteuse=dither=bayer`, and `out.gif` as
    the output, overwriting it.
   */
  lemma EncodeArgsParse(start: string, length: string, fps: FrameRate, scale: Scale)
    ensures ParseArgs(EncodeArgs(start, length, fps, scale)) ==
      [Opt("-ss", start), Opt("-t", length), Opt("-i", InputName), Opt("-i", PaletteName),
       Opt("-lavfi", EncodeFilter(fps, scale)), Flag("-y"), Output(OutputName)]
  {
    EncodeVectorParse(start, length, EncodeFilter(fps, scale));
  }

  /**
    The two passes read the same window of the same input through the same
    frame-rate and scale filters; the encode pass reads, as its second input,
    the palette the first pass wrote; the palette size can be read back from
    the palette filter.
   */
  lemma PassesAgree(start: string, length: string, fps: FrameRate, scale: Scale, q: Quality)
    ensures var p := ParseArgs(PaletteArgs(start, length, fps, scale, q));
      var e := ParseArgs(EncodeArgs(start, length, fps, scale));
      && |p| == 6 && |e| == 7
      && p[0] == e[0] == Opt("-ss", start)
      && p[1] == e[1] == Opt("-t", length)
      && p[2] == e[2] == Opt("-i", InputName)
      && p[5].Output? && e[3] == Opt("-i", p[5].path)
      && e[6] == Output(OutputName) && OutputName != p[5].path
      && p[3].Opt? && StartsWith(p[3].value, FilterPrefix(fps, scale))
      && e[4].Opt? && StartsWith(e[4].value, FilterPrefix(fps, scale))
    ensures var vf := PaletteFilter(fps, scale, q);
      var colors := NatToString(ColorCount(q));
      vf[|vf| - |colors|..] == colors && ParseNat(colors) == ColorCount(q)
  {
    PaletteArgsParse(start, length, fps, scale, q);
    EncodeArgsParse(start, length, fps, scale);
    var prefix := FilterPrefix(fps, scale);
    PrefixOfAppend(prefix, ",palettegen=max_colors=" + NatToString(ColorCount(q)));
    PrefixOfAppend(prefix, " [x]; [x][1:v] paletteuse=dither=bayer");
    ParseNatToString(ColorCount(q));
  }

  lemma PrefixOfAppend(a: string, b: string)
    ensures StartsWith(a + b, a)
  {
    assert (a + b)[..|a|] == a;
  }


  // ---------------------------------------------------------------------------
  // The cached ffmpeg instance
  // ---------------------------------------------------------------------------

  /** An ffmpeg.wasm instance, by identity. */
  type Engine = nat

  /** The outcome of `getFFmpeg`: the instance or the load error, the cache after, and whether `load` ran. */
  datatype EngineLookup = EngineLookup(engine: Result<Engine, string>, cache: Option<Engine>, loaded: bool)

  /**
    `getFFmpeg`: return the cached instance, or construct `newEngine` and load it;
    `loadError` is `None` when `load()` succeeds.
   */
  function GetFFmpeg(cache: Option<Engine>, newEngine: Engine, loadError: Option<string>): (r: EngineLookup)
    ensures r.loaded <==> cache.None?
    ensures r.engine.Success? <==> r.cache.Some?
    ensures r.engine.Success? ==> r.cache == Some(r.engine.value)
  {
    if cache.Some? then EngineLookup(Success(cache.value), cache, false)
    else if loadError.Some? then EngineLookup(Failure(loadError.value), None, true)
    else EngineLookup(Success(newEngine), Some(newEngine), true)
  }

  /**
    Once an instance has loaded, every later call returns that same instance
    and never loads again; a failed load leaves nothing cached, so the next
    call tries again.
   */
  lemma LoadedEngineIsReused(cache: Option<Engine>, newEngine: Engine, err: Option<string>, newEngine2: Engine, err2: Option<string>)
    ensures var first := GetFFmpeg(cache, newEngine, err);
      var second := GetFFmpeg(first.cache, newEngine2, err2);
      (first.engine.Success? ==> second.engine == first.engine && !second.loaded)
      && (first.engine.Failure? ==> second.loaded)
  {
  }

  // ---------------------------------------------------------------------------
  // generateGif
  // ---------------------------------------------------------------------------

  datatype GifOptions = GifOptions(startTime: real, endTime: real, quality: Quality, fps: FrameRate, scale: Scale)

  /** The runtime calls `generateGif` makes, in order. */
  datatype Effect = LoadEngine | WriteFile(name: string) | Exec(args: seq<string>) | ReadFile(name: string)

  /** A `Blob`: bytes and a MIME type. */
  datatype Blob = Blob(bytes: seq<uint8>, mimeType: string)

  /** The seconds `generateGif` encodes: `Math.max(0, endTime - startTime)`. */
  function ClipLength(o: GifOptions): (d: real)
    ensures d >= 0.0
    ensures d > 0.0 <==> o.startTime < o.endTime
  {
    JsNumber.Max(0.0, o.endTime - o.startTime)
  }

  /** The runtime calls of a successful `generateGif`, given whether the engine was cached. */
  function GifEffects(o: GifOptions, cached: bool, show: real -> string): seq<Effect> {
    (if cached then [] else [LoadEngine])
    + [WriteFile(InputName),
       Exec(PaletteArgs(show(o.startTime), show(ClipLength(o)), o.fps, o.scale, o.quality)),
       Exec(EncodeArgs(show(o.startTime), show(ClipLength(o)), o.fps, o.scale)),
       ReadFile(OutputName)]
  }

  /**
    The `Uint8Array` → `ArrayBuffer` copy at the end of `generateGif`: a newEngine
    buffer of the same length, filled element by element.
   */
  method CopyToBlob(data: seq<uint8>) returns (blob: Blob)
    ensures blob.bytes == data
    ensures blob.mimeType == GifMimeType
  {
    var view := new uint8[|data|];
    var i := 0;
    while i < |data|
      invariant 0 <= i <= |data|
      invariant view[..i] == data[..i]
    {
      view[i] := data[i];
      i := i + 1;
    }
    blob := Blob(view[..], GifMimeType);
  }

  /**
    `generateGif`. An empty or reversed range fails with "Invalid time range"
    before any runtime call. Otherwise the engine is obtained (a load failure
    propagates), the input is written, the two passes run, and the bytes
    ffmpeg wrote to `out.gif` (`produced`) come back as a GIF blob.
   */
  method GenerateGif(o: GifOptions, cache: Option<Engine>, newEngine: Engine, loadError: Option<string>,
                     produced: seq<uint8>, show: real -> string)
    returns (outcome: Result<Blob, string>, effects: seq<Effect>, cacheAfter: Option<Engine>)
    ensures o.endTime <= o.startTime ==> outcome == Failure(InvalidRange) && effects == [] && cacheAfter == cache
    ensures o.startTime < o.endTime && cache.None? && loadError.Some? ==>
      outcome == Failure(loadError.value) && effects == [LoadEngine] && cacheAfter == None
    ensures outcome.Success? ==>
      && o.startTime < o.endTime
      && outcome.value.bytes == produced && outcome.value.mimeType == GifMimeType
      && effects == GifEffects(o, cache.Some?, show)
      && cacheAfter.Some? && (cache.Some? ==> cacheAfter == cache)
    ensures o.startTime < o.endTime && (cache.Some? || loadError.None?) ==> outcome.Success?
  {
    if ClipLength(o) <= 0.0 {
      return Failure(InvalidRange), [], cache;
    }
    var lookup := GetFFmpeg(cache, newEngine, loadError);
    effects := if lookup.loaded then [LoadEngine] else [];
    cacheAfter := lookup.cache;
    if lookup.engine.Failure? {
      return Failure(lookup.engine.error), effects, cacheAfter;
    }
    var start := show(o.startTime);
    var length := show(ClipLength(o));
    effects := effects + [WriteFile(InputName)];
    effects := effects + [Exec(PaletteArgs(start, length, o.fps, o.scale, o.quality))];
    effects := effects + [Exec(EncodeArgs(start, length, o.fps, o.scale))];
    effects := effects + [ReadFile(OutputName)];
    var blob := CopyToBlob(produced);
    outcome := Success(blob);
  }
}
