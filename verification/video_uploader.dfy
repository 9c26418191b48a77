/**
  The video picker (web/src/components/video/VideoUploader.tsx): a drop zone
  and a hidden file input. Both hand the first chosen file to `validate`; a
  rejected file shows an error, an accepted one clears it and is passed to
  `onVideoSelect`.

  A handler returns the new state together with the files passed to
  `onVideoSelect`, in call order.
 */
module VideoUploader {
  import opened Results

  datatype VideoFile = VideoFile(name: string, size: nat, mimeType: string)

  /** The `maxSize` and `acceptedFormats` props. */
  datatype Config = Config(maxSize: int, acceptedFormats: seq<string>)

  datatype UploaderState = UploaderState(error: Option<string>, dragOver: bool)

  datatype UploaderEvent =
    | DragEntered
    | DragLeft
    | Dropped(files: seq<VideoFile>)
    | Picked(files: seq<VideoFile>)

  const DefaultMaxSize: int := 100 * 1024 * 1024
  const DefaultFormats: seq<string> := ["video/mp4", "video/quicktime", "video/x-msvideo", "video/webm"]
  const TooLarge: string := "File too large (max 100MB)"
  const UnsupportedFormat: string := "Unsupported format"

  /** The props' defaults: 100 MiB and four video types. */
  function DefaultConfig(): (c: Config)
    ensures c.maxSize == 104857600 && |c.acceptedFormats| == 4
    ensures "video/mp4" in c.acceptedFormats && "video/webm" in c.acceptedFormats
  {
    Config(DefaultMaxSize, DefaultFormats)
  }

  /** Whether `file` is within the size limit and of an accepted type. */
  ghost predicate Acceptable(c: Config, file: VideoFile) {
    file.size <= c.maxSize && file.mimeType in c.acceptedFormats
  }

  /**
    `validate`: `None` for an acceptable file, else the message. The size is
    checked first, so an oversized file of the wrong type is reported as too
    large; the message names 100MB whatever `maxSize` is.
   */
  function Validate(c: Config, file: VideoFile): (r: Option<string>)
    ensures r.None? <==> Acceptable(c, file)
    ensures file.size > c.maxSize ==> r == Some(TooLarge)
    ensures r.Some? && file.size <= c.maxSize ==> r == Some(UnsupportedFormat)
  {
    if file.size > c.maxSize then Some(TooLarge)
    else if file.mimeType !in c.acceptedFormats then Some(UnsupportedFormat)
    else None
  }

  /** The part `onDrop` and `onPick` share: act on the first file, if there is one. */
  function TakeFirst(c: Config, s: UploaderState, files: seq<VideoFile>): (r: (UploaderState, seq<VideoFile>))
    ensures files == [] ==> r == (s, [])
    ensures files != [] && !Acceptable(c, files[0]) ==> r.0.error == Validate(c, files[0]) && r.0.error.Some? && r.1 == []
    ensures files != [] && Acceptable(c, files[0]) ==> r.0.error.None? && r.1 == [files[0]]
    ensures r.0.dragOver == s.dragOver
  {
    if files == [] then (s, [])
    else
      match Validate(c, files[0])
      case Some(message) => (s.(error := Some(message)), [])
      case None => (s.(error := None), [files[0]])
  }

  /** `onDrop`: the highlight always goes off, then the first dropped file is handled. */
  function OnDrop(c: Config, s: UploaderState, files: seq<VideoFile>): (r: (UploaderState, seq<VideoFile>))
    ensures !r.0.dragOver
    ensures files == [] ==> r == (s.(dragOver := false), [])
    ensures r.1 != [] <==> files != [] && Acceptable(c, files[0])
  {
    TakeFirst(c, s.(dragOver := false), files)
  }

  /** `onPick`: the first picked file is handled; an empty pick does nothing. */
  function OnPick(c: Config, s: UploaderState, files: seq<VideoFile>): (r: (UploaderState, seq<VideoFile>))
    ensures files == [] ==> r == (s, [])
    ensures r.1 != [] <==> files != [] && Acceptable(c, files[0])
  {
    TakeFirst(c, s, files)
  }

  function Step(c: Config, s: UploaderState, e: UploaderEvent): (UploaderState, seq<VideoFile>) {
    match e
    case DragEntered => (s.(dragOver := true), [])
    case DragLeft => (s.(dragOver := false), [])
    case Dropped(files) => OnDrop(c, s, files)
    case Picked(files) => OnPick(c, s, files)
  }

  /** Runs the events from `s`, collecting every `onVideoSelect` call. */
  function Run(c: Config, s: UploaderState, events: seq<UploaderEvent>): (r: (UploaderState, seq<VideoFile>))
    decreases |events|
  {
    if events == [] then (s, [])
    else
      var first := Step(c, s, events[0]);
      var rest := Run(c, first.0, events[1..]);
      (rest.0, first.1 + rest.1)
  }

  /** The first file a drop or pick event carries, if any. */
  function Offered(e: UploaderEvent): Option<VideoFile> {
    match e
    case Dropped(files) => if files == [] then None else Some(files[0])
    case Picked(files) => if files == [] then None else Some(files[0])
    case _ => None
  }

  /** Over any run, `onVideoSelect` receives only acceptable files, at most one per event. */
  lemma {:induction false} RunDeliversOnlyAcceptable(c: Config, s: UploaderState, events: seq<UploaderEvent>)
    ensures var r := Run(c, s, events);
      && (forall i :: 0 <= i < |r.1| ==> Acceptable(c, r.1[i]))
      && |r.1| <= |events|
    decreases |events|
  {
    if events != [] {
      var first := Step(c, s, events[0]);
      RunDeliversOnlyAcceptable(c, first.0, events[1..]);
      var rest := Run(c, first.0, events[1..]);
      assert |first.1| <= 1;
      assert first.1 != [] ==> Acceptable(c, first.1[0]);
      assert forall i :: 0 <= i < |first.1 + rest.1| ==>
        (first.1 + rest.1)[i] == (if i < |first.1| then first.1[i] else rest.1[i - |first.1|]);
    }
  }

  /** An offered file is delivered exactly when it is acceptable, and the error then reflects `validate`. */
  lemma OfferDecides(c: Config, s: UploaderState, e: UploaderEvent)
    requires Offered(e).Some?
    ensures var r := Step(c, s, e); var f := Offered(e).value;
      && (Acceptable(c, f) ==> r.1 == [f] && r.0.error.None?)
      && (!Acceptable(c, f) ==> r.1 == [] && r.0.error == Validate(c, f))
  {
  }

  /** The first file of the last drop or pick that carried one, if any. */
  function LastOffered(events: seq<UploaderEvent>): Option<VideoFile>
    decreases |events|
  {
    if events == [] then None
    else
      match LastOffered(events[1..])
      case Some(f) => Some(f)
      case None => Offered(events[0])
  }

  /**
    After any run the error shown is `validate`'s verdict on the last offered
    file, so it is cleared exactly when that file was accepted; a run that
    offers no file leaves the error as it was.
   */
  lemma {:induction false} RunErrorReflectsLastOffer(c: Config, s: UploaderState, events: seq<UploaderEvent>)
    ensures var r := Run(c, s, events);
      && (LastOffered(events).Some? ==> r.0.error == Validate(c, LastOffered(events).value))
      && (LastOffered(events).Some? ==> (r.0.error.None? <==> Acceptable(c, LastOffered(events).value)))
      && (LastOffered(events).None? ==> r.0.error == s.error)
    decreases |events|
  {
    if events != [] {
      var first := Step(c, s, events[0]);
      RunErrorReflectsLastOffer(c, first.0, events[1..]);
      if Offered(events[0]).Some? {
        OfferDecides(c, s, events[0]);
      }
    }
  }
}
