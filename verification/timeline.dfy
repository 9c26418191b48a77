/**
  The mouse-driven timeline selector of the upload page
  (web/src/components/video/TimelineSelector.tsx): a selection `[start, end]`
  in seconds over a video of known duration, moved by dragging its start
  handle, its end handle or the whole selection.

  The component's `duration` state is written only by the metadata handler,
  which maps a non-finite or non-positive video duration to 0, so the state
  keeps it as a real; the coordinate mappings take the duration as a
  JavaScript number because they test it for finiteness themselves.
 */
module Timeline {
  import opened Results
  import opened JsNumber
  import opened SelectionReports

  /** Default of the `maxGifDuration` prop. */
  const DefaultMaxGifDuration: real := 30.0
  /** Length of the selection made on load and on reset. */
  const DefaultSpan: real := 3.0

  /** What the mouse is dragging. */
  datatype Handle = StartHandle | EndHandle | WholeSelection

  /** The quick-selection buttons: 1 s, 3 s, 5 s, 10 s and "Max". */
  datatype Preset = OneSecond | ThreeSeconds | FiveSeconds | TenSeconds | MaxLength

  /**
    What the document's `mousemove` listener reads. The effect that registers
    it depends on `isDragging` alone, so the listener holds the
    `handleMouseMove` of the render in which `isDragging` last changed, and
    every move of a drag reads that render's duration, selection, cap and
    offset rather than the current ones.
   */
  datatype Grab = Grab(duration: real, start: real, end: real, maxGifDuration: real, dragOffset: Num)

  /**
    The component's state; `dragging` is `isDragging`, `None` when idle, and
    `grab` is what the listener registered for the current drag reads.
   */
  datatype Selector = Selector(
    duration: real,
    start: real,
    end: real,
    currentTime: real,
    maxGifDuration: real,
    dragging: Option<Handle>,
    dragOffset: Num,
    grab: Grab)

  /**
    User and video events. `pointer` is the mouse position as a percentage of
    the timeline's width, `(clientX - rect.left) / rect.width * 100`, which is
    not finite when the timeline has no width.
   */
  datatype Event =
    | MetadataLoaded(videoDuration: Num)
    | TimelineClicked(pointer: Num)
    | HandlePressed(handle: Handle, pointer: Num)
    | PointerMoved(pointer: Num)
    | PointerReleased
    | ResetPressed
    | PresetPressed(preset: Preset)
    | MaxGifDurationChanged(maxGifDuration: real)

  /** The guard of every handler: a finite, positive duration. */
  predicate Known(duration: Num) {
    duration.Finite? && duration.v > 0.0
  }

  // ---------------------------------------------------------------------------
  // Coordinate mappings
  // ---------------------------------------------------------------------------

  /** `timeToPercent`: where `time` sits on the timeline, in percent. */
  function TimeToPercent(duration: Num, time: real): (p: real)
    ensures 0.0 <= p <= 100.0
    ensures !Known(duration) ==> p == 0.0
  {
    if !Known(duration) then 0.0
    else
      var d := duration.v;
      var clamped := Max(0.0, Min(time, d));
      assert clamped / d <= 1.0 by {
        assert clamped <= d;
      }
      (clamped / d) * 100.0
  }

  /** `percentToTime`: the time at `percent` of the timeline, in seconds. */
  function PercentToTime(duration: Num, percent: Num): (t: real)
    ensures !Known(duration) || !percent.Finite? ==> t == 0.0
    ensures Known(duration) ==> 0.0 <= t <= duration.v
  {
    if !Known(duration) then 0.0
    else if !percent.Finite? then 0.0
    else
      var clamped := Max(0.0, Min(percent.v, 100.0));
      assert (clamped / 100.0) * duration.v <= duration.v by {
        assert clamped / 100.0 <= 1.0;
      }
      (clamped / 100.0) * duration.v
  }

  /** `clampTime`: `time` forced into `[0, duration]`; 0 when either is unusable. */
  function ClampTime(duration: Num, time: Num): (t: real)
    ensures !time.Finite? || !Known(duration) ==> t == 0.0
    ensures Known(duration) ==> 0.0 <= t <= duration.v
    ensures Known(duration) && time.Finite? && 0.0 <= time.v <= duration.v ==> t == time.v
  {
    if !time.Finite? then 0.0
    else if !Known(duration) then 0.0
    else Max(0.0, Min(time.v, duration.v))
  }

  /** Mapping a time to a percentage and back gives the time clamped into the video. */
  lemma PercentRoundTrip(duration: Num, time: real)
    requires Known(duration)
    ensures PercentToTime(duration, Finite(TimeToPercent(duration, time))) == Max(0.0, Min(time, duration.v))
  {
    var d := duration.v;
    var c := Max(0.0, Min(time, d));
    var p := (c / d) * 100.0;
    assert p == TimeToPercent(duration, time);
    assert 0.0 <= p <= 100.0;
    calc {
      (p / 100.0) * d;
      ((c / d) * 100.0 / 100.0) * d;
      (c / d) * d;
      c;
    }
  }

  /** Moving the pointer right never moves the mapped time left. */
  lemma PercentToTimeMonotone(duration: Num, p: real, q: real)
    requires p <= q
    ensures PercentToTime(duration, Finite(p)) <= PercentToTime(duration, Finite(q))
  {
    if Known(duration) {
      var a := Max(0.0, Min(p, 100.0));
      var b := Max(0.0, Min(q, 100.0));
      assert (b / 100.0) * duration.v - (a / 100.0) * duration.v == ((b - a) / 100.0) * duration.v;
      assert ((b - a) / 100.0) * duration.v >= 0.0;
    }
  }

  // ---------------------------------------------------------------------------
  // Initial state and the selection-resetting updates
  // ---------------------------------------------------------------------------

  /** The `maxGifDuration` prop, or its default when the parent leaves it out. */
  function CapProp(prop: Option<real>): (cap: real)
    ensures prop.None? ==> cap == DefaultMaxGifDuration
    ensures prop.Some? ==> cap == prop.value
  {
    if prop.Some? then prop.value else DefaultMaxGifDuration
  }

  /** What the listener of a drag begun in state `s` reads. */
  function Snapshot(s: Selector): Grab {
    Grab(s.duration, s.start, s.end, s.maxGifDuration, s.dragOffset)
  }

  /** The state on mount, before the video's metadata is known. */
  function Init(prop: Option<real>): (s: Selector)
    ensures s.duration == 0.0 && s.start == 0.0 && s.currentTime == 0.0 && s.dragging.None?
    ensures s.maxGifDuration == CapProp(prop)
    ensures s.end == Min(DefaultSpan, s.maxGifDuration)
    ensures prop.None? ==> s.end == DefaultSpan
  {
    var cap := CapProp(prop);
    var s := Selector(0.0, 0.0, Min(DefaultSpan, cap), 0.0, cap, None, Finite(0.0), Grab(0.0, 0.0, 0.0, cap, Finite(0.0)));
    s.(grab := Snapshot(s))
  }

  /** The duration kept from the video's reported one: non-finite or non-positive becomes 0. */
  function UsableDuration(videoDuration: Num): (d: real)
    ensures d >= 0.0
    ensures Known(videoDuration) <==> d > 0.0
    ensures Known(videoDuration) ==> d == videoDuration.v
  {
    if videoDuration.Finite? && videoDuration.v > 0.0 then videoDuration.v else 0.0
  }

  /** `onLoadedMetadata`: adopt the duration and select its first seconds. */
  function LoadMetadata(s: Selector, videoDuration: Num): (t: Selector)
    ensures t.duration == UsableDuration(videoDuration)
    ensures t.start == 0.0 && t.currentTime == 0.0
    ensures t.end == Min(DefaultSpan, Min(s.maxGifDuration, t.duration))
    ensures t.maxGifDuration == s.maxGifDuration && t.dragging == s.dragging
  {
    var d := UsableDuration(videoDuration);
    s.(duration := d, start := 0.0, end := Min(DefaultSpan, Min(s.maxGifDuration, d)), currentTime := 0.0)
  }

  /** `resetSelection`: back to the first seconds and rewind the player. */
  function ResetSelection(s: Selector): (t: Selector)
    ensures t.start == 0.0 && t.currentTime == 0.0
    ensures t.end == Min(DefaultSpan, Min(s.maxGifDuration, s.duration))
    ensures t.duration == s.duration && t.maxGifDuration == s.maxGifDuration && t.dragging == s.dragging
  {
    s.(start := 0.0, end := Min(DefaultSpan, Min(s.maxGifDuration, s.duration)), currentTime := 0.0)
  }

  /** Seconds a quick-selection button asks for; `None` for "Max". */
  function PresetLength(p: Preset): Option<real> {
    match p
    case OneSecond => Some(1.0)
    case ThreeSeconds => Some(3.0)
    case FiveSeconds => Some(5.0)
    case TenSeconds => Some(10.0)
    case MaxLength => None
  }

  /** A quick-selection button: select from 0 for the preset length, capped. */
  function ApplyPreset(s: Selector, p: Preset): (t: Selector)
    ensures t.start == 0.0
    ensures PresetLength(p).Some? ==> t.end == Min(PresetLength(p).value, Min(s.maxGifDuration, s.duration))
    ensures PresetLength(p).None? ==> t.end == Min(s.maxGifDuration, s.duration)
    ensures t.duration == s.duration && t.currentTime == s.currentTime && t.dragging == s.dragging
  {
    var cap := Min(s.maxGifDuration, s.duration);
    match PresetLength(p)
    case Some(k) => s.(start := 0.0, end := Min(k, cap))
    case None => s.(start := 0.0, end := cap)
  }

  /**
    Load, reset and the presets all select from 0, never past the cap or the
    video, and select exactly the asked length when it fits.
   */
  lemma FreshSelections(s: Selector, videoDuration: Num, p: Preset)
    requires s.maxGifDuration >= 0.0 && s.duration >= 0.0
    ensures var t := LoadMetadata(s, videoDuration);
      t.start == 0.0 <= t.end <= s.maxGifDuration && t.end <= t.duration
      && (DefaultSpan <= s.maxGifDuration && DefaultSpan <= t.duration ==> t.end == DefaultSpan)
    ensures var t := ResetSelection(s);
      t.start == 0.0 <= t.end <= s.maxGifDuration && t.end <= s.duration
      && (DefaultSpan <= s.maxGifDuration && DefaultSpan <= s.duration ==> t.end == DefaultSpan)
    ensures var t := ApplyPreset(s, p); var k := PresetLength(p);
      t.start == 0.0 <= t.end <= s.maxGifDuration && t.end <= s.duration
      && (k.Some? && k.value <= s.maxGifDuration && k.value <= s.duration ==> t.end == k.value)
  {
  }

  // ---------------------------------------------------------------------------
  // Mouse handlers
  // ---------------------------------------------------------------------------

  /** `handleTimelineClick`: seek the player to the clicked time. */
  function Click(s: Selector, pointer: Num): (t: Selector)
    ensures s.dragging.Some? || s.duration <= 0.0 ==> t == s
    ensures t.start == s.start && t.end == s.end && t.duration == s.duration
    ensures s.dragging.None? && s.duration > 0.0 ==> 0.0 <= t.currentTime <= s.duration
  {
    if s.dragging.Some? then s
    else if !Known(Finite(s.duration)) then s
    else
      var d := Finite(s.duration);
      s.(currentTime := ClampTime(d, Finite(PercentToTime(d, pointer))))
  }

  /**
    `handleMouseDown`: start dragging; a whole-selection drag remembers where
    it was grabbed. The listener is registered afresh, reading this state,
    exactly when `isDragging` changes; pressing the handle already being
    dragged leaves the old listener in place.
   */
  function MouseDown(s: Selector, handle: Handle, pointer: Num): (t: Selector)
    ensures s.duration <= 0.0 ==> t == s
    ensures s.duration > 0.0 ==> t.dragging == Some(handle)
    ensures t.start == s.start && t.end == s.end && t.duration == s.duration && t.currentTime == s.currentTime
    ensures t.maxGifDuration == s.maxGifDuration
    ensures s.duration > 0.0 && handle == WholeSelection && pointer.Finite? ==>
      t.dragOffset.Finite? && t.dragOffset.v == pointer.v - TimeToPercent(Finite(s.duration), s.start)
    ensures s.duration > 0.0 && s.dragging != Some(handle) ==>
      t.grab == Grab(s.duration, s.start, s.end, s.maxGifDuration, t.dragOffset)
    ensures s.dragging == Some(handle) ==> t.grab == s.grab
  {
    if !Known(Finite(s.duration)) then s
    else
      var pressed :=
        if handle == WholeSelection then
          var startPercent := TimeToPercent(Finite(s.duration), s.start);
          s.(dragging := Some(handle), dragOffset := Minus(pointer, startPercent))
        else s.(dragging := Some(handle));
      if s.dragging == Some(handle) then pressed else pressed.(grab := Snapshot(pressed))
  }

  /** The start-handle branch of `handleMouseMove`, for the pointer's time `time`. */
  function DragStart(s: Selector, g: Grab, time: real): (t: Selector)
    requires g.duration > 0.0
    ensures 0.0 <= t.start <= g.duration
    ensures t.start <= Max(0.0, g.end - MinGap)
    ensures 0.0 <= time <= g.duration && time <= g.end - MinGap ==> t.start == time
    ensures time >= g.end - MinGap && 0.0 <= g.end - MinGap <= g.duration ==> t.start == g.end - MinGap
    ensures time <= 0.0 ==> t.start == 0.0
    ensures t.end == s.end && t.currentTime == t.start
    ensures t.duration == s.duration && t.maxGifDuration == s.maxGifDuration && t.dragging == s.dragging
    ensures t.grab == s.grab && t.dragOffset == s.dragOffset
  {
    var d := Finite(g.duration);
    var proposed := Max(0.0, Min(time, g.end - MinGap));
    var newStart := ClampTime(d, Finite(proposed));
    s.(start := newStart, currentTime := newStart)
  }

  /** The end-handle branch of `handleMouseMove`, for the pointer's time `time`. */
  function DragEnd(s: Selector, g: Grab, time: real): (t: Selector)
    requires g.duration > 0.0
    ensures 0.0 <= t.end <= g.duration
    ensures 0.0 <= g.start <= g.duration ==> g.start <= t.end
    ensures 0.0 <= g.start && g.start + MinGap <= g.duration && g.maxGifDuration >= MinGap ==>
      g.start + MinGap <= t.end <= Min(g.duration, g.start + g.maxGifDuration)
    ensures 0.0 <= g.start && g.start + MinGap <= time <= Min(g.duration, g.start + g.maxGifDuration) ==> t.end == time
    ensures 0.0 <= g.start && g.start + MinGap <= Min(g.duration, g.start + g.maxGifDuration) ==>
      && (time <= g.start + MinGap ==> t.end == g.start + MinGap)
      && (time >= Min(g.duration, g.start + g.maxGifDuration) ==> t.end == Min(g.duration, g.start + g.maxGifDuration))
    ensures t.start == s.start && t.currentTime == t.end
    ensures t.duration == s.duration && t.maxGifDuration == s.maxGifDuration && t.dragging == s.dragging
    ensures t.grab == s.grab && t.dragOffset == s.dragOffset
  {
    var d := Finite(g.duration);
    var proposed := Max(g.start + MinGap, Min(time, Min(g.start + g.maxGifDuration, g.duration)));
    var newEnd := ClampTime(d, Finite(proposed));
    s.(end := newEnd, currentTime := newEnd)
  }

  /** The whole-selection branch of `handleMouseMove`, for the clamped pointer `percent`. */
  function DragSelection(s: Selector, g: Grab, percent: Num): (t: Selector)
    requires g.duration > 0.0
    ensures 0.0 <= t.start <= g.duration && 0.0 <= t.end <= g.duration
    ensures 0.0 <= g.start <= g.end <= g.duration && g.maxGifDuration >= 0.0 ==>
      t.start <= t.end && t.end - t.start == Min(g.end - g.start, g.maxGifDuration)
    ensures percent.Finite? && g.dragOffset.Finite? && 0.0 <= g.start <= g.end <= g.duration ==>
      var aimed := PercentToTime(Finite(g.duration), Finite(percent.v - g.dragOffset.v));
      0.0 <= aimed <= g.duration - (g.end - g.start) ==> t.start == aimed
    ensures t.currentTime == t.start
    ensures t.duration == s.duration && t.maxGifDuration == s.maxGifDuration && t.dragging == s.dragging
    ensures t.grab == s.grab && t.dragOffset == s.dragOffset
  {
    var d := Finite(g.duration);
    var adjusted := if g.dragOffset.Finite? then Minus(percent, g.dragOffset.v) else percent;
    var span := Max(0.0, g.end - g.start);
    var proposed := Max(0.0, Min(PercentToTime(d, adjusted), g.duration - span));
    var newStart := ClampTime(d, Finite(proposed));
    var newEnd := ClampTime(d, Finite(Min(newStart + span, Min(newStart + g.maxGifDuration, g.duration))));
    s.(start := newStart, end := newEnd, currentTime := newStart)
  }

  /** The pointer percentage `handleMouseMove` works with: forced into `[0, 100]` unless NaN. */
  function PointerPercent(pointer: Num): (p: Num)
    ensures p.NaN? <==> pointer.NaN?
    ensures !p.NaN? ==> p.Finite? && 0.0 <= p.v <= 100.0
  {
    MathMax(Finite(0.0), MathMin(Finite(100.0), pointer))
  }

  /**
    `handleMouseMove`, as registered for the current drag: move whatever is
    being dragged to the pointer, reading the values `grab` holds. Without a
    drag no listener is registered.
   */
  function MouseMove(s: Selector, pointer: Num): (t: Selector)
    ensures s.dragging.None? || s.grab.duration <= 0.0 ==> t == s
    ensures t.duration == s.duration && t.maxGifDuration == s.maxGifDuration && t.dragging == s.dragging
    ensures t.grab == s.grab && t.dragOffset == s.dragOffset
    ensures s.dragging == Some(StartHandle) ==> t.end == s.end
    ensures s.dragging == Some(EndHandle) ==> t.start == s.start
  {
    if s.dragging.None? || !Known(Finite(s.grab.duration)) then s
    else
      var g := s.grab;
      var percent := PointerPercent(pointer);
      var time := PercentToTime(Finite(g.duration), percent);
      match s.dragging.value
      case StartHandle => DragStart(s, g, time)
      case EndHandle => DragEnd(s, g, time)
      case WholeSelection => DragSelection(s, g, percent)
  }

  /**
    Every move of a drag is computed from the drag's beginning and the
    pointer alone, so a later move wipes out an earlier one: only the last
    pointer position matters.
   */
  lemma LastMoveWins(s: Selector, p1: Num, p2: Num)
    ensures MouseMove(MouseMove(s, p1), p2) == MouseMove(s, p2)
  {
  }

  /**
    A selection wider than the cap, dragged whole: each move takes the grabbed
    span, cut to the cap, from where the drag began, so moving twice to the
    far right leaves the selection where one move puts it.
   */
  lemma WholeDragUsesGrabbedSpan()
    ensures var s := Selector(100.0, 10.0, 30.0, 10.0, 10.0, None, Finite(0.0), Grab(0.0, 0.0, 0.0, 0.0, Finite(0.0)));
      var pressed := MouseDown(s, WholeSelection, Finite(10.0));
      var once := MouseMove(pressed, Finite(100.0));
      var twice := MouseMove(once, Finite(100.0));
      && once.start == 80.0 && once.end == 90.0
      && twice.start == 80.0 && twice.end == 90.0
  {
    var s := Selector(100.0, 10.0, 30.0, 10.0, 10.0, None, Finite(0.0), Grab(0.0, 0.0, 0.0, 0.0, Finite(0.0)));
    var pressed := MouseDown(s, WholeSelection, Finite(10.0));
    GrabbedAtPress(s);
    MoveToRightEnd(pressed);
    LastMoveWins(pressed, Finite(100.0), Finite(100.0));
  }

  lemma GrabbedAtPress(s: Selector)
    requires s.duration == 100.0 && s.start == 10.0 && s.end == 30.0 && s.maxGifDuration == 10.0 && s.dragging.None?
    ensures MouseDown(s, WholeSelection, Finite(10.0)).dragging == Some(WholeSelection)
    ensures MouseDown(s, WholeSelection, Finite(10.0)).grab == Grab(100.0, 10.0, 30.0, 10.0, Finite(0.0))
  {
    assert TimeToPercent(Finite(100.0), 10.0) == 10.0;
  }

  lemma MoveToRightEnd(s: Selector)
    requires s.dragging == Some(WholeSelection) && s.grab == Grab(100.0, 10.0, 30.0, 10.0, Finite(0.0))
    ensures MouseMove(s, Finite(100.0)).start == 80.0 && MouseMove(s, Finite(100.0)).end == 90.0
  {
    var g := s.grab;
    assert PointerPercent(Finite(100.0)) == Finite(100.0);
    assert MouseMove(s, Finite(100.0)) == DragSelection(s, g, Finite(100.0));
    assert PercentToTime(Finite(100.0), Finite(100.0)) == 100.0;
    assert ClampTime(Finite(100.0), Finite(80.0)) == 80.0;
    assert ClampTime(Finite(100.0), Finite(90.0)) == 90.0;
  }

  /** `handleMouseUp` (listened to only while dragging): stop dragging, forget the offset. */
  function MouseUp(s: Selector): (t: Selector)
    ensures t.dragging.None?
    ensures t.start == s.start && t.end == s.end && t.duration == s.duration && t.currentTime == s.currentTime
  {
    if s.dragging.None? then s else s.(dragging := None, dragOffset := Finite(0.0))
  }

  /** One event. */
  function Step(s: Selector, e: Event): Selector {
    match e
    case MetadataLoaded(v) => LoadMetadata(s, v)
    case TimelineClicked(p) => Click(s, p)
    case HandlePressed(h, p) => MouseDown(s, h, p)
    case PointerMoved(p) => MouseMove(s, p)
    case PointerReleased => MouseUp(s)
    case ResetPressed => ResetSelection(s)
    case PresetPressed(p) => ApplyPreset(s, p)
    case MaxGifDurationChanged(m) => s.(maxGifDuration := m)
  }

  // ---------------------------------------------------------------------------
  // Invariants over runs
  // ---------------------------------------------------------------------------

  /**
    What every reachable state satisfies: an ordered selection inside the
    video once the duration is known, and a playhead inside the video; during
    a drag, the listener's values are an ordered selection in the same video,
    and the bound the dragged handle moves against is the one it read.
   */
  ghost predicate Valid(s: Selector) {
    && s.duration >= 0.0
    && s.maxGifDuration >= 0.0
    && 0.0 <= s.start <= s.end
    && (s.duration > 0.0 ==> s.end <= s.duration)
    && 0.0 <= s.currentTime <= s.duration
    && (s.dragging.Some? ==> DragValid(s))
  }

  ghost predicate DragValid(s: Selector) {
    var g := s.grab;
    && s.duration > 0.0 && g.duration == s.duration
    && g.maxGifDuration >= 0.0
    && 0.0 <= g.start <= g.end <= g.duration
    && (s.dragging == Some(StartHandle) ==> s.end == g.end)
    && (s.dragging == Some(EndHandle) ==> s.start == g.start)
  }

  /**
    The events that can arrive in state `s`: the cap the page passes is never
    negative, and while the mouse button is held for a drag no button can be
    clicked and no new video is loaded.
   */
  ghost predicate Possible(s: Selector, e: Event) {
    && (e.MaxGifDurationChanged? ==> e.maxGifDuration >= 0.0)
    && (s.dragging.Some? ==> !(e.MetadataLoaded? || e.ResetPressed? || e.PresetPressed?))
  }

  lemma StepKeepsValid(s: Selector, e: Event)
    requires Valid(s) && Possible(s, e)
    ensures Valid(Step(s, e))
  {
    match e
    case PointerMoved(p) =>
      if s.dragging.Some? && s.dragging.value == EndHandle {
        var t := Step(s, e);
        assert t.start == s.grab.start <= t.end;
      }
    case _ =>
  }

  function Selection(s: Selector): SelectionReports.Pair {
    (s.start, s.end)
  }

  /**
    The events after which the page renders for reasons of its own: the
    metadata handler calls `onMetadata`, whose `setVideoMeta` stores a new
    object, and a new cap is a render of the page.
   */
  predicate PageRenders(e: Event) {
    e.MetadataLoaded? || e.MaxGifDurationChanged?
  }

  /** Runs `events` from `s` with the page holding `s`'s selection, collecting the `onTimeSelect` reports. */
  function Run(s: Selector, events: seq<Event>): (Selector, seq<SelectionReports.Pair>) {
    SelectionReports.Run(Step, Selection, PageRenders, s, Selection(s), events)
  }

  /**
    The component's life: mount, whose effect reports the initial pair to a
    page holding `(0, 0)`, then `events`.
   */
  function Session(prop: Option<real>, events: seq<Event>): (r: (Selector, seq<SelectionReports.Pair>))
    ensures |r.1| >= 1 && r.1[0] == (0.0, Min(DefaultSpan, CapProp(prop)))
    ensures CapProp(prop) > 0.0 ==> |r.1| >= 2 && r.1[1] == r.1[0]
  {
    var s := Init(prop);
    var run := Run(s, events);
    (run.0, SelectionReports.Deliver(Selection(s), SelectionReports.PageStart) + run.1)
  }

  /** Every state a run reaches is valid, whatever possible events it consists of. */
  lemma {:induction false} RunKeepsValid(s: Selector, events: seq<Event>)
    requires Valid(s)
    requires forall i :: 0 <= i < |events| ==> Possible(Run(s, events[..i]).0, events[i])
    ensures Valid(Run(s, events).0)
    decreases |events|
  {
    if events != [] {
      var e := events[0];
      var next := Step(s, e);
      assert events[..0] == [];
      StepKeepsValid(s, e);
      forall i | 0 <= i < |events[1..]|
        ensures Possible(Run(next, events[1..][..i]).0, events[1..][i])
      {
        assert events[..i + 1] == [e] + events[1..][..i];
        assert Possible(Run(s, events[..i + 1]).0, events[i + 1]);
      }
      RunKeepsValid(next, events[1..]);
    }
  }

  /**
    After any session the page's last `onTimeSelect` call carries the current
    selection, and that selection is valid.
   */
  lemma SessionReportsCurrentSelection(prop: Option<real>, events: seq<Event>)
    requires CapProp(prop) >= 0.0
    requires forall i :: 0 <= i < |events| ==> Possible(Run(Init(prop), events[..i]).0, events[i])
    ensures var r := Session(prop, events);
      r.1[|r.1| - 1] == (r.0.start, r.0.end) && Valid(r.0)
  {
    var s := Init(prop);
    SelectionReports.LastReportIsCurrent(Step, Selection, PageRenders, s, Selection(s), events);
    RunKeepsValid(s, events);
  }

  /**
    The start handle can pull the selection past `maxGifDuration`: only the
    end handle and the whole-selection drag apply the cap.
   */
  lemma StartDragIgnoresCap()
    ensures var s := Selector(100.0, 10.0, 20.0, 10.0, 10.0, Some(StartHandle), Finite(0.0), Grab(100.0, 10.0, 20.0, 10.0, Finite(0.0)));
      var t := MouseMove(s, Finite(0.0));
      Valid(s) && s.end - s.start <= s.maxGifDuration && Valid(t) && t.end - t.start > t.maxGifDuration
  {
    var s := Selector(100.0, 10.0, 20.0, 10.0, 10.0, Some(StartHandle), Finite(0.0), Grab(100.0, 10.0, 20.0, 10.0, Finite(0.0)));
    assert PointerPercent(Finite(0.0)) == Finite(0.0);
    assert PercentToTime(Finite(100.0), Finite(0.0)) == 0.0;
  }

  /**
    Why `Possible` excludes a reset during a drag: the start-handle listener
    still reads the old end, so the next move would put the start after the
    reset end.
   */
  lemma ResetMidDragOrdersWrongly()
    ensures var s := Selector(100.0, 10.0, 50.0, 10.0, 30.0, Some(StartHandle), Finite(0.0), Grab(100.0, 10.0, 50.0, 30.0, Finite(0.0)));
      var t := MouseMove(ResetSelection(s), Finite(40.0));
      Valid(s) && t.start > t.end
  {
    var s := Selector(100.0, 10.0, 50.0, 10.0, 30.0, Some(StartHandle), Finite(0.0), Grab(100.0, 10.0, 50.0, 30.0, Finite(0.0)));
    assert ResetSelection(s).end == 3.0;
    assert PointerPercent(Finite(40.0)) == Finite(40.0);
    assert PercentToTime(Finite(100.0), Finite(40.0)) == 40.0;
  }
}
