/**
  The older slider-based selector (web/src/app/components/video/TimelineSelector.tsx):
  two range inputs for start and end. The browser keeps each slider's value
  inside the bounds the component declares; the change handlers then clamp
  against the other bound.
 */
module SliderTimeline {
  import opened Results
  import opened JsNumber
  import opened SelectionReports

  /** Default of the `maxGifDuration` prop. */
  const DefaultMaxGifDuration: real := 10.0

  /** `duration` is whatever the video last reported, NaN included. */
  datatype SliderSelector = SliderSelector(duration: Num, start: real, end: real, maxGifDuration: real)

  datatype SliderEvent =
    | DurationLoaded(videoDuration: Num)
    | StartSlid(value: real)
    | EndSlid(value: real)

  /**
    The state on mount: `[0, 3]`, duration 0 until the video reports one, and
    the `maxGifDuration` prop, or its default when the parent leaves it out.
   */
  function Init(prop: Option<real>): (s: SliderSelector)
    ensures s.start == 0.0 && s.end == 3.0 && s.duration == Finite(0.0)
    ensures prop.Some? ==> s.maxGifDuration == prop.value
    ensures prop.None? ==> s.maxGifDuration == DefaultMaxGifDuration
    ensures Ordered(s)
  {
    SliderSelector(Finite(0.0), 0.0, 3.0, if prop.Some? then prop.value else DefaultMaxGifDuration)
  }

  /** The start slider's `min` and `max` attributes. */
  function StartBounds(s: SliderSelector): (b: (Num, Num))
    ensures b.0 == Finite(0.0)
    ensures s.duration.Finite? ==> b.1 == Finite(Max(0.0, s.duration.v - MinGap))
  {
    (Finite(0.0), MathMax(Finite(0.0), Minus(s.duration, MinGap)))
  }

  /** The end slider's `min` and `max` attributes. */
  function EndBounds(s: SliderSelector): (b: (real, Num))
    ensures b.0 == s.start + MinGap && b.1 == s.duration
  {
    (s.start + MinGap, s.duration)
  }

  /** Start slider `onChange`: never closer than `MinGap` to the end. */
  function SlideStart(s: SliderSelector, value: real): (t: SliderSelector)
    ensures t.start <= s.end - MinGap
    ensures value <= s.end - MinGap ==> t.start == value
    ensures value >= s.end - MinGap ==> t.start == s.end - MinGap
    ensures t.end == s.end && t.duration == s.duration && t.maxGifDuration == s.maxGifDuration
  {
    s.(start := Min(value, s.end - MinGap))
  }

  /** End slider `onChange`: never more than `maxGifDuration` after the start. */
  function SlideEnd(s: SliderSelector, value: real): (t: SliderSelector)
    ensures t.end - t.start <= s.maxGifDuration
    ensures value <= s.start + s.maxGifDuration ==> t.end == value
    ensures value >= s.start + s.maxGifDuration ==> t.end == s.start + s.maxGifDuration
    ensures t.start == s.start && t.duration == s.duration && t.maxGifDuration == s.maxGifDuration
  {
    s.(end := Min(value, s.start + s.maxGifDuration))
  }

  function Step(s: SliderSelector, e: SliderEvent): SliderSelector {
    match e
    case DurationLoaded(d) => s.(duration := d)
    case StartSlid(v) => SlideStart(s, v)
    case EndSlid(v) => SlideEnd(s, v)
  }

  /** The browser only produces slider values inside the declared bounds. */
  ghost predicate WithinBounds(s: SliderSelector, e: SliderEvent) {
    match e
    case DurationLoaded(_) => true
    case StartSlid(v) => StartBounds(s).0.v <= v
    case EndSlid(v) => EndBounds(s).0 <= v
  }

  /** The selection order the sliders keep. */
  ghost predicate Ordered(s: SliderSelector) {
    0.0 <= s.start && s.start + MinGap <= s.end
  }

  function Selection(s: SliderSelector): SelectionReports.Pair {
    (s.start, s.end)
  }

  /** No slider event makes the page render on its own: the page passes no other callback. */
  predicate PageRenders(e: SliderEvent) {
    false
  }

  /** Runs `events` from `s` with the page holding `s`'s selection, collecting the `onTimeSelect` reports. */
  function Run(s: SliderSelector, events: seq<SliderEvent>): (SliderSelector, seq<SelectionReports.Pair>) {
    SelectionReports.Run(Step, Selection, PageRenders, s, Selection(s), events)
  }

  /**
    The component's life: mount, whose effect reports `(0, 3)` to a page
    holding `(0, 0)` and so comes back once, then `events`.
   */
  function Session(prop: Option<real>, events: seq<SliderEvent>): (r: (SliderSelector, seq<SelectionReports.Pair>))
    ensures |r.1| >= 2 && r.1[0] == r.1[1] == (0.0, 3.0)
  {
    var s := Init(prop);
    var run := Run(s, events);
    (run.0, SelectionReports.Deliver(Selection(s), SelectionReports.PageStart) + run.1)
  }

  /**
    With slider values inside their bounds and a cap of at least `MinGap`, the
    start never goes below 0 and stays at least `MinGap` before the end.
   */
  lemma {:induction false} SlidersKeepOrder(s: SliderSelector, events: seq<SliderEvent>)
    requires Ordered(s) && s.maxGifDuration >= MinGap
    requires forall i :: 0 <= i < |events| ==> WithinBounds(Run(s, events[..i]).0, events[i])
    ensures Ordered(Run(s, events).0)
    decreases |events|
  {
    if events != [] {
      var e := events[0];
      var next := Step(s, e);
      assert events[..0] == [];
      assert WithinBounds(s, e);
      assert Ordered(next);
      forall i | 0 <= i < |events[1..]|
        ensures WithinBounds(Run(next, events[1..][..i]).0, events[1..][i])
      {
        assert events[..i + 1] == [e] + events[1..][..i];
        assert WithinBounds(Run(s, events[..i + 1]).0, events[i + 1]);
      }
      SlidersKeepOrder(next, events[1..]);
    }
  }

  /** Every slider change reaches `onTimeSelect`: the last report is the current pair. */
  lemma SliderReportsCurrentSelection(prop: Option<real>, events: seq<SliderEvent>)
    ensures var r := Session(prop, events);
      r.1[|r.1| - 1] == (r.0.start, r.0.end)
  {
    SelectionReports.LastReportIsCurrent(Step, Selection, PageRenders, Init(prop), Selection(Init(prop)), events);
  }
}
