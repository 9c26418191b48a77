/**
  Both timeline selectors report their selection through an effect that
  calls `onTimeSelect(start, end)`. The effect depends on `start`, `end` and
  the callback itself. Both pages pass a fresh inline arrow on every render
  that stores the pair in their own `start`/`end` state. So the effect also
  runs after every render of the page, and a report that changes what the
  page holds comes back once more. This module runs a selector over a
  sequence of events and collects the reports.
 */
module SelectionReports {

  /** A reported `(start, end)` pair, in seconds. */
  type Pair = (real, real)

  /** Smallest gap both selectors keep between start and end, in seconds. */
  const MinGap: real := 0.1

  /** What both upload pages hold before the first report. */
  const PageStart: Pair := (0.0, 0.0)

  /**
    One run of the effect with `p`, delivered to a page that holds `shown`.
    When `p` differs, the page stores it and renders again with a new arrow,
    and the effect runs a second time with the same pair. The page then
    stores the same numbers, and React skips that render.
   */
  function Deliver(p: Pair, shown: Pair): (r: seq<Pair>)
    ensures 1 <= |r| <= 2 && forall k :: 0 <= k < |r| ==> r[k] == p
    ensures |r| == 2 <==> p != shown
  {
    if p == shown then [p] else [p, p]
  }

  /**
    Runs `events` from `s` while the page holds `shown`. Returns the final
    state and the reports issued, oldest first. The effect runs after an
    event that moves the selection, and after one for which `rerenders`
    says that the page renders for reasons of its own.
   */
  function Run<S, E>(step: (S, E) -> S, selection: S -> Pair, rerenders: E -> bool, s: S, shown: Pair, events: seq<E>): (r: (S, seq<Pair>))
    ensures |r.1| <= 2 * |events|
    decreases |events|
  {
    if events == [] then (s, [])
    else
      var next := step(s, events[0]);
      var p := selection(next);
      var report := if p != selection(s) || rerenders(events[0]) then Deliver(p, shown) else [];
      var rest := Run(step, selection, rerenders, next, if report == [] then shown else p, events[1..]);
      (rest.0, report + rest.1)
  }

  /** The states a run passes through, the starting one included. */
  function States<S, E>(step: (S, E) -> S, s: S, events: seq<E>): (t: seq<S>)
    ensures |t| == |events| + 1 && t[0] == s
    decreases |events|
  {
    if events == [] then [s] else [s] + States(step, step(s, events[0]), events[1..])
  }

  /**
    The page is never left behind. After any run, the last report is the
    final selection. A run that reports nothing ends on the selection it
    started from.
   */
  lemma {:induction false} LastReportIsCurrent<S, E>(step: (S, E) -> S, selection: S -> Pair, rerenders: E -> bool, s: S, shown: Pair, events: seq<E>)
    ensures var r := Run(step, selection, rerenders, s, shown, events);
      if r.1 == [] then selection(r.0) == selection(s) else r.1[|r.1| - 1] == selection(r.0)
    decreases |events|
  {
    if events != [] {
      var next := step(s, events[0]);
      var p := selection(next);
      var report := if p != selection(s) || rerenders(events[0]) then Deliver(p, shown) else [];
      LastReportIsCurrent(step, selection, rerenders, next, if report == [] then shown else p, events[1..]);
    }
  }

  /** `p` is the selection of one of the states `t` passes through after its first. */
  ghost predicate Reached<S>(selection: S -> Pair, t: seq<S>, p: Pair) {
    exists i :: 0 < i < |t| && p == selection(t[i])
  }

  /** Nothing but selections the run actually reached is ever reported. */
  lemma {:induction false} ReportsAreReached<S, E>(step: (S, E) -> S, selection: S -> Pair, rerenders: E -> bool, s: S, shown: Pair, events: seq<E>, k: nat)
    requires k < |Run(step, selection, rerenders, s, shown, events).1|
    ensures Reached(selection, States(step, s, events), Run(step, selection, rerenders, s, shown, events).1[k])
    decreases |events|
  {
    var r := Run(step, selection, rerenders, s, shown, events);
    var t := States(step, s, events);
    var next := step(s, events[0]);
    var p := selection(next);
    var report := if p != selection(s) || rerenders(events[0]) then Deliver(p, shown) else [];
    var shown' := if report == [] then shown else p;
    var rest := Run(step, selection, rerenders, next, shown', events[1..]);
    var t' := States(step, next, events[1..]);
    assert r.1 == report + rest.1;
    if k < |report| {
      assert r.1[k] == selection(t[1]);
    } else {
      ReportsAreReached(step, selection, rerenders, next, shown', events[1..], k - |report|);
      var j :| 0 < j < |t'| && rest.1[k - |report|] == selection(t'[j]);
      assert t[j + 1] == t'[j];
    }
  }

  /**
    No report is missed. An event that moves the selection, or after which the
    page renders, reports the selection it leads to.
   */
  lemma {:induction false} ChangesAreReported<S, E>(step: (S, E) -> S, selection: S -> Pair, rerenders: E -> bool, s: S, shown: Pair, events: seq<E>, i: nat)
    requires i < |events|
    requires var t := States(step, s, events);
      selection(t[i + 1]) != selection(t[i]) || rerenders(events[i])
    ensures selection(States(step, s, events)[i + 1]) in Run(step, selection, rerenders, s, shown, events).1
    decreases |events|
  {
    var r := Run(step, selection, rerenders, s, shown, events);
    var t := States(step, s, events);
    var next := step(s, events[0]);
    var p := selection(next);
    var report := if p != selection(s) || rerenders(events[0]) then Deliver(p, shown) else [];
    var shown' := if report == [] then shown else p;
    var rest := Run(step, selection, rerenders, next, shown', events[1..]);
    var t' := States(step, next, events[1..]);
    assert r.1 == report + rest.1;
    if i == 0 {
      assert report[0] == p == selection(t[1]);
    } else {
      assert t[i] == t'[i - 1] && t[i + 1] == t'[i] && events[i] == events[1..][i - 1];
      ChangesAreReported(step, selection, rerenders, next, shown', events[1..], i - 1);
    }
  }
}
