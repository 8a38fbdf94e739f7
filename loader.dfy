/** The loading bar of the intro screen (`LoadingScreen` in
    FRONTEND/src/components/loader/loadingScrean.jsx, the copy the application
    imports, and identically in LoadingScreen.jsx next to it).

    A 50 ms interval eases `displayProgress` towards 100; once, at 67, it holds
    for a two-second "dramatic pause" and then resumes at 68; a finishing tick
    shows 100, stops the interval and schedules `isLoaded` half a second later;
    a twelve-second timer forces `isLoaded` in any case. Timers are events here:
    the caller fires them in any order, and clock time is not modelled.

    The pause is triggered by `Math.round(prev) === 67`. The non-finishing tick
    does not depend on the asset progress, and from 0 it produces
    100 (1 - 0.95^n), which steps from about 65.94 straight to about 67.65, so
    the displayed value never rounds to 67 and the pause never happens
    (`PauseNeverFires`). `PauseRule.ReachesCritical` is the evidently intended
    trigger, a shown percentage from 67 to 99, under which the pause does fire
    (`IntendedPauseFires`) while a bar that has reached 100 stays there
    (`FinishedBarStays`). */
module Loader {
  import opened JsMath

  /** When the one dramatic pause starts: as written, when the previous value
      rounds to exactly 67; as evidently intended, when it rounds to 67 or
      more but has not yet reached the 100 of a finished bar. */
  datatype PauseRule = RoundsToCritical | ReachesCritical

  /** The pause is due, once, for a previous value in [66.5, 67.5) as
      written, in [66.5, 99.5) as intended. */
  predicate PauseDue(rule: PauseRule, prev: real, hasPaused: bool)
    ensures PauseDue(rule, prev, hasPaused) <==>
              && !hasPaused
              && 66.5 <= prev
              && (rule == RoundsToCritical ==> prev < 67.5)
              && (rule == ReachesCritical ==> prev < 99.5)
  {
    && !hasPaused
    && match rule
       case RoundsToCritical => Round(prev) == 67
       case ReachesCritical => 67 <= Round(prev) < 100
  }

  /** A tick that neither pauses nor finishes: a step of 5% of what is left,
      at least 0.05, capped at 99.9. The asset progress plays no part in it. */
  function Advance(prev: real): (next: real)
    ensures next <= 99.9
    ensures prev <= 99.9 ==> prev <= next
    ensures prev < 99.9 ==> prev < next
  {
    Min(99.9, prev + Max(0.05, (100.0 - prev) * 0.05))
  }

  /** The finishing test: the target `max(progress, prev + 0.5)` has reached
      100 and no asset is still loading; so the bar finishes once the assets
      report 100, or on its own from 99.5. */
  predicate Finishes(prev: real, progress: real, active: bool)
    ensures Finishes(prev, progress, active) <==> !active && (progress >= 100.0 || prev >= 99.5)
  {
    Max(progress, prev + 0.5) >= 100.0 && !active
  }

  /** The component's state: the displayed value, the `hasPaused` ref, the
      `isPausedAtCritical` and `isLoaded` state, whether the finishing tick has
      cleared the interval, and whether its half-second `isLoaded` timer is
      pending. */
  datatype LoaderState = LoaderState(
    display: real,
    hasPaused: bool,
    pausedAtCritical: bool,
    loaded: bool,
    intervalCleared: bool,
    loadScheduled: bool)

  /** The state right after mounting. */
  const Initial: LoaderState := LoaderState(0.0, false, false, false, false, false)

  /** One firing of the 50 ms interval, which exists only while the screen is
      not loaded and the finishing tick has not cleared it. */
  function TickStep(rule: PauseRule, s: LoaderState, progress: real, active: bool): (t: LoaderState)
    ensures s.loaded || s.intervalCleared ==> t == s
    ensures t.loaded == s.loaded
    ensures s.hasPaused ==> t.hasPaused
    ensures t.hasPaused != s.hasPaused ==>
              PauseDue(rule, s.display, s.hasPaused) && t.pausedAtCritical && t.display == 67.0
    ensures !s.loaded && !s.intervalCleared && t.display == 100.0 ==>
              Finishes(s.display, progress, active) && t.intervalCleared && t.loadScheduled
  {
    if s.loaded || s.intervalCleared then s
    else if PauseDue(rule, s.display, s.hasPaused) then
      s.(display := 67.0, hasPaused := true, pausedAtCritical := true)
    else if s.pausedAtCritical then s.(display := 67.0)
    else if Finishes(s.display, progress, active) then
      s.(display := 100.0, intervalCleared := true, loadScheduled := true)
    else s.(display := Advance(s.display))
  }

  /** The two-second timer started by the pause: it clears the pause and bumps
      the display to 68. Without a pause there is no timer. */
  function ResumeStep(s: LoaderState): (t: LoaderState)
    ensures s.pausedAtCritical ==> !t.pausedAtCritical && t.display == 68.0
    ensures t.hasPaused == s.hasPaused && t.loaded == s.loaded
    ensures !s.pausedAtCritical ==> t == s
  {
    if s.pausedAtCritical then s.(pausedAtCritical := false, display := 68.0) else s
  }

  /** The half-second timer of a finishing tick. */
  function LoadTimerStep(s: LoaderState): (t: LoaderState)
    ensures t.loaded <==> s.loaded || s.loadScheduled
    ensures t.display == s.display && t.hasPaused == s.hasPaused
  {
    if s.loadScheduled then s.(loaded := true) else s
  }

  /** The twelve-second timer: the screen is loaded whatever the progress. */
  function ForceLoadStep(s: LoaderState): (t: LoaderState)
    ensures t.loaded
    ensures t.display == s.display && t.hasPaused == s.hasPaused
    ensures t.pausedAtCritical == s.pausedAtCritical
  {
    s.(loaded := true)
  }

  /** The interval effect running again because `progress`, `active` or
      `isPausedAtCritical` changed: a new interval starts unless loaded. */
  function RerunStep(s: LoaderState): (t: LoaderState)
    ensures !s.loaded ==> !t.intervalCleared
    ensures t.display == s.display && t.hasPaused == s.hasPaused && t.loaded == s.loaded
  {
    if s.loaded then s else s.(intervalCleared := false)
  }

  /** What can happen to the screen, in any order the browser chooses. */
  datatype Event =
    | Tick(progress: real, active: bool)
    | ResumeTimer
    | LoadTimer
    | ForceLoadTimer
    | Rerun

  function Apply(rule: PauseRule, s: LoaderState, e: Event): LoaderState
  {
    match e
    case Tick(progress, active) => TickStep(rule, s, progress, active)
    case ResumeTimer => ResumeStep(s)
    case LoadTimer => LoadTimerStep(s)
    case ForceLoadTimer => ForceLoadStep(s)
    case Rerun => RerunStep(s)
  }

  /** The state after the events, oldest first. */
  function Run(rule: PauseRule, s: LoaderState, events: seq<Event>): LoaderState
  {
    if |events| == 0 then s
    else Apply(rule, Run(rule, s, events[..|events| - 1]), events[|events| - 1])
  }

  /** Running two batches of events is running the second from where the
      first left off. */
  lemma {:induction false} RunAppend(rule: PauseRule, s: LoaderState, first: seq<Event>, second: seq<Event>)
    ensures Run(rule, s, first + second) == Run(rule, Run(rule, s, first), second)
  {
    if |second| > 0 {
      var all := first + second;
      assert all[..|all| - 1] == first + second[..|second| - 1];
      assert all[|all| - 1] == second[|second| - 1];
      RunAppend(rule, s, first, second[..|second| - 1]);
    } else {
      assert first + second == first;
    }
  }

  // ---------------------------------------------------------------------------
  // Properties of single steps

  /** While the pause lasts, every tick shows 67. */
  lemma HoldsWhilePaused(rule: PauseRule, s: LoaderState, progress: real, active: bool)
    requires s.pausedAtCritical && !s.loaded && !s.intervalCleared
    ensures TickStep(rule, s, progress, active).display == 67.0
  {
  }

  /** A tick that neither pauses nor finishes keeps the display at most 99.9
      and, from at most 99.9, never lowers it. */
  lemma TickNeverOvershoots(rule: PauseRule, s: LoaderState, progress: real, active: bool)
    requires !s.loaded && !s.intervalCleared && !s.pausedAtCritical
    requires !PauseDue(rule, s.display, s.hasPaused) && !Finishes(s.display, progress, active)
    ensures TickStep(rule, s, progress, active).display <= 99.9
    ensures s.display <= 99.9 ==> s.display <= TickStep(rule, s, progress, active).display
  {
  }

  /** A finishing tick shows exactly 100 and stops the interval. */
  lemma FinishingTick(rule: PauseRule, s: LoaderState, progress: real, active: bool)
    requires !s.loaded && !s.intervalCleared && !s.pausedAtCritical
    requires !PauseDue(rule, s.display, s.hasPaused) && Finishes(s.display, progress, active)
    ensures TickStep(rule, s, progress, active).display == 100.0
    ensures TickStep(rule, s, progress, active).intervalCleared
  {
  }

  /** Below 99, the minimum step of 0.05 never applies and the cap is not
      reached: a tick maps x to 5 + 0.95 x, so from 0 the display after n ticks
      is 100 (1 - 0.95^n). */
  lemma AdvanceGeometric(prev: real)
    requires 0.0 <= prev <= 99.0
    ensures Advance(prev) == 5.0 + 0.95 * prev
  {
  }

  // ---------------------------------------------------------------------------
  // Properties of runs

  /** `hasPaused` is never reset, and neither is `isLoaded`. */
  lemma {:induction false} RunKeepsFlags(rule: PauseRule, s: LoaderState, events: seq<Event>)
    ensures s.hasPaused ==> Run(rule, s, events).hasPaused
    ensures s.loaded ==> Run(rule, s, events).loaded
  {
    if |events| > 0 {
      RunKeepsFlags(rule, s, events[..|events| - 1]);
    }
  }

  /** How many events of the run started the pause. */
  function PauseCount(rule: PauseRule, s: LoaderState, events: seq<Event>): nat
  {
    if |events| == 0 then 0
    else
      var before := Run(rule, s, events[..|events| - 1]);
      PauseCount(rule, s, events[..|events| - 1])
      + (if !before.hasPaused && Apply(rule, before, events[|events| - 1]).hasPaused then 1 else 0)
  }

  /** At most one pause per mount: the pause starts once if the run ends with
      `hasPaused` set and never otherwise. */
  lemma {:induction false} AtMostOnePause(rule: PauseRule, events: seq<Event>)
    ensures PauseCount(rule, Initial, events) == (if Run(rule, Initial, events).hasPaused then 1 else 0)
    ensures PauseCount(rule, Initial, events) <= 1
  {
    if |events| > 0 {
      var prefix := events[..|events| - 1];
      AtMostOnePause(rule, prefix);
      RunKeepsFlags(rule, Run(rule, Initial, prefix), [events[|events| - 1]]);
      assert [events[|events| - 1]][..0] == [];
    }
  }

  /** Nothing but the pause holds the display at 67: a pause in progress
      implies `hasPaused`, on every run from the initial state. */
  lemma {:induction false} PausedImpliesHasPaused(rule: PauseRule, events: seq<Event>)
    ensures Run(rule, Initial, events).pausedAtCritical ==> Run(rule, Initial, events).hasPaused
  {
    if |events| > 0 {
      PausedImpliesHasPaused(rule, events[..|events| - 1]);
    }
  }

  /** The pause always shows 67: no event leaves the pause with any other
      display, on every run from the initial state. */
  lemma {:induction false} PausedShowsCritical(rule: PauseRule, events: seq<Event>)
    ensures Run(rule, Initial, events).pausedAtCritical ==> Run(rule, Initial, events).display == 67.0
  {
    if |events| > 0 {
      PausedShowsCritical(rule, events[..|events| - 1]);
    }
  }

  /** A finished bar: at least 99.5 shown and no pause in progress. */
  predicate Finished(s: LoaderState)
  {
    s.display >= 99.5 && !s.pausedAtCritical
  }

  /** No event takes a finished bar back: under either rule the pause is no
      longer due and a tick shows 100 or at least 99.9. */
  lemma FinishedStep(rule: PauseRule, s: LoaderState, e: Event)
    requires Finished(s)
    ensures Finished(Apply(rule, s, e))
  {
  }

  lemma {:induction false} FinishedRun(rule: PauseRule, s: LoaderState, events: seq<Event>)
    requires Finished(s)
    ensures Finished(Run(rule, s, events))
  {
    if |events| > 0 {
      FinishedRun(rule, s, events[..|events| - 1]);
      FinishedStep(rule, Run(rule, s, events[..|events| - 1]), events[|events| - 1]);
    }
  }

  /** Once the bar shows at least 99.5 (the 100 of a finishing tick, say),
      whatever happens next, under either rule, it never drops below 99.5. */
  lemma FinishedBarStays(rule: PauseRule, events: seq<Event>, more: seq<Event>)
    requires Run(rule, Initial, events).display >= 99.5
    ensures Run(rule, Initial, events + more).display >= 99.5
  {
    PausedShowsCritical(rule, events);
    RunAppend(rule, Initial, events, more);
    FinishedRun(rule, Run(rule, Initial, events), more);
  }

  /** A bar finished by a first tick, whose interval starts again when the
      effect re-runs, still shows 100 after the next tick under the intended
      rule. */
  lemma FinishedThenRerun()
    ensures Run(ReachesCritical, Initial, [Tick(100.0, false), Rerun, Tick(100.0, false)]).display == 100.0
  {
    var events := [Tick(100.0, false), Rerun, Tick(100.0, false)];
    assert events[..2][..1] == [Tick(100.0, false)];
    assert events[..2] == [Tick(100.0, false), Rerun];
    assert [Tick(100.0, false)][..0] == [];
  }

  // ---------------------------------------------------------------------------
  // The pause at 67 is out of reach as written

  /** The display after n ticks from 0 that neither pause nor finish. */
  function Eased(n: nat): real
  {
    if n == 0 then 0.0 else 5.0 + 0.95 * Eased(n - 1)
  }

  lemma {:induction false} EasedIncreasing(m: nat, n: nat)
    requires m <= n
    ensures 0.0 <= Eased(m) <= Eased(n) < 100.0
  {
    if m < n {
      EasedIncreasing(m, n - 1);
    } else if n > 0 {
      EasedIncreasing(n - 1, n - 1);
    }
  }

  /** The two ticks around 67: after 21 ticks the display is about 65.94 and
      rounds to 66, after 22 it is about 67.65 and rounds to 68. */
  lemma TickJumpsOverCritical()
    ensures 65.9 < Eased(21) < 66.0 && Round(Eased(21)) == 66
    ensures 67.6 < Eased(22) < 67.7 && Round(Eased(22)) == 68
    ensures Advance(Eased(21)) == Eased(22)
  {
    assert 33.65 < Eased(8) < 33.66;
    assert 55.98 < Eased(16) < 55.99;
    assert 65.94 < Eased(21) < 65.95;
  }

  /** The states reachable as written: no pause yet, and a display either on
      the eased curve below 67 or at least 67.5. */
  ghost predicate NotYetCritical(s: LoaderState)
  {
    && !s.hasPaused
    && !s.pausedAtCritical
    && (s.display >= 67.5 || exists n: nat :: n <= 21 && s.display == Eased(n))
  }

  lemma NotYetCriticalStep(s: LoaderState, e: Event)
    requires NotYetCritical(s)
    ensures NotYetCritical(Apply(RoundsToCritical, s, e))
  {
    match e
    case Tick(progress, active) =>
      NotYetCriticalTick(s, progress, active);
    case _ =>
      var t := Apply(RoundsToCritical, s, e);
      assert t.display == s.display && !t.hasPaused && !t.pausedAtCritical;
      if s.display < 67.5 {
        var n: nat :| n <= 21 && s.display == Eased(n);
        assert t.display == Eased(n);
      }
  }

  lemma NotYetCriticalTick(s: LoaderState, progress: real, active: bool)
    requires NotYetCritical(s)
    ensures NotYetCritical(TickStep(RoundsToCritical, s, progress, active))
  {
    var t := TickStep(RoundsToCritical, s, progress, active);
    if s.display < 67.5 {
      var n: nat :| n <= 21 && s.display == Eased(n);
      EasedIncreasing(n, 21);
      TickJumpsOverCritical();
      assert Round(s.display) <= 66 by {
        RoundMonotone(s.display, Eased(21));
      }
      if !s.loaded && !s.intervalCleared && !Finishes(s.display, progress, active) {
        assert t.display == Eased(n + 1);
        if n < 21 {
          EasedIncreasing(n + 1, 21);
        }
      }
    } else {
      assert Round(s.display) >= 68;
    }
  }

  /** As written, no sequence of ticks, timers and effect re-runs from the
      initial state ever starts the pause, and the display never rounds to 67. */
  lemma {:induction false} PauseNeverFires(events: seq<Event>)
    ensures !Run(RoundsToCritical, Initial, events).hasPaused
    ensures !Run(RoundsToCritical, Initial, events).pausedAtCritical
    ensures Round(Run(RoundsToCritical, Initial, events).display) != 67
  {
    NeverCritical(events);
    var s := Run(RoundsToCritical, Initial, events);
    if s.display < 67.5 {
      var n: nat :| n <= 21 && s.display == Eased(n);
      EasedIncreasing(n, 21);
      TickJumpsOverCritical();
    }
  }

  lemma {:induction false} NeverCritical(events: seq<Event>)
    ensures NotYetCritical(Run(RoundsToCritical, Initial, events))
  {
    if |events| == 0 {
      assert Initial.display == Eased(0);
    } else {
      NeverCritical(events[..|events| - 1]);
      NotYetCriticalStep(Run(RoundsToCritical, Initial, events[..|events| - 1]), events[|events| - 1]);
    }
  }

  // ---------------------------------------------------------------------------
  // The intended trigger does pause

  /** Interval ticks while assets are still loading, with any progress values. */
  function LoadingTicks(progress: seq<real>): (events: seq<Event>)
    ensures |events| == |progress|
    ensures forall i :: 0 <= i < |progress| ==> events[i] == Tick(progress[i], true)
  {
    seq(|progress|, i requires 0 <= i < |progress| => Tick(progress[i], true))
  }

  lemma {:induction false} IntendedEasing(progress: seq<real>)
    requires |progress| <= 22
    ensures Run(ReachesCritical, Initial, LoadingTicks(progress)) == Initial.(display := Eased(|progress|))
  {
    var k := |progress|;
    if k > 0 {
      assert LoadingTicks(progress)[..k - 1] == LoadingTicks(progress[..k - 1]);
      IntendedEasing(progress[..k - 1]);
      EasedIncreasing(k - 1, 21);
      TickJumpsOverCritical();
    }
  }

  /** With the intended trigger, the 23rd tick of a load that is still in
      progress starts the pause: the display holds at 67. */
  lemma IntendedPauseFires(progress: seq<real>)
    requires |progress| == 23
    ensures var s := Run(ReachesCritical, Initial, LoadingTicks(progress));
            s.hasPaused && s.pausedAtCritical && s.display == 67.0
  {
    assert LoadingTicks(progress)[..22] == LoadingTicks(progress[..22]);
    IntendedEasing(progress[..22]);
    TickJumpsOverCritical();
  }

  // ---------------------------------------------------------------------------
  // The component

  /** The state of one mounted loading screen. */
  class LoadingScreen {
    const rule: PauseRule
    var displayProgress: real
    var hasPaused: bool
    var isPausedAtCritical: bool
    var isLoaded: bool
    var intervalCleared: bool
    var loadScheduled: bool

    function State(): LoaderState
      reads this
    {
      LoaderState(displayProgress, hasPaused, isPausedAtCritical, isLoaded, intervalCleared, loadScheduled)
    }

    constructor (rule: PauseRule)
      ensures this.rule == rule && State() == Initial
    {
      this.rule := rule;
      displayProgress := 0.0;
      hasPaused := false;
      isPausedAtCritical := false;
      isLoaded := false;
      intervalCleared := false;
      loadScheduled := false;
    }

    /** The interval callback, with the current asset `progress` and `active`. */
    method Tick(progress: real, active: bool)
      modifies this
      ensures State() == TickStep(rule, old(State()), progress, active)
    {
      if isLoaded || intervalCleared {
        return;
      }
      var prev := displayProgress;
      if PauseDue(rule, prev, hasPaused) {
        isPausedAtCritical := true;
        hasPaused := true;
        displayProgress := 67.0;
      } else if isPausedAtCritical {
        displayProgress := 67.0;
      } else {
        var target := Max(progress, prev + 0.5);
        if target >= 100.0 && !active {
          intervalCleared := true;
          loadScheduled := true;
          displayProgress := 100.0;
        } else {
          var increment := (100.0 - prev) * 0.05;
          displayProgress := Min(99.9, prev + Max(0.05, increment));
        }
      }
    }

    /** The two-second resume timer. */
    method Resume()
      modifies this
      ensures State() == ResumeStep(old(State()))
    {
      if isPausedAtCritical {
        isPausedAtCritical := false;
        displayProgress := 68.0;
      }
    }

    /** The half-second timer scheduled by a finishing tick. */
    method LoadTimerFires()
      modifies this
      ensures State() == LoadTimerStep(old(State()))
    {
      if loadScheduled {
        isLoaded := true;
      }
    }

    /** The twelve-second force-load timer. */
    method ForceLoad()
      modifies this
      ensures State() == ForceLoadStep(old(State()))
    {
      if !isLoaded {
        isLoaded := true;
      }
    }

    /** The interval effect re-running after a dependency changed. */
    method Rerun()
      modifies this
      ensures State() == RerunStep(old(State()))
    {
      if !isLoaded {
        intervalCleared := false;
      }
    }
  }
}
