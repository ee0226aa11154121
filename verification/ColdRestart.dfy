/**
 The weekly cold-restart scheduler: its per-tick decision, its loop as a machine whose steps can be
 interrupted anywhere by a crash, and the loop itself as an object that changes the marker on disk
 and sends signals.
 */
module ColdRestart {
  import opened Text
  import opened Calendar

  // ---------------------------------------------------------------------------------------------
  // The decision
  // ---------------------------------------------------------------------------------------------

  datatype RawTarget = Target(dow: nat, hour: nat, minute: nat)

  /** What configuration parsing lets through: a weekday (Sunday is 0) and a time of day. */
  type Target = t: RawTarget | t.dow <= 6 && t.hour <= 23 && t.minute <= 59 witness Target(0, 9, 0)

  datatype Config = Config(target: Target, bootAt: Stamp)

  datatype MarkerState = MarkerState(firedToday: bool, equivalent: Option<Stamp>)

  datatype NextAction = Sleep | Skip(at: Stamp) | FireEligible

  /** Booted on the target weekday after the target minute, and that day is not over yet. */
  predicate StartedPastTarget(bootAt: Stamp, now: Stamp, target: Target) {
    if bootAt.day.year != now.day.year || bootAt.day.yday != now.day.yday then false
    else if Weekday(bootAt.day) != target.dow then false
    else bootAt.hour > target.hour || (bootAt.hour == target.hour && bootAt.minute > target.minute)
  }

  /** The marker is from today, not from the first hour, and earlier than the target time. */
  predicate ShouldSkip(marker: Stamp, now: Stamp, target: Target) {
    if marker.day != now.day then false
    else if marker.hour < 1 then false
    else marker.hour < target.hour || (marker.hour == target.hour && marker.minute < target.minute)
  }

  function ComputeNextAction(now: Stamp, cfg: Config, markers: MarkerState): NextAction {
    if Weekday(now.day) != cfg.target.dow then Sleep
    else if markers.firedToday then Sleep
    else if StartedPastTarget(cfg.bootAt, now, cfg.target) then Sleep
    else if !(now.hour > cfg.target.hour || (now.hour == cfg.target.hour && now.minute >= cfg.target.minute)) then Sleep
    else if markers.equivalent.Some? && ShouldSkip(markers.equivalent.value, now, cfg.target) then
      Skip(markers.equivalent.value)
    else FireEligible
  }

  /** The fired marker names this day; an absent or unreadable file counts as "not fired". */
  predicate AlreadyFired(marker: Option<string>, readable: bool, day: Day) {
    readable && marker.Some? && Trim(marker.value) == DayKey(day)
  }

  /** What a completed write leaves on disk is read back as that day and as no other. */
  lemma {:induction false} MarkerRoundTrip(written: Day, day: Day)
    ensures AlreadyFired(Some(DayKey(written)), true, day) <==> day == written
  {
    hide DayKey;
    DayKeyNoWhitespace(written);
    if DayKey(written) == DayKey(day) {
      DayKeyInjective(written, day);
    }
  }

  /** Whitespace around the key, a final newline say, does not matter. */
  lemma {:induction false} SpacedMarkerReads(before: string, day: Day, after: string)
    requires AllWhitespace(before) && AllWhitespace(after)
    ensures AlreadyFired(Some(before + DayKey(day) + after), true, day)
    ensures !AlreadyFired(Some(before + DayKey(day) + after), false, day) && !AlreadyFired(None, true, day)
  {
    hide DayKey;
    DayKeyNoWhitespace(day);
    TrimIs(before, DayKey(day), after);
  }

  function ReadMarkers(marker: Option<string>, readable: bool, equivalent: Option<Stamp>, now: Stamp): MarkerState {
    MarkerState(AlreadyFired(marker, readable, now.day), equivalent)
  }

  // ---------------------------------------------------------------------------------------------
  // The loop as a machine
  // ---------------------------------------------------------------------------------------------

  /** A signal on the channel, tagged with the day of the tick's first sample. */
  datatype Signal = Fire(day: Day) | Skipped(day: Day, at: Stamp)

  /** Where the loop body stands between two of its effects. */
  datatype Phase =
    | Idle
    | SkipDecided(pre: Stamp, at: Stamp)
    | SkipUnsent(pre: Stamp, at: Stamp)
    | Warning(pre: Stamp)
    | FireDecided(pre: Stamp)
    | FireUnsent(pre: Stamp)
    | Stopped

  datatype State = State(cfg: Config, phase: Phase, marker: Option<string>, signals: seq<Signal>)

  /**
   What the environment supplies. A sample comes with the outcome of reading the fired marker and
   with whatever the equivalent marker parsed to at that moment. A crash ends the process anywhere;
   the next process has its own boot instant and perhaps another target.
   */
  datatype Event =
    | TopSample(now: Stamp, readable: bool, equivalent: Option<Stamp>)
    | WarningOver(now: Stamp, readable: bool, equivalent: Option<Stamp>)
    | WriteMarker(ok: bool)
    | Send(open: bool)
    | Crash(cfg: Config)

  function Decide(s: State, now: Stamp, readable: bool, equivalent: Option<Stamp>): NextAction {
    ComputeNextAction(now, s.cfg, ReadMarkers(s.marker, readable, equivalent, now))
  }

  /** One effect of the loop body. An event that the current phase does not await changes nothing. */
  function Step(s: State, e: Event): State {
    match e
    case Crash(cfg) => s.(cfg := cfg, phase := Idle)
    case TopSample(now, readable, equivalent) =>
      if s.phase != Idle then s
      else (
        match Decide(s, now, readable, equivalent)
        case Sleep => s
        case Skip(at) => s.(phase := SkipDecided(now, at))
        case FireEligible => s.(phase := Warning(now)))
    case WarningOver(now, readable, equivalent) =>
      if !s.phase.Warning? then s
      else (
        match Decide(s, now, readable, equivalent)
        case Skip(at) => s.(phase := SkipDecided(s.phase.pre, at))
        case _ => s.(phase := FireDecided(s.phase.pre)))
    case WriteMarker(ok) =>
      var written := if ok && (s.phase.SkipDecided? || s.phase.FireDecided?) then Some(DayKey(s.phase.pre.day)) else s.marker;
      if s.phase.SkipDecided? then s.(phase := SkipUnsent(s.phase.pre, s.phase.at), marker := written)
      else if s.phase.FireDecided? then s.(phase := if ok then FireUnsent(s.phase.pre) else Idle, marker := written)
      else s
    case Send(open) =>
      if s.phase.SkipUnsent? then
        if open then s.(phase := Idle, signals := s.signals + [Skipped(s.phase.pre.day, s.phase.at)]) else s.(phase := Stopped)
      else if s.phase.FireUnsent? then
        if open then s.(phase := Idle, signals := s.signals + [Fire(s.phase.pre.day)]) else s.(phase := Stopped)
      else s
  }

  function Run(s: State, events: seq<Event>): State {
    if events == [] then s
    else Step(Run(s, events[..|events| - 1]), events[|events| - 1])
  }

  lemma {:induction false} RunConcat(s: State, a: seq<Event>, b: seq<Event>)
    ensures Run(s, a + b) == Run(Run(s, a), b)
  {
    if b == [] {
      assert a + b == a;
    } else {
      assert (a + b)[..|a + b| - 1] == a + b[..|b| - 1];
      RunConcat(s, a, b[..|b| - 1]);
    }
  }

  // ---------------------------------------------------------------------------------------------
  // The loop as an object
  // ---------------------------------------------------------------------------------------------

  /** Everything one iteration reads from outside: both samples, all reads, and the outcomes. */
  datatype Tick = Tick(
    pre: Stamp, readPre: bool, equivalentPre: Option<Stamp>,
    post: Stamp, readPost: bool, equivalentPost: Option<Stamp>,
    writeOk: bool, open: bool)

  function TickEvents(t: Tick): seq<Event> {
    [TopSample(t.pre, t.readPre, t.equivalentPre), WarningOver(t.post, t.readPost, t.equivalentPost),
     WriteMarker(t.writeOk), Send(t.open)]
  }

  function TickStep(s: State, t: Tick): State {
    Step(Step(Step(Step(s, TopSample(t.pre, t.readPre, t.equivalentPre)),
                   WarningOver(t.post, t.readPost, t.equivalentPost)),
              WriteMarker(t.writeOk)),
         Send(t.open))
  }

  function RunTicks(s: State, ticks: seq<Tick>): State {
    if ticks == [] then s
    else TickStep(RunTicks(s, ticks[..|ticks| - 1]), ticks[|ticks| - 1])
  }

  function AllEvents(ticks: seq<Tick>): seq<Event> {
    if ticks == [] then [] else AllEvents(ticks[..|ticks| - 1]) + TickEvents(ticks[|ticks| - 1])
  }

  lemma {:induction false} TickIsRun(s: State, t: Tick)
    ensures Run(s, TickEvents(t)) == TickStep(s, t)
  {
    var e := TickEvents(t);
    assert e[..3] == [e[0], e[1], e[2]] && e[..3][..2] == [e[0], e[1]] && e[..3][..2][..1] == [e[0]];
    assert Run(s, []) == s;
    assert Run(s, [e[0]]) == Step(s, e[0]) by { assert [e[0]][..0] == []; }
    assert Run(s, [e[0], e[1]]) == Step(Step(s, e[0]), e[1]) by { assert [e[0], e[1]][..1] == [e[0]]; }
    assert Run(s, [e[0], e[1], e[2]]) == Step(Step(Step(s, e[0]), e[1]), e[2]) by {
      assert [e[0], e[1], e[2]][..2] == [e[0], e[1]];
    }
  }

  /** Whole iterations are runs of the step machine, so what holds of every run holds of the loop. */
  lemma {:induction false} TicksAreRuns(s: State, ticks: seq<Tick>)
    ensures RunTicks(s, ticks) == Run(s, AllEvents(ticks))
  {
    if ticks != [] {
      var before := ticks[..|ticks| - 1];
      TicksAreRuns(s, before);
      RunConcat(s, AllEvents(before), TickEvents(ticks[|ticks| - 1]));
      TickIsRun(RunTicks(s, before), ticks[|ticks| - 1]);
    }
  }

  lemma {:induction false} StoppedStays(s: State, ticks: seq<Tick>)
    requires s.phase == Stopped
    ensures RunTicks(s, ticks) == s
  {
    if ticks != [] {
      StoppedStays(s, ticks[..|ticks| - 1]);
    }
  }

  lemma {:induction false} RunTicksSplit(s: State, ticks: seq<Tick>, n: nat)
    requires n <= |ticks|
    ensures RunTicks(s, ticks) == RunTicks(RunTicks(s, ticks[..n]), ticks[n..])
    decreases |ticks|
  {
    hide TickStep;
    if n == |ticks| {
      assert ticks[..n] == ticks;
    } else {
      var before := ticks[..|ticks| - 1];
      RunTicksSplit(s, before, n);
      assert before[..n] == ticks[..n];
      assert ticks[n..][..|ticks| - n - 1] == before[n..];
    }
  }

  class Scheduler {
    const cfg: Config
    var marker: Option<string>
    var signals: seq<Signal>
    var stopped: bool

    constructor (cfg: Config, marker: Option<string>)
      ensures this.cfg == cfg
      ensures Current() == State(cfg, Idle, marker, [])
    {
      this.cfg, this.marker, signals, stopped := cfg, marker, [], false;
    }

    /** Between iterations nothing but the disk and the channel carries over. */
    function Current(): State
      reads this
    {
      State(cfg, if stopped then Stopped else Idle, marker, signals)
    }

    method WriteFiredMarker(now: Stamp, ok: bool)
      modifies this`marker
      ensures marker == if ok then Some(DayKey(now.day)) else old(marker)
    {
      if ok {
        marker := Some(DayKey(now.day));
      }
    }

    /** One iteration of the endless loop. */
    method Iterate(t: Tick)
      requires !stopped
      modifies this
      ensures Current() == TickStep(old(Current()), t)
    {
      hide ComputeNextAction, ReadMarkers, DayKey;
      var first := ComputeNextAction(t.pre, cfg, ReadMarkers(marker, t.readPre, t.equivalentPre, t.pre));
      match first {
        case Sleep =>
        case Skip(at) =>
          WriteFiredMarker(t.pre, t.writeOk);
          if !t.open {
            stopped := true;
            return;
          }
          signals := signals + [Skipped(t.pre.day, at)];
        case FireEligible =>
          var second := ComputeNextAction(t.post, cfg, ReadMarkers(marker, t.readPost, t.equivalentPost, t.post));
          match second {
            case Skip(at) =>
              WriteFiredMarker(t.pre, t.writeOk);
              if !t.open {
                stopped := true;
                return;
              }
              signals := signals + [Skipped(t.pre.day, at)];
            case _ =>
              WriteFiredMarker(t.pre, t.writeOk);
              if t.writeOk {
                if !t.open {
                  stopped := true;
                  return;
                }
                signals := signals + [Fire(t.pre.day)];
              }
          }
      }
    }

    /** The loop over any finite stretch of its life. */
    method Loop(ticks: seq<Tick>)
      modifies this
      ensures Current() == RunTicks(old(Current()), ticks)
    {
      var n := 0;
      while n < |ticks| && !stopped
        invariant n <= |ticks|
        invariant Current() == RunTicks(old(Current()), ticks[..n])
      {
        Iterate(ticks[n]);
        n := n + 1;
        assert ticks[..n][..n - 1] == ticks[..n - 1];
      }
      RunTicksSplit(old(Current()), ticks, n);
      if stopped {
        StoppedStays(Current(), ticks[n..]);
      }
    }
  }
}
