/**
 What the cold-restart scheduler guarantees over whole runs: at most one Fire per day through
 crashes and failed writes, how many signals a due day gets whatever reads fail, exactly when a day
 fires again, and no influence of the boot instant beyond the boot day.
 */
module ColdRestartRuns {
  import opened Text
  import opened Calendar
  import opened ColdRestart

  function Boot(cfg: Config, marker: Option<string>): State {
    State(cfg, Idle, marker, [])
  }

  // ---------------------------------------------------------------------------------------------
  // At most one Fire per day
  // ---------------------------------------------------------------------------------------------

  function FireCount(signals: seq<Signal>, d: Day): nat {
    if signals == [] then 0
    else FireCount(signals[..|signals| - 1], d) + if signals[|signals| - 1] == Fire(d) then 1 else 0
  }

  predicate DaysNeverGoBack(events: seq<Event>) {
    forall i, j :: 0 <= i < j < |events| && events[i].TopSample? && events[j].TopSample?
      ==> NotAfter(events[i].now.day, events[j].now.day)
  }

  /** The day of the last first sample that the loop took. */
  function LatestDay(s: State, events: seq<Event>): Option<Day> {
    if events == [] then None
    else
      var before, e := events[..|events| - 1], events[|events| - 1];
      if e.TopSample? && Run(s, before).phase == Idle then Some(e.now.day) else LatestDay(s, before)
  }

  lemma {:induction false} LatestDayIsSampled(s: State, events: seq<Event>)
    ensures LatestDay(s, events).Some? ==>
      exists i :: 0 <= i < |events| && events[i].TopSample? && events[i].now.day == LatestDay(s, events).value
  {
    if events != [] {
      LatestDayIsSampled(s, events[..|events| - 1]);
    }
  }

  /**
   What every step keeps, readable marker or not: no fired day lies after the day last sampled, only
   the day last sampled is in flight, and once that day has fired the marker names it.
   */
  ghost predicate Tracked(s: State, latest: Option<Day>) {
    && (forall d :: FireCount(s.signals, d) > 0 ==> latest.Some? && NotAfter(d, latest.value))
    && (!s.phase.Idle? && !s.phase.Stopped? ==> latest == Some(s.phase.pre.day))
    && (s.phase.FireUnsent? ==> s.marker == Some(DayKey(s.phase.pre.day)))
    && (latest.Some? && FireCount(s.signals, latest.value) > 0 ==> s.marker == Some(DayKey(latest.value)))
  }

  /** No day has fired twice, and none that has fired is on its way to fire again. */
  ghost predicate Single(s: State) {
    && (forall d :: FireCount(s.signals, d) <= 1)
    && (s.phase.Warning? || s.phase.FireDecided? || s.phase.FireUnsent? ==> FireCount(s.signals, s.phase.pre.day) == 0)
  }

  lemma NoFires()
    ensures forall d :: FireCount([], d) == 0
  {
  }

  lemma {:induction false} FireCountAppend(signals: seq<Signal>, x: Signal, d: Day)
    ensures FireCount(signals + [x], d) == FireCount(signals, d) + if x == Fire(d) then 1 else 0
  {
    assert (signals + [x])[..|signals|] == signals;
  }

  function LatestAfter(s: State, e: Event, latest: Option<Day>): Option<Day> {
    if e.TopSample? && s.phase == Idle then Some(e.now.day) else latest
  }

  predicate NotBackFrom(latest: Option<Day>, e: Event) {
    e.TopSample? && latest.Some? ==> NotAfter(latest.value, e.now.day)
  }

  lemma {:induction false} SendCounts(s: State, e: Event)
    requires e.Send?
    ensures forall d :: FireCount(Step(s, e).signals, d) ==
                        FireCount(s.signals, d) + if e.open && s.phase.FireUnsent? && s.phase.pre.day == d then 1 else 0
  {
    hide FireCount;
    if e.open && (s.phase.SkipUnsent? || s.phase.FireUnsent?) {
      var x := if s.phase.SkipUnsent? then Skipped(s.phase.pre.day, s.phase.at) else Fire(s.phase.pre.day);
      forall d ensures FireCount(s.signals + [x], d) == FireCount(s.signals, d) + if x == Fire(d) then 1 else 0 {
        FireCountAppend(s.signals, x, d);
      }
    }
  }

  lemma {:induction false} StepKeepsTracked(s: State, e: Event, latest: Option<Day>)
    requires Tracked(s, latest) && NotBackFrom(latest, e)
    ensures Tracked(Step(s, e), LatestAfter(s, e, latest))
  {
    hide FireCount, DayKey, Decide;
    if e.Send? {
      SendCounts(s, e);
    }
  }

  lemma {:induction false} RunKeepsTracked(s: State, events: seq<Event>)
    requires Tracked(s, None) && DaysNeverGoBack(events)
    ensures Tracked(Run(s, events), LatestDay(s, events))
  {
    if events != [] {
      var before := events[..|events| - 1];
      RunKeepsTracked(s, before);
      LatestDayIsSampled(s, before);
      StepKeepsTracked(Run(s, before), events[|events| - 1], LatestDay(s, before));
    }
  }

  /** The gates other than the fired marker let the sample through to a Fire. */
  predicate WouldFire(cfg: Config, now: Stamp, equivalent: Option<Stamp>) {
    ComputeNextAction(now, cfg, MarkerState(false, equivalent)) == FireEligible
  }

  /** A first sample that would fire a day again finds the marker readable. */
  predicate RefireReadable(s: State, e: Event) {
    e.TopSample? && s.phase == Idle && FireCount(s.signals, e.now.day) > 0 && WouldFire(s.cfg, e.now, e.equivalent) ==>
      e.readable
  }

  ghost predicate RefiresReadable(s: State, events: seq<Event>) {
    forall i :: 0 <= i < |events| ==> RefireReadable(Run(s, events[..i]), events[i])
  }

  lemma {:induction false} StepKeepsSafe(s: State, e: Event, latest: Option<Day>)
    requires Tracked(s, latest) && Single(s)
    requires NotBackFrom(latest, e) && RefireReadable(s, e)
    ensures Tracked(Step(s, e), LatestAfter(s, e, latest)) && Single(Step(s, e))
  {
    StepKeepsTracked(s, e, latest);
    hide FireCount, DayKey, ComputeNextAction;
    if e.Send? {
      SendCounts(s, e);
    } else if e.TopSample? && s.phase == Idle && FireCount(s.signals, e.now.day) > 0 {
      assert latest == Some(e.now.day);
      MarkerRoundTrip(e.now.day, e.now.day);
    }
  }

  lemma {:induction false} RunKeepsSafe(s: State, events: seq<Event>)
    requires Tracked(s, None) && Single(s)
    requires DaysNeverGoBack(events) && RefiresReadable(s, events)
    ensures Tracked(Run(s, events), LatestDay(s, events)) && Single(Run(s, events))
  {
    if events != [] {
      var n := |events| - 1;
      var before := events[..n];
      forall i | 0 <= i < n ensures RefireReadable(Run(s, before[..i]), before[i]) {
        assert before[..i] == events[..i];
      }
      RunKeepsSafe(s, before);
      LatestDayIsSampled(s, before);
      StepKeepsSafe(Run(s, before), events[n], LatestDay(s, before));
    }
  }

  /**
   Over every run, with any pattern of failed marker writes, crashes, restarts under any
   configuration, closed channels and equivalent-marker contents, a calendar day gets at most one
   Fire. Only the first samples of the ticks must not go back over a day, and the marker must be
   readable at a first sample that would fire a day again; every other read may fail, and the
   samples after the warning window are arbitrary.
   */
  lemma {:induction false} AtMostOneFirePerDay(cfg: Config, marker: Option<string>, events: seq<Event>, d: Day)
    requires DaysNeverGoBack(events) && RefiresReadable(Boot(cfg, marker), events)
    ensures FireCount(Run(Boot(cfg, marker), events).signals, d) <= 1
  {
    RunKeepsSafe(Boot(cfg, marker), events);
  }

  /** A tick on the given day that finds nothing fired and no fresh authentication, and fires. */
  function FiringTick(now: Stamp, readable: bool): Tick {
    Tick(now, readable, None, now, true, None, true, true)
  }

  const SUNDAY := Day(2024, 7)
  const NEXT_SUNDAY := Day(2024, 14)
  const NINE := Config(Target(0, 9, 0), Stamp(Day(2024, 1), 0, 0, 0))

  lemma {:induction false} FiringTickFires(s: State, now: Stamp, readable: bool)
    requires s.phase == Idle && s.cfg == NINE
    requires now.hour == 10 && (now.day == SUNDAY || now.day == NEXT_SUNDAY)
    requires !AlreadyFired(s.marker, readable, now.day)
    ensures TickStep(s, FiringTick(now, readable))
      == s.(marker := Some(DayKey(now.day)), signals := s.signals + [Fire(now.day)])
  {
    assert Weekday(SUNDAY) == 0 && Weekday(NEXT_SUNDAY) == 0;
  }

  lemma {:induction false} TwoTicks(s: State, a: Tick, b: Tick)
    ensures RunTicks(s, [a, b]) == TickStep(TickStep(s, a), b)
  {
    assert [a, b][..1] == [a] && [a][..0] == [];
    assert RunTicks(s, [a]) == TickStep(RunTicks(s, []), a);
  }

  lemma {:induction false} ThreeTicks(s: State, a: Tick, b: Tick, c: Tick)
    ensures RunTicks(s, [a, b, c]) == TickStep(TickStep(TickStep(s, a), b), c)
  {
    assert [a, b, c][..2] == [a, b];
    TwoTicks(s, a, b);
  }

  /** Both provisos are needed: one failed read of the marker on a fired day is enough for a second Fire. */
  lemma {:induction false} UnreadableMarkerFiresTwice()
    ensures var now := Stamp(SUNDAY, 10, 0, 0);
            var ticks := [FiringTick(now, true), FiringTick(now, false)];
            && (forall i :: 0 <= i < 2 ==> ticks[i].pre == now)
            && FireCount(RunTicks(Boot(NINE, None), ticks).signals, SUNDAY) == 2
  {
    var now := Stamp(SUNDAY, 10, 0, 0);
    var a, b := FiringTick(now, true), FiringTick(now, false);
    var s := Boot(NINE, None);
    TwoTicks(s, a, b);
    FiringTickFires(s, now, true);
    FiringTickFires(TickStep(s, a), now, false);
    FireCountAppend([], Fire(SUNDAY), SUNDAY);
    FireCountAppend([Fire(SUNDAY)], Fire(SUNDAY), SUNDAY);
  }

  /** And so is a clock that steps back over another day that fired. */
  lemma {:induction false} BackwardClockFiresTwice()
    ensures var first, second := Stamp(SUNDAY, 10, 0, 0), Stamp(NEXT_SUNDAY, 10, 0, 0);
            var ticks := [FiringTick(first, true), FiringTick(second, true), FiringTick(first, true)];
            && (forall i :: 0 <= i < 3 ==> ticks[i].readPre)
            && FireCount(RunTicks(Boot(NINE, None), ticks).signals, SUNDAY) == 2
  {
    hide DayKey, TickStep, FireCount, RunTicks;
    var first, second := Stamp(SUNDAY, 10, 0, 0), Stamp(NEXT_SUNDAY, 10, 0, 0);
    var a, b := FiringTick(first, true), FiringTick(second, true);
    var s := Boot(NINE, None);
    ThreeTicks(s, a, b, a);
    DayKeyNoWhitespace(SUNDAY);
    DayKeyNoWhitespace(NEXT_SUNDAY);
    if DayKey(SUNDAY) == DayKey(NEXT_SUNDAY) {
      DayKeyInjective(SUNDAY, NEXT_SUNDAY);
    }
    FiringTickFires(s, first, true);
    FiringTickFires(TickStep(s, a), second, true);
    FiringTickFires(TickStep(TickStep(s, a), b), first, true);
    NoFires();
    var none: seq<Signal> := [];
    FireCountAppend(none, Fire(SUNDAY), SUNDAY);
    FireCountAppend(none + [Fire(SUNDAY)], Fire(NEXT_SUNDAY), SUNDAY);
    FireCountAppend(none + [Fire(SUNDAY)] + [Fire(NEXT_SUNDAY)], Fire(SUNDAY), SUNDAY);
  }

  // ---------------------------------------------------------------------------------------------
  // The signals of a due day
  // ---------------------------------------------------------------------------------------------

  function SignalCount(signals: seq<Signal>, d: Day): nat {
    if signals == [] then 0
    else SignalCount(signals[..|signals| - 1], d) + if signals[|signals| - 1].day == d then 1 else 0
  }

  lemma {:induction false} SignalCountAppend(signals: seq<Signal>, x: Signal, d: Day)
    ensures SignalCount(signals + [x], d) == SignalCount(signals, d) + if x.day == d then 1 else 0
  {
    assert (signals + [x])[..|signals|] == signals;
  }

  /** No failed marker write and an open channel; any read may fail. */
  predicate Delivered(ticks: seq<Tick>) {
    forall i :: 0 <= i < |ticks| ==> ticks[i].writeOk && ticks[i].open
  }

  predicate DaysForward(ticks: seq<Tick>) {
    forall i, j :: 0 <= i < j < |ticks| ==> NotAfter(ticks[i].pre.day, ticks[j].pre.day)
  }

  function MinuteOfDay(hour: nat, minute: nat): nat {
    60 * hour + minute
  }

  /** Booting later than the target minute gives up the boot day, and only that day. */
  predicate BootDayVeto(cfg: Config, d: Day) {
    && cfg.bootAt.day == d
    && MinuteOfDay(cfg.bootAt.hour, cfg.bootAt.minute) > MinuteOfDay(cfg.target.hour, cfg.target.minute)
  }

  predicate PastTarget(cfg: Config, now: Stamp) {
    MinuteOfDay(now.hour, now.minute) >= MinuteOfDay(cfg.target.hour, cfg.target.minute)
  }

  /** The sample falls on the target weekday, at or past the target minute, and its day is not vetoed. */
  predicate DueNow(cfg: Config, now: Stamp) {
    Weekday(now.day) == cfg.target.dow && !BootDayVeto(cfg, now.day) && PastTarget(cfg, now)
  }

  /** The tick's first sample makes day `d` due. */
  predicate DueTick(cfg: Config, t: Tick, d: Day) {
    t.pre.day == d && DueNow(cfg, t.pre)
  }

  ghost predicate Due(cfg: Config, ticks: seq<Tick>, d: Day) {
    exists i :: 0 <= i < |ticks| && DueTick(cfg, ticks[i], d)
  }

  /** An authentication recorded for the sample's own day, between 01:00 and the target time. */
  predicate FreshAuth(equivalent: Option<Stamp>, now: Stamp, target: Target) {
    && equivalent.Some? && equivalent.value.day == now.day
    && MinuteOfDay(1, 0) <= MinuteOfDay(equivalent.value.hour, equivalent.value.minute) < MinuteOfDay(target.hour, target.minute)
  }

  /** Times of day are within the clock face. */
  predicate OnClockFace(now: Stamp, equivalent: Option<Stamp>) {
    now.minute < 60 && (equivalent.Some? ==> equivalent.value.minute < 60)
  }

  predicate ClockFaces(cfg: Config, ticks: seq<Tick>) {
    && cfg.bootAt.minute < 60
    && forall i :: 0 <= i < |ticks| ==>
      OnClockFace(ticks[i].pre, ticks[i].equivalentPre) && OnClockFace(ticks[i].post, ticks[i].equivalentPost)
  }

  /** The four gates and the skip rule, in minutes of the day. */
  lemma DecisionMeaning(now: Stamp, cfg: Config, markers: MarkerState)
    requires cfg.bootAt.minute < 60 && OnClockFace(now, markers.equivalent)
    ensures ComputeNextAction(now, cfg, markers) ==
      if markers.firedToday || !DueNow(cfg, now) then Sleep
      else if FreshAuth(markers.equivalent, now, cfg.target) then Skip(markers.equivalent.value)
      else FireEligible
  {
  }

  /**
   Every iteration, whatever fails. Nothing happens unless the first sample is due and its day not
   seen as recorded. A fresh authentication at either sample turns the Fire into Skipped, which is
   sent even when the marker cannot be written; a Fire is sent only after its marker was written,
   also when the warning window ended on another day or the clock moved back before the target time.
   */
  lemma {:induction false} TickOutcome(s: State, t: Tick)
    requires s.phase == Idle && ClockFaces(s.cfg, [t])
    ensures var due := DueNow(s.cfg, t.pre) && !AlreadyFired(s.marker, t.readPre, t.pre.day);
            var recheck := DueNow(s.cfg, t.post) && !AlreadyFired(s.marker, t.readPost, t.post.day);
            var freshPre := FreshAuth(t.equivalentPre, t.pre, s.cfg.target);
            var freshPost := recheck && FreshAuth(t.equivalentPost, t.post, s.cfg.target);
            var written := s.(marker := if t.writeOk then Some(DayKey(t.pre.day)) else s.marker);
            TickStep(s, t) ==
              if !due then s
              else if freshPre then Sent(written, t.open, Skipped(t.pre.day, t.equivalentPre.value))
              else if freshPost then Sent(written, t.open, Skipped(t.pre.day, t.equivalentPost.value))
              else if t.writeOk then Sent(written, t.open, Fire(t.pre.day))
              else s
  {
    hide ComputeNextAction, DayKey, DueNow, FreshAuth;
    assert [t][0] == t;
    DecisionMeaning(t.pre, s.cfg, ReadMarkers(s.marker, t.readPre, t.equivalentPre, t.pre));
    DecisionMeaning(t.post, s.cfg, ReadMarkers(s.marker, t.readPost, t.equivalentPost, t.post));
    FreshNeedsMarker(t.equivalentPre, t.pre, s.cfg.target);
    FreshNeedsMarker(t.equivalentPost, t.post, s.cfg.target);
  }

  /** A signal put on the channel, or the end of the loop when the receiver is gone. */
  function Sent(s: State, open: bool, x: Signal): State {
    if open then s.(signals := s.signals + [x]) else s.(phase := Stopped)
  }

  lemma FreshNeedsMarker(equivalent: Option<Stamp>, now: Stamp, target: Target)
    ensures FreshAuth(equivalent, now, target) ==> equivalent.Some?
  {
  }

  lemma {:induction false} TickShape(s: State, t: Tick) returns (x: Signal)
    requires s.phase == Idle && t.writeOk && t.open
    requires ClockFaces(s.cfg, [t])
    ensures x.day == t.pre.day
    ensures TickStep(s, t) ==
      if DueNow(s.cfg, t.pre) && !AlreadyFired(s.marker, t.readPre, t.pre.day)
      then s.(marker := Some(DayKey(t.pre.day)), signals := s.signals + [x])
      else s
  {
    TickOutcome(s, t);
    var after := TickStep(s, t).signals;
    x := if |after| > |s.signals| then after[|s.signals|] else Fire(t.pre.day);
  }

  /** The day of the last due tick, whether it signalled or not. */
  function LastDue(cfg: Config, ticks: seq<Tick>): Option<Day> {
    if ticks == [] then None
    else
      var t := ticks[|ticks| - 1];
      if DueNow(cfg, t.pre) then Some(t.pre.day) else LastDue(cfg, ticks[..|ticks| - 1])
  }

  /** The marker names the day: the last due tick was of that day, or none was and it did at the start. */
  predicate OnDisk(cfg: Config, marker: Option<string>, ticks: seq<Tick>, d: Day) {
    if LastDue(cfg, ticks).Some? then LastDue(cfg, ticks).value == d else AlreadyFired(marker, true, d)
  }

  /** The due ticks of a day that cannot read the marker or come when it names another day. */
  function SignallingTicks(cfg: Config, marker: Option<string>, ticks: seq<Tick>, d: Day): nat {
    if ticks == [] then 0
    else
      var before, t := ticks[..|ticks| - 1], ticks[|ticks| - 1];
      SignallingTicks(cfg, marker, before, d) +
      if DueTick(cfg, t, d) && !(t.readPre && OnDisk(cfg, marker, before, d)) then 1 else 0
  }

  lemma {:induction false} NamesOneDay(marker: Option<string>, a: Day, b: Day)
    requires AlreadyFired(marker, true, a) && AlreadyFired(marker, true, b)
    ensures a == b
  {
    DayKeyInjective(a, b);
  }

  /** Each due tick leaves the marker naming its day, by writing it or because it was there. */
  lemma {:induction false} MarkerStep(s: State, t: Tick, cfg: Config, marker: Option<string>, before: seq<Tick>, d: Day)
    requires s.phase == Idle && s.cfg == cfg && t.writeOk && t.open && ClockFaces(cfg, [t])
    requires forall x :: AlreadyFired(s.marker, true, x) <==> OnDisk(cfg, marker, before, x)
    ensures AlreadyFired(TickStep(s, t).marker, true, d) <==> OnDisk(cfg, marker, before + [t], d)
    ensures TickStep(s, t).phase == Idle && TickStep(s, t).cfg == cfg
  {
    hide DayKey, DueNow, TickStep, AlreadyFired;
    var _ := TickShape(s, t);
    assert (before + [t])[..|before|] == before;
    MarkerRoundTrip(t.pre.day, d);
    ReadOrNot(s.marker, t.readPre, t.pre.day);
    if AlreadyFired(s.marker, true, t.pre.day) && AlreadyFired(s.marker, true, d) {
      NamesOneDay(s.marker, t.pre.day, d);
    }
  }

  lemma ReadOrNot(marker: Option<string>, readable: bool, d: Day)
    ensures AlreadyFired(marker, readable, d) <==> readable && AlreadyFired(marker, true, d)
  {
  }

  lemma {:induction false} MarkerAfterTicks(cfg: Config, marker: Option<string>, ticks: seq<Tick>)
    requires ClockFaces(cfg, ticks) && Delivered(ticks)
    ensures var s := RunTicks(Boot(cfg, marker), ticks);
            && s.phase == Idle && s.cfg == cfg
            && forall d :: AlreadyFired(s.marker, true, d) <==> OnDisk(cfg, marker, ticks, d)
  {
    hide AlreadyFired, TickStep, OnDisk;
    if ticks == [] {
      forall d ensures AlreadyFired(marker, true, d) <==> OnDisk(cfg, marker, ticks, d) {
        NothingYet(cfg, marker, d);
      }
    } else {
      var n := |ticks| - 1;
      MarkerAfterTicks(cfg, marker, ticks[..n]);
      assert ticks == ticks[..n] + [ticks[n]];
      var s := RunTicks(Boot(cfg, marker), ticks[..n]);
      forall d
        ensures AlreadyFired(TickStep(s, ticks[n]).marker, true, d) <==> OnDisk(cfg, marker, ticks, d)
        ensures TickStep(s, ticks[n]).phase == Idle && TickStep(s, ticks[n]).cfg == cfg
      {
        MarkerStep(s, ticks[n], cfg, marker, ticks[..n], d);
      }
      MarkerStep(s, ticks[n], cfg, marker, ticks[..n], ticks[n].pre.day);
    }
  }

  lemma NothingYet(cfg: Config, marker: Option<string>, d: Day)
    ensures OnDisk(cfg, marker, [], d) <==> AlreadyFired(marker, true, d)
  {
  }

  /**
   Any clock, any read outcomes, no failed write: a day gets one signal for each of its due ticks
   that cannot read the marker or comes when the marker names another day, and no others; where the
   warning window ends and what is read there plays no part.
   */
  lemma {:induction false} SignalsExactly(cfg: Config, marker: Option<string>, ticks: seq<Tick>, d: Day)
    requires ClockFaces(cfg, ticks) && Delivered(ticks)
    ensures SignalCount(RunTicks(Boot(cfg, marker), ticks).signals, d) == SignallingTicks(cfg, marker, ticks, d)
  {
    hide AlreadyFired, TickStep, OnDisk, DueNow, DayKey;
    if ticks != [] {
      var n := |ticks| - 1;
      SignalsExactly(cfg, marker, ticks[..n], d);
      MarkerAfterTicks(cfg, marker, ticks[..n]);
      var s, t := RunTicks(Boot(cfg, marker), ticks[..n]), ticks[n];
      var x := TickShape(s, t);
      SignalCountAppend(s.signals, x, d);
      ReadOrNot(s.marker, t.readPre, t.pre.day);
    }
  }

  lemma {:induction false} DueSplits(cfg: Config, ticks: seq<Tick>, d: Day)
    requires ticks != []
    ensures Due(cfg, ticks, d) <==> Due(cfg, ticks[..|ticks| - 1], d) || DueTick(cfg, ticks[|ticks| - 1], d)
  {
    hide DueTick;
    var n := |ticks| - 1;
    assert forall i :: 0 <= i < n ==> ticks[..n][i] == ticks[i];
    if Due(cfg, ticks, d) {
      var i :| 0 <= i <= n && DueTick(cfg, ticks[i], d);
      if i < n {
        assert DueTick(cfg, ticks[..n][i], d);
      }
    }
  }

  lemma {:induction false} LastDueIsDue(cfg: Config, ticks: seq<Tick>)
    ensures LastDue(cfg, ticks).None? <==> forall i :: 0 <= i < |ticks| ==> !DueNow(cfg, ticks[i].pre)
    ensures LastDue(cfg, ticks).Some? ==> Due(cfg, ticks, LastDue(cfg, ticks).value)
    ensures DaysForward(ticks) ==> forall i :: 0 <= i < |ticks| && DueNow(cfg, ticks[i].pre) ==>
      LastDue(cfg, ticks).Some? && NotAfter(ticks[i].pre.day, LastDue(cfg, ticks).value)
  {
    hide DueNow;
    if ticks != [] {
      LastDueIsDue(cfg, ticks[..|ticks| - 1]);
      if LastDue(cfg, ticks).Some? {
        DueSplits(cfg, ticks, LastDue(cfg, ticks).value);
      }
    }
  }

  /** Days that do not go back: at a tick of a day that was due before, the marker names that day. */
  lemma {:induction false} DueDayIsOnDisk(cfg: Config, marker: Option<string>, ticks: seq<Tick>, n: nat, d: Day)
    requires n < |ticks| && DaysForward(ticks) && ticks[n].pre.day == d && Due(cfg, ticks[..n], d)
    ensures OnDisk(cfg, marker, ticks[..n], d)
  {
    hide DueNow;
    var before := ticks[..n];
    LastDueIsDue(cfg, before);
    var i :| 0 <= i < n && DueTick(cfg, before[i], d);
    var last := LastDue(cfg, before).value;
    var j :| 0 <= j < n && DueTick(cfg, before[j], last);
    assert NotAfter(d, last) && NotAfter(ticks[j].pre.day, ticks[n].pre.day);
  }

  /** The due ticks of a day, after its first, that cannot read the marker. */
  ghost function LaterBlind(cfg: Config, ticks: seq<Tick>, d: Day): nat {
    if ticks == [] then 0
    else
      var before, t := ticks[..|ticks| - 1], ticks[|ticks| - 1];
      LaterBlind(cfg, before, d) + if Due(cfg, before, d) && DueTick(cfg, t, d) && !t.readPre then 1 else 0
  }

  /** Every due tick of the day after its first reads the marker. */
  ghost predicate LaterRead(cfg: Config, ticks: seq<Tick>, d: Day) {
    forall i, j :: 0 <= i < j < |ticks| && DueTick(cfg, ticks[i], d) && DueTick(cfg, ticks[j], d) ==> ticks[j].readPre
  }

  lemma {:induction false} NoLaterBlind(cfg: Config, ticks: seq<Tick>, d: Day)
    ensures LaterBlind(cfg, ticks, d) == 0 <==> LaterRead(cfg, ticks, d)
  {
    hide DueTick;
    if ticks != [] {
      var n := |ticks| - 1;
      NoLaterBlind(cfg, ticks[..n], d);
      assert forall i :: 0 <= i < n ==> ticks[..n][i] == ticks[i];
      if LaterRead(cfg, ticks[..n], d) && !(Due(cfg, ticks[..n], d) && DueTick(cfg, ticks[n], d) && !ticks[n].readPre) {
        forall i, j | 0 <= i < j <= n && DueTick(cfg, ticks[i], d) && DueTick(cfg, ticks[j], d) ensures ticks[j].readPre {
          assert DueTick(cfg, ticks[..n][i], d);
          if j < n {
            assert DueTick(cfg, ticks[..n][j], d);
          }
        }
      }
      if LaterRead(cfg, ticks, d) {
        forall i, j | 0 <= i < j < n && DueTick(cfg, ticks[..n][i], d) && DueTick(cfg, ticks[..n][j], d)
          ensures ticks[..n][j].readPre
        {
          assert DueTick(cfg, ticks[i], d) && DueTick(cfg, ticks[j], d);
        }
        if Due(cfg, ticks[..n], d) && DueTick(cfg, ticks[n], d) {
          var i :| 0 <= i < n && DueTick(cfg, ticks[..n][i], d);
          assert DueTick(cfg, ticks[i], d);
        }
      }
    }
  }

  /** Nothing is due on a day before `d`. */
  predicate NoneDueBefore(cfg: Config, ticks: seq<Tick>, d: Day) {
    forall i :: 0 <= i < |ticks| && DueNow(cfg, ticks[i].pre) ==> NotAfter(d, ticks[i].pre.day)
  }

  /** The day's key is on disk at the start, and no earlier day becomes due and overwrites it. */
  predicate Recorded(cfg: Config, marker: Option<string>, ticks: seq<Tick>, d: Day) {
    AlreadyFired(marker, true, d) && NoneDueBefore(cfg, ticks, d)
  }

  /** No due tick of the day finds the initial marker still there and naming the day. */
  ghost predicate NeverInherited(cfg: Config, marker: Option<string>, ticks: seq<Tick>, d: Day) {
    forall n :: 0 <= n < |ticks| && DueTick(cfg, ticks[n], d) ==>
      LastDue(cfg, ticks[..n]).Some? || !AlreadyFired(marker, true, d)
  }

  lemma {:induction false} UnrecordedNeverInherited(cfg: Config, marker: Option<string>, ticks: seq<Tick>, d: Day)
    requires DaysForward(ticks) && !Recorded(cfg, marker, ticks, d)
    ensures NeverInherited(cfg, marker, ticks, d)
  {
    hide AlreadyFired, DueNow;
    forall n | 0 <= n < |ticks| && DueTick(cfg, ticks[n], d) && AlreadyFired(marker, true, d)
      ensures LastDue(cfg, ticks[..n]).Some?
    {
      var k :| 0 <= k < |ticks| && DueNow(cfg, ticks[k].pre) && !NotAfter(d, ticks[k].pre.day);
      assert k < n && ticks[..n][k] == ticks[k];
      LastDueIsDue(cfg, ticks[..n]);
    }
  }

  lemma {:induction false} ForwardSignals(cfg: Config, marker: Option<string>, ticks: seq<Tick>, d: Day)
    requires DaysForward(ticks) && NeverInherited(cfg, marker, ticks, d)
    ensures SignallingTicks(cfg, marker, ticks, d) == if Due(cfg, ticks, d) then 1 + LaterBlind(cfg, ticks, d) else 0
    ensures !Due(cfg, ticks, d) ==> LaterBlind(cfg, ticks, d) == 0
  {
    hide AlreadyFired, DueNow;
    if ticks != [] {
      var n := |ticks| - 1;
      assert forall i :: 0 <= i < n ==> ticks[..n][i] == ticks[i] && ticks[..n][..i] == ticks[..i];
      ForwardSignals(cfg, marker, ticks[..n], d);
      DueSplits(cfg, ticks, d);
      if DueTick(cfg, ticks[n], d) {
        if Due(cfg, ticks[..n], d) {
          DueDayIsOnDisk(cfg, marker, ticks, n, d);
        } else {
          LastDueIsDue(cfg, ticks[..n]);
        }
      }
    }
  }

  /**
   Over every run without crashes and failed writes, with days that do not go back and whatever reads
   fail: a day that is not recorded from the start gets no signal if it is never due, and otherwise
   one for its first due tick and one more for each later due tick that cannot read the marker. So it
   gets exactly one if and only if it is due and every later due tick of it reads the marker.
   */
  lemma {:induction false} ExactlyOneSignalPerDueDay(cfg: Config, marker: Option<string>, ticks: seq<Tick>, d: Day)
    requires ClockFaces(cfg, ticks) && Delivered(ticks) && DaysForward(ticks)
    requires !Recorded(cfg, marker, ticks, d)
    ensures var count := SignalCount(RunTicks(Boot(cfg, marker), ticks).signals, d);
            && count == (if Due(cfg, ticks, d) then 1 + LaterBlind(cfg, ticks, d) else 0)
            && (count == 1 <==> Due(cfg, ticks, d) && LaterRead(cfg, ticks, d))
  {
    SignalsExactly(cfg, marker, ticks, d);
    UnrecordedNeverInherited(cfg, marker, ticks, d);
    ForwardSignals(cfg, marker, ticks, d);
    NoLaterBlind(cfg, ticks, d);
  }

  /** The due ticks of a day that cannot read the marker. */
  function BlindTicks(cfg: Config, ticks: seq<Tick>, d: Day): nat {
    if ticks == [] then 0
    else
      var t := ticks[|ticks| - 1];
      BlindTicks(cfg, ticks[..|ticks| - 1], d) + if DueTick(cfg, t, d) && !t.readPre then 1 else 0
  }

  lemma {:induction false} NoBlindTicks(cfg: Config, ticks: seq<Tick>, d: Day)
    ensures BlindTicks(cfg, ticks, d) == 0 <==> forall i :: 0 <= i < |ticks| && DueTick(cfg, ticks[i], d) ==> ticks[i].readPre
  {
    hide DueTick;
    if ticks != [] {
      NoBlindTicks(cfg, ticks[..|ticks| - 1], d);
    }
  }

  lemma {:induction false} RecordedSignals(cfg: Config, marker: Option<string>, ticks: seq<Tick>, d: Day)
    requires DaysForward(ticks) && Recorded(cfg, marker, ticks, d)
    ensures SignallingTicks(cfg, marker, ticks, d) == BlindTicks(cfg, ticks, d)
  {
    hide AlreadyFired, DueNow;
    if ticks != [] {
      var n := |ticks| - 1;
      RecordedSignals(cfg, marker, ticks[..n], d);
      if DueTick(cfg, ticks[n], d) && LastDue(cfg, ticks[..n]).Some? {
        LastDueIsDue(cfg, ticks[..n]);
        var i :| 0 <= i < n && DueTick(cfg, ticks[..n][i], LastDue(cfg, ticks[..n]).value);
        assert NotAfter(ticks[i].pre.day, ticks[n].pre.day) && NotAfter(d, ticks[i].pre.day);
        assert Due(cfg, ticks[..n], d);
        DueDayIsOnDisk(cfg, marker, ticks, n, d);
      }
    }
  }

  /**
   And a recorded day is signalled once for each of its due ticks that cannot read the marker, and so
   stays silent if and only if all of them read it.
   */
  lemma {:induction false} RecordedDayStaysSilent(cfg: Config, marker: Option<string>, ticks: seq<Tick>, d: Day)
    requires ClockFaces(cfg, ticks) && Delivered(ticks) && DaysForward(ticks)
    requires Recorded(cfg, marker, ticks, d)
    ensures var count := SignalCount(RunTicks(Boot(cfg, marker), ticks).signals, d);
            && count == BlindTicks(cfg, ticks, d)
            && (count == 0 <==> forall i :: 0 <= i < |ticks| && DueTick(cfg, ticks[i], d) ==> ticks[i].readPre)
  {
    SignalsExactly(cfg, marker, ticks, d);
    RecordedSignals(cfg, marker, ticks, d);
    NoBlindTicks(cfg, ticks, d);
  }

  // ---------------------------------------------------------------------------------------------
  // Exactly when a day fires again
  // ---------------------------------------------------------------------------------------------

  /** The second sample turns the Fire into a skip: due again, its day not seen as recorded, fresh authentication. */
  predicate SkipAtEnd(cfg: Config, marker: Option<string>, t: Tick) {
    && DueNow(cfg, t.post) && !AlreadyFired(marker, t.readPost, t.post.day)
    && FreshAuth(t.equivalentPost, t.post, cfg.target)
  }

  /** Everything but the marker read at the first sample lets the tick end in a Fire. */
  predicate Proceeds(cfg: Config, marker: Option<string>, t: Tick) {
    && DueNow(cfg, t.pre) && !FreshAuth(t.equivalentPre, t.pre, cfg.target) && !SkipAtEnd(cfg, marker, t)
    && t.writeOk && t.open
  }

  lemma {:induction false} TickCounts(s: State, t: Tick, d: Day)
    requires s.phase == Idle && ClockFaces(s.cfg, [t])
    ensures FireCount(TickStep(s, t).signals, d) == FireCount(s.signals, d) +
      if d == t.pre.day && !AlreadyFired(s.marker, t.readPre, d) && Proceeds(s.cfg, s.marker, t) then 1 else 0
    ensures TickStep(s, t).phase == Idle || TickStep(s, t).phase == Stopped
    ensures TickStep(s, t).cfg == s.cfg
  {
    hide FireCount, DayKey, TickStep, DueNow, FreshAuth, AlreadyFired;
    TickOutcome(s, t);
    FreshNeedsMarker(t.equivalentPre, t.pre, s.cfg.target);
    FreshNeedsMarker(t.equivalentPost, t.post, s.cfg.target);
    FireCountAppend(s.signals, Fire(t.pre.day), d);
    if FreshAuth(t.equivalentPre, t.pre, s.cfg.target) {
      FireCountAppend(s.signals, Skipped(t.pre.day, t.equivalentPre.value), d);
    } else if FreshAuth(t.equivalentPost, t.post, s.cfg.target) {
      FireCountAppend(s.signals, Skipped(t.pre.day, t.equivalentPost.value), d);
    }
  }

  /** The day of the last marker write that succeeded. */
  function LastWritten(s: State, events: seq<Event>): Option<Day> {
    if events == [] then None
    else
      var before, e := events[..|events| - 1], events[|events| - 1];
      var phase := Run(s, before).phase;
      if e == WriteMarker(true) && (phase.SkipDecided? || phase.FireDecided?) then Some(phase.pre.day)
      else LastWritten(s, before)
  }

  lemma {:induction false} MarkerIsLastWritten(s: State, events: seq<Event>)
    ensures Run(s, events).marker ==
      if LastWritten(s, events).Some? then Some(DayKey(LastWritten(s, events).value)) else s.marker
  {
    hide DayKey, Decide;
    if events != [] {
      MarkerIsLastWritten(s, events[..|events| - 1]);
    }
  }

  /** Nothing fires before something was written. */
  lemma {:induction false} FiredMeansWritten(cfg: Config, marker: Option<string>, events: seq<Event>)
    ensures var s := Run(Boot(cfg, marker), events);
            LastWritten(Boot(cfg, marker), events).None? ==>
              (forall d :: FireCount(s.signals, d) == 0) && !s.phase.FireUnsent?
  {
    hide DayKey, Decide, FireCount;
    NoFires();
    if events != [] {
      var before, e := events[..|events| - 1], events[|events| - 1];
      FiredMeansWritten(cfg, marker, before);
      if e.Send? {
        SendCounts(Run(Boot(cfg, marker), before), e);
      }
    }
  }

  /**
   Any clock: in any state a run reaches between two ticks, crashes and failures included, a tick on
   a day that has fired fires it again exactly when everything else lets it and either the first
   read of the marker fails or the last completed write was for another day.
   */
  lemma {:induction false} RefireExactly(cfg: Config, marker: Option<string>, events: seq<Event>, t: Tick)
    requires var s := Run(Boot(cfg, marker), events);
             s.phase == Idle && ClockFaces(s.cfg, [t]) && FireCount(s.signals, t.pre.day) > 0
    ensures var s := Run(Boot(cfg, marker), events);
            var unseen := !t.readPre || LastWritten(Boot(cfg, marker), events) != Some(t.pre.day);
            var again := unseen && Proceeds(s.cfg, s.marker, t);
            FireCount(TickStep(s, t).signals, t.pre.day) == FireCount(s.signals, t.pre.day) + if again then 1 else 0
  {
    hide FireCount, DayKey, TickStep, Proceeds, Run;
    TickCounts(Run(Boot(cfg, marker), events), t, t.pre.day);
    MarkerIsLastWritten(Boot(cfg, marker), events);
    FiredMeansWritten(cfg, marker, events);
    NoFires();
    MarkerRoundTrip(LastWritten(Boot(cfg, marker), events).value, t.pre.day);
  }

  /** `Proceeds` for a day whose key is on disk: the second sample sees it recorded unless its read fails. */
  predicate ProceedsAgain(cfg: Config, t: Tick) {
    && DueNow(cfg, t.pre) && !FreshAuth(t.equivalentPre, t.pre, cfg.target)
    && !(DueNow(cfg, t.post) && !(t.readPost && t.post.day == t.pre.day) && FreshAuth(t.equivalentPost, t.post, cfg.target))
    && t.writeOk && t.open
  }

  /** A clock whose days do not go back leaves the fired day's key on disk until the day is over. */
  lemma {:induction false} FiredDayIsOnDisk(cfg: Config, marker: Option<string>, events: seq<Event>, e: Event)
    requires e.TopSample? && DaysNeverGoBack(events + [e])
    requires FireCount(Run(Boot(cfg, marker), events).signals, e.now.day) > 0
    ensures Run(Boot(cfg, marker), events).marker == Some(DayKey(e.now.day))
  {
    hide FireCount, DayKey, Run;
    var all := events + [e];
    assert forall i :: 0 <= i < |events| ==> all[i] == events[i];
    assert all[|events|] == e;
    NoFires();
    RunKeepsTracked(Boot(cfg, marker), events);
    LatestDayIsSampled(Boot(cfg, marker), events);
  }

  /**
   A clock whose days do not go back: a tick on a day that has fired fires it again exactly when the
   first read of the marker fails and everything else lets it.
   */
  lemma {:induction false} BlindRefireExactly(cfg: Config, marker: Option<string>, events: seq<Event>, t: Tick)
    requires DaysNeverGoBack(events + [TopSample(t.pre, t.readPre, t.equivalentPre)])
    requires var s := Run(Boot(cfg, marker), events);
             s.phase == Idle && ClockFaces(s.cfg, [t]) && FireCount(s.signals, t.pre.day) > 0
    ensures var s := Run(Boot(cfg, marker), events);
            FireCount(TickStep(s, t).signals, t.pre.day) ==
              FireCount(s.signals, t.pre.day) + if !t.readPre && ProceedsAgain(s.cfg, t) then 1 else 0
  {
    hide FireCount, DayKey, TickStep, Run, DueNow, FreshAuth;
    TickCounts(Run(Boot(cfg, marker), events), t, t.pre.day);
    FiredDayIsOnDisk(cfg, marker, events, TopSample(t.pre, t.readPre, t.equivalentPre));
    MarkerRoundTrip(t.pre.day, t.pre.day);
    MarkerRoundTrip(t.pre.day, t.post.day);
  }

  type Effects = n: nat | n < 4

  /** An iteration that completes, or one that a crash ends after fewer than its four effects. */
  datatype Turn = Whole(tick: Tick) | CutShort(tick: Tick, done: Effects, next: Config)

  function TurnEvents(x: Turn): seq<Event> {
    match x
    case Whole(t) => TickEvents(t)
    case CutShort(t, done, next) => TickEvents(t)[..done] + [Crash(next)]
  }

  function EventsOf(turns: seq<Turn>): seq<Event> {
    if turns == [] then [] else EventsOf(turns[..|turns| - 1]) + TurnEvents(turns[|turns| - 1])
  }

  /** Iterations with crashes in any of them, anywhere in them. */
  function RunTurns(s: State, turns: seq<Turn>): State {
    Run(s, EventsOf(turns))
  }

  predicate TurnOnClockFace(x: Turn) {
    && OnClockFace(x.tick.pre, x.tick.equivalentPre) && OnClockFace(x.tick.post, x.tick.equivalentPost)
    && (x.CutShort? ==> x.next.bootAt.minute < 60)
  }

  predicate TurnsOnClockFace(cfg: Config, turns: seq<Turn>) {
    cfg.bootAt.minute < 60 && forall n :: 0 <= n < |turns| ==> TurnOnClockFace(turns[n])
  }

  lemma {:induction false} OnlySendsSignal(s: State, events: seq<Event>)
    requires forall i :: 0 <= i < |events| ==> !events[i].Send?
    ensures Run(s, events).signals == s.signals
  {
    if events != [] {
      OnlySendsSignal(s, events[..|events| - 1]);
    }
  }

  lemma {:induction false} CutShortKeepsSignals(s: State, x: Turn)
    requires x.CutShort?
    ensures var s' := Run(s, TurnEvents(x)); s'.signals == s.signals && s'.phase == Idle && s'.cfg == x.next
  {
    var begun := TickEvents(x.tick)[..x.done];
    OnlySendsSignal(s, begun);
    assert TurnEvents(x)[..|begun|] == begun;
  }

  lemma {:induction false} TurnCounts(s: State, x: Turn, d: Day)
    requires s.phase == Idle || s.phase == Stopped
    requires s.cfg.bootAt.minute < 60 && TurnOnClockFace(x)
    ensures FireCount(Run(s, TurnEvents(x)).signals, d) == FireCount(s.signals, d) + Gain(s, x, d)
    ensures var s' := Run(s, TurnEvents(x)); (s'.phase == Idle || s'.phase == Stopped) && s'.cfg.bootAt.minute < 60
  {
    if x.CutShort? {
      CutShortKeepsSignals(s, x);
    } else {
      TickIsRun(s, x.tick);
      if s.phase == Idle {
        hide FireCount, TickStep, Proceeds, AlreadyFired;
        TickCounts(s, x.tick, d);
      }
    }
  }

  /** A completed iteration that ends in a Fire. */
  predicate Fires(s: State, x: Turn) {
    && x.Whole? && s.phase == Idle
    && !AlreadyFired(s.marker, x.tick.readPre, x.tick.pre.day) && Proceeds(s.cfg, s.marker, x.tick)
  }

  function Gain(s: State, x: Turn, d: Day): nat {
    if Fires(s, x) && d == x.tick.pre.day then 1 else 0
  }

  /** The day has fired, and the iteration neither sees that nor is stopped by anything else. */
  predicate Refires(s: State, x: Turn) {
    FireCount(s.signals, x.tick.pre.day) > 0 && Fires(s, x)
  }

  lemma {:induction false} NextTurn(s: State, turns: seq<Turn>)
    requires turns != []
    ensures RunTurns(s, turns) == Run(RunTurns(s, turns[..|turns| - 1]), TurnEvents(turns[|turns| - 1]))
  {
    RunConcat(s, EventsOf(turns[..|turns| - 1]), TurnEvents(turns[|turns| - 1]));
  }

  lemma {:induction false} TurnsStayWhole(cfg: Config, marker: Option<string>, turns: seq<Turn>)
    requires TurnsOnClockFace(cfg, turns)
    ensures var s := RunTurns(Boot(cfg, marker), turns); (s.phase == Idle || s.phase == Stopped) && s.cfg.bootAt.minute < 60
  {
    if turns != [] {
      var n := |turns| - 1;
      TurnsStayWhole(cfg, marker, turns[..n]);
      NextTurn(Boot(cfg, marker), turns);
      TurnCounts(RunTurns(Boot(cfg, marker), turns[..n]), turns[n], turns[n].tick.pre.day);
    }
  }

  ghost predicate NeverRefires(start: State, turns: seq<Turn>) {
    forall n :: 0 <= n < |turns| ==> !Refires(RunTurns(start, turns[..n]), turns[n])
  }

  ghost predicate NoneTwice(signals: seq<Signal>) {
    forall d :: FireCount(signals, d) <= 1
  }

  lemma {:induction false} NeverRefiresSplits(start: State, turns: seq<Turn>)
    requires turns != []
    ensures var n := |turns| - 1;
            NeverRefires(start, turns) <==> NeverRefires(start, turns[..n]) && !Refires(RunTurns(start, turns[..n]), turns[n])
  {
    hide Refires, RunTurns;
    var n := |turns| - 1;
    assert forall i :: 0 <= i < n ==> turns[..n][..i] == turns[..i] && turns[..n][i] == turns[i];
    if NeverRefires(start, turns[..n]) && !Refires(RunTurns(start, turns[..n]), turns[n]) {
      forall i | 0 <= i < |turns| ensures !Refires(RunTurns(start, turns[..i]), turns[i]) {
        if i < n {
          assert !Refires(RunTurns(start, turns[..n][..i]), turns[..n][i]);
        }
      }
    }
    if NeverRefires(start, turns) {
      forall i | 0 <= i < n ensures !Refires(RunTurns(start, turns[..n][..i]), turns[..n][i]) {
        assert !Refires(RunTurns(start, turns[..i]), turns[i]);
      }
    }
  }

  lemma {:induction false} TurnKeepsNoneTwice(s: State, x: Turn)
    requires s.phase == Idle || s.phase == Stopped
    requires s.cfg.bootAt.minute < 60 && TurnOnClockFace(x)
    ensures NoneTwice(Run(s, TurnEvents(x)).signals) <==> NoneTwice(s.signals) && !Refires(s, x)
  {
    hide FireCount, Run, TurnEvents, Fires;
    forall d
      ensures FireCount(Run(s, TurnEvents(x)).signals, d) == FireCount(s.signals, d) + Gain(s, x, d)
    {
      TurnCounts(s, x, d);
    }
    var d := x.tick.pre.day;
    assert FireCount(Run(s, TurnEvents(x)).signals, d) <= 1 || !NoneTwice(Run(s, TurnEvents(x)).signals);
    if NoneTwice(Run(s, TurnEvents(x)).signals) {
      forall e ensures FireCount(s.signals, e) <= 1 {
        assert FireCount(Run(s, TurnEvents(x)).signals, e) <= 1;
      }
    }
  }

  /**
   Any clock, any failures, crashes anywhere: no day fires twice if and only if no completed
   iteration finds its day fired, the marker not saying so, and everything else in its favour.
   */
  lemma {:induction false} AtMostOnceExactly(cfg: Config, marker: Option<string>, turns: seq<Turn>)
    requires TurnsOnClockFace(cfg, turns)
    ensures NoneTwice(RunTurns(Boot(cfg, marker), turns).signals) <==> NeverRefires(Boot(cfg, marker), turns)
  {
    hide Refires, FireCount;
    if turns == [] {
      NoFires();
    } else {
      var n := |turns| - 1;
      AtMostOnceExactly(cfg, marker, turns[..n]);
      NextTurn(Boot(cfg, marker), turns);
      TurnsStayWhole(cfg, marker, turns[..n]);
      NeverRefiresSplits(Boot(cfg, marker), turns);
      TurnKeepsNoneTwice(RunTurns(Boot(cfg, marker), turns[..n]), turns[n]);
    }
  }

  lemma {:induction false} EventsPrefix(turns: seq<Turn>, n: nat)
    requires n < |turns|
    ensures EventsOf(turns[..n]) + TurnEvents(turns[n]) <= EventsOf(turns)
  {
    if n < |turns| - 1 {
      var before := turns[..|turns| - 1];
      EventsPrefix(before, n);
      assert before[..n] == turns[..n];
    }
  }

  /** The iteration finds its day fired but cannot read the marker, and everything else is in its favour. */
  predicate BlindlyRefires(s: State, x: Turn) {
    && x.Whole? && s.phase == Idle && FireCount(s.signals, x.tick.pre.day) > 0
    && !x.tick.readPre && ProceedsAgain(s.cfg, x.tick)
  }

  lemma {:induction false} FirstSampleForward(turns: seq<Turn>, n: nat)
    requires n < |turns| && turns[n].Whole? && DaysNeverGoBack(EventsOf(turns))
    ensures var t := turns[n].tick; DaysNeverGoBack(EventsOf(turns[..n]) + [TopSample(t.pre, t.readPre, t.equivalentPre)])
  {
    hide EventsOf;
    var t := turns[n].tick;
    var some := EventsOf(turns[..n]) + [TopSample(t.pre, t.readPre, t.equivalentPre)];
    EventsPrefix(turns, n);
    assert TurnEvents(turns[n])[0] == TopSample(t.pre, t.readPre, t.equivalentPre);
    assert forall i :: 0 <= i < |some| ==> some[i] == EventsOf(turns)[i];
  }

  lemma UnreadIsNotFired(marker: Option<string>, day: Day)
    ensures !AlreadyFired(marker, false, day)
  {
  }

  lemma {:induction false} ForwardRefire(cfg: Config, marker: Option<string>, turns: seq<Turn>, n: nat)
    requires n < |turns| && DaysNeverGoBack(EventsOf(turns))
    ensures var s := RunTurns(Boot(cfg, marker), turns[..n]); Refires(s, turns[n]) <==> BlindlyRefires(s, turns[n])
  {
    hide FireCount, DayKey, Run, DueNow, FreshAuth, EventsOf, DaysNeverGoBack, AlreadyFired;
    var s, x := RunTurns(Boot(cfg, marker), turns[..n]), turns[n];
    if x.Whole? && FireCount(s.signals, x.tick.pre.day) > 0 {
      FirstSampleForward(turns, n);
      FiredDayIsOnDisk(cfg, marker, EventsOf(turns[..n]), TopSample(x.tick.pre, x.tick.readPre, x.tick.equivalentPre));
      MarkerRoundTrip(x.tick.pre.day, x.tick.pre.day);
      MarkerRoundTrip(x.tick.pre.day, x.tick.post.day);
      assert !AlreadyFired(s.marker, false, x.tick.pre.day) && !AlreadyFired(s.marker, false, x.tick.post.day) by {
        UnreadIsNotFired(s.marker, x.tick.pre.day);
        UnreadIsNotFired(s.marker, x.tick.post.day);
      }
    }
  }

  /**
   A clock whose days do not go back, any failures, crashes anywhere: no day fires twice if and only
   if no completed iteration of a fired day fails to read the marker with everything else in its favour.
   */
  lemma {:induction false} SingleFireExactly(cfg: Config, marker: Option<string>, turns: seq<Turn>)
    requires TurnsOnClockFace(cfg, turns) && DaysNeverGoBack(EventsOf(turns))
    ensures NoneTwice(RunTurns(Boot(cfg, marker), turns).signals) <==>
      forall n :: 0 <= n < |turns| ==> !BlindlyRefires(RunTurns(Boot(cfg, marker), turns[..n]), turns[n])
  {
    hide Refires, BlindlyRefires, RunTurns, NoneTwice;
    AtMostOnceExactly(cfg, marker, turns);
    forall n | 0 <= n < |turns|
      ensures var s := RunTurns(Boot(cfg, marker), turns[..n]); Refires(s, turns[n]) <==> BlindlyRefires(s, turns[n])
    {
      ForwardRefire(cfg, marker, turns, n);
    }
  }

  /** The iteration in progress began with a sample of a fired day whose marker could not be read. */
  predicate BegunBlind(s: State, events: seq<Event>) {
    if events == [] then false
    else
      var before, e := events[..|events| - 1], events[|events| - 1];
      if e.TopSample? && Run(s, before).phase == Idle then BlindSample(Run(s, before), e) else BegunBlind(s, before)
  }

  predicate BlindSample(s: State, e: Event) {
    e.TopSample? && FireCount(s.signals, e.now.day) > 0 && !e.readable
  }

  /** On its way to a Fire, the day in flight has fired already exactly when the iteration began blind. */
  predicate BlindInFlight(s: State, blind: bool) {
    s.phase.Warning? || s.phase.FireDecided? || s.phase.FireUnsent? ==>
      (FireCount(s.signals, s.phase.pre.day) > 0 <==> blind)
  }

  lemma {:induction false} StepKeepsBlind(s: State, e: Event, latest: Option<Day>, blind: bool)
    requires Tracked(s, latest) && NotBackFrom(latest, e) && BlindInFlight(s, blind)
    ensures BlindInFlight(Step(s, e), if e.TopSample? && s.phase == Idle then BlindSample(s, e) else blind)
  {
    hide FireCount, DayKey;
    if e.TopSample? && s.phase == Idle && FireCount(s.signals, e.now.day) > 0 {
      assert latest == Some(e.now.day);
      MarkerRoundTrip(e.now.day, e.now.day);
    }
  }

  lemma {:induction false} RunKeepsBlind(cfg: Config, marker: Option<string>, events: seq<Event>)
    requires DaysNeverGoBack(events)
    ensures BlindInFlight(Run(Boot(cfg, marker), events), BegunBlind(Boot(cfg, marker), events))
  {
    hide BlindInFlight, BlindSample, Step;
    var s := Boot(cfg, marker);
    if events == [] {
      NotInFlight(s);
    } else {
      var before := events[..|events| - 1];
      RunKeepsBlind(cfg, marker, before);
      NoFires();
      RunKeepsTracked(s, before);
      LatestDayIsSampled(s, before);
      StepKeepsBlind(Run(s, before), events[|events| - 1], LatestDay(s, before), BegunBlind(s, before));
    }
  }

  lemma {:induction false} NotInFlight(s: State)
    requires s.phase == Idle
    ensures BlindInFlight(s, false)
  {
  }

  /** The send that ends an iteration begun blind with a Fire. */
  predicate BlindSend(start: State, events: seq<Event>, k: nat)
    requires k < |events|
  {
    events[k] == Send(true) && Run(start, events[..k]).phase.FireUnsent? && BegunBlind(start, events[..k])
  }

  ghost predicate NoBlindSend(start: State, events: seq<Event>) {
    forall k :: 0 <= k < |events| ==> !BlindSend(start, events, k)
  }

  lemma {:induction false} NoBlindSendSplits(start: State, events: seq<Event>)
    requires events != []
    ensures var n := |events| - 1;
            NoBlindSend(start, events) <==> NoBlindSend(start, events[..n]) && !BlindSend(start, events, n)
  {
    hide Run, BegunBlind;
    var n := |events| - 1;
    assert forall k :: 0 <= k < n ==> events[..n][..k] == events[..k];
    assert forall k :: 0 <= k < n ==> (BlindSend(start, events[..n], k) <==> BlindSend(start, events, k));
  }

  lemma {:induction false} StepKeepsNoneTwice(s: State, e: Event)
    ensures NoneTwice(Step(s, e).signals) <==>
      NoneTwice(s.signals) && !(e == Send(true) && s.phase.FireUnsent? && FireCount(s.signals, s.phase.pre.day) > 0)
  {
    hide FireCount, Decide;
    if e.Send? {
      SendCounts(s, e);
      var s' := Step(s, e);
      if NoneTwice(s'.signals) {
        forall d ensures FireCount(s.signals, d) <= 1 {
          assert FireCount(s'.signals, d) <= 1;
        }
        if e.open && s.phase.FireUnsent? {
          assert FireCount(s'.signals, s.phase.pre.day) <= 1;
        }
      }
    }
  }

  /**
   The same over the interruptible steps: with days that do not go back, no day fires twice if and
   only if no send completes an iteration that began on a fired day without reading the marker.
   */
  lemma {:induction false} NoneTwiceExactly(cfg: Config, marker: Option<string>, events: seq<Event>)
    requires DaysNeverGoBack(events)
    ensures NoneTwice(Run(Boot(cfg, marker), events).signals) <==> NoBlindSend(Boot(cfg, marker), events)
  {
    hide FireCount, Step, NoneTwice, NoBlindSend, DaysNeverGoBack;
    var s := Boot(cfg, marker);
    if events == [] {
      EmptyNoneTwice(s);
    } else {
      var n := |events| - 1;
      EarlierDays(events, n);
      NoneTwiceExactly(cfg, marker, events[..n]);
      NoBlindSendSplits(s, events);
      RunKeepsBlind(cfg, marker, events[..n]);
      StepKeepsNoneTwice(Run(s, events[..n]), events[n]);
    }
  }

  lemma {:induction false} EmptyNoneTwice(s: State)
    ensures NoneTwice([]) && NoBlindSend(s, [])
  {
    NoFires();
  }

  lemma {:induction false} EarlierDays(events: seq<Event>, n: nat)
    requires DaysNeverGoBack(events) && n <= |events|
    ensures DaysNeverGoBack(events[..n])
  {
    assert forall i :: 0 <= i < n ==> events[..n][i] == events[i];
  }

  // ---------------------------------------------------------------------------------------------
  // No memory of the boot instant
  // ---------------------------------------------------------------------------------------------

  predicate SamplesAvoid(events: seq<Event>, d: Day) {
    forall i :: 0 <= i < |events| && (events[i].TopSample? || events[i].WarningOver?) ==> events[i].now.day != d
  }

  lemma SameDecision(a: Config, b: Config, now: Stamp, markers: MarkerState)
    requires a.target == b.target && now.day != a.bootAt.day && now.day != b.bootAt.day
    ensures ComputeNextAction(now, a, markers) == ComputeNextAction(now, b, markers)
  {
  }

  /**
   Two processes with the same target that booted at different instants, fed the same events on
   days that are neither boot day, agree on phase, disk and signals throughout, crashes included.
   */
  lemma {:induction false} BootInstantForgotten(a: State, b: State, events: seq<Event>)
    requires a.cfg.target == b.cfg.target
    requires a.phase == b.phase && a.marker == b.marker && a.signals == b.signals
    requires SamplesAvoid(events, a.cfg.bootAt.day) && SamplesAvoid(events, b.cfg.bootAt.day)
    ensures var a', b' := Run(a, events), Run(b, events);
            && a'.phase == b'.phase && a'.marker == b'.marker && a'.signals == b'.signals
            && a'.cfg.target == b'.cfg.target
            && (a'.cfg == b'.cfg || (a'.cfg == a.cfg && b'.cfg == b.cfg))
  {
    hide ComputeNextAction, ReadMarkers;
    if events != [] {
      var before, e := events[..|events| - 1], events[|events| - 1];
      BootInstantForgotten(a, b, before);
      if e.TopSample? || e.WarningOver? {
        var a', b' := Run(a, before), Run(b, before);
        if a'.cfg != b'.cfg {
          SameDecision(a.cfg, b.cfg, e.now, ReadMarkers(a'.marker, e.readable, e.equivalent, e.now));
        }
      }
    }
  }
}
