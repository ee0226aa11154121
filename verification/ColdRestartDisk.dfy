/**
 The cold-restart scheduler on top of the marker-file protocol. The scheduler's marker write is the
 writer's create, piecewise write, close and rename; its reads go through readers that may lag or
 fail; a crash may fall between any two of these steps. Every run of the composed machine is a run
 of the scheduler's own step machine, so at most one Fire per day holds of it too.
 */
module ColdRestartDisk {
  import opened Text
  import opened Calendar
  import opened ColdRestart
  import opened ColdRestartRuns
  import Files = MarkerFiles

  /** How texts are stored as bytes; bytes that are no text cannot be read. */
  datatype Codec = Codec(encode: string -> Files.Bytes, decode: Files.Bytes -> Option<string>)

  ghost predicate RoundTrips(c: Codec) {
    forall text :: c.decode(c.encode(text)) == Some(text)
  }

  /** Everything but the scheduler itself: where and how it stores its marker. */
  datatype Store = Store(codec: Codec, paths: Files.Layout)

  datatype Joint = Joint(cfg: Config, phase: Phase, signals: seq<Signal>, files: Files.World)

  /** A sample names the reader whose result it uses; `Disk` is one step of any writer or reader. */
  datatype JointEvent =
    | Top(now: Stamp, reader: nat, equivalent: Option<Stamp>)
    | Over(now: Stamp, reader: nat, equivalent: Option<Stamp>)
    | Disk(action: Files.Action)
    | Sends(open: bool)
    | Crashes(cfg: Config)

  // ---------------------------------------------------------------------------------------------
  // The composed machine
  // ---------------------------------------------------------------------------------------------

  predicate Deciding(p: Phase) {
    p.SkipDecided? || p.FireDecided?
  }

  /** The reader opened the fired marker after its last write and came to an end. */
  predicate ReadDone(w: Files.World, i: nat) {
    && i < |w.readers| && w.readers[i].of == Files.Fired && !w.readers[i].Reading?
    && w.readers[i].seen + 1 == |w.versions.fired|
  }

  /** The text the read gave, if it gave any. */
  function ReadBack(c: Codec, w: Files.World, i: nat): Option<string> {
    if ReadDone(w, i) && w.readers[i].Finished? then c.decode(w.readers[i].result) else None
  }

  function DecideOn(st: Store, s: Joint, now: Stamp, reader: nat, equivalent: Option<Stamp>): NextAction {
    ComputeNextAction(now, s.cfg, ReadMarkers(ReadBack(st.codec, s.files, reader), true, equivalent, now))
  }

  /** The phase after the write of the fired marker ended, well or not. */
  function WriteEnded(p: Phase, ok: bool): Phase {
    match p
    case SkipDecided(pre, at) => SkipUnsent(pre, at)
    case FireDecided(pre) => if ok then FireUnsent(pre) else Idle
    case _ => p
  }

  function DiskStep(st: Store, s: Joint, a: Files.Action): Joint {
    var acted := s.(files := Files.Act(st.paths, s.files, a));
    if a.Create? && a.w == Files.Fired then
      if Deciding(s.phase) && a.bytes == st.codec.encode(DayKey(s.phase.pre.day)) then acted else s
    else if a == Files.Rename(Files.Fired) then
      if s.files.writers.fired.Closed? then acted.(phase := WriteEnded(s.phase, true)) else s
    else if a == Files.Fail(Files.Fired) then acted.(phase := WriteEnded(s.phase, false))
    else if a == Files.Crash then s
    else acted
  }

  function JointStep(st: Store, s: Joint, e: JointEvent): Joint {
    match e
    case Top(now, reader, equivalent) =>
      if s.phase != Idle then s
      else (
        match DecideOn(st, s, now, reader, equivalent)
        case Sleep => s
        case Skip(at) => s.(phase := SkipDecided(now, at))
        case FireEligible => s.(phase := Warning(now)))
    case Over(now, reader, equivalent) =>
      if !s.phase.Warning? then s
      else (
        match DecideOn(st, s, now, reader, equivalent)
        case Skip(at) => s.(phase := SkipDecided(s.phase.pre, at))
        case _ => s.(phase := FireDecided(s.phase.pre)))
    case Disk(a) => DiskStep(st, s, a)
    case Sends(open) =>
      if s.phase.SkipUnsent? then
        if open then s.(phase := Idle, signals := s.signals + [Skipped(s.phase.pre.day, s.phase.at)]) else s.(phase := Stopped)
      else if s.phase.FireUnsent? then
        if open then s.(phase := Idle, signals := s.signals + [Fire(s.phase.pre.day)]) else s.(phase := Stopped)
      else s
    case Crashes(cfg) => s.(cfg := cfg, phase := Idle, files := Files.Act(st.paths, s.files, Files.Crash))
  }

  function JointRun(st: Store, s: Joint, events: seq<JointEvent>): Joint {
    if events == [] then s
    else JointStep(st, JointRun(st, s, events[..|events| - 1]), events[|events| - 1])
  }

  function JointBoot(st: Store, cfg: Config, d: Files.Disk): Joint {
    Joint(cfg, Idle, [], Files.Start(st.paths, d))
  }

  // ---------------------------------------------------------------------------------------------
  // What it simulates
  // ---------------------------------------------------------------------------------------------

  /** The text on disk under the marker's name. */
  function MarkerText(st: Store, w: Files.World): Option<string> {
    var content := Files.Content(w.disk, st.paths.fired);
    if content.Some? then st.codec.decode(content.value) else None
  }

  function Abstract(st: Store, s: Joint): State {
    State(s.cfg, s.phase, MarkerText(st, s.files), s.signals)
  }

  /** An event that the phase does not await. */
  function Ignored(p: Phase): Event {
    if p.SkipUnsent? || p.FireUnsent? then WriteMarker(true) else Send(true)
  }

  /** The scheduler's view of one composed step. */
  function View(s: Joint, e: JointEvent): Event {
    match e
    case Top(now, reader, equivalent) => TopSample(now, ReadDone(s.files, reader), equivalent)
    case Over(now, reader, equivalent) => WarningOver(now, ReadDone(s.files, reader), equivalent)
    case Disk(a) =>
      if a == Files.Rename(Files.Fired) && s.files.writers.fired.Closed? then WriteMarker(true)
      else if a == Files.Fail(Files.Fired) && Deciding(s.phase) then WriteMarker(false)
      else Ignored(s.phase)
    case Sends(open) => Send(open)
    case Crashes(cfg) => Crash(cfg)
  }

  /** A write of the fired marker in progress writes the key of the day being decided. */
  ghost predicate WritesKey(st: Store, s: Joint) {
    !s.files.writers.fired.Resting? ==>
      Deciding(s.phase) && s.files.writers.fired.bytes == st.codec.encode(DayKey(s.phase.pre.day))
  }

  ghost predicate Sound(st: Store, s: Joint) {
    Files.Consistent(st.paths, s.files) && WritesKey(st, s)
  }

  ghost predicate StoreOk(st: Store) {
    RoundTrips(st.codec) && Files.Distinct(st.paths)
  }

  /** A finished read of the current version is what is on disk. */
  lemma {:induction false} ReadIsCurrent(st: Store, w: Files.World, i: nat)
    requires Files.Consistent(st.paths, w) && ReadDone(w, i)
    ensures ReadBack(st.codec, w, i) == MarkerText(st, w)
  {
    var r := w.readers[i];
    assert Files.ReaderOk(st.paths, w, r);
    assert w.versions.Get(Files.Fired) == w.versions.fired;
    assert w.versions.Get(Files.Fired)[|w.versions.fired| - 1] == Files.Content(w.disk, st.paths.Get(Files.Fired));
  }

  /** Composed and abstract scheduler decide alike. */
  lemma {:induction false} SameDecisionOnDisk(st: Store, s: Joint, now: Stamp, reader: nat, equivalent: Option<Stamp>)
    requires Sound(st, s)
    ensures DecideOn(st, s, now, reader, equivalent) == Decide(Abstract(st, s), now, ReadDone(s.files, reader), equivalent)
  {
    hide ComputeNextAction, Files.Consistent;
    if ReadDone(s.files, reader) {
      ReadIsCurrent(st, s.files, reader);
    }
  }

  /** A step by the fired marker's writer, or the end of its process. */
  predicate OwnStep(a: Files.Action) {
    a.Crash? || ((a.Create? || a.Write? || a.Close? || a.Rename? || a.Fail?) && a.w == Files.Fired)
  }

  /** What a step does to the writer of the fired marker. */
  lemma WritersFrame(paths: Files.Layout, w: Files.World, a: Files.Action)
    ensures var before, after := w.writers.fired, Files.Act(paths, w, a).writers.fired;
            if !OwnStep(a) then after == before
            else if a.Create? then
              if before.Resting? then !after.Resting? && after.bytes == a.bytes else after == before
            else if a.Write? || a.Close? then
              after.Resting? == before.Resting? && (!before.Resting? ==> after.bytes == before.bytes)
            else a.Fail? || a.Crash? || before.Closed? ==> after.Resting?
  {
  }

  /** Only the rename of a complete file changes the text on disk, and then to the key of the day. */
  lemma {:induction false} TextAfter(st: Store, s: Joint, a: Files.Action)
    requires StoreOk(st) && Sound(st, s)
    ensures MarkerText(st, Files.Act(st.paths, s.files, a)) ==
      if a == Files.Rename(Files.Fired) && s.files.writers.fired.Closed? then Some(DayKey(s.phase.pre.day))
      else MarkerText(st, s.files)
  {
    hide DayKey, Files.Consistent, Files.Act, Files.Content;
    Files.OnlyOwnRenameChangesMarker(st.paths, s.files, a, Files.Fired);
    assert st.paths.Get(Files.Fired) == st.paths.fired && s.files.writers.Get(Files.Fired) == s.files.writers.fired;
  }

  lemma {:induction false} DiskStepSimulates(st: Store, s: Joint, a: Files.Action)
    requires StoreOk(st) && Sound(st, s)
    ensures Sound(st, DiskStep(st, s, a))
    ensures Abstract(st, DiskStep(st, s, a)) == Step(Abstract(st, s), View(s, Disk(a)))
  {
    hide DayKey, Files.Consistent, Files.Act, MarkerText, Decide;
    Files.StepStaysConsistent(st.paths, s.files, a);
    WritersFrame(st.paths, s.files, a);
    TextAfter(st, s, a);
  }

  /** Each composed step is one step of the scheduler's machine, and keeps files and phase in accord. */
  lemma {:induction false} StepSimulates(st: Store, s: Joint, e: JointEvent)
    requires StoreOk(st) && Sound(st, s)
    ensures Sound(st, JointStep(st, s, e))
    ensures Abstract(st, JointStep(st, s, e)) == Step(Abstract(st, s), View(s, e))
  {
    hide DayKey, Files.Consistent, Files.Act, MarkerText, Decide, DecideOn, DiskStep;
    match e
    case Top(now, reader, equivalent) => SameDecisionOnDisk(st, s, now, reader, equivalent);
    case Over(now, reader, equivalent) => SameDecisionOnDisk(st, s, now, reader, equivalent);
    case Disk(a) => DiskStepSimulates(st, s, a);
    case Sends(_) =>
    case Crashes(_) =>
      Files.StepStaysConsistent(st.paths, s.files, Files.Crash);
      WritersFrame(st.paths, s.files, Files.Crash);
      TextAfter(st, s, Files.Crash);
  }

  /** The scheduler's view of a whole composed run. */
  function Views(st: Store, s: Joint, events: seq<JointEvent>): (views: seq<Event>)
    ensures |views| == |events|
  {
    if events == [] then []
    else
      var before := events[..|events| - 1];
      Views(st, s, before) + [View(JointRun(st, s, before), events[|events| - 1])]
  }

  lemma {:induction false} ViewAt(st: Store, s: Joint, events: seq<JointEvent>, i: nat)
    requires i < |events|
    ensures Views(st, s, events)[..i] == Views(st, s, events[..i])
    ensures Views(st, s, events)[i] == View(JointRun(st, s, events[..i]), events[i])
  {
    hide View, JointRun;
    if i < |events| - 1 {
      var before := events[..|events| - 1];
      ViewAt(st, s, before, i);
      assert before[..i] == events[..i];
      assert Views(st, s, events)[..i] == Views(st, s, before)[..i];
    }
  }

  /**
   Every run of the composed machine, crashes in the middle of a write included, is a run of the
   scheduler's own machine with the same signals and the text on disk as its marker.
   */
  lemma {:induction false} RunSimulates(st: Store, s: Joint, events: seq<JointEvent>)
    requires StoreOk(st) && Sound(st, s)
    ensures Sound(st, JointRun(st, s, events))
    ensures Abstract(st, JointRun(st, s, events)) == Run(Abstract(st, s), Views(st, s, events))
  {
    hide View, JointStep, Step, Sound, Abstract;
    if events != [] {
      var before := events[..|events| - 1];
      RunSimulates(st, s, before);
      StepSimulates(st, JointRun(st, s, before), events[|events| - 1]);
      assert Views(st, s, events)[..|before|] == Views(st, s, before);
    }
  }

  lemma {:induction false} BootIsSound(st: Store, cfg: Config, d: Files.Disk)
    requires Files.Distinct(st.paths) && Files.Unaliased(st.paths, d)
    ensures Sound(st, JointBoot(st, cfg, d))
    ensures Abstract(st, JointBoot(st, cfg, d)) == Boot(cfg, MarkerText(st, Files.Start(st.paths, d)))
  {
    Files.RunStaysConsistent(st.paths, d, []);
  }

  // ---------------------------------------------------------------------------------------------
  // At most one Fire per day, through the files
  // ---------------------------------------------------------------------------------------------

  predicate TopDaysNeverGoBack(events: seq<JointEvent>) {
    forall i, j :: 0 <= i < j < |events| && events[i].Top? && events[j].Top? ==> NotAfter(events[i].now.day, events[j].now.day)
  }

  /** A first sample that would fire a day again uses a read that came to its end. */
  predicate RefireRead(s: Joint, e: JointEvent) {
    e.Top? && s.phase == Idle && FireCount(s.signals, e.now.day) > 0 && WouldFire(s.cfg, e.now, e.equivalent) ==>
      ReadDone(s.files, e.reader)
  }

  ghost predicate RefiresRead(st: Store, s: Joint, events: seq<JointEvent>) {
    forall i :: 0 <= i < |events| ==> RefireRead(JointRun(st, s, events[..i]), events[i])
  }

  lemma {:induction false} ViewDays(st: Store, s: Joint, events: seq<JointEvent>)
    requires TopDaysNeverGoBack(events)
    ensures DaysNeverGoBack(Views(st, s, events))
  {
    hide JointRun, Views;
    var views := Views(st, s, events);
    forall i | 0 <= i < |events| ensures views[i].TopSample? ==> events[i].Top? && views[i].now == events[i].now {
      ViewAt(st, s, events, i);
    }
  }

  lemma {:induction false} ViewsKeepProvisos(st: Store, s: Joint, events: seq<JointEvent>)
    requires StoreOk(st) && Sound(st, s)
    requires TopDaysNeverGoBack(events) && RefiresRead(st, s, events)
    ensures DaysNeverGoBack(Views(st, s, events)) && RefiresReadable(Abstract(st, s), Views(st, s, events))
  {
    hide JointRun, Views, Run, Sound, WouldFire, FireCount;
    ViewDays(st, s, events);
    var views := Views(st, s, events);
    forall i | 0 <= i < |events|
      ensures RefireReadable(Run(Abstract(st, s), views[..i]), views[i])
    {
      ViewAt(st, s, events, i);
      RunSimulates(st, s, events[..i]);
      assert RefireRead(JointRun(st, s, events[..i]), events[i]);
    }
  }

  /**
   For all settings directories, over every run of scheduler, writers and readers, with crashes
   between any two steps, in the middle of a marker write included, failed writes and failed reads, a
   day gets at most one Fire. Only the days of the first samples must not go back, and a sample that
   would fire a day again must use a read that came to its end.
   */
  lemma {:induction false} AtMostOneFireThroughFiles(
    codec: Codec, firedDir: string, equivalentDir: string, cfg: Config, d: Files.Disk, events: seq<JointEvent>, day: Day)
    requires RoundTrips(codec) && Files.Unaliased(Files.MarkerPaths(firedDir, equivalentDir), d)
    requires TopDaysNeverGoBack(events)
    requires var st := Store(codec, Files.MarkerPaths(firedDir, equivalentDir)); RefiresRead(st, JointBoot(st, cfg, d), events)
    ensures var st := Store(codec, Files.MarkerPaths(firedDir, equivalentDir));
            FireCount(JointRun(st, JointBoot(st, cfg, d), events).signals, day) <= 1
  {
    hide JointRun, Views, Run, Sound, FireCount, Files.MarkerPaths, Files.Unaliased;
    var st := Store(codec, Files.MarkerPaths(firedDir, equivalentDir));
    var s := JointBoot(st, cfg, d);
    Files.MarkerPathsDistinct(firedDir, equivalentDir);
    BootIsSound(st, cfg, d);
    RunSimulates(st, s, events);
    ViewsKeepProvisos(st, s, events);
    AtMostOneFirePerDay(cfg, MarkerText(st, s.files), Views(st, s, events), day);
  }

  /** The iteration in progress began on a fired day with a read that did not come to its end. */
  predicate BegunUnread(st: Store, s: Joint, events: seq<JointEvent>) {
    if events == [] then false
    else
      var before, e := events[..|events| - 1], events[|events| - 1];
      var now := JointRun(st, s, before);
      if e.Top? && now.phase == Idle then FireCount(now.signals, e.now.day) > 0 && !ReadDone(now.files, e.reader)
      else BegunUnread(st, s, before)
  }

  /** The send that ends such an iteration with a Fire. */
  predicate UnreadSend(st: Store, s: Joint, events: seq<JointEvent>, k: nat)
    requires k < |events|
  {
    events[k] == Sends(true) && JointRun(st, s, events[..k]).phase.FireUnsent? && BegunUnread(st, s, events[..k])
  }

  lemma {:induction false} UnreadIsBlind(st: Store, s: Joint, events: seq<JointEvent>)
    requires StoreOk(st) && Sound(st, s)
    ensures BegunUnread(st, s, events) <==> BegunBlind(Abstract(st, s), Views(st, s, events))
  {
    hide Sound, FireCount, JointStep, Step, Run, Files.Act;
    if events != [] {
      var before := events[..|events| - 1];
      UnreadIsBlind(st, s, before);
      RunSimulates(st, s, before);
      assert Views(st, s, events)[..|before|] == Views(st, s, before);
    }
  }

  lemma {:induction false} SendsAreSends(st: Store, s: Joint, events: seq<JointEvent>, k: nat)
    requires StoreOk(st) && Sound(st, s) && k < |events|
    ensures UnreadSend(st, s, events, k) <==> BlindSend(Abstract(st, s), Views(st, s, events), k)
  {
    hide Sound, FireCount, JointStep, Step, Run, JointRun, Views, BegunUnread, BegunBlind;
    UnreadIsBlind(st, s, events[..k]);
    RunSimulates(st, s, events[..k]);
    ViewAt(st, s, events, k);
  }

  /**
   For all settings directories and over every run of scheduler, writers and readers, crashes
   anywhere, with days that do not go back: no day fires twice if and only if no send completes an
   iteration that began on a fired day with a read that did not come to its end.
   */
  lemma {:induction false} SingleFireThroughFilesExactly(
    codec: Codec, firedDir: string, equivalentDir: string, cfg: Config, d: Files.Disk, events: seq<JointEvent>)
    requires RoundTrips(codec) && Files.Unaliased(Files.MarkerPaths(firedDir, equivalentDir), d)
    requires TopDaysNeverGoBack(events)
    ensures var st := Store(codec, Files.MarkerPaths(firedDir, equivalentDir));
            var s := JointBoot(st, cfg, d);
            NoneTwice(JointRun(st, s, events).signals) <==> forall k :: 0 <= k < |events| ==> !UnreadSend(st, s, events, k)
  {
    hide JointRun, Views, Run, Sound, FireCount, NoneTwice, Files.MarkerPaths, Files.Unaliased, UnreadSend, BlindSend;
    var st := Store(codec, Files.MarkerPaths(firedDir, equivalentDir));
    var s := JointBoot(st, cfg, d);
    Files.MarkerPathsDistinct(firedDir, equivalentDir);
    BootIsSound(st, cfg, d);
    RunSimulates(st, s, events);
    ViewDays(st, s, events);
    NoneTwiceExactly(cfg, MarkerText(st, s.files), Views(st, s, events));
    forall k | 0 <= k < |events| ensures UnreadSend(st, s, events, k) <==> BlindSend(Abstract(st, s), Views(st, s, events), k) {
      SendsAreSends(st, s, events, k);
    }
  }
}
