/**
 The two marker files and their writers as a concurrent protocol over names and file contents.
 Each writer fills a temporary file piece by piece and renames it over its marker; readers open a
 marker and read it piece by piece; anything may interleave, fail, or be cut off by a crash.
 */
module MarkerFiles {
  import opened Text

  type Bytes = seq<bv8>

  datatype Which = Fired | Equivalent

  datatype Pair<T> = Pair(fired: T, equivalent: T) {
    function Get(w: Which): T {
      if w == Fired then fired else equivalent
    }
    function Set(w: Which, x: T): Pair<T> {
      if w == Fired then Pair(x, equivalent) else Pair(fired, x)
    }
  }

  // ---------------------------------------------------------------------------------------------
  // Names
  // ---------------------------------------------------------------------------------------------

  function JoinPath(dir: string, name: string): string {
    if dir == [] || dir[|dir| - 1] == '/' then dir + name else dir + "/" + name
  }

  type Layout = Pair<string>

  function Temp(paths: Layout, w: Which): string {
    paths.Get(w) + ".tmp"
  }

  /** The four names in play do not collide. */
  predicate Distinct(paths: Layout) {
    && paths.fired != paths.equivalent
    && paths.fired != paths.equivalent + ".tmp"
    && paths.equivalent != paths.fired + ".tmp"
    && Temp(paths, Fired) != Temp(paths, Equivalent)
  }

  function MarkerPaths(firedDir: string, equivalentDir: string): Layout {
    Pair(JoinPath(firedDir, ".ibctl-cold-restart-marker"), JoinPath(equivalentDir, ".ibctl-cold-restart-equivalent-today"))
  }

  /** The names in a settings directory, written with or without its final slash. */
  lemma MarkerNames(dir: string)
    requires dir != "" && dir[|dir| - 1] != '/'
    ensures MarkerPaths(dir, dir + "/").fired == dir + "/" + ".ibctl-cold-restart-marker"
    ensures MarkerPaths(dir, dir + "/").equivalent == dir + "/" + ".ibctl-cold-restart-equivalent-today"
    ensures Temp(MarkerPaths(dir, dir), Fired) == dir + "/" + ".ibctl-cold-restart-marker" + ".tmp"
  {
  }

  /** Whatever the two settings directories are, equal or not, the actual names do not collide. */
  lemma {:induction false} MarkerPathsDistinct(firedDir: string, equivalentDir: string)
    ensures Distinct(MarkerPaths(firedDir, equivalentDir))
  {
    var p := MarkerPaths(firedDir, equivalentDir);
    assert p.fired[|p.fired| - 1] == 'r';
    assert p.equivalent[|p.equivalent| - 1] == 'y';
    var ft, et := p.fired + ".tmp", p.equivalent + ".tmp";
    assert ft[|ft| - 1] == et[|et| - 1] == 'p';
    assert ft[|ft| - 5] == 'r' && et[|et| - 5] == 'y';
  }

  // ---------------------------------------------------------------------------------------------
  // The protocol
  // ---------------------------------------------------------------------------------------------

  /** Names refer to files by number; a file keeps its contents for whoever has it open. */
  datatype Disk = Disk(names: map<string, nat>, files: seq<Bytes>)

  datatype Writer =
    | Resting
    | Writing(bytes: Bytes, file: nat, done: nat)
    | Closed(bytes: Bytes)

  /** `seen` counts the completed writes of the marker at the moment the reader opened it. */
  datatype Reader =
    | Missing(of: Which, seen: nat)
    | Reading(of: Which, seen: nat, file: nat, got: Bytes)
    | Finished(of: Which, seen: nat, result: Bytes)

  /** `versions` lists what each marker has held: first its initial content, then completed writes. */
  datatype World = World(
    disk: Disk,
    writers: Pair<Writer>,
    versions: Pair<seq<Option<Bytes>>>,
    readers: seq<Reader>)

  datatype Action =
    | Create(w: Which, bytes: Bytes)
    | Write(w: Which, count: nat)
    | Close(w: Which)
    | Rename(w: Which)
    | Fail(w: Which)
    | Crash
    | Open(w: Which)
    | Read(reader: nat, count: nat)
    | EndOfFile(reader: nat)

  function WriteAt(content: Bytes, at: nat, chunk: Bytes): Bytes {
    if at > |content| then content
    else content[..at] + chunk + (if at + |chunk| <= |content| then content[at + |chunk|..] else [])
  }

  /** `File::create`: truncate the file of that name, or make a new one. */
  function CreateFile(d: Disk, name: string): Disk {
    if name in d.names && d.names[name] < |d.files| then Disk(d.names, d.files[d.names[name] := []])
    else Disk(d.names[name := |d.files|], d.files + [[]])
  }

  function Content(d: Disk, name: string): Option<Bytes> {
    if name in d.names && d.names[name] < |d.files| then Some(d.files[d.names[name]]) else None
  }

  /** One step of one participant. A step that its participant is not ready for changes nothing. */
  function Act(paths: Layout, s: World, a: Action): World {
    match a
    case Create(w, bytes) =>
      if !s.writers.Get(w).Resting? then s
      else
        var d := CreateFile(s.disk, Temp(paths, w));
        s.(disk := d, writers := s.writers.Set(w, Writing(bytes, d.names[Temp(paths, w)], 0)))
    case Write(w, count) =>
      var pc := s.writers.Get(w);
      if !pc.Writing? || pc.file >= |s.disk.files| || pc.done + count > |pc.bytes| then s
      else
        var filled := WriteAt(s.disk.files[pc.file], pc.done, pc.bytes[pc.done..pc.done + count]);
        s.(disk := s.disk.(files := s.disk.files[pc.file := filled]),
           writers := s.writers.Set(w, pc.(done := pc.done + count)))
    case Close(w) =>
      var pc := s.writers.Get(w);
      if pc.Writing? && pc.done == |pc.bytes| then s.(writers := s.writers.Set(w, Closed(pc.bytes))) else s
    case Rename(w) =>
      var pc := s.writers.Get(w);
      if !pc.Closed? then s
      else if Temp(paths, w) !in s.disk.names then s.(writers := s.writers.Set(w, Resting))
      else
        var moved := s.disk.names[paths.Get(w) := s.disk.names[Temp(paths, w)]] - {Temp(paths, w)};
        s.(disk := s.disk.(names := moved), writers := s.writers.Set(w, Resting),
           versions := s.versions.Set(w, s.versions.Get(w) + [Some(pc.bytes)]))
    case Fail(w) => s.(writers := s.writers.Set(w, Resting))
    case Crash => s.(writers := Pair(Resting, Resting))
    case Open(w) =>
      var seen := |s.versions.Get(w)| - 1;
      if seen < 0 then s
      else if Content(s.disk, paths.Get(w)).None? then s.(readers := s.readers + [Missing(w, seen)])
      else s.(readers := s.readers + [Reading(w, seen, s.disk.names[paths.Get(w)], [])])
    case Read(i, count) =>
      if i >= |s.readers| || !s.readers[i].Reading? || s.readers[i].file >= |s.disk.files| then s
      else
        var r := s.readers[i];
        var content := s.disk.files[r.file];
        if |r.got| + count > |content| then s
        else s.(readers := s.readers[i := r.(got := r.got + content[|r.got|..|r.got| + count])])
    case EndOfFile(i) =>
      if i >= |s.readers| || !s.readers[i].Reading? || s.readers[i].file >= |s.disk.files| then s
      else
        var r := s.readers[i];
        if |r.got| < |s.disk.files[r.file]| then s
        else s.(readers := s.readers[i := Finished(r.of, r.seen, r.got)])
  }

  function Run(paths: Layout, s: World, actions: seq<Action>): World {
    if actions == [] then s
    else Act(paths, Run(paths, s, actions[..|actions| - 1]), actions[|actions| - 1])
  }

  // ---------------------------------------------------------------------------------------------
  // What every step keeps
  // ---------------------------------------------------------------------------------------------

  /** Existing names of ours refer to existing files, and no two of them to the same file. */
  ghost predicate Unaliased(paths: Layout, d: Disk) {
    var ours := {paths.fired, paths.equivalent, Temp(paths, Fired), Temp(paths, Equivalent)};
    && (forall n :: n in ours && n in d.names ==> d.names[n] < |d.files|)
    && (forall m, n :: m in ours && n in ours && m in d.names && n in d.names && m != n ==> d.names[m] != d.names[n])
  }

  ghost predicate WriterOk(paths: Layout, s: World, w: Which) {
    var pc := s.writers.Get(w);
    match pc
    case Resting => true
    case Writing(bytes, file, done) =>
      && Temp(paths, w) in s.disk.names && s.disk.names[Temp(paths, w)] == file && file < |s.disk.files|
      && done <= |bytes| && s.disk.files[file] == bytes[..done]
    case Closed(bytes) => Content(s.disk, Temp(paths, w)) == Some(bytes)
  }

  /** A temporary name refers to this file, so a writer may still change it. */
  predicate Writable(paths: Layout, d: Disk, file: nat) {
    || (Temp(paths, Fired) in d.names && d.names[Temp(paths, Fired)] == file)
    || (Temp(paths, Equivalent) in d.names && d.names[Temp(paths, Equivalent)] == file)
  }

  ghost predicate ReaderOk(paths: Layout, s: World, r: Reader) {
    && r.seen < |s.versions.Get(r.of)|
    && var at := s.versions.Get(r.of)[r.seen];
       match r
       case Missing(_, _) => at == None
       case Finished(_, _, result) => at == Some(result)
       case Reading(_, _, file, got) =>
         file < |s.disk.files| && at == Some(s.disk.files[file]) && got <= s.disk.files[file]
         && !Writable(paths, s.disk, file)
  }

  ghost predicate Consistent(paths: Layout, s: World) {
    && Unaliased(paths, s.disk)
    && (forall w :: WriterOk(paths, s, w))
    && (forall w :: |s.versions.Get(w)| > 0 && s.versions.Get(w)[|s.versions.Get(w)| - 1] == Content(s.disk, paths.Get(w)))
    && (forall i :: 0 <= i < |s.readers| ==> ReaderOk(paths, s, s.readers[i]))
  }

  /** A step changes only files with a temporary name and appends to the versions. */
  lemma {:induction false} StepFrame(paths: Layout, s: World, a: Action)
    requires Distinct(paths) && Consistent(paths, s)
    ensures var s' := Act(paths, s, a);
            && |s'.disk.files| >= |s.disk.files|
            && (forall f :: 0 <= f < |s.disk.files| && !Writable(paths, s.disk, f) ==>
                  s'.disk.files[f] == s.disk.files[f] && !Writable(paths, s'.disk, f))
            && (forall w :: s.versions.Get(w) <= s'.versions.Get(w))
  {
    if a.Write? {
      assert WriterOk(paths, s, a.w);
    }
  }

  lemma {:induction false} OldReaderStaysOk(paths: Layout, s: World, a: Action, i: nat)
    requires Distinct(paths) && Consistent(paths, s) && i < |s.readers|
    ensures var s' := Act(paths, s, a); i < |s'.readers| && ReaderOk(paths, s', s'.readers[i])
  {
    StepFrame(paths, s, a);
    hide Unaliased, WriterOk, CreateFile, WriteAt, Content, Distinct;
    var r := s.readers[i];
    assert ReaderOk(paths, s, r);
    if a == EndOfFile(i) && r.Reading? && |r.got| >= |s.disk.files[r.file]| {
      assert r.got == s.disk.files[r.file];
    }
  }

  lemma {:induction false} NewReaderOk(paths: Layout, s: World, a: Action, i: nat)
    requires Distinct(paths) && Consistent(paths, s) && |s.readers| <= i < |Act(paths, s, a).readers|
    ensures ReaderOk(paths, Act(paths, s, a), Act(paths, s, a).readers[i])
  {
    assert a.Open?;
    assert |s.versions.Get(a.w)| > 0;
  }

  lemma {:induction false} ReadersStayOk(paths: Layout, s: World, a: Action)
    requires Distinct(paths) && Consistent(paths, s)
    ensures forall i :: 0 <= i < |Act(paths, s, a).readers| ==> ReaderOk(paths, Act(paths, s, a), Act(paths, s, a).readers[i])
  {
    hide Act, Consistent, ReaderOk, Distinct;
    var s' := Act(paths, s, a);
    forall i | 0 <= i < |s'.readers| ensures ReaderOk(paths, s', s'.readers[i]) {
      if i < |s.readers| {
        OldReaderStaysOk(paths, s, a, i);
      } else {
        NewReaderOk(paths, s, a, i);
      }
    }
  }

  lemma {:induction false} OwnStepKeepsWriter(paths: Layout, s: World, a: Action, w: Which)
    requires Distinct(paths) && Consistent(paths, s)
    requires a == Close(w) || (a.Write? && a.w == w)
    ensures WriterOk(paths, Act(paths, s, a), w)
  {
    assert WriterOk(paths, s, w);
    var pc := s.writers.Get(w);
    if pc.Writing? {
      assert pc.bytes[..|pc.bytes|] == pc.bytes;
      if a.Write? && pc.done + a.count <= |pc.bytes| {
        assert pc.bytes[..pc.done] + pc.bytes[pc.done..pc.done + a.count] == pc.bytes[..pc.done + a.count];
      }
    }
  }

  lemma {:induction false} OtherWriteKeepsWriter(paths: Layout, s: World, a: Action, w: Which)
    requires Distinct(paths) && Consistent(paths, s)
    requires a.Write? && a.w != w
    ensures WriterOk(paths, Act(paths, s, a), w)
  {
    assert WriterOk(paths, s, w) && WriterOk(paths, s, a.w);
  }

  lemma {:induction false} CreateKeepsWriter(paths: Layout, s: World, a: Action, w: Which)
    requires Distinct(paths) && Consistent(paths, s) && a.Create?
    ensures WriterOk(paths, Act(paths, s, a), w)
  {
    assert WriterOk(paths, s, w);
  }

  lemma {:induction false} RenameKeepsWriter(paths: Layout, s: World, a: Action, w: Which)
    requires Distinct(paths) && Consistent(paths, s) && a.Rename?
    ensures WriterOk(paths, Act(paths, s, a), w)
  {
    hide CreateFile, WriteAt;
    assert WriterOk(paths, s, w);
  }

  lemma {:induction false} WritersStayOk(paths: Layout, s: World, a: Action, w: Which)
    requires Distinct(paths) && Consistent(paths, s)
    ensures WriterOk(paths, Act(paths, s, a), w)
  {
    assert WriterOk(paths, s, w);
    if a == Close(w) || (a.Write? && a.w == w) {
      OwnStepKeepsWriter(paths, s, a, w);
    } else if a.Write? {
      OtherWriteKeepsWriter(paths, s, a, w);
    } else if a.Create? {
      CreateKeepsWriter(paths, s, a, w);
    } else if a.Rename? {
      RenameKeepsWriter(paths, s, a, w);
    }
  }

  /**
   A marker changes only by its own writer's rename of a complete file, and then holds exactly the
   bytes that writer was given: no step of the other writer, no unfinished or failed write, no
   crash and no reader disturbs it.
   */
  lemma {:induction false} OnlyOwnRenameChangesMarker(paths: Layout, s: World, a: Action, w: Which)
    requires Distinct(paths) && Consistent(paths, s)
    ensures Content(Act(paths, s, a).disk, paths.Get(w)) ==
      if a == Rename(w) && s.writers.Get(w).Closed? then Some(s.writers.Get(w).bytes)
      else Content(s.disk, paths.Get(w))
  {
    assert WriterOk(paths, s, w);
    if a.Write? {
      assert WriterOk(paths, s, a.w);
    }
  }

  lemma {:induction false} NamesStayUnaliased(paths: Layout, s: World, a: Action)
    requires Distinct(paths) && Consistent(paths, s)
    ensures Unaliased(paths, Act(paths, s, a).disk)
  {
    if a.Write? {
      assert WriterOk(paths, s, a.w);
    }
  }

  lemma {:induction false} VersionsStayCurrent(paths: Layout, s: World, a: Action, w: Which)
    requires Distinct(paths) && Consistent(paths, s)
    ensures var s' := Act(paths, s, a);
            |s'.versions.Get(w)| > 0 && s'.versions.Get(w)[|s'.versions.Get(w)| - 1] == Content(s'.disk, paths.Get(w))
  {
    OnlyOwnRenameChangesMarker(paths, s, a, w);
    assert WriterOk(paths, s, w);
    assert |s.versions.Get(w)| > 0;
  }

  lemma {:induction false} StepStaysConsistent(paths: Layout, s: World, a: Action)
    requires Distinct(paths) && Consistent(paths, s)
    ensures Consistent(paths, Act(paths, s, a))
  {
    NamesStayUnaliased(paths, s, a);
    ReadersStayOk(paths, s, a);
    forall w ensures WriterOk(paths, Act(paths, s, a), w) {
      WritersStayOk(paths, s, a, w);
    }
    var s' := Act(paths, s, a);
    forall w
      ensures |s'.versions.Get(w)| > 0 && s'.versions.Get(w)[|s'.versions.Get(w)| - 1] == Content(s'.disk, paths.Get(w))
    {
      VersionsStayCurrent(paths, s, a, w);
    }
  }

  function Start(paths: Layout, d: Disk): World {
    World(d, Pair(Resting, Resting), Pair([Content(d, paths.fired)], [Content(d, paths.equivalent)]), [])
  }

  lemma {:induction false} RunStaysConsistent(paths: Layout, d: Disk, actions: seq<Action>)
    requires Distinct(paths) && Unaliased(paths, d)
    ensures Consistent(paths, Run(paths, Start(paths, d), actions))
  {
    if actions != [] {
      RunStaysConsistent(paths, d, actions[..|actions| - 1]);
      StepStaysConsistent(paths, Run(paths, Start(paths, d), actions[..|actions| - 1]), actions[|actions| - 1]);
    }
  }

  /** Some call asked writer `w` to write exactly these bytes. */
  ghost predicate Requested(actions: seq<Action>, w: Which, bytes: Bytes) {
    exists i :: 0 <= i < |actions| && actions[i] == Create(w, bytes)
  }

  lemma {:induction false} RequestedEarlier(actions: seq<Action>, w: Which, bytes: Bytes)
    requires actions != [] && Requested(actions[..|actions| - 1], w, bytes)
    ensures Requested(actions, w, bytes)
  {
    var i :| 0 <= i < |actions| - 1 && actions[..|actions| - 1][i] == Create(w, bytes);
    assert actions[i] == Create(w, bytes);
  }

  /** Every version after the initial one is the whole argument of some call of its own writer. */
  lemma {:induction false} VersionsAreWholeWrites(paths: Layout, d: Disk, actions: seq<Action>, w: Which)
    ensures var s := Run(paths, Start(paths, d), actions);
            var versions, pc := s.versions.Get(w), s.writers.Get(w);
            && |versions| > 0 && versions[0] == Content(d, paths.Get(w))
            && (forall k :: 1 <= k < |versions| ==> versions[k].Some? && Requested(actions, w, versions[k].value))
            && (!pc.Resting? ==> Requested(actions, w, pc.bytes))
  {
    if actions != [] {
      var n := |actions| - 1;
      VersionsAreWholeWrites(paths, d, actions[..n], w);
      var before := Run(paths, Start(paths, d), actions[..n]);
      var versions, pc := before.versions.Get(w), before.writers.Get(w);
      forall k | 1 <= k < |versions| ensures Requested(actions, w, versions[k].value) {
        RequestedEarlier(actions, w, versions[k].value);
      }
      if !pc.Resting? {
        RequestedEarlier(actions, w, pc.bytes);
      } else if actions[n].Create? && actions[n].w == w {
        assert Requested(actions, w, actions[n].bytes);
      }
    }
  }

  /**
   For every interleaving of both writers, any readers, failures and crashes, a finished read of a
   marker returned the version that was current when it opened the marker: its initial content or
   the whole of one completed write of that marker, however many writes have happened since.
   */
  lemma {:induction false} NoTornReads(firedDir: string, equivalentDir: string, d: Disk, actions: seq<Action>, i: nat)
    requires Unaliased(MarkerPaths(firedDir, equivalentDir), d)
    requires var s := Run(MarkerPaths(firedDir, equivalentDir), Start(MarkerPaths(firedDir, equivalentDir), d), actions);
             i < |s.readers| && s.readers[i].Finished?
    ensures var paths := MarkerPaths(firedDir, equivalentDir);
            var s := Run(paths, Start(paths, d), actions);
            var r := s.readers[i];
            && r.seen < |s.versions.Get(r.of)| && s.versions.Get(r.of)[r.seen] == Some(r.result)
            && (Content(d, paths.Get(r.of)) == Some(r.result) || Requested(actions, r.of, r.result))
  {
    var paths := MarkerPaths(firedDir, equivalentDir);
    var s := Run(paths, Start(paths, d), actions);
    MarkerPathsDistinct(firedDir, equivalentDir);
    RunStaysConsistent(paths, d, actions);
    var r := s.readers[i];
    assert ReaderOk(paths, s, r);
    VersionsAreWholeWrites(paths, d, actions, r.of);
  }
}
