/**
 The debounce tracker that revokes the Connected state: a map of first sightings, proved to agree
 with a scan of the whole history of observations and clears.
 */
module Revocation {
  import opened Text

  datatype Tag =
    | JvmDiedTag | ErrorDialogTag | ReloginDialogTag | SessionConflictTag | LoginFormVisibleTag
    | DisconnectedLabelStableTag | ConnectionStatusEventTag | WindowClassMorphedTag | ApiPortListenerLostTag

  datatype Source =
    | JvmDied | ErrorDialog(title: string) | ReloginDialog | SessionConflict | LoginFormVisible
    | DisconnectedLabelStable | ConnectionStatusEvent | WindowClassMorphed(from: string, to: string) | ApiPortListenerLost

  /** Milliseconds a contradiction must persist. */
  function Debounce(s: Source): nat {
    match s
    case JvmDied => 0
    case ErrorDialog(_) => 500
    case ReloginDialog => 0
    case SessionConflict => 0
    case LoginFormVisible => 1000
    case DisconnectedLabelStable => 2000
    case ConnectionStatusEvent => 2000
    case WindowClassMorphed(_, _) => 500
    case ApiPortListenerLost => 0
  }

  function TagOf(s: Source): Tag {
    match s
    case JvmDied => JvmDiedTag
    case ErrorDialog(_) => ErrorDialogTag
    case ReloginDialog => ReloginDialogTag
    case SessionConflict => SessionConflictTag
    case LoginFormVisible => LoginFormVisibleTag
    case DisconnectedLabelStable => DisconnectedLabelStableTag
    case ConnectionStatusEvent => ConnectionStatusEventTag
    case WindowClassMorphed(_, _) => WindowClassMorphedTag
    case ApiPortListenerLost => ApiPortListenerLostTag
  }

  /** Equal up to payload. */
  predicate SameKind(a: Source, b: Source) {
    match a
    case ErrorDialog(_) => b.ErrorDialog?
    case WindowClassMorphed(_, _) => b.WindowClassMorphed?
    case _ => a == b
  }

  /** Sources share a timer exactly when they are of one kind, and then share its debounce too. */
  lemma TagsAreKinds(a: Source, b: Source)
    ensures TagOf(a) == TagOf(b) <==> SameKind(a, b)
    ensures SameKind(a, b) ==> Debounce(a) == Debounce(b)
  {
  }

  /** A dead JVM, a relogin dialog, a session conflict and a lost port count at once; nothing else does. */
  lemma DebounceTimes(s: Source)
    ensures Debounce(s) == 0 <==> s.JvmDied? || s.ReloginDialog? || s.SessionConflict? || s.ApiPortListenerLost?
    ensures Debounce(s) == 500 <==> s.ErrorDialog? || s.WindowClassMorphed?
    ensures Debounce(s) == 1000 <==> s.LoginFormVisible?
    ensures Debounce(s) == 2000 <==> s.DisconnectedLabelStable? || s.ConnectionStatusEvent?
  {
  }

  // ---------------------------------------------------------------------------------------------
  // The tracker
  // ---------------------------------------------------------------------------------------------

  datatype Sighting = Sighting(at: int, source: Source)

  type Sightings = map<Tag, Sighting>

  function AfterObserve(seen: Sightings, s: Source, now: int): Sightings {
    if TagOf(s) in seen then seen else seen[TagOf(s) := Sighting(now, s)]
  }

  function Observed(seen: Sightings, s: Source, now: int): Option<Source> {
    if TagOf(s) in seen then (if now - seen[TagOf(s)].at >= Debounce(s) then Some(s) else None)
    else if Debounce(s) == 0 then Some(s) else None
  }

  class RevocationTracker {
    var firstSeen: Sightings

    constructor ()
      ensures firstSeen == map[]
    {
      firstSeen := map[];
    }

    method Observe(s: Source, now: int) returns (matured: Option<Source>)
      modifies this
      ensures firstSeen == AfterObserve(old(firstSeen), s, now)
      ensures matured == Observed(old(firstSeen), s, now)
    {
      var tag, debounce := TagOf(s), Debounce(s);
      if tag in firstSeen {
        if now - firstSeen[tag].at >= debounce {
          return Some(s);
        }
        return None;
      }
      firstSeen := firstSeen[tag := Sighting(now, s)];
      if debounce == 0 {
        return Some(s);
      }
      return None;
    }

    method Clear(tag: Tag)
      modifies this
      ensures firstSeen == old(firstSeen) - {tag}
    {
      firstSeen := firstSeen - {tag};
    }

    method ClearAll()
      modifies this
      ensures firstSeen == map[]
    {
      firstSeen := map[];
    }
  }

  // ---------------------------------------------------------------------------------------------
  // The history
  // ---------------------------------------------------------------------------------------------

  datatype Event = Observe(source: Source, at: int) | Clear(tag: Tag, at: int) | ClearAll(at: int)

  function RunTracker(events: seq<Event>): Sightings {
    if events == [] then map[]
    else Apply(RunTracker(events[..|events| - 1]), events[|events| - 1])
  }

  function Apply(seen: Sightings, e: Event): Sightings {
    match e
    case Observe(s, at) => AfterObserve(seen, s, at)
    case Clear(tag, _) => seen - {tag}
    case ClearAll(_) => map[]
  }

  predicate Observes(e: Event, tag: Tag) {
    e.Observe? && TagOf(e.source) == tag
  }

  predicate Clears(e: Event, tag: Tag) {
    e.ClearAll? || (e.Clear? && e.tag == tag)
  }

  /** Event `k` observed the tag, and nothing has cleared the tag since. */
  predicate PendingAt(events: seq<Event>, tag: Tag, k: nat): (p: bool)
    ensures p ==> k < |events|
  {
    k < |events| && Observes(events[k], tag) && forall j :: k < j < |events| ==> !Clears(events[j], tag)
  }

  predicate TimesForward(events: seq<Event>) {
    forall i, j :: 0 <= i < j < |events| ==> events[i].at <= events[j].at
  }

  /** The map's entry is the earliest pending observation, and there is one only then. */
  ghost predicate Agrees(events: seq<Event>, seen: Sightings, tag: Tag) {
    && (tag in seen ==> exists k: nat :: PendingAt(events, tag, k) && events[k].at == seen[tag].at)
    && (forall k: nat :: PendingAt(events, tag, k) ==> tag in seen && seen[tag].at <= events[k].at)
  }

  lemma {:induction false} PendingGrows(events: seq<Event>, e: Event, tag: Tag, k: nat)
    ensures PendingAt(events + [e], tag, k) <==>
      if k == |events| then Observes(e, tag) else PendingAt(events, tag, k) && !Clears(e, tag)
  {
    var all := events + [e];
    assert forall j :: 0 <= j < |events| ==> all[j] == events[j];
    assert all[|events|] == e;
  }

  /** What one event does to the entry of one tag. */
  lemma ApplyAt(seen: Sightings, e: Event, tag: Tag)
    ensures tag in Apply(seen, e) <==> !Clears(e, tag) && (tag in seen || Observes(e, tag))
    ensures tag in Apply(seen, e) ==> Apply(seen, e)[tag] == if tag in seen then seen[tag] else Sighting(e.at, e.source)
  {
  }

  lemma {:induction false} StepAgrees(events: seq<Event>, e: Event, seen: Sightings, tag: Tag)
    requires TimesForward(events + [e]) && Agrees(events, seen, tag)
    ensures Agrees(events + [e], Apply(seen, e), tag)
  {
    hide Apply, PendingAt, Clears, Observes;
    var all := events + [e];
    assert forall j :: 0 <= j < |events| ==> all[j] == events[j];
    assert all[|events|] == e;
    ApplyAt(seen, e, tag);
    var after := Apply(seen, e);
    if tag in after {
      if tag in seen {
        var k: nat :| PendingAt(events, tag, k) && events[k].at == seen[tag].at;
        PendingGrows(events, e, tag, k);
        assert PendingAt(all, tag, k) && all[k].at == after[tag].at;
      } else {
        PendingGrows(events, e, tag, |events|);
        assert PendingAt(all, tag, |events|) && all[|events|].at == after[tag].at;
      }
    }
    forall k: nat | PendingAt(all, tag, k) ensures tag in after && after[tag].at <= all[k].at {
      PendingGrows(events, e, tag, k);
      if k == |events| {
        NotBoth(e, tag);
        if tag in seen {
          var first: nat :| PendingAt(events, tag, first) && events[first].at == seen[tag].at;
          assert all[first].at <= all[k].at;
        }
      }
    }
  }

  lemma NotBoth(e: Event, tag: Tag)
    ensures !(Observes(e, tag) && Clears(e, tag))
  {
  }

  lemma {:induction false} TrackerAgrees(events: seq<Event>, tag: Tag)
    requires TimesForward(events)
    ensures Agrees(events, RunTracker(events), tag)
  {
    if events != [] {
      var before := events[..|events| - 1];
      assert events == before + [events[|events| - 1]];
      TrackerAgrees(before, tag);
      StepAgrees(before, events[|events| - 1], RunTracker(before), tag);
    }
  }

  /**
   After every history at non-decreasing times, an observation is returned exactly when its source
   has no debounce, or some observation of its tag since the tag's last clear is at least the
   debounce old. Other tags and the payloads play no part.
   */
  lemma {:induction false} ObserveIsExact(events: seq<Event>, s: Source, now: int)
    requires TimesForward(events) && forall i :: 0 <= i < |events| ==> events[i].at <= now
    ensures Observed(RunTracker(events), s, now) ==
      if Debounce(s) == 0 || exists k: nat :: PendingAt(events, TagOf(s), k) && now - events[k].at >= Debounce(s)
      then Some(s) else None
  {
    TrackerAgrees(events, TagOf(s));
  }

  /** The events that concern a tag. */
  function Concerning(events: seq<Event>, tag: Tag): seq<Event> {
    if events == [] then []
    else
      var e := events[|events| - 1];
      Concerning(events[..|events| - 1], tag) + if Observes(e, tag) || Clears(e, tag) then [e] else []
  }

  predicate SameAt(a: Sightings, b: Sightings, tag: Tag) {
    (tag in a <==> tag in b) && (tag in a ==> a[tag] == b[tag])
  }

  /** Leaving out everything about other tags changes nothing for this one. */
  lemma {:induction false} OtherTagsPlayNoPart(events: seq<Event>, tag: Tag)
    ensures SameAt(RunTracker(events), RunTracker(Concerning(events, tag)), tag)
  {
    if events != [] {
      var before, e := events[..|events| - 1], events[|events| - 1];
      OtherTagsPlayNoPart(before, tag);
      var own := Concerning(before, tag);
      ApplyAt(RunTracker(before), e, tag);
      ApplyAt(RunTracker(own), e, tag);
      assert own + [] == own;
      assert (own + [e])[..|own|] == own;
    }
  }

  lemma SameEntrySameAnswer(a: Sightings, b: Sightings, s: Source, now: int)
    requires SameAt(a, b, TagOf(s))
    ensures Observed(a, s, now) == Observed(b, s, now)
  {
  }

  lemma {:induction false} SameFromThere(a: seq<Event>, b: seq<Event>, more: seq<Event>, tag: Tag)
    requires SameAt(RunTracker(a), RunTracker(b), tag)
    ensures SameAt(RunTracker(a + more), RunTracker(b + more), tag)
  {
    hide Apply;
    if more == [] {
      assert a + more == a && b + more == b;
    } else {
      var n := |more| - 1;
      SameFromThere(a, b, more[..n], tag);
      assert (a + more)[..|a| + n] == a + more[..n] && (b + more)[..|b| + n] == b + more[..n];
      ApplyAt(RunTracker(a + more[..n]), more[n], tag);
      ApplyAt(RunTracker(b + more[..n]), more[n], tag);
    }
  }

  /**
   Clearing a tag starts its debounce afresh for good: whatever happens afterwards, the tag's sources
   are answered as if nothing had happened before the clear, and the sources of a tag that was not
   cleared as if the clear had not happened.
   */
  lemma {:induction false} ClearRestarts(events: seq<Event>, clear: Event, more: seq<Event>, s: Source, now: int)
    requires !clear.Observe?
    ensures Observed(RunTracker(events + [clear] + more), s, now) ==
      Observed(RunTracker(if Clears(clear, TagOf(s)) then more else events + more), s, now)
  {
    hide Apply, Observed;
    var none: seq<Event> := [];
    assert (events + [clear])[..|events|] == events && none + more == more;
    ApplyAt(RunTracker(events), clear, TagOf(s));
    if Clears(clear, TagOf(s)) {
      SameFromThere(events + [clear], none, more, TagOf(s));
      SameEntrySameAnswer(RunTracker(events + [clear] + more), RunTracker(more), s, now);
    } else {
      SameFromThere(events + [clear], events, more, TagOf(s));
      SameEntrySameAnswer(RunTracker(events + [clear] + more), RunTracker(events + more), s, now);
    }
  }
}
