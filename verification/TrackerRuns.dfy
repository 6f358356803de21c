/**
 The tracker over whole sequences of calls: what each lane's state says about the
 calls made so far, and exactly which sequences fail.
 */
module TrackerRuns {
  import opened Wrappers
  import opened Transport
  import opened Quorum
  import opened CommitTracking

  // ---------------------------------------------------------- lanes from calls

  predicate Activates(e: Event, zone: nat) { e.Activated? && e.zone == zone }

  predicate Ends(e: Event, zone: nat) { e.Finished? && e.zone == zone }

  /** The call says that the lane has made at least `b` bytes durable. */
  predicate Reports(e: Event, zone: nat, b: int) {
    (e.Activated? || e.Published?) && e.zone == zone && e.durable >= b
  }

  /** Since its last activation, the lane was reported durable up to `b`. */
  predicate Reported(events: seq<Event>, zone: nat, b: int) {
    exists k :: 0 <= k < |events| && Reports(events[k], zone, b)
      && forall l :: k < l < |events| ==> !Activates(events[l], zone)
  }

  predicate Hands(e: Event, zone: nat, b: int) {
    e.Admitted? && zone in e.zones && e.boundaries != [] && e.boundaries[|e.boundaries| - 1] >= b
  }

  /** Some window up to `b` or beyond was handed to the lane. */
  predicate Handed(events: seq<Event>, zone: nat, b: int) {
    exists k :: 0 <= k < |events| && Hands(events[k], zone, b)
  }

  /** The lane was activated and has not ended since. */
  predicate Alive(events: seq<Event>, zone: nat) {
    exists k :: 0 <= k < |events| && Activates(events[k], zone)
      && forall l :: k < l < |events| ==> !Ends(events[l], zone)
  }

  /** The last error the lane ended with. */
  predicate EndedWith(events: seq<Event>, zone: nat, error: TransportError) {
    exists k :: 0 <= k < |events| && Ends(events[k], zone) && events[k].error == Some(error)
      && forall l :: k < l < |events| && Ends(events[l], zone) ==> events[l].error.None?
  }

  lemma ReportedStep(before: seq<Event>, e: Event, zone: nat, b: int)
    ensures Reported(before + [e], zone, b) <==>
            Reports(e, zone, b) || (Reported(before, zone, b) && !Activates(e, zone))
  {
    var all := before + [e];
    if Reports(e, zone, b) {
      assert all[|before|] == e;
    } else if Reported(before, zone, b) && !Activates(e, zone) {
      var k :| 0 <= k < |before| && Reports(before[k], zone, b)
        && forall l :: k < l < |before| ==> !Activates(before[l], zone);
      assert all[k] == before[k];
      assert forall l :: k < l < |all| ==> all[l] == if l < |before| then before[l] else e;
    }
    if Reported(all, zone, b) && !Reports(e, zone, b) {
      var k :| 0 <= k < |all| && Reports(all[k], zone, b) && forall l :: k < l < |all| ==> !Activates(all[l], zone);
      assert all[|before|] == e;
      assert forall l :: 0 <= l < |before| ==> all[l] == before[l];
    }
  }

  lemma HandedStep(before: seq<Event>, e: Event, zone: nat, b: int)
    ensures Handed(before + [e], zone, b) <==> Handed(before, zone, b) || Hands(e, zone, b)
  {
    var all := before + [e];
    if Hands(e, zone, b) { assert all[|before|] == e; }
    if Handed(before, zone, b) {
      var k :| 0 <= k < |before| && Hands(before[k], zone, b);
      assert all[k] == before[k];
    }
  }

  lemma AliveStep(before: seq<Event>, e: Event, zone: nat)
    ensures Alive(before + [e], zone) <==> Activates(e, zone) || (Alive(before, zone) && !Ends(e, zone))
  {
    var all := before + [e];
    if Activates(e, zone) {
      assert all[|before|] == e;
    } else if Alive(before, zone) && !Ends(e, zone) {
      var k :| 0 <= k < |before| && Activates(before[k], zone)
        && forall l :: k < l < |before| ==> !Ends(before[l], zone);
      assert all[k] == before[k];
      assert forall l :: k < l < |all| ==> all[l] == if l < |before| then before[l] else e;
    }
    if Alive(all, zone) && !Activates(e, zone) {
      var k :| 0 <= k < |all| && Activates(all[k], zone) && forall l :: k < l < |all| ==> !Ends(all[l], zone);
      assert all[|before|] == e;
      assert forall l :: 0 <= l < |before| ==> all[l] == before[l];
    }
  }

  lemma EndedStep(before: seq<Event>, e: Event, zone: nat, error: TransportError)
    ensures EndedWith(before + [e], zone, error) <==>
            if Ends(e, zone) && e.error.Some? then e.error.value == error else EndedWith(before, zone, error)
  {
    var all := before + [e];
    if Ends(e, zone) && e.error == Some(error) {
      assert all[|before|] == e;
    } else if EndedWith(before, zone, error) && !(Ends(e, zone) && e.error.Some?) {
      var k :| 0 <= k < |before| && Ends(before[k], zone) && before[k].error == Some(error)
        && forall l :: k < l < |before| && Ends(before[l], zone) ==> before[l].error.None?;
      assert all[k] == before[k];
      assert forall l :: k < l < |all| ==> all[l] == if l < |before| then before[l] else e;
    }
    if EndedWith(all, zone, error) && !(Ends(e, zone) && e.error == Some(error)) {
      var k :| 0 <= k < |all| && Ends(all[k], zone) && all[k].error == Some(error)
        && forall l :: k < l < |all| && Ends(all[l], zone) ==> all[l].error.None?;
      assert all[|before|] == e;
      assert forall l :: 0 <= l < |before| ==> all[l] == before[l];
    }
  }

  /** The lane's recorded state says these things of the calls. */
  ghost predicate LaneSays(lane: LaneCommit, events: seq<Event>, zone: nat, b: int) {
    && (lane.durable >= b <==> Reported(events, zone, b))
    && (lane.representedEnd >= b <==> Handed(events, zone, b))
    && (!lane.finished <==> Alive(events, zone))
    && forall error :: lane.error == Some(error) <==> EndedWith(events, zone, error)
  }

  /** Every positive offset a lane is on record for was reported of it or handed to it, and nothing is forgotten. */
  lemma {:induction false} LaneIsItsCalls(n: nat, quorum: nat, events: seq<Event>, zone: nat, b: int)
    requires 1 <= quorum <= n && LegalRun(n, events) && zone < n && b > 0
    ensures LaneSays(Run(n, quorum, events).lanes[zone], events, zone, b)
    decreases |events|
  {
    if events != [] {
      var before, e := events[..|events| - 1], events[|events| - 1];
      LaneIsItsCalls(n, quorum, before, zone, b);
      assert events == before + [e];
      ReportedStep(before, e, zone, b);
      HandedStep(before, e, zone, b);
      AliveStep(before, e, zone);
      forall error ensures EndedWith(events, zone, error) <==>
          if Ends(e, zone) && e.error.Some? then e.error.value == error else EndedWith(before, zone, error)
      {
        EndedStep(before, e, zone, error);
      }
      hide Reported, Handed, Alive, EndedWith, Recompute;
      LaneStep(Run(n, quorum, before), StreamOf(before), e, zone, b);
    }
  }

  /** What one call does to one lane. */
  lemma LaneStep(t: Tracker, stream: seq<int>, e: Event, zone: nat, b: int)
    requires t.Wellformed() && Legal(|t.lanes|, stream, e) && zone < |t.lanes| && b > 0
    ensures var lane, next := t.lanes[zone], Apply(t, e).lanes[zone];
            && (next.durable >= b <==> Reports(e, zone, b) || (lane.durable >= b && !Activates(e, zone)))
            && (next.representedEnd >= b <==> lane.representedEnd >= b || Hands(e, zone, b))
            && (!next.finished <==> Activates(e, zone) || (!lane.finished && !Ends(e, zone)))
            && next.error == if Ends(e, zone) && e.error.Some? then e.error else lane.error
  {
  }

  // ------------------------------------------------------------ which runs fail

  /** Lanes reported durable up to `b`. */
  function Durable(n: nat, events: seq<Event>, b: int): set<nat> {
    set zone: nat | zone < n && Reported(events, zone, b)
  }

  /** Lanes reported durable up to `b`, or alive and handed it. */
  function InReach(n: nat, events: seq<Event>, b: int): set<nat> {
    set zone: nat | zone < n && (Reported(events, zone, b) || (Alive(events, zone) && Handed(events, zone, b)))
  }

  /** `j` is the oldest admitted record that no quorum was reported to hold. */
  predicate OldestOpen(n: nat, quorum: nat, events: seq<Event>, j: nat) {
    && j < |StreamOf(events)| && |Durable(n, events, StreamOf(events)[j])| < quorum
    && forall i :: 0 <= i < j ==> |Durable(n, events, StreamOf(events)[i])| >= quorum
  }

  /** The oldest open record is out of reach of a quorum. */
  ghost predicate OutOfReach(n: nat, quorum: nat, events: seq<Event>) {
    exists j: nat :: OldestOpen(n, quorum, events, j) && |InReach(n, events, StreamOf(events)[j])| < quorum
  }

  predicate Fences(e: Event) { e.Finished? && e.error.Some? && e.error.value.code.FencesWriter() }

  /** The call, the last of `events`, gives the tracker a reason to fail. */
  ghost predicate FailsAt(n: nat, quorum: nat, events: seq<Event>) {
    events != [] && (var e := events[|events| - 1]; e.PoisonedAll? || Fences(e) || OutOfReach(n, quorum, events))
  }

  lemma SameSets(n: nat, quorum: nat, events: seq<Event>, b: int)
    requires 1 <= quorum <= n && LegalRun(n, events) && b > 0
    ensures Durable(n, events, b) == Holders(Durables(Run(n, quorum, events).lanes), b)
    ensures InReach(n, events, b) == Possible(Run(n, quorum, events).lanes, b)
  {
    forall zone: nat | zone < n ensures LaneSays(Run(n, quorum, events).lanes[zone], events, zone, b) {
      LaneIsItsCalls(n, quorum, events, zone, b);
    }
    hide Run, Reported, Handed, Alive, EndedWith;
  }

  /**
   Until a failure the watermark is the number of admitted records that a quorum of lanes
   was reported to hold, counted on the calls alone.
   */
  lemma CommittedIsDurableCount(n: nat, quorum: nat, events: seq<Event>)
    requires 1 <= quorum <= n && LegalRun(n, events) && Run(n, quorum, events).failure.None?
    ensures var stream := StreamOf(events);
            Run(n, quorum, events).committed ==
            |set j: nat | j < |stream| && |Durable(n, events, stream[j])| >= quorum|
  {
    var t, stream := Run(n, quorum, events), StreamOf(events);
    RunInv(n, quorum, events);
    CommittedIsCoveredCount(n, quorum, events);
    forall j: nat | j < |stream| ensures Covered(t, stream[j]) <==> |Durable(n, events, stream[j])| >= quorum {
      SameSets(n, quorum, events, stream[j]);
    }
    hide Run, Inv, Durable, Covered;
    assert (set j: nat | j < |stream| && Covered(t, stream[j])) ==
           (set j: nat | j < |stream| && |Durable(n, events, stream[j])| >= quorum);
  }

  lemma StuckIsOutOfReach(n: nat, quorum: nat, events: seq<Event>)
    requires 1 <= quorum <= n && LegalRun(n, events)
    ensures Stuck(Run(n, quorum, events).lanes, quorum, StreamOf(events)) <==> OutOfReach(n, quorum, events)
  {
    RunInv(n, quorum, events);
    var stream := StreamOf(events);
    forall j: nat | j < |stream|
      ensures Durable(n, events, stream[j]) == Holders(Durables(Run(n, quorum, events).lanes), stream[j])
      ensures InReach(n, events, stream[j]) == Possible(Run(n, quorum, events).lanes, stream[j])
    {
      SameSets(n, quorum, events, stream[j]);
    }
    hide Run, Inv, Durable, InReach, Possible, Holders, Durables, StreamOf;
    forall j: nat
      ensures OldestOpen(n, quorum, events, j) <==>
              OldestUncovered(Run(n, quorum, events).lanes, quorum, StreamOf(events), j)
    {
    }
  }

  /** The failure a call leaves: poisoned, the fence itself, or what the lanes lost on the way ended with. */
  ghost predicate FailsAs(e: Event, t: Tracker, stream: seq<int>)
    requires t.failure.Some?
  {
    if e.PoisonedAll? then t.failure.value == Poisoned
    else if Fences(e) then t.failure.value == Fenced(e.error.value)
    else FailsWith(t.lanes, t.quorum, stream, t.failure.value)
  }

  /** A running tracker fails at a call exactly when the call poisons it, fences it or leaves it out of reach. */
  lemma ApplyFails(t: Tracker, stream: seq<int>, e: Event)
    requires Inv(t, stream) && t.failure.None? && Legal(|t.lanes|, stream, e)
    ensures var next := stream + (if e.Admitted? then e.boundaries else []);
            && (Apply(t, e).failure.Some? <==>
                  e.PoisonedAll? || Fences(e) || Stuck(Apply(t, e).lanes, t.quorum, next))
            && (Apply(t, e).failure.Some? ==> FailsAs(e, Apply(t, e), next))
  {
    var next := stream + (if e.Admitted? then e.boundaries else []);
    ApplyInv(t, stream, e);
    if Apply(t, e).failure.None? { NotStuck(Apply(t, e), next); }
    hide Inv, Stuck, FailsWith, AdmitWindow, PublishDurable, Recompute, Increasing;
    match e
    case Activated(zone, durable) =>
      assert Apply(t, e).failure.None?;
    case Admitted(boundaries, zones) => AdmitFails(t, stream, boundaries, zones);
    case Published(zone, durable) =>
      assert next == stream;
      PublishFails(t, stream, zone, durable);
    case Finished(zone, error) =>
      assert next == stream;
      if !Fences(e) { FinishFails(t, stream, zone, error); }
    case PoisonedAll =>
  }

  lemma AdmitFails(t: Tracker, stream: seq<int>, window: seq<int>, zones: seq<nat>)
    requires Inv(t, stream) && t.failure.None? && Legal(|t.lanes|, stream, Admitted(window, zones))
    ensures var r := AdmitWindow(t, window, zones); var next := stream + window;
            r.failure.Some? ==> Stuck(r.lanes, t.quorum, next) && FailsWith(r.lanes, t.quorum, next, r.failure.value)
  {
    hide Covered, CountPossible, Recompute, Stuck, FailsWith, Holders;
    var next := stream + window;
    var lanes := Represent(t.lanes, zones, window[|window| - 1]);
    assert forall i :: 0 <= i < |lanes| ==> t.lanes[i].durable == lanes[i].durable;
    var mid := t.(admitted := t.admitted + |window|, boundaries := t.boundaries + window, lanes := lanes);
    hide Represent;
    assert next[t.committed..] == stream[t.committed..] + window;
    forall j | 0 <= j < t.committed ensures Covered(mid, next[j]) {
      assert next[j] == stream[j];
      CoveredMonotone(t, mid, stream[j]);
    }
    RecomputeFails(mid, next);
  }

  lemma PublishFails(t: Tracker, stream: seq<int>, zone: nat, durable: int)
    requires Inv(t, stream) && t.failure.None? && zone < |t.lanes|
    ensures var r := PublishDurable(t, zone, durable);
            r.failure.Some? ==>
              Stuck(r.lanes, t.quorum, stream) && FailsWith(r.lanes, t.quorum, stream, r.failure.value)
  {
    if durable > t.lanes[zone].durable {
      var mid := t.(lanes := t.lanes[zone := t.lanes[zone].(durable := durable)]);
      forall j | 0 <= j < t.committed ensures Covered(mid, stream[j]) {
        CoveredMonotone(t, mid, stream[j]);
      }
      RecomputeFails(mid, stream);
    }
  }

  lemma FinishFails(t: Tracker, stream: seq<int>, zone: nat, error: Option<TransportError>)
    requires Inv(t, stream) && t.failure.None? && zone < |t.lanes|
    requires !(error.Some? && error.value.code.FencesWriter())
    ensures var r := FinishLane(t, zone, error);
            r.failure.Some? ==>
              Stuck(r.lanes, t.quorum, stream) && FailsWith(r.lanes, t.quorum, stream, r.failure.value)
  {
    var lane := t.lanes[zone];
    var done := lane.(finished := true, error := if error.Some? then error else lane.error);
    var mid := t.(lanes := t.lanes[zone := done]);
    assert Durables(mid.lanes) == Durables(t.lanes);
    RecomputeFails(mid, stream);
  }

  /** A failed tracker stays failed; a running one fails at the next call exactly for one of the three reasons. */
  lemma RunFailsStep(n: nat, quorum: nat, events: seq<Event>)
    requires 1 <= quorum <= n && LegalRun(n, events) && events != []
    ensures Run(n, quorum, events).failure.Some? <==>
            Run(n, quorum, events[..|events| - 1]).failure.Some? || FailsAt(n, quorum, events)
  {
    var before, e := events[..|events| - 1], events[|events| - 1];
    var t := Run(n, quorum, before);
    if t.failure.Some? {
      ApplyFrozen(t, StreamOf(before), e);
    } else {
      RunInv(n, quorum, before);
      StuckIsOutOfReach(n, quorum, events);
      hide OutOfReach, Stuck, Inv, FailsWith, Apply;
      ApplyFails(t, StreamOf(before), e);
      assert Run(n, quorum, events) == Apply(t, e);
    }
  }

  /**
   A run has failed if and only if some call poisoned it, ended a lane with a fence, or
   left the oldest record that no quorum holds out of reach of a quorum. In every other
   run the tracker keeps going.
   */
  lemma {:induction false} RunFailsExactly(n: nat, quorum: nat, events: seq<Event>)
    requires 1 <= quorum <= n && LegalRun(n, events)
    ensures Run(n, quorum, events).failure.Some? <==>
            exists k :: 0 <= k <= |events| && FailsAt(n, quorum, events[..k])
    decreases |events|
  {
    if events == [] {
      assert events[..0] == [];
    } else {
      var before := events[..|events| - 1];
      RunFailsExactly(n, quorum, before);
      RunFailsStep(n, quorum, events);
      hide FailsAt, Run;
      assert events[..|events|] == events;
      forall k | 0 <= k < |events| ensures events[..k] == before[..k] {}
      if k :| 0 <= k <= |before| && FailsAt(n, quorum, before[..k]) { assert FailsAt(n, quorum, events[..k]); }
    }
  }
}
