/**
 The tracker as the writer's lanes share it: one object whose calls loop over the
 boundary queue and the lanes in place, proved to compute the functions of
 `CommitTracking`.
 */
module LockedTracker {
  import opened Wrappers
  import opened Transport
  import opened Quorum
  import opened CommitTracking

  /** Lanes that hold the boundary or can still reach it. */
  method PossibleLanes(lanes: seq<LaneCommit>, boundary: int) returns (possible: nat)
    ensures possible == CountPossible(lanes, boundary)
  {
    possible := 0;
    for i := 0 to |lanes|
      invariant possible == CountPossible(lanes[..i], boundary)
    {
      assert lanes[..i + 1][..i] == lanes[..i];
      if CanHold(lanes[i], boundary) { possible := possible + 1; }
    }
    assert lanes[..|lanes|] == lanes;
  }

  /** The error to report for a boundary that lost its quorum. */
  method SelectCommitFailure(lanes: seq<LaneCommit>, boundary: int) returns (r: CommitFailure)
    ensures r == SelectFailure(lanes, boundary)
  {
    var fenced: Option<TransportError>, terminal: Option<TransportError> := None, None;
    for i := 0 to |lanes|
      invariant (fenced, terminal) == ScanErrors(lanes[..i], boundary)
    {
      assert lanes[..i + 1][..i] == lanes[..i];
      var lane := lanes[i];
      if lane.representedEnd >= boundary && lane.error.Some? {
        if lane.error.value.code.FencesWriter() {
          fenced := PreferLowerZone(fenced, lane.error.value);
        } else if !lane.error.value.code.Transient() {
          terminal := PreferLowerZone(terminal, lane.error.value);
        }
      }
    }
    assert lanes[..|lanes|] == lanes;
    r := if fenced.Some? then Fenced(fenced.value)
         else if terminal.Some? then Failed(terminal.value) else Poisoned;
  }

  class CommitTracker {
    const quorum: nat
    var boundaries: seq<int>
    var admitted: nat
    var committed: nat
    var committedBytes: int
    var failure: Option<CommitFailure>
    var lanes: seq<LaneCommit>
    /** The last published snapshot: `(committed, failure)`. */
    var snapshot: (nat, Option<CommitFailure>)

    ghost function View(): Tracker
      reads this
    {
      Tracker(quorum, boundaries, admitted, committed, committedBytes, failure, lanes)
    }

    /** Waiters always see the current watermark and failure. */
    ghost predicate Valid()
      reads this
    {
      View().Wellformed() && snapshot == (committed, failure)
    }

    constructor (laneCount: nat, q: nat)
      requires 1 <= q <= laneCount
      ensures Valid() && View() == NewTracker(laneCount, q)
    {
      quorum := q;
      boundaries, admitted, committed, committedBytes := [], 0, 0, 0;
      failure := None;
      lanes := seq(laneCount, _ => FreshLane());
      snapshot := (0, None);
    }

    method ActivateLane(zone: nat, durable: int)
      requires Valid() && zone < |lanes|
      modifies this
      ensures Valid() && View() == Activate(old(View()), zone, durable)
    {
      lanes := lanes[zone := lanes[zone].(durable := if durable > 0 then durable else 0, finished := false)];
    }

    method Admit(window: seq<int>, zones: seq<nat>) returns (first: nat, end: nat)
      requires Valid() && window != [] && forall i :: 0 <= i < |zones| ==> zones[i] < |lanes|
      modifies this
      ensures Valid() && View() == AdmitWindow(old(View()), window, zones)
      ensures first == old(admitted) && end == first + |window|
    {
      first := admitted;
      var endOffset := window[|window| - 1];
      admitted := admitted + |window|;
      boundaries := boundaries + window;
      ghost var before := lanes;
      var i := 0;
      while i < |zones|
        invariant 0 <= i <= |zones|
        invariant |lanes| == |before|
        invariant forall k :: 0 <= k < |before| ==>
                    lanes[k] == if k in zones[..i]
                                then before[k].(representedEnd := Max(before[k].representedEnd, endOffset))
                                else before[k]
        modifies this`lanes
      {
        var zone := zones[i];
        lanes := lanes[zone := lanes[zone].(representedEnd := Max(lanes[zone].representedEnd, endOffset))];
        assert zones[..i + 1] == zones[..i] + [zone];
        i := i + 1;
      }
      assert zones[..i] == zones;
      assert lanes == Represent(before, zones, endOffset);
      RecomputeLocked();
      end := admitted;
    }

    method Publish(zone: nat, durable: int)
      requires Valid() && zone < |lanes|
      modifies this
      ensures Valid() && View() == PublishDurable(old(View()), zone, durable)
    {
      if durable <= lanes[zone].durable { return; }
      lanes := lanes[zone := lanes[zone].(durable := durable)];
      RecomputeLocked();
    }

    method Finish(zone: nat, error: Option<TransportError>)
      requires Valid() && zone < |lanes|
      modifies this
      ensures Valid() && View() == FinishLane(old(View()), zone, error)
    {
      var lane := lanes[zone];
      lanes := lanes[zone := lane.(finished := true, error := if error.Some? then error else lane.error)];
      if error.Some? && error.value.code.FencesWriter() {
        if failure.None? {
          failure := Some(Fenced(error.value));
          snapshot := (committed, failure);
        }
        return;
      }
      RecomputeLocked();
    }

    method PoisonWriter()
      requires Valid()
      modifies this
      ensures Valid() && View() == Poison(old(View()))
    {
      if failure.None? {
        failure := Some(Poisoned);
        snapshot := (committed, failure);
      }
    }

    /** Pops every covered boundary, then fails if the oldest left cannot commit. */
    method RecomputeLocked()
      requires Valid()
      modifies this`boundaries, this`committed, this`committedBytes, this`failure, this`snapshot
      ensures Valid() && View() == Recompute(old(View()))
    {
      hide QuorumWatermark, CountPossible, SelectFailure, Durables;
      if failure.Some? { return; }
      var watermark := QuorumWatermark(Durables(lanes), quorum);
      var changed := false;
      ghost var n := LeadingCovered(boundaries, watermark);
      ghost var popped := 0;
      while boundaries != [] && boundaries[0] <= watermark
        invariant 0 <= popped <= n
        invariant boundaries == old(boundaries)[popped..] && committed == old(committed) + popped
        invariant committedBytes == (if popped == 0 then old(committedBytes) else old(boundaries)[popped - 1])
        invariant changed || popped == 0
        invariant failure == None && snapshot == (old(committed), None)
        decreases |boundaries|
      {
        committedBytes := boundaries[0];
        boundaries := boundaries[1..];
        committed := committed + 1;
        changed := true;
        popped := popped + 1;
      }
      assert popped == n;
      if boundaries != [] {
        var possible := PossibleLanes(lanes, boundaries[0]);
        if possible < quorum {
          var blame := SelectCommitFailure(lanes, boundaries[0]);
          failure := Some(blame);
          changed := true;
        }
      }
      if changed { snapshot := (committed, failure); }
    }
  }
}
