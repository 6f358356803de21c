/**
 Segment-scoped aggregation of lane durability into one contiguous record
 watermark.

 `Tracker` is the value of the locked state and the functions on it say what
 each call does. The run lemmas state what the tracker promises over every
 sequence of calls.
 */
module CommitTracking {
  import opened Wrappers
  import opened Transport
  import opened Quorum

  datatype LaneCommit = LaneCommit(durable: int, representedEnd: int, finished: bool, error: Option<TransportError>)

  datatype CommitFailure = Poisoned | Fenced(cause: TransportError) | Failed(cause: TransportError)

  datatype Tracker = Tracker(
    quorum: nat,
    boundaries: seq<int>,
    admitted: nat,
    committed: nat,
    committedBytes: int,
    failure: Option<CommitFailure>,
    lanes: seq<LaneCommit>)
  {
    predicate Wellformed() {
      1 <= quorum <= |lanes|
    }
  }

  function Durables(lanes: seq<LaneCommit>): (r: seq<int>)
    ensures |r| == |lanes|
    ensures forall i :: 0 <= i < |r| ==> r[i] == lanes[i].durable
  {
    seq(|lanes|, i requires 0 <= i < |lanes| => lanes[i].durable)
  }

  function FreshLane(): LaneCommit {
    LaneCommit(0, 0, true, None)
  }

  function NewTracker(lanes: nat, quorum: nat): Tracker {
    Tracker(quorum, [], 0, 0, 0, None, seq(lanes, _ => FreshLane()))
  }

  // ------------------------------------------------------------ recomputing

  /** A lane that holds the boundary, or is alive and was handed it. */
  predicate CanHold(lane: LaneCommit, boundary: int) {
    lane.durable >= boundary || (!lane.finished && lane.representedEnd >= boundary)
  }

  function CountPossible(lanes: seq<LaneCommit>, boundary: int): (c: nat)
    ensures c <= |lanes|
  {
    if lanes == [] then 0
    else CountPossible(lanes[..|lanes| - 1], boundary) + (if CanHold(lanes[|lanes| - 1], boundary) then 1 else 0)
  }

  /** Lanes that hold the boundary, or are alive and were handed it. */
  function Possible(lanes: seq<LaneCommit>, boundary: int): set<nat> {
    set i: nat | i < |lanes| &&
      (lanes[i].durable >= boundary || (!lanes[i].finished && lanes[i].representedEnd >= boundary))
  }

  lemma {:induction false} CountIsPossible(lanes: seq<LaneCommit>, boundary: int)
    ensures CountPossible(lanes, boundary) == |Possible(lanes, boundary)|
  {
    if lanes == [] {
      assert Possible(lanes, boundary) == {};
    } else {
      var n := |lanes| - 1;
      CountIsPossible(lanes[..n], boundary);
      assert Possible(lanes, boundary) ==
             Possible(lanes[..n], boundary) + (if CanHold(lanes[n], boundary) then {n} else {});
    }
  }

  /** Keep the error of the lower zone. */
  function PreferLowerZone(current: Option<TransportError>, candidate: TransportError): Option<TransportError> {
    if current.None? || candidate.zone < current.value.zone then Some(candidate) else current
  }

  /** Lowest-zone fencing error and lowest-zone terminal error of the represented lanes. */
  function ScanErrors(lanes: seq<LaneCommit>, boundary: int): (Option<TransportError>, Option<TransportError>) {
    if lanes == [] then (None, None)
    else
      var (fenced, terminal) := ScanErrors(lanes[..|lanes| - 1], boundary);
      var lane := lanes[|lanes| - 1];
      if lane.representedEnd < boundary || lane.error.None? then (fenced, terminal)
      else if lane.error.value.code.FencesWriter() then (PreferLowerZone(fenced, lane.error.value), terminal)
      else if !lane.error.value.code.Transient() then (fenced, PreferLowerZone(terminal, lane.error.value))
      else (fenced, terminal)
  }

  function SelectFailure(lanes: seq<LaneCommit>, boundary: int): CommitFailure {
    var (fenced, terminal) := ScanErrors(lanes, boundary);
    match (fenced, terminal)
    case (Some(e), _) => Fenced(e)
    case (None, Some(e)) => Failed(e)
    case (None, None) => Poisoned
  }

  /** How many leading boundaries are at or below the watermark. */
  function LeadingCovered(boundaries: seq<int>, watermark: int): (n: nat)
    ensures n <= |boundaries|
    ensures forall i :: 0 <= i < n ==> boundaries[i] <= watermark
    ensures n < |boundaries| ==> boundaries[n] > watermark
  {
    if boundaries == [] || boundaries[0] > watermark then 0
    else 1 + LeadingCovered(boundaries[1..], watermark)
  }

  function Recompute(t: Tracker): (r: Tracker)
    requires t.Wellformed()
    ensures r.Wellformed() && r.lanes == t.lanes && r.quorum == t.quorum && r.admitted == t.admitted
  {
    if t.failure.Some? then t
    else
      var n := LeadingCovered(t.boundaries, QuorumWatermark(Durables(t.lanes), t.quorum));
      var left := t.boundaries[n..];
      var bytes := if n == 0 then t.committedBytes else t.boundaries[n - 1];
      var failure := if left != [] && CountPossible(t.lanes, left[0]) < t.quorum
                     then Some(SelectFailure(t.lanes, left[0])) else None;
      t.(boundaries := left, committed := t.committed + n, committedBytes := bytes, failure := failure)
  }

  // ------------------------------------------------------------------ calls

  function Activate(t: Tracker, zone: nat, durable: int): Tracker
    requires zone < |t.lanes|
  {
    var lane := t.lanes[zone];
    t.(lanes := t.lanes[zone := lane.(durable := if durable > 0 then durable else 0, finished := false)])
  }

  function Max(a: int, b: int): int { if a < b then b else a }

  function Represent(lanes: seq<LaneCommit>, zones: seq<nat>, end: int): (r: seq<LaneCommit>)
    requires forall i :: 0 <= i < |zones| ==> zones[i] < |lanes|
    ensures |r| == |lanes|
    ensures forall i :: 0 <= i < |lanes| ==>
              r[i] == (if i in zones then lanes[i].(representedEnd := Max(lanes[i].representedEnd, end)) else lanes[i])
  {
    seq(|lanes|, i requires 0 <= i < |lanes| =>
      if i in zones then lanes[i].(representedEnd := Max(lanes[i].representedEnd, end)) else lanes[i])
  }

  function AdmitWindow(t: Tracker, boundaries: seq<int>, zones: seq<nat>): (r: Tracker)
    requires t.Wellformed() && boundaries != []
    requires forall i :: 0 <= i < |zones| ==> zones[i] < |t.lanes|
    ensures r.Wellformed()
  {
    var end := boundaries[|boundaries| - 1];
    Recompute(t.(admitted := t.admitted + |boundaries|,
                 boundaries := t.boundaries + boundaries,
                 lanes := Represent(t.lanes, zones, end)))
  }

  function PublishDurable(t: Tracker, zone: nat, durable: int): (r: Tracker)
    requires t.Wellformed() && zone < |t.lanes|
    ensures r.Wellformed()
  {
    if durable <= t.lanes[zone].durable then t
    else Recompute(t.(lanes := t.lanes[zone := t.lanes[zone].(durable := durable)]))
  }

  function FinishLane(t: Tracker, zone: nat, error: Option<TransportError>): (r: Tracker)
    requires t.Wellformed() && zone < |t.lanes|
    ensures r.Wellformed()
  {
    var lane := t.lanes[zone];
    var done := lane.(finished := true, error := if error.Some? then error else lane.error);
    var next := t.(lanes := t.lanes[zone := done]);
    if error.Some? && error.value.code.FencesWriter() then
      if next.failure.None? then next.(failure := Some(Fenced(error.value))) else next
    else Recompute(next)
  }

  function Poison(t: Tracker): Tracker {
    if t.failure.None? then t.(failure := Some(Poisoned)) else t
  }

  // ------------------------------------------------------------------- runs

  datatype Event =
    | Activated(zone: nat, durable: int)
    | Admitted(boundaries: seq<int>, zones: seq<nat>)
    | Published(zone: nat, durable: int)
    | Finished(zone: nat, error: Option<TransportError>)
    | PoisonedAll

  /** Every boundary is the end offset of one more non-empty frame. */
  predicate Increasing(s: seq<int>) {
    && (forall i :: 0 <= i < |s| ==> s[i] > 0)
    && (forall i, j :: 0 <= i < j < |s| ==> s[i] < s[j])
  }

  predicate InRange(lanes: nat, e: Event) {
    match e
    case Activated(zone, _) => zone < lanes
    case Admitted(boundaries, zones) => boundaries != [] && forall i :: 0 <= i < |zones| ==> zones[i] < lanes
    case Published(zone, _) => zone < lanes
    case Finished(zone, _) => zone < lanes
    case PoisonedAll => true
  }

  /**
   What `Writer` guarantees of its calls: zones exist, windows are non-empty and
   extend the stream, and lanes are activated only while it is still empty.
   */
  predicate Legal(lanes: nat, stream: seq<int>, e: Event) {
    && InRange(lanes, e)
    && (e.Activated? ==> stream == [])
    && (e.Admitted? ==> Increasing(stream + e.boundaries))
  }

  function Apply(t: Tracker, e: Event): (r: Tracker)
    requires t.Wellformed() && InRange(|t.lanes|, e)
    ensures r.Wellformed() && |r.lanes| == |t.lanes| && r.quorum == t.quorum
  {
    match e
    case Activated(zone, durable) => Activate(t, zone, durable)
    case Admitted(boundaries, zones) => AdmitWindow(t, boundaries, zones)
    case Published(zone, durable) => PublishDurable(t, zone, durable)
    case Finished(zone, error) => FinishLane(t, zone, error)
    case PoisonedAll => Poison(t)
  }

  /** Every boundary admitted by `events`, in order. */
  function StreamOf(events: seq<Event>): seq<int> {
    if events == [] then []
    else
      var last := events[|events| - 1];
      StreamOf(events[..|events| - 1]) + (if last.Admitted? then last.boundaries else [])
  }

  predicate LegalRun(lanes: nat, events: seq<Event>)
    decreases |events|
  {
    events == [] ||
    (LegalRun(lanes, events[..|events| - 1]) && Legal(lanes, StreamOf(events[..|events| - 1]), events[|events| - 1]))
  }

  function Run(n: nat, quorum: nat, events: seq<Event>): (t: Tracker)
    requires 1 <= quorum <= n && LegalRun(n, events)
    ensures t.Wellformed() && |t.lanes| == n && t.quorum == quorum
    decreases |events|
  {
    if events == [] then NewTracker(n, quorum)
    else
      var before := events[..|events| - 1];
      Apply(Run(n, quorum, before), events[|events| - 1])
  }

  // -------------------------------------------------------------- invariant

  /** Boundary `b` is durable on a quorum of lanes. */
  predicate Covered(t: Tracker, b: int) {
    |Holders(Durables(t.lanes), b)| >= t.quorum
  }

  /** The tracker's own state against the whole admitted stream. */
  ghost predicate Inv(t: Tracker, stream: seq<int>) {
    && t.Wellformed()
    && Increasing(stream)
    && t.admitted == |stream|
    && t.committed <= |stream|
    && t.boundaries == stream[t.committed..]
    && t.committedBytes == (if t.committed == 0 then 0 else stream[t.committed - 1])
    && (forall j :: 0 <= j < t.committed ==> Covered(t, stream[j]))
    && (t.failure.None? ==> forall j :: t.committed <= j < |stream| ==> !Covered(t, stream[j]))
    && (t.failure.None? && t.committed < |stream| ==> CountPossible(t.lanes, stream[t.committed]) >= t.quorum)
  }

  lemma CoveredMonotone(t: Tracker, u: Tracker, b: int)
    requires t.quorum == u.quorum && |t.lanes| == |u.lanes|
    requires forall i :: 0 <= i < |t.lanes| ==> t.lanes[i].durable <= u.lanes[i].durable
    requires Covered(t, b)
    ensures Covered(u, b)
  {
    CountGeMonotone(Durables(t.lanes), Durables(u.lanes), b);
    CountGeIsHolders(Durables(t.lanes), b);
    CountGeIsHolders(Durables(u.lanes), b);
  }

  /** What `Recompute` needs: the committed part is covered and nothing else is assumed. */
  ghost predicate PreRecompute(t: Tracker, stream: seq<int>) {
    && t.Wellformed()
    && Increasing(stream)
    && t.admitted == |stream|
    && t.committed <= |stream|
    && t.boundaries == stream[t.committed..]
    && t.committedBytes == (if t.committed == 0 then 0 else stream[t.committed - 1])
    && (forall j :: 0 <= j < t.committed ==> Covered(t, stream[j]))
  }

  lemma RecomputeInv(t: Tracker, stream: seq<int>)
    requires PreRecompute(t, stream)
    ensures Inv(Recompute(t), stream)
  {
    if t.failure.None? {
      var r := Recompute(t);
      forall j | 0 <= j < |stream|
        ensures j < r.committed ==> Covered(r, stream[j])
        ensures j >= r.committed ==> !Covered(r, stream[j])
      {
        RecomputeCovers(t, stream, j);
      }
      RecomputeQueue(t, stream);
    }
  }

  /** Recomputation commits exactly the boundaries a quorum covers. */
  lemma RecomputeCovers(t: Tracker, stream: seq<int>, j: nat)
    requires PreRecompute(t, stream) && t.failure.None? && j < |stream|
    ensures j < Recompute(t).committed <==> Covered(Recompute(t), stream[j])
  {
    hide Covered, QuorumWatermark, CountPossible, SelectFailure;
    var n := LeadingCovered(t.boundaries, QuorumWatermark(Durables(t.lanes), t.quorum));
    var r := Recompute(t);
    CoveredByWatermark(t, r, stream[j]);
    if j >= t.committed {
      assert t.boundaries[j - t.committed] == stream[j];
      if j >= r.committed {
        assert t.boundaries[n] == stream[r.committed] <= stream[j];
      }
    }
  }

  /** The queue keeps the rest of the stream, in order. */
  lemma RecomputeQueue(t: Tracker, stream: seq<int>)
    requires PreRecompute(t, stream) && t.failure.None?
    ensures var r := Recompute(t);
            && r.committed <= |stream| && r.boundaries == stream[r.committed..]
            && r.committedBytes == (if r.committed == 0 then 0 else stream[r.committed - 1])
            && (r.failure.None? && r.committed < |stream| ==> CountPossible(r.lanes, stream[r.committed]) >= r.quorum)
  {
    hide Covered, QuorumWatermark, CountPossible, SelectFailure;
    var n := LeadingCovered(t.boundaries, QuorumWatermark(Durables(t.lanes), t.quorum));
    if n > 0 {
      assert t.boundaries[n - 1] == stream[t.committed + n - 1];
    }
  }

  lemma CoveredByWatermark(t: Tracker, r: Tracker, b: int)
    requires t.Wellformed() && r.lanes == t.lanes && r.quorum == t.quorum
    ensures Covered(t, b) <==> Covered(r, b)
    ensures Covered(r, b) <==> b <= QuorumWatermark(Durables(t.lanes), t.quorum)
  {
    WatermarkIsQuorumHeld(Durables(t.lanes), t.quorum, b);
  }

  /** `stream[j]` is the oldest boundary without a durable quorum. */
  predicate OldestUncovered(lanes: seq<LaneCommit>, quorum: nat, stream: seq<int>, j: nat) {
    && j < |stream| && |Holders(Durables(lanes), stream[j])| < quorum
    && forall i :: 0 <= i < j ==> |Holders(Durables(lanes), stream[i])| >= quorum
  }

  /** The oldest uncovered boundary is out of reach: fewer than a quorum of lanes holds it or can still get it. */
  ghost predicate Stuck(lanes: seq<LaneCommit>, quorum: nat, stream: seq<int>) {
    exists j: nat :: OldestUncovered(lanes, quorum, stream, j) && |Possible(lanes, stream[j])| < quorum
  }

  /** The failure is what the lanes that were handed the oldest uncovered boundary ended with. */
  ghost predicate FailsWith(lanes: seq<LaneCommit>, quorum: nat, stream: seq<int>, failure: CommitFailure) {
    exists j: nat :: OldestUncovered(lanes, quorum, stream, j) && Blames(lanes, stream[j], failure)
  }

  /** Recomputing fails the tracker exactly when the oldest uncovered boundary is out of reach. */
  lemma RecomputeFails(t: Tracker, stream: seq<int>)
    requires PreRecompute(t, stream) && t.failure.None?
    ensures Recompute(t).failure.Some? <==> Stuck(t.lanes, t.quorum, stream)
    ensures Recompute(t).failure.Some? ==> FailsWith(t.lanes, t.quorum, stream, Recompute(t).failure.value)
  {
    var r := Recompute(t);
    RecomputeInv(t, stream);
    RecomputeQueue(t, stream);
    forall j: nat | j < |stream| ensures j < r.committed <==> |Holders(Durables(t.lanes), stream[j])| >= t.quorum {
      RecomputeCovers(t, stream, j);
    }
    hide Covered, QuorumWatermark, CountPossible, SelectFailure, Possible, Holders;
    if r.committed < |stream| {
      assert OldestUncovered(t.lanes, t.quorum, stream, r.committed);
      assert r.boundaries[0] == stream[r.committed];
      CountIsPossible(t.lanes, stream[r.committed]);
      FailureBlame(t.lanes, stream[r.committed]);
    }
  }

  lemma NotStuck(t: Tracker, stream: seq<int>)
    requires Inv(t, stream) && t.failure.None?
    ensures !Stuck(t.lanes, t.quorum, stream)
  {
    assert forall j: nat :: j < |stream| ==> (j < t.committed <==> Covered(t, stream[j]));
    forall j: nat | OldestUncovered(t.lanes, t.quorum, stream, j) ensures |Possible(t.lanes, stream[j])| >= t.quorum {
      assert j == t.committed;
      CountIsPossible(t.lanes, stream[j]);
    }
  }

  lemma AdmitInv(t: Tracker, stream: seq<int>, window: seq<int>, zones: seq<nat>)
    requires Inv(t, stream) && Legal(|t.lanes|, stream, Admitted(window, zones))
    ensures Inv(AdmitWindow(t, window, zones), stream + window)
  {
    hide Covered, CountPossible, Recompute;
    var next := stream + window;
    var lanes := Represent(t.lanes, zones, window[|window| - 1]);
    assert forall i :: 0 <= i < |lanes| ==> t.lanes[i].durable == lanes[i].durable;
    var mid := t.(admitted := t.admitted + |window|, boundaries := t.boundaries + window, lanes := lanes);
    hide Represent;
    assert next[t.committed..] == stream[t.committed..] + window;
    forall j | 0 <= j < t.committed ensures Covered(mid, next[j]) {
      assert next[j] == stream[j];
      CoveredMonotone(t, mid, stream[j]);
    }
    RecomputeInv(mid, next);
  }

  lemma PublishInv(t: Tracker, stream: seq<int>, zone: nat, durable: int)
    requires Inv(t, stream) && zone < |t.lanes|
    ensures Inv(PublishDurable(t, zone, durable), stream)
  {
    if durable > t.lanes[zone].durable {
      var mid := t.(lanes := t.lanes[zone := t.lanes[zone].(durable := durable)]);
      forall j | 0 <= j < t.committed ensures Covered(mid, stream[j]) {
        CoveredMonotone(t, mid, stream[j]);
      }
      RecomputeInv(mid, stream);
    }
  }

  lemma FinishInv(t: Tracker, stream: seq<int>, zone: nat, error: Option<TransportError>)
    requires Inv(t, stream) && zone < |t.lanes|
    ensures Inv(FinishLane(t, zone, error), stream)
  {
    var lane := t.lanes[zone];
    var done := lane.(finished := true, error := if error.Some? then error else lane.error);
    var mid := t.(lanes := t.lanes[zone := done]);
    assert Durables(mid.lanes) == Durables(t.lanes);
    if !(error.Some? && error.value.code.FencesWriter()) {
      assert PreRecompute(mid, stream);
      RecomputeInv(mid, stream);
    }
  }

  lemma ActivateInv(t: Tracker, stream: seq<int>, zone: nat, durable: int)
    requires Inv(t, stream) && stream == [] && zone < |t.lanes|
    ensures Inv(Activate(t, zone, durable), stream)
  {
  }

  lemma PoisonInv(t: Tracker, stream: seq<int>)
    requires Inv(t, stream)
    ensures Inv(Poison(t), stream)
  {
  }

  lemma ApplyInv(t: Tracker, stream: seq<int>, e: Event)
    requires Inv(t, stream) && Legal(|t.lanes|, stream, e)
    ensures Inv(Apply(t, e), stream + (if e.Admitted? then e.boundaries else []))
  {
    assert stream + [] == stream;
    hide Inv, Activate, AdmitWindow, PublishDurable, FinishLane, Poison;
    match e
    case Activated(zone, durable) => ActivateInv(t, stream, zone, durable);
    case Admitted(boundaries, zones) => AdmitInv(t, stream, boundaries, zones);
    case Published(zone, durable) => PublishInv(t, stream, zone, durable);
    case Finished(zone, error) => FinishInv(t, stream, zone, error);
    case PoisonedAll => PoisonInv(t, stream);
  }

  // ------------------------------------------------------------ main results

  /** The invariant holds after every legal sequence of calls. */
  lemma {:induction false} RunInv(n: nat, quorum: nat, events: seq<Event>)
    requires 1 <= quorum <= n && LegalRun(n, events)
    ensures Inv(Run(n, quorum, events), StreamOf(events))
    decreases |events|
  {
    if events != [] {
      var before := events[..|events| - 1];
      RunInv(n, quorum, before);
      ApplyInv(Run(n, quorum, before), StreamOf(before), events[|events| - 1]);
    }
  }

  /** How many admitted boundaries are durable on a quorum of lanes. */
  ghost function CoveredCount(t: Tracker, stream: seq<int>): nat {
    |set j: nat | j < |stream| && Covered(t, stream[j])|
  }

  /**
   The watermark refines its specification: until a failure, `committed` is the
   number of admitted boundaries held by at least a quorum of lanes, and
   always `committed + unresolved == admitted`.
   */
  lemma CommittedIsCoveredCount(n: nat, quorum: nat, events: seq<Event>)
    requires 1 <= quorum <= n && LegalRun(n, events)
    ensures var t := Run(n, quorum, events);
            && t.committed + |t.boundaries| == t.admitted == |StreamOf(events)|
            && t.committed <= CoveredCount(t, StreamOf(events))
            && (t.failure.None? ==> t.committed == CoveredCount(t, StreamOf(events)))
  {
    RunInv(n, quorum, events);
    var t, stream := Run(n, quorum, events), StreamOf(events);
    var prefix := Indices(t.committed);
    var covered := set j: nat | j < |stream| && Covered(t, stream[j]);
    IndicesSize(t.committed);
    assert prefix <= covered;
    SubsetSize(prefix, covered);
    if t.failure.None? {
      assert prefix == covered;
    }
  }

  /**
   Order of calls does not matter: two failure-free runs that admitted the same
   stream and left the lanes equally durable report the same watermark.
   */
  lemma OrderIndependence(n: nat, quorum: nat, left: seq<Event>, right: seq<Event>)
    requires 1 <= quorum <= n && LegalRun(n, left) && LegalRun(n, right)
    requires StreamOf(left) == StreamOf(right)
    requires Durables(Run(n, quorum, left).lanes) == Durables(Run(n, quorum, right).lanes)
    requires Run(n, quorum, left).failure.None? && Run(n, quorum, right).failure.None?
    ensures Run(n, quorum, left).committed == Run(n, quorum, right).committed
    ensures Run(n, quorum, left).boundaries == Run(n, quorum, right).boundaries
  {
    RunInv(n, quorum, left);
    RunInv(n, quorum, right);
    CommittedIsCoveredCount(n, quorum, left);
    CommittedIsCoveredCount(n, quorum, right);
    var stream := StreamOf(left);
    var l, r := Run(n, quorum, left), Run(n, quorum, right);
    assert (set j: nat | j < |stream| && Covered(l, stream[j])) == (set j: nat | j < |stream| && Covered(r, stream[j]));
  }

  lemma ApplyFrozen(t: Tracker, stream: seq<int>, e: Event)
    requires t.Wellformed() && Legal(|t.lanes|, stream, e)
    ensures t.failure.Some? ==> Apply(t, e).failure == t.failure && Apply(t, e).committed == t.committed
    ensures t.committed <= Apply(t, e).committed
  {
  }

  lemma StreamConcatRun(n: nat, events: seq<Event>, more: seq<Event>)
    requires LegalRun(n, events + more)
    ensures LegalRun(n, events)
    ensures StreamOf(events) <= StreamOf(events + more)
    decreases |more|
  {
    if more == [] {
      assert events + more == events;
    } else {
      var all := events + more;
      assert all[..|all| - 1] == events + more[..|more| - 1];
      StreamConcatRun(n, events, more[..|more| - 1]);
    }
  }

  /**
   Whatever follows, the watermark never goes back; after the first failure both
   the watermark and the failure are frozen.
   */
  lemma {:induction false} WatermarkIsStable(n: nat, quorum: nat, events: seq<Event>, more: seq<Event>)
    requires 1 <= quorum <= n && LegalRun(n, events + more)
    ensures LegalRun(n, events)
    ensures var t, u := Run(n, quorum, events), Run(n, quorum, events + more);
            && t.committed <= u.committed
            && (t.failure.Some? ==> u.failure == t.failure && u.committed == t.committed)
    decreases |more|
  {
    StreamConcatRun(n, events, more);
    if more == [] {
      assert events + more == events;
    } else {
      var all := events + more;
      assert all[..|all| - 1] == events + more[..|more| - 1];
      WatermarkIsStable(n, quorum, events, more[..|more| - 1]);
      ApplyFrozen(Run(n, quorum, all[..|all| - 1]), StreamOf(all[..|all| - 1]), all[|all| - 1]);
    }
  }

  /**
   While it has not failed, the oldest unresolved boundary can still commit:
   a quorum of lanes holds it or is alive and was handed it.
   */
  lemma OldestCanStillCommit(n: nat, quorum: nat, events: seq<Event>)
    requires 1 <= quorum <= n && LegalRun(n, events)
    requires var t := Run(n, quorum, events); t.failure.None? && t.boundaries != []
    ensures var t := Run(n, quorum, events);
            |Possible(t.lanes, t.boundaries[0])| >= quorum && !Covered(t, t.boundaries[0])
  {
    RunInv(n, quorum, events);
    var t := Run(n, quorum, events);
    CountIsPossible(t.lanes, t.boundaries[0]);
  }

  /** The lane was handed the boundary and ended with a fence, or with another error that is not transient. */
  predicate Blamable(lane: LaneCommit, boundary: int, fence: bool) {
    && lane.representedEnd >= boundary && lane.error.Some?
    && lane.error.value.code.FencesWriter() == fence
    && (fence || !lane.error.value.code.Transient())
  }

  predicate SomeBlamable(lanes: seq<LaneCommit>, boundary: int, fence: bool) {
    exists i :: 0 <= i < |lanes| && Blamable(lanes[i], boundary, fence)
  }

  /** The error of a blamable lane, of the lowest zone. */
  predicate LowestBlamed(lanes: seq<LaneCommit>, boundary: int, fence: bool, e: TransportError) {
    && (exists i :: 0 <= i < |lanes| && Blamable(lanes[i], boundary, fence) && lanes[i].error.value == e)
    && forall i :: 0 <= i < |lanes| && Blamable(lanes[i], boundary, fence) ==> e.zone <= lanes[i].error.value.zone
  }

  lemma {:induction false} ScanFinds(lanes: seq<LaneCommit>, boundary: int)
    ensures var (fenced, terminal) := ScanErrors(lanes, boundary);
            && (fenced.Some? <==> SomeBlamable(lanes, boundary, true))
            && (terminal.Some? <==> SomeBlamable(lanes, boundary, false))
            && (fenced.Some? ==> LowestBlamed(lanes, boundary, true, fenced.value))
            && (terminal.Some? ==> LowestBlamed(lanes, boundary, false, terminal.value))
  {
    if lanes != [] {
      var n := |lanes| - 1;
      ScanFinds(lanes[..n], boundary);
      var (fenced, terminal) := ScanErrors(lanes[..n], boundary);
      BlameStep(lanes, boundary, true, fenced);
      BlameStep(lanes, boundary, false, terminal);
    }
  }

  lemma BlameStep(lanes: seq<LaneCommit>, boundary: int, fence: bool, before: Option<TransportError>)
    requires lanes != [] && (before.Some? <==> SomeBlamable(lanes[..|lanes| - 1], boundary, fence))
    requires before.Some? ==> LowestBlamed(lanes[..|lanes| - 1], boundary, fence, before.value)
    ensures var last := lanes[|lanes| - 1];
            var after := if Blamable(last, boundary, fence) then PreferLowerZone(before, last.error.value) else before;
            && (after.Some? <==> SomeBlamable(lanes, boundary, fence))
            && (after.Some? ==> LowestBlamed(lanes, boundary, fence, after.value))
  {
    var n := |lanes| - 1;
    var front := lanes[..n];
    assert forall i :: 0 <= i < n ==> front[i] == lanes[i];
    if before.Some? {
      var i :| 0 <= i < |front| && Blamable(front[i], boundary, fence) && front[i].error.value == before.value;
      assert Blamable(lanes[i], boundary, fence) && lanes[i].error.value == before.value;
    }
  }

  /**
   What a failure caused by lost lanes blames: the lowest fenced zone if any lane that
   was handed the boundary was fenced, else the lowest one with a lasting error, and
   nothing in particular exactly when all of them ended transiently or without error.
   */
  predicate Blames(lanes: seq<LaneCommit>, boundary: int, failure: CommitFailure) {
    match failure
    case Fenced(e) => LowestBlamed(lanes, boundary, true, e)
    case Failed(e) => !SomeBlamable(lanes, boundary, true) && LowestBlamed(lanes, boundary, false, e)
    case Poisoned => !SomeBlamable(lanes, boundary, true) && !SomeBlamable(lanes, boundary, false)
  }

  lemma FailureBlame(lanes: seq<LaneCommit>, boundary: int)
    ensures Blames(lanes, boundary, SelectFailure(lanes, boundary))
  {
    ScanFinds(lanes, boundary);
  }
}
