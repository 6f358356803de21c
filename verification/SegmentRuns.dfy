/**
 One writer incarnation on one segment, as a state machine over its steps: open
 lanes, admit windows, replicas growing by what their lane sent, durability
 reports, lane deaths, fences. Any interleaving is a run; a crash is the end of
 a run. The results say what any later recovery of that segment returns.
 */
module SegmentRuns {
  import opened Wrappers
  import opened Transport
  import opened Records
  import opened Quorum
  import opened CommitTracking
  import opened Recovery

  datatype Segment = Segment(
    records: seq<Bytes>,       // every admitted record, in order
    disks: seq<Bytes>,         // durable bytes of each replica
    handed: seq<nat>,          // bytes of the stream handed to each lane so far
    attached: seq<bool>,       // the writer still owns a lane on this replica
    fenced: seq<bool>,         // a recovery took this replica over
    tracker: Tracker)

  datatype Step =
    | Open(zone: nat)
    | Admit(window: seq<Bytes>, zones: seq<nat>)
    | Grow(zone: nat, len: nat)
    | Report(zone: nat, durable: nat)
    | LaneEnds(zone: nat, error: Option<TransportError>)
    | GiveUp
    | Fence(zone: nat)

  function Start(n: nat): Segment {
    Segment([], seq(n, _ => []), seq(n, _ => 0), seq(n, _ => false), seq(n, _ => false), NewTracker(n, Majority(n)))
  }

  /** The record boundaries the window adds to the stream. */
  function WindowEnds(records: seq<Bytes>, window: seq<Bytes>): seq<int> {
    Ends(records + window)[|records|..]
  }

  /** One entry per replica, and records that fit their frames. */
  predicate Shaped(s: Segment) {
    && AllFit(s.records)
    && |s.disks| == |s.handed| == |s.attached| == |s.fenced| == |s.tracker.lanes|
    && s.tracker.Wellformed()
  }

  /**
   When a step can happen. A window goes to lanes the writer still owns and drops
   the others; a replica grows only while it is not fenced, and only by bytes its
   lane was handed; a report never claims more than the disk holds.
   */
  predicate Enabled(s: Segment, step: Step) {
    && Shaped(s)
    && match step
    case Open(zone) => zone < |s.disks| && s.records == []
    case Admit(window, zones) =>
      && window != [] && AllFit(window)
      && forall i :: 0 <= i < |zones| ==> zones[i] < |s.attached| && s.attached[zones[i]]
    case Grow(zone, len) => zone < |s.disks| && !s.fenced[zone] && |s.disks[zone]| <= len <= s.handed[zone]
    case Report(zone, durable) => zone < |s.disks| && durable <= |s.disks[zone]|
    case LaneEnds(zone, _) => zone < |s.disks|
    case GiveUp => true
    case Fence(zone) => zone < |s.fenced|
  }

  /** A window is handed to the lanes it goes to; the others are dropped. */
  function Admitting(s: Segment, window: seq<Bytes>, zones: seq<nat>): (r: Segment)
    requires Enabled(s, Admit(window, zones))
  {
    AppendedEnds(s.records, window);
    var records := s.records + window;
    var total := |Stream(records)|;
    s.(records := records,
       handed := seq(|s.handed|, z requires 0 <= z < |s.handed| => if z in zones then total else s.handed[z]),
       attached := seq(|s.attached|, z requires 0 <= z < |s.attached| => s.attached[z] && z in zones),
       tracker := AdmitWindow(s.tracker, WindowEnds(s.records, window), zones))
  }

  function Next(s: Segment, step: Step): (r: Segment)
    requires Enabled(s, step)
  {
    match step
    case Open(zone) =>
      s.(attached := s.attached[zone := true], tracker := Activate(s.tracker, zone, |s.disks[zone]|))
    case Admit(window, zones) => Admitting(s, window, zones)
    case Grow(zone, len) => s.(disks := s.disks[zone := CutTo(Stream(s.records), len)])
    case Report(zone, durable) => s.(tracker := PublishDurable(s.tracker, zone, durable))
    case LaneEnds(zone, error) =>
      s.(attached := s.attached[zone := false], tracker := FinishLane(s.tracker, zone, error))
    case GiveUp => s.(tracker := Poison(s.tracker))
    case Fence(zone) => s.(fenced := s.fenced[zone := true])
  }

  // -------------------------------------------------------------- invariant

  ghost predicate Inv(s: Segment) {
    && Shaped(s)
    && s.tracker.quorum == Majority(|s.disks|)
    && CommitTracking.Inv(s.tracker, Ends(s.records))
    && forall z :: 0 <= z < |s.disks| ==> LaneOk(s, z)
  }

  /** The replica holds a prefix of what its lane was handed, and at least what was reported. */
  predicate LaneOk(s: Segment, z: nat)
    requires z < |s.disks| == |s.handed| == |s.tracker.lanes| && AllFit(s.records)
  {
    && s.disks[z] <= Stream(s.records)
    && |s.disks[z]| <= s.handed[z] <= |Stream(s.records)|
    && s.tracker.lanes[z].durable <= |s.disks[z]|
  }

  lemma AppendedEnds(records: seq<Bytes>, window: seq<Bytes>)
    requires AllFit(records) && AllFit(window)
    ensures AllFit(records + window)
    ensures Ends(records) + WindowEnds(records, window) == Ends(records + window)
    ensures window != [] ==> WindowEnds(records, window) != []
    ensures Stream(records) <= Stream(records + window)
    ensures Increasing(Ends(records + window))
  {
    var all := records + window;
    StreamConcat(records, window);
    EndsOfPrefix(all, |records|);
    assert all[..|records|] == records;
    EndsIncreasing(all);
  }

  lemma EndsIncreasing(records: seq<Bytes>)
    requires AllFit(records)
    ensures Increasing(Ends(records))
  {
    forall j | 0 <= j < |records| ensures Ends(records)[j] == |Stream(records[..j + 1])| > 0 {
      EndsAreStreamLengths(records, j);
      FirstRecordNonEmpty(records, j);
    }
    forall i, j | 0 <= i < j < |records| ensures Ends(records)[i] < Ends(records)[j] {
      StreamPrefixLength(records, i + 1, j + 1);
    }
  }

  lemma StartInv(n: nat)
    requires n >= 1
    ensures Inv(Start(n))
  {
  }

  lemma AdmitKeepsInv(s: Segment, window: seq<Bytes>, zones: seq<nat>)
    requires Inv(s) && Enabled(s, Admit(window, zones))
    ensures Inv(Next(s, Admit(window, zones)))
  {
    AppendedEnds(s.records, window);
    AdmitShaped(s, window, zones);
    hide CommitTracking.Inv, Ends, Stream, AdmitWindow, Increasing, LaneOk, WindowEnds, Shaped, AllFit;
    AdmitInv(s.tracker, Ends(s.records), WindowEnds(s.records, window), zones);
    AdmitDurables(s.tracker, WindowEnds(s.records, window), zones);
    forall z: nat | z < |s.disks| ensures LaneOk(Admitting(s, window, zones), z) {
      assert LaneOk(s, z);
      AdmitLane(s, window, zones, z);
    }
  }

  lemma AdmitShaped(s: Segment, window: seq<Bytes>, zones: seq<nat>)
    requires Enabled(s, Admit(window, zones))
    ensures Shaped(Admitting(s, window, zones))
    ensures InRange(|s.tracker.lanes|, Admitted(WindowEnds(s.records, window), zones))
    ensures WindowEnds(s.records, window) != [] && s.tracker.Wellformed()
  {
    AppendedEnds(s.records, window);
    hide Ends, Stream, WindowEnds, Recompute;
  }

  lemma AdmitDurables(t: Tracker, boundaries: seq<int>, zones: seq<nat>)
    requires t.Wellformed() && boundaries != [] && forall i :: 0 <= i < |zones| ==> zones[i] < |t.lanes|
    ensures var r := AdmitWindow(t, boundaries, zones);
            |r.lanes| == |t.lanes| && r.quorum == t.quorum && forall z :: 0 <= z < |t.lanes| ==>
              r.lanes[z].durable == t.lanes[z].durable
  {
  }

  lemma AdmitLane(s: Segment, window: seq<Bytes>, zones: seq<nat>, z: nat)
    requires Enabled(s, Admit(window, zones)) && z < |s.disks| && LaneOk(s, z)
    requires AllFit(s.records + window) && Stream(s.records) <= Stream(s.records + window)
    requires |Admitting(s, window, zones).tracker.lanes| == |s.tracker.lanes|
    requires Admitting(s, window, zones).tracker.lanes[z].durable == s.tracker.lanes[z].durable
    ensures LaneOk(Admitting(s, window, zones), z)
  {
    hide Stream, AdmitWindow, WindowEnds;
  }

  lemma TrackerStepKeepsInv(s: Segment, step: Step)
    requires Inv(s) && Enabled(s, step) && (step.Open? || step.Report? || step.LaneEnds?)
    ensures Inv(Next(s, step))
  {
    hide CommitTracking.Inv, Ends, Stream, Recompute;
    var r := Next(s, step);
    var event := match step
      case Open(zone) => Activated(zone, |s.disks[zone]|)
      case Report(zone, durable) => Published(zone, durable)
      case LaneEnds(zone, error) => Finished(zone, error);
    ApplyInv(s.tracker, Ends(s.records), event);
    assert Ends(s.records) + [] == Ends(s.records);
    assert r.tracker == Apply(s.tracker, event);
    LanesAfter(s.tracker, event);
    forall z | 0 <= z < |s.disks| ensures LaneOk(r, z) {
      assert LaneOk(s, z);
    }
  }

  /** What a tracker event does to the durable offsets. */
  lemma LanesAfter(t: Tracker, event: Event)
    requires t.Wellformed() && (event.Activated? || event.Published? || event.Finished?) && event.zone < |t.lanes|
    requires event.Finished? || event.durable >= 0
    ensures |Apply(t, event).lanes| == |t.lanes|
    ensures forall z :: 0 <= z < |t.lanes| && !(z == event.zone && !event.Finished?) ==>
              Apply(t, event).lanes[z].durable == t.lanes[z].durable
    ensures !event.Finished? ==>
              Apply(t, event).lanes[event.zone].durable in {t.lanes[event.zone].durable, event.durable}
  {
  }

  lemma NextKeepsInv(s: Segment, step: Step)
    requires Inv(s) && Enabled(s, step)
    ensures Inv(Next(s, step))
  {
    if step.Admit? {
      AdmitKeepsInv(s, step.window, step.zones);
    } else if step.Open? || step.Report? || step.LaneEnds? {
      TrackerStepKeepsInv(s, step);
    } else {
      var r := Next(s, step);
      forall z | 0 <= z < |s.disks| ensures LaneOk(r, z) {
        assert LaneOk(s, z);
      }
    }
  }

  // ------------------------------------------------------------------- runs

  /** `trace` is a run of the segment: it starts fresh and follows `steps`. */
  ghost predicate IsRun(n: nat, steps: seq<Step>, trace: seq<Segment>) {
    && |trace| == |steps| + 1
    && trace[0] == Start(n)
    && forall i :: 0 <= i < |steps| ==> StepOk(trace[i], steps[i], trace[i + 1])
  }

  predicate StepOk(s: Segment, step: Step, r: Segment) {
    Enabled(s, step) && r == Next(s, step)
  }

  lemma {:induction false} RunKeepsInv(n: nat, steps: seq<Step>, trace: seq<Segment>, i: nat)
    requires n >= 1 && IsRun(n, steps, trace) && i < |trace|
    ensures Inv(trace[i]) && |trace[i].disks| == n
    decreases i
  {
    if i == 0 {
      StartInv(n);
    } else {
      RunKeepsInv(n, steps, trace, i - 1);
      assert StepOk(trace[i - 1], steps[i - 1], trace[i]);
      NextKeepsInv(trace[i - 1], steps[i - 1]);
    }
  }

  /** A committed record is on a majority of disks. */
  lemma CommittedIsQuorumHeld(s: Segment, j: nat)
    requires Inv(s) && j < s.tracker.committed
    ensures j < |s.records| && QuorumHeld(s.disks, |Stream(s.records[..j + 1])|)
  {
    EndsAreStreamLengths(s.records, j);
    var x := Ends(s.records)[j];
    assert Covered(s.tracker, x);
    forall z | 0 <= z < |s.disks| ensures Durables(s.tracker.lanes)[z] <= DiskSizes(s.disks)[z] {
      assert LaneOk(s, z);
    }
    CountGeMonotone(Durables(s.tracker.lanes), DiskSizes(s.disks), x);
    CountGeIsHolders(Durables(s.tracker.lanes), x);
    CountGeIsHolders(DiskSizes(s.disks), x);
  }

  // ------------------------------------------------------------ main results

  /** Every zone the recovery heard from was fenced by then. */
  predicate FencedAnswers(probes: seq<Probe>, s: Segment) {
    |probes| == |s.fenced| && forall z :: 0 <= z < |probes| && Answered(probes[z]) ==> s.fenced[z]
  }

  /** Answers of fenced zones stay true, whatever the old writer still does elsewhere. */
  lemma FencedAnswersStayTrue(n: nat, steps: seq<Step>, trace: seq<Segment>, at: nat, i: nat, probes: seq<Probe>)
    requires n >= 1 && IsRun(n, steps, trace) && at <= i < |trace|
    requires FencedAnswers(probes, trace[at]) && Faithful(probes, trace[at].disks, trace[at].records)
    ensures Faithful(probes, trace[i].disks, trace[i].records)
    ensures SameAnswers(probes, trace[at].disks, trace[at].records, trace[i].disks, trace[i].records)
  {
    hide Stream;
    RunKeepsInv(n, steps, trace, at);
    RunKeepsInv(n, steps, trace, i);
    CommittedNeverDrops(n, steps, trace, at, i);
    forall z | 0 <= z < n ensures trace[i].disks[z] <= Stream(trace[i].records) {
      assert LaneOk(trace[i], z);
    }
    forall z | 0 <= z < n && Answered(probes[z]) ensures trace[i].disks[z] == trace[at].disks[z] {
      FencedIsFrozen(n, steps, trace, at, i, z);
    }
    forall z | 0 <= z < n ensures Truthful(probes[z], trace[i].disks[z]) {
      assert Truthful(probes[z], trace[at].disks[z]);
    }
  }

  /**
   Acknowledged implies recovered. In every run of any length over any number of
   replicas, whatever majority answers and however the reads fail, a recovery
   that succeeds returns a whole-record prefix of the admitted stream that
   contains every record the tracker ever commits: those committed before the
   reads, and, as the zones it heard are fenced, those a still running writer
   commits afterwards from late reports and from zones recovery did not hear.
   */
  lemma AcknowledgedImpliesRecovered(n: nat, steps: seq<Step>, trace: seq<Segment>, i: nat, at: nat,
                                     probes: seq<Probe>, r: Result<RecoveryCandidate, RecoveryError>, m: nat)
    requires n >= 1 && IsRun(n, steps, trace) && i < |trace| && at < |trace|
    requires i <= at || FencedAnswers(probes, trace[at])
    requires Faithful(probes, trace[at].disks, trace[at].records)
    requires Exact(probes, trace[at].disks, trace[at].records, None, r, m) && r.Ok?
    requires trace[i].tracker.committed > 0
    ensures r.value.NonEmpty? && trace[i].tracker.committed <= m <= |trace[at].records|
    ensures r.value.tail.canonical == Stream(trace[at].records[..m])
    ensures trace[i].records <= trace[at].records || trace[at].records <= trace[i].records
  {
    hide Exact, Faithful, QuorumHeld, Stream;
    var last := if i <= at then at else i;
    CommittedNeverDrops(n, steps, trace, i, last);
    CommittedNeverDrops(n, steps, trace, at, last);
    RunKeepsInv(n, steps, trace, last);
    var j := trace[last].tracker.committed - 1;
    CommittedIsQuorumHeld(trace[last], j);
    if at < i {
      FencedAnswersStayTrue(n, steps, trace, at, i, probes);
      ExactLater(probes, trace[at].disks, trace[at].records, trace[i].disks, trace[i].records, r, m);
    }
    AcknowledgedIsRecovered(probes, trace[last].disks, trace[last].records, r, m, j);
    RecoveredPrefix(probes, trace[at].disks, trace[at].records, r, m);
  }

  lemma RecoveredPrefix(probes: seq<Probe>, disks: seq<Bytes>, records: seq<Bytes>,
                        r: Result<RecoveryCandidate, RecoveryError>, m: nat)
    requires Faithful(probes, disks, records) && Exact(probes, disks, records, None, r, m) && r.Ok? && r.value.NonEmpty?
    ensures m <= |records| && r.value.tail.canonical == Stream(records[..m])
  {
  }

  /** Along a run the watermark only grows and the stream only extends. */
  lemma {:induction false} CommittedNeverDrops(n: nat, steps: seq<Step>, trace: seq<Segment>, i: nat, at: nat)
    requires n >= 1 && IsRun(n, steps, trace) && i <= at < |trace|
    ensures trace[i].tracker.committed <= trace[at].tracker.committed
    ensures trace[i].records <= trace[at].records
    decreases at
  {
    if i < at {
      CommittedNeverDrops(n, steps, trace, i, at - 1);
      assert StepOk(trace[at - 1], steps[at - 1], trace[at]);
    }
  }

  /**
   Rotation leaves no gap. Once the swap boundary is ready (every admitted record
   committed), a recovery that succeeds returns exactly the admitted records with
   no discarded suffix, so the branch that retires a non-empty pending segment
   above a proven gap is never taken for a swapped segment.
   */
  lemma SwappedSegmentIsRecoveredExactly(n: nat, steps: seq<Step>, trace: seq<Segment>, at: nat, probes: seq<Probe>,
                                         r: Result<RecoveryCandidate, RecoveryError>, m: nat)
    requires n >= 1 && IsRun(n, steps, trace) && at < |trace|
    requires trace[at].tracker.admitted == trace[at].tracker.committed != 0
    requires Faithful(probes, trace[at].disks, trace[at].records)
    requires Exact(probes, trace[at].disks, trace[at].records, None, r, m) && r.Ok?
    ensures r.value.NonEmpty?
    ensures r.value.tail.canonical == Stream(trace[at].records)
    ensures |r.value.tail.recordEnds| == trace[at].tracker.admitted
    ensures !r.value.tail.hadDiscardedSuffix
  {
    RunKeepsInv(n, steps, trace, at);
    SwappedIsHeld(trace[at]);
    hide Exact, Faithful, QuorumHeld, IsRun, Stream, Inv;
    FullyCommittedIsRecoveredExactly(probes, trace[at].disks, trace[at].records, r, m);
  }

  lemma SwappedIsHeld(s: Segment)
    requires Inv(s) && s.tracker.admitted == s.tracker.committed != 0
    ensures s.records != [] && |s.records| == s.tracker.admitted && AllFit(s.records)
    ensures QuorumHeld(s.disks, |Stream(s.records)|)
  {
    CommittedIsQuorumHeld(s, |s.records| - 1);
    assert s.records[..|s.records|] == s.records;
  }

  /**
   A fenced replica is frozen: its bytes at the fence are its bytes from then on,
   so answers taken at different moments of one recovery describe one state.
   */
  lemma {:induction false} FencedIsFrozen(n: nat, steps: seq<Step>, trace: seq<Segment>, i: nat, at: nat, zone: nat)
    requires n >= 1 && IsRun(n, steps, trace) && i <= at < |trace| && zone < n
    requires |trace[i].fenced| == n && trace[i].fenced[zone]
    ensures |trace[at].fenced| == n == |trace[at].disks| == |trace[i].disks|
    ensures trace[at].fenced[zone] && trace[at].disks[zone] == trace[i].disks[zone]
    decreases at
  {
    RunKeepsInv(n, steps, trace, i);
    RunKeepsInv(n, steps, trace, at);
    if i < at {
      assert StepOk(trace[at - 1], steps[at - 1], trace[at]);
      FencedIsFrozen(n, steps, trace, i, at - 1, zone);
    }
  }
}
