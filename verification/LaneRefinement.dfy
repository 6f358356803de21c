/** A lane and its replica behave as `SegmentRuns` lets a replica behave. */
module LaneRefinement {
  import opened Wrappers
  import opened Records
  import opened Recovery
  import opened Replica
  import Lane
  import S = SegmentRuns

  /** The segment's view of one lane: its replica's bytes, and the part of the stream it was handed. */
  ghost predicate Represents(s: S.Segment, zone: nat, d: Disk, generation: nat, stream: Bytes) {
    && S.Shaped(s) && zone < |s.disks| && HasGeneration(d, generation)
    && s.disks[zone] == d.slot.value.bytes
    && s.handed[zone] <= |Stream(s.records)| && stream == Stream(s.records)[..s.handed[zone]]
  }

  /**
   Whatever a lane does to its object, sends, resends and partly applied writes
   included, is one growth step of the segment's run; what the lane then reports
   durable is an enabled report.
   */
  lemma LaneStepIsSegmentStep(s: S.Segment, zone: nat, before: Disk, after: Disk, generation: nat, durable: nat,
                              end: nat, stream: Bytes)
    requires Represents(s, zone, before, generation, stream) && !s.fenced[zone]
    requires HasGeneration(after, generation) && Grows(before.slot.value, after.slot.value)
    requires end <= |stream| && Lane.Mirrors(after, generation, durable, end, stream)
    ensures var size := |after.slot.value.bytes|;
            && S.Enabled(s, S.Grow(zone, size))
            && Represents(S.Next(s, S.Grow(zone, size)), zone, after, generation, stream)
            && S.Enabled(S.Next(s, S.Grow(zone, size)), S.Report(zone, durable))
  {
    hide Stream;
    var bytes := after.slot.value.bytes;
    assert bytes == stream[..|bytes|] == Stream(s.records)[..|bytes|];
    assert CutTo(Stream(s.records), |bytes|) == bytes;
  }

  // ------------------------------------------------------------------- lives

  /** One lane's object, what was admitted to the segment, and how much of it the lane was handed. */
  datatype LaneWorld = LaneWorld(disk: Disk, records: seq<Bytes>, handed: nat, attached: bool)

  /** The object serves anybody's request, or a window is admitted, with or without this lane. */
  datatype LaneEvent = Served(request: Request) | Admitted(window: seq<Bytes>, mine: bool)

  /** The part of the stream the lane was handed. */
  function Handed(w: LaneWorld): Bytes
    requires AllFit(w.records) && w.handed <= |Stream(w.records)|
  {
    Stream(w.records)[..w.handed]
  }

  /** Nobody but the lane appends, and it appends what it was handed at its own offset. */
  predicate Sends(request: Request, lane: nat, handed: Bytes) {
    request.Append? && request.session.Some? ==>
      && request.session.value == lane
      && request.offset + |request.data| <= |handed|
      && request.data == handed[request.offset..request.offset + |request.data|]
  }

  ghost predicate Wellformed(w: LaneWorld, generation: nat) {
    IdsUsed(w.disk) && HasGeneration(w.disk, generation) && AllFit(w.records) && w.handed <= |Stream(w.records)|
  }

  ghost predicate Happens(w: LaneWorld, event: LaneEvent, v: LaneWorld, generation: nat, lane: nat)
    requires Wellformed(w, generation)
  {
    match event
    case Served(request) =>
      Sends(request, lane, Handed(w)) && v == w.(disk := After(w.disk, request)) && HasGeneration(v.disk, generation)
    case Admitted(window, mine) =>
      && window != [] && AllFit(window) && (mine ==> w.attached)
      && v == w.(records := w.records + window, attached := mine,
                 handed := if mine then |Stream(w.records + window)| else w.handed)
  }

  ghost predicate LaneLife(events: seq<LaneEvent>, worlds: seq<LaneWorld>, generation: nat, lane: nat) {
    && |worlds| == |events| + 1
    && (forall i :: 0 <= i < |worlds| ==> Wellformed(worlds[i], generation))
    && forall i :: 0 <= i < |events| ==> Happens(worlds[i], events[i], worlds[i + 1], generation, lane)
  }

  /** Steps of the segment's run that one replica's life amounts to. */
  ghost predicate ReplicaSteps(steps: seq<S.Step>, states: seq<S.Segment>, zone: nat) {
    && |states| == |steps| + 1
    && forall i :: 0 <= i < |steps| ==>
         ReplicaStep(steps[i], zone) && S.Enabled(states[i], steps[i]) && states[i + 1] == S.Next(states[i], steps[i])
  }

  predicate ReplicaStep(step: S.Step, zone: nat) {
    || step == S.Fence(zone) || (step.Grow? && step.zone == zone)
    || (step.Admit? && (step.zones == [zone] || step.zones == []))
  }

  /** The segment's fence is the storage's: a takeover opened a newer session than the lane's. */
  ghost predicate Tracks(s: S.Segment, zone: nat, w: LaneWorld, generation: nat, lane: nat)
    requires Wellformed(w, generation)
  {
    && Represents(s, zone, w.disk, generation, Handed(w)) && w.disk.slot.value.bytes <= Handed(w)
    && s.records == w.records && s.handed[zone] == w.handed && s.attached[zone] == w.attached
    && lane <= w.disk.slot.value.session && (s.fenced[zone] <==> w.disk.slot.value.session != lane)
  }

  /** What the object holds stays a prefix of what the lane was handed. */
  lemma SentStaysPrefix(d: Disk, request: Request, lane: nat, handed: Bytes, generation: nat)
    requires IdsUsed(d) && HasGeneration(d, generation) && d.slot.value.bytes <= handed && Sends(request, lane, handed)
    requires HasGeneration(After(d, request), generation)
    ensures After(d, request).slot.value.bytes <= handed
    ensures After(d, request).slot.value.bytes != d.slot.value.bytes ==> d.slot.value.session == lane
    ensures d.slot.value.session <= After(d, request).slot.value.session
    ensures After(d, request).slot.value.bytes != d.slot.value.bytes ==>
              After(d, request).slot.value.session == d.slot.value.session
  {
    if request.Append? && Serve(d, request).Ok? {
      assert d.slot.value.bytes + request.data == handed[..request.offset + |request.data|];
    }
  }

  /** One request to the object is at most one step of the segment. */
  lemma RequestIsSegmentStep(s: S.Segment, zone: nat, w: LaneWorld, request: Request, v: LaneWorld, generation: nat,
                             lane: nat) returns (step: Option<S.Step>)
    requires Wellformed(w, generation) && Wellformed(v, generation) && Tracks(s, zone, w, generation, lane)
    requires Happens(w, Served(request), v, generation, lane)
    ensures step.None? ==> Tracks(s, zone, v, generation, lane)
    ensures step.Some? ==>
              && ReplicaStep(step.value, zone) && S.Enabled(s, step.value)
              && Tracks(S.Next(s, step.value), zone, v, generation, lane)
  {
    hide Stream;
    SentStaysPrefix(w.disk, request, lane, Handed(w), generation);
    var bytes := v.disk.slot.value.bytes;
    if bytes != w.disk.slot.value.bytes {
      StepGrows(w.disk, request, generation);
      assert bytes == Handed(w)[..|bytes|] == Stream(s.records)[..|bytes|];
      assert CutTo(Stream(s.records), |bytes|) == bytes;
      step := Some(S.Grow(zone, |bytes|));
    } else if v.disk.slot.value.session != w.disk.slot.value.session {
      step := Some(S.Fence(zone));
    } else {
      step := None;
    }
  }

  /** An admission is the segment's own step; what the lane had is a prefix of what it has now. */
  lemma AdmissionIsSegmentStep(s: S.Segment, zone: nat, w: LaneWorld, window: seq<Bytes>, mine: bool, v: LaneWorld,
                               generation: nat, lane: nat) returns (step: S.Step)
    requires Wellformed(w, generation) && Wellformed(v, generation) && Tracks(s, zone, w, generation, lane)
    requires Happens(w, Admitted(window, mine), v, generation, lane)
    ensures ReplicaStep(step, zone) && S.Enabled(s, step) && Tracks(S.Next(s, step), zone, v, generation, lane)
  {
    var zones := if mine then [zone] else [];
    step := S.Admit(window, zones);
    AdmissionFields(s, zone, window, zones);
    S.AppendedEnds(s.records, window);
    hide Stream, S.Next, S.Enabled, S.Shaped;
    assert Handed(w) <= Handed(v);
  }

  lemma AdmissionFields(s: S.Segment, zone: nat, window: seq<Bytes>, zones: seq<nat>)
    requires S.Shaped(s) && zone < |s.disks| && window != [] && AllFit(window)
    requires zones == [] || (zones == [zone] && s.attached[zone])
    ensures S.Enabled(s, S.Admit(window, zones))
    ensures var r := S.Next(s, S.Admit(window, zones));
            && S.Shaped(r) && r.records == s.records + window && r.disks == s.disks && r.fenced == s.fenced
            && r.attached[zone] == (zones == [zone])
            && r.handed[zone] == if zones == [zone] then |Stream(s.records + window)| else s.handed[zone]
  {
    S.AdmitShaped(s, window, zones);
    hide Stream, S.WindowEnds;
  }

  /**
   The whole life of a replica's object beside its lane refines the segment's run: every
   request, whoever sent it, is a growth or fence step or none, every window is an
   admission, what the object holds is always a prefix of what the lane was handed, and
   the replica is fenced in the run exactly when storage has taken it over.
   */
  lemma {:induction false} LaneLifeIsSegmentRun(s: S.Segment, zone: nat, events: seq<LaneEvent>, worlds: seq<LaneWorld>,
                                                generation: nat, lane: nat)
    returns (steps: seq<S.Step>, states: seq<S.Segment>)
    requires LaneLife(events, worlds, generation, lane) && Tracks(s, zone, worlds[0], generation, lane)
    ensures ReplicaSteps(steps, states, zone) && states[0] == s
    ensures Tracks(states[|steps|], zone, worlds[|events|], generation, lane)
    decreases |events|
  {
    if events == [] {
      return [], [s];
    }
    var n := |events| - 1;
    hide Tracks, Wellformed, S.Enabled, S.Next, Happens, ReplicaSteps;
    assert LaneLife(events[..n], worlds[..n + 1], generation, lane);
    steps, states := LaneLifeIsSegmentRun(s, zone, events[..n], worlds[..n + 1], generation, lane);
    assert Happens(worlds[n], events[n], worlds[n + 1], generation, lane);
    StepsCount(steps, states, zone);
    var step := EventIsSegmentStep(states[|steps|], zone, worlds[n], events[n], worlds[n + 1], generation, lane);
    if step.Some? { steps, states := OneMore(steps, states, zone, step.value); }
  }

  lemma StepsCount(steps: seq<S.Step>, states: seq<S.Segment>, zone: nat)
    requires ReplicaSteps(steps, states, zone)
    ensures |states| == |steps| + 1
  {
  }

  lemma OneMore(steps: seq<S.Step>, states: seq<S.Segment>, zone: nat, step: S.Step)
    returns (more: seq<S.Step>, on: seq<S.Segment>)
    requires ReplicaSteps(steps, states, zone) && ReplicaStep(step, zone) && S.Enabled(states[|steps|], step)
    ensures ReplicaSteps(more, on, zone) && |more| == |steps| + 1 && on[0] == states[0]
    ensures on[|more|] == S.Next(states[|steps|], step)
  {
    hide S.Enabled, S.Next, ReplicaStep;
    more, on := steps + [step], states + [S.Next(states[|steps|], step)];
  }

  lemma EventIsSegmentStep(s: S.Segment, zone: nat, w: LaneWorld, event: LaneEvent, v: LaneWorld, generation: nat,
                           lane: nat) returns (step: Option<S.Step>)
    requires Wellformed(w, generation) && Wellformed(v, generation) && Tracks(s, zone, w, generation, lane)
    requires Happens(w, event, v, generation, lane)
    ensures step.None? ==> Tracks(s, zone, v, generation, lane)
    ensures step.Some? ==>
              && ReplicaStep(step.value, zone) && S.Enabled(s, step.value)
              && Tracks(S.Next(s, step.value), zone, v, generation, lane)
  {
    hide Tracks, Wellformed, S.Enabled, S.Next, Happens;
    match event {
      case Served(request) => step := RequestIsSegmentStep(s, zone, w, request, v, generation, lane);
      case Admitted(window, mine) =>
        var one := AdmissionIsSegmentStep(s, zone, w, window, mine, v, generation, lane);
        step := Some(one);
    }
  }

  /** After a takeover the object keeps exactly the bytes it had, however often the old lane retries. */
  lemma {:induction false} TakenOverIsFrozen(events: seq<LaneEvent>, worlds: seq<LaneWorld>, generation: nat, lane: nat,
                                             i: nat, j: nat)
    requires LaneLife(events, worlds, generation, lane) && i <= j < |worlds|
    requires worlds[i].disk.slot.value.session > lane
    ensures worlds[j].disk.slot.value.session > lane
    ensures worlds[j].disk.slot.value.bytes == worlds[i].disk.slot.value.bytes
    decreases j
  {
    if i < j {
      TakenOverIsFrozen(events, worlds, generation, lane, i, j - 1);
      assert Happens(worlds[j - 1], events[j - 1], worlds[j], generation, lane);
    }
  }
}
