/**
 A follower that reads between two rewrites, as a whole run. A writer admits two records
 and commits neither: zones 0 and 1 hold one of them, zone 2 both. A first recovery hears
 zones 0 and 1, decides one record and stalls. A second one hears zones 1 and 2, decides
 two, and rewrites zone 1. The follower now sees both records on two zones and emits them.
 The first recovery resumes and rewrites zone 1 with its own decision. A third one hears
 zones 0 and 1, and keeps one record.
 */
module LateReaders {
  import opened Wrappers
  import opened Records
  import opened Quorum
  import opened Recovery
  import D = DeferredFold
  import Follower
  import RC = RecoveryChains
  import S = SegmentRuns
  import CommitTracking

  function Two(): seq<Bytes> { D.TwoRecords() }

  function One(): Bytes { D.Disks()[0] }

  function Both(): Bytes { D.Disks()[2] }

  // ------------------------------------------------------------- the writer

  predicate Fields(s: S.Segment, records: seq<Bytes>, disks: seq<Bytes>, handed: seq<nat>, attached: seq<bool>,
                   fenced: seq<bool>) {
    s.records == records && s.disks == disks && s.handed == handed && s.attached == attached && s.fenced == fenced
  }

  lemma StepTo(steps: seq<S.Step>, segs: seq<S.Segment>, step: S.Step)
    returns (more: seq<S.Step>, on: seq<S.Segment>)
    requires S.IsRun(3, steps, segs) && S.Enabled(segs[|steps|], step)
    ensures S.IsRun(3, more, on) && |more| == |steps| + 1 && on[|more|] == S.Next(segs[|steps|], step)
  {
    hide S.Enabled, S.Next;
    more, on := steps + [step], segs + [S.Next(segs[|steps|], step)];
    forall i | 0 <= i < |more| ensures S.StepOk(on[i], more[i], on[i + 1]) {
      if i < |steps| { assert S.StepOk(segs[i], steps[i], segs[i + 1]); }
    }
  }

  lemma RunShaped(steps: seq<S.Step>, segs: seq<S.Segment>)
    requires S.IsRun(3, steps, segs)
    ensures S.Shaped(segs[|steps|]) && S.Inv(segs[|steps|])
  {
    S.RunKeepsInv(3, steps, segs, |steps|);
  }

  /** A step that only the tracker and these fields notice. */
  lemma FieldsAfter(s: S.Segment, step: S.Step, disks: seq<Bytes>, handed: seq<nat>, attached: seq<bool>,
                    fenced: seq<bool>)
    requires S.Shaped(s) && Fields(s, s.records, disks, handed, attached, fenced) && |disks| == 3
    requires step.Open? || step.Grow? || step.Fence?
    requires step.zone < 3 && S.Enabled(s, step)
    ensures var r := S.Next(s, step);
            match step
            case Open(z) => Fields(r, s.records, disks, handed, attached[z := true], fenced)
            case Grow(z, len) =>
              Fields(r, s.records, disks[z := CutTo(Stream(s.records), len)], handed, attached, fenced)
            case Fence(z) => Fields(r, s.records, disks, handed, attached, fenced[z := true])
            case _ => true
  {
  }

  lemma AdmitAll(s: S.Segment)
    requires S.Shaped(s) && Fields(s, [], [[], [], []], [0, 0, 0], [true, true, true], [false, false, false])
    ensures S.Enabled(s, S.Admit(Two(), [0, 1, 2]))
    ensures Fields(S.Next(s, S.Admit(Two(), [0, 1, 2])), Two(), [[], [], []], [8, 8, 8], [true, true, true],
                   [false, false, false])
  {
    hide S.Next, S.Enabled, S.Shaped, Stream, WholeRecords, AllFit;
    D.TwoRecordsBytes();
    assert [] + Two() == Two();
    var zones: seq<nat> := [0, 1, 2];
    assert zones[0] == 0 && zones[1] == 1 && zones[2] == 2;
    AdmitFields(s, zones);
    var r := S.Next(s, S.Admit(Two(), zones));
    assert r.handed[0] == 8 && r.handed[1] == 8 && r.handed[2] == 8;
    assert r.attached[0] && r.attached[1] && r.attached[2];
    assert r.handed == [8, 8, 8] && r.attached == [true, true, true];
  }

  lemma AdmitFields(s: S.Segment, zones: seq<nat>)
    requires S.Shaped(s) && s.records == [] && AllFit(Two()) && [] + Two() == Two()
    requires forall i :: 0 <= i < |zones| ==> zones[i] < |s.attached| && s.attached[zones[i]]
    ensures S.Enabled(s, S.Admit(Two(), zones))
    ensures var r := S.Next(s, S.Admit(Two(), zones));
            && r.records == Two() && r.disks == s.disks && r.fenced == s.fenced
            && |r.handed| == |s.handed| && |r.attached| == |s.attached|
            && (forall z: nat :: z < |s.handed| && z in zones ==> r.handed[z] == |Stream(Two())|)
            && forall z: nat :: z < |s.attached| && z in zones ==> r.attached[z] == s.attached[z]
  {
    hide Stream, S.WindowEnds, CommitTracking.AdmitWindow;
  }

  lemma Opened() returns (steps: seq<S.Step>, segs: seq<S.Segment>)
    ensures S.IsRun(3, steps, segs)
    ensures Fields(segs[|steps|], [], [[], [], []], [0, 0, 0], [true, true, true], [false, false, false])
  {
    hide S.Next;
    var empty, none, no: seq<bool> := [[], [], []], [0, 0, 0], [false, false, false];
    steps, segs := [], [S.Start(3)];
    assert Fields(segs[0], [], empty, none, no, no);
    RunShaped(steps, segs);
    FieldsAfter(segs[0], S.Open(0), empty, none, no, no);
    steps, segs := StepTo(steps, segs, S.Open(0));
    RunShaped(steps, segs);
    FieldsAfter(segs[1], S.Open(1), empty, none, [true, false, false], no);
    steps, segs := StepTo(steps, segs, S.Open(1));
    RunShaped(steps, segs);
    FieldsAfter(segs[2], S.Open(2), empty, none, [true, true, false], no);
    steps, segs := StepTo(steps, segs, S.Open(2));
  }

  lemma Cuts()
    ensures CutTo(Stream(Two()), 4) == One() && CutTo(Stream(Two()), 8) == Both()
    ensures |One()| == 4 && |Both()| == 8 && One() < Both() && AllFit(Two())
  {
    D.TwoRecordsBytes();
    assert Stream(Two())[..4] == One();
  }

  lemma AdmittedBoth() returns (steps: seq<S.Step>, segs: seq<S.Segment>)
    ensures S.IsRun(3, steps, segs)
    ensures Fields(segs[|steps|], Two(), [[], [], []], [8, 8, 8], [true, true, true], [false, false, false])
  {
    steps, segs := Opened();
    RunShaped(steps, segs);
    AdmitAll(segs[|steps|]);
    hide S.Next, Stream, S.Enabled;
    steps, segs := StepTo(steps, segs, S.Admit(Two(), [0, 1, 2]));
  }

  lemma GrowTo(steps: seq<S.Step>, segs: seq<S.Segment>, disks: seq<Bytes>, zone: nat, len: nat)
    returns (more: seq<S.Step>, on: seq<S.Segment>)
    requires S.IsRun(3, steps, segs) && zone < 3 == |disks| && |disks[zone]| <= len <= 8
    requires Fields(segs[|steps|], Two(), disks, [8, 8, 8], [true, true, true], [false, false, false])
    ensures S.IsRun(3, more, on)
    ensures Fields(on[|more|], Two(), disks[zone := CutTo(Stream(Two()), len)], [8, 8, 8], [true, true, true],
                   [false, false, false])
  {
    RunShaped(steps, segs);
    FieldsAfter(segs[|steps|], S.Grow(zone, len), disks, [8, 8, 8], [true, true, true], [false, false, false]);
    hide S.Next, Stream;
    more, on := StepTo(steps, segs, S.Grow(zone, len));
  }

  /** One record on zones 0 and 1, two on zone 2, every zone fenced. */
  lemma Written() returns (steps: seq<S.Step>, segs: seq<S.Segment>)
    ensures S.IsRun(3, steps, segs)
    ensures Fields(segs[|steps|], Two(), D.Disks(), [8, 8, 8], [true, true, true], [true, true, true])
  {
    Cuts();
    hide S.Next, S.IsRun, Stream, CutTo;
    steps, segs := AdmittedBoth();
    steps, segs := GrowTo(steps, segs, [[], [], []], 0, 4);
    steps, segs := GrowTo(steps, segs, [One(), [], []], 1, 4);
    steps, segs := GrowTo(steps, segs, [One(), One(), []], 2, 8);
    assert [One(), One(), Both()] == D.Disks();
    steps, segs := FenceAll(steps, segs);
  }

  lemma FenceOne(steps: seq<S.Step>, segs: seq<S.Segment>, fenced: seq<bool>, zone: nat)
    returns (more: seq<S.Step>, on: seq<S.Segment>)
    requires S.IsRun(3, steps, segs) && zone < 3 == |fenced| == |D.Disks()|
    requires Fields(segs[|steps|], Two(), D.Disks(), [8, 8, 8], [true, true, true], fenced)
    ensures S.IsRun(3, more, on)
    ensures Fields(on[|more|], Two(), D.Disks(), [8, 8, 8], [true, true, true], fenced[zone := true])
  {
    RunShaped(steps, segs);
    hide S.Next, Stream, D.Disks;
    FieldsAfter(segs[|steps|], S.Fence(zone), D.Disks(), [8, 8, 8], [true, true, true], fenced);
    more, on := StepTo(steps, segs, S.Fence(zone));
  }

  lemma FenceAll(steps: seq<S.Step>, segs: seq<S.Segment>) returns (more: seq<S.Step>, on: seq<S.Segment>)
    requires S.IsRun(3, steps, segs)
    requires Fields(segs[|steps|], Two(), D.Disks(), [8, 8, 8], [true, true, true], [false, false, false])
    ensures S.IsRun(3, more, on)
    ensures Fields(on[|more|], Two(), D.Disks(), [8, 8, 8], [true, true, true], [true, true, true])
  {
    assert |D.Disks()| == 3;
    hide S.IsRun, D.Disks;
    more, on := FenceOne(steps, segs, [false, false, false], 0);
    more, on := FenceOne(more, on, [true, false, false], 1);
    more, on := FenceOne(more, on, [true, true, false], 2);
  }

  // -------------------------------------------------------- the recoveries

  datatype Run = Run(steps: seq<RC.Step>, trace: seq<RC.World>)

  function Last(run: Run): RC.World
    requires run.trace != []
  {
    run.trace[|run.trace| - 1]
  }

  /** A run on three zones, all fenced, that holds both records and reached these copies and decisions. */
  ghost predicate At(run: Run, copies: seq<Bytes>, decisions: seq<Bytes>) {
    && RC.IsRun(3, run.steps, run.trace) && Last(run).copies == copies && Last(run).decisions == decisions
    && |copies| == 3 && Last(run).seg.records == Two() && Last(run).seg.fenced == [true, true, true]
  }

  /** A step depends only on what happened before it. */
  lemma StepOkLater(trace: seq<RC.World>, longer: seq<RC.World>, k: nat, step: RC.Step)
    requires k + 1 < |trace| && trace <= longer && RC.StepOk(trace, k, step)
    ensures RC.StepOk(longer, k, step)
  {
    hide Exact, S.StepOk;
    assert longer[k] == trace[k] && longer[k + 1] == trace[k + 1];
    if step.Recover? {
      var probes, seen, again := step.probes, step.seen, step.again;
      forall z: nat | z < |probes| ensures RC.ReadOk(longer, k, probes, seen, again, z) {
        assert RC.ReadOk(trace, k, probes, seen, again, z);
      }
      forall z: nat | z < |probes|
        ensures RC.ReadDisk(longer, k, probes, seen, again, z) == RC.ReadDisk(trace, k, probes, seen, again, z)
      {
        assert RC.ReadOk(trace, k, probes, seen, again, z);
      }
      assert RC.ReadDisks(longer, k, probes, seen, again) == RC.ReadDisks(trace, k, probes, seen, again);
    }
  }

  lemma Extend(run: Run, step: RC.Step, v: RC.World) returns (next: Run)
    requires RC.IsRun(3, run.steps, run.trace) && RC.StepOk(run.trace + [v], |run.steps|, step)
    ensures RC.IsRun(3, next.steps, next.trace) && next == Run(run.steps + [step], run.trace + [v])
  {
    hide RC.StepOk;
    next := Run(run.steps + [step], run.trace + [v]);
    forall k | 0 <= k < |next.steps| ensures RC.StepOk(next.trace, k, next.steps[k]) {
      if k < |run.steps| { StepOkLater(run.trace, next.trace, k, run.steps[k]); }
    }
  }

  /** The writer alone: every copy is what its lane wrote. */
  function Alone(seg: S.Segment): RC.World { RC.World(seg, seg.disks, [], false) }

  lemma {:induction false} LiftWriter(steps: seq<S.Step>, segs: seq<S.Segment>) returns (run: Run)
    requires S.IsRun(3, steps, segs)
    ensures RC.IsRun(3, run.steps, run.trace) && Last(run) == Alone(segs[|steps|])
    decreases |steps|
  {
    if steps == [] {
      run := Run([], [RC.Start(3)]);
    } else {
      var n := |steps| - 1;
      assert S.IsRun(3, steps[..n], segs[..n + 1]);
      run := LiftWriter(steps[..n], segs[..n + 1]);
      assert S.StepOk(segs[n], steps[n], segs[n + 1]);
      S.RunKeepsInv(3, steps, segs, n);
      WriterCopies(segs[n], steps[n]);
      hide S.Next, S.Enabled, RC.IsRun;
      IsRunCount(run);
      run := Extend(run, RC.Writer(steps[n]), Alone(segs[n + 1]));
    }
  }

  lemma IsRunCount(run: Run)
    requires RC.IsRun(3, run.steps, run.trace)
    ensures |run.trace| == |run.steps| + 1
  {
  }

  lemma WriterCopies(s: S.Segment, step: S.Step)
    requires S.Inv(s) && S.Enabled(s, step)
    ensures var r := S.Next(s, step);
            && |r.disks| == |s.disks|
            && r.disks == if step.Grow? then s.disks[step.zone := r.disks[step.zone]] else s.disks
  {
  }

  /** Zones 0 and 1 answer the third recovery with their finalized copies. */
  function ThirdProbes(): seq<Probe> {
    [Probe(Sealed(0, One()), false, None, false), Probe(Sealed(2, One()), false, None, false),
     Probe(Silent, false, None, false)]
  }

  lemma WhereThird()
    ensures Heard(ThirdProbes()) == [0, 1] && Readable(ThirdProbes()) == [0, 1]
  {
    D.WhereOfThree(ThirdProbes(), Answered, 0, 1, 2);
    D.WhereOfThree(ThirdProbes(), Contributes, 0, 1, 2);
  }

  /** Two zones answered and were read, the second with the most whole records. */
  lemma DecidesMost(probes: seq<Probe>, disks: seq<Bytes>, a: nat, b: nat, m: nat)
    requires Plausible(probes, disks, Two()) && |probes| == |disks| == 3 && m <= 2 && a < 3 && b < 3
    requires Heard(probes) == [a, b] && Readable(probes) == [a, b] && CommittedSize(probes) > 0
    requires UsableRecords(probes, disks, Two(), a) <= m && UsableRecords(probes, disks, Two(), b) == m
    ensures Exact(probes, disks, Two(), None, Ok(OutcomeOf(probes, Two(), m)), m)
  {
    hide UsableRecords, CommittedSize, Plausible;
    assert Readable(probes)[1] == b;
    assert IsRecovered(probes, disks, Two(), m);
    OutcomeIsExact(probes, disks, Two(), m);
  }

  lemma FirstDecides(disks: seq<Bytes>)
    requires |disks| == 3 && disks[0] == One() && disks[1] == One() && disks[2] == []
    ensures AllFit(Two()) && Plausible(D.FirstProbes(), disks, Two())
    ensures Exact(D.FirstProbes(), disks, Two(), None, Ok(OutcomeOf(D.FirstProbes(), Two(), 1)), 1)
  {
    Cuts();
    D.FirstUsable();
    D.WhereFirst();
    DecidesMost(D.FirstProbes(), disks, 0, 1, 1);
  }

  lemma SecondDecides(disks: seq<Bytes>)
    requires |disks| == 3 && disks[0] == [] && disks[1] == One() && disks[2] == Both()
    ensures AllFit(Two()) && Plausible(D.SecondProbes(), disks, Two())
    ensures Exact(D.SecondProbes(), disks, Two(), None, Ok(OutcomeOf(D.SecondProbes(), Two(), 2)), 2)
  {
    Cuts();
    D.SecondUsable();
    D.WhereSecond();
    DecidesMost(D.SecondProbes(), disks, 1, 2, 2);
  }

  lemma ThirdDecides(disks: seq<Bytes>)
    requires |disks| == 3 && disks[0] == One() && disks[1] == One() && disks[2] == []
    ensures AllFit(Two()) && Plausible(ThirdProbes(), disks, Two())
    ensures Exact(ThirdProbes(), disks, Two(), None, Ok(OutcomeOf(ThirdProbes(), Two(), 1)), 1)
  {
    Cuts();
    D.TwoRecordsBytes();
    WhereThird();
    assert SizesOf(ThirdProbes(), [0, 1]) == [4, 4];
    D.LargerOfTwo(ThirdProbes(), 4, 4);
    DecidesMost(ThirdProbes(), disks, 0, 1, 1);
  }

  /** These zones answer for these copies, and are read as they are. */
  predicate Answers(probes: seq<Probe>, copies: seq<Bytes>, read: seq<Bytes>) {
    && |probes| == |copies| == |read| == 3
    && forall z :: 0 <= z < 3 ==>
         if Answered(probes[z]) then read[z] == copies[z] && Truthful(probes[z], copies[z]) else read[z] == []
  }

  lemma AllAnswers()
    ensures Answers(D.FirstProbes(), [One(), One(), Both()], [One(), One(), []])
    ensures Answers(D.SecondProbes(), [One(), One(), Both()], [[], One(), Both()])
    ensures Answers(ThirdProbes(), [One(), One(), Both()], [One(), One(), []])
  {
    Cuts();
    hide Stream;
  }

  /** One recovery that reads every zone now. */
  lemma Decides(run: Run, copies: seq<Bytes>, decisions: seq<Bytes>, probes: seq<Probe>, read: seq<Bytes>, m: nat)
    returns (next: Run)
    requires At(run, copies, decisions) && Answers(probes, copies, read) && 1 <= m <= 2 && AllFit(Two())
    requires Exact(probes, read, Two(), None, Ok(OutcomeOf(probes, Two(), m)), m)
    ensures At(next, copies, decisions + [Stream(Two()[..m])]) && |next.steps| == |run.steps| + 1
    ensures next.steps[|run.steps|].Recover? && next.steps[|run.steps|].m == m
    ensures next.steps[|run.steps|].found.NonEmpty?
    ensures next.steps[|run.steps|].found.tail.canonical == Stream(Two()[..m])
    ensures run.trace <= next.trace && run.steps <= next.steps
  {
    hide Exact, Stream;
    IsRunCount(run);
    var k, w := |run.steps|, Last(run);
    var now := [k, k, k];
    var step := RC.Recover(probes, now, now, None, OutcomeOf(probes, Two(), m), m);
    var v := w.(decisions := decisions + [Stream(Two()[..m])]);
    var trace := run.trace + [v];
    assert trace[k] == w;
    forall z: nat | z < 3 ensures RC.ReadOk(trace, k, probes, now, now, z) {
      assert now[z] == k;
    }
    assert RC.ReadDisks(trace, k, probes, now, now) == read;
    next := Extend(run, step, v);
  }

  lemma Rewrites(run: Run, copies: seq<Bytes>, decisions: seq<Bytes>, zone: nat, d: nat) returns (next: Run)
    requires At(run, copies, decisions) && zone < 3 && d < |decisions|
    ensures At(next, copies[zone := decisions[d]], decisions) && run.trace <= next.trace
    ensures next.steps == run.steps + [RC.Rewrite(zone, d)]
  {
    IsRunCount(run);
    var w := Last(run);
    RC.RunKeepsInv(3, run.steps, run.trace, |run.steps|);
    var seg := S.Next(w.seg, S.Fence(zone));
    var v := w.(seg := seg, copies := copies[zone := decisions[d]]);
    assert [true, true, true][zone := true] == [true, true, true];
    hide RC.Inv, S.Inv;
    next := Extend(run, RC.Rewrite(zone, d), v);
  }

  // ------------------------------------------------------------ the follower

  lemma TwoVotes(observations: seq<Follower.Observation>)
    requires |observations| == 3 && observations[1] == observations[2] == Follower.Read(Two())
    ensures Follower.Accepted(observations, Majority(3), Two())
  {
    forall k | 0 <= k < 2 ensures |Follower.Voters(observations, k, Two()[k])| >= 2 {
      var both: set<nat> := {1, 2};
      assert both <= Follower.Voters(observations, k, Two()[k]);
      SubsetSize(both, Follower.Voters(observations, k, Two()[k]));
    }
  }

  lemma ReadsOfCopies(copies: seq<Bytes>, disks: seq<Bytes>) returns (observations: seq<Follower.Observation>)
    requires |copies| == |disks| == 3 && copies[0] == One() && copies[1] == copies[2] == Both() && AllFit(Two())
    requires forall z :: 0 <= z < 3 ==> disks[z] <= Stream(Two())
    ensures Follower.HonestReads(observations, copies, disks, Two(), 0) && |observations| == 3
    ensures Follower.Accepted(observations, Majority(3), Two())
  {
    Cuts();
    ParseOfStream(Two());
    ParseOfStream(Two()[..1]);
    assert Two()[..0] == [];
    hide Stream, CompleteRecords;
    observations := [Follower.Read(Two()[..1]), Follower.Read(Two()), Follower.Read(Two())];
    forall z | 0 <= z < 3 ensures Follower.HonestCopy(observations[z], copies[z], disks[z], Two(), 0) {
      WholeRead(observations[z], copies[z]);
    }
    TwoVotes(observations);
  }

  lemma WholeRead(o: Follower.Observation, copy: Bytes)
    requires AllFit(Two()) && o == Follower.Read(CompleteRecords(copy))
    ensures Follower.HonestRead(o, copy, 0, Two())
  {
    assert Two()[..0] == [] && copy[0..] == copy;
  }

  /**
   The premise that holders stay cannot be dropped: in this run of a writer and three
   recoveries the follower, reading the copies at moment `at`, accepts two records, and
   the last recovery, which succeeds, keeps one. One step lies between: a superseded
   enforcer's rewrite of one voter. The second record was never committed.
   */
  lemma LateRewriteTakesEmittedRecord() returns (run: Run, at: nat, observations: seq<Follower.Observation>)
    ensures RC.IsRun(3, run.steps, run.trace) && at + 2 == |run.steps| && AllFit(Two())
    ensures run.steps[at] == RC.Rewrite(1, 0) && run.trace[at].decisions == [One(), Both()]
    ensures run.trace[at + 1].copies == run.trace[at].copies[1 := One()]
    ensures Follower.HonestReads(observations, run.trace[at].copies, run.trace[at + 1].copies, Two(), 0)
    ensures |observations| == 3 && Follower.Accepted(observations, Majority(3), Two())
    ensures run.steps[at + 1].Recover? && run.steps[at + 1].found.NonEmpty?
    ensures run.steps[at + 1].found.tail.canonical == Stream(Two()[..1])
  {
    SliceOne();
    hide At, Stream, Exact, RC.IsRun, One, Both;
    var decisions, read, left := [One(), Both()], [One(), Both(), Both()], [One(), One(), Both()];
    var before := UpToReading();
    at := |before.steps|;
    var mid;
    mid, run := Ending(before);
    AtGives(before, read, decisions);
    AtGives(mid, left, decisions);
    observations := EmitsBoth();
    assert run.trace[at] == before.trace[at] && run.trace[at + 1] == mid.trace[at + 1];
    assert run.steps[at] == mid.steps[at];
    assert read[1 := One()] == left;
  }

  lemma EmitsBoth() returns (observations: seq<Follower.Observation>)
    ensures AllFit(Two()) && |observations| == 3 && Follower.Accepted(observations, Majority(3), Two())
    ensures Follower.HonestReads(observations, [One(), Both(), Both()], [One(), One(), Both()], Two(), 0)
  {
    Cuts();
    observations := ReadsOfCopies([One(), Both(), Both()], [One(), One(), Both()]);
  }

  /** After the reading: the late rewrite, and the third recovery. */
  lemma Ending(before: Run) returns (mid: Run, run: Run)
    requires At(before, [One(), Both(), Both()], [One(), Both()])
    ensures At(mid, [One(), One(), Both()], [One(), Both()]) && mid.steps == before.steps + [RC.Rewrite(1, 0)]
    ensures before.trace <= mid.trace <= run.trace && mid.steps <= run.steps && |run.steps| == |mid.steps| + 1
    ensures RC.IsRun(3, run.steps, run.trace) && |run.trace| == |run.steps| + 1
    ensures run.steps[|mid.steps|].Recover? && run.steps[|mid.steps|].found.NonEmpty? && AllFit(Two())
    ensures run.steps[|mid.steps|].found.tail.canonical == Stream(Two()[..1])
  {
    hide At, Stream, Exact, RC.IsRun, One, Both, ThirdProbes, Answers, Plausible, OutcomeOf;
    var decisions, left := [One(), Both()], [One(), One(), Both()];
    mid := Rewrites(before, [One(), Both(), Both()], decisions, 1, 0);
    assert [One(), Both(), Both()][1 := One()] == left;
    AllAnswers();
    ThirdDecides([One(), One(), []]);
    run := Decides(mid, left, decisions, ThirdProbes(), [One(), One(), []], 1);
    AtGives(run, left, decisions + [Stream(Two()[..1])]);
  }

  lemma FirstRecovers(run: Run) returns (next: Run)
    requires At(run, [One(), One(), Both()], [])
    ensures At(next, [One(), One(), Both()], [One()])
  {
    hide At, Stream, Exact, RC.IsRun, One, Both, D.FirstProbes, Answers, Plausible, OutcomeOf;
    SliceOne();
    AllAnswers();
    FirstDecides([One(), One(), []]);
    next := Decides(run, [One(), One(), Both()], [], D.FirstProbes(), [One(), One(), []], 1);
    assert [] + [One()] == [One()];
  }

  lemma SecondRecovers(run: Run) returns (next: Run)
    requires At(run, [One(), One(), Both()], [One()])
    ensures At(next, [One(), One(), Both()], [One(), Both()])
  {
    hide At, Stream, Exact, RC.IsRun, One, Both, D.SecondProbes, Answers, Plausible, OutcomeOf;
    SliceOne();
    AllAnswers();
    SecondDecides([[], One(), Both()]);
    next := Decides(run, [One(), One(), Both()], [One()], D.SecondProbes(), [[], One(), Both()], 2);
    assert [One()] + [Both()] == [One(), Both()];
  }

  /** Everything up to the moment the follower reads. */
  lemma UpToReading() returns (run: Run)
    ensures At(run, [One(), Both(), Both()], [One(), Both()])
  {
    hide At, One, Both;
    run := Begin();
    run := FirstRecovers(run);
    run := SecondRecovers(run);
    run := Rewrites(run, [One(), One(), Both()], [One(), Both()], 1, 1);
    assert [One(), One(), Both()][1 := Both()] == [One(), Both(), Both()];
  }

  lemma SliceOne()
    ensures AllFit(Two()) && Stream(Two()[..1]) == One() && Stream(Two()[..2]) == Both()
  {
    Cuts();
    D.TwoRecordsBytes();
    assert Two()[..2] == Two();
  }

  lemma Begin() returns (run: Run)
    ensures At(run, [One(), One(), Both()], [])
  {
    var steps, segs := Written();
    run := LiftWriter(steps, segs);
    assert [One(), One(), Both()] == D.Disks();
  }

  lemma AtGives(run: Run, copies: seq<Bytes>, decisions: seq<Bytes>)
    requires At(run, copies, decisions)
    ensures RC.IsRun(3, run.steps, run.trace) && |run.trace| == |run.steps| + 1
    ensures run.trace[|run.steps|].copies == copies && run.trace[|run.steps|].decisions == decisions
  {
  }
}
