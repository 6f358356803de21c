/**
 Enforcers that come late, as whole runs. A writer dies with one record on zones 0 and
 1 and two on zone 2. A first recovery freezes zones 0 and 1, decides one record and
 stalls. A second one hears zones 1 and 2, decides two, seals both, folds the segment,
 and as the new writer rotates once more. Then somebody who lost their claim resumes.
 */
module LateEnforcers {
  import opened Wrappers
  import opened Records
  import opened Quorum
  import opened Text
  import opened SegmentIds
  import opened Replica
  import M = Manifest
  import Capacity
  import E = Enforcement
  import SE = SealEnforcement
  import G = SealGate
  import C = SealedCopies
  import L = Lane
  import D = DeferredFold
  import R = Recovery

  /** What stays the same over the run. */
  datatype Setting = Setting(buckets: seq<string>, crc: u32, nextCrc: u32, maxBytes: nat)

  datatype Run = Run(steps: seq<C.Step>, trace: seq<C.World>)

  function Last(run: Run): C.World
    requires run.trace != []
  {
    run.trace[|run.trace| - 1]
  }

  function Tail(): string { SegmentId(1, 0) }
  function Spare(): string { SegmentId(1, 1) }
  function Refill(): string { SegmentId(3, 0) }
  function NextRefill(): string { SegmentId(3, 1) }

  lemma IdsDiffer()
    ensures Tail() != Spare() && Tail() != Refill() && Tail() != NextRefill()
    ensures Spare() != Refill() && Spare() != NextRefill() && Refill() != NextRefill()
  {
    if Tail() == Spare() { SegmentIdInjective(1, 0, 1, 1); }
    if Tail() == Refill() { SegmentIdInjective(1, 0, 3, 0); }
    if Tail() == NextRefill() { SegmentIdInjective(1, 0, 3, 1); }
    if Spare() == Refill() { SegmentIdInjective(1, 1, 3, 0); }
    if Spare() == NextRefill() { SegmentIdInjective(1, 1, 3, 1); }
    if Refill() == NextRefill() { SegmentIdInjective(3, 0, 3, 1); }
  }

  lemma IdsShaped()
    ensures forall id :: id in {Tail(), Spare(), Refill(), NextRefill()} ==> id != "" && ':' !in id && ',' !in id
  {
    SegmentIdShape(1, 0);
    SegmentIdShape(1, 1);
    SegmentIdShape(3, 0);
    SegmentIdShape(3, 1);
  }

  /** A run of three processes on three zones that reached this gate and these copies of the tail. */
  ghost predicate At(run: Run, x: Setting, content: C.Content, gate: G.World, copies: seq<Disk>) {
    && C.IsRun(x.buckets, 3, 3, run.steps, run.trace, content, x.maxBytes)
    && Last(run).gate == gate && C.CopiesOf(Last(run), 3, Tail()) == copies && |copies| == 3
  }

  lemma Extend(run: Run, x: Setting, content: C.Content, step: C.Step, v: C.World) returns (next: Run)
    requires C.IsRun(x.buckets, 3, 3, run.steps, run.trace, content, x.maxBytes)
    requires C.StepOk(Last(run), step, v, 3, content, x.maxBytes)
    ensures C.IsRun(x.buckets, 3, 3, next.steps, next.trace, content, x.maxBytes) && Last(next) == v
    ensures next == Run(run.steps + [step], run.trace + [v])
  {
    hide C.StepOk;
    next := Run(run.steps + [step], run.trace + [v]);
    forall i | 0 <= i < |next.steps|
      ensures C.StepOk(next.trace[i], next.steps[i], next.trace[i + 1], 3, content, x.maxBytes)
    {
      if i < |run.steps| {
        assert C.StepOk(run.trace[i], run.steps[i], run.trace[i + 1], 3, content, x.maxBytes);
      }
    }
  }

  /** A step at the register that completes no enforcement. */
  lemma AtGate(run: Run, x: Setting, content: C.Content, gate: G.World, copies: seq<Disk>, step: G.Step)
    returns (next: Run)
    requires At(run, x, content, gate, copies) && G.Enabled(gate, step, x.maxBytes)
    requires G.Next(gate, step, x.maxBytes).enforced == gate.enforced
    ensures At(next, x, content, G.Next(gate, step, x.maxBytes), copies)
  {
    hide G.Next, G.Enabled;
    var w := Last(run);
    var v := w.(gate := G.Next(gate, step, x.maxBytes));
    next := Extend(run, x, content, C.Gate(step), v);
  }

  /** Requests to one copy of the tail. */
  lemma {:induction false} AtTouch(run: Run, x: Setting, content: C.Content, gate: G.World, copies: seq<Disk>,
                                   zone: nat, requests: seq<Request>) returns (next: Run)
    requires At(run, x, content, gate, copies) && zone < 3
    requires forall i :: 0 <= i < |requests| ==> !requests[i].Delete?
    ensures At(next, x, content, gate, copies[zone := L.AfterAll(copies[zone], requests)])
    decreases |requests|
  {
    if requests == [] {
      next := run;
      assert copies[zone := copies[zone]] == copies;
    } else {
      var n := |requests| - 1;
      hide G.Next, G.Enabled, Serve, C.IsRun;
      next := AtTouch(run, x, content, gate, copies, zone, requests[..n]);
      var w := Last(next);
      var v := C.AfterTouch(w, 3, Tail(), zone, requests[n]);
      next := Extend(next, x, content, C.Touch(Tail(), zone, requests[n]), v);
    }
  }

  // ------------------------------------------------------------ the register

  function Down3(): seq<G.Phase> { seq(3, _ => G.Down) }

  function Claimed1(x: Setting): M.Record {
    M.Initial(x.buckets).(epoch := 1, owner := "writer", tailId := Some(Tail()))
  }

  function Registered(x: Setting): M.Record { Claimed1(x).(pendingId := Some(Spare())) }

  function Claimed2(x: Setting): M.Record { Registered(x).(epoch := 2, owner := "first") }

  function Claimed3(x: Setting): M.Record { Registered(x).(epoch := 3, owner := "second") }

  function FirstFold(x: Setting): M.PendingFold {
    M.PendingFold(Tail(), 0, 1, "", x.crc, Spare(), Spare(), Refill())
  }

  function Folded(x: Setting): M.Record {
    Claimed3(x).(segments := [M.Entry(Tail(), 0, x.crc)], tailBase := 2, tailId := Some(Spare()),
                 pendingId := Some(Refill()), sealBase := Some(0), sealId := Some(Tail()), sealDigest := Some(""))
  }

  function NextFold(x: Setting): M.PendingFold {
    M.PendingFold(Spare(), 2, 2, "", x.nextCrc, Refill(), Refill(), NextRefill())
  }

  function FoldedTwice(x: Setting): M.Record {
    Folded(x).(segments := [M.Entry(Tail(), 0, x.crc), M.Entry(Spare(), 2, x.nextCrc)], tailBase := 3,
               tailId := Some(Refill()), pendingId := Some(NextRefill()), sealBase := Some(2), sealId := Some(Spare()))
  }

  ghost predicate Good(x: Setting) {
    M.ValidBuckets(x.buckets) && x.maxBytes >= 2 * M.WORST_CASE_ENTRY_BYTES
  }

  lemma RecordsValid(x: Setting)
    requires Good(x)
    ensures M.Valid(Claimed1(x)) && M.Valid(Registered(x)) && M.Valid(Claimed2(x)) && M.Valid(Claimed3(x))
    ensures M.Valid(Folded(x)) && M.Valid(FoldedTwice(x))
  {
    IdsDiffer();
    IdsShaped();
    hide SegmentId;
  }

  lemma RoomForBoth(x: Setting)
    requires Good(x)
    ensures M.HasRoom([], 1, x.maxBytes) && M.HasRoom(Folded(x).segments, 1, x.maxBytes)
  {
    var e := M.Entry(Tail(), 0, x.crc);
    assert Capacity.Minted(Tail());
    Capacity.EntryWithinWorstCase(e);
    assert M.EncodeSegments([e]) == M.EncodeEntry(e);
  }

  function Gate0(x: Setting): G.World { G.World(M.Initial(x.buckets), {}, Down3()) }

  function Gate1(x: Setting): G.World {
    G.World(Registered(x), {}, [G.Claimed(1, "writer", Claimed1(x)), G.Down, G.Down])
  }

  function Gate2(x: Setting): G.World {
    G.World(Claimed2(x), {}, [G.Claimed(1, "writer", Claimed1(x)), G.Walking(2, "first"), G.Down])
  }

  function Gate3(x: Setting): G.World {
    G.World(Claimed3(x), {}, [G.Claimed(1, "writer", Claimed1(x)), G.Walking(2, "first"), G.Walking(3, "second")])
  }

  function Enforced(x: Setting): G.Enforced { {(Tail(), x.crc)} }

  function Gate4(x: Setting): G.World { Gate3(x).(enforced := Enforced(x)) }

  function Gate5(x: Setting): G.World { Gate4(x).(record := Folded(x)) }

  function Gate6(x: Setting): G.World {
    Gate5(x).(record := FoldedTwice(x),
              procs := Gate5(x).procs[2 := G.Running(3, "second", G.Sealing(Spare(), x.nextCrc, 2))])
  }

  lemma ClaimSteps(x: Setting)
    requires Good(x)
    ensures var step := G.ClaimEpoch(0, "writer");
            G.Enabled(Gate0(x), step, x.maxBytes) &&
            G.Next(Gate0(x), step, x.maxBytes) ==
              G.World(Claimed1(x), {}, [G.Claimed(1, "writer", Claimed1(x)), G.Down, G.Down])
    ensures var w := G.World(Claimed1(x), {}, [G.Claimed(1, "writer", Claimed1(x)), G.Down, G.Down]);
            G.Next(w, G.OtherOp(M.RegisterPending(1, "writer", Spare())), x.maxBytes) == Gate1(x)
    ensures var step := G.ClaimEpoch(1, "first");
            G.Enabled(Gate1(x), step, x.maxBytes) &&
            G.Next(Gate1(x), step, x.maxBytes) ==
              G.World(Claimed2(x), {}, Gate1(x).procs[1 := G.Claimed(2, "first", Claimed2(x))])
    ensures var step := G.ClaimEpoch(2, "second");
            G.Enabled(Gate2(x), step, x.maxBytes) &&
            G.Next(Gate2(x), step, x.maxBytes) ==
              G.World(Claimed3(x), {}, Gate2(x).procs[2 := G.Claimed(3, "second", Claimed3(x))])
  {
    RecordsValid(x);
    hide M.Valid, SegmentId;
    assert Down3() == [G.Down, G.Down, G.Down];
  }

  lemma SettleSteps(x: Setting)
    ensures var w := G.World(Claimed2(x), {}, Gate1(x).procs[1 := G.Claimed(2, "first", Claimed2(x))]);
            G.Next(w, G.SettleSeal(1), x.maxBytes) == Gate2(x)
    ensures var w := G.World(Claimed3(x), {}, Gate2(x).procs[2 := G.Claimed(3, "second", Claimed3(x))]);
            G.Next(w, G.SettleSeal(2), x.maxBytes) == Gate3(x)
  {
    hide SegmentId;
    assert G.SealPairs(Claimed2(x)) == {} && G.SealPairs(Claimed3(x)) == {};
  }

  lemma FoldsCommit(x: Setting)
    requires Good(x)
    ensures M.ApplyOp(M.FoldPending(3, "second", FirstFold(x)), Claimed3(x), x.maxBytes) == Ok(M.Update(Folded(x)))
    ensures M.ApplyOp(M.FoldPending(3, "second", NextFold(x)), Folded(x), x.maxBytes) == Ok(M.Update(FoldedTwice(x)))
  {
    RoomForBoth(x);
    IdsDiffer();
    hide SegmentId, M.HasRoom;
    assert Claimed3(x).segments == [] && [] + [M.Entry(Tail(), 0, x.crc)] == Folded(x).segments;
    assert Folded(x).segments + [M.Entry(Spare(), 2, x.nextCrc)] == FoldedTwice(x).segments;
  }

  lemma FirstFoldStep(x: Setting)
    requires Good(x)
    ensures G.Enabled(Gate4(x), G.RecoveryFold(2, FirstFold(x)), x.maxBytes)
    ensures G.Next(Gate4(x), G.RecoveryFold(2, FirstFold(x)), x.maxBytes) == Gate5(x)
  {
    RecordsValid(x);
    FoldsCommit(x);
    hide M.Valid, SegmentId, M.ApplyOp, FirstFold;
    assert G.Pair(FirstFold(x)) == (Tail(), x.crc) by { FoldNamesTail(x); }
    assert Gate4(x).procs[2 := G.Walking(3, "second")] == Gate4(x).procs;
  }

  lemma FoldNamesTail(x: Setting)
    ensures G.Pair(FirstFold(x)) == (Tail(), x.crc)
  {
  }

  lemma NextFoldStep(x: Setting)
    requires Good(x)
    ensures G.Enabled(Engine(x, G.Draining(NextFold(x), true)), G.Fold(2, true), x.maxBytes)
    ensures G.Next(Engine(x, G.Draining(NextFold(x), true)), G.Fold(2, true), x.maxBytes) == Gate6(x)
  {
    RecordsValid(x);
    FoldsCommit(x);
    hide M.Valid, SegmentId, M.ApplyOp;
  }

  // --------------------------------------------------------------- the copies

  function Missing(): seq<Disk> { [Disk(None, 0), Disk(None, 0), Disk(None, 0)] }

  function Open(data: Bytes): Disk { Disk(Some(Object(0, 1, false, 0, data)), 1) }

  function Frozen(data: Bytes): Disk { Disk(Some(Object(0, 2, true, 0, data)), 1) }

  /** A rewritten copy, sealed. */
  function Rewritten(data: Bytes): Disk { Disk(Some(Object(1, 2, true, 1, data)), 2) }

  function Write(data: Bytes): seq<Request> { [Create, Append(Some(0), 0, data)] }

  function Rewrite(data: Bytes): seq<Request> { [Replace(Some((0, 2)), data), Finalize(|data|)] }

  lemma CopiesChange(one: Bytes, two: Bytes)
    ensures L.AfterAll(Disk(None, 0), Write(one)) == Open(one) && L.AfterAll(Disk(None, 0), Write(two)) == Open(two)
    ensures L.AfterAll(Open(one), [Finalize(|one|)]) == Frozen(one)
    ensures L.AfterAll(Open(two), [Finalize(|two|)]) == Frozen(two)
    ensures L.AfterAll(Frozen(one), Rewrite(two)) == Rewritten(two)
  {
    forall data: Bytes ensures L.AfterAll(Disk(None, 0), Write(data)) == Open(data) {
      assert Write(data)[..1] == [Create] && [Create][..0] == [];
      assert [] + data == data;
    }
    forall data: Bytes ensures L.AfterAll(Open(data), [Finalize(|data|)]) == Frozen(data) {
      assert [Finalize(|data|)][..0] == [];
    }
    var requests := Rewrite(two);
    var first := [Replace(Some((0, 2)), two)];
    assert requests[..1] == first && first[..0] == [];
    assert L.AfterAll(Frozen(one), first) == Disk(Some(Object(1, 1, false, 1, two)), 2);
  }

  /** The writer's life and the first recovery: one record decided, zones 0 and 1 frozen. */
  lemma UpToFirst(x: Setting, content: C.Content, one: Bytes, two: Bytes) returns (run: Run)
    requires Good(x)
    ensures At(run, x, content, Gate2(x), [Frozen(one), Frozen(one), Open(two)])
  {
    ClaimSteps(x);
    SettleSteps(x);
    CopiesChange(one, two);
    hide G.Next, G.Enabled, M.Initial, L.AfterAll, SegmentId;
    run := Run([], [C.World(Gate0(x), map[], {})]);
    assert C.CopiesOf(Last(run), 3, Tail()) == Missing();
    assert At(run, x, content, Gate0(x), Missing());
    run := AtGate(run, x, content, Gate0(x), Missing(), G.ClaimEpoch(0, "writer"));
    var w1 := G.World(Claimed1(x), {}, [G.Claimed(1, "writer", Claimed1(x)), G.Down, G.Down]);
    OthersEnabled(w1, M.RegisterPending(1, "writer", Spare()), x.maxBytes);
    run := AtGate(run, x, content, w1, Missing(), G.OtherOp(M.RegisterPending(1, "writer", Spare())));
    run := AtTouch(run, x, content, Gate1(x), Missing(), 0, Write(one));
    run := AtTouch(run, x, content, Gate1(x), [Open(one), Disk(None, 0), Disk(None, 0)], 1, Write(one));
    run := AtTouch(run, x, content, Gate1(x), [Open(one), Open(one), Disk(None, 0)], 2, Write(two));
    var live := [Open(one), Open(one), Open(two)];
    run := AtGate(run, x, content, Gate1(x), live, G.ClaimEpoch(1, "first"));
    var w2 := G.World(Claimed2(x), {}, Gate1(x).procs[1 := G.Claimed(2, "first", Claimed2(x))]);
    SettleEnabled(w2, 1, x.maxBytes);
    run := AtGate(run, x, content, w2, live, G.SettleSeal(1));
    run := AtTouch(run, x, content, Gate2(x), live, 0, [Finalize(|one|)]);
    run := AtTouch(run, x, content, Gate2(x), [Frozen(one), Open(one), Open(two)], 1, [Finalize(|one|)]);
  }

  lemma OthersEnabled(w: G.World, op: M.Op, maxBytes: nat)
    requires !op.Claim? && !op.FoldPending?
    ensures G.Enabled(w, G.OtherOp(op), maxBytes)
  {
  }

  lemma SettleEnabled(w: G.World, p: nat, maxBytes: nat)
    requires p < |w.procs| && w.procs[p].Claimed?
    ensures G.Enabled(w, G.SettleSeal(p), maxBytes)
  {
  }

  function SealedCopiesOf(one: Bytes, two: Bytes): seq<Disk> { [Frozen(one), Rewritten(two), Frozen(two)] }

  /** The second recovery: two records decided, zones 1 and 2 sealed. */
  lemma UpToSecond(x: Setting, content: C.Content, one: Bytes, two: Bytes) returns (run: Run)
    requires Good(x)
    ensures At(run, x, content, Gate3(x), SealedCopiesOf(one, two))
  {
    ClaimSteps(x);
    SettleSteps(x);
    CopiesChange(one, two);
    hide G.Next, G.Enabled, L.AfterAll, SegmentId;
    run := UpToFirst(x, content, one, two);
    var frozen := [Frozen(one), Frozen(one), Open(two)];
    run := AtGate(run, x, content, Gate2(x), frozen, G.ClaimEpoch(2, "second"));
    var w3 := G.World(Claimed3(x), {}, Gate2(x).procs[2 := G.Claimed(3, "second", Claimed3(x))]);
    SettleEnabled(w3, 2, x.maxBytes);
    run := AtGate(run, x, content, w3, frozen, G.SettleSeal(2));
    run := AtTouch(run, x, content, Gate3(x), frozen, 2, [Finalize(|two|)]);
    run := AtTouch(run, x, content, Gate3(x), [Frozen(one), Frozen(one), Frozen(two)], 1, Rewrite(two));
  }

  lemma SealedOnTwo(one: Bytes, two: Bytes)
    requires one != two
    ensures SE.SealedSet(SealedCopiesOf(one, two), two) == {1, 2}
  {
  }

  /** The enforcement of the tail completes: both zones were sealed. */
  lemma Promised(run: Run, x: Setting, content: C.Content, one: Bytes, two: Bytes) returns (next: Run)
    requires At(run, x, content, Gate3(x), SealedCopiesOf(one, two)) && one != two && content(Tail(), x.crc) == two
    ensures At(next, x, content, Gate4(x), SealedCopiesOf(one, two))
  {
    hide SegmentId;
    var w, t: nat := Last(run), |run.trace| - 1;
    SealedOnTwo(one, two);
    assert C.SealedZones(w, 3, Tail(), two) == {1, 2};
    forall z: nat | z in {1, 2} ensures z in C.ZonesOnce(w, 3, Tail(), two) {
      C.OnceMeansWasSealed(x.buckets, 3, 3, run.steps, run.trace, content, x.maxBytes, Tail(), z, two, t);
      assert z in C.SealedZones(run.trace[t], 3, Tail(), two);
    }
    var both: set<nat> := {1, 2};
    SubsetSize(both, C.ZonesOnce(w, 3, Tail(), two));
    var step := G.EnforceTail(2, Tail(), x.crc);
    assert G.Next(Gate3(x), step, x.maxBytes) == Gate4(x);
    next := Extend(run, x, content, C.Gate(step), w.(gate := Gate4(x)));
  }

  /** The fold, the new writer, and its first rotation: the seal record has moved on. */
  lemma UpToRotation(x: Setting, content: C.Content, one: Bytes, two: Bytes) returns (run: Run)
    requires Good(x) && one != two && content(Tail(), x.crc) == two
    ensures At(run, x, content, Gate6(x), SealedCopiesOf(one, two))
  {
    FirstFoldStep(x);
    EngineSteps(x);
    NextFoldStep(x);
    run := UpToSecond(x, content, one, two);
    run := Promised(run, x, content, one, two);
    var copies := SealedCopiesOf(one, two);
    hide G.Next, G.Enabled, SegmentId, SealedCopiesOf;
    run := AtGate(run, x, content, Gate4(x), copies, G.RecoveryFold(2, FirstFold(x)));
    run := AtGate(run, x, content, Gate5(x), copies, G.OpenWriter(2, None));
    run := AtGate(run, x, content, Engine(x, G.Idle), copies, G.MarkDue(2));
    run := AtGate(run, x, content, Engine(x, G.Due), copies, G.Swap(2, NextFold(x)));
    run := AtGate(run, x, content, Engine(x, G.Draining(NextFold(x), true)), copies, G.Fold(2, true));
  }

  function Engine(x: Setting, rotation: G.Rotation): G.World {
    Gate5(x).(procs := Gate5(x).procs[2 := G.Running(3, "second", rotation)])
  }

  lemma EngineSteps(x: Setting)
    ensures G.Enabled(Gate5(x), G.OpenWriter(2, None), x.maxBytes)
    ensures G.Next(Gate5(x), G.OpenWriter(2, None), x.maxBytes) == Engine(x, G.Idle)
    ensures G.Enabled(Engine(x, G.Idle), G.MarkDue(2), x.maxBytes)
    ensures G.Next(Engine(x, G.Idle), G.MarkDue(2), x.maxBytes) == Engine(x, G.Due)
    ensures G.Enabled(Engine(x, G.Due), G.Swap(2, NextFold(x)), x.maxBytes)
    ensures G.Next(Engine(x, G.Due), G.Swap(2, NextFold(x)), x.maxBytes) == Engine(x, G.Draining(NextFold(x), true))
  {
    hide SegmentId;
  }

  // ------------------------------------------------------------ coming late

  lemma GateHeld(run: Run, x: Setting, content: C.Content, one: Bytes, two: Bytes)
    requires At(run, x, content, Gate6(x), SealedCopiesOf(one, two)) && one != two && content(Tail(), x.crc) == two
    ensures C.GateHolds(Last(run), 3, content) && C.Inv(Last(run), 3, content)
    ensures C.SealedZones(Last(run), 3, Tail(), two) == {1, 2} && Tail() != Spare()
  {
    IdsDiffer();
    SealedOnTwo(one, two);
    C.RunKeepsInv(x.buckets, 3, 3, run.steps, run.trace, content, x.maxBytes, |run.trace| - 1);
    hide SegmentId, SealedCopiesOf, G.Inv, C.IsRun;
    var w := Last(run);
    assert w.gate.record.segments == FoldedTwice(x).segments;
    assert C.EntryOk(w, 3, content, 0) && C.EntryOk(w, 3, content, 1);
  }

  /**
   A late enforcer of the same decision, in a run: somebody who was enforcing the tail
   under the second recovery's decision retries its replace after the rotation, and the
   gate breaks at that step.
   */
  lemma LateRetryRun(x: Setting, content: C.Content, one: Bytes, two: Bytes) returns (run: Run)
    requires Good(x) && one != two && content(Tail(), x.crc) == two
    ensures C.IsRun(x.buckets, 3, 3, run.steps, run.trace, content, x.maxBytes) && |run.steps| >= 1
    ensures C.GateHolds(run.trace[|run.steps| - 1], 3, content) && !C.GateHolds(run.trace[|run.steps|], 3, content)
    ensures run.steps[|run.steps| - 1] == C.Touch(Tail(), 1, Replace(Some((1, 2)), two))
  {
    run := UpToRotation(x, content, one, two);
    GateHeld(run, x, content, one, two);
    hide SegmentId, C.IsRun, C.GateHolds, C.Inv;
    var w := Last(run);
    assert w.gate.record.segments[0] == M.Entry(Tail(), 0, x.crc);
    var v := C.LateRetryBreaksGate(w, 3, content, x.maxBytes, 0, 1);
    run := Extend(run, x, content, C.Touch(Tail(), 1, Replace(Some((1, 2)), two)), v);
  }

  /** The stalled recovery's own decision on both sealed copies. */
  function Unsealed(one: Bytes): seq<Disk> {
    [Frozen(one), Disk(Some(Object(2, 1, false, 2, one)), 3), Disk(Some(Object(1, 1, false, 1, one)), 2)]
  }

  lemma LateReplaces(one: Bytes, two: Bytes)
    requires one != two
    ensures L.AfterAll(Rewritten(two), [Replace(Some((1, 2)), one)]) == Unsealed(one)[1]
    ensures L.AfterAll(Frozen(two), [Replace(Some((0, 2)), one)]) == Unsealed(one)[2]
    ensures SE.SealedSet(Unsealed(one), two) == {} && E.HolderSet(Unsealed(one), two) == HoldersIn(one, two)
  {
    assert [Replace(Some((1, 2)), one)][..0] == [] && [Replace(Some((0, 2)), one)][..0] == [];
  }

  /** Nobody, unless the shorter decision contains the longer one. */
  function HoldersIn(one: Bytes, two: Bytes): set<nat> { if two <= one then {0, 1, 2} else {} }

  /**
   A late enforcer of another decision, in a run: the first recovery, which decided one
   record and lost its claim, finds zones 1 and 2 finalized with other bytes and replaces
   both. Nothing checks its claim. The bytes the directory records are on no zone at all.
   */
  lemma LateDecisionRun(x: Setting, content: C.Content, one: Bytes, two: Bytes) returns (run: Run)
    requires Good(x) && one < two && content(Tail(), x.crc) == two
    ensures C.IsRun(x.buckets, 3, 3, run.steps, run.trace, content, x.maxBytes)
    ensures Last(run).gate.record == FoldedTwice(x) && C.InDirectory(FoldedTwice(x), Tail(), x.crc)
    ensures C.SealedZones(Last(run), 3, Tail(), two) == {} && !C.GateHolds(Last(run), 3, content)
    ensures C.CopiesOf(Last(run), 3, Tail()) == Unsealed(one) && E.HolderSet(Unsealed(one), two) == {}
  {
    LateReplaces(one, two);
    IdsDiffer();
    run := UpToRotation(x, content, one, two);
    var copies := SealedCopiesOf(one, two);
    hide G.Next, G.Enabled, SegmentId, C.IsRun, L.AfterAll;
    run := AtTouch(run, x, content, Gate6(x), copies, 1, [Replace(Some((1, 2)), one)]);
    copies := [Frozen(one), Unsealed(one)[1], Frozen(two)];
    run := AtTouch(run, x, content, Gate6(x), copies, 2, [Replace(Some((0, 2)), one)]);
    assert C.CopiesOf(Last(run), 3, Tail()) == Unsealed(one);
    var w := Last(run);
    assert w.gate.record.segments[0] == M.Entry(Tail(), 0, x.crc);
    assert !C.EntryOk(w, 3, content, 0);
  }

  /** The two decisions are what the two recoveries really decide from those copies. */
  lemma LateDecisionUnseals(x: Setting, content: C.Content,
                            r1: Result<R.RecoveryCandidate, R.RecoveryError>, m1: nat,
                            r2: Result<R.RecoveryCandidate, R.RecoveryError>, m2: nat) returns (run: Run)
    requires AllFit(D.TwoRecords()) && Good(x) && content(Tail(), x.crc) == D.Disks()[2]
    requires R.Exact(D.FirstProbes(), D.Disks(), D.TwoRecords(), None, r1, m1)
    requires R.Exact(D.SecondProbes(), D.Disks(), D.TwoRecords(), None, r2, m2)
    ensures r1.Ok? && r1.value.NonEmpty? && r2.Ok? && r2.value.NonEmpty?
    ensures C.IsRun(x.buckets, 3, 3, run.steps, run.trace, content, x.maxBytes)
    ensures C.InDirectory(Last(run).gate.record, Tail(), x.crc)
    ensures content(Tail(), x.crc) == r2.value.tail.canonical
    ensures E.HolderSet(C.CopiesOf(Last(run), 3, Tail()), r2.value.tail.canonical) == {}
    ensures 0 in E.HolderSet(C.CopiesOf(Last(run), 3, Tail()), r1.value.tail.canonical)
  {
    hide R.Exact, Stream, C.IsRun, SegmentId;
    D.FirstOutcome(r1, m1);
    D.SecondOutcome(r2, m2);
    D.TwoRecordsBytes();
    run := LateDecisionRun(x, content, r1.value.tail.canonical, r2.value.tail.canonical);
  }
}
