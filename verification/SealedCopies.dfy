/**
 The seal gate on the replicas themselves. Every segment has a copy per zone, and
 any handle, superseded enforcers included, may send them any request at any time.
 What `SealGate` calls enforced becomes: a majority of zones each held the finalized
 bytes at some moment. `SuccessMeansOnce` is why: that is what `enforce_seal` ensures
 of its call, embedded in such a run, whoever else was at work. For the live seal of a
 swapped segment it is a premise. The rest says what follows for the copies as they
 are now, and exactly when.
 */
module SealedCopies {
  import opened Wrappers
  import opened Records
  import opened Quorum
  import opened Text
  import M = Manifest
  import opened Replica
  import E = Enforcement
  import SE = SealEnforcement
  import G = SealGate

  datatype World = World(gate: G.World, copies: map<string, seq<Disk>>, sealedOnce: set<(string, nat, Bytes)>)

  datatype Step =
    | Gate(step: G.Step)
    | Touch(id: string, zone: nat, request: Request)

  /** The bytes a checksum stands for: what enforcement of that entry of that segment writes. */
  type Content = (string, u32) -> Bytes

  // ------------------------------------------------------------------ copies

  function CopiesOf(w: World, n: nat, id: string): seq<Disk> {
    if id in w.copies then w.copies[id] else seq(n, _ => Disk(None, 0))
  }

  /** Zones whose copy is finalized with exactly `data` now. */
  function SealedZones(w: World, n: nat, id: string, data: Bytes): set<nat> {
    SE.SealedSet(CopiesOf(w, n, id), data)
  }

  /** Zones whose copy was finalized with exactly `data` at some moment. */
  function ZonesOnce(w: World, n: nat, id: string, data: Bytes): set<nat> {
    set z: nat | z < n && (id, z, data) in w.sealedOnce
  }

  predicate OnMajority(w: World, n: nat, id: string, data: Bytes) {
    |SealedZones(w, n, id, data)| >= Majority(n)
  }

  predicate OnceOnMajority(w: World, n: nat, id: string, data: Bytes) {
    |ZonesOnce(w, n, id, data)| >= Majority(n)
  }

  /** The entry's bytes are finalized on a majority now, or it lies below the floor. */
  predicate SettledNow(w: World, n: nat, content: Content, i: nat)
    requires i < |w.gate.record.segments|
  {
    var e := w.gate.record.segments[i];
    OnMajority(w, n, e.id, content(e.id, e.crc32c)) || M.NextBase(w.gate.record, i) <= w.gate.record.trunc
  }

  /** The gate, on the copies: every entry but the one the seal record names is settled now. */
  ghost predicate GateHolds(w: World, n: nat, content: Content) {
    forall i :: 0 <= i < |w.gate.record.segments| ==> EntryOk(w, n, content, i)
  }

  predicate EntryOk(w: World, n: nat, content: Content, i: nat)
    requires i < |w.gate.record.segments|
  {
    w.gate.record.sealId == Some(w.gate.record.segments[i].id) || SettledNow(w, n, content, i)
  }

  // ------------------------------------------------------------------- steps

  /** A process may call a pair enforced once every zone of a majority was seen sealed with its bytes. */
  ghost predicate Enabled(w: World, step: Step, n: nat, content: Content, maxBytes: nat) {
    match step
    case Gate(s) =>
      && G.Enabled(w.gate, s, maxBytes)
      && forall pair :: pair in G.Next(w.gate, s, maxBytes).enforced && pair !in w.gate.enforced ==>
           OnceOnMajority(w, n, pair.0, content(pair.0, pair.1))
    case Touch(id, zone, request) => zone < n && |CopiesOf(w, n, id)| == n && !request.Delete?
  }

  function AfterTouch(w: World, n: nat, id: string, zone: nat, request: Request): World
    requires zone < |CopiesOf(w, n, id)|
  {
    var d := After(CopiesOf(w, n, id)[zone], request);
    World(w.gate, w.copies[id := CopiesOf(w, n, id)[zone := d]],
          if d.slot.Some? && d.slot.value.finalized then w.sealedOnce + {(id, zone, d.slot.value.bytes)}
          else w.sealedOnce)
  }

  ghost predicate StepOk(w: World, step: Step, v: World, n: nat, content: Content, maxBytes: nat) {
    && Enabled(w, step, n, content, maxBytes)
    && match step
       case Gate(s) => v == w.(gate := G.Next(w.gate, s, maxBytes))
       case Touch(id, zone, request) => v == AfterTouch(w, n, id, zone, request)
  }

  ghost predicate IsRun(buckets: seq<string>, procs: nat, n: nat, steps: seq<Step>, trace: seq<World>, content: Content,
                        maxBytes: nat) {
    && M.ValidBuckets(buckets) && |trace| == |steps| + 1
    && trace[0] == World(G.World(M.Initial(buckets), {}, seq(procs, _ => G.Down)), map[], {})
    && forall i :: 0 <= i < |steps| ==> StepOk(trace[i], steps[i], trace[i + 1], n, content, maxBytes)
  }

  // --------------------------------------------------------------- invariant

  ghost predicate Inv(w: World, n: nat, content: Content) {
    && G.Inv(w.gate)
    && (forall id :: id in w.copies ==> |w.copies[id]| == n)
    && PromisesKept(w, n, content)
  }

  ghost predicate PromisesKept(w: World, n: nat, content: Content) {
    forall pair :: pair in w.gate.enforced ==> OnceOnMajority(w, n, pair.0, content(pair.0, pair.1))
  }

  lemma MoreOnce(w: World, v: World, n: nat, id: string, data: Bytes)
    requires w.sealedOnce <= v.sealedOnce
    ensures OnceOnMajority(w, n, id, data) ==> OnceOnMajority(v, n, id, data)
  {
    SubsetSize(ZonesOnce(w, n, id, data), ZonesOnce(v, n, id, data));
  }

  lemma StepKeepsInv(w: World, step: Step, v: World, n: nat, content: Content, maxBytes: nat)
    requires Inv(w, n, content) && StepOk(w, step, v, n, content, maxBytes)
    ensures Inv(v, n, content)
  {
    hide G.Inv, G.Next, G.Enabled;
    if step.Gate? { G.NextKeeps(w.gate, step.step, maxBytes); }
    forall pair | pair in v.gate.enforced ensures OnceOnMajority(v, n, pair.0, content(pair.0, pair.1)) {
      MoreOnce(w, v, n, pair.0, content(pair.0, pair.1));
    }
  }

  lemma InitiallyInv(buckets: seq<string>, procs: nat, n: nat, content: Content)
    requires M.ValidBuckets(buckets)
    ensures Inv(World(G.World(M.Initial(buckets), {}, seq(procs, _ => G.Down)), map[], {}), n, content)
  {
  }

  lemma {:induction false} RunKeepsInv(buckets: seq<string>, procs: nat, n: nat, steps: seq<Step>, trace: seq<World>,
                                       content: Content, maxBytes: nat, t: nat)
    requires IsRun(buckets, procs, n, steps, trace, content, maxBytes) && t < |trace|
    ensures Inv(trace[t], n, content)
  {
    hide Inv, StepOk;
    if t == 0 {
      InitiallyInv(buckets, procs, n, content);
    } else {
      RunKeepsInv(buckets, procs, n, steps, trace, content, maxBytes, t - 1);
      assert StepOk(trace[t - 1], steps[t - 1], trace[t], n, content, maxBytes);
      StepKeepsInv(trace[t - 1], steps[t - 1], trace[t], n, content, maxBytes);
    }
  }

  /**
   What always holds: in every reachable state, whatever superseded enforcers did,
   every entry but the seal record's either lies below the floor or had its exact
   bytes finalized on a majority of zones, each at some moment.
   */
  lemma EveryOtherEntryWasSealed(buckets: seq<string>, procs: nat, n: nat, steps: seq<Step>, trace: seq<World>,
                                 content: Content, maxBytes: nat, t: nat, i: nat)
    requires IsRun(buckets, procs, n, steps, trace, content, maxBytes) && t < |trace|
    requires i < |trace[t].gate.record.segments|
    ensures var r := trace[t].gate.record; var e := r.segments[i];
            || r.sealId == Some(e.id) || M.NextBase(r, i) <= r.trunc
            || OnceOnMajority(trace[t], n, e.id, content(e.id, e.crc32c))
  {
    RunKeepsInv(buckets, procs, n, steps, trace, content, maxBytes, t);
    assert G.OthersSettled(trace[t].gate.record, trace[t].gate.enforced);
    var e := trace[t].gate.record.segments[i];
    if (e.id, e.crc32c) in trace[t].gate.enforced {
      assert OnceOnMajority(trace[t], n, (e.id, e.crc32c).0, content((e.id, e.crc32c).0, (e.id, e.crc32c).1));
    }
  }

  ghost predicate WasSealedBy(n: nat, trace: seq<World>, id: string, zone: nat, data: Bytes, t: nat)
    requires t < |trace|
  {
    exists s :: 0 <= s <= t && zone in SealedZones(trace[s], n, id, data)
  }

  /** What `sealedOnce` records: the zones whose copy was finalized with these bytes at some state so far. */
  lemma {:induction false} OnceMeansWasSealed(buckets: seq<string>, procs: nat, n: nat, steps: seq<Step>,
                                              trace: seq<World>,
                                              content: Content, maxBytes: nat, id: string, zone: nat, data: Bytes,
                                              t: nat)
    requires IsRun(buckets, procs, n, steps, trace, content, maxBytes) && t < |trace|
    ensures zone in ZonesOnce(trace[t], n, id, data) <==> WasSealedBy(n, trace, id, zone, data, t)
  {
    hide G.Next, G.Enabled, After;
    if t == 0 {
      assert SealedZones(trace[0], n, id, data) == {};
    } else {
      OnceMeansWasSealed(buckets, procs, n, steps, trace, content, maxBytes, id, zone, data, t - 1);
      assert StepOk(trace[t - 1], steps[t - 1], trace[t], n, content, maxBytes);
      OnceStep(trace[t - 1], steps[t - 1], trace[t], n, content, maxBytes, id, zone, data);
      assert WasSealedBy(n, trace, id, zone, data, t) <==>
             WasSealedBy(n, trace, id, zone, data, t - 1) || zone in SealedZones(trace[t], n, id, data);
    }
  }

  lemma OnceStep(w: World, step: Step, v: World, n: nat, content: Content, maxBytes: nat, id: string, zone: nat,
                 data: Bytes)
    requires StepOk(w, step, v, n, content, maxBytes)
    ensures zone in ZonesOnce(w, n, id, data) ==> zone in ZonesOnce(v, n, id, data)
    ensures zone in ZonesOnce(v, n, id, data) ==>
              zone in ZonesOnce(w, n, id, data) || zone in SealedZones(v, n, id, data)
    ensures zone in SealedZones(v, n, id, data) ==>
              zone in SealedZones(w, n, id, data) || zone in ZonesOnce(v, n, id, data)
  {
    hide G.Next, G.Enabled, After;
  }

  // ---------------------------------------- enforcement inside such a run

  /** The requests the copies of `id` see between two moments; any other step does nothing to them. */
  function CallSteps(steps: seq<Step>, id: string, from: nat, to: nat): seq<E.ClusterStep>
    requires from <= to <= |steps|
  {
    seq(to - from, k requires 0 <= k < to - from => CallStep(steps[from + k], id))
  }

  function CallStep(step: Step, id: string): E.ClusterStep {
    if step.Touch? && step.id == id then E.ClusterStep(step.zone, step.request) else E.ClusterStep(0, Resume(None))
  }

  function CallStates(trace: seq<World>, n: nat, id: string, from: nat, to: nat): seq<seq<Disk>>
    requires from <= to < |trace|
  {
    seq(to - from + 1, k requires 0 <= k < to - from + 1 => CopiesOf(trace[from + k], n, id))
  }

  /** What one call lives through in the run. */
  function CallHistory(n: nat, steps: seq<Step>, trace: seq<World>, id: string, from: nat, to: nat): SE.History
    requires from <= to <= |steps| < |trace|
  {
    SE.History(CallSteps(steps, id, from, to), CallStates(trace, n, id, from, to))
  }

  /** Everybody who touches the copies of `id` between two moments writes the segment's own stream. */
  ghost predicate HonestTouches(steps: seq<Step>, id: string, stream: Bytes, from: nat, to: nat)
    requires from <= to <= |steps|
  {
    forall k :: from <= k < to && steps[k].Touch? && steps[k].id == id ==> E.HonestRequest(steps[k].request, stream)
  }

  /** Any part of the run is a history of the kind `enforce_seal` is proved against. */
  lemma CallIsHistory(buckets: seq<string>, procs: nat, n: nat, steps: seq<Step>, trace: seq<World>, content: Content,
                      maxBytes: nat, id: string, stream: Bytes, from: nat, to: nat)
    requires IsRun(buckets, procs, n, steps, trace, content, maxBytes) && n >= 1 && from <= to < |trace|
    requires SE.AllSound(CopiesOf(trace[from], n, id)) && SE.AllOnStream(CopiesOf(trace[from], n, id), stream)
    requires HonestTouches(steps, id, stream, from, to)
    ensures SE.HistoryOk(CallHistory(n, steps, trace, id, from, to), stream)
  {
    hide G.Next, G.Enabled, E.HonestRequest, SE.AllSound, SE.AllOnStream, Serve;
    var h := CallHistory(n, steps, trace, id, from, to);
    forall k | 0 <= k < |h.steps| ensures SE.Happens(h.states[k], h.steps[k], h.states[k + 1], stream) {
      RunKeepsInv(buckets, procs, n, steps, trace, content, maxBytes, from + k);
      assert StepOk(trace[from + k], steps[from + k], trace[from + k + 1], n, content, maxBytes);
      CallStepHappens(trace[from + k], steps[from + k], trace[from + k + 1], n, content, maxBytes, id, stream);
    }
  }

  lemma CallStepHappens(w: World, step: Step, v: World, n: nat, content: Content, maxBytes: nat, id: string,
                        stream: Bytes)
    requires Inv(w, n, content) && StepOk(w, step, v, n, content, maxBytes) && n >= 1
    requires step.Touch? && step.id == id ==> E.HonestRequest(step.request, stream)
    ensures SE.Happens(CopiesOf(w, n, id), CallStep(step, id), CopiesOf(v, n, id), stream)
  {
    hide G.Next, G.Enabled;
    if !(step.Touch? && step.id == id) {
      assert CopiesOf(v, n, id) == CopiesOf(w, n, id);
      var copies := CopiesOf(w, n, id);
      assert |copies| == n;
      assert copies[0 := copies[0]] == copies;
    }
  }

  /** Success of a call that is part of the run gives exactly what its step needs: a majority sealed once. */
  lemma SuccessMeansOnce(buckets: seq<string>, procs: nat, n: nat, steps: seq<Step>, trace: seq<World>,
                         content: Content, maxBytes: nat, id: string, data: Bytes, from: nat, to: nat,
                         counted: set<nat>)
    requires IsRun(buckets, procs, n, steps, trace, content, maxBytes) && from <= to < |trace|
    requires SE.AllWereSealed(counted, CallHistory(n, steps, trace, id, from, to), data) && |counted| >= Majority(n)
    ensures OnceOnMajority(trace[to], n, id, data)
  {
    var h := CallHistory(n, steps, trace, id, from, to);
    forall z | z in counted ensures z in ZonesOnce(trace[to], n, id, data) {
      assert SE.WasSealed(h, z, data);
      var k: nat :| k < |h.states| && SE.SealedAt(h, k, z, data);
      assert z in SealedZones(trace[from + k], n, id, data);
      OnceMeansWasSealed(buckets, procs, n, steps, trace, content, maxBytes, id, z, data, to);
    }
    SubsetSize(counted, ZonesOnce(trace[to], n, id, data));
  }

  // ----------------------------------------- runs that reopen nothing folded

  predicate InDirectory(r: M.Record, id: string, crc32c: u32) {
    exists i :: 0 <= i < |r.segments| && r.segments[i].id == id && r.segments[i].crc32c == crc32c
  }

  /** The step replaces a copy of `id` that is finalized with exactly `data`. */
  predicate Reopens(w: World, step: Step, n: nat, id: string, data: Bytes) {
    && step.Touch? && step.id == id && step.zone < |CopiesOf(w, n, id)|
    && E.Sealed(CopiesOf(w, n, id)[step.zone], data) && E.ServedReplace(CopiesOf(w, n, id)[step.zone], step.request)
  }

  /** No step of the run reopens a copy finalized with these bytes. */
  ghost predicate NeverReopened(n: nat, steps: seq<Step>, trace: seq<World>, id: string, data: Bytes)
    requires |steps| < |trace|
  {
    forall k :: 0 <= k < |steps| ==> !Reopens(trace[k], steps[k], n, id, data)
  }

  /** The same for every entry the directory ever shows during the run. */
  ghost predicate NoFoldedReopened(n: nat, steps: seq<Step>, trace: seq<World>, content: Content)
    requires |steps| < |trace|
  {
    forall t, id, crc32c :: 0 <= t < |trace| && InDirectory(trace[t].gate.record, id, crc32c) ==>
      NeverReopened(n, steps, trace, id, content(id, crc32c))
  }

  ghost predicate OnceIsNow(w: World, n: nat, id: string, data: Bytes) {
    ZonesOnce(w, n, id, data) <= SealedZones(w, n, id, data)
  }

  lemma TouchKeepsSealed(w: World, n: nat, id: string, data: Bytes, touch: Step, v: World)
    requires OnceIsNow(w, n, id, data) && touch.Touch? && !touch.request.Delete?
    requires touch.zone < |CopiesOf(w, n, touch.id)| == n
    requires v == AfterTouch(w, n, touch.id, touch.zone, touch.request) && !Reopens(w, touch, n, id, data)
    ensures OnceIsNow(v, n, id, data)
  {
    forall z: nat | z in ZonesOnce(v, n, id, data) ensures z in SealedZones(v, n, id, data) {
      if (id, z, data) in w.sealedOnce {
        assert z in ZonesOnce(w, n, id, data);
        if touch.id == id && touch.zone == z {
          E.ReopensExactlyWhenGuardSawSeal(CopiesOf(w, n, id)[z], touch.request, data);
        }
      }
    }
  }

  /** Copies finalized with bytes no replace ever hits stay finalized. */
  lemma {:induction false} UnreopenedStaysSealed(buckets: seq<string>, procs: nat, n: nat, steps: seq<Step>,
                                                 trace: seq<World>,
                                                 content: Content, maxBytes: nat, id: string, data: Bytes, t: nat)
    requires IsRun(buckets, procs, n, steps, trace, content, maxBytes) && t < |trace|
    requires NeverReopened(n, steps, trace, id, data)
    ensures OnceIsNow(trace[t], n, id, data)
  {
    hide G.Next, G.Enabled, Reopens, AfterTouch;
    if t > 0 {
      UnreopenedStaysSealed(buckets, procs, n, steps, trace, content, maxBytes, id, data, t - 1);
      assert StepOk(trace[t - 1], steps[t - 1], trace[t], n, content, maxBytes);
      if steps[t - 1].Touch? {
        TouchKeepsSealed(trace[t - 1], n, id, data, steps[t - 1], trace[t]);
      }
    }
  }

  /**
   At most one unenforced seal, on the copies: if no replace of the run hits a copy
   finalized with bytes the directory records for its segment, then in every state
   every entry but the seal record's is finalized on a majority now or below the floor.
   */
  lemma GateHoldsUnreopened(buckets: seq<string>, procs: nat, n: nat, steps: seq<Step>, trace: seq<World>,
                            content: Content, maxBytes: nat, t: nat)
    requires IsRun(buckets, procs, n, steps, trace, content, maxBytes) && t < |trace|
    requires NoFoldedReopened(n, steps, trace, content)
    ensures GateHolds(trace[t], n, content)
  {
    hide IsRun, OnceOnMajority, OnMajority, NeverReopened;
    var r := trace[t].gate.record;
    forall i: nat | i < |r.segments| ensures EntryOk(trace[t], n, content, i) {
      var e := r.segments[i];
      EveryOtherEntryWasSealed(buckets, procs, n, steps, trace, content, maxBytes, t, i);
      assert InDirectory(r, e.id, e.crc32c);
      UnreopenedStaysSealed(buckets, procs, n, steps, trace, content, maxBytes, e.id, content(e.id, e.crc32c), t);
      OnceNowOnMajority(trace[t], n, e.id, content(e.id, e.crc32c));
    }
  }

  lemma OnceNowOnMajority(w: World, n: nat, id: string, data: Bytes)
    requires OnceIsNow(w, n, id, data)
    ensures OnceOnMajority(w, n, id, data) ==> OnMajority(w, n, id, data)
  {
    SubsetSize(ZonesOnce(w, n, id, data), SealedZones(w, n, id, data));
  }

  // ------------------------------------------------ exactly when it breaks

  /** The replace leaves a settled entry above the floor one sealed copy short of a majority. */
  predicate LosesMajority(w: World, step: Step, n: nat, content: Content, i: nat)
    requires i < |w.gate.record.segments|
  {
    var r := w.gate.record;
    var e := r.segments[i];
    && r.sealId != Some(e.id) && r.trunc < M.NextBase(r, i)
    && Reopens(w, step, n, e.id, content(e.id, e.crc32c))
    && |SealedZones(w, n, e.id, content(e.id, e.crc32c))| == Majority(n)
  }

  /** The seal record moves on although the entry it named is not settled now. */
  predicate LeavesUnsettled(w: World, v: World, n: nat, content: Content, i: nat)
    requires i < |w.gate.record.segments|
  {
    var r := w.gate.record;
    r.sealId == Some(r.segments[i].id) && v.gate.record.sealId != r.sealId && !SettledNow(w, n, content, i)
  }

  ghost predicate Breaks(w: World, step: Step, v: World, n: nat, content: Content) {
    match step
    case Gate(_) => exists i :: 0 <= i < |w.gate.record.segments| && LeavesUnsettled(w, v, n, content, i)
    case Touch(_, _, _) => exists i :: 0 <= i < |w.gate.record.segments| && LosesMajority(w, step, n, content, i)
  }

  /** One touch: a sealed copy is lost exactly by a replace that was guarded by it. */
  lemma TouchedZones(w: World, n: nat, touch: Step, v: World, id: string, data: Bytes)
    requires touch.Touch? && !touch.request.Delete? && touch.zone < |CopiesOf(w, n, touch.id)|
    requires v == AfterTouch(w, n, touch.id, touch.zone, touch.request)
    ensures Reopens(w, touch, n, id, data) ==> SealedZones(v, n, id, data) == SealedZones(w, n, id, data) - {touch.zone}
    ensures Reopens(w, touch, n, id, data) ==> touch.zone in SealedZones(w, n, id, data)
    ensures !Reopens(w, touch, n, id, data) ==> SealedZones(w, n, id, data) <= SealedZones(v, n, id, data)
  {
    if touch.id == id && E.Sealed(CopiesOf(w, n, id)[touch.zone], data) {
      E.ReopensExactlyWhenGuardSawSeal(CopiesOf(w, n, id)[touch.zone], touch.request, data);
    }
  }

  lemma TouchedMajority(w: World, n: nat, touch: Step, v: World, id: string, data: Bytes)
    requires touch.Touch? && !touch.request.Delete? && touch.zone < |CopiesOf(w, n, touch.id)|
    requires OnMajority(w, n, id, data)
    requires v == AfterTouch(w, n, touch.id, touch.zone, touch.request)
    ensures OnMajority(v, n, id, data) <==>
            !(Reopens(w, touch, n, id, data) && |SealedZones(w, n, id, data)| == Majority(n))
  {
    TouchedZones(w, n, touch, v, id, data);
    hide Reopens, AfterTouch;
    if !Reopens(w, touch, n, id, data) { SubsetSize(SealedZones(w, n, id, data), SealedZones(v, n, id, data)); }
  }

  lemma TouchBreaks(w: World, n: nat, content: Content, touch: Step, v: World)
    requires touch.Touch? && !touch.request.Delete? && touch.zone < |CopiesOf(w, n, touch.id)|
    requires GateHolds(w, n, content)
    requires v == AfterTouch(w, n, touch.id, touch.zone, touch.request)
    ensures GateHolds(v, n, content) <==> !Breaks(w, touch, v, n, content)
  {
    var r := w.gate.record;
    assert v.gate == w.gate;
    hide Reopens, AfterTouch, OnMajority, SealedZones;
    forall i: nat | i < |r.segments| ensures EntryOk(v, n, content, i) <==> !LosesMajority(w, touch, n, content, i) {
      var e := r.segments[i];
      var data := content(e.id, e.crc32c);
      assert EntryOk(w, n, content, i);
      if OnMajority(w, n, e.id, data) {
        TouchedMajority(w, n, touch, v, e.id, data);
      } else {
        SealedCount(w, n, e.id, data);
      }
    }
  }

  lemma SealedCount(w: World, n: nat, id: string, data: Bytes)
    ensures !OnMajority(w, n, id, data) ==> |SealedZones(w, n, id, data)| != Majority(n)
  {
  }

  /** The operation behind a change of the register. */
  lemma RecordChange(w: G.World, step: G.Step, maxBytes: nat) returns (op: M.Op)
    requires G.Enabled(w, step, maxBytes)
    ensures var s := G.Next(w, step, maxBytes).record; s == w.record || M.Commits(op, w.record, s, maxBytes)
  {
    hide M.ApplyOp, M.Valid;
    match step {
      case ClaimEpoch(_, owner) => op := M.Claim(owner);
      case RecoveryFold(p, fold) => op := M.FoldPending(w.procs[p].epoch, w.procs[p].owner, fold);
      case OtherOp(other) => op := other;
      case Fold(p, _) => op := M.FoldPending(w.procs[p].epoch, w.procs[p].owner, w.procs[p].rotation.fold);
      case _ => op := M.Claim("");
    }
  }

  /** A committed fold appends one entry, which the new seal record names and no older entry does. */
  lemma FoldShape(op: M.Op, r: M.Record, s: M.Record, maxBytes: nat)
    requires op.FoldPending? && M.Valid(r) && M.Commits(op, r, s, maxBytes)
    ensures |s.segments| == |r.segments| + 1 && s.trunc == r.trunc && s.sealId == Some(s.segments[|r.segments|].id)
    ensures forall i :: 0 <= i < |r.segments| ==>
              s.segments[i] == r.segments[i] && M.NextBase(s, i) == M.NextBase(r, i) &&
              s.sealId != Some(s.segments[i].id)
  {
  }

  lemma FoldBreaks(w: World, v: World, n: nat, content: Content, op: M.Op, maxBytes: nat)
    requires op.FoldPending? && M.Valid(w.gate.record) && M.Commits(op, w.gate.record, v.gate.record, maxBytes)
    requires v.copies == w.copies && GateHolds(w, n, content)
    ensures GateHolds(v, n, content) <==>
            !exists i :: 0 <= i < |w.gate.record.segments| && LeavesUnsettled(w, v, n, content, i)
  {
    var r, s := w.gate.record, v.gate.record;
    FoldShape(op, r, s, maxBytes);
    hide M.Valid, M.Commits, OnMajority;
    SameCopies(w, v, n);
    forall i: nat | i < |r.segments| ensures EntryOk(v, n, content, i) <==> !LeavesUnsettled(w, v, n, content, i) {
      assert EntryOk(w, n, content, i);
      assert s.segments[i] == r.segments[i];
    }
    assert EntryOk(v, n, content, |r.segments|);
  }

  lemma SameCopies(w: World, v: World, n: nat)
    requires v.copies == w.copies
    ensures forall id, data :: OnMajority(v, n, id, data) == OnMajority(w, n, id, data)
  {
    forall id, data ensures OnMajority(v, n, id, data) == OnMajority(w, n, id, data) {
      assert CopiesOf(v, n, id) == CopiesOf(w, n, id);
    }
  }

  lemma OtherKeeps(w: World, v: World, n: nat, content: Content, op: M.Op, maxBytes: nat)
    requires !op.FoldPending? && M.Valid(w.gate.record) && M.Commits(op, w.gate.record, v.gate.record, maxBytes)
    requires v.copies == w.copies && GateHolds(w, n, content)
    ensures GateHolds(v, n, content) && v.gate.record.sealId == w.gate.record.sealId
  {
    var r, s := w.gate.record, v.gate.record;
    G.OtherOpInherits(op, r, s, maxBytes);
    hide M.Valid, M.Commits, OnMajority;
    SameCopies(w, v, n);
    forall i: nat | i < |s.segments| ensures EntryOk(v, n, content, i) {
      assert G.InheritedAt(r, s, i);
      var k: nat :| k < |r.segments| && G.SameEntry(r, k, s, i);
      assert EntryOk(w, n, content, k);
    }
  }

  /**
   Exactly which steps break the gate: a replace guarded by a copy that is finalized
   with an entry's bytes, when that entry has no sealed copy to spare, and a fold that
   moves the seal record off an entry whose copies are not all sealed.
   */
  lemma BreaksExactly(w: World, step: Step, v: World, n: nat, content: Content, maxBytes: nat)
    requires Inv(w, n, content) && StepOk(w, step, v, n, content, maxBytes) && GateHolds(w, n, content)
    ensures GateHolds(v, n, content) <==> !Breaks(w, step, v, n, content)
  {
    match step {
      case Touch(_, _, _) => TouchBreaks(w, n, content, step, v);
      case Gate(s) =>
        var op := RecordChange(w.gate, s, maxBytes);
        assert M.Valid(w.gate.record);
        hide Inv, G.Next, G.Enabled, GateHolds, M.Valid, M.Commits;
        if v.gate.record == w.gate.record {
          SameRecord(w, v, n, content);
        } else if op.FoldPending? {
          FoldBreaks(w, v, n, content, op, maxBytes);
        } else {
          OtherKeeps(w, v, n, content, op, maxBytes);
        }
    }
  }

  lemma SameRecord(w: World, v: World, n: nat, content: Content)
    requires v.copies == w.copies && v.gate.record == w.gate.record && GateHolds(w, n, content)
    ensures GateHolds(v, n, content)
  {
    SameCopies(w, v, n);
    hide OnMajority;
    forall i: nat | i < |v.gate.record.segments| ensures EntryOk(v, n, content, i) {
      assert EntryOk(w, n, content, i);
    }
  }

  ghost predicate Unbroken(n: nat, steps: seq<Step>, trace: seq<World>, content: Content, t: nat)
    requires t <= |steps| < |trace|
  {
    forall k :: 0 <= k < t ==> !Breaks(trace[k], steps[k], trace[k + 1], n, content)
  }

  ghost predicate HoldsUpTo(n: nat, trace: seq<World>, content: Content, t: nat)
    requires t < |trace|
  {
    forall k :: 0 <= k <= t ==> GateHolds(trace[k], n, content)
  }

  /** The gate holds on the copies throughout a run if and only if no step of the run breaks it. */
  lemma {:induction false} GateHoldsExactly(buckets: seq<string>, procs: nat, n: nat, steps: seq<Step>,
                                            trace: seq<World>, content: Content, maxBytes: nat, t: nat)
    requires IsRun(buckets, procs, n, steps, trace, content, maxBytes) && t < |trace|
    ensures HoldsUpTo(n, trace, content, t) <==> Unbroken(n, steps, trace, content, t)
  {
    hide StepOk, Breaks, Inv, GateHolds;
    if t == 0 {
      InitiallyHolds(buckets, trace[0], n, content);
    } else {
      GateHoldsExactly(buckets, procs, n, steps, trace, content, maxBytes, t - 1);
      if HoldsUpTo(n, trace, content, t - 1) {
        RunKeepsInv(buckets, procs, n, steps, trace, content, maxBytes, t - 1);
        assert StepOk(trace[t - 1], steps[t - 1], trace[t], n, content, maxBytes);
        assert GateHolds(trace[t - 1], n, content);
        BreaksExactly(trace[t - 1], steps[t - 1], trace[t], n, content, maxBytes);
      }
    }
  }

  lemma InitiallyHolds(buckets: seq<string>, w: World, n: nat, content: Content)
    requires w.gate.record == M.Initial(buckets)
    ensures GateHolds(w, n, content)
  {
  }

  // --------------------------------------------------- what enforcers can check

  /** The requests one copy sees; any other step does nothing to it. */
  function Local(steps: seq<Step>, id: string, zone: nat): seq<Request> {
    seq(|steps|, k requires 0 <= k < |steps| =>
      if steps[k].Touch? && steps[k].id == id && steps[k].zone == zone then steps[k].request else Resume(None))
  }

  function Column(trace: seq<World>, n: nat, id: string, zone: nat): seq<Disk>
    requires forall k :: 0 <= k < |trace| ==> zone < |CopiesOf(trace[k], n, id)|
  {
    seq(|trace|, k requires 0 <= k < |trace| => CopiesOf(trace[k], n, id)[zone])
  }

  lemma CopiesDefined(buckets: seq<string>, procs: nat, n: nat, steps: seq<Step>, trace: seq<World>, content: Content,
                      maxBytes: nat, id: string)
    requires IsRun(buckets, procs, n, steps, trace, content, maxBytes)
    ensures forall k :: 0 <= k < |trace| ==> |CopiesOf(trace[k], n, id)| == n
  {
    forall k | 0 <= k < |trace| ensures |CopiesOf(trace[k], n, id)| == n {
      RunKeepsInv(buckets, procs, n, steps, trace, content, maxBytes, k);
    }
  }

  lemma ColumnIsRun(buckets: seq<string>, procs: nat, n: nat, steps: seq<Step>, trace: seq<World>, content: Content,
                    maxBytes: nat, id: string, zone: nat)
    requires IsRun(buckets, procs, n, steps, trace, content, maxBytes) && zone < n
    requires forall k :: 0 <= k < |trace| ==> |CopiesOf(trace[k], n, id)| == n
    ensures Replica.IsRun(Local(steps, id, zone), Column(trace, n, id, zone)) && E.Sound(Column(trace, n, id, zone)[0])
  {
    hide G.Next, G.Enabled;
    var requests, column := Local(steps, id, zone), Column(trace, n, id, zone);
    forall k | 0 <= k < |requests| ensures column[k + 1] == After(column[k], requests[k]) {
      assert StepOk(trace[k], steps[k], trace[k + 1], n, content, maxBytes);
    }
  }

  /** The replace at step `k` was guarded by a look at the copy when it was not finalized with `data`. */
  ghost predicate SawUnsealed(n: nat, steps: seq<Step>, trace: seq<World>, id: string, data: Bytes, k: nat)
    requires k < |steps| < |trace|
  {
    steps[k].Touch? && steps[k].id == id && steps[k].request.Replace? && steps[k].request.observed.Some? ==>
      exists s :: 0 <= s <= k && LookedAt(trace[s], n, steps[k], id, data)
  }

  predicate LookedAt(w: World, n: nat, step: Step, id: string, data: Bytes) {
    && step.Touch? && step.request.Replace? && step.zone < |CopiesOf(w, n, id)|
    && E.Guard(CopiesOf(w, n, id)[step.zone].slot) == step.request.observed
    && !E.Sealed(CopiesOf(w, n, id)[step.zone], data)
  }

  /** What an enforcer can see to: if every replace looked at a copy without the recorded bytes, nothing is reopened. */
  lemma LookingSuffices(buckets: seq<string>, procs: nat, n: nat, steps: seq<Step>, trace: seq<World>, content: Content,
                        maxBytes: nat, id: string, data: Bytes)
    requires IsRun(buckets, procs, n, steps, trace, content, maxBytes)
    requires forall k :: 0 <= k < |steps| ==> SawUnsealed(n, steps, trace, id, data, k)
    ensures NeverReopened(n, steps, trace, id, data)
  {
    CopiesDefined(buckets, procs, n, steps, trace, content, maxBytes, id);
    forall k | 0 <= k < |steps| ensures !Reopens(trace[k], steps[k], n, id, data) {
      if Reopens(trace[k], steps[k], n, id, data) {
        assert SawUnsealed(n, steps, trace, id, data, k);
        LookDidNotMatch(buckets, procs, n, steps, trace, content, maxBytes, id, data, k);
      }
    }
  }

  lemma LookDidNotMatch(buckets: seq<string>, procs: nat, n: nat, steps: seq<Step>, trace: seq<World>, content: Content,
                        maxBytes: nat, id: string, data: Bytes, k: nat)
    requires IsRun(buckets, procs, n, steps, trace, content, maxBytes) && k < |steps|
    requires forall t :: 0 <= t < |trace| ==> |CopiesOf(trace[t], n, id)| == n
    ensures Reopens(trace[k], steps[k], n, id, data) ==> !SawUnsealed(n, steps, trace, id, data, k)
  {
    if Reopens(trace[k], steps[k], n, id, data) {
      var zone := steps[k].zone;
      ColumnIsRun(buckets, procs, n, steps, trace, content, maxBytes, id, zone);
      var requests, column := Local(steps, id, zone), Column(trace, n, id, zone);
      forall s | 0 <= s <= k ensures !LookedAt(trace[s], n, steps[k], id, data) {
        if E.Guard(column[s].slot) == E.Guard(column[k].slot) {
          E.GuardOfSealSawSeal(requests, column, data, k, s);
        }
      }
    }
  }

  // ------------------------------------------------------- enforcers that are late

  /**
   A superseded enforcer of the same decision, after the register moved on: its retry
   re-reads a copy others sealed and replaces it. Wherever an entry other than the
   seal record's has no sealed copy to spare, that breaks the gate.
   */
  lemma LateRetryBreaksGate(w: World, n: nat, content: Content, maxBytes: nat, i: nat, zone: nat) returns (v: World)
    requires Inv(w, n, content) && GateHolds(w, n, content) && i < |w.gate.record.segments|
    requires var r := w.gate.record; r.sealId != Some(r.segments[i].id) && r.trunc < M.NextBase(r, i)
    requires var e := w.gate.record.segments[i]; var data := content(e.id, e.crc32c);
             zone in SealedZones(w, n, e.id, data) && |SealedZones(w, n, e.id, data)| == Majority(n)
    ensures var e := w.gate.record.segments[i]; var data := content(e.id, e.crc32c);
            var late := Touch(e.id, zone, Replace(E.Guard(CopiesOf(w, n, e.id)[zone].slot), data));
            StepOk(w, late, v, n, content, maxBytes) && !GateHolds(v, n, content) && v.gate == w.gate
  {
    var e := w.gate.record.segments[i];
    var data := content(e.id, e.crc32c);
    var late := Touch(e.id, zone, Replace(E.Guard(CopiesOf(w, n, e.id)[zone].slot), data));
    assert |CopiesOf(w, n, e.id)| == n;
    v := AfterTouch(w, n, e.id, zone, late.request);
    assert Reopens(w, late, n, e.id, data);
    assert LosesMajority(w, late, n, content, i);
    TouchBreaks(w, n, content, late, v);
  }
}
