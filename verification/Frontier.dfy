/**
 Recovery's walk over the write frontier: the old tail, then the pending segment
 the dead writer may have swapped to. What it replays, which seals it enforces
 and folds, and when it discards the pending segment.
 */
module Frontier {
  import opened Wrappers
  import opened Records
  import opened Recovery
  import S = SegmentRuns

  /** A segment the walk names: the adopted ones, or a freshly minted one. */
  datatype Slot = OldTail | OldPending | Fresh(k: nat)

  /** Durable steps of the walk, in order. A fold consumes the register's pending slot and refills it. */
  datatype WalkStep =
    | ReplaceFrontier(active: Slot, pending: Slot)
    | Register(pending: Slot)
    | Enforce(which: Slot)
    | Fold(folded: Slot, consumed: Slot, successor: Slot, refill: Slot)

  /** Where the new writer starts: its segment, its spare, and whether the old tail's fold is left to it. */
  datatype Frontier = Frontier(
    predecessors: seq<RecoveredTail>,
    steps: seq<WalkStep>,
    active: Slot,
    spare: Slot,
    deferredFold: bool,
    discardedPending: bool)

  datatype FrontierError = PendingAfterEmptyTail | PendingAbsent

  /** Nothing to keep: two fresh segments take the places of the old ones. */
  function FreshPair(): Frontier {
    Frontier([], [ReplaceFrontier(Fresh(0), Fresh(1))], Fresh(0), Fresh(1), false, false)
  }

  /** No non-empty tail: keep it if every copy can be reopened, else start a fresh pair. */
  function PlanEmptyTail(tail: RecoveryCandidate, pending: Option<RecoveryCandidate>): Result<Frontier, FrontierError>
    requires !tail.NonEmpty?
  {
    if tail != Empty(true) then Ok(FreshPair())
    else
      match pending
      case None => Ok(Frontier([], [Register(Fresh(0))], OldTail, Fresh(0), false, false))
      case Some(NonEmpty(_)) => Err(PendingAfterEmptyTail)
      case Some(candidate) =>
        if candidate == Empty(true) then Ok(Frontier([], [], OldTail, OldPending, false, false))
        else Ok(FreshPair())
  }

  /** A non-empty tail is sealed; a non-empty pending one is sealed too unless it lies above a proven gap. */
  function PlanFullTail(tail: RecoveredTail, pending: Option<RecoveryCandidate>): Result<Frontier, FrontierError> {
    match pending
    case None => Ok(Frontier([tail], [Register(Fresh(0)), Enforce(OldTail)], Fresh(0), Fresh(1), true, false))
    case Some(Absent) => Err(PendingAbsent)
    case Some(Empty(reusable)) =>
      if reusable then Ok(Frontier([tail], [Enforce(OldTail)], OldPending, Fresh(0), true, false))
      else
        var fold := Fold(OldTail, OldPending, Fresh(0), Fresh(1));
        Ok(Frontier([tail], [Enforce(OldTail), fold], Fresh(0), Fresh(1), false, false))
    case Some(NonEmpty(later)) =>
      if tail.hadDiscardedSuffix then
        var fold := Fold(OldTail, OldPending, Fresh(0), Fresh(1));
        Ok(Frontier([tail], [fold, Enforce(OldTail)], Fresh(0), Fresh(1), false, true))
      else
        var first, second := Fold(OldTail, OldPending, OldPending, Fresh(0)),
                             Fold(OldPending, Fresh(0), Fresh(0), Fresh(1));
        Ok(Frontier([tail, later], [Enforce(OldPending), Enforce(OldTail), first, Enforce(OldPending), second],
                    Fresh(0), Fresh(1), false, false))
  }

  /** The whole table; a register just initialized by this claim has nothing to recover. */
  function Plan(bootstrap: bool, tail: RecoveryCandidate,
                pending: Option<RecoveryCandidate>): Result<Frontier, FrontierError> {
    if bootstrap && pending.None? then Ok(Frontier([], [Register(Fresh(0))], OldTail, Fresh(0), false, false))
    else
      match tail
      case NonEmpty(full) => PlanFullTail(full, pending)
      case _ => PlanEmptyTail(tail, pending)
  }

  /**
   The walk as recovery runs it: tail first, then pending, updating what it found so far;
   opening the writer then mints a spare if the walk left none.
   */
  method WalkFrontier(bootstrap: bool, tail: RecoveryCandidate, pending: Option<RecoveryCandidate>)
    returns (r: Result<Frontier, FrontierError>)
    ensures r == Plan(bootstrap, tail, pending)
    ensures r.Ok? ==> Gated(r.value.steps) && AllFoldedEnforced(r.value.steps)
    ensures r.Ok? ==> Chooses(bootstrap, tail, pending, r.value)
    ensures r.Ok? ==> Replayed(r.value.predecessors) == Kept(bootstrap, tail, pending)
    ensures r == Err(PendingAfterEmptyTail) <==> tail == Empty(true) && pending.Some? && pending.value.NonEmpty?
    ensures r == Err(PendingAbsent) <==> tail.NonEmpty? && pending == Some(Absent)
  {
    PlanMeans(bootstrap, tail, pending);
    hide Chooses, Gated, AllFoldedEnforced, Replayed, Kept;
    var minted := 0;
    var active: Option<Slot>, spare: Option<Slot> := None, None;
    var pendingFold, discarded := false, false;
    var steps: seq<WalkStep> := [];
    var predecessors: seq<RecoveredTail> := [];
    if bootstrap && pending.None? {
      active := Some(OldTail);
    } else {
      match tail {
        case Empty(reusable) =>
          if reusable {
            active := Some(OldTail);
          } else {
            steps, active, spare := [ReplaceFrontier(Fresh(0), Fresh(1))], Some(Fresh(0)), Some(Fresh(1));
            minted := 2;
          }
        case Absent =>
          steps, active, spare := [ReplaceFrontier(Fresh(0), Fresh(1))], Some(Fresh(0)), Some(Fresh(1));
          minted := 2;
        case NonEmpty(full) => predecessors := [full];
      }
    }
    if active.Some? {
      if spare.None? && !(bootstrap && pending.None?) {
        match pending {
          case None => steps, spare, minted := [Register(Fresh(0))], Some(Fresh(0)), 1;
          case Some(NonEmpty(_)) => return Err(PendingAfterEmptyTail);
          case Some(candidate) =>
            if candidate == Empty(true) {
              spare := Some(OldPending);
            } else {
              steps, active, spare := [ReplaceFrontier(Fresh(0), Fresh(1))], Some(Fresh(0)), Some(Fresh(1));
              minted := 2;
            }
        }
      }
    } else {
      match pending {
        case None =>
          steps, active, minted := [Register(Fresh(0)), Enforce(OldTail)], Some(Fresh(0)), 1;
          pendingFold := true;
        case Some(Absent) => return Err(PendingAbsent);
        case Some(Empty(reusable)) =>
          steps := [Enforce(OldTail)];
          if reusable {
            active, pendingFold := Some(OldPending), true;
          } else {
            steps := steps + [Fold(OldTail, OldPending, Fresh(0), Fresh(1))];
            active, spare, minted := Some(Fresh(0)), Some(Fresh(1)), 2;
            assert steps == [Enforce(OldTail), Fold(OldTail, OldPending, Fresh(0), Fresh(1))];
          }
        case Some(NonEmpty(later)) =>
          if predecessors[0].hadDiscardedSuffix {
            steps := [Fold(OldTail, OldPending, Fresh(0), Fresh(1)), Enforce(OldTail)];
            active, spare, minted, discarded := Some(Fresh(0)), Some(Fresh(1)), 2, true;
          } else {
            steps := [Enforce(OldPending)];
            predecessors := predecessors + [later];
            steps := steps + [Enforce(OldTail), Fold(OldTail, OldPending, OldPending, Fresh(0))];
            steps := steps + [Enforce(OldPending), Fold(OldPending, Fresh(0), Fresh(0), Fresh(1))];
            active, spare, minted := Some(Fresh(0)), Some(Fresh(1)), 2;
            assert predecessors == [tail.tail, later];
            assert steps == [Enforce(OldPending), Enforce(OldTail), Fold(OldTail, OldPending, OldPending, Fresh(0)),
                             Enforce(OldPending), Fold(OldPending, Fresh(0), Fresh(0), Fresh(1))];
          }
      }
    }
    if spare.None? {
      spare := Some(Fresh(minted));
      if !pendingFold {
        steps := steps + [Register(Fresh(minted))];
        assert steps == [Register(Fresh(0))];
      }
    }
    r := Ok(Frontier(predecessors, steps, active.value, spare.value, pendingFold, discarded));
  }

  // -------------------------------------------------- what the walk chooses

  /** The pending segment needs no replacement: there is none yet, or all its copies can be reopened. */
  predicate KeepsPending(pending: Option<RecoveryCandidate>) {
    pending.None? || pending == Some(Empty(true))
  }

  predicate Bootstraps(bootstrap: bool, pending: Option<RecoveryCandidate>) { bootstrap && pending.None? }

  predicate FoldsAt(steps: seq<WalkStep>, k: nat, which: Slot) {
    k < |steps| && steps[k].Fold? && steps[k].folded == which
  }

  ghost predicate FoldedNever(steps: seq<WalkStep>, which: Slot) {
    forall k: nat :: !FoldsAt(steps, k, which)
  }

  ghost predicate FoldedOnce(steps: seq<WalkStep>, which: Slot) {
    exists k: nat :: FoldsAt(steps, k, which) && forall l: nat :: FoldsAt(steps, l, which) ==> l == k
  }

  /** The choices, from what was recovered of the two segments. */
  ghost predicate Chooses(bootstrap: bool, tail: RecoveryCandidate, pending: Option<RecoveryCandidate>, f: Frontier) {
    var first := Bootstraps(bootstrap, pending);
    && (f.deferredFold <==> !first && tail.NonEmpty? && KeepsPending(pending))
    && (f.active == OldTail <==> first || (tail == Empty(true) && KeepsPending(pending)))
    && (f.active == OldPending <==> tail.NonEmpty? && pending == Some(Empty(true)))
    && (f.discardedPending <==> GapBelowPending(tail, pending))
    && (if f.predecessors != [] && !f.deferredFold then FoldedOnce(f.steps, OldTail) else FoldedNever(f.steps, OldTail))
    && (if |f.predecessors| == 2 then FoldedOnce(f.steps, OldPending) else FoldedNever(f.steps, OldPending))
    && ((exists k :: 0 <= k < |f.steps| && f.steps[k].Register?) <==>
          pending.None? && (first || tail.NonEmpty? || tail == Empty(true)))
    && ((exists k :: 0 <= k < |f.steps| && f.steps[k].ReplaceFrontier?) <==>
          f.active != OldTail && f.predecessors == [])
  }

  lemma PlanChooses(bootstrap: bool, tail: RecoveryCandidate, pending: Option<RecoveryCandidate>)
    requires Plan(bootstrap, tail, pending).Ok?
    ensures Chooses(bootstrap, tail, pending, Plan(bootstrap, tail, pending).value)
  {
    var f := Plan(bootstrap, tail, pending).value;
    PlanFolds(bootstrap, tail, pending);
    hide FoldedOnce, FoldedNever;
    assert |f.steps| > 0 ==> f.steps[0] in f.steps;
  }

  /** Every predecessor is folded exactly once, by the walk or by the deferred fold, and nothing else is. */
  lemma PlanFolds(bootstrap: bool, tail: RecoveryCandidate, pending: Option<RecoveryCandidate>)
    requires Plan(bootstrap, tail, pending).Ok?
    ensures var f := Plan(bootstrap, tail, pending).value;
            && (if f.predecessors != [] && !f.deferredFold then FoldedOnce(f.steps, OldTail)
                else FoldedNever(f.steps, OldTail))
            && (if |f.predecessors| == 2 then FoldedOnce(f.steps, OldPending) else FoldedNever(f.steps, OldPending))
  {
    var f := Plan(bootstrap, tail, pending).value;
    if |f.predecessors| == 2 {
      TwoFolds(f.steps);
    } else if f.predecessors != [] && !f.deferredFold {
      OneFold(f.steps);
    }
  }

  lemma OneFold(steps: seq<WalkStep>)
    requires |steps| == 2 && (steps[0].Enforce? || steps[1].Enforce?)
    requires FoldsAt(steps, 0, OldTail) || FoldsAt(steps, 1, OldTail)
    ensures FoldedOnce(steps, OldTail) && FoldedNever(steps, OldPending)
  {
    if steps[0].Fold? {
      forall l: nat ensures FoldsAt(steps, l, OldTail) ==> l == 0 {}
    } else {
      forall l: nat ensures FoldsAt(steps, l, OldTail) ==> l == 1 {}
    }
    forall l: nat ensures !FoldsAt(steps, l, OldPending) {}
  }

  lemma FoldedOnlyAt(steps: seq<WalkStep>, k: nat, which: Slot)
    requires FoldsAt(steps, k, which)
    requires forall l :: 0 <= l < |steps| && l != k && steps[l].Fold? ==> steps[l].folded != which
    ensures FoldedOnce(steps, which)
  {
    forall l: nat | FoldsAt(steps, l, which) ensures l == k {}
  }

  lemma TwoFolds(steps: seq<WalkStep>)
    requires |steps| == 5 && steps[0].Enforce? && steps[1].Enforce? && steps[3].Enforce?
    requires FoldsAt(steps, 2, OldTail) && FoldsAt(steps, 4, OldPending)
    ensures FoldedOnce(steps, OldTail) && FoldedOnce(steps, OldPending)
  {
    FoldedOnlyAt(steps, 2, OldTail);
    FoldedOnlyAt(steps, 4, OldPending);
  }

  // ------------------------------------------------------------- seal order

  ghost predicate EnforcedBefore(steps: seq<WalkStep>, k: nat, which: Slot)
    requires k <= |steps|
  {
    exists j :: 0 <= j < k && steps[j] == Enforce(which)
  }

  /** No fold replaces the seal record of a segment that was folded but not enforced. */
  ghost predicate Gated(steps: seq<WalkStep>) {
    forall k, l :: 0 <= k < l < |steps| && steps[k].Fold? && steps[l].Fold? ==>
      EnforcedBefore(steps, l, steps[k].folded)
  }

  ghost predicate AllFoldedEnforced(steps: seq<WalkStep>) {
    forall k :: 0 <= k < |steps| && steps[k].Fold? ==> EnforcedBefore(steps, |steps|, steps[k].folded)
  }

  /** A non-empty pending segment above a tail of which bytes beyond the recovered records were seen. */
  predicate GapBelowPending(tail: RecoveryCandidate, pending: Option<RecoveryCandidate>) {
    tail.NonEmpty? && tail.tail.hadDiscardedSuffix && pending.Some? && pending.value.NonEmpty?
  }

  /** What the walk must replay: the tail's records, then the pending segment's unless it lies above a gap. */
  function Kept(bootstrap: bool, tail: RecoveryCandidate, pending: Option<RecoveryCandidate>): seq<Bytes> {
    if !tail.NonEmpty? || Bootstraps(bootstrap, pending) then []
    else if pending.None? || !pending.value.NonEmpty? ||
      GapBelowPending(tail, pending) then CompleteRecords(tail.tail.canonical)
    else CompleteRecords(tail.tail.canonical) + CompleteRecords(pending.value.tail.canonical)
  }

  lemma PlanMeans(bootstrap: bool, tail: RecoveryCandidate, pending: Option<RecoveryCandidate>)
    ensures var r := Plan(bootstrap, tail, pending);
            && (r.Ok? ==> Gated(r.value.steps) && AllFoldedEnforced(r.value.steps))
            && (r.Ok? ==> Chooses(bootstrap, tail, pending, r.value))
            && (r.Ok? ==> Replayed(r.value.predecessors) == Kept(bootstrap, tail, pending))
  {
    hide CompleteRecords, Chooses;
    var r := Plan(bootstrap, tail, pending);
    if r.Ok? {
      WalkKeepsSealGate(bootstrap, tail, pending, r.value);
      PlanChooses(bootstrap, tail, pending);
    }
    if tail.NonEmpty? {
      OneRecovered(tail.tail);
      if pending.Some? && pending.value.NonEmpty? { TwoRecovered(tail.tail, pending.value.tail); }
    }
  }

  /**
   The walk keeps the seal gate: at most one fold outruns its seal, a deferred fold
   never does, and when the walk ends every segment it folded is enforced.
   */
  lemma WalkKeepsSealGate(bootstrap: bool, tail: RecoveryCandidate, pending: Option<RecoveryCandidate>, f: Frontier)
    requires Plan(bootstrap, tail, pending) == Ok(f)
    ensures Gated(f.steps) && AllFoldedEnforced(f.steps)
    ensures f.deferredFold ==> EnforcedBefore(f.steps, |f.steps|, OldTail) && |f.predecessors| == 1
  {
    assert forall j :: 0 <= j < |f.steps| && f.steps[j].Enforce? ==>
             EnforcedBefore(f.steps, |f.steps|, f.steps[j].which);
    if |f.steps| == 5 {
      assert f.steps[1] == Enforce(OldTail) && f.steps[3] == Enforce(OldPending);
    } else if tail.NonEmpty? && |f.predecessors| > 0 {
      assert f.steps[0] == Enforce(OldTail) || f.steps[|f.steps| - 1] == Enforce(OldTail);
    }
  }

  // -------------------------------------------------- nothing acknowledged lost

  /** The records the walk replays past the directory, in order. */
  function Replayed(predecessors: seq<RecoveredTail>): seq<Bytes> {
    if predecessors == [] then []
    else CompleteRecords(predecessors[0].canonical) + Replayed(predecessors[1..])
  }

  /**
   One incarnation's two segments at its death: pending records exist only after a swap
   at a fully committed boundary.
   */
  ghost predicate SwapRule(tail: S.Segment, pending: S.Segment) {
    pending.records != [] ==> tail.tracker.admitted == tail.tracker.committed != 0
  }

  lemma OneRecovered(full: RecoveredTail)
    ensures Replayed([full]) == CompleteRecords(full.canonical)
  {
    assert [full][1..] == [];
  }

  lemma TwoRecovered(full: RecoveredTail, later: RecoveredTail)
    ensures Replayed([full, later]) == CompleteRecords(full.canonical) + CompleteRecords(later.canonical)
  {
    assert [full, later][1..] == [later];
    OneRecovered(later);
  }

  /** A recovered segment's replay is a prefix of what was admitted to it. */
  lemma RecoveredIsPrefix(probes: seq<Probe>, disks: seq<Bytes>, records: seq<Bytes>,
                          r: Result<RecoveryCandidate, RecoveryError>, m: nat)
    requires |probes| == |disks| && AllFit(records) && Exact(probes, disks, records, None, r, m) && r.Ok?
    requires r.value.NonEmpty?
    ensures 1 <= m <= |records| && CompleteRecords(r.value.tail.canonical) == records[..m]
  {
    ParseOfStream(records[..m]);
  }

  /** What a run and its recovery supply for one segment. */
  ghost predicate Recovers(n: nat, steps: seq<S.Step>, trace: seq<S.Segment>, probes: seq<Probe>, c: RecoveryCandidate,
                           m: nat) {
    && n >= 1 && S.IsRun(n, steps, trace)
    && var last := trace[|steps|];
       Faithful(probes, last.disks, last.records) && Exact(probes, last.disks, last.records, None, Ok(c), m)
  }

  lemma CommittedIsReplayed(n: nat, steps: seq<S.Step>, trace: seq<S.Segment>, probes: seq<Probe>, c: RecoveryCandidate,
                            m: nat)
    requires Recovers(n, steps, trace, probes, c, m) && trace[|steps|].tracker.committed > 0
    ensures c.NonEmpty? && trace[|steps|].tracker.committed <= m <= |trace[|steps|].records|
    ensures CompleteRecords(c.tail.canonical) == trace[|steps|].records[..m]
  {
    var at := |steps|;
    S.AcknowledgedImpliesRecovered(n, steps, trace, at, at, probes, Ok(c), m);
    RecoveredIsPrefix(probes, trace[at].disks, trace[at].records, Ok(c), m);
  }

  /** A segment a swap left behind is replayed whole, with no gap seen. */
  lemma SwappedIsReplayed(n: nat, steps: seq<S.Step>, trace: seq<S.Segment>, probes: seq<Probe>, c: RecoveryCandidate,
                          m: nat)
    requires Recovers(n, steps, trace, probes, c, m)
    requires trace[|steps|].tracker.admitted == trace[|steps|].tracker.committed != 0
    ensures c.NonEmpty? && !c.tail.hadDiscardedSuffix && CompleteRecords(c.tail.canonical) == trace[|steps|].records
  {
    S.SwappedSegmentIsRecoveredExactly(n, steps, trace, |steps|, probes, Ok(c), m);
    S.RunKeepsInv(n, steps, trace, |steps|);
    ParseOfStream(trace[|steps|].records);
  }

  lemma NonEmptyWasAdmitted(n: nat, steps: seq<S.Step>, trace: seq<S.Segment>, probes: seq<Probe>, c: RecoveryCandidate,
                            m: nat)
    requires Recovers(n, steps, trace, probes, c, m) && c.NonEmpty?
    ensures trace[|steps|].records != []
  {
    RecoveredIsPrefix(probes, trace[|steps|].disks, trace[|steps|].records, Ok(c), m);
  }

  /** The records a segment's tracker had committed. */
  function Acknowledged(s: S.Segment): seq<Bytes> {
    if s.tracker.committed <= |s.records| then s.records[..s.tracker.committed] else s.records
  }

  /**
   Nothing acknowledged is lost across a rotation. However the two segments' runs
   interleaved and whichever majorities answered, a walk that succeeds replays every
   committed record of the old tail and of the pending segment at its own number,
   and never discards the pending segment.
   */
  lemma RotationLosesNothing(n: nat, stepsT: seq<S.Step>, traceT: seq<S.Segment>, probesT: seq<Probe>,
                             tail: RecoveryCandidate, mT: nat,
                             stepsP: seq<S.Step>, traceP: seq<S.Segment>, probesP: seq<Probe>,
                             pending: RecoveryCandidate, mP: nat,
                             bootstrap: bool, f: Frontier)
    requires Recovers(n, stepsT, traceT, probesT, tail, mT) && Recovers(n, stepsP, traceP, probesP, pending, mP)
    requires SwapRule(traceT[|stepsT|], traceP[|stepsP|])
    requires Plan(bootstrap, tail, Some(pending)) == Ok(f)
    ensures Acknowledged(traceT[|stepsT|]) <= Replayed(f.predecessors)
    ensures traceP[|stepsP|].tracker.committed > 0 ==>
              traceT[|stepsT|].records + Acknowledged(traceP[|stepsP|]) <= Replayed(f.predecessors)
    ensures !f.discardedPending
  {
    var t, p := traceT[|stepsT|], traceP[|stepsP|];
    hide Recovers, CompleteRecords, Replayed, Acknowledged;
    if p.tracker.committed > 0 { CommittedIsReplayed(n, stepsP, traceP, probesP, pending, mP); }
    if pending.NonEmpty? {
      NonEmptyWasAdmitted(n, stepsP, traceP, probesP, pending, mP);
      SwappedIsReplayed(n, stepsT, traceT, probesT, tail, mT);
      assert f.predecessors == [tail.tail, pending.tail];
      BothReplayed(tail.tail, pending.tail, t, p, mP);
    } else if t.tracker.committed > 0 {
      CommittedIsReplayed(n, stepsT, traceT, probesT, tail, mT);
      assert f.predecessors == [tail.tail];
      TailReplayed(tail.tail, t, mT);
    } else {
      NothingAcknowledged(t, f.predecessors);
    }
  }

  lemma BothReplayed(tail: RecoveredTail, pending: RecoveredTail, t: S.Segment, p: S.Segment, mP: nat)
    requires CompleteRecords(tail.canonical) == t.records
    ensures Acknowledged(t) <= Replayed([tail, pending])
    ensures p.tracker.committed <= mP <= |p.records| && CompleteRecords(pending.canonical) == p.records[..mP] ==>
              t.records + Acknowledged(p) <= Replayed([tail, pending])
  {
    hide CompleteRecords;
    TwoRecovered(tail, pending);
  }

  lemma TailReplayed(tail: RecoveredTail, t: S.Segment, m: nat)
    requires t.tracker.committed <= m <= |t.records| && CompleteRecords(tail.canonical) == t.records[..m]
    ensures Acknowledged(t) <= Replayed([tail])
  {
    hide CompleteRecords;
    OneRecovered(tail);
  }

  lemma NothingAcknowledged(t: S.Segment, predecessors: seq<RecoveredTail>)
    requires t.tracker.committed == 0
    ensures Acknowledged(t) <= Replayed(predecessors)
  {
  }

  /** The walk's catalog errors about the frontier cannot arise from one incarnation's rotation. */
  lemma FrontierErrorsUnreachable(n: nat, stepsT: seq<S.Step>, traceT: seq<S.Segment>, probesT: seq<Probe>,
                                  tail: RecoveryCandidate, mT: nat,
                                  stepsP: seq<S.Step>, traceP: seq<S.Segment>, probesP: seq<Probe>,
                                  pending: RecoveryCandidate, mP: nat,
                                  bootstrap: bool)
    requires Recovers(n, stepsT, traceT, probesT, tail, mT) && Recovers(n, stepsP, traceP, probesP, pending, mP)
    requires SwapRule(traceT[|stepsT|], traceP[|stepsP|])
    ensures Plan(bootstrap, tail, Some(pending)) != Err(PendingAfterEmptyTail)
    ensures traceP[|stepsP|].tracker.committed > 0 ==> Plan(bootstrap, tail, Some(pending)).Ok?
  {
    if pending.NonEmpty? {
      NonEmptyWasAdmitted(n, stepsP, traceP, probesP, pending, mP);
      SwappedIsReplayed(n, stepsT, traceT, probesT, tail, mT);
    } else if traceP[|stepsP|].tracker.committed > 0 {
      CommittedIsReplayed(n, stepsP, traceP, probesP, pending, mP);
    }
  }
}
