/**
 Recovery's walk carried out on the manifest register: every step is a control-plane
 request under the new claim, and what the register shows when the walk is done is the
 frontier the new writer starts on.
 */
module FrontierRegister {
  import opened Wrappers
  import opened Text
  import opened Manifest
  import opened Records
  import opened Frontier
  import R = Recovery
  import Capacity
  import W = Walk

  /** The claim, the id of every slot, and the checksums of recovered bytes. */
  datatype Claimed = Claimed(
    epoch: nat,
    owner: string,
    ids: Slot -> string,
    digest: Bytes -> string,
    crc: Bytes -> u32,
    maxBytes: nat)

  /** The recovered segment a fold seals, and the number of its first record. */
  function Sealed(f: Frontier, which: Slot): R.RecoveredTail
    requires f.predecessors != []
  {
    if which == OldPending && |f.predecessors| == 2 then f.predecessors[1] else f.predecessors[0]
  }

  function FirstNumber(f: Frontier, base: nat, which: Slot): nat
    requires f.predecessors != []
  {
    if which == OldPending && |f.predecessors| == 2 then base + |f.predecessors[0].recordEnds| else base
  }

  lemma CountOfFew(predecessors: seq<R.RecoveredTail>)
    ensures predecessors == [] ==> W.RecoveredCount(predecessors) == 0
    ensures |predecessors| == 1 ==> W.RecoveredCount(predecessors) == |predecessors[0].recordEnds|
    ensures |predecessors| == 2 ==>
              W.RecoveredCount(predecessors) == |predecessors[0].recordEnds| + |predecessors[1].recordEnds|
  {
    if |predecessors| == 2 { assert predecessors[1..] == [predecessors[1]] && [predecessors[1]][1..] == []; }
  }

  /** Record numbers stay in range and every recovered segment has a record. */
  predicate Counted(f: Frontier, base: nat) {
    && |f.predecessors| <= 2 && base + W.RecoveredCount(f.predecessors) <= U64_MAX
    && W.AllNonEmpty(f.predecessors)
  }

  /** The fold request of a step. */
  function FoldRequest(x: Claimed, f: Frontier, base: nat, step: WalkStep): Op
    requires step.Fold? && f.predecessors != [] && Counted(f, base)
  {
    CountOfFew(f.predecessors);
    var tail := Sealed(f, step.folded);
    var first := FirstNumber(f, base, step.folded);
    FoldPending(x.epoch, x.owner,
      PendingFold(x.ids(step.folded), first, first + |tail.recordEnds| - 1, x.digest(tail.canonical),
                  x.crc(tail.canonical), x.ids(step.consumed), x.ids(step.successor), x.ids(step.refill)))
  }

  /** The request a step sends, for the register it adopted at `base`. */
  function Request(x: Claimed, f: Frontier, adopted: Record, step: WalkStep): Option<Op>
    requires Counted(f, adopted.tailBase) && (step.Fold? ==> f.predecessors != [])
  {
    match step
    case ReplaceFrontier(active, pending) =>
      Some(ReplaceEmptyFrontier(x.epoch, x.owner, adopted.tailId, adopted.pendingId, adopted.tailBase,
                                x.ids(active), x.ids(pending)))
    case Register(pending) => Some(RegisterPending(x.epoch, x.owner, x.ids(pending)))
    case Enforce(_) => None
    case Fold(_, _, _, _) => Some(FoldRequest(x, f, adopted.tailBase, step))
  }

  /** The register after the steps, when every request among them commits. */
  function After(x: Claimed, f: Frontier, adopted: Record, steps: seq<WalkStep>, r: Record): Option<Record>
    requires Counted(f, adopted.tailBase)
    requires forall k :: 0 <= k < |steps| && steps[k].Fold? ==> f.predecessors != []
    decreases |steps|
  {
    if steps == [] then Some(r)
    else
      var op := Request(x, f, adopted, steps[0]);
      if op.None? then After(x, f, adopted, steps[1..], r)
      else
        var t := ApplyOp(op.value, r, x.maxBytes);
        if t.Ok? && t.value.Update? && Valid(t.value.next) then After(x, f, adopted, steps[1..], t.value.next) else None
  }

  /** The walk's steps, and the fold it leaves to the writer it opens. */
  function AllSteps(f: Frontier): seq<WalkStep> {
    f.steps + if f.deferredFold then [Fold(OldTail, f.active, f.active, f.spare)] else []
  }

  /** The register as claimed, naming the two segments that were recovered. */
  ghost predicate Adopts(x: Claimed, r: Record, pending: Option<R.RecoveryCandidate>) {
    && Valid(r) && HoldsClaim(r, x.epoch, x.owner)
    && r.tailId == Some(x.ids(OldTail))
    && r.pendingId == (if pending.Some? then Some(x.ids(OldPending)) else None)
    && HasRoom(r.segments, 2, x.maxBytes)
    && Capacity.Minted(x.ids(OldTail))
  }

  /** The id is well formed and appears nowhere in the register. */
  predicate Unused(x: Claimed, r: Record, id: string) {
    && id != "" && ':' !in id && ',' !in id && !Named(r.segments, id)
    && id != x.ids(OldTail) && id != x.ids(OldPending)
  }

  /** The two ids a walk may mint are new and different. */
  predicate FreshIds(x: Claimed, r: Record) {
    && Unused(x, r, x.ids(Fresh(0))) && Unused(x, r, x.ids(Fresh(1)))
    && x.ids(Fresh(0)) != x.ids(Fresh(1))
  }

  /** The directory entries of the recovered segments, in order. */
  function Entries(x: Claimed, f: Frontier, base: nat): seq<Entry>
    requires Counted(f, base)
  {
    CountOfFew(f.predecessors);
    if f.predecessors == [] then []
    else
      var first := f.predecessors[0];
      [Entry(x.ids(OldTail), base, x.crc(first.canonical))] +
      if |f.predecessors| == 1 then []
      else [Entry(x.ids(OldPending), base + |first.recordEnds|, x.crc(f.predecessors[1].canonical))]
  }

  /**
   What the new writer finds: the tail is its active segment, the pending slot its spare,
   numbering goes on after everything recovered, and the directory gained exactly the
   recovered segments, in order, with the last of them as the seal record.
   */
  ghost predicate Settled(x: Claimed, f: Frontier, r: Record, s: Record)
    requires Counted(f, r.tailBase)
  {
    && Valid(s) && s.tailId == Some(x.ids(f.active)) && s.pendingId == Some(x.ids(f.spare))
    && s.tailBase == r.tailBase + W.RecoveredCount(f.predecessors)
    && s.segments == r.segments + Entries(x, f, r.tailBase)
    && s.epoch == r.epoch && s.owner == r.owner && s.trunc == r.trunc && s.buckets == r.buckets
    && (if f.predecessors == [] then s.sealId == r.sealId && s.sealBase == r.sealBase && s.sealDigest == r.sealDigest
        else
          var last := Entries(x, f, r.tailBase)[|f.predecessors| - 1];
          && s.sealId == Some(last.id) && s.sealBase == Some(last.base)
          && s.sealDigest == Some(x.digest(f.predecessors[|f.predecessors| - 1].canonical)))
  }

  // ------------------------------------------------------------ single requests

  predicate Separable(id: string) { id != "" && ':' !in id && ',' !in id }

  /** A register that shows what the fold expects, with room and unused ids, takes it. */
  lemma FoldCommits(op: Op, r: Record, maxBytes: nat) returns (s: Record)
    requires op.FoldPending? && Valid(r) && HoldsClaim(r, op.epoch, op.owner) && HasRoom(r.segments, 1, maxBytes)
    requires r.tailId == Some(op.fold.oldTailId) && r.tailBase == op.fold.oldTailBase <= op.fold.oldTailEnd < U64_MAX
    requires r.pendingId == Some(op.fold.consumedPendingId)
    requires !Named(r.segments, op.fold.successorTailId) && !Named(r.segments, op.fold.refillPendingId)
    requires Separable(op.fold.refillPendingId)
    requires op.fold.oldTailId !in {op.fold.successorTailId, op.fold.refillPendingId}
    requires op.fold.successorTailId != op.fold.refillPendingId
    ensures ApplyOp(op, r, maxBytes) == Ok(Update(s)) && Valid(s) && Effect(op, r, s)
  {
    var f := op.fold;
    var added := Entry(f.oldTailId, f.oldTailBase, f.oldTailCrc32c);
    s := ApplyOp(op, r, maxBytes).value.next;
    assert s.segments == r.segments + [added];
    forall id | Named(s.segments, id) ensures Named(r.segments, id) || id == f.oldTailId {
      var i :| 0 <= i < |s.segments| && s.segments[i].id == id;
      if i < |r.segments| { assert r.segments[i].id == id; }
    }
    forall i | 0 <= i < |r.segments| ensures s.segments[i] == r.segments[i] && r.segments[i].id != f.oldTailId {}
  }

  /** The register takes a fresh pending id while it has none. */
  lemma RegisterCommits(op: Op, r: Record, maxBytes: nat) returns (s: Record)
    requires op.RegisterPending? && Valid(r) && HoldsClaim(r, op.epoch, op.owner) && r.pendingId.None?
    requires Separable(op.pendingId) && !Named(r.segments, op.pendingId) && r.tailId != Some(op.pendingId)
    ensures ApplyOp(op, r, maxBytes) == Ok(Update(s)) && Valid(s) && s == r.(pendingId := Some(op.pendingId))
  {
    s := r.(pendingId := Some(op.pendingId));
  }

  /** An unchanged register takes a fresh pair. */
  lemma ReplaceCommits(op: Op, r: Record, maxBytes: nat) returns (s: Record)
    requires op.ReplaceEmptyFrontier? && Valid(r) && HoldsClaim(r, op.epoch, op.owner)
    requires r.tailId == op.expectedTail && r.pendingId == op.expectedPending && r.tailBase == op.tailBase
    requires Separable(op.pendingId) && !Named(r.segments, op.pendingId) && !Named(r.segments, op.activeId)
    requires op.activeId != op.pendingId && r.tailId != Some(op.activeId)
    ensures ApplyOp(op, r, maxBytes) == Ok(Update(s)) && Valid(s)
    ensures s == r.(tailId := Some(op.activeId), pendingId := Some(op.pendingId))
  {
    s := r.(tailId := Some(op.activeId), pendingId := Some(op.pendingId));
  }

  // ------------------------------------------------------------- runs of requests

  predicate Supported(f: Frontier, steps: seq<WalkStep>) {
    forall k :: 0 <= k < |steps| && steps[k].Fold? ==> f.predecessors != []
  }

  lemma AfterEnforce(x: Claimed, f: Frontier, adopted: Record, which: Slot, rest: seq<WalkStep>, r: Record)
    requires Counted(f, adopted.tailBase) && Supported(f, [Enforce(which)] + rest) && Supported(f, rest)
    ensures After(x, f, adopted, [Enforce(which)] + rest, r) == After(x, f, adopted, rest, r)
  {
    assert ([Enforce(which)] + rest)[1..] == rest;
  }

  lemma AfterRequest(x: Claimed, f: Frontier, adopted: Record, step: WalkStep, rest: seq<WalkStep>, r: Record,
                     s: Record)
    requires Counted(f, adopted.tailBase) && Supported(f, [step] + rest) && Supported(f, rest)
    requires step.Fold? ==> f.predecessors != []
    requires Request(x, f, adopted, step).Some?
    requires ApplyOp(Request(x, f, adopted, step).value, r, x.maxBytes) == Ok(Update(s)) && Valid(s)
    ensures After(x, f, adopted, [step] + rest, r) == After(x, f, adopted, rest, s)
  {
    hide Valid, ApplyOp, Request;
    assert ([step] + rest)[1..] == rest;
  }


  /**
   On the register it adopted, no request of the walk is fenced or refused, and the walk
   with its deferred fold leaves exactly the settled frontier.
   */
  lemma WalkSettlesRegister(x: Claimed, bootstrap: bool, tail: R.RecoveryCandidate,
                            pending: Option<R.RecoveryCandidate>, r: Record, f: Frontier)
    requires Plan(bootstrap, tail, pending) == Ok(f) && Counted(f, r.tailBase)
    requires Adopts(x, r, pending) && FreshIds(x, r)
    ensures Supported(f, AllSteps(f)) && After(x, f, r, AllSteps(f), r).Some?
    ensures Settled(x, f, r, After(x, f, r, AllSteps(f), r).value)
  {
    hide Valid, HasRoom;
    if f.predecessors == [] {
      NothingRecovered(x, r, pending, f);
    } else if |f.predecessors| == 1 {
      OneRecoveredSettles(x, bootstrap, tail, pending, r, f);
    } else {
      BothRecoveredSettle(x, r, pending, f);
    }
  }

  /** The register is kept, given a pending id, or given a fresh pair. */
  lemma NothingRecovered(x: Claimed, r: Record, pending: Option<R.RecoveryCandidate>, f: Frontier)
    requires f.predecessors == [] && !f.deferredFold && Counted(f, r.tailBase)
    requires Adopts(x, r, pending) && FreshIds(x, r)
    requires || (f == FreshPair())
             || (f.steps == [] && f.active == OldTail && f.spare == OldPending && pending.Some?)
             || (f.steps == [Register(Fresh(0))] && f.active == OldTail && f.spare == Fresh(0) && pending.None?)
    ensures Supported(f, AllSteps(f)) && After(x, f, r, AllSteps(f), r).Some?
    ensures Settled(x, f, r, After(x, f, r, AllSteps(f), r).value)
  {
    hide HasRoom;
    assert AllSteps(f) == f.steps;
    assert r.segments + [] == r.segments;
    if f == FreshPair() {
      var step := f.steps[0];
      var s := ReplaceCommits(Request(x, f, r, step).value, r, x.maxBytes);
      assert f.steps == [step] + [];
      AfterRequest(x, f, r, step, [], r, s);
    } else if f.steps != [] {
      var step := f.steps[0];
      var s := RegisterCommits(Request(x, f, r, step).value, r, x.maxBytes);
      assert f.steps == [step] + [];
      AfterRequest(x, f, r, step, [], r, s);
    }
  }

  /** The id of a slot is well formed and unused, as a pending or tail id must be. */
  ghost predicate Usable(x: Claimed, r: Record, slot: Slot) {
    Separable(x.ids(slot)) && !Named(r.segments, x.ids(slot)) && x.ids(slot) != x.ids(OldTail)
  }

  /** Folding the one recovered segment settles the register, whichever segment follows it. */
  lemma TailFolds(x: Claimed, r: Record, q: Record, f: Frontier, step: WalkStep) returns (s: Record)
    requires |f.predecessors| == 1 && Counted(f, r.tailBase)
    requires step.Fold? && step == Fold(OldTail, step.consumed, f.active, f.spare)
    requires Valid(q) && q == r.(pendingId := Some(x.ids(step.consumed))) && HoldsClaim(r, x.epoch, x.owner)
    requires r.tailId == Some(x.ids(OldTail)) && HasRoom(r.segments, 1, x.maxBytes)
    requires Usable(x, r, f.active) && Usable(x, r, f.spare) && x.ids(f.active) != x.ids(f.spare)
    ensures ApplyOp(Request(x, f, r, step).value, q, x.maxBytes) == Ok(Update(s)) && Valid(s) && Settled(x, f, r, s)
  {
    CountOfFew(f.predecessors);
    hide HasRoom, W.RecoveredCount;
    s := FoldCommits(Request(x, f, r, step).value, q, x.maxBytes);
  }

  lemma OneRecoveredSettles(x: Claimed, bootstrap: bool, tail: R.RecoveryCandidate,
                            pending: Option<R.RecoveryCandidate>, r: Record, f: Frontier)
    requires Plan(bootstrap, tail, pending) == Ok(f) && Counted(f, r.tailBase) && |f.predecessors| == 1
    requires Adopts(x, r, pending) && FreshIds(x, r)
    ensures Supported(f, AllSteps(f)) && After(x, f, r, AllSteps(f), r).Some?
    ensures Settled(x, f, r, After(x, f, r, AllSteps(f), r).value)
  {
    hide Settled;
    assert Usable(x, r, Fresh(0)) && Usable(x, r, Fresh(1)) && (pending.Some? ==> Usable(x, r, OldPending));
    if pending.None? {
      RegisterThenFold(x, r, f);
    } else {
      EnforceAndFold(x, r, pending, f);
    }
  }

  lemma RegisterThenFold(x: Claimed, r: Record, f: Frontier)
    requires |f.predecessors| == 1 && Counted(f, r.tailBase) && Adopts(x, r, None) && FreshIds(x, r)
    requires f.steps == [Register(Fresh(0)), Enforce(OldTail)] && f.deferredFold
    requires f.active == Fresh(0) && f.spare == Fresh(1)
    ensures Supported(f, AllSteps(f)) && After(x, f, r, AllSteps(f), r).Some?
    ensures Settled(x, f, r, After(x, f, r, AllSteps(f), r).value)
  {
    hide Settled, Valid;
    var register, fold := Register(Fresh(0)), Fold(OldTail, Fresh(0), Fresh(0), Fresh(1));
    var q := RegisterCommits(Request(x, f, r, register).value, r, x.maxBytes);
    var s := TailFolds(x, r, q, f, fold);
    assert AllSteps(f) == [register] + ([Enforce(OldTail)] + ([fold] + []));
    AfterRequest(x, f, r, register, [Enforce(OldTail)] + ([fold] + []), r, q);
    AfterEnforce(x, f, r, OldTail, [fold] + [], q);
    AfterRequest(x, f, r, fold, [], q, s);
  }

  lemma EnforceAndFold(x: Claimed, r: Record, pending: Option<R.RecoveryCandidate>, f: Frontier)
    requires |f.predecessors| == 1 && Counted(f, r.tailBase) && pending.Some? && Adopts(x, r, pending) && FreshIds(x, r)
    requires var fold := Fold(OldTail, OldPending, f.active, f.spare);
             AllSteps(f) == [Enforce(OldTail), fold] || AllSteps(f) == [fold, Enforce(OldTail)]
    requires (f.active == Fresh(0) && f.spare == Fresh(1)) || (f.active == OldPending && f.spare == Fresh(0))
    ensures Supported(f, AllSteps(f)) && After(x, f, r, AllSteps(f), r).Some?
    ensures Settled(x, f, r, After(x, f, r, AllSteps(f), r).value)
  {
    var fold := Fold(OldTail, OldPending, f.active, f.spare);
    assert Usable(x, r, f.active) && Usable(x, r, f.spare) && x.ids(f.active) != x.ids(f.spare);
    hide Settled;
    var s := TailFolds(x, r, r, f, fold);
    hide Valid;
    if AllSteps(f)[0] == fold {
      assert AllSteps(f) == [fold] + ([Enforce(OldTail)] + []);
      AfterRequest(x, f, r, fold, [Enforce(OldTail)] + [], r, s);
      AfterEnforce(x, f, r, OldTail, [], s);
    } else {
      assert AllSteps(f) == [Enforce(OldTail)] + ([fold] + []);
      AfterEnforce(x, f, r, OldTail, [fold] + [], r);
      AfterRequest(x, f, r, fold, [], r, s);
    }
  }

  /** Two folds in turn: the old tail's hands over to the pending segment, whose own hands over to the fresh one. */
  lemma BothRecoveredSettle(x: Claimed, r: Record, pending: Option<R.RecoveryCandidate>, f: Frontier)
    requires |f.predecessors| == 2 && Counted(f, r.tailBase) && pending.Some? && Adopts(x, r, pending) && FreshIds(x, r)
    requires !f.deferredFold && f.active == Fresh(0) && f.spare == Fresh(1)
    requires f.steps == [Enforce(OldPending), Enforce(OldTail), Fold(OldTail, OldPending, OldPending, Fresh(0)),
                         Enforce(OldPending), Fold(OldPending, Fresh(0), Fresh(0), Fresh(1))]
    ensures Supported(f, AllSteps(f)) && After(x, f, r, AllSteps(f), r).Some?
    ensures Settled(x, f, r, After(x, f, r, AllSteps(f), r).value)
  {
    hide Settled;
    var first, second := f.steps[2], f.steps[4];
    var q := FirstOfTwo(x, r, pending, f, first);
    var s := SecondOfTwo(x, r, q, f, second);
    hide Valid;
    var rest := [Enforce(OldPending)] + ([second] + []);
    assert AllSteps(f) == [Enforce(OldPending)] + ([Enforce(OldTail)] + ([first] + rest));
    AfterEnforce(x, f, r, OldPending, [Enforce(OldTail)] + ([first] + rest), r);
    AfterEnforce(x, f, r, OldTail, [first] + rest, r);
    AfterRequest(x, f, r, first, rest, r, q);
    AfterEnforce(x, f, r, OldPending, [second] + [], q);
    AfterRequest(x, f, r, second, [], q, s);
  }

  lemma FirstOfTwo(x: Claimed, r: Record, pending: Option<R.RecoveryCandidate>, f: Frontier, step: WalkStep)
    returns (q: Record)
    requires |f.predecessors| == 2 && Counted(f, r.tailBase) && pending.Some? && Adopts(x, r, pending) && FreshIds(x, r)
    requires step == Fold(OldTail, OldPending, OldPending, Fresh(0))
    ensures ApplyOp(Request(x, f, r, step).value, r, x.maxBytes) == Ok(Update(q)) && Valid(q)
    ensures Effect(Request(x, f, r, step).value, r, q) && HasRoom(q.segments, 1, x.maxBytes)
  {
    CountOfFew(f.predecessors);
    var op := Request(x, f, r, step).value;
    q := FoldCommits(op, r, x.maxBytes);
    Capacity.StepRoom(op, r, q, x.maxBytes, 2);
  }

  lemma SecondOfTwo(x: Claimed, r: Record, q: Record, f: Frontier, step: WalkStep) returns (s: Record)
    requires |f.predecessors| == 2 && Counted(f, r.tailBase) && FreshIds(x, r) && HoldsClaim(r, x.epoch, x.owner)
    requires Valid(q) && HasRoom(q.segments, 1, x.maxBytes) && f.active == Fresh(0) && f.spare == Fresh(1)
    requires Effect(Request(x, f, r, Fold(OldTail, OldPending, OldPending, Fresh(0))).value, r, q)
    requires step == Fold(OldPending, Fresh(0), Fresh(0), Fresh(1))
    ensures ApplyOp(Request(x, f, r, step).value, q, x.maxBytes) == Ok(Update(s)) && Valid(s) && Settled(x, f, r, s)
  {
    CountOfFew(f.predecessors);
    hide HasRoom, W.RecoveredCount;
    forall id | Named(q.segments, id) ensures Named(r.segments, id) || id == x.ids(OldTail) {
      var i :| 0 <= i < |q.segments| && q.segments[i].id == id;
      if i < |r.segments| { assert r.segments[i].id == id; }
    }
    s := FoldCommits(Request(x, f, r, step).value, q, x.maxBytes);
  }
}
