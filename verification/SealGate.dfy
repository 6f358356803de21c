/**
 At most one unenforced seal. Writers, their maintenance tasks and recoveries
 share one register; each may crash anywhere, lose a fold's response, or keep
 going after a newer claim. A directory entry is settled when an enforcement of its
 bytes succeeded, or it lies below the floor; `SealedCopies` ties that to the copies.
 */
module SealGate {
  import opened Wrappers
  import opened Text
  import opened Manifest

  /** A segment id with the checksum of bytes whose enforcement succeeded. */
  type Enforced = set<(string, u32)>

  /** Rotation of a running engine. */
  datatype Rotation =
    | Idle
    | Due
    | Draining(fold: PendingFold, live: bool)
    | Sealing(id: string, crc32c: u32, end: u64)

  datatype Phase =
    | Down
    | Claimed(epoch: nat, owner: string, adopted: Record)
    | Walking(epoch: nat, owner: string)
    | Unsealed(epoch: nat, owner: string, id: string, crc32c: u32, end: u64)
    | Running(epoch: nat, owner: string, rotation: Rotation)

  datatype World = World(record: Record, enforced: Enforced, procs: seq<Phase>)

  datatype Step =
    | ClaimEpoch(p: nat, owner: string)
    | SettleSeal(p: nat)
    | EnforceTail(p: nat, id: string, crc32c: u32)
    | RecoveryFold(p: nat, fold: PendingFold)
    | EnforceFolded(p: nat)
    | OtherOp(op: Op)
    | OpenWriter(p: nat, deferred: Option<PendingFold>)
    | MarkDue(p: nat)
    | Swap(p: nat, fold: PendingFold)
    | Fold(p: nat, answered: bool)
    | SealDone(p: nat)
    | SealSkipped(p: nat, floor: u64)
    | Crash(p: nat)

  // ---------------------------------------------------------------- settled

  predicate SettledAt(r: Record, enforced: Enforced, i: nat)
    requires i < |r.segments|
  {
    (r.segments[i].id, r.segments[i].crc32c) in enforced || NextBase(r, i) <= r.trunc
  }

  ghost predicate AllSettled(r: Record, enforced: Enforced) {
    forall i :: 0 <= i < |r.segments| ==> SettledAt(r, enforced, i)
  }

  /** Every entry but the one the seal record names is settled. */
  ghost predicate OthersSettled(r: Record, enforced: Enforced) {
    forall i :: 0 <= i < |r.segments| ==> r.sealId == Some(r.segments[i].id) || SettledAt(r, enforced, i)
  }

  /** Each entry of `s` is an entry of `r` that is still below the floor if it was. */
  ghost predicate Inherits(r: Record, s: Record) {
    s.sealId == r.sealId && forall i :: 0 <= i < |s.segments| ==> InheritedAt(r, s, i)
  }

  ghost predicate InheritedAt(r: Record, s: Record, i: nat)
    requires i < |s.segments|
  {
    exists k :: 0 <= k < |r.segments| && SameEntry(r, k, s, i)
  }

  predicate SameEntry(r: Record, k: nat, s: Record, i: nat)
    requires k < |r.segments| && i < |s.segments|
  {
    r.segments[k] == s.segments[i] && (NextBase(r, k) <= r.trunc ==> NextBase(s, i) <= s.trunc)
  }

  /** Only a fold adds an entry or moves the seal. */
  lemma OtherOpInherits(op: Op, r: Record, s: Record, maxBytes: nat)
    requires !op.FoldPending? && Valid(r) && Commits(op, r, s, maxBytes)
    ensures Inherits(r, s)
  {
    forall i: nat | i < |s.segments| ensures InheritedAt(r, s, i) {
      if op.RemoveSegments? {
        assert s.segments[i] in s.segments;
        var k := PositionOf(r, s.segments[i]);
        RemovalKeepsTombstones(op, r, s, maxBytes, k, i);
        assert SameEntry(r, k, s, i);
      } else {
        assert SameEntry(r, i, s, i);
      }
    }
  }

  lemma InheritsTransitive(a: Record, b: Record, c: Record)
    requires Inherits(a, b) && Inherits(b, c)
    ensures Inherits(a, c)
  {
    forall i: nat | i < |c.segments| ensures InheritedAt(a, c, i) {
      assert InheritedAt(b, c, i);
      var k: nat :| k < |b.segments| && SameEntry(b, k, c, i);
      assert InheritedAt(a, b, k);
      var j: nat :| j < |a.segments| && SameEntry(a, j, b, k);
      assert SameEntry(a, j, c, i);
    }
  }

  lemma InheritKeepsSettled(r: Record, s: Record, enforced: Enforced)
    requires Inherits(r, s)
    ensures OthersSettled(r, enforced) ==> OthersSettled(s, enforced)
    ensures AllSettled(r, enforced) ==> AllSettled(s, enforced)
  {
    forall i: nat | i < |s.segments|
      ensures OthersSettled(r, enforced) ==> s.sealId == Some(s.segments[i].id) || SettledAt(s, enforced, i)
      ensures AllSettled(r, enforced) ==> SettledAt(s, enforced, i)
    {
      assert InheritedAt(r, s, i);
      var k: nat :| k < |r.segments| && SameEntry(r, k, s, i);
      assert OthersSettled(r, enforced) ==> r.sealId == Some(r.segments[k].id) || SettledAt(r, enforced, k);
      assert AllSettled(r, enforced) ==> SettledAt(r, enforced, k);
    }
  }

  /** The entry a fold appends, and the seal record it installs. */
  ghost predicate JustFolded(s: Record, id: string, crc32c: u32, end: u64) {
    && s.sealId == Some(id) && s.tailBase == SaturatingSucc(end)
    && forall i :: 0 <= i < |s.segments| && s.segments[i].id == id ==>
         i == |s.segments| - 1 && s.segments[i].crc32c == crc32c
  }

  /** Folding is safe when everything before it is settled. */
  lemma FoldSettles(op: Op, r: Record, s: Record, maxBytes: nat, enforced: Enforced)
    requires op.FoldPending? && Valid(r) && Commits(op, r, s, maxBytes) && AllSettled(r, enforced)
    ensures OthersSettled(s, enforced)
    ensures JustFolded(s, op.fold.oldTailId, op.fold.oldTailCrc32c, op.fold.oldTailEnd)
    ensures (op.fold.oldTailId, op.fold.oldTailCrc32c) in enforced ==> AllSettled(s, enforced)
  {
    forall i: nat | i < |s.segments|
      ensures i < |r.segments| ==> SettledAt(s, enforced, i)
    {
      if i < |r.segments| { assert SettledAt(r, enforced, i); }
    }
  }

  /** Once the folded segment is enforced or passed by the floor, everything is settled. */
  lemma SealSettles(s: Record, id: string, crc32c: u32, end: u64, enforced: Enforced)
    requires OthersSettled(s, enforced) && JustFolded(s, id, crc32c, end)
    requires (id, crc32c) in enforced || end < s.trunc
    ensures AllSettled(s, enforced)
  {
    forall i: nat | i < |s.segments| ensures SettledAt(s, enforced, i) {
      assert s.sealId == Some(s.segments[i].id) || SettledAt(s, enforced, i);
    }
  }

  lemma InheritKeepsFolded(op: Op, r: Record, s: Record, maxBytes: nat, id: string, crc32c: u32, end: u64)
    requires !op.FoldPending? && Valid(r) && Commits(op, r, s, maxBytes) && JustFolded(r, id, crc32c, end)
    ensures JustFolded(s, id, crc32c, end)
  {
    forall i: nat | i < |s.segments| && s.segments[i].id == id
      ensures i == |s.segments| - 1 && s.segments[i].crc32c == crc32c
    {
      if op.RemoveSegments? {
        LastSurvives(op, r, s, maxBytes, i);
      }
    }
  }

  /** A kept entry that was last is last. */
  lemma LastSurvives(op: Op, r: Record, s: Record, maxBytes: nat, i: nat)
    requires op.RemoveSegments? && Valid(r) && Commits(op, r, s, maxBytes) && i < |s.segments|
    ensures s.segments[i] in r.segments
    ensures r.segments != [] && s.segments[i] == r.segments[|r.segments| - 1] ==> i == |s.segments| - 1
  {
    assert s.segments[i] in s.segments;
    if i < |s.segments| - 1 {
      assert s.segments[i + 1] in s.segments;
      var k := PositionOf(r, s.segments[i + 1]);
      assert s.segments[i].base < s.segments[i + 1].base;
    }
  }

  // ------------------------------------------------------------------ steps

  /** The register after one compare-and-swap, or `None` when nothing is written. */
  function Try(op: Op, r: Record, maxBytes: nat): Option<Record> {
    match ApplyOp(op, r, maxBytes)
    case Ok(Update(next)) => if Valid(next) then Some(next) else None
    case _ => None
  }

  function Pair(f: PendingFold): (string, u32) { (f.oldTailId, f.oldTailCrc32c) }

  /** The seal entry recovery enforces: the one `seal_id` names, unless it is below the floor. */
  function SealPairs(adopted: Record): Enforced {
    set i: nat | i < |adopted.segments| && adopted.sealId == Some(adopted.segments[i].id) &&
      adopted.trunc < NextBase(adopted, i) ::
      (adopted.segments[i].id, adopted.segments[i].crc32c)
  }

  predicate Enabled(w: World, step: Step, maxBytes: nat) {
    match step
    case ClaimEpoch(p, owner) => p < |w.procs| && Try(Claim(owner), w.record, maxBytes).Some?
    case SettleSeal(p) => p < |w.procs| && w.procs[p].Claimed?
    case EnforceTail(p, _, _) => p < |w.procs| && w.procs[p].Walking?
    case RecoveryFold(p, _) => p < |w.procs| && w.procs[p].Walking?
    case EnforceFolded(p) => p < |w.procs| && w.procs[p].Unsealed?
    case OtherOp(op) => !op.Claim? && !op.FoldPending?
    case OpenWriter(p, deferred) => p < |w.procs| && w.procs[p].Walking? &&
      (deferred.Some? ==> Pair(deferred.value) in w.enforced)
    case MarkDue(p) => p < |w.procs| && w.procs[p].Running? && w.procs[p].rotation.Idle?
    case Swap(p, _) => p < |w.procs| && w.procs[p].Running? && w.procs[p].rotation.Due?
    case Fold(p, _) => p < |w.procs| && w.procs[p].Running? && w.procs[p].rotation.Draining?
    case SealDone(p) => p < |w.procs| && w.procs[p].Running? && w.procs[p].rotation.Sealing?
    case SealSkipped(p, floor) =>
      && p < |w.procs| && w.procs[p].Running? && w.procs[p].rotation.Sealing?
      && w.procs[p].rotation.end < floor <= w.record.trunc
    case Crash(p) => p < |w.procs|
  }

  function Turn(w: World, p: nat, rotation: Rotation): World
    requires p < |w.procs| && w.procs[p].Running?
  {
    w.(procs := w.procs[p := w.procs[p].(rotation := rotation)])
  }

  /** A recovery's fold: on any refusal the recovery fails. */
  function NextRecoveryFold(w: World, p: nat, f: PendingFold, maxBytes: nat): World
    requires p < |w.procs| && w.procs[p].Walking?
  {
    var me := w.procs[p];
    match Try(FoldPending(me.epoch, me.owner, f), w.record, maxBytes)
    case None => w.(procs := w.procs[p := Down])
    case Some(next) =>
      var after := if Pair(f) in w.enforced then me
                   else Unsealed(me.epoch, me.owner, f.oldTailId, f.oldTailCrc32c, f.oldTailEnd);
      w.(record := next, procs := w.procs[p := after])
  }

  /** A live fold is sealed next; a recovered one already was. */
  function AfterFold(f: PendingFold, live: bool): Rotation {
    if live then Sealing(f.oldTailId, f.oldTailCrc32c, f.oldTailEnd) else Idle
  }

  /** The engine's fold: an unanswered one stays parked, a full directory blocks it, other refusals stop the engine. */
  function NextFold(w: World, p: nat, answered: bool, maxBytes: nat): World
    requires p < |w.procs| && w.procs[p].Running? && w.procs[p].rotation.Draining?
  {
    var me := w.procs[p];
    var f := me.rotation.fold;
    var op := FoldPending(me.epoch, me.owner, f);
    match ApplyOp(op, w.record, maxBytes)
    case Err(DirectoryFull) => w
    case Err(_) => w.(procs := w.procs[p := Down])
    case Ok(Done) => if answered then Turn(w, p, AfterFold(f, me.rotation.live)) else w
    case Ok(Update(next)) =>
      if !Valid(next) then w.(procs := w.procs[p := Down])
      else
        var written := w.(record := next);
        if answered then Turn(written, p, AfterFold(f, me.rotation.live)) else written
  }

  function Next(w: World, step: Step, maxBytes: nat): World
    requires Enabled(w, step, maxBytes)
  {
    match step
    case ClaimEpoch(p, owner) =>
      var next := Try(Claim(owner), w.record, maxBytes).value;
      w.(record := next, procs := w.procs[p := Claimed(next.epoch, owner, next)])
    case SettleSeal(p) =>
      var me := w.procs[p];
      w.(enforced := w.enforced + SealPairs(me.adopted), procs := w.procs[p := Walking(me.epoch, me.owner)])
    case EnforceTail(p, id, crc32c) => w.(enforced := w.enforced + {(id, crc32c)})
    case RecoveryFold(p, fold) => NextRecoveryFold(w, p, fold, maxBytes)
    case EnforceFolded(p) =>
      var me := w.procs[p];
      w.(enforced := w.enforced + {(me.id, me.crc32c)}, procs := w.procs[p := Walking(me.epoch, me.owner)])
    case OtherOp(op) =>
      var next := Try(op, w.record, maxBytes);
      if next.None? then w else w.(record := next.value)
    case OpenWriter(p, deferred) =>
      var me := w.procs[p];
      var rotation := if deferred.None? then Idle else Draining(deferred.value, false);
      w.(procs := w.procs[p := Running(me.epoch, me.owner, rotation)])
    case MarkDue(p) => Turn(w, p, Due)
    case Swap(p, fold) => Turn(w, p, Draining(fold, true))
    case Fold(p, answered) => NextFold(w, p, answered, maxBytes)
    case SealDone(p) =>
      var seal := w.procs[p].rotation;
      Turn(w.(enforced := w.enforced + {(seal.id, seal.crc32c)}), p, Idle)
    case SealSkipped(p, floor) => Turn(w, p, Idle)
    case Crash(p) => w.(procs := w.procs[p := Down])
  }

  // -------------------------------------------------------------- invariant

  /** What a process that still holds the current claim may rely on. */
  ghost predicate Relies(r: Record, enforced: Enforced, me: Phase) {
    match me
    case Down => true
    case Claimed(_, _, adopted) => Inherits(adopted, r)
    case Walking(_, _) => AllSettled(r, enforced)
    case Unsealed(_, _, id, crc32c, end) => JustFolded(r, id, crc32c, end)
    case Running(_, _, rotation) =>
      match rotation
      case Idle => AllSettled(r, enforced)
      case Due => AllSettled(r, enforced)
      case Draining(f, _) => AllSettled(r, enforced) || JustFolded(r, f.oldTailId, f.oldTailCrc32c, f.oldTailEnd)
      case Sealing(id, crc32c, end) => JustFolded(r, id, crc32c, end)
  }

  ghost predicate PhaseOk(r: Record, enforced: Enforced, me: Phase) {
    me.Down? ||
    (&& me.epoch <= r.epoch
     && (HoldsClaim(r, me.epoch, me.owner) ==> Relies(r, enforced, me))
     && (me.Running? && me.rotation.Draining? && !me.rotation.live ==> Pair(me.rotation.fold) in enforced))
  }

  /** No two processes ever claimed the same epoch. */
  ghost predicate EpochsDiffer(procs: seq<Phase>) {
    forall p, q :: 0 <= p < q < |procs| && !procs[p].Down? && !procs[q].Down? ==> procs[p].epoch != procs[q].epoch
  }

  ghost predicate Inv(w: World) {
    && Valid(w.record)
    && OthersSettled(w.record, w.enforced)
    && EpochsDiffer(w.procs)
    && forall p :: 0 <= p < |w.procs| ==> PhaseOk(w.record, w.enforced, w.procs[p])
  }

  lemma MoreEnforced(r: Record, a: Enforced, b: Enforced, me: Phase)
    requires a <= b
    ensures OthersSettled(r, a) ==> OthersSettled(r, b)
    ensures AllSettled(r, a) ==> AllSettled(r, b)
    ensures PhaseOk(r, a, me) ==> PhaseOk(r, b, me)
  {
    forall i: nat | i < |r.segments| ensures SettledAt(r, a, i) ==> SettledAt(r, b, i) { }
  }

  /** A non-fold, non-claim write keeps every process's guarantees. */
  lemma OtherOpKeepsPhase(op: Op, r: Record, s: Record, maxBytes: nat, enforced: Enforced, me: Phase)
    requires !op.FoldPending? && !op.Claim? && Valid(r) && Commits(op, r, s, maxBytes) && PhaseOk(r, enforced, me)
    ensures PhaseOk(s, enforced, me)
  {
    hide Valid, AllSettled, JustFolded, Inherits, Commits;
    SameClaim(op, r, s, maxBytes);
    if !me.Down? && HoldsClaim(s, me.epoch, me.owner) {
      OtherOpInherits(op, r, s, maxBytes);
      InheritKeepsSettled(r, s, enforced);
      match me {
        case Claimed(_, _, adopted) => InheritsTransitive(adopted, r, s);
        case Unsealed(_, _, id, crc32c, end) => InheritKeepsFolded(op, r, s, maxBytes, id, crc32c, end);
        case Running(_, _, Sealing(id, crc32c, end)) => InheritKeepsFolded(op, r, s, maxBytes, id, crc32c, end);
        case Running(_, _, Draining(f, _)) =>
          if JustFolded(r, f.oldTailId, f.oldTailCrc32c, f.oldTailEnd) {
            InheritKeepsFolded(op, r, s, maxBytes, f.oldTailId, f.oldTailCrc32c, f.oldTailEnd);
          }
        case _ =>
      }
    }
  }

  lemma SameClaim(op: Op, r: Record, s: Record, maxBytes: nat)
    requires !op.Claim? && Commits(op, r, s, maxBytes)
    ensures s.epoch == r.epoch && s.owner == r.owner
  {
  }

  // ------------------------------------------------ every step keeps the gate

  /** One process moves on, keeping its epoch or stopping. */
  lemma MoveProcess(w: World, r: Record, enforced: Enforced, p: nat, me: Phase)
    requires p < |w.procs| && EpochsDiffer(w.procs) && Valid(r) && OthersSettled(r, enforced)
    requires PhaseOk(r, enforced, me)
    requires me.Down? || (!w.procs[p].Down? && me.epoch == w.procs[p].epoch)
    requires forall q :: 0 <= q < |w.procs| && q != p ==> PhaseOk(r, enforced, w.procs[q])
    ensures Inv(World(r, enforced, w.procs[p := me]))
  {
    hide Valid, OthersSettled, PhaseOk;
  }

  lemma OthersKeep(w: World, enforced: Enforced, p: nat)
    requires Inv(w) && w.enforced <= enforced
    ensures OthersSettled(w.record, enforced)
    ensures forall q :: 0 <= q < |w.procs| ==> PhaseOk(w.record, enforced, w.procs[q])
  {
    hide Valid, OthersSettled, PhaseOk, EpochsDiffer;
    MoreEnforced(w.record, w.enforced, enforced, Down);
    forall q | 0 <= q < |w.procs| ensures PhaseOk(w.record, enforced, w.procs[q]) {
      MoreEnforced(w.record, w.enforced, enforced, w.procs[q]);
    }
  }

  lemma ClaimKeeps(w: World, p: nat, owner: string, maxBytes: nat)
    requires Inv(w) && Enabled(w, ClaimEpoch(p, owner), maxBytes)
    ensures Inv(Next(w, ClaimEpoch(p, owner), maxBytes))
  {
    var r := w.record;
    var s := Try(Claim(owner), r, maxBytes).value;
    OtherOpInherits(Claim(owner), r, s, maxBytes);
    InheritKeepsSettled(r, s, w.enforced);
    SelfInherits(s);
    var me := Claimed(s.epoch, owner, s);
    var procs := w.procs[p := me];
    hide Valid, OthersSettled, Inherits, AllSettled, JustFolded;
    forall q | 0 <= q < |procs| ensures PhaseOk(s, w.enforced, procs[q]) {
      assert PhaseOk(r, w.enforced, w.procs[q]);
    }
    forall q, t | 0 <= q < t < |procs| && !procs[q].Down? && !procs[t].Down? ensures procs[q].epoch != procs[t].epoch {
      assert PhaseOk(r, w.enforced, w.procs[q]) && PhaseOk(r, w.enforced, w.procs[t]);
    }
  }

  lemma SelfInherits(r: Record)
    ensures Inherits(r, r)
  {
    forall i: nat | i < |r.segments| ensures InheritedAt(r, r, i) {
      assert SameEntry(r, i, r, i);
    }
  }

  /** Recovery settles the seal it adopted, however the register moved on under its claim. */
  lemma SettleSettles(adopted: Record, r: Record, enforced: Enforced)
    requires Inherits(adopted, r) && OthersSettled(r, enforced)
    ensures AllSettled(r, enforced + SealPairs(adopted))
  {
    forall i: nat | i < |r.segments| ensures SettledAt(r, enforced + SealPairs(adopted), i) {
      assert InheritedAt(adopted, r, i);
      var k: nat :| k < |adopted.segments| && SameEntry(adopted, k, r, i);
      if r.sealId == Some(r.segments[i].id) {
        if adopted.trunc < NextBase(adopted, k) {
          assert (adopted.segments[k].id, adopted.segments[k].crc32c) in SealPairs(adopted);
        }
      } else {
        assert SettledAt(r, enforced, i);
      }
    }
  }

  lemma SettleKeeps(w: World, p: nat, maxBytes: nat)
    requires Inv(w) && Enabled(w, SettleSeal(p), maxBytes)
    ensures Inv(Next(w, SettleSeal(p), maxBytes))
  {
    var me := w.procs[p];
    var enforced := w.enforced + SealPairs(me.adopted);
    OthersKeep(w, enforced, p);
    assert PhaseOk(w.record, w.enforced, me);
    if HoldsClaim(w.record, me.epoch, me.owner) { SettleSettles(me.adopted, w.record, w.enforced); }
    MoveProcess(w, w.record, enforced, p, Walking(me.epoch, me.owner));
  }

  /** Under a committed fold no other process holds the claim. */
  lemma FoldFences(w: World, p: nat, s: Record, op: Op, maxBytes: nat)
    requires Inv(w) && p < |w.procs| && !w.procs[p].Down? && op.FoldPending? && op.epoch == w.procs[p].epoch
    requires Commits(op, w.record, s, maxBytes)
    ensures forall q :: 0 <= q < |w.procs| && q != p ==> PhaseOk(s, w.enforced, w.procs[q])
  {
    hide Valid, OthersSettled, Relies;
    SameClaim(op, w.record, s, maxBytes);
    forall q | 0 <= q < |w.procs| && q != p ensures PhaseOk(s, w.enforced, w.procs[q]) {
      assert PhaseOk(w.record, w.enforced, w.procs[q]);
    }
  }

  lemma RecoveryFoldKeeps(w: World, p: nat, f: PendingFold, maxBytes: nat)
    requires Inv(w) && Enabled(w, RecoveryFold(p, f), maxBytes)
    ensures Inv(Next(w, RecoveryFold(p, f), maxBytes))
  {
    var me := w.procs[p];
    var op := FoldPending(me.epoch, me.owner, f);
    assert PhaseOk(w.record, w.enforced, me);
    match Try(op, w.record, maxBytes) {
      case None => MoveProcess(w, w.record, w.enforced, p, Down);
      case Some(s) =>
        FoldSettles(op, w.record, s, maxBytes, w.enforced);
        FoldFences(w, p, s, op, maxBytes);
        SameClaim(op, w.record, s, maxBytes);
        var after := if Pair(f) in w.enforced then me
                     else Unsealed(me.epoch, me.owner, f.oldTailId, f.oldTailCrc32c, f.oldTailEnd);
        MoveProcess(w, s, w.enforced, p, after);
    }
  }

  lemma EnforceFoldedKeeps(w: World, p: nat, maxBytes: nat)
    requires Inv(w) && Enabled(w, EnforceFolded(p), maxBytes)
    ensures Inv(Next(w, EnforceFolded(p), maxBytes))
  {
    var me := w.procs[p];
    var enforced := w.enforced + {(me.id, me.crc32c)};
    OthersKeep(w, enforced, p);
    assert PhaseOk(w.record, w.enforced, me);
    if HoldsClaim(w.record, me.epoch, me.owner) { SealSettles(w.record, me.id, me.crc32c, me.end, enforced); }
    MoveProcess(w, w.record, enforced, p, Walking(me.epoch, me.owner));
  }

  lemma OtherOpKeeps(w: World, op: Op, maxBytes: nat)
    requires Inv(w) && Enabled(w, OtherOp(op), maxBytes)
    ensures Inv(Next(w, OtherOp(op), maxBytes))
  {
    var next := Try(op, w.record, maxBytes);
    if next.Some? {
      OtherOpInherits(op, w.record, next.value, maxBytes);
      InheritKeepsSettled(w.record, next.value, w.enforced);
      forall p | 0 <= p < |w.procs| ensures PhaseOk(next.value, w.enforced, w.procs[p]) {
        OtherOpKeepsPhase(op, w.record, next.value, maxBytes, w.enforced, w.procs[p]);
      }
    }
  }

  /** A record that already shows the fold is just folded. */
  lemma AlreadyIsJustFolded(r: Record, f: PendingFold)
    requires Valid(r) && AlreadyFolded(r, f) && LastEntryIs(r, f)
    ensures JustFolded(r, f.oldTailId, f.oldTailCrc32c, f.oldTailEnd)
  {
  }

  /** After a lost response the same fold cannot commit again. */
  lemma FoldOnlyFromSettled(r: Record, f: PendingFold, s: Record, epoch: nat, owner: string, maxBytes: nat,
                            enforced: Enforced)
    requires AllSettled(r, enforced) || JustFolded(r, f.oldTailId, f.oldTailCrc32c, f.oldTailEnd)
    requires Commits(FoldPending(epoch, owner, f), r, s, maxBytes)
    ensures AllSettled(r, enforced)
  {
    assert s.segments[|r.segments|].base == f.oldTailBase;
  }

  lemma FoldKeeps(w: World, p: nat, answered: bool, maxBytes: nat)
    requires Inv(w) && Enabled(w, Fold(p, answered), maxBytes)
    ensures Inv(Next(w, Fold(p, answered), maxBytes))
  {
    var me := w.procs[p];
    var f, live := me.rotation.fold, me.rotation.live;
    var op := FoldPending(me.epoch, me.owner, f);
    assert PhaseOk(w.record, w.enforced, me);
    var after := me.(rotation := AfterFold(f, live));
    match ApplyOp(op, w.record, maxBytes) {
      case Err(_) => MoveProcess(w, w.record, w.enforced, p, Down);
      case Ok(Done) =>
        AlreadyIsJustFolded(w.record, f);
        if !live { SealSettles(w.record, f.oldTailId, f.oldTailCrc32c, f.oldTailEnd, w.enforced); }
        MoveProcess(w, w.record, w.enforced, p, after);
      case Ok(Update(s)) =>
        if !Valid(s) {
          MoveProcess(w, w.record, w.enforced, p, Down);
        } else {
          FoldOnlyFromSettled(w.record, f, s, me.epoch, me.owner, maxBytes, w.enforced);
          FoldSettles(op, w.record, s, maxBytes, w.enforced);
          FoldFences(w, p, s, op, maxBytes);
          SameClaim(op, w.record, s, maxBytes);
          MoveProcess(w, s, w.enforced, p, if answered then after else me);
          assert w.procs[p := me] == w.procs;
        }
    }
  }

  lemma SealKeeps(w: World, step: Step, maxBytes: nat)
    requires Inv(w) && Enabled(w, step, maxBytes) && (step.SealDone? || step.SealSkipped?)
    ensures Inv(Next(w, step, maxBytes))
  {
    var p := step.p;
    var me := w.procs[p];
    var enforced := if step.SealDone? then w.enforced + {(me.rotation.id, me.rotation.crc32c)} else w.enforced;
    OthersKeep(w, enforced, p);
    assert PhaseOk(w.record, w.enforced, me);
    if HoldsClaim(w.record, me.epoch, me.owner) {
      SealSettles(w.record, me.rotation.id, me.rotation.crc32c, me.rotation.end, enforced);
    }
    MoveProcess(w, w.record, enforced, p, me.(rotation := Idle));
  }

  lemma QuietKeeps(w: World, step: Step, maxBytes: nat)
    requires Inv(w) && Enabled(w, step, maxBytes)
    requires step.EnforceTail? || step.OpenWriter? || step.MarkDue? || step.Swap? || step.Crash?
    ensures Inv(Next(w, step, maxBytes))
  {
    hide Valid, OthersSettled, AllSettled, JustFolded;
    var p := step.p;
    var me := w.procs[p];
    assert PhaseOk(w.record, w.enforced, me);
    match step {
      case EnforceTail(_, id, crc32c) =>
        OthersKeep(w, w.enforced + {(id, crc32c)}, p);
      case OpenWriter(_, deferred) =>
        MoveProcess(w, w.record, w.enforced, p,
                    Running(me.epoch, me.owner, if deferred.None? then Idle else Draining(deferred.value, false)));
      case MarkDue(_) => MoveProcess(w, w.record, w.enforced, p, me.(rotation := Due));
      case Swap(_, fold) => MoveProcess(w, w.record, w.enforced, p, me.(rotation := Draining(fold, true)));
      case Crash(_) => MoveProcess(w, w.record, w.enforced, p, Down);
    }
  }

  lemma NextKeeps(w: World, step: Step, maxBytes: nat)
    requires Inv(w) && Enabled(w, step, maxBytes)
    ensures Inv(Next(w, step, maxBytes))
  {
    hide Inv, Next, Enabled;
    match step {
      case ClaimEpoch(p, owner) => ClaimKeeps(w, p, owner, maxBytes);
      case SettleSeal(p) => SettleKeeps(w, p, maxBytes);
      case RecoveryFold(p, f) => RecoveryFoldKeeps(w, p, f, maxBytes);
      case EnforceFolded(p) => EnforceFoldedKeeps(w, p, maxBytes);
      case OtherOp(op) => OtherOpKeeps(w, op, maxBytes);
      case Fold(p, answered) => FoldKeeps(w, p, answered, maxBytes);
      case SealDone(p) => SealKeeps(w, step, maxBytes);
      case SealSkipped(p, floor) => SealKeeps(w, step, maxBytes);
      case _ => QuietKeeps(w, step, maxBytes);
    }
  }

  // ------------------------------------------------------------------- runs

  predicate StepOk(w: World, step: Step, v: World, maxBytes: nat) {
    Enabled(w, step, maxBytes) && v == Next(w, step, maxBytes)
  }

  ghost predicate IsRun(buckets: seq<string>, n: nat, steps: seq<Step>, trace: seq<World>, maxBytes: nat) {
    && ValidBuckets(buckets) && |trace| == |steps| + 1
    && trace[0] == World(Initial(buckets), {}, seq(n, _ => Down))
    && forall i :: 0 <= i < |steps| ==> StepOk(trace[i], steps[i], trace[i + 1], maxBytes)
  }

  lemma {:induction false} RunKeepsInv(buckets: seq<string>, n: nat, steps: seq<Step>, trace: seq<World>, maxBytes: nat,
                                       i: nat)
    requires IsRun(buckets, n, steps, trace, maxBytes) && i < |trace|
    ensures Inv(trace[i])
  {
    if i > 0 {
      RunKeepsInv(buckets, n, steps, trace, maxBytes, i - 1);
      assert StepOk(trace[i - 1], steps[i - 1], trace[i], maxBytes);
      NextKeeps(trace[i - 1], steps[i - 1], maxBytes);
    }
  }

  /**
   At most one unenforced seal: in every reachable state of any number of
   processes, an entry that was never enforced and is not below the floor is the
   one the seal record names.
   */
  lemma AtMostOneUnenforcedSeal(buckets: seq<string>, n: nat, steps: seq<Step>, trace: seq<World>, maxBytes: nat,
                                at: nat, i: nat, j: nat)
    requires IsRun(buckets, n, steps, trace, maxBytes) && at < |trace|
    requires i < |trace[at].record.segments| && !SettledAt(trace[at].record, trace[at].enforced, i)
    requires j < |trace[at].record.segments| && !SettledAt(trace[at].record, trace[at].enforced, j)
    ensures trace[at].record.sealId == Some(trace[at].record.segments[i].id)
    ensures i == j
  {
    RunKeepsInv(buckets, n, steps, trace, maxBytes, at);
    var r := trace[at].record;
    assert OthersSettled(r, trace[at].enforced);
  }
}
