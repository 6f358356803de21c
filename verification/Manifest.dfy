/**
 The manifest register's record, its structural validation, and every transform
 the control plane applies to it through compare-and-swap.

 The sealed-segment directory stores no ends: an entry ends where the next base
 (or the tail) begins. `CoversIndex` and `NextBase` are that derivation.
 */
module Manifest {
  import opened Wrappers
  import opened Text
  import opened SegmentIds

  /** One sealed segment of the directory. */
  datatype Entry = Entry(id: string, base: u64, crc32c: u32)

  datatype Record = Record(
    epoch: u64,
    owner: string,
    tailBase: u64,
    tailId: Option<string>,
    pendingId: Option<string>,
    sealBase: Option<u64>,
    sealId: Option<string>,
    sealDigest: Option<string>,
    trunc: u64,
    segments: seq<Entry>,
    buckets: seq<string>)

  function Initial(buckets: seq<string>): Record {
    Record(0, "", 0, None, None, None, None, None, 0, [], buckets)
  }

  datatype ManifestError = Fenced | Invalid | DirectoryFull

  // -------------------------------------------------------------- validation

  predicate ValidBuckets(buckets: seq<string>) {
    && |buckets| in {1, 3, 5}
    && (forall i :: 0 <= i < |buckets| ==> buckets[i] != "" && ',' !in buckets[i])
    && (forall i, j :: 0 <= i < j < |buckets| ==> buckets[i] != buckets[j])
  }

  predicate Named(segments: seq<Entry>, id: string) {
    exists i :: 0 <= i < |segments| && segments[i].id == id
  }

  predicate ValidDirectory(r: Record) {
    && (forall i, j :: 0 <= i < j < |r.segments| ==> r.segments[i].base < r.segments[j].base)
    && (forall i, j :: 0 <= i < j < |r.segments| ==> r.segments[i].id != r.segments[j].id)
    && (forall i :: 0 <= i < |r.segments| ==> r.segments[i].base < r.tailBase)
  }

  predicate ValidPending(r: Record) {
    r.pendingId.Some? ==>
      && r.pendingId.value != "" && ':' !in r.pendingId.value && ',' !in r.pendingId.value
      && r.tailId != r.pendingId
      && !Named(r.segments, r.pendingId.value)
  }

  /** While the tail is above the floor, the seal record names the last entry. */
  predicate SealNamesLast(r: Record) {
    r.tailBase > r.trunc && r.segments != [] ==>
      var last := r.segments[|r.segments| - 1];
      r.sealId == Some(last.id) && r.sealBase == Some(last.base)
  }

  predicate Valid(r: Record) {
    && (r.sealBase.Some? <==> r.sealDigest.Some?)
    && (r.epoch > 0 ==> r.tailId.Some?)
    && ValidDirectory(r)
    && (r.tailId.Some? ==> !Named(r.segments, r.tailId.value))
    && ValidPending(r)
    && SealNamesLast(r)
    && ValidBuckets(r.buckets)
  }

  // ---------------------------------------------------------- derived ranges

  /** First index after entry `i`: the next entry's base, or the tail's. */
  function NextBase(r: Record, i: nat): u64
    requires i < |r.segments|
  {
    if i + 1 < |r.segments| then r.segments[i + 1].base else r.tailBase
  }

  /** Entry `i` covers record index `x`. */
  predicate CoversIndex(r: Record, i: nat, x: nat)
    requires i < |r.segments|
  {
    r.segments[i].base <= x < NextBase(r, i)
  }

  // --------------------------------------------------------------- encoding

  function EncodeEntry(e: Entry): string {
    e.id + ":" + Decimal(e.base) + ":" + Hex(e.crc32c, 8)
  }

  /** The `chorus.segments` value: entries joined by commas. */
  function EncodeSegments(segments: seq<Entry>): string {
    if segments == [] then ""
    else if |segments| == 1 then EncodeEntry(segments[0])
    else EncodeSegments(segments[..|segments| - 1]) + "," + EncodeEntry(segments[|segments| - 1])
  }

  const WORST_CASE_ENTRY_BYTES: nat := 16 + 1 + 16 + 1 + 20 + 1 + 8 + 1

  predicate HasRoom(segments: seq<Entry>, additional: nat, maxBytes: nat) {
    |EncodeSegments(segments)| + additional * WORST_CASE_ENTRY_BYTES <= maxBytes
  }

  // -------------------------------------------------------------- transforms

  datatype PendingFold = PendingFold(
    oldTailId: string,
    oldTailBase: u64,
    oldTailEnd: u64,
    oldTailDigest: string,
    oldTailCrc32c: u32,
    consumedPendingId: string,
    successorTailId: string,
    refillPendingId: string)

  /** A control-plane request. All but claims and removals carry the claim they act under. */
  datatype Op =
    | Claim(owner: string)
    | RegisterPending(epoch: nat, owner: string, pendingId: string)
    | ReplaceEmptyFrontier(epoch: nat, owner: string, expectedTail: Option<string>, expectedPending: Option<string>,
                           tailBase: u64, activeId: string, pendingId: string)
    | FoldPending(epoch: nat, owner: string, fold: PendingFold)
    | RaiseTrunc(epoch: nat, owner: string, floor: u64)
    | RemoveSegments(ids: set<string>, witnessedFloor: u64)

  datatype Transform = Done | Update(next: Record)

  predicate HoldsClaim(r: Record, epoch: nat, owner: string) {
    r.epoch == epoch && r.owner == owner
  }

  function ClaimTransform(r: Record, owner: string): Result<Transform, ManifestError> {
    if r.epoch == U64_MAX then Err(Invalid)
    else
      var candidate: u64 := r.epoch + 1;
      Ok(Update(r.(epoch := candidate, owner := owner,
                   tailId := if r.tailId.None? then Some(SegmentId(candidate, 0)) else r.tailId)))
  }

  function RegisterTransform(r: Record, epoch: nat, owner: string,
                             pendingId: string): Result<Transform, ManifestError> {
    if !HoldsClaim(r, epoch, owner) then Err(Fenced)
    else if r.pendingId == Some(pendingId) then Ok(Done)
    else if r.pendingId.Some? then Err(Fenced)
    else Ok(Update(r.(pendingId := Some(pendingId))))
  }

  function ReplaceTransform(r: Record, op: Op): Result<Transform, ManifestError>
    requires op.ReplaceEmptyFrontier?
  {
    if !HoldsClaim(r, op.epoch, op.owner) then Err(Fenced)
    else if r.tailId == Some(op.activeId) && r.pendingId == Some(op.pendingId) &&
      r.tailBase == op.tailBase then Ok(Done)
    else if r.tailId != op.expectedTail || r.pendingId != op.expectedPending ||
      r.tailBase != op.tailBase then Err(Fenced)
    else Ok(Update(r.(tailId := Some(op.activeId), pendingId := Some(op.pendingId))))
  }

  function SaturatingSucc(n: u64): u64 { if n == U64_MAX then n else n + 1 }

  /** The record already shows this fold's outcome. */
  predicate AlreadyFolded(r: Record, f: PendingFold) {
    && r.tailId == Some(f.successorTailId)
    && r.tailBase == SaturatingSucc(f.oldTailEnd)
    && r.pendingId == Some(f.refillPendingId)
    && r.sealId == Some(f.oldTailId)
    && r.sealBase == Some(f.oldTailBase)
    && r.sealDigest == Some(f.oldTailDigest)
  }

  predicate LastEntryIs(r: Record, f: PendingFold) {
    r.segments != [] && r.segments[|r.segments| - 1] == Entry(f.oldTailId, f.oldTailBase, f.oldTailCrc32c)
  }

  function FoldTransform(r: Record, epoch: nat, owner: string, f: PendingFold,
                         maxBytes: nat): Result<Transform, ManifestError> {
    if !HoldsClaim(r, epoch, owner) then Err(Fenced)
    else if AlreadyFolded(r, f) then (if LastEntryIs(r, f) then Ok(Done) else Err(Invalid))
    else if r.tailId != Some(f.oldTailId) || r.tailBase != f.oldTailBase ||
      r.pendingId != Some(f.consumedPendingId) then Err(Fenced)
    else if f.oldTailEnd == U64_MAX then Err(Invalid)
    else if !HasRoom(r.segments, 1, maxBytes) then Err(DirectoryFull)
    else
      Ok(Update(r.(segments := r.segments + [Entry(f.oldTailId, f.oldTailBase, f.oldTailCrc32c)],
                   tailBase := f.oldTailEnd + 1,
                   tailId := Some(f.successorTailId),
                   pendingId := Some(f.refillPendingId),
                   sealBase := Some(f.oldTailBase),
                   sealId := Some(f.oldTailId),
                   sealDigest := Some(f.oldTailDigest))))
  }

  function RaiseTransform(r: Record, epoch: nat, owner: string, floor: u64): Result<Transform, ManifestError> {
    if !HoldsClaim(r, epoch, owner) then Err(Fenced)
    else if r.trunc >= floor then Ok(Done)
    else Ok(Update(r.(trunc := floor)))
  }

  /** Every named entry ends below the witnessed floor, which the register has committed. */
  predicate RemovalAllowed(r: Record, ids: set<string>, floor: u64) {
    && floor <= r.trunc
    && forall i :: 0 <= i < |r.segments| && r.segments[i].id in ids ==>
      1 <= NextBase(r, i) && NextBase(r, i) - 1 < floor
  }

  function Retain(segments: seq<Entry>, ids: set<string>): (kept: seq<Entry>)
    ensures forall e :: e in kept <==> e in segments && e.id !in ids
  {
    if segments == [] then []
    else
      var front := Retain(segments[..|segments| - 1], ids);
      var last := segments[|segments| - 1];
      assert segments == segments[..|segments| - 1] + [last];
      if last.id in ids then front else front + [last]
  }

  function RemoveTransform(r: Record, ids: set<string>, floor: u64): Result<Transform, ManifestError> {
    if !RemovalAllowed(r, ids, floor) then Err(Invalid)
    else if forall i :: 0 <= i < |r.segments| ==> r.segments[i].id !in ids then Ok(Done)
    else Ok(Update(r.(segments := Retain(r.segments, ids))))
  }

  function ApplyOp(op: Op, r: Record, maxBytes: nat): Result<Transform, ManifestError> {
    match op
    case Claim(owner) => ClaimTransform(r, owner)
    case RegisterPending(epoch, owner, pendingId) => RegisterTransform(r, epoch, owner, pendingId)
    case ReplaceEmptyFrontier(_, _, _, _, _, _, _) => ReplaceTransform(r, op)
    case FoldPending(epoch, owner, fold) => FoldTransform(r, epoch, owner, fold, maxBytes)
    case RaiseTrunc(epoch, owner, floor) => RaiseTransform(r, epoch, owner, floor)
    case RemoveSegments(ids, floor) => RemoveTransform(r, ids, floor)
  }

  // ------------------------------------------------------- covered history

  /**
   `e` is the entry for record index `x`: it starts at or before `x` and no other
   entry starts between. `next` is the first index after it.
   */
  predicate Holds(r: Record, e: Entry, next: u64, x: nat) {
    && e in r.segments
    && e.base <= x < next <= r.tailBase
    && (next == r.tailBase || exists f :: f in r.segments && f.base == next)
    && forall f :: f in r.segments ==> f.base <= e.base || next <= f.base
  }

  /** Unless everything below the tail is truncated, some entry holds the floor. */
  ghost predicate Anchored(r: Record) {
    r.trunc < r.tailBase ==> exists e, next :: Holds(r, e, next, r.trunc)
  }

  /** `Holds` is the derived range the code computes by position. */
  lemma HoldsIsDerivedRange(r: Record, i: nat, x: nat)
    requires ValidDirectory(r) && i < |r.segments|
    ensures CoversIndex(r, i, x) <==> Holds(r, r.segments[i], NextBase(r, i), x)
  {
    var e, next := r.segments[i], NextBase(r, i);
    forall f | f in r.segments ensures f.base <= e.base || next <= f.base {
      var k :| 0 <= k < |r.segments| && r.segments[k] == f;
    }
  }

  lemma PositionOf(r: Record, e: Entry) returns (i: nat)
    requires e in r.segments
    ensures i < |r.segments| && r.segments[i] == e
  {
    i :| 0 <= i < |r.segments| && r.segments[i] == e;
  }

  lemma HoldsPosition(r: Record, e: Entry, next: u64, x: nat) returns (i: nat)
    requires ValidDirectory(r) && Holds(r, e, next, x)
    ensures i < |r.segments| && r.segments[i] == e && NextBase(r, i) == next && CoversIndex(r, i, x)
  {
    i := PositionOf(r, e);
    if i + 1 < |r.segments| {
      assert r.segments[i + 1] in r.segments && r.segments[i + 1].base < r.tailBase;
      if next != r.tailBase {
        var f :| f in r.segments && f.base == next;
        var k := PositionOf(r, f);
        assert k > i;
      }
    } else {
      assert forall k :: 0 <= k < |r.segments| ==> r.segments[k].base <= e.base;
    }
  }

  /** At most one entry holds an index, with one range. */
  lemma HoldsUnique(r: Record, e: Entry, n1: u64, f: Entry, n2: u64, x: nat)
    requires ValidDirectory(r) && Holds(r, e, n1, x) && Holds(r, f, n2, x)
    ensures e == f && n1 == n2
  {
    var i := HoldsPosition(r, e, n1, x);
    var j := HoldsPosition(r, f, n2, x);
    assert forall a, b :: 0 <= a < b < |r.segments| ==> NextBase(r, a) <= r.segments[b].base;
  }

  /** Every index between the floor and the tail is held. */
  lemma EveryIndexHeld(r: Record, x: nat) returns (e: Entry, next: u64)
    requires ValidDirectory(r) && Anchored(r) && r.trunc <= x < r.tailBase
    ensures Holds(r, e, next, x)
  {
    var f, n :| Holds(r, f, n, r.trunc);
    var i := HoldsPosition(r, f, n, r.trunc);
    i := Seek(r, i, x);
    HoldsIsDerivedRange(r, i, x);
    e, next := r.segments[i], NextBase(r, i);
  }

  /** From an entry at or before `x`, walk to the one that covers it. */
  lemma Seek(r: Record, from: nat, x: nat) returns (i: nat)
    requires from < |r.segments| && r.segments[from].base <= x < r.tailBase
    ensures from <= i < |r.segments| && CoversIndex(r, i, x)
  {
    i := from;
    while NextBase(r, i) <= x
      invariant from <= i < |r.segments| && r.segments[i].base <= x
      decreases |r.segments| - i
    {
      i := i + 1;
    }
  }

  // ----------------------------------------- what one transform keeps

  /** A committed transform: the op was computed from `r` and its result validated. */
  predicate Commits(op: Op, r: Record, next: Record, maxBytes: nat) {
    ApplyOp(op, r, maxBytes) == Ok(Update(next)) && Valid(next)
  }

  /**
   What a committed request found and what it left, field by field: whose claim, which
   tail and pending ids it expected, which ids it installed, and everything else as it was.
   */
  ghost predicate Effect(op: Op, r: Record, s: Record) {
    match op
    case Claim(owner) =>
      && s == r.(epoch := s.epoch, owner := owner, tailId := s.tailId) && s.epoch == r.epoch + 1
      && (r.tailId.Some? ==> s.tailId == r.tailId)
      && (r.tailId.None? ==> s.tailId == Some(SegmentId(s.epoch, 0)))
    case RegisterPending(epoch, owner, pendingId) =>
      HoldsClaim(r, epoch, owner) && r.pendingId.None? && s == r.(pendingId := Some(pendingId))
    case ReplaceEmptyFrontier(epoch, owner, expectedTail, expectedPending, tailBase, activeId, pendingId) =>
      && HoldsClaim(r, epoch, owner)
      && r.tailId == expectedTail && r.pendingId == expectedPending && r.tailBase == tailBase
      && s.tailId == Some(activeId) && s.pendingId == Some(pendingId)
      && s == r.(tailId := s.tailId, pendingId := s.pendingId)
    case FoldPending(epoch, owner, f) =>
      && HoldsClaim(r, epoch, owner)
      && r.tailId == Some(f.oldTailId) && r.tailBase == f.oldTailBase && r.pendingId == Some(f.consumedPendingId)
      && s.tailId == Some(f.successorTailId) && s.pendingId == Some(f.refillPendingId)
      && s.tailBase == f.oldTailEnd + 1
      && s.segments == r.segments + [Entry(f.oldTailId, f.oldTailBase, f.oldTailCrc32c)]
      && s.sealId == Some(f.oldTailId) && s.sealBase == Some(f.oldTailBase) && s.sealDigest == Some(f.oldTailDigest)
      && s.epoch == r.epoch && s.owner == r.owner && s.trunc == r.trunc && s.buckets == r.buckets
    case RaiseTrunc(epoch, owner, floor) =>
      HoldsClaim(r, epoch, owner) && r.trunc < floor && s == r.(trunc := floor)
    case RemoveSegments(ids, floor) =>
      && s == r.(segments := s.segments) && RemovalAllowed(r, ids, floor)
      && (forall e :: e in s.segments <==> e in r.segments && e.id !in ids)
      && exists e :: e in r.segments && e.id in ids
  }

  /** The request is not on record yet, and a fold has room and covers at least one record. */
  predicate Due(op: Op, r: Record, s: Record, maxBytes: nat) {
    && s != r
    && (op.FoldPending? ==> HasRoom(r.segments, 1, maxBytes) && op.fold.oldTailBase <= op.fold.oldTailEnd)
  }

  /** A request commits with exactly this effect, and commits whenever it can have it. */
  lemma CommitsExactly(op: Op, r: Record, s: Record, maxBytes: nat)
    ensures Commits(op, r, s, maxBytes) ==> Effect(op, r, s)
    ensures !op.RemoveSegments? && Effect(op, r, s) && Valid(s) && Due(op, r, s, maxBytes) ==>
              Commits(op, r, s, maxBytes)
  {
    hide Valid, EncodeSegments;
    if op.RemoveSegments? && Commits(op, r, s, maxBytes) {
      var i :| 0 <= i < |r.segments| && r.segments[i].id in op.ids;
      assert r.segments[i] in r.segments;
    }
  }

  /** A directory entry of `r` above both floors is the same entry, with the same range, in `s`. */
  ghost predicate KeepsHistory(r: Record, s: Record) {
    forall e, next, x :: Holds(r, e, next, x) && s.trunc <= x ==> Holds(s, e, next, x)
  }

  lemma FoldKeepsHistory(op: Op, r: Record, s: Record, maxBytes: nat)
    requires op.FoldPending? && Valid(r) && Commits(op, r, s, maxBytes)
    ensures KeepsHistory(r, s) && r.tailBase < s.tailBase && s.trunc == r.trunc
    ensures s.segments == r.segments + [Entry(op.fold.oldTailId, r.tailBase, op.fold.oldTailCrc32c)]
    ensures forall x :: r.tailBase <= x < s.tailBase ==>
              Holds(s, Entry(op.fold.oldTailId, r.tailBase, op.fold.oldTailCrc32c), s.tailBase, x)
  {
    var added := Entry(op.fold.oldTailId, r.tailBase, op.fold.oldTailCrc32c);
    assert s.segments[|r.segments|] == added;
    assert added.base < s.tailBase;
    forall f ensures f in s.segments <==> f in r.segments || f == added {
    }
    forall e, next, x | Holds(r, e, next, x) && s.trunc <= x ensures Holds(s, e, next, x) {
      if next == r.tailBase {
        assert added in s.segments && added.base == next;
      } else {
        var f :| f in r.segments && f.base == next;
        assert f in s.segments;
      }
    }
    forall f | f in s.segments ensures f.base <= added.base {
      if f in r.segments {
        var k := PositionOf(r, f);
      }
    }
  }

  lemma RemoveKeepsHistory(op: Op, r: Record, s: Record, maxBytes: nat)
    requires op.RemoveSegments? && Valid(r) && ApplyOp(op, r, maxBytes) == Ok(Update(s))
    ensures KeepsHistory(r, s) && s.tailBase == r.tailBase && s.trunc == r.trunc
  {
    forall e, next, x | Holds(r, e, next, x) && s.trunc <= x ensures Holds(s, e, next, x) {
      var i := HoldsPosition(r, e, next, x);
      assert e.id !in op.ids;
      if next != r.tailBase {
        var f := r.segments[i + 1];
        assert f.base == next && f in r.segments;
        assert NextBase(r, i + 1) - 1 >= f.base by {
          if i + 2 < |r.segments| { assert r.segments[i + 1].base < r.segments[i + 2].base; }
        }
        assert f.id !in op.ids;
        assert f in s.segments;
      }
    }
  }

  /** Every committed transform keeps the history above the floor and never lowers a bound. */
  lemma CommitKeepsHistory(op: Op, r: Record, s: Record, maxBytes: nat)
    requires Valid(r) && Commits(op, r, s, maxBytes)
    ensures KeepsHistory(r, s)
    ensures r.trunc <= s.trunc && r.tailBase <= s.tailBase && r.epoch <= s.epoch && r.buckets == s.buckets
  {
    if op.FoldPending? {
      FoldKeepsHistory(op, r, s, maxBytes);
    } else if op.RemoveSegments? {
      RemoveKeepsHistory(op, r, s, maxBytes);
    }
  }

  lemma CommitKeepsAnchor(op: Op, r: Record, s: Record, maxBytes: nat)
    requires Valid(r) && Anchored(r) && Commits(op, r, s, maxBytes)
    ensures Anchored(s)
  {
    CommitKeepsHistory(op, r, s, maxBytes);
    if s.trunc < s.tailBase {
      if s.trunc < r.tailBase {
        var e, next := EveryIndexHeld(r, s.trunc);
        assert Holds(s, e, next, s.trunc);
      } else {
        FoldKeepsHistory(op, r, s, maxBytes);
        var added := Entry(op.fold.oldTailId, r.tailBase, op.fold.oldTailCrc32c);
        assert Holds(s, added, s.tailBase, s.trunc);
      }
    }
  }

  /**
   A retry after a lost response finds its own work: on the version a request
   committed, the same request reports done. A claim instead takes a further epoch.
   */
  lemma RetryFindsItsCommit(op: Op, r: Record, s: Record, maxBytes: nat)
    requires Valid(r) && Commits(op, r, s, maxBytes)
    ensures !op.Claim? ==> ApplyOp(op, s, maxBytes) == Ok(Done)
    ensures op.Claim? && s.epoch < U64_MAX ==> ApplyOp(op, s, maxBytes) == Ok(Update(s.(epoch := s.epoch + 1)))
  {
    if op.RemoveSegments? {
      forall i | 0 <= i < |s.segments| ensures s.segments[i].id !in op.ids {
        assert s.segments[i] in s.segments;
      }
    } else if op.FoldPending? {
      assert s.segments[|s.segments| - 1] == Entry(op.fold.oldTailId, op.fold.oldTailBase, op.fold.oldTailCrc32c);
    }
  }

  // ------------------------------------------------------------ removals

  lemma {:induction false} RetainOrdered(segments: seq<Entry>, ids: set<string>)
    requires forall i, j :: 0 <= i < j < |segments| ==>
               segments[i].base < segments[j].base && segments[i].id != segments[j].id
    ensures forall i, j :: 0 <= i < j < |Retain(segments, ids)| ==>
              Retain(segments, ids)[i].base < Retain(segments, ids)[j].base &&
              Retain(segments, ids)[i].id != Retain(segments, ids)[j].id
    decreases |segments|
  {
    if segments != [] {
      var front := segments[..|segments| - 1];
      RetainOrdered(front, ids);
      var last := segments[|segments| - 1];
      var kept := Retain(front, ids);
      forall i | 0 <= i < |kept| ensures kept[i].base < last.base && kept[i].id != last.id {
        assert kept[i] in front;
        var k :| 0 <= k < |front| && front[k] == kept[i];
        assert segments[k] == kept[i];
      }
    }
  }

  /** Removal never fails validation: what it leaves is again a valid record. */
  lemma RemovalKeepsValid(op: Op, r: Record, s: Record, maxBytes: nat)
    requires op.RemoveSegments? && Valid(r) && ApplyOp(op, r, maxBytes) == Ok(Update(s))
    ensures Valid(s)
  {
    var kept := s.segments;
    RetainOrdered(r.segments, op.ids);
    forall i | 0 <= i < |kept| ensures kept[i].base < r.tailBase && kept[i] in r.segments {
      assert kept[i] in kept;
      var k := PositionOf(r, kept[i]);
    }
    forall id | Named(kept, id) ensures Named(r.segments, id) {
      var i :| 0 <= i < |kept| && kept[i].id == id;
      var k := PositionOf(r, kept[i]);
    }
    if s.tailBase > s.trunc && kept != [] {
      var last := r.segments[|r.segments| - 1];
      assert NextBase(r, |r.segments| - 1) == r.tailBase;
      assert last.id !in op.ids;
      assert kept[|kept| - 1] == last;
    }
  }

  /**
   Removal takes only history below the floor, and an entry it leaves below the
   floor stays below it: no tombstone becomes live again, although its derived
   end may move up to the next surviving base.
   */
  lemma RemovalKeepsTombstones(op: Op, r: Record, s: Record, maxBytes: nat, i: nat, j: nat)
    requires op.RemoveSegments? && Valid(r) && ApplyOp(op, r, maxBytes) == Ok(Update(s)) && Valid(s)
    requires i < |r.segments| && j < |s.segments| && s.segments[j] == r.segments[i]
    ensures NextBase(r, i) <= r.trunc <==> NextBase(s, j) <= s.trunc
  {
    if r.trunc < NextBase(r, i) {
      LiveStaysLive(op, r, s, maxBytes, i, j);
    } else {
      RemoveKeepsHistory(op, r, s, maxBytes);
      TombstoneStaysBelow(r, s, i, j);
    }
  }

  lemma SamePosition(s: Record, j: nat, k: nat)
    requires ValidDirectory(s) && j < |s.segments| && k < |s.segments| && s.segments[j] == s.segments[k]
    ensures j == k
  {
  }

  lemma LiveStaysLive(op: Op, r: Record, s: Record, maxBytes: nat, i: nat, j: nat)
    requires op.RemoveSegments? && Valid(r) && ApplyOp(op, r, maxBytes) == Ok(Update(s)) && Valid(s)
    requires i < |r.segments| && j < |s.segments| && s.segments[j] == r.segments[i] && r.trunc < NextBase(r, i)
    ensures NextBase(s, j) == NextBase(r, i)
  {
    RemoveKeepsHistory(op, r, s, maxBytes);
    var e := r.segments[i];
    var x: nat := if e.base < r.trunc then r.trunc else e.base;
    assert e.base < NextBase(r, i);
    HoldsIsDerivedRange(r, i, x);
    var k := HoldsPosition(s, e, NextBase(r, i), x);
    SamePosition(s, j, k);
  }

  lemma LaterBase(s: Record, j: nat, k: nat)
    requires ValidDirectory(s) && j < |s.segments| && k < |s.segments| && s.segments[j].base < s.segments[k].base
    ensures j < k && NextBase(s, j) <= s.segments[k].base
  {
  }

  lemma TombstoneStaysBelow(r: Record, s: Record, i: nat, j: nat)
    requires ValidDirectory(r) && ValidDirectory(s) && KeepsHistory(r, s) && s.trunc == r.trunc
    requires s.tailBase == r.tailBase
    requires i < |r.segments| && j < |s.segments| && s.segments[j] == r.segments[i]
    requires NextBase(r, i) <= r.trunc
    ensures NextBase(s, j) <= s.trunc
  {
    if s.trunc < s.tailBase {
      // The entry holding the floor starts after `i` and is kept.
      var p := Seek(r, i + 1, r.trunc);
      HoldsIsDerivedRange(r, p, r.trunc);
      var k := HoldsPosition(s, r.segments[p], NextBase(r, p), r.trunc);
      LaterBase(s, j, k);
    }
  }
}
