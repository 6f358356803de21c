/**
 Deletion from stale views of the register: truncation tombstones, and the sweep of
 segments left behind by dead writers.
 */
module Deletion {
  import opened Wrappers
  import opened Text
  import opened SegmentIds
  import opened Quorum
  import opened Manifest
  import opened ManifestRuns
  import opened Transport

  // ------------------------------------------------------------------- ids

  /** The register names this id: in the directory, as tail or as pending. */
  predicate Names(r: Record, id: string) {
    Named(r.segments, id) || r.tailId == Some(id) || r.pendingId == Some(id)
  }

  /** Version `i + 1` is the first after `i` to name the id. */
  predicate IntroducedAt(h: History, i: nat, id: string)
    requires i + 1 < |h.records|
  {
    Names(h.records[i + 1], id) && !Names(h.records[i], id)
  }

  /**
   How writers mint ids: from the epoch of the claim they commit under and a local
   counter, so one claim never introduces the same id twice.
   */
  ghost predicate Minting(h: History) {
    && (forall i: nat {:trigger MintStep(h, i)} :: i + 1 < |h.records| ==> MintStep(h, i))
    && forall i: nat, j: nat {:trigger MintOnce(h, i, j)} :: i < j && j + 1 < |h.records| ==> MintOnce(h, i, j)
  }

  ghost predicate MintStep(h: History, i: nat)
    requires i + 1 < |h.records|
  {
    forall id: string :: IntroducedAt(h, i, id) ==> MintedIn(id, h.records[i + 1].epoch)
  }

  ghost predicate MintOnce(h: History, i: nat, j: nat)
    requires i < j && j + 1 < |h.records|
  {
    h.records[i + 1].epoch == h.records[j + 1].epoch ==>
      forall id: string :: !(IntroducedAt(h, i, id) && IntroducedAt(h, j, id))
  }

  ghost predicate MintedIn(id: string, epoch: u64) {
    exists seqno: u64 :: id == SegmentId(epoch, seqno)
  }

  lemma MintedEpoch(id: string, epoch: u64)
    requires MintedIn(id, epoch)
    ensures IdEpoch(id) == Some(epoch)
  {
    var seqno: u64 :| id == SegmentId(epoch, seqno);
    IdEpochOfSegmentId(epoch, seqno);
  }

  lemma InitialNamesNothing(buckets: seq<string>, id: string)
    ensures !Names(Initial(buckets), id)
  {
  }

  lemma {:induction false} WasIntroduced(h: History, maxBytes: nat, k: nat, id: string) returns (i: nat)
    requires OkHistory(h, maxBytes) && k < |h.records| && Names(h.records[k], id)
    ensures i < k && IntroducedAt(h, i, id)
    decreases k
  {
    hide Commits;
    InitialNamesNothing(h.records[0].buckets, id);
    if !Names(h.records[k - 1], id) {
      i := k - 1;
    } else {
      i := WasIntroduced(h, maxBytes, k - 1, id);
    }
  }

  /** An id the register stopped naming never comes back. */
  lemma NeverReused(h: History, maxBytes: nat, k: nat, j: nat, id: string)
    requires OkHistory(h, maxBytes) && Minting(h) && k <= j && j + 1 < |h.records|
    requires Names(h.records[k], id)
    ensures !IntroducedAt(h, j, id)
  {
    hide Names, OkHistory, IdEpoch;
    if IntroducedAt(h, j, id) {
      var i := WasIntroduced(h, maxBytes, k, id);
      assert MintStep(h, i) && MintStep(h, j) && MintOnce(h, i, j);
      MintedEpoch(id, h.records[i + 1].epoch);
      MintedEpoch(id, h.records[j + 1].epoch);
    }
  }

  // ------------------------------------------------------------- truncation

  /** The id is history below the floor: no tail or pending segment, and no entry reaching the floor. */
  ghost predicate Buried(r: Record, id: string) {
    && r.tailId != Some(id) && r.pendingId != Some(id)
    && forall j :: 0 <= j < |r.segments| && r.segments[j].id == id ==> NextBase(r, j) <= r.trunc
  }

  /** Entry `i` ends below the floor of this view. */
  predicate Tombstone(r: Record, i: nat)
    requires i < |r.segments|
  {
    NextBase(r, i) >= 1 && NextBase(r, i) - 1 < r.trunc
  }

  lemma TombstoneIsBuried(r: Record, i: nat)
    requires Valid(r) && i < |r.segments| && Tombstone(r, i)
    ensures Buried(r, r.segments[i].id)
  {
    assert Named(r.segments, r.segments[i].id);
  }

  /** A committed step keeps a buried id buried, unless it introduces the id anew. */
  lemma StepKeepsBuried(op: Op, r: Record, s: Record, maxBytes: nat, id: string)
    requires Valid(r) && Commits(op, r, s, maxBytes) && Buried(r, id)
    requires Names(s, id) ==> Names(r, id)
    ensures Buried(s, id)
  {
    if Names(r, id) {
      var i :| 0 <= i < |r.segments| && r.segments[i].id == id;
      forall j | 0 <= j < |s.segments| && s.segments[j].id == id ensures NextBase(s, j) <= s.trunc {
        if op.RemoveSegments? {
          assert s.segments[j] in s.segments;
          var k := PositionOf(r, s.segments[j]);
          RemovalKeepsTombstones(op, r, s, maxBytes, k, j);
        } else {
          StaysPut(op, r, s, maxBytes, i, j, id);
        }
      }
      BuriedHasNoRole(op, r, s, maxBytes, i, id);
    }
  }

  /** Outside removal, an entry keeps its position and its end. */
  lemma StaysPut(op: Op, r: Record, s: Record, maxBytes: nat, i: nat, j: nat, id: string)
    requires !op.RemoveSegments? && Valid(r) && Commits(op, r, s, maxBytes)
    requires i < |r.segments| && r.segments[i].id == id && j < |s.segments| && s.segments[j].id == id
    ensures j == i && NextBase(s, j) == NextBase(r, i)
  {
    assert s.segments[i] == r.segments[i];
  }

  /** A directory id is neither tail nor pending after any committed step. */
  lemma BuriedHasNoRole(op: Op, r: Record, s: Record, maxBytes: nat, i: nat, id: string)
    requires Valid(r) && Commits(op, r, s, maxBytes) && i < |r.segments| && r.segments[i].id == id && Buried(r, id)
    ensures s.tailId != Some(id) && s.pendingId != Some(id)
  {
    if !op.RemoveSegments? {
      assert s.segments[i].id == id;
      assert Named(s.segments, id);
    }
  }

  /**
   Deletion is safe under stale views: a segment some earlier version put below its
   floor is below the floor of every later version, whatever happened between, and
   is never the tail or the pending segment again.
   */
  lemma {:induction false} BuriedForever(h: History, maxBytes: nat, v: nat, w: nat, id: string)
    requires OkHistory(h, maxBytes) && Minting(h) && v <= w < |h.records|
    requires Names(h.records[v], id) && Buried(h.records[v], id)
    ensures Buried(h.records[w], id)
    decreases w
  {
    hide Buried, Names, Valid, Minting, Commits, Anchored;
    if v < w {
      BuriedForever(h, maxBytes, v, w - 1, id);
      HistoryValid(h, maxBytes, w - 1);
      NeverReused(h, maxBytes, v, w - 1, id);
      assert Commits(h.ops[w - 1], h.records[w - 1], h.records[w], maxBytes);
      StepKeepsBuried(h.ops[w - 1], h.records[w - 1], h.records[w], maxBytes, id);
    }
  }

  /** What became of one copy: confirmed gone, to be retried, or a terminal failure. */
  datatype Outcome = Gone | Deferred | Fatal(code: TransportCode)

  datatype Report = Report(touched: set<string>, deletedBases: set<nat>, fullyDeleted: set<string>)

  /** The copies confirmed gone. */
  function GoneCopies(outcomes: seq<Outcome>): set<nat> {
    set z: nat | z < |outcomes| && outcomes[z] == Gone
  }

  lemma OneMoreCopy(outcomes: seq<Outcome>, z: nat)
    requires z < |outcomes|
    ensures |GoneCopies(outcomes[..z + 1])| == |GoneCopies(outcomes[..z])| + if outcomes[z] == Gone then 1 else 0
  {
    if outcomes[z] == Gone {
      assert GoneCopies(outcomes[..z + 1]) == GoneCopies(outcomes[..z]) + {z};
    } else {
      assert GoneCopies(outcomes[..z + 1]) == GoneCopies(outcomes[..z]);
    }
  }

  /** Counts the absent copies of one segment; the first terminal failure ends the pass. */
  method DeleteCopies(outcomes: seq<Outcome>) returns (r: Result<nat, TransportCode>)
    ensures r.Ok? <==> forall z :: 0 <= z < |outcomes| ==> !outcomes[z].Fatal?
    ensures r.Ok? ==> r.value == |GoneCopies(outcomes)|
    ensures r.Ok? ==> (r.value == |outcomes| <==> forall z :: 0 <= z < |outcomes| ==> outcomes[z] == Gone)
    ensures r.Err? ==> exists z :: 0 <= z < |outcomes| && outcomes[z] == Fatal(r.error)
  {
    var absent := 0;
    assert GoneCopies(outcomes[..0]) == {};
    hide GoneCopies;
    for z := 0 to |outcomes|
      invariant forall y :: 0 <= y < z ==> !outcomes[y].Fatal?
      invariant absent == |GoneCopies(outcomes[..z])| <= z
      invariant absent == z <==> forall y :: 0 <= y < z ==> outcomes[y] == Gone
    {
      OneMoreCopy(outcomes, z);
      match outcomes[z] {
        case Gone => absent := absent + 1;
        case Deferred =>
        case Fatal(code) => return Err(code);
      }
    }
    assert outcomes[..|outcomes|] == outcomes;
    r := Ok(absent);
  }

  /** The entry ends before the view's floor. */
  predicate BelowFloor(view: Record, i: nat)
    requires i < |view.segments|
  {
    1 <= NextBase(view, i) <= view.trunc
  }

  function TouchedIds(view: Record, n: nat): set<string>
    requires n <= |view.segments|
  {
    set i: nat | i < n && BelowFloor(view, i) :: view.segments[i].id
  }

  /** Bases of the touched entries a majority of whose copies is gone. */
  function GoneBases(view: Record, outcomes: seq<seq<Outcome>>, n: nat): set<nat>
    requires n <= |view.segments| == |outcomes|
  {
    set i: nat | i < n && BelowFloor(view, i) &&
      |GoneCopies(outcomes[i])| >= Majority(|outcomes[i]|) :: view.segments[i].base
  }

  predicate AllGone(outcomes: seq<Outcome>) {
    forall z :: 0 <= z < |outcomes| ==> outcomes[z] == Gone
  }

  /** Ids of the touched entries all of whose copies are gone. */
  function GoneIds(view: Record, outcomes: seq<seq<Outcome>>, n: nat): set<string>
    requires n <= |view.segments| == |outcomes|
  {
    set i: nat | i < n && BelowFloor(view, i) && AllGone(outcomes[i]) :: view.segments[i].id
  }

  /**
   One deletion pass over the cached view: only entries below the view's floor are
   touched, an entry counts as deleted when a majority of its copies is gone, and
   only one with every copy gone may leave the register.
   */
  method DeletePass(view: Record, outcomes: seq<seq<Outcome>>) returns (r: Result<Report, TransportCode>)
    requires |outcomes| == |view.segments|
    ensures r.Ok? ==> r.value.touched == TouchedIds(view, |view.segments|)
    ensures r.Ok? ==> r.value.deletedBases == GoneBases(view, outcomes, |view.segments|)
    ensures r.Ok? ==> r.value.fullyDeleted == GoneIds(view, outcomes, |view.segments|)
    ensures r.Ok? <==>
              forall i :: 0 <= i < |outcomes| && BelowFloor(view, i) ==>
                forall z :: 0 <= z < |outcomes[i]| ==> !outcomes[i][z].Fatal?
  {
    hide GoneCopies;
    var touched: set<string>, bases: set<nat>, fully: set<string> := {}, {}, {};
    for i := 0 to |view.segments|
      invariant touched == TouchedIds(view, i) && bases == GoneBases(view, outcomes, i)
      invariant fully == GoneIds(view, outcomes, i)
      invariant forall k :: 0 <= k < i && BelowFloor(view, k) ==>
                  forall z :: 0 <= z < |outcomes[k]| ==> !outcomes[k][z].Fatal?
    {
      assert Tombstone(view, i) <==> BelowFloor(view, i);
      if Tombstone(view, i) {
        touched := touched + {view.segments[i].id};
        var absent := DeleteCopies(outcomes[i]);
        if absent.Err? { return Err(absent.error); }
        if absent.value >= Majority(|outcomes[i]|) { bases := bases + {view.segments[i].base}; }
        if absent.value == |outcomes[i]| { fully := fully + {view.segments[i].id}; }
      }
    }
    r := Ok(Report(touched, bases, fully));
  }

  predicate TouchedBy(view: Record, i: nat, id: string)
    requires i < |view.segments|
  {
    Tombstone(view, i) && view.segments[i].id == id
  }

  /** Nothing a pass over any earlier version touches reaches the current floor. */
  lemma PassNeverTouchesRetained(h: History, maxBytes: nat, v: nat, w: nat, i: nat, id: string)
    requires OkHistory(h, maxBytes) && Minting(h) && v <= w < |h.records|
    requires i < |h.records[v].segments| && TouchedBy(h.records[v], i, id)
    ensures Buried(h.records[w], id)
  {
    HistoryValid(h, maxBytes, v);
    TombstoneIsBuried(h.records[v], i);
    assert Named(h.records[v].segments, id);
    BuriedForever(h, maxBytes, v, w, id);
  }

  // --------------------------------------------------------- dead segments

  /** What recovery hands to the janitor: every id its adopted record names, and its epoch. */
  datatype Sweep = Sweep(adopted: Record, claimedEpoch: u64)

  predicate Eligible(sweep: Sweep, id: string) {
    && !Names(sweep.adopted, id)
    && IdEpoch(id).Some? && IdEpoch(id).value < sweep.claimedEpoch
  }

  /** Which of the listed objects the sweep deletes. */
  method SweepDead(sweep: Sweep, listed: seq<string>) returns (orphans: seq<string>)
    ensures forall id :: id in orphans <==> id in listed && Eligible(sweep, id)
  {
    orphans := [];
    for k := 0 to |listed|
      invariant forall id :: id in orphans <==> id in listed[..k] && Eligible(sweep, id)
    {
      var id := listed[k];
      if Names(sweep.adopted, id) { continue; }
      var epoch := IdEpoch(id);
      if epoch.None? { continue; }
      if epoch.value >= sweep.claimedEpoch { continue; }
      orphans := orphans + [id];
    }
  }

  /**
   The sweep may run arbitrarily late: an id it deletes is named by no version from
   the one it was planned at onward.
   */
  lemma {:induction false} SweptIsNeverNamed(h: History, maxBytes: nat, v: nat, w: nat, id: string)
    requires OkHistory(h, maxBytes) && Minting(h) && v <= w < |h.records|
    requires Eligible(Sweep(h.records[v], h.records[v].epoch), id)
    ensures !Names(h.records[w], id)
    decreases w
  {
    hide Names, OkHistory, IdEpoch;
    if v < w {
      SweptIsNeverNamed(h, maxBytes, v, w - 1, id);
      assert MintStep(h, w - 1);
      if IntroducedAt(h, w - 1, id) {
        HistoryMonotone(h, maxBytes, v, w);
        MintedEpoch(id, h.records[w].epoch);
      }
    }
  }
}
