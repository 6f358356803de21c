/**
 From receipt to replay: a record the engine reported as committed is replayed, at
 the number it was given, by any recovery of the write frontier that succeeds, and
 comes out of the replay stream at that number.
 */
module Receipts {
  import opened Wrappers
  import opened Text
  import opened Records
  import opened Recovery
  import E = Engine
  import F = Frontier
  import S = SegmentRuns
  import M = Manifest
  import MR = ManifestRuns
  import W = Walk

  /** The engine's view of a segment: it counts what the writer admitted, and may lag the writer's watermark. */
  predicate Views(e: E.Segment, s: S.Segment) {
    e.admitted == |s.records| == s.tracker.admitted && e.committed <= s.tracker.committed
  }

  /** The engine's segments end with the old tail `t`, followed by at most the pending one. */
  predicate EndsWith(segments: seq<E.Segment>, t: nat, tail: S.Segment, pending: S.Segment) {
    && t < |segments| <= t + 2 && Views(segments[t], tail)
    && if t + 1 < |segments| then Views(segments[t + 1], pending) else pending.records == []
  }

  lemma {:induction false} BasesGrow(segments: seq<E.Segment>, start: nat, j: nat, k: nat)
    requires E.Chained(segments, start) && j < k < |segments|
    ensures segments[j].base + segments[j].admitted <= segments[k].base
    decreases k
  {
    assert E.FollowsAt(segments, k);
    if j < k - 1 { BasesGrow(segments, start, j, k - 1); }
  }

  /** The rule the frontier walk relies on is what the engine's swap keeps. */
  lemma EngineKeepsSwapRule(n: nat, segments: seq<E.Segment>, start: nat, t: nat, steps: seq<S.Step>,
                            trace: seq<S.Segment>, pending: S.Segment)
    requires E.Chained(segments, start) && n >= 1 && S.IsRun(n, steps, trace)
    requires EndsWith(segments, t, trace[|steps|], pending)
    ensures F.SwapRule(trace[|steps|], pending)
  {
    S.RunKeepsInv(n, steps, trace, |steps|);
    if t + 1 < |segments| { assert E.FollowsAt(segments, t + 1); }
  }

  /** Where a backed record lies in the frontier. */
  lemma BackedInFrontier(segments: seq<E.Segment>, start: nat, t: nat, x: nat)
    requires E.Chained(segments, start) && t < |segments| <= t + 2 && E.Backed(x, segments) && segments[t].base <= x
    ensures E.HeldIn(segments[t], x) || (t + 1 < |segments| && E.HeldIn(segments[t + 1], x))
  {
    var k :| 0 <= k < |segments| && E.HeldIn(segments[k], x);
    if k < t { BasesGrow(segments, start, k, t); }
  }

  /** The record the segments hold under number `x`. */
  function RecordAt(segments: seq<E.Segment>, t: nat, tail: S.Segment, pending: S.Segment, x: nat): Option<Bytes>
    requires t < |segments|
  {
    if segments[t].base <= x < segments[t].base + |tail.records| then Some(tail.records[x - segments[t].base])
    else if t + 1 < |segments| && segments[t + 1].base <= x < segments[t + 1].base + |pending.records| then
      Some(pending.records[x - segments[t + 1].base])
    else None
  }

  /**
   Every successful receipt is kept: whatever the writer, its lanes and the engine did
   until the process died, and whichever majorities answered, a walk that succeeds
   replays the record of each positive receipt from the old tail's base on at exactly
   its number.
   */
  lemma ReceiptIsReplayed(segments: seq<E.Segment>, start: nat, receipts: seq<E.Receipt>, done: nat, i: nat, t: nat,
                          n: nat, stepsT: seq<S.Step>, traceT: seq<S.Segment>, probesT: seq<Probe>,
                          tail: RecoveryCandidate, mT: nat,
                          stepsP: seq<S.Step>, traceP: seq<S.Segment>, probesP: seq<Probe>, pending: RecoveryCandidate,
                          mP: nat, bootstrap: bool, f: F.Frontier)
    requires |traceT| == |stepsT| + 1 && |traceP| == |stepsP| + 1
    requires E.Chained(segments, start) && E.Ordered(receipts, start, done, segments)
    requires F.Recovers(n, stepsT, traceT, probesT, tail, mT) && F.Recovers(n, stepsP, traceP, probesP, pending, mP)
    requires EndsWith(segments, t, traceT[|stepsT|], traceP[|stepsP|])
    requires F.Plan(bootstrap, tail, Some(pending)) == Ok(f)
    requires i < |receipts| && receipts[i].ok && segments[t].base <= receipts[i].seqno
    ensures var x, base := receipts[i].seqno, segments[t].base;
            && x == start + i && x - base < |F.Replayed(f.predecessors)|
            && RecordAt(segments, t, traceT[|stepsT|], traceP[|stepsP|], x)
                == Some(F.Replayed(f.predecessors)[x - base])
  {
    hide F.Recovers, F.Plan, F.Replayed, F.SwapRule, F.Acknowledged, CompleteRecords, RecordAt;
    hide E.Chained, E.Ordered, E.Backed, E.HeldIn, Views;
    var x := receipts[i].seqno;
    var last, next := traceT[|stepsT|], traceP[|stepsP|];
    PositiveReceipt(receipts, start, done, segments, i);
    RecoversRun(n, stepsT, traceT, probesT, tail, mT);
    EngineKeepsSwapRule(n, segments, start, t, stepsT, traceT, next);
    F.RotationLosesNothing(n, stepsT, traceT, probesT, tail, mT, stepsP, traceP, probesP, pending, mP, bootstrap, f);
    BackedInFrontier(segments, start, t, x);
    Placed(segments, start, t, last, next, F.Replayed(f.predecessors), x);
  }

  lemma PositiveReceipt(receipts: seq<E.Receipt>, start: nat, done: nat, segments: seq<E.Segment>, i: nat)
    requires E.Ordered(receipts, start, done, segments) && i < |receipts| && receipts[i].ok
    ensures receipts[i].seqno == start + i && E.Backed(receipts[i].seqno, segments)
  {
  }

  lemma RecoversRun(n: nat, steps: seq<S.Step>, trace: seq<S.Segment>, probes: seq<Probe>, c: RecoveryCandidate, m: nat)
    requires F.Recovers(n, steps, trace, probes, c, m)
    ensures n >= 1 && S.IsRun(n, steps, trace)
  {
  }

  lemma Placed(segments: seq<E.Segment>, start: nat, t: nat, tail: S.Segment, pending: S.Segment, replayed: seq<Bytes>,
               x: nat)
    requires E.Chained(segments, start) && EndsWith(segments, t, tail, pending)
    requires E.HeldIn(segments[t], x) || (t + 1 < |segments| && E.HeldIn(segments[t + 1], x))
    requires F.Acknowledged(tail) <= replayed
    requires pending.tracker.committed > 0 ==> tail.records + F.Acknowledged(pending) <= replayed
    ensures x - segments[t].base < |replayed| && x >= segments[t].base
    ensures RecordAt(segments, t, tail, pending, x) == Some(replayed[x - segments[t].base])
  {
    var base := segments[t].base;
    if E.HeldIn(segments[t], x) {
      assert F.Acknowledged(tail)[x - base] == replayed[x - base];
    } else {
      assert E.FollowsAt(segments, t + 1);
      var k := x - segments[t + 1].base;
      assert (tail.records + F.Acknowledged(pending))[|tail.records| + k] == replayed[x - base];
    }
  }

  // ------------------------------------------------------- the replay stream

  type Reader = W.Link -> Option<seq<Bytes>>

  /** A recovered segment names as many ends as its bytes hold records. */
  predicate WellCounted(predecessors: seq<RecoveredTail>) {
    forall k :: 0 <= k < |predecessors| ==> CountsRecords(predecessors[k])
  }

  predicate CountsRecords(tail: RecoveredTail) {
    |tail.recordEnds| == |CompleteRecords(tail.canonical)| != 0
  }

  /** Reading a recovered segment, if it succeeds, gives the records recovery decided on. */
  ghost predicate ReadsDecided(read: Reader, links: seq<W.Link>, predecessors: seq<RecoveredTail>) {
    && |links| == |predecessors|
    && forall k :: 0 <= k < |links| && read(links[k]).Some? ==>
         read(links[k]).value == CompleteRecords(predecessors[k].canonical)
  }

  lemma {:induction false} ReplayedCount(predecessors: seq<RecoveredTail>)
    requires WellCounted(predecessors)
    ensures |F.Replayed(predecessors)| == W.RecoveredCount(predecessors) && W.AllNonEmpty(predecessors)
    decreases |predecessors|
  {
    hide CompleteRecords;
    if predecessors != [] {
      assert CountsRecords(predecessors[0]);
      ReplayedCount(predecessors[1..]);
    }
  }

  /** What a recovered link stores under a number is what the walk replays there. */
  lemma {:induction false} LinkStoresReplayed(ids: seq<string>, base: nat, predecessors: seq<RecoveredTail>,
                                              crcs: seq<u32>, read: Reader, k: nat, x: nat, payload: Bytes)
    requires |ids| == |crcs| == |predecessors| && WellCounted(predecessors) && W.AllNonEmpty(predecessors)
    requires ReadsDecided(read, W.RecoveredLinks(ids, base, predecessors, crcs), predecessors)
    requires k < |predecessors| && W.StoredIn(W.RecoveredLinks(ids, base, predecessors, crcs)[k], read, x, payload)
    ensures base <= x && x - base < |F.Replayed(predecessors)| && F.Replayed(predecessors)[x - base] == payload
    decreases |predecessors|
  {
    hide CompleteRecords;
    W.RecoveredUnfold(ids, base, predecessors, crcs);
    var links := W.RecoveredLinks(ids, base, predecessors, crcs);
    var first := CompleteRecords(predecessors[0].canonical);
    assert CountsRecords(predecessors[0]);
    assert read(links[0]).Some? ==> read(links[0]).value == first;
    if k > 0 {
      var count := |predecessors[0].recordEnds|;
      var rest := W.RecoveredLinks(ids[1..], base + count, predecessors[1..], crcs[1..]);
      assert links[1..] == rest && links[k] == rest[k - 1];
      forall i | 0 <= i < |rest| && read(rest[i]).Some?
        ensures read(rest[i]).value == CompleteRecords(predecessors[1..][i].canonical)
      {
        assert rest[i] == links[i + 1];
      }
      LinkStoresReplayed(ids[1..], base + count, predecessors[1..], crcs[1..], read, k - 1, x, payload);
    }
  }

  lemma RecoveredLinksCount(ids: seq<string>, base: nat, predecessors: seq<RecoveredTail>, crcs: seq<u32>)
    requires |ids| == |crcs| == |predecessors| && W.AllNonEmpty(predecessors)
    ensures |W.RecoveredLinks(ids, base, predecessors, crcs)| == |predecessors|
    decreases |predecessors|
  {
    if predecessors != [] {
      W.RecoveredUnfold(ids, base, predecessors, crcs);
      RecoveredLinksCount(ids[1..], base + |predecessors[0].recordEnds|, predecessors[1..], crcs[1..]);
    }
  }

  lemma LiveIsBelow(adopted: M.Record, checkpoint: nat, k: nat)
    requires M.Valid(adopted) && M.Anchored(adopted) && adopted.trunc <= checkpoint
    requires k < |W.LiveLinks(adopted, |adopted.segments|)|
    ensures W.LiveLinks(adopted, |adopted.segments|)[k].end < adopted.tailBase
  {
    W.CheckpointIsCovered(adopted, checkpoint);
    hide M.Valid, M.Anchored, W.LiveLinks;
    W.ReachStep(W.LiveLinks(adopted, |adopted.segments|), W.ChainStart(adopted), adopted.tailBase, k);
  }

  /** Above the directory, the replay stream is the recovered frontier. */
  lemma StreamIsReplayed(adopted: M.Record, ids: seq<string>, predecessors: seq<RecoveredTail>, crcs: seq<u32>,
                         read: Reader, checkpoint: nat, emitted: seq<W.WalRecord>, x: nat)
    requires M.Valid(adopted) && M.Anchored(adopted) && adopted.trunc <= checkpoint <= x && adopted.tailBase <= x
    requires |ids| == |crcs| == |predecessors| && WellCounted(predecessors) && W.AllNonEmpty(predecessors)
    requires ReadsDecided(read, W.RecoveredLinks(ids, adopted.tailBase, predecessors, crcs), predecessors)
    requires W.Emits(emitted, W.ReplayLinks(adopted, ids, predecessors, crcs), read, checkpoint,
                     W.ReplayEnd(adopted, predecessors))
    requires x < W.ReplayEnd(adopted, predecessors)
    ensures x - checkpoint < |emitted| && emitted[x - checkpoint].seqno == x
    ensures x - adopted.tailBase < |F.Replayed(predecessors)|
    ensures emitted[x - checkpoint].payload == F.Replayed(predecessors)[x - adopted.tailBase]
  {
    hide M.Valid, M.Anchored, W.LiveLinks, W.RecoveredLinks, F.Replayed, CompleteRecords, ReadsDecided, WellCounted;
    hide W.AllNonEmpty, W.RecoveredCount;
    var live := W.LiveLinks(adopted, |adopted.segments|);
    var recovered := W.RecoveredLinks(ids, adopted.tailBase, predecessors, crcs);
    var record := emitted[x - checkpoint];
    assert W.EmittedAs(record, live + recovered, read, checkpoint + (x - checkpoint));
    var k :| 0 <= k < |live + recovered| && W.StoredIn((live + recovered)[k], read, x, record.payload);
    RecoveredLinksCount(ids, adopted.tailBase, predecessors, crcs);
    if k < |live| {
      LiveIsBelow(adopted, checkpoint, k);
    } else {
      assert (live + recovered)[k] == recovered[k - |live|];
      LinkStoresReplayed(ids, adopted.tailBase, predecessors, crcs, read, k - |live|, x, record.payload);
    }
  }

  lemma RecoveredCountsRecords(n: nat, steps: seq<S.Step>, trace: seq<S.Segment>, probes: seq<Probe>,
                               c: RecoveryCandidate, m: nat)
    requires F.Recovers(n, steps, trace, probes, c, m) && c.NonEmpty?
    ensures CountsRecords(c.tail)
  {
    F.RecoveredIsPrefix(probes, trace[|steps|].disks, trace[|steps|].records, Ok(c), m);
  }

  lemma PlanCountsRecords(bootstrap: bool, tail: RecoveryCandidate, pending: RecoveryCandidate, f: F.Frontier)
    requires F.Plan(bootstrap, tail, Some(pending)) == Ok(f)
    requires (tail.NonEmpty? ==> CountsRecords(tail.tail)) && (pending.NonEmpty? ==> CountsRecords(pending.tail))
    ensures WellCounted(f.predecessors)
  {
    hide CountsRecords;
  }

  lemma FrontierCountsRecords(n: nat, stepsT: seq<S.Step>, traceT: seq<S.Segment>, probesT: seq<Probe>,
                              tail: RecoveryCandidate, mT: nat,
                              stepsP: seq<S.Step>, traceP: seq<S.Segment>, probesP: seq<Probe>,
                              pending: RecoveryCandidate, mP: nat, bootstrap: bool, f: F.Frontier)
    requires F.Recovers(n, stepsT, traceT, probesT, tail, mT) && F.Recovers(n, stepsP, traceP, probesP, pending, mP)
    requires F.Plan(bootstrap, tail, Some(pending)) == Ok(f)
    ensures WellCounted(f.predecessors) && |F.Replayed(f.predecessors)| == W.RecoveredCount(f.predecessors)
  {
    hide F.Recovers, F.Plan, F.Replayed, CountsRecords, WellCounted, W.RecoveredCount;
    if tail.NonEmpty? { RecoveredCountsRecords(n, stepsT, traceT, probesT, tail, mT); }
    if pending.NonEmpty? { RecoveredCountsRecords(n, stepsP, traceP, probesP, pending, mP); }
    PlanCountsRecords(bootstrap, tail, pending, f);
    ReplayedCount(f.predecessors);
  }

  /**
   From a positive receipt to the stream a restarted database reads: replay from any
   checkpoint at or above the floor and at or below the record's number emits, at that
   number, exactly the record that was acknowledged.
   */
  lemma ReceiptIsEmitted(segments: seq<E.Segment>, start: nat, receipts: seq<E.Receipt>, done: nat, i: nat, t: nat,
                         n: nat, stepsT: seq<S.Step>, traceT: seq<S.Segment>, probesT: seq<Probe>,
                         tail: RecoveryCandidate, mT: nat,
                         stepsP: seq<S.Step>, traceP: seq<S.Segment>, probesP: seq<Probe>, pending: RecoveryCandidate,
                         mP: nat, bootstrap: bool, f: F.Frontier,
                         h: MR.History, maxBytes: nat, v: nat, ids: seq<string>, crcs: seq<u32>, read: Reader,
                         checkpoint: nat, emitted: seq<W.WalRecord>)
    requires |traceT| == |stepsT| + 1 && |traceP| == |stepsP| + 1
    requires E.Chained(segments, start) && E.Ordered(receipts, start, done, segments)
    requires F.Recovers(n, stepsT, traceT, probesT, tail, mT) && F.Recovers(n, stepsP, traceP, probesP, pending, mP)
    requires EndsWith(segments, t, traceT[|stepsT|], traceP[|stepsP|])
    requires F.Plan(bootstrap, tail, Some(pending)) == Ok(f)
    requires i < |receipts| && receipts[i].ok && segments[t].base <= receipts[i].seqno
    requires MR.OkHistory(h, maxBytes) && v < |h.records| && h.records[v].tailBase == segments[t].base
    requires h.records[v].trunc <= checkpoint <= receipts[i].seqno
    requires |ids| == |crcs| == |f.predecessors| && W.AllNonEmpty(f.predecessors)
    requires ReadsDecided(read, W.RecoveredLinks(ids, segments[t].base, f.predecessors, crcs), f.predecessors)
    requires W.Emits(emitted, W.ReplayLinks(h.records[v], ids, f.predecessors, crcs), read, checkpoint,
                     W.ReplayEnd(h.records[v], f.predecessors))
    ensures var x := receipts[i].seqno;
            && x - checkpoint < |emitted| && emitted[x - checkpoint].seqno == x
            && RecordAt(segments, t, traceT[|stepsT|], traceP[|stepsP|], x) == Some(emitted[x - checkpoint].payload)
  {
    hide F.Recovers, F.Plan, F.Replayed, CompleteRecords, RecordAt, E.Chained, E.Ordered, Views, CountsRecords;
    hide W.Emits, W.ReplayLinks, W.RecoveredLinks, W.RecoveredCount, ReadsDecided, W.AllNonEmpty, WellCounted;
    hide M.Valid, M.Anchored, MR.OkHistory, W.LiveLinks, W.Contiguous;
    ReceiptIsReplayed(segments, start, receipts, done, i, t, n, stepsT, traceT, probesT, tail, mT,
                      stepsP, traceP, probesP, pending, mP, bootstrap, f);
    FrontierCountsRecords(n, stepsT, traceT, probesT, tail, mT, stepsP, traceP, probesP, pending, mP, bootstrap, f);
    W.ReachableWalks(h, maxBytes, v);
    StreamIsReplayed(h.records[v], ids, f.predecessors, crcs, read, checkpoint, emitted, receipts[i].seqno);
  }
}
