/**
 Any number of recoveries of one segment beside its old writer: each fences a zone and
 takes its size at one moment, reads it again at a later one, decides, and may finalize
 and rewrite copies from its decision before it crashes, is superseded, or goes on. A
 recovery may also be asked for the record count a fold decided. A later recovery reads
 whatever the earlier ones left. Every decision contains every record the writer ever
 commits.
 */
module RecoveryChains {
  import opened Wrappers
  import opened Records
  import opened Quorum
  import opened CommitTracking
  import opened Recovery
  import S = SegmentRuns

  /**
   The writer's segment, each zone's copy as it is now, the bytes recoveries decided on,
   and whether the writer has swapped to another segment.
   */
  datatype World = World(seg: S.Segment, copies: seq<Bytes>, decisions: seq<Bytes>, swapped: bool)

  datatype Step =
    | Writer(step: S.Step)
    | Swap
    | Recover(probes: seq<Probe>, seen: seq<nat>, again: seq<nat>, expected: Option<nat>,
              found: RecoveryCandidate, m: nat)
    | Finalize(zone: nat)
    | Rewrite(zone: nat, decision: nat)

  function Start(n: nat): World {
    World(S.Start(n), seq(n, _ => []), [], false)
  }

  /** The first answer is true of the copy at that moment, the second reading of the copy at a later one. */
  predicate AnswersTruly(p: Probe, first: Bytes, second: Bytes) {
    match p.answer
    case Live(size) => size == |first| && ReadTruly(p, second)
    case _ => ReadTruly(p, first)
  }

  /** Zone `z` was fenced and answered at moment `seen[z]` and was read again at `again[z]`. */
  ghost predicate ReadOk(trace: seq<World>, k: nat, probes: seq<Probe>, seen: seq<nat>, again: seq<nat>, z: nat)
    requires k < |trace| && z < |probes| == |seen| == |again|
  {
    Answered(probes[z]) ==>
      && seen[z] <= again[z] <= k && z < |trace[seen[z]].copies| == |trace[seen[z]].seg.fenced|
      && z < |trace[again[z]].copies| && trace[seen[z]].seg.fenced[z]
      && AnswersTruly(probes[z], trace[seen[z]].copies[z], trace[again[z]].copies[z])
  }

  /** What recovery works with: the second reading of a live zone it froze, else the first answer. */
  ghost function ReadDisk(trace: seq<World>, k: nat, probes: seq<Probe>, seen: seq<nat>, again: seq<nat>, z: nat): Bytes
    requires k < |trace| && z < |probes| == |seen| == |again| && ReadOk(trace, k, probes, seen, again, z)
  {
    if !Answered(probes[z]) then []
    else if probes[z].answer.Live? then trace[again[z]].copies[z]
    else trace[seen[z]].copies[z]
  }

  ghost predicate ReadsOk(trace: seq<World>, k: nat, probes: seq<Probe>, seen: seq<nat>, again: seq<nat>)
    requires k < |trace|
  {
    && |probes| == |seen| == |again| == |trace[k].copies|
    && forall z :: 0 <= z < |probes| ==> ReadOk(trace, k, probes, seen, again, z)
  }

  ghost function ReadDisks(trace: seq<World>, k: nat, probes: seq<Probe>, seen: seq<nat>,
                           again: seq<nat>): (r: seq<Bytes>)
    requires k < |trace| && ReadsOk(trace, k, probes, seen, again)
    ensures |r| == |probes| && forall z :: 0 <= z < |r| ==> r[z] == ReadDisk(trace, k, probes, seen, again, z)
  {
    seq(|probes|, z requires 0 <= z < |probes| => ReadDisk(trace, k, probes, seen, again, z))
  }

  /** A record count a fold may have decided: that of an earlier decision, or of a segment left whole by a swap. */
  predicate Decided(w: World, count: nat)
    requires AllFit(w.seg.records)
  {
    && 1 <= count <= |w.seg.records|
    && (Stream(w.seg.records[..count]) in w.decisions || (w.swapped && count == |w.seg.records|))
  }

  ghost predicate RecoverOk(trace: seq<World>, k: nat, step: Step)
    requires k < |trace| && step.Recover?
  {
    && ReadsOk(trace, k, step.probes, step.seen, step.again) && AllFit(trace[k].seg.records)
    && (step.expected.Some? ==> Decided(trace[k], step.expected.value))
    && Exact(step.probes, ReadDisks(trace, k, step.probes, step.seen, step.again), trace[k].seg.records, step.expected,
             Ok(step.found), step.m)
  }

  /** One step of the run. A finalize or a rewrite closes the old session, like a takeover. */
  ghost predicate StepOk(trace: seq<World>, k: nat, step: Step)
    requires k + 1 < |trace|
  {
    var w, v := trace[k], trace[k + 1];
    match step
    case Writer(writing) =>
      && S.StepOk(w.seg, writing, v.seg) && v.decisions == w.decisions && v.swapped == w.swapped
      && |w.copies| == |v.seg.disks| && (writing.Admit? ==> !w.swapped)
      && v.copies == (if writing.Grow? then w.copies[writing.zone := v.seg.disks[writing.zone]] else w.copies)
    case Swap => w.seg.tracker.admitted == w.seg.tracker.committed != 0 && v == w.(swapped := true)
    case Recover(_, _, _, _, found, _) =>
      && RecoverOk(trace, k, step)
      && v == if found.NonEmpty? then w.(decisions := w.decisions + [found.tail.canonical]) else w
    case Finalize(zone) => S.StepOk(w.seg, S.Fence(zone), v.seg) && v == w.(seg := v.seg)
    case Rewrite(zone, d) =>
      && S.StepOk(w.seg, S.Fence(zone), v.seg) && zone < |w.copies| && d < |w.decisions|
      && v == w.(seg := v.seg, copies := w.copies[zone := w.decisions[d]])
  }

  ghost predicate IsRun(n: nat, steps: seq<Step>, trace: seq<World>) {
    && n >= 1 && |trace| == |steps| + 1 && trace[0] == Start(n)
    && forall k :: 0 <= k < |steps| ==> StepOk(trace, k, steps[k])
  }

  // -------------------------------------------------------------- invariant

  /** A zone holds what its lane wrote, or, once fenced, some recovery's decision. */
  predicate CopyOk(w: World, z: nat)
    requires z < |w.copies| == |w.seg.disks| == |w.seg.fenced|
  {
    w.copies[z] == w.seg.disks[z] || (w.seg.fenced[z] && w.copies[z] in w.decisions)
  }

  ghost predicate Inv(w: World, n: nat) {
    && S.Inv(w.seg) && |w.seg.disks| == n == |w.copies|
    && (forall z :: 0 <= z < n ==> CopyOk(w, z))
    && forall d :: d in w.decisions ==> d <= Stream(w.seg.records)
  }

  /** The records of any recovered candidate are a prefix of the stream. */
  lemma DecisionIsPrefix(probes: seq<Probe>, disks: seq<Bytes>, records: seq<Bytes>, expected: Option<nat>,
                         found: RecoveryCandidate, m: nat)
    requires |probes| == |disks| && AllFit(records) && Exact(probes, disks, records, expected, Ok(found), m)
    requires found.NonEmpty?
    ensures Kept(expected, m) <= m <= |records| && found.tail.canonical == Stream(records[..Kept(expected, m)])
    ensures found.tail.canonical <= Stream(records)
  {
    StreamPrefixLength(records, Kept(expected, m), Kept(expected, m));
  }

  lemma WriterKeepsInv(w: World, v: World, writing: S.Step, n: nat)
    requires Inv(w, n) && S.StepOk(w.seg, writing, v.seg) && v.decisions == w.decisions
    requires v.copies == (if writing.Grow? then w.copies[writing.zone := v.seg.disks[writing.zone]] else w.copies)
    ensures Inv(v, n)
  {
    S.NextKeepsInv(w.seg, writing);
    StreamGrows(w.seg, writing);
    hide S.Inv, Stream;
    forall z: nat | z < n ensures CopyOk(v, z) {
      assert CopyOk(w, z);
      StepKeepsDisk(w.seg, writing, z);
    }
  }

  lemma StreamGrows(s: S.Segment, step: S.Step)
    requires S.Enabled(s, step)
    ensures s.records <= S.Next(s, step).records && Stream(s.records) <= Stream(S.Next(s, step).records)
    ensures |S.Next(s, step).disks| == |s.disks|
    ensures s.tracker.committed <= S.Next(s, step).tracker.committed
  {
    if step.Admit? { S.AppendedEnds(s.records, step.window); }
  }

  /** Only growth changes a disk, and only an unfenced one. */
  lemma StepKeepsDisk(s: S.Segment, step: S.Step, z: nat)
    requires S.Enabled(s, step) && z < |s.disks|
    ensures var r := S.Next(s, step);
            && |r.disks| == |s.disks| == |r.fenced|
            && (s.fenced[z] ==> r.fenced[z] && r.disks[z] == s.disks[z])
            && (!(step.Grow? && step.zone == z) ==> r.disks[z] == s.disks[z])
  {
  }

  lemma SwapKeepsInv(w: World, n: nat)
    requires Inv(w, n)
    ensures Inv(w.(swapped := true), n)
  {
    hide S.Inv, Stream;
    var v := w.(swapped := true);
    assert |w.seg.disks| == |w.seg.fenced| by { SegmentShaped(w, n); }
    forall z: nat | z < n ensures CopyOk(v, z) { assert CopyOk(w, z); }
  }

  lemma SegmentShaped(w: World, n: nat)
    requires Inv(w, n)
    ensures |w.seg.disks| == |w.seg.fenced| && S.Shaped(w.seg)
  {
  }

  lemma DecisionKeepsInv(w: World, d: Bytes, n: nat)
    requires Inv(w, n) && d <= Stream(w.seg.records)
    ensures Inv(w.(decisions := w.decisions + [d]), n)
  {
    assert |w.seg.disks| == |w.seg.fenced|;
    hide S.Inv, Stream;
    var v := w.(decisions := w.decisions + [d]);
    forall z: nat | z < n ensures CopyOk(v, z) { assert CopyOk(w, z); }
  }

  lemma RewriteKeepsInv(w: World, zone: nat, d: nat, n: nat)
    requires Inv(w, n) && zone < n && d < |w.decisions| && w.seg.fenced[zone]
    ensures Inv(w.(copies := w.copies[zone := w.decisions[d]]), n)
  {
    assert |w.seg.disks| == |w.seg.fenced|;
    hide S.Inv, Stream;
    var v := w.(copies := w.copies[zone := w.decisions[d]]);
    forall z: nat | z < n ensures CopyOk(v, z) { assert CopyOk(w, z); }
  }

  lemma StepKeepsInv(trace: seq<World>, k: nat, step: Step, n: nat)
    requires k + 1 < |trace| && Inv(trace[k], n) && StepOk(trace, k, step)
    ensures Inv(trace[k + 1], n)
  {
    hide S.Inv, Stream, Exact;
    var w, v := trace[k], trace[k + 1];
    match step {
      case Writer(writing) => WriterKeepsInv(w, v, writing, n);
      case Swap =>
        SwapKeepsInv(w, n);
      case Recover(probes, seen, again, expected, found, m) =>
        if found.NonEmpty? {
          DecisionIsPrefix(probes, ReadDisks(trace, k, probes, seen, again), w.seg.records, expected, found, m);
          DecisionKeepsInv(w, found.tail.canonical, n);
        }
      case Finalize(zone) => WriterKeepsInv(w, v, S.Fence(zone), n);
      case Rewrite(zone, d) =>
        var fenced := w.(seg := v.seg);
        WriterKeepsInv(w, fenced, S.Fence(zone), n);
        RewriteKeepsInv(fenced, zone, d, n);
    }
  }

  lemma StartKeepsInv(n: nat)
    requires n >= 1
    ensures Inv(Start(n), n)
  {
    S.StartInv(n);
  }

  lemma {:induction false} RunKeepsInv(n: nat, steps: seq<Step>, trace: seq<World>, k: nat)
    requires IsRun(n, steps, trace) && k < |trace|
    ensures Inv(trace[k], n)
  {
    hide StepOk, Inv, Start;
    if k == 0 {
      StartKeepsInv(n);
    } else {
      RunKeepsInv(n, steps, trace, k - 1);
      assert StepOk(trace, k - 1, steps[k - 1]);
      StepKeepsInv(trace, k - 1, steps[k - 1], n);
    }
  }

  /** What lasts from one world to any later one. */
  ghost predicate Lasts(w: World, v: World) {
    && w.seg.records <= v.seg.records && w.seg.tracker.committed <= v.seg.tracker.committed
    && w.decisions <= v.decisions && (w.swapped ==> v.swapped && v.seg.records == w.seg.records)
    && |w.seg.disks| == |v.seg.disks| == |w.seg.fenced| == |v.seg.fenced|
    && forall z :: 0 <= z < |w.seg.disks| && w.seg.fenced[z] ==> v.seg.fenced[z] && v.seg.disks[z] == w.seg.disks[z]
  }

  lemma StepLasts(trace: seq<World>, k: nat, step: Step, n: nat)
    requires k + 1 < |trace| && Inv(trace[k], n) && StepOk(trace, k, step)
    ensures Lasts(trace[k], trace[k + 1])
  {
    assert S.Shaped(trace[k].seg);
    hide S.Inv, RecoverOk, Inv, CopyOk;
    var w := trace[k];
    if !step.Recover? && !step.Swap? {
      var writing := if step.Writer? then step.step else S.Fence(step.zone);
      StreamGrows(w.seg, writing);
      forall z: nat | z < n
        ensures w.seg.fenced[z] ==> trace[k + 1].seg.fenced[z] && trace[k + 1].seg.disks[z] == w.seg.disks[z]
      {
        StepKeepsDisk(w.seg, writing, z);
      }
    }
  }

  lemma LastsTransitive(u: World, w: World, v: World)
    requires Lasts(u, w) && Lasts(w, v)
    ensures Lasts(u, v)
  {
  }

  lemma SelfLasts(w: World, n: nat)
    requires Inv(w, n)
    ensures Lasts(w, w)
  {
  }

  lemma {:induction false} RunLasts(n: nat, steps: seq<Step>, trace: seq<World>, i: nat, k: nat)
    requires IsRun(n, steps, trace) && i <= k < |trace|
    ensures Lasts(trace[i], trace[k])
    decreases k
  {
    hide StepOk, Inv, Lasts;
    RunKeepsInv(n, steps, trace, k);
    if i < k {
      RunLasts(n, steps, trace, i, k - 1);
      RunKeepsInv(n, steps, trace, k - 1);
      assert StepOk(trace, k - 1, steps[k - 1]);
      StepLasts(trace, k - 1, steps[k - 1], n);
      LastsTransitive(trace[i], trace[k - 1], trace[k]);
    } else {
      SelfLasts(trace[k], n);
    }
  }

  // ------------------------------------------------------------ main results

  /** Every decision so far contains `p`. */
  ghost predicate AllContain(w: World, p: Bytes) {
    forall d :: d in w.decisions ==> p <= d
  }

  lemma EarlierContain(w: World, v: World, p: Bytes)
    requires w.decisions <= v.decisions && AllContain(v, p)
    ensures AllContain(w, p)
  {
    forall d | d in w.decisions ensures p <= d { assert d in v.decisions; }
  }

  /** The bytes of the first `j + 1` records. */
  function Prefix(w: World, j: nat): Bytes
    requires AllFit(w.seg.records) && j < |w.seg.records|
  {
    Stream(w.seg.records[..j + 1])
  }

  /** A zone whose lane reported a record holds it in every copy read after the fence. */
  lemma FencedCopyHolds(w: World, last: World, n: nat, z: nat, p: Bytes)
    requires Inv(w, n) && Inv(last, n) && Lasts(w, last) && z < n && w.seg.fenced[z]
    requires AllContain(w, p) && p <= Stream(last.seg.records) && |p| <= last.seg.tracker.lanes[z].durable
    ensures p <= w.copies[z]
  {
    hide Stream;
    assert CopyOk(w, z);
    assert S.LaneOk(last.seg, z);
    assert w.seg.disks[z] == last.seg.disks[z];
  }

  /** The reads of one recovery are true of prefixes of the stream as it is when it decides. */
  lemma ReadsArePlausible(n: nat, steps: seq<Step>, trace: seq<World>, k: nat, probes: seq<Probe>, seen: seq<nat>,
                          again: seq<nat>)
    requires IsRun(n, steps, trace) && k < |trace| && ReadsOk(trace, k, probes, seen, again)
    ensures AllFit(trace[k].seg.records)
    ensures Plausible(probes, ReadDisks(trace, k, probes, seen, again), trace[k].seg.records)
  {
    hide StepOk, Stream;
    RunKeepsInv(n, steps, trace, k);
    var read := ReadDisks(trace, k, probes, seen, again);
    forall z: nat | z < |probes| ensures read[z] <= Stream(trace[k].seg.records) && ReadTruly(probes[z], read[z]) {
      assert ReadOk(trace, k, probes, seen, again, z);
      if Answered(probes[z]) {
        CopyStaysPrefix(n, steps, trace, seen[z], k, z);
        CopyStaysPrefix(n, steps, trace, again[z], k, z);
      }
    }
  }

  lemma CopyStaysPrefix(n: nat, steps: seq<Step>, trace: seq<World>, at: nat, k: nat, z: nat)
    requires IsRun(n, steps, trace) && at <= k < |trace| && z < n
    ensures AllFit(trace[k].seg.records) && z < |trace[at].copies|
    ensures trace[at].copies[z] <= Stream(trace[k].seg.records)
  {
    hide StepOk;
    RunKeepsInv(n, steps, trace, at);
    RunKeepsInv(n, steps, trace, k);
    RunLasts(n, steps, trace, at, k);
    CopyIsPrefix(trace[at], n, z);
    PrefixStream(trace[at].seg.records, trace[k].seg.records);
  }

  lemma CopyIsPrefix(w: World, n: nat, z: nat)
    requires Inv(w, n) && z < n
    ensures w.copies[z] <= Stream(w.seg.records)
  {
    hide Stream;
    assert CopyOk(w, z);
    assert S.LaneOk(w.seg, z);
  }

  lemma PrefixStream(a: seq<Bytes>, b: seq<Bytes>)
    requires AllFit(b) && a <= b
    ensures AllFit(a) && Stream(a) <= Stream(b)
  {
    assert a == b[..|a|];
    StreamPrefixLength(b, |a|, |a|);
  }

  /** The zones whose lanes reported the record. */
  function Reporters(last: World, p: Bytes): set<nat> {
    Holders(Durables(last.seg.tracker.lanes), |p|)
  }

  /** A reporting zone that was fenced by then holds the record in its copy at any later moment up to the decision. */
  lemma ReporterHolds(n: nat, steps: seq<Step>, trace: seq<World>, seen: nat, at: nat, k: nat, z: nat, p: Bytes)
    requires IsRun(n, steps, trace) && seen <= at <= k < |trace| && z < n
    requires |trace[seen].seg.fenced| == n && trace[seen].seg.fenced[z] && AllContain(trace[k], p)
    requires AllFit(trace[|steps|].seg.records) && p <= Stream(trace[|steps|].seg.records)
    requires z in Reporters(trace[|steps|], p)
    ensures z < |trace[at].copies| && p <= trace[at].copies[z]
  {
    hide StepOk, Stream;
    RunKeepsInv(n, steps, trace, at);
    RunKeepsInv(n, steps, trace, |steps|);
    RunLasts(n, steps, trace, seen, at);
    RunLasts(n, steps, trace, at, k);
    RunLasts(n, steps, trace, at, |steps|);
    EarlierContain(trace[at], trace[k], p);
    FencedCopyHolds(trace[at], trace[|steps|], n, z, p);
  }

  /** Those of them that answer this recovery, answer with the record and are read with it. */
  lemma ReportersAnswer(n: nat, steps: seq<Step>, trace: seq<World>, k: nat, j: nat)
    requires IsRun(n, steps, trace) && k < |steps| && steps[k].Recover?
    requires j < trace[|steps|].seg.tracker.committed && AllFit(trace[|steps|].seg.records)
    requires j < |trace[|steps|].seg.records| && AllContain(trace[k], Prefix(trace[|steps|], j))
    requires ReadsOk(trace, k, steps[k].probes, steps[k].seen, steps[k].again)
    ensures var step, last := steps[k], trace[|steps|];
            var p := Prefix(last, j);
            HoldersAnswer(step.probes, ReadDisks(trace, k, step.probes, step.seen, step.again), Reporters(last, p), |p|)
  {
    var step, last := steps[k], trace[|steps|];
    var p := Prefix(last, j);
    RunKeepsInv(n, steps, trace, |steps|);
    RunKeepsInv(n, steps, trace, k);
    CommittedIsReported(last, n, j);
    StreamPrefixLength(last.seg.records, j + 1, j + 1);
    var read := ReadDisks(trace, k, step.probes, step.seen, step.again);
    hide StepOk, Stream, S.Inv, IsRun;
    forall z | z in Reporters(last, p) && Answered(step.probes[z])
      ensures SizeOf(step.probes[z]) >= |p| && |read[z]| >= |p|
    {
      assert ReadOk(trace, k, step.probes, step.seen, step.again, z);
      FenceShaped(n, steps, trace, step.seen[z]);
      ReporterHolds(n, steps, trace, step.seen[z], step.seen[z], k, z, p);
      ReporterHolds(n, steps, trace, step.seen[z], step.again[z], k, z, p);
    }
  }

  lemma FenceShaped(n: nat, steps: seq<Step>, trace: seq<World>, at: nat)
    requires IsRun(n, steps, trace) && at < |trace|
    ensures |trace[at].seg.fenced| == n
  {
    hide StepOk;
    RunKeepsInv(n, steps, trace, at);
  }

  lemma CommittedIsReported(last: World, n: nat, j: nat)
    requires Inv(last, n) && j < last.seg.tracker.committed && j < |last.seg.records|
    ensures var p := Prefix(last, j); Reporters(last, p) <= Indices(n) && |Reporters(last, p)| >= Majority(n)
  {
    EndsAreStreamLengths(last.seg.records, j);
  }

  /** One recovery contains a committed record if the decisions before it do. */
  lemma NextDecisionContains(n: nat, steps: seq<Step>, trace: seq<World>, k: nat, j: nat)
    requires IsRun(n, steps, trace) && k < |steps| && steps[k].Recover?
    requires j < trace[|steps|].seg.tracker.committed && AllFit(trace[|steps|].seg.records)
    requires j < |trace[|steps|].seg.records|
    requires AllContain(trace[k], Prefix(trace[|steps|], j))
    ensures var found := steps[k].found; found.NonEmpty? && Prefix(trace[|steps|], j) <= found.tail.canonical
  {
    var last, step := trace[|steps|], steps[k];
    var p, records := Prefix(last, j), trace[k].seg.records;
    assert StepOk(trace, k, step);
    ReportersAnswer(n, steps, trace, k, j);
    ReadsArePlausible(n, steps, trace, k, step.probes, step.seen, step.again);
    RunLasts(n, steps, trace, k, |steps|);
    var read := ReadDisks(trace, k, step.probes, step.seen, step.again);
    HeldWasAdmitted(step.probes, read, records, last, j);
    assert records[..j + 1] == last.seg.records[..j + 1];
    hide Stream, Plausible, HoldersAnswer;
    HeldByIsRecovered(step.probes, read, records, step.expected, Ok(step.found), step.m, j, Reporters(last, p));
    KeptContains(trace[k], last, step.expected, step.m, j);
  }

  /** The record was admitted before the recovery decided, or nobody who answered could hold it. */
  lemma HeldWasAdmitted(probes: seq<Probe>, read: seq<Bytes>, records: seq<Bytes>, last: World, j: nat)
    requires Plausible(probes, read, records) && |Heard(probes)| >= Majority(|probes|)
    requires AllFit(last.seg.records) && records <= last.seg.records && j < |last.seg.records|
    requires HoldersAnswer(probes, read, Reporters(last, Prefix(last, j)), |Prefix(last, j)|)
    ensures j < |records|
  {
    hide Stream, Reporters;
    var p := Prefix(last, j);
    var k := SharedZone(Heard(probes), |probes|, Reporters(last, p));
    var z := Heard(probes)[k];
    assert read[z] <= Stream(records);
    assert last.seg.records[..|records|] == records;
    if |records| <= j { StreamPrefixLength(last.seg.records, |records|, j + 1); }
  }

  /** What the recovery keeps contains the record, also when it was asked for a decided count. */
  lemma KeptContains(w: World, last: World, expected: Option<nat>, m: nat, j: nat)
    requires AllFit(last.seg.records) && w.seg.records <= last.seg.records && AllFit(w.seg.records)
    requires j < m <= |w.seg.records| && Kept(expected, m) <= m && AllContain(w, Prefix(last, j))
    requires expected.Some? ==> Decided(w, expected.value)
    ensures Prefix(last, j) <= Stream(w.seg.records[..Kept(expected, m)])
  {
    var p, records, kept := Prefix(last, j), w.seg.records, Kept(expected, m);
    assert records[..j + 1] == last.seg.records[..j + 1];
    if expected.Some? && Stream(records[..kept]) in w.decisions {
      assert p <= Stream(records[..kept]);
    } else {
      StreamPrefixLength(records, j + 1, kept);
    }
  }

  /** All decisions made before moment `k` contain the record. */
  lemma {:induction false} DecisionsContain(n: nat, steps: seq<Step>, trace: seq<World>, k: nat, j: nat)
    requires IsRun(n, steps, trace) && k < |trace|
    requires j < trace[|steps|].seg.tracker.committed && AllFit(trace[|steps|].seg.records)
    requires j < |trace[|steps|].seg.records|
    ensures AllContain(trace[k], Prefix(trace[|steps|], j))
    decreases k
  {
    hide Exact, Stream;
    if k > 0 {
      DecisionsContain(n, steps, trace, k - 1, j);
      assert StepOk(trace, k - 1, steps[k - 1]);
      if steps[k - 1].Recover? { NextDecisionContains(n, steps, trace, k - 1, j); }
    }
  }

  /**
   Acknowledged implies recovered, by every recovery. In any run of the writer and any
   number of recoveries, each taking sizes and reading copies at its own moments with
   others rewriting them in between, asked for everything or for a decided count, and
   finalizing and rewriting copies from its decision in any order, every recovery that
   succeeds is non-empty and contains every record the writer ever commits, earlier or
   later.
   */
  lemma EveryRecoveryContainsEveryCommit(n: nat, steps: seq<Step>, trace: seq<World>, k: nat, i: nat)
    requires IsRun(n, steps, trace) && k < |steps| && steps[k].Recover? && i < |trace|
    requires trace[i].seg.tracker.committed > 0
    ensures var found := steps[k].found;
            var kept := Kept(steps[k].expected, steps[k].m);
            && found.NonEmpty? && trace[i].seg.tracker.committed <= kept <= |trace[k].seg.records|
            && AllFit(trace[k].seg.records) && found.tail.canonical == Stream(trace[k].seg.records[..kept])
    ensures trace[i].seg.records <= trace[|steps|].seg.records && trace[k].seg.records <= trace[|steps|].seg.records
  {
    var last := trace[|steps|];
    RunKeepsInv(n, steps, trace, |steps|);
    RunKeepsInv(n, steps, trace, k);
    RunLasts(n, steps, trace, i, |steps|);
    RunLasts(n, steps, trace, k, |steps|);
    var j := trace[i].seg.tracker.committed - 1;
    assert j < |last.seg.records|;
    DecisionsContain(n, steps, trace, k, j);
    NextDecisionContains(n, steps, trace, k, j);
    assert StepOk(trace, k, steps[k]);
    var step, records := steps[k], trace[k].seg.records;
    DecisionIsPrefix(step.probes, ReadDisks(trace, k, step.probes, step.seen, step.again), records, step.expected,
                     step.found, step.m);
    LongerPrefixHasMore(last.seg.records, records, j, Kept(step.expected, step.m));
  }

  lemma LongerPrefixHasMore(all: seq<Bytes>, records: seq<Bytes>, j: nat, m: nat)
    requires AllFit(all) && records <= all && AllFit(records) && m <= |records| && j < |all|
    requires Stream(all[..j + 1]) <= Stream(records[..m])
    ensures j < m
  {
    assert records[..m] == all[..m];
    if m <= j { StreamPrefixLength(all, m, j + 1); }
  }

  /** No copy ever stops holding a committed record, whatever decisions are installed over it. */
  lemma {:induction false} HoldersOfCommittedNeverShrink(n: nat, steps: seq<Step>, trace: seq<World>, i: nat, k: nat,
                                                         z: nat, j: nat)
    requires IsRun(n, steps, trace) && i <= k < |trace| && z < n
    requires j < trace[|steps|].seg.tracker.committed && AllFit(trace[|steps|].seg.records)
    requires j < |trace[|steps|].seg.records|
    requires |trace[i].copies| == n && Prefix(trace[|steps|], j) <= trace[i].copies[z]
    ensures |trace[k].copies| == n && Prefix(trace[|steps|], j) <= trace[k].copies[z]
    decreases k
  {
    RunKeepsInv(n, steps, trace, k);
    if i < k {
      HoldersOfCommittedNeverShrink(n, steps, trace, i, k - 1, z, j);
      RunKeepsInv(n, steps, trace, k - 1);
      DecisionsContain(n, steps, trace, k - 1, j);
      assert StepOk(trace, k - 1, steps[k - 1]);
      CopyStep(trace, k - 1, steps[k - 1], n, z, Prefix(trace[|steps|], j));
    }
  }

  lemma CopyStep(trace: seq<World>, k: nat, step: Step, n: nat, z: nat, p: Bytes)
    requires k + 1 < |trace| && Inv(trace[k], n) && Inv(trace[k + 1], n) && StepOk(trace, k, step)
    requires z < n && p <= trace[k].copies[z] && AllContain(trace[k], p)
    ensures p <= trace[k + 1].copies[z]
  {
    hide Exact, Stream;
    var w := trace[k];
    if step.Writer? && step.step.Grow? && step.step.zone == z {
      assert CopyOk(w, z);
      assert S.LaneOk(w.seg, z) && S.LaneOk(trace[k + 1].seg, z);
      GrowExtends(w.seg, step.step);
    } else if step.Rewrite? {
      assert w.decisions[step.decision] in w.decisions;
    }
  }

  lemma GrowExtends(s: S.Segment, step: S.Step)
    requires S.Inv(s) && S.Enabled(s, step) && step.Grow?
    ensures s.disks[step.zone] <= S.Next(s, step).disks[step.zone]
  {
    assert S.LaneOk(s, step.zone);
  }
}
