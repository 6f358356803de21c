/**
 A recovery that adopts an empty pending segment finalizes the recovered tail on
 a quorum but leaves its fold to the background. Until that fold commits, the
 manifest still names the tail without a record count, so a second recovery
 decides the boundary again. This module says exactly when it decides the same,
 and exactly when the records acknowledged meanwhile keep their numbers.
 */
module DeferredFold {
  import opened Wrappers
  import opened Records
  import opened Quorum
  import opened Canonical
  import opened Recovery
  import F = Frontier

  /** Seal enforcement rewrote the zones in `reached` and no others. */
  predicate Enforced(before: seq<Bytes>, after: seq<Bytes>, reached: set<nat>, canonical: Bytes) {
    && |after| == |before| && reached <= Indices(|before|) && |reached| >= Majority(|before|)
    && forall z: nat :: z < |before| ==> after[z] == (if z in reached then canonical else before[z])
  }

  /** What two successive recoveries of one tail see and decide, the first enforced in between. */
  ghost predicate Successive(first: seq<Probe>, second: seq<Probe>, before: seq<Bytes>, after: seq<Bytes>,
                             records: seq<Bytes>, reached: set<nat>,
                             r1: RecoveryCandidate, m1: nat, r2: RecoveryCandidate, m2: nat) {
    && Faithful(first, before, records) && Exact(first, before, records, None, Ok(r1), m1) && r1.NonEmpty?
    && Enforced(before, after, reached, r1.tail.canonical)
    && Faithful(second, after, records) && Exact(second, after, records, None, Ok(r2), m2)
  }

  /** No zone the second recovery hears outside the enforced ones holds a byte beyond the first decision. */
  predicate NothingBeyond(second: seq<Probe>, after: seq<Bytes>, reached: set<nat>, canonical: Bytes)
    requires |second| == |after|
  {
    forall k :: 0 <= k < |Heard(second)| && Heard(second)[k] !in reached ==> |after[Heard(second)[k]]| <= |canonical|
  }

  /** The second recovery keeps every record the first one decided on. */
  lemma SecondKeepsFirst(first: seq<Probe>, second: seq<Probe>, before: seq<Bytes>, after: seq<Bytes>,
                         records: seq<Bytes>, reached: set<nat>,
                         r1: RecoveryCandidate, m1: nat, r2: RecoveryCandidate, m2: nat)
    requires Successive(first, second, before, after, records, reached, r1, m1, r2, m2)
    ensures r2.NonEmpty? && 1 <= m1 <= m2 <= |records|
  {
    hide Stream, WitnessesExact, SuffixSeen, IsRecovered, Heard, Readable, CommittedSize, QuorumHeld;
    EnforcedIsHeld(before, after, reached, r1.tail.canonical);
    assert records[..m1 - 1 + 1] == records[..m1];
    AcknowledgedIsRecovered(second, after, records, Ok(r2), m2, m1 - 1);
  }

  lemma SuccessiveGives(first: seq<Probe>, second: seq<Probe>, before: seq<Bytes>, after: seq<Bytes>,
                        records: seq<Bytes>, reached: set<nat>,
                        r1: RecoveryCandidate, m1: nat, r2: RecoveryCandidate, m2: nat)
    requires Successive(first, second, before, after, records, reached, r1, m1, r2, m2) && r2.NonEmpty?
    ensures |second| == |after| && AllFit(records) && IsRecovered(second, after, records, m2)
    ensures CommittedSize(second) >= 0
    ensures m1 <= |records| && r1.tail.canonical == Stream(records[..m1])
    ensures forall z: nat :: z in reached && z < |after| ==> after[z] == r1.tail.canonical
    ensures m2 <= |records| && (r2.tail.hadDiscardedSuffix <==> SuffixSeen(second, |Stream(records[..m2])|))
  {
    hide CommittedSize, Stream, WitnessesExact, SuffixSeen, Truthful, UsableRecords, Readable, Heard;
  }

  /** No copy read outside the enforced zones carries, within the committed size, more than `m1` whole records. */
  predicate NoCopyCarriesMore(second: seq<Probe>, after: seq<Bytes>, records: seq<Bytes>, reached: set<nat>, m1: nat)
    requires |second| == |after|
  {
    && CommittedSize(second) >= 0
    && forall k :: 0 <= k < |Readable(second)| && Readable(second)[k] !in reached ==>
         UsableRecords(second, after, records, Readable(second)[k]) <= m1
  }

  /**
   When the boundary moves: the second recovery keeps more records exactly when some
   copy it reads outside the enforced zones carries, within the committed size, more
   whole records than the first one kept.
   */
  lemma BoundaryMoves(first: seq<Probe>, second: seq<Probe>, before: seq<Bytes>, after: seq<Bytes>,
                      records: seq<Bytes>, reached: set<nat>,
                      r1: RecoveryCandidate, m1: nat, r2: RecoveryCandidate, m2: nat)
    requires Successive(first, second, before, after, records, reached, r1, m1, r2, m2)
    ensures m2 == m1 <==> NoCopyCarriesMore(second, after, records, reached, m1)
  {
    SecondKeepsFirst(first, second, before, after, records, reached, r1, m1, r2, m2);
    SuccessiveGives(first, second, before, after, records, reached, r1, m1, r2, m2);
    hide Successive, IsRecovered, CommittedSize, Stream, UsableRecords, Readable, NoCopyCarriesMore;
    ShortCopies(second, after, records, reached, r1.tail.canonical, m1);
    MaximumMoves(second, after, records, reached, m1, m2);
  }

  lemma ShortCopies(second: seq<Probe>, after: seq<Bytes>, records: seq<Bytes>, reached: set<nat>,
                    canonical: Bytes, m1: nat)
    requires |second| == |after| && AllFit(records) && CommittedSize(second) >= 0
    requires m1 <= |records| && canonical == Stream(records[..m1])
    requires forall z: nat :: z in reached && z < |after| ==> after[z] == canonical
    ensures forall k :: 0 <= k < |Readable(second)| && Readable(second)[k] in reached ==>
              UsableRecords(second, after, records, Readable(second)[k]) <= m1
  {
    hide CommittedSize, Stream;
    forall k | 0 <= k < |Readable(second)| && Readable(second)[k] in reached
      ensures UsableRecords(second, after, records, Readable(second)[k]) <= m1
    {
      EnforcedCopyIsShort(second, after, records, Readable(second)[k], m1);
    }
  }

  /**
   The second recovery repeats the first one's decision, boundary and no suffix seen,
   if and only if no zone it hears outside the enforced ones holds a byte beyond it.
   */
  lemma BoundaryAfterDeferredFold(first: seq<Probe>, second: seq<Probe>, before: seq<Bytes>, after: seq<Bytes>,
                                  records: seq<Bytes>, reached: set<nat>,
                                  r1: RecoveryCandidate, m1: nat, r2: RecoveryCandidate, m2: nat)
    requires Successive(first, second, before, after, records, reached, r1, m1, r2, m2)
    ensures r2.NonEmpty? && m1 <= m2
    ensures m2 == m1 && !r2.tail.hadDiscardedSuffix <==> NothingBeyond(second, after, reached, r1.tail.canonical)
  {
    SecondKeepsFirst(first, second, before, after, records, reached, r1, m1, r2, m2);
    SuccessiveGives(first, second, before, after, records, reached, r1, m1, r2, m2);
    SuffixIsBeyond(second, after, records, reached, r1.tail.canonical);
    hide Successive, IsRecovered, CommittedSize, Stream, UsableRecords, Readable, SuffixSeen, Faithful;
    if NothingBeyond(second, after, reached, r1.tail.canonical) {
      ShortDisksKeepBoundary(second, after, records, reached, r1.tail.canonical, m1, m2);
    }
  }

  lemma SuffixIsBeyond(second: seq<Probe>, after: seq<Bytes>, records: seq<Bytes>, reached: set<nat>, canonical: Bytes)
    requires Faithful(second, after, records)
    requires forall z: nat :: z in reached && z < |after| ==> after[z] == canonical
    ensures SuffixSeen(second, |canonical|) <==> !NothingBeyond(second, after, reached, canonical)
  {
    SuffixOnDisk(second, after, records);
    hide Faithful, Heard;
  }

  lemma ShortDisksKeepBoundary(second: seq<Probe>, after: seq<Bytes>, records: seq<Bytes>, reached: set<nat>,
                               canonical: Bytes, m1: nat, m2: nat)
    requires |second| == |after| && AllFit(records) && IsRecovered(second, after, records, m2) && m1 <= m2
    requires m1 <= |records| && canonical == Stream(records[..m1]) && NothingBeyond(second, after, reached, canonical)
    requires forall z :: z in reached && z < |after| ==> after[z] == canonical
    ensures m2 == m1
  {
    hide CommittedSize, Stream;
    forall k: nat | k < |Heard(second)| ensures |after[Heard(second)[k]]| <= |canonical| { }
    var w :| 0 <= w < |Readable(second)| && UsableRecords(second, after, records, Readable(second)[w]) == m2;
    var z := Readable(second)[w];
    assert Contributes(second[z]) && Answered(second[z]);
    assert z in Heard(second);
    assert |after[z]| <= |canonical|;
    var k := Min(|after[z]|, CommittedSize(second));
    if WholeRecords(records, k) > m1 {
      WholeRecordsExact(records, k, m1);
      StreamPrefixLength(records, m1, m1 + 1);
    }
  }

  /** The adopted segment's records are replayed right after the first decision, at the numbers they were given. */
  ghost predicate KeepsNumbers(f: F.Frontier, m1: nat, later: RecoveredTail) {
    && !f.discardedPending && m1 <= |F.Replayed(f.predecessors)|
    && F.Replayed(f.predecessors)[m1..] == CompleteRecords(later.canonical)
  }

  /**
   What the deferral costs: after it, the walk of the second recovery replays the
   records acknowledged in the adopted segment at their own numbers if and only if
   the second recovery repeats the first decision. Otherwise they shift, or, when a
   partial record lies beyond the boundary, the adopted segment is retired with them.
   */
  lemma PendingKeepsItsNumbers(first: seq<Probe>, second: seq<Probe>, before: seq<Bytes>, after: seq<Bytes>,
                               records: seq<Bytes>, reached: set<nat>,
                               r1: RecoveryCandidate, m1: nat, r2: RecoveryCandidate, m2: nat,
                               later: RecoveredTail, f: F.Frontier)
    requires Successive(first, second, before, after, records, reached, r1, m1, r2, m2)
    requires CompleteRecords(later.canonical) != []
    requires F.Plan(false, r2, Some(NonEmpty(later))) == Ok(f)
    ensures r2.NonEmpty?
    ensures KeepsNumbers(f, m1, later) <==> NothingBeyond(second, after, reached, r1.tail.canonical)
    ensures f.discardedPending <==> r2.tail.hadDiscardedSuffix
  {
    BoundaryAfterDeferredFold(first, second, before, after, records, reached, r1, m1, r2, m2);
    F.RecoveredIsPrefix(second, after, records, Ok(r2), m2);
    PlanKeepsNumbers(r2.tail, later, f, records, m1, m2);
  }

  lemma PlanKeepsNumbers(tail: RecoveredTail, later: RecoveredTail, f: F.Frontier, records: seq<Bytes>, m1: nat,
                         m2: nat)
    requires m1 <= m2 <= |records| && CompleteRecords(tail.canonical) == records[..m2]
    requires CompleteRecords(later.canonical) != []
    requires F.Plan(false, NonEmpty(tail), Some(NonEmpty(later))) == Ok(f)
    ensures KeepsNumbers(f, m1, later) <==> m2 == m1 && !tail.hadDiscardedSuffix
    ensures f.discardedPending <==> tail.hadDiscardedSuffix
  {
    hide CompleteRecords;
    F.OneRecovered(tail);
    F.TwoRecovered(tail, later);
    var pending := CompleteRecords(later.canonical);
    if !f.discardedPending {
      assert f.predecessors == [tail, later];
      assert (records[..m2] + pending)[m1..] == records[m1..m2] + pending;
    } else {
      assert f.predecessors == [tail];
    }
  }

  lemma MaximumMoves(probes: seq<Probe>, disks: seq<Bytes>, records: seq<Bytes>, reached: set<nat>, m1: nat, m2: nat)
    requires |probes| == |disks| && IsRecovered(probes, disks, records, m2) && m1 <= m2
    requires forall k :: 0 <= k < |Readable(probes)| && Readable(probes)[k] in reached ==>
               UsableRecords(probes, disks, records, Readable(probes)[k]) <= m1
    ensures m2 == m1 <==> NoCopyCarriesMore(probes, disks, records, reached, m1)
  {
    var w :| 0 <= w < |Readable(probes)| && UsableRecords(probes, disks, records, Readable(probes)[w]) == m2;
  }

  lemma EnforcedIsHeld(before: seq<Bytes>, after: seq<Bytes>, reached: set<nat>, canonical: Bytes)
    requires Enforced(before, after, reached, canonical)
    ensures QuorumHeld(after, |canonical|)
  {
    assert reached <= Holders(DiskSizes(after), |canonical|);
    SubsetSize(reached, Holders(DiskSizes(after), |canonical|));
  }

  lemma EnforcedCopyIsShort(probes: seq<Probe>, disks: seq<Bytes>, records: seq<Bytes>, z: nat, m: nat)
    requires AllFit(records) && m <= |records| && z < |disks| && disks[z] == Stream(records[..m])
    requires CommittedSize(probes) >= 0
    ensures UsableRecords(probes, disks, records, z) <= m
  {
    var k := Min(|disks[z]|, CommittedSize(probes));
    if WholeRecords(records, k) > m {
      WholeRecordsExact(records, k, m);
      StreamPrefixLength(records, m, m + 1);
    }
  }

  // --------------------------------------------------------- when it moves

  /** Two empty payloads: a four-byte frame each. */
  function TwoRecords(): seq<Bytes> { [[], []] }

  lemma TwoRecordsBytes()
    ensures AllFit(TwoRecords()) && AllFit(TwoRecords()[..1])
    ensures |Stream(TwoRecords()[..1])| == 4 && |Stream(TwoRecords())| == 8
    ensures Stream(TwoRecords()[..1]) <= Stream(TwoRecords())
    ensures WholeRecords(TwoRecords(), 4) == 1 && WholeRecords(TwoRecords(), 8) == 2
  {
    var rs: seq<Bytes> := TwoRecords();
    var none: seq<Bytes> := [];
    assert rs[..1] == [[]] && rs[1..] == [[]] && rs[..1][1..] == none && rs[1..][1..] == none;
    assert Stream(rs[1..]) == Frame([]) + Stream([]);
    assert Stream(rs[..1]) == Frame([]) + Stream([]);
    StreamPrefixLength(rs, 1, 2);
    assert WholeRecords([[]], 4) == 1 && WholeRecords([[]], 0) == 0;
  }

  /** Zones 0 and 1 hold one record, zone 2 holds a second one that was never acknowledged. */
  function Disks(): seq<Bytes> {
    [Stream(TwoRecords()[..1]), Stream(TwoRecords()[..1]), Stream(TwoRecords())]
  }

  /** The first recovery hears zones 0 and 1. */
  function FirstProbes(): seq<Probe> {
    var copy := Some(Snapshot(0, 1, true, Disks()[0]));
    [Probe(Live(4), true, copy, false), Probe(Live(4), true, copy, false), Probe(Silent, false, None, false)]
  }

  /** The second hears zone 1, finalized meanwhile, and zone 2. */
  function SecondProbes(): seq<Probe> {
    [Probe(Silent, false, None, false),
     Probe(Sealed(1, Disks()[1]), false, None, false),
     Probe(Live(8), true, Some(Snapshot(2, 1, true, Disks()[2])), false)]
  }

  lemma NonEmptyHasElement(b: seq<nat>)
    ensures b != [] ==> exists x :: x in b
  {
    if b != [] { assert b[0] in b; }
  }

  /** An ascending list is determined by its elements. */
  lemma {:induction false} AscendingUnique(a: seq<nat>, b: seq<nat>)
    requires forall i, j :: 0 <= i < j < |a| ==> a[i] < a[j]
    requires forall i, j :: 0 <= i < j < |b| ==> b[i] < b[j]
    requires forall x :: x in a <==> x in b
    ensures a == b
    decreases |a|
  {
    NonEmptyHasElement(b);
    if a != [] {
      assert a[0] in b && b[0] in a;
      assert a[0] == b[0];
      forall x ensures x in a[1..] <==> x in b[1..] {
        assert x in a[1..] <==> x in a && x != a[0];
        assert x in b[1..] <==> x in b && x != b[0];
      }
      AscendingUnique(a[1..], b[1..]);
      assert a == [a[0]] + a[1..] && b == [b[0]] + b[1..];
    }
  }

  lemma WhereOfThree(p: seq<Probe>, f: Probe -> bool, a: nat, b: nat, c: nat)
    requires |p| == 3 && {a, b, c} == {0, 1, 2} && a < b && f(p[a]) && f(p[b]) && !f(p[c])
    ensures Where(p, f) == [a, b]
  {
    var r := Where(p, f);
    forall x ensures x in r <==> x in [a, b] {
      if x in r {
        var k :| 0 <= k < |r| && r[k] == x;
        assert f(p[r[k]]);
        assert x in {0, 1, 2};
      }
    }
    AscendingUnique(r, [a, b]);
  }

  lemma WhereFirst()
    ensures Heard(FirstProbes()) == [0, 1] && Readable(FirstProbes()) == [0, 1]
  {
    WhereOfThree(FirstProbes(), Answered, 0, 1, 2);
    WhereOfThree(FirstProbes(), Contributes, 0, 1, 2);
  }

  lemma WhereSecond()
    ensures Heard(SecondProbes()) == [1, 2] && Readable(SecondProbes()) == [1, 2]
  {
    WhereOfThree(SecondProbes(), Answered, 1, 2, 0);
    WhereOfThree(SecondProbes(), Contributes, 1, 2, 0);
  }

  /** With two of three zones heard, the committed size is the larger one. */
  lemma LargerOfTwo(probes: seq<Probe>, a: int, b: int)
    requires |probes| == 3 && SizesOf(probes, Heard(probes)) == [a, b] && a <= b
    ensures CommittedSize(probes) == b
  {
    KthLargest([a, b], 1, b);
    KthLargest([a, b], 1, b + 1);
    assert [a, b][1..] == [b] && [b][1..] == [];
    assert CountGe([a, b], b) >= 1;
    assert CountGe([a, b], b + 1) == 0;
  }

  /**
   The boundary can move: the first recovery keeps one record and finalizes it on
   zones 0 and 1; the second, hearing zones 1 and 2, keeps two. Records
   acknowledged meanwhile in the adopted segment at index `base + 1` are then
   replayed at `base + 2`.
   */
  lemma DeferredFoldBoundaryCanMove(
      r1: Result<RecoveryCandidate, RecoveryError>, m1: nat, r2: Result<RecoveryCandidate, RecoveryError>, m2: nat)
    requires AllFit(TwoRecords())
    requires Exact(FirstProbes(), Disks(), TwoRecords(), None, r1, m1)
    requires Exact(SecondProbes(), Disks(), TwoRecords(), None, r2, m2)
    ensures Faithful(FirstProbes(), Disks(), TwoRecords()) && Faithful(SecondProbes(), Disks(), TwoRecords())
    ensures r1.Ok? && r1.value.NonEmpty? && m1 == 1 && Enforced(Disks(), Disks(), {0, 1}, r1.value.tail.canonical)
    ensures r2.Ok? && r2.value.NonEmpty? && m2 == 2 && !r2.value.tail.hadDiscardedSuffix
  {
    TwoRecordsBytes();
    WhereFirst();
    WhereSecond();
    FirstFaithful();
    FirstOutcome(r1, m1);
    SecondOutcome(r2, m2);
  }

  lemma FirstFaithful()
    ensures Faithful(FirstProbes(), Disks(), TwoRecords())
    ensures Enforced(Disks(), Disks(), {0, 1}, Disks()[0])
  {
    TwoRecordsBytes();
    assert Indices(3) == {0, 1, 2};
  }

  lemma FirstUsable()
    ensures CommittedSize(FirstProbes()) == 4
    ensures UsableRecords(FirstProbes(), Disks(), TwoRecords(), 0) == 1
    ensures UsableRecords(FirstProbes(), Disks(), TwoRecords(), 1) == 1
  {
    TwoRecordsBytes();
    WhereFirst();
    assert SizesOf(FirstProbes(), [0, 1]) == [4, 4];
    LargerOfTwo(FirstProbes(), 4, 4);
  }

  lemma FirstOutcome(r: Result<RecoveryCandidate, RecoveryError>, m: nat)
    requires AllFit(TwoRecords()) && Exact(FirstProbes(), Disks(), TwoRecords(), None, r, m)
    ensures r.Ok? && r.value.NonEmpty? && m == 1 && r.value.tail.canonical == Disks()[0]
  {
    TwoRecordsBytes();
    WhereFirst();
    FirstUsable();
    var p := FirstProbes();
    assert UsableRecords(p, Disks(), TwoRecords(), Readable(p)[0]) == 1;
    assert Disks()[Heard(p)[0]] != [];
  }

  lemma SecondOutcome(r: Result<RecoveryCandidate, RecoveryError>, m: nat)
    requires AllFit(TwoRecords()) && Exact(SecondProbes(), Disks(), TwoRecords(), None, r, m)
    ensures Faithful(SecondProbes(), Disks(), TwoRecords())
    ensures r.Ok? && r.value.NonEmpty? && m == 2 && !r.value.tail.hadDiscardedSuffix
    ensures r.value.tail.canonical == Disks()[2]
  {
    SecondFaithful();
    SecondUsable();
    WhereSecond();
    NoSuffixSeen();
    hide UsableRecords, CommittedSize, Stream, WitnessesExact, Faithful, SuffixSeen;
    var p := SecondProbes();
    assert UsableRecords(p, Disks(), TwoRecords(), Readable(p)[0]) == 1;
    assert UsableRecords(p, Disks(), TwoRecords(), Readable(p)[1]) == 2;
    assert TwoRecords()[..2] == TwoRecords();
    assert Disks()[Heard(p)[0]] != [];
  }

  lemma NoSuffixSeen()
    ensures !SuffixSeen(SecondProbes(), |Stream(TwoRecords())|)
  {
    WhereSecond();
    TwoRecordsBytes();
  }

  lemma SecondFaithful()
    ensures Faithful(SecondProbes(), Disks(), TwoRecords())
    ensures |Disks()| == 3 && forall z :: 0 <= z < 3 ==> 0 < |Disks()[z]| <= |Stream(TwoRecords())|
  {
    TwoRecordsBytes();
  }

  lemma SecondUsable()
    ensures CommittedSize(SecondProbes()) == 8
    ensures UsableRecords(SecondProbes(), Disks(), TwoRecords(), 1) == 1
    ensures UsableRecords(SecondProbes(), Disks(), TwoRecords(), 2) == 2
  {
    TwoRecordsBytes();
    WhereSecond();
    assert SizesOf(SecondProbes(), [1, 2]) == [4, 8];
    LargerOfTwo(SecondProbes(), 4, 8);
  }

  // ------------------------------------------- when the adopted segment is lost

  /** Zone 2 holds one record and half the header of the second. */
  function CutDisks(): seq<Bytes> {
    TwoRecordsBytes();
    [Stream(TwoRecords()[..1]), Stream(TwoRecords()[..1]), Stream(TwoRecords())[..6]]
  }

  function CutProbes(): seq<Probe> {
    [Probe(Silent, false, None, false),
     Probe(Sealed(1, CutDisks()[1]), false, None, false),
     Probe(Live(6), true, Some(Snapshot(2, 1, true, CutDisks()[2])), false)]
  }

  lemma WhereCut()
    ensures Heard(CutProbes()) == [1, 2] && Readable(CutProbes()) == [1, 2]
  {
    WhereOfThree(CutProbes(), Answered, 1, 2, 0);
    WhereOfThree(CutProbes(), Contributes, 1, 2, 0);
  }

  lemma CutFaithful()
    ensures Faithful(FirstProbes(), CutDisks(), TwoRecords()) && Faithful(CutProbes(), CutDisks(), TwoRecords())
    ensures Enforced(CutDisks(), CutDisks(), {0, 1}, CutDisks()[0])
    ensures |CutDisks()[0]| == 4 && |CutDisks()[1]| == 4 && |CutDisks()[2]| == 6
  {
    TwoRecordsBytes();
    assert Indices(3) == {0, 1, 2};
  }

  lemma CutUsable()
    ensures CommittedSize(CutProbes()) == 6
    ensures UsableRecords(CutProbes(), CutDisks(), TwoRecords(), 1) == 1
    ensures UsableRecords(CutProbes(), CutDisks(), TwoRecords(), 2) == 1
  {
    TwoRecordsBytes();
    WhereCut();
    assert SizesOf(CutProbes(), [1, 2]) == [4, 6];
    LargerOfTwo(CutProbes(), 4, 6);
    WholeRecordsExact(TwoRecords(), 6, 0);
    WholeRecordsExact(TwoRecords(), 6, 1);
    assert TwoRecords()[..2] == TwoRecords();
  }

  lemma CutFirstOutcome(r1: RecoveryCandidate, m1: nat)
    requires AllFit(TwoRecords()) && Exact(FirstProbes(), CutDisks(), TwoRecords(), None, Ok(r1), m1)
    ensures r1.NonEmpty? && m1 == 1 && r1.tail.canonical == CutDisks()[0]
  {
    WhereFirst();
    CutFaithful();
    FirstFaithful();
    TwoRecordsBytes();
    hide Stream, CompleteRecords;
    forall z | 0 <= z < 3 && Answered(FirstProbes()[z]) ensures Disks()[z] == CutDisks()[z] { }
    assert SameAnswers(FirstProbes(), CutDisks(), TwoRecords(), Disks(), TwoRecords());
    ExactLater(FirstProbes(), CutDisks(), TwoRecords(), Disks(), TwoRecords(), Ok(r1), m1);
    FirstOutcome(Ok(r1), m1);
  }

  lemma CutSecondOutcome(r2: RecoveryCandidate, m2: nat)
    requires AllFit(TwoRecords()) && Exact(CutProbes(), CutDisks(), TwoRecords(), None, Ok(r2), m2)
    ensures r2.NonEmpty? && m2 == 1 && r2.tail.hadDiscardedSuffix
  {
    CutFaithful();
    CutUsable();
    WhereCut();
    TwoRecordsBytes();
    hide UsableRecords, CommittedSize, Stream, WitnessesExact, Faithful;
    var p := CutProbes();
    assert UsableRecords(p, CutDisks(), TwoRecords(), Readable(p)[0]) == 1;
    assert UsableRecords(p, CutDisks(), TwoRecords(), Readable(p)[1]) == 1;
    assert CutDisks()[Heard(p)[0]] != [];
    assert |CutDisks()[Heard(p)[1]]| > 4;
  }

  /**
   The boundary stays and yet the adopted segment is lost: the first recovery keeps
   one record on zones 0 and 1 and defers its fold; the second, hearing zones 1 and 2,
   keeps the same record but sees two bytes beyond it on zone 2, takes them for a
   proven gap, and retires the segment in which records were acknowledged meanwhile.
   */
  lemma DeferredFoldCanRetirePending(r1: RecoveryCandidate, m1: nat, r2: RecoveryCandidate, m2: nat,
                                     later: RecoveredTail)
    requires AllFit(TwoRecords()) && CompleteRecords(later.canonical) != []
    requires Exact(FirstProbes(), CutDisks(), TwoRecords(), None, Ok(r1), m1)
    requires Exact(CutProbes(), CutDisks(), TwoRecords(), None, Ok(r2), m2)
    ensures Successive(FirstProbes(), CutProbes(), CutDisks(), CutDisks(), TwoRecords(), {0, 1}, r1, m1, r2, m2)
    ensures m1 == m2 == 1 && F.Plan(false, r2, Some(NonEmpty(later))).Ok?
    ensures F.Plan(false, r2, Some(NonEmpty(later))).value.discardedPending
    ensures F.Replayed(F.Plan(false, r2, Some(NonEmpty(later))).value.predecessors) == TwoRecords()[..1]
  {
    CutFaithful();
    CutFirstOutcome(r1, m1);
    CutSecondOutcome(r2, m2);
    F.RecoveredIsPrefix(CutProbes(), CutDisks(), TwoRecords(), Ok(r2), m2);
    F.OneRecovered(r2.tail);
  }
}
