/**
 Recovery of one segment from whatever replicas answer: fence, bound what may
 have been acknowledged, freeze, read, and select the canonical prefix.

 The replica answers are inputs. `Faithful` ties them to what the disks hold, and
 `Exact` says what the outcome means for disks that hold prefixes of one stream.
 */
module Recovery {
  import opened Wrappers
  import opened Transport
  import opened Records
  import opened Quorum
  import opened Canonical

  /** Answer of one zone to the fencing takeover. */
  datatype Answer =
    | Live(size: nat)                               // fenced appendable object at its durable tail
    | Sealed(generation: int, bytes: Bytes)         // finalized object, read in full
    | Gone                                          // the object name is absent
    | Silent                                        // transient, corrupt, ambiguous or foreign-format
    | Broken(error: TransportError)                 // any other error aborts recovery

  /** Everything one zone answers during one recovery. */
  datatype Probe = Probe(
    answer: Answer,
    frozen: bool,                 // a live object could be finalized at its tail
    reread: Option<Snapshot>,     // the read after freezing, when it succeeds in the right format
    created: bool)                // a missing object could be created

  datatype SealedWitness = SealedWitness(zone: nat, generation: int)

  datatype RecoveredTail = RecoveredTail(
    canonical: Bytes,
    recordEnds: seq<nat>,
    hadDiscardedSuffix: bool,
    sealedWitnesses: seq<SealedWitness>)

  datatype RecoveryCandidate =
    | Absent
    | Empty(reusableWriter: bool)
    | NonEmpty(tail: RecoveredTail)

  datatype RecoveryError =
    | NoReplicaQuorum
    | TransportFailure(error: TransportError)
    | Conflict(recordIndex: nat)
    | PrefixTooShort(expected: nat, actual: nat)

  // ------------------------------------------------------------- selections

  /** Ascending positions of `s` that satisfy `f`. */
  function Where<T>(s: seq<T>, f: T -> bool): (r: seq<nat>)
    ensures forall k :: 0 <= k < |r| ==> r[k] < |s| && f(s[r[k]])
    ensures forall j, k :: 0 <= j < k < |r| ==> r[j] < r[k]
    ensures forall i: nat :: i < |s| && f(s[i]) ==> i in r
  {
    if s == [] then []
    else
      var front := s[..|s| - 1];
      var before := Where(front, f);
      assert forall i: nat :: i < |front| ==> s[i] == front[i];
      if f(s[|s| - 1]) then before + [|s| - 1] else before
  }

  predicate Answered(p: Probe) { p.answer.Live? || p.answer.Sealed? || p.answer.Gone? }

  function SizeOf(p: Probe): nat {
    match p.answer
    case Live(size) => size
    case Sealed(_, bytes) => |bytes|
    case _ => 0
  }

  /** Zones whose content takes part in canonical selection. */
  predicate Contributes(p: Probe) {
    p.answer.Sealed? || p.answer.Gone? || (p.answer.Live? && p.frozen && p.reread.Some?)
  }

  function CutTo(b: Bytes, size: nat): Bytes {
    if |b| <= size then b else b[..size]
  }

  function SnapshotOf(zone: nat, p: Probe, size: nat): Snapshot
    requires Contributes(p)
  {
    match p.answer
    case Sealed(generation, bytes) => Snapshot(zone, generation, true, CutTo(bytes, size))
    case Gone => Snapshot(zone, 0, true, [])
    case Live(_) => Snapshot(zone, p.reread.value.generation, p.reread.value.finalized,
                             CutTo(p.reread.value.bytes, size))
  }

  function SizesOf(probes: seq<Probe>, zones: seq<nat>): (r: seq<int>)
    requires forall k :: 0 <= k < |zones| ==> zones[k] < |probes|
    ensures |r| == |zones| && forall k :: 0 <= k < |r| ==> r[k] == SizeOf(probes[zones[k]])
  {
    seq(|zones|, k requires 0 <= k < |zones| => SizeOf(probes[zones[k]]))
  }

  /** Zones recovery heard from. */
  function Heard(probes: seq<Probe>): seq<nat> {
    Where(probes, Answered)
  }

  /** Zones recovery can read, in zone order. */
  function Readable(probes: seq<Probe>): seq<nat> {
    Where(probes, Contributes)
  }

  function SnapshotsOf(probes: seq<Probe>, zones: seq<nat>, size: nat): (r: seq<Snapshot>)
    requires forall k :: 0 <= k < |zones| ==> zones[k] < |probes| && Contributes(probes[zones[k]])
    ensures |r| == |zones| && forall k :: 0 <= k < |r| ==> r[k] == SnapshotOf(zones[k], probes[zones[k]], size)
  {
    seq(|zones|, k requires 0 <= k < |zones| => SnapshotOf(zones[k], probes[zones[k]], size))
  }

  /** Copies recovery read as finalized with exactly `canonical`. */
  function SealedWitnesses(probes: seq<Probe>, zones: seq<nat>, canonical: Bytes): (r: seq<SealedWitness>)
    requires forall k :: 0 <= k < |zones| ==> zones[k] < |probes| && Contributes(probes[zones[k]])
    ensures forall w :: w in r <==>
              exists k :: 0 <= k < |zones| && HoldsExactly(probes[zones[k]], canonical)
                && w == SealedWitness(zones[k], GenerationOf(probes[zones[k]]))
  {
    if zones == [] then []
    else
      var z := zones[|zones| - 1];
      var front := zones[..|zones| - 1];
      var before := SealedWitnesses(probes, front, canonical);
      assert forall k :: 0 <= k < |front| ==> zones[k] == front[k];
      if HoldsExactly(probes[z], canonical) then before + [SealedWitness(z, GenerationOf(probes[z]))] else before
  }

  function GenerationOf(p: Probe): int
    requires Contributes(p)
  {
    match p.answer
    case Sealed(generation, _) => generation
    case Gone => 0
    case Live(_) => p.reread.value.generation
  }

  predicate HoldsExactly(p: Probe, canonical: Bytes)
    requires Contributes(p)
  {
    match p.answer
    case Sealed(_, bytes) => bytes == canonical
    case Gone => false
    case Live(_) => p.reread.value.finalized && p.reread.value.bytes == canonical
  }

  predicate LiveEmpty(p: Probe) { p.answer.Live? && p.answer.size == 0 }

  predicate EmptyWitness(p: Probe) { LiveEmpty(p) || (p.answer.Sealed? && p.answer.bytes == []) }

  predicate NewlyCreated(p: Probe) { p.answer.Gone? && p.created }

  predicate EmptyOrCreated(p: Probe) { LiveEmpty(p) || NewlyCreated(p) }

  predicate EmptyOrCreatedWitness(p: Probe) { EmptyWitness(p) || NewlyCreated(p) }

  // ------------------------------------------------------------ specification

  /** The answers are true of disks that each hold a byte prefix of one record stream. */
  predicate Faithful(probes: seq<Probe>, disks: seq<Bytes>, records: seq<Bytes>) {
    && |probes| == |disks| && AllFit(records)
    && forall z :: 0 <= z < |probes| ==> disks[z] <= Stream(records) && Truthful(probes[z], disks[z])
  }

  /** What recovery read of the zone is true of the disk; the size it answered with may be an earlier one. */
  predicate ReadTruly(p: Probe, disk: Bytes) {
    match p.answer
    case Live(_) => p.frozen && p.reread.Some? ==> p.reread.value.bytes == disk && p.reread.value.finalized
    case Sealed(_, bytes) => bytes == disk
    case Gone => disk == []
    case _ => true
  }

  predicate Truthful(p: Probe, disk: Bytes) {
    ReadTruly(p, disk) && (p.answer.Live? ==> p.answer.size == |disk|)
  }

  /** As `Faithful`, but a copy may have been rewritten between a zone's first answer and its second reading. */
  predicate Plausible(probes: seq<Probe>, disks: seq<Bytes>, records: seq<Bytes>) {
    && |probes| == |disks| && AllFit(records)
    && forall z :: 0 <= z < |probes| ==> disks[z] <= Stream(records) && ReadTruly(probes[z], disks[z])
  }

  lemma FaithfulIsPlausible(probes: seq<Probe>, disks: seq<Bytes>, records: seq<Bytes>)
    requires Faithful(probes, disks, records)
    ensures Plausible(probes, disks, records)
  {
    forall z | 0 <= z < |probes| ensures ReadTruly(probes[z], disks[z]) { assert Truthful(probes[z], disks[z]); }
  }

  function DiskSizes(disks: seq<Bytes>): (r: seq<int>)
    ensures |r| == |disks| && forall z :: 0 <= z < |disks| ==> r[z] == |disks[z]|
  {
    seq(|disks|, z requires 0 <= z < |disks| => |disks[z]|)
  }

  /** A majority of all replicas holds the first `x` bytes. */
  predicate QuorumHeld(disks: seq<Bytes>, x: nat) {
    |Holders(DiskSizes(disks), x)| >= Majority(|disks|)
  }

  /** The largest offset the answering zones leave possible, 0 without a quorum. */
  function CommittedSize(probes: seq<Probe>): int {
    var selected := SelectRecoverySize(SizesOf(probes, Heard(probes)), |probes|);
    if selected.Some? then selected.value else 0
  }

  function Min(a: int, b: int): int { if a < b then a else b }

  /** Whole records of the stream on zone `z`, within the committed size. */
  function UsableRecords(probes: seq<Probe>, disks: seq<Bytes>, records: seq<Bytes>, z: nat): nat
    requires z < |disks| && CommittedSize(probes) >= 0
  {
    WholeRecords(records, Min(|disks[z]|, CommittedSize(probes)))
  }

  /** `m` is the longest usable prefix over the readable zones. */
  predicate IsRecovered(probes: seq<Probe>, disks: seq<Bytes>, records: seq<Bytes>, m: nat)
    requires |probes| == |disks|
  {
    && CommittedSize(probes) >= 0
    && (forall k :: 0 <= k < |Readable(probes)| ==> UsableRecords(probes, disks, records, Readable(probes)[k]) <= m)
    && (exists k :: 0 <= k < |Readable(probes)| && UsableRecords(probes, disks, records, Readable(probes)[k]) == m)
  }

  /** Some zone answered with more bytes than the recovered records. */
  predicate SuffixSeen(probes: seq<Probe>, len: nat) {
    exists k :: 0 <= k < |Heard(probes)| && SizeOf(probes[Heard(probes)[k]]) > len
  }

  lemma SuffixOnDisk(probes: seq<Probe>, disks: seq<Bytes>, records: seq<Bytes>)
    requires Faithful(probes, disks, records)
    ensures forall k :: 0 <= k < |Heard(probes)| ==> SizeOf(probes[Heard(probes)[k]]) == |disks[Heard(probes)[k]]|
  {
    forall k | 0 <= k < |Heard(probes)| ensures SizeOf(probes[Heard(probes)[k]]) == |disks[Heard(probes)[k]]| {
      assert Truthful(probes[Heard(probes)[k]], disks[Heard(probes)[k]]);
    }
  }

  /** The named copies are exactly the read ones that hold `canonical`. */
  ghost predicate WitnessesExact(probes: seq<Probe>, disks: seq<Bytes>, canonical: Bytes, named: seq<SealedWitness>)
    requires |probes| == |disks|
  {
    forall w :: w in named <==>
      exists k :: 0 <= k < |Readable(probes)| && !probes[Readable(probes)[k]].answer.Gone?
        && disks[Readable(probes)[k]] == canonical
        && w == SealedWitness(Readable(probes)[k], GenerationOf(probes[Readable(probes)[k]]))
  }

  function Kept(expected: Option<nat>, m: nat): nat {
    if expected.Some? then expected.value else m
  }

  ghost predicate TailExact(probes: seq<Probe>, disks: seq<Bytes>, records: seq<Bytes>, expected: Option<nat>,
                            tail: RecoveredTail, m: nat)
    requires |probes| == |disks| && AllFit(records)
  {
    && |Heard(probes)| >= Majority(|probes|) && |Readable(probes)| >= Majority(|probes|)
    && IsRecovered(probes, disks, records, m)
    && 1 <= Kept(expected, m) <= m <= |records|
    && tail.canonical == Stream(records[..Kept(expected, m)])
    && tail.recordEnds == Ends(records[..Kept(expected, m)])
    && (tail.hadDiscardedSuffix <==> SuffixSeen(probes, |Stream(records[..m])|))
    && WitnessesExact(probes, disks, tail.canonical, tail.sealedWitnesses)
  }

  /** Fenced empty objects. */
  ghost function LiveEmpties(probes: seq<Probe>): set<nat> {
    set z: nat | z < |probes| && probes[z].answer == Live(0)
  }

  /** Missing objects, where one can be created. */
  ghost function Creatable(probes: seq<Probe>): set<nat> {
    set z: nat | z < |probes| && probes[z].answer.Gone? && probes[z].created
  }

  /** Finalized empty objects. */
  ghost function SealedEmpties(probes: seq<Probe>): set<nat> {
    set z: nat | z < |probes| && probes[z].answer.Sealed? && |probes[z].answer.bytes| == 0
  }

  /** The empty objects recovery can write to; it creates missing ones only when the others are no majority. */
  ghost function WritableEmpties(probes: seq<Probe>): set<nat> {
    if |LiveEmpties(probes)| >= Majority(|probes|) then LiveEmpties(probes)
    else LiveEmpties(probes) + Creatable(probes)
  }

  /** Every zone that counts as proof of an empty segment. */
  ghost function Empties(probes: seq<Probe>): set<nat> {
    WritableEmpties(probes) + SealedEmpties(probes)
  }

  /** What recovery answers when no byte can have been acknowledged. */
  ghost predicate EmptyExact(probes: seq<Probe>, r: Result<RecoveryCandidate, RecoveryError>) {
    if |Empties(probes)| >= Majority(|probes|)
    then r == Ok(Empty(WritableEmpties(probes) == Indices(|probes|)))
    else r == Err(NoReplicaQuorum)
  }

  ghost function Answering(probes: seq<Probe>): set<nat> {
    set z: nat | z < |probes| && !probes[z].answer.Silent? && !probes[z].answer.Broken?
  }

  /** Zones that may hold a first byte: those that answered with one and those that did not answer. */
  ghost function MayHoldBytes(probes: seq<Probe>): set<nat> {
    set z: nat | z < |probes| && (probes[z].answer.Silent? || (probes[z].answer.Live? && probes[z].answer.size > 0) ||
                                  (probes[z].answer.Sealed? && probes[z].answer.bytes != []))
  }

  /** Zones whose content recovery can compare: finalized ones, missing ones, and those it froze and read. */
  ghost function MayBeRead(probes: seq<Probe>): set<nat> {
    set z: nat | z < |probes| && (probes[z].answer.Sealed? || probes[z].answer.Gone? ||
                                  (probes[z].answer.Live? && probes[z].frozen && probes[z].reread.Some?))
  }

  /** The zone was read finalized with exactly these bytes, at this generation. */
  predicate ReadSealed(p: Probe, canonical: Bytes, generation: int) {
    || p.answer == Sealed(generation, canonical)
    || (p.answer.Live? && p.frozen && p.reread.Some? && p.reread.value.finalized &&
        p.reread.value.bytes == canonical && p.reread.value.generation == generation)
  }

  /** The named witnesses are exactly the zones read that way. */
  ghost predicate NamesReadSealed(probes: seq<Probe>, tail: RecoveredTail) {
    forall w :: w in tail.sealedWitnesses <==>
      w.zone < |probes| && ReadSealed(probes[w.zone], tail.canonical, w.generation)
  }

  lemma WitnessesWereRead(probes: seq<Probe>, tail: RecoveredTail)
    requires tail.sealedWitnesses == SealedWitnesses(probes, Readable(probes), tail.canonical)
    ensures NamesReadSealed(probes, tail)
  {
    var zones := Readable(probes);
    assert forall k :: 0 <= k < |zones| ==> zones[k] < |probes| && Contributes(probes[zones[k]]);
    hide SealedWitnesses, Where, Readable;
    forall w: SealedWitness | w.zone < |probes| && ReadSealed(probes[w.zone], tail.canonical, w.generation)
      ensures w in tail.sealedWitnesses
    {
      ReadableAt(probes, w.zone);
      var k :| 0 <= k < |zones| && zones[k] == w.zone;
      assert HoldsExactly(probes[zones[k]], tail.canonical);
    }
    forall w: SealedWitness | w in tail.sealedWitnesses
      ensures w.zone < |probes| && ReadSealed(probes[w.zone], tail.canonical, w.generation)
    {
      WitnessWasRead(probes, zones, tail.canonical, w);
    }
  }

  lemma {:induction false} WitnessWasRead(probes: seq<Probe>, zones: seq<nat>, canonical: Bytes, w: SealedWitness)
    requires forall k :: 0 <= k < |zones| ==> zones[k] < |probes| && Contributes(probes[zones[k]])
    requires w in SealedWitnesses(probes, zones, canonical)
    ensures w.zone < |probes| && ReadSealed(probes[w.zone], canonical, w.generation)
    decreases |zones|
  {
    if zones != [] {
      var front := zones[..|zones| - 1];
      if w in SealedWitnesses(probes, front, canonical) { WitnessWasRead(probes, front, canonical, w); }
    }
  }

  lemma ReadableAt(probes: seq<Probe>, z: nat)
    requires z < |probes| && Contributes(probes[z])
    ensures z in Readable(probes)
  {
  }

  /** Which outcome recovery reports, from the bare answers: everything but the contents of a recovered tail. */
  ghost predicate Decides(probes: seq<Probe>, r: Result<RecoveryCandidate, RecoveryError>) {
    if exists z :: 0 <= z < |probes| && probes[z].answer.Broken? then FirstBrokenIs(probes, r)
    else if |Answering(probes)| < Majority(|probes|) then r == Err(NoReplicaQuorum)
    else if forall z :: 0 <= z < |probes| ==> probes[z].answer.Gone? || probes[z].answer.Silent? then r == Ok(Absent)
    else if |MayHoldBytes(probes)| < Majority(|probes|) then EmptyExact(probes, r)
    else if |MayBeRead(probes)| < Majority(|probes|) then r == Err(NoReplicaQuorum)
    else r != Ok(Absent) && r != Ok(Empty(true)) && r != Err(NoReplicaQuorum) && !(r.Err? && r.error.TransportFailure?)
  }

  ghost predicate FirstBrokenIs(probes: seq<Probe>, r: Result<RecoveryCandidate, RecoveryError>) {
    exists z :: 0 <= z < |probes| && probes[z].answer.Broken? && r == Err(TransportFailure(probes[z].answer.error))
      && forall y :: 0 <= y < z ==> !probes[y].answer.Broken?
  }

  /** What recovery returned, in terms of the disks. `m` is the recovered record count. */
  ghost predicate Exact(probes: seq<Probe>, disks: seq<Bytes>, records: seq<Bytes>, expected: Option<nat>,
                        r: Result<RecoveryCandidate, RecoveryError>, m: nat)
    requires |probes| == |disks| && AllFit(records)
  {
    match r
    case Err(Conflict(_)) => false
    case Err(PrefixTooShort(e, actual)) => IsRecovered(probes, disks, records, m) && expected == Some(e) &&
      actual == m < e
    case Err(TransportFailure(_)) => FirstBrokenIs(probes, r)
    case Err(NoReplicaQuorum) =>
      || |Heard(probes)| < Majority(|probes|)
      || (CommittedSize(probes) == 0 && EmptyExact(probes, r))
      || (CommittedSize(probes) > 0 && |Readable(probes)| < Majority(|probes|))
    case Ok(Absent) =>
      |Heard(probes)| >= Majority(|probes|) && forall k :: 0 <= k < |Heard(probes)| ==> disks[Heard(probes)[k]] == []
    case Ok(Empty(reusable)) =>
      && |Heard(probes)| >= Majority(|probes|)
      && (if CommittedSize(probes) == 0 then EmptyExact(probes, r)
          else !reusable && |Readable(probes)| >= Majority(|probes|)
               && IsRecovered(probes, disks, records, m) && Kept(expected, m) == 0)
    case Ok(NonEmpty(tail)) => TailExact(probes, disks, records, expected, tail, m)
  }

  // ---------------------------------------------------------- recover_candidate

  method RecoverCandidate(probes: seq<Probe>, expected: Option<nat>, ghost disks: seq<Bytes>, ghost records: seq<Bytes>)
    returns (r: Result<RecoveryCandidate, RecoveryError>, ghost m: nat)
    requires probes != []
    ensures Plausible(probes, disks, records) ==> Exact(probes, disks, records, expected, r, m)
    ensures Decides(probes, r)
    ensures r.Ok? && r.value.NonEmpty? ==> NamesReadSealed(probes, r.value.tail)
  {
    m := 0;
    var n := |probes|;
    var broken := FirstBroken(probes);
    if broken.Some? {
      return Err(TransportFailure(broken.value)), 0;
    }
    var heard := Heard(probes);
    HeardIsAnswering(probes);
    if |heard| < Majority(n) {
      return Err(NoReplicaQuorum), 0;
    }
    if forall k :: 0 <= k < |heard| ==> probes[heard[k]].answer.Gone? {
      AbsentIsExact(probes, disks, records);
      return Ok(Absent), 0;
    }
    CommittedSizeDefined(probes);
    NothingCommitted(probes);
    var committedSize := SelectRecoverySize(SizesOf(probes, heard), n).value;
    if committedSize == 0 {
      r := RecoverEmpty(probes);
      return;
    }
    ReadableIsMayBeRead(probes);
    r, m := RecoverRecords(probes, expected, committedSize, disks, records);
  }

  /** The first error that aborts recovery outright. */
  method FirstBroken(probes: seq<Probe>) returns (r: Option<TransportError>)
    ensures r.Some? <==> exists z :: 0 <= z < |probes| && probes[z].answer.Broken?
    ensures r.Some? ==> FirstBrokenIs(probes, Err(TransportFailure(r.value)))
  {
    for i := 0 to |probes|
      invariant forall k :: 0 <= k < i ==> !probes[k].answer.Broken?
    {
      if probes[i].answer.Broken? { return Some(probes[i].answer.error); }
    }
    return None;
  }

  // ------------------------------------------------- selections counted as sets

  lemma WhereSize<T>(s: seq<T>, f: T -> bool, zones: set<nat>)
    requires forall i: nat :: i in zones <==> i < |s| && f(s[i])
    ensures |Where(s, f)| == |zones|
  {
    AscendingSize(Where(s, f), |s|);
    assert Elements(Where(s, f)) == zones;
  }

  lemma HeardIsAnswering(probes: seq<Probe>)
    ensures |Heard(probes)| == |Answering(probes)|
    ensures (forall k :: 0 <= k < |Heard(probes)| ==> probes[Heard(probes)[k]].answer.Gone?) <==>
            forall z :: 0 <= z < |probes| ==> probes[z].answer.Gone? || !Answered(probes[z])
  {
    WhereSize(probes, Answered, Answering(probes));
    forall z | 0 <= z < |probes| && Answered(probes[z]) ensures z in Heard(probes) {}
  }

  lemma ReadableIsMayBeRead(probes: seq<Probe>)
    ensures |Readable(probes)| == |MayBeRead(probes)|
  {
    WhereSize(probes, Contributes, MayBeRead(probes));
  }

  /** Zones that answered with at least `x` bytes. */
  ghost function AnsweredWith(probes: seq<Probe>, x: int): set<nat> {
    set z: nat | z < |probes| && Answered(probes[z]) && SizeOf(probes[z]) >= x
  }

  lemma {:induction false} HeardHolders(probes: seq<Probe>, x: int)
    ensures |Holders(SizesOf(probes, Heard(probes)), x)| == |AnsweredWith(probes, x)|
  {
    CountHeard(probes, x);
    CountGeIsHolders(SizesOf(probes, Heard(probes)), x);
  }

  lemma {:induction false} CountHeard(probes: seq<Probe>, x: int)
    ensures CountGe(SizesOf(probes, Heard(probes)), x) == |AnsweredWith(probes, x)|
    decreases |probes|
  {
    if probes == [] {
      assert AnsweredWith(probes, x) == {};
    } else {
      var n := |probes| - 1;
      var front, last := probes[..n], probes[n];
      CountHeard(front, x);
      HeardSnoc(probes);
      hide Heard, Answered, SizeOf, CountGe;
      if Answered(last) {
        CountGeConcat(SizesOf(front, Heard(front)), [SizeOf(last)], x);
        CountGeOne(SizeOf(last), x);
      } else {
        assert SizesOf(front, Heard(front)) + [] == SizesOf(front, Heard(front));
      }
      AnsweredSnoc(probes, x);
    }
  }

  lemma CountGeOne(size: int, x: int)
    ensures CountGe([size], x) == if size >= x then 1 else 0
  {
  }

  lemma HeardSnoc(probes: seq<Probe>)
    requires probes != []
    ensures var n := |probes| - 1; var front := probes[..n];
            SizesOf(probes, Heard(probes)) ==
            SizesOf(front, Heard(front)) + if Answered(probes[n]) then [SizeOf(probes[n])] else []
  {
    hide SizeOf;
    var n := |probes| - 1;
    var front := probes[..n];
    assert Heard(probes) == Heard(front) + if Answered(probes[n]) then [n] else [];
  }

  lemma AnsweredSnoc(probes: seq<Probe>, x: int)
    requires probes != []
    ensures var n := |probes| - 1;
            |AnsweredWith(probes, x)| == |AnsweredWith(probes[..n], x)| +
              if Answered(probes[n]) && SizeOf(probes[n]) >= x then 1 else 0
  {
    hide Answered, SizeOf;
    var n := |probes| - 1;
    if Answered(probes[n]) && SizeOf(probes[n]) >= x {
      assert AnsweredWith(probes, x) == AnsweredWith(probes[..n], x) + {n};
    } else {
      assert AnsweredWith(probes, x) == AnsweredWith(probes[..n], x);
    }
  }

  /** An offset is within the committed size exactly when a majority of all zones may hold it. */
  lemma CommittedSizeMeans(probes: seq<Probe>, x: int)
    requires |Heard(probes)| >= Majority(|probes|)
    ensures x <= CommittedSize(probes) <==>
            |AnsweredWith(probes, x)| + (|probes| - |Heard(probes)|) >= Majority(|probes|)
  {
    AscendingSize(Heard(probes), |probes|);
    HeardHolders(probes, x);
    hide Heard, AnsweredWith, SelectRecoverySize, Holders;
    SelectedMeans(SizesOf(probes, Heard(probes)), |probes|, x);
  }

  lemma SelectedMeans(sizes: seq<int>, n: nat, x: int)
    requires Majority(n) <= |sizes| <= n
    ensures SelectRecoverySize(sizes, n).Some?
    ensures x <= SelectRecoverySize(sizes, n).value <==> |Holders(sizes, x)| + (n - |sizes|) >= Majority(n)
  {
    hide Sort, CountGe, Holders;
    CountGeIsHolders(sizes, x);
    KthLargest(sizes, Majority(n) - (n - |sizes|), x);
  }

  lemma NothingCommitted(probes: seq<Probe>)
    requires |Heard(probes)| >= Majority(|probes|)
    requires forall z :: 0 <= z < |probes| ==> !probes[z].answer.Broken?
    ensures CommittedSize(probes) == 0 <==> |MayHoldBytes(probes)| < Majority(|probes|)
  {
    hide CommittedSize, Heard;
    CommittedSizeDefined(probes);
    CommittedSizeMeans(probes, 1);
    HeardIsAnswering(probes);
    MayHoldSplit(probes);
  }

  lemma MayHoldSplit(probes: seq<Probe>)
    requires forall z :: 0 <= z < |probes| ==> !probes[z].answer.Broken?
    ensures |MayHoldBytes(probes)| == |AnsweredWith(probes, 1)| + (|probes| - |Answering(probes)|)
  {
    var full, silent := AnsweredWith(probes, 1), Indices(|probes|) - Answering(probes);
    NotIn(Answering(probes), |probes|);
    forall z: nat ensures z in MayHoldBytes(probes) <==> z in full + silent { MayHoldAt(probes, z); }
    assert MayHoldBytes(probes) == full + silent;
    forall z | z in full ensures z !in silent {}
    assert full !! silent;
  }

  lemma MayHoldAt(probes: seq<Probe>, z: nat)
    requires forall z :: 0 <= z < |probes| ==> !probes[z].answer.Broken?
    ensures z in MayHoldBytes(probes) <==>
            z < |probes| && (z !in Answering(probes) || z in AnsweredWith(probes, 1))
  {
  }

  lemma NotIn(zones: set<nat>, n: nat)
    requires zones <= Indices(n)
    ensures |Indices(n) - zones| == n - |zones|
  {
    IndicesSize(n);
    assert Indices(n) == zones + (Indices(n) - zones);
  }

  lemma AbsentIsExact(probes: seq<Probe>, disks: seq<Bytes>, records: seq<Bytes>)
    requires forall k :: 0 <= k < |Heard(probes)| ==> probes[Heard(probes)[k]].answer.Gone?
    ensures Plausible(probes, disks, records) ==>
              forall k :: 0 <= k < |Heard(probes)| ==> disks[Heard(probes)[k]] == []
  {
    if Plausible(probes, disks, records) {
      forall k | 0 <= k < |Heard(probes)| ensures disks[Heard(probes)[k]] == [] {
        assert ReadTruly(probes[Heard(probes)[k]], disks[Heard(probes)[k]]);
      }
    }
  }

  lemma CommittedSizeDefined(probes: seq<Probe>)
    requires |Heard(probes)| >= Majority(|probes|)
    ensures SelectRecoverySize(SizesOf(probes, Heard(probes)), |probes|).Some?
    ensures CommittedSize(probes) >= 0
  {
    AscendingSize(Heard(probes), |probes|);
    RecoverySizeDefined(SizesOf(probes, Heard(probes)), |probes|);
    SelectedIsNonnegative(SizesOf(probes, Heard(probes)), |probes|);
  }

  /** The branch for a positive committed size: freeze, read and select. */
  method RecoverRecords(probes: seq<Probe>, expected: Option<nat>, committedSize: nat,
                        ghost disks: seq<Bytes>, ghost records: seq<Bytes>)
    returns (r: Result<RecoveryCandidate, RecoveryError>, ghost m: nat)
    requires |Heard(probes)| >= Majority(|probes|) && 0 < committedSize == CommittedSize(probes)
    ensures r != Ok(Absent) && r != Ok(Empty(true)) && !(r.Err? && r.error.TransportFailure?)
    ensures r == Err(NoReplicaQuorum) <==> |Readable(probes)| < Majority(|probes|)
    ensures r.Ok? && r.value.NonEmpty? ==> NamesReadSealed(probes, r.value.tail)
    ensures Plausible(probes, disks, records) ==> Exact(probes, disks, records, expected, r, m)
  {
    m := 0;
    var quorum := Majority(|probes|);
    var readable := Readable(probes);
    if |readable| < quorum {
      return Err(NoReplicaQuorum), 0;
    }
    var maxObserved := MaxOf(SizesOf(probes, Heard(probes)));
    var snapshots := SnapshotsOf(probes, readable, committedSize);
    var selected := SelectCanonicalQuorum(snapshots, quorum);
    if Plausible(probes, disks, records) {
      SelectedRecords(probes, disks, records, snapshots, selected);
      m := |selected.value.recordEnds|;
    }
    if selected.Err? {
      return Err(if selected.error.NoQuorum? then NoReplicaQuorum else Conflict(selected.error.recordIndex)), 0;
    }
    var chosen := snapshots[selected.value.chosen].bytes;
    r := CutTail(probes, expected, chosen, selected.value.recordEnds, maxObserved, disks, records);
  }

  /** Keep the expected number of records of the selected copy. */
  method CutTail(probes: seq<Probe>, expected: Option<nat>, chosen: Bytes, selectedEnds: seq<nat>, maxObserved: int,
                 ghost disks: seq<Bytes>, ghost records: seq<Bytes>)
    returns (r: Result<RecoveryCandidate, RecoveryError>)
    requires |Heard(probes)| >= Majority(|probes|) && |Readable(probes)| >= Majority(|probes|)
    requires CommittedSize(probes) > 0
    requires selectedEnds == Ends(CompleteRecords(chosen))
    requires maxObserved == MaxOf(SizesOf(probes, Heard(probes)))
    requires Plausible(probes, disks, records) ==>
               && |selectedEnds| <= |records| && CompleteRecords(chosen) == records[..|selectedEnds|]
               && IsRecovered(probes, disks, records, |selectedEnds|)
    ensures r.Ok? ==> r.value.NonEmpty? || r.value == Empty(false)
    ensures r.Err? ==> r.error.PrefixTooShort?
    ensures r.Ok? && r.value.NonEmpty? ==> NamesReadSealed(probes, r.value.tail)
    ensures Plausible(probes, disks, records) ==> Exact(probes, disks, records, expected, r, |selectedEnds|)
  {
    hide CompleteRecords, Ends, IsRecovered, TailExact, SealedWitnesses, Stream, MaxOf, CommittedSize;
    var ends := selectedEnds;
    var selectedLen := if ends == [] then 0 else ends[|ends| - 1];
    var discarded := maxObserved > selectedLen;
    SelectionBytes(chosen);
    if expected.Some? {
      if |ends| < expected.value {
        return Err(PrefixTooShort(expected.value, |ends|));
      }
      ends := ends[..expected.value];
    }
    if ends == [] {
      return Ok(Empty(false));
    }
    var canonical := chosen[..ends[|ends| - 1]];
    var tail := RecoveredTail(canonical, ends, discarded, SealedWitnesses(probes, Readable(probes), canonical));
    WitnessesWereRead(probes, tail);
    hide NamesReadSealed;
    if Plausible(probes, disks, records) {
      TailIsExact(probes, disks, records, expected, chosen, |selectedEnds|, tail);
    }
    return Ok(NonEmpty(tail));
  }

  lemma TailIsExact(probes: seq<Probe>, disks: seq<Bytes>, records: seq<Bytes>, expected: Option<nat>,
                    chosen: Bytes, m: nat, tail: RecoveredTail)
    requires Plausible(probes, disks, records)
    requires |Heard(probes)| >= Majority(|probes|) && |Readable(probes)| >= Majority(|probes|)
    requires m <= |records| && IsRecovered(probes, disks, records, m) && CompleteRecords(chosen) == records[..m]
    requires 1 <= Kept(expected, m) <= m
    requires tail.recordEnds == Ends(records[..m])[..Kept(expected, m)]
    requires tail.recordEnds[Kept(expected, m) - 1] <= |chosen|
    requires tail.canonical == chosen[..tail.recordEnds[Kept(expected, m) - 1]]
    requires tail.hadDiscardedSuffix == (MaxOf(SizesOf(probes, Heard(probes))) > Ends(records[..m])[m - 1])
    requires tail.sealedWitnesses == SealedWitnesses(probes, Readable(probes), tail.canonical)
    ensures TailExact(probes, disks, records, expected, tail, m)
  {
    assert AllFit(records) && |probes| == |disks|;
    hide Stream, Ends, IsRecovered, WitnessesExact, SuffixSeen, MaxOf, Heard, Readable, SealedWitnesses;
    hide Plausible, AllFit, SizesOf, CompleteRecords;
    TailBytes(records, chosen, m, Kept(expected, m));
    TailEnds(records, m, Kept(expected, m));
    DiscardedIsExact(probes, records, m);
    WitnessesAreExact(probes, disks, records, tail.canonical);
  }

  /** The branch for a committed size of zero: prove an empty frontier on a quorum. */
  method RecoverEmpty(probes: seq<Probe>) returns (r: Result<RecoveryCandidate, RecoveryError>)
    ensures EmptyExact(probes, r)
  {
    hide Where, WritableEmpties, Empties;
    var quorum := Majority(|probes|);
    var tokens := Where(probes, LiveEmpty);
    var witnesses := Where(probes, EmptyWitness);
    EmptyCounts(probes);
    if |tokens| < quorum {
      tokens := Where(probes, EmptyOrCreated);
      witnesses := Where(probes, EmptyOrCreatedWitness);
    }
    if |witnesses| < quorum {
      return Err(NoReplicaQuorum);
    }
    AllZones(WritableEmpties(probes), |probes|);
    return Ok(Empty(|tokens| == |probes|));
  }

  lemma EmptyCounts(probes: seq<Probe>)
    ensures WritableEmpties(probes) <= Indices(|probes|)
    ensures |Where(probes, LiveEmpty)| < Majority(|probes|) ==>
              && |Where(probes, EmptyOrCreated)| == |WritableEmpties(probes)|
              && |Where(probes, EmptyOrCreatedWitness)| == |Empties(probes)|
    ensures |Where(probes, LiveEmpty)| >= Majority(|probes|) ==>
              && |Where(probes, LiveEmpty)| == |WritableEmpties(probes)|
              && |Where(probes, EmptyWitness)| == |Empties(probes)|
  {
    hide Where, WritableEmpties, Empties;
    LiveCount(probes);
    if |LiveEmpties(probes)| < Majority(|probes|) {
      FewLive(probes);
      FewLiveWitnesses(probes);
    } else {
      ManyLive(probes);
    }
  }

  lemma LiveCount(probes: seq<Probe>)
    ensures |Where(probes, LiveEmpty)| == |LiveEmpties(probes)|
  {
    hide Where;
    WhereSize(probes, LiveEmpty, LiveEmpties(probes));
  }

  lemma ManyLive(probes: seq<Probe>)
    requires |LiveEmpties(probes)| >= Majority(|probes|)
    ensures WritableEmpties(probes) == LiveEmpties(probes) <= Indices(|probes|)
    ensures |Where(probes, EmptyWitness)| == |Empties(probes)|
  {
    hide Where;
    var zones := LiveEmpties(probes) + SealedEmpties(probes);
    forall i: nat ensures i in zones <==> i < |probes| && EmptyWitness(probes[i]) {}
    WhereSize(probes, EmptyWitness, zones);
  }

  lemma FewLive(probes: seq<Probe>)
    requires |LiveEmpties(probes)| < Majority(|probes|)
    ensures WritableEmpties(probes) == LiveEmpties(probes) + Creatable(probes) <= Indices(|probes|)
    ensures |Where(probes, EmptyOrCreated)| == |WritableEmpties(probes)|
  {
    hide Where;
    var zones := LiveEmpties(probes) + Creatable(probes);
    forall i: nat ensures i in zones <==> i < |probes| && EmptyOrCreated(probes[i]) {}
    WhereSize(probes, EmptyOrCreated, zones);
  }

  lemma FewLiveWitnesses(probes: seq<Probe>)
    requires |LiveEmpties(probes)| < Majority(|probes|)
    ensures |Where(probes, EmptyOrCreatedWitness)| == |Empties(probes)|
  {
    hide Where;
    var zones := LiveEmpties(probes) + Creatable(probes) + SealedEmpties(probes);
    forall i: nat ensures i in zones <==> i < |probes| && EmptyOrCreatedWitness(probes[i]) {}
    WhereSize(probes, EmptyOrCreatedWitness, zones);
  }

  lemma AllZones(zones: set<nat>, n: nat)
    requires zones <= Indices(n)
    ensures |zones| == n <==> zones == Indices(n)
  {
    IndicesSize(n);
    if zones != Indices(n) {
      var z :| z in Indices(n) && z !in zones;
      SubsetSize(zones + {z}, Indices(n));
    }
  }

  function MaxOf(s: seq<int>): (m: int)
    requires s != []
    ensures m in s && forall i :: 0 <= i < |s| ==> s[i] <= m
  {
    if |s| == 1 then s[0]
    else
      var rest := MaxOf(s[1..]);
      if s[0] > rest then s[0] else rest
  }

  lemma SelectedIsNonnegative(sizes: seq<int>, n: nat)
    requires SelectRecoverySize(sizes, n).Some? && forall k :: 0 <= k < |sizes| ==> sizes[k] >= 0
    ensures SelectRecoverySize(sizes, n).value >= 0
  {
    SortSpec(sizes);
    var t := Sort(sizes);
    var at := |sizes| - (Majority(n) - (n - |sizes|));
    assert t[at] in multiset(t);
    assert t[at] in sizes;
  }

  // ------------------------------------------------- connecting the selection

  /** The selected ends name the whole-record prefix of the chosen copy. */
  lemma SelectionBytes(bytes: Bytes)
    ensures var ends := Ends(CompleteRecords(bytes));
            forall i :: 0 <= i < |ends| ==> ends[i] <= |bytes|
  {
    var records := CompleteRecords(bytes);
    ParsedBytes(bytes);
    forall i | 0 <= i < |records| ensures Ends(records)[i] <= |bytes| {
      EndsAreStreamLengths(records, i);
      StreamPrefixLength(records, i + 1, |records|);
      assert records[..|records|] == records;
    }
  }

  lemma CutIsPrefix(disk: Bytes, size: nat, records: seq<Bytes>)
    requires AllFit(records) && disk <= Stream(records)
    ensures CutTo(disk, size) == Stream(records)[..Min(|disk|, size)]
  {
  }

  /** With true readings the selection is the longest usable prefix. */
  lemma SelectedRecords(probes: seq<Probe>, disks: seq<Bytes>, records: seq<Bytes>, snapshots: seq<Snapshot>,
                        selected: Result<Selection, SelectError>)
    requires probes != [] && Plausible(probes, disks, records) && CommittedSize(probes) >= 0
    requires |Readable(probes)| >= Majority(|probes|)
    requires snapshots == SnapshotsOf(probes, Readable(probes), CommittedSize(probes))
    requires IsSelection(snapshots, Majority(|probes|), selected)
    ensures selected.Ok? && selected.value.chosen < |snapshots|
    ensures var m := |selected.value.recordEnds|;
            && m <= |records| && IsRecovered(probes, disks, records, m)
            && CompleteRecords(snapshots[selected.value.chosen].bytes) == records[..m]
  {
    var readable := Readable(probes);
    var size := CommittedSize(probes);
    forall k | 0 <= k < |snapshots|
      ensures snapshots[k].bytes <= Stream(records)
      ensures CompleteRecords(snapshots[k].bytes) == records[..UsableRecords(probes, disks, records, readable[k])]
    {
      var z := readable[k];
      assert ReadTruly(probes[z], disks[z]);
      assert snapshots[k].bytes == CutTo(disks[z], size);
      CutIsPrefix(disks[z], size, records);
      ParseOfCutStream(records, Min(|disks[z]|, size));
    }
    HonestSelection(snapshots, Majority(|probes|), Stream(records), selected);
    var w := selected.value.chosen;
    var m := UsableRecords(probes, disks, records, readable[w]);
    forall k | 0 <= k < |readable| ensures UsableRecords(probes, disks, records, readable[k]) <= m {
      assert CompleteRecords(snapshots[k].bytes) <= CompleteRecords(snapshots[w].bytes);
    }
    assert selected.value.recordEnds == Ends(Decoded(snapshots)[w]);
  }

  lemma EndsOfPrefix(records: seq<Bytes>, kept: nat)
    requires AllFit(records) && kept <= |records|
    ensures Ends(records)[..kept] == Ends(records[..kept])
  {
    forall j | 0 <= j < kept ensures Ends(records[..kept])[j] == Ends(records)[j] {
      EndsAreStreamLengths(records[..kept], j);
      EndsAreStreamLengths(records, j);
      assert records[..kept][..j + 1] == records[..j + 1];
    }
  }

  lemma PrefixCut(a: Bytes, b: Bytes, c: Bytes)
    requires a <= b && b <= c
    ensures |a| <= |c| && c[..|a|] == a
  {
  }

  /** Cutting the chosen copy at a record end leaves the encoding of that many records. */
  lemma TailBytes(records: seq<Bytes>, chosen: Bytes, m: nat, kept: nat)
    requires AllFit(records) && m <= |records| && CompleteRecords(chosen) == records[..m] && 1 <= kept <= m
    ensures |Stream(records[..kept])| <= |chosen|
    ensures chosen[..|Stream(records[..kept])|] == Stream(records[..kept])
  {
    ParsedBytes(chosen);
    StreamPrefixLength(records, kept, m);
    PrefixCut(Stream(records[..kept]), Stream(records[..m]), chosen);
  }

  lemma TailEnds(records: seq<Bytes>, m: nat, kept: nat)
    requires AllFit(records) && 1 <= kept <= m <= |records|
    ensures Ends(records[..m])[..kept] == Ends(records[..kept])
    ensures Ends(records[..m])[kept - 1] == |Stream(records[..kept])|
    ensures Ends(records[..m])[m - 1] == |Stream(records[..m])|
  {
    EndsOfPrefix(records[..m], kept);
    assert records[..m][..kept] == records[..kept] && records[..m][..m] == records[..m];
    EndsAreStreamLengths(records[..m], m - 1);
    EndsAreStreamLengths(records[..m], kept - 1);
  }

  lemma DiscardedIsExact(probes: seq<Probe>, records: seq<Bytes>, m: nat)
    requires AllFit(records) && m <= |records| && Heard(probes) != []
    ensures MaxOf(SizesOf(probes, Heard(probes))) > |Stream(records[..m])| <==>
            SuffixSeen(probes, |Stream(records[..m])|)
  {
    var heard := Heard(probes);
    var sizes := SizesOf(probes, heard);
    var k :| 0 <= k < |sizes| && sizes[k] == MaxOf(sizes);
    assert SizeOf(probes[heard[k]]) == MaxOf(sizes);
  }

  lemma WitnessesAreExact(probes: seq<Probe>, disks: seq<Bytes>, records: seq<Bytes>, canonical: Bytes)
    requires Plausible(probes, disks, records)
    ensures WitnessesExact(probes, disks, canonical, SealedWitnesses(probes, Readable(probes), canonical))
  {
    var zones := Readable(probes);
    forall k | 0 <= k < |zones|
      ensures HoldsExactly(probes[zones[k]], canonical) <==>
                !probes[zones[k]].answer.Gone? && disks[zones[k]] == canonical
    {
      assert ReadTruly(probes[zones[k]], disks[zones[k]]);
    }
  }

  // ------------------------------------------------------------ main results

  /** Two groups of zones that together outnumber the replicas share one, two majorities in particular. */
  lemma SharedZone(zones: seq<nat>, n: nat, holders: set<nat>) returns (k: nat)
    requires holders <= Indices(n) && |zones| + |holders| > n
    requires forall k :: 0 <= k < |zones| ==> zones[k] < n
    requires forall j, k :: 0 <= j < k < |zones| ==> zones[j] < zones[k]
    ensures k < |zones| && zones[k] in holders
  {
    AscendingSize(zones, n);
    var z := Overlap(n, Elements(zones), holders);
    k :| 0 <= k < |zones| && zones[k] == z;
  }

  /** Whoever of the holders answered, answered with at least `x` bytes and was read with at least `x`. */
  predicate HoldersAnswer(probes: seq<Probe>, disks: seq<Bytes>, holders: set<nat>, x: nat)
    requires |probes| == |disks|
  {
    && holders <= Indices(|probes|) && |holders| >= Majority(|probes|)
    && forall z :: z in holders && Answered(probes[z]) ==> SizeOf(probes[z]) >= x && |disks[z]| >= x
  }

  lemma HeldIsBelowCommittedSize(probes: seq<Probe>, disks: seq<Bytes>, holders: set<nat>, x: nat)
    requires |probes| == |disks| && HoldersAnswer(probes, disks, holders, x) && |Heard(probes)| >= Majority(|probes|)
    ensures x <= CommittedSize(probes)
  {
    var heard := Heard(probes);
    var all: seq<int> := seq(|probes|, z requires 0 <= z < |probes| =>
      if Answered(probes[z]) then SizeOf(probes[z]) else if z in holders then x else 0);
    assert holders <= Holders(all, x);
    SubsetSize(holders, Holders(all, x));
    RecoverySizeCoversQuorum(all, heard, x);
    assert seq(|heard|, k requires 0 <= k < |heard| => all[heard[k]]) == SizesOf(probes, heard);
  }

  /** Zone `z` holds record `j` and the committed size covers it. */
  lemma UsableCovers(probes: seq<Probe>, disks: seq<Bytes>, records: seq<Bytes>, z: nat, j: nat)
    requires AllFit(records) && z < |disks| && j < |records|
    requires |Stream(records[..j + 1])| <= |disks[z]| && |Stream(records[..j + 1])| <= CommittedSize(probes)
    ensures UsableRecords(probes, disks, records, z) > j
  {
    WholeRecordsExact(records, Min(|disks[z]|, CommittedSize(probes)), j);
  }

  lemma FirstRecordNonEmpty(records: seq<Bytes>, j: nat)
    requires AllFit(records) && j < |records|
    ensures |Stream(records[..j + 1])| > 0
  {
    StreamPrefixLength(records, 0, j + 1);
  }

  /**
   The core of every such result: a record that a majority of all replicas holds, in the
   answers and in the readings of those of them that answered, is recovered.
   */
  lemma HeldByIsRecovered(probes: seq<Probe>, disks: seq<Bytes>, records: seq<Bytes>, expected: Option<nat>,
                          r: Result<RecoveryCandidate, RecoveryError>, m: nat, j: nat, holders: set<nat>)
    requires |probes| == |disks| && AllFit(records) && Exact(probes, disks, records, expected, r, m) && r.Ok?
    requires j < |records| && HoldersAnswer(probes, disks, holders, |Stream(records[..j + 1])|) && expected != Some(0)
    ensures r.value.NonEmpty? && j < m <= |records|
    ensures r.value.tail.canonical == Stream(records[..Kept(expected, m)])
    ensures r.value.tail.recordEnds == Ends(records[..Kept(expected, m)])
  {
    var x := |Stream(records[..j + 1])|;
    FirstRecordNonEmpty(records, j);
    HeldIsBelowCommittedSize(probes, disks, holders, x);
    if r.value.Absent? {
      var k := SharedZone(Heard(probes), |probes|, holders);
      assert false;
    } else {
      var k := SharedZone(Readable(probes), |probes|, holders);
      assert Answered(probes[Readable(probes)[k]]);
      UsableCovers(probes, disks, records, Readable(probes)[k], j);
    }
  }

  lemma QuorumAnswers(probes: seq<Probe>, disks: seq<Bytes>, records: seq<Bytes>, x: nat)
    requires Faithful(probes, disks, records) && QuorumHeld(disks, x)
    ensures HoldersAnswer(probes, disks, Holders(DiskSizes(disks), x), x)
  {
    forall z | z in Holders(DiskSizes(disks), x) && Answered(probes[z])
      ensures SizeOf(probes[z]) >= x && |disks[z]| >= x
    {
      assert Truthful(probes[z], disks[z]);
    }
  }

  /**
   Acknowledged implies recovered, for every replica count and every set of
   answering zones: a record held by a majority of all replicas is in the prefix
   of any recovery that succeeds.
   */
  lemma AcknowledgedIsRecovered(probes: seq<Probe>, disks: seq<Bytes>, records: seq<Bytes>,
                                r: Result<RecoveryCandidate, RecoveryError>, m: nat, j: nat)
    requires Faithful(probes, disks, records) && Exact(probes, disks, records, None, r, m) && r.Ok?
    requires j < |records| && QuorumHeld(disks, |Stream(records[..j + 1])|)
    ensures r.value.NonEmpty? && j < m <= |records|
    ensures r.value.tail.canonical == Stream(records[..m]) && r.value.tail.recordEnds == Ends(records[..m])
  {
    var x := |Stream(records[..j + 1])|;
    QuorumAnswers(probes, disks, records, x);
    HeldByIsRecovered(probes, disks, records, None, r, m, j, Holders(DiskSizes(disks), x));
  }

  lemma AllSizesHeard(probes: seq<Probe>, disks: seq<Bytes>, records: seq<Bytes>)
    requires Faithful(probes, disks, records) && forall z :: 0 <= z < |probes| ==> Answered(probes[z])
    ensures SizesOf(probes, Heard(probes)) == DiskSizes(disks)
  {
    hide Stream;
    var heard := Heard(probes);
    AllAscending(heard, |probes|);
    forall k | 0 <= k < |heard| ensures SizesOf(probes, heard)[k] == DiskSizes(disks)[k] {
      assert Truthful(probes[k], disks[k]);
    }
  }

  /** With every zone answering, the committed size is exactly what a majority holds. */
  lemma CommittedSizeIsHeld(probes: seq<Probe>, disks: seq<Bytes>, records: seq<Bytes>, x: nat)
    requires Faithful(probes, disks, records) && probes != [] && forall z :: 0 <= z < |probes| ==> Answered(probes[z])
    ensures x <= CommittedSize(probes) ==> QuorumHeld(disks, x)
  {
    AllSizesHeard(probes, disks, records);
    hide Sort, Holders, Heard, SizesOf, SelectRecoverySize;
    AllReachedSize(DiskSizes(disks), x);
  }

  lemma {:induction false} AllAscending(a: seq<nat>, n: nat)
    requires forall k :: 0 <= k < |a| ==> a[k] < n
    requires forall j, k :: 0 <= j < k < |a| ==> a[j] < a[k]
    requires forall z: nat :: z < n ==> z in a
    ensures |a| == n && forall k :: 0 <= k < |a| ==> a[k] == k
    decreases n
  {
    assert a != [] ==> a[0] < n;
    if n > 0 {
      var last := |a| - 1;
      assert n - 1 in a;
      var p :| 0 <= p < |a| && a[p] == n - 1;
      assert a[p] <= a[last] < n;
      forall z: nat | z < n - 1 ensures z in a[..last] {
        assert z in a;
        assert a == a[..last] + [a[last]];
      }
      AllAscending(a[..last], n - 1);
    }
  }

  /**
   When every zone answers, recovery keeps a record if and only if a majority holds it:
   no unacknowledged record is invented and none that a majority holds is dropped.
   */
  lemma RecoveredExactlyIfHeld(probes: seq<Probe>, disks: seq<Bytes>, records: seq<Bytes>,
                               r: Result<RecoveryCandidate, RecoveryError>, m: nat, j: nat)
    requires Faithful(probes, disks, records) && Exact(probes, disks, records, None, r, m) && r.Ok? && r.value.NonEmpty?
    requires j < |records| && forall z :: 0 <= z < |probes| ==> Answered(probes[z])
    ensures j < m <==> QuorumHeld(disks, |Stream(records[..j + 1])|)
  {
    var x := |Stream(records[..j + 1])|;
    if QuorumHeld(disks, x) {
      AcknowledgedIsRecovered(probes, disks, records, r, m, j);
    } else {
      CommittedSizeIsHeld(probes, disks, records, x);
      hide CommittedSize, QuorumHeld, Stream, WitnessesExact, SuffixSeen;
      var k :| 0 <= k < |Readable(probes)| && UsableRecords(probes, disks, records, Readable(probes)[k]) == m;
      WholeRecordsExact(records, Min(|disks[Readable(probes)[k]]|, CommittedSize(probes)), j);
    }
  }

  // ------------------------------------------------------- some recovery exists

  /** Every zone answers with its finalized copy. */
  function AllAnswer(disks: seq<Bytes>): (r: seq<Probe>)
    ensures |r| == |disks| && forall z :: 0 <= z < |r| ==> r[z] == Probe(Sealed(0, disks[z]), false, None, false)
  {
    seq(|disks|, z requires 0 <= z < |disks| => Probe(Sealed(0, disks[z]), false, None, false))
  }

  lemma {:induction false} MostUsable(probes: seq<Probe>, disks: seq<Bytes>, records: seq<Bytes>, upTo: nat)
    returns (m: nat)
    requires |probes| == |disks| && CommittedSize(probes) >= 0 && 1 <= upTo <= |Readable(probes)|
    ensures forall k :: 0 <= k < upTo ==> UsableRecords(probes, disks, records, Readable(probes)[k]) <= m
    ensures exists k :: 0 <= k < upTo && UsableRecords(probes, disks, records, Readable(probes)[k]) == m
    decreases upTo
  {
    hide UsableRecords, CommittedSize;
    var last := UsableRecords(probes, disks, records, Readable(probes)[upTo - 1]);
    if upTo == 1 {
      m := last;
    } else {
      m := MostUsable(probes, disks, records, upTo - 1);
      if last > m { m := last; }
    }
  }

  lemma UsableBounded(probes: seq<Probe>, disks: seq<Bytes>, records: seq<Bytes>, z: nat)
    requires AllFit(records) && z < |disks| && CommittedSize(probes) >= 0
    ensures UsableRecords(probes, disks, records, z) <= |records|
  {
  }

  lemma AllAnswering(disks: seq<Bytes>)
    ensures |Heard(AllAnswer(disks))| == |disks| == |Readable(AllAnswer(disks))|
  {
    var probes := AllAnswer(disks);
    AllAscending(Heard(probes), |probes|);
    AllAscending(Readable(probes), |probes|);
  }

  lemma EverybodyHeard(disks: seq<Bytes>, records: seq<Bytes>)
    requires disks != [] && AllFit(records) && forall z :: 0 <= z < |disks| ==> disks[z] <= Stream(records)
    ensures Faithful(AllAnswer(disks), disks, records) && Plausible(AllAnswer(disks), disks, records)
    ensures |Heard(AllAnswer(disks))| == |disks| == |Readable(AllAnswer(disks))|
    ensures CommittedSize(AllAnswer(disks)) >= 0
  {
    hide Stream;
    var probes := AllAnswer(disks);
    AllAnswering(disks);
    CommittedSizeDefined(probes);
    hide Heard, Readable, CommittedSize;
    assert Faithful(probes, disks, records);
    FaithfulIsPlausible(probes, disks, records);
  }

  /** The outcome of a recovery in which a majority is readable and the longest usable prefix has `m` records. */
  ghost function OutcomeOf(probes: seq<Probe>, records: seq<Bytes>, m: nat): RecoveryCandidate
    requires AllFit(records) && m <= |records|
  {
    if m == 0 then Empty(false) else NonEmpty(TailOf(probes, records, m))
  }

  lemma OutcomeIsExact(probes: seq<Probe>, disks: seq<Bytes>, records: seq<Bytes>, m: nat)
    requires Plausible(probes, disks, records) && IsRecovered(probes, disks, records, m) && m <= |records|
    requires |Heard(probes)| >= Majority(|probes|) && |Readable(probes)| >= Majority(|probes|)
    requires CommittedSize(probes) > 0
    ensures Exact(probes, disks, records, None, Ok(OutcomeOf(probes, records, m)), m)
  {
    WitnessesAreExact(probes, disks, records, Stream(records[..m]));
    hide Stream, IsRecovered, CommittedSize, SuffixSeen, WitnessesExact, SealedWitnesses, Ends, Plausible;
  }

  /** With everybody answering, a majority of empty copies makes an empty segment. */
  lemma NobodyHolds(disks: seq<Bytes>, records: seq<Bytes>)
    requires disks != [] && AllFit(records) && forall z :: 0 <= z < |disks| ==> disks[z] <= Stream(records)
    requires |disks| - |Holders(DiskSizes(disks), 1)| >= Majority(|disks|)
    ensures CommittedSize(AllAnswer(disks)) == 0 && EmptyExact(AllAnswer(disks), Ok(Empty(false)))
  {
    var probes := AllAnswer(disks);
    EverybodyHeard(disks, records);
    CommittedSizeMeans(probes, 1);
    hide CommittedSize, Heard, Readable, Stream;
    EmptyOrFull(disks);
    assert 0 in Indices(|disks|) && 0 !in WritableEmpties(probes);
  }

  lemma EmptyOrFull(disks: seq<Bytes>)
    ensures AnsweredWith(AllAnswer(disks), 1) == Holders(DiskSizes(disks), 1)
    ensures |Empties(AllAnswer(disks))| >= |disks| - |AnsweredWith(AllAnswer(disks), 1)|
  {
    var probes := AllAnswer(disks);
    var all, full := Indices(|disks|), AnsweredWith(probes, 1);
    IndicesSize(|disks|);
    assert full <= all;
    assert |all - full| == |disks| - |full| by { assert all == full + (all - full); }
    assert all - full <= SealedEmpties(probes);
    SubsetSize(all - full, Empties(probes));
  }

  lemma EmptyIsExact(probes: seq<Probe>, disks: seq<Bytes>, records: seq<Bytes>)
    requires |probes| == |disks| <= |Heard(probes)| && AllFit(records) && CommittedSize(probes) == 0 && disks != []
    requires EmptyExact(probes, Ok(Empty(false)))
    ensures Exact(probes, disks, records, None, Ok(Empty(false)), 0)
  {
    hide Heard, CommittedSize, EmptyExact;
  }

  /** A recovery that can read a majority succeeds once some byte may have been acknowledged. */
  lemma SomeFullRecovery(probes: seq<Probe>, disks: seq<Bytes>, records: seq<Bytes>)
    returns (r: RecoveryCandidate, m: nat)
    requires Plausible(probes, disks, records) && CommittedSize(probes) > 0
    requires |Heard(probes)| >= Majority(|probes|) && |Readable(probes)| >= Majority(|probes|)
    ensures Exact(probes, disks, records, None, Ok(r), m) && IsRecovered(probes, disks, records, m)
  {
    assert |probes| == |disks| && AllFit(records);
    hide Stream, CommittedSize, Plausible, Heard, Exact;
    m := MostUsable(probes, disks, records, |Readable(probes)|);
    assert IsRecovered(probes, disks, records, m);
    var w :| 0 <= w < |Readable(probes)| && UsableRecords(probes, disks, records, Readable(probes)[w]) == m;
    UsableBounded(probes, disks, records, Readable(probes)[w]);
    r := OutcomeOf(probes, records, m);
    OutcomeIsExact(probes, disks, records, m);
  }

  /** A record that ends beyond the committed size is not recovered. */
  lemma BeyondIsNotRecovered(probes: seq<Probe>, disks: seq<Bytes>, records: seq<Bytes>, m: nat, j: nat)
    requires |probes| == |disks| && AllFit(records) && IsRecovered(probes, disks, records, m) && j < |records|
    requires CommittedSize(probes) < |Stream(records[..j + 1])|
    ensures m <= j
  {
    hide CommittedSize, Stream;
    var k :| 0 <= k < |Readable(probes)| && UsableRecords(probes, disks, records, Readable(probes)[k]) == m;
    WholeRecordsExact(records, Min(|disks[Readable(probes)[k]]|, CommittedSize(probes)), j);
  }

  /** Everybody answers but one zone. */
  function AllAnswerBut(disks: seq<Bytes>, quiet: nat): (r: seq<Probe>)
    requires quiet < |disks|
    ensures |r| == |disks| && r[quiet] == Probe(Silent, false, None, false)
    ensures forall z :: 0 <= z < |r| && z != quiet ==> r[z] == Probe(Sealed(0, disks[z]), false, None, false)
  {
    AllAnswer(disks)[quiet := Probe(Silent, false, None, false)]
  }

  lemma AllButOneHeard(disks: seq<Bytes>, quiet: nat, records: seq<Bytes>)
    requires quiet < |disks| && AllFit(records) && forall z :: 0 <= z < |disks| ==> disks[z] <= Stream(records)
    ensures Faithful(AllAnswerBut(disks, quiet), disks, records)
    ensures |Heard(AllAnswerBut(disks, quiet))| == |disks| - 1 == |Readable(AllAnswerBut(disks, quiet))|
  {
    hide Stream;
    ButOneAnswer(disks, quiet);
    hide Heard, Readable;
    var probes := AllAnswerBut(disks, quiet);
    forall z | 0 <= z < |probes| ensures Truthful(probes[z], disks[z]) {}
  }

  lemma ButOneAnswer(disks: seq<Bytes>, quiet: nat)
    requires quiet < |disks|
    ensures |Heard(AllAnswerBut(disks, quiet))| == |disks| - 1 == |Readable(AllAnswerBut(disks, quiet))|
  {
    var probes := AllAnswerBut(disks, quiet);
    AllButOne(|disks|, quiet);
    AnsweringBut(disks, quiet);
    ReadBut(disks, quiet);
    hide *;
    HeardIsAnswering(probes);
    ReadableIsMayBeRead(probes);
  }

  lemma AllButOne(n: nat, quiet: nat)
    requires quiet < n
    ensures |Indices(n) - {quiet}| == n - 1
  {
    IndicesSize(n);
  }

  lemma AnsweringBut(disks: seq<Bytes>, quiet: nat)
    requires quiet < |disks|
    ensures Answering(AllAnswerBut(disks, quiet)) == Indices(|disks|) - {quiet}
    ensures |AllAnswerBut(disks, quiet)| == |disks|
  {
    hide AllAnswerBut;
  }

  lemma ReadBut(disks: seq<Bytes>, quiet: nat)
    requires quiet < |disks|
    ensures MayBeRead(AllAnswerBut(disks, quiet)) == Indices(|disks|) - {quiet}
  {
    hide AllAnswerBut;
  }

  /** An empty zone's silence leaves the smallest of the non-empty half as the committed size. */
  lemma SilentEmptySize(disks: seq<Bytes>, quiet: nat, x: nat)
    requires quiet < |disks| && disks[quiet] == [] && x > 0
    requires |Heard(AllAnswerBut(disks, quiet))| == |disks| - 1 >= Majority(|disks|)
    ensures x <= CommittedSize(AllAnswerBut(disks, quiet)) <==>
            |Holders(DiskSizes(disks), x)| + 1 >= Majority(|disks|)
  {
    var probes := AllAnswerBut(disks, quiet);
    CommittedSizeMeans(probes, x);
    hide CommittedSize, Heard;
    assert AnsweredWith(probes, x) == Holders(DiskSizes(disks), x);
  }

  ghost function TailOf(probes: seq<Probe>, records: seq<Bytes>, m: nat): RecoveredTail
    requires AllFit(records) && m <= |records|
  {
    var canonical := Stream(records[..m]);
    RecoveredTail(canonical, Ends(records[..m]), SuffixSeen(probes, |canonical|),
                  SealedWitnesses(probes, Readable(probes), canonical))
  }

  /** Every recovery that succeeds on these disks, whoever answers, returns record `j`. */
  ghost predicate AlwaysRecovered(disks: seq<Bytes>, records: seq<Bytes>, j: nat)
    requires AllFit(records)
  {
    forall probes, r, m :: Faithful(probes, disks, records) && Exact(probes, disks, records, None, Ok(r), m) ==>
      r.NonEmpty? && j < m
  }

  /**
   A tie, which only an even count allows: half of the copies are empty. With two replicas
   no recovery succeeds then; with more, one does only if it leaves out an empty zone, and
   it keeps what every non-empty copy holds.
   */
  predicate Tied(disks: seq<Bytes>, x: nat) {
    && |disks| % 2 == 0 && |Holders(DiskSizes(disks), 1)| == |disks| / 2
    && (|disks| == 2 || forall z :: 0 <= z < |disks| ==> disks[z] == [] || |disks[z]| >= x)
  }

  /**
   Recovery is sure to return a record exactly when a majority holds it, or the copies are
   tied; the supported counts are odd and know no ties.
   */
  lemma AlwaysRecoveredExactlyIfHeld(disks: seq<Bytes>, records: seq<Bytes>, j: nat)
    requires disks != [] && AllFit(records) && (forall z :: 0 <= z < |disks| ==> disks[z] <= Stream(records))
    requires j < |records|
    ensures AlwaysRecovered(disks, records, j) <==>
            QuorumHeld(disks, |Stream(records[..j + 1])|) || Tied(disks, |Stream(records[..j + 1])|)
    ensures |disks| % 2 == 1 ==> !Tied(disks, |Stream(records[..j + 1])|)
  {
    hide Exact, QuorumHeld, Stream, Tied;
    var x := |Stream(records[..j + 1])|;
    NoTieOfOdd(disks, x);
    if QuorumHeld(disks, x) || Tied(disks, x) {
      forall probes, r, m | Faithful(probes, disks, records) && Exact(probes, disks, records, None, Ok(r), m)
        ensures r.NonEmpty? && j < m
      {
        if QuorumHeld(disks, x) {
          AcknowledgedIsRecovered(probes, disks, records, Ok(r), m, j);
        } else {
          TiedIsRecovered(probes, disks, records, r, m, j);
        }
      }
    } else {
      var probes, r, m := SomeRecoveryWithout(disks, records, j);
    }
  }

  lemma NoTieOfOdd(disks: seq<Bytes>, x: nat)
    ensures |disks| % 2 == 1 ==> !Tied(disks, x)
  {
  }

  /** Without a majority and without a tie, some recovery succeeds and does not return the record. */
  lemma SomeRecoveryWithout(disks: seq<Bytes>, records: seq<Bytes>, j: nat)
    returns (probes: seq<Probe>, r: RecoveryCandidate, m: nat)
    requires disks != [] && AllFit(records) && (forall z :: 0 <= z < |disks| ==> disks[z] <= Stream(records))
    requires j < |records| && !QuorumHeld(disks, |Stream(records[..j + 1])|)
    requires !Tied(disks, |Stream(records[..j + 1])|)
    ensures Faithful(probes, disks, records) && Exact(probes, disks, records, None, Ok(r), m)
    ensures !(r.NonEmpty? && j < m)
  {
    EverybodyHeard(disks, records);
    FirstRecordNonEmpty(records, j);
    hide Exact, Stream, Heard, Readable, CommittedSize, Faithful, Plausible, IsRecovered, EmptyExact;
    var x := |Stream(records[..j + 1])|;
    probes := AllAnswer(disks);
    if CommittedSize(probes) > 0 {
      CommittedSizeIsHeld(probes, disks, records, x);
      r, m := SomeFullRecovery(probes, disks, records);
      BeyondIsNotRecovered(probes, disks, records, m, j);
    } else if |disks| - |Holders(DiskSizes(disks), 1)| >= Majority(|disks|) {
      NobodyHolds(disks, records);
      EmptyIsExact(probes, disks, records);
      r, m := Empty(false), 0;
    } else {
      AllSizesHold(disks, records);
      probes, r, m := SilentRecovery(disks, records, j);
    }
  }

  lemma AllSizesHold(disks: seq<Bytes>, records: seq<Bytes>)
    requires disks != [] && AllFit(records) && (forall z :: 0 <= z < |disks| ==> disks[z] <= Stream(records))
    ensures CommittedSize(AllAnswer(disks)) == 0 ==> |Holders(DiskSizes(disks), 1)| < Majority(|disks|)
  {
    EverybodyHeard(disks, records);
    CommittedSizeMeans(AllAnswer(disks), 1);
    EmptyOrFull(disks);
  }

  /** Half of the copies are empty and some other one ends below the record: without an empty zone it is lost. */
  lemma SilentRecovery(disks: seq<Bytes>, records: seq<Bytes>, j: nat)
    returns (probes: seq<Probe>, r: RecoveryCandidate, m: nat)
    requires AllFit(records) && (forall z :: 0 <= z < |disks| ==> disks[z] <= Stream(records))
    requires j < |records| && !Tied(disks, |Stream(records[..j + 1])|)
    requires |disks| - Majority(|disks|) < |Holders(DiskSizes(disks), 1)| < Majority(|disks|)
    ensures Faithful(probes, disks, records) && Exact(probes, disks, records, None, Ok(r), m)
    ensures !(r.NonEmpty? && j < m)
  {
    FirstRecordNonEmpty(records, j);
    hide Exact, Stream, Heard, Readable, CommittedSize, IsRecovered;
    var x := |Stream(records[..j + 1])|;
    var quiet := ShortOfHalf(disks, x);
    probes := AllAnswerBut(disks, quiet);
    AllButOneHeard(disks, quiet, records);
    SilentEmptySize(disks, quiet, 1);
    SilentEmptySize(disks, quiet, x);
    FaithfulIsPlausible(probes, disks, records);
    r, m := SomeFullRecovery(probes, disks, records);
    BeyondIsNotRecovered(probes, disks, records, m, j);
  }

  lemma ShortOfHalf(disks: seq<Bytes>, x: nat) returns (quiet: nat)
    requires x > 0 && !Tied(disks, x)
    requires |disks| - Majority(|disks|) < |Holders(DiskSizes(disks), 1)| < Majority(|disks|)
    ensures quiet < |disks| && disks[quiet] == [] && |disks| >= 4
    ensures |Holders(DiskSizes(disks), 1)| + 1 >= Majority(|disks|)
    ensures |Holders(DiskSizes(disks), x)| + 1 < Majority(|disks|)
  {
    var some, full := Holders(DiskSizes(disks), 1), Holders(DiskSizes(disks), x);
    IndicesSize(|disks|);
    assert some != Indices(|disks|);
    quiet :| quiet in Indices(|disks|) && quiet !in some;
    var short :| 0 <= short < |disks| && disks[short] != [] && |disks[short]| < x;
    assert full <= some - {short};
    SubsetSize(full, some - {short});
  }

  /** In a tie, a recovery that succeeds returns the record. */
  lemma TiedIsRecovered(probes: seq<Probe>, disks: seq<Bytes>, records: seq<Bytes>, r: RecoveryCandidate, m: nat,
                        j: nat)
    requires AllFit(records) && j < |records| && Tied(disks, |Stream(records[..j + 1])|)
    requires Faithful(probes, disks, records) && Exact(probes, disks, records, None, Ok(r), m)
    ensures r.NonEmpty? && j < m
  {
    var x := |Stream(records[..j + 1])|;
    var holders := Holders(DiskSizes(disks), 1);
    FirstRecordNonEmpty(records, j);
    if r.Absent? {
      var k := SharedZone(Heard(probes), |probes|, holders);
      assert false;
    } else if CommittedSize(probes) == 0 {
      CommittedSizeMeans(probes, 0);
      TieHasNoEmptyMajority(probes, disks, records, x);
      assert false;
    } else {
      TiedSize(probes, disks, records, x);
      var k := SharedZone(Readable(probes), |probes|, holders);
      UsableCovers(probes, disks, records, Readable(probes)[k], j);
    }
  }

  lemma EmptiesAreEmpty(probes: seq<Probe>, disks: seq<Bytes>, records: seq<Bytes>)
    requires Faithful(probes, disks, records)
    ensures Empties(probes) <= Indices(|probes|) && forall z :: z in Empties(probes) ==> disks[z] == []
  {
    hide Stream;
    forall z | z in Empties(probes) ensures z < |probes| && disks[z] == [] {
      assert Truthful(probes[z], disks[z]);
    }
  }

  lemma TieHasNoEmptyMajority(probes: seq<Probe>, disks: seq<Bytes>, records: seq<Bytes>, x: nat)
    requires Faithful(probes, disks, records) && Tied(disks, x)
    ensures |Empties(probes)| < Majority(|probes|)
  {
    hide Stream;
    EmptiesAreEmpty(probes, disks, records);
    forall z | z in Empties(probes) ensures z !in Holders(DiskSizes(disks), 1) {}
    hide Empties, Faithful;
    if |Empties(probes)| >= Majority(|probes|) {
      var z := Overlap(|probes|, Empties(probes), Holders(DiskSizes(disks), 1));
      assert false;
    }
  }

  lemma TiedSize(probes: seq<Probe>, disks: seq<Bytes>, records: seq<Bytes>, x: nat)
    requires Faithful(probes, disks, records) && Tied(disks, x) && x > 0
    requires |Heard(probes)| >= Majority(|probes|) && CommittedSize(probes) > 0
    ensures |disks| != 2 && x <= CommittedSize(probes)
  {
    CommittedSizeMeans(probes, 1);
    CommittedSizeMeans(probes, x);
    hide CommittedSize, Heard, Stream;
    forall z | z in AnsweredWith(probes, 1)
      ensures z in Holders(DiskSizes(disks), 1) && (|disks| != 2 ==> z in AnsweredWith(probes, x))
    {
      assert Truthful(probes[z], disks[z]);
    }
    SubsetSize(AnsweredWith(probes, 1), Holders(DiskSizes(disks), 1));
    if |disks| != 2 { SubsetSize(AnsweredWith(probes, 1), AnsweredWith(probes, x)); }
  }

  /**
   Rotation leaves no gap: when every admitted record is held by a majority, any
   recovery that succeeds returns exactly the admitted records and reports no
   discarded suffix.
   */
  lemma FullyCommittedIsRecoveredExactly(probes: seq<Probe>, disks: seq<Bytes>, records: seq<Bytes>,
                                         r: Result<RecoveryCandidate, RecoveryError>, m: nat)
    requires Faithful(probes, disks, records) && Exact(probes, disks, records, None, r, m) && r.Ok?
    requires records != [] && QuorumHeld(disks, |Stream(records)|)
    ensures r.value.NonEmpty? && r.value.tail.canonical == Stream(records) && r.value.tail.recordEnds == Ends(records)
    ensures !r.value.tail.hadDiscardedSuffix
  {
    assert records[..|records|] == records;
    AcknowledgedIsRecovered(probes, disks, records, r, m, |records| - 1);
    assert records[..m] == records;
    SuffixOnDisk(probes, disks, records);
  }

  /**
   A recovery asked for exactly the decided record count of a fully committed
   segment returns those records' bytes, whatever uncommitted suffix it saw.
   */
  lemma DecidedPrefixIsRecovered(probes: seq<Probe>, disks: seq<Bytes>, records: seq<Bytes>, count: nat,
                                 r: Result<RecoveryCandidate, RecoveryError>, m: nat)
    requires Faithful(probes, disks, records) && Exact(probes, disks, records, Some(count), r, m)
    requires 1 <= count <= |records| && QuorumHeld(disks, |Stream(records[..count])|)
    ensures r.Ok? ==> r.value.NonEmpty? && r.value.tail.canonical == Stream(records[..count])
    ensures !(r.Err? && r.error.PrefixTooShort? && |Readable(probes)| >= Majority(|probes|) &&
              |Heard(probes)| >= Majority(|probes|))
  {
    hide QuorumHeld, Stream, UsableRecords, CommittedSize, WitnessesExact, SuffixSeen;
    if |Heard(probes)| >= Majority(|probes|) {
      DecidedIsUsable(probes, disks, records, count);
      DecidedIsKept(probes, disks, records, count, r, m);
    }
  }

  /** Some heard zone holds the decided records, and some readable one can supply them. */
  lemma DecidedIsUsable(probes: seq<Probe>, disks: seq<Bytes>, records: seq<Bytes>, count: nat)
    requires Faithful(probes, disks, records) && |Heard(probes)| >= Majority(|probes|)
    requires 1 <= count <= |records| && QuorumHeld(disks, |Stream(records[..count])|)
    ensures CommittedSize(probes) > 0
    ensures exists k :: 0 <= k < |Heard(probes)| && disks[Heard(probes)[k]] != []
    ensures |Readable(probes)| >= Majority(|probes|) ==>
              exists k :: 0 <= k < |Readable(probes)| &&
                UsableRecords(probes, disks, records, Readable(probes)[k]) >= count
  {
    var x := |Stream(records[..count])|;
    FirstRecordNonEmpty(records, count - 1);
    QuorumAnswers(probes, disks, records, x);
    var holders := Holders(DiskSizes(disks), x);
    HeldIsBelowCommittedSize(probes, disks, holders, x);
    var h := SharedZone(Heard(probes), |probes|, holders);
    assert disks[Heard(probes)[h]] != [];
    if |Readable(probes)| >= Majority(|probes|) {
      var k := SharedZone(Readable(probes), |probes|, holders);
      UsableCovers(probes, disks, records, Readable(probes)[k], count - 1);
    }
  }

  lemma DecidedIsKept(probes: seq<Probe>, disks: seq<Bytes>, records: seq<Bytes>, count: nat,
                      r: Result<RecoveryCandidate, RecoveryError>, m: nat)
    requires |probes| == |disks| && AllFit(records) && Exact(probes, disks, records, Some(count), r, m)
    requires 1 <= count <= |records|
    requires CommittedSize(probes) > 0 && |Heard(probes)| >= Majority(|probes|)
    requires exists k :: 0 <= k < |Heard(probes)| && disks[Heard(probes)[k]] != []
    requires |Readable(probes)| >= Majority(|probes|) ==>
               exists k :: 0 <= k < |Readable(probes)| &&
                 UsableRecords(probes, disks, records, Readable(probes)[k]) >= count
    ensures r.Ok? ==> r.value.NonEmpty? && r.value.tail.canonical == Stream(records[..count])
    ensures !(r.Err? && r.error.PrefixTooShort? && |Readable(probes)| >= Majority(|probes|))
  {
    hide Stream, UsableRecords, CommittedSize, WitnessesExact, SuffixSeen;
  }

  // ------------------------------------------------ one outcome, later disks

  lemma WholeRecordsOfLonger(records: seq<Bytes>, longer: seq<Bytes>, k: nat)
    requires AllFit(longer) && records <= longer && AllFit(records) && k <= |Stream(records)|
    ensures WholeRecords(longer, k) == WholeRecords(records, k)
  {
    hide Stream;
    var w, v := WholeRecords(records, k), WholeRecords(longer, k);
    assert longer[..|records|] == records;
    if w < |records| {
      WholeRecordsExact(records, k, w);
      WholeRecordsExact(longer, k, w);
      assert longer[..w + 1] == records[..w + 1];
    } else if w < |longer| {
      WholeRecordsExact(longer, k, w);
      StreamPrefixLength(longer, w, w + 1);
    }
    if w > 0 {
      WholeRecordsExact(records, k, w - 1);
      WholeRecordsExact(longer, k, w - 1);
      assert longer[..w] == records[..w];
    }
  }

  /** Two views of the disks that agree wherever recovery heard an answer, the later stream longer. */
  predicate SameAnswers(probes: seq<Probe>, disks: seq<Bytes>, records: seq<Bytes>, later: seq<Bytes>,
                        longer: seq<Bytes>) {
    && Faithful(probes, disks, records) && |later| == |disks| && AllFit(longer) && records <= longer
    && forall z :: 0 <= z < |probes| && Answered(probes[z]) ==> later[z] == disks[z]
  }

  lemma SameUsable(probes: seq<Probe>, disks: seq<Bytes>, records: seq<Bytes>, later: seq<Bytes>, longer: seq<Bytes>,
                   k: nat)
    requires SameAnswers(probes, disks, records, later, longer) && CommittedSize(probes) >= 0 && k < |Readable(probes)|
    ensures later[Readable(probes)[k]] == disks[Readable(probes)[k]]
    ensures UsableRecords(probes, later, longer, Readable(probes)[k])
                == UsableRecords(probes, disks, records, Readable(probes)[k])
  {
    hide Stream, CommittedSize;
    var z := Readable(probes)[k];
    assert Contributes(probes[z]) && Answered(probes[z]);
    WholeRecordsOfLonger(records, longer, Min(|disks[z]|, CommittedSize(probes)));
  }

  lemma SameRecovered(probes: seq<Probe>, disks: seq<Bytes>, records: seq<Bytes>, later: seq<Bytes>, longer: seq<Bytes>,
                      m: nat)
    requires SameAnswers(probes, disks, records, later, longer) && IsRecovered(probes, disks, records, m)
    ensures IsRecovered(probes, later, longer, m)
  {
    hide UsableRecords, CommittedSize;
    forall k: nat | k < |Readable(probes)|
      ensures UsableRecords(probes, later, longer, Readable(probes)[k])
                  == UsableRecords(probes, disks, records, Readable(probes)[k])
    {
      SameUsable(probes, disks, records, later, longer, k);
    }
    var w :| 0 <= w < |Readable(probes)| && UsableRecords(probes, disks, records, Readable(probes)[w]) == m;
    assert UsableRecords(probes, later, longer, Readable(probes)[w]) == m;
  }

  lemma SameTail(probes: seq<Probe>, disks: seq<Bytes>, records: seq<Bytes>, later: seq<Bytes>, longer: seq<Bytes>,
                 expected: Option<nat>, tail: RecoveredTail, m: nat)
    requires SameAnswers(probes, disks, records, later, longer) && TailExact(probes, disks, records, expected, tail, m)
    ensures TailExact(probes, later, longer, expected, tail, m)
  {
    hide UsableRecords, CommittedSize, Stream, IsRecovered, Ends;
    SameRecovered(probes, disks, records, later, longer, m);
    assert longer[..Kept(expected, m)] == records[..Kept(expected, m)] && longer[..m] == records[..m];
    forall k: nat | k < |Heard(probes)| ensures later[Heard(probes)[k]] == disks[Heard(probes)[k]] {
      assert Answered(probes[Heard(probes)[k]]);
    }
    forall k: nat | k < |Readable(probes)| ensures later[Readable(probes)[k]] == disks[Readable(probes)[k]] {
      assert Contributes(probes[Readable(probes)[k]]);
    }
  }

  /** An outcome depends only on what recovery heard, and stays exact as the stream goes on. */
  lemma ExactLater(probes: seq<Probe>, disks: seq<Bytes>, records: seq<Bytes>, later: seq<Bytes>, longer: seq<Bytes>,
                   r: Result<RecoveryCandidate, RecoveryError>, m: nat)
    requires SameAnswers(probes, disks, records, later, longer) && Exact(probes, disks, records, None, r, m) && r.Ok?
    ensures Exact(probes, later, longer, None, r, m)
  {
    hide TailExact, IsRecovered, CommittedSize;
    match r.value {
      case Absent =>
        forall k: nat | k < |Heard(probes)| ensures later[Heard(probes)[k]] == [] {
          assert Answered(probes[Heard(probes)[k]]);
        }
      case Empty(_) =>
        if IsRecovered(probes, disks, records, 0) { SameRecovered(probes, disks, records, later, longer, 0); }
      case NonEmpty(tail) => SameTail(probes, disks, records, later, longer, None, tail, m);
    }
  }
}
