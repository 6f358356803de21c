/**
 `enforce_seal` and `enforce_witness` against replicas that old lanes and enforcers of
 this and any other decision on the segment's stream keep changing, request by
 request, with lost and failed calls. The history of one enforcement records every
 state in between, so that what a call learned can be told apart from what still
 holds when it returns.
 */
module SealEnforcement {
  import opened Wrappers
  import opened Transport
  import opened Records
  import opened Quorum
  import opened Replica
  import opened Enforcement

  /** How a call ends; a broken one may still have been applied. */
  datatype Fate = Answered | Broke(applied: bool, code: TransportCode) | Rotten

  /** The requests of others that the replicas serve before a call, and the call's fate. */
  datatype Turn = Turn(others: seq<ClusterStep>, fate: Fate)

  /** The others are lanes and enforcers of any decisions on one stream; nobody deletes. */
  predicate HonestTurn(turn: Turn, stream: Bytes) {
    forall i :: 0 <= i < |turn.others| ==> HonestRequest(turn.others[i].request, stream)
  }

  predicate HonestTurns(turns: seq<Turn>, stream: Bytes) {
    forall i :: 0 <= i < |turns| ==> HonestTurn(turns[i], stream)
  }

  lemma HonestTail(turns: seq<Turn>, stream: Bytes)
    requires HonestTurns(turns, stream) && turns != []
    ensures HonestTurn(turns[0], stream) && HonestTurns(turns[1..], stream)
  {
  }

  predicate HonestWork(work: seq<seq<Turn>>, stream: Bytes) {
    forall z :: 0 <= z < |work| ==> HonestTurns(work[z], stream)
  }

  predicate Calm(turns: seq<Turn>) {
    forall i :: 0 <= i < |turns| ==> turns[i] == Turn([], Answered)
  }

  /** Every call fails transiently, applied or not, and nobody else is at work. */
  predicate Failing(turns: seq<Turn>) {
    turns != [] &&
    forall i :: 0 <= i < |turns| ==> turns[i].others == [] && turns[i].fate.Broke? && turns[i].fate.code.Transient()
  }

  /** Every call fails with the same lasting error, one that a fresh look at the copy cannot clear. */
  predicate Broken(turns: seq<Turn>, code: TransportCode) {
    && !code.Transient() && !code.FailedPrecondition?
    && forall i :: 0 <= i < |turns| ==> turns[i].others == [] && turns[i].fate.Broke? && turns[i].fate.code == code
  }

  /** The reading shows the finalized copy of exactly these bytes. */
  predicate SealedWith(o: Option<Object>, data: Bytes) {
    o.Some? && o.value.bytes == data && o.value.finalized
  }

  /** The copy holds the bytes and is still open. */
  predicate OpenWith(o: Option<Object>, data: Bytes) {
    o.Some? && o.value.bytes == data && !o.value.finalized
  }

  /** What a reading shows of the copy: itself, or its identity without content when the content cannot be read. */
  predicate Shows(observed: Option<Object>, slot: Option<Object>) {
    observed == slot || (slot.Some? && observed == Some(slot.value.(bytes := [])))
  }

  ghost predicate AllSound(disks: seq<Disk>) {
    forall z :: 0 <= z < |disks| ==> Sound(disks[z])
  }

  ghost predicate AllOnStream(disks: seq<Disk>, stream: Bytes) {
    forall z :: 0 <= z < |disks| ==> OnStream(disks[z], stream)
  }

  ghost predicate AllMove(a: seq<Disk>, b: seq<Disk>) {
    |a| == |b| && forall z :: 0 <= z < |a| ==> Moves(a[z], b[z])
  }

  /** No replica but `zone`'s changed. */
  ghost predicate OnlyAt(a: seq<Disk>, b: seq<Disk>, zone: nat) {
    |a| == |b| && forall z :: 0 <= z < |a| && z != zone ==> a[z] == b[z]
  }

  // ---------------------------------------------------------------- histories

  /** Every state of the replicas during one enforcement and the requests between them, whoever sent them. */
  datatype History = History(steps: seq<ClusterStep>, states: seq<seq<Disk>>)

  function Apply(disks: seq<Disk>, step: ClusterStep): seq<Disk>
    requires step.zone < |disks|
  {
    disks[step.zone := After(disks[step.zone], step.request)]
  }

  ghost predicate Happens(a: seq<Disk>, step: ClusterStep, b: seq<Disk>, stream: Bytes) {
    step.zone < |a| && HonestRequest(step.request, stream) && b == Apply(a, step)
  }

  ghost predicate HistoryOk(h: History, stream: Bytes) {
    && |h.states| == |h.steps| + 1 && AllSound(h.states[0]) && AllOnStream(h.states[0], stream)
    && forall i :: 0 <= i < |h.steps| ==> Happens(h.states[i], h.steps[i], h.states[i + 1], stream)
  }

  ghost predicate Reaches(h: History, disks: seq<Disk>) {
    h.states != [] && h.states[|h.states| - 1] == disks
  }

  ghost predicate Extends(h: History, g: History) {
    h.steps <= g.steps && h.states <= g.states
  }

  /** The history goes on and every replica moves on. */
  ghost predicate Goes(h: History, g: History, a: seq<Disk>, b: seq<Disk>) {
    Extends(h, g) && AllMove(a, b)
  }

  lemma GoesOn(h: History, g: History, k: History, a: seq<Disk>, b: seq<Disk>, c: seq<Disk>)
    requires Goes(h, g, a, b) && Goes(g, k, b, c)
    ensures Goes(h, k, a, c)
  {
    Chained(a, b, c);
  }

  /** At some moment of the history the zone held the finalized canonical bytes. */
  ghost predicate WasSealed(h: History, zone: nat, data: Bytes) {
    exists k :: 0 <= k < |h.states| && SealedAt(h, k, zone, data)
  }

  ghost predicate SealedAt(h: History, k: nat, zone: nat, data: Bytes)
    requires k < |h.states|
  {
    zone < |h.states[k]| && Sealed(h.states[k][zone], data)
  }

  lemma WasSealedStays(h: History, g: History, zone: nat, data: Bytes)
    requires WasSealed(h, zone, data) && Extends(h, g)
    ensures WasSealed(g, zone, data)
  {
    var k: nat :| k < |h.states| && SealedAt(h, k, zone, data);
    assert SealedAt(g, k, zone, data);
  }

  lemma SealedNow(h: History, disks: seq<Disk>, zone: nat, data: Bytes)
    requires Reaches(h, disks) && zone < |disks| && Sealed(disks[zone], data)
    ensures WasSealed(h, zone, data)
  {
    assert SealedAt(h, |h.states| - 1, zone, data);
  }

  lemma {:induction false} SameZones(h: History, stream: Bytes, i: nat)
    requires HistoryOk(h, stream) && i < |h.states|
    ensures |h.states[i]| == |h.states[0]|
  {
    if i > 0 {
      SameZones(h, stream, i - 1);
      assert Happens(h.states[i - 1], h.steps[i - 1], h.states[i], stream);
    }
  }

  lemma AllSameZones(h: History, stream: Bytes)
    requires HistoryOk(h, stream)
    ensures forall i :: 0 <= i < |h.states| ==> |h.states[i]| == |h.states[0]|
  {
    forall i | 0 <= i < |h.states| ensures |h.states[i]| == |h.states[0]| { SameZones(h, stream, i); }
  }

  /** What one replica lives through in a history is a run of honest requests. */
  lemma HistoryIsRun(h: History, stream: Bytes, zone: nat)
    requires HistoryOk(h, stream) && zone < |h.states[0]|
    requires forall i :: 0 <= i < |h.states| ==> |h.states[i]| == |h.states[0]|
    ensures HonestRun(Local(h.steps, zone), Column(h.states, zone), stream)
  {
    var requests, trace := Local(h.steps, zone), Column(h.states, zone);
    assert Sound(trace[0]) && OnStream(trace[0], stream);
    forall i | 0 <= i < |requests|
      ensures trace[i + 1] == After(trace[i], requests[i]) && HonestRequest(requests[i], stream)
    {
      assert Happens(h.states[i], h.steps[i], h.states[i + 1], stream);
    }
  }

  /** Every replace the zone served from moment `k` on was finalized again at the canonical length. */
  ghost predicate FinishedSince(h: History, stream: Bytes, data: Bytes, zone: nat, k: nat)
    requires HistoryOk(h, stream) && k < |h.states| && zone < |h.states[0]|
  {
    AllSameZones(h, stream);
    ReplacesFinished(Local(h.steps, zone), Column(h.states, zone), data, k, |h.steps|)
  }

  /** Exactly when a zone counted at moment `k` is still sealed at the end, whoever else was at work. */
  lemma CountedStillSealed(h: History, stream: Bytes, disks: seq<Disk>, data: Bytes, zone: nat, k: nat)
    requires HistoryOk(h, stream) && data <= stream && Reaches(h, disks) && k < |h.states| && SealedAt(h, k, zone, data)
    ensures zone < |disks| == |h.states[0]|
    ensures Sealed(disks[zone], data) <==> FinishedSince(h, stream, data, zone, k)
  {
    AllSameZones(h, stream);
    HistoryIsRun(h, stream, zone);
    SealedAgainExactly(Local(h.steps, zone), Column(h.states, zone), data, stream, k, |h.steps|);
  }

  /** Only lanes that were open when the history began append; enforcers do not. */
  ghost predicate OldLanesOnly(h: History)
    requires h.states != []
  {
    forall i :: 0 <= i < |h.steps| ==> OldLane(h.steps[i], h.states[0])
  }

  predicate OldLane(step: ClusterStep, first: seq<Disk>) {
    step.request.Append? && step.request.session.Some? && step.zone < |first| ==>
      step.request.session.value < first[step.zone].nextId
  }

  /** The last replace the zone served from moment `k` on, if any, carries `p`. */
  ghost predicate LastCarries(h: History, stream: Bytes, p: Bytes, zone: nat, k: nat)
    requires HistoryOk(h, stream) && k < |h.states| && zone < |h.states[0]|
  {
    AllSameZones(h, stream);
    LastReplaceCarries(Local(h.steps, zone), Column(h.states, zone), p, k, |h.steps|)
  }

  /**
   Exactly what a zone still holds at the end: the prefix `p` it held at moment `k`, if
   and only if the last replace it served since then carries it. For a counted zone and
   the canonical bytes this is when the count still means anything.
   */
  lemma StillHeldExactly(h: History, stream: Bytes, disks: seq<Disk>, p: Bytes, zone: nat, k: nat)
    requires HistoryOk(h, stream) && OldLanesOnly(h) && Reaches(h, disks)
    requires k < |h.states| && zone < |h.states[k]| && Holds(h.states[k][zone], p)
    ensures zone < |disks| == |h.states[0]|
    ensures Holds(disks[zone], p) <==> LastCarries(h, stream, p, zone, k)
  {
    AllSameZones(h, stream);
    HistoryIsRun(h, stream, zone);
    var requests, trace := Local(h.steps, zone), Column(h.states, zone);
    RunKeepsIds(requests, trace, 0, k);
    forall t | k <= t < |requests| && requests[t].Append? && requests[t].session.Some?
      ensures requests[t].session.value < trace[0].nextId
    {
      assert OldLane(h.steps[t], h.states[0]);
    }
    HeldExactly(requests, trace, p, trace[0].nextId, k, |requests|);
  }

  /** Every replace of the history, whoever sent it, carries `p`. */
  ghost predicate AllCarry(h: History, p: Bytes) {
    forall i :: 0 <= i < |h.steps| && h.steps[i].request.Replace? ==> p <= h.steps[i].request.data
  }

  lemma {:induction false} CarriedIsKept(h: History, stream: Bytes, p: Bytes, zone: nat, k: nat, j: nat)
    requires HistoryOk(h, stream) && AllCarry(h, p) && k <= j < |h.states|
    requires zone < |h.states[k]| && Holds(h.states[k][zone], p)
    ensures zone < |h.states[j]| && Holds(h.states[j][zone], p)
    decreases j
  {
    if k < j {
      CarriedIsKept(h, stream, p, zone, k, j - 1);
      assert Happens(h.states[j - 1], h.steps[j - 1], h.states[j], stream);
    }
  }

  /** Where every decision being enforced contains `p`, no replica ever stops holding it. */
  lemma CarriedHoldersKept(h: History, stream: Bytes, disks: seq<Disk>, p: Bytes)
    requires HistoryOk(h, stream) && Reaches(h, disks) && AllCarry(h, p)
    ensures HolderSet(h.states[0], p) <= HolderSet(disks, p)
  {
    forall z | z in HolderSet(h.states[0], p) ensures z in HolderSet(disks, p) {
      CarriedIsKept(h, stream, p, z, 0, |h.states| - 1);
    }
  }

  lemma CarriedKept(h: History, stream: Bytes, disks: seq<Disk>)
    requires HistoryOk(h, stream) && Reaches(h, disks)
    ensures |h.steps| < |h.states|
    ensures forall p :: AllCarry(h, p) ==> HolderSet(h.states[0], p) <= HolderSet(disks, p)
  {
    forall p | AllCarry(h, p) ensures HolderSet(h.states[0], p) <= HolderSet(disks, p) {
      CarriedHoldersKept(h, stream, disks, p);
    }
  }

  lemma CountedHold(h: History, stream: Bytes, disks: seq<Disk>, data: Bytes, counted: set<nat>)
    requires HistoryOk(h, stream) && Reaches(h, disks) && AllWereSealed(counted, h, data) && AllCarry(h, data)
    ensures counted <= HolderSet(disks, data)
  {
    forall z | z in counted ensures z in HolderSet(disks, data) {
      assert WasSealed(h, z, data);
      var k: nat :| k < |h.states| && SealedAt(h, k, z, data);
      CarriedIsKept(h, stream, data, z, k, |h.states| - 1);
    }
  }

  /** During the history no replace was served on a copy that was sealed. */
  ghost predicate NoneReopened(h: History, data: Bytes)
    requires |h.steps| < |h.states|
  {
    forall i :: 0 <= i < |h.steps| ==> !Reopens(h.states[i], h.steps[i], data)
  }

  ghost predicate Reopens(disks: seq<Disk>, step: ClusterStep, data: Bytes) {
    step.zone < |disks| && Sealed(disks[step.zone], data) && ServedReplace(disks[step.zone], step.request)
  }

  lemma {:induction false} UnreopenedStaysSealed(h: History, stream: Bytes, data: Bytes, zone: nat, k: nat, j: nat)
    requires HistoryOk(h, stream) && NoneReopened(h, data) && k <= j < |h.states| && SealedAt(h, k, zone, data)
    ensures SealedAt(h, j, zone, data)
    decreases j
  {
    if k < j {
      UnreopenedStaysSealed(h, stream, data, zone, k, j - 1);
      assert Happens(h.states[j - 1], h.steps[j - 1], h.states[j], stream);
      assert !Reopens(h.states[j - 1], h.steps[j - 1], data);
      if h.steps[j - 1].zone == zone {
        ReopensExactlyWhenGuardSawSeal(h.states[j - 1][zone], h.steps[j - 1].request, data);
      }
    }
  }

  /** If nothing was reopened, every zone counted is sealed at the end. */
  lemma UnreopenedMajority(h: History, stream: Bytes, disks: seq<Disk>, data: Bytes, counted: set<nat>)
    requires HistoryOk(h, stream) && Reaches(h, disks) && AllWereSealed(counted, h, data) && NoneReopened(h, data)
    ensures counted <= SealedSet(disks, data) && |counted| <= |SealedSet(disks, data)|
  {
    forall z | z in counted ensures z in SealedSet(disks, data) {
      assert WasSealed(h, z, data);
      var k: nat :| k < |h.states| && SealedAt(h, k, z, data);
      UnreopenedStaysSealed(h, stream, data, z, k, |h.states| - 1);
    }
    SubsetSize(counted, SealedSet(disks, data));
  }

  // ------------------------------------------------------ two enforcers at once

  function OpenCopy(): Disk { Disk(Some(Object(0, 1, false, 0, [])), 1) }

  /**
   Counting is not holding to the end. Zone 2 is down. The first enforcer's replace
   on zone 0 fails transiently; the second one seals zone 0 and counts it; the first
   re-reads the now finalized copy, which its retry does not accept, and replaces it;
   the second seals zone 1 and returns success with one sealed copy.
   */
  function TwoEnforcers(data: Bytes): seq<ClusterStep> {
    var install, finish := Replace(Some((0, 1)), data), Finalize(|data|);
    [ClusterStep(0, install), ClusterStep(0, finish), ClusterStep(0, Replace(Some((1, 2)), data)),
     ClusterStep(1, install), ClusterStep(1, finish)]
  }

  lemma CountedCanBeReopened(data: Bytes) returns (h: History)
    requires data != []
    ensures HistoryOk(h, data) && h.steps == TwoEnforcers(data) && h.states[0] == [OpenCopy(), OpenCopy(), OpenCopy()]
    ensures WasSealed(h, 0, data) && WasSealed(h, 1, data)
    ensures !NoneReopened(h, data) && SealedSet(h.states[5], data) == {1}
    ensures |SealedSet(h.states[5], data)| < Majority(3)
  {
    var steps := TwoEnforcers(data);
    var replaced := Disk(Some(Object(1, 1, false, 1, data)), 2);
    var closed := Disk(Some(Object(1, 2, true, 1, data)), 2);
    var reopened := Disk(Some(Object(2, 1, false, 2, data)), 3);
    h := History(steps, [[OpenCopy(), OpenCopy(), OpenCopy()], [replaced, OpenCopy(), OpenCopy()],
                         [closed, OpenCopy(), OpenCopy()], [reopened, OpenCopy(), OpenCopy()],
                         [reopened, replaced, OpenCopy()], [reopened, closed, OpenCopy()]]);
    assert SealedAt(h, 2, 0, data) && SealedAt(h, 5, 1, data);
    assert Reopens(h.states[2], h.steps[2], data);
    assert SealedSet(h.states[5], data) == {1};
  }

  /**
   With an enforcer of another decision even the bytes can go. It decided the shorter
   `one`; zone 0 is sealed with `two` and counted; the late enforcer finds it finalized
   with other bytes and replaces it; zone 1 is sealed and the call succeeds.
   */
  function TwoDecisions(one: Bytes, two: Bytes): seq<ClusterStep> {
    TwoEnforcers(two)[2 := ClusterStep(0, Replace(Some((1, 2)), one))]
  }

  lemma CountedCanLoseBytes(one: Bytes, two: Bytes) returns (h: History)
    requires one < two
    ensures HistoryOk(h, two) && h.steps == TwoDecisions(one, two)
    ensures h.states[0] == [OpenCopy(), OpenCopy(), OpenCopy()]
    ensures WasSealed(h, 0, two) && WasSealed(h, 1, two)
    ensures !AllCarry(h, two) && HolderSet(h.states[5], two) == {1} && |HolderSet(h.states[5], two)| < Majority(3)
  {
    var replaced := Disk(Some(Object(1, 1, false, 1, two)), 2);
    var closed := Disk(Some(Object(1, 2, true, 1, two)), 2);
    var lost := Disk(Some(Object(2, 1, false, 2, one)), 3);
    h := History(TwoDecisions(one, two),
                 [[OpenCopy(), OpenCopy(), OpenCopy()], [replaced, OpenCopy(), OpenCopy()],
                  [closed, OpenCopy(), OpenCopy()], [lost, OpenCopy(), OpenCopy()],
                  [lost, replaced, OpenCopy()], [lost, closed, OpenCopy()]]);
    assert SealedAt(h, 2, 0, two) && SealedAt(h, 5, 1, two);
    assert h.steps[2].request.data == one;
    assert HolderSet(h.states[5], two) == {1};
  }

  // ---------------------------------------------------------- what is learned

  /** An earlier snapshot of the open canonical bytes names a generation that still starts with them. */
  predicate Usable(o: Object, d: Disk, data: Bytes) {
    && o.generation < d.nextId
    && (o.bytes == data && HasGeneration(d, o.generation) ==> data <= d.slot.value.bytes)
  }

  /** What an earlier snapshot of a zone still tells: one that showed the sealed copy means it was sealed. */
  ghost predicate Learned(o: Option<Object>, h: History, d: Disk, zone: nat, data: Bytes) {
    o.Some? ==> Usable(o.value, d, data) && (o.value.bytes == data && o.value.finalized ==> WasSealed(h, zone, data))
  }

  lemma LearnedStays(o: Option<Object>, h: History, g: History, d: Disk, e: Disk, zone: nat, data: Bytes)
    requires Learned(o, h, d, zone, data) && Extends(h, g) && Moves(d, e)
    ensures Learned(o, g, e, zone, data)
  {
    if o.Some? && o.value.bytes == data && o.value.finalized { WasSealedStays(h, g, zone, data); }
  }

  lemma CurrentIsLearned(h: History, disks: seq<Disk>, zone: nat, data: Bytes)
    requires Reaches(h, disks) && zone < |disks| && Sound(disks[zone])
    ensures Learned(disks[zone].slot, h, disks[zone], zone, data)
  {
    if Sealed(disks[zone], data) { SealedNow(h, disks, zone, data); }
  }

  datatype SealError = NoQuorum | Lost(code: TransportCode)

  /** What the first pass learned of a zone; `witness` copies recovery read as sealed are confirmed by stat alone. */
  datatype Reading = Confirmed | Copy(observed: Option<Object>) | Skipped

  /** A sealed witness generation, wherever it still exists, is the sealed copy. */
  predicate WitnessOk(w: Option<nat>, d: Disk, data: Bytes) {
    w.Some? ==> w.value < d.nextId && (HasGeneration(d, w.value) ==> Sealed(d, data))
  }

  ghost predicate ReadingOk(reading: Reading, h: History, d: Disk, zone: nat, data: Bytes) {
    match reading
    case Confirmed => WasSealed(h, zone, data)
    case Copy(observed) => Learned(observed, h, d, zone, data)
    case Skipped => true
  }

  lemma ReadingStays(reading: Reading, h: History, g: History, d: Disk, e: Disk, zone: nat, data: Bytes)
    requires ReadingOk(reading, h, d, zone, data) && Extends(h, g) && Moves(d, e)
    ensures ReadingOk(reading, g, e, zone, data)
  {
    if reading.Copy? { LearnedStays(reading.observed, h, g, d, e, zone, data); }
    if reading.Confirmed? { WasSealedStays(h, g, zone, data); }
  }

  lemma WitnessStays(w: Option<nat>, d: Disk, e: Disk, data: Bytes)
    requires WitnessOk(w, d, data) && Moves(d, e)
    ensures WitnessOk(w, e, data)
  {
  }

  function SealedSet(disks: seq<Disk>, data: Bytes): set<nat> {
    set z: nat | z < |disks| && Sealed(disks[z], data)
  }

  /** A zone is calm when nothing disturbs its calls, down when its reads fail transiently and nothing else happens. */
  predicate ZoneCalm(stats: seq<Turn>, scans: seq<Turn>, work: seq<seq<Turn>>, z: nat)
    requires z < |stats| == |scans| == |work|
  {
    ZoneReads(stats, scans, z) && Calm(work[z]) && |work[z]| >= 2
  }

  /** The zone answers, with its copy's content or, when that is rotten, its identity. */
  predicate ZoneReads(stats: seq<Turn>, scans: seq<Turn>, z: nat)
    requires z < |stats| == |scans|
  {
    stats[z] == Turn([], Answered) && (scans[z] == Turn([], Answered) || scans[z] == Turn([], Rotten))
  }

  predicate ZoneDown(stats: seq<Turn>, scans: seq<Turn>, work: seq<seq<Turn>>, z: nat)
    requires z < |stats| == |scans| == |work|
  {
    && stats[z].others == [] && stats[z].fate.Broke? && scans[z].others == [] && scans[z].fate.Broke?
    && scans[z].fate.code.Transient()
  }

  /** A zone whose copy can be read but not written, unless it already holds the bytes and only lacks the finish. */
  predicate ZoneReadOnly(stats: seq<Turn>, scans: seq<Turn>, work: seq<seq<Turn>>, z: nat, d: Disk, data: Bytes)
    requires z < |stats| == |scans| == |work|
  {
    ZoneReads(stats, scans, z) && Failing(work[z]) && !(scans[z].fate.Answered? && OpenWith(d.slot, data))
  }

  /** What the first pass learns of a zone that answers: its copy as shown, or that it is sealed already. */
  predicate ReadAs(reading: Reading, fate: Fate, d: Disk, data: Bytes) {
    || (reading.Copy? && Shows(reading.observed, d.slot) &&
        (OpenWith(reading.observed, data) ==> fate.Answered? && OpenWith(d.slot, data)) &&
        (SealedWith(reading.observed, data) ==> Sealed(d, data)))
    || (reading == Confirmed && Sealed(d, data))
  }

  predicate CalmOrDown(stats: seq<Turn>, scans: seq<Turn>, work: seq<seq<Turn>>, disks: seq<Disk>, data: Bytes)
    requires |stats| == |scans| == |work| == |disks|
  {
    forall z :: 0 <= z < |stats| ==>
      || ZoneCalm(stats, scans, work, z) || ZoneDown(stats, scans, work, z)
      || ZoneReadOnly(stats, scans, work, z, disks[z], data)
  }

  function CalmZones(stats: seq<Turn>, scans: seq<Turn>, work: seq<seq<Turn>>): set<nat>
    requires |stats| == |scans| == |work|
  {
    set z: nat | z < |stats| && ZoneCalm(stats, scans, work, z)
  }

  class Enforcer {
    const data: Bytes
    const maxRetries: nat
    ghost const stream: Bytes
    var disks: seq<Disk>
    ghost var history: History

    ghost predicate Valid()
      reads this
    {
      && HistoryOk(history, stream) && Reaches(history, disks) && AllSound(disks) && AllOnStream(disks, stream)
      && data != [] && data <= stream
    }

    constructor (disks: seq<Disk>, data: Bytes, maxRetries: nat, ghost stream: Bytes)
      requires AllSound(disks) && AllOnStream(disks, stream) && data != [] && data <= stream
      ensures this.disks == disks && this.data == data && this.maxRetries == maxRetries && this.stream == stream
      ensures Valid() && history == History([], [disks])
    {
      this.disks := disks;
      this.data := data;
      this.maxRetries := maxRetries;
      this.stream := stream;
      history := History([], [disks]);
    }

    /** One replica serves one request. */
    method Serves(step: ClusterStep)
      requires Valid() && step.zone < |disks| && HonestRequest(step.request, stream)
      modifies this
      ensures Valid() && Goes(old(history), history, old(disks), disks)
      ensures disks == Apply(old(disks), step)
    {
      hide Serve, Moves, OnStream;
      SelfMoves(disks);
      RequestMoves(disks[step.zone], step.request);
      HonestKeepsStream(disks[step.zone], step.request, stream);
      ghost var h := history;
      disks := disks[step.zone := After(disks[step.zone], step.request)];
      history := History(h.steps + [step], h.states + [disks]);
      MovedIsSound(old(disks), disks);
      HistoryGrows(h, step, disks, stream);
    }

    /** The replicas serve whatever others ask. */
    method Others(others: seq<ClusterStep>)
      requires Valid() && forall i :: 0 <= i < |others| ==> HonestRequest(others[i].request, stream)
      modifies this
      ensures Valid() && Goes(old(history), history, old(disks), disks)
      ensures others == [] ==> disks == old(disks)
    {
      hide HistoryOk, Reaches, Goes, HonestRequest, Apply;
      SelfGoes(history, disks);
      for i := 0 to |others|
        invariant Valid() && Goes(old(history), history, old(disks), disks)
        invariant others == [] ==> disks == old(disks)
      {
        if others[i].zone < |disks| {
          ghost var mid, before := history, disks;
          Serves(others[i]);
          GoesOn(old(history), mid, history, old(disks), before, disks);
        }
      }
    }

    /** One request to one replica. */
    method Ask(zone: nat, request: Request, turn: Turn) returns (r: Result<(), TransportCode>)
      requires Valid() && zone < |disks| && HonestRequest(request, stream) && HonestTurn(turn, stream)
      modifies this
      ensures Valid() && Goes(old(history), history, old(disks), disks)
      ensures r.Ok? ==> exists d :: Moves(old(disks)[zone], d) && Serve(d, request) == Ok(disks[zone])
      ensures turn == Turn([], Answered) ==> disks == old(disks)[zone := After(old(disks)[zone], request)]
      ensures turn == Turn([], Answered) ==> (r.Ok? <==> Serve(old(disks)[zone], request).Ok?)
      ensures turn.fate.Broke? ==> r == Err(turn.fate.code)
      ensures turn.others == [] ==> OnlyAt(old(disks), disks, zone)
    {
      hide Moves, Sound, OnStream, HistoryOk, Reaches, Extends;
      Others(turn.others);
      ghost var h, mid := history, disks;
      assert Moves(old(disks)[zone], mid[zone]);
      var served := Serve(disks[zone], request);
      if turn.fate.Answered? || (turn.fate.Broke? && turn.fate.applied) {
        Serves(ClusterStep(zone, request));
        GoesOn(old(history), h, history, old(disks), mid, disks);
      }
      match turn.fate {
        case Answered => r := if served.Ok? then Ok(()) else Err(served.error);
        case Broke(_, code) => r := Err(code);
        case Rotten => r := Err(DataLoss);
      }
    }

    /** Reads one replica; a copy whose content cannot be read shows no bytes. */
    method Observe(zone: nat, turn: Turn) returns (r: Result<Option<Object>, TransportCode>)
      requires Valid() && zone < |disks| && HonestTurn(turn, stream)
      modifies this
      ensures Valid() && Goes(old(history), history, old(disks), disks)
      ensures r.Ok? ==> Learned(r.value, history, disks[zone], zone, data)
      ensures r.Ok? && r.value.Some? && r.value.value.bytes == data ==> Holds(disks[zone], data)
      ensures turn.others == [] ==> disks == old(disks)
      ensures turn.fate.Answered? ==> r == Ok(disks[zone].slot)
      ensures turn.fate.Rotten? ==> r.Ok? && Shows(r.value, disks[zone].slot) && !OpenWith(r.value, data)
      ensures turn.fate.Rotten? && r.value.Some? ==> r.value.value.bytes == []
      ensures turn.fate.Broke? ==> r == Err(turn.fate.code)
      ensures r.Err? ==> turn.fate.Broke?
    {
      hide HistoryOk, Reaches, Extends, WasSealed;
      Others(turn.others);
      CurrentIsLearned(history, disks, zone, data);
      match turn.fate {
        case Answered => r := Ok(disks[zone].slot);
        case Broke(_, code) => r := Err(code);
        case Rotten =>
          if disks[zone].slot.None? { return Ok(None); }
          r := Ok(Some(disks[zone].slot.value.(bytes := [])));
      }
    }

    /** `finalize_with_retry`: an ambiguous finish is settled by a stat of the same generation. */
    method FinalizeWithRetry(zone: nat, generation: nat, turns: seq<Turn>)
      returns (r: Result<(), TransportCode>, rest: seq<Turn>)
      requires Valid() && zone < |disks| && HonestTurns(turns, stream)
      modifies this
      ensures Valid() && Goes(old(history), history, old(disks), disks)
      ensures zone < |disks| && (r.Ok? ==> Sealed(disks[zone], data))
      ensures turns != [] && Calm(turns) && HasLength(old(disks)[zone], |data|) ==>
                r.Ok? && OnlyAt(old(disks), disks, zone)
      ensures |rest| <= |turns| && (Calm(turns) ==> Calm(rest)) && HonestTurns(rest, stream)
    {
      hide Moves, Sound, OnStream, Serve, Goes, HistoryOk, Reaches;
      rest := turns;
      var attempt := 0;
      FinalizeServes(disks[zone], data);
      SelfGoes(history, disks);
      while rest != []
        invariant Valid() && Goes(old(history), history, old(disks), disks)
        invariant zone < |disks| && HonestTurns(rest, stream)
        invariant |rest| <= |turns| && (Calm(turns) ==> Calm(rest))
        invariant Calm(turns) && HasLength(old(disks)[zone], |data|) ==> rest == turns && disks == old(disks)
        decreases |rest|
      {
        ghost var h, before := history, disks;
        var finished := Ask(zone, Finalize(|data|), rest[0]);
        GoesSame(h, history, before, disks);
        GoesOn(old(history), h, history, old(disks), before, disks);
        rest := rest[1..];
        if finished.Ok? {
          FinalizedIsSealed(disks[zone], data, stream);
          return Ok(()), rest;
        }
        var code := finished.error;
        if !code.FailedPrecondition? && !code.Transient() { return Err(code), rest; }
        if code.Transient() {
          if attempt >= maxRetries || rest == [] { return Err(code), rest; }
          attempt := attempt + 1;
        } else if rest == [] {
          return Err(code), rest;
        }
        ghost var g, settled := history, disks;
        Others(rest[0].others);
        GoesSame(g, history, settled, disks);
        GoesOn(old(history), g, history, old(disks), settled, disks);
        var stat := rest[0].fate;
        rest := rest[1..];
        if stat.Broke? { return Err(stat.code), rest; }
        if disks[zone].slot.None? { return Err(NotFound), rest; }
        var o := disks[zone].slot.value;
        if o.finalized && o.generation == generation && |o.bytes| == |data| {
          SameLengthIsSealed(disks[zone], data, stream);
          return Ok(()), rest;
        }
        if code.FailedPrecondition? { return Err(code), rest; }
      }
      r := Err(Unavailable);
    }

    /** `replace_with_retry`: a lost response is recognised by reading the open canonical bytes back. */
    method ReplaceWithRetry(zone: nat, observed0: Option<Object>, turns: seq<Turn>)
      returns (r: Result<nat, TransportCode>, rest: seq<Turn>)
      requires Valid() && zone < |disks| && HonestTurns(turns, stream)
      modifies this
      ensures Valid() && Goes(old(history), history, old(disks), disks)
      ensures zone < |disks| && (r.Ok? ==> Holds(disks[zone], data))
      ensures turns != [] && Calm(turns) && Shows(observed0, old(disks)[zone].slot) ==>
                r.Ok? && |disks[zone].slot.value.bytes| == |data| && |rest| + 1 == |turns| &&
                OnlyAt(old(disks), disks, zone)
      ensures Failing(turns) ==> r.Err? && r.error.Transient() && OnlyAt(old(disks), disks, zone)
      ensures forall code :: turns != [] && Broken(turns, code) ==> r == Err(code)
      ensures |rest| <= |turns| && (Calm(turns) ==> Calm(rest)) && HonestTurns(rest, stream)
    {
      hide Moves, Sound, OnStream, Serve, Goes, HistoryOk, Reaches;
      rest := turns;
      var observed, attempt := observed0, 0;
      SelfGoes(history, disks);
      ReplaceServes(disks[zone], observed, data);
      while rest != []
        invariant Valid() && Goes(old(history), history, old(disks), disks) && zone < |disks|
        invariant |rest| <= |turns| && (Calm(turns) ==> Calm(rest)) && HonestTurns(rest, stream)
        invariant Calm(turns) && Shows(observed0, old(disks)[zone].slot) ==>
                    rest == turns && disks == old(disks) && observed == observed0
        invariant Failing(turns) ==> rest == turns && disks == old(disks)
        invariant forall code :: Broken(turns, code) ==> rest == turns
        decreases |rest|
      {
        ghost var h, before := history, disks;
        var replaced := Ask(zone, Replace(Guard(observed), data), rest[0]);
        GoesOn(old(history), h, history, old(disks), before, disks);
        GoesSame(h, history, before, disks);
        rest := rest[1..];
        if replaced.Ok? {
          ReplacedHolds(disks[zone], observed, data);
          return Ok(disks[zone].slot.value.generation), rest;
        }
        var code := replaced.error;
        if !code.Transient() || attempt >= maxRetries || rest == [] { return Err(code), rest; }
        attempt := attempt + 1;
        ghost var g, settled := history, disks;
        var seen := Observe(zone, rest[0]);
        GoesOn(old(history), g, history, old(disks), settled, disks);
        GoesSame(g, history, settled, disks);
        rest := rest[1..];
        if seen.Err? { return Err(seen.error), rest; }
        observed := seen.value;
        if observed.Some? && observed.value.bytes == data && !observed.value.finalized {
          return Ok(observed.value.generation), rest;
        }
      }
      r := Err(Unavailable);
    }

    /** Takes over an open copy that already holds the canonical bytes. */
    method TakeOver(zone: nat, o: Object, turn: Turn) returns (ok: bool)
      requires Valid() && zone < |disks| && Usable(o, disks[zone], data) && o.bytes == data && HonestTurn(turn, stream)
      modifies this
      ensures Valid() && Goes(old(history), history, old(disks), disks)
      ensures zone < |disks| && (ok ==> Holds(disks[zone], data))
      ensures turn == Turn([], Answered) && old(disks)[zone].slot == Some(o) && !o.finalized ==>
                ok && |disks[zone].slot.value.bytes| == |data| && OnlyAt(old(disks), disks, zone)
      ensures turn.fate.Broke? ==> !ok
    {
      hide Moves, Sound, OnStream, HistoryOk, Reaches, Extends;
      ghost var before := disks;
      var taken := Ask(zone, Takeover(o.generation), turn);
      ok := taken.Ok?;
      if ok { TakenHolds(before[zone], disks[zone], o, data); }
    }

    /** Puts the bytes in place: taken over if they are already there and open, else written as a fresh generation. */
    method Install(zone: nat, observed: Option<Object>, turns: seq<Turn>)
      returns (r: Result<nat, TransportCode>, rest: seq<Turn>)
      requires Valid() && zone < |disks| && Learned(observed, history, disks[zone], zone, data)
      requires HonestTurns(turns, stream) && turns != []
      modifies this
      ensures Valid() && Goes(old(history), history, old(disks), disks) && zone < |disks|
      ensures Calm(turns) && Shows(observed, old(disks)[zone].slot) && !SealedWith(observed, data) ==>
                r.Ok? && HasLength(disks[zone], |data|) && |rest| + 1 == |turns| && OnlyAt(old(disks), disks, zone)
      ensures Failing(turns) ==> r.Err?
      ensures Failing(turns) && !(observed.Some? && observed.value.bytes == data) ==>
                r.error.Transient() && OnlyAt(old(disks), disks, zone)
      ensures Failing(turns) && observed.Some? && observed.value.bytes == data ==>
                r == Err(FailedPrecondition) && rest == turns[1..]
      ensures forall code :: Broken(turns, code) ==>
                r == Err(code) || (r == Err(FailedPrecondition) && rest == turns[1..])
      ensures |rest| <= |turns| && (Calm(turns) ==> Calm(rest)) && HonestTurns(rest, stream)
    {
      hide Moves, Sound, OnStream, Serve, Goes, HistoryOk, Reaches, WasSealed;
      if observed.Some? && observed.value.bytes == data {
        var taken := TakeOver(zone, observed.value, turns[0]);
        r := if taken then Ok(observed.value.generation) else Err(FailedPrecondition);
        rest := turns[1..];
      } else {
        r, rest := ReplaceWithRetry(zone, observed, turns);
      }
    }

    /**
     `enforce_witness`: `Ok(true)` means this replica held the sealed canonical copy at
     a moment of the call, whoever else was at work, and an undisturbed call from a
     current snapshot succeeds whatever state the copy was in. A zone whose calls all
     fail transiently is passed over; it ends the enforcement exactly when its copy is
     still open and already holds the bytes, because then the read that follows the
     failed takeover is not passed over.
     */
    method EnforceWitness(zone: nat, observed0: Option<Object>, turns: seq<Turn>)
      returns (r: Result<bool, TransportCode>, rest: seq<Turn>)
      requires Valid() && zone < |disks| && Learned(observed0, history, disks[zone], zone, data)
      requires HonestTurns(turns, stream)
      modifies this
      ensures Valid() && Goes(old(history), history, old(disks), disks)
      ensures r == Ok(true) ==> WasSealed(history, zone, data)
      ensures Calm(turns) && |turns| >= 2 && Shows(observed0, old(disks)[zone].slot) ==>
                r == Ok(true) && OnlyAt(old(disks), disks, zone) && Sealed(disks[zone], data)
      ensures Failing(turns) && Shows(observed0, old(disks)[zone].slot) ==> (r.Err? <==> OpenWith(observed0, data))
      ensures Failing(turns) && Shows(observed0, old(disks)[zone].slot) && r.Ok? ==>
                OnlyAt(old(disks), disks, zone) && (r.value <==> SealedWith(observed0, data)) &&
                (r.value ==> disks == old(disks))
      ensures forall code :: |turns| >= 2 && Broken(turns, code) && !SealedWith(observed0, data) ==> r == Err(code)
      ensures |rest| <= |turns|
    {
      hide Moves, Sound, OnStream, Serve, Goes, HistoryOk, Reaches, WasSealed, AllSound, AllOnStream;
      hide HonestTurns, HonestTurn, Calm, Learned, Shows;
      rest := turns;
      var observed := observed0;
      SelfGoes(history, disks);
      ShownSealed(observed0, disks[zone], data);
      for attempt := 0 to maxRetries + 1
        invariant Valid() && Goes(old(history), history, old(disks), disks) && zone < |disks|
        invariant Learned(observed, history, disks[zone], zone, data) && |rest| <= |turns| && HonestTurns(rest, stream)
        invariant Calm(turns) && |turns| >= 2 && Shows(observed0, old(disks)[zone].slot) ==>
                    attempt == 0 && rest == turns && disks == old(disks) && observed == observed0
        invariant forall code :: |turns| >= 2 && Broken(turns, code) && !SealedWith(observed0, data) ==>
                    attempt == 0 && rest == turns && observed == observed0
        invariant Failing(turns) && Shows(observed0, old(disks)[zone].slot) ==>
                    attempt == 0 && rest == turns && disks == old(disks) && observed == observed0
      {
        if rest == [] { return Err(Unavailable), rest; }
        if observed.Some? && observed.value.bytes == data && observed.value.finalized {
          LearnedSealed(observed, history, disks[zone], zone, data);
          return Ok(true), rest;
        }
        ghost var h, before := history, disks;
        var installed;
        installed, rest := Install(zone, observed, rest);
        GoesOn(old(history), h, history, old(disks), before, disks);
        var code: TransportCode := FailedPrecondition;
        if installed.Ok? {
          ghost var g, mid := history, disks;
          var finished;
          finished, rest := FinalizeWithRetry(zone, installed.value, rest);
          GoesOn(old(history), g, history, old(disks), mid, disks);
          GoesSame(g, history, mid, disks);
          if finished.Ok? {
            SealedNow(history, disks, zone, data);
            return Ok(true), rest;
          }
          code := finished.error;
        } else {
          code := installed.error;
        }
        if code.Transient() { return Ok(false), rest; }
        if !code.FailedPrecondition? { return Err(code), rest; }
        if rest == [] { return Err(Unavailable), rest; }
        HonestTail(rest, stream);
        ghost var g, mid := history, disks;
        var seen := Observe(zone, rest[0]);
        GoesOn(old(history), g, history, old(disks), mid, disks);
        GoesSame(g, history, mid, disks);
        rest := rest[1..];
        if seen.Err? { return Err(seen.error), rest; }
        observed := seen.value;
      }
      r := Ok(false);
    }

    /** Stat for a sealed witness, full read otherwise. */
    method ReadZone(zone: nat, w: Option<nat>, stat: Turn, read: Turn) returns (r: Result<Reading, TransportCode>)
      requires Valid() && zone < |disks| && WitnessOk(w, disks[zone], data)
      requires HonestTurn(stat, stream) && HonestTurn(read, stream)
      modifies this
      ensures Valid() && Goes(old(history), history, old(disks), disks)
      ensures r.Ok? ==> ReadingOk(r.value, history, disks[zone], zone, data)
      ensures stat.others == [] && read.others == [] ==> disks == old(disks)
      ensures stat == Turn([], Answered) && (read == Turn([], Answered) || read == Turn([], Rotten)) ==>
                r.Ok? && ReadAs(r.value, read.fate, disks[zone], data)
      ensures stat.fate.Broke? && read.fate.Broke? && read.fate.code.Transient() ==> r == Ok(Skipped)
      ensures r == Ok(Skipped) ==> read.fate.Broke? && read.fate.code.Transient()
      ensures r.Err? ==> read.fate.Broke? && read.fate.code == r.error && !r.error.Transient()
    {
      hide HistoryOk, Reaches, Extends, WasSealed, Learned, Moves;
      SelfGoes(history, disks);
      if w.Some? {
        Others(stat.others);
        WitnessStays(w, old(disks)[zone], disks[zone], data);
        if stat.fate.Answered? && disks[zone].slot.Some? {
          var o := disks[zone].slot.value;
          if o.generation == w.value && o.finalized && |o.bytes| == |data| {
            SealedNow(history, disks, zone, data);
            return Ok(Confirmed);
          }
        }
      }
      ghost var h, mid := history, disks;
      var seen := Observe(zone, read);
      GoesOn(old(history), h, history, old(disks), mid, disks);
      if seen.Ok? { return Ok(Copy(seen.value)); }
      r := if seen.error.Transient() then Ok(Skipped) else Err(seen.error);
    }

    /** The first pass over all zones. */
    method ReadAll(ws: seq<Option<nat>>, stats: seq<Turn>, scans: seq<Turn>, ghost work: seq<seq<Turn>>)
      returns (r: Result<seq<Reading>, TransportCode>)
      requires Valid() && WitnessesOk(ws, disks, data) && |stats| == |scans| == |work| == |disks|
      requires HonestTurns(stats, stream) && HonestTurns(scans, stream)
      modifies this
      ensures Valid() && Goes(old(history), history, old(disks), disks)
      ensures r.Ok? ==> |r.value| == |disks| && ReadingsOk(r.value, history, disks, data)
      ensures CalmOrDown(stats, scans, work, old(disks), data) ==> r.Ok? && disks == old(disks)
      ensures CalmOrDown(stats, scans, work, old(disks), data) ==>
                forall z :: 0 <= z < |disks| && ZoneReads(stats, scans, z) ==>
                  ReadAs(r.value[z], scans[z].fate, disks[z], data)
      ensures CalmOrDown(stats, scans, work, old(disks), data) ==>
                forall z :: 0 <= z < |disks| && ZoneDown(stats, scans, work, z) ==> r.value[z] == Skipped
    {
      hide Moves, Sound, OnStream, HistoryOk, Reaches, Goes, WitnessesOk, ReadingsOk, ReadingOk;
      var readings: seq<Reading> := [];
      SelfGoes(history, disks);
      NoReadings(history, disks, data);
      for zone := 0 to |disks|
        invariant Valid() && Goes(old(history), history, old(disks), disks)
        invariant |disks| == |old(disks)| && |readings| == zone
        invariant WitnessesOk(ws, disks, data) && ReadingsOk(readings, history, disks, data)
        invariant CalmOrDown(stats, scans, work, old(disks), data) ==> disks == old(disks)
        invariant CalmOrDown(stats, scans, work, old(disks), data) ==>
                    forall z :: 0 <= z < zone && ZoneReads(stats, scans, z) ==>
                      ReadAs(readings[z], scans[z].fate, disks[z], data)
        invariant CalmOrDown(stats, scans, work, old(disks), data) ==>
                    forall z :: 0 <= z < zone && ZoneDown(stats, scans, work, z) ==> readings[z] == Skipped
      {
        ghost var h, before := history, disks;
        WitnessAt(ws, disks, data, zone);
        var reading := ReadZone(zone, ws[zone], stats[zone], scans[zone]);
        GoesOn(old(history), h, history, old(disks), before, disks);
        GoesSame(h, history, before, disks);
        ReadingsStay(ws, readings, h, history, before, disks, data);
        assert CalmOrDown(stats, scans, work, old(disks), data) ==>
                 ZoneReads(stats, scans, zone) || ZoneDown(stats, scans, work, zone);
        if reading.Err? { return Err(reading.error); }
        AddReading(readings, reading.value, history, disks, data);
        readings := readings + [reading.value];
      }
      r := Ok(readings);
    }

    /** Enforces the zones one after another, in any order. */
    method EnforceZones(zones: set<nat>, readings: seq<Reading>, work: seq<seq<Turn>>, count: nat, ghost done: set<nat>)
      returns (r: Result<nat, TransportCode>, ghost finished: set<nat>)
      requires Valid() && Pending(zones, readings, history, disks, data) && |work| == |disks|
      requires AllWereSealed(done, history, data) && count == |done| && zones !! done && HonestWork(work, stream)
      modifies this
      ensures Valid() && Goes(old(history), history, old(disks), disks)
      ensures r.Ok? ==>
                done <= finished <= done + zones && AllWereSealed(finished, history, data) && r.value == |finished|
      ensures CalmPending(zones, readings, work, old(disks), data) && AllSealed(done, old(disks), data) ==>
                r.Ok? && done + CalmWork(zones, work) <= finished && OnlyIn(old(disks), disks, zones) &&
                AllSealed(finished, disks, data)
    {
      hide HistoryOk, Reaches, AllSound, Pending, AllWereSealed, AllSealed, Goes, OnlyIn, CalmPending, OnlyAt;
      hide Learned, WasSealed, Calm, Sealed, Round, Failing, OpenWith, CalmWork;
      var left, finalized := zones, count;
      finished := done;
      ghost var calm := CalmPending(zones, readings, work, disks, data) && AllSealed(done, disks, data);
      SelfGoes(history, disks);
      RoundStarts(zones, done, readings, work, history, disks, data, calm);
      while left != {}
        invariant Valid() && Goes(old(history), history, old(disks), disks) && |work| == |disks| == |readings|
        invariant Round(zones, left, done, finished, readings, work, old(disks), history, disks, data, calm)
        invariant finalized == |finished|
        decreases left
      {
        var zone :| zone in left;
        ghost var h, before := history, disks;
        RoundZone(zones, left, done, finished, readings, work, old(disks), history, disks, data, calm, zone);
        var once, rest := EnforceWitness(zone, readings[zone].observed, work[zone]);
        GoesOn(old(history), h, history, old(disks), before, disks);
        GoesSame(h, history, before, disks);
        RoundStep(zones, left, done, finished, readings, work, old(disks), h, history, before, disks, data, calm, zone,
                  once);
        left := left - {zone};
        if once.Err? { return Err(once.error), finished; }
        if once.value {
          finished := finished + {zone};
          finalized := finalized + 1;
        }
      }
      RoundEnds(zones, done, finished, readings, work, old(disks), history, disks, data, calm);
      r := Ok(finalized);
    }

    /** The second pass: every copy read, then every missing one. */
    method EnforceReadings(readings: seq<Reading>, work: seq<seq<Turn>>)
      returns (r: Result<nat, TransportCode>, ghost finished: set<nat>)
      requires Valid() && |readings| == |work| == |disks| && ReadingsOk(readings, history, disks, data)
      requires HonestWork(work, stream)
      modifies this
      ensures Valid() && Goes(old(history), history, old(disks), disks)
      ensures r.Ok? ==> AllWereSealed(finished, history, data) && r.value == |finished|
      ensures CalmPending(Which(readings, true) + Which(readings, false), readings, work, old(disks), data)
              && AllSealed(ConfirmedZones(readings), old(disks), data) ==>
                && r.Ok? && AllSealed(finished, disks, data)
                && ConfirmedZones(readings) + CalmWork(Which(readings, true) + Which(readings, false), work) <= finished
    {
      hide HistoryOk, Reaches, AllSound, Pending, AllWereSealed, AllSealed, Goes, OnlyIn, CalmPending, ReadingsOk;
      var confirmed, copies, missing := ConfirmedZones(readings), Which(readings, true), Which(readings, false);
      ghost var calm := CalmPending(copies + missing, readings, work, disks, data) && AllSealed(confirmed, disks, data);
      SelfOnlyIn(disks, copies);
      ReadingsGive(readings, history, disks, data);
      if calm { CalmHalves(copies, missing, readings, work, disks, disks, data); }
      r, finished := EnforceZones(copies, readings, work, |confirmed|, confirmed);
      if r.Err? { return; }
      ghost var h, mid := history, disks;
      GoesSame(old(history), history, old(disks), disks);
      MissingPending(readings, history, disks, data);
      if calm { CalmHalves(copies, missing, readings, work, old(disks), disks, data); }
      r, finished := EnforceZones(missing, readings, work, r.value, finished);
      GoesOn(old(history), h, history, old(disks), mid, disks);
    }

    /**
     `enforce_seal`: among lanes and enforcers of any decisions, success means that a
     majority of replicas, the stat-confirmed ones included, each held a finalized copy
     of exactly the canonical bytes at a moment of the call. They are all still sealed at
     return if nothing sealed was reopened, and all still hold the bytes if every replace
     carried them. Every outcome leaves every replica holding whatever prefix it held
     that all replaces carried. An undisturbed rerun succeeds from any state if a
     majority answers, and leaves it sealed, whatever the other zones' reads or writes
     fail with transiently, short of a finish on a copy that already holds the bytes.
     */
    method EnforceSeal(ws: seq<Option<nat>>, stats: seq<Turn>, scans: seq<Turn>, work: seq<seq<Turn>>)
      returns (r: Result<(), SealError>, ghost counted: set<nat>)
      requires Valid() && WitnessesOk(ws, disks, data) && |stats| == |scans| == |work| == |disks|
      requires HonestTurns(stats, stream) && HonestTurns(scans, stream) && HonestWork(work, stream)
      modifies this
      ensures Valid() && history.states[0] == old(disks) && |disks| == |old(disks)|
      ensures r.Ok? ==> |counted| >= Majority(|disks|) && AllWereSealed(counted, history, data)
      ensures r.Ok? && NoneReopened(history, data) ==> |SealedSet(disks, data)| >= Majority(|disks|)
      ensures r.Ok? && AllCarry(history, data) ==> counted <= HolderSet(disks, data)
      ensures forall p :: AllCarry(history, p) ==> HolderSet(old(disks), p) <= HolderSet(disks, p)
      ensures CalmOrDown(stats, scans, work, old(disks), data) &&
              |CalmZones(stats, scans, work)| >= Majority(|disks|) ==>
                r.Ok? && |SealedSet(disks, data)| >= Majority(|disks|)
    {
      hide HistoryOk, Reaches, AllSound, AllOnStream, Goes, ReadingsOk, CalmPending, AllWereSealed, AllSealed, AllCarry;
      hide NoneReopened, WitnessesOk, HonestTurns, HonestWork;
      history := History([], [disks]);
      StartsHistory(disks, stream);
      ghost var start := history;
      var read := ReadAll(ws, stats, scans, work);
      GoesFrom(start, history, old(disks), disks);
      CarriedKept(history, stream, disks);
      if read.Err? { return Err(Lost(read.error)), {}; }
      var readings := read.value;
      ghost var h, atRead := history, disks;
      ghost var calm := CalmOrDown(stats, scans, work, old(disks), data);
      if calm { CalmStart(readings, stats, scans, work, disks, data); }
      var count;
      count, counted := EnforceReadings(readings, work);
      GoesOn(start, h, history, old(disks), atRead, disks);
      GoesFrom(start, history, old(disks), disks);
      CarriedKept(history, stream, disks);
      if count.Err? { return Err(Lost(count.error)), {}; }
      if AllCarry(history, data) { CountedHold(history, stream, disks, data, counted); }
      if NoneReopened(history, data) { UnreopenedMajority(history, stream, disks, data, counted); }
      r := if count.value >= Majority(|disks|) then Ok(()) else Err(NoQuorum);
      if calm {
        SubsetSize(CalmZones(stats, scans, work), counted);
        SealedCounted(counted, disks, data);
      }
    }
  }

  // ------------------------------------------------------------ bookkeeping

  function ConfirmedZones(readings: seq<Reading>): set<nat> {
    set z: nat | z < |readings| && readings[z].Confirmed?
  }

  /** Zones whose copy was read (`present`) or is missing. */
  function Which(readings: seq<Reading>, present: bool): set<nat> {
    set z: nat | z < |readings| && readings[z].Copy? && readings[z].observed.Some? == present
  }

  /** Every zone's witness claim still holds. */
  ghost predicate WitnessesOk(ws: seq<Option<nat>>, disks: seq<Disk>, data: Bytes) {
    |ws| == |disks| && forall z :: 0 <= z < |ws| ==> WitnessOk(ws[z], disks[z], data)
  }

  ghost predicate ReadingsOk(readings: seq<Reading>, h: History, disks: seq<Disk>, data: Bytes) {
    |readings| <= |disks| && forall z :: 0 <= z < |readings| ==> ReadingOk(readings[z], h, disks[z], z, data)
  }

  ghost predicate AllWereSealed(zones: set<nat>, h: History, data: Bytes) {
    forall z :: z in zones ==> WasSealed(h, z, data)
  }

  ghost predicate AllSealed(zones: set<nat>, disks: seq<Disk>, data: Bytes) {
    forall z :: z in zones ==> z < |disks| && Sealed(disks[z], data)
  }

  /** Zones still to be enforced, each with what the first pass saw. */
  ghost predicate Pending(zones: set<nat>, readings: seq<Reading>, h: History, disks: seq<Disk>, data: Bytes) {
    |readings| == |disks| &&
    forall z :: z in zones ==> z < |disks| && readings[z].Copy? && Learned(readings[z].observed, h, disks[z], z, data)
  }

  /** Nothing changed since the first pass, and each zone's calls are undisturbed or fail harmlessly. */
  ghost predicate CalmPending(zones: set<nat>, readings: seq<Reading>, work: seq<seq<Turn>>, disks: seq<Disk>,
                              data: Bytes) {
    && |readings| == |work| == |disks|
    && forall z :: z in zones ==>
         && z < |disks| && readings[z].Copy? && Shows(readings[z].observed, disks[z].slot)
         && (SealedWith(readings[z].observed, data) ==> Sealed(disks[z], data))
         && (Works(work[z]) || (Failing(work[z]) && !OpenWith(readings[z].observed, data)))
  }

  predicate Works(turns: seq<Turn>) { Calm(turns) && |turns| >= 2 }

  function CalmWork(zones: set<nat>, work: seq<seq<Turn>>): set<nat> {
    set z: nat | z in zones && z < |work| && Works(work[z])
  }

  ghost predicate OnlyIn(a: seq<Disk>, b: seq<Disk>, zones: set<nat>) {
    |a| == |b| && forall z :: 0 <= z < |a| && z !in zones ==> a[z] == b[z]
  }

  lemma SelfOnlyIn(disks: seq<Disk>, zones: set<nat>)
    ensures OnlyIn(disks, disks, zones)
  {
  }

  lemma StartsHistory(disks: seq<Disk>, stream: Bytes)
    requires AllSound(disks) && AllOnStream(disks, stream)
    ensures HistoryOk(History([], [disks]), stream) && Reaches(History([], [disks]), disks)
  {
  }

  lemma HistoryGrows(h: History, step: ClusterStep, disks: seq<Disk>, stream: Bytes)
    requires HistoryOk(h, stream) && h.states != [] && Happens(h.states[|h.states| - 1], step, disks, stream)
    ensures HistoryOk(History(h.steps + [step], h.states + [disks]), stream)
    ensures Extends(h, History(h.steps + [step], h.states + [disks]))
  {
    var g := History(h.steps + [step], h.states + [disks]);
    forall i | 0 <= i < |g.steps| ensures Happens(g.states[i], g.steps[i], g.states[i + 1], stream) {
      if i < |h.steps| { assert Happens(h.states[i], h.steps[i], h.states[i + 1], stream); }
    }
  }

  lemma SelfMoves(disks: seq<Disk>)
    requires AllSound(disks)
    ensures AllMove(disks, disks)
  {
  }

  lemma SelfGoes(h: History, disks: seq<Disk>)
    requires AllSound(disks)
    ensures Goes(h, h, disks, disks)
  {
    SelfMoves(disks);
  }

  lemma MovedIsSound(a: seq<Disk>, b: seq<Disk>)
    requires AllMove(a, b)
    ensures AllSound(b)
  {
  }

  lemma Chained(a: seq<Disk>, b: seq<Disk>, c: seq<Disk>)
    requires AllMove(a, b) && AllMove(b, c)
    ensures AllMove(a, c)
  {
    forall z | 0 <= z < |a| ensures Moves(a[z], c[z]) { MovesTransitive(a[z], b[z], c[z]); }
  }

  lemma GoesSame(h: History, g: History, a: seq<Disk>, b: seq<Disk>)
    requires Goes(h, g, a, b)
    ensures |a| == |b|
  {
  }

  lemma GoesFrom(h: History, g: History, a: seq<Disk>, b: seq<Disk>)
    requires Goes(h, g, a, b) && h.states == [a]
    ensures g.states != [] && g.states[0] == a && |a| == |b|
  {
    assert g.states[0] == h.states[0];
  }

  lemma NoReadings(h: History, disks: seq<Disk>, data: Bytes)
    ensures ReadingsOk([], h, disks, data)
  {
  }

  lemma WitnessAt(ws: seq<Option<nat>>, disks: seq<Disk>, data: Bytes, zone: nat)
    requires WitnessesOk(ws, disks, data) && zone < |disks|
    ensures |ws| == |disks| && WitnessOk(ws[zone], disks[zone], data)
  {
  }

  lemma ReadingsStay(ws: seq<Option<nat>>, readings: seq<Reading>, h: History, g: History, a: seq<Disk>, b: seq<Disk>,
                     data: Bytes)
    requires WitnessesOk(ws, a, data) && ReadingsOk(readings, h, a, data) && Goes(h, g, a, b)
    ensures WitnessesOk(ws, b, data) && ReadingsOk(readings, g, b, data)
  {
    hide Moves, ReadingOk, WitnessOk;
    forall z | 0 <= z < |ws| ensures WitnessOk(ws[z], b[z], data) { WitnessStays(ws[z], a[z], b[z], data); }
    forall z | 0 <= z < |readings| ensures ReadingOk(readings[z], g, b[z], z, data) {
      ReadingStays(readings[z], h, g, a[z], b[z], z, data);
    }
  }

  lemma AddReading(readings: seq<Reading>, reading: Reading, h: History, disks: seq<Disk>, data: Bytes)
    requires |readings| < |disks| && ReadingsOk(readings, h, disks, data)
    requires ReadingOk(reading, h, disks[|readings|], |readings|, data)
    ensures ReadingsOk(readings + [reading], h, disks, data)
  {
  }

  /** Between two zones: those done were sealed, those left are pending, and a calm pass has disturbed nothing else. */
  ghost predicate Round(zones: set<nat>, left: set<nat>, done: set<nat>, finished: set<nat>, readings: seq<Reading>,
                        work: seq<seq<Turn>>, start: seq<Disk>, h: History, disks: seq<Disk>, data: Bytes, calm: bool) {
    && Pending(left, readings, h, disks, data) && left !! finished && left <= zones
    && AllWereSealed(finished, h, data) && done <= finished <= done + zones
    && (calm ==>
          && CalmPending(left, readings, work, disks, data) && OnlyIn(start, disks, zones)
          && done + CalmWork(zones - left, work) <= finished && AllSealed(finished, disks, data))
  }

  lemma RoundStarts(zones: set<nat>, done: set<nat>, readings: seq<Reading>, work: seq<seq<Turn>>,
                    h: History, disks: seq<Disk>, data: Bytes, calm: bool)
    requires Pending(zones, readings, h, disks, data) && zones !! done && AllWereSealed(done, h, data)
    requires calm ==> CalmPending(zones, readings, work, disks, data) && AllSealed(done, disks, data)
    ensures Round(zones, zones, done, done, readings, work, disks, h, disks, data, calm) && |readings| == |disks|
  {
  }

  lemma RoundZone(zones: set<nat>, left: set<nat>, done: set<nat>, finished: set<nat>, readings: seq<Reading>,
                  work: seq<seq<Turn>>, start: seq<Disk>, h: History, disks: seq<Disk>, data: Bytes, calm: bool,
                  zone: nat)
    requires Round(zones, left, done, finished, readings, work, start, h, disks, data, calm) && zone in left
    ensures zone < |disks| == |readings| && readings[zone].Copy? && zone !in finished
    ensures Learned(readings[zone].observed, h, disks[zone], zone, data)
  {
  }

  lemma RoundStep(zones: set<nat>, left: set<nat>, done: set<nat>, finished: set<nat>, readings: seq<Reading>,
                  work: seq<seq<Turn>>, start: seq<Disk>, h: History, g: History, a: seq<Disk>, b: seq<Disk>,
                  data: Bytes, calm: bool, zone: nat, once: Result<bool, TransportCode>)
    requires Round(zones, left, done, finished, readings, work, start, h, a, data, calm) && zone in left
    requires zone < |a| == |b| == |work| == |readings| && readings[zone].Copy? && Goes(h, g, a, b)
    requires once == Ok(true) ==> WasSealed(g, zone, data)
    requires Shows(readings[zone].observed, a[zone].slot) ==>
               EnforcedWell(work[zone], readings[zone].observed, a, b, data, zone, once)
    ensures calm ==> once.Ok?
    ensures once.Ok? ==>
              var now := if once.value then finished + {zone} else finished;
              Round(zones, left - {zone}, done, now, readings, work, start, g, b, data, calm)
  {
    hide Learned, WasSealed, Works, Moves, Sealed, Failing, OpenWith, EnforcedWell;
    StepZone(h, g, a, b, data, zone, left, readings, finished);
    if calm { StepCalm(start, a, b, data, zone, zones, left, readings, work, finished, once); }
  }

  lemma RoundEnds(zones: set<nat>, done: set<nat>, finished: set<nat>, readings: seq<Reading>,
                  work: seq<seq<Turn>>, start: seq<Disk>, h: History, disks: seq<Disk>, data: Bytes, calm: bool)
    requires Round(zones, {}, done, finished, readings, work, start, h, disks, data, calm)
    ensures done <= finished <= done + zones && AllWereSealed(finished, h, data)
    ensures calm ==>
              && done + CalmWork(zones, work) <= finished && OnlyIn(start, disks, zones)
              && AllSealed(finished, disks, data)
  {
    assert zones - {} == zones;
  }

  /** What a zone's enforcement comes to when its calls are undisturbed, or fail harmlessly. */
  ghost predicate EnforcedWell(turns: seq<Turn>, observed: Option<Object>, a: seq<Disk>, b: seq<Disk>, data: Bytes,
                               zone: nat, once: Result<bool, TransportCode>)
    requires zone < |a| == |b|
  {
    && (Works(turns) ==> once == Ok(true) && OnlyAt(a, b, zone) && Sealed(b[zone], data))
    && (Failing(turns) && !OpenWith(observed, data) ==>
          once.Ok? && OnlyAt(a, b, zone) && (once.value ==> SealedWith(observed, data) && a == b))
  }

  /** One zone's enforcement leaves the others as they were to the bookkeeping. */
  lemma StepZone(h: History, g: History, a: seq<Disk>, b: seq<Disk>, data: Bytes, zone: nat, left: set<nat>,
                 readings: seq<Reading>, finished: set<nat>)
    requires Goes(h, g, a, b) && Pending(left, readings, h, a, data) && AllWereSealed(finished, h, data)
    ensures Pending(left - {zone}, readings, g, b, data) && AllWereSealed(finished, g, data) && |b| == |a|
  {
    hide Moves, Learned, WasSealed;
    forall z | z in left - {zone} ensures Learned(readings[z].observed, g, b[z], z, data) {
      LearnedStays(readings[z].observed, h, g, a[z], b[z], z, data);
    }
    forall z | z in finished ensures WasSealed(g, z, data) { WasSealedStays(h, g, z, data); }
  }

  lemma StepCalm(start: seq<Disk>, a: seq<Disk>, b: seq<Disk>, data: Bytes, zone: nat, zones: set<nat>, left: set<nat>,
                 readings: seq<Reading>, work: seq<seq<Turn>>, finished: set<nat>, once: Result<bool, TransportCode>)
    requires zone in left && left <= zones && CalmPending(left, readings, work, a, data) && OnlyIn(start, a, zones)
    requires |a| == |b|
    requires readings[zone].Copy? && AllSealed(finished, a, data) && zone !in finished
    requires Shows(readings[zone].observed, a[zone].slot) ==>
               EnforcedWell(work[zone], readings[zone].observed, a, b, data, zone, once)
    ensures once.Ok? && CalmPending(left - {zone}, readings, work, b, data) && OnlyIn(start, b, zones)
    ensures AllSealed(if once.value then finished + {zone} else finished, b, data)
    ensures Works(work[zone]) ==> once.value
    ensures CalmWork(zones - (left - {zone}), work) <= CalmWork(zones - left, work) +
              (if Works(work[zone]) then {zone} else {})
  {
    hide Works, Failing, OpenWith, Sealed;
  }

  /** What the first pass hands to the second. */
  lemma ReadingsGive(readings: seq<Reading>, h: History, disks: seq<Disk>, data: Bytes)
    requires |readings| == |disks| && ReadingsOk(readings, h, disks, data)
    ensures AllWereSealed(ConfirmedZones(readings), h, data) && Pending(Which(readings, true), readings, h, disks, data)
  {
    hide Learned, WasSealed;
    forall z | z in ConfirmedZones(readings)
      ensures WasSealed(h, z, data)
    {
      assert ReadingOk(readings[z], h, disks[z], z, data);
    }
    forall z | z in Which(readings, true) ensures Learned(readings[z].observed, h, disks[z], z, data) {
      assert ReadingOk(readings[z], h, disks[z], z, data);
    }
  }

  lemma MissingPending(readings: seq<Reading>, h: History, disks: seq<Disk>, data: Bytes)
    requires |readings| == |disks|
    ensures Pending(Which(readings, false), readings, h, disks, data)
  {
  }

  lemma CalmHalves(copies: set<nat>, missing: set<nat>, readings: seq<Reading>, work: seq<seq<Turn>>, was: seq<Disk>,
                   disks: seq<Disk>, data: Bytes)
    requires CalmPending(copies + missing, readings, work, was, data) && copies !! missing && OnlyIn(was, disks, copies)
    ensures CalmPending(missing, readings, work, disks, data)
    ensures was == disks ==> CalmPending(copies, readings, work, disks, data)
    ensures CalmWork(copies + missing, work) == CalmWork(copies, work) + CalmWork(missing, work)
  {
    hide Works, Failing, OpenWith;
  }

  lemma CalmStart(readings: seq<Reading>, stats: seq<Turn>, scans: seq<Turn>, work: seq<seq<Turn>>, disks: seq<Disk>,
                  data: Bytes)
    requires |stats| == |scans| == |work| == |readings| == |disks|
    requires CalmOrDown(stats, scans, work, disks, data)
    requires forall z :: 0 <= z < |disks| && ZoneReads(stats, scans, z) ==>
               ReadAs(readings[z], scans[z].fate, disks[z], data)
    requires forall z :: 0 <= z < |disks| && ZoneDown(stats, scans, work, z) ==> readings[z] == Skipped
    ensures CalmPending(Which(readings, true) + Which(readings, false), readings, work, disks, data)
    ensures AllSealed(ConfirmedZones(readings), disks, data)
    ensures CalmZones(stats, scans, work) <=
            ConfirmedZones(readings) + CalmWork(Which(readings, true) + Which(readings, false), work)
  {
    hide Calm, Failing, OpenWith, Sealed;
    forall z: nat | z < |disks| && readings[z] != Skipped
      ensures ZoneCalm(stats, scans, work, z) || ZoneReadOnly(stats, scans, work, z, disks[z], data)
      ensures ZoneReads(stats, scans, z)
    {
      assert !ZoneDown(stats, scans, work, z);
    }
  }

  lemma SealedCounted(counted: set<nat>, disks: seq<Disk>, data: Bytes)
    requires AllSealed(counted, disks, data)
    ensures |counted| <= |SealedSet(disks, data)|
  {
    SubsetSize(counted, SealedSet(disks, data));
  }

  lemma TakenHolds(a: Disk, e: Disk, o: Object, data: Bytes)
    requires Usable(o, a, data) && o.bytes == data
    requires exists d :: Moves(a, d) && Serve(d, Takeover(o.generation)) == Ok(e)
    ensures Holds(e, data)
  {
    var d :| Moves(a, d) && Serve(d, Takeover(o.generation)) == Ok(e);
    assert Usable(o, d, data);
  }

  predicate HasLength(d: Disk, len: nat) {
    d.slot.Some? && |d.slot.value.bytes| == len
  }

  /** One stream has one prefix of each length. */
  lemma SameLengthIsSealed(d: Disk, data: Bytes, stream: Bytes)
    requires OnStream(d, stream) && data <= stream && HasLength(d, |data|) && d.slot.value.finalized
    ensures Sealed(d, data)
  {
    assert d.slot.value.bytes == stream[..|data|] == data;
  }

  lemma FinalizedIsSealed(e: Disk, data: Bytes, stream: Bytes)
    requires OnStream(e, stream) && data <= stream && exists d :: Serve(d, Finalize(|data|)) == Ok(e)
    ensures Sealed(e, data)
  {
    SameLengthIsSealed(e, data, stream);
  }

  lemma ReplacedHolds(e: Disk, observed: Option<Object>, data: Bytes)
    requires exists d :: Serve(d, Replace(Guard(observed), data)) == Ok(e)
    ensures Holds(e, data) && |e.slot.value.bytes| == |data|
  {
  }

  lemma FinalizeServes(d: Disk, data: Bytes)
    ensures HasLength(d, |data|) ==> Serve(d, Finalize(|data|)).Ok?
  {
  }

  lemma ShownSealed(observed: Option<Object>, d: Disk, data: Bytes)
    requires data != []
    ensures Shows(observed, d.slot) && SealedWith(observed, data) ==> Sealed(d, data)
  {
  }

  lemma LearnedSealed(observed: Option<Object>, h: History, d: Disk, zone: nat, data: Bytes)
    requires Learned(observed, h, d, zone, data) && SealedWith(observed, data)
    ensures WasSealed(h, zone, data)
  {
    hide WasSealed;
  }

  lemma ReplaceServes(d: Disk, observed: Option<Object>, data: Bytes)
    ensures Shows(observed, d.slot) ==> Serve(d, Replace(Guard(observed), data)).Ok?
  {
  }
}
