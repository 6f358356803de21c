/**
 The engine pipeline: the handle that numbers and accounts admissions, the queue,
 the dispatch window, the segment writer with its swaps, and ordered completion.
 `Valid` is what every method keeps, so it holds after any interleaving of
 admissions, dispatches, commit progress, completions and swaps.
 */
module Engine {
  import opened Wrappers

  /** An admitted record: its number, encoded size, and cumulative admission bytes after it. */
  datatype Append = Append(seqno: nat, size: nat, admissionEnd: nat)

  /** Appends dispatched together to one segment and not yet completed. */
  datatype Batch = Batch(segment: nat, appends: seq<Append>)

  /** One segment's writer: what was admitted to it and how far a quorum holds it. */
  datatype Segment = Segment(base: nat, admitted: nat, committed: nat, failed: bool, bytes: nat)

  datatype Capacity = Capacity(admissionStart: nat, existing: nat, sealRoom: bool)

  datatype Rotation = Idle | Due | Busy

  datatype Receipt = Receipt(seqno: nat, ok: bool)

  datatype AdmitError =
    | Closed | OutOfOrder | SequenceExhausted | RecordTooLarge | SegmentDirectoryFull | ActiveSegmentFull

  const HEADER_LEN: nat := 4
  const U32_MAX: nat := 0xFFFF_FFFF
  const U64_MAX: nat := 0xFFFF_FFFF_FFFF_FFFF

  // ------------------------------------------------------------- sequences

  function TotalSize(appends: seq<Append>): nat {
    if appends == [] then 0 else TotalSize(appends[..|appends| - 1]) + appends[|appends| - 1].size
  }

  lemma {:induction false} TotalSizeSplit(appends: seq<Append>, k: nat)
    requires k <= |appends|
    ensures TotalSize(appends) == TotalSize(appends[..k]) + TotalSize(appends[k..])
    decreases |appends|
  {
    if k == |appends| {
      assert appends[..k] == appends && appends[k..] == [];
    } else {
      var n := |appends| - 1;
      TotalSizeSplit(appends[..n], k);
      assert appends[..n][..k] == appends[..k] && appends[..n][k..] == appends[k..][..n - k];
    }
  }

  lemma TotalSizeAppend(a: seq<Append>, b: seq<Append>)
    ensures TotalSize(a + b) == TotalSize(a) + TotalSize(b)
  {
    TotalSizeSplit(a + b, |a|);
    assert (a + b)[..|a|] == a && (a + b)[|a|..] == b;
  }

  function Flat(batches: seq<Batch>): seq<Append> {
    if batches == [] then [] else batches[0].appends + Flat(batches[1..])
  }

  lemma {:induction false} FlatSnoc(batches: seq<Batch>, last: Batch)
    ensures Flat(batches + [last]) == Flat(batches) + last.appends
    decreases |batches|
  {
    if batches == [] {
      assert [] + [last] == [last];
    } else {
      FlatSnoc(batches[1..], last);
      assert (batches + [last])[1..] == batches[1..] + [last];
    }
  }

  /** Consecutive numbers from `first`. */
  predicate Numbered(appends: seq<Append>, first: nat) {
    forall i :: 0 <= i < |appends| ==> appends[i].seqno == first + i && appends[i].size >= HEADER_LEN
  }

  /** Consecutive cumulative admission bytes after `from`. */
  predicate Accounted(appends: seq<Append>, from: nat) {
    forall i :: 0 <= i < |appends| ==> appends[i].admissionEnd == from + TotalSize(appends[..i + 1])
  }

  lemma AccountedTail(appends: seq<Append>, from: nat, k: nat)
    requires Accounted(appends, from) && k <= |appends|
    ensures Accounted(appends[k..], from + TotalSize(appends[..k]))
    ensures k > 0 ==> appends[k - 1].admissionEnd == from + TotalSize(appends[..k])
  {
    forall i | 0 <= i < |appends| - k
      ensures appends[k..][i].admissionEnd == from + TotalSize(appends[..k]) + TotalSize(appends[k..][..i + 1])
    {
      TotalSizeSplit(appends[..k + i + 1], k);
      assert appends[..k + i + 1][..k] == appends[..k] && appends[..k + i + 1][k..] == appends[k..][..i + 1];
    }
  }

  lemma AccountedAppend(a: seq<Append>, b: seq<Append>, from: nat)
    requires Accounted(a, from) && Accounted(b, from + TotalSize(a))
    ensures Accounted(a + b, from)
  {
    forall i | 0 <= i < |a + b| ensures (a + b)[i].admissionEnd == from + TotalSize((a + b)[..i + 1]) {
      if i < |a| {
        assert (a + b)[..i + 1] == a[..i + 1];
      } else {
        assert (a + b)[..i + 1] == a + b[..i + 1 - |a|];
        TotalSizeAppend(a, b[..i + 1 - |a|]);
      }
    }
  }

  // ------------------------------------------------------------- the writer

  /** Segments follow one another without a gap; all but the active one are non-empty and fully committed. */
  predicate Chained(segments: seq<Segment>, start: nat) {
    && segments != [] && segments[0].base == start
    && (forall k :: 0 <= k < |segments| ==> segments[k].committed <= segments[k].admitted)
    && forall k :: 0 < k < |segments| ==> FollowsAt(segments, k)
  }

  /** Segment `k` starts at the committed end of the one before. */
  predicate FollowsAt(segments: seq<Segment>, k: nat)
    requires 0 < k < |segments|
  {
    var before := segments[k - 1];
    segments[k].base == before.base + before.admitted && before.admitted == before.committed != 0
  }

  function Active(segments: seq<Segment>): Segment
    requires segments != []
  {
    segments[|segments| - 1]
  }

  /** A batch's records lie in its segment's admitted range. */
  predicate InSegment(b: Batch, segments: seq<Segment>) {
    && b.segment < |segments|
    && forall i :: 0 <= i < |b.appends| ==>
         segments[b.segment].base <= b.appends[i].seqno < segments[b.segment].base + segments[b.segment].admitted
  }

  /** The record is held by a quorum of its segment's lanes. */
  ghost predicate Backed(seqno: nat, segments: seq<Segment>) {
    exists k :: 0 <= k < |segments| && HeldIn(segments[k], seqno)
  }

  predicate HeldIn(s: Segment, seqno: nat) {
    s.base <= seqno < s.base + s.committed
  }

  /** Segments later on: more admitted, more committed, same places. */
  predicate Extends(a: seq<Segment>, b: seq<Segment>) {
    |a| <= |b| && forall k :: 0 <= k < |a| ==>
      a[k].base == b[k].base && a[k].admitted <= b[k].admitted && a[k].committed <= b[k].committed
  }

  lemma ExtendsKeeps(a: seq<Segment>, b: seq<Segment>, batch: Batch, seqno: nat)
    requires Extends(a, b)
    ensures InSegment(batch, a) ==> InSegment(batch, b)
    ensures Backed(seqno, a) ==> Backed(seqno, b)
  {
    if Backed(seqno, a) {
      var k :| 0 <= k < |a| && HeldIn(a[k], seqno);
      assert HeldIn(b[k], seqno);
    }
  }

  // --------------------------------------------------------------- receipts

  /** Successes are exactly the first `n` numbers in order; everything after them failed. */
  ghost predicate Ordered(receipts: seq<Receipt>, start: nat, n: nat, segments: seq<Segment>) {
    && n <= |receipts|
    && (forall i :: 0 <= i < n ==> receipts[i] == Receipt(start + i, true) && Backed(receipts[i].seqno, segments))
    && forall i :: n <= i < |receipts| ==> !receipts[i].ok
  }

  lemma OrderedExtends(receipts: seq<Receipt>, start: nat, n: nat, a: seq<Segment>, b: seq<Segment>)
    requires Ordered(receipts, start, n, a) && Extends(a, b)
    ensures Ordered(receipts, start, n, b)
  {
    forall i | 0 <= i < n ensures Backed(receipts[i].seqno, b) { ExtendsKeeps(a, b, Batch(0, []), receipts[i].seqno); }
  }

  function Failures(appends: seq<Append>): seq<Receipt> {
    seq(|appends|, i requires 0 <= i < |appends| => Receipt(appends[i].seqno, false))
  }

  /** One receipt for every number from `from` up to `to`, in order. */
  ghost function Receipts(from: nat, to: nat, ok: bool): seq<Receipt>
    requires from <= to
  {
    seq(to - from, i requires 0 <= i < to - from => Receipt(from + i, ok))
  }

  lemma ReceiptsSnoc(from: nat, to: nat, ok: bool)
    requires from <= to
    ensures Receipts(from, to + 1, ok) == Receipts(from, to, ok) + [Receipt(to, ok)]
  {
  }

  // -------------------------------------------------------------- the state

  /** Everything but the receipts, as one value. */
  datatype State = State(
    nextSeqno: nat, totalAdmitted: nat, capacity: Capacity, intent: nat, channel: seq<Append>,
    queue: seq<Append>, batches: seq<Batch>, pendingRecords: nat, pendingBytes: nat,
    nextCompletion: nat, nextAdmission: nat, lastDispatched: nat,
    segments: seq<Segment>, rotation: Rotation, spareReady: bool)

  /** Numbers run without a gap through completed, dispatched, queued and sent. */
  ghost predicate LineOk(s: State) {
    && Numbered(Flat(s.batches), s.nextCompletion) && |Flat(s.batches)| == s.pendingRecords
    && Numbered(s.queue, s.nextCompletion + s.pendingRecords)
    && s.nextAdmission == s.nextCompletion + s.pendingRecords + |s.queue|
    && Numbered(s.channel, s.nextAdmission) && s.nextSeqno == s.nextAdmission + |s.channel|
  }

  /** Admission bytes run without a gap through dispatched, queued and sent. */
  ghost predicate BytesOk(s: State) {
    && TotalSize(Flat(s.batches)) == s.pendingBytes
    && Accounted(s.queue, s.lastDispatched)
    && Accounted(s.channel, s.lastDispatched + TotalSize(s.queue))
    && s.totalAdmitted == s.lastDispatched + TotalSize(s.queue) + TotalSize(s.channel)
  }

  /** The writer's next number is the next number to dispatch. */
  ghost predicate WriterOk(s: State, start: nat) {
    && Chained(s.segments, start)
    && Active(s.segments).base + Active(s.segments).admitted == s.nextCompletion + s.pendingRecords
    && forall i :: 0 <= i < |s.batches| ==> InSegment(s.batches[i], s.segments)
  }

  /** The active segment, with everything admitted but not dispatched, stays below the ceiling. */
  ghost predicate CeilingOk(s: State, maxActive: nat) {
    && s.segments != [] && s.capacity.admissionStart <= s.lastDispatched
    && Active(s.segments).bytes == s.capacity.existing + (s.lastDispatched - s.capacity.admissionStart)
    && s.capacity.existing + (s.totalAdmitted - s.capacity.admissionStart) + s.intent <= maxActive
  }

  /** Pending bytes exceed the window only for one oversized record alone. */
  predicate WindowOk(s: State, window: nat) {
    s.pendingBytes <= window || s.pendingRecords == 1
  }

  ghost predicate Consistent(s: State, start: nat, window: nat, maxActive: nat) {
    start <= s.nextCompletion && LineOk(s) && BytesOk(s) && WriterOk(s, start) && CeilingOk(s, maxActive) &&
    WindowOk(s, window)
  }

  /** Everything unresolved is failed once, under its own number. */
  lemma FailuresAreNumbered(s: State)
    requires LineOk(s)
    ensures s.nextCompletion <= s.nextSeqno
    ensures Failures(Flat(s.batches) + s.queue + s.channel) == Receipts(s.nextCompletion, s.nextSeqno, false)
  {
    hide Flat;
    var all := Flat(s.batches) + s.queue + s.channel;
    forall i | 0 <= i < |all| ensures all[i].seqno == s.nextCompletion + i {}
  }

  /** Where a number was admitted: ranges of different segments do not overlap. */
  lemma {:induction false} SegmentsAreApart(segments: seq<Segment>, start: nat, j: nat, k: nat)
    requires Chained(segments, start) && j < k < |segments|
    ensures segments[j].base + segments[j].admitted <= segments[k].base
    decreases k
  {
    assert FollowsAt(segments, k);
    if j < k - 1 { SegmentsAreApart(segments, start, j, k - 1); }
  }

  predicate AdmittedIn(s: Segment, seqno: nat) {
    s.base <= seqno < s.base + s.admitted
  }

  /** Some segment took the record and its tracker has failed. */
  ghost predicate LostIn(seqno: nat, segments: seq<Segment>) {
    exists k :: 0 <= k < |segments| && AdmittedIn(segments[k], seqno) && segments[k].failed
  }

  /** A record's fate is its own segment's. */
  lemma OnlyItsSegment(segments: seq<Segment>, start: nat, k: nat, seqno: nat)
    requires Chained(segments, start) && k < |segments| && AdmittedIn(segments[k], seqno)
    ensures Backed(seqno, segments) <==> HeldIn(segments[k], seqno)
    ensures LostIn(seqno, segments) <==> segments[k].failed
  {
    forall j | 0 <= j < |segments| && AdmittedIn(segments[j], seqno) ensures j == k {
      if j < k { SegmentsAreApart(segments, start, j, k); }
      if k < j { SegmentsAreApart(segments, start, k, j); }
    }
    forall j | 0 <= j < |segments| && HeldIn(segments[j], seqno) ensures AdmittedIn(segments[j], seqno) {}
  }

  // -------------------------------------------------------------- admission

  /** A passed admission check reserves its bytes until the record is sent or dropped. */
  function Checked(s: State, size: nat): State { s.(intent := size) }

  function Sent(s: State): State {
    var end := s.totalAdmitted + s.intent;
    s.(channel := s.channel + [Append(s.nextSeqno, s.intent, end)], totalAdmitted := end, nextSeqno := s.nextSeqno + 1,
       intent := 0)
  }

  lemma SentKeeps(s: State, start: nat, window: nat, maxActive: nat)
    requires Consistent(s, start, window, maxActive) && s.intent >= HEADER_LEN
    ensures Consistent(Sent(s), start, window, maxActive)
  {
    hide TotalSize, Accounted, Flat;
    var last := Append(s.nextSeqno, s.intent, s.totalAdmitted + s.intent);
    SingleAccounted(last, s.totalAdmitted);
    TotalSizeAppend(s.channel, [last]);
    AccountedAppend(s.channel, [last], s.lastDispatched + TotalSize(s.queue));
  }

  lemma SingleAccounted(a: Append, from: nat)
    requires a.admissionEnd == from + a.size
    ensures Accounted([a], from) && TotalSize([a]) == a.size
  {
    assert [a][..1] == [a] && [a][..0] == [];
  }

  /** The engine takes everything the handle sent. */
  function Drained(s: State): State {
    s.(queue := s.queue + s.channel, channel := [], nextAdmission := s.nextAdmission + |s.channel|)
  }

  lemma DrainedKeeps(s: State, start: nat, window: nat, maxActive: nat)
    requires Consistent(s, start, window, maxActive)
    ensures Consistent(Drained(s), start, window, maxActive)
  {
    TotalSizeAppend(s.queue, s.channel);
    AccountedAppend(s.queue, s.channel, s.lastDispatched);
  }

  // --------------------------------------------------------------- dispatch

  /** The window takes the first `take` queued records. */
  ghost predicate Fits(s: State, take: nat, window: nat) {
    && 0 < take <= |s.queue|
    && (s.pendingBytes + TotalSize(s.queue[..take]) <= window || (take == 1 && s.pendingRecords == 0))
  }

  function Dispatched(s: State, take: nat): State
    requires 0 < take <= |s.queue| && s.segments != []
  {
    var appends := s.queue[..take];
    var last := |s.segments| - 1;
    var active := s.segments[last];
    s.(queue := s.queue[take..],
       lastDispatched := appends[take - 1].admissionEnd,
       segments := s.segments[last := active.(admitted := active.admitted + take,
                                              bytes := active.bytes + TotalSize(appends))],
       pendingRecords := s.pendingRecords + take,
       pendingBytes := s.pendingBytes + TotalSize(appends),
       batches := s.batches + [Batch(last, appends)])
  }

  lemma DispatchedKeepsLine(s: State, take: nat)
    requires LineOk(s) && BytesOk(s) && 0 < take <= |s.queue| && s.segments != []
    ensures LineOk(Dispatched(s, take)) && BytesOk(Dispatched(s, take))
    ensures Dispatched(s, take).lastDispatched == s.lastDispatched + TotalSize(s.queue[..take])
  {
    hide TotalSize, Accounted, Flat;
    FlatSnoc(s.batches, Batch(|s.segments| - 1, s.queue[..take]));
    TotalSizeAppend(Flat(s.batches), s.queue[..take]);
    TotalSizeSplit(s.queue, take);
    AccountedTail(s.queue, s.lastDispatched, take);
  }

  lemma DispatchedKeepsWriter(s: State, take: nat, start: nat)
    requires LineOk(s) && WriterOk(s, start) && 0 < take <= |s.queue|
    ensures WriterOk(Dispatched(s, take), start) && Extends(s.segments, Dispatched(s, take).segments)
  {
    hide Flat, TotalSize;
    var t := Dispatched(s, take);
    forall k | 0 < k < |t.segments| ensures FollowsAt(t.segments, k) { assert FollowsAt(s.segments, k); }
    forall i | 0 <= i < |t.batches| ensures InSegment(t.batches[i], t.segments) {
      if i < |s.batches| {
        assert InSegment(s.batches[i], s.segments);
        ExtendsKeeps(s.segments, t.segments, s.batches[i], 0);
      }
    }
  }

  /** Dispatching keeps everything, and the writer assigns exactly the caller's numbers. */
  lemma DispatchedKeeps(s: State, take: nat, start: nat, window: nat, maxActive: nat)
    requires Consistent(s, start, window, maxActive) && Fits(s, take, window)
    ensures s.segments != [] && 0 < take <= |s.queue|
    ensures Consistent(Dispatched(s, take), start, window, maxActive)
    ensures Extends(s.segments, Dispatched(s, take).segments)
    ensures Active(s.segments).base + Active(s.segments).admitted == s.queue[0].seqno
    ensures Active(s.segments).base + Active(s.segments).admitted + take == s.queue[take - 1].seqno + 1
  {
    DispatchedKeepsLine(s, take);
    DispatchedKeepsWriter(s, take, start);
    TotalSizeSplit(s.queue, take);
  }

  /** The next queued record may go: the window has room, and it fits or nothing is pending. */
  predicate Dispatchable(s: State, window: nat) {
    s.queue != [] && s.pendingBytes < window && (s.pendingBytes + s.queue[0].size <= window || s.pendingRecords == 0)
  }

  lemma Undispatchable(s: State, window: nat)
    requires s.queue == [] || s.pendingBytes >= window
    ensures !Dispatchable(s, window)
  {
  }

  lemma SameSegments(s: State)
    ensures Extends(s.segments, s.segments)
  {
  }

  lemma DispatchMoves(before: State, s: State, take: nat)
    requires 0 < take <= |s.queue| && s.segments != []
    requires Extends(before.segments, s.segments) && Extends(s.segments, Dispatched(s, take).segments)
    ensures Flat(Dispatched(s, take).batches) + Dispatched(s, take).queue == Flat(s.batches) + s.queue
    ensures Extends(before.segments, Dispatched(s, take).segments)
  {
    FlatSnoc(s.batches, Batch(|s.segments| - 1, s.queue[..take]));
    assert s.queue == s.queue[..take] + s.queue[take..];
  }

  lemma LineIsNumbered(s: State, start: nat, window: nat, maxActive: nat)
    requires Consistent(s, start, window, maxActive)
    ensures s.nextCompletion <= s.nextSeqno
  {
  }

  // ------------------------------------------------------- commits and swaps

  /** A tracker reports: the watermark rises within what was admitted, and freezes on failure. */
  function Progressed(s: State, k: nat, committed: nat, failed: bool): State
    requires k < |s.segments|
  {
    s.(segments := s.segments[k := s.segments[k].(committed := committed, failed := failed)])
  }

  predicate MayProgress(s: State, k: nat, committed: nat, failed: bool) {
    && k < |s.segments| && s.segments[k].committed <= committed <= s.segments[k].admitted
    && (s.segments[k].failed ==> failed && committed == s.segments[k].committed)
  }

  lemma ProgressedKeeps(s: State, k: nat, committed: nat, failed: bool, start: nat, window: nat, maxActive: nat)
    requires Consistent(s, start, window, maxActive) && MayProgress(s, k, committed, failed)
    ensures Consistent(Progressed(s, k, committed, failed), start, window, maxActive)
    ensures Extends(s.segments, Progressed(s, k, committed, failed).segments)
  {
    hide Flat, TotalSize;
    var t := Progressed(s, k, committed, failed);
    forall j | 0 < j < |t.segments| ensures FollowsAt(t.segments, j) { assert FollowsAt(s.segments, j); }
    forall i | 0 <= i < |t.batches| ensures InSegment(t.batches[i], t.segments) {
      assert InSegment(s.batches[i], s.segments);
      ExtendsKeeps(s.segments, t.segments, s.batches[i], 0);
    }
  }

  predicate SwapReady(s: State) {
    && s.rotation == Due && s.spareReady && s.segments != []
    && Active(s.segments).admitted != 0 && Active(s.segments).admitted == Active(s.segments).committed
  }

  /** The swap: the empty spare starts at the committed end, and the ceiling is rebased to it. */
  function Swapped(s: State, sealRoom: bool): State
    requires s.segments != []
  {
    var full := Active(s.segments);
    s.(segments := s.segments + [Segment(full.base + full.committed, 0, 0, false, 0)],
       rotation := Busy, spareReady := false,
       capacity := Capacity(s.lastDispatched, 0, sealRoom))
  }

  lemma SwappedKeeps(s: State, sealRoom: bool, start: nat, window: nat, maxActive: nat)
    requires Consistent(s, start, window, maxActive) && SwapReady(s)
    ensures Consistent(Swapped(s, sealRoom), start, window, maxActive)
    ensures Extends(s.segments, Swapped(s, sealRoom).segments)
  {
    hide Flat, TotalSize;
    var t := Swapped(s, sealRoom);
    forall j | 0 < j < |t.segments| ensures FollowsAt(t.segments, j) {
      if j < |s.segments| { assert FollowsAt(s.segments, j); }
    }
    forall i | 0 <= i < |t.batches| ensures InSegment(t.batches[i], t.segments) {
      assert InSegment(s.batches[i], s.segments);
      ExtendsKeeps(s.segments, t.segments, s.batches[i], 0);
    }
  }

  // ------------------------------------------------------------ completion

  /** The front batch's first record completes. */
  function Completed(s: State): State
    requires s.batches != [] && s.batches[0].appends != [] && s.pendingRecords > 0
  {
    var front := s.batches[0];
    var size := front.appends[0].size;
    s.(batches := [front.(appends := front.appends[1..])] + s.batches[1..],
       pendingRecords := s.pendingRecords - 1,
       pendingBytes := if size <= s.pendingBytes then s.pendingBytes - size else 0,
       nextCompletion := s.nextCompletion + 1)
  }

  lemma FrontIsNext(s: State, start: nat)
    requires LineOk(s) && WriterOk(s, start) && s.batches != [] && s.batches[0].appends != []
    ensures s.pendingRecords > 0 && s.batches[0].appends[0].seqno == s.nextCompletion
    ensures InSegment(s.batches[0], s.segments)
  {
    assert Flat(s.batches)[0] == s.batches[0].appends[0];
  }

  lemma CompletedFlat(s: State)
    requires s.batches != [] && s.batches[0].appends != [] && s.pendingRecords > 0
    ensures Flat(s.batches) == [s.batches[0].appends[0]] + Flat(Completed(s).batches)
    ensures TotalSize(Flat(s.batches)) == s.batches[0].appends[0].size + TotalSize(Flat(Completed(s).batches))
  {
    var front := s.batches[0];
    var t := Completed(s);
    assert t.batches[1..] == s.batches[1..];
    assert front.appends == [front.appends[0]] + front.appends[1..];
    TotalSizeAppend([front.appends[0]], Flat(t.batches));
    SingleAccounted(front.appends[0].(admissionEnd := front.appends[0].size), 0);
    assert [front.appends[0]][..0] == [];
  }

  lemma CompletedKeeps(s: State, start: nat, window: nat, maxActive: nat)
    requires Consistent(s, start, window, maxActive) && s.batches != [] && s.batches[0].appends != []
    requires s.pendingRecords > 0
    ensures Consistent(Completed(s), start, window, maxActive)
  {
    CompletedFlat(s);
    hide Flat, TotalSize, Accounted;
    var t := Completed(s);
    forall i | 0 <= i < |Flat(t.batches)|
      ensures Flat(t.batches)[i].seqno == t.nextCompletion + i && Flat(t.batches)[i].size >= HEADER_LEN
    {
      assert Flat(t.batches)[i] == Flat(s.batches)[i + 1];
    }
    forall i | 0 <= i < |t.batches| ensures InSegment(t.batches[i], t.segments) {
      assert InSegment(s.batches[i], s.segments);
    }
    NothingPending(Flat(t.batches));
  }

  lemma NothingPending(appends: seq<Append>)
    ensures appends == [] ==> TotalSize(appends) == 0
  {
  }

  function Popped(s: State): State
    requires s.batches != []
  {
    s.(batches := s.batches[1..])
  }

  lemma PoppedKeeps(s: State, start: nat, window: nat, maxActive: nat)
    requires Consistent(s, start, window, maxActive) && s.batches != [] && s.batches[0].appends == []
    ensures Consistent(Popped(s), start, window, maxActive)
  {
    assert Flat(s.batches) == Flat(s.batches[1..]);
  }

  // --------------------------------------------------------------- the engine

  class Pipeline {
    const start: nat
    const window: nat
    const maxActive: nat
    var s: State
    var stopped: bool
    ghost var receipts: seq<Receipt>

    /** While it runs, every receipt so far is a success; once stopped no success can follow. */
    ghost predicate Valid()
      reads this
    {
      && Consistent(s, start, window, maxActive)
      && Ordered(receipts, start, s.nextCompletion - start, s.segments)
      && (!stopped ==> |receipts| == s.nextCompletion - start)
    }

    /** An engine opened at the recovered end, on an active segment within the ceiling. */
    constructor (start: nat, window: nat, maxActive: nat, existing: nat, sealRoom: bool)
      requires existing <= maxActive
      ensures Valid() && !stopped && receipts == [] && s.nextSeqno == start
      ensures this.start == start && this.window == window && this.maxActive == maxActive
    {
      this.start := start;
      this.window := window;
      this.maxActive := maxActive;
      s := State(start, 0, Capacity(0, existing, sealRoom), 0, [], [], [], 0, 0, start, start, 0,
                 [Segment(start, 0, 0, false, existing)], Idle, false);
      stopped := false;
      receipts := [];
    }

    /** The admission checks of `enqueue_inner`, against the capacity published last. */
    method CheckAdmission(seqno: nat, payload: nat) returns (r: Result<nat, AdmitError>)
      requires Valid()
      modifies this`s
      ensures Valid()
      ensures r.Ok? ==> r.value == payload + HEADER_LEN && s == Checked(old(s), r.value) && seqno == s.nextSeqno
      ensures r.Err? ==> s == old(s).(intent := 0)
      ensures r == Err(Closed) <==> stopped
      ensures r == Err(OutOfOrder) <==> !stopped && seqno != old(s).nextSeqno
      ensures r == Err(SequenceExhausted) <==> !stopped && seqno == old(s).nextSeqno == U64_MAX
      ensures r == Err(RecordTooLarge) <==>
              !stopped && seqno == old(s).nextSeqno != U64_MAX && payload > U32_MAX - HEADER_LEN
      ensures r == Err(SegmentDirectoryFull) <==>
              !stopped && seqno == old(s).nextSeqno != U64_MAX && payload <= U32_MAX - HEADER_LEN &&
              !old(s).capacity.sealRoom
      ensures r.Ok? <==>
              !stopped && seqno == old(s).nextSeqno && seqno != U64_MAX && payload <= U32_MAX - HEADER_LEN &&
              old(s).capacity.sealRoom &&
              old(s).capacity.existing + (old(s).totalAdmitted - old(s).capacity.admissionStart) + payload + HEADER_LEN
                  <= maxActive
    {
      s := s.(intent := 0);
      if stopped { return Err(Closed); }
      if seqno != s.nextSeqno { return Err(OutOfOrder); }
      if seqno == U64_MAX { return Err(SequenceExhausted); }
      if payload > U32_MAX - HEADER_LEN { return Err(RecordTooLarge); }
      if !s.capacity.sealRoom { return Err(SegmentDirectoryFull); }
      var size := payload + HEADER_LEN;
      var current := s.capacity.existing + (s.totalAdmitted - s.capacity.admissionStart);
      if current + size > maxActive { return Err(ActiveSegmentFull); }
      s := Checked(s, size);
      r := Ok(size);
    }

    /** The permits arrived; anything may have happened since the check. */
    method SendAdmitted()
      requires Valid() && s.intent >= HEADER_LEN
      modifies this`s
      ensures Valid() && s == Sent(old(s))
    {
      SentKeeps(s, start, window, maxActive);
      s := Sent(s);
    }

    method DrainAvailable()
      requires Valid()
      modifies this`s
      ensures Valid() && s == Drained(old(s))
    {
      DrainedKeeps(s, start, window, maxActive);
      s := Drained(s);
    }

    /** A segment's commit tracker moves. */
    method Progress(k: nat, committed: nat, failed: bool)
      requires Valid() && MayProgress(s, k, committed, failed)
      modifies this`s
      ensures Valid() && s == Progressed(old(s), k, committed, failed)
    {
      ProgressedKeeps(s, k, committed, failed, start, window, maxActive);
      OrderedExtends(receipts, start, s.nextCompletion - start, s.segments,
                     Progressed(s, k, committed, failed).segments);
      s := Progressed(s, k, committed, failed);
    }

    /** Rotation control: due, settled, or a spare provisioned. */
    method Rotate(rotation: Rotation, spareReady: bool)
      requires Valid()
      modifies this`s
      ensures Valid() && s == old(s).(rotation := rotation, spareReady := spareReady)
    {
      s := s.(rotation := rotation, spareReady := spareReady);
    }

    method SwapIfReady(sealRoom: bool)
      requires Valid()
      modifies this`s
      ensures Valid() && s == if SwapReady(old(s)) then Swapped(old(s), sealRoom) else old(s)
      ensures var full := Active(old(s).segments);
              var due := old(s).rotation == Due && old(s).spareReady && full.admitted == full.committed > 0;
              && |s.segments| == |old(s).segments| + (if due then 1 else 0)
              && s.segments[..|old(s).segments|] == old(s).segments
              && (due ==> Active(s.segments).base == full.base + full.committed && Active(s.segments).admitted == 0)
              && (due ==> s.capacity == Capacity(s.lastDispatched, 0, sealRoom) && s.rotation == Busy && !s.spareReady)
              && (!due ==> s == old(s))
    {
      if SwapReady(s) {
        SwappedKeeps(s, sealRoom, start, window, maxActive);
        OrderedExtends(receipts, start, s.nextCompletion - start, s.segments, Swapped(s, sealRoom).segments);
        s := Swapped(s, sealRoom);
      }
    }

    /** Stops the engine: everything pending, queued and sent fails, each number once. */
    method Stop()
      requires Valid()
      modifies this`stopped, this`receipts
      ensures Valid() && stopped && s.nextCompletion <= s.nextSeqno
      ensures receipts == old(receipts) + Receipts(s.nextCompletion, s.nextSeqno, false)
    {
      FailuresAreNumbered(s);
      stopped := true;
      receipts := receipts + Failures(Flat(s.batches) + s.queue + s.channel);
    }

    /** What completion may change. */
    ghost predicate OnlyCompleted(before: State)
      reads this
    {
      && s == before.(batches := s.batches, pendingRecords := s.pendingRecords, pendingBytes := s.pendingBytes,
                      nextCompletion := s.nextCompletion)
      && before.nextCompletion <= s.nextCompletion
      && s.nextCompletion + s.pendingRecords == before.nextCompletion + before.pendingRecords
    }

    /**
     The completion loop. It acknowledges every pending number, in order, up to the first
     one no quorum holds. The engine stops exactly when that one's segment has failed, and
     then everything unresolved fails, each number once; otherwise it goes on.
     */
    method CompleteReady()
      requires Valid() && !stopped
      modifies this`s, this`stopped, this`receipts
      ensures Valid() && OnlyCompleted(old(s))
      ensures forall x :: old(s).nextCompletion <= x < s.nextCompletion ==> Backed(x, s.segments)
      ensures s.pendingRecords > 0 ==> !Backed(s.nextCompletion, s.segments)
      ensures stopped <==> s.pendingRecords > 0 && LostIn(s.nextCompletion, s.segments)
      ensures !stopped ==> receipts == old(receipts) + Receipts(old(s).nextCompletion, s.nextCompletion, true)
      ensures s.nextCompletion <= s.nextSeqno
      ensures stopped ==>
                receipts == old(receipts) + Receipts(old(s).nextCompletion, s.nextCompletion, true) +
                            Receipts(s.nextCompletion, s.nextSeqno, false)
    {
      hide Consistent, Ordered, Backed, LostIn;
      while s.batches != []
        invariant Valid() && !stopped && OnlyCompleted(old(s))
        invariant receipts == old(receipts) + Receipts(old(s).nextCompletion, s.nextCompletion, true)
        decreases |s.batches|
      {
        var index := s.batches[0].segment;
        FrontInRange(s, start, window, maxActive);
        ghost var count := |s.batches|;
        var committedEnd := s.segments[index].base + s.segments[index].committed;
        while s.batches[0].appends != [] && s.batches[0].appends[0].seqno < committedEnd
          invariant Valid() && !stopped && OnlyCompleted(old(s))
          invariant receipts == old(receipts) + Receipts(old(s).nextCompletion, s.nextCompletion, true)
          invariant s.batches != [] && s.batches[0].segment == index && |s.batches| == count
          decreases |s.batches[0].appends|
        {
          ReceiptsSnoc(old(s).nextCompletion, s.nextCompletion, true);
          CompleteFront();
        }
        if s.batches[0].appends == [] {
          PoppedKeeps(s, start, window, maxActive);
          s := Popped(s);
        } else {
          FrontInRange(s, start, window, maxActive);
          CompletedAreBacked();
          if s.segments[index].failed { Stop(); }
          return;
        }
      }
      CompletedAreBacked();
      NoBatches(s, start, window, maxActive);
    }

    /** Every completed number is held by a quorum of its segment. */
    lemma CompletedAreBacked()
      requires Valid() && !stopped
      ensures forall x :: start <= x < s.nextCompletion ==> Backed(x, s.segments)
    {
      forall x | start <= x < s.nextCompletion ensures Backed(x, s.segments) {
        assert receipts[x - start] == Receipt(start + (x - start), true);
      }
    }

    /** Acknowledges the front record, which its segment's watermark covers. */
    method CompleteFront()
      requires Valid() && !stopped && s.batches != [] && s.batches[0].appends != []
      requires s.batches[0].segment < |s.segments|
      requires var held := s.segments[s.batches[0].segment];
               s.batches[0].appends[0].seqno < held.base + held.committed
      modifies this`s, this`receipts
      ensures Valid() && s == Completed(old(s)) && old(s).pendingRecords > 0
      ensures receipts == old(receipts) + [Receipt(old(s).nextCompletion, true)]
    {
      FrontIsNext(s, start);
      CompletedKeeps(s, start, window, maxActive);
      assert HeldIn(s.segments[s.batches[0].segment], s.nextCompletion);
      receipts := receipts + [Receipt(s.nextCompletion, true)];
      s := Completed(s);
    }

    /** How much of the queue the window takes; an oversized record goes alone, once nothing is pending. */
    method TakeWindow() returns (take: nat, ghost room: nat)
      requires Valid() && s.pendingBytes < window
      ensures take <= |s.queue| && (take > 0 ==> Fits(s, take, window))
      ensures take == 0 <==> !Dispatchable(s, window)
      ensures take < |s.queue| ==> s.pendingBytes + TotalSize(s.queue[..take + 1]) > window
    {
      hide Consistent, Ordered;
      take := 0;
      var left, bytes := window - s.pendingBytes, 0;
      while take < |s.queue|
        invariant take <= |s.queue| && bytes == TotalSize(s.queue[..take])
        invariant (s.pendingBytes + bytes <= window && left == window - s.pendingBytes - bytes) ||
                  (take == 1 && s.pendingRecords == 0 && left == 0)
        invariant s.pendingBytes + bytes + left >= window && (take > 0 ==> Dispatchable(s, window))
        decreases |s.queue| - take
      {
        var size := s.queue[take].size;
        QueueHasSizes(s, start, window, maxActive, take);
        if size > left && (s.pendingRecords != 0 || take != 0) { break; }
        assert s.queue[..take + 1][..take] == s.queue[..take];
        left := if size <= left then left - size else 0;
        bytes := bytes + size;
        take := take + 1;
      }
      if take < |s.queue| {
        assert s.queue[..take + 1][..take] == s.queue[..take];
      }
      room := left;
    }

    /** Whether dispatch waits for the swap boundary. */
    predicate Paused()
      reads this
    {
      s.rotation == Due && s.spareReady
    }

    /** What dispatching may change: records move from the queue to the end of the pending line. */
    ghost predicate OnlyDispatched(before: State)
      reads this
    {
      && s == before.(queue := s.queue, batches := s.batches, segments := s.segments,
                      lastDispatched := s.lastDispatched, pendingRecords := s.pendingRecords,
                      pendingBytes := s.pendingBytes)
      && Flat(s.batches) + s.queue == Flat(before.batches) + before.queue
      && |before.batches| <= |s.batches| && s.batches[..|before.batches|] == before.batches
      && Extends(before.segments, s.segments) && |s.segments| == |before.segments|
    }

    /**
     The dispatch loop, for a writer that takes `accepted` windows. Each window's records
     get exactly the numbers their callers were admitted under, so the engine's mismatch
     branch is never taken. It goes on until dispatch is paused or nothing fits, and stops
     the engine exactly when the writer refuses a window.
     */
    method Dispatch(accepted: nat)
      requires Valid() && !stopped
      modifies this`s, this`stopped, this`receipts
      ensures Valid() && OnlyDispatched(old(s)) && s.nextCompletion <= s.nextSeqno
      ensures |s.batches| <= |old(s).batches| + accepted
      ensures stopped ==> |s.batches| == |old(s).batches| + accepted
      ensures stopped <==> !(s.rotation == Due && s.spareReady) && Dispatchable(s, window)
      ensures receipts == old(receipts) + if stopped then Receipts(s.nextCompletion, s.nextSeqno, false) else []
    {
      hide Consistent, Ordered, Fits, Extends, Dispatchable;
      var windows := 0;
      SameSegments(s);
      LineIsNumbered(s, start, window, maxActive);
      while !Paused() && s.queue != [] && s.pendingBytes < window
        invariant Valid() && !stopped && OnlyDispatched(old(s)) && receipts == old(receipts)
        invariant |s.batches| == |old(s).batches| + windows && windows <= accepted
        decreases |s.queue|
      {
        var take, room := TakeWindow();
        if take == 0 { return; }
        DispatchedKeeps(s, take, start, window, maxActive);
        if windows == accepted {
          Stop();
          return;
        }
        windows := windows + 1;
        OrderedExtends(receipts, start, s.nextCompletion - start, s.segments, Dispatched(s, take).segments);
        var first, end := Active(s.segments).base + Active(s.segments).admitted,
            Active(s.segments).base + Active(s.segments).admitted + take;
        assert first == s.queue[0].seqno && end == s.queue[take - 1].seqno + 1;
        DispatchMoves(old(s), s, take);
        s := Dispatched(s, take);
      }
      if !Paused() { Undispatchable(s, window); }
    }

    /** What any reader of the receipts may conclude, at any moment. */
    lemma ReceiptsAreOrdered(i: nat, j: nat)
      requires Valid() && i < j < |receipts| && receipts[j].ok
      ensures receipts[i].ok && receipts[j].seqno == receipts[i].seqno + (j - i)
      ensures Backed(receipts[j].seqno, s.segments)
    {
    }

    /** The window is exceeded only by one oversized record alone. */
    lemma PendingWithinWindow()
      requires Valid()
      ensures s.pendingBytes <= window || s.pendingRecords == |Flat(s.batches)| == 1
    {
    }

    /** The active segment never outgrows the ceiling, whatever was admitted, dispatched and swapped. */
    lemma ActiveSegmentWithinCeiling()
      requires Valid()
      ensures s.segments != [] && Active(s.segments).bytes <= maxActive
    {
    }
  }

  lemma QueueHasSizes(s: State, start: nat, window: nat, maxActive: nat, i: nat)
    requires Consistent(s, start, window, maxActive) && i < |s.queue|
    ensures s.queue[i].size >= HEADER_LEN
  {
  }

  lemma NoBatches(s: State, start: nat, window: nat, maxActive: nat)
    requires Consistent(s, start, window, maxActive) && s.batches == []
    ensures s.pendingRecords == 0 && start <= s.nextCompletion <= s.nextSeqno
  {
  }

  lemma FrontInRange(s: State, start: nat, window: nat, maxActive: nat)
    requires Consistent(s, start, window, maxActive) && s.batches != []
    ensures s.batches[0].segment < |s.segments| && start <= s.nextCompletion <= s.nextSeqno
    ensures var front := s.batches[0];
            front.appends != [] ==>
              && s.pendingRecords > 0 && front.appends[0].seqno == s.nextCompletion
              && AdmittedIn(s.segments[front.segment], s.nextCompletion)
              && (Backed(s.nextCompletion, s.segments) <==> HeldIn(s.segments[front.segment], s.nextCompletion))
              && (LostIn(s.nextCompletion, s.segments) <==> s.segments[front.segment].failed)
  {
    assert InSegment(s.batches[0], s.segments);
    if s.batches[0].appends != [] {
      FrontIsNext(s, start);
      OnlyItsSegment(s.segments, start, s.batches[0].segment, s.nextCompletion);
    }
  }
}
