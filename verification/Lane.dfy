/**
 What one append lane keeps: the batches it retains until they are durable, their
 release, the suffix rebuilt after a session resume, and how the replica's object
 mirrors the bytes the lane was handed.
 */
module Lane {
  import opened Wrappers
  import opened Transport
  import opened Records
  import opened Packing
  import opened Replica

  // --------------------------------------------------------------- batches

  /** One admitted window: its chunks and the stream offset after each. */
  datatype Batch = Batch(start: nat, chunks: seq<Bytes>, boundaries: seq<nat>)

  datatype Retained = Retained(batch: Batch, nextChunk: nat)

  predicate ValidBatch(b: Batch) {
    && b.chunks != [] && |b.chunks| == |b.boundaries|
    && forall i {:trigger b.chunks[i]} :: 0 <= i < |b.chunks| ==>
      b.chunks[i] != [] && b.boundaries[i] == ChunkStart(b, i) + |b.chunks[i]|
  }

  function ChunkStart(b: Batch, i: nat): nat
    requires i <= |b.boundaries|
  {
    if i == 0 then b.start else b.boundaries[i - 1]
  }

  function BatchEnd(b: Batch): nat {
    if b.boundaries == [] then b.start else b.boundaries[|b.boundaries| - 1]
  }

  lemma {:induction false} StartsIncrease(b: Batch, i: nat, j: nat)
    requires ValidBatch(b) && i <= j <= |b.chunks|
    ensures ChunkStart(b, i) + (j - i) <= ChunkStart(b, j)
    decreases j - i
  {
    if i < j {
      StartsIncrease(b, i, j - 1);
      assert b.chunks[j - 1] != [];
    }
  }

  /** The batch carries the stream's bytes at its offsets. */
  predicate Carries(b: Batch, stream: Bytes) {
    && ValidBatch(b) && BatchEnd(b) <= |stream|
    && forall i :: 0 <= i < |b.chunks| ==> ChunkAt(b, i, stream)
  }

  predicate ChunkAt(b: Batch, i: nat, stream: Bytes)
    requires i < |b.chunks| && ValidBatch(b)
  {
    b.chunks[i] != [] && b.boundaries[i] <= |stream| && b.chunks[i] == stream[ChunkStart(b, i)..b.boundaries[i]]
  }

  /** Consecutive batches covering the stream from `from` to `to`. */
  predicate Chain(batches: seq<Batch>, from: nat, to: nat, stream: Bytes) {
    && from <= to <= |stream|
    && (forall i :: 0 <= i < |batches| ==> Carries(batches[i], stream))
    && (forall i :: 0 < i < |batches| ==> batches[i].start == BatchEnd(batches[i - 1]))
    && (if batches == [] then from == to else batches[0].start == from && BatchEnd(batches[|batches| - 1]) == to)
  }

  function Batches(retained: seq<Retained>): (r: seq<Batch>)
    ensures |r| == |retained| && forall i :: 0 <= i < |r| ==> r[i] == retained[i].batch
  {
    seq(|retained|, i requires 0 <= i < |retained| => retained[i].batch)
  }

  /** Chunks before the cursor are durable. */
  predicate CursorOk(r: Retained, durable: nat) {
    && ValidBatch(r.batch) && r.nextChunk <= |r.batch.chunks|
    && ChunkStart(r.batch, r.nextChunk) <= (if r.nextChunk == 0 then r.batch.start else durable)
  }

  /** The retained batches reach from at most `durable` to `end`, the end of what was written. */
  ghost predicate RetainedOk(retained: seq<Retained>, durable: nat, end: nat, stream: Bytes) {
    && durable <= end <= |stream|
    && (forall i :: 0 <= i < |retained| ==> CursorOk(retained[i], durable))
    && if retained == [] then end == durable
       else retained[0].batch.start <= durable && Chain(Batches(retained), retained[0].batch.start, end, stream)
  }

  // ------------------------------------------------------ acknowledgement

  /** How many boundaries are durable, by binary search. */
  method PartitionPoint(b: Batch, durable: nat) returns (k: nat)
    requires ValidBatch(b)
    ensures k <= |b.boundaries|
    ensures k > 0 ==> b.boundaries[k - 1] <= durable
    ensures k < |b.boundaries| ==> durable < b.boundaries[k]
  {
    var lo, hi := 0, |b.boundaries|;
    while lo < hi
      invariant 0 <= lo <= hi <= |b.boundaries|
      invariant lo > 0 ==> b.boundaries[lo - 1] <= durable
      invariant hi < |b.boundaries| ==> durable < b.boundaries[hi]
    {
      var mid := (lo + hi) / 2;
      if b.boundaries[mid] <= durable { lo := mid + 1; } else { hi := mid; }
    }
    k := lo;
  }

  /**
   `ack_through`: releases every fully durable batch from the front and moves the
   front cursor past its durable chunks. What is left still reaches `end`.
   */
  method AckThrough(durable: nat, retained0: seq<Retained>, ghost was: nat, ghost end: nat, ghost stream: Bytes)
    returns (retained: seq<Retained>)
    requires was <= durable <= end && RetainedOk(retained0, was, end, stream)
    ensures RetainedOk(retained, durable, end, stream)
    ensures retained == [] <==> durable == end
    ensures retained != [] ==>
              var f := retained[0]; f.nextChunk < |f.batch.chunks| && durable < f.batch.boundaries[f.nextChunk]
  {
    hide RetainedOk, Acking;
    retained := retained0;
    AckingStarts(retained, was, durable, end, stream);
    while retained != []
      invariant Acking(retained, durable, end, stream)
      decreases |retained|
    {
      var front := retained[0];
      FrontOk(retained, durable, end, stream);
      var k := PartitionPoint(front.batch, durable);
      CursorBehind(front, durable, k);
      if k == |front.batch.chunks| {
        DropFront(retained, durable, end, stream);
        retained := retained[1..];
      } else {
        StopAt(retained, durable, end, stream, k);
        retained := [Retained(front.batch, k)] + retained[1..];
        return;
      }
    }
    AckedAll(durable, end, stream);
  }

  /** Between releases: like `RetainedOk`, but the front may be wholly durable. */
  ghost predicate Acking(retained: seq<Retained>, durable: nat, end: nat, stream: Bytes) {
    && durable <= end <= |stream|
    && (forall i :: 0 <= i < |retained| ==> CursorOk(retained[i], durable))
    && if retained == [] then end <= durable
       else retained[0].batch.start <= durable && Chain(Batches(retained), retained[0].batch.start, end, stream)
  }

  lemma AckingStarts(retained: seq<Retained>, was: nat, durable: nat, end: nat, stream: Bytes)
    requires was <= durable <= end && RetainedOk(retained, was, end, stream)
    ensures Acking(retained, durable, end, stream)
  {
    forall i | 0 <= i < |retained| ensures CursorOk(retained[i], durable) { assert CursorOk(retained[i], was); }
  }

  lemma AckedAll(durable: nat, end: nat, stream: Bytes)
    requires Acking([], durable, end, stream)
    ensures RetainedOk([], durable, end, stream) && durable == end
  {
  }

  lemma DropFront(retained: seq<Retained>, durable: nat, end: nat, stream: Bytes)
    requires retained != [] && Acking(retained, durable, end, stream) && BatchEnd(retained[0].batch) <= durable
    ensures Acking(retained[1..], durable, end, stream)
  {
    ChainTail(retained, end, stream);
  }

  lemma FrontEndsBy(batches: seq<Batch>, from: nat, to: nat, stream: Bytes)
    requires batches != [] && Chain(batches, from, to, stream)
    ensures BatchEnd(batches[0]) <= to
  {
    ChainEnds(batches, from, to, stream);
  }

  lemma FrontOk(retained: seq<Retained>, durable: nat, end: nat, stream: Bytes)
    requires retained != [] && Acking(retained, durable, end, stream)
    ensures CursorOk(retained[0], durable)
  {
  }

  lemma StopAt(retained: seq<Retained>, durable: nat, end: nat, stream: Bytes, k: nat)
    requires retained != [] && Acking(retained, durable, end, stream)
    requires k < |retained[0].batch.chunks| && retained[0].nextChunk <= k && durable < retained[0].batch.boundaries[k]
    requires k > 0 ==> retained[0].batch.boundaries[k - 1] <= durable
    ensures RetainedOk([Retained(retained[0].batch, k)] + retained[1..], durable, end, stream) && durable < end
  {
    hide Chain, Carries;
    var front := retained[0].batch;
    var left := [Retained(front, k)] + retained[1..];
    assert Batches(left) == Batches(retained);
    StartsIncrease(front, k + 1, |front.chunks|);
    FrontEndsBy(Batches(retained), front.start, end, stream);
    forall i | 0 <= i < |left| ensures CursorOk(left[i], durable) {
      if i > 0 { assert left[i] == retained[i]; }
    }
  }

  /** The cursor never moves back: the partition point is at or past it. */
  lemma CursorBehind(front: Retained, durable: nat, k: nat)
    requires CursorOk(front, durable) && k <= |front.batch.chunks|
    requires k < |front.batch.boundaries| ==> durable < front.batch.boundaries[k]
    ensures front.nextChunk <= k
  {
    if k < front.nextChunk {
      StartsIncrease(front.batch, k + 1, front.nextChunk);
    }
  }

  lemma ChainTail(retained: seq<Retained>, end: nat, stream: Bytes)
    requires retained != [] && Chain(Batches(retained), retained[0].batch.start, end, stream)
    ensures |retained| > 1 ==> retained[1].batch.start == BatchEnd(retained[0].batch)
    ensures |retained| > 1 ==> Chain(Batches(retained[1..]), retained[1].batch.start, end, stream)
    ensures |retained| == 1 ==> end == BatchEnd(retained[0].batch)
  {
    var all, rest := Batches(retained), Batches(retained[1..]);
    assert rest == all[1..];
    if |retained| > 1 {
      assert all[1].start == BatchEnd(all[0]);
      ChainEnds(rest, all[1].start, end, stream);
    }
  }

  /** In a chain every batch ends by the chain's end. */
  lemma {:induction false} ChainEnds(batches: seq<Batch>, from: nat, to: nat, stream: Bytes)
    requires batches != [] && batches[0].start == from && BatchEnd(batches[|batches| - 1]) == to
    requires forall i :: 0 <= i < |batches| ==> Carries(batches[i], stream)
    requires forall i :: 0 < i < |batches| ==> batches[i].start == BatchEnd(batches[i - 1])
    ensures Chain(batches, from, to, stream) && BatchEnd(batches[0]) <= to
    decreases |batches|
  {
    var n := |batches| - 1;
    assert Carries(batches[n], stream);
    StartsIncrease(batches[n], 0, |batches[n].chunks|);
    if n > 0 {
      var front := batches[..n];
      ChainEnds(front, from, BatchEnd(front[n - 1]), stream);
    }
  }

  // ------------------------------------------------------------- the resend

  /** The suffix built so far is the stream from the durable tail to `pos`. */
  predicate Built(suffix: seq<Bytes>, durable: nat, pos: nat, stream: Bytes) {
    && pos <= |stream|
    && if pos <= durable then suffix == [] else suffix != [] && Concat(suffix) == stream[durable..pos]
  }

  lemma BuiltWhole(suffix: seq<Bytes>, durable: nat, pos: nat, next: nat, stream: Bytes, chunk: Bytes)
    requires Built(suffix, durable, pos, stream) && suffix != []
    requires pos <= next <= |stream| && chunk == stream[pos..next]
    ensures Built(suffix + [chunk], durable, next, stream)
  {
    ConcatSnoc(suffix, chunk);
    assert stream[durable..pos] + stream[pos..next] == stream[durable..next];
  }

  lemma BuiltFirst(durable: nat, pos: nat, next: nat, stream: Bytes, chunk: Bytes)
    requires pos <= durable < next <= |stream| && chunk == stream[pos..next]
    ensures Built([chunk[durable - pos..]], durable, next, stream)
  {
    SingleChunk(chunk[durable - pos..]);
    assert chunk[durable - pos..] == stream[durable..next];
  }

  method SuffixOfBatch(r: Retained, durable: nat, suffix0: seq<Bytes>, ghost stream: Bytes) returns (suffix: seq<Bytes>)
    requires CursorOk(r, durable) && Carries(r.batch, stream)
    requires Built(suffix0, durable, r.batch.start, stream)
    ensures Built(suffix, durable, BatchEnd(r.batch), stream)
  {
    hide Concat;
    var b := r.batch;
    suffix := suffix0;
    StartsIncrease(b, 0, r.nextChunk);
    StartsIncrease(b, r.nextChunk, |b.chunks|);
    for index := r.nextChunk to |b.chunks|
      invariant Built(suffix, durable, ChunkStart(b, index), stream)
    {
      var chunk := b.chunks[index];
      assert ChunkAt(b, index, stream);
      if suffix == [] {
        var offset := ChunkStart(b, index);
        var skip := if offset <= durable then durable - offset else 0;
        if skip < |chunk| {
          BuiltFirst(durable, offset, b.boundaries[index], stream, chunk);
          suffix := [chunk[skip..]];
        }
      } else {
        BuiltWhole(suffix, durable, ChunkStart(b, index), b.boundaries[index], stream, chunk);
        suffix := suffix + [chunk];
      }
    }
  }

  /** The retained bytes past the durable tail, a partly durable chunk sliced at it. */
  method ResendSuffix(retained: seq<Retained>, durable: nat, ghost end: nat, ghost stream: Bytes)
    returns (suffix: seq<Bytes>)
    requires RetainedOk(retained, durable, end, stream)
    ensures Concat(suffix) == stream[durable..end]
    ensures suffix == [] <==> durable == end
  {
    hide Concat;
    suffix := [];
    for k := 0 to |retained|
      invariant k < |retained| ==> Built(suffix, durable, retained[k].batch.start, stream)
      invariant k == |retained| != 0 ==> Built(suffix, durable, end, stream)
      invariant retained == [] ==> suffix == []
    {
      assert Batches(retained)[k] == retained[k].batch;
      suffix := SuffixOfBatch(retained[k], durable, suffix, stream);
      if k + 1 < |retained| {
        assert Batches(retained)[k + 1].start == BatchEnd(Batches(retained)[k]);
      }
    }
    NoChunks();
    if durable == end {
      assert stream[durable..end] == [];
    }
  }

  lemma NoChunks()
    ensures Concat([]) == []
  {
  }

  // --------------------------------------------------- lane against replica

  /** End offset of the bytes written to the session. */
  function SentEndOf(retained: seq<Retained>, durable: nat): nat {
    if retained == [] then durable
    else
      var end := BatchEnd(retained[|retained| - 1].batch);
      if end < durable then durable else end
  }

  lemma EndIs(retained: seq<Retained>, durable: nat, end: nat, stream: Bytes)
    requires RetainedOk(retained, durable, end, stream)
    ensures SentEndOf(retained, durable) == end
  {
    if retained != [] {
      var n := |retained| - 1;
      assert Batches(retained)[n] == retained[n].batch;
    }
  }

  /** The lane's session, wherever it is still current, is on the lane's generation. */
  predicate Owned(d: Disk, generation: nat, session: nat) {
    && IdsUsed(d) && generation <= session < d.nextId
    && (d.slot.Some? && d.slot.value.session == session ==> d.slot.value.generation == generation)
  }

  /** While the generation lives, it holds a prefix of what was sent, and all that was reported. */
  predicate Mirrors(d: Disk, generation: nat, durable: nat, end: nat, stream: Bytes) {
    HasGeneration(d, generation) ==>
      var bytes := d.slot.value.bytes;
      durable <= |bytes| <= end && bytes <= stream
  }

  /** A sent suffix, or any part of it that was applied before a failure, keeps the mirror. */
  lemma SendKeepsMirror(d: Disk, generation: nat, session: nat, durable: nat, end: nat, stream: Bytes, offset: nat,
                        k: nat)
    requires Owned(d, generation, session) && Mirrors(d, generation, durable, offset, stream)
    requires durable <= offset <= k <= end <= |stream|
    ensures var after := After(d, Append(Some(session), offset, stream[offset..k]));
            Owned(after, generation, session) && Mirrors(after, generation, durable, end, stream)
    ensures var request := Append(Some(session), offset, stream[offset..k]);
            Serve(d, request).Ok? ==>
              HasGeneration(After(d, request), generation) && After(d, request).slot.value.bytes == stream[..k]
  {
    var request := Append(Some(session), offset, stream[offset..k]);
    if Serve(d, request).Ok? {
      var bytes := d.slot.value.bytes;
      assert bytes == stream[..offset];
      assert bytes + stream[offset..k] == stream[..k];
    }
  }

  /** What other handles may do: anything but append to this object. */
  predicate NoAppends(requests: seq<Request>) {
    forall i :: 0 <= i < |requests| ==> !requests[i].Append?
  }

  function AfterAll(d: Disk, requests: seq<Request>): Disk {
    if requests == [] then d else After(AfterAll(d, requests[..|requests| - 1]), requests[|requests| - 1])
  }

  lemma {:induction false} OthersKeepMirror(d: Disk, requests: seq<Request>, generation: nat, session: nat,
                                            durable: nat, end: nat, stream: Bytes)
    requires NoAppends(requests) && Owned(d, generation, session) && Mirrors(d, generation, durable, end, stream)
    ensures Owned(AfterAll(d, requests), generation, session)
    ensures Mirrors(AfterAll(d, requests), generation, durable, end, stream)
    decreases |requests|
  {
    if requests != [] {
      var n := |requests| - 1;
      OthersKeepMirror(d, requests[..n], generation, session, durable, end, stream);
      assert !requests[n].Append?;
    }
  }
}
