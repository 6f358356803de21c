/**
 The lane's runtime: held batches, flush slots, sends that may fail or be partly
 applied, and session recovery. `Valid` says that the replica's object, while it
 is still this lane's generation, holds a prefix of what the lane was handed, and
 at least what the lane reported durable.
 */
module LaneSession {
  import opened Wrappers
  import opened Transport
  import opened Records
  import opened Packing
  import opened Replica
  import opened Lane

  const MAX_OUTSTANDING_FLUSHES: nat := 2
  const LANE_UNFLUSHED_SEND_BYTES: nat := 1_048_576

  datatype LaneDeath = Stalled | Lost(code: TransportCode)

  /** The last observation of the durable tail once a deadline passed. */
  datatype Confirm =
    | Advanced(claim: nat, error: Option<TransportCode>)
    | NoProgress
    | SessionFailed(code: TransportCode)

  /** How a call ends: answered, failed after some bytes were applied, or unanswered at the deadline. */
  datatype Fate = Answered | Broke(applied: nat, code: TransportCode) | TimedOut(applied: nat, confirm: Confirm)

  /** Everything that happens around one call. */
  datatype Turn = Turn(others: seq<Request>, fate: Fate)

  datatype Seen = SeenOk | SeenError(code: TransportCode) | SeenTimeout(confirm: Confirm)

  predicate Undisturbed(turns: seq<Turn>, calls: nat) {
    calls <= |turns| && forall i :: 0 <= i < calls ==> turns[i] == Turn([], Answered)
  }

  /** The session is the object's current one and may still append. */
  predicate SessionLives(d: Disk, session: nat) {
    d.slot.Some? && !d.slot.value.finalized && d.slot.value.session == session
  }

  predicate Quiet(turns: seq<Turn>) {
    forall i :: 0 <= i < |turns| ==> NoAppends(turns[i].others)
  }

  function TotalBytes(batches: seq<Batch>): nat {
    if batches == [] then 0 else TotalBytes(batches[1..]) + Size(batches[0])
  }

  function Size(b: Batch): nat { if BatchEnd(b) < b.start then 0 else BatchEnd(b) - b.start }

  lemma {:induction false} TotalBytesSnoc(batches: seq<Batch>, last: Batch)
    ensures TotalBytes(batches + [last]) == TotalBytes(batches) + Size(last)
    decreases |batches|
  {
    if batches == [] {
      assert [] + [last] == [last];
    } else {
      TotalBytesSnoc(batches[1..], last);
      assert (batches + [last])[1..] == batches[1..] + [last];
    }
  }

  lemma {:induction false} TotalBytesSplit(batches: seq<Batch>, k: nat)
    requires k <= |batches|
    ensures TotalBytes(batches) == TotalBytes(batches[..k]) + TotalBytes(batches[k..])
    decreases k
  {
    if k == 0 {
      assert batches[0..] == batches;
    } else {
      TotalBytesSplit(batches[1..], k - 1);
      assert batches[..k][1..] == batches[1..][..k - 1] && batches[k..] == batches[1..][k - 1..];
    }
  }

  function AllChunks(batches: seq<Batch>): seq<Bytes> {
    if batches == [] then [] else AllChunks(batches[..|batches| - 1]) + batches[|batches| - 1].chunks
  }

  lemma {:induction false} ChunksConcat(b: Batch, i: nat, stream: Bytes)
    requires Carries(b, stream) && i <= |b.chunks|
    ensures b.start <= ChunkStart(b, i) <= |stream|
    ensures Concat(b.chunks[..i]) == stream[b.start..ChunkStart(b, i)]
  {
    if i > 0 {
      ChunksConcat(b, i - 1, stream);
      assert ChunkAt(b, i - 1, stream);
      assert b.chunks[..i] == b.chunks[..i - 1] + [b.chunks[i - 1]];
      ConcatSnoc(b.chunks[..i - 1], b.chunks[i - 1]);
    } else {
      StartsIncrease(b, 0, |b.chunks|);
    }
  }

  /** A group's chunks, end to end, are the stream between its ends. */
  lemma {:induction false} GroupConcat(batches: seq<Batch>, from: nat, to: nat, stream: Bytes)
    requires Chain(batches, from, to, stream)
    ensures Concat(AllChunks(batches)) == stream[from..to]
    decreases |batches|
  {
    if batches != [] {
      hide Carries, Concat;
      var n := |batches| - 1;
      var mid := batches[n].start;
      SplitChain(batches, from, to, stream, n);
      GroupConcat(batches[..n], from, mid, stream);
      assert Carries(batches[n], stream);
      WholeBatch(batches[n], stream);
      ConcatAppend(AllChunks(batches[..n]), batches[n].chunks);
      assert stream[from..mid] + stream[mid..to] == stream[from..to];
    } else {
      assert stream[from..to] == [];
    }
  }

  lemma WholeBatch(b: Batch, stream: Bytes)
    requires Carries(b, stream)
    ensures b.start <= BatchEnd(b) <= |stream| && Concat(b.chunks) == stream[b.start..BatchEnd(b)]
  {
    ChunksConcat(b, |b.chunks|, stream);
    assert b.chunks[..|b.chunks|] == b.chunks;
  }

  /** Where a chain is cut after `k` batches. */
  function CutPoint(batches: seq<Batch>, from: nat, k: nat): nat
    requires k <= |batches|
  {
    if k == 0 then from else BatchEnd(batches[k - 1])
  }

  lemma SplitChain(batches: seq<Batch>, from: nat, to: nat, stream: Bytes, k: nat)
    requires Chain(batches, from, to, stream) && k <= |batches|
    ensures from <= CutPoint(batches, from, k) <= to
    ensures Chain(batches[..k], from, CutPoint(batches, from, k), stream)
    ensures Chain(batches[k..], CutPoint(batches, from, k), to, stream)
    ensures k < |batches| ==> batches[k].start == CutPoint(batches, from, k)
  {
    if k > 0 {
      ChainEnds(batches[..k], from, BatchEnd(batches[k - 1]), stream);
    }
    if k < |batches| {
      ChainEnds(batches[k..], batches[k].start, to, stream);
    }
  }

  function IntoRetained(batches: seq<Batch>): (r: seq<Retained>)
    ensures |r| == |batches| && forall i :: 0 <= i < |r| ==> r[i] == Retained(batches[i], 0)
  {
    seq(|batches|, i requires 0 <= i < |batches| => Retained(batches[i], 0))
  }

  lemma JoinChains(a: seq<Batch>, b: seq<Batch>, from: nat, mid: nat, to: nat, stream: Bytes)
    requires Chain(a, from, mid, stream) && Chain(b, mid, to, stream)
    ensures Chain(a + b, from, to, stream)
  {
    hide Carries;
  }

  /** Writing a group moves the sent end to its end. */
  lemma RetainGroup(retained: seq<Retained>, durable: nat, mid: nat, to: nat, stream: Bytes, group: seq<Batch>)
    requires RetainedOk(retained, durable, mid, stream) && Chain(group, mid, to, stream)
    ensures RetainedOk(retained + IntoRetained(group), durable, to, stream)
  {
    hide Chain;
    var all := retained + IntoRetained(group);
    assert Batches(all) == Batches(retained) + group;
    GroupValid(group, mid, to, stream);
    forall i | 0 <= i < |all| ensures CursorOk(all[i], durable) {
      if i < |retained| { assert all[i] == retained[i]; }
    }
    if retained != [] {
      JoinChains(Batches(retained), group, retained[0].batch.start, mid, to, stream);
    } else {
      assert Batches(all) == group;
    }
  }

  lemma GroupValid(group: seq<Batch>, from: nat, to: nat, stream: Bytes)
    requires Chain(group, from, to, stream)
    ensures forall i :: 0 <= i < |group| ==> ValidBatch(group[i])
    ensures from <= to <= |stream| && (group == [] ==> from == to) && (group != [] ==> group[0].start == from)
  {
    forall i | 0 <= i < |group| ensures ValidBatch(group[i]) { assert Carries(group[i], stream); }
  }

  // What the lane holds is unaffected by bytes admitted later.

  lemma CarriesExtends(b: Batch, stream: Bytes, more: Bytes)
    requires Carries(b, stream)
    ensures Carries(b, stream + more)
  {
    forall i | 0 <= i < |b.chunks| ensures ChunkAt(b, i, stream + more) {
      assert ChunkAt(b, i, stream);
      StartsIncrease(b, i, i + 1);
    }
  }

  lemma ChainExtends(batches: seq<Batch>, from: nat, to: nat, stream: Bytes, more: Bytes)
    requires Chain(batches, from, to, stream)
    ensures Chain(batches, from, to, stream + more)
  {
    hide Carries;
    forall i | 0 <= i < |batches|
      ensures Carries(batches[i], stream + more)
    {
      CarriesExtends(batches[i], stream, more);
    }
  }

  lemma RetainedExtends(retained: seq<Retained>, durable: nat, end: nat, stream: Bytes, more: Bytes)
    requires RetainedOk(retained, durable, end, stream)
    ensures RetainedOk(retained, durable, end, stream + more)
  {
    hide Chain;
    if retained != [] {
      ChainExtends(Batches(retained), retained[0].batch.start, end, stream, more);
    }
  }

  lemma {:induction false} ConcatLength(b: Batch, n: nat)
    requires ValidBatch(b) && n <= |b.chunks|
    ensures ChunkStart(b, n) == b.start + |Concat(b.chunks[..n])|
  {
    if n > 0 {
      ConcatLength(b, n - 1);
      assert b.chunks[..n] == b.chunks[..n - 1] + [b.chunks[n - 1]];
      ConcatSnoc(b.chunks[..n - 1], b.chunks[n - 1]);
    }
  }

  lemma {:induction false} ChunkInConcat(b: Batch, i: nat, n: nat, before: Bytes)
    requires ValidBatch(b) && i < n <= |b.chunks| && b.start == |before|
    ensures ChunkStart(b, i) <= b.boundaries[i] <= |before + Concat(b.chunks[..n])|
    ensures b.chunks[i] == (before + Concat(b.chunks[..n]))[ChunkStart(b, i)..b.boundaries[i]]
    decreases n
  {
    hide Concat;
    var front, last := b.chunks[..n - 1], b.chunks[n - 1];
    assert b.chunks[..n] == front + [last];
    ConcatSnoc(front, last);
    ConcatLength(b, n - 1);
    var a := before + Concat(front);
    assert before + Concat(b.chunks[..n]) == a + last;
    if i < n - 1 {
      ChunkInConcat(b, i, n - 1, before);
      SliceOfFront(a, last, ChunkStart(b, i), b.boundaries[i]);
    } else {
      SliceOfLast(a, last);
    }
  }

  lemma SliceOfFront(a: Bytes, last: Bytes, from: nat, to: nat)
    requires from <= to <= |a|
    ensures (a + last)[from..to] == a[from..to]
  {
  }

  lemma SliceOfLast(a: Bytes, last: Bytes)
    ensures (a + last)[|a|..|a| + |last|] == last
  {
  }

  lemma NewBatchCarries(b: Batch, stream: Bytes)
    requires ValidBatch(b) && b.start == |stream|
    ensures Carries(b, stream + Concat(b.chunks)) && BatchEnd(b) == |stream + Concat(b.chunks)|
  {
    hide Concat;
    var n := |b.chunks|;
    assert b.chunks[..n] == b.chunks;
    ConcatLength(b, n);
    forall i | 0 <= i < n ensures ChunkAt(b, i, stream + Concat(b.chunks)) {
      ChunkInConcat(b, i, n, stream);
    }
  }

  lemma HoldChain(held: seq<Batch>, from: nat, stream: Bytes, b: Batch)
    requires Chain(held, from, |stream|, stream) && ValidBatch(b) && b.start == |stream|
    ensures var wider := stream + Concat(b.chunks); Chain(held + [b], from, |wider|, wider)
  {
    hide Carries, Concat, ValidBatch, BatchEnd;
    var wider := stream + Concat(b.chunks);
    NewBatchCarries(b, stream);
    ChainExtends(held, from, |stream|, stream, Concat(b.chunks));
    JoinChains(held, [b], from, |stream|, |wider|, wider);
  }

  /** A durable-tail report: never more than the object holds. */
  method Observe(d: Disk, generation: nat, claim: nat) returns (tail: nat)
    ensures HasGeneration(d, generation) ==>
              tail <= |d.slot.value.bytes| && (claim <= |d.slot.value.bytes| ==> tail == claim)
    ensures !HasGeneration(d, generation) ==> tail == 0
  {
    if !HasGeneration(d, generation) { return 0; }
    var size := |d.slot.value.bytes|;
    tail := if claim < size then claim else size;
  }

  class LaneRuntime {
    const store: Store
    const generation: nat
    const session: nat
    var durable: nat
    var retained: seq<Retained>
    var held: seq<Batch>
    var heldBytes: nat
    var flushes: seq<nat>
    ghost var stream: Bytes

    function SentEnd(): nat
      reads this
    {
      SentEndOf(retained, durable)
    }

    ghost predicate Valid()
      reads this, store
    {
      && Owned(store.disk, generation, session)
      && RetainedOk(retained, durable, SentEnd(), stream)
      && Chain(held, SentEnd(), |stream|, stream)
      && heldBytes == TotalBytes(held)
      && |flushes| <= MAX_OUTSTANDING_FLUSHES
      && Mirrors(store.disk, generation, durable, SentEnd(), stream)
    }

    /** A lane starts from the token of a session it just opened. */
    constructor (store: Store, token: Token)
      requires IdsUsed(store.disk) && store.disk.slot.Some?
      requires var o := store.disk.slot.value; token == Token(o.generation, o.session, |o.bytes|)
      ensures Valid() && this.store == store && generation == token.generation && session == token.session
      ensures durable == token.persistedSize && stream == store.disk.slot.value.bytes && held == []
    {
      this.store := store;
      generation := token.generation;
      session := token.session;
      durable := token.persistedSize;
      retained := [];
      held := [];
      heldBytes := 0;
      flushes := [];
      stream := store.disk.slot.value.bytes;
    }

    /** Other handles act on the object between this lane's calls. */
    method Interfere(others: seq<Request>)
      requires Valid() && NoAppends(others)
      modifies store
      ensures Valid() && store.disk == AfterAll(old(store.disk), others)
    {
      OthersKeepMirror(store.disk, others, generation, session, durable, SentEnd(), stream);
      store.disk := AfterAll(store.disk, others);
    }

    /** Advances the durable tail and releases what it covers. */
    method PublishProgress(tail: nat)
      requires Valid() && tail <= SentEnd()
      requires HasGeneration(store.disk, generation) ==> tail <= |store.disk.slot.value.bytes|
      modifies this`durable, this`retained
      ensures Valid() && SentEnd() == old(SentEnd())
      ensures durable == if old(durable) < tail then tail else old(durable)
      ensures retained == [] <==> durable == SentEnd()
    {
      hide RetainedOk, Chain;
      ghost var end := SentEnd();
      ghost var was := durable;
      if durable < tail { durable := tail; }
      EndBound(retained, was, end, stream);
      retained := AckThrough(durable, retained, was, end, stream);
      EndIs(retained, durable, end, stream);
    }

    /** Resolves a passed deadline: `Ok(true)` when the session still needs recovery. */
    method ConfirmTimeout(confirm: Confirm) returns (r: Result<bool, LaneDeath>)
      requires Valid()
      modifies this`durable, this`retained
      ensures Valid() && SentEnd() == old(SentEnd()) && old(durable) <= durable
      ensures r == Ok(false) ==> durable == SentEnd()
      ensures r.Ok? ==> old(durable) < durable && confirm.Advanced? && (confirm.error.Some? ==> r.value)
      ensures r.Err? && r.error.Lost? ==> !r.error.code.Transient()
      ensures r.Err? && r.error.Stalled? ==> durable == old(durable)
      ensures confirm.Advanced? && old(durable) < confirm.claim && HasGeneration(store.disk, generation) &&
              confirm.claim <= |store.disk.slot.value.bytes| ==>
                durable == confirm.claim && (r.Ok? <==> confirm.error.None? || confirm.error.value.Transient())
    {
      hide RetainedOk, Chain, Owned;
      match confirm {
        case NoProgress => return Err(Stalled);
        case SessionFailed(code) => return Err(if code.Transient() then Stalled else Lost(code));
        case Advanced(claim, error) =>
          var tail := Observe(store.disk, generation, claim);
          if tail <= durable { return Err(Stalled); }
          PublishProgress(tail);
          if error.None? { return Ok(retained != []); }
          return if error.value.Transient() then Ok(true) else Err(Lost(error.value));
      }
    }

    /** Sends everything from `offset` to the sent end, under whatever the turn brings. */
    method Send(offset: nat, data: Bytes, turn: Turn) returns (seen: Seen)
      requires Valid() && NoAppends(turn.others) && durable <= offset <= SentEnd() && data == stream[offset..SentEnd()]
      requires Mirrors(store.disk, generation, durable, offset, stream)
      modifies store
      ensures Valid()
      ensures seen.SeenOk? <==>
                turn.fate.Answered? &&
                Serve(AfterAll(old(store.disk), turn.others), Append(Some(session), offset, data)).Ok?
      ensures seen.SeenOk? ==>
                HasGeneration(store.disk, generation) && store.disk.slot.value.bytes == stream[..SentEnd()]
    {
      hide RetainedOk, Chain;
      ghost var end := SentEnd();
      EndBound(retained, durable, end, stream);
      OthersKeepMirror(store.disk, turn.others, generation, session, durable, offset, stream);
      store.disk := AfterAll(store.disk, turn.others);
      var applied := |data|;
      match turn.fate {
        case Answered => seen := SeenOk;
        case Broke(some, code) => applied := if some < |data| then some else |data|; seen := SeenError(code);
        case TimedOut(some, confirm) => applied := if some < |data| then some else |data|; seen := SeenTimeout(confirm);
      }
      assert data[..applied] == stream[offset..offset + applied];
      SendKeepsMirror(store.disk, generation, session, durable, end, stream, offset, offset + applied);
      var served := Serve(store.disk, Append(Some(session), offset, data[..applied]));
      if served.Ok? {
        store.disk := served.value;
      } else {
        assert Mirrors(store.disk, generation, durable, end, stream);
        if seen.SeenOk? { seen := SeenError(served.error); }
      }
    }

    /** The object holds every byte sent so far. */
    ghost predicate AllSent()
      reads this, store
    {
      durable == SentEnd() ||
      (SentEnd() <= |stream| && HasGeneration(store.disk, generation) &&
       store.disk.slot.value.bytes == stream[..SentEnd()])
    }

    /** Resend after a successful resume; `Ok(true)` ends recovery. */
    method Resend(turns: seq<Turn>) returns (r: Result<bool, LaneDeath>, rest: seq<Turn>)
      requires Valid() && Quiet(turns) && Mirrors(store.disk, generation, durable, durable, stream)
      modifies this`durable, this`retained, this`flushes, store
      ensures Valid() && SentEnd() == old(SentEnd()) && old(durable) <= durable
      ensures Undisturbed(turns, 1) && SessionLives(old(store.disk), session) &&
              |old(store.disk).slot.value.bytes| == old(durable) ==>
                r == Ok(true)
      ensures Quiet(rest) && |rest| <= |turns|
      ensures r == Ok(true) ==> AllSent()
      ensures r.Err? && r.error.Lost? ==> !r.error.code.Transient()
    {
      hide RetainedOk, Chain, Owned, Mirrors;
      rest := turns;
      EndBound(retained, durable, SentEnd(), stream);
      var suffix := ResendSuffix(retained, durable, SentEnd(), stream);
      if suffix == [] {
        flushes := [];
        return Ok(true), rest;
      }
      var messages := PackAppend(suffix);
      if rest == [] { return Err(Stalled), rest; }
      var turn := rest[0];
      rest := rest[1..];
      var data := Payload(messages);
      var seen := Send(durable, data, turn);
      match seen {
        case SeenOk =>
          flushes := [durable + |data|];
          r := Ok(true);
        case SeenError(code) => r := if code.Transient() then Ok(false) else Err(Lost(code));
        case SeenTimeout(confirm) =>
          r := ConfirmTimeout(confirm);
          if r.Ok? { r := Ok(!r.value); }
      }
    }

    /** One attempt: learn the durable tail by resuming the session, then resend. */
    method RecoverOnce(turns: seq<Turn>) returns (r: Result<bool, LaneDeath>, rest: seq<Turn>)
      requires Valid() && Quiet(turns) && turns != []
      modifies this`durable, this`retained, this`flushes, store
      ensures Valid() && SentEnd() == old(SentEnd()) && old(durable) <= durable
      ensures Undisturbed(turns, 2) && SessionLives(old(store.disk), session) ==> r == Ok(true)
      ensures Undisturbed(turns, 1) && !SessionLives(old(store.disk), session) ==> r.Err? && r.error.Lost?
      ensures Quiet(rest) && |rest| < |turns|
      ensures r == Ok(true) ==> AllSent()
      ensures r.Err? && r.error.Lost? ==> !r.error.code.Transient()
    {
      hide RetainedOk, Chain;
      rest := turns[1..];
      Interfere(turns[0].others);
      match turns[0].fate {
        case Broke(_, code) => r := if code.Transient() then Ok(false) else Err(Lost(code));
        case TimedOut(_, confirm) =>
          r := ConfirmTimeout(confirm);
          if r.Ok? { r := Ok(!r.value); }
        case Answered =>
          var served := Serve(store.disk, Resume(Some(session)));
          if served.Err? { return if served.error.Transient() then Ok(false) else Err(Lost(served.error)), rest; }
          PublishProgress(|store.disk.slot.value.bytes|);
          r, rest := Resend(rest);
      }
    }

    /**
     Session recovery. Success means every sent byte is durable or on the object
     again; in any outcome the mirror holds, whatever failed on the way. Undisturbed, it
     succeeds exactly when the session is still the object's own and the object is open.
     */
    method Recover(turns: seq<Turn>) returns (r: Result<(), LaneDeath>, rest: seq<Turn>)
      requires Valid() && Quiet(turns)
      modifies this`durable, this`retained, this`flushes, store
      ensures Valid() && SentEnd() == old(SentEnd()) && old(durable) <= durable
      ensures Quiet(rest) && |rest| <= |turns|
      ensures r.Ok? ==> AllSent()
      ensures r.Err? && r.error.Lost? ==> !r.error.code.Transient()
      ensures Undisturbed(turns, 2) ==> (r.Ok? <==> SessionLives(old(store.disk), session))
    {
      hide RetainedOk, Chain, Owned, Mirrors, SentEndOf;
      rest := turns;
      while rest != []
        invariant Valid() && Quiet(rest) && |rest| <= |turns|
        invariant SentEnd() == old(SentEnd()) && old(durable) <= durable
        invariant Undisturbed(turns, 2) ==> rest == turns && store.disk == old(store.disk)
        decreases |rest|
      {
        var once;
        once, rest := RecoverOnce(rest);
        if once.Err? { return Err(once.error), rest; }
        if once.value { return Ok(()), rest; }
      }
      r := Err(Stalled);
    }

    /** A window admitted to this lane waits until the flush slots allow it out. */
    method Hold(batch: Batch)
      requires Valid() && ValidBatch(batch) && batch.start == |stream|
      modifies this`held, this`heldBytes, this`stream
      ensures Valid() && stream == old(stream) + Concat(batch.chunks) && held == old(held) + [batch]
    {
      hide RetainedOk, Chain, Concat, Owned, SentEndOf;
      ghost var more := Concat(batch.chunks);
      RetainedExtends(retained, durable, SentEnd(), stream, more);
      HoldChain(held, SentEnd(), stream, batch);
      TotalBytesSnoc(held, batch);
      heldBytes := heldBytes + Size(batch);
      held := held + [batch];
      stream := stream + more;
    }

    /** Writes the first `count` held batches as one group, recovering if the session rejects it. */
    method Stage(count: nat, flush: bool, turns: seq<Turn>) returns (r: Result<(), LaneDeath>, rest: seq<Turn>)
      requires Valid() && Quiet(turns) && 0 < count <= |held| && (flush ==> |flushes| < MAX_OUTSTANDING_FLUSHES)
      modifies this`durable, this`retained, this`flushes, this`held, this`heldBytes, store
      ensures Valid() && Quiet(rest) && |rest| <= |turns| && old(durable) <= durable
      ensures held == old(held)[count..] && SentEnd() <= |stream|
      ensures r.Ok? ==> AllSent()
      ensures old(SentEnd()) <= SentEnd()
      ensures turns != [] && turns[0].fate.Answered? &&
              Serve(AfterAll(old(store.disk), turns[0].others),
                    Append(Some(session), old(SentEnd()), stream[old(SentEnd())..SentEnd()])).Ok? ==>
                r.Ok? && rest == turns[1..]
    {
      hide RetainedOk, Chain, Owned, Mirrors, SentEndOf, Concat, AllChunks;
      var batches := held[..count];
      var messages := Restage(batches);
      var start := batches[0].start;
      var end := SentEnd();
      if turns == [] { return Err(Stalled), turns; }
      rest := turns[1..];
      var seen := Send(start, Payload(messages), turns[0]);
      var failed := seen.SeenError?;
      if seen.SeenTimeout? {
        var confirmed := ConfirmTimeout(seen.confirm);
        if confirmed.Err? { return Err(confirmed.error), rest; }
        failed := confirmed.value;
      }
      if flush { flushes := flushes + [end]; }
      if failed {
        r, rest := Recover(rest);
      } else {
        r := Ok(());
      }
    }

    /** Moves a group from held to retained and packs it for the wire. */
    method Restage(batches: seq<Batch>) returns (messages: seq<Message>)
      requires Valid() && batches != [] && batches <= held
      modifies this`retained, this`held, this`heldBytes
      ensures Valid() && held == old(held)[|batches|..] && flushes == old(flushes)
      ensures batches[0].start == old(SentEnd()) && durable <= old(SentEnd()) <= SentEnd() <= |stream|
      ensures Payload(messages) == stream[old(SentEnd())..SentEnd()]
      ensures Mirrors(store.disk, generation, durable, old(SentEnd()), stream)
    {
      hide Owned, Concat, AllChunks, RetainedOk, Carries;
      ghost var start := SentEnd();
      var count := |batches|;
      assert held[..count] == batches;
      SplitChain(held, start, |stream|, stream, count);
      ghost var end := CutPoint(held, start, count);
      EndBound(retained, durable, start, stream);
      messages := PackAppend(AllChunks(batches));
      GroupConcat(batches, start, end, stream);
      TotalBytesSplit(held, count);
      RetainGroup(retained, durable, start, end, stream, batches);
      heldBytes := heldBytes - TotalBytes(batches);
      held := held[count..];
      retained := retained + IntoRetained(batches);
      EndIs(retained, durable, end, stream);
    }

    /** Flushes bytes already written when a slot is free and nothing is held. */
    method FlushWritten(turns: seq<Turn>) returns (r: Result<(), LaneDeath>, rest: seq<Turn>)
      requires Valid() && Quiet(turns) && |flushes| < MAX_OUTSTANDING_FLUSHES
      modifies this`durable, this`retained, this`flushes, store
      ensures Valid() && Quiet(rest) && |rest| <= |turns| && SentEnd() == old(SentEnd()) && old(durable) <= durable
      ensures r.Ok? ==> AllSent() || (flushes == old(flushes) + [SentEnd()] && turns != [] && !turns[0].fate.Broke?)
    {
      hide RetainedOk, Chain, Owned, Mirrors, SentEndOf;
      var end := SentEnd();
      if turns == [] { return Err(Stalled), turns; }
      rest := turns[1..];
      Interfere(turns[0].others);
      var failed := turns[0].fate.Broke?;
      if turns[0].fate.TimedOut? {
        var confirmed := ConfirmTimeout(turns[0].fate.confirm);
        if confirmed.Err? { return Err(confirmed.error), rest; }
        failed := confirmed.value;
      }
      flushes := flushes + [end];
      if failed {
        r, rest := Recover(rest);
      } else {
        r := Ok(());
      }
    }

    /**
     `dispatch`: with a free flush slot everything held goes out flushed; without
     one, held batches go out unflushed in groups of at least a mebibyte. Either
     way less than a mebibyte stays held.
     */
    method Dispatch(turns: seq<Turn>) returns (r: Result<(), LaneDeath>)
      requires Valid() && Quiet(turns)
      modifies this`durable, this`retained, this`flushes, this`held, this`heldBytes, store
      ensures Valid() && old(durable) <= durable
      ensures r.Ok? ==> held == [] || heldBytes < LANE_UNFLUSHED_SEND_BYTES
      ensures r.Ok? && (|old(flushes)| < MAX_OUTSTANDING_FLUSHES || old(flushes)[0] <= old(durable)) ==> held == []
      ensures r.Ok? ==> SentEnd() == old(SentEnd()) || AllSent()
    {
      hide RetainedOk, Chain, Owned, Mirrors, SentEndOf;
      while flushes != [] && flushes[0] <= durable
        invariant Valid() && |flushes| <= |old(flushes)|
        invariant |flushes| == |old(flushes)| ==> flushes == old(flushes)
        decreases |flushes|
        modifies this`flushes
      {
        flushes := flushes[1..];
      }
      var rest := turns;
      if |flushes| < MAX_OUTSTANDING_FLUSHES {
        if held != [] {
          r, rest := Stage(|held|, true, turns);
          return;
        }
        var through := if flushes == [] then durable else flushes[|flushes| - 1];
        if SentEnd() > through {
          r, rest := FlushWritten(turns);
          return;
        }
        return Ok(());
      }
      while heldBytes >= LANE_UNFLUSHED_SEND_BYTES
        invariant Valid() && Quiet(rest) && old(durable) <= durable
        invariant SentEnd() == old(SentEnd()) || AllSent()
        decreases |held|
      {
        var bytes, count := 0, 0;
        assert held[..|held|] == held;
        while bytes < LANE_UNFLUSHED_SEND_BYTES
          invariant count <= |held| && bytes == TotalBytes(held[..count])
          decreases |held| - count
          modifies {}
        {
          assert held[..count + 1] == held[..count] + [held[count]];
          TotalBytesSnoc(held[..count], held[count]);
          bytes := bytes + Size(held[count]);
          count := count + 1;
        }
        r, rest := Stage(count, false, rest);
        if r.Err? { return; }
      }
      r := Ok(());
    }
  }

  lemma EndBound(retained: seq<Retained>, durable: nat, end: nat, stream: Bytes)
    requires RetainedOk(retained, durable, end, stream)
    ensures durable <= end <= |stream|
  {
  }
}
