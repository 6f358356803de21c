/** Byte budget of the segment directory, and why a reserved fold never finds it full. */
module Capacity {
  import opened Wrappers
  import opened Text
  import opened SegmentIds
  import opened Manifest
  import opened ManifestRuns

  /** An id of the scheme every writer mints from. */
  ghost predicate Minted(id: string) {
    exists epoch: u64, seqno: u64 :: id == SegmentId(epoch, seqno)
  }

  /** The worst case covers every encoded entry of a minted id, with its separator. */
  lemma EntryWithinWorstCase(e: Entry)
    requires Minted(e.id)
    ensures |EncodeEntry(e)| + 1 <= WORST_CASE_ENTRY_BYTES
  {
    var epoch: u64, seqno: u64 :| e.id == SegmentId(epoch, seqno);
    SegmentIdShape(epoch, seqno);
    U64Lengths(e.base);
    U32Length(e.crc32c);
  }

  lemma EncodeSnoc(segments: seq<Entry>, e: Entry)
    ensures |EncodeSegments(segments + [e])| <= |EncodeSegments(segments)| + 1 + |EncodeEntry(e)|
    ensures |EncodeSegments(segments)| <= |EncodeSegments(segments + [e])|
  {
    var all := segments + [e];
    assert all[..|all| - 1] == segments;
  }

  lemma {:induction false} RemovalShrinks(segments: seq<Entry>, ids: set<string>)
    ensures |EncodeSegments(Retain(segments, ids))| <= |EncodeSegments(segments)|
    ensures Retain(segments, ids) == [] || segments != []
    decreases |segments|
  {
    if segments != [] {
      var n := |segments| - 1;
      var front, last := segments[..n], segments[n];
      RemovalShrinks(front, ids);
      assert segments == front + [last];
      EncodeSnoc(front, last);
      var kept := Retain(front, ids);
      if last.id !in ids {
        assert (kept + [last])[..|kept|] == kept;
        if front == [] {
          assert kept == [];
        }
      }
    }
  }

  /** How many folds committed between versions `v` and `w`. */
  function FoldCount(h: History, v: nat, w: nat): nat
    requires v <= w <= |h.ops|
  {
    if v == w then 0 else FoldCount(h, v, w - 1) + (if h.ops[w - 1].FoldPending? then 1 else 0)
  }

  lemma StepRoom(op: Op, r: Record, s: Record, maxBytes: nat, k: nat)
    requires Commits(op, r, s, maxBytes) && HasRoom(r.segments, k, maxBytes)
    requires op.FoldPending? ==> k > 0 && Minted(op.fold.oldTailId)
    ensures HasRoom(s.segments, if op.FoldPending? then k - 1 else k, maxBytes)
  {
    if op.FoldPending? {
      var e := Entry(op.fold.oldTailId, op.fold.oldTailBase, op.fold.oldTailCrc32c);
      EncodeSnoc(r.segments, e);
      EntryWithinWorstCase(e);
    } else if op.RemoveSegments? {
      RemovalShrinks(r.segments, op.ids);
    }
  }

  /**
   Room for `k` entries survives anything but folds: after `c` folds of minted
   tails, with any claims, truncations and removals between, room for `k - c`
   is left.
   */
  lemma {:induction false} RoomLasts(h: History, maxBytes: nat, v: nat, w: nat, k: nat)
    requires OkHistory(h, maxBytes) && v <= w < |h.records|
    requires HasRoom(h.records[v].segments, k, maxBytes) && FoldCount(h, v, w) <= k
    requires forall i :: v <= i < w && h.ops[i].FoldPending? ==> Minted(h.ops[i].fold.oldTailId)
    ensures HasRoom(h.records[w].segments, k - FoldCount(h, v, w), maxBytes)
    ensures |EncodeSegments(h.records[w].segments)| <= maxBytes
    decreases w
  {
    if v < w {
      RoomLasts(h, maxBytes, v, w - 1, k);
      assert Commits(h.ops[w - 1], h.records[w - 1], h.records[w], maxBytes);
      StepRoom(h.ops[w - 1], h.records[w - 1], h.records[w], maxBytes, k - FoldCount(h, v, w - 1));
    }
  }

  /**
   The reservation of a live swap: with room for two at the swap, neither of the
   two folds a recovery may need is refused for a full directory.
   */
  lemma SwapReservationSuffices(h: History, maxBytes: nat, v: nat, w: nat, epoch: nat, owner: string, f: PendingFold)
    requires OkHistory(h, maxBytes) && v <= w < |h.records|
    requires HasRoom(h.records[v].segments, 2, maxBytes) && FoldCount(h, v, w) <= 1
    requires forall i :: v <= i < w && h.ops[i].FoldPending? ==> Minted(h.ops[i].fold.oldTailId)
    ensures FoldTransform(h.records[w], epoch, owner, f, maxBytes) != Err(DirectoryFull)
  {
    RoomLasts(h, maxBytes, v, w, 2);
  }
}
