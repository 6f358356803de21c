/** Segment object ids: `{epoch:016x}-{seq:08x}`, and the epoch read back from one. */
module SegmentIds {
  import opened Wrappers
  import opened Text

  function SegmentId(epoch: u64, seqno: u64): string {
    Hex(epoch, 16) + "-" + Hex(seqno, 8)
  }

  /** Position of the first `c`, or the length. */
  function Find(s: string, c: char): (i: nat)
    ensures i <= |s|
    ensures i < |s| ==> s[i] == c
    ensures forall k :: 0 <= k < i ==> s[k] != c
  {
    if s == [] || s[0] == c then 0 else 1 + Find(s[1..], c)
  }

  /** The epoch prefix of an id, for ids of the scheme's shape. */
  function IdEpoch(id: string): Option<nat> {
    var dash := Find(id, '-');
    if dash == |id| then None
    else if dash != 16 then None
    else Parse(id[..dash], 16, U64_MAX)
  }

  lemma SegmentIdShape(epoch: u64, seqno: u64)
    ensures Find(SegmentId(epoch, seqno), '-') == 16
    ensures SegmentId(epoch, seqno)[..16] == Hex(epoch, 16)
    ensures SegmentId(epoch, seqno)[17..] == Hex(seqno, 8)
    ensures |SegmentId(epoch, seqno)| <= 33
    ensures ':' !in SegmentId(epoch, seqno) && ',' !in SegmentId(epoch, seqno)
  {
    U64Lengths(epoch);
    U64Lengths(seqno);
    HexRoundTrip(epoch, 16, U64_MAX);
    HexRoundTrip(seqno, 8, U64_MAX);
    DashShape(Hex(epoch, 16), Hex(seqno, 8));
  }

  lemma DashShape(a: string, b: string)
    requires PlainDigits(a) && PlainDigits(b)
    ensures var id := a + "-" + b;
            Find(id, '-') == |a| && id[..|a|] == a && id[|a| + 1..] == b && ':' !in id && ',' !in id
  {
    var id := a + "-" + b;
    assert id[|a|] == '-';
    forall i | 0 <= i < |a| ensures id[i] != '-' {
      assert id[i] == a[i];
    }
  }

  /** `id_epoch` inverts `segment_id`. */
  lemma IdEpochOfSegmentId(epoch: u64, seqno: u64)
    ensures IdEpoch(SegmentId(epoch, seqno)) == Some(epoch)
  {
    SegmentIdShape(epoch, seqno);
    HexRoundTrip(epoch, 16, U64_MAX);
  }

  /** Distinct (epoch, counter) pairs never share an id. */
  lemma SegmentIdInjective(e1: u64, s1: u64, e2: u64, s2: u64)
    requires SegmentId(e1, s1) == SegmentId(e2, s2)
    ensures e1 == e2 && s1 == s2
  {
    SegmentIdShape(e1, s1);
    SegmentIdShape(e2, s2);
    HexRoundTrip(e1, 16, U64_MAX);
    HexRoundTrip(e2, 16, U64_MAX);
    HexRoundTrip(s1, 8, U64_MAX);
    HexRoundTrip(s2, 8, U64_MAX);
  }
}
