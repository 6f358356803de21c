/** Recovery's walk over the committed directory, and replay of the walked segments. */
module Walk {
  import opened Wrappers
  import opened Text
  import opened Records
  import opened Manifest
  import opened ManifestRuns
  import R = Recovery

  /** A sealed segment with its derived inclusive end. */
  datatype Link = Link(id: string, base: nat, end: nat, crc32c: u32)

  datatype CatalogError = BelowFloor | NonPositiveBase | Overlap | StartsLate | WrongCount | Unreadable

  function LinkAt(r: Record, i: nat): Link
    requires i < |r.segments| && NextBase(r, i) >= 1
  {
    Link(r.segments[i].id, r.segments[i].base, NextBase(r, i) - 1, r.segments[i].crc32c)
  }

  /** Links of the first `n` entries that end at or above the floor. */
  function LiveLinks(r: Record, n: nat): seq<Link>
    requires n <= |r.segments|
  {
    if n == 0 then []
    else if NextBase(r, n - 1) < 1 || NextBase(r, n - 1) - 1 < r.trunc then LiveLinks(r, n - 1)
    else LiveLinks(r, n - 1) + [LinkAt(r, n - 1)]
  }

  /** Links without gap or overlap from `lo` up to `hi`. */
  predicate Contiguous(links: seq<Link>, lo: nat, hi: nat) {
    && lo <= hi
    && (forall k :: 0 <= k < |links| ==> links[k].base <= links[k].end)
    && (forall k :: 0 < k < |links| ==> links[k].base == links[k - 1].end + 1)
    && if links == [] then lo == hi else links[0].base == lo && links[|links| - 1].end + 1 == hi
  }

  lemma BasesIncrease(r: Record, n: nat)
    requires ValidDirectory(r) && n <= |r.segments|
    ensures forall a, b :: 0 <= a < b < n ==> NextBase(r, a) <= NextBase(r, b)
    ensures forall a, b :: 0 <= a <= b < n ==> r.segments[a].base <= r.segments[b].base
    ensures forall a, b :: 0 <= a < b < n ==> NextBase(r, a) <= r.segments[b].base
  {
  }

  lemma {:induction false} LiveLinksReach(r: Record, n: nat)
    requires ValidDirectory(r) && n <= |r.segments|
    ensures LiveLinks(r, n) != [] ==> n > 0 && Contiguous(LiveLinks(r, n), LiveLinks(r, n)[0].base, NextBase(r, n - 1))
    ensures LiveLinks(r, n) != [] ==> n > 0 && r.trunc < NextBase(r, n - 1)
    ensures forall i :: 0 <= i < n && r.trunc < NextBase(r, i) ==>
              LiveLinks(r, n) != [] && LiveLinks(r, n)[0].base <= r.segments[i].base
    decreases n
  {
    if n > 0 {
      LiveLinksReach(r, n - 1);
      assert r.segments[n - 1].base < NextBase(r, n - 1);
      BasesIncrease(r, n);
      hide ValidDirectory;
    }
  }

  /**
   For every version the register can reach, the walk's links run without gap from
   at or below the floor to the tail.
   */
  lemma LiveLinksCover(r: Record)
    requires Valid(r) && Anchored(r)
    ensures var links := LiveLinks(r, |r.segments|);
            if r.trunc < r.tailBase then links != [] && links[0].base <= r.trunc &&
              Contiguous(links, links[0].base, r.tailBase)
            else links == []
  {
    var n := |r.segments|;
    LiveLinksReach(r, n);
    if r.trunc < r.tailBase {
      var e, next :| Holds(r, e, next, r.trunc);
      var i := HoldsPosition(r, e, next, r.trunc);
      assert r.trunc < NextBase(r, i);
      assert NextBase(r, n - 1) == r.tailBase;
    } else {
      NoLiveLinks(r, n);
    }
  }

  lemma {:induction false} NoLiveLinks(r: Record, n: nat)
    requires ValidDirectory(r) && n <= |r.segments| && r.tailBase <= r.trunc
    ensures LiveLinks(r, n) == []
    decreases n
  {
    if n > 0 {
      NoLiveLinks(r, n - 1);
      assert NextBase(r, n - 1) <= r.tailBase;
    }
  }

  /**
   The chain derivation of recovery with all its catalog checks. On a register that
   went only through committed requests, none of them but the checkpoint's own can fail.
   */
  method DeriveChain(adopted: Record, checkpoint: nat) returns (r: Result<seq<Link>, CatalogError>)
    ensures r.Ok? ==> r.value == LiveLinks(adopted, |adopted.segments|) && adopted.trunc <= checkpoint
    ensures Valid(adopted) && Anchored(adopted) ==> (r.Ok? <==> adopted.trunc <= checkpoint)
    ensures r == Err(BelowFloor) <==> checkpoint < adopted.trunc
  {
    if checkpoint < adopted.trunc { return Err(BelowFloor); }
    var chain: seq<Link> := [];
    for i := 0 to |adopted.segments|
      invariant chain == LiveLinks(adopted, i)
    {
      var entry, next := adopted.segments[i], NextBase(adopted, i);
      if next < 1 { return Err(NonPositiveBase); }
      if next - 1 < entry.base { return Err(Overlap); }
      if next - 1 < adopted.trunc { continue; }
      chain := chain + [Link(entry.id, entry.base, next - 1, entry.crc32c)];
    }
    if Valid(adopted) && Anchored(adopted) { LiveLinksCover(adopted); }
    if chain != [] && chain[0].base > checkpoint && chain[0].base > adopted.trunc { return Err(StartsLate); }
    r := Ok(chain);
  }

  /** Every version of every history passes the walk. */
  lemma ReachableWalks(h: History, maxBytes: nat, v: nat)
    requires OkHistory(h, maxBytes) && v < |h.records|
    ensures Valid(h.records[v]) && Anchored(h.records[v])
    ensures var r := h.records[v]; var links := LiveLinks(r, |r.segments|);
            r.trunc < r.tailBase ==>
              links != [] && links[0].base <= r.trunc && Contiguous(links, links[0].base, r.tailBase)
  {
    HistoryValid(h, maxBytes, v);
    LiveLinksCover(h.records[v]);
  }

  /** A recovered tail or pending segment continues the chain at its end. */
  lemma RecoveredExtends(links: seq<Link>, lo: nat, hi: nat, recovered: Link)
    requires Contiguous(links, lo, hi) && recovered.base == hi <= recovered.end
    ensures Contiguous(links + [recovered], lo, recovered.end + 1)
  {
    var all := links + [recovered];
    forall k | 0 < k < |all| ensures all[k].base == all[k - 1].end + 1 {
      if k < |links| { assert links[k].base == links[k - 1].end + 1; }
    }
  }

  // ----------------------------------------------------------------- replay

  datatype WalRecord = WalRecord(seqno: nat, payload: Bytes)

  /** The log's records with numbers `from` up to `end`, in order. */
  function Range(log: seq<Bytes>, start: nat, from: nat, end: nat): seq<WalRecord>
    requires start <= from <= end <= start + |log|
  {
    seq(end - from, k requires 0 <= k < end - from => WalRecord(from + k, log[from + k - start]))
  }

  function Max(a: nat, b: nat): nat { if a < b then b else a }
  function Min(a: nat, b: nat): nat { if a < b then a else b }

  /** `replay_records`: the part of one segment's records inside the requested range. */
  method ReplayRecords(base: nat, frames: seq<Bytes>, from: nat, end: nat) returns (records: seq<WalRecord>)
    ensures var lo, hi := Max(base, from), Min(base + |frames|, end);
            if lo <= hi then records == Range(frames, base, lo, hi) else records == []
  {
    records := [];
    for offset := 0 to |frames|
      invariant var lo, hi := Max(base, from), Min(base + offset, end);
                if lo <= hi then records == Range(frames, base, lo, hi) else records == []
    {
      var index := base + offset;
      if index < from || index >= end { continue; }
      records := records + [WalRecord(index, frames[offset])];
    }
  }

  predicate Overlaps(link: Link, from: nat, end: nat) { from <= link.end && link.base < end }

  /** The segment could be read and holds as many records as its link says. */
  predicate WholeRead(link: Link, read: Link -> Option<seq<Bytes>>) {
    read(link).Some? && |read(link).value| == link.end + 1 - link.base
  }

  predicate AllWhole(links: seq<Link>, read: Link -> Option<seq<Bytes>>, from: nat, end: nat) {
    forall k :: 0 <= k < |links| && Overlaps(links[k], from, end) ==> WholeRead(links[k], read)
  }

  /** Record `x` as the segment of this link stores it. */
  predicate StoredIn(link: Link, read: Link -> Option<seq<Bytes>>, x: nat, payload: Bytes) {
    && link.base <= x <= link.end && read(link).Some? && x - link.base < |read(link).value|
    && read(link).value[x - link.base] == payload
  }

  ghost predicate EmittedAs(record: WalRecord, links: seq<Link>, read: Link -> Option<seq<Bytes>>, x: nat) {
    record.seqno == x && exists k :: 0 <= k < |links| && StoredIn(links[k], read, x, record.payload)
  }

  /** Every number from `from` up to `end` once, in order, with the payload its segment stores for it. */
  ghost predicate Emits(records: seq<WalRecord>, links: seq<Link>, read: Link -> Option<seq<Bytes>>, from: nat,
                        end: nat) {
    && from <= end && |records| == end - from
    && forall j :: 0 <= j < |records| ==> EmittedAs(records[j], links, read, from + j)
  }

  /** The segment holds the log between its base and end. */
  predicate HoldsLog(link: Link, read: Link -> Option<seq<Bytes>>, log: seq<Bytes>, start: nat) {
    && start <= link.base <= link.end < start + |log|
    && (read(link).Some? ==> read(link).value == log[link.base - start..link.end + 1 - start])
  }

  /** If the segments hold one log, what is emitted is that log's range. */
  lemma EmitsLog(records: seq<WalRecord>, links: seq<Link>, read: Link -> Option<seq<Bytes>>, from: nat, end: nat,
                 log: seq<Bytes>, start: nat)
    requires Emits(records, links, read, from, end) && start <= from <= end <= start + |log|
    requires forall k :: 0 <= k < |links| ==> HoldsLog(links[k], read, log, start)
    ensures records == Range(log, start, from, end)
  {
    forall j | 0 <= j < |records| ensures records[j] == Range(log, start, from, end)[j] {
      assert EmittedAs(records[j], links, read, from + j);
      var k :| 0 <= k < |links| && StoredIn(links[k], read, from + j, records[j].payload);
      assert HoldsLog(links[k], read, log, start);
    }
  }

  lemma EmitsMore(records: seq<WalRecord>, links: seq<Link>, read: Link -> Option<seq<Bytes>>, from: nat, a: nat,
                  b: nat, k: nat)
    requires Emits(records, links, read, from, a) && a <= b && k < |links| && WholeRead(links[k], read)
    requires links[k].base <= a && b <= links[k].end + 1
    ensures Emits(records + Range(read(links[k]).value, links[k].base, a, b), links, read, from, b)
  {
    var part := Range(read(links[k]).value, links[k].base, a, b);
    var all := records + part;
    forall j | 0 <= j < |all| ensures EmittedAs(all[j], links, read, from + j) {
      if j < |records| {
        assert EmittedAs(records[j], links, read, from + j);
      } else {
        assert StoredIn(links[k], read, from + j, all[j].payload);
      }
    }
  }

  /** How far the first `k` links reach. */
  function Reach(links: seq<Link>, lo: nat, k: nat): nat
    requires k <= |links|
  {
    if k == 0 then lo else links[k - 1].end + 1
  }

  /**
   `scan_sealed_range`: succeeds exactly when every segment that overlaps the range is
   readable with the record count of its link, and over contiguous links then emits
   every number of the range once, in order.
   */
  method ScanSealedRange(links: seq<Link>, read: Link -> Option<seq<Bytes>>, from: nat, end: nat, ghost lo: nat,
                         ghost hi: nat)
    returns (r: Result<seq<WalRecord>, CatalogError>)
    requires from <= end
    ensures r.Ok? <==> AllWhole(links, read, from, end)
    ensures r.Ok? && Contiguous(links, lo, hi) && lo <= from && end <= hi ==> Emits(r.value, links, read, from, end)
  {
    var records: seq<WalRecord> := [];
    ghost var covered := Contiguous(links, lo, hi) && lo <= from && end <= hi;
    for k := 0 to |links|
      invariant forall i :: 0 <= i < k && Overlaps(links[i], from, end) ==> WholeRead(links[i], read)
      invariant covered ==> Emits(records, links, read, from, Max(from, Min(end, Reach(links, lo, k))))
    {
      var link := links[k];
      if covered { ReachStep(links, lo, hi, k); }
      if link.end < from || link.base >= end { continue; }
      if read(link).None? { return Err(Unreadable); }
      if |read(link).value| != link.end + 1 - link.base { return Err(WrongCount); }
      var part := ReplayRecords(link.base, read(link).value, from, end);
      if covered {
        EmitsMore(records, links, read, from, Max(link.base, from), Min(link.end + 1, end), k);
      }
      records := records + part;
    }
    if covered { ReachEnd(links, lo, hi); }
    r := Ok(records);
  }

  lemma ReachEnd(links: seq<Link>, lo: nat, hi: nat)
    requires Contiguous(links, lo, hi)
    ensures Reach(links, lo, |links|) == hi
  {
  }

  lemma ReachStep(links: seq<Link>, lo: nat, hi: nat, k: nat)
    requires Contiguous(links, lo, hi) && k < |links|
    ensures Reach(links, lo, k) == links[k].base <= links[k].end < Reach(links, lo, k + 1) <= hi
  {
    ReachBelow(links, lo, hi, k + 1);
  }

  lemma {:induction false} ReachBelow(links: seq<Link>, lo: nat, hi: nat, k: nat)
    requires Contiguous(links, lo, hi) && k <= |links|
    ensures Reach(links, lo, k) <= hi
    decreases |links| - k
  {
    if k < |links| {
      ReachBelow(links, lo, hi, k + 1);
      if k > 0 { assert links[k].base == links[k - 1].end + 1; }
    }
  }

  // ------------------------------------------------------- the whole replay

  predicate AllNonEmpty(predecessors: seq<R.RecoveredTail>) {
    forall k :: 0 <= k < |predecessors| ==> predecessors[k].recordEnds != []
  }

  /** The recovered tail and pending segment as links, numbered on from `base`. */
  function RecoveredLinks(ids: seq<string>, base: nat, predecessors: seq<R.RecoveredTail>, crcs: seq<u32>): seq<Link>
    requires |ids| == |crcs| == |predecessors|
    requires AllNonEmpty(predecessors)
  {
    if predecessors == [] then []
    else
      var count := |predecessors[0].recordEnds|;
      [Link(ids[0], base, base + count - 1, crcs[0])]
          + RecoveredLinks(ids[1..], base + count, predecessors[1..], crcs[1..])
  }

  function RecoveredCount(predecessors: seq<R.RecoveredTail>): nat {
    if predecessors == [] then 0 else |predecessors[0].recordEnds| + RecoveredCount(predecessors[1..])
  }

  lemma RecoveredUnfold(ids: seq<string>, base: nat, predecessors: seq<R.RecoveredTail>, crcs: seq<u32>)
    requires |ids| == |crcs| == |predecessors| != 0 && AllNonEmpty(predecessors)
    ensures AllNonEmpty(predecessors[1..]) && |predecessors[0].recordEnds| >= 1
    ensures var count := |predecessors[0].recordEnds|;
            && RecoveredCount(predecessors) == count + RecoveredCount(predecessors[1..])
            && RecoveredLinks(ids, base, predecessors, crcs)
                == [Link(ids[0], base, base + count - 1, crcs[0])]
                    + RecoveredLinks(ids[1..], base + count, predecessors[1..], crcs[1..])
  {
  }

  /** Recovered segments continue any chain at its end, without gap. */
  lemma {:induction false} RecoveredContinue(links: seq<Link>, lo: nat, hi: nat,
                                             ids: seq<string>, predecessors: seq<R.RecoveredTail>, crcs: seq<u32>)
    requires Contiguous(links, lo, hi) && |ids| == |crcs| == |predecessors|
    requires AllNonEmpty(predecessors)
    ensures Contiguous(links + RecoveredLinks(ids, hi, predecessors, crcs), lo, hi + RecoveredCount(predecessors))
    decreases |predecessors|
  {
    if predecessors == [] {
      assert links + RecoveredLinks(ids, hi, predecessors, crcs) == links;
    } else {
      hide Contiguous, AllNonEmpty, RecoveredLinks, RecoveredCount;
      var count := |predecessors[0].recordEnds|;
      RecoveredUnfold(ids, hi, predecessors, crcs);
      var first := Link(ids[0], hi, hi + count - 1, crcs[0]);
      RecoveredExtends(links, lo, hi, first);
      RecoveredContinue(links + [first], lo, hi + count, ids[1..], predecessors[1..], crcs[1..]);
      var rest := RecoveredLinks(ids[1..], hi + count, predecessors[1..], crcs[1..]);
      Reassociate(links, first, rest);
    }
  }

  lemma Reassociate(links: seq<Link>, first: Link, rest: seq<Link>)
    ensures links + ([first] + rest) == (links + [first]) + rest
  {
  }

  /** Where the walked chain starts, at or below any accepted checkpoint. */
  function ChainStart(r: Record): nat {
    var links := LiveLinks(r, |r.segments|);
    if links == [] then r.tailBase else links[0].base
  }

  lemma CheckpointIsCovered(r: Record, checkpoint: nat)
    requires Valid(r) && Anchored(r) && r.trunc <= checkpoint
    ensures ChainStart(r) <= checkpoint && Contiguous(LiveLinks(r, |r.segments|), ChainStart(r), r.tailBase)
  {
    LiveLinksCover(r);
  }

  /** The walked directory, continued by the recovered frontier. */
  function ReplayLinks(adopted: Record, ids: seq<string>, predecessors: seq<R.RecoveredTail>, crcs: seq<u32>): seq<Link>
    requires |ids| == |crcs| == |predecessors| && AllNonEmpty(predecessors)
  {
    LiveLinks(adopted, |adopted.segments|) + RecoveredLinks(ids, adopted.tailBase, predecessors, crcs)
  }

  /** The new writer's base. */
  function ReplayEnd(adopted: Record, predecessors: seq<R.RecoveredTail>): nat {
    adopted.tailBase + RecoveredCount(predecessors)
  }

  /**
   Recovery's replay from end to end: for every version of every register history and
   every checkpoint at or above its floor, the walked directory and the recovered
   frontier are replayed as every number from the checkpoint up to the new writer's
   base, once and in order, provided the segments in between can be read.
   */
  method ReplayFrom(adopted: Record, checkpoint: nat, ids: seq<string>, predecessors: seq<R.RecoveredTail>,
                    crcs: seq<u32>, read: Link -> Option<seq<Bytes>>,
                    ghost h: History, ghost maxBytes: nat, ghost v: nat)
    returns (r: Result<seq<WalRecord>, CatalogError>)
    requires OkHistory(h, maxBytes) && v < |h.records| && adopted == h.records[v]
    requires |ids| == |crcs| == |predecessors| && AllNonEmpty(predecessors)
    requires checkpoint <= ReplayEnd(adopted, predecessors)
    ensures var links, end := ReplayLinks(adopted, ids, predecessors, crcs), ReplayEnd(adopted, predecessors);
            && (r.Ok? ==> Emits(r.value, links, read, checkpoint, end))
            && (r.Ok? <==> adopted.trunc <= checkpoint && AllWhole(links, read, checkpoint, end))
  {
    ReachableWalks(h, maxBytes, v);
    var chain := DeriveChain(adopted, checkpoint);
    if chain.Err? { return Err(chain.error); }
    CheckpointIsCovered(adopted, checkpoint);
    RecoveredContinue(chain.value, ChainStart(adopted), adopted.tailBase, ids, predecessors, crcs);
    var end := ReplayEnd(adopted, predecessors);
    r := ScanSealedRange(chain.value + RecoveredLinks(ids, adopted.tailBase, predecessors, crcs), read, checkpoint, end,
                         ChainStart(adopted), end);
  }
}
