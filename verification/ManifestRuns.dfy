/**
 The register as a versioned history, and the processes that change it: stale
 caches, lost responses, conflicts and retries included. The results hold for
 every history such runs can produce.
 */
module ManifestRuns {
  import opened Wrappers
  import opened Text
  import opened Manifest

  /** Every version the register ever had, and the request that produced each. */
  datatype History = History(records: seq<Record>, ops: seq<Op>)

  function Current(h: History): Record
    requires h.records != []
  {
    h.records[|h.records| - 1]
  }

  /** Starts initial; every version is one validated request applied to the version before. */
  ghost predicate OkHistory(h: History, maxBytes: nat) {
    && |h.records| == |h.ops| + 1
    && h.records[0] == Initial(h.records[0].buckets) && ValidBuckets(h.records[0].buckets)
    && forall i :: 0 <= i < |h.ops| ==> Commits(h.ops[i], h.records[i], h.records[i + 1], maxBytes)
  }

  function Append(h: History, op: Op, next: Record): History {
    History(h.records + [next], h.ops + [op])
  }

  lemma AppendOk(h: History, op: Op, next: Record, maxBytes: nat)
    requires OkHistory(h, maxBytes) && Commits(op, Current(h), next, maxBytes)
    ensures OkHistory(Append(h, op, next), maxBytes)
  {
    var g := Append(h, op, next);
    forall i | 0 <= i < |g.ops| ensures Commits(g.ops[i], g.records[i], g.records[i + 1], maxBytes) {
      if i < |h.ops| {
        assert g.ops[i] == h.ops[i] && g.records[i] == h.records[i] && g.records[i + 1] == h.records[i + 1];
      }
    }
  }

  // -------------------------------------------------- facts about histories

  lemma {:induction false} HistoryValid(h: History, maxBytes: nat, v: nat)
    requires OkHistory(h, maxBytes) && v < |h.records|
    ensures Valid(h.records[v]) && Anchored(h.records[v])
  {
    if v > 0 {
      HistoryValid(h, maxBytes, v - 1);
      assert Commits(h.ops[v - 1], h.records[v - 1], h.records[v], maxBytes);
      CommitKeepsAnchor(h.ops[v - 1], h.records[v - 1], h.records[v], maxBytes);
    }
  }

  /** Floors, tails and epochs never go back. */
  lemma {:induction false} HistoryMonotone(h: History, maxBytes: nat, v: nat, w: nat)
    requires OkHistory(h, maxBytes) && v <= w < |h.records|
    ensures h.records[v].trunc <= h.records[w].trunc
    ensures h.records[v].tailBase <= h.records[w].tailBase
    ensures h.records[v].epoch <= h.records[w].epoch
    ensures h.records[v].buckets == h.records[w].buckets
    decreases w
  {
    hide Commits, Valid, Anchored;
    if v < w {
      HistoryMonotone(h, maxBytes, v, w - 1);
      HistoryValid(h, maxBytes, w - 1);
      assert Commits(h.ops[w - 1], h.records[w - 1], h.records[w], maxBytes);
      CommitKeepsHistory(h.ops[w - 1], h.records[w - 1], h.records[w], maxBytes);
    }
  }

  // ------------------------------------------------------------ main results

  /**
   Committed history is immutable: the entry and the derived range of a record
   index never change in any later version that still retains the index.
   */
  lemma {:induction false} HistoryImmutable(h: History, maxBytes: nat, v: nat, w: nat, e: Entry, next: u64, x: nat)
    requires OkHistory(h, maxBytes) && v <= w < |h.records|
    requires Holds(h.records[v], e, next, x) && h.records[w].trunc <= x
    ensures Holds(h.records[w], e, next, x)
    decreases w
  {
    hide OkHistory, Holds;
    if v < w {
      VersionKeepsHistory(h, maxBytes, w);
      HistoryImmutable(h, maxBytes, v, w - 1, e, next, x);
    }
  }

  lemma VersionKeepsHistory(h: History, maxBytes: nat, w: nat)
    requires OkHistory(h, maxBytes) && 0 < w < |h.records|
    ensures KeepsHistory(h.records[w - 1], h.records[w]) && h.records[w - 1].trunc <= h.records[w].trunc
  {
    HistoryValid(h, maxBytes, w - 1);
    assert Commits(h.ops[w - 1], h.records[w - 1], h.records[w], maxBytes);
    CommitKeepsHistory(h.ops[w - 1], h.records[w - 1], h.records[w], maxBytes);
  }

  /** In every version, each retained index below the tail has exactly one entry. */
  lemma ExactlyOneEntry(h: History, maxBytes: nat, v: nat, x: nat)
    requires OkHistory(h, maxBytes) && v < |h.records| && h.records[v].trunc <= x < h.records[v].tailBase
    ensures exists e, next :: Holds(h.records[v], e, next, x)
    ensures forall e, n, f, m :: Holds(h.records[v], e, n, x) && Holds(h.records[v], f, m, x) ==> e == f && n == m
  {
    HistoryValid(h, maxBytes, v);
    var e0, n0 := EveryIndexHeld(h.records[v], x);
    forall e, n, f, m | Holds(h.records[v], e, n, x) && Holds(h.records[v], f, m, x) ensures e == f && n == m {
      HoldsUnique(h.records[v], e, n, f, m, x);
    }
  }

  /** Only a claim changes the epoch or the owner, and it raises the epoch by one. */
  lemma EpochStep(op: Op, r: Record, s: Record, maxBytes: nat)
    requires Commits(op, r, s, maxBytes)
    ensures op.Claim? ==> s.epoch == r.epoch + 1 && s.owner == op.owner
    ensures !op.Claim? ==> s.epoch == r.epoch && s.owner == r.owner
  {
  }

  /** At most one owner ever holds an epoch. */
  lemma {:induction false} OneOwnerPerEpoch(h: History, maxBytes: nat, v: nat, w: nat)
    requires OkHistory(h, maxBytes) && v <= w < |h.records| && h.records[v].epoch == h.records[w].epoch
    ensures h.records[v].owner == h.records[w].owner
    decreases w
  {
    if v < w {
      HistoryMonotone(h, maxBytes, v, w - 1);
      HistoryMonotone(h, maxBytes, w - 1, w);
      assert Commits(h.ops[w - 1], h.records[w - 1], h.records[w], maxBytes);
      EpochStep(h.ops[w - 1], h.records[w - 1], h.records[w], maxBytes);
      OneOwnerPerEpoch(h, maxBytes, v, w - 1);
    }
  }

  predicate NeedsClaim(op: Op) {
    op.RegisterPending? || op.ReplaceEmptyFrontier? || op.FoldPending? || op.RaiseTrunc?
  }

  /**
   Fencing: once a version shows an epoch, no register, replace, fold or raise
   commits after it under an older epoch, nor under that epoch for another owner.
   */
  lemma FencedAfterNewerClaim(h: History, maxBytes: nat, v: nat, i: nat)
    requires OkHistory(h, maxBytes) && v <= i < |h.ops| && NeedsClaim(h.ops[i])
    ensures h.ops[i].epoch >= h.records[v].epoch
    ensures h.ops[i].epoch == h.records[v].epoch ==> h.ops[i].owner == h.records[v].owner
  {
    HistoryMonotone(h, maxBytes, v, i);
    assert Commits(h.ops[i], h.records[i], h.records[i + 1], maxBytes);
    if h.ops[i].epoch == h.records[v].epoch {
      OneOwnerPerEpoch(h, maxBytes, v, i);
    }
  }

  /** Folds commit at strictly increasing bases, so no fold ever takes effect twice. */
  lemma FoldsTakeEffectOnce(h: History, maxBytes: nat, i: nat, j: nat)
    requires OkHistory(h, maxBytes) && i < j < |h.ops| && h.ops[i].FoldPending? && h.ops[j].FoldPending?
    ensures h.ops[i].fold.oldTailBase < h.ops[j].fold.oldTailBase
    ensures h.ops[i].fold.oldTailEnd < h.ops[j].fold.oldTailBase
  {
    hide Commits, Valid, Anchored, KeepsHistory, Holds;
    assert Commits(h.ops[i], h.records[i], h.records[i + 1], maxBytes);
    assert Commits(h.ops[j], h.records[j], h.records[j + 1], maxBytes);
    CommitsExactly(h.ops[i], h.records[i], h.records[i + 1], maxBytes);
    CommitsExactly(h.ops[j], h.records[j], h.records[j + 1], maxBytes);
    HistoryValid(h, maxBytes, i);
    FoldKeepsHistory(h.ops[i], h.records[i], h.records[i + 1], maxBytes);
    HistoryMonotone(h, maxBytes, i + 1, j);
  }

  predicate SameDecision(f: PendingFold, g: PendingFold) {
    && f.oldTailId == g.oldTailId && f.oldTailBase == g.oldTailBase && f.oldTailDigest == g.oldTailDigest
    && SaturatingSucc(f.oldTailEnd) == SaturatingSucc(g.oldTailEnd)
  }

  /** The seal record and the tail base come from the last fold. */
  lemma {:induction false} LastFold(h: History, maxBytes: nat, v: nat) returns (i: nat)
    requires OkHistory(h, maxBytes) && v < |h.records| && h.records[v].sealId.Some?
    ensures i < v && h.ops[i].FoldPending?
    ensures var f, r := h.ops[i].fold, h.records[v];
            r.sealId == Some(f.oldTailId) && r.sealBase == Some(f.oldTailBase) && r.sealDigest == Some(f.oldTailDigest)
            && f.oldTailEnd < U64_MAX && r.tailBase == f.oldTailEnd + 1
    ensures forall k :: i < k < v ==> !h.ops[k].FoldPending?
    decreases v
  {
    if v > 0 {
      assert Commits(h.ops[v - 1], h.records[v - 1], h.records[v], maxBytes);
      if h.ops[v - 1].FoldPending? {
        i := v - 1;
      } else {
        i := LastFold(h, maxBytes, v - 1);
      }
    }
  }

  /**
   A retried fold that reports success without writing did take effect before:
   the last committed fold made the same decision, and its entry carries the
   retry's checksum.
   */
  lemma RetriedFoldTookEffect(h: History, maxBytes: nat, v: nat, epoch: nat, owner: string, f: PendingFold)
    returns (i: nat)
    requires OkHistory(h, maxBytes) && v < |h.records|
    requires FoldTransform(h.records[v], epoch, owner, f, maxBytes) == Ok(Done)
    ensures i < v && h.ops[i].FoldPending? && SameDecision(h.ops[i].fold, f)
    ensures h.ops[i].fold.oldTailCrc32c == f.oldTailCrc32c
  {
    i := LastFold(h, maxBytes, v);
    var g := h.ops[i].fold;
    assert Commits(h.ops[i], h.records[i], h.records[i + 1], maxBytes);
    HistoryValid(h, maxBytes, i);
    FoldKeepsHistory(h.ops[i], h.records[i], h.records[i + 1], maxBytes);
    var added := Entry(g.oldTailId, g.oldTailBase, g.oldTailCrc32c);
    EntriesSince(h, maxBytes, i + 1, v);
    var last := h.records[v].segments[|h.records[v].segments| - 1];
    assert last in h.records[v].segments && last in h.records[i + 1].segments;
    assert h.records[i + 1].segments[|h.records[i].segments|] == added;
    HistoryValid(h, maxBytes, i + 1);
    var k := PositionOf(h.records[i + 1], last);
  }

  /** Without a fold in between, later directories only lose entries. */
  lemma {:induction false} EntriesSince(h: History, maxBytes: nat, v: nat, w: nat)
    requires OkHistory(h, maxBytes) && v <= w < |h.records|
    requires forall k :: v <= k < w ==> !h.ops[k].FoldPending?
    ensures forall e :: e in h.records[w].segments ==> e in h.records[v].segments
    decreases w
  {
    if v < w {
      EntriesSince(h, maxBytes, v, w - 1);
      assert Commits(h.ops[w - 1], h.records[w - 1], h.records[w], maxBytes);
    }
  }

  // -------------------------------------------------------------- processes

  /** A process's cached version of the register. */
  datatype Handle = Handle(version: nat, cache: Record)

  datatype World = World(history: History, handles: map<string, Handle>, granted: set<(nat, string)>)

  datatype Event =
    | Open(name: string)
    | Refresh(name: string)
    | Attempt(name: string, op: Op, delivered: bool)

  /**
   A process opens under a fresh incarnation id, claims for itself, and makes
   every other guarded request under a claim whose grant was delivered.
   */
  predicate CanHappen(w: World, e: Event) {
    && w.history.records != []
    && match e
       case Open(name) => name !in w.handles
       case Refresh(name) => name in w.handles
       case Attempt(name, op, _) =>
         && name in w.handles
         && (op.Claim? ==> op.owner == name)
         && (NeedsClaim(op) ==> (op.epoch, op.owner) in w.granted)
  }

  function Fresh(w: World): Handle
    requires w.history.records != []
  {
    Handle(|w.history.records| - 1, Current(w.history))
  }

  /**
   One round of `cas_transform`: the transform runs on the cache; a valid update
   commits only at the cached version. A lost response leaves the cache behind.
   */
  function Happen(w: World, e: Event, maxBytes: nat): World
    requires CanHappen(w, e)
  {
    match e
    case Open(name) => w.(handles := w.handles[name := Fresh(w)])
    case Refresh(name) => w.(handles := w.handles[name := Fresh(w)])
    case Attempt(name, op, delivered) =>
      var handle := w.handles[name];
      match ApplyOp(op, handle.cache, maxBytes)
      case Ok(Update(next)) =>
        if Valid(next) && handle.version == |w.history.records| - 1 then
          var committed := w.(history := Append(w.history, op, next));
          if delivered then
            committed.(handles := w.handles[name := Handle(|w.history.records|, next)],
                       granted := if op.Claim? then w.granted + {(next.epoch, next.owner)} else w.granted)
          else committed
        else w
      case _ => w
  }

  /** Some version shows this grant. */
  predicate Shown(h: History, grant: (nat, string)) {
    exists v :: 0 <= v < |h.records| && h.records[v].epoch == grant.0 && h.records[v].owner == grant.1
  }

  predicate CacheOk(h: History, handle: Handle) {
    handle.version < |h.records| && handle.cache == h.records[handle.version]
  }

  ghost predicate WorldOk(w: World, maxBytes: nat) {
    && OkHistory(w.history, maxBytes)
    && (forall name :: name in w.handles ==> CacheOk(w.history, w.handles[name]))
    && (forall c :: c in w.granted ==> Shown(w.history, c))
  }

  lemma AppendKeeps(h: History, op: Op, next: Record)
    ensures forall c :: Shown(h, c) ==> Shown(Append(h, op, next), c)
    ensures forall c: Handle :: CacheOk(h, c) ==> CacheOk(Append(h, op, next), c)
    ensures Shown(Append(h, op, next), (next.epoch, next.owner))
    ensures CacheOk(Append(h, op, next), Handle(|h.records|, next))
  {
    var g := Append(h, op, next);
    assert g.records[|h.records|] == next;
    forall c | Shown(h, c) ensures Shown(g, c) {
      var v :| 0 <= v < |h.records| && h.records[v].epoch == c.0 && h.records[v].owner == c.1;
      assert g.records[v] == h.records[v];
    }
  }

  lemma HappenKeepsOk(w: World, e: Event, maxBytes: nat)
    requires WorldOk(w, maxBytes) && CanHappen(w, e)
    ensures WorldOk(Happen(w, e, maxBytes), maxBytes)
  {
    if e.Attempt? {
      var handle := w.handles[e.name];
      var result := ApplyOp(e.op, handle.cache, maxBytes);
      if result.Ok? && result.value.Update? && Valid(result.value.next) && handle.version == |w.history.records| - 1 {
        assert CacheOk(w.history, handle);
        assert Commits(e.op, Current(w.history), result.value.next, maxBytes);
        AppendOk(w.history, e.op, result.value.next, maxBytes);
        AppendKeeps(w.history, e.op, result.value.next);
      }
    }
  }

  function Genesis(buckets: seq<string>): World {
    World(History([Initial(buckets)], []), map[], {})
  }

  ghost predicate IsRun(buckets: seq<string>, events: seq<Event>, worlds: seq<World>, maxBytes: nat) {
    && |worlds| == |events| + 1 && worlds[0] == Genesis(buckets)
    && forall i :: 0 <= i < |events| ==> Follows(worlds[i], events[i], worlds[i + 1], maxBytes)
  }

  predicate Follows(w: World, e: Event, u: World, maxBytes: nat) {
    CanHappen(w, e) && u == Happen(w, e, maxBytes)
  }

  /**
   Whatever the processes do with stale caches and lost responses, the register's
   history is a chain of validated requests and every cache is one of its versions.
   */
  lemma {:induction false} RunsKeepHistory(buckets: seq<string>, events: seq<Event>, worlds: seq<World>, maxBytes: nat,
                                           i: nat)
    requires ValidBuckets(buckets) && IsRun(buckets, events, worlds, maxBytes) && i < |worlds|
    ensures WorldOk(worlds[i], maxBytes)
    decreases i
  {
    if i > 0 {
      RunsKeepHistory(buckets, events, worlds, maxBytes, i - 1);
      assert Follows(worlds[i - 1], events[i - 1], worlds[i], maxBytes);
      HappenKeepsOk(worlds[i - 1], events[i - 1], maxBytes);
    }
  }

  /** No two processes are ever granted the same epoch. */
  lemma GrantsAreExclusive(buckets: seq<string>, events: seq<Event>, worlds: seq<World>, maxBytes: nat, i: nat,
                           epoch: nat, a: string, b: string)
    requires ValidBuckets(buckets) && IsRun(buckets, events, worlds, maxBytes) && i < |worlds|
    requires (epoch, a) in worlds[i].granted && (epoch, b) in worlds[i].granted
    ensures a == b
  {
    RunsKeepHistory(buckets, events, worlds, maxBytes, i);
    var h := worlds[i].history;
    assert Shown(h, (epoch, a)) && Shown(h, (epoch, b));
    var v :| 0 <= v < |h.records| && h.records[v].epoch == epoch && h.records[v].owner == a;
    var w :| 0 <= w < |h.records| && h.records[w].epoch == epoch && h.records[w].owner == b;
    if v <= w {
      OneOwnerPerEpoch(h, maxBytes, v, w);
    } else {
      OneOwnerPerEpoch(h, maxBytes, w, v);
    }
  }
}
