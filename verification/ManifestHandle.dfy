/**
 The register object and a process's handle on it, updated in place: cached
 refresh, the bounded retry loop of `cas_transform`, and the requests built on
 it. What other processes do between two steps, and what happens to a response,
 are inputs of the loop.
 */
module ManifestHandle {
  import opened Wrappers
  import opened Text
  import opened Manifest
  import opened ManifestRuns

  const MAX_CAS_ROUNDS: nat := 16

  /** What became of one update request. */
  datatype Fate = Delivered | ResponseLost | Unavailable | BackendError

  /** Other processes' requests that reach the register during one round, and the round's fate. */
  datatype Round = Round(others: seq<Op>, fate: Fate)

  datatype Outcome = Committed | AlreadyDone | Failed(error: ManifestError) | Refused | Exhausted

  class Store {
    const maxBytes: nat
    var version: nat
    var record: Record
    ghost var history: History

    ghost predicate Valid()
      reads this
    {
      && OkHistory(history, maxBytes)
      && version == |history.ops|
      && record == Current(history)
    }

    constructor (buckets: seq<string>, max: nat)
      requires ValidBuckets(buckets)
      ensures Valid() && history == History([Initial(buckets)], []) && maxBytes == max
    {
      maxBytes := max;
      version := 0;
      record := Initial(buckets);
      history := History([Initial(buckets)], []);
    }

    /** Compare-and-swap on the version. */
    method Update(expected: nat, next: Record, ghost op: Op) returns (applied: bool)
      requires Valid() && (expected == version ==> Commits(op, record, next, maxBytes))
      modifies this
      ensures Valid()
      ensures applied <==> expected == old(version)
      ensures history == if applied then Append(old(history), op, next) else old(history)
    {
      applied := expected == version;
      if applied {
        AppendOk(history, op, next, maxBytes);
        version := version + 1;
        record := next;
        history := Append(history, op, next);
      }
    }

    /** Requests of other processes, each committed if it validates on the current record. */
    method Others(ops: seq<Op>)
      requires Valid()
      modifies this
      ensures Valid() && Extends(old(history), history)
      ensures ops == [] ==> history == old(history)
    {
      for i := 0 to |ops|
        invariant Valid() && Extends(old(history), history)
        invariant i == 0 ==> history == old(history)
      {
        var result := ApplyOp(ops[i], record, maxBytes);
        if result.Ok? && result.value.Update? && Manifest.Valid(result.value.next) {
          var _ := Update(version, result.value.next, ops[i]);
        }
      }
    }
  }

  ghost predicate Extends(g: History, h: History) {
    g.records <= h.records && g.ops <= h.ops
  }

  /** The newest version is the effect of `op`, and it is newer than history `g`. */
  ghost predicate JustCommitted(g: History, h: History, op: Op) {
    |g.ops| < |h.ops| && h.ops[|h.ops| - 1] == op
  }

  /** The transform's own verdict, when there is nothing to send: failed, or done already. */
  function Settles(result: Result<Transform, ManifestError>): Option<Outcome> {
    match result
    case Err(error) => Some(Failed(error))
    case Ok(Done) => Some(AlreadyDone)
    case Ok(Update(next)) => if Manifest.Valid(next) then None else Some(Failed(Invalid))
  }

  class Handle {
    const store: Store
    const owner: string
    var epoch: nat
    var cachedVersion: nat
    var cached: Record

    /** The cache is some version the register had. */
    ghost predicate Valid()
      reads this, store
    {
      && store.Valid()
      && cachedVersion <= store.version
      && cached == store.history.records[cachedVersion]
    }

    constructor (s: Store, id: string)
      requires s.Valid()
      ensures Valid() && store == s && owner == id && epoch == 0 && cached == s.record
    {
      store := s;
      owner := id;
      epoch := 0;
      cachedVersion := s.version;
      cached := s.record;
    }

    method Refresh()
      requires Valid()
      modifies this
      ensures Valid() && cached == store.record && cachedVersion == store.version && epoch == old(epoch)
    {
      cachedVersion := store.version;
      cached := store.record;
    }

    /** Adopt a state returned by off-path work unless it is older than the cache. */
    method InstallUpdate(version: nat, record: Record)
      requires Valid() && version <= store.version && record == store.history.records[version]
      modifies this
      ensures Valid() && epoch == old(epoch)
      ensures cachedVersion == (if version >= old(cachedVersion) then version else old(cachedVersion))
    {
      if version >= cachedVersion {
        cachedVersion := version;
        cached := record;
      }
    }

    /** One round against the register: the update, if any, and what the caller sees of it. */
    method CasRound(op: Op, round: Round) returns (r: Option<Outcome>)
      requires Valid()
      modifies this, store
      ensures Valid() && Extends(old(store.history), store.history) && epoch == old(epoch)
      ensures r == Some(Committed) ==> JustCommitted(old(store.history), store.history, op)
      ensures r == Some(Committed) ==> cached == store.record && cachedVersion == store.version
      ensures old(cachedVersion) <= cachedVersion
      ensures r == Some(AlreadyDone) ==> ApplyOp(op, cached, store.maxBytes) == Ok(Done)
      ensures r.Some? && r.value.Failed? && r.value.error != Invalid ==>
                ApplyOp(op, cached, store.maxBytes) == Err(r.value.error)
      ensures r.None? ==> cached == store.record && cachedVersion == store.version
      ensures var verdict := Settles(ApplyOp(op, old(cached), store.maxBytes));
              && (verdict.Some? ==> r == verdict && cached == old(cached))
              && (verdict.None? ==> r == None || r == Some(Committed) || r == Some(Refused))
              && (verdict.None? ==> (r == Some(Refused) <==> round.fate == BackendError))
              && (r == Some(Committed) ==> round.fate == Delivered)
              && (verdict.None? && round == Round([], Delivered) && old(cachedVersion) == old(store.version) ==>
                    r == Some(Committed))
    {
      hide ApplyOp, Manifest.Valid;
      store.Others(round.others);
      var result := ApplyOp(op, cached, store.maxBytes);
      if result.Err? { return Some(Failed(result.error)); }
      if result.value.Done? { return Some(AlreadyDone); }
      var next := result.value.next;
      if !Manifest.Valid(next) { return Some(Failed(Invalid)); }
      if round.fate.BackendError? { return Some(Refused); }
      if round.fate.Unavailable? {
        Refresh();
        return None;
      }
      ghost var before := store.history;
      assert cachedVersion == store.version ==> cached == store.record;
      var applied := store.Update(cachedVersion, next, op);
      if applied {
        assert store.history.ops[|before.ops|] == op;
        assert store.history.records[|before.records|] == next;
        if round.fate.Delivered? {
          cachedVersion := store.version;
          cached := next;
          return Some(Committed);
        }
      }
      Refresh();
      return None;
    }

    /**
     `cas_transform`: at most sixteen rounds, refreshing after every conflict or lost
     response. It gives up only if every round but the first met one, and reports the
     transform's own verdict, a commit, or a backend error.
     */
    method CasTransform(op: Op, rounds: seq<Round>) returns (r: Outcome)
      requires Valid() && |rounds| == MAX_CAS_ROUNDS
      modifies this, store
      ensures Valid() && Extends(old(store.history), store.history) && epoch == old(epoch)
      ensures r == Committed ==> JustCommitted(old(store.history), store.history, op) && cached == store.record
      ensures old(cachedVersion) <= cachedVersion
      ensures r == AlreadyDone ==> ApplyOp(op, cached, store.maxBytes) == Ok(Done)
      ensures r.Failed? && r.error != Invalid ==> ApplyOp(op, cached, store.maxBytes) == Err(r.error)
      ensures r == AlreadyDone || r.Failed? ==> Settles(ApplyOp(op, cached, store.maxBytes)) == Some(r)
      ensures r == Exhausted ==> forall i :: 1 <= i < |rounds| ==> rounds[i] != Round([], Delivered)
      ensures r == Refused ==> exists i :: 0 <= i < |rounds| && rounds[i].fate == BackendError
    {
      for i := 0 to MAX_CAS_ROUNDS
        invariant Valid() && Extends(old(store.history), store.history) && epoch == old(epoch)
        invariant old(cachedVersion) <= cachedVersion
        invariant i > 0 ==> cached == store.record && cachedVersion == store.version
        invariant forall k :: 1 <= k < i ==> rounds[k] != Round([], Delivered)
      {
        var outcome := CasRound(op, rounds[i]);
        if outcome.Some? { return outcome.value; }
      }
      return Exhausted;
    }

    /** Claim a fresh epoch. On success the register showed this owner at that epoch. */
    method ClaimEpoch(rounds: seq<Round>) returns (ok: bool)
      requires Valid() && |rounds| == MAX_CAS_ROUNDS
      modifies this, store
      ensures Valid() && Extends(old(store.history), store.history)
      ensures !ok ==> epoch == old(epoch)
      ensures ok ==>
                epoch == cached.epoch == store.record.epoch && store.record.owner == owner &&
                epoch > old(store.record.epoch)
    {
      var outcome := CasTransform(Claim(owner), rounds);
      ok := outcome.Committed?;
      if ok {
        epoch := cached.epoch;
        LastClaim(old(store.history), store.history, owner, store.maxBytes);
      }
    }

    /**
     Raise the floor under a writer's claim. The refresh comes first, so success
     always means the claim was still the register's at or after the call.
     */
    method RaiseTruncation(claimEpoch: nat, claimOwner: string, floor: u64, rounds: seq<Round>) returns (r: Outcome)
      requires Valid() && |rounds| == MAX_CAS_ROUNDS
      modifies this, store
      ensures Valid() && Extends(old(store.history), store.history)
      ensures r == Committed || r == AlreadyDone ==>
                && old(store.version) <= cachedVersion
                && HoldsClaim(cached, claimEpoch, claimOwner)
                && cached.trunc >= floor
    {
      Refresh();
      r := CasTransform(RaiseTrunc(claimEpoch, claimOwner, floor), rounds);
      if r == Committed {
        LastRaise(old(store.history), store.history, RaiseTrunc(claimEpoch, claimOwner, floor), store.maxBytes);
      }
    }
  }

  lemma LastClaim(g: History, h: History, owner: string, maxBytes: nat)
    requires OkHistory(g, maxBytes) && OkHistory(h, maxBytes) && Extends(g, h) && JustCommitted(g, h, Claim(owner))
    ensures Current(h).owner == owner && Current(h).epoch > Current(g).epoch
  {
    var n := |h.ops|;
    assert Commits(h.ops[n - 1], h.records[n - 1], h.records[n], maxBytes);
    EpochStep(h.ops[n - 1], h.records[n - 1], h.records[n], maxBytes);
    HistoryMonotone(h, maxBytes, |g.ops|, n - 1);
    assert g.records[|g.ops|] == h.records[|g.ops|];
  }

  lemma LastRaise(g: History, h: History, op: Op, maxBytes: nat)
    requires OkHistory(h, maxBytes) && op.RaiseTrunc? && JustCommitted(g, h, op)
    ensures HoldsClaim(Current(h), op.epoch, op.owner) && Current(h).trunc == op.floor
  {
    var n := |h.ops|;
    assert Commits(h.ops[n - 1], h.records[n - 1], h.records[n], maxBytes);
  }
}
