/**
 Installing a committed seal decision: every replica is brought to a finalized
 copy of the canonical bytes, one request at a time, with crashes, lost
 responses, old lanes and enforcers of this and other decisions in between.
 */
module Enforcement {
  import opened Wrappers
  import opened Transport
  import opened Records
  import opened Quorum
  import opened Replica

  /** A finalized copy of exactly the canonical bytes. */
  predicate Sealed(d: Disk, data: Bytes) {
    d.slot.Some? && d.slot.value.finalized && d.slot.value.bytes == data
  }

  /** The replica holds the prefix `p`. */
  predicate Holds(d: Disk, p: Bytes) {
    d.slot.Some? && p <= d.slot.value.bytes
  }

  /** Ids were drawn earlier, and finalizing is what raised the metageneration. */
  predicate Sound(d: Disk) {
    IdsUsed(d) && (d.slot.Some? ==> d.slot.value.metageneration == if d.slot.value.finalized then 2 else 1)
  }

  /** What any requests short of deletion do to a replica: it stays, and generations only grow. */
  predicate Moves(d: Disk, e: Disk) {
    && Sound(d) && Sound(e) && d.nextId <= e.nextId
    && (d.slot.Some? ==> e.slot.Some?)
    && (e.slot.Some? && e.slot.value.generation < d.nextId ==> d.slot.Some? && Grows(d.slot.value, e.slot.value))
  }

  lemma MovesTransitive(d: Disk, e: Disk, f: Disk)
    requires Moves(d, e) && Moves(e, f)
    ensures Moves(d, f)
  {
  }

  lemma RequestMoves(d: Disk, request: Request)
    requires Sound(d) && !request.Delete?
    ensures Moves(d, After(d, request))
  {
  }

  /** What enforcement of decisions that all start with `data` does: new generations start with it too. */
  predicate Advances(d: Disk, e: Disk, data: Bytes) {
    Moves(d, e) && (e.slot.Some? && e.slot.value.generation >= d.nextId ==> data <= e.slot.value.bytes)
  }

  lemma AdvancesTransitive(d: Disk, e: Disk, f: Disk, data: Bytes)
    requires Advances(d, e, data) && Advances(e, f, data)
    ensures Advances(d, f, data)
  {
  }

  /** No prefix of the canonical bytes is ever lost on a replica. */
  lemma AdvancesKeepsHolders(d: Disk, e: Disk, data: Bytes, p: Bytes)
    requires Advances(d, e, data) && p <= data && Holds(d, p)
    ensures Holds(e, p)
  {
    assert p == data[..|p|];
  }

  function Guard(observed: Option<Object>): Option<(nat, nat)> {
    if observed.None? then None else Some((observed.value.generation, observed.value.metageneration))
  }

  /** A takeover, finalize, resume, append, or guarded replace with bytes that start with `data`. */
  predicate KeepsPrefix(request: Request, data: Bytes) {
    request.Append? || request.Resume? || request.Takeover? || request.Finalize? ||
    (request.Replace? && data <= request.data)
  }

  lemma RequestAdvances(d: Disk, request: Request, data: Bytes)
    requires Sound(d) && KeepsPrefix(request, data)
    ensures Advances(d, After(d, request), data)
  {
  }

  // ------------------------------------------------------------ sealed copies

  /**
   A sealed copy is reopened by exactly one kind of request: a replace, whatever its
   bytes, whose guard names the sealed copy itself. The guard carries no content, so
   a snapshot that only stat could take counts like one that read the bytes.
   */
  lemma ReopensExactlyWhenGuardSawSeal(d: Disk, request: Request, data: Bytes)
    requires Sealed(d, data) && !request.Delete?
    ensures !Sealed(After(d, request), data) <==> request.Replace? && request.observed == Guard(d.slot)
    ensures After(d, request).slot == d.slot <==> Sealed(After(d, request), data)
  {
  }

  /**
   Such a guard is possible: after a transient failure of its own replace, an
   enforcer observes again, skips a copy another enforcer has meanwhile sealed
   because it is finalized, and replaces it. The seal is gone until it finalizes.
   */
  lemma RetriedReplaceReopensSeal(data: Bytes) returns (before: Disk, closed: Disk, after: Disk)
    requires data != []
    ensures !Sealed(before, data) && closed == After(After(before, Replace(Guard(before.slot), data)), Finalize(|data|))
    ensures Sealed(closed, data) && after == After(closed, Replace(Guard(closed.slot), data))
    ensures !Sealed(after, data) && Holds(after, data)
  {
    before := Disk(Some(Object(0, 1, false, 0, [])), 1);
    closed := After(After(before, Replace(Guard(before.slot), data)), Finalize(|data|));
    after := After(closed, Replace(Guard(closed.slot), data));
  }

  // -------------------------------------------------------- runs of a replica

  /** Requests of the old writer and of enforcers of any decisions that all start with `p`. */
  ghost predicate PrefixRun(requests: seq<Request>, trace: seq<Disk>, p: Bytes) {
    && IsRun(requests, trace) && Sound(trace[0])
    && forall i :: 0 <= i < |requests| ==> KeepsPrefix(requests[i], p)
  }

  /** Every run advances, from any point to any later one. */
  lemma {:induction false} EnforcementAdvances(requests: seq<Request>, trace: seq<Disk>, data: Bytes, i: nat, j: nat)
    requires PrefixRun(requests, trace, data) && i <= j < |trace|
    ensures Advances(trace[i], trace[j], data)
    decreases j, i
  {
    if i < j {
      EnforcementAdvances(requests, trace, data, i, j - 1);
      assert trace[j] == After(trace[j - 1], requests[j - 1]);
      RequestAdvances(trace[j - 1], requests[j - 1], data);
      AdvancesTransitive(trace[i], trace[j - 1], trace[j], data);
    } else if j > 0 {
      EnforcementAdvances(requests, trace, data, j - 1, j - 1);
      assert trace[j] == After(trace[j - 1], requests[j - 1]);
      RequestAdvances(trace[j - 1], requests[j - 1], data);
    }
  }

  lemma {:induction false} RunKeepsSound(requests: seq<Request>, trace: seq<Disk>, i: nat)
    requires IsRun(requests, trace) && Sound(trace[0]) && i < |trace|
    ensures Sound(trace[i])
  {
    if i > 0 {
      RunKeepsSound(requests, trace, i - 1);
      assert trace[i] == After(trace[i - 1], requests[i - 1]);
    }
  }

  /** A guard that names a sealed copy was taken of the sealed copy: no snapshot of it while open matches. */
  lemma GuardOfSealSawSeal(requests: seq<Request>, trace: seq<Disk>, data: Bytes, i: nat, k: nat)
    requires IsRun(requests, trace) && Sound(trace[0]) && i < |trace| && k < |trace|
    requires Sealed(trace[i], data) && Guard(trace[k].slot) == Guard(trace[i].slot)
    ensures Sealed(trace[k], data)
  {
    RunKeepsSound(requests, trace, i);
    RunKeepsSound(requests, trace, k);
    var g := trace[i].slot.value.generation;
    if k <= i { GenerationOnlyGrows(requests, trace, k, i, g); } else { GenerationOnlyGrows(requests, trace, i, k, g); }
  }

  /** No replace between `i` and `j` was guarded by this object. */
  predicate NoGuardSaw(requests: seq<Request>, slot: Option<Object>, i: nat, j: nat)
    requires i <= j <= |requests|
  {
    forall k :: i <= k < j ==> !(requests[k].Replace? && requests[k].observed == Guard(slot))
  }

  predicate SlotKept(trace: seq<Disk>, i: nat, j: nat)
    requires i <= j < |trace|
  {
    forall k :: i <= k <= j ==> trace[k].slot == trace[i].slot
  }

  /**
   A sealed copy stays untouched over any run without deletions if and only if no replace
   in it was guarded by that copy.
   */
  lemma {:induction false} SealedIsForever(requests: seq<Request>, trace: seq<Disk>, data: Bytes, i: nat, j: nat)
    requires IsRun(requests, trace) && i <= j < |trace| && Sealed(trace[i], data)
    requires forall k :: i <= k < j ==> !requests[k].Delete?
    ensures SlotKept(trace, i, j) <==> NoGuardSaw(requests, trace[i].slot, i, j)
    decreases j
  {
    if i < j {
      var s := j - 1;
      SealedIsForever(requests, trace, data, i, s);
      assert trace[j] == After(trace[s], requests[s]);
      if SlotKept(trace, i, s) {
        assert trace[s].slot == trace[i].slot;
        ReopensExactlyWhenGuardSawSeal(trace[s], requests[s], data);
      }
    }
  }

  // --------------------------------------------------------- copies on one stream

  /** The replica holds a prefix of the segment's stream. */
  predicate OnStream(d: Disk, stream: Bytes) {
    d.slot.Some? ==> d.slot.value.bytes <= stream
  }

  /**
   What lanes and enforcers of any decision send: appends of the stream at its own
   offsets, and replaces with some prefix of it, guarded by whatever they saw.
   */
  predicate HonestRequest(request: Request, stream: Bytes) {
    match request
    case Append(_, offset, data) => offset + |data| <= |stream| && data == stream[offset..offset + |data|]
    case Replace(_, data) => data <= stream
    case Delete(_) => false
    case _ => true
  }

  lemma HonestKeepsStream(d: Disk, request: Request, stream: Bytes)
    requires OnStream(d, stream) && HonestRequest(request, stream)
    ensures OnStream(After(d, request), stream)
  {
    if request.Append? && Serve(d, request).Ok? {
      var offset := request.offset;
      assert d.slot.value.bytes + request.data == stream[..offset + |request.data|];
    }
  }

  /** Any requests of lanes and of enforcers of any decisions on one segment's stream. */
  ghost predicate HonestRun(requests: seq<Request>, trace: seq<Disk>, stream: Bytes) {
    && IsRun(requests, trace) && Sound(trace[0]) && OnStream(trace[0], stream)
    && forall i :: 0 <= i < |requests| ==> HonestRequest(requests[i], stream)
  }

  lemma {:induction false} HonestStaysOnStream(requests: seq<Request>, trace: seq<Disk>, stream: Bytes, i: nat)
    requires HonestRun(requests, trace, stream) && i < |trace|
    ensures OnStream(trace[i], stream)
  {
    if i > 0 {
      HonestStaysOnStream(requests, trace, stream, i - 1);
      assert trace[i] == After(trace[i - 1], requests[i - 1]);
      HonestKeepsStream(trace[i - 1], requests[i - 1], stream);
    }
  }

  /** A finish that is served at the canonical length seals: one stream has one prefix of that length. */
  lemma ServedFinishSeals(d: Disk, data: Bytes, stream: Bytes)
    requires OnStream(d, stream) && data <= stream && Serve(d, Finalize(|data|)).Ok?
    ensures Sealed(After(d, Finalize(|data|)), data)
  {
    var bytes := d.slot.value.bytes;
    assert bytes == stream[..|data|] == data;
  }

  predicate ServedReplace(d: Disk, request: Request) { request.Replace? && Serve(d, request).Ok? }

  predicate ServedFinish(d: Disk, request: Request, data: Bytes) {
    request == Finalize(|data|) && Serve(d, request).Ok?
  }

  /** Every replace served between `i` and `j` was finished at the canonical length before `j`. */
  ghost predicate ReplacesFinished(requests: seq<Request>, trace: seq<Disk>, data: Bytes, i: nat, j: nat)
    requires i <= j <= |requests| < |trace|
  {
    forall t :: i <= t < j && ServedReplace(trace[t], requests[t]) ==> FinishedAfter(requests, trace, data, t, j)
  }

  ghost predicate FinishedAfter(requests: seq<Request>, trace: seq<Disk>, data: Bytes, t: nat, j: nat)
    requires t <= j <= |requests| < |trace|
  {
    exists u :: t < u < j && ServedFinish(trace[u], requests[u], data)
  }

  /**
   Exactly when a copy that was sealed is sealed at a later moment, whatever lanes and
   enforcers of this and other decisions did: every replace in between was followed by
   a finalize served at the canonical length.
   */
  lemma {:induction false} SealedAgainExactly(requests: seq<Request>, trace: seq<Disk>, data: Bytes, stream: Bytes,
                                              i: nat, j: nat)
    requires HonestRun(requests, trace, stream) && data <= stream && i <= j < |trace| && Sealed(trace[i], data)
    ensures Sealed(trace[j], data) <==> ReplacesFinished(requests, trace, data, i, j)
    decreases j
  {
    if i < j {
      var s := j - 1;
      SealedAgainExactly(requests, trace, data, stream, i, s);
      HonestStaysOnStream(requests, trace, stream, s);
      assert trace[j] == After(trace[s], requests[s]);
      FinishedStep(requests, trace, data, i, s);
      SealStep(trace[s], requests[s], data, stream);
    }
  }

  lemma SealStep(d: Disk, request: Request, data: Bytes, stream: Bytes)
    requires OnStream(d, stream) && data <= stream && !request.Delete?
    ensures ServedReplace(d, request) ==> !Sealed(After(d, request), data)
    ensures ServedFinish(d, request, data) ==> Sealed(After(d, request), data)
    ensures !ServedReplace(d, request) && !ServedFinish(d, request, data) ==>
              (Sealed(After(d, request), data) <==> Sealed(d, data))
  {
    if ServedFinish(d, request, data) { ServedFinishSeals(d, data, stream); }
  }

  lemma FinishedStep(requests: seq<Request>, trace: seq<Disk>, data: Bytes, i: nat, s: nat)
    requires i <= s < |requests| < |trace|
    ensures ServedReplace(trace[s], requests[s]) ==> !ReplacesFinished(requests, trace, data, i, s + 1)
    ensures ServedFinish(trace[s], requests[s], data) ==> ReplacesFinished(requests, trace, data, i, s + 1)
    ensures !ServedReplace(trace[s], requests[s]) && !ServedFinish(trace[s], requests[s], data) ==>
              (ReplacesFinished(requests, trace, data, i, s + 1) <==> ReplacesFinished(requests, trace, data, i, s))
  {
    hide Serve;
    if ServedReplace(trace[s], requests[s]) {
      assert !FinishedAfter(requests, trace, data, s, s + 1);
    } else if ServedFinish(trace[s], requests[s], data) {
      forall t | i <= t < s + 1 && ServedReplace(trace[t], requests[t])
        ensures FinishedAfter(requests, trace, data, t, s + 1)
      {
        assert t < s < s + 1;
      }
    } else {
      forall t | i <= t < s
        ensures FinishedAfter(requests, trace, data, t, s + 1) <==> FinishedAfter(requests, trace, data, t, s)
      {
      }
    }
  }

  /** Only lanes append, no enforcer does: no append between `i` and `j` uses a session opened at `floor` or later. */
  predicate OnlyOldAppends(requests: seq<Request>, floor: nat, i: nat, j: nat)
    requires i <= j <= |requests|
  {
    forall t :: i <= t < j && requests[t].Append? && requests[t].session.Some? ==> requests[t].session.value < floor
  }

  ghost predicate Replaced(requests: seq<Request>, trace: seq<Disk>, i: nat, j: nat)
    requires i <= j <= |requests| < |trace|
  {
    exists t :: i <= t < j && ServedReplace(trace[t], requests[t])
  }

  /** The last replace served between `i` and `j`, if any, carries `p`. */
  ghost predicate LastReplaceCarries(requests: seq<Request>, trace: seq<Disk>, p: Bytes, i: nat, j: nat)
    requires i <= j <= |requests| < |trace|
  {
    forall t :: i <= t < j && ServedReplace(trace[t], requests[t]) && !Replaced(requests, trace, t + 1, j) ==>
      p <= requests[t].data
  }

  lemma LastReplaceStep(requests: seq<Request>, trace: seq<Disk>, p: Bytes, i: nat, s: nat)
    requires i <= s < |requests| < |trace|
    ensures ServedReplace(trace[s], requests[s]) ==>
              (LastReplaceCarries(requests, trace, p, i, s + 1) <==> p <= requests[s].data)
    ensures !ServedReplace(trace[s], requests[s]) ==>
              (LastReplaceCarries(requests, trace, p, i, s + 1) <==> LastReplaceCarries(requests, trace, p, i, s))
  {
    hide ServedReplace;
    var n := s + 1;
    if ServedReplace(trace[s], requests[s]) {
      assert forall u :: i < u <= s ==> Replaced(requests, trace, u, n);
      assert !Replaced(requests, trace, n, n);
    } else {
      assert forall u :: i < u <= s ==> (Replaced(requests, trace, u, n) <==> Replaced(requests, trace, u, s));
    }
  }

  /**
   Exactly what enforcers of other decisions cost: a replica that held `p` still holds
   it if and only if the last replace it served since carries bytes that contain `p`.
   */
  lemma {:induction false} HeldExactly(requests: seq<Request>, trace: seq<Disk>, p: Bytes, floor: nat, i: nat, j: nat)
    requires IsRun(requests, trace) && i <= j < |trace| && Holds(trace[i], p) && floor <= trace[i].nextId
    requires (forall t :: i <= t < j ==> !requests[t].Delete?) && OnlyOldAppends(requests, floor, i, j)
    ensures trace[j].slot.Some? && (Replaced(requests, trace, i, j) ==> floor <= trace[j].slot.value.session)
    ensures Holds(trace[j], p) <==> LastReplaceCarries(requests, trace, p, i, j)
    decreases j
  {
    if i < j {
      var s := j - 1;
      HeldExactly(requests, trace, p, floor, i, s);
      RunKeepsIds(requests, trace, i, s);
      assert trace[j] == After(trace[s], requests[s]);
      LastReplaceStep(requests, trace, p, i, s);
      HeldStep(trace[s], requests[s], p, floor);
      if !Replaced(requests, trace, i, s) { NeverReplacedCarries(requests, trace, p, i, s); }
    }
  }

  lemma NeverReplacedCarries(requests: seq<Request>, trace: seq<Disk>, p: Bytes, i: nat, j: nat)
    requires i <= j <= |requests| < |trace| && !Replaced(requests, trace, i, j)
    ensures LastReplaceCarries(requests, trace, p, i, j)
  {
  }

  lemma HeldStep(d: Disk, request: Request, p: Bytes, floor: nat)
    requires IdsUsed(d) && d.slot.Some? && floor <= d.nextId && !request.Delete?
    requires request.Append? && request.session.Some? ==> request.session.value < floor
    ensures After(d, request).slot.Some?
    ensures floor <= d.slot.value.session || ServedReplace(d, request) ==> floor <= After(d, request).slot.value.session
    ensures ServedReplace(d, request) ==> (Holds(After(d, request), p) <==> p <= request.data)
    ensures !ServedReplace(d, request) && Holds(d, p) ==> Holds(After(d, request), p)
    ensures !ServedReplace(d, request) && floor <= d.slot.value.session ==>
              (Holds(After(d, request), p) <==> Holds(d, p))
  {
  }

  // ----------------------------------------------------- runs of the cluster

  datatype ClusterStep = ClusterStep(zone: nat, request: Request)

  /** The requests one replica sees; a request to another replica does nothing here. */
  function Local(steps: seq<ClusterStep>, zone: nat): seq<Request> {
    seq(|steps|, i requires 0 <= i < |steps| => if steps[i].zone == zone then steps[i].request else Resume(None))
  }

  function Column(states: seq<seq<Disk>>, zone: nat): seq<Disk>
    requires forall i :: 0 <= i < |states| ==> zone < |states[i]|
  {
    seq(|states|, i requires 0 <= i < |states| => states[i][zone])
  }

  /** Every replica's own requests form a run that keeps `p`. */
  ghost predicate ClusterRun(n: nat, steps: seq<ClusterStep>, states: seq<seq<Disk>>, p: Bytes) {
    && (forall i :: 0 <= i < |states| ==> |states[i]| == n)
    && forall zone: nat :: zone < n ==> PrefixRun(Local(steps, zone), Column(states, zone), p)
  }

  function HolderSet(disks: seq<Disk>, p: Bytes): set<nat> {
    set z: nat | z < |disks| && Holds(disks[z], p)
  }

  /**
   Crash safety at every step: from any state of any interleaving to any later one,
   no replica stops holding `p`, as long as every decision being enforced contains
   it. `RecoveryChains` proves that every recovery's decision contains every committed
   record, so superseded enforcers with other decisions are covered too.
   */
  lemma HoldersNeverShrink(n: nat, steps: seq<ClusterStep>, states: seq<seq<Disk>>, p: Bytes, i: nat, j: nat)
    requires ClusterRun(n, steps, states, p) && i <= j < |states|
    ensures HolderSet(states[i], p) <= HolderSet(states[j], p)
  {
    forall z: nat | z < n && Holds(states[i][z], p) ensures Holds(states[j][z], p) {
      EnforcementAdvances(Local(steps, z), Column(states, z), p, i, j);
      assert Column(states, z)[i] == states[i][z] && Column(states, z)[j] == states[j][z];
      AdvancesKeepsHolders(states[i][z], states[j][z], p, p);
    }
  }

  /** Exactly what another decision costs: a replace by its enforcer keeps the prefixes it shares. */
  lemma OtherDecisionKeepsSharedPrefix(d: Disk, observed: Option<Object>, other: Bytes, p: Bytes)
    requires Holds(d, p)
    ensures Serve(d, Replace(Guard(observed), other)).Ok? ==>
              (Holds(After(d, Replace(Guard(observed), other)), p) <==> p <= other)
  {
  }
}
