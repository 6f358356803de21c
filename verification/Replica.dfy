/**
 Storage semantics under the protocol: one replica's object with its generation,
 append session and finalized flag, and every request the protocol makes of it.
 */
module Replica {
  import opened Wrappers
  import opened Transport
  import opened Records

  datatype Object = Object(generation: nat, metageneration: nat, finalized: bool, session: nat, bytes: Bytes)

  /** The object's slot and the source of fresh ids. */
  datatype Disk = Disk(slot: Option<Object>, nextId: nat)

  datatype Request =
    | Create
    | Append(session: Option<nat>, offset: nat, data: Bytes)
    | Resume(handle: Option<nat>)
    | Takeover(generation: nat)
    | Replace(observed: Option<(nat, nat)>, data: Bytes)
    | Finalize(offset: nat)
    | Delete(generation: nat)

  /** A fresh appendable object: its id names both the generation and the session. */
  function Fresh(d: Disk, data: Bytes): Disk {
    Disk(Some(Object(d.nextId, 1, false, d.nextId, data)), d.nextId + 1)
  }

  function ServeAppend(d: Disk, o: Object, session: Option<nat>, offset: nat,
                       data: Bytes): Result<Disk, TransportCode> {
    if session.None? || o.finalized || o.session != session.value then Err(FailedPrecondition)
    else if offset != |o.bytes| then Err(OutOfRange)
    else Ok(d.(slot := Some(o.(bytes := o.bytes + data))))
  }

  function ServeTakeover(d: Disk, o: Object, generation: nat): Result<Disk, TransportCode> {
    if o.finalized || o.generation != generation then Err(FailedPrecondition)
    else Ok(Disk(Some(o.(session := d.nextId)), d.nextId + 1))
  }

  /** Finalizing checks the size only; repeating it changes nothing. */
  function ServeFinalize(d: Disk, o: Object, offset: nat): Result<Disk, TransportCode> {
    if |o.bytes| != offset then Err(DataLoss)
    else if o.finalized then Ok(d)
    else Ok(d.(slot := Some(o.(finalized := true, metageneration := o.metageneration + 1))))
  }

  function ServeReplace(d: Disk, observed: Option<(nat, nat)>, data: Bytes): Result<Disk, TransportCode> {
    var current := if d.slot.None? then None else Some((d.slot.value.generation, d.slot.value.metageneration));
    if observed == current then Ok(Fresh(d, data)) else Err(FailedPrecondition)
  }

  /** What a request does to the disk, or how it is refused. */
  function Serve(d: Disk, request: Request): Result<Disk, TransportCode> {
    match request
    case Create => if d.slot.Some? then Err(AlreadyExists) else Ok(Fresh(d, []))
    case Replace(observed, data) => ServeReplace(d, observed, data)
    case Append(session, offset, data) =>
      if d.slot.None? then Err(if session.None? then FailedPrecondition else NotFound)
      else ServeAppend(d, d.slot.value, session, offset, data)
    case Resume(handle) =>
      if d.slot.None? then Err(NotFound)
      else if d.slot.value.finalized || handle != Some(d.slot.value.session) then Err(FailedPrecondition)
      else Ok(d)
    case Takeover(generation) => if d.slot.None? then Err(NotFound) else ServeTakeover(d, d.slot.value, generation)
    case Finalize(offset) => if d.slot.None? then Err(NotFound) else ServeFinalize(d, d.slot.value, offset)
    case Delete(generation) =>
      if d.slot.None? then Err(NotFound)
      else if d.slot.value.generation != generation then Err(FailedPrecondition)
      else Ok(d.(slot := None))
  }

  /** The disk after a request; a refused one changes nothing. */
  function After(d: Disk, request: Request): Disk {
    match Serve(d, request)
    case Ok(next) => next
    case Err(_) => d
  }

  // ------------------------------------------------------------------- runs

  /** Any requests from any handles, in the order the replica served them. */
  ghost predicate IsRun(requests: seq<Request>, trace: seq<Disk>) {
    && |trace| == |requests| + 1
    && IdsUsed(trace[0])
    && forall i :: 0 <= i < |requests| ==> trace[i + 1] == After(trace[i], requests[i])
  }

  /** Ids in use were drawn earlier. */
  predicate IdsUsed(d: Disk) {
    d.slot.Some? ==> d.slot.value.generation <= d.slot.value.session < d.nextId
  }

  predicate HasGeneration(d: Disk, g: nat) {
    d.slot.Some? && d.slot.value.generation == g
  }

  lemma {:induction false} RunKeepsIds(requests: seq<Request>, trace: seq<Disk>, i: nat, j: nat)
    requires IsRun(requests, trace) && i <= j < |trace|
    ensures IdsUsed(trace[j]) && trace[i].nextId <= trace[j].nextId
    decreases j
  {
    if j > 0 {
      RunKeepsIds(requests, trace, if i < j then i else i - 1, j - 1);
      assert trace[j] == After(trace[j - 1], requests[j - 1]);
    }
  }

  /** A generation that is gone, or passed over, never comes back. */
  lemma {:induction false} GoneGenerationStaysGone(requests: seq<Request>, trace: seq<Disk>, i: nat, j: nat, g: nat)
    requires IsRun(requests, trace) && i <= j < |trace|
    requires g < trace[i].nextId && !HasGeneration(trace[i], g)
    ensures !HasGeneration(trace[j], g)
    decreases j
  {
    if i < j {
      GoneGenerationStaysGone(requests, trace, i, j - 1, g);
      RunKeepsIds(requests, trace, i, j - 1);
      assert trace[j] == After(trace[j - 1], requests[j - 1]);
    }
  }

  /** What one generation looks like later: longer, never shorter, frozen once finalized. */
  predicate Grows(a: Object, b: Object) {
    && a.generation == b.generation && a.session <= b.session && a.metageneration <= b.metageneration
    && a.bytes <= b.bytes
    && (a.finalized ==> b.finalized && a.bytes == b.bytes)
  }

  lemma HadGeneration(d: Disk, request: Request, g: nat)
    requires IdsUsed(d) && g < d.nextId && HasGeneration(After(d, request), g)
    ensures HasGeneration(d, g)
  {
  }

  lemma StepGrows(d: Disk, request: Request, g: nat)
    requires IdsUsed(d) && HasGeneration(d, g) && HasGeneration(After(d, request), g)
    ensures Grows(d.slot.value, After(d, request).slot.value)
  {
  }

  /**
   One generation over any run: its bytes only extend, and a finalized one is
   frozen, however many other objects the slot held meanwhile.
   */
  lemma {:induction false} GenerationOnlyGrows(requests: seq<Request>, trace: seq<Disk>, i: nat, j: nat, g: nat)
    requires IsRun(requests, trace) && i <= j < |trace|
    requires HasGeneration(trace[i], g) && HasGeneration(trace[j], g)
    ensures Grows(trace[i].slot.value, trace[j].slot.value)
    decreases j
  {
    if i < j {
      RunKeepsIds(requests, trace, i, j - 1);
      RunKeepsIds(requests, trace, i, i);
      assert trace[j] == After(trace[j - 1], requests[j - 1]);
      HadGeneration(trace[j - 1], requests[j - 1], g);
      GenerationOnlyGrows(requests, trace, i, j - 1, g);
      StepGrows(trace[j - 1], requests[j - 1], g);
    }
  }

  lemma {:induction false} SessionFloor(requests: seq<Request>, trace: seq<Disk>, i: nat, j: nat, floor: nat)
    requires IsRun(requests, trace) && i <= j < |trace| && floor <= trace[i].nextId
    requires trace[i].slot.Some? ==> floor <= trace[i].slot.value.session
    ensures trace[j].slot.Some? ==> floor <= trace[j].slot.value.session
    decreases j
  {
    if i < j {
      SessionFloor(requests, trace, i, j - 1, floor);
      RunKeepsIds(requests, trace, i, j - 1);
      assert trace[j] == After(trace[j - 1], requests[j - 1]);
    }
  }

  /**
   Only the newest session extends: once a later one exists, an older session's append
   and resume are refused for good.
   */
  lemma OlderSessionIsFencedForever(requests: seq<Request>, trace: seq<Disk>, i: nat, j: nat, stale: nat, offset: nat,
                                    data: Bytes)
    requires IsRun(requests, trace) && i <= j < |trace|
    requires trace[i].slot.Some? && stale < trace[i].slot.value.session
    ensures Serve(trace[j], Append(Some(stale), offset, data)).Err?
    ensures Serve(trace[j], Resume(Some(stale))).Err?
  {
    RunKeepsIds(requests, trace, i, i);
    SessionFloor(requests, trace, i, j, trace[i].slot.value.session);
  }

  /** A takeover fences every session opened before it. */
  lemma TakeoverFences(requests: seq<Request>, trace: seq<Disk>, i: nat, j: nat, g: nat, stale: nat, offset: nat,
                       data: Bytes)
    requires IsRun(requests, trace) && i < j < |trace| && requests[i] == Takeover(g)
    requires Serve(trace[i], Takeover(g)).Ok? && stale < trace[i].nextId
    ensures Serve(trace[j], Append(Some(stale), offset, data)).Err?
  {
    assert trace[i + 1] == After(trace[i], requests[i]);
    OlderSessionIsFencedForever(requests, trace, i + 1, j, stale, offset, data);
  }

  // ------------------------------------------------------------ the handle

  datatype Token = Token(generation: nat, session: nat, persistedSize: nat)

  /** The directory entry every handle of one object shares. */
  class Store {
    var disk: Disk

    constructor (nextId: nat)
      ensures disk == Disk(None, nextId) && IdsUsed(disk)
    {
      disk := Disk(None, nextId);
    }
  }

  /** One handle: its live session, if any. */
  class LocalReplica {
    const store: Store
    var session: Option<nat>

    constructor (store: Store)
      ensures this.store == store && session.None?
    {
      this.store := store;
      session := None;
    }

    method Open(request: Request) returns (r: Result<Token, TransportCode>)
      requires request.Create? || request.Takeover? || request.Replace? || request.Resume?
      modifies this, store
      ensures store.disk == After(old(store.disk), request)
      ensures r.Ok? <==> Serve(old(store.disk), request).Ok?
      ensures r.Ok? ==> store.disk.slot.Some? && session == Some(store.disk.slot.value.session)
      ensures r.Ok? ==> var o := store.disk.slot.value; r.value == Token(o.generation, o.session, |o.bytes|)
      ensures r.Err? ==> session == old(session) && r.error == Serve(old(store.disk), request).error
    {
      var served := Serve(store.disk, request);
      if served.Err? { return Err(served.error); }
      store.disk := served.value;
      var o := store.disk.slot.value;
      session := Some(o.session);
      r := Ok(Token(o.generation, o.session, |o.bytes|));
    }

    /** Appends under this handle's session; success leaves every byte durable. */
    method LaneSend(offset: nat, data: Bytes) returns (r: Result<nat, TransportCode>)
      modifies store
      ensures store.disk == After(old(store.disk), Append(session, offset, data))
      ensures r.Ok? <==> Serve(old(store.disk), Append(session, offset, data)).Ok?
      ensures r.Ok? ==> r.value == offset + |data| == |store.disk.slot.value.bytes|
    {
      var served := Serve(store.disk, Append(session, offset, data));
      if served.Err? { return Err(served.error); }
      store.disk := served.value;
      r := Ok(offset + |data|);
    }

    method FinalizeAt(offset: nat) returns (r: Result<Object, TransportCode>)
      modifies this, store
      ensures store.disk == After(old(store.disk), Finalize(offset))
      ensures r.Ok? <==> Serve(old(store.disk), Finalize(offset)).Ok?
      ensures r.Ok? ==>
                store.disk.slot == Some(r.value) && r.value.finalized && |r.value.bytes| == offset && session.None?
      ensures r.Err? ==> session == old(session)
    {
      var served := Serve(store.disk, Finalize(offset));
      if served.Err? { return Err(served.error); }
      store.disk := served.value;
      session := None;
      r := Ok(store.disk.slot.value);
    }

    method Remove(generation: nat) returns (r: Result<(), TransportCode>)
      modifies store
      ensures store.disk == After(old(store.disk), Delete(generation))
      ensures r.Ok? <==> HasGeneration(old(store.disk), generation)
    {
      var served := Serve(store.disk, Delete(generation));
      if served.Err? { return Err(served.error); }
      store.disk := served.value;
      r := Ok(());
    }
  }
}
