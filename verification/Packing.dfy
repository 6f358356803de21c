/** Splitting and joining chunks into wire messages below the service's inbound cap. */
module Packing {
  import opened Records

  const WIRE_MESSAGE_TARGET_BYTES: nat := 262_144

  datatype Message = Message(relativeOffset: nat, content: Bytes)

  /** The chunks' bytes, end to end. */
  function Concat(chunks: seq<Bytes>): Bytes {
    if chunks == [] then [] else Concat(chunks[..|chunks| - 1]) + chunks[|chunks| - 1]
  }

  function Payload(messages: seq<Message>): Bytes {
    if messages == [] then [] else Payload(messages[..|messages| - 1]) + messages[|messages| - 1].content
  }

  lemma ConcatSnoc(chunks: seq<Bytes>, last: Bytes)
    ensures Concat(chunks + [last]) == Concat(chunks) + last
  {
    assert (chunks + [last])[..|chunks|] == chunks;
  }

  lemma {:induction false} ConcatAppend(a: seq<Bytes>, b: seq<Bytes>)
    ensures Concat(a + b) == Concat(a) + Concat(b)
    decreases |b|
  {
    if b == [] {
      assert a + b == a;
    } else {
      var n := |b| - 1;
      ConcatAppend(a, b[..n]);
      assert a + b == (a + b[..n]) + [b[n]];
      ConcatSnoc(a + b[..n], b[n]);
    }
  }

  /** Every message carries data, fits the target, and starts where the one before ends. */
  predicate WellPacked(messages: seq<Message>) {
    && (forall i :: 0 <= i < |messages| ==> 0 < |messages[i].content| <= WIRE_MESSAGE_TARGET_BYTES)
    && (messages != [] ==> messages[0].relativeOffset == 0)
    && forall i :: 0 < i < |messages| ==>
         messages[i].relativeOffset == messages[i - 1].relativeOffset + |messages[i - 1].content|
  }

  /** Offset just after the last message. */
  function EndOffset(messages: seq<Message>): nat {
    if messages == [] then 0
    else messages[|messages| - 1].relativeOffset + |messages[|messages| - 1].content|
  }

  lemma {:induction false} EndOffsetIsLength(messages: seq<Message>)
    requires WellPacked(messages)
    ensures EndOffset(messages) == |Payload(messages)|
    decreases |messages|
  {
    if messages != [] {
      var n := |messages| - 1;
      EndOffsetIsLength(messages[..n]);
      assert n > 0 ==> messages[..n][n - 1] == messages[n - 1];
    }
  }

  /** A message's content is the payload at its offset. */
  lemma {:induction false} MessageIsSlice(messages: seq<Message>, i: nat)
    requires WellPacked(messages) && i < |messages|
    ensures messages[i].relativeOffset + |messages[i].content| <= |Payload(messages)|
    ensures messages[i].content == Payload(messages)[messages[i].relativeOffset..][..|messages[i].content|]
    decreases |messages|
  {
    var n := |messages| - 1;
    var front := messages[..n];
    EndOffsetIsLength(messages);
    EndOffsetIsLength(front);
    if i < n {
      MessageIsSlice(front, i);
      var at := messages[i].relativeOffset;
      assert front[i] == messages[i];
      assert Payload(messages)[at..][..|messages[i].content|] == Payload(front)[at..][..|messages[i].content|];
    }
  }

  method Push(messages: seq<Message>, relativeOffset: nat, content: Bytes) returns (pushed: seq<Message>, next: nat)
    requires WellPacked(messages) && relativeOffset == EndOffset(messages)
    requires 0 < |content| <= WIRE_MESSAGE_TARGET_BYTES
    ensures WellPacked(pushed) && next == EndOffset(pushed)
    ensures Payload(pushed) == Payload(messages) + content && pushed != []
  {
    pushed := messages + [Message(relativeOffset, content)];
    next := relativeOffset + |content|;
    assert pushed[..|messages|] == messages;
  }

  /** Full-size pieces of a chunk larger than the target go out directly; the remainder stays. */
  method SplitLarge(messages0: seq<Message>, offset0: nat, data: Bytes)
    returns (messages: seq<Message>, relativeOffset: nat, rest: Bytes)
    requires WellPacked(messages0) && offset0 == EndOffset(messages0)
    ensures WellPacked(messages) && relativeOffset == EndOffset(messages)
    ensures |rest| <= WIRE_MESSAGE_TARGET_BYTES && Payload(messages) + rest == Payload(messages0) + data
    ensures |data| <= WIRE_MESSAGE_TARGET_BYTES ==> messages == messages0 && rest == data
  {
    messages, relativeOffset, rest := messages0, offset0, data;
    while |rest| > WIRE_MESSAGE_TARGET_BYTES
      invariant WellPacked(messages) && relativeOffset == EndOffset(messages)
      invariant Payload(messages) + rest == Payload(messages0) + data
      invariant |data| <= WIRE_MESSAGE_TARGET_BYTES ==> messages == messages0 && rest == data
      decreases |rest|
    {
      var piece := rest[..WIRE_MESSAGE_TARGET_BYTES];
      ghost var was := messages;
      assert rest == piece + rest[WIRE_MESSAGE_TARGET_BYTES..];
      messages, relativeOffset := Push(messages, relativeOffset, piece);
      rest := rest[WIRE_MESSAGE_TARGET_BYTES..];
      assert Payload(messages) + rest == Payload(was) + (piece + rest);
    }
  }

  /** One chunk: flush what would overflow, send full pieces, keep the rest. */
  method PackChunk(messages0: seq<Message>, offset0: nat, packed0: Bytes, data: Bytes)
    returns (messages: seq<Message>, relativeOffset: nat, packed: Bytes)
    requires WellPacked(messages0) && offset0 == EndOffset(messages0) && |packed0| <= WIRE_MESSAGE_TARGET_BYTES
    ensures WellPacked(messages) && relativeOffset == EndOffset(messages) && |packed| <= WIRE_MESSAGE_TARGET_BYTES
    ensures Payload(messages) + packed == Payload(messages0) + packed0 + data
  {
    hide Payload, EndOffset, WellPacked;
    messages, relativeOffset, packed := messages0, offset0, packed0;
    if packed != [] && |packed| + |data| > WIRE_MESSAGE_TARGET_BYTES {
      messages, relativeOffset := Push(messages, relativeOffset, packed);
      packed := [];
    }
    ghost var before := Payload(messages);
    var rest;
    messages, relativeOffset, rest := SplitLarge(messages, relativeOffset, data);
    ghost var kept := packed;
    packed := packed + rest;
    assert kept == [] ==> packed == rest;
    assert before + (packed0 + rest) == before + packed0 + rest;
  }

  /** `pack_append`: messages whose contents, end to end, are exactly the chunks. */
  method PackAppend(chunks: seq<Bytes>) returns (messages: seq<Message>)
    ensures WellPacked(messages)
    ensures Payload(messages) == Concat(chunks)
    ensures messages == [] <==> Concat(chunks) == []
  {
    messages := [];
    var packed: Bytes := [];
    var relativeOffset := 0;
    for k := 0 to |chunks|
      invariant WellPacked(messages) && relativeOffset == EndOffset(messages)
      invariant |packed| <= WIRE_MESSAGE_TARGET_BYTES
      invariant Payload(messages) + packed == Concat(chunks[..k])
    {
      hide Payload, EndOffset, WellPacked, Concat;
      assert chunks[..k + 1] == chunks[..k] + [chunks[k]];
      ConcatSnoc(chunks[..k], chunks[k]);
      messages, relativeOffset, packed := PackChunk(messages, relativeOffset, packed, chunks[k]);
    }
    assert chunks[..|chunks|] == chunks;
    if packed != [] {
      messages, relativeOffset := Push(messages, relativeOffset, packed);
    }
    PayloadEmpty(messages);
  }

  lemma PayloadEmpty(messages: seq<Message>)
    requires WellPacked(messages)
    ensures Payload(messages) == [] <==> messages == []
  {
    if messages != [] {
      assert |messages[|messages| - 1].content| > 0;
    }
  }

  // ------------------------------------------------------- one-shot writes

  datatype WriteRequest = WriteRequest(first: bool, writeOffset: nat, content: Bytes, flush: bool, stateLookup: bool)

  function Sent(requests: seq<WriteRequest>): Bytes {
    if requests == [] then [] else Sent(requests[..|requests| - 1]) + requests[|requests| - 1].content
  }

  /** One flag position: the object is named first, the flush and lookup come last. */
  predicate Framed(requests: seq<WriteRequest>, i: nat)
    requires i < |requests|
  {
    && (requests[i].first <==> i == 0)
    && (requests[i].flush <==> i == |requests| - 1)
    && (requests[i].stateLookup <==> i == |requests| - 1)
    && |requests[i].content| <= WIRE_MESSAGE_TARGET_BYTES
  }

  lemma SingleChunk(data: Bytes)
    ensures Concat([data]) == data
  {
    ConcatSnoc([], data);
    assert [] + [data] == [data];
  }

  /**
   `one_shot_write_requests`: carries exactly `data` at contiguous offsets from
   `writeOffset`, flushing on the last request only; empty data is one empty request.
   */
  method OneShotWriteRequests(writeOffset: nat, data: Bytes) returns (requests: seq<WriteRequest>)
    ensures requests != [] && Sent(requests) == data
    ensures forall i :: 0 <= i < |requests| ==> Framed(requests, i)
    ensures requests[0].writeOffset == writeOffset
    ensures forall i :: 0 < i < |requests| ==>
              requests[i].writeOffset == requests[i - 1].writeOffset + |requests[i - 1].content|
    ensures |requests| == 1 || forall i :: 0 <= i < |requests| ==> requests[i].content != []
  {
    hide Payload, Concat;
    var messages := PackAppend([data]);
    SingleChunk(data);
    if messages == [] {
      return [WriteRequest(true, writeOffset, [], true, true)];
    }
    requests := AsRequests(writeOffset, messages);
    assert forall i :: 0 <= i < |requests| ==> requests[i].content == messages[i].content;
    SentIsPayload(requests, messages);
    hide Sent;
  }

  function AsRequests(writeOffset: nat, messages: seq<Message>): seq<WriteRequest> {
    var last := |messages| - 1;
    seq(|messages|, i requires 0 <= i < |messages| =>
      WriteRequest(i == 0, writeOffset + messages[i].relativeOffset, messages[i].content, i == last, i == last))
  }

  lemma {:induction false} SentIsPayload(requests: seq<WriteRequest>, messages: seq<Message>)
    requires |requests| == |messages| && forall i :: 0 <= i < |requests| ==> requests[i].content == messages[i].content
    ensures Sent(requests) == Payload(messages)
    decreases |messages|
  {
    if messages != [] {
      SentIsPayload(requests[..|requests| - 1], messages[..|messages| - 1]);
    }
  }
}
