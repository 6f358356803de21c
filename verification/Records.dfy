/**
 Record framing: `total_len: u32 | payload`, big endian, self-delimiting.

 `CompleteRecords` is the reference parser; the loop-shaped decoders below are
 proved against it, and it is proved to invert `Stream`.
 */
module Records {
  import opened Wrappers

  type byte = b: nat | b < 0x100
  type Bytes = seq<byte>

  const HEADER_LEN: nat := 4
  const U32_MAX: nat := 0xFFFF_FFFF

  datatype RecordError = Truncated | InvalidLength(len: nat) | TooLarge

  // ------------------------------------------------------------------ codec

  function PutU32(n: nat): (r: Bytes)
    requires n <= U32_MAX
    ensures |r| == HEADER_LEN
  {
    [(n / 0x100_0000) % 0x100, (n / 0x1_0000) % 0x100, (n / 0x100) % 0x100, n % 0x100]
  }

  function GetU32(s: Bytes): nat
    requires |s| >= HEADER_LEN
  {
    (s[0] as nat) * 0x100_0000 + (s[1] as nat) * 0x1_0000 + (s[2] as nat) * 0x100 + (s[3] as nat)
  }

  lemma U32RoundTrip(n: nat, rest: Bytes)
    requires n <= U32_MAX
    ensures GetU32(PutU32(n) + rest) == n
  {
    var b3, b2, b1 := n / 0x100, n / 0x1_0000, n / 0x100_0000;
    assert b2 == b3 / 0x100 && b1 == b2 / 0x100;
    assert b1 < 0x100;
    assert n == b3 * 0x100 + n % 0x100;
    assert b3 == b2 * 0x100 + b3 % 0x100;
    assert b2 == b1 * 0x100 + b2 % 0x100;
    var s := PutU32(n) + rest;
    assert s[0] == b1 % 0x100 == b1 && s[1] == b2 % 0x100 && s[2] == b3 % 0x100 && s[3] == n % 0x100;
  }

  lemma U32Injective(s: Bytes)
    requires |s| >= HEADER_LEN
    ensures GetU32(s) <= U32_MAX
    ensures PutU32(GetU32(s)) == s[..HEADER_LEN]
  {
    var a, b, c, d := s[0] as int, s[1] as int, s[2] as int, s[3] as int;
    var n := GetU32(s);
    assert n == 0x100 * (a * 0x1_0000 + b * 0x100 + c) + d;
    assert n / 0x100 == a * 0x1_0000 + b * 0x100 + c;
    assert a * 0x1_0000 + b * 0x100 + c == 0x100 * (a * 0x100 + b) + c;
    assert n / 0x1_0000 == a * 0x100 + b;
    assert n / 0x100_0000 == a;
    assert PutU32(n) == [s[0], s[1], s[2], s[3]];
  }

  /** Whether a payload and its header fit the u32 length field. */
  predicate Fits(payload: Bytes) {
    HEADER_LEN + |payload| <= U32_MAX
  }

  function EncodedLen(payload: Bytes): Result<nat, RecordError> {
    if Fits(payload) then Ok(HEADER_LEN + |payload|) else Err(TooLarge)
  }

  function Frame(payload: Bytes): (r: Bytes)
    requires Fits(payload)
    ensures |r| == HEADER_LEN + |payload|
  {
    PutU32(HEADER_LEN + |payload|) + payload
  }

  function Encode(payload: Bytes): Result<Bytes, RecordError> {
    match EncodedLen(payload)
    case Ok(_) => Ok(Frame(payload))
    case Err(e) => Err(e)
  }

  function DecodedLen(input: Bytes): (r: Result<nat, RecordError>)
    ensures r.Ok? ==> HEADER_LEN <= r.value <= |input| && r.value <= U32_MAX
  {
    if |input| < HEADER_LEN then Err(Truncated)
    else
      U32Injective(input);
      var total := GetU32(input);
      if total < HEADER_LEN then Err(InvalidLength(total))
      else if |input| < total then Err(Truncated)
      else Ok(total)
  }

  // -------------------------------------------------------- reference parser

  predicate AllFit(records: seq<Bytes>) {
    forall i :: 0 <= i < |records| ==> Fits(records[i])
  }

  /** The bytes of a segment that admitted `records` in order. */
  function Stream(records: seq<Bytes>): Bytes
    requires AllFit(records)
  {
    if records == [] then [] else Frame(records[0]) + Stream(records[1..])
  }

  /** Well-formed records at the front of `input`, stopping at the first hole. */
  function CompleteRecords(input: Bytes): (r: seq<Bytes>)
    ensures AllFit(r)
    decreases |input|
  {
    var len := DecodedLen(input);
    if len.Err? then []
    else [input[HEADER_LEN..len.value]] + CompleteRecords(input[len.value..])
  }

  /** End offset of each record of a stream that starts at `base`. */
  function EndsFrom(base: nat, records: seq<Bytes>): (r: seq<nat>)
    ensures |r| == |records|
    decreases |records|
  {
    if records == [] then []
    else
      var end := base + HEADER_LEN + |records[0]|;
      [end] + EndsFrom(end, records[1..])
  }

  function Ends(records: seq<Bytes>): (r: seq<nat>)
    ensures |r| == |records|
  {
    EndsFrom(0, records)
  }

  // ----------------------------------------------------- facts about streams

  lemma {:induction false} StreamConcat(a: seq<Bytes>, b: seq<Bytes>)
    requires AllFit(a) && AllFit(b)
    ensures AllFit(a + b) && Stream(a + b) == Stream(a) + Stream(b)
  {
    if a == [] {
      assert a + b == b;
    } else {
      StreamConcat(a[1..], b);
      assert (a + b)[0] == a[0] && (a + b)[1..] == a[1..] + b;
    }
  }

  lemma {:induction false} EndsFromShift(base: nat, records: seq<Bytes>, j: nat)
    requires AllFit(records) && j < |records|
    ensures EndsFrom(base, records)[j] == base + |Stream(records[..j + 1])|
    decreases |records|
  {
    assert records[..j + 1][0] == records[0];
    if j == 0 {
      assert records[..1][1..] == [];
      assert Stream(records[..1]) == Frame(records[0]) + Stream([]);
    } else {
      EndsFromShift(base + HEADER_LEN + |records[0]|, records[1..], j - 1);
      assert records[1..][..j] == records[..j + 1][1..];
    }
  }

  /** `Ends(records)[j]` is the byte length of the first `j + 1` records. */
  lemma EndsAreStreamLengths(records: seq<Bytes>, j: nat)
    requires AllFit(records) && j < |records|
    ensures Ends(records)[j] == |Stream(records[..j + 1])|
  {
    EndsFromShift(0, records, j);
  }

  lemma StreamPrefixLength(records: seq<Bytes>, i: nat, j: nat)
    requires AllFit(records) && i <= j <= |records|
    ensures |Stream(records[..i])| + HEADER_LEN * (j - i) <= |Stream(records[..j])|
    ensures Stream(records[..i]) <= Stream(records[..j]) <= Stream(records)
    decreases j - i
  {
    assert records == records[..j] + records[j..];
    StreamConcat(records[..j], records[j..]);
    if i < j {
      StreamPrefixLength(records, i, j - 1);
      assert records[..j] == records[..j - 1] + [records[j - 1]];
      StreamConcat(records[..j - 1], [records[j - 1]]);
      assert Stream([records[j - 1]]) == Frame(records[j - 1]) + Stream([]);
    }
  }

  // ------------------------------------------------- the parser inverts Stream

  lemma FrameDecodes(payload: Bytes, rest: Bytes)
    requires Fits(payload)
    ensures DecodedLen(Frame(payload) + rest) == Ok(HEADER_LEN + |payload|)
    ensures (Frame(payload) + rest)[HEADER_LEN..HEADER_LEN + |payload|] == payload
    ensures (Frame(payload) + rest)[HEADER_LEN + |payload|..] == rest
  {
    var s := Frame(payload) + rest;
    assert s == PutU32(HEADER_LEN + |payload|) + (payload + rest);
    U32RoundTrip(HEADER_LEN + |payload|, payload + rest);
  }

  /** A cut inside the first frame leaves nothing well formed. */
  lemma FrameCutFails(payload: Bytes, rest: Bytes, k: nat)
    requires Fits(payload) && k < HEADER_LEN + |payload|
    ensures k <= |Frame(payload) + rest|
    ensures DecodedLen((Frame(payload) + rest)[..k]).Err?
  {
    var s := Frame(payload) + rest;
    if k >= HEADER_LEN {
      FrameDecodes(payload, rest);
      assert s[..k][0] == s[0] && s[..k][1] == s[1] && s[..k][2] == s[2] && s[..k][3] == s[3];
    }
  }

  /** Number of records of `records` wholly inside the first `k` bytes. */
  function WholeRecords(records: seq<Bytes>, k: nat): (n: nat)
    ensures n <= |records|
  {
    if records == [] || k < HEADER_LEN + |records[0]| then 0
    else 1 + WholeRecords(records[1..], k - (HEADER_LEN + |records[0]|))
  }

  /** `WholeRecords` is the exact threshold: record `j` counts iff its end is within `k`. */
  lemma {:induction false} WholeRecordsExact(records: seq<Bytes>, k: nat, j: nat)
    requires AllFit(records) && j < |records|
    ensures j < WholeRecords(records, k) <==> |Stream(records[..j + 1])| <= k
  {
    var first := HEADER_LEN + |records[0]|;
    assert records[..j + 1][0] == records[0];
    if j == 0 {
      assert records[..1][1..] == [];
      assert Stream(records[..1]) == Frame(records[0]) + Stream([]);
    } else {
      assert records[1..][..j] == records[..j + 1][1..];
      if first <= k {
        WholeRecordsExact(records[1..], k - first, j - 1);
      }
    }
  }

  /**
   Framing survives any cut: parsing the first `k` bytes of a stream yields
   exactly the records that end within `k`.
   */
  lemma {:induction false} ParseOfCutStream(records: seq<Bytes>, k: nat)
    requires AllFit(records) && k <= |Stream(records)|
    ensures CompleteRecords(Stream(records)[..k]) == records[..WholeRecords(records, k)]
    decreases |records|
  {
    if records == [] {
      assert Stream(records)[..k] == [];
    } else {
      var rest := Stream(records[1..]);
      var s := Frame(records[0]) + rest;
      var len := HEADER_LEN + |records[0]|;
      if k < len {
        FrameCutFails(records[0], rest, k);
      } else {
        ParseOfCutStream(records[1..], k - len);
        assert s[..k] == Frame(records[0]) + rest[..k - len];
        FrameDecodes(records[0], rest[..k - len]);
      }
    }
  }

  lemma {:induction false} WholeStream(records: seq<Bytes>)
    requires AllFit(records)
    ensures WholeRecords(records, |Stream(records)|) == |records|
  {
    if records != [] {
      WholeStream(records[1..]);
    }
  }

  /** Parsing a whole stream gives back its records. */
  lemma ParseOfStream(records: seq<Bytes>)
    requires AllFit(records)
    ensures CompleteRecords(Stream(records)) == records
  {
    ParseOfCutStream(records, |Stream(records)|);
    WholeStream(records);
    assert Stream(records)[..|Stream(records)|] == Stream(records);
    assert records[..|records|] == records;
  }

  /** A frame that decodes at `at` is the encoding of its payload. */
  lemma FrameAt(input: Bytes, at: nat)
    requires at <= |input| && DecodedLen(input[at..]).Ok?
    ensures var len := DecodedLen(input[at..]).value;
            Fits(input[at + HEADER_LEN..at + len]) && Frame(input[at + HEADER_LEN..at + len]) == input[at..at + len]
  {
    var len := DecodedLen(input[at..]).value;
    U32Injective(input[at..]);
    assert input[at..][..HEADER_LEN] == input[at..at + HEADER_LEN];
    assert input[at..at + len] == input[at..at + HEADER_LEN] + input[at + HEADER_LEN..at + len];
  }

  lemma PrefixShift(input: Bytes, n: nat, tail: Bytes)
    requires n <= |input| && tail <= input[n..]
    ensures input[..n] + tail <= input && input[n + |tail|..] == input[n..][|tail|..]
  {
    assert tail == input[n..][..|tail|];
  }

  /** Whatever the parser returns re-encodes to exactly the bytes it consumed. */
  lemma {:induction false} ParsedBytes(input: Bytes)
    ensures Stream(CompleteRecords(input)) <= input
    ensures DecodedLen(input[|Stream(CompleteRecords(input))|..]).Err?
    decreases |input|
  {
    var len := DecodedLen(input);
    if len.Ok? {
      var rest := input[len.value..];
      ParsedBytes(rest);
      assert input[0..] == input;
      FrameAt(input, 0);
      hide DecodedLen, Frame;
      var records := CompleteRecords(input);
      assert records[0] == input[HEADER_LEN..len.value] && records[1..] == CompleteRecords(rest);
      PrefixShift(input, len.value, Stream(records[1..]));
    } else {
      assert input[0..] == input;
    }
  }

  /** The records of a byte prefix are a prefix of the records. */
  lemma ParseMonotone(a: Bytes, b: Bytes)
    requires a <= b
    ensures CompleteRecords(a) <= CompleteRecords(b)
    decreases |a|
  {
    var la := DecodedLen(a);
    if la.Ok? {
      assert a[0] == b[0] && a[1] == b[1] && a[2] == b[2] && a[3] == b[3];
      assert DecodedLen(b) == la;
      assert a[HEADER_LEN..la.value] == b[HEADER_LEN..la.value];
      ParseMonotone(a[la.value..], b[la.value..]);
    }
  }

  lemma ParseStep(input: Bytes, at: nat)
    requires at <= |input| && DecodedLen(input[at..]).Ok?
    requires Stream(CompleteRecords(input[..at])) == input[..at]
    ensures var len := DecodedLen(input[at..]).value;
            && CompleteRecords(input[..at + len]) == CompleteRecords(input[..at]) + [input[at + HEADER_LEN..at + len]]
            && Stream(CompleteRecords(input[..at + len])) == input[..at + len]
  {
    hide Stream, CompleteRecords, Frame, DecodedLen;
    var len := DecodedLen(input[at..]).value;
    FrameAt(input, at);
    ParseSnoc(input[..at], input[at + HEADER_LEN..at + len]);
    assert input[..at + len] == input[..at] + input[at..at + len];
  }

  lemma ParseSnoc(prefix: Bytes, payload: Bytes)
    requires Fits(payload) && Stream(CompleteRecords(prefix)) == prefix
    ensures CompleteRecords(prefix + Frame(payload)) == CompleteRecords(prefix) + [payload]
    ensures Stream(CompleteRecords(prefix + Frame(payload))) == prefix + Frame(payload)
  {
    hide Stream, CompleteRecords, Frame;
    SingleRecord(payload);
    StreamConcat(CompleteRecords(prefix), [payload]);
    ParseOfStream(CompleteRecords(prefix) + [payload]);
  }

  lemma SingleRecord(payload: Bytes)
    requires Fits(payload)
    ensures AllFit([payload]) && Stream([payload]) == Frame(payload)
  {
    assert [payload][1..] == [];
    assert Frame(payload) + [] == Frame(payload);
  }

  lemma NothingParsed(input: Bytes)
    ensures CompleteRecords(input[..0]) == [] && Stream([]) == input[..0]
  {
  }

  // -------------------------------------------------------------- the decoders

  /** Decode a complete segment; fails with the first framing error. */
  method DecodeAll(input: Bytes) returns (r: Result<seq<Bytes>, RecordError>)
    ensures r.Ok? <==> Stream(CompleteRecords(input)) == input
    ensures r.Ok? ==> r.value == CompleteRecords(input)
    ensures r.Err? ==> DecodedLen(input[Consumed(input)..]) == Err(r.error)
  {
    hide Stream, CompleteRecords, DecodedLen;
    var records: seq<Bytes> := [];
    var at := 0;
    NothingParsed(input);
    while at < |input|
      invariant 0 <= at <= |input|
      invariant records == CompleteRecords(input[..at]) && Stream(records) == input[..at]
      decreases |input| - at
    {
      var len := DecodedLen(input[at..]);
      if len.Err? {
        StuckIsComplete(input, at);
        return Err(len.error);
      }
      ParseStep(input, at);
      records := records + [input[at + HEADER_LEN..at + len.value]];
      at := at + len.value;
    }
    assert input[..at] == input;
    return Ok(records);
  }

  /** Bytes of `input` taken up by its well-formed records. */
  function Consumed(input: Bytes): (n: nat)
    ensures n <= |input|
  {
    ParsedBytes(input);
    |Stream(CompleteRecords(input))|
  }

  /** Once the parser is stuck at `at`, nothing past `at` is ever returned. */
  lemma {:induction false} StuckIsComplete(input: Bytes, at: nat)
    requires at <= |input| && DecodedLen(input[at..]).Err?
    requires Stream(CompleteRecords(input[..at])) == input[..at]
    ensures CompleteRecords(input) == CompleteRecords(input[..at])
    ensures Consumed(input) == at
    decreases at
  {
    if at == 0 {
      assert input[0..] == input;
    } else {
      var first := CompleteRecords(input[..at])[0];
      var len := HEADER_LEN + |first|;
      var rest := input[len..];
      ParseMonotone(input[..at], input);
      assert DecodedLen(input[..at]) == Ok(len);
      assert input[..at][len..] == rest[..at - len];
      assert CompleteRecords(input[..at])[1..] == CompleteRecords(rest[..at - len]);
      assert Stream(CompleteRecords(rest[..at - len])) == input[..at][len..];
      assert input[at..] == rest[at - len..];
      StuckIsComplete(rest, at - len);
      assert input[0] == input[..at][0] && input[1] == input[..at][1] && input[2] == input[..at][2] &&
             input[3] == input[..at][3];
      assert DecodedLen(input) == Ok(len);
    }
  }

  /** Record count of a complete segment, without building the records. */
  method ValidateAll(input: Bytes) returns (r: Result<nat, RecordError>)
    ensures r.Ok? <==> Stream(CompleteRecords(input)) == input
    ensures r.Ok? ==> r.value == |CompleteRecords(input)|
    ensures r.Err? ==> DecodedLen(input[Consumed(input)..]) == Err(r.error)
  {
    hide Stream, CompleteRecords, DecodedLen;
    var count := 0;
    var at := 0;
    NothingParsed(input);
    while at < |input|
      invariant 0 <= at <= |input|
      invariant count == |CompleteRecords(input[..at])| && Stream(CompleteRecords(input[..at])) == input[..at]
      decreases |input| - at
    {
      var len := DecodedLen(input[at..]);
      if len.Err? {
        StuckIsComplete(input, at);
        return Err(len.error);
      }
      ParseStep(input, at);
      count := count + 1;
      at := at + len.value;
    }
    assert input[..at] == input;
    return Ok(count);
  }

  /** The contiguous well-formed prefix of an appendable object, and its length. */
  method DecodeCompletePrefix(input: Bytes) returns (records: seq<Bytes>, consumed: nat)
    ensures records == CompleteRecords(input)
    ensures consumed == |Stream(records)| <= |input| && Stream(records) == input[..consumed]
  {
    hide Stream, CompleteRecords, DecodedLen;
    records, consumed := [], 0;
    NothingParsed(input);
    while consumed < |input|
      invariant consumed <= |input|
      invariant records == CompleteRecords(input[..consumed]) && Stream(records) == input[..consumed]
      decreases |input| - consumed
    {
      var len := DecodedLen(input[consumed..]);
      if len.Err? {
        StuckIsComplete(input, consumed);
        return;
      }
      ParseStep(input, consumed);
      records := records + [input[consumed + HEADER_LEN..consumed + len.value]];
      consumed := consumed + len.value;
    }
    assert input[..consumed] == input;
  }

  lemma {:induction false} EndsSnoc(base: nat, records: seq<Bytes>, last: Bytes)
    requires AllFit(records)
    ensures EndsFrom(base, records + [last])
         == EndsFrom(base, records) + [base + |Stream(records)| + HEADER_LEN + |last|]
    decreases |records|
  {
    var all := records + [last];
    if records == [] {
      assert all[1..] == [];
    } else {
      hide Frame;
      var end := base + HEADER_LEN + |records[0]|;
      assert all[0] == records[0] && all[1..] == records[1..] + [last];
      EndsSnoc(end, records[1..], last);
      assert |Stream(records)| == HEADER_LEN + |records[0]| + |Stream(records[1..])|;
      assert EndsFrom(base, all) == [end] + EndsFrom(end, all[1..]);
    }
  }

  /** End offsets of the same prefix, without copying payloads. */
  method CompletePrefixEnds(input: Bytes) returns (ends: seq<nat>)
    ensures ends == Ends(CompleteRecords(input))
  {
    hide Stream, CompleteRecords, DecodedLen;
    ends := [];
    var consumed := 0;
    NothingParsed(input);
    while true
      invariant 0 <= consumed <= |input|
      invariant Stream(CompleteRecords(input[..consumed])) == input[..consumed]
      invariant ends == Ends(CompleteRecords(input[..consumed]))
      decreases |input| - consumed
    {
      var len := DecodedLen(input[consumed..]);
      if len.Err? {
        StuckIsComplete(input, consumed);
        return;
      }
      ParseStep(input, consumed);
      EndsSnoc(0, CompleteRecords(input[..consumed]), input[consumed + HEADER_LEN..consumed + len.value]);
      consumed := consumed + len.value;
      ends := ends + [consumed];
    }
  }

  // ------------------------------------------------------------ main results

  /**
   Decoding is the exact inverse of encoding: a complete segment decodes to
   `records` if and only if it is the encoding of `records`.
   */
  lemma DecodeInvertsEncode(input: Bytes, records: seq<Bytes>)
    ensures (Stream(CompleteRecords(input)) == input && CompleteRecords(input) == records)
       <==> (AllFit(records) && Stream(records) == input)
  {
    if AllFit(records) && Stream(records) == input {
      ParseOfStream(records);
    }
  }

  /**
   `complete_prefix_ends` of any byte prefix of a stream is exactly the stream's
   ends within that prefix, and it agrees with `decode_complete_prefix`.
   */
  lemma PrefixEndsOfCutStream(records: seq<Bytes>, k: nat)
    requires AllFit(records) && k <= |Stream(records)|
    ensures var cut := CompleteRecords(Stream(records)[..k]);
            && cut <= records
            && Ends(cut) == Ends(records)[..|cut|]
            && (forall j :: 0 <= j < |records| ==> (j < |cut| <==> Ends(records)[j] <= k))
  {
    ParseOfCutStream(records, k);
    var n := WholeRecords(records, k);
    var cut := records[..n];
    forall j | 0 <= j < |records|
      ensures j < n <==> Ends(records)[j] <= k
    {
      WholeRecordsExact(records, k, j);
      EndsAreStreamLengths(records, j);
    }
    forall j | 0 <= j < n
      ensures Ends(cut)[j] == Ends(records)[j]
    {
      EndsAreStreamLengths(records, j);
      EndsAreStreamLengths(cut, j);
      assert cut[..j + 1] == records[..j + 1];
    }
  }
}
