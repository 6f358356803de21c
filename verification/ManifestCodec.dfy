/** The register's key/value encoding and its decoder. */
module ManifestCodec {
  import opened Wrappers
  import opened Text
  import opened SegmentIds
  import opened Manifest

  // ------------------------------------------------------ split and join

  /** `str::split`: the parts between separators, never empty. */
  function Split(s: string, c: char): (parts: seq<string>)
    ensures parts != []
    decreases |s|
  {
    var at := Find(s, c);
    if at == |s| then [s] else [s[..at]] + Split(s[at + 1..], c)
  }

  function Join(parts: seq<string>, c: char): string
    requires parts != []
  {
    if |parts| == 1 then parts[0] else parts[0] + [c] + Join(parts[1..], c)
  }

  predicate Free(s: string, c: char) {
    forall i :: 0 <= i < |s| ==> s[i] != c
  }

  lemma FindInConcat(a: string, c: char, b: string)
    requires Free(a, c)
    ensures Find(a + [c] + b, c) == |a|
  {
    var s := a + [c] + b;
    assert s[|a|] == c;
    forall k | 0 <= k < |a| ensures s[k] != c { assert s[k] == a[k]; }
  }

  lemma FindFree(a: string, c: char)
    requires Free(a, c)
    ensures Find(a, c) == |a|
  {
  }

  lemma SplitFirst(first: string, rest: string, c: char)
    requires Free(first, c)
    ensures Split(first + [c] + rest, c) == [first] + Split(rest, c)
  {
    hide Find, Free;
    var s := first + [c] + rest;
    FindInConcat(first, c, rest);
    assert s[..|first|] == first && s[|first| + 1..] == rest;
  }

  lemma {:induction false} SplitJoin(parts: seq<string>, c: char)
    requires parts != [] && forall i :: 0 <= i < |parts| ==> Free(parts[i], c)
    ensures Split(Join(parts, c), c) == parts
    decreases |parts|
  {
    if |parts| == 1 {
      FindFree(parts[0], c);
    } else {
      SplitJoin(parts[1..], c);
      hide Find, Free;
      var rest := Join(parts[1..], c);
      SplitFirst(parts[0], rest, c);
      assert parts == [parts[0]] + parts[1..];
    }
  }

  lemma {:induction false} SplitParts(s: string, c: char, i: nat)
    requires i < |Split(s, c)|
    ensures Free(Split(s, c)[i], c)
    ensures forall k :: 0 <= k < |Split(s, c)[i]| ==> Split(s, c)[i][k] in s
    decreases |s|
  {
    var at := Find(s, c);
    if at < |s| && i > 0 {
      SplitParts(s[at + 1..], c, i - 1);
      assert Split(s, c)[i] == Split(s[at + 1..], c)[i - 1];
    } else if at < |s| {
      assert Split(s, c)[0] == s[..at];
    }
  }

  // ----------------------------------------------------------- directory

  predicate IsHex8(s: string) {
    |s| == 8 && forall i :: 0 <= i < 8 ==> ('0' <= s[i] <= '9') || ('a' <= s[i] <= 'f')
  }

  function DecodeEntry(part: string): Option<Entry> {
    var fields := Split(part, ':');
    if |fields| != 3 || !IsHex8(fields[2]) || fields[0] == "" then None
    else
      var crc := Parse(fields[2], 16, U32_MAX);
      var base := Parse(fields[1], 10, U64_MAX);
      if crc.None? || base.None? then None else Some(Entry(fields[0], base.value, crc.value))
  }

  function DecodeEach(parts: seq<string>): (r: seq<Option<Entry>>)
    ensures |r| == |parts| && forall i :: 0 <= i < |r| ==> r[i] == DecodeEntry(parts[i])
  {
    seq(|parts|, i requires 0 <= i < |parts| => DecodeEntry(parts[i]))
  }

  /** All entries, if every part decodes and the bases strictly increase. */
  function Collect(entries: seq<Option<Entry>>): Option<seq<Entry>> {
    if entries == [] then Some([])
    else
      var before := Collect(entries[..|entries| - 1]);
      var last := entries[|entries| - 1];
      if before.None? || last.None? then None
      else if before.value != [] && before.value[|before.value| - 1].base >= last.value.base then None
      else Some(before.value + [last.value])
  }

  function DecodeEntries(parts: seq<string>): Option<seq<Entry>> {
    Collect(DecodeEach(parts))
  }

  function DecodeSegments(value: string): Option<seq<Entry>> {
    if value == "" then Some([]) else DecodeEntries(Split(value, ','))
  }

  /** An id the directory encoding can carry. */
  predicate CleanId(id: string) {
    id != "" && Free(id, ':') && Free(id, ',')
  }

  lemma SplitThree(a: string, b: string, d: string, c: char)
    requires Free(a, c) && Free(b, c) && Free(d, c)
    ensures Split(a + [c] + b + [c] + d, c) == [a, b, d]
  {
    var parts := [a, b, d];
    assert parts[1..] == [b, d];
    assert parts[1..][1..] == [d];
    assert Join([d], c) == d;
    assert Join([b, d], c) == b + [c] + d;
    assert a + [c] + (b + [c] + d) == a + [c] + b + [c] + d;
    SplitJoin(parts, c);
  }

  lemma DigitsAreFree(s: string)
    requires PlainDigits(s)
    ensures Free(s, ':') && Free(s, ',')
  {
  }

  lemma EntryFields(e: Entry)
    requires CleanId(e.id)
    ensures Split(EncodeEntry(e), ':') == [e.id, Decimal(e.base), Hex(e.crc32c, 8)]
  {
    DecimalRoundTrip(e.base, U64_MAX);
    HexRoundTrip(e.crc32c, 8, U32_MAX);
    DigitsAreFree(Decimal(e.base));
    DigitsAreFree(Hex(e.crc32c, 8));
    SplitThree(e.id, Decimal(e.base), Hex(e.crc32c, 8), ':');
  }

  lemma EntryRoundTrip(e: Entry)
    requires CleanId(e.id)
    ensures DecodeEntry(EncodeEntry(e)) == Some(e)
  {
    hide Split, Parse, Decimal, Hex, EncodeEntry;
    EntryFields(e);
    DecimalRoundTrip(e.base, U64_MAX);
    HexRoundTrip(e.crc32c, 8, U32_MAX);
    U32Length(e.crc32c);
  }

  lemma EntryHasNoComma(e: Entry)
    requires CleanId(e.id)
    ensures Free(EncodeEntry(e), ',') && EncodeEntry(e) != ""
  {
    DecimalRoundTrip(e.base, U64_MAX);
    HexRoundTrip(e.crc32c, 8, U32_MAX);
  }

  function EncodedEntries(segments: seq<Entry>): (r: seq<string>)
    ensures |r| == |segments| && forall i :: 0 <= i < |r| ==> r[i] == EncodeEntry(segments[i])
  {
    seq(|segments|, i requires 0 <= i < |segments| => EncodeEntry(segments[i]))
  }

  lemma {:induction false} JoinSnoc(parts: seq<string>, last: string, c: char)
    requires parts != []
    ensures Join(parts + [last], c) == Join(parts, c) + [c] + last
    decreases |parts|
  {
    var all := parts + [last];
    if |parts| == 1 {
      assert all[1..] == [last];
    } else {
      assert all[1..] == parts[1..] + [last];
      JoinSnoc(parts[1..], last, c);
    }
  }

  lemma {:induction false} EncodeSegmentsIsJoin(segments: seq<Entry>)
    requires segments != []
    ensures EncodeSegments(segments) == Join(EncodedEntries(segments), ',')
    decreases |segments|
  {
    var n := |segments| - 1;
    assert EncodedEntries(segments)[0] == EncodeEntry(segments[0]);
    if n > 0 {
      EncodeSegmentsIsJoin(segments[..n]);
      assert EncodeSegments(segments) == EncodeSegments(segments[..n]) + "," + EncodeEntry(segments[n]);
      hide EncodeEntry, Join, EncodeSegments;
      JoinSnoc(EncodedEntries(segments[..n]), EncodeEntry(segments[n]), ',');
      assert EncodedEntries(segments) == EncodedEntries(segments[..n]) + [EncodeEntry(segments[n])];
    }
  }

  lemma {:induction false} CollectAll(entries: seq<Option<Entry>>, segments: seq<Entry>)
    requires |entries| == |segments| && forall i :: 0 <= i < |entries| ==> entries[i] == Some(segments[i])
    requires forall i, j :: 0 <= i < j < |segments| ==> segments[i].base < segments[j].base
    ensures Collect(entries) == Some(segments)
    decreases |segments|
  {
    if segments != [] {
      var n := |segments| - 1;
      CollectAll(entries[..n], segments[..n]);
      assert segments == segments[..n] + [segments[n]];
    }
  }

  lemma {:induction false} Collected(entries: seq<Option<Entry>>)
    requires Collect(entries).Some?
    ensures |Collect(entries).value| == |entries|
    ensures forall i :: 0 <= i < |entries| ==> entries[i] == Some(Collect(entries).value[i])
    decreases |entries|
  {
    if entries != [] {
      Collected(entries[..|entries| - 1]);
    }
  }

  lemma EntriesRoundTrip(segments: seq<Entry>)
    requires forall i :: 0 <= i < |segments| ==> CleanId(segments[i].id)
    requires forall i, j :: 0 <= i < j < |segments| ==> segments[i].base < segments[j].base
    ensures DecodeEntries(EncodedEntries(segments)) == Some(segments)
  {
    var entries := DecodeEach(EncodedEntries(segments));
    forall i | 0 <= i < |segments| ensures entries[i] == Some(segments[i]) {
      EntryRoundTrip(segments[i]);
    }
    CollectAll(entries, segments);
  }

  lemma SegmentsRoundTrip(segments: seq<Entry>)
    requires forall i :: 0 <= i < |segments| ==> CleanId(segments[i].id)
    requires forall i, j :: 0 <= i < j < |segments| ==> segments[i].base < segments[j].base
    ensures DecodeSegments(EncodeSegments(segments)) == Some(segments)
  {
    if segments != [] {
      EncodeSegmentsIsJoin(segments);
      var parts := EncodedEntries(segments);
      forall i | 0 <= i < |parts| ensures Free(parts[i], ',') && parts[i] != "" {
        EntryHasNoComma(segments[i]);
      }
      SplitJoin(parts, ',');
      EntriesRoundTrip(segments);
      assert EncodeSegments(segments) != "";
    }
  }

  lemma DecodedIdIsClean(part: string)
    requires DecodeEntry(part).Some? && Free(part, ',')
    ensures CleanId(DecodeEntry(part).value.id)
  {
    SplitParts(part, ':', 0);
  }

  lemma DecodedIdsAreClean(value: string, i: nat)
    requires DecodeSegments(value).Some? && i < |DecodeSegments(value).value|
    ensures CleanId(DecodeSegments(value).value[i].id)
  {
    var parts := Split(value, ',');
    Collected(DecodeEach(parts));
    SplitParts(value, ',', i);
    DecodedIdIsClean(parts[i]);
  }

  // -------------------------------------------------------------- register

  datatype DecodeError = BadFormat | BadField

  /** The metadata keys of the register, `chorus.format` to `chorus.buckets`. */
  datatype Key =
    | FormatKey | EpochKey | OwnerKey | TailBaseKey | TailIdKey | PendingIdKey
    | SealIdKey | SealBaseKey | SealDigestKey | TruncKey | SegmentsKey | BucketsKey

  type Metadata = map<Key, string>

  function Get(m: Metadata, key: Key): Option<string> {
    if key in m then Some(m[key]) else None
  }

  function JoinBuckets(buckets: seq<string>): string {
    if buckets == [] then "" else Join(buckets, ',')
  }

  /** The value stored under a key; optional fields are simply absent. */
  function Field(r: Record, key: Key): Option<string> {
    match key
    case FormatKey => Some("1")
    case EpochKey => Some(Decimal(r.epoch))
    case OwnerKey => Some(r.owner)
    case TailBaseKey => Some(Decimal(r.tailBase))
    case TailIdKey => r.tailId
    case PendingIdKey => r.pendingId
    case SealIdKey => r.sealId
    case SealBaseKey => if r.sealBase.Some? then Some(Decimal(r.sealBase.value)) else None
    case SealDigestKey => r.sealDigest
    case TruncKey => Some(Decimal(r.trunc))
    case SegmentsKey => Some(EncodeSegments(r.segments))
    case BucketsKey => Some(JoinBuckets(r.buckets))
  }

  function Encode(r: Record): (m: Metadata)
    ensures forall key :: Get(m, key) == Field(r, key)
  {
    map key: Key | Field(r, key).Some? :: Field(r, key).value
  }

  function Number(value: Option<string>): (n: Option<u64>)
    ensures value.None? ==> n.None?
  {
    if value.None? then None
    else match Parse(value.value, 10, U64_MAX)
         case Some(n) => Some(n)
         case None => None
  }

  function DecodeBuckets(value: string): Option<seq<string>> {
    if value == "" then None else Some(Split(value, ','))
  }

  /** The fields that are parsed rather than copied. */
  datatype Parsed = Parsed(
    segments: Option<seq<Entry>>, epoch: Option<u64>, tailBase: Option<u64>, trunc: Option<u64>,
    sealBase: Option<u64>, buckets: Option<seq<string>>)

  function ParseFields(m: Metadata): Parsed {
    Parsed(
      if SegmentsKey in m then DecodeSegments(m[SegmentsKey]) else None,
      Number(Get(m, EpochKey)), Number(Get(m, TailBaseKey)), Number(Get(m, TruncKey)), Number(Get(m, SealBaseKey)),
      if BucketsKey in m then DecodeBuckets(m[BucketsKey]) else None)
  }

  function Assemble(p: Parsed, m: Metadata): Result<Record, DecodeError> {
    if p.segments.None? || p.epoch.None? || p.tailBase.None? || p.trunc.None? || p.buckets.None? then Err(BadField)
    else if SealBaseKey in m && p.sealBase.None? then Err(BadField)
    else
      var r := Record(p.epoch.value, if OwnerKey in m then m[OwnerKey] else "", p.tailBase.value,
                      Get(m, TailIdKey), Get(m, PendingIdKey), p.sealBase, Get(m, SealIdKey), Get(m, SealDigestKey),
                      p.trunc.value, p.segments.value, p.buckets.value);
      if Valid(r) then Ok(r) else Err(BadField)
  }

  function Decode(m: Metadata): Result<Record, DecodeError> {
    if Get(m, FormatKey) != Some("1") then Err(BadFormat) else Assemble(ParseFields(m), m)
  }

  predicate CleanDirectory(r: Record) {
    forall i :: 0 <= i < |r.segments| ==> CleanId(r.segments[i].id)
  }

  lemma NumberRoundTrip(n: u64)
    ensures Number(Some(Decimal(n))) == Some(n)
  {
    DecimalRoundTrip(n, U64_MAX);
  }

  lemma BucketsRoundTrip(buckets: seq<string>)
    requires ValidBuckets(buckets)
    ensures DecodeBuckets(JoinBuckets(buckets)) == Some(buckets)
  {
    SplitJoin(buckets, ',');
    assert buckets[0] != "";
  }

  lemma NumbersRoundTrip(r: Record)
    ensures Number(Field(r, EpochKey)) == Some(r.epoch)
    ensures Number(Field(r, TailBaseKey)) == Some(r.tailBase)
    ensures Number(Field(r, TruncKey)) == Some(r.trunc)
    ensures Number(Field(r, SealBaseKey)) == r.sealBase
  {
    hide Number;
    NumberRoundTrip(r.epoch);
    NumberRoundTrip(r.tailBase);
    NumberRoundTrip(r.trunc);
    if r.sealBase.Some? { NumberRoundTrip(r.sealBase.value); }
  }

  lemma ParsedFields(r: Record)
    ensures ParseFields(Encode(r)) ==
            Parsed(DecodeSegments(EncodeSegments(r.segments)), Some(r.epoch), Some(r.tailBase), Some(r.trunc),
                   r.sealBase,
                   DecodeBuckets(JoinBuckets(r.buckets)))
  {
    hide Number, DecodeSegments, EncodeSegments, DecodeBuckets, JoinBuckets, Decimal;
    NumbersRoundTrip(r);
    var m := Encode(r);
    assert Get(m, SegmentsKey) == Field(r, SegmentsKey) && Get(m, BucketsKey) == Field(r, BucketsKey);
    assert Get(m, EpochKey) == Field(r, EpochKey) && Get(m, TailBaseKey) == Field(r, TailBaseKey);
    assert Get(m, TruncKey) == Field(r, TruncKey) && Get(m, SealBaseKey) == Field(r, SealBaseKey);
  }

  lemma AssembleOfEncode(r: Record)
    ensures var p := Parsed(Some(r.segments), Some(r.epoch), Some(r.tailBase), Some(r.trunc), r.sealBase,
                            Some(r.buckets));
            Assemble(p, Encode(r)) == if Valid(r) then Ok(r) else Err(BadField)
  {
    var m := Encode(r);
    assert Get(m, OwnerKey) == Some(r.owner) && Get(m, SealBaseKey) == Field(r, SealBaseKey);
    assert Get(m, TailIdKey) == r.tailId && Get(m, PendingIdKey) == r.pendingId;
    assert Get(m, SealIdKey) == r.sealId && Get(m, SealDigestKey) == r.sealDigest;
  }

  lemma AssembledSegments(p: Parsed, m: Metadata, r: Record)
    requires Assemble(p, m) == Ok(r)
    ensures Valid(r) && p.segments == Some(r.segments)
  {
  }

  /** A record that decodes to itself is valid and its ids can be carried. */
  lemma DecodedIsClean(r: Record)
    requires Decode(Encode(r)) == Ok(r)
    ensures Valid(r) && CleanDirectory(r)
  {
    ParsedFields(r);
    AssembledSegments(ParseFields(Encode(r)), Encode(r), r);
    forall i | 0 <= i < |r.segments| ensures CleanId(r.segments[i].id) {
      DecodedIdsAreClean(EncodeSegments(r.segments), i);
    }
  }

  /**
   Decoding undoes encoding exactly for the valid records whose directory ids the
   encoding can carry.
   */
  lemma ManifestRoundTrip(r: Record)
    ensures Decode(Encode(r)) == Ok(r) <==> Valid(r) && CleanDirectory(r)
  {
    if Valid(r) && CleanDirectory(r) {
      SegmentsRoundTrip(r.segments);
      BucketsRoundTrip(r.buckets);
      ParsedFields(r);
      AssembleOfEncode(r);
      assert Get(Encode(r), FormatKey) == Some("1");
    }
    if Decode(Encode(r)) == Ok(r) {
      DecodedIsClean(r);
    }
  }
}
