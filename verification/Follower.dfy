/**
 The read-only follower's vote over the active segment: a record is emitted once a
 majority of replicas returned the same frame at its position.
 */
module Follower {
  import opened Wrappers
  import opened Records
  import opened Quorum
  import opened Recovery

  /** What one replica's ranged read returned: decoded records, nothing yet, or a failure. */
  datatype Observation = Pending | Failed | Read(records: seq<Bytes>)

  datatype Decision = Frames(frames: seq<Bytes>) | PendingMore | NoReadQuorum

  // ----------------------------------------------------------------- votes

  predicate VotesFor(o: Observation, index: nat, frame: Bytes) {
    o.Read? && index < |o.records| && o.records[index] == frame
  }

  /** Replicas that returned `frame` at this position. */
  function Voters(observations: seq<Observation>, index: nat, frame: Bytes): set<nat> {
    set z: nat | z < |observations| && VotesFor(observations[z], index, frame)
  }

  /** Replicas whose successful read ends at or before this position. */
  function Enders(observations: seq<Observation>, index: nat): set<nat> {
    set z: nat | z < |observations| && observations[z].Read? && |observations[z].records| <= index
  }

  /** Replicas whose read succeeded. */
  function Readers(observations: seq<Observation>): set<nat> {
    set z: nat | z < |observations| && observations[z].Read?
  }

  predicate SomePending(observations: seq<Observation>) {
    exists z :: 0 <= z < |observations| && observations[z].Pending?
  }

  /** At most one frame wins a position, so the order in which votes are looked at does not matter. */
  lemma WinnerIsUnique(observations: seq<Observation>, index: nat, f: Bytes, g: Bytes)
    requires |Voters(observations, index, f)| >= Majority(|observations|)
    requires |Voters(observations, index, g)| >= Majority(|observations|)
    ensures f == g
  {
    var z := Overlap(|observations|, Voters(observations, index, f), Voters(observations, index, g));
  }

  // --------------------------------------------------------------- decision

  /** Every frame has a majority of identical votes at its position. */
  ghost predicate Accepted(observations: seq<Observation>, quorum: nat, frames: seq<Bytes>) {
    forall k :: 0 <= k < |frames| ==> |Voters(observations, k, frames[k])| >= quorum
  }

  /** No frame has a majority at this position. */
  ghost predicate NoWinner(observations: seq<Observation>, quorum: nat, index: nat) {
    forall f: Bytes :: |Voters(observations, index, f)| < quorum
  }

  /**
   The decision's meaning: the longest accepted prefix; when it is empty, whether a
   majority is known to end here, more answers may come, or too few arrived.
   */
  ghost predicate IsDecision(observations: seq<Observation>, quorum: nat, d: Decision) {
    match d
    case Frames(frames) =>
      && Accepted(observations, quorum, frames) && NoWinner(observations, quorum, |frames|)
      && (frames == [] ==>
            |Enders(observations, 0)| >= quorum || (!SomePending(observations) && |Readers(observations)| >= quorum))
    case PendingMore =>
      NoWinner(observations, quorum, 0) && |Enders(observations, 0)| < quorum && SomePending(observations)
    case NoReadQuorum =>
      NoWinner(observations, quorum, 0) && |Enders(observations, 0)| < quorum && !SomePending(observations) &&
      |Readers(observations)| < quorum
  }

  lemma AcceptedWins(observations: seq<Observation>, quorum: nat, frames: seq<Bytes>)
    requires Accepted(observations, quorum, frames)
    ensures forall k: nat :: k < |frames| ==> !NoWinner(observations, quorum, k)
  {
    forall k: nat | k < |frames| ensures !NoWinner(observations, quorum, k) {
      assert |Voters(observations, k, frames[k])| >= quorum;
    }
  }

  /** One decision only. */
  lemma DecisionIsUnique(observations: seq<Observation>, d: Decision, e: Decision)
    requires IsDecision(observations, Majority(|observations|), d)
    requires IsDecision(observations, Majority(|observations|), e)
    ensures d == e
  {
    hide Voters, Enders, Readers;
    if d.Frames? { AcceptedWins(observations, Majority(|observations|), d.frames); }
    if e.Frames? { AcceptedWins(observations, Majority(|observations|), e.frames); }
    if d.Frames? && e.Frames? {
      forall k | 0 <= k < |d.frames| && k < |e.frames| ensures d.frames[k] == e.frames[k] {
        WinnerIsUnique(observations, k, d.frames[k], e.frames[k]);
      }
    }
  }

  lemma OneMoreVoter(observations: seq<Observation>, z: nat, index: nat, f: Bytes)
    requires z < |observations|
    ensures |Voters(observations[..z + 1], index, f)| ==
            |Voters(observations[..z], index, f)| + if VotesFor(observations[z], index, f) then 1 else 0
  {
    hide VotesFor;
    if VotesFor(observations[z], index, f) {
      assert Voters(observations[..z + 1], index, f) == Voters(observations[..z], index, f) + {z};
    } else {
      assert Voters(observations[..z + 1], index, f) == Voters(observations[..z], index, f);
    }
  }

  lemma OneMoreEnder(observations: seq<Observation>, z: nat, index: nat)
    requires z < |observations|
    ensures |Enders(observations[..z + 1], index)| == |Enders(observations[..z], index)| +
              if observations[z].Read? && |observations[z].records| <= index then 1 else 0
  {
    if observations[z].Read? && |observations[z].records| <= index {
      assert Enders(observations[..z + 1], index) == Enders(observations[..z], index) + {z};
    } else {
      assert Enders(observations[..z + 1], index) == Enders(observations[..z], index);
    }
  }

  /** The tally of one position. */
  method Tally(observations: seq<Observation>, index: nat) returns (votes: map<Bytes, nat>, endVotes: nat)
    ensures endVotes == |Enders(observations, index)|
    ensures forall f: Bytes :: |Voters(observations, index, f)| == if f in votes then votes[f] else 0
  {
    hide Voters, Enders;
    votes, endVotes := map[], 0;
    NoVotes(index);
    for z := 0 to |observations|
      invariant endVotes == |Enders(observations[..z], index)|
      invariant forall f: Bytes :: |Voters(observations[..z], index, f)| == if f in votes then votes[f] else 0
    {
      OneMoreEnder(observations, z, index);
      forall f: Bytes
        ensures |Voters(observations[..z + 1], index, f)| ==
                |Voters(observations[..z], index, f)| + if VotesFor(observations[z], index, f) then 1 else 0
      {
        OneMoreVoter(observations, z, index, f);
      }
      match observations[z] {
        case Read(records) =>
          if index < |records| {
            var frame := records[index];
            votes := votes[frame := (if frame in votes then votes[frame] else 0) + 1];
          } else {
            endVotes := endVotes + 1;
          }
        case _ =>
      }
    }
    assert observations[..|observations|] == observations;
  }

  lemma NoVotes(index: nat)
    ensures |Enders([], index)| == 0 && forall f: Bytes :: |Voters([], index, f)| == 0
  {
    assert Enders([], index) == {};
    forall f: Bytes ensures |Voters([], index, f)| == 0 { assert Voters([], index, f) == {}; }
  }

  method Longest(observations: seq<Observation>) returns (longest: nat, successful: nat, pending: bool)
    ensures forall z :: 0 <= z < |observations| && observations[z].Read? ==> |observations[z].records| <= longest
    ensures successful == |Readers(observations)| && (pending <==> SomePending(observations))
  {
    longest, successful, pending := 0, 0, false;
    for z := 0 to |observations|
      invariant forall y :: 0 <= y < z && observations[y].Read? ==> |observations[y].records| <= longest
      invariant successful == |Readers(observations[..z])|
      invariant pending <==> exists y :: 0 <= y < z && observations[y].Pending?
    {
      assert Readers(observations[..z + 1]) == Readers(observations[..z]) + if observations[z].Read? then {z} else {};
      match observations[z] {
        case Read(records) =>
          successful := successful + 1;
          if longest < |records| { longest := |records|; }
        case Pending => pending := true;
        case Failed =>
      }
    }
    assert observations[..|observations|] == observations;
  }

  /**
   `active_read_decision`: positions are tallied in turn, any frame with a majority
   is taken from the tally in whatever order it is kept, and the loop ends because
   no read is longer than the longest one.
   */
  method ActiveReadDecision(observations: seq<Observation>) returns (d: Decision)
    ensures IsDecision(observations, Majority(|observations|), d)
  {
    hide Enders, Readers;
    var quorum := Majority(|observations|);
    var longest, successful, pending := Longest(observations);
    var accepted: seq<Bytes> := [];
    while true
      invariant Accepted(observations, quorum, accepted) && |accepted| <= longest
      decreases longest - |accepted|
    {
      var index := |accepted|;
      var votes, endVotes := Tally(observations, index);
      if frame :| frame in votes && votes[frame] >= quorum {
        assert |Voters(observations, index, frame)| >= quorum;
        var z: nat :| z in Voters(observations, index, frame);
        accepted := accepted + [frame];
        continue;
      }
      assert NoWinner(observations, quorum, index);
      if accepted != [] || endVotes >= quorum { return Frames(accepted); }
      if !pending { return if successful < quorum then NoReadQuorum else Frames([]); }
      return PendingMore;
    }
  }

  // -------------------------------------------------- agreement with recovery

  /** A ranged read of a copy from record `from` on: its complete records. */
  ghost predicate HonestRead(o: Observation, copy: Bytes, from: nat, records: seq<Bytes>)
    requires AllFit(records) && from <= |records|
  {
    o.Read? ==>
      var offset := |Stream(records[..from])|;
      offset <= |copy| && o.records == CompleteRecords(copy[offset..])
  }

  /** A voter's copy holds the record it voted for. */
  lemma VoterHolds(o: Observation, copy: Bytes, from: nat, records: seq<Bytes>, k: nat, frame: Bytes)
    requires AllFit(records) && from <= |records| && copy <= Stream(records)
    requires HonestRead(o, copy, from, records) && VotesFor(o, k, frame)
    ensures from + k < |records| && records[from + k] == frame
    ensures |Stream(records[..from + k + 1])| <= |copy|
  {
    hide Stream, CompleteRecords, WholeRecords;
    var before, after := records[..from], records[from..];
    assert records == before + after;
    StreamConcat(before, after);
    var offset := |Stream(before)|;
    var left := |copy| - offset;
    assert copy[offset..] == Stream(after)[..left];
    ParseOfCutStream(after, left);
    WholeRecordsExact(after, left, k);
    assert records[..from + k + 1] == before + after[..k + 1];
    StreamConcat(before, after[..k + 1]);
  }

  /** Each copy was read honestly; the disks are what the zones hold later. */
  ghost predicate HonestReads(observations: seq<Observation>, copies: seq<Bytes>, disks: seq<Bytes>,
                              records: seq<Bytes>, from: nat) {
    && AllFit(records) && from <= |records| && |observations| == |copies| == |disks|
    && forall z :: 0 <= z < |copies| ==> HonestCopy(observations[z], copies[z], disks[z], records, from)
  }

  ghost predicate HonestCopy(o: Observation, copy: Bytes, disk: Bytes, records: seq<Bytes>, from: nat)
    requires AllFit(records) && from <= |records|
  {
    copy <= Stream(records) && disk <= Stream(records) && HonestRead(o, copy, from, records)
  }

  /**
   A zone that held the first `x` bytes still does: its copy only grew, or was rewritten
   by a decision that carries them.
   */
  predicate StillHeld(copies: seq<Bytes>, disks: seq<Bytes>, x: nat) {
    |copies| == |disks| && forall z :: 0 <= z < |copies| && x <= |copies[z]| ==> x <= |disks[z]|
  }

  /**
   Every frame the follower accepted is the record of the admitted stream at its index.
   Every later recovery that succeeds, whoever answers it, returns that record if and
   only if a majority still holds it, ties of an even count apart; the zones that voted for it are one, as long as
   their copies only grew or were rewritten by decisions that carry it.
   */
  lemma FollowerAgreesWithRecovery(observations: seq<Observation>, copies: seq<Bytes>, disks: seq<Bytes>,
                                   records: seq<Bytes>, from: nat, frames: seq<Bytes>, k: nat)
    requires HonestReads(observations, copies, disks, records, from)
    requires Accepted(observations, Majority(|observations|), frames) && k < |frames|
    ensures from + k < |records| && records[from + k] == frames[k]
    ensures AlwaysRecovered(disks, records, from + k) <==>
            var x := |Stream(records[..from + k + 1])|; QuorumHeld(disks, x) || Tied(disks, x)
    ensures StillHeld(copies, disks, |Stream(records[..from + k + 1])|) ==> AlwaysRecovered(disks, records, from + k)
  {
    hide Stream, Voters, QuorumHeld, AlwaysRecovered, Tied;
    AcceptedIsRecord(observations, copies, disks, records, from, k, frames[k]);
    if StillHeld(copies, disks, |Stream(records[..from + k + 1])|) {
      AcceptedIsHeld(observations, copies, disks, records, from, k, frames[k]);
    }
    forall z | 0 <= z < |disks| ensures disks[z] <= Stream(records) {
      assert HonestCopy(observations[z], copies[z], disks[z], records, from);
    }
    AlwaysRecoveredExactlyIfHeld(disks, records, from + k);
  }

  lemma AcceptedIsRecord(observations: seq<Observation>, copies: seq<Bytes>, disks: seq<Bytes>, records: seq<Bytes>,
                         from: nat, k: nat, frame: Bytes)
    requires HonestReads(observations, copies, disks, records, from)
    requires |Voters(observations, k, frame)| >= Majority(|observations|)
    ensures disks != [] && from + k < |records| && records[from + k] == frame
  {
    hide Stream, HonestRead;
    var y :| y in Voters(observations, k, frame);
    assert HonestCopy(observations[y], copies[y], disks[y], records, from);
    VoterHolds(observations[y], copies[y], from, records, k, frame);
  }

  lemma AcceptedIsHeld(observations: seq<Observation>, copies: seq<Bytes>, disks: seq<Bytes>, records: seq<Bytes>,
                       from: nat, k: nat, frame: Bytes)
    requires HonestReads(observations, copies, disks, records, from) && from + k < |records|
    requires |Voters(observations, k, frame)| >= Majority(|observations|)
    requires StillHeld(copies, disks, |Stream(records[..from + k + 1])|)
    ensures QuorumHeld(disks, |Stream(records[..from + k + 1])|)
  {
    hide Stream, HonestRead;
    var x := |Stream(records[..from + k + 1])|;
    forall z | z in Voters(observations, k, frame) ensures z in Holders(DiskSizes(disks), x) {
      assert HonestCopy(observations[z], copies[z], disks[z], records, from);
      VoterHolds(observations[z], copies[z], from, records, k, frame);
    }
    SubsetSize(Voters(observations, k, frame), Holders(DiskSizes(disks), x));
  }
}
