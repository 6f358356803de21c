/**
 Selection of the canonical prefix from the copies recovery could read: the
 longest well-formed prefix over every pairwise-consistent quorum of witnesses.
 */
module Canonical {
  import opened Wrappers
  import opened Records
  import opened Quorum

  // --------------------------------------------------------- quorum_subsets

  function PrependAll(head: seq<nat>, tails: seq<seq<nat>>): (r: seq<seq<nat>>)
    ensures |r| == |tails| && forall i :: 0 <= i < |r| ==> r[i] == head + tails[i]
  {
    seq(|tails|, i requires 0 <= i < |tails| => head + tails[i])
  }

  /** Ascending choices of `k` indices from `start .. count`, in lexicographic order. */
  function Combos(start: nat, count: nat, k: nat): seq<seq<nat>>
    requires start <= count
    decreases count - start, k
  {
    if k == 0 then [[]]
    else if start == count then []
    else PrependAll([start], Combos(start + 1, count, k - 1)) + Combos(start + 1, count, k)
  }

  /** An ascending list of `k` indices from `start .. count`. */
  predicate IsCombo(s: seq<nat>, start: nat, count: nat, k: nat) {
    && |s| == k
    && (forall i :: 0 <= i < |s| ==> start <= s[i] < count)
    && (forall i, j :: 0 <= i < j < |s| ==> s[i] < s[j])
  }

  predicate LexLess(a: seq<nat>, b: seq<nat>) {
    if b == [] then false
    else if a == [] then true
    else a[0] < b[0] || (a[0] == b[0] && LexLess(a[1..], b[1..]))
  }

  lemma {:induction false} LexIrreflexive(a: seq<nat>)
    ensures !LexLess(a, a)
  {
    if a != [] { LexIrreflexive(a[1..]); }
  }

  lemma {:induction false} CombosSound(start: nat, count: nat, k: nat, i: nat)
    requires start <= count && i < |Combos(start, count, k)|
    ensures IsCombo(Combos(start, count, k)[i], start, count, k)
    decreases count - start, k
  {
    if k > 0 && start < count {
      var with := Combos(start + 1, count, k - 1);
      if i < |with| {
        CombosSound(start + 1, count, k - 1, i);
      } else {
        CombosSound(start + 1, count, k, i - |with|);
      }
    }
  }

  lemma {:induction false} CombosComplete(start: nat, count: nat, k: nat, s: seq<nat>)
    requires start <= count && IsCombo(s, start, count, k)
    ensures s in Combos(start, count, k)
    decreases count - start, k
  {
    if k == 0 {
      assert s == [];
    } else {
      assert start <= s[0] < count;
      if s[0] == start {
        assert IsCombo(s[1..], start + 1, count, k - 1);
        CombosComplete(start + 1, count, k - 1, s[1..]);
        ComboWithStart(start, count, k, s);
      } else {
        CombosComplete(start + 1, count, k, s);
      }
    }
  }

  lemma ComboWithStart(start: nat, count: nat, k: nat, s: seq<nat>)
    requires start < count && k > 0 && |s| == k && s[0] == start
    requires s[1..] in Combos(start + 1, count, k - 1)
    ensures s in Combos(start, count, k)
  {
    var with := Combos(start + 1, count, k - 1);
    var i :| 0 <= i < |with| && with[i] == s[1..];
    assert s == [start] + with[i];
    assert Combos(start, count, k)[i] == s;
  }

  lemma {:induction false} CombosOrdered(start: nat, count: nat, k: nat, i: nat, j: nat)
    requires start <= count && i < j < |Combos(start, count, k)|
    ensures LexLess(Combos(start, count, k)[i], Combos(start, count, k)[j])
    decreases count - start, k
  {
    var with, without := Combos(start + 1, count, k - 1), Combos(start + 1, count, k);
    var all := Combos(start, count, k);
    if j < |with| {
      CombosOrdered(start + 1, count, k - 1, i, j);
      assert all[i] == [start] + with[i] && all[j] == [start] + with[j];
      hide Combos;
      assert all[i][1..] == with[i] && all[j][1..] == with[j];
    } else if i >= |with| {
      CombosOrdered(start + 1, count, k, i - |with|, j - |with|);
    } else {
      CombosSound(start + 1, count, k, j - |with|);
      assert all[i] == [start] + with[i] && all[j] == without[j - |with|];
      hide Combos;
      assert all[j][0] > start == all[i][0];
    }
  }

  /** Every size-`quorum` index set appears exactly once. */
  lemma SubsetsExactlyOnce(count: nat, quorum: nat, s: seq<nat>)
    ensures s in Combos(0, count, quorum) <==> IsCombo(s, 0, count, quorum)
    ensures forall i, j :: 0 <= i < j < |Combos(0, count, quorum)| ==>
              Combos(0, count, quorum)[i] != Combos(0, count, quorum)[j]
  {
    var all := Combos(0, count, quorum);
    if IsCombo(s, 0, count, quorum) { CombosComplete(0, count, quorum, s); }
    if s in all {
      var i :| 0 <= i < |all| && all[i] == s;
      CombosSound(0, count, quorum, i);
    }
    forall i, j | 0 <= i < j < |all| ensures all[i] != all[j] {
      CombosOrdered(0, count, quorum, i, j);
      LexIrreflexive(all[i]);
    }
  }

  lemma PrependAllStep(current: seq<nat>, index: nat, count: nat, k: nat)
    requires index < count && k > 0
    ensures PrependAll(current, Combos(index, count, k))
         == PrependAll(current + [index], Combos(index + 1, count, k - 1))
             + PrependAll(current, Combos(index + 1, count, k))
  {
    var with, without := Combos(index + 1, count, k - 1), Combos(index + 1, count, k);
    var left := PrependAll(current, Combos(index, count, k));
    var right := PrependAll(current + [index], with) + PrependAll(current, without);
    forall i | 0 <= i < |left| ensures left[i] == right[i] {
      if i < |with| {
        assert Combos(index, count, k)[i] == [index] + with[i];
        assert current + ([index] + with[i]) == (current + [index]) + with[i];
      } else {
        assert Combos(index, count, k)[i] == without[i - |with|];
      }
    }
  }

  method Extend(start: nat, count: nat, quorum: nat, current: seq<nat>, subsets: seq<seq<nat>>)
    returns (out: seq<seq<nat>>)
    requires start <= count && |current| <= quorum
    ensures out == subsets + PrependAll(current, Combos(start, count, quorum - |current|))
    decreases count - start
  {
    if |current| == quorum {
      assert PrependAll(current, [[]])[0] == current + [] == current;
      assert PrependAll(current, [[]]) == [current];
      return subsets + [current];
    }
    hide Combos, PrependAll;
    ghost var k := quorum - |current|;
    out := subsets;
    for index := start to count
      invariant out + PrependAll(current, Combos(index, count, k)) == subsets
                    + PrependAll(current, Combos(start, count, k))
    {
      PrependAllStep(current, index, count, k);
      var next := Extend(index + 1, count, quorum, current + [index], out);
      Regroup(out, PrependAll(current + [index], Combos(index + 1, count, k - 1)),
              PrependAll(current, Combos(index + 1, count, k)));
      out := next;
    }
    NoCombos(current, count, k);
  }

  lemma Regroup<T>(a: seq<T>, b: seq<T>, c: seq<T>)
    ensures a + (b + c) == (a + b) + c
  {
  }

  lemma NoCombos(current: seq<nat>, count: nat, k: nat)
    requires k >= 1
    ensures PrependAll(current, Combos(count, count, k)) == []
  {
  }

  method QuorumSubsets(count: nat, quorum: nat) returns (subsets: seq<seq<nat>>)
    ensures subsets == Combos(0, count, quorum)
  {
    subsets := Extend(0, count, quorum, [], []);
    var all := Combos(0, count, quorum);
    forall i | 0 <= i < |all| ensures PrependAll([], all)[i] == all[i] {
      assert [] + all[i] == all[i];
    }
    assert PrependAll([], all) == all;
  }

  // ------------------------------------------------------------ specification

  datatype Snapshot = Snapshot(zone: nat, generation: int, finalized: bool, bytes: Bytes)

  datatype SelectError = NoQuorum | ConflictingPrefix(recordIndex: nat)

  /** The witness whose prefix was chosen, and the prefix's record end offsets. */
  datatype Selection = Selection(chosen: nat, recordEnds: seq<nat>)

  /** The well-formed records of each snapshot. */
  function Decoded(snapshots: seq<Snapshot>): (r: seq<seq<Bytes>>)
    ensures |r| == |snapshots| && forall i :: 0 <= i < |r| ==> r[i] == CompleteRecords(snapshots[i].bytes)
  {
    seq(|snapshots|, i requires 0 <= i < |snapshots| => CompleteRecords(snapshots[i].bytes))
  }

  /** Two prefixes agree on their overlap. */
  predicate Agree(a: seq<Bytes>, b: seq<Bytes>) {
    a <= b || b <= a
  }

  /** A quorum-sized set of witnesses whose prefixes agree pairwise. */
  predicate Candidate(decoded: seq<seq<Bytes>>, quorum: nat, s: seq<nat>) {
    && IsCombo(s, 0, |decoded|, quorum)
    && forall i, j :: 0 <= i < j < |s| ==> Agree(decoded[s[i]], decoded[s[j]])
  }

  /** `w` is a longest member of the candidate `s`. */
  predicate LongestOf(decoded: seq<seq<Bytes>>, s: seq<nat>, w: nat)
    requires forall i :: 0 <= i < |s| ==> s[i] < |decoded|
  {
    w in s && forall i :: 0 <= i < |s| ==> |decoded[s[i]]| <= |decoded[w]|
  }

  /** `w` is the first of the longest members of `s`. */
  predicate FirstLongest(decoded: seq<seq<Bytes>>, s: seq<nat>, w: nat)
    requires forall i :: 0 <= i < |s| ==> s[i] < |decoded|
  {
    LongestOf(decoded, s, w) && forall i :: 0 <= i < |s| && |decoded[s[i]]| == |decoded[w]| ==> w <= s[i]
  }

  /** `c` is a candidate paired with the first of its longest members. */
  predicate Lead(decoded: seq<seq<Bytes>>, quorum: nat, c: (nat, seq<nat>)) {
    c.0 < |decoded| && Candidate(decoded, quorum, c.1) && FirstLongest(decoded, c.1, c.0)
  }

  predicate AllLeads(decoded: seq<seq<Bytes>>, quorum: nat, cs: seq<(nat, seq<nat>)>) {
    forall i :: 0 <= i < |cs| ==> Lead(decoded, quorum, cs[i])
  }

  predicate Names(cs: seq<(nat, seq<nat>)>, s: seq<nat>) {
    exists i :: 0 <= i < |cs| && cs[i].1 == s
  }

  ghost predicate Exhaustive(decoded: seq<seq<Bytes>>, quorum: nat, cs: seq<(nat, seq<nat>)>) {
    forall s :: Candidate(decoded, quorum, s) ==> Names(cs, s)
  }

  /** `w` leads some candidate, and no candidate has a longer member. */
  ghost predicate Maximal(decoded: seq<seq<Bytes>>, quorum: nat, w: nat) {
    && (exists s :: Candidate(decoded, quorum, s) && LongestOf(decoded, s, w))
    && w < |decoded|
    && (forall s, i :: Candidate(decoded, quorum, s) && 0 <= i < |s| ==> |decoded[s[i]]| <= |decoded[w]|)
  }

  /** Two leaders of maximal length carry different records. */
  ghost predicate Ambiguous(decoded: seq<seq<Bytes>>, quorum: nat) {
    exists v: nat, w: nat :: Maximal(decoded, quorum, v) && Maximal(decoded, quorum, w) && decoded[v] != decoded[w]
  }

  ghost predicate NoCandidate(decoded: seq<seq<Bytes>>, quorum: nat) {
    forall s :: !Candidate(decoded, quorum, s)
  }

  /** Two witnesses hold different records at `index`. */
  predicate DifferAt(decoded: seq<seq<Bytes>>, index: nat) {
    exists l, r :: 0 <= l < |decoded| && 0 <= r < |decoded|
      && index < |decoded[l]| && index < |decoded[r]| && decoded[l][index] != decoded[r][index]
  }

  function Zones(snapshots: seq<Snapshot>, s: seq<nat>): seq<nat>
    requires forall i :: 0 <= i < |s| ==> s[i] < |snapshots|
  {
    seq(|s|, i requires 0 <= i < |s| => snapshots[s[i]].zone)
  }

  predicate HasLength(decoded: seq<seq<Bytes>>, s: seq<nat>, len: nat)
    requires forall i :: 0 <= i < |s| ==> s[i] < |decoded|
  {
    exists i :: 0 <= i < |s| && |decoded[s[i]]| == len
  }

  /** No candidate with a member of this length has lexicographically lower zones than `s`. */
  ghost predicate Foremost(snapshots: seq<Snapshot>, decoded: seq<seq<Bytes>>, quorum: nat, s: seq<nat>, len: nat)
    requires |decoded| == |snapshots| && Candidate(decoded, quorum, s)
  {
    forall t :: Candidate(decoded, quorum, t) && HasLength(decoded, t, len) ==>
      !LexLess(Zones(snapshots, t), Zones(snapshots, s))
  }

  /** Among equals: `w` is the first longest member of the longest candidate with the lowest zones. */
  ghost predicate Preferred(snapshots: seq<Snapshot>, decoded: seq<seq<Bytes>>, quorum: nat, w: nat)
    requires |decoded| == |snapshots|
  {
    w < |decoded| &&
    exists s :: Candidate(decoded, quorum, s) && FirstLongest(decoded, s, w) &&
      Foremost(snapshots, decoded, quorum, s, |decoded[w]|)
  }

  /** The outcome of canonical selection, stated without its search. */
  ghost predicate IsSelection(snapshots: seq<Snapshot>, quorum: nat, r: Result<Selection, SelectError>) {
    var decoded := Decoded(snapshots);
    && (r == Err(NoQuorum) <==> |snapshots| < quorum)
    && (|snapshots| >= quorum ==> (r.Err? <==> NoCandidate(decoded, quorum) || Ambiguous(decoded, quorum)))
    && (r.Err? && r.error.ConflictingPrefix? ==> DifferAt(decoded, r.error.recordIndex))
    && (r.Ok? ==>
          && Maximal(decoded, quorum, r.value.chosen) && Preferred(snapshots, decoded, quorum, r.value.chosen)
          && r.value.recordEnds == Ends(decoded[r.value.chosen]))
  }

  // ---------------------------------------------------------------- the search

  /** First record index where the two prefixes differ, within their overlap. */
  method FindConflict(a: seq<Bytes>, b: seq<Bytes>) returns (r: Option<nat>)
    ensures r.None? <==> Agree(a, b)
    ensures r.Some? ==> r.value < |a| && r.value < |b| && a[r.value] != b[r.value] && a[..r.value] == b[..r.value]
  {
    var overlap := if |a| < |b| then |a| else |b|;
    for index := 0 to overlap
      invariant a[..index] == b[..index]
    {
      if a[index] != b[index] {
        return Some(index);
      }
    }
    return None;
  }

  /** Pairwise conflicts of all witnesses, and the first conflicting record index. */
  method Conflicts(decoded: seq<seq<Bytes>>) returns (conflicts: set<(nat, nat)>, first: Option<nat>)
    ensures forall l: nat, r: nat :: l < r < |decoded| ==> ((l, r) in conflicts <==> !Agree(decoded[l], decoded[r]))
    ensures first.Some? <==> exists l: nat, r: nat :: l < r < |decoded| && !Agree(decoded[l], decoded[r])
    ensures first.Some? ==> DifferAt(decoded, first.value)
  {
    conflicts, first := {}, None;
    for left := 0 to |decoded|
      invariant forall l: nat, r: nat :: l < r < |decoded| ==>
                  ((l, r) in conflicts <==> l < left && !Agree(decoded[l], decoded[r]))
      invariant first.Some? <==>
                  exists l: nat, r: nat :: l < left && l < r < |decoded| && !Agree(decoded[l], decoded[r])
      invariant first.Some? ==> DifferAt(decoded, first.value)
    {
      for right := left + 1 to |decoded|
        invariant forall l: nat, r: nat :: l < r < |decoded| ==>
                    ((l, r) in conflicts <==> (l < left || (l == left && r < right)) && !Agree(decoded[l], decoded[r]))
        invariant first.Some? <==> exists l: nat, r: nat ::
                    (l < left || (l == left && r < right)) && l < r < |decoded| && !Agree(decoded[l], decoded[r])
        invariant first.Some? ==> DifferAt(decoded, first.value)
      {
        var conflict := FindConflict(decoded[left], decoded[right]);
        if conflict.Some? {
          if first.None? { first := conflict; }
          conflicts := conflicts + {(left, right)};
        }
      }
    }
  }

  method LongestMember(decoded: seq<seq<Bytes>>, s: seq<nat>) returns (w: nat)
    requires s != [] && (forall i :: 0 <= i < |s| ==> s[i] < |decoded|)
    requires forall i, j :: 0 <= i < j < |s| ==> s[i] < s[j]
    ensures FirstLongest(decoded, s, w)
  {
    w := s[0];
    for i := 1 to |s|
      invariant w in s[..i] && forall j :: 0 <= j < i ==> |decoded[s[j]]| <= |decoded[w]|
      invariant forall j :: 0 <= j < i && |decoded[s[j]]| == |decoded[w]| ==> w <= s[j]
    {
      if |decoded[s[i]]| > |decoded[w]| { w := s[i]; }
    }
  }

  /** Every candidate with its longest member, in subset order. */
  method Candidates(decoded: seq<seq<Bytes>>, quorum: nat) returns (found: seq<(nat, seq<nat>)>, first: Option<nat>)
    requires quorum >= 1
    ensures AllLeads(decoded, quorum, found) && Exhaustive(decoded, quorum, found)
    ensures first.Some? ==> DifferAt(decoded, first.value)
    ensures first.None? ==> forall l: nat, r: nat :: l < r < |decoded| ==> Agree(decoded[l], decoded[r])
  {
    var conflicts;
    conflicts, first := Conflicts(decoded);
    var subsets := QuorumSubsets(|decoded|, quorum);
    found := [];
    for i := 0 to |subsets|
      invariant AllLeads(decoded, quorum, found)
      invariant forall k :: 0 <= k < i && Candidate(decoded, quorum, subsets[k]) ==> Names(found, subsets[k])
    {
      var subset := subsets[i];
      CombosSound(0, |decoded|, quorum, i);
      var consistent := forall p, q :: 0 <= p < q < |subset| ==> (subset[p], subset[q]) !in conflicts;
      if consistent {
        var w := LongestMember(decoded, subset);
        NamesSnoc(found, (w, subset));
        found := found + [(w, subset)];
      }
    }
    forall s | Candidate(decoded, quorum, s) ensures Names(found, s) {
      CombosComplete(0, |decoded|, quorum, s);
      var k :| 0 <= k < |subsets| && subsets[k] == s;
    }
  }

  lemma NamesSnoc(cs: seq<(nat, seq<nat>)>, c: (nat, seq<nat>))
    ensures Names(cs + [c], c.1)
    ensures forall s :: Names(cs, s) ==> Names(cs + [c], s)
  {
    assert (cs + [c])[|cs|] == c;
    forall s | Names(cs, s) ensures Names(cs + [c], s) {
      var i :| 0 <= i < |cs| && cs[i].1 == s;
      assert (cs + [c])[i].1 == s;
    }
  }

  method SelectCanonicalQuorum(snapshots: seq<Snapshot>, quorum: nat) returns (r: Result<Selection, SelectError>)
    requires quorum >= 1
    ensures IsSelection(snapshots, quorum, r)
  {
    if |snapshots| < quorum {
      return Err(NoQuorum);
    }
    var decoded := Decoded(snapshots);
    var candidates, firstConflict := Candidates(decoded, quorum);
    if candidates == [] {
      assert NoCandidate(decoded, quorum) by {
        forall s ensures !Candidate(decoded, quorum, s) {
          assert !Names(candidates, s);
        }
      }
      if firstConflict.None? {
        ghost var s := ComboContaining(|decoded|, quorum, 0);
        assert Candidate(decoded, quorum, s);
        assert false;
      }
      return Err(ConflictingPrefix(firstConflict.value));
    }
    var longest := LongestLead(decoded, quorum, candidates);
    r := PickEquivalent(snapshots, decoded, quorum, candidates, longest);
  }

  /** Length of the longest member over all candidates. */
  method LongestLead(decoded: seq<seq<Bytes>>, quorum: nat, candidates: seq<(nat, seq<nat>)>) returns (longest: nat)
    requires candidates != [] && AllLeads(decoded, quorum, candidates)
    ensures forall i :: 0 <= i < |candidates| ==> |decoded[candidates[i].0]| <= longest
    ensures exists i :: 0 <= i < |candidates| && |decoded[candidates[i].0]| == longest
  {
    longest := |decoded[candidates[0].0]|;
    for i := 1 to |candidates|
      invariant exists k :: 0 <= k < i && |decoded[candidates[k].0]| == longest
      invariant forall k :: 0 <= k < i ==> |decoded[candidates[k].0]| <= longest
    {
      if |decoded[candidates[i].0]| > longest {
        longest := |decoded[candidates[i].0]|;
      }
    }
  }

  lemma LeadIsMaximal(decoded: seq<seq<Bytes>>, quorum: nat, candidates: seq<(nat, seq<nat>)>, longest: nat, k: nat)
    requires AllLeads(decoded, quorum, candidates) && Exhaustive(decoded, quorum, candidates)
    requires forall i :: 0 <= i < |candidates| ==> |decoded[candidates[i].0]| <= longest
    requires k < |candidates| && |decoded[candidates[k].0]| == longest
    ensures Maximal(decoded, quorum, candidates[k].0)
  {
    assert Lead(decoded, quorum, candidates[k]);
    forall s, i | Candidate(decoded, quorum, s) && 0 <= i < |s|
      ensures |decoded[s[i]]| <= longest
    {
      assert Names(candidates, s);
      var m :| 0 <= m < |candidates| && candidates[m].1 == s;
      assert Lead(decoded, quorum, candidates[m]);
    }
  }

  /** Every maximal leader carries the records of some collected leader of maximal length. */
  lemma MaximalIsCollected(decoded: seq<seq<Bytes>>, quorum: nat, candidates: seq<(nat, seq<nat>)>, longest: nat,
                           v: nat)
    returns (m: nat)
    requires AllLeads(decoded, quorum, candidates) && Exhaustive(decoded, quorum, candidates)
    requires forall i :: 0 <= i < |candidates| ==> |decoded[candidates[i].0]| <= longest
    requires exists i :: 0 <= i < |candidates| && |decoded[candidates[i].0]| == longest
    requires Maximal(decoded, quorum, v)
    ensures m < |candidates| && |decoded[candidates[m].0]| == longest && decoded[candidates[m].0] == decoded[v]
  {
    var s :| Candidate(decoded, quorum, s) && LongestOf(decoded, s, v);
    assert Names(candidates, s);
    m :| 0 <= m < |candidates| && candidates[m].1 == s;
    assert Lead(decoded, quorum, candidates[m]);
    AgreeingEquals(decoded, quorum, s, v, candidates[m].0);
    var k :| 0 <= k < |candidates| && |decoded[candidates[k].0]| == longest;
    assert Lead(decoded, quorum, candidates[k]);
    var i :| 0 <= i < |candidates[k].1| && candidates[k].1[i] == candidates[k].0;
    assert |decoded[candidates[k].1[i]]| <= |decoded[v]|;
  }

  /** Among the longest candidates, fail on different bytes, else prefer the lowest zones. */
  method PickEquivalent(snapshots: seq<Snapshot>, decoded: seq<seq<Bytes>>, quorum: nat,
                        candidates: seq<(nat, seq<nat>)>, longest: nat)
    returns (r: Result<Selection, SelectError>)
    requires |snapshots| >= quorum >= 1 && decoded == Decoded(snapshots)
    requires AllLeads(decoded, quorum, candidates) && Exhaustive(decoded, quorum, candidates)
    requires forall i :: 0 <= i < |candidates| ==> |decoded[candidates[i].0]| <= longest
    requires exists i :: 0 <= i < |candidates| && |decoded[candidates[i].0]| == longest
    ensures IsSelection(snapshots, quorum, r)
  {
    hide Decoded, Candidate, Lead, Exhaustive, LongestOf, FirstLongest, Preferred;
    var best, clash := ScanLongest(snapshots, decoded, quorum, candidates, longest);
    LeadIsMaximal(decoded, quorum, candidates, longest, best);
    var w := candidates[best].0;
    if clash.Some? {
      LeadIsMaximal(decoded, quorum, candidates, longest, clash.value);
      var index := FindConflict(decoded[candidates[clash.value].0], decoded[w]);
      return Err(ConflictingPrefix(if index.Some? then index.value else 0));
    }
    LeadersAgree(decoded, quorum, candidates, longest, best);
    BestIsPreferred(snapshots, decoded, quorum, candidates, longest, best);
    return Ok(Selection(w, Ends(decoded[w])));
  }

  /** No collected longest candidate has lexicographically lower zones than `best`. */
  ghost predicate LowestZones(snapshots: seq<Snapshot>, decoded: seq<seq<Bytes>>, quorum: nat,
                              candidates: seq<(nat, seq<nat>)>, longest: nat, best: nat, upTo: nat)
    requires |decoded| == |snapshots| && AllLeads(decoded, quorum, candidates) && best < |candidates|
    requires upTo <= |candidates|
  {
    forall k :: 0 <= k < upTo && |decoded[candidates[k].0]| == longest ==>
      NotBelow(snapshots, decoded, quorum, candidates[k], candidates[best])
  }

  predicate NotBelow(snapshots: seq<Snapshot>, decoded: seq<seq<Bytes>>, quorum: nat, c: (nat, seq<nat>),
                     b: (nat, seq<nat>))
    requires |decoded| == |snapshots| && Lead(decoded, quorum, c) && Lead(decoded, quorum, b)
  {
    !LexLess(Zones(snapshots, c.1), Zones(snapshots, b.1))
  }

  lemma BestIsPreferred(snapshots: seq<Snapshot>, decoded: seq<seq<Bytes>>, quorum: nat,
                        candidates: seq<(nat, seq<nat>)>, longest: nat, best: nat)
    requires |decoded| == |snapshots| && AllLeads(decoded, quorum, candidates)
    requires Exhaustive(decoded, quorum, candidates)
    requires forall i :: 0 <= i < |candidates| ==> |decoded[candidates[i].0]| <= longest
    requires best < |candidates| && |decoded[candidates[best].0]| == longest
    requires LowestZones(snapshots, decoded, quorum, candidates, longest, best, |candidates|)
    ensures Preferred(snapshots, decoded, quorum, candidates[best].0)
  {
    var s := candidates[best].1;
    assert Lead(decoded, quorum, candidates[best]);
    forall t | Candidate(decoded, quorum, t) && HasLength(decoded, t, longest)
      ensures !LexLess(Zones(snapshots, t), Zones(snapshots, s))
    {
      assert Names(candidates, t);
      var k :| 0 <= k < |candidates| && candidates[k].1 == t;
      assert Lead(decoded, quorum, candidates[k]);
      assert NotBelow(snapshots, decoded, quorum, candidates[k], candidates[best]);
    }
    assert Foremost(snapshots, decoded, quorum, s, longest);
  }

  /** When no longest candidate differs from `best`, the choice is unambiguous. */
  lemma LeadersAgree(decoded: seq<seq<Bytes>>, quorum: nat, candidates: seq<(nat, seq<nat>)>, longest: nat, best: nat)
    requires AllLeads(decoded, quorum, candidates) && Exhaustive(decoded, quorum, candidates)
    requires forall i :: 0 <= i < |candidates| ==> |decoded[candidates[i].0]| <= longest
    requires best < |candidates| && |decoded[candidates[best].0]| == longest
    requires forall k :: 0 <= k < |candidates| && |decoded[candidates[k].0]| == longest ==>
               decoded[candidates[k].0] == decoded[candidates[best].0]
    ensures !Ambiguous(decoded, quorum) && !NoCandidate(decoded, quorum)
  {
    hide Candidate, LongestOf, FirstLongest, Exhaustive;
    var w := candidates[best].0;
    forall v: nat | Maximal(decoded, quorum, v) ensures decoded[v] == decoded[w] {
      var m := MaximalIsCollected(decoded, quorum, candidates, longest, v);
    }
    assert Lead(decoded, quorum, candidates[best]);
  }

  /** The preferred longest candidate, and one whose records differ from it if any does. */
  method ScanLongest(snapshots: seq<Snapshot>, decoded: seq<seq<Bytes>>, quorum: nat,
                     candidates: seq<(nat, seq<nat>)>, longest: nat)
    returns (best: nat, clash: Option<nat>)
    requires |decoded| == |snapshots| && AllLeads(decoded, quorum, candidates)
    requires exists i :: 0 <= i < |candidates| && |decoded[candidates[i].0]| == longest
    ensures best < |candidates| && |decoded[candidates[best].0]| == longest
    ensures clash.Some? ==>
              clash.value < |candidates| && |decoded[candidates[clash.value].0]| == longest
              && decoded[candidates[clash.value].0] != decoded[candidates[best].0]
    ensures clash.None? ==>
              forall k :: 0 <= k < |candidates| && |decoded[candidates[k].0]| == longest ==>
                decoded[candidates[k].0] == decoded[candidates[best].0]
    ensures clash.None? ==> LowestZones(snapshots, decoded, quorum, candidates, longest, best, |candidates|)
  {
    best, clash := 0, None;
    while |decoded[candidates[best].0]| != longest
      invariant 0 <= best < |candidates|
      invariant forall k :: 0 <= k < best ==> |decoded[candidates[k].0]| != longest
      decreases |candidates| - best
    {
      best := best + 1;
    }
    StartLowest(snapshots, decoded, quorum, candidates, longest, best);
    for i := best + 1 to |candidates|
      invariant best < i && |decoded[candidates[best].0]| == longest
      invariant forall k :: 0 <= k < i && |decoded[candidates[k].0]| == longest ==>
                  decoded[candidates[k].0] == decoded[candidates[best].0]
      invariant LowestZones(snapshots, decoded, quorum, candidates, longest, best, i)
    {
      assert Lead(decoded, quorum, candidates[i]) && Lead(decoded, quorum, candidates[best]);
      if |decoded[candidates[i].0]| == longest {
        if decoded[candidates[i].0] != decoded[candidates[best].0] {
          return best, Some(i);
        }
        StepLowest(snapshots, decoded, quorum, candidates, longest, best, i);
        if !LexLess(Zones(snapshots, candidates[best].1), Zones(snapshots, candidates[i].1)) {
          best := i;
        }
      }
    }
  }

  lemma StartLowest(snapshots: seq<Snapshot>, decoded: seq<seq<Bytes>>, quorum: nat,
                    candidates: seq<(nat, seq<nat>)>, longest: nat, best: nat)
    requires |decoded| == |snapshots| && AllLeads(decoded, quorum, candidates) && best < |candidates|
    requires forall k :: 0 <= k < best ==> |decoded[candidates[k].0]| != longest
    ensures LowestZones(snapshots, decoded, quorum, candidates, longest, best, best + 1)
  {
    LexIrreflexive(Zones(snapshots, candidates[best].1));
  }

  lemma StepLowest(snapshots: seq<Snapshot>, decoded: seq<seq<Bytes>>, quorum: nat,
                   candidates: seq<(nat, seq<nat>)>, longest: nat, best: nat, i: nat)
    requires |decoded| == |snapshots| && AllLeads(decoded, quorum, candidates) && best < i < |candidates|
    requires Lead(decoded, quorum, candidates[best]) && Lead(decoded, quorum, candidates[i])
    requires LowestZones(snapshots, decoded, quorum, candidates, longest, best, i)
    ensures var zb, zi := Zones(snapshots, candidates[best].1), Zones(snapshots, candidates[i].1);
            LowestZones(snapshots, decoded, quorum, candidates, longest, if LexLess(zb, zi) then best else i, i + 1)
  {
    hide LexLess, Agree, FirstLongest;
    var zb, zi := Zones(snapshots, candidates[best].1), Zones(snapshots, candidates[i].1);
    LexIrreflexive(zi);
    LexOrder(zi, zb, zi);
    forall k | 0 <= k < i && |decoded[candidates[k].0]| == longest
      ensures NotBelow(snapshots, decoded, quorum, candidates[k], candidates[if LexLess(zb, zi) then best else i])
    {
      assert NotBelow(snapshots, decoded, quorum, candidates[k], candidates[best]);
      LexOrder(Zones(snapshots, candidates[k].1), zb, zi);
    }
  }

  /** Lexicographic order is transitive and total. */
  lemma {:induction false} LexOrder(c: seq<nat>, b: seq<nat>, a: seq<nat>)
    ensures !LexLess(c, b) && !LexLess(b, a) ==> !LexLess(c, a)
    ensures LexLess(c, b) && LexLess(b, a) ==> LexLess(c, a)
    ensures LexLess(b, a) ==> !LexLess(a, b)
    ensures LexLess(b, a) || LexLess(a, b) || a == b
  {
    if a != [] && b != [] {
      LexOrder(if c == [] then [] else c[1..], b[1..], a[1..]);
      if a[0] == b[0] && a[1..] == b[1..] { assert a == [a[0]] + a[1..] && b == [b[0]] + b[1..]; }
    }
  }

  lemma AgreeingEquals(decoded: seq<seq<Bytes>>, quorum: nat, s: seq<nat>, v: nat, w: nat)
    requires Candidate(decoded, quorum, s) && LongestOf(decoded, s, v) && LongestOf(decoded, s, w)
    ensures decoded[v] == decoded[w]
  {
    var i :| 0 <= i < |s| && s[i] == v;
    var j :| 0 <= j < |s| && s[j] == w;
    if i < j { assert Agree(decoded[s[i]], decoded[s[j]]); }
    if j < i { assert Agree(decoded[s[j]], decoded[s[i]]); }
  }

  // ------------------------------------------------------------ main results

  /** All copies are byte prefixes of one stream. */
  predicate PrefixHonest(snapshots: seq<Snapshot>, stream: Bytes) {
    forall i :: 0 <= i < |snapshots| ==> snapshots[i].bytes <= stream
  }

  lemma BytePrefixesAgree(a: Bytes, b: Bytes, stream: Bytes)
    requires a <= stream && b <= stream
    ensures Agree(CompleteRecords(a), CompleteRecords(b))
  {
    if |a| <= |b| {
      assert a <= b;
      ParseMonotone(a, b);
    } else {
      assert b <= a;
      ParseMonotone(b, a);
    }
  }

  /** Any witness belongs to some quorum-sized combination. */
  lemma ComboContaining(n: nat, q: nat, w: nat) returns (s: seq<nat>)
    requires 1 <= q <= n && w < n
    ensures IsCombo(s, 0, n, q) && w in s
  {
    if w < q {
      s := seq(q, i requires 0 <= i < q => i);
      assert s[w] == w;
    } else {
      var front := seq(q - 1, i requires 0 <= i < q - 1 => i);
      s := front + [w];
      assert s[q - 1] == w;
    }
  }

  /**
   With prefix-honest copies selection always succeeds, and what it selects is at
   least as long as every copy's well-formed prefix.
   */
  lemma HonestSelection(snapshots: seq<Snapshot>, quorum: nat, stream: Bytes, r: Result<Selection, SelectError>)
    requires 1 <= quorum <= |snapshots| && PrefixHonest(snapshots, stream)
    requires IsSelection(snapshots, quorum, r)
    ensures r.Ok? && r.value.chosen < |snapshots|
    ensures forall i :: 0 <= i < |snapshots| ==>
              CompleteRecords(snapshots[i].bytes) <= CompleteRecords(snapshots[r.value.chosen].bytes)
  {
    var decoded := Decoded(snapshots);
    forall i, j | 0 <= i < |decoded| && 0 <= j < |decoded| ensures Agree(decoded[i], decoded[j]) {
      BytePrefixesAgree(snapshots[i].bytes, snapshots[j].bytes, stream);
    }
    var s0 := ComboContaining(|decoded|, quorum, 0);
    assert Candidate(decoded, quorum, s0);
    forall v: nat, w: nat | Maximal(decoded, quorum, v) && Maximal(decoded, quorum, w)
      ensures decoded[v] == decoded[w]
    {
      MaximalSameLength(decoded, quorum, v, w);
      assert Agree(decoded[v], decoded[w]);
    }
    assert r.Ok?;
    var w := r.value.chosen;
    forall i | 0 <= i < |snapshots| ensures decoded[i] <= decoded[w] {
      var s := ComboContaining(|decoded|, quorum, i);
      assert Candidate(decoded, quorum, s);
      var k :| 0 <= k < |s| && s[k] == i;
      assert |decoded[s[k]]| <= |decoded[w]|;
      assert Agree(decoded[i], decoded[w]);
    }
  }

  lemma MaximalSameLength(decoded: seq<seq<Bytes>>, quorum: nat, v: nat, w: nat)
    requires Maximal(decoded, quorum, v) && Maximal(decoded, quorum, w)
    ensures |decoded[v]| == |decoded[w]|
  {
    var s :| Candidate(decoded, quorum, s) && LongestOf(decoded, s, v);
    var t :| Candidate(decoded, quorum, t) && LongestOf(decoded, t, w);
    var i :| 0 <= i < |s| && s[i] == v;
    var j :| 0 <= j < |t| && t[j] == w;
  }

  /**
   Two successful selections from the same copies carry the same records, and choose the
   same copy if zones differ.
   */
  lemma SelectionIsUnique(snapshots: seq<Snapshot>, quorum: nat,
                          a: Result<Selection, SelectError>, b: Result<Selection, SelectError>)
    requires quorum >= 1 && IsSelection(snapshots, quorum, a) && IsSelection(snapshots, quorum, b)
    ensures a.Ok? == b.Ok?
    ensures a.Ok? ==> a.value.recordEnds == b.value.recordEnds
    ensures a.Ok? ==>
              CompleteRecords(snapshots[a.value.chosen].bytes) == CompleteRecords(snapshots[b.value.chosen].bytes)
    ensures a.Ok? && ZonesDiffer(snapshots) ==> a.value.chosen == b.value.chosen
  {
    if a.Ok? {
      var decoded := Decoded(snapshots);
      assert !Ambiguous(decoded, quorum);
      assert decoded[a.value.chosen] == decoded[b.value.chosen];
      if ZonesDiffer(snapshots) { PreferredIsUnique(snapshots, decoded, quorum, a.value.chosen, b.value.chosen); }
    }
  }

  predicate ZonesDiffer(snapshots: seq<Snapshot>) {
    forall i, j :: 0 <= i < j < |snapshots| ==> snapshots[i].zone != snapshots[j].zone
  }

  lemma PreferredIsUnique(snapshots: seq<Snapshot>, decoded: seq<seq<Bytes>>, quorum: nat, v: nat, w: nat)
    requires |decoded| == |snapshots| && ZonesDiffer(snapshots)
    requires Preferred(snapshots, decoded, quorum, v) && Preferred(snapshots, decoded, quorum, w)
    requires decoded[v] == decoded[w]
    ensures v == w
  {
    hide LexLess, Agree;
    var len := |decoded[v]|;
    var s :| Candidate(decoded, quorum, s) && FirstLongest(decoded, s, v) &&
      Foremost(snapshots, decoded, quorum, s, len);
    var t :| Candidate(decoded, quorum, t) && FirstLongest(decoded, t, w) &&
      Foremost(snapshots, decoded, quorum, t, len);
    assert HasLength(decoded, s, len) && HasLength(decoded, t, len);
    LexOrder([], Zones(snapshots, s), Zones(snapshots, t));
    assert Zones(snapshots, s) == Zones(snapshots, t);
    SameZonesSameMembers(snapshots, s, t);
  }

  lemma SameZonesSameMembers(snapshots: seq<Snapshot>, s: seq<nat>, t: seq<nat>)
    requires ZonesDiffer(snapshots)
    requires (forall i :: 0 <= i < |s| ==> s[i] < |snapshots|) && forall i :: 0 <= i < |t| ==> t[i] < |snapshots|
    requires Zones(snapshots, s) == Zones(snapshots, t)
    ensures s == t
  {
    assert |Zones(snapshots, s)| == |s| && |Zones(snapshots, t)| == |t|;
    forall i | 0 <= i < |s| ensures s[i] == t[i] {
      assert Zones(snapshots, s)[i] == Zones(snapshots, t)[i];
    }
  }
}
