/**
 Strict-majority quorums over any replica count, and the order statistic that
 recovery uses to bound what may have been acknowledged.
 */
module Quorum {
  import opened Wrappers

  /** Strict-majority quorum size. */
  function Majority(n: nat): nat {
    n / 2 + 1
  }

  // ------------------------------------------------------------ index sets

  /** The replica indices `0 .. n`. */
  function Indices(n: nat): (s: set<nat>)
    ensures forall i: nat :: i in s <==> i < n
  {
    if n == 0 then {} else Indices(n - 1) + {n - 1}
  }

  lemma {:induction false} IndicesSize(n: nat)
    ensures |Indices(n)| == n
  {
    if n > 0 {
      IndicesSize(n - 1);
    }
  }

  /** Two index sets whose sizes sum past `n` overlap. */
  lemma Overlap(n: nat, a: set<nat>, b: set<nat>) returns (i: nat)
    requires a <= Indices(n) && b <= Indices(n)
    requires |a| + |b| > n
    ensures i in a && i in b && i < n
  {
    SubsetSize(a + b, Indices(n));
    IndicesSize(n);
    assert |a + b| + |a * b| == |a| + |b|;
    assert a * b != {};
    i :| i in a * b;
  }

  lemma SubsetSize<T>(a: set<T>, b: set<T>)
    requires a <= b
    ensures |a| <= |b|
  {
    assert b == a + (b - a);
  }

  // --------------------------------------------------------------- counting

  /** How many elements of `s` are at least `x`. */
  function CountGe(s: seq<int>, x: int): (c: nat)
    ensures c <= |s|
  {
    if s == [] then 0 else (if s[0] >= x then 1 else 0) + CountGe(s[1..], x)
  }

  /** The positions of `s` whose element is at least `x`. */
  function Holders(s: seq<int>, x: int): (r: set<nat>)
    ensures r <= Indices(|s|)
  {
    set i: nat | 0 <= i < |s| && s[i] >= x
  }

  lemma CountGeConcat(a: seq<int>, b: seq<int>, x: int)
    ensures CountGe(a + b, x) == CountGe(a, x) + CountGe(b, x)
  {
    if a == [] {
      assert a + b == b;
    } else {
      assert (a + b)[0] == a[0] && (a + b)[1..] == a[1..] + b;
      CountGeConcat(a[1..], b, x);
    }
  }

  lemma {:induction false} CountGeIsHolders(s: seq<int>, x: int)
    ensures CountGe(s, x) == |Holders(s, x)|
    decreases |s|
  {
    if s == [] {
      assert Holders(s, x) == {};
    } else {
      var n := |s| - 1;
      CountGeIsHolders(s[..n], x);
      assert s == s[..n] + [s[n]];
      CountGeConcat(s[..n], [s[n]], x);
      hide CountGe, Holders;
      HoldersSnoc(s, x);
    }
  }

  lemma HoldersSnoc(s: seq<int>, x: int)
    requires s != []
    ensures var n := |s| - 1; |Holders(s, x)| == |Holders(s[..n], x)| + CountGe([s[n]], x)
  {
    var n := |s| - 1;
    if s[n] >= x {
      assert Holders(s, x) == Holders(s[..n], x) + {n};
    } else {
      assert Holders(s, x) == Holders(s[..n], x);
    }
  }

  lemma {:induction false} CountGeMonotone(s: seq<int>, t: seq<int>, x: int)
    requires |s| == |t| && forall i :: 0 <= i < |s| ==> s[i] <= t[i]
    ensures CountGe(s, x) <= CountGe(t, x)
  {
    if s != [] {
      CountGeMonotone(s[1..], t[1..], x);
    }
  }

  lemma {:induction false} CountGeThreshold(s: seq<int>, x: int, y: int)
    requires x <= y
    ensures CountGe(s, y) <= CountGe(s, x)
  {
    if s != [] {
      CountGeThreshold(s[1..], x, y);
    }
  }

  // ---------------------------------------------------------- sort_unstable

  predicate Ascending(s: seq<int>) {
    forall i, j :: 0 <= i < j < |s| ==> s[i] <= s[j]
  }

  function Insert(x: int, s: seq<int>): (r: seq<int>)
    ensures |r| == |s| + 1
  {
    if s == [] || x <= s[0] then [x] + s else [s[0]] + Insert(x, s[1..])
  }

  /** The slice after `sort_unstable`. */
  function Sort(s: seq<int>): (r: seq<int>)
    ensures |r| == |s|
  {
    if s == [] then [] else Insert(s[0], Sort(s[1..]))
  }

  lemma {:induction false} InsertAbove(x: int, s: seq<int>, lo: int)
    requires lo <= x && forall i :: 0 <= i < |s| ==> lo <= s[i]
    ensures forall i :: 0 <= i < |Insert(x, s)| ==> lo <= Insert(x, s)[i]
  {
    if s != [] && x > s[0] { InsertAbove(x, s[1..], lo); }
  }

  lemma {:induction false} InsertAscending(x: int, s: seq<int>)
    requires Ascending(s)
    ensures Ascending(Insert(x, s))
  {
    if s != [] && x > s[0] {
      InsertAscending(x, s[1..]);
      InsertAbove(x, s[1..], s[0]);
    }
  }

  lemma {:induction false} InsertMultiset(x: int, s: seq<int>)
    ensures multiset(Insert(x, s)) == multiset(s) + multiset{x}
  {
    if s != [] && x > s[0] {
      InsertMultiset(x, s[1..]);
      assert s == [s[0]] + s[1..];
    }
  }

  lemma {:induction false} InsertCount(x: int, s: seq<int>, y: int)
    ensures CountGe(Insert(x, s), y) == CountGe(s, y) + (if x >= y then 1 else 0)
  {
    if s == [] || x <= s[0] {
      assert ([x] + s)[1..] == s;
    } else {
      InsertCount(x, s[1..], y);
      assert Insert(x, s)[1..] == Insert(x, s[1..]);
    }
  }

  /** Sorting rearranges the sizes into ascending order. */
  lemma {:induction false} SortSpec(s: seq<int>)
    ensures Ascending(Sort(s)) && multiset(Sort(s)) == multiset(s)
  {
    if s != [] {
      SortSpec(s[1..]);
      InsertAscending(s[0], Sort(s[1..]));
      InsertMultiset(s[0], Sort(s[1..]));
      assert s == [s[0]] + s[1..];
    }
  }

  lemma {:induction false} SortCount(s: seq<int>, y: int)
    ensures CountGe(Sort(s), y) == CountGe(s, y)
  {
    if s != [] {
      SortCount(s[1..], y);
      InsertCount(s[0], Sort(s[1..]), y);
    }
  }

  lemma {:induction false} CountGeAll(s: seq<int>, x: int)
    requires forall i :: 0 <= i < |s| ==> s[i] >= x
    ensures CountGe(s, x) == |s|
  {
    if s != [] { CountGeAll(s[1..], x); }
  }

  lemma {:induction false} CountGeNone(s: seq<int>, x: int)
    requires forall i :: 0 <= i < |s| ==> s[i] < x
    ensures CountGe(s, x) == 0
  {
    if s != [] { CountGeNone(s[1..], x); }
  }

  /**
   The order statistic: the `k`-th largest element is at least `x` exactly when
   `k` elements are.
   */
  lemma KthLargest(s: seq<int>, k: nat, x: int)
    requires 1 <= k <= |s|
    ensures Sort(s)[|s| - k] >= x <==> CountGe(s, x) >= k
  {
    hide CountGe, Sort;
    SortSpec(s);
    SortCount(s, x);
    var t := Sort(s);
    var m := |s| - k;
    if t[m] >= x {
      assert t == t[..m] + t[m..];
      CountGeConcat(t[..m], t[m..], x);
      CountGeAll(t[m..], x);
    } else {
      assert t == t[..m + 1] + t[m + 1..];
      CountGeConcat(t[..m + 1], t[m + 1..], x);
      CountGeNone(t[..m + 1], x);
    }
  }

  // ------------------------------------------------------------ watermarks

  /** The byte offset that `quorum` lanes have made durable. */
  function QuorumWatermark(durables: seq<int>, quorum: nat): int
    requires 1 <= quorum <= |durables|
  {
    Sort(durables)[|durables| - quorum]
  }

  /** An offset is at or below the watermark exactly when a quorum holds it. */
  lemma WatermarkIsQuorumHeld(durables: seq<int>, quorum: nat, x: int)
    requires 1 <= quorum <= |durables|
    ensures x <= QuorumWatermark(durables, quorum) <==> |Holders(durables, x)| >= quorum
  {
    KthLargest(durables, quorum, x);
    CountGeIsHolders(durables, x);
  }

  /** `select_recovery_size`: the order statistic of the reachable sizes. */
  function SelectRecoverySize(sizes: seq<int>, replicaCount: nat): Option<int> {
    var quorum := Majority(replicaCount);
    if |sizes| < quorum || |sizes| > replicaCount then None
    else
      var unavailable := replicaCount - |sizes|;
      if quorum < unavailable then None
      else
        var support := quorum - unavailable;
        if support > 0 then Some(Sort(sizes)[|sizes| - support]) else None
  }

  /**
   A size comes back exactly for a reachable majority, so recovery's `expect`
   cannot fail once it has a quorum of observations.
   */
  lemma RecoverySizeDefined(sizes: seq<int>, n: nat)
    ensures SelectRecoverySize(sizes, n).Some? <==> Majority(n) <= |sizes| <= n
  {
  }

  /** Some assignment to the unreachable replicas gives offset `x` a write quorum. */
  ghost predicate MayBeAcknowledged(reachable: seq<int>, n: nat, x: int)
    requires |reachable| <= n
  {
    exists hidden: seq<int> ::
      |hidden| == n - |reachable| && CountGe(reachable + hidden, x) >= Majority(n)
  }

  /**
   `select_recovery_size` returns exactly the largest offset the reachable sizes
   leave possible: an offset may have been acknowledged by some write quorum of
   all `n` replicas if and only if it is at or below the selected size.
   */
  lemma RecoverySizeIsTight(reachable: seq<int>, n: nat, x: int)
    requires Majority(n) <= |reachable| <= n
    ensures SelectRecoverySize(reachable, n).Some?
    ensures MayBeAcknowledged(reachable, n, x) <==> x <= SelectRecoverySize(reachable, n).value
  {
    var support := Majority(n) - (n - |reachable|);
    KthLargest(reachable, support, x);
    if MayBeAcknowledged(reachable, n, x) {
      var hidden: seq<int> :| |hidden| == n - |reachable| && CountGe(reachable + hidden, x) >= Majority(n);
      CountGeConcat(reachable, hidden, x);
    }
    if x <= SelectRecoverySize(reachable, n).value {
      var hidden: seq<int> := seq(n - |reachable|, _ => x);
      CountGeAll(hidden, x);
      CountGeConcat(reachable, hidden, x);
    }
  }

  /** With nobody unreached, the selected size is exactly what a majority holds. */
  lemma AllReachedSize(sizes: seq<int>, x: int)
    requires sizes != []
    ensures SelectRecoverySize(sizes, |sizes|).Some?
    ensures x <= SelectRecoverySize(sizes, |sizes|).value <==> |Holders(sizes, x)| >= Majority(|sizes|)
  {
    hide Sort, CountGe, Holders;
    KthLargest(sizes, Majority(|sizes|), x);
    CountGeIsHolders(sizes, x);
  }

  /**
   Seen from the replicas: if a quorum of all `n` holds `x`, every reachable
   majority selects a size of at least `x`.
   */
  lemma RecoverySizeCoversQuorum(all: seq<int>, reached: seq<nat>, x: int)
    requires forall k :: 0 <= k < |reached| ==> reached[k] < |all|
    requires forall j, k :: 0 <= j < k < |reached| ==> reached[j] < reached[k]
    requires |Holders(all, x)| >= Majority(|all|) && |reached| >= Majority(|all|)
    ensures |reached| <= |all|
    ensures var sizes := seq(|reached|, k requires 0 <= k < |reached| => all[reached[k]]);
            SelectRecoverySize(sizes, |all|).Some? && x <= SelectRecoverySize(sizes, |all|).value
  {
    var n := |all|;
    var sizes := seq(|reached|, k requires 0 <= k < |reached| => all[reached[k]]);
    AscendingSize(reached, n);
    ReachedHolders(all, reached, sizes, x);
    CountGeIsHolders(sizes, x);
    KthLargest(sizes, Majority(n) - (n - |reached|), x);
  }

  function Elements(s: seq<nat>): (r: set<nat>)
    ensures forall x :: x in r <==> x in s
  {
    set k | 0 <= k < |s| :: s[k]
  }

  lemma ElementsSnoc(front: seq<nat>, last: nat)
    ensures Elements(front + [last]) == Elements(front) + {last}
  {
    hide Elements;
  }

  /** A strictly increasing list of indices below `n` has as many elements as its set. */
  lemma {:induction false} AscendingSize(reached: seq<nat>, n: nat)
    requires forall k :: 0 <= k < |reached| ==> reached[k] < n
    requires forall j, k :: 0 <= j < k < |reached| ==> reached[j] < reached[k]
    ensures |Elements(reached)| == |reached| <= n
    decreases |reached|
  {
    hide Elements;
    if reached == [] {
      assert Elements(reached) == {};
    } else {
      var last := |reached| - 1;
      var front := reached[..last];
      AscendingSize(front, n);
      ElementsSnoc(front, reached[last]);
      assert reached == front + [reached[last]];
      assert reached[last] !in front;
    }
    assert Elements(reached) <= Indices(n);
    SubsetSize(Elements(reached), Indices(n));
    IndicesSize(n);
  }

  /** Of the `q` holders of `x`, at most `n - k` are outside the `k` reached. */
  lemma ReachedHolders(all: seq<int>, reached: seq<nat>, sizes: seq<int>, x: int)
    requires forall k :: 0 <= k < |reached| ==> reached[k] < |all|
    requires forall j, k :: 0 <= j < k < |reached| ==> reached[j] < reached[k]
    requires |sizes| == |reached| && forall k :: 0 <= k < |reached| ==> sizes[k] == all[reached[k]]
    ensures |Holders(sizes, x)| + (|all| - |reached|) >= |Holders(all, x)|
  {
    var n := |all|;
    var r := Elements(reached);
    AscendingSize(reached, n);
    var h := Holders(all, x);
    var both := h * r;
    var image := set k | k in Holders(sizes, x) :: reached[k];
    assert both <= image by {
      forall v | v in both ensures v in image {
        var k :| 0 <= k < |reached| && reached[k] == v;
        assert k in Holders(sizes, x);
      }
    }
    ImageSize(reached, Holders(sizes, x));
    SubsetSize(both, image);
    SubsetSize(h + r, Indices(n));
    IndicesSize(n);
    assert |h + r| + |both| == |h| + |r|;
  }

  lemma ImageSize(reached: seq<nat>, ks: set<nat>)
    requires forall k :: k in ks ==> k < |reached|
    ensures |(set k | k in ks :: reached[k])| <= |ks|
    decreases |ks|
  {
    if ks != {} {
      var k0 :| k0 in ks;
      ImageSize(reached, ks - {k0});
      assert (set k | k in ks :: reached[k]) == (set k | k in ks - {k0} :: reached[k]) + {reached[k0]};
    }
  }
}
