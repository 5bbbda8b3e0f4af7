/**
 * The empirical rank metrics attached to each loss.
 *
 * `exfreq` ranks the losses in descending order with ties taking the
 * smallest rank of their group (`method='min'`), so the rank of a loss is one
 * more than the number of strictly larger losses; dividing by `n_yrs` gives
 * the frequency per year of a loss at least that large.
 *
 * `cprob` ranks in ascending order with ties taking the largest rank of their
 * group (`method='max'`), so the rank of a loss is the number of losses at
 * most that large; dividing by the number of losses gives P(X <= x).
 */
module Ranks {
  import opened Yelt
  import opened Sorting

  /** How many losses are strictly larger than `x`. */
  function CountGreater(rs: seq<Record>, x: real): (c: nat)
    ensures c <= |rs|
  {
    if rs == [] then 0
    else CountGreater(rs[..|rs| - 1], x) + if rs[|rs| - 1].loss > x then 1 else 0
  }

  /** How many losses are at most `x`. */
  function CountAtMost(rs: seq<Record>, x: real): (c: nat)
    ensures c <= |rs|
  {
    if rs == [] then 0
    else CountAtMost(rs[..|rs| - 1], x) + if rs[|rs| - 1].loss <= x then 1 else 0
  }

  /** The descending rank of `x` with ties at the minimum. */
  function RankMinDescending(rs: seq<Record>, x: real): (rank: nat)
    ensures 1 <= rank <= |rs| + 1
  {
    1 + CountGreater(rs, x)
  }

  /** The ascending rank of `x` with ties at the maximum. */
  function RankMaxAscending(rs: seq<Record>, x: real): (rank: nat)
    ensures rank <= |rs|
  {
    CountAtMost(rs, x)
  }

  /** `exfreq` of a loss `x` in a table of `nYrs` years. */
  function ExFreq(rs: seq<Record>, x: real, nYrs: int): (f: real)
    requires nYrs > 0
    ensures 0.0 < 1.0 / nYrs as real <= f
    ensures f == 1.0 / nYrs as real <==> CountGreater(rs, x) == 0
  {
    Divide(1.0, RankMinDescending(rs, x) as real, nYrs as real);
    RankMinDescending(rs, x) as real / nYrs as real
  }

  /** `cprob` of a loss `x`. */
  function CProb(rs: seq<Record>, x: real): (p: real)
    requires |rs| > 0
    ensures 0.0 <= p <= 1.0
    ensures p == 1.0 <==> CountGreater(rs, x) == 0
  {
    CountsPartition(rs, x);
    Divide(RankMaxAscending(rs, x) as real, |rs| as real, |rs| as real);
    RankMaxAscending(rs, x) as real / |rs| as real
  }

  // ---------------------------------------------------------------------
  // Counting facts
  // ---------------------------------------------------------------------

  /** Every loss is either larger than `x` or at most `x`. */
  lemma {:induction false} CountsPartition(rs: seq<Record>, x: real)
    ensures CountGreater(rs, x) + CountAtMost(rs, x) == |rs|
  {
    if rs != [] {
      CountsPartition(rs[..|rs| - 1], x);
    }
  }

  /** No loss is larger than the largest one. */
  lemma {:induction false} CountGreaterOfMaximum(rs: seq<Record>, x: real)
    requires forall r :: r in rs ==> r.loss <= x
    ensures CountGreater(rs, x) == 0
  {
    if rs != [] {
      var p := rs[..|rs| - 1];
      assert rs == p + [rs[|rs| - 1]];
      assert forall r :: r in p ==> r in rs;
      CountGreaterOfMaximum(p, x);
    }
  }

  /**
   * Raising the threshold never adds larger losses, and passing over a loss
   * that is present removes at least one.
   */
  lemma {:induction false} CountGreaterAntitone(rs: seq<Record>, lo: real, hi: real)
    requires lo <= hi
    ensures CountGreater(rs, hi) <= CountGreater(rs, lo)
    ensures (exists r :: r in rs && lo < r.loss <= hi) ==> CountGreater(rs, hi) < CountGreater(rs, lo)
  {
    if rs != [] {
      var p := rs[..|rs| - 1];
      var last := rs[|rs| - 1];
      assert rs == p + [last];
      CountGreaterAntitone(p, lo, hi);
      if exists r :: r in rs && lo < r.loss <= hi {
        var r :| r in rs && lo < r.loss <= hi;
        if r != last {
          assert r in p;
        }
      }
    }
  }

  lemma {:induction false} CountAtMostMonotone(rs: seq<Record>, lo: real, hi: real)
    requires lo <= hi
    ensures CountAtMost(rs, lo) <= CountAtMost(rs, hi)
    ensures (exists r :: r in rs && lo < r.loss <= hi) ==> CountAtMost(rs, lo) < CountAtMost(rs, hi)
  {
    CountsPartition(rs, lo);
    CountsPartition(rs, hi);
    CountGreaterAntitone(rs, lo, hi);
  }

  /** A loss that is present is not larger than itself, so fewer than all losses exceed it. */
  lemma {:induction false} CountGreaterOfMember(rs: seq<Record>, x: real)
    requires exists r :: r in rs && r.loss == x
    ensures CountGreater(rs, x) < |rs|
    ensures CountAtMost(rs, x) >= 1
  {
    var r :| r in rs && r.loss == x;
    var p := rs[..|rs| - 1];
    assert rs == p + [rs[|rs| - 1]];
    if r != rs[|rs| - 1] {
      assert r in p;
      CountGreaterOfMember(p, x);
    }
    CountsPartition(rs, x);
  }

  // ---------------------------------------------------------------------
  // Real arithmetic, kept apart from the quantified facts above
  // ---------------------------------------------------------------------

  lemma Divide(a: real, b: real, n: real)
    requires n > 0.0
    ensures a <= b ==> a / n <= b / n
    ensures a < b ==> a / n < b / n
    ensures a == n ==> a / n == 1.0
  {
    assert b / n - a / n == (b - a) / n;
  }

  lemma ProperFraction(c: nat, n: nat)
    requires 1 <= c <= n
    ensures 0.0 < c as real / n as real <= 1.0
  {
    Divide(c as real, n as real, n as real);
  }

  // ---------------------------------------------------------------------
  // Properties of the metrics
  // ---------------------------------------------------------------------

  /** The largest loss has exceedance frequency one per `n_yrs` years. */
  lemma ExFreqOfLargest(rs: seq<Record>, x: real, nYrs: int)
    requires nYrs > 0
    requires forall r :: r in rs ==> r.loss <= x
    ensures ExFreq(rs, x, nYrs) == 1.0 / nYrs as real
  {
    CountGreaterOfMaximum(rs, x);
  }

  /** A smaller loss is exceeded at least as often, and strictly more often when a loss lies in between. */
  lemma ExFreqAntitone(rs: seq<Record>, lo: real, hi: real, nYrs: int)
    requires nYrs > 0 && lo <= hi
    ensures ExFreq(rs, hi, nYrs) <= ExFreq(rs, lo, nYrs)
    ensures (exists r :: r in rs && lo < r.loss <= hi) ==> ExFreq(rs, hi, nYrs) < ExFreq(rs, lo, nYrs)
  {
    CountGreaterAntitone(rs, lo, hi);
    Divide(RankMinDescending(rs, hi) as real, RankMinDescending(rs, lo) as real, nYrs as real);
  }

  /** The exceedance frequency of a recorded loss lies in [1/n_yrs, N/n_yrs]. */
  lemma ExFreqBounds(rs: seq<Record>, x: real, nYrs: int)
    requires nYrs > 0
    requires exists r :: r in rs && r.loss == x
    ensures 0.0 < 1.0 / nYrs as real <= ExFreq(rs, x, nYrs) <= |rs| as real / nYrs as real
  {
    CountGreaterOfMember(rs, x);
    Divide(0.0, 1.0, nYrs as real);
    Divide(1.0, RankMinDescending(rs, x) as real, nYrs as real);
    Divide(RankMinDescending(rs, x) as real, |rs| as real, nYrs as real);
  }

  /** The largest loss has cumulative probability one. */
  lemma CProbOfLargest(rs: seq<Record>, x: real)
    requires |rs| > 0
    requires forall r :: r in rs ==> r.loss <= x
    ensures CProb(rs, x) == 1.0
  {
    CountGreaterOfMaximum(rs, x);
    CountsPartition(rs, x);
    Divide(|rs| as real, |rs| as real, |rs| as real);
  }

  /** A larger loss has at least the cumulative probability, strictly more when a loss lies in between. */
  lemma CProbMonotone(rs: seq<Record>, lo: real, hi: real)
    requires |rs| > 0 && lo <= hi
    ensures CProb(rs, lo) <= CProb(rs, hi)
    ensures (exists r :: r in rs && lo < r.loss <= hi) ==> CProb(rs, lo) < CProb(rs, hi)
  {
    CountAtMostMonotone(rs, lo, hi);
    Divide(RankMaxAscending(rs, lo) as real, RankMaxAscending(rs, hi) as real, |rs| as real);
  }

  /** The cumulative probability of a recorded loss lies in (0, 1]. */
  lemma CProbBounds(rs: seq<Record>, x: real)
    requires exists r :: r in rs && r.loss == x
    ensures |rs| > 0
    ensures 0.0 < CProb(rs, x) <= 1.0
  {
    CountGreaterOfMember(rs, x);
    ProperFraction(RankMaxAscending(rs, x), |rs|);
  }

  // ---------------------------------------------------------------------
  // The counts are the ranks of a sort by loss
  // ---------------------------------------------------------------------

  predicate LossGeq(a: Record, b: Record)
  {
    a.loss >= b.loss
  }

  predicate LossLeq(a: Record, b: Record)
  {
    a.loss <= b.loss
  }

  lemma LossOrdersAreTotalPreorders()
    ensures TotalPreorder(LossGeq) && TotalPreorder(LossLeq)
  {
  }

  /** The records sorted from the largest loss down. */
  function ByLossDescending(rs: seq<Record>): (s: seq<Record>)
    ensures Sorted(s, LossGeq) && multiset(s) == multiset(rs)
  {
    LossOrdersAreTotalPreorders();
    Sort(rs, LossGeq)
  }

  /** The records sorted from the smallest loss up. */
  function ByLossAscending(rs: seq<Record>): (s: seq<Record>)
    ensures Sorted(s, LossLeq) && multiset(s) == multiset(rs)
  {
    LossOrdersAreTotalPreorders();
    Sort(rs, LossLeq)
  }

  lemma {:induction false} CountGreaterAppend(a: seq<Record>, b: seq<Record>, x: real)
    ensures CountGreater(a + b, x) == CountGreater(a, x) + CountGreater(b, x)
    decreases |b|
  {
    if b == [] {
      assert a + b == a;
    } else {
      var p := b[..|b| - 1];
      assert (a + b)[..|a + b| - 1] == a + p;
      CountGreaterAppend(a, p, x);
    }
  }

  /** The count does not depend on the order of the records. */
  lemma {:induction false} CountGreaterPermutation(a: seq<Record>, b: seq<Record>, x: real)
    requires multiset(a) == multiset(b)
    ensures CountGreater(a, x) == CountGreater(b, x)
    decreases |a|
  {
    if a == [] {
      assert |b| == |multiset(b)| == 0;
    } else {
      var p := a[..|a| - 1];
      var v := a[|a| - 1];
      assert a == p + [v];
      assert v in multiset(b);
      var k :| 0 <= k < |b| && b[k] == v;
      var rest := b[..k] + b[k + 1..];
      assert b == b[..k] + [v] + b[k + 1..];
      assert multiset(b) == multiset(b[..k]) + multiset{v} + multiset(b[k + 1..]);
      assert multiset(rest) == multiset(b[..k]) + multiset(b[k + 1..]);
      assert multiset(a) == multiset(p) + multiset{v};
      assert multiset(rest) == multiset(b) - multiset{v};
      assert multiset(p) == multiset(a) - multiset{v};
      CountGreaterPermutation(p, rest, x);
      CountGreaterAppend(b[..k], b[k + 1..], x);
      CountGreaterAppend(b[..k] + [v], b[k + 1..], x);
      CountGreaterAppend(b[..k], [v], x);
    }
  }

  lemma {:induction false} CountGreaterOfMinimum(rs: seq<Record>, x: real)
    requires forall r :: r in rs ==> r.loss > x
    ensures CountGreater(rs, x) == |rs|
  {
    if rs != [] {
      assert rs[|rs| - 1] in rs;
      assert forall r :: r in rs[..|rs| - 1] ==> r in rs;
      CountGreaterOfMinimum(rs[..|rs| - 1], x);
    }
  }

  /** In a table sorted from the largest loss down, `x` first occurs after exactly the larger losses. */
  lemma FirstPositionCounts(s: seq<Record>, x: real, i: nat)
    requires Sorted(s, LossGeq) && i < |s| && s[i].loss == x
    requires forall j :: 0 <= j < i ==> s[j].loss != x
    ensures CountGreater(s, x) == i
  {
    assert s == s[..i] + s[i..];
    CountGreaterAppend(s[..i], s[i..], x);
    var before := s[..i];
    forall j | 0 <= j < |before| ensures before[j].loss > x {
      assert LossGeq(s[j], s[i]);
    }
    CountGreaterOfMinimum(before, x);
    var after := s[i..];
    forall j | 0 <= j < |after| ensures after[j].loss <= x {
      assert j == 0 || LossGeq(s[i], s[i + j]);
    }
    CountGreaterOfMaximum(after, x);
  }

  /** In a table sorted from the smallest loss up, `x` last occurs before exactly the larger losses. */
  lemma LastPositionCounts(s: seq<Record>, x: real, i: nat)
    requires Sorted(s, LossLeq) && i < |s| && s[i].loss == x
    requires forall j :: i < j < |s| ==> s[j].loss != x
    ensures CountGreater(s, x) == |s| - (i + 1)
  {
    assert s == s[..i + 1] + s[i + 1..];
    CountGreaterAppend(s[..i + 1], s[i + 1..], x);
    var before := s[..i + 1];
    forall j | 0 <= j < |before| ensures before[j].loss <= x {
      assert j == i || LossLeq(s[j], s[i]);
    }
    CountGreaterOfMaximum(before, x);
    var after := s[i + 1..];
    forall j | 0 <= j < |after| ensures after[j].loss > x {
      assert LossLeq(s[i], s[i + 1 + j]);
    }
    CountGreaterOfMinimum(after, x);
  }

  /**
   * `rank(ascending=False, method='min')`: in the losses sorted from the
   * largest down, the rank of `x` is the 1-based position of its first
   * occurrence.
   */
  lemma RankMinIsFirstPosition(rs: seq<Record>, x: real, i: nat)
    requires i < |ByLossDescending(rs)| && ByLossDescending(rs)[i].loss == x
    requires forall j :: 0 <= j < i ==> ByLossDescending(rs)[j].loss != x
    ensures RankMinDescending(rs, x) == i + 1
  {
    var s := ByLossDescending(rs);
    FirstPositionCounts(s, x, i);
    CountGreaterPermutation(rs, s, x);
  }

  /**
   * `rank(ascending=True, method='max')`: in the losses sorted from the
   * smallest up, the rank of `x` is the 1-based position of its last
   * occurrence.
   */
  lemma RankMaxIsLastPosition(rs: seq<Record>, x: real, i: nat)
    requires i < |ByLossAscending(rs)| && ByLossAscending(rs)[i].loss == x
    requires forall j :: i < j < |ByLossAscending(rs)| ==> ByLossAscending(rs)[j].loss != x
    ensures RankMaxAscending(rs, x) == i + 1
  {
    var s := ByLossAscending(rs);
    assert |s| == |multiset(s)| == |multiset(rs)| == |rs|;
    LastPositionCounts(s, x, i);
    CountGreaterPermutation(rs, s, x);
    CountsPartition(rs, x);
  }
}
