/** The integer part of the baseline statistics: minimum, nearest-rank 95th percentile, maximum. */
module Percentile {
  import opened Machine

  datatype SampleStatistics = SampleStatistics(min: u64, p95: u64, max: u64)

  predicate Sorted(s: seq<u64>) {
    forall i, j | 0 <= i < j < |s| :: s[i] <= s[j]
  }

  /** How many samples are not above `v`. */
  function CountAtMost(s: seq<u64>, v: int): nat {
    if s == [] then 0 else CountAtMost(s[1..], v) + (if s[0] <= v then 1 else 0)
  }

  function Insert(s: seq<u64>, x: u64): (r: seq<u64>)
    requires Sorted(s)
    ensures |r| == |s| + 1 && (forall y :: y in r <==> y == x || y in s)
    ensures Sorted(r)
  {
    if s == [] then [x]
    else if x <= s[0] then [x] + s
    else
      var rest := Insert(s[1..], x);
      assert forall y :: y in s <==> y == s[0] || y in s[1..];
      assert forall y | y in s[1..] :: s[0] <= y;
      assert forall k | 0 <= k < |rest| :: rest[k] in rest && (rest[k] == x || rest[k] in s[1..]);
      [s[0]] + rest
  }

  /** `sort_unstable` on integers: the sorted permutation, however it is computed. */
  function Sort(s: seq<u64>): (r: seq<u64>)
    ensures |r| == |s| && (forall y :: y in r <==> y in s)
    ensures Sorted(r)
  {
    if s == [] then []
    else
      assert forall y :: y in s <==> y == s[0] || y in s[1..];
      Insert(Sort(s[1..]), s[0])
  }

  lemma {:induction false} InsertCounts(s: seq<u64>, x: u64, v: int)
    requires Sorted(s)
    ensures CountAtMost(Insert(s, x), v) == CountAtMost(s, v) + (if x <= v then 1 else 0)
  {
    if s == [] {
    } else if x <= s[0] {
      assert ([x] + s)[1..] == s;
    } else {
      InsertCounts(s[1..], x, v);
      assert ([s[0]] + Insert(s[1..], x))[1..] == Insert(s[1..], x);
    }
  }

  /** Sorting keeps every count, hence the samples with their multiplicities. */
  lemma {:induction false} SortCounts(s: seq<u64>, v: int)
    ensures CountAtMost(Sort(s), v) == CountAtMost(s, v)
  {
    if s != [] {
      SortCounts(s[1..], v);
      InsertCounts(Sort(s[1..]), s[0], v);
    }
  }

  /** `ceil(0.95 * n)` */
  function Rank(n: nat): nat {
    (95 * n + 99) / 100
  }

  function P95Index(n: usize): nat {
    var scaled := if n * 95 < U64_LIMIT then n * 95 else U64_LIMIT - 1;
    var rank := (scaled + 99) / 100;
    if rank == 0 then 0 else rank - 1
  }

  /** `None` for no samples and for more samples than a `u32` counts. */
  function Statistics(samples: seq<u64>): Option<SampleStatistics>
    requires |samples| < U64_LIMIT
  {
    if samples == [] || |samples| >= U32_LIMIT then None
    else
      var sorted := Sort(samples);
      Some(SampleStatistics(sorted[0], sorted[P95Index(|samples|)], sorted[|sorted| - 1]))
  }

  lemma {:induction false} CountSorted(s: seq<u64>, i: nat, v: int)
    requires Sorted(s) && i < |s|
    ensures s[i] <= v ==> CountAtMost(s, v) >= i + 1
    ensures v < s[i] ==> CountAtMost(s, v) <= i
  {
    if i > 0 {
      CountSorted(s[1..], i - 1, v);
    } else if v < s[0] {
      CountNone(s, v);
    }
  }

  lemma {:induction false} CountNone(s: seq<u64>, v: int)
    requires forall k | 0 <= k < |s| :: v < s[k]
    ensures CountAtMost(s, v) == 0
  {
    if s != [] {
      CountNone(s[1..], v);
    }
  }

  lemma {:induction false} CountRemove(s: seq<u64>, k: nat, v: int)
    requires k < |s|
    ensures CountAtMost(s, v) == CountAtMost(s[..k] + s[k + 1..], v) + (if s[k] <= v then 1 else 0)
  {
    if k == 0 {
      assert s[..0] + s[1..] == s[1..];
    } else {
      CountRemove(s[1..], k - 1, v);
      var rest := s[..k] + s[k + 1..];
      assert rest[1..] == s[1..][..k - 1] + s[1..][k..];
    }
  }

  lemma MultisetRemove(s: seq<u64>, k: nat)
    requires k < |s|
    ensures multiset(s[..k] + s[k + 1..]) == multiset(s) - multiset{s[k]}
  {
    assert s == s[..k] + [s[k]] + s[k + 1..];
  }

  /** Counting does not depend on the order of the samples. */
  lemma {:induction false} CountIsOrderFree(a: seq<u64>, b: seq<u64>, v: int)
    requires multiset(a) == multiset(b)
    ensures CountAtMost(a, v) == CountAtMost(b, v)
    decreases |a|
  {
    if a == [] {
      assert |multiset(b)| == |b|;
    } else {
      assert a[0] in multiset(b);
      var k :| 0 <= k < |b| && b[k] == a[0];
      MultisetRemove(a, 0);
      MultisetRemove(b, k);
      CountRemove(a, 0, v);
      CountRemove(b, k, v);
      CountIsOrderFree(a[..0] + a[1..], b[..k] + b[k + 1..], v);
    }
  }

  /** Smallest sample with at least `rank` samples not above it. */
  predicate IsRanked(samples: seq<u64>, rank: nat, v: u64) {
    && v in samples
    && CountAtMost(samples, v) >= rank
    && forall w | w in samples && w < v :: CountAtMost(samples, w) < rank
  }

  /**
    For every reported sample set the index is in bounds and p95 is the smallest sample
    with at least `ceil(0.95 * n)` samples not above it; min and max are the extremes.
  */
  lemma StatisticsMeaning(samples: seq<u64>)
    requires |samples| < U64_LIMIT && Statistics(samples).Some?
    ensures var stats := Statistics(samples).value;
            && IsRanked(samples, Rank(|samples|), stats.p95)
            && stats.min in samples && stats.max in samples
            && forall x | x in samples :: stats.min <= x <= stats.max
  {
    var sorted := Sort(samples);
    var n := |samples|;
    var i := P95Index(n);
    assert i == Rank(n) - 1 && i < n;
    var v := sorted[i];
    CountSorted(sorted, i, v);
    SortCounts(samples, v);
    forall w | w in samples && w < v
      ensures CountAtMost(samples, w) < Rank(n)
    {
      CountSorted(sorted, i, w);
      SortCounts(samples, w);
    }
    forall x | x in samples
      ensures sorted[0] <= x <= sorted[n - 1]
    {
      assert x in sorted;
    }
    assert sorted[0] in sorted && sorted[n - 1] in sorted && v in sorted;
  }

  /** There are statistics for every sample set that is not empty and that a `u32` can count, and for no other. */
  lemma StatisticsExist(samples: seq<u64>)
    requires |samples| < U64_LIMIT
    ensures Statistics(samples).Some? <==> 0 < |samples| < 0x1_0000_0000
  {
  }

  /** The reported values do not depend on the order in which samples were taken. */
  lemma StatisticsOrderFree(a: seq<u64>, b: seq<u64>)
    requires |a| < U64_LIMIT && multiset(a) == multiset(b)
    ensures |b| == |a| && Statistics(b) == Statistics(a)
  {
    assert |a| == |multiset(a)| == |multiset(b)| == |b|;
    var x, y := Sort(a), Sort(b);
    forall i | 0 <= i < |a|
      ensures x[i] == y[i]
    {
      SameRank(a, b, i, x[i]);
      SameRank(a, b, i, y[i]);
    }
    assert x == y;
  }

  lemma SameRank(a: seq<u64>, b: seq<u64>, i: nat, v: int)
    requires multiset(a) == multiset(b) && i < |a| == |b|
    ensures Sort(a)[i] <= v <==> Sort(b)[i] <= v
  {
    CountIsOrderFree(a, b, v);
    SortCounts(a, v);
    SortCounts(b, v);
    CountSorted(Sort(a), i, v);
    CountSorted(Sort(b), i, v);
  }
}
