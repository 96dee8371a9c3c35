/** The log2 latency histogram and its percentile estimate. */
module Histograms {
  import opened Words
  import opened Sums

  const BUCKET_COUNT: nat := 64
  const U64_MAX: u64 := 0xFFFF_FFFF_FFFF_FFFF

  function BitWidth(v: nat): nat {
    if v == 0 then 0 else 1 + BitWidth(v / 2)
  }

  function Pow2(n: nat): nat {
    if n == 0 then 1 else 2 * Pow2(n - 1)
  }

  function BucketOf(v: u64): (b: nat)
    ensures b < BUCKET_COUNT
  {
    if v == 0 then 0
    else
      var b := BitWidth(v) - 1;
      if b < BUCKET_COUNT - 1 then b else BUCKET_COUNT - 1
  }

  lemma {:induction false} BitWidthBounds(v: nat)
    requires v > 0
    ensures Pow2(BitWidth(v) - 1) <= v < Pow2(BitWidth(v))
  {
    if v > 1 {
      BitWidthBounds(v / 2);
    } else {
      assert BitWidth(1) == 1 + BitWidth(0);
    }
  }

  lemma {:induction false} Pow2Monotone(a: nat, b: nat)
    requires a <= b
    ensures Pow2(a) <= Pow2(b)
  {
    if a < b {
      Pow2Monotone(a, b - 1);
    }
  }

  lemma Pow2Of64()
    ensures Pow2(64) == W64 && Pow2(63) == W63
  {
    assert Pow2(16) == 65536 by {
      assert Pow2(8) == 256 by {
        assert Pow2(4) == 16;
      }
      assert Pow2(12) == 4096 by {
        assert Pow2(10) == 4 * Pow2(8);
      }
      assert Pow2(14) == 4 * Pow2(12);
    }
    Pow2Sum(16, 16);
    Pow2Sum(32, 32);
  }

  lemma {:induction false} Pow2Sum(a: nat, b: nat)
    ensures Pow2(a + b) == Pow2(a) * Pow2(b)
  {
    if b > 0 {
      Pow2Sum(a, b - 1);
      assert Pow2(a + b) == 2 * (Pow2(a) * Pow2(b - 1));
    }
  }

  /** Bucket `b` holds the values from 2^b up to, but not including, 2^(b+1); bucket 0 also holds 0. */
  lemma BucketBounds(v: u64)
    ensures v > 0 ==> Pow2(BucketOf(v)) <= v
    ensures v < Pow2(BucketOf(v) + 1)
  {
    if v > 0 {
      BitWidthBounds(v);
      Pow2Of64();
      if BitWidth(v) > 64 {
        Pow2Monotone(64, BitWidth(v) - 1);
      }
    }
  }

  lemma BucketUnique(v: u64, b: nat)
    requires Pow2(b) <= v < Pow2(b + 1)
    ensures BucketOf(v) == b
  {
    BucketBounds(v);
    assert v > 0 by {
      Pow2Monotone(0, b);
    }
    if BucketOf(v) < b {
      Pow2Monotone(BucketOf(v) + 1, b);
    } else if b < BucketOf(v) {
      Pow2Monotone(b + 1, BucketOf(v));
    }
  }

  lemma BucketMonotone(v: u64, w: u64)
    requires v <= w
    ensures BucketOf(v) <= BucketOf(w)
  {
    BucketBounds(v);
    BucketBounds(w);
    if BucketOf(w) < BucketOf(v) {
      Pow2Monotone(BucketOf(w) + 1, BucketOf(v));
    }
  }

  // ---------------------------------------------------------------- the value of a histogram

  datatype Histogram = Histogram(buckets: seq<u64>, sum: u64, min: u64, max: u64, count: u64)

  function Empty(): Histogram {
    Histogram(seq(64, i => 0), 0, U64_MAX, 0, 0)
  }

  /** Counts the values of bucket `b`. */
  function InBucket(b: nat): u64 -> nat {
    (v: u64) => if BucketOf(v) == b then 1 else 0
  }

  /** Counts the values below bucket `b`. */
  function BelowBucket(b: nat): u64 -> nat {
    (v: u64) => if BucketOf(v) < b then 1 else 0
  }

  function Itself(): u64 -> nat {
    (v: u64) => v
  }

  function LeastOf(values: seq<u64>): (r: u64)
    ensures forall v :: v in values ==> r <= v
    ensures r in values || r == U64_MAX
  {
    if values == [] then U64_MAX
    else
      var last := |values| - 1;
      assert values == values[..last] + [values[last]];
      var before := LeastOf(values[..last]);
      if values[last] < before then values[last] else before
  }

  function GreatestOf(values: seq<u64>): (r: u64)
    ensures forall v :: v in values ==> v <= r
    ensures r in values || r == 0
  {
    if values == [] then 0
    else
      var last := |values| - 1;
      assert values == values[..last] + [values[last]];
      var before := GreatestOf(values[..last]);
      if values[last] > before then values[last] else before
  }

  /** The histogram of `values`, computed from scratch. */
  function HistogramOf(values: seq<u64>): Histogram {
    Histogram(seq(64, b requires 0 <= b => BucketCount(values, b)),
              Wrap(SumBy(values, Itself()), W64), LeastOf(values), GreatestOf(values), Wrap(|values|, W64))
  }

  function BucketCount(values: seq<u64>, b: nat): u64 {
    Wrap(SumBy(values, InBucket(b)), W64)
  }

  /** One more recorded value. */
  function Recorded(h: Histogram, v: u64): Histogram
    requires |h.buckets| == BUCKET_COUNT
  {
    var b := BucketOf(v);
    Histogram(h.buckets[b := Add64(h.buckets[b], 1)], Add64(h.sum, v),
              if v < h.min then v else h.min, if v > h.max then v else h.max, Add64(h.count, 1))
  }

  lemma EmptyIsNaive()
    ensures HistogramOf([]) == Empty()
  {
  }

  lemma BucketCountAppend(values: seq<u64>, v: u64, b: nat)
    ensures BucketCount(values + [v], b) == if b == BucketOf(v) then Add64(BucketCount(values, b), 1) else BucketCount(values, b)
  {
    SumByAppend(values, v, InBucket(b));
    WrappedCounters(SumBy(values, InBucket(b)), 1);
  }

  /** Updating in place agrees with computing from scratch, modulo the counter widths. */
  lemma RecordedIsNaive(values: seq<u64>, v: u64)
    ensures Recorded(HistogramOf(values), v) == HistogramOf(values + [v])
  {
    var h, h' := HistogramOf(values), HistogramOf(values + [v]);
    assert (values + [v])[..|values|] == values;
    forall b: nat | b < 64
      ensures Recorded(h, v).buckets[b] == h'.buckets[b]
    {
      BucketCountAppend(values, v, b);
    }
    assert Recorded(h, v).buckets == h'.buckets;
    SumByAppend(values, v, Itself());
    WrappedCounters(SumBy(values, Itself()), v);
    WrappedCounters(|values|, 1);
  }

  /** Counts the values from `lo` up to, but not including, `hi`. */
  function InRange(lo: nat, hi: nat): u64 -> nat {
    (v: u64) => if lo <= v < hi then 1 else 0
  }

  lemma BucketRange(v: u64, b: nat)
    ensures BucketOf(v) == b <==> (if b == 0 then 0 else Pow2(b)) <= v < Pow2(b + 1)
  {
    BucketBounds(v);
    if BucketOf(v) != b && (if b == 0 then 0 else Pow2(b)) <= v < Pow2(b + 1) {
      if v > 0 || b > 0 {
        assert Pow2(0) == 1;
        BucketUnique(v, b);
      }
    }
  }

  /** Every field of a histogram in terms of the values recorded. */
  lemma HistogramMeaning(values: seq<u64>, h: Histogram, b: nat)
    requires h == HistogramOf(values) && b < 64
    ensures |h.buckets| == 64
    ensures h.buckets[b] == Wrap(SumBy(values, InRange(if b == 0 then 0 else Pow2(b), Pow2(b + 1))), W64)
    ensures h.count == Wrap(|values|, W64) && h.sum == Wrap(SumBy(values, Itself()), W64)
    ensures values == [] ==> h.min == 0xFFFF_FFFF_FFFF_FFFF && h.max == 0
    ensures values != [] ==> h.min in values && h.max in values && forall v :: v in values ==> h.min <= v <= h.max
  {
    BucketMeaning(values, b, if b == 0 then 0 else Pow2(b), Pow2(b + 1));
    if values != [] {
      ExtremesMeaning(values);
    }
  }

  lemma BucketMeaning(values: seq<u64>, b: nat, lo: nat, hi: nat)
    requires lo == (if b == 0 then 0 else Pow2(b)) && hi == Pow2(b + 1)
    ensures BucketCount(values, b) == Wrap(SumBy(values, InRange(lo, hi)), W64)
  {
    forall v | v in values
      ensures InBucket(b)(v) == InRange(lo, hi)(v)
    {
      BucketRange(v, b);
    }
    SumByEqual(values, InBucket(b), InRange(lo, hi));
  }

  lemma ExtremesMeaning(values: seq<u64>)
    requires values != []
    ensures LeastOf(values) in values && GreatestOf(values) in values
    ensures forall v :: v in values ==> LeastOf(values) <= v <= GreatestOf(values)
  {
    assert values[0] in values;
  }

  // ---------------------------------------------------------------- percentiles

  /** Running total of the first `n` buckets. */
  function Cumulative(buckets: seq<u64>, n: nat): u64
    requires n <= |buckets|
  {
    if n == 0 then 0 else Add64(Cumulative(buckets, n - 1), buckets[n - 1])
  }

  /** The first bucket from `b` on at which the running total reaches `k`. */
  function FirstReaching(buckets: seq<u64>, k: nat, b: nat): (r: Option<nat>)
    requires b <= |buckets|
    ensures r.Some? ==> b <= r.value < |buckets| && Cumulative(buckets, r.value + 1) >= k
    ensures r.Some? ==> forall m :: b < m <= r.value ==> Cumulative(buckets, m) < k
    ensures r.None? ==> forall m :: b < m <= |buckets| ==> Cumulative(buckets, m) < k
    decreases |buckets| - b
  {
    if b == |buckets| then None
    else if Cumulative(buckets, b + 1) >= k then Some(b)
    else FirstReaching(buckets, k, b + 1)
  }

  /** The midpoint of bucket `b`; the last bucket stands for its lower edge. */
  function Midpoint(b: nat): nat {
    var lo := Pow2(b);
    var hi := if b + 1 < 64 then Pow2(b + 1) else lo;
    lo + (hi - lo) / 2
  }

  /** One and a half times the lower edge, except for the first and the last bucket. */
  lemma MidpointExact(b: nat)
    ensures b == 0 ==> Midpoint(b) == 1
    ensures 0 < b < 63 ==> 2 * Midpoint(b) == 3 * Pow2(b)
    ensures b == 63 ==> Midpoint(b) == Pow2(b)
  {
    assert Pow2(b + 1) == 2 * Pow2(b);
    if b > 0 {
      HalfOf(Pow2(b), Pow2(b - 1));
    }
  }

  lemma HalfOf(lo: nat, half: nat)
    requires lo == 2 * half
    ensures lo / 2 == half
  {
  }

  lemma MidpointFits(b: nat)
    requires b < BUCKET_COUNT
    ensures Midpoint(b) < W64 && BucketOf(Midpoint(b)) == b
    ensures 2 * Midpoint(b) <= 3 * Pow2(b) && Pow2(b + 1) <= 2 * Midpoint(b)
  {
    Pow2Of64();
    Pow2Monotone(b, 63);
    if b < 63 {
      Pow2Monotone(b + 1, 63);
    }
    Pow2Monotone(0, b);
    BucketUnique(Midpoint(b), b);
  }

  /** The rank that percentile `p` asks for. */
  function RankOf(count: nat, p: nat): nat {
    count * p / 100
  }

  /** The rank is the whole part of `count * p / 100`. */
  lemma RankMeaning(count: nat, p: nat, k: nat)
    ensures k == RankOf(count, p) <==> 100 * k <= count * p < 100 * (k + 1)
  {
  }

  /** The estimate of the `k`-th smallest recorded value. */
  function EstimateAt(h: Histogram, k: nat): nat
    requires |h.buckets| == BUCKET_COUNT
  {
    if h.count == 0 then 0
    else
      var b := FirstReaching(h.buckets, k, 0);
      if b.Some? then Midpoint(b.value) else h.max
  }

  function PercentileOf(h: Histogram, p: nat): nat
    requires |h.buckets| == BUCKET_COUNT
  {
    EstimateAt(h, RankOf(h.count, p))
  }

  function CountBelow(values: seq<u64>, b: nat): nat {
    SumBy(values, BelowBucket(b))
  }

  lemma {:induction false} CountBelowBounds(values: seq<u64>, b: nat)
    ensures CountBelow(values, b) <= |values|
    ensures b == BUCKET_COUNT ==> CountBelow(values, b) == |values|
  {
    if values != [] {
      CountBelowBounds(values[..|values| - 1], b);
    }
  }

  lemma {:induction false} CountBelowNext(values: seq<u64>, b: nat)
    ensures CountBelow(values, b + 1) == CountBelow(values, b) + SumBy(values, InBucket(b))
  {
    if values != [] {
      CountBelowNext(values[..|values| - 1], b);
    }
  }

  lemma BucketCountExact(values: seq<u64>, b: nat)
    requires |values| < W64
    ensures BucketCount(values, b) == SumBy(values, InBucket(b))
    ensures CountBelow(values, b) + BucketCount(values, b) == CountBelow(values, b + 1) <= |values|
  {
    CountBelowNext(values, b);
    CountBelowBounds(values, b + 1);
  }

  /** The running total counts the values of the buckets so far. */
  lemma {:induction false} CumulativeCounts(values: seq<u64>, n: nat)
    requires |values| < W64 && n <= BUCKET_COUNT
    ensures Cumulative(HistogramOf(values).buckets, n) == CountBelow(values, n)
  {
    if n > 0 {
      CumulativeCounts(values, n - 1);
      BucketCountExact(values, n - 1);
      assert HistogramOf(values).buckets[n - 1] == BucketCount(values, n - 1);
    } else {
      SumByZero(values, BelowBucket(0));
    }
  }

  ghost predicate Sorted(s: seq<u64>) {
    forall i, j :: 0 <= i <= j < |s| ==> s[i] <= s[j]
  }

  /** In sorted order the values below bucket `b` come first. */
  lemma {:induction false} SortedByBucket(sorted: seq<u64>, b: nat, i: nat)
    requires Sorted(sorted) && i < |sorted|
    ensures BucketOf(sorted[i]) < b <==> i < CountBelow(sorted, b)
  {
    var last := |sorted| - 1;
    CountBelowBounds(sorted[..last], b);
    if i < last {
      SortedByBucket(sorted[..last], b, i);
      BucketMonotone(sorted[i], sorted[last]);
    } else if last > 0 {
      SortedByBucket(sorted[..last], b, last - 1);
      BucketMonotone(sorted[last - 1], sorted[last]);
    }
  }

  lemma EstimateInBucket(values: seq<u64>, sorted: seq<u64>, k: nat)
    requires |values| < W64 && multiset(sorted) == multiset(values) && Sorted(sorted)
    requires 1 <= k <= |values| == |sorted|
    ensures EstimateAt(HistogramOf(values), k) == Midpoint(BucketOf(sorted[k - 1]))
  {
    var b := BucketOf(sorted[k - 1]);
    CumulativeIsSortedRank(values, sorted, b);
    CumulativeIsSortedRank(values, sorted, b + 1);
    SortedByBucket(sorted, b, k - 1);
    SortedByBucket(sorted, b + 1, k - 1);
    FirstReachingIs(values, k, b);
  }

  lemma MidpointNear(v: u64)
    ensures var r := Midpoint(BucketOf(v));
            && r < W64 && BucketOf(r) == BucketOf(v)
            && (v >= 1 ==> 2 * r <= 3 * v && v < 2 * r)
  {
    MidpointFits(BucketOf(v));
    BucketBounds(v);
  }

  /**
   With `k` the whole part of `|values| * p / 100` and `v` the `k`-th smallest value, the
   reported percentile is the middle of the bucket of `v`, hence at most half as much again
   as `v` and more than half of it.
   */
  lemma PercentileNearOrderStatistic(values: seq<u64>, sorted: seq<u64>, p: nat, k: nat, v: u64)
    requires |values| < W64 && multiset(sorted) == multiset(values) && Sorted(sorted)
    requires 100 * k <= |values| * p < 100 * (k + 1) && 1 <= k <= |values| == |sorted| && v == sorted[k - 1]
    ensures var r, b := PercentileOf(HistogramOf(values), p), BucketOf(v);
            && r < W64 && BucketOf(r) == b
            && (v >= 1 ==> 2 * r <= 3 * v && v < 2 * r)
            && (if b == 0 then r == 1 else if b == 63 then r == Pow2(63) else 2 * r == 3 * Pow2(b))
  {
    RankMeaning(|values|, p, k);
    PercentileIsEstimate(values, p);
    EstimateInBucket(values, sorted, k);
    MidpointNear(v);
    MidpointExact(BucketOf(v));
  }

  lemma CumulativeIsSortedRank(values: seq<u64>, sorted: seq<u64>, n: nat)
    requires |values| < W64 && multiset(sorted) == multiset(values) && n <= BUCKET_COUNT
    ensures Cumulative(HistogramOf(values).buckets, n) == CountBelow(sorted, n)
  {
    CumulativeCounts(values, n);
    SumByPermutation(values, sorted, BelowBucket(n));
  }

  lemma {:induction false} CumulativeMonotone(values: seq<u64>, m: nat, n: nat)
    requires |values| < W64 && m <= n <= BUCKET_COUNT
    ensures Cumulative(HistogramOf(values).buckets, m) <= Cumulative(HistogramOf(values).buckets, n)
  {
    if m < n {
      CumulativeMonotone(values, m, n - 1);
      CumulativeCounts(values, n - 1);
      CumulativeCounts(values, n);
      CountBelowNext(values, n - 1);
    }
  }

  lemma FirstReachingIs(values: seq<u64>, k: nat, b: nat)
    requires |values| < W64 && b < BUCKET_COUNT
    requires Cumulative(HistogramOf(values).buckets, b) < k <= Cumulative(HistogramOf(values).buckets, b + 1)
    ensures FirstReaching(HistogramOf(values).buckets, k, 0) == Some(b)
  {
    var r := FirstReaching(HistogramOf(values).buckets, k, 0);
    assert r.Some?;
    if r.value < b {
      CumulativeMonotone(values, r.value + 1, b);
    }
  }

  /** The running total falls short of `k` everywhere exactly when `k` exceeds the number of values. */
  lemma FallbackOnlyPastEnd(values: seq<u64>, k: nat)
    requires |values| < W64
    ensures FirstReaching(HistogramOf(values).buckets, k, 0).None? <==> k > |values|
  {
    CumulativeCounts(values, BUCKET_COUNT);
    CountBelowBounds(values, BUCKET_COUNT);
    var r := FirstReaching(HistogramOf(values).buckets, k, 0);
    if r.Some? {
      CumulativeMonotone(values, r.value + 1, BUCKET_COUNT);
    }
  }

  lemma EstimateEdges(values: seq<u64>, k: nat)
    requires 0 < |values| < W64
    ensures k == 0 ==> EstimateAt(HistogramOf(values), k) == 1
    ensures k > |values| ==> EstimateAt(HistogramOf(values), k) == GreatestOf(values)
  {
    var h := HistogramOf(values);
    FallbackOnlyPastEnd(values, k);
    assert h.count == |values|;
    if k == 0 {
      assert FirstReaching(h.buckets, 0, 0) == Some(0);
      assert Pow2(0) == 1 && Pow2(1) == 2;
    }
  }

  /** The remaining cases: no values, a rank below one, and a rank past the end. */
  lemma PercentileEdges(values: seq<u64>, p: nat)
    requires |values| < W64
    ensures values == [] ==> PercentileOf(HistogramOf(values), p) == 0
    ensures values != [] && |values| * p < 100 ==> PercentileOf(HistogramOf(values), p) == 1
    ensures values != [] && |values| * p >= 100 * (|values| + 1) ==>
              PercentileOf(HistogramOf(values), p) == GreatestOf(values)
  {
    var k := RankOf(|values|, p);
    RankMeaning(|values|, p, k);
    PercentileIsEstimate(values, p);
    if values != [] {
      EstimateEdges(values, k);
    }
  }

  /** Up to the hundredth percentile the rank exists, so the maximum is never the fallback. */
  lemma RankWithinCount(count: nat, p: nat)
    requires p <= 100
    ensures RankOf(count, p) <= count
  {
    RankMonotone(count, p, 100);
    assert count * 100 / 100 == count;
  }

  lemma RankMonotone(count: nat, p: nat, q: nat)
    requires p <= q
    ensures RankOf(count, p) <= RankOf(count, q)
  {
    assert count * q == count * p + count * (q - p);
    assert count * (q - p) >= 0;
  }

  lemma EstimateMonotone(values: seq<u64>, j: nat, k: nat)
    requires |values| < W64 && j <= k <= |values|
    ensures EstimateAt(HistogramOf(values), j) <= EstimateAt(HistogramOf(values), k)
  {
    var buckets := HistogramOf(values).buckets;
    FallbackOnlyPastEnd(values, j);
    FallbackOnlyPastEnd(values, k);
    var a, b := FirstReaching(buckets, j, 0).value, FirstReaching(buckets, k, 0).value;
    assert a <= b by {
      assert Cumulative(buckets, b + 1) >= k;
    }
    MidpointMonotone(a, b);
  }

  lemma PercentileIsEstimate(values: seq<u64>, p: nat)
    requires |values| < W64
    ensures PercentileOf(HistogramOf(values), p) == EstimateAt(HistogramOf(values), RankOf(|values|, p))
  {
    assert HistogramOf(values).count == |values|;
  }

  /** A higher percentile is never reported lower, up to the hundredth. */
  lemma PercentileMonotone(values: seq<u64>, p: nat, q: nat)
    requires |values| < W64 && p <= q <= 100
    ensures PercentileOf(HistogramOf(values), p) <= PercentileOf(HistogramOf(values), q)
  {
    RankMonotone(|values|, p, q);
    RankWithinCount(|values|, q);
    var j, k := RankOf(|values|, p), RankOf(|values|, q);
    EstimateMonotone(values, j, k);
    PercentileIsEstimate(values, p);
    PercentileIsEstimate(values, q);
  }

  lemma MidpointMonotone(a: nat, b: nat)
    requires a <= b < BUCKET_COUNT
    ensures Midpoint(a) <= Midpoint(b)
  {
    MidpointFits(a);
    MidpointFits(b);
    if a < b {
      Pow2Monotone(a + 1, b);
    }
  }

  // ---------------------------------------------------------------- the mutable histogram

  class LatencyHistogram {
    const buckets: array<u64>
    var sum: u64
    var min: u64
    var max: u64
    var count: u64
    ghost var recorded: seq<u64>  // every value since the last reset

    ghost function Value(): Histogram
      reads this, buckets
    {
      Histogram(buckets[..], sum, min, max, count)
    }

    ghost predicate Valid()
      reads this, buckets
    {
      buckets.Length == BUCKET_COUNT && Value() == HistogramOf(recorded)
    }

    constructor ()
      ensures Valid() && recorded == [] && fresh(buckets)
    {
      buckets := new u64[BUCKET_COUNT](i => 0);
      sum, min, max, count := 0, U64_MAX, 0, 0;
      recorded := [];
      new;
      EmptyIsNaive();
      assert buckets[..] == Empty().buckets;
    }

    method Record(v: u64)
      requires Valid()
      modifies this, buckets
      ensures Valid() && recorded == old(recorded) + [v]
    {
      var b := BucketOf(v);
      ghost var before := Value();
      buckets[b] := Add64(buckets[b], 1);
      sum := Add64(sum, v);
      count := Add64(count, 1);
      if v < min {
        min := v;
      }
      if v > max {
        max := v;
      }
      RecordedIsNaive(recorded, v);
      assert Value() == Recorded(before, v);
      recorded := recorded + [v];
    }

    method Reset()
      requires Valid()
      modifies this, buckets
      ensures Valid() && recorded == []
    {
      var i := 0;
      while i < BUCKET_COUNT
        invariant 0 <= i <= BUCKET_COUNT == buckets.Length
        invariant forall j :: 0 <= j < i ==> buckets[j] == 0
      {
        buckets[i] := 0;
        i := i + 1;
      }
      sum, min, max, count := 0, U64_MAX, 0, 0;
      recorded := [];
      EmptyIsNaive();
      assert buckets[..] == Empty().buckets;
    }

    /** The conversion of the rank to an integer is undefined when it does not fit. */
    method Percentile(p: nat) returns (r: nat)
      requires Valid() && count * p < 100 * W64
      ensures r == PercentileOf(HistogramOf(recorded), p)
    {
      if count == 0 {
        return 0;
      }
      var threshold := count * p / 100;
      var cumulative: u64 := 0;
      var i := 0;
      while i < BUCKET_COUNT
        invariant 0 <= i <= BUCKET_COUNT
        invariant cumulative == Cumulative(buckets[..], i)
        invariant FirstReaching(buckets[..], threshold, 0) == FirstReaching(buckets[..], threshold, i)
      {
        cumulative := Add64(cumulative, buckets[i]);
        if cumulative >= threshold {
          return Midpoint(i);
        }
        i := i + 1;
      }
      return max;
    }
  }
}
