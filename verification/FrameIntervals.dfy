/** The frame-time histogram, src/system/frame_intervals.cpp. The fraction is a real number. */
module FrameIntervals {
  import opened Bytes

  const BUCKET_MICROSECONDS: nat := 100
  const BUCKET_COUNT: nat := 1001
  const WRAP: nat := 0x1_0000_0000_0000_0000

  /** One counter for each bucket. */
  type Buckets = b: seq<u64> | |b| == BUCKET_COUNT witness seq(BUCKET_COUNT, _ => 0)

  /** The upper edge of a bucket; open-ended when it is the last one, which has no upper edge. */
  datatype FrameIntervalQuantile = FrameIntervalQuantile(microseconds: u32, openEnded: bool)

  // ---- What the counters mean ----

  /** The bucket of an interval in microseconds: the last one holds every long interval. */
  function BucketOf(interval: nat): (bucket: nat)
    ensures bucket < BUCKET_COUNT
  {
    if interval / BUCKET_MICROSECONDS >= BUCKET_COUNT then BUCKET_COUNT - 1 else interval / BUCKET_MICROSECONDS
  }

  function CountIn(intervals: seq<nat>, bucket: nat): (count: nat)
    ensures count <= |intervals|
  {
    if |intervals| == 0 then 0
    else CountIn(intervals[..|intervals| - 1], bucket) + (if BucketOf(intervals[|intervals| - 1]) == bucket then 1 else 0)
  }

  /** How many intervals fall in the buckets up to and including `bucket`. */
  function CountThrough(intervals: seq<nat>, bucket: int): (count: nat)
    ensures count <= |intervals|
  {
    if |intervals| == 0 then 0
    else CountThrough(intervals[..|intervals| - 1], bucket)
         + (if BucketOf(intervals[|intervals| - 1]) <= bucket then 1 else 0)
  }

  /** The counters after these intervals; each counter wraps at 64 bits. */
  function Recorded(intervals: seq<nat>): Buckets {
    seq(BUCKET_COUNT, b requires 0 <= b => CountIn(intervals, b) % WRAP)
  }

  function SumThrough(buckets: seq<u64>, count: nat): nat
    requires count <= |buckets|
  {
    if count == 0 then 0 else SumThrough(buckets, count - 1) + buckets[count - 1]
  }

  function Total(buckets: Buckets): nat {
    SumThrough(buckets, BUCKET_COUNT)
  }

  lemma {:induction false} SumsGrow(buckets: seq<u64>, i: nat, j: nat)
    requires i <= j <= |buckets|
    ensures SumThrough(buckets, i) <= SumThrough(buckets, j)
    decreases j
  {
    if i < j {
      SumsGrow(buckets, i, j - 1);
    }
  }

  lemma {:induction false} CountThroughSplits(intervals: seq<nat>, bucket: nat)
    ensures CountThrough(intervals, bucket) == CountThrough(intervals, bucket - 1) + CountIn(intervals, bucket)
    decreases |intervals|
  {
    if |intervals| > 0 {
      CountThroughSplits(intervals[..|intervals| - 1], bucket);
    }
  }

  lemma {:induction false} CountThroughEnds(intervals: seq<nat>)
    ensures CountThrough(intervals, -1) == 0
    ensures CountThrough(intervals, BUCKET_COUNT - 1) == |intervals|
    decreases |intervals|
  {
    if |intervals| > 0 {
      CountThroughEnds(intervals[..|intervals| - 1]);
    }
  }

  /** Adding up the first counters counts the intervals in those buckets. */
  lemma {:induction false} SumsCountIntervals(intervals: seq<nat>, count: nat)
    requires |intervals| < WRAP && count <= BUCKET_COUNT
    ensures SumThrough(Recorded(intervals), count) == CountThrough(intervals, count - 1)
    decreases count
  {
    if count == 0 {
      CountThroughEnds(intervals);
    } else {
      SumsCountIntervals(intervals, count - 1);
      CountThroughSplits(intervals, count - 1);
    }
  }

  lemma TotalCountsIntervals(intervals: seq<nat>)
    requires |intervals| < WRAP
    ensures Total(Recorded(intervals)) == |intervals|
  {
    SumsCountIntervals(intervals, BUCKET_COUNT);
    CountThroughEnds(intervals);
  }

  // ---- Order statistics ----

  predicate Sorted(s: seq<nat>) {
    forall i, j :: 0 <= i < j < |s| ==> s[i] <= s[j]
  }

  /** The number of intervals up to a bucket does not depend on their order. */
  lemma {:induction false} CountThroughOfPermutation(left: seq<nat>, right: seq<nat>, bucket: int)
    requires multiset(left) == multiset(right)
    ensures CountThrough(left, bucket) == CountThrough(right, bucket)
    decreases |left|
  {
    if |left| == 0 {
      assert multiset(right) == multiset{};
      assert |right| == |multiset(right)| == 0;
    } else {
      var last := left[|left| - 1];
      assert last in multiset(left);
      var k :| 0 <= k < |right| && right[k] == last;
      var rest := right[..k] + right[k + 1..];
      assert left == left[..|left| - 1] + [last];
      assert right == right[..k] + [last] + right[k + 1..];
      RemovalIsUnique(multiset(left[..|left| - 1]), multiset(rest), last);
      CountThroughOfPermutation(left[..|left| - 1], rest, bucket);
      CountThroughSkips(right[..k], last, right[k + 1..], bucket);
    }
  }

  lemma RemovalIsUnique(left: multiset<nat>, right: multiset<nat>, x: nat)
    requires left + multiset{x} == right + multiset{x}
    ensures left == right
  {
    assert left == (left + multiset{x}) - multiset{x};
    assert right == (right + multiset{x}) - multiset{x};
  }

  lemma {:induction false} CountThroughSkips(left: seq<nat>, x: nat, right: seq<nat>, bucket: int)
    ensures CountThrough(left + [x] + right, bucket) == CountThrough(left + right, bucket) + (if BucketOf(x) <= bucket then 1 else 0)
    decreases |right|
  {
    if |right| == 0 {
      assert (left + [x] + right)[..|left|] == left == left + right;
    } else {
      var front := right[..|right| - 1];
      assert (left + [x] + right)[..|left| + |right|] == left + [x] + front;
      assert (left + right)[..|left| + |right| - 1] == left + front;
      CountThroughSkips(left, x, front, bucket);
    }
  }

  /** In a sorted list the first CountThrough(s, bucket) intervals are those up to `bucket`. */
  lemma {:induction false} SortedSplitsAtTheCount(s: seq<nat>, bucket: int, rank: nat)
    requires Sorted(s) && 1 <= rank <= |s|
    ensures rank <= CountThrough(s, bucket) <==> BucketOf(s[rank - 1]) <= bucket
    decreases |s|
  {
    var front, last := s[..|s| - 1], s[|s| - 1];
    if rank < |s| {
      SortedSplitsAtTheCount(front, bucket, rank);
      assert s[rank - 1] <= last;
      BucketsAreOrdered(s[rank - 1], last);
    } else if BucketOf(last) <= bucket {
      AllThrough(front, last, bucket);
    }
  }

  lemma BucketsAreOrdered(a: nat, b: nat)
    requires a <= b
    ensures BucketOf(a) <= BucketOf(b)
  {
  }

  lemma {:induction false} AllThrough(s: seq<nat>, bound: nat, bucket: int)
    requires (forall i :: 0 <= i < |s| ==> s[i] <= bound) && BucketOf(bound) <= bucket
    ensures CountThrough(s, bucket) == |s|
    decreases |s|
  {
    if |s| > 0 {
      AllThrough(s[..|s| - 1], bound, bucket);
      BucketsAreOrdered(s[|s| - 1], bound);
    }
  }

  // ---- Quantile ----

  function Ceiling(x: real): int {
    -((-x).Floor)
  }

  /** Which interval the fraction falls on: one is the shortest. */
  function RankOf(fraction: real, count: nat): (rank: nat)
    requires 0.0 < fraction <= 1.0
    ensures count > 0 ==> 1 <= rank <= count
  {
    var x := fraction * count as real;
    assert 0.0 <= x <= count as real;
    assert count > 0 ==> 0.0 < x;
    Ceiling(x)
  }

  /** The rank is the fewest intervals that make up the fraction. */
  lemma RankIsFewest(fraction: real, count: nat)
    requires 0.0 < fraction <= 1.0
    ensures (RankOf(fraction, count) - 1) as real < fraction * count as real <= RankOf(fraction, count) as real
  {
    var x := fraction * count as real;
    assert RankOf(fraction, count) == Ceiling(x);
  }

  lemma RankGrows(low: real, high: real, count: nat)
    requires 0.0 < low <= high <= 1.0
    ensures RankOf(low, count) <= RankOf(high, count)
  {
    assert low * count as real <= high * count as real;
  }

  /** `bucket` is the first one that brings the running sum to `rank`. */
  predicate Reaches(buckets: Buckets, rank: nat, bucket: nat) {
    bucket < BUCKET_COUNT && SumThrough(buckets, bucket) < rank <= SumThrough(buckets, bucket + 1)
  }

  function QuantileAt(bucket: nat): FrameIntervalQuantile
    requires bucket < BUCKET_COUNT
  {
    var last := bucket + 1 == BUCKET_COUNT;
    FrameIntervalQuantile((if last then bucket else bucket + 1) * BUCKET_MICROSECONDS, last)
  }

  lemma ReachedBucketIsUnique(buckets: Buckets, rank: nat, i: nat, j: nat)
    requires Reaches(buckets, rank, i) && Reaches(buckets, rank, j)
    ensures i == j
  {
    if i < j {
      SumsGrow(buckets, i + 1, j);
    } else if j < i {
      SumsGrow(buckets, j + 1, i);
    }
  }

  /** The bucket Quantile stops at holds the interval of that rank in any sorted arrangement. */
  lemma ReachedBucketHoldsTheRankedInterval(intervals: seq<nat>, sorted: seq<nat>, rank: nat, bucket: nat)
    requires |intervals| < WRAP && multiset(sorted) == multiset(intervals) && Sorted(sorted)
    requires 1 <= rank <= |intervals| && bucket < BUCKET_COUNT
    ensures |sorted| == |intervals|
    ensures Reaches(Recorded(intervals), rank, bucket) <==> bucket == BucketOf(sorted[rank - 1])
  {
    assert |sorted| == |multiset(sorted)| == |multiset(intervals)| == |intervals|;
    SumsCountIntervals(intervals, bucket);
    SumsCountIntervals(intervals, bucket + 1);
    CountThroughOfPermutation(sorted, intervals, bucket - 1);
    CountThroughOfPermutation(sorted, intervals, bucket);
    SortedSplitsAtTheCount(sorted, bucket - 1, rank);
    SortedSplitsAtTheCount(sorted, bucket, rank);
  }

  /** The one edge Quantile may name: that of the bucket where the running sum reaches the rank. */
  ghost predicate Answers(buckets: Buckets, fraction: real, quantile: FrameIntervalQuantile)
    requires 0.0 < fraction <= 1.0
  {
    var rank := RankOf(fraction, Total(buckets));
    && (exists bucket :: Reaches(buckets, rank, bucket))
    && (forall bucket :: Reaches(buckets, rank, bucket) ==> quantile == QuantileAt(bucket))
  }

  lemma ReachedBucketAnswers(buckets: Buckets, fraction: real, bucket: nat)
    requires 0.0 < fraction <= 1.0 && Reaches(buckets, RankOf(fraction, Total(buckets)), bucket)
    ensures Answers(buckets, fraction, QuantileAt(bucket))
  {
    hide RankOf, QuantileAt, Total;
    var rank := RankOf(fraction, Total(buckets));
    forall other | Reaches(buckets, rank, other)
      ensures other == bucket
    {
      ReachedBucketIsUnique(buckets, rank, bucket, other);
    }
  }

  method Count(buckets: Buckets) returns (count: u64)
    ensures count == Total(buckets) % WRAP
  {
    count := 0;
    for b := 0 to BUCKET_COUNT
      invariant count == SumThrough(buckets, b) % WRAP
    {
      count := (count as int + buckets[b]) % WRAP;
    }
  }

  /** None only for an empty histogram or a fraction outside (0, 1]; otherwise the edge of the
      bucket where the running count reaches the rank. */
  method Quantile(buckets: Buckets, fraction: real) returns (quantile: Option<FrameIntervalQuantile>)
    ensures fraction <= 0.0 || fraction > 1.0 ==> quantile.None?
    ensures Total(buckets) < WRAP ==>
              (quantile.None? <==> Total(buckets) == 0 || fraction <= 0.0 || fraction > 1.0)
    ensures Total(buckets) < WRAP && quantile.Some? ==> Answers(buckets, fraction, quantile.value)
  {
    hide RankOf, QuantileAt, SumThrough, Total, Answers;
    SumStart(buckets);
    var count := Count(buckets);
    if count == 0 || !(fraction > 0.0) || fraction > 1.0 {
      return None;
    }
    var rank := RankOf(fraction, count);
    var seen: u64 := 0;
    for bucket := 0 to BUCKET_COUNT
      invariant Total(buckets) < WRAP ==> seen == SumThrough(buckets, bucket) < rank
    {
      SumStep(buckets, bucket);
      seen := (seen as int + buckets[bucket]) % WRAP;
      if seen >= rank {
        if Total(buckets) < WRAP {
          ReachedBucketAnswers(buckets, fraction, bucket);
        }
        return Some(QuantileAt(bucket));
      }
    }
    quantile := None;
  }

  lemma SumStart(buckets: Buckets)
    ensures SumThrough(buckets, 0) == 0 && SumThrough(buckets, BUCKET_COUNT) == Total(buckets)
  {
  }

  lemma SumStep(buckets: Buckets, bucket: nat)
    requires bucket < BUCKET_COUNT
    ensures SumThrough(buckets, bucket + 1) == SumThrough(buckets, bucket) + buckets[bucket] <= Total(buckets)
  {
    SumsGrow(buckets, bucket + 1, BUCKET_COUNT);
  }

  /** The answer for recorded intervals: the edge of the bucket of the order statistic. */
  function QuantileOf(sorted: seq<nat>, fraction: real): FrameIntervalQuantile
    requires |sorted| > 0 && 0.0 < fraction <= 1.0
  {
    QuantileAt(BucketOf(sorted[RankOf(fraction, |sorted|) - 1]))
  }

  /** Quantile's answer is the edge of the bucket of the ceil(f*n)-th smallest interval, and
      nothing else. */
  lemma QuantileIsTheOrderStatistic(intervals: seq<nat>, sorted: seq<nat>, fraction: real, quantile: FrameIntervalQuantile)
    requires 0 < |intervals| < WRAP && multiset(sorted) == multiset(intervals) && Sorted(sorted)
    requires 0.0 < fraction <= 1.0
    ensures |sorted| == |intervals|
    ensures Answers(Recorded(intervals), fraction, quantile) <==> quantile == QuantileOf(sorted, fraction)
  {
    hide RankOf, Reaches, BucketOf, QuantileAt;
    TotalCountsIntervals(intervals);
    var rank := RankOf(fraction, |intervals|);
    assert |sorted| == |multiset(sorted)| == |intervals|;
    var bucket := BucketOf(sorted[rank - 1]);
    ReachedBucketHoldsTheRankedInterval(intervals, sorted, rank, bucket);
    ReachedBucketAnswers(Recorded(intervals), fraction, bucket);
  }

  /** On the difference of two snapshots Quantile answers the order statistic of the later
      intervals alone, however often the running counters wrapped. */
  lemma QuantileSinceIsTheLaterOrderStatistic(before: seq<nat>, after: seq<nat>, sorted: seq<nat>, difference: Buckets,
                                              fraction: real, quantile: FrameIntervalQuantile)
    requires 0 < |after| < WRAP && multiset(sorted) == multiset(after) && Sorted(sorted) && 0.0 < fraction <= 1.0
    requires forall b :: 0 <= b < BUCKET_COUNT ==> difference[b] == (Recorded(before + after)[b] - Recorded(before)[b]) % WRAP
    ensures |sorted| == |after|
    ensures Total(difference) == |after|
    ensures Answers(difference, fraction, quantile) <==> quantile == QuantileOf(sorted, fraction)
  {
    hide Recorded, Answers, QuantileOf;
    DifferenceIsRecorded(before, after, difference);
    TotalCountsIntervals(after);
    QuantileIsTheOrderStatistic(after, sorted, fraction, quantile);
  }

  /** A larger fraction never gives a smaller quantile. */
  lemma QuantileIsMonotone(sorted: seq<nat>, low: real, high: real)
    requires Sorted(sorted) && |sorted| > 0 && 0.0 < low <= high <= 1.0
    ensures QuantileOf(sorted, low).microseconds <= QuantileOf(sorted, high).microseconds
    ensures QuantileOf(sorted, low).openEnded ==> QuantileOf(sorted, high).openEnded
  {
    hide RankOf;
    RankGrows(low, high, |sorted|);
    var i, j := RankOf(low, |sorted|) - 1, RankOf(high, |sorted|) - 1;
    assert sorted[i] <= sorted[j];
  }

  /** The named bucket encloses the interval: below its edge and within one bucket of it, or,
      when open-ended, at least its edge. */
  lemma QuantileEnclosesTheInterval(sorted: seq<nat>, fraction: real)
    requires |sorted| > 0 && 0.0 < fraction <= 1.0
    ensures var quantile, interval := QuantileOf(sorted, fraction), sorted[RankOf(fraction, |sorted|) - 1];
            if quantile.openEnded then quantile.microseconds == 100_000 <= interval
            else interval < quantile.microseconds <= interval + 100
  {
    hide RankOf;
  }

  // ---- Since ----

  lemma {:induction false} CountInSplits(earlier: seq<nat>, later: seq<nat>, bucket: nat)
    ensures CountIn(earlier + later, bucket) == CountIn(earlier, bucket) + CountIn(later, bucket)
    decreases |later|
  {
    if |later| == 0 {
      assert earlier + later == earlier;
    } else {
      assert (earlier + later)[..|earlier| + |later| - 1] == earlier + later[..|later| - 1];
      CountInSplits(earlier, later[..|later| - 1], bucket);
    }
  }

  lemma DifferenceOfCounts(a: nat, b: nat)
    requires b < WRAP
    ensures ((a + b) % WRAP - a % WRAP) % WRAP == b
  {
    var q := a / WRAP;
    assert a == q * WRAP + a % WRAP;
    var low := a % WRAP + b;
    assert (a + b) % WRAP == low % WRAP;
    if low < WRAP {
      assert low % WRAP == low;
    } else {
      assert low % WRAP == low - WRAP;
    }
  }

  /** The intervals between two snapshots, even when the running counters have wrapped. */
  method Since(buckets: Buckets, earlier: Buckets) returns (difference: Buckets)
    ensures forall b :: 0 <= b < BUCKET_COUNT ==> difference[b] == (buckets[b] - earlier[b]) % WRAP
    ensures forall before, after ::
              buckets == Recorded(before + after) && earlier == Recorded(before) && |after| < WRAP ==>
              difference == Recorded(after)
  {
    var d: seq<u64> := [];
    for b := 0 to BUCKET_COUNT
      invariant |d| == b && forall i :: 0 <= i < b ==> d[i] == (buckets[i] - earlier[i]) % WRAP
    {
      d := d + [(buckets[b] - earlier[b]) % WRAP];
    }
    difference := d;
    forall before, after | buckets == Recorded(before + after) && earlier == Recorded(before) && |after| < WRAP
      ensures difference == Recorded(after)
    {
      DifferenceIsRecorded(before, after, difference);
    }
  }

  lemma DifferenceIsRecorded(before: seq<nat>, after: seq<nat>, difference: Buckets)
    requires |after| < WRAP
    requires forall b :: 0 <= b < BUCKET_COUNT ==> difference[b] == (Recorded(before + after)[b] - Recorded(before)[b]) % WRAP
    ensures difference == Recorded(after)
  {
    hide Recorded;
    forall b | 0 <= b < BUCKET_COUNT
      ensures difference[b] == Recorded(after)[b]
    {
      DifferenceAt(before, after, b);
    }
  }

  lemma DifferenceAt(before: seq<nat>, after: seq<nat>, b: nat)
    requires |after| < WRAP && b < BUCKET_COUNT
    ensures (Recorded(before + after)[b] - Recorded(before)[b]) % WRAP == Recorded(after)[b]
  {
    hide *;
    RecordedAt(before + after, b);
    RecordedAt(before, b);
    RecordedAt(after, b);
    CountInSplits(before, after, b);
    DifferenceOfCounts(CountIn(before, b), CountIn(after, b));
    SmallIsItsRemainder(CountIn(after, b));
  }

  lemma RecordedAt(intervals: seq<nat>, b: nat)
    requires b < BUCKET_COUNT
    ensures Recorded(intervals)[b] == CountIn(intervals, b) % WRAP
  {
  }

  lemma SmallIsItsRemainder(x: nat)
    requires x < WRAP
    ensures x % WRAP == x
  {
  }
}
