/**
 * The latency histogram: twelve buckets with fixed upper bounds, a linear scan to
 * record, and percentiles by interpolation. Durations are nanoseconds; percentile
 * arithmetic is over the reals.
 */
module Histogram {
  import opened Bytes

  const BUCKETS := 12

  const LIMITS: seq<nat> := [
    10_000, 50_000, 100_000, 500_000,
    1_000_000, 5_000_000, 10_000_000, 50_000_000,
    100_000_000, 500_000_000, 1_000_000_000, 5_000_000_000]

  lemma LimitsIncrease(i: nat, j: nat)
    requires i < j < BUCKETS
    ensures 0 < LIMITS[i] < LIMITS[j]
    decreases j - i
  {
    if i + 1 < j {
      LimitsIncrease(i + 1, j);
    }
  }

  // --------------------------------------------------------- samples

  /** The bucket a value belongs to: the first whose bound reaches it, else the last. */
  predicate InBucket(v: nat, b: nat) {
    && b < BUCKETS
    && (v <= LIMITS[b] || b == BUCKETS - 1)
    && (b > 0 ==> v > LIMITS[b - 1])
  }

  lemma OneBucket(v: nat, b: nat, c: nat)
    requires InBucket(v, b) && InBucket(v, c)
    ensures b == c
  {
    if b < c {
      if b < c - 1 { LimitsIncrease(b, c - 1); }
    } else if c < b {
      if c < b - 1 { LimitsIncrease(c, b - 1); }
    }
  }

  function CountIn(samples: seq<nat>, b: nat): nat {
    if samples == [] then 0
    else CountIn(samples[..|samples| - 1], b) + (if InBucket(samples[|samples| - 1], b) then 1 else 0)
  }

  function CountAtMost(samples: seq<nat>, v: nat): nat {
    if samples == [] then 0
    else CountAtMost(samples[..|samples| - 1], v) + (if samples[|samples| - 1] <= v then 1 else 0)
  }

  function CountBelow(samples: seq<nat>, v: nat): nat {
    if samples == [] then 0
    else CountBelow(samples[..|samples| - 1], v) + (if samples[|samples| - 1] < v then 1 else 0)
  }

  function Sum(samples: seq<nat>): nat {
    if samples == [] then 0 else Sum(samples[..|samples| - 1]) + samples[|samples| - 1]
  }

  /** `v` is the k-th smallest sample. */
  ghost predicate IsRank(samples: seq<nat>, k: nat, v: nat) {
    v in samples && CountBelow(samples, v) < k <= CountAtMost(samples, v)
  }

  // ---------------------------------------------------- cumulative counts

  /** Total of the first `n` buckets. */
  function Cumulative(counts: seq<nat>, n: nat): nat
    requires n <= |counts|
  {
    if n == 0 then 0 else Cumulative(counts, n - 1) + counts[n - 1]
  }

  lemma {:induction false} CumulativeGrows(counts: seq<nat>, m: nat, n: nat)
    requires m <= n <= |counts|
    ensures Cumulative(counts, m) <= Cumulative(counts, n)
    decreases n
  {
    if m < n {
      CumulativeGrows(counts, m, n - 1);
    }
  }

  ghost predicate Tallies(counts: seq<nat>, samples: seq<nat>) {
    |counts| == BUCKETS && forall b :: 0 <= b < BUCKETS ==> counts[b] == CountIn(samples, b)
  }

  /** Samples in the first `n` buckets, counted one sample at a time. */
  function CountFirst(samples: seq<nat>, n: nat): nat {
    if samples == [] then 0
    else CountFirst(samples[..|samples| - 1], n) + (if InFirst(samples[|samples| - 1], n) then 1 else 0)
  }

  predicate InFirst(v: nat, n: nat) {
    exists b :: 0 <= b < n && InBucket(v, b)
  }

  lemma {:induction false} CountFirstStep(samples: seq<nat>, n: nat)
    requires n < BUCKETS
    ensures CountFirst(samples, n + 1) == CountFirst(samples, n) + CountIn(samples, n)
    ensures CountFirst(samples, 0) == 0
  {
    if samples != [] {
      CountFirstStep(samples[..|samples| - 1], n);
      var v := samples[|samples| - 1];
      if InFirst(v, n) {
        var b :| 0 <= b < n && InBucket(v, b);
        if InBucket(v, n) {
          OneBucket(v, b, n);
        }
        assert InFirst(v, n + 1);
      } else if InBucket(v, n) {
        assert InFirst(v, n + 1);
      }
    }
  }

  lemma {:induction false} CumulativeCounts(counts: seq<nat>, samples: seq<nat>, n: nat)
    requires Tallies(counts, samples) && n <= BUCKETS
    ensures Cumulative(counts, n) == CountFirst(samples, n)
    decreases n
  {
    if n == 0 {
      CountFirstStep(samples, 0);
    } else {
      CumulativeCounts(counts, samples, n - 1);
      CountFirstStep(samples, n - 1);
    }
  }

  lemma HasBucket(v: nat)
    ensures InFirst(v, BUCKETS)
  {
    var b := 0;
    while b < BUCKETS - 1 && v > LIMITS[b]
      invariant b < BUCKETS && (b > 0 ==> v > LIMITS[b - 1])
    {
      b := b + 1;
    }
    assert InBucket(v, b);
  }

  /** The bucket counts sum to the number of samples. */
  lemma {:induction false} AllCounted(counts: seq<nat>, samples: seq<nat>)
    requires Tallies(counts, samples)
    ensures Cumulative(counts, BUCKETS) == |samples|
  {
    CumulativeCounts(counts, samples, BUCKETS);
    AllInFirst(samples);
  }

  lemma {:induction false} AllInFirst(samples: seq<nat>)
    ensures CountFirst(samples, BUCKETS) == |samples|
  {
    if samples != [] {
      AllInFirst(samples[..|samples| - 1]);
      HasBucket(samples[|samples| - 1]);
    }
  }

  // --------------------------------------------------------- percentiles

  function Clamp(p: real, lo: real, hi: real): real {
    if p < lo then lo else if p > hi then hi else p
  }

  function TargetCount(total: nat, p: real): real {
    total as real * Clamp(p, 0.0, 100.0) / 100.0
  }

  function LowerBound(b: nat): nat
    requires b < BUCKETS
  {
    if b == 0 then 0 else LIMITS[b - 1]
  }

  /** The first bucket whose cumulative count reaches the target. */
  predicate IsTargetBucket(counts: seq<nat>, target: real, b: nat) {
    && |counts| == BUCKETS && b < BUCKETS
    && Cumulative(counts, b + 1) as real >= target
    && (b == 0 || (Cumulative(counts, b) as real) < target)
  }

  /** The point between two bounds that a part of some number falls at. */
  function PointAt(low: real, high: real, part: real, whole: real): real
    requires whole > 0.0
  {
    low + (high - low) * Clamp(part / whole, 0.0, 1.0)
  }

  /** Where in that bucket the target falls. */
  function Interpolated(counts: seq<nat>, target: real, b: nat): real
    requires IsTargetBucket(counts, target, b)
  {
    var low := LowerBound(b) as real;
    if counts[b] == 0 then low
    else
      PointAt(low, LIMITS[b] as real, target - Cumulative(counts, b) as real, counts[b] as real)
  }

  /** As this part is to the whole number, so is the piece to the width. */
  predicate InProportion(piece: real, width: real, part: real, whole: real) {
    piece * whole == width * part
  }

  lemma ShareOf(low: real, high: real, part: real, whole: real)
    requires 0.0 <= part <= whole && whole > 0.0
    ensures InProportion(PointAt(low, high, part, whole) - low, high - low, part, whole)
  {
    var f, width := part / whole, high - low;
    assert f * whole == part;
    assert 0.0 <= f <= 1.0;
    assert width * f * whole == width * (f * whole);
  }

  lemma CumulativeStep(counts: seq<nat>, b: nat)
    requires b < |counts|
    ensures Cumulative(counts, b + 1) == Cumulative(counts, b) + counts[b] && Cumulative(counts, 0) == 0
  {
  }

  /**
   * Interpolation is in proportion: the part of the bucket's width below the
   * reported value is to the width as the part of its samples below the target is
   * to its samples; an empty bucket reports its lower bound.
   */
  lemma Proportional(counts: seq<nat>, target: real, b: nat)
    requires IsTargetBucket(counts, target, b) && target >= 0.0
    ensures var x, low := Interpolated(counts, target, b), LowerBound(b) as real;
            && (counts[b] == 0 ==> x == low)
            && (counts[b] > 0 ==>
                  InProportion(x - low, LIMITS[b] as real - low,
                               target - Cumulative(counts, b) as real, counts[b] as real))
  {
    hide LowerBound, PointAt, Cumulative, InProportion;
    if counts[b] > 0 {
      CumulativeStep(counts, b);
      ShareOf(LowerBound(b) as real, LIMITS[b] as real, target - Cumulative(counts, b) as real, counts[b] as real);
    }
  }

  /** A percentile of a hundred is all samples, fractions in proportion, and what is outside is brought in. */
  lemma TargetIs(total: nat, p: real)
    ensures 0.0 <= p <= 100.0 ==> InProportion(TargetCount(total, p), total as real, p, 100.0)
    ensures p > 100.0 ==> TargetCount(total, p) == total as real
    ensures p < 0.0 ==> TargetCount(total, p) == 0.0
  {
  }

  /** A sample at the bound of a bucket belongs to it, one above to the next, and all beyond to the last. */
  lemma BoundBelongs(b: nat, v: nat)
    requires b < BUCKETS
    ensures InBucket(LIMITS[b], b)
    ensures b + 1 < BUCKETS ==> InBucket(LIMITS[b] + 1, b + 1)
    ensures v > LIMITS[BUCKETS - 1] ==> InBucket(v, BUCKETS - 1)
  {
    forall i | 0 <= i < b
      ensures LIMITS[i] < LIMITS[b]
    {
      LimitsIncrease(i, b);
    }
    if b + 1 < BUCKETS {
      LimitsIncrease(b, b + 1);
    }
  }

  /** The bounds run from ten microseconds to five seconds, five and two times the one before in turn. */
  lemma BoundsAre()
    ensures |LIMITS| == BUCKETS && LIMITS[0] == 10 * 1000 && LIMITS[BUCKETS - 1] == 5 * 1_000_000_000
    ensures forall i :: 0 < i < BUCKETS ==> LIMITS[i] == LIMITS[i - 1] * if i % 2 == 1 then 5 else 2
  {
  }

  lemma OneTargetBucket(counts: seq<nat>, target: real, b: nat, c: nat)
    requires IsTargetBucket(counts, target, b) && IsTargetBucket(counts, target, c)
    ensures b == c
  {
    if b < c {
      CumulativeGrows(counts, b + 1, c);
    } else if c < b {
      CumulativeGrows(counts, c + 1, b);
    }
  }

  lemma Between(low: real, high: real, f: real)
    requires low <= high && 0.0 <= f <= 1.0
    ensures low <= low + (high - low) * f <= high
  {
    TimesLess(high - low, 0.0, f);
    TimesLess(high - low, f, 1.0);
  }

  lemma InterpolatedInBucket(counts: seq<nat>, target: real, b: nat)
    requires IsTargetBucket(counts, target, b)
    ensures LowerBound(b) as real <= Interpolated(counts, target, b) <= LIMITS[b] as real
  {
    if b > 0 {
      LimitsIncrease(b - 1, b);
    }
    if counts[b] != 0 {
      var fraction := (target - Cumulative(counts, b) as real) / counts[b] as real;
      Between(LowerBound(b) as real, LIMITS[b] as real, Clamp(fraction, 0.0, 1.0));
    }
  }

  lemma ScaleLess(a: real, b: real, c: real)
    requires a <= b && c > 0.0
    ensures a / c <= b / c
  {
  }

  lemma TimesLess(w: real, f: real, g: real)
    requires w >= 0.0 && f <= g
    ensures w * f <= w * g
  {
    assert w * (g - f) >= 0.0;
  }

  /** A higher target never gives a lower value. */
  lemma PercentileMonotone(counts: seq<nat>, t: real, u: real, b: nat, c: nat)
    requires t <= u && IsTargetBucket(counts, t, b) && IsTargetBucket(counts, u, c)
    ensures Interpolated(counts, t, b) <= Interpolated(counts, u, c)
  {
    hide Interpolated;
    if c < b {
      CumulativeGrows(counts, c + 1, b);
    } else if b < c {
      InterpolatedInBucket(counts, t, b);
      InterpolatedInBucket(counts, u, c);
      if b < c - 1 {
        LimitsIncrease(b, c - 1);
      }
    } else {
      SameBucketMonotone(counts, t, u, b);
    }
  }

  lemma TargetGrows(total: nat, p: real, q: real)
    requires p <= q
    ensures TargetCount(total, p) <= TargetCount(total, q)
  {
    hide Clamp;
    var n, a, b := total as real, Clamp(p, 0.0, 100.0), Clamp(q, 0.0, 100.0);
    ClampGrows(p, q);
    TimesLess(n, a, b);
    ScaleLess(n * a, n * b, 100.0);
  }

  lemma ClampGrows(p: real, q: real)
    requires p <= q
    ensures Clamp(p, 0.0, 100.0) <= Clamp(q, 0.0, 100.0)
  {
  }

  /** In terms of the percentile asked for. */
  lemma PercentileGrowsWithP(counts: seq<nat>, total: nat, p: real, q: real, b: nat, c: nat)
    requires p <= q
    requires IsTargetBucket(counts, TargetCount(total, p), b) && IsTargetBucket(counts, TargetCount(total, q), c)
    ensures Interpolated(counts, TargetCount(total, p), b) <= Interpolated(counts, TargetCount(total, q), c)
  {
    hide Interpolated, TargetCount, IsTargetBucket;
    TargetGrows(total, p, q);
    PercentileMonotone(counts, TargetCount(total, p), TargetCount(total, q), b, c);
  }

  /** What may be reported for a percentile: the interpolation in its target bucket. */
  ghost predicate Reports(counts: seq<nat>, total: nat, p: real, x: real) {
    exists b :: IsTargetBucket(counts, TargetCount(total, p), b) && x == Interpolated(counts, TargetCount(total, p), b)
  }

  /** Of two percentiles asked of the same histogram, the higher one is never reported lower; and each only one way. */
  lemma ReportsGrow(counts: seq<nat>, total: nat, p: real, q: real, x: real, y: real)
    requires p <= q && Reports(counts, total, p, x) && Reports(counts, total, q, y)
    ensures x <= y && (p == q ==> x == y)
  {
    hide TargetCount, Interpolated, IsTargetBucket;
    var b :| IsTargetBucket(counts, TargetCount(total, p), b) && x == Interpolated(counts, TargetCount(total, p), b);
    var c :| IsTargetBucket(counts, TargetCount(total, q), c) && y == Interpolated(counts, TargetCount(total, q), c);
    PercentileGrowsWithP(counts, total, p, q, b, c);
    if p == q {
      OneTargetBucket(counts, TargetCount(total, p), b, c);
    }
  }

  lemma SameBucketMonotone(counts: seq<nat>, t: real, u: real, b: nat)
    requires t <= u && IsTargetBucket(counts, t, b) && IsTargetBucket(counts, u, b)
    ensures Interpolated(counts, t, b) <= Interpolated(counts, u, b)
  {
    if counts[b] != 0 {
      if b > 0 {
        LimitsIncrease(b - 1, b);
      }
      var n := counts[b] as real;
      var low := LowerBound(b) as real;
      var before := Cumulative(counts, b) as real;
      ScaleLess(t - before, u - before, n);
      TimesLess(LIMITS[b] as real - low, Clamp((t - before) / n, 0.0, 1.0), Clamp((u - before) / n, 0.0, 1.0));
    }
  }

  // ------------------------------------------------------- quantile bound

  lemma {:induction false} AtMostWithin(samples: seq<nat>, v: nat, n: nat)
    requires n <= BUCKETS && InFirst(v, n)
    ensures CountAtMost(samples, v) <= CountFirst(samples, n)
  {
    if samples != [] {
      AtMostWithin(samples[..|samples| - 1], v, n);
      var w := samples[|samples| - 1];
      if w <= v {
        HasBucket(w);
        var bv :| 0 <= bv < n && InBucket(v, bv);
        var bw :| 0 <= bw < BUCKETS && InBucket(w, bw);
        if bv < bw && bv < bw - 1 {
          LimitsIncrease(bv, bw - 1);
        }
        assert InFirst(w, n);
      }
    }
  }

  lemma {:induction false} FirstAreBelow(samples: seq<nat>, v: nat, n: nat, b: nat)
    requires InBucket(v, b) && n <= b
    ensures CountFirst(samples, n) <= CountBelow(samples, v)
  {
    if samples != [] {
      FirstAreBelow(samples[..|samples| - 1], v, n, b);
      var w := samples[|samples| - 1];
      if InFirst(w, n) {
        var bw :| 0 <= bw < n && InBucket(w, bw);
        if bw < b - 1 {
          LimitsIncrease(bw, b - 1);
        }
      }
    }
  }

  /**
   * The reported percentile lies in the bucket of the true one: if `v` is the
   * sample of rank ceil(p * n / 100), it belongs to the bucket that was
   * interpolated.
   */
  lemma QuantileBound(counts: seq<nat>, samples: seq<nat>, target: real, b: nat, k: nat, v: nat)
    requires Tallies(counts, samples) && IsTargetBucket(counts, target, b)
    requires (k as real) - 1.0 < target <= k as real && IsRank(samples, k, v)
    ensures InBucket(v, b)
    ensures v <= LIMITS[BUCKETS - 1] ==> LowerBound(b) <= v <= LIMITS[b]
    ensures LowerBound(b) as real <= Interpolated(counts, target, b) <= LIMITS[b] as real
  {
    InterpolatedInBucket(counts, target, b);
    HasBucket(v);
    var c :| 0 <= c < BUCKETS && InBucket(v, c);
    CumulativeCounts(counts, samples, b);
    CumulativeCounts(counts, samples, b + 1);
    if c < b {
      AtMostWithin(samples, v, b);
    } else if c > b {
      FirstAreBelow(samples, v, b + 1, c);
    }
  }

  // ---------------------------------------------------------------- ranks

  lemma {:induction false} BelowIsAtMost(samples: seq<nat>, v: nat)
    ensures CountBelow(samples, v) == if v == 0 then 0 else CountAtMost(samples, v - 1)
    ensures CountBelow(samples, v) < CountAtMost(samples, v) <==> v in samples
    ensures CountBelow(samples, v) <= CountAtMost(samples, v)
  {
    if samples != [] {
      BelowIsAtMost(samples[..|samples| - 1], v);
    }
  }

  lemma {:induction false} AllAtMost(samples: seq<nat>)
    ensures CountAtMost(samples, Sum(samples)) == |samples|
  {
    if samples != [] {
      var init := samples[..|samples| - 1];
      AllAtMost(init);
      AtMostGrows(init, Sum(init), Sum(samples));
      AtMostTotal(init, Sum(samples));
    }
  }

  lemma {:induction false} AtMostGrows(samples: seq<nat>, v: nat, w: nat)
    requires v <= w
    ensures CountAtMost(samples, v) <= CountAtMost(samples, w)
  {
    if samples != [] {
      AtMostGrows(samples[..|samples| - 1], v, w);
    }
  }

  lemma {:induction false} AtMostTotal(samples: seq<nat>, v: nat)
    ensures CountAtMost(samples, v) <= |samples|
  {
    if samples != [] {
      AtMostTotal(samples[..|samples| - 1], v);
    }
  }

  lemma {:induction false} LeastReaching(samples: seq<nat>, k: nat, v: nat) returns (w: nat)
    requires 1 <= k <= CountAtMost(samples, v)
    ensures k <= CountAtMost(samples, w) && (w == 0 || CountAtMost(samples, w - 1) < k)
    decreases v
  {
    if v == 0 || CountAtMost(samples, v - 1) < k {
      w := v;
    } else {
      w := LeastReaching(samples, k, v - 1);
    }
  }

  /** Every rank from one to the number of samples is some sample's. */
  lemma RankExists(samples: seq<nat>, k: nat) returns (v: nat)
    requires 1 <= k <= |samples|
    ensures IsRank(samples, k, v)
  {
    AllAtMost(samples);
    v := LeastReaching(samples, k, Sum(samples));
    BelowIsAtMost(samples, v);
  }

  /** And of one value only. */
  lemma OneRank(samples: seq<nat>, k: nat, v: nat, w: nat)
    requires IsRank(samples, k, v) && IsRank(samples, k, w)
    ensures v == w
  {
    if v < w {
      BelowIsAtMost(samples, w);
      AtMostGrows(samples, v, w - 1);
    } else if w < v {
      BelowIsAtMost(samples, v);
      AtMostGrows(samples, w, v - 1);
    }
  }

  /** The rank a percentile stands for: p * n / 100, rounded up. */
  function Rank(total: nat, p: real): int {
    -((-TargetCount(total, p)).Floor)
  }

  lemma RankOf(total: nat, p: real)
    requires total > 0 && p > 0.0
    ensures 1 <= Rank(total, p) <= total
    ensures (Rank(total, p) as real) - 1.0 < TargetCount(total, p) <= Rank(total, p) as real
  {
    TargetWithinTotal(total, p);
    PositiveTarget(total, p);
    hide TargetCount;
    var t := TargetCount(total, p);
    assert (-t).Floor as real <= -t < (-t).Floor as real + 1.0;
  }

  lemma PositiveTarget(total: nat, p: real)
    requires total > 0 && p > 0.0
    ensures TargetCount(total, p) > 0.0
  {
    var c := Clamp(p, 0.0, 100.0);
    assert c > 0.0;
    assert total as real * c > 0.0;
  }

  /** A reported percentile lies between the bounds of the bucket of the sample that has its rank. */
  ghost predicate NearRank(samples: seq<nat>, p: real, x: real) {
    exists v: nat, b: nat :: NearSample(samples, p, x, v, b)
  }

  ghost predicate NearSample(samples: seq<nat>, p: real, x: real, v: nat, b: nat) {
    && Rank(|samples|, p) >= 0 && IsRank(samples, Rank(|samples|, p), v)
    && b < BUCKETS && InBucket(v, b) && LowerBound(b) as real <= x <= LIMITS[b] as real
  }

  lemma ReportedIsNear(counts: seq<nat>, samples: seq<nat>, p: real, b: nat)
    requires Tallies(counts, samples) && samples != [] && p > 0.0
    requires IsTargetBucket(counts, TargetCount(|samples|, p), b)
    ensures NearRank(samples, p, Interpolated(counts, TargetCount(|samples|, p), b))
  {
    hide TargetCount, Tallies, Interpolated, IsRank, Rank;
    RankOf(|samples|, p);
    var k := Rank(|samples|, p);
    var v := RankExists(samples, k);
    QuantileBound(counts, samples, TargetCount(|samples|, p), b, k, v);
    assert NearSample(samples, p, Interpolated(counts, TargetCount(|samples|, p), b), v, b);
  }

  // ------------------------------------------------------------- the object

  class Histogram {
    var counts: seq<nat>
    var total: nat
    var sum: nat
    ghost var samples: seq<nat>

    ghost predicate Valid()
      reads this
    {
      Tallies(counts, samples) && total == |samples| && sum == Sum(samples)
    }

    constructor ()
      ensures Valid() && samples == []
    {
      counts := seq(BUCKETS, _ => 0);
      total, sum, samples := 0, 0, [];
    }

    /** Count a sample into the first bucket that reaches it, folding outliers into the last. */
    method Record(value: nat)
      requires Valid()
      modifies this
      ensures Valid() && samples == old(samples) + [value]
    {
      total := total + 1;
      sum := sum + value;
      ghost var before := samples;
      samples := samples + [value];
      assert samples[..|samples| - 1] == before;
      for i := 0 to BUCKETS
        invariant counts == old(counts) && total == |samples| && sum == Sum(samples)
        invariant samples == old(samples) + [value]
        invariant i > 0 ==> value > LIMITS[i - 1]
      {
        if value <= LIMITS[i] {
          Tally(counts, before, value, i);
          counts := counts[i := counts[i] + 1];
          return;
        }
      }
      LimitsIncrease(BUCKETS - 2, BUCKETS - 1);
      Tally(counts, before, value, BUCKETS - 1);
      counts := counts[BUCKETS - 1 := counts[BUCKETS - 1] + 1];
    }

    /** Linear scan to the target bucket, then interpolation. */
    method Percentile(p: real) returns (r: Option<real>)
      requires Valid()
      ensures r.None? <==> samples == []
      ensures r.Some? ==> Reports(counts, |samples|, p, r.value)
      ensures r.Some? && p > 0.0 ==> NearRank(samples, p, r.value)
    {
      assert |counts| == BUCKETS;
      hide TargetCount, Clamp, Tallies, Interpolated, NearRank;
      if total == 0 {
        return None;
      }
      var target := TargetCount(total, p);
      TargetWithinTotal(total, p);
      AllCounted(counts, samples);
      var before := 0;
      var low := 0;
      for i := 0 to BUCKETS
        invariant before == Cumulative(counts, i)
        invariant low == if i == 0 then 0 else LIMITS[i - 1]
        invariant i > 0 ==> (before as real) < target
      {
        var after := before + counts[i];
        if after as real >= target {
          assert IsTargetBucket(counts, target, i);
          var value := Inside(counts, target, i, before, low);
          if p > 0.0 {
            ReportedIsNear(counts, samples, p, i);
          }
          return Some(value);
        }
        before, low := after, LIMITS[i];
      }
      assert false;
    }
  }

  /** Interpolation inside the bucket the scan stopped at. */
  method Inside(counts: seq<nat>, target: real, i: nat, before: nat, low: nat) returns (r: real)
    requires IsTargetBucket(counts, target, i) && before == Cumulative(counts, i) && low == LowerBound(i)
    ensures r == Interpolated(counts, target, i)
  {
    hide Clamp;
    if counts[i] == 0 {
      return low as real;
    }
    var fraction := (target - before as real) / counts[i] as real;
    var span := LIMITS[i] as real - low as real;
    r := low as real + span * Clamp(fraction, 0.0, 1.0);
  }

  lemma TargetWithinTotal(total: nat, p: real)
    ensures TargetCount(total, p) <= total as real
  {
    TimesLess(total as real, Clamp(p, 0.0, 100.0), 100.0);
    ScaleLess(total as real * Clamp(p, 0.0, 100.0), total as real * 100.0, 100.0);
  }

  lemma Tally(counts: seq<nat>, samples: seq<nat>, v: nat, b: nat)
    requires Tallies(counts, samples) && InBucket(v, b)
    ensures Tallies(counts[b := counts[b] + 1], samples + [v])
  {
    var all := samples + [v];
    assert all[..|all| - 1] == samples;
    forall c | 0 <= c < BUCKETS
      ensures counts[b := counts[b] + 1][c] == CountIn(all, c)
    {
      if c != b && InBucket(v, c) {
        OneBucket(v, b, c);
      }
    }
  }
}
