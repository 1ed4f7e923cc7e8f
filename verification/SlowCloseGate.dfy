/**
 The pool slow-close budget (`summarize_runs` and the violation rule of `write_evidence`,
 scripts/measure_pool_slow_close.py): nearest-rank percentiles of real runs against
 accepted limits, with the fractions as exact hundredths.
 */
module SlowCloseGate {
  import opened Outcome
  import opened Sorting

  datatype Run = Run(stormUs: int, shutdownUs: int)

  datatype Failure = NothingMeasured

  datatype Percentiles = Percentiles(p50: int, p95: int, p99: int)

  datatype Measurement = Measurement(storm: Percentiles, shutdown: Percentiles, peakRss: int)

  /** The accepted ceilings; a baseline run has none. */
  datatype Limits = Limits(storm: Option<int>, shutdown: Option<int>, rss: Option<int>)

  predicate IntLeq(a: int, b: int) { a <= b }

  /** `math.ceil(percent / 100 * n)`. */
  function Rank(percent: nat, n: nat): (r: nat)
    ensures 100 * (r - 1) < percent * n <= 100 * r
  {
    (percent * n + 99) / 100
  }

  lemma RankInRange(percent: nat, n: nat)
    requires 1 <= percent <= 100 && n > 0
    ensures 1 <= Rank(percent, n) <= n
  {
    assert percent * n <= 100 * n;
  }

  // ----- The rank in floating point -----

  const TWO52 := 4503599627370496

  /** `d / 2^52` is the double below `percent / 100`, as it is for 0.50, 0.95 and 0.99. */
  predicate IsDouble(percent: nat, d: nat) { 100 * d <= percent * TWO52 < 100 * (d + 1) }

  lemma ScriptFractions()
    ensures IsDouble(50, 2251799813685248) && IsDouble(95, 4278419646001971) && IsDouble(99, 4458563631096791)
  {}

  /**
   What the floating-point product near `k` may be: off by one part in `2^53` at most, and
   not rounded up across `k`.
   */
  ghost predicate Rounded(p: real, x: real, k: nat) {
    && p - p / (2 * TWO52) as real <= x <= p + p / (2 * TWO52) as real
    && (p <= k as real ==> x <= k as real)
  }

  /** The ceiling of the rounded product is the exact rank, for up to `2^40` runs. */
  lemma DoubleRankIsExact(percent: nat, d: nat, n: nat, x: real)
    requires 1 <= percent <= 100 && IsDouble(percent, d) && 0 < n <= 1099511627776
    requires Rounded((d * n) as real / TWO52 as real, x, Rank(percent, n))
    ensures (Rank(percent, n) - 1) as real < x <= Rank(percent, n) as real
  {
    RankInRange(percent, n);
    ProductBounds(percent, d, n, TWO52);
    NearRank(d * n, Rank(percent, n), n, x);
  }

  lemma NearRank(product: nat, r: nat, n: nat, x: real)
    requires 1 <= r <= n <= 1099511627776
    requires (r - 1) * TWO52 + TWO52 / 100 - n <= product <= r * TWO52
    requires Rounded(product as real / TWO52 as real, x, r)
    ensures (r - 1) as real < x <= r as real
  {
    var p := product as real / TWO52 as real;
    assert p <= r as real;
    assert p >= (r - 1) as real + 1.0 / 200.0;
    assert p / (2 * TWO52) as real < 1.0 / 200.0;
  }

  lemma ProductBounds(percent: nat, d: nat, n: nat, scale: nat)
    requires 1 <= percent <= 100 && 100 * d <= percent * scale < 100 * (d + 1) && n > 0
    ensures var r := Rank(percent, n); (r - 1) * scale + scale / 100 - n <= d * n <= r * scale
  {
    var r := Rank(percent, n);
    Scaled(100 * d, percent * scale, n);
    Scaled(percent * scale, 100 * (d + 1), n);
    Scaled(percent * n, 100 * r, scale);
    Scaled(100 * (r - 1) + 1, percent * n, scale);
    Reordered(percent, scale, n);
    Reordered(100, d, n);
    Reordered(100, d + 1, n);
  }

  lemma Scaled(a: int, b: int, c: nat)
    requires a <= b
    ensures a * c <= b * c
  {}

  lemma Reordered(a: nat, b: nat, c: nat)
    ensures (a * b) * c == (a * c) * b && (a * b) * c == a * (b * c)
  {}

  // ----- Percentiles -----

  function Quantile(values: seq<int>, percent: nat): int
    requires values != [] && 1 <= percent <= 100
  {
    RankInRange(percent, |values|);
    Sort(values, IntLeq)[Rank(percent, |values|) - 1]
  }

  /** How many values are within the limit. */
  function Within(values: seq<int>, limit: int): nat {
    if values == [] then 0 else (if values[0] <= limit then 1 else 0) + Within(values[1..], limit)
  }

  lemma IntTotal()
    ensures Total(IntLeq)
  {}

  lemma SortedInts(values: seq<int>)
    ensures Ordered(Sort(values, IntLeq), IntLeq)
  {
    IntTotal();
    SortOrdered(values, IntLeq);
  }

  lemma {:induction false} InsertWithin(x: int, s: seq<int>, limit: int)
    ensures Within(Insert(x, s, IntLeq), limit) == (if x <= limit then 1 else 0) + Within(s, limit)
  {
    if s != [] && !IntLeq(x, s[0]) {
      InsertWithin(x, s[1..], limit);
      assert ([s[0]] + Insert(x, s[1..], IntLeq))[1..] == Insert(x, s[1..], IntLeq);
    } else {
      assert ([x] + s)[1..] == s;
    }
  }

  lemma {:induction false} SortWithin(s: seq<int>, limit: int)
    ensures Within(Sort(s, IntLeq), limit) == Within(s, limit)
  {
    if s != [] {
      SortWithin(s[1..], limit);
      InsertWithin(s[0], Sort(s[1..], IntLeq), limit);
    }
  }

  /** In order, position `k` is within the limit exactly when more than `k` values are. */
  lemma {:induction false} OrderedWithin(s: seq<int>, limit: int, k: nat)
    requires Ordered(s, IntLeq) && k < |s|
    ensures s[k] <= limit <==> Within(s, limit) > k
  {
    if k == 0 {
      if s[0] > limit { NoneWithin(s, limit); }
    } else {
      OrderedWithin(s[1..], limit, k - 1);
      if s[0] > limit { NoneWithin(s, limit); }
    }
  }

  lemma {:induction false} NoneWithin(s: seq<int>, limit: int)
    requires Ordered(s, IntLeq) && s != [] && s[0] > limit
    ensures Within(s, limit) == 0
  {
    if |s| > 1 { NoneWithin(s[1..], limit); }
  }

  /** The percentile meets a limit exactly when that many runs, rounded up, do. */
  lemma QuantileWithin(values: seq<int>, percent: nat, limit: int)
    requires values != [] && 1 <= percent <= 100
    ensures Quantile(values, percent) <= limit <==> Within(values, limit) >= Rank(percent, |values|)
  {
    RankInRange(percent, |values|);
    SortedInts(values);
    SortWithin(values, limit);
    OrderedWithin(Sort(values, IntLeq), limit, Rank(percent, |values|) - 1);
  }

  lemma RankMonotone(low: nat, high: nat, n: nat)
    requires low <= high
    ensures Rank(low, n) <= Rank(high, n)
  {
    assert low * n <= high * n;
  }

  lemma QuantileMonotone(values: seq<int>, low: nat, high: nat)
    requires values != [] && 1 <= low <= high <= 100
    ensures Quantile(values, low) <= Quantile(values, high)
  {
    RankInRange(low, |values|);
    RankInRange(high, |values|);
    RankMonotone(low, high, |values|);
    SortedInts(values);
  }

  /** The order of the runs does not matter. */
  lemma QuantileForgetsOrder(a: seq<int>, b: seq<int>, percent: nat)
    requires a != [] && multiset(a) == multiset(b) && 1 <= percent <= 100
    ensures b != [] && Quantile(a, percent) == Quantile(b, percent)
  {
    IntTotal();
    assert |multiset(a)| == |a| && |multiset(b)| == |b|;
    SortForgetsOrder(a, b, IntLeq);
  }

  // ----- The gate -----

  function StormTimes(runs: seq<Run>): (r: seq<int>)
    ensures |r| == |runs|
  {
    seq(|runs|, i requires 0 <= i < |runs| => runs[i].stormUs)
  }

  function ShutdownTimes(runs: seq<Run>): (r: seq<int>)
    ensures |r| == |runs|
  {
    seq(|runs|, i requires 0 <= i < |runs| => runs[i].shutdownUs)
  }

  /** `value` is the least limit that so many values, rounded up, are within. */
  ghost predicate IsPercentile(values: seq<int>, percent: nat, value: int) {
    forall limit :: value <= limit <==> 100 * Within(values, limit) >= percent * |values|
  }

  lemma QuantileIsPercentile(values: seq<int>, percent: nat)
    requires values != [] && 1 <= percent <= 100
    ensures IsPercentile(values, percent, Quantile(values, percent))
  {
    forall limit
      ensures Quantile(values, percent) <= limit <==> 100 * Within(values, limit) >= percent * |values|
    {
      QuantileWithin(values, percent, limit);
      RankReached(percent, |values|, Within(values, limit));
    }
  }

  lemma RankReached(percent: nat, n: nat, k: nat)
    ensures k >= Rank(percent, n) <==> 100 * k >= percent * n
  {}

  function PercentilesOf(values: seq<int>): (p: Percentiles)
    requires values != []
    ensures p.p50 <= p.p95 <= p.p99
    ensures IsPercentile(values, 50, p.p50) && IsPercentile(values, 95, p.p95) && IsPercentile(values, 99, p.p99)
  {
    QuantileIsPercentile(values, 50);
    QuantileIsPercentile(values, 95);
    QuantileIsPercentile(values, 99);
    QuantileMonotone(values, 50, 95);
    QuantileMonotone(values, 95, 99);
    Percentiles(Quantile(values, 50), Quantile(values, 95), Quantile(values, 99))
  }

  function Summarize(runs: seq<Run>, peakRss: int): Result<Measurement, Failure> {
    if runs == [] || peakRss <= 0 then Err(NothingMeasured)
    else
      assert |StormTimes(runs)| > 0 && |ShutdownTimes(runs)| > 0;
      Ok(Measurement(PercentilesOf(StormTimes(runs)), PercentilesOf(ShutdownTimes(runs)), peakRss))
  }

  function Exceeds(name: string, value: int, limit: Option<int>): seq<string> {
    if limit.Some? && value > limit.value then [name] else []
  }

  function Violations(m: Measurement, limits: Limits): seq<string> {
    Exceeds("p99_storm_us", m.storm.p99, limits.storm) +
    Exceeds("p99_shutdown_us", m.shutdown.p99, limits.shutdown) +
    Exceeds("peak_rss_kib", m.peakRss, limits.rss)
  }

  ghost predicate EnoughWithin(values: seq<int>, limit: Option<int>) {
    limit.Some? ==> 100 * Within(values, limit.value) >= 99 * |values|
  }

  /** No budget is violated exactly when 99 percent of the runs, rounded up, meet each time limit. */
  lemma BudgetMetExactly(runs: seq<Run>, peakRss: int, limits: Limits)
    requires Summarize(runs, peakRss).Ok?
    ensures Violations(Summarize(runs, peakRss).value, limits) == [] <==>
            && EnoughWithin(StormTimes(runs), limits.storm)
            && EnoughWithin(ShutdownTimes(runs), limits.shutdown)
            && (limits.rss.Some? ==> peakRss <= limits.rss.value)
  {
    var storm, shutdown := StormTimes(runs), ShutdownTimes(runs);
    assert |storm| > 0 && |shutdown| > 0;
    P99Exceeds("p99_storm_us", storm, PercentilesOf(storm), limits.storm);
    P99Exceeds("p99_shutdown_us", shutdown, PercentilesOf(shutdown), limits.shutdown);
    AllEmpty(Exceeds("p99_storm_us", PercentilesOf(storm).p99, limits.storm),
             Exceeds("p99_shutdown_us", PercentilesOf(shutdown).p99, limits.shutdown),
             Exceeds("peak_rss_kib", peakRss, limits.rss));
  }

  lemma P99Exceeds(name: string, values: seq<int>, p: Percentiles, limit: Option<int>)
    requires IsPercentile(values, 99, p.p99)
    ensures Exceeds(name, p.p99, limit) == [] <==> EnoughWithin(values, limit)
  {}

  lemma AllEmpty(a: seq<string>, b: seq<string>, c: seq<string>)
    ensures a + b + c == [] <==> a == [] && b == [] && c == []
  {
    assert |a + b + c| == |a| + |b| + |c|;
  }
}
