/**
 * The risk scorer: the log is cut into calendar hours, from the hour of its earliest row to the
 * hour of its latest, and every hour gets a score in [0, 100] that weighs the share of slow calls
 * (0.4), the share of calls that did not succeed (0.4) and the share of failed calls (0.2).
 */
module RiskScoring {
  import opened Wrappers
  import opened Seqs
  import opened Records

  const SUCCESS: string := "success"
  const FAILED: string := "failed"

  /** One hour of the score series: the start of the hour (in seconds) and its score. */
  datatype RiskBucket = RiskBucket(timestamp: int, riskScore: real)

  /** The calendar hour a timestamp falls in, counted in whole hours and rounded down. */
  function HourOf(ts: int): int {
    ts / SECONDS_PER_HOUR
  }

  /** The first second of an hour. */
  function HourStart(hour: int): int {
    hour * SECONDS_PER_HOUR
  }

  /** A timestamp lies in its own hour. */
  lemma HourFacts(ts: int)
    ensures HourStart(HourOf(ts)) <= ts < HourStart(HourOf(ts)) + SECONDS_PER_HOUR
  {
  }

  lemma HourStartMonotone(h: int, g: int)
    requires h < g
    ensures HourStart(h) + SECONDS_PER_HOUR <= HourStart(g)
  {
  }

  function InHour(hour: int): LogRecord -> bool {
    (r: LogRecord) => HourOf(r.timestamp) == hour
  }

  /** A call is slow when its latency is present and strictly above the threshold. */
  function IsSlow(threshold: int): LogRecord -> bool {
    (r: LogRecord) => r.latencyMs.Some? && r.latencyMs.value > threshold as real
  }

  function HasStatus(status: string): LogRecord -> bool {
    (r: LogRecord) => r.status == Some(status)
  }

  /** `k` out of `n`; an empty bucket has no share of anything. */
  function Fraction(k: nat, n: nat): real {
    if n == 0 then 0.0 else k as real / n as real
  }

  /** The share of slow calls, weighted 0.4. */
  function LatencyScore(g: seq<LogRecord>, threshold: int): (score: real)
    ensures 0.0 <= score <= 0.4
  {
    FractionBounds(Count(g, IsSlow(threshold)), |g|);
    0.4 * Fraction(Count(g, IsSlow(threshold)), |g|)
  }

  /** The error rate (the share of calls that did not succeed), weighted 0.4. */
  function ErrorScore(g: seq<LogRecord>): (score: real)
    ensures 0.0 <= score <= 0.4
  {
    FractionBounds(Count(g, HasStatus(SUCCESS)), |g|);
    if |g| == 0 then 0.0 else 0.4 * (1.0 - Fraction(Count(g, HasStatus(SUCCESS)), |g|))
  }

  /** The share of failed calls, weighted 0.2. */
  function DowntimeScore(g: seq<LogRecord>): (score: real)
    ensures 0.0 <= score <= 0.2
  {
    FractionBounds(Count(g, HasStatus(FAILED)), |g|);
    0.2 * Fraction(Count(g, HasStatus(FAILED)), |g|)
  }

  /**
   * Each component vanishes exactly when its kind of call is absent: no slow call, no call that
   * did not succeed, no failed call.
   */
  lemma ComponentsZeroIff(g: seq<LogRecord>, threshold: int)
    ensures LatencyScore(g, threshold) == 0.0 <==> forall i :: 0 <= i < |g| ==> !IsSlow(threshold)(g[i])
    ensures ErrorScore(g) == 0.0 <==> forall i :: 0 <= i < |g| ==> g[i].status == Some(SUCCESS)
    ensures DowntimeScore(g) == 0.0 <==> forall i :: 0 <= i < |g| ==> g[i].status != Some(FAILED)
  {
    NoShareIffNone(g, IsSlow(threshold));
    FullShareIffAll(g, HasStatus(SUCCESS));
    NoShareIffNone(g, HasStatus(FAILED));
  }

  /** The share of `p` is zero exactly when no element satisfies `p`. */
  lemma NoShareIffNone(g: seq<LogRecord>, p: LogRecord -> bool)
    ensures Fraction(Count(g, p), |g|) == 0.0 <==> forall i :: 0 <= i < |g| ==> !p(g[i])
  {
    FractionZero(Count(g, p), |g|);
    if i :| 0 <= i < |g| && p(g[i]) {
      CountPositive(g, p, i);
    } else {
      CountNone(g, p);
    }
  }

  /** For a non-empty group, the share of `p` is one exactly when every element satisfies `p`. */
  lemma FullShareIffAll(g: seq<LogRecord>, p: LogRecord -> bool)
    ensures |g| > 0 ==> (Fraction(Count(g, p), |g|) == 1.0 <==> forall i :: 0 <= i < |g| ==> p(g[i]))
  {
    if |g| > 0 {
      FractionOne(Count(g, p), |g|);
      if i :| 0 <= i < |g| && !p(g[i]) {
        CountMissing(g, p, i);
      } else {
        CountAll(g, p);
      }
    }
  }

  lemma FractionZero(k: nat, n: nat)
    requires k <= n
    ensures Fraction(k, n) == 0.0 <==> k == 0
  {
    if n > 0 && Fraction(k, n) == 0.0 {
      MultiplyBack(k as real, n as real);
    }
  }

  lemma FractionOne(k: nat, n: nat)
    requires 0 < n
    ensures Fraction(k, n) == 1.0 <==> k == n
  {
    MultiplyBack(k as real, n as real);
    DivideSelf(n as real);
  }

  lemma MultiplyBack(x: real, n: real)
    requires n > 0.0
    ensures (x / n) * n == x
  {
  }

  /** `a` unless `b` is smaller, the way the two-argument minimum picks. */
  function Min(a: real, b: real): (m: real)
    ensures m <= a && m <= b
    ensures m == a || m == b
    ensures a <= b ==> m == a
  {
    if b < a then b else a
  }

  /** The score of one hour's rows: always in [0, 100], and 0 for an hour without rows. */
  function BucketScore(g: seq<LogRecord>, threshold: int): (score: real)
    ensures 0.0 <= score <= 100.0
    ensures |g| == 0 ==> score == 0.0
  {
    Min((LatencyScore(g, threshold) + ErrorScore(g) + DowntimeScore(g)) * 100.0, 100.0)
  }

  lemma FractionBounds(k: nat, n: nat)
    requires k <= n
    ensures 0.0 <= Fraction(k, n) <= 1.0
  {
    if n > 0 {
      assert k as real <= n as real;
    }
  }

  /** The weights sum to 1, so the cap at 100 never changes the weighted sum. */
  lemma CapNeverBinds(g: seq<LogRecord>, threshold: int)
    ensures (LatencyScore(g, threshold) + ErrorScore(g) + DowntimeScore(g)) * 100.0 <= 100.0
    ensures BucketScore(g, threshold) == (LatencyScore(g, threshold) + ErrorScore(g) + DowntimeScore(g)) * 100.0
  {
  }

  lemma FractionOfRest(k: nat, m: nat, n: nat)
    requires n > 0 && k + m <= n
    ensures Fraction(m, n) <= 1.0 - Fraction(k, n)
  {
    var nr, kr, mr := n as real, k as real, m as real;
    DivideMonotone(mr, nr - kr, nr);
    DivideDifference(nr, kr);
  }

  lemma DivideMonotone(x: real, y: real, n: real)
    requires n > 0.0 && x <= y
    ensures x / n <= y / n
  {
  }

  lemma DivideDifference(n: real, k: real)
    requires n > 0.0
    ensures (n - k) / n == 1.0 - k / n
  {
    DivideSum(n - k, k, n);
    DivideSelf(n);
  }

  lemma DivideSum(x: real, y: real, n: real)
    requires n > 0.0
    ensures x / n + y / n == (x + y) / n
  {
  }

  lemma DivideSelf(n: real)
    requires n > 0.0
    ensures n / n == 1.0
  {
  }

  /**
   * A failed call is a call that did not succeed, so the share of failed calls never exceeds the
   * error rate and the downtime component is at most half the error component.
   */
  lemma DowntimeAtMostHalfError(g: seq<LogRecord>)
    ensures DowntimeScore(g) <= ErrorScore(g) / 2.0
  {
    if |g| > 0 {
      CountDisjoint(g, HasStatus(SUCCESS), HasStatus(FAILED));
      FractionOfRest(Count(g, HasStatus(SUCCESS)), Count(g, HasStatus(FAILED)), |g|);
    }
  }

  /** An hour of successful calls, none slower than the threshold, scores 0. */
  lemma AllSuccessScoresZero(g: seq<LogRecord>, threshold: int)
    requires forall i :: 0 <= i < |g| ==>
               g[i].status == Some(SUCCESS) && (g[i].latencyMs.None? || g[i].latencyMs.value <= threshold as real)
    ensures BucketScore(g, threshold) == 0.0
  {
    CountNone(g, IsSlow(threshold));
    CountAll(g, HasStatus(SUCCESS));
    CountNone(g, HasStatus(FAILED));
  }

  /** A non-empty hour of failed calls, none slower than the threshold, scores 60. */
  lemma AllFailedScoresSixty(g: seq<LogRecord>, threshold: int)
    requires |g| > 0
    requires forall i :: 0 <= i < |g| ==>
               g[i].status == Some(FAILED) && (g[i].latencyMs.None? || g[i].latencyMs.value <= threshold as real)
    ensures BucketScore(g, threshold) == 60.0
  {
    CountNone(g, IsSlow(threshold));
    CountNone(g, HasStatus(SUCCESS));
    CountAll(g, HasStatus(FAILED));
    assert Fraction(|g|, |g|) == 1.0;
    assert Fraction(0, |g|) == 0.0;
  }

  /** The hour of the earliest row. */
  function FirstHour(rs: seq<LogRecord>): int
    requires |rs| > 0
  {
    HourOf(MinTimestamp(rs).value)
  }

  /** The hour of the latest row. */
  function LastHour(rs: seq<LogRecord>): int
    requires |rs| > 0
  {
    HourOf(MaxTimestamp(rs).value)
  }

  /** A row's hour lies between the first and the last hour, and the row lies inside its hour. */
  lemma RowInItsHour(rs: seq<LogRecord>, i: nat)
    requires i < |rs|
    ensures FirstHour(rs) <= HourOf(rs[i].timestamp) <= LastHour(rs)
    ensures HourStart(HourOf(rs[i].timestamp)) <= rs[i].timestamp < HourStart(HourOf(rs[i].timestamp)) + SECONDS_PER_HOUR
  {
    HourFacts(rs[i].timestamp);
    var lo, t, hi := MinTimestamp(rs).value, rs[i].timestamp, MaxTimestamp(rs).value;
    assert lo <= t <= hi;
    HourOfMonotone(lo, t);
    HourOfMonotone(t, hi);
  }

  lemma FirstHourAtMostLast(rs: seq<LogRecord>)
    requires |rs| > 0
    ensures FirstHour(rs) <= LastHour(rs)
  {
    RowInItsHour(rs, 0);
  }

  lemma HourOfMonotone(a: int, b: int)
    requires a <= b
    ensures HourOf(a) <= HourOf(b)
  {
  }

  /** The bucket of one hour: its start and the score of the rows that fall in it. */
  function HourBucket(rs: seq<LogRecord>, hour: int, threshold: int): (b: RiskBucket)
    ensures b.timestamp == HourStart(hour)
    ensures 0.0 <= b.riskScore <= 100.0
  {
    RiskBucket(HourStart(hour), BucketScore(Filter(rs, InHour(hour)), threshold))
  }

  /** The buckets of the hours `lo` up to, not including, `hi`, in ascending order. */
  function RiskSeries(rs: seq<LogRecord>, lo: int, hi: int, threshold: int): (series: seq<RiskBucket>)
    requires lo <= hi
    ensures |series| == hi - lo
    decreases hi - lo
  {
    if hi == lo then [] else RiskSeries(rs, lo, hi - 1, threshold) + [HourBucket(rs, hi - 1, threshold)]
  }

  /** The k-th bucket of a series is the bucket of the k-th hour. */
  lemma {:induction false} RiskSeriesAt(rs: seq<LogRecord>, lo: int, hi: int, threshold: int, k: int)
    requires lo <= hi && 0 <= k < hi - lo
    ensures RiskSeries(rs, lo, hi, threshold)[k] == HourBucket(rs, lo + k, threshold)
    decreases hi - lo
  {
    if k < hi - lo - 1 {
      RiskSeriesAt(rs, lo, hi - 1, threshold, k);
    }
  }

  /** The hourly series of a non-empty log, from the hour of its earliest row to the hour of its latest. */
  function HourlySeries(rs: seq<LogRecord>, threshold: int): (series: seq<RiskBucket>)
    requires |rs| > 0
    ensures |series| == LastHour(rs) - FirstHour(rs) + 1
  {
    FirstHourAtMostLast(rs);
    RiskSeries(rs, FirstHour(rs), LastHour(rs) + 1, threshold)
  }

  /** The k-th bucket of the hourly series starts the k-th hour and scores the rows of that hour. */
  lemma HourlySeriesBuckets(rs: seq<LogRecord>, threshold: int)
    requires |rs| > 0
    ensures forall k :: 0 <= k < |HourlySeries(rs, threshold)| ==>
              HourlySeries(rs, threshold)[k] == HourBucket(rs, FirstHour(rs) + k, threshold)
  {
    FirstHourAtMostLast(rs);
    forall k | 0 <= k < |HourlySeries(rs, threshold)|
      ensures HourlySeries(rs, threshold)[k] == HourBucket(rs, FirstHour(rs) + k, threshold)
    {
      RiskSeriesAt(rs, FirstHour(rs), LastHour(rs) + 1, threshold, k);
    }
  }

  /** The buckets of the hourly series are in strictly ascending time order. */
  lemma HourlySeriesAscending(rs: seq<LogRecord>, threshold: int)
    requires |rs| > 0
    ensures var series := HourlySeries(rs, threshold);
            forall j, k :: 0 <= j < k < |series| ==> series[j].timestamp < series[k].timestamp
  {
    var series := HourlySeries(rs, threshold);
    HourlySeriesBuckets(rs, threshold);
    forall j, k | 0 <= j < k < |series|
      ensures series[j].timestamp < series[k].timestamp
    {
      HourStartMonotone(FirstHour(rs) + j, FirstHour(rs) + k);
    }
  }

  /** Every row of the log lies inside the hour of one of the buckets. */
  lemma HourlySeriesCovers(rs: seq<LogRecord>, threshold: int)
    requires |rs| > 0
    ensures var series := HourlySeries(rs, threshold);
            forall i :: 0 <= i < |rs| ==>
              exists k :: 0 <= k < |series| &&
                series[k].timestamp <= rs[i].timestamp < series[k].timestamp + SECONDS_PER_HOUR
  {
    var series := HourlySeries(rs, threshold);
    HourlySeriesBuckets(rs, threshold);
    forall i | 0 <= i < |rs|
      ensures exists k :: 0 <= k < |series| &&
                series[k].timestamp <= rs[i].timestamp < series[k].timestamp + SECONDS_PER_HOUR
    {
      RowInItsHour(rs, i);
      HourFacts(rs[i].timestamp);
      var k := HourOf(rs[i].timestamp) - FirstHour(rs);
      assert series[k].timestamp <= rs[i].timestamp < series[k].timestamp + SECONDS_PER_HOUR;
    }
  }

  /**
   * The hourly risk series: one bucket per calendar hour from the hour of the earliest row to the
   * hour of the latest, empty hours included, in ascending order; each bucket scores the rows of
   * its own hour. Every row falls in one of the buckets. An empty log gives an empty series.
   */
  method CalculateRiskScore(rs: seq<LogRecord>, threshold: int) returns (buckets: seq<RiskBucket>)
    ensures |rs| == 0 ==> buckets == []
    ensures |rs| > 0 ==> buckets == HourlySeries(rs, threshold)
  {
    buckets := [];
    if |rs| == 0 {
      return;
    }
    var first, last := FirstHour(rs), LastHour(rs);
    FirstHourAtMostLast(rs);
    var hour := first;
    while hour <= last
      invariant first <= hour <= last + 1
      invariant buckets == RiskSeries(rs, first, hour, threshold)
    {
      var group := Filter(rs, InHour(hour));
      var latencyScore := LatencyScore(group, threshold);
      var errorScore := ErrorScore(group);
      var downtimeScore := DowntimeScore(group);
      var total := latencyScore + errorScore + downtimeScore;
      var score := Min(total * 100.0, 100.0);
      assert RiskBucket(HourStart(hour), score) == HourBucket(rs, hour, threshold) by {
        assert score == BucketScore(group, threshold);
      }
      buckets := buckets + [RiskBucket(HourStart(hour), score)];
      hour := hour + 1;
    }
  }
}
