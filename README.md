# ServicePulse analytics core in Dafny

This project models the analytics stage of the ServicePulse dashboard (`processor.py`). The stage
takes time-stamped service-call logs from SMS, USSD and IVR services and produces three results:

- **Cleaning (`process_logs`).** All statuses are lower-cased and one service is kept (or every
  service, for `"All"`). The closed window of `h` hours ending at the latest remaining timestamp
  is kept. A missing latency gets the window's mean latency. A missing status gets `"unknown"`.
- **Anomaly shell (`detect_anomalies`).** An empty log gives an empty result. Otherwise the
  outlier model's decision value and label are attached to every row, and the rows labelled
  `-1` are returned.
- **Risk scoring (`calculate_risk_score`).** The log is cut into calendar hours, from the hour of
  its earliest row to the hour of its latest. Each hour gets the score
  `min(100 · (0.4·slow share + 0.4·(1 − success share) + 0.2·failed share), 100)`.

Modules, one per concern:

- `Wrappers` (`wrappers.dfy`): Option and Result.
- `Seqs` (`seqs.dfy`): order-preserving filter, map and count, and the subsequence order.
- `Records` (`records.dfy`): the log row, ASCII lower-casing, and the earliest and latest
  timestamp.
- `Cleaning` (`cleaning.dfy`): `process_logs`.
- `Anomalies` (`anomalies.dfy`): the shell of `detect_anomalies`.
- `RiskScoring` (`risk_scoring.dfy`): `calculate_risk_score`.

A row is `LogRecord(timestamp, service, status, latencyMs)`. The timestamp is a whole number of
seconds. `status` and `latencyMs` are `Option`s, where `None` is a missing cell. Latencies,
means and shares are exact `real`s. The latency threshold is a parameter (config.py:9 reads it from the
environment, with 500 ms as the default). All operations are functions on values,
except the hourly loop of the risk scorer, which is the method `CalculateRiskScore`. That method
is proved equal to the specification function `HourlySeries`. No operation changes its input.
The source, in contrast, writes into the caller's frame at processor.py:10 and processor.py:31-32.

How the model treats the source's empty, NaN and NaT cases:

- **No row of the chosen service.** In the source the latest timestamp becomes NaT, every
  window comparison is false, and `process_logs` returns an empty frame without raising.
  `Cleaning.ProcessLogs` follows the code and returns `[]`. `Cleaning.ProcessLogsChecked` is the
  variant that reports this case as `Failure(EmptyDataset)`.
- **No latency present in the window.** The source's mean is NaN, so `fillna` leaves the cells
  missing. The model fills them with 0 (`ImputedLatency`), so no latency is missing after
  cleaning.
- **An hour without rows.** Every share is NaN in the source, and `min(nan, 100)` is NaN. The
  model scores such an hour 0: every share of an empty hour is 0, including the error rate.
- **Missing cells in the risk scorer.** A missing latency is never above the threshold (NaN
  compares false). A missing status is neither `"success"` nor `"failed"`.

## Model

| member | source | states |
|---|---|---|
| `Records.LowerChar` | processor.py:10 | a lower-cased character is never an upper-case letter; an upper-case letter moves to its lower-case form and every other character is unchanged |
| `Records.Lower` | processor.py:10 | the lower-cased status has the same length and maps each character through `LowerChar`; the result has no upper-case letter |
| `Records.LowerKeepsLowerCase` | processor.py:10 | a status already in lower case is unchanged by lower-casing |
| `Records.LowerIdempotent` | processor.py:10 | lower-casing twice is the same as lower-casing once |
| `Records.MaxTimestamp` | processor.py:13 | the latest timestamp is absent exactly for an empty log; otherwise it is the timestamp of some row, and no row is later |
| `Records.MinTimestamp` | processor.py:44 | the earliest timestamp is absent exactly for an empty log; otherwise it is the timestamp of some row, and no row is earlier |
| `Cleaning.NormalizeStatus` | processor.py:10 | no contract of its own; the per-row lower-casing of a present status (a missing one stays missing), described by `WindowIgnoresStatus` and `ProcessLogsRenormalization` |
| `Cleaning.InScope` | processor.py:11-12 | no contract of its own; the service test, which every row passes under the "All" sentinel, described by `SelectedMembers` |
| `Cleaning.ServiceScope` | processor.py:11-12 | no contract of its own; all rows under "All", otherwise the rows of the chosen service, described by `SelectedMembers` and `ProcessLogsServiceMatches` |
| `Cleaning.InWindow` | processor.py:13-15 | no contract of its own; the closed window test [end − h·3600, end], false for every row when there is no end (the NaT case), described by `SelectedMembers` and `ProcessLogsWindow` |
| `Cleaning.Selected` | processor.py:11-15 | no contract of its own; the kept input rows, described by `SelectedMembers`, `SelectedNonEmpty` and `ProcessLogsSelects` |
| `Cleaning.ProcessLogs` | processor.py:7-18 | the cleaning stage in the source's order (lower-case, service filter, window, fill); its own contract says it never adds rows; its output is described by `ProcessLogsSelects` and the lemmas below |
| `Cleaning.Clean` | processor.py:10-16 | a cleaned row keeps its timestamp, service and present latency, and has a lower-case status and a latency |
| `Cleaning.HasLatency` | processor.py:16 | no contract of its own; the test for a present latency, whose count is the denominator of the mean, described by `MeanLatencyDefined` |
| `Cleaning.SumLatency` | processor.py:16 | no contract of its own; the sum of the present latencies, skipping missing ones, described by `SumLatencyBounds` and `MeanLatencyBounds` |
| `Cleaning.SumLatencyBounds` | processor.py:16 | when every present latency lies in [lo, hi], their sum lies between lo and hi times their count |
| `Cleaning.MeanLatency` | processor.py:16 | no contract of its own; the mean of the present latencies, skipping missing ones, described by `MeanLatencyDefined` and `MeanLatencyBounds` |
| `Cleaning.ImputedLatency` | processor.py:16 | no contract of its own; the fill value: the mean, or 0 when no latency is present (see the decisions above) |
| `Cleaning.FillMissing` | processor.py:16 | no contract of its own; the per-row fill, described by `ProcessLogsSelects` (each output row is `Clean` of its input row) |
| `Cleaning.SelectedMembers` | processor.py:11-15 | the rows kept by cleaning are exactly `Filter(rs, …)` with the test "has the chosen service (or the filter is "All") and the timestamp lies in [end − h·3600, end]", where end is the latest timestamp of the service's rows: every copy of every such row is kept, in input order; hence they form a subsequence of the input, and a row value occurs in them iff it passes the test |
| `Cleaning.ProcessLogsSelects` | processor.py:7-18 | the output matches the kept subsequence row for row; each output row is its input row with the status lower-cased (missing → "unknown") and the latency kept (missing → the mean of the present latencies of the kept rows, computed before filling) |
| `Cleaning.WindowIgnoresStatus` | processor.py:10-15 | lower-casing before the service and time filters keeps the same rows as filtering the raw rows and lower-casing afterwards |
| `Cleaning.ProcessLogsFilled` | processor.py:16 | after cleaning, no row has a missing latency or status, and every status is in lower case |
| `Cleaning.ProcessLogsServiceMatches` | processor.py:11-12 | when a service is chosen, every output row has exactly that service |
| `Cleaning.ProcessLogsWindow` | processor.py:13-15 | every output timestamp lies in the closed interval [end − h·3600, end], where end is the latest timestamp of the service's rows |
| `Cleaning.ProcessLogsKeepsLatest` | processor.py:13-15 | for h ≥ 0, every row of the service that carries the latest timestamp is in the output, cleaned |
| `Cleaning.ProcessLogsNonEmpty` | processor.py:11-15 | for h ≥ 0 the output is non-empty iff some row has the chosen service, so an empty log gives an empty output and not an error; for h < 0 the output is empty |
| `Cleaning.SelectedNonEmpty` | processor.py:13-15 | the same emptiness facts for the kept input rows |
| `Cleaning.ProcessLogsChecked` | processor.py:13-15 | the error-returning variant succeeds with the non-empty output of `ProcessLogs`; for h ≥ 0 it fails with `EmptyDataset` iff no row has the chosen service |
| `Cleaning.ProcessLogsRenormalization` | processor.py:10 | cleaning a log whose statuses were already lower-cased (as the loader does) gives the same output |
| `Cleaning.MeanLatencyDefined` | processor.py:16 | the mean latency exists iff some row has a latency |
| `Cleaning.MeanLatencyBounds` | processor.py:16 | when every present latency lies in [lo, hi], so does their mean, which is the value used to fill missing latencies |
| `Anomalies.Annotate` | processor.py:31-32 | every row is paired with its own decision value and label, in order |
| `Anomalies.AnnotatedOutliers` | processor.py:31-33 | annotating keeps the number of rows labelled −1: the annotated rows carry exactly as many −1 labels as the verdicts |
| `Anomalies.IsOutlierVerdict` | processor.py:32-33 | no contract of its own; the `== -1` test on a `predict` label, described by `AnnotatedOutliers` and `DetectAnomalies` |
| `Anomalies.IsOutlier` | processor.py:33 | no contract of its own; the `== -1` label test, described by `DetectAnomalies` and `AnnotatedOutliers` |
| `Anomalies.DetectAnomalies` | processor.py:23-35 | an empty log gives an empty result, whatever the verdicts; otherwise the result is a subsequence of the annotated rows, all labelled −1, containing every row labelled −1 with its score, and exactly as long as the number of −1 labels (so it is exactly the −1 rows, in order) |
| `RiskScoring.BucketScore` | processor.py:46-53 | an hour's score lies in [0, 100], and an hour without rows scores 0 |
| `RiskScoring.Fraction` | processor.py:46-49 | no contract of its own; the mean of a boolean mask (k rows of n), 0 for an empty hour, described by `FractionBounds`, `FractionZero` and `FractionOne` |
| `RiskScoring.FractionBounds` | processor.py:46-49 | a share of k ≤ n rows lies in [0, 1] |
| `RiskScoring.FractionZero` | processor.py:46-49 | a share is 0 exactly when no row is counted |
| `RiskScoring.FractionOne` | processor.py:46-49 | for a non-empty hour a share is 1 exactly when every row is counted |
| `RiskScoring.HasStatus` | processor.py:47-49 | no contract of its own; the status mask (`== 'success'`, `== 'failed'`), never true for a missing status, described by `ComponentsZeroIff`, `DowntimeAtMostHalfError`, `AllSuccessScoresZero` and `AllFailedScoresSixty` |
| `RiskScoring.IsSlow` | processor.py:46 | no contract of its own; a present latency strictly above the threshold (a missing one is never slow), described by `ComponentsZeroIff` and `AllSuccessScoresZero` |
| `RiskScoring.Min` | processor.py:53 | the minimum is at most each argument and equal to one of them, the first on a tie |
| `RiskScoring.LatencyScore` | processor.py:46 | the share of calls strictly above the threshold, weighted 0.4, lies in [0, 0.4] |
| `RiskScoring.ErrorScore` | processor.py:47-48 | one minus the share of "success" calls, weighted 0.4, lies in [0, 0.4] |
| `RiskScoring.DowntimeScore` | processor.py:49 | the share of "failed" calls, weighted 0.2, lies in [0, 0.2] |
| `RiskScoring.ComponentsZeroIff` | processor.py:46-49 | the latency component is 0 iff no call is slow, the error component is 0 iff every call succeeded, and the downtime component is 0 iff no call failed |
| `RiskScoring.CapNeverBinds` | processor.py:50-53 | the weighted sum times 100 never exceeds 100, so the score equals the weighted sum times 100 and the cap never changes it |
| `RiskScoring.DowntimeAtMostHalfError` | processor.py:47-49 | every failed call is a call that did not succeed, so the downtime component is at most half the error component |
| `RiskScoring.AllSuccessScoresZero` | processor.py:46-53 | an hour of "success" calls, none strictly above the threshold, scores exactly 0 |
| `RiskScoring.AllFailedScoresSixty` | processor.py:46-53 | a non-empty hour of "failed" calls, none strictly above the threshold, scores exactly 60 |
| `RiskScoring.HourOf` | processor.py:44 | no contract of its own; the floor binning of a timestamp into its hour, described by `HourFacts` and `HourOfMonotone` |
| `RiskScoring.HourStart` | processor.py:44-52 | no contract of its own; the hour's left label, the timestamp of its bucket, described by `HourFacts`, `HourStartMonotone` and `HourBucket` |
| `RiskScoring.HourOfMonotone` | processor.py:44 | a later timestamp never falls in an earlier hour |
| `RiskScoring.HourStartMonotone` | processor.py:44-52 | the start of a later hour is at least one hour after the start of an earlier one |
| `RiskScoring.FirstHour` | processor.py:44 | no contract of its own; the hour of the earliest row, where the grouper's range starts, described by `RowInItsHour` and `HourlySeries` |
| `RiskScoring.LastHour` | processor.py:44 | no contract of its own; the hour of the latest row, where the grouper's range ends, described by `RowInItsHour`, `FirstHourAtMostLast` and `HourlySeries` |
| `RiskScoring.FirstHourAtMostLast` | processor.py:44 | a non-empty log's first hour is not after its last |
| `RiskScoring.HourFacts` | processor.py:44 | a timestamp lies inside its calendar hour [HourStart(h), HourStart(h) + 3600) |
| `RiskScoring.RowInItsHour` | processor.py:44 | a row's hour lies between the hour of the earliest row and the hour of the latest row, and the row lies inside its hour |
| `RiskScoring.InHour` | processor.py:44-45 | no contract of its own; the rows of one hour's group, those whose timestamp falls in that hour, described by `HourlySeriesBuckets` and `HourlySeriesCovers` |
| `RiskScoring.HourBucket` | processor.py:45-54 | an hour's bucket is stamped with the start of the hour, and its score lies in [0, 100] |
| `RiskScoring.RiskSeries` | processor.py:43-54 | the series for hours lo … hi−1 has one bucket per hour |
| `RiskScoring.RiskSeriesAt` | processor.py:43-54 | the k-th bucket of a series is the bucket of hour lo + k |
| `RiskScoring.HourlySeries` | processor.py:44-54 | a non-empty log has one bucket per calendar hour from its first hour to its last, empty hours included |
| `RiskScoring.HourlySeriesBuckets` | processor.py:44-54 | the k-th bucket of the hourly series starts the k-th hour and scores that hour's rows |
| `RiskScoring.HourlySeriesAscending` | processor.py:44 | the buckets are in strictly ascending time order |
| `RiskScoring.HourlySeriesCovers` | processor.py:44 | every row of the log lies inside the hour of one of the buckets |
| `RiskScoring.CalculateRiskScore` | processor.py:40-57 | the hourly loop returns an empty series for an empty log; otherwise it returns exactly `HourlySeries`, whose shape and scores the lemmas above describe |

## Left out

- The Isolation Forest fit, `decision_function` and `predict` calls (processor.py:28-32) are not
  modelled. They are a foreign, randomised, floating-point model. Their per-row results enter
  `DetectAnomalies` as a sequence of verdicts (decision value and label).
- Logging and the catch-log-reraise wrappers in processor.py are not modelled. They only cause
  side effects.
- `Records.Lower`: lower-cases only the ASCII letters `A`–`Z`. Python's `str.lower` also folds
  non-ASCII letters.
- `Records.LowerChar`: the per-character step of `Records.Lower`. It folds only `A`–`Z` and leaves
  every other character, including non-ASCII upper-case letters, unchanged.
- Floating point, NaN and NaT are not modelled. Reals are exact, and the three NaN cases are
  given defined values (see the decisions above). Timestamps are whole seconds, where pandas
  uses nanoseconds.
- The in-place writes into the caller's frame (processor.py:10, processor.py:31-32) are not
  modelled. Every operation returns new sequences.
- Only the four columns the core reads are modelled, and `timestamp` and `service` are never
  missing in the model. In the source a missing timestamp becomes NaT (data_loader.py:12):
  `max()` skips it (processor.py:13) and both window comparisons are false for it
  (processor.py:15), so `process_logs` silently drops such rows. A row with a missing `service`
  is dropped under a named service filter (processor.py:12) and kept under "All". The model does
  not capture these drops.
- `ERROR_RATE_THRESHOLD` is imported at processor.py:5 but never used, so it has no counterpart.
- `RiskScoring.CalculateRiskScore`: its postcondition only ties the result to `HourlySeries`.
  The bounds, order and coverage of the buckets are proved about `HourlySeries` in separate
  lemmas.
- The dashboard page (app.py), the chart construction (visualizer.py), CSV loading and timestamp
  parsing (data_loader.py), environment reading (config.py) and logger setup (logger.py) are not
  part of this model.
