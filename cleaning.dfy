/**
 * The filter, window and impute stage of the log processor: lower-case every status, keep the
 * chosen service, keep the closed window of `hours` hours that ends at the latest remaining
 * timestamp, and fill missing latencies (with the window's mean) and missing statuses.
 */
module Cleaning {
  import opened Wrappers
  import opened Seqs
  import opened Records

  /** The service selector that disables service filtering. */
  const ALL: string := "All"
  /** The status written into rows whose status is missing. */
  const UNKNOWN: string := "unknown"

  /** No row is left once the service (and hence the window) filter has run. */
  datatype ProcessError = EmptyDataset

  /** The row with its status lower-cased; a missing status stays missing. */
  function NormalizeStatus(r: LogRecord): LogRecord {
    r.(status := match r.status case None => None case Some(s) => Some(Lower(s)))
  }

  /** The service test: every row passes for `ALL`, otherwise the rows of `service`. */
  function InScope(service: string): LogRecord -> bool {
    (r: LogRecord) => service == ALL || r.service == service
  }

  /** The rows of the chosen service, or every row for `ALL`. */
  function ServiceScope(rs: seq<LogRecord>, service: string): seq<LogRecord> {
    if service == ALL then rs else Filter(rs, InScope(service))
  }

  /**
   * The window test: the timestamp lies in the closed interval [end - hours h, end].
   * Without an end (the latest timestamp of an empty log) every comparison fails.
   */
  function InWindow(end: Option<int>, hours: int): LogRecord -> bool {
    (r: LogRecord) => end.Some? && end.value - hours * SECONDS_PER_HOUR <= r.timestamp <= end.value
  }

  function HasLatency(r: LogRecord): bool {
    r.latencyMs.Some?
  }

  /** Sum of the latencies that are present. */
  function SumLatency(rs: seq<LogRecord>): real {
    if |rs| == 0 then 0.0
    else (match rs[0].latencyMs case Some(v) => v case None => 0.0) + SumLatency(rs[1..])
  }

  /** Mean of the latencies that are present, skipping missing ones; `None` when none is present. */
  function MeanLatency(rs: seq<LogRecord>): Option<real> {
    var n := Count(rs, HasLatency);
    if n == 0 then None else Some(SumLatency(rs) / n as real)
  }

  /** The value written into missing latencies: the mean of the present ones, or 0 when there are none. */
  function ImputedLatency(rs: seq<LogRecord>): real {
    match MeanLatency(rs)
    case Some(m) => m
    case None => 0.0
  }

  /** A missing latency becomes `fill`, a missing status becomes `UNKNOWN`; present values stay. */
  function FillMissing(fill: real): LogRecord -> LogRecord {
    (r: LogRecord) => r.(status := Some(match r.status case Some(s) => s case None => UNKNOWN),
                        latencyMs := Some(match r.latencyMs case Some(v) => v case None => fill))
  }

  /** The cleaning stage, step by step in the order the processor applies them. It only deletes rows. */
  function ProcessLogs(rs: seq<LogRecord>, service: string, hours: int): (out: seq<LogRecord>)
    ensures |out| <= |rs|
  {
    var normalized := Map(rs, NormalizeStatus);
    var scoped := ServiceScope(normalized, service);
    var windowed := Filter(scoped, InWindow(MaxTimestamp(scoped), hours));
    Map(windowed, FillMissing(ImputedLatency(windowed)))
  }

  /** The input rows the cleaning stage keeps, as they were given. */
  function Selected(rs: seq<LogRecord>, service: string, hours: int): seq<LogRecord> {
    var scoped := ServiceScope(rs, service);
    Filter(scoped, InWindow(MaxTimestamp(scoped), hours))
  }

  /** What a kept row looks like once cleaned, with `fill` as the imputed latency. */
  function Clean(r: LogRecord, fill: real): (c: LogRecord)
    ensures c.timestamp == r.timestamp && c.service == r.service
    ensures c.status.Some? && IsLowerCase(c.status.value)
    ensures c.latencyMs.Some? && (r.latencyMs.Some? ==> c.latencyMs == r.latencyMs)
  {
    assert IsLowerCase(UNKNOWN);
    LogRecord(r.timestamp, r.service,
              Some(if r.status.Some? then Lower(r.status.value) else UNKNOWN),
              Some(if r.latencyMs.Some? then r.latencyMs.value else fill))
  }

  /**
   * The cleaning stage with the empty result turned into an explicit error: it fails exactly
   * when no row has the chosen service (for a window of at least zero hours).
   */
  function ProcessLogsChecked(rs: seq<LogRecord>, service: string, hours: int): (r: Result<seq<LogRecord>, ProcessError>)
    ensures r.Success? ==> r.value == ProcessLogs(rs, service, hours) && |r.value| > 0
    ensures hours >= 0 ==> (r.Failure? <==> |ServiceScope(rs, service)| == 0)
  {
    var out := ProcessLogs(rs, service, hours);
    ProcessLogsNonEmpty(rs, service, hours);
    if |out| == 0 then Failure(EmptyDataset) else Success(out)
  }

  // ---------------------------------------------------------------------------------------
  // Lower-casing the status does not disturb the service filter, the latest timestamp or the
  // latency mean, so the stage is a selection of input rows followed by a per-row clean-up.
  // ---------------------------------------------------------------------------------------

  lemma {:induction false} MaxTimestampIgnoresStatus(rs: seq<LogRecord>)
    ensures MaxTimestamp(Map(rs, NormalizeStatus)) == MaxTimestamp(rs)
  {
    if |rs| > 0 {
      MaxTimestampIgnoresStatus(rs[1..]);
      assert Map(rs, NormalizeStatus)[1..] == Map(rs[1..], NormalizeStatus);
    }
  }

  lemma {:induction false} LatencyStatsIgnoreStatus(rs: seq<LogRecord>)
    ensures SumLatency(Map(rs, NormalizeStatus)) == SumLatency(rs)
    ensures Count(Map(rs, NormalizeStatus), HasLatency) == Count(rs, HasLatency)
  {
    if |rs| > 0 {
      LatencyStatsIgnoreStatus(rs[1..]);
      assert Map(rs, NormalizeStatus)[1..] == Map(rs[1..], NormalizeStatus);
    }
  }

  lemma ScopeIgnoresStatus(rs: seq<LogRecord>, service: string)
    ensures ServiceScope(Map(rs, NormalizeStatus), service) == Map(ServiceScope(rs, service), NormalizeStatus)
  {
    if service != ALL {
      FilterMapCommute(rs, NormalizeStatus, InScope(service), InScope(service));
    }
  }

  /**
   * The kept rows are exactly the input rows that pass the service test and lie in the window,
   * every copy of them and in their original order.
   */
  lemma SelectedMembers(rs: seq<LogRecord>, service: string, hours: int)
    ensures Selected(rs, service, hours) ==
            Filter(rs, And(InScope(service), InWindow(MaxTimestamp(ServiceScope(rs, service)), hours)))
    ensures IsSubsequence(Selected(rs, service, hours), rs)
    ensures var end := MaxTimestamp(ServiceScope(rs, service));
            forall r :: r in Selected(rs, service, hours) <==>
              && r in rs
              && (service == ALL || r.service == service)
              && end.Some? && end.value - hours * SECONDS_PER_HOUR <= r.timestamp <= end.value
  {
    var scoped := ServiceScope(rs, service);
    var window := InWindow(MaxTimestamp(scoped), hours);
    if service == ALL {
      FilterExtensional(rs, window, And(InScope(service), window));
    } else {
      FilterFilter(rs, InScope(service), window);
    }
    FilterIsSubsequence(scoped, window);
    if service != ALL {
      FilterIsSubsequence(rs, InScope(service));
      SubsequenceTransitive(Selected(rs, service, hours), scoped, rs);
    }
  }

  /**
   * The stage only deletes rows and cleans the rest: its output is, row by row, the cleaned form
   * of `Selected`, a subsequence of the input, with the mean latency of `Selected` as the fill.
   */
  lemma ProcessLogsSelects(rs: seq<LogRecord>, service: string, hours: int)
    ensures var kept := Selected(rs, service, hours);
            var out := ProcessLogs(rs, service, hours);
            && IsSubsequence(kept, rs)
            && |out| == |kept|
            && forall i :: 0 <= i < |out| ==> out[i] == Clean(kept[i], ImputedLatency(kept))
  {
    var kept := Selected(rs, service, hours);
    var scoped := ServiceScope(Map(rs, NormalizeStatus), service);
    var windowed := Filter(scoped, InWindow(MaxTimestamp(scoped), hours));
    WindowIgnoresStatus(rs, service, hours);
    LatencyStatsIgnoreStatus(kept);
    var fill := ImputedLatency(windowed);
    assert fill == ImputedLatency(kept);
    var out := Map(windowed, FillMissing(fill));
    forall i | 0 <= i < |out| ensures out[i] == Clean(kept[i], fill) {
      assert windowed[i] == NormalizeStatus(kept[i]);
    }
    SelectedMembers(rs, service, hours);
  }

  /** The rows left after the window are the selected input rows with their status lower-cased. */
  lemma WindowIgnoresStatus(rs: seq<LogRecord>, service: string, hours: int)
    ensures var scoped := ServiceScope(Map(rs, NormalizeStatus), service);
            Filter(scoped, InWindow(MaxTimestamp(scoped), hours)) == Map(Selected(rs, service, hours), NormalizeStatus)
  {
    var scopedRaw := ServiceScope(rs, service);
    var end := MaxTimestamp(scopedRaw);
    ScopeIgnoresStatus(rs, service);
    MaxTimestampIgnoresStatus(scopedRaw);
    FilterMapCommute(scopedRaw, NormalizeStatus, InWindow(end, hours), InWindow(end, hours));
  }

  /** After the stage no row has a missing latency or status, and every status is lower case. */
  lemma ProcessLogsFilled(rs: seq<LogRecord>, service: string, hours: int)
    ensures forall o :: o in ProcessLogs(rs, service, hours) ==>
              o.latencyMs.Some? && o.status.Some? && IsLowerCase(o.status.value)
  {
    assert IsLowerCase(UNKNOWN);
    ProcessLogsSelects(rs, service, hours);
  }

  /** With a service chosen, every output row belongs to that service. */
  lemma ProcessLogsServiceMatches(rs: seq<LogRecord>, service: string, hours: int)
    requires service != ALL
    ensures forall o :: o in ProcessLogs(rs, service, hours) ==> o.service == service
  {
    ProcessLogsSelects(rs, service, hours);
    SelectedMembers(rs, service, hours);
    var kept := Selected(rs, service, hours);
    forall o | o in ProcessLogs(rs, service, hours) ensures o.service == service {
      var i :| 0 <= i < |ProcessLogs(rs, service, hours)| && ProcessLogs(rs, service, hours)[i] == o;
      assert kept[i] in kept;
    }
  }

  /** Every output timestamp lies in [end - hours h, end], end being the latest timestamp of the service's rows. */
  lemma ProcessLogsWindow(rs: seq<LogRecord>, service: string, hours: int)
    ensures var end := MaxTimestamp(ServiceScope(rs, service));
            forall o :: o in ProcessLogs(rs, service, hours) ==>
              end.Some? && end.value - hours * SECONDS_PER_HOUR <= o.timestamp <= end.value
  {
    ProcessLogsSelects(rs, service, hours);
    SelectedMembers(rs, service, hours);
    var kept := Selected(rs, service, hours);
    forall o | o in ProcessLogs(rs, service, hours)
      ensures var end := MaxTimestamp(ServiceScope(rs, service));
              end.Some? && end.value - hours * SECONDS_PER_HOUR <= o.timestamp <= end.value
    {
      var i :| 0 <= i < |ProcessLogs(rs, service, hours)| && ProcessLogs(rs, service, hours)[i] == o;
      assert kept[i] in kept;
    }
  }

  /** The rows carrying the latest timestamp of the service are always kept (for a window of at least zero hours). */
  lemma ProcessLogsKeepsLatest(rs: seq<LogRecord>, service: string, hours: int)
    requires hours >= 0
    ensures var scoped := ServiceScope(rs, service);
            var fill := ImputedLatency(Selected(rs, service, hours));
            forall r :: r in scoped && Some(r.timestamp) == MaxTimestamp(scoped) ==>
              Clean(r, fill) in ProcessLogs(rs, service, hours)
  {
    var scoped := ServiceScope(rs, service);
    var kept := Selected(rs, service, hours);
    var out := ProcessLogs(rs, service, hours);
    ProcessLogsSelects(rs, service, hours);
    forall r | r in scoped && Some(r.timestamp) == MaxTimestamp(scoped)
      ensures Clean(r, ImputedLatency(kept)) in out
    {
      assert r in kept;
      var i :| 0 <= i < |kept| && kept[i] == r;
      assert out[i] == Clean(r, ImputedLatency(kept));
    }
  }

  /**
   * The output is empty exactly when no row has the chosen service (for a window of at least
   * zero hours), and always empty for a negative window.
   */
  lemma ProcessLogsNonEmpty(rs: seq<LogRecord>, service: string, hours: int)
    ensures hours >= 0 ==> (|ProcessLogs(rs, service, hours)| > 0 <==> |ServiceScope(rs, service)| > 0)
    ensures hours < 0 ==> |ProcessLogs(rs, service, hours)| == 0
  {
    ProcessLogsSelects(rs, service, hours);
    SelectedNonEmpty(rs, service, hours);
  }

  lemma SelectedNonEmpty(rs: seq<LogRecord>, service: string, hours: int)
    ensures hours >= 0 ==> (|Selected(rs, service, hours)| > 0 <==> |ServiceScope(rs, service)| > 0)
    ensures hours < 0 ==> |Selected(rs, service, hours)| == 0
  {
    var scoped := ServiceScope(rs, service);
    var window := InWindow(MaxTimestamp(scoped), hours);
    if hours >= 0 && |scoped| > 0 {
      var i :| 0 <= i < |scoped| && scoped[i].timestamp == MaxTimestamp(scoped).value;
      assert window(scoped[i]);
      assert scoped[i] in Filter(scoped, window);
    }
    if |Filter(scoped, window)| > 0 {
      assert Filter(scoped, window)[0] in Filter(scoped, window);
    }
  }

  /** Lower-casing statuses before the stage (as the loader already does) changes nothing. */
  lemma ProcessLogsRenormalization(rs: seq<LogRecord>, service: string, hours: int)
    ensures ProcessLogs(Map(rs, NormalizeStatus), service, hours) == ProcessLogs(rs, service, hours)
  {
    var twice := Map(Map(rs, NormalizeStatus), NormalizeStatus);
    forall i | 0 <= i < |rs| ensures twice[i] == Map(rs, NormalizeStatus)[i] {
      if rs[i].status.Some? {
        LowerIdempotent(rs[i].status.value);
      }
    }
    assert twice == Map(rs, NormalizeStatus);
  }

  /** There is a mean exactly when some row has a latency. */
  lemma MeanLatencyDefined(rs: seq<LogRecord>)
    ensures MeanLatency(rs).Some? <==> exists i :: 0 <= i < |rs| && rs[i].latencyMs.Some?
  {
    if i :| 0 <= i < |rs| && rs[i].latencyMs.Some? {
      CountPositive(rs, HasLatency, i);
    } else {
      CountNone(rs, HasLatency);
    }
  }

  lemma {:induction false} SumLatencyBounds(rs: seq<LogRecord>, lo: real, hi: real)
    requires forall i :: 0 <= i < |rs| && rs[i].latencyMs.Some? ==> lo <= rs[i].latencyMs.value <= hi
    ensures lo * Count(rs, HasLatency) as real <= SumLatency(rs) <= hi * Count(rs, HasLatency) as real
  {
    if |rs| > 0 {
      SumLatencyBounds(rs[1..], lo, hi);
    }
  }

  lemma DivideBounds(s: real, n: real, lo: real, hi: real)
    requires n > 0.0 && lo * n <= s <= hi * n
    ensures lo <= s / n <= hi
  {
  }

  /** The imputed latency lies between the smallest and the largest latency present. */
  lemma MeanLatencyBounds(rs: seq<LogRecord>, lo: real, hi: real)
    requires forall i :: 0 <= i < |rs| && rs[i].latencyMs.Some? ==> lo <= rs[i].latencyMs.value <= hi
    ensures MeanLatency(rs).Some? ==> lo <= MeanLatency(rs).value <= hi
  {
    var n := Count(rs, HasLatency) as real;
    SumLatencyBounds(rs, lo, hi);
    if n > 0.0 {
      DivideBounds(SumLatency(rs), n, lo, hi);
    }
  }
}
