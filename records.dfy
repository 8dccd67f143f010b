/** A row of the service-call log, the status lower-casing applied to it, and the timestamp extremes of a log. */
module Records {
  import opened Wrappers

  /**
   * One service-call log row. `timestamp` is in whole seconds; `status` and `latencyMs`
   * are `None` where the cell is missing.
   */
  datatype LogRecord = LogRecord(timestamp: int, service: string, status: Option<string>, latencyMs: Option<real>)

  const SECONDS_PER_HOUR: int := 3600

  predicate IsUpper(c: char) {
    'A' <= c <= 'Z'
  }

  /** The lower-case form of one character; characters other than `A`..`Z` are left alone. */
  function LowerChar(c: char): (d: char)
    ensures !IsUpper(d)
    ensures !IsUpper(c) ==> d == c
    ensures IsUpper(c) ==> d as int == c as int + 32
  {
    if IsUpper(c) then (c as int - 'A' as int + 'a' as int) as char else c
  }

  predicate IsLowerCase(s: string) {
    forall i :: 0 <= i < |s| ==> !IsUpper(s[i])
  }

  /** The string with every upper-case letter replaced by its lower-case letter. */
  function Lower(s: string): (t: string)
    ensures |t| == |s|
    ensures forall i :: 0 <= i < |s| ==> t[i] == LowerChar(s[i])
    ensures IsLowerCase(t)
  {
    if |s| == 0 then "" else [LowerChar(s[0])] + Lower(s[1..])
  }

  /** A string already in lower case is left unchanged. */
  lemma {:induction false} LowerKeepsLowerCase(s: string)
    requires IsLowerCase(s)
    ensures Lower(s) == s
  {
    if |s| > 0 {
      LowerKeepsLowerCase(s[1..]);
      assert s == [s[0]] + s[1..];
    }
  }

  /** Lower-casing twice is lower-casing once. */
  lemma LowerIdempotent(s: string)
    ensures Lower(Lower(s)) == Lower(s)
  {
    LowerKeepsLowerCase(Lower(s));
  }

  /** The latest timestamp of the log; `None` for an empty log. */
  function MaxTimestamp(rs: seq<LogRecord>): (m: Option<int>)
    ensures m.None? <==> |rs| == 0
    ensures m.Some? ==> forall i :: 0 <= i < |rs| ==> rs[i].timestamp <= m.value
    ensures m.Some? ==> exists i :: 0 <= i < |rs| && rs[i].timestamp == m.value
  {
    if |rs| == 0 then None
    else match MaxTimestamp(rs[1..])
      case None => Some(rs[0].timestamp)
      case Some(t) =>
        assert exists i :: 0 < i < |rs| && rs[i].timestamp == t by {
          var j :| 0 <= j < |rs[1..]| && rs[1..][j].timestamp == t;
          assert rs[j + 1].timestamp == t;
        }
        Some(if rs[0].timestamp >= t then rs[0].timestamp else t)
  }

  /** The earliest timestamp of the log; `None` for an empty log. */
  function MinTimestamp(rs: seq<LogRecord>): (m: Option<int>)
    ensures m.None? <==> |rs| == 0
    ensures m.Some? ==> forall i :: 0 <= i < |rs| ==> m.value <= rs[i].timestamp
    ensures m.Some? ==> exists i :: 0 <= i < |rs| && rs[i].timestamp == m.value
  {
    if |rs| == 0 then None
    else match MinTimestamp(rs[1..])
      case None => Some(rs[0].timestamp)
      case Some(t) =>
        assert exists i :: 0 < i < |rs| && rs[i].timestamp == t by {
          var j :| 0 <= j < |rs[1..]| && rs[1..][j].timestamp == t;
          assert rs[j + 1].timestamp == t;
        }
        Some(if rs[0].timestamp <= t then rs[0].timestamp else t)
  }
}
