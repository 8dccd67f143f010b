/**
 * The shell of the anomaly detector: on an empty log it returns nothing without consulting the
 * outlier model; otherwise it attaches the model's decision value and label to every row and keeps
 * the rows labelled as outliers. The outlier model itself is an input here: one verdict per row.
 */
module Anomalies {
  import opened Seqs
  import opened Records

  /** The label the outlier model gives an outlier (an inlier is labelled 1). */
  const OUTLIER: int := -1

  /** The outlier model's verdict on one row: its decision value and its label. */
  datatype Verdict = Verdict(score: real, prediction: int)

  /** A row with the two columns the detector adds to it. */
  datatype AnomalyRecord = AnomalyRecord(record: LogRecord, anomalyScore: real, isAnomaly: int)

  /** Every row paired with its own verdict. */
  function Annotate(rs: seq<LogRecord>, vs: seq<Verdict>): (a: seq<AnomalyRecord>)
    requires |vs| == |rs|
    ensures |a| == |rs|
    ensures forall i :: 0 <= i < |rs| ==> a[i] == AnomalyRecord(rs[i], vs[i].score, vs[i].prediction)
  {
    if |rs| == 0 then [] else [AnomalyRecord(rs[0], vs[0].score, vs[0].prediction)] + Annotate(rs[1..], vs[1..])
  }

  predicate IsOutlier(a: AnomalyRecord) {
    a.isAnomaly == OUTLIER
  }

  predicate IsOutlierVerdict(v: Verdict) {
    v.prediction == OUTLIER
  }

  lemma {:induction false} AnnotatedOutliers(rs: seq<LogRecord>, vs: seq<Verdict>)
    requires |vs| == |rs|
    ensures Count(Annotate(rs, vs), IsOutlier) == Count(vs, IsOutlierVerdict)
  {
    if |rs| > 0 {
      AnnotatedOutliers(rs[1..], vs[1..]);
      assert Annotate(rs, vs)[1..] == Annotate(rs[1..], vs[1..]);
    }
  }

  /**
   * The detected anomalies: nothing for an empty log, whatever the verdicts; otherwise exactly
   * the rows labelled as outliers, in their original order, each with its decision value.
   */
  function DetectAnomalies(rs: seq<LogRecord>, vs: seq<Verdict>): (r: seq<AnomalyRecord>)
    requires |rs| > 0 ==> |vs| == |rs|
    ensures |rs| == 0 ==> r == []
    ensures |rs| > 0 ==> IsSubsequence(r, Annotate(rs, vs))
    ensures forall a :: a in r ==> a.isAnomaly == OUTLIER
    ensures |rs| > 0 ==> forall i :: 0 <= i < |rs| && vs[i].prediction == OUTLIER ==>
                           AnomalyRecord(rs[i], vs[i].score, OUTLIER) in r
    ensures |rs| > 0 ==> |r| == Count(vs, IsOutlierVerdict)
  {
    if |rs| == 0 then []
    else
      var annotated := Annotate(rs, vs);
      FilterIsSubsequence(annotated, IsOutlier);
      AnnotatedOutliers(rs, vs);
      assert forall i :: 0 <= i < |rs| ==> annotated[i] in annotated;
      Filter(annotated, IsOutlier)
  }
}
