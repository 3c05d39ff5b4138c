/**
 * The data side of the dashboard in app.py: `process_data` (lines 52-71)
 * scores every patient and builds the cohort table, line 90 filters it by the
 * sidebar threshold, `style_risk_score` (lines 92-96) colours the score, and
 * lines 106-114 look up the selected patient.
 */
module App {
  import opened Wrappers
  import opened DataProcessing
  import opened Grouping
  import opened FeatureEngineering
  import opened Statistics

  // ---------------------------------------------------------------------------
  // X = features_df.drop(columns=['Patient ID'])
  // ---------------------------------------------------------------------------

  /** The seven feature columns of a row, in table order. */
  function Vector(f: FeatureRow): (v: seq<real>)
    ensures |v| == 7
  {
    [f.avgHr, f.maxHr, f.avgSbp, f.maxSbp, f.stdHr, f.stdSbp, f.sbpTrend]
  }

  /** Re-attaching a Patient ID to a feature vector. */
  function WithId(id: string, v: seq<real>): FeatureRow
    requires |v| == 7
  {
    FeatureRow(id, v[0], v[1], v[2], v[3], v[4], v[5], v[6])
  }

  function ModelInput(f: seq<FeatureRow>): (x: seq<seq<real>>)
    ensures |x| == |f|
  {
    seq(|f|, i requires 0 <= i < |f| => Vector(f[i]))
  }

  /** Dropping Patient ID loses nothing else: same rows, same order, every feature kept. */
  lemma ModelInputKeepsFeatures(f: seq<FeatureRow>)
    ensures |ModelInput(f)| == |f|
    ensures forall i :: 0 <= i < |f| ==> |ModelInput(f)[i]| == 7 && WithId(f[i].patientId, ModelInput(f)[i]) == f[i]
  {
  }

  // ---------------------------------------------------------------------------
  // (risk_scores * 100).astype(int)
  // ---------------------------------------------------------------------------

  /** numpy's float-to-int cast, which truncates toward zero. */
  function TruncToInt(x: real): (n: int)
    ensures 0.0 <= x ==> n as real <= x < n as real + 1.0
    ensures x < 0.0 ==> n as real - 1.0 < x <= n as real
  {
    if x >= 0.0 then x.Floor else -((-x).Floor)
  }

  function RiskScore(p: real): int {
    TruncToInt(p * 100.0)
  }

  /** A probability gives an integer score between 0 and 100, and 100 only for certainty. */
  lemma RiskScoreRange(p: real)
    requires 0.0 <= p <= 1.0
    ensures 0 <= RiskScore(p) <= 100
    ensures RiskScore(p) == 100 <==> p == 1.0
  {
  }

  /** A higher probability never gives a lower score. */
  lemma RiskScoreMonotone(p: real, q: real)
    requires 0.0 <= p <= q
    ensures RiskScore(p) <= RiskScore(q)
  {
  }

  /** The score truncates: 0.999 scores 99, where rounding would give 100. */
  lemma RiskScoreTruncates()
    ensures RiskScore(0.999) == 99 && RiskScore(0.5) == 50 && RiskScore(0.0) == 0
  {
  }

  // ---------------------------------------------------------------------------
  // cohort_df, assembled column by column
  // ---------------------------------------------------------------------------

  const RiskTrendPlaceholder: string := "→"
  const TopRiskDriverPlaceholder: string := "BP Volatility"

  datatype CohortRow = CohortRow(patientId: string, riskScore: int, riskTrend: string, topRiskDriver: string)

  /** The cohort table `process_data` builds from the feature table and the classifier. */
  function Cohort(f: seq<FeatureRow>, proba: seq<real> -> real): (c: seq<CohortRow>)
    ensures |c| == |f|
  {
    seq(|f|, i requires 0 <= i < |f| =>
      CohortRow(f[i].patientId, RiskScore(proba(Vector(f[i]))), RiskTrendPlaceholder, TopRiskDriverPlaceholder))
  }

  /** `predict_proba(X)[:, 1]` always lies in [0, 1]. */
  ghost predicate IsProbability(proba: seq<real> -> real) {
    forall v :: 0.0 <= proba(v) <= 1.0
  }

  /** One cohort row per feature row, in order, with the Patient ID copied and the placeholders set. */
  lemma CohortFollowsFeatures(f: seq<FeatureRow>, proba: seq<real> -> real)
    requires IsProbability(proba)
    ensures |Cohort(f, proba)| == |f|
    ensures forall i :: 0 <= i < |f| ==>
      var c := Cohort(f, proba)[i];
      c.patientId == f[i].patientId && 0 <= c.riskScore <= 100 &&
      c.riskTrend == "→" && c.topRiskDriver == "BP Volatility"
  {
    forall i | 0 <= i < |f| {
      RiskScoreRange(proba(Vector(f[i])));
    }
  }

  /** The cohort frame: `features_df[['Patient ID']].copy()`, then one column assignment at a time. */
  class CohortFrame {
    var patientIds: seq<string>
    var riskScores: seq<int>
    var riskTrends: seq<string>
    var topRiskDrivers: seq<string>

    constructor (ids: seq<string>)
      ensures patientIds == ids && riskScores == [] && riskTrends == [] && topRiskDrivers == []
    {
      patientIds := ids;
      riskScores := [];
      riskTrends := [];
      topRiskDrivers := [];
    }

    /** `cohort_df['Risk Score'] = ...`: a column of one value per row. */
    method SetRiskScores(scores: seq<int>)
      requires |scores| == |patientIds|
      modifies this
      ensures riskScores == scores
      ensures patientIds == old(patientIds) && riskTrends == old(riskTrends) && topRiskDrivers == old(topRiskDrivers)
    {
      riskScores := scores;
    }

    /** `cohort_df['Risk Trend'] = v`: a scalar broadcast to every row. */
    method FillRiskTrend(v: string)
      modifies this
      ensures |riskTrends| == |patientIds| && forall i :: 0 <= i < |riskTrends| ==> riskTrends[i] == v
      ensures patientIds == old(patientIds) && riskScores == old(riskScores) && topRiskDrivers == old(topRiskDrivers)
    {
      riskTrends := seq(|patientIds|, _ => v);
    }

    /** `cohort_df['Top Risk Driver'] = v`. */
    method FillTopRiskDriver(v: string)
      modifies this
      ensures |topRiskDrivers| == |patientIds| && forall i :: 0 <= i < |topRiskDrivers| ==> topRiskDrivers[i] == v
      ensures patientIds == old(patientIds) && riskScores == old(riskScores) && riskTrends == old(riskTrends)
    {
      topRiskDrivers := seq(|patientIds|, _ => v);
    }

    predicate Filled()
      reads this
    {
      |riskScores| == |patientIds| && |riskTrends| == |patientIds| && |topRiskDrivers| == |patientIds|
    }

    function Rows(): (rows: seq<CohortRow>)
      reads this
      requires Filled()
      ensures |rows| == |patientIds|
    {
      var ids, scores, trends, drivers := patientIds, riskScores, riskTrends, topRiskDrivers;
      seq(|ids|, i requires 0 <= i < |ids| => CohortRow(ids[i], scores[i], trends[i], drivers[i]))
    }
  }

  /** The cleaned table's readings, as `create_features` sees them. */
  function CleanReadings(t: seq<Row>): seq<Reading>
    requires forall i :: 0 <= i < |t| ==> Complete(t[i])
  {
    ToReadings(t)
  }

  /**
   * What `process_data` returns: the cohort and the feature table. It has
   * no result when the data file is missing (the source then fails inside
   * `create_features`, which receives `None`).
   */
  function ProcessDataResult(source: Option<seq<Row>>, proba: seq<real> -> real, sqrt: real -> real): (r: Option<(seq<CohortRow>, seq<FeatureRow>)>)
    ensures r.None? <==> source.None?
  {
    match LoadAndCleanData(source)
    case None => None
    case Some(t) =>
      var f := CreateFeatures(CleanReadings(t), sqrt);
      Some((Cohort(f, proba), f))
  }

  method ProcessData(source: Option<seq<Row>>, proba: seq<real> -> real, sqrt: real -> real)
    returns (r: Option<(seq<CohortRow>, seq<FeatureRow>)>)
    ensures r == ProcessDataResult(source, proba, sqrt)
  {
    var cleaned := LoadAndCleanData(source);
    if cleaned.None? {
      return None;
    }
    var features := CreateFeatures(CleanReadings(cleaned.value), sqrt);
    var x := ModelInput(features);
    var riskScores := seq(|x|, i requires 0 <= i < |x| => proba(x[i]));
    var frame := new CohortFrame(FeatureIds(features));
    frame.SetRiskScores(seq(|riskScores|, i requires 0 <= i < |riskScores| => RiskScore(riskScores[i])));
    frame.FillRiskTrend(RiskTrendPlaceholder);
    frame.FillTopRiskDriver(TopRiskDriverPlaceholder);
    var cohort := frame.Rows();
    assert cohort == Cohort(features, proba);
    r := Some((cohort, features));
  }

  // ---------------------------------------------------------------------------
  // filtered_df = cohort_df[cohort_df['Risk Score'] >= risk_threshold]
  // ---------------------------------------------------------------------------

  function FilterByThreshold(c: seq<CohortRow>, threshold: int): (r: seq<CohortRow>)
    ensures |r| <= |c|
    ensures forall x :: x in r <==> x in c && x.riskScore >= threshold
    decreases |c|
  {
    if c == [] then []
    else (if c[0].riskScore >= threshold then [c[0]] else []) + FilterByThreshold(c[1..], threshold)
  }

  /** The filter keeps table order: filtering a concatenation filters each part. */
  lemma {:induction false} FilterAppend(a: seq<CohortRow>, b: seq<CohortRow>, threshold: int)
    ensures FilterByThreshold(a + b, threshold) == FilterByThreshold(a, threshold) + FilterByThreshold(b, threshold)
    decreases |a|
  {
    if a == [] {
      assert a + b == b;
    } else {
      assert (a + b)[0] == a[0];
      assert (a + b)[1..] == a[1..] + b;
      FilterAppend(a[1..], b, threshold);
    }
  }

  /** A threshold no score falls below keeps the whole cohort. */
  lemma {:induction false} FilterKeepsAll(c: seq<CohortRow>, threshold: int)
    requires forall i :: 0 <= i < |c| ==> c[i].riskScore >= threshold
    ensures FilterByThreshold(c, threshold) == c
    decreases |c|
  {
    if c != [] {
      FilterKeepsAll(c[1..], threshold);
    }
  }

  /** The slider's lowest setting, 0, shows every patient. */
  lemma ThresholdZeroKeepsCohort(f: seq<FeatureRow>, proba: seq<real> -> real)
    requires IsProbability(proba)
    ensures FilterByThreshold(Cohort(f, proba), 0) == Cohort(f, proba)
  {
    CohortFollowsFeatures(f, proba);
    FilterKeepsAll(Cohort(f, proba), 0);
  }

  // ---------------------------------------------------------------------------
  // style_risk_score
  // ---------------------------------------------------------------------------

  function StyleRiskScore(score: int): (style: string)
    ensures style == "background-color: red; color: white" <==> score > 70
    ensures style == "background-color: orange; color: white" <==> 40 < score <= 70
    ensures style == "background-color: green; color: white" <==> score <= 40
  {
    var color := if score > 70 then "red" else if score > 40 then "orange" else "green";
    "background-color: " + color + "; color: white"
  }

  /** Every style keeps the text white. */
  lemma StyleEndsWhite(score: int)
    ensures var s := StyleRiskScore(score);
      |s| >= 14 && s[|s| - 14..] == "; color: white"
  {
  }

  // ---------------------------------------------------------------------------
  // Patient detail view (lines 106-114)
  // ---------------------------------------------------------------------------

  /** `df[df['Patient ID'] == id].iloc[0]`, for a table whose rows carry their Patient ID as `idOf`. */
  function FirstRowOf<T(==)>(rows: seq<T>, idOf: T -> string, id: string): (r: Option<T>)
    ensures r.Some? <==> exists i :: 0 <= i < |rows| && idOf(rows[i]) == id
    ensures r.Some? ==> r.value in rows && idOf(r.value) == id
    ensures r.Some? ==> exists i :: 0 <= i < |rows| && rows[i] == r.value && idOf(rows[i]) == id &&
                                 (forall j :: 0 <= j < i ==> idOf(rows[j]) != id)
    decreases |rows|
  {
    if rows == [] then None
    else if idOf(rows[0]) == id then Some(rows[0])
    else
      var r := FirstRowOf(rows[1..], idOf, id);
      assert forall i :: 1 <= i < |rows| ==> rows[i] == rows[1..][i - 1];
      if r.Some? then
        var i :| 0 <= i < |rows[1..]| && rows[1..][i] == r.value && idOf(rows[1..][i]) == id &&
                 (forall j :: 0 <= j < i ==> idOf(rows[1..][j]) != id);
        assert rows[i + 1] == r.value && forall j :: 0 <= j < i + 1 ==> idOf(rows[j]) != id;
        r
      else r
  }

  /**
   * The detail panel for the patient picked in the selectbox: nothing for an
   * empty (falsy) ID; otherwise the first cohort and feature rows of that
   * patient, if `.iloc[0]` finds them.
   */
  function PatientDetail(filtered: seq<CohortRow>, f: seq<FeatureRow>, selected: string): (d: Option<(CohortRow, FeatureRow)>)
    ensures d.Some? <==> selected != "" &&
                         (exists i :: 0 <= i < |filtered| && filtered[i].patientId == selected) &&
                         (exists k :: 0 <= k < |f| && f[k].patientId == selected)
    ensures d.Some? ==> d.value.0 in filtered && d.value.0.patientId == selected &&
                        d.value.1 in f && d.value.1.patientId == selected
  {
    if selected == "" then None
    else
      match (FirstRowOf(filtered, (c: CohortRow) => c.patientId, selected),
             FirstRowOf(f, (r: FeatureRow) => r.patientId, selected))
      case (Some(c), Some(r)) => Some((c, r))
      case _ => None
  }

  /** Any non-empty ID offered by the filtered table has a feature row, so both look-ups succeed. */
  lemma SelectedPatientHasFeatures(f: seq<FeatureRow>, proba: seq<real> -> real, threshold: int, i: nat)
    requires var filtered := FilterByThreshold(Cohort(f, proba), threshold);
      i < |filtered| && filtered[i].patientId != ""
    ensures var filtered := FilterByThreshold(Cohort(f, proba), threshold);
      var d := PatientDetail(filtered, f, filtered[i].patientId);
      d.Some? && d.value.0.patientId == filtered[i].patientId && d.value.0.riskScore >= threshold &&
      d.value.1.patientId == filtered[i].patientId && d.value.1 in f
  {
    var c := Cohort(f, proba);
    var filtered := FilterByThreshold(c, threshold);
    assert filtered[i] in filtered;
    var k :| 0 <= k < |c| && c[k] == filtered[i];
    assert f[k].patientId == filtered[i].patientId;
  }
}
