/**
 * `create_features` (src/feature_engineering.py): sort the cleaned readings
 * by (Patient ID, date), group them by patient, aggregate mean, max and
 * sample standard deviation of heart rate and systolic BP, fit the systolic
 * BP slope per patient, merge the two tables on Patient ID and fill the
 * remaining NaNs with 0.
 */
module FeatureEngineering {
  import opened Wrappers
  import opened PatientOrder
  import opened Statistics
  import opened Trend
  import opened Grouping
  import DataProcessing

  /** A cleaned row, read through the four columns the features use. */
  function ToReading(r: DataProcessing.Row): (x: Reading)
    requires DataProcessing.Complete(r)
    ensures Some(x.patientId) == r.patientId && Some(x.date) == r.date
    ensures Some(x.heartRate) == r.heartRate && Some(x.systolicBp) == r.systolicBp
  {
    assert DataProcessing.Cell(r, 0).Some? && DataProcessing.Cell(r, 1).Some?;
    assert DataProcessing.Cell(r, 2).Some? && DataProcessing.Cell(r, 3).Some?;
    Reading(r.patientId.value, r.date.value, r.heartRate.value, r.systolicBp.value)
  }

  function ToReadings(t: seq<DataProcessing.Row>): (s: seq<Reading>)
    requires forall i :: 0 <= i < |t| ==> DataProcessing.Complete(t[i])
    ensures |s| == |t| && forall i :: 0 <= i < |t| ==> s[i] == ToReading(t[i])
  {
    seq(|t|, i requires 0 <= i < |t| => ToReading(t[i]))
  }

  function HeartRates(g: seq<Reading>): (xs: seq<real>)
    ensures |xs| == |g| && forall i :: 0 <= i < |g| ==> xs[i] == g[i].heartRate
  {
    seq(|g|, i requires 0 <= i < |g| => g[i].heartRate)
  }

  function SystolicBps(g: seq<Reading>): (xs: seq<real>)
    ensures |xs| == |g| && forall i :: 0 <= i < |g| ==> xs[i] == g[i].systolicBp
  {
    seq(|g|, i requires 0 <= i < |g| => g[i].systolicBp)
  }

  // ---------------------------------------------------------------------------
  // grouped.agg(...): one summary per group, NaN standard deviations as None
  // ---------------------------------------------------------------------------

  datatype Summary = Summary(
    patientId: string,
    avgHr: real, maxHr: real, avgSbp: real, maxSbp: real,
    stdHr: Option<real>, stdSbp: Option<real>)

  function Summarise(g: seq<Reading>, sqrt: real -> real): Summary
    requires |g| > 0
  {
    var hr, sbp := HeartRates(g), SystolicBps(g);
    Summary(GroupId(g), Mean(hr), MaxOf(hr), Mean(sbp), MaxOf(sbp), SampleStd(hr, sqrt), SampleStd(sbp, sqrt))
  }

  // ---------------------------------------------------------------------------
  // grouped['systolic_bp'].apply(calculate_trend)
  // ---------------------------------------------------------------------------

  datatype TrendRow = TrendRow(patientId: string, sbpTrend: Option<real>)

  /** The slope of the group's systolic readings in group (date) order; no slope for a single reading. */
  function TrendOf(g: seq<Reading>): TrendRow
    requires |g| > 0
  {
    TrendRow(GroupId(g), if |g| >= 2 then Some(CalculateTrend(SystolicBps(g))) else None)
  }

  // ---------------------------------------------------------------------------
  // pd.merge(features, trends, on='Patient ID'): an inner join in left order
  // ---------------------------------------------------------------------------

  datatype Merged = Merged(
    patientId: string,
    avgHr: real, maxHr: real, avgSbp: real, maxSbp: real,
    stdHr: Option<real>, stdSbp: Option<real>, sbpTrend: Option<real>)

  function Join(l: Summary, r: TrendRow): Merged {
    Merged(l.patientId, l.avgHr, l.maxHr, l.avgSbp, l.maxSbp, l.stdHr, l.stdSbp, r.sbpTrend)
  }

  /** The joined rows for one left row: one per right row with the same key, in right order. */
  function Matches(l: Summary, rs: seq<TrendRow>): seq<Merged>
    decreases |rs|
  {
    if rs == [] then []
    else (if rs[0].patientId == l.patientId then [Join(l, rs[0])] else []) + Matches(l, rs[1..])
  }

  function Merge(ls: seq<Summary>, rs: seq<TrendRow>): seq<Merged>
    decreases |ls|
  {
    if ls == [] then [] else Matches(ls[0], rs) + Merge(ls[1..], rs)
  }

  /** Row `m` is the only row of `rs` with key `id`. */
  predicate OnlyMatch(rs: seq<TrendRow>, id: string, m: nat) {
    m < |rs| && rs[m].patientId == id && forall i :: 0 <= i < |rs| && rs[i].patientId == id ==> i == m
  }

  lemma {:induction false} MatchesOnly(l: Summary, rs: seq<TrendRow>, m: nat)
    requires OnlyMatch(rs, l.patientId, m)
    ensures Matches(l, rs) == [Join(l, rs[m])]
    decreases |rs|
  {
    if m == 0 {
      MatchesNone(l, rs[1..]);
    } else {
      assert OnlyMatch(rs[1..], l.patientId, m - 1);
      MatchesOnly(l, rs[1..], m - 1);
    }
  }

  lemma {:induction false} MatchesNone(l: Summary, rs: seq<TrendRow>)
    requires forall i :: 0 <= i < |rs| ==> rs[i].patientId != l.patientId
    ensures Matches(l, rs) == []
    decreases |rs|
  {
    if rs != [] {
      MatchesNone(l, rs[1..]);
    }
  }

  /** The left rows joined one by one with the right rows from position `off` on. */
  function Pairs(ls: seq<Summary>, rs: seq<TrendRow>, off: nat): seq<Merged>
    requires off + |ls| <= |rs|
  {
    seq(|ls|, j requires 0 <= j < |ls| => Join(ls[j], rs[off + j]))
  }

  lemma PairsCons(ls: seq<Summary>, rs: seq<TrendRow>, off: nat)
    requires ls != [] && off + |ls| <= |rs|
    ensures Pairs(ls, rs, off) == [Join(ls[0], rs[off])] + Pairs(ls[1..], rs, off + 1)
  {
    var rest := ls[1..];
    forall j | 0 <= j < |ls|
      ensures Pairs(ls, rs, off)[j] == ([Join(ls[0], rs[off])] + Pairs(rest, rs, off + 1))[j]
    {
      if j > 0 {
        assert rest[j - 1] == ls[j];
      }
    }
  }

  lemma RestOnlyMatch(ls: seq<Summary>, rs: seq<TrendRow>, off: nat)
    requires ls != []
    requires forall j :: 0 <= j < |ls| ==> OnlyMatch(rs, ls[j].patientId, off + j)
    ensures forall j :: 0 <= j < |ls| - 1 ==> OnlyMatch(rs, ls[1..][j].patientId, off + 1 + j)
  {
    forall j | 0 <= j < |ls| - 1
      ensures OnlyMatch(rs, ls[1..][j].patientId, off + 1 + j)
    {
      assert ls[1..][j] == ls[j + 1];
    }
  }

  /** When the j-th left row matches exactly the (off + j)-th right row, the merge pairs them up. */
  lemma {:induction false} MergePairs(ls: seq<Summary>, rs: seq<TrendRow>, off: nat)
    requires off + |ls| <= |rs|
    requires forall j :: 0 <= j < |ls| ==> OnlyMatch(rs, ls[j].patientId, off + j)
    ensures Merge(ls, rs) == Pairs(ls, rs, off)
    decreases |ls|
  {
    if ls != [] {
      MatchesOnly(ls[0], rs, off);
      RestOnlyMatch(ls, rs, off);
      MergePairs(ls[1..], rs, off + 1);
      PairsCons(ls, rs, off);
    }
  }

  // ---------------------------------------------------------------------------
  // fillna(0) and the feature table
  // ---------------------------------------------------------------------------

  /** A row of the feature table, in its column order. */
  datatype FeatureRow = FeatureRow(
    patientId: string,
    avgHr: real, maxHr: real, avgSbp: real, maxSbp: real,
    stdHr: real, stdSbp: real, sbpTrend: real)

  function FillNa(m: Merged): (f: FeatureRow)
    ensures f.patientId == m.patientId
    ensures f.stdHr == m.stdHr.GetOr(0.0) && f.stdSbp == m.stdSbp.GetOr(0.0) && f.sbpTrend == m.sbpTrend.GetOr(0.0)
    ensures (f.avgHr, f.maxHr, f.avgSbp, f.maxSbp) == (m.avgHr, m.maxHr, m.avgSbp, m.maxSbp)
  {
    FeatureRow(m.patientId, m.avgHr, m.maxHr, m.avgSbp, m.maxSbp,
      m.stdHr.GetOr(0.0), m.stdSbp.GetOr(0.0), m.sbpTrend.GetOr(0.0))
  }

  /** The feature row of one patient's group. */
  function Feature(g: seq<Reading>, sqrt: real -> real): FeatureRow
    requires |g| > 0
  {
    FillNa(Join(Summarise(g, sqrt), TrendOf(g)))
  }

  /** The patient groups `create_features` works on. */
  function PatientGroups(t: seq<Reading>): (gs: seq<seq<Reading>>)
    ensures forall j :: 0 <= j < |gs| ==> |gs[j]| > 0
  {
    Groups(SortReadings(t))
  }

  function CreateFeatures(t: seq<Reading>, sqrt: real -> real): seq<FeatureRow> {
    var gs := PatientGroups(t);
    var features := seq(|gs|, j requires 0 <= j < |gs| => Summarise(gs[j], sqrt));
    var trends := seq(|gs|, j requires 0 <= j < |gs| => TrendOf(gs[j]));
    var merged := Merge(features, trends);
    seq(|merged|, i requires 0 <= i < |merged| => FillNa(merged[i]))
  }

  function FeatureIds(f: seq<FeatureRow>): (ids: seq<string>)
    ensures |ids| == |f| && forall i :: 0 <= i < |f| ==> ids[i] == f[i].patientId
  {
    seq(|f|, i requires 0 <= i < |f| => f[i].patientId)
  }

  function FeatureIdSet(f: seq<FeatureRow>): set<string> {
    set i | 0 <= i < |f| :: f[i].patientId
  }

  // ---------------------------------------------------------------------------
  // Properties of the feature table
  // ---------------------------------------------------------------------------

  /** The merge is a row-by-row pairing: row j of the table is the feature row of group j. */
  lemma CreateFeaturesPerGroup(t: seq<Reading>, sqrt: real -> real)
    ensures var gs := PatientGroups(t);
      |CreateFeatures(t, sqrt)| == |gs| &&
      forall j :: 0 <= j < |gs| ==> CreateFeatures(t, sqrt)[j] == Feature(gs[j], sqrt)
  {
    var s := SortReadings(t);
    var gs := PatientGroups(t);
    var features := seq(|gs|, j requires 0 <= j < |gs| => Summarise(gs[j], sqrt));
    var trends := seq(|gs|, j requires 0 <= j < |gs| => TrendOf(gs[j]));
    SortReadingsSorted(t);
    GroupIdsAscending(s);
    var ids := GroupIds(gs);
    forall j | 0 <= j < |features|
      ensures OnlyMatch(trends, features[j].patientId, j)
    {
      forall i | 0 <= i < |trends| && trends[i].patientId == features[j].patientId
        ensures i == j
      {
        assert ids[i] == ids[j];
        LessIrreflexive(ids[i]);
      }
    }
    MergePairs(features, trends, 0);
  }

  /** One row per patient: the Patient IDs strictly ascend and are exactly those of the readings. */
  lemma {:induction false} OnePerPatient(t: seq<Reading>, sqrt: real -> real)
    ensures StrictlyAscending(FeatureIds(CreateFeatures(t, sqrt)))
    ensures FeatureIdSet(CreateFeatures(t, sqrt)) == Ids(t)
  {
    var s := SortReadings(t);
    var gs := PatientGroups(t);
    var f := CreateFeatures(t, sqrt);
    CreateFeaturesPerGroup(t, sqrt);
    SortReadingsSorted(t);
    GroupIdsAscending(s);
    assert FeatureIds(f) == GroupIds(gs);
    GroupIdsCover(s);
    SortedIds(t);
    assert FeatureIdSet(f) == GroupKeys(s) by {
      forall id | id in GroupKeys(s) ensures id in FeatureIdSet(f) {
        var j :| 0 <= j < |gs| && GroupId(gs[j]) == id;
        assert f[j].patientId == id;
      }
    }
  }

  /** Sorting keeps the set of Patient IDs. */
  lemma SortedIds(t: seq<Reading>)
    ensures Ids(SortReadings(t)) == Ids(t)
  {
    var s := SortReadings(t);
    forall id | id in Ids(t) ensures id in Ids(s) {
      var i :| 0 <= i < |t| && t[i].patientId == id;
      assert t[i] in multiset(s);
      var m :| 0 <= m < |s| && s[m] == t[i];
    }
    forall id | id in Ids(s) ensures id in Ids(t) {
      var i :| 0 <= i < |s| && s[i].patientId == id;
      assert s[i] in multiset(t);
      var m :| 0 <= m < |t| && t[m] == s[i];
    }
  }

  /**
   * Group j, from which row j is computed, holds the readings of that row's
   * patient: the same readings as the input has for the patient, ordered by date.
   */
  lemma GroupOfRow(t: seq<Reading>, j: nat)
    requires j < |PatientGroups(t)|
    ensures var g := PatientGroups(t)[j];
      multiset(g) == multiset(OfPatient(t, GroupId(g))) &&
      forall a, b :: 0 <= a < b < |g| ==> g[a].date <= g[b].date
  {
    var s := SortReadings(t);
    SortReadingsSorted(t);
    GroupIsPatient(s, j);
    OfPatientPermutation(s, t, GroupId(Groups(s)[j]));
    GroupSorted(s, j);
  }

  /** Averages lie between the group's extremes, and the maxima are the group maxima. */
  lemma FeatureBounds(g: seq<Reading>, sqrt: real -> real)
    requires |g| > 0
    ensures var f := Feature(g, sqrt);
      f.patientId == GroupId(g) &&
      MinOf(HeartRates(g)) <= f.avgHr <= f.maxHr && f.maxHr in HeartRates(g) &&
      (forall i :: 0 <= i < |g| ==> g[i].heartRate <= f.maxHr) &&
      MinOf(SystolicBps(g)) <= f.avgSbp <= f.maxSbp && f.maxSbp in SystolicBps(g) &&
      (forall i :: 0 <= i < |g| ==> g[i].systolicBp <= f.maxSbp)
  {
    MeanWithin(HeartRates(g));
    MeanWithin(SystolicBps(g));
  }

  /** The volatility features are non-negative. */
  lemma FeatureStdNonNegative(g: seq<Reading>, sqrt: real -> real)
    requires |g| > 0 && IsSqrt(sqrt)
    ensures Feature(g, sqrt).stdHr >= 0.0 && Feature(g, sqrt).stdSbp >= 0.0
  {
    if |g| >= 2 {
      SampleStdNonNegative(HeartRates(g), sqrt);
      SampleStdNonNegative(SystolicBps(g), sqrt);
    }
  }

  /** A single reading leaves std and slope undefined; fillna turns them into 0. */
  lemma FeatureOfSingleReading(g: seq<Reading>, sqrt: real -> real)
    requires |g| == 1
    ensures Feature(g, sqrt).stdHr == 0.0 && Feature(g, sqrt).stdSbp == 0.0 && Feature(g, sqrt).sbpTrend == 0.0
    ensures Feature(g, sqrt).avgHr == g[0].heartRate == Feature(g, sqrt).maxHr
  {
    MeanWithin(HeartRates(g));
  }

  /** With two or more readings, the features are the sample std and the least-squares slope. */
  lemma FeatureOfSeveralReadings(g: seq<Reading>, sqrt: real -> real)
    requires |g| >= 2
    ensures Feature(g, sqrt).stdHr == SampleStd(HeartRates(g), sqrt).value
    ensures Feature(g, sqrt).stdSbp == SampleStd(SystolicBps(g), sqrt).value
    ensures Feature(g, sqrt).sbpTrend == CalculateTrend(SystolicBps(g))
  {
  }

  /** A patient whose heart rate never changes has zero heart-rate volatility. */
  lemma FeatureConstantHeartRate(g: seq<Reading>, sqrt: real -> real)
    requires |g| > 0 && IsSqrt(sqrt)
    requires forall i :: 0 <= i < |g| ==> g[i].heartRate == g[0].heartRate
    ensures Feature(g, sqrt).stdHr == 0.0
  {
    if |g| >= 2 {
      SampleStdZeroIffConstant(HeartRates(g), sqrt);
    }
  }

  /** A patient whose systolic BP never changes has zero BP volatility and a flat trend. */
  lemma FeatureConstantSystolic(g: seq<Reading>, sqrt: real -> real)
    requires |g| > 0 && IsSqrt(sqrt)
    requires forall i :: 0 <= i < |g| ==> g[i].systolicBp == g[0].systolicBp
    ensures Feature(g, sqrt).stdSbp == 0.0 && Feature(g, sqrt).sbpTrend == 0.0
  {
    if |g| >= 2 {
      SampleStdZeroIffConstant(SystolicBps(g), sqrt);
      TrendOfConstant(SystolicBps(g), g[0].systolicBp);
    }
  }

  /** The readings of the example, out of date order, and after `sort_values`. */
  function ExampleReadings(): seq<Reading> {
    [Reading("P1", 3, 74.0, 140.0), Reading("P1", 1, 70.0, 120.0), Reading("P1", 2, 72.0, 130.0)]
  }

  function ExampleGroup(): seq<Reading> {
    [Reading("P1", 1, 70.0, 120.0), Reading("P1", 2, 72.0, 130.0), Reading("P1", 3, 74.0, 140.0)]
  }

  lemma ExampleSort()
    ensures SortReadings(ExampleReadings()) == ExampleGroup()
  {
    var t := ExampleReadings();
    LessIrreflexive("P1");
    assert t[..1][..0] == [];
    assert SortReadings(t[..1]) == [t[0]];
    assert t[..2][..1] == t[..1];
    assert KeyLess(t[1], t[0]);
    assert SortReadings(t[..2]) == Insert(t[1], [t[0]]) == [t[1], t[0]];
    assert KeyLess(t[2], t[0]) && !KeyLess(t[2], t[1]);
    assert Insert(t[2], [t[0]]) == [t[2], t[0]];
    assert [t[1], t[0]][1..] == [t[0]];
    assert Insert(t[2], [t[1], t[0]]) == [t[1]] + Insert(t[2], [t[0]]);
    assert t[..3] == t;
  }

  lemma ExampleRun()
    ensures RunLength(ExampleGroup(), "P1") == 3
  {
    var g := ExampleGroup();
    assert g[1..][1..][1..] == [];
    assert RunLength(g[1..][1..], "P1") == 1;
  }

  lemma ExampleOneGroup()
    ensures Groups(ExampleGroup()) == [ExampleGroup()]
  {
    var g := ExampleGroup();
    ExampleRun();
    assert g[3..] == [] && g[..3] == g;
  }

  lemma ExampleSortsByDate()
    ensures PatientGroups(ExampleReadings()) == [ExampleGroup()]
  {
    ExampleSort();
    ExampleOneGroup();
  }

  lemma SumOfThree(a: real, b: real, c: real)
    ensures Sum([a, b, c]) == a + b + c
  {
    assert [a][..0] == [];
    assert Sum([a]) == a;
    assert [a, b][..1] == [a];
    assert Sum([a, b]) == a + b;
    assert [a, b, c][..2] == [a, b];
  }

  lemma MaxOfThree(a: real, b: real, c: real)
    requires a <= b <= c
    ensures MaxOf([a, b, c]) == c
  {
    assert [a, b, c][..2] == [a, b];
    assert [a, b][..1] == [a];
  }

  lemma SquaredDeviationsOfThree(a: real, b: real, c: real, m: real)
    ensures SquaredDeviations([a, b, c], m) == Sq(a - m) + Sq(b - m) + Sq(c - m)
  {
    assert [a][..0] == [];
    assert SquaredDeviations([a], m) == Sq(a - m);
    assert [a, b][..1] == [a];
    assert SquaredDeviations([a, b], m) == Sq(a - m) + Sq(b - m);
    assert [a, b, c][..2] == [a, b];
  }

  lemma ExampleHeartRates(sqrt: real -> real)
    ensures var hr := HeartRates(ExampleGroup());
      Mean(hr) == 72.0 && MaxOf(hr) == 74.0 && SampleStd(hr, sqrt) == Some(sqrt(4.0))
  {
    var hr := HeartRates(ExampleGroup());
    assert hr == [70.0, 72.0, 74.0];
    SumOfThree(70.0, 72.0, 74.0);
    MaxOfThree(70.0, 72.0, 74.0);
    SquaredDeviationsOfThree(70.0, 72.0, 74.0, 72.0);
  }

  lemma ExampleSystolicBps(sqrt: real -> real)
    ensures var sbp := SystolicBps(ExampleGroup());
      Mean(sbp) == 130.0 && MaxOf(sbp) == 140.0 && SampleStd(sbp, sqrt) == Some(sqrt(100.0)) &&
      CalculateTrend(sbp) == 10.0
  {
    var sbp := SystolicBps(ExampleGroup());
    assert sbp == [120.0, 130.0, 140.0];
    TrendExample();
    SumOfThree(120.0, 130.0, 140.0);
    MaxOfThree(120.0, 130.0, 140.0);
    SquaredDeviationsOfThree(120.0, 130.0, 140.0, 130.0);
  }

  lemma ExampleFeature(sqrt: real -> real)
    ensures Feature(ExampleGroup(), sqrt) == FeatureRow("P1", 72.0, 74.0, 130.0, 140.0, sqrt(4.0), sqrt(100.0), 10.0)
  {
    ExampleHeartRates(sqrt);
    ExampleSystolicBps(sqrt);
  }

  /** Readings listed out of date order are sorted first: 120, 130, 140 by date gives slope 10. */
  lemma TrendFollowsDates(sqrt: real -> real)
    ensures CreateFeatures(ExampleReadings(), sqrt) ==
      [FeatureRow("P1", 72.0, 74.0, 130.0, 140.0, sqrt(4.0), sqrt(100.0), 10.0)]
  {
    ExampleSortsByDate();
    CreateFeaturesPerGroup(ExampleReadings(), sqrt);
    ExampleFeature(sqrt);
  }

  /** Two readings with the same key come out of the sort as they went in. */
  lemma SortTiedPair(a: Reading, b: Reading)
    requires SameKey(a, b)
    ensures SortReadings([a, b]) == [a, b]
  {
    KeyLessIrreflexive(a);
    assert [a, b][..1] == [a] && [a][..0] == [];
    assert SortReadings([a]) == [a];
    assert Insert(b, [a]) == [a] + Insert(b, []);
  }

  /** The slope of two readings is their difference. */
  lemma TrendOfPair(y0: real, y1: real)
    ensures CalculateTrend([y0, y1]) == y1 - y0
  {
    var ys := Line(y0, y1 - y0, 2);
    assert ys[0] == y0 && ys[1] == y0 + (y1 - y0) * 1.0 == y1;
    assert [y0, y1] == ys;
    TrendOfLine(y0, y1 - y0, 2);
  }

  /**
   * Two readings of one patient on the same day keep their input order
   * through the sort, and that order decides the slope: 120 then 140 gives
   * 20, 140 then 120 gives -20.
   */
  lemma TiedReadingsDecideTrend()
    ensures var a, b := Reading("P1", 1, 70.0, 120.0), Reading("P1", 1, 72.0, 140.0);
      SortReadings([a, b]) == [a, b] && SortReadings([b, a]) == [b, a] &&
      CalculateTrend(SystolicBps([a, b])) == 20.0 && CalculateTrend(SystolicBps([b, a])) == -20.0
  {
    var a, b := Reading("P1", 1, 70.0, 120.0), Reading("P1", 1, 72.0, 140.0);
    SortTiedPair(a, b);
    SortTiedPair(b, a);
    assert SystolicBps([a, b]) == [120.0, 140.0];
    assert SystolicBps([b, a]) == [140.0, 120.0];
    TrendOfPair(120.0, 140.0);
    TrendOfPair(140.0, 120.0);
  }
}
