/**
 * The data preparation of the training script, src/train_model.py lines
 * 15-32: clean, engineer features, add the dummy `deteriorated` target in
 * place, and split off X and y.
 */
module TrainModel {
  import opened Wrappers
  import opened DataProcessing
  import opened Statistics
  import opened FeatureEngineering
  import App

  function StdSbps(f: seq<FeatureRow>): (s: seq<real>)
    ensures |s| == |f| && forall i :: 0 <= i < |f| ==> s[i] == f[i].stdSbp
  {
    seq(|f|, i requires 0 <= i < |f| => f[i].stdSbp)
  }

  /**
   * `(std_sbp > std_sbp.mean()).astype(int)`, one label per row. An empty
   * table has no rows and so no labels.
   */
  function Deteriorated(f: seq<FeatureRow>): (y: seq<int>)
    ensures |y| == |f|
    ensures forall i :: 0 <= i < |y| ==> y[i] == 0 || y[i] == 1
  {
    if f == [] then []
    else
      var avg := Mean(StdSbps(f));
      seq(|f|, i requires 0 <= i < |f| => if f[i].stdSbp > avg then 1 else 0)
  }

  /** The label is 1 exactly when the patient's SBP volatility is strictly above the cohort mean. */
  lemma DeterioratedIff(f: seq<FeatureRow>, i: nat)
    requires i < |f|
    ensures Deteriorated(f)[i] == 1 <==> f[i].stdSbp > Mean(StdSbps(f))
    ensures Deteriorated(f)[i] == 0 <==> f[i].stdSbp <= Mean(StdSbps(f))
  {
  }

  /** A patient with no more volatility than another never gets the higher label. */
  lemma DeterioratedMonotone(f: seq<FeatureRow>, i: nat, j: nat)
    requires i < |f| && j < |f| && f[i].stdSbp <= f[j].stdSbp
    ensures Deteriorated(f)[i] <= Deteriorated(f)[j]
  {
  }

  /** In a non-empty cohort the least volatile patient is labelled 0. */
  lemma SomePatientStable(f: seq<FeatureRow>)
    requires |f| > 0
    ensures exists i :: 0 <= i < |f| && Deteriorated(f)[i] == 0
  {
    var s := StdSbps(f);
    MeanWithin(s);
    var k :| 0 <= k < |s| && s[k] == MinOf(s);
    assert Deteriorated(f)[k] == 0;
  }

  /** When every patient has the same volatility, every label is 0. */
  lemma ConstantVolatilityAllStable(f: seq<FeatureRow>)
    requires |f| > 0
    requires forall i :: 0 <= i < |f| ==> f[i].stdSbp == f[0].stdSbp
    ensures forall i :: 0 <= i < |f| ==> Deteriorated(f)[i] == 0
  {
    MeanOfConstant(StdSbps(f), f[0].stdSbp);
  }

  /** Some patient is labelled 1 exactly when the volatilities are not all equal. */
  lemma SomeDeterioratedIff(f: seq<FeatureRow>)
    requires |f| > 0
    ensures (exists i :: 0 <= i < |f| && Deteriorated(f)[i] == 1) <==>
            (exists i, j :: 0 <= i < |f| && 0 <= j < |f| && f[i].stdSbp != f[j].stdSbp)
  {
    var s := StdSbps(f);
    MeanWithin(s);
    var lo :| 0 <= lo < |s| && s[lo] == MinOf(s);
    var hi :| 0 <= hi < |s| && s[hi] == MaxOf(s);
    if exists i :: 0 <= i < |f| && Deteriorated(f)[i] == 1 {
      var i :| 0 <= i < |f| && Deteriorated(f)[i] == 1;
      assert f[i].stdSbp != f[lo].stdSbp;
    }
    if exists i, j :: 0 <= i < |f| && 0 <= j < |f| && f[i].stdSbp != f[j].stdSbp {
      var i, j :| 0 <= i < |f| && 0 <= j < |f| && f[i].stdSbp != f[j].stdSbp;
      var k := if s[i] < s[j] then i else j;
      MeanBelowMax(s, k);
      assert Deteriorated(f)[hi] == 1;
    }
  }

  /** `features_df` while the script works on it: the feature columns and, once added, `deteriorated`. */
  class TrainingFrame {
    var rows: seq<FeatureRow>
    var deteriorated: Option<seq<int>>

    constructor (f: seq<FeatureRow>)
      ensures rows == f && deteriorated == None
    {
      rows := f;
      deteriorated := None;
    }

    /** `features_df['deteriorated'] = ...`: a new column, the feature columns untouched. */
    method AddDeterioratedColumn()
      modifies this
      ensures rows == old(rows)
      ensures deteriorated == Some(Deteriorated(rows))
    {
      deteriorated := Some(Deteriorated(rows));
    }
  }

  /** What lines 15-32 produce: nothing when loading failed, else the model input X and the target y. */
  function TrainingData(source: Option<seq<Row>>, sqrt: real -> real): (r: Option<(seq<seq<real>>, seq<int>)>)
    ensures r.None? <==> source.None?
    ensures r.Some? ==> |r.value.0| == |r.value.1|
  {
    match LoadAndCleanData(source)
    case None => None
    case Some(t) =>
      var f := CreateFeatures(ToReadings(t), sqrt);
      Some((App.ModelInput(f), Deteriorated(f)))
  }

  method PrepareTrainingData(source: Option<seq<Row>>, sqrt: real -> real)
    returns (r: Option<(seq<seq<real>>, seq<int>)>)
    ensures r == TrainingData(source, sqrt)
  {
    var clean := LoadAndCleanData(source);
    if clean.None? {
      return None;
    }
    var frame := new TrainingFrame(CreateFeatures(ToReadings(clean.value), sqrt));
    frame.AddDeterioratedColumn();
    var x := App.ModelInput(frame.rows);
    var y := frame.deteriorated.value;
    r := Some((x, y));
  }

  /**
   * The model is trained on the columns the dashboard later feeds it: for the
   * same data file, the training X is exactly the app's X, feature by
   * feature, and y labels those rows in order.
   */
  lemma TrainingMatchesApp(source: Option<seq<Row>>, proba: seq<real> -> real, sqrt: real -> real)
    requires source.Some?
    ensures var train := TrainingData(source, sqrt).value;
      var app := App.ProcessDataResult(source, proba, sqrt).value;
      train.0 == App.ModelInput(app.1) && |train.1| == |app.0|
  {
  }
}
