# Patient risk pipeline, modelled in Dafny

This project models the data core of a patient risk-prediction engine. The
core has four steps:

1. Loading and cleaning a table of patient vital signs (`load_and_clean_data`).
   Cells left empty are forward-filled, then incomplete rows are dropped.
2. Engineering one feature row per patient (`create_features`). The steps are:
   - sort by Patient ID and date;
   - group by patient;
   - aggregate mean, max and sample standard deviation of heart rate and
     systolic BP;
   - fit the least-squares slope of systolic BP over reading index;
   - inner-merge the aggregates with the slopes on Patient ID;
   - fill NaN with 0.
3. The dashboard's data side (`process_data`, the threshold filter,
   `style_risk_score`, the patient detail look-up). It builds the model
   input by dropping Patient ID, turns the classifier's probability into an
   integer risk score, assembles the cohort table column by column, keeps
   the patients at or above the slider threshold, colours each score, and
   finds the selected patient's rows.
4. The training script's data preparation. It adds the dummy `deteriorated`
   label: 1 when a patient's systolic-BP volatility is strictly above the
   cohort mean. It then splits off X and y.

Modules, one file each:
- `Wrappers`: `Option`.
- `DataProcessing`: rows with optional cells, forward-fill, `dropna`, the loader.
- `PatientOrder`: the lexicographic order on Patient ID strings.
- `Statistics`: sum, mean, max and min, and sample variance and std.
- `Trend`: `calculate_trend` and its least-squares properties.
- `Grouping`: the stable sort and the runs that form `groupby` groups.
- `FeatureEngineering`: aggregation, merge, `fillna`, `create_features`.
- `App`: `process_data`, the filter, the styling and the detail look-up.
- `TrainModel`: the label and the X/y split.

Three operations are written as imperative Dafny:
- `DataProcessing.ForwardFill` renders `df.ffill()` as a loop that carries
  the last filled row. `ffill` builds a new frame, and so does the loop: it
  appends each filled row to a new sequence.
- `App.CohortFrame` is the cohort frame. The source assigns its columns in
  place, and the model has one method per column assignment.
- `TrainModel.TrainingFrame` gains its `deteriorated` column in place, as
  the source's frame does.

Each of these is proved equal to a function, and the lemmas are proved about
that function.

External parts of the system are parameters:
- The classifier is `proba`, one probability per feature vector.
- numpy's square root is `sqrt`. Lemmas that need it to be exact require
  `Statistics.IsSqrt`.
- The CSV file is `source`, which is `None` when the file is missing.

Two choices follow the code:
- The risk score truncates toward zero, as `astype(int)` does (0.999 scores
  99, not 100).
- When the loader finds no file, the training script stops. The dashboard
  instead passes `None` on to `create_features`, where it would fail; the
  model returns `None` at that point.

## Model

| member | source | states |
|---|---|---|
| DataProcessing.Ffill | src/data_processing.py:20 | `df.ffill()` over the whole table, column by column: a scan from a blank carry in which each row is filled from the filled row above it; its properties are the lemmas below |
| DataProcessing.ForwardFill | src/data_processing.py:20 | the loop that carries the last filled row computes exactly `Ffill` |
| DataProcessing.FfillKeepsPresent | src/data_processing.py:20 | forward-fill keeps the row count and every row's width, and never changes a cell that was present |
| DataProcessing.FfillMissingIff | src/data_processing.py:20 | a cell is still missing after forward-fill iff it and every cell above it in its column were missing |
| DataProcessing.FfillTakesNearestAbove | src/data_processing.py:20 | a filled cell holds the value of the nearest present cell at or above it in the same column |
| DataProcessing.FfillIdempotent | src/data_processing.py:20 | forward-filling twice gives the same table as forward-filling once |
| DataProcessing.FfillCrossesPatients | src/data_processing.py:20 | the fill is not per patient: a second patient's first missing reading takes the previous patient's value |
| DataProcessing.DropNa | src/data_processing.py:21 | the kept rows are complete and are exactly the complete rows of the input; none are added |
| DataProcessing.DropNaAppend | src/data_processing.py:21 | `dropna` keeps row order: dropping from a concatenation drops from each part |
| DataProcessing.FfillCompleteIff | src/data_processing.py:20-21 | a filled row is complete iff every column has had a value at or above it |
| DataProcessing.CleanIsSuffix | src/data_processing.py:20-21 | the cleaned table is a suffix of the filled one: only leading rows are ever dropped |
| DataProcessing.LoadAndCleanData | src/data_processing.py:13-27 | no table iff the file is missing; otherwise at most as many rows as read, all complete |
| PatientOrder.Less | src/feature_engineering.py:15 | Python's `<` on Patient ID strings: lexicographic by character code, a proper prefix first; that it is a strict total order is the next three rows |
| PatientOrder.LessTotal | src/feature_engineering.py:15 | any two distinct Patient IDs are ordered one way or the other |
| PatientOrder.LessTransitive | src/feature_engineering.py:15 | the Patient ID order is transitive |
| PatientOrder.LessAsymmetric | src/feature_engineering.py:15 | no two Patient IDs are each below the other |
| Grouping.SortReadings | src/feature_engineering.py:15 | the sort is a permutation of the readings |
| Grouping.SortReadingsSorted | src/feature_engineering.py:15 | the result is ordered by Patient ID, then by date |
| Grouping.SortReadingsStable | src/feature_engineering.py:15 | the sort is stable: the readings of any one (Patient ID, date) key come out in their input order |
| Grouping.InsertSorted | src/feature_engineering.py:15 | inserting into a sorted table keeps it sorted |
| Grouping.GroupsPartition | src/feature_engineering.py:18 | concatenating the groups gives back the sorted table |
| Grouping.Groups | src/feature_engineering.py:18 | every group is non-empty and holds readings of one patient |
| Grouping.GroupIdsAscending | src/feature_engineering.py:18 | on a sorted table, group Patient IDs strictly ascend, so no patient has two groups |
| Grouping.GroupIdsCover | src/feature_engineering.py:18 | the group Patient IDs are exactly the Patient IDs of the table |
| Grouping.GroupIsPatient | src/feature_engineering.py:15-18 | on a sorted table each group is exactly that patient's readings |
| Grouping.GroupSorted | src/feature_engineering.py:15-18 | each group is in date order |
| Grouping.OfPatient | src/feature_engineering.py:15-18 | the readings of one patient, in table order: each has that Patient ID and there are no more than in the table; `GroupIsPatient` says a group is exactly this selection |
| Grouping.OfPatientPermutation | src/feature_engineering.py:15-18 | a patient's readings are the same multiset before and after the sort |
| Statistics.MaxOf | src/feature_engineering.py:23 | the maximum is one of the values and no value exceeds it |
| Statistics.MeanWithin | src/feature_engineering.py:22 | the mean lies between the minimum and the maximum |
| Statistics.MeanOfConstant | src/feature_engineering.py:22 | the mean of equal values is that value |
| Statistics.SampleVariance | src/feature_engineering.py:28-29 | undefined (NaN) iff fewer than two values; otherwise non-negative |
| Statistics.SquaredDeviationsZeroIff | src/feature_engineering.py:28-29 | the squared deviations from c vanish iff every value equals c |
| Statistics.SampleStd | src/feature_engineering.py:28-29 | the standard deviation is undefined iff there are fewer than two values |
| Statistics.SampleStdZeroIffConstant | src/feature_engineering.py:28-29 | with two or more values and an exact root, the std is 0 iff all values are equal |
| Trend.CalculateTrend | src/feature_engineering.py:33-39 | for two or more readings, the slope is the index-weighted cross sum about the mean over the spread of the indices; the rows below prove it is the least-squares slope |
| Trend.TrendSolvesNormalEquations | src/feature_engineering.py:33-39 | the slope with its intercept leaves residuals summing to 0 and orthogonal to the index: it is the least-squares line's slope |
| Trend.SpreadPositive | src/feature_engineering.py:35-38 | the spread of the indices is never negative, and is positive for two or more readings, so the slope's division is defined |
| Trend.CrossSplit | src/feature_engineering.py:38 | when each deviation from ȳ is a residual plus m times the index deviation, the cross sum splits into the residuals' cross sum plus m times the spread |
| Trend.NormalEquations | src/feature_engineering.py:38 | a line through (x̄, ȳ) whose slope balances cross sum and spread leaves residuals summing to 0 and orthogonal to the index |
| Trend.CrossOfLine | src/feature_engineering.py:35-38 | for readings on a line a + b·i, the cross sum over every prefix is b times the spread |
| Trend.TrendOfLine | src/feature_engineering.py:33-39 | readings on a line a + b·i have slope exactly b |
| Trend.TrendOfConstant | src/feature_engineering.py:33-39 | a constant series has slope 0 |
| Trend.TrendOfIncreasing | src/feature_engineering.py:33-39 | a strictly increasing series has a positive slope |
| Trend.TrendOfShift | src/feature_engineering.py:33-39 | adding a constant to every reading leaves the slope unchanged |
| Trend.TrendExample | src/feature_engineering.py:33-39 | the readings 120, 130, 140 have slope 10 |
| FeatureEngineering.Summarise | src/feature_engineering.py:20-30 | one `agg` row per group: its Patient ID, mean and max of heart rate and systolic BP, and their sample std, undefined (NaN) for a single reading; `FeatureBounds` and `FeatureStdNonNegative` bound it |
| FeatureEngineering.TrendOf | src/feature_engineering.py:41 | the group's slope over its readings in date order, undefined (NaN) for a single reading |
| FeatureEngineering.Merge | src/feature_engineering.py:44 | the inner merge on Patient ID: in left order, one joined row for each right row with the same key |
| FeatureEngineering.MergePairs | src/feature_engineering.py:44 | when each left key has exactly one match, in the same position, the inner merge pairs the rows one by one |
| FeatureEngineering.FillNa | src/feature_engineering.py:47 | every undefined feature becomes 0 and defined features are kept |
| FeatureEngineering.CreateFeatures | src/feature_engineering.py:15-50 | sort, group, aggregate, fit the slopes, merge and fill; the next rows prove what the table holds |
| FeatureEngineering.CreateFeaturesPerGroup | src/feature_engineering.py:15-47 | there is one feature row per group, in group order, and row j is computed from group j |
| FeatureEngineering.OnePerPatient | src/feature_engineering.py:15-47 | feature Patient IDs strictly ascend and are exactly the Patient IDs of the readings |
| FeatureEngineering.GroupOfRow | src/feature_engineering.py:15-18 | the group behind row j holds exactly that patient's readings, ordered by date |
| FeatureEngineering.FeatureBounds | src/feature_engineering.py:20-25 | each mean lies between the group's minimum and maximum, and each maximum is a reading and bounds all readings |
| FeatureEngineering.FeatureStdNonNegative | src/feature_engineering.py:28-29 | both volatilities are non-negative |
| FeatureEngineering.FeatureOfSingleReading | src/feature_engineering.py:28-47 | a single reading gives std 0 and trend 0 after `fillna`, and mean heart rate = max = that reading |
| FeatureEngineering.FeatureOfSeveralReadings | src/feature_engineering.py:28-41 | two or more readings give the sample std and the least-squares slope |
| FeatureEngineering.FeatureConstantSystolic | src/feature_engineering.py:29-41 | an unchanging systolic BP gives zero volatility and a flat trend |
| FeatureEngineering.FeatureConstantHeartRate | src/feature_engineering.py:28 | an unchanging heart rate gives zero heart-rate volatility |
| FeatureEngineering.TrendFollowsDates | src/feature_engineering.py:15-47 | readings recorded out of date order are sorted first, so 140, 120, 130 on days 3, 1, 2 give slope 10 |
| FeatureEngineering.SortTiedPair | src/feature_engineering.py:15 | two readings with the same Patient ID and date come out of the sort in input order |
| FeatureEngineering.TrendOfPair | src/feature_engineering.py:33-39 | the slope of two readings is the second minus the first |
| FeatureEngineering.TiedReadingsDecideTrend | src/feature_engineering.py:15-41 | for two readings of one patient on one day, input order 120, 140 gives `sbp_trend` 20 and order 140, 120 gives -20 |
| App.ModelInput | app.py:58 | one feature vector per feature row, in row order; its contents are the next row |
| App.ModelInputKeepsFeatures | app.py:58 | dropping Patient ID keeps every row in order, with all seven features recoverable |
| App.TruncToInt | app.py:65 | the cast truncates toward zero: the result is within one of x, on the zero side |
| App.RiskScore | app.py:65 | `(p * 100).astype(int)`: the probability scaled to a percentage and truncated toward zero; the next rows bound it |
| App.RiskScoreRange | app.py:65 | a probability gives a score in [0, 100], and 100 only for probability 1 |
| App.RiskScoreMonotone | app.py:65 | a higher probability never gives a lower score |
| App.RiskScoreTruncates | app.py:65 | 0.999 scores 99 and 0.5 scores 50 |
| App.Cohort | app.py:63-69 | the cohort table, with exactly one row per feature row |
| App.CohortFrame.constructor | app.py:64 | `features_df[['Patient ID']].copy()`: the Patient ID column and no other column yet |
| App.CohortFrame.SetRiskScores | app.py:65 | the Risk Score column becomes the given scores, one per row, and nothing else changes |
| App.CohortFrame.FillRiskTrend | app.py:68 | the Risk Trend column holds the value on every row, and nothing else changes |
| App.CohortFrame.FillTopRiskDriver | app.py:69 | the Top Risk Driver column holds the value on every row, and nothing else changes |
| App.CohortFollowsFeatures | app.py:61-69 | one cohort row per feature row, in order, with the Patient ID copied, the score in [0, 100] and both placeholders |
| App.ProcessDataResult | app.py:52-71 | no result iff the data file is missing |
| App.ProcessData | app.py:52-71 | assembling the frame column by column yields exactly the cohort and feature tables of `ProcessDataResult` |
| App.FilterByThreshold | app.py:90 | a row is kept iff it is in the cohort and its score is at least the threshold; nothing is added |
| App.FilterAppend | app.py:90 | the filter keeps table order |
| App.ThresholdZeroKeepsCohort | app.py:83-90 | the slider's lowest value, 0, keeps the whole cohort |
| App.StyleRiskScore | app.py:92-96 | red iff score > 70, orange iff 40 < score <= 70, green iff score <= 40, all on white text |
| App.StyleEndsWhite | app.py:96 | every style ends with `; color: white` |
| App.FirstRowOf | app.py:113-114 | a row is found iff some row has the Patient ID, and it is the first row that has it, as `.iloc[0]` returns |
| App.PatientDetail | app.py:112-114 | a detail exists iff the ID is non-empty and both tables have a row with it; the rows shown are from those tables and have that ID |
| App.SelectedPatientHasFeatures | app.py:106-114 | any non-empty Patient ID offered by the filtered table finds its cohort row, with score at least the threshold, and its feature row |
| TrainModel.Deteriorated | src/train_model.py:27 | one label per feature row, each 0 or 1 |
| TrainModel.DeterioratedIff | src/train_model.py:26-27 | label 1 iff `std_sbp` is strictly above the cohort mean, label 0 otherwise |
| TrainModel.DeterioratedMonotone | src/train_model.py:26-27 | a patient with no more volatility than another never gets the higher label |
| TrainModel.SomePatientStable | src/train_model.py:26-27 | in a non-empty cohort some patient is labelled 0 |
| TrainModel.ConstantVolatilityAllStable | src/train_model.py:26-27 | if every `std_sbp` is equal, every label is 0 |
| TrainModel.SomeDeterioratedIff | src/train_model.py:26-27 | some patient is labelled 1 iff the `std_sbp` values are not all equal |
| TrainModel.TrainingData | src/train_model.py:15-32 | nothing iff the data file is missing; otherwise X and y have one entry per patient |
| TrainModel.TrainingFrame.AddDeterioratedColumn | src/train_model.py:26-27 | the frame gains `deteriorated`, the labels of its rows, and its feature columns are unchanged |
| TrainModel.PrepareTrainingData | src/train_model.py:15-32 | adding the column in place and splitting yields exactly `TrainingData` |
| TrainModel.TrainingMatchesApp | src/train_model.py:31-32 | for the same data, training X equals the dashboard's X column for column, and y has one label per cohort row |

## Left out

- Reading the CSV and `pd.to_datetime`: a table is given as rows with optional cells, and dates are integer day numbers. `FileNotFoundError` is the `None` source; other read errors are not modelled.
- Unparseable dates: `pd.to_datetime` (src/data_processing.py:17) raises on a date it cannot parse, and only `FileNotFoundError` is caught (line 25), so the exception reaches the dashboard (app.py:54) and the training script (src/train_model.py:15). With integer dates the model has no such input and leaves that error path out.
- The `print` calls are console output only.
- Floating point: all arithmetic is on mathematical reals. NaN is `None`, and the source's float64 rounding, overflow and infinities are not modelled.
- `np.sqrt` is the `sqrt` parameter. Lemmas about standard deviations assume it is exact (`Statistics.IsSqrt`).
- `np.polyfit` is modelled by the closed-form least-squares slope. For a single reading it is treated as NaN and filled with 0, which is what the feature table shows. numpy, depending on version, may warn or raise instead.
- Grouping.SortReadings: rows with equal Patient ID and date keep their input order (`Grouping.SortReadingsStable`), as pandas' multi-key sort keeps them. That order is not otherwise fixed by the source, and it changes `sbp_trend`: two readings of one day, 120 then 140, give slope 20, and in the other order -20 (`FeatureEngineering.TiedReadingsDecideTrend`).
- The classifier (`joblib`/XGBoost `predict_proba`) is the `proba` parameter and is assumed to score each row independently. Model download, caching, `st.stop` and the training calls (`train_test_split`, fitting, AUC, saving) are not modelled.
- App.ProcessDataResult: it returns `None` when the file is missing. The source instead fails with an exception inside `create_features`.
- App.PatientDetail: the Streamlit selectbox is the `selected` argument. `.iloc[0]` on an empty selection, which the source would fail on, gives `None` here. `App.SelectedPatientHasFeatures` shows this never happens for an ID the filtered table offers.
- The Streamlit page (title, sidebar widgets, `st.dataframe`, metrics, warnings) and the duplicate dashboard in app/app.py, which runs on random dummy data.
- TrainModel.Deteriorated: on an empty feature table pandas compares against a NaN mean. The model simply gives no labels, which is the same result.
