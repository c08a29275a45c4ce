/**
 * The inference-time rules of `WeatherPredictor` in `model/rand_forest.py`,
 * as functions of the predictor's stored state: label encoding with the
 * `'Unknown'` fallback, imputation of the weather columns from location,
 * seasonal and global statistics, and the feature row in training order.
 * The trained forest, the scaler and the statistics themselves are inputs.
 */
module ForestFeatures {
  import opened Wrappers
  import opened LabelOrder
  import opened SeqFacts

  /** The label that stands in for missing and unseen categorical values. */
  const Unknown: string := "Unknown"

  const NumericFeatures: seq<string> := [
    "MinTemp", "MaxTemp", "Rainfall", "Evaporation", "Sunshine",
    "WindGustSpeed", "WindSpeed9am", "WindSpeed3pm",
    "Humidity9am", "Humidity3pm",
    "Pressure9am", "Pressure3pm",
    "Cloud9am", "Cloud3pm",
    "Temp9am", "Temp3pm"
  ]

  /** The categorical weather columns imputed from a location's modes. */
  const CategoricalFeatures: seq<string> := ["WindGustDir", "WindDir9am", "WindDir3pm", "RainToday"]

  /** The columns label-encoded at training time. */
  const CategoricalColumns: seq<string> := ["Location", "WindGustDir", "WindDir9am", "WindDir3pm", "RainToday"]

  /** The keys of the temporal feature dictionary, in insertion order. */
  const TemporalFeatures: seq<string> := [
    "day_of_year_sin", "day_of_year_cos", "month", "month_sin", "month_cos",
    "day_of_week_sin", "day_of_week_cos", "days_from_reference"
  ]

  /**
   * The order in which training assembles the feature matrix's columns:
   * 29 names, each a key of the inference feature dictionary.
   */
  function TrainingFeatureOrder(): (names: seq<string>)
    ensures |names| == 29
    ensures forall k :: 0 <= k < |names| ==> IsFeatureName(names[k])
  {
    TemporalFeatures + CategoricalColumns + NumericFeatures
  }

  /** Reasons the predictor raises. */
  datatype Error =
    | NotFitted
    | MissingDateOrLocation
    | MissingTarget
    | MissingCategoricalColumn
    | MissingNumericColumn
    | UnseenLabels(column: string)
    | MissingFeature(name: string)
    | NoFeatures
    | LengthMismatch
    | NoSamples
    | NonNumericFeature

  /** A pandas column of labels: `None` is a missing value. */
  type Column = seq<Option<string>>

  /** The label columns of a DataFrame, by name. */
  type Frame = map<string, Column>

  /** The mean, standard deviation and median pandas gave a numeric column. */
  datatype ColumnStats = ColumnStats(mean: real, std: real, median: real)

  /**
   * `location_stats[location]`: numeric columns' statistics, categorical
   * columns' modes, and the per-month means under the key `'seasonal'`.
   */
  datatype LocationStats = LocationStats(
    numeric: map<string, ColumnStats>,
    modes: map<string, string>,
    seasonal: Option<map<int, map<string, real>>>)

  /** `global_stats`: numeric columns' statistics and categorical modes. */
  datatype GlobalStats = GlobalStats(numeric: map<string, ColumnStats>, modes: map<string, string>)

  /** The fields of `WeatherPredictor` that inference reads. */
  datatype PredictorState = PredictorState(
    labelEncoders: map<string, set<string>>,
    locationStats: map<string, LocationStats>,
    globalStats: GlobalStats,
    featureColumns: seq<string>,
    isFitted: bool)

  /**
   * One date as inference sees it: its month and its temporal feature
   * values (the sine and cosine encodings are computed elsewhere).
   */
  datatype DateInfo = DateInfo(
    month: int,
    dayOfYearSin: real, dayOfYearCos: real,
    monthSin: real, monthCos: real,
    dayOfWeekSin: real, dayOfWeekCos: real,
    daysFromReference: real)

  /** One entry of the feature matrix: a number, or a location name left unencoded. */
  datatype Feature = Num(x: real) | Text(s: string)

  // ---------------------------------------------------------------------
  // Label encoding (`_encode_categorical`)
  // ---------------------------------------------------------------------

  /** `fillna('Unknown')`. */
  function Fill(e: Option<string>): string {
    if e.None? then Unknown else e.value
  }

  /** `fillna('Unknown')`, then `x if x in classes_ else 'Unknown'`. */
  function Substitute(classes: set<string>, e: Option<string>): string {
    if Fill(e) in classes then Fill(e) else Unknown
  }

  /** Whether some entry would reach `transform` as a label the encoder lacks. */
  predicate HasUnencodable(classes: set<string>, column: Column) {
    exists k :: 0 <= k < |column| && Substitute(classes, column[k]) !in classes
  }

  /** `transform` after the substitution; it raises on a label outside `classes_`. */
  function EncodeColumn(name: string, classes: set<string>, column: Column): (r: Result<seq<nat>, Error>)
    ensures r.Success? ==> |r.value| == |column|
    ensures r.Failure? ==> r.error == UnseenLabels(name)
  {
    if HasUnencodable(classes, column) then Failure(UnseenLabels(name))
    else Success(seq(|column|, k requires 0 <= k < |column| => Rank(classes, Substitute(classes, column[k]))))
  }

  /**
   * Encoding succeeds exactly when `'Unknown'` is a class or every entry is a
   * class already; then every code is a valid index, a known label keeps its
   * own code, and missing or unseen entries share the code of `'Unknown'`.
   */
  lemma EncodeColumnMeaning(name: string, classes: set<string>, column: Column)
    ensures EncodeColumn(name, classes, column).Success? <==>
            Unknown in classes || forall k :: 0 <= k < |column| ==> Fill(column[k]) in classes
    ensures EncodeColumn(name, classes, column).Success? ==>
            forall k :: 0 <= k < |column| ==>
              && EncodeColumn(name, classes, column).value[k] < |classes|
              && (Fill(column[k]) in classes ==> EncodeColumn(name, classes, column).value[k] == Rank(classes, Fill(column[k])))
              && (Fill(column[k]) !in classes ==> EncodeColumn(name, classes, column).value[k] == Rank(classes, Unknown))
  {
    if EncodeColumn(name, classes, column).Success? {
      forall k | 0 <= k < |column| ensures EncodeColumn(name, classes, column).value[k] < |classes| {
        RankBound(classes, Substitute(classes, column[k]));
      }
    }
    if !(Unknown in classes || forall k :: 0 <= k < |column| ==> Fill(column[k]) in classes) {
      var k :| 0 <= k < |column| && Fill(column[k]) !in classes;
      assert Substitute(classes, column[k]) !in classes;
    }
  }

  /** Two entries that are both known labels share a code only when they are the same label. */
  lemma EncodedLabelsDistinct(name: string, classes: set<string>, column: Column, a: nat, b: nat)
    requires EncodeColumn(name, classes, column).Success?
    requires a < |column| && b < |column|
    requires Fill(column[a]) in classes && Fill(column[b]) in classes
    ensures EncodeColumn(name, classes, column).value[a] == EncodeColumn(name, classes, column).value[b] <==>
            Fill(column[a]) == Fill(column[b])
  {
    var codes := EncodeColumn(name, classes, column).value;
    if codes[a] == codes[b] {
      RankInjective(classes, Fill(column[a]), Fill(column[b]));
    }
  }

  /** The `classes_` that fitting on a column gives: its labels after `fillna('Unknown')`. */
  function FittedClasses(column: Column): set<string> {
    set k | 0 <= k < |column| :: Fill(column[k])
  }

  /** Fitting then transforming the same column never meets an unseen label. */
  lemma FittedColumnEncodes(name: string, column: Column)
    ensures EncodeColumn(name, FittedClasses(column), column).Success?
  {
    var classes := FittedClasses(column);
    forall k | 0 <= k < |column| ensures Substitute(classes, column[k]) in classes {
      assert Fill(column[k]) in classes;
    }
  }

  /** Unseen labels, as written: without `'Unknown'` among the classes, `transform` raises. */
  lemma UnseenLabelRaises(name: string, classes: set<string>, column: Column, k: nat)
    requires k < |column| && Fill(column[k]) !in classes && Unknown !in classes
    ensures EncodeColumn(name, classes, column) == Failure(UnseenLabels(name))
  {
    assert Substitute(classes, column[k]) !in classes;
  }

  /** A location the encoder never saw, with no missing location at training time. */
  lemma UnseenLocationExample()
    ensures EncodeColumn("Location", {"Sydney"}, [Some("Atlantis")]) == Failure(UnseenLabels("Location"))
  {
    UnseenLabelRaises("Location", {"Sydney"}, [Some("Atlantis")], 0);
  }

  /**
   * The encoding the unseen-label branch evidently intends: a label outside
   * the classes gets the code of `'Unknown'` when that is a class and 0 (the
   * code the imputation uses for unknown values) otherwise.
   */
  function EncodeColumnCorrected(classes: set<string>, column: Column): (codes: seq<nat>)
    ensures |codes| == |column|
  {
    seq(|column|, k requires 0 <= k < |column| =>
      if Substitute(classes, column[k]) in classes then Rank(classes, Substitute(classes, column[k])) else 0)
  }

  /** The corrected encoding never raises, gives valid codes, and agrees wherever the original succeeds. */
  lemma EncodeColumnCorrectedMeaning(name: string, classes: set<string>, column: Column)
    ensures forall k :: 0 <= k < |column| && |classes| > 0 ==> EncodeColumnCorrected(classes, column)[k] < |classes|
    ensures EncodeColumn(name, classes, column).Success? ==>
            EncodeColumn(name, classes, column).value == EncodeColumnCorrected(classes, column)
  {
    forall k | 0 <= k < |column| && |classes| > 0 ensures EncodeColumnCorrected(classes, column)[k] < |classes| {
      if Substitute(classes, column[k]) in classes {
        RankBound(classes, Substitute(classes, column[k]));
      }
    }
  }

  /**
   * `_encode_categorical(df, columns)` on given encoders: the codes of every
   * listed column that is in the frame and has an encoder, or the first
   * column's failure. Other columns are left as they are.
   */
  function EncodeAll(encoders: map<string, set<string>>, df: Frame, columns: seq<string>): (r: Result<map<string, seq<nat>>, Error>)
    ensures r.Success? ==> forall c :: c in r.value ==> c in columns && Transformed(encoders, df, c)
    ensures r.Failure? ==> r.error.UnseenLabels? && r.error.column in columns
    decreases |columns|
  {
    if columns == [] then Success(map[])
    else
      var c := columns[|columns| - 1];
      var rest := EncodeAll(encoders, df, columns[..|columns| - 1]);
      if rest.Failure? || c !in df || c !in encoders then rest
      else
        match EncodeColumn(c, encoders[c], df[c])
        case Failure(e) => Failure(e)
        case Success(codes) => Success(rest.value[c := codes])
  }

  /** The encoders after fitting every listed column the frame has. */
  function Refit(encoders: map<string, set<string>>, df: Frame, columns: seq<string>): (r: map<string, set<string>>)
    ensures forall c :: c in r <==> c in encoders || (c in columns && c in df)
    ensures forall c :: c in columns && c in df ==> r[c] == FittedClasses(df[c])
    ensures forall c :: c in encoders && !(c in columns && c in df) ==> r[c] == encoders[c]
  {
    encoders + map c | c in columns && c in df :: FittedClasses(df[c])
  }

  /** Fitting one more column updates that column's encoder only. */
  lemma RefitStep(encoders: map<string, set<string>>, df: Frame, columns: seq<string>, k: nat)
    requires k < |columns|
    ensures Refit(encoders, df, columns[..k + 1]) ==
            if columns[k] in df then Refit(encoders, df, columns[..k])[columns[k] := FittedClasses(df[columns[k]])]
            else Refit(encoders, df, columns[..k])
  {
    var before, after := Refit(encoders, df, columns[..k]), Refit(encoders, df, columns[..k + 1]);
    var c0 := columns[k];
    assert forall c :: c in columns[..k + 1] <==> c in columns[..k] || c == c0;
    var expected := if c0 in df then before[c0 := FittedClasses(df[c0])] else before;
    assert after.Keys == expected.Keys;
    forall c | c in after ensures after[c] == expected[c] {
      if c == c0 && c0 in df {
        assert after[c] == FittedClasses(df[c0]);
      } else if c in columns[..k] && c in df {
        assert after[c] == FittedClasses(df[c]) == before[c];
      } else {
        assert after[c] == encoders[c] == before[c];
      }
    }
  }

  /** Encoding one more column. */
  lemma EncodeAllStep(encoders: map<string, set<string>>, df: Frame, columns: seq<string>, k: nat)
    requires k < |columns|
    ensures var rest := EncodeAll(encoders, df, columns[..k]);
            var c := columns[k];
            EncodeAll(encoders, df, columns[..k + 1]) ==
              if rest.Failure? || c !in df || c !in encoders then rest
              else match EncodeColumn(c, encoders[c], df[c])
                   case Failure(e) => Failure(e)
                   case Success(codes) => Success(rest.value[c := codes])
  {
    assert columns[..k + 1][..k] == columns[..k];
  }

  /** A listed column that `_encode_categorical` transforms: in the frame, with an encoder. */
  predicate Transformed(encoders: map<string, set<string>>, df: Frame, c: string) {
    c in df && c in encoders
  }

  /**
   * Encoding succeeds exactly when every transformed listed column encodes;
   * then the result holds exactly those columns, each with its own codes.
   */
  lemma {:induction false} EncodeAllSuccess(encoders: map<string, set<string>>, df: Frame, columns: seq<string>)
    ensures EncodeAll(encoders, df, columns).Success? <==>
            forall k :: 0 <= k < |columns| && Transformed(encoders, df, columns[k]) ==>
              EncodeColumn(columns[k], encoders[columns[k]], df[columns[k]]).Success?
    ensures EncodeAll(encoders, df, columns).Success? ==>
            var codes := EncodeAll(encoders, df, columns).value;
            && (forall c :: c in codes <==> c in columns && Transformed(encoders, df, c))
            && (forall c :: c in codes ==> EncodeColumn(c, encoders[c], df[c]) == Success(codes[c]))
    decreases |columns|
  {
    if columns != [] {
      var n := |columns| - 1;
      var init, last := columns[..n], columns[n];
      EncodeAllSuccess(encoders, df, init);
      assert forall k :: 0 <= k < n ==> init[k] == columns[k];
      assert forall c :: c in columns <==> c in init || c == last;
      var rest := EncodeAll(encoders, df, init);
      if rest.Failure? {
        var k :| 0 <= k < n && Transformed(encoders, df, init[k]) && EncodeColumn(init[k], encoders[init[k]], df[init[k]]).Failure?;
        assert columns[k] == init[k];
      }
    }
  }

  /**
   * A failing call reports the unseen labels of the first transformed listed
   * column that does not encode; every transformed column before it encodes.
   */
  lemma {:induction false} EncodeAllFirstFailure(encoders: map<string, set<string>>, df: Frame, columns: seq<string>)
    ensures EncodeAll(encoders, df, columns).Failure? ==>
            exists k :: 0 <= k < |columns| && Transformed(encoders, df, columns[k])
              && EncodeColumn(columns[k], encoders[columns[k]], df[columns[k]]).Failure?
              && EncodeAll(encoders, df, columns) == Failure(UnseenLabels(columns[k]))
              && forall j :: 0 <= j < k && Transformed(encoders, df, columns[j]) ==>
                   EncodeColumn(columns[j], encoders[columns[j]], df[columns[j]]).Success?
    decreases |columns|
  {
    if columns != [] && EncodeAll(encoders, df, columns).Failure? {
      var n := |columns| - 1;
      var init, last := columns[..n], columns[n];
      var rest := EncodeAll(encoders, df, init);
      if rest.Failure? {
        EncodeAllFirstFailure(encoders, df, init);
        var k :| 0 <= k < n && Transformed(encoders, df, init[k])
              && EncodeColumn(init[k], encoders[init[k]], df[init[k]]).Failure?
              && rest == Failure(UnseenLabels(init[k]))
              && forall j :: 0 <= j < k && Transformed(encoders, df, init[j]) ==>
                   EncodeColumn(init[j], encoders[init[j]], df[init[j]]).Success?;
        assert forall j :: 0 <= j <= k ==> init[j] == columns[j];
      } else {
        EncodeAllSuccess(encoders, df, init);
        assert forall j :: 0 <= j < n ==> init[j] == columns[j];
        assert Transformed(encoders, df, columns[n]);
      }
    }
  }

  /** Encoders that agree on the listed columns of the frame encode them alike. */
  lemma {:induction false} EncodeAllDependsOnListed(e1: map<string, set<string>>, e2: map<string, set<string>>, df: Frame, columns: seq<string>)
    requires forall c :: c in columns && c in df ==> (c in e1 <==> c in e2) && (c in e1 ==> e1[c] == e2[c])
    ensures EncodeAll(e1, df, columns) == EncodeAll(e2, df, columns)
    decreases |columns|
  {
    if columns != [] {
      EncodeAllDependsOnListed(e1, e2, df, columns[..|columns| - 1]);
    }
  }

  /** Refitting an already fitted column changes nothing for the columns before it. */
  lemma RefitKeepsEarlier(start: map<string, set<string>>, df: Frame, columns: seq<string>, k: nat)
    requires k < |columns| && columns[k] in df
    ensures var enc := Refit(start, df, columns[..k]);
            EncodeAll(enc[columns[k] := FittedClasses(df[columns[k]])], df, columns[..k]) == EncodeAll(enc, df, columns[..k])
  {
    var enc := Refit(start, df, columns[..k]);
    var col := columns[k];
    var after := enc[col := FittedClasses(df[col])];
    forall c | c in columns[..k] && c in df ensures (c in enc <==> c in after) && (c in enc ==> enc[c] == after[c]) {
      if c == col {
        assert enc[c] == FittedClasses(df[c]);
      }
    }
    EncodeAllDependsOnListed(enc, after, df, columns[..k]);
  }

  /** A failure on a prefix of the columns is the failure of the whole call. */
  lemma {:induction false} EncodeAllFailureSticks(encoders: map<string, set<string>>, df: Frame, columns: seq<string>, k: nat)
    requires k <= |columns|
    requires EncodeAll(encoders, df, columns[..k]).Failure?
    ensures EncodeAll(encoders, df, columns) == EncodeAll(encoders, df, columns[..k])
    decreases |columns| - k
  {
    if k < |columns| {
      assert columns[..k + 1][..k] == columns[..k];
      assert EncodeAll(encoders, df, columns[..k + 1]).Failure?;
      EncodeAllFailureSticks(encoders, df, columns, k + 1);
    } else {
      assert columns[..k] == columns;
    }
  }

  /** With every listed column fitted on the frame itself, encoding succeeds. */
  lemma {:induction false} EncodeAllFittedSucceeds(encoders: map<string, set<string>>, df: Frame, columns: seq<string>)
    requires forall c :: c in columns && c in df ==> c in encoders && encoders[c] == FittedClasses(df[c])
    ensures EncodeAll(encoders, df, columns).Success?
    decreases |columns|
  {
    if columns != [] {
      var c := columns[|columns| - 1];
      EncodeAllFittedSucceeds(encoders, df, columns[..|columns| - 1]);
      if c in df {
        FittedColumnEncodes(c, df[c]);
      }
    }
  }

  // ---------------------------------------------------------------------
  // Imputation (`_prepare_inference_features`, lines 341-386)
  // ---------------------------------------------------------------------

  /** `global_stats.get(col, {}).get('mean', 0)`. */
  function GlobalMean(g: GlobalStats, col: string): real {
    if col in g.numeric then g.numeric[col].mean else 0.0
  }

  /** The value a numeric column gets for one sample. */
  function ImputeNumeric(stats: map<string, LocationStats>, g: GlobalStats, location: string, month: int, col: string): (v: real)
    ensures location !in stats ==> v == GlobalMean(g, col)
  {
    if location in stats then
      var ls := stats[location];
      if ls.seasonal.Some? && month in ls.seasonal.value then
        var season := ls.seasonal.value[month];
        if col in season then season[col]
        else if col in ls.numeric then ls.numeric[col].mean
        else GlobalMean(g, col)
      else if col in ls.numeric then ls.numeric[col].mean
      else GlobalMean(g, col)
    else GlobalMean(g, col)
  }

  /** The value a categorical column gets for one sample (0 stands for unknown). */
  function ImputeCategorical(stats: map<string, LocationStats>, encoders: map<string, set<string>>,
                             location: string, col: string): (v: nat)
    ensures location !in stats || col !in encoders ==> v == 0
    ensures v > 0 ==> col in encoders && v < |encoders[col]|
  {
    if location in stats && col in stats[location].modes then
      var mode := stats[location].modes[col];
      if col in encoders && mode in encoders[col] then RankBound(encoders[col], mode); Rank(encoders[col], mode) else 0
    else 0
  }

  /** The month's mean of a column at a known location, if recorded. */
  function SeasonalMean(stats: map<string, LocationStats>, location: string, month: int, col: string): Option<real> {
    if location in stats && stats[location].seasonal.Some? && month in stats[location].seasonal.value
       && col in stats[location].seasonal.value[month]
    then Some(stats[location].seasonal.value[month][col])
    else None
  }

  /** The location's overall mean of a column, if recorded. */
  function LocationMean(stats: map<string, LocationStats>, location: string, col: string): Option<real> {
    if location in stats && col in stats[location].numeric then Some(stats[location].numeric[col].mean) else None
  }

  function GlobalMeanIfAny(g: GlobalStats, col: string): Option<real> {
    if col in g.numeric then Some(g.numeric[col].mean) else None
  }

  /** The first available value in order of preference, or 0. */
  function FirstAvailable(candidates: seq<Option<real>>): real {
    if candidates == [] then 0.0
    else if candidates[0].Some? then candidates[0].value
    else FirstAvailable(candidates[1..])
  }

  /** Numeric imputation follows one precedence: seasonal mean, location mean, global mean, 0. */
  lemma ImputationPrecedence(stats: map<string, LocationStats>, g: GlobalStats, location: string, month: int, col: string)
    ensures ImputeNumeric(stats, g, location, month, col) ==
            FirstAvailable([SeasonalMean(stats, location, month, col), LocationMean(stats, location, col), GlobalMeanIfAny(g, col)])
  {
    var cs := [SeasonalMean(stats, location, month, col), LocationMean(stats, location, col), GlobalMeanIfAny(g, col)];
    assert cs[1..] == [cs[1], cs[2]] && cs[1..][1..] == [cs[2]] && cs[1..][1..][1..] == [];
    assert FirstAvailable(cs[1..][1..]) == if cs[2].Some? then cs[2].value else 0.0;
    assert FirstAvailable(cs[1..]) == if cs[1].Some? then cs[1].value else FirstAvailable(cs[1..][1..]);
  }

  /**
   * A categorical column is nonzero only as the code of the location's mode,
   * and then it is the one valid code that names the mode; in every other
   * case it is 0.
   */
  lemma CategoricalImputationMeaning(stats: map<string, LocationStats>, encoders: map<string, set<string>>,
                                     location: string, col: string)
    ensures var v := ImputeCategorical(stats, encoders, location, col);
            if location in stats && col in stats[location].modes && col in encoders
               && stats[location].modes[col] in encoders[col]
            then v < |encoders[col]| &&
                 forall c :: c in encoders[col] ==> (Rank(encoders[col], c) == v <==> c == stats[location].modes[col])
            else v == 0
  {
    if location in stats && col in stats[location].modes && col in encoders && stats[location].modes[col] in encoders[col] {
      var classes, mode := encoders[col], stats[location].modes[col];
      RankBound(classes, mode);
      forall c | c in classes ensures Rank(classes, c) == Rank(classes, mode) <==> c == mode {
        if Rank(classes, c) == Rank(classes, mode) {
          RankInjective(classes, c, mode);
        }
      }
    }
  }

  // ---------------------------------------------------------------------
  // The feature matrix
  // ---------------------------------------------------------------------

  /** The columns `feature_dict` holds for imputed features. */
  function ImputedColumns(): (names: seq<string>)
    ensures forall n :: n in names <==> n in CategoricalFeatures || n in NumericFeatures
  {
    CategoricalFeatures + NumericFeatures
  }

  /** No numeric column is categorical. */
  lemma NumericNotCategorical()
    ensures forall n :: n in NumericFeatures ==> n !in CategoricalFeatures
  {
  }

  lemma CategoricalNotTemporal()
    ensures forall n :: n in CategoricalFeatures ==> n !in TemporalFeatures && n != "Location"
  {
  }

  lemma NumericNotTemporal()
    ensures forall n :: n in NumericFeatures ==> n !in TemporalFeatures && n != "Location"
  {
  }

  /** No imputed column is temporal or the location. */
  lemma ImputedNotTemporal()
    ensures forall n :: n in ImputedColumns() ==> n !in TemporalFeatures && n != "Location"
  {
    CategoricalNotTemporal();
    NumericNotTemporal();
  }

  /** A key of `feature_dict`. */
  predicate IsFeatureName(name: string) {
    name in TemporalFeatures || name == "Location" || name in ImputedColumns()
  }

  function TemporalValue(d: DateInfo, name: string): real {
    if name == "day_of_year_sin" then d.dayOfYearSin
    else if name == "day_of_year_cos" then d.dayOfYearCos
    else if name == "month" then d.month as real
    else if name == "month_sin" then d.monthSin
    else if name == "month_cos" then d.monthCos
    else if name == "day_of_week_sin" then d.dayOfWeekSin
    else if name == "day_of_week_cos" then d.dayOfWeekCos
    else d.daysFromReference
  }

  /** `feature_dict[col][i]` after the filling loop: samples beyond the shorter input stay 0. */
  function ImputedValue(st: PredictorState, dates: seq<DateInfo>, locations: seq<string>, col: string, i: nat): real {
    if i < |dates| && i < |locations| then
      if col in CategoricalFeatures
      then ImputeCategorical(st.locationStats, st.labelEncoders, locations[i], col) as real
      else ImputeNumeric(st.locationStats, st.globalStats, locations[i], dates[i].month, col)
    else 0.0
  }

  /**
   * The `Location` column as encoded by `_encode_categorical`, or left as
   * names without an encoder; `tolerant` selects the corrected encoding.
   */
  function EncodedLocationsWith(st: PredictorState, locations: seq<string>, tolerant: bool): (r: Result<seq<Feature>, Error>)
    ensures r.Success? ==> |r.value| == |locations|
    ensures r.Failure? ==> !tolerant && r.error == UnseenLabels("Location")
  {
    var column := seq(|locations|, i requires 0 <= i < |locations| => Some(locations[i]));
    if "Location" in st.labelEncoders then
      var classes := st.labelEncoders["Location"];
      if tolerant then
        var codes := EncodeColumnCorrected(classes, column);
        Success(seq(|locations|, i requires 0 <= i < |locations| => Num(codes[i] as real)))
      else
        match EncodeColumn("Location", classes, column)
        case Failure(e) => Failure(e)
        case Success(codes) => Success(seq(|locations|, i requires 0 <= i < |locations| => Num(codes[i] as real)))
    else Success(seq(|locations|, i requires 0 <= i < |locations| => Text(locations[i])))
  }

  /** The location encoding as written. */
  function EncodedLocations(st: PredictorState, locations: seq<string>): (r: Result<seq<Feature>, Error>)
    ensures r.Success? ==> |r.value| == |locations|
  {
    EncodedLocationsWith(st, locations, false)
  }

  /** The location encoding is `_encode_categorical` on the one-column frame. */
  lemma EncodedLocationsIsEncodeAll(st: PredictorState, locations: seq<string>)
    ensures var column := seq(|locations|, i requires 0 <= i < |locations| => Some(locations[i]));
            var r := EncodeAll(st.labelEncoders, map["Location" := column], ["Location"]);
            && (EncodedLocations(st, locations).Failure? <==> r.Failure?)
            && (r.Success? && "Location" in r.value ==>
                  "Location" in st.labelEncoders &&
                  EncodedLocations(st, locations).value ==
                    seq(|locations|, i requires 0 <= i < |locations| && i < |r.value["Location"]| => Num(r.value["Location"][i] as real)))
            && (r.Success? && "Location" !in r.value ==>
                  EncodedLocations(st, locations).value == seq(|locations|, i requires 0 <= i < |locations| => Text(locations[i])))
  {
    var column := seq(|locations|, i requires 0 <= i < |locations| => Some(locations[i]));
    assert ["Location"][..0] == [];
  }

  /** The entry of column `name` for sample `i`. */
  function FeatureAt(st: PredictorState, dates: seq<DateInfo>, locations: seq<string>, locs: seq<Feature>,
                     name: string, i: nat): Feature
    requires i < |dates| && (name == "Location" ==> i < |locs|)
  {
    if name in TemporalFeatures then Num(TemporalValue(dates[i], name))
    else if name == "Location" then locs[i]
    else Num(ImputedValue(st, dates, locations, name, i))
  }

  /** The first name that is not a key of `feature_dict`, if any. */
  function FirstMissingName(names: seq<string>): (r: Option<string>)
    ensures r.None? <==> forall k :: 0 <= k < |names| ==> IsFeatureName(names[k])
    ensures r.Some? ==> !IsFeatureName(r.value) && r.value in names
    ensures r.Some? ==> r.value in names && forall j :: 0 <= j < IndexOf(names, r.value) ==> IsFeatureName(names[j])
  {
    if names == [] then None
    else if !IsFeatureName(names[0]) then Some(names[0])
    else FirstMissingName(names[1..])
  }

  /**
   * `_prepare_inference_features(dates, locations)`: the location encoding
   * may raise; a stored column name without a feature raises `KeyError`;
   * `np.column_stack` raises on no columns or on columns of unequal length;
   * otherwise row `i` lists sample `i`'s features in `feature_columns` order.
   * `tolerant` selects the corrected location encoding.
   */
  function InferenceMatrixWith(st: PredictorState, dates: seq<DateInfo>, locations: seq<string>, tolerant: bool)
    : (r: Result<seq<seq<Feature>>, Error>)
    ensures r.Success? ==> |r.value| == |dates| && forall i :: 0 <= i < |dates| ==> |r.value[i]| == |st.featureColumns| > 0
    ensures r.Failure? ==> (!tolerant && r.error == UnseenLabels("Location")) || r.error == NoFeatures
                           || r.error == LengthMismatch || (r.error.MissingFeature? && r.error.name in st.featureColumns)
  {
    match EncodedLocationsWith(st, locations, tolerant)
    case Failure(e) => Failure(e)
    case Success(locs) =>
      var fc := st.featureColumns;
      if FirstMissingName(fc).Some? then Failure(MissingFeature(FirstMissingName(fc).value))
      else if |fc| == 0 then Failure(NoFeatures)
      else if "Location" in fc && |locations| != |dates| then Failure(LengthMismatch)
      else Success(seq(|dates|, i requires 0 <= i < |dates| =>
             seq(|fc|, k requires 0 <= k < |fc| => FeatureAt(st, dates, locations, locs, fc[k], i))))
  }

  /** The feature matrix as written. */
  function InferenceMatrix(st: PredictorState, dates: seq<DateInfo>, locations: seq<string>): (r: Result<seq<seq<Feature>>, Error>)
    ensures r.Success? ==> |r.value| == |dates| && forall i :: 0 <= i < |dates| ==> |r.value[i]| == |st.featureColumns| > 0
    ensures r.Failure? ==> r.error == UnseenLabels("Location") || r.error == NoFeatures
                           || r.error == LengthMismatch || (r.error.MissingFeature? && r.error.name in st.featureColumns)
  {
    InferenceMatrixWith(st, dates, locations, false)
  }

  /**
   * The corrected matrix never fails on a location label, and it is the
   * matrix as written whenever that one succeeds.
   */
  lemma CorrectedInferenceMatrix(st: PredictorState, dates: seq<DateInfo>, locations: seq<string>)
    ensures InferenceMatrixWith(st, dates, locations, true).Failure? ==>
            InferenceMatrixWith(st, dates, locations, true).error.MissingFeature? ||
            InferenceMatrixWith(st, dates, locations, true).error in {NoFeatures, LengthMismatch}
    ensures InferenceMatrix(st, dates, locations).Success? ==>
            InferenceMatrixWith(st, dates, locations, true) == InferenceMatrix(st, dates, locations)
  {
    if "Location" in st.labelEncoders {
      var column := seq(|locations|, i requires 0 <= i < |locations| => Some(locations[i]));
      EncodeColumnCorrectedMeaning("Location", st.labelEncoders["Location"], column);
    }
  }

  /** Entry `k` of row `i` is the feature that `feature_columns[k]` names. */
  lemma EntryAt(st: PredictorState, dates: seq<DateInfo>, locations: seq<string>, i: nat, k: nat)
    requires InferenceMatrix(st, dates, locations).Success?
    requires i < |dates| && k < |st.featureColumns|
    ensures |InferenceMatrix(st, dates, locations).value| == |dates|
    ensures |InferenceMatrix(st, dates, locations).value[i]| == |st.featureColumns|
    ensures IsFeatureName(st.featureColumns[k])
    ensures var name := st.featureColumns[k];
            InferenceMatrix(st, dates, locations).value[i][k] ==
              if name in TemporalFeatures then Num(TemporalValue(dates[i], name))
              else if name == "Location" then EncodedLocations(st, locations).value[i]
              else Num(ImputedValue(st, dates, locations, name, i))
  {
    assert FirstMissingName(st.featureColumns).None?;
  }

  /** A successful matrix has a row per date and a column per stored name. */
  lemma MatrixShape(st: PredictorState, dates: seq<DateInfo>, locations: seq<string>)
    requires InferenceMatrix(st, dates, locations).Success?
    ensures |InferenceMatrix(st, dates, locations).value| == |dates|
    ensures |st.featureColumns| > 0
    ensures forall i :: 0 <= i < |dates| ==> |InferenceMatrix(st, dates, locations).value[i]| == |st.featureColumns|
    ensures forall k :: 0 <= k < |st.featureColumns| ==> IsFeatureName(st.featureColumns[k])
    ensures "Location" in st.featureColumns ==> |locations| == |dates|
  {
    assert FirstMissingName(st.featureColumns).None?;
  }

  /** An entry whose column is imputed holds the imputed value. */
  lemma ImputedEntry(st: PredictorState, dates: seq<DateInfo>, locations: seq<string>, i: nat, k: nat)
    requires InferenceMatrix(st, dates, locations).Success?
    requires i < |dates| && k < |st.featureColumns| && st.featureColumns[k] in ImputedColumns()
    ensures k < |InferenceMatrix(st, dates, locations).value[i]|
    ensures InferenceMatrix(st, dates, locations).value[i][k] == Num(ImputedValue(st, dates, locations, st.featureColumns[k], i))
  {
    ImputedNotTemporal();
    EntryAt(st, dates, locations, i, k);
  }

  /**
   * With the order recorded at training, inference row `i` lists the
   * temporal features, the location, the categorical and then the numeric
   * imputations, at the same positions as the training rows.
   */
  lemma TrainedOrderLayout(st: PredictorState, dates: seq<DateInfo>, locations: seq<string>, i: nat)
    requires st.featureColumns == TrainingFeatureOrder()
    requires InferenceMatrix(st, dates, locations).Success?
    requires i < |dates|
    ensures |locations| == |dates|
    ensures var row := InferenceMatrix(st, dates, locations).value[i];
            && |row| == 29
            && (forall t :: 0 <= t < 8 ==> row[t] == Num(TemporalValue(dates[i], TemporalFeatures[t])))
            && row[8] == EncodedLocations(st, locations).value[i]
            && (forall c :: 0 <= c < 4 ==>
                  row[9 + c] == Num(ImputeCategorical(st.locationStats, st.labelEncoders, locations[i], CategoricalFeatures[c]) as real))
            && (forall c :: 0 <= c < 16 ==>
                  row[13 + c] == Num(ImputeNumeric(st.locationStats, st.globalStats, locations[i], dates[i].month, NumericFeatures[c])))
  {
    MatrixShape(st, dates, locations);
    assert st.featureColumns[8] == "Location";
    EntryAt(st, dates, locations, i, 8);
    forall t | 0 <= t < 8 ensures InferenceMatrix(st, dates, locations).value[i][t] == Num(TemporalValue(dates[i], TemporalFeatures[t])) {
      TrainedTemporalEntry(st, dates, locations, i, t);
    }
    forall c | 0 <= c < 4
      ensures InferenceMatrix(st, dates, locations).value[i][9 + c] ==
              Num(ImputeCategorical(st.locationStats, st.labelEncoders, locations[i], CategoricalFeatures[c]) as real)
    {
      TrainedCategoricalEntry(st, dates, locations, i, c);
    }
    forall c | 0 <= c < 16
      ensures InferenceMatrix(st, dates, locations).value[i][13 + c] ==
              Num(ImputeNumeric(st.locationStats, st.globalStats, locations[i], dates[i].month, NumericFeatures[c]))
    {
      TrainedNumericEntry(st, dates, locations, i, c);
    }
  }

  lemma TrainedTemporalEntry(st: PredictorState, dates: seq<DateInfo>, locations: seq<string>, i: nat, t: nat)
    requires st.featureColumns == TrainingFeatureOrder()
    requires InferenceMatrix(st, dates, locations).Success?
    requires i < |dates| && t < 8
    ensures t < |InferenceMatrix(st, dates, locations).value[i]|
    ensures InferenceMatrix(st, dates, locations).value[i][t] == Num(TemporalValue(dates[i], TemporalFeatures[t]))
  {
    assert st.featureColumns[t] == TemporalFeatures[t];
    EntryAt(st, dates, locations, i, t);
  }

  lemma TrainedCategoricalEntry(st: PredictorState, dates: seq<DateInfo>, locations: seq<string>, i: nat, c: nat)
    requires st.featureColumns == TrainingFeatureOrder()
    requires InferenceMatrix(st, dates, locations).Success?
    requires i < |dates| && c < 4
    ensures |locations| == |dates|
    ensures 9 + c < |InferenceMatrix(st, dates, locations).value[i]|
    ensures InferenceMatrix(st, dates, locations).value[i][9 + c] ==
            Num(ImputeCategorical(st.locationStats, st.labelEncoders, locations[i], CategoricalFeatures[c]) as real)
  {
    MatrixShape(st, dates, locations);
    assert st.featureColumns[8] == "Location";
    assert st.featureColumns[9 + c] == CategoricalFeatures[c];
    assert CategoricalFeatures[c] in ImputedColumns();
    ImputedEntry(st, dates, locations, i, 9 + c);
  }

  lemma TrainedNumericEntry(st: PredictorState, dates: seq<DateInfo>, locations: seq<string>, i: nat, c: nat)
    requires st.featureColumns == TrainingFeatureOrder()
    requires InferenceMatrix(st, dates, locations).Success?
    requires i < |dates| && c < 16
    ensures |locations| == |dates|
    ensures 13 + c < |InferenceMatrix(st, dates, locations).value[i]|
    ensures InferenceMatrix(st, dates, locations).value[i][13 + c] ==
            Num(ImputeNumeric(st.locationStats, st.globalStats, locations[i], dates[i].month, NumericFeatures[c]))
  {
    MatrixShape(st, dates, locations);
    assert st.featureColumns[8] == "Location";
    assert st.featureColumns[13 + c] == NumericFeatures[c];
    assert NumericFeatures[c] in ImputedColumns();
    NumericNotCategorical();
    ImputedEntry(st, dates, locations, i, 13 + c);
  }

  /**
   * Every numeric entry follows the precedence seasonal mean, location mean,
   * global mean, 0, for known and unknown locations alike.
   */
  lemma NumericEntriesPrecedence(st: PredictorState, dates: seq<DateInfo>, locations: seq<string>, i: nat)
    requires InferenceMatrix(st, dates, locations).Success?
    requires i < |dates| && i < |locations|
    ensures forall k :: 0 <= k < |st.featureColumns| && st.featureColumns[k] in NumericFeatures ==>
              InferenceMatrix(st, dates, locations).value[i][k] ==
              Num(FirstAvailable([SeasonalMean(st.locationStats, locations[i], dates[i].month, st.featureColumns[k]),
                                  LocationMean(st.locationStats, locations[i], st.featureColumns[k]),
                                  GlobalMeanIfAny(st.globalStats, st.featureColumns[k])]))
  {
    NumericNotCategorical();
    forall k | 0 <= k < |st.featureColumns| && st.featureColumns[k] in NumericFeatures
      ensures InferenceMatrix(st, dates, locations).value[i][k] ==
              Num(FirstAvailable([SeasonalMean(st.locationStats, locations[i], dates[i].month, st.featureColumns[k]),
                                  LocationMean(st.locationStats, locations[i], st.featureColumns[k]),
                                  GlobalMeanIfAny(st.globalStats, st.featureColumns[k])]))
    {
      ImputedEntry(st, dates, locations, i, k);
      ImputationPrecedence(st.locationStats, st.globalStats, locations[i], dates[i].month, st.featureColumns[k]);
    }
  }

  /** A known location without the month's seasonal entry uses its own mean, else the global mean, else 0. */
  lemma NoSeasonEntries(st: PredictorState, dates: seq<DateInfo>, locations: seq<string>, i: nat)
    requires InferenceMatrix(st, dates, locations).Success?
    requires i < |dates| && i < |locations|
    requires locations[i] in st.locationStats
    requires var ls := st.locationStats[locations[i]]; ls.seasonal.None? || dates[i].month !in ls.seasonal.value
    ensures forall k :: 0 <= k < |st.featureColumns| && st.featureColumns[k] in NumericFeatures ==>
              InferenceMatrix(st, dates, locations).value[i][k] ==
              Num(FirstAvailable([LocationMean(st.locationStats, locations[i], st.featureColumns[k]),
                                  GlobalMeanIfAny(st.globalStats, st.featureColumns[k])]))
  {
    NumericEntriesPrecedence(st, dates, locations, i);
    forall k | 0 <= k < |st.featureColumns| && st.featureColumns[k] in NumericFeatures
      ensures InferenceMatrix(st, dates, locations).value[i][k] ==
              Num(FirstAvailable([LocationMean(st.locationStats, locations[i], st.featureColumns[k]),
                                  GlobalMeanIfAny(st.globalStats, st.featureColumns[k])]))
    {
      var col := st.featureColumns[k];
      var cs := [SeasonalMean(st.locationStats, locations[i], dates[i].month, col),
                 LocationMean(st.locationStats, locations[i], col), GlobalMeanIfAny(st.globalStats, col)];
      assert cs[1..] == [cs[1], cs[2]];
    }
  }

  /** An unknown location gets the global mean (or 0) in every numeric column and 0 in every categorical one. */
  lemma UnknownLocationEntries(st: PredictorState, dates: seq<DateInfo>, locations: seq<string>, i: nat)
    requires InferenceMatrix(st, dates, locations).Success?
    requires i < |dates| && i < |locations|
    requires locations[i] !in st.locationStats
    ensures forall k :: 0 <= k < |st.featureColumns| && st.featureColumns[k] in NumericFeatures ==>
              InferenceMatrix(st, dates, locations).value[i][k] == Num(GlobalMean(st.globalStats, st.featureColumns[k]))
    ensures forall k :: 0 <= k < |st.featureColumns| && st.featureColumns[k] in CategoricalFeatures ==>
              InferenceMatrix(st, dates, locations).value[i][k] == Num(0.0)
  {
    NumericNotCategorical();
    forall k | 0 <= k < |st.featureColumns| && st.featureColumns[k] in ImputedColumns() {
      ImputedEntry(st, dates, locations, i, k);
    }
  }

  /**
   * A categorical entry is the encoder's code for the location's mode when the
   * location is known, has a mode for the column, the column has an encoder
   * and the mode is one of its classes; in every other case it is 0.
   */
  lemma CategoricalEntries(st: PredictorState, dates: seq<DateInfo>, locations: seq<string>, i: nat)
    requires InferenceMatrix(st, dates, locations).Success?
    requires i < |dates| && i < |locations|
    ensures forall k :: 0 <= k < |st.featureColumns| && st.featureColumns[k] in CategoricalFeatures ==>
              var col, loc := st.featureColumns[k], locations[i];
              InferenceMatrix(st, dates, locations).value[i][k] ==
              if loc in st.locationStats && col in st.locationStats[loc].modes && col in st.labelEncoders
                 && st.locationStats[loc].modes[col] in st.labelEncoders[col]
              then Num(Rank(st.labelEncoders[col], st.locationStats[loc].modes[col]) as real)
              else Num(0.0)
  {
    forall k | 0 <= k < |st.featureColumns| && st.featureColumns[k] in CategoricalFeatures {
      ImputedEntry(st, dates, locations, i, k);
    }
  }

  /** Samples past the end of a shorter location list keep the zero initialisation. */
  lemma ShortLocationEntries(st: PredictorState, dates: seq<DateInfo>, locations: seq<string>, i: nat)
    requires InferenceMatrix(st, dates, locations).Success?
    requires |locations| <= i < |dates|
    ensures "Location" !in st.featureColumns
    ensures forall k :: 0 <= k < |st.featureColumns| && st.featureColumns[k] in ImputedColumns() ==>
              InferenceMatrix(st, dates, locations).value[i][k] == Num(0.0)
  {
    MatrixShape(st, dates, locations);
    forall k | 0 <= k < |st.featureColumns| && st.featureColumns[k] in ImputedColumns() {
      ImputedEntry(st, dates, locations, i, k);
    }
  }

  // ---------------------------------------------------------------------
  // The training frame (`_prepare_training_features`, lines 217-244)
  // ---------------------------------------------------------------------

  /** The markers `df.replace` turns into missing values. */
  predicate IsMissingMarker(s: string) {
    s == "NA" || s == "NaN" || s == "" || s == " "
  }

  function Clean(e: Option<string>): Option<string> {
    if e.Some? && IsMissingMarker(e.value) then None else e
  }

  predicate IsSpace(ch: char) {
    ch == ' ' || ch == '\t' || ch == '\n' || ch == '\r' || ch == '\U{000B}' || ch == '\U{000C}'
  }

  /** `str.strip()`: no white space is left at either end. */
  function Strip(s: string): (r: string)
    ensures |r| <= |s|
    ensures |r| > 0 ==> !IsSpace(r[0]) && !IsSpace(r[|r| - 1])
    ensures forall k :: 0 <= k < |s| && !IsSpace(s[k]) ==> |r| > 0
    decreases |s|
  {
    if |s| > 0 && IsSpace(s[0]) then Strip(s[1..])
    else if |s| > 0 && IsSpace(s[|s| - 1]) then Strip(s[..|s| - 1])
    else s
  }

  /** `r` is `s` without its first `a` and its last `|s| - b` characters, all of them white space. */
  predicate TrimmedBy(s: string, r: string, a: nat, b: nat) {
    a <= b <= |s| && r == s[a..b]
    && (forall k :: 0 <= k < a ==> IsSpace(s[k]))
    && (forall k :: b <= k < |s| ==> IsSpace(s[k]))
  }

  lemma TrimmedDropFirst(s: string, r: string, a: nat, b: nat)
    requires |s| > 0 && IsSpace(s[0]) && TrimmedBy(s[1..], r, a, b)
    ensures TrimmedBy(s, r, a + 1, b + 1)
  {
    assert s[1..][a..b] == s[a + 1..b + 1];
    forall k | 0 <= k < a + 1 ensures IsSpace(s[k]) {
      if k > 0 { assert s[k] == s[1..][k - 1]; }
    }
    forall k | b + 1 <= k < |s| ensures IsSpace(s[k]) {
      assert s[k] == s[1..][k - 1];
    }
  }

  lemma TrimmedDropLast(s: string, r: string, a: nat, b: nat)
    requires |s| > 0 && IsSpace(s[|s| - 1]) && TrimmedBy(s[..|s| - 1], r, a, b)
    ensures TrimmedBy(s, r, a, b)
  {
    var t := s[..|s| - 1];
    assert t[a..b] == s[a..b];
    forall k | 0 <= k < a ensures IsSpace(s[k]) {
      assert s[k] == t[k];
    }
    forall k | b <= k < |s| ensures IsSpace(s[k]) {
      if k < |t| { assert s[k] == t[k]; }
    }
  }

  /**
   * `Strip` removes a white-space prefix and a white-space suffix and
   * nothing else; with its own contract the two are the longest such.
   */
  lemma {:induction false} StripRemovesOnlyEnds(s: string)
    ensures exists a: nat, b: nat :: TrimmedBy(s, Strip(s), a, b)
    decreases |s|
  {
    if |s| > 0 && IsSpace(s[0]) {
      StripRemovesOnlyEnds(s[1..]);
      var a: nat, b: nat :| TrimmedBy(s[1..], Strip(s[1..]), a, b);
      TrimmedDropFirst(s, Strip(s), a, b);
    } else if |s| > 0 && IsSpace(s[|s| - 1]) {
      StripRemovesOnlyEnds(s[..|s| - 1]);
      var a: nat, b: nat :| TrimmedBy(s[..|s| - 1], Strip(s[..|s| - 1]), a, b);
      TrimmedDropLast(s, Strip(s), a, b);
    } else {
      assert TrimmedBy(s, Strip(s), 0, |s|);
    }
  }

  /** A row the target filter keeps: its `RainTomorrow`, as a stripped string, is `Yes` or `No`. */
  predicate IsLabelledTarget(e: Option<string>) {
    Clean(e).Some? && (Strip(Clean(e).value) == "Yes" || Strip(Clean(e).value) == "No")
  }

  /** The rows the target filter keeps. */
  function TargetMask(target: Column): (keep: seq<bool>)
    ensures |keep| == |target| && forall k :: 0 <= k < |target| ==> keep[k] == IsLabelledTarget(target[k])
  {
    seq(|target|, k requires 0 <= k < |target| => IsLabelledTarget(target[k]))
  }

  /** One column after the marker replacement, restricted to the kept rows. */
  function KeepRows(column: Column, keep: seq<bool>): (r: Column)
    ensures |r| <= |column|
    decreases |column|
  {
    if column == [] then []
    else
      var last := |column| - 1;
      var rest := KeepRows(column[..last], keep);
      if last < |keep| && keep[last] then rest + [Clean(column[last])] else rest
  }

  /** A kept entry comes from a kept row, and every kept row contributes. */
  lemma {:induction false} KeepRowsMembers(column: Column, keep: seq<bool>, e: Option<string>)
    ensures e in KeepRows(column, keep) <==>
            exists k :: 0 <= k < |column| && k < |keep| && keep[k] && e == Clean(column[k])
    decreases |column|
  {
    if column != [] {
      var last := |column| - 1;
      var init := column[..last];
      var rest := KeepRows(init, keep);
      KeepRowsMembers(init, keep, e);
      var kept := last < |keep| && keep[last];
      assert KeepRows(column, keep) == if kept then rest + [Clean(column[last])] else rest;
      if exists k :: 0 <= k < |column| && k < |keep| && keep[k] && e == Clean(column[k]) {
        var k :| 0 <= k < |column| && k < |keep| && keep[k] && e == Clean(column[k]);
        if k < last {
          assert init[k] == column[k];
          assert e in rest;
        } else {
          assert kept && e == Clean(column[last]);
        }
      }
      if e in KeepRows(column, keep) {
        if e in rest {
          var k :| 0 <= k < |init| && k < |keep| && keep[k] && e == Clean(init[k]);
          assert column[k] == init[k];
        } else {
          assert kept && e == Clean(column[last]);
        }
      }
    }
  }

  /** The frame after the marker replacement and the target filter. */
  function Labelled(df: Frame): (r: Frame)
    requires "RainTomorrow" in df
    ensures r.Keys == df.Keys
  {
    map c | c in df :: KeepRows(df[c], TargetMask(df["RainTomorrow"]))
  }

  /** `df[columns] = df[columns].fillna('Unknown')`. */
  function FillColumns(df: Frame, columns: seq<string>): (r: Frame)
    ensures r.Keys == df.Keys
  {
    map c | c in df :: if c in columns then seq(|df[c]|, k requires 0 <= k < |df[c]| => Some(Fill(df[c][k]))) else df[c]
  }

  /**
   * The classes fitted at training are exactly the (filled) labels of rows
   * whose target is `Yes` or `No`: a label seen only on other rows is unseen
   * at inference.
   */
  lemma TrainingClasses(df: Frame, col: string, name: string)
    requires "RainTomorrow" in df && col in df
    ensures name in FittedClasses(FillColumns(Labelled(df), CategoricalColumns)[col]) <==>
            exists k :: 0 <= k < |df[col]| && k < |df["RainTomorrow"]| && IsLabelledTarget(df["RainTomorrow"][k])
                        && Fill(Clean(df[col][k])) == name
  {
    var keep := TargetMask(df["RainTomorrow"]);
    FilledLabelledColumn(df, col);
    KeptClasses(df[col], keep, name);
  }

  /** Filling a kept column changes no label that fitting sees. */
  lemma FilledLabelledColumn(df: Frame, col: string)
    requires "RainTomorrow" in df && col in df
    ensures FittedClasses(FillColumns(Labelled(df), CategoricalColumns)[col]) ==
            FittedClasses(KeepRows(df[col], TargetMask(df["RainTomorrow"])))
  {
    var kept := Labelled(df)[col];
    var filled := FillColumns(Labelled(df), CategoricalColumns)[col];
    assert |filled| == |kept| && forall m :: 0 <= m < |filled| ==> Fill(filled[m]) == Fill(kept[m]);
    assert FittedClasses(filled) == FittedClasses(kept) by {
      forall x | x in FittedClasses(filled) ensures x in FittedClasses(kept) {
        var m :| 0 <= m < |filled| && Fill(filled[m]) == x;
        assert Fill(kept[m]) == x;
      }
      forall x | x in FittedClasses(kept) ensures x in FittedClasses(filled) {
        var m :| 0 <= m < |kept| && Fill(kept[m]) == x;
        assert Fill(filled[m]) == x;
      }
    }
  }

  /** The labels fitted on the kept rows of a column. */
  lemma KeptClasses(column: Column, keep: seq<bool>, name: string)
    ensures name in FittedClasses(KeepRows(column, keep)) <==>
            exists k :: 0 <= k < |column| && k < |keep| && keep[k] && Fill(Clean(column[k])) == name
  {
    var kept := KeepRows(column, keep);
    if name in FittedClasses(kept) {
      var m :| 0 <= m < |kept| && Fill(kept[m]) == name;
      KeepRowsMembers(column, keep, kept[m]);
    }
    if exists k :: 0 <= k < |column| && k < |keep| && keep[k] && Fill(Clean(column[k])) == name {
      var k :| 0 <= k < |column| && k < |keep| && keep[k] && Fill(Clean(column[k])) == name;
      KeepRowsMembers(column, keep, Clean(column[k]));
      var m :| 0 <= m < |kept| && kept[m] == Clean(column[k]);
      assert Fill(kept[m]) == name;
    }
  }

  /** Every listed column is in the frame. */
  predicate HasColumns(df: Frame, names: seq<string>) {
    forall k :: 0 <= k < |names| ==> names[k] in df
  }

  /** The encoders training leaves: each categorical column fitted on its labelled rows, missing values filled. */
  function TrainedEncoders(encoders: map<string, set<string>>, df: Frame): map<string, set<string>>
    requires "RainTomorrow" in df
  {
    Refit(encoders, FillColumns(Labelled(df), CategoricalColumns), CategoricalColumns)
  }
}
