/**
 * `WeatherPredictor` in `model/rand_forest.py` as a class over the fields
 * that training sets and inference reads, with the `/predict` route's label
 * expressions. The scaler and forest are one opaque function from a numeric
 * feature row to a vote.
 */
module ForestPredictor {
  import opened Wrappers
  import opened LabelOrder
  import opened ForestFeatures

  /** `np.zeros(n)`. */
  function Zeros(n: nat): (z: seq<real>)
    ensures |z| == n && forall j :: 0 <= j < n ==> z[j] == 0.0
  {
    seq(n, j => 0.0)
  }

  /** `feature_dict[col][i] = value(col)` for every listed column, in order. */
  method SetAt(columns: map<string, seq<real>>, names: seq<string>, i: nat, value: string -> real)
    returns (r: map<string, seq<real>>)
    requires forall c :: c in names ==> c in columns && i < |columns[c]|
    ensures r.Keys == columns.Keys
    ensures forall c :: c in r ==> |r[c]| == |columns[c]|
    ensures forall c, j :: c in r && 0 <= j < |r[c]| ==>
              r[c][j] == if j == i && c in names then value(c) else columns[c][j]
  {
    r := columns;
    for k := 0 to |names|
      invariant r.Keys == columns.Keys
      invariant forall c :: c in r ==> |r[c]| == |columns[c]|
      invariant forall c, j :: c in r && 0 <= j < |r[c]| ==>
                  r[c][j] == if j == i && c in names[..k] then value(c) else columns[c][j]
    {
      var c := names[k];
      r := r[c := r[c][i := value(c)]];
    }
  }

  /** `for col in names: feature_dict[col] = np.zeros(n)`. */
  method ZeroColumns(names: seq<string>, n: nat) returns (columns: map<string, seq<real>>)
    ensures forall c :: c in columns <==> c in names
    ensures forall c :: c in columns ==> columns[c] == Zeros(n)
  {
    columns := map[];
    for k := 0 to |names|
      invariant forall c :: c in columns <==> c in names[..k]
      invariant forall c :: c in columns ==> columns[c] == Zeros(n)
    {
      columns := columns[names[k] := Zeros(n)];
    }
    assert names[..|names|] == names;
  }

  /** The three loops that record training's feature names. */
  method AssembleFeatureNames() returns (names: seq<string>)
    ensures names == TrainingFeatureOrder()
  {
    names := [];
    for k := 0 to |TemporalFeatures|
      invariant names == TemporalFeatures[..k]
    {
      names := names + [TemporalFeatures[k]];
    }
    for k := 0 to |CategoricalColumns|
      invariant names == TemporalFeatures + CategoricalColumns[..k]
    {
      names := names + [CategoricalColumns[k]];
    }
    for k := 0 to |NumericFeatures|
      invariant names == TemporalFeatures + CategoricalColumns + NumericFeatures[..k]
    {
      names := names + [NumericFeatures[k]];
    }
  }

  /** `np.column_stack([feature_dict[name] for name in feature_columns])`. */
  function Stack(fc: seq<string>, dates: seq<DateInfo>, locs: seq<Feature>, imputed: map<string, seq<real>>): seq<seq<Feature>>
    requires forall k :: 0 <= k < |fc| && fc[k] !in TemporalFeatures && fc[k] != "Location" ==>
               fc[k] in imputed && |imputed[fc[k]]| == |dates|
    requires "Location" in fc ==> |locs| == |dates|
  {
    seq(|dates|, i requires 0 <= i < |dates| =>
      seq(|fc|, k requires 0 <= k < |fc| =>
        if fc[k] in TemporalFeatures then Num(TemporalValue(dates[i], fc[k]))
        else if fc[k] == "Location" then locs[i]
        else Num(imputed[fc[k]][i])))
  }

  /** Stacking imputed columns that hold the imputed values gives the inference matrix. */
  lemma StackedMatrix(st: PredictorState, dates: seq<DateInfo>, locations: seq<string>,
                      locs: seq<Feature>, imputed: map<string, seq<real>>)
    requires EncodedLocations(st, locations) == Success(locs)
    requires FirstMissingName(st.featureColumns).None? && |st.featureColumns| > 0
    requires "Location" in st.featureColumns ==> |locations| == |dates|
    requires forall c :: c in imputed <==> c in ImputedColumns()
    requires forall c :: c in imputed ==> |imputed[c]| == |dates|
    requires forall c, j :: c in imputed && 0 <= j < |dates| ==> imputed[c][j] == ImputedValue(st, dates, locations, c, j)
    ensures forall k :: 0 <= k < |st.featureColumns| && st.featureColumns[k] !in TemporalFeatures && st.featureColumns[k] != "Location" ==>
              st.featureColumns[k] in imputed
    ensures InferenceMatrix(st, dates, locations) == Success(Stack(st.featureColumns, dates, locs, imputed))
  {
    var fc := st.featureColumns;
    assert forall k :: 0 <= k < |fc| ==> IsFeatureName(fc[k]);
    var x := Stack(fc, dates, locs, imputed);
    var y := InferenceMatrix(st, dates, locations).value;
    assert |x| == |y|;
    forall i | 0 <= i < |dates| ensures x[i] == y[i] {
      assert |x[i]| == |y[i]|;
      forall k | 0 <= k < |fc| ensures x[i][k] == y[i][k] {
        assert y[i][k] == FeatureAt(st, dates, locations, locs, fc[k], i);
      }
    }
    assert x == y;
  }

  /** What `_calculate_location_statistics` derives from the training frame. */
  datatype TrainingStatistics = TrainingStatistics(perLocation: map<string, LocationStats>, global: GlobalStats)

  /** `predict` accepts a single date or location as well as a list. */
  datatype Batch<T> = One(item: T) | Many(items: seq<T>)

  function AsList<T>(b: Batch<T>): seq<T> {
    match b
    case One(x) => [x]
    case Many(xs) => xs
  }

  /** One vote of the scaled forest: a class in {0, 1} and the probability of class 1. */
  datatype Vote = Vote(outcome: int, probability: real)

  type ForestVote = v: Vote | (v.outcome == 0 || v.outcome == 1) && 0.0 <= v.probability <= 1.0
    witness Vote(0, 0.0)

  /** Whether some entry is a location name left unencoded. */
  predicate HasText(x: seq<seq<Feature>>) {
    exists i, k :: 0 <= i < |x| && 0 <= k < |x[i]| && x[i][k].Text?
  }

  function Numbers(x: seq<seq<Feature>>): seq<seq<real>>
    requires !HasText(x)
  {
    seq(|x|, i requires 0 <= i < |x| => seq(|x[i]|, k requires 0 <= k < |x[i]| => x[i][k].x))
  }

  /**
   * `predict(dates, locations)` on a given state: the fitted guard, the
   * feature matrix, and the scaler, which refuses an empty or non-numeric
   * matrix; then one vote per row.
   */
  function Prediction(st: PredictorState, dates: seq<DateInfo>, locations: seq<string>,
                      forest: seq<real> -> ForestVote): (r: Result<(seq<int>, seq<real>), Error>)
    ensures !st.isFitted ==> r == Failure(NotFitted)
    ensures st.isFitted && InferenceMatrix(st, dates, locations).Failure? ==> r == Failure(InferenceMatrix(st, dates, locations).error)
    ensures r.Success? ==> st.isFitted && InferenceMatrix(st, dates, locations).Success?
  {
    if !st.isFitted then Failure(NotFitted)
    else
      match InferenceMatrix(st, dates, locations)
      case Failure(e) => Failure(e)
      case Success(x) =>
        if |x| == 0 then Failure(NoSamples)
        else if HasText(x) then Failure(NonNumericFeature)
        else
          var rows := Numbers(x);
          Success((seq(|rows|, i requires 0 <= i < |rows| => forest(rows[i]).outcome),
                   seq(|rows|, i requires 0 <= i < |rows| => forest(rows[i]).probability)))
  }

  /** A successful prediction has one class in {0, 1} and one probability in [0, 1] per date. */
  lemma PredictionShape(st: PredictorState, dates: seq<DateInfo>, locations: seq<string>, forest: seq<real> -> ForestVote)
    requires Prediction(st, dates, locations, forest).Success?
    ensures st.isFitted
    ensures var (classes, probs) := Prediction(st, dates, locations, forest).value;
            && |classes| == |probs| == |dates| > 0
            && (forall i :: 0 <= i < |classes| ==> classes[i] == 0 || classes[i] == 1)
            && (forall i :: 0 <= i < |probs| ==> 0.0 <= probs[i] <= 1.0)
    ensures var rows := Numbers(InferenceMatrix(st, dates, locations).value);
            var (classes, probs) := Prediction(st, dates, locations, forest).value;
            && |rows| == |dates|
            && forall i :: 0 <= i < |rows| ==> classes[i] == forest(rows[i]).outcome && probs[i] == forest(rows[i]).probability
  {
    var rows := Numbers(InferenceMatrix(st, dates, locations).value);
    forall i | 0 <= i < |rows| ensures 0.0 <= forest(rows[i]).probability <= 1.0 {
      var v: ForestVote := forest(rows[i]);
    }
  }

  class WeatherPredictor {
    var labelEncoders: map<string, set<string>>
    var locationStats: map<string, LocationStats>
    var globalStats: GlobalStats
    var featureColumns: seq<string>
    var isFitted: bool

    function State(): PredictorState
      reads this
    {
      PredictorState(labelEncoders, locationStats, globalStats, featureColumns, isFitted)
    }

    /** A new predictor: no encoders, no statistics, no feature order, not fitted. */
    constructor ()
      ensures State() == PredictorState(map[], map[], GlobalStats(map[], map[]), [], false)
    {
      labelEncoders := map[];
      locationStats := map[];
      globalStats := GlobalStats(map[], map[]);
      featureColumns := [];
      isFitted := false;
    }

    /**
     * `_encode_categorical(df, columns, fit)`: with `fit`, each listed column
     * of the frame gets an encoder fitted on it before it is transformed.
     */
    method EncodeCategorical(df: Frame, columns: seq<string>, fit: bool) returns (r: Result<map<string, seq<nat>>, Error>)
      modifies this`labelEncoders
      ensures labelEncoders == if fit then Refit(old(labelEncoders), df, columns) else old(labelEncoders)
      ensures locationStats == old(locationStats) && globalStats == old(globalStats)
      ensures featureColumns == old(featureColumns) && isFitted == old(isFitted)
      ensures r == EncodeAll(labelEncoders, df, columns)
      ensures fit ==> r.Success?
    {
      var enc := labelEncoders;
      ghost var start := enc;
      var encoded: map<string, seq<nat>> := map[];
      for k := 0 to |columns|
        invariant enc == if fit then Refit(start, df, columns[..k]) else start
        invariant EncodeAll(enc, df, columns[..k]) == Success(encoded)
      {
        var col := columns[k];
        EncodeAllStep(enc, df, columns, k);
        if fit {
          RefitStep(start, df, columns, k);
        }
        if col !in df {
          continue;
        }
        if fit {
          RefitKeepsEarlier(start, df, columns, k);
          enc := enc[col := FittedClasses(df[col])];
          EncodeAllStep(enc, df, columns, k);
          FittedColumnEncodes(col, df[col]);
        }
        if col in enc {
          var codes := EncodeColumn(col, enc[col], df[col]);
          if codes.Failure? {
            labelEncoders := enc;
            r := Failure(codes.error);
            EncodeAllFailureSticks(enc, df, columns, k + 1);
            return;
          }
          encoded := encoded[col := codes.value];
        }
      }
      assert columns[..|columns|] == columns;
      labelEncoders := enc;
      r := Success(encoded);
    }

    /** Lines 347-367 and 383-384 for sample `i`: the numeric columns. */
    method ImputeNumericSample(imputed: map<string, seq<real>>, i: nat, location: string, month: int)
      returns (r: map<string, seq<real>>)
      requires forall c :: c in NumericFeatures ==> c in imputed && i < |imputed[c]|
      ensures r.Keys == imputed.Keys
      ensures forall c :: c in r ==> |r[c]| == |imputed[c]|
      ensures forall c, j :: c in r && 0 <= j < |r[c]| ==>
                r[c][j] == if j == i && c in NumericFeatures then ImputeNumeric(locationStats, globalStats, location, month, c)
                           else imputed[c][j]
    {
      var g := globalStats;
      if location in locationStats {
        var ls := locationStats[location];
        if ls.seasonal.Some? && month in ls.seasonal.value {
          var season := ls.seasonal.value[month];
          r := SetAt(imputed, NumericFeatures, i,
            c => if c in season then season[c] else if c in ls.numeric then ls.numeric[c].mean else GlobalMean(g, c));
        } else {
          r := SetAt(imputed, NumericFeatures, i,
            c => if c in ls.numeric then ls.numeric[c].mean else GlobalMean(g, c));
        }
      } else {
        r := SetAt(imputed, NumericFeatures, i, c => GlobalMean(g, c));
      }
    }

    /** Lines 347-348, 369-380 and 385-386 for sample `i`: the categorical columns. */
    method ImputeCategoricalSample(imputed: map<string, seq<real>>, i: nat, location: string)
      returns (r: map<string, seq<real>>)
      requires forall c :: c in CategoricalFeatures ==> c in imputed && i < |imputed[c]|
      ensures r.Keys == imputed.Keys
      ensures forall c :: c in r ==> |r[c]| == |imputed[c]|
      ensures forall c, j :: c in r && 0 <= j < |r[c]| ==>
                r[c][j] == if j == i && c in CategoricalFeatures then ImputeCategorical(locationStats, labelEncoders, location, c) as real
                           else imputed[c][j]
    {
      if location in locationStats {
        var ls := locationStats[location];
        var enc := labelEncoders;
        r := SetAt(imputed, CategoricalFeatures, i,
          c => if c in ls.modes && c in enc && ls.modes[c] in enc[c] then Rank(enc[c], ls.modes[c]) as real else 0.0);
      } else {
        r := SetAt(imputed, CategoricalFeatures, i, c => 0.0);
      }
    }

    /** Lines 347-386 for sample `i`: every imputed column gets the sample's value. */
    method ImputeSample(imputed: map<string, seq<real>>, i: nat, location: string, month: int)
      returns (r: map<string, seq<real>>)
      requires forall c :: c in imputed <==> c in ImputedColumns()
      requires forall c :: c in imputed ==> i < |imputed[c]|
      ensures r.Keys == imputed.Keys
      ensures forall c :: c in r ==> |r[c]| == |imputed[c]|
      ensures forall c, j :: c in r && 0 <= j < |r[c]| ==>
                r[c][j] == if j != i then imputed[c][j]
                           else if c in CategoricalFeatures then ImputeCategorical(locationStats, labelEncoders, location, c) as real
                           else ImputeNumeric(locationStats, globalStats, location, month, c)
    {
      r := ImputeNumericSample(imputed, i, location, month);
      r := ImputeCategoricalSample(r, i, location);
    }

    /** Lines 345-386: the loop over the samples that have both a date and a location. */
    method FillImputed(zeros: map<string, seq<real>>, dates: seq<DateInfo>, locations: seq<string>)
      returns (imputed: map<string, seq<real>>)
      requires forall c :: c in zeros <==> c in ImputedColumns()
      requires forall c :: c in zeros ==> zeros[c] == Zeros(|dates|)
      ensures forall c :: c in imputed <==> c in ImputedColumns()
      ensures forall c :: c in imputed ==> |imputed[c]| == |dates|
      ensures forall c, j :: c in imputed && 0 <= j < |dates| ==> imputed[c][j] == ImputedValue(State(), dates, locations, c, j)
    {
      imputed := zeros;
      var n := |dates|;
      var i := 0;
      while i < n && i < |locations|
        invariant 0 <= i <= n
        invariant forall c :: c in imputed <==> c in ImputedColumns()
        invariant forall c :: c in imputed ==> |imputed[c]| == n
        invariant forall c, j :: c in imputed && 0 <= j < n ==>
                    imputed[c][j] == if j < i then ImputedValue(State(), dates, locations, c, j) else 0.0
      {
        imputed := ImputeSample(imputed, i, locations[i], dates[i].month);
        i := i + 1;
      }
    }

    /**
     * `_prepare_inference_features(dates, locations)`: the location column
     * is encoded, the imputed columns start at zero and are filled sample by
     * sample, and the columns are stacked in the stored order.
     */
    method PrepareInferenceFeatures(dates: seq<DateInfo>, locations: seq<string>) returns (r: Result<seq<seq<Feature>>, Error>)
      ensures r == InferenceMatrix(State(), dates, locations)
    {
      var n := |dates|;
      var encoded := EncodedLocations(State(), locations);
      if encoded.Failure? {
        return Failure(encoded.error);
      }
      var locs := encoded.value;

      var names := ImputedColumns();
      var imputed := ZeroColumns(names, n);

      imputed := FillImputed(imputed, dates, locations);

      var fc := featureColumns;
      var missing := FirstMissingName(fc);
      if missing.Some? {
        return Failure(MissingFeature(missing.value));
      }
      if |fc| == 0 {
        return Failure(NoFeatures);
      }
      if "Location" in fc && |locations| != n {
        return Failure(LengthMismatch);
      }
      StackedMatrix(State(), dates, locations, locs, imputed);
      r := Success(Stack(fc, dates, locs, imputed));
    }

    /**
     * `train(df)` on the fields the model keeps: the column checks, the
     * statistics (given), the encoders fitted on the labelled rows, and the
     * recorded feature order.
     */
    method Train(df: Frame, stats: TrainingStatistics) returns (r: Outcome<Error>)
      modifies this
      ensures !("Date" in df && "Location" in df) ==> r == Fail(MissingDateOrLocation) && State() == old(State())
      ensures ("Date" in df && "Location" in df) && "RainTomorrow" !in df ==> r == Fail(MissingTarget) && State() == old(State())
      ensures ("Date" in df && "Location" in df && "RainTomorrow" in df) ==>
                locationStats == old(locationStats) + stats.perLocation && globalStats == stats.global
      ensures ("Date" in df && "Location" in df && "RainTomorrow" in df) && !HasColumns(df, CategoricalColumns) ==>
                r == Fail(MissingCategoricalColumn) && labelEncoders == old(labelEncoders)
      ensures ("Date" in df && "Location" in df && "RainTomorrow" in df) && HasColumns(df, CategoricalColumns) ==>
                labelEncoders == TrainedEncoders(old(labelEncoders), df)
      ensures r.Pass? <==> ("Date" in df && "Location" in df && "RainTomorrow" in df) && HasColumns(df, CategoricalColumns)
                           && HasColumns(df, NumericFeatures)
      ensures r.Fail? ==> featureColumns == old(featureColumns) && isFitted == old(isFitted)
      ensures r.Pass? ==> featureColumns == TrainingFeatureOrder() && isFitted
    {
      if !("Date" in df && "Location" in df) {
        return Fail(MissingDateOrLocation);
      }
      if "RainTomorrow" !in df {
        return Fail(MissingTarget);
      }
      locationStats := locationStats + stats.perLocation;
      globalStats := stats.global;
      if !HasColumns(df, CategoricalColumns) {
        return Fail(MissingCategoricalColumn);
      }
      var filled := FillColumns(Labelled(df), CategoricalColumns);
      var _ := EncodeCategorical(filled, CategoricalColumns, true);
      if !HasColumns(df, NumericFeatures) {
        return Fail(MissingNumericColumn);
      }
      var names := AssembleFeatureNames();
      featureColumns := names;
      isFitted := true;
      r := Pass;
    }

    /**
     * `predict(dates, locations)`: raises unless trained, wraps single
     * inputs in lists, and votes on every feature row.
     */
    method Predict(dates: Batch<DateInfo>, locations: Batch<string>, forest: seq<real> -> ForestVote)
      returns (r: Result<(seq<int>, seq<real>), Error>)
      ensures r == Prediction(State(), AsList(dates), AsList(locations), forest)
      ensures !isFitted ==> r == Failure(NotFitted)
    {
      if !isFitted {
        return Failure(NotFitted);
      }
      var ds, ls := AsList(dates), AsList(locations);
      var x := PrepareInferenceFeatures(ds, ls);
      if x.Failure? {
        return Failure(x.error);
      }
      var m := x.value;
      if |m| == 0 {
        return Failure(NoSamples);
      }
      if HasText(m) {
        return Failure(NonNumericFeature);
      }
      var rows := Numbers(m);
      var classes := seq(|rows|, i requires 0 <= i < |rows| => forest(rows[i]).outcome);
      var probs := seq(|rows|, i requires 0 <= i < |rows| => forest(rows[i]).probability);
      r := Success((classes, probs));
    }
  }

  /**
   * A location outside the fitted classes, with no missing location at
   * training time, makes every prediction that includes it fail: the
   * global-statistics branch of the imputation is never reached for it.
   */
  lemma UnseenLocationFailsPrediction(st: PredictorState, dates: seq<DateInfo>, locations: seq<string>,
                                      forest: seq<real> -> ForestVote, i: nat)
    requires st.isFitted && "Location" in st.labelEncoders
    requires Unknown !in st.labelEncoders["Location"]
    requires i < |locations| && locations[i] !in st.labelEncoders["Location"]
    ensures Prediction(st, dates, locations, forest) == Failure(UnseenLabels("Location"))
  {
    var column := seq(|locations|, k requires 0 <= k < |locations| => Some(locations[k]));
    UnseenLabelRaises("Location", st.labelEncoders["Location"], column, i);
  }

  /** A predictor that was never trained refuses every prediction. */
  method PredictBeforeTraining(dates: Batch<DateInfo>, locations: Batch<string>, forest: seq<real> -> ForestVote)
    returns (r: Result<(seq<int>, seq<real>), Error>)
    ensures r == Failure(NotFitted)
  {
    var p := new WeatherPredictor();
    r := p.Predict(dates, locations, forest);
  }

  // ---------------------------------------------------------------------
  // The `/predict` route's label expressions (lines 597 and 605)
  // ---------------------------------------------------------------------

  /** `'Yes' if predictions[0] == 1 else 'No'`. */
  function PredictionLabel(prediction: int): (s: string)
    ensures s == "Yes" <==> prediction == 1
    ensures s == "No" <==> prediction != 1
  {
    if prediction == 1 then "Yes" else "No"
  }

  datatype Chance = Low | Moderate | High

  function ChanceName(c: Chance): string {
    match c
    case Low => "Low"
    case Moderate => "Moderate"
    case High => "High"
  }

  function Level(c: Chance): nat {
    match c
    case Low => 0
    case Moderate => 1
    case High => 2
  }

  /** The interpretation band of a probability; the boundaries 0.4 and 0.7 fall to the lower band. */
  function Interpretation(p: real): (c: Chance)
    ensures c == High <==> p > 0.7
    ensures c == Moderate <==> 0.4 < p <= 0.7
    ensures c == Low <==> p <= 0.4
  {
    if p > 0.7 then High else if p > 0.4 then Moderate else Low
  }

  /** The route's interpretation sentence. */
  function InterpretationText(p: real): string
  {
    ChanceName(Interpretation(p)) + " chance of rain tomorrow"
  }

  /** A higher probability never gets a lower band. */
  lemma InterpretationMonotone(p: real, q: real)
    requires p <= q
    ensures Level(Interpretation(p)) <= Level(Interpretation(q))
  {
  }
}
