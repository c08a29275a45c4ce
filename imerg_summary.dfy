/**
 * The summary `process_all_files` builds from the values the lookup gives
 * for each granule: the mean hourly rate, the daily amount, the share of
 * rainy values, the `will_it_rain` flag and an intensity category.
 */
module ImergSummary {
  import opened Wrappers
  import opened ImergExtract
  import opened SeqFacts

  /** A value above this rate (mm/hr) counts as rain. */
  const RainyThreshold: real := 0.1

  const NoDataMessage: string := "No valid precipitation data found"

  datatype Category = NoRain | LightRain | ModerateRain | HeavyRain

  /** The `rain_intensity_category` string. */
  function CategoryName(c: Category): string {
    match c
    case NoRain => "no rain"
    case LightRain => "light rain"
    case ModerateRain => "moderate rain"
    case HeavyRain => "heavy rain"
  }

  function Severity(c: Category): nat {
    match c
    case NoRain => 0
    case LightRain => 1
    case ModerateRain => 2
    case HeavyRain => 3
  }

  /**
   * The returned object: the error object when no value was collected, and
   * otherwise the report (the location string is not modelled).
   */
  datatype Summary =
    | NoData(error: string)
    | Report(averageHourly: Float, averageDaily: Float, rainProbabilityPercent: real,
             willItRain: bool, category: Category)

  /** `v > t` on a float: false for NaN. */
  predicate Exceeds(v: Float, t: real) {
    v.Num? && v.x > t
  }

  /** `v < t` on a float: false for NaN. */
  predicate Under(v: Float, t: real) {
    v.Num? && v.x < t
  }

  function Tripled(v: Float): Float {
    match v
    case Num(x) => Num(x * 3.0)
    case NaN => NaN
  }

  function RainyWeight(v: Float): real {
    if Exceeds(v, RainyThreshold) then 1.0 else 0.0
  }

  /** `sum(v > 0.1 for v in values)`. */
  function RainyCount(values: seq<Float>): real {
    SumBy(values, RainyWeight)
  }

  lemma {:induction false} RainyCountBounds(values: seq<Float>)
    ensures 0.0 <= RainyCount(values) <= |values| as real
  {
    if values != [] {
      RainyCountBounds(values[1..]);
    }
  }

  /** The positions of the readings above the rain threshold. */
  function RainyIndices(values: seq<Float>): set<nat> {
    set k: nat | k < |values| && Exceeds(values[k], RainyThreshold)
  }

  /** The weighted sum counts exactly the readings above the threshold. */
  lemma {:induction false} RainyCountIsCardinality(values: seq<Float>)
    ensures RainyCount(values) == |RainyIndices(values)| as real
    decreases |values|
  {
    if values != [] {
      var n := |values| - 1;
      var init, last := values[..n], values[n];
      RainyCountIsCardinality(init);
      assert values == init + [last];
      SumByConcat(init, [last], RainyWeight);
      assert SumBy([last], RainyWeight) == RainyWeight(last);
      assert forall k :: 0 <= k < n ==> values[k] == init[k];
      if Exceeds(last, RainyThreshold) {
        assert RainyIndices(values) == RainyIndices(init) + {n};
        assert n !in RainyIndices(init);
      } else {
        assert RainyIndices(values) == RainyIndices(init);
      }
    }
  }

  /** A part `c` of a whole `n`, as a percentage, lies in [0, 100]. */
  lemma ShareBounded(c: real, n: real)
    requires 0.0 <= c <= n && n > 0.0
    ensures c / n * 100.0 == 100.0 * c / n
    ensures 0.0 <= c / n * 100.0 <= 100.0
  {
    var q := c / n;
    assert q * n == c;
    assert (1.0 - q) * n == n - c;
  }

  /** The unrounded percentage `rainy_count / len(values) * 100`. */
  function RainPercentage(values: seq<Float>): (p: real)
    requires |values| > 0
    ensures p == 100.0 * |RainyIndices(values)| as real / |values| as real
    ensures 0.0 <= p <= 100.0
  {
    RainyCountBounds(values);
    RainyCountIsCardinality(values);
    ShareBounded(RainyCount(values), |values| as real);
    RainyCount(values) / |values| as real * 100.0
  }

  /** The number of tenths `round(x, 1)` gives: nearest to `10x`, a tie going to the even one. */
  function RoundedTenths(x: real): (n: int)
    ensures n as real - 0.5 <= x * 10.0 <= n as real + 0.5
    ensures x * 10.0 - (x * 10.0).Floor as real == 0.5 ==> n % 2 == 0
  {
    var f := (x * 10.0).Floor;
    var frac := x * 10.0 - f as real;
    if frac > 0.5 then f + 1
    else if frac < 0.5 then f
    else if f % 2 == 0 then f
    else f + 1
  }

  /** Python's `round(x, 1)`, taken on the exact value. */
  function Round1(x: real): (r: real)
    ensures r * 10.0 == RoundedTenths(x) as real
    ensures x - 0.05 <= r <= x + 0.05
  {
    RoundedTenths(x) as real / 10.0
  }

  lemma RoundKeepsPercentRange(x: real)
    requires 0.0 <= x <= 100.0
    ensures 0.0 <= Round1(x) <= 100.0
  {
    var n := RoundedTenths(x);
    assert 0.0 <= x * 10.0 <= 1000.0;
    assert -1 < n < 1001;
  }

  /** After rounding, `rain_prob > 30` holds exactly when the unrounded share exceeds 30.05%. */
  lemma RoundedAboveThirty(x: real)
    ensures Round1(x) > 30.0 <==> x > 30.05
  {
    var n := RoundedTenths(x);
    var f := (x * 10.0).Floor;
    assert Round1(x) > 30.0 <==> n > 300;
    if x > 30.05 {
      assert x * 10.0 > 300.5;
      assert n >= 301;
    } else {
      assert x * 10.0 <= 300.5;
      if x * 10.0 == 300.5 {
        assert f == 300;
      }
      assert n <= 300;
    }
  }

  /** The intensity category: `< 0.1`, `< 1`, `< 4`, and everything else, NaN included. */
  function Categorise(avg: Float): (c: Category)
    ensures avg.Num? ==> (c == NoRain <==> avg.x < 0.1)
    ensures avg.Num? ==> (c == LightRain <==> 0.1 <= avg.x < 1.0)
    ensures avg.Num? ==> (c == ModerateRain <==> 1.0 <= avg.x < 4.0)
    ensures avg.Num? ==> (c == HeavyRain <==> avg.x >= 4.0)
    ensures avg.NaN? ==> c == HeavyRain
  {
    if Under(avg, 0.1) then NoRain
    else if Under(avg, 1.0) then LightRain
    else if Under(avg, 4.0) then ModerateRain
    else HeavyRain
  }

  /** A larger average never gets a milder category. */
  lemma CategoryMonotone(a: real, b: real)
    requires a <= b
    ensures Severity(Categorise(Num(a))) <= Severity(Categorise(Num(b)))
  {
  }

  /** Lines 71-98 on the collected values. */
  function Summarise(values: seq<Float>): (s: Summary)
    ensures s.NoData? <==> |values| == 0
    ensures s.NoData? ==> s.error == NoDataMessage
    ensures s.Report? ==> 0.0 <= s.rainProbabilityPercent <= 100.0
    ensures s.Report? ==> RainPercentage(values) - 0.05 <= s.rainProbabilityPercent <= RainPercentage(values) + 0.05
  {
    if |values| == 0 then NoData(NoDataMessage)
    else
      var avg := Mean(values);
      var prob := Round1(RainPercentage(values));
      RoundKeepsPercentRange(RainPercentage(values));
      Report(avg, Tripled(avg), prob, prob > 30.0 || Exceeds(avg, 0.2), Categorise(avg))
  }

  /**
   * Over values without NaN the report's hourly mean is the sum over every
   * kept value, zeros included, divided by their number, its daily amount
   * three times that, and its category the band of that mean.
   */
  lemma ReportAverages(values: seq<Float>)
    requires |values| > 0 && NaN !in values
    ensures var s := Summarise(values);
            && s.averageHourly == Num(Total(values) / |values| as real)
            && s.averageDaily == Num(3.0 * Total(values) / |values| as real)
            && s.category == Categorise(s.averageHourly)
  {
  }

  /** A dry granule (value 0) lowers the mean: it joins the denominator. */
  lemma ZeroValueJoinsAverage(values: seq<Float>)
    requires |values| > 0 && NaN !in values
    ensures Summarise(values + [Num(0.0)]).averageHourly == Num(Total(values) / (|values| + 1) as real)
  {
    SumByConcat(values, [Num(0.0)], ValueOrZero);
    assert SumBy([Num(0.0)], ValueOrZero) == 0.0;
    assert NaN !in values + [Num(0.0)];
  }

  /** `will_it_rain` holds iff the unrounded share exceeds 30.05% or the mean exceeds 0.2 mm/hr. */
  lemma WillItRainIff(values: seq<Float>)
    requires |values| > 0
    ensures Summarise(values).willItRain <==> RainPercentage(values) > 30.05 || Exceeds(Mean(values), 0.2)
  {
    RoundedAboveThirty(RainPercentage(values));
  }

  /** One NaN among the values makes the mean NaN, and the category "heavy rain". */
  lemma NaNValueGivesHeavyRain(values: seq<Float>)
    requires NaN in values
    ensures Summarise(values).Report?
    ensures Summarise(values).averageHourly == NaN && Summarise(values).category == HeavyRain
  {
  }

  /** The summary does not depend on the order of the collected values. */
  lemma SummaryOrderIndependent(values: seq<Float>, shuffled: seq<Float>)
    requires multiset(values) == multiset(shuffled)
    ensures Summarise(values) == Summarise(shuffled)
  {
    assert |values| == |multiset(values)| == |shuffled|;
    assert NaN in values <==> NaN in shuffled by {
      assert NaN in values <==> NaN in multiset(values);
      assert NaN in shuffled <==> NaN in multiset(shuffled);
    }
    SumByPermutation(values, shuffled, ValueOrZero);
    SumByPermutation(values, shuffled, RainyWeight);
  }

  /** The values of the lookups that gave one, in order. */
  function Present(lookups: seq<Option<Float>>): (vs: seq<Float>)
    ensures |vs| <= |lookups|
  {
    if lookups == [] then []
    else
      var rest := Present(lookups[..|lookups| - 1]);
      match lookups[|lookups| - 1]
      case None => rest
      case Some(v) => rest + [v]
  }

  /** A value is present exactly when some lookup gave it. */
  lemma {:induction false} PresentMember(lookups: seq<Option<Float>>, v: Float)
    ensures v in Present(lookups) <==> Some(v) in lookups
    decreases |lookups|
  {
    if lookups != [] {
      var init := lookups[..|lookups| - 1];
      PresentMember(init, v);
      assert lookups == init + [lookups[|lookups| - 1]];
    }
  }

  /** Each value is present as many times as a lookup gave it. */
  lemma {:induction false} PresentCounts(lookups: seq<Option<Float>>, v: Float)
    ensures multiset(Present(lookups))[v] == multiset(lookups)[Some(v)]
    decreases |lookups|
  {
    if lookups != [] {
      var init := lookups[..|lookups| - 1];
      var last := lookups[|lookups| - 1];
      PresentCounts(init, v);
      assert lookups == init + [last];
      assert multiset(lookups) == multiset(init) + multiset{last};
      if last.Some? {
        assert Present(lookups) == Present(init) + [last.value];
        assert multiset(Present(lookups)) == multiset(Present(init)) + multiset{last.value};
      } else {
        assert Present(lookups) == Present(init);
      }
    }
  }

  /** The lookup result of every granule of the listing. */
  function Lookups(files: seq<Granule>, lat: real, lon: real, dropNaN: bool): (r: seq<Option<Float>>)
    ensures |r| == |files|
  {
    seq(|files|, k requires 0 <= k < |files| => ExtractWith(files[k], lat, lon, DefaultMaxRadius, dropNaN))
  }

  /** The `values` list: the lookup result of every granule that gave one, in listing order. */
  function CollectWith(files: seq<Granule>, lat: real, lon: real, dropNaN: bool): (vs: seq<Float>)
    ensures |vs| <= |files|
  {
    Present(Lookups(files, lat, lon, dropNaN))
  }

  /** What `process_all_files` collects, as written. */
  function Collected(files: seq<Granule>, lat: real, lon: real): (vs: seq<Float>)
    ensures |vs| <= |files|
  {
    CollectWith(files, lat, lon, false)
  }

  /** A value is collected exactly when some granule's lookup gives it. */
  lemma CollectedMembers(files: seq<Granule>, lat: real, lon: real, dropNaN: bool)
    ensures forall v :: v in CollectWith(files, lat, lon, dropNaN) <==>
              exists k :: 0 <= k < |files| && ExtractWith(files[k], lat, lon, DefaultMaxRadius, dropNaN) == Some(v)
  {
    var lookups := Lookups(files, lat, lon, dropNaN);
    forall v ensures v in Present(lookups) <==>
                     exists k :: 0 <= k < |files| && ExtractWith(files[k], lat, lon, DefaultMaxRadius, dropNaN) == Some(v)
    {
      PresentMember(lookups, v);
      if Some(v) in lookups {
        var k :| 0 <= k < |lookups| && lookups[k] == Some(v);
        assert ExtractWith(files[k], lat, lon, DefaultMaxRadius, dropNaN) == Some(v);
      }
      if exists k :: 0 <= k < |files| && ExtractWith(files[k], lat, lon, DefaultMaxRadius, dropNaN) == Some(v) {
        var k :| 0 <= k < |files| && ExtractWith(files[k], lat, lon, DefaultMaxRadius, dropNaN) == Some(v);
        assert lookups[k] == Some(v);
      }
    }
  }

  /** Each value is collected as many times as a granule's lookup gives it. */
  lemma CollectedCounts(files: seq<Granule>, lat: real, lon: real, dropNaN: bool, v: Float)
    ensures multiset(CollectWith(files, lat, lon, dropNaN))[v] == multiset(Lookups(files, lat, lon, dropNaN))[Some(v)]
  {
    PresentCounts(Lookups(files, lat, lon, dropNaN), v);
  }

  /** The summary does not depend on the order in which the directory lists the granules. */
  lemma ListingOrderIndependent(files: seq<Granule>, shuffled: seq<Granule>, lat: real, lon: real, dropNaN: bool)
    requires multiset(files) == multiset(shuffled)
    ensures Summarise(CollectWith(files, lat, lon, dropNaN)) == Summarise(CollectWith(shuffled, lat, lon, dropNaN))
  {
    var lookup := (file: Granule) => ExtractWith(file, lat, lon, DefaultMaxRadius, dropNaN);
    assert Lookups(files, lat, lon, dropNaN) == Apply(lookup, files);
    assert Lookups(shuffled, lat, lon, dropNaN) == Apply(lookup, shuffled);
    ApplyPermutation(lookup, files, shuffled);
    var a, b := CollectWith(files, lat, lon, dropNaN), CollectWith(shuffled, lat, lon, dropNaN);
    forall v ensures multiset(a)[v] == multiset(b)[v] {
      CollectedCounts(files, lat, lon, dropNaN, v);
      CollectedCounts(shuffled, lat, lon, dropNaN, v);
    }
    assert multiset(a) == multiset(b);
    SummaryOrderIndependent(a, b);
  }

  /** The error object comes back exactly when no granule gave a value. */
  lemma NoDataIffNothingFound(files: seq<Granule>, lat: real, lon: real)
    ensures Summarise(Collected(files, lat, lon)).NoData? <==>
            forall k :: 0 <= k < |files| ==> Extract(files[k], lat, lon, DefaultMaxRadius).None?
  {
    CollectedMembers(files, lat, lon, false);
    var vs := Collected(files, lat, lon);
    if |vs| > 0 {
      assert vs[0] in vs;
    }
    if exists k :: 0 <= k < |files| && Extract(files[k], lat, lon, DefaultMaxRadius).Some? {
      var k :| 0 <= k < |files| && Extract(files[k], lat, lon, DefaultMaxRadius).Some?;
      assert Extract(files[k], lat, lon, DefaultMaxRadius).value in vs;
    }
  }

  /**
   * With the corrected lookup the summary's mean is always a number, so the
   * category is decided by the thresholds alone.
   */
  lemma CorrectedSummaryIsNumeric(files: seq<Granule>, lat: real, lon: real)
    ensures var s := Summarise(CollectWith(files, lat, lon, true));
            s.Report? ==> s.averageHourly.Num? && s.averageHourly == Num(Total(CollectWith(files, lat, lon, true)) / |CollectWith(files, lat, lon, true)| as real)
  {
    CollectedMembers(files, lat, lon, true);
    forall k | 0 <= k < |files| ensures ExtractWith(files[k], lat, lon, DefaultMaxRadius, true) != Some(NaN) {
      ExtractCorrectedNeverNaN(files[k], lat, lon, DefaultMaxRadius);
    }
  }

  /**
   * `process_all_files(data_dir, lat, lon)` over the granules of the listing,
   * appending each value the lookup gives.
   */
  method ProcessAllFiles(files: seq<Granule>, lat: real, lon: real) returns (s: Summary)
    ensures s == Summarise(Collected(files, lat, lon))
  {
    var values: seq<Float> := [];
    for k := 0 to |files|
      invariant values == Collected(files[..k], lat, lon)
    {
      var before := Lookups(files[..k], lat, lon, false);
      var after := Lookups(files[..k + 1], lat, lon, false);
      assert after[..k] == before;
      var v := ExtractPrecipAtLocation(files[k], lat, lon, DefaultMaxRadius);
      assert after[k] == v;
      if v.Some? {
        values := values + [v.value];
      }
    }
    assert files[..|files|] == files;
    s := Summarise(values);
  }
}
