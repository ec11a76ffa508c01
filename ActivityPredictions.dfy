/**
 * github_activity_predictions.py: guarded ratios of contribution counts and
 * day counts, threshold classifiers, and the compounding projection of
 * account longevity. Python's true division is modelled on `real`; the
 * rounding applied to returned values is not modelled.
 */
module ActivityPredictions {
  import opened Util

  // ---------------------------------------------------------------------------
  // predict_long_term_activity
  // ---------------------------------------------------------------------------

  datatype Trend = Increasing | Stable | Decreasing | InsufficientData {
    function Label(): string {
      match this
      case Increasing => "increasing"
      case Stable => "stable"
      case Decreasing => "decreasing"
      case InsufficientData => "insufficient data"
    }
  }

  datatype LongTermActivity = LongTermActivity(lifetimeRate: real, currentRate: real, trend: Trend)

  /**
   * The lifetime rate (contributions per day since the account was created)
   * against the current rate (this year's contributions per active day), and
   * the trend their comparison shows.
   */
  function PredictLongTermActivity(totalContributions: int, githubDays: int,
                                   currentYearContributions: int, activeDays: int): (r: LongTermActivity)
    ensures r.trend == InsufficientData <==> githubDays == 0 || activeDays == 0
    ensures r.trend == InsufficientData ==> r.lifetimeRate == 0.0 && r.currentRate == 0.0
    ensures r.trend != InsufficientData ==>
      && r.lifetimeRate * githubDays as real == totalContributions as real
      && (activeDays > 0 ==> r.currentRate * activeDays as real == currentYearContributions as real)
      && (activeDays < 0 ==> r.currentRate == 0.0)
      && (r.trend == Increasing <==> r.currentRate > r.lifetimeRate)
      && (r.trend == Stable <==> r.currentRate == r.lifetimeRate)
      && (r.trend == Decreasing <==> r.currentRate < r.lifetimeRate)
  {
    if githubDays == 0 || activeDays == 0 then
      LongTermActivity(0.0, 0.0, InsufficientData)
    else
      var lifetimeRate := totalContributions as real / githubDays as real;
      var currentRate := if activeDays > 0 then currentYearContributions as real / activeDays as real else 0.0;
      var trend := if currentRate > lifetimeRate then Increasing
                   else if currentRate == lifetimeRate then Stable
                   else Decreasing;
      LongTermActivity(lifetimeRate, currentRate, trend)
  }

  /**
   * For positive day counts the trend is decided by comparing the
   * cross-multiplied integer counts, so no division is needed to predict it.
   */
  lemma TrendByCrossMultiplication(totalContributions: int, githubDays: int,
                                   currentYearContributions: int, activeDays: int)
    requires githubDays > 0 && activeDays > 0
    ensures var t := PredictLongTermActivity(totalContributions, githubDays, currentYearContributions, activeDays).trend;
      && (t == Increasing <==> currentYearContributions * githubDays > totalContributions * activeDays)
      && (t == Stable <==> currentYearContributions * githubDays == totalContributions * activeDays)
      && (t == Decreasing <==> currentYearContributions * githubDays < totalContributions * activeDays)
  {
    var r := PredictLongTermActivity(totalContributions, githubDays, currentYearContributions, activeDays);
    var g, a := githubDays as real, activeDays as real;
    var ag := a * g;
    assert ag > 0.0;
    assert r.currentRate * ag == currentYearContributions as real * g;
    assert r.lifetimeRate * ag == totalContributions as real * a;
    assert (currentYearContributions * githubDays) as real == currentYearContributions as real * g;
    assert (totalContributions * activeDays) as real == totalContributions as real * a;
    if r.currentRate > r.lifetimeRate {
      assert r.currentRate * ag > r.lifetimeRate * ag;
    } else if r.currentRate < r.lifetimeRate {
      assert r.currentRate * ag < r.lifetimeRate * ag;
    }
  }

  // ---------------------------------------------------------------------------
  // predict_future_active_days
  // ---------------------------------------------------------------------------

  /** The active days expected in the remaining days, at the lifetime share of active days. */
  function PredictFutureActiveDays(activeDays: int, githubDays: int, remainingDays: int): (r: real)
    ensures githubDays == 0 ==> r == 0.0
    ensures githubDays != 0 ==> r * githubDays as real == activeDays as real * remainingDays as real
  {
    if githubDays == 0 then 0.0
    else (activeDays as real / githubDays as real) * remainingDays as real
  }

  /** When active days never exceed the account's age, the prediction lies between 0 and the remaining days. */
  lemma FutureActiveDaysWithinRemaining(activeDays: int, githubDays: int, remainingDays: int)
    requires 0 <= activeDays <= githubDays && 0 <= remainingDays
    ensures 0.0 <= PredictFutureActiveDays(activeDays, githubDays, remainingDays) <= remainingDays as real
  {
    if githubDays != 0 {
      var share := activeDays as real / githubDays as real;
      assert share * githubDays as real == activeDays as real;
      assert 0.0 <= share <= 1.0;
      assert share * remainingDays as real <= 1.0 * remainingDays as real;
    }
  }

  /** For any non-negative counts, even more active days than days of age, the prediction is not negative. */
  lemma FutureActiveDaysNonNegative(activeDays: int, githubDays: int, remainingDays: int)
    requires 0 <= activeDays && 0 <= githubDays && 0 <= remainingDays
    ensures 0.0 <= PredictFutureActiveDays(activeDays, githubDays, remainingDays)
  {
    if githubDays != 0 {
      var share := activeDays as real / githubDays as real;
      assert share * githubDays as real == activeDays as real;
      assert share >= 0.0;
    }
  }

  // ---------------------------------------------------------------------------
  // Year-over-year changes (predict_burnout, predict_account_longevity)
  // ---------------------------------------------------------------------------

  /** Multiplying by a non-negative factor keeps the order. */
  lemma ScaleMonotone(x: real, y: real, g: real)
    requires x <= y && g >= 0.0
    ensures x * g <= y * g
  {
  }

  /** A positive factor can be divided out of an inequality. */
  lemma CancelPositive(x: real, y: real, g: real)
    requires g > 0.0 && x * g <= y * g
    ensures x <= y
  {
  }

  /** A positive factor can be divided out of a strict inequality. */
  lemma CancelPositiveStrict(x: real, y: real, g: real)
    requires g > 0.0 && x * g < y * g
    ensures x < y
  {
  }

  /** The sum of a sequence of reals. */
  function Total(xs: seq<real>): real {
    if xs == [] then 0.0 else Total(xs[..|xs| - 1]) + xs[|xs| - 1]
  }

  /** The arithmetic mean, `sum(xs) / len(xs)`. */
  function Mean(xs: seq<real>): real
    requires xs != []
  {
    Total(xs) / |xs| as real
  }

  /** If every element lies in [lo, hi], so does the total divided by the count. */
  lemma {:induction false} TotalBounds(xs: seq<real>, lo: real, hi: real)
    requires forall i :: 0 <= i < |xs| ==> lo <= xs[i] <= hi
    ensures |xs| as real * lo <= Total(xs) <= |xs| as real * hi
  {
    if xs != [] {
      TotalBounds(xs[..|xs| - 1], lo, hi);
    }
  }

  /** If every element exceeds `lo`, the total exceeds the count times `lo`. */
  lemma {:induction false} TotalAbove(xs: seq<real>, lo: real)
    requires xs != [] && forall i :: 0 <= i < |xs| ==> lo < xs[i]
    ensures |xs| as real * lo < Total(xs)
  {
    if |xs| > 1 {
      TotalAbove(xs[..|xs| - 1], lo);
    }
  }

  /** If every element is below `hi`, the total is below the count times `hi`. */
  lemma {:induction false} TotalBelow(xs: seq<real>, hi: real)
    requires xs != [] && forall i :: 0 <= i < |xs| ==> xs[i] < hi
    ensures Total(xs) < |xs| as real * hi
  {
    if |xs| > 1 {
      TotalBelow(xs[..|xs| - 1], hi);
    }
  }

  /** The relative change from `prev` to `curr`, taken as 0 when `prev` is not positive. */
  function Change(curr: int, prev: int): real {
    if prev > 0 then (curr - prev) as real / prev as real else 0.0
  }

  /** The percentage change from `prev` to `curr`, taken as 0 when `prev` is not positive. */
  function PercentChange(curr: int, prev: int): real {
    if prev > 0 then (curr - prev) as real / prev as real * 100.0 else 0.0
  }

  /** `(curr - prev) / prev * 100` for each consecutive pair, most recent year first. */
  function PercentChanges(history: seq<int>): (changes: seq<real>)
    requires |history| >= 1
    ensures |changes| == |history| - 1
    ensures forall i :: 0 <= i < |changes| ==> changes[i] == PercentChange(history[i], history[i + 1])
  {
    seq(|history| - 1, i requires 0 <= i < |history| - 1 => PercentChange(history[i], history[i + 1]))
  }

  /** `(curr - prev) / prev` for each consecutive pair, most recent year first. */
  function FractionalChanges(history: seq<int>): (changes: seq<real>)
    requires |history| >= 1
    ensures |changes| == |history| - 1
  {
    seq(|history| - 1, i requires 0 <= i < |history| - 1 => Change(history[i], history[i + 1]))
  }

  /** Each entry is the change from the older year of its pair to the newer one. */
  lemma FractionalChangesElements(history: seq<int>)
    requires |history| >= 1
    ensures forall i :: 0 <= i < |history| - 1 ==>
      FractionalChanges(history)[i] == Change(history[i], history[i + 1])
  {
  }

  // ---------------------------------------------------------------------------
  // predict_burnout
  // ---------------------------------------------------------------------------

  datatype BurnoutOutlook =
    | BurnoutUnknown
    | SignificantDecrease
    | GradualDecrease
    | SignificantIncrease
    | GradualIncrease
    | SteadyActivity
  {
    function Message(): string {
      match this
      case BurnoutUnknown => "Insufficient data for burnout prediction"
      case SignificantDecrease => "Significant decrease in activity, potential burnout risk"
      case GradualDecrease => "Activity is gradually decreasing"
      case SignificantIncrease => "Activity is significantly increasing"
      case GradualIncrease => "Activity is gradually increasing"
      case SteadyActivity => "Activity is stable"
    }
  }

  /** The bands of the average percentage change; together they cover every value once. */
  function ClassifyBurnout(averageChange: real): (o: BurnoutOutlook)
    ensures o != BurnoutUnknown
    ensures o == SignificantDecrease <==> averageChange < -20.0
    ensures o == GradualDecrease <==> -20.0 <= averageChange < -5.0
    ensures o == SignificantIncrease <==> averageChange > 20.0
    ensures o == GradualIncrease <==> 5.0 < averageChange <= 20.0
    ensures o == SteadyActivity <==> -5.0 <= averageChange <= 5.0
  {
    if averageChange < -20.0 then SignificantDecrease
    else if averageChange < -5.0 then GradualDecrease
    else if averageChange > 20.0 then SignificantIncrease
    else if averageChange > 5.0 then GradualIncrease
    else SteadyActivity
  }

  /** predict_burnout on the active days per year, most recent first. */
  function PredictBurnout(activeDaysByYear: seq<int>): (o: BurnoutOutlook)
    ensures o == BurnoutUnknown <==> |activeDaysByYear| < 2
    ensures |activeDaysByYear| >= 2 ==> o == ClassifyBurnout(Mean(PercentChanges(activeDaysByYear)))
  {
    if |activeDaysByYear| < 2 then BurnoutUnknown
    else ClassifyBurnout(Mean(PercentChanges(activeDaysByYear)))
  }

  /** `curr` is more than a fifth above a positive `prev`. */
  predicate UpByMoreThanAFifth(curr: int, prev: int) {
    prev > 0 && 5 * curr > 6 * prev
  }

  /** `curr` is more than a fifth below a positive `prev`. */
  predicate DownByMoreThanAFifth(curr: int, prev: int) {
    prev > 0 && 5 * curr < 4 * prev
  }

  /** A quotient by a positive number exceeds `c` when the dividend exceeds `c` times the divisor. */
  lemma RatioAbove(d: real, p: real, c: real)
    requires p > 0.0 && d > c * p
    ensures d / p > c
  {
    var q := d / p;
    assert q * p == d;
    assert c * p < q * p;
  }

  /** A quotient by a positive number is below `c` when the dividend is below `c` times the divisor. */
  lemma RatioBelow(d: real, p: real, c: real)
    requires p > 0.0 && d < c * p
    ensures d / p < c
  {
    var q := d / p;
    assert q * p == d;
    assert q * p < c * p;
  }

  lemma PercentChangeAboveTwenty(curr: int, prev: int)
    requires UpByMoreThanAFifth(curr, prev)
    ensures PercentChange(curr, prev) > 20.0
  {
    var p, d := prev as real, (curr - prev) as real;
    assert d > 0.2 * p;
    RatioAbove(d, p, 0.2);
  }

  lemma PercentChangeBelowMinusTwenty(curr: int, prev: int)
    requires DownByMoreThanAFifth(curr, prev)
    ensures PercentChange(curr, prev) < -20.0
  {
    var p, d := prev as real, (curr - prev) as real;
    assert d < -0.2 * p;
    RatioBelow(d, p, -0.2);
  }

  /** A mean above (below) a bound follows from a total above (below) the count times it. */
  lemma MeanAgainstBound(xs: seq<real>, c: real)
    requires xs != []
    ensures |xs| as real * c < Total(xs) ==> c < Mean(xs)
    ensures Total(xs) < |xs| as real * c ==> Mean(xs) < c
  {
    var n := |xs| as real;
    var m := Mean(xs);
    assert m * n == Total(xs);
    if n * c < Total(xs) {
      CancelPositiveStrict(c, m, n);
    }
    if Total(xs) < n * c {
      CancelPositiveStrict(m, c, n);
    }
  }

  /** A history whose every year grew by more than a fifth on the year before shows a significant increase. */
  lemma EveryYearUpByAFifth(activeDaysByYear: seq<int>)
    requires |activeDaysByYear| >= 2
    requires forall i :: 0 <= i < |activeDaysByYear| - 1 ==> UpByMoreThanAFifth(activeDaysByYear[i], activeDaysByYear[i + 1])
    ensures PredictBurnout(activeDaysByYear) == SignificantIncrease
  {
    var h := activeDaysByYear;
    var changes := PercentChanges(h);
    forall i | 0 <= i < |changes| ensures 20.0 < changes[i] {
      PercentChangeAboveTwenty(h[i], h[i + 1]);
    }
    TotalAbove(changes, 20.0);
    MeanAgainstBound(changes, 20.0);
  }

  /** A history whose every year fell by more than a fifth on the year before shows a burnout risk. */
  lemma EveryYearDownByAFifth(activeDaysByYear: seq<int>)
    requires |activeDaysByYear| >= 2
    requires forall i :: 0 <= i < |activeDaysByYear| - 1 ==> DownByMoreThanAFifth(activeDaysByYear[i], activeDaysByYear[i + 1])
    ensures PredictBurnout(activeDaysByYear) == SignificantDecrease
  {
    var h := activeDaysByYear;
    var changes := PercentChanges(h);
    forall i | 0 <= i < |changes| ensures changes[i] < -20.0 {
      PercentChangeBelowMinusTwenty(h[i], h[i + 1]);
    }
    TotalBelow(changes, -20.0);
    MeanAgainstBound(changes, -20.0);
  }

  /** An unchanging history, or one whose earlier years were never active, is stable. */
  lemma UnchangedHistoryIsSteady(activeDaysByYear: seq<int>)
    requires |activeDaysByYear| >= 2
    requires forall i :: 0 <= i < |activeDaysByYear| - 1 ==>
      activeDaysByYear[i + 1] <= 0 || activeDaysByYear[i] == activeDaysByYear[i + 1]
    ensures PredictBurnout(activeDaysByYear) == SteadyActivity
  {
    var h := activeDaysByYear;
    var changes := PercentChanges(h);
    forall i | 0 <= i < |changes| ensures changes[i] == 0.0 {
      if h[i + 1] > 0 {
        assert (h[i] - h[i + 1]) as real == 0.0;
      }
    }
    TotalBounds(changes, 0.0, 0.0);
    assert Total(changes) == 0.0;
    assert Mean(changes) == 0.0 / |changes| as real == 0.0;
  }

  /** The history 150, 100, 50 changes by 50% and 100%, averages 75%, and is significantly increasing. */
  lemma BurnoutExample()
    ensures Mean(PercentChanges([150, 100, 50])) == 75.0
    ensures PredictBurnout([150, 100, 50]) == SignificantIncrease
  {
    var changes := PercentChanges([150, 100, 50]);
    assert changes == [50.0, 100.0];
    assert changes[..1][..0] == [];
    assert Total(changes) == 150.0;
  }

  // ---------------------------------------------------------------------------
  // predict_consistency
  // ---------------------------------------------------------------------------

  datatype Consistency = HighlyConsistent | Regular | Occasional | Sporadic | NoActivity {
    function Label(): string {
      match this
      case HighlyConsistent => "Highly consistent contributor"
      case Regular => "Regular contributor"
      case Occasional => "Occasional contributor"
      case Sporadic => "Sporadic contributor"
      case NoActivity => "No activity"
    }

    /** The position of a class on the scale, from no activity to highly consistent. */
    function Rank(): nat {
      match this
      case NoActivity => 0
      case Sporadic => 1
      case Occasional => 2
      case Regular => 3
      case HighlyConsistent => 4
    }
  }

  datatype ConsistencyReport = ConsistencyReport(score: real, classification: Consistency)

  /** The classes have closed lower bounds 80, 50 and 25 and cover every score once. */
  function ClassifyConsistency(score: real): (c: Consistency)
    ensures c != NoActivity
    ensures c == HighlyConsistent <==> score >= 80.0
    ensures c == Regular <==> 50.0 <= score < 80.0
    ensures c == Occasional <==> 25.0 <= score < 50.0
    ensures c == Sporadic <==> score < 25.0
  {
    if score >= 80.0 then HighlyConsistent
    else if score >= 50.0 then Regular
    else if score >= 25.0 then Occasional
    else Sporadic
  }

  /** The percentage of the account's days that were active, and its class. */
  function PredictConsistency(activeDays: int, githubDays: int): (r: ConsistencyReport)
    ensures r.classification == NoActivity <==> githubDays == 0
    ensures githubDays == 0 ==> r.score == 0.0
    ensures githubDays != 0 ==>
      && r.score * githubDays as real == activeDays as real * 100.0
      && r.classification == ClassifyConsistency(r.score)
  {
    if githubDays == 0 then ConsistencyReport(0.0, NoActivity)
    else
      var score := (activeDays as real / githubDays as real) * 100.0;
      ConsistencyReport(score, ClassifyConsistency(score))
  }

  /** While active days never exceed the account's age, the score is a percentage. */
  lemma ConsistencyScoreInRange(activeDays: int, githubDays: int)
    requires 0 <= activeDays <= githubDays
    ensures 0.0 <= PredictConsistency(activeDays, githubDays).score <= 100.0
  {
    if githubDays != 0 {
      var share := activeDays as real / githubDays as real;
      assert share * githubDays as real == activeDays as real;
      assert 0.0 <= share <= 1.0;
    }
  }

  /** Over the same account age, more active days never give a lower class. */
  lemma ConsistencyMonotone(fewer: int, more: int, githubDays: int)
    requires fewer <= more && githubDays > 0
    ensures PredictConsistency(fewer, githubDays).classification.Rank()
         <= PredictConsistency(more, githubDays).classification.Rank()
  {
    var g := githubDays as real;
    var s1 := PredictConsistency(fewer, githubDays).score;
    var s2 := PredictConsistency(more, githubDays).score;
    assert s1 * g <= s2 * g;
    CancelPositive(s1, s2, g);
  }

  /** 200 active days in 365 score about 54.8 and make a regular contributor. */
  lemma ConsistencyExample()
    ensures PredictConsistency(200, 365).classification == Regular
  {
    var s := PredictConsistency(200, 365).score;
    assert s * 365.0 == 20000.0;
  }

  // ---------------------------------------------------------------------------
  // predict_account_longevity
  // ---------------------------------------------------------------------------

  datatype LongevityOutlook = LongevityUnknown | Sustained | TenPlusYears | MayCeaseIn(years: nat) {
    function Message(): string {
      match this
      case LongevityUnknown => "Insufficient data for longevity prediction"
      case Sustained => "Account shows sustained or increasing activity"
      case TenPlusYears => "Account likely to remain active for 10+ years"
      case MayCeaseIn(years) => "Account activity may cease in ~" + NatToString(years) + ".0 years"
    }
  }

  /** The activity after `years` years of compounding by `factor`. */
  function Projected(start: real, factor: real, years: nat): real {
    if years == 0 then start else Projected(start, factor, years - 1) * factor
  }

  /**
   * predict_account_longevity on the active days per year, most recent
   * first. With an average decline, the most recent year's activity is
   * compounded by the average change until it is 10 or less, for at most ten
   * years; the result is the first year in which it is, or "10+ years".
   */
  method PredictAccountLongevity(activeDaysByYear: seq<int>) returns (outlook: LongevityOutlook)
    ensures outlook == LongevityUnknown <==> |activeDaysByYear| < 2
    ensures |activeDaysByYear| >= 2 ==>
      (outlook == Sustained <==> Mean(FractionalChanges(activeDaysByYear)) >= 0.0)
    ensures outlook.MayCeaseIn? ==> (
      |activeDaysByYear| >= 2 &&
      var start, factor := activeDaysByYear[0] as real, 1.0 + Mean(FractionalChanges(activeDaysByYear));
      && outlook.years < 10
      && Projected(start, factor, outlook.years) <= 10.0
      && (forall k :: 0 <= k < outlook.years ==> Projected(start, factor, k) > 10.0))
    ensures outlook == TenPlusYears ==> (
      |activeDaysByYear| >= 2 &&
      var start, factor := activeDaysByYear[0] as real, 1.0 + Mean(FractionalChanges(activeDaysByYear));
      forall k :: 0 <= k < 10 ==> Projected(start, factor, k) > 10.0)
    ensures (|activeDaysByYear| >= 2 && activeDaysByYear[0] <= 10 && Mean(FractionalChanges(activeDaysByYear)) < 0.0)
      ==> outlook == MayCeaseIn(0)
  {
    if |activeDaysByYear| < 2 {
      return LongevityUnknown;
    }
    var avgChange := Mean(FractionalChanges(activeDaysByYear));
    if avgChange >= 0.0 {
      return Sustained;
    }
    ghost var start, factor := activeDaysByYear[0] as real, 1.0 + avgChange;
    var yearsUntilInactive: nat := 0;
    var projectedActivity: real := activeDaysByYear[0] as real;
    while projectedActivity > 10.0 && yearsUntilInactive < 10
      invariant yearsUntilInactive <= 10
      invariant projectedActivity == Projected(start, factor, yearsUntilInactive)
      invariant forall k :: 0 <= k < yearsUntilInactive ==> Projected(start, factor, k) > 10.0
      decreases 10 - yearsUntilInactive
    {
      projectedActivity := projectedActivity * (1.0 + avgChange);
      yearsUntilInactive := yearsUntilInactive + 1;
    }
    if yearsUntilInactive >= 10 {
      return TenPlusYears;
    } else {
      return MayCeaseIn(yearsUntilInactive);
    }
  }

  /** With a decline that loses no more than everything, projected activity never grows. */
  lemma {:induction false} ProjectedNonIncreasing(start: real, factor: real, years: nat)
    requires start >= 0.0 && 0.0 <= factor <= 1.0
    ensures 0.0 <= Projected(start, factor, years + 1) <= Projected(start, factor, years)
  {
    if years > 0 {
      ProjectedNonIncreasing(start, factor, years - 1);
    }
    var p := Projected(start, factor, years);
    ScaleMonotone(factor, 1.0, p);
    ScaleMonotone(0.0, factor, p);
  }

  // ---------------------------------------------------------------------------
  // predict_effective_rate
  // ---------------------------------------------------------------------------

  /** The lifetime rate weighted by the share of active days. */
  function PredictEffectiveRate(totalContributions: int, activeDays: int, githubDays: int): (r: real)
    ensures activeDays == 0 || githubDays == 0 ==> r == 0.0
    ensures activeDays != 0 && githubDays != 0 ==>
      r * (githubDays as real * githubDays as real) == totalContributions as real * activeDays as real
  {
    if activeDays == 0 || githubDays == 0 then 0.0
    else
      var activityFrequency := activeDays as real / githubDays as real;
      var rawRate := totalContributions as real / githubDays as real;
      rawRate * activityFrequency
  }

  /** The effective rate has the sign of contributions times active days: never negative for non-negative inputs. */
  lemma EffectiveRateSign(totalContributions: int, activeDays: int, githubDays: int)
    ensures totalContributions >= 0 && activeDays >= 0 ==> PredictEffectiveRate(totalContributions, activeDays, githubDays) >= 0.0
    ensures totalContributions < 0 && activeDays > 0 && githubDays != 0 ==>
      PredictEffectiveRate(totalContributions, activeDays, githubDays) < 0.0
  {
    var r := PredictEffectiveRate(totalContributions, activeDays, githubDays);
    if activeDays != 0 && githubDays != 0 {
      var g2 := githubDays as real * githubDays as real;
      assert g2 > 0.0;
      var p := totalContributions as real * activeDays as real;
      assert r * g2 == p;
      if totalContributions >= 0 && activeDays >= 0 {
        ScaleMonotone(0.0, totalContributions as real, activeDays as real);
        CancelPositive(0.0, r, g2);
      }
      if totalContributions < 0 && activeDays > 0 {
        ScaleMonotone(totalContributions as real, 0.0, activeDays as real);
        CancelPositive(r, 0.0, g2);
        assert r != 0.0;
      }
    }
  }

  /** The penalty for sparse activity: the effective rate never exceeds the lifetime rate. */
  lemma EffectiveRateAtMostLifetimeRate(totalContributions: int, activeDays: int, githubDays: int)
    requires totalContributions >= 0 && 0 <= activeDays <= githubDays && githubDays > 0
    ensures PredictEffectiveRate(totalContributions, activeDays, githubDays)
         <= totalContributions as real / githubDays as real
  {
    if activeDays != 0 {
      var rawRate := totalContributions as real / githubDays as real;
      var frequency := activeDays as real / githubDays as real;
      assert rawRate * githubDays as real == totalContributions as real;
      assert frequency * githubDays as real == activeDays as real;
      assert rawRate >= 0.0 && frequency <= 1.0;
      assert rawRate * frequency <= rawRate * 1.0;
    }
  }

  // ---------------------------------------------------------------------------
  // predict_milestone
  // ---------------------------------------------------------------------------

  /** Days to a milestone, or the infinite sentinel. */
  datatype MilestoneEstimate = Unreachable | DaysRequired(days: real)

  /**
   * predict_milestone. The rate is checked first: a rate that is not
   * positive gives the sentinel even when the milestone is already reached.
   */
  function PredictMilestone(currentContributions: int, milestone: int, lifetimeRate: real): (r: MilestoneEstimate)
    ensures r == Unreachable <==> lifetimeRate <= 0.0
    ensures r.DaysRequired? ==> r.days >= 0.0 && (r.days == 0.0 <==> milestone <= currentContributions)
    ensures r.DaysRequired? && milestone > currentContributions ==>
      currentContributions as real + r.days * lifetimeRate == milestone as real
  {
    if lifetimeRate <= 0.0 then Unreachable
    else
      var remainingContributions := milestone - currentContributions;
      if remainingContributions <= 0 then DaysRequired(0.0)
      else DaysRequired(remainingContributions as real / lifetimeRate)
  }

  /** A faster rate never needs more days to reach the same milestone. */
  lemma MilestoneFasterIsSooner(currentContributions: int, milestone: int, slower: real, faster: real)
    requires 0.0 < slower <= faster
    ensures PredictMilestone(currentContributions, milestone, faster).days
         <= PredictMilestone(currentContributions, milestone, slower).days
  {
    if milestone > currentContributions {
      var d1 := PredictMilestone(currentContributions, milestone, slower).days;
      var d2 := PredictMilestone(currentContributions, milestone, faster).days;
      assert d1 * slower == d2 * faster;
      ScaleMonotone(slower, faster, d2);
      CancelPositive(d2, d1, slower);
    }
  }

  /** 5000 contributions short of nothing: at 13.7 a day, 10000 is about 365 days away. */
  lemma MilestoneExample()
    ensures var r := PredictMilestone(5000, 10000, 13.7); r.DaysRequired? && 364.9 < r.days < 365.0
  {
    var d := PredictMilestone(5000, 10000, 13.7).days;
    assert d * 13.7 == 5000.0;
  }
}
