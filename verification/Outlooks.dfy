/** What the forecast's curve, energies and backtest rows are, said of the training days and of today alone. */
module Outlooks {
  import opened Options
  import opened Percentiles
  import opened Forecast
  import opened Sequences

  // ----- The curve -----

  /** The curve has a point at the minute. */
  ghost predicate HasPoint(points: seq<Point>, minute: int) {
    exists i :: 0 <= i < |points| && points[i].minute == minute
  }

  /** Some training day or today has a value there. */
  predicate Known(training: seq<Curve>, today: Curve, minute: int) {
    ValuesAt(training, minute) != [] || minute in today
  }

  /** Ascending points below a bucket, for exactly the earlier bucket minutes with a value, telling what is known. */
  ghost predicate CurveOf(points: seq<Point>, training: seq<Curve>, today: Curve, now: int, k: nat) {
    && (forall i, j :: 0 <= i < j < |points| ==> points[i].minute < points[j].minute)
    && (forall i :: 0 <= i < |points| ==> points[i].minute < MinuteOf(k) && TellsMinute(points[i], training, today, now))
    && (forall b: nat :: b < k ==> (HasPoint(points, MinuteOf(b)) <==> Known(training, today, MinuteOf(b))))
  }

  /** The curve is ascending, has exactly the bucket minutes with a value, and each point tells what is known of its minute. */
  lemma {:induction false} CurveExactly(training: seq<Curve>, today: Curve, now: int, k: nat)
    ensures CurveOf(Points(training, today, now, k), training, today, now, k)
  {
    if k > 0 {
      hide TellsMinute, Known, CurveOf;
      CurveExactly(training, today, now, k - 1);
      PointTells(training, today, now, MinuteOf(k - 1));
      var before, p := Points(training, today, now, k - 1), PointAt(training, today, now, MinuteOf(k - 1));
      if p.p50.Some? || p.observed.Some? {
        CurveGrows(before, p, training, today, now, k);
      } else {
        assert before + [] == before;
        CurveStays(before, training, today, now, k);
      }
    }
  }

  lemma CurveGrows(before: seq<Point>, p: Point, training: seq<Curve>, today: Curve, now: int, k: nat)
    requires k > 0 && CurveOf(before, training, today, now, k - 1)
    requires p.minute == MinuteOf(k - 1) && TellsMinute(p, training, today, now) && Known(training, today, p.minute)
    ensures CurveOf(before + [p], training, today, now, k)
  {
    hide TellsMinute, Known;
    var points := before + [p];
    assert points[|before|] == p && HasPoint(points, p.minute);
    forall b: nat | b < k - 1
      ensures HasPoint(points, MinuteOf(b)) <==> HasPoint(before, MinuteOf(b))
    {
      if HasPoint(before, MinuteOf(b)) {
        var i :| 0 <= i < |before| && before[i].minute == MinuteOf(b);
        assert points[i].minute == MinuteOf(b);
      }
    }
  }

  lemma CurveStays(before: seq<Point>, training: seq<Curve>, today: Curve, now: int, k: nat)
    requires k > 0 && CurveOf(before, training, today, now, k - 1) && !Known(training, today, MinuteOf(k - 1))
    ensures CurveOf(before, training, today, now, k)
  {
    hide TellsMinute, Known;
  }

  ghost predicate TellsMinute(p: Point, training: seq<Curve>, today: Curve, now: int) {
    && (p.forecast <==> p.minute > now)
    && p.observed == Lookup(today, p.minute) && p.samples == |ValuesAt(training, p.minute)|
    && p.p10 == Quantile(training, p.minute, 0.1) && p.p50 == Quantile(training, p.minute, 0.5)
    && p.p90 == Quantile(training, p.minute, 0.9)
  }

  lemma PointTells(training: seq<Curve>, today: Curve, now: int, minute: int)
    ensures var p := PointAt(training, today, now, minute);
      p.minute == minute && TellsMinute(p, training, today, now)
      && (p.p50.Some? || p.observed.Some? <==> Known(training, today, minute))
  {
  }

  // ----- Energies on a day of constant power -----

  /** How many of the first `k` quarter hours have begun. */
  function Begun(now: int, k: nat): nat {
    if k == 0 then 0 else Begun(now, k - 1) + if MinuteOf(k - 1) <= now then 1 else 0
  }

  ghost predicate Steady(day: Curve, power: real) {
    forall b: nat :: b < BUCKETS ==> MinuteOf(b) in day && day[MinuteOf(b)] == power
  }

  lemma SteadyQuantile(training: seq<Curve>, power: real, b: nat, fraction: real)
    requires training != [] && b < BUCKETS && Fraction(fraction) && forall d :: d in training ==> Steady(d, power)
    ensures Quantile(training, MinuteOf(b), fraction) == Some(power)
  {
    SteadyValues(training, power, b);
    PercentileRank(ValuesAt(training, MinuteOf(b)), fraction);
    hide Percentile;
  }

  lemma {:induction false} SteadyValues(training: seq<Curve>, power: real, b: nat)
    requires training != [] && b < BUCKETS && forall d :: d in training ==> Steady(d, power)
    ensures ValuesAt(training, MinuteOf(b)) != [] && forall x :: x in ValuesAt(training, MinuteOf(b)) ==> x == power
  {
    assert Last(training) in training;
    if |training| > 1 {
      assert forall d :: d in Init(training) ==> d in training;
      SteadyValues(Init(training), power, b);
    }
  }

  /** The watt hours of some quarter hours of constant power. */
  function Quarters(power: real, n: int): real {
    power * 0.25 * n as real
  }

  lemma OneMoreQuarter(power: real, n: int)
    requires 0.0 <= power
    ensures Quarters(power, 0) == 0.0 && Quarters(power, n + 1) == Quarters(power, n) + EnergyOf(Some(power))
    ensures EnergyOf(Some(power)) == power * BUCKET_HOURS
  {
  }

  /** With constant power, each quarter hour that has begun has given a quarter of it in watt hours. */
  lemma {:induction false} SteadyObserved(today: Curve, power: real, now: int, k: nat)
    requires Steady(today, power) && 0.0 <= power && k <= BUCKETS
    ensures ObservedEnergy(today, now, k) == Quarters(power, Begun(now, k)) && DayEnergy(today, k) == Quarters(power, k)
  {
    hide Quarters, EnergyOf;
    OneMoreQuarter(power, 0);
    if k > 0 {
      SteadyObserved(today, power, now, k - 1);
      OneMoreQuarter(power, k - 1);
      OneMoreQuarter(power, Begun(now, k - 1));
    }
  }

  /** Each later one is expected to give as much, whatever the percentile. */
  lemma {:induction false} SteadyRemaining(training: seq<Curve>, power: real, now: int, fraction: real, k: nat)
    requires training != [] && (forall d :: d in training ==> Steady(d, power))
    requires 0.0 <= power && Fraction(fraction) && k <= BUCKETS
    ensures Remaining(training, now, fraction, k) == Quarters(power, k - Begun(now, k)) && Begun(now, k) <= k
  {
    hide Quarters, EnergyOf, Quantile, Steady;
    OneMoreQuarter(power, 0);
    if k > 0 {
      SteadyRemaining(training, power, now, fraction, k - 1);
      SteadyQuantile(training, power, k - 1, fraction);
      OneMoreQuarter(power, k - 1 - Begun(now, k - 1));
    }
  }

  /** What should have come by now counts productive quarter hours only. */
  lemma {:induction false} SteadyExpected(training: seq<Curve>, power: real, now: int, threshold: real, k: nat)
    requires training != [] && (forall d :: d in training ==> Steady(d, power)) && 0.0 <= power && k <= BUCKETS
    ensures ExpectedEnergy(training, now, threshold, k) == if power >= threshold then Quarters(power, Begun(now, k)) else 0.0
  {
    hide Quarters, EnergyOf, Quantile, Steady;
    OneMoreQuarter(power, 0);
    if k > 0 {
      SteadyExpected(training, power, now, threshold, k - 1);
      SteadyQuantile(training, power, k - 1, 0.5);
      OneMoreQuarter(power, Begun(now, k - 1));
    }
  }

  /** The buckets that should have produced by now, and those of them with a value today. */
  lemma SteadyCoverage(training: seq<Curve>, today: Curve, power: real, now: int, threshold: real, k: nat)
    requires training != [] && (forall d :: d in training ==> Steady(d, power)) && Steady(today, power) && k <= BUCKETS
    ensures Due(training, now, threshold, k) == if power >= threshold then set b | 0 <= b < k && MinuteOf(b) <= now else {}
    ensures Covered(training, today, now, threshold, k) == Due(training, now, threshold, k)
  {
    hide Quantile;
    forall b: nat | b < k
      ensures Quantile(training, MinuteOf(b), 0.5) == Some(power)
    {
      SteadyQuantile(training, power, b, 0.5);
    }
  }

  // ----- The backtest -----

  function Least(a: nat, b: nat): nat {
    if a < b then a else b
  }

  /** The row of day `i` compares it with the percentiles of the days directly before it, as many as the policy keeps. */
  ghost predicate RowTells(r: Row, days: seq<real>, i: nat, policy: Policy)
    requires i < |days|
  {
    var n := Least(i, policy.historyDays);
    var before := days[i - n..i];
    && r.day == i && r.actual == days[i] && r.training == n
    && Some(r.p10) == Percentile(before, 0.1) && Some(r.p50) == Percentile(before, 0.5) && Some(r.p90) == Percentile(before, 0.9)
    && (r.inside <==> r.p10 <= r.actual <= r.p90)
    && (r.error.Some? <==> r.actual > 0.0)
    && (r.error.Some? ==> r.error.value * r.actual == 100.0 * if r.actual < r.p50 then r.p50 - r.actual else r.actual - r.p50)
  }

  /** A day is judged exactly if enough days precede it. */
  predicate Judgeable(i: nat, policy: Policy) {
    Least(i, policy.historyDays) > 0 && Least(i, policy.historyDays) >= policy.minimumDays
  }

  lemma RowExactly(days: seq<real>, i: nat, policy: Policy)
    requires i < |days|
    ensures |RowsAt(days, i, policy)| == if Judgeable(i, policy) then 1 else 0
    ensures Judgeable(i, policy) ==> RowTells(RowsAt(days, i, policy)[0], days, i, policy)
  {
    hide Percentile;
    var training := TrainingFor(days, i, policy);
    assert training == days[i - Least(i, policy.historyDays)..i];
    if Judgeable(i, policy) {
      var r := RowsAt(days, i, policy)[0];
      if r.error.Some? {
        var gap := if r.actual < r.p50 then r.p50 - r.actual else r.actual - r.p50;
        assert gap / r.actual * r.actual == gap;
      }
    }
  }

  /** One row, telling of its day, for each day before `n` that can be judged, in order. */
  ghost predicate RowsOf(rows: seq<Row>, days: seq<real>, n: nat, policy: Policy)
    requires n <= |days|
  {
    && (forall k :: 0 <= k < |rows| ==> rows[k].day < n && Judgeable(rows[k].day, policy) && RowTells(rows[k], days, rows[k].day, policy))
    && (forall k, m :: 0 <= k < m < |rows| ==> rows[k].day < rows[m].day)
    && (forall i: nat :: i < n && Judgeable(i, policy) ==> HasRow(rows, i))
  }

  /** The rows are those of the days that can be judged, one each, in order. */
  lemma {:induction false} BacktestExactly(days: seq<real>, n: nat, policy: Policy)
    requires n <= |days|
    ensures RowsOf(AllRows(days, n, policy), days, n, policy)
  {
    if n > 0 {
      hide RowTells, Judgeable, RowsAt, RowsOf;
      BacktestExactly(days, n - 1, policy);
      RowExactly(days, n - 1, policy);
      RowDay(days, n - 1, policy);
      var before, last := AllRows(days, n - 1, policy), RowsAt(days, n - 1, policy);
      if Judgeable(n - 1, policy) {
        assert last == [last[0]];
        RowsGrow(before, last[0], days, n, policy);
      } else {
        assert before + last == before;
        RowsStay(before, days, n, policy);
      }
    } else {
      hide RowTells, Judgeable;
    }
  }

  lemma RowsGrow(before: seq<Row>, r: Row, days: seq<real>, n: nat, policy: Policy)
    requires 0 < n <= |days| && RowsOf(before, days, n - 1, policy)
    requires r.day == n - 1 && Judgeable(n - 1, policy) && RowTells(r, days, n - 1, policy)
    ensures RowsOf(before + [r], days, n, policy)
  {
    hide RowTells, Judgeable;
    var rows := before + [r];
    assert rows[|before|] == r && HasRow(rows, n - 1);
    forall i: nat | i < n - 1 && HasRow(before, i)
      ensures HasRow(rows, i)
    {
      var k :| 0 <= k < |before| && before[k].day == i;
      assert rows[k].day == i;
    }
  }

  lemma RowsStay(before: seq<Row>, days: seq<real>, n: nat, policy: Policy)
    requires 0 < n <= |days| && RowsOf(before, days, n - 1, policy) && !Judgeable(n - 1, policy)
    ensures RowsOf(before, days, n, policy)
  {
    hide RowTells, Judgeable;
  }

  lemma RowDay(days: seq<real>, i: nat, policy: Policy)
    requires i < |days|
    ensures forall k :: 0 <= k < |RowsAt(days, i, policy)| ==> RowsAt(days, i, policy)[k].day == i
  {
  }

  ghost predicate HasRow(rows: seq<Row>, day: nat) {
    exists k :: 0 <= k < |rows| && rows[k].day == day
  }

  /** The rows kept are the latest, as many as the policy keeps, or all when it keeps none. */
  lemma KeptRowsExactly(rows: seq<Row>, n: nat)
    ensures var kept := LastRows(rows, n);
      && |kept| == (if n == 0 then |rows| else Least(|rows|, n))
      && forall k :: 0 <= k < |kept| ==> kept[k] == rows[|rows| - |kept| + k]
  {
  }
}
