/** The percentile forecasts of forecasting/service.py: the day curve and the backtest, over exact reals. */
module Forecast {
  import opened Options
  import opened Percentiles
  import opened Sequences

  const BUCKETS: nat := 96
  const BUCKET_MINUTES: int := 15
  const BUCKET_HOURS: real := 0.25

  /** Power by minute of the day. */
  type Curve = map<int, real>

  function MinuteOf(bucket: int): int {
    bucket * BUCKET_MINUTES
  }

  function Positive(x: real): real {
    if x < 0.0 then 0.0 else x
  }

  /** The training days that have a value in this bucket, in the order of the days. */
  function ValuesAt(training: seq<Curve>, minute: int): seq<real> {
    if training == [] then []
    else ValuesAt(Init(training), minute) + if minute in Last(training) then [Last(training)[minute]] else []
  }

  function Quantile(training: seq<Curve>, minute: int, fraction: real): Option<real>
    requires Fraction(fraction)
  {
    Percentile(ValuesAt(training, minute), fraction)
  }

  function Lookup(curve: Curve, minute: int): Option<real> {
    if minute in curve then Some(curve[minute]) else None
  }

  function EnergyOf(power: Option<real>): real {
    if power.Some? then Positive(power.value) * BUCKET_HOURS else 0.0
  }

  // ----- What the loop over the day accumulates, over its first `k` buckets -----

  function Remaining(training: seq<Curve>, now: int, fraction: real, k: nat): real
    requires Fraction(fraction)
  {
    if k == 0 then 0.0
    else
      Remaining(training, now, fraction, k - 1)
      + if MinuteOf(k - 1) > now then EnergyOf(Quantile(training, MinuteOf(k - 1), fraction)) else 0.0
  }

  function ObservedEnergy(today: Curve, now: int, k: nat): real {
    if k == 0 then 0.0
    else
      ObservedEnergy(today, now, k - 1)
      + if MinuteOf(k - 1) <= now then EnergyOf(Lookup(today, MinuteOf(k - 1))) else 0.0
  }

  predicate Productive(training: seq<Curve>, minute: int, threshold: real) {
    var p50 := Quantile(training, minute, 0.5);
    p50.Some? && p50.value >= threshold
  }

  function ExpectedEnergy(training: seq<Curve>, now: int, threshold: real, k: nat): real {
    if k == 0 then 0.0
    else
      ExpectedEnergy(training, now, threshold, k - 1)
      + if MinuteOf(k - 1) <= now && Productive(training, MinuteOf(k - 1), threshold)
        then Quantile(training, MinuteOf(k - 1), 0.5).value * BUCKET_HOURS else 0.0
  }

  /** Productive buckets up to now, and those of them that were observed. */
  function Due(training: seq<Curve>, now: int, threshold: real, k: nat): set<int> {
    set b | 0 <= b < k && MinuteOf(b) <= now && Productive(training, MinuteOf(b), threshold)
  }

  function Covered(training: seq<Curve>, today: Curve, now: int, threshold: real, k: nat): set<int> {
    set b | b in Due(training, now, threshold, k) && MinuteOf(b) in today
  }

  datatype Point = Point(
    minute: int,
    forecast: bool,
    observed: Option<real>,
    p10: Option<real>,
    p50: Option<real>,
    p90: Option<real>,
    samples: nat)

  function PointAt(training: seq<Curve>, today: Curve, now: int, minute: int): Point {
    Point(minute, minute > now, Lookup(today, minute),
          Quantile(training, minute, 0.1), Quantile(training, minute, 0.5), Quantile(training, minute, 0.9),
          |ValuesAt(training, minute)|)
  }

  function Points(training: seq<Curve>, today: Curve, now: int, k: nat): seq<Point> {
    if k == 0 then []
    else
      var p := PointAt(training, today, now, MinuteOf(k - 1));
      Points(training, today, now, k - 1) + if p.p50.Some? || p.observed.Some? then [p] else []
  }

  function ProductiveMinutes(training: seq<Curve>, threshold: real, k: nat): seq<int> {
    if k == 0 then []
    else
      ProductiveMinutes(training, threshold, k - 1)
      + if Productive(training, MinuteOf(k - 1), threshold) then [MinuteOf(k - 1)] else []
  }

  datatype Outlook = Outlook(
    curve: seq<Point>,
    productive: seq<int>,
    due: nat,
    covered: nat,
    expected: real,
    observed: real,
    remaining10: real,
    remaining50: real,
    remaining90: real)

  method SolarForecast(training: seq<Curve>, today: Curve, now: int, threshold: real) returns (o: Outlook)
    ensures o.curve == Points(training, today, now, BUCKETS)
    ensures o.productive == ProductiveMinutes(training, threshold, BUCKETS)
    ensures o.due == |Due(training, now, threshold, BUCKETS)|
    ensures o.covered == |Covered(training, today, now, threshold, BUCKETS)|
    ensures o.expected == ExpectedEnergy(training, now, threshold, BUCKETS)
    ensures o.observed == ObservedEnergy(today, now, BUCKETS)
    ensures o.remaining10 == Remaining(training, now, 0.1, BUCKETS)
    ensures o.remaining50 == Remaining(training, now, 0.5, BUCKETS)
    ensures o.remaining90 == Remaining(training, now, 0.9, BUCKETS)
  {
    o := Outlook([], [], 0, 0, 0.0, 0.0, 0.0, 0.0, 0.0);
    for k := 0 to BUCKETS
      invariant o.curve == Points(training, today, now, k)
      invariant o.productive == ProductiveMinutes(training, threshold, k)
      invariant o.due == |Due(training, now, threshold, k)|
      invariant o.covered == |Covered(training, today, now, threshold, k)|
      invariant o.expected == ExpectedEnergy(training, now, threshold, k)
      invariant o.observed == ObservedEnergy(today, now, k)
      invariant o.remaining10 == Remaining(training, now, 0.1, k)
      invariant o.remaining50 == Remaining(training, now, 0.5, k)
      invariant o.remaining90 == Remaining(training, now, 0.9, k)
    {
      DueSnoc(training, today, now, threshold, k);
      o := Bucket(training, today, now, threshold, k, o);
    }
  }

  lemma DueSnoc(training: seq<Curve>, today: Curve, now: int, threshold: real, k: nat)
    ensures
      var due := MinuteOf(k) <= now && Productive(training, MinuteOf(k), threshold);
      && |Due(training, now, threshold, k + 1)| == |Due(training, now, threshold, k)| + (if due then 1 else 0)
      && |Covered(training, today, now, threshold, k + 1)|
         == |Covered(training, today, now, threshold, k)| + if due && MinuteOf(k) in today then 1 else 0
  {
    hide Productive, MinuteOf;
    var due := MinuteOf(k) <= now && Productive(training, MinuteOf(k), threshold);
    var before, after := Due(training, now, threshold, k), Due(training, now, threshold, k + 1);
    assert after == before + if due then {k} else {};
    assert k !in before;
    CoveredSnoc(before, after, today, k, due);
  }

  lemma CoveredSnoc(before: set<int>, after: set<int>, today: Curve, k: int, due: bool)
    requires k !in before && after == before + if due then {k} else {}
    ensures |set b | b in after && MinuteOf(b) in today|
            == |set b | b in before && MinuteOf(b) in today| + if due && MinuteOf(k) in today then 1 else 0
  {
    hide MinuteOf;
    var covered := set b | b in before && MinuteOf(b) in today;
    assert (set b | b in after && MinuteOf(b) in today) == covered + if due && MinuteOf(k) in today then {k} else {};
  }

  /** One turn of the loop. */
  method Bucket(training: seq<Curve>, today: Curve, now: int, threshold: real, k: nat, o: Outlook) returns (r: Outlook)
    ensures
      var minute := MinuteOf(k);
      var due := minute <= now && Productive(training, minute, threshold);
      && r.curve == o.curve + (if Quantile(training, minute, 0.5).Some? || minute in today
                               then [PointAt(training, today, now, minute)] else [])
      && r.productive == o.productive + (if Productive(training, minute, threshold) then [minute] else [])
      && r.due == o.due + (if due then 1 else 0)
      && r.covered == o.covered + (if due && minute in today then 1 else 0)
      && r.expected == o.expected + (if due then Quantile(training, minute, 0.5).value * BUCKET_HOURS else 0.0)
      && r.observed == o.observed + (if minute <= now then EnergyOf(Lookup(today, minute)) else 0.0)
      && r.remaining10 == o.remaining10 + (if minute > now then EnergyOf(Quantile(training, minute, 0.1)) else 0.0)
      && r.remaining50 == o.remaining50 + (if minute > now then EnergyOf(Quantile(training, minute, 0.5)) else 0.0)
      && r.remaining90 == o.remaining90 + (if minute > now then EnergyOf(Quantile(training, minute, 0.9)) else 0.0)
  {
    hide Percentile, ValuesAt;
    var minute := MinuteOf(k);
    var values := ValuesAt(training, minute);
    var p10, p50, p90 := Percentile(values, 0.1), Percentile(values, 0.5), Percentile(values, 0.9);
    var observed := Lookup(today, minute);
    r := o;
    if p50.Some? && p50.value >= threshold {
      r := r.(productive := r.productive + [minute]);
    }
    if minute <= now && p50.Some? && p50.value >= threshold {
      r := r.(due := r.due + 1, expected := r.expected + p50.value * BUCKET_HOURS);
      if observed.Some? {
        r := r.(covered := r.covered + 1);
      }
    }
    if minute <= now && observed.Some? {
      r := r.(observed := r.observed + Positive(observed.value) * BUCKET_HOURS);
    }
    if minute > now {
      r := r.(remaining10 := r.remaining10 + EnergyOf(p10), remaining50 := r.remaining50 + EnergyOf(p50),
              remaining90 := r.remaining90 + EnergyOf(p90));
    }
    if p50.Some? || observed.Some? {
      r := r.(curve := r.curve + [Point(minute, minute > now, observed, p10, p50, p90, |values|)]);
    }
  }

  // ----- Order of the bands -----

  predicate BandOrdered(p: Point) {
    && p.p10.Some? == p.p50.Some? == p.p90.Some?
    && (p.p50.Some? ==> p.p10.value <= p.p50.value <= p.p90.value)
  }

  lemma QuantilesOrdered(training: seq<Curve>, minute: int, f: real, g: real)
    requires Fraction(f) && Fraction(g) && f <= g
    ensures Quantile(training, minute, f).Some? == Quantile(training, minute, g).Some?
    ensures Quantile(training, minute, f).Some? ==> Quantile(training, minute, f).value <= Quantile(training, minute, g).value
    ensures EnergyOf(Quantile(training, minute, f)) <= EnergyOf(Quantile(training, minute, g))
  {
    hide Percentile;
    if ValuesAt(training, minute) != [] {
      PercentileMonotone(ValuesAt(training, minute), f, g);
    }
  }

  /** In every point of the curve the 10th, 50th and 90th percentiles are in order. */
  lemma {:induction false} CurveBandsOrdered(training: seq<Curve>, today: Curve, now: int, k: nat)
    ensures forall p :: p in Points(training, today, now, k) ==> BandOrdered(p)
  {
    hide Quantile, MinuteOf, Lookup;
    if k != 0 {
      CurveBandsOrdered(training, today, now, k - 1);
      QuantilesOrdered(training, MinuteOf(k - 1), 0.1, 0.5);
      QuantilesOrdered(training, MinuteOf(k - 1), 0.5, 0.9);
    }
  }

  /** The accumulated energies of the rest of the day keep the order of their fractions. */
  lemma {:induction false} RemainingOrdered(training: seq<Curve>, now: int, f: real, g: real, k: nat)
    requires Fraction(f) && Fraction(g) && f <= g
    ensures 0.0 <= Remaining(training, now, f, k) <= Remaining(training, now, g, k)
  {
    if k != 0 {
      RemainingOrdered(training, now, f, g, k - 1);
      QuantilesOrdered(training, MinuteOf(k - 1), f, g);
    }
  }

  function DayEnergy(today: Curve, k: nat): real {
    if k == 0 then 0.0 else DayEnergy(today, k - 1) + EnergyOf(Lookup(today, MinuteOf(k - 1)))
  }

  /** No bucket is counted twice or left out: a day that follows the forecast has the same end-of-day energy at every hour. */
  lemma {:induction false} EndOfDayIsWholeDay(training: seq<Curve>, today: Curve, now: int, fraction: real, k: nat)
    requires Fraction(fraction)
    requires forall b :: 0 <= b < k && MinuteOf(b) > now ==> Lookup(today, MinuteOf(b)) == Quantile(training, MinuteOf(b), fraction)
    ensures ObservedEnergy(today, now, k) + Remaining(training, now, fraction, k) == DayEnergy(today, k)
  {
    if k != 0 {
      EndOfDayIsWholeDay(training, today, now, fraction, k - 1);
    }
  }

  // ----- The order of the training days does not matter -----

  lemma {:induction false} ValuesSplit(a: seq<Curve>, b: seq<Curve>, minute: int)
    ensures ValuesAt(a + b, minute) == ValuesAt(a, minute) + ValuesAt(b, minute)
  {
    if b == [] {
      assert a + b == a;
    } else {
      assert Init(a + b) == a + Init(b);
      ValuesSplit(a, Init(b), minute);
    }
  }

  lemma {:induction false} ValuesIgnoreOrder(a: seq<Curve>, b: seq<Curve>, minute: int)
    requires multiset(a) == multiset(b)
    ensures multiset(ValuesAt(a, minute)) == multiset(ValuesAt(b, minute))
    decreases |a|
  {
    hide ValuesAt;
    SameLength(a, b);
    if a == [] {
      assert a == b;
    } else {
      var x := Last(a);
      InitAndLast(a);
      var i :| 0 <= i < |b| && b[i] == x;
      DropOne(b, i);
      var left, right := b[..i], b[i + 1..];
      ValuesIgnoreOrder(Init(a), left + right, minute);
      ValuesAround(left, [x], right, minute);
      ValuesSplit(Init(a), [x], minute);
    }
  }

  lemma ValuesAround(left: seq<Curve>, middle: seq<Curve>, right: seq<Curve>, minute: int)
    ensures multiset(ValuesAt(left + (middle + right), minute))
            == multiset(ValuesAt(left + right, minute)) + multiset(ValuesAt(middle, minute))
  {
    hide ValuesAt;
    ValuesSplit(left, right, minute);
    ValuesSplit(left, middle + right, minute);
    ValuesSplit(middle, right, minute);
  }

  lemma SameLength(a: seq<Curve>, b: seq<Curve>)
    requires multiset(a) == multiset(b)
    ensures |a| == |b|
    ensures a != [] ==> exists i :: 0 <= i < |b| && b[i] == Last(a)
  {
    assert |multiset(a)| == |multiset(b)|;
    if a != [] {
      assert Last(a) in multiset(a);
      assert Last(a) in multiset(b);
      assert Last(a) in b;
    }
  }

  lemma InitAndLast(a: seq<Curve>)
    requires a != []
    ensures a == Init(a) + [Last(a)] && multiset(Init(a)) == multiset(a) - multiset{Last(a)}
  {
  }

  lemma DropOne(b: seq<Curve>, i: nat)
    requires i < |b|
    ensures b == b[..i] + ([b[i]] + b[i + 1..])
    ensures multiset(b[..i] + b[i + 1..]) == multiset(b) - multiset{b[i]}
  {
  }

  lemma QuantileIgnoresDayOrder(a: seq<Curve>, b: seq<Curve>, minute: int, fraction: real)
    requires Fraction(fraction) && multiset(a) == multiset(b)
    ensures Quantile(a, minute, fraction) == Quantile(b, minute, fraction)
  {
    ValuesIgnoreOrder(a, b, minute);
    PercentileIgnoresOrder(ValuesAt(a, minute), ValuesAt(b, minute), fraction);
  }

  // ----- Backtest -----

  datatype Policy = Policy(historyDays: nat, minimumDays: nat, backtestDays: nat)

  datatype Row = Row(day: nat, actual: real, p10: real, p50: real, p90: real, error: Option<real>, inside: bool, training: nat)

  function TrainingFor(days: seq<real>, i: nat, policy: Policy): seq<real>
    requires i <= |days|
  {
    days[if i < policy.historyDays then 0 else i - policy.historyDays..i]
  }

  function RowsAt(days: seq<real>, i: nat, policy: Policy): seq<Row>
    requires i < |days|
  {
    var training, actual := TrainingFor(days, i, policy), days[i];
    if |training| < policy.minimumDays || training == [] then []
    else
      var p10, p50, p90 := Percentile(training, 0.1).value, Percentile(training, 0.5).value, Percentile(training, 0.9).value;
      var error := if actual > 0.0 then Some((if actual < p50 then p50 - actual else actual - p50) / actual * 100.0) else None;
      [Row(i, actual, p10, p50, p90, error, p10 <= actual <= p90, |training|)]
  }

  function AllRows(days: seq<real>, n: nat, policy: Policy): seq<Row>
    requires n <= |days|
  {
    if n == 0 then [] else AllRows(days, n - 1, policy) + RowsAt(days, n - 1, policy)
  }

  /** A bound of zero days keeps every row. */
  function LastRows(rows: seq<Row>, n: nat): seq<Row> {
    if n == 0 || |rows| <= n then rows else rows[|rows| - n..]
  }

  method Backtest(days: seq<real>, policy: Policy) returns (rows: seq<Row>, inside: nat)
    ensures rows == LastRows(AllRows(days, |days|, policy), policy.backtestDays)
    ensures inside == |set i | 0 <= i < |rows| && rows[i].p10 <= rows[i].actual <= rows[i].p90| <= |rows|
  {
    rows := [];
    for i := 0 to |days|
      invariant rows == AllRows(days, i, policy)
    {
      var row := BacktestDay(days, i, policy);
      rows := rows + row;
    }
    AllRowsOrdered(days, |days|, policy);
    rows := LastRows(rows, policy.backtestDays);
    inside := CountInside(rows);
  }

  /** A day gets a row when enough earlier days are in the window. */
  method BacktestDay(days: seq<real>, i: nat, policy: Policy) returns (row: seq<Row>)
    requires i < |days|
    ensures row == RowsAt(days, i, policy)
  {
    hide Percentile;
    var training := TrainingFor(days, i, policy);
    if |training| < policy.minimumDays {
      return [];
    }
    var p10, p50, p90 := Percentile(training, 0.1), Percentile(training, 0.5), Percentile(training, 0.9);
    if p10.None? || p50.None? || p90.None? {
      return [];
    }
    var actual := days[i];
    var error := None;
    if actual > 0.0 {
      error := Some((if actual < p50.value then p50.value - actual else actual - p50.value) / actual * 100.0);
    }
    return [Row(i, actual, p10.value, p50.value, p90.value, error, p10.value <= actual <= p90.value, |training|)];
  }

  method CountInside(rows: seq<Row>) returns (inside: nat)
    requires forall i :: 0 <= i < |rows| ==> rows[i].inside == (rows[i].p10 <= rows[i].actual <= rows[i].p90)
    ensures inside == |set i | 0 <= i < |rows| && rows[i].p10 <= rows[i].actual <= rows[i].p90| <= |rows|
  {
    inside := 0;
    for k := 0 to |rows|
      invariant inside == |set i | 0 <= i < k && rows[i].p10 <= rows[i].actual <= rows[i].p90| <= k
    {
      var before := set i | 0 <= i < k && rows[i].p10 <= rows[i].actual <= rows[i].p90;
      assert (set i | 0 <= i < k + 1 && rows[i].p10 <= rows[i].actual <= rows[i].p90)
             == before + if rows[k].inside then {k} else {};
      if rows[k].inside {
        inside := inside + 1;
      }
    }
  }

  predicate RowOrdered(r: Row, n: nat, policy: Policy) {
    && r.p10 <= r.p50 <= r.p90 && r.inside == (r.p10 <= r.actual <= r.p90)
    && r.day < n && policy.minimumDays <= r.training <= policy.historyDays && r.training <= r.day
    && (r.error.Some? <==> r.actual > 0.0)
  }

  lemma {:induction false} AllRowsOrdered(days: seq<real>, n: nat, policy: Policy)
    requires n <= |days|
    ensures forall i :: 0 <= i < |AllRows(days, n, policy)| ==> RowOrdered(AllRows(days, n, policy)[i], n, policy)
    ensures forall i, j :: 0 <= i < j < |AllRows(days, n, policy)| ==>
      AllRows(days, n, policy)[i].day < AllRows(days, n, policy)[j].day
  {
    if n != 0 {
      AllRowsOrdered(days, n - 1, policy);
      hide Percentile;
      var training := TrainingFor(days, n - 1, policy);
      if training != [] {
        PercentileMonotone(training, 0.1, 0.5);
        PercentileMonotone(training, 0.5, 0.9);
      }
    }
  }

  /** A backtested day is judged by earlier days alone: what comes later changes none of its rows. */
  lemma {:induction false} NoLookAhead(days: seq<real>, later: seq<real>, n: nat, policy: Policy)
    requires n <= |days|
    ensures AllRows(days + later, n, policy) == AllRows(days, n, policy)
    ensures AllRows(days, n, policy) <= AllRows(days, |days|, policy)
    decreases |days| - n, 0
  {
    SameRows(days, later, n, policy);
    if n < |days| {
      NoLookAhead(days, later, n + 1, policy);
    }
  }

  lemma {:induction false} SameRows(days: seq<real>, later: seq<real>, n: nat, policy: Policy)
    requires n <= |days|
    ensures AllRows(days + later, n, policy) == AllRows(days, n, policy)
  {
    hide Percentile;
    if n != 0 {
      SameRows(days, later, n - 1, policy);
      assert TrainingFor(days + later, n - 1, policy) == TrainingFor(days, n - 1, policy);
      assert RowsAt(days + later, n - 1, policy) == RowsAt(days, n - 1, policy);
    }
  }
}
