/** The integration loop of history/analytics.py over exact reals: trapezoids, skipped gaps and ignored steps. */
module Energy {
  /** A power sample: seconds and watts. */
  datatype Sample = Sample(at: real, watts: real)

  datatype Totals = Totals(wattHours: real, integrated: real, skipped: real)

  const ZERO := Totals(0.0, 0.0, 0.0)

  function Plus(a: Totals, b: Totals): Totals {
    Totals(a.wattHours + b.wattHours, a.integrated + b.integrated, a.skipped + b.skipped)
  }

  /** The contribution of two neighbouring samples. */
  function Step(left: Sample, right: Sample, maxGap: real): Totals {
    var delta := right.at - left.at;
    if delta <= 0.0 then ZERO
    else if delta > maxGap then Totals(0.0, 0.0, delta)
    else Totals(Area(left.watts, right.watts, delta), delta, 0.0)
  }

  function Area(left: real, right: real, delta: real): real {
    ((left + right) / 2.0) * (delta / 3600.0)
  }

  function Integral(samples: seq<Sample>, maxGap: real): Totals
    decreases |samples|
  {
    if |samples| < 2 then ZERO
    else Plus(Integral(samples[..|samples| - 1], maxGap), Step(samples[|samples| - 2], samples[|samples| - 1], maxGap))
  }

  lemma OneMoreSample(samples: seq<Sample>, i: nat, maxGap: real)
    requires 1 <= i < |samples|
    ensures Integral(samples[..i + 1], maxGap) == Plus(Integral(samples[..i], maxGap), Step(samples[i - 1], samples[i], maxGap))
  {
    hide Step, Plus;
    assert samples[..i + 1][..i] == samples[..i];
  }

  lemma TooFewSamples(samples: seq<Sample>, maxGap: real)
    requires |samples| < 2
    ensures Integral(samples, maxGap) == ZERO
  {
  }

  method Integrate(samples: seq<Sample>, maxGap: real) returns (wattHours: real, integrated: real, skipped: real)
    ensures Totals(wattHours, integrated, skipped) == Integral(samples, maxGap)
  {
    hide Area, Integral;
    wattHours, integrated, skipped := 0.0, 0.0, 0.0;
    var i := 1;
    TooFewSamples(if samples == [] then [] else samples[..1], maxGap);
    while i < |samples|
      invariant 1 <= i && (i <= |samples| || samples == [])
      invariant Totals(wattHours, integrated, skipped) == Integral(if i <= |samples| then samples[..i] else [], maxGap)
    {
      var left, right := samples[i - 1], samples[i];
      OneMoreSample(samples, i, maxGap);
      i := i + 1;
      var delta := right.at - left.at;
      if delta <= 0.0 {
        continue;
      }
      if delta > maxGap {
        skipped := skipped + delta;
        continue;
      }
      wattHours := wattHours + Area(left.watts, right.watts, delta);
      integrated := integrated + delta;
    }
    assert samples != [] ==> samples[..|samples|] == samples;
  }

  ghost predicate Ordered(samples: seq<Sample>) {
    forall i, j :: 0 <= i < j < |samples| ==> samples[i].at <= samples[j].at
  }

  /** How far time runs backwards between neighbours. */
  function Backwards(samples: seq<Sample>): real {
    if |samples| < 2 then 0.0
    else
      var delta := samples[|samples| - 1].at - samples[|samples| - 2].at;
      Backwards(samples[..|samples| - 1]) + if delta < 0.0 then -delta else 0.0
  }

  lemma OrderedSnoc(samples: seq<Sample>)
    requires |samples| >= 2
    ensures Ordered(samples) <==>
      Ordered(samples[..|samples| - 1]) && samples[|samples| - 2].at <= samples[|samples| - 1].at
  {
  }

  lemma {:induction false} SecondsAndBackwards(samples: seq<Sample>, maxGap: real)
    requires samples != []
    ensures
      var t := Integral(samples, maxGap);
      t.integrated + t.skipped == samples[|samples| - 1].at - samples[0].at + Backwards(samples)
    ensures Backwards(samples) >= 0.0 && (Backwards(samples) == 0.0 <==> Ordered(samples))
  {
    hide Area;
    if |samples| >= 2 {
      var before := samples[..|samples| - 1];
      SecondsAndBackwards(before, maxGap);
      OrderedSnoc(samples);
    }
  }

  /** Integrated and skipped seconds make up the span of the samples exactly when the samples are in time order. */
  lemma SecondsConservedExactly(samples: seq<Sample>, maxGap: real)
    requires samples != []
    ensures
      var t := Integral(samples, maxGap);
      t.integrated + t.skipped == samples[|samples| - 1].at - samples[0].at <==> Ordered(samples)
  {
    SecondsAndBackwards(samples, maxGap);
  }

  lemma ProductMonotone(a: real, b: real, d: real)
    requires a <= b && 0.0 <= d
    ensures a * d <= b * d
  {
    assert 0.0 <= (b - a) * d;
  }

  predicate Between(t: Totals, low: real, high: real) {
    && t.integrated >= 0.0
    && low * (t.integrated / 3600.0) <= t.wattHours <= high * (t.integrated / 3600.0)
  }

  lemma StepBetween(left: Sample, right: Sample, maxGap: real, low: real, high: real)
    requires low <= left.watts <= high && low <= right.watts <= high
    ensures Between(Step(left, right, maxGap), low, high)
  {
    var delta := right.at - left.at;
    if 0.0 < delta <= maxGap {
      ProductMonotone(low, (left.watts + right.watts) / 2.0, delta / 3600.0);
      ProductMonotone((left.watts + right.watts) / 2.0, high, delta / 3600.0);
    }
  }

  lemma SumBetween(t: Totals, s: Totals, low: real, high: real)
    requires Between(t, low, high) && Between(s, low, high)
    ensures Between(Plus(t, s), low, high)
  {
    assert low * ((t.integrated + s.integrated) / 3600.0) == low * (t.integrated / 3600.0) + low * (s.integrated / 3600.0);
    assert high * ((t.integrated + s.integrated) / 3600.0) == high * (t.integrated / 3600.0) + high * (s.integrated / 3600.0);
  }

  lemma NothingBetween(low: real, high: real)
    ensures Between(ZERO, low, high)
  {
  }

  /** The energy lies between the least and the greatest power over the integrated time, in whatever order samples come. */
  lemma {:induction false} EnergyBetween(samples: seq<Sample>, maxGap: real, low: real, high: real)
    requires forall i :: 0 <= i < |samples| ==> low <= samples[i].watts <= high
    ensures Between(Integral(samples, maxGap), low, high)
  {
    hide Between, Step, Plus;
    if |samples| >= 2 {
      var before := samples[..|samples| - 1];
      var left, right := samples[|samples| - 2], samples[|samples| - 1];
      EnergyBetween(before, maxGap, low, high);
      StepBetween(left, right, maxGap, low, high);
      SumBetween(Integral(before, maxGap), Step(left, right, maxGap), low, high);
    } else {
      NothingBetween(low, high);
    }
  }

  /** Splitting at a shared sample makes all three totals add up. */
  lemma {:induction false} SplitAtSample(samples: seq<Sample>, k: nat, maxGap: real)
    requires k < |samples|
    ensures Integral(samples, maxGap) == Plus(Integral(samples[..k + 1], maxGap), Integral(samples[k..], maxGap))
    decreases |samples|
  {
    hide Step, Integral;
    if k == |samples| - 1 {
      assert samples[..k + 1] == samples;
      TooFewSamples(samples[k..], maxGap);
    } else {
      var before := samples[..|samples| - 1];
      SplitAtSample(before, k, maxGap);
      LastStep(samples, maxGap);
      LastStep(samples[k..], maxGap);
      assert before[..k + 1] == samples[..k + 1] && samples[k..][..|samples[k..]| - 1] == before[k..];
    }
  }

  lemma LastStep(samples: seq<Sample>, maxGap: real)
    requires |samples| >= 2
    ensures Integral(samples, maxGap)
      == Plus(Integral(samples[..|samples| - 1], maxGap), Step(samples[|samples| - 2], samples[|samples| - 1], maxGap))
  {
    hide Step;
  }

  /** A sample on the straight line between its neighbours changes no energy, when neither side is a skipped gap. */
  lemma CollinearSampleIsFree(left: Sample, right: Sample, at: real, maxGap: real)
    requires left.at < at < right.at && right.at - left.at <= maxGap
    ensures
      var between := Sample(at, left.watts + (right.watts - left.watts) * ((at - left.at) / (right.at - left.at)));
      Plus(Step(left, between, maxGap), Step(between, right, maxGap)) == Step(left, right, maxGap)
  {
    var span, part := right.at - left.at, at - left.at;
    var rise := right.watts - left.watts;
    var q := part / span;
    assert q * span == part;
    CollinearArea(left.watts, rise, q, span, part);
  }

  lemma CollinearArea(base: real, rise: real, q: real, span: real, part: real)
    requires q * span == part
    ensures Area(base, base + rise * q, part) + Area(base + rise * q, base + rise, span - part) == Area(base, base + rise, span)
  {
    assert rise * q * span == rise * part;
    var total := (base + base + rise * q) * part + (base + rise * q + base + rise) * (span - part);
    assert total == (base + base + rise) * span;
  }

  // ----- Which time is integrated, and what the integral is -----

  /** The distances of neighbouring samples. */
  function Distances(samples: seq<Sample>): (ds: seq<real>)
    ensures |ds| == if samples == [] then 0 else |samples| - 1
  {
    seq(if samples == [] then 0 else |samples| - 1, i requires 0 <= i < |samples| - 1 => samples[i + 1].at - samples[i].at)
  }

  /** The sum of the distances above one bound and up to another. */
  function SumWithin(ds: seq<real>, low: real, high: real): real {
    if ds == [] then 0.0
    else SumWithin(ds[..|ds| - 1], low, high) + if low < ds[|ds| - 1] <= high then ds[|ds| - 1] else 0.0
  }

  function SumAbove(ds: seq<real>, low: real): real {
    if ds == [] then 0.0 else SumAbove(ds[..|ds| - 1], low) + if ds[|ds| - 1] > low then ds[|ds| - 1] else 0.0
  }

  /** Integrated are the distances up to the allowed gap, skipped those above it; steps back in time count for nothing. */
  lemma {:induction false} SecondsExactly(samples: seq<Sample>, maxGap: real)
    ensures Integral(samples, maxGap).integrated == SumWithin(Distances(samples), 0.0, maxGap)
    ensures Integral(samples, maxGap).skipped == SumAbove(Distances(samples), if maxGap < 0.0 then 0.0 else maxGap)
  {
    hide Area;
    if |samples| >= 2 {
      var n := |samples| - 1;
      SecondsExactly(samples[..n], maxGap);
      assert Distances(samples)[..n - 1] == Distances(samples[..n]);
    }
  }

  function LineAt(base: real, slope: real, t: real): real {
    base + slope * t
  }

  /** The samples lie on one straight line, in time order and without a gap. */
  ghost predicate OnLine(samples: seq<Sample>, base: real, slope: real, maxGap: real) {
    && (forall i :: 0 <= i < |samples| ==> samples[i].watts == LineAt(base, slope, samples[i].at))
    && (forall i :: 0 <= i < |samples| - 1 ==> samples[i].at <= samples[i + 1].at && samples[i + 1].at - samples[i].at <= maxGap)
  }

  /** On a straight line without gaps the totals are the trapezoid of the two end samples and the whole span. */
  lemma LineIsTrapezoid(samples: seq<Sample>, base: real, slope: real, maxGap: real)
    requires samples != [] && OnLine(samples, base, slope, maxGap)
    ensures
      var first, last := samples[0], samples[|samples| - 1];
      Integral(samples, maxGap)
      == Totals((first.watts + last.watts) / 2.0 * ((last.at - first.at) / 3600.0), last.at - first.at, 0.0)
  {
    hide Integral, LineAt, Primitive;
    LineTelescopes(samples, base, slope, maxGap);
    LineArea(base, slope, samples[0].at, samples[|samples| - 1].at);
  }

  lemma {:induction false} LineTelescopes(samples: seq<Sample>, base: real, slope: real, maxGap: real)
    requires samples != [] && OnLine(samples, base, slope, maxGap)
    ensures
      var first, last := samples[0], samples[|samples| - 1];
      Integral(samples, maxGap)
      == Totals(Primitive(base, slope, last.at) - Primitive(base, slope, first.at), last.at - first.at, 0.0)
  {
    hide OnLine, Step, Primitive;
    var n := |samples| - 1;
    if n > 0 {
      LineInit(samples, base, slope, maxGap);
      LineTelescopes(samples[..n], base, slope, maxGap);
    }
  }

  lemma LineInit(samples: seq<Sample>, base: real, slope: real, maxGap: real)
    requires |samples| >= 2 && OnLine(samples, base, slope, maxGap)
    ensures OnLine(samples[..|samples| - 1], base, slope, maxGap)
    ensures
      var left, right := samples[|samples| - 2], samples[|samples| - 1];
      Step(left, right, maxGap)
      == Totals(Primitive(base, slope, right.at) - Primitive(base, slope, left.at), right.at - left.at, 0.0)
  {
    hide Step, Primitive, LineAt;
    StepOnLine(samples[|samples| - 2], samples[|samples| - 1], base, slope, maxGap);
  }

  lemma StepOnLine(left: Sample, right: Sample, base: real, slope: real, maxGap: real)
    requires left.watts == LineAt(base, slope, left.at) && right.watts == LineAt(base, slope, right.at)
    requires left.at <= right.at && right.at - left.at <= maxGap
    ensures Step(left, right, maxGap)
            == Totals(Primitive(base, slope, right.at) - Primitive(base, slope, left.at), right.at - left.at, 0.0)
  {
    hide Primitive, Area, LineAt;
    LineArea(base, slope, left.at, right.at);
  }

  /** The energy up to a time, in watt hours, of power `base + slope * t`. */
  function Primitive(base: real, slope: real, t: real): real {
    (base * t + slope * (t * t) / 2.0) / 3600.0
  }

  lemma LineArea(base: real, slope: real, a: real, b: real)
    ensures Area(LineAt(base, slope, a), LineAt(base, slope, b), b - a) == Primitive(base, slope, b) - Primitive(base, slope, a)
  {
    assert (base + slope * a + (base + slope * b)) * (b - a) == 2.0 * base * (b - a) + slope * (b * b) - slope * (a * a);
  }
}
