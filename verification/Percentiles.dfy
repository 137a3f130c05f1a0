/**
 * The interpolated percentile that polling/service.py, forecasting/service.py and
 * intelligence/incidents.py share, over exact reals.
 */
module Percentiles {
  import opened Options
  import opened Sequences

  function Insert(x: real, s: seq<real>): seq<real> {
    if s == [] then [x] else if x <= s[0] then [x] + s else [s[0]] + Insert(x, s[1..])
  }

  function Sorted(values: seq<real>): seq<real> {
    if values == [] then [] else Insert(values[0], Sorted(values[1..]))
  }

  ghost predicate Ascending(s: seq<real>) {
    forall i, j :: 0 <= i < j < |s| ==> s[i] <= s[j]
  }

  function Interpolate(s: seq<real>, position: real): real
    requires s != [] && 0.0 <= position <= (|s| - 1) as real
  {
    var lower := position.Floor;
    var upper := if lower + 1 < |s| then lower + 1 else |s| - 1;
    Blend(s[lower], s[upper], position - lower as real)
  }

  function Blend(a: real, b: real, weight: real): real {
    a * (1.0 - weight) + b * weight
  }

  predicate Fraction(f: real) {
    0.0 <= f <= 1.0
  }

  function Position(n: nat, fraction: real): (p: real)
    requires n > 0 && Fraction(fraction)
    ensures 0.0 <= p <= (n - 1) as real
  {
    ScaledWithin((n - 1) as real, fraction);
    (n - 1) as real * fraction
  }

  lemma ProductNonNegative(x: real, y: real)
    requires 0.0 <= x && 0.0 <= y
    ensures 0.0 <= x * y
  {
  }

  lemma ScaledWithin(x: real, f: real)
    requires 0.0 <= x && Fraction(f)
    ensures 0.0 <= x * f <= x
  {
    ProductNonNegative(x, f);
    ProductNonNegative(x, 1.0 - f);
    assert x * (1.0 - f) == x - x * f;
  }

  function Percentile(values: seq<real>, fraction: real): (p: Option<real>)
    requires Fraction(fraction)
    ensures p.Some? <==> values != []
  {
    SortedIsSorted(values);
    if values == [] then None
    else if |values| == 1 then Some(Sorted(values)[0])
    else Some(Interpolate(Sorted(values), Position(|values|, fraction)))
  }

  // ----- Sorting -----

  lemma {:induction false} InsertContents(x: real, s: seq<real>)
    ensures multiset(Insert(x, s)) == multiset(s) + multiset{x}
  {
    if s != [] && x > s[0] {
      InsertContents(x, s[1..]);
      assert s == [s[0]] + s[1..];
    }
  }

  lemma {:induction false} InsertAscends(x: real, s: seq<real>)
    requires Ascending(s)
    ensures Ascending(Insert(x, s))
    ensures Insert(x, s)[0] == if s != [] && s[0] < x then s[0] else x
  {
    if s != [] && x > s[0] {
      InsertAscends(x, s[1..]);
      var rest := Insert(x, s[1..]);
      assert forall j :: 0 <= j < |rest| ==> rest[0] <= rest[j];
    }
  }

  lemma {:induction false} SortedIsSorted(values: seq<real>)
    ensures Ascending(Sorted(values)) && multiset(Sorted(values)) == multiset(values)
    ensures |Sorted(values)| == |values|
  {
    if values != [] {
      SortedIsSorted(values[1..]);
      InsertContents(values[0], Sorted(values[1..]));
      InsertAscends(values[0], Sorted(values[1..]));
      assert values == [values[0]] + values[1..];
    }
    assert |multiset(Sorted(values))| == |multiset(values)|;
  }

  lemma LastIsGreatest(s: seq<real>, y: real)
    requires Ascending(s) && y in multiset(s)
    ensures y <= Last(s)
  {
  }

  lemma InitContents(s: seq<real>)
    requires s != []
    ensures Last(s) in multiset(s) && multiset(Init(s)) == multiset(s) - multiset{Last(s)}
  {
    assert s == Init(s) + [Last(s)];
  }

  lemma SameLast(a: seq<real>, b: seq<real>)
    requires Ascending(a) && Ascending(b) && multiset(a) == multiset(b) && a != [] && b != []
    ensures Last(a) == Last(b) && multiset(Init(a)) == multiset(Init(b))
  {
    InitContents(a);
    InitContents(b);
    LastIsGreatest(a, Last(b));
    LastIsGreatest(b, Last(a));
  }

  lemma SameSize(a: seq<real>, b: seq<real>)
    requires multiset(a) == multiset(b)
    ensures |a| == |b|
  {
    assert |multiset(a)| == |multiset(b)|;
  }

  lemma {:induction false} AscendingUnique(a: seq<real>, b: seq<real>)
    requires Ascending(a) && Ascending(b) && multiset(a) == multiset(b)
    ensures a == b
    decreases |a|
  {
    hide *;
    SameSize(a, b);
    if |a| != 0 {
      SameLast(a, b);
      InitAscends(a);
      InitAscends(b);
      AscendingUnique(Init(a), Init(b));
    }
  }

  lemma InitAscends(s: seq<real>)
    requires s != [] && Ascending(s)
    ensures Ascending(Init(s)) && s == Init(s) + [Last(s)] && |Init(s)| < |s|
  {
  }

  /** The percentile depends on the collection of values, not on their order. */
  lemma PercentileIgnoresOrder(a: seq<real>, b: seq<real>, fraction: real)
    requires Fraction(fraction) && multiset(a) == multiset(b)
    ensures Percentile(a, fraction) == Percentile(b, fraction)
  {
    SortedIsSorted(a);
    SortedIsSorted(b);
    AscendingUnique(Sorted(a), Sorted(b));
  }

  // ----- Interpolation -----

  lemma Between(a: real, b: real, w: real)
    requires a <= b && 0.0 <= w <= 1.0
    ensures a <= Blend(a, b, w) <= b
  {
    ProductNonNegative(b - a, w);
    ProductNonNegative(b - a, 1.0 - w);
    assert Blend(a, b, w) == a + (b - a) * w;
    assert Blend(a, b, w) == b - (b - a) * (1.0 - w);
  }

  lemma Steeper(a: real, b: real, w: real, v: real)
    requires a <= b && w <= v
    ensures Blend(a, b, w) <= Blend(a, b, v)
  {
    ProductNonNegative(b - a, v - w);
    assert Blend(a, b, v) == Blend(a, b, w) + (b - a) * (v - w);
  }

  lemma InterpolateBetween(s: seq<real>, position: real)
    requires s != [] && Ascending(s) && 0.0 <= position <= (|s| - 1) as real
    ensures
      var lower := position.Floor;
      && s[lower] <= Interpolate(s, position)
      && (lower + 1 < |s| ==> Interpolate(s, position) <= s[lower + 1])
      && (position == lower as real ==> Interpolate(s, position) == s[lower])
  {
    var lower := position.Floor;
    assert position == lower as real ==> Blend(s[lower], s[if lower + 1 < |s| then lower + 1 else |s| - 1], 0.0) == s[lower];
    hide Blend;
    Between(s[lower], s[if lower + 1 < |s| then lower + 1 else |s| - 1], position - lower as real);
  }

  lemma InterpolateMonotone(s: seq<real>, p: real, q: real)
    requires s != [] && Ascending(s) && 0.0 <= p <= q <= (|s| - 1) as real
    ensures Interpolate(s, p) <= Interpolate(s, q)
  {
    hide Blend;
    InterpolateBetween(s, p);
    InterpolateBetween(s, q);
    if p.Floor == q.Floor {
      var lower := p.Floor;
      Steeper(s[lower], s[if lower + 1 < |s| then lower + 1 else |s| - 1], p - lower as real, q - lower as real);
    } else {
      assert p.Floor + 1 <= q.Floor;
    }
  }

  lemma PositionMonotone(n: nat, f: real, g: real)
    requires n > 0 && Fraction(f) && Fraction(g) && f <= g
    ensures Position(n, f) <= Position(n, g)
  {
    var x := (n - 1) as real;
    ProductNonNegative(x, g - f);
    assert x * (g - f) == x * g - x * f;
  }

  /** A larger fraction never gives a smaller percentile. */
  lemma PercentileMonotone(values: seq<real>, f: real, g: real)
    requires Fraction(f) && Fraction(g) && f <= g && values != []
    ensures Percentile(values, f).value <= Percentile(values, g).value
  {
    hide Interpolate, Sorted, Position;
    SortedIsSorted(values);
    PositionMonotone(|values|, f, g);
    if |values| > 1 {
      InterpolateMonotone(Sorted(values), Position(|values|, f), Position(|values|, g));
    }
  }

  // ----- Rank -----

  function AtMost(values: seq<real>, bound: real): nat {
    if values == [] then 0 else AtMost(Init(values), bound) + if Last(values) <= bound then 1 else 0
  }

  function AtLeast(values: seq<real>, bound: real): nat {
    if values == [] then 0 else AtLeast(Init(values), bound) + if Last(values) >= bound then 1 else 0
  }

  lemma {:induction false} CountsSplit(a: seq<real>, b: seq<real>, bound: real)
    ensures AtMost(a + b, bound) == AtMost(a, bound) + AtMost(b, bound)
    ensures AtLeast(a + b, bound) == AtLeast(a, bound) + AtLeast(b, bound)
  {
    if b == [] {
      assert a + b == a;
    } else {
      assert Init(a + b) == a + Init(b);
      CountsSplit(a, Init(b), bound);
    }
  }

  lemma {:induction false} CountsIgnoreOrder(a: seq<real>, b: seq<real>, bound: real)
    requires multiset(a) == multiset(b)
    ensures AtMost(a, bound) == AtMost(b, bound) && AtLeast(a, bound) == AtLeast(b, bound)
    decreases |a|
  {
    hide *;
    SameSize(a, b);
    if |a| == 0 {
      assert a == b;
    } else {
      var i := LastOccurs(a, b);
      var x := Last(a);
      RemoveOne(b, i);
      InitContents(a);
      CountsIgnoreOrder(Init(a), b[..i] + b[i + 1..], bound);
      CountsSplit(b[..i], b[i + 1..], bound);
      CountsSplit(b[..i], [x] + b[i + 1..], bound);
      CountsSplit([x], b[i + 1..], bound);
      CountsSplit(Init(a), [x], bound);
    }
  }

  lemma LastOccurs(a: seq<real>, b: seq<real>) returns (i: nat)
    requires multiset(a) == multiset(b) && a != []
    ensures i < |b| && b[i] == Last(a)
    ensures a == Init(a) + [Last(a)] && |Init(a)| == |a| - 1
  {
    assert Last(a) in multiset(a);
    assert Last(a) in multiset(b);
    assert Last(a) in b;
    i :| 0 <= i < |b| && b[i] == Last(a);
  }

  lemma RemoveOne(b: seq<real>, i: nat)
    requires i < |b|
    ensures b == b[..i] + ([b[i]] + b[i + 1..])
    ensures multiset(b[..i] + b[i + 1..]) == multiset(b) - multiset{b[i]}
  {
  }

  lemma {:induction false} AllAtMost(s: seq<real>, bound: real)
    requires forall i :: 0 <= i < |s| ==> s[i] <= bound
    ensures AtMost(s, bound) == |s|
  {
    if s != [] {
      AllAtMost(Init(s), bound);
    }
  }

  lemma {:induction false} AllAtLeast(s: seq<real>, bound: real)
    requires forall i :: 0 <= i < |s| ==> s[i] >= bound
    ensures AtLeast(s, bound) == |s|
  {
    if s != [] {
      AllAtLeast(Init(s), bound);
    }
  }

  lemma {:induction false} AtMostMonotone(values: seq<real>, a: real, b: real)
    requires a <= b
    ensures AtMost(values, a) <= AtMost(values, b)
  {
    if values != [] {
      AtMostMonotone(Init(values), a, b);
    }
  }

  /**
   * What a percentile means: more than (n-1) times the fraction of the values are at or below it, at
   * least (n-1) times the rest are at or above it, and it lies between two of the values.
   */
  lemma PercentileRank(values: seq<real>, fraction: real)
    requires Fraction(fraction) && values != []
    ensures
      var p := Percentile(values, fraction).value;
      && AtMost(values, p) as real > Position(|values|, fraction)
      && AtLeast(values, p) as real >= (|values| - 1) as real - Position(|values|, fraction)
      && (exists x :: x in values && x <= p) && (exists x :: x in values && p <= x)
  {
    hide *;
    var s, p := Sorted(values), Percentile(values, fraction).value;
    var position := Position(|values|, fraction);
    PercentileBetween(values, fraction);
    SortedIsSorted(values);
    CountsIgnoreOrder(values, s, p);
    var lower := position.Floor;
    var upper := if position == lower as real then lower else lower + 1;
    RankIn(s, p, lower, upper);
    assert s[lower] in multiset(s) && s[upper] in multiset(s);
    assert s[lower] in values && s[upper] in values;
    assert lower as real <= position < (lower + 1) as real && upper as real <= position + 1.0;
  }

  lemma PercentileBetween(values: seq<real>, fraction: real)
    requires Fraction(fraction) && values != []
    ensures
      var s, position := Sorted(values), Position(|values|, fraction);
      var lower := position.Floor;
      var upper := if position == lower as real then lower else lower + 1;
      lower <= upper < |s| && s[lower] <= Percentile(values, fraction).value <= s[upper]
  {
    hide Interpolate, Sorted, Position;
    SortedIsSorted(values);
    var position := Position(|values|, fraction);
    if |values| > 1 {
      InterpolateBetween(Sorted(values), position);
    }
  }

  lemma RankIn(s: seq<real>, p: real, lower: nat, upper: nat)
    requires Ascending(s) && lower <= upper < |s| && s[lower] <= p <= s[upper]
    ensures AtMost(s, p) >= lower + 1 && AtLeast(s, p) >= |s| - upper
  {
    hide AtMost, AtLeast;
    assert s == s[..lower + 1] + s[lower + 1..] && s == s[..upper] + s[upper..];
    AllAtMost(s[..lower + 1], p);
    CountsSplit(s[..lower + 1], s[lower + 1..], p);
    AllAtLeast(s[upper..], p);
    CountsSplit(s[..upper], s[upper..], p);
  }

  // ----- Between two ranks -----

  /** At a whole position the percentile is the value of that rank. */
  lemma PercentileAtRank(values: seq<real>, fraction: real, rank: nat)
    requires Fraction(fraction) && rank < |values| && Position(|values|, fraction) == rank as real
    ensures rank < |Sorted(values)| && Percentile(values, fraction) == Some(Sorted(values)[rank])
  {
    SortedIsSorted(values);
    hide Sorted;
  }

  /** Between two neighbouring ranks it is linear in the position. */
  lemma PercentileLinear(values: seq<real>, f: real, g: real, h: real, rank: nat)
    requires Fraction(f) && Fraction(g) && Fraction(h) && rank + 1 < |values|
    requires rank as real <= Position(|values|, f) <= (rank + 1) as real
    requires rank as real <= Position(|values|, g) <= (rank + 1) as real
    requires rank as real <= Position(|values|, h) <= (rank + 1) as real
    ensures (Percentile(values, g).value - Percentile(values, f).value) * (Position(|values|, h) - Position(|values|, f))
         == (Percentile(values, h).value - Percentile(values, f).value) * (Position(|values|, g) - Position(|values|, f))
  {
    var s := Sorted(values);
    SortedIsSorted(values);
    hide Sorted, Position, Interpolate;
    var p, q, r := Position(|values|, f), Position(|values|, g), Position(|values|, h);
    OnSegment(s, p, rank);
    OnSegment(s, q, rank);
    OnSegment(s, r, rank);
    Proportional(s[rank], s[rank + 1] - s[rank], p - rank as real, q - rank as real, r - rank as real);
  }

  lemma OnSegment(s: seq<real>, position: real, rank: nat)
    requires rank + 1 < |s| && rank as real <= position <= (rank + 1) as real
    ensures Interpolate(s, position) == s[rank] + (s[rank + 1] - s[rank]) * (position - rank as real)
  {
    var a, b, w := s[rank], s[rank + 1], position - rank as real;
    assert a * (1.0 - w) + b * w == a + (b - a) * w;
    if position == (rank + 1) as real {
      assert position.Floor == rank + 1;
    } else {
      assert position.Floor == rank;
    }
  }

  lemma Proportional(a: real, d: real, f: real, g: real, h: real)
    ensures ((a + d * g) - (a + d * f)) * (h - f) == ((a + d * h) - (a + d * f)) * (g - f)
  {
    assert ((a + d * g) - (a + d * f)) == d * (g - f);
    assert ((a + d * h) - (a + d * f)) == d * (h - f);
  }
}
