/** Day-level evidence of history/analytics.py: coverage counts and the grouping of days without live samples. */
module Gaps {
  /** Live sample counts and retained controller records (whether complete) by day number. */
  datatype Evidence = Evidence(live: map<int, nat>, retained: map<int, bool>)

  datatype Kind = Live | Recovered | Partial | Missing

  datatype Gap = Gap(from: int, to: int, duration: nat, kind: Kind, records: nat)

  predicate HasLive(e: Evidence, day: int) {
    day in e.live && e.live[day] > 0
  }

  predicate HasComplete(e: Evidence, day: int) {
    day in e.retained && e.retained[day]
  }

  function KindOf(e: Evidence, day: int): Kind {
    if HasLive(e, day) then Live
    else if HasComplete(e, day) then Recovered
    else if day in e.retained then Partial
    else Missing
  }

  // ----- Coverage -----

  function Count(e: Evidence, start: int, end: int, kind: Kind): nat
    decreases end - start
  {
    if end <= start then 0 else Count(e, start, end - 1, kind) + if KindOf(e, end - 1) == kind then 1 else 0
  }

  /** A day is what its best evidence makes of it: live samples first, then a complete retained record, then any record. */
  lemma KindExactly(e: Evidence, day: int)
    ensures KindOf(e, day) == Live <==> day in e.live && e.live[day] > 0
    ensures KindOf(e, day) != Live && day in e.retained ==> (KindOf(e, day) == Recovered <==> e.retained[day])
    ensures KindOf(e, day) != Live ==> (KindOf(e, day) == Missing <==> day !in e.retained)
  {
  }

  /** `Count` counts the days of a kind. */
  lemma {:induction false} CountExactly(e: Evidence, start: int, end: int, kind: Kind)
    ensures Count(e, start, end, kind) == |set day | start <= day < end && KindOf(e, day) == kind|
    decreases end - start
  {
    hide KindOf;
    var days := set day | start <= day < end && KindOf(e, day) == kind;
    if end <= start {
      assert days == {};
    } else {
      CountExactly(e, start, end - 1, kind);
      var before := set day | start <= day < end - 1 && KindOf(e, day) == kind;
      assert days == before + if KindOf(e, end - 1) == kind then {end - 1} else {};
      assert end - 1 !in before;
    }
  }

  /** The days with a complete retained record, live samples or not. */
  function Completed(e: Evidence, start: int, end: int): nat
    decreases end - start
  {
    if end <= start then 0 else Completed(e, start, end - 1) + if HasComplete(e, end - 1) then 1 else 0
  }

  datatype CoverageCounts = CoverageCounts(days: nat, realtime: nat, completed: nat, recovered: nat, covered: nat, missing: int)

  /** The counts are sums over the same days with different conditions. */
  method Coverage(e: Evidence, start: int, end: int) returns (c: CoverageCounts)
    requires start < end
    ensures c.days == end - start
    ensures c.realtime == Count(e, start, end, Live) && c.recovered == Count(e, start, end, Recovered)
    ensures c.covered == Count(e, start, end, Live) + Count(e, start, end, Recovered)
    ensures c.missing == Count(e, start, end, Partial) + Count(e, start, end, Missing)
    ensures c.completed == Completed(e, start, end) && c.recovered <= c.completed <= c.covered
  {
    var realtime, completed, recovered, covered := 0, 0, 0, 0;
    for day := start to end
      invariant realtime == Count(e, start, day, Live) && recovered == Count(e, start, day, Recovered)
      invariant covered == Count(e, start, day, Live) + Count(e, start, day, Recovered)
      invariant day - start - covered == Count(e, start, day, Partial) + Count(e, start, day, Missing)
      invariant completed == Completed(e, start, day) && recovered <= completed <= covered
    {
      if HasLive(e, day) {
        realtime := realtime + 1;
      }
      if HasComplete(e, day) {
        completed := completed + 1;
      }
      if !HasLive(e, day) && HasComplete(e, day) {
        recovered := recovered + 1;
      }
      if HasLive(e, day) || HasComplete(e, day) {
        covered := covered + 1;
      }
    }
    c := CoverageCounts(end - start, realtime, completed, recovered, covered, end - start - covered);
  }

  // ----- Grouping -----

  ghost predicate Uniform(e: Evidence, g: Gap) {
    && g.from < g.to && g.kind != Live && g.duration == g.to - g.from
    && g.records == (if g.kind == Missing then 0 else g.duration)
    && forall day :: g.from <= day < g.to ==> KindOf(e, day) == g.kind
  }

  ghost predicate Within(gaps: seq<Gap>, start: int, end: int) {
    && (forall i :: 0 <= i < |gaps| ==> start <= gaps[i].from && gaps[i].to <= end)
    && (forall i, j :: 0 <= i < j < |gaps| ==> gaps[i].to <= gaps[j].from)
  }

  ghost predicate InSome(gaps: seq<Gap>, day: int) {
    exists i :: 0 <= i < |gaps| && gaps[i].from <= day < gaps[i].to
  }

  ghost predicate Covers(e: Evidence, gaps: seq<Gap>, start: int, end: int) {
    forall day :: start <= day < end && KindOf(e, day) != Live ==> InSome(gaps, day)
  }

  /** Touching gaps differ in kind. */
  ghost predicate Maximal(gaps: seq<Gap>) {
    forall i, j :: 0 <= i < j < |gaps| && gaps[i].to == gaps[j].from ==> gaps[i].kind != gaps[j].kind
  }

  /** Disjoint, ordered and uniform gaps that cover exactly the days without live samples, none of them splittable. */
  ghost predicate Grouping(e: Evidence, gaps: seq<Gap>, start: int, end: int) {
    && (forall i :: 0 <= i < |gaps| ==> Uniform(e, gaps[i]))
    && Within(gaps, start, end)
    && Covers(e, gaps, start, end)
    && Maximal(gaps)
  }

  method FindGaps(e: Evidence, start: int, end: int) returns (grouped: seq<Gap>)
    requires start < end
    ensures Grouping(e, grouped, start, end)
  {
    var daily := DailyGaps(e, start, end);
    grouped := [];
    ghost var upto := start;
    for i := 0 to |daily|
      invariant start <= upto <= end && (i < |daily| ==> upto <= daily[i].0)
      invariant upto == if i == 0 then start else daily[i - 1].0 + 1
      invariant Grouping(e, grouped, start, upto)
    {
      var (day, kind) := daily[i];
      LiveBetween(e, daily, start, end, i);
      GroupingSkips(e, grouped, start, upto, day);
      grouped := AddDay(e, grouped, start, day, kind);
      upto := day + 1;
    }
    LiveBetween(e, daily, start, end, |daily|);
    GroupingSkips(e, grouped, start, upto, end);
  }

  /** The days without live samples, in order, with their kinds. */
  method DailyGaps(e: Evidence, start: int, end: int) returns (daily: seq<(int, Kind)>)
    requires start < end
    ensures forall i :: 0 <= i < |daily| ==> start <= daily[i].0 < end && daily[i].1 == KindOf(e, daily[i].0) != Live
    ensures forall i, j :: 0 <= i < j < |daily| ==> daily[i].0 < daily[j].0
    ensures forall day :: start <= day < end && KindOf(e, day) != Live ==> Listed(daily, day)
  {
    daily := [];
    for day := start to end
      invariant forall i :: 0 <= i < |daily| ==> start <= daily[i].0 < day && daily[i].1 == KindOf(e, daily[i].0) != Live
      invariant forall i, j :: 0 <= i < j < |daily| ==> daily[i].0 < daily[j].0
      invariant forall d :: start <= d < day && KindOf(e, d) != Live ==> Listed(daily, d)
    {
      if HasLive(e, day) {
        continue;
      }
      var kind := if HasComplete(e, day) then Recovered else if day in e.retained then Partial else Missing;
      ListedSnoc(daily, (day, kind));
      daily := daily + [(day, kind)];
    }
  }

  ghost predicate Listed(daily: seq<(int, Kind)>, day: int) {
    exists i :: 0 <= i < |daily| && daily[i].0 == day
  }

  lemma ListedSnoc(daily: seq<(int, Kind)>, x: (int, Kind))
    ensures Listed(daily + [x], x.0) && forall day :: Listed(daily, day) ==> Listed(daily + [x], day)
  {
    assert (daily + [x])[|daily|] == x;
    forall day | Listed(daily, day)
      ensures Listed(daily + [x], day)
    {
      var i :| 0 <= i < |daily| && daily[i].0 == day;
      assert (daily + [x])[i] == daily[i];
    }
  }

  lemma LiveBetween(e: Evidence, daily: seq<(int, Kind)>, start: int, end: int, i: nat)
    requires i <= |daily| && start < end
    requires forall k :: 0 <= k < |daily| ==> start <= daily[k].0 < end
    requires forall j, k :: 0 <= j < k < |daily| ==> daily[j].0 < daily[k].0
    requires forall day :: start <= day < end && KindOf(e, day) != Live ==> Listed(daily, day)
    ensures AllLive(e, if i == 0 then start else daily[i - 1].0 + 1, if i < |daily| then daily[i].0 else end)
  {
  }

  ghost predicate AllLive(e: Evidence, from: int, to: int) {
    from <= to && forall day :: from <= day < to ==> KindOf(e, day) == Live
  }

  lemma GroupingSkips(e: Evidence, gaps: seq<Gap>, start: int, mid: int, end: int)
    requires Grouping(e, gaps, start, mid) && AllLive(e, mid, end)
    ensures Grouping(e, gaps, start, end)
  {
  }

  /** The last group is extended in place when the day continues it; otherwise a new group begins. */
  method AddDay(e: Evidence, grouped: seq<Gap>, ghost start: int, day: int, kind: Kind) returns (r: seq<Gap>)
    requires Grouping(e, grouped, start, day) && start <= day && kind == KindOf(e, day) != Live
    ensures Grouping(e, r, start, day + 1)
  {
    var record := if kind == Missing then 0 else 1;
    if grouped != [] && grouped[|grouped| - 1].kind == kind && grouped[|grouped| - 1].to == day {
      var previous := grouped[|grouped| - 1];
      r := grouped[|grouped| - 1 := previous.(to := day + 1, duration := previous.duration + 1, records := previous.records + record)];
      Extended(e, grouped, r, start, day);
    } else {
      r := grouped + [Gap(day, day + 1, 1, kind, record)];
      Appended(e, grouped, r, start, day);
    }
  }

  lemma Extended(e: Evidence, grouped: seq<Gap>, r: seq<Gap>, start: int, day: int)
    requires Grouping(e, grouped, start, day) && grouped != [] && |r| == |grouped|
    requires grouped[|grouped| - 1].to == day && KindOf(e, day) == grouped[|grouped| - 1].kind
    requires forall i :: 0 <= i < |grouped| - 1 ==> r[i] == grouped[i]
    requires r[|r| - 1].from == grouped[|grouped| - 1].from && r[|r| - 1].to == day + 1
    requires r[|r| - 1].kind == grouped[|grouped| - 1].kind && Uniform(e, r[|r| - 1])
    ensures Grouping(e, r, start, day + 1)
  {
    assert Uniform(e, grouped[|grouped| - 1]);
    hide Uniform, KindOf, InSome;
    forall i, j | 0 <= i < j < |r| && r[i].to == r[j].from
      ensures r[i].kind != r[j].kind
    {
      assert grouped[i].to == grouped[j].from;
    }
    ExtendedCovers(e, grouped, r, start, day);
  }

  lemma ExtendedCovers(e: Evidence, grouped: seq<Gap>, r: seq<Gap>, start: int, day: int)
    requires Covers(e, grouped, start, day) && |r| == |grouped| > 0
    requires forall i :: 0 <= i < |grouped| ==> r[i].from == grouped[i].from && grouped[i].to <= r[i].to
    requires r[|r| - 1].from <= day < r[|r| - 1].to
    ensures Covers(e, r, start, day + 1)
  {
  }

  lemma Appended(e: Evidence, grouped: seq<Gap>, r: seq<Gap>, start: int, day: int)
    requires Grouping(e, grouped, start, day) && start <= day
    requires |r| == |grouped| + 1 && r[..|grouped|] == grouped && Uniform(e, r[|grouped|])
    requires r[|grouped|].from == day && r[|grouped|].to == day + 1
    requires grouped != [] && grouped[|grouped| - 1].to == day ==> grouped[|grouped| - 1].kind != r[|grouped|].kind
    ensures Grouping(e, r, start, day + 1)
  {
    assert forall i :: 0 <= i < |grouped| ==> r[i] == grouped[i];
    AppendedCovers(e, grouped, r, start, day);
    hide InSome, KindOf;
    forall i, j | 0 <= i < j < |r| && r[i].to == r[j].from
      ensures r[i].kind != r[j].kind
    {
      assert grouped != [] ==> Uniform(e, grouped[|grouped| - 1]);
    }
  }

  lemma AppendedCovers(e: Evidence, grouped: seq<Gap>, r: seq<Gap>, start: int, day: int)
    requires Covers(e, grouped, start, day) && |r| == |grouped| + 1
    requires forall i :: 0 <= i < |grouped| ==> r[i] == grouped[i]
    requires r[|grouped|].from <= day < r[|grouped|].to
    ensures Covers(e, r, start, day + 1)
  {
  }

  // ----- There is only one grouping -----

  lemma TailGrouping(e: Evidence, gaps: seq<Gap>, start: int, end: int)
    requires Grouping(e, gaps, start, end) && gaps != []
    ensures Grouping(e, gaps[1..], gaps[0].to, end)
  {
  }

  lemma FirstDay(e: Evidence, gaps: seq<Gap>, start: int, end: int, day: int)
    requires Grouping(e, gaps, start, end) && start <= day < end && KindOf(e, day) != Live
    ensures gaps != [] && gaps[0].from <= day
  {
  }

  lemma FirstEnds(e: Evidence, a: seq<Gap>, b: seq<Gap>, start: int, end: int)
    requires Grouping(e, a, start, end) && Grouping(e, b, start, end)
    requires a != [] && b != [] && a[0].from == b[0].from
    ensures b[0].to <= a[0].to
  {
    assert Uniform(e, a[0]) && Uniform(e, b[0]);
    assert KindOf(e, a[0].from) == a[0].kind == b[0].kind;
    assert |a| > 1 ==> Uniform(e, a[1]) && KindOf(e, a[1].from) == a[1].kind;
    if a[0].to < b[0].to {
      var day := a[0].to;
      assert KindOf(e, day) == a[0].kind;
      TailGrouping(e, a, start, end);
      FirstDay(e, a[1..], day, end, day);
      assert false;
    }
  }

  lemma FirstGapUnique(e: Evidence, a: seq<Gap>, b: seq<Gap>, start: int, end: int)
    requires Grouping(e, a, start, end) && Grouping(e, b, start, end) && a != []
    ensures b != [] && a[0] == b[0]
  {
    assert Uniform(e, a[0]) && KindOf(e, a[0].from) != Live;
    FirstDay(e, b, start, end, a[0].from);
    assert Uniform(e, b[0]) && KindOf(e, b[0].from) != Live;
    FirstDay(e, a, start, end, b[0].from);
    FirstEnds(e, a, b, start, end);
    FirstEnds(e, b, a, start, end);
  }

  /** The grouping of a period is unique, so what the loop returns does not depend on how it goes about it. */
  lemma {:induction false} GroupingUnique(e: Evidence, a: seq<Gap>, b: seq<Gap>, start: int, end: int)
    requires Grouping(e, a, start, end) && Grouping(e, b, start, end)
    ensures a == b
    decreases |a|
  {
    hide Grouping;
    if a != [] {
      FirstGapUnique(e, a, b, start, end);
      TailGrouping(e, a, start, end);
      TailGrouping(e, b, start, end);
      GroupingUnique(e, a[1..], b[1..], a[0].to, end);
      assert a == [a[0]] + a[1..] && b == [b[0]] + b[1..];
    } else if b != [] {
      FirstGapUnique(e, b, a, start, end);
    }
  }

  // ----- Durations agree with coverage -----

  function Days(gaps: seq<Gap>, kind: Kind): nat {
    if gaps == [] then 0 else (if gaps[0].kind == kind then gaps[0].duration else 0) + Days(gaps[1..], kind)
  }

  lemma {:induction false} CountSplit(e: Evidence, start: int, mid: int, end: int, kind: Kind)
    requires start <= mid <= end
    ensures Count(e, start, end, kind) == Count(e, start, mid, kind) + Count(e, mid, end, kind)
    decreases end - mid
  {
    if mid < end {
      CountSplit(e, start, mid, end - 1, kind);
    }
  }

  lemma {:induction false} CountUniform(e: Evidence, start: int, end: int, all: Kind, kind: Kind)
    requires start <= end && forall day :: start <= day < end ==> KindOf(e, day) == all
    ensures Count(e, start, end, kind) == if kind == all then end - start else 0
    decreases end - start
  {
    if start < end {
      CountUniform(e, start, end - 1, all, kind);
    }
  }

  lemma BeforeFirstIsLive(e: Evidence, gaps: seq<Gap>, start: int, end: int)
    requires Grouping(e, gaps, start, end)
    ensures forall day :: start <= day < (if gaps == [] then end else gaps[0].from) ==> KindOf(e, day) == Live
  {
  }

  /** The gaps of a kind last as many days as there are days of that kind. */
  lemma {:induction false} DurationsAreCounts(e: Evidence, gaps: seq<Gap>, start: int, end: int, kind: Kind)
    requires Grouping(e, gaps, start, end) && kind != Live && start <= end
    ensures Days(gaps, kind) == Count(e, start, end, kind)
    decreases |gaps|
  {
    BeforeFirstIsLive(e, gaps, start, end);
    if gaps == [] {
      CountUniform(e, start, end, Live, kind);
    } else {
      var g := gaps[0];
      assert Uniform(e, g);
      TailGrouping(e, gaps, start, end);
      DurationsAreCounts(e, gaps[1..], g.to, end, kind);
      CountUniform(e, start, g.from, Live, kind);
      CountUniform(e, g.from, g.to, g.kind, kind);
      CountSplit(e, start, g.from, end, kind);
      CountSplit(e, g.from, g.to, end, kind);
    }
  }

  lemma {:induction false} KindsPartition(e: Evidence, start: int, end: int)
    requires start <= end
    ensures Count(e, start, end, Live) + Count(e, start, end, Recovered) + Count(e, start, end, Partial)
            + Count(e, start, end, Missing) == end - start
    decreases end - start
  {
    if start < end {
      KindsPartition(e, start, end - 1);
    }
  }

  /** The two reports of a period agree: no day is lost or counted twice between them. */
  method GapsAgreeWithCoverage(e: Evidence, start: int, end: int) returns (c: CoverageCounts, gaps: seq<Gap>)
    requires start < end
    ensures Grouping(e, gaps, start, end)
    ensures Days(gaps, Recovered) == c.recovered
    ensures Days(gaps, Partial) + Days(gaps, Missing) == c.missing
    ensures c.realtime + Days(gaps, Recovered) + Days(gaps, Partial) + Days(gaps, Missing) == c.days
  {
    c := Coverage(e, start, end);
    gaps := FindGaps(e, start, end);
    DurationsAreCounts(e, gaps, start, end, Recovered);
    DurationsAreCounts(e, gaps, start, end, Partial);
    DurationsAreCounts(e, gaps, start, end, Missing);
    KindsPartition(e, start, end);
  }
}
