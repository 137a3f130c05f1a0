/** The two folds of intelligence/incidents.py: the health score and the charge-cycle summary. */
module SiteHealth {
  import opened Options
  import opened Text
  import opened Sequences

  // ----- Health score -----

  datatype Active = Active(category: string, severity: string)

  const CATEGORIES: seq<string> := ["production", "charging", "battery", "communications", "data_integrity"]

  function Weight(severity: string): nat {
    if severity == "critical" then 20 else if severity == "warning" then 8 else 2
  }

  function Penalty(incidents: seq<Active>, category: string): nat {
    if incidents == [] then 0
    else
      Penalty(Init(incidents), category)
      + if Last(incidents).category == category then Weight(Last(incidents).severity) else 0
  }

  /** What a category keeps of its 20 points: the total penalty, cut off at the end and not on the way. */
  function Component(incidents: seq<Active>, category: string): (points: int)
    ensures 0 <= points <= 20
  {
    if Penalty(incidents, category) < 20 then 20 - Penalty(incidents, category) else 0
  }

  function Score(incidents: seq<Active>): int {
    Component(incidents, "production") + Component(incidents, "charging") + Component(incidents, "battery")
    + Component(incidents, "communications") + Component(incidents, "data_integrity")
  }

  function Status(score: int): string {
    if score >= 85 then "good" else if score >= 60 then "warning" else "critical"
  }

  /** The loop subtracts and clamps incident by incident. */
  method HealthScore(incidents: seq<Active>) returns (components: map<string, int>, score: int, status: string)
    ensures components.Keys == set c | c in CATEGORIES
    ensures forall c :: c in CATEGORIES ==> components[c] == Component(incidents, c)
    ensures score == Score(incidents) && status == Status(score)
  {
    components := map["production" := 20, "charging" := 20, "battery" := 20, "communications" := 20, "data_integrity" := 20];
    for i := 0 to |incidents|
      invariant components.Keys == set c | c in CATEGORIES
      invariant forall c :: c in CATEGORIES ==> components[c] == Component(incidents[..i], c)
    {
      assert Init(incidents[..i + 1]) == incidents[..i];
      var category := incidents[i].category;
      if category in components {
        var left := components[category] - Weight(incidents[i].severity);
        components := components[category := if left < 0 then 0 else left];
      }
    }
    assert incidents[..|incidents|] == incidents;
    score := components["production"] + components["charging"] + components["battery"]
             + components["communications"] + components["data_integrity"];
    status := Status(score);
  }

  lemma {:induction false} PenaltySplit(a: seq<Active>, b: seq<Active>, category: string)
    ensures Penalty(a + b, category) == Penalty(a, category) + Penalty(b, category)
  {
    if b == [] {
      assert a + b == a;
    } else {
      assert Init(a + b) == a + Init(b);
      PenaltySplit(a, Init(b), category);
    }
  }

  /** The score does not depend on the order in which the store lists the active incidents. */
  lemma {:induction false} ScoreIgnoresOrder(a: seq<Active>, b: seq<Active>)
    requires multiset(a) == multiset(b)
    ensures Score(a) == Score(b)
  {
    forall c
      ensures Penalty(a, c) == Penalty(b, c)
    {
      PenaltyIgnoresOrder(a, b, c);
    }
  }

  lemma {:induction false} PenaltyIgnoresOrder(a: seq<Active>, b: seq<Active>, category: string)
    requires multiset(a) == multiset(b)
    ensures Penalty(a, category) == Penalty(b, category)
    decreases |a|
  {
    assert |a| == |multiset(a)| == |multiset(b)| == |b|;
    if a != [] {
      var x := Last(a);
      assert a == Init(a) + [x];
      assert x in multiset(b);
      var i :| 0 <= i < |b| && b[i] == x;
      var rest := b[..i] + b[i + 1..];
      RemoveOne(b, i);
      assert multiset(Init(a)) == multiset(a) - multiset{x};
      PenaltyIgnoresOrder(Init(a), rest, category);
      PenaltySplit(b[..i], b[i + 1..], category);
      PenaltySplit(b[..i], [x] + b[i + 1..], category);
      PenaltySplit([x], b[i + 1..], category);
      PenaltySplit(Init(a), [x], category);
    }
  }

  lemma RemoveOne(b: seq<Active>, i: nat)
    requires i < |b|
    ensures b == b[..i] + ([b[i]] + b[i + 1..])
    ensures multiset(b[..i] + b[i + 1..]) == multiset(b) - multiset{b[i]}
  {
  }

  /** The score is full exactly when no active incident belongs to a scored category. */
  lemma {:induction false} FullScoreExactly(incidents: seq<Active>)
    ensures Score(incidents) == 100 <==> forall i :: 0 <= i < |incidents| ==> incidents[i].category !in CATEGORIES
  {
    forall c | c in CATEGORIES
      ensures Penalty(incidents, c) == 0 <==> forall i :: 0 <= i < |incidents| ==> incidents[i].category != c
    {
      NoPenaltyExactly(incidents, c);
    }
    assert CATEGORIES[0] == "production" && CATEGORIES[1] == "charging" && CATEGORIES[2] == "battery"
           && CATEGORIES[3] == "communications" && CATEGORIES[4] == "data_integrity";
  }

  lemma {:induction false} NoPenaltyExactly(incidents: seq<Active>, c: string)
    ensures Penalty(incidents, c) == 0 <==> forall i :: 0 <= i < |incidents| ==> incidents[i].category != c
  {
    if incidents != [] {
      NoPenaltyExactly(Init(incidents), c);
      assert forall i :: 0 <= i < |incidents| - 1 ==> incidents[i] == Init(incidents)[i];
      assert incidents[|incidents| - 1] == Last(incidents);
    }
  }

  // ----- Charge cycles -----

  /** A stored charge state and, when it parses, its time in seconds. */
  datatype Reading = Reading(text: string, at: Option<real>)

  function StageOf(r: Reading): string {
    Upper(Strip(r.text))
  }

  /** The non-blank stages in order. */
  function Stages(rows: seq<Reading>): seq<string> {
    if rows == [] then []
    else Stages(Init(rows)) + if StageOf(Last(rows)) != "" then [StageOf(Last(rows))] else []
  }

  /** The time of the last non-blank row, if it parsed. */
  function LastTime(rows: seq<Reading>): Option<real> {
    if rows == [] then None
    else if StageOf(Last(rows)) != "" then Last(rows).at
    else LastTime(Init(rows))
  }

  function Collapse(stages: seq<string>): seq<string> {
    if stages == [] then []
    else
      var before := Collapse(Init(stages));
      if before != [] && Last(before) == Last(stages) then before else before + [Last(stages)]
  }

  function Count(stages: seq<string>, stage: string): nat {
    if stages == [] then 0 else Count(Init(stages), stage) + if Last(stages) == stage then 1 else 0
  }

  /** Time spent in a stage: steps to the next non-blank row, unless time is missing or 15 minutes are exceeded. */
  function TimeIn(rows: seq<Reading>, stage: string): real {
    if rows == [] then 0.0
    else TimeIn(Init(rows), stage) + Step(Init(rows), Last(rows), stage)
  }

  function Step(before: seq<Reading>, row: Reading, stage: string): real {
    if StageOf(row) == "" || Stages(before) == [] || Last(Stages(before)) != stage then 0.0
    else if LastTime(before).None? || row.at.None? then 0.0
    else
      var delta := if row.at.value < LastTime(before).value then 0.0 else row.at.value - LastTime(before).value;
      if delta <= 900.0 then delta else 0.0
  }

  ghost predicate Recorded(durations: map<string, real>, rows: seq<Reading>) {
    forall s :: TimeIn(rows, s) == if s in durations then durations[s] else 0.0
  }

  function LastStage(rows: seq<Reading>): Option<string> {
    if Stages(rows) == [] then None else Some(Last(Stages(rows)))
  }

  method ChargeCycleSummary(rows: seq<Reading>)
    returns (sequence: seq<string>, absorption: nat, floating: nat, durations: map<string, real>)
    ensures sequence == Collapse(Stages(rows))
    ensures absorption == Count(sequence, "ABSORPTION") && floating == Count(sequence, "FLOAT")
    ensures Recorded(durations, rows)
  {
    NothingRead();
    hide *;
    sequence, absorption, floating, durations := [], 0, 0, map[];
    var previous: Option<string> := None;
    var previousAt: Option<real> := None;
    for i := 0 to |rows|
      invariant sequence == Collapse(Stages(rows[..i]))
      invariant absorption == Count(sequence, "ABSORPTION") && floating == Count(sequence, "FLOAT")
      invariant Recorded(durations, rows[..i])
      invariant previous == LastStage(rows[..i]) && previousAt == LastTime(rows[..i])
    {
      var stage := StageOf(rows[i]);
      StageStep(rows[..i], rows[i]);
      durations := Spend(durations, rows[..i], rows[i], previous, previousAt);
      assert rows[..i + 1] == rows[..i] + [rows[i]];
      if stage != "" {
        if previous != Some(stage) {
          CountSnoc(sequence, stage, "ABSORPTION");
          CountSnoc(sequence, stage, "FLOAT");
          sequence := sequence + [stage];
          if stage == "ABSORPTION" {
            absorption := absorption + 1;
          } else if stage == "FLOAT" {
            floating := floating + 1;
          }
        }
        previous := Some(stage);
        previousAt := rows[i].at;
      }
    }
    assert rows[..|rows|] == rows;
  }

  /** The time since the previous non-blank row goes to its stage. */
  method Spend(durations: map<string, real>, ghost before: seq<Reading>, row: Reading,
               previous: Option<string>, previousAt: Option<real>)
    returns (spent: map<string, real>)
    requires Recorded(durations, before) && previous == LastStage(before) && previousAt == LastTime(before)
    ensures Recorded(spent, before + [row])
  {
    assert Init(before + [row]) == before;
    spent := durations;
    if StageOf(row) != "" && previous.Some? && previousAt.Some? && row.at.Some? {
      var delta := if row.at.value < previousAt.value then 0.0 else row.at.value - previousAt.value;
      if delta <= 900.0 {
        spent := durations[previous.value := delta + if previous.value in durations then durations[previous.value] else 0.0];
      }
    }
  }

  lemma NothingRead()
    ensures Collapse(Stages([])) == [] && LastStage([]) == None && LastTime([]) == None
    ensures Recorded(map[], []) && forall s :: Count([], s) == 0
  {
  }

  lemma CountSnoc(stages: seq<string>, stage: string, counted: string)
    ensures Count(stages + [stage], counted) == Count(stages, counted) + if stage == counted then 1 else 0
  {
  }

  lemma CollapseSnoc(stages: seq<string>, stage: string)
    ensures Collapse(stages + [stage])
            == Collapse(stages) + if stages != [] && Last(stages) == stage then [] else [stage]
  {
  }

  lemma StageStep(before: seq<Reading>, row: Reading)
    ensures StageOf(row) == "" ==> Stages(before + [row]) == Stages(before)
    ensures LastStage(before + [row]) == if StageOf(row) == "" then LastStage(before) else Some(StageOf(row))
    ensures LastTime(before + [row]) == if StageOf(row) == "" then LastTime(before) else row.at
    ensures StageOf(row) != "" ==>
      Collapse(Stages(before + [row]))
      == Collapse(Stages(before)) + if LastStage(before) == Some(StageOf(row)) then [] else [StageOf(row)]
  {
    hide StageOf, Collapse;
    assert Init(before + [row]) == before;
    CollapseSnoc(Stages(before), StageOf(row));
  }

  lemma {:induction false} CollapseKeepsEnds(stages: seq<string>)
    ensures stages != [] ==> Collapse(stages) != [] && Last(Collapse(stages)) == Last(stages)
    ensures stages == [] ==> Collapse(stages) == []
  {
  }

  ghost predicate AdjacentDiffer(stages: seq<string>) {
    forall i :: 0 <= i < |stages| - 1 ==> stages[i] != stages[i + 1]
  }

  /** Position `i` begins a run of equal stages. */
  predicate Begins(stages: seq<string>, i: nat)
    requires i < |stages|
  {
    i == 0 || stages[i - 1] != stages[i]
  }

  ghost function Runs(stages: seq<string>, stage: string): nat {
    |set i | 0 <= i < |stages| && stages[i] == stage && Begins(stages, i)|
  }

  /** The collapsed sequence never repeats a stage at once, and counts each stage by its maximal runs. */
  lemma {:induction false} CollapseCountsRuns(stages: seq<string>, stage: string)
    ensures AdjacentDiffer(Collapse(stages))
    ensures Count(Collapse(stages), stage) == Runs(stages, stage)
  {
    if stages != [] {
      CollapseCountsRuns(Init(stages), stage);
      CollapseKeepsEnds(Init(stages));
      RunsSnoc(stages, stage);
      var before := Collapse(Init(stages));
      assert Init(before + [Last(stages)]) == before;
    }
  }

  lemma RunsSnoc(stages: seq<string>, stage: string)
    requires stages != []
    ensures Runs(stages, stage)
            == Runs(Init(stages), stage) + if Last(stages) == stage && Begins(stages, |stages| - 1) then 1 else 0
  {
    var all := set i | 0 <= i < |stages| && stages[i] == stage && Begins(stages, i);
    var part := set i | 0 <= i < |Init(stages)| && Init(stages)[i] == stage && Begins(Init(stages), i);
    var n := |stages| - 1;
    assert forall i :: 0 <= i < n ==> (Begins(Init(stages), i) <==> Begins(stages, i));
    hide Begins;
    assert all == part + if Last(stages) == stage && Begins(stages, n) then {n} else {};
    assert n !in part;
  }

  ghost predicate Unrepeated(stages: seq<string>) {
    forall i, j :: 0 <= i < j < |stages| ==> stages[i] != stages[j]
  }

  ghost function TotalTime(rows: seq<Reading>, stages: seq<string>): real {
    if stages == [] then 0.0 else TotalTime(rows, Init(stages)) + TimeIn(rows, Last(stages))
  }

  lemma {:induction false} NoTime(stages: seq<string>)
    ensures TotalTime([], stages) == 0.0
  {
    if stages != [] {
      NoTime(Init(stages));
    }
  }

  /** A row adds its step to one stage only. */
  lemma {:induction false} TotalStep(rows: seq<Reading>, stages: seq<string>)
    requires rows != [] && Unrepeated(stages)
    ensures
      var before, row := Init(rows), Last(rows);
      var step := if Stages(before) == [] then 0.0 else Step(before, row, Last(Stages(before)));
      TotalTime(rows, stages) == TotalTime(before, stages)
                                 + if Stages(before) != [] && Last(Stages(before)) in stages then step else 0.0
  {
    if stages != [] {
      TotalStep(rows, Init(stages));
      assert stages == Init(stages) + [Last(stages)];
      assert Last(stages) !in Init(stages);
    }
  }

  ghost predicate InOrder(rows: seq<Reading>, start: real) {
    && (forall i :: 0 <= i < |rows| ==> rows[i].at.Some? && start <= rows[i].at.value)
    && (forall i, j :: 0 <= i < j < |rows| ==> rows[i].at.value <= rows[j].at.value)
  }

  lemma {:induction false} LastTimeWithin(rows: seq<Reading>, start: real)
    requires InOrder(rows, start) && Stages(rows) != []
    ensures LastTime(rows).Some? && start <= LastTime(rows).value <= rows[|rows| - 1].at.value
  {
    if StageOf(Last(rows)) == "" {
      LastTimeWithin(Init(rows), start);
      assert rows[|rows| - 2].at.value <= rows[|rows| - 1].at.value;
    }
  }

  /** No time is counted twice: distinct stages share at most the span of the rows. */
  lemma {:induction false} TimeWithinSpan(rows: seq<Reading>, start: real, stages: seq<string>)
    requires InOrder(rows, start) && Unrepeated(stages)
    ensures Stages(rows) == [] ==> TotalTime(rows, stages) == 0.0
    ensures Stages(rows) != [] ==> LastTime(rows).Some? && 0.0 <= TotalTime(rows, stages) <= LastTime(rows).value - start
  {
    if rows == [] {
      NoTime(stages);
    } else {
      TimeWithinSpan(Init(rows), start, stages);
      TotalStep(rows, stages);
      if Stages(rows) != [] {
        LastTimeWithin(rows, start);
      }
      if Stages(Init(rows)) != [] {
        LastTimeWithin(Init(rows), start);
        assert rows[|rows| - 2].at.value <= rows[|rows| - 1].at.value;
      }
    }
  }

  // ----- What the score and the durations are -----

  function Severe(incidents: seq<Active>, category: string, severity: string): nat {
    if incidents == [] then 0
    else
      Severe(Init(incidents), category, severity)
      + if Last(incidents) == Active(category, severity) then 1 else 0
  }

  function Listed(incidents: seq<Active>, category: string): nat {
    if incidents == [] then 0 else Listed(Init(incidents), category) + if Last(incidents).category == category then 1 else 0
  }

  /** A category loses 20 points for a critical incident, 8 for a warning and 2 for any other, but not more than it has. */
  lemma {:induction false} PenaltyByCounts(incidents: seq<Active>, category: string)
    ensures Penalty(incidents, category)
      == 18 * Severe(incidents, category, "critical") + 6 * Severe(incidents, category, "warning") + 2 * Listed(incidents, category)
  {
    if incidents != [] {
      PenaltyByCounts(Init(incidents), category);
    }
  }

  /** What a score means for what was lost, and that one critical incident in a scored category rules out "good". */
  lemma ScoreMeans(incidents: seq<Active>, category: string)
    ensures Status(Score(incidents)) == "good" <==> 100 - Score(incidents) <= 15
    ensures Status(Score(incidents)) == "critical" <==> 100 - Score(incidents) > 40
    ensures category in CATEGORIES && Severe(incidents, category, "critical") > 0 ==>
      Component(incidents, category) == 0 && Status(Score(incidents)) != "good"
  {
    PenaltyByCounts(incidents, category);
    CriticalIsListed(incidents, category);
  }

  lemma {:induction false} CriticalIsListed(incidents: seq<Active>, category: string)
    ensures Severe(incidents, category, "critical") <= Listed(incidents, category)
  {
    if incidents != [] {
      CriticalIsListed(Init(incidents), category);
    }
  }

  /** A stage is the same however its name is written. */
  lemma StageIgnoresCase(text: string, at: Option<real>)
    ensures StageOf(Reading(Lower(text), at)) == StageOf(Reading(text, at))
  {
    UpperStripIgnoresCase(text);
  }

  /** Only rows that name a stage count. */
  function Named(rows: seq<Reading>): seq<Reading> {
    if rows == [] then [] else Named(Init(rows)) + if StageOf(Last(rows)) != "" then [Last(rows)] else []
  }

  /** The time between two rows, unless it is unknown or longer than fifteen minutes. */
  function Stretch(from: Reading, to: Reading): real {
    if from.at.None? || to.at.None? || to.at.value <= from.at.value || to.at.value - from.at.value > 900.0 then 0.0
    else to.at.value - from.at.value
  }

  /** The stretches that begin in the stage, over neighbouring rows. */
  function Stretches(rows: seq<Reading>, stage: string): real {
    if |rows| < 2 then 0.0
    else
      var n := |rows| - 1;
      Stretches(rows[..n], stage) + if StageOf(rows[n - 1]) == stage then Stretch(rows[n - 1], rows[n]) else 0.0
  }

  lemma {:induction false} NamedEnds(rows: seq<Reading>)
    ensures |Stages(rows)| == |Named(rows)|
    ensures Named(rows) != [] ==> Last(Stages(rows)) == StageOf(Last(Named(rows))) && LastTime(rows) == Last(Named(rows)).at
  {
    hide StageOf;
    if rows != [] {
      NamedEnds(Init(rows));
    }
  }

  /** The time in a stage is what passes from each of its rows to the next row that names a stage. */
  lemma {:induction false} TimeInExactly(rows: seq<Reading>, stage: string)
    ensures TimeIn(rows, stage) == Stretches(Named(rows), stage)
  {
    hide StageOf;
    if rows != [] {
      TimeInExactly(Init(rows), stage);
      NamedEnds(Init(rows));
      var before := Named(Init(rows));
      if StageOf(Last(rows)) != "" {
        assert Named(rows) == before + [Last(rows)] && Named(rows)[..|before|] == before;
        assert Stages(Init(rows)) == [] <==> before == [];
      } else {
        assert Named(rows) == before;
      }
    }
  }

  /** A stage that is named by every row, in order and without a long pause, has lasted the whole span. */
  lemma {:induction false} SteadyStage(rows: seq<Reading>, stage: string)
    requires rows != [] && forall i :: 0 <= i < |rows| ==> StageOf(rows[i]) == stage && rows[i].at.Some?
    requires forall i :: 0 <= i < |rows| - 1 ==> 0.0 <= rows[i + 1].at.value - rows[i].at.value <= 900.0
    ensures Stretches(rows, stage) == Last(rows).at.value - rows[0].at.value
  {
    hide StageOf;
    if |rows| > 1 {
      SteadyStage(rows[..|rows| - 1], stage);
    }
  }
}
