/**
 * The detectors of intelligence/incidents.py. A detector that cannot judge stays silent, and only a
 * detector that judged lets the store resolve; wording and evidence of findings are not modelled.
 */
module Detectors {
  import opened Options
  import opened Text
  import opened Incidents
  import opened IncidentRuns
  import opened Sequences

  datatype Detector = Offline | Sense | Efficiency | Fault | Alarm | Polling | Cycling | Coverage | Solar

  datatype Value = Null | Number(n: real) | Flag(b: bool) | Words(text: string)

  type Sample = map<string, Value>

  datatype PollSummary = PollSummary(samples: int, success: real, deadline: real)

  datatype CycleSummary = CycleSummary(samples: int, entries: int)

  datatype DailyEvidence = DailyEvidence(dayCount: int, percent: Option<real>)

  /** What is known of one controller when a scan runs. */
  datatype Reading = Reading(
    controller: string,
    status: string,
    sample: Option<Sample>,
    polling: Option<PollSummary>,
    cycle: CycleSummary,
    coverage: Option<DailyEvidence>)

  datatype Baseline = Baseline(
    ready: bool,
    current: Option<real>,
    median: Option<real>,
    low: Option<real>,
    high: Option<real>,
    days: int)

  datatype Verdict = Silent | Clear | Raised(severity: string, confidence: string, measured: Measured)

  type Wording = (Detector, string) -> (string, string)

  // ----- Keys -----

  function Name(d: Detector): string {
    match d
    case Offline => "controller_offline"
    case Sense => "battery_sense_divergence"
    case Efficiency => "controller_efficiency"
    case Fault => "controller_fault"
    case Alarm => "controller_alarm"
    case Polling => "polling_degradation"
    case Cycling => "charge_stage_cycling"
    case Coverage => "history_coverage"
    case Solar => "solar_underproduction"
  }

  function KeyText(d: Detector, subject: string): string {
    Name(d) + "|" + subject
  }

  lemma NameHasNoBar(d: Detector)
    ensures '|' !in Name(d)
  {
  }

  lemma BarAfterName(d: Detector, subject: string, i: nat)
    requires i < |KeyText(d, subject)| && KeyText(d, subject)[i] == '|'
    ensures |Name(d)| <= i
  {
    hide Name;
    NameHasNoBar(d);
  }

  lemma NamesDiffer(d: Detector, e: Detector)
    requires Name(d) == Name(e)
    ensures d == e
  {
  }

  /** No two detectors, and no two subjects of one detector, share a fingerprint. */
  lemma KeyTextInjective(d: Detector, s: string, e: Detector, t: string)
    requires KeyText(d, s) == KeyText(e, t)
    ensures d == e && s == t
  {
    hide Name;
    var n, m := |Name(d)|, |Name(e)|;
    BarAfterName(d, s, m);
    BarAfterName(e, t, n);
    assert KeyText(d, s)[n] == '|' && KeyText(e, t)[m] == '|';
    assert Name(d) == KeyText(d, s)[..n] && Name(e) == KeyText(e, t)[..m];
    assert s == KeyText(d, s)[n + 1..] && t == KeyText(e, t)[m + 1..];
    NamesDiffer(d, e);
  }

  // ----- The detectors -----

  /** The first of the names that the sample holds, whatever its value. */
  function Register(sample: Sample, names: seq<string>): Option<Value> {
    if names == [] then None
    else if names[0] in sample then Some(sample[names[0]])
    else Register(sample, names[1..])
  }

  function Numeric(sample: Sample, names: seq<string>): Option<real> {
    match Register(sample, names)
    case Some(Number(n)) => Some(n)
    case _ => None
  }

  predicate StateClear(v: Value) {
    match v
    case Null => true
    case Number(n) => n == 0.0
    case Flag(b) => false
    case Words(text) => Lower(Strip(text)) in {"", "0", "0.0", "[]", "{}", "none", "clear", "normal", "ok"}
  }

  function Plain(category: string): Measured {
    Measured(category, None, None, None, None, [])
  }

  function Ranged(category: string, observed: real, low: real, high: real, unit: string): Measured {
    Measured(category, Some(observed), Some(low), Some(high), Some(unit), [])
  }

  function OfflineVerdict(status: string): Verdict {
    if Lower(status) == "online" then Clear else Raised("warning", "high", Plain("communications"))
  }

  function SenseVerdict(sample: Sample): Verdict {
    var sense := Numeric(sample, ["battery_sense_voltage", "battery_remote_sense_voltage"]);
    var terminal := Numeric(sample, ["battery_terminal_voltage", "battery_voltage"]);
    if sense.None? || terminal.None? then Silent
    else
      var delta := if terminal.value < sense.value then sense.value - terminal.value else terminal.value - sense.value;
      if delta < 0.25 then Clear
      else Raised(if delta >= 0.50 then "critical" else "warning", "high", Ranged("battery", delta, 0.0, 0.25, "V"))
  }

  function EfficiencyVerdict(sample: Sample): Verdict {
    var input := Numeric(sample, ["input_power", "array_power", "pv_power", "input_power_reported"]);
    var output := Numeric(sample, ["output_power", "charge_power", "battery_charge_power"]);
    if input.None? || output.None? || input.value < 100.0 then Silent
    else
      var efficiency := output.value / input.value;
      if efficiency >= 0.80 then Clear
      else Raised(if efficiency < 0.60 then "critical" else "warning", "medium",
                  Ranged("production", efficiency * 100.0, 80.0, 100.0, "%"))
  }

  function StatusVerdict(sample: Sample, names: seq<string>, severity: string): Verdict {
    match Register(sample, names)
    case None => Silent
    case Some(v) => if StateClear(v) then Clear else Raised(severity, "high", Plain("communications"))
  }

  function PollingVerdict(summary: Option<PollSummary>): Verdict {
    if summary.None? || summary.value.samples < 20 then Silent
    else if summary.value.success >= 0.95 && summary.value.deadline <= 0.10 then Clear
    else Raised(if summary.value.success < 0.80 then "critical" else "warning", "high",
                Ranged("communications", summary.value.success * 100.0, 95.0, 100.0, "%"))
  }

  function CyclingVerdict(cycle: CycleSummary): Verdict {
    if cycle.samples < 3 then Silent
    else if cycle.entries < 6 then Clear
    else Raised(if cycle.entries >= 10 then "critical" else "warning", "high",
                Ranged("charging", cycle.entries as real, 0.0, 5.0, "entries/24h"))
  }

  function CoverageVerdict(coverage: Option<DailyEvidence>): Verdict {
    if coverage.None? || coverage.value.dayCount < 3 || coverage.value.percent.None? then Silent
    else if coverage.value.percent.value >= 80.0 then Clear
    else Raised("warning", "high", Ranged("data_integrity", coverage.value.percent.value, 80.0, 100.0, "%"))
  }

  function Min(a: real, b: real): real {
    if a < b then a else b
  }

  /** A low percentile of zero counts as none. */
  function SolarTrigger(median: real, low: Option<real>): real {
    Min(median * 0.60, (if low.Some? && low.value != 0.0 then low.value else median) * 0.75)
  }

  function SolarVerdict(b: Baseline): Verdict {
    if !b.ready then Silent
    else if b.current.None? || b.median.None? || b.median.value < 100.0 then Clear
    else if b.current.value >= SolarTrigger(b.median.value, b.low) then Clear
    else Raised(if b.current.value < b.median.value * 0.25 then "critical" else "warning",
                if b.days >= 5 then "high" else "medium",
                Measured("production", b.current, b.low, b.high, Some("W"), []))
  }

  function Judge(d: Detector, r: Reading): Verdict {
    if d == Offline then OfflineVerdict(r.status)
    else if r.sample.None? then Silent
    else
      match d
      case Sense => SenseVerdict(r.sample.value)
      case Efficiency => EfficiencyVerdict(r.sample.value)
      case Fault => StatusVerdict(r.sample.value, ["faults", "fault_state"], "critical")
      case Alarm => StatusVerdict(r.sample.value, ["alarms", "alarm_state"], "warning")
      case Polling => PollingVerdict(r.polling)
      case Cycling => CyclingVerdict(r.cycle)
      case Coverage => CoverageVerdict(r.coverage)
      case _ => Silent
  }

  /** How bad a verdict is; a silent one is not comparable. */
  function Grade(v: Verdict): int {
    match v
    case Silent => -1
    case Clear => 0
    case Raised(severity, _, _) => if severity == "critical" then 2 else 1
  }

  /** A worse reading never earns a milder verdict. */
  lemma VerdictsAreMonotone(p: PollSummary, p': PollSummary, b: Baseline, current: real, c: CycleSummary, entries: int)
    requires 20 <= p.samples == p'.samples && p'.success <= p.success && p.deadline <= p'.deadline
    requires b.ready && b.current.Some? && current <= b.current.value
    requires 3 <= c.samples && c.entries <= entries
    ensures 0 <= Grade(PollingVerdict(Some(p))) <= Grade(PollingVerdict(Some(p')))
    ensures 0 <= Grade(SolarVerdict(b)) <= Grade(SolarVerdict(b.(current := Some(current))))
    ensures 0 <= Grade(CyclingVerdict(c)) <= Grade(CyclingVerdict(c.(entries := entries)))
  {
  }

  /** The same for the readings of a sample: a lower efficiency, a wider voltage difference, less coverage. */
  lemma SampleVerdictsAreMonotone(input: real, output: real, less: real, sense: real, terminal: real, wider: real,
                                  days: int, percent: real, lower: real)
    requires input >= 100.0 && less <= output && sense <= terminal <= wider && days >= 3 && lower <= percent
    ensures 0 <= Grade(EfficiencyVerdict(map["input_power" := Number(input), "output_power" := Number(output)]))
              <= Grade(EfficiencyVerdict(map["input_power" := Number(input), "output_power" := Number(less)]))
    ensures 0 <= Grade(SenseVerdict(map["battery_sense_voltage" := Number(sense), "battery_terminal_voltage" := Number(terminal)]))
              <= Grade(SenseVerdict(map["battery_sense_voltage" := Number(sense), "battery_terminal_voltage" := Number(wider)]))
    ensures 0 <= Grade(CoverageVerdict(Some(DailyEvidence(days, Some(percent)))))
              <= Grade(CoverageVerdict(Some(DailyEvidence(days, Some(lower)))))
  {
    assert less / input <= output / input by {
      RatioMonotone(less, output, input);
    }
  }

  lemma RatioMonotone(a: real, b: real, n: real)
    requires a <= b && n > 0.0
    ensures a / n <= b / n
  {
  }

  /** The sense detector measures a distance: exchanging the two voltages changes nothing. */
  lemma SenseIsSymmetric(sense: real, terminal: real)
    ensures SenseVerdict(map["battery_sense_voltage" := Number(sense), "battery_terminal_voltage" := Number(terminal)])
            == SenseVerdict(map["battery_sense_voltage" := Number(terminal), "battery_terminal_voltage" := Number(sense)])
  {
  }

  // ----- The scan -----

  const PER_CONTROLLER: seq<Detector> := [Offline, Sense, Efficiency, Fault, Alarm, Polling, Cycling, Coverage]

  /** Detector, subject and verdict: one judgement of a scan. */
  datatype Judgement = Judgement(d: Detector, subject: string, verdict: Verdict)

  function Judgements(r: Reading): (js: seq<Judgement>)
    ensures |js| == 8
  {
    seq(8, i requires 0 <= i < 8 => Judgement(PER_CONTROLLER[i], r.controller, Judge(PER_CONTROLLER[i], r)))
  }

  function AllJudgements(readings: seq<Reading>): seq<Judgement> {
    if readings == [] then [] else AllJudgements(Init(readings)) + Judgements(Last(readings))
  }

  function ScanJudgements(system: string, readings: seq<Reading>, baseline: Baseline): seq<Judgement> {
    AllJudgements(readings) + [Judgement(Solar, system, SolarVerdict(baseline))]
  }

  function FindingOf(j: Judgement, words: Wording): Finding
    requires j.verdict.Raised?
  {
    var key := KeyText(j.d, j.subject);
    var (title, summary) := words(j.d, j.subject);
    Finding(Name(j.d), key, key, if j.d == Solar then None else Some(j.subject),
            Shown(j.verdict.severity, j.verdict.confidence, title, summary), j.verdict.measured)
  }

  function FindingsOf(js: seq<Judgement>, words: Wording): seq<Finding> {
    if js == [] then []
    else FindingsOf(Init(js), words) + if Last(js).verdict.Raised? then [FindingOf(Last(js), words)] else []
  }

  function EvaluatedOf(js: seq<Judgement>): set<string> {
    set i | 0 <= i < |js| && !js[i].verdict.Silent? :: KeyText(js[i].d, js[i].subject)
  }

  lemma EvaluatedSplit(a: seq<Judgement>, b: seq<Judgement>)
    ensures EvaluatedOf(a + b) == EvaluatedOf(a) + EvaluatedOf(b)
  {
    var all := a + b;
    forall k | k in EvaluatedOf(a)
      ensures k in EvaluatedOf(all)
    {
      var i :| 0 <= i < |a| && !a[i].verdict.Silent? && k == KeyText(a[i].d, a[i].subject);
      assert all[i] == a[i];
    }
    forall k | k in EvaluatedOf(b)
      ensures k in EvaluatedOf(all)
    {
      var i :| 0 <= i < |b| && !b[i].verdict.Silent? && k == KeyText(b[i].d, b[i].subject);
      assert all[|a| + i] == b[i];
    }
  }

  lemma {:induction false} FindingsSplit(a: seq<Judgement>, b: seq<Judgement>, words: Wording)
    ensures FindingsOf(a + b, words) == FindingsOf(a, words) + FindingsOf(b, words)
  {
    hide FindingOf;
    if b == [] {
      assert a + b == a;
    } else {
      assert Init(a + b) == a + Init(b);
      FindingsSplit(a, Init(b), words);
    }
  }

  /** One more judgement extends the findings and the evaluated keys. */
  method Add(j: Judgement, words: Wording, ghost js: seq<Judgement>, findings: seq<Finding>, evaluated: set<string>)
    returns (findings': seq<Finding>, evaluated': set<string>)
    requires findings == FindingsOf(js, words) && evaluated == EvaluatedOf(js)
    ensures findings' == FindingsOf(js + [j], words) && evaluated' == EvaluatedOf(js + [j])
  {
    EvaluatedSplit(js, [j]);
    assert EvaluatedOf([j]) == if j.verdict.Silent? then {} else {KeyText(j.d, j.subject)} by {
      assert [j][0] == j;
    }
    assert Init(js + [j]) == js;
    findings' := if j.verdict.Raised? then findings + [FindingOf(j, words)] else findings;
    evaluated' := if j.verdict.Silent? then evaluated else evaluated + {KeyText(j.d, j.subject)};
  }

  /** Without a sample only the offline detector judges. */
  /** Without a sample the seven other judgements add nothing. */
  lemma SilentRest(r: Reading, words: Wording)
    requires r.sample.None?
    ensures FindingsOf(Judgements(r)[..1], words) == FindingsOf(Judgements(r), words)
    ensures EvaluatedOf(Judgements(r)[..1]) == EvaluatedOf(Judgements(r))
  {
    var first, rest := Judgements(r)[..1], Judgements(r)[1..];
    forall i | 0 <= i < |rest|
      ensures rest[i].verdict.Silent?
    {
      assert rest[i] == Judgements(r)[i + 1] && PER_CONTROLLER[i + 1] != Offline;
    }
    hide Judge, Judgements, FindingsOf, EvaluatedOf;
    assert Judgements(r) == first + rest;
    EvaluatedSplit(first, rest);
    FindingsSplit(first, rest, words);
    AllSilent(rest, words);
  }

  lemma JudgementAt(r: Reading, i: nat)
    requires i < 8
    ensures Judgements(r)[i] == Judgement(PER_CONTROLLER[i], r.controller, Judge(PER_CONTROLLER[i], r))
    ensures Judgements(r)[..i + 1] == Judgements(r)[..i] + [Judgements(r)[i]]
  {
    hide Judge;
  }

  method EvaluateController(r: Reading, words: Wording) returns (findings: seq<Finding>, evaluated: set<string>)
    ensures findings == FindingsOf(Judgements(r), words) && evaluated == EvaluatedOf(Judgements(r))
  {
    hide Judge, Judgements;
    ghost var js: seq<Judgement> := [];
    findings, evaluated := [], {};
    var n := if r.sample.None? then 1 else 8;
    for i := 0 to n
      invariant js == Judgements(r)[..i]
      invariant findings == FindingsOf(js, words) && evaluated == EvaluatedOf(js)
    {
      hide FindingsOf, EvaluatedOf;
      JudgementAt(r, i);
      var d := PER_CONTROLLER[i];
      findings, evaluated := Add(Judgement(d, r.controller, Judge(d, r)), words, js, findings, evaluated);
      js := js + [Judgement(d, r.controller, Judge(d, r))];
    }
    if r.sample.None? {
      SilentRest(r, words);
    } else {
      assert Judgements(r)[..8] == Judgements(r);
    }
  }

  lemma {:induction false} AllSilent(js: seq<Judgement>, words: Wording)
    requires forall i :: 0 <= i < |js| ==> js[i].verdict.Silent?
    ensures FindingsOf(js, words) == [] && EvaluatedOf(js) == {}
  {
    if js != [] {
      AllSilent(Init(js), words);
    }
  }

  method Evaluate(system: string, readings: seq<Reading>, baseline: Baseline, words: Wording, at: int) returns (scan: Scan)
    ensures scan == ScanOf(system, readings, baseline, words, at)
  {
    var findings: seq<Finding>, evaluated: set<string> := [], {};
    for i := 0 to |readings|
      invariant findings == FindingsOf(AllJudgements(readings[..i]), words)
      invariant evaluated == EvaluatedOf(AllJudgements(readings[..i]))
    {
      var detected, keys := EvaluateController(readings[i], words);
      assert Init(readings[..i + 1]) == readings[..i];
      EvaluatedSplit(AllJudgements(readings[..i]), Judgements(readings[i]));
      FindingsSplit(AllJudgements(readings[..i]), Judgements(readings[i]), words);
      findings, evaluated := findings + detected, evaluated + keys;
    }
    assert readings[..|readings|] == readings;
    findings, evaluated :=
      Add(Judgement(Solar, system, SolarVerdict(baseline)), words, AllJudgements(readings), findings, evaluated);
    return Scan(system, findings, evaluated, at);
  }

  function ScanOf(system: string, readings: seq<Reading>, baseline: Baseline, words: Wording, at: int): Scan {
    var js := ScanJudgements(system, readings, baseline);
    Scan(system, FindingsOf(js, words), EvaluatedOf(js), at)
  }

  // ----- What a scan means -----

  ghost predicate DistinctControllers(readings: seq<Reading>) {
    forall i, j :: 0 <= i < j < |readings| ==> readings[i].controller != readings[j].controller
  }

  ghost predicate DistinctJudgements(js: seq<Judgement>) {
    forall i, j :: 0 <= i < j < |js| ==> js[i].d != js[j].d || js[i].subject != js[j].subject
  }

  lemma {:induction false} JudgedBy(readings: seq<Reading>, i: nat)
    requires i < |AllJudgements(readings)|
    ensures i / 8 < |readings|
    ensures AllJudgements(readings)[i] == Judgements(readings[i / 8])[i % 8]
    ensures |AllJudgements(readings)| == 8 * |readings|
  {
    AllJudgementsLength(readings);
    AllJudgementsLength(Init(readings));
    if i < |AllJudgements(Init(readings))| {
      JudgedBy(Init(readings), i);
    } else {
      assert i - 8 * |Init(readings)| == i % 8 && i / 8 == |readings| - 1;
    }
  }

  lemma {:induction false} AllJudgementsLength(readings: seq<Reading>)
    ensures |AllJudgements(readings)| == 8 * |readings|
  {
    if readings != [] {
      AllJudgementsLength(Init(readings));
    }
  }

  lemma DetectorsDiffer(i: nat, j: nat)
    requires i < j < 8
    ensures PER_CONTROLLER[i] != PER_CONTROLLER[j] && PER_CONTROLLER[i] != Solar && PER_CONTROLLER[j] != Solar
  {
  }

  lemma ScanJudgementsDistinct(system: string, readings: seq<Reading>, baseline: Baseline)
    requires DistinctControllers(readings)
    ensures DistinctJudgements(ScanJudgements(system, readings, baseline))
  {
    var all, js := AllJudgements(readings), ScanJudgements(system, readings, baseline);
    forall i, j | 0 <= i < j < |js|
      ensures js[i].d != js[j].d || js[i].subject != js[j].subject
    {
      JudgedBy(readings, i);
      if j < |all| {
        JudgedBy(readings, j);
        if i / 8 == j / 8 {
          DetectorsDiffer(i % 8, j % 8);
        }
      } else {
        assert js[i] == all[i] && PER_CONTROLLER[i % 8] != Solar;
      }
    }
  }

  /** Findings come from judgements that raised, and in their order. */
  lemma {:induction false} FindingFrom(js: seq<Judgement>, words: Wording, k: nat) returns (i: nat)
    requires k < |FindingsOf(js, words)|
    ensures i < |js| && js[i].verdict.Raised? && FindingsOf(js, words)[k] == FindingOf(js[i], words)
  {
    if k < |FindingsOf(Init(js), words)| {
      i := FindingFrom(Init(js), words, k);
    } else {
      i := |js| - 1;
    }
  }

  lemma {:induction false} RaisedIsFound(js: seq<Judgement>, words: Wording, i: nat)
    requires i < |js| && js[i].verdict.Raised?
    ensures Mentions(FindingsOf(js, words), KeyText(js[i].d, js[i].subject))
  {
    var before := FindingsOf(Init(js), words);
    if i < |js| - 1 {
      RaisedIsFound(Init(js), words, i);
      if Last(js).verdict.Raised? {
        MentionsSnoc(before, FindingOf(Last(js), words), KeyText(js[i].d, js[i].subject));
      } else {
        assert FindingsOf(js, words) == before;
      }
    } else {
      MentionsSnoc(before, FindingOf(Last(js), words), KeyText(js[i].d, js[i].subject));
    }
  }

  lemma {:induction false} FindingsDistinct(js: seq<Judgement>, words: Wording)
    requires DistinctJudgements(js)
    ensures Distinct(FindingsOf(js, words))
  {
    if js != [] {
      FindingsDistinct(Init(js), words);
      var before := FindingsOf(Init(js), words);
      forall k | 0 <= k < |before| && Last(js).verdict.Raised?
        ensures before[k].fingerprint != KeyText(Last(js).d, Last(js).subject)
      {
        var i := FindingFrom(Init(js), words, k);
        assert js[i] == Init(js)[i];
        if before[k].fingerprint == KeyText(Last(js).d, Last(js).subject) {
          KeyTextInjective(js[i].d, js[i].subject, js[|js| - 1].d, js[|js| - 1].subject);
        }
      }
    }
  }

  /** A scan never repeats a fingerprint, so only an incident active in another system can get it refused. */
  lemma ScanRefusedExactly(rows: seq<Incident>, system: string, readings: seq<Reading>, baseline: Baseline, words: Wording, at: int)
    requires DistinctControllers(readings)
    ensures Distinct(ScanOf(system, readings, baseline, words, at).findings)
    ensures
      var scan := ScanOf(system, readings, baseline, words, at);
      Accepted(rows, system, scan.findings) <==>
        forall j :: 0 <= j < |scan.findings| && ActiveSomewhere(rows, scan.findings[j].fingerprint) ==>
          Find(rows, system, scan.findings[j].fingerprint).Some?
  {
    var scan := ScanOf(system, readings, baseline, words, at);
    ScanJudgementsDistinct(system, readings, baseline);
    FindingsDistinct(ScanJudgements(system, readings, baseline), words);
    forall j | 0 <= j < |scan.findings|
      ensures !Mentions(scan.findings[..j], scan.findings[j].fingerprint)
    {
    }
  }

  /** What a scan says of a detector and a subject; it is silent on controllers it does not read. */
  ghost function VerdictOn(js: seq<Judgement>, d: Detector, subject: string): Verdict {
    if exists i :: 0 <= i < |js| && js[i].d == d && js[i].subject == subject then
      var i :| 0 <= i < |js| && js[i].d == d && js[i].subject == subject;
      js[i].verdict
    else Silent
  }

  ghost predicate KeysMatch(rows: seq<Incident>) {
    forall i :: 0 <= i < |rows| ==> rows[i].finding.key == rows[i].finding.fingerprint
  }

  lemma MentionedExactly(js: seq<Judgement>, words: Wording, d: Detector, subject: string)
    requires DistinctJudgements(js)
    ensures Mentions(FindingsOf(js, words), KeyText(d, subject)) <==> VerdictOn(js, d, subject).Raised?
  {
    var findings := FindingsOf(js, words);
    if Mentions(findings, KeyText(d, subject)) {
      var k :| 0 <= k < |findings| && findings[k].fingerprint == KeyText(d, subject);
      var i := FindingFrom(js, words, k);
      KeyTextInjective(js[i].d, js[i].subject, d, subject);
    } else if VerdictOn(js, d, subject).Raised? {
      var i :| 0 <= i < |js| && js[i].d == d && js[i].subject == subject;
      RaisedIsFound(js, words, i);
    }
  }

  lemma EvaluatedExactly(js: seq<Judgement>, d: Detector, subject: string)
    requires DistinctJudgements(js)
    ensures KeyText(d, subject) in EvaluatedOf(js) <==> !VerdictOn(js, d, subject).Silent?
  {
    hide KeyText, Name;
    if KeyText(d, subject) in EvaluatedOf(js) {
      var i :| 0 <= i < |js| && !js[i].verdict.Silent? && KeyText(d, subject) == KeyText(js[i].d, js[i].subject);
      KeyTextInjective(js[i].d, js[i].subject, d, subject);
    }
  }

  /** After a scan an incident is active exactly when it was raised, or was active and nothing judged it. */
  lemma VerdictsDecideLive(rows: seq<Incident>, system: string, readings: seq<Reading>, baseline: Baseline, words: Wording,
                           at: int, d: Detector, subject: string)
    requires UniqueActive(rows) && KeysMatch(rows) && DistinctControllers(readings)
    ensures
      var scan := ScanOf(system, readings, baseline, words, at);
      (system, KeyText(d, subject)) in Live(Final(rows, scan)) <==>
        match VerdictOn(ScanJudgements(system, readings, baseline), d, subject)
        case Raised(_, _, _) => true
        case Clear => false
        case Silent => (system, KeyText(d, subject)) in Live(rows)
  {
    var js := ScanJudgements(system, readings, baseline);
    var scan, p := ScanOf(system, readings, baseline, words, at), (system, KeyText(d, subject));
    ScanDecidesLive(rows, scan);
    ScanJudgementsDistinct(system, readings, baseline);
    MentionedExactly(js, words, d, subject);
    EvaluatedExactly(js, d, subject);
    EndedExactly(rows, scan, p);
    ReportedExactly(scan, p.1);
  }

  lemma ReportedExactly(scan: Scan, fingerprint: string)
    ensures (scan.system, fingerprint) in Reported(scan) <==> Mentions(scan.findings, fingerprint)
  {
  }

  lemma EndedExactly(rows: seq<Incident>, scan: Scan, p: (string, string))
    requires UniqueActive(rows) && KeysMatch(rows) && p.0 == scan.system
    ensures p in Ended(rows, scan) <==> p in Live(rows) && !Mentions(scan.findings, p.1) && p.1 in scan.evaluated
  {
  }

  /** Scans by the detectors keep every incident's key equal to its fingerprint. */
  lemma ScanKeepsKeysMatch(rows: seq<Incident>, system: string, readings: seq<Reading>, baseline: Baseline, words: Wording, at: int)
    requires KeysMatch(rows)
    ensures KeysMatch(Final(rows, ScanOf(system, readings, baseline, words, at)))
  {
    var scan := ScanOf(system, readings, baseline, words, at);
    var final := Final(rows, scan);
    forall i | 0 <= i < |final|
      ensures final[i].finding.key == final[i].finding.fingerprint
    {
      if i >= |rows| {
        AddedFrom(rows, scan.system, scan.findings, scan.at, i - |rows|);
        var j :| 0 <= j < |scan.findings| && final[i] == New(scan.system, scan.findings[j], scan.at);
        var k := FindingFrom(ScanJudgements(system, readings, baseline), words, j);
      }
    }
  }

  /** Every row of a first scan from the empty store belongs to the scan's system. */
  lemma FirstScanRows(scan: Scan, i: nat)
    requires i < |Final([], scan)|
    ensures Final([], scan)[i].system == scan.system
  {
    AddedFrom([], scan.system, scan.findings, scan.at, i);
  }

  /** An offline controller that two systems share: the first system's scan is applied, the second's refused. */
  lemma SharedControllerBlocks(a: string, b: string, r: Reading, baseline: Baseline, words: Wording)
    requires a != b && Judge(Offline, r).Raised?
    ensures
      var first, second := ScanOf(a, [r], baseline, words, 0), ScanOf(b, [r], baseline, words, 1);
      && Rows([first]) == Final([], first)
      && !Accepted(Rows([first]), b, second.findings)
      && Rows([first, second]) == Rows([first])
  {
    hide Judge, KeyText, FindingsOf, EvaluatedOf;
    var first, second := ScanOf(a, [r], baseline, words, 0), ScanOf(b, [r], baseline, words, 1);
    var key := KeyText(Offline, r.controller);
    OfflineIsReported(a, r, baseline, words, 0);
    OfflineIsReported(b, r, baseline, words, 1);
    ScanRefusedExactly([], a, [r], baseline, words, 0);
    assert Init([first]) == [] && Init([first, second]) == [first];
    assert Accepted([], a, first.findings);
    var j :| 0 <= j < |first.findings| && first.findings[j].fingerprint == key;
    ReportedIsLive([], first, j);
    assert (a, key) in Live(Rows([first]));
    LiveIsActive(Rows([first]), (a, key));
    forall k | 0 <= k < |Rows([first])|
      ensures Rows([first])[k].system == a
    {
      FirstScanRows(first, k);
    }
    assert Find(Rows([first]), b, key).None?;
  }

  lemma LiveIsActive(rows: seq<Incident>, p: (string, string))
    requires p in Live(rows)
    ensures ActiveSomewhere(rows, p.1)
  {
  }

  lemma OfflineIsReported(system: string, r: Reading, baseline: Baseline, words: Wording, at: int)
    requires Judge(Offline, r).Raised?
    ensures Mentions(ScanOf(system, [r], baseline, words, at).findings, KeyText(Offline, r.controller))
  {
    hide Judge, KeyText, FindingsOf, SolarVerdict;
    var js := ScanJudgements(system, [r], baseline);
    assert Init([r]) == [] && Last([r]) == r;
    assert AllJudgements([r]) == [] + Judgements(r);
    assert js[0] == Judgements(r)[0] && js[0].d == PER_CONTROLLER[0];
    RaisedIsFound(js, words, 0);
  }
}
