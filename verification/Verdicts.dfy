/** What the detectors' verdicts depend on, who is judged in a scan, and what an active incident shows of its verdict. */
module Verdicts {
  import opened Options
  import opened Text
  import opened Incidents
  import opened IncidentRuns
  import opened IncidentRows
  import opened Detectors
  import opened Sequences

  // ----- The marks at which verdicts change -----

  /** A register is looked up under the first of its names that the sample has. */
  lemma {:induction false} FirstNameCounts(sample: Detectors.Sample, names: seq<string>, k: nat)
    requires k < |names| && names[k] in sample && forall j :: 0 <= j < k ==> names[j] !in sample
    ensures Register(sample, names) == Some(sample[names[k]])
  {
    if k > 0 {
      FirstNameCounts(sample, names[1..], k - 1);
    }
  }

  /** Without a sample only the offline detector judges, and it always does. */
  lemma OfflineAlwaysJudges(d: Detector, r: Detectors.Reading)
    ensures Judge(Offline, r) == Clear <==> Lower(r.status) == "online"
    ensures Judge(Offline, r) != Clear ==> Grade(Judge(Offline, r)) == 1
    ensures d != Offline && r.sample.None? ==> Judge(d, r) == Silent
  {
    hide Lower;
  }

  /** The verdict names its category and the value that was measured. */
  predicate Measures(v: Verdict, category: string, value: real) {
    v.Raised? && v.measured.category == category && v.measured.observed == Some(value)
  }

  /** From which measured value on a detector warns, and from which it calls the state critical. */
  lemma MarksOfSamples(sample: Detectors.Sample, a: real, b: real)
    ensures Numeric(sample, ["battery_sense_voltage", "battery_remote_sense_voltage"]) == Some(a)
            && Numeric(sample, ["battery_terminal_voltage", "battery_voltage"]) == Some(b) ==>
      && (Grade(SenseVerdict(sample)) >= 1 <==> b - a >= 0.25 || a - b >= 0.25)
      && (Grade(SenseVerdict(sample)) == 2 <==> b - a >= 0.50 || a - b >= 0.50)
      && (SenseVerdict(sample).Raised? ==> Measures(SenseVerdict(sample), "battery", if a < b then b - a else a - b))
    ensures Numeric(sample, ["input_power", "array_power", "pv_power", "input_power_reported"]) == Some(a)
            && Numeric(sample, ["output_power", "charge_power", "battery_charge_power"]) == Some(b) && a >= 100.0 ==>
      && (Grade(EfficiencyVerdict(sample)) >= 1 <==> 100.0 * b < 80.0 * a)
      && (Grade(EfficiencyVerdict(sample)) == 2 <==> 100.0 * b < 60.0 * a)
      && (EfficiencyVerdict(sample).Raised? ==> Measures(EfficiencyVerdict(sample), "production", b / a * 100.0))
  {
    hide Numeric;
    if a >= 100.0 {
      RatioBelow(b, a, 0.80);
      RatioBelow(b, a, 0.60);
    }
  }

  lemma RatioBelow(b: real, a: real, mark: real)
    requires a > 0.0
    ensures b / a < mark <==> b < mark * a
  {
    var q := b / a;
    assert q * a == b;
    if q < mark {
      assert (mark - q) * a > 0.0;
    } else {
      assert (q - mark) * a >= 0.0;
    }
  }

  lemma MarksOfSummaries(p: PollSummary, c: CycleSummary, e: DailyEvidence, percent: real)
    ensures p.samples >= 20 ==>
      && (Grade(PollingVerdict(Some(p))) >= 1 <==> p.success < 0.95 || p.deadline > 0.10)
      && (Grade(PollingVerdict(Some(p))) == 2 <==> p.success < 0.80)
      && (PollingVerdict(Some(p)).Raised? ==> Measures(PollingVerdict(Some(p)), "communications", p.success * 100.0))
    ensures p.samples < 20 ==> PollingVerdict(Some(p)) == Silent
    ensures c.samples >= 3 ==>
      && (Grade(CyclingVerdict(c)) >= 1 <==> c.entries >= 6) && (Grade(CyclingVerdict(c)) == 2 <==> c.entries >= 10)
      && (CyclingVerdict(c).Raised? ==> Measures(CyclingVerdict(c), "charging", c.entries as real))
    ensures c.samples < 3 ==> CyclingVerdict(c) == Silent
    ensures e.dayCount >= 3 && e.percent == Some(percent) ==>
      Grade(CoverageVerdict(Some(e))) == (if percent < 80.0 then 1 else 0)
      && (CoverageVerdict(Some(e)).Raised? ==> Measures(CoverageVerdict(Some(e)), "data_integrity", percent))
    ensures e.dayCount < 3 || e.percent.None? ==> CoverageVerdict(Some(e)) == Silent
  {
  }

  /** A reported fault state is critical, an alarm state a warning, unless it says that there is none; a missing one is not judged. */
  lemma MarksOfStates(r: Detectors.Reading, fault: Option<Value>, alarm: Option<Value>)
    requires r.sample.Some?
    requires fault == Register(r.sample.value, ["faults", "fault_state"])
    requires alarm == Register(r.sample.value, ["alarms", "alarm_state"])
    ensures Grade(Judge(Fault, r)) == if fault.None? then -1 else if StateClear(fault.value) then 0 else 2
    ensures Grade(Judge(Alarm, r)) == if alarm.None? then -1 else if StateClear(alarm.value) then 0 else 1
  {
    hide Register, StateClear;
  }

  /** What says that there is none: nothing, zero, or one of nine words in any case and with any space around it. */
  lemma ClearStates(n: real, b: bool, word: string)
    ensures StateClear(Null) && !StateClear(Flag(b)) && (StateClear(Number(n)) <==> n == 0.0)
    ensures word in ["", "0", "0.0", "[]", "{}", "none", "clear", "normal", "ok"] && Lower(Strip(word)) == word ==> StateClear(Words(word))
    ensures StateClear(Words(word)) ==> Lower(Strip(word)) in ["", "0", "0.0", "[]", "{}", "none", "clear", "normal", "ok"]
    ensures StateClear(Words(Lower(Strip(word)))) && Lower(Strip(Lower(Strip(word)))) == Lower(Strip(word)) ==> StateClear(Words(word))
  {
    hide Lower, Strip;
  }

  lemma MarksOfSolar(b: Baseline, current: real, median: real)
    requires b.ready && b.current == Some(current) && b.median == Some(median) && median >= 100.0
    ensures Grade(SolarVerdict(b)) >= 1 <==>
      && 100.0 * current < 60.0 * median
      && 100.0 * current < 75.0 * (if b.low.None? || b.low == Some(0.0) then median else b.low.value)
    ensures Grade(SolarVerdict(b)) == 2 <==> Grade(SolarVerdict(b)) >= 1 && 100.0 * current < 25.0 * median
    ensures SolarVerdict(b).Raised? ==>
      SolarVerdict(b).measured.observed == b.current && (SolarVerdict(b).confidence == "high" <==> b.days >= 5)
  {
  }

  // ----- Who is judged -----

  /** In a scan every controller is judged by its own readings, the site by the solar baseline, and nothing else. */
  lemma VerdictOnExactly(system: string, readings: seq<Detectors.Reading>, baseline: Baseline, d: Detector, subject: string)
    requires DistinctControllers(readings)
    ensures var v := VerdictOn(ScanJudgements(system, readings, baseline), d, subject);
      && (d == Solar ==> v == if subject == system then SolarVerdict(baseline) else Silent)
      && (d != Solar ==>
            && (forall i :: 0 <= i < |readings| && readings[i].controller == subject ==> v == Judge(d, readings[i]))
            && ((forall i :: 0 <= i < |readings| ==> readings[i].controller != subject) ==> v == Silent))
  {
    var js := ScanJudgements(system, readings, baseline);
    ScanJudgementsDistinct(system, readings, baseline);
    hide SolarVerdict, Judge, ScanJudgements;
    if d == Solar {
      SolarJudgement(system, readings, baseline);
      if subject == system {
        OnlyVerdict(js, d, subject, |js| - 1);
      } else {
        NotJudged(system, readings, baseline, d, subject);
      }
    } else {
      forall i | 0 <= i < |readings| && readings[i].controller == subject
        ensures VerdictOn(js, d, subject) == Judge(d, readings[i])
      {
        var k := ReadingJudged(system, readings, baseline, d, i);
        OnlyVerdict(js, d, subject, k);
      }
      if forall i :: 0 <= i < |readings| ==> readings[i].controller != subject {
        NotJudged(system, readings, baseline, d, subject);
      }
    }
  }

  lemma OnlyVerdict(js: seq<Judgement>, d: Detector, subject: string, k: nat)
    requires DistinctJudgements(js) && k < |js| && js[k].d == d && js[k].subject == subject
    ensures VerdictOn(js, d, subject) == js[k].verdict
  {
  }

  lemma SolarJudgement(system: string, readings: seq<Detectors.Reading>, baseline: Baseline)
    ensures var js := ScanJudgements(system, readings, baseline);
      js != [] && js[|js| - 1] == Judgement(Solar, system, SolarVerdict(baseline))
  {
    hide SolarVerdict, AllJudgements;
  }

  lemma ReadingJudged(system: string, readings: seq<Detectors.Reading>, baseline: Baseline, d: Detector, i: nat) returns (k: nat)
    requires i < |readings| && d != Solar
    ensures var js := ScanJudgements(system, readings, baseline);
      k < |js| && js[k] == Judgement(d, readings[i].controller, Judge(d, readings[i]))
  {
    hide Judge, SolarVerdict;
    var n := PlaceOf(d);
    AllJudgementsLength(readings);
    k := 8 * i + n;
    JudgedBy(readings, k);
    assert k / 8 == i && k % 8 == n;
  }

  lemma PlaceOf(d: Detector) returns (n: nat)
    requires d != Solar
    ensures n < 8 && PER_CONTROLLER[n] == d
  {
    n := match d
      case Offline => 0
      case Sense => 1
      case Efficiency => 2
      case Fault => 3
      case Alarm => 4
      case Polling => 5
      case Cycling => 6
      case Coverage => 7;
  }

  lemma NotJudged(system: string, readings: seq<Detectors.Reading>, baseline: Baseline, d: Detector, subject: string)
    requires if d == Solar then subject != system else forall i :: 0 <= i < |readings| ==> readings[i].controller != subject
    ensures VerdictOn(ScanJudgements(system, readings, baseline), d, subject) == Silent
  {
    hide Judge, SolarVerdict;
    var all, js := AllJudgements(readings), ScanJudgements(system, readings, baseline);
    forall k | 0 <= k < |js|
      ensures !(js[k].d == d && js[k].subject == subject)
    {
      if k < |all| {
        JudgedBy(readings, k);
        assert js[k] == all[k];
        assert PER_CONTROLLER[k % 8] != Solar;
      }
    }
  }

  // ----- What an active incident shows -----

  lemma {:induction false} RaisedFinding(js: seq<Judgement>, words: Wording, k: nat) returns (j: nat)
    requires k < |js| && js[k].verdict.Raised?
    ensures j < |FindingsOf(js, words)| && FindingsOf(js, words)[j] == FindingOf(js[k], words)
  {
    if k < |js| - 1 {
      j := RaisedFinding(Init(js), words, k);
    } else {
      j := |FindingsOf(Init(js), words)|;
    }
  }

  lemma JudgementOf(js: seq<Judgement>, d: Detector, subject: string) returns (k: nat)
    requires VerdictOn(js, d, subject) != Silent
    ensures k < |js| && js[k] == Judgement(d, subject, VerdictOn(js, d, subject))
  {
    k :| 0 <= k < |js| && js[k].d == d && js[k].subject == subject && js[k].verdict == VerdictOn(js, d, subject);
  }

  /** The row has the severity, the confidence and the measurement of the verdict, and its wording. */
  ghost predicate Shows(row: Incident, d: Detector, subject: string, v: Verdict, words: Wording) {
    && v.Raised?
    && row.finding.shown == Shown(v.severity, v.confidence, words(d, subject).0, words(d, subject).1)
    && row.finding.measured == v.measured
  }

  /** After an accepted scan an active incident shows the verdict that the scan raised, whenever it was opened. */
  lemma IncidentShowsVerdict(rows: seq<Incident>, system: string, readings: seq<Detectors.Reading>, baseline: Baseline,
                             words: Wording, at: int, d: Detector, subject: string, i: nat)
    requires DistinctControllers(readings)
    requires VerdictOn(ScanJudgements(system, readings, baseline), d, subject).Raised?
    requires i < |Final(rows, ScanOf(system, readings, baseline, words, at))|
    requires Owns(Final(rows, ScanOf(system, readings, baseline, words, at))[i], system, KeyText(d, subject))
    ensures Shows(Final(rows, ScanOf(system, readings, baseline, words, at))[i], d, subject,
                  VerdictOn(ScanJudgements(system, readings, baseline), d, subject), words)
  {
    var js, scan := ScanJudgements(system, readings, baseline), ScanOf(system, readings, baseline, words, at);
    var k := JudgementOf(js, d, subject);
    var j := RaisedFinding(js, words, k);
    ScanJudgementsDistinct(system, readings, baseline);
    FindingsDistinct(js, words);
    var f := scan.findings[j];
    assert f == FindingOf(js[k], words);
    hide Final, VerdictOn, ScanJudgements, KeyText, DistinctJudgements, FindingsOf;
    ReportedRow(rows, scan, j, i);
  }

  /** Among distinct findings, an active row of the site with the fingerprint of one shows that one. */
  lemma ReportedRow(rows: seq<Incident>, scan: Scan, j: nat, i: nat)
    requires Distinct(scan.findings) && j < |scan.findings| && i < |Final(rows, scan)|
    requires Owns(Final(rows, scan)[i], scan.system, scan.findings[j].fingerprint)
    ensures Final(rows, scan)[i].finding.shown == scan.findings[j].shown
    ensures Final(rows, scan)[i].finding.measured == scan.findings[j].measured
  {
    var final := Final(rows, scan);
    assert LastMention(scan.findings, scan.findings[j].fingerprint, j);
    if i < |rows| {
      RowAfterExactly(rows, scan, i);
      assert Mentions(scan.findings, scan.findings[j].fingerprint);
      NameIsKept(rows, scan, i);
    } else {
      NewRowsExactly(rows, scan, final[i]);
      assert final[i] == final[|rows|..][i - |rows|];
      var m :| 0 <= m < |scan.findings|
        && final[i] == Incident(scan.system, scan.findings[m], true, scan.at, scan.at, scan.at, None, 1);
      assert m == j;
    }
  }

  lemma NameIsKept(rows: seq<Incident>, scan: Scan, i: nat)
    requires i < |rows| && Final(rows, scan)[i].active
    ensures rows[i].active && Final(rows, scan)[i].system == rows[i].system
    ensures Final(rows, scan)[i].finding.fingerprint == rows[i].finding.fingerprint
  {
  }

  /** Every finding of a scan is that of a verdict it raised, named after the detector and, unless it is the site's, the controller. */
  lemma FindingTellsVerdict(system: string, readings: seq<Detectors.Reading>, baseline: Baseline, words: Wording, at: int, j: nat)
    returns (d: Detector, subject: string)
    requires DistinctControllers(readings) && j < |ScanOf(system, readings, baseline, words, at).findings|
    ensures var v := VerdictOn(ScanJudgements(system, readings, baseline), d, subject);
      && v.Raised?
      && ScanOf(system, readings, baseline, words, at).findings[j]
         == Finding(Name(d), KeyText(d, subject), KeyText(d, subject), if d == Solar then None else Some(subject),
                    Shown(v.severity, v.confidence, words(d, subject).0, words(d, subject).1), v.measured)
  {
    var js := ScanJudgements(system, readings, baseline);
    ScanJudgementsDistinct(system, readings, baseline);
    var i := FindingFrom(js, words, j);
    d, subject := js[i].d, js[i].subject;
    hide ScanJudgements, KeyText, Name;
    OnlyVerdict(js, d, subject, i);
  }
}
