/** Whole runs of scans over the incident store: lifecycle, counts and the log of transitions. */
module IncidentRuns {
  import opened Options
  import opened Incidents
  import opened Sequences

  // ----- The active set after one scan -----

  /** What is active, as pairs of a system and a fingerprint. */
  function Live(rows: seq<Incident>): set<(string, string)> {
    set i | 0 <= i < |rows| && rows[i].active :: (rows[i].system, rows[i].finding.fingerprint)
  }

  function Reported(scan: Scan): set<(string, string)> {
    set j | 0 <= j < |scan.findings| :: (scan.system, scan.findings[j].fingerprint)
  }

  /** The incidents a scan ends: its own, absent from its findings, and with an evaluated key. */
  function Ended(rows: seq<Incident>, scan: Scan): set<(string, string)> {
    set i | 0 <= i < |rows| && ToResolve(rows[i], scan) :: (rows[i].system, rows[i].finding.fingerprint)
  }

  lemma LiveAt(rows: seq<Incident>, i: nat)
    requires i < |rows| && rows[i].active
    ensures (rows[i].system, rows[i].finding.fingerprint) in Live(rows)
  {
  }

  /** Absence is not enough to end an incident: its key must have been evaluated. */
  lemma ScanDecidesLive(rows: seq<Incident>, scan: Scan)
    requires UniqueActive(rows)
    ensures Live(Final(rows, scan)) == (Live(rows) - Ended(rows, scan)) + Reported(scan)
  {
    forall p | p in Live(Final(rows, scan))
      ensures p in (Live(rows) - Ended(rows, scan)) + Reported(scan)
    {
      LiveComesFrom(rows, scan, p);
    }
    forall p | p in Live(rows) && p !in Ended(rows, scan)
      ensures p in Live(Final(rows, scan))
    {
      var i :| 0 <= i < |rows| && rows[i].active && p == (rows[i].system, rows[i].finding.fingerprint);
      LiveAt(Final(rows, scan), i);
    }
    forall j | 0 <= j < |scan.findings|
      ensures (scan.system, scan.findings[j].fingerprint) in Live(Final(rows, scan))
    {
      ReportedIsLive(rows, scan, j);
    }
  }

  lemma LiveComesFrom(rows: seq<Incident>, scan: Scan, p: (string, string))
    requires UniqueActive(rows) && p in Live(Final(rows, scan))
    ensures p in Live(rows) - Ended(rows, scan) || p in Reported(scan)
  {
    var final := Final(rows, scan);
    var i :| 0 <= i < |final| && final[i].active && p == (final[i].system, final[i].finding.fingerprint);
    if i < |rows| {
      LiveAt(rows, i);
      forall k | 0 <= k < |rows| && ToResolve(rows[k], scan)
        ensures p != (rows[k].system, rows[k].finding.fingerprint)
      {
        assert rows[k].active && k != i;
      }
    } else {
      AddedFrom(rows, scan.system, scan.findings, scan.at, i - |rows|);
      var j :| 0 <= j < |scan.findings| && final[i] == New(scan.system, scan.findings[j], scan.at);
      assert p == (scan.system, scan.findings[j].fingerprint);
    }
  }

  lemma {:induction false} AddedFrom(rows: seq<Incident>, system: string, findings: seq<Finding>, at: int, k: nat)
    requires k < |OpenedRows(rows, system, findings, at)|
    ensures exists j :: 0 <= j < |findings| && OpenedRows(rows, system, findings, at)[k] == New(system, findings[j], at)
  {
    var before := OpenedRows(rows, system, Init(findings), at);
    if k < |before| {
      AddedFrom(rows, system, Init(findings), at, k);
      var j :| 0 <= j < |Init(findings)| && before[k] == New(system, Init(findings)[j], at);
      assert findings[j] == Init(findings)[j];
    } else {
      assert OpenedRows(rows, system, findings, at)[k] == New(system, findings[|findings| - 1], at);
    }
  }

  lemma ReportedIsLive(rows: seq<Incident>, scan: Scan, j: nat)
    requires UniqueActive(rows) && j < |scan.findings|
    ensures (scan.system, scan.findings[j].fingerprint) in Live(Final(rows, scan))
  {
    var fingerprint := scan.findings[j].fingerprint;
    match Find(rows, scan.system, fingerprint)
    case Some(i) =>
      assert Mentions(scan.findings, fingerprint);
      LiveAt(Final(rows, scan), i);
    case None =>
      var k := AddedAt(rows, scan.system, scan.findings, scan.at, j);
      LiveAt(Final(rows, scan), |rows| + k);
  }

  lemma {:induction false} AddedAt(rows: seq<Incident>, system: string, findings: seq<Finding>, at: int, j: nat) returns (k: nat)
    requires j < |findings| && Find(rows, system, findings[j].fingerprint).None?
    ensures k < |OpenedRows(rows, system, findings, at)|
    ensures OpenedRows(rows, system, findings, at)[k] == New(system, findings[j], at)
  {
    if j < |findings| - 1 {
      k := AddedAt(rows, system, Init(findings), at, j);
    } else {
      k := |OpenedRows(rows, system, Init(findings), at)|;
    }
  }

  // ----- The log of transitions -----

  function Entry(t: Transition): (string, string) {
    (t.incident.system, t.incident.finding.fingerprint)
  }

  /** A reader of the events keeps the active set by opening and resolving. */
  function Fold(live: set<(string, string)>, log: seq<Transition>): set<(string, string)> {
    if log == [] then live
    else
      var before := Fold(live, Init(log));
      match Last(log).kind
      case Opened => before + {Entry(Last(log))}
      case Updated => before
      case Resolved => before - {Entry(Last(log))}
  }

  lemma {:induction false} FoldSplit(live: set<(string, string)>, a: seq<Transition>, b: seq<Transition>)
    ensures Fold(live, a + b) == Fold(Fold(live, a), b)
  {
    if b == [] {
      assert a + b == a;
    } else {
      assert Init(a + b) == a + Init(b);
      FoldSplit(live, a, Init(b));
    }
  }

  lemma FoldOne(live: set<(string, string)>, t: Transition)
    ensures Fold(live, [t]) == match t.kind
                               case Opened => live + {Entry(t)}
                               case Updated => live
                               case Resolved => live - {Entry(t)}
  {
  }

  /** Nothing a scan reports about findings removes a pair; what it adds is what was not yet active. */
  lemma {:induction false} FoldFindings(rows: seq<Incident>, system: string, findings: seq<Finding>, at: int)
    ensures Fold(Live(rows), FindingTransitions(rows, system, findings, at))
            == Live(rows) + (set j | 0 <= j < |findings| :: (system, findings[j].fingerprint))
  {
    if findings != [] {
      var f := Last(findings);
      var before := FindingTransitions(rows, system, Init(findings), at);
      var step := FindingTransitions(rows, system, findings, at)[|before|..];
      FoldFindings(rows, system, Init(findings), at);
      assert FindingTransitions(rows, system, findings, at) == before + step;
      FoldSplit(Live(rows), before, step);
      FoldStep(rows, system, findings, at, step);
      NamesSnoc(system, findings);
    }
  }

  lemma NamesSnoc(system: string, findings: seq<Finding>)
    requires findings != []
    ensures (set j | 0 <= j < |findings| :: (system, findings[j].fingerprint))
            == (set j | 0 <= j < |Init(findings)| :: (system, Init(findings)[j].fingerprint)) + {(system, Last(findings).fingerprint)}
  {
    var all := set j | 0 <= j < |findings| :: (system, findings[j].fingerprint);
    var part := set j | 0 <= j < |Init(findings)| :: (system, Init(findings)[j].fingerprint);
    forall p | p in part
      ensures p in all
    {
      var j :| 0 <= j < |Init(findings)| && p == (system, Init(findings)[j].fingerprint);
      assert p == (system, findings[j].fingerprint);
    }
    assert (system, findings[|findings| - 1].fingerprint) in all;
    forall p | p in all && p != (system, Last(findings).fingerprint)
      ensures p in part
    {
      var j :| 0 <= j < |findings| && p == (system, findings[j].fingerprint);
      assert p == (system, Init(findings)[j].fingerprint);
    }
  }

  lemma FoldStep(rows: seq<Incident>, system: string, findings: seq<Finding>, at: int, step: seq<Transition>)
    requires findings != []
    requires FindingTransitions(rows, system, findings, at) == FindingTransitions(rows, system, Init(findings), at) + step
    ensures
      var live := Live(rows) + (set j | 0 <= j < |Init(findings)| :: (system, Init(findings)[j].fingerprint));
      Fold(live, step) == live + {(system, Last(findings).fingerprint)}
  {
    var live := Live(rows) + (set j | 0 <= j < |Init(findings)| :: (system, Init(findings)[j].fingerprint));
    var f := Last(findings);
    var found := Find(rows, system, f.fingerprint);
    var before := FindingTransitions(rows, system, Init(findings), at);
    assert step == (before + step)[|before|..];
    if found.Some? {
      LiveAt(rows, found.value);
      assert step == [] || (|step| == 1 && step[0].kind == Updated);
    } else {
      assert step == [Transition(Opened, |rows| + |OpenedRows(rows, system, Init(findings), at)|, New(system, f, at))];
    }
    if step != [] {
      assert step == [step[0]];
      FoldOne(live, step[0]);
    }
  }

  lemma {:induction false} FoldResolved(rows: seq<Incident>, scan: Scan, n: nat, live: set<(string, string)>)
    requires n <= |rows|
    ensures Fold(live, ResolvedTransitions(rows, scan, n)) == live - Ended(rows[..n], scan)
  {
    if n != 0 {
      FoldResolved(rows, scan, n - 1, live);
      EndedSnoc(rows, scan, n);
      var before := ResolvedTransitions(rows, scan, n - 1);
      if ToResolve(rows[n - 1], scan) {
        var t := Transition(Resolved, n - 1, Closed(rows[n - 1], scan.at));
        FoldSplit(live, before, [t]);
        FoldOne(Fold(live, before), t);
      } else {
        assert ResolvedTransitions(rows, scan, n) == before;
      }
    }
  }

  lemma EndedSnoc(rows: seq<Incident>, scan: Scan, n: nat)
    requires 0 < n <= |rows|
    ensures Ended(rows[..n], scan)
            == Ended(rows[..n - 1], scan)
               + if ToResolve(rows[n - 1], scan) then {(rows[n - 1].system, rows[n - 1].finding.fingerprint)} else {}
  {
  }

  lemma EndedNotReported(rows: seq<Incident>, scan: Scan)
    ensures Ended(rows, scan) !! Reported(scan)
  {
  }

  lemma FoldScan(rows: seq<Incident>, scan: Scan)
    requires UniqueActive(rows)
    ensures Fold(Live(rows), Emitted(rows, scan)) == Live(Final(rows, scan))
  {
    FoldSplit(Live(rows), FindingTransitions(rows, scan.system, scan.findings, scan.at), ResolvedTransitions(rows, scan, |rows|));
    FoldFindings(rows, scan.system, scan.findings, scan.at);
    FoldResolved(rows, scan, |rows|, Live(rows) + Reported(scan));
    assert rows[..|rows|] == rows;
    ScanDecidesLive(rows, scan);
    EndedNotReported(rows, scan);
  }

  // ----- Runs of scans from an empty store; a refused scan changes nothing -----

  ghost function Rows(scans: seq<Scan>): seq<Incident> {
    if scans == [] then []
    else
      var rows := Rows(Init(scans));
      if Accepted(rows, Last(scans).system, Last(scans).findings) then Final(rows, Last(scans)) else rows
  }

  ghost function Log(scans: seq<Scan>): seq<Transition> {
    if scans == [] then []
    else
      var rows := Rows(Init(scans));
      Log(Init(scans))
      + if Accepted(rows, Last(scans).system, Last(scans).findings) then Emitted(rows, Last(scans)) else []
  }

  /** In every run a fingerprint has at most one active incident, over all systems. */
  lemma {:induction false} RunsStayUnique(scans: seq<Scan>)
    ensures UniqueActive(Rows(scans))
  {
    if scans != [] {
      RunsStayUnique(Init(scans));
      if Accepted(Rows(Init(scans)), Last(scans).system, Last(scans).findings) {
        FinalKeepsUnique(Rows(Init(scans)), Last(scans));
      }
    }
  }

  /** The transitions reported in a run tell the active set, whatever scans were refused. */
  lemma {:induction false} LogTellsLive(scans: seq<Scan>)
    ensures Fold({}, Log(scans)) == Live(Rows(scans))
  {
    if scans != [] {
      var rows := Rows(Init(scans));
      LogTellsLive(Init(scans));
      RunsStayUnique(Init(scans));
      if Accepted(rows, Last(scans).system, Last(scans).findings) {
        FoldSplit({}, Log(Init(scans)), Emitted(rows, Last(scans)));
        FoldScan(rows, Last(scans));
      } else {
        assert Log(scans) == Log(Init(scans));
      }
    }
  }

  /** A resolved incident is never changed again, and no incident leaves the table. */
  lemma {:induction false} ResolvedForEver(scans: seq<Scan>, n: nat, i: nat)
    requires n <= |scans| && i < |Rows(scans[..n])|
    ensures i < |Rows(scans)|
    ensures !Rows(scans[..n])[i].active ==> Rows(scans)[i] == Rows(scans[..n])[i]
  {
    if n == |scans| {
      assert scans[..n] == scans;
    } else {
      assert Init(scans)[..n] == scans[..n];
      ResolvedForEver(Init(scans), n, i);
    }
  }

  // ----- What a reader of the events can show -----

  datatype Face = Face(system: string, fingerprint: string, active: bool, shown: Shown)

  function FaceOf(row: Incident): Face {
    Face(row.system, row.finding.fingerprint, row.active, row.finding.shown)
  }

  function Faces(rows: seq<Incident>): map<nat, Face> {
    map i: nat | 0 <= i < |rows| :: FaceOf(rows[i])
  }

  /** A reader replaces what it shows of an incident by what each event carries. */
  function View(faces: map<nat, Face>, log: seq<Transition>): map<nat, Face> {
    if log == [] then faces else View(faces, Init(log))[Last(log).uid := FaceOf(Last(log).incident)]
  }

  ghost predicate Distinct(findings: seq<Finding>) {
    forall i, j :: 0 <= i < j < |findings| ==> findings[i].fingerprint != findings[j].fingerprint
  }

  lemma {:induction false} ViewSplit(faces: map<nat, Face>, a: seq<Transition>, b: seq<Transition>)
    ensures View(faces, a + b) == View(View(faces, a), b)
  {
    if b == [] {
      assert a + b == a;
    } else {
      assert Init(a + b) == a + Init(b);
      ViewSplit(faces, a, Init(b));
    }
  }

  lemma ViewSnoc(faces: map<nat, Face>, log: seq<Transition>, t: Transition)
    ensures View(faces, log + [t]) == View(faces, log)[t.uid := FaceOf(t.incident)]
  {
  }

  lemma FacesSnoc(rows: seq<Incident>, row: Incident)
    ensures Faces(rows + [row]) == Faces(rows)[|rows| := FaceOf(row)]
  {
  }

  lemma FacesUpdate(rows: seq<Incident>, i: nat, row: Incident)
    requires i < |rows|
    ensures Faces(rows[i := row]) == Faces(rows)[i := FaceOf(row)]
  {
  }

  function Midway(rows: seq<Incident>, system: string, findings: seq<Finding>, at: int): seq<Incident> {
    Touched(rows, system, findings, at) + OpenedRows(rows, system, findings, at)
  }

  lemma {:induction false} ViewFindings(rows: seq<Incident>, system: string, findings: seq<Finding>, at: int)
    requires UniqueActive(rows) && Distinct(findings)
    ensures View(Faces(rows), FindingTransitions(rows, system, findings, at)) == Faces(Midway(rows, system, findings, at))
  {
    if findings == [] {
      NothingObserved(rows, system, at);
    } else {
      var before, f := Init(findings), Last(findings);
      ViewFindings(rows, system, before, at);
      assert findings == before + [f];
      match Find(rows, system, f.fingerprint)
      case None =>
        OpenStep(rows, system, before, f, at);
        ViewOpened(rows, system, before, f, at);
      case Some(i) =>
        UpdateStep(rows, system, before, f, at);
        ViewUpdated(rows, system, before, f, at, i);
    }
  }

  lemma ViewOpened(rows: seq<Incident>, system: string, before: seq<Finding>, f: Finding, at: int)
    requires UniqueActive(rows) && Find(rows, system, f.fingerprint).None?
    requires View(Faces(rows), FindingTransitions(rows, system, before, at)) == Faces(Midway(rows, system, before, at))
    ensures View(Faces(rows), FindingTransitions(rows, system, before + [f], at))
            == Faces(Midway(rows, system, before + [f], at))
  {
    OpenStep(rows, system, before, f, at);
    var midway, row := Midway(rows, system, before, at), New(system, f, at);
    ViewSnoc(Faces(rows), FindingTransitions(rows, system, before, at), Transition(Opened, |midway|, row));
    assert Midway(rows, system, before + [f], at) == midway + [row];
    FacesSnoc(midway, row);
  }

  lemma ViewUpdated(rows: seq<Incident>, system: string, before: seq<Finding>, f: Finding, at: int, i: nat)
    requires UniqueActive(rows) && Find(rows, system, f.fingerprint) == Some(i)
    requires !Mentions(before, f.fingerprint)
    requires View(Faces(rows), FindingTransitions(rows, system, before, at)) == Faces(Midway(rows, system, before, at))
    ensures View(Faces(rows), FindingTransitions(rows, system, before + [f], at))
            == Faces(Midway(rows, system, before + [f], at))
  {
    UpdateStep(rows, system, before, f, at);
    Untouched(rows[i], before, at);
    var midway, row := Midway(rows, system, before, at), Observed(rows[i], f, at);
    assert midway[i] == rows[i];
    assert Midway(rows, system, before + [f], at) == midway[i := row];
    FacesUpdate(midway, i, row);
    var log := FindingTransitions(rows, system, before, at);
    if rows[i].finding.shown != f.shown {
      ViewSnoc(Faces(rows), log, Transition(Updated, i, row));
    } else {
      assert FindingTransitions(rows, system, before + [f], at) == log;
      assert FaceOf(row) == FaceOf(rows[i]);
      assert Faces(midway)[i := FaceOf(row)] == Faces(midway);
    }
  }

  /** The table after the resolutions among the first `n` rows. */
  function PartlyResolved(rows: seq<Incident>, scan: Scan, n: nat): seq<Incident>
    requires n <= |rows|
  {
    Final(rows, scan)[..n] + Midway(rows, scan.system, scan.findings, scan.at)[n..]
  }

  lemma {:induction false} ViewResolved(rows: seq<Incident>, scan: Scan, n: nat)
    requires n <= |rows|
    ensures View(Faces(Midway(rows, scan.system, scan.findings, scan.at)), ResolvedTransitions(rows, scan, n))
            == Faces(PartlyResolved(rows, scan, n))
  {
    var midway := Midway(rows, scan.system, scan.findings, scan.at);
    if n == 0 {
      assert PartlyResolved(rows, scan, 0) == midway;
    } else {
      ViewResolved(rows, scan, n - 1);
      var part := PartlyResolved(rows, scan, n - 1);
      var log := ResolvedTransitions(rows, scan, n - 1);
      ResolveStep(rows, scan, n);
      if ToResolve(rows[n - 1], scan) {
        ViewSnoc(Faces(midway), log, Transition(Resolved, n - 1, Closed(rows[n - 1], scan.at)));
        FacesUpdate(part, n - 1, Closed(rows[n - 1], scan.at));
      } else {
        assert ResolvedTransitions(rows, scan, n) == log;
      }
    }
  }

  lemma ResolveStep(rows: seq<Incident>, scan: Scan, n: nat)
    requires 0 < n <= |rows|
    ensures PartlyResolved(rows, scan, n) == PartlyResolved(rows, scan, n - 1)[n - 1 := After(rows[n - 1], scan)]
    ensures !ToResolve(rows[n - 1], scan) ==> PartlyResolved(rows, scan, n) == PartlyResolved(rows, scan, n - 1)
  {
  }

  lemma ViewScan(rows: seq<Incident>, scan: Scan)
    requires UniqueActive(rows) && Distinct(scan.findings)
    ensures View(Faces(rows), Emitted(rows, scan)) == Faces(Final(rows, scan))
  {
    ViewSplit(Faces(rows), FindingTransitions(rows, scan.system, scan.findings, scan.at), ResolvedTransitions(rows, scan, |rows|));
    ViewFindings(rows, scan.system, scan.findings, scan.at);
    ViewResolved(rows, scan, |rows|);
    assert PartlyResolved(rows, scan, |rows|) == Final(rows, scan);
  }

  /** An event is reported for every change a reader could see: system, fingerprint, state and the four texts. */
  lemma {:induction false} LogTellsEveryFace(scans: seq<Scan>)
    requires forall k :: 0 <= k < |scans| ==> Distinct(scans[k].findings)
    ensures View(map[], Log(scans)) == Faces(Rows(scans))
  {
    if scans != [] {
      var rows := Rows(Init(scans));
      LogTellsEveryFace(Init(scans));
      RunsStayUnique(Init(scans));
      if Accepted(rows, Last(scans).system, Last(scans).findings) {
        ViewSplit(map[], Log(Init(scans)), Emitted(rows, Last(scans)));
        ViewScan(rows, Last(scans));
      } else {
        assert Log(scans) == Log(Init(scans));
      }
    }
  }

  // ----- Occurrence counts -----

  ghost predicate Timed(scans: seq<Scan>) {
    forall i, j :: 0 <= i < j < |scans| ==> scans[i].at < scans[j].at
  }

  /** The incident was open when the scan ran. */
  predicate OpenAt(row: Incident, at: int) {
    row.openedAt <= at && (row.resolvedAt.None? || at <= row.resolvedAt.value)
  }

  /** How often the applied scans of the incident's system reported it while it was open. */
  ghost function Sightings(scans: seq<Scan>, row: Incident): nat {
    if scans == [] then 0
    else
      var scan := Last(scans);
      Sightings(Init(scans), row)
      + if scan.system == row.system && OpenAt(row, scan.at) && Accepted(Rows(Init(scans)), scan.system, scan.findings)
        then Seen(scan.findings, row.finding.fingerprint) else 0
  }

  ghost predicate WithinRun(scans: seq<Scan>, row: Incident) {
    && row.active == row.resolvedAt.None?
    && (scans == [] ==> false)
    && row.openedAt <= Last(scans).at
    && (row.resolvedAt.Some? ==> row.openedAt <= row.resolvedAt.value <= Last(scans).at)
  }

  lemma {:induction false} SightingsBefore(scans: seq<Scan>, row: Incident, row': Incident)
    requires Timed(scans) && row.system == row'.system && row.finding.fingerprint == row'.finding.fingerprint
    requires forall k :: 0 <= k < |scans| ==> (OpenAt(row, scans[k].at) <==> OpenAt(row', scans[k].at))
    ensures Sightings(scans, row) == Sightings(scans, row')
  {
    if scans != [] {
      SightingsBefore(Init(scans), row, row');
      assert OpenAt(row, scans[|scans| - 1].at) <==> OpenAt(row', scans[|scans| - 1].at);
    }
  }

  lemma {:induction false} NotYetOpen(scans: seq<Scan>, row: Incident)
    requires Timed(scans) && (scans != [] ==> Last(scans).at < row.openedAt)
    ensures Sightings(scans, row) == 0
  {
    if scans != [] {
      if |scans| > 1 {
        assert scans[|scans| - 2].at < scans[|scans| - 1].at;
      }
      NotYetOpen(Init(scans), row);
    }
  }

  lemma {:induction false} UnseenCountsNothing(findings: seq<Finding>, fingerprint: string)
    ensures !Mentions(findings, fingerprint) ==> Seen(findings, fingerprint) == 0
  {
    if findings != [] {
      UnseenCountsNothing(Init(findings), fingerprint);
      assert findings == Init(findings) + [Last(findings)];
      MentionsSnoc(Init(findings), Last(findings), fingerprint);
    }
  }

  lemma {:induction false} NewSeenOnce(rows: seq<Incident>, system: string, findings: seq<Finding>, j: nat)
    requires Accepted(rows, system, findings) && j < |findings| && Find(rows, system, findings[j].fingerprint).None?
    ensures Seen(findings, findings[j].fingerprint) == 1
  {
    var f := Last(findings);
    assert findings == Init(findings) + [f];
    AcceptedSnoc(rows, system, Init(findings), f);
    if j == |findings| - 1 {
      UnseenCountsNothing(Init(findings), f.fingerprint);
    } else {
      assert Init(findings)[j] == findings[j];
      NewSeenOnce(rows, system, Init(findings), j);
      assert Mentions(Init(findings), findings[j].fingerprint);
    }
  }

  /** The count of an incident is the number of times applied scans reported it from opening to resolution. */
  lemma {:induction false} OccurrencesAreSightings(scans: seq<Scan>, i: nat)
    requires Timed(scans) && i < |Rows(scans)|
    ensures WithinRun(scans, Rows(scans)[i])
    ensures Rows(scans)[i].occurrences == Sightings(scans, Rows(scans)[i])
  {
    var before, scan := Init(scans), Last(scans);
    var rows := Rows(before);
    assert Timed(before);
    if before != [] {
      assert scans[|scans| - 2].at < scans[|scans| - 1].at;
    }
    if i < |rows| {
      OccurrencesAreSightings(before, i);
      OldRowCounts(scans, i);
    } else {
      AddedFrom(rows, scan.system, scan.findings, scan.at, i - |rows|);
      NewRowCounts(scans, i);
    }
  }

  lemma OldRowCounts(scans: seq<Scan>, i: nat)
    requires scans != [] && Timed(scans) && i < |Rows(Init(scans))|
    requires Init(scans) != [] ==> Last(Init(scans)).at < Last(scans).at
    requires WithinRun(Init(scans), Rows(Init(scans))[i])
    requires Rows(Init(scans))[i].occurrences == Sightings(Init(scans), Rows(Init(scans))[i])
    ensures i < |Rows(scans)| && WithinRun(scans, Rows(scans)[i])
    ensures Rows(scans)[i].occurrences == Sightings(scans, Rows(scans)[i])
  {
    var before, scan := Init(scans), Last(scans);
    var row, row' := Rows(before)[i], Rows(scans)[i];
    forall k | 0 <= k < |before|
      ensures OpenAt(row, before[k].at) <==> OpenAt(row', before[k].at)
    {
      assert before[k] == scans[k] && scans[k].at < scans[|scans| - 1].at;
    }
    SightingsBefore(before, row, row');
    UnseenCountsNothing(scan.findings, row.finding.fingerprint);
  }

  lemma NewRowCounts(scans: seq<Scan>, i: nat)
    requires scans != [] && Timed(scans) && |Rows(Init(scans))| <= i < |Rows(scans)|
    requires Init(scans) != [] ==> Last(Init(scans)).at < Last(scans).at
    requires exists j :: 0 <= j < |Last(scans).findings|
                         && Rows(scans)[i] == New(Last(scans).system, Last(scans).findings[j], Last(scans).at)
    ensures WithinRun(scans, Rows(scans)[i])
    ensures Rows(scans)[i].occurrences == Sightings(scans, Rows(scans)[i])
  {
    var before, scan, row := Init(scans), Last(scans), Rows(scans)[i];
    var j :| 0 <= j < |scan.findings| && row == New(scan.system, scan.findings[j], scan.at);
    NotYetOpen(before, row);
    AddedUnlisted(Rows(before), scan.system, scan.findings, scan.at, i - |Rows(before)|);
    NewSeenOnce(Rows(before), scan.system, scan.findings, j);
  }

  lemma {:induction false} AddedUnlisted(rows: seq<Incident>, system: string, findings: seq<Finding>, at: int, k: nat)
    requires k < |OpenedRows(rows, system, findings, at)|
    ensures Find(rows, system, OpenedRows(rows, system, findings, at)[k].finding.fingerprint).None?
  {
    if k < |OpenedRows(rows, system, Init(findings), at)| {
      AddedUnlisted(rows, system, Init(findings), at, k);
    }
  }
}
