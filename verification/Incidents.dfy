/**
 * The incident store of persistence/incidents.py: one scan opens, updates or resolves incidents.
 * The identifier of an incident is its position in the table, from which no row is ever deleted.
 */
module Incidents {
  import opened Options
  import opened Sequences

  datatype Shown = Shown(severity: string, confidence: string, title: string, summary: string)

  datatype Measured = Measured(
    category: string,
    observed: Option<real>,
    low: Option<real>,
    high: Option<real>,
    unit: Option<string>,
    evidence: seq<string>)

  datatype Finding = Finding(
    detector: string,
    key: string,
    fingerprint: string,
    controller: Option<string>,
    shown: Shown,
    measured: Measured)

  datatype Incident = Incident(
    system: string,
    finding: Finding,
    active: bool,
    openedAt: int,
    observedAt: int,
    updatedAt: int,
    resolvedAt: Option<int>,
    occurrences: nat)

  datatype Scan = Scan(system: string, findings: seq<Finding>, evaluated: set<string>, at: int)

  datatype Kind = Opened | Updated | Resolved

  datatype Transition = Transition(kind: Kind, uid: nat, incident: Incident)

  // ----- One scan, row by row -----

  predicate Owns(row: Incident, system: string, fingerprint: string) {
    row.active && row.system == system && row.finding.fingerprint == fingerprint
  }

  /** The row a scan of `system` finds for a fingerprint in the table as it was when the scan began. */
  function Find(rows: seq<Incident>, system: string, fingerprint: string): (found: Option<nat>)
    ensures found.Some? ==> found.value < |rows| && Owns(rows[found.value], system, fingerprint)
    ensures found.None? ==> forall i :: 0 <= i < |rows| ==> !Owns(rows[i], system, fingerprint)
  {
    if rows == [] then None
    else if Owns(Last(rows), system, fingerprint) then Some(|rows| - 1)
    else Find(Init(rows), system, fingerprint)
  }

  function New(system: string, f: Finding, at: int): Incident {
    Incident(system, f, true, at, at, at, None, 1)
  }

  /** Seeing an incident again keeps the key it was opened with. */
  function Observed(row: Incident, f: Finding, at: int): Incident {
    row.(finding := row.finding.(shown := f.shown, measured := f.measured),
         observedAt := at, updatedAt := at, occurrences := row.occurrences + 1)
  }

  function Closed(row: Incident, at: int): Incident {
    row.(active := false, resolvedAt := Some(at), updatedAt := at)
  }

  function Seen(findings: seq<Finding>, fingerprint: string): nat {
    if findings == [] then 0
    else Seen(Init(findings), fingerprint) + if Last(findings).fingerprint == fingerprint then 1 else 0
  }

  /** A row after every finding that carries its fingerprint. */
  function Touch(row: Incident, findings: seq<Finding>, at: int): (r: Incident)
    ensures r.system == row.system && r.finding.fingerprint == row.finding.fingerprint && r.finding.key == row.finding.key
    ensures r.active == row.active && r.openedAt == row.openedAt && r.resolvedAt == row.resolvedAt
    ensures r.occurrences == row.occurrences + Seen(findings, row.finding.fingerprint)
  {
    if findings == [] then row
    else
      var r := Touch(row, Init(findings), at);
      if Last(findings).fingerprint == row.finding.fingerprint then Observed(r, Last(findings), at) else r
  }

  predicate Mentions(findings: seq<Finding>, fingerprint: string) {
    exists j :: 0 <= j < |findings| && findings[j].fingerprint == fingerprint
  }

  function TouchedIn(row: Incident, system: string, findings: seq<Finding>, at: int): Incident {
    if row.active && row.system == system then Touch(row, findings, at) else row
  }

  predicate ToResolve(row: Incident, scan: Scan) {
    row.active && row.system == scan.system
    && !Mentions(scan.findings, row.finding.fingerprint) && row.finding.key in scan.evaluated
  }

  function After(row: Incident, scan: Scan): Incident {
    if ToResolve(row, scan) then Closed(row, scan.at) else TouchedIn(row, scan.system, scan.findings, scan.at)
  }

  function OpenedRows(rows: seq<Incident>, system: string, findings: seq<Finding>, at: int): seq<Incident> {
    if findings == [] then []
    else
      OpenedRows(rows, system, Init(findings), at)
      + if Find(rows, system, Last(findings).fingerprint).None? then [New(system, Last(findings), at)] else []
  }

  function Touched(rows: seq<Incident>, system: string, findings: seq<Finding>, at: int): (r: seq<Incident>)
    ensures |r| == |rows|
  {
    seq(|rows|, i requires 0 <= i < |rows| => TouchedIn(rows[i], system, findings, at))
  }

  function Final(rows: seq<Incident>, scan: Scan): seq<Incident> {
    seq(|rows|, i requires 0 <= i < |rows| => After(rows[i], scan))
    + OpenedRows(rows, scan.system, scan.findings, scan.at)
  }

  // ----- The unique index on active fingerprints, which spans all systems -----

  ghost predicate UniqueActive(rows: seq<Incident>) {
    forall i, j :: 0 <= i < j < |rows| && rows[i].active && rows[j].active ==>
      rows[i].finding.fingerprint != rows[j].finding.fingerprint
  }

  predicate ActiveSomewhere(rows: seq<Incident>, fingerprint: string) {
    exists i :: 0 <= i < |rows| && rows[i].active && rows[i].finding.fingerprint == fingerprint
  }

  /** A finding that opens an incident is neither active in another system nor repeated in the scan. */
  ghost predicate Accepted(rows: seq<Incident>, system: string, findings: seq<Finding>) {
    forall j :: 0 <= j < |findings| && Find(rows, system, findings[j].fingerprint).None? ==>
      !ActiveSomewhere(rows, findings[j].fingerprint) && !Mentions(findings[..j], findings[j].fingerprint)
  }

  // ----- The transitions a scan reports -----

  function FindingTransitions(rows: seq<Incident>, system: string, findings: seq<Finding>, at: int): seq<Transition> {
    if findings == [] then []
    else
      var f := Last(findings);
      var found := Find(rows, system, f.fingerprint);
      FindingTransitions(rows, system, Init(findings), at)
      + if found.None? then
          [Transition(Opened, |rows| + |OpenedRows(rows, system, Init(findings), at)|, New(system, f, at))]
        else if rows[found.value].finding.shown != f.shown then
          [Transition(Updated, found.value, Touch(rows[found.value], findings, at))]
        else []
  }

  function ResolvedTransitions(rows: seq<Incident>, scan: Scan, n: nat): seq<Transition>
    requires n <= |rows|
  {
    if n == 0 then []
    else
      ResolvedTransitions(rows, scan, n - 1)
      + if ToResolve(rows[n - 1], scan) then [Transition(Resolved, n - 1, Closed(rows[n - 1], scan.at))] else []
  }

  function Emitted(rows: seq<Incident>, scan: Scan): seq<Transition> {
    FindingTransitions(rows, scan.system, scan.findings, scan.at) + ResolvedTransitions(rows, scan, |rows|)
  }

  class IncidentStore {
    var rows: seq<Incident>

    ghost predicate Valid()
      reads this
    {
      UniqueActive(rows)
    }

    constructor ()
      ensures Valid() && rows == []
    {
      rows := [];
    }

    /** A scan is applied whole, or, when the unique index refuses an insert, not at all. */
    method Reconcile(scan: Scan) returns (transitions: Option<seq<Transition>>)
      requires Valid()
      modifies this
      ensures Valid()
      ensures transitions.Some? <==> Accepted(old(rows), scan.system, scan.findings)
      ensures transitions.None? ==> rows == old(rows)
      ensures transitions.Some? ==> rows == Final(old(rows), scan) && transitions.value == Emitted(old(rows), scan)
    {
      var base := rows;
      var observed := ObserveFindings(scan);
      if observed.None? {
        return None;
      }
      var resolved := ResolveAbsent(base, scan);
      FinalKeepsUnique(base, scan);
      return Some(observed.value + resolved);
    }

    method ResolveAbsent(base: seq<Incident>, scan: Scan) returns (transitions: seq<Transition>)
      requires rows == Touched(base, scan.system, scan.findings, scan.at)
                       + OpenedRows(base, scan.system, scan.findings, scan.at)
      modifies this
      ensures rows == Final(base, scan)
      ensures transitions == ResolvedTransitions(base, scan, |base|)
    {
      transitions := [];
      ghost var added := OpenedRows(base, scan.system, scan.findings, scan.at);
      ghost var touched := Touched(base, scan.system, scan.findings, scan.at);
      hide OpenedRows;
      for i := 0 to |base|
        invariant |rows| == |base| + |added|
        invariant forall k :: 0 <= k < i ==> rows[k] == After(base[k], scan)
        invariant forall k :: i <= k < |base| ==> rows[k] == touched[k]
        invariant forall k :: 0 <= k < |added| ==> rows[|base| + k] == added[k]
        invariant transitions == ResolvedTransitions(base, scan, i)
      {
        if ToResolve(base[i], scan) {
          Untouched(base[i], scan.findings, scan.at);
          rows := rows[i := Closed(rows[i], scan.at)];
          transitions := transitions + [Transition(Resolved, i, rows[i])];
        }
      }
      assert rows == Final(base, scan);
    }

    method ObserveFindings(scan: Scan) returns (transitions: Option<seq<Transition>>)
      requires Valid()
      modifies this
      ensures transitions.Some? <==> Accepted(old(rows), scan.system, scan.findings)
      ensures transitions.None? ==> rows == old(rows)
      ensures transitions.Some? ==>
        && rows == Touched(old(rows), scan.system, scan.findings, scan.at)
                   + OpenedRows(old(rows), scan.system, scan.findings, scan.at)
        && transitions.value == FindingTransitions(old(rows), scan.system, scan.findings, scan.at)
    {
      var base, out := rows, [];
      NothingObserved(base, scan.system, scan.at);
      hide OpenedRows, FindingTransitions, Touched, Touch, ActiveSomewhere, Accepted, UniqueActive;
      for j := 0 to |scan.findings|
        invariant rows == Touched(base, scan.system, scan.findings[..j], scan.at)
                          + OpenedRows(base, scan.system, scan.findings[..j], scan.at)
        invariant Accepted(base, scan.system, scan.findings[..j])
        invariant out == FindingTransitions(base, scan.system, scan.findings[..j], scan.at)
      {
        var f := scan.findings[j];
        ghost var before := scan.findings[..j];
        assert scan.findings[..j + 1] == before + [f];
        ClashExactly(base, scan.system, before, f, scan.at);
        AcceptedSnoc(base, scan.system, before, f);
        match Find(base, scan.system, f.fingerprint)
        case None =>
          if ActiveSomewhere(rows, f.fingerprint) {
            rows := base;
            RefusedWhole(base, scan.system, scan.findings, j + 1);
            return None;
          }
          OpenStep(base, scan.system, before, f, scan.at);
          rows := rows + [New(scan.system, f, scan.at)];
          out := out + [Transition(Opened, |rows| - 1, rows[|rows| - 1])];
        case Some(i) =>
          UpdateStep(base, scan.system, before, f, scan.at);
          rows := rows[i := Observed(rows[i], f, scan.at)];
          if base[i].finding.shown != f.shown {
            out := out + [Transition(Updated, i, rows[i])];
          }
      }
      assert scan.findings[..|scan.findings|] == scan.findings;
      return Some(out);
    }
  }

  lemma NothingObserved(rows: seq<Incident>, system: string, at: int)
    ensures Touched(rows, system, [], at) + OpenedRows(rows, system, [], at) == rows
    ensures Accepted(rows, system, []) && FindingTransitions(rows, system, [], at) == []
  {
  }

  lemma {:induction false} Untouched(row: Incident, findings: seq<Finding>, at: int)
    requires !Mentions(findings, row.finding.fingerprint)
    ensures Touch(row, findings, at) == row
  {
    if findings != [] {
      Untouched(row, Init(findings), at);
    }
  }

  lemma OpenStep(rows: seq<Incident>, system: string, before: seq<Finding>, f: Finding, at: int)
    requires UniqueActive(rows) && Find(rows, system, f.fingerprint).None?
    ensures Touched(rows, system, before + [f], at) == Touched(rows, system, before, at)
    ensures OpenedRows(rows, system, before + [f], at) == OpenedRows(rows, system, before, at) + [New(system, f, at)]
    ensures FindingTransitions(rows, system, before + [f], at)
            == FindingTransitions(rows, system, before, at)
               + [Transition(Opened, |rows| + |OpenedRows(rows, system, before, at)|, New(system, f, at))]
  {
    assert Init(before + [f]) == before;
    forall i | 0 <= i < |rows|
      ensures TouchedIn(rows[i], system, before + [f], at) == TouchedIn(rows[i], system, before, at)
    {
      assert !Owns(rows[i], system, f.fingerprint);
    }
  }

  lemma UpdateStep(rows: seq<Incident>, system: string, before: seq<Finding>, f: Finding, at: int)
    requires UniqueActive(rows) && Find(rows, system, f.fingerprint).Some?
    ensures OpenedRows(rows, system, before + [f], at) == OpenedRows(rows, system, before, at)
    ensures
      var i := Find(rows, system, f.fingerprint).value;
      var touched := Touched(rows, system, before, at);
      && Touched(rows, system, before + [f], at) == touched[i := Observed(touched[i], f, at)]
      && FindingTransitions(rows, system, before + [f], at)
         == FindingTransitions(rows, system, before, at)
            + if rows[i].finding.shown != f.shown then [Transition(Updated, i, Observed(touched[i], f, at))] else []
  {
  }

  // ----- When the index refuses a scan -----

  lemma {:induction false} OpenedMentions(rows: seq<Incident>, system: string, findings: seq<Finding>, at: int, fingerprint: string)
    ensures ActiveSomewhere(OpenedRows(rows, system, findings, at), fingerprint)
            <==> Mentions(findings, fingerprint) && Find(rows, system, fingerprint).None?
  {
    if findings != [] {
      var f := Last(findings);
      OpenedMentions(rows, system, Init(findings), at, fingerprint);
      assert findings == Init(findings) + [f];
      MentionsSnoc(Init(findings), f, fingerprint);
      if Find(rows, system, f.fingerprint).None? {
        SomewhereSnoc(OpenedRows(rows, system, Init(findings), at), New(system, f, at), fingerprint);
      } else {
        assert OpenedRows(rows, system, findings, at) == OpenedRows(rows, system, Init(findings), at);
      }
    }
  }

  lemma MentionsSnoc(findings: seq<Finding>, f: Finding, fingerprint: string)
    ensures Mentions(findings + [f], fingerprint) <==> Mentions(findings, fingerprint) || f.fingerprint == fingerprint
  {
    if Mentions(findings, fingerprint) {
      var j :| 0 <= j < |findings| && findings[j].fingerprint == fingerprint;
      assert (findings + [f])[j].fingerprint == fingerprint;
    } else if f.fingerprint == fingerprint {
      assert (findings + [f])[|findings|] == f;
    }
  }

  lemma SomewhereSnoc(rows: seq<Incident>, row: Incident, fingerprint: string)
    ensures ActiveSomewhere(rows + [row], fingerprint)
            <==> ActiveSomewhere(rows, fingerprint) || (row.active && row.finding.fingerprint == fingerprint)
  {
    if ActiveSomewhere(rows, fingerprint) {
      var i :| 0 <= i < |rows| && rows[i].active && rows[i].finding.fingerprint == fingerprint;
      assert (rows + [row])[i] == rows[i];
    } else if row.active && row.finding.fingerprint == fingerprint {
      assert (rows + [row])[|rows|] == row;
    }
  }

  lemma SomewhereEither(a: seq<Incident>, b: seq<Incident>, fingerprint: string)
    ensures ActiveSomewhere(a + b, fingerprint) <==> ActiveSomewhere(a, fingerprint) || ActiveSomewhere(b, fingerprint)
  {
    if ActiveSomewhere(a, fingerprint) {
      var i :| 0 <= i < |a| && a[i].active && a[i].finding.fingerprint == fingerprint;
      assert (a + b)[i] == a[i];
    } else if ActiveSomewhere(b, fingerprint) {
      var i :| 0 <= i < |b| && b[i].active && b[i].finding.fingerprint == fingerprint;
      assert (a + b)[|a| + i] == b[i];
    }
  }

  lemma TouchedSomewhere(rows: seq<Incident>, system: string, findings: seq<Finding>, at: int, fingerprint: string)
    ensures ActiveSomewhere(Touched(rows, system, findings, at), fingerprint) <==> ActiveSomewhere(rows, fingerprint)
  {
    var touched := Touched(rows, system, findings, at);
    assert forall i :: 0 <= i < |rows| ==>
      touched[i].active == rows[i].active && touched[i].finding.fingerprint == rows[i].finding.fingerprint;
  }

  /** What the index sees in the middle of a scan. */
  lemma ClashExactly(rows: seq<Incident>, system: string, before: seq<Finding>, f: Finding, at: int)
    ensures Find(rows, system, f.fingerprint).None? ==>
      (ActiveSomewhere(Touched(rows, system, before, at) + OpenedRows(rows, system, before, at), f.fingerprint)
       <==> ActiveSomewhere(rows, f.fingerprint) || Mentions(before, f.fingerprint))
  {
    SomewhereEither(Touched(rows, system, before, at), OpenedRows(rows, system, before, at), f.fingerprint);
    TouchedSomewhere(rows, system, before, at, f.fingerprint);
    OpenedMentions(rows, system, before, at, f.fingerprint);
  }

  lemma AcceptedSnoc(rows: seq<Incident>, system: string, before: seq<Finding>, f: Finding)
    ensures Accepted(rows, system, before + [f]) <==>
      && Accepted(rows, system, before)
      && (Find(rows, system, f.fingerprint).None? ==>
            !ActiveSomewhere(rows, f.fingerprint) && !Mentions(before, f.fingerprint))
  {
    var all := before + [f];
    assert forall j :: 0 <= j < |before| ==> all[j] == before[j] && all[..j] == before[..j];
    assert all[|before|] == f && all[..|before|] == before;
  }

  lemma RefusedWhole(rows: seq<Incident>, system: string, findings: seq<Finding>, n: nat)
    requires n <= |findings| && !Accepted(rows, system, findings[..n])
    ensures !Accepted(rows, system, findings)
  {
    var part := findings[..n];
    var j :| 0 <= j < n && Find(rows, system, part[j].fingerprint).None?
             && !(!ActiveSomewhere(rows, part[j].fingerprint) && !Mentions(part[..j], part[j].fingerprint));
    assert part[..j] == findings[..j] && part[j] == findings[j];
  }

  // ----- What a scan keeps -----

  lemma {:induction false} OpenedUnique(rows: seq<Incident>, system: string, findings: seq<Finding>, at: int)
    requires Accepted(rows, system, findings)
    ensures UniqueActive(OpenedRows(rows, system, findings, at))
  {
    if findings != [] {
      var f := Last(findings);
      assert findings == Init(findings) + [f];
      AcceptedSnoc(rows, system, Init(findings), f);
      OpenedUnique(rows, system, Init(findings), at);
      OpenedMentions(rows, system, Init(findings), at, f.fingerprint);
    }
  }

  lemma FinalKeepsUnique(rows: seq<Incident>, scan: Scan)
    requires UniqueActive(rows) && Accepted(rows, scan.system, scan.findings)
    ensures UniqueActive(Final(rows, scan))
  {
    var added, final := OpenedRows(rows, scan.system, scan.findings, scan.at), Final(rows, scan);
    OpenedUnique(rows, scan.system, scan.findings, scan.at);
    forall i, j | 0 <= i < j < |final| && final[i].active && final[j].active
      ensures final[i].finding.fingerprint != final[j].finding.fingerprint
    {
      if i < |rows| <= j {
        OpenedIsNew(rows, scan.system, scan.findings, scan.at, j - |rows|);
      }
    }
  }

  lemma {:induction false} OpenedIsNew(rows: seq<Incident>, system: string, findings: seq<Finding>, at: int, k: nat)
    requires Accepted(rows, system, findings) && k < |OpenedRows(rows, system, findings, at)|
    ensures !ActiveSomewhere(rows, OpenedRows(rows, system, findings, at)[k].finding.fingerprint)
  {
    var f := Last(findings);
    assert findings == Init(findings) + [f];
    AcceptedSnoc(rows, system, Init(findings), f);
    if k < |OpenedRows(rows, system, Init(findings), at)| {
      OpenedIsNew(rows, system, Init(findings), at, k);
    }
  }
}
