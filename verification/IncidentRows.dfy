/** What one applied scan makes of every row, and which transitions it announces, said of the tables before and after. */
module IncidentRows {
  import opened Options
  import opened Incidents
  import opened IncidentRuns
  import opened Sequences

  // ----- Rows -----

  /** Finding `j` is the last with the fingerprint. */
  ghost predicate LastMention(findings: seq<Finding>, fingerprint: string, j: nat) {
    j < |findings| && findings[j].fingerprint == fingerprint
    && forall k :: j < k < |findings| ==> findings[k].fingerprint != fingerprint
  }

  lemma {:induction false} LastMentioned(findings: seq<Finding>, fingerprint: string) returns (j: nat)
    requires Mentions(findings, fingerprint)
    ensures LastMention(findings, fingerprint, j)
  {
    if Last(findings).fingerprint == fingerprint {
      j := |findings| - 1;
    } else {
      var i :| 0 <= i < |findings| && findings[i].fingerprint == fingerprint;
      assert Init(findings)[i].fingerprint == fingerprint;
      j := LastMentioned(Init(findings), fingerprint);
    }
  }

  lemma {:induction false} TouchShowsLast(row: Incident, findings: seq<Finding>, at: int, j: nat)
    requires LastMention(findings, row.finding.fingerprint, j)
    ensures var r := Touch(row, findings, at);
      && r.finding == row.finding.(shown := findings[j].shown, measured := findings[j].measured)
      && r.observedAt == at && r.updatedAt == at
  {
    TouchKeepsNames(row, Init(findings), at);
    if j < |findings| - 1 {
      TouchShowsLast(row, Init(findings), at, j);
    }
  }

  lemma {:induction false} TouchKeepsNames(row: Incident, findings: seq<Finding>, at: int)
    ensures var r := Touch(row, findings, at);
      r.finding == row.finding.(shown := r.finding.shown, measured := r.finding.measured)
  {
    if findings != [] {
      TouchKeepsNames(row, Init(findings), at);
    }
  }

  /**
   * Row by row: another site's and a resolved incident stay as they are; a reported one shows the
   * last report and counts all of them; an absent one is closed if its key was evaluated.
   */
  lemma RowAfterExactly(rows: seq<Incident>, scan: Scan, i: nat)
    requires i < |rows|
    ensures |Final(rows, scan)| >= |rows|
    ensures var row, r := rows[i], Final(rows, scan)[i];
      && (!row.active || row.system != scan.system ==> r == row)
      && (row.active && row.system == scan.system ==>
            && (forall j: nat :: LastMention(scan.findings, row.finding.fingerprint, j) ==>
                  r == row.(finding := row.finding.(shown := scan.findings[j].shown, measured := scan.findings[j].measured),
                            observedAt := scan.at, updatedAt := scan.at,
                            occurrences := row.occurrences + Seen(scan.findings, row.finding.fingerprint)))
            && (!Mentions(scan.findings, row.finding.fingerprint) ==>
                  r == if row.finding.key in scan.evaluated
                       then row.(active := false, resolvedAt := Some(scan.at), updatedAt := scan.at) else row))
  {
    var row := rows[i];
    if row.active && row.system == scan.system {
      forall j: nat | LastMention(scan.findings, row.finding.fingerprint, j)
        ensures Mentions(scan.findings, row.finding.fingerprint)
        ensures Final(rows, scan)[i]
          == row.(finding := row.finding.(shown := scan.findings[j].shown, measured := scan.findings[j].measured),
                  observedAt := scan.at, updatedAt := scan.at,
                  occurrences := row.occurrences + Seen(scan.findings, row.finding.fingerprint))
      {
        TouchShowsLast(row, scan.findings, scan.at, j);
      }
      if !Mentions(scan.findings, row.finding.fingerprint) {
        Untouched(row, scan.findings, scan.at);
      }
    }
  }

  /** The new rows are the findings that no row of the site owned, opened at the time of the scan. */
  lemma NewRowsExactly(rows: seq<Incident>, scan: Scan, row: Incident)
    ensures |Final(rows, scan)| >= |rows|
    ensures row in Final(rows, scan)[|rows|..] <==>
      exists j :: 0 <= j < |scan.findings| && Find(rows, scan.system, scan.findings[j].fingerprint).None?
        && row == Incident(scan.system, scan.findings[j], true, scan.at, scan.at, scan.at, None, 1)
  {
    var opened_ := OpenedRows(rows, scan.system, scan.findings, scan.at);
    assert Final(rows, scan)[|rows|..] == opened_;
    if row in opened_ {
      var k :| 0 <= k < |opened_| && opened_[k] == row;
      var j := OpenedIndex(rows, scan.system, scan.findings, scan.at, k);
    }
    if j :| 0 <= j < |scan.findings| && Find(rows, scan.system, scan.findings[j].fingerprint).None?
            && row == Incident(scan.system, scan.findings[j], true, scan.at, scan.at, scan.at, None, 1) {
      var k := AddedAt(rows, scan.system, scan.findings, scan.at, j);
    }
  }

  lemma {:induction false} OpenedIndex(rows: seq<Incident>, system: string, findings: seq<Finding>, at: int, k: nat) returns (j: nat)
    requires k < |OpenedRows(rows, system, findings, at)|
    ensures j < |findings| && Find(rows, system, findings[j].fingerprint).None?
    ensures OpenedRows(rows, system, findings, at)[k] == New(system, findings[j], at)
    ensures |OpenedRows(rows, system, findings[..j], at)| == k
  {
    var before := OpenedRows(rows, system, Init(findings), at);
    if k < |before| {
      j := OpenedIndex(rows, system, Init(findings), at, k);
      assert Init(findings)[..j] == findings[..j];
    } else {
      j := |findings| - 1;
      assert findings[..j] == Init(findings);
    }
  }

  lemma {:induction false} OpenedPrefix(rows: seq<Incident>, system: string, findings: seq<Finding>, at: int, j: nat)
    requires j < |findings| && Find(rows, system, findings[j].fingerprint).None?
    ensures var k := |OpenedRows(rows, system, findings[..j], at)|;
      k < |OpenedRows(rows, system, findings, at)| && OpenedRows(rows, system, findings, at)[k] == New(system, findings[j], at)
  {
    if j < |findings| - 1 {
      OpenedPrefix(rows, system, Init(findings), at, j);
      assert Init(findings)[..j] == findings[..j];
    } else {
      assert findings[..j] == Init(findings);
    }
  }

  // ----- Transitions -----

  /** The transition shows a row of the new table that is new, visibly changed, or no longer active. */
  ghost predicate Announces(rows: seq<Incident>, scan: Scan, t: Transition) {
    var final := Final(rows, scan);
    && t.uid < |final| && t.incident == final[t.uid]
    && match t.kind
       case Opened => t.uid >= |rows|
       case Updated => t.uid < |rows| && final[t.uid].active && rows[t.uid].finding.shown != final[t.uid].finding.shown
       case Resolved => t.uid < |rows| && rows[t.uid].active && !final[t.uid].active
  }

  /** The transition that finding `j` gives rise to. */
  ghost predicate FromFinding(rows: seq<Incident>, system: string, findings: seq<Finding>, at: int, j: nat, t: Transition) {
    && j < |findings|
    && match Find(rows, system, findings[j].fingerprint)
       case None => t == Transition(Opened, |rows| + |OpenedRows(rows, system, findings[..j], at)|, New(system, findings[j], at))
       case Some(i) =>
         rows[i].finding.shown != findings[j].shown && t == Transition(Updated, i, Touch(rows[i], findings[..j + 1], at))
  }

  lemma {:induction false} FindingsAnnounce(rows: seq<Incident>, system: string, findings: seq<Finding>, at: int, t: Transition)
    ensures t in FindingTransitions(rows, system, findings, at) <==> exists j :: FromFinding(rows, system, findings, at, j, t)
  {
    if findings != [] {
      var n, init := |findings| - 1, Init(findings);
      FindingsAnnounce(rows, system, init, at, t);
      assert findings[..n] == init && findings[..n + 1] == findings;
      forall j: nat | j < n
        ensures FromFinding(rows, system, init, at, j, t) <==> FromFinding(rows, system, findings, at, j, t)
      {
        assert init[..j] == findings[..j] && init[..j + 1] == findings[..j + 1];
      }
      hide Find, Touch, OpenedRows;
      LastAnnounces(rows, system, findings, at, t);
    }
  }

  lemma LastAnnounces(rows: seq<Incident>, system: string, findings: seq<Finding>, at: int, t: Transition)
    requires findings != [] && findings[..|findings| - 1] == Init(findings) && findings[..|findings|] == findings
    ensures t in FindingTransitions(rows, system, findings, at) <==>
      t in FindingTransitions(rows, system, Init(findings), at) || FromFinding(rows, system, findings, at, |findings| - 1, t)
  {
    hide Find, Touch, OpenedRows, New;
  }

  lemma {:induction false} ResolutionsAnnounce(rows: seq<Incident>, scan: Scan, n: nat, t: Transition)
    requires n <= |rows|
    ensures t in ResolvedTransitions(rows, scan, n) <==>
      t.uid < n && ToResolve(rows[t.uid], scan) && t == Transition(Resolved, t.uid, Closed(rows[t.uid], scan.at))
  {
    if n > 0 {
      ResolutionsAnnounce(rows, scan, n - 1, t);
    }
  }

  lemma {:induction false} TouchPrefix(row: Incident, findings: seq<Finding>, at: int, j: nat)
    requires LastMention(findings, row.finding.fingerprint, j)
    ensures Touch(row, findings[..j + 1], at) == Touch(row, findings, at)
  {
    if j < |findings| - 1 {
      TouchPrefix(row, Init(findings), at, j);
      assert Init(findings)[..j + 1] == findings[..j + 1];
    } else {
      assert findings[..j + 1] == findings;
    }
  }

  lemma FindingAnnounces(rows: seq<Incident>, scan: Scan, j: nat, t: Transition)
    requires UniqueActive(rows) && Distinct(scan.findings) && FromFinding(rows, scan.system, scan.findings, scan.at, j, t)
    ensures Announces(rows, scan, t)
  {
    var f := scan.findings[j];
    match Find(rows, scan.system, f.fingerprint)
    case None =>
      OpenedPrefix(rows, scan.system, scan.findings, scan.at, j);
    case Some(i) =>
      assert Mentions(scan.findings, f.fingerprint);
      assert LastMention(scan.findings, rows[i].finding.fingerprint, j);
      TouchPrefix(rows[i], scan.findings, scan.at, j);
      TouchShowsLast(rows[i], scan.findings, scan.at, j);
  }

  lemma OpeningIsAnnounced(rows: seq<Incident>, scan: Scan, t: Transition) returns (j: nat)
    requires Announces(rows, scan, t) && t.kind == Opened
    ensures FromFinding(rows, scan.system, scan.findings, scan.at, j, t)
  {
    j := OpenedIndex(rows, scan.system, scan.findings, scan.at, t.uid - |rows|);
  }

  lemma OwnerIsFound(rows: seq<Incident>, system: string, i: nat)
    requires UniqueActive(rows) && i < |rows| && rows[i].active && rows[i].system == system
    ensures Find(rows, system, rows[i].finding.fingerprint) == Some(i)
  {
    assert Owns(rows[i], system, rows[i].finding.fingerprint);
  }

  lemma UpdatedRow(rows: seq<Incident>, scan: Scan, i: nat) returns (j: nat)
    requires i < |rows| && Final(rows, scan)[i].active && rows[i].finding.shown != Final(rows, scan)[i].finding.shown
    ensures rows[i].active && rows[i].system == scan.system && LastMention(scan.findings, rows[i].finding.fingerprint, j)
    ensures Final(rows, scan)[i] == Touch(rows[i], scan.findings, scan.at)
    ensures Final(rows, scan)[i].finding.shown == scan.findings[j].shown
  {
    RowAfterExactly(rows, scan, i);
    j := LastMentioned(scan.findings, rows[i].finding.fingerprint);
    assert Mentions(scan.findings, rows[i].finding.fingerprint);
  }

  lemma UpdateIsAnnounced(rows: seq<Incident>, scan: Scan, t: Transition) returns (j: nat)
    requires UniqueActive(rows) && Announces(rows, scan, t) && t.kind == Updated
    ensures FromFinding(rows, scan.system, scan.findings, scan.at, j, t)
  {
    j := UpdatedRow(rows, scan, t.uid);
    hide Final, Touch, UniqueActive, Find;
    TouchPrefix(rows[t.uid], scan.findings, scan.at, j);
    OwnerIsFound(rows, scan.system, t.uid);
  }

  lemma ResolutionIsAnnounced(rows: seq<Incident>, scan: Scan, t: Transition)
    requires t.kind == Resolved
    ensures Announces(rows, scan, t) <==>
      t.uid < |rows| && ToResolve(rows[t.uid], scan) && t == Transition(Resolved, t.uid, Closed(rows[t.uid], scan.at))
  {
  }

  /**
   * An accepted scan whose findings are distinct announces exactly the rows that are new, shown
   * differently, or no longer active, each as the new table has it.
   */
  lemma TransitionsExactly(rows: seq<Incident>, scan: Scan, t: Transition)
    requires UniqueActive(rows) && Distinct(scan.findings)
    ensures t in Emitted(rows, scan) <==> Announces(rows, scan, t)
  {
    FindingsAnnounce(rows, scan.system, scan.findings, scan.at, t);
    ResolutionsAnnounce(rows, scan, |rows|, t);
    hide FindingTransitions, ResolvedTransitions, FromFinding, Announces, UniqueActive, Distinct, Find;
    if t.kind == Resolved {
      ResolutionIsAnnounced(rows, scan, t);
      NotResolvedByFinding(rows, scan, t);
    } else {
      if Announces(rows, scan, t) {
        if t.kind == Opened {
          var j := OpeningIsAnnounced(rows, scan, t);
        } else {
          var j := UpdateIsAnnounced(rows, scan, t);
        }
      }
      if j: nat :| FromFinding(rows, scan.system, scan.findings, scan.at, j, t) {
        FindingAnnounces(rows, scan, j, t);
      }
    }
  }

  lemma NotResolvedByFinding(rows: seq<Incident>, scan: Scan, t: Transition)
    requires t.kind == Resolved
    ensures forall j :: !FromFinding(rows, scan.system, scan.findings, scan.at, j, t)
  {
  }
}
