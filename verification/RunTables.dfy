/** The table of state runs of one device and register, keyed by the time a run started. */
module RunTables {
  import opened Grouping
  import opened Compression
  import opened RollupTables
  import opened Sequences

  function RunMap(runs: seq<StateRun>): map<int, StateRun> {
    if runs == [] then map[] else RunMap(Init(runs))[Last(runs).started := Last(runs)]
  }

  /** What a rebuild makes of the table: runs from the cutoff on are kept, the others come from the raw rows. */
  function RebuiltRuns(table: map<int, StateRun>, rows: seq<Sample>, cutoff: int): map<int, StateRun> {
    Kept(table, cutoff) + RunMap(StateRuns(SamplesBefore(rows, cutoff)))
  }

  /** The row a run starts with. */
  lemma StartRow(rows: seq<Sample>, j: nat) returns (i: nat)
    requires Ordered(rows) && j < |GroupBy(Tagged(rows))|
    ensures j < |StateRuns(rows)| && i < |rows|
    ensures rows[i].ms == StateRuns(rows)[j].started && RunId(rows, i) == GroupBy(Tagged(rows))[j].key
  {
    hide RunId, GroupBy;
    var s := Tagged(rows);
    var g: Group<Sample> := GroupBy(s)[j];
    TagsAscend(rows);
    GroupsAreSelections(s);
    GroupsPartition(s);
    assert g in GroupBy(s);
    SelectedFrom(s, g.key, g.items[0]);
    i :| 0 <= i < |s| && s[i] == Keyed(g.key, g.items[0]);
  }

  /** The row a run ends with. */
  lemma EndRow(rows: seq<Sample>, j: nat) returns (i: nat)
    requires Ordered(rows) && j < |GroupBy(Tagged(rows))|
    ensures j < |StateRuns(rows)| && i < |rows|
    ensures rows[i].ms == StateRuns(rows)[j].ended && RunId(rows, i) == GroupBy(Tagged(rows))[j].key
  {
    hide RunId, GroupBy;
    var s := Tagged(rows);
    var g: Group<Sample> := GroupBy(s)[j];
    TagsAscend(rows);
    GroupsAreSelections(s);
    GroupsPartition(s);
    assert g in GroupBy(s);
    SelectedFrom(s, g.key, Last(g.items));
    i :| 0 <= i < |s| && s[i] == Keyed(g.key, Last(g.items));
  }

  lemma {:induction false} SelectInOrder(s: seq<Keyed<Sample>>, key: int, x: Sample)
    requires x in Select(s, key) && forall i, j :: 0 <= i < j < |s| ==> s[i].item.ms <= s[j].item.ms
    ensures Select(s, key)[0].ms <= x.ms <= Last(Select(s, key)).ms
  {
    var n := |s| - 1;
    if Last(s).key == key {
      forall y | y in Select(Init(s), key)
        ensures y.ms <= s[n].item.ms
      {
        SelectedFrom(Init(s), key, y);
        var i :| 0 <= i < |Init(s)| && Init(s)[i] == Keyed(key, y);
        assert s[i].item.ms <= s[n].item.ms;
      }
      if Select(Init(s), key) != [] {
        var y := Select(Init(s), key)[0];
        assert y in Select(Init(s), key);
        if x in Select(Init(s), key) {
          SelectInOrder(Init(s), key, x);
        }
      }
    } else {
      SelectInOrder(Init(s), key, x);
    }
  }

  /** Every row lies in the run that begins and ends with rows of its own. */
  lemma EveryRowInARun(rows: seq<Sample>, i: nat) returns (j: nat)
    requires Ordered(rows) && i < |rows|
    ensures j < |StateRuns(rows)| && StateRuns(rows)[j].started <= rows[i].ms <= StateRuns(rows)[j].ended
    ensures exists a :: 0 <= a < |rows| && rows[a].ms == StateRuns(rows)[j].started
    ensures exists b :: 0 <= b < |rows| && rows[b].ms == StateRuns(rows)[j].ended
  {
    hide RunId, GroupBy;
    var s := Tagged(rows);
    TagsAscend(rows);
    GroupsAreSelections(s);
    GroupsPartition(s);
    var gs: seq<Group<Sample>> := GroupBy(s);
    assert HasKey(gs, s[i].key);
    j :| 0 <= j < |gs| && gs[j].key == s[i].key;
    SelectedMember(s, i);
    SelectInOrder(s, s[i].key, rows[i]);
    var a := StartRow(rows, j);
    var b := EndRow(rows, j);
    assert gs[j].items == Select(s, s[i].key);
  }

  /** Runs start at different times, so inserting them never violates the primary key. */
  lemma StartsAscend(rows: seq<Sample>, a: nat, b: nat)
    requires Ordered(rows) && a < b < |StateRuns(rows)|
    ensures StateRuns(rows)[a].started < StateRuns(rows)[b].started
  {
    TagsAscend(rows);
    GroupsAreSelections(Tagged(rows));
    var i := StartRow(rows, a);
    var j := StartRow(rows, b);
    if rows[j].ms <= rows[i].ms {
      CountMonotone(rows, |rows|, rows[j].ms, rows[i].ms);
    }
  }

  ghost predicate StartsRun(rows: seq<Sample>, k: int) {
    exists j :: 0 <= j < |StateRuns(rows)| && StateRuns(rows)[j].started == k
  }

  /** Some row of time `k` differs from the row before it, or has none before it. */
  ghost predicate ChangesAt(rows: seq<Sample>, k: int) {
    exists i :: 0 <= i < |rows| && rows[i].ms == k && Changed(rows, i)
  }

  ghost predicate ChangedWithin(rows: seq<Sample>, n: nat, a: int, b: int)
    requires n <= |rows|
  {
    exists i :: 0 <= i < n && a < rows[i].ms <= b && Changed(rows, i)
  }

  /** The running sum grows between two times exactly when a row changes between them. */
  lemma {:induction false} CountGrows(rows: seq<Sample>, n: nat, a: int, b: int)
    requires n <= |rows| && a <= b
    ensures CountChanged(rows, n, a) <= CountChanged(rows, n, b)
    ensures CountChanged(rows, n, a) < CountChanged(rows, n, b) <==> ChangedWithin(rows, n, a, b)
  {
    if n > 0 {
      CountGrows(rows, n - 1, a, b);
    }
  }

  lemma BeginsIsChange(rows: seq<Sample>, i: nat)
    requires Ordered(rows) && i < |rows|
    ensures Begins(Tagged(rows), i) <==> i == 0 || ChangedWithin(rows, |rows|, rows[i - 1].ms, rows[i].ms)
  {
    if i > 0 {
      CountGrows(rows, |rows|, rows[i - 1].ms, rows[i].ms);
    }
  }

  lemma BeginChanges(rows: seq<Sample>, i: nat)
    requires Ordered(rows) && i < |rows| && Begins(Tagged(rows), i)
    ensures ChangesAt(rows, rows[i].ms)
  {
    BeginsIsChange(rows, i);
    if i == 0 {
      assert Changed(rows, 0);
    } else {
      var c :| 0 <= c < |rows| && rows[i - 1].ms < rows[c].ms <= rows[i].ms && Changed(rows, c);
      assert c >= i;
    }
  }

  lemma FirstOfTime(rows: seq<Sample>, c: nat) returns (i: nat)
    requires Ordered(rows) && c < |rows|
    ensures i <= c && rows[i].ms == rows[c].ms && (i == 0 || rows[i - 1].ms < rows[i].ms)
  {
    i := c;
    while i > 0 && rows[i - 1].ms == rows[c].ms
      invariant i <= c && rows[i].ms == rows[c].ms
    {
      i := i - 1;
    }
  }

  lemma ChangeBegins(rows: seq<Sample>, c: nat) returns (i: nat)
    requires Ordered(rows) && c < |rows| && Changed(rows, c)
    ensures i < |rows| && rows[i].ms == rows[c].ms && Begins(Tagged(rows), i)
  {
    i := FirstOfTime(rows, c);
    BeginsIsChange(rows, i);
  }

  /** Runs start exactly at the times where the text changes, also among rows of equal times. */
  lemma RunsStartAtChanges(rows: seq<Sample>, k: int)
    requires Ordered(rows)
    ensures StartsRun(rows, k) <==> ChangesAt(rows, k)
  {
    hide Changed, Begins, RunId, GroupBy;
    var s := Tagged(rows);
    var gs: seq<Group<Sample>> := GroupBy(s);
    GroupsPartition(s);
    assert forall j :: 0 <= j < |gs| ==> gs[j] in gs;
    if StartsRun(rows, k) {
      var j :| 0 <= j < |StateRuns(rows)| && StateRuns(rows)[j].started == k;
      FirstsBegin(s, gs[j].items[0]);
      assert FirstOf(gs, gs[j].items[0]);
      var i :| 0 <= i < |s| && s[i].item == gs[j].items[0] && Begins(s, i);
      BeginChanges(rows, i);
    }
    if ChangesAt(rows, k) {
      var c :| 0 <= c < |rows| && rows[c].ms == k && Changed(rows, c);
      var i := ChangeBegins(rows, c);
      assert s[i].item == rows[i] && BeginsAt(s, rows[i]);
      FirstsBegin(s, rows[i]);
      var j :| 0 <= j < |gs| && gs[j].items != [] && gs[j].items[0] == rows[i];
      assert StateRuns(rows)[j].started == k;
    }
  }

  lemma {:induction false} RunMapKeys(runs: seq<StateRun>, k: int)
    ensures k in RunMap(runs) <==> exists j :: 0 <= j < |runs| && runs[j].started == k
  {
    if runs != [] {
      RunMapKeys(Init(runs), k);
      assert forall j :: 0 <= j < |runs| - 1 ==> runs[j] == Init(runs)[j];
      assert runs[|runs| - 1] == Last(runs);
    }
  }

  /** Which runs there are after a rebuild: those from the cutoff on, and the changes among the raw rows before it. */
  lemma RebuiltRunsExactly(table: map<int, StateRun>, rows: seq<Sample>, cutoff: int, k: int)
    requires Ordered(rows)
    ensures k in RebuiltRuns(table, rows, cutoff) <==> (k in table && k >= cutoff) || ChangesAt(SamplesBefore(rows, cutoff), k)
  {
    BeforeOrdered(rows, cutoff);
    RunMapKeys(StateRuns(SamplesBefore(rows, cutoff)), k);
    RunsStartAtChanges(SamplesBefore(rows, cutoff), k);
  }

  /** A run is lost between two maintenance passes exactly when no change is left at its start. */
  lemma RunLostExactly(table: map<int, StateRun>, rows: seq<Sample>, cutoff: int, left: seq<Sample>, later: int, k: int)
    requires Ordered(rows) && Ordered(left)
    ensures
      var first := RebuiltRuns(table, rows, cutoff);
      k in first && k !in RebuiltRuns(first, left, later) <==>
        k in first && k < later && !ChangesAt(SamplesBefore(left, later), k)
  {
    hide RebuiltRuns;
    RebuiltRunsExactly(RebuiltRuns(table, rows, cutoff), left, later, k);
  }

  /** Once raw rows are pruned, a rebuild leaves no run from before; one that went on starts at the first row left. */
  lemma RunsForgetPruned(table: map<int, StateRun>, left: seq<Sample>, pruned: int, later: int)
    requires Ordered(left) && PrunedBefore([], left, pruned) && pruned <= later
    ensures forall k :: k in RebuiltRuns(table, left, later) ==> k >= pruned
    ensures SamplesBefore(left, later) != [] ==> SamplesBefore(left, later)[0].ms in RebuiltRuns(table, left, later)
  {
    hide RebuiltRuns;
    var r := SamplesBefore(left, later);
    forall k | k in RebuiltRuns(table, left, later)
      ensures k >= pruned
    {
      RebuiltRunsExactly(table, left, later, k);
      if ChangesAt(r, k) {
        var i :| 0 <= i < |r| && r[i].ms == k && Changed(r, i);
        assert r[i] in r;
      }
    }
    if r != [] {
      assert Changed(r, 0) && ChangesAt(r, r[0].ms);
      RebuiltRunsExactly(table, left, later, r[0].ms);
    }
  }

  class RunTable {
    var rows: map<int, StateRun>

    constructor ()
      ensures rows == map[]
    {
      rows := map[];
    }

    /** Deletes, then inserts the runs of the raw rows; no insert meets a row that is already there. */
    method BuildStateRuns(samples: seq<Sample>, cutoff: int)
      requires Ordered(samples)
      modifies this
      ensures rows == RebuiltRuns(old(rows), samples, cutoff)
    {
      var runs := StateRuns(SamplesBefore(samples, cutoff));
      rows := Kept(rows, cutoff);
      ghost var kept := rows;
      NothingInserted(kept);
      assert runs[..0] == [];
      hide StateRuns, SamplesBefore, RunMap;
      for i := 0 to |runs|
        invariant rows == kept + RunMap(runs[..i])
      {
        StartIsNew(samples, cutoff, i);
        OneMoreRun(kept, runs, i);
        assert runs[i].started !in rows;
        rows := rows[runs[i].started := runs[i]];
      }
      assert runs[..|runs|] == runs;
    }
  }

  lemma NothingInserted(kept: map<int, StateRun>)
    ensures kept + RunMap([]) == kept
  {
    assert kept + map[] == kept;
  }

  lemma OneMoreRun(kept: map<int, StateRun>, runs: seq<StateRun>, i: nat)
    requires i < |runs|
    ensures kept + RunMap(runs[..i + 1]) == (kept + RunMap(runs[..i]))[runs[i].started := runs[i]]
    ensures (runs[i].started in RunMap(runs[..i])) <==> exists j :: 0 <= j < i && runs[j].started == runs[i].started
  {
    assert Init(runs[..i + 1]) == runs[..i];
    RunMapKeys(runs[..i], runs[i].started);
  }

  lemma StartIsNew(samples: seq<Sample>, cutoff: int, i: nat)
    requires Ordered(samples) && i < |StateRuns(SamplesBefore(samples, cutoff))|
    ensures
      var runs := StateRuns(SamplesBefore(samples, cutoff));
      runs[i].started < cutoff && forall j :: 0 <= j < i ==> runs[j].started != runs[i].started
  {
    var r := SamplesBefore(samples, cutoff);
    BeforeOrdered(samples, cutoff);
    var n := StartRow(r, i);
    assert r[n] in r;
    hide StateRuns;
    forall j | 0 <= j < i
      ensures StateRuns(r)[j].started != StateRuns(r)[i].started
    {
      StartsAscend(r, j, i);
    }
  }
}
