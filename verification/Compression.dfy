/**
 * The compressed forms of persistence/storage_v2.py for one device and register: state runs, and
 * rollups per time bucket. Both are rebuilt from the raw rows before a cutoff.
 */
module Compression {
  import opened Text
  import opened Grouping
  import opened Sequences

  /** One raw text value; rows come ordered by time, then by sample. */
  datatype Sample = Sample(ms: int, text: string)

  ghost predicate Ordered(rows: seq<Sample>) {
    forall i, j :: 0 <= i < j < |rows| ==> rows[i].ms <= rows[j].ms
  }

  // ----- The window functions -----

  /** Whether a row's text differs from the previous row's; the first row always counts. */
  predicate Changed(rows: seq<Sample>, i: nat)
    requires i < |rows|
  {
    i == 0 || rows[i - 1].text != rows[i].text
  }

  function CountChanged(rows: seq<Sample>, n: nat, ms: int): (c: nat)
    requires n <= |rows|
  {
    if n == 0 then 0
    else CountChanged(rows, n - 1, ms) + if rows[n - 1].ms <= ms && Changed(rows, n - 1) then 1 else 0
  }

  /** The running sum over rows ordered by time alone: rows of the same time are peers, and all count. */
  function RunId(rows: seq<Sample>, i: nat): nat
    requires i < |rows|
  {
    CountChanged(rows, |rows|, rows[i].ms)
  }

  function Tagged(rows: seq<Sample>): (s: seq<Keyed<Sample>>)
    ensures |s| == |rows|
  {
    seq(|rows|, i requires 0 <= i < |rows| => Keyed(RunId(rows, i), rows[i]))
  }

  // ----- State runs -----

  datatype StateRun = StateRun(started: int, ended: int, value: string, count: nat)

  function MaxText(items: seq<Sample>): string
    requires items != []
  {
    if |items| == 1 then items[0].text
    else
      var m := MaxText(Init(items));
      if TextBefore(m, Last(items).text) then Last(items).text else m
  }

  function RunOf(items: seq<Sample>): StateRun
    requires items != []
  {
    StateRun(items[0].ms, Last(items).ms, MaxText(items), |items|)
  }

  function RunsOf(gs: seq<Group<Sample>>): (runs: seq<StateRun>)
    requires forall g :: g in gs ==> g.items != []
    ensures |runs| == |gs|
  {
    seq(|gs|, i requires 0 <= i < |gs| => RunOf(gs[i].items))
  }

  function StateRuns(rows: seq<Sample>): seq<StateRun> {
    GroupsPartition(Tagged(rows));
    RunsOf(GroupBy(Tagged(rows)))
  }

  function Repeat(value: string, n: nat): seq<string> {
    seq(n, i => value)
  }

  function Expand(runs: seq<StateRun>): seq<string> {
    if runs == [] then [] else Expand(Init(runs)) + Repeat(Last(runs).value, Last(runs).count)
  }

  function Texts(rows: seq<Sample>): (t: seq<string>)
    ensures |t| == |rows| && forall i :: 0 <= i < |t| ==> t[i] == rows[i].text
  {
    seq(|rows|, i requires 0 <= i < |rows| => rows[i].text)
  }

  /** Rows of the same time have the same text; in particular when timestamps strictly increase. */
  ghost predicate NoSplitTies(rows: seq<Sample>) {
    forall i :: 0 <= i < |rows| - 1 && rows[i].ms == rows[i + 1].ms ==> rows[i].text == rows[i + 1].text
  }

  ghost predicate Constant(items: seq<Sample>) {
    items != [] && forall i :: 0 <= i < |items| ==> items[i].text == MaxText(items)
  }

  lemma {:induction false} SameTextIsMax(items: seq<Sample>, t: string)
    requires items != [] && forall i :: 0 <= i < |items| ==> items[i].text == t
    ensures MaxText(items) == t
  {
    if |items| > 1 {
      SameTextIsMax(Init(items), t);
    }
  }

  /** Expansion reproduces the grouped texts exactly when every group has a single text. */
  lemma {:induction false} ExpandExactly(gs: seq<Group<Sample>>)
    requires forall g :: g in gs ==> g.items != []
    ensures |Expand(RunsOf(gs))| == |Flatten(gs)|
    ensures Expand(RunsOf(gs)) == Texts(Flatten(gs)) <==> forall g :: g in gs ==> Constant(g.items)
  {
    if gs != [] {
      ExpandExactly(Init(gs));
      ExpandLast(gs);
      assert forall h :: h in gs <==> h in Init(gs) || h == Last(gs);
    }
  }

  lemma ExpandLast(gs: seq<Group<Sample>>)
    requires gs != [] && forall g :: g in gs ==> g.items != []
    requires |Expand(RunsOf(Init(gs)))| == |Flatten(Init(gs))|
    ensures |Expand(RunsOf(gs))| == |Flatten(gs)|
    ensures Expand(RunsOf(gs)) == Texts(Flatten(gs)) <==>
            Expand(RunsOf(Init(gs))) == Texts(Flatten(Init(gs))) && Constant(Last(gs).items)
  {
    hide Constant, MaxText;
    var g := Last(gs);
    var before, block := Expand(RunsOf(Init(gs))), Repeat(MaxText(g.items), |g.items|);
    assert RunsOf(Init(gs)) == Init(RunsOf(gs));
    assert Expand(RunsOf(gs)) == before + block;
    assert Texts(Flatten(gs)) == Texts(Flatten(Init(gs))) + Texts(g.items);
    SplitEqual(before, block, Texts(Flatten(Init(gs))), Texts(g.items));
    BlockEqual(g.items);
  }

  lemma BlockEqual(items: seq<Sample>)
    requires items != []
    ensures Repeat(MaxText(items), |items|) == Texts(items) <==> Constant(items)
  {
  }

  lemma SplitEqual<T>(a: seq<T>, b: seq<T>, c: seq<T>, d: seq<T>)
    requires |a| == |c| && |b| == |d|
    ensures a + b == c + d <==> a == c && b == d
  {
    if a + b == c + d {
      assert a == (a + b)[..|a|] && c == (c + d)[..|c|];
      assert b == (a + b)[|a|..] && d == (c + d)[|c|..];
    }
  }

  lemma {:induction false} CountMonotone(rows: seq<Sample>, n: nat, a: int, b: int)
    requires n <= |rows| && a <= b
    ensures CountChanged(rows, n, a) <= CountChanged(rows, n, b)
  {
    if n > 0 {
      CountMonotone(rows, n - 1, a, b);
    }
  }

  lemma TagsAscend(rows: seq<Sample>)
    requires Ordered(rows)
    ensures Ascending(Tagged(rows))
  {
    forall i, j | 0 <= i < j < |rows|
      ensures Tagged(rows)[i].key <= Tagged(rows)[j].key
    {
      CountMonotone(rows, |rows|, rows[i].ms, rows[j].ms);
    }
  }

  /** How many of the first rows changed the text, whatever their times. */
  function Changes(rows: seq<Sample>, n: nat): (c: nat)
    requires n <= |rows|
    ensures n > 0 ==> c > 0
  {
    if n == 0 then 0 else Changes(rows, n - 1) + if Changed(rows, n - 1) then 1 else 0
  }

  /** Without split ties a row's run id only depends on the rows up to it. */
  lemma {:induction false} RunIdIsChanges(rows: seq<Sample>, i: nat, n: nat)
    requires Ordered(rows) && NoSplitTies(rows) && i < n <= |rows|
    ensures CountChanged(rows, n, rows[i].ms) == Changes(rows, i + 1)
    decreases n
  {
    if n == i + 1 {
      AllCounted(rows, n, rows[i].ms);
    } else {
      RunIdIsChanges(rows, i, n - 1);
      if rows[n - 1].ms <= rows[i].ms {
        assert rows[n - 2].ms == rows[n - 1].ms;
      }
    }
  }

  lemma {:induction false} AllCounted(rows: seq<Sample>, n: nat, ms: int)
    requires n <= |rows| && forall j :: 0 <= j < n ==> rows[j].ms <= ms
    ensures CountChanged(rows, n, ms) == Changes(rows, n)
  {
    if n > 0 {
      AllCounted(rows, n - 1, ms);
    }
  }

  lemma {:induction false} SameRunSameText(rows: seq<Sample>, i: nat, j: nat)
    requires i <= j < |rows| && Changes(rows, i + 1) == Changes(rows, j + 1)
    ensures rows[i].text == rows[j].text
    decreases j
  {
    if i < j {
      ChangesMonotone(rows, i + 1, j);
      SameRunSameText(rows, i, j - 1);
    }
  }

  lemma {:induction false} ChangesMonotone(rows: seq<Sample>, m: nat, n: nat)
    requires m <= n <= |rows|
    ensures Changes(rows, m) <= Changes(rows, n)
    decreases n
  {
    if m < n {
      ChangesMonotone(rows, m, n - 1);
    }
  }

  lemma GroupsConstant(rows: seq<Sample>, g: Group<Sample>)
    requires Ordered(rows) && NoSplitTies(rows) && g.items == Select(Tagged(rows), g.key) && g.items != []
    ensures Constant(g.items)
  {
    var s := Tagged(rows);
    SelectedFrom(s, g.key, g.items[0]);
    var a :| 0 <= a < |s| && s[a] == Keyed(g.key, g.items[0]);
    forall k | 0 <= k < |g.items|
      ensures g.items[k].text == g.items[0].text
    {
      SelectedFrom(s, g.key, g.items[k]);
      var b :| 0 <= b < |s| && s[b] == Keyed(g.key, g.items[k]);
      RunIdIsChanges(rows, a, |rows|);
      RunIdIsChanges(rows, b, |rows|);
      SameRunSameText(rows, if a <= b then a else b, if a <= b then b else a);
    }
    SameTextIsMax(g.items, g.items[0].text);
  }

  lemma SplitTieGroup(rows: seq<Sample>, i: nat)
    requires i + 1 < |rows| && rows[i].ms == rows[i + 1].ms && rows[i].text != rows[i + 1].text
    requires Ordered(rows)
    ensures exists g :: g in GroupBy(Tagged(rows)) && !Constant(g.items)
  {
    var s := Tagged(rows);
    var gs := GroupBy(s);
    TagsAscend(rows);
    GroupsAreSelections(s);
    assert s[i].key == s[i + 1].key && HasKey(gs, s[i].key);
    var j :| 0 <= j < |gs| && gs[j].key == s[i].key;
    SelectedMember(s, i);
    SelectedMember(s, i + 1);
    TwoTexts(gs[j].items, rows[i], rows[i + 1]);
    assert gs[j] in gs;
  }

  lemma TwoTexts(items: seq<Sample>, a: Sample, b: Sample)
    requires a in items && b in items && a.text != b.text
    ensures !Constant(items)
  {
  }

  lemma ConstantGroups(rows: seq<Sample>)
    requires Ordered(rows)
    ensures NoSplitTies(rows) <==> forall g :: g in GroupBy(Tagged(rows)) ==> Constant(g.items)
  {
    if NoSplitTies(rows) {
      TagsAscend(rows);
      GroupsAreSelections(Tagged(rows));
      GroupsPartition(Tagged(rows));
      forall g | g in GroupBy(Tagged(rows))
        ensures Constant(g.items)
      {
        GroupsConstant(rows, g);
      }
    } else {
      var i :| 0 <= i < |rows| - 1 && rows[i].ms == rows[i + 1].ms && rows[i].text != rows[i + 1].text;
      SplitTieGroup(rows, i);
    }
  }

  /**
   * State runs lose nothing exactly when rows of the same time agree: expanding them then gives
   * back the text of every raw row, in order.
   */
  lemma RunsAreFaithfulExactly(rows: seq<Sample>)
    requires Ordered(rows)
    ensures Expand(StateRuns(rows)) == Texts(rows) <==> NoSplitTies(rows)
  {
    GroupsPartition(Tagged(rows));
    assert Items(Tagged(rows)) == rows;
    ExpandExactly(GroupBy(Tagged(rows)));
    ConstantGroups(rows);
  }

  /** Two rows of one time with different texts become one run of the greater text. */
  lemma TiedTextsCollapse()
    ensures
      var rows := [Sample(0, "a"), Sample(0, "b")];
      StateRuns(rows) == [StateRun(0, 0, "b", 2)] && Expand(StateRuns(rows)) != Texts(rows)
  {
    var rows := [Sample(0, "a"), Sample(0, "b")];
    RunsAreFaithfulExactly(rows);
    assert rows[0].text != rows[1].text && !NoSplitTies(rows);
    var s := Tagged(rows);
    assert s[0].key == s[1].key && s == [Keyed(s[0].key, rows[0]), Keyed(s[0].key, rows[1])];
    PairGroups(s[0].key, rows[0], rows[1]);
    assert Init(rows) == [rows[0]];
    assert TextBefore("a", "b");
    assert RunOf(rows) == StateRun(0, 0, "b", 2);
    assert [rows[0], rows[1]] == rows;
  }

  lemma PairGroups(k: int, a: Sample, b: Sample)
    ensures GroupBy([Keyed(k, a), Keyed(k, b)]) == [Group(k, [a, b])]
  {
    var s := [Keyed(k, a), Keyed(k, b)];
    assert Init(s) == [Keyed(k, a)] && Init([Keyed(k, a)]) == [];
    assert GroupBy([Keyed(k, a)]) == [Group(k, [a])];
    assert Init([Group(k, [a])]) == [] && [a] + [b] == [a, b];
  }

  /** Neighbouring runs differ in value, so no run could have been longer. */
  lemma AdjacentRunsDiffer(rows: seq<Sample>, j: nat)
    requires Ordered(rows) && NoSplitTies(rows) && j + 1 < |StateRuns(rows)|
    ensures StateRuns(rows)[j].value != StateRuns(rows)[j + 1].value
    ensures StateRuns(rows)[j].ended < StateRuns(rows)[j + 1].started
  {
    hide Constant, RunId, CountChanged, NoSplitTies, MaxText, Tagged, GroupBy;
    var gs := GroupBy(Tagged(rows));
    TagsAscend(rows);
    GroupsAreSelections(Tagged(rows));
    GroupsPartition(Tagged(rows));
    ConstantGroups(rows);
    assert gs[j] in gs && gs[j + 1] in gs;
    Boundary(rows, gs, j);
  }

  /** The last row of one group directly precedes the first row of the next. */
  lemma Boundary(rows: seq<Sample>, gs: seq<Group<Sample>>, j: nat)
    requires Ordered(rows) && NoSplitTies(rows) && gs == GroupBy(Tagged(rows)) && j + 1 < |gs|
    requires StrictlyAscending(gs) && forall g :: g in gs ==> g.items != [] && Constant(g.items)
    ensures MaxText(gs[j].items) != MaxText(gs[j + 1].items)
    ensures Last(gs[j].items).ms < gs[j + 1].items[0].ms
  {
    var s := Tagged(rows);
    var i := BoundaryIndex(s, j);
    assert s[i].item == Last(gs[j].items) && s[i + 1].item == gs[j + 1].items[0];
    RunIdIsChanges(rows, i, |rows|);
    RunIdIsChanges(rows, i + 1, |rows|);
    assert Last(gs[j].items) in gs[j].items;
  }

  ghost predicate AtBoundary(s: seq<Keyed<Sample>>, g: Group<Sample>, h: Group<Sample>, i: nat) {
    && i + 1 < |s| && s[i].key == g.key && s[i + 1].key == h.key
    && g.items != [] && s[i].item == Last(g.items)
    && h.items != [] && s[i + 1].item == h.items[0]
  }

  lemma {:induction false} BoundaryIndex(s: seq<Keyed<Sample>>, j: nat) returns (i: nat)
    requires j + 1 < |GroupBy(s)|
    ensures AtBoundary(s, GroupBy(s)[j], GroupBy(s)[j + 1], i)
  {
    var before := GroupBy(Init(s));
    GroupsPartition(Init(s));
    if j + 1 < |before| {
      i := BoundaryIndex(Init(s), j);
      if j + 1 == |before| - 1 {
        LastGroupGrows(s);
      }
    } else {
      i := |s| - 2;
      LastItem(Init(s));
    }
  }

  lemma LastGroupGrows(s: seq<Keyed<Sample>>)
    requires s != [] && GroupBy(Init(s)) != []
    ensures var before := GroupBy(Init(s)); var n := |before| - 1;
      && GroupBy(s)[n].key == before[n].key && before[n].items <= GroupBy(s)[n].items
  {
  }

  lemma LastItem(s: seq<Keyed<Sample>>)
    requires s != []
    ensures GroupBy(s) != [] && Last(GroupBy(s)).key == Last(s).key
    ensures Last(GroupBy(s)).items != [] && Last(Last(GroupBy(s)).items) == Last(s).item
  {
  }

  // ----- Rollups -----

  datatype Rollup = Rollup(count: nat, first: string, last: string, transitions: nat)

  /** Bucket start, text, and whether the text differs from the previous row of the whole history. */
  datatype Windowed = Windowed(text: string, transition: bool)

  function Bucketed(rows: seq<Sample>, bucketMs: int): (s: seq<Keyed<Windowed>>)
    requires bucketMs > 0
    ensures |s| == |rows|
  {
    seq(|rows|, i requires 0 <= i < |rows| =>
      Keyed(rows[i].ms / bucketMs * bucketMs, Windowed(rows[i].text, i > 0 && Changed(rows, i))))
  }

  function Transitions(items: seq<Windowed>): nat {
    if items == [] then 0 else Transitions(Init(items)) + if Last(items).transition then 1 else 0
  }

  function RollupOf(items: seq<Windowed>): Rollup
    requires items != []
  {
    Rollup(|items|, items[0].text, Last(items).text, Transitions(items))
  }

  function TextRollups(rows: seq<Sample>, bucketMs: int): (r: seq<Group<Windowed>>)
    requires bucketMs > 0
    ensures forall g :: g in r ==> g.items != []
  {
    GroupsPartition(Bucketed(rows, bucketMs));
    GroupBy(Bucketed(rows, bucketMs))
  }

  function TotalCount(gs: seq<Group<Windowed>>): nat
    requires forall g :: g in gs ==> g.items != []
  {
    if gs == [] then 0 else TotalCount(Init(gs)) + RollupOf(Last(gs).items).count
  }

  function TotalTransitions(gs: seq<Group<Windowed>>): nat
    requires forall g :: g in gs ==> g.items != []
  {
    if gs == [] then 0 else TotalTransitions(Init(gs)) + RollupOf(Last(gs).items).transitions
  }

  lemma {:induction false} TransitionsAppend(a: seq<Windowed>, b: seq<Windowed>)
    ensures Transitions(a + b) == Transitions(a) + Transitions(b)
  {
    if b == [] {
      assert a + b == a;
    } else {
      assert Init(a + b) == a + Init(b);
      TransitionsAppend(a, Init(b));
    }
  }

  lemma {:induction false} TotalsFlatten(gs: seq<Group<Windowed>>)
    requires forall g :: g in gs ==> g.items != []
    ensures TotalCount(gs) == |Flatten(gs)|
    ensures TotalTransitions(gs) == Transitions(Flatten(gs))
  {
    if gs != [] {
      TotalsFlatten(Init(gs));
      TransitionsAppend(Flatten(Init(gs)), Last(gs).items);
    }
  }

  lemma {:induction false} TransitionsAreChanges(rows: seq<Sample>, items: seq<Windowed>, n: nat)
    requires n <= |rows| && |items| == n
    requires forall i :: 0 <= i < n ==> items[i].transition == (i > 0 && Changed(rows, i))
    ensures Transitions(items) + (if n > 0 then 1 else 0) == Changes(rows, n)
  {
    if n > 0 {
      TransitionsAreChanges(rows, Init(items), n - 1);
    }
  }

  lemma {:induction false} RunsAreChanges(rows: seq<Sample>, n: nat)
    requires Ordered(rows) && NoSplitTies(rows) && n <= |rows|
    ensures |GroupBy(Tagged(rows)[..n])| == Changes(rows, n)
  {
    if n > 0 {
      var s := Tagged(rows)[..n];
      assert Init(s) == Tagged(rows)[..n - 1];
      RunsAreChanges(rows, n - 1);
      GroupsPartition(Init(s));
      RunIdIsChanges(rows, n - 1, |rows|);
      if n > 1 {
        RunIdIsChanges(rows, n - 2, |rows|);
        assert Last(Init(s)) == Tagged(rows)[n - 2];
      }
    }
  }

  /** Rollups account for every raw row; their transitions are one fewer than the state runs. */
  lemma RollupTotals(rows: seq<Sample>, bucketMs: int)
    requires bucketMs > 0
    ensures TotalCount(TextRollups(rows, bucketMs)) == |rows|
    ensures Ordered(rows) && NoSplitTies(rows) && rows != [] ==>
      TotalTransitions(TextRollups(rows, bucketMs)) == |StateRuns(rows)| - 1
  {
    var s := Bucketed(rows, bucketMs);
    GroupsPartition(s);
    TotalsFlatten(TextRollups(rows, bucketMs));
    TransitionsAreChanges(rows, Items(s), |rows|);
    if Ordered(rows) && NoSplitTies(rows) {
      RunsAreChanges(rows, |rows|);
      assert Tagged(rows)[..|rows|] == Tagged(rows);
    }
  }

  /** Each bucket gets one rollup, holding every row of that bucket and no other. */
  lemma RollupsAreBuckets(rows: seq<Sample>, bucketMs: int)
    requires bucketMs > 0 && Ordered(rows)
    ensures StrictlyAscending(TextRollups(rows, bucketMs))
    ensures forall g :: g in TextRollups(rows, bucketMs) ==> g.items == Select(Bucketed(rows, bucketMs), g.key)
    ensures forall i :: 0 <= i < |rows| ==> HasKey(TextRollups(rows, bucketMs), rows[i].ms / bucketMs * bucketMs)
  {
    var s := Bucketed(rows, bucketMs);
    forall i, j | 0 <= i < j < |rows|
      ensures s[i].key <= s[j].key
    {
      BucketMonotone(rows[i].ms, rows[j].ms, bucketMs);
    }
    GroupsAreSelections(s);
    assert forall i :: 0 <= i < |rows| ==> s[i].key == rows[i].ms / bucketMs * bucketMs;
  }

  lemma BucketMonotone(a: int, b: int, m: int)
    requires m > 0 && a <= b
    ensures a / m * m <= b / m * m
    ensures a / m * m <= a
  {
    var p, q := a / m, b / m;
    assert a == p * m + a % m && b == q * m + b % m;
    if p > q {
      ScaleMonotone(q + 1, p, m);
    }
    ScaleMonotone(if p <= q then p else q, q, m);
  }

  lemma ScaleMonotone(p: int, q: int, m: int)
    requires p <= q && m > 0
    ensures p * m <= q * m
  {
    assert (q - p) * m >= 0;
  }
}
