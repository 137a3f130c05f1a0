/**
 * Archiving and pruning of raw rows in persistence/storage_v2.py: every day's rows go to the file
 * of that day, a catalogue entry records the verified range, and pruning deletes verified ranges.
 */
module Archive {
  import opened Options

  const DAY_MS: int := 86_400_000

  type Day = int

  datatype Row = Row(id: nat, ms: int)

  /** One catalogue entry a day: the path is the day's, so there is never a second one. */
  datatype Entry = Entry(end: int, verified: bool)

  datatype Store = Store(raw: set<Row>, files: map<Day, set<Row>>, entries: map<Day, Entry>)

  function DayOf(ms: int): Day {
    ms / DAY_MS
  }

  function DayEnd(day: Day): int {
    (day + 1) * DAY_MS
  }

  predicate Midnight(ms: int) {
    ms % DAY_MS == 0
  }

  /** The rows of a day before `end`. */
  function RowsOf(raw: set<Row>, day: Day, end: int): set<Row> {
    set r | r in raw && DayOf(r.ms) == day && r.ms < end
  }

  predicate Verified(s: Store, day: Day) {
    day in s.entries && s.entries[day].verified
  }

  /** Row `r` is in the current contents of an archive file. */
  predicate Filed(s: Store, r: Row) {
    DayOf(r.ms) in s.files && r in s.files[DayOf(r.ms)]
  }

  predicate Kept(s: Store, r: Row) {
    r in s.raw || Filed(s, r)
  }

  // ----- The durable steps of a pass, which may be stopped between any two -----

  function Publish(s: Store, day: Day, content: set<Row>): Store {
    s.(files := s.files[day := content])
  }

  /** The upsert keeps the end of the range an existing entry was created with. */
  function Record(s: Store, day: Day, end: int, verified: bool): Store {
    s.(entries := s.entries[day := Entry(if day in s.entries then s.entries[day].end else end, verified)])
  }

  function PruneDay(s: Store, day: Day): Store {
    if Verified(s, day) then s.(raw := s.raw - RowsOf(s.raw, day, s.entries[day].end)) else s
  }

  datatype Pending = Pending(day: Day, end: int, snapshot: set<Row>, published: bool)

  datatype Machine = Machine(store: Store, pending: Option<Pending>, ever: set<Row>)

  datatype Event =
    | Insert(row: Row)
    | BeginRange(day: Day, cutoff: int)
    | PublishFile(content: set<Row>)
    | RecordEntry
    | Crash
    | PruneRange(day: Day)

  function Min(a: int, b: int): int {
    if a < b then a else b
  }

  /** A row inside a range that is verified, or being archived. */
  predicate Archived(m: Machine, ms: int) {
    || (Verified(m.store, DayOf(ms)) && ms < m.store.entries[DayOf(ms)].end)
    || (m.pending.Some? && m.pending.value.day == DayOf(ms) && ms < m.pending.value.end)
  }

  /**
   * One step of a run whose cutoffs are UTC midnights and whose inserts are never older than an
   * archived range. The published content may differ from what was written; recording compares it.
   */
  ghost predicate Step(m: Machine, e: Event, m': Machine) {
    match e
    case Insert(row) =>
      !Archived(m, row.ms) && m' == m.(store := m.store.(raw := m.store.raw + {row}), ever := m.ever + {row})
    case BeginRange(day, cutoff) =>
      var end := Min(DayEnd(day), cutoff);
      && m.pending.None? && Midnight(cutoff) && day * DAY_MS < cutoff
      && !(Verified(m.store, day) && m.store.entries[day].end == end)
      && m' == m.(pending := Some(Pending(day, end, RowsOf(m.store.raw, day, end), false)))
    case PublishFile(content) =>
      && m.pending.Some? && !m.pending.value.published
      && m' == m.(store := Publish(m.store, m.pending.value.day, content), pending := Some(m.pending.value.(published := true)))
    case RecordEntry =>
      && m.pending.Some? && m.pending.value.published && m.pending.value.day in m.store.files
      && m' == m.(store := Record(m.store, m.pending.value.day, m.pending.value.end,
                                  m.store.files[m.pending.value.day] == m.pending.value.snapshot), pending := None)
    case Crash =>
      m' == m.(pending := None)
    case PruneRange(day) =>
      Verified(m.store, day) && m' == m.(store := PruneDay(m.store, day))
  }

  /** Rows leave the raw table only for a verified file that holds them all. */
  ghost predicate Safe(m: Machine) {
    && (forall r :: r in m.ever ==> r in m.store.raw || (Verified(m.store, DayOf(r.ms)) && Filed(m.store, r)))
    && (forall d :: Verified(m.store, d) ==> m.store.entries[d].end == DayEnd(d))
    && (forall d :: d in m.store.entries ==> m.store.entries[d].end == DayEnd(d))
    && (forall r :: r in m.store.raw && Verified(m.store, DayOf(r.ms)) ==> Filed(m.store, r))
    && (m.pending.Some? ==>
          var p := m.pending.value;
          && p.end == DayEnd(p.day) && !Verified(m.store, p.day)
          && p.snapshot == RowsOf(m.store.raw, p.day, p.end))
  }

  lemma DayBounds(ms: int, day: Day)
    ensures DayOf(ms) == day <==> day * DAY_MS <= ms < DayEnd(day)
  {
  }

  lemma MidnightEnd(day: Day, cutoff: int)
    requires Midnight(cutoff) && day * DAY_MS < cutoff
    ensures DayEnd(day) <= cutoff
  {
    DayBounds(cutoff - 1, DayOf(cutoff - 1));
  }

  lemma StepKeepsSafe(m: Machine, e: Event, m': Machine)
    requires Safe(m) && Step(m, e, m')
    ensures Safe(m')
  {
    match e
    case Insert(row) =>
      DayBounds(row.ms, DayOf(row.ms));
      if m.pending.Some? {
        InsertKeepsSnapshot(m, row);
      }
    case BeginRange(day, cutoff) =>
      MidnightEnd(day, cutoff);
    case PublishFile(content) =>
    case RecordEntry =>
      if m.store.files[m.pending.value.day] == m.pending.value.snapshot {
        RecordedIsComplete(m);
      }
    case Crash =>
    case PruneRange(day) =>
      PruneIsFiled(m, day);
  }

  lemma InsertKeepsSnapshot(m: Machine, row: Row)
    requires Safe(m) && !Archived(m, row.ms) && m.pending.Some?
    ensures var p := m.pending.value; RowsOf(m.store.raw + {row}, p.day, p.end) == RowsOf(m.store.raw, p.day, p.end)
  {
  }

  lemma RecordedIsComplete(m: Machine)
    requires Safe(m) && m.pending.Some? && m.pending.value.day in m.store.files
    requires m.store.files[m.pending.value.day] == m.pending.value.snapshot
    ensures forall r :: r in m.store.raw && DayOf(r.ms) == m.pending.value.day ==> Filed(m.store, r)
  {
  }

  lemma PruneIsFiled(m: Machine, day: Day)
    requires Safe(m) && Verified(m.store, day)
    ensures forall r :: r in m.store.raw && r !in PruneDay(m.store, day).raw ==> Verified(m.store, DayOf(r.ms)) && Filed(m.store, r)
  {
  }

  ghost predicate Run(ms: seq<Machine>, es: seq<Event>) {
    |ms| == |es| + 1 && forall i :: 0 <= i < |es| ==> Step(ms[i], es[i], ms[i + 1])
  }

  /** Conservation over whole runs: every row ever stored is still raw, or in the file of its day. */
  lemma {:induction false} RowsAreConserved(ms: seq<Machine>, es: seq<Event>, i: nat)
    requires Run(ms, es) && i < |ms| && Safe(ms[0])
    ensures Safe(ms[i])
    ensures forall r :: r in ms[i].ever ==> Kept(ms[i].store, r)
  {
    if i > 0 {
      RowsAreConserved(ms, es, i - 1);
      StepKeepsSafe(ms[i - 1], es[i - 1], ms[i]);
    }
  }

  lemma FreshStoreIsSafe(rows: set<Row>)
    ensures Safe(Machine(Store(rows, map[], map[]), None, rows))
  {
  }

  // ----- A complete pass at any cutoff -----

  /** The branch that replaces a day's file: some rows, and no verified entry for the same range. */
  predicate Rewrites(s: Store, day: Day, cutoff: int) {
    var end := Min(DayEnd(day), cutoff);
    && end > day * DAY_MS
    && RowsOf(s.raw, day, end) != {}
    && !(Verified(s, day) && s.entries[day].end == end)
  }

  function ArchiveDay(s: Store, day: Day, cutoff: int): Store {
    if Rewrites(s, day, cutoff) then
      var end := Min(DayEnd(day), cutoff);
      Record(Publish(s, day, RowsOf(s.raw, day, end)), day, end, true)
    else s
  }

  function ArchiveDays(s: Store, first: Day, last: Day, cutoff: int): Store
    decreases last - first
  {
    if first > last then s else ArchiveDays(ArchiveDay(s, first, cutoff), first + 1, last, cutoff)
  }

  /** `first` and `last` are the days of the oldest and newest rows before the cutoff. */
  ghost predicate Bounds(s: Store, cutoff: int, first: Day, last: Day) {
    forall r :: r in s.raw && r.ms < cutoff ==> first <= DayOf(r.ms) <= last
  }

  function PruneRanges(s: Store, cutoff: int): Store {
    s.(raw := set r | r in s.raw &&
        !(Verified(s, DayOf(r.ms)) && s.entries[DayOf(r.ms)].end <= cutoff && r.ms < s.entries[DayOf(r.ms)].end))
  }

  class StorageManager {
    var raw: set<Row>
    var files: map<Day, set<Row>>
    var entries: map<Day, Entry>

    ghost function State(): Store
      reads this
    {
      Store(raw, files, entries)
    }

    constructor (rows: set<Row>)
      ensures State() == Store(rows, map[], map[])
    {
      raw, files, entries := rows, map[], map[];
    }

    /** Writes the day's rows to a file, puts it in place, and records the range it covers. */
    method ArchiveRange(day: Day, end: int) returns (rows: nat)
      modifies this`files, this`entries
      ensures State() ==
        if RowsOf(raw, day, end) == {} || (Verified(old(State()), day) && old(entries)[day].end == end) then old(State())
        else Record(Publish(old(State()), day, RowsOf(raw, day, end)), day, end, true)
    {
      if day in entries && entries[day].end == end && entries[day].verified {
        return 0;
      }
      var written := RowsOf(raw, day, end);
      if written == {} {
        return 0;
      }
      files := files[day := written];
      entries := entries[day := Entry(if day in entries then entries[day].end else end, true)];
      rows := |written|;
    }

    method ArchiveBefore(cutoff: int) returns (first: Day, last: Day)
      modifies this`files, this`entries
      ensures Bounds(old(State()), cutoff, first, last)
      ensures State() == ArchiveDays(old(State()), first, last, cutoff)
    {
      first, last := DayBoundsBefore(cutoff);
      var day := first;
      while day <= last
        invariant raw == old(raw) && (first <= last ==> first <= day <= last + 1)
        invariant ArchiveDays(State(), day, last, cutoff) == ArchiveDays(old(State()), first, last, cutoff)
        decreases last - day
      {
        var end := Min(DayEnd(day), cutoff);
        if end > day * DAY_MS {
          var rows := ArchiveRange(day, end);
        }
        day := day + 1;
      }
    }

    method DayBoundsBefore(cutoff: int) returns (first: Day, last: Day)
      ensures Bounds(State(), cutoff, first, last)
    {
      first, last := 0, -1;
      var found := false;
      var rest := raw;
      while rest != {}
        invariant rest <= raw
        invariant forall r :: r in raw - rest && r.ms < cutoff ==> found && first <= DayOf(r.ms) <= last
        decreases |rest|
      {
        var r :| r in rest;
        rest := rest - {r};
        if r.ms < cutoff {
          var day := DayOf(r.ms);
          first := if !found || day < first then day else first;
          last := if !found || last < day then day else last;
          found := true;
        }
      }
    }

    /** Deletes the raw rows of every verified range that ends by the cutoff, one range after the other. */
    method PruneVerifiedArchives(cutoff: int)
      modifies this`raw
      ensures State() == PruneRanges(old(State()), cutoff)
    {
      var rest := entries.Items;
      while rest != {}
        invariant rest <= entries.Items
        invariant raw == set r | r in old(raw) && !(Covered(r, cutoff) && (DayOf(r.ms), entries[DayOf(r.ms)]) !in rest)
        decreases |rest|
      {
        var range :| range in rest;
        rest := rest - {range};
        if range.1.verified && range.1.end <= cutoff {
          raw := raw - RowsOf(raw, range.0, range.1.end);
        }
      }
    }

    ghost predicate Covered(r: Row, cutoff: int)
      reads this`entries
    {
      var d := DayOf(r.ms);
      d in entries && entries[d].verified && entries[d].end <= cutoff && r.ms < entries[d].end
    }
  }

  /** What one day's file and entry become in a pass. */
  ghost predicate DayAfter(s: Store, s': Store, first: Day, last: Day, cutoff: int, d: Day) {
    var end := Min(DayEnd(d), cutoff);
    if first <= d <= last && Rewrites(s, d, cutoff) then
      && d in s'.files && s'.files[d] == RowsOf(s.raw, d, end)
      && d in s'.entries && s'.entries[d] == Entry(if d in s.entries then s.entries[d].end else end, true)
    else
      && (d in s'.files <==> d in s.files) && (d in s.files ==> s'.files[d] == s.files[d])
      && (d in s'.entries <==> d in s.entries) && (d in s.entries ==> s'.entries[d] == s.entries[d])
  }

  /** A pass treats each day on its own, and leaves the raw rows alone. */
  lemma {:induction false} PassByDay(s: Store, first: Day, last: Day, cutoff: int)
    ensures ArchiveDays(s, first, last, cutoff).raw == s.raw
    ensures forall d :: DayAfter(s, ArchiveDays(s, first, last, cutoff), first, last, cutoff, d)
    decreases last - first
  {
    if first <= last {
      var s1, s' := ArchiveDay(s, first, cutoff), ArchiveDays(s, first, last, cutoff);
      PassByDay(s1, first + 1, last, cutoff);
      forall d
        ensures DayAfter(s, s', first, last, cutoff, d)
      {
        assert DayAfter(s1, s', first + 1, last, cutoff, d);
      }
    }
  }

  // ----- When a pass loses rows -----

  ghost predicate Loses(s: Store, s': Store) {
    exists r :: Kept(s, r) && !Kept(s', r)
  }

  /**
   * When a pass conserves what earlier maintenance archived: it loses rows exactly when it rewrites
   * the file of a day that holds a row which is no longer raw.
   */
  lemma PassLosesExactly(s: Store, first: Day, last: Day, cutoff: int)
    requires Bounds(s, cutoff, first, last)
    ensures Loses(s, ArchiveDays(s, first, last, cutoff)) <==>
            exists r :: Filed(s, r) && r !in s.raw && Rewrites(s, DayOf(r.ms), cutoff)
  {
    var s' := ArchiveDays(s, first, last, cutoff);
    PassByDay(s, first, last, cutoff);
    if r :| Filed(s, r) && r !in s.raw && Rewrites(s, DayOf(r.ms), cutoff) {
      var d := DayOf(r.ms);
      var x :| x in RowsOf(s.raw, d, Min(DayEnd(d), cutoff));
      assert first <= d <= last;
      assert DayAfter(s, s', first, last, cutoff, d);
      assert Kept(s, r) && !Kept(s', r);
    }
    if Loses(s, s') {
      var r :| Kept(s, r) && !Kept(s', r);
      assert DayAfter(s, s', first, last, cutoff, DayOf(r.ms));
      assert Filed(s, r) && r !in s.raw && Rewrites(s, DayOf(r.ms), cutoff);
    }
  }

  // ----- Two maintenance passes -----

  /** The first maintenance of a store: archive everything before the cutoff, then prune it. */
  lemma FirstMaintenance(rows: set<Row>, first: Day, last: Day, c: int)
    requires Bounds(Store(rows, map[], map[]), c, first, last)
    ensures var s := PruneRanges(ArchiveDays(Store(rows, map[], map[]), first, last, c), c);
      && s.raw == (set r | r in rows && r.ms >= c)
      && (forall d :: d in s.files ==> s.files[d] == (set r | r in rows && DayOf(r.ms) == d && r.ms < c) && s.files[d] != {})
      && (forall r :: r in rows && r.ms < c ==> DayOf(r.ms) in s.files)
      && (forall d :: d in s.entries <==> d in s.files)
      && (forall d :: d in s.entries ==> s.entries[d] == Entry(Min(DayEnd(d), c), true))
  {
    var s0 := Store(rows, map[], map[]);
    var s1 := ArchiveDays(s0, first, last, c);
    PassByDay(s0, first, last, c);
    forall d | d in s1.files
      ensures RowsOf(rows, d, Min(DayEnd(d), c)) == (set r | r in rows && DayOf(r.ms) == d && r.ms < c)
      ensures s1.files[d] == RowsOf(rows, d, Min(DayEnd(d), c)) && s1.files[d] != {}
      ensures d in s1.entries && s1.entries[d] == Entry(Min(DayEnd(d), c), true)
    {
      assert DayAfter(s0, s1, first, last, c, d);
      forall r | r in rows && DayOf(r.ms) == d
        ensures r.ms < DayEnd(d)
      {
        DayBounds(r.ms, d);
      }
    }
    forall d | d in s1.entries
      ensures d in s1.files
    {
      assert DayAfter(s0, s1, first, last, c, d);
    }
    forall r | r in rows && r.ms < c
      ensures Verified(s1, DayOf(r.ms)) && DayOf(r.ms) in s1.files && r.ms < s1.entries[DayOf(r.ms)].end <= c
    {
      DayBounds(r.ms, DayOf(r.ms));
      assert r in RowsOf(rows, DayOf(r.ms), Min(DayEnd(DayOf(r.ms)), c));
      assert DayAfter(s0, s1, first, last, c, DayOf(r.ms));
    }
  }

  /**
   * Maintenance at cutoff `c`, new rows, then a pass at the later cutoff `c2`: rows are lost exactly
   * when `c` fell inside a day that has rows on both sides of it, the later ones before `c2`.
   */
  lemma SecondPassLosesExactly(rows: set<Row>, f1: Day, l1: Day, c: int, more: set<Row>, f2: Day, l2: Day, c2: int)
    requires Bounds(Store(rows, map[], map[]), c, f1, l1)
    requires forall r :: r in more ==> r.ms >= c && r !in rows
    requires var s := PruneRanges(ArchiveDays(Store(rows, map[], map[]), f1, l1, c), c);
      Bounds(s.(raw := s.raw + more), c2, f2, l2)
    ensures var s := PruneRanges(ArchiveDays(Store(rows, map[], map[]), f1, l1, c), c); var t := s.(raw := s.raw + more);
      Loses(t, ArchiveDays(t, f2, l2, c2)) <==>
      exists old_, new_ :: SplitDay(rows, c, more, c2, old_, new_)
  {
    FirstMaintenance(rows, f1, l1, c);
    var s := PruneRanges(ArchiveDays(Store(rows, map[], map[]), f1, l1, c), c);
    PassAfterMaintenance(rows, c, more, s.(raw := s.raw + more), f2, l2, c2);
  }

  /** The state after the first maintenance, with later rows added. */
  ghost predicate Maintained(rows: set<Row>, c: int, more: set<Row>, t: Store) {
    && t.raw == (set r | r in rows && r.ms >= c) + more
    && (forall r :: r in more ==> r.ms >= c && r !in rows)
    && (forall d :: d in t.files ==> t.files[d] == (set r | r in rows && DayOf(r.ms) == d && r.ms < c) && t.files[d] != {})
    && (forall r :: r in rows && r.ms < c ==> DayOf(r.ms) in t.files)
    && (forall d :: d in t.entries <==> d in t.files)
    && (forall d :: d in t.entries ==> t.entries[d] == Entry(Min(DayEnd(d), c), true))
  }

  ghost predicate SplitDay(rows: set<Row>, c: int, more: set<Row>, c2: int, old_: Row, new_: Row) {
    old_ in rows && new_ in rows + more && DayOf(old_.ms) == DayOf(new_.ms) && old_.ms < c <= new_.ms < c2
  }

  lemma PassAfterMaintenance(rows: set<Row>, c: int, more: set<Row>, t: Store, first: Day, last: Day, c2: int)
    requires Maintained(rows, c, more, t) && Bounds(t, c2, first, last)
    ensures Loses(t, ArchiveDays(t, first, last, c2)) <==> exists old_, new_ :: SplitDay(rows, c, more, c2, old_, new_)
  {
    PassLosesExactly(t, first, last, c2);
    if r :| Filed(t, r) && r !in t.raw && Rewrites(t, DayOf(r.ms), c2) {
      RewriteSplitsDay(rows, c, more, t, c2, DayOf(r.ms));
    }
    if old_, new_ :| SplitDay(rows, c, more, c2, old_, new_) {
      SplitDayRewrites(rows, c, more, t, c2, old_, new_);
      assert Filed(t, old_) && old_ !in t.raw;
    }
  }

  lemma RewriteSplitsDay(rows: set<Row>, c: int, more: set<Row>, t: Store, c2: int, d: Day)
    requires Maintained(rows, c, more, t) && d in t.files && Rewrites(t, d, c2)
    ensures exists old_, new_ :: SplitDay(rows, c, more, c2, old_, new_)
  {
    var old_ :| old_ in t.files[d];
    var new_ :| new_ in RowsOf(t.raw, d, Min(DayEnd(d), c2));
    assert SplitDay(rows, c, more, c2, old_, new_);
  }

  lemma SplitDayRewrites(rows: set<Row>, c: int, more: set<Row>, t: Store, c2: int, old_: Row, new_: Row)
    requires Maintained(rows, c, more, t) && SplitDay(rows, c, more, c2, old_, new_)
    ensures DayOf(old_.ms) in t.files && Rewrites(t, DayOf(old_.ms), c2)
  {
    var d := DayOf(old_.ms);
    DayBounds(old_.ms, d);
    DayBounds(new_.ms, d);
    assert new_ in RowsOf(t.raw, d, Min(DayEnd(d), c2));
  }

  /** At a midnight cutoff no day has rows on both sides, so the second pass never loses any. */
  lemma MidnightSplitsNoDay(c: int, a: int, b: int)
    requires Midnight(c) && a < c <= b
    ensures DayOf(a) != DayOf(b)
  {
    DayBounds(a, DayOf(a));
    MidnightEnd(DayOf(a), c);
    DayBounds(b, DayOf(a));
  }

  /** A pruning pass loses a row exactly when it was inserted into a verified range after its file was written. */
  lemma PruneLosesExactly(s: Store, cutoff: int)
    ensures Loses(s, PruneRanges(s, cutoff)) <==>
      exists r :: r in s.raw && Verified(s, DayOf(r.ms)) && r.ms < s.entries[DayOf(r.ms)].end <= cutoff && !Filed(s, r)
  {
    var s' := PruneRanges(s, cutoff);
    if r :| r in s.raw && Verified(s, DayOf(r.ms)) && r.ms < s.entries[DayOf(r.ms)].end <= cutoff && !Filed(s, r) {
      assert Kept(s, r) && !Kept(s', r);
    }
  }

  // ----- Stores that lose a row -----

  /** Two rows of one day with the first cutoff between them: the next pass loses the first. */
  lemma IntradayCutoffLoses()
    ensures
      var rows := {Row(0, 1000), Row(1, 3000)};
      var s := PruneRanges(ArchiveDays(Store(rows, map[], map[]), 0, 0, 2000), 2000);
      Loses(s, ArchiveDays(s, 0, 0, 4000))
  {
    var rows := {Row(0, 1000), Row(1, 3000)};
    var s := PruneRanges(ArchiveDays(Store(rows, map[], map[]), 0, 0, 2000), 2000);
    FirstMaintenance(rows, 0, 0, 2000);
    assert s.(raw := s.raw + {}) == s;
    SecondPassLosesExactly(rows, 0, 0, 2000, {}, 0, 0, 4000);
    assert SplitDay(rows, 2000, {}, 4000, Row(0, 1000), Row(1, 3000));
  }

  /** A row inserted below the end of a verified range is pruned without ever having been archived. */
  lemma LateInsertIsLost()
    ensures
      var archived := ArchiveDays(Store({Row(0, 1000)}, map[], map[]), 0, 0, DAY_MS);
      var s := archived.(raw := archived.raw + {Row(1, 500)});
      && Kept(s, Row(1, 500)) && !Kept(PruneRanges(s, DAY_MS), Row(1, 500))
      && Kept(PruneRanges(s, DAY_MS), Row(0, 1000))
  {
    var s0 := Store({Row(0, 1000)}, map[], map[]);
    var archived := ArchiveDays(s0, 0, 0, DAY_MS);
    PassByDay(s0, 0, 0, DAY_MS);
    assert DayAfter(s0, archived, 0, 0, DAY_MS, 0);
    assert Row(0, 1000) in RowsOf(s0.raw, 0, DAY_MS);
    assert DayOf(1000) == 0 && DayOf(500) == 0;
  }
}
