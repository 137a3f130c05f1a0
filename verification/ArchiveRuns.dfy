/** The archive pass and the pruning of a store are runs of the durable steps, so what every run keeps they keep. */
module ArchiveRuns {
  import opened Options
  import opened Archive

  /** Some run of steps leads from one machine to the other. */
  ghost predicate Reaches(m: Machine, m': Machine) {
    exists ms, es :: Run(ms, es) && ms[0] == m && ms[|es|] == m'
  }

  lemma Stays(m: Machine)
    ensures Reaches(m, m)
  {
    var ms, es: seq<Event> := [m], [];
    assert Run(ms, es) && ms[0] == m && ms[|es|] == m;
  }

  lemma OneMoreStep(m: Machine, m': Machine, e: Event, m'': Machine)
    requires Reaches(m, m') && Step(m', e, m'')
    ensures Reaches(m, m'')
  {
    var ms, es :| Run(ms, es) && ms[0] == m && ms[|es|] == m';
    var longer, more := ms + [m''], es + [e];
    hide Step;
    forall i | 0 <= i < |more|
      ensures Step(longer[i], more[i], longer[i + 1])
    {
      if i < |es| {
        assert Step(ms[i], es[i], ms[i + 1]);
      }
    }
    assert Run(longer, more) && longer[0] == m && longer[|more|] == m'';
  }

  /** Archiving one day: take the rows of the range, publish them as the day's file, record the verified entry. */
  lemma DayIsThreeSteps(m: Machine, m': Machine, day: Day, cutoff: int)
    requires Reaches(m, m') && m'.pending.None? && Midnight(cutoff) && Rewrites(m'.store, day, cutoff)
    ensures Reaches(m, m'.(store := ArchiveDay(m'.store, day, cutoff)))
  {
    var end := Min(DayEnd(day), cutoff);
    var content := RowsOf(m'.store.raw, day, end);
    var begun := m'.(pending := Some(Pending(day, end, content, false)));
    var published := begun.(store := Publish(m'.store, day, content), pending := Some(Pending(day, end, content, true)));
    var recorded := m'.(store := ArchiveDay(m'.store, day, cutoff));
    assert Step(m', BeginRange(day, cutoff), begun);
    assert Step(begun, PublishFile(content), published);
    assert Step(published, RecordEntry, recorded);
    hide Step, Rewrites, Reaches, RowsOf, ArchiveDay;
    OneMoreStep(m, m', BeginRange(day, cutoff), begun);
    OneMoreStep(m, begun, PublishFile(content), published);
    OneMoreStep(m, published, RecordEntry, recorded);
  }

  /** A whole pass at a midnight cutoff is a run of such steps. */
  lemma {:induction false} PassIsARun(m: Machine, m': Machine, first: Day, last: Day, cutoff: int)
    requires Reaches(m, m') && m'.pending.None? && Midnight(cutoff)
    ensures Reaches(m, m'.(store := ArchiveDays(m'.store, first, last, cutoff)))
    decreases last - first
  {
    hide Reaches, Rewrites;
    if first <= last {
      var next := m'.(store := ArchiveDay(m'.store, first, cutoff));
      if Rewrites(m'.store, first, cutoff) {
        DayIsThreeSteps(m, m', first, cutoff);
      } else {
        assert next == m';
      }
      PassIsARun(m, next, first + 1, last, cutoff);
    }
  }

  /** The rows that pruning the given days takes away. */
  function PruneSome(s: Store, days: set<Day>): Store {
    s.(raw := set r | r in s.raw &&
        !(DayOf(r.ms) in days && Verified(s, DayOf(r.ms)) && r.ms < s.entries[DayOf(r.ms)].end))
  }

  lemma {:induction false} PrunedDaysAreARun(m: Machine, m': Machine, days: set<Day>)
    requires Reaches(m, m') && forall d :: d in days ==> Verified(m'.store, d)
    ensures Reaches(m, m'.(store := PruneSome(m'.store, days)))
    decreases days
  {
    hide Reaches;
    if d :| d in days {
      var next := m'.(store := PruneDay(m'.store, d));
      assert Step(m', PruneRange(d), next);
      OneMoreStep(m, m', PruneRange(d), next);
      PrunedDaysAreARun(m, next, days - {d});
      PruneOneFirst(m'.store, days, d);
    } else {
      assert PruneSome(m'.store, days) == m'.store;
    }
  }

  lemma PruneOneFirst(s: Store, days: set<Day>, d: Day)
    requires d in days && Verified(s, d)
    ensures PruneSome(PruneDay(s, d), days - {d}) == PruneSome(s, days)
  {
    hide DayOf;
    var once, twice := PruneSome(s, days), PruneSome(PruneDay(s, d), days - {d});
    forall r
      ensures r in once.raw <==> r in twice.raw
    {
    }
  }

  /** Pruning is a run of steps that delete one verified range each. */
  lemma PruningIsARun(m: Machine, m': Machine, cutoff: int)
    requires Reaches(m, m')
    ensures Reaches(m, m'.(store := PruneRanges(m'.store, cutoff)))
  {
    var days := set d | d in m'.store.entries && m'.store.entries[d].verified && m'.store.entries[d].end <= cutoff;
    PrunedDaysAreARun(m, m', days);
    hide Reaches, DayOf;
    assert PruneSome(m'.store, days) == PruneRanges(m'.store, cutoff);
  }

  /** So a complete maintenance at a midnight cutoff keeps every row the store ever had, raw or in the file of its day. */
  lemma MaintenanceConserves(m: Machine, first: Day, last: Day, cutoff: int)
    requires Safe(m) && m.pending.None? && Midnight(cutoff)
    ensures forall r :: r in m.ever ==> Kept(PruneRanges(ArchiveDays(m.store, first, last, cutoff), cutoff), r)
  {
    Stays(m);
    PassIsARun(m, m, first, last, cutoff);
    var archived := m.(store := ArchiveDays(m.store, first, last, cutoff));
    PruningIsARun(m, archived, cutoff);
    var final := archived.(store := PruneRanges(archived.store, cutoff));
    assert Reaches(m, final);
    var ms, es :| Run(ms, es) && ms[0] == m && ms[|es|] == final;
    RowsAreConserved(ms, es, |es|);
  }
}
