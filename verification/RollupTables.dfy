/**
 * The rollup table of one device and register, which numbers and texts share: a rebuild deletes
 * the buckets that start before its cutoff and inserts those of the raw rows before the cutoff.
 */
module RollupTables {
  import opened Options
  import opened Grouping
  import opened Compression
  import opened Sequences

  /** One raw numeric value; rows come ordered by time, then by sample. */
  datatype Reading = Reading(ms: int, value: real)

  ghost predicate InTime(readings: seq<Reading>) {
    forall i, j :: 0 <= i < j < |readings| ==> readings[i].ms <= readings[j].ms
  }

  datatype RollupRow =
    | NumericRow(count: nat, min: real, max: real, avg: real, first: real, last: real)
    | TextRow(rollup: Rollup)

  function Sum(items: seq<Reading>): real {
    if items == [] then 0.0 else Sum(Init(items)) + Last(items).value
  }

  function MinValue(items: seq<Reading>): real
    requires items != []
  {
    if |items| == 1 then items[0].value
    else
      var m := MinValue(Init(items));
      if Last(items).value < m then Last(items).value else m
  }

  function MaxValue(items: seq<Reading>): real
    requires items != []
  {
    if |items| == 1 then items[0].value
    else
      var m := MaxValue(Init(items));
      if Last(items).value > m then Last(items).value else m
  }

  function NumericRowOf(items: seq<Reading>): RollupRow
    requires items != []
  {
    NumericRow(|items|, MinValue(items), MaxValue(items), Sum(items) / |items| as real, items[0].value, Last(items).value)
  }

  function BucketOf(ms: int, bucketMs: int): int
    requires bucketMs > 0
  {
    ms / bucketMs * bucketMs
  }

  function NumericBuckets(readings: seq<Reading>, bucketMs: int): (s: seq<Keyed<Reading>>)
    requires bucketMs > 0
    ensures |s| == |readings|
  {
    seq(|readings|, i requires 0 <= i < |readings| => Keyed(BucketOf(readings[i].ms, bucketMs), readings[i]))
  }

  function NumericGroups(readings: seq<Reading>, bucketMs: int): (gs: seq<Group<Reading>>)
    requires bucketMs > 0
    ensures forall g :: g in gs ==> g.items != []
  {
    GroupsPartition(NumericBuckets(readings, bucketMs));
    GroupBy(NumericBuckets(readings, bucketMs))
  }

  /** A bucket's extremes bound every one of its values. */
  lemma {:induction false} ExtremesBound(items: seq<Reading>)
    requires items != []
    ensures forall r :: r in items ==> MinValue(items) <= r.value <= MaxValue(items)
  {
    if |items| > 1 {
      ExtremesBound(Init(items));
      assert forall r :: r in items ==> r in Init(items) || r == Last(items);
    }
  }

  lemma {:induction false} ExtremesBoundSum(items: seq<Reading>)
    requires items != []
    ensures MinValue(items) * |items| as real <= Sum(items) <= MaxValue(items) * |items| as real
  {
    if |items| > 1 {
      ExtremesBoundSum(Init(items));
      var n := |Init(items)| as real;
      assert |items| as real == n + 1.0;
      OneMore(MinValue(items), MinValue(Init(items)), n, Sum(Init(items)), Last(items).value);
      OneMoreAbove(MaxValue(items), MaxValue(Init(items)), n, Sum(Init(items)), Last(items).value);
    } else {
      assert Sum(items) == Sum(Init(items)) + items[0].value;
    }
  }

  lemma OneMore(m: real, m': real, n: real, sum: real, x: real)
    requires m <= m' && m <= x && n >= 0.0 && m' * n <= sum
    ensures m * (n + 1.0) <= sum + x
  {
    ScaleReal(m, m', n);
    assert m * (n + 1.0) == m * n + m;
  }

  lemma OneMoreAbove(m: real, m': real, n: real, sum: real, x: real)
    requires m' <= m && x <= m && n >= 0.0 && sum <= m' * n
    ensures sum + x <= m * (n + 1.0)
  {
    ScaleReal(m', m, n);
    assert m * (n + 1.0) == m * n + m;
  }

  lemma ScaleReal(a: real, b: real, n: real)
    requires a <= b && n >= 0.0
    ensures a * n <= b * n
  {
    assert (b - a) * n >= 0.0;
  }

  function TotalSum(gs: seq<Group<Reading>>): real {
    if gs == [] then 0.0 else TotalSum(Init(gs)) + Sum(Last(gs).items)
  }

  lemma {:induction false} SumAppend(a: seq<Reading>, b: seq<Reading>)
    ensures Sum(a + b) == Sum(a) + Sum(b)
  {
    if b == [] {
      assert a + b == a;
    } else {
      assert Init(a + b) == a + Init(b);
      SumAppend(a, Init(b));
    }
  }

  lemma {:induction false} TotalIsSum(gs: seq<Group<Reading>>)
    ensures TotalSum(gs) == Sum(Flatten(gs))
  {
    if gs != [] {
      TotalIsSum(Init(gs));
      SumAppend(Flatten(Init(gs)), Last(gs).items);
    }
  }

  function TotalReadings(gs: seq<Group<Reading>>): nat
    requires forall g :: g in gs ==> g.items != []
  {
    if gs == [] then 0 else TotalReadings(Init(gs)) + NumericRowOf(Last(gs).items).count
  }

  lemma {:induction false} TotalReadingsFlatten(gs: seq<Group<Reading>>)
    requires forall g :: g in gs ==> g.items != []
    ensures TotalReadings(gs) == |Flatten(gs)|
  {
    if gs != [] {
      TotalReadingsFlatten(Init(gs));
    }
  }

  /** Counts add up to the readings, and averages weighted by their counts to the sum of all readings. */
  lemma NumericRollupsKeepTheSum(readings: seq<Reading>, bucketMs: int)
    requires bucketMs > 0
    ensures TotalReadings(NumericGroups(readings, bucketMs)) == |readings|
    ensures TotalSum(NumericGroups(readings, bucketMs)) == Sum(readings)
    ensures forall g :: g in NumericGroups(readings, bucketMs) ==> AverageFits(g.items)
  {
    var s := NumericBuckets(readings, bucketMs);
    GroupsPartition(s);
    assert Items(s) == readings;
    TotalIsSum(GroupBy(s));
    TotalReadingsFlatten(GroupBy(s));
    forall g | g in GroupBy(s)
      ensures AverageFits(g.items)
    {
      AverageBetween(g.items);
    }
  }

  /** Each bucket gets one numeric rollup, of every reading of that bucket and no other. */
  lemma NumericRollupsAreBuckets(readings: seq<Reading>, bucketMs: int)
    requires bucketMs > 0 && InTime(readings)
    ensures StrictlyAscending(NumericGroups(readings, bucketMs))
    ensures forall g :: g in NumericGroups(readings, bucketMs) ==> g.items == Select(NumericBuckets(readings, bucketMs), g.key)
    ensures forall i :: 0 <= i < |readings| ==> HasKey(NumericGroups(readings, bucketMs), BucketOf(readings[i].ms, bucketMs))
  {
    var s := NumericBuckets(readings, bucketMs);
    forall i, j | 0 <= i < j < |readings|
      ensures s[i].key <= s[j].key
    {
      BucketMonotone(readings[i].ms, readings[j].ms, bucketMs);
    }
    GroupsAreSelections(s);
    assert forall i :: 0 <= i < |readings| ==> s[i].key == BucketOf(readings[i].ms, bucketMs);
  }

  /** The stored average times the count is the sum, and lies between the stored extremes. */
  predicate AverageFits(items: seq<Reading>)
    requires items != []
  {
    var row := NumericRowOf(items);
    row.avg * row.count as real == Sum(items) && row.min <= row.avg <= row.max
  }

  lemma AverageBetween(items: seq<Reading>)
    requires items != []
    ensures AverageFits(items)
  {
    hide Sum, MinValue, MaxValue;
    ExtremesBoundSum(items);
    Between(MinValue(items), MaxValue(items), Sum(items), |items| as real);
  }

  lemma Between(low: real, high: real, sum: real, n: real)
    requires n > 0.0 && low * n <= sum <= high * n
    ensures sum / n * n == sum && low <= sum / n <= high
  {
    var avg := sum / n;
    assert avg * n == sum;
    if avg < low {
      StrictScale(avg, low, n);
    }
    if avg > high {
      StrictScale(high, avg, n);
    }
  }

  lemma StrictScale(a: real, b: real, n: real)
    requires a < b && n > 0.0
    ensures a * n < b * n
  {
    assert (b - a) * n > 0.0;
  }

  // ----- Rebuilding the tables -----

  function Inserted(numeric: seq<Group<Reading>>, text: seq<Group<Windowed>>): map<int, RollupRow>
    requires (forall g :: g in numeric ==> g.items != []) && forall g :: g in text ==> g.items != []
  {
    if text != [] then Inserted(numeric, Init(text))[Last(text).key := TextRow(RollupOf(Last(text).items))]
    else if numeric != [] then Inserted(Init(numeric), text)[Last(numeric).key := NumericRowOf(Last(numeric).items)]
    else map[]
  }

  function Keys<T>(gs: seq<Group<T>>): set<int> {
    set i | 0 <= i < |gs| :: gs[i].key
  }

  function Kept<T>(table: map<int, T>, cutoff: int): map<int, T> {
    map k | k in table && k >= cutoff :: table[k]
  }

  function ReadingsBefore(readings: seq<Reading>, cutoff: int): (r: seq<Reading>)
    ensures forall x :: x in r <==> x in readings && x.ms < cutoff
  {
    if readings == [] then []
    else
      assert readings == Init(readings) + [Last(readings)];
      ReadingsBefore(Init(readings), cutoff) + if Last(readings).ms < cutoff then [Last(readings)] else []
  }

  function SamplesBefore(rows: seq<Sample>, cutoff: int): (r: seq<Sample>)
    ensures forall x :: x in r <==> x in rows && x.ms < cutoff
  {
    if rows == [] then []
    else
      assert rows == Init(rows) + [Last(rows)];
      SamplesBefore(Init(rows), cutoff) + if Last(rows).ms < cutoff then [Last(rows)] else []
  }

  lemma {:induction false} ReadingsInTime(readings: seq<Reading>, cutoff: int)
    requires InTime(readings)
    ensures InTime(ReadingsBefore(readings, cutoff))
  {
    if readings != [] {
      ReadingsInTime(Init(readings), cutoff);
      var before := ReadingsBefore(Init(readings), cutoff);
      forall i | 0 <= i < |before|
        ensures before[i].ms <= Last(readings).ms
      {
        assert before[i] in before;
        var j :| 0 <= j < |Init(readings)| && Init(readings)[j] == before[i];
        assert readings[j].ms <= readings[|readings| - 1].ms;
      }
    }
  }

  lemma {:induction false} BeforeOrdered(rows: seq<Sample>, cutoff: int)
    requires Ordered(rows)
    ensures Ordered(SamplesBefore(rows, cutoff))
  {
    if rows != [] {
      BeforeOrdered(Init(rows), cutoff);
      var before := SamplesBefore(Init(rows), cutoff);
      forall i | 0 <= i < |before|
        ensures before[i].ms <= Last(rows).ms
      {
        assert before[i] in before;
        var j :| 0 <= j < |Init(rows)| && Init(rows)[j] == before[i];
        assert rows[j].ms <= rows[|rows| - 1].ms;
      }
    }
  }

  /** `None` is the violated primary key: one bucket cannot hold a numeric and a text rollup. */
  function Rebuilt(table: map<int, RollupRow>, readings: seq<Reading>, rows: seq<Sample>, cutoff: int, bucketMs: int)
    : Option<map<int, RollupRow>>
    requires bucketMs > 0 && InTime(readings) && Ordered(rows)
  {
    var numeric := NumericGroups(ReadingsBefore(readings, cutoff), bucketMs);
    var text := TextRollups(SamplesBefore(rows, cutoff), bucketMs);
    if Keys(numeric) !! Keys(text) then Some(Kept(table, cutoff) + Inserted(numeric, text)) else None
  }

  lemma {:induction false} InsertedKeys(numeric: seq<Group<Reading>>, text: seq<Group<Windowed>>)
    requires (forall g :: g in numeric ==> g.items != []) && forall g :: g in text ==> g.items != []
    ensures Inserted(numeric, text).Keys == Keys(numeric) + Keys(text)
    decreases |numeric| + |text|
  {
    if text != [] {
      InsertedKeys(numeric, Init(text));
      KeysInit(text);
    } else if numeric != [] {
      InsertedKeys(Init(numeric), text);
      KeysInit(numeric);
    }
  }

  lemma KeysInit<T>(gs: seq<Group<T>>)
    requires gs != []
    ensures Keys(gs) == Keys(Init(gs)) + {Last(gs).key}
  {
  }

  // ----- Which buckets a rebuild leaves -----

  ghost predicate HasReading(readings: seq<Reading>, cutoff: int, bucketMs: int, k: int)
    requires bucketMs > 0
  {
    exists x :: x in readings && x.ms < cutoff && BucketOf(x.ms, bucketMs) == k
  }

  ghost predicate HasSample(rows: seq<Sample>, cutoff: int, bucketMs: int, k: int)
    requires bucketMs > 0
  {
    exists x :: x in rows && x.ms < cutoff && BucketOf(x.ms, bucketMs) == k
  }

  lemma NumericKeys(readings: seq<Reading>, cutoff: int, bucketMs: int, k: int)
    requires bucketMs > 0
    ensures k in Keys(NumericGroups(ReadingsBefore(readings, cutoff), bucketMs)) <==> HasReading(readings, cutoff, bucketMs, k)
  {
    var r := ReadingsBefore(readings, cutoff);
    var s := NumericBuckets(r, bucketMs);
    KeysAreOccurring(s, k);
    if HasReading(readings, cutoff, bucketMs, k) {
      var x :| x in readings && x.ms < cutoff && BucketOf(x.ms, bucketMs) == k;
      assert x in r;
      var i :| 0 <= i < |r| && r[i] == x;
      assert s[i].key == k;
    }
    if Occurs(s, k) {
      var i :| 0 <= i < |s| && s[i].key == k;
      assert r[i] in r && BucketOf(r[i].ms, bucketMs) == k;
    }
  }

  lemma TextKeys(rows: seq<Sample>, cutoff: int, bucketMs: int, k: int)
    requires bucketMs > 0
    ensures k in Keys(TextRollups(SamplesBefore(rows, cutoff), bucketMs)) <==> HasSample(rows, cutoff, bucketMs, k)
  {
    var r := SamplesBefore(rows, cutoff);
    var s := Bucketed(r, bucketMs);
    KeysAreOccurring(s, k);
    if HasSample(rows, cutoff, bucketMs, k) {
      var x :| x in rows && x.ms < cutoff && BucketOf(x.ms, bucketMs) == k;
      assert x in r;
      var i :| 0 <= i < |r| && r[i] == x;
      assert s[i].key == k;
    }
    if Occurs(s, k) {
      var i :| 0 <= i < |s| && s[i].key == k;
      assert r[i] in r && BucketOf(r[i].ms, bucketMs) == k;
    }
  }

  /** A rebuild is refused exactly when some bucket before the cutoff holds both a number and a text. */
  lemma RebuildRefusedExactly(table: map<int, RollupRow>, readings: seq<Reading>, rows: seq<Sample>, cutoff: int, bucketMs: int)
    requires bucketMs > 0 && InTime(readings) && Ordered(rows)
    ensures Rebuilt(table, readings, rows, cutoff, bucketMs).None? <==>
      exists k :: HasReading(readings, cutoff, bucketMs, k) && HasSample(rows, cutoff, bucketMs, k)
  {
    hide NumericGroups, TextRollups, HasReading, HasSample, Inserted;
    forall k
      ensures k in Keys(NumericGroups(ReadingsBefore(readings, cutoff), bucketMs)) <==> HasReading(readings, cutoff, bucketMs, k)
      ensures k in Keys(TextRollups(SamplesBefore(rows, cutoff), bucketMs)) <==> HasSample(rows, cutoff, bucketMs, k)
    {
      NumericKeys(readings, cutoff, bucketMs, k);
      TextKeys(rows, cutoff, bucketMs, k);
    }
  }

  /** Which rollups there are after a rebuild: those from the cutoff on, and the buckets of raw rows before it. */
  lemma RebuiltKeysExactly(table: map<int, RollupRow>, readings: seq<Reading>, rows: seq<Sample>, cutoff: int, bucketMs: int, k: int)
    requires bucketMs > 0 && InTime(readings) && Ordered(rows)
    requires Rebuilt(table, readings, rows, cutoff, bucketMs).Some?
    ensures k in Rebuilt(table, readings, rows, cutoff, bucketMs).value <==>
      (k in table && k >= cutoff) || HasReading(readings, cutoff, bucketMs, k) || HasSample(rows, cutoff, bucketMs, k)
  {
    hide NumericGroups, TextRollups, HasReading, HasSample, Inserted;
    InsertedKeys(NumericGroups(ReadingsBefore(readings, cutoff), bucketMs), TextRollups(SamplesBefore(rows, cutoff), bucketMs));
    NumericKeys(readings, cutoff, bucketMs, k);
    TextKeys(rows, cutoff, bucketMs, k);
  }

  /** Inserted rows lie before the cutoff, so they never collide with the rows that were kept. */
  lemma InsertedBeforeCutoff(readings: seq<Reading>, rows: seq<Sample>, cutoff: int, bucketMs: int)
    requires bucketMs > 0
    ensures forall k :: k in Keys(NumericGroups(ReadingsBefore(readings, cutoff), bucketMs)) ==> k < cutoff
    ensures forall k :: k in Keys(TextRollups(SamplesBefore(rows, cutoff), bucketMs)) ==> k < cutoff
  {
    hide NumericGroups, TextRollups;
    forall k | k in Keys(NumericGroups(ReadingsBefore(readings, cutoff), bucketMs))
      ensures k < cutoff
    {
      NumericKeys(readings, cutoff, bucketMs, k);
      var x :| x in readings && x.ms < cutoff && BucketOf(x.ms, bucketMs) == k;
      BucketMonotone(x.ms, x.ms, bucketMs);
    }
    forall k | k in Keys(TextRollups(SamplesBefore(rows, cutoff), bucketMs))
      ensures k < cutoff
    {
      TextKeys(rows, cutoff, bucketMs, k);
      var x :| x in rows && x.ms < cutoff && BucketOf(x.ms, bucketMs) == k;
      BucketMonotone(x.ms, x.ms, bucketMs);
    }
  }

  /** Rebuilding on unchanged raw rows changes nothing; rows from the cutoff on are never touched. */
  lemma RebuildIsIdempotent(table: map<int, RollupRow>, readings: seq<Reading>, rows: seq<Sample>, cutoff: int, bucketMs: int)
    requires bucketMs > 0 && InTime(readings) && Ordered(rows)
    requires Rebuilt(table, readings, rows, cutoff, bucketMs).Some?
    ensures var t' := Rebuilt(table, readings, rows, cutoff, bucketMs).value;
      && Rebuilt(t', readings, rows, cutoff, bucketMs) == Some(t')
      && Kept(t', cutoff) == Kept(table, cutoff)
  {
    var numeric := NumericGroups(ReadingsBefore(readings, cutoff), bucketMs);
    var text := TextRollups(SamplesBefore(rows, cutoff), bucketMs);
    InsertedBeforeCutoff(readings, rows, cutoff, bucketMs);
    InsertedKeys(numeric, text);
    var t' := Rebuilt(table, readings, rows, cutoff, bucketMs).value;
    assert Kept(t', cutoff) == Kept(table, cutoff);
  }

  /** No raw row from before `pruned` is left. */
  ghost predicate PrunedBefore(readings: seq<Reading>, rows: seq<Sample>, pruned: int) {
    (forall x :: x in readings ==> x.ms >= pruned) && forall x :: x in rows ==> x.ms >= pruned
  }

  /**
   * A rollup is lost between two maintenance passes exactly when it starts before the later cutoff
   * and no raw row left before that cutoff lies in its bucket.
   */
  lemma RollupLostExactly(table: map<int, RollupRow>, readings: seq<Reading>, rows: seq<Sample>, cutoff: int,
                          left: seq<Reading>, leftRows: seq<Sample>, later: int, bucketMs: int, k: int)
    requires bucketMs > 0 && InTime(readings) && Ordered(rows) && InTime(left) && Ordered(leftRows)
    requires Rebuilt(table, readings, rows, cutoff, bucketMs).Some?
    requires Rebuilt(Rebuilt(table, readings, rows, cutoff, bucketMs).value, left, leftRows, later, bucketMs).Some?
    ensures
      var first := Rebuilt(table, readings, rows, cutoff, bucketMs).value;
      var second := Rebuilt(first, left, leftRows, later, bucketMs).value;
      k in first && k !in second <==>
        k in first && k < later && !HasReading(left, later, bucketMs, k) && !HasSample(leftRows, later, bucketMs, k)
  {
    hide Rebuilt;
    RebuiltKeysExactly(Rebuilt(table, readings, rows, cutoff, bucketMs).value, left, leftRows, later, bucketMs, k);
  }

  /**
   * Once raw rows are pruned, a rebuild at any cutoff at or after that time leaves no rollup of a
   * bucket that ended by then, however many newer raw rows there are.
   */
  lemma RebuildForgetsPruned(table: map<int, RollupRow>, left: seq<Reading>, leftRows: seq<Sample>,
                             pruned: int, later: int, bucketMs: int)
    requires bucketMs > 0 && InTime(left) && Ordered(leftRows) && PrunedBefore(left, leftRows, pruned) && pruned <= later
    requires Rebuilt(table, left, leftRows, later, bucketMs).Some?
    ensures forall k :: k in Rebuilt(table, left, leftRows, later, bucketMs).value ==> k + bucketMs > pruned
    ensures ReadingsBefore(left, later) == [] && SamplesBefore(leftRows, later) == [] ==>
      Rebuilt(table, left, leftRows, later, bucketMs) == Some(Kept(table, later))
  {
    if ReadingsBefore(left, later) == [] && SamplesBefore(leftRows, later) == [] {
      NothingLeftToRebuild(table, left, leftRows, later, bucketMs);
    }
    hide Rebuilt;
    forall k | k in Rebuilt(table, left, leftRows, later, bucketMs).value
      ensures k + bucketMs > pruned
    {
      RebuiltKeysExactly(table, left, leftRows, later, bucketMs, k);
      if HasReading(left, later, bucketMs, k) {
        var x :| x in left && x.ms < later && BucketOf(x.ms, bucketMs) == k;
        BucketEnds(x.ms, bucketMs);
      }
      if HasSample(leftRows, later, bucketMs, k) {
        var x :| x in leftRows && x.ms < later && BucketOf(x.ms, bucketMs) == k;
        BucketEnds(x.ms, bucketMs);
      }
    }
  }

  lemma NothingLeftToRebuild(table: map<int, RollupRow>, left: seq<Reading>, leftRows: seq<Sample>, later: int, bucketMs: int)
    requires bucketMs > 0 && InTime(left) && Ordered(leftRows)
    requires ReadingsBefore(left, later) == [] && SamplesBefore(leftRows, later) == []
    ensures Rebuilt(table, left, leftRows, later, bucketMs) == Some(Kept(table, later))
  {
    assert NumericBuckets([], bucketMs) == [] && Bucketed([], bucketMs) == [];
    assert NumericGroups([], bucketMs) == [] && TextRollups([], bucketMs) == [];
    assert Inserted([], []) == map[];
    assert Kept(table, later) + map[] == Kept(table, later);
  }

  lemma BucketEnds(ms: int, bucketMs: int)
    requires bucketMs > 0
    ensures BucketOf(ms, bucketMs) <= ms < BucketOf(ms, bucketMs) + bucketMs
  {
  }

  /** Two passes a bucket apart, with a newer reading still there: the older rollup is gone. */
  lemma RollupIsLost()
    ensures
      var old_, new_ := Reading(0, 1.0), Reading(1000, 2.0);
      var first := Rebuilt(map[], [old_, new_], [], 1000, 1000);
      && first.Some? && 0 in first.value
      && Rebuilt(first.value, [new_], [], 2000, 1000).Some?
      && 0 !in Rebuilt(first.value, [new_], [], 2000, 1000).value
      && 1000 in Rebuilt(first.value, [new_], [], 2000, 1000).value
  {
    var old_, new_ := Reading(0, 1.0), Reading(1000, 2.0);
    hide Rebuilt;
    RebuildRefusedExactly(map[], [old_, new_], [], 1000, 1000);
    var first := Rebuilt(map[], [old_, new_], [], 1000, 1000);
    RebuiltKeysExactly(map[], [old_, new_], [], 1000, 1000, 0);
    assert old_ in [old_, new_] && BucketOf(0, 1000) == 0;
    RebuildRefusedExactly(first.value, [new_], [], 2000, 1000);
    RebuiltKeysExactly(first.value, [new_], [], 2000, 1000, 0);
    RebuiltKeysExactly(first.value, [new_], [], 2000, 1000, 1000);
    assert new_ in [new_] && BucketOf(1000, 1000) == 1000;
  }

  class RollupTable {
    var rows: map<int, RollupRow>

    constructor ()
      ensures rows == map[]
    {
      rows := map[];
    }

    /** Deletes, inserts the numeric rollups, then the text rollups; a duplicate key rolls everything back. */
    method BuildRollups(readings: seq<Reading>, samples: seq<Sample>, cutoff: int, bucketSeconds: int) returns (ok: bool)
      requires InTime(readings) && Ordered(samples)
      modifies this
      ensures bucketSeconds < 1 ==> !ok && rows == old(rows)
      ensures bucketSeconds >= 1 ==>
        var r := Rebuilt(old(rows), readings, samples, cutoff, bucketSeconds * 1000);
        (ok <==> r.Some?) && rows == if r.Some? then r.value else old(rows)
    {
      if bucketSeconds < 1 {
        return false;
      }
      var bucketMs := bucketSeconds * 1000;
      var numeric := NumericGroups(ReadingsBefore(readings, cutoff), bucketMs);
      var text := TextRollups(SamplesBefore(samples, cutoff), bucketMs);
      if !(Keys(numeric) !! Keys(text)) {
        return false;
      }
      assert Keys(numeric) !! Keys(text);
      rows := Kept(rows, cutoff);
      InsertAll(numeric, text);
      assert Rebuilt(old(rows), readings, samples, cutoff, bucketMs) == Some(rows);
      ok := true;
    }

    method InsertAll(numeric: seq<Group<Reading>>, text: seq<Group<Windowed>>)
      requires (forall g :: g in numeric ==> g.items != []) && forall g :: g in text ==> g.items != []
      modifies this
      ensures rows == old(rows) + Inserted(numeric, text)
    {
      hide Inserted, NumericRowOf, RollupOf;
      InsertedNone(rows);
      assert numeric[..0] == [] && text[..0] == [];
      for i := 0 to |numeric|
        invariant rows == old(rows) + Inserted(numeric[..i], [])
      {
        InsertedNumeric(old(rows), numeric, i);
        rows := rows[numeric[i].key := NumericRowOf(numeric[i].items)];
      }
      assert numeric[..|numeric|] == numeric;
      for i := 0 to |text|
        invariant rows == old(rows) + Inserted(numeric, text[..i])
      {
        InsertedText(old(rows), numeric, text, i);
        rows := rows[text[i].key := TextRow(RollupOf(text[i].items))];
      }
      assert text[..|text|] == text;
    }
  }

  lemma InsertedNone(table: map<int, RollupRow>)
    ensures table + Inserted([], []) == table
  {
    assert table + map[] == table;
  }

  lemma InsertedNumeric(table: map<int, RollupRow>, numeric: seq<Group<Reading>>, i: nat)
    requires (forall g :: g in numeric ==> g.items != []) && i < |numeric|
    ensures table + Inserted(numeric[..i + 1], [])
            == (table + Inserted(numeric[..i], []))[numeric[i].key := NumericRowOf(numeric[i].items)]
  {
    hide NumericRowOf;
    assert Init(numeric[..i + 1]) == numeric[..i];
  }

  lemma InsertedText(table: map<int, RollupRow>, numeric: seq<Group<Reading>>, text: seq<Group<Windowed>>, i: nat)
    requires (forall g :: g in numeric ==> g.items != []) && (forall g :: g in text ==> g.items != []) && i < |text|
    ensures table + Inserted(numeric, text[..i + 1])
            == (table + Inserted(numeric, text[..i]))[text[i].key := TextRow(RollupOf(text[i].items))]
  {
    hide RollupOf;
    assert Init(text[..i + 1]) == text[..i];
  }
}
