/** What the rows of a rebuilt rollup table say of the raw rows of their bucket. */
module RollupRows {
  import opened Grouping
  import opened Compression
  import opened RollupTables
  import opened Sequences

  // ----- The raw rows of a bucket -----

  /** A time falls into the bucket that starts at a multiple of the width and has not ended by then. */
  lemma BucketExactly(ms: int, bucketMs: int, k: int)
    requires bucketMs > 0
    ensures BucketOf(ms, bucketMs) == k <==> k % bucketMs == 0 && k <= ms < k + bucketMs
  {
    var q, r := ms / bucketMs, ms % bucketMs;
    assert ms == q * bucketMs + r && 0 <= r < bucketMs;
    MultipleHasNoRest(q, bucketMs);
    if k % bucketMs == 0 && k <= ms < k + bucketMs {
      SameMultiple(k / bucketMs, q, bucketMs);
    }
  }

  lemma AtLeastOnce(n: int, width: int)
    requires n >= 1 && width > 0
    ensures n * width >= width
  {
    assert (n - 1) * width >= 0;
  }

  lemma MultipleHasNoRest(q: int, width: int)
    requires width > 0
    ensures q * width % width == 0
  {
    var p, rest := q * width / width, q * width % width;
    assert q * width == p * width + rest;
    assert (q - p) * width == rest && (p - q) * width == -rest;
    if q > p {
      AtLeastOnce(q - p, width);
    } else if p > q {
      AtLeastOnce(p - q, width);
    }
  }

  lemma SameMultiple(a: int, b: int, width: int)
    requires width > 0 && -width < (a - b) * width < width
    ensures a == b
  {
    assert (b - a) * width == -((a - b) * width);
    if a > b {
      AtLeastOnce(a - b, width);
    } else if b > a {
      AtLeastOnce(b - a, width);
    }
  }

  function BucketReadings(readings: seq<Reading>, cutoff: int, bucketMs: int, k: int): seq<Reading>
    requires bucketMs > 0
  {
    if readings == [] then []
    else
      var r := Last(readings);
      BucketReadings(Init(readings), cutoff, bucketMs, k) + if r.ms < cutoff && BucketOf(r.ms, bucketMs) == k then [r] else []
  }

  function BucketSamples(rows: seq<Sample>, cutoff: int, bucketMs: int, k: int): seq<Sample>
    requires bucketMs > 0
  {
    if rows == [] then []
    else
      var r := Last(rows);
      BucketSamples(Init(rows), cutoff, bucketMs, k) + if r.ms < cutoff && BucketOf(r.ms, bucketMs) == k then [r] else []
  }

  /** How many of the first `n` rows lie in the bucket and differ in text from the row before them. */
  function ChangesIn(rows: seq<Sample>, bucketMs: int, k: int, n: nat): nat
    requires bucketMs > 0 && n <= |rows|
  {
    if n == 0 then 0
    else ChangesIn(rows, bucketMs, k, n - 1)
         + if n > 1 && rows[n - 2].text != rows[n - 1].text && BucketOf(rows[n - 1].ms, bucketMs) == k then 1 else 0
  }

  lemma {:induction false} BucketInOrder(readings: seq<Reading>, cutoff: int, bucketMs: int, k: int)
    requires bucketMs > 0 && InTime(readings)
    ensures InTime(BucketReadings(readings, cutoff, bucketMs, k))
    ensures forall r :: r in BucketReadings(readings, cutoff, bucketMs, k) <==>
      r in readings && r.ms < cutoff && BucketOf(r.ms, bucketMs) == k
  {
    if readings != [] {
      hide BucketOf;
      BucketInOrder(Init(readings), cutoff, bucketMs, k);
      assert readings == Init(readings) + [Last(readings)];
      var items := BucketReadings(Init(readings), cutoff, bucketMs, k);
      forall i | 0 <= i < |items|
        ensures items[i].ms <= Last(readings).ms
      {
        assert items[i] in items;
        var j :| 0 <= j < |Init(readings)| && Init(readings)[j] == items[i];
        assert readings[j].ms <= readings[|readings| - 1].ms;
      }
    }
  }

  lemma SelectSnoc<T>(s: seq<Keyed<T>>, x: Keyed<T>, k: int)
    ensures Select(s + [x], k) == Select(s, k) + if x.key == k then [x.item] else []
  {
    assert Init(s + [x]) == s;
  }

  lemma NumericSnoc(readings: seq<Reading>, r: Reading, bucketMs: int)
    requires bucketMs > 0
    ensures NumericBuckets(readings + [r], bucketMs) == NumericBuckets(readings, bucketMs) + [Keyed(BucketOf(r.ms, bucketMs), r)]
  {
    hide BucketOf;
  }

  lemma {:induction false} SelectedReadings(readings: seq<Reading>, cutoff: int, bucketMs: int, k: int)
    requires bucketMs > 0
    ensures Select(NumericBuckets(ReadingsBefore(readings, cutoff), bucketMs), k) == BucketReadings(readings, cutoff, bucketMs, k)
  {
    hide BucketOf, NumericBuckets, Select;
    if readings == [] {
      NothingSelectedReading(bucketMs, k);
    } else {
      var before, r := ReadingsBefore(Init(readings), cutoff), Last(readings);
      assert ReadingsBefore(readings, cutoff) == if r.ms < cutoff then before + [r] else before;
      SelectedReadings(Init(readings), cutoff, bucketMs, k);
      NumericSnoc(before, r, bucketMs);
      SelectSnoc(NumericBuckets(before, bucketMs), Keyed(BucketOf(r.ms, bucketMs), r), k);
    }
  }

  lemma NothingSelectedReading(bucketMs: int, k: int)
    requires bucketMs > 0
    ensures Select(NumericBuckets([], bucketMs), k) == []
  {
  }

  // ----- Numeric rows -----

  lemma {:induction false} InsertedNumericRow(numeric: seq<Group<Reading>>, text: seq<Group<Windowed>>, j: nat)
    requires (forall g :: g in numeric ==> g.items != []) && forall g :: g in text ==> g.items != []
    requires StrictlyAscending(numeric) && j < |numeric| && numeric[j].key !in Keys(text)
    ensures numeric[j].key in Inserted(numeric, text)
    ensures Inserted(numeric, text)[numeric[j].key] == NumericRowOf(numeric[j].items)
    decreases |numeric| + |text|
  {
    hide NumericRowOf, RollupOf;
    if text != [] {
      KeysInit(text);
      InsertedNumericRow(numeric, Init(text), j);
    } else if j < |numeric| - 1 {
      InsertedNumericRow(Init(numeric), text, j);
      assert numeric[j].key < numeric[|numeric| - 1].key;
    }
  }

  lemma {:induction false} InsertedTextRow(numeric: seq<Group<Reading>>, text: seq<Group<Windowed>>, j: nat)
    requires (forall g :: g in numeric ==> g.items != []) && forall g :: g in text ==> g.items != []
    requires StrictlyAscending(text) && j < |text|
    ensures text[j].key in Inserted(numeric, text)
    ensures Inserted(numeric, text)[text[j].key] == TextRow(RollupOf(text[j].items))
  {
    hide NumericRowOf, RollupOf;
    if j < |text| - 1 {
      InsertedTextRow(numeric, Init(text), j);
      assert text[j].key < text[|text| - 1].key;
    }
  }

  lemma {:induction false} ExtremesAttained(items: seq<Reading>)
    requires items != []
    ensures exists r :: r in items && r.value == MinValue(items)
    ensures exists r :: r in items && r.value == MaxValue(items)
  {
    if |items| == 1 {
      assert items[0] in items;
    } else {
      ExtremesAttained(Init(items));
      assert forall r :: r in items <==> r in Init(items) || r == Last(items);
    }
  }

  /** The row counts the readings, has the earliest and the latest, attained extremes and the average. */
  ghost predicate Summarises(row: RollupRow, items: seq<Reading>) {
    && items != [] && row.NumericRow? && row.count == |items|
    && row.first == items[0].value && row.last == items[|items| - 1].value
    && (forall r :: r in items ==> row.min <= r.value <= row.max)
    && (exists r :: r in items && r.value == row.min) && (exists r :: r in items && r.value == row.max)
    && row.avg * row.count as real == Sum(items)
  }

  lemma RowSummarises(items: seq<Reading>)
    requires items != []
    ensures Summarises(NumericRowOf(items), items)
  {
    hide Sum, MinValue, MaxValue;
    ExtremesBound(items);
    ExtremesAttained(items);
    AverageBetween(items);
  }

  /** A bucket with a reading before the cutoff gets the row that summarises its readings, in time order. */
  lemma NumericRowExactly(table: map<int, RollupRow>, readings: seq<Reading>, rows: seq<Sample>, cutoff: int, bucketMs: int, k: int)
    requires bucketMs > 0 && InTime(readings) && Ordered(rows)
    requires Rebuilt(table, readings, rows, cutoff, bucketMs).Some? && HasReading(readings, cutoff, bucketMs, k)
    ensures k in Rebuilt(table, readings, rows, cutoff, bucketMs).value
    ensures Summarises(Rebuilt(table, readings, rows, cutoff, bucketMs).value[k], BucketReadings(readings, cutoff, bucketMs, k))
    ensures InTime(BucketReadings(readings, cutoff, bucketMs, k))
  {
    hide NumericGroups, TextRollups, HasReading, Summarises, Inserted, BucketReadings;
    var before := ReadingsBefore(readings, cutoff);
    var numeric, text := NumericGroups(before, bucketMs), TextRollups(SamplesBefore(rows, cutoff), bucketMs);
    NumericKeys(readings, cutoff, bucketMs, k);
    var j :| 0 <= j < |numeric| && numeric[j].key == k;
    assert numeric[j] in numeric;
    ReadingsInTime(readings, cutoff);
    NumericRollupsAreBuckets(before, bucketMs);
    InsertedNumericRow(numeric, text, j);
    SelectedReadings(readings, cutoff, bucketMs, k);
    BucketInOrder(readings, cutoff, bucketMs, k);
    RowSummarises(numeric[j].items);
  }

  /** Rows from the cutoff on are left as they are. */
  lemma KeptRowExactly(table: map<int, RollupRow>, readings: seq<Reading>, rows: seq<Sample>, cutoff: int, bucketMs: int, k: int)
    requires bucketMs > 0 && InTime(readings) && Ordered(rows)
    requires Rebuilt(table, readings, rows, cutoff, bucketMs).Some? && k in table && k >= cutoff
    ensures k in Rebuilt(table, readings, rows, cutoff, bucketMs).value
    ensures Rebuilt(table, readings, rows, cutoff, bucketMs).value[k] == table[k]
  {
    hide NumericGroups, TextRollups, Inserted;
    InsertedBeforeCutoff(readings, rows, cutoff, bucketMs);
    InsertedKeys(NumericGroups(ReadingsBefore(readings, cutoff), bucketMs), TextRollups(SamplesBefore(rows, cutoff), bucketMs));
  }

  // ----- Text rows -----

  /** The row counts the texts, has the first and the last, and counts the changes that fall into the bucket. */
  ghost predicate Tells(row: RollupRow, items: seq<Sample>, changes: nat) {
    && items != [] && row.TextRow? && row.rollup.count == |items|
    && row.rollup.first == items[0].text && row.rollup.last == items[|items| - 1].text
    && row.rollup.transitions == changes
  }

  /** The windowed texts of a bucket, among all rows before the cutoff. */
  lemma {:induction false} SelectedTexts(rows: seq<Sample>, bucketMs: int, k: int, n: nat)
    requires bucketMs > 0 && n <= |rows|
    ensures SameTexts(Select(Bucketed(rows, bucketMs)[..n], k), BucketSamplesOf(rows[..n], bucketMs, k))
    ensures Transitions(Select(Bucketed(rows, bucketMs)[..n], k)) == ChangesIn(rows, bucketMs, k, n)
  {
    hide BucketOf, Bucketed, SameTexts, Transitions, Select, BucketSamplesOf;
    var s := Bucketed(rows, bucketMs);
    if n == 0 {
      NoTexts(rows, bucketMs, k);
    } else {
      SelectedTexts(rows, bucketMs, k, n - 1);
      BucketedAt(rows, bucketMs, n - 1);
      assert s[..n] == s[..n - 1] + [s[n - 1]] && rows[..n] == rows[..n - 1] + [rows[n - 1]];
      SelectSnoc(s[..n - 1], s[n - 1], k);
      SamplesSnoc(rows[..n - 1], rows[n - 1], bucketMs, k);
      if s[n - 1].key == k {
        TransitionsSnoc(Select(s[..n - 1], k), s[n - 1].item);
        TextsSnoc(Select(s[..n - 1], k), BucketSamplesOf(rows[..n - 1], bucketMs, k), s[n - 1].item, rows[n - 1]);
      } else {
        assert Select(s[..n], k) == Select(s[..n - 1], k);
        assert BucketSamplesOf(rows[..n], bucketMs, k) == BucketSamplesOf(rows[..n - 1], bucketMs, k);
      }
    }
  }

  predicate SameTexts(items: seq<Windowed>, samples: seq<Sample>) {
    |items| == |samples| && forall i :: 0 <= i < |items| ==> items[i].text == samples[i].text
  }

  lemma TextsSnoc(items: seq<Windowed>, samples: seq<Sample>, w: Windowed, x: Sample)
    requires SameTexts(items, samples) && w.text == x.text
    ensures SameTexts(items + [w], samples + [x])
  {
  }

  lemma TransitionsSnoc(items: seq<Windowed>, w: Windowed)
    ensures Transitions(items + [w]) == Transitions(items) + if w.transition then 1 else 0
  {
    assert Init(items + [w]) == items;
  }

  lemma NoTexts(rows: seq<Sample>, bucketMs: int, k: int)
    requires bucketMs > 0
    ensures SameTexts(Select(Bucketed(rows, bucketMs)[..0], k), BucketSamplesOf(rows[..0], bucketMs, k))
    ensures Transitions(Select(Bucketed(rows, bucketMs)[..0], k)) == 0
  {
  }

  lemma BucketedAt(rows: seq<Sample>, bucketMs: int, i: nat)
    requires bucketMs > 0 && i < |rows|
    ensures |Bucketed(rows, bucketMs)| == |rows| && Bucketed(rows, bucketMs)[i].key == BucketOf(rows[i].ms, bucketMs)
    ensures Bucketed(rows, bucketMs)[i].item.text == rows[i].text
    ensures Bucketed(rows, bucketMs)[i].item.transition <==> i > 0 && rows[i - 1].text != rows[i].text
  {
  }

  function BucketSamplesOf(rows: seq<Sample>, bucketMs: int, k: int): seq<Sample>
    requires bucketMs > 0
  {
    if rows == [] then []
    else BucketSamplesOf(Init(rows), bucketMs, k) + if BucketOf(Last(rows).ms, bucketMs) == k then [Last(rows)] else []
  }

  lemma SamplesSnoc(rows: seq<Sample>, x: Sample, bucketMs: int, k: int)
    requires bucketMs > 0
    ensures BucketSamplesOf(rows + [x], bucketMs, k)
            == BucketSamplesOf(rows, bucketMs, k) + if BucketOf(x.ms, bucketMs) == k then [x] else []
  {
    hide BucketOf;
    assert Init(rows + [x]) == rows;
  }

  lemma {:induction false} SamplesOfBucket(rows: seq<Sample>, cutoff: int, bucketMs: int, k: int)
    requires bucketMs > 0
    ensures BucketSamplesOf(SamplesBefore(rows, cutoff), bucketMs, k) == BucketSamples(rows, cutoff, bucketMs, k)
  {
    if rows != [] {
      hide BucketOf, BucketSamplesOf;
      var before := SamplesBefore(Init(rows), cutoff);
      assert SamplesBefore(rows, cutoff) == if Last(rows).ms < cutoff then before + [Last(rows)] else before;
      SamplesOfBucket(Init(rows), cutoff, bucketMs, k);
      SamplesSnoc(before, Last(rows), bucketMs, k);
    }
  }

  /** A bucket with a text before the cutoff gets the row that tells of its texts, in time order. */
  lemma TextRowExactly(table: map<int, RollupRow>, readings: seq<Reading>, rows: seq<Sample>, cutoff: int, bucketMs: int, k: int)
    requires bucketMs > 0 && InTime(readings) && Ordered(rows)
    requires Rebuilt(table, readings, rows, cutoff, bucketMs).Some? && HasSample(rows, cutoff, bucketMs, k)
    ensures k in Rebuilt(table, readings, rows, cutoff, bucketMs).value
    ensures
      var before := SamplesBefore(rows, cutoff);
      Tells(Rebuilt(table, readings, rows, cutoff, bucketMs).value[k], BucketSamples(rows, cutoff, bucketMs, k),
            ChangesIn(before, bucketMs, k, |before|))
  {
    hide NumericGroups, TextRollups, HasSample, Inserted, Tells, BucketSamples, ChangesIn, SamplesBefore, ReadingsBefore;
    var before := SamplesBefore(rows, cutoff);
    var numeric, text := NumericGroups(ReadingsBefore(readings, cutoff), bucketMs), TextRollups(before, bucketMs);
    TextKeys(rows, cutoff, bucketMs, k);
    var j :| 0 <= j < |text| && text[j].key == k;
    assert text[j] in text;
    BeforeOrdered(rows, cutoff);
    RollupsAreBuckets(before, bucketMs);
    InsertedTextRow(numeric, text, j);
    SamplesOfBucket(rows, cutoff, bucketMs, k);
    RowTells(before, bucketMs, k);
  }

  lemma RowTells(before: seq<Sample>, bucketMs: int, k: int)
    requires bucketMs > 0 && Select(Bucketed(before, bucketMs), k) != []
    ensures Tells(TextRow(RollupOf(Select(Bucketed(before, bucketMs), k))), BucketSamplesOf(before, bucketMs, k),
                  ChangesIn(before, bucketMs, k, |before|))
  {
    hide BucketSamplesOf, Transitions, ChangesIn, Select, Bucketed;
    SelectedTexts(before, bucketMs, k, |before|);
    assert Bucketed(before, bucketMs)[..|before|] == Bucketed(before, bucketMs) && before[..|before|] == before;
  }
}
