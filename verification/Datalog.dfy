/** The daily records of history/retained/liveview.py, read column by column from the first datalog table. */
module Datalog {
  import opened Options
  import opened Text
  import opened Digits
  import opened Tables

  datatype Field =
    | EventCount | Hourmeter | BatteryVoltageMax | BatteryVoltageMin | ArrayVoltageMax | OutputPowerMax
    | ChargeAh | ChargeWh | BatteryTempMax | BatteryTempMin
    | AbsorptionMinutes | FloatMinutes | EqualizeMinutes | Faults | Alarms

  /** Days are numbered in the controller's calendar; field values stay text. */
  datatype Record = Record(day: int, offset: int, complete: bool, raw: map<string, string>, fields: map<Field, string>)

  // ----- Labels and offsets -----

  predicate IsLabelChar(c: char) {
    'a' <= c <= 'z' || '0' <= c <= '9'
  }

  function LabelLength(s: string): (n: nat)
    ensures n <= |s|
  {
    if s == "" || !IsLabelChar(s[0]) then 0 else 1 + LabelLength(s[1..])
  }

  /** The runs of lower-case letters and digits; everything else, a final colon included, only separates. */
  function LabelWords(s: string): seq<string>
    decreases |s|
  {
    if s == "" then []
    else
      var n := LabelLength(s);
      if n == 0 then LabelWords(s[1..]) else [s[..n]] + LabelWords(s[n..])
  }

  function LabelKey(s: string): string {
    Joined(LabelWords(Lower(CleanText(s))))
  }

  function FieldOf(name: string): Option<Field> {
    if name in {"events", "event"} then Some(EventCount)
    else if name in {"hourmeter", "hour meter"} then Some(Hourmeter)
    else if name in {"max battery voltage", "maximum battery voltage"} then Some(BatteryVoltageMax)
    else if name in {"min battery voltage", "minimum battery voltage"} then Some(BatteryVoltageMin)
    else if name in {"max array voltage", "maximum array voltage", "max input voltage"} then Some(ArrayVoltageMax)
    else if name in {"max output power", "maximum output power"} then Some(OutputPowerMax)
    else if name in {"amp hours", "ah"} then Some(ChargeAh)
    else if name in {"watt hours", "wh"} then Some(ChargeWh)
    else if name in {"max battery temp", "max battery temperature", "maximum battery temperature"} then Some(BatteryTempMax)
    else if name in {"min battery temp", "min battery temperature", "minimum battery temperature"} then Some(BatteryTempMin)
    else if name in {"absorption timer", "absorption time"} then Some(AbsorptionMinutes)
    else if name in {"float timer", "float time"} then Some(FloatMinutes)
    else if name in {"equalize timer", "equalization timer", "equalize time"} then Some(EqualizeMinutes)
    else if name in {"faults", "fault"} then Some(Faults)
    else if name in {"alarms", "alarm"} then Some(Alarms)
    else None
  }

  /** A label's key depends on its words alone, whatever their case. */
  lemma LabelIgnoresCase(a: string, b: string)
    requires Lower(CleanText(a)) == Lower(CleanText(b))
    ensures LabelKey(a) == LabelKey(b)
  {
  }

  /** One key that stands for the field. */
  function KeyFor(f: Field): string {
    match f
    case EventCount => "events"
    case Hourmeter => "hourmeter"
    case BatteryVoltageMax => "max battery voltage"
    case BatteryVoltageMin => "min battery voltage"
    case ArrayVoltageMax => "max array voltage"
    case OutputPowerMax => "max output power"
    case ChargeAh => "amp hours"
    case ChargeWh => "watt hours"
    case BatteryTempMax => "max battery temp"
    case BatteryTempMin => "min battery temp"
    case AbsorptionMinutes => "absorption time"
    case FloatMinutes => "float time"
    case EqualizeMinutes => "equalize time"
    case Faults => "faults"
    case Alarms => "alarms"
  }

  /** Every field has a key that is read as it. */
  lemma EveryFieldIsRead(f: Field)
    ensures FieldOf(KeyFor(f)) == Some(f)
  {
    if f in {EventCount, Hourmeter, BatteryVoltageMax, BatteryVoltageMin, ArrayVoltageMax} {
      EarlyFieldIsRead(f);
    } else if f in {OutputPowerMax, ChargeAh, ChargeWh, BatteryTempMax, BatteryTempMin} {
      MiddleFieldIsRead(f);
    } else if f in {AbsorptionMinutes, FloatMinutes, EqualizeMinutes} {
      TimerIsRead(f);
    } else {
      StateIsRead(f);
    }
    hide FieldOf, KeyFor;
  }

  lemma EarlyFieldIsRead(f: Field)
    requires f in {EventCount, Hourmeter, BatteryVoltageMax, BatteryVoltageMin, ArrayVoltageMax}
    ensures FieldOf(KeyFor(f)) == Some(f)
  {
  }

  lemma MiddleFieldIsRead(f: Field)
    requires f in {OutputPowerMax, ChargeAh, ChargeWh, BatteryTempMax, BatteryTempMin}
    ensures FieldOf(KeyFor(f)) == Some(f)
  {
  }

  lemma TimerIsRead(f: Field)
    requires f in {AbsorptionMinutes, FloatMinutes, EqualizeMinutes}
    ensures FieldOf(KeyFor(f)) == Some(f)
  {
  }

  lemma StateIsRead(f: Field)
    requires f == Faults || f == Alarms
    ensures FieldOf(KeyFor(f)) == Some(f)
  {
  }

  /** The position of the first digit, or the length. */
  function FirstDigit(s: string): (n: nat)
    ensures n <= |s| && (n < |s| ==> IsDigit(s[n])) && forall i :: 0 <= i < n ==> !IsDigit(s[i])
  {
    if s == "" || IsDigit(s[0]) then 0 else 1 + FirstDigit(s[1..])
  }

  /** The first run of digits, with a minus sign directly before it. */
  function ParseOffset(s: string): Option<int> {
    var at := FirstDigit(s);
    if at == |s| then None
    else
      var digits := s[at..][..RunLength(s[at..])];
      var value: int := ValueOf(digits);
      Some(if at > 0 && s[at - 1] == '-' then -value else value)
  }

  /** A printed offset is read back, whatever its sign. */
  lemma OffsetRoundTrip(n: int)
    ensures ParseOffset(RenderInt(n)) == Some(n)
  {
    var size: nat := if n < 0 then -n else n;
    var digits, text := Render(size), RenderInt(n);
    ValueOfRender(size);
    assert IsDigit(digits[0]);
    var sign := |text| - |digits|;
    assert text[sign..] == digits && digits[..|digits|] == digits;
    assert FirstDigit(text) == sign by {
      var at := FirstDigit(text);
      assert IsDigit(text[sign]);
      assert sign == 1 ==> text[0] == '-' && !IsDigit(text[0]);
    }
    RunLengthUnique(digits, |digits|);
  }

  // ----- One record -----

  /** The row has a label other than the day row's, and text in the column. */
  predicate Telling(row: seq<string>, column: nat) {
    row != [] && column < |row| && LabelKey(row[0]) != "day" && CleanText(row[column]) != ""
  }

  /** The contribution of the first `n` rows to one column; later rows win. */
  function RawOf(rows: Grid, column: nat, n: nat): map<string, string>
    requires n <= |rows|
  {
    if n == 0 then map[]
    else
      var before := RawOf(rows, column, n - 1);
      if Telling(rows[n - 1], column) then before[rows[n - 1][0] := CleanText(rows[n - 1][column])] else before
  }

  function FieldsOf(rows: Grid, column: nat, n: nat): map<Field, string>
    requires n <= |rows|
  {
    if n == 0 then map[]
    else
      var before := FieldsOf(rows, column, n - 1);
      if Telling(rows[n - 1], column) && FieldOf(LabelKey(rows[n - 1][0])).Some? then
        before[FieldOf(LabelKey(rows[n - 1][0])).value := CleanText(rows[n - 1][column])]
      else before
  }

  predicate TellsRaw(row: seq<string>, column: nat, heading: string) {
    Telling(row, column) && row[0] == heading
  }

  predicate TellsField(row: seq<string>, column: nat, field: Field) {
    Telling(row, column) && FieldOf(LabelKey(row[0])) == Some(field)
  }

  /** Row `i` is the last of the first `n` that tells the field. */
  ghost predicate LastTellsField(rows: Grid, column: nat, n: nat, field: Field, i: nat) {
    i < n <= |rows| && TellsField(rows[i], column, field) && forall j :: i < j < n ==> !TellsField(rows[j], column, field)
  }

  ghost predicate LastTellsRaw(rows: Grid, column: nat, n: nat, heading: string, i: nat) {
    i < n <= |rows| && TellsRaw(rows[i], column, heading) && forall j :: i < j < n ==> !TellsRaw(rows[j], column, heading)
  }

  ghost predicate FieldReads(rows: Grid, column: nat, n: nat, field: Field, text: string) {
    exists i: nat :: LastTellsField(rows, column, n, field, i) && text == CleanText(rows[i][column])
  }

  ghost predicate RawReads(rows: Grid, column: nat, n: nat, heading: string, text: string) {
    exists i: nat :: LastTellsRaw(rows, column, n, heading, i) && text == CleanText(rows[i][column])
  }

  /** A field is absent if no row tells it, and otherwise holds the text of the last row that does. */
  lemma {:induction false} FieldIsLastTold(rows: Grid, column: nat, n: nat, field: Field)
    requires n <= |rows|
    ensures field !in FieldsOf(rows, column, n) <==> forall i :: 0 <= i < n ==> !TellsField(rows[i], column, field)
    ensures field in FieldsOf(rows, column, n) ==> FieldReads(rows, column, n, field, FieldsOf(rows, column, n)[field])
  {
    hide LabelKey, CleanText, FieldOf, Telling, FieldReads, TellsField;
    if n > 0 {
      hide FieldsOf;
      FieldIsLastTold(rows, column, n - 1, field);
      FieldRow(rows, column, n, field);
      if field in FieldsOf(rows, column, n) && !TellsField(rows[n - 1], column, field) {
        FieldReadOn(rows, column, n, field, FieldsOf(rows, column, n)[field]);
      }
    }
  }

  /** What one more row does to a field. */
  lemma FieldRow(rows: Grid, column: nat, n: nat, field: Field)
    requires 0 < n <= |rows|
    ensures var before, after := FieldsOf(rows, column, n - 1), FieldsOf(rows, column, n);
      if TellsField(rows[n - 1], column, field) then
        field in after && FieldReads(rows, column, n, field, after[field])
      else (field in after <==> field in before) && (field in after ==> after[field] == before[field])
  {
    hide LabelKey, CleanText, FieldOf;
    if TellsField(rows[n - 1], column, field) {
      assert LastTellsField(rows, column, n, field, n - 1);
    }
  }

  lemma FieldReadOn(rows: Grid, column: nat, n: nat, field: Field, text: string)
    requires 0 < n <= |rows| && !TellsField(rows[n - 1], column, field) && FieldReads(rows, column, n - 1, field, text)
    ensures FieldReads(rows, column, n, field, text)
  {
    hide LabelKey, CleanText, FieldOf;
    var i: nat :| LastTellsField(rows, column, n - 1, field, i) && text == CleanText(rows[i][column]);
    assert LastTellsField(rows, column, n, field, i);
  }

  /** The same for the raw texts, under the headings as they are printed. */
  lemma {:induction false} RawIsLastTold(rows: Grid, column: nat, n: nat, heading: string)
    requires n <= |rows|
    ensures heading !in RawOf(rows, column, n) <==> forall i :: 0 <= i < n ==> !TellsRaw(rows[i], column, heading)
    ensures heading in RawOf(rows, column, n) ==> RawReads(rows, column, n, heading, RawOf(rows, column, n)[heading])
  {
    hide LabelKey, CleanText;
    if n > 0 {
      RawIsLastTold(rows, column, n - 1, heading);
      if TellsRaw(rows[n - 1], column, heading) {
        assert LastTellsRaw(rows, column, n, heading, n - 1);
      } else if heading in RawOf(rows, column, n) {
        var text := RawOf(rows, column, n)[heading];
        var i: nat :| LastTellsRaw(rows, column, n - 1, heading, i) && text == CleanText(rows[i][column]);
        assert LastTellsRaw(rows, column, n, heading, i);
      }
    }
  }

  function RecordOf(rows: Grid, column: nat, offset: int, today: int): Record {
    Record(today + offset, offset, offset < 0, RawOf(rows, column, |rows|), FieldsOf(rows, column, |rows|))
  }

  method RecordFromColumn(rows: Grid, column: nat, offset: int, today: int) returns (record: Record)
    ensures record == RecordOf(rows, column, offset, today)
  {
    var raw: map<string, string>, fields: map<Field, string> := map[], map[];
    for i := 0 to |rows|
      invariant raw == RawOf(rows, column, i) && fields == FieldsOf(rows, column, i)
    {
      hide LabelKey, CleanText, FieldOf;
      var row := rows[i];
      if row == [] || column >= |row| {
        continue;
      }
      var name := LabelKey(row[0]);
      if name == "day" {
        continue;
      }
      var text := CleanText(row[column]);
      if text == "" {
        continue;
      }
      raw := raw[row[0] := text];
      var field := FieldOf(name);
      if field.None? {
        continue;
      }
      fields := fields[field.value := text];
    }
    record := Record(today + offset, offset, offset < 0, raw, fields);
  }

  // ----- The records of a table -----

  predicate IsDayRow(row: seq<string>) {
    row != [] && LabelKey(row[0]) == "day"
  }

  /** The first row labelled as the day row. */
  function DayRow(rows: Grid): Option<seq<string>> {
    if rows == [] then None else if IsDayRow(rows[0]) then Some(rows[0]) else DayRow(rows[1..])
  }

  lemma {:induction false} DayRowIsFirst(rows: Grid, k: nat)
    requires k <= |rows| && forall j :: 0 <= j < k ==> !IsDayRow(rows[j])
    ensures DayRow(rows) == if k == |rows| then None else if IsDayRow(rows[k]) then Some(rows[k]) else DayRow(rows[k..])
  {
    hide IsDayRow;
    if k > 0 {
      DayRowIsFirst(rows[1..], k - 1);
      assert rows[1..][k - 1..] == rows[k..];
    }
  }

  function AcceptedOffset(cell: string, maxDays: nat): Option<int> {
    match ParseOffset(cell)
    case None => None
    case Some(offset) => if offset > 0 || -offset > maxDays then None else Some(offset)
  }

  /** A printed offset is taken exactly for today and the days before it that are not too far back. */
  lemma AcceptedExactly(n: int, maxDays: nat)
    ensures AcceptedOffset(RenderInt(n), maxDays) == if -(maxDays as int) <= n <= 0 then Some(n) else None
  {
    OffsetRoundTrip(n);
    hide ParseOffset, RenderInt;
  }

  /** The offsets taken from the first `n` cells of the day row. */
  function OffsetsOf(dayRow: seq<string>, maxDays: nat, n: nat): seq<int>
    requires n <= |dayRow|
  {
    if n <= 1 then []
    else
      var offset := AcceptedOffset(dayRow[n - 1], maxDays);
      OffsetsOf(dayRow, maxDays, n - 1) + if offset.Some? then [offset.value] else []
  }

  function ColumnRecords(rows: Grid, dayRow: seq<string>, today: int, maxDays: nat, n: nat): seq<Record>
    requires n <= |dayRow|
  {
    if n <= 1 then []
    else
      var offset := AcceptedOffset(dayRow[n - 1], maxDays);
      ColumnRecords(rows, dayRow, today, maxDays, n - 1)
      + if offset.Some? then [RecordOf(rows, n - 1, offset.value, today)] else []
  }

  function TableRecords(rows: Grid, today: int, maxDays: nat): seq<Record> {
    var dayRow := DayRow(rows);
    if dayRow.None? || |dayRow.value| < 2 then []
    else ColumnRecords(rows, dayRow.value, today, maxDays, |dayRow.value|)
  }

  // ----- Newest first -----

  /** Stable: a record goes before the first one that is not newer. */
  function InsertByDay(r: Record, records: seq<Record>): seq<Record> {
    if records == [] || records[0].day <= r.day then [r] + records
    else [records[0]] + InsertByDay(r, records[1..])
  }

  function NewestFirst(records: seq<Record>): seq<Record> {
    if records == [] then [] else InsertByDay(records[0], NewestFirst(records[1..]))
  }

  ghost predicate Descending(records: seq<Record>) {
    forall i, j :: 0 <= i < j < |records| ==> records[i].day >= records[j].day
  }

  lemma {:induction false} InsertDescends(r: Record, records: seq<Record>)
    requires Descending(records)
    ensures Descending(InsertByDay(r, records))
    ensures InsertByDay(r, records)[0].day == if records != [] && records[0].day > r.day then records[0].day else r.day
  {
    if records != [] && records[0].day > r.day {
      InsertDescends(r, records[1..]);
      var rest := InsertByDay(r, records[1..]);
      assert forall j :: 0 <= j < |rest| ==> rest[j].day <= rest[0].day;
    }
  }

  lemma {:induction false} InsertContents(r: Record, records: seq<Record>)
    ensures multiset(InsertByDay(r, records)) == multiset(records) + multiset{r}
  {
    if records != [] && records[0].day > r.day {
      InsertContents(r, records[1..]);
      assert records == [records[0]] + records[1..];
    }
  }

  lemma {:induction false} NewestFirstSorts(records: seq<Record>)
    ensures Descending(NewestFirst(records)) && multiset(NewestFirst(records)) == multiset(records)
  {
    if records != [] {
      NewestFirstSorts(records[1..]);
      InsertDescends(records[0], NewestFirst(records[1..]));
      InsertContents(records[0], NewestFirst(records[1..]));
      assert records == [records[0]] + records[1..];
    }
  }

  // ----- The whole page -----

  /** The first table with any record decides; `None` is the error of an unrecognizable page. */
  function RecordsOf(tables: seq<Grid>, today: int, maxDays: nat): Option<seq<Record>> {
    if tables == [] then None
    else
      var records := TableRecords(tables[0], today, maxDays);
      if records != [] then Some(NewestFirst(records)) else RecordsOf(tables[1..], today, maxDays)
  }

  method ParseDatalog(tables: seq<Grid>, today: int, maxDays: nat) returns (result: Option<seq<Record>>)
    ensures result == RecordsOf(tables, today, maxDays)
  {
    for t := 0 to |tables|
      invariant RecordsOf(tables, today, maxDays) == RecordsOf(tables[t..], today, maxDays)
    {
      hide LabelKey, NewestFirst, AcceptedOffset;
      assert tables[t..][1..] == tables[t + 1..];
      var rows := tables[t];
      var dayRow := FindDayRow(rows);
      if dayRow.None? || |dayRow.value| < 2 {
        continue;
      }
      var records := CollectColumns(rows, dayRow.value, today, maxDays);
      if records != [] {
        return Some(NewestFirst(records));
      }
    }
    return None;
  }

  method FindDayRow(rows: Grid) returns (dayRow: Option<seq<string>>)
    ensures dayRow == DayRow(rows)
  {
    for i := 0 to |rows|
      invariant DayRow(rows) == DayRow(rows[i..])
    {
      hide IsDayRow;
      assert rows[i..][1..] == rows[i + 1..];
      if IsDayRow(rows[i]) {
        return Some(rows[i]);
      }
    }
    return None;
  }

  method CollectColumns(rows: Grid, dayRow: seq<string>, today: int, maxDays: nat) returns (records: seq<Record>)
    requires |dayRow| >= 2
    ensures records == ColumnRecords(rows, dayRow, today, maxDays, |dayRow|)
  {
    records := [];
    for column := 1 to |dayRow|
      invariant records == ColumnRecords(rows, dayRow, today, maxDays, column)
    {
      hide ParseOffset, RecordOf;
      var offset := ParseOffset(dayRow[column]);
      if offset.None? || offset.value > 0 || -offset.value > maxDays {
        continue;
      }
      var record := RecordFromColumn(rows, column, offset.value, today);
      records := records + [record];
    }
  }

  // ----- What the records promise -----

  lemma {:induction false} ColumnsFollowOffsets(rows: Grid, dayRow: seq<string>, today: int, maxDays: nat, n: nat)
    requires n <= |dayRow|
    ensures
      var records, offsets := ColumnRecords(rows, dayRow, today, maxDays, n), OffsetsOf(dayRow, maxDays, n);
      && |records| == |offsets|
      && forall i :: 0 <= i < |records| ==>
           && records[i].offset == offsets[i] && -(maxDays as int) <= offsets[i] <= 0
           && records[i].day == today + offsets[i] && (records[i].complete <==> offsets[i] < 0)
  {
    hide RawOf, FieldsOf, ParseOffset;
    if n > 1 {
      ColumnsFollowOffsets(rows, dayRow, today, maxDays, n - 1);
    }
  }

  /** Every column whose offset is taken gives the record of that very column. */
  lemma {:induction false} ColumnsAreRead(rows: Grid, dayRow: seq<string>, today: int, maxDays: nat, n: nat, c: nat)
    requires 1 <= c < n <= |dayRow| && AcceptedOffset(dayRow[c], maxDays).Some?
    ensures RecordOf(rows, c, AcceptedOffset(dayRow[c], maxDays).value, today) in ColumnRecords(rows, dayRow, today, maxDays, n)
  {
    hide RecordOf, AcceptedOffset;
    if c < n - 1 {
      ColumnsAreRead(rows, dayRow, today, maxDays, n - 1, c);
    }
  }

  ghost predicate Honest(r: Record, today: int, maxDays: nat) {
    && r.day == today + r.offset && today - maxDays <= r.day <= today
    && (r.complete <==> r.day < today)
  }

  ghost predicate DecidedBy(tables: seq<Grid>, t: nat, today: int, maxDays: nat) {
    t < |tables| && TableRecords(tables[t], today, maxDays) != []
    && forall k :: 0 <= k < t ==> TableRecords(tables[k], today, maxDays) == []
  }

  /**
   * The records of the first table that has any: none lies in the future or too far back, only past
   * days are complete, days never ascend, and the offsets are those of the day row, each as often.
   */
  lemma {:induction false} RecordsAreHonest(tables: seq<Grid>, today: int, maxDays: nat)
    ensures RecordsOf(tables, today, maxDays).None? <==>
      forall t :: 0 <= t < |tables| ==> TableRecords(tables[t], today, maxDays) == []
    ensures RecordsOf(tables, today, maxDays).Some? ==>
      var records := RecordsOf(tables, today, maxDays).value;
      && records != [] && Descending(records)
      && (forall i :: 0 <= i < |records| ==> Honest(records[i], today, maxDays))
      && exists t: nat :: DecidedBy(tables, t, today, maxDays)
                          && multiset(records) == multiset(TableRecords(tables[t], today, maxDays))
  {
    hide TableRecords, NewestFirst, Honest;
    if tables != [] {
      var first := TableRecords(tables[0], today, maxDays);
      if first != [] {
        NewestFirstSorts(first);
        TableRecordsHonest(tables[0], today, maxDays);
        SortedHonest(first, NewestFirst(first), today, maxDays);
        assert DecidedBy(tables, 0, today, maxDays);
      } else {
        RecordsAreHonest(tables[1..], today, maxDays);
        DecidedLater(tables, today, maxDays);
      }
    }
  }

  lemma TableRecordsHonest(rows: Grid, today: int, maxDays: nat)
    ensures forall i :: 0 <= i < |TableRecords(rows, today, maxDays)| ==> Honest(TableRecords(rows, today, maxDays)[i], today, maxDays)
  {
    var dayRow := DayRow(rows);
    if dayRow.Some? && |dayRow.value| >= 2 {
      ColumnsFollowOffsets(rows, dayRow.value, today, maxDays, |dayRow.value|);
    }
    hide ColumnRecords;
  }

  lemma SortedHonest(records: seq<Record>, sorted: seq<Record>, today: int, maxDays: nat)
    requires multiset(sorted) == multiset(records) && records != []
    requires forall i :: 0 <= i < |records| ==> Honest(records[i], today, maxDays)
    ensures sorted != [] && forall i :: 0 <= i < |sorted| ==> Honest(sorted[i], today, maxDays)
  {
    assert |multiset(sorted)| == |multiset(records)|;
    hide Honest;
    forall i | 0 <= i < |sorted|
      ensures Honest(sorted[i], today, maxDays)
    {
      assert sorted[i] in multiset(sorted);
      assert sorted[i] in multiset(records);
      assert sorted[i] in records;
    }
  }

  lemma DecidedLater(tables: seq<Grid>, today: int, maxDays: nat)
    requires tables != [] && TableRecords(tables[0], today, maxDays) == []
    ensures forall t: nat :: DecidedBy(tables[1..], t, today, maxDays) ==>
      DecidedBy(tables, t + 1, today, maxDays) && tables[1..][t] == tables[t + 1]
    ensures (forall t :: 0 <= t < |tables| ==> TableRecords(tables[t], today, maxDays) == []) <==>
      (forall t :: 0 <= t < |tables[1..]| ==> TableRecords(tables[1..][t], today, maxDays) == [])
  {
    hide TableRecords;
    assert forall t :: 0 < t < |tables| ==> tables[t] == tables[1..][t - 1];
  }

  ghost predicate DistinctOffsets(records: seq<Record>) {
    forall i, j :: 0 <= i < j < |records| ==> records[i].offset != records[j].offset
  }

  ghost predicate StrictlyDescending(records: seq<Record>) {
    forall i, j :: 0 <= i < j < |records| ==> records[i].day > records[j].day
  }

  lemma {:induction false} InsertStrict(r: Record, records: seq<Record>)
    requires StrictlyDescending(records)
    ensures StrictlyDescending(InsertByDay(r, records)) <==> forall i :: 0 <= i < |records| ==> records[i].day != r.day
    ensures forall d :: HasDay(InsertByDay(r, records), d) <==> d == r.day || HasDay(records, d)
  {
    if records == [] || records[0].day <= r.day {
      InsertFront(r, records);
    } else {
      assert records == [records[0]] + records[1..];
      assert forall i :: 0 < i < |records| ==> records[i] == records[1..][i - 1];
      InsertStrict(r, records[1..]);
      InsertLater(r, records);
    }
  }

  ghost predicate HasDay(records: seq<Record>, day: int) {
    exists i :: 0 <= i < |records| && records[i].day == day
  }

  lemma InsertFront(r: Record, records: seq<Record>)
    requires StrictlyDescending(records) && (records == [] || records[0].day <= r.day)
    ensures StrictlyDescending([r] + records) <==> forall i :: 0 <= i < |records| ==> records[i].day != r.day
    ensures forall d :: HasDay([r] + records, d) <==> d == r.day || HasDay(records, d)
  {
    HasDayCons(r, records);
    if records != [] && records[0].day == r.day {
      assert ([r] + records)[0].day == ([r] + records)[1].day;
    } else {
      StrictCons(r, records);
    }
  }

  lemma HasDayCons(r: Record, records: seq<Record>)
    ensures forall d :: HasDay([r] + records, d) <==> d == r.day || HasDay(records, d)
  {
    var all := [r] + records;
    assert all[0] == r && forall i :: 0 < i < |all| ==> all[i] == records[i - 1];
    forall d | HasDay(records, d)
      ensures HasDay(all, d)
    {
      var i :| 0 <= i < |records| && records[i].day == d;
      assert all[i + 1].day == d;
    }
    assert HasDay(all, r.day);
  }

  lemma InsertLater(r: Record, records: seq<Record>)
    requires StrictlyDescending(records) && records != [] && records[0].day > r.day
    requires
      StrictlyDescending(InsertByDay(r, records[1..])) <==> forall i :: 0 <= i < |records[1..]| ==> records[1..][i].day != r.day
    requires forall d :: HasDay(InsertByDay(r, records[1..]), d) <==> d == r.day || HasDay(records[1..], d)
    ensures StrictlyDescending(InsertByDay(r, records)) <==> forall i :: 0 <= i < |records| ==> records[i].day != r.day
    ensures forall d :: HasDay(InsertByDay(r, records), d) <==> d == r.day || HasDay(records, d)
  {
    var rest, tail := InsertByDay(r, records[1..]), records[1..];
    assert records == [records[0]] + tail;
    HasDayCons(records[0], rest);
    HasDayCons(records[0], tail);
    forall i | 0 <= i < |rest|
      ensures rest[i].day < records[0].day
    {
      assert HasDay(rest, rest[i].day);
    }
    StrictCons(records[0], rest);
    assert forall i :: 0 < i < |records| ==> records[i] == tail[i - 1];
  }

  lemma StrictCons(r: Record, rest: seq<Record>)
    requires forall i :: 0 <= i < |rest| ==> rest[i].day < r.day
    ensures StrictlyDescending([r] + rest) <==> StrictlyDescending(rest)
  {
    var all := [r] + rest;
    assert forall i :: 0 < i < |all| ==> all[i] == rest[i - 1];
    if StrictlyDescending(all) {
      forall i, j | 0 <= i < j < |rest|
        ensures rest[i].day > rest[j].day
      {
        assert all[i + 1].day > all[j + 1].day;
      }
    }
  }

  /** With distinct offsets in the day row, and only then, the days strictly descend. */
  lemma {:induction false} DistinctDaysExactly(records: seq<Record>, today: int)
    requires forall i :: 0 <= i < |records| ==> records[i].day == today + records[i].offset
    ensures StrictlyDescending(NewestFirst(records)) <==> DistinctOffsets(records)
    ensures forall d :: HasDay(NewestFirst(records), d) <==> HasDay(records, d)
  {
    if records != [] {
      var r, tail := records[0], records[1..];
      DistinctDaysExactly(tail, today);
      assert records == [r] + tail;
      assert forall i :: 0 < i < |records| ==> records[i] == tail[i - 1];
      HasDayCons(r, tail);
      SortingOne(r, tail, today);
    }
  }

  lemma SortingOne(r: Record, tail: seq<Record>, today: int)
    requires r.day == today + r.offset && forall i :: 0 <= i < |tail| ==> tail[i].day == today + tail[i].offset
    requires StrictlyDescending(NewestFirst(tail)) <==> DistinctOffsets(tail)
    requires forall d :: HasDay(NewestFirst(tail), d) <==> HasDay(tail, d)
    ensures StrictlyDescending(InsertByDay(r, NewestFirst(tail))) <==> DistinctOffsets([r] + tail)
    ensures forall d :: HasDay(InsertByDay(r, NewestFirst(tail)), d) <==> d == r.day || HasDay(tail, d)
  {
    var sorted := NewestFirst(tail);
    NewestFirstSorts(tail);
    hide NewestFirst;
    InsertDays(r, sorted);
    DistinctCons(r, tail);
    if StrictlyDescending(sorted) {
      InsertStrict(r, sorted);
      assert (exists i :: 0 <= i < |sorted| && sorted[i].day == r.day) <==> HasDay(sorted, r.day);
      assert (exists i :: 0 <= i < |tail| && tail[i].offset == r.offset) <==> HasDay(tail, r.day);
    } else {
      InsertKeepsTies(r, sorted);
    }
  }

  lemma DistinctCons(r: Record, tail: seq<Record>)
    ensures DistinctOffsets([r] + tail) <==> DistinctOffsets(tail) && forall i :: 0 <= i < |tail| ==> tail[i].offset != r.offset
  {
    var all := [r] + tail;
    assert forall i :: 0 < i < |all| ==> all[i] == tail[i - 1];
    if DistinctOffsets(all) {
      forall i, j | 0 <= i < j < |tail|
        ensures tail[i].offset != tail[j].offset
      {
        assert all[i + 1].offset != all[j + 1].offset;
      }
      forall i | 0 <= i < |tail|
        ensures tail[i].offset != r.offset
      {
        assert all[0].offset != all[i + 1].offset;
      }
    }
  }

  lemma {:induction false} InsertDays(r: Record, records: seq<Record>)
    ensures forall d :: HasDay(InsertByDay(r, records), d) <==> d == r.day || HasDay(records, d)
  {
    if records == [] || records[0].day <= r.day {
      HasDayCons(r, records);
    } else {
      InsertDays(r, records[1..]);
      assert records == [records[0]] + records[1..];
      HasDayCons(records[0], InsertByDay(r, records[1..]));
      HasDayCons(records[0], records[1..]);
    }
  }

  lemma {:induction false} InsertKeepsTies(r: Record, records: seq<Record>)
    requires !StrictlyDescending(records)
    ensures !StrictlyDescending(InsertByDay(r, records))
  {
    if StrictlyDescending(InsertByDay(r, records)) {
      StrictWithout(r, records);
    }
  }

  lemma {:induction false} StrictWithout(r: Record, records: seq<Record>)
    requires StrictlyDescending(InsertByDay(r, records))
    ensures StrictlyDescending(records)
  {
    var all := InsertByDay(r, records);
    if records == [] || records[0].day <= r.day {
      TailStrict(all);
      assert all[1..] == records;
    } else {
      var tail := records[1..];
      assert all[1..] == InsertByDay(r, tail);
      TailStrict(all);
      StrictWithout(r, tail);
      InsertDays(r, tail);
      assert records == [records[0]] + tail;
      forall i | 0 <= i < |tail|
        ensures tail[i].day < records[0].day
      {
        assert HasDay(tail, tail[i].day);
        assert HasDay(all[1..], tail[i].day);
        var j :| 0 <= j < |all[1..]| && all[1..][j].day == tail[i].day;
        assert all[0].day > all[j + 1].day;
      }
      StrictCons(records[0], tail);
    }
  }

  lemma TailStrict(all: seq<Record>)
    requires StrictlyDescending(all) && all != []
    ensures StrictlyDescending(all[1..])
  {
  }
}
