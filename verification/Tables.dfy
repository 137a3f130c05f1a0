/** The HTML table reader of history/retained/liveview.py, over the events of the HTML tokenizer. */
module Tables {
  import opened Options
  import opened Text
  import opened Sequences

  // ----- Cleaned text -----

  /** The length of the run of non-space characters at the start. */
  function WordLength(s: string): (n: nat)
    ensures n <= |s| && (n < |s| ==> IsSpace(s[n])) && forall i :: 0 <= i < n ==> !IsSpace(s[i])
  {
    if s == "" || IsSpace(s[0]) then 0 else 1 + WordLength(s[1..])
  }

  function Words(s: string): seq<string>
    decreases |s|
  {
    if s == "" then []
    else
      var n := WordLength(s);
      if n == 0 then Words(s[1..]) else [s[..n]] + Words(s[n..])
  }

  function Joined(words: seq<string>): string {
    if words == [] then "" else if |words| == 1 then words[0] else words[0] + " " + Joined(words[1..])
  }

  /** Non-breaking spaces count as space for splitting too. */
  function CleanText(s: string): string {
    Joined(Words(s))
  }

  predicate IsWord(w: string) {
    w != "" && forall i :: 0 <= i < |w| ==> !IsSpace(w[i])
  }

  lemma {:induction false} WordsAreWords(s: string)
    ensures forall i :: 0 <= i < |Words(s)| ==> IsWord(Words(s)[i])
    decreases |s|
  {
    if s != "" {
      var n := WordLength(s);
      if n == 0 {
        WordsAreWords(s[1..]);
      } else {
        WordsAreWords(s[n..]);
        assert IsWord(s[..n]);
      }
    }
  }

  lemma WordLengthIs(s: string, n: nat)
    requires n <= |s| && (n < |s| ==> IsSpace(s[n])) && forall i :: 0 <= i < n ==> !IsSpace(s[i])
    ensures WordLength(s) == n
  {
  }

  lemma FirstWord(w: string, rest: string)
    requires IsWord(w) && (rest != "" ==> IsSpace(rest[0]))
    ensures Words(w + rest) == [w] + Words(rest)
  {
    hide IsSpace;
    var text, n := w + rest, |w|;
    assert forall i :: 0 <= i < n ==> text[i] == w[i];
    WordLengthIs(text, n);
    assert text[..n] == w && text[n..] == rest;
  }

  lemma SpaceFirst(s: string)
    ensures Words(" " + s) == Words(s) && IsSpace(' ')
  {
    var text := " " + s;
    WordLengthIs(text, 0);
    assert text[1..] == s;
  }

  lemma {:induction false} WordsOfJoined(words: seq<string>)
    requires forall i :: 0 <= i < |words| ==> IsWord(words[i])
    ensures Words(Joined(words)) == words
  {
    hide IsSpace, IsWord, Words;
    if words == [] {
      NoWords();
    } else if |words| == 1 {
      NoWords();
      assert words[0] + "" == words[0];
      FirstWord(words[0], "");
    } else {
      var rest := Joined(words[1..]);
      SpaceFirst(rest);
      FirstWord(words[0], " " + rest);
      assert words[0] + " " + rest == words[0] + (" " + rest);
      WordsOfJoined(words[1..]);
      assert words == [words[0]] + words[1..];
    }
  }

  lemma NoWords()
    ensures Words("") == []
  {
  }

  /** Cleaning twice is cleaning once. */
  lemma CleanTextIdempotent(s: string)
    ensures CleanText(CleanText(s)) == CleanText(s)
  {
    WordsAreWords(s);
    WordsOfJoined(Words(s));
  }

  // ----- The parser -----

  datatype Event = Start(tag: string) | End(tag: string) | Data(text: string)

  type Grid = seq<seq<string>>

  datatype State = State(
    tables: seq<Grid>,
    depth: nat,
    table: Option<Grid>,
    row: Option<seq<string>>,
    cell: Option<seq<string>>)

  const EMPTY := State([], 0, None, None, None)

  function Concat(chunks: seq<string>): string {
    if chunks == [] then "" else Concat(Init(chunks)) + Last(chunks)
  }

  predicate AnyText(row: seq<string>) {
    exists i :: 0 <= i < |row| && row[i] != ""
  }

  predicate CellTag(tag: string) {
    tag == "td" || tag == "th"
  }

  function Handle(s: State, e: Event): State {
    match e
    case Start(tag) =>
      if tag == "table" then s.(table := if s.depth == 0 then Some([]) else s.table, depth := s.depth + 1)
      else if tag == "tr" && s.depth == 1 then s.(row := Some([]))
      else if CellTag(tag) && s.depth == 1 && s.row.Some? then s.(cell := Some([]))
      else s
    case Data(text) =>
      if s.cell.Some? then s.(cell := Some(s.cell.value + [text])) else s
    case End(tag) =>
      if CellTag(tag) && s.cell.Some? && s.row.Some? then
        s.(row := Some(s.row.value + [CleanText(Concat(s.cell.value))]), cell := None)
      else if tag == "tr" && s.row.Some? && s.table.Some? then
        s.(table := Some(if AnyText(s.row.value) then s.table.value + [s.row.value] else s.table.value), row := None)
      else if tag == "table" && s.depth > 0 then
        var t := s.(depth := s.depth - 1);
        if t.depth == 0 && t.table.Some? then
          t.(tables := if t.table.value != [] then t.tables + [t.table.value] else t.tables, table := None)
        else t
      else s
  }

  function Run(s: State, events: seq<Event>): State {
    if events == [] then s else Handle(Run(s, Init(events)), Last(events))
  }

  class TableParser {
    var tables: seq<Grid>
    var depth: nat
    var table: Option<Grid>
    var row: Option<seq<string>>
    var cell: Option<seq<string>>

    function Abstract(): State
      reads this
    {
      State(tables, depth, table, row, cell)
    }

    constructor ()
      ensures Abstract() == EMPTY
    {
      tables, depth, table, row, cell := [], 0, None, None, None;
    }

    method HandleStartTag(tag: string)
      modifies this
      ensures Abstract() == Handle(old(Abstract()), Start(tag))
    {
      if tag == "table" {
        if depth == 0 {
          table := Some([]);
        }
        depth := depth + 1;
      } else if tag == "tr" && depth == 1 {
        row := Some([]);
      } else if CellTag(tag) && depth == 1 && row.Some? {
        cell := Some([]);
      }
    }

    method HandleData(text: string)
      modifies this
      ensures Abstract() == Handle(old(Abstract()), Data(text))
    {
      if cell.Some? {
        cell := Some(cell.value + [text]);
      }
    }

    method HandleEndTag(tag: string)
      modifies this
      ensures Abstract() == Handle(old(Abstract()), End(tag))
    {
      if CellTag(tag) && cell.Some? && row.Some? {
        row := Some(row.value + [CleanText(Concat(cell.value))]);
        cell := None;
      } else if tag == "tr" && row.Some? && table.Some? {
        if AnyText(row.value) {
          table := Some(table.value + [row.value]);
        }
        row := None;
      } else if tag == "table" && depth > 0 {
        depth := depth - 1;
        if depth == 0 && table.Some? {
          if table.value != [] {
            tables := tables + [table.value];
          }
          table := None;
        }
      }
    }

    method Feed(events: seq<Event>)
      modifies this
      ensures Abstract() == Run(old(Abstract()), events)
    {
      for i := 0 to |events|
        invariant Abstract() == Run(old(Abstract()), events[..i])
      {
        assert Init(events[..i + 1]) == events[..i];
        match events[i]
        case Start(tag) => HandleStartTag(tag);
        case End(tag) => HandleEndTag(tag);
        case Data(text) => HandleData(text);
      }
      assert events[..|events|] == events;
    }
  }

  // ----- Printing flat tables -----

  /** Text, or the tag of something that is not part of a table. */
  predicate Inert(e: Event) {
    match e
    case Data(_) => true
    case Start(tag) => tag != "table" && tag != "tr" && !CellTag(tag)
    case End(tag) => tag != "table" && tag != "tr" && !CellTag(tag)
  }

  ghost predicate AllInert(events: seq<Event>) {
    forall i :: 0 <= i < |events| ==> Inert(events[i])
  }

  /** What is printed between the tags; text is given in chunks, and may hold inline markup. */
  datatype PrintedCell = PrintedCell(before: seq<Event>, heading: bool, content: seq<Event>)

  datatype PrintedRow = PrintedRow(before: seq<Event>, cells: seq<PrintedCell>, after: seq<Event>)

  datatype PrintedTable = PrintedTable(before: seq<Event>, rows: seq<PrintedRow>, after: seq<Event>)

  ghost predicate FlatCell(c: PrintedCell) {
    AllInert(c.before) && AllInert(c.content)
  }

  ghost predicate FlatRow(r: PrintedRow) {
    AllInert(r.before) && AllInert(r.after) && forall i :: 0 <= i < |r.cells| ==> FlatCell(r.cells[i])
  }

  ghost predicate FlatTable(t: PrintedTable) {
    AllInert(t.before) && AllInert(t.after) && forall i :: 0 <= i < |t.rows| ==> FlatRow(t.rows[i])
  }

  function TagOf(c: PrintedCell): string {
    if c.heading then "th" else "td"
  }

  function PrintCell(c: PrintedCell): seq<Event> {
    c.before + [Start(TagOf(c))] + c.content + [End(TagOf(c))]
  }

  function PrintCells(cells: seq<PrintedCell>): seq<Event> {
    if cells == [] then [] else PrintCells(Init(cells)) + PrintCell(Last(cells))
  }

  function PrintRow(r: PrintedRow): seq<Event> {
    r.before + [Start("tr")] + PrintCells(r.cells) + r.after + [End("tr")]
  }

  function PrintRows(rows: seq<PrintedRow>): seq<Event> {
    if rows == [] then [] else PrintRows(Init(rows)) + PrintRow(Last(rows))
  }

  function PrintTable(t: PrintedTable): seq<Event> {
    t.before + [Start("table")] + PrintRows(t.rows) + t.after + [End("table")]
  }

  function Print(tables: seq<PrintedTable>): seq<Event> {
    if tables == [] then [] else Print(Init(tables)) + PrintTable(Last(tables))
  }

  // ----- What was printed -----

  function Chunks(content: seq<Event>): seq<string> {
    if content == [] then []
    else Chunks(Init(content)) + if Last(content).Data? then [Last(content).text] else []
  }

  function CellText(c: PrintedCell): string {
    CleanText(Concat(Chunks(c.content)))
  }

  function RowTexts(cells: seq<PrintedCell>): seq<string> {
    if cells == [] then [] else RowTexts(Init(cells)) + [CellText(Last(cells))]
  }

  /** Rows without any text are dropped. */
  function GridOf(rows: seq<PrintedRow>): Grid {
    if rows == [] then []
    else GridOf(Init(rows)) + if AnyText(RowTexts(Last(rows).cells)) then [RowTexts(Last(rows).cells)] else []
  }

  /** Tables without any row are dropped. */
  function GridsOf(tables: seq<PrintedTable>): seq<Grid> {
    if tables == [] then []
    else GridsOf(Init(tables)) + if GridOf(Last(tables).rows) != [] then [GridOf(Last(tables).rows)] else []
  }

  lemma {:induction false} RunSplit(s: State, a: seq<Event>, b: seq<Event>)
    ensures Run(s, a + b) == Run(Run(s, a), b)
  {
    if b == [] {
      assert a + b == a;
    } else {
      assert Init(a + b) == a + Init(b);
      RunSplit(s, a, Init(b));
    }
  }

  lemma RunSnoc(s: State, a: seq<Event>, e: Event)
    ensures Run(s, a + [e]) == Handle(Run(s, a), e)
  {
  }

  lemma {:induction false} InertOutside(s: State, events: seq<Event>)
    requires s.cell.None? && AllInert(events)
    ensures Run(s, events) == s
  {
    if events != [] {
      InertOutside(s, Init(events));
      assert Inert(Last(events));
    }
  }

  lemma {:induction false} InertInside(s: State, events: seq<Event>)
    requires s.cell.Some? && AllInert(events)
    ensures Run(s, events) == s.(cell := Some(s.cell.value + Chunks(events)))
  {
    if events == [] {
      assert s.cell.value + [] == s.cell.value;
    } else {
      InertInside(s, Init(events));
      assert Inert(Last(events));
      if Last(events).Data? {
        assert s.cell.value + Chunks(events) == s.cell.value + Chunks(Init(events)) + [Last(events).text];
      } else {
        assert Chunks(events) == Chunks(Init(events));
      }
    }
  }

  lemma ReadsCell(s: State, c: PrintedCell)
    requires s.depth == 1 && s.row.Some? && s.cell.None? && FlatCell(c)
    ensures Run(s, PrintCell(c)) == s.(row := Some(s.row.value + [CellText(c)]))
  {
    var tag := TagOf(c);
    var inside := s.(cell := Some([]));
    RunSnoc(s, c.before + [Start(tag)] + c.content, End(tag));
    RunSplit(s, c.before + [Start(tag)], c.content);
    RunSnoc(s, c.before, Start(tag));
    InertOutside(s, c.before);
    InertInside(inside, c.content);
    assert [] + Chunks(c.content) == Chunks(c.content);
    hide CleanText, Concat, Run, Chunks, Inert;
  }

  lemma {:induction false} ReadsCells(s: State, cells: seq<PrintedCell>)
    requires s.depth == 1 && s.row.Some? && s.cell.None?
    requires forall i :: 0 <= i < |cells| ==> FlatCell(cells[i])
    ensures Run(s, PrintCells(cells)) == s.(row := Some(s.row.value + RowTexts(cells)))
  {
    hide FlatCell, CellText, PrintCell;
    if cells == [] {
      assert s.row.value + [] == s.row.value;
    } else {
      ReadsCells(s, Init(cells));
      RunSplit(s, PrintCells(Init(cells)), PrintCell(Last(cells)));
      ReadsCell(Run(s, PrintCells(Init(cells))), Last(cells));
      assert s.row.value + RowTexts(cells) == s.row.value + RowTexts(Init(cells)) + [CellText(Last(cells))];
    }
  }

  lemma ReadsRow(s: State, r: PrintedRow)
    requires s.depth == 1 && s.table.Some? && s.row.None? && s.cell.None? && FlatRow(r)
    ensures
      var texts := RowTexts(r.cells);
      Run(s, PrintRow(r)) == s.(table := Some(s.table.value + if AnyText(texts) then [texts] else []))
  {
    var texts, inside := RowTexts(r.cells), s.(row := Some([]));
    RunSnoc(s, r.before + [Start("tr")] + PrintCells(r.cells) + r.after, End("tr"));
    RunSplit(s, r.before + [Start("tr")] + PrintCells(r.cells), r.after);
    RunSplit(s, r.before + [Start("tr")], PrintCells(r.cells));
    RunSnoc(s, r.before, Start("tr"));
    InertOutside(s, r.before);
    ReadsCells(inside, r.cells);
    assert [] + texts == texts;
    InertOutside(inside.(row := Some(texts)), r.after);
    assert s.table.value + [] == s.table.value;
    hide Run, RowTexts, PrintCells, AnyText;
  }

  lemma {:induction false} ReadsRows(s: State, rows: seq<PrintedRow>)
    requires s.depth == 1 && s.table.Some? && s.row.None? && s.cell.None?
    requires forall i :: 0 <= i < |rows| ==> FlatRow(rows[i])
    ensures Run(s, PrintRows(rows)) == s.(table := Some(s.table.value + GridOf(rows)))
  {
    hide FlatRow, RowTexts, PrintRow, AnyText;
    if rows == [] {
      assert s.table.value + [] == s.table.value;
    } else {
      ReadsRows(s, Init(rows));
      RunSplit(s, PrintRows(Init(rows)), PrintRow(Last(rows)));
      ReadsRow(Run(s, PrintRows(Init(rows))), Last(rows));
      var texts := RowTexts(Last(rows).cells);
      assert s.table.value + GridOf(rows) == s.table.value + GridOf(Init(rows)) + if AnyText(texts) then [texts] else [];
    }
  }

  lemma ReadsTable(s: State, t: PrintedTable)
    requires s.depth == 0 && s.table.None? && s.row.None? && s.cell.None? && FlatTable(t)
    ensures
      var grid := GridOf(t.rows);
      Run(s, PrintTable(t)) == s.(tables := s.tables + if grid != [] then [grid] else [])
  {
    hide Run, GridOf, PrintRows, Handle, CellTag;
    var grid, inside := GridOf(t.rows), s.(table := Some([]), depth := 1);
    TableOpens(s);
    TableCloses(inside.(table := Some(grid)));
    RunSnoc(s, t.before + [Start("table")] + PrintRows(t.rows) + t.after, End("table"));
    RunSplit(s, t.before + [Start("table")] + PrintRows(t.rows), t.after);
    RunSplit(s, t.before + [Start("table")], PrintRows(t.rows));
    RunSnoc(s, t.before, Start("table"));
    InertOutside(s, t.before);
    ReadsRows(inside, t.rows);
    assert [] + grid == grid;
    InertOutside(inside.(table := Some(grid)), t.after);
  }

  lemma TableOpens(s: State)
    requires s.depth == 0
    ensures Handle(s, Start("table")) == s.(table := Some([]), depth := 1)
  {
  }

  lemma TableCloses(s: State)
    requires s.depth == 1 && s.table.Some? && s.row.None? && s.cell.None?
    ensures
      var grid := s.table.value;
      Handle(s, End("table")) == s.(depth := 0, table := None, tables := s.tables + if grid != [] then [grid] else [])
  {
  }

  /** Reading undoes printing: the cleaned text of every non-blank row of every table, in order, and nothing else. */
  lemma {:induction false} ReadingUndoesPrinting(tables: seq<PrintedTable>)
    requires forall i :: 0 <= i < |tables| ==> FlatTable(tables[i])
    ensures Run(EMPTY, Print(tables)) == EMPTY.(tables := GridsOf(tables))
  {
    hide FlatTable, GridOf, PrintTable;
    if tables != [] {
      ReadingUndoesPrinting(Init(tables));
      RunSplit(EMPTY, Print(Init(tables)), PrintTable(Last(tables)));
      ReadsTable(Run(EMPTY, Print(Init(tables))), Last(tables));
    }
  }

  /** How the tokenizer splits the text of a cell does not matter. */
  lemma {:induction false} ChunkingIrrelevant(a: seq<string>, b: seq<string>)
    ensures Concat(a + b) == Concat(a) + Concat(b)
  {
    if b == [] {
      assert a + b == a;
    } else {
      assert Init(a + b) == a + Init(b);
      ChunkingIrrelevant(a, Init(b));
      var front := Concat(Init(b));
      assert Concat(a) + (front + Last(b)) == (Concat(a) + front) + Last(b);
    }
  }
}
