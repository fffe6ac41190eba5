/** Writing a row into a log and reading the log again. */
module TableRoundTrip {
  import opened Text
  import opened TextWrap
  import opened TablePrinter
  import opened TableScan
  import opened TableParser
  import opened LineWords
  import opened TableRow
  import opened TableWriter

  // ---------------------------------------------------------------- the kinds of lines

  lemma EmptyLineIsBlank(title: string)
    ensures TakesEmptyAsBlank(Pandoc(title))
  {
    assert Strip("") == "";
  }

  lemma PlainIsData(title: string, row: seq<string>)
    requires ArePlain(row)
    ensures AreData(Pandoc(title), row) && AreLines(row)
  {
    forall i | 0 <= i < |row| ensures IsData(Pandoc(title), row[i]) && '\n' !in row[i] {
      assert IsPlain(row[i]);
      NoBreakIs(row[i]);
    }
  }

  lemma DashLineIsNoHeading(line: string)
    requires IsDashLine(line)
    ensures !IsHeading(line)
  {
  }

  // ---------------------------------------------------------------- documents

  /** The document's lines. */
  function LinesOf(text: string): (lines: seq<string>)
    ensures lines != [] && AreLines(lines)
  {
    Split(text, '\n')
  }

  /** What the reader makes of the document. */
  function RowsOf(text: string, title: string): (r: seq<map<string, string>>) {
    Table(Pandoc(title), LinesOf(text))
  }

  /** A document with a table of the printer's columns, at the given place. */
  ghost predicate HasTable(title: string, lines: seq<string>, widths: seq<nat>, l: Layout) {
    IsAt(Pandoc(title), lines, l) && AreWidths(widths) && DashRuns(lines[l.separator]) == Bounds(widths)
  }

  /** A document with such a table, whose data ends at the boundary the log's writer inserts before. */
  ghost predicate IsWellFormed(log: Log, title: string, lines: seq<string>, widths: seq<nat>, l: Layout) {
    HasTable(title, lines, widths, l) && EndsAtClosing(Pandoc(title), Boundary(log), lines, l)
  }

  /** The row's text, as the printer makes it. */
  function RowText(breaks: Breaks, row: seq<seq<string>>, widths: seq<nat>): (r: string)
    requires |row| == |widths| && AreWidths(widths)
  {
    Join(RowLines(breaks, Cells(row), widths), '\n')
  }

  /** The document written by inserting before line c. */
  lemma WrittenAt(log: Log, title: string, text: string, row: seq<string>, l: Layout, c: nat) returns (written: string)
    requires IsAt(Pandoc(title), LinesOf(text), l) && Closing(IsHeading, Boundary(log), LinesOf(text), l.heading) == Some(c)
    requires row != [] && ArePlain(row)
    ensures Append(log, title, text, Join(row, '\n')) == Written(written)
    ensures LinesOf(written) == WithRow(LinesOf(text), c, row)
  {
    PlainIsData(title, row);
    WrittenLines(log, title, text, row, LinesOf(text), l.heading, c);
    written := Append(log, title, text, Join(row, '\n')).text;
  }

  lemma TableIsThere(title: string, lines: seq<string>, l: Layout)
    requires IsAt(Pandoc(title), lines, l)
    ensures Table(Pandoc(title), lines) == TableAt(Pandoc(title), lines, l)
  {
    FoundIsAt(Pandoc(title), lines, l);
  }

  lemma RecordsSnoc(names: seq<string>, bounds: seq<(nat, nat)>, groups: seq<seq<string>>, row: seq<string>)
    requires AreBounds(bounds) && |names| == |bounds|
    ensures Records(names, bounds, groups + [row]) == Records(names, bounds, groups) + [Record(names, CellTexts(row, bounds))]
  {
    assert (groups + [row])[..|groups|] == groups;
  }

  lemma OneMoreRow(title: string, lines: seq<string>, widths: seq<nat>, l: Layout, row: seq<string>, all: seq<string>, moved: Layout)
    requires IsLaidOut(l, |lines|) && l.end < |lines| && row != [] && ArePlain(row)
    requires DashRuns(lines[l.separator]) == Bounds(widths)
    requires all == WithRow(lines, l.end, row) && moved == l.(end := l.end + 1 + |row|)
    requires all[l.header] == lines[l.header] && all[l.separator] == lines[l.separator]
    ensures TableAt(Pandoc(title), all, moved)
         == TableAt(Pandoc(title), lines, l) + [Record(ColumnNames(lines, l), CellTexts(row, Bounds(widths)))]
  {
    EmptyLineIsBlank(title);
    PlainIsData(title, row);
    RowComesLast(Pandoc(title), lines, l, row);
    RecordsSnoc(ColumnNames(lines, l), Bounds(widths), Data(Pandoc(title), lines, l), row);
  }

  /** A row put in before the end of the data: the document stays well-formed, its column names stay, and the
      reader finds the old rows followed by the new one. */
  lemma InsertedRowIsRead(log: Log, title: string, lines: seq<string>, widths: seq<nat>, l: Layout, row: seq<string>)
    requires IsWellFormed(log, title, lines, widths, l) && row != [] && ArePlain(row)
    ensures var all, moved := WithRow(lines, l.end, row), l.(end := l.end + 1 + |row|);
      && IsWellFormed(log, title, all, widths, moved) && ColumnNames(all, moved) == ColumnNames(lines, l)
      && Table(Pandoc(title), all)
      == Table(Pandoc(title), lines) + [Record(ColumnNames(lines, l), CellTexts(row, Bounds(widths)))]
  {
    var all, moved := WithRow(lines, l.end, row), l.(end := l.end + 1 + |row|);
    EmptyLineIsBlank(title);
    PlainIsData(title, row);
    RowMovesTheEnd(Pandoc(title), Boundary(log), lines, l, row);
    OneMoreRow(title, lines, widths, l, row, all, moved);
    TableIsThere(title, lines, l);
    TableIsThere(title, all, moved);
  }

  /** A row put in behind the end of the data is not read. */
  lemma RowBehindTheTableIsLost(title: string, lines: seq<string>, l: Layout, c: nat, row: seq<string>)
    requires IsAt(Pandoc(title), lines, l) && l.end < c < |lines|
    ensures Table(Pandoc(title), WithRow(lines, c, row)) == Table(Pandoc(title), lines)
  {
    RowBehindTheEnd(Pandoc(title), lines, l, c, row);
    TableIsThere(title, lines, l);
    TableIsThere(title, WithRow(lines, c, row), l);
  }

  // ---------------------------------------------------------------- rows of words

  /** Appending a row whose lines the parser takes for data: it is read back with the cells that come back from
      its wrapped lines; with the very cells written exactly when wrapping splits none of its words. */
  lemma AppendedRowIsRead(breaks: Breaks, log: Log, title: string, text: string, widths: seq<nat>, l: Layout, row: seq<seq<string>>)
    returns (written: string, moved: Layout)
    requires IsWellFormed(log, title, LinesOf(text), widths, l)
    requires |row| == |widths| && AreRowWords(row) && RowLines(breaks, Cells(row), widths) != []
    requires ArePlain(RowLines(breaks, Cells(row), widths))
    ensures Append(log, title, text, RowText(breaks, row, widths)) == Written(written)
    ensures IsWellFormed(log, title, LinesOf(written), widths, moved)
    ensures ColumnNames(LinesOf(written), moved) == ColumnNames(LinesOf(text), l)
    ensures RowsOf(written, title) == RowsOf(text, title) + [Record(ColumnNames(LinesOf(text), l), RowRead(breaks, row, widths))]
    ensures RowRead(breaks, row, widths) == Cells(row) <==> IsUnsplit(breaks, row, widths)
  {
    var lines := RowLines(breaks, Cells(row), widths);
    written := WrittenAt(log, title, text, lines, l, l.end);
    moved := l.(end := l.end + 1 + |lines|);
    InsertedRowIsRead(log, title, LinesOf(text), widths, l, lines);
    RowRoundTrip(breaks, row, widths);
  }

  /** Appending a row in the domain: the rows read are the old ones and one with the very cells written, and the
      document is ready for the next. */
  lemma WriteThenRead(breaks: Breaks, log: Log, title: string, text: string, widths: seq<nat>, l: Layout, row: seq<seq<string>>)
    returns (written: string, moved: Layout)
    requires IsWellFormed(log, title, LinesOf(text), widths, l) && InDomain(breaks, row, widths)
    ensures Append(log, title, text, RowText(breaks, row, widths)) == Written(written)
    ensures IsWellFormed(log, title, LinesOf(written), widths, moved)
    ensures ColumnNames(LinesOf(written), moved) == ColumnNames(LinesOf(text), l)
    ensures RowsOf(written, title) == RowsOf(text, title) + [Record(ColumnNames(LinesOf(text), l), Cells(row))]
  {
    RowIsPlain(breaks, row, widths, RowLines(breaks, Cells(row), widths));
    written, moved := AppendedRowIsRead(breaks, log, title, text, widths, l, row);
  }

  lemma HeadingsAreMarks(title: string)
    ensures forall s :: IsHeading(s) ==> StartsTable(s) && EndsTable(s)
  {
    forall s | IsHeading(s) ensures !IsBlank(s) { BlankIsStripped(s); }
  }

  /** When the table's data ends at a boundary, an appended row is read back exactly when no later boundary
      stands in the section; otherwise it goes behind the table, and the rows read stay as they were. */
  lemma RowIsReadExactlyWhen(breaks: Breaks, log: Log, title: string, text: string, widths: seq<nat>, l: Layout, row: seq<seq<string>>)
    returns (written: string)
    requires HasTable(title, LinesOf(text), widths, l) && InDomain(breaks, row, widths)
    requires l.end < |LinesOf(text)| && Boundary(log)(LinesOf(text)[l.end])
    ensures Append(log, title, text, RowText(breaks, row, widths)) == Written(written)
    ensures var before, after := RowsOf(text, title), RowsOf(written, title);
      if Closing(IsHeading, Boundary(log), LinesOf(text), l.heading) == Some(l.end)
      then after == before + [Record(ColumnNames(LinesOf(text), l), Cells(row))]
      else after == before
  {
    HeadingsAreMarks(title);
    DashLineIsNoHeading(LinesOf(text)[l.end]);
    var c := ClosingIsNotAbove(Pandoc(title), Boundary(log), LinesOf(text), l);
    if c == l.end {
      var moved;
      written, moved := WriteThenRead(breaks, log, title, text, widths, l, row);
    } else {
      RowIsPlain(breaks, row, widths, RowLines(breaks, Cells(row), widths));
      written := WrittenAt(log, title, text, RowLines(breaks, Cells(row), widths), l, c);
      RowBehindTheTableIsLost(title, LinesOf(text), l, c, RowLines(breaks, Cells(row), widths));
    }
  }
}
