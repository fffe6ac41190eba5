/** Logging operations: each append takes the next identifier, writes a row and leaves a document that loads as
    one operation more, as long as identifiers do not run out. */
module OperationLogging {
  import opened Text
  import opened TextWrap
  import opened WrapReading
  import opened TablePrinter
  import opened TableScan
  import opened TableParser
  import opened LineWords
  import opened TableRow
  import opened TableWriter
  import opened TableRoundTrip
  import opened TableTemplate
  import opened OperationIds
  import opened BusinessRecords
  import opened Ordering

  // ---------------------------------------------------------------- what a text holds

  lemma HoldsPart(text: string, before: string, piece: string, after: string)
    requires text == before + piece + after
    ensures Holds(text, piece)
  {
    assert HoldsAt(text, piece, |before|);
  }

  lemma SliceOfSlice(s: string, a: nat, b: nat, c: nat, d: nat)
    requires a <= b <= |s| && c <= d <= b - a
    ensures s[a..b][c..d] == s[a + c..a + d]
  {
    var piece, same := s[a..b][c..d], s[a + c..a + d];
    forall k | 0 <= k < d - c ensures piece[k] == same[k] {
      assert piece[k] == s[a..b][c + k] == s[a + (c + k)];
    }
  }

  lemma HoldsTransitive(text: string, middle: string, piece: string)
    requires Holds(text, middle) && Holds(middle, piece)
    ensures Holds(text, piece)
  {
    var i: nat :| HoldsAt(text, middle, i);
    var j: nat :| HoldsAt(middle, piece, j);
    SliceOfSlice(text, i, i + |middle|, j, j + |piece|);
    assert HoldsAt(text, piece, i + j);
  }

  lemma {:induction false} JoinHolds(parts: seq<string>, c: char, i: nat)
    requires i < |parts|
    ensures Holds(Join(parts, c), parts[i])
  {
    if |parts| == 1 {
      HoldsPart(parts[0], "", parts[0], "");
      assert "" + parts[0] + "" == parts[0];
    } else if i == 0 {
      HoldsPart(Join(parts, c), "", parts[0], [c] + Join(parts[1..], c));
      assert Join(parts, c) == "" + parts[0] + ([c] + Join(parts[1..], c));
    } else {
      JoinHolds(parts[1..], c, i - 1);
      var rest := Join(parts[1..], c);
      HoldsPart(Join(parts, c), parts[0] + [c], rest, "");
      assert Join(parts, c) == (parts[0] + [c]) + rest + "";
      HoldsTransitive(Join(parts, c), rest, parts[i]);
    }
  }

  /** A text holds each of its lines. */
  lemma HoldsLine(text: string, i: nat)
    requires i < |Split(text, '\n')|
    ensures Holds(text, Split(text, '\n')[i])
  {
    JoinSplit(text, '\n');
    JoinHolds(Split(text, '\n'), '\n', i);
  }

  lemma HoldsStripped(s: string)
    ensures Holds(s, Strip(s))
  {
    var before, after := StripParts(s);
    HoldsPart(s, before, Strip(s), after);
  }

  lemma HoldsSlice(line: string, from: nat, to: nat)
    requires from <= to
    ensures Holds(line, Slice(line, from, to))
  {
    var end := if to < |line| then to else |line|;
    if from < |line| {
      HoldsPart(line, line[..from], line[from..end], line[end..]);
      assert line == line[..from] + line[from..end] + line[end..];
    } else {
      HoldsPart(line, "", "", line);
      assert line == "" + "" + line;
    }
  }

  lemma HeldCharacter(text: string, piece: string, i: nat, n: nat)
    requires HoldsAt(text, piece, i)
    ensures i <= n < i + |piece| ==> text[n] in piece
  {
    if i <= n < i + |piece| { assert text[i..i + |piece|][n - i] == text[n]; }
  }

  /** Of parts joined together, one at least holds a piece without the character between them. */
  lemma {:induction false} SomePartHolds(parts: seq<string>, c: char, piece: string, i: nat) returns (j: nat)
    requires piece != "" && c !in piece && HoldsAt(Join(parts, c), piece, i)
    ensures j < |parts| && Holds(parts[j], piece)
  {
    var first, text := parts[0], Join(parts, c);
    HeldCharacter(text, piece, i, |first|);
    j := 0;
    if |parts| == 1 || i + |piece| <= |first| {
      assert first[i..i + |piece|] == text[i..i + |piece|];
      assert HoldsAt(first, piece, i);
    } else {
      var rest, at := Join(parts[1..], c), i - |first| - 1;
      assert text == first + [c] + rest && rest[at..at + |piece|] == text[i..i + |piece|];
      j := SomePartHolds(parts[1..], c, piece, at);
      j := j + 1;
    }
  }

  // ---------------------------------------------------------------- an identifier in a row is in the text

  lemma StripIsSolid(s: string)
    ensures Strip(s) == "" || IsSolid(Strip(s))
  {
    var t := TrimRight(s, IsSpace);
    var k, j := RightEnd(s, IsSpace, |s|), LeftEnd(t, IsSpace, 0);
    RightEndFacts(s, IsSpace, |s|);
    LeftEndFacts(t, IsSpace, 0);
    SpanIs(s, 0, k);
    SpanIs(t, j, |t|);
    if Strip(s) != "" {
      assert Strip(s)[0] == t[j] && Strip(s)[|Strip(s)| - 1] == t[|t| - 1] == s[k - 1];
    }
  }

  /** Each of a cell's parts is held by one of its lines. */
  lemma {:induction false} PartIsHeld(lines: seq<string>, from: nat, to: nat, part: string) returns (i: nat)
    requires from <= to && part in CellParts(lines, from, to)
    ensures i < |lines| && Holds(lines[i], part) && IsSolid(part)
  {
    var n := |lines| - 1;
    var text := Strip(Slice(lines[n], from, to));
    PartsStep(lines, n, from, to, text);
    assert lines[..n + 1] == lines;
    if part in CellParts(lines[..n], from, to) {
      i := PartIsHeld(lines[..n], from, to, part);
    } else {
      i := n;
      HoldsSlice(lines[n], from, to);
      HoldsStripped(Slice(lines[n], from, to));
      HoldsTransitive(lines[n], Slice(lines[n], from, to), part);
      StripIsSolid(Slice(lines[n], from, to));
    }
  }

  lemma {:induction false} SolidParts(parts: seq<string>)
    requires parts != [] && forall i :: 0 <= i < |parts| ==> IsSolid(parts[i])
    ensures IsSolid(Sentence(parts)) && (|parts| > 1 ==> ' ' in Sentence(parts))
  {
    if |parts| > 1 {
      SolidParts(parts[1..]);
      SolidConcat(parts[0], " ", Sentence(parts[1..]));
      assert Sentence(parts) == parts[0] + " " + Sentence(parts[1..]);
      assert Sentence(parts)[|parts[0]|] == ' ';
    }
  }

  /** A cell whose trimmed text is one word: one of its lines holds the word. */
  lemma OneWordCell(lines: seq<string>, from: nat, to: nat, id: string) returns (i: nat)
    requires from <= to && Strip(CellText(lines, from, to)) == id != "" && ' ' !in id
    ensures i < |lines| && Holds(lines[i], id)
  {
    var parts := CellParts(lines, from, to);
    forall k | 0 <= k < |parts| ensures IsSolid(parts[k]) {
      var at := PartIsHeld(lines, from, to, parts[k]);
    }
    if |parts| == 0 {
      HoldsStripped("");
      StripOfNothing();
    }
    SolidParts(parts);
    TrimSolid(Sentence(parts), IsSpace);
    assert parts == [parts[0]] && Sentence(parts) == parts[0];
    i := PartIsHeld(lines, from, to, id);
  }

  lemma StripOfNothing()
    ensures Strip("") == ""
  {
  }

  lemma {:induction false} RecordValue(names: seq<string>, cells: seq<string>, name: string) returns (k: nat)
    requires |names| == |cells| && name in Record(names, cells)
    ensures k < |cells| && Record(names, cells)[name] == cells[k]
  {
    k := |names| - 1;
    if names[k] != name {
      assert names == names[..k] + [names[k]];
      k := RecordValue(names[..k], cells[..k], name);
    }
  }

  lemma {:induction false} RecordsAt(names: seq<string>, bounds: seq<(nat, nat)>, groups: seq<seq<string>>, j: nat)
    requires AreBounds(bounds) && |names| == |bounds| && j < |groups|
    ensures Records(names, bounds, groups)[j] == Record(names, CellTexts(groups[j], bounds))
  {
    if j < |groups| - 1 { RecordsAt(names, bounds, groups[..|groups| - 1], j); }
  }

  lemma {:induction false} GroupsHoldLines(blank: string -> bool, lines: seq<string>, group: seq<string>, line: string)
    requires group in Groups(blank, lines) && line in group
    ensures line in lines
  {
    var n := |lines| - 1;
    var before := Groups(blank, lines[..n]);
    assert lines == lines[..n] + [lines[n]];
    if group in before {
      GroupsHoldLines(blank, lines[..n], group, line);
    } else if line != lines[n] {
      var last := before[|before| - 1];
      assert line in last && last in before;
      GroupsHoldLines(blank, lines[..n], last, line);
    }
  }

  /** A record's identifier, when it is one word, is held by a line of its group. */
  lemma GroupHoldsId(names: seq<string>, bounds: seq<(nat, nat)>, group: seq<string>, id: string) returns (i: nat)
    requires AreBounds(bounds) && |names| == |bounds| && id != "" && ' ' !in id
    requires Field(Record(names, CellTexts(group, bounds)), "ID") == id
    ensures i < |group| && Holds(group[i], id)
  {
    var cells := CellTexts(group, bounds);
    var k := RecordValue(names, cells, "ID");
    i := OneWordCell(group, bounds[k].0, bounds[k].1, id);
  }

  /** A line of a table's row is a line of the text. */
  lemma DataIsHeld(text: string, f: Format, l: Layout, group: seq<string>, line: string)
    requires IsLaidOut(l, |Split(text, '\n')|) && group in Data(f, Split(text, '\n'), l) && line in group
    ensures Holds(text, line)
  {
    var lines := Split(text, '\n');
    var data := lines[l.separator + 1..l.end];
    GroupsHoldLines(f.blank, data, group, line);
    var at :| 0 <= at < |data| && data[at] == line;
    HoldsLine(text, l.separator + 1 + at);
  }

  lemma RowAt(f: Format, lines: seq<string>, l: Layout, groups: seq<seq<string>>, j: nat)
    requires IsLaidOut(l, |lines|) && groups == Data(f, lines, l) && j < |groups|
    ensures j < |TableAt(f, lines, l)|
    ensures TableAt(f, lines, l)[j] == Record(ColumnNames(lines, l), CellTexts(groups[j], DashRuns(lines[l.separator])))
  {
    RecordsAt(ColumnNames(lines, l), DashRuns(lines[l.separator]), groups, j);
  }

  lemma TableRowIdIsHeld(text: string, f: Format, l: Layout, rows: seq<Row>, j: nat, id: string)
    requires IsLaidOut(l, |Split(text, '\n')|) && rows == TableAt(f, Split(text, '\n'), l) && j < |rows|
    requires Field(rows[j], "ID") == id && id != "" && ' ' !in id
    ensures Holds(text, id)
  {
    var lines := Split(text, '\n');
    var groups := Data(f, lines, l);
    RowAt(f, lines, l, groups, j);
    var i := GroupHoldsId(ColumnNames(lines, l), DashRuns(lines[l.separator]), groups[j], id);
    DataIsHeld(text, f, l, groups[j], groups[j][i]);
    HoldsTransitive(text, groups[j][i], id);
  }

  /** A row's identifier, when it is one word, is held by the text the row is read from. */
  lemma RowIdIsHeld(text: string, f: Format, rows: seq<Row>, j: nat, id: string)
    requires rows == Table(f, Split(text, '\n')) && j < |rows| && Field(rows[j], "ID") == id && id != "" && ' ' !in id
    ensures Holds(text, id)
  {
    TableRowIdIsHeld(text, f, FindTable(f, Split(text, '\n')).value, rows, j, id);
  }

  // ---------------------------------------------------------------- entries

  const TITLE: string := "## Operation Log"
  const COLUMNS: seq<string> := ["ID", "Date", "Status", "Operation", "Outcome"]

  /** What is logged of an operation, besides its identifier, in words. */
  datatype Entry = Entry(date: seq<string>, status: seq<string>, request: seq<string>, outcome: seq<string>)

  function RowOf(id: string, entry: Entry): (row: seq<seq<string>>)
    ensures |row| == |ROW_WIDTHS|
  {
    [[id], entry.date, entry.status, entry.request, entry.outcome]
  }

  ghost predicate IsCell(breaks: Breaks, ws: seq<string>, width: nat) {
    AreWords(ws) && AreHarmless(ws) && SplitsNoWord(breaks, ws, width)
  }

  /** An entry the table can hold, with a status and a request. */
  ghost predicate CanBeLogged(breaks: Breaks, entry: Entry) {
    && IsCell(breaks, entry.date, 12) && IsCell(breaks, entry.status, 13)
    && IsCell(breaks, entry.request, 15) && IsCell(breaks, entry.outcome, 26)
    && entry.status != [] && entry.request != []
  }

  /** An identifier: one word that fits its column, and no mark. */
  predicate IsIdentifier(id: string) {
    IsWord(id) && |id| <= 9 && id[0] == 'O'
  }

  lemma NextIdIsIdentifier(text: string)
    ensures IsIdentifier(NextId(text))
  {
    var n := Greatest(text) + 1;
    if n <= 999 {
      ThreeDigits(n);
      DigitIsNoSpace(n / 100);
      DigitIsNoSpace(n / 10 % 10);
      DigitIsNoSpace(n % 10);
    } else {
      NextIdAtLimit(text);
    }
  }

  lemma DigitIsNoSpace(d: nat)
    requires d < 10
    ensures !IsSpace(Digit(d))
  {
    DigitValue(d);
  }

  lemma IdCell(breaks: Breaks, id: string)
    requires IsIdentifier(id)
    ensures IsCell(breaks, [id], 9) && Sentence([id]) == id
  {
    OneLineIsWhole(breaks, [id], 9);
  }

  lemma RowInDomain(breaks: Breaks, id: string, entry: Entry)
    requires IsIdentifier(id) && CanBeLogged(breaks, entry)
    ensures InDomain(breaks, RowOf(id, entry), ROW_WIDTHS)
  {
    var row := RowOf(id, entry);
    IdCell(breaks, id);
    forall k | 0 <= k < 5 ensures IsCell(breaks, row[k], ROW_WIDTHS[k]) {}
    assert row[0] != [];
  }

  lemma ColumnsAreDistinct()
    ensures forall i, j :: 0 <= i < j < |COLUMNS| ==> COLUMNS[i] != COLUMNS[j]
  {
    assert "Operation"[1] != "Outcome"[1];
  }

  /** A cell's text by its column's name. */
  lemma ColumnOf(cells: seq<string>, k: nat)
    requires |cells| == |COLUMNS| && k < |cells|
    ensures COLUMNS[k] in Record(COLUMNS, cells) && Record(COLUMNS, cells)[COLUMNS[k]] == cells[k]
  {
    ColumnsAreDistinct();
    RecordAt(COLUMNS, cells, k);
  }

  lemma SentenceIsTrimmed(ws: seq<string>)
    requires AreWords(ws)
    ensures Strip(Sentence(ws)) == Sentence(ws)
    ensures ws != [] ==> Sentence(ws) != ""
  {
    if ws == [] {
      StripOfNothing();
    } else {
      forall i | 0 <= i < |ws| ensures IsSolid(ws[i]) { assert IsWord(ws[i]); }
      SolidParts(ws);
      TrimSolid(Sentence(ws), IsSpace);
    }
  }

  /** The record read from a logged entry's row. */
  function RecordOf(id: string, entry: Entry): (row: Row) {
    Record(COLUMNS, Cells(RowOf(id, entry)))
  }

  lemma FieldOf(breaks: Breaks, id: string, entry: Entry, k: nat)
    requires IsIdentifier(id) && CanBeLogged(breaks, entry) && k < 5
    ensures Field(RecordOf(id, entry), COLUMNS[k]) == Sentence(RowOf(id, entry)[k])
  {
    var row := RowOf(id, entry);
    IdCell(breaks, id);
    assert AreWords(row[k]);
    ColumnOf(Cells(row), k);
    SentenceIsTrimmed(row[k]);
  }

  /** The operation loaded from it. */
  function Logged(id: string, entry: Entry): (op: LoggedOperation) {
    var outcome := Sentence(entry.outcome);
    LoggedOperation(
      id, Sentence(entry.request), NormalizeStatus(Sentence(entry.status)), Sentence(entry.date),
      if outcome == "" then None else Some(outcome), if outcome == "" then None else Classify(outcome, CLASSES))
  }

  lemma RecordLoads(breaks: Breaks, id: string, entry: Entry)
    requires IsIdentifier(id) && CanBeLogged(breaks, entry)
    ensures OperationOf(RecordOf(id, entry)) == Logged(id, entry)
    ensures OperationReading().id(RecordOf(id, entry)) == id != "" && OperationReading().missing(RecordOf(id, entry)) == []
  {
    IdCell(breaks, id);
    FieldOf(breaks, id, entry, 0);
    FieldOf(breaks, id, entry, 1);
    FieldOf(breaks, id, entry, 2);
    FieldOf(breaks, id, entry, 3);
    FieldOf(breaks, id, entry, 4);
    SentenceIsTrimmed(entry.status);
    SentenceIsTrimmed(entry.request);
    NothingMissing(RecordOf(id, entry));
  }

  lemma NothingMissing(row: Row)
    requires Field(row, "Operation") != "" && Field(row, "Status") != ""
    ensures Missing(["Operation", "Status"], row) == []
  {
    var missing := Missing(["Operation", "Status"], row);
    if missing != [] { MissingAreEmpty(["Operation", "Status"], row, missing[0]); }
  }

  // ---------------------------------------------------------------- one append

  /** A document whose operation log is ready to be written and read. */
  ghost predicate IsReady(text: string, l: Layout) {
    IsWellFormed(OperationLog, TITLE, LinesOf(text), ROW_WIDTHS, l) && ColumnNames(LinesOf(text), l) == COLUMNS
  }

  function LogRows(text: string): (rows: seq<Row>) {
    RowsOf(text, TITLE)
  }

  /** The operations loaded from the document. */
  function Log(text: string): (ops: seq<LoggedOperation>) {
    Operations(Load(OperationReading(), LogRows(text)).kept)
  }

  function Ids(text: string): (ids: seq<string>) {
    Identifiers(OperationReading(), LogRows(text))
  }

  /** The document after an entry is logged under the next identifier. */
  function LogEntry(breaks: Breaks, text: string, entry: Entry): (outcome: Outcome) {
    Append(OperationLog, TITLE, text, RowText(breaks, RowOf(NextId(text), entry), ROW_WIDTHS))
  }

  lemma OperationsSnoc(rows: seq<Row>, row: Row)
    ensures Operations(rows + [row]) == Operations(rows) + [OperationOf(row)]
  {
  }

  lemma LoadOneMore(breaks: Breaks, rows: seq<Row>, id: string, entry: Entry)
    requires IsIdentifier(id) && CanBeLogged(breaks, entry)
    ensures var kept, more := Load(OperationReading(), rows).kept, Load(OperationReading(), rows + [RecordOf(id, entry)]).kept;
      Operations(more) == Operations(kept) + (if id in Identifiers(OperationReading(), rows) then [] else [Logged(id, entry)])
  {
    var row := RecordOf(id, entry);
    RecordLoads(breaks, id, entry);
    NewRowIsKept(OperationReading(), rows, row);
    OperationsSnoc(Load(OperationReading(), rows).kept, row);
  }

  /** Logging an entry in a ready document gives a ready document with one row more, which loads as one operation
      more exactly when no row had its identifier. */
  lemma LogOne(breaks: Breaks, text: string, l: Layout, entry: Entry) returns (written: string, moved: Layout)
    requires IsReady(text, l) && CanBeLogged(breaks, entry)
    ensures LogEntry(breaks, text, entry) == Written(written) && IsReady(written, moved)
    ensures LogRows(written) == LogRows(text) + [RecordOf(NextId(text), entry)]
    ensures Log(written) == Log(text) + (if NextId(text) in Ids(text) then [] else [Logged(NextId(text), entry)])
    ensures Ids(written) == Ids(text) + [NextId(text)]
  {
    var id := NextId(text);
    NextIdIsIdentifier(text);
    RowInDomain(breaks, id, entry);
    written, moved := WriteThenRead(breaks, OperationLog, TITLE, text, ROW_WIDTHS, l, RowOf(id, entry));
    LoadOneMore(breaks, LogRows(text), id, entry);
    RecordLoads(breaks, id, entry);
    IdentifiersSnoc(OperationReading(), LogRows(text), RecordOf(id, entry));
  }

  /** An identifier of the log's rows is held by the document. */
  lemma IdIsHeld(text: string, id: string)
    requires id in Ids(text) && id != "" && ' ' !in id
    ensures Holds(text, id)
  {
    var j :| 0 <= j < |Ids(text)| && Ids(text)[j] == id;
    RowIdIsHeld(text, Pandoc(TITLE), LogRows(text), j, id);
  }

  lemma IdHasNoSpace(id: string)
    requires IsIdentifier(id)
    ensures id != "" && ' ' !in id && '\n' !in id
  {
    assert IsSpace(' ') && IsSpace('\n');
  }

  /** Below the limit, the next identifier is new. */
  lemma BelowLimitIsNew(text: string)
    requires Greatest(text) < 999
    ensures NextId(text) !in Ids(text)
  {
    NextIdIsNew(text);
    NextIdIsIdentifier(text);
    IdHasNoSpace(NextId(text));
    if NextId(text) in Ids(text) { IdIsHeld(text, NextId(text)); }
  }

  // ---------------------------------------------------------------- repeated appends

  /** The document after several entries are logged, one by one. */
  function LogAll(breaks: Breaks, text: string, entries: seq<Entry>): (outcome: Outcome) {
    if entries == [] then Written(text)
    else
      var before := LogAll(breaks, text, entries[..|entries| - 1]);
      if before.Written? then LogEntry(breaks, before.text, entries[|entries| - 1]) else before
  }

  /** Whenever an entry is logged, some number of three digits is left. */
  ghost predicate StaysBelowLimit(breaks: Breaks, text: string, entries: seq<Entry>) {
    forall n :: 0 <= n < |entries| ==> HasRoomFor(breaks, text, entries, n)
  }

  predicate HasRoomFor(breaks: Breaks, text: string, entries: seq<Entry>, n: nat)
    requires n < |entries|
  {
    HasRoom(LogAll(breaks, text, entries[..n]))
  }

  predicate HasRoom(outcome: Outcome) {
    outcome.Written? ==> Greatest(outcome.text) < 999
  }

  ghost predicate AllCanBeLogged(breaks: Breaks, entries: seq<Entry>) {
    forall n :: 0 <= n < |entries| ==> CanBeLogged(breaks, entries[n])
  }

  /** The operations loaded from entries logged under the identifiers. */
  function AllLogged(ids: seq<string>, entries: seq<Entry>): (ops: seq<LoggedOperation>)
    requires |ids| == |entries|
  {
    if entries == [] then []
    else AllLogged(ids[..|ids| - 1], entries[..|entries| - 1]) + [Logged(ids[|ids| - 1], entries[|entries| - 1])]
  }

  lemma Shorter(breaks: Breaks, text: string, entries: seq<Entry>)
    requires entries != [] && StaysBelowLimit(breaks, text, entries) && AllCanBeLogged(breaks, entries)
    ensures var front := entries[..|entries| - 1];
      && StaysBelowLimit(breaks, text, front) && AllCanBeLogged(breaks, front) && HasRoom(LogAll(breaks, text, front))
      && CanBeLogged(breaks, entries[|entries| - 1]) && entries == front + [entries[|entries| - 1]]
  {
    var front := entries[..|entries| - 1];
    forall n | 0 <= n < |front| ensures HasRoomFor(breaks, text, front, n) {
      assert front[..n] == entries[..n];
      assert HasRoomFor(breaks, text, entries, n);
    }
    assert HasRoomFor(breaks, text, entries, |entries| - 1);
  }

  lemma LogNext(breaks: Breaks, text: string, l: Layout, entry: Entry) returns (written: string, moved: Layout, id: string)
    requires IsReady(text, l) && CanBeLogged(breaks, entry) && Greatest(text) < 999
    ensures LogEntry(breaks, text, entry) == Written(written) && IsReady(written, moved) && id !in Ids(text)
    ensures Log(written) == Log(text) + [Logged(id, entry)] && Ids(written) == Ids(text) + [id]
  {
    BelowLimitIsNew(text);
    written, moved := LogOne(breaks, text, l, entry);
    id := NextId(text);
  }

  lemma OneMoreLogged(ops: seq<LoggedOperation>, used: seq<string>, id: string, front: seq<Entry>, last: Entry)
    requires |used| == |front|
    ensures ops + AllLogged(used, front) + [Logged(id, last)] == ops + AllLogged(used + [id], front + [last])
  {
    assert (used + [id])[..|used|] == used && (front + [last])[..|front|] == front;
  }

  lemma OneMoreId(before: seq<string>, used: seq<string>, id: string)
    requires NoDuplicates(used) && id !in before + used && forall x :: x in used ==> x !in before
    ensures NoDuplicates(used + [id]) && forall x :: x in used + [id] ==> x !in before
    ensures before + used + [id] == before + (used + [id])
  {
    NoDuplicatesSnoc(used, id);
  }

  /** Logging any number of entries while identifiers last: all are written, and what is loaded then is what was
      loaded before, followed by one operation for each entry, in order, under new and distinct identifiers. */
  lemma {:induction false} RepeatedAppends(breaks: Breaks, text: string, l: Layout, entries: seq<Entry>)
    returns (written: string, moved: Layout, ids: seq<string>)
    requires IsReady(text, l) && AllCanBeLogged(breaks, entries) && StaysBelowLimit(breaks, text, entries)
    ensures LogAll(breaks, text, entries) == Written(written) && IsReady(written, moved)
    ensures |ids| == |entries| && Log(written) == Log(text) + AllLogged(ids, entries)
    ensures Ids(written) == Ids(text) + ids
    ensures NoDuplicates(ids) && forall id :: id in ids ==> id !in Ids(text)
  {
    if |entries| == 0 {
      written, moved, ids := text, l, [];
    } else {
      var front, last := entries[..|entries| - 1], entries[|entries| - 1];
      Shorter(breaks, text, entries);
      var before, place, used := RepeatedAppends(breaks, text, l, front);
      var id;
      written, moved, id := LogNext(breaks, before, place, last);
      ids := used + [id];
      OneMoreLogged(Log(text), used, id, front, last);
      OneMoreId(Ids(text), used, id);
    }
  }

  /** The identifiers of the operations loaded from any document are distinct. */
  lemma LoadedIdsAreDistinct(text: string)
    ensures forall i, j :: 0 <= i < j < |Log(text)| ==> Log(text)[i].id != Log(text)[j].id
  {
    var kept := Load(OperationReading(), LogRows(text)).kept;
    KeptIdsAreDistinct(OperationReading(), LogRows(text));
    forall i, j | 0 <= i < j < |Log(text)| ensures Log(text)[i].id != Log(text)[j].id {
      assert Identifiers(OperationReading(), kept)[i] != Identifiers(OperationReading(), kept)[j];
    }
  }

  // ---------------------------------------------------------------- when the identifiers run out

  /** Logging an entry raises the greatest number, below the limit. */
  lemma NumbersGrow(breaks: Breaks, text: string, l: Layout, entry: Entry, written: string)
    requires IsReady(text, l) && CanBeLogged(breaks, entry) && LogEntry(breaks, text, entry) == Written(written)
    requires Greatest(text) < 999
    ensures Greatest(written) > Greatest(text)
  {
    var again, moved := LogOne(breaks, text, l, entry);
    var id := NextId(text);
    NextIdIsIdentifier(text);
    IdHasNoSpace(id);
    IdIsHeld(written, id);
    var i: nat :| HoldsAt(written, id, i);
    IdShape(id, Greatest(text) + 1);
    HeldIdCounts(written, id, i);
  }

  /** What a line of a document holds is still held after a row is put in. */
  lemma StillHeld(text: string, written: string, c: nat, row: seq<string>, piece: string)
    requires c <= |LinesOf(text)| && LinesOf(written) == WithRow(LinesOf(text), c, row)
    requires piece != "" && '\n' !in piece && Holds(text, piece)
    ensures Holds(written, piece)
  {
    var i: nat :| HoldsAt(text, piece, i);
    JoinSplit(text, '\n');
    var j := SomePartHolds(LinesOf(text), '\n', piece, i);
    LineIsStillHeld(text, written, c, row, j);
    HoldsTransitive(written, LinesOf(text)[j], piece);
  }

  lemma LineIsStillHeld(text: string, written: string, c: nat, row: seq<string>, j: nat)
    requires c <= |LinesOf(text)| && LinesOf(written) == WithRow(LinesOf(text), c, row) && j < |LinesOf(text)|
    ensures Holds(written, LinesOf(text)[j])
  {
    var k := if j < c then j else j + 1 + |row|;
    WithRowAt(LinesOf(text), c, row, k);
    HoldsLine(written, k);
  }

  lemma EntryLines(breaks: Breaks, text: string, l: Layout, entry: Entry, written: string) returns (row: seq<string>)
    requires IsReady(text, l) && CanBeLogged(breaks, entry) && LogEntry(breaks, text, entry) == Written(written)
    ensures l.end <= |LinesOf(text)| && LinesOf(written) == WithRow(LinesOf(text), l.end, row)
    ensures InDomain(breaks, RowOf(NextId(text), entry), ROW_WIDTHS)
    ensures row == RowLines(breaks, Cells(RowOf(NextId(text), entry)), ROW_WIDTHS)
  {
    NextIdIsIdentifier(text);
    RowInDomain(breaks, NextId(text), entry);
    row := RowLines(breaks, Cells(RowOf(NextId(text), entry)), ROW_WIDTHS);
    RowIsPlain(breaks, RowOf(NextId(text), entry), ROW_WIDTHS, row);
    var again := WrittenAt(OperationLog, TITLE, text, row, l, l.end);
  }

  /** At the limit every further entry gets one and the same identifier. */
  lemma AtLimitIdsRepeat(breaks: Breaks, text: string, l: Layout, entry: Entry, written: string)
    requires IsReady(text, l) && CanBeLogged(breaks, entry) && LogEntry(breaks, text, entry) == Written(written)
    requires Greatest(text) == 999
    ensures Greatest(written) == 999 && NextId(written) == NextId(text) == "OPS-1000"
  {
    var row := EntryLines(breaks, text, l, entry, written);
    forall id: string | |id| == 7 && IsIdAt(id, 0) && '\n' !in id && Holds(text, id) ensures Holds(written, id) {
      StillHeld(text, written, l.end, row, id);
    }
    GreatestGrows(text, written);
    NextIdAtLimit(text);
    NextIdAtLimit(written);
  }

  /** An entry loads as a new operation exactly when a number is left, or none was left and no row has the
      four-digit identifier yet. */
  lemma LoadsExactlyWhen(breaks: Breaks, text: string, l: Layout, entry: Entry) returns (written: string)
    requires IsReady(text, l) && CanBeLogged(breaks, entry)
    ensures LogEntry(breaks, text, entry) == Written(written)
    ensures if Greatest(text) < 999 || "OPS-1000" !in Ids(text)
            then Log(written) == Log(text) + [Logged(NextId(text), entry)]
            else Log(written) == Log(text)
  {
    var moved;
    written, moved := LogOne(breaks, text, l, entry);
    if Greatest(text) < 999 { BelowLimitIsNew(text); } else { NextIdAtLimit(text); }
  }

  /** Of two entries logged at the limit, the second is written and never loaded. */
  lemma SecondAtLimitIsLost(breaks: Breaks, text: string, l: Layout, first: Entry, second: Entry)
    returns (once: string, twice: string)
    requires IsReady(text, l) && CanBeLogged(breaks, first) && CanBeLogged(breaks, second) && Greatest(text) == 999
    ensures LogEntry(breaks, text, first) == Written(once) && LogEntry(breaks, once, second) == Written(twice)
    ensures |LogRows(twice)| == |LogRows(once)| + 1 && Log(twice) == Log(once)
  {
    var moved, last;
    once, moved := LogOne(breaks, text, l, first);
    twice, last := LogOne(breaks, once, moved, second);
    AtLimitIdsRepeat(breaks, text, l, first, once);
    assert Ids(once)[|Ids(text)|] == NextId(text);
  }

  // ---------------------------------------------------------------- a log to begin with

  lemma OperationColumns()
    ensures AreNames(COLUMNS, ROW_WIDTHS)
  {
    CommonColumns();
    OperationColumn();
    OutcomeColumn();
    FiveNames("ID", "Date", "Status", "Operation", "Outcome");
  }

  lemma OperationColumn()
    ensures IsColumnName("Operation", 15)
  {
    WordName("Operation", 15);
  }

  lemma OutcomeColumn()
    ensures IsColumnName("Outcome", 26)
  {
    WordName("Outcome", 26);
  }

  lemma OperationTitle()
    ensures Strip(TITLE) == TITLE && '\n' !in TITLE
  {
    assert !IsSpace(TITLE[0]) && !IsSpace(TITLE[|TITLE| - 1]);
    TrimSolid(TITLE, IsSpace);
  }

  /** An empty operation log, with a rule below its table, is ready. */
  lemma EmptyLogIsReady(text: string)
    requires text == Join(EmptyLog(TITLE, COLUMNS), '\n')
    ensures IsReady(text, Layout(0, 4, 3, 5))
  {
    OperationColumns();
    OperationTitle();
    EmptyOperationLog(TITLE, COLUMNS, EmptyLog(TITLE, COLUMNS), text);
  }
}
