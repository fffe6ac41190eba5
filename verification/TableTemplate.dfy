/** The documents as businesses keep them: a heading, an empty table between two boundaries, and below it
    perhaps a horizontal rule. */
module TableTemplate {
  import opened Text
  import opened TextWrap
  import opened WrapReading
  import opened TablePrinter
  import opened TableScan
  import opened TableParser
  import opened LineWords
  import opened TableRow
  import opened TableWriter
  import opened TableRoundTrip

  function Dashes(n: nat): (r: string) {
    if n == 0 then "" else Dashes(n - 1) + ['-']
  }

  lemma {:induction false} DashesAre(n: nat)
    ensures |Dashes(n)| == n && OnlyDashes(Dashes(n))
  {
    if n > 0 { DashesAre(n - 1); }
  }

  /** The line under the column names: a group of dashes as wide as each column. */
  function Separator(widths: seq<nat>, k: nat): (r: string)
    requires k <= |widths|
  {
    if k == 0 then " " else Separator(widths, k - 1) + " " + Dashes(widths[k - 1])
  }

  // ---------------------------------------------------------------- runs of dashes

  lemma {:induction false} RunsOfPrefix(s: string, t: string, n: nat)
    requires n <= |s| && n <= |t| && forall i :: 0 <= i < n ==> s[i] == t[i]
    ensures RunsUpTo(s, n) == RunsUpTo(t, n)
  {
    if n > 0 { RunsOfPrefix(s, t, n - 1); }
  }

  lemma LastRun(runs: seq<(nat, nat)>, from: nat, end: nat)
    ensures var all := runs + [(from, end)];
      all[..|all| - 1] + [(all[|all| - 1].0, end + 1)] == runs + [(from, end + 1)]
  {
  }

  /** A group of dashes after something else is one more run. */
  lemma {:induction false} RunsOfGroup(s: string, from: nat, n: nat)
    requires n > 0 && from + n <= |s| && (from == 0 || s[from - 1] != '-')
    requires forall i :: from <= i < from + n ==> s[i] == '-'
    ensures RunsUpTo(s, from + n) == RunsUpTo(s, from) + [(from, from + n)]
  {
    if n > 1 {
      RunsOfGroup(s, from, n - 1);
      LastRun(RunsUpTo(s, from), from, from + n - 1);
    }
  }

  /** Characters before a text that are no dashes keep the number of its runs. */
  lemma {:induction false} RunsWithin(line: string, s: string, from: nat, n: nat)
    requires from + n <= |line| && n <= |s| && (forall i :: 0 <= i < from ==> line[i] != '-')
    requires forall i :: 0 <= i < n ==> line[from + i] == s[i]
    ensures |RunsUpTo(line, from + n)| == |RunsUpTo(s, n)|
    decreases from + n
  {
    if n > 0 {
      RunsWithin(line, s, from, n - 1);
    } else if from > 0 {
      RunsWithin(line, s, from - 1, 0);
    }
  }

  lemma {:induction false} RunsBefore(line: string, from: nat, n: nat)
    requires from <= n <= |line| && forall i :: from <= i < n ==> line[i] != '-'
    ensures RunsUpTo(line, n) == RunsUpTo(line, from)
    decreases n
  {
    if from < n { RunsBefore(line, from, n - 1); }
  }

  lemma RunsAmid(line: string, before: string, s: string, after: string)
    requires line == before + s + after && (forall i :: 0 <= i < |before| ==> before[i] != '-')
    requires forall i :: 0 <= i < |after| ==> after[i] != '-'
    ensures |DashRuns(line)| == |DashRuns(s)|
  {
    RunsWithin(line, s, |before|, |s|);
    RunsBefore(line, |before| + |s|, |line|);
  }

  lemma BlankHasNoDash(s: string)
    requires IsBlank(s)
    ensures forall i :: 0 <= i < |s| ==> s[i] != '-'
  {
    assert !IsSpace('-');
  }

  /** Trimming keeps the number of runs, and what it leaves is part of the line. */
  lemma RunsOfStrip(line: string, s: string)
    requires s == Strip(line)
    ensures |DashRuns(s)| == |DashRuns(line)|
    ensures forall i :: 0 <= i < |s| ==> s[i] in line
  {
    var before, after := StripParts(line);
    BlankHasNoDash(before);
    BlankHasNoDash(after);
    RunsAmid(line, before, s, after);
    forall i | 0 <= i < |s| ensures s[i] in line { assert line[|before| + i] == s[i]; }
  }

  // ---------------------------------------------------------------- the separator's columns

  lemma SeparatorStep(before: string, n: nat, line: string)
    requires n > 0 && line == before + " " + Dashes(n)
    ensures |line| == |before| + 1 + n
    ensures DashRuns(line) == DashRuns(before) + [(|before| + 1, |before| + 1 + n)]
  {
    DashesAre(n);
    RunsOfPrefix(line, before, |before|);
    RunsOfGroup(line, |before| + 1, n);
  }

  lemma NoRuns()
    ensures DashRuns(" ") == []
  {
    RunsBefore(" ", 0, 1);
  }

  ghost predicate FirstBounds(runs: seq<(nat, nat)>, widths: seq<nat>) {
    |runs| <= |widths| && forall k :: 0 <= k < |runs| ==> runs[k] == Bound(widths, k)
  }

  lemma OneMoreBound(runs: seq<(nat, nat)>, widths: seq<nat>, next: (nat, nat))
    requires FirstBounds(runs, widths) && |runs| < |widths| && next == Bound(widths, |runs|)
    ensures FirstBounds(runs + [next], widths)
  {
  }

  lemma {:induction false} SeparatorRuns(widths: seq<nat>, k: nat, line: string)
    requires k <= |widths| && AreWidths(widths) && line == Separator(widths, k)
    ensures |line| + 1 == Start(widths, k) && |DashRuns(line)| == k && FirstBounds(DashRuns(line), widths)
  {
    if k == 0 {
      NoRuns();
    } else {
      var before := Separator(widths, k - 1);
      SeparatorRuns(widths, k - 1, before);
      SeparatorStep(before, widths[k - 1], line);
      OneMoreBound(DashRuns(before), widths, (|before| + 1, |before| + 1 + widths[k - 1]));
    }
  }

  lemma {:induction false} SeparatorChars(widths: seq<nat>, k: nat)
    requires k <= |widths|
    ensures DashesAndSpaces(Separator(widths, k))
  {
    if k > 0 {
      SeparatorChars(widths, k - 1);
      DashesAre(widths[k - 1]);
    }
  }

  /** The separator's columns are where the printer puts them. */
  lemma SeparatorHasTheBounds(widths: seq<nat>, line: string)
    requires AreWidths(widths) && line == Separator(widths, |widths|)
    ensures DashRuns(line) == Bounds(widths) && DashesAndSpaces(line)
  {
    SeparatorRuns(widths, |widths|, line);
    SeparatorChars(widths, |widths|);
  }

  // ---------------------------------------------------------------- the kinds of the template's lines

  lemma GroupsStart(line: string, s: string)
    requires s == Strip(line) && DashesAndSpaces(s) && |DashRuns(s)| >= 2
    ensures StartsTable(line) && !IsHeading(line)
  {
    BlankIsStripped(line);
  }

  /** A separator of two columns or more starts a table, and is no heading. */
  lemma SeparatorStarts(widths: seq<nat>, line: string)
    requires AreWidths(widths) && |widths| >= 2 && line == Separator(widths, |widths|)
    ensures StartsTable(line) && !IsHeading(line)
  {
    var s := Strip(line);
    SeparatorHasTheBounds(widths, line);
    RunsOfStrip(line, s);
    forall i | 0 <= i < |s| ensures s[i] == '-' || s[i] == ' ' { assert s[i] in line; }
    GroupsStart(line, s);
  }

  lemma DashesSolid(n: nat, s: string)
    requires n > 0 && s == Dashes(n)
    ensures Strip(s) == s
  {
    DashesAre(n);
    assert !IsSpace('-');
    TrimSolid(s, IsSpace);
  }

  lemma IndentedSolid(n: nat, s: string, line: string)
    requires n > 0 && s == Dashes(n) && line == INDENT + s
    ensures Strip(line) == s
  {
    DashesAre(n);
    assert |line| == n + 2 && line[0] == ' ' && line[1] == ' ' && forall i :: 2 <= i < |line| ==> line[i] == '-';
    assert IsSpace(' ') && !IsSpace('-');
    RightEndIs(line, IsSpace, |line|, |line|);
    SpanIs(line, 0, |line|);
    assert line[0..|line|] == line;
    assert LeftEnd(line, IsSpace, 1) == 2;
    SpanIs(line, 2, |line|);
    assert line[2..|line|] == s;
  }

  lemma {:induction false} NoSpacesInDashes(s: string)
    requires OnlyDashes(s)
    ensures WithoutSpaces(s) == s
  {
    if s != "" {
      NoSpacesInDashes(s[..|s| - 1]);
      assert s == s[..|s| - 1] + [s[|s| - 1]];
    }
  }

  /** What the program makes of a line of ten dashes or more: it ends a table, and does not start one. */
  lemma DashLineEnds(line: string, s: string)
    requires s == Strip(line) && OnlyDashes(s) && |s| >= 10
    ensures EndsTable(line) && !StartsTable(line) && !IsHeading(line) && IsDashLine(line)
  {
    NoSpacesInDashes(s);
    DashesAreOneRun(s);
    assert s[0] == '-';
    assert !IsHeading(line) && !IsSeparator(line);
  }

  /** What the programs make of a line of n dashes, indented or not: from four on it ends a table for the reader, from ten
      on it is a boundary for the writers; it never starts a table. */
  lemma DashLineKinds(n: nat, line: string)
    requires n > 0 && (line == INDENT + Dashes(n) || line == Dashes(n))
    ensures EndsTable(line) <==> n >= 4
    ensures IsDashLine(line) <==> n >= 10
    ensures !StartsTable(line) && !IsHeading(line) && !IsBlank(line)
  {
    DashesAre(n);
    if line == Dashes(n) { DashesSolid(n, line); } else { IndentedSolid(n, Dashes(n), line); }
    BlankIsStripped(line);
    NoSpacesInDashes(Dashes(n));
    DashesAreOneRun(Dashes(n));
    assert Dashes(n)[0] == '-';
  }

  lemma DashesAreOneRun(s: string)
    requires OnlyDashes(s) && s != ""
    ensures |DashRuns(s)| == 1
  {
    RunsOfGroup(s, 0, |s|);
  }

  // ---------------------------------------------------------------- the template

  /** An empty table under its heading, and a horizontal rule below. */
  function Template(title: string, header: string, separator: string, boundary: string, rule: string): (lines: seq<string>)
  {
    [title, "", INDENT + boundary, header, separator, INDENT + boundary, "", rule]
  }

  /** The template's lines: a heading, column names the parser takes for no mark, the printer's separator, and
      lines of dashes. */
  ghost predicate IsTemplate(lines: seq<string>, title: string, header: string, widths: seq<nat>, b: nat, r: nat) {
    && Strip(title) == title && '\n' !in title && '\n' !in header && !IsBlank(header) && !StartsTable(header) && !IsHeading(header)
    && AreWidths(widths) && |widths| >= 2 && b >= 10 && r >= 10
    && lines == Template(title, header, Separator(widths, |widths|), Dashes(b), Dashes(r))
  }

  lemma BoundaryLine(n: nat, line: string)
    requires n >= 10 && (line == INDENT + Dashes(n) || line == Dashes(n))
    ensures EndsTable(line) && !StartsTable(line) && !IsHeading(line) && IsDashLine(line)
  {
    DashesAre(n);
    if line == Dashes(n) { DashesSolid(n, line); } else { IndentedSolid(n, Dashes(n), line); }
    DashLineEnds(line, Dashes(n));
  }

  lemma IndentedOrNot(n: nat)
    requires n >= 10
    ensures IsIndentedDashLine(INDENT + Dashes(n)) && !IsIndentedDashLine(Dashes(n))
  {
    BoundaryLine(n, INDENT + Dashes(n));
    DashesAre(n);
    assert INDENT[0] != Dashes(n)[0];
  }

  lemma EmptyLine()
    ensures !StartsTable("") && !IsHeading("") && !IsDashLine("") && IsBlank("")
  {
  }

  /** The template's table is found, empty, between its boundaries. */
  lemma TemplateHasTable(lines: seq<string>, title: string, header: string, widths: seq<nat>, b: nat, r: nat)
    requires IsTemplate(lines, title, header, widths, b, r)
    ensures HasTable(title, lines, widths, Layout(0, 4, 3, 5))
  {
    EmptyLine();
    BoundaryLine(b, lines[2]);
    SeparatorStarts(widths, lines[4]);
    SeparatorHasTheBounds(widths, lines[4]);
    EmptyTableIsAt(Pandoc(title), lines);
  }

  /** The operation writer inserts at the table's end; the decision writer behind it, at the rule. */
  lemma TemplateClosings(lines: seq<string>, title: string, header: string, widths: seq<nat>, b: nat, r: nat)
    requires IsTemplate(lines, title, header, widths, b, r)
    ensures Closing(IsHeading, Boundary(OperationLog), lines, 0) == Some(5)
    ensures Closing(IsHeading, Boundary(DecisionLog), lines, 0) == Some(7)
  {
    NoHeadings(lines, title, header, widths, b, r);
    EmptyLine();
    IndentedOrNot(b);
    IndentedOrNot(r);
    BoundaryLine(b, lines[5]);
    BoundaryLine(r, lines[7]);
    EmptyTableClosing(IsHeading, Boundary(OperationLog), lines);
    EmptyTableClosing(IsHeading, Boundary(DecisionLog), lines);
  }

  lemma NoHeadings(lines: seq<string>, title: string, header: string, widths: seq<nat>, b: nat, r: nat)
    requires IsTemplate(lines, title, header, widths, b, r)
    ensures |lines| == 8 && forall j :: 1 <= j < 8 ==> !IsHeading(lines[j])
  {
    EmptyLine();
    BoundaryLine(b, lines[5]);
    BoundaryLine(r, lines[7]);
    SeparatorStarts(widths, lines[4]);
    assert lines[2] == lines[5] && lines[1] == lines[6] == "" && lines[3] == header;
  }

  predicate IsLine(line: string) {
    '\n' !in line
  }

  lemma IsLineOfDashes(line: string)
    requires DashesAndSpaces(line)
    ensures IsLine(line)
  {
  }

  lemma DashesAreLine(n: nat)
    ensures IsLine(INDENT + Dashes(n)) && IsLine(Dashes(n))
  {
    DashesAre(n);
  }

  lemma SeparatorIsLine(widths: seq<nat>)
    ensures IsLine(Separator(widths, |widths|))
  {
    SeparatorChars(widths, |widths|);
    IsLineOfDashes(Separator(widths, |widths|));
  }

  lemma EightAreLines(a: string, b: string, c: string, d: string, e: string)
    requires IsLine(a) && IsLine(b) && IsLine(c) && IsLine(d) && IsLine(e)
    ensures AreLines([a, "", b, c, d, b, "", e])
  {
    var lines := [a, "", b, c, d, b, "", e];
    forall i | 0 <= i < 8 ensures IsLine(lines[i]) {}
    forall i | 0 <= i < |lines| ensures '\n' !in lines[i] { assert IsLine(lines[i]); }
  }

  lemma TemplateIsLines(title: string, header: string, widths: seq<nat>, b: nat, r: nat)
    requires IsLine(title) && IsLine(header)
    ensures AreLines(Template(title, header, Separator(widths, |widths|), Dashes(b), Dashes(r)))
  {
    DashesAreLine(b);
    DashesAreLine(r);
    SeparatorIsLine(widths);
    EightAreLines(title, INDENT + Dashes(b), header, Separator(widths, |widths|), Dashes(r));
  }

  /** In a document with a rule below its table, a row appended to the operation log is read back; the same row
      appended by the decision writer's rules is written, and never read. */
  lemma RuleBelowTheTable(breaks: Breaks, text: string, lines: seq<string>, title: string, header: string, widths: seq<nat>,
                          b: nat, r: nat, row: seq<seq<string>>)
    returns (operations: string, decisions: string)
    requires IsTemplate(lines, title, header, widths, b, r) && text == Join(lines, '\n') && InDomain(breaks, row, widths)
    ensures Append(OperationLog, title, text, RowText(breaks, row, widths)) == Written(operations)
    ensures Append(DecisionLog, title, text, RowText(breaks, row, widths)) == Written(decisions)
    ensures |RowsOf(operations, title)| == |RowsOf(text, title)| + 1
    ensures RowsOf(decisions, title) == RowsOf(text, title)
  {
    TemplateIsLines(title, header, widths, b, r);
    SplitJoin(lines, '\n');
    TemplateHasTable(lines, title, header, widths, b, r);
    TemplateClosings(lines, title, header, widths, b, r);
    IndentedOrNot(b);
    operations := RowIsReadExactlyWhen(breaks, OperationLog, title, text, widths, Layout(0, 4, 3, 5), row);
    decisions := RowIsReadExactlyWhen(breaks, DecisionLog, title, text, widths, Layout(0, 4, 3, 5), row);
  }

  // ---------------------------------------------------------------- the line of column names

  /** Column names set like a row's first line. */
  function Header(names: seq<string>, widths: seq<nat>): (line: string)
    requires |names| == |widths| && AreWidths(widths)
  {
    RowLine(seq(|names|, k requires 0 <= k < |names| => [names[k]]), widths, 0)
  }

  /** Names that fit their columns and hold harmless words, and nothing else. */
  ghost predicate AreNames(names: seq<string>, widths: seq<nat>) {
    && |names| == |widths| && AreWidths(widths)
    && forall k :: 0 <= k < |names| ==> IsColumnName(names[k], widths[k])
  }

  ghost predicate IsColumnName(name: string, width: nat) {
    |name| <= width && Strip(name) == name && Words(name) != [] && AreHarmless(Words(name)) && NoBreak(name)
  }

  /** Reading the header gives the names back. */
  lemma HeaderNames(names: seq<string>, widths: seq<nat>, line: string)
    requires AreNames(names, widths) && line == Header(names, widths)
    ensures Names(line, Bounds(widths)) == names
  {
    var cols := seq(|names|, k requires 0 <= k < |names| => [names[k]]);
    var read, bounds := Names(line, Bounds(widths)), Bounds(widths);
    forall k | 0 <= k < |cols| ensures LinesFit(cols[k], widths[k]) { assert IsColumnName(names[k], widths[k]); }
    forall k | 0 <= k < |names| ensures read[k] == names[k] {
      NameAt(line, bounds, k);
      SliceGivesPiece(cols, widths, 0, k, line, bounds[k].0, bounds[k].1, names[k]);
      assert IsColumnName(names[k], widths[k]);
    }
  }

  lemma NameAt(header: string, bounds: seq<(nat, nat)>, k: nat)
    requires AreBounds(bounds) && k < |bounds|
    ensures Names(header, bounds)[k] == Strip(Slice(header, bounds[k].0, bounds[k].1))
  {
  }

  /** The header is one line, and no mark. */
  lemma HeaderIsPlain(names: seq<string>, widths: seq<nat>, line: string)
    requires AreNames(names, widths) && line == Header(names, widths)
    ensures IsPlain(line) && NoBreak(line) && !StartsTable(line)
  {
    var cols := seq(|names|, k requires 0 <= k < |names| => [names[k]]);
    var lists := PieceWords(cols, 0);
    forall k | 0 <= k < |cols| ensures AreHarmless(lists[k]) && NoBreak(Piece(cols[k], 0)) && lists[k] != [] {
      assert IsColumnName(names[k], widths[k]);
    }
    LineIsPlain(cols, widths, 0, 0, line, lists);
    LineWordsAre(cols, widths, 0, line, lists);
    FlatHolds(lists, |lists|);
    assert lists[0][0] in Flat(lists, |lists|);
    HarmlessIsNoSeparator(line);
    LineIsWhole(cols, widths, 0, line);
  }

  // ---------------------------------------------------------------- the logs as businesses keep them

  const DECISION_TITLE: string := "## Decision Log"
  const DECISION_COLUMNS: seq<string> := ["ID", "Date", "Status", "Decision", "Expected Impact"]

  /** A document with an empty log of the given columns, and a rule below its table. */
  function EmptyLog(title: string, columns: seq<string>): (lines: seq<string>)
    requires |columns| == |ROW_WIDTHS|
  {
    Template(title, Header(columns, ROW_WIDTHS), Separator(ROW_WIDTHS, |ROW_WIDTHS|), Dashes(79), Dashes(72))
  }

  lemma EmptyLogIsTemplate(title: string, columns: seq<string>, lines: seq<string>)
    requires AreNames(columns, ROW_WIDTHS) && Strip(title) == title && '\n' !in title
    requires lines == EmptyLog(title, columns)
    ensures IsTemplate(lines, title, Header(columns, ROW_WIDTHS), ROW_WIDTHS, 79, 72)
  {
    HeaderIsPlain(columns, ROW_WIDTHS, Header(columns, ROW_WIDTHS));
    NoBreakIs(Header(columns, ROW_WIDTHS));
  }

  /** An empty operation log is found where the writer inserts, under its column names. */
  lemma EmptyOperationLog(title: string, columns: seq<string>, lines: seq<string>, text: string)
    requires AreNames(columns, ROW_WIDTHS) && Strip(title) == title && '\n' !in title
    requires lines == EmptyLog(title, columns) && text == Join(lines, '\n')
    ensures LinesOf(text) == lines && IsWellFormed(OperationLog, title, lines, ROW_WIDTHS, Layout(0, 4, 3, 5))
    ensures ColumnNames(lines, Layout(0, 4, 3, 5)) == columns
  {
    var header := Header(columns, ROW_WIDTHS);
    EmptyLogIsTemplate(title, columns, lines);
    TemplateIsLines(title, header, ROW_WIDTHS, 79, 72);
    SplitJoin(lines, '\n');
    TemplateHasTable(lines, title, header, ROW_WIDTHS, 79, 72);
    TemplateClosings(lines, title, header, ROW_WIDTHS, 79, 72);
    HeaderNames(columns, ROW_WIDTHS, header);
  }

  /** Nothing stands between its separator and its end. */
  lemma EmptyTableHasNoRows(title: string, text: string, l: Layout)
    requires IsAt(Pandoc(title), LinesOf(text), l) && l.end == l.separator + 1
    ensures RowsOf(text, title) == []
  {
    TableIsThere(title, LinesOf(text), l);
    assert LinesOf(text)[l.separator + 1..l.end] == [];
  }

  /** A word that begins with neither a dash nor a number sign is harmless. */
  lemma BeginsHarmless(w: string)
    requires IsWord(w) && w[0] != '-' && w[0] != '#'
    ensures IsHarmless(w)
  {
    assert !OnlyDashes(w) by { assert w[0] != '-'; }
  }

  lemma WordName(name: string, width: nat)
    requires IsWord(name) && name[0] != '-' && name[0] != '#' && |name| <= width
    ensures IsColumnName(name, width)
  {
    BeginsHarmless(name);
    TrimSolid(name, IsSpace);
    WordsOfWord(name);
    assert IsSpace('\n');
    NoBreakIs(name);
  }

  lemma TwoWordName(first: string, second: string, name: string, width: nat)
    requires IsWord(first) && first[0] != '-' && first[0] != '#' && IsWord(second) && second[0] != '-' && second[0] != '#'
    requires name == first + [' '] + second && |name| <= width
    ensures IsColumnName(name, width)
  {
    var ws := [first, second];
    BeginsHarmless(first);
    BeginsHarmless(second);
    assert ws[1..] == [second] && Sentence([second]) == second;
    WordsOfSentence(ws);
    SentenceHasNoBreak(ws);
    TrimSolid(name, IsSpace);
  }

  lemma FiveNames(a: string, b: string, c: string, d: string, e: string)
    requires IsColumnName(a, 9) && IsColumnName(b, 12) && IsColumnName(c, 13) && IsColumnName(d, 15) && IsColumnName(e, 26)
    ensures AreNames([a, b, c, d, e], ROW_WIDTHS)
  {
  }

  lemma CommonColumns()
    ensures IsColumnName("ID", 9) && IsColumnName("Date", 12) && IsColumnName("Status", 13)
  {
    WordName("ID", 9);
    WordName("Date", 12);
    WordName("Status", 13);
  }

  lemma DecisionColumn()
    ensures IsColumnName("Decision", 15)
  {
    WordName("Decision", 15);
  }

  lemma ImpactColumn()
    ensures IsColumnName("Expected Impact", 26)
  {
    assert "Expected Impact" == "Expected" + [' '] + "Impact";
    TwoWordName("Expected", "Impact", "Expected Impact", 26);
  }

  lemma DecisionColumns()
    ensures AreNames(DECISION_COLUMNS, ROW_WIDTHS)
  {
    CommonColumns();
    DecisionColumn();
    ImpactColumn();
    FiveNames("ID", "Date", "Status", "Decision", "Expected Impact");
  }

  lemma DecisionTitle()
    ensures Strip(DECISION_TITLE) == DECISION_TITLE && '\n' !in DECISION_TITLE
  {
    assert !IsSpace(DECISION_TITLE[0]) && !IsSpace(DECISION_TITLE[|DECISION_TITLE| - 1]);
    TrimSolid(DECISION_TITLE, IsSpace);
  }

  /** A decision as it could be logged. */
  function SomeDecision(): (row: seq<seq<string>>)
    ensures |row| == |ROW_WIDTHS|
  {
    [["DEC-4"], ["2026"], ["Open"], ["Grow"], ["More"]]
  }

  function SomeDecisionText(breaks: Breaks): (text: string) {
    RowText(breaks, SomeDecision(), ROW_WIDTHS)
  }

  ghost predicate IsOneWord(breaks: Breaks, ws: seq<string>, width: nat) {
    |ws| == 1 && AreWords(ws) && AreHarmless(ws) && SplitsNoWord(breaks, ws, width)
  }

  lemma OneWord(breaks: Breaks, w: string, width: nat)
    requires IsWord(w) && w[0] != '-' && w[0] != '#' && |w| <= width
    ensures IsOneWord(breaks, [w], width)
  {
    BeginsHarmless(w);
    OneLineIsWhole(breaks, [w], width);
  }

  lemma DecisionWords(breaks: Breaks)
    ensures IsOneWord(breaks, ["DEC-4"], 9) && IsOneWord(breaks, ["2026"], 12) && IsOneWord(breaks, ["Open"], 13)
  {
    OneWord(breaks, "DEC-4", 9);
    OneWord(breaks, "2026", 12);
    OneWord(breaks, "Open", 13);
  }

  lemma DecisionInDomain(breaks: Breaks)
    ensures InDomain(breaks, SomeDecision(), ROW_WIDTHS)
  {
    DecisionWords(breaks);
    OneWord(breaks, "Grow", 15);
    OneWord(breaks, "More", 26);
    RowOfOneWords(breaks, SomeDecision(), ROW_WIDTHS);
  }

  lemma RowOfOneWords(breaks: Breaks, row: seq<seq<string>>, widths: seq<nat>)
    requires |row| == |widths| && AreWidths(widths)
    requires forall k :: 0 <= k < |row| ==> IsOneWord(breaks, row[k], widths[k])
    ensures InDomain(breaks, row, widths)
  {
    assert IsOneWord(breaks, row[0], widths[0]);
  }

  lemma RowIsLost(breaks: Breaks, title: string, columns: seq<string>, lines: seq<string>, text: string, row: seq<seq<string>>)
    returns (written: string)
    requires AreNames(columns, ROW_WIDTHS) && Strip(title) == title && '\n' !in title && InDomain(breaks, row, ROW_WIDTHS)
    requires lines == EmptyLog(title, columns) && text == Join(lines, '\n')
    ensures Append(DecisionLog, title, text, RowText(breaks, row, ROW_WIDTHS)) == Written(written)
    ensures RowsOf(written, title) == RowsOf(text, title) == [] && |LinesOf(written)| > |LinesOf(text)|
  {
    var header := Header(columns, ROW_WIDTHS);
    EmptyLogIsTemplate(title, columns, lines);
    var operations;
    operations, written := RuleBelowTheTable(breaks, text, lines, title, header, ROW_WIDTHS, 79, 72, row);
    EmptyOperationLog(title, columns, lines, text);
    EmptyTableHasNoRows(title, text, Layout(0, 4, 3, 5));
    TemplateClosings(lines, title, header, ROW_WIDTHS, 79, 72);
    var added := RowLines(breaks, Cells(row), ROW_WIDTHS);
    RowIsPlain(breaks, row, ROW_WIDTHS, added);
    var again := WrittenAt(DecisionLog, title, text, added, Layout(0, 4, 3, 5), 7);
  }

  /** A decision log as a business begins it. */
  function EmptyDecisionLog(): (text: string) {
    Join(EmptyLog(DECISION_TITLE, DECISION_COLUMNS), '\n')
  }

  /** The decision writer appends a decision to an empty log with a rule below it: the document changes, and the
      log still reads as empty. */
  lemma DecisionIsLost(breaks: Breaks) returns (written: string)
    ensures Append(DecisionLog, DECISION_TITLE, EmptyDecisionLog(), SomeDecisionText(breaks)) == Written(written)
    ensures RowsOf(written, DECISION_TITLE) == RowsOf(EmptyDecisionLog(), DECISION_TITLE) == []
    ensures |LinesOf(written)| > |LinesOf(EmptyDecisionLog())|
  {
    DecisionColumns();
    DecisionTitle();
    DecisionInDomain(breaks);
    written := RowIsLost(breaks, DECISION_TITLE, DECISION_COLUMNS, EmptyLog(DECISION_TITLE, DECISION_COLUMNS),
                         EmptyDecisionLog(), SomeDecision());
  }
}
