/** The writers that insert a row before a log table's closing boundary. */
module TableWriter {
  import opened Text
  import opened TextWrap
  import opened TablePrinter
  import opened TableScan
  import opened TableParser
  import opened Ordering

  /** The two logs; their writers differ in which dash lines count as boundaries. */
  datatype Log = OperationLog | DecisionLog

  function WithoutSpaces(s: string): (r: string) {
    if s == "" then ""
    else
      var before := WithoutSpaces(s[..|s| - 1]);
      if s[|s| - 1] == ' ' then before else before + [s[|s| - 1]]
  }

  /** A dash line the writer takes for a table boundary. */
  predicate IsDashLine(line: string) {
    var s := Strip(line);
    s != "" && DashesAndSpaces(s) && |WithoutSpaces(s)| >= 10
  }

  ghost function DashAt(s: string): (p: nat -> bool) {
    (i: nat) => i < |s| && s[i] == '-'
  }

  lemma {:induction false} WithoutSpacesIs(s: string, n: nat)
    requires n <= |s| && DashesAndSpaces(s)
    ensures |WithoutSpaces(s[..n])| == |Places(n, DashAt(s))|
  {
    if n > 0 {
      WithoutSpacesIs(s, n - 1);
      assert s[..n][..n - 1] == s[..n - 1];
    }
  }

  /** Ten dashes at least, whatever spaces stand between them, and nothing else. */
  lemma DashLineIs(line: string)
    ensures IsDashLine(line) <==> DashesAndSpaces(Strip(line)) && |Places(|Strip(line)|, DashAt(Strip(line)))| >= 10
  {
    var s := Strip(line);
    if DashesAndSpaces(s) {
      WithoutSpacesIs(s, |s|);
      assert s[..|s|] == s;
    }
  }

  predicate IsIndentedDashLine(line: string) {
    INDENT <= line && IsDashLine(line)
  }

  function Boundary(log: Log): (r: string -> bool) {
    match log
    case OperationLog => IsIndentedDashLine
    case DecisionLog => IsDashLine
  }

  // ---------------------------------------------------------------- writing

  datatype Outcome = Written(text: string) | NoFile | NoSection | NoBoundary

  function Inserted<T>(s: seq<T>, i: nat, x: T): (r: seq<T>)
    requires i <= |s|
  {
    s[..i] + [x] + s[i..]
  }

  /** The document's text after a row's text is put in. */
  function Append(log: Log, title: string, text: string, row: string): (r: Outcome) {
    var lines := Split(text, '\n');
    var heading := FirstFrom(lines, 0, Pandoc(title).title);
    if heading == |lines| then NoSection
    else
      var closing := Closing(IsHeading, Boundary(log), lines, heading);
      if closing.None? then NoBoundary
      else Written(Join(Inserted(Inserted(lines, closing.value, ""), closing.value + 1, row), '\n'))
  }

  // ---------------------------------------------------------------- the same, on the document's lines

  /** The section's heading: the first line that is its title. */
  ghost predicate IsHeadingAt(lines: seq<string>, title: string, h: nat) {
    h < |lines| && Strip(lines[h]) == title && forall j :: 0 <= j < h ==> Strip(lines[j]) != title
  }

  /** A line of the section under a heading: no other heading stands between. */
  ghost predicate IsInSection(lines: seq<string>, h: nat, j: nat) {
    h < j < |lines| && forall i :: h < i <= j ==> !IsHeading(lines[i])
  }

  /** The last boundary of the section. */
  ghost predicate IsLastBoundary(log: Log, lines: seq<string>, h: nat, c: nat) {
    && IsInSection(lines, h, c) && IsBoundary(log, lines[c])
    && forall j: nat :: IsInSection(lines, h, j) && IsBoundary(log, lines[j]) ==> j <= c
  }

  predicate IsBoundary(log: Log, line: string) {
    IsDashLine(line) && (log == OperationLog ==> INDENT <= line)
  }

  /** What comes of an append: without the heading no section, without a boundary under it no table, and otherwise a
      blank line and the row before the last boundary. */
  ghost predicate IsAppended(log: Log, title: string, text: string, row: string, outcome: Outcome) {
    var lines := Split(text, '\n');
    match outcome
    case NoFile => false
    case NoSection => forall h :: !IsHeadingAt(lines, title, h)
    case NoBoundary => exists h :: IsHeadingAt(lines, title, h) && forall c :: !IsLastBoundary(log, lines, h, c)
    case Written(longer) => exists h, c :: IsHeadingAt(lines, title, h) && IsWrittenAt(log, lines, h, c, row, longer)
  }

  ghost predicate IsWrittenAt(log: Log, lines: seq<string>, h: nat, c: nat, row: string, longer: string) {
    IsLastBoundary(log, lines, h, c) && longer == Join(lines[..c] + ["", row] + lines[c..], '\n')
  }

  lemma ClosingIs(log: Log, lines: seq<string>, h: nat)
    requires h < |lines|
    ensures var closing := Closing(IsHeading, Boundary(log), lines, h);
      && (closing.Some? ==> IsLastBoundary(log, lines, h, closing.value))
      && (closing.None? ==> forall c :: !IsLastBoundary(log, lines, h, c))
  {
    var limit := FirstFrom(lines, h + 1, IsHeading);
    FirstFacts(lines, h + 1, IsHeading);
    LastBoundaryFacts(Boundary(log), lines, h + 1, limit);
    forall j: nat ensures IsInSection(lines, h, j) <==> h < j < limit {
      if h < limit <= j < |lines| { assert IsHeading(lines[limit]); }
    }
    forall line ensures Boundary(log)(line) <==> IsBoundary(log, line) {}
  }

  lemma AppendIs(log: Log, title: string, text: string, row: string)
    ensures IsAppended(log, title, text, row, Append(log, title, text, row))
  {
    var lines := Split(text, '\n');
    var h := FirstFrom(lines, 0, Pandoc(title).title);
    FirstFacts(lines, 0, Pandoc(title).title);
    if h < |lines| {
      assert IsHeadingAt(lines, title, h);
      ClosingIs(log, lines, h);
      var closing := Closing(IsHeading, Boundary(log), lines, h);
      if closing.Some? {
        TwoInserted(lines, closing.value, row);
        assert IsWrittenAt(log, lines, h, closing.value, row, Append(log, title, text, row).text);
      }
    }
  }

  lemma TwoInserted(lines: seq<string>, c: nat, row: string)
    requires c <= |lines|
    ensures Inserted(Inserted(lines, c, ""), c + 1, row) == lines[..c] + ["", row] + lines[c..]
  {
    TwoInserts(lines, c, row);
    assert (lines[..c] + [""]) + [row] == lines[..c] + ["", row];
  }

  class Document {
    var text: Option<string>

    /** Appends one row to the log's table; on any error the document stays as it was. */
    method AppendRow(breaks: Breaks, log: Log, title: string, cells: seq<string>, widths: seq<nat>) returns (outcome: Outcome)
      requires |cells| == |widths| && AreWidths(widths)
      modifies this
      ensures old(text).None? ==> outcome == NoFile
      ensures old(text).Some? ==> outcome == Append(log, title, old(text).value, Join(RowLines(breaks, cells, widths), '\n'))
      ensures old(text).Some? ==> IsAppended(log, title, old(text).value, Join(RowLines(breaks, cells, widths), '\n'), outcome)
      ensures text == if outcome.Written? then Some(outcome.text) else old(text)
    {
      if text.Some? { AppendIs(log, title, text.value, Join(RowLines(breaks, cells, widths), '\n')); }
      if text.None? { return NoFile; }
      var lines := Split(text.value, '\n');
      var heading := FindFirst(lines, 0, Pandoc(title).title);
      if heading == |lines| { return NoSection; }
      var closing := FindClosing(IsHeading, Boundary(log), lines, heading);
      if closing.None? { return NoBoundary; }
      var row := FormatRow(breaks, cells, widths);
      lines := Inserted(lines, closing.value, "");
      lines := Inserted(lines, closing.value + 1, row);
      outcome := Written(Join(lines, '\n'));
      text := Some(outcome.text);
    }
  }

  // ---------------------------------------------------------------- the new lines

  lemma JoinOne(s: string, c: char)
    ensures Join([s], c) == s
  {
  }

  /** Joining lines of which one holds several, or joining them all, is the same. */
  lemma JoinNested(a: seq<string>, b: seq<string>, d: seq<string>, c: char)
    requires a != [] && b != [] && d != []
    ensures Join(a + [Join(b, c)] + d, c) == Join(a + b + d, c)
  {
    JoinOne(Join(b, c), c);
    JoinConcat(a, [Join(b, c)], c);
    JoinConcat(a, b, c);
    JoinConcat(a + [Join(b, c)], d, c);
    JoinConcat(a + b, d, c);
  }

  lemma TwoInserts(lines: seq<string>, c: nat, row: string)
    requires c <= |lines|
    ensures Inserted(Inserted(lines, c, ""), c + 1, row) == (lines[..c] + [""]) + [row] + lines[c..]
  {
    var once := Inserted(lines, c, "");
    assert once[..c + 1] == lines[..c] + [""];
    assert once[c + 1..] == lines[c..];
  }

  ghost predicate AreLines(lines: seq<string>) {
    forall i :: 0 <= i < |lines| ==> '\n' !in lines[i]
  }

  lemma WithRowIsLines(lines: seq<string>, c: nat, row: seq<string>)
    requires AreLines(lines) && c < |lines| && AreLines(row)
    ensures AreLines(WithRow(lines, c, row)) && WithRow(lines, c, row) != []
  {
    forall j | 0 <= j < |WithRow(lines, c, row)| ensures '\n' !in WithRow(lines, c, row)[j] {
      if j > c && j < c + 1 + |row| { assert WithRow(lines, c, row)[j] == row[j - c - 1]; }
      if j > c + |row| { assert WithRow(lines, c, row)[j] == lines[j - 1 - |row|]; }
    }
  }

  /** The written document, line by line. */
  lemma WrittenLines(log: Log, title: string, text: string, row: seq<string>, lines: seq<string>, heading: nat, c: nat)
    requires lines == Split(text, '\n') && row != [] && AreLines(row)
    requires heading == FirstFrom(lines, 0, Pandoc(title).title) && heading < |lines| && Closing(IsHeading, Boundary(log), lines, heading) == Some(c)
    ensures var outcome := Append(log, title, text, Join(row, '\n'));
      outcome.Written? && Split(outcome.text, '\n') == WithRow(lines, c, row)
  {
    TwoInserts(lines, c, Join(row, '\n'));
    JoinNested(lines[..c] + [""], row, lines[c..], '\n');
    assert (lines[..c] + [""]) + row + lines[c..] == WithRow(lines, c, row);
    WithRowIsLines(lines, c, row);
    SplitJoin(WithRow(lines, c, row), '\n');
  }
}
