/** The reader of fixed-width tables: finding the table under a heading, and cutting its rows into cells. */
module TableParser {
  import opened Text
  import opened TextWrap
  import opened WrapReading
  import opened TablePrinter
  import opened TableScan

  // ---------------------------------------------------------------- kinds of lines

  predicate OnlyDashes(s: string) {
    forall i :: 0 <= i < |s| ==> s[i] == '-'
  }

  predicate DashesAndSpaces(s: string) {
    forall i :: 0 <= i < |s| ==> s[i] == '-' || s[i] == ' '
  }

  /** A heading of the first or second level. */
  predicate IsHeading(line: string) {
    var s := Strip(line);
    || (|s| >= 3 && s[0] == '#' && s[1] == '#' && s[2] == ' ')
    || (|s| >= 2 && s[0] == '#' && s[1] == ' ')
  }

  predicate IsSeparator(line: string) {
    var s := Strip(line);
    s != "" && DashesAndSpaces(s) && |DashRuns(s)| >= 2
  }

  predicate IsFullBoundary(line: string) {
    |Strip(line)| >= 10 && OnlyDashes(Strip(line))
  }

  predicate IsRule(line: string) {
    |Strip(line)| >= 4 && OnlyDashes(Strip(line))
  }

  /** The line that decides whether the section has a table. */
  predicate StartsTable(line: string) {
    !IsBlank(line) && (IsHeading(line) || IsSeparator(line))
  }

  predicate EndsTable(line: string) {
    IsHeading(line) || IsFullBoundary(line) || IsRule(line)
  }

  /** The tables under one heading. */
  function Pandoc(title: string): (r: Format) {
    Format(line => Strip(line) == title, StartsTable, IsHeading, EndsTable, IsBlank)
  }

  /** One number sign or two, and a space. */
  lemma HeadingKinds(text: string)
    requires text != "" && !IsSpace(text[|text| - 1])
    ensures IsHeading("# " + text) && IsHeading("## " + text)
    ensures !IsHeading("### " + text)
    ensures text[0] != '#' && text[0] != ' ' ==> !IsHeading("#" + text) && !IsHeading("##" + text)
  {
    assert !IsSpace('#');
    TrimSolid("# " + text, IsSpace);
    TrimSolid("## " + text, IsSpace);
    TrimSolid("### " + text, IsSpace);
    TrimSolid("#" + text, IsSpace);
    TrimSolid("##" + text, IsSpace);
  }

  // ---------------------------------------------------------------- columns

  predicate AreBounds(bounds: seq<(nat, nat)>) {
    forall k :: 0 <= k < |bounds| ==> bounds[k].0 <= bounds[k].1
  }

  /** The runs of dashes among the first n characters, each from its first position to the one after its last. */
  function RunsUpTo(s: string, n: nat): (runs: seq<(nat, nat)>)
    requires n <= |s|
    ensures n > 0 && s[n - 1] == '-' ==> runs != []
    ensures forall k :: 0 <= k < |runs| ==> runs[k].0 < runs[k].1 <= n
  {
    if n == 0 then []
    else
      var before := RunsUpTo(s, n - 1);
      if s[n - 1] != '-' then before
      else if n > 1 && s[n - 2] == '-' then before[..|before| - 1] + [(before[|before| - 1].0, n)]
      else before + [(n - 1, n)]
  }

  /** A run of dashes among the first n characters that no other dash stands beside. */
  predicate IsRun(s: string, n: nat, run: (nat, nat)) {
    && run.0 < run.1 <= n <= |s| && (forall i :: run.0 <= i < run.1 ==> s[i] == '-')
    && (run.0 > 0 ==> s[run.0 - 1] != '-') && (run.1 < n ==> s[run.1] != '-')
  }

  /** All such runs, from left to right. */
  ghost predicate AreRuns(s: string, n: nat, runs: seq<(nat, nat)>) {
    && (forall k :: 0 <= k < |runs| ==> IsRun(s, n, runs[k]))
    && (forall j, k :: 0 <= j < k < |runs| ==> runs[j].1 < runs[k].0)
    && (forall i :: 0 <= i < n <= |s| && s[i] == '-' ==> IsInRun(runs, i))
  }

  ghost predicate IsInRun(runs: seq<(nat, nat)>, i: nat) {
    exists k :: 0 <= k < |runs| && runs[k].0 <= i < runs[k].1
  }

  predicate EndsInDash(s: string, n: nat) {
    0 < n <= |s| && s[n - 1] == '-'
  }

  lemma RunStays(s: string, n: nat, run: (nat, nat))
    requires n < |s| && IsRun(s, n, run) && (run.1 < n || s[n] != '-')
    ensures IsRun(s, n + 1, run)
  {
  }

  lemma RunEndsBefore(s: string, n: nat, run: (nat, nat))
    requires IsRun(s, n, run) && !EndsInDash(s, n)
    ensures run.1 < n
  {
    assert s[run.1 - 1] == '-';
  }

  lemma NoMoreRuns(s: string, n: nat, runs: seq<(nat, nat)>)
    requires n < |s| && AreRuns(s, n, runs) && s[n] != '-'
    ensures AreRuns(s, n + 1, runs)
  {
    forall k | 0 <= k < |runs| ensures IsRun(s, n + 1, runs[k]) { RunStays(s, n, runs[k]); }
  }

  lemma OneMoreRun(s: string, n: nat, runs: seq<(nat, nat)>)
    requires n < |s| && AreRuns(s, n, runs) && s[n] == '-' && !EndsInDash(s, n)
    ensures AreRuns(s, n + 1, runs + [(n, n + 1)])
  {
    var more := runs + [(n, n + 1)];
    forall k | 0 <= k < |runs| ensures runs[k].1 < n && IsRun(s, n + 1, runs[k]) {
      RunEndsBefore(s, n, runs[k]);
      RunStays(s, n, runs[k]);
    }
    forall i | 0 <= i <= n && s[i] == '-' ensures IsInRun(more, i) {
      if i < n { RunKept(runs, (n, n + 1), i); } else { assert more[|runs|].0 <= i < more[|runs|].1; }
    }
  }

  lemma RunKept(runs: seq<(nat, nat)>, run: (nat, nat), i: nat)
    requires IsInRun(runs, i)
    ensures IsInRun(runs + [run], i)
  {
    var k :| 0 <= k < |runs| && runs[k].0 <= i < runs[k].1;
    assert (runs + [run])[k] == runs[k];
  }

  lemma LongerRun(s: string, n: nat, runs: seq<(nat, nat)>, start: nat)
    requires n < |s| && AreRuns(s, n, runs + [(start, n)]) && s[n] == '-'
    ensures AreRuns(s, n + 1, runs + [(start, n + 1)])
  {
    var was, more := runs + [(start, n)], runs + [(start, n + 1)];
    assert was[|runs|] == (start, n) && IsRun(s, n, was[|runs|]);
    assert IsRun(s, n + 1, (start, n + 1));
    forall j, k | 0 <= j < k < |more| ensures more[j].1 < more[k].0 { assert was[j].1 < was[k].0; }
    forall k | 0 <= k < |more| ensures IsRun(s, n + 1, more[k]) {
      assert IsRun(s, n, was[k]);
      if k < |runs| {
        assert was[k].1 < was[|runs|].0;
        RunStays(s, n, runs[k]);
      }
    }
    forall i | 0 <= i <= n && s[i] == '-' ensures IsInRun(more, i) {
      if i < n { assert IsInRun(was, i); }
      LongerHolds(runs, start, n, i);
    }
  }

  lemma LongerHolds(runs: seq<(nat, nat)>, start: nat, n: nat, i: nat)
    requires start <= n && (IsInRun(runs + [(start, n)], i) || i == n)
    ensures IsInRun(runs + [(start, n + 1)], i)
  {
    var was, more := runs + [(start, n)], runs + [(start, n + 1)];
    if i == n {
      assert more[|runs|].0 <= i < more[|runs|].1;
    } else {
      var k :| 0 <= k < |was| && was[k].0 <= i < was[k].1;
      assert more[k].0 <= i < more[k].1;
    }
  }

  lemma LastRun(runs: seq<(nat, nat)>, n: nat)
    requires runs != [] && runs[|runs| - 1].1 == n
    ensures runs == runs[..|runs| - 1] + [(runs[|runs| - 1].0, n)]
  {
  }

  /** The runs with one more character. */
  function WithNext(s: string, n: nat, runs: seq<(nat, nat)>): (more: seq<(nat, nat)>)
    requires n < |s| && (EndsInDash(s, n) ==> runs != [])
  {
    if s[n] != '-' then runs
    else if EndsInDash(s, n) then runs[..|runs| - 1] + [(runs[|runs| - 1].0, n + 1)]
    else runs + [(n, n + 1)]
  }

  lemma RunsGrow(s: string, n: nat, runs: seq<(nat, nat)>)
    requires n < |s| && AreRuns(s, n, runs) && (EndsInDash(s, n) ==> runs != [] && runs[|runs| - 1].1 == n)
    ensures var more := WithNext(s, n, runs);
      AreRuns(s, n + 1, more) && (s[n] == '-' ==> more != [] && more[|more| - 1].1 == n + 1)
  {
    if s[n] != '-' {
      NoMoreRuns(s, n, runs);
    } else if EndsInDash(s, n) {
      LastRun(runs, n);
      LongerRun(s, n, runs[..|runs| - 1], runs[|runs| - 1].0);
    } else {
      OneMoreRun(s, n, runs);
    }
  }

  lemma {:induction false} RunsAre(s: string, n: nat) returns (runs: seq<(nat, nat)>)
    requires n <= |s|
    ensures runs == RunsUpTo(s, n) && AreRuns(s, n, runs)
    ensures EndsInDash(s, n) ==> runs != [] && runs[|runs| - 1].1 == n
  {
    if n == 0 {
      runs := [];
    } else {
      var before := RunsAre(s, n - 1);
      RunsGrow(s, n - 1, before);
      runs := WithNext(s, n - 1, before);
    }
  }

  function DashRuns(s: string): (runs: seq<(nat, nat)>)
    ensures AreBounds(runs)
  {
    RunsUpTo(s, |s|)
  }

  lemma DashRunsAre(s: string)
    ensures AreRuns(s, |s|, DashRuns(s))
  {
    var runs := RunsAre(s, |s|);
  }

  method ParseColumnBoundaries(separator: string) returns (columns: seq<(nat, nat)>)
    ensures columns == DashRuns(separator) && AreRuns(separator, |separator|, columns)
  {
    columns := ScanColumns(separator);
    DashRunsAre(separator);
  }

  method ScanColumns(separator: string) returns (columns: seq<(nat, nat)>)
    ensures columns == DashRuns(separator)
  {
    columns := [];
    var inDash, start := false, 0;
    for j := 0 to |separator|
      invariant start <= j && (inDash <==> j > 0 && separator[j - 1] == '-')
      invariant RunsUpTo(separator, j) == if inDash then columns + [(start, j)] else columns
    {
      var c := separator[j];
      if c == '-' && !inDash {
        start := j;
        inDash := true;
      } else if c != '-' && inDash {
        columns := columns + [(start, j)];
        inDash := false;
      }
    }
    if inDash {
      columns := columns + [(start, |separator|)];
    }
  }

  // ---------------------------------------------------------------- cells

  function Pieces(lines: seq<string>, from: nat, to: nat): (pieces: seq<string>)
    requires from <= to
    ensures |pieces| == |lines|
  {
    if lines == [] then [] else Pieces(lines[..|lines| - 1], from, to) + [Slice(lines[|lines| - 1], from, to)]
  }

  /** The trimmed pieces that are not empty. */
  function CellParts(lines: seq<string>, from: nat, to: nat): (r: seq<string>)
    requires from <= to
  {
    Texts(Pieces(lines, from, to))
  }

  /** A cell's text: its trimmed pieces, joined by single spaces. */
  function CellText(lines: seq<string>, from: nat, to: nat): (r: string)
    requires from <= to
  {
    Sentence(CellParts(lines, from, to))
  }

  function CellTexts(lines: seq<string>, bounds: seq<(nat, nat)>): (cells: seq<string>)
    requires AreBounds(bounds)
    ensures |cells| == |bounds|
    ensures forall k :: 0 <= k < |bounds| ==> cells[k] == CellText(lines, bounds[k].0, bounds[k].1)
  {
    seq(|bounds|, k requires 0 <= k < |bounds| => CellText(lines, bounds[k].0, bounds[k].1))
  }

  /** The column names. */
  function Names(header: string, bounds: seq<(nat, nat)>): (names: seq<string>)
    requires AreBounds(bounds)
    ensures |names| == |bounds|
  {
    seq(|bounds|, k requires 0 <= k < |bounds| => Strip(Slice(header, bounds[k].0, bounds[k].1)))
  }

  /** A row by column name; of two columns with one name, the later. */
  function Record(names: seq<string>, cells: seq<string>): (row: map<string, string>)
    requires |names| == |cells|
    ensures forall name :: name in row <==> name in names
  {
    if names == [] then map[] else Record(names[..|names| - 1], cells[..|cells| - 1])[names[|names| - 1] := cells[|cells| - 1]]
  }

  lemma {:induction false} RecordAt(names: seq<string>, cells: seq<string>, k: nat)
    requires |names| == |cells| && k < |names| && forall j :: k < j < |names| ==> names[j] != names[k]
    ensures Record(names, cells)[names[k]] == cells[k]
  {
    if k < |names| - 1 {
      RecordAt(names[..|names| - 1], cells[..|cells| - 1], k);
      assert names[|names| - 1] != names[k];
    }
  }

  function Records(names: seq<string>, bounds: seq<(nat, nat)>, groups: seq<seq<string>>): (rows: seq<map<string, string>>)
    requires AreBounds(bounds) && |names| == |bounds|
    ensures |rows| == |groups|
  {
    if groups == [] then []
    else Records(names, bounds, groups[..|groups| - 1]) + [Record(names, CellTexts(groups[|groups| - 1], bounds))]
  }

  /** The names of the table's columns. */
  function ColumnNames(lines: seq<string>, l: Layout): (names: seq<string>)
    requires IsLaidOut(l, |lines|)
    ensures |names| == |DashRuns(lines[l.separator])|
  {
    Names(lines[l.header], DashRuns(lines[l.separator]))
  }

  /** The rows under a header and a separator. */
  function Grid(header: string, separator: string, groups: seq<seq<string>>): (r: seq<map<string, string>>) {
    Records(Names(header, DashRuns(separator)), DashRuns(separator), groups)
  }

  function TableAt(f: Format, lines: seq<string>, l: Layout): (r: seq<map<string, string>>)
    requires IsLaidOut(l, |lines|)
  {
    Grid(lines[l.header], lines[l.separator], Data(f, lines, l))
  }

  /** The rows of the table under the heading; none without such a table. */
  function Table(f: Format, lines: seq<string>): (r: seq<map<string, string>>) {
    var layout := FindTable(f, lines);
    if layout.None? then [] else TableAt(f, lines, layout.value)
  }

  lemma PiecesStep(lines: seq<string>, i: nat, from: nat, to: nat)
    requires i < |lines| && from <= to
    ensures Pieces(lines[..i + 1], from, to) == Pieces(lines[..i], from, to) + [Slice(lines[i], from, to)]
  {
    assert lines[..i + 1][..i] == lines[..i];
  }

  lemma PartsStep(lines: seq<string>, i: nat, from: nat, to: nat, text: string)
    requires i < |lines| && from <= to && text == Strip(Slice(lines[i], from, to))
    ensures var before := CellParts(lines[..i], from, to);
      CellParts(lines[..i + 1], from, to) == if text == "" then before else before + [text]
  {
    PiecesStep(lines, i, from, to);
    TextsSnoc(Pieces(lines[..i], from, to), Slice(lines[i], from, to));
  }

  method ReadCell(lines: seq<string>, from: nat, to: nat) returns (text: string)
    requires from <= to
    ensures text == CellText(lines, from, to)
  {
    var parts: seq<string> := [];
    for i := 0 to |lines|
      invariant parts == CellParts(lines[..i], from, to)
    {
      var text := Strip(Slice(lines[i], from, to));
      PartsStep(lines, i, from, to, text);
      if text != "" {
        parts := parts + [text];
      }
    }
    assert lines[..|lines|] == lines;
    text := Sentence(parts);
  }

  method ReadRow(lines: seq<string>, bounds: seq<(nat, nat)>, names: seq<string>) returns (row: map<string, string>)
    requires AreBounds(bounds) && |names| == |bounds|
    ensures row == Record(names, CellTexts(lines, bounds))
  {
    ghost var cells := CellTexts(lines, bounds);
    row := map[];
    for k := 0 to |bounds|
      invariant row == Record(names[..k], cells[..k])
    {
      assert names[..k + 1][..k] == names[..k] && cells[..k + 1][..k] == cells[..k];
      var text := ReadCell(lines, bounds[k].0, bounds[k].1);
      row := row[names[k] := text];
    }
    assert names[..|names|] == names && cells[..|cells|] == cells;
  }

  method ReadRows(groups: seq<seq<string>>, bounds: seq<(nat, nat)>, names: seq<string>) returns (rows: seq<map<string, string>>)
    requires AreBounds(bounds) && |names| == |bounds|
    ensures rows == Records(names, bounds, groups)
  {
    rows := [];
    for i := 0 to |groups|
      invariant rows == Records(names, bounds, groups[..i])
    {
      assert groups[..i + 1][..i] == groups[..i];
      var row := ReadRow(groups[i], bounds, names);
      rows := rows + [row];
    }
    assert groups[..|groups|] == groups;
  }

  method ReadGrid(header: string, separator: string, groups: seq<seq<string>>) returns (rows: seq<map<string, string>>)
    ensures rows == Grid(header, separator, groups)
  {
    var bounds := ParseColumnBoundaries(separator);
    var names := Names(header, bounds);
    rows := ReadRows(groups, bounds, names);
  }

  method ReadData(f: Format, lines: seq<string>, l: Layout) returns (groups: seq<seq<string>>)
    requires IsLaidOut(l, |lines|)
    ensures groups == Data(f, lines, l)
  {
    groups := GroupRows(f.blank, lines[l.separator + 1..l.end]);
  }

  method ReadTable(f: Format, lines: seq<string>, l: Layout) returns (rows: seq<map<string, string>>)
    requires IsLaidOut(l, |lines|)
    ensures rows == TableAt(f, lines, l)
  {
    var groups := ReadData(f, lines, l);
    rows := ReadGrid(lines[l.header], lines[l.separator], groups);
  }

  method ParseTable(text: string, title: string) returns (rows: seq<map<string, string>>)
    ensures rows == Table(Pandoc(title), Split(text, '\n'))
  {
    var lines := Split(text, '\n');
    var layout := LocateTable(Pandoc(title), lines);
    if layout.None? {
      rows := [];
    } else {
      rows := ReadTable(Pandoc(title), lines, layout.value);
    }
  }
}
