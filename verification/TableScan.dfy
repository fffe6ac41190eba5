/** Finding a table among lines, whatever tells the kinds of lines apart: its heading, the line under its
    column names, the line that ends its data, and its rows, which blank lines separate. */
module TableScan {
  import opened Text

  /** How the kinds of lines are told apart. */
  datatype Format = Format(title: string -> bool, start: string -> bool, heading: string -> bool, end: string -> bool,
                           blank: string -> bool)

  function FirstFrom(lines: seq<string>, from: nat, p: string -> bool): (i: nat)
    requires from <= |lines|
    ensures from <= i <= |lines|
    decreases |lines| - from
  {
    if from == |lines| || p(lines[from]) then from else FirstFrom(lines, from + 1, p)
  }

  lemma {:induction false} FirstFacts(lines: seq<string>, from: nat, p: string -> bool)
    requires from <= |lines|
    ensures var i := FirstFrom(lines, from, p);
      (forall j :: from <= j < i ==> !p(lines[j])) && (i < |lines| ==> p(lines[i]))
    decreases |lines| - from
  {
    if from < |lines| && !p(lines[from]) { FirstFacts(lines, from + 1, p); }
  }

  lemma {:induction false} FirstIs(lines: seq<string>, from: nat, p: string -> bool, i: nat)
    requires from <= i <= |lines| && (forall j :: from <= j < i ==> !p(lines[j]))
    requires i < |lines| ==> p(lines[i])
    ensures FirstFrom(lines, from, p) == i
    decreases i - from
  {
    if from < i { FirstIs(lines, from + 1, p, i); }
  }

  method FindFirst(lines: seq<string>, from: nat, p: string -> bool) returns (i: nat)
    requires from <= |lines|
    ensures i == FirstFrom(lines, from, p)
  {
    i := from;
    while i < |lines| && !p(lines[i])
      invariant from <= i <= |lines| && forall j :: from <= j < i ==> !p(lines[j])
    {
      i := i + 1;
    }
    FirstIs(lines, from, p, i);
  }

  // ---------------------------------------------------------------- the table's place

  datatype Layout = Layout(heading: nat, separator: nat, header: nat, end: nat)

  predicate IsLaidOut(l: Layout, length: nat) {
    l.heading < l.header < l.separator < l.end <= length
  }

  /** The last line above the i-th that is not blank, or the floor. */
  function LastWritten(blank: string -> bool, lines: seq<string>, floor: nat, i: nat): (h: nat)
    requires floor <= i < |lines|
    ensures floor <= h <= i
    decreases i
  {
    if i > floor && blank(lines[i]) then LastWritten(blank, lines, floor, i - 1) else i
  }

  /** Where the section's table has its separator, if it has a table before the next heading. */
  function SeparatorAfter(f: Format, lines: seq<string>, heading: nat): (s: Option<nat>)
    requires heading < |lines|
    ensures s.Some? ==> heading < s.value < |lines|
  {
    var s := FirstFrom(lines, heading + 1, f.start);
    if s == |lines| || f.heading(lines[s]) then None else Some(s)
  }

  function LayoutAt(f: Format, lines: seq<string>, heading: nat, separator: nat): (layout: Option<Layout>)
    requires heading < separator < |lines|
    ensures layout.Some? ==> IsLaidOut(layout.value, |lines|)
  {
    var header := LastWritten(f.blank, lines, heading, separator - 1);
    if header == heading then None
    else Some(Layout(heading, separator, header, FirstFrom(lines, separator + 1, f.end)))
  }

  function TableUnder(f: Format, lines: seq<string>, heading: nat): (layout: Option<Layout>)
    requires heading < |lines|
    ensures layout.Some? ==> IsLaidOut(layout.value, |lines|)
  {
    var s := SeparatorAfter(f, lines, heading);
    if s.None? then None else LayoutAt(f, lines, heading, s.value)
  }

  function FindTable(f: Format, lines: seq<string>): (layout: Option<Layout>)
    ensures layout.Some? ==> IsLaidOut(layout.value, |lines|)
  {
    var h := FirstFrom(lines, 0, f.title);
    if h == |lines| then None else TableUnder(f, lines, h)
  }

  method FindSeparator(f: Format, lines: seq<string>, heading: nat) returns (s: Option<nat>)
    requires heading < |lines|
    ensures s == SeparatorAfter(f, lines, heading)
  {
    var i := FindFirst(lines, heading + 1, f.start);
    s := if i == |lines| || f.heading(lines[i]) then None else Some(i);
  }

  method FindHeader(blank: string -> bool, lines: seq<string>, floor: nat, from: nat) returns (header: nat)
    requires floor <= from < |lines|
    ensures header == LastWritten(blank, lines, floor, from)
  {
    header := from;
    while header > floor && blank(lines[header])
      invariant floor <= header <= from
      invariant LastWritten(blank, lines, floor, from) == LastWritten(blank, lines, floor, header)
    {
      header := header - 1;
    }
  }

  method LocateTable(f: Format, lines: seq<string>) returns (layout: Option<Layout>)
    ensures layout == FindTable(f, lines)
  {
    var heading := FindFirst(lines, 0, f.title);
    if heading == |lines| { return None; }
    var s := FindSeparator(f, lines, heading);
    if s.None? { return None; }
    var header := FindHeader(f.blank, lines, heading, s.value - 1);
    if header <= heading { return None; }
    var end := FindFirst(lines, s.value + 1, f.end);
    return Some(Layout(heading, s.value, header, end));
  }

  /** The table's place, stated scan by scan. */
  ghost predicate IsAt(f: Format, lines: seq<string>, l: Layout) {
    && IsLaidOut(l, |lines|)
    && FirstFrom(lines, 0, f.title) == l.heading
    && FirstFrom(lines, l.heading + 1, f.start) == l.separator
    && !f.heading(lines[l.separator])
    && LastWritten(f.blank, lines, l.heading, l.separator - 1) == l.header
    && FirstFrom(lines, l.separator + 1, f.end) == l.end
  }

  lemma FoundIsAt(f: Format, lines: seq<string>, l: Layout)
    ensures FindTable(f, lines) == Some(l) <==> IsAt(f, lines, l)
  {
  }

  ghost predicate IsFirst(lines: seq<string>, from: nat, p: string -> bool, i: nat) {
    from <= i <= |lines| && (i < |lines| ==> p(lines[i])) && forall j :: from <= j < i ==> !p(lines[j])
  }

  /** The table's place in terms of its lines: the first title; the first line after it that could start a table, and
      that is no heading; the last line between them that is not blank; and the first line after that ends a table. */
  lemma FoundExactlyWhere(f: Format, lines: seq<string>, l: Layout)
    ensures FindTable(f, lines) == Some(l) <==>
      && IsLaidOut(l, |lines|)
      && IsFirst(lines, 0, f.title, l.heading)
      && IsFirst(lines, l.heading + 1, f.start, l.separator) && !f.heading(lines[l.separator])
      && !f.blank(lines[l.header]) && (forall j :: l.header < j < l.separator ==> f.blank(lines[j]))
      && IsFirst(lines, l.separator + 1, f.end, l.end)
  {
    FoundIsAt(f, lines, l);
    if IsLaidOut(l, |lines|) {
      FirstIsFirst(lines, 0, f.title, l.heading);
      FirstIsFirst(lines, l.heading + 1, f.start, l.separator);
      FirstIsFirst(lines, l.separator + 1, f.end, l.end);
      LastWrittenIs(f.blank, lines, l.heading, l.separator - 1, l.header);
    }
  }

  lemma FirstIsFirst(lines: seq<string>, from: nat, p: string -> bool, i: nat)
    requires from <= |lines|
    ensures FirstFrom(lines, from, p) == i <==> IsFirst(lines, from, p, i)
  {
    FirstFacts(lines, from, p);
    if IsFirst(lines, from, p, i) { FirstIs(lines, from, p, i); }
  }

  lemma {:induction false} LastWrittenIs(blank: string -> bool, lines: seq<string>, floor: nat, i: nat, h: nat)
    requires floor <= i < |lines| && floor < h <= i
    ensures LastWritten(blank, lines, floor, i) == h <==> !blank(lines[h]) && forall j :: h < j <= i ==> blank(lines[j])
    decreases i
  {
    if h < i && blank(lines[i]) { LastWrittenIs(blank, lines, floor, i - 1, h); }
  }

  // ---------------------------------------------------------------- rows

  /** Runs of lines that are not blank. */
  function Groups(blank: string -> bool, lines: seq<string>): (groups: seq<seq<string>>)
    ensures lines != [] && !blank(lines[|lines| - 1]) ==> groups != []
  {
    if lines == [] then []
    else
      var n := |lines| - 1;
      var before := Groups(blank, lines[..n]);
      if blank(lines[n]) then before
      else if n > 0 && !blank(lines[n - 1]) then before[..|before| - 1] + [before[|before| - 1] + [lines[n]]]
      else before + [[lines[n]]]
  }

  lemma GroupsSnoc(blank: string -> bool, lines: seq<string>, line: string)
    ensures var before := Groups(blank, lines);
      if blank(line) then Groups(blank, lines + [line]) == before
      else if lines != [] && !blank(lines[|lines| - 1]) then
        before != [] && Groups(blank, lines + [line]) == before[..|before| - 1] + [before[|before| - 1] + [line]]
      else Groups(blank, lines + [line]) == before + [[line]]
  {
    assert (lines + [line])[..|lines|] == lines;
  }

  /** Lines without a blank one are one row. */
  lemma {:induction false} OneGroup(blank: string -> bool, lines: seq<string>)
    requires lines != [] && forall i :: 0 <= i < |lines| ==> !blank(lines[i])
    ensures Groups(blank, lines) == [lines]
  {
    var front, last := lines[..|lines| - 1], lines[|lines| - 1];
    assert lines == front + [last];
    GroupsSnoc(blank, front, last);
    if front != [] { OneGroup(blank, front); }
  }

  /** The rows after one more line: nothing more, a longer last row, or a new one. */
  function Continued(groups: seq<seq<string>>, blank: bool, open: bool, line: string): (more: seq<seq<string>>)
    requires open ==> groups != []
  {
    if blank then groups
    else if open then groups[..|groups| - 1] + [groups[|groups| - 1] + [line]]
    else groups + [[line]]
  }

  lemma ContinuedAfter(a: seq<seq<string>>, b: seq<seq<string>>, blank: bool, open: bool, line: string)
    requires open ==> b != []
    ensures Continued(a + b, blank, open, line) == a + Continued(b, blank, open, line)
  {
  }

  predicate EndsOpen(blank: string -> bool, lines: seq<string>) {
    lines != [] && !blank(lines[|lines| - 1])
  }

  lemma GroupsContinue(blank: string -> bool, lines: seq<string>, line: string)
    ensures EndsOpen(blank, lines) ==> Groups(blank, lines) != []
    ensures Groups(blank, lines + [line]) == Continued(Groups(blank, lines), blank(line), EndsOpen(blank, lines), line)
  {
    GroupsSnoc(blank, lines, line);
  }

  /** A blank line separates rows, and belongs to none. */
  lemma {:induction false} BlankSeparates(blank: string -> bool, a: seq<string>, line: string, b: seq<string>)
    requires blank(line)
    ensures Groups(blank, a + [line] + b) == Groups(blank, a) + Groups(blank, b)
  {
    if b == [] {
      GroupsContinue(blank, a, line);
      assert a + [line] + b == a + [line] && Groups(blank, a) + [] == Groups(blank, a);
    } else {
      var front, last := b[..|b| - 1], b[|b| - 1];
      var before := a + [line] + front;
      BlankSeparates(blank, a, line, front);
      GroupsContinue(blank, before, last);
      GroupsContinue(blank, front, last);
      assert a + [line] + b == before + [last] && b == front + [last];
      assert EndsOpen(blank, before) == EndsOpen(blank, front);
      ContinuedAfter(Groups(blank, a), Groups(blank, front), blank(last), EndsOpen(blank, front), last);
    }
  }

  lemma LastGroupGrows(groups: seq<seq<string>>, last: seq<string>, line: string)
    ensures var all := groups + [last]; all[..|all| - 1] + [all[|all| - 1] + [line]] == groups + [last + [line]]
  {
  }

  function Closed(rows: seq<seq<string>>, current: seq<string>): (r: seq<seq<string>>) {
    if current == [] then rows else rows + [current]
  }

  /** One more line: it closes the current row, begins one, or continues it. */
  lemma GroupGrows(blank: string -> bool, before: seq<string>, line: string, rows: seq<seq<string>>, current: seq<string>)
    requires current != [] <==> before != [] && !blank(before[|before| - 1])
    requires Groups(blank, before) == Closed(rows, current)
    ensures Groups(blank, before + [line]) == if blank(line) then Closed(rows, current) else rows + [current + [line]]
  {
    GroupsSnoc(blank, before, line);
    if blank(line) {
    } else if current != [] {
      LastGroupGrows(rows, current, line);
    } else {
      assert current + [line] == [line];
    }
  }

  lemma NextGroup(blank: string -> bool, lines: seq<string>, i: nat, rows: seq<seq<string>>, current: seq<string>)
    requires i < |lines| && (current != [] <==> i > 0 && !blank(lines[i - 1]))
    requires Groups(blank, lines[..i]) == Closed(rows, current)
    ensures Groups(blank, lines[..i + 1]) == if blank(lines[i]) then Closed(rows, current) else rows + [current + [lines[i]]]
  {
    var before, line := lines[..i], lines[i];
    assert lines[..i + 1] == before + [line];
    assert i > 0 ==> before[|before| - 1] == lines[i - 1];
    GroupGrows(blank, before, line, rows, current);
  }

  method GroupRows(blank: string -> bool, lines: seq<string>) returns (rows: seq<seq<string>>)
    ensures rows == Groups(blank, lines)
  {
    rows := [];
    var current: seq<string> := [];
    for i := 0 to |lines|
      invariant current != [] <==> i > 0 && !blank(lines[i - 1])
      invariant Groups(blank, lines[..i]) == Closed(rows, current)
    {
      NextGroup(blank, lines, i, rows, current);
      if blank(lines[i]) {
        if current != [] {
          rows := rows + [current];
          current := [];
        }
      } else {
        current := current + [lines[i]];
      }
    }
    assert lines[..|lines|] == lines;
    if current != [] {
      rows := rows + [current];
    }
  }

  // ---------------------------------------------------------------- the closing boundary

  /** The last boundary from one line on and before another. */
  function LastBoundary(boundary: string -> bool, lines: seq<string>, from: nat, limit: nat): (i: Option<nat>)
    requires from <= limit <= |lines|
    ensures i.Some? ==> from <= i.value < limit
    decreases limit
  {
    if from == limit then None
    else if boundary(lines[limit - 1]) then Some(limit - 1)
    else LastBoundary(boundary, lines, from, limit - 1)
  }

  lemma {:induction false} LastBoundaryFacts(boundary: string -> bool, lines: seq<string>, from: nat, limit: nat)
    requires from <= limit <= |lines|
    ensures var i := LastBoundary(boundary, lines, from, limit);
      && (i.Some? ==> boundary(lines[i.value]))
      && (forall j :: from <= j < limit && boundary(lines[j]) ==> i.Some? && j <= i.value)
    decreases limit
  {
    if from < limit && !boundary(lines[limit - 1]) { LastBoundaryFacts(boundary, lines, from, limit - 1); }
  }

  lemma {:induction false} LastBoundaryIs(boundary: string -> bool, lines: seq<string>, from: nat, limit: nat, i: nat)
    requires from <= i < limit <= |lines| && boundary(lines[i])
    requires forall j :: i < j < limit ==> !boundary(lines[j])
    ensures LastBoundary(boundary, lines, from, limit) == Some(i)
    decreases limit
  {
    if i < limit - 1 { LastBoundaryIs(boundary, lines, from, limit - 1, i); }
  }

  /** The last boundary of the section under the heading. */
  function Closing(heading: string -> bool, boundary: string -> bool, lines: seq<string>, from: nat): (i: Option<nat>)
    requires from < |lines|
    ensures i.Some? ==> from < i.value < |lines|
  {
    LastBoundary(boundary, lines, from + 1, FirstFrom(lines, from + 1, heading))
  }

  method FindClosing(heading: string -> bool, boundary: string -> bool, lines: seq<string>, from: nat)
    returns (closing: Option<nat>)
    requires from < |lines|
    ensures closing == Closing(heading, boundary, lines, from)
  {
    closing := None;
    var i := from + 1;
    while i < |lines| && !heading(lines[i])
      invariant from < i <= |lines|
      invariant forall j :: from < j < i ==> !heading(lines[j])
      invariant closing == LastBoundary(boundary, lines, from + 1, i)
    {
      if boundary(lines[i]) { closing := Some(i); }
      i := i + 1;
    }
    FirstIs(lines, from + 1, heading, i);
  }

  /** Between the heading and the end of the data there is no other heading. */
  lemma NoHeadingInTable(f: Format, lines: seq<string>, l: Layout)
    requires IsAt(f, lines, l) && l.end < |lines| && !f.heading(lines[l.end])
    requires forall s :: f.heading(s) ==> f.start(s) && f.end(s)
    ensures l.end < FirstFrom(lines, l.heading + 1, f.heading)
  {
    FirstFacts(lines, l.heading + 1, f.start);
    FirstFacts(lines, l.separator + 1, f.end);
    forall j | l.heading < j <= l.end ensures !f.heading(lines[j]) {
      assert j < l.separator ==> !f.start(lines[j]);
      assert l.separator < j < l.end ==> !f.end(lines[j]);
    }
    FirstFacts(lines, l.heading + 1, f.heading);
  }

  /** When the data ends at a boundary, the last boundary of the section is there or further down. */
  lemma ClosingIsNotAbove(f: Format, boundary: string -> bool, lines: seq<string>, l: Layout) returns (c: nat)
    requires IsAt(f, lines, l) && l.end < |lines| && boundary(lines[l.end]) && !f.heading(lines[l.end])
    requires forall s :: f.heading(s) ==> f.start(s) && f.end(s)
    ensures Closing(f.heading, boundary, lines, l.heading) == Some(c) && l.end <= c < |lines|
  {
    NoHeadingInTable(f, lines, l);
    var limit := FirstFrom(lines, l.heading + 1, f.heading);
    LastBoundaryFacts(boundary, lines, l.heading + 1, limit);
    c := LastBoundary(boundary, lines, l.heading + 1, limit).value;
  }

  // ---------------------------------------------------------------- a row put in

  /** The lines with a blank one and a row's lines put in before the c-th. */
  function WithRow(lines: seq<string>, c: nat, row: seq<string>): (all: seq<string>)
    requires c <= |lines|
    ensures |all| == |lines| + 1 + |row|
  {
    lines[..c] + ([""] + row) + lines[c..]
  }

  /** A line of a row: of no kind that the scans look for. */
  predicate IsData(f: Format, line: string) {
    !f.blank(line) && !f.end(line) && !f.heading(line)
  }

  ghost predicate AreData(f: Format, row: seq<string>) {
    forall i :: 0 <= i < |row| ==> IsData(f, row[i])
  }

  /** The empty line is blank, and nothing else. */
  predicate TakesEmptyAsBlank(f: Format) {
    f.blank("") && !f.end("") && !f.heading("")
  }

  lemma WithRowAt(lines: seq<string>, c: nat, row: seq<string>, j: nat)
    requires c <= |lines| && j < |lines| + 1 + |row|
    ensures WithRow(lines, c, row)[j]
         == if j < c then lines[j] else if j == c then "" else if j <= c + |row| then row[j - c - 1] else lines[j - 1 - |row|]
  {
  }

  /** A scan that ends before the insertion finds the same line after it. */
  lemma ScanBefore(lines: seq<string>, c: nat, row: seq<string>, from: nat, p: string -> bool, i: nat)
    requires from <= c <= |lines| && i == FirstFrom(lines, from, p) < c
    ensures FirstFrom(WithRow(lines, c, row), from, p) == i
  {
    var all := WithRow(lines, c, row);
    FirstFacts(lines, from, p);
    forall j | from <= j <= i ensures all[j] == lines[j] { WithRowAt(lines, c, row, j); }
    FirstIs(all, from, p, i);
  }

  /** A scan that passes the insertion point finds the line it found, moved down. */
  lemma ScanPast(lines: seq<string>, c: nat, row: seq<string>, from: nat, p: string -> bool, i: nat)
    requires from <= c < |lines| && i == FirstFrom(lines, from, p) && c <= i
    requires !p("") && forall k :: 0 <= k < |row| ==> !p(row[k])
    ensures FirstFrom(WithRow(lines, c, row), from, p) == i + 1 + |row|
  {
    var all, moved := WithRow(lines, c, row), i + 1 + |row|;
    FirstFacts(lines, from, p);
    forall j | from <= j < moved ensures !p(all[j]) { WithRowAt(lines, c, row, j); }
    if i < |lines| { WithRowAt(lines, c, row, moved); }
    FirstIs(all, from, p, moved);
  }

  lemma {:induction false} HeaderBefore(blank: string -> bool, lines: seq<string>, c: nat, row: seq<string>, floor: nat, i: nat)
    requires floor <= i < c <= |lines|
    ensures LastWritten(blank, WithRow(lines, c, row), floor, i) == LastWritten(blank, lines, floor, i)
    decreases i
  {
    WithRowAt(lines, c, row, i);
    if i > floor && blank(lines[i]) { HeaderBefore(blank, lines, c, row, floor, i - 1); }
  }

  /** Inserted after the separator, a row leaves the table's beginning where it is. */
  lemma BeginningStays(f: Format, lines: seq<string>, c: nat, row: seq<string>, l: Layout, end: nat)
    requires IsAt(f, lines, l) && l.separator < c < |lines|
    requires l.separator < end == FirstFrom(WithRow(lines, c, row), l.separator + 1, f.end)
    ensures var all := WithRow(lines, c, row);
      IsAt(f, all, l.(end := end)) && all[l.header] == lines[l.header] && all[l.separator] == lines[l.separator]
  {
    ScanBefore(lines, c, row, 0, f.title, l.heading);
    ScanBefore(lines, c, row, l.heading + 1, f.start, l.separator);
    HeaderBefore(f.blank, lines, c, row, l.heading, l.separator - 1);
    WithRowAt(lines, c, row, l.header);
    WithRowAt(lines, c, row, l.separator);
  }

  /** The closing boundary moves down with what follows the insertion. */
  lemma ClosingMoves(f: Format, boundary: string -> bool, lines: seq<string>, heading: nat, c: nat, row: seq<string>)
    requires heading < |lines| && Closing(f.heading, boundary, lines, heading) == Some(c)
    requires AreData(f, row) && TakesEmptyAsBlank(f)
    ensures Closing(f.heading, boundary, WithRow(lines, c, row), heading) == Some(c + 1 + |row|)
  {
    var all, moved, limit := WithRow(lines, c, row), c + 1 + |row|, FirstFrom(lines, heading + 1, f.heading);
    LastBoundaryFacts(boundary, lines, heading + 1, limit);
    forall k | 0 <= k < |row| ensures !f.heading(row[k]) { assert IsData(f, row[k]); }
    ScanPast(lines, c, row, heading + 1, f.heading, limit);
    WithRowAt(lines, c, row, moved);
    forall j | moved < j < limit + 1 + |row| ensures !boundary(all[j]) { WithRowAt(lines, c, row, j); }
    LastBoundaryIs(boundary, all, heading + 1, limit + 1 + |row|, moved);
  }

  /** A document whose table the reader and the writer see alike: the data ends at the boundary that the
      writer inserts before. */
  ghost predicate EndsAtClosing(f: Format, boundary: string -> bool, lines: seq<string>, l: Layout) {
    IsAt(f, lines, l) && Closing(f.heading, boundary, lines, l.heading) == Some(l.end)
  }

  /** The insertion moves the end of the table down, and nothing else. */
  lemma RowMovesTheEnd(f: Format, boundary: string -> bool, lines: seq<string>, l: Layout, row: seq<string>)
    requires EndsAtClosing(f, boundary, lines, l) && AreData(f, row) && TakesEmptyAsBlank(f)
    ensures var all := WithRow(lines, l.end, row);
      && EndsAtClosing(f, boundary, all, l.(end := l.end + 1 + |row|))
      && all[l.header] == lines[l.header] && all[l.separator] == lines[l.separator]
  {
    forall k | 0 <= k < |row| ensures !f.end(row[k]) { assert IsData(f, row[k]); }
    ScanPast(lines, l.end, row, l.separator + 1, f.end, l.end);
    BeginningStays(f, lines, l.end, row, l, l.end + 1 + |row|);
    ClosingMoves(f, boundary, lines, l.heading, l.end, row);
  }

  // ---------------------------------------------------------------- the rows, after the insertion

  /** A line of data after a blank one begins a group. */
  lemma GroupBegins(blank: string -> bool, lines: seq<string>, line: string)
    requires blank("") && !blank(line)
    ensures Groups(blank, lines + [""] + [line]) == Groups(blank, lines) + [[line]]
  {
    GroupsSnoc(blank, lines, "");
    GroupsSnoc(blank, lines + [""], line);
  }

  /** A line of data after another continues its group. */
  lemma GroupContinues(blank: string -> bool, lines: seq<string>, line: string, groups: seq<seq<string>>, last: seq<string>)
    requires !blank(line) && lines != [] && !blank(lines[|lines| - 1]) && Groups(blank, lines) == groups + [last]
    ensures Groups(blank, lines + [line]) == groups + [last + [line]]
  {
    GroupsSnoc(blank, lines, line);
    LastGroupGrows(groups, last, line);
  }

  lemma SplitLast(lines: seq<string>, row: seq<string>, n: nat)
    requires n + 1 == |row|
    ensures lines + [""] + row == lines + [""] + row[..n] + [row[n]] && row == row[..n] + [row[n]]
    ensures n > 0 ==> (lines + [""] + row[..n])[|lines| + n] == row[n - 1]
  {
  }

  /** Lines of data after a blank line are one more group. */
  lemma {:induction false} GroupsThen(blank: string -> bool, lines: seq<string>, row: seq<string>)
    requires row != [] && blank("") && forall k :: 0 <= k < |row| ==> !blank(row[k])
    ensures Groups(blank, lines + [""] + row) == Groups(blank, lines) + [row]
  {
    var n := |row| - 1;
    if n == 0 {
      GroupBegins(blank, lines, row[0]);
      assert row == [row[0]];
    } else {
      GroupsThen(blank, lines, row[..n]);
      SplitLast(lines, row, n);
      GroupContinues(blank, lines + [""] + row[..n], row[n], Groups(blank, lines), row[..n]);
    }
  }

  lemma DataWithRow(lines: seq<string>, c: nat, row: seq<string>, from: nat)
    requires from <= c < |lines|
    ensures WithRow(lines, c, row)[from..c + 1 + |row|] == lines[from..c] + [""] + row
  {
  }

  /** The lines of the table's rows. */
  function Data(f: Format, lines: seq<string>, l: Layout): (r: seq<seq<string>>)
    requires IsLaidOut(l, |lines|)
  {
    Groups(f.blank, lines[l.separator + 1..l.end])
  }

  /** The inserted row is one more, after the old ones. */
  lemma RowComesLast(f: Format, lines: seq<string>, l: Layout, row: seq<string>)
    requires IsLaidOut(l, |lines|) && l.end < |lines| && row != [] && AreData(f, row) && TakesEmptyAsBlank(f)
    ensures Data(f, WithRow(lines, l.end, row), l.(end := l.end + 1 + |row|)) == Data(f, lines, l) + [row]
  {
    var data := lines[l.separator + 1..l.end];
    assert WithRow(lines, l.end, row)[l.separator + 1..l.end + 1 + |row|] == data + [""] + row by {
      DataWithRow(lines, l.end, row, l.separator + 1);
    }
    NoBlankRow(f, row);
    GroupsThen(f.blank, data, row);
  }

  lemma NoBlankRow(f: Format, row: seq<string>)
    requires AreData(f, row)
    ensures forall k :: 0 <= k < |row| ==> !f.blank(row[k])
  {
    forall k | 0 <= k < |row| ensures !f.blank(row[k]) { assert IsData(f, row[k]); }
  }

  /** A row inserted behind the end of the table's data leaves the data as it was. */
  lemma RowBehindTheEnd(f: Format, lines: seq<string>, l: Layout, c: nat, row: seq<string>)
    requires IsAt(f, lines, l) && l.end < c < |lines|
    ensures var all := WithRow(lines, c, row);
      && IsAt(f, all, l) && Data(f, all, l) == Data(f, lines, l)
      && all[l.header] == lines[l.header] && all[l.separator] == lines[l.separator]
  {
    ScanBefore(lines, c, row, l.separator + 1, f.end, l.end);
    BeginningStays(f, lines, c, row, l, l.end);
    assert WithRow(lines, c, row)[l.separator + 1..l.end] == lines[l.separator + 1..l.end];
  }

  // ---------------------------------------------------------------- a document with an empty table

  /** Eight lines: heading, blank, boundary, column names, separator, boundary, blank, and one more. */
  ghost predicate IsEmptyTable(f: Format, lines: seq<string>) {
    && |lines| == 8 && f.title(lines[0])
    && !f.start(lines[1]) && !f.start(lines[2]) && !f.start(lines[3]) && f.start(lines[4]) && !f.heading(lines[4])
    && !f.blank(lines[3]) && f.end(lines[5])
  }

  lemma EmptyTableIsAt(f: Format, lines: seq<string>)
    requires IsEmptyTable(f, lines)
    ensures IsAt(f, lines, Layout(0, 4, 3, 5))
  {
    FirstIs(lines, 0, f.title, 0);
    FirstIs(lines, 1, f.start, 4);
    FirstIs(lines, 5, f.end, 5);
  }

  /** The closing boundary is the table's, or the line at the end of the document. */
  lemma EmptyTableClosing(heading: string -> bool, boundary: string -> bool, lines: seq<string>)
    requires |lines| == 8 && (forall j :: 1 <= j < 8 ==> !heading(lines[j])) && boundary(lines[5]) && !boundary(lines[6])
    ensures Closing(heading, boundary, lines, 0) == if boundary(lines[7]) then Some(7) else Some(5)
  {
    FirstIs(lines, 1, heading, 8);
    LastBoundaryIs(boundary, lines, 1, 8, if boundary(lines[7]) then 7 else 5);
  }
}
