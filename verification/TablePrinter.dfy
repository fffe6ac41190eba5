/** The printer of fixed-width table rows: every cell wrapped in its column, the columns side by side. */
module TablePrinter {
  import opened Text
  import opened TextWrap

  const INDENT: string := "  "

  /** The widths of the log tables: id, date, status, title, and outcome or impact. */
  const ROW_WIDTHS: seq<nat> := [9, 12, 13, 15, 26]

  predicate AreWidths(widths: seq<nat>) {
    widths != [] && forall k :: 0 <= k < |widths| ==> widths[k] > 0
  }

  function Spaces(n: nat): (r: string) {
    if n == 0 then "" else Spaces(n - 1) + " "
  }

  /** str.ljust. */
  function LJust(s: string, width: nat): (r: string) {
    if |s| < width then s + Spaces(width - |s|) else s
  }

  function RStrip(s: string): (r: string) {
    TrimRight(s, IsSpace)
  }

  // ---------------------------------------------------------------- what a row looks like

  /** Each cell's wrapped lines. */
  function Columns(breaks: Breaks, cells: seq<string>, widths: seq<nat>): (cols: seq<seq<string>>)
    requires |cells| == |widths| && AreWidths(widths)
    ensures |cols| == |cells|
    ensures forall k :: 0 <= k < |cells| ==> cols[k] == WrapCell(breaks, cells[k], widths[k])
  {
    seq(|cells|, k requires 0 <= k < |cells| => WrapCell(breaks, cells[k], widths[k]))
  }

  /** The number of lines of the longest column. */
  function Height(cols: seq<seq<string>>): (h: nat)
    ensures forall k :: 0 <= k < |cols| ==> |cols[k]| <= h
    ensures cols != [] ==> exists k :: 0 <= k < |cols| && |cols[k]| == h
  {
    if cols == [] then 0
    else
      var before := Height(cols[..|cols| - 1]);
      if before < |cols[|cols| - 1]| || |cols| == 1 then |cols[|cols| - 1]| else before
  }

  /** A column's i-th line; nothing below its last. */
  function Piece(col: seq<string>, i: nat): (r: string) {
    if i < |col| then col[i] else ""
  }

  /** The i-th line of the row up to its k-th column. */
  function Leading(cols: seq<seq<string>>, widths: seq<nat>, i: nat, k: nat): (r: string)
    requires k <= |cols| == |widths|
  {
    if k == 0 then INDENT else Leading(cols, widths, i, k - 1) + LJust(Piece(cols[k - 1], i), widths[k - 1]) + " "
  }

  function RowLine(cols: seq<seq<string>>, widths: seq<nat>, i: nat): (r: string)
    requires |cols| == |widths| > 0
  {
    var last := |cols| - 1;
    Leading(cols, widths, i, last) + RStrip(LJust(Piece(cols[last], i), widths[last]))
  }

  function LinesUpTo(cols: seq<seq<string>>, widths: seq<nat>, n: nat): (r: seq<string>)
    requires |cols| == |widths| > 0
  {
    if n == 0 then [] else LinesUpTo(cols, widths, n - 1) + [RowLine(cols, widths, n - 1)]
  }

  /** A row of cells, line by line. */
  function RowLines(breaks: Breaks, cells: seq<string>, widths: seq<nat>): (r: seq<string>)
    requires |cells| == |widths| && AreWidths(widths)
  {
    LinesUpTo(Columns(breaks, cells, widths), widths, Height(Columns(breaks, cells, widths)))
  }

  ghost predicate AreLinesOf(lines: seq<string>, cols: seq<seq<string>>, widths: seq<nat>)
    requires |cols| == |widths| > 0
  {
    forall i :: 0 <= i < |lines| ==> IsLineOf(lines[i], cols, widths, i)
  }

  predicate IsLineOf(line: string, cols: seq<seq<string>>, widths: seq<nat>, i: nat)
    requires |cols| == |widths| > 0
  {
    line == RowLine(cols, widths, i)
  }

  lemma {:induction false} LinesInOrder(cols: seq<seq<string>>, widths: seq<nat>, n: nat, lines: seq<string>)
    requires |cols| == |widths| > 0 && lines == LinesUpTo(cols, widths, n)
    ensures |lines| == n && AreLinesOf(lines, cols, widths)
    decreases n
  {
    if n > 0 {
      var before, line := LinesUpTo(cols, widths, n - 1), RowLine(cols, widths, n - 1);
      LinesInOrder(cols, widths, n - 1, before);
      LinesSnoc(before, line, cols, widths);
    }
  }

  lemma LinesSnoc(lines: seq<string>, line: string, cols: seq<seq<string>>, widths: seq<nat>)
    requires |cols| == |widths| > 0 && AreLinesOf(lines, cols, widths) && IsLineOf(line, cols, widths, |lines|)
    ensures AreLinesOf(lines + [line], cols, widths)
  {
  }

  // ---------------------------------------------------------------- the printer

  method Pad(lines: seq<string>, width: nat, height: nat) returns (padded: seq<string>)
    requires |lines| <= height
    ensures |padded| == height
    ensures forall i :: 0 <= i < height ==> padded[i] == LJust(Piece(lines, i), width)
  {
    padded := [];
    for n := 0 to |lines|
      invariant |padded| == n
      invariant forall i :: 0 <= i < n ==> padded[i] == LJust(Piece(lines, i), width)
    {
      padded := padded + [LJust(lines[n], width)];
    }
    while |padded| < height
      invariant |lines| <= |padded| <= height
      invariant forall i :: 0 <= i < |padded| ==> padded[i] == LJust(Piece(lines, i), width)
    {
      assert "" + Spaces(width) == Spaces(width);
      padded := padded + [Spaces(width)];
    }
  }

  /** The padded columns show the cells' pieces. */
  ghost predicate ArePadded(padded: seq<seq<string>>, cols: seq<seq<string>>, widths: seq<nat>, height: nat) {
    && |padded| <= |cols| == |widths|
    && forall k :: 0 <= k < |padded| ==> IsPadded(padded[k], cols[k], widths[k], height)
  }

  ghost predicate IsPadded(column: seq<string>, col: seq<string>, width: nat, height: nat) {
    |column| == height && forall i :: 0 <= i < height ==> column[i] == LJust(Piece(col, i), width)
  }

  method PadColumns(cols: seq<seq<string>>, widths: seq<nat>, height: nat) returns (padded: seq<seq<string>>)
    requires |cols| == |widths| && forall k :: 0 <= k < |cols| ==> |cols[k]| <= height
    ensures |padded| == |cols| && ArePadded(padded, cols, widths, height)
  {
    padded := [];
    for k := 0 to |cols|
      invariant |padded| == k && ArePadded(padded, cols, widths, height)
    {
      var column := Pad(cols[k], widths[k], height);
      padded := padded + [column];
    }
  }

  method FormatLine(padded: seq<seq<string>>, i: nat, ghost cols: seq<seq<string>>, ghost widths: seq<nat>, ghost height: nat)
    returns (line: string)
    requires |padded| == |cols| > 0 && ArePadded(padded, cols, widths, height) && i < height
    ensures line == RowLine(cols, widths, i)
  {
    line := INDENT;
    for k := 0 to |padded| - 1
      invariant line == Leading(cols, widths, i, k)
    {
      assert IsPadded(padded[k], cols[k], widths[k], height);
      line := line + padded[k][i] + " ";
    }
    assert IsPadded(padded[|padded| - 1], cols[|padded| - 1], widths[|padded| - 1], height);
    line := line + RStrip(padded[|padded| - 1][i]);
  }

  method FormatLines(breaks: Breaks, cells: seq<string>, widths: seq<nat>) returns (lines: seq<string>)
    requires |cells| == |widths| && AreWidths(widths)
    ensures lines == RowLines(breaks, cells, widths)
  {
    var cols := Columns(breaks, cells, widths);
    var height := Height(cols);
    var padded := PadColumns(cols, widths, height);
    lines := [];
    for i := 0 to height
      invariant lines == LinesUpTo(cols, widths, i)
    {
      var line := FormatLine(padded, i, cols, widths, height);
      lines := lines + [line];
    }
  }

  /** A row's text. */
  method FormatRow(breaks: Breaks, cells: seq<string>, widths: seq<nat>) returns (row: string)
    requires |cells| == |widths| && AreWidths(widths)
    ensures row == Join(RowLines(breaks, cells, widths), '\n')
  {
    var lines := FormatLines(breaks, cells, widths);
    row := Join(lines, '\n');
  }

  // ---------------------------------------------------------------- columns by position

  /** Where the k-th column begins. */
  function Start(widths: seq<nat>, k: nat): (n: nat)
    requires k <= |widths|
  {
    if k == 0 then |INDENT| else Start(widths, k - 1) + widths[k - 1] + 1
  }

  /** From where to where the k-th column goes. */
  function Bound(widths: seq<nat>, k: nat): (nat, nat)
    requires k < |widths|
  {
    (Start(widths, k), Start(widths, k) + widths[k])
  }

  function Bounds(widths: seq<nat>): (bounds: seq<(nat, nat)>)
    ensures |bounds| == |widths|
    ensures forall k :: 0 <= k < |widths| ==> bounds[k] == Bound(widths, k)
  {
    seq(|widths|, k requires 0 <= k < |widths| => Bound(widths, k))
  }

  /** The part of a line between two positions, as far as the line goes. */
  function Slice(line: string, from: nat, to: nat): (r: string)
    requires from <= to
  {
    if from < |line| then line[from..if to < |line| then to else |line|] else ""
  }

  ghost predicate PiecesFit(cols: seq<seq<string>>, widths: seq<nat>) {
    |cols| == |widths| && forall k :: 0 <= k < |cols| ==> LinesFit(cols[k], widths[k])
  }

  lemma ColumnsFit(breaks: Breaks, cells: seq<string>, widths: seq<nat>)
    requires |cells| == |widths| && AreWidths(widths)
    ensures PiecesFit(Columns(breaks, cells, widths), widths)
  {
    forall k | 0 <= k < |cells| ensures LinesFit(Columns(breaks, cells, widths)[k], widths[k]) {
      CellFits(breaks, cells[k], widths[k]);
    }
  }

  lemma LJustLength(s: string, width: nat)
    requires |s| <= width
    ensures |LJust(s, width)| == width
  {
    SpacesAre(width - |s|);
  }

  lemma {:induction false} LeadingLength(cols: seq<seq<string>>, widths: seq<nat>, i: nat, k: nat)
    requires PiecesFit(cols, widths) && k <= |cols|
    ensures |Leading(cols, widths, i, k)| == Start(widths, k)
  {
    if k > 0 {
      LeadingLength(cols, widths, i, k - 1);
      LJustLength(Piece(cols[k - 1], i), widths[k - 1]);
    }
  }

  /** A line before its last column begins with all its columns up to there. */
  lemma {:induction false} LeadingIsPrefix(cols: seq<seq<string>>, widths: seq<nat>, i: nat, j: nat, k: nat)
    requires |cols| == |widths| && j <= k <= |cols|
    ensures Leading(cols, widths, i, j) <= Leading(cols, widths, i, k)
  {
    if j < k { LeadingIsPrefix(cols, widths, i, j, k - 1); }
  }

  lemma {:induction false} RightEndOfPrefix(s: string, t: string, n: nat)
    requires n <= |s| && n <= |t| && forall i :: 0 <= i < n ==> s[i] == t[i]
    ensures RightEnd(s, IsSpace, n) == RightEnd(t, IsSpace, n)
  {
    if n > 0 { RightEndOfPrefix(s, t, n - 1); }
  }

  lemma {:induction false} SpacesAre(n: nat)
    ensures |Spaces(n)| == n && forall i :: 0 <= i < n ==> Spaces(n)[i] == ' '
  {
    if n > 0 { SpacesAre(n - 1); }
  }

  lemma {:induction false} PaddingGoes(t: string, n: nat, k: nat)
    requires n + k <= |t| && forall i :: n <= i < n + k ==> t[i] == ' '
    ensures RightEnd(t, IsSpace, n + k) == RightEnd(t, IsSpace, n)
  {
    if k > 0 {
      assert t[n + k - 1] == ' ' && IsSpace(' ');
      PaddingGoes(t, n, k - 1);
    }
  }

  lemma TrimPadding(s: string, n: nat)
    ensures TrimRight(s + Spaces(n), IsSpace) == TrimRight(s, IsSpace)
  {
    var t := s + Spaces(n);
    SpacesAre(n);
    PaddingGoes(t, |s|, n);
    RightEndOfPrefix(s, t, |s|);
    var k := RightEnd(s, IsSpace, |s|);
    SpanIs(s, 0, k);
    SpanIs(t, 0, k);
    assert t[0..k] == s[0..k];
  }

  lemma StripPadding(s: string, n: nat)
    ensures Strip(s + Spaces(n)) == Strip(s)
  {
    TrimPadding(s, n);
  }

  lemma StripLJust(s: string, width: nat)
    ensures Strip(LJust(s, width)) == Strip(s)
  {
    if |s| < width { StripPadding(s, width - |s|); }
  }

  lemma RStripTwice(s: string)
    ensures RStrip(RStrip(s)) == RStrip(s) && |RStrip(s)| <= |s|
  {
    var k := RightEnd(s, IsSpace, |s|);
    SpanIs(s, 0, k);
    RightEndFacts(s, IsSpace, |s|);
    RightEndIs(RStrip(s), IsSpace, k, k);
    SpanIs(RStrip(s), 0, k);
    assert RStrip(s)[0..k] == RStrip(s);
  }

  lemma SliceOf(line: string, head: string, cell: string, from: nat, to: nat)
    requires head + cell <= line && from == |head| && to == |head| + |cell|
    ensures Slice(line, from, to) == cell
  {
    if from < |line| {
      assert line[from..to] == (head + cell)[from..to] == cell;
    }
  }

  lemma SliceToEnd(line: string, head: string, cell: string, from: nat, to: nat)
    requires line == head + cell && from == |head| && |head| + |cell| <= to
    ensures Slice(line, from, to) == cell
  {
  }

  lemma LeadingBeginsLine(cols: seq<seq<string>>, widths: seq<nat>, i: nat, last: nat, line: string)
    requires |cols| == |widths| == last + 1 && line == RowLine(cols, widths, i)
    ensures Leading(cols, widths, i, last) <= line
  {
  }

  lemma InnerCell(cols: seq<seq<string>>, widths: seq<nat>, i: nat, k: nat, line: string, head: string, cell: string)
    requires |cols| == |widths| && k + 1 < |cols| && line == RowLine(cols, widths, i)
    requires head == Leading(cols, widths, i, k) && cell == LJust(Piece(cols[k], i), widths[k])
    ensures head + cell <= line
  {
    var last := |cols| - 1;
    LeadingBeginsLine(cols, widths, i, last, line);
    LeadingIsPrefix(cols, widths, i, k + 1, last);
    var next, all := Leading(cols, widths, i, k + 1), Leading(cols, widths, i, last);
    assert head + cell <= next;
    PrefixTrans(head + cell, next, all, line);
  }

  lemma PrefixTrans(a: string, b: string, c: string, d: string)
    requires a <= b <= c <= d
    ensures a <= d
  {
  }

  lemma LastCell(cols: seq<seq<string>>, widths: seq<nat>, i: nat, k: nat, line: string, head: string, cell: string)
    requires |cols| == |widths| == k + 1 && line == RowLine(cols, widths, i)
    requires head == Leading(cols, widths, i, k) && cell == LJust(Piece(cols[k], i), widths[k])
    ensures line == head + RStrip(cell) && |RStrip(cell)| <= |cell|
  {
    RStripTwice(cell);
  }

  lemma SliceAt(cols: seq<seq<string>>, widths: seq<nat>, i: nat, k: nat, line: string, from: nat, to: nat, cell: string)
    requires PiecesFit(cols, widths) && k < |cols| && line == RowLine(cols, widths, i)
    requires from == Start(widths, k) && to == from + widths[k] && cell == LJust(Piece(cols[k], i), widths[k])
    ensures Slice(line, from, to) == cell || Slice(line, from, to) == RStrip(cell)
  {
    var head := Leading(cols, widths, i, k);
    LeadingLength(cols, widths, i, k);
    LJustLength(Piece(cols[k], i), widths[k]);
    if k + 1 < |cols| {
      InnerCell(cols, widths, i, k, line, head, cell);
      SliceOf(line, head, cell, from, to);
    } else {
      LastCell(cols, widths, i, k, line, head, cell);
      SliceToEnd(line, head, RStrip(cell), from, to);
    }
  }

  lemma StripCell(slice: string, piece: string, width: nat)
    requires slice == LJust(piece, width) || slice == RStrip(LJust(piece, width))
    ensures Strip(slice) == Strip(piece)
  {
    StripLJust(piece, width);
    RStripTwice(LJust(piece, width));
  }

  /** Cutting a row's line at a column's position gives that column's piece, but for spaces around it. */
  lemma SliceGivesPiece(cols: seq<seq<string>>, widths: seq<nat>, i: nat, k: nat, line: string, from: nat, to: nat, piece: string)
    requires PiecesFit(cols, widths) && k < |cols| && line == RowLine(cols, widths, i)
    requires from == Start(widths, k) && to == from + widths[k] && piece == Piece(cols[k], i)
    ensures Strip(Slice(line, from, to)) == Strip(piece)
  {
    SliceAt(cols, widths, i, k, line, from, to, LJust(piece, widths[k]));
    StripCell(Slice(line, from, to), piece, widths[k]);
  }
}
