/** One printed row, read back by the parser. */
module TableRow {
  import opened Text
  import opened TextWrap
  import opened WrapReading
  import opened TablePrinter
  import opened TableParser
  import opened LineWords

  // ---------------------------------------------------------------- cells come back

  function Least(a: nat, b: nat): (r: nat) {
    if a < b then a else b
  }

  lemma PartsOfLine(lines: seq<string>, from: nat, to: nat, col: seq<string>, n: nat)
    requires n == |lines| - 1 && from <= to && Strip(Slice(lines[n], from, to)) == Strip(Piece(col, n))
    requires CellParts(lines[..n], from, to) == Texts(col[..Least(n, |col|)])
    ensures CellParts(lines, from, to) == Texts(col[..Least(n + 1, |col|)])
  {
    assert lines[..n + 1] == lines;
    PartsStep(lines, n, from, to, Strip(Slice(lines[n], from, to)));
    TextsOfPieces(col, n);
  }

  /** Cut between two positions, a line shows a piece of text. */
  predicate Shows(line: string, from: nat, to: nat, piece: string)
    requires from <= to
  {
    Strip(Slice(line, from, to)) == Strip(piece)
  }

  /** Line by line, the column between two positions shows the pieces of one cell. */
  ghost predicate ShowsColumn(lines: seq<string>, from: nat, to: nat, col: seq<string>)
    requires from <= to
  {
    forall i :: 0 <= i < |lines| ==> Shows(lines[i], from, to, Piece(col, i))
  }

  lemma NoParts(from: nat, to: nat, col: seq<string>)
    requires from <= to
    ensures CellParts([], from, to) == Texts(col[..0])
  {
  }

  lemma {:induction false} PartsOfColumn(lines: seq<string>, from: nat, to: nat, col: seq<string>)
    requires from <= to && ShowsColumn(lines, from, to, col)
    ensures CellParts(lines, from, to) == Texts(col[..Least(|lines|, |col|)])
  {
    if |lines| == 0 {
      NoParts(from, to, col);
    } else {
      var n := |lines| - 1;
      PartsOfColumn(lines[..n], from, to, col);
      assert Shows(lines[n], from, to, Piece(col, n));
      PartsOfLine(lines, from, to, col, n);
    }
  }

  lemma LineShows(cols: seq<seq<string>>, widths: seq<nat>, i: nat, k: nat, line: string, from: nat, to: nat)
    requires PiecesFit(cols, widths) && k < |cols| && IsLineOf(line, cols, widths, i)
    requires from == Start(widths, k) && to == from + widths[k]
    ensures Shows(line, from, to, Piece(cols[k], i))
  {
    SliceGivesPiece(cols, widths, i, k, line, from, to, Piece(cols[k], i));
  }

  lemma RowShowsColumn(lines: seq<string>, cols: seq<seq<string>>, widths: seq<nat>, k: nat, from: nat, to: nat)
    requires PiecesFit(cols, widths) && k < |cols| && AreLinesOf(lines, cols, widths)
    requires from == Start(widths, k) && to == from + widths[k]
    ensures ShowsColumn(lines, from, to, cols[k])
  {
    forall i | 0 <= i < |lines| ensures Shows(lines[i], from, to, Piece(cols[k], i)) {
      LineShows(cols, widths, i, k, lines[i], from, to);
    }
  }

  lemma TextsOfPieces(col: seq<string>, n: nat)
    ensures var before, text := Texts(col[..Least(n, |col|)]), Strip(Piece(col, n));
      Texts(col[..Least(n + 1, |col|)]) == if text == "" then before else before + [text]
  {
    if n < |col| {
      assert col[..n + 1] == col[..n] + [col[n]];
      TextsSnoc(col[..n], col[n]);
    }
  }

  /** What reading a row back gives in each column. */
  lemma CellRead(breaks: Breaks, cells: seq<string>, widths: seq<nat>, k: nat, lines: seq<string>, from: nat, to: nat)
    requires |cells| == |widths| && AreWidths(widths) && k < |cells| && lines == RowLines(breaks, cells, widths)
    requires from == Start(widths, k) && to == from + widths[k]
    ensures CellText(lines, from, to) == ReadBack(WrapCell(breaks, cells[k], widths[k]))
  {
    var cols := Columns(breaks, cells, widths);
    var col := cols[k];
    ColumnsFit(breaks, cells, widths);
    LinesInOrder(cols, widths, Height(cols), lines);
    RowShowsColumn(lines, cols, widths, k, from, to);
    PartsOfColumn(lines, from, to, col);
    assert Least(|lines|, |col|) == |col| && col[..|col|] == col;
  }

  // ---------------------------------------------------------------- rows of words

  /** The cells of a row of single-spaced words. */
  function Cells(row: seq<seq<string>>): (cells: seq<string>)
    ensures |cells| == |row| && forall k :: 0 <= k < |row| ==> cells[k] == Sentence(row[k])
  {
    seq(|row|, k requires 0 <= k < |row| => Sentence(row[k]))
  }

  ghost predicate AreRowWords(row: seq<seq<string>>) {
    forall k :: 0 <= k < |row| ==> AreWords(row[k])
  }

  /** Wrapping splits none of the row's words. */
  ghost predicate IsUnsplit(breaks: Breaks, row: seq<seq<string>>, widths: seq<nat>)
    requires |row| == |widths|
  {
    forall k :: 0 <= k < |row| ==> SplitsNoWord(breaks, row[k], widths[k])
  }

  /** The cells read back from a printed row. */
  function RowRead(breaks: Breaks, row: seq<seq<string>>, widths: seq<nat>): (r: seq<string>)
    requires |row| == |widths| && AreWidths(widths)
  {
    CellTexts(RowLines(breaks, Cells(row), widths), Bounds(widths))
  }

  lemma CellComesBack(breaks: Breaks, row: seq<seq<string>>, widths: seq<nat>, k: nat, lines: seq<string>, from: nat, to: nat, ws: seq<string>)
    requires |row| == |widths| && AreWidths(widths) && AreWords(ws) && k < |row| && ws == row[k]
    requires lines == RowLines(breaks, Cells(row), widths) && from == Start(widths, k) && to == from + widths[k]
    ensures CellText(lines, from, to) == Sentence(ws) <==> SplitsNoWord(breaks, ws, widths[k])
  {
    CellRead(breaks, Cells(row), widths, k, lines, from, to);
    CellRoundTrip(breaks, ws, widths[k]);
  }

  /** A printed row comes back cell for cell exactly when wrapping splits none of its words. */
  lemma RowRoundTrip(breaks: Breaks, row: seq<seq<string>>, widths: seq<nat>)
    requires |row| == |widths| && AreWidths(widths) && AreRowWords(row)
    ensures RowRead(breaks, row, widths) == Cells(row) <==> IsUnsplit(breaks, row, widths)
  {
    var read, cells, lines, bounds := RowRead(breaks, row, widths), Cells(row), RowLines(breaks, Cells(row), widths), Bounds(widths);
    assert |read| == |row|;
    forall k | 0 <= k < |row| ensures read[k] == cells[k] <==> SplitsNoWord(breaks, row[k], widths[k]) {
      assert AreWords(row[k]);
      CellComesBack(breaks, row, widths, k, lines, bounds[k].0, bounds[k].1, row[k]);
    }
  }

  // ---------------------------------------------------------------- the row's lines are data

  ghost predicate RowIsHarmless(row: seq<seq<string>>) {
    forall k :: 0 <= k < |row| ==> AreHarmless(row[k])
  }

  /** The words of a row that the table can hold: not split, and taken for no mark; not all cells are empty. */
  ghost predicate InDomain(breaks: Breaks, row: seq<seq<string>>, widths: seq<nat>) {
    && |row| == |widths| && AreWidths(widths) && AreRowWords(row) && IsUnsplit(breaks, row, widths) && RowIsHarmless(row)
    && exists k :: 0 <= k < |row| && row[k] != []
  }

  lemma {:induction false} SpacesAreBlank(n: nat)
    ensures IsBlank(Spaces(n))
  {
    if n > 0 {
      SpacesAreBlank(n - 1);
      assert IsSpace(' ');
    }
  }

  /** Padding keeps a piece's words. */
  lemma PaddedWords(piece: string, width: nat)
    ensures Words(LJust(piece, width)) == Words(piece)
  {
    if |piece| < width {
      SpacesAreBlank(width - |piece|);
      WordsAmidBlanks("", piece, Spaces(width - |piece|));
      assert "" + piece == piece;
    }
  }

  lemma TrimmedWords(s: string)
    ensures Words(RStrip(s)) == Words(s)
  {
    var after := TrimRightParts(s);
    WordsAmidBlanks("", RStrip(s), after);
    assert "" + RStrip(s) == RStrip(s);
  }

  lemma LeadingEndsWord(cols: seq<seq<string>>, widths: seq<nat>, i: nat, k: nat)
    requires k <= |cols| == |widths|
    ensures EndsWord(Leading(cols, widths, i, k))
  {
    assert IsSpace(' ');
  }

  lemma CellWords(before: string, cell: string, line: string)
    requires EndsWord(before) && line == before + cell + " "
    ensures Words(line) == Words(before) + Words(cell)
  {
    assert IsSpace(' ') && IsBlank(" ");
    WordsConcat(before, cell);
    WordsConcat(before + cell, " ");
    WordsOfBlank(" ");
  }

  /** The words of the pieces that stand side by side in a line. */
  ghost predicate ListWords(lists: seq<seq<string>>, cols: seq<seq<string>>, i: nat) {
    |lists| == |cols| && forall k :: 0 <= k < |cols| ==> lists[k] == Words(Piece(cols[k], i))
  }

  function Flat(lists: seq<seq<string>>, k: nat): (r: seq<string>)
    requires k <= |lists|
  {
    if k == 0 then [] else Flat(lists, k - 1) + lists[k - 1]
  }

  lemma {:induction false} FlatHolds(lists: seq<seq<string>>, k: nat)
    requires k <= |lists|
    ensures forall j, w :: 0 <= j < k && w in lists[j] ==> w in Flat(lists, k)
    ensures forall w :: w in Flat(lists, k) ==> exists j :: 0 <= j < k && w in lists[j]
  {
    if k > 0 { FlatHolds(lists, k - 1); }
  }

  lemma LeadingGrows(cols: seq<seq<string>>, widths: seq<nat>, i: nat, k: nat, before: string, line: string)
    requires k < |cols| == |widths| && before == Leading(cols, widths, i, k) && line == Leading(cols, widths, i, k + 1)
    ensures Words(line) == Words(before) + Words(Piece(cols[k], i))
  {
    var cell := LJust(Piece(cols[k], i), widths[k]);
    LeadingEndsWord(cols, widths, i, k);
    CellWords(before, cell, line);
    PaddedWords(Piece(cols[k], i), widths[k]);
  }

  lemma NoLeadingWords()
    ensures Words(INDENT) == []
  {
    assert IsSpace(' ') && IsBlank(INDENT);
    WordsOfBlank(INDENT);
  }

  lemma {:induction false} LeadingWords(cols: seq<seq<string>>, widths: seq<nat>, i: nat, k: nat, line: string, lists: seq<seq<string>>)
    requires k <= |cols| == |widths| && line == Leading(cols, widths, i, k) && ListWords(lists, cols, i)
    ensures Words(line) == Flat(lists, k)
  {
    if k == 0 {
      NoLeadingWords();
    } else {
      var before := Leading(cols, widths, i, k - 1);
      LeadingWords(cols, widths, i, k - 1, before, lists);
      LeadingGrows(cols, widths, i, k - 1, before, line);
    }
  }

  /** The words of a row's line are those of its pieces. */
  lemma LineWordsAre(cols: seq<seq<string>>, widths: seq<nat>, i: nat, line: string, lists: seq<seq<string>>)
    requires |cols| == |widths| > 0 && IsLineOf(line, cols, widths, i) && ListWords(lists, cols, i)
    ensures Words(line) == Flat(lists, |lists|)
  {
    var last := |cols| - 1;
    var before, cell := Leading(cols, widths, i, last), LJust(Piece(cols[last], i), widths[last]);
    LeadingWords(cols, widths, i, last, before, lists);
    LeadingEndsWord(cols, widths, i, last);
    WordsConcat(before, RStrip(cell));
    TrimmedWords(cell);
    PaddedWords(Piece(cols[last], i), widths[last]);
  }

  /** A line of harmless words, with a word in its j-th column, is data to the parser. */
  lemma LineIsPlain(cols: seq<seq<string>>, widths: seq<nat>, i: nat, j: nat, line: string, lists: seq<seq<string>>)
    requires |cols| == |widths| && j < |cols| && IsLineOf(line, cols, widths, i) && ListWords(lists, cols, i)
    requires lists[j] != [] && forall k :: 0 <= k < |lists| ==> AreHarmless(lists[k])
    ensures IsPlain(line)
  {
    LineWordsAre(cols, widths, i, line, lists);
    FlatHolds(lists, |lists|);
    assert lists[j][0] in Flat(lists, |lists|);
    HarmlessIsPlain(line);
  }

  // ---------------------------------------------------------------- one line of text each

  /** No line break among the characters. */
  predicate NoBreak(s: string) {
    s == "" || (s[|s| - 1] != '\n' && NoBreak(s[..|s| - 1]))
  }

  lemma {:induction false} NoBreakIs(s: string)
    ensures NoBreak(s) <==> '\n' !in s
  {
    if s != "" {
      NoBreakIs(s[..|s| - 1]);
      assert s == s[..|s| - 1] + [s[|s| - 1]];
    }
  }

  lemma NoBreakConcat(a: string, b: string)
    requires NoBreak(a) && NoBreak(b)
    ensures NoBreak(a + b)
  {
    NoBreakIs(a);
    NoBreakIs(b);
    NoBreakIs(a + b);
  }

  ghost predicate PiecesAreWhole(cols: seq<seq<string>>, i: nat) {
    forall k :: 0 <= k < |cols| ==> NoBreak(Piece(cols[k], i))
  }

  lemma CellIsWhole(piece: string, width: nat)
    requires NoBreak(piece)
    ensures NoBreak(LJust(piece, width)) && NoBreak(RStrip(LJust(piece, width)))
  {
    NoBreakIs(piece);
    if |piece| < width { SpacesAre(width - |piece|); }
    NoBreakIs(LJust(piece, width));
    var after := TrimRightParts(LJust(piece, width));
    NoBreakIs(RStrip(LJust(piece, width)));
  }

  lemma {:induction false} LeadingIsWhole(cols: seq<seq<string>>, widths: seq<nat>, i: nat, k: nat)
    requires k <= |cols| == |widths| && PiecesAreWhole(cols, i)
    ensures NoBreak(Leading(cols, widths, i, k))
  {
    if k == 0 {
      NoBreakIs(INDENT);
    } else {
      LeadingIsWhole(cols, widths, i, k - 1);
      ThenCellIsWhole(Leading(cols, widths, i, k - 1), Piece(cols[k - 1], i), widths[k - 1]);
    }
  }

  lemma ThenCellIsWhole(before: string, piece: string, width: nat)
    requires NoBreak(before) && NoBreak(piece)
    ensures NoBreak(before + LJust(piece, width) + " ")
  {
    CellIsWhole(piece, width);
    NoBreakConcat(before, LJust(piece, width));
    NoBreakIs(" ");
    NoBreakConcat(before + LJust(piece, width), " ");
  }

  lemma LineIsWhole(cols: seq<seq<string>>, widths: seq<nat>, i: nat, line: string)
    requires |cols| == |widths| > 0 && PiecesAreWhole(cols, i) && IsLineOf(line, cols, widths, i)
    ensures NoBreak(line)
  {
    var last := |cols| - 1;
    LeadingIsWhole(cols, widths, i, last);
    CellIsWhole(Piece(cols[last], i), widths[last]);
    NoBreakConcat(Leading(cols, widths, i, last), RStrip(LJust(Piece(cols[last], i), widths[last])));
  }

  lemma {:induction false} SentenceHasNoBreak(ws: seq<string>)
    requires AreWords(ws)
    ensures NoBreak(Sentence(ws))
  {
    NoBreakIs(Sentence(ws));
    if ws != [] {
      assert ws[0] in ws && IsSpace('\n');
      SentenceHasNoBreak(ws[1..]);
      NoBreakIs(Sentence(ws[1..]));
    }
  }

  lemma ExcerptWords(line: string, ws: seq<string>)
    requires AreWords(ws) && AreHarmless(ws) && IsExcerpt(line, ws)
    ensures Words(line) != [] && AreHarmless(Words(line)) && NoBreak(line)
  {
    var from, end :| 0 <= from < end <= |ws| && line == Sentence(ws[from..end]);
    WordsOfSentence(ws[from..end]);
    SentenceHasNoBreak(ws[from..end]);
  }

  ghost predicate IsHarmlessPiece(col: seq<string>, i: nat) {
    AreHarmless(Words(Piece(col, i))) && NoBreak(Piece(col, i))
  }

  /** The pieces of a cell of harmless words. */
  lemma PieceIsHarmless(breaks: Breaks, ws: seq<string>, width: nat, i: nat, col: seq<string>)
    requires AreWords(ws) && AreHarmless(ws) && SplitsNoWord(breaks, ws, width) && width > 0
    requires col == WrapCell(breaks, Sentence(ws), width)
    ensures IsHarmlessPiece(col, i) && (ws != [] && i < |col| ==> Words(Piece(col, i)) != [])
    ensures ws == [] ==> |col| == 1
  {
    if ws != [] && i < |col| {
      CellHoldsWholeWords(breaks, ws, width);
      assert IsExcerpt(col[i], ws);
      ExcerptWords(col[i], ws);
    }
  }

  ghost predicate ShowsWord(col: seq<string>, i: nat) {
    Words(Piece(col, i)) != []
  }

  /** The pieces of a line in the domain, one of which at least holds a word. */
  lemma LineHasWord(breaks: Breaks, row: seq<seq<string>>, widths: seq<nat>, cols: seq<seq<string>>, i: nat) returns (j: nat)
    requires InDomain(breaks, row, widths) && cols == Columns(breaks, Cells(row), widths) && i < Height(cols)
    ensures j < |cols| && ShowsWord(cols[j], i) && forall k :: 0 <= k < |cols| ==> IsHarmlessPiece(cols[k], i)
  {
    forall k | 0 <= k < |cols|
      ensures IsHarmlessPiece(cols[k], i) && (row[k] != [] && i < |cols[k]| ==> ShowsWord(cols[k], i))
      ensures row[k] == [] ==> |cols[k]| == 1
    {
      assert AreWords(row[k]) && SplitsNoWord(breaks, row[k], widths[k]) && AreHarmless(row[k]);
      PieceIsHarmless(breaks, row[k], widths[k], i, cols[k]);
    }
    if i == 0 {
      j :| 0 <= j < |row| && row[j] != [];
      assert cols[j] == WrapCell(breaks, Sentence(row[j]), widths[j]);
    } else {
      j :| 0 <= j < |cols| && |cols[j]| == Height(cols);
    }
  }

  function PieceWords(cols: seq<seq<string>>, i: nat): (lists: seq<seq<string>>)
    ensures |lists| == |cols| && forall k :: 0 <= k < |cols| ==> lists[k] == Words(Piece(cols[k], i))
  {
    seq(|cols|, k requires 0 <= k < |cols| => Words(Piece(cols[k], i)))
  }

  lemma LineInDomain(breaks: Breaks, row: seq<seq<string>>, widths: seq<nat>, cols: seq<seq<string>>, i: nat, line: string)
    requires InDomain(breaks, row, widths) && cols == Columns(breaks, Cells(row), widths) && i < Height(cols)
    requires IsLineOf(line, cols, widths, i)
    ensures IsPlain(line) && NoBreak(line)
  {
    var j := LineHasWord(breaks, row, widths, cols, i);
    var lists := PieceWords(cols, i);
    assert ShowsWord(cols[j], i);
    forall k | 0 <= k < |cols| ensures AreHarmless(lists[k]) && NoBreak(Piece(cols[k], i)) {
      assert IsHarmlessPiece(cols[k], i);
    }
    LineIsPlain(cols, widths, i, j, line, lists);
    LineIsWhole(cols, widths, i, line);
  }

  /** Lines of text the parser takes for data. */
  ghost predicate ArePlain(lines: seq<string>) {
    forall i :: 0 <= i < |lines| ==> IsPlain(lines[i]) && NoBreak(lines[i])
  }

  /** Every line of a row in the domain is data to the parser, and one line of text. */
  lemma RowIsPlain(breaks: Breaks, row: seq<seq<string>>, widths: seq<nat>, lines: seq<string>)
    requires InDomain(breaks, row, widths) && lines == RowLines(breaks, Cells(row), widths)
    ensures lines != [] && ArePlain(lines)
  {
    var cols := Columns(breaks, Cells(row), widths);
    LinesInOrder(cols, widths, Height(cols), lines);
    assert cols[0] == WrapCell(breaks, Cells(row)[0], widths[0]);
    forall i | 0 <= i < |lines| ensures IsPlain(lines[i]) && NoBreak(lines[i]) {
      LineInDomain(breaks, row, widths, cols, i, lines[i]);
    }
  }
}
