/** How the numbers of a log grow: each entry takes the next one, unless its own words name a greater. */
module OperationNumbers {
  import opened Text
  import opened TextWrap
  import opened WrapReading
  import opened TablePrinter
  import opened TableScan
  import opened TableParser
  import opened LineWords
  import opened TableRow
  import opened TableWriter
  import opened TableRoundTrip
  import opened TableTemplate
  import opened OperationIds
  import opened OperationLogging

  // ---------------------------------------------------------------- the word that holds an identifier

  predicate EndsIn(s: string, piece: string) {
    piece == "" ||
    (s != "" && s[|s| - 1] == piece[|piece| - 1] && EndsIn(s[..|s| - 1], piece[..|piece| - 1]))
  }

  lemma {:induction false} EndsInIs(s: string, piece: string)
    ensures EndsIn(s, piece) <==> |piece| <= |s| && HoldsAt(s, piece, |s| - |piece|)
  {
    if piece != "" && s != "" {
      var front, init := s[..|s| - 1], piece[..|piece| - 1];
      EndsInIs(front, init);
      assert s == front + [s[|s| - 1]] && piece == init + [piece[|piece| - 1]];
      if |piece| <= |s| {
        assert s[|s| - |piece|..] == front[|s| - |piece|..] + [s[|s| - 1]];
        assert s[|s| - |piece|..|s|] == s[|s| - |piece|..] && front[|s| - |piece|..|front|] == front[|s| - |piece|..];
      }
    }
  }

  lemma EndsInSnoc(w: string, init: string, c: char)
    requires EndsIn(w, init)
    ensures EndsIn(w + [c], init + [c])
  {
    assert (w + [c])[..|w|] == w && (init + [c])[..|init|] == init;
  }

  /** The last run of characters other than white space; nothing when there is none. */
  function LastWord(s: string): (w: string) {
    var ws := Words(s);
    if ws == [] then "" else ws[|ws| - 1]
  }

  lemma LastWordSnoc(s: string, c: char)
    requires !IsSpace(c)
    ensures Words(s + [c]) != [] && LastWord(s + [c]) == (if EndsWord(s) then "" else LastWord(s)) + [c]
  {
    WordsSnoc(s, c);
    assert "" + [c] == [c];
  }

  /** A line that ends in a word ends in its last word. */
  lemma {:induction false} LastWordHolds(s: string, piece: string)
    requires IsWord(piece) && EndsIn(s, piece)
    ensures Words(s) != [] && EndsIn(LastWord(s), piece)
  {
    var front, init, c := s[..|s| - 1], piece[..|piece| - 1], s[|s| - 1];
    assert s == front + [c] && piece == init + [c];
    LastWordSnoc(front, c);
    if init != "" {
      assert front[|front| - 1] == init[|init| - 1] && !IsSpace(piece[|piece| - 2]);
      LastWordHolds(front, init);
    }
    EndsInSnoc(if EndsWord(front) then "" else LastWord(front), init, c);
  }

  /** What has no white space is held by one of the line's words. */
  lemma {:induction false} SomeWordHolds(s: string, piece: string, i: nat) returns (w: string)
    requires IsWord(piece) && HoldsAt(s, piece, i)
    ensures w in Words(s) && Holds(w, piece)
  {
    if i + |piece| == |s| {
      EndsInIs(s, piece);
      LastWordHolds(s, piece);
      w := LastWord(s);
      EndsInIs(w, piece);
      assert HoldsAt(w, piece, |w| - |piece|);
    } else {
      var front, c := s[..|s| - 1], s[|s| - 1];
      assert s == front + [c] && front[i..i + |piece|] == s[i..i + |piece|];
      w := SomeWordHolds(front, piece, i);
      WordsSnoc(front, c);
      var before := Words(front);
      if w !in Words(s) {
        assert before == before[..|before| - 1] + [before[|before| - 1]];
        assert w == before[|before| - 1] && w + [c] in Words(s);
        HoldsPart(w + [c], "", w, [c]);
        assert w + [c] == "" + w + [c];
        HoldsTransitive(w + [c], w, piece);
        w := w + [c];
      }
    }
  }

  // ---------------------------------------------------------------- a row's words are in its lines, and no others

  lemma ExcerptWordsAre(line: string, ws: seq<string>, w: string)
    requires AreWords(ws) && IsExcerpt(line, ws) && w in Words(line)
    ensures w in ws
  {
    var from, end :| 0 <= from < end <= |ws| && line == Sentence(ws[from..end]);
    WordsOfSentence(ws[from..end]);
  }

  lemma PieceWordsAre(breaks: Breaks, ws: seq<string>, width: nat, i: nat, w: string)
    requires AreWords(ws) && SplitsNoWord(breaks, ws, width) && width > 0
    requires w in Words(Piece(WrapCell(breaks, Sentence(ws), width), i))
    ensures w in ws
  {
    var col := WrapCell(breaks, Sentence(ws), width);
    if ws != [] && i < |col| {
      CellHoldsWholeWords(breaks, ws, width);
      ExcerptWordsAre(col[i], ws, w);
    }
  }

  lemma LineWordsOfRow(breaks: Breaks, row: seq<seq<string>>, widths: seq<nat>, lines: seq<string>, i: nat, w: string)
    returns (k: nat)
    requires InDomain(breaks, row, widths) && lines == RowLines(breaks, Cells(row), widths)
    requires i < |lines| && w in Words(lines[i])
    ensures k < |row| && w in row[k]
  {
    var cols := Columns(breaks, Cells(row), widths);
    LinesInOrder(cols, widths, Height(cols), lines);
    var lists := PieceWords(cols, i);
    LineWordsAre(cols, widths, i, lines[i], lists);
    FlatHolds(lists, |lists|);
    k :| 0 <= k < |lists| && w in lists[k];
    assert cols[k] == WrapCell(breaks, Sentence(row[k]), widths[k]);
    assert AreWords(row[k]);
    PieceWordsAre(breaks, row[k], widths[k], i, w);
  }

  lemma RowWordIsHeld(breaks: Breaks, row: seq<seq<string>>, widths: seq<nat>, lines: seq<string>, k: nat, w: string)
    returns (i: nat)
    requires InDomain(breaks, row, widths) && lines == RowLines(breaks, Cells(row), widths)
    requires k < |row| && w in row[k]
    ensures i < |lines| && Holds(lines[i], w)
  {
    var from := Start(widths, k);
    var to := from + widths[k];
    assert AreWords(row[k]) && IsSpace(' ');
    CellComesBack(breaks, row, widths, k, lines, from, to, row[k]);
    var m :| 0 <= m < |row[k]| && row[k][m] == w;
    JoinHolds(row[k], ' ', m);
    var parts := CellParts(lines, from, to);
    var at: nat :| HoldsAt(Join(parts, ' '), w, at);
    var j := SomePartHolds(parts, ' ', w, at);
    i := PartIsHeld(lines, from, to, parts[j]);
    HoldsTransitive(lines[i], parts[j], w);
  }

  // ---------------------------------------------------------------- the numbers that words name

  function GreatestIn(ws: seq<string>): (m: nat)
    ensures m <= 999
  {
    if ws == [] then 0 else Larger(GreatestIn(ws[..|ws| - 1]), Greatest(ws[|ws| - 1]))
  }

  lemma {:induction false} GreatestInFacts(ws: seq<string>)
    ensures forall w :: w in ws ==> Greatest(w) <= GreatestIn(ws)
    ensures GreatestIn(ws) == 0 || exists w :: w in ws && Greatest(w) == GreatestIn(ws)
  {
    if ws != [] {
      var n := |ws| - 1;
      GreatestInFacts(ws[..n]);
      assert ws == ws[..n] + [ws[n]];
    }
  }

  function AllWords(entry: Entry): (ws: seq<string>) {
    entry.date + entry.status + entry.request + entry.outcome
  }

  /** The greatest number of an identifier that the entry's words hold. */
  function Named(entry: Entry): (m: nat)
    ensures m <= 999
  {
    GreatestIn(AllWords(entry))
  }

  /** The greatest number of a document with greatest number n, after the entry is logged. */
  function NumberAfter(n: nat, entry: Entry): (m: nat) {
    if n < 999 then Larger(n + 1, Named(entry)) else n
  }

  function NumbersAfter(n: nat, entries: seq<Entry>): (m: nat) {
    if entries == [] then n else NumberAfter(NumbersAfter(n, entries[..|entries| - 1]), entries[|entries| - 1])
  }

  // ---------------------------------------------------------------- one entry

  /** The identifier that begins at a position, by itself. */
  lemma IdByItself(text: string, i: nat) returns (id: string)
    requires IsIdAt(text, i)
    ensures HoldsAt(text, id, i) && |id| == 7 && IsIdAt(id, 0) && NumberAt(id, 0) == NumberAt(text, i) && IsWord(id)
    ensures '\n' !in id
  {
    id := text[i..i + 7];
    assert forall k :: 0 <= k < 7 ==> id[k] == text[i + k];
    assert IsSpace('\n');
  }

  lemma CellIsOfEntry(own: string, entry: Entry, k: nat, w: string)
    requires k < 5 && w in RowOf(own, entry)[k]
    ensures if k == 0 then w == own else w in AllWords(entry)
  {
  }

  lemma EntryIsInCells(own: string, entry: Entry, w: string) returns (k: nat)
    requires w in AllWords(entry)
    ensures k < 5 && w in RowOf(own, entry)[k]
  {
    k := if w in entry.date then 1 else if w in entry.status then 2 else if w in entry.request then 3 else 4;
  }

  lemma GreatestId(text: string) returns (id: string)
    requires Greatest(text) > 0
    ensures Holds(text, id) && |id| == 7 && IsIdAt(id, 0) && NumberAt(id, 0) == Greatest(text)
    ensures IsWord(id) && '\n' !in id
  {
    GreatestFacts(text, |text|);
    var i :| 0 <= i < |text| && IsIdAt(text, i) && NumberAt(text, i) == Greatest(text);
    id := IdByItself(text, i);
  }

  /** An identifier that is held by the document's next one or by a word of the entry. */
  lemma IdInCell(text: string, entry: Entry, k: nat, w: string, id: string)
    requires Greatest(text) < 999 && k < 5 && w in RowOf(NextId(text), entry)[k] && Holds(w, id)
    requires |id| == 7 && IsIdAt(id, 0)
    ensures NumberAt(id, 0) <= NumberAfter(Greatest(text), entry)
  {
    var own := NextId(text);
    CellIsOfEntry(own, entry, k, w);
    var m: nat :| HoldsAt(w, id, m);
    if k == 0 {
      IdShape(own, Greatest(text) + 1);
      assert own[..7] == own;
    } else {
      GreatestInFacts(AllWords(entry));
      HeldIdCounts(w, id, m);
    }
  }

  /** An identifier of a written row is the entry's own, or its words name it. */
  lemma IdInRow(breaks: Breaks, text: string, entry: Entry, cells: seq<seq<string>>, row: seq<string>, j: nat, id: string)
    requires Greatest(text) < 999 && cells == RowOf(NextId(text), entry) && InDomain(breaks, cells, ROW_WIDTHS)
    requires row == RowLines(breaks, Cells(cells), ROW_WIDTHS) && j < |row| && Holds(row[j], id)
    requires |id| == 7 && IsIdAt(id, 0) && IsWord(id)
    ensures NumberAt(id, 0) <= NumberAfter(Greatest(text), entry)
  {
    var at: nat :| HoldsAt(row[j], id, at);
    var w := SomeWordHolds(row[j], id, at);
    var k := LineWordsOfRow(breaks, cells, ROW_WIDTHS, row, j, w);
    IdInCell(text, entry, k, w, id);
  }

  /** What a document with a row put in holds, it held before, or a line of the row holds it. */
  lemma HeldWhere(text: string, written: string, c: nat, row: seq<string>, piece: string)
    requires c <= |LinesOf(text)| && LinesOf(written) == WithRow(LinesOf(text), c, row)
    requires piece != "" && '\n' !in piece && Holds(written, piece)
    ensures Holds(text, piece) || exists j :: 0 <= j < |row| && Holds(row[j], piece)
  {
    var i: nat :| HoldsAt(written, piece, i);
    JoinSplit(written, '\n');
    var j := SomePartHolds(LinesOf(written), '\n', piece, i);
    WithRowAt(LinesOf(text), c, row, j);
    if j < c || j > c + |row| {
      var k := if j < c then j else j - 1 - |row|;
      HoldsLine(text, k);
      HoldsTransitive(text, LinesOf(text)[k], piece);
    }
  }

  lemma RowLineIsHeld(text: string, written: string, c: nat, row: seq<string>, j: nat, piece: string)
    requires c <= |LinesOf(text)| && LinesOf(written) == WithRow(LinesOf(text), c, row)
    requires j < |row| && Holds(row[j], piece)
    ensures Holds(written, piece)
  {
    WithRowAt(LinesOf(text), c, row, c + 1 + j);
    HoldsLine(written, c + 1 + j);
    HoldsTransitive(written, row[j], piece);
  }

  lemma IdInTextOrRow(breaks: Breaks, text: string, entry: Entry, cells: seq<seq<string>>, row: seq<string>, id: string)
    requires Greatest(text) < 999 && cells == RowOf(NextId(text), entry) && InDomain(breaks, cells, ROW_WIDTHS)
    requires row == RowLines(breaks, Cells(cells), ROW_WIDTHS) && |id| == 7 && IsIdAt(id, 0) && IsWord(id)
    requires Holds(text, id) || exists j :: 0 <= j < |row| && Holds(row[j], id)
    ensures NumberAt(id, 0) <= NumberAfter(Greatest(text), entry)
  {
    if Holds(text, id) {
      var at: nat :| HoldsAt(text, id, at);
      HeldIdCounts(text, id, at);
    } else {
      var j :| 0 <= j < |row| && Holds(row[j], id);
      IdInRow(breaks, text, entry, cells, row, j, id);
    }
  }

  /** Below the limit no number of the written document is above those. */
  lemma NoneAbove(breaks: Breaks, text: string, l: Layout, entry: Entry, written: string, id: string)
    requires IsReady(text, l) && CanBeLogged(breaks, entry) && LogEntry(breaks, text, entry) == Written(written)
    requires Greatest(text) < 999 && Holds(written, id)
    requires |id| == 7 && IsIdAt(id, 0) && IsWord(id) && '\n' !in id
    ensures NumberAt(id, 0) <= NumberAfter(Greatest(text), entry)
  {
    var row := EntryLines(breaks, text, l, entry, written);
    HeldWhere(text, written, l.end, row, id);
    IdInTextOrRow(breaks, text, entry, RowOf(NextId(text), entry), row, id);
  }

  /** What a word of an entry names, the written document holds. */
  lemma WordIsHeld(breaks: Breaks, text: string, l: Layout, entry: Entry, written: string, w: string)
    requires IsReady(text, l) && CanBeLogged(breaks, entry) && LogEntry(breaks, text, entry) == Written(written)
    requires w in AllWords(entry)
    ensures Holds(written, w)
  {
    var row := EntryLines(breaks, text, l, entry, written);
    var k := EntryIsInCells(NextId(text), entry, w);
    var j := RowWordIsHeld(breaks, RowOf(NextId(text), entry), ROW_WIDTHS, row, k, w);
    RowLineIsHeld(text, written, l.end, row, j, w);
  }

  lemma NamedIsReached(breaks: Breaks, text: string, l: Layout, entry: Entry, written: string)
    requires IsReady(text, l) && CanBeLogged(breaks, entry) && LogEntry(breaks, text, entry) == Written(written)
    ensures Named(entry) <= Greatest(written)
  {
    GreatestInFacts(AllWords(entry));
    if Named(entry) > 0 {
      var w :| w in AllWords(entry) && Greatest(w) == Named(entry);
      var id := GreatestId(w);
      WordIsHeld(breaks, text, l, entry, written, w);
      HoldsTransitive(written, w, id);
      var at: nat :| HoldsAt(written, id, at);
      HeldIdCounts(written, id, at);
    }
  }

  lemma NumberAtMost(breaks: Breaks, text: string, l: Layout, entry: Entry, written: string)
    requires IsReady(text, l) && CanBeLogged(breaks, entry) && LogEntry(breaks, text, entry) == Written(written)
    requires Greatest(text) < 999
    ensures Greatest(written) <= NumberAfter(Greatest(text), entry)
  {
    if Greatest(written) > 0 {
      var id := GreatestId(written);
      NoneAbove(breaks, text, l, entry, written, id);
    }
  }

  /** Logging an entry raises the greatest number to the next one, or to the greatest that the entry names; at the
      limit it stays. */
  lemma NumberIsAfter(breaks: Breaks, text: string, l: Layout, entry: Entry, written: string)
    requires IsReady(text, l) && CanBeLogged(breaks, entry) && LogEntry(breaks, text, entry) == Written(written)
    ensures Greatest(written) == NumberAfter(Greatest(text), entry)
  {
    if Greatest(text) == 999 {
      AtLimitIdsRepeat(breaks, text, l, entry, written);
    } else {
      NumbersGrow(breaks, text, l, entry, written);
      NamedIsReached(breaks, text, l, entry, written);
      NumberAtMost(breaks, text, l, entry, written);
    }
  }

  // ---------------------------------------------------------------- several entries

  /** Every entry that can be logged is written, and the greatest number is known beforehand. */
  lemma {:induction false} NumbersAreAfter(breaks: Breaks, text: string, l: Layout, entries: seq<Entry>)
    returns (written: string, moved: Layout)
    requires IsReady(text, l) && AllCanBeLogged(breaks, entries)
    ensures LogAll(breaks, text, entries) == Written(written) && IsReady(written, moved)
    ensures Greatest(written) == NumbersAfter(Greatest(text), entries)
  {
    written, moved := text, l;
    if entries != [] {
      var front, last := entries[..|entries| - 1], entries[|entries| - 1];
      assert forall n :: 0 <= n < |front| ==> front[n] == entries[n];
      var before, place := NumbersAreAfter(breaks, text, l, front);
      written, moved := LogOne(breaks, before, place, last);
      NumberIsAfter(breaks, before, place, last, written);
    }
  }

  lemma {:induction false} NumbersRise(n: nat, entries: seq<Entry>, k: nat)
    requires k <= |entries| && n <= 999
    ensures NumbersAfter(n, entries[..k]) <= NumbersAfter(n, entries) <= 999
  {
    if k < |entries| {
      assert entries[..|entries| - 1][..k] == entries[..k];
      NumbersRise(n, entries[..|entries| - 1], k);
    } else {
      assert entries[..k] == entries;
      if k > 0 { NumbersRise(n, entries[..k - 1], k - 1); }
    }
  }

  lemma RoomFor(breaks: Breaks, text: string, l: Layout, entries: seq<Entry>, n: nat)
    requires IsReady(text, l) && AllCanBeLogged(breaks, entries) && n < |entries|
    ensures HasRoomFor(breaks, text, entries, n) <==> NumbersAfter(Greatest(text), entries[..n]) < 999
  {
    assert forall m :: 0 <= m < n ==> entries[..n][m] == entries[m];
    var written, moved := NumbersAreAfter(breaks, text, l, entries[..n]);
  }

  lemma EarlierIsLower(n: nat, entries: seq<Entry>, k: nat)
    requires k < |entries| && n <= 999
    ensures NumbersAfter(n, entries[..k]) <= NumbersAfter(n, entries[..|entries| - 1])
  {
    NumbersRise(n, entries[..|entries| - 1], k);
    assert entries[..|entries| - 1][..k] == entries[..k];
  }

  /** Numbers last for all entries exactly when one is left for the last. */
  lemma StaysBelowExactlyWhen(breaks: Breaks, text: string, l: Layout, entries: seq<Entry>)
    requires IsReady(text, l) && AllCanBeLogged(breaks, entries)
    ensures StaysBelowLimit(breaks, text, entries)
      <==> entries == [] || NumbersAfter(Greatest(text), entries[..|entries| - 1]) < 999
  {
    if entries != [] {
      var last := |entries| - 1;
      RoomFor(breaks, text, l, entries, last);
      if HasRoomFor(breaks, text, entries, last) {
        forall n | 0 <= n < |entries| ensures HasRoomFor(breaks, text, entries, n) {
          RoomFor(breaks, text, l, entries, n);
          EarlierIsLower(Greatest(text), entries, n);
        }
      }
    }
  }

  /** Entries that name no number above the next one. */
  ghost predicate NameNothingAbove(n: nat, entries: seq<Entry>) {
    forall k :: 0 <= k < |entries| ==> Named(entries[k]) <= n + 1
  }

  lemma {:induction false} NumbersCount(n: nat, entries: seq<Entry>)
    requires NameNothingAbove(n, entries) && n <= 999
    ensures NumbersAfter(n, entries) == if n + |entries| <= 999 then n + |entries| else 999
  {
    if entries != [] {
      var front := entries[..|entries| - 1];
      assert forall k :: 0 <= k < |front| ==> front[k] == entries[k];
      NumbersCount(n, front);
      assert Named(entries[|entries| - 1]) <= n + 1;
    }
  }

  /** When the entries name nothing above the next number, numbers last exactly as long as there are fewer than a
      thousand. */
  lemma RoomExactlyWhen(breaks: Breaks, text: string, l: Layout, entries: seq<Entry>)
    requires IsReady(text, l) && AllCanBeLogged(breaks, entries) && NameNothingAbove(Greatest(text), entries)
    ensures StaysBelowLimit(breaks, text, entries) <==> Greatest(text) + |entries| <= 999
  {
    StaysBelowExactlyWhen(breaks, text, l, entries);
    if entries != [] {
      var front := entries[..|entries| - 1];
      assert forall k :: 0 <= k < |front| ==> front[k] == entries[k];
      NumbersCount(Greatest(text), front);
    }
  }

  // ---------------------------------------------------------------- a log at its limit

  /** An entry that names the greatest identifier there is. */
  const MENTION: Entry := Entry(["2026-07-01"], ["Planned"], ["OPS-999"], [])

  lemma MentionCanBeLogged(breaks: Breaks)
    ensures CanBeLogged(breaks, MENTION)
  {
    WordIsCell(breaks, "2026-07-01", 12);
    WordIsCell(breaks, "Planned", 13);
    WordIsCell(breaks, "OPS-999", 15);
    OneLineIsWhole(breaks, [], 26);
  }

  lemma WordIsCell(breaks: Breaks, w: string, width: nat)
    requires IsWord(w) && w[0] != '#' && w[0] != '-' && |w| <= width
    ensures IsCell(breaks, [w], width)
  {
    OneLineIsWhole(breaks, [w], width);
    assert !OnlyDashes(w);
  }

  lemma MentionNamesTheLimit()
    ensures Named(MENTION) == 999
  {
    var id := "OPS-999";
    assert IsIdAt(id, 0) && NumberAt(id, 0) == 999;
    GreatestFacts(id, |id|);
    GreatestInFacts(AllWords(MENTION));
    assert AllWords(MENTION)[2] == id;
  }

  /** One entry brings an empty log to its limit: of the next two, the second is never loaded. */
  lemma LimitIsReached(breaks: Breaks, empty: string) returns (text: string, l: Layout)
    requires empty == Join(EmptyLog(TITLE, COLUMNS), '\n')
    ensures LogEntry(breaks, empty, MENTION) == Written(text) && IsReady(text, l) && Greatest(text) == 999
  {
    EmptyLogIsReady(empty);
    MentionCanBeLogged(breaks);
    text, l := LogOne(breaks, empty, Layout(0, 4, 3, 5), MENTION);
    NumberIsAfter(breaks, empty, Layout(0, 4, 3, 5), MENTION, text);
    MentionNamesTheLimit();
  }
}
