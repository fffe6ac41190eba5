/** Wrapping a cell's text to a column width, as the platform's text wrapper does it: the text is cut into
    chunks at spaces and inside words, and the lines are filled greedily. */
module TextWrap {
  import opened Text

  // ---------------------------------------------------------------- words

  /** A word, or a part of one: some characters, none of them white space. */
  predicate IsWord(w: string) {
    w != "" && forall i :: 0 <= i < |w| ==> !IsSpace(w[i])
  }

  ghost predicate AreWords(ws: seq<string>) {
    forall i :: 0 <= i < |ws| ==> IsWord(ws[i])
  }

  /** Words separated by single spaces. */
  function Sentence(ws: seq<string>): (text: string) {
    Join(ws, ' ')
  }

  // ---------------------------------------------------------------- break points inside words

  /** Where a line may end inside a word: before the character at the position. */
  type Breaks = (string, nat) -> bool

  /** The first n characters of a word, cut at its break points. */
  function PartsUpTo(breaks: Breaks, w: string, n: nat): (parts: seq<string>)
    requires n <= |w|
    ensures n > 0 ==> parts != []
  {
    if n == 0 then []
    else
      var before := PartsUpTo(breaks, w, n - 1);
      if n == 1 || breaks(w, n - 1) then before + [[w[n - 1]]]
      else before[..|before| - 1] + [before[|before| - 1] + [w[n - 1]]]
  }

  function Parts(breaks: Breaks, w: string): (parts: seq<string>)
    ensures w != "" ==> parts != []
  {
    PartsUpTo(breaks, w, |w|)
  }

  /** The classes of characters that the platform's word-breaking rule tells apart, besides '-'. */
  datatype Classes = Classes(letter: char -> bool, digit: char -> bool)

  predicate IsWordChar(classes: Classes, c: char) {
    classes.letter(c) || classes.digit(c) || c == '_'
  }

  predicate IsWordPunctuation(classes: Classes, c: char) {
    IsWordChar(classes, c) || c in "!\"'&.,?"
  }

  predicate LetterAt(classes: Classes, w: string, i: int) {
    0 <= i < |w| && (classes.letter(w[i]) || w[i] == '_')
  }

  predicate DashAt(w: string, i: int) {
    0 <= i < |w| && w[i] == '-'
  }

  /** After a hyphen between letters: two letters stand before it and two after it, either pair perhaps with a hyphen
      between them. */
  predicate AfterHyphen(classes: Classes, w: string, i: nat) {
    && DashAt(w, i - 1)
    && ((LetterAt(classes, w, i - 3) && LetterAt(classes, w, i - 2))
        || (LetterAt(classes, w, i - 4) && DashAt(w, i - 3) && LetterAt(classes, w, i - 2)))
    && LetterAt(classes, w, i)
    && (LetterAt(classes, w, i + 1) || (DashAt(w, i + 1) && LetterAt(classes, w, i + 2)))
  }

  function DashesFrom(w: string, i: nat): (n: nat)
    ensures i + n <= |w| || n == 0
    decreases |w| - i
  {
    if i < |w| && w[i] == '-' then 1 + DashesFrom(w, i + 1) else 0
  }

  function DashesBefore(w: string, i: nat): (n: nat)
    requires i <= |w|
    ensures n <= i
  {
    if i > 0 && w[i - 1] == '-' then 1 + DashesBefore(w, i - 1) else 0
  }

  /** Two dashes or more from the position on, between a character of a word and another. */
  predicate BeforeDashes(classes: Classes, w: string, i: nat)
    requires i <= |w|
  {
    var n := DashesFrom(w, i);
    && n >= 2 && DashesBefore(w, i) == 0 && i > 0 && IsWordPunctuation(classes, w[i - 1])
    && i + n < |w| && IsWordChar(classes, w[i + n])
  }

  /** The end of such dashes. */
  predicate AfterDashes(classes: Classes, w: string, i: nat)
    requires i < |w|
  {
    w[i] != '-' && DashesBefore(w, i) > 0 && BeforeDashes(classes, w, i - DashesBefore(w, i))
  }

  /** The platform's break points. */
  function HyphenBreaks(classes: Classes): (breaks: Breaks) {
    (w: string, i: nat) =>
      0 < i < |w|
      && (AfterHyphen(classes, w, i) || BeforeDashes(classes, w, i) || AfterDashes(classes, w, i))
  }

  // ---------------------------------------------------------------- where the platform breaks words

  ghost predicate AreLetters(classes: Classes, s: string) {
    forall i :: 0 <= i < |s| ==> classes.letter(s[i]) && s[i] != '-'
  }

  /** Between two words of letters: after the hyphen, when both have two letters at least. */
  lemma CompoundBreaks(classes: Classes, u: string, v: string, i: nat)
    requires AreLetters(classes, u) && AreLetters(classes, v) && u != "" && v != "" && !classes.letter('-')
    ensures HyphenBreaks(classes)(u + "-" + v, i) <==> i == |u| + 1 && |u| >= 2 && |v| >= 2
  {
    var w := u + "-" + v;
    assert forall k :: 0 <= k < |w| ==> w[k] == if k < |u| then u[k] else if k == |u| then '-' else v[k - |u| - 1];
    if 0 < i < |w| { NoDashesInARow(classes, w, i); }
  }

  lemma NoDashesInARow(classes: Classes, w: string, i: nat)
    requires 0 < i < |w| && forall j :: 0 <= j < |w| - 1 ==> w[j] != '-' || w[j + 1] != '-'
    ensures !BeforeDashes(classes, w, i) && !AfterDashes(classes, w, i)
  {
    assert forall j: nat :: j < |w| ==> DashesFrom(w, j) <= 1;
  }

  lemma OnlyAfterHyphen(classes: Classes, w: string, i: nat)
    requires forall j :: 0 <= j < |w| - 1 ==> w[j] != '-' || w[j + 1] != '-'
    ensures HyphenBreaks(classes)(w, i) <==> 0 < i < |w| && AfterHyphen(classes, w, i)
  {
    if 0 < i < |w| { NoDashesInARow(classes, w, i); }
  }

  ghost predicate KnowsLetters(classes: Classes) {
    && classes.letter('a') && classes.letter('b') && classes.letter('c') && classes.letter('d')
    && !classes.letter('-') && !classes.letter('1')
  }

  /** Single letters between hyphens are kept with what stands before them. */
  lemma SingleLettersBreak(classes: Classes, i: nat)
    requires KnowsLetters(classes)
    ensures HyphenBreaks(classes)("a-b-cd", i) <==> i == 4
    ensures HyphenBreaks(classes)("ab-c-d", i) <==> i == 3
  {
    OnlyAfterHyphen(classes, "a-b-cd", i);
    OnlyAfterHyphen(classes, "ab-c-d", i);
  }

  /** An underscore is a letter. */
  lemma UnderscoreBreaks(classes: Classes, i: nat)
    requires KnowsLetters(classes)
    ensures HyphenBreaks(classes)("_a-b_", i) <==> i == 3
  {
    OnlyAfterHyphen(classes, "_a-b_", i);
  }

  /** A digit is none. */
  lemma DigitsDoNotBreak(classes: Classes, i: nat)
    requires KnowsLetters(classes)
    ensures !HyphenBreaks(classes)("ab-c1d", i) && !HyphenBreaks(classes)("ab-1cd", i) && !HyphenBreaks(classes)("a1-cd", i)
  {
    OnlyAfterHyphen(classes, "ab-c1d", i);
    OnlyAfterHyphen(classes, "ab-1cd", i);
    OnlyAfterHyphen(classes, "a1-cd", i);
  }

  /** Dashes stand by themselves after a letter, a digit or one of eight marks, and before a letter, a digit or an
      underscore. */
  lemma DashesBreakAfter(classes: Classes, c: char, d: char)
    requires c != '-' && d != '-'
    ensures HyphenBreaks(classes)([c] + "--" + [d], 1) <==>
      (classes.letter(c) || classes.digit(c) || c in "_!\"'&.,?") && (classes.letter(d) || classes.digit(d) || d == '_')
  {
    var w := [c] + "--" + [d];
    assert w[0] == c && w[1] == '-' && w[2] == '-' && w[3] == d;
    assert DashesFrom(w, 3) == 0 && DashesFrom(w, 2) == 1 && DashesFrom(w, 1) == 2;
    assert w[1] == '-' && !AfterDashes(classes, w, 1);
  }

  function DashRun(n: nat): (dashes: string)
    ensures |dashes| == n && forall i :: 0 <= i < n ==> dashes[i] == '-'
  {
    seq(n, i => '-')
  }

  lemma {:induction false} DashesFromIs(w: string, i: nat, end: nat)
    requires i <= end <= |w| && (forall j :: i <= j < end ==> w[j] == '-') && (end < |w| ==> w[end] != '-')
    ensures DashesFrom(w, i) == end - i
    decreases end - i
  {
    if i < end { DashesFromIs(w, i + 1, end); }
  }

  lemma {:induction false} DashesBeforeIs(w: string, start: nat, i: nat)
    requires start <= i <= |w| && (forall j :: start <= j < i ==> w[j] == '-') && (start > 0 ==> w[start - 1] != '-')
    ensures DashesBefore(w, i) == i - start
    decreases i
  {
    if start < i { DashesBeforeIs(w, start, i - 1); }
  }

  /** Two dashes or more between words stand by themselves: there is a break before them and one after. */
  lemma DashesBreak(classes: Classes, u: string, n: nat, v: string, i: nat)
    requires u != "" && v != "" && n >= 2 && u[|u| - 1] != '-' && v[0] != '-'
    requires IsWordPunctuation(classes, u[|u| - 1]) && IsWordChar(classes, v[0]) && |u| <= i <= |u| + n
    requires !classes.letter('-')
    ensures HyphenBreaks(classes)(u + DashRun(n) + v, i) <==> i == |u| || i == |u| + n || AfterHyphen(classes, u + DashRun(n) + v, i)
  {
    var w := u + DashRun(n) + v;
    var end := |u| + n;
    assert w[|u| - 1] == u[|u| - 1] && w[end] == v[0] && forall j :: |u| <= j < end ==> w[j] == '-';
    DashesFromIs(w, i, end);
    DashesBeforeIs(w, |u|, i);
    DashesFromIs(w, |u|, end);
    DashesBeforeIs(w, |u|, |u|);
  }

  // ---------------------------------------------------------------- chunks

  function RunLength(s: string): (n: nat)
    requires s != ""
    ensures 1 <= n <= |s|
  {
    if |s| == 1 || (s[0] == ' ') != (s[1] == ' ') then 1 else 1 + RunLength(s[1..])
  }

  predicate AllNonEmpty(cs: seq<string>) {
    forall i :: 0 <= i < |cs| ==> cs[i] != ""
  }

  lemma {:induction false} PartsAreNotEmpty(breaks: Breaks, w: string, n: nat)
    requires n <= |w|
    ensures AllNonEmpty(PartsUpTo(breaks, w, n))
  {
    if n > 0 { PartsAreNotEmpty(breaks, w, n - 1); }
  }

  /** The runs of spaces, and the parts of the words, in order. */
  function Chunks(breaks: Breaks, s: string): (cs: seq<string>)
    ensures AllNonEmpty(cs)
    decreases |s|
  {
    if s == "" then []
    else
      var run, rest := s[..RunLength(s)], Chunks(breaks, s[RunLength(s)..]);
      PartsAreNotEmpty(breaks, run, |run|);
      (if s[0] == ' ' then [run] else Parts(breaks, run)) + rest
  }

  function Concat(cs: seq<string>): (s: string) {
    if cs == [] then "" else cs[0] + Concat(cs[1..])
  }

  lemma {:induction false} ConcatAppend(a: seq<string>, b: seq<string>)
    ensures Concat(a + b) == Concat(a) + Concat(b)
  {
    if |a| == 0 {
      assert a + b == b;
    } else {
      ConcatAppend(a[1..], b);
      assert (a + b)[1..] == a[1..] + b;
    }
  }

  lemma ConcatSplit(cs: seq<string>, n: nat)
    requires n <= |cs|
    ensures Concat(cs) == Concat(cs[..n]) + Concat(cs[n..])
  {
    assert cs == cs[..n] + cs[n..];
    ConcatAppend(cs[..n], cs[n..]);
  }

  // ---------------------------------------------------------------- filling lines

  /** How many leading chunks fit in the room. */
  function Fit(cs: seq<string>, room: nat): (n: nat)
    ensures n <= |cs|
  {
    if cs == [] || |cs[0]| > room then 0 else 1 + Fit(cs[1..], room - |cs[0]|)
  }

  lemma {:induction false} FitFacts(cs: seq<string>, room: nat)
    ensures var n := Fit(cs, room);
      |Concat(cs[..n])| <= room && (n < |cs| ==> |Concat(cs[..n])| + |cs[n]| > room)
  {
    if cs != [] && |cs[0]| <= room {
      var n := 1 + Fit(cs[1..], room - |cs[0]|);
      FitFacts(cs[1..], room - |cs[0]|);
      assert cs[..n][0] == cs[0] && cs[..n][1..] == cs[1..][..n - 1];
    }
  }

  /** The position of the last hyphen of the first n characters, if there is one. */
  function LastHyphen(s: string, n: nat): (i: Option<nat>)
    requires n <= |s|
    ensures i.Some? ==> i.value < n && s[i.value] == '-' && forall j :: i.value < j < n ==> s[j] != '-'
    ensures i.None? ==> forall j :: 0 <= j < n ==> s[j] != '-'
  {
    if n == 0 then None else if s[n - 1] == '-' then Some(n - 1) else LastHyphen(s, n - 1)
  }

  /** Where a chunk that no line can hold is cut to fill the room: after its last hyphen there, unless only
      hyphens stand before that, and otherwise where the room ends. */
  function CutAt(chunk: string, room: nat): (used: nat)
    requires room < |chunk|
    ensures used <= room && (used == 0 <==> room == 0)
  {
    var hyphen := LastHyphen(chunk, room);
    if hyphen.Some? && exists i :: 0 <= i < hyphen.value && chunk[i] != '-' then hyphen.value + 1 else room
  }

  /** The last hyphen that there is room for decides, when a character other than a hyphen stands before it. */
  lemma CutIsAt(chunk: string, room: nat, h: nat)
    requires h < room < |chunk| && chunk[h] == '-' && forall j :: h < j < room ==> chunk[j] != '-'
    ensures (exists i :: 0 <= i < h && chunk[i] != '-') ==> CutAt(chunk, room) == h + 1
    ensures (forall i :: 0 <= i < h ==> chunk[i] == '-') ==> CutAt(chunk, room) == room
  {
    var last := LastHyphen(chunk, room);
    assert last == Some(h);
  }

  lemma CutWithoutHyphen(chunk: string, room: nat)
    requires room < |chunk| && forall j :: 0 <= j < room ==> chunk[j] != '-'
    ensures CutAt(chunk, room) == room
  {
  }

  /** How much of the next chunk is put on the line after the ones that fit. */
  function Cut(cs: seq<string>, width: nat): (used: nat)
    requires Fit(cs, width) < |cs| && |cs[Fit(cs, width)]| > width
    ensures used <= width
  {
    FitFacts(cs, width);
    CutAt(cs[Fit(cs, width)], width - |Concat(cs[..Fit(cs, width)])|)
  }

  /** The chunks of one line, the trailing blank not yet dropped: what fits, and the beginning of a chunk
      that no line can hold. */
  function LineChunks(cs: seq<string>, width: nat): (line: seq<string>) {
    var n := Fit(cs, width);
    if n < |cs| && |cs[n]| > width then cs[..n] + [cs[n][..Cut(cs, width)]] else cs[..n]
  }

  function LeftOver(cs: seq<string>, width: nat): (rest: seq<string>) {
    var n := Fit(cs, width);
    if n < |cs| && |cs[n]| > width then [cs[n][Cut(cs, width)..]] + cs[n + 1..] else cs[n..]
  }

  lemma CutIsShorter(chunk: string, used: nat, after: seq<string>)
    requires used < |chunk|
    ensures |Concat([chunk[used..]] + after)| == |Concat([chunk] + after)| - used
  {
    assert ([chunk[used..]] + after)[1..] == after && ([chunk] + after)[1..] == after;
  }

  lemma LeftOverIsShorter(cs: seq<string>, width: nat)
    requires width > 0 && AllNonEmpty(cs)
    ensures AllNonEmpty(LeftOver(cs, width))
    ensures cs != [] ==> |Concat(LeftOver(cs, width))| < |Concat(cs)|
  {
    var n := Fit(cs, width);
    ConcatSplit(cs, n);
    if n < |cs| {
      assert cs[n..] == [cs[n]] + cs[n + 1..];
      if |cs[n]| > width { CutIsShorter(cs[n], Cut(cs, width), cs[n + 1..]); }
      if n > 0 { assert cs[..n][0] == cs[0]; }
    }
  }

  function WithoutTrailingBlank(line: seq<string>): (kept: seq<string>) {
    if line != [] && IsBlank(line[|line| - 1]) then line[..|line| - 1] else line
  }

  function WithoutLeadingBlank(cs: seq<string>): (body: seq<string>)
    ensures AllNonEmpty(cs) ==> AllNonEmpty(body)
    ensures |Concat(body)| <= |Concat(cs)|
  {
    if cs != [] && IsBlank(cs[0]) then cs[1..] else cs
  }

  /** The lines of the wrapped chunks; white space is dropped at the start of every line but the first, and
      at the end of every line. */
  function Wrap(cs: seq<string>, width: nat, first: bool): (lines: seq<string>)
    requires width > 0 && AllNonEmpty(cs)
    decreases |Concat(cs)|
  {
    var body := if first then cs else WithoutLeadingBlank(cs);
    if body == [] then []
    else
      var line := WithoutTrailingBlank(LineChunks(body, width));
      LeftOverIsShorter(body, width);
      var rest := Wrap(LeftOver(body, width), width, first && line == []);
      if line == [] then rest else [Concat(line)] + rest
  }

  /** A cell's lines: at least one, empty for an empty cell. */
  function WrapCell(breaks: Breaks, text: string, width: nat): (lines: seq<string>)
    requires width > 0
    ensures lines != []
  {
    if text == "" then [""]
    else
      var lines := Wrap(Chunks(breaks, text), width, true);
      if lines == [] then [""] else lines
  }

  /** A line holds as many chunks as fit; when the next one fits on no line, a line is filled with as much of it as
      the cut allows, and to the full when no hyphen is in the way. */
  lemma LineIsFilled(cs: seq<string>, width: nat)
    ensures var n, line := Fit(cs, width), Concat(LineChunks(cs, width));
      && |Concat(cs[..n])| <= width && (n < |cs| ==> |Concat(cs[..n])| + |cs[n]| > width)
      && (n < |cs| && |cs[n]| > width ==>
            && |line| == |Concat(cs[..n])| + CutAt(cs[n], width - |Concat(cs[..n])|)
            && ('-' !in cs[n] ==> |line| == width))
  {
    var n := Fit(cs, width);
    FitFacts(cs, width);
    if n < |cs| && |cs[n]| > width {
      var piece := cs[n][..Cut(cs, width)];
      ConcatAppend(cs[..n], [piece]);
      assert Concat([piece]) == piece + "";
      if '-' !in cs[n] { CutWithoutHyphen(cs[n], width - |Concat(cs[..n])|); }
    }
  }

  // ---------------------------------------------------------------- no line is too wide

  ghost predicate LinesFit(lines: seq<string>, width: nat) {
    forall i :: 0 <= i < |lines| ==> |lines[i]| <= width
  }

  lemma LineFits(cs: seq<string>, width: nat)
    ensures |Concat(WithoutTrailingBlank(LineChunks(cs, width)))| <= width
  {
    var n, line := Fit(cs, width), LineChunks(cs, width);
    FitFacts(cs, width);
    if n < |cs| && |cs[n]| > width { CutFits(cs[..n], cs[n][..Cut(cs, width)]); }
    if line != [] { ConcatSplit(line, |line| - 1); }
  }

  lemma CutFits(line: seq<string>, piece: string)
    ensures |Concat(line + [piece])| == |Concat(line)| + |piece|
  {
    ConcatAppend(line, [piece]);
  }

  lemma {:induction false} WrapFits(cs: seq<string>, width: nat, first: bool)
    requires width > 0 && AllNonEmpty(cs)
    ensures LinesFit(Wrap(cs, width, first), width)
    decreases |Concat(cs)|
  {
    var body := if first then cs else WithoutLeadingBlank(cs);
    if body != [] {
      var line := WithoutTrailingBlank(LineChunks(body, width));
      LeftOverIsShorter(body, width);
      LineFits(body, width);
      WrapFits(LeftOver(body, width), width, first && line == []);
    }
  }

  /** No line of a cell is wider than its column. */
  lemma CellFits(breaks: Breaks, text: string, width: nat)
    requires width > 0
    ensures LinesFit(WrapCell(breaks, text, width), width)
  {
    WrapFits(Chunks(breaks, text), width, true);
  }
}
