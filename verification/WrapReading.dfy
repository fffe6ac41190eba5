/** What reading a wrapped cell back gives: the lines' trimmed texts, joined by single spaces. */
module WrapReading {
  import opened Text
  import opened TextWrap

  /** A line's text, if it has any. */
  function TextOf(piece: string): (texts: seq<string>) {
    if Strip(piece) == "" then [] else [Strip(piece)]
  }

  /** The trimmed pieces that are not empty, in order. */
  function Texts(pieces: seq<string>): (texts: seq<string>) {
    if pieces == [] then [] else Texts(pieces[..|pieces| - 1]) + TextOf(pieces[|pieces| - 1])
  }

  /** What the parser makes of a cell's lines. */
  function ReadBack(lines: seq<string>): (text: string) {
    Sentence(Texts(lines))
  }

  lemma TextsSnoc(pieces: seq<string>, piece: string)
    ensures Texts(pieces + [piece]) == Texts(pieces) + TextOf(piece)
  {
    assert (pieces + [piece])[..|pieces|] == pieces;
  }

  lemma ConsSnoc<T>(x: T, s: seq<T>)
    requires s != []
    ensures [x] + s == ([x] + s[..|s| - 1]) + [s[|s| - 1]] && s == s[..|s| - 1] + [s[|s| - 1]]
  {
  }

  lemma {:induction false} TextsCons(piece: string, pieces: seq<string>)
    ensures Texts([piece] + pieces) == TextOf(piece) + Texts(pieces)
  {
    if |pieces| == 0 {
      TextsSnoc([], piece);
      assert [] + [piece] == [piece] == [piece] + pieces;
    } else {
      var front, last := pieces[..|pieces| - 1], pieces[|pieces| - 1];
      TextsCons(piece, front);
      ConsSnoc(piece, pieces);
      TextsSnoc([piece] + front, last);
      TextsSnoc(front, last);
    }
  }

  lemma ReadBackCons(line: string, lines: seq<string>, text: string)
    requires Strip(line) == text != "" && Texts(lines) != []
    ensures Texts([line] + lines) != [] && ReadBack([line] + lines) == text + [' '] + ReadBack(lines)
  {
    TextsCons(line, lines);
    assert ([text] + Texts(lines))[1..] == Texts(lines);
  }

  lemma ReadBackOne(line: string)
    requires Strip(line) == line != ""
    ensures Texts([line]) == [line] && ReadBack([line]) == line
  {
    TextsSnoc([], line);
    assert [] + [line] == [line];
  }

  // ---------------------------------------------------------------- words laid out in parts

  /** Words in parts: every word has some, and none is empty or holds white space. */
  ghost predicate AreBroken(words: seq<seq<string>>) {
    forall i :: 0 <= i < |words| ==> words[i] != [] && AreWords(words[i])
  }

  /** The parts of the words, with a space between two words. */
  function Laid(words: seq<seq<string>>): (cs: seq<string>) {
    if words == [] then [] else if |words| == 1 then words[0] else words[0] + [" "] + Laid(words[1..])
  }

  /** The words' text. */
  function TextAt(words: seq<seq<string>>): (text: string) {
    Concat(Laid(words))
  }

  lemma {:induction false} LaidSplit(words: seq<seq<string>>, k: nat)
    requires 1 <= k < |words|
    ensures Laid(words) == Laid(words[..k]) + [" "] + Laid(words[k..])
  {
    if k == 1 {
      assert words[..1] == [words[0]];
    } else {
      LaidSplit(words[1..], k - 1);
      assert words[1..][..k - 1] == words[..k][1..] && words[1..][k - 1..] == words[k..];
      assert words[..k][0] == words[0];
    }
  }

  lemma TextSplit(words: seq<seq<string>>, k: nat)
    requires 1 <= k < |words|
    ensures TextAt(words) == TextAt(words[..k]) + " " + TextAt(words[k..])
  {
    LaidSplit(words, k);
    ConcatAppend(Laid(words[..k]) + [" "], Laid(words[k..]));
    ConcatAppend(Laid(words[..k]), [" "]);
    assert Concat([" "]) == " ";
  }

  /** Text that begins and ends with characters that are not white space. */
  predicate IsSolid(s: string) {
    s != "" && !IsSpace(s[0]) && !IsSpace(s[|s| - 1])
  }

  lemma SolidConcat(a: string, middle: string, b: string)
    requires IsSolid(a) && IsSolid(b)
    ensures IsSolid(a + middle + b)
  {
  }

  lemma {:induction false} PartsAreSolid(parts: seq<string>)
    requires parts != [] && AreWords(parts)
    ensures IsSolid(Concat(parts)) && AllNonEmpty(parts)
  {
    assert IsWord(parts[0]);
    if |parts| == 1 {
      assert Concat(parts) == parts[0] + "";
    } else {
      PartsAreSolid(parts[1..]);
      SolidConcat(parts[0], "", Concat(parts[1..]));
      assert parts[0] + "" == parts[0];
      assert parts == [parts[0]] + parts[1..];
    }
  }

  lemma {:induction false} TextIsSolid(words: seq<seq<string>>)
    requires words != [] && AreBroken(words)
    ensures IsSolid(TextAt(words)) && AllNonEmpty(Laid(words))
  {
    PartsAreSolid(words[0]);
    if |words| > 1 {
      TextIsSolid(words[1..]);
      TextSplit(words, 1);
      assert words[..1] == [words[0]];
      SolidConcat(Concat(words[0]), " ", TextAt(words[1..]));
    }
  }

  lemma LaidIsSound(words: seq<seq<string>>)
    requires AreBroken(words)
    ensures AllNonEmpty(Laid(words))
  {
    if words != [] { TextIsSolid(words); }
  }

  // ---------------------------------------------------------------- when no word is split

  /** How many of the first n words fit a line together. */
  function WholeUpTo(words: seq<seq<string>>, width: nat, n: nat): (k: nat)
    requires n <= |words|
    ensures k <= n
  {
    if n == 0 || |TextAt(words[..n])| <= width then n else WholeUpTo(words, width, n - 1)
  }

  function Whole(words: seq<seq<string>>, width: nat): (k: nat)
    ensures k <= |words|
  {
    WholeUpTo(words, width, |words|)
  }

  lemma {:induction false} WholeFacts(words: seq<seq<string>>, width: nat, n: nat)
    requires n <= |words|
    ensures var k := WholeUpTo(words, width, n);
      |TextAt(words[..k])| <= width && (k < n ==> |TextAt(words[..k + 1])| > width)
  {
    if n > 0 && |TextAt(words[..n])| > width { WholeFacts(words, width, n - 1); }
  }

  /** Filling every line with as many whole words as fit, there is always one that fits, and what room is left
      is too little for the first part of the next. */
  predicate SplitsNone(words: seq<seq<string>>, width: nat)
    decreases |words|
  {
    var k := Whole(words, width);
    k == |words|
    || (k > 0 && words[k] != [] && |TextAt(words[..k])| + 1 + |words[k][0]| > width && SplitsNone(words[k..], width))
  }

  // ---------------------------------------------------------------- the end of a line

  lemma {:induction false} FitAfter(a: seq<string>, b: seq<string>, room: nat)
    requires |Concat(a)| <= room
    ensures Fit(a + b, room) == |a| + Fit(b, room - |Concat(a)|)
  {
    if |a| == 0 {
      assert a + b == b;
    } else {
      FitAfter(a[1..], b, room - |a[0]|);
      assert (a + b)[1..] == a[1..] + b;
    }
  }

  lemma {:induction false} FitWithin(a: seq<string>, b: seq<string>, room: nat)
    requires |Concat(a)| > room
    ensures Fit(a + b, room) == Fit(a, room) < |a|
  {
    if |a[0]| <= room {
      FitWithin(a[1..], b, room - |a[0]|);
      assert (a + b)[1..] == a[1..] + b;
    }
  }

  lemma Around<T>(before: seq<T>, x: T, after: seq<T>)
    ensures var all := before + [x] + after;
      && all[..|before|] == before && all[|before|] == x
      && all[|before|..] == [x] + after && all[|before| + 1..] == after
  {
  }

  lemma Regroup(done: seq<string>, parts: seq<string>, more: seq<string>, j: nat)
    requires j < |parts|
    ensures done + parts + more == done + (parts + more)
    ensures done + parts + more == (done + parts[..j]) + [parts[j]] + (parts[j + 1..] + more)
    ensures parts == parts[..j] + [parts[j]] + parts[j + 1..]
  {
  }

  /** A line that ends within a word's parts: where in the parts, and in which of them. */
  lemma PartAtEnd(done: seq<string>, parts: seq<string>, more: seq<string>, width: nat)
    returns (fitting: seq<string>, part: string, later: seq<string>)
    requires |Concat(done)| <= width < |Concat(done)| + |Concat(parts)|
    ensures parts == fitting + [part] + later
    ensures Fit(done + parts + more, width) == |done + fitting|
    ensures done + parts + more == (done + fitting) + [part] + (later + more)
    ensures |Concat(done + fitting)| == |Concat(done)| + |Concat(fitting)| <= width
    ensures |Concat(done)| + |Concat(fitting)| + |part| > width
  {
    var room := width - |Concat(done)|;
    var j := Fit(parts, room);
    FitWithin(parts, more, room);
    FitAfter(done, parts + more, width);
    FitFacts(parts, room);
    fitting, part, later := parts[..j], parts[j], parts[j + 1..];
    ConcatAppend(done, fitting);
    Regroup(done, parts, more, j);
  }

  lemma ConcatLast(a: seq<string>, x: string)
    ensures Concat(a + [x]) == Concat(a) + x
  {
    ConcatAppend(a, [x]);
    assert Concat([x]) == x;
  }

  lemma ConcatFirst(x: string, b: seq<string>)
    ensures Concat([x] + b) == x + Concat(b)
  {
    assert ([x] + b)[1..] == b;
  }

  lemma ConcatAround(a: seq<string>, x: string, b: seq<string>)
    ensures Concat(a + [x] + b) == Concat(a) + x + Concat(b)
  {
    ConcatAppend(a + [x], b);
    ConcatLast(a, x);
  }

  lemma CutAndJoin(before: string, part: string, used: nat, after: string)
    requires used <= |part|
    ensures (before + part[..used]) + (part[used..] + after) == before + part + after
  {
  }

  lemma ConcatPieces(fitting: seq<string>, part: string, used: nat, later: seq<string>)
    requires used <= |part|
    ensures Concat(fitting + [part[..used]]) + Concat([part[used..]] + later) == Concat(fitting + [part] + later)
  {
    ConcatLast(fitting, part[..used]);
    ConcatFirst(part[used..], later);
    ConcatAround(fitting, part, later);
    CutAndJoin(Concat(fitting), part, used, Concat(later));
  }

  /** What a line takes of a word's parts, and what it leaves. */
  datatype Division = Division(front: seq<string>, back: seq<string>)

  ghost predicate IsSplitOf(split: Division, parts: seq<string>) {
    && AreWords(split.front) && AreWords(split.back) && split.back != []
    && Concat(split.front) + Concat(split.back) == Concat(parts)
    && (split.front == [] ==> split.back == parts)
  }

  /** The line and the rest, when the line ends within the word: a blank chunk comes after what it takes when a
      part that no line can hold meets a full line. */
  ghost predicate EndsWithin(cs: seq<string>, width: nat, done: seq<string>, split: Division, more: seq<string>) {
    && LeftOver(cs, width) == split.back + more
    && (LineChunks(cs, width) == done + split.front
        || (LineChunks(cs, width) == done + split.front + [""] && split.back != [] && |split.back[0]| > width))
  }

  lemma WordsAround(fitting: seq<string>, part: string, later: seq<string>)
    requires AreWords(fitting + [part] + later)
    ensures AreWords(fitting) && IsWord(part) && AreWords(later) && AreWords([part] + later)
  {
    var all := fitting + [part] + later;
    assert IsWord(all[|fitting|]);
    forall i | 0 <= i < |fitting| ensures IsWord(fitting[i]) { assert fitting[i] == all[i]; }
    forall i | 0 <= i < |later| ensures IsWord(later[i]) { assert later[i] == all[|fitting| + 1 + i]; }
  }

  lemma CutWord(fitting: seq<string>, part: string, used: nat, later: seq<string>, parts: seq<string>)
    requires AreWords(parts) && parts == fitting + [part] + later && 0 < used < |part|
    ensures IsSplitOf(Division(fitting + [part[..used]], [part[used..]] + later), parts)
  {
    WordsAround(fitting, part, later);
    ConcatPieces(fitting, part, used, later);
  }

  lemma KeepPart(fitting: seq<string>, part: string, later: seq<string>, parts: seq<string>)
    requires AreWords(parts) && parts == fitting + [part] + later
    ensures IsSplitOf(Division(fitting, [part] + later), parts)
  {
    WordsAround(fitting, part, later);
    ConcatAppend(fitting, [part] + later);
    assert fitting + [part] + later == fitting + ([part] + later);
    if fitting == [] { assert fitting + ([part] + later) == [part] + later; }
  }

  /** The line's end, at the part that does not fit. */
  lemma EndAtPart(cs: seq<string>, width: nat, done: seq<string>, fitting: seq<string>, part: string, later: seq<string>,
                  more: seq<string>, parts: seq<string>) returns (split: Division)
    requires AreWords(parts) && parts == fitting + [part] + later
    requires cs == (done + fitting) + [part] + (later + more) && Fit(cs, width) == |done + fitting|
    requires |Concat(done + fitting)| <= width < |Concat(done + fitting)| + |part|
    ensures IsSplitOf(split, parts) && EndsWithin(cs, width, done, split, more)
    ensures split.front == [] <==> fitting == [] && (|part| <= width || |Concat(done)| == width)
  {
    Around(done + fitting, part, later + more);
    if |part| <= width {
      split := Division(fitting, [part] + later);
      KeepPart(fitting, part, later, parts);
      assert [part] + (later + more) == [part] + later + more;
    } else {
      var used := Cut(cs, width);
      assert [part[used..]] + (later + more) == [part[used..]] + later + more;
      if fitting == [] { assert done + fitting == done; }
      if used > 0 {
        split := Division(fitting + [part[..used]], [part[used..]] + later);
        CutWord(fitting, part, used, later, parts);
        assert (done + fitting) + [part[..used]] == done + (fitting + [part[..used]]);
      } else {
        split := Division(fitting, [part] + later);
        KeepPart(fitting, part, later, parts);
        assert part[..0] == "" && part[0..] == part;
      }
    }
  }

  lemma FirstPart(fitting: seq<string>, part: string, later: seq<string>, parts: seq<string>, done: nat, width: nat)
    requires parts == fitting + [part] + later && done + |Concat(fitting)| <= width < done + |Concat(fitting)| + |part|
    ensures fitting == [] <==> done + |parts[0]| > width
    ensures fitting == [] ==> parts[0] == part
  {
    if fitting != [] {
      assert parts[0] == fitting[0];
      assert |fitting[0]| <= |Concat(fitting)|;
    }
  }

  /** A line that ends within a word: the word's first part is not on it exactly when it has no room, and is not
      cut to fill what room there is. */
  lemma SplitLine(cs: seq<string>, done: seq<string>, parts: seq<string>, more: seq<string>, width: nat) returns (split: Division)
    requires AreWords(parts) && parts != [] && cs == done + parts + more
    requires |Concat(done)| <= width < |Concat(done)| + |Concat(parts)|
    ensures IsSplitOf(split, parts) && EndsWithin(cs, width, done, split, more)
    ensures split.front == []
      <==> |Concat(done)| + |parts[0]| > width && (|parts[0]| <= width || |Concat(done)| == width)
  {
    var fitting, part, later := PartAtEnd(done, parts, more, width);
    FirstPart(fitting, part, later, parts, |Concat(done)|, width);
    split := EndAtPart(cs, width, done, fitting, part, later, more, parts);
  }

  // ---------------------------------------------------------------- line by line

  /** The wrapped lines of words in parts. */
  function Lines(words: seq<seq<string>>, width: nat): (lines: seq<string>)
    requires width > 0 && AllNonEmpty(Laid(words))
  {
    Wrap(Laid(words), width, true)
  }

  lemma WordIsNotBlank(w: string)
    requires IsWord(w)
    ensures !IsBlank(w)
  {
    assert !IsSpace(w[0]);
  }

  lemma LaidBegins(words: seq<seq<string>>)
    requires words != [] && AreBroken(words)
    ensures Laid(words) != [] && IsWord(Laid(words)[0]) && !IsBlank(Laid(words)[0])
  {
    assert IsWord(words[0][0]);
    WordIsNotBlank(words[0][0]);
  }

  /** One unfolding of the wrapper. */
  lemma OneLine(cs: seq<string>, width: nat, line: seq<string>, rest: seq<string>)
    requires width > 0 && AllNonEmpty(cs) && cs != []
    requires line == WithoutTrailingBlank(LineChunks(cs, width)) && line != [] && rest == LeftOver(cs, width)
    ensures AllNonEmpty(rest) && Wrap(cs, width, true) == [Concat(line)] + Wrap(rest, width, false)
  {
    LeftOverIsShorter(cs, width);
  }

  lemma SameBody(cs: seq<string>, other: seq<string>, width: nat)
    requires width > 0 && AllNonEmpty(cs) && AllNonEmpty(other)
    requires WithoutLeadingBlank(cs) == WithoutLeadingBlank(other)
    ensures Wrap(cs, width, false) == Wrap(other, width, false)
  {
  }

  lemma LeadingBlankGoes(cs: seq<string>)
    ensures WithoutLeadingBlank([" "] + cs) == cs
  {
    assert IsSpace(' ') && IsBlank(" ");
  }

  /** The first chunks' line is not empty when they begin with a word. */
  lemma FirstLineHolds(cs: seq<string>, width: nat)
    requires width > 0 && cs != [] && IsWord(cs[0])
    ensures WithoutTrailingBlank(LineChunks(cs, width)) != []
  {
    var line := LineChunks(cs, width);
    assert line != [] && line[0] != "" && line[0][0] == cs[0][0];
    assert !IsBlank(line[0]) by { assert !IsSpace(line[0][0]); }
  }

  lemma FirstIsIrrelevant(cs: seq<string>, width: nat)
    requires width > 0 && AllNonEmpty(cs) && cs != [] && IsWord(cs[0])
    ensures Wrap(cs, width, true) == Wrap(cs, width, false)
  {
    FirstLineHolds(cs, width);
    WordIsNotBlank(cs[0]);
  }

  /** After a line, the words that are left are wrapped as if they came first; the space before them goes. */
  lemma AfterTheBreak(words: seq<seq<string>>, width: nat)
    requires words != [] && AreBroken(words) && width > 0
    ensures AllNonEmpty(Laid(words)) && AllNonEmpty([" "] + Laid(words))
    ensures Wrap(Laid(words), width, false) == Lines(words, width)
    ensures Wrap([" "] + Laid(words), width, false) == Lines(words, width)
  {
    var cs := Laid(words);
    LaidIsSound(words);
    LaidBegins(words);
    FirstIsIrrelevant(cs, width);
    LeadingBlankGoes(cs);
    SameBody([" "] + cs, cs, width);
  }

  /** The kinds of lines: between two words, with or without the space after the line; and inside a word. */
  datatype Break = AtEnd | Between | Inside(rest: seq<seq<string>>)

  ghost predicate IsFirstLine(words: seq<seq<string>>, width: nat, k: nat, kind: Break, line: string)
    requires width > 0 && k <= |words|
  {
    && AllNonEmpty(Laid(words))
    && match kind
       case AtEnd => k == |words| && line == TextAt(words) && Lines(words, width) == [line]
       case Between =>
         && 1 <= k < |words| && (line == TextAt(words[..k]) || line == TextAt(words[..k]) + " ")
         && AllNonEmpty(Laid(words[k..])) && Lines(words, width) == [line] + Lines(words[k..], width)
       case Inside(rest) =>
         && rest != [] && AreBroken(rest) && IsSolid(line) && TextAt(words) == line + TextAt(rest)
         && AllNonEmpty(Laid(rest)) && Lines(words, width) == [line] + Lines(rest, width)
  }

  lemma LineThen(words: seq<seq<string>>, tail: seq<seq<string>>, width: nat, line: seq<string>)
    requires words != [] && AreBroken(words) && tail != [] && AreBroken(tail) && width > 0
    requires line == WithoutTrailingBlank(LineChunks(Laid(words), width)) && line != []
    requires LeftOver(Laid(words), width) == Laid(tail) || LeftOver(Laid(words), width) == [" "] + Laid(tail)
    ensures AllNonEmpty(Laid(words)) && AllNonEmpty(Laid(tail))
    ensures Lines(words, width) == [Concat(line)] + Lines(tail, width)
  {
    LaidIsSound(words);
    LaidBegins(words);
    AfterTheBreak(tail, width);
    OneLine(Laid(words), width, line, LeftOver(Laid(words), width));
  }

  lemma DropBlank(line: seq<string>, last: string)
    ensures WithoutTrailingBlank(line + [last]) == if IsBlank(last) then line else line + [last]
  {
    assert (line + [last])[..|line|] == line;
  }

  lemma KeepWords(done: seq<string>, front: seq<string>)
    requires front != [] && AreWords(front)
    ensures WithoutTrailingBlank(done + front) == done + front
    ensures WithoutTrailingBlank(done + front + [""]) == done + front
  {
    WordIsNotBlank(front[|front| - 1]);
    DropBlank(done + front, "");
  }

  lemma DropSpace(head: seq<string>)
    ensures WithoutTrailingBlank(head + [" "]) == head
    ensures WithoutTrailingBlank(head + [" "] + [""]) == head + [" "]
  {
    assert IsSpace(' ') && IsBlank(" ") && IsBlank("");
    DropBlank(head, " ");
    DropBlank(head + [" "], "");
  }

  lemma LastIsWord(words: seq<seq<string>>)
    requires words != [] && AreBroken(words)
    ensures WithoutTrailingBlank(Laid(words)) == Laid(words) != []
  {
    var last := words[|words| - 1];
    if |words| == 1 {
      KeepWords([], last);
      assert [] + last == last;
    } else {
      var k := |words| - 1;
      LaidSplit(words, k);
      assert words[k..] == [last];
      KeepWords(Laid(words[..k]) + [" "], last);
    }
  }

  /** All words on one line. */
  lemma AllFit(words: seq<seq<string>>, width: nat)
    requires words != [] && AreBroken(words) && width > 0 && |TextAt(words)| <= width
    ensures IsFirstLine(words, width, |words|, AtEnd, TextAt(words))
  {
    var cs := Laid(words);
    LaidIsSound(words);
    LastIsWord(words);
    FitAfter(cs, [], width);
    assert cs + [] == cs && cs[..|cs|] == cs && cs[|cs|..] == [];
    OneLine(cs, width, cs, []);
  }

  lemma Slices(words: seq<seq<string>>, k: nat)
    requires k < |words| && AreBroken(words)
    ensures AreBroken(words[..k]) && AreBroken(words[k..]) && AreBroken(words[k + 1..])
    ensures words[k] != [] && AreWords(words[k]) && words[k..] == [words[k]] + words[k + 1..]
  {
  }

  /** What follows a word. */
  function After(words: seq<seq<string>>): (cs: seq<string>) {
    if words == [] then [] else [" "] + Laid(words)
  }

  lemma LaidAt(word: seq<string>, later: seq<seq<string>>)
    ensures Laid([word] + later) == word + After(later)
  {
    if later == [] {
      assert word + [] == word;
    } else {
      assert ([word] + later)[1..] == later;
      assert word + [" "] + Laid(later) == word + ([" "] + Laid(later));
    }
  }

  lemma TextAtFirst(word: seq<string>, later: seq<seq<string>>)
    ensures TextAt([word] + later) == Concat(word) + Concat(After(later))
  {
    LaidAt(word, later);
    ConcatAppend(word, After(later));
  }

  lemma {:induction false} FrontIsSolid(front: seq<string>, before: string, line: string)
    requires front != [] && AreWords(front) && line == before + Concat(front)
    requires before == "" || (IsSolid(before[..|before| - 1]) && before[|before| - 1] == ' ')
    ensures IsSolid(line)
  {
    PartsAreSolid(front);
    if before == "" {
      assert line == Concat(front);
    } else {
      SolidConcat(before[..|before| - 1], " ", Concat(front));
      assert before == before[..|before| - 1] + " ";
    }
  }

  /** The chunks of a line up to the word at its end. */
  function Before(words: seq<seq<string>>): (cs: seq<string>) {
    if words == [] then [] else Laid(words) + [" "]
  }

  lemma Associate<T>(a: seq<T>, b: seq<T>, c: seq<T>)
    ensures a + (b + c) == a + b + c
  {
  }

  lemma LaidAroundLater(words: seq<seq<string>>, k: nat)
    requires 1 <= k < |words|
    ensures Laid(words) == Before(words[..k]) + (words[k] + After(words[k + 1..]))
  {
    LaidSplit(words, k);
    LaidAt(words[k], words[k + 1..]);
    assert words[k..] == [words[k]] + words[k + 1..];
  }

  lemma LaidAround(words: seq<seq<string>>, k: nat)
    requires k < |words|
    ensures Laid(words) == Before(words[..k]) + words[k] + After(words[k + 1..])
  {
    if k > 0 {
      LaidAroundLater(words, k);
      Associate(Before(words[..k]), words[k], After(words[k + 1..]));
    } else {
      LaidAt(words[0], words[1..]);
      assert words == [words[0]] + words[1..] && words[..0] == [];
      assert [] + words[0] == words[0];
    }
  }

  lemma BeforeText(words: seq<seq<string>>)
    requires AreBroken(words)
    ensures var before := Concat(Before(words));
      && |before| == (if words == [] then 0 else |TextAt(words)| + 1)
      && (before == "" || (IsSolid(before[..|before| - 1]) && before[|before| - 1] == ' '))
  {
    if words != [] {
      TextIsSolid(words);
      ConcatLast(Laid(words), " ");
      assert (TextAt(words) + " ")[..|TextAt(words)|] == TextAt(words);
    }
  }

  // ---------------------------------------------------------------- the first line

  /** The first k words fill the line exactly: the space after them goes to the next. */
  lemma FullLine(words: seq<seq<string>>, width: nat, k: nat)
    requires AreBroken(words) && 1 <= k < |words| && |TextAt(words[..k])| == width > 0
    ensures IsFirstLine(words, width, k, Between, TextAt(words[..k]))
  {
    var head := Laid(words[..k]);
    Slices(words, k);
    LaidSplit(words, k);
    LaidIsSound(words);
    FitAfter(head, [" "] + Laid(words[k..]), width);
    Associate(head, [" "], Laid(words[k..]));
    assert Laid(words)[..|head|] == head && Laid(words)[|head|..] == [" "] + Laid(words[k..]);
    assert Laid(words)[|head|] == " ";
    LastIsWord(words[..k]);
    LineThen(words, words[k..], width, head);
  }

  /** The next word's parts do not fit after the space: the line ends between the words. */
  lemma LineBetween(words: seq<seq<string>>, width: nat, k: nat, split: Division) returns (line: string)
    requires AreBroken(words) && 1 <= k < |words| && width > 0 && IsSplitOf(split, words[k]) && split.front == []
    requires EndsWithin(Laid(words), width, Before(words[..k]), split, After(words[k + 1..]))
    ensures IsFirstLine(words, width, k, Between, line)
    ensures line == TextAt(words[..k]) || |words[k][0]| > width
  {
    var head := Laid(words[..k]);
    Slices(words, k);
    LaidIsSound(words);
    LaidAt(words[k], words[k + 1..]);
    DropSpace(head);
    LastIsWord(words[..k]);
    ConcatLast(head, " ");
    assert head + [" "] + [] == head + [" "];
    var chunks := WithoutTrailingBlank(LineChunks(Laid(words), width));
    line := Concat(chunks);
    LineThen(words, words[k..], width, chunks);
  }

  lemma RestIsBroken(words: seq<seq<string>>, k: nat, split: Division, rest: seq<seq<string>>)
    requires AreBroken(words) && k < |words| && IsSplitOf(split, words[k]) && rest == [split.back] + words[k + 1..]
    ensures rest != [] && AreBroken(rest) && Laid(rest) == split.back + After(words[k + 1..])
  {
    Slices(words, k);
    LaidAt(split.back, words[k + 1..]);
  }

  lemma LineIsSolid(words: seq<seq<string>>, k: nat, front: seq<string>, line: string)
    requires AreBroken(words) && k < |words| && front != [] && AreWords(front)
    requires line == Concat(Before(words[..k])) + Concat(front)
    ensures IsSolid(line)
  {
    Slices(words, k);
    BeforeText(words[..k]);
    FrontIsSolid(front, Concat(Before(words[..k])), line);
  }

  /** Some of the next word's parts, or part of one, fit: the line ends inside the word. */
  lemma LineInside(words: seq<seq<string>>, width: nat, k: nat, split: Division) returns (line: string, rest: seq<seq<string>>)
    requires AreBroken(words) && k < |words| && width > 0 && IsSplitOf(split, words[k]) && split.front != []
    requires EndsWithin(Laid(words), width, Before(words[..k]), split, After(words[k + 1..]))
    ensures IsFirstLine(words, width, k, Inside(rest), line)
  {
    var done := Before(words[..k]);
    rest := [split.back] + words[k + 1..];
    line := Concat(done) + Concat(split.front);
    RestIsBroken(words, k, split, rest);
    KeepWords(done, split.front);
    LineThen(words, rest, width, done + split.front);
    ConcatAppend(done, split.front);
    LineIsSolid(words, k, split.front, line);
    InsideText(words, k, split, line, rest);
  }

  lemma TextAround(words: seq<seq<string>>, k: nat)
    requires k < |words|
    ensures TextAt(words) == Concat(Before(words[..k])) + Concat(words[k]) + Concat(After(words[k + 1..]))
  {
    LaidAround(words, k);
    ConcatAppend(Before(words[..k]) + words[k], After(words[k + 1..]));
    ConcatAppend(Before(words[..k]), words[k]);
  }

  lemma Shift(a: string, b: string, c: string, d: string)
    ensures a + (b + c) + d == (a + b) + (c + d)
  {
  }

  lemma InsideText(words: seq<seq<string>>, k: nat, split: Division, line: string, rest: seq<seq<string>>)
    requires k < |words| && IsSplitOf(split, words[k]) && rest == [split.back] + words[k + 1..]
    requires line == Concat(Before(words[..k])) + Concat(split.front)
    ensures TextAt(words) == line + TextAt(rest)
  {
    TextAround(words, k);
    TextAtFirst(split.back, words[k + 1..]);
    Shift(Concat(Before(words[..k])), Concat(split.front), Concat(split.back), Concat(After(words[k + 1..])));
  }

  /** A word whose first part no line can hold is split wherever it comes. */
  lemma LongPartIsSplit(words: seq<seq<string>>, width: nat)
    requires AreBroken(words) && words != [] && |words[0][0]| > width
    ensures !SplitsNone(words, width)
  {
    var k := Whole(words, width);
    WholeFacts(words, width, |words|);
    if k > 0 {
      assert words[..k][0] == words[0];
      FirstPartWithin(words[..k]);
    }
  }

  lemma FirstPartWithin(words: seq<seq<string>>)
    requires words != [] && words[0] != []
    ensures |words[0][0]| <= |TextAt(words)|
  {
    TextAtFirst(words[0], words[1..]);
    assert words == [words[0]] + words[1..];
  }

  /** How the first line of some words ends, and what that says about whether a word is split. */
  ghost predicate TellsSplit(words: seq<seq<string>>, width: nat, k: nat, kind: Break, line: string)
    requires k <= |words|
  {
    match kind
    case AtEnd => SplitsNone(words, width)
    case Between =>
      && (SplitsNone(words, width) <==> SplitsNone(words[k..], width))
      && (SplitsNone(words, width) ==> line == TextAt(words[..k]))
    case Inside(_) => !SplitsNone(words, width)
  }

  lemma OneMoreWord(words: seq<seq<string>>, k: nat)
    requires AreBroken(words) && k < |words|
    ensures |TextAt(words[..k + 1])| == |Concat(Before(words[..k]))| + |Concat(words[k])|
  {
    var more := words[..k + 1];
    assert more[..k] == words[..k] && more[k + 1..] == [];
    TextAround(more, k);
  }

  lemma NextWordIsTooLong(words: seq<seq<string>>, width: nat, k: nat)
    requires AreBroken(words) && k == Whole(words, width) < |words|
    ensures |Concat(Before(words[..k]))| <= width + 1
    ensures k == 0 ==> |Concat(Before(words[..k]))| == 0
    ensures k > 0 ==> |Concat(Before(words[..k]))| == |TextAt(words[..k])| + 1
    ensures |Concat(Before(words[..k]))| + |Concat(words[k])| > width
  {
    WholeFacts(words, width, |words|);
    Slices(words, k);
    BeforeText(words[..k]);
    OneMoreWord(words, k);
  }

  lemma FirstLine(words: seq<seq<string>>, width: nat) returns (kind: Break, line: string, k: nat)
    requires AreBroken(words) && words != [] && width > 0
    ensures k <= |words| && IsFirstLine(words, width, k, kind, line) && TellsSplit(words, width, k, kind, line)
  {
    k := Whole(words, width);
    WholeFacts(words, width, |words|);
    if k == |words| {
      assert words[..k] == words;
      AllFit(words, width);
      kind, line := AtEnd, TextAt(words);
    } else if k > 0 && |TextAt(words[..k])| == width {
      FullLine(words, width, k);
      kind, line := Between, TextAt(words[..k]);
    } else {
      kind, line := LineWithRoom(words, width, k);
    }
  }

  lemma LineWithRoom(words: seq<seq<string>>, width: nat, k: nat) returns (kind: Break, line: string)
    requires AreBroken(words) && width > 0 && k == Whole(words, width) < |words|
    requires k > 0 ==> |TextAt(words[..k])| < width
    ensures IsFirstLine(words, width, k, kind, line) && TellsSplit(words, width, k, kind, line)
  {
    Slices(words, k);
    NextWordIsTooLong(words, width, k);
    LaidAround(words, k);
    var split := SplitLine(Laid(words), Before(words[..k]), words[k], After(words[k + 1..]), width);
    if |words[k][0]| > width { LongPartIsSplit(words[k..], width); }
    if split.front == [] {
      line := LineBetween(words, width, k, split);
      kind := Between;
    } else {
      var rest;
      line, rest := LineInside(words, width, k, split);
      kind := Inside(rest);
    }
  }

  // ---------------------------------------------------------------- reading all lines

  /** What reading the words' lines back amounts to: the text itself when no word is split, and something longer
      when one is. */
  ghost predicate ReadsBack(words: seq<seq<string>>, width: nat)
    requires width > 0 && AllNonEmpty(Laid(words))
  {
    var back := ReadBack(Lines(words, width));
    && Texts(Lines(words, width)) != []
    && (if SplitsNone(words, width) then back == TextAt(words) else |back| > |TextAt(words)|)
  }

  lemma StripSolid(s: string)
    requires IsSolid(s)
    ensures Strip(s) == s && Strip(s + " ") == s
  {
    var t := s + " ";
    assert IsSpace(' ');
    TrimSolid(s, IsSpace);
    RightEndIs(t, IsSpace, |s| + 1, |s|);
    SpanIs(t, 0, |s|);
    assert t[0..|s|] == s;
  }

  lemma ReadOneLine(words: seq<seq<string>>, width: nat, k: nat, line: string)
    requires AreBroken(words) && words != [] && width > 0 && k <= |words|
    requires IsFirstLine(words, width, k, AtEnd, line) && TellsSplit(words, width, k, AtEnd, line)
    ensures ReadsBack(words, width)
  {
    TextIsSolid(words);
    StripSolid(line);
    ReadBackOne(line);
  }

  lemma ReadBetween(words: seq<seq<string>>, width: nat, k: nat, line: string)
    requires AreBroken(words) && width > 0 && 1 <= k < |words|
    requires IsFirstLine(words, width, k, Between, line) && TellsSplit(words, width, k, Between, line)
    requires ReadsBack(words[k..], width)
    ensures ReadsBack(words, width)
  {
    Slices(words, k);
    TextIsSolid(words[..k]);
    StripSolid(TextAt(words[..k]));
    ReadBackCons(line, Lines(words[k..], width), TextAt(words[..k]));
    TextSplit(words, k);
  }

  lemma ReadInside(words: seq<seq<string>>, rest: seq<seq<string>>, width: nat, k: nat, line: string)
    requires AreBroken(words) && words != [] && width > 0 && k <= |words|
    requires IsFirstLine(words, width, k, Inside(rest), line) && TellsSplit(words, width, k, Inside(rest), line)
    requires ReadsBack(rest, width)
    ensures ReadsBack(words, width)
  {
    StripSolid(line);
    ReadBackCons(line, Lines(rest, width), line);
  }

  /** Wrapping words and reading the lines back gives the text again exactly when no word is split. */
  lemma {:induction false} WrapThenRead(words: seq<seq<string>>, width: nat)
    requires AreBroken(words) && words != [] && width > 0
    ensures AllNonEmpty(Laid(words)) && ReadsBack(words, width)
    decreases |TextAt(words)|
  {
    var kind, line, k := FirstLine(words, width);
    match kind {
      case AtEnd =>
        ReadOneLine(words, width, k, line);
      case Between =>
        Slices(words, k);
        TextSplit(words, k);
        WrapThenRead(words[k..], width);
        ReadBetween(words, width, k, line);
      case Inside(rest) =>
        WrapThenRead(rest, width);
        ReadInside(words, rest, width, k, line);
    }
  }

  // ---------------------------------------------------------------- cells

  /** The words, each in its parts. */
  function Broken(breaks: Breaks, ws: seq<string>): (words: seq<seq<string>>)
    ensures |words| == |ws| && forall i :: 0 <= i < |ws| ==> words[i] == Parts(breaks, ws[i])
  {
    seq(|ws|, i requires 0 <= i < |ws| => Parts(breaks, ws[i]))
  }

  lemma {:induction false} PartsOfWord(breaks: Breaks, w: string, n: nat)
    requires IsWord(w) && n <= |w|
    ensures AreWords(PartsUpTo(breaks, w, n)) && Concat(PartsUpTo(breaks, w, n)) == w[..n]
  {
    if n > 0 {
      PartsOfWord(breaks, w, n - 1);
      var before, c := PartsUpTo(breaks, w, n - 1), [w[n - 1]];
      assert w[..n] == w[..n - 1] + c;
      OneCharacterWord(w, n - 1);
      if n == 1 || breaks(w, n - 1) {
        ConcatLast(before, c);
      } else {
        LongerLast(before, c);
      }
    }
  }

  lemma OneCharacterWord(w: string, i: nat)
    requires IsWord(w) && i < |w|
    ensures IsWord([w[i]])
  {
  }

  lemma LongerLast(parts: seq<string>, c: string)
    requires parts != [] && AreWords(parts) && IsWord(c)
    ensures var longer := parts[..|parts| - 1] + [parts[|parts| - 1] + c];
      AreWords(longer) && Concat(longer) == Concat(parts) + c
  {
    var front, last := parts[..|parts| - 1], parts[|parts| - 1];
    assert parts == front + [last] && IsWord(last);
    ConcatLast(front, last + c);
    ConcatLast(front, last);
  }

  lemma BrokenIsSound(breaks: Breaks, ws: seq<string>)
    requires AreWords(ws)
    ensures AreBroken(Broken(breaks, ws))
    ensures forall i :: 0 <= i < |ws| ==> Concat(Broken(breaks, ws)[i]) == ws[i]
  {
    forall i | 0 <= i < |ws|
      ensures Broken(breaks, ws)[i] != [] && AreWords(Broken(breaks, ws)[i]) && Concat(Broken(breaks, ws)[i]) == ws[i]
    {
      assert IsWord(ws[i]);
      PartsOfWord(breaks, ws[i], |ws[i]|);
      assert ws[i][..|ws[i]|] == ws[i];
    }
  }

  /** Filling the lines of a cell with whole words, a width always finds room for one, and never for a part of
      the next. */
  predicate SplitsNoWord(breaks: Breaks, ws: seq<string>, width: nat) {
    SplitsNone(Broken(breaks, ws), width)
  }

  // ---------------------------------------------------------------- the chunks of a sentence

  lemma {:induction false} WordRun(w: string, rest: string)
    requires IsWord(w) && (rest == "" || rest[0] == ' ')
    ensures RunLength(w + rest) == |w|
  {
    assert IsSpace(' ') && w[0] != ' ';
    if |w| > 1 {
      assert (w + rest)[1..] == w[1..] + rest && w[1] != ' ';
      WordRun(w[1..], rest);
    }
  }

  lemma WordChunks(breaks: Breaks, w: string, rest: string)
    requires IsWord(w) && (rest == "" || rest[0] == ' ')
    ensures Chunks(breaks, w + rest) == Parts(breaks, w) + Chunks(breaks, rest)
  {
    WordRun(w, rest);
    assert IsSpace(' ') && w[0] != ' ';
    assert (w + rest)[..|w|] == w && (w + rest)[|w|..] == rest;
  }

  lemma SpaceChunk(breaks: Breaks, rest: string)
    requires rest != "" && rest[0] != ' '
    ensures Chunks(breaks, [' '] + rest) == [" "] + Chunks(breaks, rest)
  {
    assert RunLength([' '] + rest) == 1;
    assert ([' '] + rest)[..1] == " " && ([' '] + rest)[1..] == rest;
  }

  lemma SentenceBegins(ws: seq<string>)
    requires AreWords(ws) && ws != []
    ensures IsWord(ws[0]) && Sentence(ws) != "" && Sentence(ws)[0] != ' '
  {
    assert IsWord(ws[0]) && IsSpace(' ');
  }

  lemma BrokenTail(breaks: Breaks, ws: seq<string>)
    requires |ws| > 1
    ensures Broken(breaks, ws)[1..] == Broken(breaks, ws[1..])
  {
  }

  /** The wrapper cuts a sentence into its words' parts and the spaces between the words. */
  lemma {:induction false} ChunksOfSentence(breaks: Breaks, ws: seq<string>)
    requires AreWords(ws)
    ensures Chunks(breaks, Sentence(ws)) == Laid(Broken(breaks, ws))
  {
    if |ws| == 1 {
      SentenceBegins(ws);
      WordChunks(breaks, ws[0], "");
      assert ws[0] + "" == ws[0] && Parts(breaks, ws[0]) + [] == Parts(breaks, ws[0]);
    } else if |ws| > 1 {
      var rest := Sentence(ws[1..]);
      SentenceBegins(ws);
      SentenceBegins(ws[1..]);
      ChunksOfSentence(breaks, ws[1..]);
      BrokenTail(breaks, ws);
      Associate(ws[0], [' '], rest);
      WordChunks(breaks, ws[0], [' '] + rest);
      SpaceChunk(breaks, rest);
      Associate(Parts(breaks, ws[0]), [" "], Chunks(breaks, rest));
    }
  }

  lemma {:induction false} SentenceText(words: seq<seq<string>>, ws: seq<string>)
    requires |words| == |ws| && forall i :: 0 <= i < |ws| ==> Concat(words[i]) == ws[i]
    ensures TextAt(words) == Sentence(ws)
  {
    if |ws| > 1 {
      SentenceText(words[1..], ws[1..]);
      TextSplit(words, 1);
      assert words[..1] == [words[0]];
    }
  }

  // ---------------------------------------------------------------- a cell and what is read of it

  /** A cell of words comes back from its wrapped lines exactly when wrapping splits no word. */
  lemma CellRoundTrip(breaks: Breaks, ws: seq<string>, width: nat)
    requires AreWords(ws) && width > 0
    ensures ReadBack(WrapCell(breaks, Sentence(ws), width)) == Sentence(ws) <==> SplitsNoWord(breaks, ws, width)
  {
    if ws == [] {
      TextsSnoc([], "");
      assert [] + [""] == [""] && Broken(breaks, ws) == [];
    } else {
      SentenceBegins(ws);
      ChunksOfSentence(breaks, ws);
      BrokenIsSound(breaks, ws);
      SentenceText(Broken(breaks, ws), ws);
      WrapThenRead(Broken(breaks, ws), width);
    }
  }

  /** Some of the words, in single-spaced order: what a line between two breaks holds. */
  ghost predicate IsExcerpt(line: string, ws: seq<string>) {
    exists from, end :: 0 <= from < end <= |ws| && line == Sentence(ws[from..end])
  }

  ghost predicate AreExcerpts(lines: seq<string>, ws: seq<string>) {
    forall i :: 0 <= i < |lines| ==> IsExcerpt(lines[i], ws)
  }

  lemma LaterExcerpts(lines: seq<string>, ws: seq<string>, k: nat)
    requires k <= |ws| && AreExcerpts(lines, ws[k..])
    ensures AreExcerpts(lines, ws)
  {
    forall i | 0 <= i < |lines| ensures IsExcerpt(lines[i], ws) {
      assert IsExcerpt(lines[i], ws[k..]);
      var from, end :| 0 <= from < end <= |ws[k..]| && lines[i] == Sentence(ws[k..][from..end]);
      assert ws[k..][from..end] == ws[k + from..k + end];
    }
  }

  lemma FirstExcerpt(line: string, lines: seq<string>, ws: seq<string>, k: nat)
    requires 1 <= k <= |ws| && line == Sentence(ws[..k]) && AreExcerpts(lines, ws[k..])
    ensures AreExcerpts([line] + lines, ws)
  {
    LaterExcerpts(lines, ws, k);
    assert ws[0..k] == ws[..k];
    assert IsExcerpt(line, ws);
  }

  /** When no word is split, the first line holds the first k words, and the rest is wrapped after it. */
  lemma FirstWords(words: seq<seq<string>>, width: nat) returns (k: nat)
    requires AreBroken(words) && words != [] && width > 0 && SplitsNone(words, width)
    ensures 1 <= k <= |words| && AllNonEmpty(Laid(words)) && AreBroken(words[k..]) && AllNonEmpty(Laid(words[k..]))
    ensures k < |words| ==> SplitsNone(words[k..], width) && |TextAt(words[k..])| < |TextAt(words)|
    ensures Lines(words, width) == [TextAt(words[..k])] + (if k == |words| then [] else Lines(words[k..], width))
  {
    var kind, line;
    kind, line, k := FirstLine(words, width);
    if k == |words| {
      assert words[..k] == words;
    } else {
      Slices(words, k);
      TextSplit(words, k);
    }
  }

  lemma {:induction false} LinesHoldWholeWords(words: seq<seq<string>>, ws: seq<string>, width: nat)
    requires AreBroken(words) && words != [] && width > 0 && SplitsNone(words, width)
    requires |words| == |ws| && forall i :: 0 <= i < |ws| ==> Concat(words[i]) == ws[i]
    ensures AllNonEmpty(Laid(words)) && AreExcerpts(Lines(words, width), ws) && Lines(words, width) != []
    decreases |TextAt(words)|
  {
    var k := FirstWords(words, width);
    SentenceText(words[..k], ws[..k]);
    if k < |words| {
      LinesHoldWholeWords(words[k..], ws[k..], width);
      FirstExcerpt(TextAt(words[..k]), Lines(words[k..], width), ws, k);
    } else {
      FirstExcerpt(TextAt(words[..k]), [], ws, k);
    }
  }

  /** When no word is split, every line of a cell holds whole words. */
  lemma CellHoldsWholeWords(breaks: Breaks, ws: seq<string>, width: nat)
    requires AreWords(ws) && ws != [] && width > 0 && SplitsNoWord(breaks, ws, width)
    ensures AreExcerpts(WrapCell(breaks, Sentence(ws), width), ws)
  {
    SentenceBegins(ws);
    ChunksOfSentence(breaks, ws);
    BrokenIsSound(breaks, ws);
    LinesHoldWholeWords(Broken(breaks, ws), ws, width);
  }

  // ---------------------------------------------------------------- when a caller can tell

  /** A cell that fits on one line is not split, whatever its break points. */
  lemma OneLineIsWhole(breaks: Breaks, ws: seq<string>, width: nat)
    requires AreWords(ws) && |Sentence(ws)| <= width
    ensures SplitsNoWord(breaks, ws, width)
  {
    var words := Broken(breaks, ws);
    BrokenIsSound(breaks, ws);
    SentenceText(words, ws);
    assert words[..|words|] == words;
  }

  ghost predicate AllShort(ws: seq<string>, width: nat) {
    forall i :: 0 <= i < |ws| ==> |ws[i]| <= width
  }

  /** The words have no break points. */
  ghost predicate Unbreakable(words: seq<seq<string>>) {
    forall i :: 0 <= i < |words| ==> |words[i]| == 1
  }

  ghost predicate AllWithin(words: seq<seq<string>>, width: nat) {
    forall i :: 0 <= i < |words| ==> |Concat(words[i])| <= width
  }

  lemma WithinTheText(words: seq<seq<string>>, width: nat)
    requires |TextAt(words)| <= width
    ensures AllWithin(words, width)
  {
    forall i | 0 <= i < |words| ensures |Concat(words[i])| <= width {
      TextAround(words, i);
    }
  }

  lemma WithinParts(words: seq<seq<string>>, width: nat, k: nat)
    requires k <= |words| && AllWithin(words[..k], width)
    ensures AllWithin(words, width) <==> AllWithin(words[k..], width)
  {
    assert words == words[..k] + words[k..];
    if AllWithin(words, width) {
      forall i | 0 <= i < |words[k..]| ensures |Concat(words[k..][i])| <= width { assert words[k..][i] == words[k + i]; }
    }
  }

  lemma OnlyPart(word: seq<string>)
    requires |word| == 1
    ensures Concat(word) == word[0]
  {
    assert word == [word[0]] && Concat(word) == word[0] + "";
  }

  lemma {:induction false} ShortWordsStayWhole(words: seq<seq<string>>, width: nat)
    requires AreBroken(words) && Unbreakable(words)
    ensures SplitsNone(words, width) <==> AllWithin(words, width)
    decreases |words|
  {
    var k := Whole(words, width);
    WholeFacts(words, width, |words|);
    WithinTheText(words[..k], width);
    WithinParts(words, width, k);
    if k < |words| {
      NextWordIsTooLong(words, width, k);
      OnlyPart(words[k]);
      if k > 0 {
        Slices(words, k);
        ShortWordsStayWhole(words[k..], width);
      } else {
        BeforeText(words[..0]);
      }
    }
  }

  /** A cell of words without break points is not split exactly when every word fits. */
  lemma UnbreakableCell(breaks: Breaks, ws: seq<string>, width: nat)
    requires AreWords(ws) && Unbreakable(Broken(breaks, ws))
    ensures SplitsNoWord(breaks, ws, width) <==> AllShort(ws, width)
  {
    BrokenIsSound(breaks, ws);
    ShortWordsStayWhole(Broken(breaks, ws), width);
  }

  // ---------------------------------------------------------------- when a caller can tell that a word is split

  lemma {:induction false} FirstPartEnds(breaks: Breaks, w: string, n: nat, i: nat)
    requires 0 < i < n <= |w| && breaks(w, i)
    ensures |PartsUpTo(breaks, w, n)[0]| <= i
    ensures n > i ==> |PartsUpTo(breaks, w, n)| >= 2
  {
    if n > i + 1 {
      FirstPartEnds(breaks, w, n - 1, i);
    } else {
      PartWithin(breaks, w, i);
    }
  }

  lemma {:induction false} PartWithin(breaks: Breaks, w: string, n: nat)
    requires 0 < n <= |w|
    ensures |PartsUpTo(breaks, w, n)[0]| <= n
  {
    if n > 1 { PartWithin(breaks, w, n - 1); }
  }

  lemma TextGrows(words: seq<seq<string>>, n: nat, m: nat)
    requires n <= m <= |words|
    ensures |TextAt(words[..n])| <= |TextAt(words[..m])|
  {
    if 0 < n < m {
      TextSplit(words[..m], n);
      assert words[..m][..n] == words[..n];
    }
  }

  lemma {:induction false} WholeIs(words: seq<seq<string>>, width: nat, n: nat, k: nat)
    requires k <= n <= |words| && |TextAt(words[..k])| <= width && (k < n ==> |TextAt(words[..k + 1])| > width)
    ensures WholeUpTo(words, width, n) == k
  {
    if k < n {
      TextGrows(words, k + 1, n);
      if k + 1 < n { WholeIs(words, width, n - 1, k); }
    }
  }

  /** A word that does not fit a line, but has a break point within the room that is left, is split. */
  lemma EarlyBreakSplits(breaks: Breaks, ws: seq<string>, width: nat, k: nat, i: nat)
    requires AreWords(ws) && 1 <= k < |ws| && |Sentence(ws[..k])| <= width < |Sentence(ws[..k + 1])|
    requires 0 < i < |ws[k]| && breaks(ws[k], i) && |Sentence(ws[..k])| + 1 + i <= width
    ensures !SplitsNoWord(breaks, ws, width)
  {
    var words := Broken(breaks, ws);
    BrokenIsSound(breaks, ws);
    SentenceText(words[..k], ws[..k]);
    SentenceText(words[..k + 1], ws[..k + 1]);
    WholeIs(words, width, |words|, k);
    FirstPartEnds(breaks, ws[k], |ws[k]|, i);
  }

  /** A hyphenated word in a column of fifteen: with the platform's break points, the title comes back with a space
      inside the word. */
  lemma HyphenatedTitle(classes: Classes)
    requires classes.letter('g') && classes.letter('o') && classes.letter('t')
    ensures var title := Sentence(["Run", "the", "go-to-market", "plan"]);
      ReadBack(WrapCell(HyphenBreaks(classes), title, 15)) != title
  {
    var ws := ["Run", "the", "go-to-market", "plan"];
    TitleWords();
    assert HyphenBreaks(classes)(ws[2], 3) by { GoToBreaks(classes); }
    EarlyBreakSplits(HyphenBreaks(classes), ws, 15, 2, 3);
    CellRoundTrip(HyphenBreaks(classes), ws, 15);
  }

  lemma GoToBreaks(classes: Classes)
    requires classes.letter('g') && classes.letter('o') && classes.letter('t')
    ensures HyphenBreaks(classes)("go-to-market", 3)
  {
    var w := "go-to-market";
    assert DashAt(w, 2) && LetterAt(classes, w, 0) && LetterAt(classes, w, 1);
    assert LetterAt(classes, w, 3) && LetterAt(classes, w, 4);
    assert AfterHyphen(classes, w, 3);
  }

  lemma TitleWords()
    ensures var ws := ["Run", "the", "go-to-market", "plan"];
      && AreWords(ws) && |Sentence(ws[..2])| == 7 && |Sentence(ws[..3])| == 20
  {
    var ws := ["Run", "the", "go-to-market", "plan"];
    TitleLengths();
    forall i | 0 <= i < |ws| ensures IsWord(ws[i]) { PrintableWord(ws[i]); }
  }

  lemma PrintableWord(w: string)
    requires w != "" && forall i :: 0 <= i < |w| ==> '-' <= w[i] <= 'z'
    ensures IsWord(w)
  {
  }

  lemma TitleLengths()
    ensures var ws := ["Run", "the", "go-to-market", "plan"]; |Sentence(ws[..2])| == 7 && |Sentence(ws[..3])| == 20
  {
    var ws := ["Run", "the", "go-to-market", "plan"];
    assert ws[..2] == ["Run", "the"] && ws[..2][1..] == ["the"];
    assert ws[..3] == ["Run", "the", "go-to-market"] && ws[..3][1..] == ["the", "go-to-market"];
    assert ["the", "go-to-market"][1..] == ["go-to-market"];
  }

  lemma {:induction false} OnePart(breaks: Breaks, w: string, n: nat)
    requires 0 < n <= |w| && forall i :: 0 < i < n ==> !breaks(w, i)
    ensures |PartsUpTo(breaks, w, n)| == 1
  {
    if n > 1 { OnePart(breaks, w, n - 1); }
  }

  /** Without two dashes in a row only the rule for single hyphens is left. */
  lemma SingleHyphens(classes: Classes, w: string, i: nat)
    requires 0 < i < |w| && forall j :: 0 <= j < |w| - 1 ==> w[j] != '-' || w[j + 1] != '-'
    ensures HyphenBreaks(classes)(w, i) <==> AfterHyphen(classes, w, i)
  {
    assert forall j: nat :: j < |w| ==> DashesFrom(w, j) <= 1;
  }

  /** A hyphen with a digit before it is no break point: the words come back from a column of nine. */
  lemma NumberedTitle(classes: Classes)
    requires !classes.letter('1')
    ensures ReadBack(WrapCell(HyphenBreaks(classes), Sentence(["see", "a-1-abc"]), 9)) == Sentence(["see", "a-1-abc"])
  {
    var ws, breaks := ["see", "a-1-abc"], HyphenBreaks(classes);
    forall k, i: nat | 0 <= k < |ws| && 0 < i < |ws[k]| ensures !breaks(ws[k], i) {
      SingleHyphens(classes, ws[k], i);
      assert DashAt(ws[k], i - 1) ==> k == 1 && (i == 2 || i == 4);
    }
    forall k | 0 <= k < |ws| ensures |Broken(breaks, ws)[k]| == 1 { OnePart(breaks, ws[k], |ws[k]|); }
    UnbreakableCell(breaks, ws, 9);
    CellRoundTrip(breaks, ws, 9);
  }
}
