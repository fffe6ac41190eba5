/** The words of a line, and what they say about trimming, headings and rules. */
module LineWords {
  import opened Text
  import opened TextWrap
  import opened TableParser

  /** The runs of characters other than white space, of the first n. */
  function WordsUpTo(s: string, n: nat): (ws: seq<string>)
    requires n <= |s|
    ensures n > 0 && !IsSpace(s[n - 1]) ==> ws != []
  {
    if n == 0 then []
    else
      var before := WordsUpTo(s, n - 1);
      if IsSpace(s[n - 1]) then before
      else if n > 1 && !IsSpace(s[n - 2]) then before[..|before| - 1] + [before[|before| - 1] + [s[n - 1]]]
      else before + [[s[n - 1]]]
  }

  function Words(s: string): (r: seq<string>) {
    WordsUpTo(s, |s|)
  }

  predicate EndsWord(s: string) {
    s == "" || IsSpace(s[|s| - 1])
  }

  lemma {:induction false} WordsOfPrefix(s: string, t: string, n: nat)
    requires n <= |s| && n <= |t| && forall i :: 0 <= i < n ==> s[i] == t[i]
    ensures WordsUpTo(s, n) == WordsUpTo(t, n)
  {
    if n > 0 { WordsOfPrefix(s, t, n - 1); }
  }

  lemma WordsSnoc(s: string, c: char)
    ensures var before := Words(s);
      if IsSpace(c) then Words(s + [c]) == before
      else if EndsWord(s) then Words(s + [c]) == before + [[c]]
      else before != [] && Words(s + [c]) == before[..|before| - 1] + [before[|before| - 1] + [c]]
  {
    WordsOfPrefix(s, s + [c], |s|);
  }

  lemma WordsConcatSnoc(a: string, b: string, c: char)
    requires b != "" && Words(a + b) == Words(a) + Words(b)
    ensures Words(a + b + [c]) == Words(a) + Words(b + [c])
  {
    WordsSnoc(a + b, c);
    WordsSnoc(b, c);
    ConcatLast(Words(a), Words(b), c);
    assert EndsWord(b) <==> EndsWord(a + b);
  }

  lemma WordsConcatChar(a: string, c: char)
    requires EndsWord(a) || IsSpace(c)
    ensures Words(a + [c]) == Words(a) + Words([c])
  {
    WordsSnoc(a, c);
    WordsSnoc("", c);
    assert "" + [c] == [c];
  }

  lemma AppendNothing<T>(a: seq<T>)
    ensures a + [] == a
  {
  }

  /** A break between words keeps the words on its two sides apart. */
  lemma {:induction false} WordsConcat(a: string, b: string)
    requires EndsWord(a) || b == "" || IsSpace(b[0])
    ensures Words(a + b) == Words(a) + Words(b)
    decreases |b|
  {
    if |b| >= 2 {
      var front, c := b[..|b| - 1], b[|b| - 1];
      WordsConcat(a, front);
      WordsConcatSnoc(a, front, c);
      AppendAgain(a, b, front, c);
    } else if |b| == 1 {
      WordsConcatChar(a, b[0]);
      assert b == [b[0]];
    } else {
      AppendNothing(a);
      AppendNothing(Words(a));
    }
  }

  lemma AppendAgain(a: string, b: string, front: string, c: char)
    requires b != "" && front == b[..|b| - 1] && c == b[|b| - 1]
    ensures a + b == a + front + [c] && b == front + [c]
  {
  }

  lemma ConcatLast(a: seq<string>, b: seq<string>, c: char)
    ensures b != [] ==> (a + b)[..|a + b| - 1] + [(a + b)[|a + b| - 1] + [c]] == a + (b[..|b| - 1] + [b[|b| - 1] + [c]])
    ensures (a + b) + [[c]] == a + (b + [[c]])
  {
  }

  lemma {:induction false} WordsOfBlank(s: string)
    requires IsBlank(s)
    ensures Words(s) == []
  {
    if s != "" {
      WordsOfBlank(s[..|s| - 1]);
      WordsSnoc(s[..|s| - 1], s[|s| - 1]);
      assert s == s[..|s| - 1] + [s[|s| - 1]];
    }
  }

  lemma {:induction false} WordsOfWord(w: string)
    requires IsWord(w)
    ensures Words(w) == [w]
  {
    var n := |w| - 1;
    assert w == w[..n] + [w[n]];
    WordsSnoc(w[..n], w[n]);
    if n > 0 {
      WordsOfWord(w[..n]);
    }
  }

  lemma {:induction false} WordsOfSentence(ws: seq<string>)
    requires AreWords(ws)
    ensures Words(Sentence(ws)) == ws
  {
    if ws != [] {
      assert ws[0] in ws;
      WordsOfWord(ws[0]);
      if |ws| > 1 {
        WordsOfSentence(ws[1..]);
        var tail := Sentence(ws[1..]);
        assert IsSpace(' ') && IsBlank([' ']);
        WordsConcat(ws[0], [' ']);
        WordsOfBlank([' ']);
        WordsConcat(ws[0] + [' '], tail);
      }
    }
  }

  // ---------------------------------------------------------------- trimming

  lemma TrimRightParts(s: string) returns (after: string)
    ensures s == TrimRight(s, IsSpace) + after && IsBlank(after)
  {
    var k := RightEnd(s, IsSpace, |s|);
    RightEndFacts(s, IsSpace, |s|);
    SpanIs(s, 0, k);
    after := s[k..];
  }

  lemma TrimLeftParts(s: string) returns (before: string)
    ensures s == before + TrimLeft(s, IsSpace) && IsBlank(before)
    ensures var t := TrimLeft(s, IsSpace); t != "" ==> !IsSpace(t[0])
  {
    var k := LeftEnd(s, IsSpace, 0);
    LeftEndFacts(s, IsSpace, 0);
    SpanIs(s, k, |s|);
    before := s[..k];
  }

  /** Trimming takes blanks away at both ends. */
  lemma StripParts(s: string) returns (before: string, after: string)
    ensures s == before + Strip(s) + after && IsBlank(before) && IsBlank(after)
    ensures Strip(s) != "" ==> !IsSpace(Strip(s)[0])
  {
    after := TrimRightParts(s);
    before := TrimLeftParts(TrimRight(s, IsSpace));
  }

  lemma WordsAmidBlanks(before: string, s: string, after: string)
    requires IsBlank(before) && IsBlank(after)
    ensures Words(before + s + after) == Words(s)
  {
    WordsOfBlank(before);
    WordsOfBlank(after);
    assert EndsWord(before);
    WordsConcat(before, s);
    WordsConcat(before + s, after);
  }

  /** Trimming keeps the words. */
  lemma WordsOfStrip(s: string)
    ensures Words(Strip(s)) == Words(s)
  {
    var before, after := StripParts(s);
    WordsAmidBlanks(before, Strip(s), after);
  }

  // ---------------------------------------------------------------- telling lines apart by their words

  /** A word that on its own, or at the start of a line, the parser would not take for a mark. */
  predicate IsHarmless(w: string) {
    w != "#" && w != "##" && !OnlyDashes(w)
  }

  ghost predicate AreHarmless(ws: seq<string>) {
    forall w :: w in ws ==> IsHarmless(w)
  }

  lemma FirstWord(s: string, w: string)
    requires IsWord(w) && w + [' '] <= s
    ensures Words(s) != [] && Words(s)[0] == w
  {
    var rest := s[|w| + 1..];
    assert s == (w + [' ']) + rest;
    assert IsSpace(' ') && IsBlank([' ']);
    WordsOfWord(w);
    WordsOfBlank([' ']);
    WordsConcat(w, [' ']);
    WordsConcat(w + [' '], rest);
  }

  lemma HeadingBeginsWithMark(line: string)
    requires IsHeading(line)
    ensures Words(line) != [] && (Words(line)[0] == "#" || Words(line)[0] == "##")
  {
    var s := Strip(line);
    WordsOfStrip(line);
    if s[1] == '#' {
      assert s[..3] == "##" + [' '];
      FirstWord(s, "##");
    } else {
      assert s[..2] == "#" + [' '];
      FirstWord(s, "#");
    }
  }

  lemma RuleIsOneWord(line: string)
    requires OnlyDashes(Strip(line)) && !IsBlank(line)
    ensures Words(line) == [Strip(line)]
  {
    BlankIsStripped(line);
    WordsOfStrip(line);
    WordsOfWord(Strip(line));
  }

  /** A line the parser takes for data. */
  predicate IsPlain(line: string) {
    !IsBlank(line) && !EndsTable(line)
  }

  lemma HarmlessIsPlain(line: string)
    requires Words(line) != [] && AreHarmless(Words(line))
    ensures IsPlain(line)
  {
    if IsBlank(line) { WordsOfBlank(line); }
    assert IsHarmless(Words(line)[0]);
    if IsHeading(line) { HeadingBeginsWithMark(line); }
    if OnlyDashes(Strip(line)) { RuleIsOneWord(line); }
  }

  lemma {:induction false} WordsOfDashes(s: string, n: nat)
    requires n <= |s| && DashesAndSpaces(s)
    ensures forall k :: 0 <= k < |WordsUpTo(s, n)| ==> OnlyDashes(WordsUpTo(s, n)[k])
  {
    if n > 0 { WordsOfDashes(s, n - 1); }
  }

  /** A line with a harmless word is no separator. */
  lemma HarmlessIsNoSeparator(line: string)
    requires Words(line) != [] && AreHarmless(Words(line))
    ensures !IsSeparator(line)
  {
    WordsOfStrip(line);
    assert IsHarmless(Words(line)[0]);
    if DashesAndSpaces(Strip(line)) { WordsOfDashes(Strip(line), |Strip(line)|); }
  }
}
