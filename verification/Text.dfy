/** Strings as the platform's string methods see them: trimming, replacing, splitting and joining. */
module Text {

  datatype Option<+T> = None | Some(value: T)

  /** White space in the sense of str.strip. */
  predicate IsSpace(c: char) {
    c == ' ' || IsControlSpace(c) || IsWideSpace(c)
  }

  predicate IsControlSpace(c: char) {
    || c == '\t' || c == '\n' || c == '\U{0B}' || c == '\U{0C}' || c == '\r'
    || c == '\U{1C}' || c == '\U{1D}' || c == '\U{1E}' || c == '\U{1F}'
  }

  predicate IsWideSpace(c: char) {
    || c == '\U{85}' || c == '\U{A0}' || c == '\U{1680}' || ('\U{2000}' <= c <= '\U{200A}')
    || c == '\U{2028}' || c == '\U{2029}' || c == '\U{202F}' || c == '\U{205F}' || c == '\U{3000}'
  }

  /** str.strip leaves nothing. */
  predicate IsBlank(s: string) {
    forall i :: 0 <= i < |s| ==> IsSpace(s[i])
  }

  /** Where the text ends, of the first n characters, when the dropped ones at its end go. */
  function RightEnd(s: string, drop: char -> bool, n: nat): (k: nat)
    requires n <= |s|
    ensures k <= n
  {
    if n > 0 && drop(s[n - 1]) then RightEnd(s, drop, n - 1) else n
  }

  /** Where the text begins, from the n-th character on, when the dropped ones at its start go. */
  function LeftEnd(s: string, drop: char -> bool, n: nat): (k: nat)
    requires n <= |s|
    ensures n <= k <= |s|
    decreases |s| - n
  {
    if n < |s| && drop(s[n]) then LeftEnd(s, drop, n + 1) else n
  }

  /** The characters from the a-th up to the b-th. */
  function Span(s: string, a: nat, b: nat): (r: string)
    requires b <= |s|
    decreases b
  {
    if a >= b then "" else Span(s, a, b - 1) + [s[b - 1]]
  }

  function TrimRight(s: string, drop: char -> bool): (r: string) {
    Span(s, 0, RightEnd(s, drop, |s|))
  }

  function TrimLeft(s: string, drop: char -> bool): (r: string) {
    Span(s, LeftEnd(s, drop, 0), |s|)
  }

  lemma {:induction false} SpanIs(s: string, a: nat, b: nat)
    requires a <= b <= |s|
    ensures Span(s, a, b) == s[a..b]
    decreases b
  {
    if a < b { SpanIs(s, a, b - 1); }
  }

  lemma {:induction false} RightEndFacts(s: string, drop: char -> bool, n: nat)
    requires n <= |s|
    ensures var k := RightEnd(s, drop, n); (forall i :: k <= i < n ==> drop(s[i])) && (k > 0 ==> !drop(s[k - 1]))
  {
    if n > 0 && drop(s[n - 1]) { RightEndFacts(s, drop, n - 1); }
  }

  lemma {:induction false} LeftEndFacts(s: string, drop: char -> bool, n: nat)
    requires n <= |s|
    ensures var k := LeftEnd(s, drop, n); (forall i :: n <= i < k ==> drop(s[i])) && (k < |s| ==> !drop(s[k]))
    decreases |s| - n
  {
    if n < |s| && drop(s[n]) { LeftEndFacts(s, drop, n + 1); }
  }

  lemma {:induction false} RightEndIs(s: string, drop: char -> bool, n: nat, k: nat)
    requires k <= n <= |s| && (forall i :: k <= i < n ==> drop(s[i])) && (k > 0 ==> !drop(s[k - 1]))
    ensures RightEnd(s, drop, n) == k
  {
    if k < n { RightEndIs(s, drop, n - 1, k); }
  }

  /** Text that begins and ends with characters to keep is left alone. */
  lemma TrimSolid(s: string, drop: char -> bool)
    requires s != "" && !drop(s[0]) && !drop(s[|s| - 1])
    ensures TrimRight(s, drop) == s && TrimLeft(s, drop) == s
  {
    RightEndIs(s, drop, |s|, |s|);
    SpanIs(s, 0, |s|);
    assert LeftEnd(s, drop, 0) == 0;
  }

  ghost predicate AllOf(s: string, drop: char -> bool) {
    forall i :: 0 <= i < |s| ==> drop(s[i])
  }

  lemma {:induction false} LeftEndIs(s: string, drop: char -> bool, n: nat, k: nat)
    requires n <= k <= |s| && (forall i :: n <= i < k ==> drop(s[i])) && (k < |s| ==> !drop(s[k]))
    ensures LeftEnd(s, drop, n) == k
    decreases k - n
  {
    if n < k { LeftEndIs(s, drop, n + 1, k); }
  }

  lemma TrimRightOf(s: string, after: string, drop: char -> bool)
    requires AllOf(after, drop) && (s != "" ==> !drop(s[|s| - 1]))
    ensures TrimRight(s + after, drop) == s
  {
    var all := s + after;
    assert forall i :: |s| <= i < |all| ==> all[i] == after[i - |s|];
    RightEndIs(all, drop, |all|, |s|);
    SpanIs(all, 0, |s|);
  }

  lemma TrimLeftOf(before: string, s: string, drop: char -> bool)
    requires AllOf(before, drop) && (s != "" ==> !drop(s[0]))
    ensures TrimLeft(before + s, drop) == s
  {
    var all := before + s;
    assert forall i :: 0 <= i < |before| ==> all[i] == before[i];
    LeftEndIs(all, drop, 0, |before|);
    SpanIs(all, |before|, |all|);
  }

  /** Trimming takes away what is to be dropped at both ends, and nothing else. */
  lemma StripOf(before: string, s: string, after: string)
    requires IsBlank(before) && IsBlank(after) && (s != "" ==> !IsSpace(s[0]) && !IsSpace(s[|s| - 1]))
    ensures Strip(before + s + after) == s
  {
    if s != "" {
      TrimRightOf(before + s, after, IsSpace);
      TrimLeftOf(before, s, IsSpace);
    } else {
      var all := before + after;
      assert before + "" + after == all;
      assert forall i :: 0 <= i < |all| ==> IsSpace(all[i]);
      BlankIsStripped(all);
    }
  }

  function Strip(s: string): (r: string) {
    TrimLeft(TrimRight(s, IsSpace), IsSpace)
  }

  /** Trimming leaves nothing of white space, and of nothing else. */
  lemma BlankIsStripped(s: string)
    ensures IsBlank(s) <==> Strip(s) == ""
  {
    var k := RightEnd(s, IsSpace, |s|);
    RightEndFacts(s, IsSpace, |s|);
    SpanIs(s, 0, k);
    if k > 0 {
      var t := s[..k];
      LeftEndFacts(t, IsSpace, 0);
      SpanIs(t, LeftEnd(t, IsSpace, 0), k);
      assert t[k - 1] == s[k - 1];
    }
  }

  function ReplaceChar(s: string, from: char, to: char): (r: string)
    ensures |r| == |s| && forall i :: 0 <= i < |s| ==> r[i] == if s[i] == from then to else s[i]
  {
    if s == [] then [] else [if s[0] == from then to else s[0]] + ReplaceChar(s[1..], from, to)
  }

  lemma ReplaceConcat(a: string, b: string, from: char, to: char)
    ensures ReplaceChar(a + b, from, to) == ReplaceChar(a, from, to) + ReplaceChar(b, from, to)
  {
  }

  // ---------------------------------------------------------------- letters

  function LowerChar(c: char): (lower: char) {
    if 'A' <= c <= 'Z' then c + ('a' - 'A') else c
  }

  function UpperChar(c: char): (upper: char) {
    if 'a' <= c <= 'z' then c - ('a' - 'A') else c
  }

  predicate IsLetter(c: char) {
    'a' <= c <= 'z' || 'A' <= c <= 'Z'
  }

  const SMALL: string := "abcdefghijklmnopqrstuvwxyz"
  const LARGE: string := "ABCDEFGHIJKLMNOPQRSTUVWXYZ"

  /** Characters one after the other from a first one on. */
  lemma Alphabet(s: string, first: char, c: char)
    requires |s| <= 26 && first <= 'a' && forall i :: 0 <= i < |s| ==> s[i] == first + (i as char)
    ensures c in s <==> first <= c && (c as int) - (first as int) < |s|
  {
    if first <= c && (c as int) - (first as int) < |s| { assert s[(c as int) - (first as int)] == c; }
  }

  /** Each letter has its other form, and no other character has one. */
  lemma CasesAre(i: nat, c: char)
    requires i < 26
    ensures LowerChar(LARGE[i]) == SMALL[i] && UpperChar(SMALL[i]) == LARGE[i]
    ensures (c !in LARGE ==> LowerChar(c) == c) && (c !in SMALL ==> UpperChar(c) == c)
    ensures IsLetter(c) <==> c in SMALL || c in LARGE
  {
    Alphabet(SMALL, 'a', c);
    Alphabet(LARGE, 'A', c);
  }

  function Lower(s: string): (lower: string)
    ensures |lower| == |s| && forall i :: 0 <= i < |s| ==> lower[i] == LowerChar(s[i])
  {
    seq(|s|, i requires 0 <= i < |s| => LowerChar(s[i]))
  }

  // ---------------------------------------------------------------- splitting and joining

  function Join(parts: seq<string>, c: char): (r: string) {
    if parts == [] then [] else if |parts| == 1 then parts[0] else parts[0] + [c] + Join(parts[1..], c)
  }

  function Split(s: string, c: char): (parts: seq<string>)
    ensures parts != []
    ensures forall i :: 0 <= i < |parts| ==> c !in parts[i]
  {
    if s == [] then [""]
    else
      var rest := Split(s[1..], c);
      if s[0] == c then [""] + rest else [[s[0]] + rest[0]] + rest[1..]
  }

  lemma {:induction false} JoinConcat(a: seq<string>, b: seq<string>, c: char)
    requires a != [] && b != []
    ensures Join(a + b, c) == Join(a, c) + [c] + Join(b, c)
  {
    if |a| == 1 {
      assert (a + b)[1..] == b;
    } else {
      JoinConcat(a[1..], b, c);
      assert (a + b)[1..] == a[1..] + b;
    }
  }

  lemma {:induction false} JoinSplit(s: string, c: char)
    ensures Join(Split(s, c), c) == s
  {
    if s != [] {
      var rest := Split(s[1..], c);
      JoinSplit(s[1..], c);
      if s[0] == c {
        assert Split(s, c)[1..] == rest;
      } else {
        assert Split(s, c)[1..] == rest[1..];
      }
      assert s == [s[0]] + s[1..];
    }
  }

  lemma {:induction false} SplitWord(w: string, c: char)
    requires c !in w
    ensures Split(w, c) == [w]
  {
    if w != [] {
      assert w[0] in w && w == [w[0]] + w[1..];
      SplitWord(w[1..], c);
    }
  }

  lemma {:induction false} SplitAfter(w: string, c: char, rest: string)
    requires c !in w
    ensures Split(w + [c] + rest, c) == [w] + Split(rest, c)
  {
    if w == [] {
      assert w + [c] + rest == [c] + rest;
    } else {
      SplitAfter(w[1..], c, rest);
      assert w[0] in w && w == [w[0]] + w[1..];
      assert (w + [c] + rest)[1..] == w[1..] + [c] + rest;
    }
  }

  lemma {:induction false} SplitJoin(parts: seq<string>, c: char)
    requires parts != [] && forall i :: 0 <= i < |parts| ==> c !in parts[i]
    ensures Split(Join(parts, c), c) == parts
  {
    if |parts| == 1 {
      SplitWord(parts[0], c);
    } else {
      SplitJoin(parts[1..], c);
      SplitAfter(parts[0], c, Join(parts[1..], c));
    }
  }

  // ---------------------------------------------------------------- numbers

  function Digit(n: nat): (r: char)
    requires n < 10
  {
    "0123456789"[n]
  }

  /** Decimal notation without leading zeros. */
  function Decimal(n: nat): (s: string)
    ensures s != []
  {
    if n < 10 then [Digit(n)] else Decimal(n / 10) + [Digit(n % 10)]
  }

  lemma {:induction false} DecimalInjective(m: nat, n: nat)
    requires Decimal(m) == Decimal(n)
    ensures m == n
  {
    var s := Decimal(m);
    assert s[|s| - 1] == Digit(m % 10) == Digit(n % 10);
    assert m % 10 == n % 10;
    if m >= 10 && n >= 10 {
      assert s[..|s| - 1] == Decimal(m / 10) == Decimal(n / 10);
      DecimalInjective(m / 10, n / 10);
    }
  }
}
