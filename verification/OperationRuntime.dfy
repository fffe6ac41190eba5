/** Following a procedure step by step: the steps of its text under unique identifiers, and an operation that
    completes them one after the other. */
module OperationRuntime {
  import opened Text
  import opened Ordering
  import opened Rounding

  // ---------------------------------------------------------------- identifiers

  predicate IsPlainChar(c: char) {
    'a' <= c <= 'z' || '0' <= c <= '9'
  }

  predicate IsDash(c: char) {
    c == '-'
  }

  /** Small letters and digits, and one dash for each run of anything else. */
  function Dashed(s: string): (slug: string) {
    if s == "" then ""
    else
      var before, c := Dashed(s[..|s| - 1]), LowerChar(s[|s| - 1]);
      if IsPlainChar(c) then before + [c]
      else if before != "" && before[|before| - 1] == '-' then before
      else before + ['-']
  }

  function Slugify(title: string): (id: string) {
    "step-" + TrimRight(TrimLeft(Dashed(Strip(title)), IsDash), IsDash)
  }

  predicate IsSlugChar(c: char) {
    IsPlainChar(LowerChar(c))
  }

  predicate IsGapChar(c: char) {
    !IsPlainChar(LowerChar(c))
  }

  /** Letters and digits, whatever the letters' case. */
  lemma SlugChars(c: char)
    ensures IsSlugChar(c) <==> c in SMALL || c in LARGE || c in "0123456789"
  {
    Alphabet(SMALL, 'a', c);
    Alphabet(LARGE, 'A', c);
    Alphabet("0123456789", '0', c);
  }

  /** Words and the gaps around them, one after the other. */
  function Spread(words: seq<string>, gaps: seq<string>): (s: string)
    requires |gaps| == |words| + 1
  {
    var n := |words|;
    if n == 0 then gaps[0] else Spread(words[..n - 1], gaps[..n]) + words[n - 1] + gaps[n]
  }

  /** Words of letters and digits, and between them something that is neither. */
  ghost predicate AreSpread(words: seq<string>, gaps: seq<string>) {
    && |gaps| == |words| + 1
    && (forall k :: 0 <= k < |words| ==> words[k] != "" && AllOf(words[k], IsSlugChar))
    && (forall k :: 0 <= k < |gaps| ==> AllOf(gaps[k], IsGapChar))
    && (forall k :: 0 < k < |words| ==> gaps[k] != "")
  }

  function LowerAll(words: seq<string>): (small: seq<string>)
    ensures |small| == |words| && forall k :: 0 <= k < |words| ==> small[k] == Lower(words[k])
  {
    seq(|words|, k requires 0 <= k < |words| => Lower(words[k]))
  }

  lemma LowerSnoc(s: string, c: char)
    ensures Lower(s + [c]) == Lower(s) + [LowerChar(c)]
  {
  }

  lemma LongerWord(before: string, d: string, w: string, front: string, c: char)
    requires before == d + Lower(front) && w == front + [c]
    ensures before + [LowerChar(c)] == d + Lower(w)
  {
    LowerSnoc(front, c);
  }

  lemma {:induction false} DashedWord(s: string, w: string, text: string)
    requires AllOf(w, IsSlugChar) && text == s + w
    ensures Dashed(text) == Dashed(s) + Lower(w)
  {
    if w == "" {
      assert text == s && Dashed(s) + Lower(w) == Dashed(s);
    } else {
      var front, c := w[..|w| - 1], w[|w| - 1];
      var rest := text[..|text| - 1];
      assert rest == s + front && text[|text| - 1] == c;
      DashedWord(s, front, rest);
      LongerWord(Dashed(rest), Dashed(s), w, front, c);
    }
  }

  predicate EndsInDash(s: string) {
    s != "" && s[|s| - 1] == '-'
  }

  lemma {:induction false} DashedGap(s: string, gap: string)
    requires AllOf(gap, IsGapChar)
    ensures Dashed(s + gap) == if gap == "" || EndsInDash(Dashed(s)) then Dashed(s) else Dashed(s) + "-"
  {
    if gap == "" {
      assert s + gap == s;
    } else {
      DashedGap(s, gap[..|gap| - 1]);
      assert (s + gap)[..|s + gap| - 1] == s + gap[..|gap| - 1];
    }
  }

  function Dash(gap: string): (dash: string) {
    if gap == "" then "" else "-"
  }

  /** The words so far, and the dash that waits for the next. */
  function Waiting(words: seq<string>): (s: string) {
    if words == [] then "" else Join(words, '-') + "-"
  }

  lemma WaitingSnoc(words: seq<string>, w: string)
    ensures Join(words + [w], '-') == Waiting(words) + w
  {
    if words == [] { assert [] + [w] == [w]; } else { JoinConcat(words, [w], '-'); }
  }

  lemma DashedStep(before: string, w: string, gap: string, first: string, waiting: string)
    requires w != "" && AllOf(w, IsSlugChar) && AllOf(gap, IsGapChar) && Dashed(before) == first + waiting
    ensures Dashed(before + w + gap) == first + (waiting + Lower(w)) + Dash(gap)
  {
    DashedWord(before, w, before + w);
    DashedGap(before + w, gap);
    PlainEnd(first + waiting, w);
    Regroup(first, waiting, Lower(w), Dash(gap));
  }

  lemma PlainEnd(before: string, w: string)
    requires w != "" && AllOf(w, IsSlugChar)
    ensures !EndsInDash(before + Lower(w))
  {
    assert (before + Lower(w))[|before| + |w| - 1] == Lower(w)[|w| - 1];
  }

  lemma Regroup(a: string, b: string, c: string, d: string)
    ensures a + b + c + d == a + (b + c) + d && a + b + c + "" == a + b + c
  {
  }

  lemma SpreadStep(words: seq<string>, gaps: seq<string>)
    requires AreSpread(words, gaps) && words != []
    ensures var n := |words|;
      && AreSpread(words[..n - 1], gaps[..n]) && gaps[..n][0] == gaps[0]
      && (n > 1 ==> Dash(gaps[..n][n - 1]) == "-")
      && LowerAll(words) == LowerAll(words[..n - 1]) + [Lower(words[n - 1])]
  {
    var n := |words|;
    forall k | 0 <= k < n ensures gaps[..n][k] == gaps[k] {}
    forall k | 0 <= k < n - 1 ensures words[..n - 1][k] == words[k] {}
  }

  lemma {:induction false} DashedSpread(words: seq<string>, gaps: seq<string>)
    requires AreSpread(words, gaps)
    ensures Dashed(Spread(words, gaps)) ==
      if words == [] then Dash(gaps[0]) else Dash(gaps[0]) + Join(LowerAll(words), '-') + Dash(gaps[|words|])
  {
    var n := |words|;
    if n == 0 {
      DashedGap("", gaps[0]);
      assert "" + gaps[0] == gaps[0];
    } else {
      var front, first := words[..n - 1], Dash(gaps[0]);
      SpreadStep(words, gaps);
      DashedSpread(front, gaps[..n]);
      WaitingSnoc(LowerAll(front), Lower(words[n - 1]));
      assert n > 1 ==> first + Join(LowerAll(front), '-') + "-" == first + Waiting(LowerAll(front));
      assert n == 1 ==> first == first + Waiting(LowerAll(front));
      DashedStep(Spread(front, gaps[..n]), words[n - 1], gaps[n], first, Waiting(LowerAll(front)));
    }
  }

  lemma DashesGo(first: string, body: string, last: string)
    requires (first == "" || first == "-") && (last == "" || last == "-")
    requires body != "" && body[0] != '-' && body[|body| - 1] != '-'
    ensures TrimRight(TrimLeft(first + body + last, IsDash), IsDash) == body
  {
    assert first + body + last == first + (body + last);
    TrimLeftOf(first, body + last, IsDash);
    TrimRightOf(body, last, IsDash);
  }

  lemma OnlyDashGoes(dash: string)
    requires dash == "" || dash == "-"
    ensures TrimRight(TrimLeft(dash, IsDash), IsDash) == ""
  {
    TrimLeftOf(dash, "", IsDash);
    TrimRightOf("", "", IsDash);
    assert dash + "" == dash && "" + "" == "";
  }

  /** A title's slug: its words of letters and digits, small and joined by dashes. */
  lemma SlugIs(title: string, words: seq<string>, gaps: seq<string>)
    requires AreSpread(words, gaps) && Strip(title) == Spread(words, gaps)
    ensures Slugify(title) == "step-" + Join(LowerAll(words), '-')
  {
    DashedSpread(words, gaps);
    if words == [] {
      OnlyDashGoes(Dash(gaps[0]));
    } else {
      WordsHaveNoDash(words);
      JoinEnds(LowerAll(words));
      DashesGo(Dash(gaps[0]), Join(LowerAll(words), '-'), Dash(gaps[|words|]));
    }
  }

  lemma WordsHaveNoDash(words: seq<string>)
    requires forall k :: 0 <= k < |words| ==> words[k] != "" && AllOf(words[k], IsSlugChar)
    ensures forall k :: 0 <= k < |words| ==>
      LowerAll(words)[k] != "" && LowerAll(words)[k][0] != '-' && LowerAll(words)[k][|LowerAll(words)[k]| - 1] != '-'
  {
  }

  lemma {:induction false} JoinEnds(words: seq<string>)
    requires words != [] && forall k :: 0 <= k < |words| ==> words[k] != "" && words[k][0] != '-' && words[k][|words[k]| - 1] != '-'
    ensures var s := Join(words, '-'); s != "" && s[0] != '-' && s[|s| - 1] != '-'
  {
    if |words| > 1 { JoinEnds(words[1..]); }
  }

  /** The k-th try at an identifier: itself first, then with a number, from two on. */
  function Attempt(base: string, k: nat): (id: string) {
    if k < 2 then base else base + ("-" + Decimal(k))
  }

  lemma AttemptsDiffer(base: string, j: nat, k: nat)
    requires 1 <= j < k
    ensures Attempt(base, j) != Attempt(base, k)
  {
    if Attempt(base, j) == Attempt(base, k) && j >= 2 {
      var a, b := "-" + Decimal(j), "-" + Decimal(k);
      assert a == (base + a)[|base|..] && b == (base + b)[|base|..];
      assert Decimal(j) == a[1..] && Decimal(k) == b[1..];
      DecimalInjective(j, k);
    }
  }

  /** The attempts before the k-th. */
  ghost function Tried(base: string, k: nat): (ids: set<string>) {
    if k <= 1 then {} else Tried(base, k - 1) + {Attempt(base, k - 1)}
  }

  lemma {:induction false} TriedFacts(base: string, k: nat, j: nat)
    requires k <= j && j >= 1
    ensures |Tried(base, k)| == (if k <= 1 then 0 else k - 1) && Attempt(base, j) !in Tried(base, k)
  {
    if k > 1 {
      TriedFacts(base, k - 1, k - 1);
      TriedFacts(base, k - 1, j);
      AttemptsDiffer(base, k - 1, j);
    }
  }

  /** The first attempt that is not taken. */
  ghost predicate IsUnique(base: string, taken: set<string>, id: string) {
    id !in taken && exists k :: k >= 1 && id == Attempt(base, k) && forall j :: 1 <= j < k ==> Attempt(base, j) in taken
  }

  lemma TryNext(base: string, k: nat, taken: set<string>)
    requires k >= 2 && Tried(base, k - 1) <= taken && Attempt(base, k - 1) in taken
    ensures Tried(base, k) <= taken && k - 1 <= |taken|
  {
    TriedFacts(base, k, k);
    SubsetCount(Tried(base, k), taken);
  }

  /** The search for it ends: among one more than the taken identifiers, some attempt is free. */
  method MakeUnique(base: string, taken: set<string>) returns (id: string)
    ensures IsUnique(base, taken, id)
  {
    id := base;
    var counter := 2;
    while id in taken
      invariant counter >= 2 && id == Attempt(base, counter - 1)
      invariant forall j :: 1 <= j < counter - 1 ==> Attempt(base, j) in taken
      invariant Tried(base, counter - 1) <= taken
      decreases |taken| + 2 - counter
    {
      TryNext(base, counter, taken);
      id := Attempt(base, counter);
      counter := counter + 1;
    }
    assert id == Attempt(base, counter - 1);
  }

  // ---------------------------------------------------------------- parsing

  datatype Heading = Heading(title: string, description: string)

  datatype Step = Step(id: string, index: nat, title: string, description: string)

  predicate Opens(line: string) {
    "## Steps" <= Strip(line)
  }

  predicate IsSection(line: string) {
    "## " <= Strip(line)
  }

  /** How the section's first line, the next section's, and the numbered headings are told. */
  datatype Pattern = Pattern(opens: string -> bool, ends: string -> bool, read: string -> Option<Heading>)

  /** The numbered headings of the section, up to the next section. */
  function Headings(f: Pattern, lines: seq<string>, inside: bool): (headings: seq<Heading>) {
    if lines == [] then []
    else if f.opens(lines[0]) then Headings(f, lines[1..], true)
    else if inside && f.ends(lines[0]) then []
    else
      var rest := Headings(f, lines[1..], inside);
      if inside && f.read(lines[0]).Some? then [f.read(lines[0]).value] + rest else rest
  }

  /** The lines between two that are read as headings. */
  ghost function HeadingAt(f: Pattern, lines: seq<string>, from: nat): (p: nat -> bool) {
    (i: nat) => from <= i < |lines| && !f.opens(lines[i]) && f.read(lines[i]).Some?
  }

  function ReadAt(f: Pattern, lines: seq<string>, places: seq<nat>): (headings: seq<Heading>)
    requires forall k :: 0 <= k < |places| ==> places[k] < |lines|
  {
    seq(|places|, k requires 0 <= k < |places| =>
      if f.read(lines[places[k]]).Some? then f.read(lines[places[k]]).value else Heading("", ""))
  }

  ghost predicate GoesOnTo(f: Pattern, lines: seq<string>, from: nat, end: nat) {
    from <= end <= |lines| && forall i :: from <= i < end ==> f.opens(lines[i]) || !f.ends(lines[i])
  }

  lemma {:induction false} HeadingsInside(f: Pattern, lines: seq<string>, from: nat, end: nat)
    requires GoesOnTo(f, lines, from, end)
    ensures Headings(f, lines[from..], true)
      == ReadAt(f, lines, Places(end, HeadingAt(f, lines, from))) + Headings(f, lines[end..], true)
    decreases end
  {
    if end == from {
      NoneBelow(end, HeadingAt(f, lines, from));
    } else {
      HeadingsInside(f, lines, from, end - 1);
      HeadingsStep(f, lines, end - 1, true);
      ReadSnoc(f, lines, Places(end - 1, HeadingAt(f, lines, from)), end - 1, Headings(f, lines[end..], true));
    }
  }

  lemma ReadSnoc(f: Pattern, lines: seq<string>, places: seq<nat>, i: nat, rest: seq<Heading>)
    requires i < |lines| && forall k :: 0 <= k < |places| ==> places[k] < |lines|
    ensures f.read(lines[i]).Some? ==>
      ReadAt(f, lines, places + [i]) + rest == ReadAt(f, lines, places) + ([f.read(lines[i]).value] + rest)
  {
    if f.read(lines[i]).Some? {
      assert ReadAt(f, lines, places + [i]) == ReadAt(f, lines, places) + [f.read(lines[i]).value];
    }
  }

  lemma {:induction false} NoneBelow(n: nat, p: nat -> bool)
    requires forall i :: 0 <= i < n ==> !p(i)
    ensures Places(n, p) == []
  {
    if n > 0 { NoneBelow(n - 1, p); }
  }

  lemma {:induction false} BeforeTheSection(f: Pattern, lines: seq<string>, n: nat)
    requires n <= |lines| && forall i :: 0 <= i < n ==> !f.opens(lines[i])
    ensures Headings(f, lines, false) == Headings(f, lines[n..], false)
  {
    if n > 0 {
      BeforeTheSection(f, lines, n - 1);
      HeadingsStep(f, lines, n - 1, false);
    } else {
      assert lines[0..] == lines;
    }
  }

  /** The headings are those read between the first line that opens the section and the next that ends it. */
  lemma HeadingsAre(f: Pattern, lines: seq<string>, opening: nat, end: nat)
    requires opening < |lines| && f.opens(lines[opening]) && forall i :: 0 <= i < opening ==> !f.opens(lines[i])
    requires GoesOnTo(f, lines, opening + 1, end) && (end < |lines| ==> f.ends(lines[end]) && !f.opens(lines[end]))
    ensures Headings(f, lines, false) == ReadAt(f, lines, Places(end, HeadingAt(f, lines, opening + 1)))
    ensures ArePlaces(Places(end, HeadingAt(f, lines, opening + 1)), end, HeadingAt(f, lines, opening + 1))
  {
    BeforeTheSection(f, lines, opening);
    HeadingsStep(f, lines, opening, false);
    HeadingsInside(f, lines, opening + 1, end);
    if end < |lines| { HeadingsStep(f, lines, end, true); } else { assert lines[end..] == []; }
    PlacesAre(end, HeadingAt(f, lines, opening + 1));
    assert ReadAt(f, lines, Places(end, HeadingAt(f, lines, opening + 1))) + []
        == ReadAt(f, lines, Places(end, HeadingAt(f, lines, opening + 1)));
  }

  /** Without a line that opens the section there are none. */
  lemma NoSection(f: Pattern, lines: seq<string>)
    requires forall i :: 0 <= i < |lines| ==> !f.opens(lines[i])
    ensures Headings(f, lines, false) == []
  {
    BeforeTheSection(f, lines, |lines|);
    assert lines[|lines|..] == [];
  }

  /** What follows "## Steps" does not matter; what follows "## " opens some section. */
  lemma SectionLines(rest: string)
    requires rest != "" && !IsSpace(rest[|rest| - 1])
    ensures Opens("## Steps") && Opens("## Steps" + rest) && IsSection("## " + rest)
    ensures !Opens("## Notes") && !IsSection("### Notes")
  {
    TrimSolid("## Steps", IsSpace);
    TrimSolid("## Steps" + rest, IsSpace);
    TrimSolid("## " + rest, IsSpace);
    TrimSolid("## Notes", IsSpace);
    TrimSolid("### Notes", IsSpace);
    assert "## Steps"[3] != "## Notes"[3] && "## "[2] != "### Notes"[2];
  }

  /** The program's pattern; how it reads a trimmed line as a heading is left open. */
  function StepPattern(read: string -> Option<Heading>): (f: Pattern) {
    Pattern(Opens, IsSection, line => read(Strip(line)))
  }

  function Ids(steps: seq<Step>): (ids: seq<string>)
    ensures |ids| == |steps| && forall i :: 0 <= i < |steps| ==> ids[i] == steps[i].id
  {
    seq(|steps|, i requires 0 <= i < |steps| => steps[i].id)
  }

  /** Steps of the headings, in order, each under the first free form of its title's slug. */
  ghost predicate AreStepsOf(steps: seq<Step>, headings: seq<Heading>) {
    && |steps| == |headings|
    && forall i :: 0 <= i < |steps| ==> IsStepOf(steps, headings[i], i)
  }

  ghost predicate IsStepOf(steps: seq<Step>, h: Heading, i: nat)
    requires i < |steps|
  {
    && steps[i].index == i && steps[i].title == h.title && steps[i].description == h.description
    && IsUnique(Slugify(h.title), Elems(Ids(steps)[..i]), steps[i].id)
  }

  lemma StepsSnoc(steps: seq<Step>, headings: seq<Heading>, step: Step, h: Heading)
    requires AreStepsOf(steps, headings) && NoDuplicates(Ids(steps))
    requires step == Step(step.id, |steps|, h.title, h.description)
    requires IsUnique(Slugify(h.title), Elems(Ids(steps)), step.id)
    ensures AreStepsOf(steps + [step], headings + [h]) && NoDuplicates(Ids(steps + [step]))
    ensures Elems(Ids(steps + [step])) == Elems(Ids(steps)) + {step.id}
  {
    var all := steps + [step];
    assert Ids(all) == Ids(steps) + [step.id];
    NoDuplicatesSnoc(Ids(steps), step.id);
    forall i | 0 <= i < |all| ensures IsStepOf(all, (headings + [h])[i], i) {
      if i < |steps| {
        assert IsStepOf(steps, headings[i], i);
        assert Ids(all)[..i] == Ids(steps)[..i];
      } else {
        assert Ids(all)[..i] == Ids(steps);
      }
    }
  }

  /** The steps of a procedure's text: their identifiers are distinct. */
  method ParseSteps(lines: seq<string>, read: string -> Option<Heading>) returns (steps: seq<Step>)
    ensures AreStepsOf(steps, Headings(StepPattern(read), lines, false)) && NoDuplicates(Ids(steps))
  {
    steps := ParseWith(StepPattern(read), lines);
  }

  lemma HeadingsStep(f: Pattern, lines: seq<string>, i: nat, inside: bool)
    requires i < |lines|
    ensures var line, found := lines[i], Headings(f, lines[i..], inside);
      if f.opens(line) then found == Headings(f, lines[i + 1..], true)
      else if inside && f.ends(line) then found == []
      else if inside && f.read(line).Some? then found == [f.read(line).value] + Headings(f, lines[i + 1..], inside)
      else found == Headings(f, lines[i + 1..], inside)
  {
    assert lines[i..][1..] == lines[i + 1..];
  }

  lemma OneMoreHeading(done: seq<Heading>, h: Heading, rest: seq<Heading>)
    ensures done + ([h] + rest) == done + [h] + rest && done + [] == done
  {
  }

  method AddStep(steps: seq<Step>, seen: set<string>, ghost done: seq<Heading>, h: Heading)
      returns (longer: seq<Step>, more: set<string>)
    requires seen == Elems(Ids(steps)) && AreStepsOf(steps, done) && NoDuplicates(Ids(steps))
    ensures more == Elems(Ids(longer)) && AreStepsOf(longer, done + [h]) && NoDuplicates(Ids(longer))
  {
    var id := MakeUnique(Slugify(h.title), seen);
    var step := Step(id, |steps|, h.title, h.description);
    StepsSnoc(steps, done, step, h);
    longer, more := steps + [step], seen + {id};
  }

  method ParseWith(f: Pattern, lines: seq<string>) returns (steps: seq<Step>)
    ensures AreStepsOf(steps, Headings(f, lines, false)) && NoDuplicates(Ids(steps))
  {
    steps := [];
    var inside := false;
    var seen: set<string> := {};
    ghost var done: seq<Heading> := [];
    var i := 0;
    while i < |lines|
      invariant i <= |lines| && seen == Elems(Ids(steps))
      invariant AreStepsOf(steps, done) && NoDuplicates(Ids(steps))
      invariant Headings(f, lines, false) == done + Headings(f, lines[i..], inside)
    {
      HeadingsStep(f, lines, i, inside);
      if f.opens(lines[i]) {
        inside := true;
      } else if inside && f.ends(lines[i]) {
        break;
      } else if inside && f.read(lines[i]).Some? {
        var h := f.read(lines[i]).value;
        steps, seen := AddStep(steps, seen, done, h);
        OneMoreHeading(done, h, Headings(f, lines[i + 1..], inside));
        done := done + [h];
      }
      i := i + 1;
    }
    if i == |lines| { assert lines[i..] == []; }
    assert done + [] == done;
  }

  // ---------------------------------------------------------------- progress

  /** Which steps are recorded, and as what. */
  type States = map<string, bool>

  predicate IsDone(states: States, id: string) {
    id in states && states[id]
  }

  function CountDone(ids: seq<string>, states: States): (n: nat)
    ensures n <= |ids|
  {
    if ids == [] then 0
    else CountDone(ids[..|ids| - 1], states) + (if IsDone(states, ids[|ids| - 1]) then 1 else 0)
  }

  /** The first step not done. */
  function Current(ids: seq<string>, states: States): (id: Option<string>) {
    if ids == [] then None else if !IsDone(states, ids[0]) then Some(ids[0]) else Current(ids[1..], states)
  }

  datatype Progress = Progress(total: nat, completed: nat, percent: nat, allComplete: bool, current: Option<string>)

  function Percent(k: nat, n: nat): (percent: nat) {
    if n == 0 then 0 else Rounded(100 * k, n)
  }

  function ProgressOf(ids: seq<string>, states: States): (p: Progress) {
    var done, n := CountDone(ids, states), |ids|;
    Progress(n, done, Percent(done, n), n > 0 && done == n, Current(ids, states))
  }

  method GetProgress(ids: seq<string>, states: States) returns (p: Progress)
    ensures p == ProgressOf(ids, states)
  {
    var done := 0;
    for i := 0 to |ids|
      invariant done == CountDone(ids[..i], states)
    {
      assert ids[..i + 1][..i] == ids[..i];
      if IsDone(states, ids[i]) { done := done + 1; }
    }
    assert ids[..|ids|] == ids;
    var i := 0;
    while i < |ids| && IsDone(states, ids[i])
      invariant i <= |ids| && Current(ids, states) == Current(ids[i..], states)
    {
      assert ids[i..][1..] == ids[i + 1..];
      i := i + 1;
    }
    if i == |ids| { assert ids[i..] == []; }
    var current := if i < |ids| then Some(ids[i]) else None;
    p := Progress(|ids|, done, Percent(done, |ids|), |ids| > 0 && done == |ids|, current);
  }

  datatype Answer = NotFound | NotActionable(current: Option<string>) | Completed(progress: Progress)

  /** What asking for one step to be completed does to the record. */
  function After(ids: seq<string>, states: States, id: string): (next: States) {
    if id in ids && !IsDone(states, id) && Current(ids, states) == Some(id) then states[id := true] else states
  }

  function AnswerTo(ids: seq<string>, states: States, id: string): (answer: Answer) {
    if id !in ids then NotFound
    else if IsDone(states, id) then Completed(ProgressOf(ids, states))
    else if Current(ids, states) != Some(id) then NotActionable(Current(ids, states))
    else Completed(ProgressOf(ids, states[id := true]))
  }

  // ---------------------------------------------------------------- the same, on the steps' states

  ghost predicate IsFirstUndone(ids: seq<string>, states: States, i: nat) {
    i < |ids| && !IsDone(states, ids[i]) && forall j :: 0 <= j < i ==> IsDone(states, ids[j])
  }

  ghost function DoneAt(ids: seq<string>, states: States): (p: nat -> bool) {
    (i: nat) => i < |ids| && IsDone(states, ids[i])
  }

  /** What a report of progress says. */
  ghost predicate IsProgress(ids: seq<string>, states: States, p: Progress) {
    && p.total == |ids| && p.completed == |Places(|ids|, DoneAt(ids, states))|
    && (p.allComplete <==> ids != [] && forall i :: 0 <= i < |ids| ==> IsDone(states, ids[i]))
    && (if ids == [] then p.percent == 0 else IsNearest(p.percent, 100 * p.completed, p.total))
    && (p.current.None? ==> forall i :: 0 <= i < |ids| ==> IsDone(states, ids[i]))
    && (p.current.Some? ==> exists i: nat :: IsFirstUndone(ids, states, i) && p.current.value == ids[i])
  }

  /** What asking for a step does: the record changes when it is the first one not done, and then only there; a step done
      already, or then, is answered with the progress made; any other with the one that comes first. */
  ghost predicate IsAnswered(ids: seq<string>, before: States, id: string, answer: Answer, after: States) {
    && after == (if exists i: nat :: IsFirstUndone(ids, before, i) && ids[i] == id then before[id := true] else before)
    && (answer.NotFound? <==> id !in ids)
    && (answer.NotActionable? <==> id in ids && !IsDone(before, id) && after == before)
    && (answer.NotActionable? ==> exists i: nat :: IsFirstUndone(ids, before, i) && answer.current == Some(ids[i]))
    && (answer.Completed? ==> IsProgress(ids, after, answer.progress))
  }

  lemma {:induction false} CurrentIs(ids: seq<string>, states: States) returns (i: nat)
    ensures Current(ids, states).None? ==> forall j :: 0 <= j < |ids| ==> IsDone(states, ids[j])
    ensures Current(ids, states).Some? ==> IsFirstUndone(ids, states, i) && Current(ids, states).value == ids[i]
  {
    i := 0;
    if ids != [] && IsDone(states, ids[0]) {
      var later := CurrentIs(ids[1..], states);
      i := later + 1;
      forall j | 0 < j < |ids| ensures ids[j] == ids[1..][j - 1] {}
    }
  }

  lemma {:induction false} CountIs(ids: seq<string>, states: States, n: nat)
    requires n <= |ids|
    ensures CountDone(ids[..n], states) == |Places(n, DoneAt(ids, states))|
    ensures CountDone(ids[..n], states) == n <==> forall i :: 0 <= i < n ==> IsDone(states, ids[i])
  {
    if n > 0 {
      CountIs(ids, states, n - 1);
      assert ids[..n][..n - 1] == ids[..n - 1];
    }
  }

  lemma ProgressIs(ids: seq<string>, states: States)
    ensures IsProgress(ids, states, ProgressOf(ids, states))
  {
    CountIs(ids, states, |ids|);
    assert ids[..|ids|] == ids;
    var i := CurrentIs(ids, states);
    if ids != [] { RoundedIsNearest(100 * CountDone(ids, states), |ids|); }
  }

  lemma OneFirstUndone(ids: seq<string>, states: States, i: nat, j: nat)
    requires IsFirstUndone(ids, states, i) && IsFirstUndone(ids, states, j)
    ensures i == j
  {
  }

  lemma AnswerIs(ids: seq<string>, states: States, id: string)
    ensures IsAnswered(ids, states, id, AnswerTo(ids, states, id), After(ids, states, id))
  {
    var first := CurrentIs(ids, states);
    if i: nat :| IsFirstUndone(ids, states, i) && ids[i] == id {
      if Current(ids, states).Some? { OneFirstUndone(ids, states, first, i); }
    }
    if id in ids && !IsDone(states, id) { assert states[id := true] != states; }
    ProgressIs(ids, After(ids, states, id));
  }

  class Operation {
    var states: States

    constructor ()
      ensures states == map[]
    {
      states := map[];
    }

    /** Completes the step if it is the next one; an answer that reports an error leaves the record as it was. */
    method CompleteStep(ids: seq<string>, id: string) returns (answer: Answer)
      modifies this
      ensures states == After(ids, old(states), id)
      ensures answer == AnswerTo(ids, old(states), id)
      ensures !answer.Completed? ==> states == old(states)
      ensures IsAnswered(ids, old(states), id, answer, states)
    {
      AnswerIs(ids, states, id);
      if id !in ids { return NotFound; }
      if IsDone(states, id) {
        var p := GetProgress(ids, states);
        return Completed(p);
      }
      var current: Option<string> := None;
      var i := 0;
      while i < |ids| && IsDone(states, ids[i])
        invariant i <= |ids| && Current(ids, states) == Current(ids[i..], states)
      {
        assert ids[i..][1..] == ids[i + 1..];
        i := i + 1;
      }
      if i < |ids| { current := Some(ids[i]); } else { assert ids[i..] == []; }
      if current != Some(id) { return NotActionable(current); }
      states := states[id := true];
      var p := GetProgress(ids, states);
      answer := Completed(p);
    }
  }

  // ---------------------------------------------------------------- runs

  /** The record after a run of requests, from an empty one. */
  function Run(ids: seq<string>, requests: seq<string>): (states: States) {
    if requests == [] then map[] else After(ids, Run(ids, requests[..|requests| - 1]), requests[|requests| - 1])
  }

  /** The requests of a run that completed a step. */
  function Effective(ids: seq<string>, requests: seq<string>): (n: nat)
    ensures n <= |requests|
  {
    if requests == [] then 0
    else
      var front, last := requests[..|requests| - 1], requests[|requests| - 1];
      Effective(ids, front) + (if After(ids, Run(ids, front), last) != Run(ids, front) then 1 else 0)
  }

  /** Exactly the first k steps are done. */
  ghost predicate IsPrefix(ids: seq<string>, states: States, k: nat) {
    k <= |ids| && forall i :: 0 <= i < |ids| ==> (IsDone(states, ids[i]) <==> i < k)
  }

  lemma {:induction false} PrefixCounts(ids: seq<string>, states: States, k: nat)
    requires IsPrefix(ids, states, k)
    ensures CountDone(ids, states) == k
  {
    if ids != [] {
      var n := |ids| - 1;
      PrefixCounts(ids[..n], states, if k <= n then k else n);
      assert IsDone(states, ids[n]) <==> n < k;
    }
  }

  lemma {:induction false} PrefixCurrent(ids: seq<string>, states: States, k: nat)
    requires IsPrefix(ids, states, k)
    ensures Current(ids, states) == if k < |ids| then Some(ids[k]) else None
  {
    if ids != [] {
      assert IsDone(states, ids[0]) <==> 0 < k;
      if k > 0 { PrefixCurrent(ids[1..], states, k - 1); }
    }
  }

  lemma OneMoreStep(ids: seq<string>, states: States, k: nat)
    requires NoDuplicates(ids) && IsPrefix(ids, states, k) && k < |ids|
    ensures IsPrefix(ids, states[ids[k] := true], k + 1)
  {
  }

  /** In every run, however many requests fail or are repeated, the steps done are the first ones, as many as
      there were effective requests; the current step is the next; and the procedure is finished exactly when
      there were as many effective requests as there are steps. */
  lemma {:induction false} RunsCompletePrefixes(ids: seq<string>, requests: seq<string>)
    requires NoDuplicates(ids)
    ensures var k, p := Effective(ids, requests), ProgressOf(ids, Run(ids, requests));
      && IsPrefix(ids, Run(ids, requests), k)
      && p.completed == k && p.current == (if k < |ids| then Some(ids[k]) else None)
      && (p.allComplete <==> |ids| > 0 && k == |ids|)
  {
    if requests != [] {
      var front, last := requests[..|requests| - 1], requests[|requests| - 1];
      var states, k := Run(ids, front), Effective(ids, front);
      RunsCompletePrefixes(ids, front);
      PrefixCurrent(ids, states, k);
      if After(ids, states, last) != states { OneMoreStep(ids, states, k); }
      if k < |ids| && last == ids[k] { assert !IsDone(states, ids[k]); }
    }
    PrefixCounts(ids, Run(ids, requests), Effective(ids, requests));
    PrefixCurrent(ids, Run(ids, requests), Effective(ids, requests));
  }

  // ---------------------------------------------------------------- the percentage

  /** A percentage of a hundred tells a finished procedure exactly when it has fewer than two hundred steps. */
  lemma HundredMeansFinishedExactlyWhen(n: nat)
    requires n > 0
    ensures (forall k: nat :: k <= n && Percent(k, n) == 100 ==> k == n) <==> n < 200
  {
    forall k: nat | k <= n ensures Percent(k, n) == 100 <==> 200 * (n - k) <= n { HundredExactlyWhen(k, n); }
    if n >= 200 { assert Percent(n - 1, n) == 100; }
  }
}
