/** Fitting a prompt's sections into a budget: the least important are dropped first, at most one is cut, and the
    header always stays. */
module PromptCompression {

  datatype Phase = Header | Architecture | BusinessKnowledge | Capabilities | Contracts | Standards

  datatype Section = Section(name: Phase, content: string, chars: nat, truncated: bool)

  function Priority(name: Phase): (p: nat) {
    match name
    case Header => 100
    case Architecture => 80
    case Capabilities => 70
    case BusinessKnowledge => 60
    case Contracts => 50
    case Standards => 40
  }

  /** The least important first. */
  const TRUNCATION_ORDER: seq<Phase> := [Standards, Contracts, BusinessKnowledge, Capabilities, Architecture, Header]

  const MARKER: string := "\n\n[... truncated due to budget ...]"

  /** Sections as rendering gives them: one for each name at most, none empty, each with its length. */
  ghost predicate AreRendered(sections: seq<Section>) {
    && (forall i :: 0 <= i < |sections| ==> IsRendered(sections[i]))
    && (forall i, j :: 0 <= i < j < |sections| ==> sections[i].name != sections[j].name)
  }

  predicate IsRendered(s: Section) {
    s.content != "" && s.chars == |s.content| && !s.truncated
  }

  function Total(sections: seq<Section>): (chars: nat) {
    if sections == [] then 0 else Total(sections[..|sections| - 1]) + sections[|sections| - 1].chars
  }

  lemma {:induction false} TotalUpdate(sections: seq<Section>, i: nat, s: Section)
    requires i < |sections|
    ensures Total(sections[i := s]) == Total(sections) - sections[i].chars + s.chars && Total(sections) >= sections[i].chars
  {
    var n := |sections| - 1;
    if i < n {
      TotalUpdate(sections[..n], i, s);
      assert sections[i := s][..n] == sections[..n][i := s];
    } else {
      assert sections[i := s][..n] == sections[..n];
    }
  }

  // ---------------------------------------------------------------- cutting one section

  /** The position of the last line break of the first n characters; none is 0. */
  function LastBreak(s: string, n: nat): (i: nat)
    requires n <= |s|
    ensures i <= n && (i > 0 ==> i < n && s[i] == '\n') && forall j :: i < j < n ==> s[j] != '\n'
  {
    if n == 0 then 0 else if s[n - 1] == '\n' then n - 1 else LastBreak(s, n - 1)
  }

  /** The beginning that is kept, up to its last line break if it has one past the first character, and the marker. */
  function CutContent(s: string, keep: nat): (content: string)
    ensures |MARKER| <= |content| <= keep + |MARKER|
  {
    var head := if keep <= |s| then s[..keep] else s;
    var at := LastBreak(head, |head|);
    (if at > 0 then head[..at] else head) + MARKER
  }

  /** What is kept of a cut section is a beginning of it, and the marker. */
  lemma CutIsBeginning(s: string, keep: nat)
    ensures exists n :: 0 <= n <= |s| && n <= keep && CutContent(s, keep) == s[..n] + MARKER
  {
    var head := if keep <= |s| then s[..keep] else s;
    var at := LastBreak(head, |head|);
    var n := if at > 0 then at else |head|;
    assert head[..|head|] == head && head[..n] == s[..n];
    assert CutContent(s, keep) == s[..n] + MARKER;
  }

  lemma {:induction false} LastBreakIs(s: string, n: nat, i: nat)
    requires 0 < i < n <= |s| && s[i] == '\n' && forall j :: i < j < n ==> s[j] != '\n'
    ensures LastBreak(s, n) == i
  {
    if i < n - 1 { LastBreakIs(s, n - 1, i); }
  }

  /** It ends before the last line break within what there is room for, when there is one past the first character, and
      otherwise where the room does. */
  lemma CutIsAt(s: string, keep: nat, i: nat)
    requires i <= keep <= |s| && forall j :: i < j < keep ==> s[j] != '\n'
    requires 0 < i < keep ==> s[i] == '\n'
    ensures 0 < i < keep ==> CutContent(s, keep) == s[..i] + MARKER
    ensures i == 0 ==> CutContent(s, keep) == s[..keep] + MARKER
  {
    var head := s[..keep];
    if 0 < i < keep {
      LastBreakIs(head, keep, i);
      assert head[..i] == s[..i];
    } else if i == 0 {
      NoBreak(head, keep);
    }
  }

  function Removed(s: Section): (r: Section) {
    Section(s.name, "", 0, true)
  }

  function CutSection(s: Section, keep: nat): (r: Section) {
    var content := CutContent(s.content, keep);
    Section(s.name, content, |content|, true)
  }

  // ---------------------------------------------------------------- one phase after the other

  datatype State = State(sections: seq<Section>, overflow: int, omitted: seq<Phase>)

  function IndexOf(sections: seq<Section>, name: Phase): (i: nat)
    ensures i <= |sections| && (i < |sections| ==> sections[i].name == name)
    ensures i == |sections| ==> forall j :: 0 <= j < |sections| ==> sections[j].name != name
  {
    if sections == [] then 0
    else
      var n := |sections| - 1;
      if sections[n].name == name then n
      else
        var i := IndexOf(sections[..n], name);
        if i == n then |sections| else i
  }

  function Truncate(s: State, name: Phase): (next: State) {
    var i := IndexOf(s.sections, name);
    if s.overflow <= 0 || i == |s.sections| || Priority(name) >= 100 then s
    else
      var section := s.sections[i];
      if section.chars <= s.overflow then
        State(s.sections[i := Removed(section)], s.overflow - section.chars, s.omitted + [name])
      else State(s.sections[i := CutSection(section, section.chars - s.overflow)], 0, s.omitted)
  }

  function TruncateUpTo(s: State, k: nat): (next: State)
    requires k <= |TRUNCATION_ORDER|
  {
    if k == 0 then s else Truncate(TruncateUpTo(s, k - 1), TRUNCATION_ORDER[k - 1])
  }

  function NotEmpty(sections: seq<Section>): (kept: seq<Section>) {
    if sections == [] then []
    else
      var before, last := NotEmpty(sections[..|sections| - 1]), sections[|sections| - 1];
      if last.content != "" then before + [last] else before
  }

  /** What enforcing the budget leaves; the sections as they are when they fit. */
  function Enforced(sections: seq<Section>, remaining: int): (s: State) {
    TruncateUpTo(State(sections, Total(sections) - remaining, []), |TRUNCATION_ORDER|)
  }

  method TruncateSection(s: State, name: Phase) returns (next: State)
    requires s.overflow > 0
    ensures next == Truncate(s, name)
  {
    var sections, overflow, omitted := s.sections, s.overflow, s.omitted;
    var i := IndexOf(sections, name);
    if i < |sections| && Priority(sections[i].name) < 100 {
      var section := sections[i];
      if section.chars <= overflow {
        overflow := overflow - section.chars;
        omitted := omitted + [section.name];
        sections := sections[i := Removed(section)];
      } else {
        sections := sections[i := CutSection(section, section.chars - overflow)];
        overflow := 0;
      }
    }
    next := State(sections, overflow, omitted);
  }

  lemma {:induction false} NothingMore(s: State, k: nat, n: nat)
    requires k <= n <= |TRUNCATION_ORDER| && (k == |TRUNCATION_ORDER| || TruncateUpTo(s, k).overflow <= 0)
    ensures TruncateUpTo(s, n) == TruncateUpTo(s, k)
  {
    if k < n { NothingMore(s, k, n - 1); }
  }

  method TruncateAll(start: State) returns (s: State)
    ensures s == TruncateUpTo(start, |TRUNCATION_ORDER|)
  {
    s := start;
    var k := 0;
    while k < |TRUNCATION_ORDER| && s.overflow > 0
      invariant k <= |TRUNCATION_ORDER| && s == TruncateUpTo(start, k)
    {
      s := TruncateSection(s, TRUNCATION_ORDER[k]);
      k := k + 1;
    }
    NothingMore(start, k, |TRUNCATION_ORDER|);
  }

  method SumChars(sections: seq<Section>) returns (total: nat)
    ensures total == Total(sections)
  {
    total := 0;
    for i := 0 to |sections|
      invariant total == Total(sections[..i])
    {
      assert sections[..i + 1][..i] == sections[..i];
      total := total + sections[i].chars;
    }
    assert sections[..|sections|] == sections;
  }

  method DropEmpty(sections: seq<Section>) returns (kept: seq<Section>)
    ensures kept == NotEmpty(sections)
  {
    kept := [];
    for i := 0 to |sections|
      invariant kept == NotEmpty(sections[..i])
    {
      assert sections[..i + 1][..i] == sections[..i];
      if sections[i].content != "" { kept := kept + [sections[i]]; }
    }
    assert sections[..|sections|] == sections;
  }

  /** The sections that are sent on. */
  function Result(sections: seq<Section>, remaining: int): (result: seq<Section>) {
    if Total(sections) <= remaining then sections else NotEmpty(Enforced(sections, remaining).sections)
  }

  method ApplyBudget(sections: seq<Section>, remaining: int) returns (result: seq<Section>, omitted: seq<Phase>)
    ensures result == Result(sections, remaining)
    ensures omitted == if Total(sections) <= remaining then [] else Enforced(sections, remaining).omitted
  {
    var total := SumChars(sections);
    if total <= remaining { return sections, []; }
    var s := TruncateAll(State(sections, total - remaining, []));
    result := DropEmpty(s.sections);
    omitted := s.omitted;
  }

  // ---------------------------------------------------------------- what the budget leaves

  /** How far down the truncation order a section stands. */
  function Rank(name: Phase): (r: nat)
    ensures r < |TRUNCATION_ORDER| && TRUNCATION_ORDER[r] == name
  {
    match name
    case Standards => 0
    case Contracts => 1
    case BusinessKnowledge => 2
    case Capabilities => 3
    case Architecture => 4
    case Header => 5
  }

  /** The truncation order is that of the priorities. */
  lemma RankIsByPriority(a: Phase, b: Phase)
    ensures Rank(a) < Rank(b) <==> Priority(a) < Priority(b)
  {
  }

  /** What goes first: standards, contracts, business knowledge, capabilities and architecture; the header never. */
  lemma PrioritiesAre()
    ensures Priority(Standards) < Priority(Contracts) < Priority(BusinessKnowledge) < Priority(Capabilities)
    ensures Priority(Capabilities) < Priority(Architecture) < Priority(Header)
  {
  }

  /** The part of a section that is left when it is cut: a beginning, and the marker. */
  ghost predicate IsCut(s: Section, r: Section) {
    && r.name == s.name && r.truncated && r.content != "" && r.chars == |r.content|
    && exists n :: 0 <= n <= |s.content| && r.content == s.content[..n] + MARKER
  }

  /** Everything of a lower rank than `stop` is gone, the section of that rank has been cut if `cut` says so, and the
      others are as they were; the header always is. */
  ghost predicate IsTruncated(s: Section, r: Section, stop: nat, cut: bool) {
    if s.name == Header then r == s
    else if Rank(s.name) < stop then r == Removed(s)
    else if Rank(s.name) == stop && cut then IsCut(s, r)
    else r == s
  }

  ghost predicate AreTruncated(before: seq<Section>, after: seq<Section>, stop: nat, cut: bool) {
    |after| == |before| && forall i :: 0 <= i < |before| ==> IsTruncated(before[i], after[i], stop, cut)
  }

  /** Where truncation stands after some phases, and how much is left then. */
  ghost predicate StandsAt(before: seq<Section>, remaining: int, s: State, k: nat, stop: nat, cut: bool) {
    && stop <= k && AreTruncated(before, s.sections, stop, cut)
    && s.overflow >= 0 && (s.overflow > 0 ==> stop == k && !cut)
    && (!cut ==> Total(s.sections) == remaining + s.overflow)
    && (cut ==> exists i :: 0 <= i < |before| && IsCutAt(before, remaining, s.sections, i, stop))
  }

  /** The characters of the header and of the sections of the rank and above. */
  function From(sections: seq<Section>, rank: nat): (chars: nat) {
    if sections == [] then 0
    else
      var last := sections[|sections| - 1];
      From(sections[..|sections| - 1], rank) + if Rank(last.name) >= rank || last.name == Header then last.chars else 0
  }

  /** The room for a section: what the header and the sections above it leave of the budget. */
  function Room(sections: seq<Section>, remaining: int, name: Phase): (keep: int) {
    remaining - From(sections, Rank(name) + 1)
  }

  /** The budget ends inside the section: there is room for a part of it. */
  predicate EndsInside(sections: seq<Section>, remaining: int, s: Section) {
    s.name != Header && 0 < Room(sections, remaining, s.name) < s.chars
  }

  ghost predicate IsCutAt(before: seq<Section>, remaining: int, after: seq<Section>, i: nat, stop: nat)
    requires i < |before| && |after| == |before|
  {
    && Rank(before[i].name) == stop && EndsInside(before, remaining, before[i])
    && after[i] == CutSection(before[i], Room(before, remaining, before[i].name))
  }

  lemma {:induction false} FromShrinks(sections: seq<Section>, low: nat, high: nat)
    requires low <= high
    ensures From(sections, high) <= From(sections, low) <= Total(sections)
  {
    if sections != [] { FromShrinks(sections[..|sections| - 1], low, high); }
  }

  lemma {:induction false} FromWithout(sections: seq<Section>, rank: nat)
    requires forall i :: 0 <= i < |sections| ==> Rank(sections[i].name) != rank || sections[i].name == Header
    ensures From(sections, rank) == From(sections, rank + 1)
  {
    if sections != [] { FromWithout(sections[..|sections| - 1], rank); }
  }

  /** A rank belongs to one section. */
  lemma {:induction false} FromStep(sections: seq<Section>, i: nat)
    requires AreRendered(sections) && i < |sections| && sections[i].name != Header
    ensures From(sections, Rank(sections[i].name)) == sections[i].chars + From(sections, Rank(sections[i].name) + 1)
  {
    var n, rank := |sections| - 1, Rank(sections[i].name);
    if i < n {
      assert sections[n].name != sections[i].name && TRUNCATION_ORDER[Rank(sections[n].name)] == sections[n].name;
      FromStep(sections[..n], i);
    } else {
      forall j | 0 <= j < n ensures Rank(sections[..n][j].name) != rank {
        assert sections[j].name != sections[i].name && TRUNCATION_ORDER[Rank(sections[j].name)] == sections[j].name;
      }
      FromWithout(sections[..n], rank);
    }
  }

  /** What is left when everything below a rank is gone. */
  lemma {:induction false} TotalIsFrom(before: seq<Section>, after: seq<Section>, stop: nat)
    requires AreTruncated(before, after, stop, false)
    ensures Total(after) == From(before, stop)
  {
    if before != [] {
      var n := |before| - 1;
      forall i | 0 <= i < n ensures IsTruncated(before[..n][i], after[..n][i], stop, false) {
        assert IsTruncated(before[i], after[i], stop, false);
      }
      assert IsTruncated(before[n], after[n], stop, false);
      TotalIsFrom(before[..n], after[..n], stop);
    }
  }

  /** What is left when a section has been cut. */
  lemma TotalWithCut(before: seq<Section>, remaining: int, after: seq<Section>, i: nat, stop: nat)
    requires AreRendered(before) && AreTruncated(before, after, stop, true)
    requires i < |before| && IsCutAt(before, remaining, after, i, stop)
    ensures Total(after) == From(before, stop + 1) + after[i].chars
    ensures Total(after) <= remaining <==> after[i].chars <= Room(before, remaining, before[i].name)
  {
    var gone := after[i := Removed(before[i])];
    forall j | 0 <= j < |before| ensures IsTruncated(before[j], gone[j], stop + 1, false) {
      assert IsTruncated(before[j], after[j], stop, true);
      assert j != i ==> before[j].name != before[i].name;
      assert TRUNCATION_ORDER[Rank(before[j].name)] == before[j].name;
    }
    TotalIsFrom(before, gone, stop + 1);
    TotalUpdate(after, i, Removed(before[i]));
  }

  lemma NamesStay(before: seq<Section>, after: seq<Section>, stop: nat, cut: bool)
    requires AreTruncated(before, after, stop, cut)
    ensures forall i :: 0 <= i < |before| ==> after[i].name == before[i].name
  {
    forall i | 0 <= i < |before| ensures after[i].name == before[i].name {
      assert IsTruncated(before[i], after[i], stop, cut);
    }
  }

  lemma RankOf(k: nat)
    requires k < |TRUNCATION_ORDER|
    ensures Rank(TRUNCATION_ORDER[k]) == k && (TRUNCATION_ORDER[k] != Header ==> Priority(TRUNCATION_ORDER[k]) < 100)
    ensures forall name :: Rank(name) == k ==> name == TRUNCATION_ORDER[k]
  {
  }

  /** A rank that no section has, or the header's, is passed over. */
  lemma PassOver(before: seq<Section>, after: seq<Section>, k: nat)
    requires AreTruncated(before, after, k, false)
    requires forall i :: 0 <= i < |before| ==> Rank(before[i].name) != k || before[i].name == Header
    ensures AreTruncated(before, after, k + 1, false)
  {
    forall i | 0 <= i < |before| ensures IsTruncated(before[i], after[i], k + 1, false) {
      assert IsTruncated(before[i], after[i], k, false);
    }
  }

  lemma Replace(before: seq<Section>, after: seq<Section>, k: nat, i: nat, r: Section, stop: nat, cut: bool)
    requires AreRendered(before) && AreTruncated(before, after, k, false) && i < |before|
    requires Rank(before[i].name) == k && before[i].name != Header && IsTruncated(before[i], r, stop, cut)
    requires (stop == k && cut) || (stop == k + 1 && !cut)
    ensures AreTruncated(before, after[i := r], stop, cut) && after[i] == before[i]
  {
    assert IsTruncated(before[i], after[i], k, false);
    forall j | 0 <= j < |before| ensures IsTruncated(before[j], after[i := r][j], stop, cut) {
      assert IsTruncated(before[j], after[j], k, false);
      assert j != i ==> before[j].name != before[i].name;
    }
  }

  lemma CutIsCut(s: Section, keep: nat)
    requires IsRendered(s)
    ensures IsCut(s, CutSection(s, keep)) && CutSection(s, keep).chars <= keep + |MARKER| && CutSection(s, keep) != s
  {
    CutIsBeginning(s.content, keep);
  }

  /** One phase more. */
  lemma StandsAfter(before: seq<Section>, remaining: int, s: State, k: nat, name: Phase, stop: nat, cut: bool)
    returns (at: nat, cutNow: bool)
    requires AreRendered(before) && Rank(name) == k && (name != Header ==> Priority(name) < 100)
    requires StandsAt(before, remaining, s, k, stop, cut)
    ensures StandsAt(before, remaining, Truncate(s, name), k + 1, at, cutNow)
  {
    var i := IndexOf(s.sections, name);
    NamesStay(before, s.sections, stop, cut);
    at, cutNow := stop, cut;
    if s.overflow > 0 {
      if i == |s.sections| || name == Header {
        PassOver(before, s.sections, k);
        at := k + 1;
      } else {
        at, cutNow := TruncateAt(before, remaining, s, k, i, Truncate(s, name));
      }
    }
  }

  lemma RemoveAt(before: seq<Section>, remaining: int, s: State, k: nat, i: nat, next: State)
    requires AreRendered(before) && StandsAt(before, remaining, s, k, k, false) && i < |before|
    requires Rank(before[i].name) == k && before[i].name != Header && 0 < s.overflow && s.sections[i].chars <= s.overflow
    requires next.sections == s.sections[i := Removed(s.sections[i])] && next.overflow == s.overflow - s.sections[i].chars
    ensures StandsAt(before, remaining, next, k + 1, k + 1, false)
  {
    Replace(before, s.sections, k, i, Removed(before[i]), k + 1, false);
    TotalUpdate(s.sections, i, Removed(s.sections[i]));
  }

  /** When the phase of a section comes and something has to go, the room for it is what it has without that. */
  lemma RoomIs(before: seq<Section>, remaining: int, s: State, i: nat)
    requires AreRendered(before) && i < |before| && before[i].name != Header
    requires AreTruncated(before, s.sections, Rank(before[i].name), false) && Total(s.sections) == remaining + s.overflow
    ensures s.sections[i] == before[i] && Room(before, remaining, before[i].name) == before[i].chars - s.overflow
  {
    assert IsTruncated(before[i], s.sections[i], Rank(before[i].name), false);
    TotalIsFrom(before, s.sections, Rank(before[i].name));
    FromStep(before, i);
  }

  lemma CutSectionAt(before: seq<Section>, remaining: int, s: State, k: nat, i: nat, r: Section, next: State)
    requires AreRendered(before) && StandsAt(before, remaining, s, k, k, false) && i < |before|
    requires Rank(before[i].name) == k && before[i].name != Header && 0 < s.overflow < before[i].chars
    requires r == CutSection(before[i], before[i].chars - s.overflow)
    requires next.sections == s.sections[i := r] && next.overflow == 0
    ensures StandsAt(before, remaining, next, k + 1, k, true)
  {
    assert IsRendered(before[i]);
    CutIsCut(before[i], before[i].chars - s.overflow);
    Replace(before, s.sections, k, i, r, k, true);
    RoomIs(before, remaining, s, i);
    assert IsCutAt(before, remaining, next.sections, i, k);
  }

  lemma TruncateStep(s: State, name: Phase, i: nat, next: State)
    requires s.overflow > 0 && Priority(name) < 100 && i == IndexOf(s.sections, name) < |s.sections|
    requires next == Truncate(s, name)
    ensures var section := s.sections[i];
      if section.chars <= s.overflow
      then next.sections == s.sections[i := Removed(section)] && next.overflow == s.overflow - section.chars
      else next.sections == s.sections[i := CutSection(section, section.chars - s.overflow)] && next.overflow == 0
  {
  }

  lemma TruncateAt(before: seq<Section>, remaining: int, s: State, k: nat, i: nat, next: State) returns (at: nat, cut: bool)
    requires AreRendered(before) && StandsAt(before, remaining, s, k, k, false) && s.overflow > 0 && i < |before|
    requires Rank(before[i].name) == k && before[i].name != Header && Priority(before[i].name) < 100
    requires i == IndexOf(s.sections, before[i].name) && next == Truncate(s, before[i].name)
    ensures StandsAt(before, remaining, next, k + 1, at, cut)
  {
    RoomIs(before, remaining, s, i);
    TruncateStep(s, before[i].name, i, next);
    if before[i].chars <= s.overflow {
      at, cut := k + 1, false;
      RemoveAt(before, remaining, s, k, i, next);
    } else {
      at, cut := k, true;
      CutSectionAt(before, remaining, s, k, i, CutSection(before[i], before[i].chars - s.overflow), next);
    }
  }

  lemma {:induction false} StandsAfterAll(before: seq<Section>, remaining: int, k: nat) returns (at: nat, cut: bool)
    requires AreRendered(before) && Total(before) > remaining && k <= |TRUNCATION_ORDER|
    ensures StandsAt(before, remaining, TruncateUpTo(State(before, Total(before) - remaining, []), k), k, at, cut)
  {
    if k == 0 {
      at, cut := 0, false;
      forall i | 0 <= i < |before| ensures IsTruncated(before[i], before[i], 0, false) {}
    } else {
      var stop, was := StandsAfterAll(before, remaining, k - 1);
      var s := TruncateUpTo(State(before, Total(before) - remaining, []), k - 1);
      RankOf(k - 1);
      at, cut := StandsAfter(before, remaining, s, k - 1, TRUNCATION_ORDER[k - 1], stop, was);
    }
  }

  lemma {:induction false} NotEmptyTotal(sections: seq<Section>)
    requires forall i :: 0 <= i < |sections| ==> (sections[i].content == "" ==> sections[i].chars == 0)
    ensures Total(NotEmpty(sections)) == Total(sections)
  {
    if sections != [] {
      NotEmptyTotal(sections[..|sections| - 1]);
      var kept, last := NotEmpty(sections[..|sections| - 1]), sections[|sections| - 1];
      assert (kept + [last])[..|kept|] == kept;
    }
  }

  lemma {:induction false} NotEmptyMembers(sections: seq<Section>, s: Section)
    ensures s in NotEmpty(sections) <==> s in sections && s.content != ""
  {
    if sections != [] {
      NotEmptyMembers(sections[..|sections| - 1], s);
      assert sections == sections[..|sections| - 1] + [sections[|sections| - 1]];
    }
  }

  lemma EmptiesCountNothing(before: seq<Section>, after: seq<Section>, stop: nat, cut: bool)
    requires AreRendered(before) && AreTruncated(before, after, stop, cut)
    ensures Total(NotEmpty(after)) == Total(after)
  {
    forall i | 0 <= i < |after| ensures after[i].content == "" ==> after[i].chars == 0 {
      assert IsTruncated(before[i], after[i], stop, cut) && IsRendered(before[i]);
    }
    NotEmptyTotal(after);
  }

  predicate IsWholeOrGone(s: Section, r: Section) {
    r == s || r == Removed(s)
  }

  /** A section is touched only when every one of lower priority is gone; one at most is neither whole nor gone; and
      the header is as it was. */
  lemma TouchedInOrder(before: seq<Section>, after: seq<Section>, stop: nat, cut: bool, i: nat, j: nat)
    requires AreRendered(before) && AreTruncated(before, after, stop, cut) && i < |before| && j < |before|
    ensures Priority(before[i].name) < Priority(before[j].name) && after[j] != before[j] ==> after[i] == Removed(before[i])
    ensures i != j ==> IsWholeOrGone(before[i], after[i]) || IsWholeOrGone(before[j], after[j])
    ensures before[i].name == Header ==> after[i] == before[i]
    ensures after[i].name == before[i].name && after[i].chars <= before[i].chars + |MARKER|
  {
    assert IsTruncated(before[i], after[i], stop, cut) && IsTruncated(before[j], after[j], stop, cut);
    assert IsRendered(before[i]);
    RankIsByPriority(before[i].name, before[j].name);
    RankOf(Rank(before[i].name));
  }

  /** Enforcing a budget that is exceeded: in the order of sections there were, every section of lower priority than
      some one is gone, that one may be cut, the others and the header are as they were; and either only the header is
      left or what is left exceeds the budget by one marker at most. */
  lemma BudgetIsKept(before: seq<Section>, remaining: int) returns (after: seq<Section>, stop: nat, cut: bool)
    requires AreRendered(before) && Total(before) > remaining
    ensures AreTruncated(before, after, stop, cut) && Result(before, remaining) == NotEmpty(after)
    ensures Total(Result(before, remaining)) <= remaining + |MARKER|
         || forall s :: s in Result(before, remaining) ==> s.name == Header
  {
    stop, cut := StandsAfterAll(before, remaining, |TRUNCATION_ORDER|);
    var s := Enforced(before, remaining);
    after := s.sections;
    EmptiesCountNothing(before, after, stop, cut);
    if cut {
      var i :| 0 <= i < |before| && IsCutAt(before, remaining, after, i, stop);
      TotalWithCut(before, remaining, after, i, stop);
    } else if s.overflow > 0 {
      forall r | r in NotEmpty(after) ensures r.name == Header {
        NotEmptyMembers(after, r);
        var i :| 0 <= i < |after| && after[i] == r;
        assert IsTruncated(before[i], after[i], stop, cut);
      }
    }
  }

  // ---------------------------------------------------------------- when the budget is kept

  /** The marker of a section cut to `keep` characters fits: there is a line break past the first character, and what
      stands before the last one leaves room for the marker. */
  predicate MarkerFits(s: Section, keep: int) {
    0 < keep <= |s.content| && 0 < LastBreak(s.content[..keep], keep) <= keep - |MARKER|
  }

  lemma CutFits(s: Section, keep: nat)
    requires IsRendered(s) && 0 < keep < s.chars
    ensures CutSection(s, keep).chars <= keep <==> MarkerFits(s, keep)
  {
  }

  /** The header fits, and should the budget end inside a section, the marker of what is kept of it fits. */
  predicate CanBeKept(sections: seq<Section>, remaining: int) {
    && From(sections, |TRUNCATION_ORDER|) <= remaining
    && forall i :: 0 <= i < |sections| && EndsInside(sections, remaining, sections[i])
         ==> MarkerFits(sections[i], Room(sections, remaining, sections[i].name))
  }

  /** The budget ends inside one section at most. */
  lemma EndsInsideOne(sections: seq<Section>, remaining: int, i: nat, j: nat)
    requires AreRendered(sections) && i < |sections| && j < |sections|
    requires EndsInside(sections, remaining, sections[i]) && EndsInside(sections, remaining, sections[j])
    ensures i == j
  {
    var low, high := Rank(sections[i].name), Rank(sections[j].name);
    FromStep(sections, i);
    FromStep(sections, j);
    if low < high {
      FromShrinks(sections, low + 1, high);
    } else if high < low {
      FromShrinks(sections, high + 1, low);
    } else {
      assert TRUNCATION_ORDER[low] == sections[i].name == sections[j].name;
    }
  }

  /** A budget met by sections that are gone as a whole ends inside none. */
  lemma EndsInsideNone(sections: seq<Section>, remaining: int, stop: nat, i: nat)
    requires AreRendered(sections) && i < |sections| && From(sections, stop) == remaining
    ensures !EndsInside(sections, remaining, sections[i])
  {
    var s := sections[i];
    if s.name != Header {
      FromStep(sections, i);
      if Rank(s.name) < stop { FromShrinks(sections, Rank(s.name) + 1, stop); }
      else { FromShrinks(sections, stop, Rank(s.name)); }
    }
  }

  /** With a section cut, the budget is kept exactly when its marker fits. */
  lemma KeptWithCut(before: seq<Section>, remaining: int, after: seq<Section>, i: nat, stop: nat)
    requires AreRendered(before) && AreTruncated(before, after, stop, true)
    requires i < |before| && IsCutAt(before, remaining, after, i, stop)
    ensures Total(after) <= remaining <==> CanBeKept(before, remaining)
  {
    var keep := Room(before, remaining, before[i].name);
    assert IsRendered(before[i]);
    TotalWithCut(before, remaining, after, i, stop);
    CutFits(before[i], keep);
    FromShrinks(before, stop + 1, |TRUNCATION_ORDER|);
    forall j | 0 <= j < |before| && EndsInside(before, remaining, before[j]) ensures j == i {
      EndsInsideOne(before, remaining, i, j);
    }
  }

  /** What is sent on is within the budget exactly when everything fits, or the header fits and the budget does not
      end inside a section whose marker has no room. */
  lemma KeptExactlyWhen(before: seq<Section>, remaining: int)
    requires AreRendered(before)
    ensures Total(Result(before, remaining)) <= remaining <==> Total(before) <= remaining || CanBeKept(before, remaining)
  {
    if Total(before) > remaining {
      var stop, cut := StandsAfterAll(before, remaining, |TRUNCATION_ORDER|);
      var s := Enforced(before, remaining);
      EmptiesCountNothing(before, s.sections, stop, cut);
      if cut {
        var i :| 0 <= i < |before| && IsCutAt(before, remaining, s.sections, i, stop);
        KeptWithCut(before, remaining, s.sections, i, stop);
      } else {
        TotalIsFrom(before, s.sections, stop);
        FromShrinks(before, stop, |TRUNCATION_ORDER|);
        if s.overflow == 0 {
          forall i | 0 <= i < |before| ensures !EndsInside(before, remaining, before[i]) {
            EndsInsideNone(before, remaining, stop, i);
          }
        }
      }
    }
  }

  /** The exact size of what is sent on when the budget ends inside a section. */
  lemma SizeWithCut(before: seq<Section>, remaining: int, i: nat)
    requires AreRendered(before) && i < |before| && EndsInside(before, remaining, before[i])
    ensures var keep := Room(before, remaining, before[i].name);
      Total(Result(before, remaining)) == remaining - keep + CutSection(before[i], keep).chars
  {
    FromStep(before, i);
    FromShrinks(before, 0, Rank(before[i].name));
    var stop, cut := StandsAfterAll(before, remaining, |TRUNCATION_ORDER|);
    var s := Enforced(before, remaining);
    EmptiesCountNothing(before, s.sections, stop, cut);
    if cut {
      var j :| 0 <= j < |before| && IsCutAt(before, remaining, s.sections, j, stop);
      EndsInsideOne(before, remaining, i, j);
      TotalWithCut(before, remaining, s.sections, i, stop);
    } else {
      TotalIsFrom(before, s.sections, stop);
      FromShrinks(before, Rank(before[i].name) + 1, |TRUNCATION_ORDER|);
      EndsInsideNone(before, remaining, stop, i);
    }
  }

  lemma {:induction false} NoBreak(s: string, n: nat)
    requires n <= |s| && forall i :: 0 < i < n ==> s[i] != '\n'
    ensures LastBreak(s, n) == 0
  {
    if n > 0 { NoBreak(s, n - 1); }
  }

  /** When the budget ends in the first line of a section, what is sent on is a whole marker over the budget. */
  lemma WholeMarkerOver(before: seq<Section>, remaining: int, i: nat)
    requires AreRendered(before) && i < |before| && EndsInside(before, remaining, before[i])
    requires forall k :: 0 < k < Room(before, remaining, before[i].name) <= |before[i].content| ==> before[i].content[k] != '\n'
    ensures Total(Result(before, remaining)) == remaining + |MARKER|
  {
    var keep := Room(before, remaining, before[i].name);
    assert IsRendered(before[i]);
    SizeWithCut(before, remaining, i);
    NoBreak(before[i].content[..keep], keep);
  }

  lemma SizesSnoc(sections: seq<Section>, s: Section, rank: nat)
    ensures Total(sections + [s]) == Total(sections) + s.chars
    ensures From(sections + [s], rank) == From(sections, rank) + if Rank(s.name) >= rank || s.name == Header then s.chars else 0
  {
    assert (sections + [s])[..|sections|] == sections;
  }

  const REQUEST := Section(Header, "## Request", 10, false)
  const STANDARDS := Section(Standards, "## Standards\n\nName things.", 26, false)

  /** A request and standards that exceed the budget by less than a marker: what is sent on is longer than both. */
  lemma MarkerIsOverBudget()
    ensures var before := [REQUEST, STANDARDS];
      && AreRendered(before) && !CanBeKept(before, 22)
      && Total(Result(before, 22)) == 22 + |MARKER| == 57 > Total(before) == 36
  {
    var before := [REQUEST, STANDARDS];
    SizesSnoc([], REQUEST, 1);
    SizesSnoc([REQUEST], STANDARDS, 1);
    assert [] + [REQUEST] == [REQUEST] && [REQUEST] + [STANDARDS] == before;
    WholeMarkerOver(before, 22, 1);
    KeptExactlyWhen(before, 22);
  }

  // ---------------------------------------------------------------- what is reported as omitted

  ghost predicate IsGone(before: seq<Section>, after: seq<Section>, name: Phase)
    requires |after| == |before|
  {
    exists i :: 0 <= i < |before| && before[i].name == name && after[i] == Removed(before[i])
  }

  /** The names of the sections that are gone, and no others, by priority. */
  ghost predicate AreOmitted(before: seq<Section>, s: State)
    requires |s.sections| == |before|
  {
    && (forall name :: name in s.omitted <==> IsGone(before, s.sections, name))
    && (forall i, j :: 0 <= i < j < |s.omitted| ==> Priority(s.omitted[i]) < Priority(s.omitted[j]))
  }

  lemma GoneAfter(before: seq<Section>, after: seq<Section>, i: nat, r: Section, name: Phase)
    requires AreRendered(before) && |after| == |before| && i < |before| && after[i] == before[i]
    ensures IsGone(before, after[i := r], name) <==> IsGone(before, after, name) || (name == before[i].name && r == Removed(before[i]))
  {
    assert IsRendered(before[i]);
    if j :| 0 <= j < |before| && before[j].name == name && after[j] == Removed(before[j]) {
      assert after[i := r][j] == after[j];
    }
    if r == Removed(before[i]) { assert after[i := r][i] == r; }
  }

  /** Whose names rank below k. */
  ghost predicate RankBelow(names: seq<Phase>, k: nat) {
    forall n :: n in names ==> Rank(n) < k
  }

  lemma OmittedGrows(before: seq<Section>, s: State, name: Phase, k: nat, stop: nat, cut: bool)
    requires AreRendered(before) && AreTruncated(before, s.sections, stop, cut) && stop <= k
    requires AreOmitted(before, s) && (s.overflow > 0 ==> stop == k && !cut) && Rank(name) == k && RankBelow(s.omitted, k)
    ensures var next := Truncate(s, name);
      |next.sections| == |before| && AreOmitted(before, next) && RankBelow(next.omitted, k + 1)
  {
    var i := IndexOf(s.sections, name);
    NamesStay(before, s.sections, stop, cut);
    if s.overflow > 0 && i < |s.sections| && Priority(name) < 100 {
      var section := s.sections[i];
      assert IsTruncated(before[i], section, stop, cut) && IsRendered(before[i]);
      var r := if section.chars <= s.overflow then Removed(section) else CutSection(section, section.chars - s.overflow);
      assert r == Removed(before[i]) <==> section.chars <= s.overflow;
      forall n ensures IsGone(before, s.sections[i := r], n) <==> IsGone(before, s.sections, n) || (n == name && r == Removed(before[i])) {
        GoneAfter(before, s.sections, i, r, n);
      }
      forall n | n in s.omitted ensures Priority(n) < Priority(name) { RankIsByPriority(n, name); }
    }
  }

  lemma NothingIsGone(before: seq<Section>, s: State)
    requires AreRendered(before) && s.sections == before && s.omitted == []
    ensures AreOmitted(before, s)
  {
    forall i | 0 <= i < |before| ensures before[i] != Removed(before[i]) { assert IsRendered(before[i]); }
  }

  lemma {:induction false} OmittedUpTo(before: seq<Section>, remaining: int, k: nat) returns (s: State)
    requires AreRendered(before) && Total(before) > remaining && k <= |TRUNCATION_ORDER|
    ensures s == TruncateUpTo(State(before, Total(before) - remaining, []), k)
    ensures |s.sections| == |before| && AreOmitted(before, s) && RankBelow(s.omitted, k)
  {
    if k == 0 {
      s := State(before, Total(before) - remaining, []);
      NothingIsGone(before, s);
    } else {
      var earlier := OmittedUpTo(before, remaining, k - 1);
      var stop, cut := StandsAfterAll(before, remaining, k - 1);
      RankOf(k - 1);
      OmittedGrows(before, earlier, TRUNCATION_ORDER[k - 1], k - 1, stop, cut);
      s := Truncate(earlier, TRUNCATION_ORDER[k - 1]);
    }
  }

  /** Enforcing a budget that is exceeded reports exactly the sections that are gone, by priority. */
  lemma OmittedAreGone(before: seq<Section>, remaining: int)
    requires AreRendered(before) && Total(before) > remaining
    ensures |Enforced(before, remaining).sections| == |before| && AreOmitted(before, Enforced(before, remaining))
  {
    var s := OmittedUpTo(before, remaining, |TRUNCATION_ORDER|);
  }

  lemma SomethingChanges(before: seq<Section>, remaining: int, s: State, i: nat, stop: nat, cut: bool)
    requires StandsAt(before, remaining, s, |TRUNCATION_ORDER|, stop, cut) && Total(before) > remaining
    requires AreRendered(before) && i < |before| && before[i].name != Header
    ensures s.sections != before
  {
    if cut {
      var c :| 0 <= c < |before| && IsCutAt(before, remaining, s.sections, c, stop);
      assert IsTruncated(before[c], s.sections[c], stop, cut);
      assert s.sections[c].truncated;
    } else if s.overflow > 0 {
      assert IsTruncated(before[i], s.sections[i], stop, cut);
    }
  }

  lemma HeaderStays(before: seq<Section>, after: seq<Section>, stop: nat, cut: bool)
    requires AreRendered(before) && AreTruncated(before, after, stop, cut)
    requires forall i :: 0 <= i < |before| ==> before[i].name == Header
    ensures NotEmpty(after) == before
  {
    forall i | 0 <= i < |before| ensures after[i] == before[i] { assert IsTruncated(before[i], after[i], stop, cut); }
    assert after == before;
    AllKept(before);
  }

  // ---------------------------------------------------------------- when nothing is done

  /** The sections are sent on as they are exactly when they fit, or there is only a header. */
  lemma UntouchedExactlyWhen(before: seq<Section>, remaining: int)
    requires AreRendered(before)
    ensures Result(before, remaining) == before
      <==> (Total(before) <= remaining || forall i :: 0 <= i < |before| ==> before[i].name == Header)
  {
    if Total(before) > remaining {
      var stop, cut := StandsAfterAll(before, remaining, |TRUNCATION_ORDER|);
      var s := Enforced(before, remaining);
      if forall i :: 0 <= i < |before| ==> before[i].name == Header {
        HeaderStays(before, s.sections, stop, cut);
      } else {
        var i :| 0 <= i < |before| && before[i].name != Header;
        SomethingChanges(before, remaining, s, i, stop, cut);
        NotEmptyIsShorter(s.sections);
      }
    }
  }

  lemma {:induction false} AllKept(sections: seq<Section>)
    requires forall i :: 0 <= i < |sections| ==> IsRendered(sections[i])
    ensures NotEmpty(sections) == sections
  {
    if sections != [] {
      AllKept(sections[..|sections| - 1]);
      assert sections == sections[..|sections| - 1] + [sections[|sections| - 1]];
    }
  }

  lemma {:induction false} NotEmptyIsShorter(sections: seq<Section>)
    ensures |NotEmpty(sections)| <= |sections| && (|NotEmpty(sections)| == |sections| ==> NotEmpty(sections) == sections)
  {
    if sections != [] {
      NotEmptyIsShorter(sections[..|sections| - 1]);
      assert sections == sections[..|sections| - 1] + [sections[|sections| - 1]];
    }
  }
}
