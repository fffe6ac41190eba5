/** Is it safe to proceed? Objects are judged by rules, categories get a status and a score, and a scenario
    weighs its categories. */
module ReadinessEngine {
  import opened Ordering
  import opened Rounding
  import opened Text

  // ---------------------------------------------------------------- judging objects

  type Object = map<string, string>

  /** An object with this value in this field has an issue. */
  datatype Rule = Rule(field: string, value: string, reason: string)

  datatype Source = Source(kind: string, idField: string, objects: seq<Object>, blockers: seq<Rule>, warnings: seq<Rule>)

  datatype Issue = Issue(kind: string, id: string, reason: string)

  predicate Applies(rule: Rule, o: Object) {
    rule.field in o && o[rule.field] == rule.value
  }

  /** The first rule that applies. */
  function FirstRule(rules: seq<Rule>, o: Object): (rule: Option<Rule>)
    ensures rule.Some? <==> exists r :: r in rules && Applies(r, o)
  {
    if rules == [] then None else if Applies(rules[0], o) then Some(rules[0]) else FirstRule(rules[1..], o)
  }

  function IdOf(source: Source, o: Object): (id: string) {
    if source.idField in o then o[source.idField] else ""
  }

  function IssueOf(source: Source, o: Object, rule: Rule): (issue: Issue) {
    Issue(source.kind, IdOf(source, o), rule.reason)
  }

  /** What the objects judged so far come to. */
  datatype Tally = Tally(checked: nat, healthy: nat, blockers: seq<Issue>, warnings: seq<Issue>)

  /** Each object counts once: by its first blocker, else by its first warning, else as healthy. */
  function Judge(t: Tally, source: Source, o: Object): (next: Tally) {
    var blocker, warning := FirstRule(source.blockers, o), FirstRule(source.warnings, o);
    if blocker.Some? then t.(checked := t.checked + 1, blockers := t.blockers + [IssueOf(source, o, blocker.value)])
    else if warning.Some? then t.(checked := t.checked + 1, warnings := t.warnings + [IssueOf(source, o, warning.value)])
    else t.(checked := t.checked + 1, healthy := t.healthy + 1)
  }

  function JudgeAll(t: Tally, source: Source, objects: seq<Object>): (next: Tally) {
    if objects == [] then t else Judge(JudgeAll(t, source, objects[..|objects| - 1]), source, objects[|objects| - 1])
  }

  function TallyOf(sources: seq<Source>): (t: Tally) {
    if sources == [] then Tally(0, 0, [], [])
    else
      var last := sources[|sources| - 1];
      JudgeAll(TallyOf(sources[..|sources| - 1]), last, last.objects)
  }

  method FindRule(rules: seq<Rule>, o: Object) returns (rule: Option<Rule>)
    ensures rule == FirstRule(rules, o)
  {
    var i := 0;
    while i < |rules| && !Applies(rules[i], o)
      invariant i <= |rules| && FirstRule(rules, o) == FirstRule(rules[i..], o)
    {
      assert rules[i..][1..] == rules[i + 1..];
      i := i + 1;
    }
    if i == |rules| { assert rules[i..] == []; }
    rule := if i < |rules| then Some(rules[i]) else None;
  }

  method JudgeObjects(t: Tally, source: Source) returns (next: Tally)
    ensures next == JudgeAll(t, source, source.objects)
  {
    var checked, healthy, blockers, warnings := t.checked, t.healthy, t.blockers, t.warnings;
    for i := 0 to |source.objects|
      invariant Tally(checked, healthy, blockers, warnings) == JudgeAll(t, source, source.objects[..i])
    {
      var o := source.objects[i];
      assert source.objects[..i + 1][..i] == source.objects[..i];
      checked := checked + 1;
      var blocker := FindRule(source.blockers, o);
      if blocker.Some? {
        blockers := blockers + [IssueOf(source, o, blocker.value)];
      } else {
        var warning := FindRule(source.warnings, o);
        if warning.Some? {
          warnings := warnings + [IssueOf(source, o, warning.value)];
        } else {
          healthy := healthy + 1;
        }
      }
    }
    assert source.objects[..|source.objects|] == source.objects;
    next := Tally(checked, healthy, blockers, warnings);
  }

  // ---------------------------------------------------------------- categories

  datatype Status = Ready | Warning | Blocked

  datatype Result = Result(status: Status, score: nat, blockers: seq<Issue>, warnings: seq<Issue>, checked: nat, healthy: nat)

  /** A category: whether its runtime is configured, where it has one, and the objects it looks at. */
  datatype Category = Category(name: string, configured: Option<bool>, sources: seq<Source>)

  predicate IsConfigured(c: Category) {
    c.configured != Some(false)
  }

  function Percentage(healthy: nat, checked: nat): (score: nat) {
    if checked == 0 then 100 else Rounded(100 * healthy, checked)
  }

  function StatusOf(t: Tally): (status: Status) {
    if t.blockers != [] then Blocked else if t.warnings != [] then Warning else Ready
  }

  function ResultOf(c: Category): (r: Result) {
    if !IsConfigured(c) then
      Result(Warning, 0, [], [Issue("runtime", c.name, "runtime is not configured")], 0, 0)
    else
      var t := TallyOf(c.sources);
      Result(StatusOf(t), Percentage(t.healthy, t.checked), t.blockers, t.warnings, t.checked, t.healthy)
  }

  method EvaluateCategory(c: Category) returns (r: Result)
    ensures r == ResultOf(c)
  {
    if c.configured == Some(false) {
      return Result(Warning, 0, [], [Issue("runtime", c.name, "runtime is not configured")], 0, 0);
    }
    var t := Tally(0, 0, [], []);
    for i := 0 to |c.sources|
      invariant t == TallyOf(c.sources[..i])
    {
      assert c.sources[..i + 1][..i] == c.sources[..i];
      t := JudgeObjects(t, c.sources[i]);
    }
    assert c.sources[..|c.sources|] == c.sources;
    var status := if t.blockers != [] then Blocked else if t.warnings != [] then Warning else Ready;
    r := Result(status, Percentage(t.healthy, t.checked), t.blockers, t.warnings, t.checked, t.healthy);
  }

  predicate Balances(t: Tally) {
    t.checked == t.healthy + |t.blockers| + |t.warnings|
  }

  lemma {:induction false} JudgingBalances(t: Tally, source: Source, objects: seq<Object>)
    requires Balances(t)
    ensures Balances(JudgeAll(t, source, objects))
  {
    if objects != [] { JudgingBalances(t, source, objects[..|objects| - 1]); }
  }

  lemma {:induction false} TallyBalances(sources: seq<Source>)
    ensures Balances(TallyOf(sources))
  {
    if sources != [] {
      var last := sources[|sources| - 1];
      TallyBalances(sources[..|sources| - 1]);
      JudgingBalances(TallyOf(sources[..|sources| - 1]), last, last.objects);
    }
  }

  /** The object has the rule's field, with the rule's value. */
  ghost predicate Shows(o: Object, rule: Rule) {
    exists v :: (rule.field, v) in o.Items && v == rule.value
  }

  /** The first rule of the list that the object shows. */
  ghost predicate IsFirstRule(rules: seq<Rule>, o: Object, k: nat) {
    k < |rules| && Shows(o, rules[k]) && forall j :: 0 <= j < k ==> !Shows(o, rules[j])
  }

  ghost predicate NoneApplies(rules: seq<Rule>, o: Object) {
    forall k :: 0 <= k < |rules| ==> !Shows(o, rules[k])
  }

  /** An issue for the rule under which an object comes first; a warning only when no blocker applies. */
  ghost predicate IsIssue(source: Source, o: Object, blocks: bool, issue: Issue) {
    && issue.kind == source.kind && issue.id == (if source.idField in o then o[source.idField] else "")
    && (blocks || NoneApplies(source.blockers, o))
    && IsFirstReason(if blocks then source.blockers else source.warnings, o, issue.reason)
  }

  ghost predicate IsFirstReason(rules: seq<Rule>, o: Object, reason: string) {
    exists k: nat :: IsFirstRule(rules, o, k) && reason == rules[k].reason
  }

  ghost predicate HasIssue(sources: seq<Source>, blocks: bool, issue: Issue) {
    exists source, o :: source in sources && o in source.objects && IsIssue(source, o, blocks, issue)
  }

  lemma ShowsIs(o: Object, rule: Rule)
    ensures Shows(o, rule) <==> Applies(rule, o)
  {
    if Applies(rule, o) { assert (rule.field, o[rule.field]) in o.Items; }
  }

  lemma {:induction false} FirstRuleIs(rules: seq<Rule>, o: Object) returns (k: nat)
    ensures if FirstRule(rules, o).Some? then IsFirstRule(rules, o, k) && rules[k] == FirstRule(rules, o).value
            else NoneApplies(rules, o)
  {
    k := 0;
    if rules != [] { ShowsIs(o, rules[0]); }
    if rules != [] && !Applies(rules[0], o) {
      var later := FirstRuleIs(rules[1..], o);
      if FirstRule(rules[1..], o).Some? {
        k := later + 1;
        forall j | 0 <= j < k ensures !Shows(o, rules[j]) { if j > 0 { assert !Shows(o, rules[1..][j - 1]); } }
      } else {
        forall j | 0 <= j < |rules| ensures !Shows(o, rules[j]) { if j > 0 { assert !Shows(o, rules[1..][j - 1]); } }
      }
    }
  }

  lemma FirstReasonIs(rules: seq<Rule>, o: Object, reason: string)
    ensures IsFirstReason(rules, o, reason) <==> FirstRule(rules, o).Some? && reason == FirstRule(rules, o).value.reason
    ensures NoneApplies(rules, o) <==> FirstRule(rules, o).None?
  {
    var first := FirstRuleIs(rules, o);
    forall k: nat | IsFirstRule(rules, o, k) && IsFirstRule(rules, o, first) ensures k == first {}
  }

  lemma JudgeIs(t: Tally, source: Source, o: Object, issue: Issue)
    ensures issue in Judge(t, source, o).blockers <==> issue in t.blockers || IsIssue(source, o, true, issue)
    ensures issue in Judge(t, source, o).warnings <==> issue in t.warnings || IsIssue(source, o, false, issue)
  {
    FirstReasonIs(source.blockers, o, issue.reason);
    FirstReasonIs(source.warnings, o, issue.reason);
  }

  lemma {:induction false} JudgeAllIs(t: Tally, source: Source, objects: seq<Object>, issue: Issue)
    ensures var next := JudgeAll(t, source, objects);
      && next.checked == t.checked + |objects|
      && (issue in next.blockers <==> issue in t.blockers || exists o :: o in objects && IsIssue(source, o, true, issue))
      && (issue in next.warnings <==> issue in t.warnings || exists o :: o in objects && IsIssue(source, o, false, issue))
  {
    if objects != [] {
      var front, last := objects[..|objects| - 1], objects[|objects| - 1];
      JudgeAllIs(t, source, front, issue);
      JudgeIs(JudgeAll(t, source, front), source, last, issue);
      assert objects == front + [last];
    }
  }

  function CountObjects(sources: seq<Source>): (n: nat) {
    if sources == [] then 0 else CountObjects(sources[..|sources| - 1]) + |sources[|sources| - 1].objects|
  }

  /** The blockers and warnings of a tally are those of its objects, and every object is counted. */
  lemma {:induction false} TallyIs(sources: seq<Source>, issue: Issue)
    ensures var t := TallyOf(sources);
      && t.checked == CountObjects(sources)
      && (issue in t.blockers <==> HasIssue(sources, true, issue))
      && (issue in t.warnings <==> HasIssue(sources, false, issue))
  {
    if sources != [] {
      var front, last := sources[..|sources| - 1], sources[|sources| - 1];
      TallyIs(front, issue);
      JudgeAllIs(TallyOf(front), last, last.objects, issue);
      assert sources == front + [last];
    }
  }

  /** What a category's result says of its objects. */
  lemma ResultIs(c: Category, issue: Issue)
    requires IsConfigured(c)
    ensures var r := ResultOf(c);
      && (issue in r.blockers <==> HasIssue(c.sources, true, issue))
      && (issue in r.warnings <==> HasIssue(c.sources, false, issue))
      && r.checked == CountObjects(c.sources)
      && (r.status == Warning <==> r.blockers == [] && r.warnings != [])
      && (r.checked > 0 ==> IsNearest(r.score, 100 * r.healthy, r.checked))
      && (r.checked == 0 ==> r.score == 100)
  {
    TallyIs(c.sources, issue);
    if CountObjects(c.sources) > 0 { RoundedIsNearest(100 * TallyOf(c.sources).healthy, CountObjects(c.sources)); }
  }

  /** A category whose runtime is not configured warns of just that, and scores nothing. */
  lemma UnconfiguredCategory(c: Category)
    requires c.configured == Some(false)
    ensures ResultOf(c) == Result(Warning, 0, [], [Issue("runtime", c.name, "runtime is not configured")], 0, 0)
  {
  }

  /** In a configured category every checked object is healthy, blocks or warns; a ready one scores a hundred; and
      a score of a hundred means ready exactly unless issues are at most one in two hundred. */
  lemma ConfiguredCategory(c: Category)
    requires IsConfigured(c)
    ensures var r := ResultOf(c);
      && r.checked == r.healthy + |r.blockers| + |r.warnings| && r.score <= 100
      && (r.status == Blocked <==> r.blockers != [])
      && (r.status == Ready ==> r.score == 100)
      && ((r.score == 100 ==> r.status == Ready) <==> (r.checked == r.healthy || 200 * (r.checked - r.healthy) > r.checked))
  {
    var t := TallyOf(c.sources);
    TallyBalances(c.sources);
    if t.checked > 0 { HundredExactlyWhen(t.healthy, t.checked); }
  }

  // ---------------------------------------------------------------- scenarios

  /** A category of the scenario and its weight. */
  datatype Weighted = Weighted(category: Category, weight: nat)

  datatype CheckStatus = Fail | Warn | Pass

  datatype CheckItem = CheckItem(priority: nat, category: string, status: CheckStatus, issues: seq<Issue>)

  datatype Report = Report(ready: bool, score: nat, blockers: seq<Issue>, warnings: seq<Issue>, checklist: seq<CheckItem>)

  function TotalWeight(scenario: seq<Weighted>): (w: nat) {
    if scenario == [] then 0 else TotalWeight(scenario[..|scenario| - 1]) + scenario[|scenario| - 1].weight
  }

  function WeightedSum(scenario: seq<Weighted>): (sum: nat) {
    if scenario == [] then 0
    else
      var last := scenario[|scenario| - 1];
      WeightedSum(scenario[..|scenario| - 1]) + last.weight * ResultOf(last.category).score
  }

  function AllBlockers(scenario: seq<Weighted>): (issues: seq<Issue>) {
    if scenario == [] then []
    else AllBlockers(scenario[..|scenario| - 1]) + ResultOf(scenario[|scenario| - 1].category).blockers
  }

  function AllWarnings(scenario: seq<Weighted>): (issues: seq<Issue>) {
    if scenario == [] then []
    else AllWarnings(scenario[..|scenario| - 1]) + ResultOf(scenario[|scenario| - 1].category).warnings
  }

  ghost predicate AnyBlocked(scenario: seq<Weighted>) {
    exists i :: 0 <= i < |scenario| && ResultOf(scenario[i].category).status == Blocked
  }

  function OverallScore(scenario: seq<Weighted>): (score: nat) {
    if TotalWeight(scenario) == 0 then 0 else Rounded(WeightedSum(scenario), TotalWeight(scenario))
  }

  /** Heavier categories first; the given order among equals. */
  function Heavier(): (le: (Weighted, Weighted) -> bool) {
    (a: Weighted, b: Weighted) => a.weight >= b.weight
  }

  function CheckOf(priority: nat, c: Category): (item: CheckItem) {
    var r := ResultOf(c);
    var status := match r.status case Blocked => Fail case Warning => Warn case Ready => Pass;
    CheckItem(priority, c.name, status, r.blockers + r.warnings)
  }

  function ChecklistOf(scenario: seq<Weighted>): (items: seq<CheckItem>)
    ensures var ranked := Sorted(scenario, Heavier());
      |items| == |ranked| && forall i :: 0 <= i < |items| ==> items[i] == CheckOf(i + 1, ranked[i].category)
  {
    var ranked := Sorted(scenario, Heavier());
    seq(|ranked|, i requires 0 <= i < |ranked| => CheckOf(i + 1, ranked[i].category))
  }

  method BuildChecklist(scenario: seq<Weighted>) returns (items: seq<CheckItem>)
    ensures items == ChecklistOf(scenario)
  {
    var ranked := Sorted(scenario, Heavier());
    items := [];
    for i := 0 to |ranked|
      invariant |items| == i && forall j :: 0 <= j < i ==> items[j] == CheckOf(j + 1, ranked[j].category)
    {
      var r := EvaluateCategory(ranked[i].category);
      var status := match r.status case Blocked => Fail case Warning => Warn case Ready => Pass;
      items := items + [CheckItem(i + 1, ranked[i].category.name, status, r.blockers + r.warnings)];
    }
  }

  method Evaluate(scenario: seq<Weighted>) returns (report: Report)
    ensures report.score == OverallScore(scenario) && (report.ready <==> !AnyBlocked(scenario))
    ensures report.blockers == AllBlockers(scenario) && report.warnings == AllWarnings(scenario)
    ensures report.checklist == ChecklistOf(scenario)
  {
    var total, sum, blocked, blockers, warnings := 0, 0, false, [], [];
    for i := 0 to |scenario|
      invariant total == TotalWeight(scenario[..i]) && sum == WeightedSum(scenario[..i])
      invariant blocked <==> AnyBlocked(scenario[..i])
      invariant blockers == AllBlockers(scenario[..i]) && warnings == AllWarnings(scenario[..i])
    {
      assert scenario[..i + 1][..i] == scenario[..i];
      var r := EvaluateCategory(scenario[i].category);
      BlockedSnoc(scenario[..i], scenario[i]);
      assert scenario[..i + 1] == scenario[..i] + [scenario[i]];
      total := total + scenario[i].weight;
      sum := sum + scenario[i].weight * r.score;
      if r.status == Blocked { blocked := true; }
      blockers := blockers + r.blockers;
      warnings := warnings + r.warnings;
    }
    assert scenario[..|scenario|] == scenario;
    var checklist := BuildChecklist(scenario);
    report := Report(!blocked, if total == 0 then 0 else Rounded(sum, total), blockers, warnings, checklist);
  }

  lemma BlockedSnoc(scenario: seq<Weighted>, last: Weighted)
    ensures AnyBlocked(scenario + [last]) <==> AnyBlocked(scenario) || ResultOf(last.category).status == Blocked
  {
    var all := scenario + [last];
    assert all[|scenario|] == last;
    forall i | 0 <= i < |scenario| ensures all[i] == scenario[i] {}
  }

  // ---------------------------------------------------------------- what a report promises

  ghost predicate ScoresWithin(scenario: seq<Weighted>, low: nat, high: nat) {
    forall i :: 0 <= i < |scenario| ==> low <= ResultOf(scenario[i].category).score <= high
  }

  lemma {:induction false} SumWithin(scenario: seq<Weighted>, low: nat, high: nat)
    requires ScoresWithin(scenario, low, high)
    ensures TotalWeight(scenario) * low <= WeightedSum(scenario) <= TotalWeight(scenario) * high
  {
    if scenario != [] {
      var front, last := scenario[..|scenario| - 1], scenario[|scenario| - 1];
      SumWithin(front, low, high);
      var score := ResultOf(last.category).score;
      assert low <= score <= high;
      Multiples(last.weight, low, score);
      Multiples(last.weight, score, high);
      Distribute(TotalWeight(front), last.weight, low);
      Distribute(TotalWeight(front), last.weight, high);
    }
  }

  lemma Distribute(a: nat, b: nat, c: nat)
    ensures (a + b) * c == a * c + b * c
  {
  }

  lemma OneWeight(w: Weighted)
    ensures TotalWeight([w]) == w.weight && WeightedSum([w]) == w.weight * ResultOf(w.category).score
  {
    assert [w][..0] == [];
  }

  /** The sums are over the categories, each with its weight. */
  lemma {:induction false} SumsConcat(a: seq<Weighted>, b: seq<Weighted>)
    ensures TotalWeight(a + b) == TotalWeight(a) + TotalWeight(b) && WeightedSum(a + b) == WeightedSum(a) + WeightedSum(b)
  {
    if b == [] {
      assert a + b == a;
    } else {
      SumsConcat(a, b[..|b| - 1]);
      assert (a + b)[..|a + b| - 1] == a + b[..|b| - 1];
    }
  }

  /** The overall score is nearest to the weighted mean of the categories' scores, and nothing without weights. */
  lemma OverallIsMean(scenario: seq<Weighted>)
    ensures TotalWeight(scenario) == 0 ==> OverallScore(scenario) == 0
    ensures TotalWeight(scenario) > 0 ==> IsNearest(OverallScore(scenario), WeightedSum(scenario), TotalWeight(scenario))
  {
    if TotalWeight(scenario) > 0 { RoundedIsNearest(WeightedSum(scenario), TotalWeight(scenario)); }
  }

  /** A report's issues are those of its categories. */
  lemma {:induction false} IssuesAreReported(scenario: seq<Weighted>, issue: Issue)
    ensures issue in AllBlockers(scenario) <==> exists w :: w in scenario && issue in ResultOf(w.category).blockers
    ensures issue in AllWarnings(scenario) <==> exists w :: w in scenario && issue in ResultOf(w.category).warnings
  {
    if scenario != [] {
      var front, last := scenario[..|scenario| - 1], scenario[|scenario| - 1];
      IssuesAreReported(front, issue);
      assert scenario == front + [last];
    }
  }

  /** Despite the two roundings, the overall score lies between the least and the greatest score of the scenario's
      categories. */
  lemma OverallIsBetween(scenario: seq<Weighted>, low: nat, high: nat)
    requires TotalWeight(scenario) > 0 && ScoresWithin(scenario, low, high)
    ensures low <= OverallScore(scenario) <= high
  {
    SumWithin(scenario, low, high);
    RoundedWithin(WeightedSum(scenario), TotalWeight(scenario), low, high);
  }

  lemma BlockedHasBlockers(c: Category)
    ensures ResultOf(c).status == Blocked <==> ResultOf(c).blockers != []
  {
  }

  /** A scenario is not ready exactly when some blocker is reported. */
  lemma {:induction false} NotReadyExactlyWhen(scenario: seq<Weighted>)
    ensures AnyBlocked(scenario) <==> AllBlockers(scenario) != []
  {
    if scenario != [] {
      var front, last := scenario[..|scenario| - 1], scenario[|scenario| - 1];
      NotReadyExactlyWhen(front);
      BlockedHasBlockers(last.category);
      BlockedSnoc(front, last);
      assert scenario == front + [last];
    }
  }

  /** The categories of one weight, in order. */
  function OfWeight(scenario: seq<Weighted>, weight: nat): (same: seq<Weighted>) {
    if scenario == [] then []
    else (if scenario[0].weight == weight then [scenario[0]] else []) + OfWeight(scenario[1..], weight)
  }

  lemma {:induction false} InsertKeepsOrder(x: Weighted, s: seq<Weighted>, weight: nat)
    ensures OfWeight(Insert(x, s, Heavier()), weight) == OfWeight([x] + s, weight)
  {
    assert ([x] + s)[1..] == s;
    if s != [] && x.weight < s[0].weight {
      InsertKeepsOrder(x, s[1..], weight);
      assert ([x] + s[1..])[1..] == s[1..];
      var inserted := Insert(x, s[1..], Heavier());
      assert ([s[0]] + inserted)[1..] == inserted;
    }
  }

  lemma {:induction false} SortedKeepsOrder(scenario: seq<Weighted>, weight: nat)
    ensures OfWeight(Sorted(scenario, Heavier()), weight) == OfWeight(scenario, weight)
  {
    if scenario != [] {
      var rest := Sorted(scenario[1..], Heavier());
      SortedKeepsOrder(scenario[1..], weight);
      InsertKeepsOrder(scenario[0], rest, weight);
      assert ([scenario[0]] + rest)[1..] == rest;
    }
  }

  /** The item that a category's result gives. */
  ghost predicate IsItemOf(item: CheckItem, priority: nat, c: Category) {
    && item.priority == priority && item.category == c.name
    && item.issues == ResultOf(c).blockers + ResultOf(c).warnings
    && (item.status == Fail <==> ResultOf(c).status == Blocked)
    && (item.status == Pass <==> ResultOf(c).status == Ready)
  }

  /** The checklist has an item for each category of the scenario, numbered, heavier categories first, and those of
      one weight in the order given. */
  lemma ChecklistIsRanked(scenario: seq<Weighted>) returns (ranked: seq<Weighted>)
    ensures |ChecklistOf(scenario)| == |ranked| == |scenario|
    ensures forall i :: 0 <= i < |ranked| ==> IsItemOf(ChecklistOf(scenario)[i], i + 1, ranked[i].category)
    ensures multiset(ranked) == multiset(scenario)
    ensures forall i, j :: 0 <= i < j < |ranked| ==> ranked[i].weight >= ranked[j].weight
    ensures forall weight :: OfWeight(ranked, weight) == OfWeight(scenario, weight)
  {
    ranked := Sorted(scenario, Heavier());
    SortedPermutes(scenario, Heavier());
    SortedIsSorted(scenario, Heavier());
    SameMembers(ranked, scenario);
    forall weight ensures OfWeight(ranked, weight) == OfWeight(scenario, weight) { SortedKeepsOrder(scenario, weight); }
  }
}
