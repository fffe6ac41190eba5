/** Choosing a model for a prompt: filters, a score, and a ranking with fallbacks. */
module ModelRouter {
  import opened Ordering
  import opened Text

  datatype Locality = Local | Cloud
  datatype CostTier = Free | LowCost | MediumCost | HighCost | Premium
  datatype LatencyTier = Fast | MediumLatency | Slow
  datatype Capability = LocalRun | Offline | Cheap | Reasoning | Other(name: string)
  datatype Policy = Cheapest | HighestQuality | PreferLocal | LocalOnly | PreferCloud | CloudOnly | Balanced

  datatype Model = Model(
    id: string, window: nat, available: bool, locality: Locality, cost: CostTier, latency: LatencyTier,
    capabilities: set<Capability>)

  // ---------------------------------------------------------------- the score

  function PolicyScore(m: Model, policy: Policy): (points: nat) {
    match policy
    case PreferLocal | LocalOnly => if m.locality == Local then 40 else 5
    case PreferCloud | CloudOnly => if m.locality == Cloud then 40 else 5
    case _ => 20
  }

  /** How roomy the context window is for the tokens. */
  function ContextScore(m: Model, tokens: nat): (points: nat) {
    if m.window == 0 then 0
    else if 4 * tokens <= m.window then 30
    else if 2 * tokens <= m.window then 22
    else if 4 * tokens <= 3 * m.window then 15
    else if tokens <= m.window then 8
    else 0
  }

  function Cheapness(cost: CostTier): (points: nat) {
    match cost case Free => 14 case LowCost => 11 case MediumCost => 7 case HighCost => 3 case Premium => 0
  }

  function CostQuality(cost: CostTier): (points: nat) {
    match cost case Free => 0 case LowCost => 3 case MediumCost => 7 case HighCost => 11 case Premium => 14
  }

  function Speed(latency: LatencyTier): (points: nat) {
    match latency case Fast => 6 case MediumLatency => 3 case Slow => 0
  }

  function Care(latency: LatencyTier): (points: nat) {
    match latency case Fast => 3 case MediumLatency => 2 case Slow => 6
  }

  function PerformanceScore(m: Model, policy: Policy): (points: nat) {
    match policy
    case Cheapest => Cheapness(m.cost) + Speed(m.latency)
    case HighestQuality => CostQuality(m.cost) + Care(m.latency)
    case _ => CostQuality(m.cost) + Speed(m.latency)
  }

  function Affinity(policy: Policy): (capabilities: set<Capability>) {
    match policy
    case Cheapest => {Cheap}
    case HighestQuality => {Reasoning}
    case PreferLocal | LocalOnly => {LocalRun, Offline}
    case _ => {}
  }

  function CapabilityScore(m: Model, policy: Policy): (points: nat) {
    var wanted := Affinity(policy);
    if wanted == {} then 5 else if wanted <= m.capabilities then 10 else if wanted * m.capabilities != {} then 5 else 0
  }

  function Score(m: Model, policy: Policy, tokens: nat): (score: nat)
    ensures score <= 100
  {
    PolicyScore(m, policy) + ContextScore(m, tokens) + PerformanceScore(m, policy) + CapabilityScore(m, policy)
  }

  // ---------------------------------------------------------------- what the score prefers

  /** Locality: 35 points under a policy that prefers or insists on one, nothing under the others. */
  lemma LocalityScore(m: Model, policy: Policy, tokens: nat)
    ensures var near, far := Score(m.(locality := Local), policy, tokens), Score(m.(locality := Cloud), policy, tokens);
      near - far == if policy == PreferLocal || policy == LocalOnly then 35
                    else if policy == PreferCloud || policy == CloudOnly then -35 else 0
  {
  }

  /** Cost: the cheapest policy pays 3, 7, 11 and 14 points for each tier below premium, every other takes as many. */
  lemma CostScore(m: Model, policy: Policy, tokens: nat, cost: CostTier)
    ensures var saved := Score(m.(cost := cost), policy, tokens) - Score(m.(cost := Premium), policy, tokens);
      var points := match cost case Free => 14 case LowCost => 11 case MediumCost => 7 case HighCost => 3 case Premium => 0;
      saved == if policy == Cheapest then points else -points
  {
  }

  /** Latency: three points for each tier faster; but for the highest quality slow is worth most, and medium least. */
  lemma LatencyScore(m: Model, policy: Policy, tokens: nat)
    ensures var s := (l: LatencyTier) => Score(m.(latency := l), policy, tokens) as int;
      && s(Fast) - s(MediumLatency) == (if policy == HighestQuality then 1 else 3)
      && s(MediumLatency) - s(Slow) == if policy == HighestQuality then -4 else 3
  {
  }

  /** Capabilities: ten points for all that the policy looks for, five for some, none for none; a policy that looks
      for nothing gives five. */
  lemma CapabilityPoints(m: Model, policy: Policy, tokens: nat)
    ensures var points := Score(m, policy, tokens) - Score(m.(capabilities := {}), policy, tokens);
      match policy
      case Cheapest => points == if Cheap in m.capabilities then 10 else 0
      case HighestQuality => points == if Reasoning in m.capabilities then 10 else 0
      case PreferLocal | LocalOnly =>
        points == (if LocalRun in m.capabilities then 5 else 0) + if Offline in m.capabilities then 5 else 0
      case _ => points == 0
  {
    var wanted := Affinity(policy);
    if policy == PreferLocal || policy == LocalOnly {
      assert wanted * m.capabilities != {} <==> LocalRun in m.capabilities || Offline in m.capabilities by {
        if LocalRun in m.capabilities { assert LocalRun in wanted * m.capabilities; }
        if Offline in m.capabilities { assert Offline in wanted * m.capabilities; }
      }
    }
  }

  /** Room: 30, 22, 15 and 8 points for a prompt of up to a quarter, half, three quarters and all of the window. */
  lemma WindowScore(m: Model, policy: Policy, tokens: nat)
    ensures var points := Score(m, policy, tokens) - Score(m.(window := 0), policy, tokens);
      && (points == 30 <==> m.window > 0 && tokens * 4 <= m.window)
      && (points >= 22 <==> m.window > 0 && tokens * 2 <= m.window)
      && (points >= 15 <==> m.window > 0 && tokens * 4 <= m.window * 3)
      && (points >= 8 <==> m.window > 0 && tokens <= m.window)
      && (points == 30 || points == 22 || points == 15 || points == 8 || points == 0)
  {
  }

  /** With these differences one value is enough: a premium, slow model without room or capabilities. */
  lemma LeastScore(id: string, available: bool, tokens: nat)
    ensures Score(Model(id, 0, available, Cloud, Premium, Slow, {}), Cheapest, tokens) == 20
    ensures Score(Model(id, 0, available, Cloud, Free, MediumLatency, {}), HighestQuality, tokens) == 22
    ensures Score(Model(id, 0, available, Cloud, Free, Slow, {}), PreferLocal, tokens) == 5
    ensures Score(Model(id, 0, available, Cloud, Free, Slow, {}), LocalOnly, tokens) == 5
    ensures Score(Model(id, 0, available, Local, Free, Slow, {}), PreferCloud, tokens) == 10
    ensures Score(Model(id, 0, available, Local, Free, Slow, {}), CloudOnly, tokens) == 10
    ensures Score(Model(id, 0, available, Local, Free, Slow, {}), Balanced, tokens) == 25
  {
    assert {Cheap} * {} == {} && {Reasoning} * {} == {} && {LocalRun, Offline} * {} == {};
    assert Cheap in {Cheap} && Reasoning in {Reasoning} && LocalRun in {LocalRun, Offline};
  }

  // ---------------------------------------------------------------- the filters

  function Select(models: seq<Model>, keep: Model -> bool): (kept: seq<Model>) {
    if models == [] then []
    else
      var before, last := Select(models[..|models| - 1], keep), models[|models| - 1];
      if keep(last) then before + [last] else before
  }

  lemma {:induction false} SelectMembers(models: seq<Model>, keep: Model -> bool, m: Model)
    ensures m in Select(models, keep) <==> m in models && keep(m)
  {
    if models != [] {
      SelectMembers(models[..|models| - 1], keep, m);
      assert models == models[..|models| - 1] + [models[|models| - 1]];
    }
  }

  lemma {:induction false} SelectCounts(models: seq<Model>, keep: Model -> bool, m: Model)
    ensures multiset(Select(models, keep))[m] == if keep(m) then multiset(models)[m] else 0
  {
    if models != [] {
      SelectCounts(models[..|models| - 1], keep, m);
      assert models == models[..|models| - 1] + [models[|models| - 1]];
    }
  }

  /** What a filter keeps does not depend on the order of the list. */
  lemma SelectPermutes(models: seq<Model>, others: seq<Model>, keep: Model -> bool)
    requires multiset(models) == multiset(others)
    ensures multiset(Select(models, keep)) == multiset(Select(others, keep))
  {
    forall m ensures multiset(Select(models, keep))[m] == multiset(Select(others, keep))[m] {
      SelectCounts(models, keep, m);
      SelectCounts(others, keep, m);
    }
  }

  /** The locality a policy insists on. */
  predicate Obeys(m: Model, policy: Policy) {
    (policy == CloudOnly ==> m.locality == Cloud) && (policy == LocalOnly ==> m.locality == Local)
  }

  predicate Fits(m: Model, tokens: nat) {
    m.available && m.window >= tokens
  }

  function Fitting(models: seq<Model>, tokens: nat): (fitting: seq<Model>) {
    Select(models, (m: Model) => Fits(m, tokens))
  }

  /** The models to rank: those that fit and obey, or all that fit when none of them obeys. */
  function Candidates(models: seq<Model>, policy: Policy, tokens: nat): (candidates: seq<Model>) {
    var obeying := Select(Fitting(models, tokens), (m: Model) => Obeys(m, policy));
    if obeying == [] then Fitting(models, tokens) else obeying
  }

  // ---------------------------------------------------------------- the ranking

  /** Higher scores first, then identifiers in order. */
  function Ranking(policy: Policy, tokens: nat): (le: (Model, Model) -> bool) {
    (a: Model, b: Model) =>
      var sa, sb := Score(a, policy, tokens), Score(b, policy, tokens);
      sa > sb || (sa == sb && StringLe(a.id, b.id))
  }

  function Ranked(models: seq<Model>, policy: Policy, tokens: nat): (ranked: seq<Model>) {
    Sorted(Candidates(models, policy, tokens), Ranking(policy, tokens))
  }

  lemma RankingIsPreorder(policy: Policy, tokens: nat)
    ensures TotalPreorder(Ranking(policy, tokens))
  {
    var le := Ranking(policy, tokens);
    forall a: Model, b: Model ensures le(a, b) || le(b, a) { StringLeTotal(a.id, b.id); }
    forall a: Model, b: Model, c: Model | le(a, b) && le(b, c) ensures le(a, c) {
      if StringLe(a.id, b.id) && StringLe(b.id, c.id) { StringLeTransitive(a.id, b.id, c.id); }
    }
  }

  ghost predicate DistinctIds(models: seq<Model>) {
    forall m, n :: m in models && n in models && m.id == n.id ==> m == n
  }

  lemma DistinctIdsDoNotTie(models: seq<Model>, policy: Policy, tokens: nat)
    requires DistinctIds(models)
    ensures NoTies(models, Ranking(policy, tokens))
  {
    forall m, n | m in models && n in models && Ranking(policy, tokens)(m, n) && Ranking(policy, tokens)(n, m)
      ensures m == n
    {
      StringLeAntisymmetric(m.id, n.id);
    }
  }

  // ---------------------------------------------------------------- routing

  datatype Reason = ContextTooLarge | PolicyExcluded

  datatype Decision = Decision(
    selected: Option<Model>, fallbacks: seq<Model>, scores: seq<nat>, rejected: seq<(string, Reason)>, filtered: nat)

  /** The elements from the first on up to an end that may be counted from the end of the list. */
  function UpTo<T>(s: seq<T>, end: int): (slice: seq<T>)
    requires s != []
  {
    var stop := if end < 0 then |s| + end else if end > |s| then |s| else end;
    if stop <= 1 then [] else s[1..stop]
  }

  function Scores(models: seq<Model>, policy: Policy, tokens: nat): (scores: seq<nat>)
    ensures |scores| == |models| && forall i :: 0 <= i < |models| ==> scores[i] == Score(models[i], policy, tokens)
  {
    seq(|models|, i requires 0 <= i < |models| => Score(models[i], policy, tokens))
  }

  /** Whether a model is turned down, and why: for its window, or for the policy. */
  ghost predicate IsRejected(models: seq<Model>, policy: Policy, tokens: nat, id: string, reason: Reason) {
    exists m :: m in models && m.id == id && m.available
      && match reason
         case ContextTooLarge => m.window < tokens
         case PolicyExcluded => m.window >= tokens && !Obeys(m, policy)
  }

  ghost predicate AreRejected(models: seq<Model>, policy: Policy, tokens: nat, rejected: seq<(string, Reason)>) {
    forall id, reason :: ((id, reason) in rejected <==> IsRejected(models, policy, tokens, id, reason))
  }

  /** The available models whose window is too small. */
  ghost predicate AreTooSmall(models: seq<Model>, tokens: nat, rejected: seq<(string, Reason)>) {
    forall id, reason :: ((id, reason) in rejected <==> reason == ContextTooLarge && IsTooSmall(models, tokens, id))
  }

  ghost predicate IsTooSmall(models: seq<Model>, tokens: nat, id: string) {
    exists m :: m in models && m.id == id && m.available && m.window < tokens
  }

  /** Of the models that fit, those that the policy excludes. */
  ghost predicate AreExcluded(fitting: seq<Model>, policy: Policy, rejected: seq<(string, Reason)>) {
    forall id, reason :: ((id, reason) in rejected <==> reason == PolicyExcluded && IsExcluded(fitting, policy, id))
  }

  ghost predicate IsExcluded(fitting: seq<Model>, policy: Policy, id: string) {
    exists m :: m in fitting && m.id == id && !Obeys(m, policy)
  }

  function Available(models: seq<Model>): (available: seq<Model>) {
    Select(models, (m: Model) => m.available)
  }

  method FilterByWindow(models: seq<Model>, tokens: nat)
    returns (available: nat, fitting: seq<Model>, rejected: seq<(string, Reason)>)
    ensures fitting == Fitting(models, tokens) && |fitting| <= available == |Available(models)|
    ensures AreTooSmall(models, tokens, rejected)
  {
    available, fitting, rejected := 0, [], [];
    for i := 0 to |models|
      invariant fitting == Fitting(models[..i], tokens) && |fitting| <= available == |Available(models[..i])|
      invariant AreTooSmall(models[..i], tokens, rejected)
    {
      var m := models[i];
      assert models[..i + 1][..i] == models[..i] && models[..i + 1] == models[..i] + [m];
      if m.available {
        available := available + 1;
        if m.window >= tokens {
          fitting := fitting + [m];
        } else {
          rejected := rejected + [(m.id, ContextTooLarge)];
        }
      }
    }
    assert models[..|models|] == models;
  }

  method FilterByPolicy(fitting: seq<Model>, policy: Policy)
    returns (obeying: seq<Model>, rejected: seq<(string, Reason)>)
    ensures obeying == Select(fitting, (m: Model) => Obeys(m, policy)) && |obeying| <= |fitting|
    ensures AreExcluded(fitting, policy, rejected)
  {
    obeying, rejected := [], [];
    ghost var keep := (m: Model) => Obeys(m, policy);
    for i := 0 to |fitting|
      invariant obeying == Select(fitting[..i], keep) && |obeying| <= i
      invariant AreExcluded(fitting[..i], policy, rejected)
    {
      var m := fitting[i];
      assert fitting[..i + 1][..i] == fitting[..i] && fitting[..i + 1] == fitting[..i] + [m];
      if policy == CloudOnly && m.locality != Cloud {
        rejected := rejected + [(m.id, PolicyExcluded)];
      } else if policy == LocalOnly && m.locality != Local {
        rejected := rejected + [(m.id, PolicyExcluded)];
      } else {
        obeying := obeying + [m];
      }
    }
    assert fitting[..|fitting|] == fitting;
  }

  lemma RejectedTogether(models: seq<Model>, policy: Policy, tokens: nat, large: seq<(string, Reason)>, excluded: seq<(string, Reason)>)
    requires AreTooSmall(models, tokens, large) && AreExcluded(Fitting(models, tokens), policy, excluded)
    ensures AreRejected(models, policy, tokens, large + excluded)
  {
    forall m ensures m in Fitting(models, tokens) <==> m in models && Fits(m, tokens) {
      SelectMembers(models, (n: Model) => Fits(n, tokens), m);
    }
  }

  method Route(models: seq<Model>, chars: nat, policy: Policy, maxFallbacks: int) returns (d: Decision)
    ensures var ranked := Ranked(models, policy, chars / 4);
      && d.selected == (if ranked == [] then None else Some(ranked[0]))
      && d.fallbacks == (if ranked == [] then [] else UpTo(ranked, maxFallbacks + 1))
      && d.scores == Scores((if ranked == [] then [] else [ranked[0]] + d.fallbacks), policy, chars / 4)
    ensures AreRejected(models, policy, chars / 4, d.rejected)
    ensures d.filtered == |Available(models)| - |Candidates(models, policy, chars / 4)|
  {
    var tokens := chars / 4;
    var available, fitting, large := FilterByWindow(models, tokens);
    var obeying, excluded := FilterByPolicy(fitting, policy);
    var candidates := if obeying == [] && fitting != [] then fitting else obeying;
    RejectedTogether(models, policy, tokens, large, excluded);
    assert candidates == Candidates(models, policy, tokens);
    var ranked := Sorted(candidates, Ranking(policy, tokens));
    if ranked == [] {
      d := Decision(None, [], [], large + excluded, available - |candidates|);
    } else {
      var fallbacks := UpTo(ranked, maxFallbacks + 1);
      d := Decision(Some(ranked[0]), fallbacks, Scores([ranked[0]] + fallbacks, policy, tokens), large + excluded,
                    available - |candidates|);
    }
  }

  // ---------------------------------------------------------------- what a decision promises

  /** The ranking holds each candidate once, higher scores first and identifiers in order among equals. */
  lemma RankedIsRight(models: seq<Model>, policy: Policy, tokens: nat)
    ensures multiset(Ranked(models, policy, tokens)) == multiset(Candidates(models, policy, tokens))
    ensures SortedBy(Ranked(models, policy, tokens), Ranking(policy, tokens))
  {
    RankingIsPreorder(policy, tokens);
    SortedPermutes(Candidates(models, policy, tokens), Ranking(policy, tokens));
    SortedIsSorted(Candidates(models, policy, tokens), Ranking(policy, tokens));
  }

  lemma CandidatesPermute(models: seq<Model>, others: seq<Model>, policy: Policy, tokens: nat)
    requires multiset(models) == multiset(others)
    ensures multiset(Candidates(models, policy, tokens)) == multiset(Candidates(others, policy, tokens))
  {
    var keep := (m: Model) => Obeys(m, policy);
    SelectPermutes(models, others, (m: Model) => Fits(m, tokens));
    SelectPermutes(Fitting(models, tokens), Fitting(others, tokens), keep);
    SameMembers(Select(Fitting(models, tokens), keep), Select(Fitting(others, tokens), keep));
  }

  lemma CandidatesAreModels(models: seq<Model>, policy: Policy, tokens: nat, m: Model)
    ensures m in Candidates(models, policy, tokens) ==> m in models && Fits(m, tokens)
  {
    SelectMembers(models, (n: Model) => Fits(n, tokens), m);
    SelectMembers(Fitting(models, tokens), (n: Model) => Obeys(n, policy), m);
  }

  /** With distinct identifiers, the ranking does not depend on the order of the registry: nor, then, do the
      selected model, the fallbacks and their scores. */
  lemma RankingIgnoresOrder(models: seq<Model>, others: seq<Model>, policy: Policy, tokens: nat)
    requires multiset(models) == multiset(others) && DistinctIds(models)
    ensures Ranked(models, policy, tokens) == Ranked(others, policy, tokens)
  {
    var ranked, again := Ranked(models, policy, tokens), Ranked(others, policy, tokens);
    RankedIsRight(models, policy, tokens);
    RankedIsRight(others, policy, tokens);
    CandidatesPermute(models, others, policy, tokens);
    SameMembers(ranked, Candidates(models, policy, tokens));
    forall m ensures m in ranked ==> m in models { CandidatesAreModels(models, policy, tokens, m); }
    RankingIsPreorder(policy, tokens);
    DistinctIdsDoNotTie(ranked, policy, tokens);
    SortedFormIsUnique(ranked, again, Ranking(policy, tokens));
  }

  lemma RankedMembers(models: seq<Model>, policy: Policy, tokens: nat, m: Model)
    ensures m in Ranked(models, policy, tokens) <==> m in Candidates(models, policy, tokens)
  {
    RankedIsRight(models, policy, tokens);
    SameMembers(Ranked(models, policy, tokens), Candidates(models, policy, tokens));
  }

  /** Of two models ranked the earlier scores more, or as much, and then its identifier is the same or comes first. */
  lemma RankedByScore(models: seq<Model>, policy: Policy, tokens: nat, i: nat, j: nat)
    requires i < j < |Ranked(models, policy, tokens)|
    ensures var a, b := Ranked(models, policy, tokens)[i], Ranked(models, policy, tokens)[j];
      || Score(a, policy, tokens) > Score(b, policy, tokens)
      || (Score(a, policy, tokens) == Score(b, policy, tokens) && AtOrBefore(a.id, b.id))
  {
    RankedIsRight(models, policy, tokens);
    StringLeIs(Ranked(models, policy, tokens)[i].id, Ranked(models, policy, tokens)[j].id);
  }

  /** The fallbacks are the models ranked next, as many as asked for; asking for fewer than none leaves out from the
      end as many as are missing to minus one. */
  lemma FallbacksAre(ranked: seq<Model>, maxFallbacks: int)
    requires ranked != []
    ensures var fallbacks := UpTo(ranked, maxFallbacks + 1);
      && [ranked[0]] + fallbacks <= ranked
      && (maxFallbacks >= 0 ==> |fallbacks| == if maxFallbacks < |ranked| - 1 then maxFallbacks else |ranked| - 1)
      && (maxFallbacks < 0 ==> |fallbacks| == if maxFallbacks == -1 || |ranked| + maxFallbacks < 0 then 0
                                              else |ranked| + maxFallbacks)
  {
  }

  /** Every model ranked fits; and all of them obey the policy's locality exactly when some fitting model does, or
      none is ranked. */
  lemma RankedObeyExactlyWhen(models: seq<Model>, policy: Policy, tokens: nat)
    ensures forall m :: m in Ranked(models, policy, tokens) ==> m in models && Fits(m, tokens)
    ensures (forall m :: m in Ranked(models, policy, tokens) ==> Obeys(m, policy))
      <==> (Ranked(models, policy, tokens) == [] || exists m :: m in models && Fits(m, tokens) && Obeys(m, policy))
  {
    var keep, ranked := (m: Model) => Obeys(m, policy), Ranked(models, policy, tokens);
    var fitting := Fitting(models, tokens);
    var obeying := Select(fitting, keep);
    forall m
      ensures (m in ranked <==> m in Candidates(models, policy, tokens)) && (m in fitting <==> m in models && Fits(m, tokens))
      ensures m in obeying <==> m in fitting && Obeys(m, policy)
    {
      RankedMembers(models, policy, tokens, m);
      SelectMembers(models, (n: Model) => Fits(n, tokens), m);
      SelectMembers(fitting, keep, m);
    }
    if obeying != [] {
      assert obeying[0] in obeying;
    } else if ranked != [] {
      assert ranked[0] in ranked;
    }
  }

  /** The selected model is listed among the rejected ones, for the policy, exactly when no fitting model obeys. */
  lemma SelectedIsRejectedExactlyWhen(models: seq<Model>, policy: Policy, tokens: nat)
    requires DistinctIds(models) && Ranked(models, policy, tokens) != []
    ensures IsRejected(models, policy, tokens, Ranked(models, policy, tokens)[0].id, PolicyExcluded)
      <==> !exists m :: m in models && Fits(m, tokens) && Obeys(m, policy)
  {
    var first := Ranked(models, policy, tokens)[0];
    RankedObeyExactlyWhen(models, policy, tokens);
    assert first in Ranked(models, policy, tokens);
  }
}
