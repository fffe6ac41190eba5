/** Impact analysis: the search itself, and the risk that listed objects inherit along the paths by which
    they were found. */
module ImpactEngine {
  import opened Ordering
  import opened RiskEngine
  import opened ImpactGraph

  /** An object of the report; propagation overwrites its risk level. */
  class ImpactedObject {
    const entry: Entry
    var riskLevel: Level

    constructor (entry: Entry, level: Level)
      ensures this.entry == entry && riskLevel == level
    {
      this.entry := entry;
      riskLevel := level;
    }
  }

  // ---------------------------------------------------------------- the search

  function ClampDepth(maxDepth: int): (d: nat)
    ensures 1 <= d <= 5
  {
    if maxDepth < 1 then 1 else if maxDepth > 5 then 5 else maxDepth
  }

  /** Adds the unvisited related objects to the frontier; true when one was already visited. */
  method ExpandFrontier(related: seq<Node>, from: Entry, frontier: seq<Entry>, visited: set<Node>)
      returns (longer: seq<Entry>, foundCycle: bool)
    ensures longer == frontier + Expansion(related, from, visited)
    ensures foundCycle <==> exists t :: t in visited && t in related && t.id != ""
  {
    longer, foundCycle := frontier, false;
    for k := 0 to |related|
      invariant longer == frontier + Expansion(related[..k], from, visited)
      invariant foundCycle <==> exists t :: t in visited && t in related[..k] && t.id != ""
    {
      assert related[..k + 1][..k] == related[..k] && related[..k + 1] == related[..k] + [related[k]];
      if related[k].id != "" {
        if related[k] in visited {
          foundCycle := true;
        } else {
          longer := longer + [Entry(related[k], from.depth + 1, from.path + [from.node])];
        }
      }
    }
    assert related[..|related|] == related;
  }

  /** One layer: lists what can be resolved and, above the last depth, expands it. */
  method ProcessLayer(g: Graph, frontier: seq<Entry>, visited: set<Node>, expand: bool)
      returns (listed: seq<Entry>, next: seq<Entry>, found: bool)
    ensures listed == Resolved(g, frontier)
    ensures next == if expand then Candidates(g, frontier, visited) else []
    ensures found <==> expand && exists e :: e in frontier && MeetsVisited(g, e, visited)
  {
    listed, next, found := [], [], false;
    for k := 0 to |frontier|
      invariant listed == Resolved(g, frontier[..k])
      invariant next == if expand then Candidates(g, frontier[..k], visited) else []
      invariant found <==> expand && exists e :: e in frontier[..k] && MeetsVisited(g, e, visited)
    {
      assert frontier[..k + 1][..k] == frontier[..k] && frontier[..k + 1] == frontier[..k] + [frontier[k]];
      var context := g(frontier[k].node);
      if context.Some? {
        listed := listed + [frontier[k]];
        if expand {
          var meets;
          next, meets := ExpandFrontier(context.value.related, frontier[k], next, visited);
          assert meets <==> MeetsVisited(g, frontier[k], visited);
          found := found || meets;
        }
      }
    }
    assert frontier[..|frontier|] == frontier;
  }

  /** Keeps the first unvisited occurrence of each object and marks it visited. */
  method KeepUnvisited(candidates: seq<Entry>, visitedBefore: set<Node>)
      returns (kept: seq<Entry>, visited: set<Node>, dropped: bool)
    ensures kept == Survivors(candidates, visitedBefore) && visited == visitedBefore + Nodes(kept)
    ensures dropped <==> |kept| < |candidates|
  {
    kept, visited, dropped := [], visitedBefore, false;
    for k := 0 to |candidates|
      invariant kept == Survivors(candidates[..k], visitedBefore) && visited == visitedBefore + Nodes(kept)
      invariant |kept| <= k && (dropped <==> |kept| < k)
    {
      assert candidates[..k + 1][..k] == candidates[..k];
      if candidates[k].node in visited {
        dropped := true;
      } else {
        NodesSnoc(kept, candidates[k]);
        visited := visited + {candidates[k].node};
        kept := kept + [candidates[k]];
      }
    }
    assert candidates[..|candidates|] == candidates;
  }

  /** The search: everything listed, in order of discovery, and the cycle flag. */
  method Search(g: Graph, source: Node, maxDepth: nat) returns (listed: seq<Entry>, cycleDetected: bool)
    requires g(source).Some? && maxDepth >= 1
    ensures listed == Listings(g, source, maxDepth)
    ensures cycleDetected <==> CycleFlag(g, source, maxDepth)
  {
    var frontier, visited, depth := [], {source}, 1;
    frontier, cycleDetected := ExpandFrontier(g(source).value.related, SourceEntry(source), frontier, visited);
    assert [] + Expansion(g(source).value.related, SourceEntry(source), visited) == Frontier(g, source, 1);
    listed := [];
    SearchStarts(g, source, maxDepth, frontier, visited, cycleDetected);
    while frontier != []
      invariant 1 <= depth <= maxDepth + 1
      invariant SearchState(g, source, maxDepth, depth, frontier, visited, listed, cycleDetected)
      decreases maxDepth + 1 - depth
    {
      frontier, visited, listed, cycleDetected :=
        SearchTurn(g, source, maxDepth, depth, frontier, visited, listed, cycleDetected);
      depth := depth + 1;
    }
    NothingBeyond(g, source, maxDepth, depth, visited, listed, cycleDetected);
  }

  lemma SearchStarts(g: Graph, source: Node, maxDepth: nat, frontier: seq<Entry>, visited: set<Node>, flag: bool)
    requires g(source).Some? && maxDepth >= 1 && visited == {source} && frontier == Frontier(g, source, 1)
    requires flag <==> MeetsVisited(g, SourceEntry(source), visited)
    ensures SearchState(g, source, maxDepth, 1, frontier, visited, [], flag)
  {
  }

  method SearchTurn(g: Graph, ghost source: Node, maxDepth: nat, depth: nat, frontier: seq<Entry>, visited: set<Node>,
                    listed: seq<Entry>, flag: bool)
      returns (next: seq<Entry>, seen: set<Node>, longer: seq<Entry>, raised: bool)
    requires 1 <= depth <= maxDepth && SearchState(g, source, maxDepth, depth, frontier, visited, listed, flag)
    ensures SearchState(g, source, maxDepth, depth + 1, next, seen, longer, raised)
  {
    var more, candidates, found := ProcessLayer(g, frontier, visited, depth < maxDepth);
    var dropped;
    next, seen, dropped := KeepUnvisited(candidates, visited);
    LayerStep(g, source, maxDepth, depth, frontier, visited, listed, flag, found, dropped);
    longer, raised := listed + more, flag || found || dropped;
  }

  /** What holds before the layer at a depth is processed. */
  ghost predicate SearchState(g: Graph, source: Node, maxDepth: nat, depth: nat, frontier: seq<Entry>,
                              visited: set<Node>, listed: seq<Entry>, flag: bool)
    requires depth > 0
  {
    && (if depth <= maxDepth then Layer(frontier, visited) == LayerAt(g, source, depth) else frontier == [])
    && listed == Listings(g, source, depth - 1)
    && (flag <==> FlagBefore(g, source, maxDepth, depth))
  }

  lemma LayerStep(g: Graph, source: Node, maxDepth: nat, depth: nat, frontier: seq<Entry>, visited: set<Node>,
                  listed: seq<Entry>, flag: bool, found: bool, dropped: bool)
    requires 1 <= depth <= maxDepth
    requires SearchState(g, source, maxDepth, depth, frontier, visited, listed, flag)
    requires found <==> depth < maxDepth && exists e :: e in frontier && MeetsVisited(g, e, visited)
    requires var next := if depth < maxDepth then Candidates(g, frontier, visited) else [];
      dropped <==> |Survivors(next, visited)| < |next|
    ensures
      var next := if depth < maxDepth then Candidates(g, frontier, visited) else [];
      var kept := Survivors(next, visited);
      SearchState(g, source, maxDepth, depth + 1, kept, visited + Nodes(kept), listed + Resolved(g, frontier),
                  flag || found || dropped)
  {
    assert found || dropped <==> depth < maxDepth && LayerFlags(g, source, depth);
    FlagOneMore(g, source, maxDepth, depth);
  }

  /** The flag as far as the layers before a depth raise it. */
  ghost predicate FlagBefore(g: Graph, source: Node, maxDepth: nat, depth: nat) {
    || MeetsVisited(g, SourceEntry(source), {source})
    || exists d: nat :: 1 <= d < maxDepth && d < depth && LayerFlags(g, source, d)
  }

  lemma FlagOneMore(g: Graph, source: Node, maxDepth: nat, depth: nat)
    requires depth > 0
    ensures FlagBefore(g, source, maxDepth, depth + 1)
      <==> FlagBefore(g, source, maxDepth, depth) || (depth < maxDepth && LayerFlags(g, source, depth))
  {
  }

  /** After an empty frontier nothing more is listed and nothing raises the flag. */
  lemma {:induction false} NothingBeyond(g: Graph, source: Node, maxDepth: nat, depth: nat, visited: set<Node>,
                                         listed: seq<Entry>, flag: bool)
    requires 1 <= depth <= maxDepth + 1 && SearchState(g, source, maxDepth, depth, [], visited, listed, flag)
    ensures listed == Listings(g, source, maxDepth)
    ensures flag <==> CycleFlag(g, source, maxDepth)
    decreases maxDepth + 1 - depth
  {
    if depth <= maxDepth {
      assert Candidates(g, [], visited) == [] && Survivors([], visited) == [];
      LayerStep(g, source, maxDepth, depth, [], visited, listed, flag, false, false);
      assert listed + Resolved(g, []) == listed;
      NothingBeyond(g, source, maxDepth, depth + 1, visited + Nodes([]), listed, flag);
    }
  }

  // ---------------------------------------------------------------- inherited risk

  /** j was found through i, or is i. */
  predicate IsDescendant(entries: seq<Entry>, i: nat, j: nat)
    requires i < |entries| && j < |entries|
  {
    j == i || (entries[i].depth < entries[j].depth && entries[i].depth < |entries[j].path|
               && entries[j].path[entries[i].depth] == entries[i].node)
  }

  /** What j's scored level is worth at i. */
  function Contribution(entries: seq<Entry>, scored: seq<Level>, i: nat, j: nat): (r: Level)
    requires i < |entries| == |scored| && j < |entries|
  {
    Attenuated(scored[j], if entries[j].depth > entries[i].depth then entries[j].depth - entries[i].depth else 0)
  }

  /** The closed form: the greatest contribution of any descendant, the object itself included. */
  ghost predicate IsInherited(entries: seq<Entry>, scored: seq<Level>, i: nat, r: Level)
    requires i < |entries| == |scored|
  {
    && (forall j :: 0 <= j < |entries| && IsDescendant(entries, i, j) ==> r >= Contribution(entries, scored, i, j))
    && IsContributed(entries, scored, i, r)
  }

  ghost predicate IsContributed(entries: seq<Entry>, scored: seq<Level>, i: nat, r: Level)
    requires i < |entries| == |scored|
  {
    exists j :: 0 <= j < |entries| && IsDescendant(entries, i, j) && r == Contribution(entries, scored, i, j)
  }

  predicate IsChild(entries: seq<Entry>, i: nat, c: nat)
    requires i < |entries| && c < |entries|
  {
    && entries[c].depth == entries[i].depth + 1
    && entries[c].path != [] && entries[c].path[|entries[c].path| - 1] == entries[i].node
  }

  /** The listing is a forest: paths are as long as depths, every deeper entry's parent is listed by its
      own path, and from depth 2 on a layer shows an object once. */
  ghost predicate IsForest(entries: seq<Entry>) {
    && (forall i :: 0 <= i < |entries| ==> 1 <= entries[i].depth == |entries[i].path|)
    && (forall i :: 0 <= i < |entries| && entries[i].depth >= 2 ==> ParentListed(entries, entries[i]))
    && (forall i, j :: 0 <= i < j < |entries| ==> !SameDeepPlace(entries[i], entries[j]))
  }

  predicate SameDeepPlace(e: Entry, f: Entry) {
    e.depth == f.depth >= 2 && e.node == f.node
  }

  ghost predicate ParentListed(entries: seq<Entry>, e: Entry) {
    exists f :: f in entries && e.path == f.path + [f.node] && e.depth == f.depth + 1
  }

  /** Every entry's ancestor at a given depth is listed, with the beginning of the entry's path. */
  lemma {:induction false} AncestorListed(entries: seq<Entry>, j: nat, d: nat) returns (c: nat)
    requires IsForest(entries) && j < |entries| && 1 <= d <= entries[j].depth
    ensures c < |entries| && entries[c].depth == d && entries[c].path == entries[j].path[..d]
    ensures if d == entries[j].depth then c == j else entries[j].path[d] == entries[c].node
    decreases entries[j].depth
  {
    if d == entries[j].depth {
      c := j;
      assert entries[j].path[..d] == entries[j].path;
    } else {
      assert ParentListed(entries, entries[j]);
      var f :| f in entries && entries[j].path == f.path + [f.node] && entries[j].depth == f.depth + 1;
      var k :| 0 <= k < |entries| && entries[k] == f;
      c := AncestorListed(entries, k, d);
      assert entries[j].path[..d] == f.path[..d];
    }
  }

  /** A descendant is found through a child, or is one. */
  lemma DescendantThroughChild(entries: seq<Entry>, i: nat, j: nat) returns (c: nat)
    requires IsForest(entries) && i < |entries| && j < |entries| && j != i && IsDescendant(entries, i, j)
    ensures c < |entries| && IsChild(entries, i, c) && IsDescendant(entries, c, j)
  {
    var d := entries[i].depth;
    c := AncestorListed(entries, j, d + 1);
    assert entries[c].path[d] == entries[j].path[..d + 1][d];
  }

  lemma OneDeepPlace(entries: seq<Entry>, a: nat, c: nat)
    requires IsForest(entries) && a < |entries| && c < |entries| && SameDeepPlace(entries[a], entries[c])
    ensures a == c
  {
    assert SameDeepPlace(entries[c], entries[a]);
  }

  lemma PathThrough(entries: seq<Entry>, c: nat, j: nat)
    requires IsForest(entries) && c < |entries| && j < |entries| && j != c && IsDescendant(entries, c, j)
    requires entries[c].depth >= 2
    ensures entries[c].depth == |entries[c].path| && entries[c].path == entries[j].path[..entries[c].depth]
  {
    var a := AncestorListed(entries, j, entries[c].depth);
    OneDeepPlace(entries, a, c);
  }

  lemma ChildDescendants(entries: seq<Entry>, i: nat, c: nat, j: nat)
    requires IsForest(entries) && i < |entries| && c < |entries| && j < |entries|
    requires IsChild(entries, i, c) && IsDescendant(entries, c, j)
    ensures IsDescendant(entries, i, j) && entries[j].depth > entries[i].depth
  {
    var d := entries[i].depth;
    if j != c {
      PathThrough(entries, c, j);
      assert entries[c].path[d] == entries[j].path[..d + 1][d];
    }
  }

  ghost predicate ChildLevels(entries: seq<Entry>, current: seq<Level>, i: nat, levels: seq<Level>)
    requires i < |entries| == |current|
  {
    && (forall c :: 0 <= c < |entries| && IsChild(entries, i, c) ==> current[c] in levels)
    && (forall l :: l in levels ==> exists c :: 0 <= c < |entries| && IsChild(entries, i, c) && current[c] == l)
  }

  /** The children of an object have their final levels. */
  ghost predicate ChildrenDone(entries: seq<Entry>, scored: seq<Level>, current: seq<Level>, i: nat)
    requires i < |entries| == |scored| == |current|
  {
    forall c :: 0 <= c < |entries| && IsChild(entries, i, c) ==> IsInherited(entries, scored, c, current[c])
  }

  lemma EffectiveIsEnough(entries: seq<Entry>, scored: seq<Level>, current: seq<Level>, i: nat, levels: seq<Level>,
                          r: Level, j: nat)
    requires IsForest(entries) && i < |entries| == |scored| == |current| && j < |entries|
    requires current[i] == scored[i] && ChildLevels(entries, current, i, levels)
    requires ChildrenDone(entries, scored, current, i) && IsEffective(current[i], levels, r)
    requires IsDescendant(entries, i, j)
    ensures r >= Contribution(entries, scored, i, j)
  {
    if j != i {
      var c := DescendantThroughChild(entries, i, j);
      assert current[c] in levels && current[c] >= Contribution(entries, scored, c, j);
      assert r >= Attenuated(current[c], 1);
    }
  }

  lemma ContributedThroughChild(entries: seq<Entry>, scored: seq<Level>, i: nat, c: nat, l: Level)
    requires IsForest(entries) && i < |entries| == |scored| && c < |entries|
    requires IsChild(entries, i, c) && IsContributed(entries, scored, c, l)
    ensures IsContributed(entries, scored, i, Attenuated(l, 1))
  {
    var j :| 0 <= j < |entries| && IsDescendant(entries, c, j) && l == Contribution(entries, scored, c, j);
    ChildDescendants(entries, i, c, j);
    assert Attenuated(l, 1) == Contribution(entries, scored, i, j);
  }

  lemma EffectiveIsReached(entries: seq<Entry>, scored: seq<Level>, current: seq<Level>, i: nat, levels: seq<Level>,
                           r: Level)
    requires IsForest(entries) && i < |entries| == |scored| == |current|
    requires current[i] == scored[i] && ChildLevels(entries, current, i, levels)
    requires ChildrenDone(entries, scored, current, i) && IsEffective(current[i], levels, r)
    ensures IsContributed(entries, scored, i, r)
  {
    if r == current[i] {
      assert IsDescendant(entries, i, i) && r == Contribution(entries, scored, i, i);
    } else {
      var l :| l in levels && r == Attenuated(l, 1);
      var c :| 0 <= c < |entries| && IsChild(entries, i, c) && current[c] == l;
      ContributedThroughChild(entries, scored, i, c, l);
    }
  }

  /** One object: when its children have their final levels, propagation gives it its own. */
  lemma PropagationStep(entries: seq<Entry>, scored: seq<Level>, current: seq<Level>, i: nat, levels: seq<Level>, r: Level)
    requires IsForest(entries) && i < |entries| == |scored| == |current|
    requires current[i] == scored[i] && ChildLevels(entries, current, i, levels)
    requires ChildrenDone(entries, scored, current, i) && IsEffective(current[i], levels, r)
    ensures IsInherited(entries, scored, i, r)
  {
    forall j | 0 <= j < |entries| && IsDescendant(entries, i, j) ensures r >= Contribution(entries, scored, i, j) {
      EffectiveIsEnough(entries, scored, current, i, levels, r, j);
    }
    EffectiveIsReached(entries, scored, current, i, levels, r);
  }

  function Entries(objects: seq<ImpactedObject>): (r: seq<Entry>)
    ensures |r| == |objects| && forall i :: 0 <= i < |r| ==> r[i] == objects[i].entry
  {
    seq(|objects|, i requires 0 <= i < |objects| => objects[i].entry)
  }

  ghost function Levels(objects: seq<ImpactedObject>): (r: seq<Level>)
    reads objects
    ensures |r| == |objects| && forall i :: 0 <= i < |r| ==> r[i] == objects[i].riskLevel
  {
    seq(|objects|, i requires 0 <= i < |objects| reads objects => objects[i].riskLevel)
  }

  /** Entries deeper than a depth, and those at it before an index, are final; the rest are as scored. */
  ghost predicate DoneDownTo(entries: seq<Entry>, scored: seq<Level>, current: seq<Level>, depth: nat, n: nat)
    requires |entries| == |scored| == |current|
  {
    forall k :: 0 <= k < |entries| ==>
      if entries[k].depth > depth || (entries[k].depth == depth && k < n)
      then IsInherited(entries, scored, k, current[k])
      else current[k] == scored[k]
  }

  method ChildRisks(objects: seq<ImpactedObject>, i: nat) returns (risks: seq<Level>)
    requires i < |objects|
    ensures ChildLevels(Entries(objects), Levels(objects), i, risks)
  {
    risks := [];
    ghost var entries, levels := Entries(objects), Levels(objects);
    for c := 0 to |objects|
      invariant forall k :: 0 <= k < c && IsChild(entries, i, k) ==> levels[k] in risks
      invariant forall l :: l in risks ==> exists k :: 0 <= k < c && IsChild(entries, i, k) && levels[k] == l
    {
      var child := objects[c].entry;
      if child.depth == objects[i].entry.depth + 1 && child.path != []
         && child.path[|child.path| - 1] == objects[i].entry.node {
        risks := risks + [objects[c].riskLevel];
      }
    }
  }

  lemma DoneOneMore(entries: seq<Entry>, scored: seq<Level>, current: seq<Level>, depth: nat, i: nat, level: Level)
    requires i < |entries| == |scored| == |current| && DoneDownTo(entries, scored, current, depth, i)
    requires if entries[i].depth == depth then IsInherited(entries, scored, i, level) else level == current[i]
    ensures DoneDownTo(entries, scored, current[i := level], depth, i + 1)
  {
  }

  lemma DoneLayer(entries: seq<Entry>, scored: seq<Level>, current: seq<Level>, depth: nat)
    requires |entries| == |scored| == |current| && depth > 0 && DoneDownTo(entries, scored, current, depth, |entries|)
    ensures DoneDownTo(entries, scored, current, depth - 1, 0)
  {
  }

  lemma ReadyForStep(entries: seq<Entry>, scored: seq<Level>, current: seq<Level>, depth: nat, i: nat)
    requires i < |entries| == |scored| == |current| && DoneDownTo(entries, scored, current, depth, i)
    requires entries[i].depth == depth
    ensures current[i] == scored[i] && ChildrenDone(entries, scored, current, i)
  {
  }

  /** The level of one object after its turn of the inner loop. */
  method NewLevel(objects: seq<ImpactedObject>, i: nat, depth: nat, ghost scored: seq<Level>) returns (level: Level)
    requires IsForest(Entries(objects)) && i < |objects| == |scored|
    requires DoneDownTo(Entries(objects), scored, Levels(objects), depth, i)
    ensures if objects[i].entry.depth == depth then IsInherited(Entries(objects), scored, i, level)
      else level == objects[i].riskLevel
  {
    level := objects[i].riskLevel;
    if objects[i].entry.depth == depth {
      var risks := ChildRisks(objects, i);
      level := PropagateRisk(objects[i].riskLevel, risks);
      ReadyForStep(Entries(objects), scored, Levels(objects), depth, i);
      PropagationStep(Entries(objects), scored, Levels(objects), i, risks, level);
    }
  }

  method SetLevel(objects: seq<ImpactedObject>, i: nat, level: Level)
    requires NoDuplicates(objects) && i < |objects|
    modifies objects
    ensures Levels(objects) == old(Levels(objects))[i := level]
  {
    if level != objects[i].riskLevel { objects[i].riskLevel := level; }
  }

  /** Deepest first, every object takes the greatest of its own level and its children's less one. */
  method PropagateInheritedRisk(objects: seq<ImpactedObject>)
    requires NoDuplicates(objects) && IsForest(Entries(objects))
    modifies objects
    ensures forall i :: 0 <= i < |objects| ==>
      IsInherited(Entries(objects), old(Levels(objects)), i, objects[i].riskLevel)
  {
    ghost var scored := Levels(objects);
    var depth := 0;
    for k := 0 to |objects|
      invariant forall j :: 0 <= j < k ==> objects[j].entry.depth <= depth
    {
      if objects[k].entry.depth > depth { depth := objects[k].entry.depth; }
    }
    while depth > 0
      invariant DoneDownTo(Entries(objects), scored, Levels(objects), depth, 0)
    {
      for i := 0 to |objects|
        invariant DoneDownTo(Entries(objects), scored, Levels(objects), depth, i)
      {
        var level := NewLevel(objects, i, depth, scored);
        DoneOneMore(Entries(objects), scored, Levels(objects), depth, i, level);
        SetLevel(objects, i, level);
      }
      DoneLayer(Entries(objects), scored, Levels(objects), depth);
      depth := depth - 1;
    }
    AllDone(Entries(objects), scored, Levels(objects));
  }

  lemma AllDone(entries: seq<Entry>, scored: seq<Level>, current: seq<Level>)
    requires |entries| == |scored| == |current| && IsForest(entries) && DoneDownTo(entries, scored, current, 0, 0)
    ensures forall i :: 0 <= i < |entries| ==> IsInherited(entries, scored, i, current[i])
  {
  }

  /** Propagation never lowers a level. */
  lemma InheritedIsNoLower(entries: seq<Entry>, scored: seq<Level>, i: nat, r: Level)
    requires i < |entries| == |scored| && IsInherited(entries, scored, i, r)
    ensures r >= scored[i]
  {
    assert IsDescendant(entries, i, i);
  }

  // ---------------------------------------------------------------- the report

  /** What a search lists is a forest. */
  lemma ListingsAreForest(g: Graph, source: Node, d: nat)
    ensures IsForest(Listings(g, source, d))
  {
    var l := Listings(g, source, d);
    forall i | 0 <= i < |l|
      ensures 1 <= l[i].depth == |l[i].path| && (l[i].depth >= 2 ==> ParentListed(l, l[i]))
    {
      ListedEntryIsPlaced(g, source, d, l[i]);
    }
    forall i, j | 0 <= i < j < |l| ensures !SameDeepPlace(l[i], l[j]) { DeepPlacesDiffer(g, source, d, i, j); }
  }

  lemma FrontierParent(g: Graph, source: Node, d: nat, e: Entry) returns (f: Entry)
    requires d >= 2 && e in Frontier(g, source, d)
    ensures f in Frontier(g, source, d - 1) && g(f.node).Some? && f.depth == d - 1
    ensures e.path == f.path + [f.node] && e.depth == f.depth + 1
  {
    EntriesCarryWalks(g, source, d, e);
    f :| f in Frontier(g, source, d - 1) && g(f.node).Some? && e.path == f.path + [f.node];
    EntriesCarryWalks(g, source, d - 1, f);
  }

  lemma ListedEntryIsPlaced(g: Graph, source: Node, d: nat, e: Entry)
    requires e in Listings(g, source, d)
    ensures 1 <= e.depth == |e.path| && (e.depth >= 2 ==> ParentListed(Listings(g, source, d), e))
  {
    ListingsMembers(g, source, d, e);
    EntriesCarryWalks(g, source, e.depth, e);
    if e.depth >= 2 {
      var f := FrontierParent(g, source, e.depth, e);
      ListingsMembers(g, source, d, f);
    }
  }

  lemma {:induction false} CountTwo(entries: seq<Entry>, i: nat, j: nat)
    requires i < j < |entries| && entries[i].node == entries[j].node
    ensures Count(entries, entries[i].node) >= 2
  {
    var init := entries[..|entries| - 1];
    if j < |init| {
      CountTwo(init, i, j);
    } else {
      CountOne(init, i);
    }
  }

  lemma {:induction false} CountOne(entries: seq<Entry>, i: nat)
    requires i < |entries|
    ensures Count(entries, entries[i].node) >= 1
  {
    if i < |entries| - 1 { CountOne(entries[..|entries| - 1], i); }
  }

  lemma {:induction false} SeedsComeFirst(g: Graph, source: Node, d: nat)
    requires d > 0
    ensures |Listings(g, source, 1)| <= |Listings(g, source, d)|
    ensures Listings(g, source, d)[..|Listings(g, source, 1)|] == Listings(g, source, 1)
  {
    if d > 1 { SeedsComeFirst(g, source, d - 1); }
  }

  /** Of two listings of one object, one is a seed. */
  lemma SeedIsOne(l: seq<Entry>, seeds: nat, i: nat, j: nat)
    requires seeds <= |l| && i < j < |l| && l[i].node == l[j].node && Count(l[seeds..], l[i].node) <= 1
    ensures i < seeds
  {
    if i >= seeds { CountTwo(l[seeds..], i - seeds, j - seeds); }
  }

  lemma DeeperCount(l: seq<Entry>, seeds: seq<Entry>, n: Node)
    requires |seeds| <= |l| && l[..|seeds|] == seeds
    ensures Count(l, n) == Count(seeds, n) + Count(l[|seeds|..], n)
  {
    assert l == seeds + l[|seeds|..];
    CountConcat(seeds, l[|seeds|..], n);
  }

  lemma DeepPlacesDiffer(g: Graph, source: Node, d: nat, i: nat, j: nat)
    requires i < j < |Listings(g, source, d)|
    ensures !SameDeepPlace(Listings(g, source, d)[i], Listings(g, source, d)[j])
  {
    var l, seeds := Listings(g, source, d), Listings(g, source, 1);
    if d > 0 && SameDeepPlace(l[i], l[j]) {
      SeedsComeFirst(g, source, d);
      DeeperCount(l, seeds, l[i].node);
      ListedDeeperAtMostOnce(g, source, d, l[i].node);
      SeedIsOne(l, |seeds|, i, j);
      ListingsMembers(g, source, 1, seeds[i]);
    }
  }

  /** The depths that a search to a given one covers: at least the first, and at most five. */
  ghost predicate IsCovered(depth: nat, maxDepth: int) {
    1 <= depth <= 5 && (depth == 1 || depth <= maxDepth)
  }

  /** What a report lists: exactly the objects that can be resolved and reached within the depth, each entry with a walk
      of its depth; and, without repeated relations, the flag is up exactly when walks within the depth meet. */
  ghost predicate ListsTheReachable(g: Graph, source: Node, maxDepth: int, entries: seq<Entry>, cycleDetected: bool) {
    && (forall e :: e in entries ==> IsCovered(e.depth, maxDepth) && CarriesWalk(g, source, e.depth, e))
    && (forall n :: n in Nodes(entries) <==>
          n != source && g(n).Some? && exists k :: IsCovered(k, maxDepth) && ReachedIn(g, source, k, n))
    && (NoRepeatedRelations(g) ==> forall d: nat :: IsCovered(d, maxDepth) && !IsCovered(d + 1, maxDepth) ==>
          (cycleDetected <==> !TreeLike(g, source, d)))
  }

  ghost predicate CoversUpTo(maxDepth: int, d: nat) {
    forall k: nat :: IsCovered(k, maxDepth) <==> 1 <= k <= d
  }

  lemma CoveredDepths(maxDepth: int)
    ensures CoversUpTo(maxDepth, ClampDepth(maxDepth))
  {
  }

  lemma ListedEntries(g: Graph, source: Node, maxDepth: int, d: nat, e: Entry)
    requires CoversUpTo(maxDepth, d) && e in Listings(g, source, d)
    ensures IsCovered(e.depth, maxDepth) && CarriesWalk(g, source, e.depth, e)
  {
    ListingsMembers(g, source, d, e);
    EntriesCarryWalks(g, source, e.depth, e);
  }

  lemma ListedNodes(g: Graph, source: Node, maxDepth: int, d: nat, n: Node)
    requires CoversUpTo(maxDepth, d)
    ensures n in Nodes(Listings(g, source, d)) <==>
      n != source && g(n).Some? && exists k :: IsCovered(k, maxDepth) && ReachedIn(g, source, k, n)
  {
    ListedExactlyWhen(g, source, d, n);
    if n in Nodes(Listings(g, source, d)) {
      var k :| 1 <= k <= d && ReachedIn(g, source, k, n);
      assert IsCovered(k, maxDepth);
    }
  }

  lemma SearchListsTheReachable(g: Graph, source: Node, maxDepth: int, d: nat, entries: seq<Entry>, cycleDetected: bool)
    requires d > 0 && CoversUpTo(maxDepth, d) && entries == Listings(g, source, d)
    requires cycleDetected <==> CycleFlag(g, source, d)
    ensures ListsTheReachable(g, source, maxDepth, entries, cycleDetected)
  {
    forall e | e in entries ensures IsCovered(e.depth, maxDepth) && CarriesWalk(g, source, e.depth, e) {
      ListedEntries(g, source, maxDepth, d, e);
    }
    forall n ensures n in Nodes(entries) <==>
      n != source && g(n).Some? && exists k :: IsCovered(k, maxDepth) && ReachedIn(g, source, k, n)
    {
      ListedNodes(g, source, maxDepth, d, n);
    }
    if NoRepeatedRelations(g) { FlagIs(g, source, maxDepth, d, cycleDetected); }
  }

  lemma FlagIs(g: Graph, source: Node, maxDepth: int, d: nat, cycleDetected: bool)
    requires NoRepeatedRelations(g) && d > 0 && CoversUpTo(maxDepth, d)
    requires cycleDetected <==> CycleFlag(g, source, d)
    ensures forall last: nat :: IsCovered(last, maxDepth) && !IsCovered(last + 1, maxDepth) ==>
      (cycleDetected <==> !TreeLike(g, source, last))
  {
    CycleFlagExactly(g, source, d);
    forall last: nat | IsCovered(last, maxDepth) && !IsCovered(last + 1, maxDepth) ensures last == d {
      assert IsCovered(d, maxDepth);
    }
  }

  /** The report for a source that can be resolved: every listed object with its inherited level. */
  method Analyze(g: Graph, source: Node, maxDepth: int)
      returns (sourceLevel: Level, objects: seq<ImpactedObject>, cycleDetected: bool)
    ensures g(source).None? ==> objects == [] && sourceLevel == 0 && !cycleDetected
    ensures g(source).Some? ==> ListsTheReachable(g, source, maxDepth, Entries(objects), cycleDetected)
    ensures g(source).Some? ==>
      var d := ClampDepth(maxDepth);
      var entries := Listings(g, source, d);
      && Entries(objects) == entries && sourceLevel == Scored(g(source).value)
      && (cycleDetected <==> CycleFlag(g, source, d))
      && (forall i :: 0 <= i < |entries| ==> g(entries[i].node).Some?)
      && forall i :: 0 <= i < |objects| ==> IsInherited(entries, ScoredLevels(g, entries), i, objects[i].riskLevel)
  {
    if g(source).None? {
      return 0, [], false;
    }
    sourceLevel := ApplyBoosts(g(source).value.intrinsic, g(source).value.notices);
    var listed;
    var d := ClampDepth(maxDepth);
    listed, cycleDetected := Search(g, source, d);
    ListingsAreForest(g, source, d);
    CoveredDepths(maxDepth);
    SearchListsTheReachable(g, source, maxDepth, d, listed, cycleDetected);
    forall e | e in listed ensures g(e.node).Some? { ListingsMembers(g, source, d, e); }
    objects := ScoreAll(g, listed);
    PropagateInheritedRisk(objects);
  }

  /** An object for every listed entry, with its scored level. */
  method ScoreAll(g: Graph, listed: seq<Entry>) returns (objects: seq<ImpactedObject>)
    requires forall e :: e in listed ==> g(e.node).Some?
    ensures fresh(objects) && NoDuplicates(objects)
    ensures Entries(objects) == listed && Levels(objects) == ScoredLevels(g, listed)
  {
    objects := [];
    for k := 0 to |listed|
      invariant |objects| == k && fresh(objects) && NoDuplicates(objects)
      invariant forall i :: 0 <= i < k ==>
        objects[i].entry == listed[i] && objects[i].riskLevel == LevelOf(g, listed[i])
    {
      assert listed[k] in listed;
      var context := g(listed[k].node).value;
      var level := ApplyBoosts(context.intrinsic, context.notices);
      var o := new ImpactedObject(listed[k], level);
      NoDuplicatesSnoc(objects, o);
      objects := objects + [o];
    }
  }

  function Scored(context: Context): (level: Level) {
    Boosted(context.intrinsic, context.notices)
  }

  function LevelOf(g: Graph, e: Entry): (level: Level) {
    if g(e.node).Some? then Scored(g(e.node).value) else 0
  }

  /** The levels that scoring gives, before propagation. */
  function ScoredLevels(g: Graph, entries: seq<Entry>): (r: seq<Level>)
    ensures |r| == |entries|
  {
    seq(|entries|, i requires 0 <= i < |entries| => LevelOf(g, entries[i]))
  }
}
