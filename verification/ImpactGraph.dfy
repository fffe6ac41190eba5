/** The layers that impact analysis finds around a source object in an abstract context graph: how they
    relate to distances, how often an object is listed, and what the cycle flag means. */
module ImpactGraph {
  import opened Ordering
  import opened Text
  import opened RiskEngine

  datatype Node = Node(kind: string, id: string)

  /** What resolving an object gives: the related objects over all propagating relations, in any order,
      and the object's own scored level. */
  datatype Context = Context(related: seq<Node>, intrinsic: Level, notices: Notices)

  type Graph = Node -> Option<Context>

  /** An object on the frontier: its depth and the objects through which it was reached. */
  datatype Entry = Entry(node: Node, depth: nat, path: seq<Node>)

  // ---------------------------------------------------------------- walks

  /** m is related to n, and n can be resolved. */
  predicate Edge(g: Graph, n: Node, m: Node) {
    g(n).Some? && m in g(n).value.related && m.id != ""
  }

  ghost predicate IsWalk(g: Graph, p: seq<Node>) {
    p != [] && forall i :: 0 <= i < |p| - 1 ==> Edge(g, p[i], p[i + 1])
  }

  /** There is a walk of exactly k edges from the source to n. */
  ghost predicate ReachedIn(g: Graph, source: Node, k: nat, n: Node) {
    exists p :: IsWalk(g, p) && |p| == k + 1 && p[0] == source && p[k] == n
  }

  /** The shortest walk from the source to n has k edges. */
  ghost predicate AtDistance(g: Graph, source: Node, k: nat, n: Node) {
    ReachedIn(g, source, k, n) && forall j :: 0 <= j < k ==> !ReachedIn(g, source, j, n)
  }

  // ---------------------------------------------------------------- the layers

  function Nodes(entries: seq<Entry>): (r: set<Node>) {
    set i | 0 <= i < |entries| :: entries[i].node
  }

  /** The entries that expanding one object adds to the frontier. */
  function Expansion(related: seq<Node>, from: Entry, visited: set<Node>): (r: seq<Entry>) {
    if related == [] then []
    else
      var before := Expansion(related[..|related| - 1], from, visited);
      var n := related[|related| - 1];
      if n.id == "" || n in visited then before
      else before + [Entry(n, from.depth + 1, from.path + [from.node])]
  }

  function ExpansionOf(g: Graph, from: Entry, visited: set<Node>): (r: seq<Entry>) {
    if g(from.node).None? then [] else Expansion(g(from.node).value.related, from, visited)
  }

  function Candidates(g: Graph, frontier: seq<Entry>, visited: set<Node>): (r: seq<Entry>) {
    if frontier == [] then []
    else
      Candidates(g, frontier[..|frontier| - 1], visited) + ExpansionOf(g, frontier[|frontier| - 1], visited)
  }

  /** The candidates that are neither visited nor repeated, in order. */
  function Survivors(candidates: seq<Entry>, visited: set<Node>): (r: seq<Entry>) {
    if candidates == [] then []
    else
      var before := Survivors(candidates[..|candidates| - 1], visited);
      var c := candidates[|candidates| - 1];
      if c.node in visited || c.node in Nodes(before) then before else before + [c]
  }

  function SourceEntry(source: Node): (r: Entry) {
    Entry(source, 0, [])
  }

  /** A frontier before it is processed, with the visited set of that moment. */
  datatype Layer = Layer(frontier: seq<Entry>, visited: set<Node>)

  function NextLayer(g: Graph, l: Layer): (r: Layer) {
    var kept := Survivors(Candidates(g, l.frontier, l.visited), l.visited);
    Layer(kept, l.visited + Nodes(kept))
  }

  /** The seeds at depth 1 are never put in the visited set; later frontiers are. */
  function LayerAt(g: Graph, source: Node, d: nat): (r: Layer)
    requires d > 0
  {
    if d == 1 then Layer(ExpansionOf(g, SourceEntry(source), {source}), {source})
    else NextLayer(g, LayerAt(g, source, d - 1))
  }

  function Frontier(g: Graph, source: Node, d: nat): (r: seq<Entry>)
    requires d > 0
  {
    LayerAt(g, source, d).frontier
  }

  function Visited(g: Graph, source: Node, d: nat): (r: set<Node>)
    requires d > 0
  {
    LayerAt(g, source, d).visited
  }

  // ---------------------------------------------------------------- facts about one layer

  lemma {:induction false} ExpansionMembers(related: seq<Node>, from: Entry, visited: set<Node>, e: Entry)
    ensures e in Expansion(related, from, visited) <==>
      && e.node in related && e.node.id != "" && e.node !in visited
      && e.depth == from.depth + 1 && e.path == from.path + [from.node]
  {
    if related != [] {
      ExpansionMembers(related[..|related| - 1], from, visited, e);
      assert related == related[..|related| - 1] + [related[|related| - 1]];
    }
  }

  lemma ExpansionOfMembers(g: Graph, from: Entry, visited: set<Node>, e: Entry)
    ensures e in ExpansionOf(g, from, visited) <==>
      && Edge(g, from.node, e.node) && e.node !in visited
      && e.depth == from.depth + 1 && e.path == from.path + [from.node]
  {
    if g(from.node).Some? { ExpansionMembers(g(from.node).value.related, from, visited, e); }
  }

  lemma {:induction false} CandidatesMembers(g: Graph, frontier: seq<Entry>, visited: set<Node>, e: Entry)
    ensures e in Candidates(g, frontier, visited) <==>
      exists f :: f in frontier && e in ExpansionOf(g, f, visited)
  {
    if frontier != [] {
      var init, last := frontier[..|frontier| - 1], frontier[|frontier| - 1];
      CandidatesMembers(g, init, visited, e);
      assert frontier == init + [last];
      assert last in frontier && forall f :: f in init ==> f in frontier;
    }
  }

  lemma {:induction false} SurvivorsMembers(candidates: seq<Entry>, visited: set<Node>)
    ensures var s := Survivors(candidates, visited);
      && (forall e :: e in s ==> e in candidates)
      && Nodes(s) == Nodes(candidates) - visited
      && (forall i, j :: 0 <= i < j < |s| ==> s[i].node != s[j].node)
  {
    if candidates != [] {
      var init, last := candidates[..|candidates| - 1], candidates[|candidates| - 1];
      SurvivorsMembers(init, visited);
      assert candidates == init + [last];
      NodesSnoc(init, last);
      NodesSnoc(Survivors(init, visited), last);
      var before := Survivors(init, visited);
      assert forall i :: 0 <= i < |before| ==> before[i].node in Nodes(before);
    }
  }

  lemma NodesSnoc(entries: seq<Entry>, e: Entry)
    ensures Nodes(entries + [e]) == Nodes(entries) + {e.node}
  {
    var longer := entries + [e];
    forall n ensures n in Nodes(longer) <==> n in Nodes(entries) + {e.node} {
      if n in Nodes(entries) {
        var i :| 0 <= i < |entries| && entries[i].node == n;
        assert longer[i].node == n;
      }
      if n == e.node { assert longer[|entries|].node == n; }
      if n in Nodes(longer) {
        var i :| 0 <= i < |longer| && longer[i].node == n;
        if i < |entries| { assert entries[i].node == n; }
      }
    }
  }

  lemma NodesMember(entries: seq<Entry>, n: Node)
    ensures n in Nodes(entries) <==> exists e :: e in entries && e.node == n
  {
    if e :| e in entries && e.node == n {
      var i :| 0 <= i < |entries| && entries[i] == e;
    }
  }

  // ---------------------------------------------------------------- facts about all layers

  /** An entry carries a walk of real edges from the source: its path, then itself. */
  ghost predicate CarriesWalk(g: Graph, source: Node, d: nat, e: Entry) {
    && e.depth == d == |e.path|
    && IsWalk(g, e.path + [e.node]) && (e.path + [e.node])[0] == source
    && e.node != source
  }

  /** The entry's last path node was on the frontier one layer up, by the path before it. */
  ghost predicate HasParent(g: Graph, source: Node, d: nat, e: Entry)
    requires d > 0
  {
    d > 1 ==> exists f :: f in Frontier(g, source, d - 1) && g(f.node).Some? && e.path == f.path + [f.node]
  }

  lemma {:induction false} EntriesCarryWalks(g: Graph, source: Node, d: nat, e: Entry)
    requires d > 0 && e in Frontier(g, source, d)
    ensures CarriesWalk(g, source, d, e) && HasParent(g, source, d, e)
    decreases d
  {
    if d == 1 {
      ExpansionOfMembers(g, SourceEntry(source), {source}, e);
      assert e.path + [e.node] == [source, e.node];
    } else {
      var frontier, visited := Frontier(g, source, d - 1), Visited(g, source, d - 1);
      SurvivorsMembers(Candidates(g, frontier, visited), visited);
      CandidatesMembers(g, frontier, visited, e);
      var f :| f in frontier && e in ExpansionOf(g, f, visited);
      ExpansionOfMembers(g, f, visited, e);
      EntriesCarryWalks(g, source, d - 1, f);
      SourceIsVisited(g, source, d - 1);
      WalkExtends(g, f.path + [f.node], e.node);
    }
  }

  lemma WalkExtends(g: Graph, p: seq<Node>, n: Node)
    requires IsWalk(g, p) && Edge(g, p[|p| - 1], n)
    ensures IsWalk(g, p + [n])
  {
    var q := p + [n];
    forall i | 0 <= i < |q| - 1 ensures Edge(g, q[i], q[i + 1]) {
      if i < |p| - 1 { assert q[i] == p[i] && q[i + 1] == p[i + 1]; }
    }
  }

  lemma {:induction false} SourceIsVisited(g: Graph, source: Node, d: nat)
    requires d > 0
    ensures source in Visited(g, source, d)
  {
    if d > 1 { SourceIsVisited(g, source, d - 1); }
  }

  /** A visited object is the source or was on a frontier at depth 2 or more. */
  lemma {:induction false} VisitedComesFromFrontiers(g: Graph, source: Node, d: nat, n: Node)
    requires d > 0 && n in Visited(g, source, d)
    ensures n == source || exists k: nat :: 2 <= k <= d && n in Nodes(Frontier(g, source, k))
  {
    if d > 1 {
      if n in Visited(g, source, d - 1) {
        VisitedComesFromFrontiers(g, source, d - 1, n);
      } else {
        assert n in Nodes(Frontier(g, source, d));
      }
    }
  }

  lemma {:induction false} VisitedGrows(g: Graph, source: Node, j: nat, d: nat)
    requires 0 < j <= d
    ensures Visited(g, source, j) <= Visited(g, source, d)
    decreases d
  {
    if j < d { VisitedGrows(g, source, j, d - 1); }
  }

  lemma FrontierIsReached(g: Graph, source: Node, d: nat, n: Node)
    requires d > 0 && n in Nodes(Frontier(g, source, d))
    ensures ReachedIn(g, source, d, n) && n != source
  {
    NodesMember(Frontier(g, source, d), n);
    var e :| e in Frontier(g, source, d) && e.node == n;
    EntriesCarryWalks(g, source, d, e);
  }

  // ---------------------------------------------------------------- the search is layered

  lemma ShorterWalk(g: Graph, source: Node, k: nat, p: seq<Node>)
    requires IsWalk(g, p) && p[0] == source && k < |p|
    ensures ReachedIn(g, source, k, p[k])
  {
    var q := p[..k + 1];
    forall i | 0 <= i < |q| - 1 ensures Edge(g, q[i], q[i + 1]) {
      assert q[i] == p[i] && q[i + 1] == p[i + 1];
    }
    assert IsWalk(g, q) && q[k] == p[k];
  }

  /** Completeness: an object at distance d is on the frontier at depth d. */
  lemma {:induction false} DistanceMeansFrontier(g: Graph, source: Node, d: nat, n: Node)
    requires d > 0 && AtDistance(g, source, d, n)
    ensures n in Nodes(Frontier(g, source, d))
  {
    var p :| IsWalk(g, p) && |p| == d + 1 && p[0] == source && p[d] == n;
    var m := p[d - 1];
    assert Edge(g, m, p[d - 1 + 1]);
    if d == 1 {
      NotSource(g, source, n);
      var _ := InExpansion(g, SourceEntry(source), {source}, n);
    } else {
      ShorterWalk(g, source, d - 1, p);
      forall j | 0 <= j < d - 1 ensures !ReachedIn(g, source, j, m) {
        if ReachedIn(g, source, j, m) { ReachedExtends(g, source, j, m, n); }
      }
      DistanceMeansFrontier(g, source, d - 1, m);
      var frontier, visited := Frontier(g, source, d - 1), Visited(g, source, d - 1);
      NodesMember(frontier, m);
      var f :| f in frontier && f.node == m;
      NotVisitedYet(g, source, d, n);
      var e := InExpansion(g, f, visited, n);
      CandidatesMembers(g, frontier, visited, e);
      NodesMember(Candidates(g, frontier, visited), n);
      SurvivorsMembers(Candidates(g, frontier, visited), visited);
    }
  }

  lemma ReachedExtends(g: Graph, source: Node, j: nat, m: Node, n: Node)
    requires ReachedIn(g, source, j, m) && Edge(g, m, n)
    ensures ReachedIn(g, source, j + 1, n)
  {
    var p :| IsWalk(g, p) && |p| == j + 1 && p[0] == source && p[j] == m;
    WalkExtends(g, p, n);
    assert (p + [n])[j + 1] == n;
  }

  lemma NotSource(g: Graph, source: Node, n: Node)
    requires !ReachedIn(g, source, 0, n)
    ensures n != source
  {
    var p := [source];
    assert IsWalk(g, p) && |p| == 1 && p[0] == source;
  }

  lemma InExpansion(g: Graph, from: Entry, visited: set<Node>, n: Node) returns (e: Entry)
    requires Edge(g, from.node, n) && n !in visited
    ensures e in ExpansionOf(g, from, visited) && e.node == n
    ensures n in Nodes(ExpansionOf(g, from, visited))
  {
    e := Entry(n, from.depth + 1, from.path + [from.node]);
    ExpansionOfMembers(g, from, visited, e);
    NodesMember(ExpansionOf(g, from, visited), n);
  }

  lemma NotVisitedYet(g: Graph, source: Node, d: nat, n: Node)
    requires d > 1 && AtDistance(g, source, d, n)
    ensures n !in Visited(g, source, d - 1)
  {
    NotSource(g, source, n);
    if n in Visited(g, source, d - 1) {
      VisitedComesFromFrontiers(g, source, d - 1, n);
      var k: nat :| 2 <= k <= d - 1 && n in Nodes(Frontier(g, source, k));
      FrontierIsReached(g, source, k, n);
    }
  }

  /** The layered search: an object comes to the frontier at its distance and not before. */
  lemma SearchIsLayered(g: Graph, source: Node, d: nat, n: Node)
    requires d > 0 && AtDistance(g, source, d, n)
    ensures n in Nodes(Frontier(g, source, d))
    ensures forall k: nat :: 0 < k < d ==> n !in Nodes(Frontier(g, source, k))
  {
    DistanceMeansFrontier(g, source, d, n);
    forall k: nat | 0 < k < d ensures n !in Nodes(Frontier(g, source, k)) {
      if n in Nodes(Frontier(g, source, k)) { FrontierIsReached(g, source, k, n); }
    }
  }

  // ---------------------------------------------------------------- how often an object is listed

  ghost predicate DistinctNodes(entries: seq<Entry>) {
    forall i, j :: 0 <= i < j < |entries| ==> entries[i].node != entries[j].node
  }

  lemma LayerIsFresh(g: Graph, source: Node, k: nat)
    requires k > 1
    ensures DistinctNodes(Frontier(g, source, k)) && Nodes(Frontier(g, source, k)) !! Visited(g, source, k - 1)
  {
    var frontier, visited := Frontier(g, source, k - 1), Visited(g, source, k - 1);
    SurvivorsMembers(Candidates(g, frontier, visited), visited);
  }

  /** From depth 2 on no object is on two frontiers. */
  lemma DeeperLayersAreDisjoint(g: Graph, source: Node, j: nat, k: nat, n: Node)
    requires 2 <= j < k && n in Nodes(Frontier(g, source, j))
    ensures n !in Nodes(Frontier(g, source, k))
  {
    var visited := Visited(g, source, k - 1);
    assert n in visited by { FrontierGetsVisited(g, source, j, k - 1); }
    assert Nodes(Frontier(g, source, k)) !! visited by { LayerIsFresh(g, source, k); }
  }

  lemma FrontierGetsVisited(g: Graph, source: Node, j: nat, d: nat)
    requires 2 <= j <= d
    ensures Nodes(Frontier(g, source, j)) <= Visited(g, source, d)
  {
    assert Nodes(Frontier(g, source, j)) <= Visited(g, source, j);
    VisitedGrows(g, source, j, d);
  }

  /** When a relation list repeats no object its expansion does not either. */
  lemma {:induction false} ExpansionIsDistinct(related: seq<Node>, from: Entry, visited: set<Node>)
    requires NoDuplicates(related)
    ensures DistinctNodes(Expansion(related, from, visited))
  {
    if related != [] {
      var init, n := related[..|related| - 1], related[|related| - 1];
      assert related == init + [n];
      ExpansionIsDistinct(init, from, visited);
      NoDuplicatesSnoc(init, n);
      var before := Expansion(init, from, visited);
      forall i | 0 <= i < |before| ensures before[i].node != n {
        ExpansionMembers(init, from, visited, before[i]);
        assert before[i] in before;
      }
    }
  }

  ghost predicate NoRepeatedRelations(g: Graph) {
    forall n :: g(n).Some? ==> NoDuplicates(g(n).value.related)
  }

  lemma LayersAreDistinct(g: Graph, source: Node, d: nat)
    requires d > 0 && NoRepeatedRelations(g)
    ensures DistinctNodes(Frontier(g, source, d))
  {
    if d == 1 {
      if g(source).Some? { ExpansionIsDistinct(g(source).value.related, SourceEntry(source), {source}); }
    } else {
      LayerIsFresh(g, source, d);
    }
  }

  /** The entries that can be resolved; the others are broken links. */
  function Resolved(g: Graph, entries: seq<Entry>): (r: seq<Entry>) {
    if entries == [] then []
    else
      var before := Resolved(g, entries[..|entries| - 1]);
      if g(entries[|entries| - 1].node).Some? then before + [entries[|entries| - 1]] else before
  }

  /** Everything listed down to depth d, in order of discovery. */
  function Listings(g: Graph, source: Node, d: nat): (r: seq<Entry>) {
    if d == 0 then [] else Listings(g, source, d - 1) + Resolved(g, Frontier(g, source, d))
  }

  lemma {:induction false} ResolvedMembers(g: Graph, entries: seq<Entry>)
    ensures var r := Resolved(g, entries);
      && (forall e :: e in r <==> e in entries && g(e.node).Some?)
      && (DistinctNodes(entries) ==> DistinctNodes(r))
  {
    if entries != [] {
      var init, last := entries[..|entries| - 1], entries[|entries| - 1];
      ResolvedMembers(g, init);
      assert entries == init + [last];
      if DistinctNodes(entries) {
        assert forall i :: 0 <= i < |init| ==> init[i] == entries[i];
        var before := Resolved(g, init);
        forall i | 0 <= i < |before| ensures before[i].node != last.node { assert before[i] in init; }
      }
    }
  }

  lemma {:induction false} ListingsMembers(g: Graph, source: Node, d: nat, e: Entry)
    ensures e in Listings(g, source, d) <==> 1 <= e.depth <= d && e in Frontier(g, source, e.depth) && g(e.node).Some?
  {
    if d > 0 {
      ListingsMembers(g, source, d - 1, e);
      ResolvedMembers(g, Frontier(g, source, d));
      if e in Frontier(g, source, d) { EntriesCarryWalks(g, source, d, e); }
    }
  }

  lemma {:induction false} Nearest(g: Graph, source: Node, k: nat, n: Node) returns (d: nat)
    requires ReachedIn(g, source, k, n)
    ensures d <= k && AtDistance(g, source, d, n)
  {
    d := k;
    if j: nat :| j < k && ReachedIn(g, source, j, n) { d := Nearest(g, source, j, n); }
  }

  /** An object that can be resolved is listed at its distance, and nowhere nearer. */
  lemma ListedAtDistance(g: Graph, source: Node, maxDepth: nat, d: nat, n: Node)
    requires 1 <= d <= maxDepth && AtDistance(g, source, d, n) && g(n).Some?
    ensures exists e :: e in Listings(g, source, maxDepth) && e.node == n && e.depth == d
    ensures forall e :: e in Listings(g, source, maxDepth) && e.node == n ==> e.depth >= d
  {
    SearchIsLayered(g, source, d, n);
    NodesMember(Frontier(g, source, d), n);
    var e :| e in Frontier(g, source, d) && e.node == n;
    EntriesCarryWalks(g, source, d, e);
    ListingsMembers(g, source, maxDepth, e);
    forall f | f in Listings(g, source, maxDepth) && f.node == n ensures f.depth >= d {
      ListingsMembers(g, source, maxDepth, f);
      NodesMember(Frontier(g, source, f.depth), n);
    }
  }

  /** What is listed is exactly what can be resolved and reached by a walk within the depth, besides the source. */
  lemma ListedExactlyWhen(g: Graph, source: Node, maxDepth: nat, n: Node)
    ensures n in Nodes(Listings(g, source, maxDepth))
      <==> n != source && g(n).Some? && exists k :: 1 <= k <= maxDepth && ReachedIn(g, source, k, n)
  {
    var listings := Listings(g, source, maxDepth);
    NodesMember(listings, n);
    if n in Nodes(listings) {
      var e :| e in listings && e.node == n;
      ListingsMembers(g, source, maxDepth, e);
      NodesMember(Frontier(g, source, e.depth), n);
      FrontierIsReached(g, source, e.depth, n);
    } else if n != source && g(n).Some? && exists k :: 1 <= k <= maxDepth && ReachedIn(g, source, k, n) {
      var k :| 1 <= k <= maxDepth && ReachedIn(g, source, k, n);
      var d := Nearest(g, source, k, n);
      ListedAtDistance(g, source, maxDepth, d, n);
    }
  }

  /** How many entries show an object. */
  function Count(entries: seq<Entry>, n: Node): (r: nat) {
    if entries == [] then 0
    else Count(entries[..|entries| - 1], n) + (if entries[|entries| - 1].node == n then 1 else 0)
  }

  lemma {:induction false} CountConcat(a: seq<Entry>, b: seq<Entry>, n: Node)
    ensures Count(a + b, n) == Count(a, n) + Count(b, n)
  {
    if b == [] {
      assert a + b == a;
    } else {
      CountConcat(a, b[..|b| - 1], n);
      assert (a + b)[..|a + b| - 1] == a + b[..|b| - 1];
    }
  }

  lemma {:induction false} CountOfDistinct(entries: seq<Entry>, n: Node)
    requires DistinctNodes(entries)
    ensures Count(entries, n) == if n in Nodes(entries) then 1 else 0
  {
    if entries != [] {
      var init, last := entries[..|entries| - 1], entries[|entries| - 1];
      CountOfDistinct(init, n);
      assert entries == init + [last];
      NodesSnoc(init, last);
      if last.node == n { NodesMember(init, n); }
    }
  }

  lemma {:induction false} CountAbsent(entries: seq<Entry>, n: Node)
    requires n !in Nodes(entries)
    ensures Count(entries, n) == 0
  {
    if entries != [] {
      var init, last := entries[..|entries| - 1], entries[|entries| - 1];
      assert entries == init + [last];
      NodesSnoc(init, last);
      CountAbsent(init, n);
    }
  }

  lemma ResolvedCount(g: Graph, entries: seq<Entry>, n: Node)
    ensures n !in Nodes(entries) ==> Count(Resolved(g, entries), n) == 0
    ensures DistinctNodes(entries) ==> Count(Resolved(g, entries), n) <= 1
  {
    var r := Resolved(g, entries);
    ResolvedMembers(g, entries);
    NodesMember(r, n);
    NodesMember(entries, n);
    if n !in Nodes(entries) { CountAbsent(r, n); }
    if DistinctNodes(entries) { CountOfDistinct(r, n); }
  }

  /** Beyond depth 1 an object is listed at most once. */
  lemma {:induction false} ListedDeeperAtMostOnce(g: Graph, source: Node, d: nat, n: Node)
    requires d > 0
    ensures var deeper := Count(Listings(g, source, d), n) - Count(Listings(g, source, 1), n);
      0 <= deeper <= 1 && (deeper == 1 ==> n in Visited(g, source, d))
  {
    if d > 1 {
      ListedDeeperAtMostOnce(g, source, d - 1, n);
      LayerIsFresh(g, source, d);
      ResolvedCount(g, Frontier(g, source, d), n);
      CountConcat(Listings(g, source, d - 1), Resolved(g, Frontier(g, source, d)), n);
    }
  }

  /** With no repeated relations no object is listed more than twice, and the source never is. */
  lemma NoneListedThreeTimes(g: Graph, source: Node, d: nat, n: Node)
    requires NoRepeatedRelations(g) && d > 0
    ensures Count(Listings(g, source, d), n) <= 2
    ensures Count(Listings(g, source, d), source) == 0
  {
    ListedDeeperAtMostOnce(g, source, d, n);
    LayersAreDistinct(g, source, 1);
    ResolvedCount(g, Frontier(g, source, 1), n);
    assert Listings(g, source, 0) == [];
    assert Listings(g, source, 1) == Resolved(g, Frontier(g, source, 1));
    SourceNeverListed(g, source, d);
  }

  lemma SourceNeverListed(g: Graph, source: Node, d: nat)
    ensures Count(Listings(g, source, d), source) == 0
  {
    var l := Listings(g, source, d);
    if source in Nodes(l) {
      NodesMember(l, source);
      var e :| e in l && e.node == source;
      ListingsMembers(g, source, d, e);
      EntriesCarryWalks(g, source, e.depth, e);
    } else {
      CountAbsent(l, source);
    }
  }

  // ---------------------------------------------------------------- the cycle flag

  /** Expanding the entry meets an object already visited. */
  ghost predicate MeetsVisited(g: Graph, from: Entry, visited: set<Node>) {
    exists t :: t in visited && Edge(g, from.node, t)
  }

  /** Going from depth d to d + 1 raises the flag: an expansion meets a visited object, or two
      candidates are the same object. */
  ghost predicate LayerFlags(g: Graph, source: Node, d: nat)
    requires d > 0
  {
    var frontier, visited := Frontier(g, source, d), Visited(g, source, d);
    || (exists e :: e in frontier && MeetsVisited(g, e, visited))
    || |Survivors(Candidates(g, frontier, visited), visited)| < |Candidates(g, frontier, visited)|
  }

  ghost predicate CycleFlag(g: Graph, source: Node, maxDepth: nat) {
    || MeetsVisited(g, SourceEntry(source), {source})
    || exists d: nat :: 1 <= d < maxDepth && LayerFlags(g, source, d)
  }

  ghost predicate WalkFrom(g: Graph, source: Node, p: seq<Node>) {
    IsWalk(g, p) && p[0] == source
  }

  function Last(p: seq<Node>): (r: Node)
    requires p != []
  {
    p[|p| - 1]
  }

  /** Within the depth no walk returns to the source, and no two walks of two edges or more meet. */
  ghost predicate TreeLike(g: Graph, source: Node, maxDepth: nat) {
    && (forall p :: WalkFrom(g, source, p) && 2 <= |p| <= maxDepth + 1 ==> Last(p) != source)
    && (forall p, q :: LongWalk(g, source, maxDepth, p) && LongWalk(g, source, maxDepth, q) && Last(p) == Last(q)
                       ==> p == q)
  }

  /** A walk of two edges or more within the depth. */
  ghost predicate LongWalk(g: Graph, source: Node, maxDepth: nat, p: seq<Node>) {
    WalkFrom(g, source, p) && 3 <= |p| <= maxDepth + 1
  }

  lemma {:induction false} SurvivorsLength(candidates: seq<Entry>, visited: set<Node>)
    ensures var s := Survivors(candidates, visited);
      |s| <= |candidates| && (|s| == |candidates| ==> s == candidates)
  {
    if candidates != [] { SurvivorsLength(candidates[..|candidates| - 1], visited); }
  }

  lemma {:induction false} AllSurvive(candidates: seq<Entry>, visited: set<Node>)
    requires DistinctNodes(candidates) && forall e :: e in candidates ==> e.node !in visited
    ensures Survivors(candidates, visited) == candidates
  {
    if candidates != [] {
      var init, last := candidates[..|candidates| - 1], candidates[|candidates| - 1];
      assert candidates == init + [last];
      AllSurvive(init, visited);
      NodesMember(init, last.node);
    }
  }

  /** While the flag is down every walk is on the frontier at its length, with its own path. */
  lemma {:induction false} UnflaggedWalkIsEntry(g: Graph, source: Node, maxDepth: nat, p: seq<Node>)
    requires !CycleFlag(g, source, maxDepth) && WalkFrom(g, source, p) && 2 <= |p| <= maxDepth + 1
    ensures Entry(Last(p), |p| - 1, p[..|p| - 1]) in Frontier(g, source, |p| - 1)
    decreases |p|
  {
    var d := |p| - 1;
    var e := Entry(p[d], d, p[..d]);
    assert Edge(g, p[d - 1], p[d - 1 + 1]);
    if d == 1 {
      assert p[..1] == [source];
      ExpansionOfMembers(g, SourceEntry(source), {source}, e);
    } else {
      var q := p[..d];
      assert WalkFrom(g, source, q) by { ShorterWalkPrefix(g, p, d); }
      UnflaggedWalkIsEntry(g, source, maxDepth, q);
      var f := Entry(q[d - 1], d - 1, q[..d - 1]);
      assert q[..d - 1] + [q[d - 1]] == q;
      EntrySurvives(g, source, d - 1, f, e);
    }
  }

  lemma ShorterWalkPrefix(g: Graph, p: seq<Node>, k: nat)
    requires IsWalk(g, p) && 0 < k <= |p|
    ensures IsWalk(g, p[..k])
  {
    var q := p[..k];
    forall i | 0 <= i < |q| - 1 ensures Edge(g, q[i], q[i + 1]) {
      assert q[i] == p[i] && q[i + 1] == p[i + 1];
    }
  }

  lemma EntrySurvives(g: Graph, source: Node, d: nat, f: Entry, e: Entry)
    requires d > 0 && !LayerFlags(g, source, d) && f in Frontier(g, source, d) && Edge(g, f.node, e.node)
    requires e.depth == f.depth + 1 && e.path == f.path + [f.node]
    ensures e in Frontier(g, source, d + 1)
  {
    var frontier, visited := Frontier(g, source, d), Visited(g, source, d);
    assert e.node !in visited by { assert !MeetsVisited(g, f, visited); }
    ExpansionOfMembers(g, f, visited, e);
    CandidatesMembers(g, frontier, visited, e);
    SurvivorsLength(Candidates(g, frontier, visited), visited);
  }

  /** A walk that returns to the source within the depth raises the flag. */
  lemma CycleThroughSourceIsFlagged(g: Graph, source: Node, maxDepth: nat, p: seq<Node>)
    requires WalkFrom(g, source, p) && 2 <= |p| <= maxDepth + 1 && Last(p) == source
    ensures CycleFlag(g, source, maxDepth)
  {
    if !CycleFlag(g, source, maxDepth) {
      UnflaggedWalkIsEntry(g, source, maxDepth, p);
      EntriesCarryWalks(g, source, |p| - 1, Entry(Last(p), |p| - 1, p[..|p| - 1]));
    }
  }

  lemma UnflaggedWalksDoNotMeet(g: Graph, source: Node, maxDepth: nat, p: seq<Node>, q: seq<Node>)
    requires !CycleFlag(g, source, maxDepth)
    requires LongWalk(g, source, maxDepth, p) && LongWalk(g, source, maxDepth, q) && |p| <= |q| && Last(p) == Last(q)
    ensures p == q
  {
    var j, k, n := |p| - 1, |q| - 1, Last(p);
    UnflaggedWalkIsEntry(g, source, maxDepth, p);
    UnflaggedWalkIsEntry(g, source, maxDepth, q);
    assert p == p[..j] + [n] && q == q[..k] + [n];
    OneLongEntry(g, source, j, k, Entry(n, j, p[..j]), Entry(n, k, q[..k]));
  }

  /** On the layers from depth 2 on an object has one entry. */
  lemma OneLongEntry(g: Graph, source: Node, j: nat, k: nat, e: Entry, f: Entry)
    requires 2 <= j <= k && e in Frontier(g, source, j) && f in Frontier(g, source, k) && e.node == f.node
    ensures e == f
  {
    NodesMember(Frontier(g, source, j), e.node);
    NodesMember(Frontier(g, source, k), e.node);
    if j < k {
      DeeperLayersAreDisjoint(g, source, j, k, e.node);
    } else {
      LayerIsFresh(g, source, j);
      SameNodeSameEntry(Frontier(g, source, j), e, f);
    }
  }

  lemma SameNodeSameEntry(entries: seq<Entry>, e: Entry, f: Entry)
    requires DistinctNodes(entries) && e in entries && f in entries && e.node == f.node
    ensures e == f
  {
    var i :| 0 <= i < |entries| && entries[i] == e;
    var j :| 0 <= j < |entries| && entries[j] == f;
  }

  lemma WalkOfEntry(g: Graph, source: Node, d: nat, e: Entry) returns (p: seq<Node>)
    requires d > 0 && e in Frontier(g, source, d)
    ensures p == e.path + [e.node] && WalkFrom(g, source, p) && |p| == d + 1
  {
    EntriesCarryWalks(g, source, d, e);
    p := e.path + [e.node];
  }

  /** An expansion that meets a visited object shows two walks that meet, or one that returns. */
  lemma MeetingBreaksTree(g: Graph, source: Node, maxDepth: nat, d: nat, e: Entry)
    requires 1 <= d < maxDepth && e in Frontier(g, source, d) && MeetsVisited(g, e, Visited(g, source, d))
    ensures !TreeLike(g, source, maxDepth)
  {
    var t :| t in Visited(g, source, d) && Edge(g, e.node, t);
    var w := WalkOfEntry(g, source, d, e);
    WalkExtends(g, w, t);
    var p := w + [t];
    assert WalkFrom(g, source, p) && Last(p) == t;
    VisitedComesFromFrontiers(g, source, d, t);
    if t != source {
      var k: nat :| 2 <= k <= d && t in Nodes(Frontier(g, source, k));
      NodesMember(Frontier(g, source, k), t);
      var f :| f in Frontier(g, source, k) && f.node == t;
      var q := WalkOfEntry(g, source, k, f);
      assert Last(q) == t && |q| != |p| && LongWalk(g, source, maxDepth, q) && LongWalk(g, source, maxDepth, p);
    }
  }

  lemma CandidateWalk(g: Graph, source: Node, d: nat, c: Entry) returns (p: seq<Node>)
    requires d > 0 && c in Candidates(g, Frontier(g, source, d), Visited(g, source, d))
    ensures p == c.path + [c.node] && WalkFrom(g, source, p) && |p| == d + 2 && c.depth == d + 1
    ensures c.node !in Visited(g, source, d)
  {
    var frontier, visited := Frontier(g, source, d), Visited(g, source, d);
    CandidatesMembers(g, frontier, visited, c);
    var f :| f in frontier && c in ExpansionOf(g, f, visited);
    ExpansionOfMembers(g, f, visited, c);
    var w := WalkOfEntry(g, source, d, f);
    EntriesCarryWalks(g, source, d, f);
    WalkExtends(g, w, c.node);
    p := c.path + [c.node];
  }

  /** With no repeated relations the candidates, as entries, are distinct. */
  lemma {:induction false} CandidatesAreDistinct(g: Graph, frontier: seq<Entry>, visited: set<Node>)
    requires NoRepeatedRelations(g) && DistinctNodes(frontier)
    ensures NoDuplicates(Candidates(g, frontier, visited))
  {
    if frontier != [] {
      var init, last := frontier[..|frontier| - 1], frontier[|frontier| - 1];
      assert frontier == init + [last];
      assert DistinctNodes(init) by { assert forall i :: 0 <= i < |init| ==> init[i] == frontier[i]; }
      CandidatesAreDistinct(g, init, visited);
      var before, more := Candidates(g, init, visited), ExpansionOf(g, last, visited);
      if g(last.node).Some? { ExpansionIsDistinct(g(last.node).value.related, last, visited); }
      assert NoDuplicates(more);
      forall c | c in before ensures c !in more {
        CandidatesMembers(g, init, visited, c);
        var f :| f in init && c in ExpansionOf(g, f, visited);
        ExpansionOfMembers(g, f, visited, c);
        ExpansionOfMembers(g, last, visited, c);
        var i :| 0 <= i < |init| && init[i] == f;
        assert frontier[i].node != last.node;
        assert (f.path + [f.node])[|f.path|] == f.node;
      }
      DisjointConcat(before, more);
    }
  }

  lemma DroppingBreaksTree(g: Graph, source: Node, maxDepth: nat, d: nat)
    requires NoRepeatedRelations(g) && 1 <= d < maxDepth
    requires var frontier, visited := Frontier(g, source, d), Visited(g, source, d);
      |Survivors(Candidates(g, frontier, visited), visited)| < |Candidates(g, frontier, visited)|
    ensures !TreeLike(g, source, maxDepth)
  {
    var frontier, visited := Frontier(g, source, d), Visited(g, source, d);
    var candidates := Candidates(g, frontier, visited);
    LayersAreDistinct(g, source, d);
    CandidatesAreDistinct(g, frontier, visited);
    forall c | c in candidates ensures c.node !in visited { var _ := CandidateWalk(g, source, d, c); }
    if DistinctNodes(candidates) { AllSurvive(candidates, visited); }
    var i, j :| 0 <= i < j < |candidates| && candidates[i].node == candidates[j].node;
    assert candidates[i] != candidates[j];
    var p := CandidateWalk(g, source, d, candidates[i]);
    var q := CandidateWalk(g, source, d, candidates[j]);
    assert p[..d + 1] == candidates[i].path && q[..d + 1] == candidates[j].path;
    assert Last(p) == Last(q) && p != q && LongWalk(g, source, maxDepth, p) && LongWalk(g, source, maxDepth, q);
  }

  /** The flag exactly: it stays down when, and only when, within the depth no walk from the source returns
      to it and no two walks of at least two edges meet. A walk that meets a one-edge walk goes unseen. */
  lemma CycleFlagExactly(g: Graph, source: Node, maxDepth: nat)
    requires NoRepeatedRelations(g) && maxDepth > 0
    ensures !CycleFlag(g, source, maxDepth) <==> TreeLike(g, source, maxDepth)
  {
    if !CycleFlag(g, source, maxDepth) {
      forall p | WalkFrom(g, source, p) && 2 <= |p| <= maxDepth + 1 ensures Last(p) != source {
        if Last(p) == source { CycleThroughSourceIsFlagged(g, source, maxDepth, p); }
      }
      forall p, q | LongWalk(g, source, maxDepth, p) && LongWalk(g, source, maxDepth, q) && Last(p) == Last(q)
        ensures p == q
      {
        if |p| <= |q| {
          UnflaggedWalksDoNotMeet(g, source, maxDepth, p, q);
        } else {
          UnflaggedWalksDoNotMeet(g, source, maxDepth, q, p);
        }
      }
    } else if MeetsVisited(g, SourceEntry(source), {source}) {
      var p := [source, source];
      assert WalkFrom(g, source, p) && Last(p) == source;
    } else {
      var d: nat :| 1 <= d < maxDepth && LayerFlags(g, source, d);
      var frontier, visited := Frontier(g, source, d), Visited(g, source, d);
      if e :| e in frontier && MeetsVisited(g, e, visited) {
        MeetingBreaksTree(g, source, maxDepth, d, e);
      } else {
        DroppingBreaksTree(g, source, maxDepth, d);
      }
    }
  }

  const TOP := Node("goal", "top")
  const LEFT := Node("goal", "left")
  const RIGHT := Node("goal", "right")
  const BOTTOM := Node("goal", "bottom")

  /** Two ways from the top to the bottom. */
  function Diamond(n: Node): (r: Option<Context>) {
    Some(Context(if n == TOP then [LEFT, RIGHT] else if n == LEFT || n == RIGHT then [BOTTOM] else [], 0, Notices(0, 0, 0)))
  }

  lemma DiamondWalk(side: Node)
    requires side == LEFT || side == RIGHT
    ensures LongWalk(Diamond, TOP, 2, [TOP, side, BOTTOM])
  {
    assert Edge(Diamond, TOP, side) && Edge(Diamond, side, BOTTOM);
  }

  /** The flag does not mean a cycle: the diamond raises it, with every edge going down. */
  lemma DiamondIsFlagged()
    ensures CycleFlag(Diamond, TOP, 2)
    ensures forall n, m :: Edge(Diamond, n, m) ==> (n == TOP && m != TOP) || (m == BOTTOM && n != BOTTOM)
  {
    DiamondWalk(LEFT);
    DiamondWalk(RIGHT);
    var p, q := [TOP, LEFT, BOTTOM], [TOP, RIGHT, BOTTOM];
    assert p[1] != q[1] && Last(p) == Last(q);
    CycleFlagExactly(Diamond, TOP, 2);
  }
}
