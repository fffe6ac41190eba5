/** Dependency graphs: paths, cycles, topological orders, and the facts that connect them. */
module DependencyGraph {
  import opened Ordering

  /** Node to the nodes it depends on, repeated dependencies kept. */
  type Graph = map<string, seq<string>>

  ghost predicate Closed(g: Graph) {
    forall n, d :: n in g && d in g[n] ==> d in g
  }

  ghost predicate IsPath(g: Graph, p: seq<string>) {
    && p != []
    && (forall i :: 0 <= i < |p| ==> p[i] in g)
    && (forall i :: 0 <= i < |p| - 1 ==> p[i + 1] in g[p[i]])
  }

  ghost predicate IsCycle(g: Graph, p: seq<string>) {
    IsPath(g, p) && |p| >= 2 && p[0] == p[|p| - 1]
  }

  /** Some node depends on itself through a non-empty chain. */
  ghost predicate Cyclic(g: Graph) {
    exists p :: IsCycle(g, p)
  }

  ghost predicate OnCycle(g: Graph, n: string) {
    exists p :: IsCycle(g, p) && p[0] == n
  }

  ghost predicate Reaches(g: Graph, a: string, b: string) {
    exists p :: IsPath(g, p) && p[0] == a && p[|p| - 1] == b
  }

  /** The node is on a cycle or depends, directly or not, on a node that is. */
  ghost predicate DependsOnCycle(g: Graph, n: string) {
    exists c :: Reaches(g, n, c) && OnCycle(g, c)
  }

  /** A list of distinct nodes, each preceded by all its dependencies. */
  ghost predicate TopologicalPrefix(g: Graph, order: seq<string>) {
    && NoDuplicates(order)
    && (forall i :: 0 <= i < |order| ==> order[i] in g)
    && (forall i, d :: 0 <= i < |order| && d in g[order[i]] ==> d in order[..i])
  }

  lemma SubPath(g: Graph, p: seq<string>, i: nat, j: nat)
    requires IsPath(g, p) && i < j <= |p|
    ensures IsPath(g, p[i..j])
  {
    var q := p[i..j];
    forall k | 0 <= k < |q| - 1 ensures q[k + 1] in g[q[k]] {
      assert q[k] == p[i + k] && q[k + 1] == p[i + k + 1];
    }
  }

  /** A path that meets a node twice shows that its first node depends on a cycle. */
  lemma LassoDependsOnCycle(g: Graph, p: seq<string>)
    requires IsPath(g, p) && !NoDuplicates(p)
    ensures DependsOnCycle(g, p[0]) && Cyclic(g)
  {
    var i, j :| 0 <= i < j < |p| && p[i] == p[j];
    SubPath(g, p, 0, i + 1);
    assert p[0..i + 1][0] == p[0] && p[0..i + 1][i] == p[i];
    assert Reaches(g, p[0], p[i]);
    SubPath(g, p, i, j + 1);
    var c := p[i..j + 1];
    assert c[0] == p[i] && c[|c| - 1] == p[j];
    assert IsCycle(g, c);
    assert OnCycle(g, p[i]);
  }

  lemma CyclicMeansSomeNodeDependsOnCycle(g: Graph)
    ensures Cyclic(g) <==> exists n :: n in g && DependsOnCycle(g, n)
  {
    if Cyclic(g) {
      var p :| IsCycle(g, p);
      SubPath(g, p, 0, 1);
      assert p[0..1][0] == p[0];
      assert Reaches(g, p[0], p[0]);
      assert OnCycle(g, p[0]);
      assert p[0] in g && DependsOnCycle(g, p[0]);
    }
  }

  function IndexOf(s: seq<string>, x: string): (i: nat)
    requires x in s
    ensures i < |s| && s[i] == x
  {
    if s[0] == x then 0 else 1 + IndexOf(s[1..], x)
  }

  /** Along a path that starts inside a topological prefix, positions strictly decrease. */
  lemma {:induction false} PathDescends(g: Graph, order: seq<string>, p: seq<string>, k: nat)
    requires TopologicalPrefix(g, order) && IsPath(g, p) && p[0] in order && k < |p|
    ensures p[k] in order && (k > 0 ==> IndexOf(order, p[k]) < IndexOf(order, p[0]))
  {
    if k > 0 {
      PathDescends(g, order, p, k - 1);
      var i := IndexOf(order, p[k - 1]);
      assert p[k - 1 + 1] in g[p[k - 1]];
      assert p[k] in g[order[i]];
      assert p[k] in order[..i];
      var j :| 0 <= j < i && order[j] == p[k];
      assert IndexOf(order, p[k]) == j;
    }
  }

  /** Nothing in a topological prefix depends on a cycle. */
  lemma TopologicalPrefixAvoidsCycles(g: Graph, order: seq<string>, n: string)
    requires TopologicalPrefix(g, order) && n in order
    ensures !DependsOnCycle(g, n)
  {
    if DependsOnCycle(g, n) {
      var c :| Reaches(g, n, c) && OnCycle(g, c);
      var p :| IsPath(g, p) && p[0] == n && p[|p| - 1] == c;
      PathDescends(g, order, p, |p| - 1);
      var q :| IsCycle(g, q) && q[0] == c;
      PathDescends(g, order, q, |q| - 1);
    }
  }

  ghost predicate HasDependencyIn(g: Graph, s: set<string>, n: string)
    requires n in g
  {
    exists d :: d in g[n] && d in s
  }

  /** In a set whose every node has a dependency in the set, one can walk any number of steps. */
  lemma {:induction false} WalkInside(g: Graph, s: set<string>, n: string, k: nat) returns (p: seq<string>)
    requires s <= g.Keys && n in s
    requires forall m {:trigger HasDependencyIn(g, s, m)} :: m in s ==> HasDependencyIn(g, s, m)
    ensures IsPath(g, p) && p[0] == n && |p| == k + 1
    ensures forall x :: x in p ==> x in s
    decreases k
  {
    if k == 0 {
      p := [n];
    } else {
      assert HasDependencyIn(g, s, n);
      var d :| d in g[n] && d in s;
      var q := WalkInside(g, s, d, k - 1);
      p := [n] + q;
      forall i | 0 <= i < |p| - 1 ensures p[i + 1] in g[p[i]] {
        if i > 0 { assert p[i] == q[i - 1] && p[i + 1] == q[i]; }
      }
    }
  }

  /** A node from which one can walk forever inside a finite set depends on a cycle. */
  lemma StuckDependsOnCycle(g: Graph, s: set<string>, n: string)
    requires s <= g.Keys && n in s
    requires forall m {:trigger HasDependencyIn(g, s, m)} :: m in s ==> HasDependencyIn(g, s, m)
    ensures DependsOnCycle(g, n)
  {
    var p := WalkInside(g, s, n, |s|);
    Pigeonhole(p, s);
    LassoDependsOnCycle(g, p);
  }

  /** More edges, more cycles. */
  lemma CyclicMonotone(g: Graph, h: Graph)
    requires g.Keys <= h.Keys
    requires forall n, d :: n in g && d in g[n] ==> d in h[n]
    ensures Cyclic(g) ==> Cyclic(h)
  {
    if Cyclic(g) {
      var p :| IsCycle(g, p);
      assert IsPath(h, p);
      assert IsCycle(h, p);
    }
  }
}
