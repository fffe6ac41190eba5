/** Execution order by in-degree counting, ties broken by (sequence index, id), and its agreement
    with cycle detection. */
module ExecutionOrder {
  import opened Ordering
  import opened DependencyGraph
  import opened Operations
  import opened Text
  import CycleDetection

  function SequenceIndex(ops: seq<Operation>, id: string): (r: int) {
    if id in Ids(ops) then LastDefinition(ops, id).sequenceIndex else 0
  }

  predicate KeyLe(ops: seq<Operation>, a: string, b: string) {
    || SequenceIndex(ops, a) < SequenceIndex(ops, b)
    || (SequenceIndex(ops, a) == SequenceIndex(ops, b) && StringLe(a, b))
  }

  function ByKey(ops: seq<Operation>): (string, string) -> bool {
    (a, b) => KeyLe(ops, a, b)
  }

  lemma ByKeyIsTotalOrder(ops: seq<Operation>)
    ensures TotalOrder(ByKey(ops))
  {
    StringLeIsTotalOrder();
  }

  /** The operations not yet done whose in-set dependencies all are. */
  ghost function ReadyAfter(g: Graph, done: seq<string>): (r: set<string>) {
    set n | n in g && n !in done && forall d :: d in g[n] ==> d in done
  }

  /** Distinct nodes, each after all its dependencies and each the least among those then ready,
      going on until nothing is ready. */
  ghost predicate IsOrderOf(g: Graph, le: (string, string) -> bool, order: seq<string>) {
    && TopologicalPrefix(g, order)
    && TakesLeastReady(g, le, order)
    && ReadyAfter(g, order) == {}
  }

  ghost predicate TakesLeastReady(g: Graph, le: (string, string) -> bool, order: seq<string>) {
    forall i, r :: 0 <= i < |order| && r in ReadyAfter(g, order[..i]) ==> le(order[i], r)
  }

  ghost predicate IsExecutionOrder(ops: seq<Operation>, order: seq<string>) {
    IsOrderOf(UnionGraph(ops), ByKey(ops), order)
  }

  // ---------------------------------------------------------------- counting

  /** How many entries of a dependency list are still undone, repeats counted. */
  ghost function Pending(deps: seq<string>, done: set<string>): (r: nat) {
    if deps == [] then 0 else (if deps[0] in done then 0 else 1) + Pending(deps[1..], done)
  }

  lemma {:induction false} PendingZero(deps: seq<string>, done: set<string>)
    ensures Pending(deps, done) == 0 <==> forall d :: d in deps ==> d in done
  {
    if deps != [] {
      PendingZero(deps[1..], done);
      assert deps == [deps[0]] + deps[1..];
    }
  }

  lemma {:induction false} PendingInitially(deps: seq<string>)
    ensures Pending(deps, {}) == |deps|
  {
    if deps != [] { PendingInitially(deps[1..]); }
  }

  lemma {:induction false} PendingAfter(deps: seq<string>, done: set<string>, c: string)
    requires c !in done
    ensures Pending(deps, done) == Pending(deps, done + {c}) + multiset(deps)[c]
  {
    if deps != [] {
      PendingAfter(deps[1..], done, c);
      assert deps == [deps[0]] + deps[1..];
    }
  }

  // ---------------------------------------------------------------- the algorithm

  /** The in-degree table and the reversed adjacency, for the edges counted so far. */
  ghost predicate CountsEdges(ids: set<string>, edges: map<string, seq<string>>, inDegree: map<string, nat>,
                              reverseAdj: map<string, seq<string>>)
  {
    && edges.Keys == inDegree.Keys == reverseAdj.Keys == ids
    && (forall n {:trigger inDegree[n]} :: n in ids ==> inDegree[n] == |edges[n]|)
    && (forall x, y {:trigger y in reverseAdj[x]} :: x in ids && y in reverseAdj[x] ==> y in ids)
    && (forall x, y {:trigger multiset(reverseAdj[x])[y]} ::
          x in ids && y in ids ==> multiset(reverseAdj[x])[y] == multiset(edges[y])[x])
  }

  lemma CountsOneMore(ids: set<string>, edges: map<string, seq<string>>, inDegree: map<string, nat>,
                      reverseAdj: map<string, seq<string>>, n: string, d: string)
    requires CountsEdges(ids, edges, inDegree, reverseAdj) && n in ids && d in ids
    ensures CountsEdges(ids, edges[n := edges[n] + [d]], inDegree[n := inDegree[n] + 1],
                        reverseAdj[d := reverseAdj[d] + [n]])
  {
  }

  ghost function EdgesOfFirst(ops: seq<Operation>, i: nat): (r: Graph)
    requires i <= |ops|
  {
    map id | id in Ids(ops) :: AllDependencies(ops[..i], id, Ids(ops))
  }

  lemma OneMoreOperation(ops: seq<Operation>, i: nat)
    requires i < |ops|
    ensures var before := EdgesOfFirst(ops, i);
      EdgesOfFirst(ops, i + 1) == before[ops[i].id := before[ops[i].id] + InSet(ops[i].dependsOn, Ids(ops))]
  {
    assert ops[..i + 1][..i] == ops[..i];
    forall id | id in Ids(ops) ensures AllDependencies(ops[..i], id, Ids(ops)) + [] == AllDependencies(ops[..i], id, Ids(ops)) { }
  }

  method BuildTables(ops: seq<Operation>) returns (inDegree: map<string, nat>, reverseAdj: map<string, seq<string>>)
    ensures CountsEdges(Ids(ops), UnionGraph(ops), inDegree, reverseAdj)
  {
    var ids := Ids(ops);
    inDegree := map id | id in ids :: 0;
    reverseAdj := map id | id in ids :: [];
    ghost var edges: map<string, seq<string>> := map id | id in ids :: [];
    for i := 0 to |ops|
      invariant CountsEdges(ids, edges, inDegree, reverseAdj)
      invariant edges == EdgesOfFirst(ops, i)
    {
      assert ops[i].id in ids;
      inDegree, reverseAdj, edges := CountOperation(ids, ops[i], inDegree, reverseAdj, edges);
      OneMoreOperation(ops, i);
    }
    assert ops[..|ops|] == ops;
  }

  /** The inner loop over one operation's dependencies. */
  method CountOperation(ids: set<string>, op: Operation, inDegreeBefore: map<string, nat>,
                        reverseAdjBefore: map<string, seq<string>>, ghost edgesBefore: map<string, seq<string>>)
      returns (inDegree: map<string, nat>, reverseAdj: map<string, seq<string>>, ghost edges: map<string, seq<string>>)
    requires CountsEdges(ids, edgesBefore, inDegreeBefore, reverseAdjBefore) && op.id in ids
    ensures CountsEdges(ids, edges, inDegree, reverseAdj)
    ensures edges == edgesBefore[op.id := edgesBefore[op.id] + InSet(op.dependsOn, ids)]
  {
    inDegree, reverseAdj, edges := inDegreeBefore, reverseAdjBefore, edgesBefore;
    assert edgesBefore[op.id] + [] == edgesBefore[op.id];
    for j := 0 to |op.dependsOn|
      invariant CountsEdges(ids, edges, inDegree, reverseAdj)
      invariant edges == edgesBefore[op.id := edgesBefore[op.id] + InSet(op.dependsOn[..j], ids)]
    {
      var d := op.dependsOn[j];
      assert op.dependsOn[..j + 1][..j] == op.dependsOn[..j];
      if d in ids {
        CountsOneMore(ids, edges, inDegree, reverseAdj, op.id, d);
        inDegree := inDegree[op.id := inDegree[op.id] + 1];
        reverseAdj := reverseAdj[d := reverseAdj[d] + [op.id]];
        assert edges[op.id] + [d] == edgesBefore[op.id] + InSet(op.dependsOn[..j + 1], ids);
        edges := edges[op.id := edges[op.id] + [d]];
      }
    }
    assert op.dependsOn[..|op.dependsOn|] == op.dependsOn;
  }

  /** The list names every dependent of x, once for each time it lists x. */
  ghost predicate ReversesEdgesInto(g: Graph, x: string, adj: seq<string>) {
    && (forall y :: y in adj ==> y in g)
    && (forall y {:trigger multiset(adj)[y]} :: y in g ==> multiset(adj)[y] == multiset(g[y])[x])
  }

  lemma SortedStillReverses(g: Graph, inDegree: map<string, nat>, reverseAdj: map<string, seq<string>>)
    requires CountsEdges(g.Keys, g, inDegree, reverseAdj)
    ensures forall x :: x in g ==> ReversesEdgesInto(g, x, Sorted(reverseAdj[x], StringLe))
  {
    forall x | x in g ensures ReversesEdgesInto(g, x, Sorted(reverseAdj[x], StringLe)) {
      SortedPermutes(reverseAdj[x], StringLe);
      SameMembers(reverseAdj[x], Sorted(reverseAdj[x], StringLe));
    }
  }

  /** The ready list is the ready set, each once, in key order. */
  ghost predicate ReadyList(g: Graph, le: (string, string) -> bool, ready: seq<string>, result: seq<string>) {
    && NoDuplicates(ready) && SortedBy(ready, le)
    && Elems(ready) == ReadyAfter(g, result)
  }

  ghost predicate CountsPending(g: Graph, inDegree: map<string, nat>, result: seq<string>) {
    && inDegree.Keys == g.Keys
    && (forall n :: n in g ==> inDegree[n] == Pending(g[n], Elems(result)))
  }

  lemma NothingDoneYet(g: Graph, inDegree: map<string, nat>)
    requires inDegree.Keys == g.Keys && forall n :: n in g ==> inDegree[n] == |g[n]|
    ensures CountsPending(g, inDegree, [])
  {
    assert Elems<string>([]) == {};
    forall n | n in g ensures inDegree[n] == Pending(g[n], {}) { PendingInitially(g[n]); }
  }

  /** Kahn's algorithm: the operation ids in execution order, partial when there is a cycle. */
  method DetermineExecutionOrder(ops: seq<Operation>) returns (result: seq<string>)
    ensures IsExecutionOrder(ops, result) && IsEarliestFirst(ops, result)
  {
    OrderInPlainTerms(ops, []);
    if ops == [] {
      return [];
    }
    var inDegree, reverseAdj := BuildTables(ops);
    SortedStillReverses(UnionGraph(ops), inDegree, reverseAdj);
    reverseAdj := map id | id in reverseAdj :: Sorted(reverseAdj[id], StringLe);
    KeyListMembers(ops);
    ByKeyIsTotalOrder(ops);
    result := EmitReady(UnionGraph(ops), ByKey(ops), KeyList(ops), inDegree, reverseAdj);
    OrderInPlainTerms(ops, result);
  }

  method EmitReady(ghost g: Graph, le: (string, string) -> bool, keys: seq<string>, degrees: map<string, nat>,
                   reverseAdj: map<string, seq<string>>)
      returns (result: seq<string>)
    requires TotalOrder(le) && NoDuplicates(keys) && Elems(keys) == g.Keys == reverseAdj.Keys == degrees.Keys
    requires forall n :: n in g ==> degrees[n] == |g[n]|
    requires forall x :: x in g ==> ReversesEdgesInto(g, x, reverseAdj[x])
    ensures IsOrderOf(g, le, result)
  {
    var inDegree := degrees;
    var ready := InitiallyReady(g, le, keys, inDegree);
    result := [];
    NothingDoneYet(g, inDegree);
    while ready != []
      invariant CountsPending(g, inDegree, result) && ReadyList(g, le, ready, result)
      invariant TopologicalPrefix(g, result) && TakesLeastReady(g, le, result)
      decreases g.Keys - Elems(result)
    {
      var current := ready[0];
      TakeLeast(g, le, ready, result);
      var newlyReady;
      inDegree, newlyReady := Release(g, inDegree, reverseAdj[current], current, result);
      MergeReady(g, le, ready, newlyReady, result);
      newlyReady := Sorted(newlyReady, le);
      ready := Sorted(ready[1..] + newlyReady, le);
      assert current in Elems(result + [current]) && current !in Elems(result);
      result := result + [current];
    }
    assert Elems(ready) == {};
  }

  method InitiallyReady(ghost g: Graph, le: (string, string) -> bool, keys: seq<string>, inDegree: map<string, nat>)
      returns (ready: seq<string>)
    requires TotalOrder(le) && NoDuplicates(keys) && Elems(keys) == g.Keys == inDegree.Keys
    requires forall n :: n in g ==> inDegree[n] == |g[n]|
    ensures ReadyList(g, le, ready, [])
  {
    var free: seq<string> := [];
    for i := 0 to |keys|
      invariant NoDuplicates(free)
      invariant forall n :: n in free <==> n in keys[..i] && n in inDegree && inDegree[n] == 0
    {
      assert keys[i] in Elems(keys);
      assert keys[i] !in keys[..i];
      if inDegree[keys[i]] == 0 { free := free + [keys[i]]; }
    }
    ready := Sorted(free, le);
    SortedDistinct(free, le);
    forall n ensures n in Elems(ready) <==> n in ReadyAfter(g, []) {
      assert keys[..|keys|] == keys;
      assert n in g <==> n in Elems(keys);
      if n in g && |g[n]| > 0 { assert g[n][0] in g[n]; }
    }
  }

  lemma SortedDistinct(s: seq<string>, le: (string, string) -> bool)
    requires TotalOrder(le) && NoDuplicates(s)
    ensures NoDuplicates(Sorted(s, le)) && SortedBy(Sorted(s, le), le)
    ensures forall x :: x in Sorted(s, le) <==> x in s
  {
    SortedIsSorted(s, le);
    SortedPermutes(s, le);
    PermutationKeepsDistinct(s, Sorted(s, le));
    SameMembers(s, Sorted(s, le));
  }

  lemma TakeLeast(g: Graph, le: (string, string) -> bool, ready: seq<string>, result: seq<string>)
    requires TotalOrder(le) && ready != [] && ReadyList(g, le, ready, result)
    requires TopologicalPrefix(g, result) && TakesLeastReady(g, le, result)
    ensures ready[0] in g && ready[0] !in result
    ensures TopologicalPrefix(g, result + [ready[0]])
    ensures TakesLeastReady(g, le, result + [ready[0]])
  {
    var longer := result + [ready[0]];
    assert ready[0] in Elems(ready);
    assert forall i :: 0 <= i <= |result| ==> longer[..i] == result[..i];
    assert result[..|result|] == result;
    forall r | r in ReadyAfter(g, result) ensures le(ready[0], r) {
      assert r in Elems(ready);
      var k :| 0 <= k < |ready| && ready[k] == r;
    }
  }

  ghost predicate BecomesReady(g: Graph, current: string, done: set<string>, n: string)
    requires n in g
  {
    current in g[n] && forall d :: d in g[n] ==> d in done + {current}
  }

  /** What becomes ready when one more operation is done. */
  ghost predicate JustReady(g: Graph, current: string, result: seq<string>, newly: seq<string>) {
    && NoDuplicates(newly)
    && (forall n :: n in newly <==> n in g && BecomesReady(g, current, Elems(result), n))
  }

  /** One operation is done: its dependents lose one count for each time they list it. */
  method Release(ghost g: Graph, inDegree: map<string, nat>, adj: seq<string>, current: string, ghost result: seq<string>)
      returns (lower: map<string, nat>, newlyReady: seq<string>)
    requires current in g && current !in result && CountsPending(g, inDegree, result)
    requires ReversesEdgesInto(g, current, adj)
    ensures CountsPending(g, lower, result + [current])
    ensures JustReady(g, current, result, newlyReady)
  {
    ghost var done := Elems(result);
    assert Elems(result + [current]) == done + {current};
    PendingSplits(g, adj, current, done);
    lower, newlyReady := Decrement(inDegree, adj);
    ZeroMeansJustReady(g, adj, current, done);
  }

  method Decrement(inDegree: map<string, nat>, adj: seq<string>)
      returns (lower: map<string, nat>, newlyReady: seq<string>)
    requires forall y :: y in adj ==> y in inDegree
    requires forall n :: n in inDegree ==> multiset(adj)[n] <= inDegree[n]
    ensures lower.Keys == inDegree.Keys
    ensures forall n :: n in inDegree ==> lower[n] == inDegree[n] - multiset(adj)[n]
    ensures NoDuplicates(newlyReady)
    ensures forall n :: n in newlyReady <==> n in adj && lower[n] == 0
  {
    lower, newlyReady := inDegree, [];
    for k := 0 to |adj|
      invariant lower.Keys == inDegree.Keys
      invariant forall n :: n in inDegree ==> lower[n] + multiset(adj[..k])[n] == inDegree[n]
      invariant NoDuplicates(newlyReady)
      invariant forall n :: n in newlyReady <==> n in adj[..k] && lower[n] == 0
    {
      var dep := adj[k];
      assert adj[..k + 1] == adj[..k] + [dep];
      PrefixCount(adj, k + 1);
      lower := lower[dep := lower[dep] - 1];
      if lower[dep] == 0 { newlyReady := newlyReady + [dep]; }
    }
    assert adj[..|adj|] == adj;
  }

  lemma PendingSplits(g: Graph, adj: seq<string>, current: string, done: set<string>)
    requires current in g && current !in done && ReversesEdgesInto(g, current, adj)
    ensures forall n :: n in g ==> Pending(g[n], done) == Pending(g[n], done + {current}) + multiset(adj)[n]
  {
    forall n | n in g ensures Pending(g[n], done) == Pending(g[n], done + {current}) + multiset(adj)[n] {
      PendingAfter(g[n], done, current);
    }
  }

  lemma ZeroMeansJustReady(g: Graph, adj: seq<string>, current: string, done: set<string>)
    requires current in g && ReversesEdgesInto(g, current, adj)
    ensures forall n :: n in g ==>
      ((n in adj && Pending(g[n], done + {current}) == 0) <==> BecomesReady(g, current, done, n))
  {
    forall n | n in g
      ensures (n in adj && Pending(g[n], done + {current}) == 0) <==> BecomesReady(g, current, done, n)
    {
      PendingZero(g[n], done + {current});
      assert n in adj <==> n in multiset(adj);
      assert current in g[n] <==> current in multiset(g[n]);
    }
  }

  lemma PrefixCount<T>(s: seq<T>, k: nat)
    requires k <= |s|
    ensures forall x :: multiset(s[..k])[x] <= multiset(s)[x]
  {
    assert s == s[..k] + s[k..];
  }

  lemma MergeReady(g: Graph, le: (string, string) -> bool, ready: seq<string>, newly: seq<string>, result: seq<string>)
    requires TotalOrder(le) && ready != [] && ReadyList(g, le, ready, result)
    requires TopologicalPrefix(g, result) && JustReady(g, ready[0], result, newly)
    ensures ReadyList(g, le, Sorted(ready[1..] + Sorted(newly, le), le), result + [ready[0]])
  {
    var current := ready[0];
    var waiting := ready[1..];
    SortedDistinct(newly, le);
    var both := waiting + Sorted(newly, le);
    assert current in Elems(ready);
    forall n ensures n in waiting <==> n in Elems(ready) && n != current {
      if n in waiting { var k :| 0 <= k < |waiting| && waiting[k] == n; assert ready[k + 1] == n; }
      if n in ready && n != current { var k :| 0 <= k < |ready| && ready[k] == n; assert waiting[k - 1] == n; }
    }
    forall n | n in waiting ensures n !in newly { assert n in ReadyAfter(g, result); }
    assert NoDuplicates(waiting) by {
      assert forall i :: 0 <= i < |waiting| ==> waiting[i] == ready[i + 1];
    }
    DisjointConcat(waiting, Sorted(newly, le));
    SortedDistinct(both, le);
    forall n ensures n in both <==> n in ReadyAfter(g, result + [current]) {
      assert n in both <==> n in waiting || n in newly;
    }
  }

  // ---------------------------------------------------------------- the order, read off the operations

  /** Some definition of x names d as a dependency, and d is an operation of the list. */
  ghost predicate Needs(ops: seq<Operation>, x: string, d: string) {
    && (exists i :: 0 <= i < |ops| && ops[i].id == x && d in ops[i].dependsOn)
    && (exists i :: 0 <= i < |ops| && ops[i].id == d)
  }

  /** An operation that is not yet done, and all it needs is. */
  ghost predicate CanRun(ops: seq<Operation>, done: seq<string>, x: string) {
    && x !in done && (exists i :: 0 <= i < |ops| && ops[i].id == x)
    && forall d :: Needs(ops, x, d) ==> d in done
  }

  ghost predicate IsLast(ops: seq<Operation>, i: nat)
    requires i < |ops|
  {
    forall j :: i < j < |ops| ==> ops[j].id != ops[i].id
  }

  /** The smaller sequence index first, and of equal ones the id that comes first in the dictionary. */
  ghost predicate Precedes(a: Operation, b: Operation) {
    a.sequenceIndex < b.sequenceIndex || (a.sequenceIndex == b.sequenceIndex && AtOrBefore(a.id, b.id))
  }

  /** The last definition of x precedes those of all others that can run. */
  ghost predicate PrecedesTheOthers(ops: seq<Operation>, done: seq<string>, x: string) {
    forall m, k :: 0 <= m < |ops| && 0 <= k < |ops| && IsLast(ops, m) && IsLast(ops, k) ==>
      ops[m].id == x && CanRun(ops, done, ops[k].id) ==> Precedes(ops[m], ops[k])
  }

  /** Each id at its turn can run, and its last definition precedes those of all others that can; and the order goes
      on until none can. */
  ghost predicate IsEarliestFirst(ops: seq<Operation>, order: seq<string>) {
    && (forall i :: 0 <= i < |order| ==> CanRun(ops, order[..i], order[i]))
    && (forall i :: 0 <= i < |order| ==> PrecedesTheOthers(ops, order[..i], order[i]))
    && (forall k :: 0 <= k < |ops| ==> !CanRun(ops, order, ops[k].id))
  }

  lemma NeedsIs(ops: seq<Operation>, x: string, d: string)
    requires x in Ids(ops)
    ensures Needs(ops, x, d) <==> d in UnionGraph(ops)[x]
  {
    AllDependenciesMembers(ops, x, Ids(ops));
    forall i | 0 <= i < |ops| ensures d in InSet(ops[i].dependsOn, Ids(ops)) <==> d in ops[i].dependsOn && d in Ids(ops) {
      InSetMembers(ops[i].dependsOn, Ids(ops));
    }
  }

  lemma CanRunIs(ops: seq<Operation>, done: seq<string>, x: string)
    ensures CanRun(ops, done, x) <==> x in ReadyAfter(UnionGraph(ops), done)
  {
    if x in Ids(ops) {
      forall d ensures Needs(ops, x, d) <==> d in UnionGraph(ops)[x] { NeedsIs(ops, x, d); }
    }
  }

  lemma {:induction false} LastIs(ops: seq<Operation>, m: nat)
    requires m < |ops| && IsLast(ops, m)
    ensures ops[m].id in Ids(ops) && LastDefinition(ops, ops[m].id) == ops[m]
  {
    if m < |ops| - 1 {
      var init := ops[..|ops| - 1];
      assert forall j :: 0 <= j < |init| ==> init[j] == ops[j];
      LastIs(init, m);
    }
  }

  lemma {:induction false} HasLast(ops: seq<Operation>, x: string) returns (m: nat)
    requires x in Ids(ops)
    ensures m < |ops| && ops[m].id == x && IsLast(ops, m)
  {
    m := |ops| - 1;
    if ops[m].id != x {
      var init := ops[..m];
      assert forall j :: 0 <= j < |init| ==> init[j] == ops[j];
      m := HasLast(init, x);
    }
  }

  lemma PrecedesIs(ops: seq<Operation>, m: nat, k: nat)
    requires m < |ops| && k < |ops| && IsLast(ops, m) && IsLast(ops, k)
    ensures Precedes(ops[m], ops[k]) <==> KeyLe(ops, ops[m].id, ops[k].id)
  {
    LastIs(ops, m);
    LastIs(ops, k);
    StringLeIs(ops[m].id, ops[k].id);
  }

  lemma LeastInPlainTerms(ops: seq<Operation>, done: seq<string>, x: string)
    requires x in Ids(ops)
    ensures PrecedesTheOthers(ops, done, x) <==> forall r :: r in ReadyAfter(UnionGraph(ops), done) ==> KeyLe(ops, x, r)
  {
    var at := HasLast(ops, x);
    forall m, k | 0 <= m < |ops| && 0 <= k < |ops| && IsLast(ops, m) && IsLast(ops, k)
      ensures Precedes(ops[m], ops[k]) <==> KeyLe(ops, ops[m].id, ops[k].id)
    {
      PrecedesIs(ops, m, k);
    }
    forall r ensures CanRun(ops, done, r) <==> r in ReadyAfter(UnionGraph(ops), done) { CanRunIs(ops, done, r); }
    if PrecedesTheOthers(ops, done, x) {
      forall r | r in ReadyAfter(UnionGraph(ops), done) ensures KeyLe(ops, x, r) {
        var k := HasLast(ops, r);
        assert Precedes(ops[at], ops[k]);
      }
    }
  }

  lemma TurnsInPlainTerms(ops: seq<Operation>, order: seq<string>)
    ensures TopologicalPrefix(UnionGraph(ops), order) <==> forall i :: 0 <= i < |order| ==> CanRun(ops, order[..i], order[i])
  {
    forall i | 0 <= i < |order| ensures CanRun(ops, order[..i], order[i]) <==> order[i] in ReadyAfter(UnionGraph(ops), order[..i]) {
      CanRunIs(ops, order[..i], order[i]);
    }
    if forall i :: 0 <= i < |order| ==> CanRun(ops, order[..i], order[i]) {
      forall i, j | 0 <= i < j < |order| ensures order[i] != order[j] { assert order[i] in order[..j]; }
    }
  }

  /** The execution order, stated on the operations themselves. */
  lemma OrderInPlainTerms(ops: seq<Operation>, order: seq<string>)
    ensures IsExecutionOrder(ops, order) <==> IsEarliestFirst(ops, order)
  {
    TurnsInPlainTerms(ops, order);
    if TopologicalPrefix(UnionGraph(ops), order) {
      forall i | 0 <= i < |order|
        ensures PrecedesTheOthers(ops, order[..i], order[i])
          <==> forall r :: r in ReadyAfter(UnionGraph(ops), order[..i]) ==> KeyLe(ops, order[i], r)
      {
        LeastInPlainTerms(ops, order[..i], order[i]);
      }
      forall x ensures CanRun(ops, order, x) <==> x in ReadyAfter(UnionGraph(ops), order) { CanRunIs(ops, order, x); }
    }
  }

  // ---------------------------------------------------------------- what the order is

  /** The order holds exactly the operations that do not depend on a cycle. */
  lemma OrderHoldsTheUncycled(g: Graph, le: (string, string) -> bool, order: seq<string>, n: string)
    requires Closed(g) && IsOrderOf(g, le, order)
    ensures n in order <==> n in g && !DependsOnCycle(g, n)
  {
    if n in order {
      TopologicalPrefixAvoidsCycles(g, order, n);
    } else if n in g {
      var rest := g.Keys - Elems(order);
      forall m {:trigger HasDependencyIn(g, rest, m)} | m in rest ensures HasDependencyIn(g, rest, m) {
        assert m !in ReadyAfter(g, order);
      }
      StuckDependsOnCycle(g, rest, n);
    }
  }

  /** Cycle detection and ordering agree, whatever the list, on the graph that the ordering counts. */
  lemma CompleteExactlyWhenAcyclic(ops: seq<Operation>, order: seq<string>)
    requires IsExecutionOrder(ops, order)
    ensures Elems(order) == Ids(ops) <==> !Cyclic(UnionGraph(ops))
  {
    var g := UnionGraph(ops);
    GraphsAreClosed(ops);
    CyclicMeansSomeNodeDependsOnCycle(g);
    forall n ensures n in order <==> n in g && !DependsOnCycle(g, n) {
      OrderHoldsTheUncycled(g, ByKey(ops), order, n);
    }
  }

  /** The two algorithms agree exactly when every cycle among the dependencies of all definitions leaves one
      among those of the last definitions. */
  lemma AgreeExactlyWhen(ops: seq<Operation>, order: seq<string>)
    requires IsExecutionOrder(ops, order)
    ensures (!Cyclic(LastGraph(ops)) <==> Elems(order) == Ids(ops))
      <==> (Cyclic(UnionGraph(ops)) ==> Cyclic(LastGraph(ops)))
  {
    CompleteExactlyWhenAcyclic(ops, order);
    LastGraphWithinUnionGraph(ops);
    CyclicMonotone(LastGraph(ops), UnionGraph(ops));
  }

  /** Every definition of an id adds only dependencies that its last definition has too. */
  ghost predicate LastDefinitionCovers(ops: seq<Operation>) {
    forall op, d :: op in ops && d in op.dependsOn && d in Ids(ops) ==> d in LastDefinition(ops, op.id).dependsOn
  }

  lemma CoveredGraphsAgree(ops: seq<Operation>)
    requires LastDefinitionCovers(ops)
    ensures forall n, d :: n in UnionGraph(ops) && d in UnionGraph(ops)[n] ==> d in LastGraph(ops)[n]
  {
    var ids := Ids(ops);
    forall n, d | n in UnionGraph(ops) && d in UnionGraph(ops)[n] ensures d in LastGraph(ops)[n] {
      AllDependenciesMembers(ops, n, ids);
      var i :| 0 <= i < |ops| && ops[i].id == n && d in InSet(ops[i].dependsOn, ids);
      InSetMembers(ops[i].dependsOn, ids);
      assert ops[i] in ops;
      InSetMembers(LastDefinition(ops, n).dependsOn, ids);
    }
  }

  /** Then the two algorithms agree: the search finds no cycle exactly when the order holds every operation. */
  lemma SearchAndOrderAgree(ops: seq<Operation>, order: seq<string>)
    requires LastDefinitionCovers(ops) && IsExecutionOrder(ops, order)
    ensures !Cyclic(LastGraph(ops)) <==> Elems(order) == Ids(ops)
  {
    AgreeExactlyWhen(ops, order);
    CoveredGraphsAgree(ops);
    CyclicMonotone(UnionGraph(ops), LastGraph(ops));
  }

  /** In particular for distinct ids, and then the order lists each operation once. */
  lemma AgreementForDistinctIds(ops: seq<Operation>, order: seq<string>)
    requires DistinctIds(ops) && IsExecutionOrder(ops, order)
    ensures LastDefinitionCovers(ops)
    ensures !Cyclic(LastGraph(ops)) <==> |order| == |ops|
    ensures !Cyclic(LastGraph(ops)) <==> Elems(order) == Ids(ops)
  {
    forall op | op in ops ensures LastDefinition(ops, op.id) == op {
      assert LastDefinition(ops, op.id) in ops;
    }
    SearchAndOrderAgree(ops, order);
    DistinctCount(order);
    DistinctIdCount(ops);
    assert Elems(order) <= Ids(ops);
    if |order| == |ops| { SubsetOfSameSize(Elems(order), Ids(ops)); }
  }

  lemma DistinctIdCount(ops: seq<Operation>)
    requires DistinctIds(ops)
    ensures |Ids(ops)| == |ops|
  {
    var ids := seq(|ops|, i requires 0 <= i < |ops| => ops[i].id);
    DistinctCount(ids);
    forall x ensures x in Elems(ids) <==> x in Ids(ops) {
      if x in Ids(ops) { var i :| 0 <= i < |ops| && ops[i].id == x; assert ids[i] == x; }
    }
    assert Elems(ids) == Ids(ops);
  }

  lemma FirstHasNoDependencies(g: Graph, order: seq<string>)
    requires TopologicalPrefix(g, order) && order != []
    ensures forall d :: d !in g[order[0]]
  {
    assert order[..0] == [];
  }

  lemma NothingStarts(g: Graph, order: seq<string>)
    requires TopologicalPrefix(g, order)
    requires forall n {:trigger n in g} :: n in g ==> exists d :: d in g[n]
    ensures order == []
  {
    if order != [] {
      assert order[0] in g;
      FirstHasNoDependencies(g, order);
    }
  }

  /** a is defined twice, first on b, then on nothing; b is on a. */
  function HiddenCycle(): (r: seq<Operation>) {
    [Operation("a", "plan", "g", 0, ["b"], None), Operation("b", "plan", "g", 1, ["a"], None),
     Operation("a", "plan", "g", 2, [], None)]
  }

  lemma HiddenCycleGraphs()
    ensures var ops := HiddenCycle();
      && Ids(ops) == {"a", "b"}
      && (forall d :: d !in LastGraph(ops)["a"]) && (forall d :: d in LastGraph(ops)["b"] <==> d == "a")
      && "b" in UnionGraph(ops)["a"] && "a" in UnionGraph(ops)["b"]
  {
    var ops := HiddenCycle();
    var ids := Ids(ops);
    assert ops[0].id == "a" && ops[1].id == "b";
    assert ids == {"a", "b"} by {
      assert "a" in ids && "b" in ids;
      forall x | x in ids ensures x == "a" || x == "b" { }
    }
    assert ops[..2] == [ops[0], ops[1]];
    assert LastDefinition(ops, "a") == ops[2] && LastDefinition(ops, "b") == ops[1];
    InSetMembers([], ids);
    InSetMembers(["a"], ids);
    InSetMembers(["b"], ids);
    AllDependenciesMembers(ops, "a", ids);
    AllDependenciesMembers(ops, "b", ids);
  }

  /** ... and it does miss some: here it finds no cycle, and yet nothing is ordered. */
  lemma RepeatedIdHidesACycle()
    ensures !Cyclic(LastGraph(HiddenCycle()))
    ensures forall order :: IsExecutionOrder(HiddenCycle(), order) ==> order == []
  {
    var ops := HiddenCycle();
    HiddenCycleGraphs();
    var finish := ["a", "b"];
    assert finish[..1] == ["a"];
    assert "a" in finish && "b" in finish;
    CycleDetection.FinishedAllMeansAcyclic(LastGraph(ops), finish);
    forall order | IsExecutionOrder(ops, order) ensures order == [] {
      NothingStarts(UnionGraph(ops), order);
    }
  }

  /** The order is determined: no other list meets the same conditions. */
  lemma {:induction false} OrderIsUnique(g: Graph, le: (string, string) -> bool, s: seq<string>, t: seq<string>, k: nat)
    requires TotalOrder(le) && IsOrderOf(g, le, s) && IsOrderOf(g, le, t)
    requires k <= |s|
    ensures k <= |t| && s[..k] == t[..k]
  {
    if k > 0 {
      OrderIsUnique(g, le, s, t, k - 1);
      TakenIsReady(g, s, k - 1);
      assert t[..|t|] == t;
      if |t| >= k {
        TakenIsReady(g, t, k - 1);
        assert le(s[k - 1], t[k - 1]) && le(t[k - 1], s[k - 1]);
        assert s[..k] == s[..k - 1] + [s[k - 1]] && t[..k] == t[..k - 1] + [t[k - 1]];
      }
    }
  }

  lemma TakenIsReady(g: Graph, order: seq<string>, i: nat)
    requires TopologicalPrefix(g, order) && i < |order|
    ensures order[i] in ReadyAfter(g, order[..i])
  {
  }

  /** For distinct ids the order does not depend on how the operations were listed. */
  lemma OrderIgnoresListing(ops: seq<Operation>, shuffled: seq<Operation>, order: seq<string>, other: seq<string>)
    requires DistinctIds(ops) && multiset(ops) == multiset(shuffled)
    requires IsExecutionOrder(ops, order) && IsExecutionOrder(shuffled, other)
    ensures order == other
  {
    SameMembers(ops, shuffled);
    PermutedDefinitions(ops, shuffled);
    ByKeyIsTotalOrder(ops);
    var le, le' := ByKey(ops), ByKey(shuffled);
    forall a, b ensures le(a, b) == le'(a, b) { }
    assert IsOrderOf(UnionGraph(ops), le, other);
    OrderIsUnique(UnionGraph(ops), le, order, other, |order|);
    OrderIsUnique(UnionGraph(ops), le, other, order, |other|);
    assert order == order[..|order|] && other == other[..|other|];
  }

  lemma PermutedDefinitions(ops: seq<Operation>, shuffled: seq<Operation>)
    requires DistinctIds(ops) && multiset(ops) == multiset(shuffled)
    ensures Ids(ops) == Ids(shuffled) && UnionGraph(ops) == UnionGraph(shuffled)
    ensures forall id :: SequenceIndex(ops, id) == SequenceIndex(shuffled, id)
  {
    SameMembers(ops, shuffled);
    PermutationKeepsDistinctIds(ops, shuffled);
    forall id ensures id in Ids(ops) <==> id in Ids(shuffled) {
      if i :| 0 <= i < |ops| && ops[i].id == id { assert ops[i] in shuffled; }
      if i :| 0 <= i < |shuffled| && shuffled[i].id == id { assert shuffled[i] in ops; }
    }
    forall id | id in Ids(ops)
      ensures LastDefinition(ops, id) == LastDefinition(shuffled, id)
      ensures AllDependencies(ops, id, Ids(ops)) == AllDependencies(shuffled, id, Ids(ops))
    {
      var op, op' := LastDefinition(ops, id), LastDefinition(shuffled, id);
      assert op' in ops;
      OnlyDefinition(ops, op, Ids(ops));
      OnlyDefinition(shuffled, op', Ids(ops));
    }
  }

  lemma PermutationKeepsDistinctIds(ops: seq<Operation>, shuffled: seq<Operation>)
    requires DistinctIds(ops) && multiset(ops) == multiset(shuffled)
    ensures DistinctIds(shuffled)
  {
    assert NoDuplicates(ops);
    PermutationKeepsDistinct(ops, shuffled);
    SameMembers(ops, shuffled);
    forall i, j | 0 <= i < j < |shuffled| ensures shuffled[i].id != shuffled[j].id {
      assert shuffled[i] in ops && shuffled[j] in ops && shuffled[i] != shuffled[j];
    }
  }

  lemma {:induction false} NoDefinition(ops: seq<Operation>, id: string, ids: set<string>)
    requires id !in Ids(ops)
    ensures AllDependencies(ops, id, ids) == []
  {
    if ops != [] {
      assert forall i :: 0 <= i < |ops| - 1 ==> ops[..|ops| - 1][i] == ops[i];
      NoDefinition(ops[..|ops| - 1], id, ids);
    }
  }

  lemma {:induction false} OnlyDefinition(ops: seq<Operation>, op: Operation, ids: set<string>)
    requires DistinctIds(ops) && op in ops
    ensures AllDependencies(ops, op.id, ids) == InSet(op.dependsOn, ids)
  {
    var init, last := ops[..|ops| - 1], ops[|ops| - 1];
    assert ops == init + [last];
    assert forall i :: 0 <= i < |init| ==> init[i] == ops[i];
    if last == op {
      NoDefinition(init, op.id, ids);
    } else {
      OnlyDefinition(init, op, ids);
    }
  }
}
