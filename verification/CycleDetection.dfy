/** Cycle detection by iterative depth-first search with an explicit (node, index) stack. */
module CycleDetection {
  import opened Ordering
  import opened DependencyGraph
  import opened Operations

  /** The stack frames below the top have been entered, and each frame was pushed from the one below. */
  ghost predicate StackIsPath(g: Graph, stack: seq<(string, nat)>) {
    && (forall i :: 0 <= i < |stack| ==> stack[i].0 in g && stack[i].1 <= |g[stack[i].0]|)
    && (forall i :: 0 <= i < |stack| - 1 ==> stack[i].1 > 0 && g[stack[i].0][stack[i].1 - 1] == stack[i + 1].0)
  }

  /** Every dependency a frame has passed is visited; the last one passed may still be on the stack. */
  ghost predicate PassedAreFinished(g: Graph, stack: seq<(string, nat)>, visited: set<string>)
    requires StackIsPath(g, stack)
  {
    forall i, k :: 0 <= i < |stack| && 0 <= k < stack[i].1 && (k < stack[i].1 - 1 || i == |stack| - 1)
                   ==> g[stack[i].0][k] in visited
  }

  ghost function FrameNodes(stack: seq<(string, nat)>): (nodes: seq<string>)
    ensures |nodes| == |stack|
  {
    seq(|stack|, i requires 0 <= i < |stack| => stack[i].0)
  }

  /** The frames already entered: all but a top frame that is still fresh. */
  ghost function Entered(stack: seq<(string, nat)>): (r: seq<string>) {
    if stack != [] && stack[|stack| - 1].1 == 0 then FrameNodes(stack)[..|stack| - 1] else FrameNodes(stack)
  }

  lemma StackRepeatIsCycle(g: Graph, stack: seq<(string, nat)>, i: nat, last: string)
    requires StackIsPath(g, stack) && i < |stack| && last in g && stack[i].0 == last
    requires last in g[stack[|stack| - 1].0]
    ensures Cyclic(g)
  {
    var p := FrameNodes(stack)[i..] + [last];
    forall k | 0 <= k < |p| - 1 ensures p[k + 1] in g[p[k]] {
      if k < |p| - 2 { assert p[k + 1] == stack[i + k + 1].0; }
    }
    assert IsCycle(g, p);
  }

  /** The adjacency that the search walks: sorted in-set dependencies of each last definition. */
  function Adjacency(ops: seq<Operation>): (r: Graph) {
    map id | id in Ids(ops) :: Sorted(InSet(LastDefinition(ops, id).dependsOn, Ids(ops)), StringLe)
  }

  function SearchStarts(ops: seq<Operation>): (r: seq<string>) {
    Sorted(KeyList(ops), StringLe)
  }

  /** True exactly when some operation depends on itself through the last definition of each id. */
  method DetectCycle(ops: seq<Operation>) returns (found: bool)
    ensures found <==> Cyclic(LastGraph(ops))
  {
    var graph := Adjacency(ops);
    var starts := SearchStarts(ops);
    SameEdges(ops);
    StartsCover(ops);
    found := SearchAll(graph, starts);
  }

  method SearchAll(graph: Graph, starts: seq<string>) returns (found: bool)
    requires Closed(graph) && Elems(starts) == graph.Keys
    ensures found <==> Cyclic(graph)
  {
    var visited: set<string> := {};
    ghost var finished: seq<string> := [];
    var s := 0;
    while s < |starts|
      invariant 0 <= s <= |starts|
      invariant TopologicalPrefix(graph, finished) && visited == Elems(finished)
      invariant Elems(starts[..s]) <= visited
    {
      var start := starts[s];
      assert start in Elems(starts);
      if start !in visited {
        found, visited, finished := SearchFrom(graph, start, visited, finished);
        if found { return; }
      }
      assert starts[..s + 1] == starts[..s] + [start];
      s := s + 1;
    }
    assert starts[..s] == starts;
    FinishedAllMeansAcyclic(graph, finished);
    found := false;
  }

  lemma FinishedAllMeansAcyclic(graph: Graph, finished: seq<string>)
    requires TopologicalPrefix(graph, finished) && graph.Keys <= Elems(finished)
    ensures !Cyclic(graph)
  {
    forall n | n in graph ensures !DependsOnCycle(graph, n) {
      assert n in Elems(finished);
      TopologicalPrefixAvoidsCycles(graph, finished, n);
    }
    CyclicMeansSomeNodeDependsOnCycle(graph);
  }

  lemma StartsCover(ops: seq<Operation>)
    ensures Elems(SearchStarts(ops)) == Adjacency(ops).Keys
  {
    KeyListMembers(ops);
    SortedPermutes(KeyList(ops), StringLe);
    SameMembers(SearchStarts(ops), KeyList(ops));
    assert Elems(SearchStarts(ops)) == Elems(KeyList(ops));
  }

  lemma SameEdges(ops: seq<Operation>)
    ensures Closed(Adjacency(ops)) && Cyclic(Adjacency(ops)) == Cyclic(LastGraph(ops))
  {
    var g, graph := LastGraph(ops), Adjacency(ops);
    forall n, d | n in g ensures d in graph[n] <==> d in g[n] {
      SortedPermutes(g[n], StringLe);
      SameMembers(g[n], graph[n]);
    }
    CyclicMonotone(graph, g);
    CyclicMonotone(g, graph);
    GraphsAreClosed(ops);
  }

  /** What every turn of the search keeps: the visited nodes are finished in a topological order, the
      stack is a path of unfinished nodes, and in_path is the set of its entered nodes, each once. */
  ghost predicate SearchState(g: Graph, stack: seq<(string, nat)>, inPath: set<string>, visited: set<string>,
                              finished: seq<string>)
  {
    && TopologicalPrefix(g, finished) && visited == Elems(finished)
    && StackIsPath(g, stack) && PassedAreFinished(g, stack, visited)
    && inPath == Elems(Entered(stack)) && NoDuplicates(Entered(stack))
    && (forall i :: 0 <= i < |stack| ==> stack[i].0 !in visited)
  }

  /** The same once the top frame has been entered too. */
  ghost predicate EnteredState(g: Graph, stack: seq<(string, nat)>, inPath: set<string>, visited: set<string>,
                               finished: seq<string>)
  {
    && TopologicalPrefix(g, finished) && visited == Elems(finished)
    && stack != [] && StackIsPath(g, stack) && PassedAreFinished(g, stack, visited)
    && inPath == Elems(FrameNodes(stack)) && NoDuplicates(FrameNodes(stack))
    && (forall i :: 0 <= i < |stack| ==> stack[i].0 !in visited)
  }

  /** One depth-first search: it reports a cycle, or finishes its start and all it reaches. */
  method SearchFrom(graph: Graph, start: string, visitedBefore: set<string>, ghost finishedBefore: seq<string>)
      returns (found: bool, visited: set<string>, ghost finished: seq<string>)
    requires Closed(graph) && start in graph && start !in visitedBefore
    requires TopologicalPrefix(graph, finishedBefore) && visitedBefore == Elems(finishedBefore)
    ensures found ==> Cyclic(graph)
    ensures !found ==> TopologicalPrefix(graph, finished) && visited == Elems(finished)
    ensures !found ==> start in visited && visitedBefore <= visited
  {
    found, visited, finished := false, visitedBefore, finishedBefore;
    var stack: seq<(string, nat)> := [(start, 0)];
    var inPath: set<string> := {};
    while stack != []
      invariant SearchState(graph, stack, inPath, visited, finished) && visitedBefore <= visited
      invariant if stack == [] then start in visited else stack[0].0 == start
      decreases graph.Keys - visited, |graph.Keys| + 1 - |stack|, Unpassed(graph, stack)
    {
      found, stack, inPath, visited, finished := Turn(graph, stack, inPath, visited, finished);
      if found { return; }
    }
  }

  /** The dependencies that the top frame has not passed yet. */
  ghost function Unpassed(g: Graph, stack: seq<(string, nat)>): (r: int)
    requires StackIsPath(g, stack)
  {
    if stack == [] then 0 else |g[stack[|stack| - 1].0]| - stack[|stack| - 1].1
  }

  /** One turn of the search at the top frame: enter it, then pass one dependency or finish the node. */
  method Turn(graph: Graph, stackBefore: seq<(string, nat)>, inPathBefore: set<string>, visitedBefore: set<string>,
              ghost finishedBefore: seq<string>)
      returns (found: bool, stack: seq<(string, nat)>, inPath: set<string>, visited: set<string>,
               ghost finished: seq<string>)
    requires Closed(graph) && stackBefore != []
    requires SearchState(graph, stackBefore, inPathBefore, visitedBefore, finishedBefore)
    ensures found ==> Cyclic(graph)
    ensures !found ==> SearchState(graph, stack, inPath, visited, finished) && visitedBefore <= visited
    ensures !found ==> if stack == [] then stackBefore[0].0 in visited else stack[0].0 == stackBefore[0].0
    ensures !found ==>
      || graph.Keys - visited < graph.Keys - visitedBefore
      || (visited == visitedBefore && |stackBefore| < |stack| <= |graph.Keys| + 1)
      || (visited == visitedBefore && |stack| == |stackBefore| <= |graph.Keys| &&
          0 <= Unpassed(graph, stack) < Unpassed(graph, stackBefore))
  {
    stack, inPath, visited, finished := stackBefore, inPathBefore, visitedBefore, finishedBefore;
    var top := |stack| - 1;
    var (node, idx) := stack[top];
    if idx == 0 {
      if node in inPath {
        FreshTopRepeats(graph, stack);
        found := true;
        return;
      }
      inPath := inPath + {node};
    }
    EnterTop(graph, stack, inPath, visited, finished);
    StackFits(graph, stack, inPath, visited, finished);
    var neighbors := graph[node];
    if idx < |neighbors| {
      var neighbor := neighbors[idx];
      assert neighbor in graph[node];
      if neighbor in inPath {
        EdgeIntoStack(graph, stack, neighbor);
        found := true;
        return;
      }
      if neighbor !in visited {
        PushKeeps(graph, stack, inPath, visited, finished);
        stack := stack[top := (node, idx + 1)] + [(neighbor, 0)];
      } else {
        AdvanceKeeps(graph, stack, inPath, visited, finished);
        stack := stack[top := (node, idx + 1)];
      }
    } else {
      PopKeeps(graph, stack, inPath, visited, finished);
      inPath := inPath - {node};
      visited := visited + {node};
      finished := finished + [node];
      stack := stack[..top];
    }
    found := false;
  }

  lemma FreshTopRepeats(g: Graph, stack: seq<(string, nat)>)
    requires StackIsPath(g, stack) && stack != [] && stack[|stack| - 1].1 == 0
    requires stack[|stack| - 1].0 in Entered(stack)
    ensures Cyclic(g)
  {
    var top := |stack| - 1;
    var nodes := FrameNodes(stack);
    var i :| 0 <= i < top && nodes[..top][i] == stack[top].0;
    assert stack[i].0 == stack[top].0;
    StackRepeatIsCycle(g, stack[..top], i, g[stack[top - 1].0][stack[top - 1].1 - 1]);
  }

  lemma EdgeIntoStack(g: Graph, stack: seq<(string, nat)>, neighbor: string)
    requires StackIsPath(g, stack) && stack != [] && neighbor in FrameNodes(stack)
    requires neighbor in g && neighbor in g[stack[|stack| - 1].0]
    ensures Cyclic(g)
  {
    var i :| 0 <= i < |stack| && FrameNodes(stack)[i] == neighbor;
    StackRepeatIsCycle(g, stack, i, neighbor);
  }

  lemma EnterTop(g: Graph, stack: seq<(string, nat)>, inPath: set<string>, visited: set<string>, finished: seq<string>)
    requires stack != [] && SearchState(g, stack, Elems(Entered(stack)), visited, finished)
    requires if stack[|stack| - 1].1 == 0
      then stack[|stack| - 1].0 !in Entered(stack) && inPath == Elems(Entered(stack)) + {stack[|stack| - 1].0}
      else inPath == Elems(Entered(stack))
    ensures EnteredState(g, stack, inPath, visited, finished)
  {
    var top := |stack| - 1;
    assert FrameNodes(stack) == FrameNodes(stack)[..top] + [stack[top].0];
  }

  lemma StackFits(g: Graph, stack: seq<(string, nat)>, inPath: set<string>, visited: set<string>, finished: seq<string>)
    requires EnteredState(g, stack, inPath, visited, finished)
    ensures |stack| <= |g.Keys|
  {
    if |stack| > |g.Keys| { Pigeonhole(FrameNodes(stack), g.Keys); }
  }

  lemma AdvanceKeeps(g: Graph, stack: seq<(string, nat)>, inPath: set<string>, visited: set<string>, finished: seq<string>)
    requires EnteredState(g, stack, inPath, visited, finished)
    requires var (node, idx) := stack[|stack| - 1]; idx < |g[node]| && g[node][idx] in visited
    ensures var (node, idx) := stack[|stack| - 1];
      SearchState(g, stack[|stack| - 1 := (node, idx + 1)], inPath, visited, finished)
  {
    var (node, idx) := stack[|stack| - 1];
    assert FrameNodes(stack[|stack| - 1 := (node, idx + 1)]) == FrameNodes(stack);
  }

  lemma PushKeeps(g: Graph, stack: seq<(string, nat)>, inPath: set<string>, visited: set<string>, finished: seq<string>)
    requires EnteredState(g, stack, inPath, visited, finished) && Closed(g)
    requires var (node, idx) := stack[|stack| - 1]; idx < |g[node]| && g[node][idx] !in visited
    ensures var (node, idx) := stack[|stack| - 1];
      SearchState(g, stack[|stack| - 1 := (node, idx + 1)] + [(g[node][idx], 0)], inPath, visited, finished)
  {
    var (node, idx) := stack[|stack| - 1];
    var pushed := stack[|stack| - 1 := (node, idx + 1)] + [(g[node][idx], 0)];
    assert g[node][idx] in g[node];
    assert Entered(pushed) == FrameNodes(stack);
  }

  lemma FinishKeepsTopological(g: Graph, finished: seq<string>, node: string)
    requires TopologicalPrefix(g, finished) && node in g && node !in finished
    requires forall d :: d in g[node] ==> d in finished
    ensures TopologicalPrefix(g, finished + [node])
  {
    var longer := finished + [node];
    assert forall i :: 0 <= i < |finished| ==> longer[..i] == finished[..i];
    assert longer[..|finished|] == finished;
  }

  lemma PopLeavesOthers(stack: seq<(string, nat)>)
    requires stack != [] && NoDuplicates(FrameNodes(stack))
    requires forall i :: 0 <= i < |stack| - 1 ==> stack[i].1 > 0
    ensures var below := stack[..|stack| - 1];
      && Entered(below) == FrameNodes(below) && NoDuplicates(FrameNodes(below))
      && Elems(FrameNodes(below)) == Elems(FrameNodes(stack)) - {stack[|stack| - 1].0}
      && (forall i :: 0 <= i < |below| ==> below[i].0 != stack[|stack| - 1].0)
  {
    var top := |stack| - 1;
    var nodes, below := FrameNodes(stack), FrameNodes(stack[..top]);
    assert nodes == below + [stack[top].0];
    NoDuplicatesSnoc(below, stack[top].0);
    assert forall i :: 0 <= i < top ==> below[i] == stack[i].0;
  }

  /** A node whose dependencies have all been passed finishes; the frame that pushed it is the new top. */
  lemma PopKeeps(g: Graph, stack: seq<(string, nat)>, inPath: set<string>, visited: set<string>, finished: seq<string>)
    requires EnteredState(g, stack, inPath, visited, finished)
    requires stack[|stack| - 1].1 == |g[stack[|stack| - 1].0]|
    ensures var top := |stack| - 1; var node := stack[top].0;
      SearchState(g, stack[..top], inPath - {node}, visited + {node}, finished + [node])
  {
    var top := |stack| - 1;
    var node := stack[top].0;
    forall d | d in g[node] ensures d in finished {
      var k :| 0 <= k < |g[node]| && g[node][k] == d;
      assert g[stack[top].0][k] in visited;
    }
    FinishKeepsTopological(g, finished, node);
    PopLeavesOthers(stack);
    assert Elems(finished + [node]) == visited + {node};
  }
}
