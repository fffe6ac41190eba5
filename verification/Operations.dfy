/** Operations as the engine plans them, and the dependency graphs that a list of them defines. */
module Operations {
  import opened Ordering
  import opened DependencyGraph
  import opened Text

  datatype ExecutionReference = ExecutionReference(adapterId: string, actionId: string)

  datatype Operation = Operation(
    id: string,
    jobId: string,
    goal: string,
    sequenceIndex: int,
    dependsOn: seq<string>,
    executionRef: Option<ExecutionReference>)

  /** Dependencies are kept in id order, whatever order the caller gave. */
  function BuildOperation(id: string, jobId: string, goal: string, sequenceIndex: int, dependsOn: seq<string>,
                          executionRef: Option<ExecutionReference>): (op: Operation) {
    Operation(id, jobId, goal, sequenceIndex, Sorted(dependsOn, StringLe), executionRef)
  }

  ghost predicate DistinctIds(ops: seq<Operation>) {
    forall i, j :: 0 <= i < j < |ops| ==> ops[i].id != ops[j].id
  }

  function Ids(ops: seq<Operation>): (r: set<string>) {
    set i | 0 <= i < |ops| :: ops[i].id
  }

  /** The ids in order of first occurrence, as the keys of a dictionary built from the list. */
  function KeyList(ops: seq<Operation>): (r: seq<string>) {
    if ops == [] then []
    else
      var init := KeyList(ops[..|ops| - 1]);
      var id := ops[|ops| - 1].id;
      if id in init then init else init + [id]
  }

  /** The dependencies that lie in the set; the others are ignored. */
  function InSet(deps: seq<string>, ids: set<string>): (r: seq<string>) {
    if deps == [] then []
    else
      var init := InSet(deps[..|deps| - 1], ids);
      var d := deps[|deps| - 1];
      if d in ids then init + [d] else init
  }

  /** The last definition of an id, which is the one a dictionary built from the list keeps. */
  function LastDefinition(ops: seq<Operation>, id: string): (op: Operation)
    requires id in Ids(ops)
    ensures op.id == id && op in ops
  {
    if ops[|ops| - 1].id == id then ops[|ops| - 1]
    else
      assert forall i :: 0 <= i < |ops| - 1 ==> ops[..|ops| - 1][i] == ops[i];
      assert id in Ids(ops[..|ops| - 1]);
      LastDefinition(ops[..|ops| - 1], id)
  }

  /** All in-set dependencies of an id, over every definition of it in the list. */
  function AllDependencies(ops: seq<Operation>, id: string, ids: set<string>): (r: seq<string>) {
    if ops == [] then []
    else
      var op := ops[|ops| - 1];
      AllDependencies(ops[..|ops| - 1], id, ids) + (if op.id == id then InSet(op.dependsOn, ids) else [])
  }

  /** The graph that cycle detection walks: one definition an id, the last. */
  function LastGraph(ops: seq<Operation>): (r: Graph) {
    map id | id in Ids(ops) :: InSet(LastDefinition(ops, id).dependsOn, Ids(ops))
  }

  /** The graph whose edges the ordering counts: every definition contributes. */
  function UnionGraph(ops: seq<Operation>): (r: Graph) {
    map id | id in Ids(ops) :: AllDependencies(ops, id, Ids(ops))
  }

  lemma {:induction false} InSetMembers(deps: seq<string>, ids: set<string>)
    ensures forall d :: d in InSet(deps, ids) <==> d in deps && d in ids
  {
    if deps != [] {
      InSetMembers(deps[..|deps| - 1], ids);
      assert deps == deps[..|deps| - 1] + [deps[|deps| - 1]];
    }
  }

  lemma {:induction false} AllDependenciesMembers(ops: seq<Operation>, id: string, ids: set<string>)
    ensures forall d :: d in AllDependencies(ops, id, ids) <==>
      exists i :: 0 <= i < |ops| && ops[i].id == id && d in InSet(ops[i].dependsOn, ids)
  {
    if ops != [] {
      var init := ops[..|ops| - 1];
      AllDependenciesMembers(init, id, ids);
      assert ops == init + [ops[|ops| - 1]];
      forall d ensures d in AllDependencies(ops, id, ids) <==>
        exists i :: 0 <= i < |ops| && ops[i].id == id && d in InSet(ops[i].dependsOn, ids)
      {
        if d in AllDependencies(init, id, ids) {
          var i :| 0 <= i < |init| && init[i].id == id && d in InSet(init[i].dependsOn, ids);
          assert ops[i] == init[i];
        }
        if i :| 0 <= i < |ops| && ops[i].id == id && d in InSet(ops[i].dependsOn, ids) {
          if i < |init| { assert init[i] == ops[i]; }
        }
      }
    }
  }

  lemma GraphsAreClosed(ops: seq<Operation>)
    ensures Closed(LastGraph(ops)) && Closed(UnionGraph(ops))
  {
    forall id, d | id in LastGraph(ops) && d in LastGraph(ops)[id] ensures d in LastGraph(ops) {
      InSetMembers(LastDefinition(ops, id).dependsOn, Ids(ops));
    }
    forall id, d | id in UnionGraph(ops) && d in UnionGraph(ops)[id] ensures d in UnionGraph(ops) {
      AllDependenciesMembers(ops, id, Ids(ops));
      var i :| 0 <= i < |ops| && ops[i].id == id && d in InSet(ops[i].dependsOn, Ids(ops));
      InSetMembers(ops[i].dependsOn, Ids(ops));
    }
  }

  lemma LastGraphWithinUnionGraph(ops: seq<Operation>)
    ensures forall n, d :: n in LastGraph(ops) && d in LastGraph(ops)[n] ==> d in UnionGraph(ops)[n]
  {
    forall n, d | n in LastGraph(ops) && d in LastGraph(ops)[n] ensures d in UnionGraph(ops)[n] {
      AllDependenciesMembers(ops, n, Ids(ops));
      var op := LastDefinition(ops, n);
      var i :| 0 <= i < |ops| && ops[i] == op;
    }
  }

  lemma {:induction false} KeyListMembers(ops: seq<Operation>)
    ensures NoDuplicates(KeyList(ops)) && Elems(KeyList(ops)) == Ids(ops)
  {
    if ops != [] {
      var init := ops[..|ops| - 1];
      KeyListMembers(init);
      var id := ops[|ops| - 1].id;
      assert ops == init + [ops[|ops| - 1]];
      assert Ids(ops) == Ids(init) + {id} by {
        forall x ensures x in Ids(ops) <==> x in Ids(init) + {id} {
          if x in Ids(ops) {
            var i :| 0 <= i < |ops| && ops[i].id == x;
            if i < |init| { assert init[i] == ops[i]; }
          }
          if x in Ids(init) {
            var i :| 0 <= i < |init| && init[i].id == x;
            assert ops[i] == init[i];
          }
        }
      }
      assert id in KeyList(init) <==> id in Elems(KeyList(init));
    }
  }

  lemma OnlyLastDefinition(ops: seq<Operation>, op: Operation)
    requires DistinctIds(ops) && op in ops
    ensures op.id in Ids(ops) && LastDefinition(ops, op.id) == op
  {
    var last := LastDefinition(ops, op.id);
    var i :| 0 <= i < |ops| && ops[i] == op;
    var j :| 0 <= j < |ops| && ops[j] == last;
    assert i == j;
  }
}
