/** Structural validation, blocking state, and batch planning of a job's operations. */
module OperationPlanning {
  import opened Ordering
  import opened DependencyGraph
  import opened Text
  import opened Operations
  import opened ExecutionOrder

  datatype ValidationError =
    | EmptyId | EmptyJobId | EmptyGoal | NegativeSequenceIndex
    | EmptyDependency | SelfDependency | DuplicateDependency(id: string)
    | EmptyAdapterId | EmptyActionId

  datatype Status = Ready | Blocked | Failed

  datatype PlanResult = PlanResult(
    operationId: string,
    status: Status,
    blocking: seq<string>,
    cycleDetected: bool,
    errors: seq<ValidationError>)

  // ---------------------------------------------------------------- validation

  /** What a well-formed operation is. */
  ghost predicate StructurallyValid(op: Operation) {
    && !IsBlank(op.id) && !IsBlank(op.jobId) && !IsBlank(op.goal)
    && op.sequenceIndex >= 0
    && (forall d :: d in op.dependsOn ==> !IsBlank(d) && d != op.id)
    && NoDuplicates(op.dependsOn)
    && (op.executionRef.Some? ==> !IsBlank(op.executionRef.value.adapterId) && !IsBlank(op.executionRef.value.actionId))
  }

  /** What each finding says of the operation. */
  ghost predicate IsWrong(op: Operation, e: ValidationError) {
    match e
    case EmptyId => IsBlank(op.id)
    case EmptyJobId => IsBlank(op.jobId)
    case EmptyGoal => IsBlank(op.goal)
    case NegativeSequenceIndex => op.sequenceIndex < 0
    case EmptyAdapterId => op.executionRef.Some? && IsBlank(op.executionRef.value.adapterId)
    case EmptyActionId => op.executionRef.Some? && IsBlank(op.executionRef.value.actionId)
    case _ => IsWrongDependency(op.id, op.dependsOn, e)
  }

  /** What each finding about the dependencies says of them. */
  ghost predicate IsWrongDependency(id: string, deps: seq<string>, e: ValidationError) {
    match e
    case EmptyDependency => exists i :: 0 <= i < |deps| && IsBlank(deps[i])
    case SelfDependency => !IsBlank(id) && id in deps
    case DuplicateDependency(d) => !IsBlank(d) && d != id && exists i, j :: 0 <= i < j < |deps| && deps[i] == deps[j] == d
    case _ => false
  }

  /** The findings of validation: each that is right, and no other; there are none exactly for a well-formed
      operation. */
  method Validate(op: Operation) returns (errors: seq<ValidationError>)
    ensures forall e :: e in errors <==> IsWrong(op, e)
    ensures errors == [] <==> StructurallyValid(op)
  {
    errors := [];
    if IsBlank(op.id) { errors := errors + [EmptyId]; }
    if IsBlank(op.jobId) { errors := errors + [EmptyJobId]; }
    if IsBlank(op.goal) { errors := errors + [EmptyGoal]; }
    if op.sequenceIndex < 0 { errors := errors + [NegativeSequenceIndex]; }
    var dependencyErrors := ValidateDependencies(op);
    errors := errors + dependencyErrors;
    if op.executionRef.Some? {
      if IsBlank(op.executionRef.value.adapterId) { errors := errors + [EmptyAdapterId]; }
      if IsBlank(op.executionRef.value.actionId) { errors := errors + [EmptyActionId]; }
    }
  }

  method ValidateDependencies(op: Operation) returns (errors: seq<ValidationError>)
    ensures forall e :: e in errors <==> IsWrongDependency(op.id, op.dependsOn, e)
    ensures errors == [] <==>
      NoDuplicates(op.dependsOn) && forall d :: d in op.dependsOn ==> !IsBlank(d) && d != op.id
  {
    errors := [];
    var seen: set<string> := {};
    for i := 0 to |op.dependsOn|
      invariant forall e :: e in errors <==> IsWrongDependency(op.id, op.dependsOn[..i], e)
      invariant forall d :: d in seen <==> d in op.dependsOn[..i] && !IsBlank(d) && d != op.id
      invariant seen <= Elems(op.dependsOn[..i])
      invariant errors == [] ==> seen == Elems(op.dependsOn[..i])
      invariant errors == [] <==>
        NoDuplicates(op.dependsOn[..i]) && forall d :: d in op.dependsOn[..i] ==> !IsBlank(d) && d != op.id
    {
      var d := op.dependsOn[i];
      assert op.dependsOn[..i + 1] == op.dependsOn[..i] + [d];
      NoDuplicatesSnoc(op.dependsOn[..i], d);
      forall e ensures IsWrongDependency(op.id, op.dependsOn[..i + 1], e)
        <==> IsWrongDependency(op.id, op.dependsOn[..i], e) || IsFinding(op.id, op.dependsOn[..i], d, e)
      {
        OneMoreDependency(op.id, op.dependsOn[..i], d, e);
      }
      assert d in op.dependsOn[..i + 1] && forall e :: e in op.dependsOn[..i] ==> e in op.dependsOn[..i + 1];
      if IsBlank(d) {
        errors := errors + [EmptyDependency];
      } else if d == op.id {
        errors := errors + [SelfDependency];
      } else if d in seen {
        errors := errors + [DuplicateDependency(d)];
      } else {
        seen := seen + {d};
      }
    }
    assert op.dependsOn[..|op.dependsOn|] == op.dependsOn;
  }

  /** What one more dependency adds to the findings. */
  predicate IsFinding(id: string, deps: seq<string>, d: string, e: ValidationError) {
    if IsBlank(d) then e == EmptyDependency
    else if d == id then e == SelfDependency
    else d in deps && e == DuplicateDependency(d)
  }

  lemma OneMoreDependency(id: string, deps: seq<string>, d: string, e: ValidationError)
    ensures IsWrongDependency(id, deps + [d], e) <==> IsWrongDependency(id, deps, e) || IsFinding(id, deps, d, e)
  {
    var all := deps + [d];
    assert all[|deps|] == d && forall i :: 0 <= i < |deps| ==> all[i] == deps[i];
    if e.DuplicateDependency? && d == e.id && d in deps {
      var i :| 0 <= i < |deps| && deps[i] == d;
      assert all[i] == all[|deps|] == d;
    }
  }

  // ---------------------------------------------------------------- blocking state and planning

  predicate IsBlocked(op: Operation, completed: set<string>) {
    exists i :: 0 <= i < |op.dependsOn| && op.dependsOn[i] !in completed
  }

  /** The dependencies still missing, in id order. */
  method MissingDependencies(op: Operation, completed: set<string>) returns (missing: seq<string>)
    ensures SortedBy(missing, StringLe)
    ensures forall d :: d in missing <==> d in op.dependsOn && d !in completed
    ensures missing == [] <==> !IsBlocked(op, completed)
  {
    var unsorted: seq<string> := [];
    for i := 0 to |op.dependsOn|
      invariant forall d :: d in unsorted <==> d in op.dependsOn[..i] && d !in completed
    {
      assert op.dependsOn[..i + 1] == op.dependsOn[..i] + [op.dependsOn[i]];
      if op.dependsOn[i] !in completed { unsorted := unsorted + [op.dependsOn[i]]; }
    }
    assert op.dependsOn[..|op.dependsOn|] == op.dependsOn;
    missing := Sorted(unsorted, StringLe);
    StringLeIsTotalOrder();
    SortedIsSorted(unsorted, StringLe);
    SortedPermutes(unsorted, StringLe);
    SameMembers(unsorted, missing);
    if IsBlocked(op, completed) {
      ghost var i :| 0 <= i < |op.dependsOn| && op.dependsOn[i] !in completed;
      assert op.dependsOn[i] in missing;
    }
    if missing != [] { assert missing[0] in missing; }
  }

  /** What one result of a plan says about its operation. */
  ghost predicate ResultIsRight(op: Operation, cyclic: bool, completed: set<string>, r: PlanResult) {
    && r.operationId == op.id
    && (r.errors == [] <==> StructurallyValid(op)) && (forall e :: e in r.errors <==> IsWrong(op, e))
    && (r.status == Failed <==> !StructurallyValid(op) || cyclic)
    && (r.status == Ready <==> StructurallyValid(op) && !cyclic && !IsBlocked(op, completed))
    && (r.status == Blocked <==> StructurallyValid(op) && !cyclic && IsBlocked(op, completed))
    && SortedBy(r.blocking, StringLe)
    && (forall d :: d in r.blocking <==> r.status == Blocked && d in op.dependsOn && d !in completed)
  }

  /** Planning of one operation: the cycle flag is only raised for a well-formed one. */
  method Plan(op: Operation, all: seq<Operation>, completed: set<string>) returns (r: PlanResult)
    ensures ResultIsRight(op, Cyclic(LastGraph(all)), completed, r)
    ensures r.cycleDetected <==> StructurallyValid(op) && Cyclic(LastGraph(all))
  {
    var errors := Validate(op);
    if errors != [] {
      return PlanResult(op.id, Failed, [], false, errors);
    }
    var cycle := CycleDetection.DetectCycle(all);
    if cycle {
      return PlanResult(op.id, Failed, [], true, errors);
    }
    var blocking := MissingDependencies(op, completed);
    r := PlanResult(op.id, if blocking != [] then Blocked else Ready, blocking, false, errors);
  }

  /** Batch planning: one cycle search for the whole set, whose answer every result carries. */
  method PlanAll(ops: seq<Operation>, completed: set<string>) returns (results: seq<PlanResult>)
    ensures |results| == |ops|
    ensures forall i :: 0 <= i < |ops| ==> ResultIsRight(ops[i], Cyclic(LastGraph(ops)), completed, results[i])
    ensures forall i :: 0 <= i < |ops| ==> (results[i].cycleDetected <==> Cyclic(LastGraph(ops)))
  {
    var cycle := CycleDetection.DetectCycle(ops);
    results := [];
    for k := 0 to |ops|
      invariant |results| == k
      invariant forall i :: 0 <= i < k ==> ResultIsRight(ops[i], Cyclic(LastGraph(ops)), completed, results[i])
      invariant forall i :: 0 <= i < k ==> (results[i].cycleDetected <==> Cyclic(LastGraph(ops)))
    {
      var op := ops[k];
      var errors := Validate(op);
      var r;
      if errors != [] {
        r := PlanResult(op.id, Failed, [], cycle, errors);
      } else if cycle {
        r := PlanResult(op.id, Failed, [], true, errors);
      } else {
        var blocking := MissingDependencies(op, completed);
        r := PlanResult(op.id, if blocking != [] then Blocked else Ready, blocking, false, errors);
      }
      results := results + [r];
    }
  }

  // ---------------------------------------------------------------- executing in order

  /** Sound input: distinct ids, every operation well formed, every dependency in the set. */
  ghost predicate SoundSet(ops: seq<Operation>) {
    && DistinctIds(ops)
    && (forall op :: op in ops ==> StructurallyValid(op))
    && (forall op, d :: op in ops && d in op.dependsOn ==> d in Ids(ops))
  }

  lemma ReadyMeansUnblocked(ops: seq<Operation>, done: seq<string>, op: Operation)
    requires SoundSet(ops) && op in ops && op.id !in done
    ensures op.id in ReadyAfter(UnionGraph(ops), done) <==> !IsBlocked(op, Elems(done))
  {
    var deps := UnionGraph(ops)[op.id];
    OnlyDefinition(ops, op, Ids(ops));
    InSetMembers(op.dependsOn, Ids(ops));
    assert forall d :: d in deps <==> d in op.dependsOn;
    if op.id in ReadyAfter(UnionGraph(ops), done) {
      assert forall i :: 0 <= i < |op.dependsOn| ==> op.dependsOn[i] in deps;
    } else {
      var d :| d in op.dependsOn && d !in done;
      var i :| 0 <= i < |op.dependsOn| && op.dependsOn[i] == d;
    }
  }

  /** At its turn the operation is unblocked, batch planning on the completed prefix reports it ready,
      and of all operations reported ready and not yet done it is the earliest. */
  lemma TurnIsReady(ops: seq<Operation>, order: seq<string>, i: nat, results: seq<PlanResult>, k: nat)
    requires SoundSet(ops) && IsExecutionOrder(ops, order) && !Cyclic(LastGraph(ops)) && i < |order|
    requires |results| == |ops| && k < |ops|
    requires ResultIsRight(ops[k], Cyclic(LastGraph(ops)), Elems(order[..i]), results[k])
    ensures order[i] in Ids(ops) && !IsBlocked(LastDefinition(ops, order[i]), Elems(order[..i]))
    ensures ops[k].id == order[i] ==> results[k].status == Ready
    ensures results[k].status == Ready && ops[k].id !in order[..i] ==>
      forall m :: 0 <= m < |ops| && ops[m].id == order[i] ==> Precedes(ops[m], ops[k])
  {
    var done := order[..i];
    var op := LastDefinition(ops, order[i]);
    TakenIsReady(UnionGraph(ops), order, i);
    ReadyMeansUnblocked(ops, done, op);
    if ops[k].id == order[i] {
      assert ops[k] == op;
    }
    if results[k].status == Ready && ops[k].id !in done {
      ReadyMeansUnblocked(ops, done, ops[k]);
      forall m | 0 <= m < |ops| && ops[m].id == order[i] ensures Precedes(ops[m], ops[k]) { PrecedesIs(ops, m, k); }
    }
  }

  /** The whole order can be executed: nothing is left, and the last prefix is every operation. */
  lemma OrderCompletesTheSet(ops: seq<Operation>, order: seq<string>)
    requires SoundSet(ops) && IsExecutionOrder(ops, order) && !Cyclic(LastGraph(ops))
    ensures |order| == |ops| && Elems(order) == Ids(ops)
  {
    AgreementForDistinctIds(ops, order);
  }

  // ---------------------------------------------------------------- chains

  /** Each operation depends on the one before it and on nothing else. */
  ghost predicate IsChain(ops: seq<Operation>) {
    && DistinctIds(ops)
    && (forall i :: 0 <= i < |ops| ==> ops[i].dependsOn == if i == 0 then [] else [ops[i - 1].id])
  }

  lemma ChainEdges(ops: seq<Operation>)
    requires IsChain(ops)
    ensures forall i :: 0 <= i < |ops| ==> ops[i].id in Ids(ops) && UnionGraph(ops)[ops[i].id] == ops[i].dependsOn
  {
    forall i | 0 <= i < |ops| ensures UnionGraph(ops)[ops[i].id] == ops[i].dependsOn {
      OnlyDefinition(ops, ops[i], Ids(ops));
      if i == 0 {
        assert ops[i].dependsOn == [];
      } else {
        assert ops[i].dependsOn == [ops[i - 1].id] && ops[i - 1].id in Ids(ops);
      }
      AllInSet(ops[i].dependsOn, Ids(ops));
    }
  }

  lemma ChainReady(ops: seq<Operation>, done: seq<string>, k: nat)
    requires IsChain(ops) && k < |ops|
    requires |done| == k && forall i :: 0 <= i < k ==> done[i] == ops[i].id
    ensures ReadyAfter(UnionGraph(ops), done) == {ops[k].id}
  {
    ChainEdges(ops);
    var ids := Ids(ops);
    OnlyNextIsReady(ops, UnionGraph(ops), done, k);
    assert forall n :: n in ids ==> exists i :: 0 <= i < |ops| && ops[i].id == n;
  }

  lemma OnlyNextIsReady(ops: seq<Operation>, g: Graph, done: seq<string>, k: nat)
    requires IsChain(ops) && k < |ops|
    requires forall i :: 0 <= i < |ops| ==> ops[i].id in g && g[ops[i].id] == ops[i].dependsOn
    requires |done| == k && forall i :: 0 <= i < k ==> done[i] == ops[i].id
    ensures forall i :: 0 <= i < |ops| ==> (ops[i].id in ReadyAfter(g, done) <==> i == k)
  {
    forall i | 0 <= i < |ops| ensures ops[i].id in ReadyAfter(g, done) <==> i == k {
      if i < k { assert done[i] == ops[i].id; }
      if i > k { assert ops[i - 1].id in g[ops[i].id] && ops[i - 1].id !in done; }
      if i == k && k > 0 { assert done[k - 1] == ops[k - 1].id; }
    }
  }

  lemma {:induction false} AllInSet(deps: seq<string>, ids: set<string>)
    requires forall d :: d in deps ==> d in ids
    ensures InSet(deps, ids) == deps
  {
    if deps != [] { AllInSet(deps[..|deps| - 1], ids); }
  }

  /** A chain is ordered in chain order, whatever the sequence indices say. */
  lemma ChainOrder(ops: seq<Operation>, order: seq<string>)
    requires IsChain(ops) && IsExecutionOrder(ops, order)
    ensures |order| == |ops| && forall i :: 0 <= i < |ops| ==> order[i] == ops[i].id
  {
    ChainPrefix(ops, UnionGraph(ops), ByKey(ops), order, |ops|);
    DistinctIdCount(ops);
    DistinctCount(order);
    SubsetCount(Elems(order), Ids(ops));
  }

  lemma {:induction false} ChainPrefix(ops: seq<Operation>, g: Graph, le: (string, string) -> bool, order: seq<string>,
                                       k: nat)
    requires IsChain(ops) && g == UnionGraph(ops) && IsOrderOf(g, le, order) && k <= |ops|
    ensures k <= |order| && forall i :: 0 <= i < k ==> order[i] == ops[i].id
  {
    if k > 0 {
      ChainPrefix(ops, g, le, order, k - 1);
      ChainReady(ops, order[..k - 1], k - 1);
      assert order[..|order|] == order;
      if |order| >= k { TakenIsReady(g, order, k - 1); }
    }
  }
}
