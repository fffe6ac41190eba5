/** The planner's last steps: checking the proposed operations one by one, and the cycle gate. */
module EngineeringPlanner {
  import opened Ordering
  import opened DependencyGraph
  import opened Text
  import opened Operations
  import opened ExecutionOrder

  /** One entry of the proposed list; an absent field is None, a dependency list that is not a list too. */
  datatype Proposal =
    | NotAnObject
    | Proposal(operationId: Option<string>, target: Option<string>, intent: Option<string>, goal: Option<string>,
               dependsOn: Option<seq<string>>)

  datatype Intent = Create | Modify

  datatype PlannedOperation = PlannedOperation(
    operationId: string, target: string, intent: Intent, goal: string, dependsOn: seq<string>)

  datatype Fault = NotObject | MissingId | MissingTarget | BadIntent | MissingGoal

  datatype Outcome =
    | InvalidOperation(index: nat, fault: Fault)
    | PlanCycle
    | Planned(operations: seq<PlannedOperation>)

  predicate Missing(field: Option<string>) {
    field.None? || IsBlank(field.value)
  }

  /** The first thing wrong with a proposal. */
  function FaultOf(p: Proposal): (r: Option<Fault>) {
    if p.NotAnObject? then Some(NotObject)
    else if Missing(p.operationId) then Some(MissingId)
    else if Missing(p.target) then Some(MissingTarget)
    else if p.intent != Some("create") && p.intent != Some("modify") then Some(BadIntent)
    else if Missing(p.goal) then Some(MissingGoal)
    else None
  }

  /** The non-empty dependency names, in the order given. */
  function Named(deps: seq<string>): (r: seq<string>) {
    if deps == [] then []
    else
      var before, last := Named(deps[..|deps| - 1]), deps[|deps| - 1];
      if last != "" then before + [last] else before
  }

  function Accept(p: Proposal): (r: PlannedOperation)
    requires FaultOf(p).None?
  {
    PlannedOperation(p.operationId.value, p.target.value, if p.intent == Some("create") then Create else Modify,
                     p.goal.value, if p.dependsOn.Some? then Named(p.dependsOn.value) else [])
  }

  // ---------------------------------------------------------------- the same, on the proposal's fields

  predicate IsGiven(field: Option<string>) {
    field.Some? && !IsBlank(field.value)
  }

  predicate IsIntent(p: Proposal) {
    p.Proposal? && (p.intent == Some("create") || p.intent == Some("modify"))
  }

  /** When each fault is reported: in this order, and the first only. */
  predicate IsFault(p: Proposal, fault: Fault) {
    match fault
    case NotObject => p.NotAnObject?
    case MissingId => p.Proposal? && !IsGiven(p.operationId)
    case MissingTarget => p.Proposal? && IsGiven(p.operationId) && !IsGiven(p.target)
    case BadIntent => p.Proposal? && IsGiven(p.operationId) && IsGiven(p.target) && !IsIntent(p)
    case MissingGoal => p.Proposal? && IsGiven(p.operationId) && IsGiven(p.target) && IsIntent(p) && !IsGiven(p.goal)
  }

  predicate IsFaultless(p: Proposal) {
    p.Proposal? && IsGiven(p.operationId) && IsGiven(p.target) && IsIntent(p) && IsGiven(p.goal)
  }

  ghost function NamedAt(deps: seq<string>): (p: nat -> bool) {
    (i: nat) => i < |deps| && deps[i] != ""
  }

  /** What a proposal becomes: its fields as they are, and of its dependencies those that are not empty, in order. */
  ghost predicate IsPlanned(p: Proposal, o: PlannedOperation) {
    && IsFaultless(p) && p.operationId == Some(o.operationId) && p.target == Some(o.target) && p.goal == Some(o.goal)
    && (o.intent == Create <==> p.intent == Some("create"))
    && (p.dependsOn.None? ==> o.dependsOn == [])
    && (p.dependsOn.Some? ==> AreNamed(p.dependsOn.value, o.dependsOn))
  }

  ghost predicate AreNamed(deps: seq<string>, named: seq<string>) {
    exists places :: ArePlaces(places, |deps|, NamedAt(deps)) && named == At(deps, places)
  }

  lemma FaultIs(p: Proposal, fault: Fault)
    ensures FaultOf(p) == Some(fault) <==> IsFault(p, fault)
    ensures FaultOf(p).None? <==> IsFaultless(p)
  {
  }

  lemma {:induction false} NamedInOrder(deps: seq<string>, n: nat)
    requires n <= |deps|
    ensures Named(deps[..n]) == At(deps, Places(n, NamedAt(deps)))
  {
    if n > 0 {
      NamedInOrder(deps, n - 1);
      assert deps[..n][..n - 1] == deps[..n - 1];
    }
  }

  lemma AcceptIs(p: Proposal)
    requires FaultOf(p).None?
    ensures IsPlanned(p, Accept(p))
  {
    if p.dependsOn.Some? {
      var deps := p.dependsOn.value;
      NamedInOrder(deps, |deps|);
      PlacesAre(|deps|, NamedAt(deps));
      assert deps[..|deps|] == deps;
    }
  }

  /** The operations as the operation engine sees them: numbered in list order, dependencies sorted. */
  function Definitions(planned: seq<PlannedOperation>): (ops: seq<Operation>)
    ensures |ops| == |planned|
    ensures forall i :: 0 <= i < |planned| ==> ops[i].id == planned[i].operationId && ops[i].sequenceIndex == i
  {
    seq(|planned|, i requires 0 <= i < |planned| =>
      BuildOperation(planned[i].operationId, "plan", planned[i].goal, i, planned[i].dependsOn, None))
  }

  /** The first k proposals have no fault, and are planned. */
  ghost predicate AreAccepted(proposals: seq<Proposal>, k: nat, planned: seq<PlannedOperation>)
    requires k <= |proposals|
  {
    |planned| == k && forall i :: 0 <= i < k ==> FaultOf(proposals[i]).None? && planned[i] == Accept(proposals[i])
  }

  ghost predicate ArePlanned(proposals: seq<Proposal>, planned: seq<PlannedOperation>) {
    |planned| == |proposals| && forall i :: 0 <= i < |proposals| ==> IsPlanned(proposals[i], planned[i])
  }

  lemma AcceptedAre(proposals: seq<Proposal>, k: nat, planned: seq<PlannedOperation>)
    requires k <= |proposals| && AreAccepted(proposals, k, planned)
    ensures ArePlanned(proposals[..k], planned)
  {
    forall i | 0 <= i < k ensures IsPlanned(proposals[..k][i], planned[i]) { AcceptIs(proposals[i]); }
  }

  method FindFault(p: Proposal) returns (fault: Option<Fault>)
    ensures fault == FaultOf(p)
  {
    if p.NotAnObject? { return Some(NotObject); }
    if Missing(p.operationId) { return Some(MissingId); }
    if Missing(p.target) { return Some(MissingTarget); }
    if p.intent != Some("create") && p.intent != Some("modify") { return Some(BadIntent); }
    if Missing(p.goal) { return Some(MissingGoal); }
    fault := None;
  }

  /** The first fault, or the plan, unless its dependencies have a cycle. */
  method PlanOperations(proposals: seq<Proposal>) returns (r: Outcome)
    ensures r.InvalidOperation? ==>
      && r.index < |proposals| && IsFault(proposals[r.index], r.fault)
      && forall i :: 0 <= i < r.index ==> IsFaultless(proposals[i])
    ensures r.Planned? ==> ArePlanned(proposals, r.operations) && !Cyclic(LastGraph(Definitions(r.operations)))
    ensures r.PlanCycle? ==> exists planned :: ArePlanned(proposals, planned) && Cyclic(LastGraph(Definitions(planned)))
  {
    var planned: seq<PlannedOperation> := [];
    for k := 0 to |proposals|
      invariant AreAccepted(proposals, k, planned)
    {
      var fault := FindFault(proposals[k]);
      if fault.Some? {
        FaultIs(proposals[k], fault.value);
        AcceptedAre(proposals, k, planned);
        assert forall i :: 0 <= i < k ==> proposals[..k][i] == proposals[i];
        return InvalidOperation(k, fault.value);
      }
      planned := planned + [Accept(proposals[k])];
    }
    AcceptedAre(proposals, |proposals|, planned);
    assert proposals[..|proposals|] == proposals;
    if planned != [] {
      var found := CycleDetection.DetectCycle(Definitions(planned));
      if found { return PlanCycle; }
    } else {
      NothingIsAcyclic();
    }
    return Planned(planned);
  }

  lemma NothingIsAcyclic()
    ensures !Cyclic(LastGraph(Definitions([])))
  {
  }

  lemma DependenciesAreKept(planned: seq<PlannedOperation>, i: nat)
    requires i < |planned|
    ensures forall d :: d in Definitions(planned)[i].dependsOn <==> d in planned[i].dependsOn
  {
    SortedPermutes(planned[i].dependsOn, StringLe);
    SameMembers(planned[i].dependsOn, Definitions(planned)[i].dependsOn);
  }

  /** A plan that passes the gate with distinct ids is ordered completely, dependencies first. */
  lemma GateGivesTotalOrder(planned: seq<PlannedOperation>, order: seq<string>)
    requires !Cyclic(LastGraph(Definitions(planned))) && IsExecutionOrder(Definitions(planned), order)
    requires forall i, j :: 0 <= i < j < |planned| ==> planned[i].operationId != planned[j].operationId
    ensures |order| == |planned| && NoDuplicates(order)
    ensures forall i :: 0 <= i < |planned| ==> planned[i].operationId in order
    ensures forall i, d :: 0 <= i < |planned| && d in planned[i].dependsOn && d in order ==>
      IndexOf(order, d) < IndexOf(order, planned[i].operationId)
  {
    var ops := Definitions(planned);
    AgreementForDistinctIds(ops, order);
    forall i | 0 <= i < |planned| ensures planned[i].operationId in order {
      assert ops[i].id in Ids(ops);
    }
    forall i, d | 0 <= i < |planned| && d in planned[i].dependsOn && d in order
      ensures IndexOf(order, d) < IndexOf(order, planned[i].operationId)
    {
      var at := IndexOf(order, planned[i].operationId);
      DependenciesAreKept(planned, i);
      assert order[IndexOf(order, d)] in Elems(order);
      OnlyDefinition(ops, ops[i], Ids(ops));
      InSetMembers(ops[i].dependsOn, Ids(ops));
      assert d in order[..at];
      var j :| 0 <= j < at && order[j] == d;
      assert IndexOf(order, d) == j;
    }
  }

  /** A plan that passes the gate, whatever its ids, is ordered completely exactly when the dependencies of all
      its definitions together have no cycle. */
  lemma GateGivesCompleteOrderExactlyWhen(planned: seq<PlannedOperation>, order: seq<string>)
    requires !Cyclic(LastGraph(Definitions(planned))) && IsExecutionOrder(Definitions(planned), order)
    ensures Elems(order) == Ids(Definitions(planned)) <==> !Cyclic(UnionGraph(Definitions(planned)))
  {
    AgreeExactlyWhen(Definitions(planned), order);
  }

  /** The gate does not ask for distinct ids: this plan passes it and none of its operations is ordered. */
  lemma GateLetsRepeatedIdsThrough() returns (planned: seq<PlannedOperation>)
    ensures planned != [] && !Cyclic(LastGraph(Definitions(planned)))
    ensures forall order :: IsExecutionOrder(Definitions(planned), order) ==> order == []
  {
    planned := [PlannedOperation("a", "t", Create, "g", ["b"]), PlannedOperation("b", "t", Create, "g", ["a"]),
                PlannedOperation("a", "t", Create, "g", [])];
    assert Sorted(["b"], StringLe) == ["b"] && Sorted(["a"], StringLe) == ["a"];
    assert Definitions(planned) == HiddenCycle();
    RepeatedIdHidesACycle();
  }
}
