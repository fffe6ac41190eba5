/** The executor of one planned operation: an initial pipeline and, when a gate fails, correction cycles,
    run against adapters whose answers are arbitrary. */
module CorrectionEngine {
  import opened Ordering
  import opened Text
  import opened Operations
  import opened ExecutionOrder
  import opened OperationPlanning

  datatype Action = ReadFile | Generate | CreateFile | ModifyFile | Validate | RunTests | Add

  /** What the gateway and the adapter answer to one step; a refused dispatch and a raised error are
      answers without success. */
  datatype Answer = Answer(success: bool, output: string, error: Option<string>)

  /** One step of the audit trail; a write step also records the content it was given. */
  datatype Step = Step(operationId: string, action: Action, content: string, answer: Answer)

  datatype Trigger = ValidationFailure | TestFailure

  datatype Correction = Correction(attempt: nat, trigger: Trigger, excerpt: string)

  /** The return statement that ended the run. */
  datatype Exit =
    | Done | AddFailed | NotCorrectable | CorrectionDisabled | CorrectionStepFailed | LimitExceeded

  datatype Result = Result(
    success: bool, attempts: nat, log: seq<Correction>, steps: seq<Step>, error: Option<string>)

  const MAX_ERROR_EXCERPT_CHARS: nat := 2000

  datatype Goal = Goal(goalId: string, description: string, repositoryPath: string, outputPath: string)

  // ---------------------------------------------------------------- pipelines

  function AdapterOf(action: Action): (r: string) {
    match action
    case Generate => "llm"
    case Validate => "validation"
    case RunTests => "validation"
    case Add => "git"
    case _ => "filesystem"
  }

  function ActionName(action: Action): (r: string) {
    match action
    case ReadFile => "read_file"
    case Generate => "generate"
    case CreateFile => "create_file"
    case ModifyFile => "modify_file"
    case Validate => "validate"
    case RunTests => "run_tests"
    case Add => "add"
  }

  function StepIdPrefix(action: Action): (r: string) {
    match action
    case ReadFile => "op-read-"
    case Generate => "op-generate-"
    case CreateFile => "op-write-"
    case ModifyFile => "op-write-"
    case Validate => "op-validate-"
    case RunTests => "op-test-"
    case Add => "op-add-"
  }

  function StepGoal(action: Action, goal: Goal): (r: string) {
    match action
    case ReadFile => "Read existing content of " + goal.outputPath
    case Generate => "Generate source code for: " + goal.description
    case CreateFile => "Write generated code to " + goal.outputPath
    case ModifyFile => "Write modified code to " + goal.outputPath
    case Validate => "Validate code at " + goal.outputPath
    case RunTests => "Run test suite for repository " + goal.repositoryPath
    case Add => "Stage " + goal.outputPath + " for commit"
  }

  function BuildStep(goal: Goal, prefix: string, action: Action, index: nat, dependsOn: seq<string>): (r: Operation) {
    BuildOperation(StepIdPrefix(action) + prefix, "job-" + goal.goalId, StepGoal(action, goal), index, dependsOn,
                   Some(ExecutionReference(AdapterOf(action), ActionName(action))))
  }

  /** Which adapter and action each step calls, and how its id begins. */
  lemma CallsAre()
    ensures AdapterOf(ReadFile) == AdapterOf(CreateFile) == AdapterOf(ModifyFile) == "filesystem"
    ensures AdapterOf(Generate) == "llm" && AdapterOf(Validate) == AdapterOf(RunTests) == "validation" && AdapterOf(Add) == "git"
    ensures ActionName(ReadFile) == "read_file" && ActionName(Generate) == "generate" && ActionName(CreateFile) == "create_file"
    ensures ActionName(ModifyFile) == "modify_file" && ActionName(Validate) == "validate"
    ensures ActionName(RunTests) == "run_tests" && ActionName(Add) == "add"
    ensures StepIdPrefix(ReadFile) == "op-read-" && StepIdPrefix(Generate) == "op-generate-"
    ensures StepIdPrefix(CreateFile) == StepIdPrefix(ModifyFile) == "op-write-" && StepIdPrefix(Validate) == "op-validate-"
    ensures StepIdPrefix(RunTests) == "op-test-" && StepIdPrefix(Add) == "op-add-"
  {
  }

  const CREATE_ACTIONS := [Generate, CreateFile, Validate, RunTests, Add]
  const MODIFY_ACTIONS := [ReadFile, Generate, ModifyFile, Validate, RunTests, Add]

  function Actions(modifying: bool): (r: seq<Action>) {
    if modifying then MODIFY_ACTIONS else CREATE_ACTIONS
  }

  function StepId(action: Action, prefix: string): (r: string) {
    StepIdPrefix(action) + prefix
  }

  /** The create pipeline has five steps, the modify pipeline six, each depending on the one before. */
  function Pipeline(goal: Goal, prefix: string, modifying: bool): (ops: seq<Operation>)
    ensures |ops| == |Actions(modifying)|
    ensures forall i :: 0 <= i < |ops| ==> ops[i].id == StepId(Actions(modifying)[i], prefix)
  {
    var actions := Actions(modifying);
    seq(|actions|, i requires 0 <= i < |actions| =>
      BuildStep(goal, prefix, actions[i], i, if i == 0 then [] else [StepId(actions[i - 1], prefix)]))
  }

  /** The character that tells the step ids of one pipeline apart. */
  function Mark(action: Action): (c: char)
    ensures |StepIdPrefix(action)| > 3 && StepIdPrefix(action)[3] == c
  {
    match action
    case ReadFile => 'r'
    case Generate => 'g'
    case CreateFile => 'w'
    case ModifyFile => 'w'
    case Validate => 'v'
    case RunTests => 't'
    case Add => 'a'
  }

  lemma StepIdsDiffer(a: Action, b: Action, prefix: string)
    requires Mark(a) != Mark(b)
    ensures StepId(a, prefix) != StepId(b, prefix)
  {
    assert StepId(a, prefix)[3] == Mark(a) && StepId(b, prefix)[3] == Mark(b);
  }

  lemma MarksDiffer(modifying: bool, i: nat, j: nat)
    requires i < j < |Actions(modifying)|
    ensures Mark(Actions(modifying)[i]) != Mark(Actions(modifying)[j])
  {
  }

  lemma PipelineIsChain(goal: Goal, prefix: string, modifying: bool)
    ensures IsChain(Pipeline(goal, prefix, modifying))
  {
    var ops, actions := Pipeline(goal, prefix, modifying), Actions(modifying);
    forall i, j | 0 <= i < j < |ops| ensures ops[i].id != ops[j].id {
      MarksDiffer(modifying, i, j);
      StepIdsDiffer(actions[i], actions[j], prefix);
    }
    forall i | 0 <= i < |ops| ensures ops[i].dependsOn == if i == 0 then [] else [ops[i - 1].id] {
      if i > 0 { SortedSingle(StepId(actions[i - 1], prefix)); }
    }
  }

  lemma SortedSingle(x: string)
    ensures Sorted([x], StringLe) == [x]
  {
  }

  lemma StepTextsNotBlank(goal: Goal, prefix: string, action: Action)
    ensures !IsBlank(StepId(action, prefix)) && !IsBlank(StepGoal(action, goal))
  {
    assert StepId(action, prefix)[3] == Mark(action);
    assert !IsSpace(StepGoal(action, goal)[0]);
  }

  lemma ReferenceNotBlank(action: Action)
    ensures !IsBlank(AdapterOf(action)) && !IsBlank(ActionName(action))
  {
    assert !IsSpace(AdapterOf(action)[0]) && !IsSpace(ActionName(action)[0]);
  }

  lemma StepIsValid(goal: Goal, prefix: string, action: Action, index: nat, before: Option<Action>)
    requires before.Some? ==> Mark(before.value) != Mark(action)
    ensures StructurallyValid(BuildStep(goal, prefix, action, index,
                              if before.Some? then [StepId(before.value, prefix)] else []))
  {
    StepTextsNotBlank(goal, prefix, action);
    ReferenceNotBlank(action);
    assert !IsBlank("job-" + goal.goalId) by { assert ("job-" + goal.goalId)[0] == 'j'; }
    if before.Some? {
      SortedSingle(StepId(before.value, prefix));
      StepIdsDiffer(before.value, action, prefix);
      StepTextsNotBlank(goal, prefix, before.value);
    }
  }

  /** Every pipeline step passes structural validation, so a run never stops for an invalid plan. */
  lemma PipelineStepIsValid(goal: Goal, prefix: string, modifying: bool, k: nat)
    requires k < |Actions(modifying)|
    ensures StructurallyValid(Pipeline(goal, prefix, modifying)[k])
  {
    var actions := Actions(modifying);
    if k > 0 { MarksDiffer(modifying, k - 1, k); }
    StepIsValid(goal, prefix, actions[k], k, if k == 0 then None else Some(actions[k - 1]));
  }

  // ---------------------------------------------------------------- the protocol

  predicate IsWrite(action: Action) {
    action == CreateFile || action == ModifyFile
  }

  /** A failing gate is what the correction loop can answer. */
  predicate IsGateFailure(s: Step) {
    (s.action == Validate || s.action == RunTests) && !s.answer.success
  }

  /** The gate failures of a run, in order. */
  ghost function GateFailures(steps: seq<Step>): (r: seq<Step>) {
    if steps == [] then []
    else
      var before := GateFailures(steps[..|steps| - 1]);
      if IsGateFailure(steps[|steps| - 1]) then before + [steps[|steps| - 1]] else before
  }

  /** What may follow a step, if anything may; once a gate has failed, files are overwritten. */
  function After(modifying: bool, corrected: bool, last: Step): (r: Option<Action>) {
    if last.answer.success then
      match last.action
      case ReadFile => Some(Generate)
      case Generate => Some(if modifying || corrected then ModifyFile else CreateFile)
      case CreateFile => Some(Validate)
      case ModifyFile => Some(Validate)
      case Validate => Some(RunTests)
      case RunTests => Some(Add)
      case Add => None
    else if IsGateFailure(last) then Some(Generate)
    else None
  }

  /** The only action that may follow a run, if any may. */
  ghost function NextAction(modifying: bool, steps: seq<Step>): (r: Option<Action>) {
    if steps == [] then Some(if modifying then ReadFile else Generate)
    else After(modifying, GateFailures(steps) != [], steps[|steps| - 1])
  }

  /** The step is the one that the steps before it call for, and a write writes what was generated. */
  ghost predicate IsTurn(modifying: bool, steps: seq<Step>, i: nat)
    requires i < |steps|
  {
    && NextAction(modifying, steps[..i]) == Some(steps[i].action)
    && (IsWrite(steps[i].action) ==> i > 0 && steps[i].content == steps[i - 1].answer.output)
  }

  ghost predicate Follows(modifying: bool, steps: seq<Step>) {
    forall i :: 0 <= i < |steps| ==> IsTurn(modifying, steps, i)
  }

  lemma FailuresOneMore(steps: seq<Step>, s: Step)
    ensures GateFailures(steps + [s]) == GateFailures(steps) + (if IsGateFailure(s) then [s] else [])
  {
    assert (steps + [s])[..|steps|] == steps;
  }

  lemma TurnStays(modifying: bool, steps: seq<Step>, s: Step, i: nat)
    requires i < |steps| && IsTurn(modifying, steps, i)
    ensures IsTurn(modifying, steps + [s], i)
  {
    assert (steps + [s])[..i] == steps[..i];
  }

  lemma LastTurn(modifying: bool, steps: seq<Step>, s: Step)
    requires NextAction(modifying, steps) == Some(s.action)
    requires IsWrite(s.action) ==> steps != [] && s.content == steps[|steps| - 1].answer.output
    ensures IsTurn(modifying, steps + [s], |steps|)
  {
    assert (steps + [s])[..|steps|] == steps;
  }

  lemma FollowsOneMore(modifying: bool, steps: seq<Step>, s: Step)
    requires Follows(modifying, steps) && NextAction(modifying, steps) == Some(s.action)
    requires IsWrite(s.action) ==> s.content == steps[|steps| - 1].answer.output
    ensures var longer := steps + [s];
      && Follows(modifying, longer)
      && GateFailures(longer) == GateFailures(steps) + (if IsGateFailure(s) then [s] else [])
      && NextAction(modifying, longer) == After(modifying, GateFailures(longer) != [], s)
  {
    var longer := steps + [s];
    FailuresOneMore(steps, s);
    forall i | 0 <= i < |steps| ensures IsTurn(modifying, longer, i) { TurnStays(modifying, steps, s, i); }
    LastTurn(modifying, steps, s);
  }

  function CorrectionPrefix(count: nat, prefix: string): (r: string) {
    "corr" + Decimal(count) + "-" + prefix
  }

  /** What a step's id ends in: the operation's id, and in a correction cycle its number before that; staging carries
      no number. */
  function PrefixFor(operation: string, action: Action, failures: nat): (prefix: string) {
    if action == Add || failures == 0 then operation else CorrectionPrefix(failures, operation)
  }

  /** The step carries the id of its action and cycle. */
  ghost predicate IsNamed(operation: string, steps: seq<Step>, i: nat)
    requires i < |steps|
  {
    steps[i].operationId == StepId(steps[i].action, PrefixFor(operation, steps[i].action, |GateFailures(steps[..i])|))
  }

  ghost predicate AreNamed(operation: string, steps: seq<Step>) {
    forall i :: 0 <= i < |steps| ==> IsNamed(operation, steps, i)
  }

  lemma NamedOneMore(operation: string, steps: seq<Step>, s: Step)
    requires AreNamed(operation, steps)
    requires s.operationId == StepId(s.action, PrefixFor(operation, s.action, |GateFailures(steps)|))
    ensures AreNamed(operation, steps + [s])
  {
    var longer := steps + [s];
    forall i | 0 <= i < |longer| ensures IsNamed(operation, longer, i) {
      assert longer[..i] == steps[..i];
      if i < |steps| { assert IsNamed(operation, steps, i); } else { assert steps[..i] == steps; }
    }
  }

  // ---------------------------------------------------------------- the run

  function TriggerOf(s: Step): (r: Trigger) {
    if s.action == Validate then ValidationFailure else TestFailure
  }

  /** The failure text of a step: its output, else its error, trimmed and cut. */
  function ExcerptOf(s: Step): (r: string)
    ensures |r| <= MAX_ERROR_EXCERPT_CHARS
  {
    var raw := Strip(
      if s.answer.output != "" then s.answer.output
      else if s.answer.error.Some? && s.answer.error.value != "" then s.answer.error.value
      else "unknown error");
    if |raw| <= MAX_ERROR_EXCERPT_CHARS then raw else raw[..MAX_ERROR_EXCERPT_CHARS]
  }

  function ActionOf(op: Operation): (r: Action) {
    if op.executionRef.None? then Add
    else
      var name := op.executionRef.value.actionId;
      if name == "read_file" then ReadFile
      else if name == "generate" then Generate
      else if name == "create_file" then CreateFile
      else if name == "modify_file" then ModifyFile
      else if name == "validate" then Validate
      else if name == "run_tests" then RunTests
      else Add
  }

  lemma ActionOfBuilt(goal: Goal, prefix: string, action: Action, index: nat, dependsOn: seq<string>)
    ensures ActionOf(BuildStep(goal, prefix, action, index, dependsOn)) == action
  {
  }

  /** Each record of the log names the gate whose failure came before that attempt. */
  ghost predicate LogExplained(log: seq<Correction>, failures: seq<Step>) {
    && |log| <= |failures|
    && (forall k :: 0 <= k < |log| ==>
          log[k] == Correction(k + 1, TriggerOf(failures[k]), ExcerptOf(failures[k])))
  }

  /** How a run can end, in terms of its steps and its log. */
  ghost predicate EndsAs(exit: Exit, maxCorrections: int, steps: seq<Step>, log: seq<Correction>) {
    && steps != []
    && var last := steps[|steps| - 1];
    match exit
    case Done => last.action == Add && last.answer.success
    case AddFailed => last.action == Add && !last.answer.success
    case NotCorrectable =>
      log == [] && !last.answer.success && last.action != Add && !IsGateFailure(last)
    case CorrectionDisabled => log == [] && maxCorrections <= 0 && IsGateFailure(last)
    case CorrectionStepFailed =>
      log != [] && !last.answer.success && (last.action == Generate || last.action == ModifyFile)
    case LimitExceeded => maxCorrections > 0 && |log| == maxCorrections && IsGateFailure(last)
  }

  ghost predicate RunIsRight(modifying: bool, maxCorrections: int, r: Result, exit: Exit) {
    && Follows(modifying, r.steps)
    && EndsAs(exit, maxCorrections, r.steps, r.log)
    && (r.success <==> exit == Done)
    && r.attempts == |r.log| <= (if maxCorrections > 0 then maxCorrections else 0)
    && LogExplained(r.log, GateFailures(r.steps))
    && |GateFailures(r.steps)| == |r.log| + (if exit == CorrectionDisabled || exit == LimitExceeded then 1 else 0)
    && |r.steps| <= |Actions(modifying)| + 4 * |r.log|
    && r.error == (if exit == Done then None
                   else if exit == LimitExceeded then Some("repair_limit_exceeded")
                   else r.steps[|r.steps| - 1].answer.error)
  }

  lemma PipelineAction(goal: Goal, prefix: string, modifying: bool, k: nat)
    requires k < |Actions(modifying)|
    ensures ActionOf(Pipeline(goal, prefix, modifying)[k]) == Actions(modifying)[k]
  {
    ActionOfBuilt(goal, prefix, Actions(modifying)[k], k,
                  if k == 0 then [] else [StepId(Actions(modifying)[k - 1], prefix)]);
  }

  /** Looking a step up by its id finds the pipeline step with its action. */
  lemma PipelineLookup(goal: Goal, prefix: string, modifying: bool, k: nat)
    requires k < |Actions(modifying)|
    ensures var ops, id := Pipeline(goal, prefix, modifying), StepId(Actions(modifying)[k], prefix);
      id in Ids(ops) && LastDefinition(ops, id).id == id && ActionOf(LastDefinition(ops, id)) == Actions(modifying)[k]
  {
    var ops := Pipeline(goal, prefix, modifying);
    PipelineIsChain(goal, prefix, modifying);
    OnlyLastDefinition(ops, ops[k]);
    PipelineAction(goal, prefix, modifying, k);
  }

  /** The first k steps of the pipeline have succeeded. */
  ghost predicate PipelineSoFar(modifying: bool, k: nat, steps: seq<Step>)
    requires k < |Actions(modifying)|
  {
    && |steps| == k && Follows(modifying, steps) && GateFailures(steps) == []
    && NextAction(modifying, steps) == Some(Actions(modifying)[k])
  }

  /** One executed step of a run that keeps to the protocol. */
  method TakeStep(modifying: bool, ghost operation: string, prefix: string, action: Action, content: string,
                  steps: seq<Step>, answers: nat -> Answer)
      returns (s: Step, longer: seq<Step>)
    requires Follows(modifying, steps) && NextAction(modifying, steps) == Some(action)
    requires AreNamed(operation, steps) && prefix == PrefixFor(operation, action, |GateFailures(steps)|)
    requires IsWrite(action) ==> content == steps[|steps| - 1].answer.output
    ensures s.action == action && longer == steps + [s] && Follows(modifying, longer) && AreNamed(operation, longer)
    ensures GateFailures(longer) == GateFailures(steps) + (if IsGateFailure(s) then [s] else [])
    ensures NextAction(modifying, longer) == After(modifying, GateFailures(longer) != [], s)
  {
    s := Step(StepId(action, prefix), action, content, answers(|steps|));
    FollowsOneMore(modifying, steps, s);
    NamedOneMore(operation, steps, s);
    longer := steps + [s];
  }

  method LookUp(goal: Goal, prefix: string, modifying: bool, id: string, ghost k: nat) returns (action: Action)
    requires k < |Actions(modifying)| && id == StepId(Actions(modifying)[k], prefix)
    ensures action == Actions(modifying)[k]
  {
    PipelineLookup(goal, prefix, modifying, k);
    action := ActionOf(LastDefinition(Pipeline(goal, prefix, modifying), id));
  }

  /** The pipeline without its last step, up to the first failure. */
  method RunPipeline(goal: Goal, prefix: string, modifying: bool, preAdd: seq<string>, answers: nat -> Answer)
      returns (steps: seq<Step>, failed: Option<Step>)
    requires |preAdd| == |Actions(modifying)| - 1
    requires forall i :: 0 <= i < |preAdd| ==> preAdd[i] == StepId(Actions(modifying)[i], prefix)
    ensures Follows(modifying, steps) && AreNamed(prefix, steps) && |steps| <= |preAdd|
    ensures failed.None? ==> NextAction(modifying, steps) == Some(Add) && GateFailures(steps) == []
    ensures failed.Some? ==>
      && steps != [] && failed.value == steps[|steps| - 1] && !failed.value.answer.success
      && failed.value.action != Add
      && GateFailures(steps) == if IsGateFailure(failed.value) then [failed.value] else []
  {
    steps, failed := [], None;
    var code := "";
    for k := 0 to |preAdd|
      invariant PipelineSoFar(modifying, k, steps) && AreNamed(prefix, steps) && failed.None?
      invariant IsWrite(Actions(modifying)[k]) ==> k > 0 && code == steps[k - 1].answer.output
    {
      var action := LookUp(goal, prefix, modifying, preAdd[k], k);
      var s, longer := TakeStep(modifying, prefix, prefix, action, if IsWrite(action) then code else "", steps, answers);
      PipelineAdvances(modifying, k, steps, s, longer);
      steps := longer;
      if !s.answer.success {
        failed := Some(s);
        return;
      }
      if s.action == Generate { code := s.answer.output; }
      WriteComesAfterGenerate(modifying, k);
    }
  }

  lemma WriteComesAfterGenerate(modifying: bool, k: nat)
    requires k + 1 < |Actions(modifying)|
    ensures IsWrite(Actions(modifying)[k + 1]) ==> Actions(modifying)[k] == Generate
  {
  }

  /** Before any gate has failed, the pipeline's next action follows a successful one. */
  lemma NextInPipeline(modifying: bool, k: nat, s: Step)
    requires k < |Actions(modifying)| - 1 && s.action == Actions(modifying)[k]
    ensures s.action != Add && (IsGateFailure(s) ==> !s.answer.success)
    ensures s.answer.success ==> After(modifying, false, s) == Some(Actions(modifying)[k + 1])
  {
  }

  lemma PipelineAdvances(modifying: bool, k: nat, steps: seq<Step>, s: Step, longer: seq<Step>)
    requires k < |Actions(modifying)| - 1 && PipelineSoFar(modifying, k, steps) && s.action == Actions(modifying)[k]
    requires longer == steps + [s] && Follows(modifying, longer)
    requires GateFailures(longer) == GateFailures(steps) + (if IsGateFailure(s) then [s] else [])
    requires NextAction(modifying, longer) == After(modifying, GateFailures(longer) != [], s)
    ensures s.action != Add && GateFailures(longer) == (if IsGateFailure(s) then [s] else [])
    ensures s.answer.success ==> PipelineSoFar(modifying, k + 1, longer)
  {
    NextInPipeline(modifying, k, s);
  }

  /** How a cycle ends: at a failed gate, and the loop goes on, or for good. */
  predicate CycleEnds(exit: Option<Exit>, last: Step) {
    match exit
    case None => IsGateFailure(last)
    case Some(Done) => last.action == Add && last.answer.success
    case Some(AddFailed) => last.action == Add && !last.answer.success
    case Some(CorrectionStepFailed) => (last.action == Generate || last.action == ModifyFile) && !last.answer.success
    case _ => false
  }

  /** The first half of a cycle: generate and write. */
  method Rewrite(modifying: bool, ghost operation: string, prefix: string, before: seq<Step>, answers: nat -> Answer)
      returns (steps: seq<Step>, last: Step)
    requires Follows(modifying, before) && NextAction(modifying, before) == Some(Generate) && GateFailures(before) != []
    requires AreNamed(operation, before) && prefix == CorrectionPrefix(|GateFailures(before)|, operation)
    ensures Follows(modifying, steps) && steps != [] && last == steps[|steps| - 1] && |steps| <= |before| + 2
    ensures AreNamed(operation, steps)
    ensures GateFailures(steps) == GateFailures(before)
    ensures if last.answer.success then NextAction(modifying, steps) == Some(Validate)
            else last.action == Generate || last.action == ModifyFile
  {
    last, steps := TakeStep(modifying, operation, prefix, Generate, "", before, answers);
    if last.answer.success {
      last, steps := TakeStep(modifying, operation, prefix, ModifyFile, last.answer.output, steps, answers);
    }
  }

  predicate IsGate(action: Action) {
    action == Validate || action == RunTests
  }

  /** One gate: when it passes, the next step follows; when not, it is one gate failure more. */
  method PassGate(modifying: bool, ghost operation: string, prefix: string, gate: Action, before: seq<Step>, answers: nat -> Answer)
      returns (steps: seq<Step>, last: Step)
    requires IsGate(gate) && Follows(modifying, before) && NextAction(modifying, before) == Some(gate)
    requires AreNamed(operation, before) && prefix == PrefixFor(operation, gate, |GateFailures(before)|)
    ensures Follows(modifying, steps) && AreNamed(operation, steps) && |steps| == |before| + 1 && last == steps[|before|]
    ensures if last.answer.success
            then NextAction(modifying, steps) == Some(if gate == Validate then RunTests else Add)
                 && GateFailures(steps) == GateFailures(before)
            else IsGateFailure(last) && GateFailures(steps) == GateFailures(before) + [last]
  {
    last, steps := TakeStep(modifying, operation, prefix, gate, "", before, answers);
  }

  /** The second half: validate and run the tests. */
  method Recheck(modifying: bool, ghost operation: string, prefix: string, before: seq<Step>, answers: nat -> Answer)
      returns (steps: seq<Step>, last: Step)
    requires Follows(modifying, before) && NextAction(modifying, before) == Some(Validate) && GateFailures(before) != []
    requires AreNamed(operation, before) && prefix == CorrectionPrefix(|GateFailures(before)|, operation)
    ensures Follows(modifying, steps) && steps != [] && last == steps[|steps| - 1] && |steps| <= |before| + 2
    ensures AreNamed(operation, steps)
    ensures if last.answer.success
            then NextAction(modifying, steps) == Some(Add) && GateFailures(steps) == GateFailures(before)
            else IsGateFailure(last) && GateFailures(steps) == GateFailures(before) + [last]
  {
    steps, last := PassGate(modifying, operation, prefix, Validate, before, answers);
    if last.answer.success {
      steps, last := PassGate(modifying, operation, prefix, RunTests, steps, answers);
    }
  }

  /** Staging, which ends the run either way. */
  method Stage(modifying: bool, operation: string, before: seq<Step>, answers: nat -> Answer)
      returns (steps: seq<Step>, last: Step)
    requires Follows(modifying, before) && NextAction(modifying, before) == Some(Add) && AreNamed(operation, before)
    ensures Follows(modifying, steps) && AreNamed(operation, steps) && last.action == Add
    ensures |steps| == |before| + 1 && last == steps[|before|] && GateFailures(steps) == GateFailures(before)
  {
    last, steps := TakeStep(modifying, operation, operation, Add, "", before, answers);
  }

  /** The gates, and staging when both pass. */
  method GatesAndStage(modifying: bool, prefix: string, operation: string, before: seq<Step>, answers: nat -> Answer)
      returns (steps: seq<Step>, last: Step, exit: Option<Exit>)
    requires Follows(modifying, before) && NextAction(modifying, before) == Some(Validate) && GateFailures(before) != []
    requires AreNamed(operation, before) && prefix == CorrectionPrefix(|GateFailures(before)|, operation)
    ensures Follows(modifying, steps) && steps != [] && last == steps[|steps| - 1] && AreNamed(operation, steps)
    ensures |steps| <= |before| + (if exit.None? then 2 else 3)
    ensures GateFailures(steps) == GateFailures(before) + (if exit.None? then [last] else [])
    ensures CycleEnds(exit, last)
  {
    exit := None;
    steps, last := Recheck(modifying, operation, prefix, before, answers);
    if last.answer.success {
      steps, last := Stage(modifying, operation, steps, answers);
      exit := Some(if last.answer.success then Done else AddFailed);
    }
  }

  /** One cycle: generate, write, validate, run tests, and stage when both gates pass. */
  method CorrectOnce(modifying: bool, prefix: string, operation: string, before: seq<Step>, answers: nat -> Answer)
      returns (steps: seq<Step>, last: Step, exit: Option<Exit>)
    requires Follows(modifying, before) && NextAction(modifying, before) == Some(Generate) && GateFailures(before) != []
    requires AreNamed(operation, before) && prefix == CorrectionPrefix(|GateFailures(before)|, operation)
    ensures Follows(modifying, steps) && steps != [] && last == steps[|steps| - 1] && AreNamed(operation, steps)
    ensures |steps| <= |before| + (if exit.None? then 4 else 5)
    ensures GateFailures(steps) == GateFailures(before) + (if exit.None? then [last] else [])
    ensures CycleEnds(exit, last)
  {
    exit := None;
    steps, last := Rewrite(modifying, operation, prefix, before, answers);
    if last.answer.success {
      steps, last, exit := GatesAndStage(modifying, prefix, operation, steps, answers);
    } else {
      exit := Some(CorrectionStepFailed);
    }
  }

  /** What holds before every correction cycle: the last step is the gate failure that triggers it. */
  ghost predicate AwaitsCorrection(modifying: bool, steps: seq<Step>, log: seq<Correction>, last: Step) {
    && Follows(modifying, steps) && steps != [] && last == steps[|steps| - 1] && IsGateFailure(last)
    && |GateFailures(steps)| == |log| + 1 && GateFailures(steps)[|log|] == last
    && LogExplained(log, GateFailures(steps))
    && |steps| <= |Actions(modifying)| - 1 + 4 * |log|
  }

  /** Every pipeline step is planned before any is executed; none is ever invalid. */
  method CheckPipeline(goal: Goal, prefix: string, modifying: bool)
  {
    var pipeline := Pipeline(goal, prefix, modifying);
    var results := PlanAll(pipeline, {});
    for k := 0 to |results| {
      if results[k].errors != [] {
        PipelineStepIsValid(goal, prefix, modifying, k);
        assert false;
      }
    }
  }

  /** The ids of the steps before the last, in execution order. */
  method PreAddOrder(goal: Goal, prefix: string, modifying: bool) returns (preAdd: seq<string>)
    ensures |preAdd| == |Actions(modifying)| - 1
    ensures forall i :: 0 <= i < |preAdd| ==> preAdd[i] == StepId(Actions(modifying)[i], prefix)
  {
    var order := OrderOf(Pipeline(goal, prefix, modifying));
    PipelineOrder(goal, prefix, modifying, order);
    preAdd := WithoutAdd(modifying, prefix, order);
  }

  method OrderOf(pipeline: seq<Operation>) returns (order: seq<string>)
    ensures IsExecutionOrder(pipeline, order)
  {
    order := DetermineExecutionOrder(pipeline);
  }

  /** The execution order of a pipeline is the pipeline. */
  lemma PipelineOrder(goal: Goal, prefix: string, modifying: bool, order: seq<string>)
    requires IsExecutionOrder(Pipeline(goal, prefix, modifying), order)
    ensures |order| == |Actions(modifying)|
    ensures forall i :: 0 <= i < |order| ==> order[i] == StepId(Actions(modifying)[i], prefix)
  {
    PipelineIsChain(goal, prefix, modifying);
    ChainOrder(Pipeline(goal, prefix, modifying), order);
  }

  method WithoutAdd(ghost modifying: bool, prefix: string, order: seq<string>) returns (preAdd: seq<string>)
    requires |order| == |Actions(modifying)|
    requires forall i :: 0 <= i < |order| ==> order[i] == StepId(Actions(modifying)[i], prefix)
    ensures preAdd == order[..|order| - 1]
  {
    preAdd := [];
    for k := 0 to |order|
      invariant preAdd == order[..if k < |order| then k else k - 1]
    {
      LastIsAdd(modifying, prefix, k);
      if order[k] != StepId(Add, prefix) { preAdd := preAdd + [order[k]]; }
    }
  }

  lemma LastIsAdd(modifying: bool, prefix: string, k: nat)
    requires k < |Actions(modifying)|
    ensures StepId(Actions(modifying)[k], prefix) == StepId(Add, prefix) <==> k == |Actions(modifying)| - 1
  {
    if k < |Actions(modifying)| - 1 {
      MarksDiffer(modifying, k, |Actions(modifying)| - 1);
      StepIdsDiffer(Actions(modifying)[k], Add, prefix);
    }
  }

  /** How a run without corrections may end. */
  lemma EndsUncorrected(modifying: bool, maxCorrections: int, steps: seq<Step>, last: Step, exit: Exit)
    requires Follows(modifying, steps) && steps != [] && last == steps[|steps| - 1] && |steps| <= |Actions(modifying)|
    requires EndsAs(exit, maxCorrections, steps, [])
    requires |GateFailures(steps)| == if exit == CorrectionDisabled then 1 else 0
    ensures var error := if exit == Done then None else last.answer.error;
      RunIsRight(modifying, maxCorrections, Result(exit == Done, 0, [], steps, error), exit)
  {
  }

  /** Runs one planned operation to its end. */
  method ExecuteOperation(goal: Goal, prefix: string, modifying: bool, maxCorrections: int, answers: nat -> Answer)
      returns (r: Result, exit: Exit)
    ensures RunIsRight(modifying, maxCorrections, r, exit) && AreNamed(prefix, r.steps)
  {
    CheckPipeline(goal, prefix, modifying);
    var preAdd := PreAddOrder(goal, prefix, modifying);
    var steps, failed := RunPipeline(goal, prefix, modifying, preAdd, answers);
    if failed.None? {
      var longer, last := Stage(modifying, prefix, steps, answers);
      EndsUncorrected(modifying, maxCorrections, longer, last, if last.answer.success then Done else AddFailed);
      if !last.answer.success {
        return Result(false, 0, [], longer, last.answer.error), AddFailed;
      }
      return Result(true, 0, [], longer, None), Done;
    }
    var last := failed.value;
    if !IsGateFailure(last) {
      EndsUncorrected(modifying, maxCorrections, steps, last, NotCorrectable);
      return Result(false, 0, [], steps, last.answer.error), NotCorrectable;
    }
    if maxCorrections <= 0 {
      EndsUncorrected(modifying, maxCorrections, steps, last, CorrectionDisabled);
      return Result(false, 0, [], steps, last.answer.error), CorrectionDisabled;
    }
    r, exit := CorrectionLoop(prefix, modifying, maxCorrections, steps, last, answers);
  }

  /** The log of a cycle that the last step triggers. */
  ghost function Logged(log: seq<Correction>, last: Step): (longer: seq<Correction>) {
    log + [Correction(|log| + 1, TriggerOf(last), ExcerptOf(last))]
  }

  lemma LogGrows(log: seq<Correction>, last: Step, failures: seq<Step>, later: seq<Step>)
    requires LogExplained(log, failures) && |failures| == |log| + 1 && failures[|log|] == last
    ensures LogExplained(Logged(log, last), failures + later)
  {
  }

  lemma OneMoreCycle(modifying: bool, steps: seq<Step>, log: seq<Correction>, last: Step, longer: seq<Step>, next: Step)
    requires AwaitsCorrection(modifying, steps, log, last)
    requires Follows(modifying, longer) && longer != [] && next == longer[|longer| - 1] && IsGateFailure(next)
    requires |longer| <= |steps| + 4 && GateFailures(longer) == GateFailures(steps) + [next]
    ensures AwaitsCorrection(modifying, longer, Logged(log, last), next)
  {
    LogGrows(log, last, GateFailures(steps), [next]);
  }

  lemma LastCycle(modifying: bool, maxCorrections: int, steps: seq<Step>, log: seq<Correction>, last: Step,
                  longer: seq<Step>, next: Step, exit: Exit)
    requires AwaitsCorrection(modifying, steps, log, last) && |log| < maxCorrections
    requires Follows(modifying, longer) && longer != [] && next == longer[|longer| - 1] && CycleEnds(Some(exit), next)
    requires |longer| <= |steps| + 5 && GateFailures(longer) == GateFailures(steps)
    ensures var error := if exit == Done then None else next.answer.error;
      RunIsRight(modifying, maxCorrections, Result(exit == Done, |log| + 1, Logged(log, last), longer, error), exit)
  {
    LogGrows(log, last, GateFailures(steps), []);
    assert GateFailures(steps) + [] == GateFailures(longer);
  }

  method CorrectionLoop(prefix: string, modifying: bool, maxCorrections: int, initial: seq<Step>, failed: Step,
                        answers: nat -> Answer)
      returns (r: Result, exit: Exit)
    requires maxCorrections > 0 && AwaitsCorrection(modifying, initial, [], failed) && AreNamed(prefix, initial)
    ensures RunIsRight(modifying, maxCorrections, r, exit) && AreNamed(prefix, r.steps)
  {
    var steps, last := initial, failed;
    var log: seq<Correction> := [];
    var count := 0;
    while count < maxCorrections
      invariant 0 <= count == |log| <= maxCorrections
      invariant AwaitsCorrection(modifying, steps, log, last) && AreNamed(prefix, steps)
    {
      count := count + 1;
      var correction := Correction(count, TriggerOf(last), ExcerptOf(last));
      var longer, next, ended := CorrectOnce(modifying, CorrectionPrefix(count, prefix), prefix, steps, answers);
      if ended.Some? {
        LastCycle(modifying, maxCorrections, steps, log, last, longer, next, ended.value);
        var success := ended == Some(Done);
        return Result(success, count, log + [correction], longer, if success then None else next.answer.error), ended.value;
      }
      OneMoreCycle(modifying, steps, log, last, longer, next);
      steps, log, last := longer, log + [correction], next;
    }
    return Result(false, count, log, steps, Some("repair_limit_exceeded")), LimitExceeded;
  }

  // ---------------------------------------------------------------- what the log tells

  /** The steps of a run at which a gate fails. */
  ghost function FailedGateAt(steps: seq<Step>): (p: nat -> bool) {
    (i: nat) => i < |steps| && !steps[i].answer.success && (steps[i].action == Validate || steps[i].action == RunTests)
  }

  lemma {:induction false} GateFailuresAre(steps: seq<Step>, n: nat)
    requires n <= |steps|
    ensures GateFailures(steps[..n]) == At(steps, Places(n, FailedGateAt(steps)))
  {
    if n > 0 {
      GateFailuresAre(steps, n - 1);
      assert steps[..n][..n - 1] == steps[..n - 1];
    }
  }

  /** The beginning of what a failed step said: its output, or its error when there is none, trimmed. */
  ghost predicate IsExcerpt(excerpt: string, s: Step) {
    && (s.answer.output != "" ==> IsCutTo(excerpt, Strip(s.answer.output), 2000))
    && (s.answer.output == "" && s.answer.error.Some? && s.answer.error.value != "" ==>
          IsCutTo(excerpt, Strip(s.answer.error.value), 2000))
    && (s.answer.output == "" && (s.answer.error == None || s.answer.error == Some("")) ==> excerpt == "unknown error")
  }

  ghost predicate IsCutTo(short: string, text: string, n: nat) {
    short <= text && |short| == if |text| < n then |text| else n
  }

  ghost predicate IsRecordOf(c: Correction, k: nat, s: Step) {
    && c.attempt == k + 1 && IsExcerpt(c.excerpt, s)
    && (c.trigger == ValidationFailure <==> s.action == Validate)
    && (c.trigger == TestFailure <==> s.action == RunTests)
  }

  lemma StripUnknown()
    ensures Strip("unknown error") == "unknown error"
  {
    TrimSolid("unknown error", IsSpace);
  }

  /** In every run the k-th record of the log is of the k-th step at which a gate failed. */
  lemma LogTellsFailures(modifying: bool, maxCorrections: int, r: Result, exit: Exit, k: nat) returns (places: seq<nat>)
    requires RunIsRight(modifying, maxCorrections, r, exit) && k < |r.log|
    ensures ArePlaces(places, |r.steps|, FailedGateAt(r.steps)) && k < |places|
    ensures IsRecordOf(r.log[k], k, r.steps[places[k]])
  {
    places := Places(|r.steps|, FailedGateAt(r.steps));
    PlacesAre(|r.steps|, FailedGateAt(r.steps));
    GateFailuresAre(r.steps, |r.steps|);
    assert r.steps[..|r.steps|] == r.steps;
    StripUnknown();
  }

  // ---------------------------------------------------------------- the steps' ids

  lemma CorrectionPrefixesDiffer(operation: string, j: nat, k: nat)
    requires j < k
    ensures CorrectionPrefix(k, operation) != operation && CorrectionPrefix(j, operation) != CorrectionPrefix(k, operation)
  {
    assert |CorrectionPrefix(k, operation)| > |operation|;
    var a, b := CorrectionPrefix(j, operation), CorrectionPrefix(k, operation);
    if a == b {
      assert |a| == 5 + |Decimal(j)| + |operation| && |b| == 5 + |Decimal(k)| + |operation|;
      assert a[4..4 + |Decimal(j)|] == Decimal(j) && b[4..4 + |Decimal(k)|] == Decimal(k);
      DecimalInjective(j, k);
    }
  }

  /** How far in a cycle an action stands. */
  function Place(action: Action): (place: nat) {
    match action
    case ReadFile => 0
    case Generate => 1
    case CreateFile => 2
    case ModifyFile => 2
    case Validate => 3
    case RunTests => 4
    case Add => 5
  }

  lemma NextGoesForward(modifying: bool, steps: seq<Step>, s: Step)
    requires Follows(modifying, steps) && steps != [] && NextAction(modifying, steps) == Some(s.action)
    ensures var before := GateFailures(steps[..|steps| - 1]);
      && |before| <= |GateFailures(steps)|
      && (|before| == |GateFailures(steps)| ==> Place(steps[|steps| - 1].action) < Place(s.action))
  {
  }

  lemma StepFollows(modifying: bool, steps: seq<Step>, j: nat)
    requires Follows(modifying, steps) && j < |steps|
    ensures Follows(modifying, steps[..j]) && NextAction(modifying, steps[..j]) == Some(steps[j].action)
  {
    FollowsPrefix(modifying, steps, j);
    assert IsTurn(modifying, steps, j);
  }

  /** Between two gate failures the actions only go forward. */
  lemma {:induction false} CyclesGoForward(modifying: bool, steps: seq<Step>, i: nat, j: nat)
    requires Follows(modifying, steps) && i < j < |steps|
    ensures |GateFailures(steps[..i])| <= |GateFailures(steps[..j])|
    ensures |GateFailures(steps[..i])| == |GateFailures(steps[..j])| ==> Place(steps[i].action) < Place(steps[j].action)
  {
    StepFollows(modifying, steps, j);
    NextGoesForward(modifying, steps[..j], steps[j]);
    assert steps[..j][..j - 1] == steps[..j - 1];
    if i < j - 1 { CyclesGoForward(modifying, steps, i, j - 1); }
  }

  lemma NamesDiffer(a: Action, p: string, b: Action, q: string)
    requires Mark(a) != Mark(b) || p != q
    ensures StepId(a, p) != StepId(b, q)
  {
    var x, y := StepId(a, p), StepId(b, q);
    if Mark(a) != Mark(b) {
      assert x[3] == Mark(a) && y[3] == Mark(b);
    } else {
      assert x[|StepIdPrefix(a)|..] == p && y[|StepIdPrefix(b)|..] == q;
    }
  }

  /** No two steps of a run carry the same id, however many cycles there are. */
  lemma StepIdsAreDistinct(modifying: bool, operation: string, steps: seq<Step>, i: nat, j: nat)
    requires Follows(modifying, steps) && AreNamed(operation, steps) && i < j < |steps|
    ensures steps[i].operationId != steps[j].operationId
  {
    var a, b := |GateFailures(steps[..i])|, |GateFailures(steps[..j])|;
    assert IsNamed(operation, steps, i) && IsNamed(operation, steps, j);
    CyclesGoForward(modifying, steps, i, j);
    NothingAfterAdd(modifying, steps, i);
    if a < b { CorrectionPrefixesDiffer(operation, a, b); }
    NamesDiffer(steps[i].action, PrefixFor(operation, steps[i].action, a), steps[j].action, PrefixFor(operation, steps[j].action, b));
  }

  // ---------------------------------------------------------------- safety of every run

  /** Since the most recent write, which succeeded, validation and then the tests succeeded. */
  ghost predicate GatesPassedSinceWrite(steps: seq<Step>, i: nat)
    requires i <= |steps|
  {
    exists w, v, t :: 0 <= w < v < t < i
      && IsWrite(steps[w].action) && steps[w].answer.success
      && (forall j :: w < j < i ==> !IsWrite(steps[j].action))
      && steps[v].action == Validate && steps[v].answer.success
      && steps[t].action == RunTests && steps[t].answer.success
  }

  lemma FollowsPrefix(modifying: bool, steps: seq<Step>, k: nat)
    requires Follows(modifying, steps) && k <= |steps|
    ensures Follows(modifying, steps[..k])
  {
    forall i | 0 <= i < k ensures IsTurn(modifying, steps[..k], i) {
      assert IsTurn(modifying, steps, i) && steps[..k][..i] == steps[..i];
    }
  }

  /** What must have come just before each action that has a past. */
  lemma StepBefore(modifying: bool, steps: seq<Step>, i: nat)
    requires Follows(modifying, steps) && i < |steps|
    requires steps[i].action != ReadFile && steps[i].action != Generate
    ensures i > 0 && steps[i - 1].answer.success
    ensures steps[i].action == Add ==> steps[i - 1].action == RunTests
    ensures steps[i].action == RunTests ==> steps[i - 1].action == Validate
    ensures steps[i].action == Validate ==> IsWrite(steps[i - 1].action)
    ensures IsWrite(steps[i].action) ==>
      steps[i - 1].action == Generate && steps[i].content == steps[i - 1].answer.output
  {
    assert IsTurn(modifying, steps, i);
  }

  lemma NoGateFailedBefore(steps: seq<Step>, i: nat)
    requires i <= |steps|
    ensures GateFailures(steps[..i]) == [] <==> forall j :: 0 <= j < i ==> !FailedGateAt(steps)(j)
  {
    var places := Places(i, FailedGateAt(steps));
    GateFailuresAre(steps, i);
    PlacesAre(i, FailedGateAt(steps));
    assert |GateFailures(steps[..i])| == |places|;
    if places != [] { assert FailedGateAt(steps)(places[0]); }
  }

  /** What a run reads, generates and writes: a file is read at the start of a modification only; code is generated at
      the start, after that, or when a gate has failed; and a file is created only when it is not one to modify and
      nothing has been written before that a gate rejected. */
  lemma ReadsAndWrites(modifying: bool, steps: seq<Step>, i: nat)
    requires Follows(modifying, steps) && i < |steps|
    ensures steps[i].action == ReadFile <==> i == 0 && modifying
    ensures steps[i].action == Generate ==>
      if i == 0 then !modifying
      else FailedGateAt(steps)(i - 1) || (steps[i - 1].action == ReadFile && steps[i - 1].answer.success)
    ensures steps[i].action == CreateFile ==> !modifying && forall j :: 0 <= j < i ==> !FailedGateAt(steps)(j)
    ensures steps[i].action == ModifyFile ==> modifying || exists j :: 0 <= j < i && FailedGateAt(steps)(j)
  {
    StepFollows(modifying, steps, i);
    NoGateFailedBefore(steps, i);
  }

  lemma NothingAfterAdd(modifying: bool, steps: seq<Step>, i: nat)
    requires Follows(modifying, steps) && i + 1 < |steps|
    ensures steps[i].action != Add
  {
    assert IsTurn(modifying, steps, i + 1);
  }

  /** The four steps that come before git add. */
  lemma StepsBeforeAdd(modifying: bool, steps: seq<Step>, i: nat)
    requires Follows(modifying, steps) && i < |steps| && steps[i].action == Add
    ensures i >= 4 && steps[i - 1].action == RunTests && steps[i - 1].answer.success
    ensures steps[i - 2].action == Validate && steps[i - 2].answer.success
    ensures IsWrite(steps[i - 3].action) && steps[i - 3].answer.success
    ensures steps[i - 4].action == Generate && steps[i - 4].answer.success
    ensures steps[i - 3].content == steps[i - 4].answer.output
  {
    StepBefore(modifying, steps, i);
    StepBefore(modifying, steps, i - 1);
    StepBefore(modifying, steps, i - 2);
    StepBefore(modifying, steps, i - 3);
  }

  /** In every run git add is executed only when both gates have passed since the last write, and what
      that write wrote is what the generation just before it produced. */
  lemma AddIsGuarded(modifying: bool, steps: seq<Step>, i: nat)
    requires Follows(modifying, steps) && i < |steps| && steps[i].action == Add
    ensures GatesPassedSinceWrite(steps, i)
    ensures i >= 4 && steps[i - 4].action == Generate && steps[i - 4].answer.success
    ensures IsWrite(steps[i - 3].action) && steps[i - 3].content == steps[i - 4].answer.output
  {
    StepsBeforeAdd(modifying, steps, i);
    GatesInARow(steps, i);
  }

  lemma GatesInARow(steps: seq<Step>, i: nat)
    requires 3 <= i <= |steps| && IsWrite(steps[i - 3].action) && steps[i - 3].answer.success
    requires steps[i - 2].action == Validate && steps[i - 2].answer.success
    requires steps[i - 1].action == RunTests && steps[i - 1].answer.success
    ensures GatesPassedSinceWrite(steps, i)
  {
    var w, v, t := i - 3, i - 2, i - 1;
    forall j | w < j < i ensures !IsWrite(steps[j].action) { assert j == v || j == t; }
  }

  /** Git add ends the run: it is executed at most once, as the last step. */
  lemma AddIsLast(modifying: bool, steps: seq<Step>, i: nat)
    requires Follows(modifying, steps) && i < |steps| && steps[i].action == Add
    ensures i == |steps| - 1
  {
    if i + 1 < |steps| { NothingAfterAdd(modifying, steps, i); }
  }

  /** A successful result means that the last step staged code that passed both gates since its write. */
  lemma SuccessIsGuarded(modifying: bool, maxCorrections: int, r: Result, exit: Exit)
    requires RunIsRight(modifying, maxCorrections, r, exit) && r.success
    ensures r.steps != [] && r.steps[|r.steps| - 1].action == Add && r.steps[|r.steps| - 1].answer.success
    ensures GatesPassedSinceWrite(r.steps, |r.steps| - 1)
  {
    AddIsGuarded(modifying, r.steps, |r.steps| - 1);
  }

  /** Bounds and the limit exit, for every run. */
  lemma RunsAreBounded(modifying: bool, maxCorrections: int, r: Result, exit: Exit)
    requires RunIsRight(modifying, maxCorrections, r, exit)
    ensures |r.steps| <= 6 + 4 * (if maxCorrections > 0 then maxCorrections else 0)
    ensures exit == LimitExceeded <==> maxCorrections > 0 && |GateFailures(r.steps)| == maxCorrections + 1
  {
  }
}
