# Hermes, verified

A Dafny model of the deterministic cores of Hermes, the engine that plans, schedules, executes and reports on
engineering operations for businesses, with proofs of what those cores promise.

- **Scheduling.** `Operations`, `DependencyGraph`, `CycleDetection`, `ExecutionOrder`, `OperationPlanning`,
  `EngineeringPlanner`: the iterative depth-first cycle search and the in-degree ordering over one list of operations,
  batch planning, and the planner's cycle gate.
- **Business logs.** `TextWrap` and `WrapReading` (wrapping a cell, and what reading its lines gives), `TablePrinter`,
  `TableScan`, `TableParser`, `LineWords`, `TableRow`, `TableWriter`, `TableRoundTrip`, `TableTemplate` (fixed-width
  tables written into documents and read back), `OperationIds`, `BusinessRecords`, `OperationLogging`,
  `OperationNumbers` (identifiers, loading, and logging operation after operation).
- **Repository simulation.** `RepositoryManipulation`: the state machine over simulated files and directories.
- **Correction.** `CorrectionEngine`: the retry protocol against adapters whose answers are arbitrary.
- **Impact.** `ImpactGraph`, `ImpactEngine`, `RiskEngine`: the layered search and the risk inherited along it.
- **Budget, progress, routing, readiness.** `PromptCompression`, `OperationRuntime`, `ModelRouter`, `ReadinessEngine`,
  with `Rounding`.
- **Shared.** `Ordering` (string order, sorting, counting, places) and `Text` (trimming, splitting, joining, decimals).

`dafny verify dfyconfig.toml` verifies the whole project.

Code that the original writes with loops and updates is a method here, proved against a function or a predicate;
the properties are lemmas about those. The adapters, the path check, the context graph and the pattern for numbered
headings are parameters, and every theorem holds for all of them.

## What a table can hold

Cells are words separated by single spaces. A word holds no white space. A printed row is read back as data when no
word of it is `#`, `##` or made of dashes only, and not all cells are empty. A cell is then read back with the very
text written exactly when wrapping splits none of its words, and this can be told before writing
(`WrapReading.SplitsNoWord`): filling the lines with as many whole words as fit, there is always one that fits, and the
room left on each line is too small for the first unbreakable part of the next word. Break points inside words are a
parameter, so this holds for any rule; the platform wrapper's own rule is `TextWrap.HyphenBreaks`. A cell that fits on one
line is never split, and words without break points are split exactly when one is wider than the column.

## Findings

Each of these is a lemma about the model, with the exact condition beside it.

- With a repeated operation id the cycle search sees only the last definition, and the ordering counts the edges of all.
  `a: [b]`, `b: [a]`, `a: []` passes the planner's gate and nothing of it is ever ordered
  (`EngineeringPlanner.GateLetsRepeatedIdsThrough`; exactly when: `ExecutionOrder.AgreeExactlyWhen`).
- A decision appended to a log with a horizontal rule below its table is written behind the table and never read, as in
  `businesses/AKosmicAnimals/Decisions.md` (`TableTemplate.DecisionIsLost`; exactly when:
  `TableRoundTrip.RowIsReadExactlyWhen`). The operation writer, which wants boundaries indented, is not affected.
- A hyphenated word can come back with a space in it: "Run the go-to-market plan" does, in a column of fifteen
  (`WrapReading.HyphenatedTitle`; exactly when: `WrapReading.CellRoundTrip`).
- After number 999 every operation gets the identifier `OPS-1000`, which the scan reads as `OPS-100`; the second such
  operation is written and never loaded (`OperationLogging.SecondAtLimitIsLost`; exactly when:
  `OperationLogging.LoadsExactlyWhen`). One entry that mentions `OPS-999` brings an empty log there
  (`OperationNumbers.LimitIsReached`); how many entries have numbers left can be told before any is written
  (`OperationNumbers.StaysBelowExactlyWhen`, `OperationNumbers.RoomExactlyWhen`).
- An outcome classification without further text is lost when the log is read again
  (`BusinessRecords.ClassificationReloads`).
- A path with an empty component is accepted and leaves a file whose literal parent is no directory
  (`RepositoryManipulation.UncleanPathLosesAncestor`; exactly when: `RepositoryManipulation.AncestorsKeptExactlyWhen`).
- Of two operations with one id and one path, one is neither planned nor reported
  (`RepositoryManipulation.SharedIdLosesAnOperation`; exactly when: `RepositoryManipulation.OneAnswerEachExactlyWhen`).
- The impact report raises `cycle_detected` on a graph without any cycle, when two paths meet
  (`ImpactGraph.DiamondIsFlagged`; exactly when: `ImpactGraph.CycleFlagExactly`).
- A procedure of two hundred steps or more reads 100 % before its last step
  (`OperationRuntime.HundredMeansFinishedExactlyWhen`), and a readiness category can score 100 with issues
  (`ReadinessEngine.ConfiguredCategory`).
- When no fitting model obeys a hard locality policy, the model that is selected is listed among the rejected ones too
  (`ModelRouter.SelectedIsRejectedExactlyWhen`).
- Budget enforcement can leave a whole marker more than the budget, and more than there was before it: a request of 10
  characters and standards of 26 become 57 with a budget of 22 (`PromptCompression.MarkerIsOverBudget`; exactly when:
  `PromptCompression.KeptExactlyWhen`).
- A prompt of only a header is sent however long it is (`PromptCompression.UntouchedExactlyWhen`, the exact condition).
- `determine_execution_order` says that a cycle omits "cycled nodes"; it omits everything that depends on one, too
  (`ExecutionOrder.OrderHoldsTheUncycled`).

## Model

| member | source | states |
|---|---|---|
| CycleDetection.DetectCycle | src/hermes/kernel/operation_engine.py:211-270 | Ends on every list, and finds a cycle exactly when some operation reaches itself through in-set dependencies of the last definitions. |
| CycleDetection.SearchFrom | src/hermes/kernel/operation_engine.py:246-267 | From one start: a cycle found is one; otherwise the start is visited and what is visited stays a topological, closed prefix, with `in_path` the entered nodes of the stack throughout. |
| ExecutionOrder.DetermineExecutionOrder | src/hermes/kernel/operation_engine.py:284-349 | The order lists distinct operations, each when all it needs is done, before every other that could run then with a greater sequence index, or the same and a later id; and it goes on until none can run. |
| ExecutionOrder.OrderInPlainTerms | src/hermes/kernel/operation_engine.py:284-349 | The order that in-degree counting gives is exactly the one stated on the operations themselves, last definitions and all dependencies included. |
| ExecutionOrder.OrderHoldsTheUncycled | src/hermes/kernel/operation_engine.py:310-349 | The order holds exactly the operations that do not depend, however remotely, on a cycle; dependencies may be repeated. |
| ExecutionOrder.CompleteExactlyWhenAcyclic | src/hermes/kernel/operation_engine.py:284-349 | The order holds every operation exactly when the dependencies of all definitions together have no cycle. |
| ExecutionOrder.AgreeExactlyWhen | src/hermes/kernel/operation_engine.py:211-349 | For any list, cycle search and ordering agree exactly when a cycle among all definitions leaves one among the last definitions. |
| ExecutionOrder.AgreementForDistinctIds | src/hermes/kernel/operation_engine.py:211-349 | For distinct ids no cycle is found exactly when the order is a full one, listing each operation once. |
| ExecutionOrder.OrderIgnoresListing | src/hermes/kernel/operation_engine.py:325-349 | For distinct ids the order does not depend on how the operations are listed. |
| OperationPlanning.ValidateDependencies | src/hermes/kernel/operation_engine.py:122-207 | Each kind of dependency error is reported exactly when there is such a dependency; none when they are distinct, not blank and not the operation itself. |
| OperationPlanning.Validate | src/hermes/kernel/operation_engine.py:122-207 | Each kind of error is reported exactly when it applies; none exactly for a well-formed operation. |
| OperationPlanning.PlanAll | src/hermes/kernel/operation_engine.py:422-483 | One result for each operation, in order, with the status that validity, the set's cycle and its completed dependencies give it. |
| OperationPlanning.TurnIsReady | src/hermes/kernel/operation_engine.py:274-349 | Executing a sound acyclic set in its order, each operation is unblocked at its turn and batch planning on the completed prefix calls it ready; of the operations then ready it has the smallest sequence index, and among those the first id. |
| OperationPlanning.OrderCompletesTheSet | src/hermes/kernel/operation_engine.py:284-349 | The order of a sound acyclic set holds every operation once, so executing it leaves nothing. |
| OperationPlanning.ChainOrder | src/hermes/kernel/operation_engine.py:284-349 | A chain of dependencies is ordered as the chain. |
| EngineeringPlanner.PlanOperations | src/hermes/kernel/engineering_planner.py:221-278 | The first proposal with a fault is reported with its first fault, by its fields; otherwise all are planned with their own fields and their non-empty dependencies, and a plan comes out exactly without the cycle that the gate looks for. |
| EngineeringPlanner.GateGivesTotalOrder | src/hermes/kernel/engineering_planner.py:263-278 | A plan that passes the gate with distinct ids is ordered completely, each operation after those it depends on. |
| EngineeringPlanner.GateGivesCompleteOrderExactlyWhen | src/hermes/kernel/engineering_planner.py:263-278 | Whatever its ids, a plan that passes the gate is ordered completely exactly when all its definitions together have no cycle. |
| EngineeringPlanner.GateLetsRepeatedIdsThrough | src/hermes/kernel/engineering_planner.py:226-278 | A concrete plan with a repeated id passes the gate although none of its operations can be ordered. |
| WrapReading.WrapThenRead | src/hermes/kernel/operation_writer.py:28-33 | Greedy wrapping of words in unbreakable parts, read back line by line, gives the text again exactly when no word is split, and otherwise a longer one. |
| WrapReading.CellRoundTrip | src/hermes/kernel/operation_writer.py:28-33 | A cell of words comes back exactly when wrapping splits none of them, for every rule of break points. |
| WrapReading.UnbreakableCell | src/hermes/kernel/operation_writer.py:28-33 | Without break points inside its words a cell is split exactly when a word is wider than the column. |
| WrapReading.EarlyBreakSplits | src/hermes/kernel/operation_writer.py:28-33 | A word that does not fit, with a break point within the room left, is split. |
| WrapReading.HyphenatedTitle | src/hermes/kernel/operation_writer.py:28-33 | With the platform wrapper's break points a concrete title does not come back from a column of fifteen. |
| WrapReading.NumberedTitle | src/hermes/kernel/operation_writer.py:28-33 | Under the platform wrapper's break points a hyphen after a digit is none: "see a-1-abc" comes back from a column of nine. |
| TextWrap.CellFits | src/hermes/kernel/operation_writer.py:28-33 | No line of a wrapped cell is wider than its column. |
| TextWrap.LineIsFilled | src/hermes/kernel/operation_writer.py:28-33 | A line holds as many chunks as fit; a chunk that fits on no line fills it up, but for a hyphen in the way. |
| TextWrap.CutIsAt | src/hermes/kernel/operation_writer.py:28-33 | Such a chunk is cut after the last hyphen there is room for, when something other than hyphens stands before it. |
| TextWrap.CompoundBreaks | src/hermes/kernel/operation_writer.py:28-33 | Two words of letters with a hyphen between are broken after it exactly when both have two letters. |
| TextWrap.SingleLettersBreak | src/hermes/kernel/operation_writer.py:28-33 | Single letters between hyphens are kept with what stands before them. |
| TextWrap.DigitsDoNotBreak | src/hermes/kernel/operation_writer.py:28-33 | A digit beside the hyphen, or one letter away, prevents a break. |
| TextWrap.DashesBreak | src/hermes/kernel/operation_writer.py:28-33 | Two dashes or more between words stand by themselves. |
| TextWrap.DashesBreakAfter | src/hermes/kernel/operation_writer.py:28-33 | Exactly which characters must stand on either side. |
| TablePrinter.FormatRow | src/hermes/kernel/operation_writer.py:36-81 | The padding and joining loops print the lines that put every cell's pieces in fixed columns. |
| TablePrinter.SliceGivesPiece | src/hermes/kernel/operation_writer.py:70-79 | Cutting a printed line at a column's position gives that column's piece, but for spaces around it. |
| TableParser.ParseColumnBoundaries | src/hermes/kernel/business_data_loader.py:110-124 | The column bounds are all maximal runs of dashes of the separator, from left to right. |
| TableParser.ParseTable | src/hermes/kernel/business_data_loader.py:127-217 | The scans, the grouping by blank lines and the column slicing give the rows of the table under the heading, and none without such a table. |
| TableScan.FoundExactlyWhere | src/hermes/kernel/business_data_loader.py:127-170 | The table is where the first title, the first heading or separator after it, the last written line between them and the first end of table after that are. |
| TableScan.BlankSeparates | src/hermes/kernel/business_data_loader.py:186-204 | A blank line separates rows and belongs to none. |
| TableScan.OneGroup | src/hermes/kernel/business_data_loader.py:186-204 | Lines without a blank one among them are one row. |
| TableParser.HeadingKinds | src/hermes/kernel/business_data_loader.py:127-180 | One or two number signs and a space make a heading; three, or none of the space, do not. |
| TableRow.RowRoundTrip | src/hermes/kernel/decision_writer.py:36-82 | The cells read back from a printed row are those written exactly when wrapping splits none of its words. |
| TableRow.RowIsPlain | src/hermes/kernel/business_data_loader.py:175-205 | No line of a row in the domain is blank, a heading or a rule: the reader takes each for data. |
| TableWriter.Document.AppendRow | src/hermes/kernel/operation_writer.py:85-161 | Without the heading no section, without a boundary before the next heading no table, and otherwise a blank line and the row before the last such boundary; on errors the document stays. |
| TableWriter.DashLineIs | src/hermes/kernel/decision_writer.py:100-120 | A boundary for the writers is a line of dashes and spaces with ten dashes at least. |
| TableRoundTrip.AppendedRowIsRead | src/hermes/kernel/operation_writer.py:85-161 | A row of data lines appended to a well-formed document is read as one more row, after the old ones, with the cells that come back from its lines; the document stays well-formed. |
| TableRoundTrip.WriteThenRead | src/hermes/kernel/business_data_loader.py:127-217 | For a row in the domain the rows read are the old ones and one with the very cells written, and the document is ready for the next. |
| TableRoundTrip.RowIsReadExactlyWhen | src/hermes/kernel/decision_writer.py:100-138 | When the data ends at a boundary, an appended row is read exactly when no later boundary stands in the section; otherwise the rows read stay as they were. |
| TableTemplate.RuleBelowTheTable | src/hermes/kernel/decision_writer.py:100-120 | In every document with a rule below its table the operation writer's row is read and the decision writer's is not. |
| TableTemplate.DecisionIsLost | src/hermes/kernel/decision_writer.py:86-138 | A concrete empty decision log gets longer by an append, and no row is read from it before or after. |
| TableTemplate.DashLineKinds | src/hermes/kernel/business_data_loader.py:175-185 | A line of n dashes ends a table for the reader from four on, and is a boundary for the writers from ten on. |
| OperationIds.GenerateId | src/hermes/kernel/operation_id_bk.py:15-27 | The scan over non-overlapping matches gives one more than the greatest three-digit number anywhere in the text. |
| OperationIds.NextIdIsNew | src/hermes/kernel/operation_id_bk.py:21-27 | Below 999 the next identifier occurs nowhere in the document. |
| OperationIds.FourDigitsReadAsThree | src/hermes/kernel/operation_id_bk.py:22-23 | The scan reads OPS-1000 as number 100. |
| BusinessRecords.LoadRows | src/hermes/kernel/business_data_loader.py:853-937 | The loading loop keeps rows and gives warnings as the row-by-row rules say. |
| BusinessRecords.KeptExactlyWhen | src/hermes/kernel/business_data_loader.py:866-899 | A row is kept exactly when it has an identifier, the first of its kind, and all its required columns. |
| BusinessRecords.KeptIdsAreDistinct | src/hermes/kernel/business_data_loader.py:866-877 | The rows kept have distinct identifiers. |
| BusinessRecords.LoadOperations | src/hermes/kernel/business_data_loader.py:853-937 | Exactly the rows with a new identifier, an operation and a status are loaded, in order and column by column; each of the others, and each unknown status, gives its warning, which names exactly the empty columns. |
| BusinessRecords.LoadDecisions | src/hermes/kernel/business_data_loader.py:650-712 | Exactly the rows with a new identifier, a decision, a date, a status and an expected impact are loaded, in order and column by column; each of the others, and each unknown status, gives its warning, which names exactly the empty columns. |
| BusinessRecords.StatusRoundTrip | src/hermes/kernel/business_data_loader.py:63-65 | A status written for display is read back as itself exactly when it is small, without spaces, and has no underscore or white space at its ends. |
| BusinessRecords.DisplayIs | src/hermes/kernel/operation_writer.py:130-137 | A status of small words joined by underscores is displayed as those words, each with a capital. |
| Text.CasesAre | src/hermes/kernel/business_data_loader.py:63-65 | Which characters have a small and a large form, and which form. |
| Text.StripOf | src/hermes/kernel/business_data_loader.py:63-65 | Trimming takes the white space off both ends, and nothing else. |
| BusinessRecords.ClassificationReloads | src/hermes/kernel/operation_writer.py:138-144 | A classified outcome is classified again on reading exactly when it has text besides the class. |
| OperationLogging.RowIdIsHeld | src/hermes/kernel/business_data_loader.py:205-217 | An identifier read in some row is literally in the document's text. |
| OperationLogging.LogOne | src/hermes/kernel/operation_writer.py:85-161 | Logging an entry under the next identifier gives a ready document that loads as one operation more exactly when no row had that identifier. |
| OperationLogging.RepeatedAppends | src/hermes/kernel/operation_id_bk.py:15-27 | Logging any number of entries while numbers last loads the old operations followed by one for each entry, in order, under new and distinct identifiers. |
| OperationLogging.LoadedIdsAreDistinct | src/hermes/kernel/business_data_loader.py:866-877 | From any document whatever the operations loaded have distinct identifiers. |
| OperationLogging.LoadsExactlyWhen | src/hermes/kernel/business_data_loader.py:866-877 | An entry loads as a new operation exactly when a number is left, or no row has OPS-1000 yet. |
| OperationLogging.SecondAtLimitIsLost | src/hermes/kernel/operation_id_bk.py:21-27 | Of two entries logged at the limit the second is written as a row and never loaded. |
| OperationLogging.EmptyLogIsReady | src/hermes/kernel/business_data_loader.py:853-865 | An empty operation log with a rule below its table is ready to be written and read. |
| OperationNumbers.NumberIsAfter | src/hermes/kernel/operation_id_bk.py:15-27 | Logging an entry in any ready document raises its greatest number to the next one or to the greatest the entry's words name, whichever is larger, and at 999 leaves it. |
| OperationNumbers.StaysBelowExactlyWhen | src/hermes/kernel/operation_id_bk.py:15-27 | Numbers last for a list of entries exactly when the number computed from the document's greatest and the entries before the last is below 999. |
| OperationNumbers.RoomExactlyWhen | src/hermes/kernel/operation_id_bk.py:15-27 | For entries that name no number above the next, numbers last exactly when the greatest number and the entries together are at most 999. |
| OperationNumbers.LimitIsReached | src/hermes/kernel/operation_id_bk.py:21-27 | One entry that mentions OPS-999 leaves an empty log ready with greatest number 999. |
| RepositoryManipulation.Simulator.ProcessOperation | src/hermes/kernel/repository_manipulation.py:229-470 | Each kind of conflict is reported exactly under its own condition, and nothing changes then; an accepted operation gives the change with its own paths and right flags, and every path fares as its kind says. |
| RepositoryManipulation.MakePlan | src/hermes/kernel/repository_manipulation.py:92-172 | First a conflict for every operation that repeats the kind and path of an earlier one, then, in turn, the answer to every operation that shares no id with those, each in the state the others left; valid exactly without conflicts. |
| RepositoryManipulation.NormalisedPathIs | src/hermes/kernel/repository_manipulation.py:487-497 | White space and then slashes of either kind go from around a path, and backslashes inside it become slashes. |
| RepositoryManipulation.NoPathIs | src/hermes/kernel/repository_manipulation.py:487-497 | White space around slashes is no path. |
| RepositoryManipulation.ParentIs | src/hermes/kernel/repository_manipulation.py:500-503 | A parent directory is named by the components that are neither empty nor a dot, but for the last. |
| RepositoryManipulation.UnderIsTextPrefix | src/hermes/kernel/repository_manipulation.py:432-452 | The text test for lying under a directory is the test on components. |
| RepositoryManipulation.FlagsAreRight | src/hermes/kernel/repository_manipulation.py:265-470 | Each change's creates, removes and modifies flags match the states before and after. |
| RepositoryManipulation.AncestorsKeptExactlyWhen | src/hermes/kernel/repository_manipulation.py:510-514 | An accepted change keeps every path's ancestors present exactly when a file it adds has its literal parent among the directories. |
| RepositoryManipulation.RunKeepsAncestors | src/hermes/kernel/repository_manipulation.py:127-172 | On clean paths ancestors are present after every step of a plan. |
| RepositoryManipulation.UncleanPathLosesAncestor | src/hermes/kernel/repository_manipulation.py:265-294 | A concrete unclean path is accepted and breaks that. |
| RepositoryManipulation.ReplayGivesFinalState | src/hermes/kernel/repository_manipulation.py:127-172 | Folding only the changes of a plan over the initial state gives the final simulated state. |
| RepositoryManipulation.ReplanningKeptIsValid | src/hermes/kernel/repository_manipulation.py:92-172 | Planning again without the rejected operations is valid and gives the same changes. |
| RepositoryManipulation.OneAnswerEachExactlyWhen | src/hermes/kernel/repository_manipulation.py:127-172 | Every operation gets exactly one change or conflict exactly when none shares its id with a repeated one without being one. |
| RepositoryManipulation.DistinctIdsGetOneAnswerEach | src/hermes/kernel/repository_manipulation.py:127-172 | Distinct ids are enough for that. |
| RepositoryManipulation.SharedIdLosesAnOperation | src/hermes/kernel/repository_manipulation.py:127-160 | Two concrete operations with one id get one answer between them. |
| CorrectionEngine.ExecuteOperation | src/hermes/kernel/correction_engine.py:752-1076 | For all adapter answers the run follows the protocol, its steps carry the ids of their actions and cycles, and its result, error, log and exit are those of the protocol. |
| CorrectionEngine.CorrectionLoop | src/hermes/kernel/correction_engine.py:886-1076 | Each cycle is logged under the gate failure that ended the one before; the loop ends in staging, in another failure, or at the limit. |
| CorrectionEngine.LogTellsFailures | src/hermes/kernel/correction_engine.py:738-748 | In every run record k is numbered k + 1 and names the gate of the k-th step at which a gate failed, with the first 2000 characters of what that step said. |
| CorrectionEngine.ReadsAndWrites | src/hermes/kernel/correction_engine.py:773-1000 | A file is read at the start of a modification only, code is generated at the start, after that or when a gate failed, and a file is created only before any gate failure and when none is to be modified. |
| CorrectionEngine.StepIdsAreDistinct | src/hermes/kernel/correction_engine.py:908-1062 | No two steps of a run carry the same id, however many cycles there are. |
| CorrectionEngine.PipelineOrder | src/hermes/kernel/correction_engine.py:813-820 | The pipelines are chains, so that the order their steps are executed in is the pipeline's. |
| CorrectionEngine.AddIsGuarded | src/hermes/kernel/correction_engine.py:908-1062 | Staging is executed only right after validation and tests both succeeded, in that order, on the most recent write of freshly generated content. |
| CorrectionEngine.AddIsLast | src/hermes/kernel/correction_engine.py:908-1062 | Nothing is executed after staging. |
| CorrectionEngine.SuccessIsGuarded | src/hermes/kernel/correction_engine.py:850-1062 | A successful result ends with a successful staging of code that passed both gates. |
| CorrectionEngine.RunsAreBounded | src/hermes/kernel/correction_engine.py:886-1076 | At most 6 + 4·max(0, max_corrections) steps; the limit exit is taken exactly when every allowed cycle ended in a gate failure. |
| ImpactGraph.SearchIsLayered | src/hermes/context/impact_engine.py:260-349 | An object at some distance through resolvable objects is on the frontier at that depth and at no smaller one. |
| ImpactGraph.ListedAtDistance | src/hermes/context/impact_engine.py:260-349 | A resolvable object within the depth is listed at its distance and never nearer. |
| ImpactGraph.ListedExactlyWhen | src/hermes/context/impact_engine.py:260-349 | An object is listed exactly when it is not the source, can be resolved, and a walk no longer than the depth leads to it. |
| ImpactGraph.EntriesCarryWalks | src/hermes/context/impact_engine.py:382-431 | Every listing at a depth carries a path of as many real edges from the source. |
| ImpactGraph.ListedDeeperAtMostOnce | src/hermes/context/impact_engine.py:334-349 | Beyond the first layer no object is listed twice. |
| ImpactGraph.NoneListedThreeTimes | src/hermes/context/impact_engine.py:274-349 | Without repeated relations the source is never listed and no object more than twice. |
| ImpactGraph.CycleThroughSourceIsFlagged | src/hermes/context/impact_engine.py:274-349 | A cycle through the source within the depth raises the flag. |
| ImpactGraph.CycleFlagExactly | src/hermes/context/impact_engine.py:274-431 | Without repeated relations the flag stays down exactly when, within the depth, no walk returns to the source and no two walks of two edges or more meet. |
| ImpactGraph.DiamondIsFlagged | src/hermes/context/impact_engine.py:334-349 | A concrete graph without cycles raises the flag. |
| ImpactEngine.Analyze | src/hermes/context/impact_engine.py:211-380 | Listed is exactly what is not the source, can be resolved, and is reached by a walk no longer than the depth asked for, kept between one and five; each entry carries such a walk, the flag is up exactly when walks within the depth meet, and levels are the inherited ones. |
| ImpactEngine.PropagateInheritedRisk | src/hermes/context/impact_engine.py:440-489 | After the bottom-up pass every level is the maximum over the object's descendants in the discovery forest, itself included, of the scored level less the difference in depth, never below none. |
| ImpactEngine.InheritedIsNoLower | src/hermes/context/impact_engine.py:440-489 | No level drops. |
| ImpactEngine.ListingsAreForest | src/hermes/context/impact_engine.py:296-349 | What the search lists is a forest by its paths. |
| RiskEngine.ApplyBoosts | src/hermes/context/risk_engine.py:379-421 | Each kind of notice raises the level by one, and never above critical. |
| RiskEngine.KindsCountAlike | src/hermes/context/risk_engine.py:379-421 | The kinds of notices count alike, once each, up to critical. |
| RiskEngine.PropagateRisk | src/hermes/context/risk_engine.py:294-311 | The effective level is the greatest of the own one and each dependency's less one. |
| PromptCompression.ApplyBudget | src/hermes/kernel/prompt_compression.py:379-456 | The sections that fit are returned as they are; otherwise truncation in priority order leaves the result and the list of omitted sections. |
| PromptCompression.BudgetIsKept | src/hermes/kernel/prompt_compression.py:406-456 | Section order is kept, all sections below some priority are gone, and what is left exceeds the budget by one marker at most or is only the header. |
| PromptCompression.KeptExactlyWhen | src/hermes/kernel/prompt_compression.py:389-456 | What is sent on is within the budget exactly when everything fits, or the header fits and, should the budget end inside a section, the last line break of what fits of it lies past the first character and leaves room for the marker. |
| PromptCompression.SizeWithCut | src/hermes/kernel/prompt_compression.py:433-452 | When the budget ends inside a section, the exact size of what is sent on: everything above it, and that section cut. |
| PromptCompression.MarkerIsOverBudget | src/hermes/kernel/prompt_compression.py:433-452 | Two concrete sections of 36 characters become 22 and a whole marker under a budget of 22. |
| PromptCompression.TouchedInOrder | src/hermes/kernel/prompt_compression.py:406-452 | A section is touched only when every one of lower priority is gone; at most one is partly cut; the header is unchanged. |
| PromptCompression.UntouchedExactlyWhen | src/hermes/kernel/prompt_compression.py:389-456 | The sections are unchanged exactly when they fit or there is only a header. |
| PromptCompression.OmittedAreGone | src/hermes/kernel/prompt_compression.py:414-432 | Reported as omitted are exactly the sections that are gone, by priority. |
| PromptCompression.PrioritiesAre | src/hermes/kernel/prompt_compression.py:71-84 | Standards go first, then contracts, business knowledge, capabilities and architecture. |
| PromptCompression.CutIsAt | src/hermes/kernel/prompt_compression.py:433-442 | A cut section ends before its last line break within the room, if that is past the first character, and otherwise where the room does. |
| OperationRuntime.ParseSteps | src/hermes/kernel/operation_runtime.py:47-90 | The steps are the section's headings in order, each under the first free form of its slug; their ids are distinct and the search for them ends. |
| OperationRuntime.HeadingsAre | src/hermes/kernel/operation_runtime.py:47-90 | The headings are those read between the first line that opens the section and the next that ends it. |
| OperationRuntime.SlugIs | src/hermes/kernel/operation_runtime.py:39-44 | A slug is the words of letters and digits of a title, small and joined by dashes. |
| OperationRuntime.SlugChars | src/hermes/kernel/operation_runtime.py:39-44 | Which characters make up those words. |
| OperationRuntime.Operation.CompleteStep | src/hermes/kernel/operation_runtime.py:127-174 | The record changes exactly when the step is the first one not done, and then only there; unknown steps are not found, steps out of turn are answered with the one that comes first, and all others with the progress made. |
| OperationRuntime.RunsCompletePrefixes | src/hermes/kernel/operation_runtime.py:93-174 | In every run of requests the completed steps are the first ones, as many as requests took effect, the current step is the next, and the end comes with exactly as many effective requests as steps. |
| Rounding.HundredExactlyWhen | src/hermes/kernel/operation_runtime.py:104-107 | A rounded percentage reads 100 exactly when at most one in two hundred is missing. |
| Rounding.RoundedIsNearest | src/hermes/kernel/operation_runtime.py:104-107 | Percentages are rounded to a nearest whole number, and of two to the even one. |
| OperationRuntime.HundredMeansFinishedExactlyWhen | src/hermes/kernel/operation_runtime.py:104-107 | A percentage of 100 tells a finished procedure exactly when it has fewer than two hundred steps. |
| ModelRouter.Route | src/hermes/kernel/model_router.py:146-303 | The selected model is the first of the ranking, the fallbacks the slice after it (negative limits included), with their scores; the rejected models are those too small or excluded. |
| ModelRouter.Score | src/hermes/kernel/model_router.py:314-387 | Every score lies between 0 and 100. |
| ModelRouter.LocalityScore | src/hermes/kernel/model_router.py:314-345 | Locality is worth 35 points under a policy with a preference, and none under the others. |
| ModelRouter.WindowScore | src/hermes/kernel/model_router.py:343-353 | How many points room for a quarter, half, three quarters and all of the window is worth. |
| ModelRouter.CostScore | src/hermes/kernel/model_router.py:354-373 | How many points a cost tier is worth, for the cheapest policy and against the others. |
| ModelRouter.LatencyScore | src/hermes/kernel/model_router.py:354-373 | How many points a latency tier is worth. |
| ModelRouter.CapabilityPoints | src/hermes/kernel/model_router.py:375-386 | How many points the capabilities a policy looks for are worth. |
| ModelRouter.RankedIsRight | src/hermes/kernel/model_router.py:212-219 | The ranking holds each candidate once, by score descending and then id. |
| ModelRouter.RankedByScore | src/hermes/kernel/model_router.py:213-218 | An earlier model scores more, or as much with an identifier that comes first. |
| ModelRouter.FallbacksAre | src/hermes/kernel/model_router.py:240-241 | The fallbacks are the models ranked next, as many as asked for; what a negative number gives. |
| ModelRouter.RankingIgnoresOrder | src/hermes/kernel/model_router.py:166-249 | For distinct ids the ranking, and with it selection, fallbacks and scores, does not depend on the registry's order. |
| ModelRouter.RankedObeyExactlyWhen | src/hermes/kernel/model_router.py:186-208 | All ranked models fit; they obey a hard locality policy exactly when some fitting model does, or none is ranked. |
| ModelRouter.SelectedIsRejectedExactlyWhen | src/hermes/kernel/model_router.py:186-208 | The selected model is also reported as excluded exactly when no fitting model obeys. |
| ReadinessEngine.EvaluateCategory | src/hermes/context/readiness_engine.py:583-682 | The rule loops judge every object once, by its first blocker, else its first warning, else as healthy. |
| ReadinessEngine.ResultIs | src/hermes/context/readiness_engine.py:583-683 | The blockers and warnings are exactly the first rules that the objects show, blockers before warnings, and the score is the nearest whole percentage of healthy objects. |
| ReadinessEngine.UnconfiguredCategory | src/hermes/context/readiness_engine.py:583-683 | A category without its runtime warns of that alone and scores nothing. |
| ReadinessEngine.ConfiguredCategory | src/hermes/context/readiness_engine.py:617-682 | Checked is healthy plus blockers plus warnings; ready means a score of 100; and 100 means ready exactly unless issues are at most one in two hundred. |
| ReadinessEngine.Evaluate | src/hermes/context/readiness_engine.py:464-547 | Score, readiness, issues and checklist of a scenario. |
| ReadinessEngine.OverallIsMean | src/hermes/context/readiness_engine.py:464-547 | The overall score is nearest to the weighted mean. |
| ReadinessEngine.SumsConcat | src/hermes/context/readiness_engine.py:464-547 | Weights and weighted scores add up over the categories. |
| ReadinessEngine.IssuesAreReported | src/hermes/context/readiness_engine.py:464-547 | A report has exactly the issues of its categories. |
| ReadinessEngine.OverallIsBetween | src/hermes/context/readiness_engine.py:507-513 | Despite two roundings the overall score lies between the least and the greatest category score. |
| ReadinessEngine.NotReadyExactlyWhen | src/hermes/context/readiness_engine.py:515-527 | A scenario is not ready exactly when some blocker is reported. |
| ReadinessEngine.ChecklistIsRanked | src/hermes/context/readiness_engine.py:733-780 | The checklist has a numbered item for every category of the scenario, with its result, heavier ones first and those of one weight in the order given. |

## Left out

- TextWrap.WrapCell: texts with tabs or white space other than the space, which the platform wrapper first turns into spaces.
- TextWrap.HyphenBreaks: which characters are letters or digits is a parameter, not the Unicode tables.
- OperationIds.GenerateId: digits are the ASCII ones.
- BusinessRecords.StatusRoundTrip: letters are the ASCII ones, in lower and title case.
- BusinessRecords.LoadRows: the date text is kept as written, not turned into a timestamp; warning texts are constructors.
- TableWriter.Document.AppendRow: the file's encoding and line-end translation; the document is its text.
- OperationRuntime.ParseSteps: the pattern for numbered headings is a parameter; slugs lower ASCII letters only.
- Rounding.HundredExactlyWhen: the percentage is rounded from the exact quotient, not from a floating-point one.
- ReadinessEngine.ConfiguredCategory: the score is rounded from the exact quotient, not from a floating-point one.
- ReadinessEngine.Evaluate: enriching operations by heartbeats, counting critical dependencies, and the categories outside the scenario.
- ModelRouter.Route: reasons of the selected model, and display fields of the decision.
- PromptCompression.ApplyBudget: rendering of sections, reports and recommended budgets.
- ImpactEngine.Analyze: names, reasons, coverage counters and the summary; objects are grouped by type in the original.
- RiskEngine.ApplyBoosts: the scorers for the kinds of objects; an object's intrinsic level is given.
- CorrectionEngine.ExecuteOperation: prompts, payloads, the wording of the steps' goals and records of time; an adapter's answer is a success, an output and an error.
- RepositoryManipulation.MakePlan: scanning the file system and resolving paths in it; the initial state and the safety test of a path are given.
- EngineeringPlanner.PlanOperations: the model call, the JSON text and the checks on confidence and basis before the operations.
- Git, Docker, language-model, file-system and validation adapters, the gateway, services, stores, configuration and the command line.
- The resolvers of the context graph; the graph is any function from objects to their relations.
- Goals, KPIs, bottlenecks, opportunities, experiments and lessons: loaders of the same shape as those for operations and decisions.
- Selecting context documents, ranking decisions, jobs and lifecycles, which are easier versions of the budget, ranking and state machines here.
