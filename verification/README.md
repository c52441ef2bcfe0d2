# A verified model of the SRE operator's decision logic

The project models three parts of the operator in Dafny and proves what they promise.

**Remediation workflows.** A workflow is a list of named steps with dependencies. `Kahn.dfy` is the topological sort
with its maps, queue and counter; the order in which the in-degree map is iterated is arbitrary. `Runner.dfy` is one
call of the runner on a persisted status object that it updates in place. `Semantics.dfy` says what such a call means
without mentioning any order: `Value` is a recursion over dependencies (well founded because a dependency has fewer
ancestors than its dependent, `Dag.dfy`), and `RunOnce` is the whole effect on the status. `Runner.Run` is proved to
have exactly that effect, and `Runs.dfy` proves what follows for any number of calls, any order picked by each of
them, and any persisted status, including one whose entries do not match the steps. `Reconcile.dfy` calls the runner
repeatedly on one status and ties those results to it.

**Findings and retention.** `Findings.dfy` is the in-place insertion sort, the cap of 500, the count of resources
(taken after the sort has rearranged the findings) and the phase. `Retention.dfy` is the rotation of ConfigMaps with
deletions and listings that may fail, and histories of create-then-rotate cycles.

**Log collection.** `Logs.dfy` is the bounded filter over the lines of a container and the conversion of entries into
findings, deduplicated by a concatenated key; `Dedup.dfy` has the generic part.

Methods carry the source's loops and updates; a long one is cut into one method per loop. The clock and what the
cluster refuses to list, create or delete are parameters; map iteration order and the choice among equally old
ConfigMaps are arbitrary.
`ValidCalls` says of the calls of a run only that each order is one the sort can return.

## Where the code departs from what is written about it

- Two comments disagree on dependencies: `api/v1alpha1/srepolicy_types.go:64` says they must succeed,
  `docs/workflows-and-actions.md:14` that they must finish. The code does the latter and leaves success to the run
  condition.
- `docs/workflows-and-actions.md:17` says an OnFailure step runs if a dependency fails. In the code it also runs when a
  dependency was only skipped, and when there are no dependencies (`Runs.ConditionsHonoured`).
- Executing every step at most once fails for a status whose entries lack a step, for instance after a step was added
  between two calls: `Runs.EditedWorkflowRepeats` is such a run, `Runs.AtMostOnceIff` the exact condition,
  `Runs.CoveredAtMostOnce` the guard a caller can check, and `Runs.ExecutionCounts` the number of executions in every
  case.
- A terminal state is not always kept: a rejected workflow turns a Succeeded status into Failed
  (`Runs.DuplicateNameOverturnsVerdict`; the exact condition is `Runs.VerdictFinalIff`).
- A step with an unrecognised run condition is never finished and never reported (`Runs.MisspeltConditionSticks`);
  `Runs.StuckInRuns` says exactly which steps are lost with it or with a step that has no entry.
- An entry in a state outside the named ones counts as a satisfied dependency (`Runs.ConditionsHonoured`).
- The phase can be Active while a finding is Failed: below the cap when an earlier finding concerns the same resource
  (`Findings.FailureHiddenBelowCap`), above it when a status is not in the rank table
  (`Findings.FailureHiddenByUnlistedStatus`). `Findings.PhaseIff` is the exact condition for all inputs.
- Stripping the time stamp also removes the first word of any long line with a `T` in column 10
  (`Logs.StripUnchangedIff`).

## Model

| member | source | states |
|---|---|---|
| Workflow.SucceedsIffArgumentsGiven | internal/remediation/remediation.go:46-79 | a step's execution succeeds exactly when every argument its action requires is present and nonempty |
| Workflow.ExecutionErrors | internal/remediation/remediation.go:46-79 | which missing arguments make which action fail, and with which error text |
| Dag.AncestorsShrink | internal/remediation/remediation.go:258-261 | without closed dependency paths a dependency has strictly fewer ancestors than its dependent |
| Dag.NoSelfSupportingSet | internal/remediation/remediation.go:293-295 | without closed dependency paths no nonempty set of names can all depend into itself |
| Dag.OrderImpliesAccepted | internal/remediation/remediation.go:293-297 | a workflow that can be ordered has unique names, no dangling dependency and no closed dependency path |
| Dag.AcceptedIffOrdered | internal/remediation/remediation.go:248-298 | exactly the workflows without duplicates, dangling dependencies or closed paths can be ordered |
| Kahn.RemainingDone | internal/remediation/remediation.go:285-286 | dequeuing a name lowers the remaining count of another by the dependency occurrences between them |
| Kahn.RemainingZero | internal/remediation/remediation.go:287 | the remaining count of a name is zero exactly when all dependencies of the steps so called are dequeued |
| Kahn.BuildGraph | internal/remediation/remediation.go:249-262 | for any input the adjacency lists count dependency occurrences, the in-degrees count all of them, and every name maps to a step so called |
| Kahn.InitialQueue | internal/remediation/remediation.go:264-269 | for every iteration order the queue holds each name of in-degree zero once |
| Kahn.Release | internal/remediation/remediation.go:275-290 | releasing the head keeps each in-degree equal to the dependency occurrences not yet dequeued, and the queue equal to the names newly at zero, each enqueued once |
| Kahn.TopologicalSort | internal/remediation/remediation.go:248-298 | succeeds exactly on accepted workflows, with a permutation of the steps that puts dependencies first; the not-found return is unreachable |
| Semantics.ValueStable | internal/remediation/remediation.go:161-170 | evaluating again from the states a call leaves gives the same states, and executes again only what has no entry |
| Semantics.StatesOfSettled | internal/remediation/remediation.go:135-156 | after visiting some steps, lookups give their recursive values for those and the old states for all others |
| Semantics.SettledTwice | internal/remediation/remediation.go:144-170 | a second call changes no entry, not even a message or a finish time |
| Runner.WorkflowExecutionStatus.GetStepState | internal/remediation/remediation.go:135-142 | reads the first entry of a name, or Pending |
| Runner.WorkflowExecutionStatus.SetStepStatus | internal/remediation/remediation.go:144-156 | rewrites the first entry of a name and nothing else, stamping a finish time only once |
| Runner.WorkflowExecutionStatus.CheckDependencies | internal/remediation/remediation.go:172-184 | finds out whether a dependency is unfinished and, if none is, whether one failed or was skipped |
| Runner.WorkflowExecutionStatus.RunStep | internal/remediation/remediation.go:218-234 | executes a step once and leaves its entry Succeeded or Failed, stamped |
| Runner.WorkflowExecutionStatus.Advance | internal/remediation/remediation.go:190-234 | runs, skips or leaves a ready step as its condition decides, and records the execution |
| Runner.WorkflowExecutionStatus.Visit | internal/remediation/remediation.go:161-234 | one iteration: a terminal step is left alone, any other is decided on the entries as they stand |
| Runner.BeforeVisit | internal/remediation/remediation.go:172-188 | when a step is visited its dependencies have their recursive values and its own entry is untouched |
| Runner.Walk | internal/remediation/remediation.go:158-235 | the walk over any order leaves exactly the recursive values, and its flags say whether all steps were terminal before and one was Failed |
| Runner.Run | internal/remediation/remediation.go:107-246 | whatever order the sort picks, a call has exactly the order-independent effect RunOnce, executes exactly what the semantics says, and fails exactly on workflows that are not accepted |
| Runs.CallsSettle | internal/remediation/remediation.go:161-235 | after one or any more calls, from any unfinished status, every name has its recursive value from the states before the first |
| Runs.LaterCallsKeepEntries | internal/remediation/remediation.go:120-168 | every call after the first leaves every entry exactly as it is |
| Runs.WhenOver | internal/remediation/remediation.go:158-170 | after how many calls the workflow is over, and that it is Failed exactly if some step is |
| Runs.ExecutionCounts | internal/remediation/remediation.go:124-234 | how often a run executes a step: never, once, or in every call if the step has no entry |
| Runs.AtMostOnceIff | internal/remediation/remediation.go:124-156 | no run executes a step twice exactly if no step that would be executed is missing from the entries |
| Runs.CoveredAtMostOnce | internal/remediation/remediation.go:124-156 | when every step has an entry, no run executes anything twice |
| Runs.EditedWorkflowRepeats | internal/remediation/remediation.go:125-132 | a step added after the first call has no entry; every later call executes it and the workflow is never over |
| Runs.OnlyFirstCallExecutes | internal/remediation/remediation.go:161-170 | when every step has an entry, a run executes exactly what its first call does, in that order |
| Runs.FreshRunExecutes | internal/remediation/remediation.go:105-246 | from scratch a step is executed once if it ends Succeeded or Failed, and never if it ends Skipped or unfinished |
| Runs.TraceRespectsDependencies | internal/remediation/remediation.go:161-234 | from any status, with or without an entry for each step, no run executes a step before one it depends on |
| Runs.OrderIndependence | internal/remediation/remediation.go:264-269 | two runs whose calls pick different orders agree on every step and on the verdict |
| Runs.EntriesAgree | internal/remediation/remediation.go:124-132 | first calls with different orders create equal entries for equal names |
| Runs.MissingEntryNeverOver | internal/remediation/remediation.go:135-142 | a step without an entry keeps the workflow from ever being over |
| Runs.RecognisedFinish | internal/remediation/remediation.go:192-216 | with recognised conditions and an entry per step, one call finishes every step |
| Runs.Converges | internal/remediation/remediation.go:120-122 | two calls suffice, the first alone exactly when all steps were terminal, and later calls change nothing |
| Runs.StuckIff | internal/remediation/remediation.go:172-218 | from any status, a step has no terminal value exactly if it leads over unfinished dependencies to a step without an entry or with an unrecognised condition |
| Runs.StuckInRuns | internal/remediation/remediation.go:237-243 | after one or any more calls from any unfinished status exactly those steps are unfinished |
| Runs.StuckForever | internal/remediation/remediation.go:237-243 | from scratch, after any number of calls, exactly the steps with a dependency path to an unrecognised condition are unfinished, and one of them keeps the workflow Running |
| Runs.MisspeltConditionSticks | internal/remediation/remediation.go:197-216 | a misspelt condition leaves its step and an Always step after it Pending, and the workflow Running, after any number of calls |
| Runs.ConditionsHonoured | internal/remediation/remediation.go:172-233 | over a whole run from any status, a step is executed, or ends Skipped, exactly as its run condition says about the states its dependencies end in |
| Runs.SkipCascade | internal/remediation/remediation.go:181-216 | what depends on a Failed or Skipped step through OnSuccess steps alone ends Skipped and is never executed |
| Runs.AlwaysRuns | internal/remediation/remediation.go:198-199 | an Always step that ends at all is executed exactly once |
| Runs.VerdictFromScratch | internal/remediation/remediation.go:225-243 | a finished run is Failed exactly if the execution of some executed step fails, so skips alone leave it Succeeded |
| Runs.OutcomeRecorded | internal/remediation/remediation.go:144-233 | the whole entry a run leaves: the message of its outcome, the first call's time as finish time unless it had one, and no change when it stays unfinished |
| Runs.StartRecorded | internal/remediation/remediation.go:114-118 | a run stamps the start once, with its first call's time, and the workflow stays Running until it is over |
| Runs.EntriesKept | internal/remediation/remediation.go:144-168 | no run ever touches a terminal entry or rewrites a finish time |
| Runs.FinishTimesMatch | internal/remediation/remediation.go:149-152 | in a run from scratch an entry has a finish time exactly if it is terminal |
| Runs.VerdictFinalIff | internal/remediation/remediation.go:108-122 | a verdict survives a call exactly if the workflow is accepted or the verdict is Failed |
| Runs.DuplicateNameOverturnsVerdict | internal/remediation/remediation.go:108-112 | a second step of the same name turns a Succeeded status into Failed |
| Runs.RejectedRun | internal/remediation/remediation.go:108-112 | a rejected workflow fails at once, executes nothing and leaves the entries alone |
| Runs.VerdictStays | internal/remediation/remediation.go:120-122 | in a run from scratch a verdict never changes once reached |
| Reconcile.RunRepeatedly | internal/remediation/remediation.go:105-107 | calling the runner once per clock reading leaves exactly the status and the trace of a run of the semantics |
| Findings.RankIsLexicographic | internal/controller/srepolicy_controller.go:742-752 | the integer rank is the lexicographic order on status, then severity |
| Findings.RankIsUrgency | internal/controller/srepolicy_controller.go:738-752 | the rank puts Failed before Degraded, Unknown and Healthy, and for equal status Critical before Warning and Info; values outside the tables go first |
| Findings.Sink | internal/controller/srepolicy_controller.go:749-758 | the inner loop extends the sorted prefix by one and keeps the order inside every rank |
| Findings.SortFindingsByPriority | internal/controller/srepolicy_controller.go:741-760 | the in-place sort is the stable sort by rank, and nothing in it is more urgent than what comes before |
| Findings.StableSortPermutes | internal/controller/srepolicy_controller.go:741-760 | a stable sort is a permutation |
| Findings.StableSortUnique | internal/controller/srepolicy_controller.go:741-760 | a list has only one stable sort, so the contract fixes the result |
| Findings.CountBySeverity | internal/controller/srepolicy_controller.go:719-736 | every resource is counted once, under the status of its first finding |
| Findings.Int32Wraps | internal/controller/srepolicy_controller.go:246-253 | the 32-bit conversion keeps a count modulo 2^32 and changes none in range |
| Findings.CountedAtMost | internal/controller/srepolicy_controller.go:719-736 | no status counts more resources than there are findings |
| Findings.PublishFindings | internal/controller/srepolicy_controller.go:226-258 | caps the published findings at 500, counts all of them in their effective order, publishes the true counts below 2^31 findings, and derives the phase |
| Findings.CapKeepsTheBest | internal/controller/srepolicy_controller.go:230-237 | over the cap exactly 500 are kept, none dropped outranks one kept, the earliest of each rank are kept, and nothing is lost or made up |
| Findings.CapByUrgency | internal/controller/srepolicy_controller.go:226-237 | over 500 findings nothing dropped is more urgent than anything kept; up to 500 nothing is reordered or dropped |
| Findings.DecidingFinding | internal/controller/srepolicy_controller.go:719-736 | for any statuses a resource is counted under the finding of least rank, then position (below the cap, of least position) |
| Findings.CountedIff | internal/controller/srepolicy_controller.go:250-253 | the resources counted under a status are those whose deciding finding has it |
| Findings.PhaseIff | internal/controller/srepolicy_controller.go:250-258 | the phase is Degraded exactly if some Failed finding comes before all others about its resource |
| Findings.WorstStatusCounts | internal/controller/srepolicy_controller.go:226-253 | over the cap, with listed statuses, every resource is counted under its worst finding |
| Findings.PhaseShowsAnyFailure | internal/controller/srepolicy_controller.go:255-258 | over the cap, with listed statuses, the phase is Degraded exactly if any finding is Failed |
| Findings.FailureHiddenBelowCap | internal/controller/srepolicy_controller.go:231-258 | up to the cap a Failed finding can leave the phase Active |
| Findings.FailureHiddenByUnlistedStatus | internal/controller/srepolicy_controller.go:742-752 | above the cap a status outside the rank table can leave the phase Active despite a Failed finding |
| Retention.Store.RotateConfigMaps | internal/controller/srepolicy_controller.go:659-697 | tries to delete exactly the surplus, none of it newer than anything not tried; exactly the undeletable are kept, and the limit is met when nothing is refused |
| Retention.Store.CreateThenRotate | internal/controller/srepolicy_controller.go:547-553 | rotates exactly after a successful creation with a positive limit, and meets the limit when nothing is refused |
| Retention.RotationSize | internal/controller/srepolicy_controller.go:679-696 | how many maps are left, never fewer than the limit allows, and exactly that many when no deletion fails |
| Retention.NewestSurvives | internal/controller/srepolicy_controller.go:683-688 | a map strictly newer than all others survives any rotation that keeps one |
| Retention.HistorySize | internal/controller/srepolicy_controller.go:547-553 | over any history the limit is never undercut, and one clean rotation makes up for all earlier failures |
| Retention.HistoryCoversLosses | internal/controller/srepolicy_controller.go:683-696 | after any history, whatever failed, every map that is gone has at least as many maps left that are no older as the limit allows |
| Retention.HistoryKeepsNewest | internal/controller/srepolicy_controller.go:683-696 | one clean rotation at the end makes the maps left the newest of all that ever existed |
| Retention.CreateAll | internal/controller/srepolicy_controller.go:547-553 | cycle after cycle on one store produces the history of the creations, with what the cluster refuses in each |
| Retention.LastUnhindered | internal/controller/srepolicy_controller.go:683-696 | when nothing is refused in the last of them the newest maps are left, whatever failed before |
| Retention.LastUnhinderedSize | internal/controller/srepolicy_controller.go:688-696 | and they are as many as were there and were created, up to the limit |
| Logs.TrimSplits | internal/diagnostics/logcollector.go:390 | trimming removes all white space at both ends and nothing else |
| Logs.StripRecoversMessage | internal/diagnostics/logcollector.go:386-394 | a stamped line is stripped back to its message, trimmed |
| Logs.StripUnchangedIff | internal/diagnostics/logcollector.go:386-394 | exactly which lines stripping leaves alone |
| Logs.MatchesAnyPattern | internal/diagnostics/logcollector.go:365-372 | whether some pattern matches |
| Logs.CompiledMatches | internal/diagnostics/logcollector.go:287-294 | a line matches a compiled custom pattern exactly if some text compiles to a pattern matching it |
| Logs.FirstFiftyExists | internal/diagnostics/logcollector.go:296-318 | the entries stand at increasing indices of matching lines, and a matching line is left out only after fifty |
| Logs.FirstFiftyUnique | internal/diagnostics/logcollector.go:296-318 | this fixes the entries |
| Logs.FilterLogLines | internal/diagnostics/logcollector.go:273-319 | the first fifty lines matching a built-in or a compiling custom pattern, in order, cleaned and tagged |
| Logs.KeyExact | internal/diagnostics/logcollector.go:330-331 | for names of RFC 1123 characters, equal keys mean equal namespace, pod and container, and equal lines or lines of eighty bytes or more with the same first eighty |
| Logs.KeyCollision | internal/diagnostics/logcollector.go:330-331 | without that restriction different containers can share a key |
| Dedup.PositionsExact | internal/diagnostics/logcollector.go:327-335 | the indices kept are exactly the first occurrences of all keys, in increasing order |
| Dedup.KeptAtPositions | internal/diagnostics/logcollector.go:327-335 | the kept entries are those at the kept indices |
| Dedup.FirstsOnePerKey | internal/diagnostics/logcollector.go:327-335 | one entry per key and one for every key |
| Logs.SeverityIff | internal/diagnostics/logcollector.go:374-383 | a line is Critical exactly if panic, fatal, oom or kill occurs in it in any letter case |
| Logs.EntryReportedOnce | internal/diagnostics/logcollector.go:329-346 | exactly one finding reports each entry, under its container and with a line that agrees as far as the key looks |
| Logs.DifferentLogsApart | internal/diagnostics/logcollector.go:330-335 | a finding that reports two entries reports the same log |
| Logs.ErrorsReported | internal/diagnostics/logcollector.go:348-358 | each collection error has its own finding after all entries, in order |
| Logs.ToCheckResults | internal/diagnostics/logcollector.go:323-361 | one finding per kept entry in order, then one per collection error in order; every entry with valid names is reported exactly once |
| Logs.LogFindingsCount | internal/diagnostics/logcollector.go:337-357 | counted on their own, log findings show exactly the containers with an entry as degraded, and nothing as failed or healthy |

## Left out

- Kubernetes clients, status writes, events, logging, tracing, telemetry, the Prometheus client and OpenTelemetry export: I/O.
- The check registry, the alert dispatcher, the watcher and the diagnostics aggregator: stubs without behaviour.
- Goroutines and concurrent calls on one status: the source has none; calls come one after another.
- The sleep after a successful step, and the precision of the clock: each call has one logical time.
- Workflow ID, name and target of a status, and the fields of a finding that no modelled code reads.
- The wiring from the reconciler to the runner, which the repository does not contain: `Reconcile.RunRepeatedly` stands for any caller that calls again and again.
- Regular expressions and their compilation: any predicates on lines, and any partial function from texts to them.
- Scanner buffer limits: the stream is a sequence of lines.
- Letter case and white space outside ASCII in the severity of a line and in trimming.
- Parsing of label selectors, the text of the log report, finalizers and conditions: easy members only.
- The slice of published findings shares its array with the full list in the source; in the model it is a copy.
- RotateConfigMaps: a negative limit is excluded, because the source would index out of range and both call sites check for a positive one.
