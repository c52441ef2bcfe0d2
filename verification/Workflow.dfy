// The data of a remediation workflow, and the one pure decision in the engine:
// what executing a single step yields.

module Workflow {
  import opened Basics

  // The zero value of the string-typed field, its named constants, and any other text.
  datatype RunCondition = Unset | OnSuccess | OnFailure | Always | UnrecognisedCondition(text: string)

  datatype StepState = NoState | Pending | Running | Succeeded | Failed | Skipped | UnrecognisedState(text: string)

  // Only three actions look at their arguments.
  datatype Action = DiagnoseLogs | PatchResource | VirtctlAction | OtherAction(name: string)

  datatype Step = Step(
    name: string,
    action: Action,
    dependsOn: seq<string>,
    runCondition: RunCondition,
    arguments: map<string, string>)

  datatype StepStatus = StepStatus(
    name: string,
    state: StepState,
    message: string,
    startTime: Option<Time>,
    finishTime: Option<Time>)

  // The three states a step never leaves.
  predicate Terminal(s: StepState) {
    s.Succeeded? || s.Failed? || s.Skipped?
  }

  // A dependency in one of these states makes its dependents wait.
  predicate Unfinished(s: StepState) {
    s.Pending? || s.Running?
  }

  // A dependency in one of these states counts as failed.
  predicate Bad(s: StepState) {
    s.Failed? || s.Skipped?
  }

  predicate Recognised(c: RunCondition) {
    !c.UnrecognisedCondition?
  }

  // Reading a missing key of the arguments map yields the empty string.
  function Argument(step: Step, key: string): string {
    if key in step.arguments then step.arguments[key] else ""
  }

  /** The error of executing a step, or None when it succeeds. */
  function ExecuteStep(step: Step): Option<string> {
    match step.action
    case DiagnoseLogs =>
      if Argument(step, "pattern") == "" then Some("missing 'pattern' argument for DiagnoseLogs") else None
    case PatchResource =>
      if Argument(step, "patchType") == "" || Argument(step, "patchBody") == ""
      then Some("missing 'patchType' or 'patchBody' argument") else None
    case VirtctlAction =>
      if Argument(step, "command") == "" then Some("missing 'command' argument") else None
    case OtherAction(_) => None
  }

  // The arguments an action cannot do without.
  function Required(action: Action): set<string> {
    match action
    case DiagnoseLogs => {"pattern"}
    case PatchResource => {"patchType", "patchBody"}
    case VirtctlAction => {"command"}
    case OtherAction(_) => {}
  }

  /** Executing a step succeeds exactly when every required argument is present and nonempty. */
  lemma SucceedsIffArgumentsGiven(step: Step)
    ensures ExecuteStep(step).None? <==>
      forall key :: key in Required(step.action) ==> key in step.arguments && step.arguments[key] != ""
  {
    assert "patchType" in Required(PatchResource) && "patchBody" in Required(PatchResource);
  }

  /** The actions that can fail, what each misses then, and the error it gives. */
  lemma ExecutionErrors(step: Step)
    ensures step.action == DiagnoseLogs && ("pattern" !in step.arguments || step.arguments["pattern"] == "")
      <==> ExecuteStep(step) == Some("missing 'pattern' argument for DiagnoseLogs")
    ensures step.action == PatchResource
        && ("patchType" !in step.arguments || step.arguments["patchType"] == ""
            || "patchBody" !in step.arguments || step.arguments["patchBody"] == "")
      <==> ExecuteStep(step) == Some("missing 'patchType' or 'patchBody' argument")
    ensures step.action == VirtctlAction && ("command" !in step.arguments || step.arguments["command"] == "")
      <==> ExecuteStep(step) == Some("missing 'command' argument")
    ensures step.action.OtherAction? ==> ExecuteStep(step) == None
  {
    assert "missing 'pattern' argument for DiagnoseLogs"[10] == 'a';
    assert "missing 'patchType' or 'patchBody' argument"[9] == 'p' && "missing 'pattern' argument for DiagnoseLogs"[9] == 'p';
    assert |"missing 'pattern' argument for DiagnoseLogs"| == 43;
    assert |"missing 'patchType' or 'patchBody' argument"| == 43;
    assert "missing 'pattern' argument for DiagnoseLogs"[13] == 'e' && "missing 'patchType' or 'patchBody' argument"[13] == 'h';
    assert |"missing 'command' argument"| == 26;
  }
}
