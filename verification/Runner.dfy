// The workflow runner: one call sorts the steps, walks them, and updates the
// persisted status in place.

module Runner {
  import opened Basics
  import opened Workflow
  import opened Dag
  import opened Kahn
  import opened Semantics

  // What setting the status of a step does to its entry.
  function Updated(s: StepStatus, state: StepState, message: string, now: Time): StepStatus {
    s.(state := state, message := message,
       finishTime := if Unfinished(state) then s.finishTime else Stamp(s.finishTime, now))
  }

  // Replacing the first entry called name by what f makes of it.
  ghost function OnFirst(sts: seq<StepStatus>, name: string, f: StepStatus -> StepStatus): seq<StepStatus> {
    seq(|sts|, i requires 0 <= i < |sts| => if IsFirst(sts, i) && sts[i].name == name then f(sts[i]) else sts[i])
  }

  ghost function SettleOne(sts: seq<StepStatus>, step: Step, d: Decision, now: Time): seq<StepStatus> {
    OnFirst(sts, step.name, s => Settled(s, step, d, now))
  }

  ghost predicate SomeUnfinished(deps: seq<string>, m: States) {
    exists d :: d in deps && Unfinished(Lookup(m, d))
  }

  ghost predicate SomeBad(deps: seq<string>, m: States) {
    exists d :: d in deps && Bad(Lookup(m, d))
  }

  // The decision a visit of step takes on the entries it finds.
  ghost function LocalDecision(sts: seq<StepStatus>, step: Step): Decision {
    Decide(step, SomeUnfinished(step.dependsOn, StatesOf(sts)), SomeBad(step.dependsOn, StatesOf(sts)))
  }

  ghost predicate FindsUnfinished(sts: seq<StepStatus>, step: Step) {
    !Terminal(Lookup(StatesOf(sts), step.name))
  }

  // What a visit of step makes of the entries it finds.
  ghost function AfterVisit(sts: seq<StepStatus>, step: Step, now: Time): seq<StepStatus> {
    if FindsUnfinished(sts, step) then SettleOne(sts, step, LocalDecision(sts, step), now) else sts
  }

  // What it executes.
  ghost function ExecutedBy(sts: seq<StepStatus>, step: Step): seq<string> {
    if FindsUnfinished(sts, step) && LocalDecision(sts, step) == Execute then [step.name] else []
  }

  class WorkflowExecutionStatus {
    var state: StepState
    var steps: seq<StepStatus>
    var startTime: Option<Time>
    // The names executed so far, oldest first.
    ghost var trace: seq<string>

    constructor ()
      ensures Now() == Execution(NoState, [], None) && trace == []
    {
      state, steps, startTime, trace := NoState, [], None, [];
    }

    ghost function Now(): Execution
      reads this
    {
      Execution(state, steps, startTime)
    }

    /** The state of the first entry called name, or Pending. */
    method GetStepState(name: string) returns (s: StepState)
      ensures s == Lookup(StatesOf(steps), name)
    {
      for i := 0 to |steps|
        invariant forall j :: 0 <= j < i ==> steps[j].name != name
      {
        if steps[i].name == name {
          StateOfFirst(steps, i);
          return steps[i].state;
        }
      }
      assert name !in StatesOf(steps) by {
        if name in StatesOf(steps) {
          var i := EntryOf(steps, name);
        }
      }
      return Pending;
    }

    /** Rewrites the first entry called name, and no other. */
    method SetStepStatus(name: string, stepState: StepState, msg: string, now: Time)
      modifies this`steps
      ensures steps == OnFirst(old(steps), name, s => Updated(s, stepState, msg, now))
    {
      for i := 0 to |steps|
        invariant steps == old(steps)
        invariant forall j :: 0 <= j < i ==> steps[j].name != name
      {
        if steps[i].name == name {
          var s := steps[i];
          var updated := s.(state := stepState, message := msg);
          if stepState != Pending && stepState != Running && s.finishTime == None {
            updated := updated.(finishTime := Some(now));
          }
          assert IsFirst(steps, i);
          assert forall j :: i < j < |steps| && steps[j].name == name ==> !IsFirst(steps, j);
          steps := steps[i := updated];
          assert steps == OnFirst(old(steps), name, s => Updated(s, stepState, msg, now));
          return;
        }
      }
    }

    /** Reads the dependencies until one of them is unfinished. */
    method CheckDependencies(step: Step) returns (depsSatisfied: bool, anyDepFailed: bool)
      ensures depsSatisfied <==> !SomeUnfinished(step.dependsOn, StatesOf(steps))
      ensures depsSatisfied ==> (anyDepFailed <==> SomeBad(step.dependsOn, StatesOf(steps)))
    {
      depsSatisfied, anyDepFailed := true, false;
      for i := 0 to |step.dependsOn|
        invariant depsSatisfied
        invariant !SomeUnfinished(step.dependsOn[..i], StatesOf(steps))
        invariant anyDepFailed <==> SomeBad(step.dependsOn[..i], StatesOf(steps))
      {
        var dep := step.dependsOn[i];
        assert step.dependsOn[..i + 1] == step.dependsOn[..i] + [dep];
        var ds := GetStepState(dep);
        if ds == Pending || ds == Running {
          depsSatisfied := false;
          break;
        }
        if ds == Failed || ds == Skipped {
          anyDepFailed := true;
        }
      }
      assert depsSatisfied ==> step.dependsOn[..|step.dependsOn|] == step.dependsOn;
    }

    /** Marks a step Running, executes it, and records the outcome. */
    method RunStep(step: Step, now: Time) returns (failed: bool)
      modifies this`steps, this`trace
      ensures steps == SettleOne(old(steps), step, Execute, now)
      ensures trace == old(trace) + [step.name]
    {
      SetStepStatus(step.name, Running, "", now);
      ghost var running := steps;
      assert forall i :: 0 <= i < |running| ==> running[i].name == old(steps)[i].name;
      assert forall i :: 0 <= i < |running| ==> (IsFirst(running, i) <==> IsFirst(old(steps), i));
      var actionErr := ExecuteStep(step);
      trace := trace + [step.name];
      match actionErr {
        case Some(error) =>
          SetStepStatus(step.name, Failed, error, now);
          failed := true;
        case None =>
          SetStepStatus(step.name, Succeeded, "Action completed", now);
          failed := false;
      }
    }

    /** Runs, skips or leaves alone a step none of whose dependencies is unfinished. */
    method Advance(step: Step, anyDepFailed: bool, now: Time) returns (failed: bool)
      modifies this`steps, this`trace
      ensures steps == SettleOne(old(steps), step, Decide(step, false, anyDepFailed), now)
      ensures trace == old(trace) + if Decide(step, false, anyDepFailed) == Execute then [step.name] else []
    {
      failed := false;
      var shouldRun := false;
      match step.runCondition {
        case Always =>
          shouldRun := true;
        case OnFailure =>
          if anyDepFailed {
            shouldRun := true;
          } else if |step.dependsOn| > 0 {
            SetStepStatus(step.name, Skipped, "Skipped (dependencies succeeded)", now);
            return;
          } else {
            shouldRun := true;
          }
        case OnSuccess =>
          if anyDepFailed {
            SetStepStatus(step.name, Skipped, "Skipped (dependency failed)", now);
            return;
          }
          shouldRun := true;
        case Unset =>
          if anyDepFailed {
            SetStepStatus(step.name, Skipped, "Skipped (dependency failed)", now);
            return;
          }
          shouldRun := true;
        case UnrecognisedCondition(_) =>
      }
      if shouldRun {
        failed := RunStep(step, now);
      }
    }

    /** One iteration of the walk. */
    method Visit(step: Step, now: Time) returns (unfinished: bool, failed: bool)
      modifies this`steps, this`trace
      ensures unfinished == FindsUnfinished(old(steps), step)
      ensures !unfinished ==> failed == (Lookup(StatesOf(old(steps)), step.name) == Failed)
      ensures steps == AfterVisit(old(steps), step, now)
      ensures trace == old(trace) + ExecutedBy(old(steps), step)
    {
      var currentStatus := GetStepState(step.name);
      if currentStatus == Succeeded || currentStatus == Skipped || currentStatus == Failed {
        return false, currentStatus == Failed;
      }
      var depsSatisfied, anyDepFailed := CheckDependencies(step);
      if !depsSatisfied {
        assert steps == SettleOne(steps, step, Wait, now);
        return true, false;
      }
      failed := Advance(step, anyDepFailed, now);
      return true, failed;
    }
  }

  // ---------- one visit of the walk ----------

  // Before the visit of order[k], its dependencies already have their values and its own
  // entry is untouched.
  lemma BeforeVisit(w: seq<Step>, order: seq<Step>, k: nat, sts: seq<StepStatus>, now: Time)
    requires IsOrder(w, order) && k < |order| && Accepted(w)
    ensures Names(order[..k]) <= Names(w) && order[k].name in Names(w)
    ensures StepNamed(w, order[k].name) == order[k]
    ensures var m := StatesOf(sts);
      var m' := StatesOf(SettleVisited(w, sts, Names(order[..k]), now));
      && Lookup(m', order[k].name) == Lookup(m, order[k].name)
      && DecisionFor(w, m, order[k].name) == LocalDecision(SettleVisited(w, sts, Names(order[..k]), now), order[k])
  {
    OrderSameSteps(w, order);
    StepNamedUnique(w, order[k]);
    StatesOfSettled(w, sts, Names(order[..k]), now);
    assert DepsBefore(order, k);
    forall d | d in order[k].dependsOn ensures d in Names(order[..k]) {
      var j :| 0 <= j < k && order[j].name == d;
      assert order[j] in order[..k];
    }
    var m := StatesOf(sts);
    var m' := StatesOf(SettleVisited(w, sts, Names(order[..k]), now));
    assert forall d :: d in order[k].dependsOn ==> Lookup(m', d) == Value(w, m, d);
    assert order[k].name !in Names(order[..k]);
  }

  // One more visited name changes the first entry of that name only, which was untouched before.
  lemma VisitedNextAt(w: seq<Step>, sts: seq<StepStatus>, visited: set<string>, n: string, now: Time, i: nat)
    requires Accepted(w) && visited + {n} <= Names(w) && n !in visited && i < |sts|
    ensures SettleVisited(w, sts, visited + {n}, now)[i]
      == if IsFirst(sts, i) && sts[i].name == n then SettleEntry(w, StatesOf(sts), now, sts[i])
         else SettleVisited(w, sts, visited, now)[i]
    ensures sts[i].name == n ==> SettleVisited(w, sts, visited, now)[i] == sts[i]
    ensures SettleVisited(w, sts, visited, now)[i].name == sts[i].name
  {
  }

  lemma VisitedNext(w: seq<Step>, order: seq<Step>, k: nat, sts: seq<StepStatus>, now: Time)
    requires IsOrder(w, order) && k < |order| && Accepted(w)
    requires Names(order[..k]) <= Names(w) && Names(order[..k + 1]) <= Names(w) && order[k].name in Names(w)
    ensures var m := StatesOf(sts);
      var before := SettleVisited(w, sts, Names(order[..k]), now);
      SettleVisited(w, sts, Names(order[..k + 1]), now)
        == if Terminal(Lookup(m, order[k].name)) then before
           else SettleOne(before, order[k], DecisionFor(w, m, order[k].name), now)
  {
    OrderSameSteps(w, order);
    StepNamedUnique(w, order[k]);
    NamesNext(order, k);
    assert order[k].name !in Names(order[..k]);
    SettlesOne(w, sts, Names(order[..k]), order[k], now);
  }

  lemma SettlesOne(w: seq<Step>, sts: seq<StepStatus>, visited: set<string>, step: Step, now: Time)
    requires Accepted(w) && visited + {step.name} <= Names(w) && step.name !in visited
    requires StepNamed(w, step.name) == step
    ensures var m := StatesOf(sts);
      var before := SettleVisited(w, sts, visited, now);
      SettleVisited(w, sts, visited + {step.name}, now)
        == if Terminal(Lookup(m, step.name)) then before
           else SettleOne(before, step, DecisionFor(w, m, step.name), now)
  {
    var before := SettleVisited(w, sts, visited, now);
    forall i | 0 <= i < |sts| { VisitedNextAt(w, sts, visited, step.name, now, i); }
    assert forall i :: 0 <= i < |sts| ==> (IsFirst(before, i) <==> IsFirst(sts, i));
    forall i | 0 <= i < |sts| && IsFirst(sts, i) && sts[i].name == step.name
      ensures sts[i].state == Lookup(StatesOf(sts), step.name)
    {
      StateOfFirst(sts, i);
    }
  }

  lemma ExecutedNext(w: seq<Step>, m: States, order: seq<Step>, k: nat)
    requires Accepted(w) && k < |order|
    ensures ExecutedNames(w, m, order[..k + 1])
         == ExecutedNames(w, m, order[..k]) + if Executes(w, m, order[k].name) then [order[k].name] else []
  {
    assert order[..k + 1][..k] == order[..k];
  }

  lemma AppendAssociates(a: seq<string>, b: seq<string>, c: seq<string>)
    ensures (a + b) + c == a + (b + c)
  {
  }

  // What the visit of order[k] does, in terms of the order-independent meaning.
  lemma VisitMeaning(w: seq<Step>, order: seq<Step>, k: nat, sts: seq<StepStatus>, now: Time)
    requires IsOrder(w, order) && k < |order| && Accepted(w)
    ensures Names(order[..k]) <= Names(w) && Names(order[..k + 1]) <= Names(w)
    ensures var m := StatesOf(sts);
      var before := SettleVisited(w, sts, Names(order[..k]), now);
      && SettleVisited(w, sts, Names(order[..k + 1]), now) == AfterVisit(before, order[k], now)
      && ExecutedNames(w, m, order[..k + 1]) == ExecutedNames(w, m, order[..k]) + ExecutedBy(before, order[k])
      && AllTerminal(Names(order[..k + 1]), m) == (AllTerminal(Names(order[..k]), m) && !FindsUnfinished(before, order[k]))
      && AnyFailed(Names(order[..k + 1]), m)
           == (AnyFailed(Names(order[..k]), m) || Lookup(StatesOf(before), order[k].name) == Failed)
  {
    NamesNext(order, k);
    BeforeVisit(w, order, k, sts, now);
    VisitedNext(w, order, k, sts, now);
    ExecutedNext(w, StatesOf(sts), order, k);
  }

  // Where the walk stands after k steps: its entries, what it executed, and its flags.
  ghost predicate Walked(w: seq<Step>, order: seq<Step>, k: nat, sts: seq<StepStatus>, now: Time,
                         steps: seq<StepStatus>, executed: seq<string>, allComplete: bool, anyFailed: bool)
    requires Accepted(w)
  {
    && k <= |order| && Names(order[..k]) <= Names(w)
    && steps == SettleVisited(w, sts, Names(order[..k]), now)
    && executed == ExecutedNames(w, StatesOf(sts), order[..k])
    && allComplete == AllTerminal(Names(order[..k]), StatesOf(sts))
    && (allComplete ==> anyFailed == AnyFailed(Names(order[..k]), StatesOf(sts)))
  }

  lemma WalkedNext(w: seq<Step>, order: seq<Step>, k: nat, sts: seq<StepStatus>, now: Time,
                   steps: seq<StepStatus>, executed: seq<string>, allComplete: bool, anyFailed: bool, failed: bool)
    requires Accepted(w) && IsOrder(w, order) && k < |order|
    requires Walked(w, order, k, sts, now, steps, executed, allComplete, anyFailed)
    requires !FindsUnfinished(steps, order[k]) ==> failed == (Lookup(StatesOf(steps), order[k].name) == Failed)
    ensures Walked(w, order, k + 1, sts, now, AfterVisit(steps, order[k], now), executed + ExecutedBy(steps, order[k]),
                   allComplete && !FindsUnfinished(steps, order[k]), anyFailed || failed)
  {
    VisitMeaning(w, order, k, sts, now);
  }

  /** One call, whatever order the sort picks: an error and a Failed workflow when the steps are not
      accepted, and otherwise exactly the order-independent effect RunOnce. */
  method Run(w: seq<Step>, status: WorkflowExecutionStatus, now: Time)
    returns (err: Option<SortError>, ghost order: seq<Step>)
    modifies status
    ensures err == if Accepted(w) then None else Some(CycleDetected)
    ensures Accepted(w) ==> IsOrder(w, order)
    ensures status.Now() == RunOnce(w, Call(order, now), old(status.Now()))
    ensures status.trace == old(status.trace) + TraceOnce(w, Call(order, now), old(status.Now()))
  {
    var r := TopologicalSort(w);
    if r.Rejected? {
      status.state := Failed;
      return Some(r.error), [];
    }
    var sortedSteps := r.order;
    order := sortedSteps;
    err := None;
    if status.state == NoState {
      status.state := Running;
      status.startTime := Some(now);
    }
    if status.state == Succeeded || status.state == Failed {
      return;
    }
    if |status.steps| == 0 {
      for i := 0 to |sortedSteps|
        invariant status.steps == Initial(sortedSteps[..i])
        invariant status.state == Started(old(status.Now()), now).state
        invariant status.startTime == Started(old(status.Now()), now).startTime
        invariant status.trace == old(status.trace)
      {
        status.steps := status.steps + [StepStatus(sortedSteps[i].name, Pending, "", None, None)];
      }
      assert sortedSteps[..|sortedSteps|] == sortedSteps;
    }
    var allComplete, anyFailed := Walk(w, sortedSteps, status, now);
    if allComplete {
      if anyFailed {
        status.state := Failed;
      } else {
        status.state := Succeeded;
      }
    }
  }

  /** The walk over the sorted steps. */
  method Walk(ghost w: seq<Step>, sortedSteps: seq<Step>, status: WorkflowExecutionStatus, now: Time)
    returns (allComplete: bool, anyFailed: bool)
    requires Accepted(w) && IsOrder(w, sortedSteps)
    modifies status`steps, status`trace
    ensures status.steps == SettleVisited(w, old(status.steps), Names(w), now)
    ensures status.trace == old(status.trace) + ExecutedNames(w, StatesOf(old(status.steps)), sortedSteps)
    ensures allComplete <==> AllTerminal(Names(w), StatesOf(old(status.steps)))
    ensures allComplete ==> (anyFailed <==> AnyFailed(Names(w), StatesOf(old(status.steps))))
  {
    ghost var sts := status.steps;
    ghost var executed: seq<string> := [];
    OrderSameSteps(w, sortedSteps);
    allComplete, anyFailed := true, false;
    for k := 0 to |sortedSteps|
      invariant Walked(w, sortedSteps, k, sts, now, status.steps, executed, allComplete, anyFailed)
      invariant status.trace == old(status.trace) + executed
    {
      var step := sortedSteps[k];
      ghost var before := status.steps;
      var unfinished, failed := status.Visit(step, now);
      WalkedNext(w, sortedSteps, k, sts, now, before, executed, allComplete, anyFailed, failed);
      AppendAssociates(old(status.trace), executed, ExecutedBy(before, step));
      executed := executed + ExecutedBy(before, step);
      if unfinished {
        allComplete := false;
      }
      if failed {
        anyFailed := true;
      }
    }
    assert sortedSteps[..|sortedSteps|] == sortedSteps;
  }
}
