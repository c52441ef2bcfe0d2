// Whole runs: any number of calls on one workflow, each with its own sort order
// and clock, from any persisted status.

module Runs {
  import opened Basics
  import opened Workflow
  import opened Dag
  import opened Semantics

  // The orders come from the sort: each is an order of w whenever w has one.
  ghost predicate ValidCalls(w: seq<Step>, calls: seq<Call>) {
    Accepted(w) ==> forall c :: c in calls ==> IsOrder(w, c.order)
  }

  ghost function RunAll(w: seq<Step>, calls: seq<Call>, e: Execution): Execution {
    if calls == [] then e
    else
      var k := |calls| - 1;
      RunOnce(w, calls[k], RunAll(w, calls[..k], e))
  }

  ghost function TraceAll(w: seq<Step>, calls: seq<Call>, e: Execution): seq<string> {
    if calls == [] then []
    else
      var k := |calls| - 1;
      TraceAll(w, calls[..k], e) + TraceOnce(w, calls[k], RunAll(w, calls[..k], e))
  }

  const NEW_EXECUTION := Execution(NoState, [], None)

  // The states the next call starts from, whatever order it sorts into.
  ghost function Known(w: seq<Step>, e: Execution): States {
    if e.steps == [] then Fresh(w) else StatesOf(e.steps)
  }

  ghost predicate Covers(w: seq<Step>, m: States) {
    Names(w) <= m.Keys
  }

  // ---------- one call ----------

  lemma OneCall(w: seq<Step>, c: Call, e: Execution)
    requires Accepted(w) && IsOrder(w, c.order)
    ensures StatesOf(Entries(e, c.order)) == Known(w, e)
    ensures Over(e.state) ==> RunOnce(w, c, e) == e
    ensures !Over(e.state) ==> Known(w, RunOnce(w, c, e)) == After(w, Known(w, e))
    ensures !Over(e.state) ==> (Over(RunOnce(w, c, e).state) <==> AllTerminal(Names(w), Known(w, e)))
    ensures !Over(e.state) && Over(RunOnce(w, c, e).state) ==>
      (RunOnce(w, c, e).state == Failed <==> AnyFailed(Names(w), Known(w, e)))
  {
    InitialIsFresh(w, c.order);
    OrderSameSteps(w, c.order);
    var sts := Entries(e, c.order);
    StatesAfter(w, sts, c.now);
    if sts == [] {
      assert Names(w) == {};
    }
  }

  lemma AfterStable(w: seq<Step>, m: States)
    requires Accepted(w)
    ensures After(w, After(w, m)) == After(w, m)
  {
    forall n | n in m ensures Value(w, After(w, m), n) == Value(w, m, n) {
      ValueStable(w, m, n);
    }
  }

  /** After one or any more calls, every name has the value the recursive meaning gives it from
      the states before the first call, whatever orders the calls picked. */
  lemma {:induction false} CallsSettle(w: seq<Step>, calls: seq<Call>, e: Execution)
    requires Accepted(w) && ValidCalls(w, calls) && calls != [] && !Over(e.state)
    ensures Known(w, RunAll(w, calls, e)) == After(w, Known(w, e))
  {
    var k := |calls| - 1;
    OneCall(w, calls[k], RunAll(w, calls[..k], e));
    if k > 0 {
      CallsSettle(w, calls[..k], e);
      AfterStable(w, Known(w, e));
    }
  }

  /** Every call after the first leaves every entry exactly as it is. */
  lemma {:induction false} LaterCallsKeepEntries(w: seq<Step>, calls: seq<Call>, e: Execution)
    requires Accepted(w) && ValidCalls(w, calls) && calls != [] && !Over(e.state)
    ensures RunAll(w, calls, e).steps == RunOnce(w, calls[0], e).steps
  {
    var k := |calls| - 1;
    if k > 0 {
      LaterCallsKeepEntries(w, calls[..k], e);
      var first := calls[0];
      SettledTwice(w, Entries(e, first.order), first.now, calls[k].now);
      assert IsOrder(w, first.order) && IsOrder(w, calls[k].order);
      OrderSameSteps(w, first.order);
      OrderSameSteps(w, calls[k].order);
    } else {
      assert RunAll(w, calls[..0], e) == e;
    }
  }

  /** When the workflow is over, and with which verdict: after the first call exactly if every step was
      terminal before it, after any later call exactly if every step's value is terminal; it is Failed
      exactly if some step's value is. */
  lemma {:induction false} WhenOver(w: seq<Step>, calls: seq<Call>, e: Execution)
    requires Accepted(w) && ValidCalls(w, calls) && calls != [] && !Over(e.state)
    ensures Over(RunAll(w, calls, e).state) <==>
      AllTerminal(Names(w), if |calls| == 1 then Known(w, e) else After(w, Known(w, e)))
    ensures Over(RunAll(w, calls, e).state) ==>
      (RunAll(w, calls, e).state == Failed <==> AnyFailed(Names(w), After(w, Known(w, e))))
  {
    var k := |calls| - 1;
    OneCall(w, calls[k], RunAll(w, calls[..k], e));
    TerminalKept(w, Known(w, e));
    if k > 0 {
      WhenOver(w, calls[..k], e);
      CallsSettle(w, calls[..k], e);
    }
  }

  // Terminal states survive a call.
  lemma TerminalKept(w: seq<Step>, m: States)
    requires Accepted(w)
    ensures forall n :: Terminal(Lookup(m, n)) ==> Lookup(After(w, m), n) == Lookup(m, n)
    ensures AllTerminal(Names(w), m) ==> AllTerminal(Names(w), After(w, m))
    ensures AllTerminal(Names(w), m) ==> (AnyFailed(Names(w), After(w, m)) <==> AnyFailed(Names(w), m))
  {
    forall n | Terminal(Lookup(m, n)) ensures Lookup(After(w, m), n) == Lookup(m, n) {
      assert n in m;
    }
  }

  // ---------- what is executed, and how often ----------

  lemma {:induction false} ExecutedOnce(w: seq<Step>, m: States, order: seq<Step>, n: string)
    requires Accepted(w) && UniqueNames(order)
    ensures multiset(ExecutedNames(w, m, order))[n] == if n in Names(order) && Executes(w, m, n) then 1 else 0
  {
    if order != [] {
      var k := |order| - 1;
      UniqueSnoc(order);
      ExecutedOnce(w, m, order[..k], n);
    }
  }

  lemma CallCounts(w: seq<Step>, c: Call, e: Execution, n: string)
    requires Accepted(w) && IsOrder(w, c.order)
    ensures multiset(TraceOnce(w, c, e))[n] == if !Over(e.state) && Executes(w, Known(w, e), n) then 1 else 0
  {
    OneCall(w, c, e);
    OrderSameSteps(w, c.order);
    ExecutedOnce(w, Known(w, e), c.order, n);
  }

  /** How often a whole run executes a step, from any unfinished status: never, once, or, when the step
      is missing from the entries, in every single call. */
  lemma {:induction false} ExecutionCounts(w: seq<Step>, calls: seq<Call>, e: Execution, n: string)
    requires Accepted(w) && ValidCalls(w, calls) && calls != [] && !Over(e.state)
    ensures multiset(TraceAll(w, calls, e))[n]
      == if !Executes(w, Known(w, e), n) then 0 else if n in Known(w, e) then 1 else |calls|
  {
    var k := |calls| - 1;
    var m := Known(w, e);
    CallCounts(w, calls[k], RunAll(w, calls[..k], e), n);
    if k > 0 {
      ExecutionCounts(w, calls[..k], e, n);
      CallsSettle(w, calls[..k], e);
      WhenOver(w, calls[..k], e);
      ValueStable(w, m, n);
      assert Executes(w, m, n) && n !in m ==> !Terminal(Lookup(m, n)) && !Terminal(Lookup(After(w, m), n));
    }
  }

  // Two calls execute a step without an entry twice.
  lemma RepeatingCalls(w: seq<Step>, e: Execution, n: string) returns (calls: seq<Call>)
    requires Accepted(w) && !Over(e.state) && Executes(w, Known(w, e), n) && n !in Known(w, e)
    ensures ValidCalls(w, calls) && multiset(TraceAll(w, calls, e))[n] == 2
  {
    var order := CompleteOrder(w, []);
    calls := [Call(order, 0), Call(order, 0)];
    ExecutionCounts(w, calls, e, n);
  }

  /** Executing nothing twice is a property of the status a run starts from: it holds for every run exactly
      if no step that would be executed is missing from the entries. */
  lemma AtMostOnceIff(w: seq<Step>, e: Execution)
    requires Accepted(w) && !Over(e.state)
    ensures (forall calls, n :: ValidCalls(w, calls) ==> multiset(TraceAll(w, calls, e))[n] <= 1)
      <==> (forall n :: Executes(w, Known(w, e), n) ==> n in Known(w, e))
  {
    if forall n :: Executes(w, Known(w, e), n) ==> n in Known(w, e) {
      forall calls, n | ValidCalls(w, calls) ensures multiset(TraceAll(w, calls, e))[n] <= 1 {
        if calls != [] {
          ExecutionCounts(w, calls, e, n);
        }
      }
    } else {
      var n :| Executes(w, Known(w, e), n) && n !in Known(w, e);
      var calls := RepeatingCalls(w, e, n);
    }
  }

  /** The guard a caller can read off the status: when every step has an entry, no run executes anything twice. */
  lemma CoveredAtMostOnce(w: seq<Step>, calls: seq<Call>, e: Execution, n: string)
    requires Accepted(w) && ValidCalls(w, calls) && Covers(w, Known(w, e))
    ensures multiset(TraceAll(w, calls, e))[n] <= 1
  {
    if Over(e.state) {
      OverExecutesNothing(w, calls, e);
    } else if calls != [] {
      ExecutionCounts(w, calls, e, n);
    }
  }

  const OLD_STEP := Step("old", OtherAction("Restart"), [], Unset, map[])
  const NEW_STEP := Step("new", OtherAction("Evict"), [], Unset, map[])

  /** A step added to a workflow after its first call: the status has no entry for it, and every call from
      then on executes it again. */
  lemma EditedWorkflowRepeats(c0: Call, calls: seq<Call>)
    requires c0.order == [OLD_STEP] && calls != [] && ValidCalls([OLD_STEP, NEW_STEP], calls)
    ensures var w, w' := [OLD_STEP], [OLD_STEP, NEW_STEP];
      var e := RunOnce(w, c0, NEW_EXECUTION);
      && ValidCalls(w, [c0]) && Accepted(w) && Accepted(w')
      && e.state == Running && TraceOnce(w, c0, NEW_EXECUTION) == ["old"]
      && multiset(TraceAll(w', calls, e))["new"] == |calls| && !Over(RunAll(w', calls, e).state)
  {
    SingleStepCall(c0);
    EditedWorkflow();
    var w' := [OLD_STEP, NEW_STEP];
    var e := RunOnce([OLD_STEP], c0, NEW_EXECUTION);
    NewStepMissing(e);
    ExecutionCounts(w', calls, e, "new");
    MissingEntryNeverOver(w', calls, e, "new");
  }

  lemma EditedWorkflow()
    ensures var w := [OLD_STEP, NEW_STEP];
      Accepted(w) && "new" in Names(w) && StepNamed(w, "new") == NEW_STEP
  {
    var w := [OLD_STEP, NEW_STEP];
    assert "old"[0] == 'o' && "new"[0] == 'n';
    assert IsOrder(w, w);
    OrderImpliesAccepted(w, w);
    assert w[1] in w;
    StepNamedUnique(w, NEW_STEP);
  }

  lemma NewStepMissing(e: Execution)
    requires |e.steps| == 1 && e.steps[0].name == "old"
    ensures var w := [OLD_STEP, NEW_STEP];
      Accepted(w) && "new" in Names(w) && "new" !in Known(w, e) && Executes(w, Known(w, e), "new")
  {
    EditedWorkflow();
    assert "old"[0] == 'o' && "new"[0] == 'n';
    var w := [OLD_STEP, NEW_STEP];
    assert "new" !in StatesOf(e.steps);
    assert DecisionFor(w, Known(w, e), "new") == Execute;
  }

  lemma SingleStepCall(c: Call)
    requires c.order == [OLD_STEP]
    ensures var e := RunOnce([OLD_STEP], c, NEW_EXECUTION);
      && IsOrder([OLD_STEP], c.order) && Accepted([OLD_STEP])
      && e.state == Running && |e.steps| == 1 && e.steps[0].name == "old"
      && TraceOnce([OLD_STEP], c, NEW_EXECUTION) == ["old"]
  {
    var w := [OLD_STEP];
    assert IsOrder(w, w);
    OrderImpliesAccepted(w, w);
    assert w[0] in w;
    StepNamedUnique(w, OLD_STEP);
    InitialIsFresh(w, w);
    assert "old" in Names(w) && !Terminal(Lookup(Fresh(w), "old"));
    assert Executes(w, Fresh(w), "old");
    assert ExecutedNames(w, Fresh(w), w) == [] + ["old"];
    assert Entries(NEW_EXECUTION, w) == Initial(w);
    assert Initial(w)[0].name == "old";
  }

  /** When every step has an entry, a run executes exactly what its first call does. */
  lemma {:induction false} OnlyFirstCallExecutes(w: seq<Step>, calls: seq<Call>, e: Execution)
    requires Accepted(w) && ValidCalls(w, calls) && calls != [] && !Over(e.state)
    requires Covers(w, Known(w, e))
    ensures TraceAll(w, calls, e) == ExecutedNames(w, Known(w, e), calls[0].order)
  {
    var k := |calls| - 1;
    TraceNext(w, calls, e);
    if k > 0 {
      OnlyFirstCallExecutes(w, calls[..k], e);
      var last := TraceOnce(w, calls[k], RunAll(w, calls[..k], e));
      if last != [] {
        assert last[0] in last;
        LaterCallExecutes(w, calls[..k], e, calls[k], last[0]);
        assert false;
      }
    } else {
      OneCall(w, calls[0], e);
      assert TraceAll(w, calls[..0], e) == [];
    }
  }

  // Where an executed name stands in the trace, its step stands in the order.
  lemma {:induction false} ExecutedInOrder(w: seq<Step>, m: States, order: seq<Step>, i: nat, j: nat) returns (a: nat, b: nat)
    requires Accepted(w) && i < j < |ExecutedNames(w, m, order)|
    ensures a < b < |order|
    ensures order[a].name == ExecutedNames(w, m, order)[i] && order[b].name == ExecutedNames(w, m, order)[j]
  {
    var k := |order| - 1;
    var shorter := ExecutedNames(w, m, order[..k]);
    if j < |shorter| {
      a, b := ExecutedInOrder(w, m, order[..k], i, j);
    } else {
      a := ExecutedFrom(w, m, order[..k], i);
      b := k;
    }
  }

  lemma {:induction false} ExecutedFrom(w: seq<Step>, m: States, order: seq<Step>, i: nat) returns (a: nat)
    requires Accepted(w) && i < |ExecutedNames(w, m, order)|
    ensures a < |order| && order[a].name == ExecutedNames(w, m, order)[i]
  {
    var k := |order| - 1;
    if i < |ExecutedNames(w, m, order[..k])| {
      a := ExecutedFrom(w, m, order[..k], i);
    } else {
      a := k;
    }
  }

  // An order never lists a step before one it depends on.
  lemma NoForwardDependency(w: seq<Step>, order: seq<Step>, a: nat, b: nat)
    requires Accepted(w) && IsOrder(w, order) && a < b < |order|
    ensures !Dep(w, order[a].name, order[b].name)
  {
    OrderSameSteps(w, order);
    StepNamedUnique(w, order[a]);
    DepOfStep(w, order[a].name, order[b].name);
    assert DepsBefore(order, a);
    forall d | d in order[a].dependsOn ensures d != order[b].name {
      var c :| 0 <= c < a && order[c].name == d;
    }
  }

  // A step is executed only when all its dependencies have entries.
  lemma ExecutedDependencyHasEntry(w: seq<Step>, m: States, n: string, d: string)
    requires Accepted(w) && Executes(w, m, n)
    ensures Dep(w, n, d) ==> d in m
  {
    DepOfStep(w, n, d);
    MissingIsUnfinished(w, m, d);
  }

  lemma MissingIsUnfinished(w: seq<Step>, m: States, n: string)
    requires Accepted(w)
    ensures n !in m ==> Unfinished(Value(w, m, n))
  {
  }

  // A call executes only what the semantics executes from the status before the run, and a call after
  // the first only what has no entry there.
  lemma LaterCallExecutes(w: seq<Step>, calls: seq<Call>, e: Execution, c: Call, n: string)
    requires Accepted(w) && ValidCalls(w, calls) && calls != [] && !Over(e.state) && IsOrder(w, c.order)
    requires n in TraceOnce(w, c, RunAll(w, calls, e))
    ensures Executes(w, Known(w, e), n) && n !in Known(w, e)
  {
    assert n in multiset(TraceOnce(w, c, RunAll(w, calls, e)));
    CallCounts(w, c, RunAll(w, calls, e), n);
    CallsSettle(w, calls, e);
    ValueStable(w, Known(w, e), n);
  }

  lemma ExecutedInRun(w: seq<Step>, calls: seq<Call>, e: Execution, n: string)
    requires Accepted(w) && ValidCalls(w, calls) && calls != [] && !Over(e.state)
    requires n in TraceAll(w, calls, e)
    ensures Executes(w, Known(w, e), n)
  {
    assert n in multiset(TraceAll(w, calls, e));
    ExecutionCounts(w, calls, e, n);
  }

  lemma FirstCallRespectsDependencies(w: seq<Step>, c: Call, e: Execution, i: nat, j: nat)
    requires Accepted(w) && IsOrder(w, c.order) && i < j < |TraceOnce(w, c, e)|
    ensures !Dep(w, TraceOnce(w, c, e)[i], TraceOnce(w, c, e)[j])
  {
    var a, b := ExecutedInOrder(w, StatesOf(Entries(e, c.order)), c.order, i, j);
    NoForwardDependency(w, c.order, a, b);
  }

  lemma LaterCallRespectsDependencies(w: seq<Step>, calls: seq<Call>, e: Execution, c: Call, n: string, d: string)
    requires Accepted(w) && ValidCalls(w, calls) && calls != [] && !Over(e.state) && IsOrder(w, c.order)
    requires n in TraceAll(w, calls, e) || n in TraceOnce(w, c, RunAll(w, calls, e))
    requires d in TraceOnce(w, c, RunAll(w, calls, e))
    ensures !Dep(w, n, d)
  {
    LaterCallExecutes(w, calls, e, c, d);
    if n in TraceAll(w, calls, e) {
      ExecutedInRun(w, calls, e, n);
    } else {
      LaterCallExecutes(w, calls, e, c, n);
    }
    ExecutedDependencyHasEntry(w, Known(w, e), n, d);
  }

  // One call more appends what that call executes.
  lemma TraceNext(w: seq<Step>, calls: seq<Call>, e: Execution)
    requires calls != []
    ensures var k := |calls| - 1;
      TraceAll(w, calls, e) == TraceAll(w, calls[..k], e) + TraceOnce(w, calls[k], RunAll(w, calls[..k], e))
  {
  }

  /** From any status, a run never executes a step before one it depends on. */
  lemma {:induction false} TraceRespectsDependencies(w: seq<Step>, calls: seq<Call>, e: Execution, i: nat, j: nat)
    requires Accepted(w) && ValidCalls(w, calls)
    requires i < j < |TraceAll(w, calls, e)|
    ensures !Dep(w, TraceAll(w, calls, e)[i], TraceAll(w, calls, e)[j])
    decreases |calls|
  {
    if Over(e.state) {
      OverExecutesNothing(w, calls, e);
    } else {
      var k := |calls| - 1;
      TraceNext(w, calls, e);
      var earlier, last := TraceAll(w, calls[..k], e), TraceOnce(w, calls[k], RunAll(w, calls[..k], e));
      if j < |earlier| {
        TraceRespectsDependencies(w, calls[..k], e, i, j);
      } else if k == 0 {
        FirstCallRespectsDependencies(w, calls[k], e, i, j);
      } else {
        assert (earlier + last)[i] in earlier || (earlier + last)[i] in last;
        LaterCallRespectsDependencies(w, calls[..k], e, calls[k], (earlier + last)[i], (earlier + last)[j]);
      }
    }
  }

  lemma OverCallKeeps(w: seq<Step>, c: Call, e: Execution)
    requires Accepted(w) && Over(e.state)
    ensures RunOnce(w, c, e) == e && TraceOnce(w, c, e) == []
  {
  }

  lemma {:induction false} OverExecutesNothing(w: seq<Step>, calls: seq<Call>, e: Execution)
    requires Accepted(w) && ValidCalls(w, calls) && Over(e.state)
    ensures RunAll(w, calls, e) == e && TraceAll(w, calls, e) == []
  {
    if calls != [] {
      var k := |calls| - 1;
      OverExecutesNothing(w, calls[..k], e);
      OverCallKeeps(w, calls[k], e);
    }
  }

  // The final state of a step in a run from scratch.
  lemma FinalState(w: seq<Step>, calls: seq<Call>, n: string)
    requires Accepted(w) && ValidCalls(w, calls) && calls != [] && n in Names(w)
    ensures Lookup(Known(w, RunAll(w, calls, NEW_EXECUTION)), n) == Value(w, Fresh(w), n)
    ensures Value(w, Fresh(w), n) == Outcome(Pending, StepNamed(w, n), DecisionFor(w, Fresh(w), n))
  {
    CallsSettle(w, calls, NEW_EXECUTION);
    assert n in Fresh(w) && Known(w, NEW_EXECUTION) == Fresh(w);
  }

  /** A run from scratch executes a step at most once: once if it ends Succeeded or Failed, and
      never if it ends Skipped or unfinished. */
  lemma FreshRunExecutes(w: seq<Step>, calls: seq<Call>, n: string)
    requires Accepted(w) && ValidCalls(w, calls) && calls != [] && n in Names(w)
    ensures var final := Lookup(Known(w, RunAll(w, calls, NEW_EXECUTION)), n);
      var count := multiset(TraceAll(w, calls, NEW_EXECUTION))[n];
      && final == Value(w, Fresh(w), n)
      && count == (if final == Succeeded || final == Failed then 1 else 0)
      && (final == Pending || Terminal(final))
  {
    FinalState(w, calls, n);
    ExecutionCounts(w, calls, NEW_EXECUTION, n);
  }

  /** Two runs of the same workflow from the same status agree on every step, and on the workflow
      once both have made two calls. */
  lemma OrderIndependence(w: seq<Step>, calls1: seq<Call>, calls2: seq<Call>, e: Execution)
    requires Accepted(w) && ValidCalls(w, calls1) && ValidCalls(w, calls2) && !Over(e.state)
    requires calls1 != [] && calls2 != []
    ensures Known(w, RunAll(w, calls1, e)) == Known(w, RunAll(w, calls2, e))
    ensures (|calls1| == 1 <==> |calls2| == 1) ==>
      (Over(RunAll(w, calls1, e).state) <==> Over(RunAll(w, calls2, e).state))
    ensures Over(RunAll(w, calls1, e).state) && Over(RunAll(w, calls2, e).state) ==>
      RunAll(w, calls1, e).state == RunAll(w, calls2, e).state
  {
    CallsSettle(w, calls1, e);
    CallsSettle(w, calls2, e);
    WhenOver(w, calls1, e);
    WhenOver(w, calls2, e);
  }

  // What the first call makes of the entry it creates for order[i].
  lemma FirstEntry(w: seq<Step>, c: Call, i: nat)
    requires Accepted(w) && IsOrder(w, c.order) && i < |c.order|
    ensures c.order[i].name in Names(w)
    ensures var blank := StepStatus(c.order[i].name, Pending, "", None, None);
      var steps := RunOnce(w, c, NEW_EXECUTION).steps;
      |steps| == |c.order| && steps[i] == SettleEntry(w, Fresh(w), c.now, blank)
    ensures RunOnce(w, c, NEW_EXECUTION).steps[i].name == c.order[i].name
  {
    InitialIsFresh(w, c.order);
    OrderSameSteps(w, c.order);
    assert c.order[i] in w;
    assert IsFirst(Initial(c.order), i);
  }

  /** The order decides only where a new entry is put: entries of the same name end up equal. */
  lemma EntriesAgree(w: seq<Step>, c1: Call, c2: Call, i: nat, j: nat)
    requires Accepted(w) && IsOrder(w, c1.order) && IsOrder(w, c2.order) && c1.now == c2.now
    requires i < |c1.order| && j < |c2.order| && c1.order[i].name == c2.order[j].name
    ensures var e1, e2 := RunOnce(w, c1, NEW_EXECUTION), RunOnce(w, c2, NEW_EXECUTION);
      |e1.steps| == |e2.steps| == |w| && e1.steps[i].name == c1.order[i].name && e1.steps[i] == e2.steps[j]
  {
    OrderSameSteps(w, c1.order);
    OrderSameSteps(w, c2.order);
    FirstEntry(w, c1, i);
    FirstEntry(w, c2, j);
  }

  /** A step without an entry keeps the workflow from ever being over. */
  lemma MissingEntryNeverOver(w: seq<Step>, calls: seq<Call>, e: Execution, n: string)
    requires ValidCalls(w, calls) && Accepted(w) && !Over(e.state)
    requires n in Names(w) && n !in Known(w, e)
    ensures !Over(RunAll(w, calls, e).state)
  {
    if calls != [] {
      WhenOver(w, calls, e);
      assert !Terminal(Lookup(Known(w, e), n)) && !Terminal(Lookup(After(w, Known(w, e)), n));
    }
  }

  // ---------- convergence and stuck steps ----------

  /** With recognised conditions and an entry for every step, one call finishes every step. */
  lemma {:induction false} RecognisedFinish(w: seq<Step>, m: States, n: string)
    requires Accepted(w) && Covers(w, m) && n in Names(w)
    requires forall s :: s in w ==> Recognised(s.runCondition)
    ensures Terminal(Value(w, m, n))
    decreases Ancestors(w, n)
  {
    var step := StepNamed(w, n);
    forall d | d in step.dependsOn ensures Terminal(Value(w, m, d)) {
      AncestorsShrink(w, n, d);
      RecognisedFinish(w, m, d);
    }
  }

  /** Two calls suffice, and the first alone exactly when every step was already terminal. */
  lemma Converges(w: seq<Step>, calls: seq<Call>, e: Execution)
    requires Accepted(w) && ValidCalls(w, calls) && calls != [] && !Over(e.state)
    requires Covers(w, Known(w, e)) && forall s :: s in w ==> Recognised(s.runCondition)
    ensures AllTerminal(Names(w), Known(w, RunAll(w, calls, e)))
    ensures Over(RunAll(w, calls, e).state) <==> |calls| >= 2 || AllTerminal(Names(w), Known(w, e))
    ensures forall c: Call :: IsOrder(w, c.order) && Over(RunAll(w, calls, e).state) ==>
      RunOnce(w, c, RunAll(w, calls, e)) == RunAll(w, calls, e)
  {
    CallsSettle(w, calls, e);
    WhenOver(w, calls, e);
    forall n | n in Names(w) ensures Terminal(Lookup(After(w, Known(w, e)), n)) {
      RecognisedFinish(w, Known(w, e), n);
    }
    forall c: Call | IsOrder(w, c.order) && Over(RunAll(w, calls, e).state)
      ensures RunOnce(w, c, RunAll(w, calls, e)) == RunAll(w, calls, e)
    {
      OneCall(w, c, RunAll(w, calls, e));
    }
  }

  // p leads from n, unfinished in m, over names m has as Pending or Running, to a step that no call
  // can finish: one without an entry, or with an unrecognised condition.
  ghost predicate BlockingPath(w: seq<Step>, m: States, p: seq<string>, n: string) {
    && Path(w, p) && p[0] == n && !Terminal(Lookup(m, n))
    && (forall i :: 0 <= i < |p| ==> p[i] in Names(w))
    && (forall i :: 1 <= i < |p| ==> Unfinished(Lookup(m, p[i])))
    && var last := p[|p| - 1];
       last !in m || !Recognised(StepNamed(w, last).runCondition)
  }

  lemma {:induction false} BlockedIsUnfinished(w: seq<Step>, m: States, p: seq<string>, n: string)
    requires Accepted(w) && BlockingPath(w, m, p, n)
    ensures Value(w, m, n) == Lookup(m, n)
    decreases |p|
  {
    if |p| > 1 {
      var q := p[1..];
      forall i | 0 <= i < |q| - 1 ensures Dep(w, q[i], q[i + 1]) {
        assert Dep(w, p[i + 1], p[i + 2]);
      }
      assert BlockingPath(w, m, q, p[1]);
      BlockedIsUnfinished(w, m, q, p[1]);
      assert Dep(w, p[0], p[1]);
      DepOfStep(w, n, p[1]);
    }
  }

  // Why an unfinished step stays so: for good, or because of a dependency.
  lemma WhyUnfinished(w: seq<Step>, m: States, n: string)
    requires Accepted(w) && n in Names(w) && !Terminal(Value(w, m, n))
    ensures !Terminal(Lookup(m, n))
    ensures n !in m || !Recognised(StepNamed(w, n).runCondition)
      || exists d :: d in StepNamed(w, n).dependsOn && Unfinished(Value(w, m, d)) && Unfinished(Lookup(m, d))
  {
    var step := StepNamed(w, n);
    forall d | d in step.dependsOn && Unfinished(Value(w, m, d)) ensures Unfinished(Lookup(m, d)) {
      ValueUnfinished(w, m, d);
    }
  }

  lemma ValueUnfinished(w: seq<Step>, m: States, n: string)
    requires Accepted(w) && Unfinished(Value(w, m, n))
    ensures Unfinished(Lookup(m, n))
  {
  }

  lemma BlockingPathExtends(w: seq<Step>, m: States, n: string, q: seq<string>, d: string)
    requires n in Names(w) && !Terminal(Lookup(m, n)) && Dep(w, n, d)
    requires BlockingPath(w, m, q, d) && Unfinished(Lookup(m, d))
    ensures BlockingPath(w, m, [n] + q, n)
  {
    var p := [n] + q;
    assert p[1..] == q;
    forall i | 0 <= i < |p| - 1 ensures Dep(w, p[i], p[i + 1]) {
      assert i > 0 ==> Dep(w, q[i - 1], q[i]);
    }
  }

  lemma {:induction false} UnfinishedIsBlocked(w: seq<Step>, m: States, n: string) returns (p: seq<string>)
    requires Accepted(w) && n in Names(w) && !Terminal(Value(w, m, n))
    ensures BlockingPath(w, m, p, n)
    decreases Ancestors(w, n)
  {
    WhyUnfinished(w, m, n);
    if n !in m || !Recognised(StepNamed(w, n).runCondition) {
      p := [n];
    } else {
      var d :| d in StepNamed(w, n).dependsOn && Unfinished(Value(w, m, d)) && Unfinished(Lookup(m, d));
      DepOfStep(w, n, d);
      AncestorsShrink(w, n, d);
      var q := UnfinishedIsBlocked(w, m, d);
      BlockingPathExtends(w, m, n, q, d);
      p := [n] + q;
    }
  }

  /** From any status whatever, the steps no number of calls finishes are exactly those leading, over
      unfinished dependencies, to a step without an entry or with an unrecognised run condition. */
  lemma StuckIff(w: seq<Step>, m: States, n: string)
    requires Accepted(w) && n in Names(w)
    ensures !Terminal(Value(w, m, n)) <==> exists p :: BlockingPath(w, m, p, n)
  {
    if !Terminal(Value(w, m, n)) {
      var p := UnfinishedIsBlocked(w, m, n);
    }
    forall p | BlockingPath(w, m, p, n) ensures !Terminal(Value(w, m, n)) {
      BlockedIsUnfinished(w, m, p, n);
    }
  }

  /** The same for runs: after one or any more calls, exactly those steps are unfinished. */
  lemma StuckInRuns(w: seq<Step>, calls: seq<Call>, e: Execution, n: string)
    requires Accepted(w) && ValidCalls(w, calls) && calls != [] && !Over(e.state) && n in Names(w)
    ensures !Terminal(Lookup(Known(w, RunAll(w, calls, e)), n)) <==> exists p :: BlockingPath(w, Known(w, e), p, n)
  {
    CallsSettle(w, calls, e);
    StuckIff(w, Known(w, e), n);
  }

  // From scratch every step is Pending and has an entry.
  lemma FreshBlocking(w: seq<Step>, n: string)
    requires Accepted(w) && n in Names(w)
    ensures (exists p :: BlockingPath(w, Fresh(w), p, n)) <==>
      exists p, b :: PathBetween(w, p, n, b) && b in Names(w) && !Recognised(StepNamed(w, b).runCondition)
  {
    forall p, b | PathBetween(w, p, n, b) && b in Names(w) && !Recognised(StepNamed(w, b).runCondition)
      ensures BlockingPath(w, Fresh(w), p, n)
    {
      forall i | 0 <= i < |p| ensures p[i] in Names(w) {
        if i < |p| - 1 {
          assert Dep(w, p[i], p[i + 1]);
        }
      }
    }
    forall p | BlockingPath(w, Fresh(w), p, n) ensures PathBetween(w, p, n, p[|p| - 1]) {
    }
  }

  /** From scratch: after any number of calls a step is unfinished exactly if a dependency path leads
      from it to an unrecognised condition, and one such step keeps the workflow Running forever. */
  lemma StuckForever(w: seq<Step>, calls: seq<Call>, n: string)
    requires Accepted(w) && ValidCalls(w, calls) && calls != [] && n in Names(w)
    ensures !Terminal(Lookup(Known(w, RunAll(w, calls, NEW_EXECUTION)), n))
      <==> exists p, b :: PathBetween(w, p, n, b) && b in Names(w) && !Recognised(StepNamed(w, b).runCondition)
    ensures !Terminal(Lookup(Known(w, RunAll(w, calls, NEW_EXECUTION)), n)) ==>
      RunAll(w, calls, NEW_EXECUTION).state == Running
  {
    assert Known(w, NEW_EXECUTION) == Fresh(w);
    StuckInRuns(w, calls, NEW_EXECUTION, n);
    FreshBlocking(w, n);
    UnfinishedKeepsRunning(w, calls, n);
  }

  lemma UnfinishedKeepsRunning(w: seq<Step>, calls: seq<Call>, n: string)
    requires Accepted(w) && ValidCalls(w, calls) && calls != [] && n in Names(w)
    ensures !Terminal(Lookup(Known(w, RunAll(w, calls, NEW_EXECUTION)), n)) ==>
      RunAll(w, calls, NEW_EXECUTION).state == Running
  {
    assert Known(w, NEW_EXECUTION) == Fresh(w);
    CallsSettle(w, calls, NEW_EXECUTION);
    WhenOver(w, calls, NEW_EXECUTION);
    StaysRunning(w, calls);
    assert !Terminal(Lookup(Fresh(w), n));
  }

  const MISSPELT := [
    Step("first", OtherAction("Restart"), [], UnrecognisedCondition("onSuccess"), map[]),
    Step("second", OtherAction("Evict"), ["first"], Always, map[])]

  /** A misspelt condition: neither that step nor its dependent is ever finished, however often the runner is called. */
  lemma MisspeltConditionSticks(calls: seq<Call>)
    requires calls != []
    requires ValidCalls(MISSPELT, calls)
    ensures var e := RunAll(MISSPELT, calls, NEW_EXECUTION);
      && Accepted(MISSPELT) && e.state == Running
      && Lookup(Known(MISSPELT, e), "first") == Pending && Lookup(Known(MISSPELT, e), "second") == Pending
  {
    MisspeltPaths();
    StuckForever(MISSPELT, calls, "first");
    StuckForever(MISSPELT, calls, "second");
    FinalState(MISSPELT, calls, "first");
    FinalState(MISSPELT, calls, "second");
    FreshValues(MISSPELT, "first");
    FreshValues(MISSPELT, "second");
  }

  lemma MisspeltAccepted()
    ensures IsOrder(MISSPELT, MISSPELT) && Accepted(MISSPELT)
    ensures "first" in Names(MISSPELT) && StepNamed(MISSPELT, "first") == MISSPELT[0]
    ensures "second" in Names(MISSPELT) && StepNamed(MISSPELT, "second") == MISSPELT[1]
  {
    var w := MISSPELT;
    assert w[0] in w && w[1] in w;
    assert "first"[0] == 'f' && "second"[0] == 's';
    forall i | 0 <= i < |w| ensures DepsBefore(w, i) {
      assert i == 1 ==> w[0].name == "first";
    }
    OrderImpliesAccepted(w, w);
    StepNamedUnique(w, w[0]);
    StepNamedUnique(w, w[1]);
  }

  lemma MisspeltPaths()
    ensures Accepted(MISSPELT) && "first" in Names(MISSPELT) && "second" in Names(MISSPELT)
    ensures !Recognised(StepNamed(MISSPELT, "first").runCondition)
    ensures PathBetween(MISSPELT, ["first"], "first", "first")
    ensures PathBetween(MISSPELT, ["second", "first"], "second", "first")
  {
    MisspeltAccepted();
    DepOfStep(MISSPELT, "second", "first");
  }

  lemma {:induction false} StaysRunning(w: seq<Step>, calls: seq<Call>)
    requires Accepted(w) && ValidCalls(w, calls) && calls != []
    ensures Over(RunAll(w, calls, NEW_EXECUTION).state) || RunAll(w, calls, NEW_EXECUTION).state == Running
  {
    var k := |calls| - 1;
    if k > 0 {
      StaysRunning(w, calls[..k]);
    }
  }

  // ---------- how failure spreads ----------

  ghost predicate SuccessOnly(c: RunCondition) {
    c.OnSuccess? || c.Unset?
  }

  lemma FreshValues(w: seq<Step>, n: string)
    requires Accepted(w)
    ensures Value(w, Fresh(w), n) == Pending || Terminal(Value(w, Fresh(w), n))
  {
  }

  // What a finished step depends on is finished.
  lemma DependencyFinished(w: seq<Step>, n: string, d: string)
    requires Accepted(w) && n in Names(w) && d in StepNamed(w, n).dependsOn
    requires Terminal(Value(w, Fresh(w), n))
    ensures Terminal(Value(w, Fresh(w), d))
  {
    FreshValues(w, d);
    assert DecisionFor(w, Fresh(w), n) != Wait;
  }

  lemma {:induction false} CascadeValue(w: seq<Step>, p: seq<string>, n: string, a: string)
    requires Accepted(w) && PathBetween(w, p, n, a) && |p| >= 2
    requires Bad(Value(w, Fresh(w), a)) && Terminal(Value(w, Fresh(w), n))
    requires forall i :: 0 <= i < |p| - 1 ==> p[i] in Names(w) && SuccessOnly(StepNamed(w, p[i]).runCondition)
    ensures Value(w, Fresh(w), n) == Skipped && !Executes(w, Fresh(w), n)
    decreases |p|
  {
    var m := Fresh(w);
    assert Dep(w, p[0], p[1]);
    DepOfStep(w, n, p[1]);
    if |p| > 2 {
      var q := p[1..];
      forall i | 0 <= i < |q| - 1 ensures Dep(w, q[i], q[i + 1]) {
        assert Dep(w, p[i + 1], p[i + 2]);
      }
      assert PathBetween(w, q, p[1], a);
      DependencyFinished(w, n, p[1]);
      CascadeValue(w, q, p[1], a);
    }
  }

  /** In a run from scratch, a step that depends on a Failed or Skipped one through OnSuccess steps alone
      ends Skipped without ever being executed, if it ends at all. */
  lemma SkipCascade(w: seq<Step>, calls: seq<Call>, p: seq<string>, n: string, a: string)
    requires Accepted(w) && ValidCalls(w, calls) && calls != []
    requires PathBetween(w, p, n, a) && |p| >= 2
    requires forall i :: 0 <= i < |p| - 1 ==> p[i] in Names(w) && SuccessOnly(StepNamed(w, p[i]).runCondition)
    requires Bad(Lookup(Known(w, RunAll(w, calls, NEW_EXECUTION)), a))
    requires Terminal(Lookup(Known(w, RunAll(w, calls, NEW_EXECUTION)), n))
    ensures Lookup(Known(w, RunAll(w, calls, NEW_EXECUTION)), n) == Skipped
    ensures n !in TraceAll(w, calls, NEW_EXECUTION)
  {
    CallsSettle(w, calls, NEW_EXECUTION);
    CascadeValue(w, p, n, a);
    ExecutionCounts(w, calls, NEW_EXECUTION, n);
    assert n in TraceAll(w, calls, NEW_EXECUTION) <==> n in multiset(TraceAll(w, calls, NEW_EXECUTION));
  }

  lemma AlwaysDecision(w: seq<Step>, m: States, n: string)
    requires Accepted(w) && n in Names(w) && StepNamed(w, n).runCondition == Always
    ensures DecisionFor(w, m, n) == Wait || DecisionFor(w, m, n) == Execute
  {
  }

  /** In a run from scratch an Always step that ends at all is executed, exactly once. */
  lemma AlwaysRuns(w: seq<Step>, calls: seq<Call>, n: string)
    requires Accepted(w) && ValidCalls(w, calls) && calls != [] && n in Names(w)
    requires StepNamed(w, n).runCondition == Always
    requires Terminal(Lookup(Known(w, RunAll(w, calls, NEW_EXECUTION)), n))
    ensures multiset(TraceAll(w, calls, NEW_EXECUTION))[n] == 1
  {
    FinalState(w, calls, n);
    ExecutionCounts(w, calls, NEW_EXECUTION, n);
    AlwaysDecision(w, Fresh(w), n);
  }

  lemma FailedIffExecutionFails(w: seq<Step>, calls: seq<Call>, s: Step)
    requires Accepted(w) && ValidCalls(w, calls) && calls != [] && s in w
    ensures Lookup(After(w, Fresh(w)), s.name) == Failed
      <==> s.name in TraceAll(w, calls, NEW_EXECUTION) && ExecuteStep(s).Some?
  {
    var m, trace := Fresh(w), TraceAll(w, calls, NEW_EXECUTION);
    StepNamedUnique(w, s);
    assert After(w, m)[s.name] == Outcome(Pending, s, DecisionFor(w, m, s.name));
    assert Executes(w, m, s.name) <==> DecisionFor(w, m, s.name) == Execute;
    ExecutionCounts(w, calls, NEW_EXECUTION, s.name);
    assert s.name in trace <==> s.name in multiset(trace);
  }

  /** The verdict of a run from scratch: Failed exactly if some executed step's execution fails, so
      skipped steps alone leave it Succeeded. */
  lemma VerdictFromScratch(w: seq<Step>, calls: seq<Call>)
    requires Accepted(w) && ValidCalls(w, calls) && calls != []
    requires Over(RunAll(w, calls, NEW_EXECUTION).state)
    ensures RunAll(w, calls, NEW_EXECUTION).state == Failed <==>
      exists s :: s in w && s.name in TraceAll(w, calls, NEW_EXECUTION) && ExecuteStep(s).Some?
  {
    WhenOver(w, calls, NEW_EXECUTION);
    forall s | s in w
      ensures s.name in Names(w)
      ensures Lookup(After(w, Fresh(w)), s.name) == Failed
        <==> s.name in TraceAll(w, calls, NEW_EXECUTION) && ExecuteStep(s).Some?
    {
      FailedIffExecutionFails(w, calls, s);
    }
  }

  ghost predicate SomeIn(deps: seq<string>, m: States, states: set<StepState>) {
    exists d :: d in deps && Lookup(m, d) in states
  }

  /** What the run conditions come to over whole runs, from any status: a step not terminal at the start is executed,
      or ends Skipped, exactly as its condition says about the states its dependencies end in. */
  lemma ConditionsHonoured(w: seq<Step>, calls: seq<Call>, e: Execution, n: string)
    requires Accepted(w) && ValidCalls(w, calls) && calls != [] && e.state != Succeeded && e.state != Failed
    requires n in Names(w) && Lookup(Known(w, e), n) !in {Succeeded, Failed, Skipped}
    ensures var final := Known(w, RunAll(w, calls, e));
      var step := StepNamed(w, n);
      var deps := step.dependsOn;
      var waiting := SomeIn(deps, final, {Pending, Running});
      var bad := SomeIn(deps, final, {Failed, Skipped});
      && (n in TraceAll(w, calls, e) <==>
            !waiting && (step.runCondition == Always
                         || (step.runCondition == OnFailure && (bad || deps == []))
                         || ((step.runCondition == OnSuccess || step.runCondition == Unset) && !bad)))
      && (n in Known(w, e) ==>
            (Lookup(final, n) == Skipped <==>
              !waiting && ((step.runCondition == OnFailure && !bad && deps != [])
                           || ((step.runCondition == OnSuccess || step.runCondition == Unset) && bad))))
      && (n in Known(w, e) && n in TraceAll(w, calls, e) ==>
            Lookup(final, n) == if ExecuteStep(step).Some? then Failed else Succeeded)
      && (n in Known(w, e) && n !in TraceAll(w, calls, e) && Lookup(final, n) != Skipped ==>
            Lookup(final, n) == Known(w, e)[n])
  {
    var m, final := Known(w, e), Known(w, RunAll(w, calls, e));
    CallsSettle(w, calls, e);
    ExecutionCounts(w, calls, e, n);
    assert n in TraceAll(w, calls, e) <==> n in multiset(TraceAll(w, calls, e));
    assert final == After(w, m);
    assert n in TraceAll(w, calls, e) <==> Executes(w, m, n);
    FinalDecides(w, m, n);
  }

  lemma FinalDecides(w: seq<Step>, m: States, n: string)
    requires Accepted(w) && n in Names(w) && Lookup(m, n) !in {Succeeded, Failed, Skipped}
    ensures var final := After(w, m);
      var step := StepNamed(w, n);
      var deps := step.dependsOn;
      var waiting := SomeIn(deps, final, {Pending, Running});
      var bad := SomeIn(deps, final, {Failed, Skipped});
      && (Executes(w, m, n) <==>
            !waiting && (step.runCondition == Always
                         || (step.runCondition == OnFailure && (bad || deps == []))
                         || ((step.runCondition == OnSuccess || step.runCondition == Unset) && !bad)))
      && (n in m ==>
            (Lookup(final, n) == Skipped <==>
              !waiting && ((step.runCondition == OnFailure && !bad && deps != [])
                           || ((step.runCondition == OnSuccess || step.runCondition == Unset) && bad))))
      && (n in m && Executes(w, m, n) ==> Lookup(final, n) == if ExecuteStep(step).Some? then Failed else Succeeded)
      && (n in m && !Executes(w, m, n) && Lookup(final, n) != Skipped ==> Lookup(final, n) == m[n])
  {
    var step := StepNamed(w, n);
    forall d { FinalLookup(w, m, d); }
    DependencyStates(step.dependsOn, After(w, m));
  }

  lemma DependencyStates(deps: seq<string>, m: States)
    ensures SomeIn(deps, m, {Pending, Running}) <==> exists d :: d in deps && Unfinished(Lookup(m, d))
    ensures SomeIn(deps, m, {Failed, Skipped}) <==> exists d :: d in deps && Bad(Lookup(m, d))
  {
  }

  lemma FinalLookup(w: seq<Step>, m: States, n: string)
    requires Accepted(w)
    ensures Lookup(After(w, m), n) == Value(w, m, n)
  {
  }

  // ---------- what a run writes down ----------

  /** The whole entry of a step that was not terminal before a run: the message that belongs to its state, and the first
      call's time as its finish time unless it had one; an entry left unfinished is left as it was. */
  lemma OutcomeRecorded(w: seq<Step>, calls: seq<Call>, e: Execution, i: nat)
    requires Accepted(w) && ValidCalls(w, calls) && calls != [] && e.state != Succeeded && e.state != Failed
    requires i < |RunAll(w, calls, e).steps| && IsFirst(RunAll(w, calls, e).steps, i)
    requires var n := RunAll(w, calls, e).steps[i].name;
      n in Names(w) && Lookup(Known(w, e), n) !in {Succeeded, Failed, Skipped}
    ensures e.steps != [] ==> |e.steps| == |RunAll(w, calls, e).steps|
    ensures var s := RunAll(w, calls, e).steps[i];
      var step := StepNamed(w, s.name);
      var before := if e.steps == [] then StepStatus(s.name, Pending, "", None, None) else e.steps[i];
      && s.name == before.name && s.startTime == before.startTime
      && (s.state == Failed ==> ExecuteStep(step) == Some(s.message))
      && (s.state == Succeeded ==> ExecuteStep(step) == None && s.message == "Action completed")
      && (s.state == Skipped && step.runCondition == OnFailure ==> s.message == "Skipped (dependencies succeeded)")
      && (s.state == Skipped && step.runCondition != OnFailure ==> s.message == "Skipped (dependency failed)")
      && (s.state in {Succeeded, Failed, Skipped} ==>
            s.finishTime == if before.finishTime == None then Some(calls[0].now) else before.finishTime)
      && (s.state !in {Succeeded, Failed, Skipped} ==> s == before)
  {
    LaterCallsKeepEntries(w, calls, e);
    var c := calls[0];
    var sts := Entries(e, c.order);
    OrderSameSteps(w, c.order);
    OneCall(w, c, e);
    forall j | 0 <= j <= i ensures SettleVisited(w, sts, Names(w), c.now)[j].name == sts[j].name {
      SettledName(w, sts, Names(w), c.now, j);
    }
    assert IsFirst(sts, i);
    StateOfFirst(sts, i);
    EntryRecorded(w, StatesOf(sts), c.now, sts[i]);
  }

  lemma EntryRecorded(w: seq<Step>, m: States, now: Time, before: StepStatus)
    requires Accepted(w) && before.name in Names(w) && before.state !in {Succeeded, Failed, Skipped}
    ensures var s := SettleEntry(w, m, now, before);
      var step := StepNamed(w, s.name);
      && s.name == before.name && s.startTime == before.startTime
      && (s.state == Failed ==> ExecuteStep(step) == Some(s.message))
      && (s.state == Succeeded ==> ExecuteStep(step) == None && s.message == "Action completed")
      && (s.state == Skipped && step.runCondition == OnFailure ==> s.message == "Skipped (dependencies succeeded)")
      && (s.state == Skipped && step.runCondition != OnFailure ==> s.message == "Skipped (dependency failed)")
      && (s.state in {Succeeded, Failed, Skipped} ==>
            s.finishTime == if before.finishTime == None then Some(now) else before.finishTime)
      && (s.state !in {Succeeded, Failed, Skipped} ==> s == before)
  {
  }

  /** A run stamps the start of the workflow once, with the time of its first call, and leaves its state Running
      until it is over. */
  lemma {:induction false} StartRecorded(w: seq<Step>, calls: seq<Call>, e: Execution)
    requires Accepted(w) && ValidCalls(w, calls) && calls != []
    ensures RunAll(w, calls, e).startTime == if e.state == NoState then Some(calls[0].now) else e.startTime
    ensures RunAll(w, calls, e).state in {Succeeded, Failed, if e.state == NoState then Running else e.state}
  {
    var k := |calls| - 1;
    var before := RunAll(w, calls[..k], e);
    if k > 0 {
      StartRecorded(w, calls[..k], e);
      CallStarts(w, calls[k], before);
    } else {
      CallStarts(w, calls[k], e);
    }
  }

  lemma CallStarts(w: seq<Step>, c: Call, e: Execution)
    requires Accepted(w)
    ensures RunOnce(w, c, e).startTime == if e.state == NoState then Some(c.now) else e.startTime
    ensures RunOnce(w, c, e).state in {Succeeded, Failed, if e.state == NoState then Running else e.state}
  {
  }

  // ---------- the state machine ----------

  // What no call does to an entry: rename it, touch it once terminal, or rewrite a time.
  predicate EntryKept(s: StepStatus, s': StepStatus) {
    && s'.name == s.name && s'.startTime == s.startTime
    && (Terminal(s.state) ==> s' == s)
    && (s.finishTime.Some? ==> s'.finishTime == s.finishTime)
  }

  lemma CallKeepsEntry(w: seq<Step>, c: Call, e: Execution, i: nat)
    requires i < |e.steps|
    ensures |RunOnce(w, c, e).steps| == |e.steps| && EntryKept(e.steps[i], RunOnce(w, c, e).steps[i])
  {
  }

  /** No run, on an accepted workflow or not, ever touches a terminal entry or rewrites a finish time. */
  lemma {:induction false} EntriesKept(w: seq<Step>, calls: seq<Call>, e: Execution, i: nat)
    requires i < |e.steps|
    ensures |RunAll(w, calls, e).steps| == |e.steps| && EntryKept(e.steps[i], RunAll(w, calls, e).steps[i])
  {
    if calls != [] {
      var k := |calls| - 1;
      EntriesKept(w, calls[..k], e, i);
      CallKeepsEntry(w, calls[k], RunAll(w, calls[..k], e), i);
    }
  }

  ghost predicate Stamped(e: Execution) {
    forall i :: 0 <= i < |e.steps| ==> (Terminal(e.steps[i].state) <==> e.steps[i].finishTime.Some?)
  }

  lemma StampedKept(w: seq<Step>, c: Call, e: Execution)
    requires Stamped(e)
    ensures Stamped(RunOnce(w, c, e))
  {
    if Accepted(w) && !Over(Started(e, c.now).state) {
      var sts := Entries(e, c.order);
      forall i | 0 <= i < |sts| ensures Terminal(sts[i].state) <==> sts[i].finishTime.Some? {
      }
      var sts' := SettleVisited(w, sts, Names(w), c.now);
      forall i | 0 <= i < |sts| ensures Terminal(sts'[i].state) <==> sts'[i].finishTime.Some? {
        if IsFirst(sts, i) && sts[i].name in Names(w) {
          assert sts'[i] == SettleEntry(w, StatesOf(sts), c.now, sts[i]);
        }
      }
    }
  }

  /** From scratch, an entry has a finish time exactly if it is terminal. */
  lemma {:induction false} FinishTimesMatch(w: seq<Step>, calls: seq<Call>, e: Execution)
    requires Stamped(e)
    ensures Stamped(RunAll(w, calls, e))
  {
    if calls != [] {
      var k := |calls| - 1;
      FinishTimesMatch(w, calls[..k], e);
      StampedKept(w, calls[k], RunAll(w, calls[..k], e));
    }
  }

  /** A verdict is final exactly when the workflow is accepted or the verdict is Failed: a rejected
      workflow turns even a Succeeded status into Failed. */
  lemma VerdictFinalIff(w: seq<Step>, c: Call, e: Execution)
    requires Over(e.state)
    ensures RunOnce(w, c, e).state == e.state <==> Accepted(w) || e.state == Failed
    ensures RunOnce(w, c, e).steps == e.steps && TraceOnce(w, c, e) == []
  {
  }

  /** Adding a second step of the same name under a Succeeded status makes it Failed. */
  lemma DuplicateNameOverturnsVerdict(c: Call, e: Execution)
    requires e.state == Succeeded
    ensures var step := Step("restart", OtherAction("Restart"), [], Unset, map[]);
      RunOnce([step, step], c, e) == e.(state := Failed)
  {
    var step := Step("restart", OtherAction("Restart"), [], Unset, map[]);
    var w := [step, step];
    assert w[0].name == w[1].name;
  }

  /** A rejected workflow fails at once, executes nothing and leaves every entry alone. */
  lemma {:induction false} RejectedRun(w: seq<Step>, calls: seq<Call>, e: Execution)
    requires !Accepted(w) && calls != []
    ensures RunAll(w, calls, e) == e.(state := Failed) && TraceAll(w, calls, e) == []
  {
    var k := |calls| - 1;
    if k > 0 {
      RejectedRun(w, calls[..k], e);
    } else {
      assert TraceAll(w, calls[..0], e) == [];
    }
  }

  /** In a run from scratch a verdict, once reached, never changes. */
  lemma VerdictStays(w: seq<Step>, calls: seq<Call>, k: nat)
    requires ValidCalls(w, calls) && k <= |calls|
    requires Over(RunAll(w, calls[..k], NEW_EXECUTION).state)
    ensures RunAll(w, calls, NEW_EXECUTION).state == RunAll(w, calls[..k], NEW_EXECUTION).state
  {
    assert k > 0;
    if Accepted(w) {
      WhenOver(w, calls[..k], NEW_EXECUTION);
      WhenOver(w, calls, NEW_EXECUTION);
      TerminalKept(w, Known(w, NEW_EXECUTION));
    } else {
      RejectedRun(w, calls[..k], NEW_EXECUTION);
      RejectedRun(w, calls, NEW_EXECUTION);
    }
  }
}
