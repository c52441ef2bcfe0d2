// What one call of the workflow runner means, independently of the order in
// which it visits the steps: a recursion over dependencies.

module Semantics {
  import opened Basics
  import opened Workflow
  import opened Dag

  // ---------- the persisted statuses ----------

  // Lookups and updates by name only ever touch the first entry with that name.
  predicate IsFirst(sts: seq<StepStatus>, i: nat)
    requires i < |sts|
  {
    forall j :: 0 <= j < i ==> sts[j].name != sts[i].name
  }

  type States = map<string, StepState>

  // The states a lookup by name can see.
  ghost function StatesOf(sts: seq<StepStatus>): States {
    if sts == [] then map[]
    else
      var k := |sts| - 1;
      var m := StatesOf(sts[..k]);
      if sts[k].name in m then m else m[sts[k].name := sts[k].state]
  }

  // A name without an entry reads as Pending.
  function Lookup(m: States, n: string): StepState {
    if n in m then m[n] else Pending
  }

  // The entries a first call creates.
  function Initial(order: seq<Step>): seq<StepStatus> {
    seq(|order|, i requires 0 <= i < |order| => StepStatus(order[i].name, Pending, "", None, None))
  }

  ghost function Fresh(w: seq<Step>): States {
    map n | n in Names(w) :: Pending
  }

  // ---------- deciding and evaluating a single step ----------

  datatype Decision = Wait | LeaveAlone | SkipUnneeded | SkipAfterFailure | Execute

  // waiting: some dependency is unfinished; bad: some dependency failed or was skipped.
  function Decide(step: Step, waiting: bool, bad: bool): Decision {
    if waiting then Wait
    else match step.runCondition
      case Always => Execute
      case OnFailure => if bad || step.dependsOn == [] then Execute else SkipUnneeded
      case OnSuccess => if bad then SkipAfterFailure else Execute
      case Unset => if bad then SkipAfterFailure else Execute
      case UnrecognisedCondition(_) => LeaveAlone
  }

  function Outcome(cur: StepState, step: Step, d: Decision): StepState {
    match d
    case Wait => cur
    case LeaveAlone => cur
    case SkipUnneeded => Skipped
    case SkipAfterFailure => Skipped
    case Execute => if ExecuteStep(step).Some? then Failed else Succeeded
  }

  /** The state of n after a call that starts from the states m. */
  ghost function Value(w: seq<Step>, m: States, n: string): StepState
    requires Accepted(w)
    decreases Ancestors(w, n), 1
  {
    var cur := Lookup(m, n);
    if n !in Names(w) || n !in m || Terminal(cur) then cur
    else Outcome(cur, StepNamed(w, n), DecisionFor(w, m, n))
  }

  /** What the call decides about n, from the values of its dependencies. */
  ghost function DecisionFor(w: seq<Step>, m: States, n: string): Decision
    requires Accepted(w) && n in Names(w)
    decreases Ancestors(w, n), 0
  {
    var step := StepNamed(w, n);
    assert forall d :: d in step.dependsOn ==> Ancestors(w, d) < Ancestors(w, n) by {
      forall d | d in step.dependsOn ensures Ancestors(w, d) < Ancestors(w, n) {
        AncestorsShrink(w, n, d);
      }
    }
    Decide(step,
           exists d :: d in step.dependsOn && Unfinished(Value(w, m, d)),
           exists d :: d in step.dependsOn && Bad(Value(w, m, d)))
  }

  // The call executes n. Nothing here asks for an entry of n.
  ghost predicate Executes(w: seq<Step>, m: States, n: string)
    requires Accepted(w)
  {
    n in Names(w) && !Terminal(Lookup(m, n)) && DecisionFor(w, m, n) == Execute
  }

  // The states a lookup sees after the call.
  ghost function After(w: seq<Step>, m: States): States
    requires Accepted(w)
  {
    map n | n in m :: Value(w, m, n)
  }

  // ---------- whole calls ----------

  // A finish time that is set is never written again.
  function Stamp(finish: Option<Time>, now: Time): Option<Time> {
    if finish.None? then Some(now) else finish
  }

  function Finished(s: StepStatus, state: StepState, message: string, now: Time): StepStatus {
    s.(state := state, message := message, finishTime := Stamp(s.finishTime, now))
  }

  // What a decision does to the entry of its step.
  function Settled(s: StepStatus, step: Step, d: Decision, now: Time): (r: StepStatus)
    ensures r.name == s.name && r.state == Outcome(s.state, step, d)
  {
    match d
    case Wait => s
    case LeaveAlone => s
    case SkipUnneeded => Finished(s, Skipped, "Skipped (dependencies succeeded)", now)
    case SkipAfterFailure => Finished(s, Skipped, "Skipped (dependency failed)", now)
    case Execute =>
      match ExecuteStep(step)
      case Some(error) => Finished(s, Failed, error, now)
      case None => Finished(s, Succeeded, "Action completed", now)
  }

  ghost function SettleEntry(w: seq<Step>, m: States, now: Time, s: StepStatus): (r: StepStatus)
    requires Accepted(w) && s.name in Names(w)
    ensures r.name == s.name
  {
    if Terminal(s.state) then s else Settled(s, StepNamed(w, s.name), DecisionFor(w, m, s.name), now)
  }

  // The entries after a call has visited the steps named in visited.
  ghost function SettleVisited(w: seq<Step>, sts: seq<StepStatus>, visited: set<string>, now: Time): seq<StepStatus>
    requires Accepted(w) && visited <= Names(w)
  {
    seq(|sts|, i requires 0 <= i < |sts| =>
      if IsFirst(sts, i) && sts[i].name in visited then SettleEntry(w, StatesOf(sts), now, sts[i]) else sts[i])
  }

  // The names a call executes while visiting the steps of order, in that order.
  ghost function ExecutedNames(w: seq<Step>, m: States, order: seq<Step>): seq<string>
    requires Accepted(w)
  {
    if order == [] then []
    else
      var k := |order| - 1;
      ExecutedNames(w, m, order[..k]) + if Executes(w, m, order[k].name) then [order[k].name] else []
  }

  datatype Execution = Execution(state: StepState, steps: seq<StepStatus>, startTime: Option<Time>)

  // One call of the runner: the sort result it worked with and its clock.
  datatype Call = Call(order: seq<Step>, now: Time)

  ghost predicate AllTerminal(names: set<string>, m: States) {
    forall n :: n in names ==> Terminal(Lookup(m, n))
  }

  ghost predicate AnyFailed(names: set<string>, m: States) {
    exists n :: n in names && Lookup(m, n) == Failed
  }

  // The workflow state once the sort has succeeded.
  function Started(e: Execution, now: Time): Execution {
    if e.state == NoState then e.(state := Running, startTime := Some(now)) else e
  }

  predicate Over(state: StepState) {
    state == Succeeded || state == Failed
  }

  function Entries(e: Execution, order: seq<Step>): seq<StepStatus> {
    if e.steps == [] then Initial(order) else e.steps
  }

  ghost function Verdict(w: seq<Step>, m: States, state: StepState): StepState {
    if !AllTerminal(Names(w), m) then state else if AnyFailed(Names(w), m) then Failed else Succeeded
  }

  /** The whole effect of one call on the persisted status. */
  ghost function RunOnce(w: seq<Step>, c: Call, e: Execution): Execution {
    if !Accepted(w) then e.(state := Failed)
    else
      var e1 := Started(e, c.now);
      if Over(e1.state) then e1
      else
        var sts := Entries(e, c.order);
        e1.(state := Verdict(w, StatesOf(sts), e1.state), steps := SettleVisited(w, sts, Names(w), c.now))
  }

  /** The names one call executes, in order. */
  ghost function TraceOnce(w: seq<Step>, c: Call, e: Execution): seq<string> {
    if !Accepted(w) || Over(e.state) then [] else ExecutedNames(w, StatesOf(Entries(e, c.order)), c.order)
  }

  // ---------- entries ----------

  lemma {:induction false} FirstExists(sts: seq<StepStatus>, i: nat) returns (k: nat)
    requires i < |sts|
    ensures k <= i && IsFirst(sts, k) && sts[k].name == sts[i].name
  {
    if IsFirst(sts, i) {
      k := i;
    } else {
      var j :| 0 <= j < i && sts[j].name == sts[i].name;
      k := FirstExists(sts, j);
    }
  }

  /** What a lookup sees of a name is the state of its first entry. */
  lemma {:induction false} EntryOf(sts: seq<StepStatus>, n: string) returns (i: nat)
    requires n in StatesOf(sts)
    ensures i < |sts| && IsFirst(sts, i) && sts[i].name == n && sts[i].state == StatesOf(sts)[n]
  {
    var k := |sts| - 1;
    if n in StatesOf(sts[..k]) {
      i := EntryOf(sts[..k], n);
    } else {
      i := k;
      forall j | 0 <= j < k ensures sts[j].name != n {
        EntrySeen(sts[..k], j);
      }
    }
  }

  lemma {:induction false} EntrySeen(sts: seq<StepStatus>, i: nat)
    requires i < |sts|
    ensures sts[i].name in StatesOf(sts)
  {
    var k := |sts| - 1;
    if i < k {
      EntrySeen(sts[..k], i);
    }
  }

  lemma StateOfFirst(sts: seq<StepStatus>, i: nat)
    requires i < |sts| && IsFirst(sts, i)
    ensures sts[i].name in StatesOf(sts) && StatesOf(sts)[sts[i].name] == sts[i].state
  {
    EntrySeen(sts, i);
    var f := EntryOf(sts, sts[i].name);
    assert f == i;
  }

  lemma InitialIsFresh(w: seq<Step>, order: seq<Step>)
    requires IsOrder(w, order)
    ensures StatesOf(Initial(order)) == Fresh(w)
  {
    OrderSameSteps(w, order);
    var sts := Initial(order);
    forall n | n in Names(w) ensures n in StatesOf(sts) && StatesOf(sts)[n] == Pending {
      var s :| s in order && s.name == n;
      var i :| 0 <= i < |order| && order[i] == s;
      assert sts[i].name == n;
      EntrySeen(sts, i);
      var k := EntryOf(sts, n);
    }
    forall n | n in StatesOf(sts) ensures n in Names(w) {
      var k := EntryOf(sts, n);
      assert order[k] in w;
    }
  }

  // Rewriting entries without renaming them: what the lookups see afterwards.
  lemma StatesOfRewritten(sts: seq<StepStatus>, sts': seq<StepStatus>, m': States)
    requires |sts'| == |sts| && forall i :: 0 <= i < |sts| ==> sts'[i].name == sts[i].name
    requires m'.Keys == StatesOf(sts).Keys
    requires forall i :: 0 <= i < |sts| && IsFirst(sts, i) ==> Lookup(m', sts[i].name) == sts'[i].state
    ensures StatesOf(sts') == m'
  {
    forall i | 0 <= i < |sts| ensures IsFirst(sts', i) <==> IsFirst(sts, i) {
    }
    forall n | n in m' ensures n in StatesOf(sts') && StatesOf(sts')[n] == m'[n] {
      var i := EntryOf(sts, n);
      StateOfFirst(sts', i);
    }
    forall n | n in StatesOf(sts') ensures n in m' {
      var i := EntryOf(sts', n);
      EntrySeen(sts, i);
    }
  }

  lemma SettleEntryState(w: seq<Step>, m: States, now: Time, s: StepStatus)
    requires Accepted(w) && s.name in Names(w) && s.name in m && m[s.name] == s.state
    ensures SettleEntry(w, m, now, s).name == s.name
    ensures SettleEntry(w, m, now, s).state == Value(w, m, s.name)
  {
  }

  lemma SettledName(w: seq<Step>, sts: seq<StepStatus>, visited: set<string>, now: Time, i: nat)
    requires Accepted(w) && visited <= Names(w) && i < |sts|
    ensures SettleVisited(w, sts, visited, now)[i].name == sts[i].name
  {
  }

  lemma SettledState(w: seq<Step>, sts: seq<StepStatus>, visited: set<string>, now: Time, i: nat)
    requires Accepted(w) && visited <= Names(w) && i < |sts| && IsFirst(sts, i)
    ensures sts[i].name in StatesOf(sts)
    ensures var n := sts[i].name;
      SettleVisited(w, sts, visited, now)[i].state
        == if n in visited then Value(w, StatesOf(sts), n) else StatesOf(sts)[n]
  {
    StateOfFirst(sts, i);
    if sts[i].name in visited {
      SettleEntryState(w, StatesOf(sts), now, sts[i]);
    }
  }

  /** Settling the visited names leaves all other names as they were. */
  lemma StatesOfSettled(w: seq<Step>, sts: seq<StepStatus>, visited: set<string>, now: Time)
    requires Accepted(w) && visited <= Names(w)
    ensures var m := StatesOf(sts);
      StatesOf(SettleVisited(w, sts, visited, now)) == map n | n in m :: if n in visited then Value(w, m, n) else m[n]
  {
    var m := StatesOf(sts);
    var m' := map n | n in m :: if n in visited then Value(w, m, n) else m[n];
    var sts' := SettleVisited(w, sts, visited, now);
    forall i | 0 <= i < |sts| ensures sts'[i].name == sts[i].name {
      SettledName(w, sts, visited, now, i);
    }
    forall i | 0 <= i < |sts| && IsFirst(sts, i) ensures Lookup(m', sts[i].name) == sts'[i].state {
      SettledState(w, sts, visited, now, i);
    }
    StatesOfRewritten(sts, sts', m');
  }

  lemma StatesAfter(w: seq<Step>, sts: seq<StepStatus>, now: Time)
    requires Accepted(w)
    ensures StatesOf(SettleVisited(w, sts, Names(w), now)) == After(w, StatesOf(sts))
  {
    StatesOfSettled(w, sts, Names(w), now);
  }

  // ---------- a second call changes nothing ----------

  /** The values are a fixed point: evaluating again from the states after a call gives the same
      values, and executes again exactly the executed names that have no entry. */
  lemma {:induction false} ValueStable(w: seq<Step>, m: States, n: string)
    requires Accepted(w)
    ensures Value(w, After(w, m), n) == Value(w, m, n)
    ensures Executes(w, After(w, m), n) <==> Executes(w, m, n) && n !in m
    decreases Ancestors(w, n)
  {
    var m' := After(w, m);
    if n in Names(w) {
      var step := StepNamed(w, n);
      forall d | d in step.dependsOn ensures Value(w, m', d) == Value(w, m, d) {
        AncestorsShrink(w, n, d);
        ValueStable(w, m, d);
      }
      assert DecisionFor(w, m', n) == DecisionFor(w, m, n);
    }
  }

  /** Settling settled entries again changes none of them, not even a message or a time. */
  lemma SettledTwice(w: seq<Step>, sts: seq<StepStatus>, now: Time, later: Time)
    requires Accepted(w)
    ensures var once := SettleVisited(w, sts, Names(w), now);
      SettleVisited(w, once, Names(w), later) == once
  {
    var m := StatesOf(sts);
    var once := SettleVisited(w, sts, Names(w), now);
    StatesAfter(w, sts, now);
    forall i | 0 <= i < |sts| && IsFirst(once, i) && once[i].name in Names(w)
      ensures SettleEntry(w, After(w, m), later, once[i]) == once[i]
    {
      SettledEntryStable(w, sts, now, later, i);
    }
  }

  lemma SettledEntryStable(w: seq<Step>, sts: seq<StepStatus>, now: Time, later: Time, i: nat)
    requires Accepted(w) && i < |sts| && sts[i].name in Names(w)
    requires IsFirst(SettleVisited(w, sts, Names(w), now), i)
    ensures var once := SettleVisited(w, sts, Names(w), now)[i];
      once.name == sts[i].name && SettleEntry(w, After(w, StatesOf(sts)), later, once) == once
  {
    var once := SettleVisited(w, sts, Names(w), now);
    forall j | 0 <= j <= i ensures once[j].name == sts[j].name {
      SettledName(w, sts, Names(w), now, j);
    }
    assert IsFirst(sts, i);
    StateOfFirst(sts, i);
    SettleTwiceEntry(w, StatesOf(sts), now, later, sts[i]);
  }

  lemma SettleTwiceEntry(w: seq<Step>, m: States, now: Time, later: Time, s: StepStatus)
    requires Accepted(w) && s.name in Names(w) && s.name in m && m[s.name] == s.state
    ensures var once := SettleEntry(w, m, now, s);
      once.name == s.name && SettleEntry(w, After(w, m), later, once) == once
  {
    DecisionStable(w, m, s.name);
  }

  lemma DecisionStable(w: seq<Step>, m: States, n: string)
    requires Accepted(w) && n in Names(w)
    ensures DecisionFor(w, After(w, m), n) == DecisionFor(w, m, n)
  {
    forall d | d in StepNamed(w, n).dependsOn ensures Value(w, After(w, m), d) == Value(w, m, d) {
      ValueStable(w, m, d);
    }
  }
}
