// The runner as its caller sees it: called again and again on one status.

module Reconcile {
  import opened Basics
  import opened Workflow
  import opened Dag
  import opened Semantics
  import opened Runner
  import opened Runs

  lemma RunAppends(w: seq<Step>, calls: seq<Call>, c: Call, e: Execution)
    ensures RunAll(w, calls + [c], e) == RunOnce(w, c, RunAll(w, calls, e))
    ensures TraceAll(w, calls + [c], e) == TraceAll(w, calls, e) + TraceOnce(w, c, RunAll(w, calls, e))
  {
    assert (calls + [c])[..|calls|] == calls;
  }

  /** One call for each reading of the clock: together they are a run of the order-independent semantics. */
  method RunRepeatedly(w: seq<Step>, status: WorkflowExecutionStatus, clock: seq<Time>)
    returns (ghost calls: seq<Call>)
    modifies status
    ensures |calls| == |clock| && forall i :: 0 <= i < |calls| ==> calls[i].now == clock[i]
    ensures ValidCalls(w, calls)
    ensures status.Now() == RunAll(w, calls, old(status.Now()))
    ensures status.trace == old(status.trace) + TraceAll(w, calls, old(status.Now()))
  {
    calls := [];
    ghost var e, executed := status.Now(), [];
    for i := 0 to |clock|
      invariant |calls| == i && forall j :: 0 <= j < i ==> calls[j].now == clock[j]
      invariant ValidCalls(w, calls)
      invariant status.Now() == RunAll(w, calls, e)
      invariant executed == TraceAll(w, calls, e) && status.trace == old(status.trace) + executed
    {
      ghost var before := status.Now();
      ghost var err, order := Run(w, status, clock[i]);
      ghost var c := Call(order, clock[i]);
      RunAppends(w, calls, c, e);
      AppendAssociates(old(status.trace), executed, TraceOnce(w, c, before));
      executed := executed + TraceOnce(w, c, before);
      calls := calls + [c];
    }
  }
}
