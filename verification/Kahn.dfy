// Topological sort by Kahn's algorithm, over any list of steps and for any
// order in which the in-degree map is iterated.

module Kahn {
  import opened Basics
  import opened Workflow
  import opened Dag

  datatype SortError = CycleDetected | DependencyNotFound(name: string)

  datatype SortResult = Sorted(order: seq<Step>) | Rejected(error: SortError)

  // ---------- what graph and inDegree count ----------

  // How often steps called n list d, over all of w.
  ghost function Occurrences(w: seq<Step>, d: string, n: string): nat {
    if w == [] then 0
    else
      var k := |w| - 1;
      Occurrences(w[..k], d, n) + if w[k].name == n then multiset(w[k].dependsOn)[d] else 0
  }

  // How many elements of deps are not in done.
  ghost function Outside(deps: seq<string>, done: set<string>): nat {
    if deps == [] then 0
    else
      var k := |deps| - 1;
      Outside(deps[..k], done) + if deps[k] in done then 0 else 1
  }

  // How many dependency occurrences of steps called n have a source not in done.
  ghost function Remaining(w: seq<Step>, done: set<string>, n: string): nat {
    if w == [] then 0
    else
      var k := |w| - 1;
      Remaining(w[..k], done, n) + if w[k].name == n then Outside(w[k].dependsOn, done) else 0
  }

  lemma {:induction false} OutsideDone(deps: seq<string>, done: set<string>, d: string)
    requires d !in done
    ensures Outside(deps, done) == Outside(deps, done + {d}) + multiset(deps)[d]
  {
    if deps != [] {
      var k := |deps| - 1;
      assert deps == deps[..k] + [deps[k]];
      OutsideDone(deps[..k], done, d);
    }
  }

  /** Dequeuing d lowers the remaining count of n by the edges from d to n. */
  lemma {:induction false} RemainingDone(w: seq<Step>, done: set<string>, d: string, n: string)
    requires d !in done
    ensures Remaining(w, done, n) == Remaining(w, done + {d}, n) + Occurrences(w, d, n)
  {
    if w != [] {
      var k := |w| - 1;
      RemainingDone(w[..k], done, d, n);
      OutsideDone(w[k].dependsOn, done, d);
    }
  }

  lemma {:induction false} OutsideZero(deps: seq<string>, done: set<string>)
    ensures Outside(deps, done) == 0 <==> forall d :: d in deps ==> d in done
  {
    if deps != [] {
      var k := |deps| - 1;
      assert deps == deps[..k] + [deps[k]];
      OutsideZero(deps[..k], done);
    }
  }

  /** The remaining count of n is zero exactly when all dependencies of steps called n are done. */
  lemma {:induction false} RemainingZero(w: seq<Step>, done: set<string>, n: string)
    ensures Remaining(w, done, n) == 0 <==> forall d :: Dep(w, n, d) ==> d in done
  {
    if w != [] {
      var k := |w| - 1;
      assert w == w[..k] + [w[k]];
      RemainingZero(w[..k], done, n);
      OutsideZero(w[k].dependsOn, done);
      assert forall d :: Dep(w, n, d) <==> Dep(w[..k], n, d) || (w[k].name == n && d in w[k].dependsOn);
    }
  }

  lemma {:induction false} OccurrenceIsStep(w: seq<Step>, d: string, n: string)
    ensures Occurrences(w, d, n) > 0 ==> n in Names(w)
  {
    if w != [] {
      var k := |w| - 1;
      assert w == w[..k] + [w[k]];
      OccurrenceIsStep(w[..k], d, n);
    }
  }

  // ---------- building the graph ----------

  // The steps read so far, the last one only up to its j-th dependency.
  ghost function ReadSoFar(w: seq<Step>, i: nat, j: nat): seq<Step>
    requires i < |w| && j <= |w[i].dependsOn|
  {
    w[..i] + [w[i].(dependsOn := w[i].dependsOn[..j])]
  }

  lemma ReadNone(w: seq<Step>, i: nat, d: string, n: string)
    requires i < |w|
    ensures Remaining(ReadSoFar(w, i, 0), {}, n) == Remaining(w[..i], {}, n)
    ensures Occurrences(ReadSoFar(w, i, 0), d, n) == Occurrences(w[..i], d, n)
  {
    assert ReadSoFar(w, i, 0)[..i] == w[..i];
  }

  lemma ReadNext(w: seq<Step>, i: nat, j: nat, d: string, n: string)
    requires i < |w| && j < |w[i].dependsOn|
    ensures Remaining(ReadSoFar(w, i, j + 1), {}, n)
         == Remaining(ReadSoFar(w, i, j), {}, n) + if n == w[i].name then 1 else 0
    ensures Occurrences(ReadSoFar(w, i, j + 1), d, n)
         == Occurrences(ReadSoFar(w, i, j), d, n) + if n == w[i].name && d == w[i].dependsOn[j] then 1 else 0
  {
    var deps := w[i].dependsOn;
    assert ReadSoFar(w, i, j)[..i] == w[..i] == ReadSoFar(w, i, j + 1)[..i];
    assert deps[..j + 1] == deps[..j] + [deps[j]];
    assert deps[..j + 1][..j] == deps[..j];
  }

  lemma ReadAll(w: seq<Step>, i: nat)
    requires i < |w|
    ensures ReadSoFar(w, i, |w[i].dependsOn|) == w[..i + 1]
  {
    assert w[i].dependsOn[..|w[i].dependsOn|] == w[i].dependsOn;
  }

  type Graph = map<string, seq<string>>

  // Reading a missing key of the adjacency map yields the empty list.
  function Successors(graph: Graph, d: string): seq<string> {
    if d in graph then graph[d] else []
  }

  ghost predicate CountsEdges(w: seq<Step>, graph: Graph) {
    forall d, n :: multiset(Successors(graph, d))[n] == Occurrences(w, d, n)
  }

  ghost predicate CountsRemaining(w: seq<Step>, done: set<string>, names: set<string>, inDegree: map<string, int>) {
    inDegree.Keys == names && forall n :: n in names ==> inDegree[n] == Remaining(w, done, n)
  }

  lemma StartStep(w: seq<Step>, i: nat, graph: Graph, inDegree: map<string, int>)
    requires i < |w| && CountsEdges(w[..i], graph)
    requires CountsRemaining(w[..i], {}, Names(w[..i]), inDegree)
    ensures CountsEdges(ReadSoFar(w, i, 0), graph)
    ensures var n := w[i].name;
      CountsRemaining(ReadSoFar(w, i, 0), {}, Names(w[..i]) + {n},
                      if n in inDegree then inDegree else inDegree[n := 0])
  {
    forall d, n ensures Occurrences(ReadSoFar(w, i, 0), d, n) == Occurrences(w[..i], d, n) {
      ReadNone(w, i, d, n);
    }
    forall n ensures Remaining(ReadSoFar(w, i, 0), {}, n) == Remaining(w[..i], {}, n) {
      ReadNone(w, i, "", n);
    }
    RemainingZero(w[..i], {}, w[i].name);
    assert w[i].name !in Names(w[..i]) ==> forall d :: !Dep(w[..i], w[i].name, d);
  }

  lemma EdgesNext(w: seq<Step>, i: nat, j: nat, graph: Graph)
    requires i < |w| && j < |w[i].dependsOn| && CountsEdges(ReadSoFar(w, i, j), graph)
    ensures var dep := w[i].dependsOn[j];
      CountsEdges(ReadSoFar(w, i, j + 1), graph[dep := Successors(graph, dep) + [w[i].name]])
  {
    var dep := w[i].dependsOn[j];
    var graph' := graph[dep := Successors(graph, dep) + [w[i].name]];
    forall d, n ensures multiset(Successors(graph', d))[n] == Occurrences(ReadSoFar(w, i, j + 1), d, n) {
      ReadNext(w, i, j, d, n);
      assert multiset(Successors(graph, d))[n] == Occurrences(ReadSoFar(w, i, j), d, n);
    }
  }

  lemma RemainingNext(w: seq<Step>, i: nat, j: nat, inDegree: map<string, int>)
    requires i < |w| && j < |w[i].dependsOn| && w[i].name in inDegree
    requires CountsRemaining(ReadSoFar(w, i, j), {}, inDegree.Keys, inDegree)
    ensures CountsRemaining(ReadSoFar(w, i, j + 1), {}, inDegree.Keys, inDegree[w[i].name := inDegree[w[i].name] + 1])
  {
    forall n ensures Remaining(ReadSoFar(w, i, j + 1), {}, n)
                  == Remaining(ReadSoFar(w, i, j), {}, n) + if n == w[i].name then 1 else 0
    {
      ReadNext(w, i, j, "", n);
    }
  }

  // The inner loop: one edge, and one in-degree, per dependency occurrence of steps[i].
  method AddDependencies(steps: seq<Step>, i: nat, graph: Graph, inDegree: map<string, int>)
    returns (graph': Graph, inDegree': map<string, int>)
    requires i < |steps| && steps[i].name in inDegree
    requires CountsEdges(ReadSoFar(steps, i, 0), graph)
    requires CountsRemaining(ReadSoFar(steps, i, 0), {}, inDegree.Keys, inDegree)
    ensures CountsEdges(steps[..i + 1], graph')
    ensures CountsRemaining(steps[..i + 1], {}, inDegree.Keys, inDegree')
  {
    var step := steps[i];
    graph', inDegree' := graph, inDegree;
    for j := 0 to |step.dependsOn|
      invariant CountsEdges(ReadSoFar(steps, i, j), graph')
      invariant CountsRemaining(ReadSoFar(steps, i, j), {}, inDegree.Keys, inDegree')
    {
      var dep := step.dependsOn[j];
      EdgesNext(steps, i, j, graph');
      RemainingNext(steps, i, j, inDegree');
      graph' := graph'[dep := Successors(graph', dep) + [step.name]];
      inDegree' := inDegree'[step.name := inDegree'[step.name] + 1];
    }
    ReadAll(steps, i);
  }

  method BuildGraph(steps: seq<Step>)
    returns (graph: Graph, inDegree: map<string, int>, stepMap: map<string, Step>)
    ensures CountsEdges(steps, graph)
    ensures CountsRemaining(steps, {}, Names(steps), inDegree)
    ensures stepMap.Keys == Names(steps)
    ensures forall n :: n in stepMap ==> stepMap[n] in steps && stepMap[n].name == n
  {
    graph, inDegree, stepMap := map[], map[], map[];
    for i := 0 to |steps|
      invariant CountsEdges(steps[..i], graph)
      invariant CountsRemaining(steps[..i], {}, Names(steps[..i]), inDegree)
      invariant stepMap.Keys == Names(steps[..i])
      invariant forall n :: n in stepMap ==> stepMap[n] in steps && stepMap[n].name == n
    {
      var step := steps[i];
      NamesNext(steps, i);
      StartStep(steps, i, graph, inDegree);
      stepMap := stepMap[step.name := step];
      if step.name !in inDegree {
        inDegree := inDegree[step.name := 0];
      }
      graph, inDegree := AddDependencies(steps, i, graph, inDegree);
    }
    assert steps[..|steps|] == steps;
  }

  lemma NamesNext(w: seq<Step>, i: nat)
    requires i < |w|
    ensures Names(w[..i + 1]) == Names(w[..i]) + {w[i].name}
  {
    assert w[..i + 1] == w[..i] + [w[i]];
  }

  // ---------- draining the queue ----------

  // The names whose count reached zero are those dequeued and those waiting in the queue.
  ghost predicate QueueIsFrontier(queue: seq<string>, done: set<string>, inDegree: map<string, int>) {
    && Distinct(queue)
    && (forall n :: n in queue ==> n in inDegree && n !in done)
    && (forall n :: n in inDegree ==> (inDegree[n] == 0 <==> n in done || n in queue))
  }

  // The roots, in whatever order the map is iterated.
  method InitialQueue(inDegree: map<string, int>) returns (queue: seq<string>)
    ensures QueueIsFrontier(queue, {}, inDegree)
  {
    queue := [];
    var unvisited := inDegree.Keys;
    while unvisited != {}
      invariant unvisited <= inDegree.Keys
      invariant Distinct(queue)
      invariant forall n :: n in queue <==> n in inDegree && n !in unvisited && inDegree[n] == 0
    {
      var name :| name in unvisited;
      unvisited := unvisited - {name};
      if inDegree[name] == 0 {
        queue := queue + [name];
      }
    }
  }

  // In the middle of a release: the edges to pending are still to be taken away.
  ghost predicate CountsPending(w: seq<Step>, done: set<string>, pending: seq<string>, inDegree: map<string, int>) {
    && inDegree.Keys == Names(w)
    && forall n :: n in inDegree ==> inDegree[n] == Remaining(w, done, n) + multiset(pending)[n]
  }

  lemma StartRelease(w: seq<Step>, graph: Graph, inDegree: map<string, int>,
                     queue: seq<string>, curr: string, done: set<string>)
    requires CountsEdges(w, graph) && CountsRemaining(w, done, Names(w), inDegree)
    requires |queue| > 0 && queue[0] == curr && curr !in done && QueueIsFrontier(queue, done, inDegree)
    ensures CountsPending(w, done + {curr}, Successors(graph, curr), inDegree)
    ensures QueueIsFrontier(queue[1..], done + {curr}, inDegree)
    ensures forall n :: n in Successors(graph, curr) ==> n in Names(w)
  {
    forall n | n in inDegree
      ensures inDegree[n] == Remaining(w, done + {curr}, n) + multiset(Successors(graph, curr))[n]
    {
      RemainingDone(w, done, curr, n);
    }
    forall n | n in Successors(graph, curr) ensures n in Names(w) {
      assert n in multiset(Successors(graph, curr));
      OccurrenceIsStep(w, curr, n);
    }
    assert queue == [curr] + queue[1..];
    assert forall n :: n in queue <==> n == curr || n in queue[1..];
  }

  // One decrement, with the enqueueing it may cause.
  lemma ReleaseOne(w: seq<Step>, done: set<string>, neighbor: string, pending: seq<string>,
                   inDegree: map<string, int>, queue: seq<string>)
    requires neighbor in Names(w)
    requires CountsPending(w, done, [neighbor] + pending, inDegree) && QueueIsFrontier(queue, done, inDegree)
    ensures inDegree[neighbor] > 0
    ensures var inDegree' := inDegree[neighbor := inDegree[neighbor] - 1];
      && CountsPending(w, done, pending, inDegree')
      && QueueIsFrontier(if inDegree'[neighbor] == 0 then queue + [neighbor] else queue, done, inDegree')
  {
    assert forall n :: multiset([neighbor] + pending)[n] == multiset(pending)[n] + if n == neighbor then 1 else 0;
  }

  lemma SuffixSplit(s: seq<string>, k: nat)
    requires k < |s|
    ensures s[k..] == [s[k]] + s[k + 1..] && s[k] in s
  {
  }

  // Take the edges out of the head of the queue away, enqueueing every name that has none left.
  method Release(ghost steps: seq<Step>, graph: Graph, inDegree: map<string, int>,
                 queue: seq<string>, ghost done: set<string>)
    returns (inDegree': map<string, int>, queue': seq<string>)
    requires CountsEdges(steps, graph)
    requires CountsRemaining(steps, done, Names(steps), inDegree)
    requires |queue| > 0 && queue[0] !in done && QueueIsFrontier(queue, done, inDegree)
    ensures CountsRemaining(steps, done + {queue[0]}, Names(steps), inDegree')
    ensures QueueIsFrontier(queue', done + {queue[0]}, inDegree')
    ensures queue[1..] <= queue'
  {
    StartRelease(steps, graph, inDegree, queue, queue[0], done);
    ghost var done' := done + {queue[0]};
    var neighbors := Successors(graph, queue[0]);
    inDegree', queue' := inDegree, queue[1..];
    for k := 0 to |neighbors|
      invariant CountsPending(steps, done', neighbors[k..], inDegree')
      invariant QueueIsFrontier(queue', done', inDegree')
      invariant queue[1..] <= queue'
    {
      var neighbor := neighbors[k];
      SuffixSplit(neighbors, k);
      ReleaseOne(steps, done', neighbor, neighbors[k + 1..], inDegree', queue');
      inDegree' := inDegree'[neighbor := inDegree'[neighbor] - 1];
      if inDegree'[neighbor] == 0 {
        queue' := queue' + [neighbor];
      }
    }
  }

  /** The sort succeeds exactly on accepted workflows; its result is then an order of the
      steps. The only error it ever gives is the cycle error. */
  method TopologicalSort(steps: seq<Step>) returns (r: SortResult)
    ensures r.Sorted? <==> Accepted(steps)
    ensures r.Sorted? ==> IsOrder(steps, r.order)
    ensures r.Rejected? ==> r.error == CycleDetected
  {
    var graph, inDegree, stepMap := BuildGraph(steps);
    var queue := InitialQueue(inDegree);
    var sorted: seq<Step> := [];
    var count := 0;
    ghost var done: set<string> := {};
    while |queue| > 0
      invariant CountsRemaining(steps, done, Names(steps), inDegree)
      invariant QueueIsFrontier(queue, done, inDegree)
      invariant count == |sorted| && Names(sorted) == done <= Names(steps)
      invariant UniqueNames(sorted)
      invariant forall s :: s in sorted ==> s in steps
      invariant forall i :: 0 <= i < |sorted| ==> DepsBefore(sorted, i)
      decreases Names(steps) - done
    {
      var curr := queue[0];
      if curr !in stepMap {
        assert false;
        return Rejected(DependencyNotFound(curr));
      }
      var step := stepMap[curr];
      RemainingZero(steps, done, curr);
      AppendReady(steps, sorted, step);
      sorted := sorted + [step];
      count := count + 1;
      inDegree, queue := Release(steps, graph, inDegree, queue, done);
      done := done + {curr};
    }
    if count != |steps| {
      RejectedNotAccepted(steps, sorted, inDegree);
      return Rejected(CycleDetected);
    }
    FullCountIsOrder(steps, sorted);
    OrderImpliesAccepted(steps, sorted);
    return Sorted(sorted);
  }

  // Appending a step whose dependencies are all placed keeps the partial order.
  lemma AppendReady(w: seq<Step>, sorted: seq<Step>, step: Step)
    requires step in w && step.name !in Names(sorted) && UniqueNames(sorted)
    requires forall i :: 0 <= i < |sorted| ==> DepsBefore(sorted, i)
    requires forall d :: Dep(w, step.name, d) ==> d in Names(sorted)
    ensures Names(sorted + [step]) == Names(sorted) + {step.name}
    ensures UniqueNames(sorted + [step])
    ensures forall i :: 0 <= i < |sorted| + 1 ==> DepsBefore(sorted + [step], i)
  {
    var longer := sorted + [step];
    forall i | 0 <= i < |longer| ensures DepsBefore(longer, i) {
      forall d | d in longer[i].dependsOn ensures exists j :: 0 <= j < i && longer[j].name == d {
        if i < |sorted| {
          assert DepsBefore(sorted, i);
          var j :| 0 <= j < i && sorted[j].name == d;
          assert longer[j].name == d;
        } else {
          assert Dep(w, step.name, d);
          var s :| s in sorted && s.name == d;
          var j :| 0 <= j < |sorted| && sorted[j] == s;
          assert longer[j].name == d;
        }
      }
    }
    forall i, j | 0 <= i < j < |longer| ensures longer[i].name != longer[j].name {
      assert sorted[i].name in Names(sorted);
    }
  }

  lemma FullCountIsOrder(w: seq<Step>, sorted: seq<Step>)
    requires |sorted| == |w| && UniqueNames(sorted)
    requires forall s :: s in sorted ==> s in w
    requires forall i :: 0 <= i < |sorted| ==> DepsBefore(sorted, i)
    ensures IsOrder(w, sorted)
  {
    UniqueFromCount(w);
    UniqueFromCount(sorted);
    assert Names(sorted) <= Names(w);
    SubsetSize(Names(sorted), Names(w));
    forall s | s in w ensures s in sorted {
      assert s.name in Names(sorted);
      var t :| t in sorted && t.name == s.name;
      StepNamedUnique(w, s);
      StepNamedUnique(w, t);
    }
    SameStepsPermutation(w, sorted);
  }

  // Once nothing is left to dequeue, an accepted workflow has been dequeued completely.
  lemma RejectedNotAccepted(w: seq<Step>, sorted: seq<Step>, inDegree: map<string, int>)
    requires CountsRemaining(w, Names(sorted), Names(w), inDegree)
    requires QueueIsFrontier([], Names(sorted), inDegree)
    requires UniqueNames(sorted) && Names(sorted) <= Names(w) && |sorted| != |w|
    ensures !Accepted(w)
  {
    if Accepted(w) {
      UniqueFromCount(w);
      UniqueFromCount(sorted);
      var rest := Names(w) - Names(sorted);
      assert Names(sorted) != Names(w);
      var m :| m in Names(w) && m !in Names(sorted);
      assert m in rest;
      var n := ReadyName(w, rest);
      RemainingZero(w, Names(sorted), n);
    }
  }
}
