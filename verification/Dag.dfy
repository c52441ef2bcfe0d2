// The dependency graph of a list of steps: paths, acceptance, and orders.
// The list may be any input: names may repeat and dependencies may be missing.

module Dag {
  import opened Workflow

  ghost function Names(w: seq<Step>): set<string> {
    set s | s in w :: s.name
  }

  ghost function Mentioned(w: seq<Step>): set<string> {
    set s, d | s in w && d in s.dependsOn :: d
  }

  // Some step called a lists b in its DependsOn.
  ghost predicate Dep(w: seq<Step>, a: string, b: string) {
    exists s :: s in w && s.name == a && b in s.dependsOn
  }

  // p follows dependencies: each element depends on the next.
  ghost predicate Path(w: seq<Step>, p: seq<string>) {
    |p| > 0 && forall i :: 0 <= i < |p| - 1 ==> Dep(w, p[i], p[i + 1])
  }

  ghost predicate PathBetween(w: seq<Step>, p: seq<string>, a: string, b: string) {
    Path(w, p) && p[0] == a && p[|p| - 1] == b
  }

  // a depends on b through one or more dependencies.
  ghost predicate Reaches(w: seq<Step>, a: string, b: string) {
    exists p :: |p| >= 2 && PathBetween(w, p, a, b)
  }

  ghost predicate Acyclic(w: seq<Step>) {
    forall n :: !Reaches(w, n, n)
  }

  ghost predicate UniqueNames(w: seq<Step>) {
    forall i, j :: 0 <= i < j < |w| ==> w[i].name != w[j].name
  }

  ghost predicate Resolved(w: seq<Step>) {
    forall s, d :: s in w && d in s.dependsOn ==> d in Names(w)
  }

  /** What a workflow has to be for its sort to succeed. */
  ghost predicate Accepted(w: seq<Step>) {
    UniqueNames(w) && Resolved(w) && Acyclic(w)
  }

  // The one step of an accepted workflow with a given name.
  ghost function StepNamed(w: seq<Step>, n: string): (s: Step)
    requires n in Names(w)
    ensures s in w && s.name == n
  {
    var s :| s in w && s.name == n;
    s
  }

  lemma StepNamedUnique(w: seq<Step>, s: Step)
    requires UniqueNames(w) && s in w
    ensures s.name in Names(w) && StepNamed(w, s.name) == s
  {
  }

  lemma DepOfStep(w: seq<Step>, n: string, d: string)
    requires UniqueNames(w) && n in Names(w)
    ensures Dep(w, n, d) <==> d in StepNamed(w, n).dependsOn
  {
  }

  // ---------- well-founded recursion over dependencies ----------

  ghost function Ancestors(w: seq<Step>, n: string): set<string> {
    set m | m in Mentioned(w) && Reaches(w, n, m)
  }

  lemma ReachesDirect(w: seq<Step>, a: string, b: string)
    requires Dep(w, a, b)
    ensures Reaches(w, a, b)
  {
    assert PathBetween(w, [a, b], a, b);
  }

  lemma ReachesStep(w: seq<Step>, a: string, b: string, c: string)
    requires Dep(w, a, b) && Reaches(w, b, c)
    ensures Reaches(w, a, c)
  {
    var p :| |p| >= 2 && PathBetween(w, p, b, c);
    var q := [a] + p;
    forall i | 0 <= i < |q| - 1 ensures Dep(w, q[i], q[i + 1]) {
      if i > 0 {
        assert q[i] == p[i - 1] && q[i + 1] == p[i];
      }
    }
    assert PathBetween(w, q, a, c);
  }

  /** Without closed paths, a dependency has strictly fewer ancestors than its dependent. */
  lemma AncestorsShrink(w: seq<Step>, n: string, d: string)
    requires Acyclic(w) && Dep(w, n, d)
    ensures Ancestors(w, d) < Ancestors(w, n)
  {
    ReachesDirect(w, n, d);
    forall m | m in Ancestors(w, d) ensures m in Ancestors(w, n) {
      ReachesStep(w, n, d, m);
    }
    assert d in Ancestors(w, n) && d !in Ancestors(w, d);
  }

  ghost predicate DependsInto(w: seq<Step>, n: string, names: set<string>) {
    exists d :: d in names && Dep(w, n, d)
  }

  /** No nonempty set of names can have every member depending on a member. */
  lemma {:induction false} NoSelfSupportingSet(w: seq<Step>, stuck: set<string>, n: string)
    requires Acyclic(w) && n in stuck
    requires forall x :: x in stuck ==> DependsInto(w, x, stuck)
    ensures false
    decreases Ancestors(w, n)
  {
    var d :| d in stuck && Dep(w, n, d);
    AncestorsShrink(w, n, d);
    NoSelfSupportingSet(w, stuck, d);
  }

  // ---------- orders ----------

  // Every dependency of order[i] is the name of an earlier element.
  ghost predicate DepsBefore(order: seq<Step>, i: nat)
    requires i < |order|
  {
    forall d :: d in order[i].dependsOn ==> exists j :: 0 <= j < i && order[j].name == d
  }

  /** order lists exactly the steps of w, each once, dependencies first. */
  ghost predicate IsOrder(w: seq<Step>, order: seq<Step>) {
    && multiset(order) == multiset(w)
    && UniqueNames(order)
    && forall i :: 0 <= i < |order| ==> DepsBefore(order, i)
  }

  lemma OrderSameSteps(w: seq<Step>, order: seq<Step>)
    requires multiset(order) == multiset(w)
    ensures |order| == |w|
    ensures forall s :: s in order <==> s in w
    ensures Names(order) == Names(w)
  {
    assert |multiset(order)| == |order| && |multiset(w)| == |w|;
    forall s ensures s in order <==> s in w {
      assert s in order <==> s in multiset(order);
      assert s in w <==> s in multiset(w);
    }
  }

  // In a sequence with distinct names every step occurs once.
  lemma {:induction false} UniqueOccursOnce(w: seq<Step>, s: Step)
    requires UniqueNames(w)
    ensures multiset(w)[s] == if s in w then 1 else 0
  {
    if |w| > 0 {
      var k := |w| - 1;
      assert w == w[..k] + [w[k]];
      UniqueOccursOnce(w[..k], s);
    }
  }

  lemma SameStepsPermutation(w: seq<Step>, order: seq<Step>)
    requires UniqueNames(w) && UniqueNames(order)
    requires forall s :: s in order <==> s in w
    ensures multiset(order) == multiset(w)
  {
    forall s ensures multiset(order)[s] == multiset(w)[s] {
      UniqueOccursOnce(w, s);
      UniqueOccursOnce(order, s);
    }
  }

  lemma UniqueSnoc(w: seq<Step>)
    requires |w| > 0
    ensures var init, last := w[..|w| - 1], w[|w| - 1];
      && Names(w) == Names(init) + {last.name}
      && (UniqueNames(w) <==> UniqueNames(init) && last.name !in Names(init))
  {
    var k := |w| - 1;
    var init := w[..k];
    assert w == init + [w[k]];
    forall n | n in Names(init) ensures exists i :: 0 <= i < k && w[i].name == n {
      var s :| s in init && s.name == n;
      var i :| 0 <= i < k && init[i] == s;
    }
    forall i | 0 <= i < k ensures w[i].name in Names(init) {
      assert init[i] in init;
    }
  }

  lemma {:induction false} UniqueFromCount(w: seq<Step>)
    ensures |Names(w)| <= |w|
    ensures |Names(w)| == |w| <==> UniqueNames(w)
  {
    if |w| > 0 {
      var init, last := w[..|w| - 1], w[|w| - 1];
      UniqueFromCount(init);
      UniqueSnoc(w);
      if last.name in Names(init) {
        assert Names(w) == Names(init);
      }
    }
  }

  lemma SubsetSize<T>(a: set<T>, b: set<T>)
    requires a <= b
    ensures |a| <= |b|
    ensures |a| == |b| ==> a == b
  {
    assert b == a + (b - a);
    assert |b| == |a| + |b - a|;
  }

  // Following a path from order[i] by at least one dependency leads strictly to the left.
  lemma {:induction false} PathGoesLeft(order: seq<Step>, p: seq<string>, i: nat) returns (j: nat)
    requires UniqueNames(order) && forall k :: 0 <= k < |order| ==> DepsBefore(order, k)
    requires Path(order, p) && i < |order| && order[i].name == p[0]
    ensures j <= i && order[j].name == p[|p| - 1]
    ensures |p| >= 2 ==> j < i
    decreases |p|
  {
    j := i;
    if |p| >= 2 {
      assert Dep(order, p[0], p[1]);
      var s :| s in order && s.name == p[0] && p[1] in s.dependsOn;
      var m :| 0 <= m < |order| && order[m] == s;
      assert m == i;
      assert DepsBefore(order, i);
      var k :| 0 <= k < i && order[k].name == p[1];
      j := PathGoesLeft(order, p[1..], k);
    }
  }

  /** A workflow that has an order is accepted. */
  lemma OrderImpliesAccepted(w: seq<Step>, order: seq<Step>)
    requires IsOrder(w, order)
    ensures Accepted(w)
  {
    OrderSameSteps(w, order);
    UniqueFromCount(order);
    UniqueFromCount(w);
    forall s, d | s in w && d in s.dependsOn ensures d in Names(w) {
      var i :| 0 <= i < |order| && order[i] == s;
      assert DepsBefore(order, i);
    }
    forall n ensures !Reaches(w, n, n) {
      if Reaches(w, n, n) {
        var p :| |p| >= 2 && PathBetween(w, p, n, n);
        assert Path(order, p) by {
          forall i | 0 <= i < |p| - 1 ensures Dep(order, p[i], p[i + 1]) {
            assert Dep(w, p[i], p[i + 1]);
          }
        }
        assert Dep(w, p[0], p[1]);
        var s :| s in order && s.name == n;
        var i :| 0 <= i < |order| && order[i] == s;
        var j := PathGoesLeft(order, p, i);
        assert false;
      }
    }
  }

  // Extending a partial order by any step whose dependencies it already holds.
  lemma {:induction false} CompleteOrder(w: seq<Step>, partial: seq<Step>) returns (order: seq<Step>)
    requires Accepted(w) && UniqueNames(partial)
    requires forall s :: s in partial ==> s in w
    requires forall i :: 0 <= i < |partial| ==> DepsBefore(partial, i)
    ensures IsOrder(w, order)
    decreases |w| - |partial|
  {
    UniqueFromCount(w);
    UniqueFromCount(partial);
    assert Names(partial) <= Names(w);
    var rest := Names(w) - Names(partial);
    if rest == {} {
      forall s | s in w ensures s in partial {
        assert s.name in Names(w) && s.name !in rest;
        var t :| t in partial && t.name == s.name;
        StepNamedUnique(w, s);
        StepNamedUnique(w, t);
      }
      SameStepsPermutation(w, partial);
      return partial;
    }
    var n := ReadyName(w, rest);
    var s := StepNamed(w, n);
    var longer := partial + [s];
    forall i | 0 <= i < |longer| ensures DepsBefore(longer, i) {
      if i < |partial| {
        assert DepsBefore(partial, i);
        forall d | d in longer[i].dependsOn ensures exists j :: 0 <= j < i && longer[j].name == d {
          var j :| 0 <= j < i && partial[j].name == d;
          assert longer[j].name == d;
        }
      } else {
        forall d | d in s.dependsOn ensures exists j :: 0 <= j < i && longer[j].name == d {
          DepOfStep(w, n, d);
          assert d in Names(partial);
          var t :| t in partial && t.name == d;
          var j :| 0 <= j < |partial| && partial[j] == t;
          assert longer[j].name == d;
        }
      }
    }
    assert Names(longer) == Names(partial) + {n};
    SubsetSize(Names(longer), Names(w));
    UniqueFromCount(longer);
    order := CompleteOrder(w, longer);
  }

  // Among the names still to be placed, one depends on none of the others.
  lemma ReadyName(w: seq<Step>, rest: set<string>) returns (n: string)
    requires Acyclic(w) && rest != {}
    ensures n in rest && !DependsInto(w, n, rest)
  {
    if forall x :: x in rest ==> DependsInto(w, x, rest) {
      n :| n in rest;
      NoSelfSupportingSet(w, rest, n);
    } else {
      n :| n in rest && !DependsInto(w, n, rest);
    }
  }

  /** The workflows that can be ordered are exactly those without duplicate names,
      dangling dependencies or closed dependency paths. */
  lemma AcceptedIffOrdered(w: seq<Step>)
    ensures Accepted(w) <==> exists order :: IsOrder(w, order)
  {
    if Accepted(w) {
      var order := CompleteOrder(w, []);
    }
    forall order | IsOrder(w, order) ensures Accepted(w) {
      OrderImpliesAccepted(w, order);
    }
  }
}
