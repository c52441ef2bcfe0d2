// From the findings of one cycle to the published status: the stable sort by
// rank, the cap, the count of resources, and the phase.

module Findings {
  import opened Basics
  import opened Checks

  const MAX_STATUS_FINDINGS := 500

  // ---------- rank ----------

  // A missing key of a rank table reads as zero.
  function StatusRank(s: Status): nat {
    match s
    case Failed => 0
    case Degraded => 1
    case Unknown => 2
    case Healthy => 3
    case UnlistedStatus(_) => 0
  }

  function SeverityRank(s: Severity): nat {
    match s
    case Critical => 0
    case Warning => 1
    case Info => 2
    case UnlistedSeverity(_) => 0
  }

  function Rank(f: CheckResult): nat {
    StatusRank(f.status) * 10 + SeverityRank(f.severity)
  }

  /** The integer rank is the lexicographic order on status, then severity. */
  lemma RankIsLexicographic(f: CheckResult, g: CheckResult)
    ensures Rank(f) < Rank(g) <==>
      StatusRank(f.status) < StatusRank(g.status)
      || (StatusRank(f.status) == StatusRank(g.status) && SeverityRank(f.severity) < SeverityRank(g.severity))
  {
    assert SeverityRank(f.severity) < 10 && SeverityRank(g.severity) < 10;
  }

  // Nothing about g is more urgent than f: Failed, then Degraded, then Unknown, then Healthy, and for
  // the same status Critical, then Warning, then Info. A value outside the tables goes with the first.
  ghost predicate NoLessUrgent(f: CheckResult, g: CheckResult) {
    && (g.status.Failed? || g.status.UnlistedStatus? ==> f.status.Failed? || f.status.UnlistedStatus?)
    && (g.status.Degraded? ==> !f.status.Unknown? && !f.status.Healthy?)
    && (g.status.Unknown? ==> !f.status.Healthy?)
    && (f.status == g.status
        || ((f.status.Failed? || f.status.UnlistedStatus?) && (g.status.Failed? || g.status.UnlistedStatus?)) ==>
          && (g.severity.Critical? || g.severity.UnlistedSeverity? ==> f.severity.Critical? || f.severity.UnlistedSeverity?)
          && (g.severity.Warning? ==> !f.severity.Info?))
  }

  /** The integer rank orders findings by urgency. */
  lemma RankIsUrgency(f: CheckResult, g: CheckResult)
    ensures Rank(f) <= Rank(g) <==> NoLessUrgent(f, g)
  {
  }

  ghost predicate SortedByRank(s: seq<CheckResult>) {
    forall i, j :: 0 <= i < j < |s| ==> Rank(s[i]) <= Rank(s[j])
  }

  // The findings of one rank, in order.
  ghost function OfRank(s: seq<CheckResult>, r: int): seq<CheckResult> {
    if s == [] then []
    else
      var k := |s| - 1;
      OfRank(s[..k], r) + if Rank(s[k]) == r then [s[k]] else []
  }

  /** t is s sorted by rank, with equal ranks in their old order. */
  ghost predicate StableSortOf(s: seq<CheckResult>, t: seq<CheckResult>) {
    SortedByRank(t) && forall r :: OfRank(t, r) == OfRank(s, r)
  }

  lemma {:induction false} OfRankConcat(a: seq<CheckResult>, b: seq<CheckResult>, r: int)
    ensures OfRank(a + b, r) == OfRank(a, r) + OfRank(b, r)
  {
    if b == [] {
      assert a + b == a;
    } else {
      var k := |b| - 1;
      assert (a + b)[..|a + b| - 1] == a + b[..k];
      OfRankConcat(a, b[..k], r);
    }
  }

  lemma OfRankConcat4(a: seq<CheckResult>, b: seq<CheckResult>, c: seq<CheckResult>, d: seq<CheckResult>, r: int)
    ensures OfRank(a + b + c + d, r) == OfRank(a, r) + OfRank(b, r) + OfRank(c, r) + OfRank(d, r)
  {
    OfRankConcat(a + b + c, d, r);
    OfRankConcat(a + b, c, r);
    OfRankConcat(a, b, r);
  }

  lemma {:induction false} OfRankAbsent(s: seq<CheckResult>, r: int)
    requires forall i :: 0 <= i < |s| ==> Rank(s[i]) != r
    ensures OfRank(s, r) == []
  {
    if s != [] {
      OfRankAbsent(s[..|s| - 1], r);
    }
  }

  lemma {:induction false} OfRankMember(s: seq<CheckResult>, r: int, x: CheckResult)
    ensures x in OfRank(s, r) <==> x in s && Rank(x) == r
  {
    if s != [] {
      var k := |s| - 1;
      assert s == s[..k] + [s[k]];
      OfRankMember(s[..k], r, x);
    }
  }

  lemma {:induction false} OfRankCount(s: seq<CheckResult>, x: CheckResult)
    ensures multiset(s)[x] == multiset(OfRank(s, Rank(x)))[x]
  {
    if s != [] {
      var k := |s| - 1;
      assert s == s[..k] + [s[k]];
      OfRankCount(s[..k], x);
    }
  }

  /** A stable sort is a permutation. */
  lemma StableSortPermutes(s: seq<CheckResult>, t: seq<CheckResult>)
    requires StableSortOf(s, t)
    ensures multiset(t) == multiset(s) && |t| == |s|
    ensures forall x :: x in t <==> x in s
  {
    forall x ensures multiset(t)[x] == multiset(s)[x] {
      OfRankCount(s, x);
      OfRankCount(t, x);
    }
    assert |multiset(t)| == |t| && |multiset(s)| == |s|;
    forall x ensures x in t <==> x in s {
      assert x in t <==> x in multiset(t);
      assert x in s <==> x in multiset(s);
    }
  }

  lemma SameLastRank(t: seq<CheckResult>, u: seq<CheckResult>, r: int)
    requires |t| == |u| > 0 && t[|t| - 1] == u[|u| - 1] && OfRank(t, r) == OfRank(u, r)
    ensures OfRank(t[..|t| - 1], r) == OfRank(u[..|u| - 1], r)
  {
    var k := |t| - 1;
    var last := if Rank(t[k]) == r then [t[k]] else [];
    var size := |OfRank(t, r)| - |last|;
    assert OfRank(t[..k], r) == OfRank(t, r)[..size];
    assert OfRank(u[..k], r) == OfRank(u, r)[..size];
  }

  lemma LastOfRank(t: seq<CheckResult>)
    requires |t| > 0
    ensures var last := t[|t| - 1];
      var same := OfRank(t, Rank(last));
      |same| > 0 && same[|same| - 1] == last
  {
  }

  /** There is only one stable sort, so the contract of the sort fixes its result. */
  lemma {:induction false} StableSortUnique(s: seq<CheckResult>, t: seq<CheckResult>, u: seq<CheckResult>)
    requires StableSortOf(s, t) && StableSortOf(s, u)
    ensures t == u
    decreases |t|
  {
    StableSortPermutes(s, t);
    StableSortPermutes(s, u);
    if t != [] {
      var k := |t| - 1;
      SameLast(s, t, u);
      forall r ensures OfRank(t[..k], r) == OfRank(u[..k], r) {
        assert OfRank(t, r) == OfRank(u, r);
        SameLastRank(t, u, r);
      }
      StableSortUnique(t[..k], t[..k], u[..k]);
    }
  }

  lemma SameLast(s: seq<CheckResult>, t: seq<CheckResult>, u: seq<CheckResult>)
    requires StableSortOf(s, t) && StableSortOf(s, u) && |t| == |u| > 0
    requires forall x :: x in t <==> x in u
    ensures t[|t| - 1] == u[|u| - 1]
  {
    var k := |t| - 1;
    assert t[k] in u && u[k] in t;
    assert Rank(t[k]) == Rank(u[k]);
    assert OfRank(t, Rank(t[k])) == OfRank(u, Rank(t[k]));
    LastOfRank(t);
    LastOfRank(u);
  }

  // ---------- the in-place insertion sort ----------

  // Where the inner loop stands: the finding x of index i has moved down to j.
  ghost function Moved(pre: seq<CheckResult>, i: nat, j: nat): seq<CheckResult>
    requires j <= i < |pre|
  {
    pre[..j] + [pre[i]] + pre[j..i] + pre[i + 1..]
  }

  // Moving a finding past strictly greater ranks keeps the order inside every rank.
  lemma PassingKeepsRanks(a: seq<CheckResult>, b: seq<CheckResult>, x: CheckResult, d: seq<CheckResult>, r: int)
    requires forall k :: 0 <= k < |b| ==> Rank(b[k]) > Rank(x)
    ensures OfRank(a + [x] + b + d, r) == OfRank(a + b + [x] + d, r)
  {
    OfRankConcat4(a, b, [x], d, r);
    OfRankConcat4(a, [x], b, d, r);
    if r == Rank(x) {
      OfRankAbsent(b, r);
      assert OfRank(a, r) + OfRank([x], r) + [] == OfRank(a, r) + [] + OfRank([x], r);
    } else {
      OfRankAbsent([x], r);
      assert OfRank(a, r) + [] + OfRank(b, r) == OfRank(a, r) + OfRank(b, r) + [];
    }
  }

  lemma MovedKeepsRanks(pre: seq<CheckResult>, i: nat, j: nat, r: int)
    requires j <= i < |pre| && forall k :: j <= k < i ==> Rank(pre[k]) > Rank(pre[i])
    ensures OfRank(Moved(pre, i, j), r) == OfRank(pre, r)
  {
    assert pre == pre[..j] + pre[j..i] + [pre[i]] + pre[i + 1..];
    PassingKeepsRanks(pre[..j], pre[j..i], pre[i], pre[i + 1..], r);
  }

  lemma MovedIsSorted(pre: seq<CheckResult>, i: nat, j: nat)
    requires j <= i < |pre| && SortedByRank(pre[..i])
    requires forall k :: j <= k < i ==> Rank(pre[k]) > Rank(pre[i])
    requires j > 0 ==> Rank(pre[j - 1]) <= Rank(pre[i])
    ensures SortedByRank(Moved(pre, i, j)[..i + 1])
  {
    var t := Moved(pre, i, j)[..i + 1];
    forall a, b | 0 <= a < b < |t| ensures Rank(t[a]) <= Rank(t[b]) {
      assert forall k, l :: 0 <= k < l < i ==> Rank(pre[..i][k]) <= Rank(pre[..i][l]);
      assert forall k :: 0 <= k < i ==> pre[..i][k] == pre[k];
      assert j > 0 && a < j ==> Rank(pre[a]) <= Rank(pre[j - 1]);
    }
  }

  // The inner loop.
  method Sink(findings: array<CheckResult>, i: nat)
    requires i < findings.Length && SortedByRank(findings[..i])
    modifies findings
    ensures SortedByRank(findings[..i + 1])
    ensures forall r :: OfRank(findings[..], r) == OfRank(old(findings[..]), r)
  {
    ghost var pre := findings[..];
    var j := i;
    assert findings[..] == Moved(pre, i, i);
    assert pre[..i] == findings[..i];
    while j > 0
      invariant 0 <= j <= i && findings[..] == Moved(pre, i, j)
      invariant forall k :: j <= k < i ==> Rank(pre[k]) > Rank(pre[i])
    {
      var a, b := findings[j - 1], findings[j];
      assert a == findings[..][j - 1] == pre[j - 1] && b == findings[..][j] == pre[i];
      var ar := StatusRank(a.status) * 10 + SeverityRank(a.severity);
      var br := StatusRank(b.status) * 10 + SeverityRank(b.severity);
      if ar > br {
        findings[j - 1], findings[j] := findings[j], findings[j - 1];
        assert findings[..] == Moved(pre, i, j)[j - 1 := pre[i]][j := pre[j - 1]] == Moved(pre, i, j - 1);
      } else {
        break;
      }
      j := j - 1;
    }
    MovedIsSorted(pre, i, j);
    assert findings[..i + 1] == Moved(pre, i, j)[..i + 1];
    forall r ensures OfRank(findings[..], r) == OfRank(pre, r) {
      MovedKeepsRanks(pre, i, j, r);
    }
  }

  lemma SortedIsUrgencyOrder(s: seq<CheckResult>)
    requires SortedByRank(s)
    ensures forall i, j :: 0 <= i < j < |s| ==> NoLessUrgent(s[i], s[j])
  {
    forall i, j | 0 <= i < j < |s| ensures NoLessUrgent(s[i], s[j]) {
      RankIsUrgency(s[i], s[j]);
    }
  }

  /** The in-place sort is the stable sort by rank. */
  method SortFindingsByPriority(findings: array<CheckResult>)
    modifies findings
    ensures StableSortOf(old(findings[..]), findings[..])
    ensures forall i, j :: 0 <= i < j < findings.Length ==> NoLessUrgent(findings[i], findings[j])
  {
    if findings.Length == 0 {
      return;
    }
    for i := 1 to findings.Length
      invariant SortedByRank(findings[..i])
      invariant forall r :: OfRank(findings[..], r) == OfRank(old(findings[..]), r)
    {
      Sink(findings, i);
    }
    assert findings[..findings.Length] == findings[..];
    SortedIsUrgencyOrder(findings[..]);
  }

  // ---------- counting resources ----------

  ghost function Refs(s: seq<CheckResult>): set<string> {
    set f | f in s :: f.resourceRef
  }

  // The first finding about a resource.
  ghost function FirstWith(s: seq<CheckResult>, ref: string): Option<CheckResult> {
    if s == [] then None
    else
      var k := |s| - 1;
      var earlier := FirstWith(s[..k], ref);
      if earlier.Some? then earlier else if s[k].resourceRef == ref then Some(s[k]) else None
  }

  // The resources whose first finding has a given status.
  ghost function Counted(s: seq<CheckResult>, status: Status): set<string> {
    set ref | ref in Refs(s) && FirstWith(s, ref).Some? && FirstWith(s, ref).value.status == status
  }

  lemma {:induction false} FirstWithExists(s: seq<CheckResult>, ref: string)
    ensures FirstWith(s, ref).Some? <==> ref in Refs(s)
    ensures FirstWith(s, ref).Some? ==> FirstWith(s, ref).value in s && FirstWith(s, ref).value.resourceRef == ref
  {
    if s != [] {
      var k := |s| - 1;
      assert s == s[..k] + [s[k]];
      FirstWithExists(s[..k], ref);
      assert Refs(s) == Refs(s[..k]) + {s[k].resourceRef};
    }
  }

  // One more finding changes the count of its own status, and only for a resource not seen yet.
  lemma CountedNext(s: seq<CheckResult>, k: nat, status: Status)
    requires k < |s|
    ensures Counted(s[..k + 1], status) == Counted(s[..k], status)
      + if s[k].resourceRef !in Refs(s[..k]) && s[k].status == status then {s[k].resourceRef} else {}
    ensures Refs(s[..k + 1]) == Refs(s[..k]) + {s[k].resourceRef}
    ensures Counted(s[..k], status) <= Refs(s[..k])
  {
    assert s[..k + 1] == s[..k] + [s[k]];
    assert s[..k + 1][..k] == s[..k];
    forall ref ensures FirstWith(s[..k], ref).Some? <==> ref in Refs(s[..k]) {
      FirstWithExists(s[..k], ref);
    }
  }

  lemma CountedSize(s: seq<CheckResult>, k: nat, status: Status)
    requires k < |s|
    ensures |Counted(s[..k + 1], status)| == |Counted(s[..k], status)|
      + if s[k].resourceRef !in Refs(s[..k]) && s[k].status == status then 1 else 0
    ensures Refs(s[..k + 1]) == Refs(s[..k]) + {s[k].resourceRef}
  {
    CountedNext(s, k, status);
  }

  /** Each resource is counted once, under the status of its first finding. */
  method CountBySeverity(findings: seq<CheckResult>) returns (healthy: nat, degraded: nat, failed: nat)
    ensures healthy == |Counted(findings, Healthy)|
    ensures degraded == |Counted(findings, Degraded)|
    ensures failed == |Counted(findings, Failed)|
  {
    healthy, degraded, failed := 0, 0, 0;
    var seen: set<string> := {};
    for k := 0 to |findings|
      invariant seen == Refs(findings[..k])
      invariant healthy == |Counted(findings[..k], Healthy)|
      invariant degraded == |Counted(findings[..k], Degraded)|
      invariant failed == |Counted(findings[..k], Failed)|
    {
      var f := findings[k];
      CountedSize(findings, k, Healthy);
      CountedSize(findings, k, Degraded);
      CountedSize(findings, k, Failed);
      if f.resourceRef in seen {
        continue;
      }
      seen := seen + {f.resourceRef};
      match f.status {
        case Healthy => healthy := healthy + 1;
        case Degraded => degraded := degraded + 1;
        case Failed => failed := failed + 1;
        case Unknown =>
        case UnlistedStatus(_) =>
      }
    }
    assert findings[..|findings|] == findings;
  }

  // ---------- publishing ----------

  // Conversion of a count to 32 signed bits.
  function Int32(n: int): int {
    (n + 0x8000_0000) % 0x1_0000_0000 - 0x8000_0000
  }

  /** The conversion keeps the value modulo 2^32 and brings it in range, so it changes no value in range. */
  lemma Int32Wraps(n: int)
    ensures -0x8000_0000 <= Int32(n) < 0x8000_0000 && (Int32(n) - n) % 0x1_0000_0000 == 0
    ensures -0x8000_0000 <= n < 0x8000_0000 ==> Int32(n) == n
  {
    var k := (n + 0x8000_0000) / 0x1_0000_0000;
    assert Int32(n) - n == -k * 0x1_0000_0000;
  }

  lemma {:induction false} CountedAtMost(s: seq<CheckResult>, status: Status)
    ensures |Counted(s, status)| <= |s|
  {
    if s != [] {
      var k := |s| - 1;
      CountedAtMost(s[..k], status);
      CountedSize(s, k, status);
      assert s[..k + 1] == s;
    } else {
      assert Counted(s, status) == {};
    }
  }

  class PolicyStatus {
    var findings: seq<CheckResult>
    var totalChecks: int
    var healthyCount: int
    var degradedCount: int
    var failedCount: int
    var phase: string

    constructor ()
      ensures findings == [] && phase == ""
    {
      findings, phase := [], "";
      totalChecks, healthyCount, degradedCount, failedCount := 0, 0, 0, 0;
    }
  }

  // The order in which the findings are counted: sorted only above the cap.
  ghost predicate Effective(s: seq<CheckResult>, t: seq<CheckResult>) {
    if |s| > MAX_STATUS_FINDINGS then StableSortOf(s, t) else t == s
  }

  function PhaseOf(failed: nat): string {
    if failed > 0 then "Degraded" else "Active"
  }

  lemma CountsFit(s: seq<CheckResult>)
    ensures |s| < 0x8000_0000 ==>
      Int32(|s|) == |s| && forall status :: Int32(|Counted(s, status)|) == |Counted(s, status)|
  {
    Int32Wraps(|s|);
    forall status ensures |s| < 0x8000_0000 ==> Int32(|Counted(s, status)|) == |Counted(s, status)| {
      CountedAtMost(s, status);
      Int32Wraps(|Counted(s, status)|);
    }
  }

  /** The end of a reconcile cycle: cap the findings, count all of them, and derive the phase. */
  method PublishFindings(all: array<CheckResult>, status: PolicyStatus)
    modifies all, status
    ensures Effective(old(all[..]), all[..])
    ensures status.findings == if all.Length > MAX_STATUS_FINDINGS then all[..MAX_STATUS_FINDINGS] else all[..]
    ensures status.totalChecks == Int32(all.Length)
    ensures status.healthyCount == Int32(|Counted(all[..], Healthy)|)
    ensures status.degradedCount == Int32(|Counted(all[..], Degraded)|)
    ensures status.failedCount == Int32(|Counted(all[..], Failed)|)
    ensures status.phase == PhaseOf(|Counted(all[..], Failed)|)
    ensures all.Length < 0x8000_0000 ==>
      && status.totalChecks == all.Length
      && status.healthyCount == |Counted(all[..], Healthy)|
      && status.degradedCount == |Counted(all[..], Degraded)|
      && status.failedCount == |Counted(all[..], Failed)|
    ensures |status.findings| == if all.Length > 500 then 500 else all.Length
  {
    var statusFindings := all[..];
    if all.Length > MAX_STATUS_FINDINGS {
      SortFindingsByPriority(all);
      statusFindings := all[..MAX_STATUS_FINDINGS];
    }
    status.findings := statusFindings;
    status.totalChecks := Int32(all.Length);
    var healthy, degraded, failed := CountBySeverity(all[..]);
    status.healthyCount := Int32(healthy);
    status.degradedCount := Int32(degraded);
    status.failedCount := Int32(failed);
    CountsFit(all[..]);
    var phase := "Active";
    if failed > 0 {
      phase := "Degraded";
    }
    status.phase := phase;
  }

  /** The cap keeps exactly the best findings: none dropped outranks one kept, and of every rank
      the earliest are kept. */
  lemma CapKeepsTheBest(s: seq<CheckResult>, t: seq<CheckResult>)
    requires |s| > MAX_STATUS_FINDINGS && Effective(s, t)
    ensures |t| == |s|
    ensures var kept, dropped := t[..MAX_STATUS_FINDINGS], t[MAX_STATUS_FINDINGS..];
      && |kept| == MAX_STATUS_FINDINGS && multiset(kept) + multiset(dropped) == multiset(s)
      && (forall f, g :: f in kept && g in dropped ==> Rank(f) <= Rank(g))
      && (forall r :: OfRank(s, r) == OfRank(kept, r) + OfRank(dropped, r))
  {
    StableSortPermutes(s, t);
    CutAt(s, t, MAX_STATUS_FINDINGS);
  }

  /** With more than 500 findings, the first 500 are kept in order of urgency and nothing dropped is more urgent
      than anything kept; up to 500 nothing is reordered or dropped. */
  lemma CapByUrgency(s: seq<CheckResult>, t: seq<CheckResult>)
    requires Effective(s, t)
    ensures |s| <= 500 ==> t == s
    ensures |s| > 500 ==> |t| == |s| && forall f, g :: f in t[..500] && g in t[500..] ==> NoLessUrgent(f, g)
  {
    if |s| > 500 {
      CapKeepsTheBest(s, t);
      forall f, g | f in t[..500] && g in t[500..] ensures NoLessUrgent(f, g) {
        RankIsUrgency(f, g);
      }
    }
  }

  lemma CutAt(s: seq<CheckResult>, t: seq<CheckResult>, n: nat)
    requires StableSortOf(s, t) && multiset(t) == multiset(s) && n <= |t|
    ensures multiset(t[..n]) + multiset(t[n..]) == multiset(s)
    ensures forall f, g :: f in t[..n] && g in t[n..] ==> Rank(f) <= Rank(g)
    ensures forall r :: OfRank(s, r) == OfRank(t[..n], r) + OfRank(t[n..], r)
  {
    var kept, dropped := t[..n], t[n..];
    assert t == kept + dropped;
    forall r ensures OfRank(s, r) == OfRank(kept, r) + OfRank(dropped, r) {
      assert OfRank(t, r) == OfRank(s, r);
      OfRankConcat(kept, dropped, r);
    }
    forall f, g | f in kept && g in dropped ensures Rank(f) <= Rank(g) {
      var i :| 0 <= i < |kept| && kept[i] == f;
      var j :| 0 <= j < |dropped| && dropped[j] == g;
      assert t[i] == f && t[n + j] == g;
    }
  }

  // ---------- which finding decides about a resource ----------

  // The finding at j is counted before the one at i.
  ghost predicate Before(s: seq<CheckResult>, j: nat, i: nat)
    requires j < |s| && i < |s|
  {
    if |s| > MAX_STATUS_FINDINGS then Rank(s[j]) < Rank(s[i]) || (Rank(s[j]) == Rank(s[i]) && j < i) else j < i
  }

  // Of all findings about its resource, the one at i is counted first.
  ghost predicate Decides(s: seq<CheckResult>, i: nat)
    requires i < |s|
  {
    forall j :: 0 <= j < |s| && s[j].resourceRef == s[i].resourceRef && j != i ==> Before(s, i, j)
  }

  lemma {:induction false} FirstWithAt(s: seq<CheckResult>, i: nat)
    requires i < |s| && forall j :: 0 <= j < i ==> s[j].resourceRef != s[i].resourceRef
    ensures FirstWith(s, s[i].resourceRef) == Some(s[i])
  {
    var k := |s| - 1;
    var ref := s[i].resourceRef;
    if i < k {
      FirstWithAt(s[..k], i);
    } else {
      FirstWithExists(s[..k], ref);
    }
  }

  lemma {:induction false} FirstWithIndex(s: seq<CheckResult>, ref: string) returns (i: nat)
    requires ref in Refs(s)
    ensures i < |s| && s[i].resourceRef == ref && FirstWith(s, ref) == Some(s[i])
    ensures forall j :: 0 <= j < i ==> s[j].resourceRef != ref
  {
    var k := |s| - 1;
    assert s == s[..k] + [s[k]];
    if ref in Refs(s[..k]) {
      i := FirstWithIndex(s[..k], ref);
    } else {
      i := k;
      forall j | 0 <= j < i ensures s[j].resourceRef != ref {
        assert s[j] in s[..k];
      }
    }
    FirstWithAt(s, i);
  }

  // Among the findings of one rank, the first about a resource.
  lemma {:induction false} FirstOfRank(s: seq<CheckResult>, i: nat)
    requires i < |s|
    requires forall j :: 0 <= j < i && s[j].resourceRef == s[i].resourceRef ==> Rank(s[j]) != Rank(s[i])
    ensures FirstWith(OfRank(s, Rank(s[i])), s[i].resourceRef) == Some(s[i])
  {
    var k := |s| - 1;
    var r, ref := Rank(s[i]), s[i].resourceRef;
    var earlier := OfRank(s[..k], r);
    if i < k {
      FirstOfRank(s[..k], i);
      if Rank(s[k]) == r {
        assert (earlier + [s[k]])[..|earlier|] == earlier;
      } else {
        assert earlier + [] == earlier;
      }
    } else {
      FirstWithExists(earlier, ref);
      if FirstWith(earlier, ref).Some? {
        OfRankMember(s[..k], r, FirstWith(earlier, ref).value);
      }
      assert FirstWith(earlier, ref).None?;
      assert (earlier + [s[k]])[..|earlier|] == earlier;
    }
  }

  /** Whatever the statuses, a resource is counted under the finding that decides about it. */
  lemma DecidingFinding(s: seq<CheckResult>, t: seq<CheckResult>, i: nat)
    requires Effective(s, t) && i < |s| && Decides(s, i)
    ensures FirstWith(t, s[i].resourceRef) == Some(s[i])
  {
    var ref, r := s[i].resourceRef, Rank(s[i]);
    if |s| <= MAX_STATUS_FINDINGS {
      forall j | 0 <= j < i ensures s[j].resourceRef != ref {
      }
      FirstWithAt(s, i);
    } else {
      StableSortPermutes(s, t);
      assert s[i] in t;
      var p := FirstWithIndex(t, ref);
      assert Rank(t[p]) == r by {
        var q :| 0 <= q < |t| && t[q] == s[i];
        assert p <= q;
        assert t[p] in s;
        var j :| 0 <= j < |s| && s[j] == t[p];
        assert j != i ==> Before(s, i, j);
      }
      forall j | 0 <= j < i && s[j].resourceRef == ref ensures Rank(s[j]) != r {
        assert Before(s, i, j);
      }
      FirstOfRank(s, i);
      FirstOfRank(t, p);
      assert OfRank(t, r) == OfRank(s, r);
    }
  }

  // Every resource has a deciding finding.
  lemma {:induction false} DecidingExists(s: seq<CheckResult>, i: nat, seen: nat) returns (d: nat)
    requires i < |s| && seen <= |s|
    requires forall j :: 0 <= j < seen && s[j].resourceRef == s[i].resourceRef && j != i ==> Before(s, i, j)
    ensures d < |s| && s[d].resourceRef == s[i].resourceRef && Decides(s, d)
    decreases |s| - seen
  {
    if seen == |s| {
      d := i;
    } else if s[seen].resourceRef == s[i].resourceRef && seen != i && !Before(s, i, seen) {
      assert Before(s, seen, i);
      d := DecidingExists(s, seen, seen + 1);
    } else {
      d := DecidingExists(s, i, seen + 1);
    }
  }

  /** The resources counted under a status are those whose deciding finding has it. */
  lemma CountedIff(s: seq<CheckResult>, t: seq<CheckResult>, status: Status, ref: string)
    requires Effective(s, t)
    ensures ref in Counted(t, status) <==>
      exists i :: 0 <= i < |s| && s[i].resourceRef == ref && s[i].status == status && Decides(s, i)
  {
    SameFindings(s, t);
    FirstWithExists(t, ref);
    if ref in Refs(s) {
      var f :| f in s && f.resourceRef == ref;
      var j :| 0 <= j < |s| && s[j] == f;
      var i := DecidingExists(s, j, 0);
      DecidingFinding(s, t, i);
      assert ref in Counted(t, status) <==> s[i].status == status;
      forall i' | 0 <= i' < |s| && s[i'].resourceRef == ref && Decides(s, i') ensures s[i'] == s[i] {
        DecidingFinding(s, t, i');
      }
    }
  }

  lemma SameFindings(s: seq<CheckResult>, t: seq<CheckResult>)
    requires Effective(s, t)
    ensures |t| == |s| && Refs(t) == Refs(s) && forall x :: x in t <==> x in s
  {
    if |s| > MAX_STATUS_FINDINGS {
      StableSortPermutes(s, t);
    }
  }

  /** Exactly when the phase shows a failure: some Failed finding is counted before every other
      finding about its resource. */
  lemma PhaseIff(s: seq<CheckResult>, t: seq<CheckResult>)
    requires Effective(s, t)
    ensures PhaseOf(|Counted(t, Failed)|) == "Degraded" <==>
      exists i :: 0 <= i < |s| && s[i].status == Failed && Decides(s, i)
  {
    assert PhaseOf(|Counted(t, Failed)|) == "Degraded" <==> Counted(t, Failed) != {} by {
      assert "Active" != "Degraded" by { assert "Active"[0] == 'A' && "Degraded"[0] == 'D'; }
    }
    if Counted(t, Failed) != {} {
      var ref :| ref in Counted(t, Failed);
      CountedIff(s, t, Failed, ref);
    }
    forall i | 0 <= i < |s| && s[i].status == Failed && Decides(s, i) ensures Counted(t, Failed) != {} {
      CountedIff(s, t, Failed, s[i].resourceRef);
    }
  }

  // ---------- worst status per resource ----------

  ghost predicate AllListed(s: seq<CheckResult>) {
    forall f :: f in s ==> !f.status.UnlistedStatus?
  }

  // Some finding about ref has the status.
  ghost predicate Has(s: seq<CheckResult>, ref: string, status: Status) {
    exists f :: f in s && f.resourceRef == ref && f.status == status
  }

  /** Above the cap, with listed statuses only, every resource is counted under its worst finding. */
  lemma WorstStatusCounts(s: seq<CheckResult>, t: seq<CheckResult>, ref: string)
    requires |s| > MAX_STATUS_FINDINGS && Effective(s, t) && AllListed(s)
    ensures ref in Counted(t, Failed) <==> Has(s, ref, Failed)
    ensures ref in Counted(t, Degraded) <==> Has(s, ref, Degraded) && !Has(s, ref, Failed)
    ensures ref in Counted(t, Healthy) <==>
      Has(s, ref, Healthy) && !Has(s, ref, Failed) && !Has(s, ref, Degraded) && !Has(s, ref, Unknown)
  {
    SameFindings(s, t);
    FirstWithExists(t, ref);
    if ref in Refs(s) {
      var f0 :| f0 in s && f0.resourceRef == ref;
      var j :| 0 <= j < |s| && s[j] == f0;
      var d := DecidingExists(s, j, 0);
      DecidingFinding(s, t, d);
      forall f | f in s && f.resourceRef == ref ensures StatusRank(s[d].status) <= StatusRank(f.status) {
        var i :| 0 <= i < |s| && s[i] == f;
        assert i != d ==> Before(s, d, i);
        RankIsLexicographic(f, s[d]);
      }
      assert Has(s, ref, s[d].status);
    }
  }

  /** Above the cap, with listed statuses only, the phase is Degraded exactly if any finding is Failed. */
  lemma PhaseShowsAnyFailure(s: seq<CheckResult>, t: seq<CheckResult>)
    requires |s| > MAX_STATUS_FINDINGS && Effective(s, t) && AllListed(s)
    ensures PhaseOf(|Counted(t, Failed)|) == "Degraded" <==> exists f :: f in s && f.status == Failed
  {
    PhaseIff(s, t);
    forall f | f in s && f.status == Failed
      ensures exists i :: 0 <= i < |s| && s[i].status == Failed && Decides(s, i)
    {
      assert Has(s, f.resourceRef, Failed);
      WorstStatusCounts(s, t, f.resourceRef);
      CountedIff(s, t, Failed, f.resourceRef);
    }
  }

  /** Up to the cap a Failed finding can stay invisible: an earlier Healthy one about the same
      resource is the one that counts. */
  lemma FailureHiddenBelowCap(t: seq<CheckResult>)
    requires var s := [CheckResult("c", "Node", "a", Healthy, Info, ""), CheckResult("c", "Node", "a", Failed, Critical, "")];
      Effective(s, t)
    ensures exists f :: f in t && f.status == Failed
    ensures PhaseOf(|Counted(t, Failed)|) == "Active"
  {
    var s := [CheckResult("c", "Node", "a", Healthy, Info, ""), CheckResult("c", "Node", "a", Failed, Critical, "")];
    assert s[1] in t;
    PhaseIff(s, t);
    assert !Before(s, 1, 0);
  }

  /** Above the cap a status outside the table does the same, since it ranks like Failed. */
  lemma FailureHiddenByUnlistedStatus(n: nat, t: seq<CheckResult>)
    requires n >= 499
    requires Effective(HiddenFailure(n), t)
    ensures exists f :: f in t && f.status == Failed
    ensures PhaseOf(|Counted(t, Failed)|) == "Active"
  {
    var s := HiddenFailure(n);
    SameFindings(s, t);
    assert s[1] in t;
    PhaseIff(s, t);
    assert !Before(s, 1, 0);
  }

  function HiddenFailure(n: nat): seq<CheckResult> {
    [CheckResult("c", "Node", "a", UnlistedStatus("Pending"), Critical, ""), CheckResult("c", "Node", "a", Failed, Critical, "")]
    + seq(n, _ => CheckResult("c", "Node", "b", Healthy, Info, ""))
  }
}
