// Keeping the newest ConfigMaps: rotation deletes oldest first, any deletion may
// fail, and every cycle creates one map and then rotates.

module Retention {
  import opened Basics

  // The maps of one namespace and label: creation time by name.
  type Items = map<string, Time>

  ghost predicate Listing(items: Items, l: seq<string>) {
    Distinct(l) && forall n :: n in l <==> n in items
  }

  ghost predicate OldestFirst(items: Items, l: seq<string>)
    requires forall n :: n in l ==> n in items
  {
    forall i, j :: 0 <= i < j < |l| ==> items[l[i]] <= items[l[j]]
  }

  function Min(a: int, b: int): int {
    if a < b then a else b
  }

  // None of the names tried is newer than one not tried.
  ghost predicate OldestTried(items: Items, tried: seq<string>) {
    forall a, b :: a in tried && b in items && b !in tried && a in items ==> items[a] <= items[b]
  }

  // What is left of before when the names tried are deleted, except those that failed.
  ghost function Without(before: Items, tried: seq<string>, failed: set<string>): Items {
    map n | n in before && (n in tried ==> n in failed) :: before[n]
  }

  /** One rotation from before to after: which names it tried to delete, and which of those deletions failed. */
  ghost predicate Rotation(before: Items, after: Items, maxCopies: nat,
                           listed: bool, tried: seq<string>, failed: set<string>)
  {
    && Distinct(tried) && (forall n :: n in tried ==> n in before)
    && OldestTried(before, tried)
    && |tried| == (if listed && |before| > maxCopies then |before| - maxCopies else 0)
    && (forall n :: n in failed ==> n in tried)
    && after == Without(before, tried, failed)
  }

  lemma {:induction false} DistinctSize(l: seq<string>)
    requires Distinct(l)
    ensures |set n | n in l| == |l|
  {
    if l != [] {
      var k := |l| - 1;
      DistinctSize(l[..k]);
      assert l == l[..k] + [l[k]];
      assert (set n | n in l) == (set n | n in l[..k]) + {l[k]};
      assert l[k] !in l[..k];
    }
  }

  lemma ListingSize(items: Items, l: seq<string>)
    requires Listing(items, l)
    ensures |l| == |items|
  {
    DistinctSize(l);
    assert (set n | n in l) == items.Keys;
  }

  lemma {:induction false} OldestExists(items: Items, names: set<string>) returns (n: string)
    requires names != {} && names <= items.Keys
    ensures n in names && forall x :: x in names ==> items[n] <= items[x]
    decreases names
  {
    n :| n in names;
    if names != {n} {
      var m := OldestExists(items, names - {n});
      if items[m] < items[n] {
        n := m;
      }
    }
  }

  // Some sorted arrangement of the listing; equal times come in no particular order.
  method SortByCreation(items: Items, l: seq<string>) returns (sorted: seq<string>)
    requires Listing(items, l)
    ensures Listing(items, sorted) && OldestFirst(items, sorted)
  {
    sorted := [];
    var rest := items.Keys;
    while rest != {}
      invariant rest <= items.Keys && Distinct(sorted)
      invariant forall n :: n in sorted <==> n in items && n !in rest
      invariant OldestFirst(items, sorted)
      invariant forall a, b :: a in sorted && b in rest ==> items[a] <= items[b]
    {
      ghost var oldest := OldestExists(items, rest);
      var name :| name in rest && forall x :: x in rest ==> items[name] <= items[x];
      rest := rest - {name};
      sorted := sorted + [name];
    }
  }

  // What the cluster refuses during one cycle.
  datatype Environment = Environment(createFails: bool, listFails: bool, undeletable: set<string>)

  class Store {
    var items: Items

    constructor ()
      ensures items == map[]
    {
      items := map[];
    }

    method List(listFails: bool) returns (ok: bool, l: seq<string>)
      ensures ok == !listFails
      ensures ok ==> Listing(items, l)
    {
      ok, l := !listFails, [];
      var rest := items.Keys;
      while rest != {}
        invariant rest <= items.Keys && Distinct(l)
        invariant forall n :: n in l <==> n in items && n !in rest
      {
        var name :| name in rest;
        rest := rest - {name};
        l := l + [name];
      }
    }

    method Delete(name: string, undeletable: set<string>) returns (ok: bool)
      modifies this
      ensures ok == (name !in undeletable)
      ensures items == if ok then old(items) - {name} else old(items)
    {
      ok := name !in undeletable;
      if ok {
        items := items - {name};
      }
    }

    method Create(name: string, time: Time, createFails: bool) returns (ok: bool)
      requires name !in items
      modifies this
      ensures ok == !createFails
      ensures items == if ok then old(items)[name := time] else old(items)
    {
      ok := !createFails;
      if ok {
        items := items[name := time];
      }
    }

    /** Deletes all but the maxCopies newest, oldest first, carrying on after a failed deletion. */
    method RotateConfigMaps(maxCopies: nat, listFails: bool, undeletable: set<string>)
      returns (listed: bool, tried: seq<string>, failed: set<string>)
      modifies this
      ensures Rotation(old(items), items, maxCopies, listed, tried, failed)
      ensures listed == !listFails && failed == set n | n in tried && n in undeletable
      ensures !listFails && undeletable !! old(items).Keys ==> |items| == Min(|old(items)|, maxCopies)
    {
      tried, failed := [], {};
      var l;
      listed, l := List(listFails);
      if !listed {
        return;
      }
      ListingSize(items, l);
      if |l| <= maxCopies {
        return;
      }
      var sorted := SortByCreation(items, l);
      ListingSize(items, sorted);
      PrefixIsOldest(items, sorted, |sorted| - maxCopies);
      ghost var before := items;
      tried, failed := DeletePrefix(sorted, |sorted| - maxCopies, undeletable);
      RotationSize(before, items, maxCopies, listed, tried, failed);
    }

    // The deletion loop.
    method DeletePrefix(sorted: seq<string>, numToDelete: nat, undeletable: set<string>)
      returns (tried: seq<string>, failed: set<string>)
      requires numToDelete <= |sorted| && Distinct(sorted)
      modifies this
      ensures tried == sorted[..numToDelete]
      ensures failed == set n | n in tried && n in undeletable
      ensures items == Without(old(items), tried, failed)
    {
      tried, failed := [], {};
      for i := 0 to numToDelete
        invariant tried == sorted[..i]
        invariant failed == set n | n in tried && n in undeletable
        invariant items == Without(old(items), tried, failed)
      {
        var cm := sorted[i];
        assert sorted[..i + 1] == sorted[..i] + [cm];
        var ok := Delete(cm, undeletable);
        if !ok {
          failed := failed + {cm};
        }
        tried := tried + [cm];
      }
    }

    /** One cycle: create a map and, if that worked and a positive limit is configured, rotate. */
    method CreateThenRotate(name: string, time: Time, limit: int, env: Environment)
      returns (created: bool, listed: bool, tried: seq<string>, failed: set<string>)
      requires name !in items
      modifies this
      ensures !created ==> items == old(items)
      ensures created && limit <= 0 ==> items == old(items)[name := time]
      ensures created && limit > 0 ==> Rotation(old(items)[name := time], items, limit, listed, tried, failed)
      ensures created == !env.createFails
      ensures created && limit > 0 ==> listed == !env.listFails && failed == set n | n in tried && n in env.undeletable
      ensures created && limit > 0 && !env.listFails && env.undeletable == {} ==> |items| == Min(|old(items)| + 1, limit)
    {
      listed, tried, failed := false, [], {};
      created := Create(name, time, env.createFails);
      assert old(items)[name := time].Keys == old(items).Keys + {name};
      assert |old(items)[name := time].Keys| == |old(items)| + 1;
      if created {
        if limit > 0 {
          listed, tried, failed := RotateConfigMaps(limit, env.listFails, env.undeletable);
        }
      }
    }
  }

  lemma PrefixIsOldest(items: Items, sorted: seq<string>, k: nat)
    requires Listing(items, sorted) && OldestFirst(items, sorted) && k <= |sorted|
    ensures OldestTried(items, sorted[..k]) && Distinct(sorted[..k])
  {
    assert forall j :: 0 <= j < k ==> sorted[j] in sorted[..k];
    forall a, b | a in sorted[..k] && b in items && b !in sorted[..k] ensures items[a] <= items[b] {
      var i :| 0 <= i < k && sorted[i] == a;
      var j :| 0 <= j < |sorted| && sorted[j] == b;
    }
  }

  lemma WithoutSize(before: Items, tried: seq<string>, failed: set<string>)
    requires Distinct(tried) && forall n :: n in tried ==> n in before
    requires forall n :: n in failed ==> n in tried
    ensures |failed| <= |tried| && |Without(before, tried, failed)| == |before| - |tried| + |failed|
  {
    DistinctSize(tried);
    var all := set n | n in tried;
    var after := Without(before, tried, failed);
    SplitSize(failed, all);
    SplitSize(all - failed, before.Keys);
    assert after.Keys == before.Keys - (all - failed);
    assert |after.Keys| == |after| && |before.Keys| == |before|;
  }

  /** How many maps a rotation leaves, to the last failed deletion. */
  lemma RotationSize(before: Items, after: Items, maxCopies: nat, listed: bool, tried: seq<string>, failed: set<string>)
    requires Rotation(before, after, maxCopies, listed, tried, failed)
    ensures |failed| <= |tried| && |after| == |before| - |tried| + |failed|
    ensures |after| >= Min(|before|, maxCopies)
    ensures listed && failed == {} ==> |after| == Min(|before|, maxCopies)
  {
    WithoutSize(before, tried, failed);
  }

  lemma SplitSize<T>(a: set<T>, b: set<T>)
    ensures a <= b ==> |a| <= |b| && |b - a| == |b| - |a|
  {
    if a <= b {
      assert b == a + (b - a);
      assert |b| == |a| + |b - a|;
    }
  }

  /** A map strictly newer than all others survives every rotation that keeps any. */
  lemma NewestSurvives(before: Items, after: Items, maxCopies: nat, listed: bool, tried: seq<string>, failed: set<string>, n: string)
    requires Rotation(before, after, maxCopies, listed, tried, failed) && maxCopies > 0
    requires n in before && forall x :: x in before && x != n ==> before[x] < before[n]
    ensures n in after && after[n] == before[n]
  {
    DistinctSize(tried);
    var all := set x | x in tried;
    assert |before.Keys| == |before|;
    SplitSize(before.Keys, all);
    assert |before| > |tried| by {
      assert |before.Keys| > 0 by { assert n in before.Keys; }
    }
    var x :| x in before && x !in all;
    assert x == n || before[x] < before[n];
    assert n !in tried;
  }

  // ---------- whole histories ----------

  // One successful creation with the rotation after it.
  datatype Cycle = Cycle(name: string, time: Time, listed: bool, tried: seq<string>, failed: set<string>)

  ghost predicate Next(before: Items, after: Items, maxCopies: nat, c: Cycle) {
    && c.name !in before
    && Rotation(before[c.name := c.time], after, maxCopies, c.listed, c.tried, c.failed)
  }

  ghost predicate History(stores: seq<Items>, cycles: seq<Cycle>, maxCopies: nat) {
    && |stores| == |cycles| + 1
    && forall i {:trigger cycles[i]} :: 0 <= i < |cycles| ==> Next(stores[i], stores[i + 1], maxCopies, cycles[i])
  }

  predicate Clean(c: Cycle) {
    c.listed && c.failed == {}
  }

  /** Over any number of cycles, whatever deletions fail, there are never fewer maps than the limit and
      the history allow; one clean rotation at the end makes up for every failure before it. */
  lemma {:induction false} HistorySize(stores: seq<Items>, cycles: seq<Cycle>, maxCopies: nat)
    requires History(stores, cycles, maxCopies)
    ensures var k := |cycles|;
      && Min(|stores[0]| + k, maxCopies) <= |stores[k]| <= |stores[0]| + k
      && (k > 0 && Clean(cycles[k - 1]) ==> |stores[k]| == Min(|stores[0]| + k, maxCopies))
  {
    if cycles != [] {
      var k := |cycles| - 1;
      var c := cycles[k];
      HistorySize(stores[..k + 1], cycles[..k], maxCopies);
      assert Next(stores[k], stores[k + 1], maxCopies, c);
      var before := stores[k][c.name := c.time];
      assert |before| == |stores[k]| + 1 by {
        assert before.Keys == stores[k].Keys + {c.name};
      }
      RotationSize(before, stores[k + 1], maxCopies, c.listed, c.tried, c.failed);
    }
  }

  // Every map that was ever there: the first store and everything created since.
  ghost function Ever(stores: seq<Items>, cycles: seq<Cycle>): Items
    requires |stores| > 0
  {
    if cycles == [] then stores[0]
    else
      var k := |cycles| - 1;
      Ever(stores, cycles[..k])[cycles[k].name := cycles[k].time]
  }

  // No name is created twice, not even after its map is gone.
  ghost predicate NamesNotReused(stores: seq<Items>, cycles: seq<Cycle>)
    requires |stores| > 0
  {
    forall k {:trigger Ever(stores, cycles[..k])} :: 0 <= k < |cycles| ==> cycles[k].name !in Ever(stores, cycles[..k])
  }

  // cur holds some of the maps ever there, unchanged.
  ghost predicate PartOf(ever: Items, cur: Items) {
    forall n :: n in cur ==> n in ever && cur[n] == ever[n]
  }

  // The maps at least as new as t.
  ghost function AsNewAs(cur: Items, t: Time): set<string> {
    set n | n in cur && cur[n] >= t
  }

  // Every map that is gone is outnumbered: at least maxCopies of those left are no older.
  ghost predicate LossesCovered(ever: Items, cur: Items, maxCopies: nat) {
    PartOf(ever, cur) && forall x :: x in ever && x !in cur ==> |AsNewAs(cur, ever[x])| >= maxCopies
  }

  // cur holds some of the maps ever there, and none of the others is newer.
  ghost predicate NewestOf(ever: Items, cur: Items) {
    PartOf(ever, cur) && forall a, b :: a in ever && a !in cur && b in cur ==> ever[a] <= ever[b]
  }

  lemma {:induction false} EverPrefix(stores: seq<Items>, cycles: seq<Cycle>)
    requires |stores| > |cycles|
    ensures Ever(stores[..|cycles| + 1], cycles) == Ever(stores, cycles)
    ensures forall i :: 0 <= i < |cycles| ==> Ever(stores[..|cycles| + 1], cycles[..i]) == Ever(stores, cycles[..i])
  {
    EverFirst(stores, stores[..|cycles| + 1], cycles);
    forall i | 0 <= i < |cycles| ensures Ever(stores[..|cycles| + 1], cycles[..i]) == Ever(stores, cycles[..i]) {
      EverFirst(stores, stores[..|cycles| + 1], cycles[..i]);
    }
  }

  lemma {:induction false} EverFirst(a: seq<Items>, b: seq<Items>, cycles: seq<Cycle>)
    requires |a| > 0 && |b| > 0 && a[0] == b[0]
    ensures Ever(a, cycles) == Ever(b, cycles)
  {
    if cycles != [] {
      EverFirst(a, b, cycles[..|cycles| - 1]);
    }
  }

  // A rotation gives a map up only when maxCopies of those it does not try are no older.
  lemma UntriedCover(before: Items, after: Items, maxCopies: nat,
                     listed: bool, tried: seq<string>, failed: set<string>, t: Time)
    requires Rotation(before, after, maxCopies, listed, tried, failed) && tried != []
    requires forall b :: b in before && b !in tried ==> before[b] >= t
    ensures |AsNewAs(after, t)| >= maxCopies
  {
    DistinctSize(tried);
    var all := set n | n in tried;
    SplitSize(all, before.Keys);
    assert |before.Keys| == |before|;
    assert before.Keys - all <= AsNewAs(after, t);
    SplitSize(before.Keys - all, AsNewAs(after, t));
  }

  // What covered an earlier loss covers it still after a rotation.
  lemma RotationKeepsCover(before: Items, after: Items, maxCopies: nat,
                           listed: bool, tried: seq<string>, failed: set<string>, t: Time)
    requires Rotation(before, after, maxCopies, listed, tried, failed)
    requires |AsNewAs(before, t)| >= maxCopies
    ensures |AsNewAs(after, t)| >= maxCopies
  {
    if tried != [] && forall b :: b in before && b !in tried ==> before[b] >= t {
      UntriedCover(before, after, maxCopies, listed, tried, failed, t);
    } else {
      forall n | n in AsNewAs(before, t) ensures n in AsNewAs(after, t) {
        if tried != [] {
          var b :| b in before && b !in tried && before[b] < t;
          assert before[n] > before[b];
          assert n !in tried;
        }
      }
      SplitSize(AsNewAs(before, t), AsNewAs(after, t));
    }
  }

  lemma NextKeepsLossesCovered(ever: Items, before: Items, after: Items, maxCopies: nat, c: Cycle)
    requires LossesCovered(ever, before, maxCopies) && Next(before, after, maxCopies, c) && c.name !in ever
    ensures LossesCovered(ever[c.name := c.time], after, maxCopies)
  {
    var mid := before[c.name := c.time];
    var ever' := ever[c.name := c.time];
    forall x | x in ever' && x !in after ensures |AsNewAs(after, ever'[x])| >= maxCopies {
      if x in mid {
        assert x in c.tried && mid[x] == ever'[x];
        UntriedCover(mid, after, maxCopies, c.listed, c.tried, c.failed, ever'[x]);
      } else {
        assert AsNewAs(before, ever[x]) <= AsNewAs(mid, ever[x]);
        SplitSize(AsNewAs(before, ever[x]), AsNewAs(mid, ever[x]));
        RotationKeepsCover(mid, after, maxCopies, c.listed, c.tried, c.failed, ever[x]);
      }
    }
  }

  /** After any history, whatever listings and deletions failed and however creation times ran, every map that is
      gone has at least maxCopies maps left that are no older. */
  lemma {:induction false} HistoryCoversLosses(stores: seq<Items>, cycles: seq<Cycle>, maxCopies: nat)
    requires History(stores, cycles, maxCopies) && NamesNotReused(stores, cycles)
    ensures LossesCovered(Ever(stores, cycles), stores[|cycles|], maxCopies)
  {
    if cycles != [] {
      var k := |cycles| - 1;
      forall i | 0 <= i < k ensures cycles[..k][..i] == cycles[..i] {
      }
      EverPrefix(stores, cycles[..k]);
      HistoryCoversLosses(stores[..k + 1], cycles[..k], maxCopies);
      assert Next(stores[k], stores[k + 1], maxCopies, cycles[k]);
      NextKeepsLossesCovered(Ever(stores, cycles[..k]), stores[k], stores[k + 1], maxCopies, cycles[k]);
    }
  }

  /** One clean rotation at the end is enough for the maps left to be the newest of all that ever existed. */
  lemma HistoryKeepsNewest(stores: seq<Items>, cycles: seq<Cycle>, maxCopies: nat)
    requires History(stores, cycles, maxCopies) && NamesNotReused(stores, cycles)
    requires cycles != [] && Clean(cycles[|cycles| - 1])
    ensures NewestOf(Ever(stores, cycles), stores[|cycles|])
  {
    var ever, cur := Ever(stores, cycles), stores[|cycles|];
    HistoryCoversLosses(stores, cycles, maxCopies);
    HistorySize(stores, cycles, maxCopies);
    assert |cur.Keys| == |cur| <= maxCopies;
    forall a, b | a in ever && a !in cur && b in cur ensures ever[a] <= ever[b] {
      SplitSize(AsNewAs(cur, ever[a]), cur.Keys);
      assert |cur.Keys - AsNewAs(cur, ever[a])| == 0;
      assert b !in cur.Keys - AsNewAs(cur, ever[a]);
    }
  }

  // ---------- a history produced by the store itself ----------

  lemma HistoryExtends(stores: seq<Items>, cycles: seq<Cycle>, maxCopies: nat, after: Items, c: Cycle)
    requires History(stores, cycles, maxCopies) && NamesNotReused(stores, cycles)
    requires Next(stores[|cycles|], after, maxCopies, c) && c.name !in Ever(stores, cycles)
    ensures History(stores + [after], cycles + [c], maxCopies) && NamesNotReused(stores + [after], cycles + [c])
    ensures Ever(stores + [after], cycles + [c]) == Ever(stores, cycles)[c.name := c.time]
  {
    var stores', cycles' := stores + [after], cycles + [c];
    assert cycles'[..|cycles|] == cycles;
    EverFirst(stores', stores, cycles);
    forall k | 0 <= k < |cycles'| ensures Next(stores'[k], stores'[k + 1], maxCopies, cycles'[k]) {
      assert k < |cycles| ==> Next(stores[k], stores[k + 1], maxCopies, cycles[k]);
    }
    forall k | 0 <= k < |cycles'| ensures cycles'[k].name !in Ever(stores', cycles'[..k]) {
      assert cycles'[..k] == cycles[..k];
      EverFirst(stores', stores, cycles[..k]);
    }
  }

  // One cycle to come: what to create, and what the cluster refuses meanwhile.
  datatype Creation = Creation(name: string, time: Time, env: Environment)

  // Those that succeed in creating their map.
  ghost function Created(creations: seq<Creation>): seq<Creation> {
    if creations == [] then []
    else
      var k := |creations| - 1;
      Created(creations[..k]) + if creations[k].env.createFails then [] else [creations[k]]
  }

  // The cycle did what its creation and its environment say.
  ghost predicate Carries(c: Cycle, creation: Creation) {
    && c.name == creation.name && c.time == creation.time
    && c.listed == !creation.env.listFails && c.failed == set n | n in c.tried && n in creation.env.undeletable
  }

  // The history the creations lead to, one cycle for each that succeeds.
  ghost predicate Produced(creations: seq<Creation>, stores: seq<Items>, cycles: seq<Cycle>, limit: nat) {
    && History(stores, cycles, limit) && NamesNotReused(stores, cycles)
    && |cycles| == |Created(creations)| && forall k :: 0 <= k < |cycles| ==> Carries(cycles[k], Created(creations)[k])
  }

  lemma ProducedNext(creations: seq<Creation>, i: nat, stores: seq<Items>, cycles: seq<Cycle>, limit: nat,
                     after: Items, c: Cycle)
    requires i < |creations| && Produced(creations[..i], stores, cycles, limit)
    requires creations[i].env.createFails ==> after == stores[|cycles|]
    requires !creations[i].env.createFails ==>
      Carries(c, creations[i]) && Next(stores[|cycles|], after, limit, c) && c.name !in Ever(stores, cycles)
    ensures if creations[i].env.createFails then Produced(creations[..i + 1], stores, cycles, limit)
      else Produced(creations[..i + 1], stores + [after], cycles + [c], limit)
    ensures !creations[i].env.createFails ==>
      Ever(stores + [after], cycles + [c]) == Ever(stores, cycles)[c.name := c.time]
  {
    assert creations[..i + 1][..i] == creations[..i];
    if !creations[i].env.createFails {
      HistoryExtends(stores, cycles, limit, after, c);
    }
  }

  // Nothing is refused in the last cycle.
  ghost predicate EndsUnhindered(creations: seq<Creation>) {
    var done := Created(creations);
    done != [] && !done[|done| - 1].env.listFails && done[|done| - 1].env.undeletable == {}
  }

  lemma EndsClean(creations: seq<Creation>, stores: seq<Items>, cycles: seq<Cycle>, limit: nat)
    requires Produced(creations, stores, cycles, limit) && EndsUnhindered(creations)
    ensures cycles != [] && Clean(cycles[|cycles| - 1])
  {
    UnhinderedIsClean(cycles[|cycles| - 1], Created(creations)[|cycles| - 1]);
  }

  /** When nothing is refused in the last cycle of a produced history, whatever failed before it, the newest maps
      are left. */
  lemma LastUnhindered(creations: seq<Creation>, stores: seq<Items>, cycles: seq<Cycle>, limit: nat)
    requires Produced(creations, stores, cycles, limit) && EndsUnhindered(creations)
    ensures NewestOf(Ever(stores, cycles), stores[|cycles|])
  {
    EndsClean(creations, stores, cycles, limit);
    HistoryKeepsNewest(stores, cycles, limit);
  }

  /** They are as many as were there and were created, up to the limit. */
  lemma LastUnhinderedSize(creations: seq<Creation>, stores: seq<Items>, cycles: seq<Cycle>, limit: nat)
    requires Produced(creations, stores, cycles, limit) && EndsUnhindered(creations)
    ensures |stores[|cycles|]| == Min(|stores[0]| + |Created(creations)|, limit)
  {
    EndsClean(creations, stores, cycles, limit);
    HistorySize(stores, cycles, limit);
  }

  lemma UnhinderedIsClean(c: Cycle, creation: Creation)
    requires Carries(c, creation) && !creation.env.listFails && creation.env.undeletable == {}
    ensures Clean(c)
  {
  }

  /** Cycle after cycle on one store produces the history of the creations, each with what the cluster refuses in it. */
  method CreateAll(store: Store, creations: seq<Creation>, limit: nat)
    returns (ghost stores: seq<Items>, ghost cycles: seq<Cycle>)
    requires limit > 0
    requires forall i, j :: 0 <= i < j < |creations| ==> creations[i].name != creations[j].name
    requires forall i :: 0 <= i < |creations| ==> creations[i].name !in store.items
    modifies store
    ensures Produced(creations, stores, cycles, limit)
    ensures stores[0] == old(store.items) && stores[|cycles|] == store.items
  {
    stores, cycles := [store.items], [];
    for i := 0 to |creations|
      invariant Produced(creations[..i], stores, cycles, limit)
      invariant stores[0] == old(store.items) && stores[|cycles|] == store.items
      invariant forall j :: i <= j < |creations| ==> creations[j].name !in Ever(stores, cycles)
    {
      HistoryCoversLosses(stores, cycles, limit);
      var Creation(name, time, env) := creations[i];
      var created, listed, tried, failed := store.CreateThenRotate(name, time, limit, env);
      ghost var c := Cycle(name, time, listed, tried, failed);
      ProducedNext(creations, i, stores, cycles, limit, store.items, c);
      if created {
        stores, cycles := stores + [store.items], cycles + [c];
      }
    }
    assert creations[..|creations|] == creations;
  }
}
