// Keeping the first element of every key, for any key function.

module Dedup {

  ghost function KeysBefore<T>(s: seq<T>, key: T -> string, n: nat): set<string>
    requires n <= |s|
  {
    set i | 0 <= i < n :: key(s[i])
  }

  // No earlier element has the same key.
  ghost predicate FirstOfKey<T>(s: seq<T>, key: T -> string, i: nat)
    requires i < |s|
  {
    key(s[i]) !in KeysBefore(s, key, i)
  }

  // The elements before n that are the first of their key.
  ghost function FirstsBefore<T>(s: seq<T>, key: T -> string, n: nat): seq<T>
    requires n <= |s|
  {
    if n == 0 then []
    else FirstsBefore(s, key, n - 1) + if FirstOfKey(s, key, n - 1) then [s[n - 1]] else []
  }

  ghost function Firsts<T>(s: seq<T>, key: T -> string): seq<T> {
    FirstsBefore(s, key, |s|)
  }

  // The indices before n of those elements.
  ghost function Positions<T>(s: seq<T>, key: T -> string, n: nat): seq<nat>
    requires n <= |s|
  {
    if n == 0 then []
    else Positions(s, key, n - 1) + if FirstOfKey(s, key, n - 1) then [n - 1] else []
  }

  /** What is kept stands at exactly the first occurrences of all keys, in increasing order. */
  lemma {:induction false} PositionsExact<T>(s: seq<T>, key: T -> string, n: nat)
    requires n <= |s|
    ensures forall i: nat :: i in Positions(s, key, n) <==> i < n && FirstOfKey(s, key, i)
    ensures forall k, l :: 0 <= k < l < |Positions(s, key, n)| ==> Positions(s, key, n)[k] < Positions(s, key, n)[l]
  {
    if n > 0 {
      PositionsExact(s, key, n - 1);
      var before := Positions(s, key, n - 1);
      forall k | 0 <= k < |before| ensures before[k] < n - 1 {
        assert before[k] in before;
      }
    }
  }

  lemma {:induction false} KeptAtPositions<T>(s: seq<T>, key: T -> string, n: nat, k: nat)
    requires n <= |s| && k < |FirstsBefore(s, key, n)|
    ensures |Positions(s, key, n)| == |FirstsBefore(s, key, n)|
    ensures Positions(s, key, n)[k] in Positions(s, key, n)
    ensures Positions(s, key, n)[k] < |s| && FirstsBefore(s, key, n)[k] == s[Positions(s, key, n)[k]]
  {
    SameLength(s, key, n);
    SameLength(s, key, n - 1);
    PositionsExact(s, key, n);
    if k < |FirstsBefore(s, key, n - 1)| {
      KeptAtPositions(s, key, n - 1, k);
    }
  }

  lemma {:induction false} SameLength<T>(s: seq<T>, key: T -> string, n: nat)
    requires n <= |s|
    ensures |Positions(s, key, n)| == |FirstsBefore(s, key, n)|
  {
    if n > 0 {
      SameLength(s, key, n - 1);
    }
  }

  lemma {:induction false} FirstIndex<T>(s: seq<T>, key: T -> string, i: nat) returns (f: nat)
    requires i < |s|
    ensures f <= i && FirstOfKey(s, key, f) && key(s[f]) == key(s[i])
  {
    if FirstOfKey(s, key, i) {
      f := i;
    } else {
      var j :| 0 <= j < i && key(s[j]) == key(s[i]);
      f := FirstIndex(s, key, j);
    }
  }

  /** One element per key, and one for every key. */
  lemma FirstsOnePerKey<T>(s: seq<T>, key: T -> string)
    ensures forall i, j :: 0 <= i < j < |Firsts(s, key)| ==> key(Firsts(s, key)[i]) != key(Firsts(s, key)[j])
    ensures forall e :: e in s ==> exists d :: d in Firsts(s, key) && key(d) == key(e)
    ensures forall d :: d in Firsts(s, key) ==> d in s
  {
    var at, kept := Positions(s, key, |s|), Firsts(s, key);
    SameLength(s, key, |s|);
    PositionsExact(s, key, |s|);
    forall k | 0 <= k < |kept| ensures at[k] < |s| && FirstOfKey(s, key, at[k]) && kept[k] == s[at[k]] {
      KeptAtPositions(s, key, |s|, k);
    }
    forall i, j | 0 <= i < j < |kept| ensures key(kept[i]) != key(kept[j]) {
      assert at[i] < at[j];
      assert key(s[at[i]]) in KeysBefore(s, key, at[j]);
    }
    forall e | e in s ensures exists d :: d in kept && key(d) == key(e) {
      var k := KeptPosition(s, key, e);
      assert kept[k] in kept;
    }
  }

  // The one kept element with the key of e.
  lemma PositionOfKey<T>(s: seq<T>, key: T -> string, e: T) returns (i: nat)
    requires e in s
    ensures var kept := Firsts(s, key);
      i < |kept| && (forall x :: x in kept ==> x in s)
      && forall j :: 0 <= j < |kept| ==> (key(kept[j]) == key(e) <==> j == i)
  {
    i := KeptPosition(s, key, e);
    forall j | 0 <= j < |Firsts(s, key)| && j != i ensures key(Firsts(s, key)[j]) != key(e) {
      DifferentKeys(s, key, i, j);
    }
    FirstsOnePerKey(s, key);
  }

  lemma KeptPosition<T>(s: seq<T>, key: T -> string, e: T) returns (i: nat)
    requires e in s
    ensures i < |Firsts(s, key)| && key(Firsts(s, key)[i]) == key(e)
  {
    var k :| 0 <= k < |s| && s[k] == e;
    var f := FirstIndex(s, key, k);
    PositionsExact(s, key, |s|);
    i :| 0 <= i < |Positions(s, key, |s|)| && Positions(s, key, |s|)[i] == f;
    SameLength(s, key, |s|);
    KeptAtPositions(s, key, |s|, i);
  }

  lemma DifferentKeys<T>(s: seq<T>, key: T -> string, i: nat, j: nat)
    requires i < |Firsts(s, key)| && j < |Firsts(s, key)| && i != j
    ensures key(Firsts(s, key)[i]) != key(Firsts(s, key)[j])
  {
    FirstsOnePerKey(s, key);
  }
}
