// What several parts share.

module Basics {

  datatype Option<+T> = None | Some(value: T)

  // Logical time: the value one call of the clock returns.
  type Time = int

  ghost predicate Distinct(l: seq<string>) {
    forall i, j :: 0 <= i < j < |l| ==> l[i] != l[j]
  }
}
