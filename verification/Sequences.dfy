/** Sequences: repeats and regrouping. */
module Sequences {

  predicate NoRepeats<T(==)>(s: seq<T>) {
    forall i, j :: 0 <= i < j < |s| ==> s[i] != s[j]
  }

  lemma Regroup<T>(s: seq<T>, x: T, rest: seq<T>)
    ensures s + ([x] + rest) == (s + [x]) + rest
  {
  }

  lemma Head<T>(s: seq<T>, rest: seq<T>)
    requires 0 < |s|
    ensures s + rest == [s[0]] + (s[1..] + rest)
  {
  }
}
