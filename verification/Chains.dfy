/** Sequences as the modules use them; for singly linked lists of block names, 0 ends a list. */
module Chains {

  ghost predicate NoDup<T>(s: seq<T>) {
    forall i, j :: 0 <= i < j < |s| ==> s[i] != s[j]
  }

  lemma Regroup<T>(a: seq<T>, b: seq<T>, c: seq<T>)
    ensures a + (b + c) == a + b + c
  {}

  /** A sequence with one place taken out. */
  function Without<T>(s: seq<T>, i: nat): seq<T>
    requires i < |s|
  {
    s[..i] + s[i + 1..]
  }

  function NextIn(s: seq<nat>, i: nat): nat {
    if i + 1 < |s| then s[i + 1] else 0
  }
}
