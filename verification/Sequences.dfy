/** Facts about sequences that several models need. */
module Sequences {

  predicate NoDuplicates<T(==)>(xs: seq<T>) {
    forall i, j :: 0 <= i < j < |xs| ==> xs[i] != xs[j]
  }

  lemma TakeAll<T>(xs: seq<T>)
    ensures xs[..|xs|] == xs
  {
  }

  lemma TakeSucc<T>(xs: seq<T>, i: nat)
    requires i < |xs|
    ensures xs[..i + 1] == xs[..i] + [xs[i]] && xs[..i + 1][..i] == xs[..i]
  {
  }

  lemma DropDrop<T>(xs: seq<T>, n: nat, i: nat)
    requires n + i <= |xs|
    ensures xs[n..][i..] == xs[n + i..] && xs[n..|xs|] == xs[n..]
  {
  }
}
