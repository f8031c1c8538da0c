/** Small facts about sequences shared by the other modules. */
module Seqs {

  /** No element occurs twice, as for the keys of a dict. */
  ghost predicate Distinct<T>(s: seq<T>) {
    forall i, j :: 0 <= i < j < |s| ==> s[i] != s[j]
  }

  /** The first components of a sequence of pairs: the keys of a dict
      given as its items in iteration order. */
  function Keys<K, X>(items: seq<(K, X)>): (ks: seq<K>)
    ensures |ks| == |items|
    ensures forall i :: 0 <= i < |items| ==> ks[i] == items[i].0
  {
    if |items| == 0 then [] else [items[0].0] + Keys(items[1..])
  }

  function Max(a: int, b: int): int {
    if a < b then b else a
  }

  /** Appending an element not yet present keeps the elements distinct. */
  lemma DistinctAppend<T>(s: seq<T>, x: T)
    requires Distinct(s)
    requires x !in s
    ensures Distinct(s + [x])
  {
  }
}
