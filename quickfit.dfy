/** The Quick-Fit index: exact block size to the list of offsets recorded by
    deallocations of processes of that size, oldest first. */
module QuickFitIndex {

  /** The index right after inicializarQuickFit: an empty list for every size
      1..n and no other key. */
  function EmptyIndex(n: int): (idx: map<int, seq<int>>)
    ensures forall s :: s in idx <==> 1 <= s <= n
    ensures forall s :: s in idx ==> idx[s] == []
    decreases n
  {
    if n <= 0 then map[] else EmptyIndex(n - 1)[n := []]
  }

  /** Every recorded offset, with the size it is listed under, describes a
      range inside an arena of `n` units. */
  predicate Bounded(idx: map<int, seq<int>>, n: int)
  {
    forall s, j :: s in idx && 0 <= j < |idx[s]| ==> 0 <= idx[s][j] && idx[s][j] + s <= n
  }

  /** alocarQuickFit takes its hit path: the list for size `s` exists and is not empty. */
  predicate Hit(idx: map<int, seq<int>>, s: int)
  {
    s in idx && |idx[s]| > 0
  }
}
