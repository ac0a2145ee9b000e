/** External fragmentation of the arena: the free units lying in maximal free
    runs too short for the smallest process of the workload. */
module Fragmentation {
  import opened Arena

  /** What a maximal free run of `len` units adds to the total when the
      smallest process needs `k` units: all of it when 0 < len < k, else nothing. */
  function Counted(len: int, k: int): int
  {
    if 0 < len && len < k then len else 0
  }

  /** The sum of Counted over the maximal free runs that begin at or after `i`,
      where `i` is not inside a free run. Each run is measured by FreeRun from
      its first unit, so a run ending at the last unit is included. */
  function FragFrom(m: seq<int>, k: int, i: int): int
    requires 0 <= i <= |m|
    decreases |m| - i
  {
    if i == |m| then 0
    else if m[i] != 0 then FragFrom(m, k, i + 1)
    else Counted(FreeRun(m, i), k) + FragFrom(m, k, i + FreeRun(m, i))
  }

  /** calcularFragmentacaoExterna, as a value. */
  function ExternalFragmentation(m: seq<int>, k: int): int
  {
    FragFrom(m, k, 0)
  }

  /** What calcularFragmentacaoExterna's loop still adds from position `i`
      when the `current` units just before `i` are free: the run they start
      (continued from `i`) and all later runs. */
  function ScanRemainder(m: seq<int>, k: int, i: int, current: int): int
    requires 0 <= i <= |m|
  {
    Counted(current + FreeRun(m, i), k) + FragFrom(m, k, i + FreeRun(m, i))
  }

  /** One iteration of the loop: a free unit extends the current run; an
      occupied unit closes it, adding it when it is shorter than `k`. */
  lemma ScanStep(m: seq<int>, k: int, i: int, current: int)
    requires 0 <= i < |m|
    ensures m[i] == 0 ==> ScanRemainder(m, k, i, current) == ScanRemainder(m, k, i + 1, current + 1)
    ensures m[i] != 0 ==> ScanRemainder(m, k, i, current) == Counted(current, k) + ScanRemainder(m, k, i + 1, 0)
  {
    if m[i] != 0 {
      FragFromUnfold(m, k, i + 1);
    }
  }

  /** Before the first unit the remainder is the whole fragmentation; after
      the last it is the trailing run alone. */
  lemma ScanEnds(m: seq<int>, k: int, current: int)
    ensures ScanRemainder(m, k, 0, 0) == ExternalFragmentation(m, k)
    ensures ScanRemainder(m, k, |m|, current) == Counted(current, k)
  {
    FragFromUnfold(m, k, 0);
  }

  /** The number of 0 units in m[i..]. */
  function FreeCount(m: seq<int>, i: int): (r: nat)
    requires 0 <= i <= |m|
    ensures r <= |m| - i
    decreases |m| - i
  {
    if i == |m| then 0 else (if m[i] == 0 then 1 else 0) + FreeCount(m, i + 1)
  }

  /** Splitting off the free run that starts at `i`. */
  lemma {:induction false} FreeCountRun(m: seq<int>, i: int)
    requires 0 <= i <= |m|
    ensures FreeCount(m, i) == FreeRun(m, i) + FreeCount(m, i + FreeRun(m, i))
    decreases |m| - i
  {
    if i < |m| && m[i] == 0 {
      FreeCountRun(m, i + 1);
    }
  }

  /** Every position, inside a run or not, can be read as a run boundary: the
      fragmentation from `i` is what the run from `i` contributes plus the
      fragmentation after it. */
  lemma FragFromUnfold(m: seq<int>, k: int, i: int)
    requires 0 <= i <= |m|
    ensures FragFrom(m, k, i) == Counted(FreeRun(m, i), k) + FragFrom(m, k, i + FreeRun(m, i))
  {
  }

  lemma {:induction false} FragFromBounds(m: seq<int>, k: int, i: int)
    requires 0 <= i <= |m|
    ensures 0 <= FragFrom(m, k, i) <= FreeCount(m, i)
    decreases |m| - i
  {
    if i < |m| {
      if m[i] != 0 {
        FragFromBounds(m, k, i + 1);
      } else {
        FreeCountRun(m, i);
        FragFromBounds(m, k, i + FreeRun(m, i));
      }
    }
  }

  /** The fragmentation never exceeds the number of free units, hence the size
      of the arena, and is never negative. */
  lemma FragmentationBounds(m: seq<int>, k: int)
    ensures 0 <= ExternalFragmentation(m, k) <= FreeCount(m, 0) <= |m|
  {
    FragFromBounds(m, k, 0);
  }

  /** A wholly free arena is one run: it all counts when it is shorter than the
      smallest process, and none of it counts otherwise. */
  lemma FragmentationAllFree(m: seq<int>, k: int)
    requires forall u :: 0 <= u < |m| ==> m[u] == 0
    ensures ExternalFragmentation(m, k) == if |m| < k then |m| else 0
  {
    if |m| > 0 {
      assert FreeRun(m, 0) == |m|;
      assert FragFrom(m, k, |m|) == 0;
      assert FragFrom(m, k, 0) == Counted(|m|, k);
    }
  }

  /** A six-unit arena with units 2 to 4 free holds one run of three units. */
  lemma FragmentationOfOneRun()
    ensures ExternalFragmentation([1, 1, 0, 0, 0, 1], 2) == 0
    ensures ExternalFragmentation([1, 1, 0, 0, 0, 1], 4) == 3
  {
    var m := [1, 1, 0, 0, 0, 1];
    assert FreeRun(m, 2) == 3;
  }
}
