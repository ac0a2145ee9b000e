/** The allocation arena as a value: a sequence of units, 0 for free and 1 for
    occupied, and the offset that each placement strategy chooses on it.
    The imperative engine in module Manager is proved against these functions. */
module Arena {

  datatype Option<T> = None | Some(value: T)

  /** Largest Java `int`; the Best Fit scan starts its minimum here. */
  const INT_MAX: int := 0x7fff_ffff

  /** Every unit holds 0 or 1: the engine writes no other value. */
  predicate Binary(m: seq<int>)
  {
    forall u :: 0 <= u < |m| ==> m[u] == 0 || m[u] == 1
  }

  /** isLivre: the range [start, start + t) lies inside the arena and none of
      its units is marked 1. */
  predicate IsFree(m: seq<int>, start: int, t: nat)
    requires 0 <= start
  {
    start + t <= |m| && forall u :: start <= u < start + t ==> m[u] != 1
  }

  /** calcularBlocoLivre: the number of consecutive 0 units from `i` onwards. */
  function FreeRun(m: seq<int>, i: int): (r: nat)
    requires 0 <= i <= |m|
    ensures i + r <= |m|
    ensures forall u :: i <= u < i + r ==> m[u] == 0
    ensures i + r == |m| || m[i + r] != 0
    ensures i < |m| && m[i] != 0 ==> r == 0
    decreases |m| - i
  {
    if i == |m| || m[i] != 0 then 0 else 1 + FreeRun(m, i + 1)
  }

  /** `m` with the units of [start, start + t) set to `v`. */
  function Fill(m: seq<int>, start: int, t: int, v: int): seq<int>
  {
    seq(|m|, u requires 0 <= u < |m| => if start <= u < start + t then v else m[u])
  }

  /** After alocar the range no longer fits; after desalocar it fits again. */
  lemma FillAndIsFree(m: seq<int>, o: nat, t: nat)
    requires o + t <= |m|
    ensures IsFree(Fill(m, o, t, 0), o, t)
    ensures t > 0 ==> !IsFree(Fill(m, o, t, 1), o, t)
  {
    if t > 0 {
      assert Fill(m, o, t, 1)[o] == 1;
    }
  }

  /** Freeing a block right after allocating it where isLivre held restores
      the arena exactly. */
  lemma AllocThenFreeRestores(m: seq<int>, o: nat, t: nat)
    requires Binary(m) && IsFree(m, o, t)
    ensures Fill(Fill(m, o, t, 1), o, t, 0) == m
  {
    var r := Fill(Fill(m, o, t, 1), o, t, 0);
    forall u | 0 <= u < |m|
      ensures r[u] == m[u]
    {
      if o <= u < o + t {
        assert m[u] != 1;
      }
    }
  }

  // ---------------------------------------------------------------- First Fit

  /** The smallest offset at or after `i` where a block of `t` units is free. */
  function FirstFitFrom(m: seq<int>, t: nat, i: nat): (r: Option<nat>)
    ensures r.Some? ==> i <= r.value && IsFree(m, r.value, t)
    ensures r.Some? ==> forall j :: i <= j < r.value ==> !IsFree(m, j, t)
    ensures r.None? ==> forall j :: i <= j ==> !IsFree(m, j, t)
    decreases |m| - t + 1 - i
  {
    if i > |m| - t then None
    else if IsFree(m, i, t) then Some(i)
    else FirstFitFrom(m, t, i + 1)
  }

  /** alocarFirstFit's choice: the lowest offset that fits, if any fits. */
  function FirstFit(m: seq<int>, t: nat): (r: Option<nat>)
    ensures r.Some? ==> IsFree(m, r.value, t)
    ensures r.Some? ==> forall j :: 0 <= j < r.value ==> !IsFree(m, j, t)
    ensures r.None? <==> forall j :: 0 <= j ==> !IsFree(m, j, t)
  {
    FirstFitFrom(m, t, 0)
  }

  // ----------------------------------------------------------------- Next Fit

  /** The offset probed `k` steps after `c` in circular order over `n` units. */
  function Probe(c: int, k: int, n: int): (r: int)
    requires 0 <= c < n && 0 <= k <= n
  {
    if c + k < n then c + k else c + k - n
  }

  /** The `k`-th probe of a Next Fit scan from cursor `c` finds room for `t` units. */
  predicate ProbeFree(m: seq<int>, t: nat, c: int, k: int)
    requires 0 <= c < |m| && 0 <= k <= |m|
  {
    IsFree(m, Probe(c, k, |m|), t)
  }

  lemma ProbeInRange(c: int, k: int, n: int)
    requires 0 <= c < n && 0 <= k < n
    ensures 0 <= Probe(c, k, n) < n
    ensures k > 0 ==> Probe(c, k, n) != c
  {
  }

  /** The source's step `(cursor + 1) % size` moves to the next probe. */
  lemma ProbeStep(c: int, k: int, n: int)
    requires 0 <= c < n && 0 <= k < n
    ensures (Probe(c, k, n) + 1) % n == Probe(c, k + 1, n)
  {
    var x := Probe(c, k, n);
    if x + 1 < n {
      assert (x + 1) % n == x + 1;
    } else {
      assert x + 1 == n;
    }
  }

  /** The number of probes, counted from `k`, until the first one that fits. */
  function NextFitFrom(m: seq<int>, t: nat, c: int, k: nat): (r: Option<nat>)
    requires 0 <= c < |m| && k <= |m|
    ensures r.Some? ==> k <= r.value < |m| && ProbeFree(m, t, c, r.value)
    ensures r.Some? ==> forall j :: k <= j < r.value ==> !ProbeFree(m, t, c, j)
    ensures r.None? ==> forall j :: k <= j < |m| ==> !ProbeFree(m, t, c, j)
    decreases |m| - k
  {
    if k == |m| then None
    else if ProbeFree(m, t, c, k) then Some(k)
    else NextFitFrom(m, t, c, k + 1)
  }

  /** alocarNextFit's choice: the first offset that fits in the circular order
      c, c + 1, ..., |m| - 1, 0, ..., c - 1. */
  function NextFit(m: seq<int>, t: nat, c: int): (r: Option<nat>)
    requires 0 <= c < |m|
    ensures r.Some? ==> r.value < |m| && IsFree(m, r.value, t)
    ensures r.Some? <==> exists k :: 0 <= k < |m| && ProbeFree(m, t, c, k)
    ensures r.Some? ==>
      exists k :: 0 <= k < |m| && r.value == Probe(c, k, |m|) && forall j :: 0 <= j < k ==> !ProbeFree(m, t, c, j)
  {
    match NextFitFrom(m, t, c, 0)
    case None => None
    case Some(k) => ProbeInRange(c, k, |m|); Some(Probe(c, k, |m|))
  }

  /** None of the first `k` probes of a Next Fit scan from `c` fits. */
  ghost predicate ProbesFail(m: seq<int>, t: nat, c: int, k: int)
    requires 0 <= c < |m| && 0 <= k <= |m|
  {
    forall j :: 0 <= j < k ==> !ProbeFree(m, t, c, j)
  }

  /** A probe that fails extends the failing prefix by one. */
  lemma ProbesFailStep(m: seq<int>, t: nat, c: int, k: int)
    requires 0 <= c < |m| && 0 <= k < |m| && ProbesFail(m, t, c, k) && !ProbeFree(m, t, c, k)
    ensures ProbesFail(m, t, c, k + 1)
  {
  }

  /** The first probe that fits is Next Fit's choice. */
  lemma NextFitFound(m: seq<int>, t: nat, c: int, k: int)
    requires 0 <= c < |m| && 0 <= k < |m| && ProbesFail(m, t, c, k) && ProbeFree(m, t, c, k)
    ensures NextFit(m, t, c) == Some(Probe(c, k, |m|))
  {
    assert NextFitFrom(m, t, c, 0) == Some(k);
  }

  /** When every probe of the circle fails, Next Fit has no choice. */
  lemma NextFitExhausted(m: seq<int>, t: nat, c: int)
    requires 0 <= c < |m| && ProbesFail(m, t, c, |m|)
    ensures NextFit(m, t, c).None?
  {
    assert NextFitFrom(m, t, c, 0).None?;
  }

  /** From cursor 0, Next Fit chooses what First Fit chooses. */
  lemma NextFitAtZeroIsFirstFit(m: seq<int>, t: nat)
    requires 0 < |m|
    ensures NextFit(m, t, 0) == FirstFit(m, t)
  {
    var f := FirstFit(m, t);
    var s := NextFitFrom(m, t, 0, 0);
    forall j | 0 <= j < |m|
      ensures ProbeFree(m, t, 0, j) == IsFree(m, j, t)
    {
    }
    if f.Some? {
      assert f.value < |m| by {
        if t > 0 { assert f.value + t <= |m|; } else { assert IsFree(m, 0, t); }
      }
      assert ProbeFree(m, t, 0, f.value);
      assert s.Some? && s.value == f.value;
    }
  }

  /** From any cursor, Next Fit succeeds exactly when First Fit does: the
      circular scan visits every offset of the arena. */
  lemma NextFitSucceedsIffFirstFitSucceeds(m: seq<int>, t: nat, c: int)
    requires 0 <= c < |m|
    ensures NextFit(m, t, c).Some? <==> FirstFit(m, t).Some?
  {
    var f := FirstFit(m, t);
    if f.Some? {
      var o := f.value;
      assert o < |m| by {
        if t > 0 { assert o + t <= |m|; } else { assert IsFree(m, 0, t); }
      }
      var k := if c <= o then o - c else o - c + |m|;
      assert Probe(c, k, |m|) == o;
      assert ProbeFree(m, t, c, k);
    }
  }

  // ----------------------------------------------------- Best Fit, Worst Fit

  /** `o` is Best Fit's choice among the offsets at or after `lo`: it fits, its
      free run (measured from `o` forward) is minimal, and every lower offset
      that fits has a strictly longer run. */
  ghost predicate BestAt(m: seq<int>, t: nat, lo: nat, o: nat)
  {
    lo <= o && IsFree(m, o, t)
    && (forall j :: lo <= j && IsFree(m, j, t) ==> FreeRun(m, o) <= FreeRun(m, j))
    && (forall j :: lo <= j < o && IsFree(m, j, t) ==> FreeRun(m, o) < FreeRun(m, j))
  }

  /** Worst Fit's choice: as BestAt with the order of run lengths reversed. */
  ghost predicate WorstAt(m: seq<int>, t: nat, lo: nat, o: nat)
  {
    lo <= o && IsFree(m, o, t)
    && (forall j :: lo <= j && IsFree(m, j, t) ==> FreeRun(m, o) >= FreeRun(m, j))
    && (forall j :: lo <= j < o && IsFree(m, j, t) ==> FreeRun(m, o) > FreeRun(m, j))
  }

  function BestFitFrom(m: seq<int>, t: nat, i: nat): (r: Option<nat>)
    ensures r.Some? ==> BestAt(m, t, i, r.value)
    ensures r.None? ==> forall j :: i <= j ==> !IsFree(m, j, t)
    decreases |m| - t + 1 - i
  {
    if i > |m| - t then None
    else
      var rest := BestFitFrom(m, t, i + 1);
      if !IsFree(m, i, t) then rest
      else if rest.None? || FreeRun(m, i) <= FreeRun(m, rest.value) then Some(i)
      else rest
  }

  function WorstFitFrom(m: seq<int>, t: nat, i: nat): (r: Option<nat>)
    ensures r.Some? ==> WorstAt(m, t, i, r.value)
    ensures r.None? ==> forall j :: i <= j ==> !IsFree(m, j, t)
    decreases |m| - t + 1 - i
  {
    if i > |m| - t then None
    else
      var rest := WorstFitFrom(m, t, i + 1);
      if !IsFree(m, i, t) then rest
      else if rest.None? || FreeRun(m, i) >= FreeRun(m, rest.value) then Some(i)
      else rest
  }

  /** alocarBestFit's choice, if any offset fits. */
  function BestFit(m: seq<int>, t: nat): (r: Option<nat>)
    ensures r.Some? ==> BestAt(m, t, 0, r.value)
    ensures r.None? <==> forall j :: 0 <= j ==> !IsFree(m, j, t)
  {
    BestFitFrom(m, t, 0)
  }

  /** alocarWorstFit's choice, if any offset fits. */
  function WorstFit(m: seq<int>, t: nat): (r: Option<nat>)
    ensures r.Some? ==> WorstAt(m, t, 0, r.value)
    ensures r.None? <==> forall j :: 0 <= j ==> !IsFree(m, j, t)
  {
    WorstFitFrom(m, t, 0)
  }

  /** The state of alocarBestFit's scan before offset `i`: either nothing
      below `i` fits and the minimum is still Integer.MAX_VALUE, or `best` is
      the Best Fit choice among the offsets below `i`, with run `bestLen`. */
  ghost predicate BestBelow(m: seq<int>, t: nat, i: int, best: int, bestLen: int)
  {
    if best == -1 then bestLen == INT_MAX && forall j :: 0 <= j < i ==> !IsFree(m, j, t)
    else
      0 <= best < i && IsFree(m, best, t) && bestLen == FreeRun(m, best)
      && (forall j :: 0 <= j < i && IsFree(m, j, t) ==> bestLen <= FreeRun(m, j))
      && (forall j :: 0 <= j < best && IsFree(m, j, t) ==> bestLen < FreeRun(m, j))
  }

  /** One iteration of the Best Fit scan: offset `i` replaces the incumbent
      exactly when it fits with a strictly shorter run. */
  lemma BestBelowStep(m: seq<int>, t: nat, i: nat, best: int, bestLen: int)
    requires |m| < INT_MAX && i + t <= |m| && BestBelow(m, t, i, best, bestLen)
    ensures IsFree(m, i, t) && FreeRun(m, i) < bestLen ==> BestBelow(m, t, i + 1, i, FreeRun(m, i))
    ensures !(IsFree(m, i, t) && FreeRun(m, i) < bestLen) ==> BestBelow(m, t, i + 1, best, bestLen)
  {
    if IsFree(m, i, t) && best == -1 {
      assert FreeRun(m, i) < bestLen;
    }
  }

  /** Once no offset from `i` on can fit, the scan's result is BestFit's. */
  lemma BestBelowDone(m: seq<int>, t: nat, i: nat, best: int, bestLen: int)
    requires |m| < i + t && BestBelow(m, t, i, best, bestLen)
    ensures best == -1 <==> BestFit(m, t).None?
    ensures best != -1 ==> best == BestFit(m, t).value
  {
    if best != -1 {
      assert BestAt(m, t, 0, best);
      BestAtUnique(m, t, best, BestFit(m, t).value);
    }
  }

  /** The state of alocarWorstFit's scan before offset `i`, as BestBelow with
      the maximum starting at -1. */
  ghost predicate WorstBelow(m: seq<int>, t: nat, i: int, worst: int, worstLen: int)
  {
    if worst == -1 then worstLen == -1 && forall j :: 0 <= j < i ==> !IsFree(m, j, t)
    else
      0 <= worst < i && IsFree(m, worst, t) && worstLen == FreeRun(m, worst)
      && (forall j :: 0 <= j < i && IsFree(m, j, t) ==> worstLen >= FreeRun(m, j))
      && (forall j :: 0 <= j < worst && IsFree(m, j, t) ==> worstLen > FreeRun(m, j))
  }

  /** One iteration of the Worst Fit scan: offset `i` replaces the incumbent
      exactly when it fits with a strictly longer run. */
  lemma WorstBelowStep(m: seq<int>, t: nat, i: nat, worst: int, worstLen: int)
    requires i + t <= |m| && WorstBelow(m, t, i, worst, worstLen)
    ensures IsFree(m, i, t) && FreeRun(m, i) > worstLen ==> WorstBelow(m, t, i + 1, i, FreeRun(m, i))
    ensures !(IsFree(m, i, t) && FreeRun(m, i) > worstLen) ==> WorstBelow(m, t, i + 1, worst, worstLen)
  {
  }

  /** Once no offset from `i` on can fit, the scan's result is WorstFit's. */
  lemma WorstBelowDone(m: seq<int>, t: nat, i: nat, worst: int, worstLen: int)
    requires |m| < i + t && WorstBelow(m, t, i, worst, worstLen)
    ensures worst == -1 <==> WorstFit(m, t).None?
    ensures worst != -1 ==> worst == WorstFit(m, t).value
  {
    if worst != -1 {
      assert WorstAt(m, t, 0, worst);
      WorstAtUnique(m, t, worst, WorstFit(m, t).value);
    }
  }

  /** The Best Fit choice is determined by BestAt alone. */
  lemma BestAtUnique(m: seq<int>, t: nat, o1: nat, o2: nat)
    requires BestAt(m, t, 0, o1) && BestAt(m, t, 0, o2)
    ensures o1 == o2
  {
  }

  /** The Worst Fit choice is determined by WorstAt alone. */
  lemma WorstAtUnique(m: seq<int>, t: nat, o1: nat, o2: nat)
    requires WorstAt(m, t, 0, o1) && WorstAt(m, t, 0, o2)
    ensures o1 == o2
  {
  }

  /** Inside a run of free units the run measured from a later unit is shorter
      by the distance between the two. */
  lemma {:induction false} FreeRunShift(m: seq<int>, i: int, j: int)
    requires 0 <= i <= |m| && i <= j <= i + FreeRun(m, i)
    ensures FreeRun(m, j) == FreeRun(m, i) - (j - i)
    decreases j - i
  {
    if i < j {
      FreeRunShift(m, i + 1, j);
    }
  }

  /** On a 0/1 arena a fitting offset has a free run of at least `t`. */
  lemma {:induction false} FreeRunOfFit(m: seq<int>, t: nat, o: nat)
    requires Binary(m) && IsFree(m, o, t)
    ensures FreeRun(m, o) >= t
    decreases t
  {
    if t > 0 {
      assert m[o] == 0;
      FreeRunOfFit(m, t - 1, o + 1);
    }
  }

  /** Because calcularBlocoLivre measures from the candidate offset forward, the
      least run Best Fit can see is exactly `t`, found at the last `t` units of
      the first free region that fits. So Best Fit as written places the block
      at the END of the region First Fit would use, whatever the sizes of the
      other free regions. */
  lemma BestFitIsEndOfFirstFit(m: seq<int>, t: nat)
    requires Binary(m) && t > 0
    ensures FirstFit(m, t).None? ==> BestFit(m, t).None?
    ensures FirstFit(m, t).Some? ==>
      BestFit(m, t) == Some(FirstFit(m, t).value + FreeRun(m, FirstFit(m, t).value) - t)
  {
    var f := FirstFit(m, t);
    if f.Some? {
      var o := f.value;
      var e := o + FreeRun(m, o) - t;
      EndOfFirstFitIsBest(m, t, o);
      BestAtUnique(m, t, e, BestFit(m, t).value);
    }
  }

  /** The last fitting offset of the first region large enough satisfies
      the Best Fit specification. */
  lemma EndOfFirstFitIsBest(m: seq<int>, t: nat, o: nat)
    requires Binary(m) && t > 0 && FirstFit(m, t) == Some(o)
    ensures BestAt(m, t, 0, o + FreeRun(m, o) - t)
  {
    FreeRunOfFit(m, t, o);
    var e := o + FreeRun(m, o) - t;
    FreeRunShift(m, o, e);
    assert IsFree(m, e, t);
    forall j | 0 <= j && IsFree(m, j, t)
      ensures FreeRun(m, e) <= FreeRun(m, j)
    {
      FreeRunOfFit(m, t, j);
    }
    forall j | 0 <= j < e && IsFree(m, j, t)
      ensures FreeRun(m, e) < FreeRun(m, j)
    {
      FreeRunShift(m, o, j);
    }
  }

  /** Worst Fit as written always chooses the first unit of a free region: a
      unit preceded by a free unit would have a shorter run than its
      predecessor, which fits as well. */
  lemma WorstFitStartsRegion(m: seq<int>, t: nat)
    requires Binary(m) && t > 0 && WorstFit(m, t).Some?
    ensures WorstFit(m, t).value == 0 || m[WorstFit(m, t).value - 1] != 0
  {
    var o := WorstFit(m, t).value;
    if o > 0 && m[o - 1] == 0 {
      FreeRunShift(m, o - 1, o);
      FitExtendsLeft(m, t, o);
      assert false;
    }
  }

  /** A fitting offset preceded by a free unit can be moved one unit down. */
  lemma FitExtendsLeft(m: seq<int>, t: nat, o: nat)
    requires 0 < o && IsFree(m, o, t) && m[o - 1] == 0
    ensures IsFree(m, o - 1, t)
  {
  }

  /** Units 0-2, 4-8 and 10-11 free, units 3 and 9 occupied: free regions
      of 3, 5 and 2 units. */
  function ThreeRegions(): (m: seq<int>)
    ensures |m| == 12 && Binary(m)
    ensures m[3] == 1 && m[9] == 1
    ensures forall u :: 0 <= u < 12 && u != 3 && u != 9 ==> m[u] == 0
  {
    [0, 0, 0, 1, 0, 0, 0, 0, 0, 1, 0, 0]
  }

  /** A request for 2 units on ThreeRegions: Best Fit does not take the
      region of 2. The run measured from offset 1 is already only 2 units
      long, so the block goes to offset 1, inside the region of 3. */
  lemma BestFitOnThreeRegions()
    ensures BestFit(ThreeRegions(), 2) == Some(1)
  {
    var m := ThreeRegions();
    assert IsFree(m, 0, 2);
    assert FirstFit(m, 2) == Some(0);
    assert FreeRun(m, 3) == 0;
    assert FreeRun(m, 0) == 3;
    BestFitIsEndOfFirstFit(m, 2);
  }

  /** A request for 2 units on ThreeRegions: Worst Fit takes the start of the
      region of 5. */
  lemma WorstFitOnThreeRegions()
    ensures WorstFit(ThreeRegions(), 2) == Some(4)
  {
    var m := ThreeRegions();
    assert FreeRun(m, 9) == 0;
    assert FreeRun(m, 4) == 5;
    forall j | 0 <= j && IsFree(m, j, 2)
      ensures FreeRun(m, 4) >= FreeRun(m, j)
      ensures j < 4 ==> FreeRun(m, 4) > FreeRun(m, j)
    {
      if j < 4 {
        assert FreeRun(m, j) <= 3 - j;
      } else if j < 9 {
        FreeRunShift(m, 4, j);
      } else {
        assert j + FreeRun(m, j) <= 12;
      }
    }
    assert WorstAt(m, 2, 0, 4);
    WorstAtUnique(m, 2, 4, WorstFit(m, 2).value);
  }
}
