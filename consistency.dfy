/** Agreement between the arena and the process records: a unit is marked 1
    exactly when an allocated process covers it, allocated processes do not
    overlap, and each lies inside the arena. The engine's range primitives
    keep this agreement when they are used as the driver uses them. */
module Consistency {
  import opened Arena

  /** What the engine reads of a process record. */
  datatype Placement = Placement(size: nat, isAllocated: bool, start: int)

  predicate Covers(q: Placement, u: int)
  {
    q.isAllocated && q.start <= u < q.start + q.size
  }

  ghost predicate Owned(ps: seq<Placement>, u: int)
  {
    exists i :: 0 <= i < |ps| && Covers(ps[i], u)
  }

  predicate Disjoint(a: Placement, b: Placement)
  {
    a.start + a.size <= b.start || b.start + b.size <= a.start
  }

  ghost predicate Consistent(m: seq<int>, ps: seq<Placement>)
  {
    (forall i :: 0 <= i < |ps| ==> ps[i].size > 0)
    && (forall i :: 0 <= i < |ps| && ps[i].isAllocated ==> 0 <= ps[i].start && ps[i].start + ps[i].size <= |m|)
    && (forall i, j :: 0 <= i < |ps| && 0 <= j < |ps| && i != j && ps[i].isAllocated && ps[j].isAllocated ==>
          Disjoint(ps[i], ps[j]))
    && (forall u :: 0 <= u < |m| ==> (m[u] == 1 <==> Owned(ps, u)))
  }

  /** Two ranges that are not disjoint share the larger of their two starts. */
  lemma OverlapAt(a: Placement, b: Placement)
    requires a.size > 0 && b.size > 0
    ensures !Disjoint(a, b) ==>
      var w := if a.start <= b.start then b.start else a.start;
      a.start <= w < a.start + a.size && b.start <= w < b.start + b.size
  {
  }

  /** An arena with every unit free agrees with a workload in which nothing is
      allocated. */
  lemma EmptyArenaConsistent(m: seq<int>, ps: seq<Placement>)
    requires forall u :: 0 <= u < |m| ==> m[u] == 0
    requires forall i :: 0 <= i < |ps| ==> ps[i].size > 0 && !ps[i].isAllocated
    ensures Consistent(m, ps)
  {
  }

  /** alocar at an offset where isLivre holds, for a process that is not
      allocated, keeps the agreement. */
  lemma AllocPreserves(m: seq<int>, ps: seq<Placement>, k: int, o: int)
    requires Binary(m) && Consistent(m, ps)
    requires 0 <= k < |ps| && !ps[k].isAllocated
    requires 0 <= o && IsFree(m, o, ps[k].size)
    ensures Consistent(Fill(m, o, ps[k].size, 1), ps[k := Placement(ps[k].size, true, o)])
  {
    var t := ps[k].size;
    var m' := Fill(m, o, t, 1);
    var q := Placement(t, true, o);
    var ps' := ps[k := q];
    forall i | 0 <= i < |ps| && i != k && ps[i].isAllocated
      ensures Disjoint(ps[i], q) && Disjoint(q, ps[i])
    {
      OverlapAt(ps[i], q);
      var w := if ps[i].start <= o then o else ps[i].start;
      if o <= w < o + t {
        assert m[w] != 1;
        assert !Covers(ps[i], w);
      }
    }
    forall u | 0 <= u < |m'|
      ensures m'[u] == 1 <==> Owned(ps', u)
    {
      if o <= u < o + t {
        assert Covers(ps'[k], u);
      } else {
        if Owned(ps, u) {
          var i :| 0 <= i < |ps| && Covers(ps[i], u);
          assert Covers(ps'[i], u);
        }
        if Owned(ps', u) {
          var i :| 0 <= i < |ps'| && Covers(ps'[i], u);
          assert Covers(ps[i], u);
        }
      }
    }
  }

  /** desalocar of an allocated process keeps the agreement: no other process
      covers any unit of its range. */
  lemma DeallocPreserves(m: seq<int>, ps: seq<Placement>, k: int)
    requires Consistent(m, ps)
    requires 0 <= k < |ps| && ps[k].isAllocated
    ensures Consistent(Fill(m, ps[k].start, ps[k].size, 0), ps[k := ps[k].(isAllocated := false)])
  {
    var p := ps[k];
    var m' := Fill(m, p.start, p.size, 0);
    var ps' := ps[k := p.(isAllocated := false)];
    forall u | 0 <= u < |m'|
      ensures m'[u] == 1 <==> Owned(ps', u)
    {
      if p.start <= u < p.start + p.size {
        forall i | 0 <= i < |ps'|
          ensures !Covers(ps'[i], u)
        {
          if i != k && ps[i].isAllocated {
            assert Disjoint(ps[i], p);
          }
        }
      } else {
        if Owned(ps, u) {
          var i :| 0 <= i < |ps| && Covers(ps[i], u);
          assert Covers(ps'[i], u);
        }
        if Owned(ps', u) {
          var i :| 0 <= i < |ps'| && Covers(ps'[i], u);
          assert Covers(ps[i], u);
        }
      }
    }
  }

  /** The Quick Fit hit path does not check isLivre: an offset that a
      deallocation recorded may since have been taken by another process
      placed by the First Fit fallback. Here a four-unit process was freed at
      0, a two-unit process took units 0 and 1, and placing a second
      four-unit process at the recorded offset 0 breaks the agreement. */
  lemma StaleQuickFitOffsetBreaksAgreement()
    ensures var m := [1, 1, 0, 0];
            var ps := [Placement(4, false, 0), Placement(2, true, 0), Placement(4, false, 0)];
            Consistent(m, ps) && !IsFree(m, 0, 4)
            && !Consistent(Fill(m, 0, 4, 1), ps[2 := Placement(4, true, 0)])
  {
    var m := [1, 1, 0, 0];
    var ps := [Placement(4, false, 0), Placement(2, true, 0), Placement(4, false, 0)];
    forall u | 0 <= u < |m|
      ensures m[u] == 1 <==> Owned(ps, u)
    {
      if u < 2 { assert Covers(ps[1], u); }
    }
    assert Consistent(m, ps);
    assert m[0] == 1;
    var ps' := ps[2 := Placement(4, true, 0)];
    assert ps'[1].isAllocated && ps'[2].isAllocated;
    assert !Disjoint(ps'[1], ps'[2]);
  }
}
