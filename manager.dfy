/** GerenciadorMemoria: the allocator engine. It owns an arena of `size` units
    (0 free, 1 occupied), the Next Fit cursor and the Quick-Fit index, and runs
    a simulation in which each step deallocates the chosen process if it is
    allocated and otherwise places it with the chosen strategy. */
module Manager {
  import Arena
  import Fragmentation
  import Consistency
  import QuickFitIndex
  import opened Processes

  /** The placement algorithm passed to simular. */
  datatype Strategy = FirstFit | NextFit | BestFit | WorstFit | QuickFit

  /** The smallest size of the workload, or 1 for an empty workload. */
  function MinSize(sizes: seq<nat>): (r: int)
    ensures sizes == [] ==> r == 1
    ensures sizes != [] ==> r in sizes && forall i :: 0 <= i < |sizes| ==> r <= sizes[i]
  {
    if sizes == [] then 1
    else if |sizes| == 1 then sizes[0]
    else
      var rest := MinSize(sizes[1..]);
      if sizes[0] <= rest then sizes[0] else rest
  }

  function Sizes(ps: seq<Process>): seq<nat>
  {
    seq(|ps|, i requires 0 <= i < |ps| => ps[i].size)
  }

  /** The offset the strategy chooses for a process of `t` units, given the
      arena `m`, the Quick-Fit index `idx` and the Next Fit cursor `c`; None
      when the strategy reports failure. Apart from a Quick-Fit hit, every
      strategy succeeds exactly when some offset passes isLivre. */
  function Choose(strategy: Strategy, m: seq<int>, idx: map<int, seq<int>>, c: int, t: nat): (r: Arena.Option<int>)
    requires 0 <= c < |m|
    ensures strategy == QuickFit && QuickFitIndex.Hit(idx, t) ==> r == Arena.Option.Some(idx[t][0])
    ensures !(strategy == QuickFit && QuickFitIndex.Hit(idx, t)) ==>
      (r.Some? <==> Arena.FirstFit(m, t).Some?) && (r.Some? ==> 0 <= r.value && Arena.IsFree(m, r.value, t))
  {
    match strategy
    case FirstFit => Lift(Arena.FirstFit(m, t))
    case NextFit =>
      Arena.NextFitSucceedsIffFirstFitSucceeds(m, t, c);
      Lift(Arena.NextFit(m, t, c))
    case BestFit => Lift(Arena.BestFit(m, t))
    case WorstFit => Lift(Arena.WorstFit(m, t))
    case QuickFit =>
      if QuickFitIndex.Hit(idx, t) then Arena.Option.Some(idx[t][0]) else Lift(Arena.FirstFit(m, t))
  }

  function Lift(o: Arena.Option<nat>): (r: Arena.Option<int>)
    ensures r.Some? == o.Some? && (r.Some? ==> r.value == o.value)
  {
    match o
    case None => Arena.Option.None
    case Some(v) => Arena.Option.Some(v)
  }

  /** The index after placing a process of `t` units: a Quick-Fit hit removes
      the first offset of the list for `t`; every other placement leaves the
      index as it was. */
  function IndexAfterPlacement(strategy: Strategy, idx: map<int, seq<int>>, t: int): map<int, seq<int>>
  {
    if strategy == QuickFit && QuickFitIndex.Hit(idx, t) then idx[t := idx[t][1..]] else idx
  }

  /** The state of the engine as a value: the arena, the process records in
      workload order, the Quick-Fit index and the Next Fit cursor. */
  datatype Engine = Engine(arena: seq<int>, records: seq<Consistency.Placement>, index: map<int, seq<int>>, cursor: int)

  /** A step for record `k` is defined on `e`: the record exists, the cursor is
      an offset of the arena, and an allocated record has a list for its size. */
  predicate Ready(e: Engine, k: int)
  {
    0 <= k < |e.records| && 0 <= e.cursor < |e.arena|
    && (e.records[k].isAllocated ==> e.records[k].size in e.index)
  }

  /** One step of simular for record `k`: an allocated record is deallocated
      (its range freed, its offset appended to the list for its size);
      otherwise the strategy's choice, if any, is allocated. */
  function StepSpec(strategy: Strategy, e: Engine, k: int): (r: Engine)
    requires Ready(e, k)
    ensures |r.arena| == |e.arena| && |r.records| == |e.records|
    ensures forall i :: 0 <= i < |e.records| && i != k ==> r.records[i] == e.records[i]
    ensures r.records[k].size == e.records[k].size
    ensures e.records[k].isAllocated ==>
      !r.records[k].isAllocated && r.records[k].start == e.records[k].start
      && e.records[k].size in r.index && r.index[e.records[k].size] == e.index[e.records[k].size] + [e.records[k].start]
    ensures !e.records[k].isAllocated && !(strategy == QuickFit && QuickFitIndex.Hit(e.index, e.records[k].size)) ==>
      (r.records[k].isAllocated <==> Arena.FirstFit(e.arena, e.records[k].size).Some?)
    ensures !e.records[k].isAllocated && r.records[k].isAllocated && r.records[k].start >= 0 && r.records[k].size > 0 ==>
      !Arena.IsFree(r.arena, r.records[k].start, r.records[k].size)
  {
    var q := e.records[k];
    if q.isAllocated then
      Engine(Arena.Fill(e.arena, q.start, q.size, 0), e.records[k := q.(isAllocated := false)],
             e.index[q.size := e.index[q.size] + [q.start]], e.cursor)
    else
      var ch := Choose(strategy, e.arena, e.index, e.cursor, q.size);
      if ch.None? then e
      else
        var r := Engine(Arena.Fill(e.arena, ch.value, q.size, 1), e.records[k := Consistency.Placement(q.size, true, ch.value)],
                        IndexAfterPlacement(strategy, e.index, q.size),
                        if strategy == NextFit then ch.value else e.cursor);
        assert q.size > 0 && 0 <= ch.value < |e.arena| ==> r.arena[ch.value] == 1;
        r
  }

  /** A step keeps the arena 0/1 and keeps the agreement between arena and
      records; a Quick-Fit placement that hits needs the offset it takes to be
      free, and a deallocation needs nothing. */
  lemma StepPreservesAgreement(strategy: Strategy, e: Engine, k: int)
    requires Ready(e, k) && Arena.Binary(e.arena) && Consistency.Consistent(e.arena, e.records)
    requires strategy == QuickFit && !e.records[k].isAllocated && QuickFitIndex.Hit(e.index, e.records[k].size) ==>
      0 <= e.index[e.records[k].size][0] && Arena.IsFree(e.arena, e.index[e.records[k].size][0], e.records[k].size)
    ensures Arena.Binary(StepSpec(strategy, e, k).arena)
    ensures Consistency.Consistent(StepSpec(strategy, e, k).arena, StepSpec(strategy, e, k).records)
  {
    var q := e.records[k];
    var r := StepSpec(strategy, e, k);
    if q.isAllocated {
      Consistency.DeallocPreserves(e.arena, e.records, k);
    } else {
      var ch := Choose(strategy, e.arena, e.index, e.cursor, q.size);
      if ch.Some? {
        Consistency.AllocPreserves(e.arena, e.records, k, ch.value);
      }
    }
  }

  /** `states` is a run of simular through the first `n` entries of `picks`:
      states[i + 1] is the state after step i, which steps the record
      picks[i] of states[i]. */
  ghost predicate IsRun(strategy: Strategy, states: seq<Engine>, picks: seq<int>, n: int)
  {
    0 <= n <= |picks| && |states| == n + 1
    && forall i :: 0 <= i < n ==>
         Ready(states[i], picks[i]) && states[i + 1] == StepSpec(strategy, states[i], picks[i])
  }

  /** A run followed by one more step is a run. */
  lemma IsRunExtend(strategy: Strategy, states: seq<Engine>, picks: seq<int>, n: int)
    requires IsRun(strategy, states, picks, n) && n < |picks| && Ready(states[n], picks[n])
    ensures IsRun(strategy, states + [StepSpec(strategy, states[n], picks[n])], picks, n + 1)
  {
    var states' := states + [StepSpec(strategy, states[n], picks[n])];
    forall i | 0 <= i < n + 1
      ensures Ready(states'[i], picks[i]) && states'[i + 1] == StepSpec(strategy, states'[i], picks[i])
    {
      if i < n {
        assert states'[i] == states[i] && states'[i + 1] == states[i + 1];
      }
    }
  }

  /** reports[i] is the fragmentation, for smallest size `k`, of the arena
      after step i of the run `states`, and lies in [0, n]. */
  ghost predicate Reports(reports: seq<int>, states: seq<Engine>, k: int, n: int)
  {
    |states| == |reports| + 1
    && forall i :: 0 <= i < |reports| ==>
         reports[i] == Fragmentation.ExternalFragmentation(states[i + 1].arena, k) && 0 <= reports[i] <= n
  }

  /** One more report for one more state. */
  lemma ReportsExtend(reports: seq<int>, states: seq<Engine>, k: int, n: int, f: int, e: Engine)
    requires Reports(reports, states, k, n)
    requires f == Fragmentation.ExternalFragmentation(e.arena, k) && 0 <= f <= n
    ensures Reports(reports + [f], states + [e], k, n)
  {
    var reports', states' := reports + [f], states + [e];
    forall i | 0 <= i < |reports'|
      ensures reports'[i] == Fragmentation.ExternalFragmentation(states'[i + 1].arena, k) && 0 <= reports'[i] <= n
    {
      if i < |reports| {
        assert reports'[i] == reports[i] && states'[i + 1] == states[i + 1];
      }
    }
  }

  class MemoryManager {
    /** tamanhoMemoria */
    const size: int
    /** memoria */
    const memory: array<int>
    /** processos */
    const processes: seq<Process>
    /** ponteiroNextFit */
    var cursor: int
    /** quickFitLists */
    var quickFit: map<int, seq<int>>

    ghost function Procs(): set<Process>
    {
      set p | p in processes
    }

    /** The process records as values, in workload order. */
    ghost function Placements(): (r: seq<Consistency.Placement>)
      reads Procs()
      ensures |r| == |processes|
      ensures forall i :: 0 <= i < |processes| ==>
        r[i] == Consistency.Placement(processes[i].size, processes[i].isAllocated, processes[i].start)
    {
      seq(|processes|, i reads Procs() requires 0 <= i < |processes| =>
        Consistency.Placement(processes[i].size, processes[i].isAllocated, processes[i].start))
    }

    /** The invariant every operation keeps. Arena sizes and process sizes are
        bounded so that no offset arithmetic of the engine leaves Java's int. */
    ghost predicate Valid()
      reads this, memory, Procs()
    {
      0 < size < Arena.INT_MAX && memory.Length == size
      && 0 <= cursor < size
      && Arena.Binary(memory[..])
      && (forall s :: s in quickFit <==> 1 <= s <= size)
      && QuickFitIndex.Bounded(quickFit, size)
      && (forall i :: 0 <= i < |processes| ==> 1 <= processes[i].size <= Arena.INT_MAX - size)
      && (forall i, j :: 0 <= i < j < |processes| ==> processes[i] != processes[j])
      && (forall i :: 0 <= i < |processes| && processes[i].isAllocated ==>
            0 <= processes[i].start && processes[i].start + processes[i].size <= size)
    }

    /** The arena agrees with the allocated process records. */
    ghost predicate Consistent()
      reads this, memory, Procs()
    {
      Consistency.Consistent(memory[..], Placements())
    }

    ghost predicate NoneAllocated()
      reads Procs()
    {
      forall i :: 0 <= i < |processes| ==> !processes[i].isAllocated
    }

    /** The Quick Fit hit path for size `s` would find its offset free. */
    ghost predicate QuickFitSafe(s: nat)
      reads this, memory
    {
      QuickFitIndex.Hit(quickFit, s) ==>
        0 <= quickFit[s][0] && Arena.IsFree(memory[..], quickFit[s][0], s)
    }

    constructor (n: int, processes: seq<Process>)
      requires 0 < n < Arena.INT_MAX
      requires forall i :: 0 <= i < |processes| ==> 1 <= processes[i].size <= Arena.INT_MAX - n
      requires forall i, j :: 0 <= i < j < |processes| ==> processes[i] != processes[j]
      requires forall i :: 0 <= i < |processes| && processes[i].isAllocated ==>
        0 <= processes[i].start && processes[i].start + processes[i].size <= n
      ensures Valid() && fresh(memory)
      ensures size == n && this.processes == processes
      ensures forall u :: 0 <= u < n ==> memory[u] == 0
      ensures cursor == 0 && quickFit == QuickFitIndex.EmptyIndex(n)
    {
      size := n;
      memory := new int[n](_ => 0);
      this.processes := processes;
      cursor := 0;
      quickFit := map[];
      new;
      InitQuickFit();
    }

    /** inicializarQuickFit: an empty list for every size 1..size. */
    method InitQuickFit()
      modifies this
      ensures quickFit == QuickFitIndex.EmptyIndex(size) && cursor == old(cursor)
    {
      quickFit := map[];
      var s := 1;
      while s <= size
        invariant s <= size + 1 || s == 1
        invariant quickFit == QuickFitIndex.EmptyIndex(s - 1)
        invariant cursor == old(cursor)
      {
        quickFit := quickFit[s := []];
        s := s + 1;
      }
    }

    /** The reset at the start of simular: every unit free, the cursor at 0 and
        an empty list for every size. The new state does not depend on the old
        one, so resetting twice leaves what resetting once leaves. The process
        records are not touched. */
    method Reset()
      requires Valid()
      modifies this, memory
      ensures Valid()
      ensures forall u :: 0 <= u < size ==> memory[u] == 0
      ensures cursor == 0 && quickFit == QuickFitIndex.EmptyIndex(size)
    {
      forall u | 0 <= u < memory.Length {
        memory[u] := 0;
      }
      cursor := 0;
      InitQuickFit();
    }

    /** isLivre */
    method IsFree(start: int, t: nat) returns (free: bool)
      requires memory.Length == size && 0 <= start
      ensures free == Arena.IsFree(memory[..], start, t)
    {
      if start + t > size {
        return false;
      }
      var i := start;
      while i < start + t
        invariant start <= i <= start + t
        invariant forall u :: start <= u < i ==> memory[u] != 1
      {
        if memory[i] == 1 {
          return false;
        }
        i := i + 1;
      }
      return true;
    }

    /** calcularBlocoLivre */
    method FreeBlockLength(start: int) returns (n: int)
      requires memory.Length == size && 0 <= start <= size
      ensures n == Arena.FreeRun(memory[..], start)
    {
      n := 0;
      var i := start;
      while i < size && memory[i] == 0
        invariant start <= i <= size && n == i - start
        invariant Arena.FreeRun(memory[..], start) == n + Arena.FreeRun(memory[..], i)
      {
        n := n + 1;
        i := i + 1;
      }
    }

    /** calcularFragmentacaoExterna */
    method ExternalFragmentation(minSize: int) returns (frag: int)
      requires memory.Length == size
      ensures frag == Fragmentation.ExternalFragmentation(memory[..], minSize)
    {
      ghost var m := memory[..];
      frag := 0;
      var current := 0;
      Fragmentation.ScanEnds(m, minSize, 0);
      for i := 0 to size
        invariant 0 <= current
        invariant frag + Fragmentation.ScanRemainder(m, minSize, i, current) == Fragmentation.ExternalFragmentation(m, minSize)
      {
        Fragmentation.ScanStep(m, minSize, i, current);
        if memory[i] == 0 {
          current := current + 1;
        } else {
          if current > 0 && current < minSize {
            frag := frag + current;
          }
          current := 0;
        }
      }
      Fragmentation.ScanEnds(m, minSize, current);
      if current > 0 && current < minSize {
        frag := frag + current;
      }
    }

    /** alocar: marks [start, start + p.size) occupied and records the offset on p. */
    method Allocate(p: Process, start: int)
      requires Valid() && p in processes
      requires 0 <= start && start + p.size <= size
      modifies memory, p
      ensures Valid()
      ensures memory[..] == Arena.Fill(old(memory[..]), start, p.size, 1)
      ensures p.isAllocated && p.start == start
    {
      var i := start;
      while i < start + p.size
        modifies memory
        invariant start <= i <= start + p.size
        invariant forall u :: 0 <= u < size ==> memory[u] == if start <= u < i then 1 else old(memory[u])
      {
        memory[i] := 1;
        i := i + 1;
      }
      p.Allocate(start);
      assert memory[..] == Arena.Fill(old(memory[..]), start, p.size, 1);
    }

    /** atualizarQuickFit: appends `start` to the list for size `t`. */
    method RecordFree(start: int, t: nat)
      requires Valid() && t in quickFit
      requires 0 <= start && start + t <= size
      modifies this
      ensures Valid() && cursor == old(cursor)
      ensures quickFit == old(quickFit)[t := old(quickFit)[t] + [start]]
    {
      quickFit := quickFit[t := quickFit[t] + [start]];
    }

    /** desalocar: frees the process's range, records its offset under its size
        in the Quick-Fit index and marks it unallocated. */
    method Deallocate(p: Process)
      requires Valid() && p in processes && p.isAllocated
      modifies this, memory, p
      ensures Valid() && cursor == old(cursor)
      ensures memory[..] == Arena.Fill(old(memory[..]), p.start, p.size, 0)
      ensures quickFit == old(quickFit)[p.size := old(quickFit)[p.size] + [p.start]]
      ensures !p.isAllocated && p.start == old(p.start)
    {
      var i := p.start;
      while i < p.start + p.size
        modifies memory
        invariant p.start <= i <= p.start + p.size
        invariant forall u :: 0 <= u < size ==> memory[u] == if p.start <= u < i then 0 else old(memory[u])
      {
        memory[i] := 0;
        i := i + 1;
      }
      assert memory[..] == Arena.Fill(old(memory[..]), p.start, p.size, 0);
      RecordFree(p.start, p.size);
      p.Deallocate();
    }

    /** alocarFirstFit */
    method AllocateFirstFit(p: Process) returns (ok: bool)
      requires Valid() && p in processes
      modifies memory, p
      ensures Valid()
      ensures ok == Arena.FirstFit(old(memory[..]), p.size).Some?
      ensures ok ==> p.isAllocated && p.start == Arena.FirstFit(old(memory[..]), p.size).value
      ensures ok ==> memory[..] == Arena.Fill(old(memory[..]), p.start, p.size, 1)
      ensures !ok ==> memory[..] == old(memory[..]) && unchanged(p)
    {
      ghost var m := memory[..];
      var i := 0;
      while i <= size - p.size
        invariant 0 <= i
        invariant memory[..] == m && unchanged(p)
        invariant forall j :: 0 <= j < i ==> !Arena.IsFree(m, j, p.size)
      {
        var free := IsFree(i, p.size);
        if free {
          Allocate(p, i);
          return true;
        }
        i := i + 1;
      }
      return false;
    }

    /** alocarNextFit: probes from the cursor in circular order. On success the
        cursor is left on the offset just allocated; after a full circle without
        success it is back where it started. */
    method AllocateNextFit(p: Process) returns (ok: bool)
      requires Valid() && p in processes
      modifies this, memory, p
      ensures Valid() && quickFit == old(quickFit)
      ensures ok == Arena.NextFit(old(memory[..]), p.size, old(cursor)).Some?
      ensures ok ==> p.isAllocated && p.start == cursor
      ensures ok ==> cursor == Arena.NextFit(old(memory[..]), p.size, old(cursor)).value
      ensures ok ==> memory[..] == Arena.Fill(old(memory[..]), p.start, p.size, 1)
      ensures !ok ==> memory[..] == old(memory[..]) && unchanged(p) && cursor == old(cursor)
    {
      var start := cursor;
      ghost var m := memory[..];
      ghost var k := 0;
      while true
        invariant Valid() && quickFit == old(quickFit)
        invariant memory[..] == m && unchanged(p)
        invariant 0 <= k < size && cursor == Arena.Probe(start, k, size)
        invariant Arena.ProbesFail(m, p.size, start, k)
        decreases size - k
      {
        var free := IsFree(cursor, p.size);
        if free {
          Arena.NextFitFound(m, p.size, start, k);
          Allocate(p, cursor);
          return true;
        }
        Arena.ProbeStep(start, k, size);
        Arena.ProbesFailStep(m, p.size, start, k);
        cursor := (cursor + 1) % size;
        k := k + 1;
        if k < size {
          Arena.ProbeInRange(start, k, size);
        }
        if cursor == start {
          Arena.NextFitExhausted(m, p.size, start);
          return false;
        }
      }
    }

    /** The scan of alocarBestFit (melhorIndice, menorTamanho): the lowest
        offset whose free run is strictly smaller than that of every lower
        offset that fits, or -1 when nothing fits. */
    method BestFitOffset(t: nat) returns (best: int)
      requires memory.Length == size < Arena.INT_MAX
      ensures best == -1 <==> Arena.BestFit(memory[..], t).None?
      ensures best != -1 ==> best == Arena.BestFit(memory[..], t).value
    {
      ghost var m := memory[..];
      best := -1;
      var bestLen := Arena.INT_MAX;
      var i := 0;
      while i <= size - t
        invariant 0 <= i && (i <= size - t + 1 || i == 0)
        invariant Arena.BestBelow(m, t, i, best, bestLen)
      {
        Arena.BestBelowStep(m, t, i, best, bestLen);
        var free := IsFree(i, t);
        if free {
          var len := FreeBlockLength(i);
          if len < bestLen {
            best := i;
            bestLen := len;
          }
        }
        i := i + 1;
      }
      Arena.BestBelowDone(m, t, i, best, bestLen);
    }

    /** alocarBestFit */
    method AllocateBestFit(p: Process) returns (ok: bool)
      requires Valid() && p in processes
      modifies memory, p
      ensures Valid()
      ensures ok == Arena.BestFit(old(memory[..]), p.size).Some?
      ensures ok ==> p.isAllocated && p.start == Arena.BestFit(old(memory[..]), p.size).value
      ensures ok ==> memory[..] == Arena.Fill(old(memory[..]), p.start, p.size, 1)
      ensures !ok ==> memory[..] == old(memory[..]) && unchanged(p)
    {
      var best := BestFitOffset(p.size);
      if best != -1 {
        Allocate(p, best);
        return true;
      }
      return false;
    }

    /** The scan of alocarWorstFit (piorIndice, maiorTamanho): as BestFitOffset
        with the largest free run instead. */
    method WorstFitOffset(t: nat) returns (worst: int)
      requires memory.Length == size
      ensures worst == -1 <==> Arena.WorstFit(memory[..], t).None?
      ensures worst != -1 ==> worst == Arena.WorstFit(memory[..], t).value
    {
      ghost var m := memory[..];
      worst := -1;
      var worstLen := -1;
      var i := 0;
      while i <= size - t
        invariant 0 <= i && (i <= size - t + 1 || i == 0)
        invariant Arena.WorstBelow(m, t, i, worst, worstLen)
      {
        Arena.WorstBelowStep(m, t, i, worst, worstLen);
        var free := IsFree(i, t);
        if free {
          var len := FreeBlockLength(i);
          if len > worstLen {
            worst := i;
            worstLen := len;
          }
        }
        i := i + 1;
      }
      Arena.WorstBelowDone(m, t, i, worst, worstLen);
    }

    /** alocarWorstFit */
    method AllocateWorstFit(p: Process) returns (ok: bool)
      requires Valid() && p in processes
      modifies memory, p
      ensures Valid()
      ensures ok == Arena.WorstFit(old(memory[..]), p.size).Some?
      ensures ok ==> p.isAllocated && p.start == Arena.WorstFit(old(memory[..]), p.size).value
      ensures ok ==> memory[..] == Arena.Fill(old(memory[..]), p.start, p.size, 1)
      ensures !ok ==> memory[..] == old(memory[..]) && unchanged(p)
    {
      var worst := WorstFitOffset(p.size);
      if worst != -1 {
        Allocate(p, worst);
        return true;
      }
      return false;
    }

    /** alocarQuickFit: when the list for exactly p.size is not empty, removes
        its first offset and allocates there without checking that the range is
        free; otherwise First Fit, leaving the index as it was. */
    method AllocateQuickFit(p: Process) returns (ok: bool)
      requires Valid() && p in processes
      modifies this, memory, p
      ensures Valid() && cursor == old(cursor)
      ensures QuickFitIndex.Hit(old(quickFit), p.size) ==>
        ok && p.isAllocated && p.start == old(quickFit)[p.size][0]
        && quickFit == old(quickFit)[p.size := old(quickFit)[p.size][1..]]
        && memory[..] == Arena.Fill(old(memory[..]), p.start, p.size, 1)
      ensures !QuickFitIndex.Hit(old(quickFit), p.size) ==>
        quickFit == old(quickFit) && ok == Arena.FirstFit(old(memory[..]), p.size).Some?
      ensures !QuickFitIndex.Hit(old(quickFit), p.size) && ok ==>
        p.isAllocated && p.start == Arena.FirstFit(old(memory[..]), p.size).value
        && memory[..] == Arena.Fill(old(memory[..]), p.start, p.size, 1)
      ensures !ok ==> memory[..] == old(memory[..]) && unchanged(p)
    {
      if p.size in quickFit && |quickFit[p.size]| > 0 {
        var offset := quickFit[p.size][0];
        quickFit := quickFit[p.size := quickFit[p.size][1..]];
        Allocate(p, offset);
        return true;
      }
      ok := AllocateFirstFit(p);
    }

    /** The call algoritmo.apply(processo) of simular: places p where the
        strategy chooses, with the index and the cursor updated as that
        strategy updates them. */
    method AllocateWith(strategy: Strategy, p: Process) returns (ok: bool)
      requires Valid() && p in processes
      modifies this, memory, p
      ensures Valid()
      ensures ok == Choose(strategy, old(memory[..]), old(quickFit), old(cursor), p.size).Some?
      ensures ok ==> p.isAllocated && p.start == Choose(strategy, old(memory[..]), old(quickFit), old(cursor), p.size).value
      ensures ok ==> memory[..] == Arena.Fill(old(memory[..]), p.start, p.size, 1)
      ensures ok && !(strategy == QuickFit && QuickFitIndex.Hit(old(quickFit), p.size)) ==>
        0 <= p.start && Arena.IsFree(old(memory[..]), p.start, p.size)
      ensures ok && strategy == QuickFit && QuickFitIndex.Hit(old(quickFit), p.size) ==>
        p.start == old(quickFit)[p.size][0]
      ensures !ok ==> memory[..] == old(memory[..]) && unchanged(p)
      ensures quickFit == IndexAfterPlacement(strategy, old(quickFit), p.size)
      ensures cursor == if strategy == NextFit && ok then p.start else old(cursor)
    {
      match strategy
      case FirstFit => ok := AllocateFirstFit(p);
      case NextFit => ok := AllocateNextFit(p);
      case BestFit => ok := AllocateBestFit(p);
      case WorstFit => ok := AllocateWorstFit(p);
      case QuickFit => ok := AllocateQuickFit(p);
    }

    /** The engine's state as a value. */
    ghost function State(): Engine
      reads this, memory, Procs()
    {
      Engine(memory[..], Placements(), quickFit, cursor)
    }

    /** One step of simular for the process at index k: deallocate it when it
        is allocated, otherwise try to place it with the strategy. */
    method Step(strategy: Strategy, k: int)
      requires Valid() && 0 <= k < |processes|
      modifies this, memory, processes[k]
      ensures Valid()
      ensures Ready(old(State()), k) && State() == StepSpec(strategy, old(State()), k)
      ensures old(Consistent()) && (strategy == QuickFit && !old(processes[k].isAllocated) ==> old(QuickFitSafe(processes[k].size))) ==> Consistent()
    {
      ghost var e := State();
      ghost var safe := strategy == QuickFit && !processes[k].isAllocated ==> QuickFitSafe(processes[k].size);
      assert processes[k].isAllocated ==> processes[k].size in quickFit;
      var p := processes[k];
      if p.isAllocated {
        Deallocate(p);
        assert Placements() == e.records[k := e.records[k].(isAllocated := false)];
      } else {
        var ok := AllocateWith(strategy, p);
        if ok {
          assert Placements() == e.records[k := Consistency.Placement(p.size, true, p.start)];
        } else {
          assert Placements() == e.records;
        }
      }
      if Consistency.Consistent(e.arena, e.records) && safe {
        StepPreservesAgreement(strategy, e, k);
      }
    }

    /** The body of simular's loop: one step, then the fragmentation report. */
    method StepAndReport(strategy: Strategy, k: int, minSize: int) returns (frag: int)
      requires Valid() && 0 <= k < |processes|
      modifies this, memory, processes[k]
      ensures Valid()
      ensures Ready(old(State()), k) && State() == StepSpec(strategy, old(State()), k)
      ensures old(Consistent()) && (strategy == QuickFit && !old(processes[k].isAllocated) ==> old(QuickFitSafe(processes[k].size))) ==> Consistent()
      ensures frag == Fragmentation.ExternalFragmentation(memory[..], minSize) && 0 <= frag <= size
    {
      Step(strategy, k);
      frag := ExternalFragmentation(minSize);
      Fragmentation.FragmentationBounds(memory[..], minSize);
    }

    /** simular without its output: resets the engine, then performs one step
        per entry of `picks` (the index the random draw would choose) and
        reports the external fragmentation after each step, measured against
        the smallest process size of the workload. states[0] is the state
        right after the reset and states[i + 1] the state after step i. */
    method Simulate(strategy: Strategy, picks: seq<int>) returns (fragmentation: seq<int>, ghost states: seq<Engine>)
      requires Valid()
      requires forall i :: 0 <= i < |picks| ==> 0 <= picks[i] < |processes|
      modifies this, memory, Procs()
      ensures Valid()
      ensures |fragmentation| == |picks| && |states| == |picks| + 1
      ensures states[0] == Engine(seq(size, _ => 0), old(Placements()), QuickFitIndex.EmptyIndex(size), 0)
      ensures IsRun(strategy, states, picks, |picks|)
      ensures forall i :: 0 <= i < |picks| ==>
        fragmentation[i] == Fragmentation.ExternalFragmentation(states[i + 1].arena, MinSize(Sizes(processes)))
      ensures forall i :: 0 <= i < |picks| ==> 0 <= fragmentation[i] <= size
      ensures states[|picks|] == State()
      ensures strategy != QuickFit && old(NoneAllocated()) ==> Consistent()
    {
      ghost var records := Placements();
      ghost var consistent := strategy != QuickFit && NoneAllocated();
      Reset();
      assert memory[..] == seq(size, _ => 0);
      assert Placements() == records;
      if consistent {
        Consistency.EmptyArenaConsistent(memory[..], Placements());
      }
      var minSize := MinSize(Sizes(processes));
      fragmentation, states := RunSteps(strategy, picks, minSize);
    }

    /** The loop of simular: one step and one fragmentation report per entry
        of `picks`, from the current state. */
    method RunSteps(strategy: Strategy, picks: seq<int>, minSize: int) returns (fragmentation: seq<int>, ghost states: seq<Engine>)
      requires Valid()
      requires forall i :: 0 <= i < |picks| ==> 0 <= picks[i] < |processes|
      modifies this, memory, Procs()
      ensures Valid()
      ensures |fragmentation| == |picks| && |states| == |picks| + 1 && states[0] == old(State())
      ensures IsRun(strategy, states, picks, |picks|)
      ensures forall i :: 0 <= i < |picks| ==>
        fragmentation[i] == Fragmentation.ExternalFragmentation(states[i + 1].arena, minSize)
        && 0 <= fragmentation[i] <= size
      ensures states[|picks|] == State()
      ensures strategy != QuickFit && old(Consistent()) ==> Consistent()
    {
      ghost var consistent := strategy != QuickFit && Consistent();
      fragmentation := [];
      states := [State()];
      for step := 0 to |picks|
        invariant Valid()
        invariant |fragmentation| == step && |states| == step + 1 && states[0] == old(State())
        invariant IsRun(strategy, states, picks, step)
        invariant Reports(fragmentation, states, minSize, size)
        invariant states[step] == State()
        invariant consistent ==> Consistent()
      {
        var f := StepAndReport(strategy, picks[step], minSize);
        IsRunExtend(strategy, states, picks, step);
        ReportsExtend(fragmentation, states, minSize, size, f, State());
        fragmentation := fragmentation + [f];
        states := states + [State()];
      }
    }
  }
}
