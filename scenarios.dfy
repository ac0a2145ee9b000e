/** Verified client methods of the engine on a ten-unit arena, each showing one behaviour
    of the allocator through the contracts of module Manager alone. */
module Scenarios {
  import Arena
  import QuickFitIndex
  import opened Processes
  import opened Manager

  /** First Fit places a 4-unit and then a 3-unit process side by side; after
      the first is freed, Quick Fit gives the next 4-unit request the freed
      offset from its index instead of searching. */
  method QuickFitReusesFreedOffset()
  {
    var a := new Process("P1", 4);
    var b := new Process("P2", 3);
    var mm := new MemoryManager(10, [a, b]);
    ghost var m0 := mm.memory[..];
    assert Arena.IsFree(m0, 0, 4);
    var ok := mm.AllocateFirstFit(a);
    assert ok && a.start == 0;
    ghost var m1 := mm.memory[..];
    assert Arena.IsFree(m1, 4, 3);
    forall j | 0 <= j < 4
      ensures !Arena.IsFree(m1, j, 3)
    {
      assert m1[j] == 1;
    }
    ok := mm.AllocateFirstFit(b);
    assert ok && b.start == 4;
    mm.Deallocate(a);
    assert mm.quickFit[4] == [0];
    ok := mm.AllocateQuickFit(a);
    assert ok && a.start == 0 && mm.quickFit[4] == [];
  }

  /** The Quick Fit hit path takes a recorded offset that another process,
      here a smaller one placed by First Fit, has since occupied: the two
      allocated records overlap. */
  method QuickFitReusesOccupiedOffset()
  {
    var a := new Process("P1", 4);
    var c := new Process("P3", 2);
    var d := new Process("P4", 4);
    var mm := new MemoryManager(10, [a, c, d]);
    assert Arena.IsFree(mm.memory[..], 0, 4);
    var ok := mm.AllocateFirstFit(a);
    assert ok && a.start == 0;
    mm.Deallocate(a);
    assert Arena.IsFree(mm.memory[..], 0, 2);
    ok := mm.AllocateFirstFit(c);
    assert ok && c.start == 0;
    ok := mm.AllocateQuickFit(d);
    assert ok && c.isAllocated && d.isAllocated && c.start == d.start == 0;
  }

  /** The reset of simular frees every unit but leaves the records alone: a
      process placed in one run is still marked allocated at the start of the
      next, over a unit the arena reports free. */
  method ResetKeepsProcessFlags()
  {
    var a := new Process("P1", 4);
    var mm := new MemoryManager(10, [a]);
    assert Arena.IsFree(mm.memory[..], 0, 4);
    var ok := mm.AllocateFirstFit(a);
    assert ok && a.start == 0;
    mm.Reset();
    assert a.isAllocated && mm.memory[a.start] == 0;
  }

  /** Resetting an engine that was just reset changes nothing. */
  method ResetIsIdempotent(mm: MemoryManager)
    requires mm.Valid()
    modifies mm, mm.memory
  {
    mm.Reset();
    ghost var m := mm.memory[..];
    ghost var c := mm.cursor;
    ghost var q := mm.quickFit;
    mm.Reset();
    assert mm.memory[..] == m && mm.cursor == c && mm.quickFit == q;
  }
}
