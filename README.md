# Memory allocation simulator: the allocator engine

A Dafny model of the allocator engine of `GerenciadorMemoria`, together with proofs about it. The engine owns:

- an arena of N units (0 free, 1 occupied);
- a Next Fit cursor;
- a Quick-Fit index, which maps an exact block size to the offsets that deallocations of that size left behind.

On top of that state it provides:

- the range primitives `isLivre`, `calcularBlocoLivre`, `alocar` and `desalocar`;
- five placement strategies: First, Next, Best, Worst and Quick Fit;
- the external-fragmentation scan;
- the reset, plus the allocate-or-deallocate step, of `simular`.

Modules:

- `Arena`: the arena as a value (`seq<int>`). Pure functions give the offset each strategy chooses, and lemmas relate the strategies to one another.
- `Fragmentation`: the external fragmentation as a sum over maximal free runs, with its bounds.
- `Consistency`: the agreement between arena and process records. A unit is 1 exactly when an allocated process covers it. Allocated processes are disjoint and lie in bounds. Lemmas show that `alocar` (at a free offset) and `desalocar` keep the agreement.
- `QuickFitIndex`: the shape of the index right after `inicializarQuickFit`.
- `Processes`: the process record, reduced to size, offset and allocated flag.
- `Manager`: the class `MemoryManager`. It keeps the source's fields: the arena as an `array<int>`, a cursor and a `map<int, seq<int>>`. Its methods follow the source's loops. The range primitives, the strategies and the fragmentation scan are proved against the functions of `Arena` and `Fragmentation`. Placement with a chosen strategy, one step of `simular` and the whole run are proved against the pure functions `Choose` and `StepSpec` of `Manager`.
- `Scenarios`: verified client methods on a ten-unit arena, whose claims follow from the engine's contracts alone.

Four behaviours of the code that differ from what a textbook allocator does:

- **Next Fit cursor.** Next Fit leaves the cursor on the offset it allocated. It does not move one past it.
- **Best Fit.** Best Fit measures the free run from each candidate offset forward (`calcularBlocoLivre(i)`), not the enclosing run. So it places the block at the end of the first free region that fits, not in the smallest region. With free regions of 3, 5 and 2 units and a request of 2, it takes offset 1, inside the region of 3. Worst Fit does take the region of 5.
- **Quick-Fit index.** It is not kept free. A recorded offset may since have been occupied by another process, and the hit path allocates there anyway.
- **Process flags.** `simular` resets the arena, the cursor and the index, but not the process records. A process left allocated by one run is still marked allocated at the start of the next.

## Model

| member | source | states |
|---|---|---|
| Arena.IsFree | src/GerenciadorMemoria.java:123-133 | `isLivre` as a predicate: the range lies inside the arena and none of its units is 1 |
| Arena.Fill | src/GerenciadorMemoria.java:165-168 | the arena with the units of one range set to a value: the effect of the loops of `alocar` (1) and `desalocar` (0) |
| Arena.FreeRun | src/GerenciadorMemoria.java:135-141 | the run from `inicio` stays inside the arena and every unit in it is 0; it stops at the end of the arena or at a non-zero unit; it is 0 when the unit at `inicio` is not 0 |
| Arena.FirstFitFrom | src/GerenciadorMemoria.java:41-46 | the offset found by the scan from `i` fits and nothing fits between `i` and it; without a result nothing fits from `i` on |
| Arena.FirstFit | src/GerenciadorMemoria.java:40-48 | the chosen offset passes `isLivre` and no lower offset does; there is no choice exactly when no offset passes `isLivre` |
| Arena.ProbeInRange | src/GerenciadorMemoria.java:57 | every probe of the circular scan is an offset of the arena, and no later probe revisits the start |
| Arena.ProbeStep | src/GerenciadorMemoria.java:57 | the step `(ponteiroNextFit + 1) % tamanhoMemoria` moves from one probe to the next in circular order |
| Arena.NextFitFrom | src/GerenciadorMemoria.java:52-58 | the probe count returned is the first, counted from `k`, whose offset passes `isLivre`; without a result no remaining probe fits |
| Arena.NextFit | src/GerenciadorMemoria.java:50-60 | the chosen offset lies in the arena and passes `isLivre`, and it is the offset of a probe before which no probe in circular order from the cursor fits; there is a choice exactly when some probe of the circle fits |
| Arena.NextFitFound | src/GerenciadorMemoria.java:52-56 | when every probe before the `k`-th fails and the `k`-th passes `isLivre`, Next Fit chooses the `k`-th probe's offset |
| Arena.NextFitExhausted | src/GerenciadorMemoria.java:52-59 | when the scan returns to the cursor with every probe failing, Next Fit has no choice |
| Arena.NextFitAtZeroIsFirstFit | src/GerenciadorMemoria.java:50-60 | from cursor 0, Next Fit chooses exactly what First Fit chooses |
| Arena.NextFitSucceedsIffFirstFitSucceeds | src/GerenciadorMemoria.java:50-60 | from any cursor, Next Fit succeeds if and only if First Fit succeeds |
| Arena.BestFitFrom | src/GerenciadorMemoria.java:66-74 | the offset chosen among those at or after `i` has a minimal forward free run, strictly smaller than that of every lower fitting offset |
| Arena.BestFit | src/GerenciadorMemoria.java:62-81 | the chosen offset fits, its forward free run is minimal among fitting offsets, and lower ties lose; there is no choice exactly when nothing fits |
| Arena.WorstFitFrom | src/GerenciadorMemoria.java:87-95 | as BestFitFrom with the largest forward free run |
| Arena.WorstFit | src/GerenciadorMemoria.java:83-102 | the chosen offset fits, its forward free run is maximal among fitting offsets, and lower ties lose; there is no choice exactly when nothing fits |
| Arena.BestBelowStep | src/GerenciadorMemoria.java:66-74 | one iteration of the Best Fit scan keeps the scan's state correct: offset `i` replaces the incumbent exactly when it fits with a strictly shorter run |
| Arena.BestBelowDone | src/GerenciadorMemoria.java:66-76 | when the scan ends, its result is -1 exactly when Best Fit has no choice, and otherwise it is Best Fit's choice |
| Arena.WorstBelowStep | src/GerenciadorMemoria.java:87-95 | one iteration of the Worst Fit scan keeps the scan's state correct: offset `i` replaces the incumbent exactly when it fits with a strictly longer run |
| Arena.WorstBelowDone | src/GerenciadorMemoria.java:87-97 | when the scan ends, its result is -1 exactly when Worst Fit has no choice, and otherwise it is Worst Fit's choice |
| Arena.BestAtUnique | src/GerenciadorMemoria.java:69 | the strict comparison makes Best Fit's choice unique |
| Arena.WorstAtUnique | src/GerenciadorMemoria.java:90 | the strict comparison makes Worst Fit's choice unique |
| Arena.FillAndIsFree | src/GerenciadorMemoria.java:165-168 | after the range is marked 1 it no longer passes `isLivre`; after it is marked 0 it does |
| Arena.AllocThenFreeRestores | src/GerenciadorMemoria.java:165-168 | marking a free range 1 and then 0 again gives back the original arena |
| Arena.FreeRunShift | src/GerenciadorMemoria.java:135-141 | inside a free run, the run measured from a later unit is shorter by the distance between the two units |
| Arena.FreeRunOfFit | src/GerenciadorMemoria.java:135-141 | on a 0/1 arena, an offset that passes `isLivre` for `t` units has a free run of at least `t` |
| Arena.BestFitIsEndOfFirstFit | src/GerenciadorMemoria.java:62-81 | Best Fit as written places the block at the last `t` units of the free region where First Fit would place it, and fails exactly when First Fit fails |
| Arena.EndOfFirstFitIsBest | src/GerenciadorMemoria.java:62-81 | the last `t` units of the region where First Fit places the block meet the Best Fit specification |
| Arena.WorstFitStartsRegion | src/GerenciadorMemoria.java:83-102 | Worst Fit's offset is 0 or is preceded by a unit that is not free |
| Arena.BestFitOnThreeRegions | src/GerenciadorMemoria.java:62-81 | with free regions of 3, 5 and 2 units and a request of 2, Best Fit chooses offset 1 |
| Arena.WorstFitOnThreeRegions | src/GerenciadorMemoria.java:83-102 | with free regions of 3, 5 and 2 units and a request of 2, Worst Fit chooses offset 4, the start of the region of 5 |
| Fragmentation.FragFrom | src/GerenciadorMemoria.java:147-160 | the sum, over the maximal free runs from `i` on (a trailing run included), of the runs shorter than the smallest size |
| Fragmentation.ExternalFragmentation | src/GerenciadorMemoria.java:143-163 | `calcularFragmentacaoExterna` as a value: FragFrom from the first unit |
| Fragmentation.FreeCountRun | src/GerenciadorMemoria.java:147-149 | the free units from `i` are those of the run at `i` plus those after it |
| Fragmentation.FragFromUnfold | src/GerenciadorMemoria.java:147-156 | the fragmentation from any position is the contribution of the run there plus the fragmentation after that run |
| Fragmentation.ScanStep | src/GerenciadorMemoria.java:147-156 | one unit of the scan keeps the remaining sum: a 0 unit extends the current run, a 1 unit closes it and counts it when it is short |
| Fragmentation.ScanEnds | src/GerenciadorMemoria.java:143-163 | the scan's remaining sum at the first unit with no current run is the external fragmentation, and at the end of the arena it is the trailing run's contribution |
| Fragmentation.FragFromBounds | src/GerenciadorMemoria.java:143-163 | the fragmentation from `i` is at least 0 and at most the number of free units from `i` |
| Fragmentation.FragmentationBounds | src/GerenciadorMemoria.java:143-163 | the fragmentation lies between 0 and the number of free units, which is at most N |
| Fragmentation.FragmentationAllFree | src/GerenciadorMemoria.java:158-160 | an all-free arena gives N when N is below the smallest process size, and 0 otherwise |
| Fragmentation.FragmentationOfOneRun | src/GerenciadorMemoria.java:143-163 | a single free run of 3 units counts for a smallest size of 4 and does not count for a smallest size of 2 |
| Consistency.OverlapAt | src/GerenciadorMemoria.java:115-116 | two ranges that are not disjoint share the larger of their starts |
| Consistency.EmptyArenaConsistent | src/GerenciadorMemoria.java:20 | an all-free arena agrees with a workload in which nothing is allocated |
| Consistency.AllocPreserves | src/GerenciadorMemoria.java:165-171 | `alocar` of an unallocated process, at an offset that passes `isLivre`, keeps the agreement between arena and records |
| Consistency.DeallocPreserves | src/GerenciadorMemoria.java:114-121 | `desalocar` of an allocated process keeps the agreement between arena and records |
| Consistency.StaleQuickFitOffsetBreaksAgreement | src/GerenciadorMemoria.java:104-110 | a Quick-Fit hit at a recorded offset that has since been occupied breaks the agreement |
| QuickFitIndex.Hit | src/GerenciadorMemoria.java:105-106 | the hit test of `alocarQuickFit`: the list for the exact size exists and is not empty |
| QuickFitIndex.EmptyIndex | src/GerenciadorMemoria.java:177-182 | the keys are exactly the sizes 1..N and every list is empty |
| Manager.MinSize | src/GerenciadorMemoria.java:24 | the minimum process size: a member of the sizes that is no larger than any of them, or 1 when there are none |
| Manager.Choose | src/GerenciadorMemoria.java:31 | the offset each strategy chooses: First, Next (from the cursor), Best or Worst Fit, or for Quick Fit the head of the exact-size list on a hit and First Fit otherwise; apart from a Quick-Fit hit, a strategy succeeds exactly when some offset passes `isLivre`, and its offset does |
| Manager.IndexAfterPlacement | src/GerenciadorMemoria.java:105-111 | a Quick-Fit hit removes the head of the list for the size; every other placement leaves the index unchanged |
| Manager.StepSpec | src/GerenciadorMemoria.java:27-34 | one step as a value: an allocated record is freed, keeps its offset and has it appended to the list for its size; an unallocated one is placed where the strategy chooses; no other record changes; apart from a Quick-Fit hit, the record ends up allocated exactly when First Fit has a choice |
| Manager.StepPreservesAgreement | src/GerenciadorMemoria.java:27-34 | a step keeps the arena 0/1 and keeps the agreement between arena and records: a deallocation always does, and so does every placement except a Quick-Fit hit, which does when the offset it takes is free |
| Manager.IsRunExtend | src/GerenciadorMemoria.java:26-37 | a run of steps followed by one more step is a run |
| Manager.ReportsExtend | src/GerenciadorMemoria.java:36 | a list of per-step fragmentation reports stays correct when one report for one more state is appended |
| Manager.MemoryManager.constructor | src/GerenciadorMemoria.java:12-17 | a fresh all-free arena of N units, cursor 0, and an empty list for every size 1..N |
| Manager.MemoryManager.InitQuickFit | src/GerenciadorMemoria.java:177-182 | the index becomes an empty list for every size 1..N and nothing else |
| Manager.MemoryManager.Reset | src/GerenciadorMemoria.java:20-22 | every unit is 0, the cursor is 0, and the index is empty at every size; the new state does not depend on the old one |
| Manager.MemoryManager.IsFree | src/GerenciadorMemoria.java:123-133 | false when the range leaves the arena; otherwise true exactly when no unit of the range is 1 |
| Manager.MemoryManager.FreeBlockLength | src/GerenciadorMemoria.java:135-141 | returns the free run from `inicio` |
| Manager.MemoryManager.ExternalFragmentation | src/GerenciadorMemoria.java:143-163 | the scan returns the sum of the maximal free runs, a trailing run included, that are shorter than the given size |
| Manager.MemoryManager.Allocate | src/GerenciadorMemoria.java:165-171 | exactly the units of the range become 1, and the process is allocated at that offset |
| Manager.MemoryManager.RecordFree | src/GerenciadorMemoria.java:184-186 | the offset is appended to the list for its size, and no other list changes |
| Manager.MemoryManager.Deallocate | src/GerenciadorMemoria.java:114-121 | exactly the process's range becomes 0, its offset is appended to its size's list, and it is unallocated with its offset kept |
| Manager.MemoryManager.AllocateFirstFit | src/GerenciadorMemoria.java:40-48 | succeeds exactly when First Fit has a choice, then allocates there; on failure the arena and the process are unchanged |
| Manager.MemoryManager.AllocateNextFit | src/GerenciadorMemoria.java:50-60 | allocates at Next Fit's choice from the old cursor and leaves the cursor on that offset; on failure the arena, the process and the cursor are unchanged; the cursor stays in [0, N) |
| Manager.MemoryManager.BestFitOffset | src/GerenciadorMemoria.java:63-74 | the scan returns Best Fit's choice, or -1 exactly when nothing fits |
| Manager.MemoryManager.AllocateBestFit | src/GerenciadorMemoria.java:62-81 | allocates at Best Fit's choice when there is one; otherwise the arena and the process are unchanged |
| Manager.MemoryManager.WorstFitOffset | src/GerenciadorMemoria.java:84-95 | the scan returns Worst Fit's choice, or -1 exactly when nothing fits |
| Manager.MemoryManager.AllocateWorstFit | src/GerenciadorMemoria.java:83-102 | allocates at Worst Fit's choice when there is one; otherwise the arena and the process are unchanged |
| Manager.MemoryManager.AllocateQuickFit | src/GerenciadorMemoria.java:104-112 | on a hit, pops the first offset of the exact-size list and allocates there without checking it is free, changing no other list; otherwise behaves as First Fit and leaves the index untouched |
| Manager.MemoryManager.AllocateWith | src/GerenciadorMemoria.java:31 | succeeds exactly when the strategy's choice exists and allocates there, marking exactly that range; apart from a Quick-Fit hit the range was free; the index changes only by a Quick-Fit pop and the cursor only by a successful Next Fit; on failure the arena and the process are unchanged |
| Manager.MemoryManager.Step | src/GerenciadorMemoria.java:27-34 | the new state of arena, records, index and cursor is StepSpec of the old one; the agreement between arena and records is kept by every deallocation and by every placement, except that under Quick Fit a placement needs the offset of a hit to be free |
| Manager.MemoryManager.StepAndReport | src/GerenciadorMemoria.java:27-36 | one step as Step states, then the fragmentation of the new arena, within [0, N] |
| Manager.MemoryManager.RunSteps | src/GerenciadorMemoria.java:26-37 | the states from the current one form a run over `picks`, each report is the fragmentation of its step's arena within [0, N], and the agreement is kept for every strategy except Quick Fit |
| Manager.MemoryManager.Simulate | src/GerenciadorMemoria.java:19-38 | the first state is the reset one (all units 0, the records as they were, an empty index, cursor 0); each later state is StepSpec of the one before for the drawn record; each report is the fragmentation of its step's arena for the smallest process size, within [0, N]; the agreement holds at the end for every strategy except Quick Fit when no process was allocated at entry |
| Processes.Process.constructor | src/Main.java:7 | a new record of the given size, not allocated |
| Processes.Process.Allocate | src/GerenciadorMemoria.java:169 | the record is allocated at the given offset |
| Processes.Process.Deallocate | src/GerenciadorMemoria.java:120 | the record is not allocated and keeps its offset |

`Scenarios` checks the behaviours above through the contracts alone:

- `QuickFitReusesFreedOffset`: on 10 units, sizes 4 and 3 are placed at 0 and 4. After the first is freed, Quick Fit places the next 4-unit request at 0.
- `QuickFitReusesOccupiedOffset`: a 4-unit request lands on an offset that a 2-unit process already holds.
- `ResetKeepsProcessFlags`: after the reset, a process is still marked allocated over a free unit.
- `ResetIsIdempotent`: a second Reset leaves exactly the state of the first.

## Left out

- Output: the printed messages and `exibirMemoria` are not modelled.
- The random draw: `java.util.Random` in `simular` is replaced by the sequence `picks` of process indices. The fixed 30 steps become `|picks|` steps.
- The strategy argument: the `Function<Processo, Boolean>` argument is the enum `Strategy`, and `AllocateWith` dispatches on it.
- The minimum size: the stream-based minimum is the recursive function `MinSize`.
- `HashMap` and `ArrayList`: these become a `map<int, seq<int>>`. `remove(0)` becomes dropping the head and `add` becomes appending.
- `Processo` is not part of this model beyond the size, offset and allocated flag the engine uses. Its `desalocar` is taken to keep the offset.
- `src/Main.java`: the hard-coded workload is left out. It appears here only as the constructor call it makes.
- Java `int` overflow: `MemoryManager.Valid` bounds the arena size below `Integer.MAX_VALUE` and every process size by `Integer.MAX_VALUE - N`, so no offset sum of the engine wraps around.
- Distinct processes: `MemoryManager.Valid` requires the workload list to hold distinct `Process` objects, so a step changes one record only. The source accepts a list with repeats; the workload of `src/Main.java` builds ten separate processes.
- Zero sizes: `MemoryManager.Valid` requires N > 0 and process sizes of at least 1. With N = 0 the source's `% tamanhoMemoria` throws, and the workload has no process of size 0.
- Manager.MemoryManager.Step: for a Quick-Fit placement, agreement between arena and records is claimed only when the offset its hit path would take is free, because the source does not check it. Deallocation steps need no condition.
- Manager.StepPreservesAgreement: for the same reason, it requires a free offset on a Quick-Fit placement that hits.
- Manager.MemoryManager.Simulate: agreement at the end is claimed only when no process was allocated at entry, because `simular` does not reset the process records, and never for Quick Fit.
- Manager.MemoryManager.Simulate: the returned states are ghost, and the per-step reports are values rather than printed text.
