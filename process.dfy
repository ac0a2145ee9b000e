/** The process record (Processo), reduced to what the allocator uses. */
module Processes {

  class Process {
    const id: string
    /** Requested size in units (getTamanho). */
    const size: nat
    /** Offset of the block while allocated (getInicio). */
    var start: int
    /** isAlocado. */
    var isAllocated: bool

    constructor (id: string, size: nat)
      ensures this.id == id && this.size == size && !isAllocated
    {
      this.id := id;
      this.size := size;
      start := 0;
      isAllocated := false;
    }

    /** alocar(inicio): records the offset and marks the record allocated. */
    method Allocate(offset: int)
      modifies this
      ensures isAllocated && start == offset
    {
      start := offset;
      isAllocated := true;
    }

    /** desalocar(): marks the record unallocated; the offset is kept. */
    method Deallocate()
      modifies this
      ensures !isAllocated && start == old(start)
    {
      isAllocated := false;
    }
  }
}
