/** The simulated memory system of `lab3/memlib.c`. */
module MemLib {
  import opened Common
  import opened RawMemory

  /** The heap is `[start, brk)`; it may grow up to `maxAddr`. Addresses index `bytes`, and
      nothing below `start` belongs to the heap. */
  class MemoryModel {
    const start: int
    const maxAddr: int
    const bytes: array<byte>
    var brk: int

    ghost predicate Valid()
      reads this
    {
      && 0 < start && start % 8 == 0
      && start <= brk <= maxAddr == bytes.Length
      && maxAddr - start < INT_LIMIT && maxAddr <= SIZE_LIMIT
    }

    /** `mem_init`, given the address the C library's `malloc` returned. */
    constructor (startAddr: int, maxHeap: nat)
      requires 0 < startAddr && startAddr % 8 == 0
      requires maxHeap < INT_LIMIT && startAddr + maxHeap <= SIZE_LIMIT
      ensures Valid() && fresh(bytes)
      ensures start == startAddr && maxAddr == startAddr + maxHeap && brk == start
    {
      start := startAddr;
      maxAddr := startAddr + maxHeap;
      brk := startAddr;
      bytes := new byte[startAddr + maxHeap](_ => 0);
    }

    /** `mem_reset_brk` */
    method ResetBrk()
      requires Valid()
      modifies this`brk
      ensures Valid() && brk == start
    {
      brk := start;
    }

    /** `mem_sbrk`: -1 when `incr` is negative or would move the break past `maxAddr`. */
    method Sbrk(incr: int) returns (p: int)
      requires Valid()
      modifies this`brk
      ensures Valid()
      ensures p == -1 <==> (incr < 0 || old(brk) + incr > maxAddr)
      ensures if p == -1 then brk == old(brk) else p == old(brk) && brk == old(brk) + incr
    {
      var oldBrk := brk;
      if incr < 0 || brk + incr > maxAddr {
        return -1;
      }
      brk := brk + incr;
      return oldBrk;
    }

    /** `mem_heap_lo` */
    function HeapLo(): int { start }

    /** `mem_heap_hi` */
    function HeapHi(): int
      reads this
    {
      brk - 1
    }

    /** `mem_heapsize` */
    function HeapSize(): int
      reads this
    {
      brk - start
    }
  }
}
