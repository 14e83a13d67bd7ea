/** Bookkeeping of heap blocks: temporaries (scratch polynomials, the lazily
    built zero, the remainder of a division) and owned generator-name strings.
    Only the counts are modelled, which is enough to state that every
    temporary acquired inside an operation is released on every path. */
module Memory {

  class Heap {
    /** Blocks currently held. */
    var live: int
    /** Blocks acquired so far. */
    var allocs: nat

    constructor ()
      ensures live == 0 && allocs == 0
    {
      live, allocs := 0, 0;
    }

    /** Allocate or initialise one block (malloc, gr_heap_init, an element init). */
    method Acquire()
      modifies this
      ensures live == old(live) + 1 && allocs == old(allocs) + 1
    {
      live, allocs := live + 1, allocs + 1;
    }

    /** Release one block (free, gr_heap_clear, an element clear). */
    method Release()
      modifies this
      ensures live == old(live) - 1 && allocs == old(allocs)
    {
      live := live - 1;
    }
  }
}
