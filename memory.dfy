/**
 * The C heap as the pixel-data adapter uses it: `malloc` either returns
 * NULL or a fresh block, and `free` gives a block back.  Only ownership
 * is modelled, not layout: `live` is the set of blocks that have been
 * allocated and not yet freed, and `failures` counts the requests
 * that returned NULL.
 */
module Memory {

  class Allocator {
    /** Blocks allocated through this allocator and not yet freed. */
    ghost var live: set<object>
    /** Allocation requests that returned NULL so far. */
    ghost var failures: nat

    constructor ()
      ensures live == {} && failures == 0
    {
      live := {};
      failures := 0;
    }

    /**
     * `malloc(n * sizeof(double))`.  Whether the request can be satisfied
     * is outside the program's control, so the outcome is a free choice:
     * NULL, with nothing allocated, or a fresh block of `n` doubles that
     * the caller now owns.
     */
    method AllocDoubles(n: nat) returns (block: array?<real>)
      modifies this
      ensures block == null ==> live == old(live) && failures == old(failures) + 1
      ensures block != null ==>
        fresh(block) && block.Length == n && live == old(live) + {block} && failures == old(failures)
    {
      var fails: bool :| true;
      if fails {
        block := null;
        failures := failures + 1;
      } else {
        block := new real[n];
        live := live + {block};
      }
    }

    /**
     * `malloc(n * sizeof(double*))`: NULL, or a fresh block of `n` row
     * pointers (none of them yet pointing anywhere).
     */
    method AllocRowPointers(n: nat) returns (block: array?<array?<real>>)
      modifies this
      ensures block == null ==> live == old(live) && failures == old(failures) + 1
      ensures block != null ==>
        fresh(block) && block.Length == n && live == old(live) + {block} && failures == old(failures)
    {
      var fails: bool :| true;
      if fails {
        block := null;
        failures := failures + 1;
      } else {
        block := new array?<real>[n];
        live := live + {block};
      }
    }

    /** `free(block)`: only a block that is live may be freed. */
    method Free(block: object)
      requires block in live
      modifies this
      ensures live == old(live) - {block} && failures == old(failures)
    {
      live := live - {block};
    }
  }
}
