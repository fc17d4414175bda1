/** The allocator, as far as leaks and double frees go. */
module Heaps {
  /** Pointers are numbers; zero is NULL. */
  class Heap {
    var live: set<nat>
    var next: nat
    /** How many more allocations will succeed. */
    var budget: nat

    ghost predicate Valid()
      reads this
    {
      0 < next && forall p :: p in live ==> 0 < p < next
    }

    constructor (budget: nat)
      ensures Valid() && live == {} && this.budget == budget
    {
      live, next, this.budget := {}, 1, budget;
    }

    method Alloc() returns (p: nat)
      requires Valid()
      modifies this
      ensures Valid()
      ensures p == 0 <==> old(budget) == 0
      ensures p == 0 ==> live == old(live) && budget == 0
      ensures p != 0 ==> p !in old(live) && live == old(live) + {p} && budget == old(budget) - 1
    {
      if budget == 0 {
        return 0;
      }
      p := next;
      next, budget, live := next + 1, budget - 1, live + {p};
    }

    /** Freeing NULL does nothing; freeing anything else needs it to be live. */
    method Free(p: nat)
      requires Valid() && (p != 0 ==> p in live)
      modifies this`live
      ensures Valid() && live == old(live) - {p}
    {
      if p != 0 {
        live := live - {p};
      }
    }
  }
}
