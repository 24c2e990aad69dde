// The wire-slot allocator of the musical score (cirq_qubitization/quantum_graph/musical_score.py).

module MusicalScore {
  predicate Distinct(s: seq<int>) {
    forall j, k | 0 <= j < k < |s| :: s[j] != s[k]
  }

  /** `Allocator`: hands out freed slots first, oldest first, and fresh indices 0, 1, 2, ...
      otherwise.  The ghost set `live` holds the slots handed out and not freed since. */
  class Allocator {
    var freeSlots: seq<int>
    /** The next fresh index. */
    var i: nat
    ghost var live: set<int>

    constructor ()
      ensures freeSlots == [] && i == 0 && live == {}
      ensures Disciplined()
    {
      freeSlots := [];
      i := 0;
      live := {};
    }

    /** The slots are used as intended: every slot, live or free, is an index already handed
        out, no slot is both, and no slot waits in the free list twice. */
    ghost predicate Disciplined()
      reads this
    {
      && (forall k | 0 <= k < |freeSlots| :: 0 <= freeSlots[k] < i && freeSlots[k] !in live)
      && Distinct(freeSlots)
      && (forall x | x in live :: 0 <= x < i)
    }

    /** `alloc`: the head of the free list if there is one, else the next fresh index. */
    method Alloc() returns (r: int)
      modifies this
      ensures old(freeSlots) != [] ==> r == old(freeSlots)[0] && freeSlots == old(freeSlots)[1..] && i == old(i)
      ensures old(freeSlots) == [] ==> r == old(i) && i == old(i) + 1 && freeSlots == []
      ensures live == old(live) + {r}
      ensures old(Disciplined()) ==> Disciplined() && r !in old(live)
    {
      if freeSlots != [] {
        r := freeSlots[0];
        freeSlots := freeSlots[1..];
      } else {
        r := i;
        i := i + 1;
      }
      live := live + {r};
    }

    /** `free`: append the slot to the free list. */
    method Free(x: int)
      modifies this
      ensures freeSlots == old(freeSlots) + [x] && i == old(i) && live == old(live) - {x}
      ensures old(Disciplined()) && x in old(live) ==> Disciplined()
    {
      freeSlots := freeSlots + [x];
      live := live - {x};
    }
  }

  /** Freed slots come back in the order they were freed, after those already waiting;
      with nothing waiting, fresh indices rise by one and repeat no slot in use. */
  method FifoReuse(a: Allocator, x: int, y: int) returns (first: int, second: int)
    requires a.freeSlots == []
    modifies a
    ensures first == x && second == y
    ensures a.freeSlots == [] && a.i == old(a.i)
  {
    a.Free(x);
    a.Free(y);
    first := a.Alloc();
    second := a.Alloc();
  }

  /** Two allocations from an empty free list give two consecutive fresh indices. */
  method FreshIncreasing(a: Allocator) returns (first: int, second: int)
    requires a.freeSlots == []
    modifies a
    ensures first == old(a.i) && second == first + 1 && a.i == old(a.i) + 2
  {
    first := a.Alloc();
    second := a.Alloc();
  }
}
