/**
 * The allocation hooks. Every allocation may fail; `live` is the set of blocks allocated and not
 * yet freed, and `refusals` counts the allocations that have returned NULL. A new block may be any
 * that is not live, so that freed blocks can come back.
 */
module Memory {
  import opened Values

  /** The identity of an allocated block. */
  type Address = nat

  lemma {:induction false} UpperBound(s: set<Address>) returns (b: Address)
    ensures forall a :: a in s ==> a < b
  {
    if s == {} {
      b := 0;
    } else {
      var x :| x in s;
      var rest := UpperBound(s - {x});
      b := if rest > x then rest else x + 1;
      assert forall a :: a in s ==> a == x || a in s - {x};
    }
  }

  class Hooks {
    /** reallocate is set only when malloc and free are the standard ones. */
    const canReallocate: bool
    var live: set<Address>
    ghost var refusals: nat

    constructor (canReallocate: bool)
      ensures this.canReallocate == canReallocate && live == {} && refusals == 0
    {
      this.canReallocate := canReallocate;
      live, refusals := {}, 0;
    }

    /** allocate: NULL or a block that is not live yet. */
    method Allocate() returns (a: Option<Address>)
      modifies this
      ensures a == None ==> live == old(live) && refusals == old(refusals) + 1
      ensures a.Some? ==> a.value !in old(live) && live == old(live) + {a.value} && refusals == old(refusals)
    {
      if * {
        refusals := refusals + 1;
        return None;
      }
      ghost var bound := UpperBound(live);
      assert bound !in live;
      var block: Address :| block !in live;
      live := live + {block};
      return Some(block);
    }

    /** reallocate: NULL and the old block, or a block in its place, which may be the same one. */
    method Reallocate(a: Address) returns (b: Option<Address>)
      requires a in live
      modifies this
      ensures b == None ==> live == old(live) && refusals == old(refusals) + 1
      ensures b.Some? ==>
              b.value !in old(live) - {a} && live == old(live) - {a} + {b.value} && refusals == old(refusals)
    {
      if * {
        return Some(a);
      }
      b := Allocate();
      if b.Some? {
        live := live - {a};
      }
    }

    /** deallocate: only a live block can be freed. */
    method Deallocate(a: Address)
      requires a in live
      modifies this
      ensures live == old(live) - {a} && refusals == old(refusals)
    {
      live := live - {a};
    }

    /** deallocate for a pointer that may be NULL, which it must accept and ignore. */
    method DeallocatePointer(a: Option<Address>)
      requires a.Some? ==> a.value in live
      modifies this
      ensures live == (if a.Some? then old(live) - {a.value} else old(live)) && refusals == old(refusals)
    {
      if a.Some? {
        Deallocate(a.value);
      }
    }
  }
}
