/** Client-side fid numbers. */
module FidPools {
  import opened Types

  class FidPool {
    var inUse: set<u32>
    var nextFid: u32
    /** Allocations since the last Reset; the 32-bit counter follows it until it wraps. */
    ghost var allocations: nat

    /** While the counter has not wrapped, every fid handed out is below it. */
    ghost predicate Valid()
      reads this
    {
      && nextFid == allocations % 0x1_0000_0000
      && (allocations <= 0x1_0000_0000 ==> forall f <- inUse :: f < allocations)
    }

    constructor ()
      ensures Valid() && inUse == {} && allocations == 0
    {
      inUse, nextFid, allocations := {}, 0, 0;
    }

    method Allocate() returns (fid: u32)
      requires Valid()
      modifies this
      ensures Valid() && allocations == old(allocations) + 1
      ensures fid == old(allocations) % 0x1_0000_0000
      ensures old(allocations) < 0x1_0000_0000 ==> fid !in old(inUse)
      ensures inUse == old(inUse) + {fid}
    {
      fid := nextFid;
      nextFid := (nextFid + 1) % 0x1_0000_0000;
      inUse := inUse + {fid};
      allocations := allocations + 1;
    }

    method Release(fid: u32)
      requires Valid()
      modifies this
      ensures Valid() && allocations == old(allocations)
      ensures inUse == old(inUse) - {fid}
    {
      inUse := inUse - {fid};
    }

    method Reset()
      modifies this
      ensures Valid() && inUse == {} && allocations == 0
    {
      inUse, nextFid, allocations := {}, 0, 0;
    }
  }
}
