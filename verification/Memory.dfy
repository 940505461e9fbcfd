/** The allocator as the library sees it: a request may be refused, and requests in force are counted. */
module Memory {

  function Max(a: nat, b: nat): nat {
    if a > b then a else b
  }

  class Heap {
    /** Bytes requested and not yet released, and the most there ever were. */
    var live: nat
    var peak: nat
    /** How many requests were refused. */
    var refusals: nat

    constructor ()
      ensures live == peak == refusals == 0
    {
      live, peak, refusals := 0, 0, 0;
    }

    /** The allocator is free to refuse any request. */
    method Allocate(bytes: nat) returns (granted: bool)
      modifies this
      ensures granted ==> live == old(live) + bytes && peak == Max(old(peak), live) && refusals == old(refusals)
      ensures !granted ==> live == old(live) && peak == old(peak) && refusals == old(refusals) + 1
    {
      granted := *;
      if granted {
        live := live + bytes;
        peak := Max(peak, live);
      } else {
        refusals := refusals + 1;
      }
    }

    method Release(bytes: nat)
      requires bytes <= live
      modifies this
      ensures live == old(live) - bytes && peak == old(peak) && refusals == old(refusals)
    {
      live := live - bytes;
    }
  }

  /** The allocator where only refusals matter: it may refuse any request, and says how many it refused. */
  class Allocator {
    var refusals: nat

    constructor ()
      ensures refusals == 0
    {
      refusals := 0;
    }

    method Ask() returns (granted: bool)
      modifies this
      ensures refusals == old(refusals) + if granted then 0 else 1
    {
      granted := *;
      if !granted {
        refusals := refusals + 1;
      }
    }
  }
}
