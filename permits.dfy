/** The counting semaphore (`java.util.concurrent.Semaphore`) that bounds how
    many downloads transfer at once. Blocking is not modelled: `Acquire`
    requires a free permit, which is the moment a blocked `acquire` returns. */
module Permits {

  class Semaphore {
    /** The number of permits the semaphore was created with. */
    const capacity: int
    /** The permits currently free. */
    var available: int
    /** The permits currently taken (acquired and not yet released). */
    ghost var held: int
    /** How many times `acquire` and `release` have returned so far. */
    ghost var acquires: nat
    ghost var releases: nat

    /** Every permit is either free or taken; when the semaphore started with
        a non-negative count, the free count never goes below zero. */
    ghost predicate Valid()
      reads this
    {
      available + held == capacity && (capacity >= 0 ==> available >= 0)
    }

    /** `new Semaphore(permits)`: all permits free, none taken. */
    constructor (permits: int)
      ensures Valid()
      ensures capacity == permits && available == permits && held == 0
      ensures acquires == 0 && releases == 0
    {
      capacity := permits;
      available := permits;
      held := 0;
      acquires, releases := 0, 0;
    }

    /** Takes one permit. */
    method Acquire()
      requires Valid() && available > 0
      modifies this
      ensures Valid()
      ensures available == old(available) - 1 && held == old(held) + 1
      ensures acquires == old(acquires) + 1 && releases == old(releases)
    {
      available := available - 1;
      held := held + 1;
      acquires := acquires + 1;
    }

    /** Gives one permit back. Java does not check that the caller held one and
        does not cap the count at the initial number. */
    method Release()
      requires Valid()
      modifies this
      ensures Valid()
      ensures available == old(available) + 1 && held == old(held) - 1
      ensures releases == old(releases) + 1 && acquires == old(acquires)
    {
      available := available + 1;
      held := held - 1;
      releases := releases + 1;
    }
  }

  /** On a semaphore created with a non-negative count, the holders never
      outnumber its permits: at most `capacity` tasks transfer at once. */
  lemma HoldersWithinCapacity(s: Semaphore)
    requires s.Valid() && s.capacity >= 0
    ensures s.held <= s.capacity
  {
  }
}
