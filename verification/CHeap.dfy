/** A heap whose allocations may fail. */
module CHeap {
  import opened Base

  type Addr = nat

  /** Whether n allocations in a row would all succeed. */
  ghost predicate Grants(place: (set<Addr>, nat) -> Option<Addr>, live: set<Addr>, calls: nat, n: nat)
    decreases n
  {
    n == 0 || (var a := place(live, calls); a.Some? && Grants(place, live + {a.value}, calls + 1, n - 1))
  }

  /** The C heap: which addresses are allocated. Whether and where an allocation succeeds is up to an
      arbitrary function of what is live and of how often it was asked. */
  class Memory {
    const place: (set<Addr>, nat) -> Option<Addr>
    var live: set<Addr>
    var calls: nat

    constructor (place: (set<Addr>, nat) -> Option<Addr>)
      ensures this.place == place && live == {} && calls == 0
    {
      this.place, live, calls := place, {}, 0;
    }

    /** An allocation never returns what is still allocated. */
    ghost predicate Sound() {
      forall l: set<Addr>, n: nat | place(l, n).Some? :: place(l, n).value !in l
    }

    method Malloc() returns (a: Option<Addr>)
      requires Sound()
      modifies this
      ensures a == place(old(live), old(calls)) && calls == old(calls) + 1
      ensures live == old(live) + if a.Some? then {a.value} else {}
      ensures a.Some? ==> a.value !in old(live)
    {
      a := place(live, calls);
      if a.Some? { live := live + {a.value}; }
      calls := calls + 1;
    }

    /** Freeing twice, or something that was never allocated, does not meet the precondition. */
    method Free(a: Addr)
      requires a in live
      modifies `live
      ensures live == old(live) - {a}
    {
      live := live - {a};
    }
  }

  lemma Grants2(place: (set<Addr>, nat) -> Option<Addr>, live: set<Addr>, calls: nat)
    ensures Grants(place, live, calls, 2) <==> (
      var a := place(live, calls);
      a.Some? && place(live + {a.value}, calls + 1).Some?)
  {
    var a := place(live, calls);
    if a.Some? {
      assert Grants(place, live + {a.value}, calls + 1, 1) <==> place(live + {a.value}, calls + 1).Some?;
    }
  }

  lemma GrantsStep(place: (set<Addr>, nat) -> Option<Addr>, live: set<Addr>, calls: nat, n: nat)
    ensures Grants(place, live, calls, n + 1) <==> (
      var a := place(live, calls);
      a.Some? && Grants(place, live + {a.value}, calls + 1, n))
  {
  }

  lemma {:induction false} AlwaysGrants(place: (set<Addr>, nat) -> Option<Addr>, live: set<Addr>, calls: nat, n: nat)
    requires forall l: set<Addr>, m: nat :: place(l, m).Some?
    ensures Grants(place, live, calls, n)
    decreases n
  {
    if n > 0 { AlwaysGrants(place, live + {place(live, calls).value}, calls + 1, n - 1); }
  }
}
