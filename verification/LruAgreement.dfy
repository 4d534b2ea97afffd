/** The loop of the tests against the model, and all four caches against each other. */
module LruAgreement {
  import opened Base
  import opened CHeap
  import LruModel
  import LruIntrusive
  import LruOwning
  import OwningMap
  import LruNaive
  import LruCxx

  /** `reference_hits` of the tests: a plain list, searched, rearranged and cut. */
  method ReferenceHits(capacity: nat, values: seq<int>) returns (hits: nat)
    ensures hits == LruModel.Hits(capacity, values)
  {
    hide LruModel.Hits, LruModel.Run;
    var cache: seq<int> := [];
    hits := 0;
    LruModel.Start(capacity);
    for i := 0 to |values|
      invariant cache == LruModel.Run(capacity, values[..i]) && hits == LruModel.Hits(capacity, values[..i])
    {
      LruModel.Next(capacity, values, i);
      LruModel.RunOk(capacity, values[..i]);
      LruModel.WithoutDistinct(cache, values[i]);
      if values[i] in cache {
        hits := hits + 1;
        cache := LruModel.Without(cache, values[i]);
      }
      cache := [values[i]] + cache;
      if |cache| > capacity { cache := cache[..capacity]; }
    }
    assert values[..|values|] == values;
  }

  /** The four caches and the reference report the same number of hits, whatever the hash functions; the
      owning one may instead run out of memory, but not if no allocation fails. */
  method CompareHits(capacity: nat, mix1: int -> nat, mix2: int -> nat, mix3: int -> nat, memory: Memory,
      requests: seq<int>) returns (hits: nat, owning: Option<nat>, intrusive: nat, naive: nat, cxx: nat)
    requires memory.Sound()
    modifies memory
    ensures hits == intrusive == naive == cxx && (owning == Some(hits) || owning == None)
    ensures (forall l: set<Addr>, n: nat :: memory.place(l, n).Some?) ==>
      |requests| <= OwningMap.SIZE_MAX / OwningMap.POINTER_SIZE ==> owning == Some(hits)
    ensures memory.live == old(memory.live)
  {
    hits := ReferenceHits(capacity, requests);
    intrusive := LruIntrusive.RunRequests(capacity, mix1, requests);
    owning := LruOwning.RunRequests(memory, capacity, mix2, requests);
    naive := LruNaive.RunRequests(capacity, mix3, requests);
    cxx := LruCxx.RunRequests(capacity, requests);
  }
}
