/** The reference cache of the tests: a list of keys, most recently used first. */
module LruModel {
  import opened Seqs

  /** The list without its occurrences of x. */
  function Without(keys: seq<int>, x: int): (r: seq<int>)
    ensures |r| <= |keys| && x !in r && (forall y :: y in r <==> y in keys && y != x)
  {
    if keys == [] then []
    else if keys[0] == x then Without(keys[1..], x)
    else [keys[0]] + Without(keys[1..], x)
  }

  function Take(keys: seq<int>, n: nat): seq<int> {
    if |keys| <= n then keys else keys[..n]
  }

  /** One request: out of the list if it is there, in at the front, and the list cut to size. */
  function Access(capacity: nat, keys: seq<int>, key: int): seq<int> {
    Take([key] + Without(keys, key), capacity)
  }

  /** The cache after a sequence of requests, the last one last. */
  function Run(capacity: nat, requests: seq<int>): seq<int> {
    if requests == [] then []
    else Access(capacity, Run(capacity, requests[..|requests| - 1]), requests[|requests| - 1])
  }

  /** How many requests found their key. */
  function Hits(capacity: nat, requests: seq<int>): nat {
    if requests == [] then 0
    else
      var before := requests[..|requests| - 1];
      Hits(capacity, before) + if requests[|requests| - 1] in Run(capacity, before) then 1 else 0
  }

  lemma {:induction false} WithoutDistinct(keys: seq<int>, x: int)
    requires Distinct(keys)
    ensures Distinct(Without(keys, x))
    ensures x !in keys ==> Without(keys, x) == keys
    ensures x in keys ==> |Without(keys, x)| == |keys| - 1
  {
    if keys != [] {
      WithoutDistinct(keys[1..], x);
      assert keys == [keys[0]] + keys[1..];
      assert keys[0] !in keys[1..];
    }
  }

  /** Taking out the element at a known place. */
  lemma {:induction false} WithoutAt(keys: seq<int>, k: nat)
    requires Distinct(keys) && k < |keys|
    ensures Without(keys, keys[k]) == Removed(keys, k)
  {
    if k == 0 {
      WithoutDistinct(keys[1..], keys[0]);
      assert keys == [keys[0]] + keys[1..];
      assert keys[0] !in keys[1..];
    } else {
      WithoutAt(keys[1..], k - 1);
      assert keys[1..][..k - 1] == keys[1..k] && keys[1..][k - 1 + 1..] == keys[k + 1..];
      assert keys[..k] == [keys[0]] + keys[1..k];
    }
  }

  /** A request in its two cases: a hit moves the key to the front, a miss makes room for it first. */
  lemma AccessCases(capacity: nat, keys: seq<int>, key: int)
    requires Distinct(keys) && |keys| <= capacity
    ensures capacity == 0 ==> Access(capacity, keys, key) == []
    ensures key in keys ==> Access(capacity, keys, key) == [key] + Without(keys, key)
    ensures key !in keys && capacity > 0 ==> Access(capacity, keys, key) == [key] + Take(keys, capacity - 1)
  {
    WithoutDistinct(keys, key);
  }

  lemma AccessHit(capacity: nat, keys: seq<int>, k: nat)
    requires Distinct(keys) && k < |keys| <= capacity
    ensures Access(capacity, keys, keys[k]) == [keys[k]] + Removed(keys, k)
  {
    AccessCases(capacity, keys, keys[k]);
    WithoutAt(keys, k);
  }

  lemma Start(capacity: nat)
    ensures Run(capacity, []) == [] && Hits(capacity, []) == 0
  {
  }

  /** One more request. */
  lemma Next(capacity: nat, requests: seq<int>, i: nat)
    requires i < |requests|
    ensures Run(capacity, requests[..i + 1]) == Access(capacity, Run(capacity, requests[..i]), requests[i])
    ensures Hits(capacity, requests[..i + 1])
         == Hits(capacity, requests[..i]) + if requests[i] in Run(capacity, requests[..i]) then 1 else 0
  {
    assert requests[..i + 1][..i] == requests[..i];
  }

  lemma {:induction false} RunOk(capacity: nat, requests: seq<int>)
    ensures Distinct(Run(capacity, requests)) && |Run(capacity, requests)| <= capacity
    ensures |Run(capacity, requests)| <= |requests|
  {
    if requests != [] {
      var before := requests[..|requests| - 1];
      RunOk(capacity, before);
      WithoutDistinct(Run(capacity, before), requests[|requests| - 1]);
    }
  }

  /** A cache that never has to evict behaves like any larger one. */
  lemma {:induction false} EnoughRoom(small: nat, large: nat, requests: seq<int>)
    requires |requests| <= small && |requests| <= large
    ensures Run(small, requests) == Run(large, requests) && Hits(small, requests) == Hits(large, requests)
  {
    if requests != [] {
      var before := requests[..|requests| - 1];
      EnoughRoom(small, large, before);
      RunOk(small, before);
    }
  }

  /** Clamping the capacity to the number of requests never changes the number of hits. */
  lemma ClampingIsHarmless(capacity: nat, requests: seq<int>)
    ensures Hits(if capacity < |requests| then capacity else |requests|, requests) == Hits(capacity, requests)
  {
    if capacity >= |requests| { EnoughRoom(|requests|, capacity, requests); }
  }
}
