/** The cache over a standard list and a standard hash table of iterators into that list. */
module LruCxx {
  import opened Seqs
  import LruModel

  /** A list element and its place in memory, which is what an iterator is: splicing keeps it. */
  datatype Element = Element(place: nat, key: int, page: int)

  function KeysOf(s: seq<Element>): (keys: seq<int>)
    ensures |keys| == |s| && forall i | 0 <= i < |s| :: keys[i] == s[i].key
  {
    seq(|s|, i requires 0 <= i < |s| => s[i].key)
  }

  predicate Mapped(e: Element, hash: map<int, nat>) {
    e.key in hash && hash[e.key] == e.place
  }

  predicate Keyed(s: seq<Element>, key: int) {
    exists i :: 0 <= i < |s| && s[i].key == key
  }

  /** No two elements share a place, and none has the place the next one will get. */
  predicate Placed(s: seq<Element>, next: nat) {
    && (forall i, j | 0 <= i < j < |s| :: s[i].place != s[j].place)
    && forall i | 0 <= i < |s| :: s[i].place < next
  }

  /** The hash table maps exactly the keys of the list, each to its own element. */
  predicate Matches(s: seq<Element>, hash: map<int, nat>) {
    (forall i | 0 <= i < |s| :: Mapped(s[i], hash)) && forall key | key in hash :: Keyed(s, key)
  }

  function Position(s: seq<Element>, place: nat): (k: nat)
    requires exists i :: 0 <= i < |s| && s[i].place == place
    ensures k < |s| && s[k].place == place
  {
    if s[0].place == place then 0 else
      var i :| 0 <= i < |s| && s[i].place == place;
      assert s[1..][i - 1].place == place;
      1 + Position(s[1..], place)
  }

  lemma KeysDistinct(s: seq<Element>, hash: map<int, nat>, next: nat)
    requires Placed(s, next) && Matches(s, hash)
    ensures Distinct(KeysOf(s)) && forall key :: key in hash <==> key in KeysOf(s)
  {
    forall i, j | 0 <= i < j < |s| ensures s[i].key != s[j].key {
      assert Mapped(s[i], hash) && Mapped(s[j], hash);
    }
    forall key | key in hash ensures key in KeysOf(s) {
      var i :| 0 <= i < |s| && s[i].key == key;
      assert KeysOf(s)[i] == key;
    }
    forall key | key in KeysOf(s) ensures key in hash {
      var i :| 0 <= i < |s| && KeysOf(s)[i] == key;
      assert Mapped(s[i], hash);
    }
  }

  /** `find` and the splice: the element of the key goes to the front. */
  lemma Spliced(s: seq<Element>, hash: map<int, nat>, next: nat, key: int) returns (k: nat)
    requires Placed(s, next) && Matches(s, hash) && key in hash
    ensures k < |s| && s[k].key == key && Position(s, hash[key]) == k
    ensures Placed([s[k]] + Removed(s, k), next) && Matches([s[k]] + Removed(s, k), hash)
    ensures KeysOf([s[k]] + Removed(s, k)) == [key] + Removed(KeysOf(s), k)
  {
    assert Keyed(s, key);
    k :| 0 <= k < |s| && s[k].key == key;
    assert Mapped(s[k], hash);
    KeysSpliced(s, k);
    MatchesSpliced(s, hash, k);
    PlacedSpliced(s, next, k);
  }

  /** Where element i of the spliced list was before. */
  function Origin(k: nat, i: nat): nat {
    if i == 0 then k else if i <= k then i - 1 else i
  }

  lemma OriginOf(s: seq<Element>, k: nat, i: nat)
    requires k < |s| && i < |s|
    ensures |Removed(s, k)| == |s| - 1 && ([s[k]] + Removed(s, k))[i] == s[Origin(k, i)]
  {
  }

  lemma PlacedSpliced(s: seq<Element>, next: nat, k: nat)
    requires Placed(s, next) && k < |s|
    ensures Placed([s[k]] + Removed(s, k), next)
  {
    hide Removed;
    var moved := [s[k]] + Removed(s, k);
    RemovedParts(s, k);
    forall i, j | 0 <= i < j < |moved| ensures moved[i].place != moved[j].place {
      OriginOf(s, k, i);
      OriginOf(s, k, j);
    }
    forall i | 0 <= i < |moved| ensures moved[i].place < next { OriginOf(s, k, i); }
  }

  lemma MatchesSpliced(s: seq<Element>, hash: map<int, nat>, k: nat)
    requires Matches(s, hash) && k < |s|
    ensures Matches([s[k]] + Removed(s, k), hash)
  {
    hide Removed;
    var moved := [s[k]] + Removed(s, k);
    RemovedParts(s, k);
    forall i | 0 <= i < |moved| ensures Mapped(moved[i], hash) {
      OriginOf(s, k, i);
      assert Mapped(s[Origin(k, i)], hash);
    }
    forall x | x in hash ensures Keyed(moved, x) {
      assert Keyed(s, x);
      var i :| 0 <= i < |s| && s[i].key == x;
      OriginOf(s, k, if i == k then 0 else if i < k then i + 1 else i);
      assert moved[if i == k then 0 else if i < k then i + 1 else i].key == x;
    }
  }

  lemma KeysSpliced(s: seq<Element>, k: nat)
    requires k < |s|
    ensures KeysOf([s[k]] + Removed(s, k)) == [s[k].key] + Removed(KeysOf(s), k)
  {
  }

  lemma Dropped(s: seq<Element>, hash: map<int, nat>, next: nat)
    requires Placed(s, next) && Matches(s, hash) && s != []
    ensures Placed(s[..|s| - 1], next) && Matches(s[..|s| - 1], hash - {s[|s| - 1].key})
  {
    var less, last := s[..|s| - 1], s[|s| - 1];
    assert Mapped(last, hash);
    forall i | 0 <= i < |less| ensures Mapped(less[i], hash - {last.key}) {
      assert Mapped(s[i], hash);
    }
    forall x | x in hash && x != last.key ensures Keyed(less, x) {
      assert Keyed(s, x);
      var i :| 0 <= i < |s| && s[i].key == x;
      assert less[i].key == x;
    }
  }

  lemma Emplaced(s: seq<Element>, hash: map<int, nat>, next: nat, e: Element)
    requires Placed(s, next) && Matches(s, hash) && e.place == next && e.key !in hash
    ensures Placed([e] + s, next + 1) && Matches([e] + s, hash[e.key := next])
  {
    var more, hash' := [e] + s, hash[e.key := next];
    forall i | 0 <= i < |more| ensures Mapped(more[i], hash') {
      if i > 0 { assert Mapped(s[i - 1], hash); }
    }
    forall x | x in hash' ensures Keyed(more, x) {
      if x == e.key {
        assert more[0].key == x;
      } else {
        assert Keyed(s, x);
        var i :| 0 <= i < |s| && s[i].key == x;
        assert more[i + 1].key == x;
      }
    }
  }

  class Cache {
    const sz: nat
    var cache: seq<Element>
    var hash: map<int, nat>
    /** The place of the next element to be allocated. */
    var next: nat

    constructor (sz: nat)
      ensures Valid() && this.sz == sz && cache == []
    {
      this.sz, cache, hash, next := sz, [], map[], 0;
    }

    ghost predicate Valid()
      reads this
    {
      |cache| <= sz && Placed(cache, next) && Matches(cache, hash)
    }

    /** `lookup_update`. */
    method LookupUpdate(key: int, slowGetPage: int -> int) returns (hit: bool, loads: nat)
      requires Valid()
      modifies this
      ensures Valid() && hit == (key in old(KeysOf(cache)))
      ensures KeysOf(cache) == LruModel.Access(sz, old(KeysOf(cache)), key)
      ensures loads == if hit || sz == 0 then 0 else 1
      ensures hit ==> multiset(cache) == multiset(old(cache))
      ensures !hit && sz > 0 ==> cache[0].page == slowGetPage(key)
      ensures !hit && sz > 0 ==> cache[1..] == old(if |cache| < sz then cache else cache[..sz - 1])
    {
      hide Matches, Placed, Removed, LruModel.Access, LruModel.Without;
      ghost var keys := KeysOf(cache);
      KeysDistinct(cache, hash, next);
      LruModel.AccessCases(sz, keys, key);
      if sz == 0 { return false, 0; }
      if key in hash {
        ghost var i := Spliced(cache, hash, next, key);
        RemovedMultiset(cache, i);
        LruModel.AccessHit(sz, keys, i);
        var k := Position(cache, hash[key]);
        cache := [cache[k]] + Removed(cache, k);
        return true, 0;
      }
      var page := slowGetPage(key);
      if |cache| == sz {
        Dropped(cache, hash, next);
        hash := hash - {cache[|cache| - 1].key};
        cache := cache[..|cache| - 1];
      }
      Emplaced(cache, hash, next, Element(next, key, page));
      cache := [Element(next, key, page)] + cache;
      hash := hash[key := next];
      next := next + 1;
      hit, loads := false, 1;
      assert KeysOf(cache) == [key] + LruModel.Take(keys, sz - 1);
    }
  }

  /** The loop of `main`, which does not clamp the capacity. */
  method RunRequests(capacity: nat, requests: seq<int>) returns (hits: nat)
    ensures hits == LruModel.Hits(capacity, requests)
  {
    hide LruModel.Access, LruModel.Run, LruModel.Hits, Cache.Valid, KeysOf;
    var cache := new Cache(capacity);
    hits := 0;
    LruModel.Start(capacity);
    for i := 0 to |requests|
      invariant cache.Valid() && cache.sz == capacity && fresh(cache)
      invariant KeysOf(cache.cache) == LruModel.Run(capacity, requests[..i])
      invariant hits == LruModel.Hits(capacity, requests[..i])
    {
      LruModel.Next(capacity, requests, i);
      var hit, loads := cache.LookupUpdate(requests[i], key => key);
      if hit { hits := hits + 1; }
    }
    assert requests[..|requests|] == requests;
  }
}
