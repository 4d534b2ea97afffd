/** The cache with intrusive links: every entry is at once on the circular recency list and on a
    bucket chain whose cells know what points at them. */
module LruIntrusive {
  import opened Seqs
  import LruModel

  /** A `prev_next` pointer: a bucket cell, or the `next` field of another entry. */
  datatype Cell = NoCell | Bucket(i: nat) | NextOf(e: Entry)

  /** `CacheEntry` with both of its links; the list's sentinel uses `prev` and `next` only. */
  class Entry {
    var prev: Entry
    var next: Entry
    var key: int
    var chain: Entry?
    var prevNext: Cell

    constructor ()
      ensures prev == this && next == this && prevNext == NoCell && chain == null
    {
      prev, next, key, chain, prevNext := this, this, 0, null, NoCell;
    }
  }

  // ----- the circular list -----

  /** The element of the ring at position i, the sentinel standing at both ends. */
  function RingAt(h: Entry, order: seq<Entry>, i: int): Entry {
    if 0 <= i < |order| then order[i] else h
  }

  /** Positions i and i + 1 of the ring know each other. */
  ghost predicate Linked(h: Entry, order: seq<Entry>, i: int)
    reads ({h} + Members(order))`prev, ({h} + Members(order))`next
  {
    && RingAt(h, order, i).next == RingAt(h, order, i + 1)
    && RingAt(h, order, i + 1).prev == RingAt(h, order, i)
  }

  ghost predicate Ring(h: Entry, order: seq<Entry>)
    reads ({h} + Members(order))`prev, ({h} + Members(order))`next
  {
    h !in order && Distinct(order) && forall i | -1 <= i < |order| :: Linked(h, order, i)
  }

  lemma RingParts(h: Entry, order: seq<Entry>)
    requires Ring(h, order)
    ensures h !in order && Distinct(order)
  {
  }

  /** `list_remove`. */
  method ListRemove(h: Entry, ghost order: seq<Entry>, ghost k: nat, link: Entry)
    requires Ring(h, order) && k < |order| && order[k] == link
    modifies ({h} + Members(order))`prev, ({h} + Members(order))`next
    ensures Ring(h, Removed(order, k))
    ensures link.prev == link && link.next == link
  {
    ghost var less := Removed(order, k);
    assert Linked(h, order, k - 1) && Linked(h, order, k);
    link.prev.next := link.next;
    link.next.prev := link.prev;
    link.prev := link;
    link.next := link;
    forall i | -1 <= i < |less| ensures Linked(h, less, i) {
      if i < k - 1 {
        assert old(Linked(h, order, i));
      } else if i >= k {
        assert old(Linked(h, order, i + 1));
      }
    }
  }

  /** `list_push_front`. */
  method ListPushFront(h: Entry, ghost order: seq<Entry>, link: Entry)
    requires Ring(h, order) && link != h && link !in order
    modifies ({h, link} + Members(order))`prev, ({h, link} + Members(order))`next
    ensures Ring(h, [link] + order)
  {
    ghost var more := [link] + order;
    assert Linked(h, order, -1);
    link.prev := h;
    link.next := h.next;
    h.next.prev := link;
    h.next := link;
    forall i | -1 <= i < |more| ensures Linked(h, more, i) {
      if i >= 1 { assert old(Linked(h, order, i - 1)); }
    }
  }

  // ----- bucket chains -----

  /** Entry i of the chain points to the next one, and its cell is what points to it. */
  ghost predicate Chained(b: nat, c: seq<Entry>, i: nat)
    requires i < |c|
    reads Members(c)`chain, Members(c)`prevNext
  {
    && c[i].chain == (if i + 1 < |c| then c[i + 1] else null)
    && c[i].prevNext == if i == 0 then Bucket(b) else NextOf(c[i - 1])
  }

  /** The list of bucket b: it starts at the bucket's head and ends with null. */
  ghost predicate ChainOk(buckets: array<Entry?>, b: nat, c: seq<Entry>)
    reads buckets, Members(c)`chain, Members(c)`prevNext
  {
    && b < buckets.Length && Distinct(c)
    && buckets[b] == (if c == [] then null else c[0])
    && forall i | 0 <= i < |c| :: Chained(b, c, i)
  }

  /** `int_map_find` within one bucket. */
  method ChainFind(buckets: array<Entry?>, b: nat, ghost c: seq<Entry>, key: int) returns (found: Entry?)
    requires ChainOk(buckets, b, c)
    ensures found != null ==> found in c && found.key == key
    ensures found == null ==> forall e <- c :: e.key != key
  {
    found := buckets[b];
    ghost var i := 0;
    while found != null && found.key != key
      invariant i <= |c| && found == (if i < |c| then c[i] else null)
      invariant forall j | 0 <= j < i :: c[j].key != key
      decreases |c| - i
    {
      assert Chained(b, c, i);
      found := found.chain;
      i := i + 1;
    }
  }

  /** The linking part of `int_map_insert`. */
  method ChainPush(buckets: array<Entry?>, b: nat, ghost c: seq<Entry>, e: Entry)
    requires ChainOk(buckets, b, c) && e !in c
    modifies buckets, ({e} + Members(c))`chain, ({e} + Members(c))`prevNext
    ensures ChainOk(buckets, b, [e] + c)
    ensures forall a | 0 <= a < buckets.Length && a != b :: buckets[a] == old(buckets[a])
  {
    ghost var more := [e] + c;
    e.chain := buckets[b];
    e.prevNext := Bucket(b);
    if buckets[b] != null {
      buckets[b].prevNext := NextOf(e);
    }
    buckets[b] := e;
    forall i | 0 <= i < |more| ensures Chained(b, more, i) {
      if i >= 1 { assert old(Chained(b, c, i - 1)); }
    }
  }

  /** `int_map_remove`: the cell that points to the entry is made to point past it. */
  method ChainRemove(buckets: array<Entry?>, ghost b: nat, ghost c: seq<Entry>, ghost k: nat, e: Entry)
    requires ChainOk(buckets, b, c) && k < |c| && c[k] == e
    modifies buckets, Members(c)`chain, Members(c)`prevNext
    ensures ChainOk(buckets, b, Removed(c, k))
    ensures e.chain == null && e.prevNext == NoCell
    ensures forall a | 0 <= a < buckets.Length && a != b :: buckets[a] == old(buckets[a])
  {
    ghost var less := Removed(c, k);
    assert Chained(b, c, k);
    assert k + 1 < |c| ==> Chained(b, c, k + 1);
    match e.prevNext {
      case Bucket(i) => buckets[i] := e.chain;
      case NextOf(before) => before.chain := e.chain;
    }
    if e.chain != null {
      e.chain.prevNext := e.prevNext;
    }
    e.chain := null;
    e.prevNext := NoCell;
    forall i | 0 <= i < |less| ensures Chained(b, less, i) {
      if i < k { assert old(Chained(b, c, i)); } else { assert old(Chained(b, c, i + 1)); }
    }
  }

  // ----- the map -----

  ghost predicate ChainsOk(buckets: array<Entry?>, chains: seq<seq<Entry>>, members: set<Entry>)
    reads buckets, members`chain, members`prevNext
  {
    && |chains| == buckets.Length
    && (forall b | 0 <= b < |chains| :: Members(chains[b]) <= members)
    && (forall a, b | 0 <= a < b < |chains| :: Members(chains[a]) !! Members(chains[b]))
    && forall b | 0 <= b < |chains| :: ChainOk(buckets, b, chains[b])
  }

  /** The chains when e becomes the first of bucket b. */
  function Pushed(chains: seq<seq<Entry>>, b: nat, e: Entry): seq<seq<Entry>>
    requires b < |chains|
  {
    chains[b := [e] + chains[b]]
  }

  /** Pushing onto one chain leaves the others as they are. */
  method PushInto(buckets: array<Entry?>, ghost chains: seq<seq<Entry>>, ghost members: set<Entry>, b: nat, e: Entry)
    requires ChainsOk(buckets, chains, members) && b < buckets.Length && e !in members
    modifies buckets, (members + {e})`chain, (members + {e})`prevNext
    ensures |chains| == buckets.Length && ChainsOk(buckets, Pushed(chains, b, e), members + {e})
  {
    assert ChainOk(buckets, b, chains[b]);
    ChainPush(buckets, b, chains[b], e);
    ghost var after := Pushed(chains, b, e);
    forall a | 0 <= a < |after| ensures ChainOk(buckets, a, after[a]) {
      if a != b {
        assert old(ChainOk(buckets, a, chains[a]));
        assert Members(chains[a]) !! Members(chains[b]) + {e};
      }
    }
  }

  /** The chains without e, which is entry k of bucket b. */
  function Pulled(chains: seq<seq<Entry>>, b: nat, k: nat): seq<seq<Entry>>
    requires b < |chains| && k < |chains[b]|
  {
    chains[b := Removed(chains[b], k)]
  }

  /** Removing from one chain leaves the others as they are. */
  method PullFrom(buckets: array<Entry?>, ghost chains: seq<seq<Entry>>, ghost members: set<Entry>,
      ghost b: nat, ghost k: nat, e: Entry)
    requires ChainsOk(buckets, chains, members) && b < |chains| && k < |chains[b]| && chains[b][k] == e
    modifies buckets, members`chain, members`prevNext
    ensures ChainsOk(buckets, Pulled(chains, b, k), members - {e})
    ensures e.chain == null && e.prevNext == NoCell
  {
    assert ChainOk(buckets, b, chains[b]);
    ChainRemove(buckets, b, chains[b], k, e);
    ghost var after := Pulled(chains, b, k);
    forall a | 0 <= a < |after| ensures ChainOk(buckets, a, after[a]) && Members(after[a]) <= members - {e} {
      if a != b {
        assert old(ChainOk(buckets, a, chains[a]));
        assert Members(chains[a]) !! Members(chains[b]);
      }
    }
    assert Members(after[b]) <= Members(chains[b]);
  }

  /** The `IntMap`: the mixing of the key's bits is an arbitrary function. */
  class IntMap {
    const buckets: array<Entry?>
    const mix: int -> nat
    ghost var chains: seq<seq<Entry>>
    ghost var members: set<Entry>

    /** `int_map_init`. */
    constructor (bucketCount: nat, mix: int -> nat)
      ensures Valid() && fresh(buckets) && buckets.Length == bucketCount && this.mix == mix
      ensures members == {}
    {
      buckets := new Entry?[bucketCount](_ => null);
      this.mix := mix;
      chains := seq(bucketCount, _ => []);
      members := {};
    }

    function BucketFor(key: int): (b: nat)
      requires buckets.Length > 0
      ensures b < buckets.Length
    {
      mix(key) % buckets.Length
    }

    /** Entry e is on the chain its key selects. */
    ghost predicate Placed(e: Entry)
      reads `chains, e`key
    {
      buckets.Length > 0 && BucketFor(e.key) < |chains| && e in chains[BucketFor(e.key)]
    }

    ghost predicate Valid()
      reads this, buckets, members`chain, members`prevNext, members`key
    {
      && ChainsOk(buckets, chains, members)
      && (forall e <- members :: Placed(e))
      && forall e, f | e in members && f in members && e.key == f.key :: e == f
    }

    lemma ValidParts(e: Entry)
      requires Valid() && e in members
      ensures buckets.Length > 0 && |chains| == buckets.Length && Placed(e)
    {
    }

    /** A linked entry's cell is never the null one. */
    lemma LinkedHasCell(e: Entry)
      requires Valid() && e in members
      ensures e.prevNext != NoCell
    {
      assert Placed(e);
      var c := chains[BucketFor(e.key)];
      var i :| 0 <= i < |c| && c[i] == e;
      assert ChainOk(buckets, BucketFor(e.key), c) && Chained(BucketFor(e.key), c, i);
    }

    /** `int_map_find`. */
    method Find(key: int) returns (found: Entry?)
      requires Valid()
      ensures found != null ==> found in members && found.key == key
      ensures found == null ==> forall e <- members :: e.key != key
    {
      if buckets.Length == 0 {
        assert forall e <- members :: Placed(e);
        return null;
      }
      ghost var b := BucketFor(key);
      found := ChainFind(buckets, BucketFor(key), chains[b], key);
      if found == null {
        forall e <- members ensures e.key != key { assert Placed(e); }
      }
    }

    /** `int_map_insert`: refuses a linked entry and a key that is there already. */
    method Insert(e: Entry) returns (inserted: bool)
      requires Valid()
      modifies `chains, `members, buckets, (members + {e})`chain, (members + {e})`prevNext
      ensures Valid()
      ensures inserted <==> old(buckets.Length > 0 && e.prevNext == NoCell && forall m <- members :: m.key != e.key)
      ensures members == old(members) + if inserted then {e} else {}
      ensures inserted ==> e !in old(members)
      ensures !inserted ==> chains == old(chains)
    {
      if buckets.Length == 0 || e.prevNext != NoCell { return false; }
      var found := Find(e.key);
      if found != null { return false; }
      forall m <- members ensures m.prevNext != NoCell { LinkedHasCell(m); }
      Link(e);
      inserted := true;
    }

    /** The linking part of `int_map_insert`. */
    method Link(e: Entry)
      requires Valid() && buckets.Length > 0 && e !in members && forall m <- members :: m.key != e.key
      modifies `chains, `members, buckets, (members + {e})`chain, (members + {e})`prevNext
      ensures Valid() && members == old(members) + {e}
    {
      hide ChainsOk;
      ghost var b := BucketFor(e.key);
      ghost var had := members;
      PushInto(buckets, chains, members, BucketFor(e.key), e);
      chains := Pushed(chains, b, e);
      members := members + {e};
      forall m <- members ensures Placed(m) {
        if m in had { assert old(Placed(m)); }
      }
    }

    /** `int_map_remove`. */
    method Remove(e: Entry)
      requires Valid() && e in members
      modifies `chains, `members, buckets, members`chain, members`prevNext
      ensures Valid() && members == old(members) - {e} && e.prevNext == NoCell
      ensures |chains| == old(|chains|)
      ensures forall a | 0 <= a < |chains| && a != BucketFor(e.key) :: chains[a] == old(chains[a])
    {
      hide ChainsOk;
      ValidParts(e);
      ghost var b := BucketFor(e.key);
      ghost var k :| 0 <= k < |chains[b]| && chains[b][k] == e;
      ghost var had := members;
      PullFrom(buckets, chains, members, b, k, e);
      chains := Pulled(chains, b, k);
      members := members - {e};
      forall m <- members ensures Placed(m) {
        assert old(Placed(m));
      }
    }

    /** The inner loop of `int_map_destroy`: bucket i is emptied from its head. */
    method Drain(i: nat)
      requires Valid() && i < buckets.Length
      modifies `chains, `members, buckets, members`chain, members`prevNext
      ensures Valid() && members <= old(members) && |chains| == buckets.Length
      ensures chains == old(chains)[i := []]
      ensures forall e <- old(members) - members :: e.prevNext == NoCell
    {
      ghost var all, was := members, chains;
      while buckets[i] != null
        invariant Valid() && members <= all && |chains| == |was| == buckets.Length
        invariant forall a | 0 <= a < |was| && a != i :: chains[a] == was[a]
        invariant forall e <- all - members :: e.prevNext == NoCell
        decreases |members|
      {
        assert ChainOk(buckets, i, chains[i]);
        assert chains[i][0] in Members(chains[i]);
        Remove(buckets[i]);
      }
      assert ChainOk(buckets, i, chains[i]);
    }

    /** `int_map_destroy`: every entry ends up detached. */
    method Destroy()
      requires Valid()
      modifies `chains, `members, buckets, members`chain, members`prevNext
      ensures Valid() && members == {}
      ensures forall e <- old(members) :: e.prevNext == NoCell
    {
      ghost var all := members;
      var i := 0;
      while i < buckets.Length
        invariant i <= buckets.Length && Valid() && members <= all && |chains| == buckets.Length
        invariant forall e <- all - members :: e.prevNext == NoCell
        invariant forall a | 0 <= a < i :: chains[a] == []
      {
        Drain(i);
        i := i + 1;
      }
      assert forall e <- members :: Placed(e);
    }

  }
  // ----- the cache -----

  function KeysOf(s: seq<Entry>): (r: seq<int>)
    reads Members(s)`key
    ensures |r| == |s| && forall i | 0 <= i < |s| :: r[i] == s[i].key
  {
    if s == [] then [] else
      assert s[0] in Members(s) && Members(s[1..]) <= Members(s);
      [s[0].key] + KeysOf(s[1..])
  }

  lemma KeysRemoved(s: seq<Entry>, k: nat)
    requires k < |s|
    ensures KeysOf(Removed(s, k)) == Removed(KeysOf(s), k)
  {
    hide KeysOf, Removed;
    RemovedParts(s, k);
    RemovedParts(KeysOf(s), k);
    assert forall i | 0 <= i < |s| - 1 :: KeysOf(Removed(s, k))[i] == Removed(KeysOf(s), k)[i];
  }

  lemma KeysPushed(e: Entry, s: seq<Entry>)
    ensures KeysOf([e] + s) == [e.key] + KeysOf(s)
  {
  }

  lemma KeysWithout(s: seq<Entry>, k: nat)
    requires k < |s| && Distinct(KeysOf(s))
    ensures KeysOf(Removed(s, k)) == LruModel.Without(KeysOf(s), s[k].key)
  {
    hide KeysOf, LruModel.Without, Distinct, Removed;
    KeysRemoved(s, k);
    LruModel.WithoutAt(KeysOf(s), k);
  }

  /** A detached entry gets a key the map does not have: its insertion never fails. */
  method Register(index: IntMap, e: Entry, key: int)
    requires index.Valid() && index.buckets.Length > 0 && e.prevNext == NoCell
    requires forall m <- index.members :: m.key != key && m != e
    modifies e`key, index, index.buckets, (index.members + {e})`chain, (index.members + {e})`prevNext
    ensures index.Valid() && index.members == old(index.members) + {e} && e.key == key
  {
    hide IntMap.Valid;
    e.key := key;
    var inserted := index.Insert(e);
    assert inserted;
  }

  class LruCache {
    const recency: Entry
    const entries: seq<Entry>
    const index: IntMap
    var used: nat
    ghost var order: seq<Entry>

    /** `lru_create`. */
    constructor (capacity: nat, mix: int -> nat)
      ensures Valid() && |entries| == capacity && Keys() == [] && index.mix == mix
      ensures fresh(recency) && fresh(index) && fresh(index.buckets)
      ensures forall i | 0 <= i < |entries| :: fresh(entries[i])
    {
      hide IntMap.Valid, KeysOf;
      var head := new Entry();
      var all: seq<Entry> := [];
      while |all| < capacity
        invariant |all| <= capacity && Distinct(all) && head !in all && fresh(head)
        invariant head.next == head && head.prev == head
        invariant forall i | 0 <= i < |all| :: fresh(all[i]) && all[i].prevNext == NoCell
      {
        var e := new Entry();
        all := all + [e];
      }
      recency := head;
      entries := all;
      index := new IntMap(capacity, mix);
      used := 0;
      order := [];
      new;
      assert Linked(recency, [], -1);
    }

    /** The keys on the list, most recently used first. */
    ghost function Keys(): seq<int>
      reads this, Members(order)`key
    {
      KeysOf(order)
    }

    /** What no operation changes. */
    ghost predicate Fixed()
      reads `used
    {
      && Distinct(entries) && recency !in entries
      && |entries| == index.buckets.Length && used <= |entries|
    }

    /** Entries that were never handed out are on no chain. */
    ghost predicate Spare()
      reads `used, Members(entries)`prevNext
    {
      used <= |entries| && forall i | used <= i < |entries| :: entries[i].prevNext == NoCell
    }

    /** `listed` is the recency list; together with `loose` it makes up entries[..used]. */
    ghost predicate Listed(loose: set<Entry>)
      reads this, ({recency} + Members(order))`prev, ({recency} + Members(order))`next
    {
      && used <= |entries| && Ring(recency, order)
      && Members(entries[..used]) == Members(order) + loose && Members(order) !! loose
      && |order| + |loose| == used
    }

    /** The list, the index and entries[..used] hold the same entries, whose keys all differ. */
    ghost predicate Valid()
      reads this, index, index.buckets, index.members, Members(entries), Members(order), recency
    {
      && Fixed() && Spare() && index.Valid() && Listed({})
      && index.members == Members(order)
    }

    /** The hit branch: the entry leaves the list. */
    method Unlist(e: Entry) returns (ghost k: nat)
      requires Fixed() && Listed({}) && e in order
      modifies `order, ({recency} + Members(order))`prev, ({recency} + Members(order))`next
      ensures Listed({e}) && Members(old(order)) == Members(order) + {e}
      ensures k < |old(order)| && old(order)[k] == e && order == Removed(old(order), k)
    {
      hide Ring, Removed, Distinct;
      k :| 0 <= k < |order| && order[k] == e;
      RingParts(recency, order);
      RemovedMembers(order, k);
      ListRemove(recency, order, k, e);
      order := Removed(order, k);
      RingParts(recency, order);
    }

    lemma ListedParts(loose: set<Entry>)
      requires Listed(loose)
      ensures Members(order) !! loose && Members(order) + loose <= Members(entries)
    {
      forall x | x in Members(order) + loose ensures x in entries { assert x in Members(entries[..used]); }
    }

    /** The entry in front of the sentinel, which is the last one, leaves the list. */
    method UnlistLast() returns (e: Entry)
      requires Fixed() && Listed({}) && used > 0
      modifies `order, ({recency} + Members(order))`prev, ({recency} + Members(order))`next
      ensures Listed({e}) && old(order) == order + [e] && e in entries
      ensures Members(old(order)) == Members(order) + {e}
    {
      ghost var was := order;
      assert entries[0] in Members(entries[..used]);
      assert Linked(recency, order, |order| - 1);
      e := recency.prev;
      assert e in Members(entries[..used]);
      ListRemove(recency, order, |order| - 1, e);
      order := Removed(order, |order| - 1);
      assert was == order + [e];
      assert Members(was) == Members(order) + {e};
    }

    /** `list_push_front` of the loose entry. */
    method Front(e: Entry)
      requires Fixed() && Listed({e})
      modifies `order, ({recency, e} + Members(order))`prev, ({recency, e} + Members(order))`next
      ensures Listed({}) && order == [e] + old(order) && Members(order) == Members(old(order)) + {e}
    {
      assert e in Members(entries[..used]);
      ListPushFront(recency, order, e);
      order := [e] + order;
    }

    /** The first part of a miss while there is room: the next entry of the array. */
    method TakeSpare() returns (e: Entry)
      requires Valid() && used < |entries|
      modifies `used, entries`prev, entries`next
      ensures Fixed() && Spare() && Listed({e}) && e in entries
      ensures index.Valid() && index.members == Members(order) && e.prevNext == NoCell
    {
      hide IntMap.Valid, Ring;
      e := entries[used];
      assert e !in entries[..used];
      used := used + 1;
      assert entries[..used] == entries[..used - 1] + [e];
      e.prev, e.next := e, e;
      assert index.Valid() && Ring(recency, order);
    }

    /** The first part of a miss when there is none: the last entry of the list, taken off both. */
    method Evict() returns (e: Entry)
      requires Valid() && used == |entries| > 0
      modifies `order, ({recency} + Members(order))`prev, ({recency} + Members(order))`next
      modifies index, index.buckets, Members(order)`chain, Members(order)`prevNext
      ensures Fixed() && Spare() && Listed({e}) && e in entries
      ensures index.Valid() && index.members == Members(order) && e.prevNext == NoCell
      ensures old(order) == order + [e]
    {
      hide IntMap.Valid, Ring, Fixed;
      e := UnlistLast();
      assert Fixed() && Spare();
      index.Remove(e);
    }

    /** The rest of a miss: the entry gets its key and its place in the index. */
    method Enter(e: Entry, key: int)
      requires Fixed() && Spare() && Listed({e}) && e in entries && |entries| > 0
      requires index.Valid() && index.members == Members(order) && e.prevNext == NoCell
      requires key !in KeysOf(order)
      modifies e`key, index, index.buckets, (Members(order) + {e})`chain, (Members(order) + {e})`prevNext
      ensures Fixed() && Spare() && Listed({e}) && e.key == key && KeysOf(order) == old(KeysOf(order))
      ensures index.Valid() && index.members == Members(order) + {e}
    {
      hide IntMap.Valid, Ring, KeysOf;
      ListedParts({e});
      forall m <- index.members ensures m.key != key && m != e {
        assert m in order;
        var i :| 0 <= i < |order| && order[i] == m;
        assert KeysOf(order)[i] == m.key;
      }
      Register(index, e, key);
    }

    lemma ValidParts()
      requires Valid()
      ensures Fixed() && Spare() && index.Valid() && Listed({}) && index.members == Members(order)
      ensures Members(order) <= Members(entries) && recency !in entries
    {
      forall e <- order ensures e in entries { assert e in Members(entries[..used]); }
    }

    lemma KeysDistinct()
      requires Valid()
      ensures Distinct(Keys())
    {
      forall i, j | 0 <= i < j < |order| ensures Keys()[i] != Keys()[j] {
        assert order[i] in index.members && order[j] in index.members;
      }
    }

    /** What `Valid` says of the keys. */
    lemma KeysOk()
      requires Valid()
      ensures Distinct(Keys()) && |Keys()| == used <= |entries|
      ensures forall key :: key in Keys() <==> exists e :: e in index.members && e.key == key
    {
      KeysDistinct();
      assert forall e <- order :: e in index.members;
    }

    /** The state between the two halves of a request: e is in the index and not on the list. */
    ghost predicate Loose(e: Entry)
      reads this, index, index.buckets, index.members, Members(entries), Members(order), recency
    {
      && Fixed() && Spare() && index.Valid() && Listed({e})
      && index.members == Members(order) + {e} && e in entries
    }

    /** The hit branch of `lru_access`. */
    method Hit(e: Entry)
      requires Valid() && e in index.members
      modifies `order, recency`prev, recency`next, entries`prev, entries`next
      ensures Loose(e) && KeysOf(order) == LruModel.Without(old(Keys()), e.key)
    {
      hide IntMap.Valid, Ring, KeysOf, Listed, Fixed, Spare;
      ValidParts();
      KeysDistinct();
      assert e in Members(entries);
      ghost var k := Unlist(e);
      assert index.Valid();
      assert Fixed() && Spare();
      KeysWithout(old(order), k);
    }

    /** The miss branch of `lru_access`. */
    method Miss(key: int) returns (e: Entry)
      requires Valid() && key !in Keys() && |entries| > 0
      modifies this, recency, entries, index, index.buckets
      ensures Loose(e) && e.key == key
      ensures KeysOf(order) == LruModel.Take(old(Keys()), |entries| - 1)
    {
      hide IntMap.Valid, Ring, KeysOf, Listed, Spare;
      ValidParts();
      ghost var was := order;
      if used < |entries| {
        e := TakeSpare();
      } else {
        e := Evict();
        assert order == was[..|was| - 1];
      }
      assert KeysOf(order) == LruModel.Take(old(Keys()), |entries| - 1);
      Enter(e, key);
    }

    /** The last step of `lru_access`: the loose entry goes to the front of the list. */
    method Settle(e: Entry)
      requires Loose(e)
      modifies `order, recency`prev, recency`next, entries`prev, entries`next
      ensures Valid() && Keys() == [e.key] + old(KeysOf(order))
    {
      hide IntMap.Valid, Ring, KeysOf, Listed, Fixed, Spare;
      ListedParts({e});
      Front(e);
      KeysPushed(e, old(order));
    }

    /** `lru_access`. */
    method Access(key: int) returns (hit: bool)
      requires Valid()
      modifies this, recency, entries, index, index.buckets
      ensures Valid() && hit == (key in old(Keys()))
      ensures Keys() == LruModel.Access(|entries|, old(Keys()), key)
    {
      hide IntMap.Valid, Ring, KeysOf, Members, Loose, LruModel.Access, LruModel.Without, LruModel.Take, Distinct;
      KeysOk();
      LruModel.AccessCases(|entries|, Keys(), key);
      if |entries| == 0 { return false; }
      var found := index.Find(key);
      var e: Entry;
      if found != null {
        e := found;
        Hit(e);
      } else {
        e := Miss(key);
      }
      Settle(e);
      hit := found != null;
    }
  }

  /** The request loop of `main`: a cache no larger than the number of requests, one access per
      request, the hits counted. */
  method RunRequests(capacity: nat, mix: int -> nat, requests: seq<int>) returns (hits: nat)
    ensures hits == LruModel.Hits(capacity, requests)
  {
    hide LruModel.Access, LruModel.Run, LruModel.Hits, LruCache.Valid;
    var limit := if capacity < |requests| then capacity else |requests|;
    var cache := new LruCache(limit, mix);
    hits := 0;
    LruModel.Start(limit);
    for i := 0 to |requests|
      invariant cache.Valid() && |cache.entries| == limit
      invariant fresh(cache) && fresh(cache.recency) && fresh(cache.index) && fresh(cache.index.buckets)
      invariant forall i | 0 <= i < |cache.entries| :: fresh(cache.entries[i])
      invariant cache.Keys() == LruModel.Run(limit, requests[..i])
      invariant hits == LruModel.Hits(limit, requests[..i])
    {
      LruModel.Next(limit, requests, i);
      var hit := cache.Access(requests[i]);
      if hit { hits := hits + 1; }
    }
    assert requests[..|requests|] == requests;
    LruModel.ClampingIsHarmless(capacity, requests);
  }
}
