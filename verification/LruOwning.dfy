/** The cache that owns its nodes, entries and map entries: every one of them comes from an allocation
    that may fail. */
module LruOwning {
  import opened Base
  import opened CHeap
  import opened Seqs
  import opened OwningList
  import opened OwningMap
  import LruModel

  // ----- how the three parts fit together -----

  datatype CacheEntry = CacheEntry(key: int, page: int)

  /** Every node carries an entry of its own, and every entry is on a node. */
  predicate Backed(nodes: seq<ListNode>, entries: map<Addr, CacheEntry>) {
    && (forall i | 0 <= i < |nodes| :: nodes[i].value in entries)
    && (forall i, j | 0 <= i < j < |nodes| :: nodes[i].value != nodes[j].value)
    && forall a | a in entries :: Carried(nodes, a)
  }

  predicate Carried(nodes: seq<ListNode>, a: Addr) {
    exists i :: 0 <= i < |nodes| && nodes[i].value == a
  }

  /** The cached pages, most recently used first. */
  function Contents(nodes: seq<ListNode>, entries: map<Addr, CacheEntry>): (c: seq<CacheEntry>)
    requires Backed(nodes, entries)
    ensures |c| == |nodes| && forall i | 0 <= i < |nodes| :: c[i] == entries[nodes[i].value]
  {
    seq(|nodes|, i requires 0 <= i < |nodes| => entries[nodes[i].value])
  }

  function KeysOf(c: seq<CacheEntry>): (keys: seq<int>)
    ensures |keys| == |c| && forall i | 0 <= i < |c| :: keys[i] == c[i].key
  {
    seq(|c|, i requires 0 <= i < |c| => c[i].key)
  }

  predicate Cached(c: seq<CacheEntry>, key: int) {
    exists i :: 0 <= i < |c| && c[i].key == key
  }

  /** The index maps exactly the keys of c, each to the address at the same place. */
  predicate Points(c: seq<CacheEntry>, nodes: seq<ListNode>, index: map<int, MapEntry>) {
    && |c| == |nodes|
    && (forall i | 0 <= i < |c| :: PointsAt(c[i].key, nodes[i].addr, index))
    && forall k | k in index :: Cached(c, k)
  }

  predicate PointsAt(key: int, a: Addr, index: map<int, MapEntry>) {
    key in index && index[key].value == a
  }

  predicate Coherent(nodes: seq<ListNode>, entries: map<Addr, CacheEntry>, index: map<int, MapEntry>) {
    Apart(nodes) && Backed(nodes, entries) && Points(Contents(nodes, entries), nodes, index)
  }

  lemma BackedPush(nodes: seq<ListNode>, entries: map<Addr, CacheEntry>, node: ListNode, e: CacheEntry)
    requires Backed(nodes, entries) && node.value !in entries
    ensures Backed([node] + nodes, entries[node.value := e])
    ensures Contents([node] + nodes, entries[node.value := e]) == [e] + Contents(nodes, entries)
  {
    var nodes', entries' := [node] + nodes, entries[node.value := e];
    assert forall i | 1 <= i < |nodes'| :: nodes'[i] == nodes[i - 1];
    forall a | a in entries' ensures Carried(nodes', a) {
      if a == node.value {
        assert nodes'[0].value == a;
      } else {
        var i :| 0 <= i < |nodes| && nodes[i].value == a;
        assert nodes'[i + 1].value == a;
      }
    }
  }

  lemma PointsPush(c: seq<CacheEntry>, nodes: seq<ListNode>, index: map<int, MapEntry>, e: CacheEntry,
      node: ListNode, m: MapEntry)
    requires Points(c, nodes, index) && e.key !in index && m.value == node.addr
    ensures Points([e] + c, [node] + nodes, index[e.key := m])
  {
    var c', nodes', index' := [e] + c, [node] + nodes, index[e.key := m];
    forall i | 0 <= i < |c'| ensures PointsAt(c'[i].key, nodes'[i].addr, index') {
      if i > 0 { assert PointsAt(c[i - 1].key, nodes[i - 1].addr, index); }
    }
    forall k | k in index' ensures Cached(c', k) {
      if k == e.key {
        assert c'[0].key == k;
      } else {
        var i :| 0 <= i < |c| && c[i].key == k;
        assert c'[i + 1].key == k;
      }
    }
  }

  lemma CoherentPush(nodes: seq<ListNode>, entries: map<Addr, CacheEntry>, index: map<int, MapEntry>,
      node: ListNode, e: CacheEntry, m: MapEntry)
    requires Coherent(nodes, entries, index) && e.key !in index
    requires node.addr !in Addrs(nodes) && node.value !in entries && m.value == node.addr
    ensures Coherent([node] + nodes, entries[node.value := e], index[e.key := m])
    ensures Contents([node] + nodes, entries[node.value := e]) == [e] + Contents(nodes, entries)
  {
    hide Points, Backed, Contents;
    BackedPush(nodes, entries, node, e);
    PointsPush(Contents(nodes, entries), nodes, index, e, node, m);
    assert forall i | 0 <= i < |nodes| :: nodes[i].addr in Addrs(nodes);
  }

  lemma BackedRemoved(nodes: seq<ListNode>, entries: map<Addr, CacheEntry>, k: nat)
    requires Backed(nodes, entries) && k < |nodes|
    ensures Backed(Removed(nodes, k), entries - {nodes[k].value})
  {
    hide Removed;
    RemovedParts(nodes, k);
    var nodes', entries' := Removed(nodes, k), entries - {nodes[k].value};
    forall a | a in entries' ensures Carried(nodes', a) {
      assert Carried(nodes, a);
      var i :| 0 <= i < |nodes| && nodes[i].value == a;
      assert nodes'[if i < k then i else i - 1].value == a;
    }
  }

  lemma ContentsRemoved(nodes: seq<ListNode>, entries: map<Addr, CacheEntry>, k: nat)
    requires Backed(nodes, entries) && k < |nodes|
    requires Backed(Removed(nodes, k), entries - {nodes[k].value})
    ensures Contents(Removed(nodes, k), entries - {nodes[k].value}) == Removed(Contents(nodes, entries), k)
  {
  }

  lemma PointsRemoved(c: seq<CacheEntry>, nodes: seq<ListNode>, index: map<int, MapEntry>, k: nat)
    requires Points(c, nodes, index) && Apart(nodes) && k < |nodes|
    ensures Points(Removed(c, k), Removed(nodes, k), index - {c[k].key})
  {
    var c', nodes', index' := Removed(c, k), Removed(nodes, k), index - {c[k].key};
    forall i | 0 <= i < |c'| ensures PointsAt(c'[i].key, nodes'[i].addr, index') {
      var j := if i < k then i else i + 1;
      assert c'[i] == c[j] && nodes'[i] == nodes[j] && nodes[j].addr != nodes[k].addr;
      assert PointsAt(c[j].key, nodes[j].addr, index) && PointsAt(c[k].key, nodes[k].addr, index);
    }
    forall x | x in index' ensures Cached(c', x) {
      var i :| 0 <= i < |c| && c[i].key == x;
      assert c'[if i < k then i else i - 1].key == x;
    }
  }

  lemma CoherentRemoved(nodes: seq<ListNode>, entries: map<Addr, CacheEntry>, index: map<int, MapEntry>, k: nat)
    requires Coherent(nodes, entries, index) && k < |nodes|
    ensures nodes[k].value in entries
    ensures var e := nodes[k].value;
            && Coherent(Removed(nodes, k), entries - {e}, index - {entries[e].key})
            && Contents(Removed(nodes, k), entries - {e}) == Removed(Contents(nodes, entries), k)
  {
    hide Points;
    AddrsRemoved(nodes, k);
    BackedRemoved(nodes, entries, k);
    ContentsRemoved(nodes, entries, k);
    PointsRemoved(Contents(nodes, entries), nodes, index, k);
  }

  lemma CoherentAt(nodes: seq<ListNode>, entries: map<Addr, CacheEntry>, index: map<int, MapEntry>, k: nat)
    requires Coherent(nodes, entries, index) && k < |nodes|
    ensures Backed(nodes, entries) && Apart(nodes) && nodes[k].value in entries
    ensures var x := entries[nodes[k].value];
            Contents(nodes, entries)[k] == x && PointsAt(x.key, nodes[k].addr, index)
  {
    assert PointsAt(Contents(nodes, entries)[k].key, nodes[k].addr, index);
  }

  lemma CoherentMoved(nodes: seq<ListNode>, entries: map<Addr, CacheEntry>, index: map<int, MapEntry>, k: nat)
    requires Coherent(nodes, entries, index) && k < |nodes|
    ensures var nodes' := [nodes[k]] + Removed(nodes, k); var c := Contents(nodes, entries);
            Coherent(nodes', entries, index) && Contents(nodes', entries) == [c[k]] + Removed(c, k)
  {
    hide Coherent, Backed, Contents, Removed;
    CoherentAt(nodes, entries, index, k);
    var e := nodes[k].value;
    var x := entries[e];
    CoherentRemoved(nodes, entries, index, k);
    AddrsRemoved(nodes, k);
    CoherentPush(Removed(nodes, k), entries - {e}, index - {x.key}, nodes[k], x, index[x.key]);
    assert (entries - {e})[e := x] == entries;
    assert (index - {x.key})[x.key := index[x.key]] == index;
  }

  lemma KeysDistinct(nodes: seq<ListNode>, entries: map<Addr, CacheEntry>, index: map<int, MapEntry>)
    requires Coherent(nodes, entries, index)
    ensures Distinct(KeysOf(Contents(nodes, entries)))
    ensures forall k :: k in index <==> k in KeysOf(Contents(nodes, entries))
  {
    var c := Contents(nodes, entries);
    forall i | 0 <= i < |c| ensures KeysOf(c)[i] in index { assert PointsAt(c[i].key, nodes[i].addr, index); }
    forall i, j | 0 <= i < j < |c| ensures c[i].key != c[j].key {
      assert PointsAt(c[i].key, nodes[i].addr, index) && PointsAt(c[j].key, nodes[j].addr, index);
    }
    forall k | k in index ensures k in KeysOf(c) {
      var i :| 0 <= i < |c| && c[i].key == k;
      assert KeysOf(c)[i] == k;
    }
  }

  // ----- the cache -----

  datatype LruResult = HIT | MISS | NO_MEMORY | INVALID_ARGUMENT | INDEX_ERROR

  /** What `value` points to. */
  class PageSlot {
    var page: int
  }

  /** Four owners' addresses, no two alike, all of them allocated. */
  predicate Parts(self: Addr, list: set<Addr>, map_: set<Addr>, entries: set<Addr>, live: set<Addr>) {
    && self !in list && self !in map_ && self !in entries
    && list !! map_ && list !! entries && map_ !! entries
    && self in live && list <= live && map_ <= live && entries <= live
  }

  /** The first n pages. */
  function Newest(c: seq<CacheEntry>, n: nat): seq<CacheEntry> {
    if |c| <= n then c else c[..n]
  }

  /** The page cached for a key. */
  function PageOf(c: seq<CacheEntry>, key: int): int
    requires key in KeysOf(c)
  {
    if c[0].key == key then c[0].page else
      assert KeysOf(c) == [c[0].key] + KeysOf(c[1..]);
      PageOf(c[1..], key)
  }

  lemma {:induction false} PageAt(c: seq<CacheEntry>, k: nat)
    requires Distinct(KeysOf(c)) && k < |c|
    ensures KeysOf(c)[k] in KeysOf(c) && PageOf(c, c[k].key) == c[k].page
  {
    assert KeysOf(c)[k] in KeysOf(c);
    if k > 0 {
      assert c[0].key == KeysOf(c)[0] != KeysOf(c)[k];
      assert KeysOf(c[1..]) == KeysOf(c)[1..];
      PageAt(c[1..], k - 1);
    }
  }

  lemma HitKeys(c: seq<CacheEntry>, k: nat, capacity: nat)
    requires Distinct(KeysOf(c)) && k < |c| <= capacity
    ensures KeysOf([c[k]] + Removed(c, k)) == LruModel.Access(capacity, KeysOf(c), c[k].key)
  {
    hide Distinct, LruModel.Access, LruModel.Without;
    LruModel.AccessCases(capacity, KeysOf(c), c[k].key);
    LruModel.WithoutAt(KeysOf(c), k);
    var keys, moved := KeysOf(c), KeysOf([c[k]] + Removed(c, k));
    assert keys[k] in keys;
    forall i | 0 <= i < |c| ensures moved[i] == ([keys[k]] + (keys[..k] + keys[k + 1..]))[i] {
      RemovedParts(c, k);
      RemovedParts(keys, k);
    }
  }

  lemma MissKeys(c: seq<CacheEntry>, e: CacheEntry, capacity: nat)
    requires Distinct(KeysOf(c)) && e.key !in KeysOf(c) && |c| <= capacity
    ensures KeysOf(Newest([e] + c, capacity)) == LruModel.Access(capacity, KeysOf(c), e.key)
  {
    hide Distinct, LruModel.Access;
    LruModel.AccessCases(capacity, KeysOf(c), e.key);
    assert KeysOf([e] + c) == [e.key] + KeysOf(c);
    assert KeysOf(Newest([e] + c, capacity)) == LruModel.Take(KeysOf([e] + c), capacity);
  }

  /** A new page in the entry of the first node changes nothing else. */
  lemma CoherentReloaded(nodes: seq<ListNode>, entries: map<Addr, CacheEntry>, index: map<int, MapEntry>, page: int)
    requires Coherent(nodes, entries, index) && nodes != []
    ensures nodes[0].value in entries
    ensures var e := nodes[0].value;
            var entries' := entries[e := entries[e].(page := page)];
            && Coherent(nodes, entries', index)
            && Contents(nodes, entries') == Contents(nodes, entries)[0 := entries[e].(page := page)]
  {
    var e := nodes[0].value;
    var c, c' := Contents(nodes, entries), Contents(nodes, entries[e := entries[e].(page := page)]);
    assert c' == c[0 := entries[e].(page := page)];
    forall i | 0 <= i < |c'| ensures PointsAt(c'[i].key, nodes[i].addr, index) {
      assert PointsAt(c[i].key, nodes[i].addr, index);
    }
    forall k | k in index ensures Cached(c', k) {
      assert Cached(c, k);
      var i :| 0 <= i < |c| && c[i].key == k;
      assert c'[i].key == k;
    }
  }

  lemma CoherentBacked(nodes: seq<ListNode>, entries: map<Addr, CacheEntry>, index: map<int, MapEntry>)
    requires Coherent(nodes, entries, index)
    ensures Backed(nodes, entries) && Apart(nodes)
  {
  }

  class LruCache {
    const memory: Memory
    const self: Addr
    const recency: List
    const index: HashMap
    const capacity: nat
    var size: nat
    var entries: map<Addr, CacheEntry>

    constructor (memory: Memory, self: Addr, recency: List, index: HashMap, capacity: nat)
      requires recency.memory == index.memory == memory && recency.Valid() && index.Valid()
      requires recency.nodes == [] && index.index == map[]
      requires Parts(self, recency.Owned(), index.Owned(), {}, memory.live)
      ensures Valid() && Pages() == [] && Owned() == {self} + recency.Owned() + index.Owned()
      ensures this.memory == memory && this.self == self && this.recency == recency && this.index == index
      ensures this.capacity == capacity
    {
      this.memory, this.self, this.recency, this.index := memory, self, recency, index;
      this.capacity, size, entries := capacity, 0, map[];
      new;
      assert Coherent([], map[], map[]);
    }

    ghost function Owned(): set<Addr>
      reads `entries, recency, index
    {
      {self} + recency.Owned() + index.Owned() + entries.Keys
    }

    /** What is allocated and not this cache's: no operation may touch it, and none may leak into it. */
    ghost function Others(): set<Addr>
      reads `entries, recency, index, memory
    {
      memory.live - Owned()
    }

    /** List, index and entries agree, and everything they are made of is allocated once. */
    ghost predicate Core()
      reads this, recency, index, memory
    {
      && recency.memory == memory && index.memory == memory
      && recency.Valid() && index.Valid()
      && Coherent(recency.nodes, entries, index.index)
      && Parts(self, recency.Owned(), index.Owned(), entries.Keys, memory.live)
    }

    ghost predicate Valid()
      reads this, recency, index, memory
    {
      Core() && size == |recency.nodes| <= capacity
    }

    ghost function Pages(): seq<CacheEntry>
      requires Backed(recency.nodes, entries)
      reads this, recency
    {
      Contents(recency.nodes, entries)
    }

    /** Order, index, entries and allocations are these. */
    ghost predicate Unchanged(
      nodes: seq<ListNode>, index0: map<int, MapEntry>, entries0: map<Addr, CacheEntry>, live: set<Addr>)
      reads this, recency, index, memory
    {
      recency.nodes == nodes && index.index == index0 && entries == entries0 && memory.live == live
    }

    /** What belongs to node k: its entry, its place in the index, and who owns the three addresses. */
    lemma NodeParts(k: nat)
      requires Core() && k < |recency.nodes|
      ensures Backed(recency.nodes, entries) && Apart(recency.nodes)
      ensures recency.nodes[k].value in entries && recency.nodes[k].addr in recency.Owned()
      ensures var key := entries[recency.nodes[k].value].key;
              key in index.index && index.index[key].addr in index.Owned()
    {
      assert PointsAt(Pages()[k].key, recency.nodes[k].addr, index.index);
    }

    lemma NodesBacked()
      requires Core()
      ensures Backed(recency.nodes, entries) && |Pages()| == |recency.nodes|
      ensures forall i | 0 <= i < |recency.nodes| :: recency.nodes[i].value in entries
      ensures forall i | 0 <= i < |recency.nodes| :: Pages()[i] == entries[recency.nodes[i].value]
    {
    }

    /** The loaded page goes into the newest entry. */
    method SetPage(entry: Addr, page: int)
      requires Core() && recency.nodes != [] && recency.nodes[0].value == entry
      modifies `entries
      ensures Core() && Others() == old(Others()) && entry in old(entries)
      ensures Pages() == old(Pages())[0 := CacheEntry(old(entries)[entry].key, page)]
    {
      hide List.Formed, HashMap.Formed, List.Owned, HashMap.Owned, Coherent, Contents, Backed;
      CoherentReloaded(recency.nodes, entries, index.index, page);
      entries := entries[entry := entries[entry].(page := page)];
      assert entries.Keys == old(entries.Keys);
    }

    /** `evict_oldest`. */
    method EvictOldest()
      requires Core() && |recency.nodes| > 0 && size > 0
      modifies `size, `entries, recency, index, memory`live
      ensures Core() && size == old(size) - 1 && memory.calls == old(memory.calls)
      ensures recency.nodes == old(recency.nodes[..|recency.nodes| - 1])
      ensures Pages() == old(Pages()[..|recency.nodes| - 1])
      ensures Others() == old(Others())
    {
      hide List.Formed, HashMap.Formed, List.Owned, HashMap.Owned, Coherent, Contents, Backed, Addrs, Position, Cells;
      ghost var last: nat := |recency.nodes| - 1;
      NodeParts(last);
      CoherentRemoved(recency.nodes, entries, index.index, last);
      PositionAt(recency.nodes, last);
      var node := recency.Back();
      var entry := recency.ValueOf(node, last);
      var removed := index.Remove(entries[entry].key);
      recency.Remove(node);
      memory.Free(entry);
      entries := entries - {entry};
      size := size - 1;
      assert Parts(self, recency.Owned(), index.Owned(), entries.Keys, memory.live);
    }

    /** A node for the entry and a map entry for the node, or neither. */
    method Link(key: int, entry: Addr) returns (result: HashMapResult)
      requires recency.memory == memory && index.memory == memory && recency.Valid() && index.Valid()
      requires Parts(self, recency.Owned(), index.Owned(), entries.Keys, memory.live) && key !in index.index
      modifies recency, index, memory
      ensures recency.Valid() && index.Valid() && !result.Duplicate?
      ensures Parts(self, recency.Owned(), index.Owned(), entries.Keys, memory.live)
      ensures result.Inserted? <==> Grants(memory.place, old(memory.live), old(memory.calls), 2)
      ensures result.NoMemory? ==> recency.nodes == old(recency.nodes) && index.index == old(index.index)
      ensures Others() == old(Others())
      ensures result.NoMemory? ==> memory.live == old(memory.live)
      ensures result.NoMemory? ==> recency.Owned() == old(recency.Owned()) && index.Owned() == old(index.Owned())
      ensures result.Inserted? ==> key in index.index && index.index == old(index.index)[key := index.index[key]]
      ensures result.Inserted? ==> index.index[key].value !in old(Addrs(recency.nodes))
      ensures result.Inserted? ==> recency.nodes == [ListNode(index.index[key].value, entry)] + old(recency.nodes)
    {
      hide List.Formed, HashMap.Formed, List.Owned, HashMap.Owned, Grants;
      Grants2(memory.place, memory.live, memory.calls);
      recency.Parts();
      var node := recency.PushFront(entry);
      if node.None? { return NoMemory; }
      result := index.Insert(key, node.value);
      if !result.Inserted? {
        recency.Parts();
        PositionAt(recency.nodes, 0);
        assert Removed(recency.nodes, 0) == old(recency.nodes);
        recency.Remove(node.value);
      }
    }

    /** The fallible half of `insert_page`: entry, node and map entry, or nothing at all. */
    method Allocate(key: int) returns (r: LruResult, entry: Addr)
      requires Core() && key !in index.index
      modifies `entries, recency, index, memory
      ensures Core() && Others() == old(Others())
      ensures r == if Grants(memory.place, old(memory.live), old(memory.calls), 3) then MISS else NO_MEMORY
      ensures r == NO_MEMORY ==> Pages() == old(Pages()) && |recency.nodes| == old(|recency.nodes|)
      ensures r == NO_MEMORY ==> Unchanged(old(recency.nodes), old(index.index), old(entries), old(memory.live))
      ensures r == MISS ==> entry in entries && |recency.nodes| == old(|recency.nodes|) + 1
      ensures r == MISS ==> recency.nodes[0].value == entry && Pages() == [entries[entry]] + old(Pages())
      ensures r == MISS ==> entries[entry].key == key
    {
      hide List.Formed, HashMap.Formed, List.Owned, HashMap.Owned, Coherent, Contents, Backed, Grants, Addrs;
      GrantsStep(memory.place, memory.live, memory.calls, 2);
      CoherentBacked(recency.nodes, entries, index.index);
      var e := memory.Malloc();
      if e.None? { return NO_MEMORY, 0; }
      entry := e.value;
      entries := entries[entry := CacheEntry(key, 0)];
      var result := Link(key, entry);
      if !result.Inserted? {
        memory.Free(entry);
        entries := entries - {entry};
        assert entries == old(entries);
        return if result.NoMemory? then NO_MEMORY else INDEX_ERROR, 0;
      }
      CoherentPush(old(recency.nodes), old(entries), old(index.index),
        recency.nodes[0], CacheEntry(key, 0), index.index[key]);
      r := MISS;
    }

    /** The last lines of `insert_page`: the new page is counted once the oldest one has made room. */
    method MakeRoom()
      requires Core() && size + 1 == |recency.nodes| <= capacity + 1 && capacity > 0
      modifies `size, `entries, recency, index, memory`live
      ensures Valid() && Others() == old(Others()) && recency.nodes != []
      ensures recency.nodes[0] == old(recency.nodes[0]) && Pages() == Newest(old(Pages()), capacity)
    {
      hide List.Formed, HashMap.Formed, List.Owned, HashMap.Owned, Coherent, Contents, Backed, Addrs, Parts, Others;
      NodesBacked();
      if size == capacity { EvictOldest(); }
      size := size + 1;
    }

    /** `insert_page`: `loads` is how often the loader ran. */
    method InsertPage(key: int, loader: int -> int, value: PageSlot) returns (r: LruResult, loads: nat)
      requires Valid() && capacity > 0 && key !in index.index
      modifies `size, `entries, recency, index, memory, value
      ensures Valid() && Others() == old(Others())
      ensures r == if Grants(memory.place, old(memory.live), old(memory.calls), 3) then MISS else NO_MEMORY
      ensures r == NO_MEMORY ==> Pages() == old(Pages()) && value.page == old(value.page) && loads == 0
      ensures r == NO_MEMORY ==> Unchanged(old(recency.nodes), old(index.index), old(entries), old(memory.live))
      ensures r == MISS ==> value.page == loader(key) && loads == 1
      ensures r == MISS ==> Pages() == [CacheEntry(key, loader(key))] + Newest(old(Pages()), capacity - 1)
    {
      hide List.Formed, HashMap.Formed, List.Owned, HashMap.Owned, Coherent, Contents, Backed, Grants, Addrs, Parts,
        Others;
      NodesBacked();
      var entry: Addr;
      r, entry := Allocate(key);
      if r != MISS { return r, 0; }
      SetPage(entry, loader(key));
      MakeRoom();
      NodesBacked();
      value.page := entries[entry].page;
      loads := 1;
    }

    /** The keys of the cached pages. */
    ghost function Keys(): seq<int>
      requires Backed(recency.nodes, entries)
      reads this, recency
    {
      KeysOf(Pages())
    }

    /** The hit branch of `lookup_update`. */
    method Hit(node: Addr, ghost k: nat, value: PageSlot)
      requires Valid() && k < |recency.nodes| && recency.nodes[k].addr == node
      modifies recency, value
      ensures Valid() && Others() == old(Others())
      ensures value.page == old(Pages())[k].page
      ensures Pages() == [old(Pages())[k]] + Removed(old(Pages()), k)
    {
      hide HashMap.Formed, HashMap.Owned, Coherent, Contents, Backed, Addrs, Parts;
      NodeParts(k);
      NodesBacked();
      PositionAt(recency.nodes, k);
      CoherentMoved(recency.nodes, entries, index.index, k);
      recency.MoveFront(node);
      var entry := recency.ValueOf(node, 0);
      value.page := entries[entry].page;
    }

    /** `lookup_update` once its arguments have been found to be there. */
    method Request(key: int, loader: int -> int, value: PageSlot) returns (r: LruResult, loads: nat)
      requires Valid()
      modifies `size, `entries, recency, index, memory, value
      ensures Valid() && Others() == old(Others())
      ensures r == (
        if key in old(Keys()) then HIT
        else if capacity == 0 || Grants(memory.place, old(memory.live), old(memory.calls), 3) then MISS
        else NO_MEMORY)
      ensures r == NO_MEMORY ==> Pages() == old(Pages()) && value.page == old(value.page)
      ensures r == NO_MEMORY ==> Unchanged(old(recency.nodes), old(index.index), old(entries), old(memory.live))
      ensures loads == if r == MISS then 1 else 0
      ensures r == HIT ==> value.page == PageOf(old(Pages()), key) && multiset(Pages()) == multiset(old(Pages()))
      ensures r == MISS ==> value.page == loader(key)
      ensures r == MISS ==> Pages() == Newest([CacheEntry(key, loader(key))] + old(Pages()), capacity)
      ensures r != NO_MEMORY ==> Keys() == LruModel.Access(capacity, old(Keys()), key)
    {
      hide List.Formed, HashMap.Formed, List.Owned, HashMap.Owned, Coherent, Contents, Backed, Grants, Addrs, Parts,
        Others, KeysOf;
      NodesBacked();
      KeysDistinct(recency.nodes, entries, index.index);
      if key !in Keys() { MissKeys(Pages(), CacheEntry(key, loader(key)), capacity); }
      if capacity == 0 {
        value.page := loader(key);
        return MISS, 1;
      }
      var found := index.Find(key);
      if found.Some? {
        ghost var k := NodeOf(key);
        HitKeys(Pages(), k, capacity);
        PageAt(Pages(), k);
        RemovedMultiset(Pages(), k);
        Hit(found.value, k, value);
        return HIT, 0;
      }
      r, loads := InsertPage(key, loader, value);
    }

    /** Where the node of an indexed key is. */
    lemma NodeOf(key: int) returns (k: nat)
      requires Core() && key in index.index
      ensures Backed(recency.nodes, entries)
      ensures k < |recency.nodes| && recency.nodes[k].addr == index.index[key].value && Pages()[k].key == key
    {
      assert Cached(Pages(), key);
      k :| 0 <= k < |recency.nodes| && Pages()[k].key == key;
      assert PointsAt(Pages()[k].key, recency.nodes[k].addr, index.index);
    }

    /** `lru_destroy`: everything the cache owns is freed, each piece once, and nothing else. */
    method Destroy()
      requires Valid()
      modifies `size, `entries, recency, index, memory`live
      ensures memory.live == old(memory.live) - old(Owned()) == old(Others())
    {
      hide List.Formed, HashMap.Formed, List.Owned, HashMap.Owned, Coherent, Contents, Backed, Addrs;
      ghost var all := Owned();
      NodesBacked();
      var empty := recency.Empty();
      while !empty
        invariant Valid() && Others() == old(Others())
        invariant empty <==> recency.nodes == []
        decreases |recency.nodes|
      {
        EvictOldest();
        NodesBacked();
        empty := recency.Empty();
      }
      NoEntries();
      recency.Destroy();
      index.Destroy();
      memory.Free(self);
    }

    lemma NoEntries()
      requires Core() && recency.nodes == []
      ensures entries.Keys == {}
    {
      assert forall a | a in entries :: Carried(recency.nodes, a);
    }

    /** `lru_create`: all of the cache or nothing of it. */
    static method Create(memory: Memory, capacity: nat, mix: int -> nat) returns (cache: LruCache?)
      requires memory.Sound()
      modifies memory
      ensures cache == null ==> memory.live == old(memory.live)
      ensures cache != null ==> (
        && fresh(cache) && fresh(cache.recency) && fresh(cache.index) && cache.memory == memory
        && cache.capacity == capacity && cache.Valid() && cache.Pages() == []
        && cache.Others() == old(memory.live))
      ensures cache != null <==> (
        Grants(memory.place, old(memory.live), old(memory.calls), 4) && capacity <= SIZE_MAX / POINTER_SIZE)
    {
      hide Grants;
      GrantsStep(memory.place, memory.live, memory.calls, 3);
      var self := memory.Malloc();
      if self.None? { return null; }
      cache := Assemble(memory, self.value, capacity, mix);
    }

    /** The rest of `lru_create` once the cache itself is allocated: list and map, or the cache is freed again. */
    static method Assemble(memory: Memory, self: Addr, capacity: nat, mix: int -> nat) returns (cache: LruCache?)
      requires memory.Sound() && self in memory.live
      modifies memory
      ensures cache == null ==> memory.live == old(memory.live) - {self}
      ensures cache != null ==> (
        && fresh(cache) && fresh(cache.recency) && fresh(cache.index) && cache.memory == memory
        && cache.capacity == capacity && cache.Valid() && cache.Pages() == []
        && cache.Others() == old(memory.live) - {self})
      ensures cache != null <==> (
        Grants(memory.place, old(memory.live), old(memory.calls), 3) && capacity <= SIZE_MAX / POINTER_SIZE)
    {
      hide Grants, List.Formed, List.Owned, HashMap.Formed, HashMap.Owned;
      GrantsStep(memory.place, memory.live, memory.calls, 2);
      var recency := List.Create(memory);
      var index := HashMap.Create(memory, if capacity > 0 then capacity else 1, mix);
      if recency == null || index == null {
        if recency != null { recency.Destroy(); }
        if index != null { index.Destroy(); }
        memory.Free(self);
        return null;
      }
      cache := new LruCache(memory, self, recency, index, capacity);
    }
  }

  /** `lookup_update`. */
  method LookupUpdate(cache: LruCache?, key: int, loader: Option<int -> int>, value: PageSlot?)
      returns (r: LruResult, loads: nat)
    requires cache != null ==> cache.Valid()
    modifies if cache == null then {} else {cache, cache.recency, cache.index, cache.memory}, value
    ensures cache != null ==> cache.Valid() && cache.Others() == old(cache.Others())
    ensures r != INDEX_ERROR
    ensures r == INVALID_ARGUMENT <==> cache == null || value == null || loader.None?
    ensures r == INVALID_ARGUMENT || r == NO_MEMORY ==>
      && (cache != null ==> cache.Pages() == old(cache.Pages()))
      && (value != null ==> value.page == old(value.page))
    ensures cache != null && (r == INVALID_ARGUMENT || r == NO_MEMORY) ==> cache.Unchanged(
      old(cache.recency.nodes), old(cache.index.index), old(cache.entries), old(cache.memory.live))
    ensures loads == if r == MISS then 1 else 0
    ensures r == HIT || r == MISS ==>
      var keys := old(cache.Keys());
      && (r == HIT <==> key in keys) && cache.Keys() == LruModel.Access(cache.capacity, keys, key)
      && value.page == if r == HIT then PageOf(old(cache.Pages()), key) else loader.value(key)
    ensures r == NO_MEMORY ==> (
      && cache.capacity > 0 && key !in old(cache.Keys())
      && !old(Grants(cache.memory.place, cache.memory.live, cache.memory.calls, 3)))
    ensures r == HIT ==> multiset(cache.Pages()) == multiset(old(cache.Pages()))
    ensures r == MISS ==> cache.Pages() ==
                          Newest([CacheEntry(key, loader.value(key))] + old(cache.Pages()), cache.capacity)
  {
    hide List.Formed, HashMap.Formed, List.Owned, HashMap.Owned, Contents, Grants, Addrs, Parts,
      LruCache.Others, KeysOf, PageOf, LruModel.Access, Newest;
    if cache == null || value == null || loader.None? { return INVALID_ARGUMENT, 0; }
    r, loads := cache.Request(key, loader.value, value);
  }

  /** The request loop of `main`, whose loader returns the key: the number of hits, or None when an
      allocation failed. Either way nothing stays allocated. */
  method RunRequests(memory: Memory, capacity: nat, mix: int -> nat, requests: seq<int>) returns (hits: Option<nat>)
    requires memory.Sound()
    modifies memory
    ensures memory.live == old(memory.live)
    ensures hits.Some? ==> hits.value == LruModel.Hits(capacity, requests)
    ensures |requests| <= SIZE_MAX / POINTER_SIZE && (forall l: set<Addr>, n: nat :: memory.place(l, n).Some?)
        ==> hits.Some?
  {
    hide LruModel.Access, LruModel.Run, LruModel.Hits, Backed, Apart, Points, Parts, List.Formed, List.Owned,
      HashMap.Formed, HashMap.Owned, LruCache.Others, Contents, Grants, KeysOf, PageOf;
    ghost var always := forall l: set<Addr>, n: nat :: memory.place(l, n).Some?;
    if always { AlwaysGrants(memory.place, memory.live, memory.calls, 4); }
    var limit := if capacity < |requests| then capacity else |requests|;
    var cache := LruCache.Create(memory, limit, mix);
    if cache == null { return None; }
    var value := new PageSlot;
    var count := 0;
    LruModel.Start(limit);
    for i := 0 to |requests|
      invariant cache.Valid() && cache.Others() == old(memory.live)
      invariant cache.Keys() == LruModel.Run(limit, requests[..i])
      invariant count == LruModel.Hits(limit, requests[..i])
    {
      LruModel.Next(limit, requests, i);
      if always { AlwaysGrants(memory.place, memory.live, memory.calls, 3); }
      var r, loads := LookupUpdate(cache, requests[i], Some(key => key), value);
      if r != HIT && r != MISS {
        cache.Destroy();
        return None;
      }
      if r == HIT { count := count + 1; }
    }
    assert requests[..|requests|] == requests;
    LruModel.ClampingIsHarmless(capacity, requests);
    cache.Destroy();
    hits := Some(count);
  }
}
