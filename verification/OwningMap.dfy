/** The hash map that allocates its entries: chains of cells behind an array of pointers. */
module OwningMap {
  import opened Base
  import opened CHeap
  import opened Seqs

  datatype MapEntry = MapEntry(addr: Addr, key: int, value: Addr)
  datatype HashMapResult = Inserted | Duplicate | NoMemory

  function Cells(index: map<int, MapEntry>): set<Addr> {
    set k | k in index :: index[k].addr
  }

  /** Every entry is filed under its own key, and no two entries share an address. */
  predicate Filed(index: map<int, MapEntry>) {
    && (forall k | k in index :: index[k].key == k)
    && forall k, l | k in index && l in index && k != l :: index[k].addr != index[l].addr
  }

  /** A chain holds entries of the index, each key at most once. */
  predicate Chain(index: map<int, MapEntry>, c: seq<MapEntry>) {
    && (forall i | 0 <= i < |c| :: c[i].key in index && index[c[i].key] == c[i])
    && forall i, j | 0 <= i < j < |c| :: c[i].key != c[j].key
  }

  lemma ChainAdded(index: map<int, MapEntry>, c: seq<MapEntry>, e: MapEntry)
    requires Chain(index, c) && e.key !in index
    ensures Chain(index[e.key := e], c) && Chain(index[e.key := e], [e] + c)
  {
  }

  lemma ChainDropped(index: map<int, MapEntry>, c: seq<MapEntry>, key: int)
    requires Chain(index, c) && forall e <- c :: e.key != key
    ensures Chain(index - {key}, c)
  {
  }

  lemma ChainRemoved(index: map<int, MapEntry>, c: seq<MapEntry>, i: nat)
    requires Chain(index, c) && i < |c|
    ensures Chain(index - {c[i].key}, Removed(c, i)) && c[i].key in index && index[c[i].key] == c[i]
    ensures forall e <- Removed(c, i) :: e in c && e.key != c[i].key
    ensures forall e <- c :: e in Removed(c, i) || e == c[i]
  {
    var less := Removed(c, i);
    forall e <- c ensures e in less || e == c[i] {
      var j :| 0 <= j < |c| && c[j] == e;
      assert j < i ==> less[j] == e;
      assert j > i ==> less[j - 1] == e;
    }
  }

  lemma CellsAdded(index: map<int, MapEntry>, key: int, e: MapEntry)
    requires key !in index
    ensures Cells(index[key := e]) == Cells(index) + {e.addr}
  {
    var more := index[key := e];
    assert more[key] == e;
    forall a | a in Cells(index) ensures a in Cells(more) {
      var k :| k in index && index[k].addr == a;
      assert more[k] == index[k];
    }
  }

  lemma CellsDropped(index: map<int, MapEntry>, key: int)
    requires Filed(index) && key in index
    ensures Cells(index - {key}) == Cells(index) - {index[key].addr}
  {
    var less := index - {key};
    forall a | a in Cells(index) && a != index[key].addr ensures a in Cells(less) {
      var k :| k in index && index[k].addr == a;
      assert k in less && less[k] == index[k];
    }
  }

  /** A `struct HashMapEntry` in memory; no address stands for NULL. */
  datatype EntryCell = EntryCell(key: int, value: Addr, next: Option<Addr>)

  /** What points at place i of a chain. */
  function PointerTo(c: seq<MapEntry>, i: nat): Option<Addr>
    requires i <= |c|
  {
    if i < |c| then Some(c[i].addr) else None
  }

  /** Entry i of the chain is in memory and points at the next one. */
  predicate Holds(c: seq<MapEntry>, cells: map<Addr, EntryCell>, i: nat)
    requires i < |c|
  {
    c[i].addr in cells && cells[c[i].addr] == EntryCell(c[i].key, c[i].value, PointerTo(c, i + 1))
  }

  /** The chain starts at `head` and runs through these entries to a NULL. */
  predicate Linked(head: Option<Addr>, c: seq<MapEntry>, cells: map<Addr, EntryCell>) {
    head == PointerTo(c, 0) && forall i | 0 <= i < |c| :: Holds(c, cells, i)
  }

  lemma LinkedPushed(head: Option<Addr>, c: seq<MapEntry>, cells: map<Addr, EntryCell>, e: MapEntry)
    requires Linked(head, c, cells) && e.addr !in cells
    ensures Linked(Some(e.addr), [e] + c, cells[e.addr := EntryCell(e.key, e.value, head)])
  {
    var more, cells1 := [e] + c, cells[e.addr := EntryCell(e.key, e.value, head)];
    forall i | 0 <= i < |more| ensures Holds(more, cells1, i) {
      if i > 0 { assert Holds(c, cells, i - 1); }
    }
  }

  /** A chain whose cells are left alone is left alone. */
  lemma LinkedKept(head: Option<Addr>, c: seq<MapEntry>, cells: map<Addr, EntryCell>, cells1: map<Addr, EntryCell>)
    requires Linked(head, c, cells)
    requires forall e <- c :: e.addr in cells ==> e.addr in cells1 && cells1[e.addr] == cells[e.addr]
    ensures Linked(head, c, cells1)
  {
    forall i | 0 <= i < |c| ensures Holds(c, cells1, i) { assert Holds(c, cells, i); }
  }

  /** The first entry of a chain drops out. */
  lemma LinkedTail(head: Option<Addr>, c: seq<MapEntry>, cells: map<Addr, EntryCell>)
    requires Linked(head, c, cells) && c != [] && forall i, j | 0 <= i < j < |c| :: c[i].addr != c[j].addr
    ensures head == Some(c[0].addr) && c[0].addr in cells
    ensures cells[c[0].addr].key == c[0].key && cells[c[0].addr].value == c[0].value
    ensures Linked(cells[c[0].addr].next, Removed(c, 0), cells - {c[0].addr})
  {
    assert Holds(c, cells, 0);
    var less, cells1 := Removed(c, 0), cells - {c[0].addr};
    forall i | 0 <= i < |less| ensures Holds(less, cells1, i) { assert Holds(c, cells, i + 1); }
  }

  /** A later entry is bypassed: its predecessor now points behind it. */
  lemma LinkedBypass(head: Option<Addr>, c: seq<MapEntry>, cells: map<Addr, EntryCell>, k: nat)
    requires Linked(head, c, cells) && 0 < k < |c| && forall i, j | 0 <= i < j < |c| :: c[i].addr != c[j].addr
    ensures c[k - 1].addr in cells && cells[c[k - 1].addr].next == Some(c[k].addr) && c[k].addr in cells
    ensures
      var a := c[k - 1].addr;
      Linked(head, Removed(c, k), cells[a := cells[a].(next := cells[c[k].addr].next)] - {c[k].addr})
  {
    var a := c[k - 1].addr;
    assert Holds(c, cells, k - 1) && Holds(c, cells, k);
    var less, cells1 := Removed(c, k), cells[a := cells[a].(next := cells[c[k].addr].next)] - {c[k].addr};
    forall i | 0 <= i < |less| ensures Holds(less, cells1, i) { assert Holds(c, cells, if i < k then i else i + 1); }
  }

  /** Where the pointer is that `HashMapEntry **link` points to. */
  datatype Link = Bucket(b: nat) | Next(addr: Addr)

  const SIZE_MAX := 0xffff_ffff_ffff_ffff
  const POINTER_SIZE := 8

  /** `heads` is the bucket array and `cells` are the entries the map owns: following a pointer to anything else does
      not verify. */
  class HashMap {
    const memory: Memory
    const self: Addr
    const table: Addr
    const mix: int -> nat
    var heads: seq<Option<Addr>>
    var cells: map<Addr, EntryCell>
    /** The chains, and the entries by key, wherever they are chained. */
    ghost var buckets: seq<seq<MapEntry>>
    ghost var index: map<int, MapEntry>

    constructor (memory: Memory, self: Addr, table: Addr, bucketCount: nat, mix: int -> nat)
      ensures this.memory == memory && this.self == self && this.table == table && this.mix == mix
      ensures index == map[] && |buckets| == bucketCount && forall b | 0 <= b < bucketCount :: buckets[b] == []
      ensures cells == map[] && |heads| == bucketCount && forall b | 0 <= b < bucketCount :: heads[b] == None
    {
      this.memory, this.self, this.table, this.mix := memory, self, table, mix;
      heads, cells := seq(bucketCount, _ => None), map[];
      buckets, index := seq(bucketCount, _ => []), map[];
    }

    ghost function Owned(): set<Addr>
      reads this
    {
      {self, table} + Cells(index)
    }

    function BucketFor(key: int): (b: nat)
      requires |heads| > 0
      reads this
      ensures b < |heads|
    {
      mix(key) % |heads|
    }

    /** Bucket b holds entries of the index that belong there. */
    ghost predicate BucketOk(b: nat)
      requires b < |buckets| == |heads|
      reads this
    {
      Chain(index, buckets[b]) && forall e <- buckets[b] :: BucketFor(e.key) == b
    }

    ghost predicate Placed(k: int)
      requires k in index && 0 < |buckets| == |heads|
      reads this
    {
      index[k] in buckets[BucketFor(k)]
    }

    /** Every entry of the index is on its chain, every chain holds such entries only, and they are what is in
        memory. */
    ghost predicate Chained()
      reads this
    {
      && self != table && {self, table} !! Cells(index) && 0 < |buckets| == |heads| && Filed(index)
      && cells.Keys == Cells(index)
      && (forall b: nat | b < |buckets| :: BucketOk(b))
      && forall k | k in index :: Placed(k)
    }

    /** From bucket `from` on, the pointers in memory run along the chains. */
    ghost predicate LinkedFrom(from: nat)
      reads this
    {
      |heads| == |buckets| && forall b | from <= b < |buckets| :: Linked(heads[b], buckets[b], cells)
    }

    ghost predicate Formed()
      reads this
    {
      Chained() && LinkedFrom(0)
    }

    ghost predicate Valid()
      reads this, memory
    {
      memory.Sound() && Formed() && Owned() <= memory.live
    }

    /** Chains have no cell in common. */
    lemma ChainsApart(b: nat)
      requires Chained() && b < |buckets|
      ensures Chain(index, buckets[b])
      ensures forall i, j | 0 <= i < j < |buckets[b]| :: buckets[b][i].addr != buckets[b][j].addr
      ensures forall e <- buckets[b] :: e.addr in cells
      ensures forall d, e, f | 0 <= d < |buckets| && d != b && e in buckets[d] && f in buckets[b] :: e.addr != f.addr
    {
      assert BucketOk(b);
      forall e <- buckets[b] ensures e.addr in Cells(index) { assert e.key in index && index[e.key] == e; }
      forall d, e, f | 0 <= d < |buckets| && d != b && e in buckets[d] && f in buckets[b] ensures e.addr != f.addr {
        assert BucketOk(d) && index[e.key] == e && index[f.key] == f && BucketFor(e.key) != BucketFor(f.key);
      }
    }

    /** `hash_map_create`. */
    static method Create(memory: Memory, bucketCount: nat, mix: int -> nat) returns (made: HashMap?)
      requires memory.Sound()
      modifies memory
      ensures made == null ==> memory.live == old(memory.live)
      ensures made != null <==> (
        0 < bucketCount <= SIZE_MAX / POINTER_SIZE && Grants(memory.place, old(memory.live), old(memory.calls), 2))
      ensures made != null ==> (
        && fresh(made) && made.Valid() && made.memory == memory && made.mix == mix && made.index == map[]
        && made.Owned() !! old(memory.live) && memory.live == old(memory.live) + made.Owned())
    {
      if bucketCount == 0 || bucketCount > SIZE_MAX / POINTER_SIZE { return null; }
      ghost var live, calls := memory.live, memory.calls;
      assert Grants(memory.place, live, calls, 2) <==> (memory.place(live, calls).Some? &&
        memory.place(live + {memory.place(live, calls).value}, calls + 1).Some?);
      var self := memory.Malloc();
      if self.None? { return null; }
      var table := memory.Malloc();
      if table.None? {
        memory.Free(self.value);
        return null;
      }
      made := new HashMap(memory, self.value, table.value, bucketCount, mix);
    }

    /** `hash_map_find`. */
    method Find(key: int) returns (value: Option<Addr>)
      requires Valid()
      ensures value == if key in index then Some(index[key].value) else None
    {
      var entry := heads[BucketFor(key)];
      ghost var c, i := buckets[BucketFor(key)], 0;
      assert BucketOk(BucketFor(key)) && Linked(entry, c, cells);
      assert key in index ==> Placed(key);
      while entry.Some?
        invariant i <= |c| && entry == PointerTo(c, i) && forall j | 0 <= j < i :: c[j].key != key
        decreases |c| - i
      {
        assert Holds(c, cells, i);
        if cells[entry.value].key == key { return Some(cells[entry.value].value); }
        entry, i := cells[entry.value].next, i + 1;
      }
      return None;
    }

    /** `hash_map_insert`. */
    method Insert(key: int, value: Addr) returns (r: HashMapResult)
      requires Valid()
      modifies `heads, `cells, `buckets, `index, memory
      ensures Valid() && (r.Duplicate? <==> key in old(index))
      ensures r.Duplicate? ==> memory.calls == old(memory.calls)
      ensures !r.Duplicate? ==> memory.calls == old(memory.calls) + 1
      ensures !r.Inserted? ==> index == old(index) && memory.live == old(memory.live) && Owned() == old(Owned())
      ensures !r.Duplicate? ==> (r.Inserted? <==> memory.place(old(memory.live), old(memory.calls)).Some?)
      ensures r.Inserted? ==>
        var a := memory.place(old(memory.live), old(memory.calls)).value;
        && index == old(index)[key := MapEntry(a, key, value)]
        && a !in old(memory.live) && memory.live == old(memory.live) + {a} && Owned() == old(Owned()) + {a}
    {
      hide Chain, Linked;
      var existing := Find(key);
      if existing.Some? { return Duplicate; }
      var a := memory.Malloc();
      if a.None? { return NoMemory; }
      Prefix(MapEntry(a.value, key, value));
      r := Inserted;
    }

    /** A fresh entry at the head of its chain. */
    method Prefix(entry: MapEntry)
      requires Formed() && entry.key !in index && entry.addr !in Owned()
      modifies `heads, `cells, `buckets, `index
      ensures Formed() && index == old(index)[entry.key := entry] && Owned() == old(Owned()) + {entry.addr}
    {
      hide Chain, Linked;
      var b := BucketFor(entry.key);
      ghost var was, had := buckets, index;
      assert BucketOk(b);
      ChainAdded(index, buckets[b], entry);
      LinkedPushed(heads[b], buckets[b], cells, entry);
      cells := cells[entry.addr := EntryCell(entry.key, entry.value, heads[b])];
      heads := heads[b := Some(entry.addr)];
      buckets := buckets[b := [entry] + buckets[b]];
      index := index[entry.key := entry];
      CellsAdded(had, entry.key, entry);
      forall d: nat | d < |buckets| ensures BucketOk(d) {
        assert old(BucketOk(d));
        ChainAdded(had, was[d], entry);
      }
      forall k | k in index ensures Placed(k) { assert k != entry.key ==> old(Placed(k)); }
      forall d | 0 <= d < |buckets| ensures Linked(heads[d], buckets[d], cells) {
        if d != b { LinkedKept(old(heads)[d], was[d], old(cells), cells); }
      }
    }

    /** The end of removal and of each step of destruction: entry i of bucket b, which nothing points at any more, is
        freed. */
    method Release(ghost b: nat, ghost i: nat, entry: Addr)
      requires memory.Sound() && Chained() && Owned() <= memory.live
      requires b < |buckets| && i < |buckets[b]| && buckets[b][i].addr == entry
      modifies `cells, `buckets, `index, memory`live
      ensures Chained() && Owned() <= memory.live && index == old(index) - {old(buckets[b][i].key)}
      ensures Owned() == old(Owned()) - {entry} && memory.live == old(memory.live) - {entry}
      ensures buckets == old(buckets)[b := Removed(old(buckets[b]), i)] && cells == old(cells) - {entry}
      ensures old(buckets[b][i].key in index && index[buckets[b][i].key] == buckets[b][i])
    {
      hide Chain, Removed;
      ghost var e := buckets[b][i];
      ghost var had := index;
      assert BucketOk(b);
      ChainRemoved(index, buckets[b], i);
      buckets := buckets[b := Removed(buckets[b], i)];
      index := index - {e.key};
      CellsDropped(had, e.key);
      assert had[e.key].addr in Cells(had);
      cells := cells - {entry};
      memory.Free(entry);
      forall d: nat | d < |buckets| ensures BucketOk(d) {
        assert old(BucketOk(d));
        if d != b { ChainDropped(had, buckets[d], e.key); }
      }
      forall k | k in index ensures Placed(k) { assert old(Placed(k)); }
    }

    /** The walk of `hash_map_remove`: the link that leads to the entry of the key, and the entry. */
    method Seek(key: int, ghost b: nat) returns (link: Link, entry: Option<Addr>, ghost i: nat)
      requires Valid() && b == BucketFor(key) && b < |buckets|
      ensures i <= |buckets[b]| && entry == PointerTo(buckets[b], i)
      ensures link == if i == 0 then Bucket(b) else Next(buckets[b][i - 1].addr)
      ensures entry.Some? ==> i < |buckets[b]| && buckets[b][i].key == key
      ensures entry.None? ==> key !in index
    {
      hide Chain, Chained;
      ghost var c := buckets[b];
      assert Linked(heads[b], c, cells);
      i, link, entry := 0, Bucket(BucketFor(key)), heads[BucketFor(key)];
      while entry.Some? && cells[entry.value].key != key
        invariant i <= |c| && entry == PointerTo(c, i) && (entry.Some? ==> Holds(c, cells, i))
        invariant link == if i == 0 then Bucket(b) else Next(c[i - 1].addr)
        invariant forall j | 0 <= j < i :: c[j].key != key
        decreases |c| - i
      {
        link, entry, i := Next(entry.value), cells[entry.value].next, i + 1;
      }
      if entry.None? && key in index { InChain(key); }
    }

    lemma InChain(key: int)
      requires Chained() && key in index
      ensures index[key] in buckets[BucketFor(key)] && index[key].key == key
    {
      assert Placed(key);
    }

    /** `*link = entry->next`, and the entry is freed. */
    method Bypass(link: Link, entry: Addr, ghost b: nat, ghost i: nat)
      requires Valid() && b < |buckets| && i < |buckets[b]| && buckets[b][i].addr == entry
      requires link == if i == 0 then Bucket(b) else Next(buckets[b][i - 1].addr)
      modifies `heads, `cells, `buckets, `index, memory`live
      ensures Valid() && index == old(index) - {old(buckets[b][i].key)}
      ensures old(buckets[b][i].key in index && index[buckets[b][i].key] == buckets[b][i])
      ensures Owned() == old(Owned()) - {entry} && memory.live == old(memory.live) - {entry}
    {
      hide Chain, Removed, Linked, Chained, BucketOk, Placed, Filed, PointerTo;
      ghost var c := buckets[b];
      ChainsApart(b);
      assert c[i].addr == entry;
      if i == 0 { LinkedTail(heads[b], c, cells); } else { LinkedBypass(heads[b], c, cells, i); }
      var next := cells[entry].next;
      SetLink(link, next);
      Release(b, i, entry);
      forall d | 0 <= d < |buckets| ensures Linked(heads[d], buckets[d], cells) {
        if d != b { LinkedKept(old(heads)[d], old(buckets)[d], old(cells), cells); }
      }
    }

    /** `*link = next`. */
    method SetLink(link: Link, next: Option<Addr>)
      requires Chained() && if link.Bucket? then link.b < |heads| else link.addr in cells
      modifies `heads, `cells
      ensures Chained()
      ensures heads == if link.Bucket? then old(heads)[link.b := next] else old(heads)
      ensures cells ==
              if link.Bucket? then old(cells) else old(cells)[link.addr := old(cells)[link.addr].(next := next)]
    {
      hide Chain;
      match link {
        case Bucket(d) => heads := heads[d := next];
        case Next(a) => cells := cells[a := cells[a].(next := next)];
      }
      assert forall d: nat | d < |buckets| :: old(BucketOk(d)) ==> BucketOk(d);
      assert forall k | k in index :: old(Placed(k)) ==> Placed(k);
    }

    /** `hash_map_remove`. */
    method Remove(key: int) returns (found: bool)
      requires Valid()
      modifies `heads, `cells, `buckets, `index, memory`live
      ensures Valid() && (found <==> key in old(index)) && index == old(index) - {key}
      ensures Owned() == old(Owned()) - if found then {old(index)[key].addr} else {}
      ensures memory.live == old(memory.live) - if found then {old(index)[key].addr} else {}
    {
      hide Chain, BucketOk, Linked, Owned;
      ghost var b := BucketFor(key);
      var link, entry, i := Seek(key, b);
      if entry.None? { return false; }
      Bypass(link, entry.value, b, i);
      found := true;
    }

    /** `hash_map_destroy`: every chain, then the table and the map. */
    method Destroy()
      requires Valid()
      modifies `cells, `buckets, `index, memory`live
      ensures memory.live == old(memory.live) - old(Owned())
    {
      ghost var all := Owned();
      var b := 0;
      while b < |heads|
        invariant b <= |heads| == |buckets| && memory.Sound() && Chained() && LinkedFrom(b)
        invariant Owned() <= memory.live && Owned() <= all && memory.live == old(memory.live) - (all - Owned())
        invariant forall d | 0 <= d < b :: buckets[d] == []
      {
        hide Chained, Owned;
        DestroyChain(b);
        b := b + 1;
      }
      assert forall k | k in index :: Placed(k);
      memory.Free(table);
      memory.Free(self);
    }

    method DestroyChain(b: nat)
      requires memory.Sound() && Chained() && Owned() <= memory.live
      requires b < |heads| && LinkedFrom(b)
      modifies `cells, `buckets, `index, memory`live
      ensures Chained() && LinkedFrom(b + 1) && Owned() <= memory.live && Owned() <= old(Owned())
      ensures memory.live == old(memory.live) - (old(Owned()) - Owned())
      ensures b < |buckets| == |old(buckets)| && buckets == old(buckets)[b := []]
    {
      hide Chained, Owned;
      var entry := heads[b];
      while entry.Some?
        invariant Chained() && Owned() <= memory.live && Owned() <= old(Owned())
        invariant b < |buckets| == |old(buckets)| && buckets == old(buckets)[b := buckets[b]]
        invariant Linked(entry, buckets[b], cells) && LinkedFrom(b + 1)
        invariant memory.live == old(memory.live) - (old(Owned()) - Owned())
        decreases |buckets[b]|
      {
        entry := DestroyFirst(b, entry.value);
      }
    }

    /** One step along a chain that is going away. */
    method DestroyFirst(b: nat, entry: Addr) returns (next: Option<Addr>)
      requires memory.Sound() && Chained() && Owned() <= memory.live
      requires b < |buckets| && Linked(Some(entry), buckets[b], cells) && LinkedFrom(b + 1)
      modifies `cells, `buckets, `index, memory`live
      ensures Chained() && Owned() <= memory.live
      ensures Owned() == old(Owned()) - {entry} && memory.live == old(memory.live) - {entry} && entry in old(Owned())
      ensures |buckets[b]| < old(|buckets[b]|) && buckets == old(buckets)[b := buckets[b]]
      ensures Linked(next, buckets[b], cells) && LinkedFrom(b + 1)
    {
      hide Chain, Removed;
      ghost var c := buckets[b];
      ChainsApart(b);
      LinkedTail(Some(entry), c, cells);
      RemovedParts(c, 0);
      next := cells[entry].next;
      Release(b, 0, entry);
      forall d | b + 1 <= d < |buckets| ensures Linked(heads[d], buckets[d], cells) {
        LinkedKept(heads[d], old(buckets)[d], old(cells), cells);
      }
    }
  }
}
