/** Vectors whose element copies and allocations may throw. */
module MyVector {
  import opened Base
  import opened CHeap

  /** A place in a buffer: raw memory, or an element with the resource it owns (none once moved from). */
  datatype Slot = Raw | Built(resource: Option<Addr>)

  /** What the static `control` counter is after n copies: a copy throws when it has run down to 0. */
  function ControlAfter(control: int, n: nat): int
    decreases n
  {
    if n == 0 then control
    else
      var c := ControlAfter(control, n - 1);
      if c == 0 then 5 else c - 1
  }

  /** From its initial value 5, every sixth copy throws. */
  lemma {:induction false} EverySixth(n: nat)
    ensures ControlAfter(5, n) == 5 - n % 6
  {
    if n > 0 { EverySixth(n - 1); }
  }

  /** The resources of all elements, and the pattern of copies that throw. */
  class Store {
    const memory: Memory
    const throws: nat -> bool
    var copies: nat
    var ints: map<Addr, int>

    constructor (memory: Memory, throws: nat -> bool)
      requires memory.Sound()
      ensures Valid() && this.memory == memory && this.throws == throws && ints == map[]
    {
      this.memory, this.throws, copies, ints := memory, throws, 0, map[];
    }

    ghost predicate Valid()
      reads this, memory
    {
      memory.Sound() && ints.Keys <= memory.live
    }

    /** The copy constructor of the element type: the new resource, or an exception and no trace of it. */
    method Copy(a: Addr) returns (r: Option<Addr>)
      requires Valid() && a in ints
      modifies this, memory
      ensures Valid()
      ensures r.Some? <==> memory.place(old(memory.live), old(memory.calls)).Some? && !throws(old(copies))
      ensures r.None? ==> memory.live == old(memory.live) && ints == old(ints)
      ensures r.Some? ==> r.value !in old(memory.live) && memory.live == old(memory.live) + {r.value}
      ensures r.Some? ==> ints == old(ints)[r.value := old(ints)[a]]
    {
      var b := memory.Malloc();
      if b.None? { return None; }
      var stop := throws(copies);
      copies := copies + 1;
      if stop {
        memory.Free(b.value);
        return None;
      }
      ints := ints[b.value := ints[a]];
      r := b;
    }

    /** The end of a resource. */
    method Drop(a: Addr)
      requires Valid() && a in ints
      modifies `ints, memory`live
      ensures Valid() && memory.live == old(memory.live) - {a} && ints == old(ints) - {a}
    {
      ints := ints - {a};
      memory.Free(a);
    }
  }

  // ----- buffers as values -----

  /** The resources in a buffer. */
  function Resources(slots: seq<Slot>): set<Addr> {
    set i | 0 <= i < |slots| && slots[i].Built? && slots[i].resource.Some? :: slots[i].resource.value
  }

  predicate Holds(s: Slot, ints: map<Addr, int>) {
    s.Built? && s.resource.Some? && s.resource.value in ints
  }

  /** The first `used` places hold elements with resources of their own, the others are raw. */
  predicate Laid(slots: seq<Slot>, used: nat, ints: map<Addr, int>) {
    && used <= |slots|
    && (forall i | 0 <= i < used :: Holds(slots[i], ints))
    && (forall i | used <= i < |slots| :: slots[i].Raw?)
    && forall i, j | 0 <= i < j < used :: slots[i] != slots[j]
  }

  /** The values of the elements. */
  function Values(slots: seq<Slot>, used: nat, ints: map<Addr, int>): (v: seq<int>)
    requires Laid(slots, used, ints)
    ensures |v| == used && forall i | 0 <= i < used :: v[i] == ints[slots[i].resource.value]
  {
    seq(used, i requires 0 <= i < used => ints[slots[i].resource.value])
  }

  lemma EmptyBuffer(slots: seq<Slot>, ints: map<Addr, int>)
    requires Laid(slots, 0, ints)
    ensures Resources(slots) == {} && Values(slots, 0, ints) == []
  {
  }

  lemma LaidBuild(slots: seq<Slot>, used: nat, ints: map<Addr, int>, r: Addr)
    requires Laid(slots, used, ints) && used < |slots| && r in ints && r !in Resources(slots)
    ensures var more := slots[used := Built(Some(r))];
            && Laid(more, used + 1, ints) && Resources(more) == Resources(slots) + {r}
            && Values(more, used + 1, ints) == Values(slots, used, ints) + [ints[r]]
  {
    var more := slots[used := Built(Some(r))];
    assert more[used].resource.value == r;
    forall a | a in Resources(slots) ensures a in Resources(more) {
      var i :| 0 <= i < |slots| && slots[i].Built? && slots[i].resource == Some(a);
      assert more[i] == slots[i];
    }
    forall i | 0 <= i < used ensures slots[i] != Built(Some(r)) {
      assert Holds(slots[i], ints) && slots[i].resource.value in Resources(slots);
    }
  }

  lemma LaidUnbuild(slots: seq<Slot>, used: nat, ints: map<Addr, int>)
    requires Laid(slots, used, ints) && used > 0
    ensures Holds(slots[used - 1], ints)
    ensures var r, less := slots[used - 1].resource.value, slots[used - 1 := Raw];
            && Laid(less, used - 1, ints - {r}) && Resources(less) == Resources(slots) - {r} && r in Resources(slots)
            && Values(less, used - 1, ints - {r}) == Values(slots, used, ints)[..used - 1]
  {
    assert Holds(slots[used - 1], ints);
    var r, less := slots[used - 1].resource.value, slots[used - 1 := Raw];
    forall a | a in Resources(slots) && a != r ensures a in Resources(less) {
      var i :| 0 <= i < |slots| && slots[i].Built? && slots[i].resource == Some(a);
      assert less[i] == slots[i];
    }
    forall i | 0 <= i < used - 1 ensures Holds(less[i], ints - {r}) {
      assert Holds(slots[i], ints) && slots[i] != slots[used - 1];
    }
    assert r !in Resources(less);
  }

  /** Other resources may come and go. */
  lemma LaidElsewhere(slots: seq<Slot>, used: nat, a: map<Addr, int>, b: map<Addr, int>)
    requires Laid(slots, used, a) && forall x | x in a && x in Resources(slots) :: x in b && b[x] == a[x]
    ensures Laid(slots, used, b) && Values(slots, used, b) == Values(slots, used, a)
  {
    forall i | 0 <= i < used ensures Holds(slots[i], b) && b[slots[i].resource.value] == a[slots[i].resource.value] {
      assert Holds(slots[i], a) && slots[i].resource.value in Resources(slots);
    }
  }

  /** A larger buffer with the same elements in front. */
  lemma LaidWider(slots: seq<Slot>, wide: seq<Slot>, used: nat, ints: map<Addr, int>)
    requires Laid(slots, used, ints) && used <= |wide|
    requires (forall i | 0 <= i < used :: wide[i] == slots[i]) && forall i | used <= i < |wide| :: wide[i].Raw?
    ensures Laid(wide, used, ints) && Values(wide, used, ints) == Values(slots, used, ints)
    ensures Resources(wide) == Resources(slots)
  {
    assert forall i | 0 <= i < |wide| && wide[i].Built? :: i < used && wide[i] == slots[i];
    forall a | a in Resources(slots) ensures a in Resources(wide) {
      var i :| 0 <= i < |slots| && slots[i].Built? && slots[i].resource == Some(a);
      assert i < used && wide[i] == slots[i];
    }
  }

  lemma LaidResources(slots: seq<Slot>, used: nat, ints: map<Addr, int>)
    requires Laid(slots, used, ints)
    ensures used <= |slots| && Resources(slots) <= ints.Keys
    ensures forall i | 0 <= i < used :: Holds(slots[i], ints) && slots[i].resource.value in Resources(slots)
  {
    forall i | 0 <= i < used ensures slots[i].resource.value in Resources(slots) { assert Holds(slots[i], ints); }
    forall a | a in Resources(slots) ensures a in ints {
      var i :| 0 <= i < |slots| && slots[i].Built? && slots[i].resource == Some(a);
      assert i < used && Holds(slots[i], ints);
    }
  }

  // ----- vectors -----

  function BufferOf(arr: Option<Addr>): set<Addr> {
    if arr.Some? then {arr.value} else {}
  }

  class Vector {
    const store: Store
    var arr: Option<Addr>
    var slots: seq<Slot>
    var used: nat

    constructor (store: Store, arr: Option<Addr>, size: nat)
      ensures this.store == store && this.arr == arr && used == 0
      ensures slots == seq(size, _ => Raw)
    {
      this.store, this.arr, this.slots, this.used := store, arr, seq(size, _ => Raw), 0;
    }

    function Owned(): set<Addr>
      reads this
    {
      BufferOf(arr) + Resources(slots)
    }

    ghost predicate Valid()
      reads this, store, store.memory
    {
      && store.Valid() && Laid(slots, used, store.ints)
      && (arr.Some? <==> |slots| > 0) && BufferOf(arr) !! store.ints.Keys && BufferOf(arr) <= store.memory.live
    }

    ghost function Items(): seq<int>
      requires Laid(slots, used, store.ints)
      reads this, store
    {
      Values(slots, used, store.ints)
    }

    /** Memory that is not this vector's. */
    ghost function Others(): set<Addr>
      reads this, store.memory
    {
      store.memory.live - Owned()
    }

    /** The constructor with a size: nothing is built yet. The allocation may throw, which null stands for. */
    static method Make(store: Store, size: nat) returns (v: Vector?)
      requires store.Valid()
      modifies store.memory
      ensures store.Valid()
      ensures v == null ==> store.memory.live == old(store.memory.live)
      ensures v != null ==> (
        && fresh(v) && v.Valid() && v.store == store && |v.slots| == size && v.used == 0
        && v.Owned() !! old(store.memory.live) && store.memory.live == old(store.memory.live) + v.Owned())
    {
      var arr: Option<Addr> := None;
      if size > 0 {
        arr := store.memory.Malloc();
        if arr.None? { return null; }
      }
      v := new Vector(store, arr, size);
      assert Resources(v.slots) == {};
    }

    /** The destructor: every element and then the buffer. */
    method Destroy()
      requires Valid()
      modifies this, store`ints, store.memory`live
      ensures store.Valid() && store.memory.live == old(store.memory.live) - old(Owned())
      ensures store.ints == old(store.ints) - old(Resources(slots))
    {
      ghost var live, ints, all := store.memory.live, store.ints, Resources(slots);
      while used > 0
        invariant Valid() && arr == old(arr) && Resources(slots) <= all
        invariant store.memory.live == live - (all - Resources(slots))
        invariant store.ints == ints - (all - Resources(slots))
        decreases used
      {
        LaidUnbuild(slots, used, store.ints);
        var r := slots[used - 1].resource.value;
        used := used - 1;
        slots := slots[used := Raw];
        store.Drop(r);
      }
      assert Resources(slots) == {};
      if arr.Some? { store.memory.Free(arr.value); }
    }

    /** `construct` in the first raw place. */
    method Construct(a: Addr) returns (ok: bool, ghost r: Addr)
      requires Valid() && used < |slots| && a in store.ints
      modifies this, store, store.memory
      ensures Valid() && arr == old(arr) && |slots| == old(|slots|)
      ensures !ok ==> slots == old(slots) && used == old(used)
      ensures !ok ==> store.ints == old(store.ints) && store.memory.live == old(store.memory.live)
      ensures ok ==> used == old(used) + 1 && Items() == old(Items()) + [old(store.ints)[a]]
      ensures ok ==> r !in old(store.memory.live) && store.memory.live == old(store.memory.live) + {r}
      ensures ok ==> store.ints == old(store.ints)[r := old(store.ints)[a]]
      ensures ok ==> Resources(slots) == old(Resources(slots)) + {r}
    {
      hide Laid, Values, Resources;
      var copied := store.Copy(a);
      if copied.None? { return false, 0; }
      r := copied.value;
      LaidResources(slots, used, old(store.ints));
      LaidElsewhere(slots, used, old(store.ints), store.ints);
      LaidBuild(slots, used, store.ints, r);
      slots := slots[used := Built(copied)];
      used := used + 1;
      ok := true;
    }

    /** Every element of a buffer, from place `used` on, is copied into this one; false when a copy throws. */
    method Fill(from: seq<Slot>, count: nat) returns (ok: bool)
      requires Valid() && used == 0 && count <= |slots| && Laid(from, count, store.ints)
      modifies this, store, store.memory
      ensures Valid() && arr == old(arr) && |slots| == old(|slots|)
      ensures store.memory.live == old(store.memory.live) + Resources(slots)
      ensures Resources(slots) !! old(store.memory.live)
      ensures store.ints.Keys == old(store.ints).Keys + Resources(slots)
      ensures forall x | x in old(store.ints) :: store.ints[x] == old(store.ints)[x]
      ensures ok ==> used == count && Items() == Values(from, count, old(store.ints))
    {
      hide Laid, Values, Resources;
      EmptyBuffer(slots, store.ints);
      while used < count
        invariant used <= count && Valid() && arr == old(arr) && |slots| == old(|slots|)
        invariant store.memory.live == old(store.memory.live) + Resources(slots)
        invariant Resources(slots) !! old(store.memory.live)
        invariant store.ints.Keys == old(store.ints).Keys + Resources(slots)
        invariant forall x | x in old(store.ints) :: store.ints[x] == old(store.ints)[x]
        invariant Items() == Values(from, count, old(store.ints))[..used]
        decreases count - used
      {
        LaidResources(from, count, old(store.ints));
        ghost var n, before := used, Items();
        var ok', r := Construct(from[used].resource.value);
        if !ok' { return false; }
        assert Items() == before + [Values(from, count, old(store.ints))[n]];
      }
      ok := true;
    }

    /** Exchanging the three fields. */
    method Swap(other: Vector)
      modifies this, other
      ensures arr == old(other.arr) && slots == old(other.slots) && used == old(other.used)
      ensures other.arr == old(arr) && other.slots == old(slots) && other.used == old(used)
    {
      arr, other.arr := other.arr, arr;
      slots, other.slots := other.slots, slots;
      used, other.used := other.used, used;
    }

    /** The copy constructor: null when the allocation or a copy throws, and then nothing is left behind. */
    static method CopyOf(rhs: Vector) returns (v: Vector?)
      requires rhs.Valid()
      modifies rhs.store, rhs.store.memory
      ensures rhs.Valid() && rhs.Items() == old(rhs.Items())
      ensures v == null ==> Untouched(rhs.store, old(rhs.store.memory.live), old(rhs.store.ints))
      ensures v != null ==> (
        && fresh(v) && v.Valid() && v.store == rhs.store && v.Items() == old(rhs.Items())
        && Added(v, old(rhs.store.memory.live), old(rhs.store.ints)))
    {
      hide Laid, Values, Resources;
      var store := rhs.store;
      v := Make(store, rhs.used);
      if v == null { return; }
      EmptyBuffer(v.slots, store.ints);
      var ok := v.Fill(rhs.slots, rhs.used);
      KeepsLaid(rhs, old(store.ints));
      if !ok {
        v.Destroy();
        assert store.ints == old(store.ints);
        KeepsLaid(rhs, old(store.ints));
        return null;
      }
    }

    /** These fields, resources and allocations; after a throw, those from before the call. */
    predicate Is(arr0: Option<Addr>, slots0: seq<Slot>, used0: nat, live: set<Addr>, ints: map<Addr, int>)
      reads this, store, store.memory
    {
      arr == arr0 && slots == slots0 && used == used0 && Untouched(store, live, ints)
    }

    /** The elements are replaced by those of tmp, and the old ones end with it. */
    method Adopt(tmp: Vector)
      requires Valid() && tmp.Valid() && tmp != this && tmp.store == store && Owned() !! tmp.Owned()
      modifies this, tmp, store`ints, store.memory`live
      ensures Valid() && Items() == old(tmp.Items())
      ensures Owned() == old(tmp.Owned()) && |slots| == old(|tmp.slots|)
      ensures store.memory.live == old(store.memory.live) - old(Owned())
      ensures store.ints == old(store.ints) - old(Resources(slots))
    {
      hide Laid, Values, Resources;
      Swap(tmp);
      tmp.Destroy();
      LaidResources(slots, used, old(store.ints));
      LaidElsewhere(slots, used, old(store.ints), store.ints);
    }

    /** Copy assignment. */
    method Assign(rhs: Vector) returns (ok: bool)
      requires Valid() && rhs.Valid() && rhs.store == store && (rhs == this || Owned() !! rhs.Owned())
      modifies this, store, store.memory
      ensures Valid() && rhs.Valid() && Others() == old(Others())
      ensures rhs.Items() == old(rhs.Items())
      ensures ok ==> Items() == old(rhs.Items())
      ensures !ok ==> Is(old(arr), old(slots), old(used), old(store.memory.live), old(store.ints))
    {
      hide Laid, Values, Resources;
      var tmp := CopyOf(rhs);
      if tmp == null { return false; }
      KeepsLaid(this, old(store.ints));
      LaidResources(slots, used, old(store.ints));
      ghost var copied := store.ints;
      assert tmp.Owned() !! old(store.memory.live) && Owned() == old(Owned());
      Adopt(tmp);
      if rhs != this {
        LaidElsewhere(rhs.slots, rhs.used, copied, store.ints);
      }
      ok := true;
    }

    /** `push` of the version that copies its elements when it grows. */
    method Push(t: Addr) returns (ok: bool)
      requires Valid() && t in store.ints
      modifies this, store, store.memory
      ensures Valid() && Others() == old(Others())
      ensures ok ==> Items() == old(Items()) + [old(store.ints)[t]]
      ensures !ok ==> Is(old(arr), old(slots), old(used), old(store.memory.live), old(store.ints))
      ensures ok ==> |slots| == old(if used < |slots| then |slots| else |slots| * 2 + 1)
    {
      hide Laid, Values, Resources;
      LaidResources(slots, used, store.ints);
      if used == |slots| {
        ok := GrowCopying(t);
        return;
      }
      ghost var r;
      ok, r := Construct(t);
      assert ok ==> r !in old(store.memory.live);
      assert old(Owned()) <= old(store.memory.live);
    }

    /** A vector twice as large and one with copies of the elements and of t; null when anything throws. */
    method Enlarged(t: Addr) returns (tmp: Vector?)
      requires Valid() && t in store.ints && used == |slots|
      modifies store, store.memory
      ensures Valid() && Items() == old(Items())
      ensures tmp == null ==> Untouched(store, old(store.memory.live), old(store.ints))
      ensures tmp != null ==> (
        && fresh(tmp) && tmp.Valid() && tmp.store == store && |tmp.slots| == |slots| * 2 + 1
        && tmp.Items() == old(Items()) + [old(store.ints)[t]]
        && Added(tmp, old(store.memory.live), old(store.ints)))
    {
      hide Laid, Values, Resources;
      tmp := Make(store, |slots| * 2 + 1);
      if tmp == null { return; }
      EmptyBuffer(tmp.slots, store.ints);
      var ok := tmp.Fill(slots, used);
      if ok {
        ghost var r;
        ok, r := tmp.Construct(t);
      }
      KeepsLaid(this, old(store.ints));
      if !ok {
        tmp.Destroy();
        assert store.ints == old(store.ints);
        return null;
      }
    }

    /** The growing half: the larger vector takes over. */
    method GrowCopying(t: Addr) returns (ok: bool)
      requires Valid() && t in store.ints && used == |slots|
      modifies this, store, store.memory
      ensures Valid() && Others() == old(Others())
      ensures ok ==> Items() == old(Items()) + [old(store.ints)[t]]
      ensures !ok ==> Is(old(arr), old(slots), old(used), old(store.memory.live), old(store.ints))
      ensures ok ==> |slots| == old(|slots| * 2 + 1)
    {
      hide Laid, Values, Resources;
      LaidResources(slots, used, store.ints);
      var tmp := Enlarged(t);
      if tmp == null { return false; }
      Adopt(tmp);
      ok := true;
    }

    /** `top`: the caller gets a copy of its own. */
    method Top() returns (empty: bool, copy: Option<Addr>)
      requires Valid()
      modifies store, store.memory
      ensures Valid() && Items() == old(Items()) && (empty <==> used == 0)
      ensures copy.None? ==> Untouched(store, old(store.memory.live), old(store.ints))
      ensures copy.Some? ==> (
        && used > 0 && copy.value !in old(store.memory.live)
        && store.memory.live == old(store.memory.live) + {copy.value}
        && store.ints == old(store.ints)[copy.value := old(Items())[used - 1]])
    {
      hide Laid, Values, Resources;
      LaidResources(slots, used, store.ints);
      if used < 1 { return true, None; }
      empty := false;
      copy := store.Copy(slots[used - 1].resource.value);
      KeepsLaid(this, old(store.ints));
    }

    /** `pop`: false stands for the exception on an empty vector. */
    method Pop() returns (ok: bool)
      requires Valid()
      modifies this, store`ints, store.memory`live
      ensures Valid() && Others() == old(Others()) && (ok <==> old(used) > 0)
      ensures ok ==> Items() == old(Items())[..old(used) - 1] && |slots| == old(|slots|)
      ensures !ok ==> Is(old(arr), old(slots), old(used), old(store.memory.live), old(store.ints))
    {
      hide Laid, Values, Resources;
      if used < 1 { return false; }
      LaidUnbuild(slots, used, store.ints);
      LaidResources(slots, used, store.ints);
      used := used - 1;
      var r := slots[used].resource.value;
      slots := slots[used := Raw];
      store.Drop(r);
      ok := true;
    }

    /** The loop that moves every element out of a full buffer into a larger raw one. */
    method MoveAll(tmp: Vector)
      requires tmp != this && used == |slots| <= |tmp.slots| && tmp.used == 0
      requires forall i | 0 <= i < |slots| :: slots[i].Built?
      requires forall i | 0 <= i < |tmp.slots| :: tmp.slots[i].Raw?
      modifies `slots, tmp`slots, tmp`used
      ensures tmp.used == used && |slots| == old(|slots|) && |tmp.slots| == old(|tmp.slots|)
      ensures forall i | 0 <= i < |slots| :: slots[i] == Built(None) && tmp.slots[i] == old(slots[i])
      ensures forall i | |slots| <= i < |tmp.slots| :: tmp.slots[i].Raw?
    {
      while tmp.used < used
        invariant tmp.used <= used && |slots| == old(|slots|) && |tmp.slots| == old(|tmp.slots|)
        invariant forall i | 0 <= i < tmp.used :: slots[i] == Built(None) && tmp.slots[i] == old(slots[i])
        invariant forall i | tmp.used <= i < |slots| :: slots[i] == old(slots[i])
        invariant forall i | tmp.used <= i < |tmp.slots| :: tmp.slots[i].Raw?
        decreases used - tmp.used
      {
        var k := tmp.used;
        tmp.slots := tmp.slots[k := slots[k]];
        slots := slots[k := Built(None)];
        tmp.used := k + 1;
      }
    }

    /** The destructor of a vector whose elements have all been moved from: only the buffer is freed. */
    method DestroyMoved()
      requires store.Valid() && used <= |slots| && forall i | 0 <= i < used :: slots[i] == Built(None)
      requires BufferOf(arr) <= store.memory.live && BufferOf(arr) !! store.ints.Keys
      modifies this, store.memory`live
      ensures store.Valid() && store.memory.live == old(store.memory.live) - old(BufferOf(arr))
    {
      while used > 0
        invariant used <= |slots| && arr == old(arr)
        invariant store.Valid() && store.memory.live == old(store.memory.live) && store.ints == old(store.ints)
      {
        used := used - 1;
        slots := slots[used := Raw];
      }
      if arr.Some? { store.memory.Free(arr.value); }
    }

    /** `push` of a temporary: its resource t goes over to the vector, unless the allocation throws. */
    method PushMoving(t: Addr) returns (ok: bool)
      requires Valid() && t in store.ints && t !in Resources(slots)
      modifies this, store.memory
      ensures Valid() && (!ok ==> Is(old(arr), old(slots), old(used), old(store.memory.live), old(store.ints)))
      ensures ok ==> Items() == old(Items()) + [store.ints[t]] && Resources(slots) == old(Resources(slots)) + {t}
      ensures ok ==> Others() == old(Others()) - {t}
      ensures ok ==> |slots| == old(if used < |slots| then |slots| else |slots| * 2 + 1)
    {
      hide Laid, Values, Resources;
      LaidResources(slots, used, store.ints);
      if used == |slots| {
        ok := GrowMoving();
        if !ok { return; }
        LaidResources(slots, used, store.ints);
      }
      LaidBuild(slots, used, store.ints, t);
      slots := slots[used := Built(Some(t))];
      used := used + 1;
      ok := true;
    }

    /** The growing half: nothing that can throw happens after the allocation. */
    method GrowMoving() returns (ok: bool)
      requires Valid() && used == |slots|
      modifies this, store.memory
      ensures Valid() && (!ok ==> Is(old(arr), old(slots), old(used), old(store.memory.live), old(store.ints)))
      ensures ok ==> used == old(used) && |slots| == old(|slots|) * 2 + 1
      ensures ok ==> Items() == old(Items()) && Resources(slots) == old(Resources(slots)) && Others() == old(Others())
    {
      hide Values, Resources;
      LaidResources(slots, used, store.ints);
      var tmp := Make(store, |slots| * 2 + 1);
      if tmp == null { return false; }
      EmptyBuffer(tmp.slots, store.ints);
      ghost var was := slots;
      MoveAll(tmp);
      LaidWider(was, tmp.slots, used, store.ints);
      Swap(tmp);
      tmp.DestroyMoved();
      ok := true;
    }

    /** `push` of the version that moves: the copy comes first, and ends with the call when it is not needed. */
    method PushCopied(t: Addr) returns (ok: bool)
      requires Valid() && t in store.ints
      modifies this, store, store.memory
      ensures Valid() && Others() == old(Others())
      ensures ok ==> Items() == old(Items()) + [old(store.ints)[t]]
      ensures !ok ==> Is(old(arr), old(slots), old(used), old(store.memory.live), old(store.ints))
      ensures ok ==> |slots| == old(if used < |slots| then |slots| else |slots| * 2 + 1)
    {
      hide Laid, Values, Resources;
      LaidResources(slots, used, store.ints);
      var t2 := store.Copy(t);
      if t2.None? { return false; }
      KeepsLaid(this, old(store.ints));
      ok := PushMoving(t2.value);
      if !ok {
        store.Drop(t2.value);
        assert store.ints == old(store.ints);
      }
    }
  }

  predicate Untouched(store: Store, live: set<Addr>, ints: map<Addr, int>)
    reads store, store.memory
  {
    store.memory.live == live && store.ints == ints
  }

  /** Nothing but the vector has been added to what was there. */
  predicate Added(v: Vector, live: set<Addr>, ints: map<Addr, int>)
    reads v, v.store, v.store.memory
  {
    && v.Owned() !! live && v.store.memory.live == live + v.Owned()
    && v.store.ints.Keys == ints.Keys + Resources(v.slots) && forall x | x in ints :: v.store.ints[x] == ints[x]
  }

  /** A vector does not notice resources that come and go elsewhere. */
  lemma KeepsLaid(v: Vector, ints: map<Addr, int>)
    requires Laid(v.slots, v.used, ints) && forall x | x in ints :: x in v.store.ints && v.store.ints[x] == ints[x]
    ensures Laid(v.slots, v.used, v.store.ints)
    ensures Values(v.slots, v.used, v.store.ints) == Values(v.slots, v.used, ints)
  {
    LaidElsewhere(v.slots, v.used, ints, v.store.ints);
  }
}
