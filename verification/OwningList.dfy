/** The circular list that allocates its nodes, cell by cell. */
module OwningList {
  import opened Base
  import opened CHeap
  import opened Seqs

  datatype ListNode = ListNode(addr: Addr, value: Addr)

  function Addrs(nodes: seq<ListNode>): set<Addr> {
    set n | n in nodes :: n.addr
  }

  predicate Apart(nodes: seq<ListNode>) {
    forall i, j | 0 <= i < j < |nodes| :: nodes[i].addr != nodes[j].addr
  }

  /** Where the node with a given address is. */
  function Position(nodes: seq<ListNode>, a: Addr): (k: nat)
    requires a in Addrs(nodes)
    ensures k < |nodes| && nodes[k].addr == a
  {
    if nodes[0].addr == a then 0 else
      assert nodes == [nodes[0]] + nodes[1..];
      1 + Position(nodes[1..], a)
  }

  lemma AddrsRemoved(nodes: seq<ListNode>, k: nat)
    requires Apart(nodes) && k < |nodes|
    ensures Apart(Removed(nodes, k)) && Addrs(Removed(nodes, k)) == Addrs(nodes) - {nodes[k].addr}
  {
    var less := Removed(nodes, k);
    forall a | a in Addrs(nodes) && a != nodes[k].addr ensures a in Addrs(less) {
      var i :| 0 <= i < |nodes| && nodes[i].addr == a;
      assert less[if i < k then i else i - 1] == nodes[i];
    }
  }

  /** A `struct ListNode` in memory. */
  datatype NodeCell = NodeCell(prev: Addr, next: Addr, value: Addr)

  /** The i-th address along the ring: the head, which is part of the list itself, the nodes, and the head again. */
  function RingAt(self: Addr, nodes: seq<ListNode>, i: nat): Addr
    requires i <= |nodes| + 1
  {
    if 1 <= i <= |nodes| then nodes[i - 1].addr else self
  }

  /** Cells i and i + 1 of the ring point at each other. */
  predicate Joined(self: Addr, nodes: seq<ListNode>, cells: map<Addr, NodeCell>, i: nat)
    requires i <= |nodes|
  {
    var a, b := RingAt(self, nodes, i), RingAt(self, nodes, i + 1);
    a in cells && b in cells && cells[a].next == b && cells[b].prev == a
  }

  predicate Carries(n: ListNode, cells: map<Addr, NodeCell>) {
    n.addr in cells && cells[n.addr].value == n.value
  }

  /** The cells form a ring of the head and these nodes. */
  predicate Ring(self: Addr, nodes: seq<ListNode>, cells: map<Addr, NodeCell>) {
    && Apart(nodes) && self !in Addrs(nodes) && cells.Keys == {self} + Addrs(nodes)
    && (forall i | 0 <= i <= |nodes| :: Joined(self, nodes, cells, i))
    && forall i | 0 <= i < |nodes| :: Carries(nodes[i], cells)
  }

  lemma RingParts(self: Addr, nodes: seq<ListNode>, cells: map<Addr, NodeCell>)
    requires Ring(self, nodes, cells)
    ensures Apart(nodes) && self !in Addrs(nodes) && cells.Keys == {self} + Addrs(nodes)
  {
  }

  lemma RingApart(self: Addr, nodes: seq<ListNode>)
    requires Apart(nodes) && self !in Addrs(nodes)
    ensures forall i, j | 0 <= i < j <= |nodes| :: RingAt(self, nodes, i) != RingAt(self, nodes, j)
  {
    assert forall i | 0 <= i < |nodes| :: nodes[i].addr in Addrs(nodes);
  }

  /** What `detach` does to the cells: node k drops out of the ring. */
  lemma RingDetached(self: Addr, nodes: seq<ListNode>, cells: map<Addr, NodeCell>, k: nat)
    requires Ring(self, nodes, cells) && k < |nodes|
    ensures
      var node := nodes[k].addr;
      && node in cells && cells[node].value == nodes[k].value
      && var (a, b) := (cells[node].prev, cells[node].next);
      && a in cells && b in cells && a != node && b != node
      && var cells1 := cells[a := cells[a].(next := b)];
         Ring(self, Removed(nodes, k), cells1[b := cells1[b].(prev := a)] - {node})
  {
    hide Apart, Addrs;
    var node := nodes[k].addr;
    assert Joined(self, nodes, cells, k) && Joined(self, nodes, cells, k + 1) && Carries(nodes[k], cells);
    var a, b := RingAt(self, nodes, k), RingAt(self, nodes, k + 2);
    RingApart(self, nodes);
    var cells1 := cells[a := cells[a].(next := b)];
    var cells2 := cells1[b := cells1[b].(prev := a)] - {node};
    var less := Removed(nodes, k);
    AddrsRemoved(nodes, k);
    assert RingAt(self, nodes, k + 1) == node;
    forall i | 0 <= i <= |less| ensures Joined(self, less, cells2, i) {
      assert Joined(self, nodes, cells, if i < k then i else i + 1);
      assert RingAt(self, less, i) == RingAt(self, nodes, if i <= k then i else i + 1);
      assert RingAt(self, less, i + 1) == RingAt(self, nodes, if i + 1 <= k then i + 1 else i + 2);
    }
    forall i | 0 <= i < |less| ensures Carries(less[i], cells2) {
      var j := if i < k then i else i + 1;
      assert Carries(nodes[j], cells);
      assert less[i] == nodes[j] && RingAt(self, nodes, j + 1) == nodes[j].addr;
    }
    assert RingAt(self, nodes, 0) == self;
    assert a == cells[node].prev && b == cells[node].next;
    assert a != node && b != node;
    assert cells.Keys - {node} == {self} + Addrs(less);
    assert Ring(self, less, cells2);
  }

  /** What `prepend` does: the node becomes the first of the ring. */
  lemma RingPrepended(self: Addr, nodes: seq<ListNode>, cells: map<Addr, NodeCell>, node: Addr)
    requires node in cells && Ring(self, nodes, cells - {node}) && node != self && node !in Addrs(nodes)
    ensures self in cells
    ensures
      var first := cells[self].next;
      var cells1 := cells[node := NodeCell(self, first, cells[node].value)];
      && first in cells1
      && var cells2 := cells1[first := cells1[first].(prev := node)];
      Ring(self, [ListNode(node, cells[node].value)] + nodes, cells2[self := cells2[self].(next := node)])
  {
    hide Apart, Addrs;
    var had := cells - {node};
    assert Joined(self, nodes, had, 0);
    RingApart(self, nodes);
    var first := cells[self].next;
    assert first == RingAt(self, nodes, 1);
    var n := ListNode(node, cells[node].value);
    var cells1 := cells[node := NodeCell(self, first, cells[node].value)];
    var cells2 := cells1[first := cells1[first].(prev := node)];
    var cells3 := cells2[self := cells2[self].(next := node)];
    var more := [n] + nodes;
    AddrsPrepended(nodes, n);
    forall i | 0 <= i <= |more| ensures Joined(self, more, cells3, i) {
      if i > 0 {
        assert RingAt(self, more, i + 1) == RingAt(self, nodes, i);
        if i > 1 {
          assert RingAt(self, more, i) == RingAt(self, nodes, i - 1);
          assert Joined(self, nodes, had, i - 1);
        }
      }
    }
    forall i | 0 <= i < |more| ensures Carries(more[i], cells3) {
      if i > 0 { assert Carries(nodes[i - 1], had); }
    }
  }

  lemma AddrsPrepended(nodes: seq<ListNode>, n: ListNode)
    requires Apart(nodes) && n.addr !in Addrs(nodes)
    ensures Apart([n] + nodes) && Addrs([n] + nodes) == Addrs(nodes) + {n.addr}
  {
    var more := [n] + nodes;
    forall i, j | 0 <= i < j < |more| ensures more[i].addr != more[j].addr {
      assert more[j] in nodes;
    }
    assert more[0] == n && forall m <- nodes :: m in more;
  }

  /** The circular list. `cells` are the structs it owns, its own with the head among them: reading or writing through a
      pointer that is not one of them does not verify. */
  class List {
    const memory: Memory
    const self: Addr
    var cells: map<Addr, NodeCell>
    /** The nodes, front first. */
    ghost var nodes: seq<ListNode>

    constructor (memory: Memory, self: Addr)
      ensures this.memory == memory && this.self == self && nodes == [] && Formed()
    {
      this.memory, this.self, nodes := memory, self, [];
      cells := map[self := NodeCell(self, self, 0)];
    }

    ghost function Owned(): set<Addr>
      reads this
    {
      {self} + Addrs(nodes)
    }

    ghost predicate Formed()
      reads this
    {
      Ring(self, nodes, cells)
    }

    ghost predicate Valid()
      reads this, memory
    {
      memory.Sound() && Formed() && Owned() <= memory.live
    }

    lemma Parts()
      ensures Addrs(nodes) <= Owned() && (Formed() ==> Apart(nodes) && Owned() == cells.Keys)
    {
    }

    /** `list_create`. */
    static method Create(memory: Memory) returns (list: List?)
      requires memory.Sound()
      modifies memory
      ensures memory.calls == old(memory.calls) + 1
      ensures list == null ==> memory.live == old(memory.live)
      ensures list != null <==> memory.place(old(memory.live), old(memory.calls)).Some?
      ensures list != null ==> (
        && fresh(list) && list.Valid() && list.memory == memory && list.nodes == []
        && list.self == memory.place(old(memory.live), old(memory.calls)).value
        && list.Owned() == {list.self} && list.self !in old(memory.live)
        && memory.live == old(memory.live) + {list.self})
    {
      var a := memory.Malloc();
      if a.None? { return null; }
      list := new List(memory, a.value);
    }

    /** `list_empty`. */
    method Empty() returns (b: bool)
      requires Valid()
      ensures b <==> nodes == []
    {
      assert Joined(self, nodes, cells, 0);
      RingApart(self, nodes);
      b := cells[self].next == self;
    }

    /** `list_front` of a list with nodes. */
    method Front() returns (node: Addr)
      requires Valid() && nodes != []
      ensures node == nodes[0].addr
    {
      assert Joined(self, nodes, cells, 0);
      node := cells[self].next;
    }

    /** `list_back` of a list with nodes. */
    method Back() returns (node: Addr)
      requires Valid() && nodes != []
      ensures node == nodes[|nodes| - 1].addr
    {
      assert Joined(self, nodes, cells, |nodes|);
      node := cells[self].prev;
    }

    /** `list_value`. */
    method ValueOf(node: Addr, ghost k: nat) returns (value: Addr)
      requires Valid() && k < |nodes| && nodes[k].addr == node
      ensures value == nodes[k].value
    {
      assert Carries(nodes[k], cells);
      value := cells[node].value;
    }

    /** `prepend`: the node goes between the head and what was first. */
    method Prepend(node: Addr)
      requires node in cells && Ring(self, nodes, cells - {node}) && node != self && node !in Addrs(nodes)
      modifies `cells, `nodes
      ensures Formed() && nodes == [ListNode(node, old(cells)[node].value)] + old(nodes)
    {
      RingPrepended(self, nodes, cells, node);
      cells := cells[node := cells[node].(prev := self)];
      cells := cells[node := cells[node].(next := cells[self].next)];
      assert cells == old(cells)[node := NodeCell(self, old(cells)[self].next, old(cells)[node].value)];
      var first := cells[node].next;
      cells := cells[first := cells[first].(prev := node)];
      cells := cells[self := cells[self].(next := node)];
      nodes := [ListNode(node, old(cells)[node].value)] + nodes;
    }

    /** `detach`: the neighbours point at each other; the node itself keeps its pointers. */
    method Detach(node: Addr, ghost k: nat)
      requires Formed() && k < |nodes| && nodes[k].addr == node
      modifies `cells, `nodes
      ensures node in cells && cells[node].value == old(nodes)[k].value
      ensures nodes == Removed(old(nodes), k) && Ring(self, nodes, cells - {node})
    {
      RingDetached(self, nodes, cells, k);
      var prev, next := cells[node].prev, cells[node].next;
      cells := cells[prev := cells[prev].(next := next)];
      cells := cells[next := cells[next].(prev := prev)];
      nodes := Removed(nodes, k);
    }

    /** `list_push_front`. */
    method PushFront(value: Addr) returns (node: Option<Addr>)
      requires Valid()
      modifies `nodes, `cells, memory
      ensures Valid() && memory.calls == old(memory.calls) + 1
      ensures node == memory.place(old(memory.live), old(memory.calls))
      ensures node.None? ==> nodes == old(nodes) && memory.live == old(memory.live)
      ensures node.Some? ==> node.value !in old(memory.live) && memory.live == old(memory.live) + {node.value}
      ensures node.Some? ==> nodes == [ListNode(node.value, value)] + old(nodes)
      ensures Owned() == old(Owned()) + if node.Some? then {node.value} else {}
    {
      hide Ring;
      Parts();
      node := memory.Malloc();
      if node.Some? {
        var a := node.value;
        RingParts(self, nodes, cells);
        cells := cells[a := NodeCell(0, 0, value)];
        assert cells - {a} == old(cells);
        AddrsPrepended(nodes, ListNode(a, value));
        Prepend(a);
      }
    }

    /** `list_move_front`. */
    method MoveFront(node: Addr)
      requires Valid() && node in Addrs(nodes)
      modifies `nodes, `cells
      ensures Valid() && Owned() == old(Owned())
      ensures var k := Position(old(nodes), node); nodes == [old(nodes)[k]] + Removed(old(nodes), k)
    {
      hide Ring;
      ghost var k := Position(nodes, node);
      RingParts(self, nodes, cells);
      AddrsRemoved(nodes, k);
      Detach(node, k);
      AddrsPrepended(nodes, old(nodes)[k]);
      Prepend(node);
    }

    /** `list_remove`. */
    method Remove(node: Addr)
      requires Valid() && node in Addrs(nodes)
      modifies `nodes, `cells, memory`live
      ensures Valid() && nodes == Removed(old(nodes), Position(old(nodes), node))
      ensures memory.live == old(memory.live) - {node} && Owned() == old(Owned()) - {node}
    {
      hide Ring;
      ghost var k := Position(nodes, node);
      RingParts(self, nodes, cells);
      AddrsRemoved(nodes, k);
      Detach(node, k);
      cells := cells - {node};
      memory.Free(node);
    }

    /** `list_destroy`: every node, then the list itself. */
    method Destroy()
      requires Valid()
      modifies `nodes, `cells, memory`live
      ensures memory.live == old(memory.live) - old(Owned())
    {
      hide Ring;
      ghost var all := Owned();
      var empty := Empty();
      while !empty
        invariant Valid() && Owned() <= all && memory.live == old(memory.live) - (all - Owned())
        invariant empty <==> nodes == []
        decreases |nodes|
      {
        var node := Front();
        Remove(node);
        empty := Empty();
      }
      memory.Free(self);
    }
  }

  lemma PositionAt(nodes: seq<ListNode>, k: nat)
    requires Apart(nodes) && k < |nodes|
    ensures nodes[k].addr in Addrs(nodes) && Position(nodes, nodes[k].addr) == k
  {
    assert nodes[k] in nodes;
  }
}
