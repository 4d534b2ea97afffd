/** The single-file cache: a null-terminated list with head and tail, and bucket chains linked one way. */
module LruNaive {
  import opened Seqs
  import LruModel

  class Node {
    var value: int
    var prev: Node?
    var next: Node?
    var hashNext: Node?

    constructor ()
      ensures value == 0 && prev == null && next == null && hashNext == null
    {
      value, prev, next, hashNext := 0, null, null, null;
    }
  }

  /** Element i of a list, null beyond either end. */
  function NodeAt(s: seq<Node>, i: int): Node? {
    if 0 <= i < |s| then s[i] else null
  }

  // ----- bucket chains -----

  ghost predicate Chained(c: seq<Node>, i: nat)
    requires i < |c|
    reads Members(c)`hashNext
  {
    c[i].hashNext == NodeAt(c, i + 1)
  }

  ghost predicate ChainOk(buckets: array<Node?>, b: nat, c: seq<Node>)
    reads buckets, Members(c)`hashNext
  {
    b < buckets.Length && Distinct(c) && buckets[b] == NodeAt(c, 0) && forall i | 0 <= i < |c| :: Chained(c, i)
  }

  ghost predicate ChainsOk(buckets: array<Node?>, chains: seq<seq<Node>>, members: set<Node>)
    reads buckets, members`hashNext
  {
    && |chains| == buckets.Length
    && (forall b | 0 <= b < |chains| :: Members(chains[b]) <= members)
    && (forall a, b | 0 <= a < b < |chains| :: Members(chains[a]) !! Members(chains[b]))
    && forall b | 0 <= b < |chains| :: ChainOk(buckets, b, chains[b])
  }

  /** The search of the request loop. */
  method Find(buckets: array<Node?>, b: nat, ghost c: seq<Node>, value: int) returns (node: Node?)
    requires ChainOk(buckets, b, c)
    ensures node != null ==> node in c && node.value == value
    ensures node == null ==> forall e <- c :: e.value != value
  {
    node := buckets[b];
    ghost var i := 0;
    while node != null && node.value != value
      invariant i <= |c| && node == NodeAt(c, i)
      invariant forall j | 0 <= j < i :: c[j].value != value
      decreases |c| - i
    {
      assert Chained(c, i);
      node := node.hashNext;
      i := i + 1;
    }
  }

  function Pushed(chains: seq<seq<Node>>, b: nat, e: Node): seq<seq<Node>>
    requires b < |chains|
  {
    chains[b := [e] + chains[b]]
  }

  /** The node becomes the first of its bucket. */
  method Push(buckets: array<Node?>, ghost chains: seq<seq<Node>>, ghost members: set<Node>, b: nat, e: Node)
    requires ChainsOk(buckets, chains, members) && b < buckets.Length && e !in members
    modifies buckets, e`hashNext
    ensures |chains| == buckets.Length && ChainsOk(buckets, Pushed(chains, b, e), members + {e})
  {
    ghost var after := Pushed(chains, b, e);
    assert ChainOk(buckets, b, chains[b]);
    e.hashNext := buckets[b];
    buckets[b] := e;
    forall a | 0 <= a < |after| ensures ChainOk(buckets, a, after[a]) {
      assert old(ChainOk(buckets, a, chains[a]));
      forall i | 0 <= i < |after[a]| ensures Chained(after[a], i) {
        if a != b { assert old(Chained(chains[a], i)); }
        else if i > 0 { assert old(Chained(chains[a], i - 1)); }
      }
    }
  }

  function Pulled(chains: seq<seq<Node>>, b: nat, k: nat): seq<seq<Node>>
    requires b < |chains| && k < |chains[b]|
  {
    chains[b := Removed(chains[b], k)]
  }

  /** The walk along the links of bucket b up to the node, which is then bypassed. A null `before` stands
      for the bucket's own cell. */
  method Pull(buckets: array<Node?>, ghost chains: seq<seq<Node>>, ghost members: set<Node>, b: nat, node: Node)
      returns (ghost k: nat)
    requires ChainsOk(buckets, chains, members) && b < |chains| && node in chains[b]
    modifies buckets, members`hashNext
    ensures k < |chains[b]| && chains[b][k] == node
    ensures ChainsOk(buckets, Pulled(chains, b, k), members - {node})
  {
    ghost var c := chains[b];
    assert ChainOk(buckets, b, c);
    var before: Node? := null;
    k := 0;
    while (if before == null then buckets[b] else before.hashNext) != node
      invariant k <= |c| && before == NodeAt(c, k - 1)
      invariant forall i | 0 <= i < k :: c[i] != node
      decreases |c| - k
    {
      assert k > 0 ==> Chained(c, k - 1);
      before := if before == null then buckets[b] else before.hashNext;
      k := k + 1;
    }
    assert k > 0 ==> Chained(c, k - 1);
    assert Chained(c, k);
    if before == null {
      buckets[b] := node.hashNext;
    } else {
      before.hashNext := node.hashNext;
    }
    ghost var after := Pulled(chains, b, k);
    RemovedMembers(c, k);
    RemovedParts(c, k);
    forall a | 0 <= a < |after| ensures ChainOk(buckets, a, after[a]) && Members(after[a]) <= members - {node} {
      assert old(ChainOk(buckets, a, chains[a]));
      forall i | 0 <= i < |after[a]| ensures Chained(after[a], i) {
        assert a == b && i >= k ==> old(Chained(c, i + 1));
        assert a == b && i < k ==> old(Chained(c, i));
        assert a != b ==> old(Chained(chains[a], i));
      }
    }
  }

  // ----- the cache -----

  function ValuesOf(s: seq<Node>): (r: seq<int>)
    reads Members(s)`value
    ensures |r| == |s| && forall i | 0 <= i < |s| :: r[i] == s[i].value
  {
    if s == [] then [] else
      assert s[0] in Members(s) && Members(s[1..]) <= Members(s);
      [s[0].value] + ValuesOf(s[1..])
  }

  lemma ValuesRemoved(s: seq<Node>, k: nat)
    requires k < |s|
    ensures ValuesOf(Removed(s, k)) == Removed(ValuesOf(s), k)
  {
    hide ValuesOf, Removed;
    RemovedParts(s, k);
    RemovedParts(ValuesOf(s), k);
    assert forall i | 0 <= i < |s| - 1 :: ValuesOf(Removed(s, k))[i] == Removed(ValuesOf(s), k)[i];
  }

  lemma ValuesPushed(e: Node, s: seq<Node>)
    ensures ValuesOf([e] + s) == [e.value] + ValuesOf(s)
  {
  }

  class Cache {
    var head: Node?
    var tail: Node?
    const buckets: array<Node?>
    const nodes: seq<Node>
    const mix: int -> nat
    var used: nat
    ghost var order: seq<Node>
    ghost var chains: seq<seq<Node>>
    ghost var members: set<Node>

    /** The allocations before the loop. */
    constructor (capacity: nat, mix: int -> nat)
      ensures Valid() && |nodes| == capacity && Keys() == []
      ensures fresh(buckets) && forall i | 0 <= i < |nodes| :: fresh(nodes[i])
    {
      hide ValuesOf, Placed, Chained, Joined;
      var all: seq<Node> := [];
      while |all| < capacity
        invariant |all| <= capacity && Distinct(all) && forall i | 0 <= i < |all| :: fresh(all[i])
      {
        var e := new Node();
        all := all + [e];
      }
      head, tail, used, order, members := null, null, 0, [], {};
      nodes := all;
      buckets := new Node?[capacity](_ => null);
      this.mix := mix;
      chains := seq(capacity, _ => []);
    }

    ghost function Keys(): seq<int>
      reads this, Members(order)`value
    {
      ValuesOf(order)
    }

    function BucketFor(value: int): (b: nat)
      requires buckets.Length > 0
      ensures b < buckets.Length
    {
      mix(value) % buckets.Length
    }

    ghost predicate Placed(e: Node)
      reads `chains, e`value
    {
      buckets.Length > 0 && BucketFor(e.value) < |chains| && e in chains[BucketFor(e.value)]
    }

    /** The chains hold the members, each in the bucket of its value, and no value twice. */
    ghost predicate Filed()
      reads `chains, `members, buckets, members`hashNext, members`value
    {
      && ChainsOk(buckets, chains, members) && (forall e <- members :: Placed(e))
      && forall e, f | e in members && f in members && e.value == f.value :: e == f
    }

    ghost predicate Joined(i: nat)
      requires i < |order|
      reads `order, Members(order)`prev, Members(order)`next
    {
      order[i].prev == NodeAt(order, i - 1) && order[i].next == NodeAt(order, i + 1)
    }

    ghost predicate List()
      reads `order, `head, `tail, Members(order)`prev, Members(order)`next
    {
      && Distinct(order) && head == NodeAt(order, 0) && tail == NodeAt(order, |order| - 1)
      && forall i | 0 <= i < |order| :: Joined(i)
    }

    /** Of nodes[..used], all but the loose ones are on the list. */
    ghost predicate Shares(loose: set<Node>)
      reads `used, `order
    {
      && Distinct(nodes) && |nodes| == buckets.Length && used <= |nodes|
      && Members(nodes[..used]) == Members(order) + loose && Members(order) !! loose
      && |order| + |loose| == used
    }

    /** List and chains hold the same nodes, the used ones. */
    ghost predicate Valid()
      reads this, buckets, Members(order), members
    {
      Filed() && List() && Shares({}) && members == Members(order)
    }

    /** Between the two halves of a request: e is on its chain and not on the list. */
    ghost predicate Loose(e: Node)
      reads this, buckets, Members(order), members
    {
      Filed() && List() && Shares({e}) && members == Members(order) + {e}
    }

    /** `unlink_node`. */
    method Unlink(node: Node, ghost k: nat)
      requires List() && k < |order| && order[k] == node
      modifies `head, `tail, `order, Members(order)`prev, Members(order)`next
      ensures List() && order == Removed(old(order), k)
    {
      hide Removed;
      RemovedParts(order, k);
      ghost var was := order;
      assert Joined(k);
      assert k > 0 ==> Joined(k - 1);
      assert k + 1 < |order| ==> Joined(k + 1);
      if node.prev != null { node.prev.next := node.next; } else { head := node.next; }
      if node.next != null { node.next.prev := node.prev; } else { tail := node.prev; }
      order := Removed(order, k);
      RemovedMembers(was, k);
      forall i | 0 <= i < |order| ensures Joined(i) {
        assert i < k ==> old(Joined(i));
        assert i >= k ==> old(Joined(i + 1));
      }
    }

    /** `prepend`. */
    method Prepend(node: Node)
      requires List() && node !in order
      modifies `head, `tail, `order, node`prev, node`next, Members(order)`prev
      ensures List() && order == [node] + old(order)
    {
      assert order != [] ==> Joined(0);
      node.prev := null;
      node.next := head;
      if head != null { head.prev := node; } else { tail := node; }
      head := node;
      order := [node] + order;
      forall i | 0 <= i < |order| ensures Joined(i) {
        if i > 0 { assert old(Joined(i - 1)); }
      }
    }

    lemma SharesParts()
      requires Shares({})
      ensures Members(order) <= Members(nodes) && |order| == used <= |nodes| == buckets.Length
    {
      forall e <- order ensures e in nodes { assert e in Members(nodes[..used]); }
    }

    lemma ValidParts()
      requires Valid()
      ensures Distinct(Keys()) && |Keys()| == used <= |nodes| == buckets.Length && |chains| == buckets.Length
      ensures forall key :: key in Keys() <==> exists e :: e in members && e.value == key
    {
      assert forall e <- order :: e in members;
      forall i, j | 0 <= i < j < |order| ensures Keys()[i] != Keys()[j] {
        assert order[i] in members && order[j] in members;
      }
    }

    /** A hit: the node leaves the list. */
    method Hit(node: Node)
      requires Valid() && node in members
      modifies `head, `tail, `order, nodes`prev, nodes`next
      ensures Loose(node) && ValuesOf(order) == LruModel.Without(old(Keys()), node.value)
    {
      hide Filed, List, Shares, ValuesOf, LruModel.Without, Distinct;
      ValidParts();
      SharesParts();
      ghost var k :| 0 <= k < |order| && order[k] == node;
      LruModel.WithoutAt(Keys(), k);
      ValuesRemoved(order, k);
      assert node in Members(nodes);
      Unlist(node, k);
      assert Filed();
    }

    /** The node is loose once it is unlinked. */
    method Unlist(node: Node, ghost k: nat)
      requires List() && Shares({}) && k < |order| && order[k] == node
      modifies `head, `tail, `order, Members(order)`prev, Members(order)`next
      ensures List() && Shares({node}) && order == Removed(old(order), k)
      ensures old(Members(order)) == Members(order) + {node} && Members(order) == old(Members(order)) - {node}
    {
      hide Distinct, Removed;
      ListParts();
      RemovedMembers(order, k);
      Unlink(node, k);
    }

    lemma ListParts()
      requires List()
      ensures Distinct(order) && tail == NodeAt(order, |order| - 1)
    {
    }

    /** A miss while there is room: the next node of the array, on no chain and on no list. */
    method TakeSpare() returns (node: Node)
      requires Valid() && used < |nodes|
      modifies `used
      ensures Filed() && List() && Shares({node}) && members == Members(order) && node in nodes
    {
      hide Filed, List;
      node := nodes[used];
      assert node !in nodes[..used];
      used := used + 1;
      assert nodes[..used] == nodes[..used - 1] + [node];
    }

    /** A miss without room: the tail leaves its chain and the list. */
    method Reuse() returns (node: Node)
      requires Valid() && used == |nodes| > 0
      modifies `head, `tail, `order, `chains, `members, buckets, nodes`prev, nodes`next, nodes`hashNext
      ensures Filed() && List() && Shares({node}) && members == Members(order) && node in nodes
      ensures old(order) == order + [node]
    {
      hide Filed, ValuesOf, Distinct, List, Removed, Shares;
      SharesParts();
      ListParts();
      assert nodes[0] in Members(nodes[..used]);
      ghost var last: nat := |order| - 1;
      node := tail;
      assert node == order[last] && node in members;
      Unfile(node);
      assert List();
      RemovedLast(order);
      Unlist(node, last);
      assert Filed();
    }

    /** The node leaves its chain. */
    method Unfile(node: Node)
      requires Filed() && node in members
      modifies `chains, `members, buckets, members`hashNext
      ensures Filed() && members == old(members) - {node}
    {
      hide ChainsOk;
      assert Placed(node);
      FiledParts();
      ghost var k := Pull(buckets, chains, members, BucketFor(node.value), node);
      chains := Pulled(chains, BucketFor(node.value), k);
      members := members - {node};
      forall m <- members ensures Placed(m) { assert old(Placed(m)); }
    }

    lemma FiledParts()
      requires Filed()
      ensures |chains| == buckets.Length && ChainsOk(buckets, chains, members)
    {
    }

    /** The node gets a new value and the first place on the chain of that value. */
    method File(node: Node, value: int)
      requires Filed() && buckets.Length > 0 && node !in members && forall m <- members :: m.value != value
      modifies `chains, `members, buckets, node`hashNext, node`value
      ensures Filed() && members == old(members) + {node} && node.value == value
    {
      hide ChainsOk;
      FiledParts();
      node.value := value;
      assert Filed() && ChainsOk(buckets, chains, members);
      ghost var had := members;
      Push(buckets, chains, members, BucketFor(value), node);
      chains := Pushed(chains, BucketFor(value), node);
      members := members + {node};
      forall m <- members ensures Placed(m) { assert m in had ==> old(Placed(m)); }
    }

    /** A miss: a node with the new value, on its chain. */
    method Miss(value: int) returns (node: Node)
      requires Valid() && value !in Keys() && |nodes| > 0
      modifies this, buckets, nodes
      ensures Loose(node) && node.value == value && node in nodes
      ensures ValuesOf(order) == LruModel.Take(old(Keys()), |nodes| - 1)
    {
      hide Filed, List, Shares, ValuesOf, Distinct;
      ValidParts();
      SharesParts();
      ghost var keys := Keys();
      if used < |nodes| {
        node := TakeSpare();
        assert ValuesOf(order) == keys;
      } else {
        node := Reuse();
        assert ValuesOf(order) == keys[..|keys| - 1];
      }
      ghost var kept := ValuesOf(order);
      LooseParts(node);
      NotAmong(value);
      File(node, value);
      assert List() && ValuesOf(order) == kept;
    }

    lemma LooseParts(node: Node)
      requires Shares({node})
      ensures node !in order && Members(order) <= Members(nodes) && |nodes| == buckets.Length && node in nodes
    {
      assert node in Members(nodes[..used]);
      forall e <- order ensures e in nodes { assert e in Members(nodes[..used]); }
    }

    lemma NotAmong(value: int)
      requires value !in ValuesOf(order)
      ensures forall e <- Members(order) :: e.value != value
    {
      forall e <- Members(order) ensures e.value != value {
        var i :| 0 <= i < |order| && order[i] == e;
        assert ValuesOf(order)[i] == e.value;
      }
    }

    method Relist(node: Node)
      requires List() && Shares({node})
      modifies `head, `tail, `order, node`prev, node`next, Members(order)`prev
      ensures List() && Shares({}) && order == [node] + old(order) && Members(order) == Members(old(order)) + {node}
    {
      hide List;
      LooseParts(node);
      Prepend(node);
    }

    /** The end of a request: the loose node goes to the front. */
    method Settle(node: Node)
      requires Loose(node)
      modifies `head, `tail, `order, nodes`prev, nodes`next
      ensures Valid() && Keys() == [node.value] + old(ValuesOf(order))
    {
      hide Filed, List, Shares, ValuesOf;
      LooseParts(node);
      ghost var was := order;
      Relist(node);
      assert Filed();
      ValuesPushed(node, was);
    }

    /** One turn of the request loop. */
    method Access(value: int) returns (hit: bool)
      requires Valid()
      modifies this, buckets, nodes
      ensures Valid() && hit == (value in old(Keys()))
      ensures Keys() == LruModel.Access(|nodes|, old(Keys()), value)
    {
      hide Filed, List, Shares, ValuesOf, Loose, Members, Distinct, LruModel.Access, LruModel.Without, LruModel.Take;
      ValidParts();
      LruModel.AccessCases(|nodes|, Keys(), value);
      if |nodes| == 0 { return false; }
      var node := Lookup(value);
      hit := node != null;
      if node != null {
        Hit(node);
      } else {
        node := Miss(value);
      }
      Settle(node);
    }

    /** The node with the value, if there is one. */
    method Lookup(value: int) returns (node: Node?)
      requires Valid() && |nodes| > 0
      ensures node != null ==> node in members && node.value == value && value in Keys()
      ensures node == null ==> value !in Keys()
    {
      ValidParts();
      ghost var b := BucketFor(value);
      assert ChainOk(buckets, b, chains[b]);
      node := Find(buckets, BucketFor(value), chains[b], value);
      assert forall e <- members :: Placed(e);
      assert Members(chains[b]) <= members;
    }
  }

  /** `main`: the capacity clamped to the number of requests, then one request after another. */
  method RunRequests(capacity: nat, mix: int -> nat, requests: seq<int>) returns (hits: nat)
    ensures hits == LruModel.Hits(capacity, requests)
  {
    hide LruModel.Access, LruModel.Run, LruModel.Hits, Cache.Valid, ValuesOf;
    var limit := if capacity < |requests| then capacity else |requests|;
    var cache := new Cache(limit, mix);
    hits := 0;
    LruModel.Start(limit);
    for i := 0 to |requests|
      invariant cache.Valid() && |cache.nodes| == limit
      invariant fresh(cache) && fresh(cache.buckets) && forall i | 0 <= i < |cache.nodes| :: fresh(cache.nodes[i])
      invariant cache.Keys() == LruModel.Run(limit, requests[..i])
      invariant hits == LruModel.Hits(limit, requests[..i])
    {
      LruModel.Next(limit, requests, i);
      var hit := cache.Access(requests[i]);
      if hit { hits := hits + 1; }
    }
    assert requests[..|requests|] == requests;
    LruModel.ClampingIsHarmless(capacity, requests);
  }
}
