/** Prim-style growth of a tree over a priority queue that orders pairs by vertex first. */
module Prim {
  import opened Base
  import opened Seqs

  datatype Pair = Pair(vertex: nat, weight: int)
  datatype Edge = Edge(u: nat, v: nat, w: int)

  class Graph {
    const V: nat
    var Adj: seq<seq<Pair>>

    constructor (V: nat)
      ensures Valid() && this.V == V && forall u, v, w :: !Linked(Adj, u, v, w)
    {
      this.V := V;
      Adj := seq(V, _ => []);
    }

    /** There is a list for every vertex, of vertices only. */
    ghost predicate Valid()
      reads this
    {
      |Adj| == V && InRange(Adj)
    }

    /** `addEdge`: the edge can be taken from both ends. */
    method AddEdge(e: Edge)
      requires Valid() && e.u < V && e.v < V
      modifies this
      ensures Valid()
      ensures forall u, v, w :: Linked(Adj, u, v, w) <==>
        old(Linked(Adj, u, v, w)) || (w == e.w && ((u == e.u && v == e.v) || (u == e.v && v == e.u)))
    {
      Adj := Adj[e.u := Adj[e.u] + [Pair(e.v, e.w)]];
      Adj := Adj[e.v := Adj[e.v] + [Pair(e.u, e.w)]];
    }
  }

  predicate InRange(adj: seq<seq<Pair>>) {
    forall u, j | 0 <= u < |adj| && 0 <= j < |adj[u]| :: adj[u][j].vertex < |adj|
  }

  /** u's list has v with weight w. */
  predicate Linked(adj: seq<seq<Pair>>, u: nat, v: nat, w: int) {
    u < |adj| && Pair(v, w) in adj[u]
  }

  // ----- what has been scanned -----

  function Edges(u: nat, list: seq<Pair>): (es: seq<Edge>)
    ensures |es| == |list| && forall j | 0 <= j < |list| :: es[j] == Edge(u, list[j].vertex, list[j].weight)
  {
    seq(|list|, j requires 0 <= j < |list| => Edge(u, list[j].vertex, list[j].weight))
  }

  predicate Vertices(adj: seq<seq<Pair>>, order: seq<nat>) {
    forall i | 0 <= i < |order| :: order[i] < |adj|
  }

  /** The edges out of the vertices of `order`, in the order in which they are scanned. */
  function AllFrom(adj: seq<seq<Pair>>, order: seq<nat>): seq<Edge>
    requires Vertices(adj, order)
  {
    if order == [] then []
    else
      var u := order[|order| - 1];
      AllFrom(adj, order[..|order| - 1]) + Edges(u, adj[u])
  }

  lemma {:induction false} AllFromIs(adj: seq<seq<Pair>>, order: seq<nat>, e: Edge)
    requires Vertices(adj, order)
    ensures e in AllFrom(adj, order) <==> e.u in order && Linked(adj, e.u, e.v, e.w)
  {
    if order != [] {
      hide Edges;
      var u, front := order[|order| - 1], order[..|order| - 1];
      assert order == front + [u];
      AllFromIs(adj, front, e);
      EdgesAre(u, adj[u], e);
    }
  }

  lemma EdgesAre(u: nat, list: seq<Pair>, e: Edge)
    ensures e in Edges(u, list) <==> e.u == u && Pair(e.v, e.w) in list
  {
    if e.u == u && Pair(e.v, e.w) in list {
      var j :| 0 <= j < |list| && list[j] == Pair(e.v, e.w);
      assert Edges(u, list)[j] == e;
    }
  }

  /** Scanned edge i is the first into v with that weight. */
  predicate First(scanned: seq<Edge>, i: nat, v: nat, key: int, parent: int)
    requires i < |scanned|
  {
    && parent >= 0 && scanned[i] == Edge(parent, v, key)
    && forall j | 0 <= j < i :: !(scanned[j].v == v && scanned[j].w == key)
  }

  predicate Found(scanned: seq<Edge>, v: nat, key: int, parent: int) {
    exists i :: 0 <= i < |scanned| && First(scanned, i, v, key, parent)
  }

  /** The heaviest scanned edge into v, the first of them, and where it comes from; INT_MIN and -1 when there is
      none. */
  predicate Best(scanned: seq<Edge>, v: nat, key: int, parent: int) {
    && key >= INT_MIN
    && (forall i | 0 <= i < |scanned| && scanned[i].v == v :: scanned[i].w <= key)
    && if key == INT_MIN then parent == -1 else Found(scanned, v, key, parent)
  }

  lemma BestStep(scanned: seq<Edge>, e: Edge, v: nat, key: int, parent: int)
    requires Best(scanned, v, key, parent)
    ensures if e.v == v && key < e.w then Best(scanned + [e], v, e.w, e.u) else Best(scanned + [e], v, key, parent)
  {
    var more := scanned + [e];
    if e.v == v && key < e.w {
      assert First(more, |scanned|, v, e.w, e.u);
    } else if key > INT_MIN {
      var i :| 0 <= i < |scanned| && First(scanned, i, v, key, parent);
      assert First(more, i, v, key, parent);
    }
  }

  predicate Queued(pq: seq<Pair>, v: nat) {
    exists i :: 0 <= i < |pq| && pq[i].vertex == v
  }

  /** Vertices outside the tree know their best edge into it, and wait in the queue if there is one. */
  predicate Frontier(scanned: seq<Edge>, mst: seq<bool>, key: seq<int>, parent: seq<int>, pq: seq<Pair>) {
    && |mst| == |key| == |parent|
    && (forall v: nat | v < |mst| && !mst[v] :: Best(scanned, v, key[v], parent[v]))
    && (forall v: nat | v < |mst| && !mst[v] && key[v] > INT_MIN :: Queued(pq, v))
    && forall i | 0 <= i < |pq| :: pq[i].vertex < |mst|
  }

  /** Queue elements of vertices outside the tree are there because of an edge. */
  predicate Earned(mst: seq<bool>, key: seq<int>, pq: seq<Pair>) {
    && |mst| == |key|
    && forall i | 0 <= i < |pq| && pq[i].vertex < |mst| && !mst[pq[i].vertex] :: key[pq[i].vertex] > INT_MIN
  }

  predicate SameInTree(mst: seq<bool>, a: seq<int>, b: seq<int>) {
    |a| == |b| == |mst| && forall v: nat | v < |mst| && mst[v] :: a[v] == b[v]
  }

  /** The inner loop: the list of a vertex that has just joined the tree. */
  method Scan(elt: nat, list: seq<Pair>, mst: seq<bool>, key0: seq<int>, parent0: seq<int>, pq0: seq<Pair>,
      ghost scanned: seq<Edge>) returns (key: seq<int>, parent: seq<int>, pq: seq<Pair>)
    requires Frontier(scanned, mst, key0, parent0, pq0) && Earned(mst, key0, pq0)
    requires forall j | 0 <= j < |list| :: list[j].vertex < |mst|
    ensures Frontier(scanned + Edges(elt, list), mst, key, parent, pq) && Earned(mst, key, pq)
    ensures SameInTree(mst, key0, key) && SameInTree(mst, parent0, parent)
  {
    key, parent, pq := key0, parent0, pq0;
    assert scanned + Edges(elt, list[..0]) == scanned;
    for j := 0 to |list|
      invariant Frontier(scanned + Edges(elt, list[..j]), mst, key, parent, pq) && Earned(mst, key, pq)
      invariant SameInTree(mst, key0, key) && SameInTree(mst, parent0, parent)
    {
      var w, v := list[j].weight, list[j].vertex;
      ghost var e := Edge(elt, v, w);
      ghost var before := scanned + Edges(elt, list[..j]);
      assert scanned + Edges(elt, list[..j + 1]) == before + [e];
      ghost var key', pq' := key, pq;
      FrontierStep(before, e, mst, key, parent, pq);
      if !mst[v] && key[v] < w {
        key := key[v := w];
        pq := pq + [Pair(v, w)];
        parent := parent[v := elt];
      }
    }
    assert list[..|list|] == list;
  }

  lemma FrontierStep(scanned: seq<Edge>, e: Edge, mst: seq<bool>, key: seq<int>, parent: seq<int>, pq: seq<Pair>)
    requires Frontier(scanned, mst, key, parent, pq) && e.v < |mst|
    ensures if !mst[e.v] && key[e.v] < e.w
            then Frontier(scanned + [e], mst, key[e.v := e.w], parent[e.v := e.u], pq + [Pair(e.v, e.w)])
            else Frontier(scanned + [e], mst, key, parent, pq)
  {
    forall v: nat | v < |mst| && !mst[v]
      ensures if e.v == v && key[v] < e.w then Best(scanned + [e], v, e.w, e.u)
              else Best(scanned + [e], v, key[v], parent[v])
    {
      BestStep(scanned, e, v, key[v], parent[v]);
    }
    var more := pq + [Pair(e.v, e.w)];
    assert more[|pq|].vertex == e.v;
    forall v: nat | v < |mst| && Queued(pq, v) ensures Queued(more, v) {
      var i :| 0 <= i < |pq| && pq[i].vertex == v;
      assert more[i].vertex == v;
    }
  }

  // ----- the tree -----

  predicate Before(p: Pair, q: Pair) {
    p.vertex < q.vertex || (p.vertex == q.vertex && p.weight < q.weight)
  }

  /** The top of the queue: no pair is lexicographically greater. */
  method Top(pq: seq<Pair>) returns (k: nat)
    requires pq != []
    ensures k < |pq| && forall i | 0 <= i < |pq| :: !Before(pq[k], pq[i])
  {
    k := 0;
    for i := 1 to |pq|
      invariant k < |pq| && forall j | 0 <= j < i :: !Before(pq[k], pq[j])
    {
      if Before(pq[k], pq[i]) { k := i; }
    }
  }

  /** An edge above INT_MIN leads from the tree to v. */
  ghost predicate Reached(adj: seq<seq<Pair>>, order: seq<nat>, v: nat) {
    exists u, x :: u in order && Linked(adj, u, v, x) && x > INT_MIN
  }

  /** Of all vertices that can be reached, the greatest is taken as vertex i of the order. */
  ghost predicate Leads(adj: seq<seq<Pair>>, order: seq<nat>, i: nat)
    requires 0 < i < |order|
  {
    forall v: nat | v < |adj| && v !in order[..i] && Reached(adj, order[..i], v) :: v <= order[i]
  }

  /** No vertex earlier than `parent` in the order has an edge of weight w to v. */
  predicate Earliest(adj: seq<seq<Pair>>, order: seq<nat>, v: nat, parent: int, w: int) {
    forall j, k | 0 <= j < k < |order| && order[k] == parent :: !Linked(adj, order[j], v, w)
  }

  /** Vertex i of the order hangs on a heaviest edge to an earlier one, the first in the order that has one. */
  ghost predicate Attached(adj: seq<seq<Pair>>, order: seq<nat>, i: nat, parent: int, w: int)
    requires 0 < i < |order| && Vertices(adj, order)
  {
    && w > INT_MIN && parent >= 0 && parent in order[..i] && Linked(adj, parent, order[i], w)
    && (forall u, x | u in order[..i] && Linked(adj, u, order[i], x) :: x <= w)
    && Earliest(adj, order[..i], order[i], parent, w)
  }

  /** No edge above INT_MIN leads from the tree to v. */
  ghost predicate CutOff(adj: seq<seq<Pair>>, order: seq<nat>, v: nat) {
    forall u, x | u in order && Linked(adj, u, v, x) :: x <= INT_MIN
  }

  /** The result: a tree grown from 0, always by the greatest vertex that can be reached and over a heaviest edge, until
      no edge leads out. */
  ghost predicate Grown(adj: seq<seq<Pair>>, order: seq<nat>, parent: seq<int>) {
    && Tree(adj, order, parent)
    && forall v: nat | v < |adj| && v !in order :: parent[v] == -1 && CutOff(adj, order, v)
  }

  ghost predicate Hangs(adj: seq<seq<Pair>>, order: seq<nat>, i: nat, parent: int)
    requires 0 < i < |order| && Vertices(adj, order)
  {
    exists w :: Attached(adj, order, i, parent, w)
  }

  ghost predicate Tree(adj: seq<seq<Pair>>, order: seq<nat>, parent: seq<int>) {
    && |parent| == |adj| && Vertices(adj, order) && order != [] && order[0] == 0 && parent[0] == -1
    && Distinct(order)
    && forall i: nat | 0 < i < |order| :: Hangs(adj, order, i, parent[order[i]]) && Leads(adj, order, i)
  }

  lemma AllFromMore(adj: seq<seq<Pair>>, order: seq<nat>, v: nat)
    requires Vertices(adj, order) && v < |adj|
    ensures Vertices(adj, order + [v])
    ensures AllFrom(adj, order + [v]) == AllFrom(adj, order) + Edges(v, adj[v])
  {
    assert (order + [v])[..|order|] == order;
  }

  /** The best scanned edge is a heaviest edge from the tree. */
  lemma BestIsHeaviest(adj: seq<seq<Pair>>, order: seq<nat>, v: nat, key: int, parent: int)
    requires Vertices(adj, order) && Distinct(order) && Best(AllFrom(adj, order), v, key, parent)
    ensures forall u, x | u in order && Linked(adj, u, v, x) :: x <= key
    ensures key > INT_MIN ==> parent >= 0 && parent in order && Linked(adj, parent, v, key)
    ensures key > INT_MIN ==> Earliest(adj, order, v, parent, key)
  {
    forall u, x | u in order && Linked(adj, u, v, x) ensures x <= key {
      AllFromIs(adj, order, Edge(u, v, x));
      var j :| 0 <= j < |AllFrom(adj, order)| && AllFrom(adj, order)[j] == Edge(u, v, x);
    }
    if key > INT_MIN {
      var i :| 0 <= i < |AllFrom(adj, order)| && First(AllFrom(adj, order), i, v, key, parent);
      assert AllFrom(adj, order)[i] == Edge(parent, v, key);
      AllFromIs(adj, order, Edge(parent, v, key));
      FirstIsEarliest(adj, order, i, v, key, parent);
    }
  }

  /** Edges are scanned in the order of the vertices they come from. */
  lemma {:induction false} FirstIsEarliest(
      adj: seq<seq<Pair>>, order: seq<nat>, i: nat, v: nat, key: int, parent: int)
    requires Vertices(adj, order) && Distinct(order)
    requires i < |AllFrom(adj, order)| && First(AllFrom(adj, order), i, v, key, parent)
    ensures Earliest(adj, order, v, parent, key)
  {
    var front, last := order[..|order| - 1], order[|order| - 1];
    var before := AllFrom(adj, front);
    assert AllFrom(adj, order) == before + Edges(last, adj[last]);
    if i < |before| {
      assert First(before, i, v, key, parent) by {
        assert forall j | 0 <= j <= i :: before[j] == AllFrom(adj, order)[j];
      }
      FirstIsEarliest(adj, front, i, v, key, parent);
      AllFromIs(adj, front, before[i]);
      assert parent in front;
    } else {
      forall k | 0 <= k < |before| ensures before[k].v != v || before[k].w != key {
        assert AllFrom(adj, order)[k] == before[k];
      }
      forall j | 0 <= j < |front| ensures !Linked(adj, order[j], v, key) {
        AllFromIs(adj, front, Edge(order[j], v, key));
        assert front[j] == order[j];
      }
    }
  }

  /** A vertex with its best edge joins the tree. */
  lemma Joins(adj: seq<seq<Pair>>, order: seq<nat>, parent: seq<int>, v: nat, key: int)
    requires Tree(adj, order, parent) && v < |adj| && v !in order
    requires Best(AllFrom(adj, order), v, key, parent[v]) && key > INT_MIN
    requires forall u: nat | u < |adj| && u !in order && Reached(adj, order, u) :: u <= v
    ensures Tree(adj, order + [v], parent)
  {
    hide Best, Attached, Hangs, AllFrom, Earliest, Reached, Leads;
    var more := order + [v];
    BestIsHeaviest(adj, order, v, key, parent[v]);
    assert more[..|order|] == order;
    HangsNow(adj, order, v, parent[v], key);
    LeadsNow(adj, order, v);
    forall i: nat | 0 < i < |more| ensures Hangs(adj, more, i, parent[more[i]]) && Leads(adj, more, i) {
      if i < |order| {
        HangsOn(adj, order, more, i, parent[order[i]]);
        LeadsOn(adj, order, more, i);
      }
    }
  }

  lemma HangsNow(adj: seq<seq<Pair>>, order: seq<nat>, v: nat, parent: int, key: int)
    requires Vertices(adj, order) && v < |adj| && order != [] && key > INT_MIN && parent >= 0 && parent in order
    requires Linked(adj, parent, v, key) && forall u, x | u in order && Linked(adj, u, v, x) :: x <= key
    requires Earliest(adj, order, v, parent, key)
    ensures Vertices(adj, order + [v]) && Hangs(adj, order + [v], |order|, parent)
  {
    assert (order + [v])[..|order|] == order;
    assert Attached(adj, order + [v], |order|, parent, key);
  }

  lemma HangsOn(adj: seq<seq<Pair>>, order: seq<nat>, more: seq<nat>, i: nat, parent: int)
    requires Vertices(adj, order) && Vertices(adj, more) && 0 < i < |order| <= |more| && order == more[..|order|]
    requires Hangs(adj, order, i, parent)
    ensures Hangs(adj, more, i, parent)
  {
    var w :| Attached(adj, order, i, parent, w);
    assert more[..i] == order[..i];
    assert Attached(adj, more, i, parent, w);
  }

  lemma LeadsNow(adj: seq<seq<Pair>>, order: seq<nat>, v: nat)
    requires order != [] && forall u: nat | u < |adj| && u !in order && Reached(adj, order, u) :: u <= v
    ensures Leads(adj, order + [v], |order|)
  {
    assert (order + [v])[..|order|] == order;
  }

  lemma LeadsOn(adj: seq<seq<Pair>>, order: seq<nat>, more: seq<nat>, i: nat)
    requires 0 < i < |order| <= |more| && order == more[..|order|] && Leads(adj, order, i)
    ensures Leads(adj, more, i)
  {
    assert more[..i] == order[..i];
  }

  predicate Marks(mst: seq<bool>, order: seq<nat>) {
    forall v: nat | v < |mst| :: mst[v] <==> v in order
  }

  /** Taking vertex elt from the queue and into the tree. */
  lemma FrontierPop(scanned: seq<Edge>, mst: seq<bool>, key: seq<int>, parent: seq<int>, pq: seq<Pair>, k: nat)
    requires Frontier(scanned, mst, key, parent, pq) && k < |pq|
    ensures var elt, rest := pq[k].vertex, pq[..k] + pq[k + 1..];
            && Frontier(scanned, mst[elt := true], key, parent, rest)
            && (Earned(mst, key, pq) ==> Earned(mst[elt := true], key, rest))
  {
    var elt, rest := pq[k].vertex, pq[..k] + pq[k + 1..];
    assert forall i | 0 <= i < |rest| :: rest[i] == pq[if i < k then i else i + 1];
    forall v: nat | v < |mst| && Queued(pq, v) && v != elt ensures Queued(rest, v) {
      var i :| 0 <= i < |pq| && pq[i].vertex == v;
      assert rest[if i < k then i else i - 1].vertex == v;
    }
  }

  /** What the outer loop keeps. */
  ghost predicate Growing(adj: seq<seq<Pair>>, order: seq<nat>, mst: seq<bool>, key: seq<int>, parent: seq<int>,
      pq: seq<Pair>)
  {
    && |mst| == |adj| > 0 && Vertices(adj, order) && Marks(mst, order)
    && Frontier(AllFrom(adj, order), mst, key, parent, pq)
    && if order == [] then pq == [Pair(0, 0)] && parent[0] == -1 else Tree(adj, order, parent) && Earned(mst, key, pq)
  }

  /** A vertex taken from the queue for the first time hangs on the tree by its best edge. */
  lemma JoinsNext(adj: seq<seq<Pair>>, order: seq<nat>, mst: seq<bool>, key: seq<int>, parent: seq<int>,
      pq: seq<Pair>, k: nat)
    requires Growing(adj, order, mst, key, parent, pq) && k < |pq|
    requires forall i | 0 <= i < |pq| :: !Before(pq[k], pq[i])
    ensures pq[k].vertex < |mst| == |key|
    ensures !mst[pq[k].vertex] ==> Tree(adj, order + [pq[k].vertex], parent)
  {
    hide Best, AllFrom;
    var elt := pq[k].vertex;
    if !mst[elt] && order != [] {
      forall u: nat | u < |adj| && u !in order && Reached(adj, order, u) ensures u <= elt {
        ReachedIsQueued(adj, order, mst, key, parent, pq, u);
        var i :| 0 <= i < |pq| && pq[i].vertex == u;
        assert !Before(pq[k], pq[i]);
      }
      Joins(adj, order, parent, elt, key[elt]);
    }
  }

  /** What can be reached from the tree waits in the queue. */
  lemma ReachedIsQueued(adj: seq<seq<Pair>>, order: seq<nat>, mst: seq<bool>, key: seq<int>, parent: seq<int>,
      pq: seq<Pair>, v: nat)
    requires Growing(adj, order, mst, key, parent, pq) && order != []
    requires v < |adj| && v !in order && Reached(adj, order, v)
    ensures Queued(pq, v)
  {
    BestIsHeaviest(adj, order, v, key[v], parent[v]);
  }

  /** Changing parents outside the tree does not matter to it. */
  lemma Stays(adj: seq<seq<Pair>>, order: seq<nat>, mst: seq<bool>, a: seq<int>, b: seq<int>)
    requires Tree(adj, order, a) && |mst| == |adj| && Marks(mst, order) && SameInTree(mst, a, b)
    ensures Tree(adj, order, b)
  {
    assert forall i | 0 <= i < |order| :: mst[order[i]];
  }

  /** One turn of the outer loop. */
  method Turn(g: Graph, ghost order0: seq<nat>, mst0: seq<bool>, key0: seq<int>, parent0: seq<int>, pq0: seq<Pair>)
      returns (ghost order: seq<nat>, mst: seq<bool>, key: seq<int>, parent: seq<int>, pq: seq<Pair>)
    requires g.Valid() && Growing(g.Adj, order0, mst0, key0, parent0, pq0) && pq0 != []
    ensures Growing(g.Adj, order, mst, key, parent, pq)
    ensures (|order| == |order0| && |pq| < |pq0|) || |order| == |order0| + 1
  {
    hide Frontier, Earned, Best, AllFrom, Tree;
    order, mst, key, parent, pq := order0, mst0, key0, parent0, pq0;
    var k := Top(pq);
    var elt := pq[k].vertex;
    JoinsNext(g.Adj, order, mst, key, parent, pq, k);
    FrontierPop(AllFrom(g.Adj, order), mst, key, parent, pq, k);
    pq := pq[..k] + pq[k + 1..];
    if mst[elt] {
      assert mst[elt := true] == mst;
      return;
    }
    AllFromMore(g.Adj, order, elt);
    mst := mst[elt := true];
    order := order + [elt];
    EarnedNow(order0, mst, key, pq);
    key, parent, pq := Scan(elt, g.Adj[elt], mst, key, parent, pq, AllFrom(g.Adj, order0));
    Stays(g.Adj, order, mst, parent0, parent);
  }

  /** After the start vertex has been taken, the queue is empty. */
  lemma EarnedNow(order: seq<nat>, mst: seq<bool>, key: seq<int>, pq: seq<Pair>)
    requires |mst| == |key| && (pq == [] || Earned(mst, key, pq))
    ensures Earned(mst, key, pq)
  {
  }

  lemma {:induction false} RoomLeft(s: seq<nat>, n: nat)
    requires Distinct(s) && forall i | 0 <= i < |s| :: s[i] < n
    ensures |s| <= n
  {
    if s == [] {
      return;
    }
    assert s[0] < n;
    if exists k :: 0 <= k < |s| && s[k] == n - 1 {
      var k :| 0 <= k < |s| && s[k] == n - 1;
      RemovedParts(s, k);
      RoomLeft(Removed(s, k), n - 1);
    } else {
      RoomLeft(s, n - 1);
    }
  }

  lemma GrowingRoom(
      adj: seq<seq<Pair>>, order: seq<nat>, mst: seq<bool>, key: seq<int>, parent: seq<int>, pq: seq<Pair>)
    requires Growing(adj, order, mst, key, parent, pq)
    ensures |order| <= |adj|
  {
    hide Frontier, Earned, Marks;
    if order != [] { RoomLeft(order, |adj|); }
  }

  lemma GrowingDone(adj: seq<seq<Pair>>, order: seq<nat>, mst: seq<bool>, key: seq<int>, parent: seq<int>)
    requires Growing(adj, order, mst, key, parent, [])
    ensures Grown(adj, order, parent)
  {
    forall v: nat | v < |adj| && v !in order ensures parent[v] == -1 && CutOff(adj, order, v) {
      assert !mst[v] && !Queued([], v);
      BestIsHeaviest(adj, order, v, key[v], parent[v]);
    }
  }

  lemma GrowingStart(adj: seq<seq<Pair>>, mst: seq<bool>, key: seq<int>, parent: seq<int>)
    requires |mst| == |key| == |parent| == |adj| > 0
    requires forall v | 0 <= v < |adj| :: !mst[v] && key[v] == INT_MIN && parent[v] == -1
    ensures Growing(adj, [], mst, key, parent, [Pair(0, 0)])
  {
  }

  /** `prim`: None stands for the exception thrown for the empty graph. */
  method Grow(g: Graph) returns (result: Option<seq<int>>, ghost order: seq<nat>)
    requires g.Valid()
    ensures result.None? <==> g.V == 0
    ensures result.Some? ==> Grown(g.Adj, order, result.value)
  {
    hide Growing, Grown;
    order := [];
    if g.V == 0 { return None, []; }
    var pq := [Pair(0, 0)];
    var mst := seq(g.V, _ => false);
    var key := seq(g.V, _ => INT_MIN);
    var parent := seq(g.V, _ => -1);
    GrowingStart(g.Adj, mst, key, parent);
    GrowingRoom(g.Adj, order, mst, key, parent, pq);
    while pq != []
      invariant Growing(g.Adj, order, mst, key, parent, pq) && |order| <= g.V
      decreases g.V - |order|, |pq|
    {
      order, mst, key, parent, pq := Turn(g, order, mst, key, parent, pq);
      GrowingRoom(g.Adj, order, mst, key, parent, pq);
    }
    GrowingDone(g.Adj, order, mst, key, parent);
    result := Some(parent);
  }

  // ----- the result is determined -----

  /** Two orders agree as far as both go. */
  lemma {:induction false} SamePrefix(
      adj: seq<seq<Pair>>, o1: seq<nat>, p1: seq<int>, o2: seq<nat>, p2: seq<int>, n: nat)
    requires Tree(adj, o1, p1) && Tree(adj, o2, p2) && n <= |o1| && n <= |o2|
    ensures o1[..n] == o2[..n]
    decreases n
  {
    hide Tree;
    if n > 0 {
      SamePrefix(adj, o1, p1, o2, p2, n - 1);
      SameNext(adj, o1, p1, o2, p2, n - 1);
      assert o1[..n] == o1[..n - 1] + [o1[n - 1]] && o2[..n] == o2[..n - 1] + [o2[n - 1]];
    }
  }

  lemma SameNext(adj: seq<seq<Pair>>, o1: seq<nat>, p1: seq<int>, o2: seq<nat>, p2: seq<int>, i: nat)
    requires Tree(adj, o1, p1) && Tree(adj, o2, p2) && i < |o1| && i < |o2| && o1[..i] == o2[..i]
    ensures o1[i] == o2[i]
  {
    hide Reached, Hangs;
    if i > 0 {
      TakenIsReached(adj, o1, p1, i);
      TakenIsReached(adj, o2, p2, i);
      assert Leads(adj, o1, i) && Leads(adj, o2, i);
    }
  }

  lemma TakenIsReached(adj: seq<seq<Pair>>, order: seq<nat>, parent: seq<int>, i: nat)
    requires Tree(adj, order, parent) && 0 < i < |order|
    ensures order[i] !in order[..i] && Reached(adj, order[..i], order[i])
  {
    assert Hangs(adj, order, i, parent[order[i]]);
    var w :| Attached(adj, order, i, parent[order[i]], w);
  }

  /** An order that stops only when nothing can be reached is not a part of a longer one. */
  lemma NotShorter(adj: seq<seq<Pair>>, o1: seq<nat>, p1: seq<int>, o2: seq<nat>, p2: seq<int>)
    requires Grown(adj, o1, p1) && Tree(adj, o2, p2)
    ensures |o1| >= |o2|
  {
    if |o1| < |o2| {
      SamePrefix(adj, o1, p1, o2, p2, |o1|);
      assert o2[..|o1|] == o1;
      TakenIsReached(adj, o2, p2, |o1|);
    }
  }

  /** Each vertex hangs on the one place it can. */
  lemma SameParent(adj: seq<seq<Pair>>, order: seq<nat>, p1: seq<int>, p2: seq<int>, i: nat)
    requires Tree(adj, order, p1) && Tree(adj, order, p2) && 0 < i < |order|
    ensures p1[order[i]] == p2[order[i]]
  {
    var v := order[i];
    assert Hangs(adj, order, i, p1[v]) && Hangs(adj, order, i, p2[v]);
    var w1 :| Attached(adj, order, i, p1[v], w1);
    var w2 :| Attached(adj, order, i, p2[v], w2);
    assert w1 == w2;
    var j1 :| 0 <= j1 < i && order[..i][j1] == p1[v];
    var j2 :| 0 <= j2 < i && order[..i][j2] == p2[v];
  }

  /** There is only one result: the properties of a grown tree say which vertex is taken at each step and where it
      hangs. */
  lemma GrownUnique(adj: seq<seq<Pair>>, o1: seq<nat>, p1: seq<int>, o2: seq<nat>, p2: seq<int>)
    requires Grown(adj, o1, p1) && Grown(adj, o2, p2)
    ensures o1 == o2 && p1 == p2
  {
    NotShorter(adj, o1, p1, o2, p2);
    NotShorter(adj, o2, p2, o1, p1);
    SamePrefix(adj, o1, p1, o2, p2, |o1|);
    assert o1[..|o1|] == o1 && o2[..|o1|] == o2;
    forall v: nat | v < |adj| ensures p1[v] == p2[v] {
      if v in o1 {
        var i :| 0 <= i < |o1| && o1[i] == v;
        if i > 0 { SameParent(adj, o1, p1, p2, i); }
      }
    }
  }

  // ----- what the parents say -----

  predicate Usable(adj: seq<seq<Pair>>, u: nat, v: nat) {
    u < |adj| && exists j :: 0 <= j < |adj[u]| && adj[u][j].vertex == v && adj[u][j].weight > INT_MIN
  }

  /** A walk from 0 over edges heavier than INT_MIN. */
  ghost predicate Walk(adj: seq<seq<Pair>>, p: seq<nat>) {
    p != [] && p[0] == 0 && forall i | 0 < i < |p| :: Usable(adj, p[i - 1], p[i])
  }

  ghost predicate Reachable(adj: seq<seq<Pair>>, v: nat) {
    exists p :: Walk(adj, p) && p[|p| - 1] == v
  }

  lemma {:induction false} WalkStays(adj: seq<seq<Pair>>, order: seq<nat>, parent: seq<int>, p: seq<nat>)
    requires InRange(adj) && Grown(adj, order, parent) && Walk(adj, p)
    ensures p[|p| - 1] in order
  {
    if |p| > 1 {
      var u, v := p[|p| - 2], p[|p| - 1];
      WalkStays(adj, order, parent, p[..|p| - 1]);
      assert Usable(adj, u, v);
      var j :| 0 <= j < |adj[u]| && adj[u][j].vertex == v && adj[u][j].weight > INT_MIN;
      assert Linked(adj, u, v, adj[u][j].weight);
      assert v !in order ==> CutOff(adj, order, v);
    }
  }

  lemma {:induction false} TreeReachable(adj: seq<seq<Pair>>, order: seq<nat>, parent: seq<int>, i: nat)
    requires Tree(adj, order, parent) && i < |order|
    ensures Reachable(adj, order[i])
    decreases i
  {
    hide Usable;
    if i == 0 {
      assert Walk(adj, [0]);
    } else {
      var j := HangsFrom(adj, order, parent, i);
      TreeReachable(adj, order, parent, j);
      var p :| Walk(adj, p) && p[|p| - 1] == order[j];
      WalkMore(adj, p, order[i]);
    }
  }

  lemma WalkMore(adj: seq<seq<Pair>>, p: seq<nat>, v: nat)
    requires Walk(adj, p) && Usable(adj, p[|p| - 1], v)
    ensures Reachable(adj, v)
  {
    hide Usable;
    var q := p + [v];
    assert q[..|p|] == p;
    assert Walk(adj, q);
  }

  /** The vertex that vertex i of the order hangs on joined before it. */
  lemma HangsFrom(adj: seq<seq<Pair>>, order: seq<nat>, parent: seq<int>, i: nat) returns (j: nat)
    requires Tree(adj, order, parent) && 0 < i < |order|
    ensures j < i && order[j] == parent[order[i]] && Usable(adj, order[j], order[i])
  {
    assert Hangs(adj, order, i, parent[order[i]]);
    var w :| Attached(adj, order, i, parent[order[i]], w);
    j :| 0 <= j < i && order[j] == parent[order[i]];
    assert Linked(adj, order[j], order[i], w);
    var k :| 0 <= k < |adj[order[j]]| && adj[order[j]][k] == Pair(order[i], w);
  }

  /** The parent is -1 exactly at the start and at the vertices that cannot be reached from it. */
  lemma ParentIffReachable(adj: seq<seq<Pair>>, order: seq<nat>, parent: seq<int>, v: nat)
    requires InRange(adj) && Grown(adj, order, parent) && v < |adj|
    ensures v in order <==> Reachable(adj, v)
    ensures parent[v] == -1 <==> v == 0 || !Reachable(adj, v)
  {
    if Reachable(adj, v) {
      var p :| Walk(adj, p) && p[|p| - 1] == v;
      WalkStays(adj, order, parent, p);
    }
    if v in order {
      var i :| 0 <= i < |order| && order[i] == v;
      TreeReachable(adj, order, parent, i);
      if i > 0 {
        assert Hangs(adj, order, i, parent[v]);
      }
    }
  }

  /** n steps from v along the parents. */
  function Climb(parent: seq<int>, v: int, n: nat): int
    decreases n
  {
    if n == 0 || !(0 <= v < |parent|) then v else Climb(parent, parent[v], n - 1)
  }

  /** Following the parents leads to 0 without ever meeting a vertex again: each one joined earlier. */
  lemma {:induction false} ClimbEnds(adj: seq<seq<Pair>>, order: seq<nat>, parent: seq<int>, i: nat)
    returns (n: nat)
    requires Tree(adj, order, parent) && i < |order|
    ensures n <= i && Climb(parent, order[i], n) == 0
    decreases i
  {
    if i == 0 {
      n := 0;
    } else {
      var j := HangsFrom(adj, order, parent, i);
      n := ClimbEnds(adj, order, parent, j);
      n := n + 1;
    }
  }
}
