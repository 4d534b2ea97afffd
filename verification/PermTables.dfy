/** From tables to cycles: `create_loops` and `simplify_loops`. */
module PermTables {
  import opened PermLoops
  import opened Seqs

  /** A permutation of the domain given by its table. */
  predicate IsPerm(d: Domain, t: seq<int>) {
    |t| == d.Size() && Distinct(t) && Inside(d, t)
  }

  function At(d: Domain, t: seq<int>, x: int): int
    requires |t| == d.Size() && d.Has(x)
  {
    t[x - d.start]
  }

  lemma AtHas(d: Domain, t: seq<int>, x: int)
    requires IsPerm(d, t) && d.Has(x)
    ensures d.Has(At(d, t, x))
  {
    assert t[x - d.start] in t;
  }

  lemma AtInjective(d: Domain, t: seq<int>, x: int, y: int)
    requires IsPerm(d, t) && d.Has(x) && d.Has(y) && At(d, t, x) == At(d, t, y)
    ensures x == y
  {
  }

  // ----- lists of cycles -----

  /** A list of cycles acts from the first to the last. */
  function ApplyAll(loops: seq<Loop>, x: int): int {
    if loops == [] then x else ApplyAll(loops[1..], Apply(loops[0], x))
  }

  lemma {:induction false} ApplyAllJoin(a: seq<Loop>, b: seq<Loop>, x: int)
    ensures ApplyAll(a + b, x) == ApplyAll(b, ApplyAll(a, x))
  {
    if a == [] {
      assert a + b == b;
    } else {
      assert (a + b)[1..] == a[1..] + b;
      ApplyAllJoin(a[1..], b, Apply(a[0], x));
    }
  }

  ghost predicate Disjoint(loops: seq<Loop>) {
    forall i, j | 0 <= i < j < |loops| :: Apart(loops[i], loops[j])
  }

  ghost predicate Apart(a: Loop, b: Loop) {
    forall x <- a :: x !in b
  }

  /** x is mentioned by some loop of the list. */
  ghost predicate Mentions(loops: seq<Loop>, x: int) {
    exists l <- loops :: x in l
  }

  lemma {:induction false} ApplyAllOutside(loops: seq<Loop>, x: int)
    requires !Mentions(loops, x)
    ensures ApplyAll(loops, x) == x
  {
    if loops != [] {
      assert loops[0] in loops;
      forall l <- loops[1..] ensures x !in l { assert l in loops; }
      ApplyAllOutside(loops[1..], x);
    }
  }

  /** Disjoint cycles do not disturb each other: only the one that mentions x acts on it. */
  lemma {:induction false} ApplyAllInside(loops: seq<Loop>, k: nat, x: int)
    requires Disjoint(loops) && k < |loops| && x in loops[k]
    ensures ApplyAll(loops, x) == Apply(loops[k], x)
  {
    var rest := loops[1..];
    assert Disjoint(rest) by {
      forall i, j | 0 <= i < j < |rest| ensures Apart(rest[i], rest[j]) { assert Apart(loops[i + 1], loops[j + 1]); }
    }
    if k == 0 {
      var y := Apply(loops[0], x);
      forall l <- rest ensures y !in l {
        var j :| 0 <= j < |rest| && rest[j] == l;
        assert Apart(loops[0], loops[j + 1]);
      }
      ApplyAllOutside(rest, y);
    } else {
      assert Apart(loops[0], loops[k]);
      assert x !in loops[0];
      ApplyAllInside(rest, k - 1, x);
    }
  }

  // ----- what create_loops promises -----

  /** The loop is one whole cycle of the table. */
  ghost predicate LoopOf(d: Domain, t: seq<int>, l: Loop) {
    && |t| == d.Size() && IsLoop(d, l) && (forall i | 0 <= i < |l| :: d.Has(l[i]))
    && forall i | 0 <= i < |l| :: Step(d, t, l, i)
  }

  ghost predicate Step(d: Domain, t: seq<int>, l: Loop, i: nat)
    requires |t| == d.Size() && i < |l| && d.Has(l[i])
  {
    At(d, t, l[i]) == l[Succ(l, i)]
  }

  ghost predicate Decomposes(d: Domain, t: seq<int>, loops: seq<Loop>) {
    && (forall l <- loops :: LoopOf(d, t, l))
    && Disjoint(loops)
    && (forall x | d.Has(x) :: Mentions(loops, x))
    && forall i, j | 0 <= i < j < |loops| :: Before(loops[i], loops[j])
  }

  ghost predicate Before(a: Loop, b: Loop) {
    a != [] && b != [] && a[0] < b[0]
  }

  /** The loops act on every element as the table does. */
  lemma DecomposedAction(d: Domain, t: seq<int>, loops: seq<Loop>, x: int)
    requires Decomposes(d, t, loops) && |t| == d.Size() && d.Has(x)
    ensures ApplyAll(loops, x) == At(d, t, x)
  {
    assert Mentions(loops, x);
    var l :| l in loops && x in l;
    var k :| 0 <= k < |loops| && loops[k] == l;
    ApplyAllInside(loops, k, x);
    var i :| 0 <= i < |l| && l[i] == x;
    ApplyAt(l, i);
    assert Step(d, t, l, i);
  }

  // ----- a cycle being traced -----

  /** The first elements of a cycle, in the order of the table. */
  ghost predicate Path(d: Domain, t: seq<int>, p: Loop) {
    && |t| == d.Size() && IsLoop(d, p) && (forall i | 0 <= i < |p| :: d.Has(p[i]))
    && forall i | 0 <= i < |p| - 1 :: At(d, t, p[i]) == p[i + 1]
  }

  ghost predicate AllLoops(d: Domain, t: seq<int>, loops: seq<Loop>) {
    forall l <- loops :: LoopOf(d, t, l)
  }

  /** The next element of an open path is new: neither on the path nor on a finished cycle. */
  lemma NextIsNew(d: Domain, t: seq<int>, p: Loop, loops: seq<Loop>)
    requires IsPerm(d, t) && Path(d, t, p) && AllLoops(d, t, loops)
    requires forall x <- p :: !Mentions(loops, x)
    requires At(d, t, p[|p| - 1]) != p[0]
    ensures At(d, t, p[|p| - 1]) !in p && !Mentions(loops, At(d, t, p[|p| - 1]))
  {
    var last := p[|p| - 1];
    var nxt := At(d, t, last);
    assert last in p;
    if nxt in p {
      var j :| 0 <= j < |p| && p[j] == nxt;
      assert At(d, t, p[j - 1]) == p[j];
      AtInjective(d, t, p[j - 1], last);
      assert false;
    }
    if Mentions(loops, nxt) {
      var l :| l in loops && nxt in l;
      var j :| 0 <= j < |l| && l[j] == nxt;
      var i := if j == 0 then |l| - 1 else j - 1;
      assert LoopOf(d, t, l) && Step(d, t, l, i);
      AtInjective(d, t, l[i], last);
      assert false;
    }
  }

  /** A path of different elements is no longer than the domain. */
  lemma PathBound(d: Domain, p: seq<int>)
    requires d.Valid() && Distinct(p) && Inside(d, p)
    ensures |p| <= d.Size()
  {
    DistinctSize(p);
    SubsetSize((set x | x in p), Interval(d.start, d.fin));
  }

  lemma {:induction false} DistinctSize(p: seq<int>)
    requires Distinct(p)
    ensures |set x | x in p| == |p|
  {
    if p != [] {
      var q := p[..|p| - 1];
      DistinctSize(q);
      assert p == q + [p[|p| - 1]];
      assert (set x | x in p) == (set x | x in q) + {p[|p| - 1]};
      assert p[|p| - 1] !in q;
    }
  }

  function Interval(a: int, b: int): (s: set<int>)
    requires a <= b + 1
    ensures |s| == b - a + 1 && forall x :: x in s <==> a <= x <= b
    decreases b - a + 1
  {
    if a > b then {} else Interval(a, b - 1) + {b}
  }

  // ----- create_loops -----

  /** Between two rounds: exactly the elements of the finished loops are marked, in particular
      everything before position m, and the loops are in order of their first elements. */
  ghost predicate Traced(d: Domain, t: seq<int>, loops: seq<Loop>, marked: seq<bool>, m: int) {
    && |marked| == d.Size() && 0 <= m <= |marked|
    && AllLoops(d, t, loops) && Disjoint(loops)
    && (forall i, j | 0 <= i < j < |loops| :: Before(loops[i], loops[j]))
    && (forall l <- loops :: l != [] && l[0] < d.start + m)
    && (forall x | d.Has(x) :: marked[x - d.start] <==> Mentions(loops, x))
    && (forall i | 0 <= i < m :: marked[i])
  }

  /** While a cycle from `d.start + m` is being traced. */
  ghost predicate Tracing(d: Domain, t: seq<int>, loops: seq<Loop>, p: Loop, marked: seq<bool>, m: int) {
    && |marked| == d.Size() && 0 <= m < |marked|
    && Path(d, t, p) && p[0] == d.start + m
    && (forall x <- p :: !Mentions(loops, x))
    && (forall x | d.Has(x) :: marked[x - d.start] <==> Mentions(loops, x) || x in p)
  }

  lemma TraceOne(d: Domain, t: seq<int>, loops: seq<Loop>, p: Loop, marked: seq<bool>, was: seq<bool>, m: int, p1: Loop)
    requires IsPerm(d, t) && Traced(d, t, loops, was, m) && Tracing(d, t, loops, p, marked, m)
    requires At(d, t, p[|p| - 1]) != p[0]
    requires p1 == p + [At(d, t, p[|p| - 1])]
    ensures
      var x := At(d, t, p[|p| - 1]);
      d.Has(x) && x !in p && IsLoop(d, p1) && Tracing(d, t, loops, p1, marked[x - d.start := true], m)
  {
    var x := At(d, t, p[|p| - 1]);
    AtHas(d, t, p[|p| - 1]);
    NextIsNew(d, t, p, loops);
    assert !was[x - d.start];
    assert p1[0] == p[0];
    assert forall y <- p1 :: y in p || y == x;
  }

  lemma {:induction false} MentionsOneMore(loops: seq<Loop>, l: Loop, x: int)
    ensures Mentions(loops + [l], x) <==> Mentions(loops, x) || x in l
  {
    if x in l { assert l in loops + [l]; }
    if Mentions(loops, x) {
      var k :| k in loops && x in k;
      assert k in loops + [l];
    }
  }

  lemma ClosedLoop(d: Domain, t: seq<int>, p: Loop)
    requires Path(d, t, p) && At(d, t, p[|p| - 1]) == p[0]
    ensures LoopOf(d, t, p)
  {
    forall i | 0 <= i < |p| ensures Step(d, t, p, i) { }
  }

  lemma OrderKept(loops: seq<Loop>, p: Loop)
    requires Disjoint(loops) && (forall i, j | 0 <= i < j < |loops| :: Before(loops[i], loops[j]))
    requires p != [] && (forall l <- loops :: l != [] && l[0] < p[0]) && forall x <- p :: !Mentions(loops, x)
    ensures
      var more := loops + [p];
      Disjoint(more) && forall i, j | 0 <= i < j < |more| :: Before(more[i], more[j])
  {
    var more := loops + [p];
    forall i, j | 0 <= i < j < |more| ensures Apart(more[i], more[j]) && Before(more[i], more[j]) {
      if j < |loops| {
        assert Apart(loops[i], loops[j]) && Before(loops[i], loops[j]);
      } else {
        assert more[i] == loops[i] && loops[i] in loops;
        forall x <- loops[i] ensures x !in p { assert Mentions(loops, x); }
      }
    }
  }

  lemma MarksKept(d: Domain, t: seq<int>, loops: seq<Loop>, p: Loop, marked: seq<bool>, was: seq<bool>, m: int)
    requires Traced(d, t, loops, was, m) && Tracing(d, t, loops, p, marked, m)
    ensures forall x | d.Has(x) :: marked[x - d.start] <==> Mentions(loops + [p], x)
    ensures forall i | 0 <= i < m + 1 :: marked[i]
  {
    forall x | d.Has(x) ensures marked[x - d.start] <==> Mentions(loops + [p], x) { MentionsOneMore(loops, p, x); }
    forall i | 0 <= i < m + 1 ensures marked[i] {
      var x := d.start + i;
      assert d.Has(x);
      assert i < m ==> was[x - d.start];
      assert p[0] in p;
      assert marked[x - d.start];
    }
  }

  lemma TraceDone(d: Domain, t: seq<int>, loops: seq<Loop>, p: Loop, marked: seq<bool>, was: seq<bool>, m: int)
    requires IsPerm(d, t) && Traced(d, t, loops, was, m) && Tracing(d, t, loops, p, marked, m)
    requires At(d, t, p[|p| - 1]) == p[0]
    ensures Traced(d, t, loops + [p], marked, m + 1)
  {
    hide LoopOf, Apart, Before, Mentions, IsPerm;
    ClosedLoop(d, t, p);
    OrderKept(loops, p);
    MarksKept(d, t, loops, p, marked, was, m);
  }

  lemma AllTraced(d: Domain, t: seq<int>, loops: seq<Loop>, marked: seq<bool>)
    requires Traced(d, t, loops, marked, |marked|)
    ensures Decomposes(d, t, loops)
  {
    forall x | d.Has(x) ensures Mentions(loops, x) { assert marked[x - d.start]; }
  }

  /** The cycles of a table, found by walking it from every element not yet seen. */
  method CreateLoops(d: Domain, table: array<int>) returns (loops: seq<Loop>)
    requires d.Valid() && IsPerm(d, table[..])
    ensures Decomposes(d, table[..], loops)
  {
    var n := table.Length;
    var marked := new bool[n](_ => false);
    loops := [];
    var m := 0;
    while m < n
      invariant Traced(d, table[..], loops, marked[..], m)
      invariant m < n ==> !marked[m]
      invariant table[..] == old(table[..])
    {
      ghost var was := marked[..];
      ghost var before := loops;
      var p := TraceLoop(d, table, marked, m, loops);
      loops := loops + [p];
      // the next element that is not marked
      m := m + 1;
      while m < n && marked[m]
        invariant m <= n && Traced(d, table[..], loops, marked[..], m)
      {
        forall l <- loops ensures l != [] && l[0] < d.start + (m + 1) { }
        m := m + 1;
      }
    }
    AllTraced(d, table[..], loops, marked[..]);
  }

  lemma TraceStart(d: Domain, t: seq<int>, loops: seq<Loop>, was: seq<bool>, m: int)
    requires IsPerm(d, t) && Traced(d, t, loops, was, m) && 0 <= m < |was| && !was[m]
    ensures Tracing(d, t, loops, [d.start + m], was[m := true], m) && IsCycle(d, [d.start + m])
  {
    var first := d.start + m;
    assert d.Has(first) && !was[first - d.start];
    assert forall x :: x in [first] <==> x == first;
  }

  lemma TracingFacts(d: Domain, t: seq<int>, loops: seq<Loop>, p: Loop, marked: seq<bool>, m: int)
    requires d.Valid() && Tracing(d, t, loops, p, marked, m)
    ensures |t| == d.Size() && |marked| == d.Size() && IsLoop(d, p) && p[0] == d.start + m
    ensures d.Has(p[|p| - 1]) && |p| <= d.Size()
  {
    PathBound(d, p);
  }

  /** One cycle, from the element at position m until it comes back. */
  method TraceLoop(d: Domain, table: array<int>, marked: array<bool>, m: nat, ghost loops: seq<Loop>) returns (p: Loop)
    requires d.Valid() && IsPerm(d, table[..]) && m < marked.Length == table.Length && !marked[m]
    requires Traced(d, table[..], loops, marked[..], m)
    modifies marked
    ensures Traced(d, table[..], loops + [p], marked[..], m + 1)
  {
    hide Tracing, Traced, IsPerm, IsLoop, IsCycle;
    ghost var t, was := table[..], marked[..];
    var first := d.start + m;
    TraceStart(d, t, loops, was, m);
    var perm := new PermLoop([first], d);
    SingleRolled(first, perm.loop);
    marked[m] := true;
    assert marked[..] == was[m := true];
    TracingFacts(d, t, loops, perm.loop, marked[..], m);
    var nxt := table[m];
    while nxt != first
      invariant fresh(perm) && table[..] == t && marked.Length == table.Length
      invariant Tracing(d, t, loops, perm.loop, marked[..], m) && |t| == d.Size() && IsLoop(d, perm.loop)
      invariant perm.loop != [] && perm.loop[0] == first && d.Has(perm.loop[|perm.loop| - 1])
      invariant nxt == At(d, t, perm.loop[|perm.loop| - 1])
      decreases d.Size() - |perm.loop|
    {
      ghost var p0, marked0 := perm.loop, marked[..];
      TraceOne(d, t, loops, p0, marked0, was, m, p0 + [nxt]);
      TracingFacts(d, t, loops, p0 + [nxt], marked0[nxt - d.start := true], m);
      perm.Add(nxt, d);
      LoopRolled(d, p0 + [nxt], perm.loop);
      marked[nxt - d.start] := true;
      assert marked[..] == marked0[nxt - d.start := true];
      nxt := table[nxt - d.start];
    }
    TraceDone(d, t, loops, perm.loop, marked[..], was, m);
    p := perm.loop;
  }

  /** `reroll` inside `add` never rotates here. */
  lemma LoopRolled(d: Domain, p: Loop, r: Loop)
    requires IsLoop(d, p) && Rerolled(p, r)
    ensures r == p
  {
    AlreadyRolled(p, r);
  }

  lemma SingleRolled(x: int, r: Loop)
    requires Rerolled([x], r)
    ensures r == [x]
  {
    AlreadyRolled([x], r);
  }

  // ----- simplify_loops -----

  /** The table sends every element where the cycles, applied first to last, send it. */
  ghost predicate ActsAs(d: Domain, t: seq<int>, loops: seq<Loop>) {
    IsPerm(d, t) && forall x {:trigger ApplyAll(loops, x)} | d.Has(x) :: At(d, t, x) == ApplyAll(loops, x)
  }

  lemma IdentityActs(d: Domain, t: seq<int>)
    requires d.Valid() && |t| == d.Size() && forall i | 0 <= i < |t| :: t[i] == d.start + i
    ensures ActsAs(d, t, [])
  {
  }

  lemma ComposedDistinct(d: Domain, l: Loop, was: seq<int>, now: seq<int>, i: nat, j: nat)
    requires Distinct(l) && IsPerm(d, was) && Composed(d, l, was, now) && i < j < |now|
    ensures now[i] != now[j]
  {
    hide Apply;
    var x, y := d.start + i, d.start + j;
    assert ComposedAt(d, l, was, now, x) && ComposedAt(d, l, was, now, y);
    if Apply(l, x) == Apply(l, y) { ApplyInjective(l, x, y); }
  }

  lemma ComposedInside(d: Domain, l: Loop, was: seq<int>, now: seq<int>, i: nat)
    requires IsPerm(d, was) && Composed(d, l, was, now) && i < |now|
    ensures d.Has(now[i])
  {
    hide Apply;
    var x := d.start + i;
    assert ComposedAt(d, l, was, now, x);
    AtHas(d, was, Apply(l, x));
  }

  lemma ComposedIsPerm(d: Domain, l: Loop, was: seq<int>, now: seq<int>)
    requires d.Valid() && Distinct(l) && IsPerm(d, was) && Composed(d, l, was, now)
    ensures IsPerm(d, now)
  {
    forall i, j | 0 <= i < j < |now| ensures now[i] != now[j] { ComposedDistinct(d, l, was, now, i, j); }
    forall y <- now ensures d.Has(y) {
      var i :| 0 <= i < |now| && now[i] == y;
      ComposedInside(d, l, was, now, i);
    }
  }

  /** Applying one more cycle to the table puts it in front of those already applied. */
  lemma ComposeStep(d: Domain, l: Loop, rest: seq<Loop>, was: seq<int>, now: seq<int>)
    requires d.Valid() && Distinct(l) && ActsAs(d, was, rest) && Composed(d, l, was, now)
    ensures ActsAs(d, now, [l] + rest)
  {
    ComposedIsPerm(d, l, was, now);
    assert ([l] + rest)[1..] == rest;
    forall x | d.Has(x) ensures At(d, now, x) == ApplyAll([l] + rest, x) {
      assert ComposedAt(d, l, was, now, x);
      assert At(d, was, Apply(l, x)) == ApplyAll(rest, Apply(l, x));
    }
  }

  ghost predicate AllIsLoop(d: Domain, loops: seq<Loop>) {
    forall l <- loops :: IsLoop(d, l)
  }

  /** Disjoint loops in normal form that mention the whole domain, smallest first elements first. */
  ghost predicate Ascending(d: Domain, loops: seq<Loop>) {
    && AllIsLoop(d, loops) && Disjoint(loops)
    && (forall x | d.Has(x) :: Mentions(loops, x))
    && forall i, j | 0 <= i < j < |loops| :: Before(loops[i], loops[j])
  }

  /** Algorithm B: whatever cycles go in, disjoint cycles with the same product come out. */
  method SimplifyLoops(d: Domain, input: seq<Loop>) returns (loops: seq<Loop>)
    requires d.Valid() && AllIsLoop(d, input)
    ensures Ascending(d, loops)
    ensures forall x | d.Has(x) :: ApplyAll(loops, x) == ApplyAll(input, x)
  {
    hide ActsAs, Decomposes, IsPerm, IsLoop, Composed, ApplyAll;
    var table := new int[d.Size()](i => d.start + i);
    IdentityActs(d, table[..]);
    var k := |input|;
    assert input[k..] == [];
    while k > 0
      invariant 0 <= k <= |input| && ActsAs(d, table[..], input[k..])
    {
      k := k - 1;
      LoopIsDistinct(d, input[k]);
      ghost var was := table[..];
      var loop := new PermLoop(input[k], d);
      LoopRolled(d, input[k], loop.loop);
      loop.ApplyTable(d, table);
      ComposeStep(d, input[k], input[k + 1..], was, table[..]);
      assert [input[k]] + input[k + 1..] == input[k..];
    }
    assert input[0..] == input;
    ActsPerm(d, table[..], input);
    loops := CreateLoops(d, table);
    forall x | d.Has(x) ensures ApplyAll(loops, x) == ApplyAll(input, x) { SameAction(d, table[..], input, loops, x); }
    DecomposedAscending(d, table[..], loops);
  }

  lemma LoopIsDistinct(d: Domain, l: Loop)
    requires IsLoop(d, l)
    ensures IsCycle(d, l) && Distinct(l)
  {
  }

  lemma ActsPerm(d: Domain, t: seq<int>, loops: seq<Loop>)
    requires ActsAs(d, t, loops)
    ensures IsPerm(d, t)
  {
  }

  lemma SameAction(d: Domain, t: seq<int>, input: seq<Loop>, loops: seq<Loop>, x: int)
    requires ActsAs(d, t, input) && Decomposes(d, t, loops) && d.Has(x)
    ensures ApplyAll(loops, x) == ApplyAll(input, x)
  {
    DecomposedAction(d, t, loops, x);
  }

  lemma DecomposedAscending(d: Domain, t: seq<int>, loops: seq<Loop>)
    requires Decomposes(d, t, loops)
    ensures Ascending(d, loops)
  {
    forall l <- loops ensures IsLoop(d, l) { assert LoopOf(d, t, l); }
  }
}
