/** The histogram kernel: every interleaving of its work items gives the sequential histogram.
    Barriers and atomics follow sections 6.12.8 and 6.12.11 of the OpenCL 1.2 specification. */
module GpuHistogram {
  import opened Base
  import opened Strides

  /** What a launch is given: `groups` work groups of `lsize` items, the data and the bins. */
  datatype Launch = Launch(groups: nat, lsize: nat, data: seq<nat>, bins: nat) {
    predicate Valid() {
      lsize > 0 && GlobalSize() > 0 && forall d <- data :: d < bins
    }

    function GlobalSize(): nat {
      groups * lsize
    }

    function GlobalId(g: nat, l: nat): nat {
      g * lsize + l
    }
  }

  /** A work item: `phase` counts the loops it has finished (a finished loop means it has reached
      the barrier behind it), `i` is its loop counter, and `read` the local bin it has read and is
      about to add to the global histogram. */
  datatype Item = Item(phase: nat, i: nat, read: Option<int>)

  /** `local[g]` is the local memory of group `g`; None is a bin nobody has written.
      `fault` records that such a bin was used. */
  datatype State = State(items: seq<seq<Item>>, local: seq<seq<Option<int>>>, hist: seq<int>, fault: bool)

  // ----- the kernel as a step machine -----

  predicate Shape(c: Launch, s: State) {
    && |s.items| == |s.local| == c.groups && |s.hist| == c.bins
    && (forall g | 0 <= g < c.groups :: |s.items[g]| == c.lsize)
    && (forall g | 0 <= g < c.groups :: |s.local[g]| == c.bins)
  }

  predicate IsItem(c: Launch, g: int, l: int) {
    0 <= g < c.groups && 0 <= l < c.lsize
  }

  /** An item may work in the phase it is in once its whole group has reached that phase. */
  predicate Enabled(c: Launch, s: State, g: nat, l: nat)
    requires Shape(c, s) && IsItem(c, g, l)
  {
    s.items[g][l].phase < 3 &&
    forall k | 0 <= k < c.lsize :: s.items[g][k].phase >= s.items[g][l].phase
  }

  function SetItem(s: State, g: nat, l: nat, it: Item): State
    requires g < |s.items| && l < |s.items[g]|
  {
    s.(items := s.items[g := s.items[g][l := it]])
  }

  function SetLocal(s: State, g: nat, b: nat, v: Option<int>): State
    requires g < |s.local| && b < |s.local[g]|
  {
    s.(local := s.local[g := s.local[g][b := v]])
  }

  /** One step of one item. */
  function Act(c: Launch, s: State, g: nat, l: nat): (s1: State)
    requires c.Valid() && Shape(c, s) && IsItem(c, g, l) && Enabled(c, s, g, l)
    ensures Shape(c, s1)
  {
    var it := s.items[g][l];
    if it.phase == 0 then
      if it.i < c.bins then SetItem(SetLocal(s, g, it.i, Some(0)), g, l, it.(i := it.i + c.lsize))
      else SetItem(s, g, l, Item(1, c.GlobalId(g, l), None))
    else if it.phase == 1 then
      if it.i < |c.data| then
        assert c.data[it.i] in c.data;
        var b := c.data[it.i];
        var s1 := SetItem(s, g, l, it.(i := it.i + c.GlobalSize()));
        if s.local[g][b].None? then s1.(fault := true)
        else SetLocal(s1, g, b, Some(s.local[g][b].value + 1))
      else SetItem(s, g, l, Item(2, l, None))
    else
      if it.i >= c.bins then SetItem(s, g, l, Item(3, it.i, None))
      else if it.read.None? then
        if s.local[g][it.i].None? then s.(fault := true)
        else SetItem(s, g, l, it.(read := s.local[g][it.i]))
      else
        SetItem(s.(hist := s.hist[it.i := s.hist[it.i] + it.read.value]), g, l, Item(2, it.i + c.lsize, None))
  }

  ghost predicate Initial(c: Launch, hist: seq<int>, s: State) {
    && Shape(c, s) && s.hist == hist && !s.fault
    && (forall g, l | IsItem(c, g, l) :: s.items[g][l] == Item(0, l, None))
    && (forall g, b | 0 <= g < c.groups && 0 <= b < c.bins :: s.local[g][b] == None)
  }

  ghost predicate Next(c: Launch, s: State, s1: State)
    requires c.Valid() && Shape(c, s)
  {
    exists g: nat, l: nat :: IsItem(c, g, l) && Enabled(c, s, g, l) && s1 == Act(c, s, g, l)
  }

  /** Every item has left the kernel. */
  ghost predicate Finished(c: Launch, s: State)
    requires Shape(c, s)
  {
    forall g, l | IsItem(c, g, l) :: s.items[g][l].phase == 3
  }

  // ----- the sequential histogram -----

  /** How many of the data equal `b`. */
  function Count(data: seq<nat>, b: nat): nat {
    if data == [] then 0 else (if data[0] == b then 1 else 0) + Count(data[1..], b)
  }

  lemma {:induction false} CountSnoc(data: seq<nat>, x: nat, b: nat)
    ensures Count(data + [x], b) == Count(data, b) + (if x == b then 1 else 0)
  {
    if data == [] {
      assert data + [x] == [x] && [x][1..] == [];
      assert Count([], b) == 0;
    } else {
      CountSnoc(data[1..], x, b);
      assert (data + [x])[1..] == data[1..] + [x];
    }
  }

  /** `hist_ref`: one pass over the data. */
  method HistRef(data: array<nat>, hist: array<int>)
    requires forall i | 0 <= i < data.Length :: data[i] < hist.Length
    requires data as object != hist as object
    modifies hist
    ensures forall b | 0 <= b < hist.Length :: hist[b] == old(hist[b]) + Count(data[..], b)
  {
    var i := 0;
    while i < data.Length
      invariant i <= data.Length
      invariant data[..] == old(data[..])
      invariant forall b | 0 <= b < hist.Length :: hist[b] == old(hist[b]) + Count(data[..i], b)
    {
      forall b | 0 <= b < hist.Length
        ensures Count(data[..i + 1], b) == Count(data[..i], b) + (if data[i] == b then 1 else 0)
      {
        assert data[..i + 1] == data[..i] + [data[i]];
        CountSnoc(data[..i], data[i], b);
      }
      hist[data[i]] := hist[data[i]] + 1;
      i := i + 1;
    }
    assert data[..i] == data[..];
  }

  // ----- who counts what -----

  /** The data equal to `b` that an item whose counter is `from` has still to count. */
  function Ahead(c: Launch, from: nat, b: nat): nat
    requires c.GlobalSize() > 0
    decreases |c.data| - from
  {
    if from >= |c.data| then 0
    else (if c.data[from] == b then 1 else 0) + Ahead(c, from + c.GlobalSize(), b)
  }

  /** What the item has added to its group's bin `b`. */
  function Added(c: Launch, it: Item, g: nat, l: nat, b: nat): int
    requires c.GlobalSize() > 0
  {
    if it.phase == 0 then 0
    else Ahead(c, c.GlobalId(g, l), b) - (if it.phase == 1 then Ahead(c, it.i, b) else 0)
  }

  function GroupAdded(c: Launch, row: seq<Item>, g: nat, b: nat, n: nat): int
    requires c.GlobalSize() > 0 && n <= |row|
  {
    if n == 0 then 0 else GroupAdded(c, row, g, b, n - 1) + Added(c, row[n - 1], g, n - 1, b)
  }

  /** What the whole group counts in bin `b`. */
  function GroupTotal(c: Launch, g: nat, b: nat, n: nat): nat
    requires c.GlobalSize() > 0
  {
    if n == 0 then 0 else GroupTotal(c, g, b, n - 1) + Ahead(c, c.GlobalId(g, n - 1), b)
  }

  /** The item that zeroes bin `b` and later merges it. */
  function Owner(c: Launch, b: nat): (l: nat)
    requires c.lsize > 0
    ensures l < c.lsize
  {
    b % c.lsize
  }

  predicate Zeroed(c: Launch, row: seq<Item>, b: nat)
    requires c.lsize > 0 && |row| == c.lsize
  {
    row[Owner(c, b)].phase >= 1 || row[Owner(c, b)].i > b
  }

  predicate Merged(c: Launch, row: seq<Item>, b: nat)
    requires c.lsize > 0 && |row| == c.lsize
  {
    row[Owner(c, b)].phase == 3 || (row[Owner(c, b)].phase == 2 && row[Owner(c, b)].i > b)
  }

  /** What the first `n` groups have merged into bin `b`. */
  function MergedSum(c: Launch, items: seq<seq<Item>>, b: nat, n: nat): nat
    requires c.GlobalSize() > 0 && c.lsize > 0 && n <= |items| && forall g | 0 <= g < n :: |items[g]| == c.lsize
  {
    if n == 0 then 0
    else MergedSum(c, items, b, n - 1) + (if Merged(c, items[n - 1], b) then GroupTotal(c, n - 1, b, c.lsize) else 0)
  }

  // ----- the invariant -----

  /** One item: where its counter can be. */
  predicate ItemOk(c: Launch, s: State, g: nat, l: nat)
    requires c.Valid() && Shape(c, s) && IsItem(c, g, l)
  {
    var it := s.items[g][l];
    && it.phase <= 3
    && (it.phase == 0 || it.phase == 2 ==> it.i % c.lsize == l)
    && (it.phase == 1 ==> it.i >= c.GlobalId(g, l))
    && (it.phase == 3 ==> it.i >= c.bins)
    && (it.read.Some? ==> it.phase == 2 && it.i < c.bins && it.read == s.local[g][it.i])
  }

  /** Two items of a group: barriers keep them within one phase, and nobody starts a phase alone. */
  predicate PairOk(c: Launch, s: State, g: nat, l: nat, k: nat)
    requires c.Valid() && Shape(c, s) && IsItem(c, g, l) && IsItem(c, g, k)
  {
    var it, other := s.items[g][l], s.items[g][k];
    && it.phase <= other.phase + 1
    && (it.phase == 1 && other.phase == 0 ==> it.i == c.GlobalId(g, l))
    && (it.phase == 2 && other.phase == 1 ==> it.i == l && it.read.None?)
  }

  predicate LocalOk(c: Launch, s: State, g: nat, b: nat)
    requires c.Valid() && Shape(c, s) && g < c.groups && b < c.bins
  {
    s.local[g][b] == if Zeroed(c, s.items[g], b) then Some(GroupAdded(c, s.items[g], g, b, c.lsize)) else None
  }

  predicate HistOk(c: Launch, hist: seq<int>, s: State, b: nat)
    requires c.Valid() && Shape(c, s) && |hist| == c.bins && b < c.bins
  {
    s.hist[b] == hist[b] + MergedSum(c, s.items, b, c.groups)
  }

  ghost predicate ItemsOk(c: Launch, s: State)
    requires c.Valid() && Shape(c, s)
  {
    forall g, l | IsItem(c, g, l) :: ItemOk(c, s, g, l)
  }

  ghost predicate PairsOk(c: Launch, s: State)
    requires c.Valid() && Shape(c, s)
  {
    forall g, l, k | IsItem(c, g, l) && IsItem(c, g, k) :: PairOk(c, s, g, l, k)
  }

  ghost predicate LocalsOk(c: Launch, s: State)
    requires c.Valid() && Shape(c, s)
  {
    forall g, b | 0 <= g < c.groups && 0 <= b < c.bins :: LocalOk(c, s, g, b)
  }

  ghost predicate HistsOk(c: Launch, hist: seq<int>, s: State)
    requires c.Valid() && Shape(c, s) && |hist| == c.bins
  {
    forall b | 0 <= b < c.bins :: HistOk(c, hist, s, b)
  }

  ghost predicate Inv(c: Launch, hist: seq<int>, s: State) {
    && c.Valid() && |hist| == c.bins && Shape(c, s) && !s.fault
    && ItemsOk(c, s) && PairsOk(c, s) && LocalsOk(c, s) && HistsOk(c, hist, s)
  }

  // ----- strides -----

  lemma {:induction false} NothingAhead(c: Launch, lo: nat, n: nat, b: nat)
    requires c.GlobalSize() > 0 && lo >= |c.data|
    ensures Window(c, lo, n, b) == 0
  {
    if n > 0 { NothingAhead(c, lo, n - 1, b); }
  }

  /** The counts ahead of `n` consecutive counters. */
  function Window(c: Launch, lo: nat, n: nat, b: nat): nat
    requires c.GlobalSize() > 0
  {
    if n == 0 then 0 else Window(c, lo, n - 1, b) + Ahead(c, lo + n - 1, b)
  }

  lemma {:induction false} WindowHead(c: Launch, lo: nat, n: nat, b: nat)
    requires c.GlobalSize() > 0 && n > 0
    ensures Window(c, lo, n, b) == Ahead(c, lo, b) + Window(c, lo + 1, n - 1, b)
  {
    if n > 1 { WindowHead(c, lo, n - 1, b); }
  }

  /** A window as wide as the stride covers every remaining datum exactly once. */
  lemma {:induction false} WindowCounts(c: Launch, lo: nat, b: nat)
    requires c.GlobalSize() > 0 && lo <= |c.data|
    ensures Window(c, lo, c.GlobalSize(), b) == Count(c.data[lo..], b)
    decreases |c.data| - lo
  {
    var m := c.GlobalSize();
    if lo == |c.data| {
      NothingAhead(c, lo, m, b);
    } else {
      WindowCounts(c, lo + 1, b);
      WindowHead(c, lo, m, b);
      assert Window(c, lo + 1, m, b) == Window(c, lo + 1, m - 1, b) + Ahead(c, lo + m, b);
      assert c.data[lo..][1..] == c.data[lo + 1..];
    }
  }

  lemma {:induction false} GroupIsWindow(c: Launch, g: nat, b: nat, n: nat)
    requires c.GlobalSize() > 0
    ensures GroupTotal(c, g, b, n) == Window(c, g * c.lsize, n, b)
  {
    if n > 0 { GroupIsWindow(c, g, b, n - 1); }
  }

  lemma {:induction false} WindowJoin(c: Launch, lo: nat, n: nat, k: nat, b: nat)
    requires c.GlobalSize() > 0
    ensures Window(c, lo, n + k, b) == Window(c, lo, n, b) + Window(c, lo + n, k, b)
  {
    if k > 0 { WindowJoin(c, lo, n, k - 1, b); }
  }

  /** When every group has merged bin `b`, each datum has been counted exactly once. */
  lemma {:induction false} AllMerged(c: Launch, items: seq<seq<Item>>, b: nat, n: nat)
    requires c.Valid() && n <= |items| && forall g | 0 <= g < n :: |items[g]| == c.lsize && Merged(c, items[g], b)
    ensures MergedSum(c, items, b, n) == Window(c, 0, n * c.lsize, b)
  {
    if n > 0 {
      AllMerged(c, items, b, n - 1);
      GroupIsWindow(c, n - 1, b, c.lsize);
      WindowJoin(c, 0, (n - 1) * c.lsize, c.lsize, b);
      assert (n - 1) * c.lsize + c.lsize == n * c.lsize;
    }
  }

  // ----- sums change one term at a time -----

  lemma {:induction false} GroupAddedUpdate(c: Launch, row: seq<Item>, l: nat, it: Item, g: nat, b: nat, n: nat)
    requires c.GlobalSize() > 0 && n <= |row| && l < |row|
    ensures GroupAdded(c, row[l := it], g, b, n) ==
            GroupAdded(c, row, g, b, n) + if l < n then Added(c, it, g, l, b) - Added(c, row[l], g, l, b) else 0
  {
    if n > 0 { GroupAddedUpdate(c, row, l, it, g, b, n - 1); }
  }

  /** When everybody has finished counting, the group's bin is complete. */
  lemma {:induction false} GroupComplete(c: Launch, row: seq<Item>, g: nat, b: nat, n: nat)
    requires c.GlobalSize() > 0 && n <= |row| && forall k | 0 <= k < n :: row[k].phase >= 2
    ensures GroupAdded(c, row, g, b, n) == GroupTotal(c, g, b, n)
  {
    if n > 0 { GroupComplete(c, row, g, b, n - 1); }
  }

  /** While nobody has started counting, the group's bins are zero. */
  lemma {:induction false} GroupNothing(c: Launch, row: seq<Item>, g: nat, b: nat, n: nat)
    requires c.GlobalSize() > 0 && n <= |row|
    requires forall k | 0 <= k < n :: row[k].phase == 0 || (row[k].phase == 1 && row[k].i == c.GlobalId(g, k))
    ensures GroupAdded(c, row, g, b, n) == 0
  {
    if n > 0 { GroupNothing(c, row, g, b, n - 1); }
  }

  lemma {:induction false} MergedSumUpdate(c: Launch, items: seq<seq<Item>>, g: nat, row: seq<Item>, b: nat, n: nat)
    requires c.Valid() && n <= |items| && g < |items| && |row| == c.lsize
    requires forall k | 0 <= k < |items| :: |items[k]| == c.lsize
    ensures MergedSum(c, items[g := row], b, n) ==
            MergedSum(c, items, b, n)
            + if g < n then (if Merged(c, row, b) then GroupTotal(c, g, b, c.lsize) else 0)
                            - (if Merged(c, items[g], b) then GroupTotal(c, g, b, c.lsize) else 0) else 0
  {
    if n > 0 { MergedSumUpdate(c, items, g, row, b, n - 1); }
  }

  // ----- every step keeps the invariant -----

  lemma InitialInv(c: Launch, hist: seq<int>, s: State)
    requires c.Valid() && |hist| == c.bins && Initial(c, hist, s)
    ensures Inv(c, hist, s)
  {
    forall g, l | IsItem(c, g, l) ensures ItemOk(c, s, g, l) { DivMod(l, c.lsize, 0, l); }
    forall b | 0 <= b < c.bins ensures HistOk(c, hist, s, b) {
      forall g | 0 <= g < c.groups ensures !Merged(c, s.items[g], b) { assert IsItem(c, g, Owner(c, b)); }
      NothingMerged(c, s.items, b, c.groups);
    }
    forall g, b | 0 <= g < c.groups && 0 <= b < c.bins ensures LocalOk(c, s, g, b) {
      OwnerBelow(c, b);
      assert IsItem(c, g, Owner(c, b));
    }
  }

  lemma OwnerBelow(c: Launch, b: nat)
    requires c.lsize > 0
    ensures Owner(c, b) <= b
  {
    assert b == c.lsize * (b / c.lsize) + b % c.lsize;
    if b / c.lsize > 0 { MulAtLeast(c.lsize, b / c.lsize); }
  }

  lemma {:induction false} NothingMerged(c: Launch, items: seq<seq<Item>>, b: nat, n: nat)
    requires c.Valid() && n <= |items| && forall g | 0 <= g < n :: |items[g]| == c.lsize && !Merged(c, items[g], b)
    ensures MergedSum(c, items, b, n) == 0
  {
    if n > 0 { NothingMerged(c, items, b, n - 1); }
  }

  /** A step of an item leaves every other item alone. */
  lemma Others(c: Launch, s: State, g: nat, l: nat)
    requires c.Valid() && Shape(c, s) && IsItem(c, g, l) && Enabled(c, s, g, l)
    ensures
      var s1 := Act(c, s, g, l);
      && (forall h, k | IsItem(c, h, k) && (h != g || k != l) :: s1.items[h][k] == s.items[h][k])
      && (!s1.fault ==> s1.items == s.items[g := s.items[g][l := s1.items[g][l]]])
      && (forall h | 0 <= h < c.groups && h != g :: s1.items[h] == s.items[h] && s1.local[h] == s.local[h])
  {
  }

  lemma NoFault(c: Launch, hist: seq<int>, s: State, g: nat, l: nat)
    requires Inv(c, hist, s) && IsItem(c, g, l) && Enabled(c, s, g, l)
    ensures !Act(c, s, g, l).fault
  {
    var it := s.items[g][l];
    assert ItemOk(c, s, g, l);
    if it.phase == 1 && it.i < |c.data| {
      assert c.data[it.i] in c.data;
      assert LocalOk(c, s, g, c.data[it.i]);
    } else if it.phase == 2 && it.i < c.bins {
      assert LocalOk(c, s, g, it.i);
    }
  }

  lemma PairsKept(c: Launch, hist: seq<int>, s: State, g: nat, l: nat)
    requires Inv(c, hist, s) && IsItem(c, g, l) && Enabled(c, s, g, l)
    ensures PairsOk(c, Act(c, s, g, l))
  {
    NoFault(c, hist, s, g, l);
    Others(c, s, g, l);
    var s1 := Act(c, s, g, l);
    forall h, k, m | IsItem(c, h, k) && IsItem(c, h, m) ensures PairOk(c, s1, h, k, m) {
      assert PairOk(c, s, h, k, m);
      assert PairOk(c, s, h, m, k);
    }
  }

  lemma ItemsKept(c: Launch, hist: seq<int>, s: State, g: nat, l: nat)
    requires Inv(c, hist, s) && IsItem(c, g, l) && Enabled(c, s, g, l)
    ensures ItemsOk(c, Act(c, s, g, l))
  {
    NoFault(c, hist, s, g, l);
    Others(c, s, g, l);
    var s1, it := Act(c, s, g, l), s.items[g][l];
    ModStep(it.i, c.lsize);
    DivMod(l, c.lsize, 0, l);
    forall h, k | IsItem(c, h, k) ensures ItemOk(c, s1, h, k) {
      assert ItemOk(c, s, h, k);
      assert ItemOk(c, s, g, l);
      if h == g && k != l { assert PairOk(c, s, g, k, l); }
    }
  }

  lemma LocalsKept(c: Launch, hist: seq<int>, s: State, g: nat, l: nat)
    requires Inv(c, hist, s) && IsItem(c, g, l) && Enabled(c, s, g, l)
    ensures LocalsOk(c, Act(c, s, g, l))
  {
    NoFault(c, hist, s, g, l);
    Others(c, s, g, l);
    var s1 := Act(c, s, g, l);
    forall h, b | 0 <= h < c.groups && 0 <= b < c.bins ensures LocalOk(c, s1, h, b) {
      assert LocalOk(c, s, h, b);
      if h == g { LocalKept(c, hist, s, g, l, b); }
    }
  }

  lemma LocalKept(c: Launch, hist: seq<int>, s: State, g: nat, l: nat, b: nat)
    requires Inv(c, hist, s) && IsItem(c, g, l) && Enabled(c, s, g, l) && b < c.bins
    requires !Act(c, s, g, l).fault && Shape(c, Act(c, s, g, l))
    requires Act(c, s, g, l).items == s.items[g := s.items[g][l := Act(c, s, g, l).items[g][l]]]
    ensures LocalOk(c, Act(c, s, g, l), g, b)
  {
    var s1, it, row := Act(c, s, g, l), s.items[g][l], s.items[g];
    assert LocalOk(c, s, g, b) && ItemOk(c, s, g, l);
    GroupAddedUpdate(c, row, l, s1.items[g][l], g, b, c.lsize);
    if it.phase == 0 && it.i < c.bins {
      if Owner(c, b) == l && it.i <= b < it.i + c.lsize { ModGap(it.i, b, c.lsize); }
      if b == it.i {
        forall k | 0 <= k < c.lsize ensures row[k].phase == 0 || (row[k].phase == 1 && row[k].i == c.GlobalId(g, k)) {
          assert PairOk(c, s, g, k, l);
        }
        GroupNothing(c, row, g, b, c.lsize);
      }
    } else if it.phase == 1 && it.i < |c.data| {
      assert c.data[it.i] in c.data;
    }
  }

  lemma HistsKept(c: Launch, hist: seq<int>, s: State, g: nat, l: nat)
    requires Inv(c, hist, s) && IsItem(c, g, l) && Enabled(c, s, g, l)
    ensures HistsOk(c, hist, Act(c, s, g, l))
  {
    NoFault(c, hist, s, g, l);
    Others(c, s, g, l);
    forall b | 0 <= b < c.bins ensures HistOk(c, hist, Act(c, s, g, l), b) { HistKept(c, hist, s, g, l, b); }
  }

  lemma HistKept(c: Launch, hist: seq<int>, s: State, g: nat, l: nat, b: nat)
    requires Inv(c, hist, s) && IsItem(c, g, l) && Enabled(c, s, g, l) && b < c.bins
    requires !Act(c, s, g, l).fault && Shape(c, Act(c, s, g, l))
    requires Act(c, s, g, l).items == s.items[g := s.items[g][l := Act(c, s, g, l).items[g][l]]]
    ensures HistOk(c, hist, Act(c, s, g, l), b)
  {
    var s1, it, row := Act(c, s, g, l), s.items[g][l], s.items[g];
    assert HistOk(c, hist, s, b) && ItemOk(c, s, g, l) && LocalOk(c, s, g, b);
    MergedSumUpdate(c, s.items, g, row[l := s1.items[g][l]], b, c.groups);
    OwnerBelow(c, b);
    if it.phase == 2 && it.i < c.bins && it.read.Some? {
      if Owner(c, b) == l && it.i <= b < it.i + c.lsize { ModGap(it.i, b, c.lsize); }
      if b == it.i { GroupComplete(c, row, g, b, c.lsize); }
    }
  }

  lemma StepKeepsInv(c: Launch, hist: seq<int>, s: State, g: nat, l: nat)
    requires Inv(c, hist, s) && IsItem(c, g, l) && Enabled(c, s, g, l)
    ensures Inv(c, hist, Act(c, s, g, l))
  {
    NoFault(c, hist, s, g, l);
    Others(c, s, g, l);
    ItemsKept(c, hist, s, g, l);
    PairsKept(c, hist, s, g, l);
    LocalsKept(c, hist, s, g, l);
    HistsKept(c, hist, s, g, l);
  }

  // ----- whole runs -----

  /** States one after the other, from a launch on the histogram `hist`. */
  ghost predicate IsRun(c: Launch, hist: seq<int>, run: seq<State>) {
    && c.Valid() && |hist| == c.bins
    && run != [] && Initial(c, hist, run[0])
    && (forall i | 0 <= i < |run| :: Shape(c, run[i]))
    && forall i | 0 <= i < |run| - 1 :: Next(c, run[i], run[i + 1])
  }

  lemma {:induction false} RunInv(c: Launch, hist: seq<int>, run: seq<State>, n: nat)
    requires IsRun(c, hist, run) && n < |run|
    ensures Inv(c, hist, run[n])
  {
    if n == 0 {
      InitialInv(c, hist, run[0]);
    } else {
      RunInv(c, hist, run, n - 1);
      assert Next(c, run[n - 1], run[n - 1 + 1]);
      var g: nat, l: nat :| IsItem(c, g, l) && Enabled(c, run[n - 1], g, l) && run[n] == Act(c, run[n - 1], g, l);
      StepKeepsInv(c, hist, run[n - 1], g, l);
    }
  }

  /** However the items interleave, when all have left, the histogram has grown by exactly the
      sequential counts. */
  lemma HistogramCorrect(c: Launch, hist: seq<int>, run: seq<State>)
    requires IsRun(c, hist, run) && Finished(c, run[|run| - 1])
    ensures forall b | 0 <= b < c.bins :: run[|run| - 1].hist[b] == hist[b] + Count(c.data, b)
  {
    var s := run[|run| - 1];
    RunInv(c, hist, run, |run| - 1);
    forall b | 0 <= b < c.bins ensures s.hist[b] == hist[b] + Count(c.data, b) {
      assert HistOk(c, hist, s, b);
      forall g | 0 <= g < c.groups ensures Merged(c, s.items[g], b) { assert IsItem(c, g, Owner(c, b)); }
      AllMerged(c, s.items, b, c.groups);
      WindowCounts(c, 0, b);
      assert c.data[0..] == c.data;
    }
  }

  // ----- no counter leaves the range the data give it -----

  lemma {:induction false} GroupAtMost(c: Launch, row: seq<Item>, g: nat, b: nat, n: nat)
    requires c.GlobalSize() > 0 && n <= |row|
    ensures GroupAdded(c, row, g, b, n) <= GroupTotal(c, g, b, n)
  {
    if n > 0 { GroupAtMost(c, row, g, b, n - 1); }
  }

  lemma {:induction false} MergedAtMost(c: Launch, items: seq<seq<Item>>, b: nat, n: nat)
    requires c.Valid() && n <= |items| && forall g | 0 <= g < n :: |items[g]| == c.lsize
    ensures MergedSum(c, items, b, n) <= Window(c, 0, n * c.lsize, b)
  {
    if n > 0 {
      MergedAtMost(c, items, b, n - 1);
      GroupIsWindow(c, n - 1, b, c.lsize);
      WindowJoin(c, 0, (n - 1) * c.lsize, c.lsize, b);
      assert (n - 1) * c.lsize + c.lsize == n * c.lsize;
    }
  }

  /** One group counts no more than there is to count. */
  lemma GroupInAll(c: Launch, g: nat, b: nat)
    requires c.Valid() && g < c.groups
    ensures GroupTotal(c, g, b, c.lsize) <= Count(c.data, b) == Window(c, 0, c.GlobalSize(), b)
  {
    var lo, hi := g * c.lsize, (c.groups - g - 1) * c.lsize;
    MulAtLeast(c.lsize, c.groups - g);
    MulMono(c.lsize, 0, c.groups - g - 1);
    GroupIsWindow(c, g, b, c.lsize);
    WindowJoin(c, 0, lo, c.lsize + hi, b);
    WindowJoin(c, lo, c.lsize, hi, b);
    assert lo + (c.lsize + hi) == c.GlobalSize() by {
      assert g * c.lsize + c.lsize + (c.groups - g - 1) * c.lsize == c.groups * c.lsize;
    }
    WindowCounts(c, 0, b);
    assert c.data[0..] == c.data;
  }

  predicate NotNegative(v: Option<int>) {
    v.Some? ==> v.value >= 0
  }

  /** Local bins start at zero and are only counted up. */
  lemma {:induction false} LocalNotNegative(c: Launch, hist: seq<int>, run: seq<State>, n: nat, g: nat, b: nat)
    requires IsRun(c, hist, run) && n < |run| && g < c.groups && b < c.bins
    ensures Shape(c, run[n]) && NotNegative(run[n].local[g][b])
    decreases n
  {
    if n > 0 {
      LocalNotNegative(c, hist, run, n - 1, g, b);
      RunInv(c, hist, run, n - 1);
    }
  }

  /** In every reachable state every bin lies between where it started and where it ends, so counters that can hold the
      final histogram never wrap around. */
  lemma BinsBounded(c: Launch, hist: seq<int>, run: seq<State>, n: nat, b: nat)
    requires IsRun(c, hist, run) && n < |run| && b < c.bins
    ensures Shape(c, run[n]) && |hist| == c.bins && hist[b] <= run[n].hist[b] <= hist[b] + Count(c.data, b)
    ensures forall g | 0 <= g < c.groups && run[n].local[g][b].Some? ::
              0 <= run[n].local[g][b].value <= Count(c.data, b)
  {
    var s := run[n];
    RunInv(c, hist, run, n);
    assert HistOk(c, hist, s, b);
    MergedAtMost(c, s.items, b, c.groups);
    GroupInAll(c, 0, b);
    forall g | 0 <= g < c.groups && s.local[g][b].Some? ensures 0 <= s.local[g][b].value <= Count(c.data, b) {
      assert LocalOk(c, s, g, b);
      GroupAtMost(c, s.items[g], g, b, c.lsize);
      GroupInAll(c, g, b);
      LocalNotNegative(c, hist, run, n, g, b);
    }
  }

  /** No bin is ever used before it has been zeroed. */
  lemma NeverUninitialised(c: Launch, hist: seq<int>, run: seq<State>, n: nat)
    requires IsRun(c, hist, run) && n < |run|
    ensures !run[n].fault
  {
    RunInv(c, hist, run, n);
  }

  datatype Access = Store(bin: nat) | Atomic(bin: nat) | Load(bin: nat) | Elsewhere

  /** How the next step of an item touches its group's local memory. */
  function LocalAccess(c: Launch, s: State, g: nat, l: nat): Access
    requires c.Valid() && Shape(c, s) && IsItem(c, g, l)
  {
    var it := s.items[g][l];
    if it.phase == 0 && it.i < c.bins then Store(it.i)
    else if it.phase == 1 && it.i < |c.data| then Atomic(c.data[it.i])
    else if it.phase == 2 && it.i < c.bins && it.read.None? then Load(it.i)
    else Elsewhere
  }

  /** Two accesses that must not be able to happen at the same time. */
  predicate Conflict(a: Access, b: Access) {
    a != Elsewhere && b != Elsewhere && a.bin == b.bin && !(a.Load? && b.Load?) && !(a.Atomic? && b.Atomic?)
  }

  /** No data race on local memory: two items of a group that can both move never conflict. */
  lemma NoRace(c: Launch, hist: seq<int>, run: seq<State>, n: nat, g: nat, l: nat, k: nat)
    requires IsRun(c, hist, run) && n < |run| && IsItem(c, g, l) && IsItem(c, g, k) && l != k
    requires Enabled(c, run[n], g, l) && Enabled(c, run[n], g, k)
    ensures !Conflict(LocalAccess(c, run[n], g, l), LocalAccess(c, run[n], g, k))
  {
    RunInv(c, hist, run, n);
    assert ItemOk(c, run[n], g, l) && ItemOk(c, run[n], g, k);
  }

  // ----- progress -----

  /** Until everyone has left, someone can move: the barriers cannot deadlock. */
  lemma NoDeadlock(c: Launch, s: State)
    requires c.Valid() && Shape(c, s) && !Finished(c, s)
    requires forall g, l | IsItem(c, g, l) :: s.items[g][l].phase <= 3
    ensures exists g: nat, l: nat :: IsItem(c, g, l) && Enabled(c, s, g, l)
  {
    var g, l :| IsItem(c, g, l) && s.items[g][l].phase != 3;
    var k := Slowest(s.items[g], c.lsize);
    assert IsItem(c, g, k) && Enabled(c, s, g, k);
  }

  lemma {:induction false} Slowest(row: seq<Item>, n: nat) returns (k: nat)
    requires 0 < n <= |row|
    ensures k < n && forall j | 0 <= j < n :: row[j].phase >= row[k].phase
  {
    k := 0;
    if n > 1 {
      k := Slowest(row, n - 1);
      if row[n - 1].phase < row[k].phase { k := n - 1; }
    }
  }

  function Left(i: nat, limit: nat): nat {
    if i < limit then limit - i else 0
  }

  /** An upper bound on the steps an item still takes. */
  function ItemFuel(c: Launch, it: Item): nat {
    var phase := 2 * c.bins + |c.data| + 1;
    if it.phase == 0 then 2 * phase + 2 * phase + Left(it.i, c.bins)
    else if it.phase == 1 then 2 * phase + Left(it.i, |c.data|)
    else if it.phase == 2 then 1 + 2 * Left(it.i, c.bins) - (if it.read.Some? && it.i < c.bins then 1 else 0)
    else 0
  }

  function RowFuel(c: Launch, row: seq<Item>, n: nat): nat
    requires n <= |row|
  {
    if n == 0 then 0 else RowFuel(c, row, n - 1) + ItemFuel(c, row[n - 1])
  }

  function Fuel(c: Launch, items: seq<seq<Item>>, n: nat): nat
    requires n <= |items|
  {
    if n == 0 then 0 else Fuel(c, items, n - 1) + RowFuel(c, items[n - 1], |items[n - 1]|)
  }

  lemma {:induction false} RowFuelUpdate(c: Launch, row: seq<Item>, l: nat, it: Item, n: nat)
    requires n <= |row| && l < |row|
    ensures RowFuel(c, row[l := it], n) ==
            RowFuel(c, row, n) + if l < n then ItemFuel(c, it) - ItemFuel(c, row[l]) else 0
  {
    if n > 0 { RowFuelUpdate(c, row, l, it, n - 1); }
  }

  lemma {:induction false} FuelUpdate(c: Launch, items: seq<seq<Item>>, g: nat, row: seq<Item>, n: nat)
    requires n <= |items| && g < |items|
    ensures Fuel(c, items[g := row], n) ==
            Fuel(c, items, n) + if g < n then RowFuel(c, row, |row|) - RowFuel(c, items[g], |items[g]|) else 0
  {
    if n > 0 { FuelUpdate(c, items, g, row, n - 1); }
  }

  lemma StepBurnsFuel(c: Launch, hist: seq<int>, s: State, g: nat, l: nat)
    requires Inv(c, hist, s) && IsItem(c, g, l) && Enabled(c, s, g, l)
    ensures Fuel(c, Act(c, s, g, l).items, c.groups) < Fuel(c, s.items, c.groups)
  {
    NoFault(c, hist, s, g, l);
    Others(c, s, g, l);
    var it := Act(c, s, g, l).items[g][l];
    RowFuelUpdate(c, s.items[g], l, it, c.lsize);
    FuelUpdate(c, s.items, g, s.items[g][l := it], c.groups);
    ItemBurns(c, hist, s, g, l);
  }

  lemma ItemBurns(c: Launch, hist: seq<int>, s: State, g: nat, l: nat)
    requires Inv(c, hist, s) && IsItem(c, g, l) && Enabled(c, s, g, l) && !Act(c, s, g, l).fault
    ensures ItemFuel(c, Act(c, s, g, l).items[g][l]) < ItemFuel(c, s.items[g][l])
  {
    assert ItemOk(c, s, g, l);
  }

  /** Every run is finite: it cannot have more steps than the fuel of its launch. */
  lemma {:induction false} RunIsBounded(c: Launch, hist: seq<int>, run: seq<State>, n: nat)
    requires IsRun(c, hist, run) && n < |run|
    ensures n + Fuel(c, run[n].items, c.groups) <= Fuel(c, run[0].items, c.groups)
  {
    if n > 0 {
      RunIsBounded(c, hist, run, n - 1);
      RunInv(c, hist, run, n - 1);
      assert Next(c, run[n - 1], run[n - 1 + 1]);
      var g: nat, l: nat :| IsItem(c, g, l) && Enabled(c, run[n - 1], g, l) && run[n] == Act(c, run[n - 1], g, l);
      StepBurnsFuel(c, hist, run[n - 1], g, l);
    }
  }

  ghost predicate CanMove(c: Launch, s: State)
    requires c.Valid() && Shape(c, s)
  {
    exists s1 :: Next(c, s, s1)
  }

  /** A run stops exactly when every item has left the kernel. */
  lemma StopsWhenFinished(c: Launch, hist: seq<int>, run: seq<State>, n: nat)
    requires IsRun(c, hist, run) && n < |run|
    ensures CanMove(c, run[n]) <==> !Finished(c, run[n])
  {
    var s := run[n];
    RunInv(c, hist, run, n);
    if !Finished(c, s) {
      forall g, l | IsItem(c, g, l) ensures s.items[g][l].phase <= 3 { assert ItemOk(c, s, g, l); }
      NoDeadlock(c, s);
      var g: nat, l: nat :| IsItem(c, g, l) && Enabled(c, s, g, l);
      assert Next(c, s, Act(c, s, g, l));
    }
  }
}
