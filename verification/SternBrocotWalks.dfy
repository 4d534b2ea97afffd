/** The three traversals of the upper part of the Stern-Brocot tree. */
module SternBrocotWalks {
  import opened SternBrocot

  /** What every fraction reached from 1/1 satisfies. */
  ghost predicate OnTree(r: Rational) {
    r.first > 0 && r.second > 0 && Coprime(r.first, r.second)
  }

  function Top(): Rational {
    Rational(1, 1)
  }

  lemma TopOnTree()
    ensures OnTree(Top())
  {
    forall d: nat | Common(d, 1, 1) ensures d == 1 { DividesOne(d); }
  }

  /** Which nodes have their children visited. */
  predicate Expands(r: Rational) {
    r.first < 4 && r.second < 4
  }

  function Left(r: Rational): Rational
    requires r.first > 0 && r.second > 0
  {
    Children(r).0
  }

  function Right(r: Rational): Rational
    requires r.first > 0 && r.second > 0
  {
    Children(r).1
  }

  function Depth(r: Rational): nat {
    if Expands(r) then 7 - (r.first + r.second) else 0
  }

  lemma Below(r: Rational)
    requires OnTree(r) && Expands(r)
    ensures OnTree(Left(r)) && OnTree(Right(r)) && Depth(Left(r)) < Depth(r) && Depth(Right(r)) < Depth(r)
  {
    hide Children, Cross, Plus, Coprime;
    ChildrenOk(r);
  }

  /** The subtree in preorder. */
  ghost function Preorder(r: Rational): (s: seq<Rational>)
    requires OnTree(r)
    ensures |s| > 0
    decreases Depth(r)
  {
    if Expands(r) then
      Below(r);
      [r] + Preorder(Left(r)) + Preorder(Right(r))
    else
      [r]
  }

  lemma PreorderStep(r: Rational)
    requires OnTree(r)
    ensures r.first > 0 && r.second > 0
    ensures !Expands(r) ==> Preorder(r) == [r]
    ensures Expands(r) ==> (
      && OnTree(Left(r)) && OnTree(Right(r))
      && Preorder(r) == [r] + (Preorder(Left(r)) + Preorder(Right(r))))
  {
    if Expands(r) { Below(r); }
  }

  ghost predicate AllOnTree(s: seq<Rational>) {
    forall i | 0 <= i < |s| :: OnTree(s[i])
  }

  /** What a stack still has to print, its top being the last element. */
  ghost function Stacked(s: seq<Rational>): seq<Rational>
    requires AllOnTree(s)
  {
    if s == [] then [] else Preorder(s[|s| - 1]) + Stacked(s[..|s| - 1])
  }

  lemma Pushed(s: seq<Rational>, r: Rational)
    requires AllOnTree(s) && OnTree(r)
    ensures AllOnTree(s + [r]) && Stacked(s + [r]) == Preorder(r) + Stacked(s)
  {
    assert (s + [r])[..|s|] == s;
  }

  /** `test_stack`: the subtree of 1/1 in preorder. */
  method TestStack() returns (out: seq<Rational>)
    ensures OnTree(Top()) && out == Preorder(Top())
  {
    hide Children, OnTree, Stacked, AllOnTree, Preorder, Depth;
    TopOnTree();
    var s := [];
    out := [];
    Empty();
    Pushed([], Top());
    s := s + [Top()];
    while s != []
      invariant AllOnTree(s) && out + Stacked(s) == Preorder(Top())
      decreases |Stacked(s)|
    {
      var cur := s[|s| - 1];
      Popped(s);
      s := s[..|s| - 1];
      ghost var rest := Stacked(s);
      PreorderStep(cur);
      if cur.first < 4 && cur.second < 4 {
        var childs := Childs(cur);
        Pushed(s, childs.1);
        Pushed(s + [childs.1], childs.0);
        s := s + [childs.1];
        s := s + [childs.0];
        assert Preorder(cur) + rest == [cur] + Stacked(s);
      }
      out := out + [cur];
    }
    Empty();
  }

  lemma Empty()
    ensures AllOnTree([]) && Stacked([]) == []
  {
  }

  lemma Popped(s: seq<Rational>)
    requires AllOnTree(s) && s != []
    ensures OnTree(s[|s| - 1]) && AllOnTree(s[..|s| - 1])
    ensures Stacked(s) == Preorder(s[|s| - 1]) + Stacked(s[..|s| - 1])
  {
  }

  /** What a queue still has to visit. */
  ghost function Queued(q: seq<Rational>): multiset<Rational>
    requires AllOnTree(q)
  {
    if q == [] then multiset{} else multiset(Preorder(q[0])) + Queued(q[1..])
  }

  lemma Dequeued(q: seq<Rational>)
    requires AllOnTree(q) && q != []
    ensures OnTree(q[0]) && AllOnTree(q[1..])
    ensures Queued(q) == multiset(Preorder(q[0])) + Queued(q[1..])
  {
  }

  lemma EmptyQueue()
    ensures AllOnTree([]) && Queued([]) == multiset{}
  {
  }

  /** The nodes of a subtree as a multiset, one level at a time. */
  lemma PreorderParts(r: Rational)
    requires OnTree(r)
    ensures r.first > 0 && r.second > 0
    ensures !Expands(r) ==> multiset(Preorder(r)) == multiset{r}
    ensures Expands(r) ==> (
      && OnTree(Left(r)) && OnTree(Right(r))
      && multiset(Preorder(r)) == multiset{r} + multiset(Preorder(Left(r))) + multiset(Preorder(Right(r))))
  {
    PreorderStep(r);
  }

  // ----- level by level -----

  /** The nodes visited because of r. */
  ghost function Kids(r: Rational): seq<Rational>
    requires OnTree(r)
  {
    if Expands(r) then [Left(r), Right(r)] else []
  }

  lemma KidsOf(r: Rational)
    requires OnTree(r)
    ensures r.first > 0 && r.second > 0
    ensures AllOnTree(Kids(r)) && Kids(r) == if Expands(r) then [Left(r), Right(r)] else []
  {
    hide Children, OnTree, Preorder, Depth;
    PreorderStep(r);
  }

  /** The next level below these nodes, from left to right. */
  ghost function NextLevel(level: seq<Rational>): seq<Rational>
    requires AllOnTree(level)
  {
    if level == [] then [] else Kids(level[0]) + NextLevel(level[1..])
  }

  lemma {:induction false} NextLevelOk(level: seq<Rational>)
    requires AllOnTree(level)
    ensures AllOnTree(NextLevel(level)) && Queued(level) == multiset(level) + Queued(NextLevel(level))
  {
    hide Children, OnTree, Preorder, Depth, Kids, AllOnTree, Queued;
    if level != [] {
      Dequeued(level);
      var r, rest := level[0], level[1..];
      assert level == [r] + rest;
      NextLevelOk(rest);
      QueuedKids(r, NextLevel(rest));
      assert multiset(level) == multiset{r} + multiset(rest);
      assert NextLevel(level) == Kids(r) + NextLevel(rest);
      var p, n := multiset(Preorder(r)), Queued(NextLevel(rest));
      assert p + (multiset(rest) + n) == multiset(rest) + (p + n);
    } else {
      EmptyQueue();
    }
  }

  lemma QueuedKids(r: Rational, q: seq<Rational>)
    requires OnTree(r) && AllOnTree(q)
    ensures AllOnTree(Kids(r) + q) && multiset(Preorder(r)) + Queued(q) == multiset{r} + Queued(Kids(r) + q)
  {
    hide Children, OnTree, Preorder, Depth;
    PreorderParts(r);
    if Expands(r) {
      var k := Kids(r) + q;
      assert k[1..] == [Right(r)] + q && k[1..][1..] == q;
    } else {
      assert Kids(r) + q == q;
    }
  }

  /** All levels from this one down, one after the other. */
  ghost function Levels(level: seq<Rational>): seq<Rational>
    requires AllOnTree(level)
    decreases |Queued(level)|
  {
    if level == [] then [] else
      NextLevelOk(level);
      level + Levels(NextLevel(level))
  }

  lemma LevelsStep(level: seq<Rational>)
    requires AllOnTree(level)
    ensures AllOnTree(NextLevel(level)) && Levels(level) == level + Levels(NextLevel(level))
    ensures NextLevel([]) == [] && (level == [] ==> Levels(level) == [])
  {
    NextLevelOk(level);
  }

  /** A queue that holds the rest of a level and what the nodes before it put behind it: the first node is taken out
      and its children are put in. */
  lemma LevelGoesOn(a: seq<Rational>, b: seq<Rational>)
    requires AllOnTree(a) && AllOnTree(b) && a != []
    ensures OnTree(a[0])
    ensures AllOnTree(a[1..]) && AllOnTree(b + Kids(a[0]))
    ensures b + NextLevel(a) == (b + Kids(a[0])) + NextLevel(a[1..])
  {
    hide Children, OnTree, Preorder, Depth, Queued, Kids;
    KidsOf(a[0]);
    var k, n := Kids(a[0]), NextLevel(a[1..]);
    assert b + (k + n) == (b + k) + n;
  }

  /** The levels hold the subtrees of their nodes. */
  lemma {:induction false} LevelsAreTrees(level: seq<Rational>)
    requires AllOnTree(level)
    ensures multiset(Levels(level)) == Queued(level)
    decreases |Queued(level)|
  {
    hide Children, OnTree, Preorder, Depth, AllOnTree, Queued;
    LevelsStep(level);
    if level == [] {
      EmptyQueue();
    } else {
      NextLevelOk(level);
      LevelsAreTrees(NextLevel(level));
    }
  }

  /** What has been printed, the rest of the level, and what is already queued of the next one make up the levels. */
  ghost predicate Sweep(q: seq<Rational>, a: seq<Rational>, b: seq<Rational>, out: seq<Rational>) {
    && AllOnTree(a) && AllOnTree(b) && q == a + b && AllOnTree(b + NextLevel(a)) && AllOnTree([Top()])
    && out + a + Levels(b + NextLevel(a)) == Levels([Top()])
  }

  lemma SweepStarts()
    ensures Sweep([Top()], [Top()], [], [])
  {
    hide OnTree, Queued, Preorder, Levels, NextLevel;
    WholeTree();
    var a := [Top()];
    LevelsStep(a);
    assert [] + a == a && [] + NextLevel(a) == NextLevel(a);
  }

  /** When a level is through, the next one is what has been queued. */
  lemma SweepDown(q: seq<Rational>, b: seq<Rational>, out: seq<Rational>)
    requires Sweep(q, [], b, out)
    ensures Sweep(q, b, [], out)
  {
    hide OnTree, AllOnTree, Queued, Preorder, Levels;
    LevelsStep(b);
    assert [] + b == b && b + [] == b && [] + NextLevel(b) == NextLevel(b) && out + [] == out;
    assert out + (b + Levels(NextLevel(b))) == out + b + Levels(NextLevel(b));
  }

  /** One turn of the loop: the first node is printed and its children are queued. */
  lemma SweepGoesOn(q: seq<Rational>, a: seq<Rational>, b: seq<Rational>, out: seq<Rational>)
    requires Sweep(q, a, b, out) && a != []
    ensures OnTree(q[0]) && |out| < |Levels([Top()])|
    ensures Sweep(q[1..] + Kids(q[0]), a[1..], b + Kids(q[0]), out + [q[0]])
  {
    hide OnTree, AllOnTree, Queued, Preorder, Levels, NextLevel, Kids;
    LevelGoesOn(a, b);
    assert out + a == (out + [a[0]]) + a[1..];
    assert q[1..] == a[1..] + b;
  }

  lemma SweepEnds(a: seq<Rational>, b: seq<Rational>, out: seq<Rational>)
    requires Sweep([], a, b, out)
    ensures AllOnTree([Top()]) && out == Levels([Top()])
  {
    LevelsStep([]);
    assert a == [] && b == [] && b + NextLevel(a) == [];
  }

  /** The loop shared by `test_queue` and `test_priqueue`: every node of the tree once, level by level and from left to
      right in each. */
  method BreadthFirst() returns (out: seq<Rational>)
    ensures OnTree(Top()) && multiset(out) == multiset(Preorder(Top()))
    ensures AllOnTree([Top()]) && out == Levels([Top()])
  {
    hide Children, OnTree, AllOnTree, Preorder, Levels, Kids, Sweep;
    var q := [Top()];
    out := [];
    ghost var a, b := q, [];
    SweepStarts();
    WholeTree();
    while q != []
      invariant Sweep(q, a, b, out)
      decreases |Levels([Top()])| - |out|
    {
      if a == [] {
        SweepDown(q, b, out);
        a, b := b, [];
      }
      SweepStops(q, a, b, out);
      SweepGoesOn(q, a, b, out);
      var cur := q[0];
      q := q[1..];
      ghost var left := q;
      KidsOf(cur);
      if cur.first < 4 && cur.second < 4 {
        var childs := Childs(cur);
        q := q + [childs.0];
        q := q + [childs.1];
      }
      assert q == left + Kids(cur);
      a, b := a[1..], b + Kids(cur);
      out := out + [cur];
    }
    SweepEnds(a, b, out);
  }

  lemma SweepStops(q: seq<Rational>, a: seq<Rational>, b: seq<Rational>, out: seq<Rational>)
    requires Sweep(q, a, b, out)
    ensures q == a + b
  {
  }

  lemma WholeTree()
    ensures OnTree(Top()) && AllOnTree([Top()]) && multiset(Levels([Top()])) == multiset(Preorder(Top()))
  {
    hide OnTree, Preorder, Levels;
    TopOnTree();
    LevelsAreTrees([Top()]);
    assert [Top()][1..] == [];
  }

  // ----- the priority queue -----

  /** `Rational_Greater`, compared exactly. */
  predicate Greater(a: Rational, b: Rational) {
    a.first * b.second > b.first * a.second
  }

  /** The heap compares the values of the fractions. */
  lemma GreaterIsReal(a: Rational, b: Rational)
    requires a.second > 0 && b.second > 0
    ensures Greater(a, b) <==>
              a.first as real / a.second as real > b.first as real / b.second as real
  {
    var x, y := a.first as real / a.second as real, b.first as real / b.second as real;
    var m, n := a.second as real, b.second as real;
    assert a.first as real == x * m && b.first as real == y * n;
    assert (a.first * b.second) as real == (x * m) * n && (b.first * a.second) as real == (y * n) * m;
    RealsScaled(x, y, m * n);
    assert (x * m) * n == x * (m * n) && (y * n) * m == y * (m * n);
  }

  lemma RealsScaled(x: real, y: real, k: real)
    requires k > 0.0
    ensures x > y <==> x * k > y * k
  {
  }

  lemma NotGreaterTransitive(a: Rational, b: Rational, c: Rational)
    requires b.second > 0 && !Greater(a, b) && !Greater(b, c)
    ensures !Greater(a, c)
  {
    var n := b.second;
    assert a.first * c.second * n <= c.first * a.second * n by {
      Scaled(a.first * n, b.first * a.second, c.second);
      Scaled(b.first * c.second, c.first * n, a.second);
      assert a.first * c.second * n == a.first * n * c.second;
      assert b.first * a.second * c.second == b.first * c.second * a.second;
      assert c.first * n * a.second == c.first * a.second * n;
    }
    Unscaled(a.first * c.second, c.first * a.second, n);
  }

  lemma Scaled(x: int, y: int, k: nat)
    requires x <= y
    ensures x * k <= y * k
  {
  }

  lemma Unscaled(x: int, y: int, k: nat)
    requires x * k <= y * k && k > 0
    ensures x <= y
  {
    if x > y { Scaled(y + 1, x, k); }
  }

  predicate Least(r: Rational, s: seq<Rational>) {
    forall x <- s :: !Greater(r, x)
  }

  /** The top of the heap: a node that is greater than none of the others. */
  method FindLeast(pq: seq<Rational>) returns (k: nat)
    requires pq != [] && forall r <- pq :: r.second > 0
    ensures k < |pq| && Least(pq[k], pq)
  {
    k := 0;
    for i := 1 to |pq|
      invariant k < |pq| && forall j | 0 <= j < i :: !Greater(pq[k], pq[j])
    {
      if Greater(pq[k], pq[i]) {
        forall j | 0 <= j < i ensures !Greater(pq[i], pq[j]) {
          NotGreaterTransitive(pq[i], pq[k], pq[j]);
        }
        k := i;
      }
    }
  }

  predicate Ascending(s: seq<Rational>) {
    forall i | 0 < i < |s| :: !Greater(s[i - 1], s[i])
  }

  /** `test_priqueue`: the same nodes in ascending order. */
  method TestPriqueue() returns (out: seq<Rational>)
    ensures OnTree(Top()) && multiset(out) == multiset(Preorder(Top()))
    ensures Ascending(out)
  {
    hide OnTree, Preorder, Greater, Levels, NextLevel, Queued, AllOnTree, Children, Depth;
    var pq := BreadthFirst();
    AllPositive(pq, Top());
    out := [];
    while pq != []
      invariant multiset(out) + multiset(pq) == multiset(Preorder(Top()))
      invariant Ascending(out) && (forall r <- pq :: r.second > 0) && (out != [] ==> Least(out[|out| - 1], pq))
      decreases |pq|
    {
      var k := FindLeast(pq);
      var cur := pq[k];
      assert pq == pq[..k] + [cur] + pq[k + 1..];
      pq := pq[..k] + pq[k + 1..];
      out := out + [cur];
    }
  }

  lemma AllPositive(s: seq<Rational>, r: Rational)
    requires OnTree(r) && multiset(s) == multiset(Preorder(r))
    ensures forall x <- s :: x.second > 0
  {
    forall x <- s ensures x.second > 0 {
      assert x in multiset(s);
      PreorderOnTree(r, x);
    }
  }

  lemma {:induction false} PreorderOnTree(r: Rational, x: Rational)
    requires OnTree(r) && x in Preorder(r)
    ensures OnTree(x)
    decreases Depth(r)
  {
    if Expands(r) {
      Below(r);
      if x in Preorder(Left(r)) { PreorderOnTree(Left(r), x); }
      if x in Preorder(Right(r)) { PreorderOnTree(Right(r), x); }
    }
  }

  // ----- the printed fractions themselves -----

  /** The numbers say which pair the children are. */
  lemma ChildrenAre(p: nat, q: nat, left: Rational, right: Rational)
    requires OnTree(Rational(p, q)) && 0 < p < 4 && 0 < q < 4
    requires p * left.second - left.first * q == 1 && right.first * q - p * right.second == 1
    requires left.first + right.first == 3 * p && left.second + right.second == 3 * q
    requires p + q < left.first + left.second < 2 * (p + q)
    ensures OnTree(left) && OnTree(right) && Kids(Rational(p, q)) == [left, right]
    ensures Preorder(Rational(p, q)) == [Rational(p, q)] + Preorder(left) + Preorder(right)
  {
    hide Children, Preorder, OnTree, Kids;
    var cur := Rational(p, q);
    var l, m, r, s := ChildNumbers(p, q);
    OneNeighbour(p, q, l, m, left.first, left.second);
    PreorderStep(cur);
    KidsOf(cur);
    assert left == Rational(l, m) && right == Rational(r, s);
    PreorderOfKids(cur, left, right);
  }

  lemma PreorderOfKids(cur: Rational, left: Rational, right: Rational)
    requires OnTree(cur) && Kids(cur) == [left, right]
    ensures OnTree(left) && OnTree(right) && Preorder(cur) == [cur] + Preorder(left) + Preorder(right)
  {
    hide Children, OnTree;
    PreorderStep(cur);
    KidsOf(cur);
    assert Expands(cur) && left == Left(cur) && right == Right(cur);
  }

  lemma ChildNumbers(p: nat, q: nat) returns (l: nat, m: nat, r: nat, s: nat)
    requires OnTree(Rational(p, q)) && 0 < p && 0 < q
    ensures Left(Rational(p, q)) == Rational(l, m) && Right(Rational(p, q)) == Rational(r, s)
    ensures p * m - l * q == 1 && l + r == 3 * p && m + s == 3 * q
    ensures p + q < l + m < 2 * (p + q)
  {
    hide Children, Coprime;
    var cur := Rational(p, q);
    ChildrenOk(cur);
    l, m, r, s := Left(cur).first, Left(cur).second, Right(cur).first, Right(cur).second;
  }

  lemma OneNeighbour(p: nat, q: nat, l: nat, m: nat, l1: nat, m1: nat)
    requires 0 < p < 4 && 0 < q < 4
    requires p * m - l * q == 1 && p + q < l + m < 2 * (p + q)
    requires p * m1 - l1 * q == 1 && p + q < l1 + m1 < 2 * (p + q)
    ensures l == l1 && m == m1
  {
    if p == 1 {
    } else if p == 2 {
    } else {
    }
  }

  /** Four levels and no more: the seven fractions with both numbers below 4, and their children. */
  const Printed: seq<Rational> := [
    Rational(1, 1),
    Rational(1, 2), Rational(2, 1),
    Rational(1, 3), Rational(2, 3), Rational(3, 2), Rational(3, 1),
    Rational(1, 4), Rational(2, 5), Rational(3, 5), Rational(3, 4),
    Rational(4, 3), Rational(5, 3), Rational(5, 2), Rational(4, 1)]

  /** Which children the printed fractions have. */
  lemma AllChildren()
    ensures AllOnTree(Printed)
    ensures Kids(Printed[0]) == [Printed[1], Printed[2]]
    ensures Kids(Printed[1]) == [Printed[3], Printed[4]] && Kids(Printed[2]) == [Printed[5], Printed[6]]
    ensures Kids(Printed[3]) == [Printed[7], Printed[8]] && Kids(Printed[4]) == [Printed[9], Printed[10]]
    ensures Kids(Printed[5]) == [Printed[11], Printed[12]] && Kids(Printed[6]) == [Printed[13], Printed[14]]
    ensures forall i | 7 <= i < 15 :: Kids(Printed[i]) == []
  {
    hide OnTree, Preorder, Children;
    TopOnTree();
    ChildrenAre(1, 1, Rational(1, 2), Rational(2, 1));
    ChildrenAre(1, 2, Rational(1, 3), Rational(2, 3));
    ChildrenAre(2, 1, Rational(3, 2), Rational(3, 1));
    ChildrenAre(1, 3, Rational(1, 4), Rational(2, 5));
    ChildrenAre(2, 3, Rational(3, 5), Rational(3, 4));
    ChildrenAre(3, 2, Rational(4, 3), Rational(5, 3));
    ChildrenAre(3, 1, Rational(5, 2), Rational(4, 1));
  }

  lemma NextLevelStep(r: Rational, rest: seq<Rational>)
    requires OnTree(r) && AllOnTree(rest)
    ensures AllOnTree([r] + rest) && NextLevel([r] + rest) == Kids(r) + NextLevel(rest)
  {
    assert ([r] + rest)[1..] == rest;
  }

  lemma {:induction false} NextLevelJoin(a: seq<Rational>, b: seq<Rational>)
    requires AllOnTree(a) && AllOnTree(b)
    ensures AllOnTree(a + b) && NextLevel(a + b) == NextLevel(a) + NextLevel(b)
  {
    hide OnTree, Kids;
    if a == [] {
      assert a + b == b;
    } else {
      NextLevelJoin(a[1..], b);
      assert (a + b)[1..] == a[1..] + b;
    }
  }

  /** The children of two nodes. */
  lemma NextOfTwo(r: Rational, s: Rational)
    requires OnTree(r) && OnTree(s)
    ensures AllOnTree([r, s]) && NextLevel([r, s]) == Kids(r) + Kids(s)
  {
    hide OnTree, Kids;
    NextLevelStep(s, []);
    NextLevelStep(r, [s]);
    assert [s] + [] == [s] && [r] + [s] == [r, s];
  }

  lemma {:induction false} NothingBelow(level: seq<Rational>)
    requires AllOnTree(level) && forall r <- level :: Kids(r) == []
    ensures NextLevel(level) == []
  {
    hide OnTree, Kids;
    if level != [] { NothingBelow(level[1..]); }
  }

  /** The queue prints these fifteen fractions in this order, and stack and heap print the same ones. */
  lemma PrintedIsAll()
    ensures OnTree(Top()) && AllOnTree([Top()]) && Levels([Top()]) == Printed
    ensures multiset(Preorder(Top())) == multiset(Printed)
  {
    hide OnTree, Kids, NextLevel, Levels, Preorder, AllOnTree, Queued;
    WholeTree();
    SecondLevel();
    ThirdLevel();
    LastLevel();
    LevelsFour([Top()], Second, Third, Fourth);
    PrintedSplit();
  }

  lemma PrintedSplit()
    ensures Printed == [Top()] + Second + Third + Fourth
  {
  }

  const Second := [Rational(1, 2), Rational(2, 1)]
  const Third := [Rational(1, 3), Rational(2, 3), Rational(3, 2), Rational(3, 1)]
  const Fourth := [
    Rational(1, 4), Rational(2, 5), Rational(3, 5), Rational(3, 4),
    Rational(4, 3), Rational(5, 3), Rational(5, 2), Rational(4, 1)]

  lemma LevelsFour(a: seq<Rational>, b: seq<Rational>, c: seq<Rational>, d: seq<Rational>)
    requires AllOnTree(a) && NextLevel(a) == b
    requires AllOnTree(b) && NextLevel(b) == c
    requires AllOnTree(c) && NextLevel(c) == d
    requires AllOnTree(d) && NextLevel(d) == []
    ensures Levels(a) == a + b + c + d
  {
    hide OnTree, NextLevel, Levels, AllOnTree;
    LevelsStep(a);
    LevelsStep(b);
    LevelsStep(c);
    LevelsStep(d);
    LevelsStep([]);
    assert a + (b + (c + (d + []))) == a + b + c + d;
  }

  lemma SecondLevel()
    ensures OnTree(Top()) && AllOnTree([Top()]) && AllOnTree(Second) && NextLevel([Top()]) == Second
  {
    hide OnTree, Kids, Preorder;
    AllChildren();
    AllParts();
    LevelBelowTop();
    NextOfTwo(Printed[1], Printed[2]);
  }

  lemma ThirdLevel()
    ensures AllOnTree(Second) && AllOnTree(Third) && NextLevel(Second) == Third
  {
    hide OnTree, Kids, NextLevel, Preorder, AllOnTree;
    AllChildren();
    AllParts();
    NextOfTwo(Printed[1], Printed[2]);
    NextOfTwo(Printed[3], Printed[4]);
    NextOfTwo(Printed[5], Printed[6]);
    NextLevelJoin([Printed[3], Printed[4]], [Printed[5], Printed[6]]);
    assert Second == [Printed[1], Printed[2]];
    assert Third == [Printed[3], Printed[4]] + [Printed[5], Printed[6]];
  }

  lemma AllParts()
    requires AllOnTree(Printed)
    ensures forall i | 0 <= i < 15 :: OnTree(Printed[i])
  {
  }

  lemma LevelBelowTop()
    requires OnTree(Top()) && Kids(Top()) == [Printed[1], Printed[2]]
    ensures AllOnTree([Top()]) && NextLevel([Top()]) == [Printed[1], Printed[2]]
  {
    hide OnTree, Kids;
    NextLevelStep(Top(), []);
    assert [Top()] + [] == [Top()];
  }

  lemma LastLevel()
    ensures AllOnTree(Third) && AllOnTree(Fourth) && NextLevel(Third) == Fourth && NextLevel(Fourth) == []
  {
    hide OnTree, Kids, NextLevel, Preorder;
    AllChildren();
    AllParts();
    NextOfTwo(Printed[3], Printed[4]);
    NextOfTwo(Printed[5], Printed[6]);
    NextLevelJoin([Printed[3], Printed[4]], [Printed[5], Printed[6]]);
    assert Third == [Printed[3], Printed[4]] + [Printed[5], Printed[6]];
    assert forall i | 0 <= i < 8 :: Fourth[i] == Printed[i + 7];
    NothingBelow(Fourth);
  }
}
