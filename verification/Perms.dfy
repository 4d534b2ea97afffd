/** Permutations as lists of cycles in canonical form, and the group they make. */
module Perms {
  import opened PermLoops
  import opened Seqs
  import opened PermTables

  /** Disjoint loops in normal form that mention the whole domain, largest first elements first. */
  ghost predicate Canonical(d: Domain, loops: seq<Loop>) {
    && loops != [] && AllIsLoop(d, loops) && Disjoint(loops)
    && (forall x | d.Has(x) :: Mentions(loops, x))
    && forall i, j | 0 <= i < j < |loops| :: Before(loops[j], loops[i])
  }

  /** Both lists send every element of the domain to the same place. */
  ghost predicate SameMap(d: Domain, p: seq<Loop>, q: seq<Loop>) {
    forall x | d.Has(x) :: ApplyAll(p, x) == ApplyAll(q, x)
  }

  // ----- only the set of disjoint loops matters for the action -----

  lemma ActionInside(loops: seq<Loop>, l: Loop, x: int)
    requires Disjoint(loops) && l in loops && x in l
    ensures ApplyAll(loops, x) == Apply(l, x)
  {
    var k :| 0 <= k < |loops| && loops[k] == l;
    ApplyAllInside(loops, k, x);
  }

  // ----- uniqueness -----

  /** Two loops with a common first element that act alike agree at every position. */
  lemma {:induction false} SameAt(a: Loop, b: Loop, i: nat)
    requires Distinct(a) && Distinct(b) && i < |a| && i < |b| && a[0] == b[0]
    requires forall x <- a :: Apply(a, x) == Apply(b, x)
    ensures a[i] == b[i]
  {
    hide Apply, Distinct;
    if i > 0 {
      SameAt(a, b, i - 1);
      ApplyAt(a, i - 1);
      ApplyAt(b, i - 1);
      assert a[i - 1] in a;
    }
  }

  lemma SameLoop(a: Loop, b: Loop)
    requires Distinct(a) && Distinct(b) && a != [] && b != [] && a[0] == b[0]
    requires forall x <- a :: Apply(a, x) == Apply(b, x)
    ensures a == b
  {
    hide Apply;
    var n := if |a| < |b| then |a| else |b|;
    forall i | 0 <= i < n ensures a[i] == b[i] { SameAt(a, b, i); }
    ApplyAt(a, n - 1);
    ApplyAt(b, n - 1);
    assert a[n - 1] in a;
  }

  /** A loop is closed under its action, and reaches its first element from anywhere. */
  lemma {:induction false} ReachFirst(a: Loop, s: set<int>, i: nat)
    requires Distinct(a) && i < |a| && a[i] in s && (forall x <- s :: Apply(a, x) in s)
    ensures a[0] in s
    decreases |a| - i
  {
    ApplyAt(a, i);
    if i + 1 < |a| { ReachFirst(a, s, i + 1); }
  }

  /** The first elements of the two loops that mention a common element agree. */
  lemma SameFirst(d: Domain, p: seq<Loop>, q: seq<Loop>, a: Loop, b: Loop, x: int)
    requires Canonical(d, p) && Canonical(d, q) && SameMap(d, p, q)
    requires a in p && b in q && x in a && x in b
    ensures a[0] in b
  {
    var i :| 0 <= i < |a| && a[i] == x;
    var s := set y | y in b;
    forall y <- s ensures Apply(a, y) in s {
      if y in a {
        ActionInside(p, a, y);
        ActionInside(q, b, y);
        assert d.Has(y);
      }
    }
    ReachFirst(a, s, i);
  }

  lemma LoopInBoth(d: Domain, p: seq<Loop>, q: seq<Loop>, a: Loop)
    requires Canonical(d, p) && Canonical(d, q) && SameMap(d, p, q) && a in p
    ensures a in q
  {
    var x := a[0];
    assert IsLoop(d, a) && x in a && d.Has(x);
    assert Mentions(q, x);
    var b :| b in q && x in b;
    assert IsLoop(d, b);
    SameFirst(d, p, q, a, b, x);
    SameFirst(d, q, p, b, a, x);
    assert a[0] <= b[0] && b[0] <= a[0];
    forall y <- a ensures Apply(a, y) == Apply(b, y) {
      assert d.Has(y);
      ActionInside(p, a, y);
      if y in b {
        ActionInside(q, b, y);
      } else {
        StaysIn(d, p, q, a, b, y);
      }
    }
    SameLoop(a, b);
  }

  /** Everything on a is on b as well. */
  lemma StaysIn(d: Domain, p: seq<Loop>, q: seq<Loop>, a: Loop, b: Loop, y: int)
    requires Canonical(d, p) && Canonical(d, q) && SameMap(d, p, q)
    requires a in p && b in q && y in a && a[0] in b
    ensures y in b
  {
    assert IsLoop(d, a) && y in a && d.Has(y);
    assert Mentions(q, y);
    var c :| c in q && y in c;
    SameFirst(d, p, q, a, c, y);
    OnlyOne(q, b, c, a[0]);
  }

  /** Disjoint loops: an element is mentioned by one of them only. */
  lemma OnlyOne(q: seq<Loop>, b: Loop, c: Loop, x: int)
    requires Disjoint(q) && b in q && c in q && x in b && x in c
    ensures b == c
  {
    var i :| 0 <= i < |q| && q[i] == b;
    var j :| 0 <= j < |q| && q[j] == c;
    assert i < j ==> Apart(q[i], q[j]);
    assert j < i ==> Apart(q[j], q[i]);
  }

  /** Lists in the same strict order with the same members are the same list. */
  lemma {:induction false} SameOrder(p: seq<Loop>, q: seq<Loop>)
    requires forall i, j | 0 <= i < j < |p| :: Before(p[j], p[i])
    requires forall i, j | 0 <= i < j < |q| :: Before(q[j], q[i])
    requires forall l :: l in p <==> l in q
    ensures p == q
  {
    assert q != [] ==> q[0] in p;
    if p != [] {
      assert p[0] in q && q != [] && q[0] in p;
      var i :| 0 <= i < |q| && q[i] == p[0];
      var j :| 0 <= j < |p| && p[j] == q[0];
      NotBeforeFirst(q, i);
      NotBeforeFirst(p, j);
      assert p[0] == q[0];
      forall l ensures l in p[1..] <==> l in q[1..] {
        Tail(p, l);
        Tail(q, l);
      }
      SameOrder(p[1..], q[1..]);
      assert p == [p[0]] + p[1..] && q == [q[0]] + q[1..];
    }
  }

  lemma NotBeforeFirst(p: seq<Loop>, i: nat)
    requires i < |p| && forall i, j | 0 <= i < j < |p| :: Before(p[j], p[i])
    ensures i == 0 || Before(p[i], p[0])
  {
  }

  lemma Tail(p: seq<Loop>, l: Loop)
    requires p != [] && forall i, j | 0 <= i < j < |p| :: Before(p[j], p[i])
    ensures l in p[1..] <==> l in p && l != p[0]
  {
    if l in p[1..] {
      var i :| 0 <= i < |p[1..]| && p[1..][i] == l;
      assert Before(p[i + 1], p[0]);
    }
    assert p == [p[0]] + p[1..];
  }

  /** The canonical form is unique: two permutations are `equals` exactly when they map every
      element alike. */
  lemma CanonicalUnique(d: Domain, p: seq<Loop>, q: seq<Loop>)
    requires Canonical(d, p) && Canonical(d, q)
    ensures p == q <==> SameMap(d, p, q)
  {
    if SameMap(d, p, q) {
      forall l ensures l in p <==> l in q {
        if l in p { LoopInBoth(d, p, q, l); }
        if l in q { LoopInBoth(d, q, p, l); }
      }
      SameOrder(p, q);
    }
  }

  // ----- sorting the loops -----

  predicate NonEmpty(loops: seq<Loop>) {
    forall i | 0 <= i < |loops| :: loops[i] != []
  }

  /** Puts a loop where it belongs in a list with falling first elements. */
  function Insert(l: Loop, loops: seq<Loop>): (r: seq<Loop>)
    requires l != [] && NonEmpty(loops)
    ensures NonEmpty(r) && forall k :: k in r <==> k == l || k in loops
  {
    if loops == [] then [l]
    else if l[0] > loops[0][0] then [l] + loops
    else
      assert loops == [loops[0]] + loops[1..];
      [loops[0]] + Insert(l, loops[1..])
  }

  /** The loops with their first elements falling. */
  function SortLoops(loops: seq<Loop>): (r: seq<Loop>)
    requires NonEmpty(loops)
    ensures NonEmpty(r) && forall k :: k in r <==> k in loops
  {
    if loops == [] then [] else
    assert loops == [loops[0]] + loops[1..];
    Insert(loops[0], SortLoops(loops[1..]))
  }

  ghost predicate Falling(loops: seq<Loop>) {
    forall i, j | 0 <= i < j < |loops| :: Before(loops[j], loops[i])
  }

  lemma {:induction false} InsertFalling(l: Loop, loops: seq<Loop>)
    requires l != [] && NonEmpty(loops) && (forall i | 0 <= i < |loops| :: loops[i][0] != l[0]) && Falling(loops)
    ensures Falling(Insert(l, loops))
  {
    if loops != [] {
      var first, rest := loops[0], loops[1..];
      var r := Insert(l, loops);
      assert first in loops;
      if l[0] > first[0] {
        forall i, j | 0 <= i < j < |r| ensures Before(r[j], r[i]) {
          assert j > 1 ==> Before(loops[j - 1], loops[0]);
          assert i > 0 ==> Before(loops[j - 1], loops[i - 1]);
        }
      } else {
        forall i, j | 0 <= i < j < |rest| ensures Before(rest[j], rest[i]) {
          assert Before(loops[j + 1], loops[i + 1]);
        }
        InsertFalling(l, rest);
        var tail := Insert(l, rest);
        forall i | 0 <= i < |tail| ensures Before(tail[i], first) {
          assert tail[i] in tail;
          if tail[i] != l {
            var m :| 0 <= m < |rest| && rest[m] == tail[i];
            assert Before(loops[m + 1], loops[0]);
          }
        }
        forall i, j | 0 <= i < j < |r| ensures Before(r[j], r[i]) {
          assert r[j] == tail[j - 1] && tail[j - 1] in tail;
          assert i > 0 ==> Before(tail[j - 1], tail[i - 1]);
        }
      }
    }
  }

  lemma {:induction false} SortFalling(loops: seq<Loop>)
    requires NonEmpty(loops) && (forall i, j | 0 <= i < j < |loops| :: loops[i][0] != loops[j][0])
    ensures Falling(SortLoops(loops))
  {
    if loops != [] {
      var rest := loops[1..];
      SortFalling(rest);
      var sorted := SortLoops(rest);
      forall i | 0 <= i < |sorted| ensures sorted[i][0] != loops[0][0] {
        assert sorted[i] in sorted;
        var m :| 0 <= m < |rest| && rest[m] == sorted[i];
        assert loops[0][0] != loops[m + 1][0];
      }
      InsertFalling(loops[0], SortLoops(rest));
    }
  }

  /** Falling lists with the loops of a disjoint list are disjoint too. */
  lemma FallingDisjoint(loops: seq<Loop>, r: seq<Loop>)
    requires Disjoint(loops) && Falling(r) && forall k <- r :: k in loops
    ensures Disjoint(r)
  {
    forall i, j | 0 <= i < j < |r| ensures Apart(r[i], r[j]) {
      assert Before(r[j], r[i]);
      forall x <- r[i] ensures x !in r[j] {
        if x in r[j] { OnlyOne(loops, r[i], r[j], x); }
      }
    }
  }

  /** What create_loops delivers, sorted, is in canonical form and acts the same. */
  lemma SortedIsCanonical(d: Domain, loops: seq<Loop>)
    requires d.Valid() && Ascending(d, loops)
    ensures NonEmpty(loops)
    ensures Canonical(d, SortLoops(loops)) && SameMap(d, SortLoops(loops), loops)
  {
    assert Mentions(loops, d.start);
    forall i | 0 <= i < |loops| ensures loops[i] != [] { assert IsLoop(d, loops[i]); }
    forall i, j | 0 <= i < j < |loops| ensures loops[i][0] != loops[j][0] { assert Before(loops[i], loops[j]); }
    var r := SortLoops(loops);
    SortFalling(loops);
    FallingDisjoint(loops, r);
    forall l <- r ensures IsLoop(d, l) { assert l in loops; }
    forall x | d.Has(x) ensures Mentions(r, x) && ApplyAll(r, x) == ApplyAll(loops, x) {
      assert Mentions(loops, x);
      var l :| l in loops && x in l;
      assert l in r;
      ActionInside(loops, l, x);
      ActionInside(r, l, x);
    }
    assert Mentions(r, d.start);
  }

  // ----- the group -----

  /** `r` is the canonical form of "first p, then q". */
  ghost predicate IsProduct(d: Domain, p: seq<Loop>, q: seq<Loop>, r: seq<Loop>) {
    Canonical(d, r) && forall x | d.Has(x) :: ApplyAll(r, x) == ApplyAll(q, ApplyAll(p, x))
  }

  lemma ActionHas(d: Domain, p: seq<Loop>, x: int)
    requires Canonical(d, p) && d.Has(x)
    ensures d.Has(ApplyAll(p, x))
  {
    assert Mentions(p, x);
    var l :| l in p && x in l;
    assert IsLoop(d, l);
    ActionInside(p, l, x);
    assert Apply(l, x) in l;
  }

  /** Products do not depend on the bracketing, down to the stored cycles. */
  lemma ProductAssociative(
      d: Domain, p: seq<Loop>, q: seq<Loop>, r: seq<Loop>,
      pq: seq<Loop>, qr: seq<Loop>, left: seq<Loop>, right: seq<Loop>)
    requires Canonical(d, p) && Canonical(d, q) && Canonical(d, r)
    requires IsProduct(d, p, q, pq) && IsProduct(d, pq, r, left)
    requires IsProduct(d, q, r, qr) && IsProduct(d, p, qr, right)
    ensures left == right
  {
    forall x | d.Has(x) ensures ApplyAll(left, x) == ApplyAll(right, x) {
      ActionHas(d, p, x);
      ActionHas(d, pq, x);
    }
    CanonicalUnique(d, left, right);
  }

  function InvertAll(loops: seq<Loop>): (r: seq<Loop>)
    requires NonEmpty(loops)
    ensures |r| == |loops| && forall i | 0 <= i < |loops| :: r[i] == Inverted(loops[i])
  {
    if loops == [] then [] else
    assert loops == [loops[0]] + loops[1..];
    [Inverted(loops[0])] + InvertAll(loops[1..])
  }

  lemma NonEmptyLoops(d: Domain, p: seq<Loop>)
    requires Canonical(d, p)
    ensures NonEmpty(p)
  {
    forall i | 0 <= i < |p| ensures p[i] != [] { assert IsLoop(d, p[i]); }
  }

  /** Inverting every loop keeps the canonical form and undoes the permutation. */
  lemma InverseUndoes(d: Domain, p: seq<Loop>)
    requires Canonical(d, p)
    ensures NonEmpty(p)
    ensures Canonical(d, InvertAll(p))
    ensures forall x | d.Has(x) :: ApplyAll(InvertAll(p), ApplyAll(p, x)) == x
  {
    NonEmptyLoops(d, p);
    var r := InvertAll(p);
    InverseCanonical(d, p);
    forall x | d.Has(x) ensures ApplyAll(r, ApplyAll(p, x)) == x {
      assert Mentions(p, x);
      var l :| l in p && x in l;
      var k :| 0 <= k < |p| && p[k] == l;
      assert IsLoop(d, l);
      ActionInside(p, l, x);
      InvertedIsLoop(d, l, x);
      InvertedIsLoop(d, l, Apply(l, x));
      assert r[k] in r;
      ActionInside(r, r[k], Apply(l, x));
    }
  }

  lemma InverseCanonical(d: Domain, p: seq<Loop>)
    requires Canonical(d, p) && NonEmpty(p)
    ensures Canonical(d, InvertAll(p))
  {
    hide Inverted, Apply;
    var r := InvertAll(p);
    forall i | 0 <= i < |p| ensures IsLoop(d, r[i]) && r[i][0] == p[i][0] && forall x :: x in r[i] <==> x in p[i] {
      InverseAt(d, p, i);
    }
    forall i, j | 0 <= i < j < |r| ensures Apart(r[i], r[j]) && Before(r[j], r[i]) {
      assert Apart(p[i], p[j]) && Before(p[j], p[i]);
    }
    forall x | d.Has(x) ensures Mentions(r, x) {
      assert Mentions(p, x);
      var l :| l in p && x in l;
      var k :| 0 <= k < |p| && p[k] == l;
      assert r[k] in r && x in r[k];
    }
  }

  lemma InverseAt(d: Domain, p: seq<Loop>, i: nat)
    requires Canonical(d, p) && i < |p| && NonEmpty(p)
    ensures IsLoop(d, InvertAll(p)[i]) && InvertAll(p)[i][0] == p[i][0]
    ensures forall x :: x in InvertAll(p)[i] <==> x in p[i]
  {
    assert p[i] in p && IsLoop(d, p[i]);
    forall x ensures x in InvertAll(p)[i] <==> x in p[i] { InvertedIsLoop(d, p[i], x); }
    InvertedIsLoop(d, p[i], 0);
  }

  /** The permutation that moves nothing, as the default constructor stores it. */
  function Identity(d: Domain, x: int): (r: seq<Loop>)
    requires x >= d.start - 1
    decreases x - d.start + 1
    ensures |r| == x - d.start + 1 && forall i | 0 <= i < |r| :: r[i] == [x - i]
  {
    if x < d.start then [] else [[x]] + Identity(d, x - 1)
  }

  lemma IdentityCanonical(d: Domain)
    requires d.Valid()
    ensures Canonical(d, Identity(d, d.fin))
    ensures forall x | d.Has(x) :: ApplyAll(Identity(d, d.fin), x) == x
  {
    var p := Identity(d, d.fin);
    forall l <- p ensures IsLoop(d, l) { }
    forall i, j | 0 <= i < j < |p| ensures Apart(p[i], p[j]) && Before(p[j], p[i]) { }
    forall x | d.Has(x) ensures Mentions(p, x) && ApplyAll(p, x) == x {
      assert p[d.fin - x] == [x] && p[d.fin - x] in p && x in [x];
      ActionInside(p, [x], x);
    }
  }

  /** A permutation times its inverse is the default permutation, cycle for cycle. */
  lemma ProductWithInverse(d: Domain, p: seq<Loop>, r: seq<Loop>)
    requires d.Valid() && Canonical(d, p) && NonEmpty(p) && IsProduct(d, p, InvertAll(p), r)
    ensures r == Identity(d, d.fin)
  {
    InverseUndoes(d, p);
    IdentityCanonical(d);
    CanonicalUnique(d, r, Identity(d, d.fin));
  }
}
