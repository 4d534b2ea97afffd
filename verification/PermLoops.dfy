/** Cycles of a permutation: `PermLoop` and its action on elements and on tables. */
module PermLoops {
  import opened Seqs

  /** The integral domain [start, fin]; the library's assertions ask for start < fin. */
  datatype Domain = Domain(start: int, fin: int) {
    predicate Valid() { start < fin }
    predicate Has(x: int) { start <= x <= fin }
    function Size(): int { fin - start + 1 }
  }

  type Loop = seq<int>

  predicate Inside(d: Domain, s: seq<int>) {
    forall x <- s :: d.Has(x)
  }

  /** A cycle one may give to the library: not empty, without repetitions, over the domain. */
  predicate IsCycle(d: Domain, l: Loop) {
    l != [] && Distinct(l) && Inside(d, l)
  }

  /** Its normal form starts with its smallest element. */
  predicate IsLoop(d: Domain, l: Loop) {
    IsCycle(d, l) && forall x <- l :: l[0] <= x
  }

  /** `std::find`: the first position of x, or the length. */
  function Find(s: seq<int>, x: int): (i: nat)
    ensures i <= |s| && (forall j | 0 <= j < i :: s[j] != x) && (i < |s| ==> s[i] == x) && (i == |s| <==> x !in s)
  {
    if s == [] then 0 else if s[0] == x then 0 else Find(s[1..], x) + 1
  }

  /** `PermLoop::apply` on an element: the next one in the cycle. */
  function Apply(l: Loop, x: int): (y: int)
    ensures x !in l ==> y == x
    ensures x in l ==> y in l
  {
    var i := Find(l, x);
    if i == |l| then x else if i + 1 == |l| then l[0] else l[i + 1]
  }

  function Succ(l: Loop, i: nat): nat
    requires i < |l|
  {
    if i + 1 == |l| then 0 else i + 1
  }

  /** On a cycle without repetitions, `Apply` goes from each position to the next. */
  lemma ApplyAt(l: Loop, i: nat)
    requires Distinct(l) && i < |l|
    ensures Apply(l, l[i]) == l[Succ(l, i)]
  {
    assert l[i] in l;
  }

  lemma ApplyInjective(l: Loop, x: int, y: int)
    requires Distinct(l) && Apply(l, x) == Apply(l, y)
    ensures x == y
  {
    if x in l && y in l {
      var i :| 0 <= i < |l| && l[i] == x;
      var j :| 0 <= j < |l| && l[j] == y;
      ApplyAt(l, i);
      ApplyAt(l, j);
    }
  }

  // ----- normal form -----

  /** `std::rotate` so that position i comes first. */
  function Rotate(s: seq<int>, i: nat): seq<int>
    requires i <= |s|
  {
    s[i..] + s[..i]
  }

  function Shifted(n: nat, k: nat, i: nat): nat
    requires i < n && k < n
  {
    if i + k < n then i + k else i + k - n
  }

  lemma RotateAt(l: Loop, k: nat, i: nat)
    requires i < |l| && k < |l|
    ensures |Rotate(l, k)| == |l| && Rotate(l, k)[i] == l[Shifted(|l|, k, i)]
  {
  }

  lemma RotateDistinct(l: Loop, k: nat)
    requires Distinct(l) && k < |l|
    ensures Distinct(Rotate(l, k))
  {
    forall i, j | 0 <= i < j < |l| ensures Rotate(l, k)[i] != Rotate(l, k)[j] {
      RotateAt(l, k, i);
      RotateAt(l, k, j);
    }
  }

  lemma RotateElements(l: Loop, k: nat)
    requires k < |l|
    ensures |Rotate(l, k)| == |l| && forall x :: x in Rotate(l, k) <==> x in l
  {
    assert l == l[..k] + l[k..];
  }

  /** Rotation changes neither the elements nor the action. */
  lemma RotateSame(l: Loop, k: nat, x: int)
    requires Distinct(l) && k < |l|
    ensures Distinct(Rotate(l, k)) && (x in Rotate(l, k) <==> x in l)
    ensures Apply(Rotate(l, k), x) == Apply(l, x)
  {
    hide Apply, Distinct, Rotate;
    var r, n := Rotate(l, k), |l|;
    RotateDistinct(l, k);
    RotateElements(l, k);
    if x in l {
      var i :| 0 <= i < n && l[i] == x;
      var j := if i >= k then i - k else i - k + n;
      RotateAt(l, k, j);
      RotateAt(l, k, Succ(r, j));
      ApplyAt(l, i);
      ApplyAt(r, j);
    } else {
      ApplyOutside(l, x);
      ApplyOutside(r, x);
    }
  }

  lemma ApplyOutside(l: Loop, x: int)
    requires x !in l
    ensures Apply(l, x) == x
  {
  }

  /** `std::min_element`. */
  predicate IsMin(s: seq<int>, i: nat) {
    i < |s| && (forall j | 0 <= j < |s| :: s[i] <= s[j]) && (forall j | 0 <= j < i :: s[i] < s[j])
  }

  /** The cycle `reroll` leaves. */
  ghost predicate Rerolled(s: seq<int>, r: seq<int>) {
    exists i: nat :: IsMin(s, i) && r == Rotate(s, i)
  }

  lemma RerolledIsLoop(d: Domain, s: seq<int>, r: seq<int>, x: int)
    requires IsCycle(d, s) && Rerolled(s, r)
    ensures IsLoop(d, r) && Apply(r, x) == Apply(s, x) && (x in r <==> x in s)
  {
    var i: nat :| IsMin(s, i) && r == Rotate(s, i);
    RotateSame(s, i, x);
    forall y <- r ensures d.Has(y) && r[0] <= y { RotateSame(s, i, y); }
  }

  lemma AlreadyRolled(s: seq<int>, r: seq<int>)
    requires s != [] && Distinct(s) && (forall x <- s :: s[0] <= x) && Rerolled(s, r)
    ensures r == s
  {
    var i: nat :| IsMin(s, i) && r == Rotate(s, i);
    assert s[i] in s && s[i] <= s[0];
    assert s[0..] + s[..0] == s;
  }

  // ----- inverse -----

  function Reversed(s: seq<int>): (r: seq<int>)
    ensures |r| == |s| && forall i | 0 <= i < |s| :: r[i] == s[|s| - 1 - i]
  {
    if s == [] then [] else Reversed(s[1..]) + [s[0]]
  }

  /** The loop walked backwards, with its first element kept in place. */
  function Inverted(l: Loop): Loop
    requires l != []
  {
    [l[0]] + Reversed(l[1..])
  }

  lemma InvertedAt(l: Loop, i: nat)
    requires i < |l|
    ensures |Inverted(l)| == |l| && Inverted(l)[i] == if i == 0 then l[0] else l[|l| - i]
  {
  }

  /** Loops of one or two elements are their own inverses. */
  lemma ShortInverted(l: Loop)
    requires 0 < |l| < 3
    ensures Inverted(l) == l
  {
    forall i | 0 <= i < |l| ensures Inverted(l)[i] == l[i] { InvertedAt(l, i); }
  }

  /** Position i of the inverted loop holds position `Mirror` of the loop, and the other way round. */
  function Mirror(n: nat, i: nat): nat
    requires i < n
  {
    if i == 0 then 0 else n - i
  }

  lemma MirrorAt(l: Loop, i: nat)
    requires i < |l|
    ensures |Inverted(l)| == |l| && Inverted(l)[i] == l[Mirror(|l|, i)]
    ensures Inverted(l)[Mirror(|l|, i)] == l[i]
  {
    InvertedAt(l, i);
    InvertedAt(l, Mirror(|l|, i));
  }

  lemma InvertedElements(l: Loop, x: int)
    requires l != []
    ensures x in Inverted(l) <==> x in l
  {
    hide Inverted;
    MirrorAt(l, 0);
    if x in l {
      var i :| 0 <= i < |l| && l[i] == x;
      MirrorAt(l, i);
    }
    if x in Inverted(l) {
      var i :| 0 <= i < |l| && Inverted(l)[i] == x;
      MirrorAt(l, i);
    }
  }

  lemma InvertedDistinct(l: Loop)
    requires l != [] && Distinct(l)
    ensures |Inverted(l)| == |l| && Inverted(l)[0] == l[0] && Distinct(Inverted(l))
  {
    hide Inverted;
    MirrorAt(l, 0);
    forall i, j | 0 <= i < j < |l| ensures Inverted(l)[i] != Inverted(l)[j] {
      MirrorAt(l, i);
      MirrorAt(l, j);
    }
  }

  lemma InvertedIsLoop(d: Domain, l: Loop, x: int)
    requires IsLoop(d, l)
    ensures IsLoop(d, Inverted(l)) && Inverted(l)[0] == l[0] && (x in Inverted(l) <==> x in l)
    ensures Apply(Inverted(l), Apply(l, x)) == x
  {
    hide Inverted, Apply, Distinct;
    var r, n := Inverted(l), |l|;
    InvertedDistinct(l);
    InvertedElements(l, x);
    forall y <- r ensures y in l { InvertedElements(l, y); }
    if x in l {
      var i :| 0 <= i < n && l[i] == x;
      MirrorAt(l, i);
      ApplyAt(l, i);
      var j := Succ(l, i);
      MirrorAt(l, j);
      ApplyAt(r, Mirror(n, j));
    } else {
      ApplyOutside(l, x);
      ApplyOutside(r, x);
    }
  }

  // ----- a cycle on a table -----

  /** The table `now` is the table `was` after the cycle: x now goes where its successor went. */
  ghost predicate Composed(d: Domain, l: Loop, was: seq<int>, now: seq<int>) {
    |was| == |now| == d.Size() &&
    forall x {:trigger ComposedAt(d, l, was, now, x)} | d.Has(x) :: ComposedAt(d, l, was, now, x)
  }

  ghost predicate ComposedAt(d: Domain, l: Loop, was: seq<int>, now: seq<int>, x: int)
    requires |was| == |now| == d.Size() && d.Has(x)
  {
    d.Has(Apply(l, x)) && now[x - d.start] == was[Apply(l, x) - d.start]
  }

  /** The first `n` entries of the cycle have received their successors' values. */
  ghost predicate Moved(d: Domain, l: Loop, was: seq<int>, now: seq<int>, n: nat) {
    && |was| == |now| == d.Size() && n <= |l| - 1 && (forall i | 0 <= i < |l| :: d.Has(l[i]))
    && (forall i | 0 <= i < n :: now[l[i] - d.start] == was[l[i + 1] - d.start])
    && (forall x | d.Has(x) && x !in l[..n] :: now[x - d.start] == was[x - d.start])
  }

  lemma InsideAt(d: Domain, l: Loop)
    requires Inside(d, l)
    ensures forall i | 0 <= i < |l| :: d.Has(l[i])
  {
    forall i | 0 <= i < |l| ensures d.Has(l[i]) { assert l[i] in l; }
  }

  lemma MoveOne(d: Domain, l: Loop, was: seq<int>, before: seq<int>, now: seq<int>, n: nat)
    requires Distinct(l) && Moved(d, l, was, before, n) && n + 1 <= |l| - 1
    requires now == before[l[n] - d.start := before[l[n + 1] - d.start]]
    ensures Moved(d, l, was, now, n + 1)
  {
    assert l[..n + 1] == l[..n] + [l[n]];
    assert l[n + 1] !in l[..n];
    forall i | 0 <= i < n ensures l[i] != l[n] { }
  }

  lemma MoveLast(d: Domain, l: Loop, was: seq<int>, before: seq<int>, now: seq<int>)
    requires l != [] && Distinct(l) && Moved(d, l, was, before, |l| - 1)
    requires |was| == |before| == d.Size() && d.Has(l[0]) && d.Has(l[|l| - 1])
    requires now == before[l[|l| - 1] - d.start := was[l[0] - d.start]]
    ensures Composed(d, l, was, now)
  {
    hide Apply, Distinct, Moved;
    forall x | d.Has(x) ensures ComposedAt(d, l, was, now, x) {
      MoveLastAt(d, l, was, before, now, x);
    }
  }

  lemma MoveLastAt(d: Domain, l: Loop, was: seq<int>, before: seq<int>, now: seq<int>, x: int)
    requires l != [] && Distinct(l) && Moved(d, l, was, before, |l| - 1) && d.Has(x)
    requires |was| == |before| == d.Size() && d.Has(l[0]) && d.Has(l[|l| - 1])
    requires now == before[l[|l| - 1] - d.start := was[l[0] - d.start]]
    ensures d.Has(Apply(l, x)) && now[x - d.start] == was[Apply(l, x) - d.start]
  {
    hide Apply, Distinct, Moved;
    if x in l {
      var j :| 0 <= j < |l| && l[j] == x;
      MovedInside(d, l, was, before, now, j);
    } else {
      MovedOutside(d, l, was, before, x);
      ApplyOutside(l, x);
    }
  }

  lemma MovedInside(d: Domain, l: Loop, was: seq<int>, before: seq<int>, now: seq<int>, j: nat)
    requires j < |l| && Distinct(l) && Moved(d, l, was, before, |l| - 1)
    requires |was| == |before| == d.Size() && d.Has(l[0]) && d.Has(l[|l| - 1])
    requires now == before[l[|l| - 1] - d.start := was[l[0] - d.start]]
    ensures d.Has(l[j]) && d.Has(Apply(l, l[j])) && now[l[j] - d.start] == was[Apply(l, l[j]) - d.start]
  {
    hide Apply;
    ApplyAt(l, j);
  }

  lemma MovedOutside(d: Domain, l: Loop, was: seq<int>, before: seq<int>, x: int)
    requires l != [] && x !in l && d.Has(x) && Moved(d, l, was, before, |l| - 1)
    ensures |was| == |before| == d.Size() && l[|l| - 1] != x && before[x - d.start] == was[x - d.start]
  {
    assert l[|l| - 1] in l;
    assert forall y <- l[..|l| - 1] :: y in l;
  }

  // ----- the class -----

  class PermLoop {
    var loop: Loop

    constructor (ls: seq<int>, ghost d: Domain)
      requires IsCycle(d, ls)
      ensures Rerolled(ls, loop) && IsLoop(d, loop)
    {
      loop := ls;
      new;
      Reroll();
      RerolledIsLoop(d, ls, loop, 0);
    }

    /** Roll to normal form: the smallest element first. */
    method Reroll()
      requires loop != []
      modifies this
      ensures Rerolled(old(loop), loop)
    {
      var smallest := 0;
      for i := 1 to |loop|
        invariant smallest < i
        invariant forall j | 0 <= j < i :: loop[smallest] <= loop[j]
        invariant forall j | 0 <= j < smallest :: loop[smallest] < loop[j]
        invariant loop == old(loop)
      {
        if loop[i] < loop[smallest] { smallest := i; }
      }
      assert IsMin(loop, smallest);
      loop := loop[smallest..] + loop[..smallest];
    }

    method Add(x: int, ghost d: Domain)
      requires IsLoop(d, loop) && d.Has(x) && x !in loop
      modifies this
      ensures Rerolled(old(loop) + [x], loop) && IsLoop(d, loop)
    {
      loop := loop + [x];
      Reroll();
      RerolledIsLoop(d, old(loop) + [x], loop, 0);
    }

    method Inverse(ghost d: Domain)
      requires IsLoop(d, loop)
      modifies this
      ensures loop == Inverted(old(loop)) && IsLoop(d, loop)
    {
      InvertedIsLoop(d, loop, 0);
      if |loop| < 3 {
        ShortInverted(loop);
        return;
      }
      loop := [loop[0]] + Reversed(loop[1..]);
    }

    /** The element action. */
    method ApplyTo(x: int) returns (y: int)
      ensures y == Apply(loop, x)
    {
      var i := 0;
      while i < |loop| && loop[i] != x
        invariant i <= |loop| && forall j | 0 <= j < i :: loop[j] != x
      {
        i := i + 1;
      }
      y := if i == |loop| then x else if i + 1 == |loop| then loop[0] else loop[i + 1];
    }

    /** Permutes a table in place: every entry of the cycle is replaced by its successor's. */
    method ApplyTable(d: Domain, table: array<int>)
      requires d.Valid() && IsLoop(d, loop) && table.Length == d.Size()
      modifies table
      ensures Composed(d, loop, old(table[..]), table[..])
    {
      ghost var was := table[..];
      InsideAt(d, loop);
      var nxt := loop[0] - d.start;
      var tmp := table[nxt];
      var i := 0;
      while i < |loop|
        invariant i <= |loop|
        invariant nxt == loop[if i == 0 then 0 else i - 1] - d.start
        invariant Moved(d, loop, was, table[..], if i == 0 then 0 else i - 1)
      {
        var prev := nxt;
        nxt := loop[i] - d.start;
        if loop[i] != loop[0] {
          ghost var before := table[..];
          table[prev] := table[nxt];
          MoveOne(d, loop, was, before, table[..], i - 1);
        }
        i := i + 1;
      }
      ghost var before := table[..];
      table[nxt] := tmp;
      MoveLast(d, loop, was, before, table[..]);
    }
  }
}
