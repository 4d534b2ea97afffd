/** The `Permutation` class, products and inverses of its objects, and orbits. */
module PermObjects {
  import opened PermLoops
  import opened PermTables
  import opened Perms

  /** The default constructor's list before sorting: one loop per element, ascending. */
  lemma SinglesAscend(d: Domain, loops: seq<Loop>)
    requires d.Valid() && |loops| == d.Size() && forall i | 0 <= i < |loops| :: loops[i] == [d.start + i]
    ensures Ascending(d, loops) && forall x | d.Has(x) :: ApplyAll(loops, x) == x
  {
    forall l <- loops ensures IsLoop(d, l) { }
    forall i, j | 0 <= i < j < |loops| ensures Apart(loops[i], loops[j]) && Before(loops[i], loops[j]) { }
    forall x | d.Has(x) ensures Mentions(loops, x) && ApplyAll(loops, x) == x {
      assert loops[x - d.start] == [x] && loops[x - d.start] in loops && x in [x];
      ActionInside(loops, [x], x);
    }
  }

  /** The conditions `check` enforces on a stored permutation. */
  ghost predicate CheckPasses(d: Domain, loops: seq<Loop>) {
    && d.start < d.fin && loops != [] && NonEmpty(loops)
    && (forall x | d.Has(x) :: Mentions(loops, x))
    && forall i | 0 <= i < |loops| - 1 :: loops[i][0] > loops[i + 1][0]
  }

  lemma CanonicalPassesCheck(d: Domain, loops: seq<Loop>)
    requires d.Valid() && Canonical(d, loops)
    ensures CheckPasses(d, loops)
  {
    NonEmptyLoops(d, loops);
    forall i | 0 <= i < |loops| - 1 ensures loops[i][0] > loops[i + 1][0] { assert Before(loops[i + 1], loops[i]); }
  }

  class Permutation {
    const d: Domain
    var loops: seq<Loop>

    ghost predicate Valid()
      reads this
    {
      d.Valid() && Canonical(d, loops)
    }

    /** The identity over the domain. */
    constructor Identity(dom: Domain)
      requires dom.Valid()
      ensures Valid() && d == dom && loops == Perms.Identity(dom, dom.fin) && CheckPasses(d, loops)
    {
      d := dom;
      loops := [];
      new;
      var x := d.start;
      while x <= d.fin
        invariant d.start <= x <= d.fin + 1 && |loops| == x - d.start
        invariant forall i | 0 <= i < |loops| :: loops[i] == [d.start + i]
      {
        loops := loops + [[x]];
        x := x + 1;
      }
      SinglesAscend(d, loops);
      SortedIsCanonical(d, loops);
      loops := SortLoops(loops);
      IdentityCanonical(d);
      CanonicalUnique(d, loops, Perms.Identity(d, d.fin));
      CanonicalPassesCheck(d, loops);
    }

    /** The permutation given by any cycles, applied first to last. */
    constructor FromLoops(dom: Domain, input: seq<Loop>)
      requires dom.Valid() && AllIsLoop(dom, input)
      ensures Valid() && d == dom && SameMap(dom, loops, input) && CheckPasses(d, loops)
    {
      d := dom;
      new;
      var simple := SimplifyLoops(dom, input);
      SortedIsCanonical(dom, simple);
      loops := SortLoops(simple);
      CanonicalPassesCheck(d, loops);
    }

    /** A copy, from what another permutation stores. */
    constructor Copy(dom: Domain, stored: seq<Loop>)
      requires dom.Valid() && Canonical(dom, stored)
      ensures Valid() && d == dom && loops == stored
    {
      d := dom;
      loops := stored;
    }

    /** this = lhs * this: the argument acts first. */
    method Lmul(input: Permutation)
      requires Valid() && input.Valid() && input.d == d
      modifies this
      ensures Valid() && IsProduct(d, old(input.loops), old(loops), loops) && CheckPasses(d, loops)
    {
      ghost var mine, other := loops, input.loops;
      loops := input.loops + loops;
      assert AllIsLoop(d, loops);
      var out := SimplifyLoops(d, loops);
      SortedIsCanonical(d, out);
      loops := SortLoops(out);
      ProductOf(d, other, mine, out, loops);
      CanonicalPassesCheck(d, loops);
    }

    /** this = this * rhs: the argument acts last. */
    method Rmul(input: Permutation)
      requires Valid() && input.Valid() && input.d == d
      modifies this
      ensures Valid() && IsProduct(d, old(loops), old(input.loops), loops) && CheckPasses(d, loops)
    {
      ghost var mine, other := loops, input.loops;
      loops := loops + input.loops;
      assert AllIsLoop(d, loops);
      var out := SimplifyLoops(d, loops);
      SortedIsCanonical(d, out);
      loops := SortLoops(out);
      ProductOf(d, mine, other, out, loops);
      CanonicalPassesCheck(d, loops);
    }

    method Inverse()
      requires Valid()
      modifies this
      ensures NonEmpty(old(loops)) && Valid() && loops == InvertAll(old(loops)) && CheckPasses(d, loops)
    {
      NonEmptyLoops(d, loops);
      ghost var was := loops;
      var i := 0;
      while i < |loops|
        invariant i <= |loops| == |was| && NonEmpty(was) && Canonical(d, was)
        invariant forall j | 0 <= j < i :: loops[j] == InvertAll(was)[j]
        invariant forall j | i <= j < |loops| :: loops[j] == was[j]
      {
        assert was[i] in was && IsLoop(d, was[i]);
        var l := new PermLoop(loops[i], d);
        LoopRolled(d, was[i], l.loop);
        l.Inverse(d);
        loops := loops[i := l.loop];
        i := i + 1;
      }
      assert loops == InvertAll(was);
      InverseCanonical(d, was);
      CanonicalPassesCheck(d, loops);
    }

    /** The action on an element. */
    method ApplyTo(elem: int) returns (res: int)
      requires Valid()
      ensures res == ApplyAll(loops, elem)
    {
      res := elem;
      var i := 0;
      assert loops[0..] == loops;
      while i < |loops|
        invariant i <= |loops| && ApplyAll(loops[i..], res) == ApplyAll(loops, elem)
      {
        assert loops[i..][1..] == loops[i + 1..];
        res := Apply(loops[i], res);
        i := i + 1;
      }
    }

    /** `equals` compares the stored cycles; that decides equality as maps. */
    method Equals(rhs: Permutation) returns (same: bool)
      requires Valid() && rhs.Valid() && rhs.d == d
      ensures same <==> SameMap(d, loops, rhs.loops)
    {
      CanonicalUnique(d, loops, rhs.loops);
      same := rhs.loops == loops;
    }
  }

  lemma ProductOf(d: Domain, p: seq<Loop>, q: seq<Loop>, out: seq<Loop>, r: seq<Loop>)
    requires Canonical(d, r) && SameMap(d, r, out)
    requires forall x | d.Has(x) :: ApplyAll(out, x) == ApplyAll(p + q, x)
    ensures IsProduct(d, p, q, r)
  {
    forall x | d.Has(x) ensures ApplyAll(r, x) == ApplyAll(q, ApplyAll(p, x)) { ApplyAllJoin(p, q, x); }
  }

  method Product(lhs: Permutation, rhs: Permutation) returns (r: Permutation)
    requires lhs.Valid() && rhs.Valid() && lhs.d == rhs.d
    ensures fresh(r) && r.Valid() && r.d == lhs.d && IsProduct(lhs.d, lhs.loops, rhs.loops, r.loops)
  {
    r := new Permutation.Copy(lhs.d, lhs.loops);
    r.Rmul(rhs);
  }

  method Invert(lhs: Permutation) returns (r: Permutation)
    requires lhs.Valid()
    ensures fresh(r) && r.Valid() && r.d == lhs.d && NonEmpty(lhs.loops) && r.loops == InvertAll(lhs.loops)
  {
    r := new Permutation.Copy(lhs.d, lhs.loops);
    r.Inverse();
  }

  /** `product(P, invert(P))` is stored exactly like `Permutation()`. */
  method ProductWithInvert(p: Permutation) returns (r: Permutation)
    requires p.Valid()
    ensures r.Valid() && r.loops == Perms.Identity(p.d, p.d.fin)
  {
    var inv := Invert(p);
    r := Product(p, inv);
    ProductWithInverse(p.d, p.loops, r.loops);
  }

  // ----- orbits -----

  ghost predicate Generators(d: Domain, gens: seq<seq<Loop>>) {
    forall g <- gens :: Canonical(d, g)
  }

  ghost predicate Closed(gens: seq<seq<Loop>>, s: set<int>) {
    forall x, g | x in s && g in gens :: ApplyAll(g, x) in s
  }

  /** The least set with `num` in it that every generator maps into itself. */
  ghost predicate IsOrbit(num: int, gens: seq<seq<Loop>>, orbit: set<int>) {
    && num in orbit && Closed(gens, orbit)
    && forall s: set<int> | num in s && Closed(gens, s) :: orbit <= s
  }

  /** Every closed set around `num` contains `s`. */
  ghost predicate Within(num: int, gens: seq<seq<Loop>>, s: set<int>) {
    forall c: set<int> | num in c && Closed(gens, c) :: s <= c
  }

  /** The images of `done` under all generators are in `s`. */
  ghost predicate Covered(gens: seq<seq<Loop>>, done: set<int>, s: set<int>) {
    forall x, g | x in done && g in gens :: ApplyAll(g, x) in s
  }

  lemma HasSome(s: set<int>)
    requires s != {}
    ensures exists x :: x in s
  {
    if forall x :: x !in s { NothingIn(s); }
  }

  lemma NothingIn(s: set<int>)
    requires forall x :: x !in s
    ensures s == {}
  {
    assert forall x :: x in s <==> x in {};
  }

  method Orbit(d: Domain, num: int, gens: seq<seq<Loop>>) returns (orbit: set<int>)
    requires d.Valid() && d.Has(num) && Generators(d, gens)
    ensures IsOrbit(num, gens, orbit) && forall x <- orbit :: d.Has(x)
  {
    hide Covered, Within, Generators;
    orbit := {};
    var next := {num};
    StartCovered(num, gens);
    while next != {}
      invariant next !! orbit && num in orbit + next
      invariant forall x <- orbit + next :: d.Has(x)
      invariant Covered(gens, orbit, orbit + next) && Within(num, gens, orbit + next)
      decreases Interval(d.start, d.fin) - orbit
    {
      ghost var before := orbit;
      orbit := orbit + next;
      var tmp := Images(d, num, gens, next, orbit);
      CoveredJoin(gens, before, next, orbit, orbit + tmp);
      HasSome(next);
      var x :| x in next;
      assert x in Interval(d.start, d.fin) - before;
      next := tmp;
    }
    assert orbit + next == orbit;
    OrbitFound(num, gens, orbit);
  }

  /** One round: where the generators send the elements of `next`, as far as it is new. */
  method Images(
      d: Domain, ghost num: int, gens: seq<seq<Loop>>, next: set<int>, orbit: set<int>)
    returns (tmp: set<int>)
    requires Generators(d, gens) && next <= orbit && (forall x <- orbit :: d.Has(x))
    requires Within(num, gens, orbit)
    ensures tmp !! orbit && (forall x <- tmp :: d.Has(x))
    ensures Covered(gens, next, orbit + tmp) && Within(num, gens, orbit + tmp)
  {
    hide Covered, Within, Generators;
    tmp := {};
    var rest := next;
    NothingCovered(gens, orbit);
    assert next - rest == {} && orbit + tmp == orbit;
    while rest != {}
      invariant rest <= next && tmp !! orbit
      invariant forall x <- tmp :: d.Has(x)
      invariant Covered(gens, next - rest, orbit + tmp) && Within(num, gens, orbit + tmp)
      decreases rest
    {
      HasSome(rest);
      var elem :| elem in rest;
      ghost var before := tmp;
      tmp := ImagesOfOne(d, num, gens, elem, orbit, tmp);
      CoveredJoin(gens, next - rest, {elem}, orbit + before, orbit + tmp);
      assert next - (rest - {elem}) == next - rest + {elem};
      rest := rest - {elem};
    }
    assert next - rest == next;
  }

  /** All generators on one element of the round. */
  method ImagesOfOne(d: Domain, ghost num: int, gens: seq<seq<Loop>>, elem: int, orbit: set<int>, tmp0: set<int>)
    returns (tmp: set<int>)
    requires Generators(d, gens) && elem in orbit && d.Has(elem) && tmp0 !! orbit
    requires (forall x <- tmp0 :: d.Has(x)) && Within(num, gens, orbit + tmp0)
    ensures tmp0 <= tmp && tmp !! orbit && (forall x <- tmp :: d.Has(x))
    ensures Covered(gens, {elem}, orbit + tmp) && Within(num, gens, orbit + tmp)
  {
    hide Covered, Within, Generators;
    tmp := tmp0;
    var i := 0;
    while i < |gens|
      invariant i <= |gens| && tmp0 <= tmp && tmp !! orbit
      invariant forall x <- tmp :: d.Has(x)
      invariant forall j | 0 <= j < i :: ApplyAll(gens[j], elem) in orbit + tmp
      invariant Within(num, gens, orbit + tmp)
    {
      GeneratorAt(d, gens, i);
      ActionHas(d, gens[i], elem);
      var newElem := ApplyAll(gens[i], elem);
      if newElem !in orbit {
        WithinImage(num, gens, orbit + tmp, elem, i);
        assert orbit + tmp + {newElem} == orbit + (tmp + {newElem});
        tmp := tmp + {newElem};
      }
      i := i + 1;
    }
    CoveredOne(gens, elem, orbit + tmp);
  }

  // ----- orbits with representatives -----

  /** What a word of generator numbers does, the first letter first. */
  function WordAct(gens: seq<seq<Loop>>, word: seq<nat>, x: int): int
    requires forall i | 0 <= i < |word| :: word[i] < |gens|
  {
    if word == [] then x
    else
      ApplyAll(gens[word[|word| - 1]], WordAct(gens, word[..|word| - 1], x))
  }

  /** The permutation is, in canonical form, a product of generators. */
  ghost predicate Generated(d: Domain, gens: seq<seq<Loop>>, p: seq<Loop>) {
    Canonical(d, p) && exists word: seq<nat> :: Spells(d, gens, word, p)
  }

  ghost predicate Spells(d: Domain, gens: seq<seq<Loop>>, word: seq<nat>, p: seq<Loop>) {
    (forall i | 0 <= i < |word| :: word[i] < |gens|) && forall x | d.Has(x) :: ApplyAll(p, x) == WordAct(gens, word, x)
  }

  /** A representative takes `num` to its key. */
  ghost predicate Represents(d: Domain, num: int, gens: seq<seq<Loop>>, key: int, p: seq<Loop>) {
    Generated(d, gens, p) && d.Has(key) && ApplyAll(p, num) == key
  }

  lemma OneMoreLetter(d: Domain, num: int, gens: seq<seq<Loop>>, key: int, p: seq<Loop>, i: nat, r: seq<Loop>)
    requires d.Has(num) && Generators(d, gens) && i < |gens|
    requires Represents(d, num, gens, key, p) && IsProduct(d, p, gens[i], r)
    ensures Represents(d, num, gens, ApplyAll(gens[i], key), r)
  {
    hide Spells, Canonical, IsProduct, ApplyAll;
    var word: seq<nat> :| Spells(d, gens, word, p);
    GeneratorAt(d, gens, i);
    ActionHas(d, gens[i], key);
    ProductAt(d, p, gens[i], r, num);
    LongerWord(d, gens, word, p, i, r);
    assert Spells(d, gens, word + [i], r);
  }

  lemma ProductAt(d: Domain, p: seq<Loop>, q: seq<Loop>, r: seq<Loop>, x: int)
    requires IsProduct(d, p, q, r) && d.Has(x)
    ensures Canonical(d, r) && ApplyAll(r, x) == ApplyAll(q, ApplyAll(p, x))
  {
  }

  lemma LongerWord(d: Domain, gens: seq<seq<Loop>>, word: seq<nat>, p: seq<Loop>, i: nat, r: seq<Loop>)
    requires i < |gens| && Spells(d, gens, word, p) && IsProduct(d, p, gens[i], r)
    ensures Spells(d, gens, word + [i], r)
  {
    hide ApplyAll, Canonical;
    var longer := word + [i];
    assert longer[..|longer| - 1] == word;
  }

  lemma NoLetters(d: Domain, num: int, gens: seq<seq<Loop>>)
    requires d.Valid() && d.Has(num)
    ensures Represents(d, num, gens, num, Perms.Identity(d, d.fin))
  {
    hide Canonical, ApplyAll, Identity;
    IdentityCanonical(d);
    assert Spells(d, gens, [], Perms.Identity(d, d.fin));
  }

  method OrbitReps(d: Domain, num: int, gens: seq<seq<Loop>>) returns (orbit: map<int, seq<Loop>>)
    requires d.Valid() && d.Has(num) && Generators(d, gens)
    ensures IsOrbit(num, gens, orbit.Keys) && AllRepresent(d, num, gens, orbit)
  {
    hide Represents, AllRepresent, Covered, Within, Generators, Identity, Canonical, Interval, IsOrbit, CheckPasses;
    var id := new Permutation.Identity(d);
    NoLetters(d, num, gens);
    orbit := map[];
    var next := map[num := id.loops];
    StartReps(d, num, gens, id.loops);
    StartCovered(num, gens);
    assert orbit.Keys == {} && orbit.Keys + next.Keys == {} + {num};
    while next.Keys != {}
      invariant next.Keys !! orbit.Keys && num in orbit.Keys + next.Keys
      invariant AllRepresent(d, num, gens, orbit) && AllRepresent(d, num, gens, next)
      invariant Covered(gens, orbit.Keys, orbit.Keys + next.Keys) && Within(num, gens, orbit.Keys + next.Keys)
      decreases Interval(d.start, d.fin) - orbit.Keys
    {
      ghost var before := orbit.Keys;
      JoinReps(d, num, gens, next, orbit);
      orbit := next + orbit;
      assert orbit.Keys == before + next.Keys;
      var tmp := ImageReps(d, num, gens, next, orbit);
      CoveredJoin(gens, before, next.Keys, orbit.Keys, orbit.Keys + tmp.Keys);
      SomethingNew(d, num, gens, next, before);
      next := tmp;
    }
    assert orbit.Keys + next.Keys == orbit.Keys;
    OrbitFound(num, gens, orbit.Keys);
  }

  lemma StartReps(d: Domain, num: int, gens: seq<seq<Loop>>, p: seq<Loop>)
    requires Represents(d, num, gens, num, p)
    ensures AllRepresent(d, num, gens, map[]) && AllRepresent(d, num, gens, map[num := p])
  {
    hide Represents;
  }

  lemma JoinReps(d: Domain, num: int, gens: seq<seq<Loop>>, a: map<int, seq<Loop>>, b: map<int, seq<Loop>>)
    requires AllRepresent(d, num, gens, a) && AllRepresent(d, num, gens, b)
    ensures AllRepresent(d, num, gens, a + b)
  {
    hide Represents;
  }

  /** A round that is not empty makes the orbit grow inside the domain. */
  lemma SomethingNew(d: Domain, num: int, gens: seq<seq<Loop>>, next: map<int, seq<Loop>>, before: set<int>)
    requires d.Valid() && AllRepresent(d, num, gens, next) && next.Keys != {} && next.Keys !! before
    ensures Interval(d.start, d.fin) - (before + next.Keys) < Interval(d.start, d.fin) - before
  {
    hide Represents, Interval;
    HasSome(next.Keys);
    var x :| x in next.Keys;
    RepresentsHas(d, num, gens, x, next[x]);
    var all := Interval(d.start, d.fin);
    assert x in all - before && x !in all - (before + next.Keys);
  }

  ghost predicate AllRepresent(d: Domain, num: int, gens: seq<seq<Loop>>, m: map<int, seq<Loop>>) {
    forall k <- m.Keys :: Represents(d, num, gens, k, m[k])
  }

  lemma StartCovered(num: int, gens: seq<seq<Loop>>)
    ensures Covered(gens, {}, {} + {num}) && Within(num, gens, {} + {num})
  {
  }

  lemma CoveredJoin(gens: seq<seq<Loop>>, a: set<int>, b: set<int>, s: set<int>, t: set<int>)
    requires Covered(gens, a, s) && Covered(gens, b, t) && s <= t
    ensures Covered(gens, a + b, t)
  {
  }

  lemma RepresentsHas(d: Domain, num: int, gens: seq<seq<Loop>>, key: int, p: seq<Loop>)
    requires Represents(d, num, gens, key, p)
    ensures d.Has(key) && Canonical(d, p)
  {
  }

  lemma OrbitFound(num: int, gens: seq<seq<Loop>>, orbit: set<int>)
    requires num in orbit && Covered(gens, orbit, orbit) && Within(num, gens, orbit)
    ensures IsOrbit(num, gens, orbit)
  {
  }

  /** One round; the first representative found for a new element is kept. */
  method ImageReps(d: Domain, num: int, gens: seq<seq<Loop>>, next: map<int, seq<Loop>>, orbit: map<int, seq<Loop>>)
    returns (tmp: map<int, seq<Loop>>)
    requires d.Valid() && d.Has(num) && Generators(d, gens)
    requires next.Keys <= orbit.Keys && Within(num, gens, orbit.Keys) && AllRepresent(d, num, gens, next)
    ensures tmp.Keys !! orbit.Keys && AllRepresent(d, num, gens, tmp)
    ensures Covered(gens, next.Keys, orbit.Keys + tmp.Keys) && Within(num, gens, orbit.Keys + tmp.Keys)
  {
    hide Represents, Covered, Within, Generators;
    tmp := map[];
    var rest := next.Keys;
    NothingCovered(gens, orbit.Keys);
    assert next.Keys - rest == {} && orbit.Keys + tmp.Keys == orbit.Keys;
    while rest != {}
      invariant rest <= next.Keys && tmp.Keys !! orbit.Keys && AllRepresent(d, num, gens, tmp)
      invariant Covered(gens, next.Keys - rest, orbit.Keys + tmp.Keys) && Within(num, gens, orbit.Keys + tmp.Keys)
      decreases rest
    {
      HasSome(rest);
      var elem :| elem in rest;
      ghost var before := tmp.Keys;
      tmp := RepsOfOne(d, num, gens, elem, next[elem], orbit, tmp);
      CoveredJoin(gens, next.Keys - rest, {elem}, orbit.Keys + before, orbit.Keys + tmp.Keys);
      assert next.Keys - (rest - {elem}) == next.Keys - rest + {elem};
      rest := rest - {elem};
    }
    assert next.Keys - rest == next.Keys;
  }

  lemma NothingCovered(gens: seq<seq<Loop>>, s: set<int>)
    ensures Covered(gens, {}, s)
  {
  }

  /** All generators on one element of the round. */
  method RepsOfOne(
      d: Domain, num: int, gens: seq<seq<Loop>>, elem: int, cur: seq<Loop>, orbit: map<int, seq<Loop>>,
      tmp0: map<int, seq<Loop>>)
    returns (tmp: map<int, seq<Loop>>)
    requires d.Valid() && d.Has(num) && Generators(d, gens)
    requires elem in orbit && Represents(d, num, gens, elem, cur)
    requires tmp0.Keys !! orbit.Keys && AllRepresent(d, num, gens, tmp0) && Within(num, gens, orbit.Keys + tmp0.Keys)
    ensures tmp0.Keys <= tmp.Keys && tmp.Keys !! orbit.Keys && AllRepresent(d, num, gens, tmp)
    ensures Covered(gens, {elem}, orbit.Keys + tmp.Keys) && Within(num, gens, orbit.Keys + tmp.Keys)
  {
    hide Represents, Covered, Within, Generators, IsProduct, Canonical, CheckPasses;
    tmp := tmp0;
    var i := 0;
    while i < |gens|
      invariant i <= |gens| && tmp0.Keys <= tmp.Keys && tmp.Keys !! orbit.Keys && AllRepresent(d, num, gens, tmp)
      invariant forall j | 0 <= j < i :: ApplyAll(gens[j], elem) in orbit.Keys + tmp.Keys
      invariant Within(num, gens, orbit.Keys + tmp.Keys)
    {
      GeneratorAt(d, gens, i);
      RepresentsHas(d, num, gens, elem, cur);
      var gen := new Permutation.Copy(d, gens[i]);
      var newElem := gen.ApplyTo(elem);
      if newElem !in orbit {
        var p := new Permutation.Copy(d, cur);
        p.Rmul(gen);
        OneMoreLetter(d, num, gens, elem, cur, i, p.loops);
        if newElem !in tmp {
          WithinImage(num, gens, orbit.Keys + tmp.Keys, elem, i);
          assert orbit.Keys + tmp.Keys + {newElem} == orbit.Keys + (tmp.Keys + {newElem});
          ghost var before := tmp.Keys;
          tmp := tmp[newElem := p.loops];
          assert tmp.Keys == before + {newElem};
        }
      }
      i := i + 1;
    }
    CoveredOne(gens, elem, orbit.Keys + tmp.Keys);
  }

  lemma GeneratorAt(d: Domain, gens: seq<seq<Loop>>, i: nat)
    requires Generators(d, gens) && i < |gens|
    ensures Canonical(d, gens[i])
  {
    assert gens[i] in gens;
  }

  lemma WithinImage(num: int, gens: seq<seq<Loop>>, s: set<int>, elem: int, i: nat)
    requires Within(num, gens, s) && elem in s && i < |gens|
    ensures Within(num, gens, s + {ApplyAll(gens[i], elem)})
  {
    assert gens[i] in gens;
  }

  lemma CoveredOne(gens: seq<seq<Loop>>, elem: int, s: set<int>)
    requires forall j | 0 <= j < |gens| :: ApplyAll(gens[j], elem) in s
    ensures Covered(gens, {elem}, s)
  {
    forall x, g | x in {elem} && g in gens ensures ApplyAll(g, x) in s {
      var j :| 0 <= j < |gens| && gens[j] == g;
    }
  }
}
