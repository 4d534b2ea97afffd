/** Rationals as continued fractions, and the children of a node of the Stern-Brocot tree. */
module SternBrocot {

  datatype Rational = Rational(first: nat, second: nat)

  // ----- the greatest common divisor -----

  function Times(d: nat, k: nat): nat {
    d * k
  }

  ghost predicate Divides(d: nat, n: nat) {
    exists k: nat :: Times(d, k) == n
  }

  ghost predicate Common(d: nat, a: nat, b: nat) {
    Divides(d, a) && Divides(d, b)
  }

  ghost predicate Coprime(a: nat, b: nat) {
    forall d: nat | Common(d, a, b) :: d == 1
  }

  function Gcd(a: nat, b: nat): nat
    decreases b
  {
    if b == 0 then a else Gcd(b, a % b)
  }

  lemma DividesMore(d: nat, u: nat, v: nat, c: nat)
    requires Divides(d, u) && Divides(d, v)
    ensures Divides(d, c * u + v)
  {
    var k: nat, l: nat :| Times(d, k) == u && Times(d, l) == v;
    assert Times(d, c * k + l) == c * u + v;
  }

  lemma DividesLess(d: nat, u: nat, v: nat, c: nat)
    requires Divides(d, u) && Divides(d, c * u + v)
    ensures Divides(d, v)
  {
    var k: nat, l: nat :| Times(d, k) == u && Times(d, l) == c * u + v;
    if d == 0 {
      assert Times(d, 0) == v;
    } else {
      var m := l - c * k;
      assert d * m == v by { assert d * m == d * l - c * (d * k); }
      assert m >= 0;
      assert Times(d, m) == v;
    }
  }

  lemma SameCommon(d: nat, u: nat, v: nat, c: nat)
    ensures Common(d, c * u + v, u) <==> Common(d, u, v)
  {
    if Common(d, c * u + v, u) { DividesLess(d, u, v, c); }
    if Common(d, u, v) { DividesMore(d, u, v, c); }
  }

  /** Gcd divides both numbers, and everything that does divides it. */
  lemma {:induction false} GcdGreatest(a: nat, b: nat)
    ensures Common(Gcd(a, b), a, b)
    ensures forall d: nat | Common(d, a, b) :: Divides(d, Gcd(a, b))
    decreases b
  {
    if b == 0 {
      assert Times(a, 1) == a && Times(a, 0) == 0;
    } else {
      GcdGreatest(b, a % b);
      assert a == (a / b) * b + a % b;
      forall d: nat ensures Common(d, a, b) <==> Common(d, b, a % b) { SameCommon(d, b, a % b, a / b); }
    }
  }

  lemma GcdStep(a: nat, b: nat)
    requires b != 0
    ensures Gcd(a, b) == Gcd(b, a % b) && a % b < b
  {
  }

  lemma GcdSwap(a: nat, b: nat)
    requires a < b
    ensures Gcd(a, b) == Gcd(b, a)
  {
    hide Gcd;
    DivisionUnique(a, b, 0, a);
    GcdStep(a, b);
  }

  lemma GcdZero(a: nat)
    ensures Gcd(a, 0) == a
  {
  }

  /** `gcd`. */
  method ComputeGcd(a0: nat, b0: nat) returns (g: nat)
    ensures g == Gcd(a0, b0)
  {
    hide Gcd;
    var a, b := a0, b0;
    if a < b {
      GcdSwap(a, b);
      a, b := b, a;
    }
    while b != 0
      invariant Gcd(a, b) == Gcd(a0, b0)
      decreases b
    {
      GcdStep(a, b);
      var t := b;
      b := a % b;
      a := t;
    }
    GcdZero(a);
    g := a;
  }

  lemma GcdOfCoprime(a: nat, b: nat)
    ensures Coprime(a, b) <==> Gcd(a, b) == 1
  {
    GcdGreatest(a, b);
    if Gcd(a, b) == 1 {
      forall d: nat | Common(d, a, b) ensures d == 1 { DividesOne(d); }
    }
  }

  lemma DividesOne(d: nat)
    requires Divides(d, 1)
    ensures d == 1
  {
    var k: nat :| Times(d, k) == 1;
    AtLeast(d, k);
  }

  lemma AtLeast(d: nat, k: nat)
    ensures k > 0 ==> d * k >= d
    ensures d * k == 0 <==> d == 0 || k == 0
  {
  }

  // ----- continued fractions -----

  /** The terms of x/y. */
  function Terms(x: nat, y: nat): (cf: seq<nat>)
    requires y != 0
    ensures cf != [] && cf[0] == x / y
    decreases y
  {
    [x / y] + if x % y == 0 then [] else Terms(y, x % y)
  }

  /** The terms in front of a tail t: t is transformed by one fractional linear map after another. */
  function Apply(cf: seq<nat>, t: Rational): Rational {
    if cf == [] then t
    else
      var r := Apply(cf[1..], t);
      Rational(cf[0] * r.first + r.second, r.first)
  }

  /** The number a continued fraction stands for. */
  function Value(cf: seq<nat>): Rational
    requires cf != []
  {
    Apply(cf[..|cf| - 1], Rational(cf[|cf| - 1], 1))
  }

  lemma ValueStep(c: nat, cf: seq<nat>)
    requires cf != []
    ensures var r := Value(cf); Value([c] + cf) == Rational(c * r.first + r.second, r.first)
  {
    var more := [c] + cf;
    assert more[..|more| - 1] == [c] + cf[..|cf| - 1];
    assert more[..|more| - 1][1..] == cf[..|cf| - 1];
  }

  /** Expanding and collapsing gives the number back, divided by the greatest common divisor. */
  lemma {:induction false} ExpandCollapse(x: nat, y: nat)
    requires y != 0
    ensures Gcd(x, y) > 0
    ensures var r := Value(Terms(x, y)); x == Gcd(x, y) * r.first && y == Gcd(x, y) * r.second
    decreases y
  {
    hide Gcd, Value;
    var q, f := x / y, x % y;
    GcdStep(x, y);
    Divided(x, y);
    if f == 0 {
      GcdZero(y);
      ValueOne(q);
      assert Terms(x, y) == [q] && x == y * q;
    } else {
      ExpandCollapse(y, f);
      ValueStep(q, Terms(y, f));
      var r := Value(Terms(y, f));
      Spread(Gcd(y, f), q, r.first, r.second);
    }
  }

  lemma ValueOne(q: nat)
    ensures Value([q]) == Rational(q, 1)
  {
  }

  lemma Spread(g: nat, q: nat, u: nat, v: nat)
    ensures q * (g * u) + g * v == g * (q * u + v)
  {
  }

  lemma {:induction false} ValueCoprime(cf: seq<nat>)
    requires cf != []
    ensures Coprime(Value(cf).first, Value(cf).second)
  {
    if |cf| == 1 {
      assert Value(cf) == Rational(cf[0], 1);
      forall d: nat | Common(d, cf[0], 1) ensures d == 1 { DividesOne(d); }
    } else {
      ValueCoprime(cf[1..]);
      ValueStep(cf[0], cf[1..]);
      assert cf == [cf[0]] + cf[1..];
      var r := Value(cf[1..]);
      var n := cf[0] * r.first + r.second;
      forall d: nat | Common(d, n, r.first) ensures d == 1 {
        SameCommon(d, r.first, r.second, cf[0]);
      }
    }
  }

  /** The terms do not depend on the representation of the fraction. */
  lemma {:induction false} TermsScaled(k: nat, x: nat, y: nat)
    requires k > 0 && y != 0
    ensures k * y != 0 && Terms(k * x, k * y) == Terms(x, y)
    decreases y
  {
    ScaledDivision(k, x, y);
    if x % y != 0 { TermsScaled(k, y, x % y); }
  }

  lemma ScaledDivision(k: nat, x: nat, y: nat)
    requires k > 0 && y != 0
    ensures k * y != 0 && (k * x) / (k * y) == x / y && (k * x) % (k * y) == k * (x % y)
    ensures (k * x) % (k * y) == 0 <==> x % y == 0
  {
    var q, f := x / y, x % y;
    assert k * y > 0;
    assert k * x == q * (k * y) + k * f by { assert x == q * y + f; }
    assert 0 <= k * f < k * y;
    DivisionUnique(k * x, k * y, q, k * f);
  }

  lemma DivisionUnique(n: nat, d: nat, q: nat, r: nat)
    requires n == q * d + r && r < d
    ensures n / d == q && n % d == r
  {
    var q', r' := n / d, n % d;
    Divided(n, d);
    SameQuotient(d, q, r, q', r');
  }

  lemma Divided(n: nat, d: nat)
    requires d > 0
    ensures n == (n / d) * d + n % d && n % d < d
  {
  }

  lemma SameQuotient(d: nat, q: nat, r: nat, q': nat, r': nat)
    requires q * d + r == q' * d + r' && r < d && r' < d
    ensures q == q' && r == r'
  {
    AtLeastInt(d, q - q');
    assert (q - q') * d == r' - r;
  }

  lemma AtLeastInt(d: nat, e: int)
    ensures e > 0 ==> e * d >= d
    ensures e < 0 ==> e * d + d <= 0
  {
  }

  lemma Cancelled(g: nat, n: nat)
    requires g > 0
    ensures g * n / g == n && n <= g * n && (n == 0 <==> g * n == 0)
  {
    var m := g * n;
    DivisionUnique(m, g, n, 0);
    AtLeast(n, g);
    AtLeast(g, n);
  }

  /** Dividing both numbers by their greatest common divisor leaves the terms alone. */
  lemma TermsReduced(x: nat, y: nat)
    requires y != 0
    ensures Gcd(x, y) > 0 && 0 < y / Gcd(x, y) <= y
    ensures Terms(x / Gcd(x, y), y / Gcd(x, y)) == Terms(x, y)
    ensures Rational(x / Gcd(x, y), y / Gcd(x, y)) == Value(Terms(x, y))
  {
    hide Gcd, Value, Terms;
    ExpandCollapse(x, y);
    var r := Value(Terms(x, y));
    Cancelled(Gcd(x, y), r.first);
    Cancelled(Gcd(x, y), r.second);
    TermsScaled(Gcd(x, y), r.first, r.second);
  }

  lemma TermsStep(res: seq<nat>, x: nat, y: nat)
    requires y != 0
    ensures x % y < y
    ensures res + Terms(x, y) == res + [x / y] + if x % y == 0 then [] else Terms(y, x % y)
  {
  }

  /** `to_contfrac`. */
  method ToContfrac(x0: nat, y0: nat) returns (res: seq<nat>)
    requires y0 != 0
    ensures res == Terms(x0, y0)
  {
    hide Gcd, Value, Terms;
    var x, y := x0, y0;
    res := [];
    while true
      invariant y != 0 && res + Terms(x, y) == Terms(x0, y0)
      decreases y
    {
      var i := x / y;
      TermsStep(res, x, y);
      res := res + [i];
      var f := x % y;
      if f == 0 { break; }
      x := y;
      y := f;
      TermsReduced(x, y);
      var cdiv := ComputeGcd(x, y);
      x := x / cdiv;
      y := y / cdiv;
    }
  }

  /** `from_contfrac`. */
  method FromContfrac(cf: seq<nat>) returns (r: Rational)
    requires cf != []
    ensures r == Value(cf)
  {
    hide Gcd;
    var x, y := cf[|cf| - 1], 1;
    var i := |cf| - 1;
    assert cf[i..] == [cf[i]];
    while i > 0
      invariant 0 <= i < |cf| && Rational(x, y) == Value(cf[i..])
    {
      assert cf[i - 1..] == [cf[i - 1]] + cf[i..];
      ValueStep(cf[i - 1], cf[i..]);
      i := i - 1;
      var cur := cf[i];
      x, y := cur * x + y, x;
      ValueCoprime(cf[i..]);
      GcdOfCoprime(x, y);
      var cdiv := ComputeGcd(x, y);
      x := x / cdiv;
      y := y / cdiv;
    }
    assert cf[0..] == cf;
    r := Rational(x, y);
  }

  /** What `to_contfrac` returns: only the first term may be 0, and a last term of 1 stands alone. */
  predicate Canonical(cf: seq<nat>) {
    cf != [] && (forall i | 0 < i < |cf| :: cf[i] > 0) && (|cf| > 1 ==> cf[|cf| - 1] > 1)
  }

  lemma {:induction false} TermsCanonical(x: nat, y: nat)
    requires y != 0
    ensures Canonical(Terms(x, y))
    ensures x > y ==> Terms(x, y)[0] > 0 && (|Terms(x, y)| == 1 ==> Terms(x, y)[0] > 1)
    ensures x > 0 ==> Terms(x, y)[|Terms(x, y)| - 1] > 0
    decreases y
  {
    var q, f := x / y, x % y;
    Divided(x, y);
    if x > y { Quotients(x, y, q, f); }
    if f != 0 {
      TermsCanonical(y, f);
    } else if x > 0 {
      AtLeast(q, y);
    }
  }

  lemma Quotients(x: nat, y: nat, q: nat, f: nat)
    requires x == q * y + f && f < y < x
    ensures q > 0 && (f == 0 ==> q > 1)
  {
    assert q == 0 ==> q * y == 0;
    assert q == 1 ==> q * y == y;
  }

  /** A canonical continued fraction is the expansion of its value. */
  lemma {:induction false} CollapseExpand(cf: seq<nat>)
    requires Canonical(cf)
    ensures Value(cf).second > 0 && Terms(Value(cf).first, Value(cf).second) == cf
    ensures cf[0] > 0 && (|cf| == 1 ==> cf[0] > 1) ==> Value(cf).first > Value(cf).second
  {
    if |cf| == 1 {
      ValueOne(cf[0]);
      DivisionUnique(cf[0], 1, cf[0], 0);
    } else {
      CollapseExpand(cf[1..]);
      ValueStep(cf[0], cf[1..]);
      assert cf == [cf[0]] + cf[1..];
      var r := Value(cf[1..]);
      DivisionUnique(cf[0] * r.first + r.second, r.first, cf[0], r.second);
      AtLeast(r.first, cf[0]);
    }
  }

  // ----- children -----

  function Plus(s: Rational, t: Rational): Rational {
    Rational(s.first + t.first, s.second + t.second)
  }

  /** Positive when s is the larger one. */
  function Cross(s: Rational, t: Rational): int {
    s.first * t.second - t.first * s.second
  }

  /** Each term reverses the order of two tails and keeps their distance. */
  lemma {:induction false} ApplyFlips(cf: seq<nat>, s: Rational, t: Rational)
    ensures Cross(Apply(cf, s), Apply(cf, t)) == if |cf| % 2 == 0 then Cross(s, t) else -Cross(s, t)
  {
    hide Cross;
    if cf != [] {
      ApplyFlips(cf[1..], s, t);
      FlipOnce(cf[0], Apply(cf[1..], s), Apply(cf[1..], t));
    }
  }

  lemma FlipOnce(c: nat, s: Rational, t: Rational)
    ensures Cross(Rational(c * s.first + s.second, s.first), Rational(c * t.first + t.second, t.first)) == -Cross(s, t)
  {
    assert (c * s.first + s.second) * t.first == c * (s.first * t.first) + s.second * t.first;
    assert (c * t.first + t.second) * s.first == c * (s.first * t.first) + t.second * s.first;
  }

  lemma {:induction false} ApplyAdds(cf: seq<nat>, s: Rational, t: Rational)
    ensures Apply(cf, Plus(s, t)) == Plus(Apply(cf, s), Apply(cf, t))
  {
    if cf != [] {
      ApplyAdds(cf[1..], s, t);
      var u, v := Apply(cf[1..], s), Apply(cf[1..], t);
      assert cf[0] * (u.first + v.first) == cf[0] * u.first + cf[0] * v.first;
    }
  }

  lemma {:induction false} ApplyPositive(cf: seq<nat>, t: Rational)
    ensures t.first + t.second > 0 ==> Apply(cf, t).first + Apply(cf, t).second > 0
    ensures t.first > 0 && t.second > 0 ==> Apply(cf, t).first > 0 && Apply(cf, t).second > 0
  {
    if cf != [] { ApplyPositive(cf[1..], t); }
  }

  /** `rational_min`, compared exactly. */
  function RationalMin(x1: Rational, x2: Rational): Rational {
    if Cross(x1, x2) > 0 then x2 else x1
  }

  /** `rational_max`, compared exactly. */
  function RationalMax(x1: Rational, x2: Rational): Rational {
    if Cross(x1, x2) <= 0 then x2 else x1
  }

  /** The two candidates: the last term is raised, or lowered and followed by 2. */
  function Raised(cf: seq<nat>): (r: seq<nat>)
    requires cf != []
    ensures r != []
  {
    cf[..|cf| - 1] + [cf[|cf| - 1] + 1]
  }

  function Lowered(cf: seq<nat>): (r: seq<nat>)
    requires cf != [] && cf[|cf| - 1] > 0
    ensures r != []
  {
    cf[..|cf| - 1] + [cf[|cf| - 1] - 1, 2]
  }

  /** The pair that `childs` computes. */
  function Children(cur: Rational): (c: (Rational, Rational))
    requires cur.first > 0 && cur.second > 0
  {
    TermsCanonical(cur.first, cur.second);
    var cf := Terms(cur.first, cur.second);
    var elt1, elt2 := Value(Raised(cf)), Value(Lowered(cf));
    (RationalMin(elt1, elt2), RationalMax(elt1, elt2))
  }

  /** `childs`. */
  method Childs(cur: Rational) returns (c: (Rational, Rational))
    requires cur.first > 0 && cur.second > 0
    ensures c == Children(cur)
  {
    TermsCanonical(cur.first, cur.second);
    var cf := ToContfrac(cur.first, cur.second);
    var cf2 := cf;
    cf := cf[|cf| - 1 := cf[|cf| - 1] + 1];
    cf2 := cf2[|cf2| - 1 := cf2[|cf2| - 1] - 1];
    cf2 := cf2 + [2];
    assert cf == Raised(Terms(cur.first, cur.second));
    assert cf2 == Lowered(Terms(cur.first, cur.second));
    var elt1 := FromContfrac(cf);
    var elt2 := FromContfrac(cf2);
    c := (RationalMin(elt1, elt2), RationalMax(elt1, elt2));
  }

  lemma RaisedLowered(cf: seq<nat>)
    requires cf != [] && cf[|cf| - 1] > 0
    ensures var a, rest := cf[|cf| - 1], cf[..|cf| - 1];
            && Value(cf) == Apply(rest, Rational(a, 1))
            && Value(Raised(cf)) == Apply(rest, Rational(a + 1, 1))
            && Value(Lowered(cf)) == Apply(rest, Rational(2 * a - 1, 2))
  {
    var a, rest := cf[|cf| - 1], cf[..|cf| - 1];
    assert Raised(cf)[..|cf| - 1] == rest;
    var low := Lowered(cf);
    assert low[..|low| - 1] == rest + [a - 1];
    ApplyLast(rest, a - 1, Rational(2, 1));
  }

  lemma {:induction false} ApplyLast(cf: seq<nat>, c: nat, t: Rational)
    ensures Apply(cf + [c], t) == Apply(cf, Rational(c * t.first + t.second, t.first))
  {
    if cf == [] {
      assert [c][1..] == [];
    } else {
      assert (cf + [c])[1..] == cf[1..] + [c];
      ApplyLast(cf[1..], c, t);
    }
  }

  /** The neighbours of a fraction in lowest terms: unit distances, lowest terms, triple mediant, growth. */
  ghost predicate AreChildren(cur: Rational, left: Rational, right: Rational) {
    && Cross(cur, left) == 1 && Cross(right, cur) == 1
    && Plus(left, right) == Rational(3 * cur.first, 3 * cur.second)
    && Coprime(left.first, left.second) && Coprime(right.first, right.second)
    && left.first > 0 && left.second > 0 && right.first > 0 && right.second > 0
    && left.first + left.second > cur.first + cur.second
    && right.first + right.second > cur.first + cur.second
  }

  /** How the three tails lie: t between t2 and t1, at distance 1 from both. */
  lemma TailsApart(rest: seq<nat>, a: nat)
    requires a > 0
    ensures var e, e1 := Apply(rest, Rational(a, 1)), Apply(rest, Rational(a + 1, 1));
            var e2 := Apply(rest, Rational(2 * a - 1, 2));
            var s := if |rest| % 2 == 0 then 1 else -1;
            && Cross(e, e1) == -s && Cross(e, e2) == s && Cross(e1, e2) == 3 * s
            && Cross(e1, e) == s && Cross(e2, e) == -s
            && Plus(e1, e2) == Plus(e2, e1) == Rational(3 * e.first, 3 * e.second)
  {
    hide Apply;
    var t, t1, t2 := Rational(a, 1), Rational(a + 1, 1), Rational(2 * a - 1, 2);
    ApplyFlips(rest, t, t1);
    ApplyFlips(rest, t, t2);
    ApplyFlips(rest, t1, t2);
    ApplyFlips(rest, t1, t);
    ApplyFlips(rest, t2, t);
    ApplyAdds(rest, t1, t2);
    ApplyAdds(rest, t, t);
    ApplyAdds(rest, Plus(t, t), t);
    assert Plus(t1, t2) == Plus(Plus(t, t), t);
  }

  /** Both of the outer tails are the middle one plus something. */
  lemma TailsGrow(rest: seq<nat>, a: nat)
    requires a > 0
    ensures var e, e1 := Apply(rest, Rational(a, 1)), Apply(rest, Rational(a + 1, 1));
            var e2 := Apply(rest, Rational(2 * a - 1, 2));
            && e1.first + e1.second > e.first + e.second && e2.first + e2.second > e.first + e.second
            && e1.first > 0 && e1.second > 0 && e2.first > 0 && e2.second > 0
  {
    hide Apply;
    var t := Rational(a, 1);
    ApplyAdds(rest, t, Rational(1, 0));
    ApplyAdds(rest, t, Rational(a - 1, 1));
    ApplyPositive(rest, Rational(1, 0));
    ApplyPositive(rest, Rational(a - 1, 1));
    ApplyPositive(rest, Rational(a + 1, 1));
    ApplyPositive(rest, Rational(2 * a - 1, 2));
  }

  /** `childs` of a fraction in lowest terms. */
  lemma ChildrenOk(cur: Rational)
    requires cur.first > 0 && cur.second > 0 && Coprime(cur.first, cur.second)
    ensures AreChildren(cur, Children(cur).0, Children(cur).1)
  {
    hide Terms, Value, Apply, Gcd, Raised, Lowered, Cross, Plus, Coprime;
    var cf := Terms(cur.first, cur.second);
    TermsCanonical(cur.first, cur.second);
    TermsReduced(cur.first, cur.second);
    GcdOfCoprime(cur.first, cur.second);
    assert Value(cf) == cur;
    RaisedLowered(cf);
    TailsApart(cf[..|cf| - 1], cf[|cf| - 1]);
    TailsGrow(cf[..|cf| - 1], cf[|cf| - 1]);
    ValueCoprime(Raised(cf));
    ValueCoprime(Lowered(cf));
  }
}
