/** The three grammars for lists of equations between signed sums, and what each of them prints. */
module SumGrammars {

  datatype Token = EQUAL | MINUS | PLUS | SCOLON | NUMBER(value: int)
  datatype Sign = Add | Sub

  function SignToken(g: Sign): Token {
    match g
    case Add => PLUS
    case Sub => MINUS
  }

  function Signed(g: Sign, n: int): int {
    match g
    case Add => n
    case Sub => -n
  }

  /** One line of output: both sides and whether they are equal. */
  datatype Line = Line(left: int, right: int, same: bool)

  // ----- right-recursive sums -----

  datatype Arith = Next(g: Sign, n: int, rest: Arith) | End
  datatype RightSum = RightSum(n: int, rest: Arith)

  function YieldArith(a: Arith): seq<Token> {
    match a
    case Next(g, n, rest) => [SignToken(g), NUMBER(n)] + YieldArith(rest)
    case End => []
  }

  function ValArith(a: Arith): int {
    match a
    case Next(g, n, rest) => Signed(g, n) + ValArith(rest)
    case End => 0
  }

  function YieldRight(e: RightSum): seq<Token> {
    [NUMBER(e.n)] + YieldArith(e.rest)
  }

  function ValRight(e: RightSum): int {
    e.n + ValArith(e.rest)
  }

  // ----- left-recursive sums, by value and as vectors -----

  datatype LeftSum = More(e: LeftSum, g: Sign, n: int) | Only(n: int)

  function YieldLeft(e: LeftSum): seq<Token> {
    match e
    case More(e1, g, n) => YieldLeft(e1) + [SignToken(g), NUMBER(n)]
    case Only(n) => [NUMBER(n)]
  }

  function ValLeft(e: LeftSum): int {
    match e
    case More(e1, g, n) => ValLeft(e1) + Signed(g, n)
    case Only(n) => n
  }

  /** The vector that the actions of the third grammar collect. */
  function VectorOf(e: LeftSum): seq<int> {
    match e
    case More(e1, g, n) => VectorOf(e1) + [Signed(g, n)]
    case Only(n) => [n]
  }

  function Sum(v: seq<int>): int {
    if v == [] then 0 else Sum(v[..|v| - 1]) + v[|v| - 1]
  }

  lemma {:induction false} VectorSum(e: LeftSum)
    ensures Sum(VectorOf(e)) == ValLeft(e)
  {
    match e
    case More(e1, g, n) =>
      VectorSum(e1);
      assert VectorOf(e)[..|VectorOf(e)| - 1] == VectorOf(e1);
    case Only(n) =>
      assert VectorOf(e)[..0] == [];
  }

  // ----- from one kind of sum to the other -----

  function ToRight(e: LeftSum, rest: Arith): RightSum {
    match e
    case More(e1, g, n) => ToRight(e1, Next(g, n, rest))
    case Only(n) => RightSum(n, rest)
  }

  function ToLeft(before: LeftSum, a: Arith): LeftSum
    decreases a
  {
    match a
    case Next(g, n, rest) => ToLeft(More(before, g, n), rest)
    case End => before
  }

  lemma {:induction false} ToRightKeeps(e: LeftSum, rest: Arith)
    ensures YieldRight(ToRight(e, rest)) == YieldLeft(e) + YieldArith(rest)
    ensures ValRight(ToRight(e, rest)) == ValLeft(e) + ValArith(rest)
    decreases e
  {
    match e
    case More(e1, g, n) =>
      ToRightKeeps(e1, Next(g, n, rest));
      assert YieldLeft(e1) + ([SignToken(g), NUMBER(n)] + YieldArith(rest)) == YieldLeft(e) + YieldArith(rest);
    case Only(n) =>
  }

  lemma {:induction false} ToLeftKeeps(before: LeftSum, a: Arith)
    ensures YieldLeft(ToLeft(before, a)) == YieldLeft(before) + YieldArith(a)
    ensures ValLeft(ToLeft(before, a)) == ValLeft(before) + ValArith(a)
    decreases a
  {
    match a
    case Next(g, n, rest) =>
      ToLeftKeeps(More(before, g, n), rest);
      assert YieldLeft(before) + [SignToken(g), NUMBER(n)] + YieldArith(rest) == YieldLeft(before) + YieldArith(a);
    case End =>
  }

  // ----- programs -----

  /** Programs of the first two grammars: any number of equations, each printed when it is complete. */
  datatype Program<T> = Equation(left: T, right: T, rest: Program<T>) | Done

  function YieldRightProgram(p: Program<RightSum>): seq<Token> {
    match p
    case Equation(l, r, rest) => YieldRight(l) + [EQUAL] + YieldRight(r) + [SCOLON] + YieldRightProgram(rest)
    case Done => []
  }

  function YieldLeftProgram(p: Program<LeftSum>): seq<Token> {
    match p
    case Equation(l, r, rest) => YieldLeft(l) + [EQUAL] + YieldLeft(r) + [SCOLON] + YieldLeftProgram(rest)
    case Done => []
  }

  function Checked(l: int, r: int): Line {
    Line(l, r, l == r)
  }

  function PrintRight(p: Program<RightSum>): seq<Line> {
    match p
    case Equation(l, r, rest) => [Checked(ValRight(l), ValRight(r))] + PrintRight(rest)
    case Done => []
  }

  function PrintLeft(p: Program<LeftSum>): seq<Line> {
    match p
    case Equation(l, r, rest) => [Checked(ValLeft(l), ValLeft(r))] + PrintLeft(rest)
    case Done => []
  }

  // ----- the third grammar -----

  type Sides = (seq<int>, seq<int>)

  /** Its equation lists are not empty. */
  datatype EqList = EqMore(left: LeftSum, right: LeftSum, rest: EqList) | EqLast(left: LeftSum, right: LeftSum)

  function YieldEqs(p: EqList): seq<Token> {
    match p
    case EqMore(l, r, rest) => YieldLeft(l) + [EQUAL] + YieldLeft(r) + [SCOLON] + YieldEqs(rest)
    case EqLast(l, r) => YieldLeft(l) + [EQUAL] + YieldLeft(r) + [SCOLON]
  }

  /** What the actions build: the equations last to first. */
  function Collected(p: EqList): seq<Sides> {
    match p
    case EqMore(l, r, rest) => Collected(rest) + [(VectorOf(l), VectorOf(r))]
    case EqLast(l, r) => [(VectorOf(l), VectorOf(r))]
  }

  function Reverse<T>(s: seq<T>): seq<T> {
    if s == [] then [] else [s[|s| - 1]] + Reverse(s[..|s| - 1])
  }

  function Lines(v: seq<Sides>): seq<Line> {
    if v == [] then []
    else Lines(v[..|v| - 1]) + [Checked(Sum(v[|v| - 1].0), Sum(v[|v| - 1].1))]
  }

  class NumDriver {
    var vvv: seq<Sides>

    constructor ()
      ensures vvv == []
    {
      vvv := [];
    }

    /** `insert`: the collected equations the other way round. */
    method Insert(v: seq<Sides>)
      modifies this
      ensures vvv == Reverse(v)
    {
      vvv := [];
      var i := |v|;
      assert v[..i] == v;
      while i > 0
        invariant 0 <= i <= |v| && vvv + Reverse(v[..i]) == Reverse(v)
      {
        assert v[..i][..i - 1] == v[..i - 1];
        i := i - 1;
        vvv := vvv + [v[i]];
      }
    }

    /** `printout`: one line an equation, its sides summed. */
    method Printout() returns (out: seq<Line>)
      ensures out == Lines(vvv)
    {
      out := [];
      for i := 0 to |vvv|
        invariant out == Lines(vvv[..i])
      {
        assert vvv[..i + 1][..i] == vvv[..i];
        var sumleft := Accumulate(vvv[i].0);
        var sumright := Accumulate(vvv[i].1);
        out := out + [Checked(sumleft, sumright)];
      }
      assert vvv[..|vvv|] == vvv;
    }
  }

  method Accumulate(v: seq<int>) returns (s: int)
    ensures s == Sum(v)
  {
    s := 0;
    for i := 0 to |v|
      invariant s == Sum(v[..i])
    {
      assert v[..i + 1][..i] == v[..i];
      s := s + v[i];
    }
    assert v[..|v|] == v;
  }

  /** The whole third program: parse actions, then insertion, then output. */
  method RunThird(p: EqList) returns (out: seq<Line>)
    ensures out == PrintLeft(AsProgram(p))
  {
    var driver := new NumDriver();
    driver.Insert(Collected(p));
    out := driver.Printout();
    CollectedLines(p);
  }

  function AsProgram(p: EqList): Program<LeftSum> {
    match p
    case EqMore(l, r, rest) => Equation(l, r, AsProgram(rest))
    case EqLast(l, r) => Equation(l, r, Done)
  }

  lemma LinesFirst(x: Sides, v: seq<Sides>)
    ensures Lines([x] + v) == [Checked(Sum(x.0), Sum(x.1))] + Lines(v)
  {
    if v == [] {
      assert [x][..0] == [];
    } else {
      LinesFirst(x, v[..|v| - 1]);
      assert ([x] + v)[..|v|] == [x] + v[..|v| - 1];
    }
  }

  /** Collecting in reverse and reversing gives the lines in source order. */
  lemma {:induction false} CollectedLines(p: EqList)
    ensures Lines(Reverse(Collected(p))) == PrintLeft(AsProgram(p))
  {
    VectorSum(p.left);
    VectorSum(p.right);
    var x := (VectorOf(p.left), VectorOf(p.right));
    match p
    case EqMore(l, r, rest) =>
      CollectedLines(rest);
      assert Collected(p)[..|Collected(rest)|] == Collected(rest);
      LinesFirst(x, Reverse(Collected(rest)));
    case EqLast(l, r) =>
      assert Collected(p)[..0] == [] && Reverse(Collected(p)) == [x];
      LinesFirst(x, []);
  }

  // ----- the same output -----

  function RightProgram(p: Program<LeftSum>): Program<RightSum> {
    match p
    case Equation(l, r, rest) => Equation(ToRight(l, End), ToRight(r, End), RightProgram(rest))
    case Done => Done
  }

  function LeftProgram(p: Program<RightSum>): Program<LeftSum> {
    match p
    case Equation(l, r, rest) => Equation(ToLeft(Only(l.n), l.rest), ToLeft(Only(r.n), r.rest), LeftProgram(rest))
    case Done => Done
  }

  lemma {:induction false} RightProgramKeeps(p: Program<LeftSum>)
    ensures YieldRightProgram(RightProgram(p)) == YieldLeftProgram(p) && PrintRight(RightProgram(p)) == PrintLeft(p)
  {
    if p.Equation? {
      RightProgramKeeps(p.rest);
      ToRightKeeps(p.left, End);
      ToRightKeeps(p.right, End);
    }
  }

  lemma {:induction false} LeftProgramKeeps(p: Program<RightSum>)
    ensures YieldLeftProgram(LeftProgram(p)) == YieldRightProgram(p) && PrintLeft(LeftProgram(p)) == PrintRight(p)
  {
    if p.Equation? {
      LeftProgramKeeps(p.rest);
      ToLeftKeeps(Only(p.left.n), p.left.rest);
      ToLeftKeeps(Only(p.right.n), p.right.rest);
    }
  }

  function AsEqList(p: Program<LeftSum>): EqList
    requires p.Equation?
  {
    if p.rest.Equation? then EqMore(p.left, p.right, AsEqList(p.rest)) else EqLast(p.left, p.right)
  }

  lemma {:induction false} AsEqListKeeps(p: Program<LeftSum>)
    requires p.Equation?
    ensures AsProgram(AsEqList(p)) == p
  {
    if p.rest.Equation? { AsEqListKeeps(p.rest); }
  }

  lemma {:induction false} AsProgramKeeps(p: EqList)
    ensures YieldLeftProgram(AsProgram(p)) == YieldEqs(p) && YieldEqs(p) != []
  {
    if p.EqMore? { AsProgramKeeps(p.rest); }
  }

  ghost predicate FirstPrints(s: seq<Token>, out: seq<Line>) {
    exists p :: YieldRightProgram(p) == s && PrintRight(p) == out
  }

  ghost predicate SecondPrints(s: seq<Token>, out: seq<Line>) {
    exists p :: YieldLeftProgram(p) == s && PrintLeft(p) == out
  }

  ghost predicate ThirdPrints(s: seq<Token>, out: seq<Line>) {
    exists p :: YieldEqs(p) == s && Lines(Reverse(Collected(p))) == out
  }

  /** All three accept the same nonempty programs and print the same comparisons in source order; the
      empty program is accepted by the first two only. */
  lemma SameOutput(s: seq<Token>, out: seq<Line>)
    ensures FirstPrints(s, out) <==> SecondPrints(s, out)
    ensures ThirdPrints(s, out) <==> s != [] && SecondPrints(s, out)
  {
    if FirstPrints(s, out) {
      var p :| YieldRightProgram(p) == s && PrintRight(p) == out;
      LeftProgramKeeps(p);
    }
    if SecondPrints(s, out) {
      var p :| YieldLeftProgram(p) == s && PrintLeft(p) == out;
      RightProgramKeeps(p);
      if s != [] {
        AsEqListKeeps(p);
        AsProgramKeeps(AsEqList(p));
        CollectedLines(AsEqList(p));
      }
    }
    if ThirdPrints(s, out) {
      var p :| YieldEqs(p) == s && Lines(Reverse(Collected(p))) == out;
      AsProgramKeeps(p);
      CollectedLines(p);
    }
  }

  // ----- the output, read off the tokens -----

  /** The total of the numbers at the start or behind a plus. */
  function Added(s: seq<Token>): int {
    if s == [] then 0
    else Added(s[..|s| - 1]) + if s[|s| - 1].NUMBER? && (|s| == 1 || s[|s| - 2] == PLUS) then s[|s| - 1].value else 0
  }

  /** The total of the numbers behind a minus. */
  function Taken(s: seq<Token>): int {
    if s == [] then 0
    else Taken(s[..|s| - 1]) + if s[|s| - 1].NUMBER? && |s| > 1 && s[|s| - 2] == MINUS then s[|s| - 1].value else 0
  }

  lemma TwoMore(s: seq<Token>, t: Token, n: int)
    requires t == PLUS || t == MINUS
    ensures Added(s + [t, NUMBER(n)]) == Added(s) + if t == PLUS then n else 0
    ensures Taken(s + [t, NUMBER(n)]) == Taken(s) + if t == MINUS then n else 0
  {
    var more := s + [t, NUMBER(n)];
    assert more[..|more| - 1] == s + [t] && (s + [t])[..|s|] == s;
  }

  predicate SumToken(t: Token) {
    t.PLUS? || t.MINUS? || t.NUMBER?
  }

  /** A sum is worth what its tokens say: what is added less what is taken away. */
  lemma {:induction false} LeftWorth(e: LeftSum)
    ensures ValLeft(e) == Added(YieldLeft(e)) - Taken(YieldLeft(e))
    ensures forall t <- YieldLeft(e) :: SumToken(t)
  {
    match e
    case More(e1, g, n) =>
      LeftWorth(e1);
      TwoMore(YieldLeft(e1), SignToken(g), n);
    case Only(n) =>
      assert [NUMBER(n)][..0] == [];
  }

  lemma RightWorth(e: RightSum)
    ensures ValRight(e) == Added(YieldRight(e)) - Taken(YieldRight(e))
  {
    ToLeftKeeps(Only(e.n), e.rest);
    LeftWorth(ToLeft(Only(e.n), e.rest));
  }

  /** The place of the first such token. */
  function Find(s: seq<Token>, t: Token): (i: nat)
    ensures i <= |s| && (i < |s| ==> s[i] == t) && forall j | 0 <= j < i :: s[j] != t
  {
    if s == [] || s[0] == t then 0 else 1 + Find(s[1..], t)
  }

  function Compared(left: seq<Token>, right: seq<Token>): Line {
    var l, r := Added(left) - Taken(left), Added(right) - Taken(right);
    Line(l, r, l == r)
  }

  /** What a program should print: for each equation, up to its semicolon, the worth of both sides of the equality sign
      and whether they are the same. */
  function Printout(s: seq<Token>): seq<Line> {
    var end := Find(s, SCOLON);
    var mid := Find(s[..end], EQUAL);
    if end == |s| || mid == end then [] else
    [Compared(s[..mid], s[mid + 1..end])] + Printout(s[end + 1..])
  }

  /** An equation in front. */
  lemma PrintoutStep(a: seq<Token>, b: seq<Token>, rest: seq<Token>)
    requires (forall t <- a :: SumToken(t)) && forall t <- b :: SumToken(t)
    ensures
      Printout(a + [EQUAL] + b + [SCOLON] + rest) == [Compared(a, b)] + Printout(rest)
  {
    hide Compared, Printout;
    var s := a + [EQUAL] + b + [SCOLON] + rest;
    var n := |a| + 1 + |b|;
    hide Find;
    Slices(a, b, rest);
    FindAt(s, SCOLON, n);
    FindAt(s[..n], EQUAL, |a|);
    PrintoutAt(s, |a|, n);
  }

  lemma PrintoutAt(s: seq<Token>, mid: nat, end: nat)
    requires mid < end < |s| && Find(s, SCOLON) == end && Find(s[..end], EQUAL) == mid
    ensures
      Printout(s) == [Compared(s[..mid], s[mid + 1..end])] + Printout(s[end + 1..])
  {
    hide Compared, Find;
  }

  lemma FindAt(s: seq<Token>, t: Token, n: nat)
    requires n < |s| && s[n] == t && forall j | 0 <= j < n :: s[j] != t
    ensures Find(s, t) == n
  {
  }

  lemma Slices(a: seq<Token>, b: seq<Token>, rest: seq<Token>)
    requires (forall t <- a :: SumToken(t)) && forall t <- b :: SumToken(t)
    ensures
      var s, n := a + [EQUAL] + b + [SCOLON] + rest, |a| + 1 + |b|;
      && |s| > n && s[n] == SCOLON && (forall j | 0 <= j < n :: s[j] != SCOLON)
      && s[..n][|a|] == EQUAL && (forall j | 0 <= j < |a| :: s[..n][j] != EQUAL)
      && s[..|a|] == a && s[|a| + 1..n] == b && s[n + 1..] == rest
  {
    var s, n := a + [EQUAL] + b + [SCOLON] + rest, |a| + 1 + |b|;
    forall j | 0 <= j < n ensures s[j] != SCOLON && (j < |a| ==> s[j] != EQUAL) {
      if j < |a| { assert s[j] == a[j] && a[j] in a; }
      if j > |a| { assert s[j] == b[j - |a| - 1] && b[j - |a| - 1] in b; }
    }
  }

  lemma PrintoutNone()
    ensures Printout([]) == []
  {
  }

  lemma {:induction false} LeftPrintout(p: Program<LeftSum>)
    ensures PrintLeft(p) == Printout(YieldLeftProgram(p))
  {
    hide Added, Taken, Printout, YieldLeft, ValLeft;
    match p
    case Equation(l, r, rest) =>
      LeftWorth(l);
      LeftWorth(r);
      LeftPrintout(rest);
      PrintoutStep(YieldLeft(l), YieldLeft(r), YieldLeftProgram(rest));
    case Done => PrintoutNone();
  }

  /** All three grammars print what the tokens say. */
  lemma PrintsTheTokens(s: seq<Token>, out: seq<Line>)
    ensures FirstPrints(s, out) || SecondPrints(s, out) || ThirdPrints(s, out) ==> out == Printout(s)
  {
    SameOutput(s, out);
    if SecondPrints(s, out) {
      var p :| YieldLeftProgram(p) == s && PrintLeft(p) == out;
      LeftPrintout(p);
    }
  }
}
