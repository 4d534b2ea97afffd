/** When no operator reads input on both sides, the meaning of a program is unique, and the interpreter and the compiled
    program can be held to it. */
module ParaclUnique {
  import opened Base
  import opened ParaclTree
  import opened ParaclSource
  import opened ParaclAgree
  import opened ParaclOrder
  import opened ParaclProgram
  import opened ParaclTheorems
  import opened ParaclMeaning

  /** No `?` in the expression. */
  predicate NoInput(e: Expr) {
    match e
    case Input => false
    case Arith(l, _, r) => NoInput(l) && NoInput(r)
    case Negate(a) => NoInput(a)
    case _ => true
  }

  /** No operator of the expression has `?` on both sides. */
  predicate OneSide(e: Expr) {
    match e
    case Arith(l, _, r) => OneSide(l) && OneSide(r) && (NoInput(l) || NoInput(r))
    case Negate(a) => OneSide(a)
    case _ => true
  }

  predicate LogicOneSide(l: Logic) {
    match l
    case Plain(e) => OneSide(e)
    case Comparison(a, _, b) => OneSide(a) && OneSide(b) && (NoInput(a) || NoInput(b))
    case Either(a, b) => LogicOneSide(a) && LogicOneSide(b)
    case Both(a, b) => LogicOneSide(a) && LogicOneSide(b)
    case Negation(a) => LogicOneSide(a)
  }

  predicate StmOneSide(s: Stm) {
    match s
    case Assignment(_, e) => OneSide(e)
    case Output(e) => OneSide(e)
    case IfStm(c, body) => LogicOneSide(c) && StmOneSide(body)
    case WhileStm(c, body) => LogicOneSide(c) && StmOneSide(body)
    case Block(stms) => forall b <- stms :: StmOneSide(b)
  }

  // ----- expressions -----

  /** The same number and input, or two faults. */
  predicate SameValue(r1: Value, r2: Value) {
    if r1.Got? then r1 == r2 else r2.Stuck?
  }

  predicate SameNumbers(p1: Numbers, p2: Numbers) {
    if p1.Two? then p1 == p2 else p2.Neither?
  }

  /** The same number, from whatever is left of the input, which stays as it is. */
  predicate SameNumber(r1: Value, s1: Stream, r2: Value, s2: Stream) {
    if r1.Got? then r2.Got? && r1.n == r2.n && r1.stream == s1 && r2.stream == s2 else r2.Stuck?
  }

  lemma GivesOnce(op: ArithOp, a: int, b: int, s1: Stream, r1: Value, s2: Stream, r2: Value)
    requires Gives(op, a, b, s1, r1) && Gives(op, a, b, s2, r2)
    ensures SameNumber(r1, s1, r2, s2)
  {
    if b != 0 && (op == Div || op == Mod) {
      var q1, m1 :| Truncates(a, b, q1, m1) &&
        r1 == if InInt(q1, s1).Stuck? then Stuck(Overflow) else Got(if op == Div then q1 else m1, s1);
      var q2, m2 :| Truncates(a, b, q2, m2) &&
        r2 == if InInt(q2, s2).Stuck? then Stuck(Overflow) else Got(if op == Div then q2 else m2, s2);
      DivisionTruncates(a, b, q1, m1);
      DivisionTruncates(a, b, q2, m2);
    }
  }

  lemma {:induction false} PureOnce(
      e: Expr, view: map<string, int>, s1: Stream, r1: Value, s2: Stream, r2: Value)
    requires NoInput(e) && Evaluates(e, view, s1, r1) && Evaluates(e, view, s2, r2)
    ensures SameNumber(r1, s1, r2, s2)
    decreases Size(e), 1
  {
    match e
    case Negate(a) =>
      var v1 :| Evaluates(a, view, s1, v1) && r1 == if v1.Got? then InInt(-v1.n, v1.stream) else v1;
      var v2 :| Evaluates(a, view, s2, v2) && r2 == if v2.Got? then InInt(-v2.n, v2.stream) else v2;
      PureOnce(a, view, s1, v1, s2, v2);
    case Arith(l, op, r) =>
      var d1, p1 := ArithParts(e, view, s1, r1);
      var d2, p2 := ArithParts(e, view, s2, r2);
      hide Gives, Operands;
      if op == Div { PureOnce(r, view, s1, d1, s2, d2); }
      if op != Div || (d1.Got? && d1.n != 0) {
        PureOperands(l, r, view, s1, p1, s2, p2);
        if p1.Two? { GivesOnce(op, p1.a, p1.b, s1, r1, s2, r2); }
      }
    case _ =>
  }

  /** What an arithmetic expression was computed from: the divisor d, if there is one, and both operands p. */
  lemma ArithParts(e: Expr, view: map<string, int>, s: Stream, r: Value) returns (d: Value, p: Numbers)
    requires e.Arith? && Evaluates(e, view, s, r)
    ensures e.op == Div ==> Evaluates(e.r, view, s, d)
    ensures e.op == Div && d.Stuck? ==> r == d
    ensures e.op == Div && d.Got? && d.n == 0 ==> r == Stuck(DivisionByZero)
    ensures e.op != Div || (d.Got? && d.n != 0) ==>
              Operands(e.l, e.r, view, if e.op == Div then d.stream else s, p) && Combines(e.op, p, r)
  {
    hide Gives, Operands, Combines;
    d, p := r, Neither(Malformed);
    if e.op == Div {
      d :| Evaluates(e.r, view, s, d) &&
        if d.Stuck? then r == d
        else if d.n == 0 then r == Stuck(DivisionByZero)
        else exists p :: Operands(e.l, e.r, view, d.stream, p) && Combines(e.op, p, r);
      if d.Got? && d.n != 0 {
        p :| Operands(e.l, e.r, view, d.stream, p) && Combines(e.op, p, r);
      }
    } else {
      p :| Operands(e.l, e.r, view, s, p) && Combines(e.op, p, r);
    }
  }

  /** What two operands were computed from, and in which order. */
  lemma OperandParts(l: Expr, r: Expr, view: map<string, int>, s: Stream, p: Numbers)
    returns (x: Value, y: Value, swapped: bool)
    requires Operands(l, r, view, s, p)
    ensures Evaluates(if swapped then r else l, view, s, x)
    ensures x.Got? ==> Evaluates(if swapped then l else r, view, x.stream, y)
    ensures p == Paired(x, y, swapped)
  {
    hide Evaluates, Paired;
    if a, b :| Evaluates(l, view, s, a) && (a.Got? ==> Evaluates(r, view, a.stream, b)) && p == Paired(a, b, false) {
      x, y, swapped := a, b, false;
    } else {
      x, y :| Evaluates(r, view, s, x) && (x.Got? ==> Evaluates(l, view, x.stream, y)) && p == Paired(x, y, true);
      swapped := true;
    }
  }

  predicate SamePair(p1: Numbers, s1: Stream, p2: Numbers, s2: Stream) {
    if p1.Two? then p2.Two? && p1.a == p2.a && p1.b == p2.b && p1.stream == s1 && p2.stream == s2 else p2.Neither?
  }

  lemma {:induction false} PureOperands(
      l: Expr, r: Expr, view: map<string, int>, s1: Stream, p1: Numbers, s2: Stream, p2: Numbers)
    requires NoInput(l) && NoInput(r) && Operands(l, r, view, s1, p1) && Operands(l, r, view, s2, p2)
    ensures SamePair(p1, s1, p2, s2)
    decreases Size(l) + Size(r), 2
  {
    hide Evaluates, Operands;
    var x1, y1, w1 := OperandParts(l, r, view, s1, p1);
    var x2, y2, w2 := OperandParts(l, r, view, s2, p2);
    var one, other := if w1 then r else l, if w1 then l else r;
    if w1 == w2 {
      PureOnce(one, view, s1, x1, s2, x2);
      if x1.Got? { PureOnce(other, view, x1.stream, y1, x2.stream, y2); }
    } else {
      if x2.Got? { PureOnce(one, view, s1, x1, x2.stream, y2); }
      if x1.Got? { PureOnce(other, view, x1.stream, y1, s2, x2); }
      PureOnce(one, view, s1, x1, s1, x1);
      PureOnce(other, view, s2, x2, s2, x2);
    }
  }

  lemma {:induction false} ExprOnce(e: Expr, view: map<string, int>, s: Stream, r1: Value, r2: Value)
    requires OneSide(e) && Evaluates(e, view, s, r1) && Evaluates(e, view, s, r2)
    ensures SameValue(r1, r2)
    decreases Size(e), 1
  {
    match e
    case Negate(a) =>
      var v1 :| Evaluates(a, view, s, v1) && r1 == if v1.Got? then InInt(-v1.n, v1.stream) else v1;
      var v2 :| Evaluates(a, view, s, v2) && r2 == if v2.Got? then InInt(-v2.n, v2.stream) else v2;
      ExprOnce(a, view, s, v1, v2);
    case Arith(l, op, r) =>
      var d1, p1 := ArithParts(e, view, s, r1);
      var d2, p2 := ArithParts(e, view, s, r2);
      hide Gives, Operands;
      if op == Div { ExprOnce(r, view, s, d1, d2); }
      if op != Div || (d1.Got? && d1.n != 0) {
        OperandsOnce(l, r, view, if op == Div then d1.stream else s, p1, p2);
        if p1.Two? { GivesOnce(op, p1.a, p1.b, p1.stream, r1, p1.stream, r2); }
      }
    case _ =>
  }

  lemma {:induction false} OperandsOnce(l: Expr, r: Expr, view: map<string, int>, s: Stream, p1: Numbers, p2: Numbers)
    requires OneSide(l) && OneSide(r) && (NoInput(l) || NoInput(r))
    requires Operands(l, r, view, s, p1) && Operands(l, r, view, s, p2)
    ensures SameNumbers(p1, p2)
    decreases Size(l) + Size(r), 2
  {
    hide Evaluates, Operands, OneSide, NoInput;
    var x1, y1, w1 := OperandParts(l, r, view, s, p1);
    var x2, y2, w2 := OperandParts(l, r, view, s, p2);
    var one, other := if w1 then r else l, if w1 then l else r;
    if w1 == w2 {
      ExprOnce(one, view, s, x1, x2);
      if x1.Got? { ExprOnce(other, view, x1.stream, y1, y2); }
    } else if NoInput(one) {
      Crossed(one, other, view, s, x1, y1, x2, y2);
    } else {
      Crossed(other, one, view, s, x2, y2, x1, y1);
    }
  }

  /** One order against the other, when the first operand of the one does not read. */
  lemma {:induction false} Crossed(
      one: Expr, other: Expr, view: map<string, int>, s: Stream, x1: Value, y1: Value, x2: Value, y2: Value)
    requires NoInput(one) && OneSide(other)
    requires Evaluates(one, view, s, x1) && (x1.Got? ==> Evaluates(other, view, x1.stream, y1))
    requires Evaluates(other, view, s, x2) && (x2.Got? ==> Evaluates(one, view, x2.stream, y2))
    ensures
      if x1.Got? && y1.Got? then x2.Got? && y2.Got? && x1.n == y2.n && y1.n == x2.n && y1.stream == y2.stream
      else x2.Stuck? || y2.Stuck?
    decreases Size(one) + Size(other), 1
  {
    hide Evaluates, OneSide, NoInput;
    PureOnce(one, view, s, x1, s, x1);
    if x2.Got? { PureOnce(one, view, s, x1, x2.stream, y2); }
    if x1.Got? { ExprOnce(other, view, s, y1, x2); }
  }

  // ----- conditions -----

  predicate SameVerdict(r1: Verdict, r2: Verdict) {
    if r1.Holds? then r1 == r2 else r2.Halts?
  }

  lemma {:induction false} LogicOnce(l: Logic, view: map<string, int>, s: Stream, r1: Verdict, r2: Verdict)
    requires LogicOneSide(l) && Decides(l, view, s, r1) && Decides(l, view, s, r2)
    ensures SameVerdict(r1, r2)
  {
    hide Evaluates, Operands, OneSide, NoInput;
    match l
    case Plain(e) =>
      var v1 :| Evaluates(e, view, s, v1) && r1 == if v1.Got? then Holds(v1.n != 0, v1.stream) else Halts(v1.why);
      var v2 :| Evaluates(e, view, s, v2) && r2 == if v2.Got? then Holds(v2.n != 0, v2.stream) else Halts(v2.why);
      ExprOnce(e, view, s, v1, v2);
    case Comparison(a, rel, b) =>
      var p1 :| Operands(a, b, view, s, p1) &&
        r1 == if p1.Two? then Holds(Related(rel, p1.a, p1.b), p1.stream) else Halts(p1.why);
      var p2 :| Operands(a, b, view, s, p2) &&
        r2 == if p2.Two? then Holds(Related(rel, p2.a, p2.b), p2.stream) else Halts(p2.why);
      OperandsOnce(a, b, view, s, p1, p2);
    case Negation(a) =>
      var v1 :| Decides(a, view, s, v1) && r1 == if v1.Holds? then Holds(!v1.b, v1.stream) else v1;
      var v2 :| Decides(a, view, s, v2) && r2 == if v2.Holds? then Holds(!v2.b, v2.stream) else v2;
      LogicOnce(a, view, s, v1, v2);
    case Either(a, b) =>
      var v1 :| Decides(a, view, s, v1) && if v1.Halts? || v1.b then r1 == v1 else Decides(b, view, v1.stream, r1);
      var v2 :| Decides(a, view, s, v2) && if v2.Halts? || v2.b then r2 == v2 else Decides(b, view, v2.stream, r2);
      LogicOnce(a, view, s, v1, v2);
      if v1.Holds? && !v1.b { LogicOnce(b, view, v1.stream, r1, r2); }
    case Both(a, b) =>
      var v1 :| Decides(a, view, s, v1) && if v1.Halts? || !v1.b then r1 == v1 else Decides(b, view, v1.stream, r1);
      var v2 :| Decides(a, view, s, v2) && if v2.Halts? || !v2.b then r2 == v2 else Decides(b, view, v2.stream, r2);
      LogicOnce(a, view, s, v1, v2);
      if v1.Holds? && v1.b { LogicOnce(b, view, v1.stream, r1, r2); }
  }

  // ----- statements -----

  /** The same world at the end, or two faults after the same output, or two runs that go on after the same output. */
  predicate SameEnd(e1: Ending, e2: Ending) {
    match e1
    case Ends(_) => e2 == e1
    case Stops(_, out) => e2.Stops? && e2.out == out
    case GoesOn(_) => e2 == e1
  }

  /** What the run of a branch was made of. */
  lemma BranchParts(s: Stm, w: World, rounds: nat, e: Ending) returns (d: Verdict, e1: Ending)
    requires (s.IfStm? || (s.WhileStm? && rounds > 0)) && Runs(s, w, rounds, e)
    ensures Decides(s.c, View(w.scopes), w.stream, d)
    ensures d.Halts? ==> e == Stops(d.why, w.out)
    ensures d.Holds? && !d.b ==> e == Ends(w.(stream := d.stream))
    ensures d.Holds? && d.b ==>
              Runs(s.body, w.(stream := d.stream).Push(), if s.IfStm? then rounds else rounds - 1, e1)
    ensures d.Holds? && d.b && s.IfStm? ==> e == e1.Left()
    ensures d.Holds? && d.b && s.WhileStm? ==> if e1.Ends? then Runs(s, e1.w.Pop(), rounds - 1, e) else e == e1
  {
    hide Decides;
    e1 := e;
    if s.IfStm? {
      d :| Decides(s.c, View(w.scopes), w.stream, d) &&
        if d.Halts? then e == Stops(d.why, w.out)
        else if !d.b then e == Ends(w.(stream := d.stream))
        else exists e1 :: Runs(s.body, w.(stream := d.stream).Push(), rounds, e1) && e == e1.Left();
      if d.Holds? && d.b {
        e1 :| Runs(s.body, w.(stream := d.stream).Push(), rounds, e1) && e == e1.Left();
      }
    } else {
      d :| Decides(s.c, View(w.scopes), w.stream, d) &&
        if d.Halts? then e == Stops(d.why, w.out)
        else if !d.b then e == Ends(w.(stream := d.stream))
        else
          exists e1 :: Runs(s.body, w.(stream := d.stream).Push(), rounds - 1, e1) &&
            if e1.Ends? then Runs(s, e1.w.Pop(), rounds - 1, e) else e == e1;
      if d.Holds? && d.b {
        e1 :| Runs(s.body, w.(stream := d.stream).Push(), rounds - 1, e1) &&
          if e1.Ends? then Runs(s, e1.w.Pop(), rounds - 1, e) else e == e1;
      }
    }
  }

  lemma {:induction false} StmOnce(s: Stm, w: World, rounds: nat, e1: Ending, e2: Ending)
    requires StmOneSide(s) && Runs(s, w, rounds, e1) && Runs(s, w, rounds, e2)
    ensures SameEnd(e1, e2)
    decreases rounds, s, 1
  {
    hide Evaluates, Decides, OneSide, View, Assigned;
    match s
    case Assignment(x, ex) =>
      var v1 :| Evaluates(ex, View(w.scopes), w.stream, v1) &&
        e1 == if v1.Got? then Ends(World(Assigned(w.scopes, x, v1.n), v1.stream, w.out)) else Stops(v1.why, w.out);
      var v2 :| Evaluates(ex, View(w.scopes), w.stream, v2) &&
        e2 == if v2.Got? then Ends(World(Assigned(w.scopes, x, v2.n), v2.stream, w.out)) else Stops(v2.why, w.out);
      ExprOnce(ex, View(w.scopes), w.stream, v1, v2);
    case Output(ex) =>
      var v1 :| Evaluates(ex, View(w.scopes), w.stream, v1) &&
        e1 == if v1.Got? then Ends(World(w.scopes, v1.stream, w.out + [v1.n])) else Stops(v1.why, w.out);
      var v2 :| Evaluates(ex, View(w.scopes), w.stream, v2) &&
        e2 == if v2.Got? then Ends(World(w.scopes, v2.stream, w.out + [v2.n])) else Stops(v2.why, w.out);
      ExprOnce(ex, View(w.scopes), w.stream, v1, v2);
    case Block(stms) =>
      var r1 :| RunsAll(stms, w.Push(), rounds, r1) && e1 == r1.Left();
      var r2 :| RunsAll(stms, w.Push(), rounds, r2) && e2 == r2.Left();
      StmsOnce(stms, w.Push(), rounds, r1, r2);
    case IfStm(_, _) => BranchOnce(s, w, rounds, e1, e2);
    case WhileStm(_, _) => BranchOnce(s, w, rounds, e1, e2);
  }

  lemma {:induction false} BranchOnce(s: Stm, w: World, rounds: nat, e1: Ending, e2: Ending)
    requires s.IfStm? || s.WhileStm?
    requires StmOneSide(s) && Runs(s, w, rounds, e1) && Runs(s, w, rounds, e2)
    ensures SameEnd(e1, e2)
    decreases rounds, s, 0
  {
    hide Decides, View, Runs, LogicOneSide, StmOneSide, SameEnd, Evaluates;
    if s.WhileStm? && rounds == 0 {
      NoRoundsOnce(s, w, e1);
      NoRoundsOnce(s, w, e2);
      SameHere(e1, e2);
      return;
    }
    BranchSides(s);
    var d1, r1 := BranchParts(s, w, rounds, e1);
    var d2, r2 := BranchParts(s, w, rounds, e2);
    LogicOnce(s.c, View(w.scopes), w.stream, d1, d2);
    if d1.Holds? && d1.b {
      StmOnce(s.body, w.(stream := d1.stream).Push(), if s.IfStm? then rounds else rounds - 1, r1, r2);
      SameLeft(r1, r2);
      if s.WhileStm? && r1.Ends? { BranchOnce(s, r1.w.Pop(), rounds - 1, e1, e2); }
    } else {
      SameHere(e1, e2);
    }
  }

  lemma NoRoundsOnce(s: Stm, w: World, e: Ending)
    requires s.WhileStm? && Runs(s, w, 0, e)
    ensures e == GoesOn(w.out)
  {
  }

  lemma BranchSides(s: Stm)
    requires (s.IfStm? || s.WhileStm?) && StmOneSide(s)
    ensures LogicOneSide(s.c) && StmOneSide(s.body)
  {
  }

  lemma SameLeft(e1: Ending, e2: Ending)
    requires SameEnd(e1, e2)
    ensures SameEnd(e1.Left(), e2.Left()) && (e1.Ends? ==> e2 == e1) && (!e1.Ends? ==> !e2.Ends?)
  {
  }

  lemma SameHere(e1: Ending, e2: Ending)
    ensures e1 == e2 || (e1.Stops? && e2.Stops? && e1.out == e2.out) ==> SameEnd(e1, e2)
  {
  }

  lemma {:induction false} StmsOnce(stms: seq<Stm>, w: World, rounds: nat, e1: Ending, e2: Ending)
    requires (forall s <- stms :: StmOneSide(s)) && RunsAll(stms, w, rounds, e1) && RunsAll(stms, w, rounds, e2)
    ensures SameEnd(e1, e2)
    decreases rounds, stms, 0
  {
    hide Runs, StmOneSide;
    if stms != [] {
      var r1 :| Runs(stms[0], w, rounds, r1) && if r1.Ends? then RunsAll(stms[1..], r1.w, rounds, e1) else e1 == r1;
      var r2 :| Runs(stms[0], w, rounds, r2) && if r2.Ends? then RunsAll(stms[1..], r2.w, rounds, e2) else e2 == r2;
      StmOnce(stms[0], w, rounds, r1, r2);
      if r1.Ends? { StmsOnce(stms[1..], r1.w, rounds, e1, e2); }
    }
  }

  /** A program that reads on one side of its operators at most has one meaning for each input: two runs of its text
      end alike. */
  lemma MeaningUnique(prog: seq<Stm>, input: seq<int>, rounds: nat, e1: Ending, e2: Ending)
    requires forall s <- prog :: StmOneSide(s)
    requires Means(prog, input, rounds, e1) && Means(prog, input, rounds, e2)
    ensures SameEnd(e1, e2)
  {
    StmsOnce(prog, World([map[]], Stream(input, false), []), rounds, e1, e2);
  }

  // ----- the source against the tree, and against the machine -----

  lemma {:induction false} ExprSides(e: Expr, env: Env)
    requires ExprTree(e, env).Some?
    ensures InputFree(ExprTree(e, env).value) <==> NoInput(e)
    ensures OneSided(ExprTree(e, env).value) <==> OneSide(e)
  {
    match e
    case Arith(l, _, r) => ExprSides(l, env); ExprSides(r, env);
    case Negate(a) => ExprSides(a, env);
    case _ =>
  }

  lemma {:induction false} LogicSides(l: Logic, env: Env)
    requires LogicTree(l, env).Some?
    ensures OneSided(LogicTree(l, env).value) <==> LogicOneSide(l)
  {
    match l
    case Plain(e) => ExprSides(e, env);
    case Comparison(a, _, b) => ExprSides(a, env); ExprSides(b, env);
    case Either(a, b) => LogicSides(a, env); LogicSides(b, env);
    case Both(a, b) => LogicSides(a, env); LogicSides(b, env);
    case Negation(a) => LogicSides(a, env);
  }

  lemma {:induction false} StmSides(s: Stm, env: Env)
    requires StmTree(s, env).Some?
    ensures OneSided(StmTree(s, env).value.0) <==> StmOneSide(s)
    decreases s, 1
  {
    match s
    case Assignment(x, e) => ExprSides(e, env.Access(x));
    case Output(e) => ExprSides(e, env);
    case Block(stms) => StmsSides(stms, env);
    case _ =>
      LogicSides(s.c, env);
      StmSides(s.body, env);
      var b := StmTree(s.body, env).value.0;
      assert OneSided(Scope([b])) == OneSided(b);
  }

  lemma {:induction false} StmsSides(stms: seq<Stm>, env: Env)
    requires StmsTree(stms, env).Some?
    ensures (forall t <- StmsTree(stms, env).value.0 :: OneSided(t)) <==> (forall s <- stms :: StmOneSide(s))
    decreases stms, 0
  {
    if stms != [] {
      var (t, env1) := StmTree(stms[0], env).value;
      StmSides(stms[0], env);
      StmsSides(stms[1..], env1);
      assert StmsTree(stms, env).value.0 == [t] + StmsTree(stms[1..], env1).value.0;
      assert stms == [stms[0]] + stms[1..];
    }
  }

  /** The interpreter ends, fails or goes on as the text does, for every accepted program that reads on one side of its
      operators at most: its meaning is what the interpreter prints, and nothing else is. */
  lemma MeaningIsInterpreted(prog: seq<Stm>, input: seq<int>, ord: Order, fuel: nat, e: Ending)
    requires Accepted(prog) && AllOneSided(prog) && Means(prog, input, fuel, e)
    ensures
      var c := Interpret(prog, input, ord, fuel);
      && (e.Ends? <==> c.Done?) && (e.Stops? <==> c.Fails?)
      && (e.Ends? ==> e.w.out == c.st.output && e.w.stream == Stream(c.st.input, c.st.failed))
      && (!e.Ends? ==> e.out == c.out)
  {
    StmsSides(prog, Start);
    var r := InterpreterMeans(prog, input, ord, fuel);
    MeaningUnique(prog, input, fuel, e, r);
  }

  /** From the text to the machine: if conditions compare, operands are orderly, skipped ones do not divide, and a run
      of the text ends without having missed input, then the compiled program returns, having printed the same. */
  lemma CompiledMeans(prog: seq<Stm>, input: seq<int>, fuel: nat, e: Ending)
    requires Accepted(prog) && AllOrderly(prog) && AllSkipSafe(prog) && forall s <- prog :: AllRelational(s)
    requires Means(prog, input, fuel, e) && e.Ends? && !e.w.stream.failed
    ensures Returns(prog, input, e.w.out, e.w.stream.rest)
  {
    var ord: Order := (_, _) => false;
    forall t <- Trees(prog) ensures OneSided(t) { OrderlyIsOneSided(t); }
    MeaningIsInterpreted(prog, input, ord, fuel, e);
    CompilerCorrectStatically(prog, input, ord, fuel);
  }
}
