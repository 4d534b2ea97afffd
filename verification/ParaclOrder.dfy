/** The order in which C++ evaluates two operands cannot be observed when only one of them reads input. */
module ParaclOrder {
  import opened ParaclTree
  import opened ParaclAgree

  /** No operator whose operands C++ may evaluate in either order has `?` on both sides. */
  predicate OneSided(n: Node) {
    match n
    case Operand(left, op, right) =>
      OneSided(left) && OneSided(right) && (op == And || op == Or || InputFree(left) || InputFree(right))
    case Scope(branches) => forall b <- branches :: OneSided(b)
    case While(cond, body) => OneSided(cond) && OneSided(body)
    case If(cond, body) => OneSided(cond) && OneSided(body)
    case _ => true
  }

  lemma {:induction false} OrderlyIsOneSided(n: Node)
    requires Orderly(n)
    ensures OneSided(n)
  {
    match n
    case Operand(left, _, right) => OrderlyIsOneSided(left); OrderlyIsOneSided(right);
    case Scope(branches) => forall b <- branches ensures OneSided(b) { OrderlyIsOneSided(b); }
    case While(cond, body) => OrderlyIsOneSided(cond); OrderlyIsOneSided(body);
    case If(cond, body) => OrderlyIsOneSided(cond); OrderlyIsOneSided(body);
    case _ =>
  }

  lemma OneSidedParts(n: Node)
    requires (n.Operand? || n.If? || n.While?) && OneSided(n)
    ensures n.Operand? ==> OneSided(n.left) && OneSided(n.right)
    ensures n.Operand? && n.op != And && n.op != Or ==> InputFree(n.left) || InputFree(n.right)
    ensures n.If? || n.While? ==> OneSided(n.cond) && OneSided(n.body)
  {
  }

  /** Two results of an expression: equal, or both without one. */
  predicate SameResult<V(==)>(c1: Outcome<V>, c2: Outcome<V>) {
    if c1.Done? then c1 == c2 else !c2.Done?
  }

  /** The same value, from states that may differ in all but the variables. */
  predicate SameVal<V(==)>(c1: Outcome<V>, c2: Outcome<V>) {
    if c1.Done? then c2.Done? && c1.val == c2.val else !c2.Done?
  }

  // ----- expressions without `?` -----

  lemma {:induction false} PureSame(
      n: Node, names: set<string>, st1: State, st2: State, ord1: Order, ord2: Order, fuel: nat)
    requires IsLexpr(n, names) && InputFree(n) && st1.store == st2.store
    ensures SameVal(Calc(n, st1, ord1, fuel), Calc(n, st2, ord2, fuel))
    decreases n, 3
  {
    if n.Operand? {
      OperandParts(n, names);
      if n.op == Not {
        PureSame(n.right, names, st1, st2, ord1, ord2, fuel);
      } else {
        PureBinary(n, names, st1, st2, ord1, ord2, fuel);
      }
    }
  }

  lemma {:induction false} PureBinary(
      n: Node, names: set<string>, st1: State, st2: State, ord1: Order, ord2: Order, fuel: nat)
    requires n.Operand? && n.op != StdIn && n.op != Not
    requires IsLexpr(n, names) && InputFree(n) && st1.store == st2.store
    ensures SameVal(Calc(n, st1, ord1, fuel), Calc(n, st2, ord2, fuel))
    decreases n, 2
  {
    hide Calc, CalcBoth, IsLexpr, IsExpr, InputFree, Apply;
    OperandParts(n, names);
    OperandKinds(n, names);
    CalcBinary(n, names, st1, ord1, fuel);
    CalcBinary(n, names, st2, ord2, fuel);
    PureSame(n.left, names, st1, st2, ord1, ord2, fuel);
    PureSame(n.right, names, st1, st2, ord1, ord2, fuel);
    CalcExprState(n.left, names, st1, ord1, fuel);
    CalcExprState(n.left, names, st2, ord2, fuel);
    CalcExprState(n.right, names, st1, ord1, fuel);
    CalcExprState(n.right, names, st2, ord2, fuel);
    PureBoth(n, names, st1, st2, ord1, ord2, fuel);
    var c1, c2 := CalcBoth(n, st1, ord1, fuel), CalcBoth(n, st2, ord2, fuel);
    if c1.Done? && (IsArith(n.op) || IsRelop(n.op)) {
      ApplySame(n.op, c1.val.0, c1.val.1, c1.st, c2.st);
    }
  }

  lemma ApplySame(op: Operation, a: int, b: int, st1: State, st2: State)
    requires IsArith(op) || IsRelop(op)
    ensures SameVal(Apply(op, a, b, st1), Apply(op, a, b, st2))
    ensures Apply(op, a, b, st1).Done? ==> Apply(op, a, b, st1).st == st1
    ensures !Apply(op, a, b, st1).Timeout? && Apply(op, a, b, st1).Printed() == st1.output
  {
  }

  lemma {:induction false} PureBoth(
      n: Node, names: set<string>, st1: State, st2: State, ord1: Order, ord2: Order, fuel: nat)
    requires n.Operand? && IsLexpr(n.left, names) && IsLexpr(n.right, names)
    requires InputFree(n.left) && InputFree(n.right) && st1.store == st2.store
    ensures SameVal(CalcBoth(n, st1, ord1, fuel), CalcBoth(n, st2, ord2, fuel))
    decreases n, 1
  {
    hide Calc, CalcBoth, IsLexpr, InputFree;
    CalcExprState(n.left, names, st1, ord1, fuel);
    CalcExprState(n.left, names, st2, ord2, fuel);
    PureSame(n.left, names, st1, st2, ord1, ord2, fuel);
    PureSame(n.right, names, st1, st2, ord1, ord2, fuel);
    BothParts(n, names, st1, ord1, fuel);
    BothParts(n, names, st2, ord2, fuel);
  }

  // ----- expressions that read input on one side -----

  lemma {:induction false} ExprSame(n: Node, names: set<string>, st: State, ord1: Order, ord2: Order, fuel: nat)
    requires IsLexpr(n, names) && OneSided(n)
    ensures SameResult(Calc(n, st, ord1, fuel), Calc(n, st, ord2, fuel))
    decreases n, 2
  {
    if n.Operand? && n.op != StdIn {
      OperandKinds(n, names);
      if n.op == Not {
        ExprSame(n.right, names, st, ord1, ord2, fuel);
      } else {
        BinarySame(n, names, st, ord1, ord2, fuel);
      }
    }
  }

  lemma {:induction false} BinarySame(n: Node, names: set<string>, st: State, ord1: Order, ord2: Order, fuel: nat)
    requires n.Operand? && n.op != StdIn && n.op != Not
    requires IsLexpr(n, names) && OneSided(n)
    ensures SameResult(Calc(n, st, ord1, fuel), Calc(n, st, ord2, fuel))
    decreases n, 1
  {
    hide Calc, CalcBoth, IsLexpr, IsExpr, OneSided, InputFree, Apply;
    OneSidedParts(n);
    OperandKinds(n, names);
    CalcBinary(n, names, st, ord1, fuel);
    CalcBinary(n, names, st, ord2, fuel);
    if n.op == And || n.op == Or {
      ExprSame(n.left, names, st, ord1, ord2, fuel);
      var c := Calc(n.left, st, ord1, fuel);
      if c.Done? { ExprSame(n.right, names, c.st, ord1, ord2, fuel); }
    } else {
      ExprSame(n.right, names, st, ord1, ord2, fuel);
      var c := Calc(n.right, st, ord1, fuel);
      BothSame(n, names, if n.op == Div && c.Done? then c.st else st, ord1, ord2, fuel);
    }
  }

  /** One operand has no `?`, so it has the same value before and after the other. */
  lemma {:induction false} BothSame(n: Node, names: set<string>, st: State, ord1: Order, ord2: Order, fuel: nat)
    requires n.Operand? && IsLexpr(n.left, names) && IsLexpr(n.right, names) && OneSided(n) && n.op != And && n.op != Or
    ensures SameResult(CalcBoth(n, st, ord1, fuel), CalcBoth(n, st, ord2, fuel))
    decreases n, 0
  {
    hide Calc, CalcBoth, IsLexpr, OneSided, InputFree;
    OneSidedParts(n);
    ExprSame(n.left, names, st, ord1, ord2, fuel);
    ExprSame(n.right, names, st, ord1, ord2, fuel);
    BothParts(n, names, st, ord1, fuel);
    BothParts(n, names, st, ord2, fuel);
  }

  /** Both operands may as well be evaluated in `st` itself. */
  lemma {:induction false} BothParts(n: Node, names: set<string>, st: State, ord: Order, fuel: nat)
    requires n.Operand? && IsLexpr(n.left, names) && IsLexpr(n.right, names)
    requires InputFree(n.left) || InputFree(n.right)
    ensures
      var a, b, c := Calc(n.left, st, ord, fuel), Calc(n.right, st, ord, fuel), CalcBoth(n, st, ord, fuel);
      if a.Done? && b.Done? then c == Done((a.val, b.val), if InputFree(n.right) then a.st else b.st) else !c.Done?
    decreases n, 0
  {
    hide Calc, IsLexpr, InputFree;
    var a, b := Calc(n.left, st, ord, fuel), Calc(n.right, st, ord, fuel);
    CalcExprState(n.left, names, st, ord, fuel);
    CalcExprState(n.right, names, st, ord, fuel);
    if InputFree(n.right) && a.Done? {
      PureSame(n.right, names, st, a.st, ord, ord, fuel);
      CalcExprState(n.right, names, a.st, ord, fuel);
    }
    if InputFree(n.left) && b.Done? {
      PureSame(n.left, names, st, b.st, ord, ord, fuel);
      CalcExprState(n.left, names, b.st, ord, fuel);
    }
  }

  // ----- statements -----

  /** Two runs end alike: with the same result, or stopped by faults (perhaps two different ones) after printing the
      same, or still going on after printing the same. */
  predicate SameEnd(c1: Outcome<int>, c2: Outcome<int>) {
    match c1
    case Done(_, _) => c2 == c1
    case Fails(_, out) => c2.Fails? && c2.out == out
    case Timeout(_) => c2 == c1
  }

  lemma ValueSame(n: Node, names: set<string>, st: State, ord1: Order, ord2: Order, fuel: nat)
    requires IsLexpr(n, names) && OneSided(n)
    ensures SameEnd(Calc(n, st, ord1, fuel), Calc(n, st, ord2, fuel))
  {
    ExprSame(n, names, st, ord1, ord2, fuel);
    CalcExprState(n, names, st, ord1, fuel);
    CalcExprState(n, names, st, ord2, fuel);
  }

  lemma {:induction false} StmSame(n: Node, names: set<string>, st: State, ord1: Order, ord2: Order, fuel: nat)
    requires IsStm(n, names) && OneSided(n)
    ensures SameEnd(Calc(n, st, ord1, fuel), Calc(n, st, ord2, fuel))
    decreases fuel, n, 1
  {
    match n
    case Scope(branches) => StmsSame(branches, names, st, ord1, ord2, fuel);
    case Operand(_, _, right) => ValueSame(right, names, st, ord1, ord2, fuel);
    case If(_, _) => BranchSame(n, names, st, ord1, ord2, fuel);
    case While(_, _) => BranchSame(n, names, st, ord1, ord2, fuel);
  }

  lemma {:induction false} BranchSame(n: Node, names: set<string>, st: State, ord1: Order, ord2: Order, fuel: nat)
    requires n.If? || n.While?
    requires IsStm(n, names) && OneSided(n)
    ensures SameEnd(Calc(n, st, ord1, fuel), Calc(n, st, ord2, fuel))
    decreases fuel, n, 0
  {
    hide Calc, IsStm, IsLexpr, OneSided;
    BranchParts(n, names);
    OneSidedParts(n);
    ValueSame(n.cond, names, st, ord1, ord2, fuel);
    var c := Calc(n.cond, st, ord1, fuel);
    if n.If? {
      CalcIf(n, st, ord1, fuel);
      CalcIf(n, st, ord2, fuel);
      if c.Done? { StmSame(n.body, names, c.st, ord1, ord2, fuel); }
    } else {
      CalcWhile(n, st, ord1, fuel);
      CalcWhile(n, st, ord2, fuel);
      if fuel > 0 && c.Done? {
        StmSame(n.body, names, c.st, ord1, ord2, fuel - 1);
        var c1 := Calc(n.body, c.st, ord1, fuel - 1);
        if c1.Done? { BranchSame(n, names, c1.st, ord1, ord2, fuel - 1); }
      }
    }
  }

  lemma {:induction false} StmsSame(
      branches: seq<Node>, names: set<string>, st: State, ord1: Order, ord2: Order, fuel: nat)
    requires forall b <- branches :: IsStm(b, names) && OneSided(b)
    ensures SameEnd(CalcAll(branches, st, ord1, fuel), CalcAll(branches, st, ord2, fuel))
    decreases fuel, branches, 0
  {
    if branches != [] {
      StmSame(branches[0], names, st, ord1, ord2, fuel);
      var c := Calc(branches[0], st, ord1, fuel);
      if c.Done? { StmsSame(branches[1..], names, c.st, ord1, ord2, fuel); }
    }
  }
}
