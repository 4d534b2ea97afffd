/** When the operands calc skips cannot go wrong either. */
module ParaclSkips {
  import opened ParaclTree
  import opened ParaclCodegenSpec
  import opened ParaclStrict
  import opened ParaclAgree
  import Ir = ParaclIr

  /** No division and no remainder below the node. */
  predicate NoDivision(n: Node) {
    match n
    case Operand(left, op, right) => op != Div && op != Mod && NoDivision(left) && NoDivision(right)
    case _ => true
  }

  /** The operands calc may skip do not divide. */
  predicate SkipSafe(n: Node) {
    match n
    case Operand(left, op, right) =>
      SkipSafe(left) && SkipSafe(right) && (op == And || op == Or ==> NoDivision(right))
    case Scope(branches) => forall b <- branches :: SkipSafe(b)
    case While(cond, body) => SkipSafe(cond) && SkipSafe(body)
    case If(cond, body) => SkipSafe(cond) && SkipSafe(body)
    case _ => true
  }

  /** The strict value exists, or a variable was read before it was written. */
  predicate OkOrUnset<V>(w: Outcome<V>) {
    w.Done? || (w.Fails? && w.why == Uninitialised)
  }

  /** An integer tree, or a condition all of whose leaves compare: what LLVM can type. */
  predicate Typeable(n: Node, names: set<string>) {
    IsExpr(n, names) || (IsLexpr(n, names) && RelationalCond(n))
  }

  lemma TypeableParts(n: Node, names: set<string>)
    requires n.Operand? && n.op != StdIn && Typeable(n, names)
    ensures Typeable(n.right, names) && (n.op != Not ==> Typeable(n.left, names))
    ensures n.op == Not || n.op == And || n.op == Or ==> RelationalCond(n.right)
    ensures n.op == And || n.op == Or ==> RelationalCond(n.left)
    ensures IsArith(n.op) || IsRelop(n.op) || n.op == And || n.op == Or || n.op == Not
  {
  }

  /** A condition whose leaves compare has the value 0 or 1. */
  lemma {:induction false} ConditionIsBit(n: Node, st: State)
    requires RelationalCond(n)
    ensures var w := StrictExpr(n, st); w.Done? ==> w.val.Some? && Ir.IsBit(w.val.value)
  {
    hide StrictExpr;
    if n.op == Not {
      NotStrict(n, st);
    } else {
      BinaryStrict(n, st);
    }
  }

  lemma TypeableLexpr(n: Node, names: set<string>)
    requires Typeable(n, names)
    ensures IsLexpr(n, names)
  {
  }

  lemma {:induction false} SkippedOk(n: Node, names: set<string>, st: State)
    requires Typeable(n, names) && InputFree(n) && NoDivision(n)
    ensures OkOrUnset(StrictExpr(n, st))
    decreases n, 1
  {
    if n.Operand? { SkippedOperation(n, names, st); }
  }

  lemma SkippedParts(n: Node)
    requires n.Operand? && InputFree(n) && NoDivision(n)
    ensures n.op != StdIn && n.op != Div && n.op != Mod
    ensures InputFree(n.left) && InputFree(n.right) && NoDivision(n.left) && NoDivision(n.right)
  {
  }

  lemma {:induction false} SkippedOperation(n: Node, names: set<string>, st: State)
    requires n.Operand? && Typeable(n, names) && InputFree(n) && NoDivision(n)
    ensures OkOrUnset(StrictExpr(n, st))
    decreases n, 0
  {
    hide StrictExpr, Typeable, RelationalCond, InputFree, NoDivision;
    SkippedParts(n);
    TypeableParts(n, names);
    SkippedOk(n.right, names, st);
    if n.op == Not {
      NotStrict(n, st);
      ConditionIsBit(n.right, st);
    } else {
      BinaryStrict(n, st);
      SkippedOk(n.left, names, st);
      var w := StrictExpr(n.left, st);
      if w.Done? { SkippedOk(n.right, names, w.st); }
      if w.Done? && (n.op == And || n.op == Or) {
        ConditionIsBit(n.left, st);
        ConditionIsBit(n.right, w.st);
      }
    }
  }

  /** If calc succeeds without running out of input, so does the strict reading, as long as
      skipped operands do not divide. */
  lemma {:induction false} StrictOk(n: Node, names: set<string>, st: State, ord: Order, fuel: nat)
    requires Typeable(n, names) && Orderly(n) && SkipSafe(n)
    requires Calc(n, st, ord, fuel).Done? && !Calc(n, st, ord, fuel).st.failed
    ensures OkOrUnset(StrictExpr(n, st))
    decreases n, 2
  {
    CalcExprState(n, names, st, ord, fuel);
    if n.Operand? && n.op != StdIn {
      TypeableParts(n, names);
      if n.op == Not {
        StrictOk(n.right, names, st, ord, fuel);
        ConditionIsBit(n.right, st);
      } else {
        OperandKinds(n, names);
        if n.op == And || n.op == Or {
          LogicOk(n, names, st, ord, fuel);
        } else {
          ArithOk(n, names, st, ord, fuel);
        }
      }
    }
  }

  lemma Children(n: Node)
    requires n.Operand? && Orderly(n) && SkipSafe(n)
    ensures Orderly(n.left) && Orderly(n.right) && SkipSafe(n.left) && SkipSafe(n.right)
    ensures InputFree(n.right) || InputFree(n.left)
    ensures n.op == And || n.op == Or ==> InputFree(n.right) && NoDivision(n.right)
  {
  }

  lemma {:induction false} LogicOk(n: Node, names: set<string>, st: State, ord: Order, fuel: nat)
    requires n.Operand? && (n.op == And || n.op == Or)
    requires Typeable(n, names) && Orderly(n) && SkipSafe(n)
    requires Calc(n, st, ord, fuel).Done? && !Calc(n, st, ord, fuel).st.failed
    ensures OkOrUnset(StrictExpr(n, st))
    decreases n, 1
  {
    hide Calc, CalcBoth, StrictExpr, IsLexpr, IsExpr, RelationalCond, Orderly, SkipSafe, InputFree, NoDivision, Apply;
    CalcBinary(n, names, st, ord, fuel);
    BinaryStrict(n, st);
    TypeableParts(n, names);
    TypeableLexpr(n, names);
    Children(n);
    var c := Calc(n.left, st, ord, fuel);
    CalcExprState(n.right, names, c.st, ord, fuel);
    StrictOk(n.left, names, st, ord, fuel);
    ConditionIsBit(n.left, st);
    var w := StrictExpr(n.left, st);
    if w.Done? {
      SkippedOk(n.right, names, w.st);
      ConditionIsBit(n.right, w.st);
    }
  }

  lemma {:induction false} ArithOk(n: Node, names: set<string>, st: State, ord: Order, fuel: nat)
    requires n.Operand? && (IsArith(n.op) || IsRelop(n.op))
    requires Typeable(n, names) && Orderly(n) && SkipSafe(n)
    requires Calc(n, st, ord, fuel).Done? && !Calc(n, st, ord, fuel).st.failed
    ensures OkOrUnset(StrictExpr(n, st))
    decreases n, 1
  {
    CalcBinary(n, names, st, ord, fuel);
    BinaryStrict(n, st);
    TypeableParts(n, names);
    if n.op == Div {
      CalcExprState(n.right, names, st, ord, fuel);
    }
    var c := CalcBoth(n, st, ord, fuel);
    assert c.Done? && Apply(n.op, c.val.0, c.val.1, c.st) == Calc(n, st, ord, fuel);
    BothOk(n, names, st, ord, fuel);
    ApplyMeansCompute(n.op, c.val.0, c.val.1, c.st);
  }

  lemma ApplyMeansCompute(op: Operation, a: int, b: int, st: State)
    requires (IsArith(op) || IsRelop(op)) && Apply(op, a, b, st).Done?
    ensures Apply(op, a, b, st).st == st && Ir.Compute(Select(op), a, b).Some?
  {
  }

  lemma {:induction false} BothOk(n: Node, names: set<string>, st: State, ord: Order, fuel: nat)
    requires n.Operand? && Typeable(n.left, names) && Typeable(n.right, names)
    requires Orderly(n) && SkipSafe(n)
    requires CalcBoth(n, st, ord, fuel).Done? && !CalcBoth(n, st, ord, fuel).st.failed
    ensures
      var c := CalcBoth(n, st, ord, fuel).val;
      var w1 := StrictExpr(n.left, st);
      OkOrUnset(w1) && (w1.Done? && w1.val.Some? ==>
        w1.val.value == c.0 &&
        var w2 := StrictExpr(n.right, w1.st);
        OkOrUnset(w2) && (w2.Done? && w2.val.Some? ==> w2.val.value == c.1))
      && (w1.Done? && w1.val.None? ==> OkOrUnset(StrictExpr(n.right, w1.st)))
    decreases n, 0
  {
    hide Calc, CalcBoth, StrictExpr, IsLexpr, Orderly, SkipSafe, InputFree, NoDivision, Apply, Ir.Compute;
    Children(n);
    CalcBothParts(n, st, ord, fuel);
    var first, second := if ord(n, st) then n.right else n.left, if ord(n, st) then n.left else n.right;
    var c1 := Calc(first, st, ord, fuel);
    CalcExprState(first, names, st, ord, fuel);
    CalcExprState(second, names, c1.st, ord, fuel);
    StrictOk(first, names, st, ord, fuel);
    StrictOk(second, names, c1.st, ord, fuel);
    AgreeExpr(first, names, st, ord, fuel);
    AgreeExpr(second, names, c1.st, ord, fuel);
    var w1 := StrictExpr(n.left, st);
    if ord(n, st) {
      if InputFree(n.right) {
        if w1.Done? {
          StrictKeepsStore(n.left, st);
          StrictPure(n.right, names, w1.st, st);
        }
      } else {
        StrictPure(n.left, names, st, c1.st);
        StrictPure(n.left, names, c1.st, c1.st);
      }
    } else if w1.Done? && w1.val.None? {
      assert false;
    }
  }

  lemma CalcBothParts(n: Node, st: State, ord: Order, fuel: nat)
    requires n.Operand? && CalcBoth(n, st, ord, fuel).Done?
    ensures
      var first, second := if ord(n, st) then n.right else n.left, if ord(n, st) then n.left else n.right;
      var c1 := Calc(first, st, ord, fuel);
      c1.Done? &&
      var c2 := Calc(second, c1.st, ord, fuel);
      c2.Done? &&
      CalcBoth(n, st, ord, fuel) == Done(if ord(n, st) then (c2.val, c1.val) else (c1.val, c2.val), c2.st)
  {
  }

  // ----- statements -----

  lemma ValueOk(n: Node, names: set<string>, st: State, ord: Order, fuel: nat)
    requires Typeable(n, names) && Orderly(n) && SkipSafe(n)
    requires Calc(n, st, ord, fuel).Done? && !Calc(n, st, ord, fuel).st.failed
    ensures OkOrUnset(StrictValue(n, st))
    ensures StrictValue(n, st).Done? ==> StrictValue(n, st) == Calc(n, st, ord, fuel)
  {
    CalcExprState(n, names, st, ord, fuel);
    StrictOk(n, names, st, ord, fuel);
    AgreeExpr(n, names, st, ord, fuel);
  }

  /** A failed read is never forgotten. */
  lemma {:induction false} FailedStays(n: Node, names: set<string>, st: State, ord: Order, fuel: nat)
    requires IsStm(n, names) && st.failed && Calc(n, st, ord, fuel).Done?
    ensures Calc(n, st, ord, fuel).st.failed
    decreases fuel, n, 1
  {
    match n
    case Scope(branches) => FailedStaysAll(branches, names, st, ord, fuel);
    case Operand(_, _, right) => CalcExprState(right, names, st, ord, fuel);
    case If(cond, body) => FailedStaysBranch(n, names, st, ord, fuel);
    case While(cond, body) => FailedStaysBranch(n, names, st, ord, fuel);
  }

  lemma {:induction false} FailedStaysBranch(n: Node, names: set<string>, st: State, ord: Order, fuel: nat)
    requires n.If? || n.While?
    requires IsStm(n, names) && st.failed && Calc(n, st, ord, fuel).Done?
    ensures Calc(n, st, ord, fuel).st.failed
    decreases fuel, n, 0
  {
    hide Calc, IsStm, IsLexpr;
    BranchParts(n, names);
    CalcExprState(n.cond, names, st, ord, fuel);
    var c := Calc(n.cond, st, ord, fuel);
    if n.If? {
      CalcIf(n, st, ord, fuel);
      if c.val != 0 { FailedStays(n.body, names, c.st, ord, fuel); }
    } else {
      CalcWhile(n, st, ord, fuel);
      if c.val != 0 {
        FailedStays(n.body, names, c.st, ord, fuel - 1);
        FailedStaysBranch(n, names, Calc(n.body, c.st, ord, fuel - 1).st, ord, fuel - 1);
      }
    }
  }

  lemma {:induction false} FailedStaysAll(branches: seq<Node>, names: set<string>, st: State, ord: Order, fuel: nat)
    requires (forall b <- branches :: IsStm(b, names)) && st.failed && CalcAll(branches, st, ord, fuel).Done?
    ensures CalcAll(branches, st, ord, fuel).st.failed
    decreases fuel, branches, 0
  {
    if branches != [] {
      FailedStays(branches[0], names, st, ord, fuel);
      FailedStaysAll(branches[1..], names, Calc(branches[0], st, ord, fuel).st, ord, fuel);
    }
  }

  lemma {:induction false} StmOk(n: Node, names: set<string>, st: State, ord: Order, fuel: nat)
    requires IsStm(n, names) && Orderly(n) && Relational(n) && SkipSafe(n)
    requires Calc(n, st, ord, fuel).Done? && !Calc(n, st, ord, fuel).st.failed
    ensures OkOrUnset(Strict(n, st, fuel))
    ensures Strict(n, st, fuel).Done? ==> Strict(n, st, fuel).st == Calc(n, st, ord, fuel).st
    decreases fuel, n, 1
  {
    match n
    case Scope(branches) => ScopeOk(branches, names, st, ord, fuel);
    case Operand(_, _, right) => ValueOk(right, names, st, ord, fuel);
    case If(cond, body) => IfOk(n, names, st, ord, fuel);
    case While(cond, body) => WhileOk(n, names, st, ord, fuel);
  }

  lemma SafeBranch(n: Node)
    requires (n.If? || n.While?) && SkipSafe(n) && Relational(n)
    ensures SkipSafe(n.cond) && SkipSafe(n.body)
    ensures RelationalCond(n.cond) && Relational(n.body)
  {
  }

  lemma {:induction false} IfOk(n: Node, names: set<string>, st: State, ord: Order, fuel: nat)
    requires n.If? && IsStm(n, names) && Orderly(n) && Relational(n) && SkipSafe(n)
    requires Calc(n, st, ord, fuel).Done? && !Calc(n, st, ord, fuel).st.failed
    ensures OkOrUnset(Strict(n, st, fuel))
    ensures Strict(n, st, fuel).Done? ==> Strict(n, st, fuel).st == Calc(n, st, ord, fuel).st
    decreases fuel, n, 0
  {
    hide Calc, Strict, StrictValue, IsStm, IsLexpr, Orderly, Relational, RelationalCond, SkipSafe;
    BranchParts(n, names);
    OrderlyBranch(n);
    SafeBranch(n);
    CalcIf(n, st, ord, fuel);
    IfStrict(n, st, fuel);
    var c := Calc(n.cond, st, ord, fuel);
    if c.st.failed && c.val != 0 { FailedStays(n.body, names, c.st, ord, fuel); }
    ValueOk(n.cond, names, st, ord, fuel);
    if c.val != 0 { StmOk(n.body, names, c.st, ord, fuel); }
  }

  lemma {:induction false} WhileOk(n: Node, names: set<string>, st: State, ord: Order, fuel: nat)
    requires n.While? && IsStm(n, names) && Orderly(n) && Relational(n) && SkipSafe(n)
    requires Calc(n, st, ord, fuel).Done? && !Calc(n, st, ord, fuel).st.failed
    ensures OkOrUnset(Strict(n, st, fuel))
    ensures Strict(n, st, fuel).Done? ==> Strict(n, st, fuel).st == Calc(n, st, ord, fuel).st
    decreases fuel, n, 0
  {
    hide Calc, Strict, StrictValue, IsStm, IsLexpr, Orderly, Relational, RelationalCond, SkipSafe;
    BranchParts(n, names);
    OrderlyBranch(n);
    SafeBranch(n);
    CalcWhile(n, st, ord, fuel);
    WhileStrict(n, st, fuel);
    var c := Calc(n.cond, st, ord, fuel);
    if c.val != 0 {
      var c1 := Calc(n.body, c.st, ord, fuel - 1);
      if c1.st.failed { FailedStays(n, names, c1.st, ord, fuel - 1); }
      if c.st.failed { FailedStays(n.body, names, c.st, ord, fuel - 1); }
      ValueOk(n.cond, names, st, ord, fuel);
      StmOk(n.body, names, c.st, ord, fuel - 1);
      WhileOk(n, names, c1.st, ord, fuel - 1);
    } else {
      ValueOk(n.cond, names, st, ord, fuel);
    }
  }

  lemma {:induction false} ScopeOk(branches: seq<Node>, names: set<string>, st: State, ord: Order, fuel: nat)
    requires forall b <- branches :: IsStm(b, names) && Orderly(b) && Relational(b) && SkipSafe(b)
    requires CalcAll(branches, st, ord, fuel).Done? && !CalcAll(branches, st, ord, fuel).st.failed
    ensures OkOrUnset(StrictAll(branches, st, fuel))
    ensures StrictAll(branches, st, fuel).Done? ==>
              StrictAll(branches, st, fuel).st == CalcAll(branches, st, ord, fuel).st
    decreases fuel, branches, 0
  {
    if branches != [] {
      var c := Calc(branches[0], st, ord, fuel);
      if c.st.failed { FailedStaysAll(branches[1..], names, c.st, ord, fuel); }
      StmOk(branches[0], names, st, ord, fuel);
      if Strict(branches[0], st, fuel).Done? { ScopeOk(branches[1..], names, c.st, ord, fuel); }
    }
  }
}
