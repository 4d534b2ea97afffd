/** How `calc` and the strict reading of the same tree compare, whatever operand order the C++
    compiler picks. */
module ParaclAgree {
  import opened Base
  import opened ParaclTree
  import opened ParaclCodegenSpec
  import opened ParaclStrict
  import Ir = ParaclIr

  /** No `?` below the node. */
  predicate InputFree(n: Node) {
    match n
    case Operand(left, op, right) => op != StdIn && InputFree(left) && InputFree(right)
    case _ => true
  }

  /** Evaluation order cannot be observed: no operator has `?` on both sides, and an operand
      that calc may skip (the right one of && and ||) or compute twice (a divisor) has none. */
  predicate Orderly(n: Node) {
    match n
    case Operand(left, op, right) =>
      && Orderly(left) && Orderly(right)
      && (InputFree(right) || (InputFree(left) && op != Div && op != And && op != Or))
    case Scope(branches) => forall b <- branches :: Orderly(b)
    case While(cond, body) => Orderly(cond) && Orderly(body)
    case If(cond, body) => Orderly(cond) && Orderly(body)
    case _ => true
  }

  /** The same outcome, found in another state. */
  function Move<V>(w: Outcome<V>, st: State): Outcome<V> {
    if w.Done? then Done(w.val, st) else if w.Fails? then Fails(w.why, st.output) else Timeout(st.output)
  }

  /** Without `?` the strict value depends on the variables only and nothing changes. */
  lemma {:induction false} StrictPure(n: Node, names: set<string>, st: State, st1: State)
    requires IsLexpr(n, names) && InputFree(n) && st.store == st1.store
    ensures StrictExpr(n, st) == Move(StrictExpr(n, st1), st)
    decreases n, 1
  {
    if n.Operand? { PureOperand(n, names, st, st1); }
  }

  lemma {:induction false} PureOperand(n: Node, names: set<string>, st: State, st1: State)
    requires n.Operand? && n.op != StdIn && IsLexpr(n, names) && InputFree(n) && st.store == st1.store
    ensures StrictExpr(n, st) == Move(StrictExpr(n, st1), st)
    decreases n, 0
  {
    hide StrictExpr, IsLexpr, InputFree;
    OperandParts(n, names);
    if n.op == Not {
      NotStrict(n, st);
      NotStrict(n, st1);
    } else {
      BinaryStrict(n, st);
      BinaryStrict(n, st1);
      StrictPure(n.left, names, st, st1);
      StrictPure(n.left, names, st1, st1);
    }
    StrictPure(n.right, names, st, st1);
    StrictPure(n.right, names, st1, st1);
  }

  lemma OperandParts(n: Node, names: set<string>)
    requires n.Operand? && n.op != StdIn && IsLexpr(n, names)
    ensures IsLexpr(n.right, names) && (n.op != Not ==> IsLexpr(n.left, names))
    ensures InputFree(n) ==> InputFree(n.left) && InputFree(n.right)
  {
  }

  /** Same value and state, unless the strict reading fails or calc overflows. */
  predicate SameValue(c: Outcome<int>, w: Outcome<Option<int>>) {
    || w.Fails?
    || c.Overflows()
    || (w.Done? && c == if w.val.Some? then Done(w.val.value, w.st) else Fails(Uninitialised, w.st.output))
  }

  lemma {:induction false} AgreeExpr(n: Node, names: set<string>, st: State, ord: Order, fuel: nat)
    requires IsLexpr(n, names) && Orderly(n) && !st.failed
    ensures SameValue(Calc(n, st, ord, fuel), StrictExpr(n, st))
    decreases n, 1
  {
    StrictKeepsStore(n, st);
    if n.Operand? && n.op != StdIn {
      if n.op == Not {
        AgreeExpr(n.right, names, st, ord, fuel);
      } else if StrictExpr(n, st).Done? {
        AgreeBoth(n, names, st, ord, fuel);
        AgreeOperands(n, names, st, ord, fuel);
      }
    }
  }

  /** The operands of a defined operation, evaluated on their own and in either order. */
  ghost predicate OperandsAgree(n: Node, st: State, ord: Order, fuel: nat)
    requires n.Operand?
  {
    var w1 := StrictExpr(n.left, st);
    w1.Done? && w1.val.Some? &&
    var w2 := StrictExpr(n.right, w1.st);
    w2.Done? && w2.val.Some? &&
    var (a, b) := (w1.val.value, w2.val.value);
    Ir.Compute(Select(n.op), a, b).Some? &&
    StrictExpr(n, st) == Done(Ir.Compute(Select(n.op), a, b), w2.st) &&
    (Calc(n.left, st, ord, fuel).Overflows() || Calc(n.left, st, ord, fuel) == Done(a, w1.st)) &&
    (Calc(n.right, w1.st, ord, fuel).Overflows() || Calc(n.right, w1.st, ord, fuel) == Done(b, w2.st)) &&
    (CalcBoth(n, st, ord, fuel).Overflows() || CalcBoth(n, st, ord, fuel) == Done((a, b), w2.st)) &&
    (InputFree(n.right) ==>
       (w2.st == w1.st && (Calc(n.right, st, ord, fuel).Overflows() || Calc(n.right, st, ord, fuel) == Done(b, st))))
  }

  lemma {:induction false} AgreeBoth(n: Node, names: set<string>, st: State, ord: Order, fuel: nat)
    requires n.Operand? && n.op != StdIn && n.op != Not
    requires IsLexpr(n, names) && Orderly(n) && !st.failed && StrictExpr(n, st).Done?
    ensures OperandsAgree(n, st, ord, fuel)
    decreases n, 0
  {
    hide Calc, StrictExpr, IsLexpr, Orderly, InputFree;
    DefinedOperands(n, names, st);
    var w1 := StrictExpr(n.left, st);
    var w2 := StrictExpr(n.right, w1.st);
    AgreeExpr(n.left, names, st, ord, fuel);
    StrictKeepsStore(n.left, st);
    AgreeExpr(n.right, names, w1.st, ord, fuel);
    AgreeExpr(n.right, names, st, ord, fuel);
    if InputFree(n.right) {
      StrictPure(n.right, names, st, w1.st);
      StrictPure(n.right, names, w1.st, w1.st);
    } else {
      StrictPure(n.left, names, st, st);
      StrictKeepsStore(n.right, st);
      StrictPure(n.left, names, w2.st, st);
      AgreeExpr(n.left, names, w2.st, ord, fuel);
    }
  }

  /** When an operation has a result, so do its operands. */
  lemma DefinedOperands(n: Node, names: set<string>, st: State)
    requires n.Operand? && n.op != StdIn && n.op != Not
    requires IsLexpr(n, names) && Orderly(n) && StrictExpr(n, st).Done?
    ensures
      var w1 := StrictExpr(n.left, st);
      w1.Done? && w1.val.Some? &&
      var w2 := StrictExpr(n.right, w1.st);
      w2.Done? && w2.val.Some? &&
      Ir.Compute(Select(n.op), w1.val.value, w2.val.value).Some? &&
      StrictExpr(n, st) == Done(Ir.Compute(Select(n.op), w1.val.value, w2.val.value), w2.st)
    ensures IsLexpr(n.left, names) && IsLexpr(n.right, names) && Orderly(n.left) && Orderly(n.right)
    ensures InputFree(n.right) || InputFree(n.left)
  {
  }

  lemma OrderlyParts(n: Node)
    requires n.Operand? && Orderly(n)
    ensures Orderly(n.left) && Orderly(n.right)
    ensures InputFree(n.right) || InputFree(n.left)
    ensures n.op == And || n.op == Or || n.op == Div ==> InputFree(n.right)
  {
  }

  /** From the operands to the operation. */
  lemma AgreeOperands(n: Node, names: set<string>, st: State, ord: Order, fuel: nat)
    requires n.Operand? && n.op != StdIn && n.op != Not
    requires IsLexpr(n, names) && Orderly(n) && !st.failed
    requires OperandsAgree(n, st, ord, fuel)
    ensures SameValue(Calc(n, st, ord, fuel), StrictExpr(n, st))
  {
    hide StrictExpr, IsLexpr, InputFree, Orderly, CalcBoth, Calc;
    var w1 := StrictExpr(n.left, st);
    var w2 := StrictExpr(n.right, w1.st);
    var (a, b) := (w1.val.value, w2.val.value);
    CalcBinary(n, names, st, ord, fuel);
    OperandKinds(n, names);
    OrderlyParts(n);
    if IsArith(n.op) || IsRelop(n.op) {
      ApplyComputes(n.op, a, b, w2.st);
    }
  }

  /** `Calc` on a two-operand node, spelled out. */
  lemma CalcBinary(n: Node, names: set<string>, st: State, ord: Order, fuel: nat)
    requires n.Operand? && n.op != StdIn && n.op != Not
    requires IsLexpr(n, names)
    ensures n.op == And || n.op == Or ==>
              Calc(n, st, ord, fuel) ==
                var c1 := Calc(n.left, st, ord, fuel);
                if !c1.Done? then c1
                else if (c1.val == 0) == (n.op == And) then Done(Bit(c1.val != 0), c1.st)
                else
                  var c2 := Calc(n.right, c1.st, ord, fuel);
                  if c2.Done? then Done(Bit(c2.val != 0), c2.st) else c2
    ensures n.op == Div ==>
              Calc(n, st, ord, fuel) ==
                var c1 := Calc(n.right, st, ord, fuel);
                if !c1.Done? then c1
                else if c1.val == 0 then Fails(DivisionByZero, c1.st.output)
                else
                  var c2 := CalcBoth(n, c1.st, ord, fuel);
                  if c2.Done? then Apply(Div, c2.val.0, c2.val.1, c2.st) else c2.PropagateFailure()
    ensures (IsArith(n.op) || IsRelop(n.op)) && n.op != Div ==>
              Calc(n, st, ord, fuel) ==
                var c := CalcBoth(n, st, ord, fuel);
                if c.Done? then Apply(n.op, c.val.0, c.val.1, c.st) else c.PropagateFailure()
  {
    OperandKinds(n, names);
  }

  lemma ApplyComputes(op: Operation, a: int, b: int, st: State)
    requires IsArith(op) || IsRelop(op)
    requires Ir.Compute(Select(op), a, b).Some?
    ensures Apply(op, a, b, st).Overflows()
            || Apply(op, a, b, st) == Done(Ir.Compute(Select(op), a, b).value, st)
  {
  }

  /** Evaluating an expression prints nothing and leaves the variables alone, and all of the state without `?`. */
  lemma {:induction false} CalcExprState(n: Node, names: set<string>, st: State, ord: Order, fuel: nat)
    requires IsLexpr(n, names)
    ensures
      var c := Calc(n, st, ord, fuel);
      && !c.Timeout? && c.Printed() == st.output
      && (c.Done? ==> c.st.store == st.store && (st.failed ==> c.st.failed) && (InputFree(n) ==> c.st == st))
    decreases n, 2
  {
    if n.Operand? && n.op != StdIn {
      OperandKinds(n, names);
      CalcExprState(n.right, names, st, ord, fuel);
      if n.op != Not { CalcBinaryState(n, names, st, ord, fuel); }
    }
  }

  lemma {:induction false} CalcBinaryState(n: Node, names: set<string>, st: State, ord: Order, fuel: nat)
    requires n.Operand? && n.op != StdIn && n.op != Not && IsLexpr(n, names)
    ensures
      var c := Calc(n, st, ord, fuel);
      && !c.Timeout? && c.Printed() == st.output
      && (c.Done? ==> c.st.store == st.store && (st.failed ==> c.st.failed) && (InputFree(n) ==> c.st == st))
    decreases n, 1
  {
    hide Calc, CalcBoth, IsLexpr, IsExpr;
    OperandKinds(n, names);
    CalcBinary(n, names, st, ord, fuel);
    CalcExprState(n.right, names, st, ord, fuel);
    CalcExprState(n.left, names, st, ord, fuel);
    if n.op == Div {
      var c := Calc(n.right, st, ord, fuel);
      if c.Done? { CalcBothState(n, names, c.st, ord, fuel); }
    } else if n.op == And || n.op == Or {
      var c := Calc(n.left, st, ord, fuel);
      if c.Done? { CalcExprState(n.right, names, c.st, ord, fuel); }
    } else {
      CalcBothState(n, names, st, ord, fuel);
    }
  }

  lemma {:induction false} CalcBothState(n: Node, names: set<string>, st: State, ord: Order, fuel: nat)
    requires n.Operand? && IsLexpr(n.left, names) && IsLexpr(n.right, names)
    ensures
      var c := CalcBoth(n, st, ord, fuel);
      && !c.Timeout? && c.Printed() == st.output
      && (c.Done? ==> c.st.store == st.store && (st.failed ==> c.st.failed)
                      && (InputFree(n.left) && InputFree(n.right) ==> c.st == st))
    decreases n, 0
  {
    var first, second := if ord(n, st) then n.right else n.left, if ord(n, st) then n.left else n.right;
    CalcExprState(first, names, st, ord, fuel);
    var c := Calc(first, st, ord, fuel);
    if c.Done? { CalcExprState(second, names, c.st, ord, fuel); }
  }

  // ----- statements -----

  /** The two runs end alike. Short of that one of them meets a fault the other does not: a skipped
      operand or missing input for `w`, an overflow for `c`; all it printed, the other prints as well. */
  predicate SameRun(c: Outcome<int>, w: Outcome<()>) {
    || (w.Fails? && w.out <= c.Printed())
    || (c.Overflows() && c.out <= w.Printed())
    || (c.Done? && w.Done? && c.st == w.st)
    || (c.Timeout? && w.Timeout? && c.out == w.out)
  }

  lemma AgreeValue(n: Node, names: set<string>, st: State, ord: Order, fuel: nat)
    requires IsLexpr(n, names) && Orderly(n) && !st.failed
    ensures
      var c, w := Calc(n, st, ord, fuel), StrictValue(n, st);
      w.Fails? || c.Overflows() || (w.Done? && c == w)
    ensures
      var c, w := Calc(n, st, ord, fuel), StrictValue(n, st);
      c.Printed() == st.output == w.Printed() && !c.Timeout? && !w.Timeout?
    ensures StrictValue(n, st).Done? ==> !StrictValue(n, st).st.failed
  {
    AgreeExpr(n, names, st, ord, fuel);
    CalcExprState(n, names, st, ord, fuel);
    StrictKeepsStore(n, st);
  }

  /** `calc` never takes back what was printed. */
  lemma {:induction false} CalcPrints(n: Node, names: set<string>, st: State, ord: Order, fuel: nat)
    requires IsStm(n, names)
    ensures st.output <= Calc(n, st, ord, fuel).Printed()
    decreases fuel, n, 1
  {
    match n
    case Scope(branches) => CalcAllPrints(branches, names, st, ord, fuel);
    case Operand(_, _, right) => CalcExprState(right, names, st, ord, fuel);
    case If(_, _) => CalcBranchPrints(n, names, st, ord, fuel);
    case While(_, _) => CalcBranchPrints(n, names, st, ord, fuel);
  }

  lemma {:induction false} CalcBranchPrints(n: Node, names: set<string>, st: State, ord: Order, fuel: nat)
    requires (n.If? || n.While?) && IsStm(n, names)
    ensures st.output <= Calc(n, st, ord, fuel).Printed()
    decreases fuel, n, 0
  {
    hide Calc, IsStm, IsLexpr;
    BranchParts(n, names);
    CalcExprState(n.cond, names, st, ord, fuel);
    var c := Calc(n.cond, st, ord, fuel);
    if n.If? {
      CalcIf(n, st, ord, fuel);
      if c.Done? { CalcPrints(n.body, names, c.st, ord, fuel); }
    } else {
      CalcWhile(n, st, ord, fuel);
      if fuel > 0 && c.Done? {
        CalcPrints(n.body, names, c.st, ord, fuel - 1);
        var c1 := Calc(n.body, c.st, ord, fuel - 1);
        if c1.Done? { CalcBranchPrints(n, names, c1.st, ord, fuel - 1); }
      }
    }
  }

  lemma {:induction false} CalcAllPrints(branches: seq<Node>, names: set<string>, st: State, ord: Order, fuel: nat)
    requires forall b <- branches :: IsStm(b, names)
    ensures st.output <= CalcAll(branches, st, ord, fuel).Printed()
    decreases fuel, branches, 0
  {
    if branches != [] {
      CalcPrints(branches[0], names, st, ord, fuel);
      var c := Calc(branches[0], st, ord, fuel);
      if c.Done? { CalcAllPrints(branches[1..], names, c.st, ord, fuel); }
    }
  }

  /** Running a statement as `calc` does and as its code does. */
  lemma {:induction false} AgreeStm(n: Node, names: set<string>, st: State, ord: Order, fuel: nat)
    requires IsStm(n, names) && Orderly(n) && !st.failed
    ensures SameRun(Calc(n, st, ord, fuel), Strict(n, st, fuel))
    ensures Strict(n, st, fuel).Done? ==> !Strict(n, st, fuel).st.failed
    decreases fuel, n, 1
  {
    match n
    case Scope(branches) => AgreeScope(branches, names, st, ord, fuel);
    case Operand(left, op, right) => AgreeValue(right, names, st, ord, fuel);
    case If(_, _) => AgreeBranch(n, names, st, ord, fuel);
    case While(_, _) => AgreeBranch(n, names, st, ord, fuel);
  }

  lemma {:induction false} AgreeBranch(n: Node, names: set<string>, st: State, ord: Order, fuel: nat)
    requires n.If? || n.While?
    requires IsStm(n, names) && Orderly(n) && !st.failed
    ensures SameRun(Calc(n, st, ord, fuel), Strict(n, st, fuel))
    ensures Strict(n, st, fuel).Done? ==> !Strict(n, st, fuel).st.failed
    decreases fuel, n, 0
  {
    hide Calc, Strict, StrictValue, IsStm, IsLexpr, Orderly;
    BranchParts(n, names);
    OrderlyBranch(n);
    AgreeValue(n.cond, names, st, ord, fuel);
    CalcPrints(n, names, st, ord, fuel);
    StrictPrints(n, st, fuel);
    var w := StrictValue(n.cond, st);
    if n.If? {
      CalcIf(n, st, ord, fuel);
      IfStrict(n, st, fuel);
      if w.Done? { AgreeStm(n.body, names, w.st, ord, fuel); }
    } else {
      CalcWhile(n, st, ord, fuel);
      WhileStrict(n, st, fuel);
      if fuel > 0 && w.Done? {
        AgreeStm(n.body, names, w.st, ord, fuel - 1);
        var c1, w1 := Calc(n.body, w.st, ord, fuel - 1), Strict(n.body, w.st, fuel - 1);
        if c1.Done? { CalcPrints(n, names, c1.st, ord, fuel - 1); }
        if w1.Done? {
          StrictPrints(n, w1.st, fuel - 1);
          AgreeBranch(n, names, w1.st, ord, fuel - 1);
        }
      }
    }
  }

  lemma OrderlyBranch(n: Node)
    requires (n.If? || n.While?) && Orderly(n)
    ensures Orderly(n.cond) && Orderly(n.body)
  {
  }

  lemma {:induction false} AgreeScope(branches: seq<Node>, names: set<string>, st: State, ord: Order, fuel: nat)
    requires (forall b <- branches :: IsStm(b, names) && Orderly(b)) && !st.failed
    ensures SameRun(CalcAll(branches, st, ord, fuel), StrictAll(branches, st, fuel))
    ensures StrictAll(branches, st, fuel).Done? ==> !StrictAll(branches, st, fuel).st.failed
    decreases fuel, branches, 0
  {
    if branches != [] {
      AgreeStm(branches[0], names, st, ord, fuel);
      var c, w := Calc(branches[0], st, ord, fuel), Strict(branches[0], st, fuel);
      if c.Done? { CalcAllPrints(branches[1..], names, c.st, ord, fuel); }
      if w.Done? {
        StrictAllPrints(branches[1..], w.st, fuel);
        AgreeScope(branches[1..], names, w.st, ord, fuel);
      }
    }
  }
}
