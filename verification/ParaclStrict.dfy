/** The tree read the way the generated code reads it: operands left to right, each exactly
    once, none skipped, arithmetic wrapping, and input that must be there when it is asked for.
    It sits between `calc` and the machine. */
module ParaclStrict {
  import opened Base
  import opened ParaclTree
  import Ir = ParaclIr
  import opened ParaclCodegenSpec

  /** Why an instruction has no result on defined operands. */
  function Undefined(op: Operation, b: int): Fault {
    if op == And || op == Or then NotABit else if b == 0 then DivisionByZero else Overflow
  }

  /** The value of an expression; None stands for the content of an unwritten variable. */
  function StrictExpr(n: Node, st: State): Outcome<Option<int>> {
    match n
    case Value(v) => Done(Some(v), st)
    case Decl(cell, _) => Done(if cell in st.store then Some(st.store[cell]) else None, st)
    case Operand(left, op, right) =>
      if op == StdIn then
        if st.input == [] then Fails(EndOfInput, st.output)
        else Done(Some(st.input[0]), st.(input := st.input[1..]))
      else if op == Not then
        var (v, st1) :- StrictExpr(right, st);
        if v.None? then Fails(Uninitialised, st1.output)
        else if !Ir.IsBit(v.value) then Fails(NotABit, st1.output)
        else Done(Some(1 - v.value), st1)
      else
        var (a, st1) :- StrictExpr(left, st);
        var (b, st2) :- StrictExpr(right, st1);
        if a.None? || b.None? then Fails(Uninitialised, st2.output) else
        var r := Ir.Compute(Select(op), a.value, b.value);
        if r.Some? then Done(r, st2)
        else Fails(Undefined(op, b.value), st2.output)
    case _ => Fails(Malformed, st.output)
  }

  /** An operand of `print`, `=`, `if` or `while`: it has to be defined. */
  function StrictValue(n: Node, st: State): Outcome<int> {
    var (v, st1) :- StrictExpr(n, st);
    if v.None? then Fails(Uninitialised, st1.output) else Done(v.value, st1)
  }

  /** A statement. As in `Calc`, only a loop consumes fuel. */
  function Strict(n: Node, st: State, fuel: nat): Outcome<()>
    decreases fuel, n, 1
  {
    match n
    case Scope(branches) => StrictAll(branches, st, fuel)
    case While(cond, body) =>
      if fuel == 0 then Timeout(st.output) else
      var (c, st1) :- StrictValue(cond, st);
      if c == 0 then Done((), st1) else
      var (_, st2) :- Strict(body, st1, fuel - 1);
      Strict(n, st2, fuel - 1)
    case If(cond, body) =>
      var (c, st1) :- StrictValue(cond, st);
      if c == 0 then Done((), st1) else Strict(body, st1, fuel)
    case Operand(left, op, right) =>
      var (v, st1) :- StrictValue(right, st);
      if op == Assign && left.Decl? then Done((), st1.(store := st1.store[left.cell := v]))
      else Done((), st1.(output := st1.output + [v]))
    case _ => Fails(Malformed, st.output)
  }

  function StrictAll(branches: seq<Node>, st: State, fuel: nat): Outcome<()>
    decreases fuel, branches, 0
  {
    if branches == [] then Done((), st) else
    var (_, st1) :- Strict(branches[0], st, fuel);
    StrictAll(branches[1..], st1, fuel)
  }

  // ----- spelled out -----

  lemma NotStrict(n: Node, st: State)
    requires n.Operand? && n.op == Not
    ensures
      var w := StrictExpr(n.right, st);
      StrictExpr(n, st) ==
        if !w.Done? then w
        else if w.val.None? then Fails(Uninitialised, w.st.output)
        else if !Ir.IsBit(w.val.value) then Fails(NotABit, w.st.output)
        else Done(Some(1 - w.val.value), w.st)
  {
  }

  lemma BinaryStrict(n: Node, st: State)
    requires n.Operand? && n.op != Not && n.op != StdIn
    ensures
      StrictExpr(n, st) ==
        var w1 := StrictExpr(n.left, st);
        if !w1.Done? then w1 else
        var w2 := StrictExpr(n.right, w1.st);
        if !w2.Done? then w2
        else if w1.val.None? || w2.val.None? then Fails(Uninitialised, w2.st.output) else
        var v := Ir.Compute(Select(n.op), w1.val.value, w2.val.value);
        if v.Some? then Done(v, w2.st) else Fails(Undefined(n.op, w2.val.value), w2.st.output)
  {
  }

  /** Evaluating an expression prints nothing and touches no variable, nor the state of the stream while there
      is input. */
  lemma {:induction false} StrictKeepsStore(n: Node, st: State)
    ensures var w := StrictExpr(n, st); w.Done? ==> w.st.store == st.store && w.st.failed == st.failed
    ensures !StrictExpr(n, st).Timeout? && StrictExpr(n, st).Printed() == st.output
  {
    if n.Operand? && n.op != StdIn {
      StrictKeepsStore(n.right, st);
      if n.op != Not {
        StrictKeepsStore(n.left, st);
        if StrictExpr(n.left, st).Done? { StrictKeepsStore(n.right, StrictExpr(n.left, st).st); }
      }
    }
  }

  lemma WhileStrict(n: Node, st: State, fuel: nat)
    requires n.While?
    ensures
      Strict(n, st, fuel) ==
        if fuel == 0 then Timeout(st.output) else
        var w := StrictValue(n.cond, st);
        if !w.Done? then w.PropagateFailure()
        else if w.val == 0 then Done((), w.st)
        else
          var w1 := Strict(n.body, w.st, fuel - 1);
          if w1.Done? then Strict(n, w1.st, fuel - 1) else w1
  {
  }

  lemma IfStrict(n: Node, st: State, fuel: nat)
    requires n.If?
    ensures
      var w := StrictValue(n.cond, st);
      Strict(n, st, fuel) == if !w.Done? then w.PropagateFailure()
                             else if w.val == 0 then Done((), w.st) else Strict(n.body, w.st, fuel)
  {
  }

  lemma ConsumeStrict(n: Node, names: set<string>, st: State, fuel: nat)
    requires n.Operand? && IsStm(n, names)
    ensures
      var w := StrictValue(n.right, st);
      Strict(n, st, fuel) ==
        if !w.Done? then w.PropagateFailure()
        else if n.op == Assign then Done((), w.st.(store := w.st.store[n.left.cell := w.val]))
        else Done((), w.st.(output := w.st.output + [w.val]))
  {
  }

  /** Nothing that was printed is ever taken back. */
  lemma {:induction false} StrictPrints(n: Node, st: State, fuel: nat)
    ensures st.output <= Strict(n, st, fuel).Printed()
    decreases fuel, n, 1
  {
    match n
    case Scope(branches) => StrictAllPrints(branches, st, fuel);
    case Operand(_, _, right) => StrictKeepsStore(right, st);
    case If(cond, body) =>
      StrictKeepsStore(cond, st);
      var w := StrictValue(cond, st);
      if w.Done? { StrictPrints(body, w.st, fuel); }
    case While(cond, body) =>
      StrictKeepsStore(cond, st);
      var w := StrictValue(cond, st);
      if fuel > 0 && w.Done? {
        StrictPrints(body, w.st, fuel - 1);
        var w1 := Strict(body, w.st, fuel - 1);
        if w1.Done? { StrictPrints(n, w1.st, fuel - 1); }
      }
    case _ =>
  }

  lemma {:induction false} StrictAllPrints(branches: seq<Node>, st: State, fuel: nat)
    ensures st.output <= StrictAll(branches, st, fuel).Printed()
    decreases fuel, branches, 0
  {
    if branches != [] {
      StrictPrints(branches[0], st, fuel);
      var w := Strict(branches[0], st, fuel);
      if w.Done? { StrictAllPrints(branches[1..], w.st, fuel); }
    }
  }
}
