/** The ParaCL syntax tree built by the parser actions, and its tree-walking meaning `calc`. */
module ParaclTree {
  import opened Base

  datatype Operation =
    | Plus | Minus | Assign | Greater | Less | GreaterEq | LessEq | StdOut | StdIn
    | Equal | NotEqual | Div | Mul | Mod | Not | And | Or

  /** `Null` is the null pointer an operand may hold; `cell` is the identity of a `Decl` object. */
  datatype Node =
    | Null
    | Value(val: int)
    | Decl(cell: nat, name: string)
    | Scope(branches: seq<Node>)
    | Operand(left: Node, op: Operation, right: Node)
    | While(cond: Node, body: Node)
    | If(cond: Node, body: Node)

  // ----- shapes the grammar can produce -----

  predicate IsArith(op: Operation) {
    op.Plus? || op.Minus? || op.Mul? || op.Div? || op.Mod?
  }

  predicate IsRelop(op: Operation) {
    op.Greater? || op.Less? || op.GreaterEq? || op.LessEq? || op.Equal? || op.NotEqual?
  }

  /** An `expr` of the grammar: an integer-valued tree over the given names. */
  predicate IsExpr(n: Node, names: set<string>) {
    match n
    case Value(_) => true
    case Decl(_, name) => name in names
    case Operand(left, op, right) =>
      if op == StdIn then left.Null? && right.Null?
      else IsArith(op) && IsExpr(left, names) && IsExpr(right, names)
    case _ => false
  }

  /** An `lexpr` of the grammar; a bare `expr` is one as well. */
  predicate IsLexpr(n: Node, names: set<string>) {
    IsExpr(n, names) ||
    match n
    case Operand(left, op, right) =>
      if op == Not then left.Null? && IsLexpr(right, names)
      else if op == And || op == Or then IsLexpr(left, names) && IsLexpr(right, names)
      else IsRelop(op) && IsExpr(left, names) && IsExpr(right, names)
    case _ => false
  }

  /** A statement, or a scope of statements. */
  predicate IsStm(n: Node, names: set<string>) {
    match n
    case Scope(branches) => forall b <- branches :: IsStm(b, names)
    case Operand(left, op, right) =>
      if op == Assign then left.Decl? && left.name in names && IsExpr(right, names)
      else op == StdOut && left.Null? && IsExpr(right, names)
    case While(cond, body) => IsLexpr(cond, names) && body.Scope? && IsStm(body, names)
    case If(cond, body) => IsLexpr(cond, names) && body.Scope? && IsStm(body, names)
    case _ => false
  }

  /** Every leaf of the logical expression is a comparison. */
  predicate RelationalCond(n: Node) {
    n.Operand? &&
    if n.op == Not then RelationalCond(n.right)
    else if n.op == And || n.op == Or then RelationalCond(n.left) && RelationalCond(n.right)
    else IsRelop(n.op)
  }

  /** Every condition in the statement has relational leaves. */
  predicate Relational(n: Node) {
    match n
    case Scope(branches) => forall b <- branches :: Relational(b)
    case While(cond, body) => RelationalCond(cond) && Relational(body)
    case If(cond, body) => RelationalCond(cond) && Relational(body)
    case _ => true
  }

  // ----- meaning -----

  /** Variables by `Decl` object, the rest of standard input, what was printed so far, and
      whether a read has failed, which leaves `std::cin` in a failed state for good. */
  datatype State = State(store: map<nat, int>, input: seq<int>, output: seq<int>, failed: bool)

  datatype Fault =
    | DivisionByZero   // the exception thrown by calc
    | Overflow         // signed overflow: undefined in C++
    | BadRemainder     // % by zero: undefined in C++
    | Uninitialised    // a Decl or a register read before it was written
    | EndOfInput       // __pcl_scan finds no number and exits
    | NotABit          // `and`, `or` or `not` on integers, which LLVM computes bit by bit
    | Malformed        // a null or misplaced operand: no grammar rule builds one

  /** The result of a run; one that does not end normally still has printed `out`. */
  datatype Outcome<+V> = Done(val: V, st: State) | Fails(why: Fault, out: seq<int>) | Timeout(out: seq<int>) {
    predicate IsFailure() { !Done? }
    function PropagateFailure<U>(): Outcome<U>
      requires !Done?
    {
      if Timeout? then Timeout(out) else Fails(why, out)
    }
    function Extract(): (V, State)
      requires Done?
    {
      (val, st)
    }

    /** All that was printed by the end of the run. */
    function Printed(): seq<int> {
      if Done? then st.output else out
    }

    predicate Overflows() {
      Fails? && why == Overflow
    }
  }

  /** The compiler's freedom in `Left_->calc() + Right_->calc()`: true when it evaluates the
      right operand first. It may decide differently for each operator and in each state. */
  type Order = (Node, State) -> bool

  function Bit(b: bool): int { if b then 1 else 0 }

  function Compare(op: Operation, a: int, b: int): bool
    requires IsRelop(op)
  {
    if op == Greater then a > b
    else if op == Less then a < b
    else if op == GreaterEq then a >= b
    else if op == LessEq then a <= b
    else if op == Equal then a == b
    else a != b
  }

  /** The six comparisons are those of a total order of the integers. */
  lemma ComparisonLaws(a: int, b: int, c: int)
    ensures Compare(LessEq, a, b) <==> !Compare(Greater, a, b)
    ensures Compare(GreaterEq, a, b) <==> !Compare(Less, a, b)
    ensures Compare(NotEqual, a, b) <==> !Compare(Equal, a, b)
    ensures Compare(Greater, a, b) <==> Compare(Less, b, a)
    ensures Compare(Equal, a, b) <==> a == b
    ensures !(Compare(Less, a, b) && Compare(Less, b, a)) && (Compare(Less, a, b) || a == b || Compare(Less, b, a))
    ensures Compare(Less, a, b) && Compare(Less, b, c) ==> Compare(Less, a, c)
    ensures Compare(Less, a, a + 1)
  {
  }

  function Checked(n: int, st: State): Outcome<int> {
    if Fits(n) then Done(n, st) else Fails(Overflow, st.output)
  }

  /** A binary operator applied to two computed `int` operands in C++. */
  function Apply(op: Operation, a: int, b: int, st: State): Outcome<int>
    requires IsArith(op) || IsRelop(op)
  {
    if op == Plus then Checked(a + b, st)
    else if op == Minus then Checked(a - b, st)
    else if op == Mul then Checked(a * b, st)
    else if op == Div then
      if b == 0 then Fails(DivisionByZero, st.output) else Checked(Quot(a, b), st)
    else if op == Mod then
      if b == 0 then Fails(BadRemainder, st.output)
      else if !Fits(Quot(a, b)) then Fails(Overflow, st.output)
      else Done(Rem(a, b), st)
    else Done(Bit(Compare(op, a, b)), st)
  }

  /** `calc` on a node. Only a loop consumes fuel; `Timeout` says that the fuel ran out. */
  function Calc(n: Node, st: State, ord: Order, fuel: nat): Outcome<int>
    decreases fuel, n, 1
  {
    match n
    case Null => Fails(Malformed, st.output)
    case Value(v) => Done(v, st)
    case Decl(cell, _) =>
      if cell in st.store then Done(st.store[cell], st) else Fails(Uninitialised, st.output)
    case Scope(branches) => CalcAll(branches, st, ord, fuel)
    case While(cond, body) =>
      if fuel == 0 then Timeout(st.output) else
      var (c, st1) :- Calc(cond, st, ord, fuel);
      if c == 0 then Done(0, st1) else
      var (_, st2) :- Calc(body, st1, ord, fuel - 1);
      Calc(n, st2, ord, fuel - 1)
    case If(cond, body) =>
      var (c, st1) :- Calc(cond, st, ord, fuel);
      if c == 0 then Done(0, st1) else
      var (_, st2) :- Calc(body, st1, ord, fuel);
      Done(0, st2)
    case Operand(left, op, right) =>
      if op == StdIn then
        if st.failed || st.input == [] then Done(0, st.(failed := true))
        else Done(st.input[0], st.(input := st.input[1..]))
      else if op == Assign then
        if !left.Decl? then Fails(Malformed, st.output) else
        var (v, st1) :- Calc(right, st, ord, fuel);
        Done(v, st1.(store := st1.store[left.cell := v]))
      else if op == StdOut then
        var (v, st1) :- Calc(right, st, ord, fuel);
        Done(0, st1.(output := st1.output + [v]))
      else if op == Not then
        var (v, st1) :- Calc(right, st, ord, fuel);
        Done(Bit(v == 0), st1)
      else if op == And then
        var (v, st1) :- Calc(left, st, ord, fuel);
        if v == 0 then Done(0, st1) else
        var (w, st2) :- Calc(right, st1, ord, fuel);
        Done(Bit(w != 0), st2)
      else if op == Or then
        var (v, st1) :- Calc(left, st, ord, fuel);
        if v != 0 then Done(1, st1) else
        var (w, st2) :- Calc(right, st1, ord, fuel);
        Done(Bit(w != 0), st2)
      else if op == Div then
        // the divisor is computed once for the check and once more for the quotient
        var (d, st1) :- Calc(right, st, ord, fuel);
        if d == 0 then Fails(DivisionByZero, st1.output) else
        var (ab, st2) :- CalcBoth(n, st1, ord, fuel);
        Apply(Div, ab.0, ab.1, st2)
      else if left.Null? && op == Plus then
        Calc(right, st, ord, fuel)
      else if left.Null? && op == Minus then
        var (v, st1) :- Calc(right, st, ord, fuel);
        Checked(-v, st1)
      else
        var (ab, st1) :- CalcBoth(n, st, ord, fuel);
        Apply(op, ab.0, ab.1, st1)
  }

  /** Both operands of a binary operator, in the order the C++ compiler picked. */
  function CalcBoth(n: Node, st: State, ord: Order, fuel: nat): Outcome<(int, int)>
    requires n.Operand?
    decreases fuel, n, 0
  {
    if ord(n, st) then
      var (b, st1) :- Calc(n.right, st, ord, fuel);
      var (a, st2) :- Calc(n.left, st1, ord, fuel);
      Done((a, b), st2)
    else
      var (a, st1) :- Calc(n.left, st, ord, fuel);
      var (b, st2) :- Calc(n.right, st1, ord, fuel);
      Done((a, b), st2)
  }

  /** The branches of a scope, one after the other. */
  function CalcAll(branches: seq<Node>, st: State, ord: Order, fuel: nat): Outcome<int>
    decreases fuel, branches, 0
  {
    if branches == [] then Done(0, st) else
    var (_, st1) :- Calc(branches[0], st, ord, fuel);
    CalcAll(branches[1..], st1, ord, fuel)
  }

  // ----- `Calc` on loops and branches, spelled out -----

  lemma CalcWhile(n: Node, st: State, ord: Order, fuel: nat)
    requires n.While?
    ensures
      Calc(n, st, ord, fuel) ==
        if fuel == 0 then Timeout(st.output) else
        var c := Calc(n.cond, st, ord, fuel);
        if !c.Done? then c
        else if c.val == 0 then Done(0, c.st)
        else
          var c1 := Calc(n.body, c.st, ord, fuel - 1);
          if c1.Done? then Calc(n, c1.st, ord, fuel - 1) else c1
  {
  }

  lemma CalcIf(n: Node, st: State, ord: Order, fuel: nat)
    requires n.If?
    ensures
      Calc(n, st, ord, fuel) ==
        var c := Calc(n.cond, st, ord, fuel);
        if !c.Done? then c
        else if c.val == 0 then Done(0, c.st)
        else
          var c1 := Calc(n.body, c.st, ord, fuel);
          if c1.Done? then Done(0, c1.st) else c1
  {
  }

  /** A scope of one statement. */
  lemma CalcOne(n: Node, st: State, ord: Order, fuel: nat)
    ensures Calc(Scope([n]), st, ord, fuel) ==
              var c := Calc(n, st, ord, fuel);
              if c.Done? then Done(0, c.st) else c
  {
    assert [n][1..] == [];
    var c := Calc(n, st, ord, fuel);
    assert c.Done? ==> CalcAll([], c.st, ord, fuel) == Done(0, c.st);
  }

  lemma CalcAssign(cell: nat, x: string, e: Node, st: State, ord: Order, fuel: nat)
    ensures
      Calc(Operand(Decl(cell, x), Assign, e), st, ord, fuel) ==
        var c := Calc(e, st, ord, fuel);
        if c.Done? then Done(c.val, c.st.(store := c.st.store[cell := c.val])) else c
  {
  }

  lemma CalcPrint(e: Node, st: State, ord: Order, fuel: nat)
    ensures
      Calc(Operand(Null, StdOut, e), st, ord, fuel) ==
        var c := Calc(e, st, ord, fuel);
        if c.Done? then Done(0, c.st.(output := c.st.output + [c.val])) else c
  {
  }

  lemma CalcScope(branches: seq<Node>, st: State, ord: Order, fuel: nat)
    ensures Calc(Scope(branches), st, ord, fuel) == CalcAll(branches, st, ord, fuel)
  {
  }

  lemma BranchParts(n: Node, names: set<string>)
    requires (n.If? || n.While?) && IsStm(n, names)
    ensures IsLexpr(n.cond, names) && IsStm(n.body, names)
  {
  }

  /** The children of an operator node are expressions of the right kind. */
  lemma OperandKinds(n: Node, names: set<string>)
    requires n.Operand? && n.op != StdIn && IsLexpr(n, names)
    ensures IsLexpr(n.right, names)
    ensures n.op != Not ==> IsLexpr(n.left, names) && !n.left.Null?
    ensures IsArith(n.op) || IsRelop(n.op) || n.op == And || n.op == Or || n.op == Not
  {
    if n.op != Not && n.op != And && n.op != Or {
      assert IsExpr(n.left, names);
    }
  }
}
