/** The machine running the generated blocks does exactly what `Strict` says of the tree. */
module ParaclSimulation {
  import opened Base
  import opened ParaclTree
  import opened ParaclCodegenSpec
  import opened ParaclStrict
  import Ir = ParaclIr

  /** Every variable is stored under the slot the generator uses for its name. */
  predicate Keyed(n: Node, named: map<string, nat>) {
    match n
    case Decl(cell, name) => name in named && named[name] == cell
    case Operand(left, _, right) => Keyed(left, named) && Keyed(right, named)
    case Scope(branches) => forall b <- branches :: Keyed(b, named)
    case While(cond, body) => Keyed(cond, named) && Keyed(body, named)
    case If(cond, body) => Keyed(cond, named) && Keyed(body, named)
    case _ => true
  }

  /** The finished code contains what was emitted between `g` and `r`. The block `r.cur` may
      still have grown afterwards. */
  ghost predicate Covers(code: seq<Ir.Block>, g: Gen, r: Gen) {
    && Extends(g, r)
    && |r.blocks| <= |code|
    && (g.cur != r.cur ==> code[g.cur] == r.blocks[g.cur])
    && r.Code() <= code[r.cur].instrs
    && forall i | |g.blocks| <= i < |r.blocks| && i != r.cur :: code[i] == r.blocks[i]
  }

  lemma CoversSplit(code: seq<Ir.Block>, a: Gen, b: Gen, c: Gen)
    requires Extends(a, b) && Extends(b, c) && Covers(code, a, c)
    ensures Covers(code, a, b) && Covers(code, b, c)
  {
  }

  /** The machine stands where `g` would append its next instruction. */
  ghost predicate At(m: Ir.Machine, g: Gen) {
    g.cur < |g.blocks| && m.blk == g.cur && m.idx == |g.Code()|
  }

  /** The machine holds the variables, the input and the output of `st`. */
  ghost predicate Holds(m: Ir.Machine, st: State, named: map<string, nat>) {
    && m.input == st.input && m.output == st.output
    && forall x <- named.Keys :: named[x] in m.mem &&
         m.mem[named[x]] == if named[x] in st.store then Some(st.store[named[x]]) else None
  }

  /** Registers defined before `g` still have their values. */
  ghost predicate KeepsRegs(m: Ir.Machine, m1: Ir.Machine, g: Gen) {
    forall r | 0 <= r < g.next :: (r in m.regs <==> r in m1.regs) && (r in m.regs ==> m1.regs[r] == m.regs[r])
  }

  predicate Defined(o: Ir.Operand, g: Gen) {
    o.Reg? ==> o.id < g.next
  }

  /** One emitted instruction is the next thing the machine executes. */
  lemma StepInstr(code: seq<Ir.Block>, m: Ir.Machine, g: Gen, i: Ir.Instr, r: Gen)
    requires g.Open() && Extends(g.Emit(i), r) && r.cur < |code| && g.cur == r.cur
    requires r.Code() <= code[r.cur].instrs && At(m, g)
    ensures Ir.Step(code, m) == Ir.Execute(i, m)
    ensures Ir.Run(code, m, 1) == match Ir.Step(code, m) { case Running(m1) => Ir.Running(m1) case s => s }
  {
    assert g.Emit(i).Code()[m.idx] == i;
    assert code[m.blk].instrs[m.idx] == i;
  }

  // ----- expressions -----

  /** What running an expression's code must achieve, for each outcome of `StrictExpr`. */
  ghost predicate ExprDone(
    code: seq<Ir.Block>, m: Ir.Machine, g: Gen, o: Ir.Operand, r: Gen, w: Outcome<Option<int>>,
    k: nat, m1: Ir.Machine)
  {
    match w
    case Done(v, st1) =>
      && Ir.Run(code, m, k) == Ir.Running(m1)
      && At(m1, r) && Holds(m1, st1, g.named) && KeepsRegs(m, m1, g)
      && Defined(o, r) && Ir.Read(o, m1.regs) == v
    case Fails(_, out) => Ir.Run(code, m, k) == Ir.Aborted(out)
    case Timeout(_) => false
  }

  lemma {:induction false} SimExpr(code: seq<Ir.Block>, n: Node, g: Gen, m: Ir.Machine, st: State)
    returns (k: nat, m1: Ir.Machine)
    requires g.Open() && IsLexpr(n, Names(g)) && Keyed(n, g.named)
    requires g.cur < |code| && ExprCode(n, g).1.Code() <= code[g.cur].instrs
    requires At(m, g) && Holds(m, st, g.named)
    ensures ExprDone(code, m, g, ExprCode(n, g).0, ExprCode(n, g).1, StrictExpr(n, st), k, m1)
    decreases n
  {
    if n.Operand? && n.op != StdIn {
      if n.op == Not {
        k, m1 := SimNot(code, n, g, m, st);
      } else {
        k, m1 := SimBinary(code, n, g, m, st);
      }
    } else {
      k, m1 := SimLeaf(code, n, g, m, st);
    }
  }

  /** A constant, a variable or `?`: at most one instruction. */
  lemma SimLeaf(code: seq<Ir.Block>, n: Node, g: Gen, m: Ir.Machine, st: State)
    returns (k: nat, m1: Ir.Machine)
    requires n.Operand? ==> n.op == StdIn
    requires g.Open() && IsLexpr(n, Names(g)) && Keyed(n, g.named)
    requires g.cur < |code| && ExprCode(n, g).1.Code() <= code[g.cur].instrs
    requires At(m, g) && Holds(m, st, g.named)
    ensures ExprDone(code, m, g, ExprCode(n, g).0, ExprCode(n, g).1, StrictExpr(n, st), k, m1)
  {
    hide Ir.Run;
    k, m1 := 0, m;
    if n.Value? {
      Ir.RunNone(code, m);
    } else {
      var i := if n.Decl? then Ir.Load(g.next, g.named[n.name]) else Ir.CallScan(g.next);
      StepInstr(code, m, g, i, g.Define(i));
      k := 1;
      if Ir.Step(code, m).Running? { m1 := Ir.Step(code, m).m; }
    }
  }

  lemma NotShape(n: Node, g: Gen)
    requires n.Operand? && n.op == Not && g.Open() && IsLexpr(n, Names(g)) && Keyed(n, g.named)
    ensures IsLexpr(n.right, Names(g)) && Keyed(n.right, g.named)
    ensures var (b, g1) := ExprCode(n.right, g);
            ExprCode(n, g) == (Ir.Reg(b.Type(), g1.next), g1.Define(Ir.Not(g1.next, b)))
  {
  }

  lemma SimNotStep(code: seq<Ir.Block>, a: Ir.Operand, g: Gen, m: Ir.Machine, st: State)
    returns (m1: Ir.Machine)
    requires g.Open() && g.cur < |code| && At(m, g) && Holds(m, st, g.named)
    requires g.Define(Ir.Not(g.next, a)).Code() <= code[g.cur].instrs
    ensures
      var x := Ir.Read(a, m.regs);
      if x.None? || !Ir.IsBit(x.value) then Ir.Run(code, m, 1) == Ir.Aborted(st.output) else
        && Ir.Run(code, m, 1) == Ir.Running(m1)
        && At(m1, g.Define(Ir.Not(g.next, a))) && Holds(m1, st, g.named)
        && m1.regs == m.regs[g.next := Some(1 - x.value)]
  {
    var i := Ir.Not(g.next, a);
    StepInstr(code, m, g, i, g.Define(i));
    m1 := if Ir.Step(code, m).Running? then Ir.Step(code, m).m else m;
  }

  lemma {:induction false} SimNot(code: seq<Ir.Block>, n: Node, g: Gen, m: Ir.Machine, st: State)
    returns (k: nat, m1: Ir.Machine)
    requires n.Operand? && n.op == Not
    requires g.Open() && IsLexpr(n, Names(g)) && Keyed(n, g.named)
    requires g.cur < |code| && ExprCode(n, g).1.Code() <= code[g.cur].instrs
    requires At(m, g) && Holds(m, st, g.named)
    ensures ExprDone(code, m, g, ExprCode(n, g).0, ExprCode(n, g).1, StrictExpr(n, st), k, m1)
    decreases n, 0
  {
    hide ExprCode, StrictExpr, IsLexpr, Keyed;
    NotShape(n, g);
    NotStrict(n, st);
    var (b, g1) := ExprCode(n.right, g);
    assert g1.Code() <= ExprCode(n, g).1.Code();
    k, m1 := SimExpr(code, n.right, g, m, st);
    if StrictExpr(n.right, st).Done? {
      var m2 := SimNotStep(code, b, g1, m1, StrictExpr(n.right, st).st);
      Ir.RunThen(code, m, k, m1, 1);
      k, m1 := k + 1, m2;
    }
  }

  /** The last instruction of a two-operand expression. */
  lemma SimAlu(code: seq<Ir.Block>, op: Ir.AluOp, a: Ir.Operand, b: Ir.Operand, g: Gen, m: Ir.Machine, st: State)
    returns (m1: Ir.Machine)
    requires g.Open() && g.cur < |code| && At(m, g) && Holds(m, st, g.named)
    requires g.Define(Ir.Alu(g.next, op, a, b)).Code() <= code[g.cur].instrs
    ensures
      var x, y := Ir.Read(a, m.regs), Ir.Read(b, m.regs);
      var v := if x.Some? && y.Some? then Ir.Compute(op, x.value, y.value) else None;
      if v.None? then Ir.Run(code, m, 1) == Ir.Aborted(st.output) else
        && Ir.Run(code, m, 1) == Ir.Running(m1)
        && At(m1, g.Define(Ir.Alu(g.next, op, a, b))) && Holds(m1, st, g.named)
        && m1.regs == m.regs[g.next := v]
  {
    var i := Ir.Alu(g.next, op, a, b);
    StepInstr(code, m, g, i, g.Define(i));
    m1 := if Ir.Step(code, m).Running? then Ir.Step(code, m).m else m;
  }

  /** Runs of both operands followed by the instruction itself. */
  lemma SimOperands(
      code: seq<Ir.Block>, op: Ir.AluOp, m: Ir.Machine, g: Gen,
      a: Ir.Operand, g1: Gen, w1: Outcome<Option<int>>, k1: nat, m1: Ir.Machine,
      b: Ir.Operand, g2: Gen, w2: Outcome<Option<int>>, k2: nat, m2: Ir.Machine)
    returns (k: nat, m3: Ir.Machine)
    requires Extends(g, g1) && Extends(g1, g2) && g.cur == g1.cur == g2.cur < |code|
    requires g2.Define(Ir.Alu(g2.next, op, a, b)).Code() <= code[g.cur].instrs
    requires ExprDone(code, m, g, a, g1, w1, k1, m1) && w1.Done?
    requires ExprDone(code, m1, g1, b, g2, w2, k2, m2)
    ensures
      var r := g2.Define(Ir.Alu(g2.next, op, a, b));
      var v := if w2.Done? && w1.val.Some? && w2.val.Some? then Ir.Compute(op, w1.val.value, w2.val.value) else None;
      if v.None? then Ir.Run(code, m, k) == Ir.Aborted(w2.Printed()) else
        && Ir.Run(code, m, k) == Ir.Running(m3)
        && At(m3, r) && Holds(m3, w2.st, g.named) && KeepsRegs(m, m3, g)
        && Ir.Read(Ir.Reg(ResultType(op, a), g2.next), m3.regs) == v
  {
    Ir.RunThen(code, m, k1, m1, k2);
    k, m3 := k1 + k2, m2;
    if w2.Done? {
      assert Ir.Read(a, m2.regs) == w1.val;
      m3 := SimAlu(code, op, a, b, g2, m2, w2.st);
      Ir.RunThen(code, m, k, m2, 1);
      k := k + 1;
    }
  }

  lemma {:induction false} SimBinary(code: seq<Ir.Block>, n: Node, g: Gen, m: Ir.Machine, st: State)
    returns (k: nat, m1: Ir.Machine)
    requires n.Operand? && n.op != Not && n.op != StdIn
    requires g.Open() && IsLexpr(n, Names(g)) && Keyed(n, g.named)
    requires g.cur < |code| && ExprCode(n, g).1.Code() <= code[g.cur].instrs
    requires At(m, g) && Holds(m, st, g.named)
    ensures ExprDone(code, m, g, ExprCode(n, g).0, ExprCode(n, g).1, StrictExpr(n, st), k, m1)
    decreases n, 0
  {
    BinaryShape(n, g);
    BinaryStrict(n, st);
    var (a, g1) := ExprCode(n.left, g);
    var (b, g2) := ExprCode(n.right, g1);
    assert g1.Code() <= g2.Code() <= ExprCode(n, g).1.Code();
    k, m1 := SimExpr(code, n.left, g, m, st);
    var w1 := StrictExpr(n.left, st);
    if w1.Done? {
      var k2, m2 := SimExpr(code, n.right, g1, m1, w1.st);
      k, m1 := SimOperands(code, Select(n.op), m, g, a, g1, w1, k, m1, b, g2, StrictExpr(n.right, w1.st), k2, m2);
    }
  }

  // ----- statements -----

  /** What running a statement's code must achieve, for each outcome of `Strict`. */
  ghost predicate StmDone(
    code: seq<Ir.Block>, m: Ir.Machine, r: Gen, w: Outcome<()>, steps: nat, k: nat, m1: Ir.Machine)
  {
    match w
    case Done(_, st1) => Ir.Run(code, m, k) == Ir.Running(m1) && At(m1, r) && Holds(m1, st1, r.named)
    case Fails(_, out) => Ir.Run(code, m, k) == Ir.Aborted(out)
    case Timeout(out) => k >= steps && Ir.Run(code, m, k).Running? && Ir.Run(code, m, k).m.output == out
  }

  /** Prefixing a finished run. */
  lemma After(code: seq<Ir.Block>, m: Ir.Machine, k0: nat, m0: Ir.Machine,
              r: Gen, w: Outcome<()>, steps: nat, k: nat, m1: Ir.Machine)
    requires Ir.Run(code, m, k0) == Ir.Running(m0) && StmDone(code, m0, r, w, steps, k, m1)
    ensures StmDone(code, m, r, w, k0 + steps, k0 + k, m1)
  {
    Ir.RunThen(code, m, k0, m0, k);
  }

  lemma Weaken(
      code: seq<Ir.Block>, m: Ir.Machine, r: Gen, w: Outcome<()>, steps: nat, less: nat, k: nat, m1: Ir.Machine)
    requires less <= steps && StmDone(code, m, r, w, steps, k, m1)
    ensures StmDone(code, m, r, w, less, k, m1)
  {
  }

  /** An expression statement: the code of a value, then one instruction that consumes it. */
  lemma SimConsume(code: seq<Ir.Block>, n: Node, g: Gen, m: Ir.Machine, st: State, i: Ir.Instr)
    returns (k: nat, m1: Ir.Machine)
    requires g.Open() && IsLexpr(n, Names(g)) && Keyed(n, g.named)
    requires g.cur < |code| && ExprCode(n, g).1.Emit(i).Code() <= code[g.cur].instrs
    requires At(m, g) && Holds(m, st, g.named)
    requires i == Ir.CallPrint(ExprCode(n, g).0) ||
             (i.Store? && i.src == ExprCode(n, g).0 && i.slot in g.named.Values)
    ensures
      var w := StrictValue(n, st);
      if w.Fails? then Ir.Run(code, m, k) == Ir.Aborted(w.out) else
        && w.Done? && Ir.Run(code, m, k) == Ir.Running(m1)
        && At(m1, ExprCode(n, g).1.Emit(i))
        && Holds(m1, if i.CallPrint? then w.st.(output := w.st.output + [w.val])
                     else w.st.(store := w.st.store[i.slot := w.val]), g.named)
  {
    hide ExprCode, StrictExpr, IsLexpr, Keyed, Ir.Run;
    var (o, r) := ExprCode(n, g);
    assert r.Code() <= r.Emit(i).Code();
    k, m1 := SimExpr(code, n, g, m, st);
    if StrictExpr(n, st).Done? {
      StepInstr(code, m1, r, i, r.Emit(i));
      Ir.RunThen(code, m, k, m1, 1);
      k := k + 1;
      if Ir.Step(code, m1).Running? { m1 := Ir.Step(code, m1).m; }
    }
  }

  /** A condition and the branch that ends its block. */
  lemma SimBranch(code: seq<Ir.Block>, cond: Node, g: Gen, m: Ir.Machine, st: State, yes: nat, no: nat)
    returns (k: nat, m1: Ir.Machine)
    requires g.Open() && IsLexpr(cond, Names(g)) && Keyed(cond, g.named)
    requires At(m, g) && Holds(m, st, g.named)
    requires g.cur < |code|
    requires code[g.cur] == Ir.Block(ExprCode(cond, g).1.Code(), Some(Ir.CondBr(ExprCode(cond, g).0, yes, no)))
    ensures
      var w := StrictValue(cond, st);
      if w.Fails? then Ir.Run(code, m, k) == Ir.Aborted(w.out) else
        && w.Done? && k >= 1 && Ir.Run(code, m, k) == Ir.Running(m1)
        && Holds(m1, w.st, g.named)
        && m1.idx == 0 && m1.blk == if w.val != 0 then yes else no
  {
    hide ExprCode, StrictExpr, IsLexpr, Keyed, Ir.Run;
    k, m1 := SimExpr(code, cond, g, m, st);
    if StrictExpr(cond, st).Done? {
      Ir.RunThen(code, m, k, m1, 1);
      Ir.RunOne(code, m1);
      k := k + 1;
      if Ir.Step(code, m1).Running? { m1 := Ir.Step(code, m1).m; }
    }
  }

  /** An unconditional branch to the empty block `merge`. */
  lemma SimJump(code: seq<Ir.Block>, g: Gen, m: Ir.Machine, st: State, merge: nat, r: Gen) returns (m1: Ir.Machine)
    requires g.Open() && At(m, g) && Holds(m, st, g.named)
    requires g.cur < |code| && code[g.cur] == Ir.Block(g.Code(), Some(Ir.Br(merge)))
    requires r.cur == merge < |r.blocks| && r.Code() == [] && r.named == g.named
    ensures Ir.Run(code, m, 1) == Ir.Running(m1) && At(m1, r) && Holds(m1, st, r.named)
  {
    m1 := m.(blk := merge, idx := 0);
    assert Ir.Step(code, m) == Ir.Running(m1);
  }

  lemma KeyedParts(n: Node, named: map<string, nat>)
    requires Keyed(n, named)
    ensures n.If? || n.While? ==> Keyed(n.cond, named) && Keyed(n.body, named)
    ensures n.Operand? ==> Keyed(n.right, named)
    ensures n.Operand? && n.left.Decl? ==> n.left.name in named && n.left.cell == named[n.left.name]
  {
  }

  lemma {:induction false} SimOperandStm(code: seq<Ir.Block>, n: Node, g: Gen, m: Ir.Machine, st: State, fuel: nat)
    returns (k: nat, m1: Ir.Machine)
    requires n.Operand? && g.Open() && IsStm(n, Names(g)) && Keyed(n, g.named)
    requires Covers(code, g, StmCode(n, g)) && At(m, g) && Holds(m, st, g.named)
    ensures StmDone(code, m, StmCode(n, g), Strict(n, st, fuel), fuel, k, m1)
  {
    hide ExprCode, StmCode, Strict, StrictExpr, StrictValue, IsLexpr, IsStm, Keyed;
    ConsumeCode(n, g);
    ConsumeStrict(n, Names(g), st, fuel);
    KeyedParts(n, g.named);
    if n.op == Assign {
      var i := Ir.Load(g.next, n.left.cell);
      var g1 := g.Define(i);
      var (v, g2) := ExprCode(n.right, g1);
      assert g1.Code() <= g2.Code() <= StmCode(n, g).Code();
      StepInstr(code, m, g, i, g1);
      var m0 := Ir.Step(code, m).m;
      k, m1 := SimConsume(code, n.right, g1, m0, st, Ir.Store(v, n.left.cell));
      Ir.RunThen(code, m, 1, m0, k);
      k := 1 + k;
    } else {
      k, m1 := SimConsume(code, n.right, g, m, st, Ir.CallPrint(ExprCode(n.right, g).0));
    }
  }

  lemma {:induction false} SimStm(code: seq<Ir.Block>, n: Node, g: Gen, m: Ir.Machine, st: State, fuel: nat)
    returns (k: nat, m1: Ir.Machine)
    requires g.Open() && IsStm(n, Names(g)) && Keyed(n, g.named)
    requires Covers(code, g, StmCode(n, g)) && At(m, g) && Holds(m, st, g.named)
    ensures StmDone(code, m, StmCode(n, g), Strict(n, st, fuel), fuel, k, m1)
    decreases fuel, n, 2
  {
    match n
    case Scope(branches) => k, m1 := SimScope(code, branches, g, m, st, fuel);
    case Operand(left, op, right) => k, m1 := SimOperandStm(code, n, g, m, st, fuel);
    case If(cond, body) => k, m1 := SimIf(code, n, g, m, st, fuel);
    case While(cond, body) => k, m1 := SimWhile(code, n, g, m, st, fuel);
  }

  lemma {:induction false} SimScope(
      code: seq<Ir.Block>, branches: seq<Node>, g: Gen, m: Ir.Machine, st: State, fuel: nat)
    returns (k: nat, m1: Ir.Machine)
    requires g.Open() && forall b <- branches :: IsStm(b, Names(g)) && Keyed(b, g.named)
    requires Covers(code, g, ScopeCode(branches, g)) && At(m, g) && Holds(m, st, g.named)
    ensures StmDone(code, m, ScopeCode(branches, g), StrictAll(branches, st, fuel), fuel, k, m1)
    decreases fuel, branches, 0
  {
    if branches == [] {
      k, m1 := 0, m;
    } else {
      var g1, r := StmCode(branches[0], g), ScopeCode(branches, g);
      assert r == ScopeCode(branches[1..], g1);
      CoversSplit(code, g, g1, r);
      k, m1 := SimStm(code, branches[0], g, m, st, fuel);
      var w := Strict(branches[0], st, fuel);
      if w.Done? {
        var k2, m2 := SimScope(code, branches[1..], g1, m1, w.st, fuel);
        After(code, m, k, m1, r, StrictAll(branches[1..], w.st, fuel), fuel, k2, m2);
        k, m1 := k + k2, m2;
      }
    }
  }

  lemma {:induction false} SimIf(code: seq<Ir.Block>, n: Node, g: Gen, m: Ir.Machine, st: State, fuel: nat)
    returns (k: nat, m1: Ir.Machine)
    requires n.If? && g.Open() && IsStm(n, Names(g)) && Keyed(n, g.named)
    requires Covers(code, g, StmCode(n, g)) && At(m, g) && Holds(m, st, g.named)
    ensures StmDone(code, m, StmCode(n, g), Strict(n, st, fuel), fuel, k, m1)
    decreases fuel, n, 0
  {
    hide ExprCode, StmCode, Strict, StrictValue, IsLexpr, IsStm, Keyed, Ir.Run, Ir.Step;
    IfCode(n, g);
    IfStrict(n, st, fuel);
    KeyedParts(n, g.named);
    var (c, g1) := ExprCode(n.cond, g);
    var f, merge := g1.Fork(c), |g1.blocks| + 1;
    var g2 := StmCode(n.body, f);
    var r := EndIf(g2, merge);
    IfFacts(code, g, g1, c, g2, r);
    k, m1 := SimBranch(code, n.cond, g, m, st, |g1.blocks|, merge);
    var w := StrictValue(n.cond, st);
    if w.Done? && w.val != 0 {
      var k2, m2 := SimStm(code, n.body, f, m1, w.st, fuel);
      var w2 := Strict(n.body, w.st, fuel);
      if w2.Done? {
        var m3 := SimJump(code, g2, m2, w2.st, merge, r);
        Ir.RunThen(code, m1, k2, m2, 1);
        k2, m2 := k2 + 1, m3;
      }
      After(code, m, k, m1, r, w2, fuel, k2, m2);
      k, m1 := k + k2, m2;
    }
  }

  /** Where the blocks of an if statement end up in the finished code. */
  lemma IfFacts(code: seq<Ir.Block>, g: Gen, g1: Gen, c: Ir.Operand, g2: Gen, r: Gen)
    requires g.Open() && Extends(g, g1) && g1.cur == g.cur && Extends(g1.Fork(c), g2)
    requires r == EndIf(g2, |g1.blocks| + 1) && |g1.blocks| == |g.blocks|
    requires Covers(code, g, r)
    ensures code[g.cur] == Ir.Block(g1.Code(), Some(Ir.CondBr(c, |g1.blocks|, |g1.blocks| + 1)))
    ensures Covers(code, g1.Fork(c), g2)
    ensures code[g2.cur] == Ir.Block(g2.Code(), Some(Ir.Br(|g1.blocks| + 1)))
    ensures r.Open() && r.Code() == []
  {
    var f := g1.Fork(c);
    assert f.blocks[|g1.blocks| + 1] == Ir.Block([], None) == g2.blocks[|g1.blocks| + 1];
    assert r.cur == |g1.blocks| + 1 != g2.cur;
    assert f.blocks[g.cur] == g2.blocks[g.cur] == r.blocks[g.cur];
  }

  /** The same for a while loop. */
  lemma WhileFacts(code: seq<Ir.Block>, g: Gen, g1: Gen, c: Ir.Operand, g2: Gen, c2: Ir.Operand, g3: Gen, r: Gen)
    requires g.Open() && Extends(g, g1) && g1.cur == g.cur && Extends(g1.Fork(c), g2)
    requires Extends(g2, g3) && g3.cur == g2.cur && |g3.blocks| == |g2.blocks|
    requires r == EndWhile(g3, c2, |g1.blocks|, |g1.blocks| + 1) && |g1.blocks| == |g.blocks|
    requires Covers(code, g, r)
    ensures code[g.cur] == Ir.Block(g1.Code(), Some(Ir.CondBr(c, |g1.blocks|, |g1.blocks| + 1)))
    ensures Covers(code, g1.Fork(c), g2)
    ensures code[g2.cur] == Ir.Block(g3.Code(), Some(Ir.CondBr(c2, |g1.blocks|, |g1.blocks| + 1)))
    ensures r.Open() && r.Code() == []
  {
    var f := g1.Fork(c);
    assert f.blocks[|g1.blocks| + 1] == Ir.Block([], None) == g2.blocks[|g1.blocks| + 1] == g3.blocks[|g1.blocks| + 1];
    assert r.cur == |g1.blocks| + 1 != g2.cur;
    assert f.blocks[g.cur] == g2.blocks[g.cur] == r.blocks[g.cur];
    forall i | |f.blocks| <= i < |g2.blocks| && i != g2.cur ensures code[i] == g2.blocks[i] {
      assert g3.blocks[i] == g2.blocks[i] && r.blocks[i] == g3.blocks[i];
    }
  }

  lemma LoopShape(n: Node, f: Gen)
    requires n.While? && f.Open() && IsStm(n, Names(f)) && Keyed(n, f.named)
    ensures IsLexpr(n.cond, Names(f)) && Keyed(n.cond, f.named)
    ensures IsStm(n.body, Names(f)) && Keyed(n.body, f.named)
  {
  }

  lemma {:induction false} SimWhile(code: seq<Ir.Block>, n: Node, g: Gen, m: Ir.Machine, st: State, fuel: nat)
    returns (k: nat, m1: Ir.Machine)
    requires n.While? && g.Open() && IsStm(n, Names(g)) && Keyed(n, g.named)
    requires Covers(code, g, StmCode(n, g)) && At(m, g) && Holds(m, st, g.named)
    ensures StmDone(code, m, StmCode(n, g), Strict(n, st, fuel), fuel, k, m1)
    decreases fuel, n, 1
  {
    hide ExprCode, StmCode, Strict, StrictValue, IsLexpr, IsStm, Keyed;
    WhileCode(n, g);
    KeyedParts(n, g.named);
    WhileStrict(n, st, fuel);
    var (c, g1) := ExprCode(n.cond, g);
    var f := g1.Fork(c);
    var g2 := StmCode(n.body, f);
    var (c2, g3) := ExprCode(n.cond, g2);
    var r := StmCode(n, g);
    WhileFacts(code, g, g1, c, g2, c2, g3, r);
    k, m1 := SimTest(code, n, g, f, g2, r, m, st, fuel);
  }

  /** The inverted loop in the finished code: body from `f` to `g2`, then the test again. */
  ghost predicate LoopCode(code: seq<Ir.Block>, n: Node, f: Gen, g2: Gen, r: Gen) {
    && n.While? && f.Open() && IsStm(n, Names(f)) && Keyed(n, f.named) && f.Code() == []
    && IsStm(n.body, Names(f)) && g2 == StmCode(n.body, f) && Covers(code, f, g2)
    && r.cur < |r.blocks| && r.Code() == [] && r.named == f.named
    && TestCode(code, n, g2, f, r)
  }

  /** One of the two copies of the test: at the entry and after the body. */
  ghost predicate TestCode(code: seq<Ir.Block>, n: Node, t: Gen, f: Gen, r: Gen) {
    && n.While? && t.Open() && t.named == f.named && IsLexpr(n.cond, Names(t)) && t.cur < |code|
    && code[t.cur] == Ir.Block(ExprCode(n.cond, t).1.Code(), Some(Ir.CondBr(ExprCode(n.cond, t).0, f.cur, r.cur)))
  }

  lemma {:induction false} SimTest(
      code: seq<Ir.Block>, n: Node, t: Gen, f: Gen, g2: Gen, r: Gen, m: Ir.Machine, st: State, fuel: nat)
    returns (k: nat, m1: Ir.Machine)
    requires LoopCode(code, n, f, g2, r) && TestCode(code, n, t, f, r)
    requires At(m, t) && Holds(m, st, t.named)
    ensures StmDone(code, m, r, Strict(n, st, fuel), fuel, k, m1)
    decreases fuel, n, 0
  {
    hide ExprCode, StmCode, Strict, StrictValue, IsLexpr, IsStm, Keyed, Covers;
    WhileStrict(n, st, fuel);
    LoopShape(n, f);
    k, m1 := 0, m;
    if fuel > 0 {
      k, m1 := SimBranch(code, n.cond, t, m, st, f.cur, r.cur);
      var w := StrictValue(n.cond, st);
      if w.Done? && w.val != 0 {
        var k2, m2 := SimStm(code, n.body, f, m1, w.st, fuel - 1);
        var w1 := Strict(n.body, w.st, fuel - 1);
        var steps := fuel - 1;
        if w1.Done? {
          steps := k2 + fuel - 1;
          var k3, m3 := SimTest(code, n, g2, f, g2, r, m2, w1.st, fuel - 1);
          After(code, m1, k2, m2, r, Strict(n, w1.st, fuel - 1), fuel - 1, k3, m3);
          k2, m2 := k2 + k3, m3;
        }
        Weaken(code, m1, r, Strict(n, st, fuel), steps, fuel - 1, k2, m2);
        After(code, m, k, m1, r, Strict(n, st, fuel), fuel - 1, k2, m2);
        k, m1 := k + k2, m2;
      }
    }
  }
}
