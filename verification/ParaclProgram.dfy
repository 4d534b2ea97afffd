/** Whole programs: what the compiler writes, how it runs, and how that compares with the
    interpreter built from the same sources. */
module ParaclProgram {
  import opened Base
  import opened ParaclTree
  import opened ParaclSource
  import opened ParaclCodegenSpec
  import opened ParaclStrict
  import opened ParaclSimulation
  import opened ParaclScopes
  import Ir = ParaclIr

  /** One stack slot per Decl, the newest first: each is inserted at the top of the entry block. */
  function Allocas(n: nat): (r: seq<Ir.Instr>)
    ensures |r| == n
  {
    if n == 0 then [] else [Ir.Alloca(n - 1)] + Allocas(n - 1)
  }

  /** The generator after parsing, before any code is generated. */
  function AfterParse(env: Env): Gen {
    Gen([Ir.Block(Allocas(env.decls), None)], 0, 0, env.named)
  }

  /** The parser accepts the program. */
  predicate Accepted(prog: seq<Stm>) {
    StmsTree(prog, Start).Some?
  }

  function Trees(prog: seq<Stm>): seq<Node>
    requires Accepted(prog)
  {
    StmsTree(prog, Start).value.0
  }

  function Slots(prog: seq<Stm>): map<string, nat>
    requires Accepted(prog)
  {
    StmsTree(prog, Start).value.1.named
  }

  /** The body of `__pcl_start`. */
  function Compiled(prog: seq<Stm>): seq<Ir.Block>
    requires Accepted(prog)
  {
    StmsTreeOk(prog, Start);
    ScopeCode(Trees(prog), AfterParse(StmsTree(prog, Start).value.1)).Terminate(Ir.RetVoid).blocks
  }

  function Initial(input: seq<int>): State {
    State(map[], input, [], false)
  }

  function Boot(input: seq<int>): Ir.Machine {
    Ir.Machine(0, 0, map[], map[], input, [])
  }

  /** The interpreter on the program. */
  function Interpret(prog: seq<Stm>, input: seq<int>, ord: Order, fuel: nat): Outcome<int>
    requires Accepted(prog)
  {
    CalcAll(Trees(prog), Initial(input), ord, fuel)
  }

  /** The strict reading of the program, one variable per Decl. */
  function StrictRun(prog: seq<Stm>, input: seq<int>, fuel: nat): Outcome<()>
    requires Accepted(prog)
  {
    StrictAll(Trees(prog), Initial(input), fuel)
  }

  /** The compiled program returns, having printed `output` and left `rest` unread. */
  ghost predicate Returns(prog: seq<Stm>, input: seq<int>, output: seq<int>, rest: seq<int>)
    requires Accepted(prog)
  {
    exists k: nat :: ReturnsIn(prog, input, output, rest, k)
  }

  predicate ReturnsIn(prog: seq<Stm>, input: seq<int>, output: seq<int>, rest: seq<int>, k: nat)
    requires Accepted(prog)
  {
    var s := Ir.Run(Compiled(prog), Boot(input), k);
    s.Returned? && s.m.output == output && s.m.input == rest
  }

  // ----- collapsing the scopes does not change the code -----

  lemma {:induction false} FlattenKeepsShape(n: Node, slots: map<string, nat>, names: set<string>)
    ensures IsExpr(n, names) <==> IsExpr(Flatten(n, slots), names)
    ensures IsLexpr(n, names) <==> IsLexpr(Flatten(n, slots), names)
  {
    if n.Operand? {
      FlattenKeepsShape(n.left, slots, names);
      FlattenKeepsShape(n.right, slots, names);
    }
  }

  lemma {:induction false} FlattenExprCode(n: Node, g: Gen)
    requires IsLexpr(n, Names(g)) && g.Open()
    ensures IsLexpr(Flatten(n, g.named), Names(g))
    ensures ExprCode(Flatten(n, g.named), g) == ExprCode(n, g)
    ensures Keyed(Flatten(n, g.named), g.named)
  {
    FlattenKeepsShape(n, g.named, Names(g));
    if n.Operand? && n.op != StdIn {
      if n.op == Not {
        FlattenExprCode(n.right, g);
      } else {
        BinaryShape(n, g);
        BinaryShape(Flatten(n, g.named), g);
        FlattenExprCode(n.left, g);
        FlattenExprCode(n.right, ExprCode(n.left, g).1);
      }
    }
  }

  lemma {:induction false} FlattenStmCode(n: Node, g: Gen)
    requires IsStm(n, Names(g)) && g.Open()
    ensures IsStm(Flatten(n, g.named), Names(g))
    ensures StmCode(Flatten(n, g.named), g) == StmCode(n, g)
    ensures Keyed(Flatten(n, g.named), g.named)
    decreases n, 1
  {
    match n
    case Scope(branches) => FlattenScopeCode(branches, g);
    case Operand(left, op, right) =>
      FlattenConsumeCode(n, g);
    case If(cond, body) => FlattenIfCode(n, g);
    case While(cond, body) => FlattenWhileCode(n, g);
  }

  lemma FlattenConsume(n: Node, slots: map<string, nat>, names: set<string>)
    requires n.Operand? && IsStm(n, names) && names == slots.Keys
    ensures
      var f := Flatten(n, slots);
      && f.Operand? && f.op == n.op && f.right == Flatten(n.right, slots)
      && IsStm(f, names)
      && (n.op == Assign ==> n.left.Decl? && n.left.name in slots && f.left == Decl(slots[n.left.name], n.left.name))
      && (n.op != Assign ==> f.left == Null)
      && (Keyed(f.right, slots) ==> Keyed(f, slots))
  {
    FlattenKeepsShape(n.right, slots, names);
  }

  lemma FlattenConsumeCode(n: Node, g: Gen)
    requires n.Operand? && IsStm(n, Names(g)) && g.Open()
    ensures IsStm(Flatten(n, g.named), Names(g))
    ensures StmCode(Flatten(n, g.named), g) == StmCode(n, g)
    ensures Keyed(Flatten(n, g.named), g.named)
  {
    hide StmCode, ExprCode, Flatten, Keyed, IsStm, IsLexpr, Extends;
    FlattenConsume(n, g.named, Names(g));
    ConsumeCode(n, g);
    ConsumeCode(Flatten(n, g.named), g);
    FlattenExprCode(n.right, g);
    if n.op == Assign {
      FlattenExprCode(n.right, g.Define(Ir.Load(g.next, g.named[n.left.name])));
    }
  }

  lemma FlattenBranch(n: Node, slots: map<string, nat>, names: set<string>)
    requires n.If? || n.While?
    requires IsStm(n, names)
    ensures
      var c, b, f := Flatten(n.cond, slots), Flatten(n.body, slots), Flatten(n, slots);
      && f == (if n.If? then If(c, b) else While(c, b))
      && (IsLexpr(c, names) && IsStm(b, names) ==> IsStm(f, names))
      && (Keyed(c, slots) && Keyed(b, slots) ==> Keyed(f, slots))
  {
  }

  lemma {:induction false} FlattenIfCode(n: Node, g: Gen)
    requires n.If? && IsStm(n, Names(g)) && g.Open()
    ensures IsStm(Flatten(n, g.named), Names(g))
    ensures StmCode(Flatten(n, g.named), g) == StmCode(n, g)
    ensures Keyed(Flatten(n, g.named), g.named)
    decreases n, 0
  {
    hide ExprCode, IsLexpr, StmCode, IsStm, Extends, Flatten, Keyed;
    FlattenBranch(n, g.named, Names(g));
    IfCode(n, g);
    var (c, g1) := ExprCode(n.cond, g);
    FlattenExprCode(n.cond, g);
    FlattenStmCode(n.body, g1.Fork(c));
    IfCode(Flatten(n, g.named), g);
  }

  lemma {:induction false} FlattenWhileCode(n: Node, g: Gen)
    requires n.While? && IsStm(n, Names(g)) && g.Open()
    ensures IsStm(Flatten(n, g.named), Names(g))
    ensures StmCode(Flatten(n, g.named), g) == StmCode(n, g)
    ensures Keyed(Flatten(n, g.named), g.named)
    decreases n, 0
  {
    hide ExprCode, IsLexpr, StmCode, IsStm, Flatten, Keyed;
    FlattenBranch(n, g.named, Names(g));
    WhileCode(n, g);
    var (c, g1) := ExprCode(n.cond, g);
    FlattenExprCode(n.cond, g);
    FlattenStmCode(n.body, g1.Fork(c));
    FlattenExprCode(n.cond, StmCode(n.body, g1.Fork(c)));
    WhileCode(Flatten(n, g.named), g);
  }

  lemma {:induction false} FlattenScopeCode(branches: seq<Node>, g: Gen)
    requires (forall b <- branches :: IsStm(b, Names(g))) && g.Open()
    ensures forall b <- FlattenAll(branches, g.named) :: IsStm(b, Names(g)) && Keyed(b, g.named)
    ensures ScopeCode(FlattenAll(branches, g.named), g) == ScopeCode(branches, g)
    decreases branches, 0
  {
    if branches != [] {
      FlattenStmCode(branches[0], g);
      FlattenScopeCode(branches[1..], StmCode(branches[0], g));
      var flat := FlattenAll(branches, g.named);
      assert flat[0] == Flatten(branches[0], g.named) && flat[1..] == FlattenAll(branches[1..], g.named);
      assert flat == [flat[0]] + flat[1..];
    }
  }

  // ----- start of a run -----

  lemma AllocaStep(code: seq<Ir.Block>, n: nat, m: Ir.Machine)
    requires n > 0 && m.blk == 0 < |code|
    requires m.idx + n <= |code[0].instrs| && code[0].instrs[m.idx..m.idx + n] == Allocas(n)
    ensures Ir.Step(code, m) == Ir.Running(m.(idx := m.idx + 1, mem := m.mem[n - 1 := None]))
    ensures code[0].instrs[m.idx + 1..m.idx + n] == Allocas(n - 1)
  {
    assert code[0].instrs[m.idx] == Allocas(n)[0] == Ir.Alloca(n - 1);
    assert code[0].instrs[m.idx + 1..m.idx + n] == Allocas(n)[1..] == Allocas(n - 1);
  }

  /** The machine gets through the allocations; every slot exists and is undefined. */
  lemma {:induction false} RunAllocas(code: seq<Ir.Block>, n: nat, m: Ir.Machine) returns (m1: Ir.Machine)
    requires m.blk == 0 < |code|
    requires m.idx + n <= |code[0].instrs| && code[0].instrs[m.idx..m.idx + n] == Allocas(n)
    ensures Ir.Run(code, m, n) == Ir.Running(m1)
    ensures m1 == m.(idx := m.idx + n, mem := m1.mem)
    ensures forall s | 0 <= s < n :: s in m1.mem && m1.mem[s] == None
    ensures forall s | s >= n && s in m.mem :: s in m1.mem && m1.mem[s] == m.mem[s]
    decreases n
  {
    hide Ir.Step, Allocas;
    m1 := m;
    if n > 0 {
      var m0 := m.(idx := m.idx + 1, mem := m.mem[n - 1 := None]);
      AllocaStep(code, n, m);
      m1 := RunAllocas(code, n - 1, m0);
      Ir.RunStep(code, m, m0, n - 1);
    }
  }

  // ----- the machine against the strict reading -----

  /** Three ways the strict reading ends, three ways the machine does. */
  lemma MachineFollowsFlat(prog: seq<Stm>, input: seq<int>, fuel: nat) returns (k: nat)
    requires Accepted(prog)
    ensures
      var w := StrictAll(FlattenAll(Trees(prog), Slots(prog)), Initial(input), fuel);
      var s := Ir.Run(Compiled(prog), Boot(input), k);
      && (w.Done? ==> ReturnsIn(prog, input, w.st.output, w.st.input, k))
      && (w.Fails? ==> s == Ir.Aborted(w.out))
      && (w.Timeout? ==> k >= fuel && s.Running? && s.m.output == w.out)
  {
    StmsTreeOk(prog, Start);
    var (ts, env) := StmsTree(prog, Start).value;
    var g, code := AfterParse(env), Compiled(prog);
    var flat := FlattenAll(ts, env.named);
    FlattenScopeCode(ts, g);
    k := MachineFollowsCode(code, flat, env, input, fuel);
  }

  lemma MachineFollowsCode(code: seq<Ir.Block>, flat: seq<Node>, env: Env, input: seq<int>, fuel: nat) returns (k: nat)
    requires EnvOk(env)
    requires forall b <- flat :: IsStm(b, env.named.Keys) && Keyed(b, env.named)
    requires code == ScopeCode(flat, AfterParse(env)).Terminate(Ir.RetVoid).blocks
    ensures
      var w := StrictAll(flat, Initial(input), fuel);
      var s := Ir.Run(code, Boot(input), k);
      && (w.Done? ==> s.Returned? && s.m.output == w.st.output && s.m.input == w.st.input)
      && (w.Fails? ==> s == Ir.Aborted(w.out))
      && (w.Timeout? ==> k >= fuel && s.Running? && s.m.output == w.out)
  {
    hide StrictAll, ScopeCode, IsStm, Keyed, Ir.Run, Allocas;
    var g := AfterParse(env);
    var r := ScopeCode(flat, g);
    assert g.Code() == Allocas(env.decls);
    assert code[0].instrs[0..env.decls] == Allocas(env.decls);
    var m := RunAllocas(code, env.decls, Boot(input));
    assert Covers(code, g, r);
    var k1, m1 := SimScope(code, flat, g, m, Initial(input), fuel);
    Ir.RunThen(code, Boot(input), env.decls, m, k1);
    k := env.decls + k1;
    if StrictAll(flat, Initial(input), fuel).Done? {
      RunReturn(code, m1);
      Ir.RunThen(code, Boot(input), k, m1, 1);
      k := k + 1;
    }
  }

  lemma RunReturn(code: seq<Ir.Block>, m: Ir.Machine)
    requires m.blk < |code| && m.idx == |code[m.blk].instrs| && code[m.blk].term == Some(Ir.RetVoid)
    ensures Ir.Run(code, m, 1) == Ir.Returned(m)
  {
    assert Ir.Step(code, m) == Ir.Returned(m);
  }

  /** No declaration reads the variable it declares. */
  predicate NoSelfReads(prog: seq<Stm>) {
    SelfReadsAll(prog, Start) == {}
  }

  /** Scopes against slots, from the start of the program. */
  lemma CollapseScopes(prog: seq<Stm>, input: seq<int>, fuel: nat)
    requires Accepted(prog)
    ensures
      var w := StrictRun(prog, input, fuel);
      var f := StrictAll(FlattenAll(Trees(prog), Slots(prog)), Initial(input), fuel);
      && (w.Done? ==> f.Done? && f.st.output == w.st.output && f.st.input == w.st.input)
      && (w.Timeout? ==> f == Timeout(w.out))
      && (w.Fails? && NoSelfReads(prog) ==> w.why != Uninitialised)
      && (w.Fails? && w.why != Uninitialised ==> f == w)
  {
    StmsTreeOk(prog, Start);
    FlatStms(prog, Start, Slots(prog), SelfReadsAll(prog, Start), Initial(input), Initial(input), fuel);
  }
}
