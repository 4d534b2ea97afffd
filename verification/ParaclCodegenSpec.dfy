/** What the code generator emits for a tree, as a function of the generator's state. */
module ParaclCodegenSpec {
  import opened Base
  import opened ParaclTree
  import Ir = ParaclIr

  /** Blocks emitted so far, the insertion point (always at the end of block `cur`), the next
      register number and the stack slot behind each name (`NamedValues_`). */
  datatype Gen = Gen(blocks: seq<Ir.Block>, cur: nat, next: nat, named: map<string, nat>) {
    /** The builder can append to the current block. */
    predicate Open() {
      cur < |blocks| && blocks[cur].term.None?
    }

    function Code(): seq<Ir.Instr>
      requires cur < |blocks|
    {
      blocks[cur].instrs
    }

    function Emit(i: Ir.Instr): Gen
      requires cur < |blocks|
    {
      this.(blocks := blocks[cur := blocks[cur].(instrs := Code() + [i])])
    }

    /** Appends an instruction that defines the next register. */
    function Define(i: Ir.Instr): Gen
      requires cur < |blocks|
    {
      Emit(i).(next := next + 1)
    }

    function Terminate(t: Ir.Terminator): Gen
      requires cur < |blocks|
    {
      this.(blocks := blocks[cur := blocks[cur].(term := Some(t))])
    }

    /** Two fresh empty blocks, a branch to them, and the insertion point at the first one. */
    function Fork(c: Ir.Operand): Gen
      requires cur < |blocks|
    {
      var g := Terminate(Ir.CondBr(c, |blocks|, |blocks| + 1));
      g.(blocks := g.blocks + [Ir.Block([], None), Ir.Block([], None)], cur := |blocks|)
    }

    function MoveTo(b: nat): Gen {
      this.(cur := b)
    }
  }

  function Names(g: Gen): set<string> { g.named.Keys }

  /** The instruction `AddOperation` selects for a two-operand operator. */
  function Select(op: Operation): Ir.AluOp {
    if op == Plus then Ir.Add
    else if op == Minus then Ir.Sub
    else if op == Mul then Ir.Mul
    else if op == Div then Ir.SDiv
    else if op == Mod then Ir.SRem
    else if op == And then Ir.And
    else if op == Or then Ir.Or
    else Ir.ICmp(op)
  }

  /** The type of the register an instruction defines. */
  function ResultType(op: Ir.AluOp, a: Ir.Operand): Ir.Ty {
    if op.ICmp? then Ir.I1 else a.Type()
  }

  /** Code for an expression or a condition, and the operand that holds its value. */
  function ExprCode(n: Node, g: Gen): (r: (Ir.Operand, Gen))
    requires IsLexpr(n, Names(g)) && g.Open()
    ensures r.1.Open() && r.1.named == g.named && Extends(g, r.1) && r.1.cur == g.cur && |r.1.blocks| == |g.blocks|
    decreases n
  {
    match n
    case Value(v) => (Ir.ConstInt(v), g)
    case Decl(_, name) => (Ir.Reg(Ir.I32, g.next), g.Define(Ir.Load(g.next, g.named[name])))
    case Operand(left, op, right) =>
      if op == StdIn then (Ir.Reg(Ir.I32, g.next), g.Define(Ir.CallScan(g.next)))
      else if op == Not then
        var (b, g1) := ExprCode(right, g);
        (Ir.Reg(b.Type(), g1.next), g1.Define(Ir.Not(g1.next, b)))
      else
        var (a, g1) := ExprCode(left, g);
        var (b, g2) := ExprCode(right, g1);
        (Ir.Reg(ResultType(Select(op), a), g2.next),
         g2.Define(Ir.Alu(g2.next, Select(op), a, b)))
  }

  /** `ExprCode` on a two-operand node, spelled out. */
  lemma BinaryShape(n: Node, g: Gen)
    requires n.Operand? && n.op != Not && n.op != StdIn && g.Open() && IsLexpr(n, Names(g))
    ensures IsLexpr(n.left, Names(g)) && IsLexpr(n.right, Names(g))
    ensures
      var (a, g1) := ExprCode(n.left, g);
      var (b, g2) := ExprCode(n.right, g1);
      ExprCode(n, g) == (Ir.Reg(ResultType(Select(n.op), a), g2.next),
                         g2.Define(Ir.Alu(g2.next, Select(n.op), a, b)))
  {
  }

  /** `r` comes after `g`: it only appends to the current block, then adds and fills new ones. */
  predicate Extends(g: Gen, r: Gen) {
    && g.Open() && r.Open()
    && r.named == g.named && g.next <= r.next && |g.blocks| <= |r.blocks|
    && (r.cur == g.cur || (r.cur >= |g.blocks| && r.blocks[g.cur].term.Some?))
    && g.Code() <= r.blocks[g.cur].instrs
    && forall i | 0 <= i < |g.blocks| && i != g.cur :: r.blocks[i] == g.blocks[i]
  }

  lemma ExtendsTrans(a: Gen, b: Gen, c: Gen)
    requires Extends(a, b) && Extends(b, c)
    ensures Extends(a, c)
  {
  }

  lemma ExtendsDefine(g: Gen, i: Ir.Instr)
    requires g.Open()
    ensures Extends(g, g.Define(i)) && Extends(g, g.Emit(i))
  {
  }

  /** `EndIf`: jump from the end of the body to the block that follows the statement. */
  function EndIf(g: Gen, merge: nat): Gen
    requires g.Open()
  {
    g.Terminate(Ir.Br(merge)).MoveTo(merge)
  }

  /** `EndWhile`: back to the body or on to the block that follows. */
  function EndWhile(g: Gen, c: Ir.Operand, start: nat, merge: nat): Gen
    requires g.Open()
  {
    g.Terminate(Ir.CondBr(c, start, merge)).MoveTo(merge)
  }

  lemma ForkCloses(g: Gen, c: Ir.Operand, r: Gen, t: Ir.Terminator)
    requires g.Open() && Extends(g.Fork(c), r)
    ensures Extends(g, r.Terminate(t).MoveTo(|g.blocks| + 1))
  {
    var f, e := g.Fork(c), r.Terminate(t).MoveTo(|g.blocks| + 1);
    assert f.blocks[|g.blocks| + 1] == Ir.Block([], None) == r.blocks[|g.blocks| + 1];
    assert r.cur != |g.blocks| + 1 && r.cur != g.cur;
    assert e.blocks[g.cur] == r.blocks[g.cur] == f.blocks[g.cur];
  }

  lemma ForkOpen(g: Gen, c: Ir.Operand)
    requires g.Open()
    ensures g.Fork(c).Open() && g.Fork(c).named == g.named
  {
  }

  /** Code for a statement or a scope. */
  function StmCode(n: Node, g: Gen): (r: Gen)
    requires IsStm(n, Names(g)) && g.Open()
    ensures Extends(g, r)
    decreases n, 1
  {
    match n
    case Scope(branches) => ScopeCode(branches, g)
    case Operand(left, op, right) =>
      if op == Assign then
        // the left side is generated too, which leaves a load nobody uses
        var g1 := ExprCode(left, g).1;
        var (v, g2) := ExprCode(right, g1);
        ExtendsTrans(g, g1, g2);
        g2.Emit(Ir.Store(v, g2.named[left.name]))
      else
        var (v, g1) := ExprCode(right, g);
        g1.Emit(Ir.CallPrint(v))
    case If(cond, body) =>
      var (c, g1) := ExprCode(cond, g);
      ForkOpen(g1, c);
      var g2 := StmCode(body, g1.Fork(c));
      ForkCloses(g1, c, g2, Ir.Br(|g1.blocks| + 1));
      ExtendsTrans(g, g1, EndIf(g2, |g1.blocks| + 1));
      EndIf(g2, |g1.blocks| + 1)
    case While(cond, body) =>
      var (c, g1) := ExprCode(cond, g);
      ForkOpen(g1, c);
      var g2 := StmCode(body, g1.Fork(c));
      var (c2, g3) := ExprCode(cond, g2);
      var r := EndWhile(g3, c2, |g1.blocks|, |g1.blocks| + 1);
      ExtendsTrans(g1.Fork(c), g2, g3);
      ForkCloses(g1, c, g3, Ir.CondBr(c2, |g1.blocks|, |g1.blocks| + 1));
      ExtendsTrans(g, g1, r);
      r
  }

  function ScopeCode(branches: seq<Node>, g: Gen): (r: Gen)
    requires (forall b <- branches :: IsStm(b, Names(g))) && g.Open()
    ensures Extends(g, r)
    decreases branches, 0
  {
    if branches == [] then g else
    var g1 := StmCode(branches[0], g);
    var r := ScopeCode(branches[1..], g1);
    ExtendsTrans(g, g1, r);
    r
  }

  // ----- `StmCode`, spelled out -----

  lemma ConsumeCode(n: Node, g: Gen)
    requires n.Operand? && g.Open() && IsStm(n, Names(g))
    ensures IsLexpr(n.right, Names(g))
    ensures n.op == Assign ==>
              && n.left.Decl? && n.left.name in g.named
              && var slot := g.named[n.left.name];
                 var g1 := g.Define(Ir.Load(g.next, slot));
                 var (v, g2) := ExprCode(n.right, g1);
                 StmCode(n, g) == g2.Emit(Ir.Store(v, slot))
    ensures n.op != Assign ==>
              var (v, g1) := ExprCode(n.right, g);
              StmCode(n, g) == g1.Emit(Ir.CallPrint(v))
  {
  }

  lemma IfCode(n: Node, g: Gen)
    requires n.If? && g.Open() && IsStm(n, Names(g))
    ensures IsLexpr(n.cond, Names(g)) && IsStm(n.body, Names(g))
    ensures
      var (c, g1) := ExprCode(n.cond, g);
      && g1.Fork(c).Open() && g1.Fork(c).named == g.named
      && StmCode(n, g) == EndIf(StmCode(n.body, g1.Fork(c)), |g1.blocks| + 1)
  {
    hide ExprCode, IsLexpr, Extends;
    var (c, g1) := ExprCode(n.cond, g);
    ForkOpen(g1, c);
  }

  lemma WhileCode(n: Node, g: Gen)
    requires n.While? && g.Open() && IsStm(n, Names(g))
    ensures IsLexpr(n.cond, Names(g)) && IsStm(n.body, Names(g))
    ensures
      var (c, g1) := ExprCode(n.cond, g);
      && g1.Fork(c).Open() && g1.Fork(c).named == g.named
      && var g2 := StmCode(n.body, g1.Fork(c));
         var (c2, g3) := ExprCode(n.cond, g2);
         StmCode(n, g) == EndWhile(g3, c2, |g1.blocks|, |g1.blocks| + 1)
  {
    hide ExprCode, IsLexpr, Extends;
    var (c, g1) := ExprCode(n.cond, g);
    ForkOpen(g1, c);
  }
}
