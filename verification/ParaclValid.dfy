/** The generated function is well formed, and well typed exactly when conditions compare. */
module ParaclValid {
  import opened Base
  import opened ParaclTree
  import opened ParaclCodegenSpec
  import Ir = ParaclIr

  // ----- block structure -----

  predicate Targets(t: Ir.Terminator, blocks: nat) {
    match t
    case CondBr(_, yes, no) => yes < blocks && no < blocks
    case Br(target) => target < blocks
    case RetVoid => true
  }

  /** Every block touched between `g` and `r`, except the one still open, has its terminator,
      and jumps stay inside the function. */
  ghost predicate Sealed(g: Gen, r: Gen) {
    forall i | 0 <= i < |r.blocks| && (i == g.cur || i >= |g.blocks|) && i != r.cur ::
      r.blocks[i].term.Some? && Targets(r.blocks[i].term.value, |r.blocks|)
  }

  lemma SealedTrans(a: Gen, b: Gen, c: Gen)
    requires Extends(a, b) && Extends(b, c) && Sealed(a, b) && Sealed(b, c)
    ensures Sealed(a, c)
  {
    forall i | 0 <= i < |c.blocks| && (i == a.cur || i >= |a.blocks|) && i != c.cur
      ensures c.blocks[i].term.Some? && Targets(c.blocks[i].term.value, |c.blocks|)
    {
      if i < |b.blocks| && i != b.cur { assert c.blocks[i] == b.blocks[i]; }
    }
  }

  /** A fork, the code of a body and the jump that closes it. */
  lemma SealedFork(g: Gen, c: Ir.Operand, r: Gen, t: Ir.Terminator)
    requires g.Open() && Extends(g.Fork(c), r) && Sealed(g.Fork(c), r)
    requires t == Ir.Br(|g.blocks| + 1) || (t.CondBr? && t.yes == |g.blocks| && t.no == |g.blocks| + 1)
    ensures Sealed(g, r.Terminate(t).MoveTo(|g.blocks| + 1))
  {
    var f, e := g.Fork(c), r.Terminate(t).MoveTo(|g.blocks| + 1);
    ForkCloses(g, c, r, t);
    forall i | 0 <= i < |e.blocks| && (i == g.cur || i >= |g.blocks|) && i != e.cur
      ensures e.blocks[i].term.Some? && Targets(e.blocks[i].term.value, |e.blocks|)
    {
      if i == g.cur {
        assert e.blocks[i] == r.blocks[i] == f.blocks[i];
      } else if i != r.cur {
        assert i == f.cur || i >= |f.blocks|;
        assert e.blocks[i] == r.blocks[i];
      }
    }
  }

  lemma {:induction false} StmSealed(n: Node, g: Gen)
    requires IsStm(n, Names(g)) && g.Open()
    ensures Sealed(g, StmCode(n, g))
    decreases n, 1
  {
    match n
    case Scope(branches) => ScopeSealed(branches, g);
    case Operand(_, _, _) =>
      assert StmCode(n, g).cur == g.cur && |StmCode(n, g).blocks| == |g.blocks|;
    case If(_, _) => BranchSealed(n, g);
    case While(_, _) => BranchSealed(n, g);
  }

  lemma {:induction false} BranchSealed(n: Node, g: Gen)
    requires n.If? || n.While?
    requires IsStm(n, Names(g)) && g.Open()
    ensures Sealed(g, StmCode(n, g))
    decreases n, 0
  {
    hide ExprCode, IsLexpr, IsStm, StmCode;
    if n.If? { IfCode(n, g); } else { WhileCode(n, g); }
    var (c, g1) := ExprCode(n.cond, g);
    var g2 := StmCode(n.body, g1.Fork(c));
    StmSealed(n.body, g1.Fork(c));
    if n.If? {
      SealedFork(g1, c, g2, Ir.Br(|g1.blocks| + 1));
    } else {
      var (c2, g3) := ExprCode(n.cond, g2);
      SealedTrans(g1.Fork(c), g2, g3);
      ExtendsTrans(g1.Fork(c), g2, g3);
      SealedFork(g1, c, g3, Ir.CondBr(c2, |g1.blocks|, |g1.blocks| + 1));
    }
  }

  lemma {:induction false} ScopeSealed(branches: seq<Node>, g: Gen)
    requires (forall b <- branches :: IsStm(b, Names(g))) && g.Open()
    ensures Sealed(g, ScopeCode(branches, g))
    decreases branches, 0
  {
    if branches != [] {
      var g1 := StmCode(branches[0], g);
      StmSealed(branches[0], g);
      ScopeSealed(branches[1..], g1);
      SealedTrans(g, g1, ScopeCode(branches[1..], g1));
    }
  }

  // ----- types -----

  predicate TypedBlock(b: Ir.Block) {
    && (forall i <- b.instrs :: Ir.ValidInstr(i))
    && (b.term.Some? && b.term.value.CondBr? ==> b.term.value.cond.Type() == Ir.I1)
  }

  predicate Typed(g: Gen) {
    forall b <- g.blocks :: TypedBlock(b)
  }

  /** A type error, once emitted, stays. */
  lemma TypedBefore(g: Gen, r: Gen)
    requires Extends(g, r) && Typed(r)
    ensures Typed(g)
  {
    forall b <- g.blocks ensures TypedBlock(b) {
      var i :| 0 <= i < |g.blocks| && g.blocks[i] == b;
      assert TypedBlock(r.blocks[i]);
      if i == g.cur {
        assert forall x <- b.instrs :: x in r.blocks[i].instrs;
      }
    }
  }

  lemma TypedEmit(g: Gen, i: Ir.Instr)
    requires g.Open() && Typed(g)
    ensures Typed(g.Emit(i)) <==> Ir.ValidInstr(i)
    ensures Typed(g.Define(i)) <==> Ir.ValidInstr(i)
  {
    var b := g.Emit(i).blocks[g.cur];
    assert b in g.Emit(i).blocks && b in g.Define(i).blocks;
    assert b.instrs[|g.Code()|] == i && i in b.instrs;
    assert g.blocks[g.cur] in g.blocks;
  }

  lemma TypedTerminate(g: Gen, t: Ir.Terminator)
    requires g.Open() && Typed(g)
    ensures Typed(g.Terminate(t)) <==> (t.CondBr? ==> t.cond.Type() == Ir.I1)
  {
    assert g.Terminate(t).blocks[g.cur] in g.Terminate(t).blocks;
    assert g.blocks[g.cur] in g.blocks;
  }

  lemma TypedFork(g: Gen, c: Ir.Operand)
    requires g.Open() && Typed(g)
    ensures Typed(g.Fork(c)) <==> c.Type() == Ir.I1
  {
    var t := g.Terminate(Ir.CondBr(c, |g.blocks|, |g.blocks| + 1));
    TypedTerminate(g, Ir.CondBr(c, |g.blocks|, |g.blocks| + 1));
    assert g.Fork(c).blocks == t.blocks + [Ir.Block([], None), Ir.Block([], None)];
    if Typed(g.Fork(c)) {
      forall b <- t.blocks ensures TypedBlock(b) { assert b in g.Fork(c).blocks; }
    }
  }

  /** Integer code is always fine; a condition gives an `i1` exactly when its leaves compare. */
  lemma {:induction false} ExprTyped(n: Node, g: Gen)
    requires IsLexpr(n, Names(g)) && g.Open() && Typed(g)
    ensures
      var (o, r) := ExprCode(n, g);
      && (IsExpr(n, Names(g)) ==> Typed(r) && o.Type() == Ir.I32)
      && (RelationalCond(n) ==> Typed(r) && o.Type() == Ir.I1)
      && (!RelationalCond(n) && Typed(r) ==> o.Type() == Ir.I32)
    decreases n, 1
  {
    match n
    case Value(_) =>
    case Decl(_, name) => TypedEmit(g, Ir.Load(g.next, g.named[name]));
    case Operand(left, op, right) =>
      if op == StdIn {
        TypedEmit(g, Ir.CallScan(g.next));
      } else if op == Not {
        var (b, g1) := ExprCode(right, g);
        ExprTyped(right, g);
        var r := g1.Define(Ir.Not(g1.next, b));
        if Typed(r) { TypedBefore(g1, r); }
        if Typed(g1) { TypedEmit(g1, Ir.Not(g1.next, b)); }
      } else {
        BinaryTyped(n, g);
      }
  }

  lemma BinaryKind(n: Node, names: set<string>)
    requires n.Operand? && n.op != StdIn && n.op != Not && IsLexpr(n, names)
    ensures IsExpr(n, names) <==> IsArith(n.op)
    ensures IsArith(n.op) || IsRelop(n.op) ==>
              IsExpr(n.left, names) && IsExpr(n.right, names) && (RelationalCond(n) <==> IsRelop(n.op))
    ensures !IsArith(n.op) && !IsRelop(n.op) ==>
              (n.op == And || n.op == Or) && (RelationalCond(n) <==> RelationalCond(n.left) && RelationalCond(n.right))
  {
  }

  lemma {:induction false} BinaryTyped(n: Node, g: Gen)
    requires n.Operand? && n.op != StdIn && n.op != Not
    requires IsLexpr(n, Names(g)) && g.Open() && Typed(g)
    ensures
      var (o, r) := ExprCode(n, g);
      && (IsExpr(n, Names(g)) ==> Typed(r) && o.Type() == Ir.I32)
      && (RelationalCond(n) ==> Typed(r) && o.Type() == Ir.I1)
      && (!RelationalCond(n) && Typed(r) ==> o.Type() == Ir.I32)
    decreases n, 0
  {
    hide ExprCode, IsLexpr, IsExpr, RelationalCond, Typed, Extends;
    BinaryShape(n, g);
    BinaryKind(n, Names(g));
    var (a, g1) := ExprCode(n.left, g);
    var (b, g2) := ExprCode(n.right, g1);
    var i := Ir.Alu(g2.next, Select(n.op), a, b);
    var r := g2.Define(i);
    ExprTyped(n.left, g);
    ExtendsDefine(g2, i);
    if Typed(r) {
      TypedBefore(g2, r);
      TypedBefore(g1, g2);
    }
    if Typed(g1) { ExprTyped(n.right, g1); }
    if Typed(g2) { TypedEmit(g2, i); }
  }

  lemma {:induction false} StmTyped(n: Node, g: Gen)
    requires IsStm(n, Names(g)) && g.Open() && Typed(g)
    ensures Typed(StmCode(n, g)) <==> Relational(n)
    decreases n, 1
  {
    match n
    case Scope(branches) => ScopeTyped(branches, g);
    case Operand(left, op, right) =>
      var g1 := if op == Assign then ExprCode(left, g).1 else g;
      if op == Assign { ExprTyped(left, g); }
      ExprTyped(right, g1);
      var (v, g2) := ExprCode(right, g1);
      TypedEmit(g2, if op == Assign then Ir.Store(v, g2.named[left.name]) else Ir.CallPrint(v));
    case If(cond, body) =>
      var (c, g1) := ExprCode(cond, g);
      var f := g1.Fork(c);
      var g2 := StmCode(body, f);
      var r := g2.Terminate(Ir.Br(|g1.blocks| + 1));
      assert StmCode(n, g).blocks == r.blocks;
      ExprTyped(cond, g);
      if Typed(g1) {
        TypedFork(g1, c);
        if Typed(f) { StmTyped(body, f); }
        if Typed(g2) { TypedTerminate(g2, Ir.Br(|g1.blocks| + 1)); }
      }
      if Typed(r) {
        TypedBefore(g, StmCode(n, g));
        UnTerminate(g2, Ir.Br(|g1.blocks| + 1));
        TypedBefore(f, g2);
        UnFork(g1, c);
      }
    case While(cond, body) =>
      WhileTyped(n, g);
  }

  lemma UnTerminate(g: Gen, t: Ir.Terminator)
    requires g.Open() && Typed(g.Terminate(t))
    ensures Typed(g) && (t.CondBr? ==> t.cond.Type() == Ir.I1)
  {
    var r := g.Terminate(t);
    assert r.blocks[g.cur] in r.blocks;
    forall b <- g.blocks ensures TypedBlock(b) {
      var i :| 0 <= i < |g.blocks| && g.blocks[i] == b;
      assert r.blocks[i] in r.blocks;
    }
  }

  lemma UnFork(g: Gen, c: Ir.Operand)
    requires g.Open() && Typed(g.Fork(c))
    ensures Typed(g) && c.Type() == Ir.I1
  {
    var t := g.Terminate(Ir.CondBr(c, |g.blocks|, |g.blocks| + 1));
    forall b <- t.blocks ensures TypedBlock(b) { assert b in g.Fork(c).blocks; }
    UnTerminate(g, Ir.CondBr(c, |g.blocks|, |g.blocks| + 1));
  }

  lemma {:induction false} WhileTyped(n: Node, g: Gen)
    requires n.While? && IsStm(n, Names(g)) && g.Open() && Typed(g)
    ensures Typed(StmCode(n, g)) <==> Relational(n)
    decreases n, 0
  {
    var (c, g1) := ExprCode(n.cond, g);
    var f := g1.Fork(c);
    ForkOpen(g1, c);
    var g2 := StmCode(n.body, f);
    var (c2, g3) := ExprCode(n.cond, g2);
    var t := Ir.CondBr(c2, |g1.blocks|, |g1.blocks| + 1);
    assert StmCode(n, g).blocks == g3.Terminate(t).blocks;
    ExprTyped(n.cond, g);
    if Relational(n) {
      TypedFork(g1, c);
      StmTyped(n.body, f);
      ExprTyped(n.cond, g2);
      TypedTerminate(g3, t);
    }
    if Typed(g3.Terminate(t)) {
      UnTerminate(g3, t);
      TypedBefore(g2, g3);
      TypedBefore(f, g2);
      UnFork(g1, c);
      StmTyped(n.body, f);
    }
  }

  lemma {:induction false} ScopeTyped(branches: seq<Node>, g: Gen)
    requires (forall b <- branches :: IsStm(b, Names(g))) && g.Open() && Typed(g)
    ensures Typed(ScopeCode(branches, g)) <==> (forall b <- branches :: Relational(b))
    decreases branches, 0
  {
    if branches != [] {
      var g1 := StmCode(branches[0], g);
      var r := ScopeCode(branches[1..], g1);
      StmTyped(branches[0], g);
      if Typed(r) { TypedBefore(g1, r); }
      if Typed(g1) { ScopeTyped(branches[1..], g1); }
      assert branches == [branches[0]] + branches[1..];
    }
  }
}
