/** The code generator as the object it is: blocks that grow, an insertion point that moves and
    a map from names to stack slots. */
module ParaclCodegen {
  import opened Base
  import opened ParaclTree
  import opened ParaclCodegenSpec
  import opened ParaclSource
  import opened ParaclProgram
  import Ir = ParaclIr

  class CodeGen {
    var blocks: seq<Ir.Block>
    var insertAt: nat
    var nextReg: nat
    var slots: nat
    var namedValues: map<string, nat>

    /** The state as the specification sees it. */
    ghost function Model(): Gen
      reads this
    {
      Gen(blocks, insertAt, nextReg, namedValues)
    }

    /** `StartFunction`: one empty block, and the insertion point in it. */
    constructor StartFunction()
      ensures Model() == AfterParse(Start) && slots == 0
    {
      blocks := [Ir.Block([], None)];
      insertAt, nextReg, slots := 0, 0, 0;
      namedValues := map[];
    }

    /** A stack slot at the top of the entry block; `namedValues` now means this one. */
    method AddDecl(x: string, ghost env: Env)
      requires Model() == AfterParse(env) && slots == env.decls && x !in env.vis
      modifies this
      ensures Model() == AfterParse(env.Access(x)) && slots == env.Access(x).decls
    {
      blocks := blocks[0 := blocks[0].(instrs := [Ir.Alloca(slots)] + blocks[0].instrs)];
      namedValues := namedValues[x := slots];
      slots := slots + 1;
    }

    method Emit(i: Ir.Instr)
      requires Model().Open()
      modifies this
      ensures Model() == old(Model()).Emit(i) && slots == old(slots)
    {
      var b := blocks[insertAt];
      blocks := blocks[insertAt := b.(instrs := b.instrs + [i])];
    }

    /** An instruction with a result, which goes to the next register. */
    method Define(i: Ir.Instr)
      requires Model().Open()
      modifies this
      ensures Model() == old(Model()).Define(i) && slots == old(slots)
    {
      Emit(i);
      nextReg := nextReg + 1;
    }

    method Terminate(t: Ir.Terminator)
      requires Model().Open()
      modifies this
      ensures Model() == old(Model()).Terminate(t) && slots == old(slots)
    {
      blocks := blocks[insertAt := blocks[insertAt].(term := Some(t))];
    }

    method AddDeclRead(x: string) returns (v: Ir.Operand)
      requires x in namedValues && Model().Open()
      modifies this
      ensures v == Ir.Reg(Ir.I32, old(nextReg)) && slots == old(slots)
      ensures Model() == old(Model()).Define(Ir.Load(old(nextReg), old(namedValues[x])))
    {
      v := Ir.Reg(Ir.I32, nextReg);
      Define(Ir.Load(nextReg, namedValues[x]));
    }

    method AddDeclWrite(x: string, rhs: Ir.Operand)
      requires x in namedValues && Model().Open()
      modifies this
      ensures Model() == old(Model()).Emit(Ir.Store(rhs, old(namedValues[x]))) && slots == old(slots)
    {
      Emit(Ir.Store(rhs, namedValues[x]));
    }

    /** Two new blocks and a conditional branch to them; code goes on in the first. */
    method Fork(cond: Ir.Operand) returns (first: nat, merge: nat)
      requires Model().Open()
      modifies this
      ensures Model() == old(Model()).Fork(cond) && slots == old(slots)
      ensures first == old(|blocks|) && merge == first + 1
    {
      first, merge := |blocks|, |blocks| + 1;
      Terminate(Ir.CondBr(cond, first, merge));
      blocks := blocks + [Ir.Block([], None), Ir.Block([], None)];
      insertAt := first;
    }

    method StartIf(cond: Ir.Operand) returns (merge: nat)
      requires Model().Open()
      modifies this
      ensures Model() == old(Model()).Fork(cond) && merge == old(|blocks|) + 1 && slots == old(slots)
    {
      var thenBlock;
      thenBlock, merge := Fork(cond);
    }

    method EndIf(merge: nat)
      requires Model().Open()
      modifies this
      ensures Model() == ParaclCodegenSpec.EndIf(old(Model()), merge) && slots == old(slots)
    {
      Terminate(Ir.Br(merge));
      insertAt := merge;
    }

    method StartWhile(cond: Ir.Operand) returns (body: nat, merge: nat)
      requires Model().Open()
      modifies this
      ensures Model() == old(Model()).Fork(cond) && slots == old(slots)
      ensures body == old(|blocks|) && merge == body + 1
    {
      body, merge := Fork(cond);
    }

    method EndWhile(cond: Ir.Operand, body: nat, merge: nat)
      requires Model().Open()
      modifies this
      ensures Model() == ParaclCodegenSpec.EndWhile(old(Model()), cond, body, merge) && slots == old(slots)
    {
      Terminate(Ir.CondBr(cond, body, merge));
      insertAt := merge;
    }

    method EndCurrentFunction()
      requires Model().Open()
      modifies this
      ensures Model() == old(Model()).Terminate(Ir.RetVoid)
    {
      Terminate(Ir.RetVoid);
    }

    /** The instruction for a two-operand operator. */
    method AddBinary(op: Operation, left: Option<Ir.Operand>, b: Ir.Operand) returns (v: Ir.Operand)
      requires Model().Open() && (IsArith(op) || IsRelop(op) || op == And || op == Or)
      requires left.None? ==> op == Plus || op == Minus
      modifies this
      ensures slots == old(slots)
      ensures
        var a := if left.Some? then left.value else Ir.ConstInt(0);
        && v == Ir.Reg(ResultType(Select(op), a), old(nextReg))
        && Model() == old(Model()).Define(Ir.Alu(old(nextReg), Select(op), a, b))
    {
      // a missing left operand of + or - is the constant 0
      var a := if left.Some? then left.value else Ir.ConstInt(0);
      var alu;
      match op {
        case Plus => alu := Ir.Add;
        case Minus => alu := Ir.Sub;
        case Mul => alu := Ir.Mul;
        case Div => alu := Ir.SDiv;
        case Mod => alu := Ir.SRem;
        case And => alu := Ir.And;
        case Or => alu := Ir.Or;
        case Greater => alu := Ir.ICmp(Greater);
        case Less => alu := Ir.ICmp(Less);
        case GreaterEq => alu := Ir.ICmp(GreaterEq);
        case LessEq => alu := Ir.ICmp(LessEq);
        case Equal => alu := Ir.ICmp(Equal);
        case NotEqual => alu := Ir.ICmp(NotEqual);
      }
      v := Ir.Reg(if alu.ICmp? then Ir.I1 else a.Type(), nextReg);
      Define(Ir.Alu(nextReg, alu, a, b));
    }

    /** `codegen` of the nodes that have a value. */
    method CodegenExpr(n: Node) returns (v: Ir.Operand)
      requires Model().Open() && IsLexpr(n, namedValues.Keys)
      modifies this
      ensures (v, Model()) == ExprCode(n, old(Model())) && slots == old(slots)
      decreases n
    {
      match n
      case Value(val) => v := Ir.ConstInt(val);
      case Decl(_, name) => v := AddDeclRead(name);
      case Operand(left, op, right) =>
        if op == StdIn {
          v := Ir.Reg(Ir.I32, nextReg);
          Define(Ir.CallScan(nextReg));
        } else {
          OperandKinds(n, namedValues.Keys);
          if op == Not {
            var b := CodegenExpr(right);
            v := Ir.Reg(b.Type(), nextReg);
            Define(Ir.Not(nextReg, b));
          } else {
            BinaryShape(n, Model());
            var a := CodegenExpr(left);
            var b := CodegenExpr(right);
            v := AddBinary(op, Some(a), b);
          }
        }
    }

    /** `codegen` of statements and scopes. */
    method CodegenStm(n: Node)
      requires Model().Open() && IsStm(n, namedValues.Keys)
      modifies this
      ensures Model() == StmCode(n, old(Model())) && slots == old(slots)
      decreases n, 1
    {
      match n
      case Scope(branches) => CodegenScope(branches);
      case Operand(_, _, _) => CodegenOperand(n);
      case If(_, _) => CodegenIf(n);
      case While(_, _) => CodegenWhile(n);
    }

    /** An assignment or a print. */
    method CodegenOperand(n: Node)
      requires n.Operand? && Model().Open() && IsStm(n, namedValues.Keys)
      modifies this
      ensures Model() == StmCode(n, old(Model())) && slots == old(slots)
    {
      ConsumeCode(n, Model());
      if n.op == Assign {
        var unused := CodegenExpr(n.left);
        var v := CodegenExpr(n.right);
        AddDeclWrite(n.left.name, v);
      } else {
        var v := CodegenExpr(n.right);
        Emit(Ir.CallPrint(v));
      }
    }

    method CodegenIf(n: Node)
      requires n.If? && Model().Open() && IsStm(n, namedValues.Keys)
      modifies this
      ensures Model() == StmCode(n, old(Model())) && slots == old(slots)
      decreases n, 0
    {
      IfCode(n, Model());
      var c := CodegenExpr(n.cond);
      var merge := StartIf(c);
      CodegenStm(n.body);
      EndIf(merge);
    }

    /** The condition is generated twice: before the loop and at the end of its body. */
    method CodegenWhile(n: Node)
      requires n.While? && Model().Open() && IsStm(n, namedValues.Keys)
      modifies this
      ensures Model() == StmCode(n, old(Model())) && slots == old(slots)
      decreases n, 0
    {
      WhileCode(n, Model());
      var c := CodegenExpr(n.cond);
      var start, merge := StartWhile(c);
      CodegenStm(n.body);
      var again := CodegenExpr(n.cond);
      EndWhile(again, start, merge);
    }

    method CodegenScope(branches: seq<Node>)
      requires Model().Open() && forall b <- branches :: IsStm(b, namedValues.Keys)
      modifies this
      ensures Model() == ScopeCode(branches, old(Model())) && slots == old(slots)
      decreases branches, 0
    {
      if branches != [] {
        CodegenStm(branches[0]);
        CodegenScope(branches[1..]);
      }
    }
  }
}
