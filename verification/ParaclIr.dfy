/** The fragment of LLVM IR the code generator emits, and the machine that runs it. */
module ParaclIr {
  import opened Base
  import opened ParaclTree

  datatype Ty = I1 | I32

  /** What a `llvm::Value *` used as an operand can be here. */
  datatype Operand = ConstInt(n: int) | Reg(ty: Ty, id: nat) {
    function Type(): Ty {
      if ConstInt? then I32 else ty
    }
  }

  /** Two-operand instructions; comparisons carry their predicate. */
  datatype AluOp = Add | Sub | Mul | SDiv | SRem | And | Or | ICmp(rel: Operation)

  datatype Instr =
    | Alloca(slot: nat)
    | Load(dst: nat, slot: nat)
    | Store(src: Operand, slot: nat)
    | Alu(dst: nat, op: AluOp, a: Operand, b: Operand)
    | Not(dst: nat, a: Operand)
    | CallPrint(a: Operand)
    | CallScan(dst: nat)

  datatype Terminator = CondBr(cond: Operand, yes: nat, no: nat) | Br(target: nat) | RetVoid

  datatype Block = Block(instrs: seq<Instr>, term: Option<Terminator>)

  predicate IsBit(a: int) {
    a == 0 || a == 1
  }

  /** The result of an instruction on defined operands; None is undefined behaviour. `and` and `or` are modelled
      on `i1` values only: on wider ones they work bit by bit, in code that has no valid branch. */
  function Compute(op: AluOp, a: int, b: int): Option<int> {
    match op
    case Add => Some(Wrap(a + b))
    case Sub => Some(Wrap(a - b))
    case Mul => Some(Wrap(a * b))
    case SDiv => if b == 0 || !Fits(Quot(a, b)) then None else Some(Quot(a, b))
    case SRem => if b == 0 || !Fits(Quot(a, b)) then None else Some(Rem(a, b))
    case And => if IsBit(a) && IsBit(b) then Some(Bit(a == 1 && b == 1)) else None
    case Or => if IsBit(a) && IsBit(b) then Some(Bit(a == 1 || b == 1)) else None
    case ICmp(rel) => if IsRelop(rel) then Some(Bit(Compare(rel, a, b))) else None
  }

  /** The three instructions without `nsw` give the one `int` that is equal to the exact result modulo 2^32. */
  lemma ArithmeticWraps(a: int, b: int, r: int)
    ensures Compute(AluOp.Add, a, b) == Some(r) <==> IsReduced(a + b, r)
    ensures Compute(AluOp.Sub, a, b) == Some(r) <==> IsReduced(a - b, r)
    ensures Compute(AluOp.Mul, a, b) == Some(r) <==> IsReduced(a * b, r)
  {
    WrapIsModular(a + b, r);
    WrapIsModular(a - b, r);
    WrapIsModular(a * b, r);
  }

  predicate IsReduced(n: int, r: int) {
    -0x8000_0000 <= r <= 0x7fff_ffff && (n - r) % 0x1_0000_0000 == 0
  }

  /** Division and remainder go together and truncate. */
  lemma DivisionComputes(a: int, b: int, q: int, r: int)
    requires b != 0 && -0x8000_0000 <= Quot(a, b) <= 0x7fff_ffff
    ensures Compute(SDiv, a, b) == Some(q) && Compute(SRem, a, b) == Some(r) <==> Truncates(a, b, q, r)
  {
    DivisionTruncates(a, b, q, r);
  }

  /** A register or a stack slot holds None while its content is undefined. */
  datatype Machine = Machine(
    blk: nat, idx: nat,
    regs: map<nat, Option<int>>, mem: map<nat, Option<int>>,
    input: seq<int>, output: seq<int>)

  datatype Status =
    | Running(m: Machine)
    | Returned(m: Machine)   // the function executed its `ret void`
    | Aborted(out: seq<int>) // undefined behaviour, or exit(1) from __pcl_scan, after printing `out`

  function Read(o: Operand, regs: map<nat, Option<int>>): Option<int> {
    match o
    case ConstInt(n) => Some(n)
    case Reg(_, id) => if id in regs then regs[id] else None
  }

  /** Executes one instruction; the instruction pointer moves on. */
  function Execute(i: Instr, m0: Machine): Status {
    var m := m0.(idx := m0.idx + 1);
    match i
    case Alloca(slot) => Running(m.(mem := m.mem[slot := None]))
    case Load(dst, slot) =>
      if slot in m.mem then Running(m.(regs := m.regs[dst := m.mem[slot]])) else Aborted(m.output)
    case Store(src, slot) =>
      var v := Read(src, m.regs);
      if v.Some? && slot in m.mem then Running(m.(mem := m.mem[slot := v])) else Aborted(m.output)
    case Alu(dst, op, a, b) =>
      var x, y := Read(a, m.regs), Read(b, m.regs);
      if x.None? || y.None? then Aborted(m.output) else
      var r := Compute(op, x.value, y.value);
      if r.Some? then Running(m.(regs := m.regs[dst := r])) else Aborted(m.output)
    case Not(dst, a) =>
      var x := Read(a, m.regs);
      if x.Some? && IsBit(x.value) then Running(m.(regs := m.regs[dst := Some(1 - x.value)])) else Aborted(m.output)
    case CallPrint(a) =>
      var x := Read(a, m.regs);
      if x.Some? then Running(m.(output := m.output + [x.value])) else Aborted(m.output)
    case CallScan(dst) =>
      if m.input == [] then Aborted(m.output)
      else Running(m.(regs := m.regs[dst := Some(m.input[0])], input := m.input[1..]))
  }

  function Jump(target: nat, m: Machine): Status {
    Running(m.(blk := target, idx := 0))
  }

  function Step(code: seq<Block>, m: Machine): Status {
    if m.blk >= |code| || m.idx > |code[m.blk].instrs| then Aborted(m.output)
    else if m.idx < |code[m.blk].instrs| then Execute(code[m.blk].instrs[m.idx], m)
    else
      match code[m.blk].term
      case None => Aborted(m.output)
      case Some(Br(target)) => Jump(target, m)
      case Some(RetVoid) => Returned(m)
      case Some(CondBr(cond, yes, no)) =>
        var c := Read(cond, m.regs);
        if c.None? then Aborted(m.output) else Jump(if c.value != 0 then yes else no, m)
  }

  /** `n` steps from `m`; a machine that has stopped stays stopped. */
  function Run(code: seq<Block>, m: Machine, n: nat): Status
    decreases n
  {
    if n == 0 then Running(m) else
    match Step(code, m)
    case Running(m1) => Run(code, m1, n - 1)
    case Returned(m1) => Returned(m1)
    case Aborted(out) => Aborted(out)
  }

  lemma RunStep(code: seq<Block>, m: Machine, m1: Machine, n: nat)
    requires Step(code, m) == Running(m1)
    ensures Run(code, m, n + 1) == Run(code, m1, n)
  {
  }

  lemma RunNone(code: seq<Block>, m: Machine)
    ensures Run(code, m, 0) == Running(m)
  {
  }

  lemma RunOne(code: seq<Block>, m: Machine)
    ensures Run(code, m, 1) == match Step(code, m) { case Running(m1) => Running(m1) case s => s }
  {
  }

  lemma {:induction false} RunThen(code: seq<Block>, m: Machine, a: nat, m1: Machine, b: nat)
    requires Run(code, m, a) == Running(m1)
    ensures Run(code, m, a + b) == Run(code, m1, b)
    decreases a
  {
    hide Step;
    if a > 0 {
      RunThen(code, Step(code, m).m, a - 1, m1, b);
    }
  }

  /** Once stopped, more steps change nothing. */
  lemma {:induction false} RunStopped(code: seq<Block>, m: Machine, a: nat, b: nat)
    requires a <= b && !Run(code, m, a).Running?
    ensures Run(code, m, b) == Run(code, m, a)
    decreases a
  {
    hide Step;
    if a > 0 && Step(code, m).Running? {
      RunStopped(code, Step(code, m).m, a - 1, b - 1);
    }
  }

  /** What a machine has printed so far. */
  function Printed(s: Status): seq<int> {
    if s.Aborted? then s.out else s.m.output
  }

  lemma StepPrints(code: seq<Block>, m: Machine)
    ensures m.output <= Printed(Step(code, m))
  {
  }

  /** Nothing that was printed is ever taken back. */
  lemma {:induction false} RunPrints(code: seq<Block>, m: Machine, a: nat, b: nat)
    requires a <= b
    ensures m.output <= Printed(Run(code, m, a)) <= Printed(Run(code, m, b))
    decreases b
  {
    hide Step;
    if b > 0 {
      StepPrints(code, m);
      if Step(code, m).Running? {
        if a > 0 {
          RunPrints(code, Step(code, m).m, a - 1, b - 1);
        } else {
          RunPrints(code, Step(code, m).m, 0, b - 1);
        }
      }
    }
  }

  // ----- validity of emitted code -----

  predicate ValidInstr(i: Instr) {
    match i
    case Store(src, _) => src.Type() == I32
    case CallPrint(a) => a.Type() == I32
    case Alu(_, op, a, b) =>
      a.Type() == b.Type() && (!op.And? && !op.Or? ==> a.Type() == I32)
    case _ => true
  }

  predicate ValidTerm(t: Terminator, blocks: nat) {
    match t
    case CondBr(c, yes, no) => c.Type() == I1 && yes < blocks && no < blocks
    case Br(target) => target < blocks
    case RetVoid => true
  }

  /** The type rules the LLVM verifier applies to one block, finished or not. */
  predicate WellTypedBlock(b: Block, blocks: nat) {
    (forall i <- b.instrs :: ValidInstr(i)) && (b.term.Some? ==> ValidTerm(b.term.value, blocks))
  }

  /** A well-formed function body: well typed, one terminator at the end of each block. */
  predicate ValidFunction(code: seq<Block>) {
    forall b <- code :: WellTypedBlock(b, |code|) && b.term.Some?
  }
}
