/** The main results about the ParaCL compiler. */
module ParaclTheorems {
  import opened ParaclTree
  import opened ParaclSource
  import opened ParaclCodegenSpec
  import opened ParaclStrict
  import opened ParaclScopes
  import opened ParaclAgree
  import opened ParaclSkips
  import opened ParaclUnset
  import opened ParaclOrder
  import opened ParaclValid
  import opened ParaclProgram
  import Ir = ParaclIr

  predicate AllOrderly(prog: seq<Stm>)
    requires Accepted(prog)
  {
    forall t <- Trees(prog) :: Orderly(t)
  }

  predicate AllOneSided(prog: seq<Stm>)
    requires Accepted(prog)
  {
    forall t <- Trees(prog) :: OneSided(t)
  }

  predicate AllSkipSafe(prog: seq<Stm>)
    requires Accepted(prog)
  {
    forall t <- Trees(prog) :: SkipSafe(t)
  }

  /** The emitted function passes LLVM's rules exactly when every condition compares: blocks
      closed by one terminator each, jumps inside the function, `i1` conditions. */
  lemma ValidIffRelational(prog: seq<Stm>)
    requires Accepted(prog)
    ensures Ir.ValidFunction(Compiled(prog)) <==> forall s <- prog :: AllRelational(s)
  {
    StmsTreeOk(prog, Start);
    var (ts, env) := StmsTree(prog, Start).value;
    var g := AfterParse(env);
    var r := ScopeCode(ts, g);
    var code := Compiled(prog);
    var e := r.Terminate(Ir.RetVoid);
    AllocasValid(env.decls);
    assert Typed(g);
    ScopeTyped(ts, g);
    ScopeSealed(ts, g);
    assert code == e.blocks;
    if Typed(r) {
      TypedTerminate(r, Ir.RetVoid);
      forall b <- code ensures Ir.WellTypedBlock(b, |code|) && b.term.Some? {
        var i :| 0 <= i < |code| && code[i] == b;
        assert i == r.cur || r.blocks[i].term.Some?;
        assert TypedBlock(e.blocks[i]);
      }
    }
    if Ir.ValidFunction(code) {
      forall b <- e.blocks ensures TypedBlock(b) { assert Ir.WellTypedBlock(b, |code|); }
      UnTerminate(r, Ir.RetVoid);
    }
  }

  lemma {:induction false} AllocasValid(n: nat)
    ensures forall i <- Allocas(n) :: Ir.ValidInstr(i)
  {
    if n > 0 { AllocasValid(n - 1); }
  }

  /** A run that returns determines what it printed. */
  lemma ReturnsOnce(prog: seq<Stm>, input: seq<int>, out1: seq<int>, rest1: seq<int>, k1: nat, k2: nat)
    requires Accepted(prog) && ReturnsIn(prog, input, out1, rest1, k1)
    ensures
      var s := Ir.Run(Compiled(prog), Boot(input), k2);
      k2 >= k1 ==> s.Returned? && s.m.output == out1 && s.m.input == rest1
    ensures
      var s := Ir.Run(Compiled(prog), Boot(input), k2);
      !s.Running? ==> s.Returned? && s.m.output == out1 && s.m.input == rest1
  {
    if k1 <= k2 {
      Ir.RunStopped(Compiled(prog), Boot(input), k1, k2);
    } else if !Ir.Run(Compiled(prog), Boot(input), k2).Running? {
      Ir.RunStopped(Compiled(prog), Boot(input), k2, k1);
    }
  }

  ghost predicate StrictEnds(prog: seq<Stm>, input: seq<int>, output: seq<int>, rest: seq<int>, fuel: nat)
    requires Accepted(prog)
  {
    var w := StrictRun(prog, input, fuel);
    w.Done? && w.st.output == output && w.st.input == rest
  }

  /** The generated code means exactly the strict reading of the scoped tree: what it prints, when it
      returns, and (see `Diverges`) when it never does. */
  lemma CodeMeansStrict(prog: seq<Stm>, input: seq<int>, output: seq<int>, rest: seq<int>)
    requires Accepted(prog) && NoSelfReads(prog)
    ensures Returns(prog, input, output, rest) <==> exists fuel: nat :: StrictEnds(prog, input, output, rest, fuel)
  {
    hide Ir.Run, StrictAll, FlattenAll, StmsTree;
    if fuel: nat :| StrictEnds(prog, input, output, rest, fuel) {
      CollapseScopes(prog, input, fuel);
      var k := MachineFollowsFlat(prog, input, fuel);
      assert ReturnsIn(prog, input, output, rest, k);
    }
    if k1: nat :| ReturnsIn(prog, input, output, rest, k1) {
      CollapseScopes(prog, input, k1 + 1);
      var k := MachineFollowsFlat(prog, input, k1 + 1);
      ReturnsOnce(prog, input, output, rest, k1, k);
      assert StrictEnds(prog, input, output, rest, k1 + 1);
    }
  }

  predicate StillRunning(prog: seq<Stm>, input: seq<int>, k: nat)
    requires Accepted(prog)
  {
    Ir.Run(Compiled(prog), Boot(input), k).Running?
  }

  predicate OutOfFuel(prog: seq<Stm>, input: seq<int>, fuel: nat)
    requires Accepted(prog)
  {
    StrictRun(prog, input, fuel).Timeout?
  }

  /** The machine runs forever exactly when the loops of the strict reading never end. */
  lemma Diverges(prog: seq<Stm>, input: seq<int>)
    requires Accepted(prog) && NoSelfReads(prog)
    ensures (forall k: nat :: StillRunning(prog, input, k)) <==> (forall fuel: nat :: OutOfFuel(prog, input, fuel))
  {
    if fuel: nat :| !OutOfFuel(prog, input, fuel) {
      CollapseScopes(prog, input, fuel);
      var k := MachineFollowsFlat(prog, input, fuel);
      assert !StillRunning(prog, input, k);
    }
    if k: nat :| !StillRunning(prog, input, k) {
      CollapseScopes(prog, input, k);
      var k1 := MachineFollowsFlat(prog, input, k);
      if k1 >= k { Ir.RunStopped(Compiled(prog), Boot(input), k, k1); }
      assert !OutOfFuel(prog, input, k);
    }
  }

  lemma InterpretAgrees(prog: seq<Stm>, input: seq<int>, ord: Order, fuel: nat)
    requires Accepted(prog) && AllOrderly(prog)
    ensures SameRun(Interpret(prog, input, ord, fuel), StrictRun(prog, input, fuel))
  {
    StmsTreeOk(prog, Start);
    AgreeScope(Trees(prog), StmsTree(prog, Start).value.1.named.Keys, Initial(input), ord, fuel);
  }

  /** Where the interpreter ends, the strict reading reads no unwritten variable. */
  lemma EndedRunIsSet(prog: seq<Stm>, input: seq<int>, ord: Order, fuel: nat)
    requires Accepted(prog) && AllOrderly(prog)
    requires Interpret(prog, input, ord, fuel).Done?
    ensures NotUnset(StrictRun(prog, input, fuel))
  {
    StmsTreeOk(prog, Start);
    StmsSet(prog, Start, StmsTree(prog, Start).value.1.named.Keys, Initial(input), ord, fuel);
  }

  /** Compilation preserves a terminating run of the interpreter exactly when no operand the
      interpreter skipped is faulty and no `?` found the input empty, that is, when the strict
      reading does not fail. When it fails, the compiled program never returns. */
  lemma CompilerCorrect(prog: seq<Stm>, input: seq<int>, ord: Order, fuel: nat)
    requires Accepted(prog) && AllOrderly(prog)
    requires Interpret(prog, input, ord, fuel).Done?
    ensures
      var c := Interpret(prog, input, ord, fuel);
      Returns(prog, input, c.st.output, c.st.input) <==> !StrictRun(prog, input, fuel).Fails?
    ensures StrictRun(prog, input, fuel).Fails? ==>
              forall output, rest :: !Returns(prog, input, output, rest)
  {
    EndedRunIsSet(prog, input, ord, fuel);
    if StrictRun(prog, input, fuel).Fails? {
      CollapseScopes(prog, input, fuel);
      var k := MachineFollowsFlat(prog, input, fuel);
      forall output, rest ensures !Returns(prog, input, output, rest) {
        if k1: nat :| ReturnsIn(prog, input, output, rest, k1) {
          ReturnsOnce(prog, input, output, rest, k1, k);
        }
      }
    } else {
      CompilerForward(prog, input, ord, fuel);
    }
  }

  /** The forward half needs no condition on declarations. */
  lemma CompilerForward(prog: seq<Stm>, input: seq<int>, ord: Order, fuel: nat)
    requires Accepted(prog) && AllOrderly(prog)
    requires Interpret(prog, input, ord, fuel).Done? && !StrictRun(prog, input, fuel).Fails?
    ensures
      var c := Interpret(prog, input, ord, fuel);
      Returns(prog, input, c.st.output, c.st.input)
  {
    InterpretAgrees(prog, input, ord, fuel);
    CollapseScopes(prog, input, fuel);
    var c := Interpret(prog, input, ord, fuel);
    var k := MachineFollowsFlat(prog, input, fuel);
    assert ReturnsIn(prog, input, c.st.output, c.st.input, k);
  }

  ghost predicate InterpretEnds(
    prog: seq<Stm>, input: seq<int>, ord: Order, output: seq<int>, rest: seq<int>, fuel: nat)
    requires Accepted(prog)
  {
    var c := Interpret(prog, input, ord, fuel);
    c.Overflows() || (c.Done? && c.st.output == output && c.st.input == rest)
  }

  /** Whatever the compiled program prints on its way to a return, the interpreter prints too,
      unless it overflows, which C++ leaves undefined. */
  lemma CompilerBackward(prog: seq<Stm>, input: seq<int>, ord: Order, output: seq<int>, rest: seq<int>)
    requires Accepted(prog) && AllOrderly(prog) && NoSelfReads(prog)
    requires Returns(prog, input, output, rest)
    ensures exists fuel: nat :: InterpretEnds(prog, input, ord, output, rest, fuel)
  {
    CodeMeansStrict(prog, input, output, rest);
    var fuel: nat :| StrictEnds(prog, input, output, rest, fuel);
    InterpretAgrees(prog, input, ord, fuel);
    assert InterpretEnds(prog, input, ord, output, rest, fuel);
  }

  /** A condition one can read off the program: if conditions compare, the operands of && and ||
      that may be skipped do not divide, and the interpreter found all the input it asked for, the
      compiled program prints the same and stops. */
  lemma CompilerCorrectStatically(prog: seq<Stm>, input: seq<int>, ord: Order, fuel: nat)
    requires Accepted(prog) && AllOrderly(prog) && AllSkipSafe(prog)
    requires forall s <- prog :: AllRelational(s)
    requires
      var c := Interpret(prog, input, ord, fuel);
      c.Done? && !c.st.failed
    ensures
      var c := Interpret(prog, input, ord, fuel);
      Returns(prog, input, c.st.output, c.st.input)
  {
    StmsTreeOk(prog, Start);
    ScopeOk(Trees(prog), StmsTree(prog, Start).value.1.named.Keys, Initial(input), ord, fuel);
    EndedRunIsSet(prog, input, ord, fuel);
    CompilerForward(prog, input, ord, fuel);
  }

  /** The compiled program runs forever, and the interpreter never overflows, exactly when the
      interpreter runs forever and meets no fault on the way that only the compiled program has. */
  lemma DivergeTogether(prog: seq<Stm>, input: seq<int>, ord: Order)
    requires Accepted(prog) && AllOrderly(prog) && NoSelfReads(prog)
    ensures
      (forall k: nat :: StillRunning(prog, input, k)) &&
      (forall fuel: nat :: !Interpret(prog, input, ord, fuel).Overflows())
      <==>
      (forall fuel: nat :: Interpret(prog, input, ord, fuel).Timeout?) &&
      (forall fuel: nat :: !StrictRun(prog, input, fuel).Fails?)
  {
    Diverges(prog, input);
    forall fuel: nat
      ensures SameRun(Interpret(prog, input, ord, fuel), StrictRun(prog, input, fuel))
      ensures OutOfFuel(prog, input, fuel) <==> StrictRun(prog, input, fuel).Timeout?
    {
      InterpretAgrees(prog, input, ord, fuel);
    }
  }

  /** The machine, some time, has printed just what the strict reading prints with `fuel`, and has
      stopped or made as many steps. */
  lemma MachinePrints(prog: seq<Stm>, input: seq<int>, fuel: nat) returns (k: nat)
    requires Accepted(prog) && (NoSelfReads(prog) || !StrictRun(prog, input, fuel).Fails?)
    ensures
      var s := Ir.Run(Compiled(prog), Boot(input), k);
      Ir.Printed(s) == StrictRun(prog, input, fuel).Printed() && (k >= fuel || !s.Running?)
  {
    CollapseScopes(prog, input, fuel);
    k := MachineFollowsFlat(prog, input, fuel);
  }

  /** What the machine prints in `k` steps, whether or not it ever ends, the interpreter prints
      too, in the same order, unless it overflows. */
  lemma MachineOutputIsInterpreted(prog: seq<Stm>, input: seq<int>, ord: Order, k: nat)
    requires Accepted(prog) && AllOrderly(prog) && NoSelfReads(prog)
    ensures
      var c := Interpret(prog, input, ord, k);
      c.Overflows() || Ir.Printed(Ir.Run(Compiled(prog), Boot(input), k)) <= c.Printed()
  {
    InterpretAgrees(prog, input, ord, k);
    var k1 := MachinePrints(prog, input, k);
    if k <= k1 {
      Ir.RunPrints(Compiled(prog), Boot(input), k, k1);
    } else {
      Ir.RunStopped(Compiled(prog), Boot(input), k1, k);
    }
  }

  /** And what the interpreter prints with some fuel, whether or not it ever ends, the machine
      prints, unless it meets a fault that the interpreter skips. */
  lemma InterpretedOutputIsCompiled(prog: seq<Stm>, input: seq<int>, ord: Order, fuel: nat) returns (k: nat)
    requires Accepted(prog) && AllOrderly(prog) && !StrictRun(prog, input, fuel).Fails?
    ensures
      var c, s := Interpret(prog, input, ord, fuel), Ir.Run(Compiled(prog), Boot(input), k);
      if c.Overflows() then c.Printed() <= Ir.Printed(s) else c.Printed() == Ir.Printed(s)
  {
    InterpretAgrees(prog, input, ord, fuel);
    k := MachinePrints(prog, input, fuel);
  }

  /** With `?` on one side at most, no choice of evaluation order shows: not in the result, not in what is printed
      before a fault, not in what is printed by a run that goes on for ever. Only the fault itself may be another. */
  lemma OrderInvisible(prog: seq<Stm>, input: seq<int>, ord1: Order, ord2: Order, fuel: nat)
    requires Accepted(prog) && AllOneSided(prog)
    ensures
      var c1, c2 := Interpret(prog, input, ord1, fuel), Interpret(prog, input, ord2, fuel);
      || (c1.Done? && c1 == c2)
      || (c1.Fails? && c2.Fails? && c1.out == c2.out)
      || (c1.Timeout? && c1 == c2)
  {
    StmsTreeOk(prog, Start);
    StmsSame(Trees(prog), Slots(prog).Keys, Initial(input), ord1, ord2, fuel);
  }
}
