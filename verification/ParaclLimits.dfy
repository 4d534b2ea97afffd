/** Programs on which interpreter and compiled code part, one for each condition that the main results put on
    operands, declarations, conditions and input. */
module ParaclLimits {
  import opened Base
  import opened ParaclTree
  import opened ParaclSource
  import opened ParaclStrict
  import opened ParaclScopes
  import opened ParaclAgree
  import opened ParaclOrder
  import opened ParaclSkips
  import opened ParaclCodegenSpec
  import Ir = ParaclIr
  import opened ParaclProgram
  import opened ParaclTheorems

  // ----- running a program by hand, one statement at a time -----

  lemma TreeOf(stms: seq<Stm>, env: ParaclSource.Env)
    requires stms != [] && StmTree(stms[0], env).Some?
    requires StmsTree(stms[1..], StmTree(stms[0], env).value.1).Some?
    ensures
      var (t, env1) := StmTree(stms[0], env).value;
      var (ts, env2) := StmsTree(stms[1..], env1).value;
      && StmsTree(stms, env) == Some(([t] + ts, env2))
      && SelfReadsAll(stms, env) == SelfReads(stms[0], env) + SelfReadsAll(stms[1..], env1)
  {
  }

  lemma TreeOfTwo(
      stms: seq<Stm>, env: ParaclSource.Env, t0: Node, env1: ParaclSource.Env, t1: Node, env2: ParaclSource.Env)
    requires |stms| == 2
    requires StmTree(stms[0], env) == Some((t0, env1)) && StmTree(stms[1], env1) == Some((t1, env2))
    ensures StmsTree(stms, env) == Some(([t0, t1], env2))
    ensures SelfReadsAll(stms, env) == SelfReads(stms[0], env) + SelfReads(stms[1], env1)
  {
    assert StmsTree([], env2) == Some(([], env2)) && SelfReadsAll([], env2) == {};
    assert stms[1..][1..] == [];
    TreeOf(stms[1..], env1);
    TreeOf(stms, env);
    assert [t1] + [] == [t1] && [t0] + [t1] == [t0, t1];
  }

  lemma CalcTwo(t0: Node, t1: Node, st: State, ord: Order, fuel: nat)
    ensures
      CalcAll([t0, t1], st, ord, fuel) ==
        var c := Calc(t0, st, ord, fuel);
        if !c.Done? then c else
        var d := Calc(t1, c.st, ord, fuel);
        if d.Done? then Done(0, d.st) else d
  {
    assert [t0, t1][1..] == [t1] && [t1][1..] == [];
    var c := Calc(t0, st, ord, fuel);
    if c.Done? {
      var d := Calc(t1, c.st, ord, fuel);
      assert d.Done? ==> CalcAll([], d.st, ord, fuel) == Done(0, d.st);
    }
  }

  lemma StrictTwo(t0: Node, t1: Node, st: State, fuel: nat)
    ensures
      var w := StrictAll([t0, t1], st, fuel);
      var c := Strict(t0, st, fuel);
      if !c.Done? then w == c else
      var d := Strict(t1, c.st, fuel);
      if d.Done? then w.Done? && w.st == d.st else w == d
  {
    assert [t0, t1][1..] == [t1] && [t1][1..] == [];
    var c := Strict(t0, st, fuel);
    if c.Done? {
      var d := Strict(t1, c.st, fuel);
      if d.Done? { assert StrictAll([], d.st, fuel).st == d.st; }
    }
  }

  // ----- operands that calc skips -----

  /** x = 0; if (x != 0 && 1 / x > 0) print x; */
  const Skipped: seq<Stm> := [
    Assignment("x", Num(0)),
    IfStm(Both(Comparison(Name("x"), NotEqual, Num(0)),
               Comparison(ParaclSource.Arith(Num(1), Div, Name("x")), Greater, Num(0))),
          Output(Name("x")))]

  const X0 := Decl(0, "x")
  const XIsZero := Operand(X0, Assign, Value(0))
  const Quotient := Operand(Value(1), Div, X0)
  const NonZero := Operand(X0, NotEqual, Value(0))
  const Guarded := If(Operand(NonZero, And, Operand(Quotient, Greater, Value(0))), Scope([Operand(Null, StdOut, X0)]))
  const OneX := ParaclSource.Env(map["x" := 0], map["x" := 0], 1)

  lemma GuardTree()
    ensures LogicTree(Skipped[1].c, OneX) == Some(Guarded.cond)
  {
    var q := ParaclSource.Arith(Num(1), Div, Name("x"));
    assert ExprTree(q, OneX) == Some(Quotient);
    assert LogicTree(Comparison(q, Greater, Num(0)), OneX) == Some(Operand(Quotient, Greater, Value(0)));
  }

  lemma GuardOrderly()
    ensures Orderly(XIsZero) && Orderly(Guarded)
  {
    assert InputFree(Quotient) && InputFree(NonZero);
  }

  lemma SkippedTree()
    ensures StmsTree(Skipped, Start) == Some(([XIsZero, Guarded], OneX)) && SelfReadsAll(Skipped, Start) == {}
    ensures Orderly(XIsZero) && Orderly(Guarded)
  {
    GuardTree();
    GuardOrderly();
    hide LogicTree, Orderly;
    assert StmTree(Skipped[1], OneX) == Some((Guarded, OneX));
    TreeOfTwo(Skipped, Start, XIsZero, OneX, Guarded, OneX);
  }

  lemma SkippedStrict(st: State)
    requires st.store == map[0 := 0]
    ensures StrictValue(Guarded.cond, st).Fails?
  {
    assert StrictExpr(Quotient, st).Fails?;
    BinaryStrict(Operand(Quotient, Greater, Value(0)), st);
    assert StrictExpr(NonZero, st) == Done(Some(0), st);
  }

  lemma SkippedCalc(ord: Order, st: State)
    requires st.store == map[0 := 0]
    ensures Calc(Guarded.cond, st, ord, 0) == Done(0, st)
  {
    assert CalcBoth(NonZero, st, ord, 0) == Done((0, 0), st);
    assert Calc(NonZero, st, ord, 0) == Done(0, st);
  }

  lemma SkippedRuns(ord: Order, st: State)
    requires st.store == map[0 := 0]
    ensures Calc(Guarded, st, ord, 0) == Done(0, st) && Strict(Guarded, st, 0).Fails?
  {
    hide Calc, Strict, StrictValue;
    SkippedCalc(ord, st);
    SkippedStrict(st);
    CalcIf(Guarded, st, ord, 0);
    IfStrict(Guarded, st, 0);
  }

  /** calc skips the division and ends; the generated code divides and never returns. */
  lemma ShortCircuitShows(ord: Order)
    ensures Accepted(Skipped) && AllOrderly(Skipped) && NoSelfReads(Skipped)
    ensures Interpret(Skipped, [], ord, 0).Done? && Interpret(Skipped, [], ord, 0).st.output == []
    ensures forall output, rest :: !Returns(Skipped, [], output, rest)
  {
    SkippedTree();
    SkippedRuns(ord, State(map[0 := 0], [], [], false));
    CalcTwo(XIsZero, Guarded, Initial([]), ord, 0);
    StrictTwo(XIsZero, Guarded, Initial([]), 0);
    CompilerCorrect(Skipped, [], ord, 0);
  }

  // ----- input that has run out -----

  /** x = ?; print x; */
  const Echo: seq<Stm> := [Assignment("x", Input), Output(Name("x"))]

  /** On empty input the interpreter reads zero and prints it; the compiled program exits. */
  lemma EmptyInputShows(ord: Order)
    ensures Accepted(Echo) && AllOrderly(Echo) && NoSelfReads(Echo)
    ensures Interpret(Echo, [], ord, 0).Done? && Interpret(Echo, [], ord, 0).st.output == [0]
    ensures forall output, rest :: !Returns(Echo, [], output, rest)
  {
    var x := Decl(0, "x");
    var t0, t1 := Operand(x, Assign, Operand(Null, StdIn, Null)), Operand(Null, StdOut, x);
    var env := ParaclSource.Env(map["x" := 0], map["x" := 0], 1);
    TreeOfTwo(Echo, Start, t0, env, t1, env);
    CalcTwo(t0, t1, Initial([]), ord, 0);
    assert Strict(t0, Initial([]), 0).Fails?;
    StrictTwo(t0, t1, Initial([]), 0);
    CompilerCorrect(Echo, [], ord, 0);
  }

  // ----- a declaration that reads itself -----

  /** if (0 == 0) x = 7; { x = x; print x; } */
  const Stale: seq<Stm> := [
    IfStm(Comparison(Num(0), Equal, Num(0)), Assignment("x", Num(7))),
    Block([Assignment("x", Name("x")), Output(Name("x"))])]

  const Zeros := Operand(Value(0), Equal, Value(0))
  const X1 := Decl(1, "x")
  const First := If(Zeros, Scope([Operand(X0, Assign, Value(7))]))
  const FirstFlat := If(Zeros, Scope([Operand(X1, Assign, Value(7))]))
  const Copy := Operand(X1, Assign, X1)
  const Show := Operand(Null, StdOut, X1)
  const Second := Scope([Copy, Show])

  lemma StaleTree()
    ensures StmsTree(Stale, Start) == Some(([First, Second], ParaclSource.Env(map[], map["x" := 1], 2)))
    ensures 1 in SelfReadsAll(Stale, Start)
  {
    var env1 := ParaclSource.Env(map[], map["x" := 0], 1);
    var env2 := ParaclSource.Env(map["x" := 1], map["x" := 1], 2);
    assert StmTree(Stale[0].body, Start) == Some((Operand(X0, Assign, Value(7)), OneX));
    assert StmTree(Stale[0], Start) == Some((First, env1));
    assert env1.Access("x") == env2;
    TreeOfTwo(Stale[1].stms, env1, Copy, env2, Show, env2);
    TreeOfTwo(Stale, Start, First, env1, Second, env2.Leave(env1));
    assert 1 in SelfReads(Stale[1].stms[0], env1);
    assert 1 in SelfReads(Stale[1], env1);
  }

  /** Two constants compared, in both readings. */
  lemma ConstantsCompare(n: Node, a: int, b: int, st: State, ord: Order, fuel: nat)
    requires n == Operand(Value(a), Equal, Value(b))
    ensures Calc(n, st, ord, fuel) == Done(Bit(a == b), st) && StrictValue(n, st) == Done(Bit(a == b), st)
  {
    assert CalcBoth(n, st, ord, fuel) == Done((a, b), st);
    BinaryStrict(n, st);
  }

  /** A constant assigned, in both readings. */
  lemma ConstantAssigned(n: Node, cell: nat, x: string, v: int, st: State, ord: Order, fuel: nat)
    requires n == Operand(Decl(cell, x), Assign, Value(v))
    ensures Calc(n, st, ord, fuel) == Done(v, st.(store := st.store[cell := v]))
    ensures Strict(n, st, fuel) == Done((), st.(store := st.store[cell := v]))
  {
  }

  lemma FirstCalc(ord: Order)
    ensures Calc(First, Initial([]), ord, 0) == Done(0, State(map[0 := 7], [], [], false))
  {
    hide Calc, Strict, StrictValue;
    var st := Initial([]);
    var a := Operand(X0, Assign, Value(7));
    ConstantsCompare(Zeros, 0, 0, st, ord, 0);
    ConstantAssigned(a, 0, "x", 7, st, ord, 0);
    CalcOne(a, st, ord, 0);
    CalcIf(First, st, ord, 0);
  }

  lemma CopyCalc(ord: Order, st: State)
    requires 1 !in st.store
    ensures Calc(Copy, st, ord, 0) == Fails(Uninitialised, st.output)
  {
  }

  lemma StaleCalc(ord: Order)
    ensures CalcAll([First, Second], Initial([]), ord, 0) == Fails(Uninitialised, [])
  {
    hide Calc;
    var st := State(map[0 := 7], [], [], false);
    FirstCalc(ord);
    CopyCalc(ord, st);
    CalcTwo(Copy, Show, st, ord, 0);
    CalcScope([Copy, Show], st, ord, 0);
    CalcTwo(First, Second, Initial([]), ord, 0);
  }

  lemma StaleFlatten()
    ensures FlattenAll([First, Second], map["x" := 1]) == [FirstFlat, Second]
  {
    var m := map["x" := 1];
    BodyScope(Operand(X0, Assign, Value(7)), m, Initial([]), 0);
    assert Flatten(First, m) == FirstFlat;
    FlattenTwo(Copy, Show, m);
    FlattenTwo(First, Second, m);
  }

  lemma FirstFlatRuns()
    ensures var w := Strict(FirstFlat, Initial([]), 0); w.Done? && w.st == State(map[1 := 7], [], [], false)
  {
    hide Calc, Strict, StrictValue;
    var st, ord := Initial([]), (_, _) => false;
    var a := Operand(X1, Assign, Value(7));
    ConstantsCompare(Zeros, 0, 0, st, ord, 0);
    ConstantAssigned(a, 1, "x", 7, st, ord, 0);
    BodyScope(a, map[], st, 0);
    IfStrict(FirstFlat, st, 0);
  }

  lemma SecondRuns()
    ensures var w := Strict(Second, State(map[1 := 7], [], [], false), 0);
            w.Done? && w.st == State(map[1 := 7], [], [7], false)
  {
    var st := State(map[1 := 7], [], [], false);
    assert StrictValue(X1, st) == Done(7, st);
    StrictTwo(Copy, Show, st, 0);
  }

  lemma StaleStrict()
    ensures
      var w := StrictAll([FirstFlat, Second], Initial([]), 0);
      w.Done? && w.st.output == [7] && w.st.input == []
  {
    hide Strict, StrictAll;
    FirstFlatRuns();
    SecondRuns();
    StrictTwo(FirstFlat, Second, Initial([]), 0);
  }

  /** The interpreter reads an unset Decl, which is undefined; the shared slot still holds the
      value of the other x, and the compiled program prints it. */
  lemma SelfReadShows(ord: Order)
    ensures Accepted(Stale) && !NoSelfReads(Stale)
    ensures Interpret(Stale, [], ord, 0) == Fails(Uninitialised, [])
    ensures Returns(Stale, [], [7], [])
  {
    StaleTree();
    StaleCalc(ord);
    StaleFlatten();
    StaleStrict();
    var k := MachineFollowsFlat(Stale, [], 0);
    assert ReturnsIn(Stale, [], [7], [], k);
  }

  lemma FlattenTwo(a: Node, b: Node, m: map<string, nat>)
    ensures FlattenAll([a, b], m) == [Flatten(a, m), Flatten(b, m)]
  {
    assert [a, b][1..] == [b] && [b][1..] == [] && FlattenAll([], m) == [];
    assert FlattenAll([b], m) == [Flatten(b, m)];
  }

  // ----- two reads in one operator -----

  /** x = 0; print ? - ?; */
  const Difference: seq<Stm> := [Assignment("x", Num(0)), Output(ParaclSource.Arith(Input, Minus, Input))]

  const Scan := Operand(Null, StdIn, Null)
  const Minuend := Operand(Scan, Minus, Scan)
  const Shown := Operand(Null, StdOut, Minuend)

  lemma DifferenceTree()
    ensures StmsTree(Difference, Start) == Some(([XIsZero, Shown], OneX)) && SelfReadsAll(Difference, Start) == {}
    ensures !OneSided(Shown)
  {
    assert StmTree(Difference[1], OneX) == Some((Shown, OneX));
    TreeOfTwo(Difference, Start, XIsZero, OneX, Shown, OneX);
    assert !InputFree(Scan) && !OneSided(Minuend);
  }

  lemma DifferenceRuns(ord: Order, right: bool, st: State)
    requires (forall n, s :: ord(n, s) == right) && st.input == [5, 3] && !st.failed && st.output == []
    ensures var c := Calc(Shown, st, ord, 0); c.Done? && c.st.output == if right then [-2] else [2]
  {
    hide Calc, IsLexpr;
    ScanRuns(ord, st);
    ScanRuns(ord, st.(input := [3]));
    MinuendKind();
    CalcBinary(Minuend, {}, st, ord, 0);
    CalcPrint(Minuend, st, ord, 0);
  }

  lemma ScanRuns(ord: Order, st: State)
    requires st.input != [] && !st.failed
    ensures Calc(Scan, st, ord, 0) == Done(st.input[0], st.(input := st.input[1..]))
  {
  }

  lemma MinuendKind()
    ensures IsLexpr(Minuend, {})
  {
    assert IsExpr(Scan, {});
  }

  /** The two orders a C++ compiler may choose print different numbers. */
  lemma OrderShows(ord: Order, right: bool)
    requires forall n, s :: ord(n, s) == right
    ensures Accepted(Difference) && NoSelfReads(Difference) && !AllOneSided(Difference)
    ensures Interpret(Difference, [5, 3], ord, 0).Done?
            && Interpret(Difference, [5, 3], ord, 0).st.output == if right then [-2] else [2]
  {
    hide OneSided, Calc, CalcAll, StmsTree;
    var st := State(map[0 := 0], [5, 3], [], false);
    FirstAssignment(ord);
    DifferenceRuns(ord, right, st);
    CalcTwo(XIsZero, Shown, Initial([5, 3]), ord, 0);
    DifferenceTree();
    assert Shown in Trees(Difference);
  }

  lemma FirstAssignment(ord: Order)
    ensures Calc(XIsZero, Initial([5, 3]), ord, 0) == Done(0, State(map[0 := 0], [5, 3], [], false))
  {
  }

  lemma StrictPrint(e: Node, st: State)
    ensures Strict(Operand(Null, StdOut, e), st, 0) ==
              var w := StrictValue(e, st);
              if w.Done? then Done((), w.st.(output := w.st.output + [w.val])) else w.PropagateFailure()
  {
  }

  /** Programs that set x to zero and then print an expression. */
  lemma PrintProgram(prog: seq<Stm>, e: Expr, t: Node, input: seq<int>, ord: Order)
    requires prog == [Assignment("x", Num(0)), Output(e)] && ExprTree(e, OneX) == Some(t)
    ensures StmsTree(prog, Start) == Some(([XIsZero, Operand(Null, StdOut, t)], OneX)) && NoSelfReads(prog)
    ensures
      var st := State(map[0 := 0], input, [], false);
      var c, w := Calc(t, st, ord, 0), StrictValue(t, st);
      && (c.Done? ==> Interpret(prog, input, ord, 0) == Done(0, c.st.(output := c.st.output + [c.val])))
      && (!c.Done? ==> Interpret(prog, input, ord, 0) == c)
      && (w.Done? ==> Returns(prog, input, w.st.output + [w.val], w.st.input))
  {
    hide Calc, Strict, StrictValue, CalcAll, StrictAll, ExprTree, Returns;
    var st, t1 := State(map[0 := 0], input, [], false), Operand(Null, StdOut, t);
    assert StmTree(prog[1], OneX) == Some((t1, OneX));
    TreeOfTwo(prog, Start, XIsZero, OneX, t1, OneX) by { XIsZeroTree(); }
    ConstantAssigned(XIsZero, 0, "x", 0, Initial(input), ord, 0);
    CalcTwo(XIsZero, t1, Initial(input), ord, 0);
    StrictTwo(XIsZero, t1, Initial(input), 0);
    CalcPrint(t, st, ord, 0);
    StrictPrint(t, st);
    var w := StrictValue(t, st);
    if w.Done? {
      assert StrictEnds(prog, input, w.st.output + [w.val], w.st.input, 0);
      CodeMeansStrict(prog, input, w.st.output + [w.val], w.st.input);
    }
  }

  lemma XIsZeroTree()
    ensures StmTree(Assignment("x", Num(0)), Start) == Some((XIsZero, OneX))
    ensures SelfReads(Assignment("x", Num(0)), Start) == {}
  {
  }

  // ----- a divisor is computed twice -----

  /** x = 0; print 6 / ?; */
  const Share: seq<Stm> := [Assignment("x", Num(0)), Output(ParaclSource.Arith(Num(6), Div, Input))]
  const Sixth := Operand(Value(6), Div, Scan)

  lemma SixthRuns(st: State, ord: Order)
    requires st.input == [2, 3] && !st.failed
    ensures Calc(Sixth, st, ord, 0) == Done(2, st.(input := []))
    ensures StrictValue(Sixth, st) == Done(3, st.(input := [3]))
  {
    hide Calc, StrictExpr, IsLexpr;
    var st1 := st.(input := [3]);
    ScanRuns(ord, st);
    ScanRuns(ord, st1);
    ConstantRuns(6, st, ord);
    ConstantRuns(6, st1, ord);
    ConstantRuns(6, st.(input := []), ord);
    ScanStrict(st);
    assert st.input[1..] == [3] && [3][1..] == [];
    assert IsLexpr(Sixth, {}) by { SixthKind(); }
    assert CalcBoth(Sixth, st1, ord, 0) == Done((6, 3), st1.(input := []));
    CalcBinary(Sixth, {}, st, ord, 0);
    BinaryStrict(Sixth, st);
  }

  lemma ConstantRuns(a: int, st: State, ord: Order)
    ensures Calc(Value(a), st, ord, 0) == Done(a, st) && StrictExpr(Value(a), st) == Done(Some(a), st)
  {
  }

  lemma ScanStrict(st: State)
    requires st.input != []
    ensures StrictExpr(Scan, st) == Done(Some(st.input[0]), st.(input := st.input[1..]))
  {
  }

  lemma SixthKind()
    ensures IsLexpr(Sixth, {})
  {
    assert IsExpr(Scan, {});
  }

  /** The interpreter reads 2 to see that it is not zero and divides by 3, the next number; the
      generated code divides by 2 and leaves the 3 unread. */
  lemma DivisorShows(ord: Order)
    ensures Accepted(Share) && NoSelfReads(Share) && !AllOrderly(Share)
    ensures Interpret(Share, [2, 3], ord, 0).Done? && Interpret(Share, [2, 3], ord, 0).st.output == [2]
    ensures Returns(Share, [2, 3], [3], [3])
  {
    hide Calc, CalcAll, StrictValue, Returns, Interpret;
    PrintProgram(Share, Share[1].e, Sixth, [2, 3], ord);
    SixthRuns(State(map[0 := 0], [2, 3], [], false), ord);
    assert [] + [2] == [2] && [] + [3] == [3];
    assert !Orderly(Sixth) && Operand(Null, StdOut, Sixth) in Trees(Share);
  }

  // ----- arithmetic that does not fit -----

  /** x = 0; print 2147483647 + 1; */
  const TooBig: seq<Stm> := [Assignment("x", Num(0)), Output(ParaclSource.Arith(Num(2147483647), Plus, Num(1)))]

  lemma SumRuns(n: Node, a: int, b: int, st: State, ord: Order)
    requires n == Operand(Value(a), Plus, Value(b))
    ensures Calc(n, st, ord, 0) == if Fits(a + b) then Done(a + b, st) else Fails(Overflow, st.output)
    ensures StrictValue(n, st) == Done(Wrap(a + b), st)
  {
    hide Calc, StrictExpr;
    ConstantRuns(a, st, ord);
    ConstantRuns(b, st, ord);
    CalcBinary(n, {}, st, ord, 0);
    assert CalcBoth(n, st, ord, 0) == Done((a, b), st);
    BinaryStrict(n, st);
  }

  /** Where `int` overflows, which C++ leaves undefined, the generated code wraps around. */
  lemma OverflowShows(ord: Order)
    ensures Accepted(TooBig) && NoSelfReads(TooBig) && AllOrderly(TooBig)
    ensures Interpret(TooBig, [], ord, 0).Overflows()
    ensures Returns(TooBig, [], [-2147483648], [])
  {
    hide Calc, CalcAll, StrictValue, Returns, Interpret;
    var n := Operand(Value(2147483647), Plus, Value(1));
    PrintProgram(TooBig, TooBig[1].e, n, [], ord);
    SumRuns(n, 2147483647, 1, State(map[0 := 0], [], [], false), ord);
    assert [] + [-2147483648] == [-2147483648];
    assert Orderly(n) && Orderly(XIsZero);
  }

  // ----- a skipped operand that reads input -----

  /** x = 0; { if (x != 0 && ? > 0) print x; print ?; } */
  const SkippedRead: seq<Stm> := [
    Assignment("x", Num(0)),
    Block([IfStm(Both(Comparison(Name("x"), NotEqual, Num(0)), Comparison(Input, Greater, Num(0))), Output(Name("x"))),
           Output(Input)])]

  const Positive := Operand(Scan, Greater, Value(0))
  const GuardedRead := If(Operand(NonZero, And, Positive), Scope([Operand(Null, StdOut, X0)]))
  const PrintScan := Operand(Null, StdOut, Scan)
  const ReadTwice := Scope([GuardedRead, PrintScan])

  lemma SkippedReadTree()
    ensures StmsTree(SkippedRead, Start) == Some(([XIsZero, ReadTwice], OneX)) && SelfReadsAll(SkippedRead, Start) == {}
    ensures !Orderly(ReadTwice) && OneSided(XIsZero) && OneSided(ReadTwice)
  {
    ReadTwiceTree();
    ReadTwiceSides();
    XIsZeroTree();
    hide StmTree, SelfReads, Orderly, OneSided;
    TreeOfTwo(SkippedRead, Start, XIsZero, OneX, ReadTwice, OneX);
  }

  lemma ReadTwiceTree()
    ensures StmTree(SkippedRead[1], OneX) == Some((ReadTwice, OneX)) && SelfReads(SkippedRead[1], OneX) == {}
  {
    var stms := SkippedRead[1].stms;
    GuardedReadTree();
    hide LogicTree;
    assert StmTree(stms[0], OneX) == Some((GuardedRead, OneX));
    assert StmTree(stms[1], OneX) == Some((PrintScan, OneX));
    TreeOfTwo(stms, OneX, GuardedRead, OneX, PrintScan, OneX);
  }

  lemma GuardedReadTree()
    ensures LogicTree(SkippedRead[1].stms[0].c, OneX) == Some(GuardedRead.cond)
  {
    assert LogicTree(Comparison(Input, Greater, Num(0)), OneX) == Some(Positive);
  }

  lemma ReadTwiceSides()
    ensures !Orderly(ReadTwice) && OneSided(XIsZero) && OneSided(ReadTwice)
  {
    assert !InputFree(Positive) && !Orderly(GuardedRead.cond);
    assert GuardedRead in ReadTwice.branches;
    assert OneSided(GuardedRead.cond) && OneSided(GuardedRead.body) && OneSided(PrintScan);
  }

  lemma NonZeroRuns(st: State, ord: Order)
    requires st.store == map[0 := 0]
    ensures Calc(NonZero, st, ord, 0) == Done(0, st) && StrictExpr(NonZero, st) == Done(Some(0), st)
  {
    assert CalcBoth(NonZero, st, ord, 0) == Done((0, 0), st);
  }

  lemma PositiveStrict(st: State)
    requires st.input == [5, 3]
    ensures StrictExpr(Positive, st) == Done(Some(1), st.(input := [3]))
  {
    hide StrictExpr;
    ScanStrict(st);
    ConstantRuns(0, st.(input := [3]), (_, _) => false);
    BinaryStrict(Positive, st);
  }

  lemma AndCalc(a: Node, b: Node, st: State, ord: Order)
    requires Calc(a, st, ord, 0) == Done(0, st)
    ensures Calc(Operand(a, And, b), st, ord, 0) == Done(0, st)
  {
  }

  lemma GuardedReadRuns(st: State, ord: Order)
    requires st.store == map[0 := 0] && st.input == [5, 3]
    ensures Calc(GuardedRead, st, ord, 0) == Done(0, st)
    ensures Strict(GuardedRead, st, 0) == Done((), st.(input := [3]))
  {
    hide Calc, Strict, StrictExpr;
    NonZeroRuns(st, ord);
    AndCalc(NonZero, Positive, st, ord);
    CalcIf(GuardedRead, st, ord, 0);
    PositiveStrict(st);
    BinaryStrict(GuardedRead.cond, st);
    IfStrict(GuardedRead, st, 0);
  }

  lemma StrictScope(branches: seq<Node>, st: State, fuel: nat)
    ensures Strict(Scope(branches), st, fuel) == StrictAll(branches, st, fuel)
  {
  }

  lemma ReadTwiceRuns(st: State, ord: Order)
    requires st == State(map[0 := 0], [5, 3], [], false)
    ensures Calc(ReadTwice, st, ord, 0) == Done(0, st.(input := [3], output := [5]))
    ensures Strict(ReadTwice, st, 0).Done? && Strict(ReadTwice, st, 0).st == st.(input := [], output := [3])
  {
    hide Calc, Strict, StrictExpr, CalcAll, StrictAll;
    var st1 := st.(input := [3]);
    assert st.input[1..] == [3] && [3][1..] == [] && [] + [5] == [5] && [] + [3] == [3];
    GuardedReadRuns(st, ord);
    ScanRuns(ord, st);
    CalcPrint(Scan, st, ord, 0);
    CalcTwo(GuardedRead, PrintScan, st, ord, 0);
    CalcScope([GuardedRead, PrintScan], st, ord, 0);
    ScanStrict(st1);
    StrictPrint(Scan, st1);
    StrictTwo(GuardedRead, PrintScan, st, 0);
    StrictScope([GuardedRead, PrintScan], st, 0);
  }

  /** The interpreter skips the first `?` and prints the 5; the generated code reads it for the condition and prints
      the 3. */
  lemma SkippedReadShows(ord: Order)
    ensures Accepted(SkippedRead) && NoSelfReads(SkippedRead) && AllOneSided(SkippedRead) && !AllOrderly(SkippedRead)
    ensures Interpret(SkippedRead, [5, 3], ord, 0) == Done(0, State(map[0 := 0], [3], [5], false))
    ensures Returns(SkippedRead, [5, 3], [3], [])
  {
    hide Calc, Strict, CalcAll, StrictAll, StmsTree, Returns, Orderly, OneSided;
    var st := State(map[0 := 0], [5, 3], [], false);
    SkippedReadTree();
    ReadTwiceRuns(st, ord);
    ConstantAssigned(XIsZero, 0, "x", 0, Initial([5, 3]), ord, 0);
    CalcTwo(XIsZero, ReadTwice, Initial([5, 3]), ord, 0);
    StrictTwo(XIsZero, ReadTwice, Initial([5, 3]), 0);
    assert ReadTwice in Trees(SkippedRead);
    assert StrictEnds(SkippedRead, [5, 3], [3], [], 0);
    CodeMeansStrict(SkippedRead, [5, 3], [3], []);
  }

  // ----- a condition that is not a comparison -----

  /** x = 0; if (2 && 1) print x; */
  const Untyped: seq<Stm> := [
    Assignment("x", Num(0)), IfStm(Both(Plain(Num(2)), Plain(Num(1))), Output(Name("x")))]

  const TwoAndOne := Operand(Value(2), And, Value(1))
  const UntypedIf := If(TwoAndOne, Scope([Operand(Null, StdOut, X0)]))

  lemma UntypedTree()
    ensures StmsTree(Untyped, Start) == Some(([XIsZero, UntypedIf], OneX)) && SelfReadsAll(Untyped, Start) == {}
    ensures Orderly(XIsZero) && Orderly(UntypedIf) && SkipSafe(XIsZero) && SkipSafe(UntypedIf)
    ensures !AllRelational(Untyped[1])
  {
    XIsZeroTree();
    UntypedOk();
    assert StmTree(Untyped[1], OneX) == Some((UntypedIf, OneX));
    hide StmTree, Orderly, SkipSafe, SelfReads;
    assert SelfReads(Untyped[1], OneX) == {} by { NoNames(); }
    TreeOfTwo(Untyped, Start, XIsZero, OneX, UntypedIf, OneX);
  }

  lemma NoNames()
    ensures SelfReads(Untyped[1], OneX) == {}
  {
  }

  lemma UntypedOk()
    ensures Orderly(XIsZero) && Orderly(UntypedIf) && SkipSafe(XIsZero) && SkipSafe(UntypedIf)
  {
    assert Orderly(TwoAndOne) && SkipSafe(TwoAndOne);
  }

  lemma LeavesRun(st: State, ord: Order)
    requires st.store == map[0 := 0]
    ensures Calc(TwoAndOne, st, ord, 0) == Done(1, st) && Calc(X0, st, ord, 0) == Done(0, st)
  {
  }

  lemma UntypedRuns(st: State, ord: Order)
    requires st.store == map[0 := 0]
    ensures Calc(UntypedIf, st, ord, 0) == Done(0, st.(output := st.output + [0]))
    ensures Strict(UntypedIf, st, 0) == Fails(NotABit, st.output)
  {
    hide Calc, Strict, StrictExpr;
    var p := Operand(Null, StdOut, X0);
    LeavesRun(st, ord);
    CalcPrint(X0, st, ord, 0);
    CalcOne(p, st, ord, 0);
    CalcIf(UntypedIf, st, ord, 0);
    ConstantRuns(2, st, ord);
    ConstantRuns(1, st, ord);
    BinaryStrict(TwoAndOne, st);
    IfStrict(UntypedIf, st, 0);
  }

  /** An `and` of integers: the interpreter takes the branch, while the emitted function is not a valid one. */
  lemma UntypedShows(ord: Order)
    ensures Accepted(Untyped) && NoSelfReads(Untyped) && AllOrderly(Untyped) && AllSkipSafe(Untyped)
    ensures Interpret(Untyped, [], ord, 0) == Done(0, State(map[0 := 0], [], [0], false))
    ensures !Ir.ValidFunction(Compiled(Untyped))
    ensures forall output, rest :: !Returns(Untyped, [], output, rest)
  {
    hide Calc, Strict, CalcAll, StrictAll, StmsTree, Returns, Orderly, SkipSafe, Compiled, AllRelational;
    var st := State(map[0 := 0], [], [], false);
    UntypedTree();
    UntypedRuns(st, ord);
    ConstantAssigned(XIsZero, 0, "x", 0, Initial([]), ord, 0);
    CalcTwo(XIsZero, UntypedIf, Initial([]), ord, 0);
    StrictTwo(XIsZero, UntypedIf, Initial([]), 0);
    assert [] + [0] == [0];
    assert Untyped[1] in Untyped;
    ValidIffRelational(Untyped);
    CompilerCorrect(Untyped, [], ord, 0);
  }
}
