/** A run of the interpreter that ends has read no unwritten variable, so neither does the strict reading of it. */
module ParaclUnset {
  import opened Base
  import opened ParaclTree
  import opened ParaclSource
  import opened ParaclStrict
  import opened ParaclScopes
  import opened ParaclAgree

  /** Every visible variable has been written. */
  ghost predicate AllSet(env: Env, st: State) {
    forall x <- env.vis.Keys :: env.vis[x] in st.store
  }

  /** The strict reading did not stop at an unwritten variable. */
  predicate NotUnset<V>(w: Outcome<V>) {
    w.Fails? ==> w.why != Uninitialised
  }

  // ----- expressions -----

  /** `calc` of an expression that mentions an unwritten variable does not end normally. */
  lemma {:induction false} CalcUnset(e: Expr, env: Env, x: string, st: State, ord: Order, fuel: nat)
    requires EnvOk(env) && ExprTree(e, env).Some? && Reads(e, x) && x in env.vis && env.vis[x] !in st.store
    ensures !Calc(ExprTree(e, env).value, st, ord, fuel).Done?
    decreases e, 0
  {
    var n := ExprTree(e, env).value;
    ExprIsExpr(e, env);
    match e
    case Arith(l, op, r) =>
      if Reads(l, x) {
        CalcUnsetOperand(l, n, true, env, x, st, ord, fuel);
      } else {
        CalcUnsetOperand(r, n, false, env, x, st, ord, fuel);
      }
    case Negate(a) => CalcUnsetOperand(a, n, false, env, x, st, ord, fuel);
    case _ =>
  }

  /** One operand, the left or the right one, mentions it. */
  lemma {:induction false} CalcUnsetOperand(
      part: Expr, n: Node, left: bool, env: Env, x: string, st: State, ord: Order, fuel: nat)
    requires EnvOk(env) && n.Operand? && IsArith(n.op) && IsLexpr(n, env.named.Keys)
    requires ExprTree(part, env) == Some(if left then n.left else n.right)
    requires Reads(part, x) && x in env.vis && env.vis[x] !in st.store
    ensures !Calc(n, st, ord, fuel).Done?
    decreases part, 2
  {
    hide Calc, CalcBoth, ExprTree, IsLexpr, Apply;
    OperandKinds(n, env.named.Keys);
    CalcBinary(n, env.named.Keys, st, ord, fuel);
    var c := Calc(n.right, st, ord, fuel);
    CalcExprState(n.right, env.named.Keys, st, ord, fuel);
    if n.op != Div {
      CalcUnsetBoth(part, n, left, env, x, st, ord, fuel);
    } else if c.Done? {
      CalcUnsetBoth(part, n, left, env, x, c.st, ord, fuel);
    }
  }

  lemma {:induction false} CalcUnsetBoth(
      part: Expr, n: Node, left: bool, env: Env, x: string, st: State, ord: Order, fuel: nat)
    requires EnvOk(env) && n.Operand? && IsLexpr(n.left, env.named.Keys) && IsLexpr(n.right, env.named.Keys)
    requires ExprTree(part, env) == Some(if left then n.left else n.right)
    requires Reads(part, x) && x in env.vis && env.vis[x] !in st.store
    ensures !CalcBoth(n, st, ord, fuel).Done?
    decreases part, 1
  {
    hide Calc, ExprTree, IsLexpr;
    var first, second := if ord(n, st) then n.right else n.left, if ord(n, st) then n.left else n.right;
    var c := Calc(first, st, ord, fuel);
    CalcExprState(first, env.named.Keys, st, ord, fuel);
    if c.Done? {
      CalcUnset(part, env, x, if left == ord(n, st) then c.st else st, ord, fuel);
    }
  }

  /** With every visible variable written, no read of one fails. */
  lemma SetExpr(e: Expr, env: Env, st: State)
    requires ExprTree(e, env).Some? && AllSet(env, st)
    ensures NotUnset(StrictValue(ExprTree(e, env).value, st))
  {
    FlatVisible(e, env, env.vis, st, st);
  }

  lemma SetLogic(l: Logic, env: Env, st: State)
    requires LogicTree(l, env).Some? && AllSet(env, st)
    ensures NotUnset(StrictValue(LogicTree(l, env).value, st))
  {
    FlatLogic(l, env, env.vis, st, st);
  }

  // ----- statements -----

  /** What a statement that `calc` runs to its end leaves of the strict reading. */
  ghost predicate StaysSet(env: Env, w: Outcome<()>) {
    NotUnset(w) && (w.Done? ==> AllSet(env, w.st))
  }

  lemma AssignmentSet(x: string, e: Expr, env: Env, st: State, ord: Order, fuel: nat)
    requires EnvOk(env) && ExprTree(e, env.Access(x)).Some? && AllSet(env, st)
    requires Calc(ExprTree(e, env.Access(x)).value, st, ord, fuel).Done?
    requires EnvOk(env.Access(x))
    ensures
      var env1 := env.Access(x);
      StaysSet(env1, Strict(Operand(Decl(env1.vis[x], x), Assign, ExprTree(e, env1).value), st, fuel))
  {
    hide Strict, StrictExpr, Calc, ExprTree;
    var env1 := env.Access(x);
    var t := ExprTree(e, env1).value;
    FlatOperand(Decl(env1.vis[x], x), Assign, t, map[x := 0], st, st, fuel);
    StrictKeepsStore(t, st);
    if x !in env.vis && env.decls !in st.store {
      if Reads(e, x) { CalcUnset(e, env1, x, st, ord, fuel); }
      forall y | Reads(e, y) ensures y in env.vis { ReadsVisible(e, env1, y); }
      FlatExpr(e, env1, env.vis, env.vis, st, st);
    } else {
      SetExpr(e, env1, st);
    }
  }

  /** Where the interpreter ends, the strict reading meets no unwritten variable, even if a declaration reads
      the variable it declares. */
  lemma {:induction false} StmSet(s: Stm, env: Env, names: set<string>, st: State, ord: Order, fuel: nat)
    requires EnvOk(env) && StmTree(s, env).Some? && AllSet(env, st) && !st.failed
    requires Orderly(StmTree(s, env).value.0) && IsStm(StmTree(s, env).value.0, names)
    requires Calc(StmTree(s, env).value.0, st, ord, fuel).Done?
    ensures StaysSet(StmTree(s, env).value.1, Strict(StmTree(s, env).value.0, st, fuel))
    decreases fuel, s, 1
  {
    match s
    case Assignment(x, e) => AssignmentSet(x, e, env, st, ord, fuel);
    case Output(e) =>
      SetExpr(e, env, st);
      StrictKeepsStore(ExprTree(e, env).value, st);
    case Block(stms) =>
      StmsSet(stms, env, names, st, ord, fuel);
      StmsTreeOk(stms, env);
    case IfStm(_, _) => IfSet(s, env, names, st, ord, fuel);
    case WhileStm(_, _) => WhileSet(s, env, names, st, ord, fuel);
  }

  /** The body of a branch is a scope of one statement. */
  lemma BranchBody(s: Stm, env: Env, names: set<string>)
    requires s.IfStm? || s.WhileStm?
    requires EnvOk(env) && StmTree(s, env).Some?
    requires Orderly(StmTree(s, env).value.0) && IsStm(StmTree(s, env).value.0, names)
    ensures LogicTree(s.c, env).Some? && StmTree(s.body, env).Some?
    ensures
      var (n, out) := StmTree(s, env).value;
      var (b, env1) := StmTree(s.body, env).value;
      && (n.If? <==> s.IfStm?) && (n.While? <==> s.WhileStm?)
      && (n.If? || n.While?) && n.cond == LogicTree(s.c, env).value && n.body == Scope([b])
      && out.vis == env.vis && Grows(env, env1)
      && IsLexpr(n.cond, names) && Orderly(n.cond) && IsStm(b, names) && Orderly(b)
      && IsStm(n.body, names) && Orderly(n.body)
  {
    BranchTree(s, env);
    StmTreeOk(s.body, env);
    var (n, _) := StmTree(s, env).value;
    BranchParts(n, names);
    OrderlyBranch(n);
    assert n.body.branches[0] in n.body.branches;
  }

  lemma {:induction false} IfSet(s: Stm, env: Env, names: set<string>, st: State, ord: Order, fuel: nat)
    requires s.IfStm?
    requires EnvOk(env) && StmTree(s, env).Some? && AllSet(env, st) && !st.failed
    requires Orderly(StmTree(s, env).value.0) && IsStm(StmTree(s, env).value.0, names)
    requires Calc(StmTree(s, env).value.0, st, ord, fuel).Done?
    ensures StaysSet(StmTree(s, env).value.1, Strict(StmTree(s, env).value.0, st, fuel))
    decreases fuel, s, 0
  {
    hide Calc, Strict, StrictExpr, StmTree, LogicTree, IsStm, IsLexpr, Orderly;
    BranchBody(s, env, names);
    var (n, _) := StmTree(s, env).value;
    var (b, _) := StmTree(s.body, env).value;
    SetLogic(s.c, env, st);
    StrictKeepsStore(n.cond, st);
    AgreeValue(n.cond, names, st, ord, fuel);
    CalcIf(n, st, ord, fuel);
    IfStrict(n, st, fuel);
    var w := StrictValue(n.cond, st);
    if w.Done? && w.val != 0 {
      CalcOne(b, w.st, ord, fuel);
      BodyScope(b, map[], w.st, fuel);
      StmSet(s.body, env, names, w.st, ord, fuel);
    }
  }

  lemma {:induction false} WhileSet(s: Stm, env: Env, names: set<string>, st: State, ord: Order, fuel: nat)
    requires s.WhileStm?
    requires EnvOk(env) && StmTree(s, env).Some? && AllSet(env, st) && !st.failed
    requires Orderly(StmTree(s, env).value.0) && IsStm(StmTree(s, env).value.0, names)
    requires Calc(StmTree(s, env).value.0, st, ord, fuel).Done?
    ensures StaysSet(StmTree(s, env).value.1, Strict(StmTree(s, env).value.0, st, fuel))
    decreases fuel, s, 0
  {
    hide Calc, Strict, StrictExpr, StmTree, LogicTree, IsStm, IsLexpr, Orderly;
    BranchBody(s, env, names);
    var (n, _) := StmTree(s, env).value;
    var (b, _) := StmTree(s.body, env).value;
    SetLogic(s.c, env, st);
    StrictKeepsStore(n.cond, st);
    AgreeValue(n.cond, names, st, ord, fuel);
    CalcWhile(n, st, ord, fuel);
    WhileStrict(n, st, fuel);
    var w := StrictValue(n.cond, st);
    if w.Done? && w.val != 0 {
      CalcOne(b, w.st, ord, fuel - 1);
      BodyScope(b, map[], w.st, fuel - 1);
      StmSet(s.body, env, names, w.st, ord, fuel - 1);
      AgreeStm(n.body, names, w.st, ord, fuel - 1);
      var w1 := Strict(n.body, w.st, fuel - 1);
      if w1.Done? { WhileSet(s, env, names, w1.st, ord, fuel - 1); }
    }
  }

  lemma {:induction false} StmsSet(stms: seq<Stm>, env: Env, names: set<string>, st: State, ord: Order, fuel: nat)
    requires EnvOk(env) && StmsTree(stms, env).Some? && AllSet(env, st) && !st.failed
    requires forall t <- StmsTree(stms, env).value.0 :: Orderly(t) && IsStm(t, names)
    requires CalcAll(StmsTree(stms, env).value.0, st, ord, fuel).Done?
    ensures StaysSet(StmsTree(stms, env).value.1, StrictAll(StmsTree(stms, env).value.0, st, fuel))
    decreases fuel, stms, 0
  {
    hide Calc, Strict, StmTree, IsStm, Orderly;
    if stms != [] {
      var (t, env1) := StmTree(stms[0], env).value;
      var (ts, _) := StmsTree(stms[1..], env1).value;
      assert StmsTree(stms, env).value.0 == [t] + ts && ([t] + ts)[1..] == ts;
      StmTreeOk(stms[0], env);
      StmSet(stms[0], env, names, st, ord, fuel);
      AgreeStm(t, names, st, ord, fuel);
      var w := Strict(t, st, fuel);
      if w.Done? { StmsSet(stms[1..], env1, names, w.st, ord, fuel); }
    }
  }
}
