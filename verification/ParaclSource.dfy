/** ParaCL programs as the grammar derives them, and the tree the parser actions build. */
module ParaclSource {
  import opened Base
  import opened ParaclTree

  type ArithOp = op: Operation | IsArith(op) witness Plus
  type RelOp = op: Operation | IsRelop(op) witness Less

  datatype Expr =
    | Num(n: int)
    | Name(x: string)
    | Input
    | Arith(l: Expr, op: ArithOp, r: Expr)
    | Negate(e: Expr)

  datatype Logic =
    | Plain(e: Expr)
    | Comparison(lhs: Expr, rel: RelOp, rhs: Expr)
    | Either(l: Logic, r: Logic)
    | Both(l: Logic, r: Logic)
    | Negation(c: Logic)

  datatype Stm =
    | Assignment(x: string, e: Expr)
    | IfStm(c: Logic, body: Stm)
    | WhileStm(c: Logic, body: Stm)
    | Output(e: Expr)
    | Block(stms: seq<Stm>)

  predicate LogicRelational(l: Logic) {
    match l
    case Plain(_) => false
    case Comparison(_, _, _) => true
    case Either(a, b) => LogicRelational(a) && LogicRelational(b)
    case Both(a, b) => LogicRelational(a) && LogicRelational(b)
    case Negation(a) => LogicRelational(a)
  }

  /** Every leaf of every condition is a comparison. */
  predicate AllRelational(s: Stm) {
    match s
    case IfStm(c, body) => LogicRelational(c) && AllRelational(body)
    case WhileStm(c, body) => LogicRelational(c) && AllRelational(body)
    case Block(stms) => forall b <- stms :: AllRelational(b)
    case _ => true
  }

  predicate Reads(e: Expr, x: string) {
    match e
    case Name(y) => x == y
    case Arith(l, _, r) => Reads(l, x) || Reads(r, x)
    case Negate(a) => Reads(a, x)
    case _ => false
  }

  /** What the parser knows at some point of the program: the Decl each visible name stands
      for, the newest Decl of each name (one stack slot was made for each Decl, and
      `NamedValues_` keeps the last), and how many there are. */
  datatype Env = Env(vis: map<string, nat>, named: map<string, nat>, decls: nat) {
    /** `Scope::access`: the visible Decl, or a new one in the current scope. */
    function Access(x: string): Env {
      if x in vis then this else Env(vis[x := decls], named[x := decls], decls + 1)
    }

    /** Back to the scope `outer` after a nested one is closed. */
    function Leave(outer: Env): Env {
      this.(vis := outer.vis)
    }
  }

  const Start := Env(map[], map[], 0)

  /** None stands for "Using undeclared variable", which ends the compilation. */
  function ExprTree(e: Expr, env: Env): Option<Node> {
    match e
    case Num(n) => Some(Value(n))
    case Name(x) => if x in env.vis then Some(Decl(env.vis[x], x)) else None
    case Input => Some(Operand(Null, StdIn, Null))
    case Arith(l, op, r) =>
      var a :- ExprTree(l, env);
      var b :- ExprTree(r, env);
      Some(Operand(a, op, b))
    case Negate(a) =>
      var t :- ExprTree(a, env);
      Some(Operand(Value(0), Minus, t))
  }

  function LogicTree(l: Logic, env: Env): Option<Node> {
    match l
    case Plain(e) => ExprTree(e, env)
    case Comparison(lhs, rel, rhs) =>
      var a :- ExprTree(lhs, env);
      var b :- ExprTree(rhs, env);
      Some(Operand(a, rel, b))
    case Either(x, y) =>
      var a :- LogicTree(x, env);
      var b :- LogicTree(y, env);
      Some(Operand(a, Or, b))
    case Both(x, y) =>
      var a :- LogicTree(x, env);
      var b :- LogicTree(y, env);
      Some(Operand(a, And, b))
    case Negation(x) =>
      var a :- LogicTree(x, env);
      Some(Operand(Null, Not, a))
  }

  function StmTree(s: Stm, env: Env): Option<(Node, Env)>
    decreases s, 1
  {
    match s
    case Assignment(x, e) =>
      // the left-hand name is reduced first, so it is declared when the right side is read
      var env1 := env.Access(x);
      var t :- ExprTree(e, env1);
      Some((Operand(Decl(env1.vis[x], x), Assign, t), env1))
    case Output(e) =>
      var t :- ExprTree(e, env);
      Some((Operand(Null, StdOut, t), env))
    case IfStm(c, body) =>
      var cond :- LogicTree(c, env);
      var (b, env1) :- StmTree(body, env);
      Some((If(cond, Scope([b])), env1.Leave(env)))
    case WhileStm(c, body) =>
      var cond :- LogicTree(c, env);
      var (b, env1) :- StmTree(body, env);
      Some((While(cond, Scope([b])), env1.Leave(env)))
    case Block(stms) =>
      var (ts, env1) :- StmsTree(stms, env);
      Some((Scope(ts), env1.Leave(env)))
  }

  function StmsTree(stms: seq<Stm>, env: Env): Option<(seq<Node>, Env)>
    decreases stms, 0
  {
    if stms == [] then Some(([], env)) else
    var (t, env1) :- StmTree(stms[0], env);
    var (ts, env2) :- StmsTree(stms[1..], env1);
    Some(([t] + ts, env2))
  }

  // ----- what the parser maintains -----

  predicate Injective(m: map<string, nat>) {
    forall x, y :: x in m && y in m && m[x] == m[y] ==> x == y
  }

  predicate EnvOk(env: Env) {
    && env.vis.Keys <= env.named.Keys
    && Injective(env.vis) && Injective(env.named)
    && (forall x <- env.vis.Keys :: env.vis[x] < env.decls)
    && (forall x <- env.named.Keys :: env.named[x] < env.decls)
  }

  /** Later in the same scope: nothing visible is lost or rebound. */
  predicate Grows(env: Env, env1: Env) {
    && env.decls <= env1.decls && env.named.Keys <= env1.named.Keys
    && forall x <- env.vis.Keys :: x in env1.vis && env1.vis[x] == env.vis[x]
  }

  lemma {:induction false} ExprIsExpr(e: Expr, env: Env)
    requires EnvOk(env) && ExprTree(e, env).Some?
    ensures IsExpr(ExprTree(e, env).value, env.named.Keys)
  {
    match e
    case Arith(l, op, r) => ExprIsExpr(l, env); ExprIsExpr(r, env);
    case Negate(a) => ExprIsExpr(a, env);
    case _ =>
  }

  lemma {:induction false} LogicIsLexpr(l: Logic, env: Env)
    requires EnvOk(env) && LogicTree(l, env).Some?
    ensures IsLexpr(LogicTree(l, env).value, env.named.Keys)
    ensures LogicRelational(l) <==> RelationalCond(LogicTree(l, env).value)
  {
    match l
    case Plain(e) => ExprIsExpr(e, env);
    case Comparison(a, _, b) => ExprIsExpr(a, env); ExprIsExpr(b, env);
    case Either(a, b) => LogicIsLexpr(a, env); LogicIsLexpr(b, env);
    case Both(a, b) => LogicIsLexpr(a, env); LogicIsLexpr(b, env);
    case Negation(a) => LogicIsLexpr(a, env);
  }

  lemma {:induction false} LexprMono(n: Node, names: set<string>, more: set<string>)
    requires names <= more
    ensures IsExpr(n, names) ==> IsExpr(n, more)
    ensures IsLexpr(n, names) ==> IsLexpr(n, more)
  {
    if n.Operand? {
      LexprMono(n.left, names, more);
      LexprMono(n.right, names, more);
    }
  }

  lemma {:induction false} StmMono(n: Node, names: set<string>, more: set<string>)
    requires names <= more && IsStm(n, names)
    ensures IsStm(n, more)
  {
    match n
    case Scope(branches) =>
      forall b <- branches ensures IsStm(b, more) { StmMono(b, names, more); }
    case Operand(_, _, right) => LexprMono(right, names, more);
    case If(cond, body) => LexprMono(cond, names, more); StmMono(body, names, more);
    case While(cond, body) => LexprMono(cond, names, more); StmMono(body, names, more);
  }

  /** The parser builds statements of the grammar's shape and keeps its tables consistent. */
  lemma {:induction false} StmTreeOk(s: Stm, env: Env)
    requires EnvOk(env) && StmTree(s, env).Some?
    ensures
      var (t, env1) := StmTree(s, env).value;
      && EnvOk(env1) && Grows(env, env1)
      && IsStm(t, env1.named.Keys) && (AllRelational(s) <==> Relational(t))
    decreases s, 1
  {
    match s
    case Assignment(x, e) => ExprIsExpr(e, env.Access(x));
    case Output(e) => ExprIsExpr(e, env);
    case Block(stms) => StmsTreeOk(stms, env);
    case _ =>
      LogicIsLexpr(s.c, env);
      StmTreeOk(s.body, env);
      var (t, env1) := StmTree(s.body, env).value;
      LexprMono(LogicTree(s.c, env).value, env.named.Keys, env1.named.Keys);
      assert Relational(Scope([t])) == Relational(t);
  }

  lemma {:induction false} StmsTreeOk(stms: seq<Stm>, env: Env)
    requires EnvOk(env) && StmsTree(stms, env).Some?
    ensures
      var (ts, env1) := StmsTree(stms, env).value;
      && EnvOk(env1) && Grows(env, env1)
      && (forall t <- ts :: IsStm(t, env1.named.Keys))
      && ((forall s <- stms :: AllRelational(s)) <==> (forall t <- ts :: Relational(t)))
    decreases stms, 0
  {
    if stms != [] {
      var (t, env1) := StmTree(stms[0], env).value;
      StmTreeOk(stms[0], env);
      StmsTreeOk(stms[1..], env1);
      var (ts, env2) := StmsTree(stms[1..], env1).value;
      StmMono(t, env1.named.Keys, env2.named.Keys);
      assert StmsTree(stms, env).value.0 == [t] + ts;
      assert stms == [stms[0]] + stms[1..];
      forall u <- [t] + ts ensures IsStm(u, env2.named.Keys) { assert u == t || u in ts; }
    }
  }
}
