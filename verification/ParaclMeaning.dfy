/** What ParaCL source text means, by visible names and without trees, and that the interpreter gives this meaning. */
module ParaclMeaning {
  import opened Base
  import opened ParaclTree
  import opened ParaclSource
  import opened ParaclScopes
  import opened ParaclAgree
  import opened ParaclUnset
  import opened ParaclProgram

  // ----- expressions -----

  /** Standard input: what is left of it, and whether a read has failed. */
  datatype Stream = Stream(rest: seq<int>, failed: bool)

  datatype Value = Got(n: int, stream: Stream) | Stuck(why: Fault)

  /** `?`: the next number, and 0 for good once there is none. */
  function Taken(s: Stream): Value {
    if s.failed || s.rest == [] then Got(0, s.(failed := true)) else Got(s.rest[0], s.(rest := s.rest[1..]))
  }

  function InInt(n: int, s: Stream): Value {
    if -0x8000_0000 <= n <= 0x7fff_ffff then Got(n, s) else Stuck(Overflow)
  }

  /** The result of an operator on two numbers. */
  ghost predicate Gives(op: ArithOp, a: int, b: int, s: Stream, r: Value) {
    match op
    case Plus => r == InInt(a + b, s)
    case Minus => r == InInt(a - b, s)
    case Mul => r == InInt(a * b, s)
    case Div => if b == 0 then r == Stuck(DivisionByZero) else exists q, m :: Truncates(a, b, q, m) && r == InInt(q, s)
    case Mod =>
      if b == 0 then r == Stuck(BadRemainder)
      else exists q, m :: Truncates(a, b, q, m) && r == if InInt(q, s).Got? then Got(m, s) else Stuck(Overflow)
  }

  function Size(e: Expr): nat {
    match e
    case Arith(l, _, r) => Size(l) + Size(r) + 1
    case Negate(a) => Size(a) + 1
    case _ => 1
  }

  /** The numbers of two operands and the input they leave. */
  datatype Numbers = Two(a: int, b: int, stream: Stream) | Neither(why: Fault)

  /** A value of an expression, given those of the visible names. The interpreter computes a divisor once more before
      the division, to see whether it is zero. */
  ghost predicate Evaluates(e: Expr, view: map<string, int>, s: Stream, r: Value)
    decreases Size(e)
  {
    match e
    case Num(n) => r == Got(n, s)
    case Name(x) => r == if x in view then Got(view[x], s) else Stuck(Uninitialised)
    case Input => r == Taken(s)
    case Negate(a) => exists v :: Evaluates(a, view, s, v) && r == if v.Got? then InInt(-v.n, v.stream) else v
    case Arith(l, op, r1) =>
      if op == Div then
        exists d :: Evaluates(r1, view, s, d) &&
          if d.Stuck? then r == d
          else if d.n == 0 then r == Stuck(DivisionByZero)
          else exists p :: Operands(l, r1, view, d.stream, p) && Combines(op, p, r)
      else
        exists p :: Operands(l, r1, view, s, p) && Combines(op, p, r)
  }

  /** Both operands, in the one order or the other: C++ leaves it open. */
  ghost predicate Operands(l: Expr, r: Expr, view: map<string, int>, s: Stream, p: Numbers)
    decreases Size(l) + Size(r)
  {
    || (exists x, y ::
          Evaluates(l, view, s, x) && (x.Got? ==> Evaluates(r, view, x.stream, y)) && p == Paired(x, y, false))
    || (exists x, y ::
          Evaluates(r, view, s, x) && (x.Got? ==> Evaluates(l, view, x.stream, y)) && p == Paired(x, y, true))
  }

  /** First x, then y; `swapped` says that x is the right operand. */
  function Paired(x: Value, y: Value, swapped: bool): Numbers {
    if x.Stuck? then Neither(x.why)
    else if y.Stuck? then Neither(y.why)
    else if swapped then Two(y.n, x.n, y.stream)
    else Two(x.n, y.n, y.stream)
  }

  ghost predicate Combines(op: ArithOp, p: Numbers, r: Value) {
    if p.Neither? then r == Stuck(p.why) else Gives(op, p.a, p.b, p.stream, r)
  }

  // ----- conditions -----

  datatype Verdict = Holds(b: bool, stream: Stream) | Halts(why: Fault)

  predicate Related(rel: RelOp, a: int, b: int) {
    match rel
    case Less => a < b
    case LessEq => a <= b
    case Greater => a > b
    case GreaterEq => a >= b
    case Equal => a == b
    case NotEqual => a != b
  }

  /** Whether a condition holds. `&&` and `||` go from left to right and stop when the answer is known. */
  ghost predicate Decides(l: Logic, view: map<string, int>, s: Stream, r: Verdict) {
    match l
    case Plain(e) =>
      exists v :: Evaluates(e, view, s, v) && r == if v.Got? then Holds(v.n != 0, v.stream) else Halts(v.why)
    case Comparison(a, rel, b) =>
      exists p :: Operands(a, b, view, s, p) &&
        r == if p.Two? then Holds(Related(rel, p.a, p.b), p.stream) else Halts(p.why)
    case Either(a, b) =>
      exists v :: Decides(a, view, s, v) && if v.Halts? || v.b then r == v else Decides(b, view, v.stream, r)
    case Both(a, b) =>
      exists v :: Decides(a, view, s, v) && if v.Halts? || !v.b then r == v else Decides(b, view, v.stream, r)
    case Negation(a) =>
      exists v :: Decides(a, view, s, v) && r == if v.Holds? then Holds(!v.b, v.stream) else v
  }

  // ----- statements -----

  /** The scopes, innermost last, input and output. */
  datatype World = World(scopes: seq<map<string, int>>, stream: Stream, out: seq<int>) {
    function Push(): World {
      this.(scopes := scopes + [map[]])
    }

    function Pop(): World {
      this.(scopes := if scopes == [] then [] else scopes[..|scopes| - 1])
    }
  }

  /** All visible names; an inner one hides an outer one. */
  function View(scopes: seq<map<string, int>>): map<string, int> {
    if scopes == [] then map[] else View(scopes[..|scopes| - 1]) + scopes[|scopes| - 1]
  }

  /** The innermost scope that has the name gets the value; a new name goes to the innermost scope. */
  function Assigned(scopes: seq<map<string, int>>, x: string, v: int): seq<map<string, int>>
    requires scopes != []
  {
    var outer, inner := scopes[..|scopes| - 1], scopes[|scopes| - 1];
    if x in inner || x !in View(scopes) then outer + [inner[x := v]] else
      assert x in View(outer);
      Assigned(outer, x, v) + [inner]
  }

  /** How a run ends: normally, at a fault, or not within the given number of rounds. */
  datatype Ending = Ends(w: World) | Stops(why: Fault, out: seq<int>) | GoesOn(out: seq<int>) {
    function Left(): Ending {
      if Ends? then Ends(w.Pop()) else this
    }
  }

  /** One run of a statement, each loop nest within `rounds` rounds. */
  ghost predicate Runs(s: Stm, w: World, rounds: nat, e: Ending)
    decreases rounds, s, 1
  {
    match s
    case Assignment(x, ex) =>
      w.scopes != [] &&
      exists v :: Evaluates(ex, View(w.scopes), w.stream, v) &&
        e == if v.Got? then Ends(World(Assigned(w.scopes, x, v.n), v.stream, w.out)) else Stops(v.why, w.out)
    case Output(ex) =>
      exists v :: Evaluates(ex, View(w.scopes), w.stream, v) &&
        e == if v.Got? then Ends(World(w.scopes, v.stream, w.out + [v.n])) else Stops(v.why, w.out)
    case Block(stms) =>
      exists e1 :: RunsAll(stms, w.Push(), rounds, e1) && e == e1.Left()
    case IfStm(c, body) =>
      exists d :: Decides(c, View(w.scopes), w.stream, d) &&
        if d.Halts? then e == Stops(d.why, w.out)
        else if !d.b then e == Ends(w.(stream := d.stream))
        else exists e1 :: Runs(body, w.(stream := d.stream).Push(), rounds, e1) && e == e1.Left()
    case WhileStm(c, body) =>
      if rounds == 0 then e == GoesOn(w.out) else
      exists d :: Decides(c, View(w.scopes), w.stream, d) &&
        if d.Halts? then e == Stops(d.why, w.out)
        else if !d.b then e == Ends(w.(stream := d.stream))
        else
          exists e1 :: Runs(body, w.(stream := d.stream).Push(), rounds - 1, e1) &&
            if e1.Ends? then Runs(s, e1.w.Pop(), rounds - 1, e) else e == e1
  }

  ghost predicate RunsAll(stms: seq<Stm>, w: World, rounds: nat, e: Ending)
    decreases rounds, stms, 0
  {
    if stms == [] then e == Ends(w) else
    exists e1 :: Runs(stms[0], w, rounds, e1) && if e1.Ends? then RunsAll(stms[1..], e1.w, rounds, e) else e == e1
  }

  /** A run of a whole program. */
  ghost predicate Means(prog: seq<Stm>, input: seq<int>, rounds: nat, e: Ending) {
    RunsAll(prog, World([map[]], Stream(input, false), []), rounds, e)
  }

  // ----- the interpreter evaluates as the meaning says -----

  function StreamOf(st: State): Stream {
    Stream(st.input, st.failed)
  }

  function Seen(c: Outcome<int>): Value {
    match c
    case Done(v, st) => Got(v, StreamOf(st))
    case Fails(why, _) => Stuck(why)
    case Timeout(_) => Stuck(Malformed)
  }

  /** Each name that the expression reads has the same value, or none, in both readings. */
  ghost predicate Agrees(e: Expr, env: Env, view: map<string, int>, st: State) {
    forall x | Reads(e, x) :: x in env.vis ==> Alike(env.vis[x], x, view, st)
  }

  predicate Alike(cell: nat, x: string, view: map<string, int>, st: State) {
    if cell in st.store then x in view && view[x] == st.store[cell] else x !in view
  }

  lemma {:induction false} ExprMeans(e: Expr, env: Env, view: map<string, int>, st: State, ord: Order, fuel: nat)
    requires EnvOk(env) && ExprTree(e, env).Some? && Agrees(e, env, view, st)
    ensures Evaluates(e, view, StreamOf(st), Seen(Calc(ExprTree(e, env).value, st, ord, fuel)))
    decreases Size(e), 1
  {
    match e
    case Name(x) => assert Reads(e, x);
    case Arith(_, _, _) => ArithMeans(e, env, view, st, ord, fuel);
    case Negate(_) => NegateMeans(e, env, view, st, ord, fuel);
    case _ =>
  }

  lemma {:induction false} NegateMeans(e: Expr, env: Env, view: map<string, int>, st: State, ord: Order, fuel: nat)
    requires e.Negate? && EnvOk(env) && ExprTree(e, env).Some? && Agrees(e, env, view, st)
    ensures Evaluates(e, view, StreamOf(st), Seen(Calc(ExprTree(e, env).value, st, ord, fuel)))
    decreases Size(e), 0
  {
    hide Calc;
    var t := ExprTree(e.e, env).value;
    var n := Operand(Value(0), Minus, t);
    assert forall x :: Reads(e.e, x) ==> Reads(e, x);
    ExprMeans(e.e, env, view, st, ord, fuel);
    ExprIsExpr(e, env);
    CalcBinary(n, env.named.Keys, st, ord, fuel);
    ZeroFirst(t, st, ord, fuel);
  }

  lemma ZeroFirst(t: Node, st: State, ord: Order, fuel: nat)
    ensures
      var c := Calc(t, st, ord, fuel);
      CalcBoth(Operand(Value(0), Minus, t), st, ord, fuel) ==
        if c.Done? then Done((0, c.val), c.st) else c.PropagateFailure()
  {
  }

  function SeenBoth(c: Outcome<(int, int)>): Numbers {
    match c
    case Done(ab, st) => Two(ab.0, ab.1, StreamOf(st))
    case Fails(why, _) => Neither(why)
    case Timeout(_) => Neither(Malformed)
  }

  lemma GivesApply(op: ArithOp, a: int, b: int, st: State)
    ensures Gives(op, a, b, StreamOf(st), Seen(Apply(op, a, b, st)))
  {
    if b != 0 { DivisionTruncates(a, b, Quot(a, b), Rem(a, b)); }
  }

  lemma CombinesApply(op: ArithOp, c: Outcome<(int, int)>)
    requires !c.Timeout?
    ensures Combines(op, SeenBoth(c), if c.Done? then Seen(Apply(op, c.val.0, c.val.1, c.st)) else Stuck(c.why))
  {
    if c.Done? { GivesApply(op, c.val.0, c.val.1, c.st); }
  }

  lemma {:induction false} ArithMeans(e: Expr, env: Env, view: map<string, int>, st: State, ord: Order, fuel: nat)
    requires e.Arith? && EnvOk(env) && ExprTree(e, env).Some? && Agrees(e, env, view, st)
    ensures Evaluates(e, view, StreamOf(st), Seen(Calc(ExprTree(e, env).value, st, ord, fuel)))
    decreases Size(e), 0
  {
    hide Calc, CalcBoth, Apply, Gives, Operands, IsLexpr, IsExpr, Combines;
    var n := ExprTree(e, env).value;
    var names := env.named.Keys;
    ArithTree(e, env);
    CalcBinary(n, names, st, ord, fuel);
    assert Agrees(e.l, env, view, st) && Agrees(e.r, env, view, st) by { PartsAgree(e, env, view, st); }
    if e.op == Div {
      ExprMeans(e.r, env, view, st, ord, fuel);
      CalcExprState(n.right, names, st, ord, fuel);
      var c := Calc(n.right, st, ord, fuel);
      if c.Done? && c.val != 0 {
        BothMeans(e.l, e.r, n, env, view, c.st, ord, fuel);
        CombinesApply(Div, CalcBoth(n, c.st, ord, fuel));
      }
      assert Evaluates(e.r, view, StreamOf(st), Seen(c));
    } else {
      BothMeans(e.l, e.r, n, env, view, st, ord, fuel);
      CombinesApply(e.op, CalcBoth(n, st, ord, fuel));
    }
  }

  lemma ArithTree(e: Expr, env: Env)
    requires e.Arith? && EnvOk(env) && ExprTree(e, env).Some?
    ensures ExprTree(e.l, env).Some? && ExprTree(e.r, env).Some?
    ensures
      var n := ExprTree(e, env).value;
      && n == Operand(ExprTree(e.l, env).value, e.op, ExprTree(e.r, env).value)
      && IsLexpr(n, env.named.Keys) && IsLexpr(n.left, env.named.Keys) && IsLexpr(n.right, env.named.Keys)
  {
    ExprIsExpr(e, env);
  }

  lemma PartsAgree(e: Expr, env: Env, view: map<string, int>, st: State)
    requires e.Arith? && Agrees(e, env, view, st)
    ensures Agrees(e.l, env, view, st) && Agrees(e.r, env, view, st)
  {
    assert forall x :: Reads(e.l, x) || Reads(e.r, x) ==> Reads(e, x);
  }

  lemma {:induction false} BothMeans(
      l: Expr, r: Expr, n: Node, env: Env, view: map<string, int>, st: State, ord: Order, fuel: nat)
    requires EnvOk(env) && n.Operand? && ExprTree(l, env) == Some(n.left) && ExprTree(r, env) == Some(n.right)
    requires Agrees(l, env, view, st) && Agrees(r, env, view, st)
    ensures Operands(l, r, view, StreamOf(st), SeenBoth(CalcBoth(n, st, ord, fuel)))
    ensures !CalcBoth(n, st, ord, fuel).Timeout?
    decreases Size(l) + Size(r), 2
  {
    hide Calc, CalcBoth, Evaluates, ExprTree, IsLexpr, Agrees, SeenBoth, Paired, Operands, EnvOk, InputFree;
    ExprIsLexpr(l, env);
    ExprIsLexpr(r, env);
    var names := env.named.Keys;
    CalcBothState(n, names, st, ord, fuel);
    var one, other := if ord(n, st) then r else l, if ord(n, st) then l else r;
    var first, second := if ord(n, st) then n.right else n.left, if ord(n, st) then n.left else n.right;
    ExprMeans(one, env, view, st, ord, fuel);
    CalcExprState(first, names, st, ord, fuel);
    var c := Calc(first, st, ord, fuel);
    var x := Seen(c);
    var y := x;
    if c.Done? {
      AgreesStill(other, env, view, st, c.st);
      ExprMeans(other, env, view, c.st, ord, fuel);
      CalcExprState(second, names, c.st, ord, fuel);
      y := Seen(Calc(second, c.st, ord, fuel));
    }
    OperandsSeen(one, other, view, StreamOf(st), x, y, ord(n, st));
    SeenPair(n, st, ord, fuel, y);
  }

  lemma ExprIsLexpr(e: Expr, env: Env)
    requires EnvOk(env) && ExprTree(e, env).Some?
    ensures IsLexpr(ExprTree(e, env).value, env.named.Keys)
  {
    ExprIsExpr(e, env);
  }

  lemma AgreesStill(e: Expr, env: Env, view: map<string, int>, st: State, st1: State)
    requires Agrees(e, env, view, st) && st1.store == st.store
    ensures Agrees(e, env, view, st1)
  {
  }

  lemma OperandsSeen(one: Expr, other: Expr, view: map<string, int>, s: Stream, x: Value, y: Value, swapped: bool)
    requires Evaluates(one, view, s, x) && (x.Got? ==> Evaluates(other, view, x.stream, y))
    ensures Operands(if swapped then other else one, if swapped then one else other, view, s, Paired(x, y, swapped))
  {
    hide Evaluates, Paired;
  }

  lemma SeenPair(n: Node, st: State, ord: Order, fuel: nat, y: Value)
    requires n.Operand?
    requires
      var first, second := if ord(n, st) then n.right else n.left, if ord(n, st) then n.left else n.right;
      var c := Calc(first, st, ord, fuel);
      !c.Timeout? && (c.Done? ==> var d := Calc(second, c.st, ord, fuel); !d.Timeout? && y == Seen(d))
    ensures
      var first := if ord(n, st) then n.right else n.left;
      SeenBoth(CalcBoth(n, st, ord, fuel)) == Paired(Seen(Calc(first, st, ord, fuel)), y, ord(n, st))
  {
    hide Calc;
  }

  // ----- conditions -----

  function Judged(c: Outcome<int>): Verdict {
    match c
    case Done(v, st) => Holds(v != 0, StreamOf(st))
    case Fails(why, _) => Halts(why)
    case Timeout(_) => Halts(Malformed)
  }

  ghost predicate AllAlike(env: Env, view: map<string, int>, st: State) {
    forall x <- env.vis.Keys :: Alike(env.vis[x], x, view, st)
  }

  lemma {:induction false} LogicMeans(l: Logic, env: Env, view: map<string, int>, st: State, ord: Order, fuel: nat)
    requires EnvOk(env) && LogicTree(l, env).Some? && AllAlike(env, view, st)
    ensures Decides(l, view, StreamOf(st), Judged(Calc(LogicTree(l, env).value, st, ord, fuel)))
    decreases l, 1
  {
    match l
    case Plain(e) =>
      ExprMeans(e, env, view, st, ord, fuel);
      ExprIsExpr(e, env);
      CalcExprState(ExprTree(e, env).value, env.named.Keys, st, ord, fuel);
    case Comparison(_, _, _) => ComparisonMeans(l, env, view, st, ord, fuel);
    case Negation(a) =>
      LogicMeans(a, env, view, st, ord, fuel);
      LogicIsLexpr(a, env);
      CalcExprState(LogicTree(a, env).value, env.named.Keys, st, ord, fuel);
    case _ => BothSidesMean(l, env, view, st, ord, fuel);
  }

  lemma ComparisonMeans(l: Logic, env: Env, view: map<string, int>, st: State, ord: Order, fuel: nat)
    requires l.Comparison? && EnvOk(env) && LogicTree(l, env).Some? && AllAlike(env, view, st)
    ensures Decides(l, view, StreamOf(st), Judged(Calc(LogicTree(l, env).value, st, ord, fuel)))
  {
    hide Calc, CalcBoth, Operands, IsLexpr, ExprTree;
    var n := LogicTree(l, env).value;
    LogicIsLexpr(l, env);
    CalcBinary(n, env.named.Keys, st, ord, fuel);
    BothMeans(l.lhs, l.rhs, n, env, view, st, ord, fuel);
    var c := CalcBoth(n, st, ord, fuel);
    if c.Done? { RelatedCompare(l.rel, c.val.0, c.val.1, c.st); }
    assert Operands(l.lhs, l.rhs, view, StreamOf(st), SeenBoth(c));
  }

  lemma RelatedCompare(rel: RelOp, a: int, b: int, st: State)
    ensures Judged(Apply(rel, a, b, st)) == Holds(Related(rel, a, b), StreamOf(st))
  {
  }

  lemma {:induction false} BothSidesMean(l: Logic, env: Env, view: map<string, int>, st: State, ord: Order, fuel: nat)
    requires l.Either? || l.Both?
    requires EnvOk(env) && LogicTree(l, env).Some? && AllAlike(env, view, st)
    ensures Decides(l, view, StreamOf(st), Judged(Calc(LogicTree(l, env).value, st, ord, fuel)))
    decreases l, 0
  {
    hide Calc, Decides, LogicTree, IsLexpr, IsExpr, InputFree, EnvOk, AllAlike;
    var n, names := LogicTree(l, env).value, env.named.Keys;
    SidesTree(l, env);
    CalcBinary(n, names, st, ord, fuel);
    LogicMeans(l.l, env, view, st, ord, fuel);
    CalcExprState(n.left, names, st, ord, fuel);
    var c := Calc(n.left, st, ord, fuel);
    if c.Done? && (c.val == 0) != l.Both? {
      AlikeStill(env, view, st, c.st);
      LogicMeans(l.r, env, view, c.st, ord, fuel);
      CalcExprState(n.right, names, c.st, ord, fuel);
    }
    SidesDecide(l, view, StreamOf(st), Judged(c), Judged(Calc(n, st, ord, fuel)));
  }

  lemma SidesTree(l: Logic, env: Env)
    requires l.Either? || l.Both?
    requires EnvOk(env) && LogicTree(l, env).Some?
    ensures LogicTree(l.l, env).Some? && LogicTree(l.r, env).Some?
    ensures
      var n := LogicTree(l, env).value;
      && n == Operand(LogicTree(l.l, env).value, if l.Either? then Or else And, LogicTree(l.r, env).value)
      && IsLexpr(n, env.named.Keys) && IsLexpr(n.left, env.named.Keys) && IsLexpr(n.right, env.named.Keys)
  {
    LogicIsLexpr(l, env);
    LogicIsLexpr(l.l, env);
    LogicIsLexpr(l.r, env);
  }

  lemma SidesDecide(l: Logic, view: map<string, int>, s: Stream, v: Verdict, r: Verdict)
    requires (l.Either? || l.Both?) && Decides(l.l, view, s, v)
    requires if v.Halts? || v.b == l.Either? then r == v else Decides(l.r, view, v.stream, r)
    ensures Decides(l, view, s, r)
  {
  }

  lemma AlikeStill(env: Env, view: map<string, int>, st: State, st1: State)
    requires AllAlike(env, view, st) && st1.store == st.store
    ensures AllAlike(env, view, st1)
  {
  }

  // ----- scopes -----

  /** No name in two scopes. */
  ghost predicate Apart(scopes: seq<map<string, int>>) {
    scopes == [] || (View(scopes[..|scopes| - 1]).Keys !! scopes[|scopes| - 1].Keys && Apart(scopes[..|scopes| - 1]))
  }

  /** Names are added to the innermost scope only. */
  ghost predicate Nested(a: seq<map<string, int>>, b: seq<map<string, int>>) {
    |a| == |b| && forall k: nat | k < |a| :: View(b[..k]).Keys == View(a[..k]).Keys
  }

  lemma InnerView(a: seq<map<string, int>>, m: map<string, int>)
    ensures View(a + [m]) == View(a) + m
    ensures Apart(a + [m]) <==> View(a).Keys !! m.Keys && Apart(a)
  {
    assert (a + [m])[..|a|] == a;
  }

  lemma NestedInner(
      a: seq<map<string, int>>, b: seq<map<string, int>>, m: map<string, int>, m1: map<string, int>)
    requires Nested(a, b) && View(a).Keys == View(b).Keys
    ensures Nested(a + [m], b + [m1])
  {
    var a1, b1 := a + [m], b + [m1];
    forall k: nat | k < |a1| ensures View(b1[..k]).Keys == View(a1[..k]).Keys {
      assert a1[..k] == a[..k] && b1[..k] == b[..k];
      assert k == |a| ==> a[..k] == a && b[..k] == b;
    }
  }

  lemma {:induction false} AssignedView(scopes: seq<map<string, int>>, x: string, v: int)
    requires scopes != [] && Apart(scopes)
    ensures
      var s1 := Assigned(scopes, x, v);
      Apart(s1) && Nested(scopes, s1) && View(s1) == View(scopes)[x := v]
  {
    hide View, Apart, Nested;
    var outer, inner := scopes[..|scopes| - 1], scopes[|scopes| - 1];
    assert scopes == outer + [inner];
    InnerView(outer, inner);
    if x in inner || x !in View(scopes) {
      InnerView(outer, inner[x := v]);
      NestedSelf(outer);
      NestedInner(outer, outer, inner, inner[x := v]);
    } else {
      ViewNone();
      AssignedView(outer, x, v);
      var o1 := Assigned(outer, x, v);
      InnerView(o1, inner);
      NestedInner(outer, o1, inner, inner);
    }
  }

  lemma ViewNone()
    ensures View([]) == map[]
  {
  }

  lemma PushedView(scopes: seq<map<string, int>>)
    requires Apart(scopes)
    ensures Apart(scopes + [map[]]) && View(scopes + [map[]]) == View(scopes)
  {
    InnerView(scopes, map[]);
  }

  /** After a nested scope is left the outer names are there with the values they got in it. */
  lemma PoppedView(scopes: seq<map<string, int>>, s1: seq<map<string, int>>)
    requires Apart(s1) && Nested(scopes + [map[]], s1)
    ensures
      var s2 := s1[..|scopes|];
      && Apart(s2) && Nested(scopes, s2) && View(s2).Keys == View(scopes).Keys <= View(s1).Keys
      && forall x <- View(s2).Keys :: View(s1)[x] == View(s2)[x]
  {
    var s2, more := s1[..|scopes|], scopes + [map[]];
    assert more[..|scopes|] == scopes;
    assert View(s1[..|scopes|]).Keys == View(more[..|scopes|]).Keys;
    forall k: nat | k < |scopes| ensures View(s2[..k]).Keys == View(scopes[..k]).Keys {
      assert s2[..k] == s1[..k] && more[..k] == scopes[..k];
    }
  }

  lemma NestedTrans(a: seq<map<string, int>>, b: seq<map<string, int>>, c: seq<map<string, int>>)
    requires Nested(a, b) && Nested(b, c)
    ensures Nested(a, c)
  {
  }

  // ----- statements -----

  /** The same input and output, and the same value behind each visible name. */
  ghost predicate Pictures(vis: map<string, nat>, w: World, st: State) {
    && w.stream == StreamOf(st) && w.out == st.output
    && w.scopes != [] && Apart(w.scopes) && View(w.scopes).Keys == vis.Keys
    && forall x <- vis.Keys :: vis[x] in st.store && st.store[vis[x]] == View(w.scopes)[x]
  }

  /** The run of the text from `w` that ends in `e` and the run of the tree that ends in `c` are the same. */
  ghost predicate SameEnding(vis: map<string, nat>, sr: set<nat>, w: World, e: Ending, c: Outcome<int>) {
    match c
    case Done(_, st) => e.Ends? && Pictures(vis, e.w, st) && Nested(w.scopes, e.w.scopes) && st.store.Keys !! sr
    case Fails(why, out) => e == Stops(why, out)
    case Timeout(out) => e == GoesOn(out)
  }

  lemma PicturesAlike(env: Env, w: World, st: State)
    requires Pictures(env.vis, w, st)
    ensures AllAlike(env, View(w.scopes), st)
  {
  }

  /** What the names of an expression stand for when its assignment is reached. */
  lemma AssignmentAgrees(x: string, e: Expr, env: Env, sr: set<nat>, w: World, st: State)
    requires EnvOk(env) && ExprTree(e, env.Access(x)).Some? && Pictures(env.vis, w, st) && st.store.Keys !! sr
    requires x !in env.vis ==> (env.decls in sr <==> Reads(e, x))
    ensures Agrees(e, env.Access(x), View(w.scopes), st)
  {
  }

  lemma AccessOk(env: Env, x: string)
    requires EnvOk(env)
    ensures EnvOk(env.Access(x)) && x in env.Access(x).vis
  {
  }

  /** The new value, under the name and in the Decl. */
  lemma AssignmentPictures(x: string, v: int, env: Env, w: World, st: State, stream: Stream, st1: State)
    requires EnvOk(env) && Pictures(env.vis, w, st)
    requires st1.store == st.store && st1.output == st.output && stream == StreamOf(st1)
    ensures
      var env1 := env.Access(x);
      var w1 := World(Assigned(w.scopes, x, v), stream, w.out);
      Pictures(env1.vis, w1, st1.(store := st1.store[env1.vis[x] := v])) && Nested(w.scopes, w1.scopes)
  {
    hide View, Apart, Nested, Assigned;
    AssignedView(w.scopes, x, v);
    assert Assigned(w.scopes, x, v) != [] by { AssignedSize(w.scopes, x, v); }
  }

  lemma {:induction false} AssignedSize(scopes: seq<map<string, int>>, x: string, v: int)
    requires scopes != []
    ensures Assigned(scopes, x, v) != []
  {
  }

  lemma AssignmentMeans(
      x: string, e: Expr, env: Env, sr: set<nat>, w: World, st: State, ord: Order, fuel: nat) returns (r: Ending)
    requires EnvOk(env) && ExprTree(e, env.Access(x)).Some? && Pictures(env.vis, w, st) && st.store.Keys !! sr
    requires x !in env.vis ==> (env.decls in sr <==> Reads(e, x))
    ensures Runs(Assignment(x, e), w, fuel, r)
    ensures
      var env1 := env.Access(x);
      var t := Operand(Decl(env1.vis[x], x), Assign, ExprTree(e, env1).value);
      SameEnding(env1.vis, sr, w, r, Calc(t, st, ord, fuel))
  {
    hide Calc, Evaluates, ExprTree, View, Apart, Nested, Pictures, IsLexpr;
    var env1 := env.Access(x);
    AccessOk(env, x);
    var t := ExprTree(e, env1).value;
    AssignmentAgrees(x, e, env, sr, w, st);
    ExprMeans(e, env1, View(w.scopes), st, ord, fuel);
    ExprIsLexpr(e, env1);
    CalcExprState(t, env1.named.Keys, st, ord, fuel);
    CalcAssign(env1.vis[x], x, t, st, ord, fuel);
    PicturesParts(env, w, st);
    var c := Calc(t, st, ord, fuel);
    var v := Seen(c);
    assert Evaluates(e, View(w.scopes), w.stream, v);
    if c.Done? {
      r := Ends(World(Assigned(w.scopes, x, v.n), v.stream, w.out));
      AssignmentPictures(x, c.val, env, w, st, v.stream, c.st);
      if x !in env.vis && Reads(e, x) { CalcUnset(e, env1, x, st, ord, fuel); }
      CellFree(x, e, env, sr, w, st);
    } else {
      r := Stops(c.why, w.out);
    }
  }

  lemma PicturesParts(env: Env, w: World, st: State)
    requires Pictures(env.vis, w, st)
    ensures w.stream == StreamOf(st) && w.out == st.output && w.scopes != [] && Apart(w.scopes)
    ensures View(w.scopes).Keys == env.vis.Keys
  {
  }

  /** The cell that is written is not one of a declaration that reads itself. */
  lemma CellFree(x: string, e: Expr, env: Env, sr: set<nat>, w: World, st: State)
    requires Pictures(env.vis, w, st) && st.store.Keys !! sr
    requires x !in env.vis ==> (env.decls in sr <==> Reads(e, x))
    ensures x !in env.vis && Reads(e, x) ==> env.decls !in st.store
    ensures x in env.vis || !Reads(e, x) ==> env.Access(x).vis[x] !in sr
  {
  }

  lemma OutputMeans(e: Expr, env: Env, sr: set<nat>, w: World, st: State, ord: Order, fuel: nat) returns (r: Ending)
    requires EnvOk(env) && ExprTree(e, env).Some? && Pictures(env.vis, w, st) && st.store.Keys !! sr
    ensures Runs(Output(e), w, fuel, r)
    ensures SameEnding(env.vis, sr, w, r, Calc(Operand(Null, StdOut, ExprTree(e, env).value), st, ord, fuel))
  {
    hide Calc, Evaluates, ExprTree, IsLexpr;
    var t := ExprTree(e, env).value;
    PicturesAlike(env, w, st);
    ExprMeans(e, env, View(w.scopes), st, ord, fuel);
    ExprIsLexpr(e, env);
    CalcExprState(t, env.named.Keys, st, ord, fuel);
    CalcPrint(t, st, ord, fuel);
    var c := Calc(t, st, ord, fuel);
    var v := Seen(c);
    assert Evaluates(e, View(w.scopes), w.stream, v);
    r := if c.Done? then Ends(World(w.scopes, v.stream, w.out + [v.n])) else Stops(c.why, w.out);
  }

  /** A nested scope is entered: same picture, one more empty scope. */
  lemma PicturesPushed(env: Env, w: World, st: State)
    requires Pictures(env.vis, w, st)
    ensures Pictures(env.vis, w.Push(), st)
  {
    PushedView(w.scopes);
  }

  /** And left: the outer names keep the values they got in it. */
  lemma EndingLeft(env: Env, env1: Env, sr: set<nat>, w: World, e: Ending, c: Outcome<int>)
    requires Grows(env, env1) && w.scopes != [] && View(w.scopes).Keys == env.vis.Keys
    requires SameEnding(env1.vis, sr, w.Push(), e, c)
    ensures SameEnding(env.vis, sr, w, e.Left(), c)
  {
    hide View, Apart, Nested;
    if c.Done? {
      PoppedView(w.scopes, e.w.scopes);
      NestedSize(w.Push().scopes, e.w.scopes);
    }
  }

  lemma NestedSize(a: seq<map<string, int>>, b: seq<map<string, int>>)
    requires Nested(a, b)
    ensures |a| == |b|
  {
  }

  /** Every run of a statement's tree is a run of the statement. */
  lemma {:induction false} StmMeans(s: Stm, env: Env, sr: set<nat>, w: World, st: State, ord: Order, fuel: nat)
    returns (r: Ending)
    requires EnvOk(env) && StmTree(s, env).Some? && Pictures(env.vis, w, st) && st.store.Keys !! sr
    requires Marks(sr, SelfReads(s, env), env.decls, StmTree(s, env).value.1.decls)
    ensures Runs(s, w, fuel, r)
    ensures SameEnding(StmTree(s, env).value.1.vis, sr, w, r, Calc(StmTree(s, env).value.0, st, ord, fuel))
    decreases fuel, s, 1
  {
    hide Pictures, Evaluates, Decides, View, Assigned;
    match s
    case Assignment(x, e) => r := AssignmentMeans(x, e, env, sr, w, st, ord, fuel);
    case Output(e) => r := OutputMeans(e, env, sr, w, st, ord, fuel);
    case Block(stms) =>
      PicturesParts(env, w, st);
      PicturesPushed(env, w, st);
      var (ts, env1) := StmsTree(stms, env).value;
      StmsTreeOk(stms, env);
      var r1 := StmsMean(stms, env, sr, w.Push(), st, ord, fuel);
      CalcScope(ts, st, ord, fuel);
      EndingLeft(env, env1, sr, w, r1, Calc(Scope(ts), st, ord, fuel));
      r := r1.Left();
    case IfStm(_, _) => r := IfMeans(s, env, sr, w, st, ord, fuel);
    case WhileStm(_, _) => r := WhileMeans(s, env, sr, w, st, ord, fuel);
  }

  /** The condition of a branch. */
  lemma ConditionMeans(c: Logic, env: Env, w: World, st: State, ord: Order, fuel: nat) returns (d: Verdict)
    requires EnvOk(env) && LogicTree(c, env).Some? && Pictures(env.vis, w, st)
    ensures Decides(c, View(w.scopes), w.stream, d)
    ensures
      var c1 := Calc(LogicTree(c, env).value, st, ord, fuel);
      && !c1.Timeout? && c1.Printed() == st.output && d == Judged(c1)
      && (c1.Done? ==> c1.st.store == st.store && Pictures(env.vis, w.(stream := d.stream), c1.st))
  {
    hide Calc, Decides, LogicTree, View, Apart;
    PicturesAlike(env, w, st);
    LogicMeans(c, env, View(w.scopes), st, ord, fuel);
    LogicIsLexpr(c, env);
    CalcExprState(LogicTree(c, env).value, env.named.Keys, st, ord, fuel);
    d := Judged(Calc(LogicTree(c, env).value, st, ord, fuel));
  }

  /** The body of a branch, in a scope of its own. */
  lemma {:induction false} BodyMeans(s: Stm, env: Env, sr: set<nat>, w: World, st: State, ord: Order, fuel: nat)
    returns (r: Ending)
    requires EnvOk(env) && StmTree(s, env).Some? && Pictures(env.vis, w, st) && st.store.Keys !! sr
    requires Marks(sr, SelfReads(s, env), env.decls, StmTree(s, env).value.1.decls)
    ensures Runs(s, w.Push(), fuel, r)
    ensures SameEnding(env.vis, sr, w, r.Left(), Calc(Scope([StmTree(s, env).value.0]), st, ord, fuel))
    decreases fuel, s, 2
  {
    hide Pictures, Runs, Calc, View;
    PicturesParts(env, w, st);
    PicturesPushed(env, w, st);
    var (b, env1) := StmTree(s, env).value;
    StmTreeOk(s, env);
    r := StmMeans(s, env, sr, w.Push(), st, ord, fuel);
    CalcOne(b, st, ord, fuel);
    EndingLeft(env, env1, sr, w, r, Calc(Scope([b]), st, ord, fuel));
  }

  lemma {:induction false} IfMeans(s: Stm, env: Env, sr: set<nat>, w: World, st: State, ord: Order, fuel: nat)
    returns (r: Ending)
    requires s.IfStm?
    requires EnvOk(env) && StmTree(s, env).Some? && Pictures(env.vis, w, st) && st.store.Keys !! sr
    requires Marks(sr, SelfReads(s, env), env.decls, StmTree(s, env).value.1.decls)
    ensures Runs(s, w, fuel, r)
    ensures SameEnding(StmTree(s, env).value.1.vis, sr, w, r, Calc(StmTree(s, env).value.0, st, ord, fuel))
    decreases fuel, s, 0
  {
    hide Pictures, Decides, View, Calc, LogicTree, StmTree;
    BranchTree(s, env);
    var (n, _) := StmTree(s, env).value;
    CalcIf(n, st, ord, fuel);
    PicturesParts(env, w, st);
    var d := ConditionMeans(s.c, env, w, st, ord, fuel);
    var c := Calc(n.cond, st, ord, fuel);
    if d.Halts? {
      r := Stops(d.why, w.out);
    } else if !d.b {
      r := Ends(w.(stream := d.stream));
      NestedSelf(w.scopes);
    } else {
      var w1 := w.(stream := d.stream);
      var r1 := BodyMeans(s.body, env, sr, w1, c.st, ord, fuel);
      r := r1.Left();
    }
  }

  lemma NestedSelf(a: seq<map<string, int>>)
    ensures Nested(a, a)
  {
  }

  lemma {:induction false} WhileMeans(s: Stm, env: Env, sr: set<nat>, w: World, st: State, ord: Order, fuel: nat)
    returns (r: Ending)
    requires s.WhileStm?
    requires EnvOk(env) && StmTree(s, env).Some? && Pictures(env.vis, w, st) && st.store.Keys !! sr
    requires Marks(sr, SelfReads(s, env), env.decls, StmTree(s, env).value.1.decls)
    ensures Runs(s, w, fuel, r)
    ensures SameEnding(StmTree(s, env).value.1.vis, sr, w, r, Calc(StmTree(s, env).value.0, st, ord, fuel))
    decreases fuel, s, 0
  {
    hide Pictures, Decides, View, Calc, LogicTree, StmTree, Nested, Runs, SelfReads;
    BranchTree(s, env);
    var (n, _) := StmTree(s, env).value;
    CalcWhile(n, st, ord, fuel);
    PicturesParts(env, w, st);
    if fuel == 0 {
      NoRounds(s, w);
      return GoesOn(w.out);
    }
    var d := ConditionMeans(s.c, env, w, st, ord, fuel);
    var c := Calc(n.cond, st, ord, fuel);
    if d.Halts? {
      r := Stops(d.why, w.out);
      Round(s, w, fuel, d, r, r);
    } else if !d.b {
      r := Ends(w.(stream := d.stream));
      NestedSelf(w.scopes);
      Round(s, w, fuel, d, r, r);
    } else {
      var w1 := w.(stream := d.stream);
      var r1 := BodyMeans(s.body, env, sr, w1, c.st, ord, fuel - 1);
      if r1.Ends? {
        var w2 := r1.w.Pop();
        r := WhileMeans(s, env, sr, w2, Calc(n.body, c.st, ord, fuel - 1).st, ord, fuel - 1);
        if r.Ends? { NestedTrans(w.scopes, w2.scopes, r.w.scopes); }
      } else {
        r := r1;
      }
      Round(s, w, fuel, d, r1, r);
    }
  }

  lemma NoRounds(s: Stm, w: World)
    requires s.WhileStm?
    ensures Runs(s, w, 0, GoesOn(w.out))
  {
  }

  /** One round of a loop, spelled out. */
  lemma Round(s: Stm, w: World, rounds: nat, d: Verdict, e1: Ending, e: Ending)
    requires s.WhileStm? && rounds > 0 && Decides(s.c, View(w.scopes), w.stream, d)
    requires d.Halts? ==> e == Stops(d.why, w.out)
    requires d.Holds? && !d.b ==> e == Ends(w.(stream := d.stream))
    requires d.Holds? && d.b ==>
               && Runs(s.body, w.(stream := d.stream).Push(), rounds - 1, e1)
               && if e1.Ends? then Runs(s, e1.w.Pop(), rounds - 1, e) else e == e1
    ensures Runs(s, w, rounds, e)
  {
  }

  lemma {:induction false} StmsMean(stms: seq<Stm>, env: Env, sr: set<nat>, w: World, st: State, ord: Order, fuel: nat)
    returns (r: Ending)
    requires EnvOk(env) && StmsTree(stms, env).Some? && Pictures(env.vis, w, st) && st.store.Keys !! sr
    requires Marks(sr, SelfReadsAll(stms, env), env.decls, StmsTree(stms, env).value.1.decls)
    ensures RunsAll(stms, w, fuel, r)
    ensures SameEnding(StmsTree(stms, env).value.1.vis, sr, w, r, CalcAll(StmsTree(stms, env).value.0, st, ord, fuel))
    decreases fuel, stms, 0
  {
    hide Pictures, Runs, Calc, StmTree, SelfReads, Nested;
    if stms == [] {
      NestedSelf(w.scopes);
      return Ends(w);
    }
    var (t, env1) := StmTree(stms[0], env).value;
    var (ts, env2) := StmsTree(stms[1..], env1).value;
    assert ([t] + ts)[1..] == ts;
    StmTreeOk(stms[0], env);
    StmsTreeOk(stms[1..], env1);
    SelfReadsRange(stms[0], env);
    SelfReadsAllRange(stms[1..], env1);
    assert SelfReadsAll(stms, env) == SelfReads(stms[0], env) + SelfReadsAll(stms[1..], env1);
    r := StmMeans(stms[0], env, sr, w, st, ord, fuel);
    var c := Calc(t, st, ord, fuel);
    if r.Ends? {
      var w1 := r.w;
      r := StmsMean(stms[1..], env1, sr, w1, c.st, ord, fuel);
      if r.Ends? { NestedTrans(w.scopes, w1.scopes, r.w.scopes); }
    }
  }

  // ----- programs -----

  /** The interpreter gives every accepted program its meaning, whatever the evaluation order, the input and the number
      of rounds: it ends, fails or goes on as a run of the text does, with the same output and the same rest of the
      input. */
  lemma InterpreterMeans(prog: seq<Stm>, input: seq<int>, ord: Order, fuel: nat) returns (r: Ending)
    requires Accepted(prog)
    ensures Means(prog, input, fuel, r)
    ensures
      var c := Interpret(prog, input, ord, fuel);
      && (c.Done? ==> r.Ends? && r.w.out == c.st.output && r.w.stream == Stream(c.st.input, c.st.failed))
      && (c.Fails? ==> r == Stops(c.why, c.out))
      && (c.Timeout? ==> r == GoesOn(c.out))
  {
    StmsTreeOk(prog, Start);
    var w, st := World([map[]], Stream(input, false), []), Initial(input);
    NoNames();
    assert Pictures(Start.vis, w, st) by { assert Start.vis == map[]; }
    r := StmsMean(prog, Start, SelfReadsAll(prog, Start), w, st, ord, fuel);
    if r.Ends? { PicturesAtEnd(StmsTree(prog, Start).value.1, r.w, Interpret(prog, input, ord, fuel).st); }
  }

  lemma NoNames()
    ensures View([map[]]) == map[] && Apart([map[]])
  {
    var none: seq<map<string, int>> := [];
    assert View(none) == map[] && Apart(none) && [map[]][..0] == none;
  }

  lemma PicturesAtEnd(env: Env, w: World, st: State)
    requires Pictures(env.vis, w, st)
    ensures w.out == st.output && w.stream == Stream(st.input, st.failed)
  {
  }
}
