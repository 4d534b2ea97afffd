/** One stack slot per name is enough: collapsing the scopes changes no value that is read. */
module ParaclScopes {
  import opened Base
  import opened ParaclTree
  import opened ParaclSource
  import opened ParaclStrict

  /** The tree with every variable found under the slot of its name. */
  function Flatten(n: Node, slots: map<string, nat>): Node {
    match n
    case Decl(cell, name) => Decl(if name in slots then slots[name] else cell, name)
    case Operand(left, op, right) => Operand(Flatten(left, slots), op, Flatten(right, slots))
    case Scope(branches) => Scope(FlattenAll(branches, slots))
    case While(cond, body) => While(Flatten(cond, slots), Flatten(body, slots))
    case If(cond, body) => If(Flatten(cond, slots), Flatten(body, slots))
    case _ => n
  }

  function FlattenAll(ns: seq<Node>, slots: map<string, nat>): (r: seq<Node>)
    ensures |r| == |ns|
  {
    if ns == [] then [] else [Flatten(ns[0], slots)] + FlattenAll(ns[1..], slots)
  }

  // ----- declarations that read the variable they declare -----

  /** The Decls whose declaring assignment mentions the variable itself on the right. */
  function SelfReads(s: Stm, env: Env): set<nat>
    decreases s, 1
  {
    match s
    case Assignment(x, e) => if x !in env.vis && Reads(e, x) then {env.decls} else {}
    case IfStm(_, body) => SelfReads(body, env)
    case WhileStm(_, body) => SelfReads(body, env)
    case Block(stms) => SelfReadsAll(stms, env)
    case Output(_) => {}
  }

  function SelfReadsAll(stms: seq<Stm>, env: Env): set<nat>
    decreases stms, 0
  {
    if stms == [] || StmTree(stms[0], env).None? then {}
    else SelfReads(stms[0], env) + SelfReadsAll(stms[1..], StmTree(stms[0], env).value.1)
  }

  lemma {:induction false} SelfReadsRange(s: Stm, env: Env)
    requires EnvOk(env) && StmTree(s, env).Some?
    ensures forall c <- SelfReads(s, env) :: env.decls <= c < StmTree(s, env).value.1.decls
    decreases s, 1
  {
    match s
    case Block(stms) => SelfReadsAllRange(stms, env);
    case IfStm(_, body) => SelfReadsRange(body, env);
    case WhileStm(_, body) => SelfReadsRange(body, env);
    case _ =>
  }

  lemma {:induction false} SelfReadsAllRange(stms: seq<Stm>, env: Env)
    requires EnvOk(env) && StmsTree(stms, env).Some?
    ensures forall c <- SelfReadsAll(stms, env) :: env.decls <= c < StmsTree(stms, env).value.1.decls
    decreases stms, 0
  {
    if stms != [] {
      SelfReadsRange(stms[0], env);
      StmTreeOk(stms[0], env);
      SelfReadsAllRange(stms[1..], StmTree(stms[0], env).value.1);
      StmsTreeOk(stms[1..], StmTree(stms[0], env).value.1);
    }
  }

  // ----- the two stores -----

  /** Both runs see the same input and output, and the same value behind each visible name. */
  ghost predicate Matched(vis: map<string, nat>, slots: map<string, nat>, st: State, flat: State) {
    && st.input == flat.input && st.output == flat.output && st.failed == flat.failed
    && vis.Keys <= slots.Keys
    && forall x <- vis.Keys ::
         vis[x] in st.store && slots[x] in flat.store && st.store[vis[x]] == flat.store[slots[x]]
  }

  /** `sr` are the self-reading Decls of the whole program; here, those between two counters. */
  ghost predicate Marks(sr: set<nat>, here: set<nat>, lo: nat, hi: nat) {
    forall c | lo <= c < hi :: c in sr <==> c in here
  }

  /** The same result in both runs. Only where the scoped run reads an unwritten variable, which takes a
      declaration that reads itself, may the flat run go on. */
  ghost predicate SameFlat(
    vis: map<string, nat>, slots: map<string, nat>, sr: set<nat>, w: Outcome<()>, f: Outcome<()>)
  {
    match w
    case Done(_, st) => f.Done? && Matched(vis, slots, st, f.st) && st.store.Keys !! sr
    case Fails(why, _) => (sr == {} ==> why != Uninitialised) && (why != Uninitialised ==> f == w)
    case Timeout(out) => f == Timeout(out)
  }

  /** The same for a value; the state changes only by what `?` takes from the input. */
  ghost predicate SameFlatValue(
    vis: map<string, nat>, slots: map<string, nat>, w: Outcome<Option<int>>, f: Outcome<Option<int>>)
  {
    match w
    case Done(v, st) => v.Some? && f.Done? && f.val == v && Matched(vis, slots, st, f.st)
    case Fails(why, _) => f == w && why != Uninitialised
    case Timeout(_) => false
  }

  /** Two operands that agree make an operation that agrees. */
  lemma FlatOperands(
      a: Node, op: Operation, b: Node, vis: map<string, nat>, slots: map<string, nat>, st: State, flat: State)
    requires op != StdIn && op != Not
    requires SameFlatValue(vis, slots, StrictExpr(a, st), StrictExpr(Flatten(a, slots), flat))
    requires
      var w, f := StrictExpr(a, st), StrictExpr(Flatten(a, slots), flat);
      w.Done? ==> SameFlatValue(vis, slots, StrictExpr(b, w.st), StrictExpr(Flatten(b, slots), f.st))
    ensures
      var t := Operand(a, op, b);
      SameFlatValue(vis, slots, StrictExpr(t, st), StrictExpr(Flatten(t, slots), flat))
  {
    hide StrictExpr, Flatten;
    var a1, b1 := Flatten(a, slots), Flatten(b, slots);
    FlattenOperand(a, op, b, slots);
    BinaryStrict(Operand(a, op, b), st);
    BinaryStrict(Operand(a1, op, b1), flat);
  }

  lemma FlattenOperand(a: Node, op: Operation, b: Node, slots: map<string, nat>)
    ensures Flatten(Operand(a, op, b), slots) == Operand(Flatten(a, slots), op, Flatten(b, slots))
  {
  }

  lemma {:induction false} FlatExpr(
      e: Expr, env: Env, vis: map<string, nat>, slots: map<string, nat>, st: State, flat: State)
    requires ExprTree(e, env).Some? && Matched(vis, slots, st, flat)
    requires forall x | Reads(e, x) :: x in vis && x in env.vis && vis[x] == env.vis[x]
    ensures
      var t := ExprTree(e, env).value;
      SameFlatValue(vis, slots, StrictExpr(t, st), StrictExpr(Flatten(t, slots), flat))
  {
    match e
    case Name(x) => assert Reads(e, x);
    case Arith(l, op, r) =>
      assert forall x :: Reads(l, x) || Reads(r, x) ==> Reads(e, x);
      var a, b := ExprTree(l, env).value, ExprTree(r, env).value;
      FlatExpr(l, env, vis, slots, st, flat);
      if StrictExpr(a, st).Done? {
        FlatExpr(r, env, vis, slots, StrictExpr(a, st).st, StrictExpr(Flatten(a, slots), flat).st);
      }
      FlatOperands(a, op, b, vis, slots, st, flat);
    case Negate(a) =>
      assert forall x :: Reads(a, x) ==> Reads(e, x);
      FlatExpr(a, env, vis, slots, st, flat);
      FlatOperands(Value(0), Minus, ExprTree(a, env).value, vis, slots, st, flat);
    case _ =>
  }

  lemma {:induction false} ReadsVisible(e: Expr, env: Env, x: string)
    requires ExprTree(e, env).Some? && Reads(e, x)
    ensures x in env.vis
  {
    match e
    case Arith(l, _, r) =>
      if Reads(l, x) { ReadsVisible(l, env, x); } else { ReadsVisible(r, env, x); }
    case Negate(a) => ReadsVisible(a, env, x);
    case _ =>
  }

  lemma FlatVisible(e: Expr, env: Env, slots: map<string, nat>, st: State, flat: State)
    requires ExprTree(e, env).Some? && Matched(env.vis, slots, st, flat)
    ensures
      var t := ExprTree(e, env).value;
      SameFlatValue(env.vis, slots, StrictExpr(t, st), StrictExpr(Flatten(t, slots), flat))
  {
    forall x | Reads(e, x) ensures x in env.vis { ReadsVisible(e, env, x); }
    FlatExpr(e, env, env.vis, slots, st, flat);
  }

  lemma {:induction false} FlatLogic(l: Logic, env: Env, slots: map<string, nat>, st: State, flat: State)
    requires LogicTree(l, env).Some? && Matched(env.vis, slots, st, flat)
    ensures
      var t := LogicTree(l, env).value;
      SameFlatValue(env.vis, slots, StrictExpr(t, st), StrictExpr(Flatten(t, slots), flat))
  {
    match l
    case Plain(e) => FlatVisible(e, env, slots, st, flat);
    case Comparison(a, rel, b) =>
      FlatVisible(a, env, slots, st, flat);
      var t := ExprTree(a, env).value;
      if StrictExpr(t, st).Done? {
        FlatVisible(b, env, slots, StrictExpr(t, st).st, StrictExpr(Flatten(t, slots), flat).st);
      }
      FlatOperands(t, rel, ExprTree(b, env).value, env.vis, slots, st, flat);
    case Negation(a) => FlatLogic(a, env, slots, st, flat);
    case _ =>
      FlatLogic(l.l, env, slots, st, flat);
      var t := LogicTree(l.l, env).value;
      if StrictExpr(t, st).Done? {
        FlatLogic(l.r, env, slots, StrictExpr(t, st).st, StrictExpr(Flatten(t, slots), flat).st);
      }
      FlatOperands(t, if l.Either? then Or else And, LogicTree(l.r, env).value, env.vis, slots, st, flat);
  }

  /** A variable read before its first assignment is never used quietly. */
  lemma {:induction false} UnwrittenRead(e: Expr, env: Env, x: string, st: State)
    requires ExprTree(e, env).Some? && Reads(e, x) && x in env.vis && env.vis[x] !in st.store
    ensures var w := StrictExpr(ExprTree(e, env).value, st); w.Done? ==> w.val.None?
  {
    match e
    case Arith(l, op, r) =>
      if Reads(l, x) {
        UnwrittenRead(l, env, x, st);
      } else if StrictExpr(ExprTree(l, env).value, st).Done? {
        StrictKeepsStore(ExprTree(l, env).value, st);
        UnwrittenRead(r, env, x, StrictExpr(ExprTree(l, env).value, st).st);
      }
      BinaryStrict(Operand(ExprTree(l, env).value, op, ExprTree(r, env).value), st);
    case Negate(a) =>
      UnwrittenRead(a, env, x, st);
      BinaryStrict(Operand(Value(0), Minus, ExprTree(a, env).value), st);
    case _ =>
  }

  // ----- statements -----

  /** The slots the whole program ends up with serve every name known at this point. */
  predicate Serves(slots: map<string, nat>, env: Env) {
    Injective(slots) && env.named.Keys <= slots.Keys
  }

  /** `Strict` on an assignment or a print, and on its flat counterpart. */
  lemma FlatOperand(left: Node, op: Operation, t: Node, slots: map<string, nat>, st: State, flat: State, fuel: nat)
    requires left.Null? || (left.Decl? && left.name in slots)
    ensures
      var n := Operand(left, op, t);
      && (Strict(n, st, fuel) ==
            var w := StrictValue(t, st);
            if !w.Done? then w.PropagateFailure()
            else if op == Assign && left.Decl? then Done((), w.st.(store := w.st.store[left.cell := w.val]))
            else Done((), w.st.(output := w.st.output + [w.val])))
      && (Strict(Flatten(n, slots), flat, fuel) ==
            var f := StrictValue(Flatten(t, slots), flat);
            if !f.Done? then f.PropagateFailure()
            else if op == Assign && left.Decl? then Done((), f.st.(store := f.st.store[slots[left.name] := f.val]))
            else Done((), f.st.(output := f.st.output + [f.val])))
  {
  }

  lemma FlatAssignment(
      x: string, e: Expr, env: Env, slots: map<string, nat>, sr: set<nat>, st: State, flat: State, fuel: nat)
    requires EnvOk(env) && ExprTree(e, env.Access(x)).Some?
    requires Serves(slots, env.Access(x))
    requires Matched(env.vis, slots, st, flat) && st.store.Keys !! sr
    requires x !in env.vis ==> (env.decls in sr <==> Reads(e, x))
    ensures
      var env1 := env.Access(x);
      var t := Operand(Decl(env1.vis[x], x), Assign, ExprTree(e, env1).value);
      SameFlat(env1.vis, slots, sr, Strict(t, st, fuel), Strict(Flatten(t, slots), flat, fuel))
  {
    var env1 := env.Access(x);
    if x !in env.vis && Reads(e, x) {
      FlatSelfRead(x, e, env, slots, sr, st, flat, fuel);
    } else {
      forall y | Reads(e, y) ensures y in env.vis { ReadsVisible(e, env1, y); }
      FlatPlainAssignment(x, e, env, slots, sr, st, flat, fuel);
    }
  }

  /** A declaration that reads itself fails the first time it runs. */
  lemma SelfReadFails(x: string, e: Expr, env: Env, st: State, fuel: nat)
    requires x !in env.vis && Reads(e, x) && ExprTree(e, env.Access(x)).Some?
    requires env.decls !in st.store
    ensures Strict(Operand(Decl(env.decls, x), Assign, ExprTree(e, env.Access(x)).value), st, fuel).Fails?
  {
    UnwrittenRead(e, env.Access(x), x, st);
    StrictKeepsStore(ExprTree(e, env.Access(x)).value, st);
  }

  /** An expression that may also read the unset variable `x`: until it trips over that, it runs the same with
      whatever the slot of `x` holds. */
  lemma {:induction false} FlatUnset(
      e: Expr, env: Env, x: string, vis: map<string, nat>, slots: map<string, nat>, st: State, flat: State)
    requires ExprTree(e, env).Some? && Matched(vis, slots, st, flat)
    requires forall y | Reads(e, y) && y != x :: y in vis && y in env.vis && vis[y] == env.vis[y]
    requires x in env.vis && env.vis[x] !in st.store
    ensures
      var t := ExprTree(e, env).value;
      UntilUnset(vis, slots, StrictExpr(t, st), StrictExpr(Flatten(t, slots), flat))
  {
    match e
    case Arith(l, op, r) =>
      assert forall y :: Reads(l, y) || Reads(r, y) ==> Reads(e, y);
      var a, b := ExprTree(l, env).value, ExprTree(r, env).value;
      FlatUnset(l, env, x, vis, slots, st, flat);
      StrictKeepsStore(a, st);
      if StrictExpr(a, st).Done? {
        FlatUnset(r, env, x, vis, slots, StrictExpr(a, st).st, StrictExpr(Flatten(a, slots), flat).st);
      }
      UnsetOperands(a, op, b, vis, slots, st, flat);
    case Negate(a) =>
      assert forall y :: Reads(a, y) ==> Reads(e, y);
      FlatUnset(a, env, x, vis, slots, st, flat);
      UnsetOperands(Value(0), Minus, ExprTree(a, env).value, vis, slots, st, flat);
    case _ =>
  }

  /** The same result, until the scoped run uses an unwritten variable. */
  ghost predicate UntilUnset(
    vis: map<string, nat>, slots: map<string, nat>, w: Outcome<Option<int>>, f: Outcome<Option<int>>)
  {
    match w
    case Done(v, st) => f.Done? && (v.Some? ==> f.val == v) && Matched(vis, slots, st, f.st)
    case Fails(why, _) => why != Uninitialised ==> f == w
    case Timeout(_) => false
  }

  lemma UnsetOperands(
      a: Node, op: Operation, b: Node, vis: map<string, nat>, slots: map<string, nat>, st: State, flat: State)
    requires op != StdIn && op != Not
    requires UntilUnset(vis, slots, StrictExpr(a, st), StrictExpr(Flatten(a, slots), flat))
    requires
      var w, f := StrictExpr(a, st), StrictExpr(Flatten(a, slots), flat);
      w.Done? ==> UntilUnset(vis, slots, StrictExpr(b, w.st), StrictExpr(Flatten(b, slots), f.st))
    ensures
      var t := Operand(a, op, b);
      UntilUnset(vis, slots, StrictExpr(t, st), StrictExpr(Flatten(t, slots), flat))
  {
    hide StrictExpr, Flatten;
    FlattenOperand(a, op, b, slots);
    BinaryStrict(Operand(a, op, b), st);
    BinaryStrict(Operand(Flatten(a, slots), op, Flatten(b, slots)), flat);
  }

  lemma FlatSelfRead(
      x: string, e: Expr, env: Env, slots: map<string, nat>, sr: set<nat>, st: State, flat: State, fuel: nat)
    requires EnvOk(env) && ExprTree(e, env.Access(x)).Some?
    requires Serves(slots, env.Access(x))
    requires Matched(env.vis, slots, st, flat) && st.store.Keys !! sr
    requires x !in env.vis && Reads(e, x) && env.decls in sr
    ensures
      var env1 := env.Access(x);
      var t := Operand(Decl(env1.vis[x], x), Assign, ExprTree(e, env1).value);
      SameFlat(env1.vis, slots, sr, Strict(t, st, fuel), Strict(Flatten(t, slots), flat, fuel))
  {
    hide Strict, StrictExpr, Flatten, ExprTree;
    var env1 := env.Access(x);
    var t := ExprTree(e, env1).value;
    forall y | Reads(e, y) ensures y in env1.vis { ReadsVisible(e, env1, y); }
    FlatOperand(Decl(env1.vis[x], x), Assign, t, slots, st, flat, fuel);
    UnwrittenRead(e, env1, x, st);
    StrictKeepsStore(t, st);
    FlatUnset(e, env1, x, env.vis, slots, st, flat);
  }

  /** Assigning the same value through the Decl and through the slot of its name. */
  lemma MatchedAssign(x: string, v: int, env: Env, slots: map<string, nat>, st: State, flat: State)
    requires EnvOk(env) && Serves(slots, env.Access(x)) && Matched(env.vis, slots, st, flat)
    ensures
      var env1 := env.Access(x);
      Matched(env1.vis, slots, st.(store := st.store[env1.vis[x] := v]), flat.(store := flat.store[slots[x] := v]))
  {
  }

  lemma FlatPlainAssignment(
      x: string, e: Expr, env: Env, slots: map<string, nat>, sr: set<nat>, st: State, flat: State, fuel: nat)
    requires EnvOk(env) && ExprTree(e, env.Access(x)).Some?
    requires Serves(slots, env.Access(x))
    requires Matched(env.vis, slots, st, flat) && st.store.Keys !! sr
    requires x !in env.vis ==> env.decls !in sr
    requires forall y | Reads(e, y) :: y in env.vis
    ensures
      var env1 := env.Access(x);
      var t := Operand(Decl(env1.vis[x], x), Assign, ExprTree(e, env1).value);
      SameFlat(env1.vis, slots, sr, Strict(t, st, fuel), Strict(Flatten(t, slots), flat, fuel))
  {
    hide Strict, StrictExpr, Flatten, ExprTree;
    var env1 := env.Access(x);
    var t := ExprTree(e, env1).value;
    FlatOperand(Decl(env1.vis[x], x), Assign, t, slots, st, flat, fuel);
    StrictKeepsStore(ExprTree(e, env1).value, st);
    FlatExpr(e, env1, env.vis, slots, st, flat);
    var w, f := StrictValue(t, st), StrictValue(Flatten(t, slots), flat);
    if w.Done? { MatchedAssign(x, w.val, env, slots, w.st, f.st); }
  }

  lemma FlatOutput(e: Expr, env: Env, slots: map<string, nat>, sr: set<nat>, st: State, flat: State, fuel: nat)
    requires ExprTree(e, env).Some? && Matched(env.vis, slots, st, flat) && st.store.Keys !! sr
    ensures
      var t := Operand(Null, StdOut, ExprTree(e, env).value);
      SameFlat(env.vis, slots, sr, Strict(t, st, fuel), Strict(Flatten(t, slots), flat, fuel))
  {
    hide Strict, StrictExpr, Flatten, ExprTree;
    FlatOperand(Null, StdOut, ExprTree(e, env).value, slots, st, flat, fuel);
    FlatVisible(e, env, slots, st, flat);
    StrictKeepsStore(ExprTree(e, env).value, st);
  }

  /** The pushed scope of an if or a while holds just the body. */
  lemma BodyScope(b: Node, slots: map<string, nat>, st: State, fuel: nat)
    ensures Flatten(Scope([b]), slots) == Scope([Flatten(b, slots)])
    ensures
      var w, v := Strict(Scope([b]), st, fuel), Strict(b, st, fuel);
      if v.Done? then w.Done? && w.st == v.st else w == v
  {
    assert FlattenAll([b], slots) == [Flatten(b, slots)] + FlattenAll([], slots);
    assert [b][1..] == [];
    var v := Strict(b, st, fuel);
    assert v.Done? ==> StrictAll([], v.st, fuel).Done?;
  }

  /** After a nested scope is left, the outer names are as they were. */
  lemma LeaveScope(env: Env, env1: Env, slots: map<string, nat>, sr: set<nat>, w: Outcome<()>, f: Outcome<()>)
    requires Grows(env, env1) && SameFlat(env1.vis, slots, sr, w, f)
    ensures SameFlat(env.vis, slots, sr, w, f)
  {
  }

  /** How the tree of an if or a while comes about. */
  lemma BranchTree(s: Stm, env: Env)
    requires s.IfStm? || s.WhileStm?
    requires StmTree(s, env).Some?
    ensures LogicTree(s.c, env).Some? && StmTree(s.body, env).Some?
    ensures
      var (b, env1) := StmTree(s.body, env).value;
      var c := LogicTree(s.c, env).value;
      StmTree(s, env).value ==
        (if s.IfStm? then If(c, Scope([b])) else While(c, Scope([b])), env1.Leave(env))
    ensures SelfReads(s, env) == SelfReads(s.body, env)
  {
  }

  lemma {:induction false} FlatStm(
      s: Stm, env: Env, slots: map<string, nat>, sr: set<nat>, st: State, flat: State, fuel: nat)
    requires EnvOk(env) && StmTree(s, env).Some? && Serves(slots, StmTree(s, env).value.1)
    requires Marks(sr, SelfReads(s, env), env.decls, StmTree(s, env).value.1.decls)
    requires Matched(env.vis, slots, st, flat) && st.store.Keys !! sr
    ensures
      var (t, env1) := StmTree(s, env).value;
      SameFlat(env1.vis, slots, sr, Strict(t, st, fuel), Strict(Flatten(t, slots), flat, fuel))
    decreases fuel, s, 1
  {
    match s
    case Assignment(x, e) => FlatAssignment(x, e, env, slots, sr, st, flat, fuel);
    case Output(e) => FlatOutput(e, env, slots, sr, st, flat, fuel);
    case Block(stms) =>
      FlatStms(stms, env, slots, sr, st, flat, fuel);
      StmsTreeOk(stms, env);
      var (ts, env1) := StmsTree(stms, env).value;
      LeaveScope(env, env1, slots, sr, StrictAll(ts, st, fuel), StrictAll(FlattenAll(ts, slots), flat, fuel));
    case IfStm(c, body) => FlatIf(s, env, slots, sr, st, flat, fuel);
    case WhileStm(c, body) => FlatWhile(s, env, slots, sr, st, flat, fuel);
  }

  lemma {:induction false} FlatIf(
      s: Stm, env: Env, slots: map<string, nat>, sr: set<nat>, st: State, flat: State, fuel: nat)
    requires s.IfStm?
    requires EnvOk(env) && StmTree(s, env).Some? && Serves(slots, StmTree(s, env).value.1)
    requires Marks(sr, SelfReads(s, env), env.decls, StmTree(s, env).value.1.decls)
    requires Matched(env.vis, slots, st, flat) && st.store.Keys !! sr
    ensures
      var (t, env1) := StmTree(s, env).value;
      SameFlat(env1.vis, slots, sr, Strict(t, st, fuel), Strict(Flatten(t, slots), flat, fuel))
    decreases fuel, s, 0
  {
    hide LogicTree, StmTree, StrictExpr;
    BranchTree(s, env);
    StmTreeOk(s.body, env);
    FlatLogic(s.c, env, slots, st, flat);
    StrictKeepsStore(LogicTree(s.c, env).value, st);
    var c := LogicTree(s.c, env).value;
    var (b, env1) := StmTree(s.body, env).value;
    var w, f := StrictValue(c, st), StrictValue(Flatten(c, slots), flat);
    if w.Done? && w.val != 0 {
      FlatStm(s.body, env, slots, sr, w.st, f.st, fuel);
      BodyScope(b, slots, w.st, fuel);
      BodyScope(Flatten(b, slots), slots, f.st, fuel);
      LeaveScope(env, env1, slots, sr, Strict(b, w.st, fuel), Strict(Flatten(b, slots), f.st, fuel));
    }
  }

  lemma FlattenWhile(c: Node, b: Node, slots: map<string, nat>)
    ensures Flatten(While(c, b), slots) == While(Flatten(c, slots), Flatten(b, slots))
  {
  }

  lemma {:induction false} FlatWhile(
      s: Stm, env: Env, slots: map<string, nat>, sr: set<nat>, st: State, flat: State, fuel: nat)
    requires s.WhileStm?
    requires EnvOk(env) && StmTree(s, env).Some? && Serves(slots, StmTree(s, env).value.1)
    requires Marks(sr, SelfReads(s, env), env.decls, StmTree(s, env).value.1.decls)
    requires Matched(env.vis, slots, st, flat) && st.store.Keys !! sr
    ensures
      var (t, env1) := StmTree(s, env).value;
      SameFlat(env1.vis, slots, sr, Strict(t, st, fuel), Strict(Flatten(t, slots), flat, fuel))
    decreases fuel, s, 0
  {
    hide LogicTree, StmTree, StrictExpr, Strict, Flatten, SelfReads;
    BranchTree(s, env);
    StmTreeOk(s.body, env);
    var c := LogicTree(s.c, env).value;
    var (b, env1) := StmTree(s.body, env).value;
    FlattenWhile(c, Scope([b]), slots);
    WhileStrict(While(c, Scope([b])), st, fuel);
    WhileStrict(Flatten(While(c, Scope([b])), slots), flat, fuel);
    FlatLogic(s.c, env, slots, st, flat);
    StrictKeepsStore(LogicTree(s.c, env).value, st);
    var w, f := StrictValue(c, st), StrictValue(Flatten(c, slots), flat);
    if fuel > 0 && w.Done? && w.val != 0 {
      FlatStm(s.body, env, slots, sr, w.st, f.st, fuel - 1);
      BodyScope(b, slots, w.st, fuel - 1);
      BodyScope(Flatten(b, slots), slots, f.st, fuel - 1);
      var w1, f1 := Strict(b, w.st, fuel - 1), Strict(Flatten(b, slots), f.st, fuel - 1);
      LeaveScope(env, env1, slots, sr, w1, f1);
      if w1.Done? {
        FlatWhile(s, env, slots, sr, w1.st, f1.st, fuel - 1);
      }
    }
  }

  lemma {:induction false} FlatStms(
      stms: seq<Stm>, env: Env, slots: map<string, nat>, sr: set<nat>, st: State, flat: State, fuel: nat)
    requires EnvOk(env) && StmsTree(stms, env).Some? && Serves(slots, StmsTree(stms, env).value.1)
    requires Marks(sr, SelfReadsAll(stms, env), env.decls, StmsTree(stms, env).value.1.decls)
    requires Matched(env.vis, slots, st, flat) && st.store.Keys !! sr
    ensures
      var (ts, env1) := StmsTree(stms, env).value;
      SameFlat(env1.vis, slots, sr, StrictAll(ts, st, fuel), StrictAll(FlattenAll(ts, slots), flat, fuel))
    decreases fuel, stms, 0
  {
    if stms != [] {
      var (t, env1) := StmTree(stms[0], env).value;
      var (ts, env2) := StmsTree(stms[1..], env1).value;
      assert ([t] + ts)[1..] == ts;
      StmTreeOk(stms[0], env);
      StmsTreeOk(stms[1..], env1);
      SelfReadsRange(stms[0], env);
      SelfReadsAllRange(stms[1..], env1);
      assert SelfReadsAll(stms, env) == SelfReads(stms[0], env) + SelfReadsAll(stms[1..], env1);
      FlatStm(stms[0], env, slots, sr, st, flat, fuel);
      var w, f := Strict(t, st, fuel), Strict(Flatten(t, slots), flat, fuel);
      assert FlattenAll([t] + ts, slots) == [Flatten(t, slots)] + FlattenAll(ts, slots);
      assert FlattenAll([t] + ts, slots)[1..] == FlattenAll(ts, slots);
      if w.Done? {
        FlatStms(stms[1..], env1, slots, sr, w.st, f.st, fuel);
      }
    }
  }
}
