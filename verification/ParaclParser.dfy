/** The parser's semantic actions on their global state: the current scope, the symbol tables
    behind `access` and `visible`, and the code generator that makes a slot per declaration. */
module ParaclParser {
  import opened Base
  import opened ParaclTree
  import opened ParaclSource
  import opened ParaclCodegen
  import opened ParaclProgram
  import Ir = ParaclIr

  /** A `Scope` object. Scopes are numbered in order of creation, so `prev` points backwards. */
  datatype ScopeObject = ScopeObject(branches: seq<Node>, prev: Option<nat>)

  type Tables = map<nat, map<string, nat>>

  /** Every scope hangs on an older one. */
  predicate Chained(scopes: seq<ScopeObject>) {
    forall i | 0 <= i < |scopes| :: scopes[i].prev.Some? ==> scopes[i].prev.value < i
  }

  function Table(tables: Tables, s: nat): map<string, nat> {
    if s in tables then tables[s] else map[]
  }

  /** All that is visible from scope `s`. */
  function Vis(scopes: seq<ScopeObject>, tables: Tables, s: nat): map<string, nat>
    requires Chained(scopes) && s < |scopes|
    decreases s
  {
    (if scopes[s].prev.Some? then Vis(scopes, tables, scopes[s].prev.value) else map[]) + Table(tables, s)
  }

  /** Only scope `s` and newer ones differ; no scope moved. */
  predicate Keeps(scopes: seq<ScopeObject>, tables: Tables, scopes1: seq<ScopeObject>, tables1: Tables, s: nat) {
    && |scopes| <= |scopes1|
    && (forall i | 0 <= i < |scopes| :: scopes1[i].prev == scopes[i].prev)
    && (forall i | 0 <= i < |scopes| && i != s :: scopes1[i] == scopes[i])
    && (forall i | 0 <= i < |scopes| && i != s :: Table(tables1, i) == Table(tables, i))
  }

  /** What is visible from an older scope does not depend on newer ones. */
  lemma {:induction false} KeepsVis(
      scopes: seq<ScopeObject>, tables: Tables, scopes1: seq<ScopeObject>, tables1: Tables, s: nat, i: nat)
    requires Chained(scopes) && Chained(scopes1) && Keeps(scopes, tables, scopes1, tables1, s)
    requires i < s && i < |scopes|
    ensures Vis(scopes1, tables1, i) == Vis(scopes, tables, i)
    decreases i
  {
    if scopes[i].prev.Some? { KeepsVis(scopes, tables, scopes1, tables1, s, scopes[i].prev.value); }
  }

  /** A new name in the table of the current scope. */
  lemma AddName(scopes: seq<ScopeObject>, tables: Tables, s: nat, x: string, cell: nat)
    requires Chained(scopes) && s < |scopes|
    ensures
      var tables1 := tables[s := Table(tables, s)[x := cell]];
      && Keeps(scopes, tables, scopes, tables1, s)
      && Vis(scopes, tables1, s) == Vis(scopes, tables, s)[x := cell]
  {
    var tables1 := tables[s := Table(tables, s)[x := cell]];
    var outer := scopes[s].prev;
    if outer.Some? { KeepsVis(scopes, tables, scopes, tables1, s, outer.value); }
  }

  class Parser {
    var scopes: seq<ScopeObject>
    var current: nat
    var tables: map<nat, map<string, nat>>
    const gen: CodeGen

    ghost predicate Valid()
      reads this
    {
      current < |scopes| && Chained(scopes) && forall s <- tables.Keys :: s < |scopes|
    }

    /** `Scope::visible`: the tables from `s` outwards. */
    function Visible(s: nat, x: string): (r: Option<nat>)
      requires Valid() && s < |scopes|
      reads this
      ensures r == if x in Vis(scopes, tables, s) then Some(Vis(scopes, tables, s)[x]) else None
      decreases s
    {
      if s in tables && x in tables[s] then Some(tables[s][x])
      else if scopes[s].prev.Some? then Visible(scopes[s].prev.value, x)
      else None
    }

    ghost function Env(): ParaclSource.Env
      requires Valid()
      reads this, gen
    {
      ParaclSource.Env(Vis(scopes, tables, current), gen.namedValues, gen.slots)
    }

    /** The generator has seen the declarations so far and no code yet. */
    ghost predicate Parsing()
      reads this, gen
    {
      Valid() && gen.Model() == AfterParse(Env())
    }

    constructor (g: CodeGen)
      requires g.Model() == AfterParse(Start) && g.slots == 0
      ensures Parsing() && Env() == Start && gen == g
      ensures current == 0 && scopes == [ScopeObject([], None)]
    {
      gen := g;
      scopes := [ScopeObject([], None)];
      current := 0;
      tables := map[];
    }

    /** `open_sc`, `if_head` and `while_head`: a fresh empty scope inside the current one. */
    method Push()
      requires Parsing()
      modifies this
      ensures Parsing() && Env() == old(Env()) && current == old(|scopes|)
      ensures scopes == old(scopes) + [ScopeObject([], Some(old(current)))] && tables == old(tables)
    {
      scopes := scopes + [ScopeObject([], Some(current))];
      current := |scopes| - 1;
      KeepsVis(old(scopes), tables, scopes, tables, current, old(current));
      assert Vis(scopes, tables, current) == old(Vis(scopes, tables, current));
    }

    /** `CurrentScope = CurrentScope->resetScope()`. */
    method Reset(outer: nat)
      requires Valid() && scopes[current].prev == Some(outer)
      modifies this`current
      ensures current == outer && Valid()
    {
      current := scopes[current].prev.value;
    }

    /** `addBranch` on the current scope. */
    method AddBranch(n: Node)
      requires Parsing()
      modifies this
      ensures Parsing() && Env() == old(Env()) && current == old(current) && tables == old(tables)
      ensures scopes == old(scopes)[
                current := ScopeObject(old(scopes[current].branches) + [n], old(scopes[current].prev))]
    {
      scopes := scopes[current := ScopeObject(scopes[current].branches + [n], scopes[current].prev)];
      var outer := scopes[current].prev;
      if outer.Some? { KeepsVis(old(scopes), tables, scopes, tables, current, outer.value); }
    }

    /** `Scope::access`: an existing Decl, or a new one in the current scope with a slot of its own. */
    method Access(x: string) returns (cell: nat)
      requires Parsing()
      modifies this, gen
      ensures Parsing() && Env() == old(Env()).Access(x) && cell == Env().vis[x]
      ensures current == old(current) && scopes == old(scopes)
      ensures Keeps(old(scopes), old(tables), scopes, tables, current)
    {
      var existing := Visible(current, x);
      if existing.Some? {
        return existing.value;
      }
      cell := gen.slots;
      gen.AddDecl(x, Env());
      var table := if current in tables then tables[current] else map[];
      tables := tables[current := table[x := cell]];
      AddName(scopes, old(tables), current, x, cell);
    }

    /** The `expr` rules; None when a name is not declared. */
    method ParseExpr(e: Expr) returns (r: Option<Node>)
      requires Valid()
      ensures r == ExprTree(e, Env())
      decreases e
    {
      match e
      case Num(n) => r := Some(Value(n));
      case Name(x) =>
          var cell := Visible(current, x);
        r := if cell.Some? then Some(Decl(cell.value, x)) else None;
      case Input => r := Some(Operand(Null, StdIn, Null));
      case Arith(l, op, rhs) =>
        var a := ParseExpr(l);
        if a.None? { return None; }
        var b := ParseExpr(rhs);
        if b.None? { return None; }
        r := Some(Operand(a.value, op, b.value));
      case Negate(a) =>
        var t := ParseExpr(a);
        if t.None? { return None; }
        r := Some(Operand(Value(0), Minus, t.value));
    }

    /** The `lexpr` rules. */
    method ParseLogic(l: Logic) returns (r: Option<Node>)
      requires Valid()
      ensures r == LogicTree(l, Env())
      decreases l
    {
      match l
      case Plain(e) => r := ParseExpr(e);
      case Comparison(lhs, rel, rhs) =>
        var a := ParseExpr(lhs);
        if a.None? { return None; }
        var b := ParseExpr(rhs);
        if b.None? { return None; }
        r := Some(Operand(a.value, rel, b.value));
      case Either(x, y) =>
        var a := ParseLogic(x);
        if a.None? { return None; }
        var b := ParseLogic(y);
        if b.None? { return None; }
        r := Some(Operand(a.value, Or, b.value));
      case Both(x, y) =>
        var a := ParseLogic(x);
        if a.None? { return None; }
        var b := ParseLogic(y);
        if b.None? { return None; }
        r := Some(Operand(a.value, And, b.value));
      case Negation(x) =>
        var a := ParseLogic(x);
        if a.None? { return None; }
        r := Some(Operand(Null, Not, a.value));
    }

    /** A statement. On success its node is returned and the tables know its declarations. */
    method ParseStm(s: Stm) returns (r: Option<Node>)
      requires Parsing()
      modifies this, gen
      ensures r.Some? <==> StmTree(s, old(Env())).Some?
      ensures r.Some? ==>
                Parsing() && r.value == StmTree(s, old(Env())).value.0 && Env() == StmTree(s, old(Env())).value.1
      ensures r.Some? ==> Keeps(old(scopes), old(tables), scopes, tables, current)
      ensures r.Some? ==> current == old(current) && scopes[current] == old(scopes[current])
      decreases s, 1
    {
      match s
      case Assignment(x, e) =>
        var cell := Access(x);
        var t := ParseExpr(e);
        r := if t.Some? then Some(Operand(Decl(cell, x), Assign, t.value)) else None;
      case Output(e) =>
        var t := ParseExpr(e);
        r := if t.Some? then Some(Operand(Null, StdOut, t.value)) else None;
      case IfStm(c, body) =>
        var cond := ParseLogic(c);
        if cond.None? { return None; }
        var scope := ParseBody(body);
        r := if scope.Some? then Some(If(cond.value, scope.value)) else None;
      case WhileStm(c, body) =>
        var cond := ParseLogic(c);
        if cond.None? { return None; }
        var scope := ParseBody(body);
        r := if scope.Some? then Some(While(cond.value, scope.value)) else None;
      case Block(stms) =>
        var outer := current;
        Push();
        var ok := ParseStms(stms);
        if !ok { return None; }
        r := Some(Scope(scopes[current].branches));
        Reset(outer);
        KeepsVis(old(scopes), old(tables), scopes, tables, old(|scopes|), outer);
    }

    /** `if_head stm` and `while_head stm`: the body becomes the only branch of a new scope. */
    method ParseBody(body: Stm) returns (r: Option<Node>)
      requires Parsing()
      modifies this, gen
      ensures r.Some? <==> StmTree(body, old(Env())).Some?
      ensures r.Some? ==>
                && Parsing() && r.value == Scope([StmTree(body, old(Env())).value.0])
                && Env() == StmTree(body, old(Env())).value.1.Leave(old(Env()))
      ensures r.Some? ==> Keeps(old(scopes), old(tables), scopes, tables, current)
      ensures r.Some? ==> current == old(current) && scopes[current] == old(scopes[current])
      decreases body, 2
    {
      var outer := current;
      Push();
      var t := ParseStm(body);
      if t.None? { return None; }
      AddBranch(t.value);
      r := Some(Scope(scopes[current].branches));
      Reset(outer);
      KeepsVis(old(scopes), old(tables), scopes, tables, old(|scopes|), outer);
    }

    /** `stms`: every statement becomes a branch of the current scope. */
    method ParseStms(stms: seq<Stm>) returns (ok: bool)
      requires Parsing()
      modifies this, gen
      ensures ok <==> StmsTree(stms, old(Env())).Some?
      ensures ok ==>
                && Parsing() && Env() == StmsTree(stms, old(Env())).value.1
                && current == old(current) && Keeps(old(scopes), old(tables), scopes, tables, current)
                && scopes[current].branches == old(scopes[current].branches) + StmsTree(stms, old(Env())).value.0
      decreases stms, 0
    {
      if stms == [] { return true; }
      var t := ParseStm(stms[0]);
      if t.None? { return false; }
      AddBranch(t.value);
      ok := ParseStms(stms[1..]);
    }
  }

  /** The whole compiler: parse, generate code for the root scope, close the function. */
  method CompileProgram(prog: seq<Stm>) returns (code: Option<seq<Ir.Block>>)
    ensures code == if Accepted(prog) then Some(Compiled(prog)) else None
  {
    var gen := new CodeGen.StartFunction();
    var parser := new Parser(gen);
    var ok := parser.ParseStms(prog);
    if !ok { return None; }
    StmsTreeOk(prog, Start);
    assert parser.scopes[parser.current].branches == Trees(prog);
    gen.CodegenScope(parser.scopes[parser.current].branches);
    gen.EndCurrentFunction();
    code := Some(gen.blocks);
  }
}
