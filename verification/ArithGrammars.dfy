/** The two arithmetic grammars: left-recursive, and right-recursive with tails. */
module ArithGrammars {
  import opened Base

  datatype Token = PLUS | MULT | LBRAC | RBRAC | NUMBER(value: int)

  // ----- the left-recursive grammar -----

  datatype LE = LEPlus(e: LE, t: LT) | LETerm(t: LT)
  datatype LT = LTMult(t: LT, f: LF) | LTFactor(f: LF)
  datatype LF = LFBrackets(e: LE) | LFNumber(n: int)

  function YieldLE(e: LE): seq<Token> {
    match e
    case LEPlus(e1, t) => YieldLE(e1) + [PLUS] + YieldLT(t)
    case LETerm(t) => YieldLT(t)
  }

  function YieldLT(t: LT): seq<Token> {
    match t
    case LTMult(t1, f) => YieldLT(t1) + [MULT] + YieldLF(f)
    case LTFactor(f) => YieldLF(f)
  }

  function YieldLF(f: LF): seq<Token> {
    match f
    case LFBrackets(e) => [LBRAC] + YieldLE(e) + [RBRAC]
    case LFNumber(n) => [NUMBER(n)]
  }

  /** The value that the actions compute. */
  function ValLE(e: LE): int {
    match e
    case LEPlus(e1, t) => ValLE(e1) + ValLT(t)
    case LETerm(t) => ValLT(t)
  }

  function ValLT(t: LT): int {
    match t
    case LTMult(t1, f) => ValLT(t1) * ValLF(f)
    case LTFactor(f) => ValLF(f)
  }

  function ValLF(f: LF): int {
    match f
    case LFBrackets(e) => ValLE(e)
    case LFNumber(n) => n
  }

  // ----- the right-recursive grammar -----

  datatype RE = RE(t: RT, rest: REP)
  datatype REP = REPPlus(t: RT, rest: REP) | REPEmpty
  datatype RT = RT(f: RF, rest: RTP)
  datatype RTP = RTPMult(f: RF, rest: RTP) | RTPEmpty
  datatype RF = RFBrackets(e: RE) | RFNumber(n: int)

  function YieldRE(e: RE): seq<Token> {
    YieldRT(e.t) + YieldREP(e.rest)
  }

  function YieldREP(p: REP): seq<Token> {
    match p
    case REPPlus(t, rest) => [PLUS] + YieldRT(t) + YieldREP(rest)
    case REPEmpty => []
  }

  function YieldRT(t: RT): seq<Token> {
    YieldRF(t.f) + YieldRTP(t.rest)
  }

  function YieldRTP(p: RTP): seq<Token> {
    match p
    case RTPMult(f, rest) => [MULT] + YieldRF(f) + YieldRTP(rest)
    case RTPEmpty => []
  }

  function YieldRF(f: RF): seq<Token> {
    match f
    case RFBrackets(e) => [LBRAC] + YieldRE(e) + [RBRAC]
    case RFNumber(n) => [NUMBER(n)]
  }

  function ValRE(e: RE): int {
    ValRT(e.t) + ValREP(e.rest)
  }

  function ValREP(p: REP): int {
    match p
    case REPPlus(t, rest) => ValRT(t) + ValREP(rest)
    case REPEmpty => 0
  }

  function ValRT(t: RT): int {
    ValRF(t.f) * ValRTP(t.rest)
  }

  function ValRTP(p: RTP): int {
    match p
    case RTPMult(f, rest) => ValRF(f) * ValRTP(rest)
    case RTPEmpty => 1
  }

  function ValRF(f: RF): int {
    match f
    case RFBrackets(e) => ValRE(e)
    case RFNumber(n) => n
  }

  // ----- from one grammar to the other -----

  function RightE(e: LE, rest: REP): RE {
    match e
    case LEPlus(e1, t) => RightE(e1, REPPlus(RightT(t, RTPEmpty), rest))
    case LETerm(t) => RE(RightT(t, RTPEmpty), rest)
  }

  function RightT(t: LT, rest: RTP): RT {
    match t
    case LTMult(t1, f) => RightT(t1, RTPMult(RightF(f), rest))
    case LTFactor(f) => RT(RightF(f), rest)
  }

  function RightF(f: LF): RF {
    match f
    case LFBrackets(e) => RFBrackets(RightE(e, REPEmpty))
    case LFNumber(n) => RFNumber(n)
  }

  function LeftE(before: LE, p: REP): LE
    decreases p
  {
    match p
    case REPPlus(t, rest) => LeftE(LEPlus(before, LeftTerm(t)), rest)
    case REPEmpty => before
  }

  function LeftTerm(t: RT): LT
    decreases t
  {
    LeftT(LTFactor(LeftF(t.f)), t.rest)
  }

  function LeftT(before: LT, p: RTP): LT
    decreases p
  {
    match p
    case RTPMult(f, rest) => LeftT(LTMult(before, LeftF(f)), rest)
    case RTPEmpty => before
  }

  function LeftF(f: RF): LF
    decreases f
  {
    match f
    case RFBrackets(e) => LFBrackets(ToLeft(e))
    case RFNumber(n) => LFNumber(n)
  }

  /** The left-recursive tree of a right-recursive one. */
  function ToLeft(e: RE): LE
    decreases e
  {
    LeftE(LETerm(LeftTerm(e.t)), e.rest)
  }

  lemma {:induction false} RightEKeeps(e: LE, rest: REP)
    ensures YieldRE(RightE(e, rest)) == YieldLE(e) + YieldREP(rest)
    ensures ValRE(RightE(e, rest)) == ValLE(e) + ValREP(rest)
    decreases e
  {
    match e
    case LEPlus(e1, t) =>
      RightTKeeps(t, RTPEmpty);
      RightEKeeps(e1, REPPlus(RightT(t, RTPEmpty), rest));
      assert YieldRT(RightT(t, RTPEmpty)) == YieldLT(t);
      assert YieldLE(e1) + ([PLUS] + YieldLT(t) + YieldREP(rest)) == YieldLE(e) + YieldREP(rest);
    case LETerm(t) =>
      RightTKeeps(t, RTPEmpty);
      assert YieldRT(RightT(t, RTPEmpty)) == YieldLT(t);
  }

  lemma {:induction false} RightTKeeps(t: LT, rest: RTP)
    ensures YieldRT(RightT(t, rest)) == YieldLT(t) + YieldRTP(rest)
    ensures ValRT(RightT(t, rest)) == ValLT(t) * ValRTP(rest)
    decreases t
  {
    match t
    case LTMult(t1, f) =>
      RightFKeeps(f);
      RightTKeeps(t1, RTPMult(RightF(f), rest));
      assert YieldLT(t1) + ([MULT] + YieldLF(f) + YieldRTP(rest)) == YieldLT(t) + YieldRTP(rest);
      Associates(ValLT(t1), ValLF(f), ValRTP(rest));
    case LTFactor(f) =>
      RightFKeeps(f);
  }

  lemma Associates(a: int, b: int, c: int)
    ensures a * (b * c) == a * b * c
  {
  }

  lemma {:induction false} RightFKeeps(f: LF)
    ensures YieldRF(RightF(f)) == YieldLF(f) && ValRF(RightF(f)) == ValLF(f)
    decreases f
  {
    match f
    case LFBrackets(e) =>
      RightEKeeps(e, REPEmpty);
      assert YieldRE(RightE(e, REPEmpty)) == YieldLE(e);
    case LFNumber(n) =>
  }

  lemma {:induction false} LeftEKeeps(before: LE, p: REP)
    ensures YieldLE(LeftE(before, p)) == YieldLE(before) + YieldREP(p)
    ensures ValLE(LeftE(before, p)) == ValLE(before) + ValREP(p)
    decreases p
  {
    match p
    case REPPlus(t, rest) =>
      LeftTermKeeps(t);
      var t' := LeftTerm(t);
      LeftEKeeps(LEPlus(before, t'), rest);
      assert YieldLE(before) + [PLUS] + YieldRT(t) + YieldREP(rest)
        == YieldLE(before) + ([PLUS] + YieldRT(t) + YieldREP(rest));
    case REPEmpty =>
  }

  lemma {:induction false} LeftTermKeeps(t: RT)
    ensures YieldLT(LeftTerm(t)) == YieldRT(t)
    ensures ValLT(LeftTerm(t)) == ValRT(t)
    decreases t
  {
    LeftFKeeps(t.f);
    LeftTKeeps(LTFactor(LeftF(t.f)), t.rest);
  }

  lemma {:induction false} LeftTKeeps(before: LT, p: RTP)
    ensures YieldLT(LeftT(before, p)) == YieldLT(before) + YieldRTP(p)
    ensures ValLT(LeftT(before, p)) == ValLT(before) * ValRTP(p)
    decreases p
  {
    match p
    case RTPMult(f, rest) =>
      LeftFKeeps(f);
      LeftTKeeps(LTMult(before, LeftF(f)), rest);
      assert YieldLT(before) + [MULT] + YieldRF(f) + YieldRTP(rest)
        == YieldLT(before) + ([MULT] + YieldRF(f) + YieldRTP(rest));
      Associates(ValLT(before), ValRF(f), ValRTP(rest));
    case RTPEmpty =>
  }

  lemma {:induction false} LeftFKeeps(f: RF)
    ensures YieldLF(LeftF(f)) == YieldRF(f) && ValLF(LeftF(f)) == ValRF(f)
    decreases f
  {
    match f
    case RFBrackets(e) =>
      LeftTermKeeps(e.t);
      LeftEKeeps(LETerm(LeftTerm(e.t)), e.rest);
    case RFNumber(n) =>
  }

  // ----- derivations -----

  ghost predicate LeftDerives(s: seq<Token>, v: int) {
    exists e :: YieldLE(e) == s && ValLE(e) == v
  }

  ghost predicate RightDerives(s: seq<Token>, v: int) {
    exists e :: YieldRE(e) == s && ValRE(e) == v
  }

  /** The two grammars derive the same token strings with the same values. */
  lemma SameLanguage(s: seq<Token>, v: int)
    ensures LeftDerives(s, v) <==> RightDerives(s, v)
  {
    if LeftDerives(s, v) {
      var e :| YieldLE(e) == s && ValLE(e) == v;
      RightEKeeps(e, REPEmpty);
      assert YieldRE(RightE(e, REPEmpty)) == s;
    }
    if RightDerives(s, v) {
      var e :| YieldRE(e) == s && ValRE(e) == v;
      LeftTermKeeps(e.t);
      LeftEKeeps(LETerm(LeftTerm(e.t)), e.rest);
      assert YieldLE(ToLeft(e)) == s;
    }
  }

  // ----- parsing -----

  lemma Regroup(s: seq<Token>, a: seq<Token>, b: seq<Token>, c: seq<Token>)
    requires s != [] && s[1..] == a + (b + c)
    ensures s == [s[0]] + a + b + c
  {
    assert s == [s[0]] + s[1..];
    assert [s[0]] + a + b + c == [s[0]] + (a + (b + c));
  }

  function ParseE(s: seq<Token>): (r: Option<(RE, seq<Token>)>)
    ensures r.Some? ==> |r.value.1| < |s| && s == YieldRE(r.value.0) + r.value.1
    decreases |s|, 2
  {
    var t :- ParseT(s);
    var p :- ParseEP(t.1);
    assert YieldRT(t.0) + YieldREP(p.0) + p.1 == YieldRT(t.0) + (YieldREP(p.0) + p.1);
    Some((RE(t.0, p.0), p.1))
  }

  function ParseEP(s: seq<Token>): (r: Option<(REP, seq<Token>)>)
    ensures r.Some? ==> |r.value.1| <= |s| && s == YieldREP(r.value.0) + r.value.1
    decreases |s|, 2
  {
    if s != [] && s[0] == PLUS then
      var t :- ParseT(s[1..]);
      var p :- ParseEP(t.1);
      Regroup(s, YieldRT(t.0), YieldREP(p.0), p.1);
      Some((REPPlus(t.0, p.0), p.1))
    else
      Some((REPEmpty, s))
  }

  function ParseT(s: seq<Token>): (r: Option<(RT, seq<Token>)>)
    ensures r.Some? ==> |r.value.1| < |s| && s == YieldRT(r.value.0) + r.value.1
    decreases |s|, 1
  {
    var f :- ParseF(s);
    var p :- ParseTP(f.1);
    assert YieldRF(f.0) + YieldRTP(p.0) + p.1 == YieldRF(f.0) + (YieldRTP(p.0) + p.1);
    Some((RT(f.0, p.0), p.1))
  }

  function ParseTP(s: seq<Token>): (r: Option<(RTP, seq<Token>)>)
    ensures r.Some? ==> |r.value.1| <= |s| && s == YieldRTP(r.value.0) + r.value.1
    decreases |s|, 1
  {
    if s != [] && s[0] == MULT then
      var f :- ParseF(s[1..]);
      var p :- ParseTP(f.1);
      Regroup(s, YieldRF(f.0), YieldRTP(p.0), p.1);
      Some((RTPMult(f.0, p.0), p.1))
    else
      Some((RTPEmpty, s))
  }

  function ParseF(s: seq<Token>): (r: Option<(RF, seq<Token>)>)
    ensures r.Some? ==> |r.value.1| < |s| && s == YieldRF(r.value.0) + r.value.1
    decreases |s|, 0
  {
    if s == [] then None
    else match s[0]
      case NUMBER(n) => Some((RFNumber(n), s[1..]))
      case LBRAC =>
        var e :- ParseE(s[1..]);
        if e.1 != [] && e.1[0] == RBRAC then
          assert e.1 == [RBRAC] + e.1[1..];
          Regroup(s, YieldRE(e.0), [RBRAC], e.1[1..]);
          Some((RFBrackets(e.0), e.1[1..]))
        else None
      case PLUS => None
      case MULT => None
      case RBRAC => None
  }

  predicate NoMult(s: seq<Token>) {
    s != [] ==> s[0] != MULT
  }

  predicate NoOperator(s: seq<Token>) {
    s != [] ==> s[0] != MULT && s[0] != PLUS
  }

  lemma {:induction false} FindsE(e: RE, rest: seq<Token>)
    requires NoOperator(rest)
    ensures ParseE(YieldRE(e) + rest) == Some((e, rest))
    decreases e, 1
  {
    assert YieldRE(e) + rest == YieldRT(e.t) + (YieldREP(e.rest) + rest);
    FindsT(e.t, YieldREP(e.rest) + rest);
    FindsEP(e.rest, rest);
  }

  lemma {:induction false} FindsEP(p: REP, rest: seq<Token>)
    requires NoOperator(rest)
    ensures ParseEP(YieldREP(p) + rest) == Some((p, rest))
    decreases p, 1
  {
    match p
    case REPPlus(t, p') =>
      var s := YieldREP(p) + rest;
      assert s[1..] == YieldRT(t) + (YieldREP(p') + rest);
      FindsT(t, YieldREP(p') + rest);
      FindsEP(p', rest);
    case REPEmpty =>
      assert YieldREP(p) + rest == rest;
  }

  lemma {:induction false} FindsT(t: RT, rest: seq<Token>)
    requires NoMult(rest)
    ensures ParseT(YieldRT(t) + rest) == Some((t, rest))
    decreases t, 1
  {
    assert YieldRT(t) + rest == YieldRF(t.f) + (YieldRTP(t.rest) + rest);
    FindsF(t.f, YieldRTP(t.rest) + rest);
    FindsTP(t.rest, rest);
  }

  lemma {:induction false} FindsTP(p: RTP, rest: seq<Token>)
    requires NoMult(rest)
    ensures ParseTP(YieldRTP(p) + rest) == Some((p, rest))
    decreases p, 1
  {
    match p
    case RTPMult(f, p') =>
      var s := YieldRTP(p) + rest;
      assert s[1..] == YieldRF(f) + (YieldRTP(p') + rest);
      FindsF(f, YieldRTP(p') + rest);
      FindsTP(p', rest);
    case RTPEmpty =>
      assert YieldRTP(p) + rest == rest;
  }

  lemma {:induction false} FindsF(f: RF, rest: seq<Token>)
    ensures ParseF(YieldRF(f) + rest) == Some((f, rest))
    decreases f, 1
  {
    var s := YieldRF(f) + rest;
    match f
    case RFBrackets(e) =>
      assert s[1..] == YieldRE(e) + ([RBRAC] + rest);
      FindsE(e, [RBRAC] + rest);
      assert ([RBRAC] + rest)[1..] == rest;
    case RFNumber(n) =>
      assert s[1..] == rest;
  }

  /** Neither grammar is ambiguous: a token string has at most one value. */
  lemma Unambiguous(s: seq<Token>, v: int, w: int)
    requires LeftDerives(s, v) && RightDerives(s, w)
    ensures v == w
  {
    SameLanguage(s, v);
    var e :| YieldRE(e) == s && ValRE(e) == v;
    var f :| YieldRE(f) == s && ValRE(f) == w;
    FindsE(e, []);
    FindsE(f, []);
    assert s + [] == s;
  }

  /** What a complete parse computes: Some exactly for the strings of the grammar, with their value. */
  function Evaluate(s: seq<Token>): Option<int> {
    match ParseE(s)
    case None => None
    case Some((e, rest)) => if rest == [] then Some(ValRE(e)) else None
  }

  /** Printing an expression and parsing the tokens gives its value back; nothing else is accepted. */
  lemma EvaluateIsDerivation(s: seq<Token>, v: int)
    ensures Evaluate(s) == Some(v) <==> LeftDerives(s, v)
    ensures Evaluate(s) == Some(v) <==> RightDerives(s, v)
  {
    SameLanguage(s, v);
    if RightDerives(s, v) {
      var e :| YieldRE(e) == s && ValRE(e) == v;
      FindsE(e, []);
      assert s + [] == s;
    }
    if Evaluate(s) == Some(v) {
      var e := ParseE(s).value.0;
      assert YieldRE(e) + [] == YieldRE(e);
      assert YieldRE(e) == s && ValRE(e) == v;
    }
  }

  // ----- expressions as they are meant -----

  datatype Exp = Number(n: int) | Total(l: Exp, r: Exp) | Product(l: Exp, r: Exp)

  function Meaning(e: Exp): int {
    match e
    case Number(n) => n
    case Total(l, r) => Meaning(l) + Meaning(r)
    case Product(l, r) => Meaning(l) * Meaning(r)
  }

  /** Where an expression stands: alone, behind a plus or as the left factor, or behind a times. */
  datatype Place = Sums | Terms | Factors

  /** Printed with brackets only where the grammar needs them. */
  function Written(e: Exp, at: Place): seq<Token>
    decreases e, if at == Sums then 0 else 1
  {
    match e
    case Number(n) => [NUMBER(n)]
    case Total(l, r) =>
      if at == Sums then Written(l, Sums) + [PLUS] + Written(r, Terms) else [LBRAC] + Written(e, Sums) + [RBRAC]
    case Product(l, r) =>
      if at == Factors then [LBRAC] + (Written(l, Terms) + [MULT] + Written(r, Factors)) + [RBRAC]
      else Written(l, Terms) + [MULT] + Written(r, Factors)
  }

  function AsSum(e: Exp): LE
    decreases e, 2
  {
    if e.Total? then LEPlus(AsSum(e.l), AsTerm(e.r)) else LETerm(AsTerm(e))
  }

  function AsTerm(e: Exp): LT
    decreases e, if e.Total? then 4 else 1
  {
    if e.Product? then LTMult(AsTerm(e.l), AsFactor(e.r)) else LTFactor(AsFactor(e))
  }

  function AsFactor(e: Exp): LF
    decreases e, if e.Number? then 0 else 3
  {
    if e.Number? then LFNumber(e.n) else LFBrackets(AsSum(e))
  }

  lemma {:induction false} WrittenDerives(e: Exp)
    ensures YieldLE(AsSum(e)) == Written(e, Sums) && ValLE(AsSum(e)) == Meaning(e)
    ensures YieldLT(AsTerm(e)) == Written(e, Terms) && ValLT(AsTerm(e)) == Meaning(e)
    ensures YieldLF(AsFactor(e)) == Written(e, Factors) && ValLF(AsFactor(e)) == Meaning(e)
  {
    hide YieldLE, YieldLT, YieldLF, ValLE, ValLT, ValLF;
    TreeShapes(e);
    if !e.Number? {
      WrittenDerives(e.l);
      WrittenDerives(e.r);
    }
  }

  /** The three trees of an expression, spelled out. */
  lemma TreeShapes(e: Exp)
    ensures !e.Total? ==> YieldLE(AsSum(e)) == YieldLT(AsTerm(e)) && ValLE(AsSum(e)) == ValLT(AsTerm(e))
    ensures e.Total? ==> YieldLE(AsSum(e)) == YieldLE(AsSum(e.l)) + [PLUS] + YieldLT(AsTerm(e.r))
    ensures e.Total? ==> ValLE(AsSum(e)) == ValLE(AsSum(e.l)) + ValLT(AsTerm(e.r))
    ensures !e.Product? ==> YieldLT(AsTerm(e)) == YieldLF(AsFactor(e)) && ValLT(AsTerm(e)) == ValLF(AsFactor(e))
    ensures e.Product? ==> YieldLT(AsTerm(e)) == YieldLT(AsTerm(e.l)) + [MULT] + YieldLF(AsFactor(e.r))
    ensures e.Product? ==> ValLT(AsTerm(e)) == ValLT(AsTerm(e.l)) * ValLF(AsFactor(e.r))
    ensures e.Number? ==> YieldLF(AsFactor(e)) == [NUMBER(e.n)] && ValLF(AsFactor(e)) == e.n
    ensures !e.Number? ==>
              YieldLF(AsFactor(e)) == [LBRAC] + YieldLE(AsSum(e)) + [RBRAC] && ValLF(AsFactor(e)) == ValLE(AsSum(e))
  {
  }

  /** Writing an expression down and evaluating the tokens gives its arithmetic value. */
  lemma EvaluateWritten(e: Exp)
    ensures Evaluate(Written(e, Sums)) == Some(Meaning(e))
  {
    WrittenDerives(e);
    assert LeftDerives(Written(e, Sums), Meaning(e));
    EvaluateIsDerivation(Written(e, Sums), Meaning(e));
  }
}
