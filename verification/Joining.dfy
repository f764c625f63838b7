/** expr.c: the rules that merge two operands of one chain (expr_join_or, expr_join_and, expr_extract_eq). */
module Joining {
  import opened Wrappers
  import opened Expressions
  import opened Equality
  import opened Normalisation

  /** The symbol the first operand is about, if it is a form the rules look at. */
  function SymbolOfFirst(e: Expr): Option<Symbol> {
    match e
    case Sym(s) => Some(s)
    case Eq(a, _) => Some(a)
    case Neq(a, _) => Some(a)
    case Not(Sym(s)) => Some(s)
    case Not(Eq(a, _)) => Some(a)
    case Not(Neq(a, _)) => Some(a)
    case _ => None
  }

  /** As SymbolOfFirst, but under a negation only a symbol is accepted. */
  function SymbolOfSecond(e: Expr): Option<Symbol> {
    if e.Not? && !e.e.Sym? then None else SymbolOfFirst(e)
  }

  predicate SameBoolOrTri(e1: Expr, e2: Expr) {
    var s1, s2 := SymbolOfFirst(e1), SymbolOfSecond(e2);
    s1.Some? && s1 == s2 && (s1.value.IsBool() || s1.value.IsTri())
  }

  predicate EitherWay(x: Symbol, y: Symbol, u: Symbol, v: Symbol) {
    (x == u && y == v) || (x == v && y == u)
  }

  /** e1 || e2 as one expression, or None. */
  function JoinOr(e1: Expr, e2: Expr): Option<Expr> {
    if ExprEq(e1, e2) then Some(e1)
    else if !SameBoolOrTri(e1, e2) then None
    else
      var s := SymbolOfFirst(e1).value;
      if s.IsTri() && e1.Eq? && e2.Eq? && EitherWay(e1.b, e2.b, SymYes, SymMod) then Some(Neq(s, SymNo))
      else if s.IsTri() && e1.Eq? && e2.Eq? && EitherWay(e1.b, e2.b, SymYes, SymNo) then Some(Neq(s, SymMod))
      else if s.IsTri() && e1.Eq? && e2.Eq? && EitherWay(e1.b, e2.b, SymMod, SymNo) then Some(Neq(s, SymYes))
      else if s.IsBool() && ((e1.Not? && e1.e.Sym? && e2.Sym?) || (e2.Not? && e2.e.Sym? && e1.Sym?)) then Some(EYes)
      else None
  }

  /** e1 is the symbol itself and e2 its comparison (equal or not) with c, or the other way round. */
  predicate SymbolAndTest(e1: Expr, e2: Expr, equal: bool, c: Symbol) {
    || (e1.Sym? && IsTest(e2, equal, c))
    || (e2.Sym? && IsTest(e1, equal, c))
  }

  predicate IsTest(e: Expr, equal: bool, c: Symbol) {
    if equal then e.Eq? && e.b == c else e.Neq? && e.b == c
  }

  /** e1 && e2 as one expression, or None. */
  function JoinAnd(e1: Expr, e2: Expr): Option<Expr> {
    if ExprEq(e1, e2) then Some(e1)
    else if !SameBoolOrTri(e1, e2) then None
    else
      var s := SymbolOfFirst(e1).value;
      if SymbolAndTest(e1, e2, true, SymYes) then Some(Eq(s, SymYes))
      else if SymbolAndTest(e1, e2, false, SymNo) then Some(Sym(s))
      else if SymbolAndTest(e1, e2, false, SymMod) then Some(Eq(s, SymYes))
      else if !s.IsTri() then None
      else if e1.Eq? && e2.Neq? && e2.b.IsConst() && e1.b.IsConst() then
        Some(if e1.b != e2.b then Eq(s, e1.b) else ENo)
      else if e1.Neq? && e2.Eq? && e1.b.IsConst() && e2.b.IsConst() then
        Some(if e2.b != e1.b then Eq(s, e2.b) else ENo)
      else if e1.Neq? && e2.Neq? && EitherWay(e1.b, e2.b, SymYes, SymNo) then Some(Eq(s, SymMod))
      else if e1.Neq? && e2.Neq? && EitherWay(e1.b, e2.b, SymYes, SymMod) then Some(Eq(s, SymNo))
      else if e1.Neq? && e2.Neq? && EitherWay(e1.b, e2.b, SymMod, SymNo) then Some(Eq(s, SymYes))
      else None
  }

  function Join(op: Op, e1: Expr, e2: Expr): Option<Expr> {
    if op == OpAnd then JoinAnd(e1, e2) else JoinOr(e1, e2)
  }

  /** A joined operand has the value of the two it replaces, m included. */
  lemma JoinEval(op: Op, e1: Expr, e2: Expr, env: Env)
    requires WellTyped(env)
    requires Join(op, e1, e2).Some?
    ensures Eval(Join(op, e1, e2).value, env) == Apply(op, Eval(e1, env), Eval(e2, env))
  {
    if ExprEq(e1, e2) {
      ExprEqSound(e1, e2, env);
    } else if op == OpAnd {
      JoinAndEval(e1, e2, env);
    } else {
      JoinOrEval(e1, e2, env);
    }
  }

  lemma JoinOrEval(e1: Expr, e2: Expr, env: Env)
    requires WellTyped(env) && !ExprEq(e1, e2)
    requires JoinOr(e1, e2).Some?
    ensures Eval(JoinOr(e1, e2).value, env) == Max(Eval(e1, env), Eval(e2, env))
  {
    hide ExprEq, EliminateEq;
    assert SymOk(env, SymYes) && SymOk(env, SymNo) && SymOk(env, SymMod);
    assert SymOk(env, SymbolOfFirst(e1).value);
  }

  lemma JoinAndEval(e1: Expr, e2: Expr, env: Env)
    requires WellTyped(env) && !ExprEq(e1, e2)
    requires JoinAnd(e1, e2).Some?
    ensures Eval(JoinAnd(e1, e2).value, env) == Min(Eval(e1, env), Eval(e2, env))
  {
    hide ExprEq, EliminateEq;
    assert SymOk(env, SymYes) && SymOk(env, SymNo) && SymOk(env, SymMod);
    assert SymOk(env, SymbolOfFirst(e1).value);
    if (e1.Eq? || e1.Neq?) && (e2.Eq? || e2.Neq?) {
      JoinAndComparisons(e1, e2, env);
    }
  }

  lemma JoinAndComparisons(e1: Expr, e2: Expr, env: Env)
    requires WellTyped(env) && !ExprEq(e1, e2)
    requires JoinAnd(e1, e2).Some? && (e1.Eq? || e1.Neq?) && (e2.Eq? || e2.Neq?)
    ensures Eval(JoinAnd(e1, e2).value, env) == Min(Eval(e1, env), Eval(e2, env))
  {
    hide ExprEq, EliminateEq;
    assert SymOk(env, SymYes) && SymOk(env, SymNo) && SymOk(env, SymMod);
    assert SymOk(env, SymbolOfFirst(e1).value);
    assert SymOk(env, e1.b) && SymOk(env, e2.b);
    assert e1.b.IsConst() && e2.b.IsConst() && env.str(e1.b) == env.str(e2.b) ==> e1.b == e2.b;
    hide WellTyped;
  }

  /** A join yields no chain of the same kind and nothing larger; y and n are joined with themselves only. */
  lemma JoinShape(op: Op, e1: Expr, e2: Expr)
    requires Join(op, e1, e2).Some?
    requires !Is(op, e1)
    ensures !Is(op, Join(op, e1, e2).value)
    ensures Size(Join(op, e1, e2).value) <= Size(e1)
    ensures e1 == EYes || e1 == ENo || e2 == EYes || e2 == ENo ==> e1 == e2
    ensures IsNnf(e1) && IsNnf(e2) ==> IsNnf(Join(op, e1, e2).value)
  {
  }

  // ---- which pairs are joined ----

  /** The remaining one of y, m and n. */
  function Third(c: Symbol, d: Symbol): Symbol {
    if c != SymYes && d != SymYes then SymYes else if c != SymMod && d != SymMod then SymMod else SymNo
  }

  /** Two comparisons of a tristate with y, m or n: an inequality is absorbed or makes the third value, or gives n. */
  lemma AndOfComparisons(s: Symbol, c: Symbol, d: Symbol)
    requires s.IsTri() && c.IsYMN() && d.IsYMN() && c != d
    ensures JoinAnd(Neq(s, c), Neq(s, d)) == Some(Eq(s, Third(c, d)))
    ensures JoinAnd(Eq(s, c), Neq(s, d)) == JoinAnd(Neq(s, d), Eq(s, c)) == Some(Eq(s, c))
    ensures JoinAnd(Eq(s, c), Neq(s, c)) == JoinAnd(Neq(s, c), Eq(s, c)) == Some(ENo)
    ensures JoinAnd(Eq(s, c), Eq(s, d)) == None
  {
  }

  /** A symbol and its own comparison. */
  lemma AndOfSymbol(s: Symbol, c: Symbol)
    requires (s.IsTri() || s.IsBool()) && c.IsYMN()
    ensures JoinAnd(Sym(s), Neq(s, c)) == JoinAnd(Neq(s, c), Sym(s)) ==
      if c == SymNo then Some(Sym(s)) else if c == SymMod then Some(Eq(s, SymYes)) else None
    ensures JoinAnd(Sym(s), Eq(s, c)) == JoinAnd(Eq(s, c), Sym(s)) == if c == SymYes then Some(Eq(s, SymYes)) else None
    ensures JoinAnd(Sym(s), Not(Sym(s))) == JoinAnd(Not(Sym(s)), Sym(s)) == None
  {
  }

  /** In an OR two equalities exclude the third value; a boolean or its negation is y. */
  lemma OrOfComparisons(s: Symbol, c: Symbol, d: Symbol)
    requires s.IsTri() && c.IsYMN() && d.IsYMN() && c != d
    ensures JoinOr(Eq(s, c), Eq(s, d)) == Some(Neq(s, Third(c, d)))
    ensures JoinOr(Neq(s, c), Neq(s, d)) == JoinOr(Eq(s, c), Neq(s, d)) == JoinOr(Neq(s, c), Eq(s, d)) == None
    ensures JoinOr(Eq(s, c), Neq(s, c)) == JoinOr(Neq(s, c), Eq(s, c)) == None
  {
  }

  lemma OrOfSymbol(s: Symbol, c: Symbol)
    requires (s.IsTri() || s.IsBool()) && c.IsYMN()
    ensures JoinOr(Sym(s), Not(Sym(s))) == JoinOr(Not(Sym(s)), Sym(s)) == if s.IsBool() then Some(EYes) else None
    ensures JoinOr(Sym(s), Eq(s, c)) == JoinOr(Sym(s), Neq(s, c)) == None
  {
  }

  /** Operands about different symbols, or about a text or undefined symbol, are joined only if they are equal. */
  lemma JoinNeedsSymbol(op: Op, e1: Expr, e2: Expr)
    requires Join(op, e1, e2).Some? && !ExprEq(e1, e2)
    ensures exists s :: SymbolOfFirst(e1) == SymbolOfSecond(e2) == Some(s) && (s.IsBool() || s.IsTri())
    ensures SymbolOfFirst(e1).value in Mentions(e1) && SymbolOfFirst(e1).value in Mentions(e2)
  {
    hide ExprEq;
  }

  lemma EqualIsJoined(op: Op, e1: Expr, e2: Expr)
    requires ExprEq(e1, e2)
    ensures Join(op, e1, e2) == Some(e1)
  {
    hide ExprEq;
  }

  // ---- expr_extract_eq ----

  /** Moves the common operands of the two chains to found; what is left of each chain takes their place. */
  function ExtractEq(op: Op, found: Option<Expr>, e1: Expr, e2: Expr): (r: (Option<Expr>, Expr, Expr))
    ensures Size(r.1) <= Size(e1) && Size(r.2) <= Size(e2)
    decreases Size(e1) + Size(e2)
  {
    if Is(op, e1) then
      var (f, l, e2') := ExtractEq(op, found, e1.l, e2);
      var (f', r, e2'') := ExtractEq(op, f, e1.r, e2');
      (f', Mk(op, l, r), e2'')
    else if Is(op, e2) then
      var (f, e1', l) := ExtractEq(op, found, e1, e2.l);
      var (f', e1'', r) := ExtractEq(op, f, e1', e2.r);
      (f', e1'', Mk(op, l, r))
    else if ExprEq(e1, e2) then
      (Some(if found.Some? then Mk(op, found.value, e1) else e1), Neutral(op), Neutral(op))
    else (found, e1, e2)
  }

  /** If nothing has been found, nothing has been replaced. */
  lemma {:induction false} ExtractUnfound(op: Op, found: Option<Expr>, e1: Expr, e2: Expr)
    ensures var (f, r1, r2) := ExtractEq(op, found, e1, e2);
      (found.Some? ==> f.Some?) && (f.None? ==> r1 == e1 && r2 == e2)
    decreases Size(e1) + Size(e2)
  {
    hide ExprEq;
    if Is(op, e1) {
      var (f, l, e2') := ExtractEq(op, found, e1.l, e2);
      ExtractUnfound(op, found, e1.l, e2);
      ExtractUnfound(op, f, e1.r, e2');
      assert e1 == Mk(op, e1.l, e1.r);
    } else if Is(op, e2) {
      var (f, e1', l) := ExtractEq(op, found, e1, e2.l);
      ExtractUnfound(op, found, e1, e2.l);
      ExtractUnfound(op, f, e1', e2.r);
      assert e2 == Mk(op, e2.l, e2.r);
    }
  }

  lemma {:induction false} ExtractSingle(op: Op, found: Option<Expr>, e1: Expr, e2: Expr)
    requires !Is(op, e1)
    ensures ExtractEq(op, found, e1, e2).1 == e1 || ExtractEq(op, found, e1, e2).1 == Neutral(op)
    decreases Size(e2)
  {
    hide ExprEq;
    if Is(op, e2) {
      var (f, e1', l) := ExtractEq(op, found, e1, e2.l);
      ExtractSingle(op, found, e1, e2.l);
      ExtractSingle(op, f, e1', e2.r);
    }
  }

  lemma {:induction false} ExtractOperands(op: Op, found: Option<Expr>, e1: Expr, e2: Expr)
    ensures forall y :: Occurs(op, ExtractEq(op, found, e1, e2).2, y) ==> Occurs(op, e2, y) || y == Neutral(op)
    decreases Size(e1) + Size(e2)
  {
    hide ExprEq;
    if Is(op, e1) {
      var (f, l, e2') := ExtractEq(op, found, e1.l, e2);
      ExtractOperands(op, found, e1.l, e2);
      ExtractOperands(op, f, e1.r, e2');
    } else if Is(op, e2) {
      var (f, e1', l) := ExtractEq(op, found, e1, e2.l);
      ExtractOperands(op, found, e1, e2.l);
      ExtractOperands(op, f, e1', e2.r);
    }
  }

  /** No operand but y and n is on both sides. */
  ghost predicate NoneCommon(op: Op, e1: Expr, e2: Expr) {
    forall x, y :: Occurs(op, e1, x) && Occurs(op, e2, y) && ExprEq(x, y) ==> IsYn(x)
  }

  lemma NoneCommonParts(op: Op, l: Expr, r: Expr, e: Expr)
    ensures NoneCommon(op, Mk(op, l, r), e) <==> NoneCommon(op, l, e) && NoneCommon(op, r, e)
    ensures NoneCommon(op, e, Mk(op, l, r)) <==> NoneCommon(op, e, l) && NoneCommon(op, e, r)
  {
    hide ExprEq;
  }

  lemma NoneCommonWith(op: Op, e: Expr, d: Expr, d': Expr)
    requires forall y :: Occurs(op, d', y) ==> Occurs(op, d, y) || y == Neutral(op)
    ensures NoneCommon(op, e, d) ==> NoneCommon(op, e, d')
  {
    NeutralEqual(op);
    hide ExprEq, Occurs;
  }

  lemma NeutralCommon(op: Op, e: Expr)
    ensures NoneCommon(op, Neutral(op), e)
  {
  }

  /** Everything the two chains have in common is extracted. */
  lemma {:induction false} ExtractExhausts(op: Op, found: Option<Expr>, e1: Expr, e2: Expr)
    ensures var (f, r1, r2) := ExtractEq(op, found, e1, e2); NoneCommon(op, r1, r2)
    decreases Size(e1) + Size(e2)
  {
    hide NoneCommon, ExprEq, Occurs;
    if Is(op, e1) {
      var (f, l, e2') := ExtractEq(op, found, e1.l, e2);
      var (_, r, e2'') := ExtractEq(op, f, e1.r, e2');
      ExtractExhausts(op, found, e1.l, e2);
      ExtractExhausts(op, f, e1.r, e2');
      ExtractOperands(op, f, e1.r, e2');
      NoneCommonWith(op, l, e2', e2'');
      NoneCommonParts(op, l, r, e2'');
    } else if Is(op, e2) {
      var (f, e1', l) := ExtractEq(op, found, e1, e2.l);
      var (_, e1'', r) := ExtractEq(op, f, e1', e2.r);
      ExtractExhausts(op, found, e1, e2.l);
      ExtractExhausts(op, f, e1', e2.r);
      ExtractSingle(op, found, e1, e2.l);
      ExtractSingle(op, f, e1', e2.r);
      NeutralCommon(op, l);
      NoneCommonParts(op, l, r, e1'');
    } else {
      ExtractLeaf(op, found, e1, e2);
    }
  }

  lemma ExtractLeaf(op: Op, found: Option<Expr>, e1: Expr, e2: Expr)
    requires !Is(op, e1) && !Is(op, e2)
    ensures var (f, r1, r2) := ExtractEq(op, found, e1, e2); NoneCommon(op, r1, r2)
  {
  }

  /** Where nothing absorbs, what the two sides keep is what expr_eliminate_eq leaves of them. */
  lemma {:induction false} ExtractIsCommon(op: Op, found: Option<Expr>, e1: Expr, e2: Expr)
    requires !Occurs(op, e1, if op == OpAnd then ENo else EYes)
    ensures var (f, r1, r2) := ExtractEq(op, found, e1, e2); (r1, r2) == EliminateCommon(op, e1, e2)
    decreases Size(e1) + Size(e2)
  {
    hide ExprEq, EliminateEq;
    if Is(op, e1) {
      var (f, l, e2') := ExtractEq(op, found, e1.l, e2);
      ExtractIsCommon(op, found, e1.l, e2);
      ExtractIsCommon(op, f, e1.r, e2');
    } else if Is(op, e2) {
      var (f, e1', l) := ExtractEq(op, found, e1, e2.l);
      ExtractIsCommon(op, found, e1, e2.l);
      ExtractSingle(op, found, e1, e2.l);
      ExtractIsCommon(op, f, e1', e2.r);
    } else {
      ExtractIsCommonLeaf(op, found, e1, e2);
    }
  }

  lemma ExtractIsCommonLeaf(op: Op, found: Option<Expr>, e1: Expr, e2: Expr)
    requires !Is(op, e1) && !Is(op, e2) && e1 != (if op == OpAnd then ENo else EYes)
    ensures var (f, r1, r2) := ExtractEq(op, found, e1, e2); (r1, r2) == EliminateCommon(op, e1, e2)
  {
  }

  /** expr_extract_eq_and and expr_extract_eq_or. */
  function ExtractCommon(op: Op, e1: Expr, e2: Expr): (Option<Expr>, Expr, Expr) {
    var (f, r1, r2) := ExtractEq(op, None, e1, e2);
    if f.Some? then (f, EliminateYn(r1), EliminateYn(r2)) else (f, r1, r2)
  }

  function FoundValue(op: Op, found: Option<Expr>, env: Env): Tri {
    if found.None? then UnitOf(op) else Eval(found.value, env)
  }

  lemma {:induction false} ExtractEqSplits(op: Op, found: Option<Expr>, e1: Expr, e2: Expr, env: Env) returns (c: Tri)
    requires WellTyped(env)
    ensures var (f, r1, r2) := ExtractEq(op, found, e1, e2);
      && FoundValue(op, f, env) == Apply(op, FoundValue(op, found, env), c)
      && Eval(e1, env) == Apply(op, c, Eval(r1, env))
      && Eval(e2, env) == Apply(op, c, Eval(r2, env))
    decreases Size(e1) + Size(e2)
  {
    if Is(op, e1) {
      var (f, l, e2') := ExtractEq(op, found, e1.l, e2);
      var (f', r, e2'') := ExtractEq(op, f, e1.r, e2');
      var c1 := ExtractEqSplits(op, found, e1.l, e2, env);
      var c2 := ExtractEqSplits(op, f, e1.r, e2', env);
      c := Apply(op, c1, c2);
      EvalMk(op, e1.l, e1.r, env);
      EvalMk(op, l, r, env);
      Interchange(op, c1, Eval(l, env), c2, Eval(r, env));
      Assoc(op, c1, c2, Eval(e2'', env));
      Assoc(op, FoundValue(op, found, env), c1, c2);
    } else if Is(op, e2) {
      var (f, e1', l) := ExtractEq(op, found, e1, e2.l);
      var (f', e1'', r) := ExtractEq(op, f, e1', e2.r);
      var c1 := ExtractEqSplits(op, found, e1, e2.l, env);
      var c2 := ExtractEqSplits(op, f, e1', e2.r, env);
      c := Apply(op, c1, c2);
      EvalMk(op, e2.l, e2.r, env);
      EvalMk(op, l, r, env);
      Interchange(op, c1, Eval(l, env), c2, Eval(r, env));
      Assoc(op, c1, c2, Eval(e1'', env));
      Assoc(op, FoundValue(op, found, env), c1, c2);
    } else if ExprEq(e1, e2) {
      ExprEqSound(e1, e2, env);
      assert SymOk(env, SymYes) && SymOk(env, SymNo);
      c := Eval(e1, env);
      if found.Some? {
        EvalMk(op, found.value, e1, env);
      }
    } else {
      c := UnitOf(op);
    }
  }

  /** Each side is the extracted part joined with what is left of it, in every assignment. */
  lemma ExtractCommonFactors(op: Op, e1: Expr, e2: Expr, env: Env)
    requires WellTyped(env)
    ensures var (f, r1, r2) := ExtractCommon(op, e1, e2);
      && Eval(e1, env) == Apply(op, FoundValue(op, f, env), Eval(r1, env))
      && Eval(e2, env) == Apply(op, FoundValue(op, f, env), Eval(r2, env))
  {
    var (f, r1, r2) := ExtractEq(op, None, e1, e2);
    var c := ExtractEqSplits(op, None, e1, e2, env);
    assert c == FoundValue(op, f, env) by { UnitLaw(op, c); }
    if f.Some? {
      EliminateYnEval(r1, env);
      EliminateYnEval(r2, env);
    }
  }
}
