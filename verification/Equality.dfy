/** expr.c: equality of expressions modulo common operands (expr_eq and the elimination under it). */
module Equality {
  import opened Expressions

  // ---- expr_eliminate_yn ----

  function EliminateYn(e: Expr): (r: Expr)
    ensures Size(r) <= Size(e)
  {
    match e
    case And(l, r) =>
      var l', r' := EliminateYn(l), EliminateYn(r);
      if l' == ENo then ENo
      else if l' == EYes then r'
      else if r' == ENo then ENo
      else if r' == EYes then l'
      else And(l', r')
    case Or(l, r) =>
      var l', r' := EliminateYn(l), EliminateYn(r);
      if l' == ENo then r'
      else if l' == EYes then EYes
      else if r' == ENo then l'
      else if r' == EYes then EYes
      else Or(l', r')
    case _ => e
  }

  /** Constant folding of y and n keeps the value in every assignment. */
  lemma {:induction false} EliminateYnEval(e: Expr, env: Env)
    requires WellTyped(env)
    ensures Eval(EliminateYn(e), env) == Eval(e, env)
  {
    assert SymOk(env, SymYes) && SymOk(env, SymNo);
    match e
    case And(l, r) => EliminateYnEval(l, env); EliminateYnEval(r, env);
    case Or(l, r) => EliminateYnEval(l, env); EliminateYnEval(r, env);
    case _ =>
  }

  // ---- __expr_eliminate_eq, expr_eliminate_eq, expr_eq ----

  /** Drops from the two op-chains, pairwise, the operands that are equal; the pair is *ep1, *ep2 afterwards. */
  function EliminateCommon(op: Op, e1: Expr, e2: Expr): (r: (Expr, Expr))
    ensures Size(r.0) <= Size(e1) && Size(r.1) <= Size(e2)
    ensures Is(op, e1) ==> Is(op, r.0)
    ensures Is(op, e2) ==> Is(op, r.1)
    decreases Size(e1) + Size(e2), if Is(op, e1) || Is(op, e2) then 0 else 3
  {
    if Is(op, e1) then
      var (l, e2') := EliminateCommon(op, e1.l, e2);
      var (r, e2'') := EliminateCommon(op, e1.r, e2');
      (Mk(op, l, r), e2'')
    else if Is(op, e2) then
      var (e1', l) := EliminateCommon(op, e1, e2.l);
      var (e1'', r) := EliminateCommon(op, e1', e2.r);
      (e1'', Mk(op, l, r))
    else if e1.Sym? && e1 == e2 && e1.s.IsYN() then (e1, e2)
    else if !ExprEq(e1, e2) then (e1, e2)
    else (Neutral(op), Neutral(op))
  }

  function EliminateEq(e1: Expr, e2: Expr): (r: (Expr, Expr))
    decreases Size(e1) + Size(e2), 1
  {
    var (e1', e2') := if IsChain(e1) then EliminateCommon(TypeOf(e1), e1, e2) else (e1, e2);
    var (e1'', e2'') :=
      if IsChain(e2') && !(IsChain(e1') && TypeOf(e1') == TypeOf(e2'))
      then EliminateCommon(TypeOf(e2'), e1', e2') else (e1', e2');
    (EliminateYn(e1''), EliminateYn(e2''))
  }

  predicate ExprEq(e1: Expr, e2: Expr)
    decreases Size(e1) + Size(e2), 2
  {
    match (e1, e2)
    case (Eq(_, _), Eq(_, _)) => e1 == e2
    case (Neq(_, _), Neq(_, _)) => e1 == e2
    case (Sym(_), Sym(_)) => e1 == e2
    case (Not(x), Not(y)) => ExprEq(x, y)
    case (And(_, _), And(_, _)) =>
      var (r1, r2) := EliminateEq(e1, e2);
      r1.Sym? && r1 == r2
    case (Or(_, _), Or(_, _)) =>
      var (r1, r2) := EliminateEq(e1, e2);
      r1.Sym? && r1 == r2
    case _ => false
  }

  /** Both sides lose the same part: c is the value, under env, of what was taken from each of them. */
  lemma {:induction false} EliminateCommonPart(op: Op, e1: Expr, e2: Expr, env: Env) returns (c: Tri)
    requires WellTyped(env)
    ensures var (r1, r2) := EliminateCommon(op, e1, e2);
      && Eval(e1, env) == Apply(op, c, Eval(r1, env))
      && Eval(e2, env) == Apply(op, c, Eval(r2, env))
    decreases Size(e1) + Size(e2), if Is(op, e1) || Is(op, e2) then 0 else 3
  {
    if Is(op, e1) {
      assert e1 == Mk(op, e1.l, e1.r);
      c := CommonPartLeft(op, e1.l, e1.r, e2, env);
    } else if Is(op, e2) {
      assert e2 == Mk(op, e2.l, e2.r);
      c := CommonPartRight(op, e1, e2.l, e2.r, env);
    } else if !(e1.Sym? && e1 == e2 && e1.s.IsYN()) && ExprEq(e1, e2) {
      ExprEqSound(e1, e2, env);
      assert SymOk(env, SymYes) && SymOk(env, SymNo);
      c := Eval(e1, env);
    } else {
      c := UnitOf(op);
    }
  }

  lemma {:induction false} CommonPartLeft(op: Op, l: Expr, r: Expr, e2: Expr, env: Env) returns (c: Tri)
    requires WellTyped(env)
    ensures var (r1, r2) := EliminateCommon(op, Mk(op, l, r), e2);
      && Eval(Mk(op, l, r), env) == Apply(op, c, Eval(r1, env))
      && Eval(e2, env) == Apply(op, c, Eval(r2, env))
    decreases 1 + Size(l) + Size(r) + Size(e2), 0, 0
  {
    var (l', e2') := EliminateCommon(op, l, e2);
    var (r', e2'') := EliminateCommon(op, r, e2');
    var c1 := EliminateCommonPart(op, l, e2, env);
    var c2 := EliminateCommonPart(op, r, e2', env);
    c := Apply(op, c1, c2);
    EvalMk(op, l, r, env);
    EvalMk(op, l', r', env);
    Interchange(op, c1, Eval(l', env), c2, Eval(r', env));
    Assoc(op, c1, c2, Eval(e2'', env));
  }

  lemma {:induction false} CommonPartRight(op: Op, e1: Expr, l: Expr, r: Expr, env: Env) returns (c: Tri)
    requires WellTyped(env)
    requires !Is(op, e1)
    ensures var (r1, r2) := EliminateCommon(op, e1, Mk(op, l, r));
      && Eval(e1, env) == Apply(op, c, Eval(r1, env))
      && Eval(Mk(op, l, r), env) == Apply(op, c, Eval(r2, env))
    decreases Size(e1) + 1 + Size(l) + Size(r), 0, 0
  {
    var (e1', l') := EliminateCommon(op, e1, l);
    var (e1'', r') := EliminateCommon(op, e1', r);
    var c1 := EliminateCommonPart(op, e1, l, env);
    var c2 := EliminateCommonPart(op, e1', r, env);
    c := Apply(op, c1, c2);
    EvalMk(op, l, r, env);
    EvalMk(op, l', r', env);
    Interchange(op, c1, Eval(l', env), c2, Eval(r', env));
    Assoc(op, c1, c2, Eval(e1'', env));
  }

  /** expr_eq is sound: 1 means the same value in every assignment. */
  lemma {:induction false} ExprEqSound(e1: Expr, e2: Expr, env: Env)
    requires ExprEq(e1, e2)
    requires WellTyped(env)
    ensures Eval(e1, env) == Eval(e2, env)
    decreases Size(e1) + Size(e2), 2
  {
    if IsChain(e1) {
      var op := TypeOf(e1);
      var (r1, r2) := EliminateCommon(op, e1, e2);
      var c := EliminateCommonPart(op, e1, e2, env);
      EliminateYnEval(r1, env);
      EliminateYnEval(r2, env);
    } else if e1.Not? {
      ExprEqSound(e1.e, e2.e, env);
    }
  }

  lemma EliminateCommonOrder(op: Op, e1: Expr, e2: Expr, env: Env)
    requires WellTyped(env)
    requires var (r1, r2) := EliminateCommon(op, e1, e2); Eval(r1, env) <= Eval(r2, env)
    ensures Eval(e1, env) <= Eval(e2, env)
  {
    var c := EliminateCommonPart(op, e1, e2, env);
  }

  /**
   * If the second operand is y after expr_eliminate_eq, the first operand's original value is at most
   * the second's. The nesting test of menu_finalize relies on this.
   */
  lemma EliminateEqImplies(e1: Expr, e2: Expr, env: Env)
    requires WellTyped(env)
    requires EliminateEq(e1, e2).1 == EYes
    ensures Eval(e1, env) <= Eval(e2, env)
  {
    var (f1, f2) := if IsChain(e1) then EliminateCommon(TypeOf(e1), e1, e2) else (e1, e2);
    assert Eval(f1, env) <= Eval(f2, env) by {
      assert SymOk(env, SymYes);
      if IsChain(f2) && !(IsChain(f1) && TypeOf(f1) == TypeOf(f2)) {
        EliminateYnEval(EliminateCommon(TypeOf(f2), f1, f2).1, env);
        EliminateCommonOrder(TypeOf(f2), f1, f2, env);
      } else {
        EliminateYnEval(f2, env);
      }
    }
    if IsChain(e1) {
      EliminateCommonOrder(TypeOf(e1), e1, e2, env);
    }
  }

  // ---- expr_eq recognises every expression as equal to itself ----

  /** e after everything in it has been matched: y and n operands stay, all others are the neutral symbol. */
  function Blank(op: Op, e: Expr): Expr {
    if Is(op, e) then Mk(op, Blank(op, e.l), Blank(op, e.r))
    else if e.Sym? && e.s.IsYN() then e
    else Neutral(op)
  }

  predicate IsBlank(op: Op, e: Expr) {
    if Is(op, e) then IsBlank(op, e.l) && IsBlank(op, e.r) else e.Sym? && e.s.IsYN()
  }

  /** The rest of a chain around one of its parts. */
  datatype Context = Hole | InLeft(c: Context, r: Expr) | InRight(l: Expr, c: Context)

  function Plug(op: Op, c: Context, x: Expr): Expr {
    match c
    case Hole => x
    case InLeft(c', r) => Mk(op, Plug(op, c', x), r)
    case InRight(l, c') => Mk(op, l, Plug(op, c', x))
  }

  function Compose(c: Context, d: Context): Context {
    match c
    case Hole => d
    case InLeft(c', r) => InLeft(Compose(c', d), r)
    case InRight(l, c') => InRight(l, Compose(c', d))
  }

  /** Everything before the hole is matched already. */
  predicate BlankBefore(op: Op, c: Context) {
    match c
    case Hole => true
    case InLeft(c', _) => BlankBefore(op, c')
    case InRight(l, c') => IsBlank(op, l) && BlankBefore(op, c')
  }

  lemma {:induction false} BlankIsBlank(op: Op, e: Expr)
    ensures IsBlank(op, Blank(op, e))
  {
    if Is(op, e) {
      BlankIsBlank(op, e.l);
      BlankIsBlank(op, e.r);
    }
  }

  lemma {:induction false} BlankFolds(op: Op, e: Expr)
    requires IsBlank(op, e)
    ensures EliminateYn(e) == EYes || EliminateYn(e) == ENo
  {
    if Is(op, e) {
      BlankFolds(op, e.l);
      BlankFolds(op, e.r);
      assert e == Mk(op, e.l, e.r);
    }
  }

  lemma {:induction false} ComposePlug(op: Op, c: Context, d: Context, x: Expr)
    ensures Plug(op, Compose(c, d), x) == Plug(op, c, Plug(op, d, x))
    ensures BlankBefore(op, Compose(c, d)) == (BlankBefore(op, c) && BlankBefore(op, d))
  {
    match c
    case Hole =>
    case InLeft(c', _) => ComposePlug(op, c', d, x);
    case InRight(_, c') => ComposePlug(op, c', d, x);
  }

  /** An operand is never eliminated against y or n, from either side. */
  lemma {:induction false} BlankIsInert(op: Op, e1: Expr, e2: Expr)
    requires IsBlank(op, e1) || IsBlank(op, e2)
    ensures EliminateCommon(op, e1, e2) == (e1, e2)
    decreases Size(e1) + Size(e2)
  {
    if Is(op, e1) {
      BlankIsInert(op, e1.l, e2);
      BlankIsInert(op, e1.r, e2);
      assert e1 == Mk(op, e1.l, e1.r);
    } else if Is(op, e2) {
      BlankIsInert(op, e1, e2.l);
      BlankIsInert(op, e1, e2.r);
      assert e2 == Mk(op, e2.l, e2.r);
    }
  }

  lemma {:induction false} OperandMatchesItself(op: Op, x: Expr, c: Context)
    requires !Is(op, x) && BlankBefore(op, c) && ExprEq(x, x)
    ensures EliminateCommon(op, x, Plug(op, c, x)) == (Blank(op, x), Plug(op, c, Blank(op, x)))
  {
    match c
    case Hole =>
    case InLeft(c', r) =>
      OperandMatchesItself(op, x, c');
      BlankIsInert(op, Blank(op, x), r);
    case InRight(l, c') =>
      OperandMatchesItself(op, x, c');
      BlankIsInert(op, x, l);
  }

  lemma {:induction false} ChainMatchesItself(op: Op, x: Expr, c: Context)
    requires BlankBefore(op, c)
    ensures EliminateCommon(op, x, Plug(op, c, x)) == (Blank(op, x), Plug(op, c, Blank(op, x)))
    decreases Size(x), if Is(op, x) then 0 else 2
  {
    if Is(op, x) {
      assert x == Mk(op, x.l, x.r);
      var left, right := InLeft(Hole, x.r), InRight(Blank(op, x.l), Hole);
      BlankIsBlank(op, x.l);
      ComposePlug(op, c, left, x.l);
      ComposePlug(op, c, left, Blank(op, x.l));
      ComposePlug(op, c, right, x.r);
      ComposePlug(op, c, right, Blank(op, x.r));
      ChainMatchesItself(op, x.l, Compose(c, left));
      ChainMatchesItself(op, x.r, Compose(c, right));
    } else {
      ExprEqReflexive(x);
      OperandMatchesItself(op, x, c);
    }
  }

  /** expr_eq is reflexive, whatever constants, duplicates or nesting the expression has. */
  lemma {:induction false} ExprEqReflexive(e: Expr)
    ensures ExprEq(e, e)
    decreases Size(e), 1
  {
    if IsChain(e) {
      var op := TypeOf(e);
      ChainMatchesItself(op, e, Hole);
      BlankIsBlank(op, e);
      BlankFolds(op, Blank(op, e));
    } else if e.Not? {
      ExprEqReflexive(e.e);
    }
  }

  // ---- what is eliminated, and when it must be ----

  /** x is one of the operands of the op-chain e; an expression of another kind is its own only operand. */
  predicate Occurs(op: Op, e: Expr, x: Expr) {
    if Is(op, e) then Occurs(op, e.l, x) || Occurs(op, e.r, x) else x == e
  }

  predicate IsYn(e: Expr) { e.Sym? && e.s.IsYN() }

  /** Operands are only replaced by the neutral symbol. */
  lemma {:induction false} CommonOperands(op: Op, e1: Expr, e2: Expr)
    ensures var (r1, r2) := EliminateCommon(op, e1, e2);
      && (forall x :: Occurs(op, r1, x) ==> Occurs(op, e1, x) || x == Neutral(op))
      && (forall y :: Occurs(op, r2, y) ==> Occurs(op, e2, y) || y == Neutral(op))
    decreases Size(e1) + Size(e2)
  {
    hide ExprEq, EliminateEq;
    if Is(op, e1) {
      var (l, e2') := EliminateCommon(op, e1.l, e2);
      CommonOperands(op, e1.l, e2);
      CommonOperands(op, e1.r, e2');
    } else if Is(op, e2) {
      var (e1', l) := EliminateCommon(op, e1, e2.l);
      CommonOperands(op, e1, e2.l);
      CommonOperands(op, e1', e2.r);
      SingleRemains(op, e1, e2.l);
    }
  }

  lemma {:induction false} SingleRemains(op: Op, e1: Expr, e2: Expr)
    requires !Is(op, e1)
    ensures EliminateCommon(op, e1, e2).0 == e1 || EliminateCommon(op, e1, e2).0 == Neutral(op)
    decreases Size(e2)
  {
    if Is(op, e2) {
      SingleRemains(op, e1, e2.l);
      SingleRemains(op, EliminateCommon(op, e1, e2.l).0, e2.r);
    }
  }

  lemma NeutralEqual(op: Op)
    ensures forall x :: ExprEq(x, Neutral(op)) ==> IsYn(x)
  {
  }

  /** Nothing that could be eliminated is left: no operand but y and n is equal to one on the other side. */
  lemma {:induction false} CommonExhausts(op: Op, e1: Expr, e2: Expr)
    ensures var (r1, r2) := EliminateCommon(op, e1, e2);
      forall x, y :: Occurs(op, r1, x) && Occurs(op, r2, y) && ExprEq(x, y) ==> IsYn(x)
    decreases Size(e1) + Size(e2)
  {
    hide ExprEq, EliminateEq;
    NeutralEqual(op);
    if Is(op, e1) {
      var (l, e2') := EliminateCommon(op, e1.l, e2);
      CommonExhausts(op, e1.l, e2);
      CommonExhausts(op, e1.r, e2');
      CommonOperands(op, e1.r, e2');
    } else if Is(op, e2) {
      var (e1', l) := EliminateCommon(op, e1, e2.l);
      CommonExhausts(op, e1, e2.l);
      CommonExhausts(op, e1', e2.r);
      SingleRemains(op, e1, e2.l);
      SingleRemains(op, e1', e2.r);
    }
  }

  /** x is y or n, or has no equal operand in e. */
  ghost predicate Unmatched(op: Op, x: Expr, e: Expr) {
    IsYn(x) || forall y :: Occurs(op, e, y) ==> !ExprEq(x, y) && !ExprEq(y, x)
  }

  /** Nothing else is eliminated: an operand without an equal one on the other side stays. */
  lemma {:induction false} CommonStays(op: Op, e1: Expr, e2: Expr)
    ensures var (r1, r2) := EliminateCommon(op, e1, e2);
      && (forall x :: Occurs(op, e1, x) && Unmatched(op, x, e2) ==> Occurs(op, r1, x))
      && (forall y :: Occurs(op, e2, y) && Unmatched(op, y, e1) ==> Occurs(op, r2, y))
    decreases Size(e1) + Size(e2)
  {
    hide ExprEq, EliminateEq, Unmatched;
    if Is(op, e1) {
      var (l, e2') := EliminateCommon(op, e1.l, e2);
      CommonStays(op, e1.l, e2);
      CommonStays(op, e1.r, e2');
      CommonOperands(op, e1.l, e2);
      StillUnmatched(op, e2, e2');
      UnmatchedParts(op, e1);
    } else if Is(op, e2) {
      var (e1', l) := EliminateCommon(op, e1, e2.l);
      CommonStays(op, e1, e2.l);
      CommonStays(op, e1', e2.r);
      SingleRemains(op, e1, e2.l);
      SingleUnmatched(op, e1, e1');
      UnmatchedParts(op, e2);
    } else {
      LeafStays(op, e1, e2);
    }
  }

  lemma LeafStays(op: Op, e1: Expr, e2: Expr)
    requires !Is(op, e1) && !Is(op, e2)
    ensures Unmatched(op, e1, e2) ==> EliminateCommon(op, e1, e2).0 == e1
    ensures Unmatched(op, e2, e1) ==> EliminateCommon(op, e1, e2).1 == e2
  {
    assert Occurs(op, e1, e1) && Occurs(op, e2, e2);
  }

  lemma StillUnmatched(op: Op, e: Expr, e': Expr)
    requires forall y :: Occurs(op, e', y) ==> Occurs(op, e, y) || y == Neutral(op)
    ensures forall x :: Unmatched(op, x, e) ==> Unmatched(op, x, e')
  {
    hide ExprEq, Occurs;
    forall x | Unmatched(op, x, e)
      ensures Unmatched(op, x, e')
    {
      NeutralUnmatched(op, x);
    }
  }

  lemma SingleUnmatched(op: Op, e: Expr, e': Expr)
    requires !Is(op, e) && (e' == e || e' == Neutral(op))
    ensures forall x :: Unmatched(op, x, e) ==> Unmatched(op, x, e')
  {
    StillUnmatched(op, e, e');
  }

  lemma UnmatchedParts(op: Op, e: Expr)
    requires Is(op, e)
    ensures forall x :: Unmatched(op, x, e) ==> Unmatched(op, x, e.l) && Unmatched(op, x, e.r)
  {
    hide ExprEq;
  }

  lemma NeutralUnmatched(op: Op, x: Expr)
    ensures IsYn(x) || (!ExprEq(x, Neutral(op)) && !ExprEq(Neutral(op), x))
  {
  }

  /** Two chains without a common operand are left as they are. */
  lemma {:induction false} NothingCommon(op: Op, e1: Expr, e2: Expr)
    requires forall x, y :: Occurs(op, e1, x) && Occurs(op, e2, y) ==> !ExprEq(x, y)
    ensures EliminateCommon(op, e1, e2) == (e1, e2)
    decreases Size(e1) + Size(e2)
  {
    hide ExprEq, EliminateEq;
    if Is(op, e1) {
      NothingCommon(op, e1.l, e2);
      NothingCommon(op, e1.r, e2);
      assert e1 == Mk(op, e1.l, e1.r);
    } else if Is(op, e2) {
      NothingCommon(op, e1, e2.l);
      NothingCommon(op, e1, e2.r);
      assert e2 == Mk(op, e2.l, e2.r);
    }
  }

  /** Whether one of the operands of the chain e is equal to y. */
  predicate HasEqual(op: Op, e: Expr, y: Expr) {
    if Is(op, e) then HasEqual(op, e.l, y) || HasEqual(op, e.r, y) else ExprEq(e, y)
  }

  lemma {:induction false} HasEqualMeans(op: Op, e: Expr, y: Expr, x: Expr)
    requires Occurs(op, e, x) && ExprEq(x, y)
    ensures HasEqual(op, e, y)
  {
    if Is(op, e) {
      if Occurs(op, e.l, x) {
        HasEqualMeans(op, e.l, y, x);
      } else {
        HasEqualMeans(op, e.r, y, x);
      }
    }
  }

  lemma {:induction false} HasEqualFinds(op: Op, e: Expr, y: Expr) returns (x: Expr)
    requires HasEqual(op, e, y)
    ensures Occurs(op, e, x) && ExprEq(x, y)
  {
    if Is(op, e) {
      if HasEqual(op, e.l, y) {
        x := HasEqualFinds(op, e.l, y);
      } else {
        x := HasEqualFinds(op, e.r, y);
      }
    } else {
      x := e;
    }
  }

  /** A single second operand is eliminated exactly if the first chain has one equal to it. */
  lemma {:induction false} SingleEliminated(op: Op, e1: Expr, e2: Expr)
    requires !Is(op, e2) && !IsYn(e2)
    ensures EliminateCommon(op, e1, e2).1 == if HasEqual(op, e1, e2) then Neutral(op) else e2
    decreases Size(e1)
  {
    hide ExprEq, EliminateEq;
    if Is(op, e1) {
      SingleEliminated(op, e1.l, e2);
      SingleEliminated(op, e1.r, e2);
      BlankIsInert(op, e1.r, Neutral(op));
    }
  }

  /**
   * expr_eliminate_eq takes an operand of the first chain away from the second expression, be that a chain of the
   * other kind: nothing of it is left but the neutral symbol.
   */
  lemma OperandEliminated(e1: Expr, e2: Expr, x: Expr)
    requires IsChain(e1) && !Is(TypeOf(e1), e2) && !IsYn(e2)
    requires Occurs(TypeOf(e1), e1, x) && ExprEq(x, e2)
    ensures EliminateEq(e1, e2).1 == Neutral(TypeOf(e1))
  {
    SingleEliminated(TypeOf(e1), e1, e2);
    HasEqualMeans(TypeOf(e1), e1, e2, x);
    hide ExprEq, EliminateCommon;
  }

  /** Whether x is equal to one of the operands of the chain e. */
  predicate EqualIn(op: Op, x: Expr, e: Expr) {
    if Is(op, e) then EqualIn(op, x, e.l) || EqualIn(op, x, e.r) else ExprEq(x, e)
  }

  lemma {:induction false} EqualInMeans(op: Op, x: Expr, e: Expr, y: Expr)
    requires Occurs(op, e, y) && ExprEq(x, y)
    ensures EqualIn(op, x, e)
  {
    if Is(op, e) {
      if Occurs(op, e.l, y) {
        EqualInMeans(op, x, e.l, y);
      } else {
        EqualInMeans(op, x, e.r, y);
      }
    }
  }

  lemma {:induction false} SingleFirstEliminated(op: Op, e1: Expr, e2: Expr)
    requires !Is(op, e1) && !IsYn(e1)
    ensures EliminateCommon(op, e1, e2).0 == if EqualIn(op, e1, e2) then Neutral(op) else e1
    decreases Size(e2)
  {
    hide ExprEq, EliminateEq;
    if Is(op, e2) {
      SingleFirstEliminated(op, e1, e2.l);
      SingleFirstEliminated(op, e1, e2.r);
      BlankIsInert(op, Neutral(op), e2.r);
    }
  }

  /** ... and an operand of the second chain away from the first expression, unless that has the second as operand. */
  lemma FirstEliminated(e1: Expr, e2: Expr, y: Expr)
    requires IsChain(e2) && !Is(TypeOf(e2), e1) && !IsYn(e1)
    requires Occurs(TypeOf(e2), e2, y) && ExprEq(e1, y)
    requires IsChain(e1) ==> forall x :: Occurs(TypeOf(e1), e1, x) ==> !ExprEq(x, e2)
    ensures EliminateEq(e1, e2).0 == Neutral(TypeOf(e2))
  {
    if IsChain(e1) {
      NothingCommon(TypeOf(e1), e1, e2);
    }
    SingleFirstEliminated(TypeOf(e2), e1, e2);
    EqualInMeans(TypeOf(e2), e1, e2, y);
    hide ExprEq, EliminateCommon;
  }

  /** Two expressions without a common operand are only cleared of constants. */
  lemma NothingEliminated(e1: Expr, e2: Expr)
    requires forall op, x, y :: Occurs(op, e1, x) && Occurs(op, e2, y) ==> !ExprEq(x, y)
    ensures EliminateEq(e1, e2) == (EliminateYn(e1), EliminateYn(e2))
  {
    NothingCommon(OpAnd, e1, e2);
    NothingCommon(OpOr, e1, e2);
  }

  lemma OnePass(op: Op, e1: Expr, e2: Expr)
    requires Is(op, e1)
    ensures var (r1, r2) := EliminateCommon(op, e1, e2);
      (IsChain(r2) ==> Is(op, r2)) ==> EliminateEq(e1, e2) == (EliminateYn(r1), EliminateYn(r2))
  {
    assert TypeOf(e1) == op;
  }

  /** No operand before the hole is equal to one of e. */
  ghost predicate ApartBefore(op: Op, c: Context, e: Expr) {
    match c
    case Hole => true
    case InLeft(d, _) => ApartBefore(op, d, e)
    case InRight(l, d) => (forall x, y :: Occurs(op, l, x) && Occurs(op, e, y) ==> !ExprEq(x, y)) && ApartBefore(op, d, e)
  }

  lemma {:induction false} PartMatched(op: Op, c: Context, e: Expr)
    requires ApartBefore(op, c, e)
    ensures EliminateCommon(op, Plug(op, c, e), e).1 == Blank(op, e)
  {
    BlankIsBlank(op, e);
    match c
    case Hole =>
      ChainMatchesItself(op, e, Hole);
    case InLeft(d, r) =>
      PartMatched(op, d, e);
      BlankIsInert(op, r, Blank(op, e));
    case InRight(l, d) =>
      NothingCommon(op, l, e);
      PartMatched(op, d, e);
  }

  /** No operand of l stands in the way of x: it is y or n, or equal to none of the operands of x. */
  ghost predicate Inert(op: Op, x: Expr, l: Expr) {
    forall y, z :: Occurs(op, l, y) && Occurs(op, x, z) ==> IsYn(y) || !ExprEq(z, y)
  }

  ghost predicate InertBefore(op: Op, c: Context, x: Expr) {
    match c
    case Hole => true
    case InLeft(d, _) => InertBefore(op, d, x)
    case InRight(l, d) => Inert(op, x, l) && InertBefore(op, d, x)
  }

  lemma InertParts(op: Op, x: Expr, l: Expr)
    requires Inert(op, x, l)
    ensures Is(op, x) ==> Inert(op, x.l, l) && Inert(op, x.r, l)
    ensures Is(op, l) ==> Inert(op, x, l.l) && Inert(op, x, l.r)
  {
    hide ExprEq;
  }

  lemma {:induction false} InertNothing(op: Op, x: Expr, l: Expr)
    requires Inert(op, x, l)
    ensures EliminateCommon(op, x, l) == (x, l)
    decreases Size(x) + Size(l)
  {
    InertParts(op, x, l);
    hide Inert, ExprEq, EliminateEq;
    if Is(op, x) {
      InertNothing(op, x.l, l);
      InertNothing(op, x.r, l);
      assert x == Mk(op, x.l, x.r);
    } else if Is(op, l) {
      InertNothing(op, x, l.l);
      InertNothing(op, x, l.r);
      assert l == Mk(op, l.l, l.r);
    } else {
      InertLeaf(op, x, l);
    }
  }

  lemma InertLeaf(op: Op, x: Expr, l: Expr)
    requires !Is(op, x) && !Is(op, l) && Inert(op, x, l)
    ensures EliminateCommon(op, x, l) == (x, l)
  {
    assert Occurs(op, l, l) && Occurs(op, x, x);
  }

  lemma {:induction false} InertBeforePart(op: Op, c: Context, x: Expr, part: Expr)
    requires InertBefore(op, c, x) && Is(op, x) && (part == x.l || part == x.r)
    ensures InertBefore(op, c, part)
  {
    hide Inert;
    match c
    case Hole =>
    case InLeft(d, _) => InertBeforePart(op, d, x, part);
    case InRight(l, d) =>
      InertParts(op, x, l);
      InertBeforePart(op, d, x, part);
  }

  lemma {:induction false} InertCompose(op: Op, c: Context, d: Context, x: Expr)
    requires InertBefore(op, c, x) && InertBefore(op, d, x)
    ensures InertBefore(op, Compose(c, d), x)
  {
    hide Inert;
    match c
    case Hole =>
    case InLeft(c', _) => InertCompose(op, c', d, x);
    case InRight(_, c') => InertCompose(op, c', d, x);
  }

  lemma {:induction false} BlankOperands(op: Op, e: Expr, y: Expr)
    requires IsBlank(op, e) && Occurs(op, e, y)
    ensures IsYn(y)
  {
    if Is(op, e) {
      BlankOperands(op, if Occurs(op, e.l, y) then e.l else e.r, y);
    }
  }

  lemma BlankInert(op: Op, x: Expr, l: Expr)
    requires IsBlank(op, l)
    ensures Inert(op, x, l)
  {
    forall y | Occurs(op, l, y)
      ensures IsYn(y)
    {
      BlankOperands(op, l, y);
    }
  }

  lemma {:induction false} OperandFound(op: Op, c: Context, x: Expr)
    requires !Is(op, x) && InertBefore(op, c, x)
    ensures EliminateCommon(op, x, Plug(op, c, x)) == (Blank(op, x), Plug(op, c, Blank(op, x)))
  {
    hide Inert;
    match c
    case Hole => ExprEqReflexive(x);
    case InLeft(d, r) =>
      OperandFound(op, d, x);
      BlankIsInert(op, Blank(op, x), r);
    case InRight(l, d) =>
      OperandFound(op, d, x);
      InertNothing(op, x, l);
  }

  /** A chain is eliminated by any chain that it is part of, wherever in it, if nothing before it is in the way. */
  lemma {:induction false} PartFound(op: Op, c: Context, x: Expr)
    requires InertBefore(op, c, x)
    ensures EliminateCommon(op, x, Plug(op, c, x)) == (Blank(op, x), Plug(op, c, Blank(op, x)))
    decreases Size(x)
  {
    hide Inert, ExprEq, EliminateEq;
    if Is(op, x) {
      assert x == Mk(op, x.l, x.r);
      var left, right := InLeft(Hole, x.r), InRight(Blank(op, x.l), Hole);
      BlankIsBlank(op, x.l);
      ComposePlug(op, c, left, x.l);
      ComposePlug(op, c, left, Blank(op, x.l));
      ComposePlug(op, c, right, x.r);
      ComposePlug(op, c, right, Blank(op, x.r));
      InertBeforePart(op, c, x, x.l);
      InertBeforePart(op, c, x, x.r);
      InertCompose(op, c, left, x.l);
      BlankInert(op, x.r, Blank(op, x.l));
      InertCompose(op, c, right, x.r);
      PartFound(op, Compose(c, left), x.l);
      PartFound(op, Compose(c, right), x.r);
    } else {
      OperandFound(op, c, x);
    }
  }

  /** A part of a chain is eliminated by the chain: what is left of it is y or n, and neutral if none of it absorbs. */
  lemma PartEliminated(op: Op, c: Context, e: Expr)
    requires ApartBefore(op, c, e) && c != Hole
    ensures EliminateEq(Plug(op, c, e), e).1 == EliminateYn(Blank(op, e))
  {
    PartMatched(op, c, e);
    BlankIsBlank(op, e);
    OnePass(op, Plug(op, c, e), e);
    hide ExprEq, EliminateYn, EliminateEq;
  }

  lemma {:induction false} BlankIsNeutral(op: Op, e: Expr)
    requires !Occurs(op, e, if op == OpAnd then ENo else EYes)
    ensures EliminateYn(Blank(op, e)) == Neutral(op)
  {
    if Is(op, e) {
      BlankIsNeutral(op, e.l);
      BlankIsNeutral(op, e.r);
    }
  }

  /** No chain in e, not even under a negation. */
  predicate ChainFree(e: Expr) { !IsChain(e) && (e.Not? ==> ChainFree(e.e)) }

  /** Outside chains expr_eq is identity: neither comparisons read the other way round nor other kinds are equal. */
  lemma {:induction false} ExprEqLeaf(e1: Expr, e2: Expr)
    requires ChainFree(e1)
    ensures ExprEq(e1, e2) <==> e1 == e2
  {
    if e1.Not? && e2.Not? {
      ExprEqLeaf(e1.e, e2.e);
    }
  }

  /** The operands of a chain of two may be swapped. */
  lemma ExprEqSwapped(op: Op, a: Expr, b: Expr)
    requires !Is(op, a) && !Is(op, b) && !IsYn(a) && !IsYn(b) && !ExprEq(a, b)
    ensures ExprEq(Mk(op, a, b), Mk(op, b, a))
  {
    ExprEqReflexive(a);
    ExprEqReflexive(b);
    NeutralUnmatched(op, a);
    NeutralUnmatched(op, b);
    var n := Neutral(op);
    assert EliminateCommon(op, a, Mk(op, b, a)) == (n, Mk(op, b, n));
    assert EliminateCommon(op, b, Mk(op, b, n)) == (n, Mk(op, n, n));
    assert EliminateCommon(op, Mk(op, a, b), Mk(op, b, a)) == (Mk(op, n, n), Mk(op, n, n));
    assert EliminateYn(Mk(op, n, n)) == n;
  }
}
