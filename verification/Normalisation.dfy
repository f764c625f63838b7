/** expr.c: expr_transform, which pushes negations to the symbols and resolves comparisons of booleans. */
module Normalisation {
  import opened Expressions

  /** Bounds the work left: a De Morgan step adds a node but removes weight. */
  function Weight(e: Expr): (n: nat)
    ensures n >= 1
  {
    match e
    case Sym(_) => 1
    case Not(x) => 2 * Weight(x)
    case And(l, r) => Weight(l) + Weight(r) + 1
    case Or(l, r) => Weight(l) + Weight(r) + 1
    case _ => 2
  }

  function Transform(e: Expr): (r: Expr)
    ensures Weight(r) <= Weight(e)
    decreases Weight(e)
  {
    match e
    case Sym(_) => e
    case And(l, r) => And(Transform(l), Transform(r))
    case Or(l, r) => Or(Transform(l), Transform(r))
    case Eq(a, b) =>
      if !a.IsBool() then e
      else if b == SymNo then Not(Sym(a))
      else if b == SymMod then ENo
      else if b == SymYes then Sym(a)
      else e
    case Neq(a, b) =>
      if !a.IsBool() then e
      else if b == SymNo then Sym(a)
      else if b == SymMod then EYes
      else if b == SymYes then Not(Sym(a))
      else e
    case Not(x) =>
      match Transform(x)
      case Not(y) => Transform(y)
      case Eq(a, b) => Neq(a, b)
      case Neq(a, b) => Eq(a, b)
      case Or(l, r) =>
        assert Weight(Not(l)) + Weight(Not(r)) == 2 * Weight(l) + 2 * Weight(r);
        Transform(And(Not(l), Not(r)))
      case And(l, r) =>
        assert Weight(Not(l)) + Weight(Not(r)) == 2 * Weight(l) + 2 * Weight(r);
        Transform(Or(Not(l), Not(r)))
      case Sym(s) =>
        if s == SymYes then ENo
        else if s == SymMod then Sym(SymMod)
        else if s == SymNo then EYes
        else Not(Sym(s))
  }

  /** The value a == b (or a != b) asks for, with comparisons of booleans to y, m and n resolved. */
  function Compare(a: Symbol, b: Symbol, equal: bool): Expr {
    if a.IsBool() && b == SymMod then (if equal then ENo else EYes)
    else if a.IsBool() && b.IsYN() then (if (b == SymYes) == equal then Sym(a) else Not(Sym(a)))
    else if equal then Eq(a, b)
    else Neq(a, b)
  }

  /** Negation normal form in one structural pass; neg says that e stands under an odd number of negations. */
  function Nnf(e: Expr, neg: bool): Expr {
    match e
    case Sym(s) =>
      if !neg || s == SymMod then e
      else if s == SymYes then ENo
      else if s == SymNo then EYes
      else Not(e)
    case Not(x) => Nnf(x, !neg)
    case And(l, r) => if neg then Or(Nnf(l, neg), Nnf(r, neg)) else And(Nnf(l, neg), Nnf(r, neg))
    case Or(l, r) => if neg then And(Nnf(l, neg), Nnf(r, neg)) else Or(Nnf(l, neg), Nnf(r, neg))
    case Eq(a, b) => Compare(a, b, !neg)
    case Neq(a, b) => Compare(a, b, neg)
  }

  /** Not only over a symbol other than y, m and n; no boolean symbol compared with y, m or n. */
  predicate IsNnf(e: Expr) {
    match e
    case Sym(_) => true
    case Not(x) => x.Sym? && !x.s.IsYMN()
    case And(l, r) => IsNnf(l) && IsNnf(r)
    case Or(l, r) => IsNnf(l) && IsNnf(r)
    case Eq(a, b) => !(a.IsBool() && b.IsYMN())
    case Neq(a, b) => !(a.IsBool() && b.IsYMN())
  }

  lemma {:induction false} NnfCompose(e: Expr, b: bool, c: bool)
    ensures Nnf(Nnf(e, b), c) == Nnf(e, b != c)
  {
    match e
    case Not(x) => NnfCompose(x, !b, c);
    case And(l, r) => NnfCompose(l, b, c); NnfCompose(r, b, c);
    case Or(l, r) => NnfCompose(l, b, c); NnfCompose(r, b, c);
    case _ =>
  }

  /** The repeated rewriting reaches what the single pass computes. */
  lemma {:induction false} TransformIsNnf(e: Expr)
    ensures Transform(e) == Nnf(e, false)
    decreases Weight(e)
  {
    match e
    case And(l, r) => TransformIsNnf(l); TransformIsNnf(r);
    case Or(l, r) => TransformIsNnf(l); TransformIsNnf(r);
    case Not(x) =>
      TransformIsNnf(x);
      NnfCompose(x, false, true);
      match Transform(x) {
        case Not(y) => TransformIsNnf(y);
        case Or(l, r) =>
          assert Weight(Not(l)) + Weight(Not(r)) == 2 * Weight(l) + 2 * Weight(r);
          TransformIsNnf(And(Not(l), Not(r)));
        case And(l, r) =>
          assert Weight(Not(l)) + Weight(Not(r)) == 2 * Weight(l) + 2 * Weight(r);
          TransformIsNnf(Or(Not(l), Not(r)));
        case Eq(a, b) => NnfIsNormal(x, false);
        case Neq(a, b) => NnfIsNormal(x, false);
        case Sym(_) =>
      }
    case _ =>
  }

  lemma {:induction false} NnfIsNormal(e: Expr, neg: bool)
    ensures IsNnf(Nnf(e, neg))
  {
    match e
    case Not(x) => NnfIsNormal(x, !neg);
    case And(l, r) => NnfIsNormal(l, neg); NnfIsNormal(r, neg);
    case Or(l, r) => NnfIsNormal(l, neg); NnfIsNormal(r, neg);
    case _ =>
  }

  lemma {:induction false} NormalIsFixed(e: Expr)
    requires IsNnf(e)
    ensures Nnf(e, false) == e
  {
    match e
    case And(l, r) => NormalIsFixed(l); NormalIsFixed(r);
    case Or(l, r) => NormalIsFixed(l); NormalIsFixed(r);
    case _ =>
  }

  /** The result is in negation normal form; exactly the expressions in that form are left as they are. */
  lemma TransformNormalises(e: Expr)
    ensures IsNnf(Transform(e))
    ensures Transform(e) == e <==> IsNnf(e)
    ensures Transform(Transform(e)) == Transform(e)
  {
    TransformIsNnf(e);
    NnfIsNormal(e, false);
    if IsNnf(e) {
      NormalIsFixed(e);
    }
    TransformIsNnf(Transform(e));
    NormalIsFixed(Transform(e));
  }

  lemma {:induction false} NnfEval(e: Expr, neg: bool, env: Env)
    requires WellTyped(env)
    ensures Eval(Nnf(e, neg), env) == if neg then Neg(Eval(e, env)) else Eval(e, env)
  {
    assert SymOk(env, SymYes) && SymOk(env, SymNo) && SymOk(env, SymMod);
    match e
    case Not(x) => NnfEval(x, !neg, env);
    case And(l, r) => NnfEval(l, neg, env); NnfEval(r, neg, env);
    case Or(l, r) => NnfEval(l, neg, env); NnfEval(r, neg, env);
    case Eq(a, b) => assert SymOk(env, a);
    case Neq(a, b) => assert SymOk(env, a);
    case Sym(_) =>
  }

  /** expr_transform preserves the tristate value in every well-typed assignment, m included. */
  lemma TransformEval(e: Expr, env: Env)
    requires WellTyped(env)
    ensures Eval(Transform(e), env) == Eval(e, env)
  {
    TransformIsNnf(e);
    NnfEval(e, false, env);
  }
}
