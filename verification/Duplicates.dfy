/**
 * expr.c: expr_eliminate_dups. The two passes walk one tree with two slots (`struct expr **ep1, **ep2`)
 * that may lie inside one another; a slot is modelled as a path from the root of the chain being worked on.
 */
module Duplicates {
  import opened Wrappers
  import opened Expressions
  import opened Equality
  import opened Normalisation
  import opened Joining

  // ---- slots of a chain ----

  datatype Side = Left | Right
  type Path = seq<Side>

  function Child(e: Expr, s: Side): Expr
    requires IsChain(e)
  {
    if s == Left then e.l else e.r
  }

  predicate OnChain(op: Op, e: Expr, p: Path) {
    p == [] || (Is(op, e) && OnChain(op, Child(e, p[0]), p[1..]))
  }

  function At(op: Op, e: Expr, p: Path): (x: Expr)
    requires OnChain(op, e, p)
    ensures Size(x) <= Size(e) && (p != [] ==> Size(x) < Size(e))
  {
    if p == [] then e else At(op, Child(e, p[0]), p[1..])
  }

  function Put(op: Op, e: Expr, p: Path, x: Expr): Expr
    requires OnChain(op, e, p)
  {
    if p == [] then x
    else if p[0] == Left then Mk(op, Put(op, e.l, p[1..], x), e.r)
    else Mk(op, e.l, Put(op, e.r, p[1..], x))
  }

  predicate SameChain(op: Op, a: Expr, b: Expr) {
    Is(op, a) == Is(op, b) && (Is(op, a) ==> SameChain(op, a.l, b.l) && SameChain(op, a.r, b.r))
  }

  function ChainSize(op: Op, e: Expr): nat {
    if Is(op, e) then 1 + ChainSize(op, e.l) + ChainSize(op, e.r) else 0
  }

  lemma {:induction false} ChainRefl(op: Op, a: Expr)
    ensures SameChain(op, a, a)
  {
    if Is(op, a) {
      ChainRefl(op, a.l);
      ChainRefl(op, a.r);
    }
  }

  lemma {:induction false} ChainTrans(op: Op, a: Expr, b: Expr, c: Expr)
    requires SameChain(op, a, b) && SameChain(op, b, c)
    ensures SameChain(op, a, c)
  {
    if Is(op, a) {
      ChainTrans(op, a.l, b.l, c.l);
      ChainTrans(op, a.r, b.r, c.r);
    }
  }

  lemma {:induction false} ChainSizeSame(op: Op, a: Expr, b: Expr)
    requires SameChain(op, a, b)
    ensures ChainSize(op, a) == ChainSize(op, b)
  {
    if Is(op, a) {
      ChainSizeSame(op, a.l, b.l);
      ChainSizeSame(op, a.r, b.r);
    }
  }

  /** A slot stays a slot as long as the chain keeps its shape. */
  lemma {:induction false} SlotStays(op: Op, a: Expr, b: Expr, p: Path)
    requires SameChain(op, a, b) && OnChain(op, a, p)
    ensures OnChain(op, b, p)
    ensures Is(op, At(op, a, p)) == Is(op, At(op, b, p))
    ensures ChainSize(op, At(op, a, p)) == ChainSize(op, At(op, b, p))
  {
    if p == [] {
      ChainSizeSame(op, a, b);
    } else {
      SlotStays(op, Child(a, p[0]), Child(b, p[0]), p[1..]);
    }
  }

  lemma {:induction false} Below(op: Op, e: Expr, p: Path)
    requires OnChain(op, e, p) && Is(op, At(op, e, p))
    ensures OnChain(op, e, p + [Left]) && At(op, e, p + [Left]) == At(op, e, p).l
    ensures OnChain(op, e, p + [Right]) && At(op, e, p + [Right]) == At(op, e, p).r
  {
    if p == [] {
      assert (p + [Left])[1..] == [] && (p + [Right])[1..] == [];
    } else {
      Below(op, Child(e, p[0]), p[1..]);
      assert (p + [Left])[1..] == p[1..] + [Left] && (p + [Right])[1..] == p[1..] + [Right];
    }
  }

  /** Replacing one operand by another keeps the shape. */
  lemma {:induction false} PutOperand(op: Op, e: Expr, p: Path, x: Expr)
    requires OnChain(op, e, p) && !Is(op, At(op, e, p)) && !Is(op, x)
    ensures SameChain(op, e, Put(op, e, p, x))
    ensures Size(Put(op, e, p, x)) == Size(e) - Size(At(op, e, p)) + Size(x)
    ensures OnChain(op, Put(op, e, p, x), p) && At(op, Put(op, e, p, x), p) == x
  {
    if p != [] {
      PutOperand(op, Child(e, p[0]), p[1..], x);
      ChainRefl(op, e.l);
      ChainRefl(op, e.r);
    }
  }

  lemma {:induction false} PutElsewhere(op: Op, e: Expr, p: Path, x: Expr, q: Path)
    requires OnChain(op, e, p) && !Is(op, At(op, e, p))
    requires OnChain(op, e, q) && !Is(op, At(op, e, q))
    requires p != q
    ensures OnChain(op, Put(op, e, p, x), q) && At(op, Put(op, e, p, x), q) == At(op, e, q)
  {
    if p[0] == q[0] {
      assert p[1..] != q[1..] by { assert p == [p[0]] + p[1..] && q == [q[0]] + q[1..]; }
      PutElsewhere(op, Child(e, p[0]), p[1..], x, q[1..]);
    }
  }

  lemma {:induction false} PutNnf(op: Op, e: Expr, p: Path, x: Expr)
    requires OnChain(op, e, p) && IsNnf(e)
    ensures IsNnf(At(op, e, p))
    ensures IsNnf(x) ==> IsNnf(Put(op, e, p, x))
  {
    if p != [] {
      PutNnf(op, Child(e, p[0]), p[1..], x);
    }
  }

  lemma {:induction false} YnNnf(e: Expr)
    requires IsNnf(e)
    ensures IsNnf(EliminateYn(e))
  {
    if IsChain(e) {
      YnNnf(e.l);
      YnNnf(e.r);
    }
  }

  lemma {:induction false} PutSame(op: Op, e: Expr, p: Path)
    requires OnChain(op, e, p)
    ensures Put(op, e, p, At(op, e, p)) == e
  {
    if p != [] {
      PutSame(op, Child(e, p[0]), p[1..]);
    }
  }

  /** The value of everything in the chain but the part at p. */
  function Rest(op: Op, e: Expr, p: Path, env: Env): Tri
    requires OnChain(op, e, p)
  {
    if p == [] then UnitOf(op)
    else if p[0] == Left then Apply(op, Rest(op, e.l, p[1..], env), Eval(e.r, env))
    else Apply(op, Rest(op, e.r, p[1..], env), Eval(e.l, env))
  }

  lemma RestStep(op: Op, rest: Tri, other: Tri, v: Tri)
    ensures Apply(op, Apply(op, rest, other), v) == Apply(op, Apply(op, rest, v), other)
    ensures Apply(op, Apply(op, rest, other), v) == Apply(op, other, Apply(op, rest, v))
  {
  }

  lemma {:induction false} RestEval(op: Op, e: Expr, p: Path, x: Expr, env: Env)
    requires OnChain(op, e, p)
    ensures Eval(Put(op, e, p, x), env) == Apply(op, Rest(op, e, p, env), Eval(x, env))
    ensures Eval(e, env) == Apply(op, Rest(op, e, p, env), Eval(At(op, e, p), env))
  {
    if p == [] {
      UnitLaw(op, Eval(x, env));
      UnitLaw(op, Eval(e, env));
    } else {
      var c, q := Child(e, p[0]), p[1..];
      var other := if p[0] == Left then e.r else e.l;
      RestEval(op, c, q, x, env);
      RestStep(op, Rest(op, c, q, env), Eval(other, env), Eval(x, env));
      RestStep(op, Rest(op, c, q, env), Eval(other, env), Eval(At(op, c, q), env));
      EvalMk(op, e.l, e.r, env);
      if p[0] == Left {
        EvalMk(op, Put(op, c, q, x), e.r, env);
      } else {
        EvalMk(op, e.l, Put(op, c, q, x), env);
      }
    }
  }

  // ---- termination: a counted rewrite leaves something for expr_eliminate_yn ----

  predicate IsConst(e: Expr) { e == EYes || e == ENo }

  predicate Reducible(e: Expr) {
    IsChain(e) && (IsConst(e.l) || IsConst(e.r) || Reducible(e.l) || Reducible(e.r))
  }

  /** expr_eliminate_yn makes a reducible tree strictly smaller and keeps every other tree. */
  lemma {:induction false} EliminateYnShrinks(e: Expr)
    ensures if Reducible(e) then Size(EliminateYn(e)) < Size(e) else EliminateYn(e) == e
  {
    if IsChain(e) {
      EliminateYnShrinks(e.l);
      EliminateYnShrinks(e.r);
    }
  }

  lemma {:induction false} ReducibleAt(op: Op, e: Expr, p: Path)
    requires OnChain(op, e, p)
    requires Reducible(At(op, e, p)) || (p != [] && IsConst(At(op, e, p)))
    ensures Reducible(e)
  {
    if p != [] && (p[1..] != [] || Reducible(At(op, e, p))) {
      ReducibleAt(op, Child(e, p[0]), p[1..]);
    }
  }

  lemma {:induction false} ReducibleElsewhere(op: Op, e: Expr, p: Path, x: Expr)
    requires OnChain(op, e, p) && Reducible(e)
    requires !IsConst(At(op, e, p)) && (Reducible(At(op, e, p)) ==> Reducible(x))
    ensures Reducible(Put(op, e, p, x))
  {
    if p != [] {
      var c := Child(e, p[0]);
      if Reducible(c) {
        ReducibleElsewhere(op, c, p[1..], x);
      }
    }
  }

  // ---- what a pass keeps ----

  predicate Agree(kleene: bool, a: Tri, b: Tri) { if kleene then Refines(a, b) else a == b }

  ghost predicate SameMeaning(kleene: bool, e: Expr, e': Expr) {
    forall env :: WellTyped(env) ==> Agree(kleene, Eval(e, env), Eval(e', env))
  }

  /** From e with n counted rewrites to e' with n' of them; kleene allows m to become definite. */
  ghost predicate Progress(op: Op, kleene: bool, e: Expr, n: nat, e': Expr, n': nat) {
    && SameChain(op, e, e')
    && Size(e') <= Size(e)
    && SameMeaning(kleene, e, e')
    && n <= n'
    && (n == n' ==> e == e')
    && (Reducible(e) || n < n' ==> Reducible(e'))
    && (IsNnf(e) ==> IsNnf(e'))
  }

  lemma Unchanged(op: Op, kleene: bool, e: Expr, n: nat)
    ensures Progress(op, kleene, e, n, e, n)
  {
    ChainRefl(op, e);
  }

  lemma ProgressTrans(op: Op, kleene: bool, e: Expr, n: nat, e': Expr, n': nat, e'': Expr, n'': nat)
    requires Progress(op, kleene, e, n, e', n') && Progress(op, kleene, e', n', e'', n'')
    ensures Progress(op, kleene, e, n, e'', n'')
  {
    ChainTrans(op, e, e', e'');
    forall env | WellTyped(env)
      ensures Agree(kleene, Eval(e, env), Eval(e'', env))
    {
      assert Agree(kleene, Eval(e, env), Eval(e', env)) && Agree(kleene, Eval(e', env), Eval(e'', env));
    }
  }

  lemma AgreeInContext(op: Op, kleene: bool, rest: Tri, a: Tri, b: Tri)
    requires Agree(kleene, a, b)
    ensures Agree(kleene, Apply(op, rest, a), Apply(op, rest, b))
  {
  }

  /** Work done inside one operand, itself a chain of the other kind, is progress of the whole chain. */
  lemma NestedProgress(op: Op, kleene: bool, e: Expr, n: nat, p: Path, x: Expr, m: nat)
    requires OnChain(op, e, p) && !Is(op, At(op, e, p)) && IsChain(At(op, e, p))
    requires Progress(TypeOf(At(op, e, p)), kleene, At(op, e, p), 0, x, m)
    ensures Progress(op, kleene, e, n, Put(op, e, p, x), n + m)
  {
    var e1, e' := At(op, e, p), Put(op, e, p, x);
    PutOperand(op, e, p, x);
    PutSame(op, e, p);
    forall env | WellTyped(env)
      ensures Agree(kleene, Eval(e, env), Eval(e', env))
    {
      RestEval(op, e, p, x, env);
      assert Agree(kleene, Eval(e1, env), Eval(x, env));
      AgreeInContext(op, kleene, Rest(op, e, p, env), Eval(e1, env), Eval(x, env));
    }
    if IsNnf(e) {
      PutNnf(op, e, p, x);
    }
    if Reducible(x) {
      ReducibleAt(op, e', p);
    } else if Reducible(e) {
      ReducibleElsewhere(op, e, p, x);
    }
  }

  /** Joining the operands at p and q is exact and leaves a neutral symbol behind. */
  lemma JoinProgress(op: Op, e: Expr, n: nat, p: Path, q: Path)
    requires OnChain(op, e, p) && !Is(op, At(op, e, p))
    requires OnChain(op, e, q) && !Is(op, At(op, e, q))
    requires p != q && Join(op, At(op, e, p), At(op, e, q)).Some?
    ensures var e' := Put(op, e, p, Neutral(op));
      && OnChain(op, e', q)
      && Progress(op, false, e, n, Put(op, e', q, Join(op, At(op, e, p), At(op, e, q)).value), n + 1)
  {
    var e1, e2 := At(op, e, p), At(op, e, q);
    var t := Join(op, e1, e2).value;
    JoinShape(op, e1, e2);
    var e' := Put(op, e, p, Neutral(op));
    PutOperand(op, e, p, Neutral(op));
    PutElsewhere(op, e, p, Neutral(op), q);
    var e'' := Put(op, e', q, t);
    PutOperand(op, e', q, t);
    ChainTrans(op, e, e', e'');
    PutElsewhere(op, e', q, t, p);
    ReducibleAt(op, e'', p);
    if IsNnf(e) {
      PutNnf(op, e, p, Neutral(op));
      PutNnf(op, e', q, t);
    }
    forall env | WellTyped(env)
      ensures Eval(e, env) == Eval(e'', env)
    {
      JoinMeaning(op, e, p, q, env);
    }
  }

  lemma JoinMeaning(op: Op, e: Expr, p: Path, q: Path, env: Env)
    requires WellTyped(env)
    requires OnChain(op, e, p) && !Is(op, At(op, e, p))
    requires OnChain(op, e, q) && !Is(op, At(op, e, q))
    requires p != q && Join(op, At(op, e, p), At(op, e, q)).Some?
    requires OnChain(op, Put(op, e, p, Neutral(op)), q)
    ensures Eval(Put(op, Put(op, e, p, Neutral(op)), q, Join(op, At(op, e, p), At(op, e, q)).value), env) == Eval(e, env)
  {
    var e1, e2 := At(op, e, p), At(op, e, q);
    var t := Join(op, e1, e2).value;
    var e' := Put(op, e, p, Neutral(op));
    PutElsewhere(op, e, p, Neutral(op), q);
    RestEval(op, e, p, Neutral(op), env);
    RestEval(op, e', q, t, env);
    JoinEval(op, e1, e2, env);
    assert SymOk(env, SymYes) && SymOk(env, SymNo);
    assert Eval(Neutral(op), env) == UnitOf(op);
    JoinArithmetic(op, Rest(op, e, p, env), Rest(op, e', q, env), Eval(e1, env), Eval(e2, env));
  }

  lemma JoinArithmetic(op: Op, restP: Tri, restQ: Tri, v1: Tri, v2: Tri)
    requires Apply(op, restP, UnitOf(op)) == Apply(op, restQ, v2)
    ensures Apply(op, restQ, Apply(op, v1, v2)) == Apply(op, restP, v1)
  {
  }

  /** The operand e1 contradicts the rest e2 of an and-chain (or exhausts it, in an or-chain). */
  predicate Contradicts(op: Op, e1: Expr, e2: Expr) {
    ExtractCommon(op, Transform(Not(e1)), e2).1 == Neutral(op)
  }

  function Absorbing(op: Op): Expr { if op == OpAnd then ENo else EYes }

  lemma ContradictionBound(op: Op, e1: Expr, e2: Expr, env: Env)
    requires WellTyped(env) && Contradicts(op, e1, e2)
    ensures Apply(op, Eval(e2, env), Neg(Eval(e1, env))) == Eval(e2, env)
  {
    var not1 := Transform(Not(e1));
    TransformEval(Not(e1), env);
    ExtractCommonFactors(op, not1, e2, env);
    var (f, r1, r2) := ExtractCommon(op, not1, e2);
    assert Eval(r1, env) == UnitOf(op) by { assert SymOk(env, SymYes) && SymOk(env, SymNo); }
    AbsorbedFactor(op, FoundValue(op, f, env), Eval(r2, env));
  }

  lemma AbsorbedFactor(op: Op, c: Tri, v: Tri)
    ensures Apply(op, Apply(op, c, v), Apply(op, c, UnitOf(op))) == Apply(op, c, v)
  {
  }

  /**
   * When an operand must be cut: wherever its negation is part of the other one, if nothing before that part is in the
   * way and the negation is not made of constants.
   */
  lemma MustContradict(op: Op, e1: Expr, c: Context, x: Expr)
    requires var not1 := Transform(Not(e1));
      && InertBefore(op, c, not1) && !Occurs(op, not1, Absorbing(op)) && Occurs(op, not1, x) && !IsYn(x)
    ensures Contradicts(op, e1, Plug(op, c, Transform(Not(e1))))
  {
    var not1 := Transform(Not(e1));
    var e2 := Plug(op, c, not1);
    PartFound(op, c, not1);
    ExtractIsCommon(op, None, not1, e2);
    ExtractUnfound(op, None, not1, e2);
    BlankIsNeutral(op, not1);
    BlankIsBlank(op, not1);
    if Blank(op, not1) == not1 {
      BlankOperands(op, not1, x);
    }
    hide ExprEq, EliminateCommon, ExtractEq, Transform, InertBefore, Blank, Occurs;
  }

  lemma ContradictionArithmetic(op: Op, v: Tri, rest: Tri, v1: Tri, v2: Tri, restOf2: Tri)
    requires v == Apply(op, rest, v1) && v == Apply(op, restOf2, v2)
    requires Apply(op, v2, Neg(v1)) == v2
    ensures Refines(v, if op == OpAnd then NO else YES)
  {
  }

  /** Replacing an operand that contradicts a part of its chain keeps every definite value. */
  lemma CutProgress(op: Op, e: Expr, n: nat, p: Path, q: Path)
    requires OnChain(op, e, p) && !Is(op, At(op, e, p)) && IsChain(At(op, e, p))
    requires OnChain(op, e, q) && p != q
    requires Contradicts(op, At(op, e, p), At(op, e, q))
    ensures Progress(op, true, e, n, Put(op, e, p, Absorbing(op)), n + 1)
  {
    var e1, e2, e' := At(op, e, p), At(op, e, q), Put(op, e, p, Absorbing(op));
    PutOperand(op, e, p, Absorbing(op));
    ReducibleAt(op, e', p);
    if IsNnf(e) {
      PutNnf(op, e, p, Absorbing(op));
    }
    forall env | WellTyped(env)
      ensures Refines(Eval(e, env), Eval(e', env))
    {
      RestEval(op, e, p, Absorbing(op), env);
      RestEval(op, e, q, e2, env);
      ContradictionBound(op, e1, e2, env);
      ContradictionArithmetic(op, Eval(e, env), Rest(op, e, p, env), Eval(e1, env), Eval(e2, env), Rest(op, e, q, env));
      assert SymOk(env, SymYes) && SymOk(env, SymNo);
    }
  }

  /** Exactly the value m is lost by such a replacement. */
  lemma CutExactUnlessM(op: Op, e: Expr, p: Path, q: Path, env: Env)
    requires WellTyped(env)
    requires OnChain(op, e, p) && !Is(op, At(op, e, p)) && IsChain(At(op, e, p))
    requires OnChain(op, e, q) && p != q
    requires Contradicts(op, At(op, e, p), At(op, e, q))
    ensures Eval(Put(op, e, p, Absorbing(op)), env) == Eval(e, env) <==> Eval(e, env) != MOD
  {
    CutProgress(op, e, 0, p, q);
    assert Agree(true, Eval(e, env), Eval(Put(op, e, p, Absorbing(op)), env));
    RestEval(op, e, p, Absorbing(op), env);
    assert SymOk(env, SymYes) && SymOk(env, SymNo);
  }

  lemma NegatedApart(a: Symbol, b: Symbol)
    ensures var na, nb := Not(Sym(a)), Not(Sym(b));
            ExprEq(na, na) && ExprEq(nb, nb) && !ExprEq(EYes, nb) && !ExprEq(ENo, nb)
  {
    ExprEqReflexive(Not(Sym(a)));
    ExprEqReflexive(Not(Sym(b)));
  }

  lemma NegatedEval(a: Symbol, env: Env)
    ensures Eval(Sym(a), env) == env.tri(a) && Eval(Not(Sym(a)), env) == Neg(env.tri(a))
  {
  }

  /** (A || B) && (!A && !B), with A at m and B at n, is m; expr_eliminate_dups2 replaces A || B by n. */
  lemma CutLosesM(a: Symbol, b: Symbol, env: Env)
    requires WellTyped(env) && a.IsTri() && b.IsTri() && a != b
    requires env.tri(a) == MOD && env.tri(b) == NO
    ensures var e := And(Or(Sym(a), Sym(b)), And(Not(Sym(a)), Not(Sym(b))));
      && Contradicts(OpAnd, At(OpAnd, e, [Left]), At(OpAnd, e, [Right]))
      && Eval(e, env) == MOD
      && Eval(Put(OpAnd, e, [Left], Absorbing(OpAnd)), env) == NO
  {
    var na, nb := Not(Sym(a)), Not(Sym(b));
    var e := And(Or(Sym(a), Sym(b)), And(na, nb));
    TransformIsNnf(Not(Or(Sym(a), Sym(b))));
    assert Nnf(Not(Or(Sym(a), Sym(b))), false) == And(na, nb) by {
      assert Nnf(Sym(a), true) == na && Nnf(Sym(b), true) == nb;
    }
    NegatedApart(a, b);
    assert ExtractEq(OpAnd, None, na, And(na, nb)) == (Some(na), EYes, And(EYes, nb));
    assert ExtractEq(OpAnd, Some(na), nb, And(EYes, nb)) == (Some(And(na, nb)), EYes, And(EYes, EYes));
    assert ExtractEq(OpAnd, None, And(na, nb), And(na, nb)) == (Some(And(na, nb)), And(EYes, EYes), And(EYes, EYes));
    assert EliminateYn(And(EYes, EYes)) == EYes;
    assert At(OpAnd, e, [Left]) == Or(Sym(a), Sym(b));
    assert At(OpAnd, e, [Right]) == And(na, nb);
    NegatedEval(a, env);
    NegatedEval(b, env);
    assert Put(OpAnd, e, [Left], ENo) == And(ENo, And(na, nb));
    assert SymOk(env, SymNo);
  }

  /** The same for the other kind of chain: (A && B) || (!A || !B), with A at m and B at y, is m and becomes y. */
  lemma CutGivesY(a: Symbol, b: Symbol, env: Env)
    requires WellTyped(env) && a.IsTri() && b.IsTri() && a != b
    requires env.tri(a) == MOD && env.tri(b) == YES
    ensures var e := Or(And(Sym(a), Sym(b)), Or(Not(Sym(a)), Not(Sym(b))));
      && Contradicts(OpOr, At(OpOr, e, [Left]), At(OpOr, e, [Right]))
      && Eval(e, env) == MOD
      && Eval(Put(OpOr, e, [Left], Absorbing(OpOr)), env) == YES
  {
    var na, nb := Not(Sym(a)), Not(Sym(b));
    var e := Or(And(Sym(a), Sym(b)), Or(na, nb));
    TransformIsNnf(Not(And(Sym(a), Sym(b))));
    assert Nnf(Not(And(Sym(a), Sym(b))), false) == Or(na, nb) by {
      assert Nnf(Sym(a), true) == na && Nnf(Sym(b), true) == nb;
    }
    NegatedApart(a, b);
    assert ExtractEq(OpOr, None, na, Or(na, nb)) == (Some(na), ENo, Or(ENo, nb));
    assert ExtractEq(OpOr, Some(na), nb, Or(ENo, nb)) == (Some(Or(na, nb)), ENo, Or(ENo, ENo));
    assert ExtractEq(OpOr, None, Or(na, nb), Or(na, nb)) == (Some(Or(na, nb)), Or(ENo, ENo), Or(ENo, ENo));
    assert EliminateYn(Or(ENo, ENo)) == ENo;
    assert At(OpOr, e, [Left]) == And(Sym(a), Sym(b));
    assert At(OpOr, e, [Right]) == Or(na, nb);
    NegatedEval(a, env);
    NegatedEval(b, env);
    assert Put(OpOr, e, [Left], EYes) == Or(EYes, Or(na, nb));
    assert SymOk(env, SymYes);
  }

  // ---- when a pass has nothing left to do ----

  /** No operand under p1 can be joined with another one under p2, nor can any two inside such an operand. */
  predicate NoJoin(op: Op, e: Expr, p1: Path, p2: Path)
    requires OnChain(op, e, p1) && OnChain(op, e, p2)
    decreases Size(e), ChainSize(op, At(op, e, p1)) + ChainSize(op, At(op, e, p2))
  {
    var e1, e2 := At(op, e, p1), At(op, e, p2);
    if Is(op, e1) then
      Below(op, e, p1);
      NoJoin(op, e, p1 + [Left], p2) && NoJoin(op, e, p1 + [Right], p2)
    else if Is(op, e2) then
      Below(op, e, p2);
      NoJoin(op, e, p1, p2 + [Left]) && NoJoin(op, e, p1, p2 + [Right])
    else
      p1 == p2 || (Join(op, e1, e2).None? && (IsChain(e1) ==> NoJoin(TypeOf(e1), e1, [], [])))
  }

  /** No operand under p1 contradicts the part at p2 or a part below it, nor does any inside such an operand. */
  predicate NoCut(op: Op, e: Expr, p1: Path, p2: Path)
    requires OnChain(op, e, p1) && OnChain(op, e, p2)
    decreases Size(e), ChainSize(op, At(op, e, p1)) + ChainSize(op, At(op, e, p2))
  {
    var e1, e2 := At(op, e, p1), At(op, e, p2);
    if Is(op, e1) then
      Below(op, e, p1);
      NoCut(op, e, p1 + [Left], p2) && NoCut(op, e, p1 + [Right], p2)
    else
      && (Is(op, e2) ==>
            (Below(op, e, p2);
             NoCut(op, e, p1, p2 + [Left]) && NoCut(op, e, p1, p2 + [Right])))
      && (p1 != p2 && IsChain(e1) ==> NoCut(TypeOf(e1), e1, [], []) && !Contradicts(op, e1, e2))
  }

  /** An operand of the chain e. */
  predicate Operand(op: Op, e: Expr, p: Path) { OnChain(op, e, p) && !Is(op, At(op, e, p)) }

  lemma {:induction false} Prefix(op: Op, e: Expr, p: Path, a: Path)
    requires OnChain(op, e, p + a)
    ensures OnChain(op, e, p)
    ensures a != [] ==> Is(op, At(op, e, p))
  {
    if p == [] {
      assert p + a == a;
    } else {
      assert (p + a)[1..] == p[1..] + a;
      Prefix(op, Child(e, p[0]), p[1..], a);
    }
  }

  lemma NoJoinSplit(op: Op, e: Expr, p1: Path, p2: Path, s: Side)
    requires OnChain(op, e, p1) && OnChain(op, e, p2) && NoJoin(op, e, p1, p2)
    ensures Is(op, At(op, e, p1)) ==> OnChain(op, e, p1 + [s]) && NoJoin(op, e, p1 + [s], p2)
    ensures !Is(op, At(op, e, p1)) && Is(op, At(op, e, p2)) ==>
      OnChain(op, e, p2 + [s]) && NoJoin(op, e, p1, p2 + [s])
  {
    assert s == Left || s == Right;
    if Is(op, At(op, e, p1)) {
      Below(op, e, p1);
    } else if Is(op, At(op, e, p2)) {
      Below(op, e, p2);
    }
  }

  lemma {:induction false} NoJoinSecond(op: Op, e: Expr, p1: Path, p2: Path, b: Path)
    requires Operand(op, e, p1) && Operand(op, e, p2 + b) && p1 != p2 + b
    requires OnChain(op, e, p2) && NoJoin(op, e, p1, p2)
    ensures Join(op, At(op, e, p1), At(op, e, p2 + b)).None?
    ensures IsChain(At(op, e, p1)) ==> NoJoin(TypeOf(At(op, e, p1)), At(op, e, p1), [], [])
    decreases |b|
  {
    Prefix(op, e, p2, b);
    if b == [] {
      assert p2 + b == p2;
    } else {
      assert p2 + b == (p2 + [b[0]]) + b[1..];
      NoJoinSplit(op, e, p1, p2, b[0]);
      NoJoinSecond(op, e, p1, p2 + [b[0]], b[1..]);
    }
  }

  lemma {:induction false} NoJoinFirst(op: Op, e: Expr, p1: Path, a: Path, q: Path)
    requires Operand(op, e, p1 + a) && Operand(op, e, q) && p1 + a != q
    requires OnChain(op, e, p1) && NoJoin(op, e, p1, [])
    ensures Join(op, At(op, e, p1 + a), At(op, e, q)).None?
    ensures IsChain(At(op, e, p1 + a)) ==> NoJoin(TypeOf(At(op, e, p1 + a)), At(op, e, p1 + a), [], [])
    decreases |a|
  {
    Prefix(op, e, p1, a);
    if a == [] {
      assert p1 + a == p1 && [] + q == q;
      NoJoinSecond(op, e, p1, [], q);
    } else {
      assert p1 + a == (p1 + [a[0]]) + a[1..];
      NoJoinSplit(op, e, p1, [], a[0]);
      NoJoinFirst(op, e, p1 + [a[0]], a[1..], q);
    }
  }

  /**
   * NoJoin at the root: no two different operands of the chain are equal (expr_eq) or can be merged otherwise, and the
   * same holds inside an operand that is a chain.
   */
  lemma NoJoinMeans(op: Op, e: Expr, p: Path, q: Path)
    requires NoJoin(op, e, [], [])
    requires Operand(op, e, p) && Operand(op, e, q) && p != q
    ensures Join(op, At(op, e, p), At(op, e, q)).None?
    ensures !ExprEq(At(op, e, p), At(op, e, q))
    ensures IsChain(At(op, e, p)) ==> NoJoin(TypeOf(At(op, e, p)), At(op, e, p), [], [])
  {
    assert [] + p == p;
    NoJoinFirst(op, e, [], p, q);
  }

  lemma NoCutSplit(op: Op, e: Expr, p1: Path, p2: Path, s: Side)
    requires OnChain(op, e, p1) && OnChain(op, e, p2) && NoCut(op, e, p1, p2)
    ensures Is(op, At(op, e, p1)) ==> OnChain(op, e, p1 + [s]) && NoCut(op, e, p1 + [s], p2)
    ensures !Is(op, At(op, e, p1)) && Is(op, At(op, e, p2)) ==>
      OnChain(op, e, p2 + [s]) && NoCut(op, e, p1, p2 + [s])
  {
    assert s == Left || s == Right;
    if Is(op, At(op, e, p1)) {
      Below(op, e, p1);
    } else if Is(op, At(op, e, p2)) {
      Below(op, e, p2);
    }
  }

  lemma {:induction false} NoCutSecond(op: Op, e: Expr, p1: Path, p2: Path, b: Path)
    requires Operand(op, e, p1) && IsChain(At(op, e, p1)) && OnChain(op, e, p2 + b) && p1 != p2 + b
    requires OnChain(op, e, p2) && NoCut(op, e, p1, p2)
    ensures !Contradicts(op, At(op, e, p1), At(op, e, p2 + b)) && NoCut(TypeOf(At(op, e, p1)), At(op, e, p1), [], [])
    decreases |b|
  {
    Prefix(op, e, p2, b);
    if b == [] {
      assert p2 + b == p2;
    } else {
      assert p2 + b == (p2 + [b[0]]) + b[1..];
      NoCutSplit(op, e, p1, p2, b[0]);
      NoCutSecond(op, e, p1, p2 + [b[0]], b[1..]);
    }
  }

  lemma {:induction false} NoCutFirst(op: Op, e: Expr, p1: Path, a: Path, q: Path)
    requires Operand(op, e, p1 + a) && IsChain(At(op, e, p1 + a)) && OnChain(op, e, q) && p1 + a != q
    requires OnChain(op, e, p1) && NoCut(op, e, p1, [])
    ensures !Contradicts(op, At(op, e, p1 + a), At(op, e, q))
    ensures NoCut(TypeOf(At(op, e, p1 + a)), At(op, e, p1 + a), [], [])
    decreases |a|
  {
    Prefix(op, e, p1, a);
    if a == [] {
      assert p1 + a == p1 && [] + q == q;
      NoCutSecond(op, e, p1, [], q);
    } else {
      assert p1 + a == (p1 + [a[0]]) + a[1..];
      NoCutSplit(op, e, p1, [], a[0]);
      NoCutFirst(op, e, p1 + [a[0]], a[1..], q);
    }
  }

  /**
   * NoCut at the root: no operand that is a chain of the other kind contradicts any other part of the chain, and the
   * same holds inside that operand.
   */
  lemma NoCutMeans(op: Op, e: Expr, p: Path, q: Path)
    requires NoCut(op, e, [], [])
    requires Operand(op, e, p) && IsChain(At(op, e, p)) && OnChain(op, e, q) && p != q
    ensures !Contradicts(op, At(op, e, p), At(op, e, q)) && NoCut(TypeOf(At(op, e, p)), At(op, e, p), [], [])
  {
    assert [] + p == p;
    NoCutFirst(op, e, [], p, q);
  }

  // ---- the operands of a chain without duplicates ----

  /** Every operand below p has its own path. */
  lemma {:induction false} OccursAt(op: Op, e: Expr, p: Path, x: Expr) returns (a: Path)
    requires OnChain(op, e, p) && Occurs(op, At(op, e, p), x)
    ensures Operand(op, e, p + a) && At(op, e, p + a) == x
    decreases ChainSize(op, At(op, e, p))
  {
    var part := At(op, e, p);
    if Is(op, part) {
      Below(op, e, p);
      hide OnChain;
      if Occurs(op, part.l, x) {
        var b := OccursAt(op, e, p + [Left], x);
        a := [Left] + b;
        assert p + a == (p + [Left]) + b;
      } else {
        var b := OccursAt(op, e, p + [Right], x);
        a := [Right] + b;
        assert p + a == (p + [Right]) + b;
      }
    } else {
      a := [];
      assert p + a == p;
    }
  }

  /** No operand of one half is equal to one of the other, at any depth. */
  ghost predicate Pairwise(op: Op, e: Expr) {
    Is(op, e) ==>
      && (forall x, y :: Occurs(op, e.l, x) && Occurs(op, e.r, y) ==> !ExprEq(x, y) && !ExprEq(y, x))
      && Pairwise(op, e.l) && Pairwise(op, e.r)
  }

  lemma {:induction false} NoJoinPairwise(op: Op, e: Expr, p: Path)
    requires OnChain(op, e, p) && NoJoin(op, e, [], [])
    ensures Pairwise(op, At(op, e, p))
    decreases ChainSize(op, At(op, e, p))
  {
    var part := At(op, e, p);
    if Is(op, part) {
      hide NoJoin, ExprEq;
      Below(op, e, p);
      NoJoinPairwise(op, e, p + [Left]);
      NoJoinPairwise(op, e, p + [Right]);
      forall x, y | Occurs(op, part.l, x) && Occurs(op, part.r, y)
        ensures !ExprEq(x, y) && !ExprEq(y, x)
      {
        var a := OccursAt(op, e, p + [Left], x);
        var b := OccursAt(op, e, p + [Right], y);
        var q1, q2 := p + [Left] + a, p + [Right] + b;
        assert q1[|p|] == Left && q2[|p|] == Right;
        NoJoinMeans(op, e, q1, q2);
        NoJoinMeans(op, e, q2, q1);
      }
    }
  }

  /** o is a part of the op-chain e. */
  predicate PartOf(op: Op, e: Expr, o: Expr) {
    Is(op, e) && (e.l == o || e.r == o || PartOf(op, e.l, o) || PartOf(op, e.r, o))
  }

  lemma {:induction false} PartContext(op: Op, e: Expr, o: Expr) returns (c: Context)
    requires PartOf(op, e, o) && Pairwise(op, e)
    ensures e == Plug(op, c, o) && ApartBefore(op, c, o) && c != Hole
  {
    assert e == Mk(op, e.l, e.r);
    if e.l == o {
      c := InLeft(Hole, e.r);
    } else if e.r == o {
      c := InRight(e.l, Hole);
    } else if PartOf(op, e.l, o) {
      var d := PartContext(op, e.l, o);
      c := InLeft(d, e.r);
    } else {
      var d := PartContext(op, e.r, o);
      PlugOccurs(op, d, o);
      c := InRight(e.l, d);
    }
  }

  lemma {:induction false} PlugOccurs(op: Op, c: Context, o: Expr)
    ensures forall y :: Occurs(op, o, y) ==> Occurs(op, Plug(op, c, o), y)
  {
    match c
    case Hole =>
    case InLeft(d, _) => PlugOccurs(op, d, o);
    case InRight(_, d) => PlugOccurs(op, d, o);
  }

  // ---- the passes ----

  /** A tree under in-place rewriting and the global trans_count. */
  class Rewriter {
    var root: Expr
    var transCount: nat

    constructor (e: Expr)
      ensures root == e && transCount == 0
    {
      root := e;
      transCount := 0;
    }

    /** expr_eliminate_dups1(type, ep1, ep2): every rewrite is exact. */
    method Dups1(op: Op, p1: Path, p2: Path, ghost bound: nat)
      requires OnChain(op, root, p1) && OnChain(op, root, p2)
      requires Size(root) <= bound
      modifies this
      ensures Progress(op, false, old(root), old(transCount), root, transCount)
      ensures transCount == old(transCount) ==> root == old(root) && NoJoin(op, root, p1, p2)
      ensures NoJoin(op, old(root), p1, p2) ==> transCount == old(transCount)
      decreases bound, ChainSize(op, At(op, root, p1)) + ChainSize(op, At(op, root, p2)), 1
    {
      Unchanged(op, false, root, transCount);
      if Is(op, At(op, root, p1)) {
        Below(op, root, p1);
        Dups1(op, p1 + [Left], p2, bound);
        SlotStays(op, old(root), root, p1 + [Right]);
        SlotStays(op, old(root), root, p2);
        label Between:
        Dups1(op, p1 + [Right], p2, bound);
        ProgressTrans(op, false, old(root), old(transCount), old@Between(root), old@Between(transCount), root, transCount);
        return;
      }
      if Is(op, At(op, root, p2)) {
        Below(op, root, p2);
        Dups1(op, p1, p2 + [Left], bound);
        SlotStays(op, old(root), root, p2 + [Right]);
        SlotStays(op, old(root), root, p1);
        label Between2:
        Dups1(op, p1, p2 + [Right], bound);
        ProgressTrans(op, false, old(root), old(transCount), old@Between2(root), old@Between2(transCount), root, transCount);
        return;
      }
      if p1 != p2 {
        JoinOperands(op, p1, p2, bound);
      }
    }

    /** The tail of expr_eliminate_dups1: work inside the operand at p1, then join it with the one at p2. */
    method JoinOperands(op: Op, p1: Path, p2: Path, ghost bound: nat)
      requires Operand(op, root, p1) && Operand(op, root, p2) && p1 != p2
      requires Size(root) <= bound
      modifies this
      ensures Progress(op, false, old(root), old(transCount), root, transCount)
      ensures transCount == old(transCount) ==> root == old(root) && NoJoin(op, root, p1, p2)
      ensures NoJoin(op, old(root), p1, p2) ==> transCount == old(transCount)
      decreases bound, ChainSize(op, At(op, root, p1)) + ChainSize(op, At(op, root, p2)), 0
    {
      Unchanged(op, false, root, transCount);
      var e1 := At(op, root, p1);
      if IsChain(e1) {
        var sub := new Rewriter(e1);
        sub.Dups1(TypeOf(e1), [], [], bound - 1);
        NestedProgress(op, false, root, transCount, p1, sub.root, sub.transCount);
        root, transCount := Put(op, root, p1, sub.root), transCount + sub.transCount;
        SlotStays(op, old(root), root, p1);
        SlotStays(op, old(root), root, p2);
      }
      var tmp := Join(op, At(op, root, p1), At(op, root, p2));
      if tmp.Some? {
        label Joining:
        JoinProgress(op, root, transCount, p1, p2);
        root := Put(op, root, p1, Neutral(op));
        root := Put(op, root, p2, tmp.value);
        transCount := transCount + 1;
        ProgressTrans(op, false, old(root), old(transCount), old@Joining(root), old@Joining(transCount), root, transCount);
      }
    }

    /**
     * expr_eliminate_dups2(type, ep1, ep2). As in the code, the branch that splits the second slot does not
     * return, so a whole chain, possibly one that contains the first slot, is also looked at as second operand.
     */
    method Dups2(op: Op, p1: Path, p2: Path, ghost bound: nat)
      requires OnChain(op, root, p1) && OnChain(op, root, p2)
      requires Size(root) <= bound
      modifies this
      ensures Progress(op, true, old(root), old(transCount), root, transCount)
      ensures transCount == old(transCount) ==> root == old(root) && NoCut(op, root, p1, p2)
      ensures NoCut(op, old(root), p1, p2) ==> transCount == old(transCount)
      decreases bound, ChainSize(op, At(op, root, p1)) + ChainSize(op, At(op, root, p2)), 1
    {
      Unchanged(op, true, root, transCount);
      if Is(op, At(op, root, p1)) {
        Below(op, root, p1);
        Dups2(op, p1 + [Left], p2, bound);
        SlotStays(op, old(root), root, p1 + [Right]);
        SlotStays(op, old(root), root, p2);
        label Between:
        Dups2(op, p1 + [Right], p2, bound);
        ProgressTrans(op, true, old(root), old(transCount), old@Between(root), old@Between(transCount), root, transCount);
        return;
      }
      if Is(op, At(op, root, p2)) {
        SplitSecond(op, p1, p2, bound);
        SlotStays(op, old(root), root, p1);
        SlotStays(op, old(root), root, p2);
      }
      if p1 == p2 {
        return;
      }
      label Split:
      CutOperand(op, p1, p2, bound);
      ProgressTrans(op, true, old(root), old(transCount), old@Split(root), old@Split(transCount), root, transCount);
    }

    /** The two calls of expr_eliminate_dups2 on the halves of the second slot. */
    method SplitSecond(op: Op, p1: Path, p2: Path, ghost bound: nat)
      requires OnChain(op, root, p1) && OnChain(op, root, p2)
      requires !Is(op, At(op, root, p1)) && Is(op, At(op, root, p2))
      requires Size(root) <= bound
      modifies this
      ensures Progress(op, true, old(root), old(transCount), root, transCount)
      ensures transCount == old(transCount) ==> root == old(root)
      ensures transCount == old(transCount) ==>
        OnChain(op, root, p2 + [Left]) && OnChain(op, root, p2 + [Right]) &&
        NoCut(op, root, p1, p2 + [Left]) && NoCut(op, root, p1, p2 + [Right])
      ensures NoCut(op, old(root), p1, p2) ==> transCount == old(transCount)
      decreases bound, ChainSize(op, At(op, root, p1)) + ChainSize(op, At(op, root, p2)), 0
    {
      Below(op, root, p2);
      Dups2(op, p1, p2 + [Left], bound);
      SlotStays(op, old(root), root, p2 + [Right]);
      SlotStays(op, old(root), root, p1);
      label Between:
      Dups2(op, p1, p2 + [Right], bound);
      ProgressTrans(op, true, old(root), old(transCount), old@Between(root), old@Between(transCount), root, transCount);
    }

    /** The tail of expr_eliminate_dups2: work inside the operand at p1, then test it against the part at p2. */
    method CutOperand(op: Op, p1: Path, p2: Path, ghost bound: nat)
      requires OnChain(op, root, p1) && OnChain(op, root, p2)
      requires !Is(op, At(op, root, p1)) && p1 != p2
      requires Size(root) <= bound
      modifies this
      ensures Progress(op, true, old(root), old(transCount), root, transCount)
      ensures transCount == old(transCount) ==> root == old(root)
      ensures transCount == old(transCount) && IsChain(At(op, root, p1)) ==>
        NoCut(TypeOf(At(op, root, p1)), At(op, root, p1), [], []) && !Contradicts(op, At(op, root, p1), At(op, root, p2))
      ensures NoCut(op, old(root), p1, p2) ==> transCount == old(transCount)
      decreases bound, ChainSize(op, At(op, root, p1)) + ChainSize(op, At(op, root, p2)), 0
    {
      Unchanged(op, true, root, transCount);
      var e1 := At(op, root, p1);
      if IsChain(e1) {
        var sub := new Rewriter(e1);
        sub.Dups2(TypeOf(e1), [], [], bound - 1);
        NestedProgress(op, true, root, transCount, p1, sub.root, sub.transCount);
        PutOperand(op, root, p1, sub.root);
        PutSame(op, root, p1);
        root, transCount := Put(op, root, p1, sub.root), transCount + sub.transCount;
        SlotStays(op, old(root), root, p2);
        if Contradicts(op, At(op, root, p1), At(op, root, p2)) {
          label Cut:
          CutProgress(op, root, transCount, p1, p2);
          root := Put(op, root, p1, Absorbing(op));
          transCount := transCount + 1;
          ProgressTrans(op, true, old(root), old(transCount), old@Cut(root), old@Cut(transCount), root, transCount);
        }
      }
    }
  }

  lemma MeaningTrans(a: Expr, b: Expr, c: Expr)
    requires SameMeaning(true, a, b) && SameMeaning(true, b, c)
    ensures SameMeaning(true, a, c)
  {
    forall env | WellTyped(env)
      ensures Refines(Eval(a, env), Eval(c, env))
    {
      assert Agree(true, Eval(a, env), Eval(b, env)) && Agree(true, Eval(b, env), Eval(c, env));
    }
  }

  lemma YnMeaning(e: Expr)
    ensures SameMeaning(true, e, EliminateYn(e))
  {
    forall env | WellTyped(env)
      ensures Refines(Eval(e, env), Eval(EliminateYn(e), env))
    {
      EliminateYnEval(e, env);
    }
  }

  /** Neither pass finds anything to do. */
  ghost predicate Reduced(e: Expr) {
    IsChain(e) ==> NoJoin(TypeOf(e), e, [], []) && NoCut(TypeOf(e), e, [], [])
  }

  /**
   * expr_eliminate_dups: repeats the two passes until neither rewrites anything. Where e is y or n under a
   * well-typed assignment, the result has the same value; it is never larger than e.
   */
  method EliminateDups(e: Expr) returns (r: Expr)
    ensures forall env :: WellTyped(env) ==> Refines(Eval(e, env), Eval(r, env))
    ensures Size(r) <= Size(e)
    ensures Reduced(r) && (Reduced(e) ==> r == e)
    ensures IsNnf(e) ==> IsNnf(r)
  {
    r := e;
    while true
      invariant SameMeaning(true, e, r)
      invariant Size(r) <= Size(e)
      invariant IsNnf(e) ==> IsNnf(r)
      invariant Reduced(e) ==> r == e
      decreases Size(r)
    {
      var w := new Rewriter(r);
      if IsChain(r) {
        var op := TypeOf(r);
        w.Dups1(op, [], [], Size(r));
        ExactIsRefined(op, r, 0, w.root, w.transCount);
        label Second:
        w.Dups2(op, [], [], Size(r));
        ProgressTrans(op, true, r, 0, old@Second(w.root), old@Second(w.transCount), w.root, w.transCount);
        MeaningTrans(e, r, w.root);
      }
      r := w.root;
      if w.transCount == 0 {
        break;
      }
      EliminateYnShrinks(r);
      YnMeaning(r);
      if IsNnf(r) {
        YnNnf(r);
      }
      MeaningTrans(e, r, EliminateYn(r));
      r := EliminateYn(r);
    }
    forall env | WellTyped(env)
      ensures Refines(Eval(e, env), Eval(r, env))
    {
      assert Agree(true, Eval(e, env), Eval(r, env));
    }
  }

  lemma ExactIsRefined(op: Op, e: Expr, n: nat, e': Expr, n': nat)
    requires Progress(op, false, e, n, e', n')
    ensures Progress(op, true, e, n, e', n')
  {
    forall env | WellTyped(env)
      ensures Refines(Eval(e, env), Eval(e', env))
    {
      assert Agree(false, Eval(e, env), Eval(e', env));
    }
  }
}
