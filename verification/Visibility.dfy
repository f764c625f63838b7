/** Where the rewrites meet visibility: prompt conditions (symbol.c) and the nesting test (menu.c). */
module Visibility {
  import opened Wrappers
  import opened Expressions
  import opened Equality
  import opened Normalisation
  import opened Joining
  import opened Duplicates

  /** A dependency; the null expression is always y. */
  type Dep = Option<Expr>

  function DepValue(d: Dep, env: Env): Tri { if d.None? then YES else Eval(d.value, env) }

  // ---- expr_trans_bool and sym_calc_visibility ----

  /** FOO != n becomes FOO, for a tristate FOO. */
  function TransBool(e: Expr): Expr {
    match e
    case And(l, r) => And(TransBool(l), TransBool(r))
    case Or(l, r) => Or(TransBool(l), TransBool(r))
    case Not(x) => Not(TransBool(x))
    case Neq(a, b) => if a.IsTri() && b == SymNo then Sym(a) else e
    case _ => e
  }

  /** No tristate symbol is compared with n any more. */
  predicate NoTest(e: Expr) {
    match e
    case And(l, r) => NoTest(l) && NoTest(r)
    case Or(l, r) => NoTest(l) && NoTest(r)
    case Not(x) => NoTest(x)
    case Neq(a, b) => !(a.IsTri() && b == SymNo)
    case _ => true
  }

  /** The rewrite leaves no such test, and nothing else is touched where there is none. */
  lemma {:induction false} TransBoolDone(e: Expr)
    ensures NoTest(TransBool(e)) && (NoTest(e) ==> TransBool(e) == e)
  {
    match e
    case And(l, r) => TransBoolDone(l); TransBoolDone(r);
    case Or(l, r) => TransBoolDone(l); TransBoolDone(r);
    case Not(x) => TransBoolDone(x);
    case _ =>
  }

  /** On negation normal form the rewrite may lower y to m but keeps "not n". */
  lemma {:induction false} TransBoolKeepsNotNo(e: Expr, env: Env)
    requires WellTyped(env) && IsNnf(e)
    ensures Eval(TransBool(e), env) == NO <==> Eval(e, env) == NO
    ensures Eval(TransBool(e), env) <= Eval(e, env)
  {
    match e
    case And(l, r) => TransBoolKeepsNotNo(l, env); TransBoolKeepsNotNo(r, env);
    case Or(l, r) => TransBoolKeepsNotNo(l, env); TransBoolKeepsNotNo(r, env);
    case Neq(a, b) => assert SymOk(env, a) && SymOk(env, SymNo);
    case _ =>
  }

  lemma {:induction false} TransBoolNnf(e: Expr)
    requires IsNnf(e)
    ensures IsNnf(TransBool(e))
  {
    match e
    case And(l, r) => TransBoolNnf(l); TransBoolNnf(r);
    case Or(l, r) => TransBoolNnf(l); TransBoolNnf(r);
    case _ =>
  }

  /** Under a negation the rewrite is wrong exactly for a symbol that is m. */
  lemma TransBoolUnderNot(a: Symbol, env: Env)
    requires WellTyped(env) && a.IsTri()
    ensures (Eval(TransBool(Not(Neq(a, SymNo))), env) == NO <==> Eval(Not(Neq(a, SymNo)), env) == NO)
       <==> env.tri(a) != MOD
  {
    assert SymOk(env, a) && SymOk(env, SymNo);
    assert TransBool(Not(Neq(a, SymNo))) == Not(Sym(a));
    assert Eval(Neq(a, SymNo), env) == if env.tri(a) == NO then NO else YES;
  }

  function AnyPrompt(prompts: seq<Dep>, env: Env): Tri {
    if prompts == [] then NO else Max(DepValue(prompts[0], env), AnyPrompt(prompts[1..], env))
  }

  /** sym_calc_visibility: the best prompt; m counts as y unless the symbol is tristate and modules are on. */
  function SymVisible(kind: SymType, modules: Tri, prompts: seq<Dep>, env: Env): Tri {
    var tri := AnyPrompt(prompts, env);
    if tri == MOD && (kind != S_TRISTATE || modules == NO) then YES else tri
  }

  function TransBoolAll(prompts: seq<Dep>): seq<Dep> {
    if prompts == [] then []
    else [if prompts[0].None? then None else Some(TransBool(prompts[0].value))] + TransBoolAll(prompts[1..])
  }

  predicate AllNnf(prompts: seq<Dep>) { forall d :: d in prompts && d.Some? ==> IsNnf(d.value) }

  lemma {:induction false} AnyPromptTransBool(prompts: seq<Dep>, env: Env)
    requires WellTyped(env) && AllNnf(prompts)
    ensures AnyPrompt(TransBoolAll(prompts), env) == NO <==> AnyPrompt(prompts, env) == NO
  {
    if prompts != [] {
      assert AllNnf(prompts[1..]);
      AnyPromptTransBool(prompts[1..], env);
      if prompts[0].Some? {
        TransBoolKeepsNotNo(prompts[0].value, env);
      }
    }
  }

  /** For a symbol that is not tristate, rewriting every prompt condition leaves the visibility unchanged. */
  lemma VisibilityTransBool(kind: SymType, modules: Tri, prompts: seq<Dep>, env: Env)
    requires WellTyped(env) && AllNnf(prompts)
    requires kind != S_TRISTATE
    ensures SymVisible(kind, modules, TransBoolAll(prompts), env) == SymVisible(kind, modules, prompts, env)
  {
    AnyPromptTransBool(prompts, env);
  }

  // ---- expr_trans_compare ----

  /** e compared with sym (y, m or n): equal for E_EQUAL, otherwise E_UNEQUAL. For m a chain is returned as it is. */
  function TransCompare(e: Expr, equal: bool, sym: Symbol): Expr
    requires sym.IsYMN()
  {
    match e
    case And(l, r) => Negated(!equal, CompareChain(OpAnd, e, TransCompare(l, true, sym), TransCompare(r, true, sym), sym))
    case Or(l, r) => Negated(!equal, CompareChain(OpOr, e, TransCompare(l, true, sym), TransCompare(r, true, sym), sym))
    case Not(x) => TransCompare(x, !equal, sym)
    case Sym(s) => if equal then Eq(s, sym) else Neq(s, sym)
    case _ =>
      if sym == SymMod then (if equal then ENo else EYes)
      else Negated((sym == SymYes) != equal, e)
  }

  function Negated(neg: bool, e: Expr): Expr { if neg then Not(e) else e }

  function CompareChain(op: Op, e: Expr, l: Expr, r: Expr, sym: Symbol): Expr {
    if sym == SymMod then e
    else Mk(if sym == SymYes then op else (if op == OpAnd then OpOr else OpAnd), l, r)
  }

  function DepCompare(d: Dep, equal: bool, sym: Symbol): Expr
    requires sym.IsYMN()
  {
    if d.None? then Negated(!equal, Sym(sym)) else TransCompare(d.value, equal, sym)
  }

  /**
   * What the comparison with y or n asks: a symbol is taken by its text, so for n an m counts as y, and so does an
   * undefined or text symbol, whose value is n.
   */
  predicate Reads(e: Expr, sym: Symbol, env: Env) {
    match e
    case Sym(s) => (env.str(s) == env.str(sym)) == (sym == SymYes)
    case Not(x) => !Reads(x, sym, env)
    case And(l, r) => Reads(l, sym, env) && Reads(r, sym, env)
    case Or(l, r) => Reads(l, sym, env) || Reads(r, sym, env)
    case _ => Eval(e, env) != NO
  }

  /** What it should ask: for n, whether e is not n; for y, whether e is y. */
  predicate Holds(e: Expr, sym: Symbol, env: Env) {
    if sym == SymYes then Eval(e, env) == YES else Eval(e, env) != NO
  }

  /** For every expression and assignment: what the comparison answers, and when that is right. */
  lemma {:induction false} TransCompareReads(e: Expr, equal: bool, sym: Symbol, env: Env)
    requires WellTyped(env) && sym.IsYN()
    ensures Eval(TransCompare(e, equal, sym), env) == if Reads(e, sym, env) == (equal == (sym == SymYes)) then YES else NO
    ensures Eval(TransCompare(e, equal, sym), env) == (if (Eval(e, env) == env.tri(sym)) == equal then YES else NO)
       <==> (Reads(e, sym, env) <==> Holds(e, sym, env))
  {
    assert SymOk(env, SymYes) && SymOk(env, SymNo);
    match e
    case And(l, r) => TransCompareReads(l, true, sym, env); TransCompareReads(r, true, sym, env);
    case Or(l, r) => TransCompareReads(l, true, sym, env); TransCompareReads(r, true, sym, env);
    case Not(x) => TransCompareReads(x, !equal, sym, env);
    case _ =>
  }

  /** The text of every symbol used as a value agrees with its tristate: that of a bool or tristate symbol does. */
  predicate TextAgrees(e: Expr, env: Env) {
    match e
    case Sym(s) => env.str(s) == Letter(env.tri(s))
    case Not(x) => TextAgrees(x, env)
    case And(l, r) => TextAgrees(l, env) && TextAgrees(r, env)
    case Or(l, r) => TextAgrees(l, env) && TextAgrees(r, env)
    case _ => true
  }

  /** Nothing that stands under a negation is m. */
  predicate NegationsDefinite(e: Expr, env: Env) {
    match e
    case Not(x) => Eval(x, env) != MOD && NegationsDefinite(x, env)
    case And(l, r) => NegationsDefinite(l, env) && NegationsDefinite(r, env)
    case Or(l, r) => NegationsDefinite(l, env) && NegationsDefinite(r, env)
    case _ => true
  }

  /** The two agree when all texts do and nothing negated is m. */
  lemma {:induction false} TransCompareExact(e: Expr, sym: Symbol, env: Env)
    requires WellTyped(env) && sym.IsYN()
    requires TextAgrees(e, env) && NegationsDefinite(e, env)
    ensures Reads(e, sym, env) <==> Holds(e, sym, env)
  {
    assert SymOk(env, SymYes) && SymOk(env, SymNo);
    match e
    case And(l, r) => TransCompareExact(l, sym, env); TransCompareExact(r, sym, env);
    case Or(l, r) => TransCompareExact(l, sym, env); TransCompareExact(r, sym, env);
    case Not(x) =>
      TransCompareExact(x, sym, env);
    case _ =>
  }

  /** For one symbol, negated or not, both conditions are necessary. */
  lemma TransCompareSymbol(s: Symbol, env: Env)
    requires WellTyped(env)
    ensures (Reads(Sym(s), SymNo, env) <==> Holds(Sym(s), SymNo, env)) <==> (env.str(s) == "n" <==> env.tri(s) == NO)
    ensures (Reads(Not(Sym(s)), SymNo, env) <==> Holds(Not(Sym(s)), SymNo, env)) <==> (env.str(s) == "n" <==> env.tri(s) != YES)
    ensures env.str(s) == Letter(env.tri(s)) ==>
      ((Reads(Not(Sym(s)), SymNo, env) <==> Holds(Not(Sym(s)), SymNo, env)) <==> env.tri(s) != MOD)
  {
    assert SymOk(env, SymYes) && SymOk(env, SymNo);
  }

  /** A symbol that stands for itself has the text n if its value is n, and one under a negation only if it is not y. */
  predicate TextSound(e: Expr, env: Env) {
    match e
    case Sym(s) => env.tri(s) == NO ==> env.str(s) == "n"
    case Not(Sym(s)) => env.str(s) == "n" ==> env.tri(s) != YES
    case And(l, r) => TextSound(l, env) && TextSound(r, env)
    case Or(l, r) => TextSound(l, env) && TextSound(r, env)
    case _ => true
  }

  /** Then, on negation normal form and whatever is m, an answer that e is not n is right. */
  lemma {:induction false} TransCompareSound(e: Expr, env: Env)
    requires WellTyped(env) && TextSound(e, env) && IsNnf(e)
    ensures Reads(e, SymNo, env) ==> Eval(e, env) != NO
  {
    assert SymOk(env, SymYes) && SymOk(env, SymNo) && SymOk(env, SymMod);
    match e
    case And(l, r) => TransCompareSound(l, env); TransCompareSound(r, env);
    case Or(l, r) => TransCompareSound(l, env); TransCompareSound(r, env);
    case Not(x) => assert x.Sym? && (Reads(e, SymNo, env) <==> env.str(x.s) == "n");
    case _ =>
  }

  // ---- the nesting test of menu_finalize ----

  predicate ContainsSymbol(e: Expr, s: Symbol) {
    match e
    case And(l, r) => ContainsSymbol(l, s) || ContainsSymbol(r, s)
    case Or(l, r) => ContainsSymbol(l, s) || ContainsSymbol(r, s)
    case Not(x) => ContainsSymbol(x, s)
    case Sym(a) => a == s
    case Eq(a, b) => a == s || b == s
    case Neq(a, b) => a == s || b == s
  }

  predicate DependsSymbol(e: Expr, s: Symbol) {
    match e
    case And(l, r) => DependsSymbol(l, s) || DependsSymbol(r, s)
    case Sym(a) => a == s
    case Eq(a, b) => a == s && (b == SymYes || b == SymMod)
    case Neq(a, b) => a == s && b == SymNo
    case _ => false
  }

  /**
   * expr_depends_symbol finds dependencies only: an expression that depends on s is n when the value and the text of s
   * are. For a bool or tristate symbol that is when its value is; a string symbol compared with y counts as well.
   */
  lemma {:induction false} DependsSymbolImplies(e: Expr, s: Symbol, env: Env)
    requires WellTyped(env) && DependsSymbol(e, s) && Eval(e, env) != NO
    ensures env.tri(s) != NO || env.str(s) != "n"
    ensures s.IsBool() || s.IsTri() ==> env.tri(s) != NO
  {
    assert SymOk(env, SymYes) && SymOk(env, SymNo) && SymOk(env, SymMod) && SymOk(env, s);
    match e
    case And(l, r) =>
      if DependsSymbol(l, s) {
        DependsSymbolImplies(l, s, env);
      } else {
        DependsSymbolImplies(r, s, env);
      }
    case _ =>
  }

  /** expr_contains_symbol finds the symbol wherever it is mentioned. */
  lemma {:induction false} ContainsIsMentions(e: Expr, s: Symbol)
    ensures ContainsSymbol(e, s) <==> s in Mentions(e)
  {
    match e
    case And(l, r) => ContainsIsMentions(l, s); ContainsIsMentions(r, s);
    case Or(l, r) => ContainsIsMentions(l, s); ContainsIsMentions(r, s);
    case Not(x) => ContainsIsMentions(x, s);
    case _ =>
  }

  /** s itself, or s compared so that it must not be n. */
  predicate NeedsSymbol(x: Expr, s: Symbol) {
    x == Sym(s) || x == Eq(s, SymYes) || x == Eq(s, SymMod) || x == Neq(s, SymNo)
  }

  /** expr_depends_symbol finds a dependency exactly if one of the operands of the AND chain needs the symbol. */
  lemma DependsIsNeeds(e: Expr, s: Symbol)
    ensures DependsSymbol(e, s) <==> exists x :: Occurs(OpAnd, e, x) && NeedsSymbol(x, s)
  {
    if DependsSymbol(e, s) {
      var x := NeedFound(e, s);
    }
    forall x | Occurs(OpAnd, e, x) && NeedsSymbol(x, s)
      ensures DependsSymbol(e, s)
    {
      NeedDepends(e, s, x);
    }
  }

  lemma {:induction false} NeedFound(e: Expr, s: Symbol) returns (x: Expr)
    requires DependsSymbol(e, s)
    ensures Occurs(OpAnd, e, x) && NeedsSymbol(x, s)
  {
    if e.And? {
      if DependsSymbol(e.l, s) {
        x := NeedFound(e.l, s);
      } else {
        x := NeedFound(e.r, s);
      }
    } else {
      x := e;
    }
  }

  lemma {:induction false} NeedDepends(e: Expr, s: Symbol, x: Expr)
    requires Occurs(OpAnd, e, x) && NeedsSymbol(x, s)
    ensures DependsSymbol(e, s)
  {
    if e.And? {
      if Occurs(OpAnd, e.l, x) {
        NeedDepends(e.l, s, x);
      } else {
        NeedDepends(e.r, s, x);
      }
    }
  }

  ghost predicate SameCondition(d: Dep, c: Expr) {
    forall env :: WellTyped(env) ==> Refines(Eval(DepCompare(d, false, SymNo), env), Eval(c, env))
  }

  /** "The dependency is not n", in normal form. */
  function Test(d: Dep): Expr { Transform(DepCompare(d, false, SymNo)) }

  /** What the nesting test compares: that, without duplicates. */
  method Condition(d: Dep) returns (c: Expr)
    ensures SameCondition(d, c)
    ensures Reduced(c) && (Reduced(Test(d)) ==> c == Test(d))
  {
    var t := Transform(DepCompare(d, false, SymNo));
    c := EliminateDups(t);
    forall env | WellTyped(env)
      ensures Refines(Eval(DepCompare(d, false, SymNo), env), Eval(c, env))
    {
      TransformEval(DepCompare(d, false, SymNo), env);
      assert Refines(Eval(t, env), Eval(c, env));
    }
  }

  // ---- from texts back to values ----

  /** The symbols used as values, and those compared. */
  function Values(e: Expr): set<Symbol> {
    match e
    case Sym(s) => {s}
    case Not(x) => Values(x)
    case And(l, r) => Values(l) + Values(r)
    case Or(l, r) => Values(l) + Values(r)
    case _ => {}
  }

  function Compared(e: Expr): set<Symbol> {
    match e
    case Eq(a, b) => {a, b}
    case Neq(a, b) => {a, b}
    case Not(x) => Compared(x)
    case And(l, r) => Compared(l) + Compared(r)
    case Or(l, r) => Compared(l) + Compared(r)
    case Sym(_) => {}
  }

  function DepValues(d: Dep): set<Symbol> { if d.None? then {} else Values(d.value) }
  function DepCompared(d: Dep): set<Symbol> { if d.None? then {} else Compared(d.value) }

  /** No undefined or text symbol is used as a value in one of the conditions and compared in one of them. */
  ghost predicate Apart(outer: Dep, dep: Dep, env: Env) {
    forall s :: s in DepValues(outer) + DepValues(dep) && env.str(s) != Letter(env.tri(s)) ==>
      s.Config? && s !in DepCompared(outer) + DepCompared(dep)
  }

  /** It is so if all symbols used as values are boolean or tristate. */
  lemma LogicApart(outer: Dep, dep: Dep, env: Env)
    requires WellTyped(env)
    requires forall s :: s in DepValues(outer) + DepValues(dep) ==> s.IsBool() || s.IsTri() || s.IsYMN()
    ensures Apart(outer, dep, env)
  {
    forall s | s in DepValues(outer) + DepValues(dep)
      ensures env.str(s) == Letter(env.tri(s))
    {
      assert SymOk(env, s);
    }
  }

  /** What e is as a boolean, with every m taken as y. */
  predicate AsBool(e: Expr, env: Env) {
    match e
    case Not(x) => !AsBool(x, env)
    case And(l, r) => AsBool(l, env) && AsBool(r, env)
    case Or(l, r) => AsBool(l, env) || AsBool(r, env)
    case _ => Eval(e, env) != NO
  }

  predicate DepReads(d: Dep, env: Env) { d.Some? ==> Reads(d.value, SymNo, env) }
  predicate DepAsBool(d: Dep, env: Env) { d.Some? ==> AsBool(d.value, env) }

  /** Without an m under a negation that is whether e is not n; on negation normal form it implies so. */
  lemma {:induction false} AsBoolMeans(e: Expr, env: Env)
    requires WellTyped(env)
    ensures NegationsDefinite(e, env) ==> (AsBool(e, env) <==> Eval(e, env) != NO)
    ensures IsNnf(e) && AsBool(e, env) ==> Eval(e, env) != NO
  {
    match e
    case And(l, r) => AsBoolMeans(l, env); AsBoolMeans(r, env);
    case Or(l, r) => AsBoolMeans(l, env); AsBoolMeans(r, env);
    case Not(x) => AsBoolMeans(x, env);
    case _ =>
  }

  /** The assignment with the letters of their values as texts of xs. */
  function Retext(env: Env, xs: set<Symbol>): Env {
    Env(env.tri, s => if s in xs then Letter(env.tri(s)) else env.str(s))
  }

  lemma {:induction false} ReadsRetext(e: Expr, env: Env, xs: set<Symbol>)
    requires WellTyped(env) && Values(e) <= xs
    requires forall s :: s in Compared(e) && s in xs ==> env.str(s) == Letter(env.tri(s))
    ensures Reads(e, SymNo, Retext(env, xs)) <==> AsBool(e, env)
  {
    assert SymOk(env, SymNo);
    match e
    case And(l, r) => ReadsRetext(l, env, xs); ReadsRetext(r, env, xs);
    case Or(l, r) => ReadsRetext(l, env, xs); ReadsRetext(r, env, xs);
    case Not(x) => ReadsRetext(x, env, xs);
    case Sym(s) =>
      assert Letter(NO) == "n" && Letter(MOD) == "m" && Letter(YES) == "y";
    case _ =>
  }

  lemma DepReadsRetext(d: Dep, outer: Dep, dep: Dep, env: Env)
    requires WellTyped(env) && Apart(outer, dep, env) && (d == outer || d == dep)
    ensures DepReads(d, Retext(env, DepValues(outer) + DepValues(dep))) <==> DepAsBool(d, env)
  {
    if d.Some? {
      ReadsRetext(d.value, env, DepValues(outer) + DepValues(dep));
    }
  }

  lemma RetextTyped(outer: Dep, dep: Dep, env: Env)
    requires WellTyped(env) && Apart(outer, dep, env)
    ensures WellTyped(Retext(env, DepValues(outer) + DepValues(dep)))
  {
    var env' := Retext(env, DepValues(outer) + DepValues(dep));
    forall s
      ensures SymOk(env', s)
    {
      assert SymOk(env, s);
    }
  }

  // ---- what is nested ----

  lemma {:induction false} CompareFlips(e: Expr, neg: bool)
    ensures Nnf(TransCompare(e, true, SymNo), neg) == Nnf(TransCompare(e, false, SymNo), !neg)
  {
    match e
    case Not(x) => CompareFlips(x, !neg);
    case _ =>
  }

  /** The test of a conjunction is the conjunction of the tests. */
  lemma TestOfAnd(l: Expr, r: Expr)
    ensures Test(Some(And(l, r))) == And(Test(Some(l)), Test(Some(r)))
  {
    hide Transform;
    TransformIsNnf(TransCompare(And(l, r), false, SymNo));
    TransformIsNnf(TransCompare(l, false, SymNo));
    TransformIsNnf(TransCompare(r, false, SymNo));
    CompareFlips(l, true);
    CompareFlips(r, true);
    var ors := Or(TransCompare(l, true, SymNo), TransCompare(r, true, SymNo));
    assert Nnf(Not(ors), false) == Nnf(ors, true);
  }

  lemma {:induction false} TestPart(e: Expr, o: Expr)
    requires PartOf(OpAnd, e, o)
    ensures PartOf(OpAnd, Test(Some(e)), Test(Some(o)))
  {
    hide Test;
    TestOfAnd(e.l, e.r);
    if e.l != o && e.r != o {
      TestPart(if PartOf(OpAnd, e.l, o) then e.l else e.r, o);
    }
  }

  /**
   * The condition of the entry contains the outer one among others; nothing in the two can be simplified, and the
   * outer one is not plainly n.
   */
  ghost predicate Includes(outer: Dep, dep: Dep) {
    && outer.Some? && dep.Some? && PartOf(OpAnd, dep.value, outer.value)
    && Reduced(Test(outer)) && Reduced(Test(dep)) && !Occurs(OpAnd, Test(outer), ENo)
  }

  /** Then the elimination gives y. */
  lemma IncludedIsYes(outer: Dep, dep: Dep)
    requires Includes(outer, dep)
    ensures EliminateEq(Test(dep), Test(outer)).1 == EYes
  {
    var d, o := Test(dep), Test(outer);
    hide Test;
    TestPart(dep.value, outer.value);
    assert At(OpAnd, d, []) == d;
    NoJoinPairwise(OpAnd, d, []);
    var c := PartContext(OpAnd, d, o);
    PartEliminated(OpAnd, c, o);
    BlankIsNeutral(OpAnd, o);
  }

  // ---- the test ----

  /**
   * An entry with condition dep is nested under the preceding entry for sym, whose prompt has condition outer. If dep
   * depends on sym, it is n unless sym is set. If the elimination gave y, it is n unless the outer condition is not,
   * as the comparison reads them; and by their values, if m counts as y and no symbol whose text is not its value is
   * both used as a value and compared.
   */
  ghost predicate NestedIn(sym: Symbol, outer: Dep, dep: Dep, env: Env) {
    dep.Some? &&
    if DependsSymbol(dep.value, sym) then
      DepValue(dep, env) != NO ==>
        (env.tri(sym) != NO || env.str(sym) != "n") && (sym.IsBool() || sym.IsTri() ==> env.tri(sym) != NO)
    else
      && (DepReads(dep, env) ==> DepReads(outer, env))
      && (Apart(outer, dep, env) && DepAsBool(dep, env) ==> DepAsBool(outer, env))
  }

  method NestingTest(sym: Symbol, outer: Dep, dep: Dep) returns (nested: bool, ghost basedep: Expr, ghost d: Expr)
    ensures nested ==> forall env :: WellTyped(env) ==> NestedIn(sym, outer, dep, env)
    ensures SameCondition(outer, basedep) && SameCondition(dep, d)
    ensures nested ==
      (dep.Some? && ContainsSymbol(dep.value, sym) &&
       (DependsSymbol(dep.value, sym) || EliminateEq(d, basedep).1 == EYes))
    ensures dep.Some? && sym in Mentions(dep.value) && Includes(outer, dep) ==> nested
  {
    if dep.Some? {
      ContainsIsMentions(dep.value, sym);
      if Includes(outer, dep) {
        IncludedIsYes(outer, dep);
      }
    }
    var b := Condition(outer);
    var c := Condition(dep);
    basedep, d := b, c;
    if dep.None? || !ContainsSymbol(dep.value, sym) {
      return false, b, c;
    }
    if DependsSymbol(dep.value, sym) {
      forall env | WellTyped(env)
        ensures NestedIn(sym, outer, dep, env)
      {
        if DepValue(dep, env) != NO {
          DependsSymbolImplies(dep.value, sym, env);
        }
      }
      return true, b, c;
    }
    var rest := EliminateEq(c, b);
    nested := rest.1 == EYes;
    if nested {
      forall env | WellTyped(env)
        ensures NestedIn(sym, outer, dep, env)
      {
        NestedReads(outer, dep, basedep, d, env);
        if Apart(outer, dep, env) {
          NestedAsBool(outer, dep, basedep, d, env);
        }
      }
    }
  }

  /**
   * It need not where something can be simplified: C!=n with the outer C!=m is merged into C=y, from which the outer
   * condition is not eliminated, although C=y implies it.
   */
  lemma MergedNotNested(c: Symbol)
    requires c.IsTri()
    ensures var outer, dep := Neq(c, SymMod), And(Neq(c, SymNo), Neq(c, SymMod));
      && Test(Some(outer)) == outer && Test(Some(dep)) == dep
      && JoinAnd(dep.l, dep.r) == Some(Eq(c, SymYes)) && EliminateEq(Eq(c, SymYes), outer).1 == outer
  {
    var outer, other := Neq(c, SymMod), Neq(c, SymNo);
    TestOfAnd(other, outer);
    assert TransCompare(outer, false, SymNo) == outer && TransCompare(other, false, SymNo) == other;
    AndOfComparisons(c, SymNo, SymMod);
  }

  /** Nesting by elimination, as the comparison reads the two conditions: in every assignment. */
  lemma NestedReads(outer: Dep, dep: Dep, basedep: Expr, d: Expr, env: Env)
    requires WellTyped(env)
    requires SameCondition(outer, basedep) && SameCondition(dep, d)
    requires EliminateEq(d, basedep).1 == EYes
    ensures DepReads(dep, env) ==> DepReads(outer, env)
  {
    assert SymOk(env, SymNo);
    EliminateEqImplies(d, basedep, env);
    DepCompareReads(outer, env);
    DepCompareReads(dep, env);
  }

  lemma DepCompareReads(d: Dep, env: Env)
    requires WellTyped(env)
    ensures Eval(DepCompare(d, false, SymNo), env) == if DepReads(d, env) then YES else NO
  {
    assert SymOk(env, SymNo);
    if d.Some? {
      TransCompareReads(d.value, false, SymNo, env);
    }
  }

  /** ... and by their values. */
  lemma NestedAsBool(outer: Dep, dep: Dep, basedep: Expr, d: Expr, env: Env)
    requires WellTyped(env) && Apart(outer, dep, env)
    requires SameCondition(outer, basedep) && SameCondition(dep, d)
    requires EliminateEq(d, basedep).1 == EYes
    ensures DepAsBool(dep, env) ==> DepAsBool(outer, env)
  {
    var env' := Retext(env, DepValues(outer) + DepValues(dep));
    RetextTyped(outer, dep, env);
    NestedReads(outer, dep, basedep, d, env');
    DepReadsRetext(outer, outer, dep, env);
    DepReadsRetext(dep, outer, dep, env);
  }

  /** So the entry is visible only where the outer prompt is, if nothing negated in its condition is m. */
  lemma NestedIsVisible(sym: Symbol, outer: Dep, dep: Dep, env: Env)
    requires WellTyped(env) && NestedIn(sym, outer, dep, env) && !DependsSymbol(dep.value, sym)
    requires Apart(outer, dep, env) && NegationsDefinite(dep.value, env) && (outer.Some? ==> IsNnf(outer.value))
    ensures DepValue(dep, env) != NO ==> DepValue(outer, env) != NO
  {
    AsBoolMeans(dep.value, env);
    if outer.Some? {
      AsBoolMeans(outer.value, env);
    }
  }

  /**
   * With a negated symbol at m it may not be. An entry that depends on !C && (A || D) is nested below
   * the one for A, whose prompt has the condition C=n, since that is what the comparison makes of !C. But with C at m,
   * D at y and A at n the entry is visible, and neither A nor the prompt of A is.
   */
  lemma NestedUnderHidden(a: Symbol, c: Symbol, d: Symbol, env: Env)
    requires WellTyped(env) && a.IsTri() && c.IsTri() && d.IsBool() && a != c
    requires env.tri(a) == NO && env.tri(c) == MOD && env.tri(d) == YES
    ensures var outer, dep := Eq(c, SymNo), And(Not(Sym(c)), Or(Sym(a), Sym(d)));
      var outerTest, depTest := Transform(TransCompare(outer, false, SymNo)), Transform(TransCompare(dep, false, SymNo));
      && ContainsSymbol(dep, a) && EliminateEq(depTest, outerTest).1 == EYes
      && Apart(Some(outer), Some(dep), env) && IsNnf(outer)
      && Eval(dep, env) != NO && env.tri(a) == NO && Eval(outer, env) == NO
  {
    HiddenTest(a, c, d);
    HiddenValues(a, c, d, env);
    TestPasses(Eq(c, SymNo), a, d);
    hide WellTyped, Apart, Transform, TransCompare, EliminateEq;
    assert ContainsSymbol(Or(Sym(a), Sym(d)), a);
  }

  lemma HiddenValues(a: Symbol, c: Symbol, d: Symbol, env: Env)
    requires WellTyped(env) && a.IsTri() && c.IsTri() && d.IsBool()
    requires env.tri(a) == NO && env.tri(c) == MOD && env.tri(d) == YES
    ensures var outer, dep := Eq(c, SymNo), And(Not(Sym(c)), Or(Sym(a), Sym(d)));
      Apart(Some(outer), Some(dep), env) && Eval(dep, env) == MOD && Eval(outer, env) == NO
  {
    var outer, dep := Eq(c, SymNo), And(Not(Sym(c)), Or(Sym(a), Sym(d)));
    assert SymOk(env, SymNo) && SymOk(env, c);
    LogicApart(Some(outer), Some(dep), env) by {
      assert Values(dep.l) == Values(Sym(c)) == {c} && Values(dep.r) == Values(Sym(a)) + Values(Sym(d)) == {a, d};
    }
    hide WellTyped, Apart;
    assert Eval(Sym(c), env) == MOD && Eval(Sym(a), env) == NO && Eval(Sym(d), env) == YES;
    assert Eval(dep.l, env) == MOD && Eval(dep.r, env) == YES;
  }

  /** The elimination cancels the operand that the two tests share. */
  lemma TestPasses(x: Expr, a: Symbol, d: Symbol)
    requires x.Eq? || x.Neq?
    ensures EliminateEq(And(x, Or(Neq(a, SymNo), Sym(d))), x).1 == EYes
  {
    var test := And(x, Or(Neq(a, SymNo), Sym(d)));
    assert ExprEq(x, x) && !ExprEq(test.r, EYes);
    assert EliminateCommon(OpAnd, test, x) == (And(EYes, test.r), EYes);
  }

  lemma HiddenTest(a: Symbol, c: Symbol, d: Symbol)
    requires a.IsTri() && c.IsTri() && d.IsBool()
    ensures var outer, dep := Eq(c, SymNo), And(Not(Sym(c)), Or(Sym(a), Sym(d)));
      && Transform(TransCompare(outer, false, SymNo)) == outer
      && Transform(TransCompare(dep, false, SymNo)) == And(outer, Or(Neq(a, SymNo), Sym(d)))
  {
    var outer, notC, either := Eq(c, SymNo), Not(Sym(c)), Or(Sym(a), Sym(d));
    assert TransCompare(Sym(c), false, SymNo) == Neq(c, SymNo) == TransCompare(notC, true, SymNo);
    assert TransCompare(either, true, SymNo) == And(Eq(a, SymNo), Eq(d, SymNo));
    var compared := Or(Neq(c, SymNo), And(Eq(a, SymNo), Eq(d, SymNo)));
    assert TransCompare(And(notC, either), false, SymNo) == Not(compared);
    TransformIsNnf(outer);
    TransformIsNnf(Not(compared));
    assert Nnf(compared.r, true) == Or(Neq(a, SymNo), Sym(d));
    assert Nnf(compared.l, true) == outer;
    assert Nnf(Not(compared), false) == Nnf(compared, true);
  }

  /**
   * With an undefined symbol F that is used as a value in one condition and compared in the other it may not be either.
   * The prompt of A needs F, the entry needs F!=n, and A or D: the comparison takes F for F!=n, so the entry is nested.
   * With A at n and D at y the entry is visible, and neither A nor the prompt of A is. Nothing is m or negated.
   */
  lemma NestedUnderUndefined(f: Symbol, a: Symbol, d: Symbol, env: Env)
    requires WellTyped(env) && f.Config? && !f.IsBool() && !f.IsTri() && a.IsTri() && d.IsBool()
    requires env.tri(f) == NO && env.str(f) != "n" && env.tri(a) == NO && env.tri(d) == YES
    ensures var outer, dep := Sym(f), And(Neq(f, SymNo), Or(Sym(a), Sym(d)));
      var outerTest, depTest := Transform(TransCompare(outer, false, SymNo)), Transform(TransCompare(dep, false, SymNo));
      && ContainsSymbol(dep, a) && !DependsSymbol(dep, a) && EliminateEq(depTest, outerTest).1 == EYes
      && IsNnf(outer) && IsNnf(dep) && NegationsDefinite(dep, env) && !Apart(Some(outer), Some(dep), env)
      && Eval(dep, env) == YES && env.tri(a) == NO && Eval(outer, env) == NO
  {
    UndefinedTest(f, a, d);
    UndefinedValues(f, a, d, env);
    TestPasses(Neq(f, SymNo), a, d);
    hide WellTyped, Apart, Transform, TransCompare, EliminateEq, ContainsSymbol, DependsSymbol, NegationsDefinite, IsNnf;
  }

  lemma UndefinedValues(f: Symbol, a: Symbol, d: Symbol, env: Env)
    requires WellTyped(env) && f.Config? && !f.IsBool() && !f.IsTri() && a.IsTri() && d.IsBool()
    requires env.tri(f) == NO && env.str(f) != "n" && env.tri(a) == NO && env.tri(d) == YES
    ensures var outer, dep := Sym(f), And(Neq(f, SymNo), Or(Sym(a), Sym(d)));
      && ContainsSymbol(dep, a) && !DependsSymbol(dep, a)
      && IsNnf(outer) && IsNnf(dep) && NegationsDefinite(dep, env) && !Apart(Some(outer), Some(dep), env)
      && Eval(dep, env) == YES && Eval(outer, env) == NO
  {
    var outer, dep := Sym(f), And(Neq(f, SymNo), Or(Sym(a), Sym(d)));
    assert SymOk(env, SymNo);
    hide WellTyped;
    assert Eval(Sym(a), env) == NO && Eval(Sym(d), env) == YES;
    assert Eval(dep.l, env) == YES && Eval(dep.r, env) == YES;
    UndefinedDepends(f, a, d);
    UndefinedNnf(f, a, d, env);
    assert f in Values(outer) && f in Compared(dep.l);
  }

  lemma UndefinedDepends(f: Symbol, a: Symbol, d: Symbol)
    requires !f.IsTri() && a.IsTri() && d.IsBool()
    ensures var need, either := Neq(f, SymNo), Or(Sym(a), Sym(d));
            ContainsSymbol(either, a) && !DependsSymbol(either, a) && !DependsSymbol(need, a)
  {
    var either := Or(Sym(a), Sym(d));
    assert ContainsSymbol(either.l, a);
  }

  lemma UndefinedNnf(f: Symbol, a: Symbol, d: Symbol, env: Env)
    requires !f.IsBool() && a.IsTri() && d.IsBool()
    ensures var need, either := Neq(f, SymNo), Or(Sym(a), Sym(d));
            IsNnf(need) && IsNnf(either) && NegationsDefinite(need, env) && NegationsDefinite(either, env)
  {
    var need, either := Neq(f, SymNo), Or(Sym(a), Sym(d));
    assert IsNnf(either.l) && IsNnf(either.r) && NegationsDefinite(either.l, env) && NegationsDefinite(either.r, env);
  }

  lemma UndefinedTest(f: Symbol, a: Symbol, d: Symbol)
    requires !f.IsBool() && a.IsTri() && d.IsBool()
    ensures var outer, dep := Sym(f), And(Neq(f, SymNo), Or(Sym(a), Sym(d)));
      && Transform(TransCompare(outer, false, SymNo)) == Neq(f, SymNo)
      && Transform(TransCompare(dep, false, SymNo)) == And(Neq(f, SymNo), Or(Neq(a, SymNo), Sym(d)))
  {
    var need, either := Neq(f, SymNo), Or(Sym(a), Sym(d));
    assert TransCompare(need, true, SymNo) == Not(need);
    assert TransCompare(either, true, SymNo) == And(Eq(a, SymNo), Eq(d, SymNo));
    var compared := Or(Not(need), And(Eq(a, SymNo), Eq(d, SymNo)));
    assert TransCompare(And(need, either), false, SymNo) == Not(compared);
    TransformIsNnf(need);
    TransformIsNnf(Not(compared));
    assert Nnf(compared.r, true) == Or(Neq(a, SymNo), Sym(d));
    assert Nnf(compared.l, true) == Nnf(need, false) == need;
    assert Nnf(Not(compared), false) == Nnf(compared, true);
  }

  // ---- dependency propagation in menu_finalize ----

  function AllocAnd(a: Dep, b: Dep): Dep {
    if a.None? then b else if b.None? then a else Some(And(a.value, b.value))
  }

  predicate DepNnf(d: Dep) { d.Some? ==> IsNnf(d.value) }

  /**
   * The condition an entry (or one of its properties) gets from its parent's condition and its own.
   * A definite n stays n and a definite y stays visible; negation normal form is established from then on.
   */
  method PropagateDep(parent: Dep, own: Dep, toBool: bool) returns (dep: Dep)
    requires DepNnf(parent)
    ensures DepNnf(dep) && (toBool && dep.Some? ==> NoTest(dep.value))
    ensures dep.None? <==> parent.None? && own.None?
    ensures var both := AllocAnd(parent, if own.None? then None else Some(Transform(own.value)));
            both.Some? && Reduced(both.value) ==> dep == Some(if toBool then TransBool(both.value) else both.value)
    ensures forall env :: WellTyped(env) ==>
      var before, after := Min(DepValue(parent, env), DepValue(own, env)), DepValue(dep, env);
      && (before == NO ==> after == NO)
      && (before == YES ==> after != NO && (!toBool ==> after == YES))
  {
    var own' := if own.None? then None else Some(Transform(own.value));
    var both := AllocAnd(parent, own');
    if own.Some? {
      TransformNormalises(own.value);
    }
    if both.None? {
      return None;
    }
    var r := EliminateDups(both.value);
    dep := Some(if toBool then TransBool(r) else r);
    TransBoolNnf(r);
    TransBoolDone(r);
    forall env | WellTyped(env)
      ensures var before, after := Min(DepValue(parent, env), DepValue(own, env)), DepValue(dep, env);
        && (before == NO ==> after == NO)
        && (before == YES ==> after != NO && (!toBool ==> after == YES))
    {
      if own.Some? {
        TransformEval(own.value, env);
      }
      assert Refines(Eval(both.value, env), Eval(r, env));
      TransBoolKeepsNotNo(r, env);
    }
  }
}
