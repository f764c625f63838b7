/** Expressions of the Kconfig language over the three-valued logic n < m < y. */
module Expressions {

  /** The enum `no, mod, yes`; its order is the truth order. */
  type Tri = t: int | 0 <= t <= 2
  const NO: Tri := 0
  const MOD: Tri := 1
  const YES: Tri := 2

  function Min(a: Tri, b: Tri): Tri { if a < b then a else b }
  function Max(a: Tri, b: Tri): Tri { if a > b then a else b }
  function Neg(a: Tri): Tri { 2 - a }

  /** Kleene's information order: m carries no information, n and y are definite. */
  predicate Refines(a: Tri, b: Tri) { a == MOD || a == b }

  function Letter(t: Tri): string {
    if t == NO then "n" else if t == MOD then "m" else "y"
  }

  datatype SymType = S_UNKNOWN | S_BOOLEAN | S_TRISTATE | S_INT | S_HEX | S_STRING | S_OTHER

  /** sym_lookup maps the names y, m and n to the three built-in symbols. */
  type LitText = t: string | t != "y" && t != "m" && t != "n" witness ""

  datatype Symbol =
    | SymYes
    | SymMod
    | SymNo
    | Literal(text: LitText)
    | Config(id: nat, kind: SymType)
  {
    function Type(): SymType { if Config? then kind else S_UNKNOWN }
    predicate IsConst() { !Config? }
    predicate IsBool() { Type() == S_BOOLEAN }
    predicate IsTri() { Type() == S_TRISTATE }
    predicate IsYN() { SymYes? || SymNo? }
    predicate IsYMN() { SymYes? || SymNo? || SymMod? }
  }

  datatype Expr =
    | Sym(s: Symbol)
    | Not(e: Expr)
    | And(l: Expr, r: Expr)
    | Or(l: Expr, r: Expr)
    | Eq(a: Symbol, b: Symbol)
    | Neq(a: Symbol, b: Symbol)

  const EYes := Sym(SymYes)
  const ENo := Sym(SymNo)

  /** The two node types a chain can be made of. */
  datatype Op = OpAnd | OpOr

  predicate Is(op: Op, e: Expr) { if op == OpAnd then e.And? else e.Or? }
  predicate IsChain(e: Expr) { e.And? || e.Or? }
  function TypeOf(e: Expr): Op requires IsChain(e) { if e.And? then OpAnd else OpOr }
  function Mk(op: Op, l: Expr, r: Expr): (e: Expr)
    ensures Is(op, e) && e.l == l && e.r == r
  {
    if op == OpAnd then And(l, r) else Or(l, r)
  }
  function Apply(op: Op, a: Tri, b: Tri): Tri { if op == OpAnd then Min(a, b) else Max(a, b) }
  /** The symbol an eliminated operand is replaced with. */
  function Neutral(op: Op): Expr { if op == OpAnd then EYes else ENo }
  function UnitOf(op: Op): Tri { if op == OpAnd then YES else NO }

  /** The current values of all symbols: their tristate and their text. */
  datatype Env = Env(tri: Symbol -> Tri, str: Symbol -> string)

  predicate SymOk(env: Env, s: Symbol) {
    match s
    case SymYes => env.tri(s) == YES && env.str(s) == "y"
    case SymMod => env.tri(s) == MOD && env.str(s) == "m"
    case SymNo => env.tri(s) == NO && env.str(s) == "n"
    case Literal(text) => env.tri(s) == NO && env.str(s) == text
    case Config(_, kind) =>
      && (kind == S_BOOLEAN ==> env.tri(s) != MOD)
      && (kind == S_BOOLEAN || kind == S_TRISTATE ==> env.str(s) == Letter(env.tri(s)))
  }

  ghost predicate WellTyped(env: Env) { forall s :: SymOk(env, s) }

  /** The assignment where every configuration symbol is n. */
  lemma SomeEnvIsWellTyped()
    ensures exists env :: WellTyped(env)
  {
    var tri := (s: Symbol) => if s == SymYes then YES else if s == SymMod then MOD else NO;
    var str := (s: Symbol) => if s == SymYes then "y" else if s == SymMod then "m" else if s.Literal? then s.text else "n";
    assert WellTyped(Env(tri, str));
  }

  /** expr_calc_value, with the symbols' values given by env. */
  function Eval(e: Expr, env: Env): Tri {
    match e
    case Sym(s) => env.tri(s)
    case Not(x) => Neg(Eval(x, env))
    case And(l, r) => Min(Eval(l, env), Eval(r, env))
    case Or(l, r) => Max(Eval(l, env), Eval(r, env))
    case Eq(a, b) => if env.str(a) == env.str(b) then YES else NO
    case Neq(a, b) => if env.str(a) == env.str(b) then NO else YES
  }

  /** The symbols occurring in e. */
  function Mentions(e: Expr): set<Symbol> {
    match e
    case Sym(s) => {s}
    case Not(x) => Mentions(x)
    case And(l, r) => Mentions(l) + Mentions(r)
    case Or(l, r) => Mentions(l) + Mentions(r)
    case Eq(a, b) => {a, b}
    case Neq(a, b) => {a, b}
  }

  function Size(e: Expr): (n: nat)
    ensures n >= 1
  {
    match e
    case Sym(_) => 1
    case Not(x) => 1 + Size(x)
    case And(l, r) => 1 + Size(l) + Size(r)
    case Or(l, r) => 1 + Size(l) + Size(r)
    case Eq(_, _) => 1
    case Neq(_, _) => 1
  }

  lemma Interchange(op: Op, a: Tri, b: Tri, c: Tri, d: Tri)
    ensures Apply(op, Apply(op, a, b), Apply(op, c, d)) == Apply(op, Apply(op, a, c), Apply(op, b, d))
  {
  }

  lemma UnitLaw(op: Op, a: Tri)
    ensures Apply(op, UnitOf(op), a) == a
  {
  }

  lemma Assoc(op: Op, a: Tri, b: Tri, c: Tri)
    ensures Apply(op, Apply(op, a, b), c) == Apply(op, a, Apply(op, b, c))
  {
  }

  lemma EvalMk(op: Op, l: Expr, r: Expr, env: Env)
    ensures Eval(Mk(op, l, r), env) == Apply(op, Eval(l, env), Eval(r, env))
  {
  }
}
