/**
 * symbol.c: the value of a symbol, once as a direct definition and once as sym_calc_value computes it, with the
 * VALID flag as memo. Symbols of choices, range limits and the modules symbol's own update are not included.
 */
module SymbolValues {
  import opened Wrappers
  import opened Expressions
  import opened Visibility

  datatype Default = Default(cond: Dep, value: Expr)

  /** What the configuration language says about a symbol, and what the user has set it to. */
  datatype Props = Props(
    name: string,
    prompts: seq<Dep>,
    dirDep: Dep,
    revDep: Option<Expr>,
    defaults: seq<Default>,
    userTri: Option<Tri>,
    userText: Option<string>,
    auto: bool)

  /** The fields of a symbol that sym_calc_value sets: curr, visible, dir_dep.tri, rev_dep.tri and the WRITE flag. */
  datatype Info = Info(tri: Tri, text: string, visible: Tri, dir: Tri, rev: Tri, write: bool)

  predicate IsLogic(s: Symbol) { s.IsBool() || s.IsTri() }
  predicate IsText(s: Symbol) { s.Type() == S_STRING || s.Type() == S_INT || s.Type() == S_HEX }

  /** sym_get_type: without modules a tristate is a boolean. */
  predicate ActsBool(s: Symbol, modules: Tri) { s.IsBool() || (s.IsTri() && modules == NO) }

  /** sym_get_string_value. */
  function TextOf(s: Symbol, i: Info, modules: Tri): string {
    if !IsLogic(s) then i.text
    else if i.tri == MOD && modules == NO then "n"
    else Letter(i.tri)
  }

  // ---- the direct definition ----

  function DirValue(p: Props, env: Env): Tri {
    var t := DepValue(p.dirDep, env);
    if t == MOD then YES else t
  }

  function RevValue(s: Symbol, p: Props, modules: Tri, env: Env): Tri {
    var t := if p.revDep.None? then NO else Eval(p.revDep.value, env);
    if t == MOD && ActsBool(s, modules) then YES else t
  }

  /** The first default whose condition is not n. */
  function FirstDefault(ds: seq<Default>, env: Env): Option<Default> {
    if ds == [] then None
    else if DepValue(ds[0].cond, env) != NO then Some(ds[0])
    else FirstDefault(ds[1..], env)
  }

  function LogicValue(s: Symbol, p: Props, modules: Tri, env: Env): Tri {
    var visible := SymVisible(s.Type(), modules, p.prompts, env);
    var d := FirstDefault(p.defaults, env);
    var chosen :=
      if visible != NO && p.userTri.Some? then Min(p.userTri.value, visible)
      else if d.Some? then Min(Eval(d.value.value, env), DepValue(d.value.cond, env))
      else NO;
    var v := Max(chosen, RevValue(s, p, modules, env));
    if v == MOD && ActsBool(s, modules) then YES else v
  }

  /** curr.val of a bool or tristate symbol stays "n"; a text symbol that defaults to one gets that. */
  function RawText(s: Symbol, env: Env): string { if IsLogic(s) then "n" else env.str(s) }

  function TextValue(s: Symbol, p: Props, modules: Tri, env: Env): string {
    var visible := SymVisible(s.Type(), modules, p.prompts, env);
    var d := FirstDefault(p.defaults, env);
    if visible != NO && p.userText.Some? then p.userText.value
    else if d.Some? && d.value.value.Sym? then RawText(d.value.value.s, env)
    else ""
  }

  function Written(s: Symbol, p: Props, modules: Tri, env: Env): bool {
    var visible := SymVisible(s.Type(), modules, p.prompts, env);
    var d := FirstDefault(p.defaults, env);
    !p.auto &&
    (visible != NO
     || (if IsLogic(s) then RevValue(s, p, modules, env) != NO || d.Some?
         else d.Some? && d.value.value.Sym?))
  }

  /** The symbol's fields, given the values of the symbols it mentions. */
  function Compute(s: Symbol, p: Props, modules: Tri, env: Env): Info {
    match s
    case SymYes => Info(YES, "y", NO, NO, NO, false)
    case SymMod => Info(MOD, "m", NO, NO, NO, false)
    case SymNo => Info(NO, "n", NO, NO, NO, false)
    case Literal(text) => Info(NO, text, NO, NO, NO, false)
    case Config(_, _) =>
      if IsLogic(s) || IsText(s) then
        Info(if IsLogic(s) then LogicValue(s, p, modules, env) else NO,
             if IsLogic(s) then "n" else TextValue(s, p, modules, env),
             SymVisible(s.Type(), modules, p.prompts, env),
             DirValue(p, env),
             RevValue(s, p, modules, env),
             Written(s, p, modules, env))
      else Info(NO, p.name, NO, NO, NO, false)
  }

  datatype Kconfig = Kconfig(props: Symbol -> Props, modules: Tri)

  function ComputeIn(k: Kconfig, s: Symbol, env: Env): Info { Compute(s, k.props(s), k.modules, env) }

  function DepMentions(d: Dep): set<Symbol> { if d.None? then {} else Mentions(d.value) }

  function PromptMentions(ds: seq<Dep>): set<Symbol> {
    if ds == [] then {} else DepMentions(ds[0]) + PromptMentions(ds[1..])
  }

  function DefaultMentions(ds: seq<Default>): set<Symbol> {
    if ds == [] then {} else DepMentions(ds[0].cond) + Mentions(ds[0].value) + DefaultMentions(ds[1..])
  }

  /** The symbols s depends on. */
  function PropMentions(p: Props): set<Symbol> {
    PromptMentions(p.prompts) + DepMentions(p.dirDep) + DepMentions(p.revDep) + DefaultMentions(p.defaults)
  }

  /** rank orders the dependency graph, which therefore has no cycle. */
  ghost predicate Acyclic(k: Kconfig, rank: Symbol -> nat) {
    forall s, a :: a in PropMentions(k.props(s)) ==> rank(a) < rank(s)
  }

  function InfoEnv(k: Kconfig, value: Symbol -> Info): Env {
    Env(s => value(s).tri, s => TextOf(s, value(s), k.modules))
  }

  /** The value of s by recursion over its dependencies. */
  ghost function Spec(k: Kconfig, rank: Symbol -> nat, s: Symbol): Info
    decreases rank(s), 1
  {
    ComputeIn(k, s, EnvBelow(k, rank, rank(s)))
  }

  ghost function EnvBelow(k: Kconfig, rank: Symbol -> nat, n: nat): Env
    decreases n, 0
  {
    InfoEnv(k, s => if rank(s) < n then Spec(k, rank, s) else Info(NO, "", NO, NO, NO, false))
  }

  // ---- the definition is local, and determines the values ----

  ghost predicate AgreeOn(xs: set<Symbol>, env: Env, env': Env) {
    forall s :: s in xs ==> env.tri(s) == env'.tri(s) && env.str(s) == env'.str(s)
  }

  lemma {:induction false} EvalLocal(e: Expr, env: Env, env': Env)
    requires AgreeOn(Mentions(e), env, env')
    ensures Eval(e, env) == Eval(e, env')
  {
    match e
    case Not(x) => EvalLocal(x, env, env');
    case And(l, r) => EvalLocal(l, env, env'); EvalLocal(r, env, env');
    case Or(l, r) => EvalLocal(l, env, env'); EvalLocal(r, env, env');
    case _ =>
  }

  lemma DepLocal(d: Dep, env: Env, env': Env)
    requires AgreeOn(DepMentions(d), env, env')
    ensures DepValue(d, env) == DepValue(d, env')
  {
    if d.Some? {
      EvalLocal(d.value, env, env');
    }
  }

  lemma {:induction false} PromptsLocal(ds: seq<Dep>, env: Env, env': Env)
    requires AgreeOn(PromptMentions(ds), env, env')
    ensures AnyPrompt(ds, env) == AnyPrompt(ds, env')
  {
    if ds != [] {
      DepLocal(ds[0], env, env');
      PromptsLocal(ds[1..], env, env');
    }
  }

  lemma {:induction false} DefaultsLocal(ds: seq<Default>, env: Env, env': Env)
    requires AgreeOn(DefaultMentions(ds), env, env')
    ensures FirstDefault(ds, env) == FirstDefault(ds, env')
    ensures FirstDefault(ds, env).Some? ==> var d := FirstDefault(ds, env).value;
      && DepMentions(d.cond) + Mentions(d.value) <= DefaultMentions(ds)
      && DepValue(d.cond, env) == DepValue(d.cond, env')
      && Eval(d.value, env) == Eval(d.value, env')
  {
    if ds != [] {
      DepLocal(ds[0].cond, env, env');
      EvalLocal(ds[0].value, env, env');
      DefaultsLocal(ds[1..], env, env');
    }
  }

  lemma ComputeLocal(k: Kconfig, s: Symbol, env: Env, env': Env)
    requires AgreeOn(PropMentions(k.props(s)), env, env')
    ensures ComputeIn(k, s, env) == ComputeIn(k, s, env')
  {
    hide AnyPrompt, FirstDefault, PromptMentions, DefaultMentions;
    var p := k.props(s);
    PromptsLocal(p.prompts, env, env');
    DepLocal(p.dirDep, env, env');
    DepLocal(p.revDep, env, env');
    DefaultsLocal(p.defaults, env, env');
  }

  /** An assignment that satisfies the defining equation of every symbol. */
  ghost predicate Solution(k: Kconfig, value: Symbol -> Info) {
    forall s :: value(s) == ComputeIn(k, s, InfoEnv(k, value))
  }

  /** On an acyclic graph the equations have a solution: the recursive definition. */
  lemma SpecSolves(k: Kconfig, rank: Symbol -> nat)
    requires Acyclic(k, rank)
    ensures Solution(k, s => Spec(k, rank, s))
  {
    var value := (s: Symbol) => Spec(k, rank, s);
    forall s
      ensures value(s) == ComputeIn(k, s, InfoEnv(k, value))
    {
      ComputeLocal(k, s, EnvBelow(k, rank, rank(s)), InfoEnv(k, value));
    }
  }

  /** ... and no other one. */
  lemma {:induction false} SolutionIsSpec(k: Kconfig, rank: Symbol -> nat, value: Symbol -> Info, s: Symbol)
    requires Acyclic(k, rank) && Solution(k, value)
    ensures value(s) == Spec(k, rank, s)
    decreases rank(s)
  {
    hide Compute, PropMentions, TextOf;
    var p := k.props(s);
    forall a | a in PropMentions(p)
      ensures value(a) == Spec(k, rank, a) && rank(a) < rank(s)
    {
      SolutionIsSpec(k, rank, value, a);
    }
    ComputeLocal(k, s, EnvBelow(k, rank, rank(s)), InfoEnv(k, value));
  }

  // ---- what the calculated fields are, in terms of the values of the symbols mentioned ----

  /** The default that applies: the first whose condition is not n. */
  ghost predicate Applies(ds: seq<Default>, env: Env, j: int) {
    0 <= j < |ds| && DepValue(ds[j].cond, env) != NO && forall i :: 0 <= i < j ==> DepValue(ds[i].cond, env) == NO
  }

  lemma {:induction false} AppliesIsFirst(ds: seq<Default>, env: Env, j: int)
    requires Applies(ds, env, j)
    ensures 0 <= j < |ds| && FirstDefault(ds, env) == Some(ds[j])
  {
    if j > 0 {
      assert DepValue(ds[0].cond, env) == NO;
      forall i | 0 <= i < j - 1
        ensures DepValue(ds[1..][i].cond, env) == NO
      {
        assert DepValue(ds[i + 1].cond, env) == NO;
      }
      AppliesIsFirst(ds[1..], env, j - 1);
    }
  }

  lemma {:induction false} NoneApplies(ds: seq<Default>, env: Env)
    requires forall i :: 0 <= i < |ds| ==> DepValue(ds[i].cond, env) == NO
    ensures FirstDefault(ds, env) == None
  {
    if ds != [] {
      NoneApplies(ds[1..], env);
    }
  }

  /** A symbol that acts as a boolean is y instead of m. */
  function Promoted(v: Tri, s: Symbol, modules: Tri): Tri {
    if v == MOD && (s.IsBool() || (s.IsTri() && modules == NO)) then YES else v
  }

  /** The user's value counts while a prompt is visible. */
  predicate UserApplies(p: Props, i: Info) { i.visible != NO && p.userTri.Some? }

  /**
   * The value of a bool or tristate symbol is what selects it, or more: with a user's value that value, but no more
   * than the visibility; otherwise the value of the default that applies, but no more than its condition.
   */
  lemma LogicLaw(k: Kconfig, value: Symbol -> Info, s: Symbol)
    requires Solution(k, value) && s.Config? && IsLogic(s)
    ensures var p, i, env := k.props(s), value(s), InfoEnv(k, value);
      && (UserApplies(p, i) ==> i.tri == Promoted(Max(i.rev, Min(p.userTri.value, i.visible)), s, k.modules))
      && (!UserApplies(p, i) ==> forall j :: Applies(p.defaults, env, j) ==>
            i.tri == Promoted(Max(i.rev, Min(Eval(p.defaults[j].value, env), DepValue(p.defaults[j].cond, env))), s, k.modules))
      && (!UserApplies(p, i) && (forall j :: 0 <= j < |p.defaults| ==> DepValue(p.defaults[j].cond, env) == NO) ==>
            i.tri == Promoted(i.rev, s, k.modules))
  {
    hide AnyPrompt, FirstDefault, Applies;
    var p, env := k.props(s), InfoEnv(k, value);
    assert value(s) == ComputeIn(k, s, env);
    if forall j :: 0 <= j < |p.defaults| ==> DepValue(p.defaults[j].cond, env) == NO {
      NoneApplies(p.defaults, env);
    }
    forall j | Applies(p.defaults, env, j)
      ensures 0 <= j < |p.defaults| && FirstDefault(p.defaults, env) == Some(p.defaults[j])
    {
      AppliesIsFirst(p.defaults, env, j);
    }
  }

  /** What selects a symbol, and what it depends on, with m promoted. */
  lemma DependencyLaw(k: Kconfig, value: Symbol -> Info, s: Symbol)
    requires Solution(k, value) && s.Config? && (IsLogic(s) || IsText(s))
    ensures var p, i, env := k.props(s), value(s), InfoEnv(k, value);
      && i.rev == Promoted(if p.revDep.None? then NO else Eval(p.revDep.value, env), s, k.modules)
      && i.dir == if DepValue(p.dirDep, env) == NO then NO else YES
  {
    hide AnyPrompt, FirstDefault;
    assert value(s) == ComputeIn(k, s, InfoEnv(k, value));
  }

  /** The visibility is the best of the prompts', and for anything but a tristate with modules m counts as y. */
  lemma VisibleLaw(k: Kconfig, value: Symbol -> Info, s: Symbol) returns (best: Tri)
    requires Solution(k, value) && s.Config? && (IsLogic(s) || IsText(s))
    ensures var p, i, env := k.props(s), value(s), InfoEnv(k, value);
      && (forall j :: 0 <= j < |p.prompts| ==> DepValue(p.prompts[j], env) <= best)
      && (best == NO || exists j :: 0 <= j < |p.prompts| && DepValue(p.prompts[j], env) == best)
      && i.visible == if best == MOD && !(s.IsTri() && k.modules != NO) then YES else best
  {
    hide FirstDefault;
    assert value(s) == ComputeIn(k, s, InfoEnv(k, value));
    best := AnyPrompt(k.props(s).prompts, InfoEnv(k, value));
    BestPrompt(k.props(s).prompts, InfoEnv(k, value));
  }

  lemma {:induction false} BestPrompt(ds: seq<Dep>, env: Env)
    ensures var best := AnyPrompt(ds, env);
      && (forall j :: 0 <= j < |ds| ==> DepValue(ds[j], env) <= best)
      && (best == NO || exists j :: 0 <= j < |ds| && DepValue(ds[j], env) == best)
  {
    if ds != [] {
      var rest := ds[1..];
      BestPrompt(rest, env);
      assert forall j :: 1 <= j < |ds| ==> ds[j] == rest[j - 1];
      assert forall j :: 0 <= j < |rest| ==> rest[j] == ds[j + 1];
    }
  }

  /**
   * The text of a string, int or hex symbol is the user's while a prompt is visible, otherwise that of the symbol the
   * default names. A symbol is written if it is visible, or has a default, or is selected; never if it is set from the
   * environment.
   */
  lemma TextLaw(k: Kconfig, value: Symbol -> Info, s: Symbol)
    requires Solution(k, value) && s.Config? && IsText(s)
    ensures var p, i, env := k.props(s), value(s), InfoEnv(k, value);
      var user, none := i.visible != NO && p.userText.Some?, forall j :: 0 <= j < |p.defaults| ==> DepValue(p.defaults[j].cond, env) == NO;
      && i.tri == NO
      && (user ==> i.text == p.userText.value)
      && (!user && none ==> i.text == "")
      && (!user ==> forall j :: Applies(p.defaults, env, j) ==>
            i.text == var e := p.defaults[j].value; if e.Sym? then (if IsLogic(e.s) then "n" else env.str(e.s)) else "")
      && (none ==> (i.write <==> !p.auto && i.visible != NO))
      && (forall j :: Applies(p.defaults, env, j) ==>
            (i.write <==> !p.auto && (i.visible != NO || p.defaults[j].value.Sym?)))
  {
    hide AnyPrompt, FirstDefault, Applies;
    var p, env := k.props(s), InfoEnv(k, value);
    assert value(s) == ComputeIn(k, s, env);
    if forall j :: 0 <= j < |p.defaults| ==> DepValue(p.defaults[j].cond, env) == NO {
      NoneApplies(p.defaults, env);
    }
    forall j | Applies(p.defaults, env, j)
      ensures 0 <= j < |p.defaults| && FirstDefault(p.defaults, env) == Some(p.defaults[j])
    {
      AppliesIsFirst(p.defaults, env, j);
    }
  }

  /** Only a tristate with modules can be m, so the text of a bool or tristate symbol is always the letter of its value. */
  lemma LetterLaw(k: Kconfig, value: Symbol -> Info, s: Symbol)
    requires Solution(k, value) && s.Config?
    ensures var i := value(s);
      && (i.tri == MOD ==> s.IsTri() && k.modules != NO)
      && (IsLogic(s) ==> TextOf(s, i, k.modules) == Letter(i.tri))
      && (IsText(s) ==> TextOf(s, i, k.modules) == i.text)
  {
    hide AnyPrompt, FirstDefault;
    assert value(s) == ComputeIn(k, s, InfoEnv(k, value));
  }

  /** A symbol that no file defines is n, and stands for its own name; it is neither visible nor written. */
  lemma UndefinedLaw(k: Kconfig, value: Symbol -> Info, s: Symbol)
    requires Solution(k, value) && s.Config? && !IsLogic(s) && !IsText(s)
    ensures value(s) == Info(NO, k.props(s).name, NO, NO, NO, false)
    ensures InfoEnv(k, value).str(s) == k.props(s).name
  {
    hide AnyPrompt, FirstDefault;
    assert value(s) == ComputeIn(k, s, InfoEnv(k, value));
  }

  /** The constants keep their values, and a word in quotes is n with itself as text. */
  lemma ConstantLaw(k: Kconfig, value: Symbol -> Info, s: Symbol)
    requires Solution(k, value) && !s.Config?
    ensures var i := value(s);
      && (s == SymYes ==> i.tri == YES && i.text == "y") && (s == SymMod ==> i.tri == MOD && i.text == "m")
      && (s == SymNo ==> i.tri == NO && i.text == "n") && (s.Literal? ==> i.tri == NO && i.text == s.text)
      && !i.write
  {
    hide AnyPrompt, FirstDefault;
    assert value(s) == ComputeIn(k, s, InfoEnv(k, value));
  }

  lemma WriteLaw(k: Kconfig, value: Symbol -> Info, s: Symbol)
    requires Solution(k, value) && s.Config? && IsLogic(s)
    ensures var p, i, env := k.props(s), value(s), InfoEnv(k, value);
      var defaulted := exists j :: 0 <= j < |p.defaults| && DepValue(p.defaults[j].cond, env) != NO;
      i.write <==> !p.auto && (i.visible != NO || i.rev != NO || defaulted)
  {
    hide AnyPrompt, FirstDefault;
    var p, env := k.props(s), InfoEnv(k, value);
    assert value(s) == ComputeIn(k, s, env);
    SomeApplies(p.defaults, env);
  }

  lemma {:induction false} SomeApplies(ds: seq<Default>, env: Env)
    ensures FirstDefault(ds, env).Some? <==> exists j :: 0 <= j < |ds| && DepValue(ds[j].cond, env) != NO
  {
    if ds != [] {
      var rest := ds[1..];
      SomeApplies(rest, env);
      assert forall j :: 1 <= j < |ds| ==> ds[j] == rest[j - 1];
      assert forall j :: 0 <= j < |rest| ==> rest[j] == ds[j + 1];
    }
  }

  // ---- sym_calc_value: what a run keeps ----

  /** The VALID flags and the fields of all symbols. */
  datatype State = State(valid: set<Symbol>, info: map<Symbol, Info>)

  /**
   * The symbols in play and, if the dependency graph has no cycle, the solution a run is compared with;
   * rank orders an acyclic graph.
   */
  datatype Goal = Goal(universe: set<Symbol>, acyclic: bool, rank: Symbol -> nat, spec: Symbol -> Info)

  /** Every symbol a known symbol mentions is known, and spec is what the definition asks for. */
  ghost predicate Closed(k: Kconfig, g: Goal) {
    && {SymYes, SymMod, SymNo} <= g.universe
    && (forall s :: s in g.universe ==> PropMentions(k.props(s)) <= g.universe)
    && (g.acyclic ==> Acyclic(k, g.rank) && Solution(k, g.spec))
  }

  const YesInfo := Info(YES, "y", NO, NO, NO, false)
  const ModInfo := Info(MOD, "m", NO, NO, NO, false)
  const NoInfo := Info(NO, "n", NO, NO, NO, false)

  /** symbol_yes, symbol_mod and symbol_no are valid from the start. */
  ghost predicate Fine(g: Goal, a: State) {
    && {SymYes, SymMod, SymNo} <= a.valid <= g.universe <= a.info.Keys
    && a.info[SymYes] == YesInfo && a.info[SymMod] == ModInfo && a.info[SymNo] == NoInfo
  }

  /** The number of symbols that are not valid: it falls with every value computed, on any graph. */
  ghost function Left(g: Goal, a: State): nat { |g.universe - a.valid| }

  /** Every valid symbol of rank below n holds its specified value. */
  ghost predicate Ready(g: Goal, n: nat, a: State) {
    g.acyclic && forall t :: t in a.valid && g.rank(t) < n ==> t in a.info && a.info[t] == g.spec(t)
  }

  /**
   * What a computation may do that asks for symbols of rank below n only: valid symbols keep their fields,
   * and if the valid ones below n were correct, they still are.
   */
  ghost predicate Step(g: Goal, n: nat, a: State, b: State) {
    && Fine(g, a) && Fine(g, b) && Left(g, b) <= Left(g, a)
    && a.valid <= b.valid
    && (forall t :: t in a.valid ==> b.info[t] == a.info[t])
    && (g.acyclic ==> forall t :: t in b.valid && t !in a.valid ==> g.rank(t) < n)
    && (Ready(g, n, a) ==> Ready(g, n, b))
  }

  lemma StepRefl(g: Goal, n: nat, a: State)
    requires Fine(g, a)
    ensures Step(g, n, a, a)
  {
  }

  lemma StepTrans(g: Goal, n: nat, a: State, b: State, c: State)
    requires Step(g, n, a, b) && Step(g, n, b, c)
    ensures Step(g, n, a, c)
    ensures Ready(g, n, a) ==> Ready(g, n, b)
  {
  }

  lemma StepWeaken(g: Goal, n: nat, m: nat, a: State, b: State)
    requires Step(g, n, a, b)
    requires g.acyclic ==> n <= m
    ensures Step(g, m, a, b)
  {
  }

  lemma StepFacts(g: Goal, n: nat, a: State, b: State)
    requires Step(g, n, a, b)
    ensures Fine(g, b) && Left(g, b) <= Left(g, a)
    ensures Ready(g, n, a) ==> Ready(g, n, b)
  {
  }

  /** sym_calc_value(s) at work since state a: s is marked valid, its own fields are in flux. */
  ghost predicate Work(g: Goal, s: Symbol, a: State, b: State) {
    && Fine(g, a) && Fine(g, b) && Left(g, b) < Left(g, a)
    && s !in a.valid && a.valid + {s} <= b.valid
    && (forall t :: t in a.valid ==> b.info[t] == a.info[t])
    && (g.acyclic ==> forall t :: t in b.valid && t !in a.valid && t != s ==> g.rank(t) < g.rank(s))
    && (Ready(g, g.rank(s), a) ==> Ready(g, g.rank(s), b))
  }

  lemma WorkStart(g: Goal, s: Symbol, a: State)
    requires Fine(g, a) && s in g.universe && s !in a.valid
    ensures Work(g, s, a, State(a.valid + {s}, a.info))
  {
    assert g.universe - a.valid == (g.universe - (a.valid + {s})) + {s};
  }

  lemma WorkStep(g: Goal, s: Symbol, a: State, b: State, c: State)
    requires Work(g, s, a, b) && Step(g, g.rank(s), b, c)
    ensures Work(g, s, a, c) && s in b.info && s in c.info && c.info[s] == b.info[s]
    ensures Left(g, c) <= Left(g, b)
  {
  }

  lemma WorkOwn(g: Goal, s: Symbol, a: State, b: State, x: Info)
    requires Work(g, s, a, b)
    ensures Work(g, s, a, State(b.valid, b.info[s := x]))
    ensures Left(g, State(b.valid, b.info[s := x])) == Left(g, b)
  {
  }

  lemma WorkFacts(g: Goal, s: Symbol, a: State, b: State)
    requires Work(g, s, a, b)
    ensures Fine(g, b) && s in b.info && s in b.valid && s in g.universe && Left(g, b) < Left(g, a)
    ensures !s.IsYMN()
    ensures Ready(g, g.rank(s), a) ==> Ready(g, g.rank(s), b)
  {
  }

  lemma WorkDone(g: Goal, s: Symbol, a: State, b: State)
    requires Work(g, s, a, b)
    requires Ready(g, g.rank(s), a) ==> b.info[s] == g.spec(s)
    ensures Step(g, g.rank(s) + 1, a, b)
  {
  }

  ghost predicate Within(g: Goal, xs: set<Symbol>, n: nat) {
    xs <= g.universe && (g.acyclic ==> forall a :: a in xs ==> g.rank(a) < n)
  }

  lemma WithinPart(g: Goal, xs: set<Symbol>, ys: set<Symbol>, n: nat)
    requires Within(g, xs, n) && ys <= xs
    ensures Within(g, ys, n)
  {
  }

  lemma WithinProps(k: Kconfig, g: Goal, s: Symbol)
    requires Closed(k, g) && s in g.universe
    ensures var p := k.props(s);
      && Within(g, PromptMentions(p.prompts), g.rank(s)) && Within(g, DepMentions(p.dirDep), g.rank(s))
      && Within(g, DepMentions(p.revDep), g.rank(s)) && Within(g, DefaultMentions(p.defaults), g.rank(s))
  {
  }

  class SymbolTable {
    const k: Kconfig
    ghost const g: Goal
    var valid: set<Symbol>
    var info: map<Symbol, Info>

    /** All flags cleared, except those of the constants; every other field is 0 as allocated. */
    constructor (k: Kconfig, ghost g: Goal, symbols: set<Symbol>)
      requires Closed(k, g) && symbols == g.universe
      ensures this.k == k && this.g == g && Fine(g, St())
    {
      this.k := k;
      this.g := g;
      valid := {SymYes, SymMod, SymNo};
      info := (map s | s in symbols :: Info(NO, "", NO, NO, NO, false))
              [SymYes := YesInfo][SymMod := ModInfo][SymNo := NoInfo];
    }

    ghost function St(): State
      reads this
    {
      State(valid, info)
    }

    ghost function GoalEnv(): Env { InfoEnv(k, g.spec) }

    /** expr_calc_value. */
    method EvalExpr(e: Expr, ghost n: nat) returns (v: Tri)
      requires Closed(k, g) && Fine(g, St()) && Within(g, Mentions(e), n)
      modifies this
      ensures Step(g, n, old(St()), St())
      ensures old(Ready(g, n, St())) ==> v == Eval(e, GoalEnv())
      decreases Left(g, St()), 1, e, 1
    {
      hide Step, Ready, Closed, Fine, Within, Left;
      match e
      case Sym(s) =>
        v := Ask(s, n);
      case Not(x) =>
        v := EvalExpr(x, n);
        v := Neg(v);
      case And(l, r) =>
        WithinPart(g, Mentions(e), Mentions(l), n);
        WithinPart(g, Mentions(e), Mentions(r), n);
        var v1, v2 := EvalBoth(l, r, e, n);
        v := Min(v1, v2);
      case Or(l, r) =>
        WithinPart(g, Mentions(e), Mentions(l), n);
        WithinPart(g, Mentions(e), Mentions(r), n);
        var v1, v2 := EvalBoth(l, r, e, n);
        v := Max(v1, v2);
      case Eq(a, b) =>
        var same := SameText(a, b, n);
        v := if same then YES else NO;
      case Neq(a, b) =>
        var same := SameText(a, b, n);
        v := if same then NO else YES;
    }

    method EvalBoth(l: Expr, r: Expr, ghost e: Expr, ghost n: nat) returns (v1: Tri, v2: Tri)
      requires l < e && r < e
      requires Closed(k, g) && Fine(g, St()) && Within(g, Mentions(l), n) && Within(g, Mentions(r), n)
      modifies this
      ensures Step(g, n, old(St()), St())
      ensures old(Ready(g, n, St())) ==> v1 == Eval(l, GoalEnv()) && v2 == Eval(r, GoalEnv())
      decreases Left(g, St()), 1, e, 0
    {
      hide Ready, Closed, Within, Fine, Left;
      ghost var a := St();
      v1 := EvalExpr(l, n);
      ghost var b := St();
      v2 := EvalExpr(r, n);
      StepTrans(g, n, a, b, St());
    }

    method SameText(x: Symbol, y: Symbol, ghost n: nat) returns (same: bool)
      requires Closed(k, g) && Fine(g, St()) && Within(g, {x, y}, n)
      modifies this
      ensures Step(g, n, old(St()), St())
      ensures old(Ready(g, n, St())) ==> same == (GoalEnv().str(x) == GoalEnv().str(y))
      decreases Left(g, St()), 0, 2
    {
      hide Ready, Closed, Within, Left;
      WithinPart(g, {x, y}, {x}, n);
      WithinPart(g, {x, y}, {y}, n);
      ghost var a := St();
      var _ := Ask(x, n);
      ghost var b := St();
      var _ := Ask(y, n);
      StepTrans(g, n, a, b, St());
      same := TextOf(x, info[x], k.modules) == TextOf(y, info[y], k.modules);
    }

    method Ask(s: Symbol, ghost n: nat) returns (v: Tri)
      requires Closed(k, g) && Fine(g, St()) && Within(g, {s}, n)
      modifies this
      ensures Step(g, n, old(St()), St())
      ensures s in valid && s in info
      ensures old(Ready(g, n, St())) ==> info[s] == g.spec(s) && v == GoalEnv().tri(s)
      decreases Left(g, St()), 0, 1
    {
      hide Closed, Left;
      assert s in {s};
      ghost var a := St();
      CalcValue(s);
      StepWeaken(g, g.rank(s) + 1, n, a, St());
      v := info[s].tri;
    }

    method EvalDep(d: Dep, ghost n: nat) returns (v: Tri)
      requires Closed(k, g) && Fine(g, St()) && Within(g, DepMentions(d), n)
      modifies this
      ensures Step(g, n, old(St()), St())
      ensures old(Ready(g, n, St())) ==> v == DepValue(d, GoalEnv())
      decreases Left(g, St()), 2
    {
      hide Step, Ready, Closed, Fine, Within, Left;
      if d.None? {
        v := YES;
        StepRefl(g, n, St());
      } else {
        v := EvalExpr(d.value, n);
      }
    }

    /** for_all_prompts: the best prompt. */
    method EvalPrompts(ds: seq<Dep>, ghost n: nat) returns (v: Tri)
      requires Closed(k, g) && Fine(g, St()) && Within(g, PromptMentions(ds), n)
      modifies this
      ensures Step(g, n, old(St()), St())
      ensures old(Ready(g, n, St())) ==> v == AnyPrompt(ds, GoalEnv())
      decreases Left(g, St()), 3
    {
      hide Step, Ready, Closed, Fine, Within, Left;
      ghost var a := St();
      StepRefl(g, n, a);
      v := NO;
      var i := 0;
      while i < |ds|
        invariant 0 <= i <= |ds| && Within(g, PromptMentions(ds[i..]), n)
        invariant Fine(g, St()) && Left(g, St()) <= Left(g, a) && Step(g, n, a, St())
        invariant old(Ready(g, n, St())) ==> Max(v, AnyPrompt(ds[i..], GoalEnv())) == AnyPrompt(ds, GoalEnv())
      {
        assert ds[i..][0] == ds[i] && ds[i..][1..] == ds[i + 1..];
        WithinPart(g, PromptMentions(ds[i..]), DepMentions(ds[i]), n);
        WithinPart(g, PromptMentions(ds[i..]), PromptMentions(ds[i + 1..]), n);
        ghost var b := St();
        var tri := EvalDep(ds[i], n);
        StepTrans(g, n, a, b, St());
        StepFacts(g, n, a, St());
        v := Max(v, tri);
        i := i + 1;
      }
    }

    /** sym_get_default_prop: the first default that applies, with the value of its condition. */
    method GetDefault(ds: seq<Default>, ghost n: nat) returns (d: Option<Default>, v: Tri)
      requires Closed(k, g) && Fine(g, St()) && Within(g, DefaultMentions(ds), n)
      modifies this
      ensures Step(g, n, old(St()), St())
      ensures d.Some? ==> Within(g, Mentions(d.value.value), n)
      ensures old(Ready(g, n, St())) ==>
        d == FirstDefault(ds, GoalEnv()) && (d.Some? ==> v == DepValue(d.value.cond, GoalEnv()))
      decreases Left(g, St()), 3
    {
      hide Step, Ready, Closed, Fine, Within, Left;
      ghost var a := St();
      StepRefl(g, n, a);
      var i := 0;
      while i < |ds|
        invariant 0 <= i <= |ds| && Within(g, DefaultMentions(ds[i..]), n)
        invariant Fine(g, St()) && Left(g, St()) <= Left(g, a) && Step(g, n, a, St())
        invariant old(Ready(g, n, St())) ==> FirstDefault(ds[i..], GoalEnv()) == FirstDefault(ds, GoalEnv())
      {
        assert ds[i..][0] == ds[i] && ds[i..][1..] == ds[i + 1..];
        WithinPart(g, DefaultMentions(ds[i..]), DepMentions(ds[i].cond), n);
        WithinPart(g, DefaultMentions(ds[i..]), Mentions(ds[i].value), n);
        WithinPart(g, DefaultMentions(ds[i..]), DefaultMentions(ds[i + 1..]), n);
        ghost var b := St();
        v := EvalDep(ds[i].cond, n);
        StepTrans(g, n, a, b, St());
        StepFacts(g, n, a, St());
        if v != NO {
          return Some(ds[i]), v;
        }
        i := i + 1;
      }
      return None, NO;
    }

    ghost predicate VisibilityDone(s: Symbol, i: Info) {
      var p := k.props(s);
      && i.visible == SymVisible(s.Type(), k.modules, p.prompts, GoalEnv())
      && i.dir == DirValue(p, GoalEnv())
      && i.rev == RevValue(s, p, k.modules, GoalEnv())
    }

    /** sym_calc_visibility(s); a is the state in which sym_calc_value(s) began. */
    method CalcVisibility(s: Symbol, ghost a: State)
      requires Closed(k, g) && Work(g, s, a, St())
      modifies this
      ensures Work(g, s, a, St()) && Left(g, St()) <= old(Left(g, St()))
      ensures s in info && s in old(info) && info[s].write == old(info[s].write)
      ensures Ready(g, g.rank(s), a) ==> VisibilityDone(s, info[s])
      decreases Left(g, St()), 5
    {
      hide Step, Ready, Closed, Fine, Within, Left, Work, SymVisible, DirValue, RevValue;
      WorkFacts(g, s, a, St());
      CalcVisible(s, a);
      CalcDirDep(s, a);
      CalcRevDep(s, a);
    }

    method CalcVisible(s: Symbol, ghost a: State)
      requires Closed(k, g) && Work(g, s, a, St())
      modifies this
      ensures Work(g, s, a, St()) && Left(g, St()) <= old(Left(g, St()))
      ensures s in info && s in old(info) && info[s] == old(info[s]).(visible := info[s].visible)
      ensures Ready(g, g.rank(s), a) ==>
        info[s].visible == SymVisible(s.Type(), k.modules, k.props(s).prompts, GoalEnv())
      decreases Left(g, St()), 4
    {
      hide Step, Ready, Closed, Fine, Within, Left, Work, AnyPrompt;
      WorkFacts(g, s, a, St());
      WithinProps(k, g, s);
      ghost var b := St();
      var tri := EvalPrompts(k.props(s).prompts, g.rank(s));
      WorkStep(g, s, a, b, St());
      if tri == MOD && (s.Type() != S_TRISTATE || k.modules == NO) {
        tri := YES;
      }
      WorkOwn(g, s, a, St(), info[s].(visible := tri));
      info := info[s := info[s].(visible := tri)];
    }

    method CalcDirDep(s: Symbol, ghost a: State)
      requires Closed(k, g) && Work(g, s, a, St())
      modifies this
      ensures Work(g, s, a, St()) && Left(g, St()) <= old(Left(g, St()))
      ensures s in info && s in old(info) && info[s] == old(info[s]).(dir := info[s].dir)
      ensures Ready(g, g.rank(s), a) ==> info[s].dir == DirValue(k.props(s), GoalEnv())
      decreases Left(g, St()), 4
    {
      hide Step, Ready, Closed, Fine, Within, Left, Work;
      WorkFacts(g, s, a, St());
      WithinProps(k, g, s);
      ghost var b := St();
      var tri := EvalDep(k.props(s).dirDep, g.rank(s));
      WorkStep(g, s, a, b, St());
      if tri == MOD {
        tri := YES;
      }
      WorkOwn(g, s, a, St(), info[s].(dir := tri));
      info := info[s := info[s].(dir := tri)];
    }

    method CalcRevDep(s: Symbol, ghost a: State)
      requires Closed(k, g) && Work(g, s, a, St())
      modifies this
      ensures Work(g, s, a, St()) && Left(g, St()) <= old(Left(g, St()))
      ensures s in info && s in old(info) && info[s] == old(info[s]).(rev := info[s].rev)
      ensures Ready(g, g.rank(s), a) ==> info[s].rev == RevValue(s, k.props(s), k.modules, GoalEnv())
      decreases Left(g, St()), 4
    {
      hide Step, Ready, Closed, Fine, Within, Left, Work;
      WorkFacts(g, s, a, St());
      WithinProps(k, g, s);
      var tri := NO;
      if k.props(s).revDep.Some? {
        ghost var b := St();
        tri := EvalDep(k.props(s).revDep, g.rank(s));
        WorkStep(g, s, a, b, St());
      }
      if tri == MOD && ActsBool(s, k.modules) {
        tri := YES;
      }
      WorkOwn(g, s, a, St(), info[s].(rev := tri));
      info := info[s := info[s].(rev := tri)];
    }

    /** The bool and tristate part of sym_calc_value. */
    method CalcLogic(s: Symbol, ghost a: State)
      requires Closed(k, g) && Work(g, s, a, St()) && IsLogic(s)
      requires s in info && !info[s].write
      requires Ready(g, g.rank(s), a) ==> VisibilityDone(s, info[s])
      modifies this
      ensures Work(g, s, a, St())
      ensures s in info && info[s].text == "n"
      ensures Ready(g, g.rank(s), a) ==> var p := k.props(s);
        && VisibilityDone(s, info[s])
        && info[s].tri == LogicValue(s, p, k.modules, GoalEnv())
        && (info[s].write && !p.auto) == Written(s, p, k.modules, GoalEnv())
      decreases Left(g, St()), 4
    {
      hide Step, Ready, Closed, Fine, Within, Left, Work, AnyPrompt, FirstDefault, Eval, DepValue;
      var p := k.props(s);
      ghost var n := g.rank(s);
      WorkOwn(g, s, a, St(), info[s].(tri := NO, text := "n"));
      info := info[s := info[s].(tri := NO, text := "n")];
      WorkFacts(g, s, a, St());
      WithinProps(k, g, s);
      ghost var mine := info[s];
      var newval, write := NO, info[s].visible != NO;
      if write && p.userTri.Some? {
        newval := Min(p.userTri.value, info[s].visible);
      } else {
        if info[s].rev != NO {
          write := true;
        }
        ghost var b := St();
        var d, cond := GetDefault(p.defaults, n);
        WorkStep(g, s, a, b, St());
        if d.Some? {
          write := true;
          WorkFacts(g, s, a, St());
          b := St();
          var v := EvalExpr(d.value.value, n);
          WorkStep(g, s, a, b, St());
          newval := Min(v, cond);
        }
      }
      newval := Max(newval, info[s].rev);
      if newval == MOD && ActsBool(s, k.modules) {
        newval := YES;
      }
      WorkOwn(g, s, a, St(), info[s].(tri := newval, write := write));
      info := info[s := info[s].(tri := newval, write := write)];
    }

    /** The string, int and hex part. */
    method CalcText(s: Symbol, ghost a: State)
      requires Closed(k, g) && Work(g, s, a, St()) && IsText(s)
      requires s in info && !info[s].write
      requires Ready(g, g.rank(s), a) ==> VisibilityDone(s, info[s])
      modifies this
      ensures Work(g, s, a, St())
      ensures s in info && info[s].tri == NO
      ensures Ready(g, g.rank(s), a) ==> var p := k.props(s);
        && VisibilityDone(s, info[s])
        && info[s].text == TextValue(s, p, k.modules, GoalEnv())
        && (info[s].write && !p.auto) == Written(s, p, k.modules, GoalEnv())
      decreases Left(g, St()), 4
    {
      hide Step, Ready, Closed, Fine, Within, Left, Work, AnyPrompt, FirstDefault, Eval, DepValue;
      var p := k.props(s);
      ghost var n := g.rank(s);
      WorkOwn(g, s, a, St(), info[s].(tri := NO, text := ""));
      info := info[s := info[s].(tri := NO, text := "")];
      WorkFacts(g, s, a, St());
      WithinProps(k, g, s);
      var text, write := "", info[s].visible != NO;
      if write && p.userText.Some? {
        text := p.userText.value;
      } else {
        ghost var b := St();
        var d, _ := GetDefault(p.defaults, n);
        WorkStep(g, s, a, b, St());
        if d.Some? && d.value.value.Sym? {
          var ds := d.value.value.s;
          assert Mentions(d.value.value) == {ds};
          write := true;
          WorkFacts(g, s, a, St());
          b := St();
          var _ := Ask(ds, n);
          WorkStep(g, s, a, b, St());
          text := info[ds].text;
          LogicTextIsN(ds);
        }
      }
      WorkOwn(g, s, a, St(), info[s].(text := text, write := write));
      info := info[s := info[s].(text := text, write := write)];
    }

    lemma LogicTextIsN(ds: Symbol)
      requires Closed(k, g)
      ensures g.acyclic ==> g.spec(ds).text == RawText(ds, GoalEnv())
    {
    }

    lemma SpecAt(s: Symbol, a: State)
      requires Closed(k, g)
      ensures Ready(g, g.rank(s), a) ==> g.spec(s) == ComputeIn(k, s, GoalEnv())
    {
    }

    /** sym_calc_value: afterwards s is valid, and correct if everything it depends on was correct or not valid. */
    method CalcValue(s: Symbol)
      requires Closed(k, g) && Fine(g, St()) && s in g.universe
      modifies this
      ensures Step(g, g.rank(s) + 1, old(St()), St()) && s in valid
      decreases Left(g, St()), 0, 0
    {
      hide Step, Ready, Closed, Fine, Left, Work, Within, Written, LogicValue, TextValue;
      ghost var a := St();
      if s in valid {
        StepRefl(g, g.rank(s) + 1, a);
        return;
      }
      WorkStart(g, s, a);
      valid := valid + {s};
      WorkFacts(g, s, a, St());
      if !IsLogic(s) && !IsText(s) {
        ghost var x := Info(NO, if s.Literal? then s.text else k.props(s).name, NO, NO, NO, false);
        WorkOwn(g, s, a, St(), x);
        info := info[s := Info(NO, if s.Literal? then s.text else k.props(s).name, NO, NO, NO, false)];
      } else {
        WorkOwn(g, s, a, St(), info[s].(write := false));
        info := info[s := info[s].(write := false)];
        CalcVisibility(s, a);
        if IsLogic(s) {
          CalcLogic(s, a);
        } else {
          CalcText(s, a);
        }
        if k.props(s).auto {
          WorkOwn(g, s, a, St(), info[s].(write := false));
          info := info[s := info[s].(write := false)];
        }
      }
      SpecAt(s, a);
      WorkDone(g, s, a, St());
      WorkFacts(g, s, a, St());
    }

    /** sym_clear_all_valid. */
    method ClearAllValid()
      requires Fine(g, St())
      modifies this
      ensures Fine(g, St()) && valid == {SymYes, SymMod, SymNo} && info == old(info)
    {
      valid := {SymYes, SymMod, SymNo};
    }

    /**
     * From cleared flags, whatever symbols are asked for in whatever order: on an acyclic graph each of them
     * ends with its specified fields; on any graph, cyclic included, the computation ends.
     */
    method CalcAll(order: seq<Symbol>)
      requires Closed(k, g) && Fine(g, St())
      requires forall s :: s in order ==> s in g.universe
      modifies this
      ensures Fine(g, St()) && forall s :: s in order ==> s in valid
      ensures g.acyclic ==> forall s :: s in order ==> info[s] == g.spec(s)
    {
      hide Step, Closed, Left;
      ClearAllValid();
      ghost var top := RankBound(g.rank, g.universe);
      ConstantsReady(top, St());
      var i := 0;
      while i < |order|
        invariant 0 <= i <= |order| && Fine(g, St())
        invariant forall s :: s in order[..i] ==> s in valid
        invariant g.acyclic ==> Ready(g, top, St())
      {
        ghost var a := St();
        CalcValue(order[i]);
        StepWeaken(g, g.rank(order[i]) + 1, top, a, St());
        StepFacts(g, top, a, St());
        StepKeeps(g, top, a, St());
        i := i + 1;
      }
      assert order[..i] == order;
    }

    lemma ConstantsReady(n: nat, a: State)
      requires Closed(k, g) && Fine(g, a) && a.valid == {SymYes, SymMod, SymNo}
      ensures g.acyclic ==> Ready(g, n, a)
    {
      hide Closed, Acyclic, Solution;
      SpecAtConstants();
    }

    lemma SpecAtConstants()
      requires Closed(k, g)
      ensures g.acyclic ==> g.spec(SymYes) == YesInfo && g.spec(SymMod) == ModInfo && g.spec(SymNo) == NoInfo
    {
    }
  }

  lemma StepKeeps(g: Goal, n: nat, a: State, b: State)
    requires Step(g, n, a, b)
    ensures a.valid <= b.valid
  {
  }

  /** On an acyclic graph the memoised computation gives every symbol asked for its recursively defined fields. */
  method CalcSymbols(k: Kconfig, symbols: set<Symbol>, ghost rank: Symbol -> nat, order: seq<Symbol>)
    returns (info: map<Symbol, Info>)
    requires Acyclic(k, rank)
    requires {SymYes, SymMod, SymNo} <= symbols
    requires forall s :: s in symbols ==> PropMentions(k.props(s)) <= symbols
    requires forall s :: s in order ==> s in symbols
    ensures forall s :: s in order ==> s in info && info[s] == Spec(k, rank, s)
  {
    hide ComputeIn;
    SpecSolves(k, rank);
    var t := new SymbolTable(k, Goal(symbols, true, rank, s => Spec(k, rank, s)), symbols);
    t.CalcAll(order);
    info := t.info;
  }

  ghost function RankBound(rank: Symbol -> nat, xs: set<Symbol>): (n: nat)
    ensures forall s :: s in xs ==> rank(s) < n
  {
    if xs == {} then 0
    else
      var s :| s in xs;
      assert xs == (xs - {s}) + {s};
      var m := RankBound(rank, xs - {s});
      if m > rank(s) then m else rank(s) + 1
  }
}
