/** Saving the calculated values, reading them back as the user's and calculating again: conf_write, conf_read. */
module SaveReload {
  import opened Wrappers
  import opened Expressions
  import opened Visibility
  import opened SymbolValues
  import opened ConfigFile

  /** The value conf_write prints of a symbol. */
  function SavedValue(s: Symbol, i: Info): Value { if IsLogic(s) then Logic(i.tri) else Text(i.text) }

  /** The symbols conf_write prints: those with the WRITE flag. */
  ghost function Entries(k: Kconfig, value: Symbol -> Info, syms: seq<Symbol>): seq<Item> {
    if syms == [] then []
    else
      var s := syms[|syms| - 1];
      Entries(k, value, syms[..|syms| - 1]) +
        if value(s).write then [Setting(k.props(s).name, SavedValue(s, value(s)))] else []
  }

  /** The user value after conf_read. */
  function WithUser(p: Props, d: Def): Props {
    p.(userTri := if d.known then Some(d.tri) else None, userText := if d.known then d.val else None)
  }

  /** What a symbol is stored as, if it is written. */
  function StoredAs(s: Symbol, i: Info, modules: Tri): Def {
    if i.write then Stored(SavedValue(s, i), modules) else CLEARED
  }

  ghost function Reloaded(k: Kconfig, syms: seq<Symbol>, c: Conf): Kconfig {
    Kconfig(s => if s in syms then WithUser(k.props(s), DefOf(c, k.props(s).name)) else k.props(s), k.modules)
  }

  /**
   * syms are all the symbols of the menus, under different names; those set from the environment have no user value,
   * and the texts to be written can stand in a line.
   */
  ghost predicate Session(k: Kconfig, value: Symbol -> Info, syms: seq<Symbol>, table: Table) {
    && (forall s <- syms :: s.Config? && (IsLogic(s) || IsText(s)))
    && (forall s <- syms :: NameOk(k.props(s).name) && k.props(s).name in table && table[k.props(s).name] == s.kind)
    && (forall i, j :: 0 <= i < j < |syms| ==> k.props(syms[i]).name != k.props(syms[j]).name)
    && (forall s <- syms :: k.props(s).auto ==> k.props(s).userTri.None? && k.props(s).userText.None?)
    && (forall s <- syms :: IsText(s) && value(s).write ==> ValueOk(s.kind, Text(value(s).text)))
  }

  // ---- one symbol ----

  /** The symbol is y although its prompt is visible at m only, and nothing selects it to y. */
  predicate Lowered(s: Symbol, i: Info) {
    IsLogic(s) && i.write && i.visible == MOD && i.tri == YES && i.rev != YES
  }

  /** Its saved value as user value gives a symbol the same fields, exactly if it is not lowered. */
  lemma Recalculated(s: Symbol, p: Props, modules: Tri, env: Env)
    requires s.Config? && (IsLogic(s) || IsText(s)) && (p.auto ==> p.userTri.None? && p.userText.None?)
    ensures var i := Compute(s, p, modules, env);
      Compute(s, WithUser(p, StoredAs(s, i, modules)), modules, env) == i <==> !Lowered(s, i)
  {
    hide FirstDefault;
    var i := Compute(s, p, modules, env);
    var p' := WithUser(p, StoredAs(s, i, modules));
    assert RevValue(s, p', modules, env) == RevValue(s, p, modules, env) && DirValue(p', env) == DirValue(p, env);
  }

  /** A tristate with a prompt visible at m and the default y, never set by the user: it is y, and comes back as m. */
  lemma ComesBackAsM(s: Symbol, name: string, env: Env)
    requires WellTyped(env) && s.IsTri()
    ensures var p := Props(name, [Some(Sym(SymMod))], None, None, [Default(None, EYes)], None, None, false);
      var i := Compute(s, p, YES, env);
      i.tri == YES && Lowered(s, i) && Compute(s, WithUser(p, StoredAs(s, i, YES)), YES, env).tri == MOD
  {
    var prompts, defaults := [Some(Sym(SymMod))], [Default(None, EYes)];
    assert SymOk(env, SymYes) && SymOk(env, SymMod);
    assert AnyPrompt(prompts, env) == MOD && FirstDefault(defaults, env) == Some(defaults[0]) by {
      assert prompts[1..] == [];
    }
    hide AnyPrompt, FirstDefault;
  }

  /** A boolean is never m. */
  lemma NeverM(s: Symbol, p: Props, modules: Tri, env: Env)
    requires s.Config? && ActsBool(s, modules)
    ensures Compute(s, p, modules, env).tri != MOD
  {
  }

  // ---- the file between ----

  /** Every entry comes from a symbol with the WRITE flag. */
  lemma {:induction false} EntryOf(k: Kconfig, value: Symbol -> Info, syms: seq<Symbol>, i: nat) returns (j: nat)
    requires i < |Entries(k, value, syms)|
    ensures j < |syms| && value(syms[j]).write
    ensures Entries(k, value, syms)[i] == Setting(k.props(syms[j]).name, SavedValue(syms[j], value(syms[j])))
  {
    var n := |syms| - 1;
    if i < |Entries(k, value, syms[..n])| {
      j := EntryOf(k, value, syms[..n], i);
    } else {
      j := n;
    }
  }

  lemma SessionFront(k: Kconfig, value: Symbol -> Info, syms: seq<Symbol>, table: Table)
    requires Session(k, value, syms, table) && Calculated(k, value, syms) && syms != []
    ensures var n := |syms| - 1;
      && Session(k, value, syms[..n], table) && Calculated(k, value, syms[..n])
      && NameOk(k.props(syms[n]).name) && (forall s <- syms[..n] :: k.props(s).name != k.props(syms[n]).name)
  {
    hide NameOk, ValueOk;
  }

  ghost predicate CalculatedAt(k: Kconfig, s: Symbol, i: Info) { exists env :: i == ComputeIn(k, s, env) }

  ghost predicate Calculated(k: Kconfig, value: Symbol -> Info, syms: seq<Symbol>) {
    forall s <- syms :: CalculatedAt(k, s, value(s))
  }

  lemma EntryOk(k: Kconfig, value: Symbol -> Info, syms: seq<Symbol>, table: Table, s: Symbol)
    requires Session(k, value, syms, table) && Calculated(k, value, syms) && s in syms && value(s).write
    ensures ItemOk(table, Setting(k.props(s).name, SavedValue(s, value(s))))
  {
    assert CalculatedAt(k, s, value(s));
    var env :| value(s) == ComputeIn(k, s, env);
    if s.IsBool() {
      NeverM(s, k.props(s), k.modules, env);
    }
    hide NameOk, StringValid, Compute;
  }

  lemma {:induction false} EntriesWritable(k: Kconfig, value: Symbol -> Info, syms: seq<Symbol>, table: Table)
    requires Session(k, value, syms, table) && Calculated(k, value, syms)
    ensures Writable(table, Entries(k, value, syms))
    ensures forall s <- syms :: Expected(Entries(k, value, syms), k.props(s).name, k.modules) == StoredAs(s, value(s), k.modules)
  {
    if syms != [] {
      hide Session, Calculated, Stored, Writable, ItemOk;
      var n := |syms| - 1;
      var s, front := syms[n], syms[..n];
      SessionFront(k, value, syms, table);
      EntriesWritable(k, value, front, table);
      var es, name := Entries(k, value, front), k.props(s).name;
      forall i | 0 <= i < |es|
        ensures es[i].Setting? && es[i].name != name
      {
        var j := EntryOf(k, value, front, i);
      }
      UnsetStays(es, name, k.modules);
      if value(s).write {
        EntryOk(k, value, syms, table, s);
        LastEntry(es, Setting(name, SavedValue(s, value(s))), table, k.modules);
      } else {
        assert Entries(k, value, syms) == es;
      }
      assert forall t <- syms :: t == s || t in front;
    }
  }

  lemma LastEntry(es: seq<Item>, e: Item, table: Table, modules: Tri)
    requires Writable(table, es) && ItemOk(table, e) && e.Setting?
    requires forall i :: 0 <= i < |es| ==> es[i].Setting? && es[i].name != e.name
    ensures Writable(table, es + [e]) && Expected(es + [e], e.name, modules) == Stored(e.value, modules)
    ensures forall name :: name != e.name ==> Expected(es + [e], name, modules) == Expected(es, name, modules)
  {
    hide ItemOk, Stored;
    assert (es + [e])[..|es|] == es;
  }

  // ---- all symbols ----

  /** What conf_write prints, and conf_read makes of it. */
  ghost function Restored(k: Kconfig, value: Symbol -> Info, syms: seq<Symbol>, table: Table): Kconfig {
    Reloaded(k, syms, ReadText(table, Joined(AllLines(table, Entries(k, value, syms), k.modules))))
  }

  /** The same configuration language, with the saved values as the user's. */
  ghost predicate Refilled(k: Kconfig, value: Symbol -> Info, syms: seq<Symbol>, k': Kconfig) {
    && k'.modules == k.modules
    && forall s :: k'.props(s) == if s in syms then WithUser(k.props(s), StoredAs(s, value(s), k.modules)) else k.props(s)
  }

  lemma RestoredProps(k: Kconfig, value: Symbol -> Info, syms: seq<Symbol>, table: Table)
    requires Session(k, value, syms, table) && Calculated(k, value, syms)
    ensures Refilled(k, value, syms, Restored(k, value, syms, table))
  {
    var items := Entries(k, value, syms);
    EntriesWritable(k, value, syms, table);
    RoundTrip(table, items, k.modules);
    assert forall s <- syms :: k.props(s).name in table;
    hide Session, Calculated, StoredAs, WithUser, ReadText, Expected;
  }

  lemma SpecCalculated(k: Kconfig, rank: Symbol -> nat, syms: seq<Symbol>)
    requires Acyclic(k, rank)
    ensures Calculated(k, s => Spec(k, rank, s), syms)
  {
    hide Acyclic;
    forall s <- syms
      ensures CalculatedAt(k, s, Spec(k, rank, s))
    {
      assert Spec(k, rank, s) == ComputeIn(k, s, EnvBelow(k, rank, rank(s)));
    }
  }

  lemma RefilledAcyclic(k: Kconfig, rank: Symbol -> nat, value: Symbol -> Info, syms: seq<Symbol>, k': Kconfig)
    requires Acyclic(k, rank) && Refilled(k, value, syms, k')
    ensures Acyclic(k', rank)
  {
    forall s
      ensures PropMentions(k'.props(s)) == PropMentions(k.props(s))
    {
    }
  }

  /** Each equation of the definition still holds, exactly if its symbol is not lowered. */
  lemma RefilledAt(k: Kconfig, value: Symbol -> Info, syms: seq<Symbol>, table: Table, k': Kconfig, s: Symbol)
    requires Session(k, value, syms, table) && Solution(k, value) && Refilled(k, value, syms, k')
    ensures ComputeIn(k', s, InfoEnv(k', value)) == value(s) <==> !(s in syms && Lowered(s, value(s)))
  {
    var env := InfoEnv(k, value);
    assert value(s) == ComputeIn(k, s, env);
    EnvOf(k, k', value);
    if s in syms {
      hide Compute, WithUser, StoredAs, Lowered, InfoEnv;
      Recalculated(s, k.props(s), k.modules, env);
    }
  }

  lemma EnvOf(k: Kconfig, k': Kconfig, value: Symbol -> Info)
    requires k'.modules == k.modules
    ensures InfoEnv(k', value) == InfoEnv(k, value)
  {
  }

  /** A solution for the reloaded configuration is the same definition by recursion. */
  lemma SameSpec(k': Kconfig, rank: Symbol -> nat, value: Symbol -> Info)
    requires Acyclic(k', rank)
    ensures (forall s :: Spec(k', rank, s) == value(s)) <==> Solution(k', value)
  {
    hide Acyclic;
    if Solution(k', value) {
      forall s
        ensures Spec(k', rank, s) == value(s)
      {
        SolutionIsSpec(k', rank, value, s);
      }
    }
    if forall s :: Spec(k', rank, s) == value(s) {
      SpecSolves(k', rank);
      forall s
        ensures value(s) == ComputeIn(k', s, InfoEnv(k', value))
      {
        ComputeLocal(k', s, InfoEnv(k', t => Spec(k', rank, t)), InfoEnv(k', value));
      }
    }
  }

  /**
   * Calculated on an acyclic graph, saved, read back and calculated again, all symbols have the fields they had if and
   * only if none of them is y with a prompt visible at m only and nothing that selects it to y.
   */
  lemma SaveThenReload(k: Kconfig, rank: Symbol -> nat, syms: seq<Symbol>, table: Table)
    requires Acyclic(k, rank) && Session(k, s => Spec(k, rank, s), syms, table)
    ensures var k' := Restored(k, s => Spec(k, rank, s), syms, table);
      && Acyclic(k', rank)
      && ((forall s :: Spec(k', rank, s) == Spec(k, rank, s)) <==> forall s <- syms :: !Lowered(s, Spec(k, rank, s)))
  {
    hide Acyclic, Session, Refilled, Calculated, Spec, Lowered, Restored;
    var value := (s: Symbol) => Spec(k, rank, s);
    var k' := Restored(k, value, syms, table);
    SpecCalculated(k, rank, syms);
    RestoredProps(k, value, syms, table);
    SpecSolves(k, rank);
    RefilledAcyclic(k, rank, value, syms, k');
    SameSpec(k', rank, value);
    forall s
      ensures ComputeIn(k', s, InfoEnv(k', value)) == value(s) <==> !(s in syms && Lowered(s, value(s)))
    {
      RefilledAt(k, value, syms, table, k', s);
    }
    hide ComputeIn, InfoEnv;
  }
}
