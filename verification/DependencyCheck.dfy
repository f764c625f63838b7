/**
 * symbol.c: sym_check_deps, a depth-first search with two flags per symbol, on graphs without choices.
 * CHECK marks the symbols on the current search path, CHECKED the ones ever reached.
 */
module DependencyCheck {
  import opened Wrappers
  import opened Expressions
  import opened Visibility

  /** A property of a symbol: its condition and, for a default, its value. */
  datatype Property = Property(isDefault: bool, cond: Dep, value: Expr)

  datatype Graph = Graph(revDep: Symbol -> Dep, props: Symbol -> seq<Property>)

  function DepSymbols(d: Dep): set<Symbol> { if d.None? then {} else Mentions(d.value) }

  function PropertySymbols(p: Property): set<Symbol> {
    DepSymbols(p.cond) + (if p.isDefault then Mentions(p.value) else {})
  }

  function AllPropertySymbols(ps: seq<Property>): set<Symbol> {
    if ps == [] then {} else PropertySymbols(ps[0]) + AllPropertySymbols(ps[1..])
  }

  /** The symbols s depends on. */
  function Succ(g: Graph, s: Symbol): set<Symbol> { DepSymbols(g.revDep(s)) + AllPropertySymbols(g.props(s)) }

  /** Each symbol depends on the next one. */
  ghost predicate IsPath(g: Graph, p: seq<Symbol>) {
    |p| > 1 ==> p[1] in Succ(g, p[0]) && IsPath(g, p[1..])
  }

  ghost predicate IsCycle(g: Graph, c: seq<Symbol>) {
    c != [] && IsPath(g, c) && c[0] in Succ(g, c[|c| - 1])
  }

  ghost predicate HasCycle(g: Graph) { exists c :: IsCycle(g, c) }

  ghost function Elements(p: seq<Symbol>): set<Symbol> { set x | x in p }

  /** Every symbol of the list depends on earlier ones only. */
  ghost predicate Ordered(g: Graph, order: seq<Symbol>) {
    forall i :: 0 <= i < |order| ==> Succ(g, order[i]) <= Elements(order[..i])
  }

  lemma {:induction false} PathExtend(g: Graph, p: seq<Symbol>, s: Symbol)
    requires IsPath(g, p) && (p != [] ==> s in Succ(g, p[|p| - 1]))
    ensures IsPath(g, p + [s])
  {
    if |p| > 1 {
      PathExtend(g, p[1..], s);
      assert (p + [s])[1..] == p[1..] + [s];
    } else if |p| == 1 {
      assert (p + [s])[1..] == [s];
    }
  }

  lemma {:induction false} PathSuffix(g: Graph, p: seq<Symbol>, i: nat)
    requires IsPath(g, p) && i <= |p|
    ensures IsPath(g, p[i..])
  {
    if i == 0 {
      assert p[0..] == p;
    } else if |p| > 1 {
      PathSuffix(g, p[1..], i - 1);
      assert p[1..][i - 1..] == p[i..];
    }
  }

  /** A dependency on a symbol of the search path closes a cycle. */
  lemma PathClosesCycle(g: Graph, p: seq<Symbol>, s: Symbol)
    requires IsPath(g, p) && s in p && s in Succ(g, p[|p| - 1])
    ensures HasCycle(g)
  {
    var i :| 0 <= i < |p| && p[i] == s;
    PathSuffix(g, p, i);
    assert IsCycle(g, p[i..]);
  }

  lemma {:induction false} PathStaysBelow(g: Graph, order: seq<Symbol>, p: seq<Symbol>, n: nat)
    requires Ordered(g, order) && n <= |order|
    requires p != [] && IsPath(g, p) && p[0] in order[..n]
    ensures n > 0 && Succ(g, p[|p| - 1]) <= Elements(order[..n - 1])
  {
    var i :| 0 <= i < n && order[..n][i] == p[0];
    assert Succ(g, order[i]) <= Elements(order[..i]);
    ElementsPrefix(order, i, n - 1);
    PathTail(g, p);
    hide Ordered, Succ, Elements, IsPath;
    if |p| > 1 {
      InElements(order, i, p[1]);
      PathStaysBelow(g, order, p[1..], i);
      ElementsPrefix(order, i - 1, n - 1);
      assert p[1..][|p| - 2] == p[|p| - 1];
    }
  }

  lemma PathTail(g: Graph, p: seq<Symbol>)
    requires IsPath(g, p) && p != []
    ensures |p| > 1 ==> p[1] in Succ(g, p[0]) && IsPath(g, p[1..])
  {
  }

  lemma ElementsPrefix(order: seq<Symbol>, i: nat, n: nat)
    requires i <= n <= |order|
    ensures Elements(order[..i]) <= Elements(order[..n])
  {
    assert order[..i] == order[..n][..i];
  }

  lemma InElements(order: seq<Symbol>, i: nat, s: Symbol)
    requires i <= |order|
    ensures s in Elements(order[..i]) <==> s in order[..i]
  {
  }

  /** No cycle passes through ordered symbols. */
  lemma {:induction false} OrderedHasNoCycle(g: Graph, order: seq<Symbol>, c: seq<Symbol>, n: nat)
    requires Ordered(g, order) && n <= |order| && IsCycle(g, c)
    ensures c[0] !in order[..n]
  {
    if c[0] in order[..n] {
      PathStaysBelow(g, order, c, n);
      OrderedHasNoCycle(g, order, c, n - 1);
    }
  }

  // ---- the search ----

  /** The flags, the recursive dependencies reported so far, and, for the proof, the symbols done in order. */
  datatype Search = Search(check: set<Symbol>, checked: set<Symbol>, reports: seq<Symbol>, order: seq<Symbol>)

  ghost predicate Sound(g: Graph, universe: set<Symbol>, path: seq<Symbol>, a: Search) {
    && a.check == Elements(path) <= a.checked <= universe
    && IsPath(g, path)
    && (forall s :: s in universe ==> Succ(g, s) <= universe)
    && (a.reports != [] ==> HasCycle(g))
    && (a.reports == [] ==> Ordered(g, a.order) && Elements(a.order) == a.checked - a.check)
  }

  /** What a search started under some path may have done when it comes back. */
  ghost predicate Searched(universe: set<Symbol>, a: Search, b: Search) {
    && b.check == a.check && a.checked <= b.checked
    && a.reports <= b.reports && a.order <= b.order
    && |universe - b.checked| <= |universe - a.checked|
  }

  lemma SearchedTrans(universe: set<Symbol>, a: Search, b: Search, c: Search)
    requires Searched(universe, a, b) && Searched(universe, b, c)
    ensures Searched(universe, a, c)
    ensures c.reports == [] ==> b.reports == []
    ensures Elements(b.order) <= Elements(c.order)
  {
    assert forall x :: x in b.order ==> x in c.order;
  }

  lemma SearchedLess(universe: set<Symbol>, a: Search, b: Search)
    requires Searched(universe, a, b)
    ensures |universe - b.checked| <= |universe - a.checked| && b.check == a.check
    ensures b.reports == [] ==> a.reports == []
    ensures Elements(a.order) <= Elements(b.order)
  {
    assert forall x :: x in a.order ==> x in b.order;
  }

  lemma Enter(g: Graph, universe: set<Symbol>, path: seq<Symbol>, s: Symbol, a: Search)
    requires Sound(g, universe, path, a) && s in universe && s !in a.checked
    requires path != [] ==> s in Succ(g, path[|path| - 1])
    ensures var b := a.(check := a.check + {s}, checked := a.checked + {s});
      Sound(g, universe, path + [s], b) && |universe - b.checked| < |universe - a.checked| && s !in path
  {
    hide Succ, IsPath, Ordered;
    PathExtend(g, path, s);
    assert universe - a.checked == (universe - (a.checked + {s})) + {s};
    assert Elements(path + [s]) == Elements(path) + {s};
  }

  /** s is done: its CHECK flag goes, and if nothing was reported, all it depends on was done before it. */
  lemma Leave(g: Graph, universe: set<Symbol>, path: seq<Symbol>, s: Symbol, a: Search, b: Search)
    requires Sound(g, universe, path + [s], b) && s !in path && path <= path + [s]
    requires Sound(g, universe, path, a) && s !in a.checked
    requires Searched(universe, a.(check := a.check + {s}, checked := a.checked + {s}), b)
    requires b.reports == [] ==> Succ(g, s) <= Elements(b.order)
    ensures var c := b.(check := b.check - {s}, order := b.order + [s]);
      && Sound(g, universe, path, c) && Searched(universe, a, c)
      && (c.reports == [] ==> s in Elements(c.order))
  {
    hide Succ, IsPath, Ordered, Searched;
    var c := b.(check := b.check - {s}, order := b.order + [s]);
    SearchedParts(universe, a.(check := a.check + {s}, checked := a.checked + {s}), b);
    assert Elements(path + [s]) == Elements(path) + {s};
    assert Elements(c.order) == Elements(b.order) + {s};
    if c.reports == [] {
      OrderedExtend(g, b.order, s);
    }
    Fewer(universe - c.checked, universe - a.checked);
    SearchedJoin(universe, a, c);
  }

  lemma SearchedParts(universe: set<Symbol>, a: Search, b: Search)
    requires Searched(universe, a, b)
    ensures b.check == a.check && a.checked <= b.checked && a.reports <= b.reports && a.order <= b.order
  {
  }

  lemma SearchedJoin(universe: set<Symbol>, a: Search, b: Search)
    requires b.check == a.check && a.checked <= b.checked && a.reports <= b.reports && a.order <= b.order
    requires |universe - b.checked| <= |universe - a.checked|
    ensures Searched(universe, a, b)
  {
  }

  lemma OrderedExtend(g: Graph, order: seq<Symbol>, s: Symbol)
    requires Ordered(g, order) && Succ(g, s) <= Elements(order)
    ensures Ordered(g, order + [s])
  {
    hide Succ;
    forall i | 0 <= i < |order + [s]|
      ensures Succ(g, (order + [s])[i]) <= Elements((order + [s])[..i])
    {
      assert (order + [s])[..i] == order[..i];
      assert order[..|order|] == order;
    }
  }

  lemma {:induction false} Fewer(x: set<Symbol>, y: set<Symbol>)
    requires x <= y
    ensures |x| <= |y|
  {
    if x != {} {
      var e :| e in x;
      Fewer(x - {e}, y - {e});
    }
  }

  lemma Report(g: Graph, universe: set<Symbol>, path: seq<Symbol>, s: Symbol, a: Search)
    requires Sound(g, universe, path, a) && s in a.check
    requires path != [] ==> s in Succ(g, path[|path| - 1])
    ensures Sound(g, universe, path, a.(reports := a.reports + [s]))
    ensures Searched(universe, a, a.(reports := a.reports + [s]))
  {
    PathClosesCycle(g, path, s);
  }

  lemma NotOnPath(g: Graph, universe: set<Symbol>, path: seq<Symbol>, s: Symbol, a: Search)
    requires Sound(g, universe, path, a) && s !in a.checked
    ensures s !in a.check
  {
  }

  /** What has been checked and is not on the path any more is in order, unless something was reported. */
  lemma Done(g: Graph, universe: set<Symbol>, path: seq<Symbol>, s: Symbol, a: Search)
    requires Sound(g, universe, path, a) && s in a.checked && s !in a.check
    ensures a.reports == [] ==> s in Elements(a.order)
  {
    hide Succ, IsPath, Ordered;
  }

  /**
   * A symbol of the path that is met again is returned at once: of the symbols reported from a on, only the one
   * returned, if any, is on the path, and it is the last.
   */
  ghost predicate Prompt(path: set<Symbol>, a: seq<Symbol>, b: seq<Symbol>, r: Option<Symbol>) {
    && a <= b && (r.Some? ==> |b| > |a| && b[|b| - 1] == r.value)
    && forall k :: |a| <= k < |b| && b[k] in path ==> r == Some(b[k]) && k == |b| - 1
  }

  lemma PromptTrans(path: set<Symbol>, a: seq<Symbol>, b: seq<Symbol>, c: seq<Symbol>, r: Option<Symbol>)
    requires Prompt(path, a, b, None) && Prompt(path, b, c, r)
    ensures Prompt(path, a, c, r)
  {
  }

  /** The symbol that closes the cycle at s itself is not passed on. */
  lemma PromptLeave(path: set<Symbol>, s: Symbol, a: seq<Symbol>, b: seq<Symbol>, r: Option<Symbol>)
    requires s !in path && Prompt(path + {s}, a, b, r) && (r.Some? ==> r.value in path + {s})
    ensures Prompt(path, a, b, if r == Some(s) then None else r)
  {
  }

  lemma PromptNone(path: set<Symbol>, a: seq<Symbol>)
    ensures Prompt(path, a, a, None)
  {
  }

  class Checker {
    const g: Graph
    ghost const universe: set<Symbol>
    var check: set<Symbol>
    var checked: set<Symbol>
    var reports: seq<Symbol>
    ghost var order: seq<Symbol>

    constructor (g: Graph, ghost universe: set<Symbol>)
      requires forall s :: s in universe ==> Succ(g, s) <= universe
      ensures this.g == g && this.universe == universe && St() == Search({}, {}, [], [])
      ensures Sound(g, universe, [], St())
    {
      this.g, this.universe := g, universe;
      check, checked, reports, order := {}, {}, [], [];
    }

    ghost function St(): Search
      reads this
    {
      Search(check, checked, reports, order)
    }

    /** The symbols xs come next after the last one of the path. */
    ghost predicate Next(path: seq<Symbol>, xs: set<Symbol>) {
      path != [] && xs <= Succ(g, path[|path| - 1]) && path[|path| - 1] in universe
    }

    /** sym_check_expr_deps. */
    method CheckExprDeps(e: Expr, ghost path: seq<Symbol>) returns (r: Option<Symbol>)
      requires Sound(g, universe, path, St()) && Next(path, Mentions(e))
      modifies this
      ensures Sound(g, universe, path, St()) && Searched(universe, old(St()), St())
      ensures r.Some? ==> r.value in check && reports != []
      ensures Prompt(check, old(reports), reports, r)
      ensures reports == [] ==> Mentions(e) <= Elements(order)
      decreases |universe - checked|, 1, e
    {
      hide Sound, Searched, Elements, Prompt;
      ghost var a := St();
      match e
      case And(l, r') =>
        r := CheckExprDeps(l, path);
        if r.None? {
          ghost var b := St();
          SearchedLess(universe, a, b);
          r := CheckExprDeps(r', path);
          SearchedTrans(universe, a, b, St());
          PromptTrans(check, a.reports, b.reports, reports, r);
        }
      case Or(l, r') =>
        r := CheckExprDeps(l, path);
        if r.None? {
          ghost var b := St();
          SearchedLess(universe, a, b);
          r := CheckExprDeps(r', path);
          SearchedTrans(universe, a, b, St());
          PromptTrans(check, a.reports, b.reports, reports, r);
        }
      case Not(x) =>
        r := CheckExprDeps(x, path);
      case Eq(x, y) =>
        r := CheckBoth(x, y, path);
      case Neq(x, y) =>
        r := CheckBoth(x, y, path);
      case Sym(s) =>
        NextKnown(path, {s}, a);
        r := CheckDeps(s, path);
    }

    method CheckBoth(x: Symbol, y: Symbol, ghost path: seq<Symbol>) returns (r: Option<Symbol>)
      requires Sound(g, universe, path, St()) && Next(path, {x, y})
      modifies this
      ensures Sound(g, universe, path, St()) && Searched(universe, old(St()), St())
      ensures r.Some? ==> r.value in check && reports != []
      ensures Prompt(check, old(reports), reports, r)
      ensures reports == [] ==> {x, y} <= Elements(order)
      decreases |universe - checked|, 0, 2
    {
      hide Sound, Searched, Elements, Prompt;
      ghost var a := St();
      NextKnown(path, {x, y}, a);
      r := CheckDeps(x, path);
      if r.None? {
        ghost var b := St();
        SearchedLess(universe, a, b);
        r := CheckDeps(y, path);
        SearchedTrans(universe, a, b, St());
        PromptTrans(check, a.reports, b.reports, reports, r);
      }
    }

    lemma NextKnown(path: seq<Symbol>, xs: set<Symbol>, a: Search)
      requires Sound(g, universe, path, a) && Next(path, xs)
      ensures xs <= universe
    {
    }

    method CheckDep(d: Dep, ghost path: seq<Symbol>) returns (r: Option<Symbol>)
      requires Sound(g, universe, path, St()) && Next(path, DepSymbols(d))
      modifies this
      ensures Sound(g, universe, path, St()) && Searched(universe, old(St()), St())
      ensures r.Some? ==> r.value in check && reports != []
      ensures Prompt(check, old(reports), reports, r)
      ensures reports == [] ==> DepSymbols(d) <= Elements(order)
      decreases |universe - checked|, 2
    {
      hide Sound, Prompt;
      r := None;
      PromptNone(check, reports);
      if d.Some? {
        r := CheckExprDeps(d.value, path);
      }
    }

    /** One property in the loop of sym_check_sym_deps. */
    method CheckProperty(p: Property, ghost path: seq<Symbol>) returns (r: Option<Symbol>)
      requires Sound(g, universe, path, St()) && Next(path, PropertySymbols(p))
      modifies this
      ensures Sound(g, universe, path, St()) && Searched(universe, old(St()), St())
      ensures r.Some? ==> r.value in check && reports != []
      ensures Prompt(check, old(reports), reports, r)
      ensures reports == [] ==> PropertySymbols(p) <= Elements(order)
      decreases |universe - checked|, 3
    {
      hide Sound, Searched, Elements, Prompt;
      ghost var a := St();
      r := CheckDep(p.cond, path);
      if r.None? && p.isDefault {
        ghost var b := St();
        SearchedLess(universe, a, b);
        r := CheckExprDeps(p.value, path);
        SearchedTrans(universe, a, b, St());
        PromptTrans(check, a.reports, b.reports, reports, r);
      }
    }

    /** sym_check_sym_deps; path ends with s. Properties of kind choice and select are not among g.props. */
    method CheckSymDeps(s: Symbol, ghost path: seq<Symbol>) returns (r: Option<Symbol>)
      requires Sound(g, universe, path, St()) && path != [] && path[|path| - 1] == s && s in universe
      modifies this
      ensures Sound(g, universe, path, St()) && Searched(universe, old(St()), St())
      ensures r.Some? ==> r.value in check && reports != []
      ensures Prompt(check, old(reports), reports, r)
      ensures reports == [] ==> Succ(g, s) <= Elements(order)
      decreases |universe - checked|, 4
    {
      hide Sound, Searched, Elements, PropertySymbols, DepSymbols;
      ghost var a := St();
      r := CheckDep(g.revDep(s), path);
      SearchedLess(universe, a, St());
      var i, ps := 0, g.props(s);
      while r.None? && i < |ps|
        invariant 0 <= i <= |ps| && AllPropertySymbols(ps[i..]) <= Succ(g, s)
        invariant Sound(g, universe, path, St()) && Searched(universe, a, St())
        invariant |universe - checked| <= |universe - a.checked|
        invariant r.Some? ==> r.value in check && reports != []
        invariant Prompt(check, a.reports, reports, r) && check == a.check
        invariant reports == [] ==> Succ(g, s) <= Elements(order) + AllPropertySymbols(ps[i..])
      {
        assert ps[i..][0] == ps[i] && ps[i..][1..] == ps[i + 1..];
        ghost var b := St();
        r := CheckProperty(ps[i], path);
        SearchedLess(universe, b, St());
        SearchedTrans(universe, a, b, St());
        PromptTrans(check, a.reports, b.reports, reports, r);
        i := i + 1;
      }
    }

    /** sym_check_deps; path is the current search path. */
    method CheckDeps(s: Symbol, ghost path: seq<Symbol>) returns (r: Option<Symbol>)
      requires Sound(g, universe, path, St()) && s in universe
      requires path != [] ==> s in Succ(g, path[|path| - 1])
      modifies this
      ensures Sound(g, universe, path, St()) && Searched(universe, old(St()), St())
      ensures r.Some? ==> r.value in check && reports != []
      ensures Prompt(check, old(reports), reports, r)
      ensures reports == [] ==> s in Elements(order)
      decreases |universe - checked|, 0, 1
    {
      hide Sound, Searched, Succ, Elements;
      if s in check {
        Report(g, universe, path, s, St());
        reports := reports + [s];
        return Some(s);
      }
      if s in checked {
        SearchedRefl(universe, St());
        PromptNone(check, reports);
        Done(g, universe, path, s, St());
        return None;
      }
      r := Visit(s, path);
    }

    /** The rest of sym_check_deps, for a symbol that has not been checked yet. */
    method Visit(s: Symbol, ghost path: seq<Symbol>) returns (r: Option<Symbol>)
      requires Sound(g, universe, path, St()) && s in universe && s !in checked
      requires path != [] ==> s in Succ(g, path[|path| - 1])
      modifies this
      ensures Sound(g, universe, path, St()) && Searched(universe, old(St()), St())
      ensures r.Some? ==> r.value in check && reports != []
      ensures Prompt(check, old(reports), reports, r)
      ensures reports == [] ==> s in Elements(order)
      decreases |universe - checked|, 0, 0
    {
      hide Sound, Searched, Succ, Elements, Prompt;
      ghost var a := St();
      NotOnPath(g, universe, path, s, a);
      Enter(g, universe, path, s, a);
      check, checked := check + {s}, checked + {s};
      ghost var b := St();
      r := CheckSymDeps(s, path + [s]);
      SearchedLess(universe, b, St());
      Leave(g, universe, path, s, a, St());
      PromptLeave(a.check, s, a.reports, reports, r);
      check := check - {s};
      order := order + [s];
      if r == Some(s) {
        r := None;
      }
    }

    /**
     * for_all_symbols, sym_check_deps, as in conf_parse. A recursive dependency is reported if and only if the
     * graph has a cycle; yet no call returns a symbol, so the caller's error count stays 0.
     */
    method Sweep(symbols: seq<Symbol>) returns (errors: int)
      requires St() == Search({}, {}, [], []) && Sound(g, universe, [], St())
      requires forall s :: s in symbols ==> s in universe
      requires forall s :: s !in symbols ==> Succ(g, s) == {}
      modifies this
      ensures reports != [] <==> HasCycle(g)
      ensures errors == 0
      ensures check == {}
    {
      hide Searched, Succ, IsPath, Prompt;
      errors := 0;
      var i := 0;
      while i < |symbols|
        invariant 0 <= i <= |symbols| && errors == 0
        invariant Sound(g, universe, [], St())
        invariant reports == [] ==> forall s :: s in symbols[..i] ==> s in order
      {
        ghost var a := St();
        var r := CheckDeps(symbols[i], []);
        SearchedLess(universe, a, St());
        assert symbols[..i + 1] == symbols[..i] + [symbols[i]];
        assert forall s :: s in a.order ==> s in Elements(order);
        if r.Some? {
          errors := errors + 1;
        }
        i := i + 1;
      }
      assert symbols[..i] == symbols;
      if reports == [] {
        forall c | IsCycle(g, c)
          ensures false
        {
          assert order[..|order|] == order;
          OrderedHasNoCycle(g, order, c, |order|);
          CycleHasDependencies(g, c);
        }
      }
    }
  }

  lemma SearchedRefl(universe: set<Symbol>, a: Search)
    ensures Searched(universe, a, a)
  {
  }

  lemma CycleHasDependencies(g: Graph, c: seq<Symbol>)
    requires IsCycle(g, c)
    ensures Succ(g, c[0]) != {}
  {
  }
}
