/**
 * menu.c and confdata.c: the menu tree of first-child, next-sibling and parent pointers, its restructuring
 * by menu_finalize, and the cursor walk of conf_write and conf_write_defconfig.
 */
module MenuTree {

  class Menu {
    var next: Menu?
    var parent: Menu?
    var list: Menu?
    const hasSym: bool
    const hasPrompt: bool

    constructor (hasSym: bool, hasPrompt: bool)
      ensures next == null && parent == null && list == null
    {
      next, parent, list := null, null, null;
      this.hasSym, this.hasPrompt := hasSym, hasPrompt;
    }
  }

  /** A sibling list: its first entry, that entry's children, and the siblings after it. */
  datatype Forest = Nil | Cons(m: Menu, kids: Forest, rest: Forest)

  ghost function Preorder(f: Forest): seq<Menu> {
    match f
    case Nil => []
    case Cons(m, kids, rest) => [m] + Preorder(kids) + Preorder(rest)
  }

  ghost function Nodes(f: Forest): set<Menu> {
    match f
    case Nil => {}
    case Cons(m, kids, rest) => {m} + Nodes(kids) + Nodes(rest)
  }

  /** No entry occurs twice. */
  ghost predicate Distinct(f: Forest) {
    match f
    case Nil => true
    case Cons(m, kids, rest) =>
      && m !in Nodes(kids) && m !in Nodes(rest) && Nodes(kids) !! Nodes(rest)
      && Distinct(kids) && Distinct(rest)
  }

  /** The pointers spell out f: from p up to (not including) q, every parent pointer naming the real parent. */
  ghost predicate Seg(f: Forest, p: Menu?, q: Menu?, par: Menu?)
    reads Nodes(f)
  {
    match f
    case Nil => p == q
    case Cons(m, kids, rest) =>
      && p == m && m.parent == par
      && Seg(kids, m.list, null, m)
      && Seg(rest, m.next, q, par)
  }

  ghost function Append(f: Forest, g: Forest): Forest {
    match f
    case Nil => g
    case Cons(m, kids, rest) => Cons(m, kids, Append(rest, g))
  }

  lemma {:induction false} AppendNodes(f: Forest, g: Forest)
    ensures Nodes(Append(f, g)) == Nodes(f) + Nodes(g)
    ensures Preorder(Append(f, g)) == Preorder(f) + Preorder(g)
    ensures Distinct(Append(f, g)) <==> Distinct(f) && Distinct(g) && Nodes(f) !! Nodes(g)
  {
    AppendPreorder(f, g);
    hide Preorder;
    match f
    case Nil =>
    case Cons(m, kids, rest) =>
      AppendNodes(rest, g);
      AppendDistinct(m, kids, rest, g);
  }

  lemma {:induction false} AppendPreorder(f: Forest, g: Forest)
    ensures Preorder(Append(f, g)) == Preorder(f) + Preorder(g)
  {
    match f
    case Nil => assert Preorder(f) + Preorder(g) == Preorder(g);
    case Cons(m, kids, rest) =>
      AppendPreorder(rest, g);
      var h := Append(rest, g);
      assert Append(f, g) == Cons(m, kids, h);
      assert Preorder(Cons(m, kids, h)) == [m] + Preorder(kids) + (Preorder(rest) + Preorder(g));
  }

  lemma AppendDistinct(m: Menu, kids: Forest, rest: Forest, g: Forest)
    requires Nodes(Append(rest, g)) == Nodes(rest) + Nodes(g)
    requires Distinct(Append(rest, g)) <==> Distinct(rest) && Distinct(g) && Nodes(rest) !! Nodes(g)
    ensures var f := Cons(m, kids, rest);
      Distinct(Append(f, g)) <==> Distinct(f) && Distinct(g) && Nodes(f) !! Nodes(g)
  {
    hide Preorder;
  }

  lemma {:induction false} AppendSeg(f: Forest, g: Forest, p: Menu?, x: Menu?, q: Menu?, par: Menu?)
    requires Seg(f, p, x, par) && Seg(g, x, q, par)
    ensures Seg(Append(f, g), p, q, par)
  {
    match f
    case Nil =>
    case Cons(m, kids, rest) => AppendSeg(rest, g, m.next, x, q, par);
  }

  lemma {:induction false} AppendAssoc(f: Forest, g: Forest, h: Forest)
    ensures Append(Append(f, g), h) == Append(f, Append(g, h))
  {
    match f
    case Nil =>
    case Cons(_, _, rest) => AppendAssoc(rest, g, h);
  }

  /** One entry whose siblings are still to come joins the part that is done. */
  lemma Advance(done: Forest, todo: Forest, p: Menu?, par: Menu?)
    requires todo.Cons?
    requires Seg(done, p, todo.m, par) && Seg(todo, todo.m, null, par)
    requires Distinct(done) && Distinct(todo) && Nodes(done) !! Nodes(todo)
    ensures var done', todo' := Append(done, Cons(todo.m, todo.kids, Nil)), todo.rest;
      && Seg(done', p, todo.m.next, par) && Seg(todo', todo.m.next, null, par)
      && Distinct(done') && Distinct(todo') && Nodes(done') !! Nodes(todo')
      && Nodes(done') + Nodes(todo') == Nodes(done) + Nodes(todo)
      && Preorder(done') + Preorder(todo') == Preorder(done) + Preorder(todo)
  {
    var one := Cons(todo.m, todo.kids, Nil);
    assert Preorder(one) == [todo.m] + Preorder(todo.kids);
    assert Nodes(one) == {todo.m} + Nodes(todo.kids) && Distinct(one);
    AppendNodes(done, one);
    assert Seg(one, todo.m, todo.m.next, par);
    AppendSeg(done, one, p, todo.m, todo.m.next, par);
    Regroup(Preorder(done), [todo.m], Preorder(todo.kids), Preorder(todo.rest));
  }

  lemma Regroup(a: seq<Menu>, b: seq<Menu>, c: seq<Menu>, d: seq<Menu>)
    ensures (a + (b + c)) + d == a + (b + c + d)
  {
  }

  /** The cursor walk of conf_write and conf_write_defconfig, which keeps no stack: the rest is read off the tree. */
  datatype Pending = Top(root: Menu) | Up(m: Menu, rest: Forest, up: Pending)

  ghost function PendingNodes(z: Pending): set<Menu> {
    match z
    case Top(root) => {root}
    case Up(m, rest, up) => {m} + Nodes(rest) + PendingNodes(up)
  }

  ghost function PendingOrder(z: Pending): seq<Menu> {
    match z
    case Top(_) => []
    case Up(_, rest, up) => Preorder(rest) + PendingOrder(up)
  }

  /** par is the entry climbed to first; each entry's following siblings are known. */
  ghost predicate PendingAt(z: Pending, par: Menu?)
    reads PendingNodes(z)
  {
    match z
    case Top(root) => par == root && root.next == null && root.parent == null
    case Up(m, rest, up) => par == m && Seg(rest, m.next, null, m.parent) && PendingAt(up, m.parent)
  }

  ghost function Depth(z: Pending): nat {
    match z
    case Top(_) => 0
    case Up(_, _, up) => 1 + Depth(up)
  }

  /** What the cursor has still to visit. */
  ghost function Remaining(cur: Forest, z: Pending): seq<Menu> { Preorder(cur) + PendingOrder(z) }

  /** The cursor stands on the first entry of cur, or the walk is over. */
  ghost predicate Cursor(menu: Menu?, cur: Forest, z: Pending)
    reads Nodes(cur), PendingNodes(z)
  {
    if menu == null then cur == Nil && PendingOrder(z) == []
    else cur.Cons? && Seg(cur, menu, null, cur.m.parent) && PendingAt(z, cur.m.parent)
  }

  /** From an entry without children and following siblings up to the next sibling of an ancestor. */
  method Climb(menu: Menu, ghost start: Pending) returns (next: Menu?, ghost cur: Forest, ghost z: Pending)
    requires PendingAt(start, menu.parent)
    ensures Cursor(next, cur, z)
    ensures Remaining(cur, z) == PendingOrder(start)
  {
    z := start;
    var up := menu.parent;
    while up != null && up.next == null
      invariant up != null ==> PendingAt(z, up)
      invariant up == null ==> PendingOrder(z) == []
      invariant PendingOrder(z) == PendingOrder(start)
      decreases Depth(z), up != null
    {
      up := up.parent;
      if z.Up? {
        assert PendingOrder(z) == PendingOrder(z.up);
        z := z.up;
      }
    }
    if up == null {
      return null, Nil, z;
    }
    return up.next, z.rest, z.up;
  }

  /** The step from one entry to the next: its first child, its next sibling, or a sibling of an ancestor. */
  method Next(menu: Menu, ghost cur: Forest, ghost z: Pending) returns (next: Menu?, ghost cur': Forest, ghost z': Pending)
    requires Cursor(menu, cur, z)
    ensures Cursor(next, cur', z')
    ensures [menu] + Remaining(cur', z') == Remaining(cur, z)
  {
    ghost var kids, rest := cur.kids, cur.rest;
    assert Seg(kids, menu.list, null, menu) && Seg(rest, menu.next, null, menu.parent);
    assert (kids == Nil <==> menu.list == null) && (rest == Nil <==> menu.next == null);
    assert Remaining(cur, z) == [menu] + (Preorder(kids) + (Preorder(rest) + PendingOrder(z)));
    if menu.list != null {
      return menu.list, kids, Up(menu, rest, z);
    }
    if menu.next != null {
      assert Preorder(kids) + (Preorder(rest) + PendingOrder(z)) == Remaining(rest, z);
      return menu.next, rest, z;
    }
    assert Preorder(kids) + (Preorder(rest) + PendingOrder(z)) == PendingOrder(z);
    next, cur', z' := Climb(menu, z);
  }

  /** The walk visits exactly the preorder of the tree, each entry once. */
  method Walk(root: Menu, ghost f: Forest) returns (visited: seq<Menu>)
    requires Seg(f, root.list, null, root)
    requires root.next == null && root.parent == null
    ensures visited == Preorder(f)
  {
    visited := [];
    var menu := root.list;
    ghost var cur, z := f, Top(root);
    while menu != null
      invariant Cursor(menu, cur, z)
      invariant visited + Remaining(cur, z) == Preorder(f)
      decreases |Remaining(cur, z)|
    {
      ghost var before, m := visited, menu;
      visited := visited + [menu];
      menu, cur, z := Next(menu, cur, z);
      assert visited + Remaining(cur, z) == before + ([m] + Remaining(cur, z));
    }
    assert Remaining(cur, z) == [];
  }

  // ---- menu_finalize ----

  /** b is what remains of the sibling list a after some leading entries, untouched. */
  ghost predicate IsSuffix(b: Forest, a: Forest) { a == b || (a.Cons? && IsSuffix(b, a.rest)) }

  /** No entry without a prompt keeps children. */
  ghost predicate Lifted(f: Forest) {
    match f
    case Nil => true
    case Cons(m, kids, rest) => (kids != Nil ==> m.hasPrompt) && Lifted(kids) && Lifted(rest)
  }

  /** Everything below the entries of f is lifted, the entries themselves need not be. */
  ghost predicate LiftedBelow(f: Forest) { f.Cons? ==> Lifted(f.kids) && LiftedBelow(f.rest) }

  lemma {:induction false} SuffixTrans(c: Forest, b: Forest, a: Forest)
    requires IsSuffix(c, b) && IsSuffix(b, a)
    ensures IsSuffix(c, a)
  {
    if a != b {
      SuffixTrans(c, b, a.rest);
    }
  }

  lemma {:induction false} AppendLifted(f: Forest, g: Forest)
    ensures Lifted(Append(f, g)) <==> Lifted(f) && Lifted(g)
    ensures LiftedBelow(Append(f, g)) <==> LiftedBelow(f) && LiftedBelow(g)
  {
    match f
    case Nil =>
    case Cons(_, _, rest) => AppendLifted(rest, g);
  }

  lemma {:induction false} LiftedIsLiftedBelow(f: Forest)
    requires Lifted(f)
    ensures LiftedBelow(f)
  {
    if f.Cons? {
      LiftedIsLiftedBelow(f.rest);
    }
  }

  // ---- what menu_finalize makes of a tree ----

  /** Whether the following sibling is nested below an entry (menu.c:322-341). */
  type NestTest = (Menu, Menu) -> bool

  ghost function Count(f: Forest): nat {
    match f
    case Nil => 0
    case Cons(_, kids, rest) => 1 + Count(kids) + Count(rest)
  }

  /** The tree after nesting: the children of the first entry, and its following siblings. */
  ghost function Nest(t: NestTest, f: Forest): (r: (Forest, Forest))
    requires f.Cons?
    ensures Count(r.1) <= Count(f.rest)
    decreases Count(f), 0
  {
    if f.kids != Nil then (NestAll(t, f.kids), f.rest)
    else if f.m.hasSym then Absorb(t, f.m, f.rest)
    else (Nil, f.rest)
  }

  ghost function NestAll(t: NestTest, f: Forest): Forest
    decreases Count(f), 1
  {
    if f == Nil then Nil
    else
      var (kids, rest) := Nest(t, f);
      Cons(f.m, kids, NestAll(t, rest))
  }

  /** The siblings from f on that m takes over, and the others. */
  ghost function Absorb(t: NestTest, m: Menu, f: Forest): (r: (Forest, Forest))
    ensures Count(r.1) <= Count(f)
    decreases Count(f), 2
  {
    if f == Nil || !t(m, f.m) then (Nil, f)
    else
      var (kids, rest) := Nest(t, f);
      var (more, left) := Absorb(t, m, rest);
      (Cons(f.m, kids, more), left)
  }

  /** The tree after entries without a prompt have given up their children, at every depth. */
  ghost function Flat(f: Forest): Forest {
    match f
    case Nil => Nil
    case Cons(m, kids, rest) =>
      var k, r := Flat(kids), Flat(rest);
      if k != Nil && !m.hasPrompt then Cons(m, Nil, Append(k, r)) else Cons(m, k, r)
  }

  /** The same below the entries of f. */
  ghost function FlatBelow(f: Forest): Forest {
    match f
    case Nil => Nil
    case Cons(m, kids, rest) => Cons(m, Flat(kids), FlatBelow(rest))
  }

  lemma {:induction false} AppendCount(f: Forest, g: Forest)
    ensures Count(Append(f, g)) == Count(f) + Count(g)
  {
    match f
    case Nil =>
    case Cons(_, _, rest) => AppendCount(rest, g);
  }

  /** Only the entries of f give up their children. */
  ghost function LiftTop(f: Forest): Forest
    decreases Count(f)
  {
    match f
    case Nil => Nil
    case Cons(m, kids, rest) =>
      if kids != Nil && !m.hasPrompt then
        AppendCount(kids, rest);
        Cons(m, Nil, LiftTop(Append(kids, rest)))
      else Cons(m, kids, LiftTop(rest))
  }

  lemma {:induction false} FlatLifted(f: Forest)
    ensures Lifted(Flat(f))
  {
    match f
    case Nil =>
    case Cons(_, kids, rest) =>
      FlatLifted(kids);
      FlatLifted(rest);
      AppendLifted(Flat(kids), Flat(rest));
  }

  lemma {:induction false} LiftTopAppend(f: Forest, g: Forest)
    requires Lifted(f)
    ensures LiftTop(Append(f, g)) == Append(f, LiftTop(g))
  {
    match f
    case Nil =>
    case Cons(_, _, rest) => LiftTopAppend(rest, g);
  }

  lemma {:induction false} LiftTopFlat(f: Forest)
    ensures LiftTop(FlatBelow(f)) == Flat(f)
  {
    match f
    case Nil =>
    case Cons(_, kids, rest) =>
      LiftTopFlat(rest);
      FlatLifted(kids);
      LiftTopAppend(Flat(kids), FlatBelow(rest));
  }

  lemma {:induction false} FlatBelowAppend(f: Forest, g: Forest)
    ensures FlatBelow(Append(f, g)) == Append(FlatBelow(f), FlatBelow(g))
  {
    match f
    case Nil =>
    case Cons(_, _, rest) => FlatBelowAppend(rest, g);
  }

  // ---- parents and children ----

  /** The parent of x in f, whose own entries have the parent par. */
  ghost function ParentOf(f: Forest, par: Menu, x: Menu): Menu {
    match f
    case Nil => par
    case Cons(m, kids, rest) =>
      if x == m then par else if x in Nodes(kids) then ParentOf(kids, m, x) else ParentOf(rest, par, x)
  }

  /** The nearest entry with a prompt above x, or else top. */
  ghost function Near(f: Forest, top: Menu, x: Menu): Menu {
    match f
    case Nil => top
    case Cons(m, kids, rest) =>
      if x == m then top
      else if x in Nodes(kids) then Near(kids, if m.hasPrompt then m else top, x)
      else Near(rest, top, x)
  }

  ghost function KidsOf(f: Forest, x: Menu): Forest {
    match f
    case Nil => Nil
    case Cons(m, kids, rest) => if x == m then kids else if x in Nodes(kids) then KidsOf(kids, x) else KidsOf(rest, x)
  }

  lemma {:induction false} SegParent(f: Forest, p: Menu?, q: Menu?, par: Menu, x: Menu)
    requires Seg(f, p, q, par) && x in Nodes(f)
    ensures x.parent == ParentOf(f, par, x)
  {
    if x != f.m {
      if x in Nodes(f.kids) {
        SegParent(f.kids, f.m.list, null, f.m, x);
      } else {
        SegParent(f.rest, f.m.next, q, par, x);
      }
    }
  }

  lemma {:induction false} AppendParent(f: Forest, g: Forest, par: Menu, x: Menu)
    ensures ParentOf(Append(f, g), par, x) == if x in Nodes(f) then ParentOf(f, par, x) else ParentOf(g, par, x)
    ensures KidsOf(Append(f, g), x) == if x in Nodes(f) then KidsOf(f, x) else KidsOf(g, x)
  {
    match f
    case Nil =>
    case Cons(_, _, rest) =>
      AppendNodes(rest, g);
      AppendParent(rest, g, par, x);
  }

  lemma {:induction false} FlatNodes(f: Forest)
    ensures Nodes(Flat(f)) == Nodes(f) && Preorder(Flat(f)) == Preorder(f) && (Flat(f) == Nil <==> f == Nil)
  {
    match f
    case Nil =>
    case Cons(m, kids, rest) =>
      FlatNodes(kids);
      FlatNodes(rest);
      AppendNodes(Flat(kids), Flat(rest));
      assert [m] + [] + (Preorder(kids) + Preorder(rest)) == [m] + Preorder(kids) + Preorder(rest);
  }

  /** In the finalized tree every entry hangs below the nearest entry with a prompt that it was nested in. */
  lemma {:induction false} FlatParent(f: Forest, par: Menu, x: Menu)
    requires x in Nodes(f)
    ensures ParentOf(Flat(f), par, x) == Near(f, par, x)
  {
    if x != f.m {
      FlatNodes(f.kids);
      FlatNodes(f.rest);
      AppendParent(Flat(f.kids), Flat(f.rest), par, x);
      if x in Nodes(f.kids) {
        FlatParent(f.kids, if f.m.hasPrompt then f.m else par, x);
      } else {
        FlatParent(f.rest, par, x);
      }
    }
  }

  lemma {:induction false} LiftTopNodes(f: Forest)
    ensures Nodes(LiftTop(f)) == Nodes(f)
    decreases Count(f)
  {
    match f
    case Nil =>
    case Cons(m, kids, rest) =>
      AppendCount(kids, rest);
      AppendNodes(kids, rest);
      LiftTopNodes(Append(kids, rest));
      LiftTopNodes(rest);
  }

  /** Entries with a prompt keep their children, entries without one have none, and theirs get their parent. */
  lemma {:induction false} LiftTopKeeps(f: Forest, par: Menu, x: Menu)
    requires LiftedBelow(f) && x in Nodes(f)
    ensures KidsOf(LiftTop(f), x) == if x.hasPrompt then KidsOf(f, x) else Nil
    ensures ParentOf(LiftTop(f), par, x) ==
      var p := ParentOf(f, par, x); if p != par && !p.hasPrompt then par else p
    decreases Count(f)
  {
    var m, kids, rest := f.m, f.kids, f.rest;
    LiftTopNodes(rest);
    if kids != Nil && !m.hasPrompt {
      AppendCount(kids, rest);
      AppendNodes(kids, rest);
      LiftedIsLiftedBelow(kids);
      AppendLifted(kids, rest);
      if x != m {
        LiftTopAppend(kids, rest);
        AppendParent(kids, LiftTop(rest), par, x);
        if x in Nodes(kids) {
          LiftedParent(kids, par, m, x);
        } else {
          LiftTopKeeps(rest, par, x);
        }
      }
    } else if x != m {
      if x in Nodes(kids) {
        LiftedParent(kids, m, m, x);
      } else {
        LiftTopKeeps(rest, par, x);
      }
    }
  }

  /** In a lifted forest only entries with a prompt have children; the parent of its own entries does not matter. */
  lemma {:induction false} LiftedParent(f: Forest, par: Menu, par': Menu, x: Menu)
    requires Lifted(f) && x in Nodes(f)
    ensures !x.hasPrompt ==> KidsOf(f, x) == Nil
    ensures var p, p' := ParentOf(f, par, x), ParentOf(f, par', x);
      (p == par && p' == par') || (p == p' && p.hasPrompt)
  {
    if x != f.m {
      if x in Nodes(f.kids) {
        LiftedParent(f.kids, f.m, f.m, x);
      } else {
        LiftedParent(f.rest, par, par', x);
      }
    }
  }

  /** The siblings taken over are the longest run that passes the test, counted after each has taken over its own. */
  lemma {:induction false} AbsorbLongest(t: NestTest, m: Menu, f: Forest)
    ensures var (taken, left) := Absorb(t, m, f);
      AllPass(t, m, taken) && (left.Cons? ==> !t(m, left.m))
    decreases Count(f)
  {
    if f.Cons? && t(m, f.m) {
      AbsorbLongest(t, m, Nest(t, f).1);
    }
  }

  /** An entry with children of its own, or without a symbol, takes over none; the order of all entries stays. */
  lemma {:induction false} NestKeeps(t: NestTest, f: Forest)
    requires f.Cons?
    ensures f.kids != Nil || !f.m.hasSym ==> Nest(t, f).1 == f.rest
    ensures Preorder(Nest(t, f).0) + Preorder(Nest(t, f).1) == Preorder(f.kids) + Preorder(f.rest)
    decreases Count(f), 0
  {
    if f.kids != Nil {
      NestAllKeeps(t, f.kids);
    } else if f.m.hasSym {
      AbsorbKeeps(t, f.m, f.rest);
    }
  }

  lemma {:induction false} NestAllKeeps(t: NestTest, f: Forest)
    ensures Preorder(NestAll(t, f)) == Preorder(f)
    decreases Count(f), 1
  {
    if f != Nil {
      hide Nest;
      NestKeeps(t, f);
      NestAllKeeps(t, Nest(t, f).1);
      Associate([f.m], Preorder(f.kids), Preorder(f.rest));
      Associate([f.m], Preorder(Nest(t, f).0), Preorder(Nest(t, f).1));
    }
  }

  lemma Associate(a: seq<Menu>, b: seq<Menu>, c: seq<Menu>)
    ensures a + b + c == a + (b + c)
  {
  }

  lemma Regrouped(a: seq<Menu>, b: seq<Menu>, c: seq<Menu>, d: seq<Menu>, e: seq<Menu>, f: seq<Menu>)
    requires b + (c + d) == e + f
    ensures (a + b + c) + d == a + e + f
  {
    assert (a + b + c) + d == a + (b + (c + d));
    assert a + e + f == a + (e + f);
  }

  lemma {:induction false} AbsorbKeeps(t: NestTest, m: Menu, f: Forest)
    ensures Preorder(Absorb(t, m, f).0) + Preorder(Absorb(t, m, f).1) == Preorder(f)
    decreases Count(f), 2
  {
    if f == Nil || !t(m, f.m) {
      assert [] + Preorder(f) == Preorder(f);
    } else {
      var (kids, rest) := Nest(t, f);
      var (more, left) := Absorb(t, m, rest);
      NestKeeps(t, f);
      AbsorbKeeps(t, m, rest);
      Regrouped([f.m], Preorder(kids), Preorder(more), Preorder(left), Preorder(f.kids), Preorder(f.rest));
    }
  }

  /** o are the entries of f with children of their own. */
  ghost predicate Owns(o: set<Menu>, f: Forest) {
    match f
    case Nil => true
    case Cons(m, kids, rest) => (m in o <==> kids != Nil) && Owns(o, kids) && Owns(o, rest)
  }

  /**
   * A forest with nothing left to nest, and nothing nested without reason, at any depth: an entry that had no children
   * of its own and has a symbol has children that pass its test, and its next sibling does not; without a symbol it has
   * none.
   */
  ghost predicate Settled(t: NestTest, o: set<Menu>, f: Forest) {
    match f
    case Nil => true
    case Cons(m, kids, rest) =>
      && (m !in o ==> if m.hasSym then AllPass(t, m, kids) && (rest.Cons? ==> !t(m, rest.m)) else kids == Nil)
      && Settled(t, o, kids) && Settled(t, o, rest)
  }

  lemma {:induction false} NestSettles(t: NestTest, o: set<Menu>, f: Forest)
    requires f.Cons? && Owns(o, f)
    ensures var (kids, rest) := Nest(t, f);
      && Settled(t, o, kids) && Owns(o, rest)
      && (f.m !in o ==> if f.m.hasSym then AllPass(t, f.m, kids) && (rest.Cons? ==> !t(f.m, rest.m)) else kids == Nil)
    decreases Count(f), 0
  {
    if f.kids != Nil {
      NestAllSettles(t, o, f.kids);
    } else if f.m.hasSym {
      AbsorbSettles(t, o, f.m, f.rest);
      AbsorbLongest(t, f.m, f.rest);
    }
  }

  lemma {:induction false} NestAllSettles(t: NestTest, o: set<Menu>, f: Forest)
    requires Owns(o, f)
    ensures Settled(t, o, NestAll(t, f)) && (NestAll(t, f).Cons? <==> f.Cons?) && (f.Cons? ==> NestAll(t, f).m == f.m)
    decreases Count(f), 1
  {
    if f != Nil {
      NestSettles(t, o, f);
      NestAllSettles(t, o, Nest(t, f).1);
    }
  }

  lemma {:induction false} AbsorbSettles(t: NestTest, o: set<Menu>, m: Menu, f: Forest)
    requires Owns(o, f)
    ensures var (taken, left) := Absorb(t, m, f);
      Settled(t, o, taken) && Owns(o, left) && (taken.Cons? ==> f.Cons? && taken.m == f.m)
    decreases Count(f), 2
  {
    if f.Cons? && t(m, f.m) {
      NestSettles(t, o, f);
      AbsorbSettles(t, o, m, Nest(t, f).1);
    }
  }

  ghost function Owners(f: Forest): set<Menu> {
    match f
    case Nil => {}
    case Cons(m, kids, rest) => (if kids == Nil then {} else {m}) + Owners(kids) + Owners(rest)
  }

  lemma {:induction false} OwnersIn(f: Forest)
    ensures Owners(f) <= Nodes(f)
  {
    match f
    case Nil =>
    case Cons(_, kids, rest) =>
      OwnersIn(kids);
      OwnersIn(rest);
  }

  lemma {:induction false} OwnersOwn(f: Forest, others: set<Menu>)
    requires Distinct(f) && others !! Nodes(f)
    ensures Owns(Owners(f) + others, f)
  {
    match f
    case Nil =>
    case Cons(m, kids, rest) =>
      var o := Owners(f) + others;
      OwnersIn(kids);
      OwnersIn(rest);
      OwnersOwn(kids, o - Owners(kids));
      OwnersOwn(rest, o - Owners(rest));
      assert Owners(kids) + (o - Owners(kids)) == o && Owners(rest) + (o - Owners(rest)) == o;
  }

  /** From any tree, nesting ends where nothing is left to nest. */
  lemma NestingSettles(t: NestTest, f: Forest)
    requires Distinct(f)
    ensures Settled(t, Owners(f), NestAll(t, f)) && Preorder(NestAll(t, f)) == Preorder(f)
  {
    OwnersOwn(f, {});
    assert Owners(f) + {} == Owners(f);
    NestAllSettles(t, Owners(f), f);
    NestAllKeeps(t, f);
  }

  predicate AllPass(t: NestTest, m: Menu, f: Forest) { f.Cons? ==> t(m, f.m) && AllPass(t, m, f.rest) }

  /** menu.c:319-320: the loop over the children, each call possibly swallowing some of the next. */
  method FinalizeChildren(t: NestTest, m: Menu, ghost kids: Forest) returns (ghost g: Forest, ghost visits: seq<Menu>)
    requires Seg(kids, m.list, null, m) && Distinct(kids) && m !in Nodes(kids)
    modifies Nodes(kids)
    ensures Seg(g, m.list, null, m) && Distinct(g)
    ensures Preorder(g) == Preorder(kids) && Nodes(g) == Nodes(kids)
    ensures LiftedBelow(g) && g == FlatBelow(NestAll(t, kids))
    ensures visits == Preorder(g)
    decreases |Preorder(kids)|, 2
  {
    ghost var done, todo := Nil, kids;
    visits := [];
    var menu := m.list;
    while menu != null
      invariant Seg(done, m.list, menu, m) && Seg(todo, menu, null, m)
      invariant Distinct(done) && Distinct(todo) && Nodes(done) !! Nodes(todo)
      invariant Nodes(done) + Nodes(todo) == Nodes(kids)
      invariant Preorder(done) + Preorder(todo) == Preorder(kids)
      invariant LiftedBelow(done) && Append(done, FlatBelow(NestAll(t, todo))) == FlatBelow(NestAll(t, kids))
      invariant visits == Preorder(done)
      decreases |Preorder(todo)|
    {
      hide UnderPrompts, Lifted, Flat, Nest;
      assert allocated(Nodes(done));
      ghost var g', v := Finalize(t, menu, todo);
      assert Seg(done, m.list, menu, m);
      AppendAssoc(done, Cons(menu, g'.kids, Nil), FlatBelow(NestAll(t, g'.rest)));
      Advance(done, g', m.list, m);
      AppendNodes(done, Cons(menu, g'.kids, Nil));
      AppendLifted(done, Cons(menu, g'.kids, Nil));
      visits := visits + v;
      done, todo := Append(done, Cons(menu, g'.kids, Nil)), g'.rest;
      menu := menu.next;
    }
    g := done;
    AppendNil(g);
  }

  lemma {:induction false} AppendNil(f: Forest)
    ensures Append(f, Nil) == f
  {
    match f
    case Nil =>
    case Cons(_, _, rest) => AppendNil(rest);
  }

  /** The entries kids taken over by m, up to menu: init, then one holding just the last of them. */
  ghost predicate Taken(m: Menu, menu: Menu?, last: Menu?, init: Forest, one: Forest, kids: Forest)
    reads m, Nodes(init), Nodes(one)
  {
    && kids == Append(init, one)
    && if last == null then kids == Nil && menu == m.next
       else one.Cons? && one.m == last && one.rest == Nil &&
            Seg(init, m.next, last, m) && Seg(one, last, menu, m)
  }

  lemma TakenNodes(m: Menu, menu: Menu?, last: Menu?, init: Forest, one: Forest, kids: Forest)
    requires Taken(m, menu, last, init, one, kids)
    ensures Nodes(init) <= Nodes(kids) && Nodes(one) <= Nodes(kids)
  {
    AppendNodes(init, one);
  }

  lemma TakeOne(m: Menu, menu: Menu, last: Menu?, init: Forest, one: Forest, kids: Forest, g: Forest)
    returns (init': Forest, one': Forest, kids': Forest)
    requires Taken(m, menu, last, init, one, kids)
    requires g.Cons? && g.m == menu && menu.parent == m && Seg(g.kids, menu.list, null, menu)
    requires Distinct(kids) && Distinct(g) && Nodes(kids) !! Nodes(g)
    requires LiftedBelow(kids) && Lifted(g.kids)
    ensures Taken(m, menu.next, menu, init', one', kids')
    ensures Distinct(kids') && Nodes(kids') !! Nodes(g.rest) && Nodes(kids') + Nodes(g.rest) == Nodes(kids) + Nodes(g)
    ensures Preorder(kids') == Preorder(kids) + ([menu] + Preorder(g.kids))
    ensures Preorder(kids') + Preorder(g.rest) == Preorder(kids) + Preorder(g)
    ensures LiftedBelow(kids') && kids' == Append(kids, Cons(menu, g.kids, Nil))
  {
    init', one' := kids, Cons(menu, g.kids, Nil);
    kids' := Append(init', one');
    assert Preorder(one') == [menu] + Preorder(g.kids);
    assert Nodes(one') == {menu} + Nodes(g.kids) && Distinct(one');
    assert Seg(one', menu, menu.next, m);
    AppendNodes(init', one');
    AppendLifted(init', one');
    if last != null {
      AppendSeg(init, one, m.next, last, menu, m);
    }
    Regroup(Preorder(kids), [menu], Preorder(g.kids), Preorder(g.rest));
  }

  /** menu.c:343-344: finalize the next sibling, which may take over some of its own, and adopt it. */
  method AbsorbOne(t: NestTest, m: Menu, menu: Menu, ghost last: Menu?, ghost init: Forest, ghost one: Forest, ghost kids: Forest, ghost left: Forest)
    returns (ghost init': Forest, ghost one': Forest, ghost kids': Forest, ghost left': Forest, ghost v: seq<Menu>)
    requires Taken(m, menu, last, init, one, kids) && m !in Nodes(left)
    requires Seg(left, menu, null, m.parent)
    requires Distinct(kids) && Distinct(left) && Nodes(kids) !! Nodes(left)
    requires LiftedBelow(kids)
    modifies Nodes(left)
    ensures Taken(m, menu.next, menu, init', one', kids')
    ensures Seg(left', menu.next, null, m.parent)
    ensures Distinct(kids') && Distinct(left') && Nodes(kids') !! Nodes(left')
    ensures Nodes(kids') + Nodes(left') == Nodes(kids) + Nodes(left)
    ensures Preorder(kids') + Preorder(left') == Preorder(kids) + Preorder(left)
    ensures left.Cons? && IsSuffix(left', left.rest) && |Preorder(left')| < |Preorder(left)|
    ensures LiftedBelow(kids')
    ensures Preorder(kids') == Preorder(kids) + v
    ensures kids' == Append(kids, Cons(menu, Flat(Nest(t, left).0), Nil)) && left' == Nest(t, left).1
    decreases |Preorder(left)|, 2
  {
    hide LiftedBelow, UnderPrompts, Lifted, Nest, Flat, IsSuffix;
    assert allocated(Nodes(init)) && allocated(Nodes(one));
    TakenNodes(m, menu, last, init, one, kids);
    ghost var g;
    g, v := Finalize(t, menu, left);
    assert Seg(g.kids, menu.list, null, menu) && Seg(g.rest, menu.next, null, m.parent);
    menu.parent := m;
    assert Taken(m, menu, last, init, one, kids);
    assert Seg(g.kids, menu.list, null, menu) && Seg(g.rest, menu.next, null, m.parent);
    init', one', kids' := TakeOne(m, menu, last, init, one, kids, g);
    left' := g.rest;
  }

  /** menu.c:347-351: what has been taken over becomes the children, the rest stays behind m. */
  method CutOff(m: Menu, menu: Menu?, last: Menu, ghost init: Forest, ghost one: Forest, ghost kids: Forest, ghost left: Forest)
    requires Taken(m, menu, last, init, one, kids) && m !in Nodes(kids) && m !in Nodes(left)
    requires Seg(left, menu, null, m.parent)
    requires Distinct(kids) && Nodes(kids) !! Nodes(left)
    modifies m`list, m`next, last`next
    ensures Seg(kids, m.list, null, m) && Seg(left, m.next, null, m.parent)
  {
    hide Preorder;
    AppendNodes(init, one);
    assert Seg(one.kids, last.list, null, last) && Seg(one.rest, last.next, menu, m);
    m.list := m.next;
    m.next := last.next;
    last.next := null;
    assert Seg(one.kids, last.list, null, last);
    assert Seg(one, last, null, m);
    AppendSeg(init, one, m.list, last, null, m);
  }

  /** menu.c:326-351: an entry without children takes over the following siblings that pass the nesting test. */
  method AbsorbSiblings(t: NestTest, m: Menu, ghost rest: Forest)
    returns (ghost kids: Forest, ghost left: Forest, ghost visits: seq<Menu>)
    requires m.list == null
    requires Seg(rest, m.next, null, m.parent) && Distinct(rest) && m !in Nodes(rest)
    modifies m, Nodes(rest)
    ensures m.parent == old(m.parent)
    ensures Seg(kids, m.list, null, m) && Seg(left, m.next, null, m.parent)
    ensures Distinct(kids) && Distinct(left) && Nodes(kids) !! Nodes(left)
    ensures Preorder(kids) + Preorder(left) == Preorder(rest) && Nodes(kids) + Nodes(left) == Nodes(rest)
    ensures IsSuffix(left, rest)
    ensures LiftedBelow(kids)
    ensures kids == FlatBelow(Absorb(t, m, rest).0) && left == Absorb(t, m, rest).1
    ensures visits == Preorder(kids)
    decreases |Preorder(rest)|, 3
  {
    kids, left, visits := Nil, rest, [];
    var last: Menu? := null;
    ghost var init, one := Nil, Nil;
    var menu := m.next;
    while menu != null
      invariant m.next == old(m.next) && m.list == null && m.parent == old(m.parent)
      invariant Taken(m, menu, last, init, one, kids)
      invariant last != null ==> last in Nodes(kids)
      invariant Seg(left, menu, null, m.parent)
      invariant Distinct(kids) && Distinct(left) && Nodes(kids) !! Nodes(left)
      invariant Nodes(kids) + Nodes(left) == Nodes(rest)
      invariant Preorder(kids) + Preorder(left) == Preorder(rest)
      invariant IsSuffix(left, rest) && |Preorder(left)| <= |Preorder(rest)|
      invariant LiftedBelow(kids)
      invariant Absorbing(t, m, rest, kids, left)
      invariant visits == Preorder(kids)
      decreases |Preorder(left)|
    {
      if !t(m, menu) {
        break;
      }
      ghost var v, before, keptKids := [], left, kids;
      init, one, kids, left, v := AbsorbOne(t, m, menu, last, init, one, kids, left);
      AbsorbStep(t, m, rest, keptKids, before);
      SuffixTrans(before.rest, before, rest);
      SuffixTrans(left, before.rest, rest);
      visits := visits + v;
      last := menu;
      TakenNodes(m, menu.next, last, init, one, kids);
      menu := menu.next;
    }
    AppendNil(kids);
    assert Absorb(t, m, left) == (Nil, left);
    if last != null {
      CutOff(m, menu, last, init, one, kids, left);
    }
  }

  /** kids has been taken over so far, and the siblings from left on are still to be looked at. */
  ghost predicate Absorbing(t: NestTest, m: Menu, rest: Forest, kids: Forest, left: Forest) {
    && Append(kids, FlatBelow(Absorb(t, m, left).0)) == FlatBelow(Absorb(t, m, rest).0)
    && Absorb(t, m, left).1 == Absorb(t, m, rest).1
  }

  lemma AbsorbStep(t: NestTest, m: Menu, rest: Forest, kids: Forest, left: Forest)
    requires Absorbing(t, m, rest, kids, left) && left.Cons? && t(m, left.m)
    ensures Absorbing(t, m, rest, Append(kids, Cons(left.m, Flat(Nest(t, left).0), Nil)), Nest(t, left).1)
  {
    var (k, r) := Nest(t, left);
    AppendAssoc(kids, Cons(left.m, Flat(k), Nil), FlatBelow(Absorb(t, m, r).0));
  }

  /** menu.c:396-400: m becomes the parent of every child of menu; last is the last of them. */
  method Adopt(m: Menu, menu: Menu, ghost kids: Forest) returns (last: Menu, ghost init: Forest, ghost one: Forest)
    requires kids.Cons? && Seg(kids, menu.list, null, menu)
    requires Distinct(kids) && menu !in Nodes(kids)
    modifies Nodes(kids)
    ensures Append(init, one) == kids && one.Cons? && one.m == last && one.rest == Nil
    ensures Seg(init, menu.list, last, m) && Seg(one, last, null, m)
  {
    last := menu.list;
    init := Nil;
    ghost var todo := kids;
    while true
      invariant todo.Cons? && Seg(init, menu.list, last, m) && Seg(todo, last, null, menu)
      invariant Append(init, todo) == kids
      decreases todo
    {
      AppendNodes(init, todo);
      one := Cons(last, todo.kids, Nil);
      assert Seg(todo.kids, last.list, null, last) && Seg(todo.rest, last.next, null, menu);
      last.parent := m;
      assert Seg(todo.kids, last.list, null, last) && Seg(todo.rest, last.next, null, menu);
      assert Seg(one, last, last.next, m);
      if last.next == null {
        break;
      }
      AppendSeg(init, one, menu.list, last, last.next, m);
      AppendAssoc(init, one, todo.rest);
      init, todo := Append(init, one), todo.rest;
      last := last.next;
    }
  }

  /** menu.c:396-403: the children of menu, which has no prompt, become its following siblings. */
  method Splice(m: Menu, menu: Menu, ghost kids: Forest, ghost rest: Forest)
    requires kids.Cons? && Seg(kids, menu.list, null, menu) && Seg(rest, menu.next, null, m)
    requires Distinct(kids) && Distinct(rest) && Nodes(kids) !! Nodes(rest)
    requires menu !in Nodes(kids) && menu !in Nodes(rest)
    modifies menu`next, menu`list, Nodes(kids)
    ensures menu.list == null && Seg(Append(kids, rest), menu.next, null, m)
  {
    assert allocated(Nodes(rest));
    ghost var init, one;
    var last;
    last, init, one := Adopt(m, menu, kids);
    AppendNodes(init, one);
    AppendAssoc(init, one, rest);
    Relink(m, menu, last, init, one, rest);
  }

  /** menu.c:401-403. */
  method Relink(m: Menu, menu: Menu, last: Menu, ghost init: Forest, ghost one: Forest, ghost rest: Forest)
    requires one.Cons? && one.m == last && one.rest == Nil
    requires Seg(init, menu.list, last, m) && Seg(one, last, null, m) && Seg(rest, menu.next, null, m)
    requires menu !in Nodes(init) && menu !in Nodes(one) && menu !in Nodes(rest)
    requires last !in Nodes(init) && last !in Nodes(one.kids) && last !in Nodes(rest)
    modifies last`next, menu`next, menu`list
    ensures menu.list == null && Seg(Append(init, Append(one, rest)), menu.next, null, m)
  {
    assert Seg(one.kids, last.list, null, last);
    last.next := menu.next;
    menu.next := menu.list;
    menu.list := null;
    assert Seg(one.kids, last.list, null, last);
    ghost var tail := Cons(last, one.kids, rest);
    assert Seg(tail, last, null, m);
    AppendSeg(init, tail, menu.next, last, null, m);
  }

  /**
   * Every entry with a prompt has the children it had, every other one none; and an entry has the parent it had, or m
   * if that has no prompt.
   */
  ghost predicate GaveUp(g: Forest, kids: Forest, m: Menu)
    reads Nodes(kids)
  {
    && (forall x :: x in Nodes(kids) ==> KidsOf(g, x) == if x.hasPrompt then KidsOf(kids, x) else Nil)
    && (forall x :: x in Nodes(kids) ==>
          x.parent == var p := ParentOf(kids, m, x); if p != m && !p.hasPrompt then m else p)
  }

  /** Every entry of f is below the nearest entry with a prompt that it is nested in. */
  ghost predicate UnderPrompts(f: Forest, nested: Forest, m: Menu)
    reads Nodes(f)
  {
    forall x :: x in Nodes(f) ==> x.parent == Near(nested, m, x)
  }

  /** menu.c:355-405: entries without a prompt give up their children. */
  method LiftChildren(m: Menu, ghost kids: Forest) returns (ghost g: Forest)
    requires Seg(kids, m.list, null, m) && Distinct(kids) && m !in Nodes(kids)
    requires LiftedBelow(kids)
    modifies Nodes(kids)
    ensures Seg(g, m.list, null, m) && Distinct(g)
    ensures Preorder(g) == Preorder(kids) && Nodes(g) == Nodes(kids)
    ensures Lifted(g) && g == LiftTop(kids)
    ensures GaveUp(g, kids, m)
  {
    ghost var done, todo := Nil, kids;
    var menu := m.list;
    while menu != null
      invariant Seg(done, m.list, menu, m) && Seg(todo, menu, null, m)
      invariant Distinct(done) && Distinct(todo) && Nodes(done) !! Nodes(todo)
      invariant Nodes(done) + Nodes(todo) == Nodes(kids)
      invariant Preorder(done) + Preorder(todo) == Preorder(kids)
      invariant Lifted(done) && LiftedBelow(todo) && Append(done, LiftTop(todo)) == LiftTop(kids)
      decreases |Preorder(todo)|
    {
      AppendCount(todo.kids, todo.rest);
      if menu.list != null && !menu.hasPrompt {
        todo := LiftOne(m, menu, done, todo);
      }
      Advance(done, todo, m.list, m);
      AppendLifted(done, Cons(menu, todo.kids, Nil));
      AppendAssoc(done, Cons(menu, todo.kids, Nil), LiftTop(todo.rest));
      done, todo := Append(done, Cons(menu, todo.kids, Nil)), todo.rest;
      menu := menu.next;
    }
    g := done;
    AppendNil(g);
    GivenUp(g, kids, m);
  }

  lemma GivenUp(g: Forest, kids: Forest, m: Menu)
    requires LiftedBelow(kids) && g == LiftTop(kids) && Nodes(g) == Nodes(kids) && Seg(g, m.list, null, m)
    ensures GaveUp(g, kids, m)
  {
    forall x | x in Nodes(kids)
      ensures KidsOf(g, x) == if x.hasPrompt then KidsOf(kids, x) else Nil
      ensures x.parent == var p := ParentOf(kids, m, x); if p != m && !p.hasPrompt then m else p
    {
      LiftTopKeeps(kids, m, x);
      SegParent(g, m.list, null, m, x);
    }
  }

  method LiftOne(m: Menu, menu: Menu, ghost done: Forest, ghost todo: Forest) returns (ghost todo': Forest)
    requires menu.list != null
    requires Seg(done, m.list, menu, m) && Seg(todo, menu, null, m)
    requires Distinct(done) && Distinct(todo) && Nodes(done) !! Nodes(todo) && m !in Nodes(todo)
    requires LiftedBelow(todo)
    modifies Nodes(todo)
    ensures Seg(done, m.list, menu, m) && Seg(todo', menu, null, m)
    ensures Distinct(todo') && Nodes(todo') == Nodes(todo) && Preorder(todo') == Preorder(todo)
    ensures todo' == Cons(menu, Nil, Append(todo.kids, todo.rest)) && LiftedBelow(todo')
  {
    ghost var kids, rest := todo.kids, todo.rest;
    assert Seg(kids, menu.list, null, menu) && Seg(rest, menu.next, null, m);
    assert allocated(Nodes(done));
    todo' := Cons(menu, Nil, Append(kids, rest));
    LiftKeeps(menu, kids, rest);
    Splice(m, menu, kids, rest);
    assert Seg(done, m.list, menu, m);
  }

  lemma LiftKeeps(menu: Menu, kids: Forest, rest: Forest)
    requires Distinct(Cons(menu, kids, rest)) && LiftedBelow(Cons(menu, kids, rest))
    ensures var lifted := Cons(menu, Nil, Append(kids, rest));
      && Distinct(lifted) && LiftedBelow(lifted)
      && Nodes(lifted) == Nodes(Cons(menu, kids, rest))
      && Preorder(lifted) == Preorder(Cons(menu, kids, rest))
  {
    AppendNodes(kids, rest);
    LiftedIsLiftedBelow(kids);
    AppendLifted(kids, rest);
    assert [menu] + [] + Preorder(Append(kids, rest)) == [menu] + Preorder(kids) + Preorder(rest);
  }

  /**
   * menu_finalize(m), for any outcomes t of the nesting test. Every entry ends up below the nearest entry with a
   * prompt that it was nested in. visits lists the calls in order.
   */
  method Finalize(t: NestTest, m: Menu, ghost f: Forest) returns (ghost g: Forest, ghost visits: seq<Menu>)
    requires f.Cons? && f.m == m && Seg(f, m, null, m.parent) && Distinct(f)
    modifies Nodes(f)
    ensures g.Cons? && g.m == m && Seg(g, m, null, old(m.parent)) && Distinct(g)
    ensures Preorder(g) == Preorder(f) && Nodes(g) == Nodes(f)
    ensures IsSuffix(g.rest, f.rest)
    ensures Lifted(g.kids)
    ensures g == Cons(m, Flat(Nest(t, f).0), Nest(t, f).1)
    ensures UnderPrompts(g.kids, Nest(t, f).0, m)
    ensures visits == [m] + Preorder(g.kids)
    decreases |Preorder(f)|, 1
  {
    hide UnderPrompts, GaveUp, Lifted, Preorder, Distinct, LiftedBelow, Nest, Flat;
    FirstEntry(f);
    ghost var kids, rest;
    kids, rest, visits := GatherChildren(t, m, f);
    assert m !in Nodes(kids) && m !in Nodes(rest) by {
      assert m !in Nodes(f.kids) + Nodes(f.rest);
    }
    assert allocated(Nodes(rest));
    ghost var lifted := LiftChildren(m, kids);
    assert Seg(rest, m.next, null, m.parent) && Seg(lifted, m.list, null, m);
    g := Assembled(m, lifted, rest);
    LiftTopFlat(Nest(t, f).0);
    FinalParents(m, Nest(t, f).0, m.list);
    visits := [m] + visits;
  }

  lemma FirstEntry(f: Forest)
    requires f.Cons? && Distinct(f)
    ensures Nodes(f) == {f.m} + (Nodes(f.kids) + Nodes(f.rest)) && f.m !in Nodes(f.kids) && f.m !in Nodes(f.rest)
    ensures Preorder(f) == [f.m] + (Preorder(f.kids) + Preorder(f.rest))
  {
  }

  lemma FinalParents(m: Menu, f: Forest, p: Menu?)
    requires Seg(Flat(f), p, null, m)
    ensures UnderPrompts(Flat(f), f, m)
  {
    hide Seg;
    FlatNodes(f);
    forall x | x in Nodes(f)
      ensures x.parent == Near(f, m, x)
    {
      SegParent(Flat(f), p, null, m, x);
      FlatParent(f, m, x);
    }
  }

  lemma Assembled(m: Menu, kids: Forest, rest: Forest) returns (g: Forest)
    requires Seg(rest, m.next, null, m.parent) && Seg(kids, m.list, null, m)
    requires m !in Nodes(kids) && m !in Nodes(rest) && Nodes(kids) !! Nodes(rest)
    requires Distinct(kids) && Distinct(rest)
    ensures g == Cons(m, kids, rest)
    ensures Seg(g, m, null, m.parent) && Distinct(g)
    ensures Preorder(g) == [m] + (Preorder(kids) + Preorder(rest))
    ensures Nodes(g) == {m} + (Nodes(kids) + Nodes(rest))
  {
    g := Cons(m, kids, rest);
  }

  /** menu.c:319-351: finalize the children or, for a symbol's entry without any, look for them among the siblings. */
  method GatherChildren(t: NestTest, m: Menu, ghost f: Forest)
    returns (ghost kids: Forest, ghost rest: Forest, ghost visits: seq<Menu>)
    requires f.Cons? && f.m == m && Seg(f, m, null, m.parent) && Distinct(f)
    modifies Nodes(f)
    ensures m.parent == old(m.parent)
    ensures Seg(kids, m.list, null, m) && Seg(rest, m.next, null, m.parent)
    ensures Distinct(kids) && Distinct(rest) && Nodes(kids) !! Nodes(rest)
    ensures Preorder(kids) + Preorder(rest) == Preorder(f.kids) + Preorder(f.rest)
    ensures Nodes(kids) + Nodes(rest) == Nodes(f.kids) + Nodes(f.rest)
    ensures IsSuffix(rest, f.rest)
    ensures LiftedBelow(kids)
    ensures kids == FlatBelow(Nest(t, f).0) && rest == Nest(t, f).1
    ensures visits == Preorder(kids)
    decreases |Preorder(f)|, 0
  {
    kids, rest, visits := f.kids, f.rest, [];
    assert Seg(kids, m.list, null, m) && Seg(rest, m.next, null, m.parent);
    if m.list != null {
      assert allocated(Nodes(rest));
      kids, visits := FinalizeChildren(t, m, kids);
    } else if m.hasSym {
      assert kids == Nil;
      kids, rest, visits := AbsorbSiblings(t, m, rest);
    }
  }

  /** From the parsed tree to the written file: every entry is finalized and written once, in parse order. */
  method FinalizeThenWalk(t: NestTest, root: Menu, ghost parsed: Forest) returns (visited: seq<Menu>, ghost visits: seq<Menu>)
    requires root.next == null && root.parent == null
    requires Seg(parsed, root.list, null, root) && Distinct(parsed) && root !in Nodes(parsed)
    modifies root, Nodes(parsed)
    ensures visited == Preorder(parsed)
    ensures visits == [root] + visited
    ensures forall x :: x in Nodes(parsed) ==> x.parent == Near(Nest(t, Cons(root, parsed, Nil)).0, root, x)
  {
    ghost var f := Cons(root, parsed, Nil);
    assert Nodes(f) == {root} + Nodes(parsed);
    ghost var g;
    g, visits := Finalize(t, root, f);
    assert g.rest == Nil && Seg(g.kids, root.list, null, root) && Seg(g.rest, root.next, null, root.parent);
    assert Preorder(f) == [root] + Preorder(parsed) && Preorder(g) == [root] + Preorder(g.kids);
    assert Preorder(parsed) == Preorder(f)[1..] && Preorder(g.kids) == Preorder(g)[1..];
    assert root !in Nodes(g.kids) && Nodes(g) == {root} + Nodes(g.kids);
    assert Nodes(g.kids) == Nodes(parsed);
    assert allocated(Nodes(parsed)) && forall x :: x in Nodes(parsed) ==> x.parent == Near(Nest(t, f).0, root, x);
    visited := Walk(root, g.kids);
  }
}
