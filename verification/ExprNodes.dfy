/**
 * expr.c: the rewrites of single expressions as the program carries them out, on nodes linked by pointers that are
 * overwritten, unlinked and reused in place.
 */
module ExprNodes {
  import opened Expressions
  import opened Equality
  import opened Normalisation
  import opened Visibility

  datatype Kind = E_SYMBOL | E_NOT | E_AND | E_OR | E_EQUAL | E_UNEQUAL

  class Node {
    var kind: Kind
    var left: Node?
    var right: Node?
    var leftSym: Symbol
    var rightSym: Symbol

    /** expr_alloc_symbol. */
    constructor OfSymbol(s: Symbol)
      ensures kind == E_SYMBOL && leftSym == s
    {
      kind, left, right, leftSym, rightSym := E_SYMBOL, null, null, s, SymNo;
    }

    /** expr_alloc_two. */
    constructor Two(kind: Kind, l: Node, r: Node)
      ensures this.kind == kind && left == l && right == r
    {
      this.kind, left, right, leftSym, rightSym := kind, l, r, SymNo, SymNo;
    }

    /** expr_alloc_one for a negation. */
    constructor Negation(e: Node)
      ensures kind == E_NOT && left == e && right == null
    {
      kind, left, right, leftSym, rightSym := E_NOT, e, null, SymNo, SymNo;
    }
  }

  // ---- the tree the pointers make ----

  datatype Shape =
    | Leaf(node: Node)
    | Un(node: Node, below: Shape)
    | Bin(node: Node, l: Shape, r: Shape)

  ghost function Nodes(t: Shape): set<Node> {
    match t
    case Leaf(n) => {n}
    case Un(n, below) => {n} + Nodes(below)
    case Bin(n, l, r) => {n} + Nodes(l) + Nodes(r)
  }

  ghost predicate IsTree(t: Shape) {
    match t
    case Leaf(n) => true
    case Un(n, below) => n !in Nodes(below) && IsTree(below)
    case Bin(n, l, r) => n !in Nodes(l) && n !in Nodes(r) && Nodes(l) !! Nodes(r) && IsTree(l) && IsTree(r)
  }

  /** The nodes have the kinds and the pointers of the tree, and no node is shared. */
  ghost predicate Holds(t: Shape)
    reads Nodes(t)
  {
    IsTree(t) && Linked(t)
  }

  ghost predicate Linked(t: Shape)
    reads Nodes(t)
  {
    match t
    case Leaf(n) => n.kind == E_SYMBOL || n.kind == E_EQUAL || n.kind == E_UNEQUAL
    case Un(n, below) => n.kind == E_NOT && n.left == below.node && n.right == null && Linked(below)
    case Bin(n, l, r) =>
      (n.kind == E_AND || n.kind == E_OR) && n.left == l.node && n.right == r.node && Linked(l) && Linked(r)
  }

  ghost function Value(t: Shape): Expr
    reads Nodes(t)
  {
    match t
    case Leaf(n) =>
      if n.kind == E_EQUAL then Eq(n.leftSym, n.rightSym)
      else if n.kind == E_UNEQUAL then Neq(n.leftSym, n.rightSym)
      else Sym(n.leftSym)
    case Un(n, below) => Not(Value(below))
    case Bin(n, l, r) => if n.kind == E_AND then And(Value(l), Value(r)) else Or(Value(l), Value(r))
  }

  /** The same operands under another node. */
  ghost function Moved(t: Shape, n: Node): Shape {
    match t
    case Leaf(_) => Leaf(n)
    case Un(_, below) => Un(n, below)
    case Bin(_, l, r) => Bin(n, l, r)
  }

  lemma KindOf(t: Shape)
    requires Holds(t)
    ensures t.Bin? <==> t.node.kind == E_AND || t.node.kind == E_OR
    ensures t.Un? <==> t.node.kind == E_NOT
    ensures t.node in Nodes(t)
    ensures var v, n := Value(t), t.node;
            match n.kind
            case E_SYMBOL => v == Sym(n.leftSym)
            case E_EQUAL => v == Eq(n.leftSym, n.rightSym)
            case E_UNEQUAL => v == Neq(n.leftSym, n.rightSym)
            case E_NOT => v.Not?
            case E_AND => v.And?
            case E_OR => v.Or?
  {
  }

  lemma Operands(t: Shape)
    requires Holds(t) && t.Bin?
    ensures Holds(t.l) && Holds(t.r) && t.node.left == t.l.node && t.node.right == t.r.node
    ensures t.node !in Nodes(t.l) && t.node !in Nodes(t.r) && Nodes(t.l) !! Nodes(t.r)
    ensures Nodes(t) == {t.node} + Nodes(t.l) + Nodes(t.r)
    ensures Value(t) == if t.node.kind == E_AND then And(Value(t.l), Value(t.r)) else Or(Value(t.l), Value(t.r))
  {
  }

  lemma Operand(t: Shape)
    requires Holds(t) && t.Un?
    ensures Holds(t.below) && t.node.left == t.below.node && t.node.right == null
    ensures t.node !in Nodes(t.below) && Nodes(t) == {t.node} + Nodes(t.below)
    ensures Value(t) == Not(Value(t.below))
  {
  }

  lemma Chain(e: Node, l: Shape, r: Shape)
    requires Holds(l) && Holds(r) && e.left == l.node && e.right == r.node && (e.kind == E_AND || e.kind == E_OR)
    requires e !in Nodes(l) && e !in Nodes(r) && Nodes(l) !! Nodes(r)
    ensures Holds(Bin(e, l, r)) && Nodes(Bin(e, l, r)) == {e} + Nodes(l) + Nodes(r)
    ensures Value(Bin(e, l, r)) == if e.kind == E_AND then And(Value(l), Value(r)) else Or(Value(l), Value(r))
  {
  }

  lemma Negated(e: Node, t: Shape)
    requires Holds(t) && e.kind == E_NOT && e.left == t.node && e.right == null && e !in Nodes(t)
    ensures Holds(Un(e, t)) && Nodes(Un(e, t)) == {e} + Nodes(t) && Value(Un(e, t)) == Not(Value(t))
  {
  }

  function KindFor(op: Op): Kind {
    if op == OpAnd then E_AND else E_OR
  }

  /** The tree t starts at e and stands for v. */
  ghost predicate Repr(e: Node, t: Shape, v: Expr)
    reads Nodes(t)
  {
    t.node == e && Holds(t) && Value(t) == v
  }

  lemma ReprKind(e: Node, t: Shape, v: Expr)
    requires Repr(e, t, v)
    ensures e in Nodes(t)
    ensures match e.kind
            case E_SYMBOL => v == Sym(e.leftSym)
            case E_EQUAL => v == Eq(e.leftSym, e.rightSym)
            case E_UNEQUAL => v == Neq(e.leftSym, e.rightSym)
            case E_NOT => v.Not?
            case E_AND => v.And?
            case E_OR => v.Or?
    ensures forall op :: Is(op, v) <==> e.kind == KindFor(op)
    ensures IsChain(v) <==> e.kind == E_AND || e.kind == E_OR
    ensures IsChain(v) ==> t.Bin?
    ensures v.Not? ==> t.Un?
  {
    KindOf(t);
  }

  lemma ReprChain(e: Node, t: Shape, v: Expr)
    requires Repr(e, t, v) && IsChain(v)
    ensures t.Bin? && e.left != null && Repr(e.left, t.l, v.l) && e.right != null && Repr(e.right, t.r, v.r)
    ensures e !in Nodes(t.l) && e !in Nodes(t.r) && Nodes(t.l) !! Nodes(t.r)
    ensures Nodes(t) == {e} + Nodes(t.l) + Nodes(t.r)
  {
    KindOf(t);
    Operands(t);
  }

  lemma ReprNot(e: Node, t: Shape, v: Expr)
    requires Repr(e, t, v) && v.Not?
    ensures t.Un? && e.left != null && Repr(e.left, t.below, v.e)
    ensures e !in Nodes(t.below) && Nodes(t) == {e} + Nodes(t.below)
  {
    KindOf(t);
    Operand(t);
  }

  lemma MakeChain(op: Op, e: Node, l: Shape, v: Expr, r: Shape, w: Expr)
    requires e.kind == KindFor(op) && e.left != null && Repr(e.left, l, v) && e.right != null && Repr(e.right, r, w)
    requires e !in Nodes(l) && e !in Nodes(r) && Nodes(l) !! Nodes(r)
    ensures Repr(e, Bin(e, l, r), Mk(op, v, w)) && Nodes(Bin(e, l, r)) == {e} + Nodes(l) + Nodes(r)
  {
    Chain(e, l, r);
  }

  lemma MakeNot(e: Node, t: Shape, v: Expr)
    requires e.kind == E_NOT && e.left != null && Repr(e.left, t, v) && e.right == null && e !in Nodes(t)
    ensures Repr(e, Un(e, t), Not(v)) && Nodes(Un(e, t)) == {e} + Nodes(t)
  {
    Negated(e, t);
  }

  lemma MakeLeaf(e: Node)
    ensures Nodes(Leaf(e)) == {e}
    ensures e.kind == E_SYMBOL ==> Repr(e, Leaf(e), Sym(e.leftSym))
    ensures e.kind == E_EQUAL ==> Repr(e, Leaf(e), Eq(e.leftSym, e.rightSym))
    ensures e.kind == E_UNEQUAL ==> Repr(e, Leaf(e), Neq(e.leftSym, e.rightSym))
  {
  }

  // ---- expr_eliminate_yn ----

  /** `*e = *from`: the node takes over everything of one of its operands. */
  method Overwrite(e: Node, from: Node, ghost t: Shape, ghost v: Expr)
    requires Repr(from, t, v) && e !in Nodes(t)
    modifies e
    ensures Repr(e, Moved(t, e), v) && Nodes(Moved(t, e)) <= Nodes(t) + {e}
  {
    e.kind, e.left, e.right, e.leftSym, e.rightSym := from.kind, from.left, from.right, from.leftSym, from.rightSym;
  }

  method BecomeSymbol(e: Node, s: Symbol)
    modifies e
    ensures Repr(e, Leaf(e), Sym(s)) && Nodes(Leaf(e)) == {e}
  {
    e.kind, e.leftSym, e.right := E_SYMBOL, s, null;
  }

  /** One chain whose operands have been folded. */
  ghost function Folded(e: Expr): Expr
    requires IsChain(e)
  {
    var one, zero := Neutral(TypeOf(e)), Sym(if e.And? then SymNo else SymYes);
    if e.l == zero then zero
    else if e.l == one then e.r
    else if e.r == zero then zero
    else if e.r == one then e.l
    else e
  }

  /** The rules of expr_eliminate_yn for a chain whose operands are done. */
  method FoldChain(e: Node, ghost t: Shape, ghost v: Expr) returns (ghost u: Shape)
    requires Repr(e, t, v) && IsChain(v)
    modifies e
    ensures Repr(e, u, Folded(v)) && Nodes(u) <= Nodes(t)
  {
    ReprKind(e, t, v);
    ReprChain(e, t, v);
    u := t;
    var l, r := e.left, e.right;
    ReprKind(l, t.l, v.l);
    ReprKind(r, t.r, v.r);
    hide Repr, Nodes;
    var zero, one := if e.kind == E_AND then SymNo else SymYes, if e.kind == E_AND then SymYes else SymNo;
    if l.kind == E_SYMBOL && l.leftSym == zero {
      BecomeSymbol(e, zero);
      u := Leaf(e);
    } else if l.kind == E_SYMBOL && l.leftSym == one {
      Overwrite(e, r, t.r, v.r);
      u := Moved(t.r, e);
    } else if r.kind == E_SYMBOL && r.leftSym == zero {
      BecomeSymbol(e, zero);
      u := Leaf(e);
    } else if r.kind == E_SYMBOL && r.leftSym == one {
      Overwrite(e, l, t.l, v.l);
      u := Moved(t.l, e);
    }
  }

  lemma YnOf(v: Expr)
    ensures v.And? ==> EliminateYn(v) == Folded(And(EliminateYn(v.l), EliminateYn(v.r)))
    ensures v.Or? ==> EliminateYn(v) == Folded(Or(EliminateYn(v.l), EliminateYn(v.r)))
    ensures !IsChain(v) ==> EliminateYn(v) == v
  {
  }

  /** expr_eliminate_yn: the node itself stays, whatever becomes of its operands. */
  method EliminateYnNodes(e: Node, ghost t: Shape, ghost v: Expr) returns (ghost u: Shape)
    requires Repr(e, t, v)
    modifies Nodes(t)
    ensures Repr(e, u, EliminateYn(v)) && Nodes(u) <= Nodes(t)
    decreases t
  {
    u := t;
    ReprKind(e, t, v);
    YnOf(v);
    if e.kind == E_AND || e.kind == E_OR {
      ReprChain(e, t, v);
      ghost var op := TypeOf(v);
      ghost var w := Mk(op, EliminateYn(v.l), EliminateYn(v.r));
      hide Repr, Nodes, Folded, EliminateYn;
      assert allocated(Nodes(t.l)) && allocated(Nodes(t.r));
      ghost var l := EliminateYnNodes(e.left, t.l, v.l);
      ghost var r := EliminateYnNodes(e.right, t.r, v.r);
      MakeChain(op, e, l, w.l, r, w.r);
      u := FoldChain(e, Bin(e, l, r), w);
    }
  }

  // ---- expr_trans_bool ----

  lemma TransBoolOf(v: Expr)
    ensures v.And? ==> TransBool(v) == And(TransBool(v.l), TransBool(v.r))
    ensures v.Or? ==> TransBool(v) == Or(TransBool(v.l), TransBool(v.r))
    ensures v.Not? ==> TransBool(v) == Not(TransBool(v.e))
    ensures v.Sym? || v.Eq? ==> TransBool(v) == v
    ensures v.Neq? ==> TransBool(v) == if v.a.IsTri() && v.b == SymNo then Sym(v.a) else v
  {
  }

  /** expr_trans_bool: the pointers stay, only comparisons turn into symbols. */
  method TransBoolNodes(e: Node, ghost t: Shape, ghost v: Expr)
    requires Repr(e, t, v)
    modifies Nodes(t)
    ensures Repr(e, t, TransBool(v))
    decreases t
  {
    ReprKind(e, t, v);
    TransBoolOf(v);
    if e.kind == E_AND || e.kind == E_OR {
      ReprChain(e, t, v);
      hide Repr, Nodes, TransBool;
      assert allocated(Nodes(t.l)) && allocated(Nodes(t.r));
      TransBoolNodes(e.left, t.l, v.l);
      TransBoolNodes(e.right, t.r, v.r);
      MakeChain(TypeOf(v), e, t.l, TransBool(v.l), t.r, TransBool(v.r));
    } else if e.kind == E_NOT {
      ReprNot(e, t, v);
      hide Repr, Nodes, TransBool;
      assert allocated(Nodes(t.below));
      TransBoolNodes(e.left, t.below, v.e);
      MakeNot(e, t.below, TransBool(v.e));
    } else if e.kind == E_UNEQUAL && e.leftSym.IsTri() && e.rightSym == SymNo {
      e.kind := E_SYMBOL;
    }
  }

  // ---- expr_transform ----

  /** What becomes of a negation whose operand v is transformed already. */
  ghost function AfterNot(v: Expr): Expr {
    match v
    case Not(y) => Transform(y)
    case Eq(a, b) => Neq(a, b)
    case Neq(a, b) => Eq(a, b)
    case Or(l, r) => Transform(And(Not(l), Not(r)))
    case And(l, r) => Transform(Or(Not(l), Not(r)))
    case Sym(s) => if s == SymYes then ENo else if s == SymMod then v else if s == SymNo then EYes else Not(v)
  }

  lemma TransformOf(v: Expr)
    ensures v.And? ==> Transform(v) == And(Transform(v.l), Transform(v.r))
    ensures v.Or? ==> Transform(v) == Or(Transform(v.l), Transform(v.r))
    ensures v.Not? ==> Transform(v) == AfterNot(Transform(v.e))
  {
  }

  lemma WeightOf(v: Expr)
    ensures Weight(Transform(v)) <= Weight(v)
    ensures IsChain(v) ==> Weight(v) == Weight(v.l) + Weight(v.r) + 1
    ensures v.Not? ==> Weight(v) == 2 * Weight(v.e)
    ensures Weight(v) >= 1
  {
  }

  /** A comparison of a boolean symbol with y, m or n. */
  method TransformComparison(e: Node, ghost t: Shape, ghost v: Expr) returns (ghost u: Shape)
    requires Repr(e, t, v) && !IsChain(v) && !v.Not?
    modifies e
    ensures Repr(e, u, Transform(v)) && (forall n :: n in Nodes(u) ==> n in Nodes(t) || fresh(n))
  {
    ReprKind(e, t, v);
    u := t;
    if e.kind == E_SYMBOL || !e.leftSym.IsBool() {
      return;
    }
    if e.rightSym == SymMod {
      BecomeSymbol(e, if e.kind == E_EQUAL then SymNo else SymYes);
      u := Leaf(e);
    } else if e.rightSym.IsYN() {
      if (e.kind == E_EQUAL) == (e.rightSym == SymYes) {
        BecomeSymbol(e, e.leftSym);
        u := Leaf(e);
      } else {
        u := BecomeNegation(e);
      }
    }
  }

  method BecomeNegation(e: Node) returns (ghost u: Shape)
    modifies e
    ensures Repr(e, u, Not(Sym(old(e.leftSym)))) && (forall n :: n in Nodes(u) ==> n == e || fresh(n))
  {
    var s := new Node.OfSymbol(e.leftSym);
    e.kind, e.left, e.right := E_NOT, s, null;
    MakeLeaf(s);
    MakeNot(e, Leaf(s), Sym(s.leftSym));
    u := Un(e, Leaf(s));
  }

  /** expr_transform. */
  method TransformNodes(e: Node, ghost t: Shape, ghost v: Expr) returns (r: Node, ghost u: Shape)
    requires Repr(e, t, v)
    modifies Nodes(t)
    ensures Repr(r, u, Transform(v)) && (forall n :: n in Nodes(u) ==> n in Nodes(t) || fresh(n))
    decreases Weight(v), 2
  {
    ReprKind(e, t, v);
    WeightOf(v);
    TransformOf(v);
    hide Repr, Nodes, Transform, Weight, AfterNot;
    r := e;
    if e.kind == E_AND || e.kind == E_OR {
      WeightOf(v.l);
      u := TransformLeft(e, t, v);
      ghost var w := Mk(TypeOf(v), Transform(v.l), v.r);
      WeightOf(w);
      u := TransformRight(e, u, w);
    } else if e.kind == E_NOT {
      WeightOf(v.e);
      ghost var w := Not(Transform(v.e));
      WeightOf(w);
      u := TransformBelow(e, t, v);
      r, u := TransformNot(e, u, w);
    } else {
      u := TransformComparison(e, t, v);
    }
  }

  method TransformLeft(e: Node, ghost t: Shape, ghost v: Expr) returns (ghost u: Shape)
    requires Repr(e, t, v) && IsChain(v)
    modifies Nodes(t)
    ensures Repr(e, u, Mk(TypeOf(v), Transform(v.l), v.r)) && (forall n :: n in Nodes(u) ==> n in Nodes(t) || fresh(n))
    decreases Weight(v), 0
  {
    ReprKind(e, t, v);
    ReprChain(e, t, v);
    WeightOf(v);
    WeightOf(v.r);
    hide Repr, Nodes, Transform, Weight;
    assert allocated(Nodes(t.l)) && allocated(Nodes(t.r));
    var x;
    ghost var l;
    x, l := TransformNodes(e.left, t.l, v.l);
    assert e !in Nodes(l) && Nodes(l) !! Nodes(t.r);
    e.left := x;
    MakeChain(TypeOf(v), e, l, Transform(v.l), t.r, v.r);
    u := Bin(e, l, t.r);
  }

  method TransformRight(e: Node, ghost t: Shape, ghost v: Expr) returns (ghost u: Shape)
    requires Repr(e, t, v) && IsChain(v)
    modifies Nodes(t)
    ensures Repr(e, u, Mk(TypeOf(v), v.l, Transform(v.r))) && (forall n :: n in Nodes(u) ==> n in Nodes(t) || fresh(n))
    decreases Weight(v), 0
  {
    ReprKind(e, t, v);
    ReprChain(e, t, v);
    WeightOf(v);
    WeightOf(v.l);
    hide Repr, Nodes, Transform, Weight;
    assert allocated(Nodes(t.l)) && allocated(Nodes(t.r));
    var y;
    ghost var r;
    y, r := TransformNodes(e.right, t.r, v.r);
    assert e !in Nodes(r) && Nodes(t.l) !! Nodes(r);
    e.right := y;
    MakeChain(TypeOf(v), e, t.l, v.l, r, Transform(v.r));
    u := Bin(e, t.l, r);
  }

  method TransformBelow(e: Node, ghost t: Shape, ghost v: Expr) returns (ghost u: Shape)
    requires Repr(e, t, v) && v.Not?
    modifies Nodes(t)
    ensures Repr(e, u, Not(Transform(v.e))) && (forall n :: n in Nodes(u) ==> n in Nodes(t) || fresh(n))
    decreases Weight(v), 0
  {
    ReprKind(e, t, v);
    ReprNot(e, t, v);
    WeightOf(v);
    WeightOf(v.e);
    hide Repr, Nodes, Transform, Weight;
    assert allocated(Nodes(t.below));
    var x, below := TransformNodes(e.left, t.below, v.e);
    assert e !in Nodes(below);
    e.left := x;
    MakeNot(e, below, Transform(v.e));
    u := Un(e, below);
  }

  /** The rules for a negation whose operand is transformed already. */
  method TransformNot(e: Node, ghost t: Shape, ghost v: Expr) returns (r: Node, ghost u: Shape)
    requires Repr(e, t, v) && v.Not?
    modifies Nodes(t)
    ensures Repr(r, u, AfterNot(v.e)) && (forall n :: n in Nodes(u) ==> n in Nodes(t) || fresh(n))
    decreases Weight(v), 1
  {
    ReprKind(e, t, v);
    ReprNot(e, t, v);
    var x := e.left;
    ReprKind(x, t.below, v.e);
    WeightOf(v);
    WeightOf(v.e);
    hide Transform, Weight, Repr, Nodes;
    r, u := x, t.below;
    match x.kind {
      case E_NOT =>
        ReprNot(x, t.below, v.e);
        assert allocated(Nodes(t.below.below));
        r, u := TransformNodes(x.left, t.below.below, v.e.e);
      case E_EQUAL =>
        FlipComparison(x, t.below, v.e);
      case E_UNEQUAL =>
        FlipComparison(x, t.below, v.e);
      case E_SYMBOL =>
        if x.leftSym == SymYes {
          BecomeSymbol(x, SymNo);
          u := Leaf(x);
        } else if x.leftSym == SymNo {
          BecomeSymbol(x, SymYes);
          u := Leaf(x);
        } else if x.leftSym != SymMod {
          r, u := e, t;
        }
      case _ =>
        ghost var w := Dual(v.e);
        DualWeight(v.e);
        u := DeMorgan(e, t, v);
        r, u := TransformNodes(e, u, w);
    }
  }

  method FlipComparison(x: Node, ghost t: Shape, ghost v: Expr)
    requires Repr(x, t, v) && (v.Eq? || v.Neq?)
    modifies x
    ensures Repr(x, t, if v.Eq? then Neq(v.a, v.b) else Eq(v.a, v.b))
  {
    ReprKind(x, t, v);
    x.kind := if x.kind == E_EQUAL then E_UNEQUAL else E_EQUAL;
  }

  /** What a negated chain is turned into. */
  ghost function Dual(v: Expr): Expr
    requires IsChain(v)
  {
    if v.Or? then And(Not(v.l), Not(v.r)) else Or(Not(v.l), Not(v.r))
  }

  lemma DualWeight(v: Expr)
    requires IsChain(v)
    ensures Weight(Dual(v)) < Weight(Not(v))
  {
  }

  method NewNegation(x: Node, ghost t: Shape, ghost v: Expr) returns (r: Node)
    requires Repr(x, t, v)
    ensures fresh(r) && Repr(r, Un(r, t), Not(v)) && Nodes(Un(r, t)) == {r} + Nodes(t)
  {
    assert allocated(Nodes(t));
    r := new Node.Negation(x);
    MakeNot(r, t, v);
  }

  /** !(a || b) becomes !a && !b, and the other way round: the node of the chain is reused for the first negation. */
  method DeMorgan(e: Node, ghost t: Shape, ghost v: Expr) returns (ghost u: Shape)
    requires Repr(e, t, v) && v.Not? && IsChain(v.e)
    modifies Nodes(t)
    ensures Repr(e, u, Dual(v.e)) && (forall n :: n in Nodes(u) ==> n in Nodes(t) || fresh(n))
  {
    ReprKind(e, t, v);
    ReprNot(e, t, v);
    var x := e.left;
    ReprKind(x, t.below, v.e);
    ReprChain(x, t.below, v.e);
    hide Repr, Nodes;
    ghost var l, r := t.below.l, t.below.r;
    assert allocated(Nodes(l)) && allocated(Nodes(r));
    var second := NewNegation(x.right, r, v.e.r);
    assert second !in Nodes(l) && second != x && second != e;
    e.kind, e.right := if x.kind == E_OR then E_AND else E_OR, second;
    TurnIntoNegation(x, l, v.e.l);
    MakeChain(if v.e.Or? then OpAnd else OpOr, e, Un(x, l), Not(v.e.l), Un(second, r), Not(v.e.r));
    u := Bin(e, Un(x, l), Un(second, r));
  }

  method TurnIntoNegation(x: Node, ghost l: Shape, ghost v: Expr)
    requires x.left != null && Repr(x.left, l, v) && x !in Nodes(l)
    modifies x
    ensures Repr(x, Un(x, l), Not(v)) && Nodes(Un(x, l)) == {x} + Nodes(l)
  {
    hide Repr, Nodes;
    x.kind, x.right := E_NOT, null;
    MakeNot(x, l, v);
  }
}
