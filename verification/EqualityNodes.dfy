/** expr.c: expr_copy, expr_eq and the elimination of common operands, on nodes that are cut out and replaced in place. */
module EqualityNodes {
  import opened Expressions
  import opened Equality
  import opened ExprNodes

  /** expr_copy. */
  method CopyNodes(e: Node, ghost t: Shape, ghost v: Expr) returns (r: Node, ghost u: Shape)
    requires Repr(e, t, v)
    ensures Repr(r, u, v) && fresh(Nodes(u))
    decreases t
  {
    ReprKind(e, t, v);
    hide Repr, Nodes;
    assert allocated(Nodes(t));
    if e.kind == E_NOT {
      ReprNot(e, t, v);
      var x, below := CopyNodes(e.left, t.below, v.e);
      assert allocated(Nodes(below));
      r := new Node.Negation(x);
      MakeNot(r, below, v.e);
      u := Un(r, below);
    } else if e.kind == E_AND || e.kind == E_OR {
      r, u := CopyChain(e, t, v);
    } else {
      r := new Node.OfSymbol(e.leftSym);
      r.kind, r.rightSym := e.kind, e.rightSym;
      MakeLeaf(r);
      u := Leaf(r);
    }
  }

  method CopyChain(e: Node, ghost t: Shape, ghost v: Expr) returns (r: Node, ghost u: Shape)
    requires Repr(e, t, v) && IsChain(v)
    ensures Repr(r, u, v) && fresh(Nodes(u))
    decreases t, 0
  {
    ReprKind(e, t, v);
    ReprChain(e, t, v);
    hide Repr, Nodes;
    assert allocated(Nodes(t.l)) && allocated(Nodes(t.r));
    var kind := e.kind;
    var x, a := CopyNodes(e.left, t.l, v.l);
    assert allocated(Nodes(a));
    var y, b := CopyNodes(e.right, t.r, v.r);
    assert Nodes(a) !! Nodes(b);
    assert allocated(Nodes(b));
    r := new Node.Two(kind, x, y);
    MakeChain(TypeOf(v), r, a, v.l, b, v.r);
    u := Bin(r, a, b);
  }

  lemma ExprEqOf(v: Expr, w: Expr)
    ensures v.Not? && w.Not? ==> ExprEq(v, w) == ExprEq(v.e, w.e)
    ensures (v.And? && w.And?) || (v.Or? && w.Or?) ==>
              ExprEq(v, w) == (EliminateEq(v, w).0.Sym? && EliminateEq(v, w).0 == EliminateEq(v, w).1)
    ensures (v.Eq? && w.Eq?) || (v.Neq? && w.Neq?) || (v.Sym? && w.Sym?) ==> ExprEq(v, w) == (v == w)
    ensures v.And? != w.And? || v.Or? != w.Or? || v.Not? != w.Not? || v.Eq? != w.Eq? || v.Neq? != w.Neq? || v.Sym? != w.Sym? ==>
              !ExprEq(v, w)
  {
  }

  lemma SizeOf(op: Op, v: Expr)
    ensures Is(op, v) ==> Size(v) == 1 + Size(v.l) + Size(v.r)
    ensures v.Not? ==> Size(v) == 1 + Size(v.e)
  {
  }

  lemma SizeMk(op: Op, l: Expr, r: Expr)
    ensures Size(Mk(op, l, r)) == 1 + Size(l) + Size(r)
  {
  }

  /** expr_eq: chains are compared by eliminating on copies, so that neither tree changes. */
  method ExprEqNodes(e1: Node, ghost t1: Shape, ghost v: Expr, e2: Node, ghost t2: Shape, ghost w: Expr)
    returns (yes: bool)
    requires Repr(e1, t1, v) && Repr(e2, t2, w)
    ensures yes == ExprEq(v, w)
    decreases Size(v) + Size(w), 2, 0
  {
    ReprKind(e1, t1, v);
    ReprKind(e2, t2, w);
    ExprEqOf(v, w);
    SizeOf(OpAnd, v);
    SizeOf(OpAnd, w);
    hide ExprEq, EliminateEq, EliminateCommon, Repr, Nodes, Size;
    if e1.kind != e2.kind {
      return false;
    }
    match e1.kind {
      case E_EQUAL =>
        return e1.leftSym == e2.leftSym && e1.rightSym == e2.rightSym;
      case E_UNEQUAL =>
        return e1.leftSym == e2.leftSym && e1.rightSym == e2.rightSym;
      case E_SYMBOL =>
        return e1.leftSym == e2.leftSym;
      case E_NOT =>
        ReprNot(e1, t1, v);
        ReprNot(e2, t2, w);
        yes := ExprEqNodes(e1.left, t1.below, v.e, e2.left, t2.below, w.e);
      case _ =>
        yes := EqualChains(e1, t1, v, e2, t2, w);
    }
  }

  method EqualChains(e1: Node, ghost t1: Shape, ghost v: Expr, e2: Node, ghost t2: Shape, ghost w: Expr)
    returns (yes: bool)
    requires Repr(e1, t1, v) && Repr(e2, t2, w)
    ensures var r := EliminateEq(v, w);
            yes == (r.0.Sym? && r.0 == r.1)
    decreases Size(v) + Size(w), 1, 1
  {
    hide Repr, Nodes, Size, EliminateEq, EliminateCommon;
    assert allocated(Nodes(t1)) && allocated(Nodes(t2));
    var c1, u1 := CopyNodes(e1, t1, v);
    assert allocated(Nodes(u1));
    var c2, u2 := CopyNodes(e2, t2, w);
    assert allocated(Nodes(u2)) && Nodes(u1) !! Nodes(u2);
    var r1, w1, r2, w2 := EliminateEqNodes(c1, u1, v, c2, u2, w);
    ReprKind(r1, w1, EliminateEq(v, w).0);
    ReprKind(r2, w2, EliminateEq(v, w).1);
    yes := r1.kind == E_SYMBOL && r2.kind == E_SYMBOL && r1.leftSym == r2.leftSym;
  }

  /** What expr_eliminate_eq has after its first elimination, and after its second one. */
  ghost function FirstPass(v: Expr, w: Expr): (r: (Expr, Expr))
    ensures Size(r.0) <= Size(v) && Size(r.1) <= Size(w)
  {
    if IsChain(v) then EliminateCommon(TypeOf(v), v, w) else (v, w)
  }

  ghost function SecondPass(v: Expr, w: Expr): (r: (Expr, Expr))
    ensures Size(r.0) <= Size(v) && Size(r.1) <= Size(w)
  {
    if IsChain(w) && !(IsChain(v) && TypeOf(v) == TypeOf(w)) then EliminateCommon(TypeOf(w), v, w) else (v, w)
  }

  lemma EliminateEqOf(v: Expr, w: Expr)
    ensures var a := FirstPass(v, w);
            var b := SecondPass(a.0, a.1);
            EliminateEq(v, w) == (EliminateYn(b.0), EliminateYn(b.1))
  {
  }

  /** expr_eliminate_eq: *ep1 and *ep2 are the results. */
  method EliminateEqNodes(e1: Node, ghost t1: Shape, ghost v: Expr, e2: Node, ghost t2: Shape, ghost w: Expr)
    returns (r1: Node, ghost u1: Shape, r2: Node, ghost u2: Shape)
    requires Repr(e1, t1, v) && Repr(e2, t2, w) && Nodes(t1) !! Nodes(t2)
    modifies Nodes(t1), Nodes(t2)
    ensures Repr(r1, u1, EliminateEq(v, w).0) && Repr(r2, u2, EliminateEq(v, w).1) && Nodes(u1) !! Nodes(u2)
    ensures forall n :: n in Nodes(u1) ==> n in Nodes(t1) || fresh(n)
    ensures forall n :: n in Nodes(u2) ==> n in Nodes(t2) || fresh(n)
    decreases Size(v) + Size(w), 1, 0
  {
    EliminateEqOf(v, w);
    ghost var a := FirstPass(v, w);
    ghost var b := SecondPass(a.0, a.1);
    ReprKind(e1, t1, v);
    hide ExprEq, EliminateCommon, EliminateEq, EliminateYn, Repr, Nodes, Size;
    r1, u1, r2, u2 := e1, t1, e2, t2;
    if e1.kind == E_AND || e1.kind == E_OR {
      r1, u1, r2, u2 := EliminateCommonNodes(if e1.kind == E_AND then OpAnd else OpOr, e1, t1, v, e2, t2, w);
    }
    hide FirstPass;
    ReprKind(r1, u1, a.0);
    ReprKind(r2, u2, a.1);
    if r1.kind != r2.kind && (r2.kind == E_AND || r2.kind == E_OR) {
      r1, u1, r2, u2 := EliminateCommonNodes(if r2.kind == E_AND then OpAnd else OpOr, r1, u1, a.0, r2, u2, a.1);
    }
    hide SecondPass;
    u1, u2 := FoldBoth(r1, u1, b.0, r2, u2, b.1);
  }

  method FoldBoth(e1: Node, ghost t1: Shape, ghost v: Expr, e2: Node, ghost t2: Shape, ghost w: Expr)
    returns (ghost u1: Shape, ghost u2: Shape)
    requires Repr(e1, t1, v) && Repr(e2, t2, w) && Nodes(t1) !! Nodes(t2)
    modifies Nodes(t1), Nodes(t2)
    ensures Repr(e1, u1, EliminateYn(v)) && Repr(e2, u2, EliminateYn(w))
    ensures Nodes(u1) <= Nodes(t1) && Nodes(u2) <= Nodes(t2)
  {
    hide EliminateYn, Nodes, Repr;
    assert allocated(Nodes(t1)) && allocated(Nodes(t2));
    u1 := EliminateYnNodes(e1, t1, v);
    u2 := EliminateYnNodes(e2, t2, w);
  }

  /** __expr_eliminate_eq. */
  method EliminateCommonNodes(op: Op, e1: Node, ghost t1: Shape, ghost v: Expr, e2: Node, ghost t2: Shape, ghost w: Expr)
    returns (r1: Node, ghost u1: Shape, r2: Node, ghost u2: Shape)
    requires Repr(e1, t1, v) && Repr(e2, t2, w) && Nodes(t1) !! Nodes(t2)
    modifies Nodes(t1), Nodes(t2)
    ensures var r := EliminateCommon(op, v, w);
            Repr(r1, u1, r.0) && Repr(r2, u2, r.1) && Nodes(u1) !! Nodes(u2)
    ensures forall n :: n in Nodes(u1) ==> n in Nodes(t1) || fresh(n)
    ensures forall n :: n in Nodes(u2) ==> n in Nodes(t2) || fresh(n)
    decreases Size(v) + Size(w), if Is(op, v) || Is(op, w) then 0 else 3, 2
  {
    ReprKind(e1, t1, v);
    ReprKind(e2, t2, w);
    CommonOf(op, v, w);
    hide ExprEq, EliminateCommon, Repr, Nodes, Size;
    if e1.kind == KindFor(op) {
      r1, u1, r2, u2 := EliminateFirst(op, e1, t1, v, e2, t2, w);
    } else if e2.kind == KindFor(op) {
      r1, u1, r2, u2 := EliminateSecond(op, e1, t1, v, e2, t2, w);
    } else {
      r1, u1, r2, u2 := e1, t1, e2, t2;
      if e1.kind == E_SYMBOL && e2.kind == E_SYMBOL && e1.leftSym == e2.leftSym && e1.leftSym.IsYN() {
        return;
      }
      assert allocated(Nodes(t1)) && allocated(Nodes(t2));
      var same := ExprEqNodes(e1, t1, v, e2, t2, w);
      if same {
        r1 := new Node.OfSymbol(if op == OpAnd then SymYes else SymNo);
        r2 := new Node.OfSymbol(if op == OpAnd then SymYes else SymNo);
        MakeLeaf(r1);
        MakeLeaf(r2);
        u1, u2 := Leaf(r1), Leaf(r2);
      }
    }
  }

  /** The first chain loses to the second operand: its left operand first, then its right one. */
  method EliminateFirst(op: Op, e1: Node, ghost t1: Shape, ghost v: Expr, e2: Node, ghost t2: Shape, ghost w: Expr)
    returns (r1: Node, ghost u1: Shape, r2: Node, ghost u2: Shape)
    requires Repr(e1, t1, v) && Repr(e2, t2, w) && Nodes(t1) !! Nodes(t2) && Is(op, v)
    modifies Nodes(t1), Nodes(t2)
    ensures var r := EliminateCommon(op, v, w);
            Repr(r1, u1, r.0) && Repr(r2, u2, r.1) && Nodes(u1) !! Nodes(u2)
    ensures forall n :: n in Nodes(u1) ==> n in Nodes(t1) || fresh(n)
    ensures forall n :: n in Nodes(u2) ==> n in Nodes(t2) || fresh(n)
    decreases Size(v) + Size(w), 0, 1
  {
    CommonOf(op, v, w);
    ghost var a := EliminateCommon(op, v.l, w);
    ReprChain(e1, t1, v);
    SizeOf(op, v);
    SizeMk(op, a.0, v.r);
    hide Repr, Nodes, Size, EliminateCommon;
    r2, u1, u2 := FirstLeft(op, e1, t1, v, e2, t2, w);
    r2, u1, u2 := FirstRight(op, e1, u1, Mk(op, a.0, v.r), r2, u2, a.1);
    r1 := e1;
  }

  method FirstLeft(op: Op, e1: Node, ghost t1: Shape, ghost v: Expr, e2: Node, ghost t2: Shape, ghost w: Expr)
    returns (r2: Node, ghost u1: Shape, ghost u2: Shape)
    requires Repr(e1, t1, v) && Repr(e2, t2, w) && Nodes(t1) !! Nodes(t2) && Is(op, v)
    modifies Nodes(t1), Nodes(t2)
    ensures var r := EliminateCommon(op, v.l, w);
            Repr(e1, u1, Mk(op, r.0, v.r)) && Repr(r2, u2, r.1) && Nodes(u1) !! Nodes(u2)
    ensures forall n :: n in Nodes(u1) ==> n in Nodes(t1) || fresh(n)
    ensures forall n :: n in Nodes(u2) ==> n in Nodes(t2) || fresh(n)
    decreases Size(v) + Size(w), 0, 0
  {
    ReprKind(e1, t1, v);
    ReprChain(e1, t1, v);
    SizeOf(op, v);
    ghost var a := EliminateCommon(op, v.l, w);
    hide Repr, Nodes, Size, EliminateCommon;
    assert allocated(Nodes(t1)) && allocated(Nodes(t2));
    var x;
    ghost var l;
    x, l, r2, u2 := EliminateCommonNodes(op, e1.left, t1.l, v.l, e2, t2, w);
    Apart(e1, Nodes(t1.r), Nodes(t1.l), Nodes(t2), Nodes(l), Nodes(u2));
    e1.left := x;
    assert Repr(x, l, a.0) && Repr(e1.right, t1.r, v.r) && Repr(r2, u2, a.1);
    MakeChain(op, e1, l, a.0, t1.r, v.r);
    u1 := Bin(e1, l, t1.r);
  }

  method FirstRight(op: Op, e1: Node, ghost t1: Shape, ghost v: Expr, e2: Node, ghost t2: Shape, ghost w: Expr)
    returns (r2: Node, ghost u1: Shape, ghost u2: Shape)
    requires Repr(e1, t1, v) && Repr(e2, t2, w) && Nodes(t1) !! Nodes(t2) && Is(op, v)
    modifies Nodes(t1), Nodes(t2)
    ensures var r := EliminateCommon(op, v.r, w);
            Repr(e1, u1, Mk(op, v.l, r.0)) && Repr(r2, u2, r.1) && Nodes(u1) !! Nodes(u2)
    ensures forall n :: n in Nodes(u1) ==> n in Nodes(t1) || fresh(n)
    ensures forall n :: n in Nodes(u2) ==> n in Nodes(t2) || fresh(n)
    decreases Size(v) + Size(w), 0, 0
  {
    ReprKind(e1, t1, v);
    ReprChain(e1, t1, v);
    SizeOf(op, v);
    ghost var a := EliminateCommon(op, v.r, w);
    hide Repr, Nodes, Size, EliminateCommon;
    assert allocated(Nodes(t1)) && allocated(Nodes(t2));
    var y;
    ghost var r;
    y, r, r2, u2 := EliminateCommonNodes(op, e1.right, t1.r, v.r, e2, t2, w);
    Apart(e1, Nodes(t1.l), Nodes(t1.r), Nodes(t2), Nodes(r), Nodes(u2));
    e1.right := y;
    assert Repr(y, r, a.0) && Repr(e1.left, t1.l, v.l) && Repr(r2, u2, a.1);
    MakeChain(op, e1, t1.l, v.l, r, a.0);
    u1 := Bin(e1, t1.l, r);
  }

  /** The first operand loses to both operands of the second chain, the left one first. */
  method EliminateSecond(op: Op, e1: Node, ghost t1: Shape, ghost v: Expr, e2: Node, ghost t2: Shape, ghost w: Expr)
    returns (r1: Node, ghost u1: Shape, r2: Node, ghost u2: Shape)
    requires Repr(e1, t1, v) && Repr(e2, t2, w) && Nodes(t1) !! Nodes(t2) && !Is(op, v) && Is(op, w)
    modifies Nodes(t1), Nodes(t2)
    ensures var r := EliminateCommon(op, v, w);
            Repr(r1, u1, r.0) && Repr(r2, u2, r.1) && Nodes(u1) !! Nodes(u2)
    ensures forall n :: n in Nodes(u1) ==> n in Nodes(t1) || fresh(n)
    ensures forall n :: n in Nodes(u2) ==> n in Nodes(t2) || fresh(n)
    decreases Size(v) + Size(w), 0, 1
  {
    CommonOf(op, v, w);
    ghost var a := EliminateCommon(op, v, w.l);
    ReprChain(e2, t2, w);
    SizeOf(op, w);
    SizeMk(op, a.1, w.r);
    hide Repr, Nodes, Size, EliminateCommon;
    r1, u1, u2 := SecondLeft(op, e1, t1, v, e2, t2, w);
    r1, u1, u2 := SecondRight(op, r1, u1, a.0, e2, u2, Mk(op, a.1, w.r));
    r2 := e2;
  }

  method SecondLeft(op: Op, e1: Node, ghost t1: Shape, ghost v: Expr, e2: Node, ghost t2: Shape, ghost w: Expr)
    returns (r1: Node, ghost u1: Shape, ghost u2: Shape)
    requires Repr(e1, t1, v) && Repr(e2, t2, w) && Nodes(t1) !! Nodes(t2) && Is(op, w)
    modifies Nodes(t1), Nodes(t2)
    ensures var r := EliminateCommon(op, v, w.l);
            Repr(r1, u1, r.0) && Repr(e2, u2, Mk(op, r.1, w.r)) && Nodes(u1) !! Nodes(u2)
    ensures forall n :: n in Nodes(u1) ==> n in Nodes(t1) || fresh(n)
    ensures forall n :: n in Nodes(u2) ==> n in Nodes(t2) || fresh(n)
    decreases Size(v) + Size(w), 0, 0
  {
    ReprKind(e2, t2, w);
    ReprChain(e2, t2, w);
    SizeOf(op, w);
    ghost var a := EliminateCommon(op, v, w.l);
    hide Repr, Nodes, Size, EliminateCommon;
    assert allocated(Nodes(t1)) && allocated(Nodes(t2));
    var x;
    ghost var l;
    r1, u1, x, l := EliminateCommonNodes(op, e1, t1, v, e2.left, t2.l, w.l);
    Apart(e2, Nodes(t2.r), Nodes(t2.l), Nodes(t1), Nodes(l), Nodes(u1));
    e2.left := x;
    assert Repr(x, l, a.1) && Repr(e2.right, t2.r, w.r) && Repr(r1, u1, a.0);
    MakeChain(op, e2, l, a.1, t2.r, w.r);
    u2 := Bin(e2, l, t2.r);
  }

  method SecondRight(op: Op, e1: Node, ghost t1: Shape, ghost v: Expr, e2: Node, ghost t2: Shape, ghost w: Expr)
    returns (r1: Node, ghost u1: Shape, ghost u2: Shape)
    requires Repr(e1, t1, v) && Repr(e2, t2, w) && Nodes(t1) !! Nodes(t2) && Is(op, w)
    modifies Nodes(t1), Nodes(t2)
    ensures var r := EliminateCommon(op, v, w.r);
            Repr(r1, u1, r.0) && Repr(e2, u2, Mk(op, w.l, r.1)) && Nodes(u1) !! Nodes(u2)
    ensures forall n :: n in Nodes(u1) ==> n in Nodes(t1) || fresh(n)
    ensures forall n :: n in Nodes(u2) ==> n in Nodes(t2) || fresh(n)
    decreases Size(v) + Size(w), 0, 0
  {
    ReprKind(e2, t2, w);
    ReprChain(e2, t2, w);
    SizeOf(op, w);
    ghost var a := EliminateCommon(op, v, w.r);
    hide Repr, Nodes, Size, EliminateCommon;
    assert allocated(Nodes(t1)) && allocated(Nodes(t2));
    var y;
    ghost var r;
    r1, u1, y, r := EliminateCommonNodes(op, e1, t1, v, e2.right, t2.r, w.r);
    Apart(e2, Nodes(t2.l), Nodes(t2.r), Nodes(t1), Nodes(r), Nodes(u1));
    e2.right := y;
    assert Repr(y, r, a.1) && Repr(e2.left, t2.l, w.l) && Repr(r1, u1, a.0);
    MakeChain(op, e2, t2.l, w.l, r, a.1);
    u2 := Bin(e2, t2.l, r);
  }

  /** What is made of b and c, and new nodes, stays apart from e and from what is kept. */
  lemma Apart(e: Node, keep: set<Node>, b: set<Node>, c: set<Node>, b': set<Node>, c': set<Node>)
    requires e !in keep && e !in b && e !in c && keep !! b && keep !! c && b' !! c'
    requires forall n :: n in b' ==> n in b || (n != e && n !in keep)
    requires forall n :: n in c' ==> n in c || (n != e && n !in keep)
    ensures e !in b' && keep !! b' && keep !! c' && ({e} + b' + keep) !! c'
  {
  }

  lemma CommonOf(op: Op, v: Expr, w: Expr)
    ensures var r := EliminateCommon(op, v, w);
            if Is(op, v) then
              var a := EliminateCommon(op, v.l, w);
              var b := EliminateCommon(op, v.r, a.1);
              r == (Mk(op, a.0, b.0), b.1)
            else if Is(op, w) then
              var a := EliminateCommon(op, v, w.l);
              var b := EliminateCommon(op, a.0, w.r);
              r == (b.0, Mk(op, a.1, b.1))
            else if v.Sym? && v == w && v.s.IsYN() then r == (v, w)
            else if !ExprEq(v, w) then r == (v, w)
            else r == (Neutral(op), Neutral(op))
  {
  }
}
