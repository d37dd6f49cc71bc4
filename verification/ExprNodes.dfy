/**
 * struct expr as heap nodes, and the functions of kconfig/expr.c that rewrite
 * such nodes in place. Every method is proved against the function on trees of
 * the same name. Node freeing is not modelled: a node that drops out of a tree
 * is merely no longer in its footprint.
 */
module ExprNodes {
  import opened KconfigExpr
  import opened ExprYn
  import opened ExprTransform

  datatype Kind = EBin(op: Op) | ENot | EEqual | EUnequal | ESymbol

  class Node {
    var kind: Kind
    var left: Node?
    var right: Node?
    var lsym: Sym
    var rsym: Sym
    /** The tree below this node, and the nodes it is made of. */
    ghost var expr: Expr
    ghost var repr: set<Node>

    ghost predicate Valid()
      reads this, repr
      ensures Valid() ==> this in repr
      decreases repr
    {
      this in repr &&
      (kind.EBin? || kind.ENot? ==>
        left != null && left in repr && left.repr <= repr && this !in left.repr && left.Valid()) &&
      (kind.EBin? ==>
        right != null && right in repr && right.repr <= repr && this !in right.repr && right.Valid() &&
        left.repr !! right.repr) &&
      expr == match kind
        case EBin(op) => Bin(op, left.expr, right.expr)
        case ENot => Not(left.expr)
        case EEqual => Equal(lsym, rsym)
        case EUnequal => Unequal(lsym, rsym)
        case ESymbol => Symbol(lsym)
    }

    constructor Leaf(s: Sym)
      ensures Valid() && fresh(repr) && expr == Symbol(s)
    {
      kind, left, right, lsym, rsym := ESymbol, null, null, s, No;
      expr, repr := Symbol(s), {this};
    }

    constructor One(child: Node)
      requires child.Valid()
      ensures Valid() && repr == {this} + child.repr && expr == Not(child.expr)
    {
      kind, left, right, lsym, rsym := ENot, child, null, No, No;
      expr, repr := Not(child.expr), {this} + child.repr;
    }

    constructor Two(op: Op, l: Node, r: Node)
      requires l.Valid() && r.Valid() && l.repr !! r.repr
      ensures Valid() && repr == {this} + l.repr + r.repr && expr == Bin(op, l.expr, r.expr)
    {
      kind, left, right, lsym, rsym := EBin(op), l, r, No, No;
      expr, repr := Bin(op, l.expr, r.expr), {this} + l.repr + r.repr;
    }

    constructor Compare(k: Kind, s: Sym, t: Sym)
      requires k == EEqual || k == EUnequal
      ensures Valid() && fresh(repr) && expr == if k == EEqual then Equal(s, t) else Unequal(s, t)
    {
      kind, left, right, lsym, rsym := k, null, null, s, t;
      expr, repr := if k == EEqual then Equal(s, t) else Unequal(s, t), {this};
    }

    /** What the two slots of an operator node hold from now on. */
    method SetOperands(l: Node, r: Node)
      requires kind.EBin? && l.Valid() && r.Valid() && l.repr !! r.repr && this !in l.repr + r.repr
      modifies this
      ensures Valid() && expr == Bin(old(kind).op, l.expr, r.expr) && repr == {this} + l.repr + r.repr
    {
      left, right := l, r;
      expr, repr := Bin(kind.op, l.expr, r.expr), {this} + l.repr + r.repr;
    }

    /** Bring the ghost view of an operator node up to date with its operands. */
    ghost method Refresh()
      requires kind.EBin? && left != null && right != null
      requires left.Valid() && right.Valid() && left.repr !! right.repr && this !in left.repr + right.repr
      modifies this`expr, this`repr
      ensures Valid() && expr == Bin(kind.op, left.expr, right.expr)
      ensures repr == {this} + left.repr + right.repr
      ensures left.expr == old(left.expr) && left.repr == old(left.repr)
      ensures right.expr == old(right.expr) && right.repr == old(right.repr)
    {
      expr, repr := Bin(kind.op, left.expr, right.expr), {this} + left.repr + right.repr;
    }

    /** e->type = E_NOT above a new node for the left symbol. */
    method BecomeNot()
      modifies this
      ensures Valid() && expr == Not(Symbol(old(lsym))) && fresh(repr - {this})
    {
      var n := new Node.Leaf(lsym);
      kind, left, right := ENot, n, null;
      expr, repr := Not(n.expr), {this} + n.repr;
    }

    /** *e = *(child), where the child then leaves the tree. */
    method Become(child: Node)
      requires child.Valid() && this !in child.repr
      modifies this
      ensures Valid() && expr == child.expr && repr == child.repr - {child} + {this}
    {
      kind, left, right, lsym, rsym := child.kind, child.left, child.right, child.lsym, child.rsym;
      expr, repr := child.expr, child.repr - {child} + {this};
    }

    method BecomeSymbol(s: Sym)
      modifies this
      ensures Valid() && expr == Symbol(s) && repr == {this}
    {
      kind, lsym, right := ESymbol, s, null;
      expr, repr := Symbol(s), {this};
    }
  }

  /** expr_eliminate_yn */
  method EliminateYnNodes(e: Node)
    requires e.Valid()
    modifies e.repr
    ensures e.Valid() && e.repr <= old(e.repr)
    ensures e.expr == EliminateYn(old(e.expr))
    decreases e.expr
  {
    match e.kind
    case EBin(op) =>
      EliminateYnNodes(e.left);
      EliminateYnNodes(e.right);
      e.expr, e.repr := Bin(op, e.left.expr, e.right.expr), {e} + e.left.repr + e.right.repr;
      if e.left.kind == ESymbol {
        if e.left.lsym == Zero(op) {
          e.BecomeSymbol(Zero(op));
          return;
        } else if e.left.lsym == Unit(op) {
          e.Become(e.right);
          return;
        }
      }
      if e.right.kind == ESymbol {
        if e.right.lsym == Zero(op) {
          e.BecomeSymbol(Zero(op));
          return;
        } else if e.right.lsym == Unit(op) {
          e.Become(e.left);
          return;
        }
      }
    case _ =>
  }

  /** expr_copy */
  method CopyNodes(e: Node) returns (c: Node)
    requires e.Valid()
    ensures c.Valid() && fresh(c.repr) && c.expr == e.expr
    decreases e.expr
  {
    if e.kind.EBin? {
      var l := CopyNodes(e.left);
      var r := CopyNodes(e.right);
      c := new Node.Two(e.kind.op, l, r);
    } else if e.kind == ENot {
      var l := CopyNodes(e.left);
      c := new Node.One(l);
    } else if e.kind == ESymbol {
      c := new Node.Leaf(e.lsym);
    } else {
      c := new Node.Compare(e.kind, e.lsym, e.rsym);
    }
  }

  /** expr_transform; the node that stands for the result is returned. */
  method TransformNodes(e: Node) returns (r: Node)
    requires e.Valid()
    modifies e.repr
    ensures r.Valid() && fresh(r.repr - old(e.repr))
    ensures r.expr == Transform(old(e.expr))
    decreases Weight(e.expr), Size(e.expr)
  {
    r := e;
    match e.kind
    case EBin(op) =>
      var a := TransformNodes(e.left);
      assert e.right.Valid() && e.right.expr == old(e.expr.right) && e.right.repr !! a.repr;
      var b := TransformNodes(e.right);
      e.SetOperands(a, b);
    case EEqual => TransformCompareNodes(e);
    case EUnequal => TransformCompareNodes(e);
    case ENot =>
      var a := TransformNodes(e.left);
      e.left := a;
      e.expr, e.repr := Not(a.expr), {e} + a.repr;
      r := TransformNotNodes(e);
    case ESymbol =>
  }

  /** The E_EQUAL and E_UNEQUAL cases of expr_transform. */
  method TransformCompareNodes(e: Node)
    requires e.Valid() && (e.kind == EEqual || e.kind == EUnequal)
    modifies e
    ensures e.Valid() && fresh(e.repr - old(e.repr)) && e.expr == TransformCompare(old(e.expr))
  {
    if e.lsym.Type() != SBoolean { return; }
    if e.kind == EEqual {
      if e.rsym == No { e.BecomeNot(); }
      else if e.rsym == Mod { e.BecomeSymbol(No); }
      else if e.rsym == Yes { e.BecomeSymbol(e.lsym); }
    } else {
      if e.rsym == No { e.BecomeSymbol(e.lsym); }
      else if e.rsym == Mod { e.BecomeSymbol(Yes); }
      else if e.rsym == Yes { e.BecomeNot(); }
    }
  }

  /** The E_NOT case of expr_transform, below the call on the operand. */
  method TransformNotNodes(e: Node) returns (r: Node)
    requires e.Valid() && e.kind == ENot
    modifies e.repr
    ensures r.Valid() && fresh(r.repr - old(e.repr))
    ensures r.expr == TransformNot(old(e.expr.arg))
    decreases Weight(e.expr), 0
  {
    var a := e.left;
    r := e;
    if a.kind == ENot {
      assert Weight(a.expr) == 2 * Weight(a.left.expr);
      r := TransformNodes(a.left);
    } else if a.kind == EEqual {
      a.kind, a.expr := EUnequal, Unequal(a.lsym, a.rsym);
      r := a;
    } else if a.kind == EUnequal {
      a.kind, a.expr := EEqual, Equal(a.lsym, a.rsym);
      r := a;
    } else if a.kind.EBin? {
      DeMorganWeight(a.kind.op, a.left.expr, a.right.expr);
      PushNot(e);
      r := TransformNodes(e);
    } else if a.lsym == Yes {
      a.BecomeSymbol(No);
      r := a;
    } else if a.lsym == Mod {
      a.BecomeSymbol(Mod);
      r := a;
    } else if a.lsym == No {
      a.BecomeSymbol(Yes);
      r := a;
    }
  }

  /** !(a || b) -> !a && !b, and the dual: one new node, the old operator node becomes the first NOT. */
  method PushNot(e: Node)
    requires e.Valid() && e.expr.Not? && e.expr.arg.Bin?
    modifies e.repr
    ensures e.Valid() && fresh(e.repr - old(e.repr))
    ensures var x := old(e.expr.arg); e.expr == Bin(Dual(x.op), Not(x.left), Not(x.right))
  {
    var a := e.left;
    var l := a.left;
    var op := a.kind.op;
    var n := new Node.One(a.right);
    e.kind, e.right := EBin(Dual(op)), n;
    a.kind, a.right := ENot, null;
    a.expr, a.repr := Not(l.expr), {a} + l.repr;
    e.expr, e.repr := Bin(Dual(op), a.expr, n.expr), {e} + a.repr + n.repr;
  }
}
