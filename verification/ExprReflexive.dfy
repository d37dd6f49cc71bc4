/**
 * expr_eq accepts every expression against itself (kconfig/expr.c:189-229): the operands of
 * both copies are cancelled pairwise, from left to right.
 */
module ExprReflexive {
  import opened KconfigExpr
  import opened ExprYn
  import opened ExprEquality
  import opened ExprRegion

  /** A chain with all its operands but y and n cancelled. */
  function Blank(op: Op, e: Expr): Expr {
    if IsOp(op, e) then Bin(op, Blank(op, e.left), Blank(op, e.right))
    else if IsYn(e) then e
    else Symbol(Unit(op))
  }

  predicate AllYn(op: Op, e: Expr) {
    if IsOp(op, e) then AllYn(op, e.left) && AllYn(op, e.right) else IsYn(e)
  }

  /** Everything in front of the slot is y or n. */
  predicate FirstLive(op: Op, e: Expr, p: Slot)
    requires InRegion(op, e, p)
  {
    p == [] ||
    if p[0] == L then FirstLive(op, e.left, p[1..])
    else AllYn(op, e.left) && FirstLive(op, e.right, p[1..])
  }

  lemma {:induction false} BlankIsYn(op: Op, e: Expr)
    ensures AllYn(op, Blank(op, e))
  {
    if IsOp(op, e) {
      BlankIsYn(op, e.left);
      BlankIsYn(op, e.right);
    }
  }

  lemma {:induction false} AllYnEliminated(op: Op, e: Expr)
    requires AllYn(op, e)
    ensures IsYn(EliminateYn(e))
  {
    if IsOp(op, e) {
      AllYnEliminated(op, e.left);
      AllYnEliminated(op, e.right);
    }
  }

  // ---- what does not cancel

  lemma {:induction false} YnCancels(op: Op, y: Expr, e: Expr)
    requires IsYn(y)
    ensures Cancel(op, y, e).e1 == y && Cancel(op, y, e).e2 == e
  {
    if IsOp(op, e) {
      YnCancels(op, y, e.left);
      YnCancels(op, y, e.right);
    }
  }

  lemma {:induction false} AllYnCancels(op: Op, x: Expr, e: Expr)
    requires !IsOp(op, x) && AllYn(op, e)
    ensures Cancel(op, x, e).e1 == x && Cancel(op, x, e).e2 == e
  {
    if IsOp(op, e) {
      AllYnCancels(op, x, e.left);
      AllYnCancels(op, x, e.right);
    }
  }

  // ---- what does

  /** An operand cancels the first occurrence of itself and nothing else. */
  lemma {:induction false} LeafCancels(op: Op, e: Expr, p: Slot)
    requires RegionLeaf(op, e, p) && FirstLive(op, e, p) && ExprEq(At(op, e, p), At(op, e, p))
    ensures var x := At(op, e, p); var r := Cancel(op, x, e);
      r.e1 == Blank(op, x) && r.e2 == Put(op, e, p, Blank(op, x))
  {
    var x := At(op, e, p);
    hide ExprEq;
    if p == [] {
    } else if p[0] == L {
      LeafCancels(op, e.left, p[1..]);
      YnCancels(op, Blank(op, x), e.right);
    } else {
      AllYnCancels(op, x, e.left);
      LeafCancels(op, e.right, p[1..]);
    }
  }

  lemma {:induction false} FirstLeft(op: Op, e: Expr, p: Slot)
    requires InRegion(op, e, p) && FirstLive(op, e, p) && IsOp(op, At(op, e, p))
    ensures InRegion(op, e, p + [L]) && FirstLive(op, e, p + [L]) && At(op, e, p + [L]) == At(op, e, p).left
  {
    if p != [] {
      FirstLeft(op, Child(e, p[0]), p[1..]);
      assert (p + [L])[1..] == p[1..] + [L];
    }
  }

  lemma {:induction false} FirstRight(op: Op, e: Expr, p: Slot, l: Expr)
    requires InRegion(op, e, p) && FirstLive(op, e, p) && IsOp(op, At(op, e, p)) && AllYn(op, l)
    requires InRegion(op, e, p + [L])
    ensures var e' := Put(op, e, p + [L], l);
      InRegion(op, e', p + [R]) && FirstLive(op, e', p + [R]) && At(op, e', p + [R]) == At(op, e, p).right
  {
    if p != [] {
      assert (p + [L])[1..] == p[1..] + [L] && (p + [R])[1..] == p[1..] + [R];
      FirstRight(op, Child(e, p[0]), p[1..], l);
    }
  }

  lemma {:induction false} PutBoth(op: Op, e: Expr, p: Slot, l: Expr, r: Expr)
    requires InRegion(op, e, p) && IsOp(op, At(op, e, p))
    requires InRegion(op, e, p + [L]) && InRegion(op, Put(op, e, p + [L], l), p + [R])
    ensures Put(op, Put(op, e, p + [L], l), p + [R], r) == Put(op, e, p, Bin(op, l, r))
  {
    if p != [] {
      assert (p + [L])[1..] == p[1..] + [L] && (p + [R])[1..] == p[1..] + [R];
      PutBoth(op, Child(e, p[0]), p[1..], l, r);
    }
  }

  /** A part of a chain cancels itself where it stands, if all in front of it has been cancelled. */
  lemma {:induction false} SelfCancels(op: Op, e: Expr, p: Slot)
    requires InRegion(op, e, p) && FirstLive(op, e, p)
    ensures var x := At(op, e, p); var r := Cancel(op, x, e);
      r.e1 == Blank(op, x) && r.e2 == Put(op, e, p, Blank(op, x))
    decreases Size(At(op, e, p)), if IsOp(op, At(op, e, p)) then 0 else 2
  {
    var x := At(op, e, p);
    hide ExprEq;
    if IsOp(op, x) {
      var l, r := Blank(op, x.left), Blank(op, x.right);
      FirstLeft(op, e, p);
      SelfCancels(op, e, p + [L]);
      BlankIsYn(op, x.left);
      FirstRight(op, e, p, l);
      SelfCancels(op, Put(op, e, p + [L], l), p + [R]);
      PutBoth(op, e, p, l, r);
    } else {
      ExprEqReflexive(x);
      LeafCancels(op, e, p);
    }
  }

  /** expr_eq accepts every expression against itself. */
  lemma {:induction false} ExprEqReflexive(e: Expr)
    ensures ExprEq(e, e)
    decreases Size(e), 1
  {
    match e
    case Bin(op, _, _) =>
      SelfCancels(op, e, []);
      BlankIsYn(op, e);
      AllYnEliminated(op, Blank(op, e));
    case Not(a) => ExprEqReflexive(a);
    case _ =>
  }
}
