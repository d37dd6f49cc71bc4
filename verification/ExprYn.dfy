/** expr_eliminate_yn: y and n are dropped from conjunctions and disjunctions. */
module ExprYn {
  import opened KconfigExpr

  predicate IsUnit(op: Op, e: Expr) { e == Symbol(Unit(op)) }

  predicate IsZero(op: Op, e: Expr) { e == Symbol(Zero(op)) }

  /** expr_eliminate_yn: children first, then the left operand, then the right. */
  function EliminateYn(e: Expr): Expr {
    match e
    case Bin(op, l, r) =>
      var l' := EliminateYn(l);
      var r' := EliminateYn(r);
      if IsZero(op, l') then l'
      else if IsUnit(op, l') then r'
      else if IsZero(op, r') then r'
      else if IsUnit(op, r') then l'
      else Bin(op, l', r')
    case _ => e
  }

  /** No operand reachable through && and || is y or n. */
  predicate YnFree(e: Expr) {
    match e
    case Bin(_, l, r) => YnFree(l) && YnFree(r) && !IsYn(l) && !IsYn(r)
    case _ => true
  }

  predicate IsYn(e: Expr) { e == Symbol(Yes) || e == Symbol(No) }

  /** The rewrite keeps the value in every environment, even an inconsistent one. */
  lemma {:induction false} EliminateYnKeepsValue(e: Expr, env: Env)
    requires ConstantsHold(env)
    ensures Val(EliminateYn(e), env) == Val(e, env)
  {
    match e
    case Bin(op, l, r) =>
      EliminateYnKeepsValue(l, env);
      EliminateYnKeepsValue(r, env);
    case _ =>
  }

  lemma {:induction false} EliminateYnComplete(e: Expr)
    ensures YnFree(EliminateYn(e))
  {
    match e
    case Bin(op, l, r) =>
      EliminateYnComplete(l);
      EliminateYnComplete(r);
    case _ =>
  }

  lemma {:induction false} EliminateYnStable(e: Expr)
    requires YnFree(e)
    ensures EliminateYn(e) == e
  {
    match e
    case Bin(op, l, r) =>
      EliminateYnStable(l);
      EliminateYnStable(r);
    case _ =>
  }

  /** The result is no bigger, and smaller exactly when something was dropped. */
  lemma {:induction false} EliminateYnSize(e: Expr)
    ensures Size(EliminateYn(e)) <= Size(e)
    ensures Size(EliminateYn(e)) == Size(e) <==> YnFree(e)
  {
    match e
    case Bin(op, l, r) =>
      EliminateYnSize(l);
      EliminateYnSize(r);
      if YnFree(l) { EliminateYnStable(l); }
      if YnFree(r) { EliminateYnStable(r); }
    case _ =>
  }
}
