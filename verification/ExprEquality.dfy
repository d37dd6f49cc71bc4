/**
 * expr_eq and expr_eliminate_eq (kconfig/expr.c:130-229): structural equality
 * up to associativity, commutativity and duplicated common operands, decided
 * by cancelling operands of two private copies against each other.
 */
module ExprEquality {
  import opened KconfigExpr
  import opened ExprYn

  predicate IsOp(op: Op, e: Expr) { e.Bin? && e.op == op }

  /** What is left of the two trees, and how often trans_count was raised. */
  datatype Cancelled = Cancelled(e1: Expr, e2: Expr, count: nat)

  /** __expr_eliminate_eq */
  function Cancel(op: Op, e1: Expr, e2: Expr): (r: Cancelled)
    ensures Size(r.e1) <= Size(e1) && Size(r.e2) <= Size(e2)
    decreases Size(e1) + Size(e2), if IsOp(op, e1) || IsOp(op, e2) then 0 else 3, 1
  {
    if IsOp(op, e1) then CancelLeft(op, e1, e2)
    else if IsOp(op, e2) then CancelRight(op, e1, e2)
    else if e1 == e2 && IsYn(e1) then Cancelled(e1, e2, 0)
    else if !ExprEq(e1, e2) then Cancelled(e1, e2, 0)
    else Cancelled(Symbol(Unit(op)), Symbol(Unit(op)), 1)
  }

  function CancelLeft(op: Op, e1: Expr, e2: Expr): (r: Cancelled)
    requires IsOp(op, e1)
    ensures Size(r.e1) <= Size(e1) && Size(r.e2) <= Size(e2)
    decreases Size(e1) + Size(e2), 0, 0
  {
    var a := Cancel(op, e1.left, e2);
    var b := Cancel(op, e1.right, a.e2);
    Cancelled(Bin(op, a.e1, b.e1), b.e2, a.count + b.count)
  }

  function CancelRight(op: Op, e1: Expr, e2: Expr): (r: Cancelled)
    requires IsOp(op, e2)
    ensures Size(r.e1) <= Size(e1) && Size(r.e2) <= Size(e2)
    decreases Size(e1) + Size(e2), 0, 0
  {
    var a := Cancel(op, e1, e2.left);
    var b := Cancel(op, a.e1, e2.right);
    Cancelled(b.e1, Bin(op, a.e2, b.e2), a.count + b.count)
  }

  /** expr_eliminate_eq on two non-null expressions. */
  function EliminateEq(e1: Expr, e2: Expr): (r: Cancelled)
    decreases Size(e1) + Size(e2), 1
  {
    var a := if e1.Bin? then Cancel(e1.op, e1, e2) else Cancelled(e1, e2, 0);
    var b :=
      if a.e2.Bin? && !IsOp(a.e2.op, a.e1) then Cancel(a.e2.op, a.e1, a.e2)
      else Cancelled(a.e1, a.e2, 0);
    Cancelled(EliminateYn(b.e1), EliminateYn(b.e2), a.count + b.count)
  }

  /** expr_eq; trans_count is saved and restored around it. */
  predicate ExprEq(e1: Expr, e2: Expr)
    decreases Size(e1) + Size(e2), 2
  {
    match (e1, e2)
    case (Equal(_, _), Equal(_, _)) => e1 == e2
    case (Unequal(_, _), Unequal(_, _)) => e1 == e2
    case (Symbol(_), Symbol(_)) => e1 == e2
    case (Not(a), Not(b)) => ExprEq(a, b)
    case (Bin(op1, _, _), Bin(op2, _, _)) =>
      if op1 != op2 then false
      else
        var r := EliminateEq(e1, e2);
        r.e1.Symbol? && r.e1 == r.e2
    case _ => false
  }

  /** The operands that one cancellation pass removes from both trees, joined by op. */
  ghost function Common(op: Op, e1: Expr, e2: Expr): Expr
    decreases Size(e1) + Size(e2)
  {
    if IsOp(op, e1) then
      Bin(op, Common(op, e1.left, e2), Common(op, e1.right, Cancel(op, e1.left, e2).e2))
    else if IsOp(op, e2) then
      Bin(op, Common(op, e1, e2.left), Common(op, Cancel(op, e1, e2.left).e1, e2.right))
    else if (e1 == e2 && IsYn(e1)) || !ExprEq(e1, e2) then Symbol(Unit(op))
    else e1
  }

  /**
   * One cancellation pass splits both trees as common operand and remainder:
   * old e1 = C op new e1 and old e2 = C op new e2, in every environment.
   */
  lemma {:induction false} CancelFactors(op: Op, e1: Expr, e2: Expr, env: Env)
    requires ConstantsHold(env)
    ensures var r := Cancel(op, e1, e2); var c := Val(Common(op, e1, e2), env);
      && Val(e1, env) == Apply(op, c, Val(r.e1, env))
      && Val(e2, env) == Apply(op, c, Val(r.e2, env))
    decreases Size(e1) + Size(e2), if IsOp(op, e1) || IsOp(op, e2) then 0 else 3
  {
    var r := Cancel(op, e1, e2);
    if IsOp(op, e1) {
      var a := Cancel(op, e1.left, e2);
      var b := Cancel(op, e1.right, a.e2);
      CancelFactors(op, e1.left, e2, env);
      CancelFactors(op, e1.right, a.e2, env);
      var c, d := Common(op, e1.left, e2), Common(op, e1.right, a.e2);
      ApplyRegroup(op, Val(c, env), Val(a.e1, env), Val(d, env), Val(b.e1, env));
      ApplyRegroup(op, Val(c, env), NO, Val(d, env), Val(b.e2, env));
      ValOfBin(op, e1.left, e1.right, env);
      ValOfBin(op, a.e1, b.e1, env);
      ValOfBin(op, c, d, env);
    } else if IsOp(op, e2) {
      var a := Cancel(op, e1, e2.left);
      var b := Cancel(op, a.e1, e2.right);
      CancelFactors(op, e1, e2.left, env);
      CancelFactors(op, a.e1, e2.right, env);
      var c, d := Common(op, e1, e2.left), Common(op, a.e1, e2.right);
      ApplyRegroup(op, Val(c, env), Val(a.e2, env), Val(d, env), Val(b.e2, env));
      ApplyRegroup(op, Val(c, env), NO, Val(d, env), Val(b.e1, env));
      ValOfBin(op, e2.left, e2.right, env);
      ValOfBin(op, a.e2, b.e2, env);
      ValOfBin(op, c, d, env);
    } else if ExprEq(e1, e2) {
      ExprEqSound(e1, e2, env);
    }
  }

  /** If both trees leave the same rest, they have the same value everywhere. */
  lemma {:induction false} SameRestSameValue(e1: Expr, e2: Expr, env: Env)
    requires ConstantsHold(env)
    requires EliminateEq(e1, e2).e1 == EliminateEq(e1, e2).e2
    ensures Val(e1, env) == Val(e2, env)
    decreases Size(e1) + Size(e2), 1
  {
    var a := if e1.Bin? then Cancel(e1.op, e1, e2) else Cancelled(e1, e2, 0);
    var b :=
      if a.e2.Bin? && !IsOp(a.e2.op, a.e1) then Cancel(a.e2.op, a.e1, a.e2)
      else Cancelled(a.e1, a.e2, 0);
    EliminateYnKeepsValue(b.e1, env);
    EliminateYnKeepsValue(b.e2, env);
    if a.e2.Bin? && !IsOp(a.e2.op, a.e1) { CancelFactors(a.e2.op, a.e1, a.e2, env); }
    assert Val(a.e1, env) == Val(a.e2, env);
    if e1.Bin? { CancelFactors(e1.op, e1, e2, env); }
  }

  /** Expressions that expr_eq accepts have the same value everywhere. */
  lemma {:induction false} ExprEqSound(e1: Expr, e2: Expr, env: Env)
    requires ConstantsHold(env) && ExprEq(e1, e2)
    ensures Val(e1, env) == Val(e2, env)
    decreases Size(e1) + Size(e2), 2
  {
    match (e1, e2)
    case (Not(a), Not(b)) => ExprEqSound(a, b, env);
    case (Bin(_, _, _), Bin(_, _, _)) => SameRestSameValue(e1, e2, env);
    case _ =>
  }

  /**
   * If cancelling against e2 leaves nothing of e2, then e1 implies e2: the
   * order of both phases and all four operator combinations are covered.
   */
  lemma {:induction false} CancelledImplies(e1: Expr, e2: Expr, env: Env)
    requires ConstantsHold(env)
    requires EliminateEq(e1, e2).e2 == Symbol(Yes)
    ensures Val(e1, env) <= Val(e2, env)
  {
    var a := if e1.Bin? then Cancel(e1.op, e1, e2) else Cancelled(e1, e2, 0);
    var b :=
      if a.e2.Bin? && !IsOp(a.e2.op, a.e1) then Cancel(a.e2.op, a.e1, a.e2)
      else Cancelled(a.e1, a.e2, 0);
    EliminateYnKeepsValue(b.e2, env);
    if a.e2.Bin? && !IsOp(a.e2.op, a.e1) { CancelFactors(a.e2.op, a.e1, a.e2, env); }
    assert Val(a.e1, env) <= Val(a.e2, env);
    if e1.Bin? { CancelFactors(e1.op, e1, e2, env); }
  }
}
