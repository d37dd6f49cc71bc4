/**
 * expr_transform (kconfig/expr.c:636-771): comparisons of boolean symbols
 * become the symbol or its negation, and NOT moves down to the symbols.
 */
module ExprTransform {
  import opened KconfigExpr

  /** The weight that pays for the repeated self-calls: it doubles at NOT. */
  function Weight(e: Expr): (n: nat)
    ensures n >= 1
  {
    match e
    case Bin(_, l, r) => 1 + Weight(l) + Weight(r)
    case Not(a) => 2 * Weight(a)
    case Symbol(_) => 1
    case _ => 2
  }

  /** The E_EQUAL and E_UNEQUAL cases. */
  function TransformCompare(e: Expr): (r: Expr)
    requires e.Equal? || e.Unequal?
    ensures Weight(r) <= Weight(e)
  {
    if e.lhs.Type() != SBoolean then e
    else if e.rhs == Mod then Symbol(if e.Equal? then No else Yes)
    else if e.rhs == (if e.Equal? then Yes else No) then Symbol(e.lhs)
    else if e.rhs == (if e.Equal? then No else Yes) then Not(Symbol(e.lhs))
    else e
  }

  lemma DeMorganWeight(op: Op, l: Expr, r: Expr)
    ensures Weight(Bin(Dual(op), Not(l), Not(r))) + 1 == 2 * Weight(Bin(op, l, r))
  {
    assert Weight(Not(l)) == 2 * Weight(l) && Weight(Not(r)) == 2 * Weight(r);
  }

  /** expr_transform: children first, then the node, then again what the node became. */
  function Transform(e: Expr): (r: Expr)
    ensures Weight(r) <= Weight(e)
    decreases Weight(e), Size(e)
  {
    match e
    case Equal(_, _) => TransformCompare(e)
    case Unequal(_, _) => TransformCompare(e)
    case Symbol(_) => e
    case Bin(op, l, r) => Bin(op, Transform(l), Transform(r))
    case Not(x) => TransformNot(Transform(x))
  }

  /** The E_NOT case, once the operand has been transformed. */
  function TransformNot(a: Expr): (r: Expr)
    ensures Weight(r) <= 2 * Weight(a)
    decreases 2 * Weight(a), 0
  {
    match a
    case Not(b) => Transform(b)
    case Equal(s, t) => Unequal(s, t)
    case Unequal(s, t) => Equal(s, t)
    case Bin(op, l, r) =>
      DeMorganWeight(op, l, r);
      Transform(Bin(Dual(op), Not(l), Not(r)))
    case Symbol(Yes) => Symbol(No)
    case Symbol(Mod) => Symbol(Mod)
    case Symbol(No) => Symbol(Yes)
    case Symbol(_) => Not(a)
  }

  /** A comparison that the rewrite would still touch. */
  predicate Reducible(e: Expr) {
    (e.Equal? || e.Unequal?) && e.lhs.Type() == SBoolean && e.rhs in {Yes, Mod, No}
  }

  /** NOT stands only directly above named symbols; no boolean comparison is left. */
  predicate Normal(e: Expr) {
    match e
    case Bin(_, l, r) => Normal(l) && Normal(r)
    case Not(a) => a.Symbol? && a.sym.Named?
    case _ => !Reducible(e)
  }

  lemma TransformCompareKeepsValue(e: Expr, env: Env)
    requires e.Equal? || e.Unequal?
    requires Consistent(env)
    ensures Val(TransformCompare(e), env) == Val(e, env)
  {
    if e.lhs.Type() == SBoolean {
      StringOfTristate(env, e.lhs);
      assert env.tri(e.lhs) != MOD;
    }
  }

  lemma DeMorganValue(op: Op, l: Expr, r: Expr, env: Env)
    ensures Val(Bin(Dual(op), Not(l), Not(r)), env) == Val(Not(Bin(op, l, r)), env)
  {
    assert Val(Not(l), env) == 2 - Val(l, env) && Val(Not(r), env) == 2 - Val(r, env);
  }

  /** The rewrite keeps the value in every consistent three-valued environment. */
  lemma {:induction false} TransformKeepsValue(e: Expr, env: Env)
    requires Consistent(env)
    ensures Val(Transform(e), env) == Val(e, env)
    decreases Weight(e), Size(e)
  {
    match e
    case Equal(_, _) => TransformCompareKeepsValue(e, env);
    case Unequal(_, _) => TransformCompareKeepsValue(e, env);
    case Symbol(_) =>
    case Bin(op, l, r) =>
      TransformKeepsValue(l, env);
      TransformKeepsValue(r, env);
    case Not(x) =>
      TransformKeepsValue(x, env);
      var a := Transform(x);
      match a {
        case Not(b) => TransformKeepsValue(b, env);
        case Bin(op, l, r) =>
          DeMorganWeight(op, l, r);
          DeMorganValue(op, l, r, env);
          TransformKeepsValue(Bin(Dual(op), Not(l), Not(r)), env);
        case _ =>
      }
  }

  lemma {:induction false} TransformNormal(e: Expr)
    ensures Normal(Transform(e))
    decreases Weight(e), Size(e)
  {
    match e
    case Bin(op, l, r) =>
      TransformNormal(l);
      TransformNormal(r);
    case Not(x) =>
      TransformNormal(x);
      var a := Transform(x);
      match a {
        case Not(b) => TransformNormal(b);
        case Bin(op, l, r) =>
          DeMorganWeight(op, l, r);
          TransformNormal(Bin(Dual(op), Not(l), Not(r)));
        case _ =>
      }
    case _ =>
  }

  lemma {:induction false} TransformFixesNormal(e: Expr)
    requires Normal(e)
    ensures Transform(e) == e
  {
    match e
    case Bin(op, l, r) =>
      TransformFixesNormal(l);
      TransformFixesNormal(r);
    case _ =>
  }

  /** A second run changes nothing, and Normal describes exactly the fixed points. */
  lemma TransformIdempotent(e: Expr)
    ensures Transform(Transform(e)) == Transform(e)
    ensures Transform(e) == e <==> Normal(e)
  {
    TransformNormal(e);
    TransformFixesNormal(Transform(e));
    if Normal(e) { TransformFixesNormal(e); }
  }
}
