/** expr_extract_eq (kconfig/expr.c:826-872): operands common to two trees move out of both. */
module ExprExtract {
  import opened KconfigExpr
  import opened ExprYn
  import opened ExprEquality
  import opened ExprTransform

  datatype Collected = Nothing | Found(common: Expr)

  datatype Extracted = Extracted(acc: Collected, e1: Expr, e2: Expr)

  /** expr_extract_eq; acc is *ep. */
  function ExtractEq(op: Op, acc: Collected, e1: Expr, e2: Expr): (r: Extracted)
    ensures Size(r.e1) <= Size(e1) && Size(r.e2) <= Size(e2)
    decreases Size(e1) + Size(e2), 1
  {
    if IsOp(op, e1) then ExtractLeft(op, acc, e1, e2)
    else if IsOp(op, e2) then ExtractRight(op, acc, e1, e2)
    else if ExprEq(e1, e2) then
      var u := Symbol(Unit(op));
      Extracted(Found(if acc.Found? then Bin(op, acc.common, e1) else e1), u, u)
    else
      Extracted(acc, e1, e2)
  }

  function ExtractLeft(op: Op, acc: Collected, e1: Expr, e2: Expr): (r: Extracted)
    requires IsOp(op, e1)
    ensures Size(r.e1) <= Size(e1) && Size(r.e2) <= Size(e2)
    decreases Size(e1) + Size(e2), 0
  {
    var a := ExtractEq(op, acc, e1.left, e2);
    var b := ExtractEq(op, a.acc, e1.right, a.e2);
    Extracted(b.acc, Bin(op, a.e1, b.e1), b.e2)
  }

  function ExtractRight(op: Op, acc: Collected, e1: Expr, e2: Expr): (r: Extracted)
    requires IsOp(op, e2)
    ensures Size(r.e1) <= Size(e1) && Size(r.e2) <= Size(e2)
    decreases Size(e1) + Size(e2), 0
  {
    var a := ExtractEq(op, acc, e1, e2.left);
    var b := ExtractEq(op, a.acc, a.e1, e2.right);
    Extracted(b.acc, b.e1, Bin(op, a.e2, b.e2))
  }

  /** expr_extract_eq_and and expr_extract_eq_or */
  function ExtractEqTop(op: Op, e1: Expr, e2: Expr): Extracted {
    var r := ExtractEq(op, Nothing, e1, e2);
    if r.acc.Found? then Extracted(r.acc, EliminateYn(r.e1), EliminateYn(r.e2)) else r
  }

  function CollectedVal(op: Op, acc: Collected, env: Env): Tri {
    match acc
    case Nothing => if op == And then YES else NO
    case Found(c) => Val(c, env)
  }

  /** What is collected and what remains make up both trees again. */
  lemma {:induction false} ExtractEqSplits(op: Op, acc: Collected, e1: Expr, e2: Expr, env: Env)
    requires ConstantsHold(env)
    ensures var r := ExtractEq(op, acc, e1, e2); var c0, c := CollectedVal(op, acc, env), CollectedVal(op, r.acc, env);
      && Apply(op, Val(e1, env), c0) == Apply(op, Val(r.e1, env), c)
      && Apply(op, Val(e2, env), c0) == Apply(op, Val(r.e2, env), c)
    decreases Size(e1) + Size(e2)
  {
    var c0 := CollectedVal(op, acc, env);
    if IsOp(op, e1) {
      var a := ExtractEq(op, acc, e1.left, e2);
      var b := ExtractEq(op, a.acc, e1.right, a.e2);
      ExtractEqSplits(op, acc, e1.left, e2, env);
      ExtractEqSplits(op, a.acc, e1.right, a.e2, env);
      SplitStep(op, Val(e1.left, env), Val(e1.right, env), Val(a.e1, env), Val(b.e1, env),
                c0, CollectedVal(op, a.acc, env), CollectedVal(op, b.acc, env));
      ValOfBin(op, a.e1, b.e1, env);
      ValOfBin(op, e1.left, e1.right, env);
    } else if IsOp(op, e2) {
      var a := ExtractEq(op, acc, e1, e2.left);
      var b := ExtractEq(op, a.acc, a.e1, e2.right);
      ExtractEqSplits(op, acc, e1, e2.left, env);
      ExtractEqSplits(op, a.acc, a.e1, e2.right, env);
      SplitStep(op, Val(e2.left, env), Val(e2.right, env), Val(a.e2, env), Val(b.e2, env),
                c0, CollectedVal(op, a.acc, env), CollectedVal(op, b.acc, env));
      ValOfBin(op, a.e2, b.e2, env);
      ValOfBin(op, e2.left, e2.right, env);
    } else if ExprEq(e1, e2) {
      ExprEqSound(e1, e2, env);
      if acc.Found? { ValOfBin(op, acc.common, e1, env); }
    }
  }

  lemma SplitStep(op: Op, l: Tri, r: Tri, l': Tri, r': Tri, c0: Tri, c1: Tri, c2: Tri)
    requires Apply(op, l, c0) == Apply(op, l', c1)
    requires Apply(op, r, c1) == Apply(op, r', c2)
    ensures Apply(op, Apply(op, l, r), c0) == Apply(op, Apply(op, l', r'), c2)
  {
    assert Apply(op, Apply(op, l, r), c0) == Apply(op, Apply(op, l, c0), r);
    assert Apply(op, Apply(op, l', c1), r) == Apply(op, l', Apply(op, r, c1));
    assert Apply(op, Apply(op, l', r'), c2) == Apply(op, l', Apply(op, r', c2));
  }

  /**
   * The test of expr_eliminate_dups2: everything in the negation of x can be
   * extracted from y.
   */
  predicate Excludes(op: Op, x: Expr, y: Expr) {
    ExtractEqTop(op, Transform(Not(x)), y).e1 == Symbol(Unit(op))
  }

  /** If the test passes, y lies on the far side of the negation of x. */
  lemma ExcludesSound(op: Op, x: Expr, y: Expr, env: Env)
    requires Consistent(env) && Excludes(op, x, y)
    ensures op == And ==> Val(y, env) <= TriNot(Val(x, env))
    ensures op == Or ==> Val(y, env) >= TriNot(Val(x, env))
  {
    var t := Transform(Not(x));
    assert Val(t, env) == TriNot(Val(x, env)) by { TransformKeepsValue(Not(x), env); }
    WholeBounds(op, t, y, env);
  }

  lemma WholeBounds(op: Op, t: Expr, y: Expr, env: Env)
    requires ConstantsHold(env) && ExtractEqTop(op, t, y).e1 == Symbol(Unit(op))
    ensures op == And ==> Val(y, env) <= Val(t, env)
    ensures op == Or ==> Val(y, env) >= Val(t, env)
  {
    var r := ExtractEq(op, Nothing, t, y);
    ExtractEqSplits(op, Nothing, t, y, env);
    EliminateYnKeepsValue(r.e1, env);
    assert Val(r.e1, env) == CollectedVal(op, Nothing, env);
    WholeIsCommon(op, Val(t, env), Val(y, env), CollectedVal(op, r.acc, env), Val(r.e2, env));
  }

  /** If x is nothing but the common part c, then y, being c and more, is bounded by x. */
  lemma WholeIsCommon(op: Op, x: Tri, y: Tri, c: Tri, rest: Tri)
    requires var u: Tri := if op == And then YES else NO;
      Apply(op, x, u) == Apply(op, u, c) && Apply(op, y, u) == Apply(op, rest, c)
    ensures op == And ==> y <= x
    ensures op == Or ==> y >= x
  {
  }

  /**
   * Exactly when the rule behind the test holds: x && y is n, respectively
   * x || y is y, unless both operands are m.
   */
  lemma ExcludesExact(op: Op, x: Expr, y: Expr, env: Env)
    requires Consistent(env) && Excludes(op, x, y)
    ensures Apply(op, Val(x, env), Val(y, env)) == env.tri(Zero(op)) <==>
            !(Val(x, env) == MOD && Val(y, env) == MOD)
  {
    ExcludesSound(op, x, y, env);
  }
}
